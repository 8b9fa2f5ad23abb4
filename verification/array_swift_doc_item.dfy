/**
  `Array+SwiftDocItem.swift`: the pre-order walk that lists every item of a
  forest of doc items, each followed by all of its descendants.
 */
module ArraySwiftDocItem {
  import opened SwiftDocItem
  import opened Wrappers
  import Text

  /** The number of items in a forest, children included. */
  function CountList(items: seq<Item>): nat
    decreases items
  {
    if items == [] then 0 else 1 + CountChildren(items[0]) + CountList(items[1..])
  }

  function CountChildren(item: Item): nat
    decreases item
  {
    if item.properties.Properties? then CountList(item.properties.items) else 0
  }

  /** `getChildren(from:)`: all descendants of `item` in pre-order, or none
      when it has no children list. */
  function GetChildren(item: Item): (r: Option<seq<Item>>)
    ensures r.None? <==> item.properties.NoProperties?
    ensures r.Some? ==> |r.value| == CountChildren(item)
    decreases item, 1
  {
    if item.properties.NoProperties? then None else Some(Walk(item.properties.items))
  }

  /** The pre-order walk of a list: each item, then its descendants, then
      the next item. */
  function Walk(items: seq<Item>): (r: seq<Item>)
    ensures |r| == CountList(items)
    decreases items, 0
  {
    if items == [] then []
    else [items[0]] + GetChildren(items[0]).GetOr([]) + Walk(items[1..])
  }

  /** `enumeratedChildren()`, written with the loop of the Swift code. */
  method EnumeratedChildren(items: seq<Item>) returns (enumerated: seq<Item>)
    ensures enumerated == Walk(items)
    ensures |enumerated| == CountList(items)
    ensures items == [] ==> enumerated == []
  {
    enumerated := [];
    var i := 0;
    while i < |items|
      invariant 0 <= i <= |items|
      invariant Walk(items) == enumerated + Walk(items[i..])
    {
      var item := items[i];
      var kids := GetChildren(item).GetOr([]);
      ghost var rest := Walk(items[i + 1..]);
      assert Walk(items[i..]) == ([item] + kids) + rest by {
        assert items[i..][0] == item && items[i..][1..] == items[i + 1..];
      }
      ghost var before := enumerated;
      enumerated := enumerated + [item];
      var itemChildren := GetChildren(item);
      if itemChildren.Some? {
        enumerated := enumerated + itemChildren.value;
      } else {
        assert enumerated == enumerated + kids;
      }
      Text.ConcatAssoc(before, [item], kids);
      Text.ConcatAssoc(before, [item] + kids, rest);
      i := i + 1;
    }
    assert items[i..] == [];
  }

  /** Walking a concatenation walks the parts one after the other. */
  lemma {:induction false} WalkConcat(a: seq<Item>, b: seq<Item>)
    ensures Walk(a + b) == Walk(a) + Walk(b)
    decreases a
  {
    if a == [] {
      assert a + b == b;
    } else {
      assert (a + b)[1..] == a[1..] + b;
      WalkConcat(a[1..], b);
    }
  }

  /** The offset at which the `k`-th top-level item appears in the walk:
      after the first `k` items and all their descendants. */
  lemma {:induction false} TopLevelPositions(items: seq<Item>, k: nat)
    requires k < |items|
    ensures CountList(items[..k]) + 1 + CountChildren(items[k]) <= |Walk(items)|
    ensures Walk(items)[CountList(items[..k])] == items[k]
    ensures Walk(items)[CountList(items[..k]) + 1..CountList(items[..k]) + 1 + CountChildren(items[k])]
         == GetChildren(items[k]).GetOr([])
  {
    assert items == items[..k] + items[k..];
    WalkConcat(items[..k], items[k..]);
    assert items[k..] == [items[k]] + items[k + 1..];
  }

  /** Top-level items keep their relative order in the walk. */
  lemma TopLevelOrder(items: seq<Item>, j: nat, k: nat)
    requires j < k < |items|
    ensures CountList(items[..j]) < CountList(items[..k])
  {
    assert items[..k] == items[..j] + items[j..k];
    WalkConcat(items[..j], items[j..k]);
    assert items[j..k] != [];
  }

  /** An item without children, or with an empty list of them, contributes
      only itself. */
  lemma LeafContributesItself(item: Item, rest: seq<Item>)
    requires item.properties.NoProperties? || item.properties.items == []
    ensures Walk([item] + rest) == [item] + Walk(rest)
  {
    assert ([item] + rest)[1..] == rest;
  }
}
