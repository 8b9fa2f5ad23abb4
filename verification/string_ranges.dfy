/**
  `String+Ranges.swift`, the older copy of two of the helpers in
  `String+Extra.swift`. The Swift bodies are identical, so this module hands
  each call to `StringExtra` and restates what the callers of this file rely on.
 */
module StringRanges {
  import StringExtra
  import opened Wrappers

  /** `repeated(count:)`: `count` copies of `s`, empty for a count of zero or less. */
  function Repeated(s: string, count: int): (r: string)
    ensures count <= 0 ==> r == []
    ensures |r| == (if count <= 0 then 0 else count * |s|)
    ensures count > 0 ==> r == s + Repeated(s, count - 1)
  {
    if count > 0 then
      StringExtra.RepeatedFront(s, count);
      assert Repeated(s, count - 1) == StringExtra.Repeated(s, count - 1);
      StringExtra.Repeated(s, count)
    else
      StringExtra.Repeated(s, count)
  }

  /** `ranges(of:options:range:locale:)` with a literal pattern: the
      successive leftmost occurrences of `needle`, each equal to it, in
      increasing order without overlap, inside the explicit range if there is
      one and otherwise short of the final character. */
  method Ranges(s: string, needle: string, range: Option<(nat, nat)>) returns (rs: seq<(nat, nat)>)
    requires range.Some? ==> range.value.0 <= range.value.1 <= |s|
    ensures s == [] ==> rs == []
    ensures forall k :: 0 <= k < |rs| ==> rs[k].0 <= rs[k].1 <= |s| && s[rs[k].0..rs[k].1] == needle
    ensures forall k :: 0 <= k < |rs| - 1 ==> rs[k].0 < rs[k].1 <= rs[k + 1].0
    ensures range.None? ==> forall k :: 0 <= k < |rs| ==> rs[k].1 < |s|
    ensures range.Some? ==> forall k :: 0 <= k < |rs| ==> range.value.0 <= rs[k].0 && rs[k].1 <= range.value.1
    ensures StringExtra.Leftmost(s, needle, rs, StringExtra.SearchLow(range), StringExtra.SearchEnd(s, range))
  {
    rs := StringExtra.Ranges(s, needle, range);
    MatchesAreSlices(s, needle, rs, StringExtra.SearchLow(range), StringExtra.SearchEnd(s, range));
  }

  /** Ordered matches, read as slices of `s`. */
  lemma MatchesAreSlices(s: string, needle: string, rs: seq<(nat, nat)>, lo: int, hi: int)
    requires StringExtra.OrderedMatches(s, needle, rs, lo, hi)
    ensures forall k :: 0 <= k < |rs| ==> rs[k].0 <= rs[k].1 <= |s| && s[rs[k].0..rs[k].1] == needle
    ensures forall k :: 0 <= k < |rs| - 1 ==> rs[k].0 < rs[k].1 <= rs[k + 1].0
  {
    forall k | 0 <= k < |rs| ensures rs[k].0 <= rs[k].1 <= |s| && s[rs[k].0..rs[k].1] == needle {
      assert StringExtra.MatchWithin(s, needle, rs[k].0, hi);
    }
  }
}
