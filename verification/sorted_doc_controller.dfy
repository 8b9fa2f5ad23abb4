/**
  The item controller of `Models/SortedDocController.swift`: turns the raw
  containers of decoded files into titled doc items and keeps them in one
  list. This revision builds its own item shape: the access string is kept
  as decoded and the declaration is chosen once, when the item is built.
 */
module SortedDocController {
  import TypeKind
  import DocFile
  import opened Wrappers

  datatype Item = Item(
    title: string,
    accessibility: string,
    comment: Option<string>,
    sourceFile: string,
    kind: TypeKind.Kind,
    properties: Properties,
    declaration: string)

  /** The optional children of an item. */
  datatype Properties = NoProperties | Properties(items: seq<Item>)

  /** A container becomes an item only when it has both a name and an access level. */
  predicate Usable(c: DocFile.DocContainer) {
    c.name.Some? && c.accessControl.Some?
  }

  /** The title of an item: `Other` kinds keep their bare name, other kinds
      are qualified by the parent's name when there is one. */
  function Title(kind: TypeKind.Kind, name: string, parentName: string): (r: string)
    ensures r == name <==> kind.Other? || parentName == []
    ensures |name| <= |r| && r[|r| - |name|..] == name
    ensures r != name ==> |r| == |parentName| + 1 + |name| && r[..|parentName|] == parentName && r[|parentName|] == '.'
  {
    if kind.Other? || parentName == [] then name else parentName + "." + name
  }

  /** The item built from one usable container; its children are built with
      the container's bare name as their parent name. */
  function ItemFor(c: DocFile.DocContainer, sourceFile: string, parentName: string): (r: Item)
    requires Usable(c)
    ensures r.kind == TypeKind.CreateFrom(c.kind)
    ensures r.title == if TypeKind.CreateFrom(c.kind).Other? || parentName == [] then c.name.value
                       else parentName + "." + c.name.value
    ensures r.accessibility == c.accessControl.value && r.comment == c.comment && r.sourceFile == sourceFile
    ensures c.parsedDeclaration.Some? ==> r.declaration == c.parsedDeclaration.value
    ensures c.parsedDeclaration.None? && c.docDeclaration.Some? ==> r.declaration == c.docDeclaration.value
    ensures c.parsedDeclaration.None? && c.docDeclaration.None? ==> r.declaration == "no declaration"
    ensures r.properties.NoProperties? <==> c.nestedContainers.NoSubstructure?
    decreases c, 1
  {
    var name := c.name.value;
    var kind := TypeKind.CreateFrom(c.kind);
    var children := if c.nestedContainers.Substructure? then Properties(Build(c.nestedContainers.containers, sourceFile, name)) else NoProperties;
    var declaration := c.parsedDeclaration.GetOr(c.docDeclaration.GetOr("no declaration"));
    Item(Title(kind, name, parentName), c.accessControl.value, c.comment, sourceFile, kind, children, declaration)
  }

  /** The loop of `getDocItemsFrom` over a non-nil list: one item per usable
      container, in the containers' order; the others are skipped. */
  function Build(cs: seq<DocFile.DocContainer>, sourceFile: string, parentName: string): (r: seq<Item>)
    ensures |r| <= |cs|
    decreases cs, 0
  {
    if cs == [] then []
    else
      var rest := Build(cs[1..], sourceFile, parentName);
      if Usable(cs[0]) then [ItemFor(cs[0], sourceFile, parentName)] + rest else rest
  }

  /** `getDocItemsFrom(containers:sourceFile:parentName:)` */
  function GetDocItemsFrom(containers: Option<seq<DocFile.DocContainer>>, sourceFile: string, parentName: string): (r: Option<seq<Item>>)
    ensures r.None? <==> containers.None?
    ensures r.Some? ==> |r.value| <= |containers.value|
  {
    if containers.None? then None else Some(Build(containers.value, sourceFile, parentName))
  }

  /** The usable containers, in order. */
  function UsableOnly(cs: seq<DocFile.DocContainer>): (r: seq<DocFile.DocContainer>)
    ensures forall i :: 0 <= i < |r| ==> Usable(r[i]) && r[i] in cs
    ensures forall c :: c in cs && Usable(c) ==> c in r
  {
    if cs == [] then [] else (if Usable(cs[0]) then [cs[0]] else []) + UsableOnly(cs[1..])
  }

  /** Building is filtering to the usable containers, then converting each
      one: the items correspond one to one, in order, to the usable containers. */
  lemma {:induction false} BuildIsFilterThenMap(cs: seq<DocFile.DocContainer>, sourceFile: string, parentName: string)
    ensures |Build(cs, sourceFile, parentName)| == |UsableOnly(cs)|
    ensures forall i :: 0 <= i < |UsableOnly(cs)| ==>
      Build(cs, sourceFile, parentName)[i] == ItemFor(UsableOnly(cs)[i], sourceFile, parentName)
  {
    if cs != [] {
      BuildIsFilterThenMap(cs[1..], sourceFile, parentName);
      var built, kept := Build(cs, sourceFile, parentName), UsableOnly(cs);
      var rest, keptRest := Build(cs[1..], sourceFile, parentName), UsableOnly(cs[1..]);
      if Usable(cs[0]) {
        assert built == [ItemFor(cs[0], sourceFile, parentName)] + rest;
        assert kept == [cs[0]] + keptRest;
        forall i | 0 <= i < |kept| ensures built[i] == ItemFor(kept[i], sourceFile, parentName) {
          if i > 0 {
            assert built[i] == rest[i - 1] && kept[i] == keptRest[i - 1];
          }
        }
      } else {
        assert built == rest && kept == keptRest;
      }
    }
  }

  /** A list with no usable container gives no items. */
  lemma {:induction false} NothingUsable(cs: seq<DocFile.DocContainer>, sourceFile: string, parentName: string)
    requires forall i :: 0 <= i < |cs| ==> !Usable(cs[i])
    ensures Build(cs, sourceFile, parentName) == []
  {
    if cs != [] {
      NothingUsable(cs[1..], sourceFile, parentName);
    }
  }

  /** Every item, at every depth, records the same source file. */
  predicate AllFrom(items: seq<Item>, sourceFile: string)
    decreases items
  {
    forall i :: 0 <= i < |items| ==>
      && items[i].sourceFile == sourceFile
      && (items[i].properties.Properties? ==> AllFrom(items[i].properties.items, sourceFile))
  }

  lemma {:induction false} BuildKeepsSourceFile(cs: seq<DocFile.DocContainer>, sourceFile: string, parentName: string)
    ensures AllFrom(Build(cs, sourceFile, parentName), sourceFile)
    decreases cs, 0
  {
    if cs != [] {
      var rest := Build(cs[1..], sourceFile, parentName);
      BuildKeepsSourceFile(cs[1..], sourceFile, parentName);
      if Usable(cs[0]) {
        var item := ItemFor(cs[0], sourceFile, parentName);
        ItemKeepsSourceFile(cs[0], sourceFile, parentName);
        assert Build(cs, sourceFile, parentName) == [item] + rest;
        forall i | 0 <= i < |[item] + rest|
          ensures ([item] + rest)[i].sourceFile == sourceFile
          ensures ([item] + rest)[i].properties.Properties? ==> AllFrom(([item] + rest)[i].properties.items, sourceFile)
        {
          if i > 0 {
            assert ([item] + rest)[i] == rest[i - 1];
          }
        }
      }
    }
  }

  lemma {:induction false} ItemKeepsSourceFile(c: DocFile.DocContainer, sourceFile: string, parentName: string)
    requires Usable(c)
    ensures ItemFor(c, sourceFile, parentName).properties.Properties? ==>
      AllFrom(ItemFor(c, sourceFile, parentName).properties.items, sourceFile)
    decreases c, 1
  {
    if c.nestedContainers.Substructure? {
      BuildKeepsSourceFile(c.nestedContainers.containers, sourceFile, c.name.value);
    }
  }

  /** A usable child of a non-`Other` kind is titled with its parent's bare
      name, whatever the parent's own title is (a parent with an empty name
      leaves its children unqualified). */
  lemma ChildTitleUsesBareName(c: DocFile.DocContainer, sourceFile: string, parentName: string, i: nat)
    requires Usable(c) && c.nestedContainers.Substructure? && c.name.value != []
    requires i < |UsableOnly(c.nestedContainers.containers)|
    requires !TypeKind.CreateFrom(UsableOnly(c.nestedContainers.containers)[i].kind).Other?
    ensures var item := ItemFor(c, sourceFile, parentName);
      var d := UsableOnly(c.nestedContainers.containers)[i];
      && item.properties.Properties? && i < |item.properties.items|
      && item.properties.items[i].title == c.name.value + "." + d.name.value
  {
    BuildIsFilterThenMap(c.nestedContainers.containers, sourceFile, c.name.value);
  }

  /** Top-level items, built with no parent name, are titled by their bare name. */
  lemma TopLevelTitles(cs: seq<DocFile.DocContainer>, sourceFile: string)
    ensures |Build(cs, sourceFile, "")| == |UsableOnly(cs)|
    ensures forall i :: 0 <= i < |UsableOnly(cs)| ==>
      Build(cs, sourceFile, "")[i].title == UsableOnly(cs)[i].name.value
  {
    BuildIsFilterThenMap(cs, sourceFile, "");
  }

  /** `add(doc:)`: the file's items go after the existing ones; a file with
      no path counts as coming from "". */
  function AddDoc(docs: seq<Item>, doc: DocFile.DocFile): (r: seq<Item>)
    ensures |r| >= |docs| && r[..|docs|] == docs
    ensures r[|docs|..] == Build(doc.topLevelContainers, doc.filePath.GetOr(""), "")
  {
    var items := GetDocItemsFrom(Some(doc.topLevelContainers), doc.filePath.GetOr(""), "");
    if items.None? then docs else docs + items.value
  }

  /** `add(docs:)`: each file in turn. */
  function AddDocs(docs: seq<Item>, files: seq<DocFile.DocFile>): (r: seq<Item>)
    ensures |r| >= |docs| && r[..|docs|] == docs
    decreases |files|
  {
    if files == [] then docs else AddDocs(AddDoc(docs, files[0]), files[1..])
  }

  /** Adding two batches one after the other is adding them together. */
  lemma {:induction false} AddDocsConcat(docs: seq<Item>, a: seq<DocFile.DocFile>, b: seq<DocFile.DocFile>)
    ensures AddDocs(docs, a + b) == AddDocs(AddDocs(docs, a), b)
    decreases |a|
  {
    if a == [] {
      assert a + b == b;
    } else {
      assert (a + b)[1..] == a[1..] + b;
      AddDocsConcat(AddDoc(docs, a[0]), a[1..], b);
    }
  }

  /** Files whose containers are all unusable add nothing. */
  lemma {:induction false} AddDocsOfUnusable(docs: seq<Item>, files: seq<DocFile.DocFile>)
    requires forall f, i :: f in files && 0 <= i < |f.topLevelContainers| ==> !Usable(f.topLevelContainers[i])
    ensures AddDocs(docs, files) == docs
    decreases |files|
  {
    if files != [] {
      NothingUsable(files[0].topLevelContainers, files[0].filePath.GetOr(""), "");
      AddDocsOfUnusable(docs, files[1..]);
    }
  }
}
