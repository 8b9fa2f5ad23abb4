/**
  `SwiftDocItem`: one documented entity with its children. The declaration
  shown for an item is chosen from the two declarations the introspection
  tool reports, and every item has a relative link used by the exported
  pages.
 */
module SwiftDocItem {
  import Text
  import StringExtra
  import AccessControl
  import TypeKind
  import SaveFormat
  import PageCount
  import opened Wrappers

  datatype Item = Item(
    title: string,
    accessControl: AccessControl.Level,
    comment: Option<string>,
    sourceFile: string,
    kind: TypeKind.Kind,
    properties: Properties,
    attributes: seq<string>,
    docDeclaration: Option<string>,
    parsedDeclaration: Option<string>)

  /** The optional children of an item (Swift's `[SwiftDocItem]?`). It is a
      datatype of its own, not an `Option`, so that recursion through it is
      seen to terminate. */
  datatype Properties = NoProperties | Properties(items: seq<Item>)

  const NoDeclaration := "no declaration"

  /** The declaration before clean-up: the parsed one, then the documented
      one; for a `lazy` item the other way round. */
  function RawDeclaration(item: Item): (r: string)
    ensures "lazy" !in item.attributes && item.parsedDeclaration.Some? ==> r == item.parsedDeclaration.value
    ensures "lazy" in item.attributes && item.docDeclaration.Some? ==> r == item.docDeclaration.value
    ensures "lazy" !in item.attributes && item.parsedDeclaration.None? && item.docDeclaration.Some?
      ==> r == item.docDeclaration.value
    ensures "lazy" in item.attributes && item.docDeclaration.None? && item.parsedDeclaration.Some?
      ==> r == item.parsedDeclaration.value
    ensures item.parsedDeclaration.None? && item.docDeclaration.None? ==> r == NoDeclaration
    ensures r == NoDeclaration || Some(r) == item.parsedDeclaration || Some(r) == item.docDeclaration
  {
    if "lazy" in item.attributes then
      item.docDeclaration.GetOr(item.parsedDeclaration.GetOr(NoDeclaration))
    else
      item.parsedDeclaration.GetOr(item.docDeclaration.GetOr(NoDeclaration))
  }

  /** Replacing the pattern `\s+=$` by nothing: a final `=` preceded by a run
      of whitespace loses both. The leftmost match starts at the beginning
      of the whole run, and there is at most one match. */
  function StripTrailingEquals(s: string): (r: string)
    ensures |r| <= |s| && r == s[..|r|]
  {
    if 2 <= |s| && s[|s| - 1] == '=' && Text.IsSpace(s[|s| - 2]) then
      Text.TrimEndShape(s[..|s| - 1]);
      Text.TrimEnd(s[..|s| - 1])
    else
      s
  }

  /** The string ends in whitespace followed by `=`. */
  predicate EndsInSpacedEquals(s: string) {
    2 <= |s| && s[|s| - 1] == '=' && Text.IsSpace(s[|s| - 2])
  }

  /** What the clean-up removes is exactly a maximal whitespace run and the
      final `=`; a string not ending that way is untouched. */
  lemma StripTrailingEqualsRemovesOneRun(s: string)
    ensures !EndsInSpacedEquals(s) ==> StripTrailingEquals(s) == s
    ensures EndsInSpacedEquals(s) ==>
      var r := StripTrailingEquals(s);
      && |r| + 2 <= |s|
      && (forall i :: |r| <= i < |s| - 1 ==> Text.IsSpace(s[i]))
      && (r == [] || !Text.IsSpace(r[|r| - 1]))
  {
    if EndsInSpacedEquals(s) {
      Text.TrimEndShape(s[..|s| - 1]);
    }
  }

  /** Stripping twice strips once more only if the string still ends in
      whitespace and `=`: "a = =" becomes "a =", not "a". */
  lemma StripOnlyOnce()
    ensures StripTrailingEquals("a = =") == "a ="
  {
    assert "a = ="[..4] == "a = ";
    assert Text.TrimEnd("a = ") == Text.TrimEnd("a =");
  }

  /** `declaration` */
  function Declaration(item: Item): (r: string)
    ensures item.parsedDeclaration.None? && item.docDeclaration.None? ==> r == NoDeclaration
    ensures "lazy" !in item.attributes && item.parsedDeclaration.Some? && !EndsInSpacedEquals(item.parsedDeclaration.value)
      ==> r == item.parsedDeclaration.value
    ensures "lazy" in item.attributes && item.docDeclaration.Some? && !EndsInSpacedEquals(item.docDeclaration.value)
      ==> r == item.docDeclaration.value
    ensures "lazy" !in item.attributes && item.parsedDeclaration.None? && item.docDeclaration.Some?
      && !EndsInSpacedEquals(item.docDeclaration.value)
      ==> r == item.docDeclaration.value
    ensures "lazy" in item.attributes && item.docDeclaration.None? && item.parsedDeclaration.Some?
      && !EndsInSpacedEquals(item.parsedDeclaration.value)
      ==> r == item.parsedDeclaration.value
    ensures |r| <= |RawDeclaration(item)| && r == RawDeclaration(item)[..|r|]
  {
    StripTrailingEqualsRemovesOneRun(RawDeclaration(item));
    StripTrailingEquals(RawDeclaration(item))
  }

  /** The file extension of a multi-page link: markdown pages end in `md`,
      html and docset pages in `html`. */
  function FileExtension(format: SaveFormat.Format): string {
    if format != SaveFormat.Markdown then "html" else "md"
  }

  /** The folder of a multi-page link: the capitalised kind, slugged.
      Capitalising before a lower-casing slug changes nothing, so the folder
      is the lower-case slug of the kind label. */
  function Folder(kind: TypeKind.Kind): (r: string)
    ensures r == StringExtra.Slug(TypeKind.StringValue(kind), true)
  {
    Text.LowerOfCapitalize(TypeKind.StringValue(kind));
    StringExtra.Slug(Text.Capitalize(TypeKind.StringValue(kind)), true)
  }

  /** `htmlLink(format:output:)`. A multi-page link is a folder and a file
      name separated by the only `/` in it, and ends in the format's
      extension; a single-page link is an anchor: `#` and the lower-case
      slug of the title, with no `/`. */
  function HtmlLink(item: Item, format: SaveFormat.Format, output: PageCount.Style): (r: string)
    ensures output.MultiPage? ==>
      && r == Folder(item.kind) + "/" + StringExtra.Slug(item.title, false) + "." + FileExtension(format)
      && CountOf(r, '/') == 1
      && Text.StartsWith(r, Folder(item.kind) + "/")
      && Text.EndsWith(r, "." + FileExtension(format))
    ensures output.SinglePage? ==>
      && |r| >= 1 && r[0] == '#'
      && r[1..] == StringExtra.Slug(item.title, true)
      && CountOf(r, '/') == 0
      && forall i :: 1 <= i < |r| ==> !Text.IsUpper(r[i])
  {
    match output
    case MultiPage => MultiPageLink(item, format)
    case SinglePage => SinglePageLink(item)
  }

  /** The multi-page link: the folder, `/`, the title slugged with its
      letter case kept, `.` and the extension. */
  function MultiPageLink(item: Item, format: SaveFormat.Format): (r: string)
    ensures r == Folder(item.kind) + "/" + StringExtra.Slug(item.title, false) + "." + FileExtension(format)
    ensures CountOf(r, '/') == 1
    ensures Text.StartsWith(r, Folder(item.kind) + "/")
    ensures Text.EndsWith(r, "." + FileExtension(format))
  {
    var folder, file, ext := Folder(item.kind), StringExtra.Slug(item.title, false), FileExtension(format);
    var link := folder + "/" + file + "." + ext;
    ExtensionIsWord(format);
    assert CountOf(link, '/') == 1 && Text.StartsWith(link, folder + "/") && Text.EndsWith(link, "." + ext) by {
      LinkShape(folder, file, ext);
    }
    link
  }

  /** The file name keeps the title's letter case: a title of word
      characters, `MyClass` say, names the file `MyClass.html`. */
  lemma WordTitleKeepsCase(item: Item, format: SaveFormat.Format)
    requires forall i :: 0 <= i < |item.title| ==> Text.IsWord(item.title[i])
    ensures MultiPageLink(item, format) == Folder(item.kind) + "/" + item.title + "." + FileExtension(format)
  {
    StringExtra.ReplaceFixedPoint(item.title);
  }

  lemma ExtensionIsWord(format: SaveFormat.Format)
    ensures forall i :: 0 <= i < |FileExtension(format)| ==> Text.IsWord(FileExtension(format)[i])
  {
    var ext := FileExtension(format);
    assert ext == "html" || ext == "md";
  }

  function SinglePageLink(item: Item): (r: string)
    ensures |r| >= 1 && r[0] == '#'
    ensures r[1..] == StringExtra.Slug(item.title, true)
    ensures CountOf(r, '/') == 0
    ensures forall i :: 1 <= i < |r| ==> !Text.IsUpper(r[i])
  {
    var slug := StringExtra.Slug(item.title, true);
    var link := "#" + slug;
    Text.SlashAndHyphenAreNotWord();
    CountOfAbsent(link, '/');
    assert link[1..] == slug;
    link
  }

  /** `"global func"` gives the folder `global-func`. */
  lemma GlobalFuncFolder(kind: TypeKind.Kind)
    requires kind == TypeKind.GlobalFunc
    ensures Folder(kind) == "global-func"
  {
    var w1, w2 := "global", "func";
    GlobalFuncWords(kind, w1, w2);
    SlugTwoWords(w1, w2);
  }

  /** The two lower-case words of `"global func"`. */
  lemma GlobalFuncWords(kind: TypeKind.Kind, w1: string, w2: string)
    requires kind == TypeKind.GlobalFunc && w1 == "global" && w2 == "func"
    ensures TypeKind.StringValue(kind) == w1 + " " + w2
    ensures w1 + "-" + w2 == "global-func"
    ensures forall i :: 0 <= i < |w1| ==> Text.IsLower(w1[i])
    ensures forall i :: 0 <= i < |w2| ==> Text.IsLower(w2[i])
  {
  }

  /** Two lower-case words separated by a space slug to the words joined by `-`. */
  lemma SlugTwoWords(w1: string, w2: string)
    requires forall i :: 0 <= i < |w1| ==> Text.IsLower(w1[i])
    requires forall i :: 0 <= i < |w2| ==> Text.IsLower(w2[i])
    requires w1 != [] && w2 != []
    ensures StringExtra.Slug(w1 + " " + w2, true) == w1 + "-" + w2
  {
    var s := w1 + " " + w2;
    Text.LowerStrOfLowercase(s);
    Text.ConcatAssoc(w1, " ", w2);
    StringExtra.ReplaceWordRun(w1);
    StringExtra.ReplaceWordRun(w2);
    StringExtra.ReplaceNonWordRun(" ");
    StringExtra.ReplaceSplitsAtWordBoundary(" ", w2);
    StringExtra.ReplaceSplitsAtWordBoundary(w1, " " + w2);
    Text.ConcatAssoc(w1, "-", w2);
  }

  /** Counts the occurrences of `c` in `s`. */
  function CountOf(s: string, c: char): nat {
    if s == [] then 0 else (if s[0] == c then 1 else 0) + CountOf(s[1..], c)
  }

  lemma {:induction false} CountOfConcat(a: string, b: string, c: char)
    ensures CountOf(a + b, c) == CountOf(a, c) + CountOf(b, c)
  {
    if a != [] {
      assert (a + b)[1..] == a[1..] + b;
      CountOfConcat(a[1..], b, c);
    } else {
      assert a + b == b;
    }
  }

  lemma {:induction false} CountOfAbsent(s: string, c: char)
    requires forall i :: 0 <= i < |s| ==> s[i] != c
    ensures CountOf(s, c) == 0
  {
    if s != [] {
      CountOfAbsent(s[1..], c);
    }
  }

  /** Two slugs joined by `/`, then `.` and an extension, hold one `/`. */
  lemma LinkShape(folder: string, file: string, ext: string)
    requires forall i :: 0 <= i < |folder| ==> Text.IsWord(folder[i]) || folder[i] == '-'
    requires forall i :: 0 <= i < |file| ==> Text.IsWord(file[i]) || file[i] == '-'
    requires forall i :: 0 <= i < |ext| ==> Text.IsWord(ext[i])
    ensures var link := folder + "/" + file + "." + ext;
      && CountOf(link, '/') == 1
      && Text.StartsWith(link, folder + "/")
      && Text.EndsWith(link, "." + ext)
  {
    var tail := file + "." + ext;
    var link := folder + "/" + file + "." + ext;
    assert link == (folder + "/") + tail;
    assert link == (folder + "/" + file) + ("." + ext);
    Text.SlashAndHyphenAreNotWord();
    CountOfAbsent(folder, '/');
    assert forall i :: 0 <= i < |tail| ==> tail[i] != '/' by {
      forall i | 0 <= i < |tail| ensures tail[i] != '/' {
        if i < |file| { assert tail[i] == file[i]; }
        else if i > |file| { assert tail[i] == ext[i - |file| - 1]; }
      }
    }
    CountOfAbsent(tail, '/');
    CountOfConcat(folder, "/", '/');
    CountOfConcat(folder + "/", tail, '/');
  }

  /** The convenience initialiser, which parses the access string: a level's
      name in any letter case gives that level, so the level depends only on
      the lower-cased string; every other field is stored as given. */
  function Make(title: string, accessControl: string, comment: Option<string>, sourceFile: string,
                kind: TypeKind.Kind, properties: Properties, attributes: seq<string>,
                docDeclaration: Option<string>, parsedDeclaration: Option<string>): (r: Item)
    ensures forall a: AccessControl.Level :: Text.LowerStr(accessControl) == AccessControl.StringValue(a) ==> r.accessControl == a
    ensures r.accessControl == AccessControl.CreateFrom(Text.LowerStr(accessControl))
    ensures r.title == title && r.comment == comment && r.sourceFile == sourceFile && r.kind == kind
    ensures r.properties == properties && r.attributes == attributes
    ensures r.docDeclaration == docDeclaration && r.parsedDeclaration == parsedDeclaration
  {
    AccessControl.CreateFromCaseInsensitive(accessControl);
    Item(title, AccessControl.CreateFrom(accessControl), comment, sourceFile, kind, properties,
         attributes, docDeclaration, parsedDeclaration)
  }

  /** An access string the parser does not know makes an `internal` item. */
  lemma MakeDefaultsToInternal(title: string, accessControl: string, comment: Option<string>, sourceFile: string,
                               kind: TypeKind.Kind, properties: Properties, attributes: seq<string>,
                               docDeclaration: Option<string>, parsedDeclaration: Option<string>)
    requires forall a: AccessControl.Level :: AccessControl.StringValue(a) != Text.LowerStr(accessControl)
    ensures Make(title, accessControl, comment, sourceFile, kind, properties, attributes,
                 docDeclaration, parsedDeclaration).accessControl == AccessControl.Internal
  {
    AccessControl.UnknownIsInternal(accessControl);
  }
}
