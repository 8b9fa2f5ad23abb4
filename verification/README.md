# SwiftyDocs documentation pipeline, in Dafny

SwiftyDocs turns the symbol tree of a Swift project into Markdown or HTML
documentation. This project models the part that sits between the decoded
symbol tree and the written files:

- **Doc items.** `SortedDocController` builds titled doc items from the raw
  containers of a decoded file. `SwiftDocItem` holds the items, with their
  declaration precedence and link paths. `Array+SwiftDocItem` flattens a forest
  of items in pre-order.
- **Classification.** `TypeKind`, `AccessControl` and `Accessibility` are closed
  enumerations, with an ordering and case-insensitive parsing. The two
  `StringMap` tables shorten the classification strings of the introspection
  tool.
- **Markdown node tree.** `MarkdownDSL` provides the `MDNode` tree and its
  builders (headers, paragraphs, list items, code blocks, links, emphasis). It
  also provides the two-mode renderer, which either writes links inline or
  writes footnote references. Finally there is the clean-up pass that deletes
  blank lines between list items, and the final render that appends the
  footnotes.
- **Page generation.** `MarkdownGenerator` builds the page of one item, with its
  visible members and extensions, and the contents page that groups the visible
  top-level items by kind.
- **String helpers.** `String+Extra` and `String+Ranges` provide `repeated`, the
  `\W+ → -` slug and repeated literal search.

Each Swift file has its own module (`markdown_cleanup.dfy` holds the
`cleanupRender` part of `MarkdownDSL.swift`). Support modules:
- `Text`: ASCII character classes, case mapping, trimming, splitting and joining.
- `Platform`: the Foundation services that stay abstract.
- `DocFile`: the shape of the raw container record.
- `SaveFormat` and `PageCount`: the two output enumerations.
- `Wrappers`: `Option`.

Modelling choices:
- Strings are `seq<char>`.
- The global `MDNode.linkCache` becomes a value. It is a duplicate-free sequence
  of URLs that every link builder and every final render takes and returns.
- The Foundation services are fields of `Platform.Env`, passed in as functions:
  - `hashValue`, which gives the footnote ids;
  - whether `URL(string:)` accepts a destination;
  - `percentEscaped`;
  - `MDNode.codeInline`.
- Where the program's documentation and its code differ, the model follows the code:
  - `finalRender` defaults to footnote links (`inlineLinks: false`).
  - The link folder of a multi-page export is lower-case, because
    `replacingNonWordCharacters()` lower-cases by default after `capitalized`.
  - The copy of `SortedDocController.swift` under `Models/` builds items through
    `SwiftDocItem.Kind`, an `accessibility:` label and a stored declaration, with
    no splicing of enum cases. The model follows that copy and gives it its own
    item type.
- `MarkdownDSL.HeaderStyle` chooses the header the page and contents
  functions build with. `AsWritten` is the program's `header`, and
  `Corrected` is the header its unit test expects (see "## Findings").
  Properties of the generated pages are stated for both.

## Model

| member | source | states |
|---|---|---|
| AccessControl.CreateFrom | SwiftyDocs/Models/AccessControl.swift:45-54 | a string whose lower-cased form is a level's name parses to that level; a string whose lower-cased form names no level parses to `internal` |
| AccessControl.LessIsStrictTotalOrder | SwiftyDocs/Models/AccessControl.swift:16-27 | `private < fileprivate < internal < public < open`, and `<` is irreflexive, transitive and total |
| AccessControl.StringValueInjective | SwiftyDocs/Models/AccessControl.swift:32-40 | two levels have the same string value exactly when they are the same level |
| AccessControl.RoundTrip | SwiftyDocs/Models/AccessControl.swift:32-54 | parsing a level's string value gives the level back |
| AccessControl.CreateFromCaseInsensitive | SwiftyDocs/Models/AccessControl.swift:45-46 | parsing a string and parsing its lower-cased form agree |
| AccessControl.UnknownIsInternal | SwiftyDocs/Models/AccessControl.swift:52 | a string that names no level in any letter case yields `internal` |
| Accessibility.CreateFrom | SwiftyDocs/Models/Accessibility.swift:33-42 | a string whose lower-cased form is a level's name parses to that level; any other string parses to `internal` |
| Accessibility.LessIsStrictTotalOrder | SwiftyDocs/Models/Accessibility.swift:13-21 | the five levels are strictly and totally ordered by raw value |
| Accessibility.StringValueInjective | SwiftyDocs/Models/Accessibility.swift:23-31 | distinct levels have distinct string values |
| Accessibility.RoundTrip | SwiftyDocs/Models/Accessibility.swift:23-42 | parsing a level's string value gives the level back |
| Accessibility.CreateFromCaseInsensitive | SwiftyDocs/Models/Accessibility.swift:33-34 | parsing ignores letter case |
| Accessibility.UnknownIsInternal | SwiftyDocs/Models/Accessibility.swift:40 | an unrecognised string yields `internal` |
| Accessibility.InternalPublicComparisons | SwiftyDocsTests/SwiftyDocsTests.swift:14-24 | `internal < public`, `public > internal`, `public >= internal`, `public >= public` and not `internal >= public` |
| TypeKind.EqualsIsEquality | SwiftyDocs/Models/TypeKind.swift:20-40 | the hand-written `==` holds exactly for the same case with, for `other`, equal payloads |
| TypeKind.TopLevelCasesAreTheFixedKinds | SwiftyDocs/Models/TypeKind.swift:45 | `topLevelCases` lists each of the seven fixed kinds once and no `other` kind |
| TypeKind.CreateFrom | SwiftyDocs/Models/TypeKind.swift:84-95 | the parsed kind's label is the lower-cased input, and it is `other` exactly when that input is none of the seven fixed labels |
| TypeKind.RoundTrip | SwiftyDocs/Models/TypeKind.swift:50-95 | every fixed kind parses back from its string value |
| TypeKind.OtherRoundTrip | SwiftyDocs/Models/TypeKind.swift:84-95 | `createFrom(v)` is `other(v)` exactly when `v` is lower-case and not a fixed label |
| TypeKind.CreateFromCaseInsensitive | SwiftyDocs/Models/TypeKind.swift:85 | parsing a string and parsing its lower-cased form agree |
| TypeKind.OtherDocSetTypeEmpty | SwiftyDocs/Models/TypeKind.swift:75-77 | the docset type of `other(v)` is empty exactly when `v` holds nothing but spaces |
| StringMapHelpers.ValuesNonEmpty | SwiftyDocs/Helpers/StringMap.swift:15-54 | every label in the table is non-empty, so a known key never reaches the fallback |
| StringMapHelpers.Shorten | SwiftyDocs/Helpers/StringMap.swift:57-68 | a known key gives its label; an unknown key gives itself, or its last non-empty `.`-segment when interpretation is asked for |
| StringMapHelpers.AccessibilityKeysParse | SwiftyDocs/Helpers/StringMap.swift:16-20 | every access level has its accessibility key in the table, and that key shortens to the level's name, which parses back to the level |
| StringMapHelpers.DeclarationKeysParse | SwiftyDocs/Helpers/StringMap.swift:23-38 | every fixed kind (class, enum, struct, protocol, extension, typealias, free function and the rest other than `Other`) has its declaration key in the table, and that key shortens to the kind's label, which parses back to the kind |
| StringMapHelpers.StaticKeysShareALabel | SwiftyDocs/Helpers/StringMap.swift:31-33 | the static variable and static method keys both shorten to `static`, so the table is not injective |
| StringMapHelpers.LazyAttributeKey | SwiftyDocs/Helpers/StringMap.swift:44 | the lazy attribute key shortens to `lazy` |
| StringMapModels.ValuesNonEmpty | SwiftyDocs/Models/StringMap.swift:13-47 | every label in the older table is non-empty |
| StringMapModels.Shorten | SwiftyDocs/Models/StringMap.swift:49-60 | a known key gives its label; an unknown key gives itself, or its last non-empty `.`-segment when interpretation is asked for |
| StringMapModels.AccessibilityKeysMapToNames | SwiftyDocs/Models/StringMap.swift:14-18 | every access level has its accessibility key in the older table too, labelled with the level's Swift name |
| StringMapModels.StaticKeysShareALabel | SwiftyDocs/Models/StringMap.swift:29-30 | both static keys shorten to `static` |
| StringMapModels.FreeFunctionAndTypealiasPassThrough | SwiftyDocs/Models/StringMap.swift:49-57 | the free-function and typealias keys are absent from the older table, so they come back verbatim |
| StringExtra.Repeated | SwiftyDocs/Helpers/String+Extra.swift:30-33 | a count of zero or less gives the empty string; otherwise the length is the count times the length of the string |
| StringExtra.RepeatedAdd | SwiftyDocs/Helpers/String+Extra.swift:30-33 | repeating `a + b` times is repeating `a` times followed by repeating `b` times |
| StringExtra.RepeatedBlocks | SwiftyDocs/Helpers/String+Extra.swift:30-33 | every block of the repetition is the string itself |
| StringExtra.RepeatedChar | SwiftyDocs/Helpers/String+Extra.swift:30-33 | a repeated single character fills every position |
| StringExtra.ReplaceNonWord | SwiftyDocs/Helpers/String+Extra.swift:41 | the replacement holds only word characters and `-`, never `--`, is empty only for the empty input, and starts with `-` exactly when the input starts with a non-word character |
| StringExtra.Slug | SwiftyDocs/Helpers/String+Extra.swift:36-42 | a slug holds only word characters and single hyphens, and no upper-case letter when lower-casing is on |
| StringExtra.ReplaceWordRun | SwiftyDocs/Helpers/String+Extra.swift:41 | word characters are left unchanged |
| StringExtra.ReplaceNonWordRun | SwiftyDocs/Helpers/String+Extra.swift:41 | a maximal non-word run becomes a single `-` |
| StringExtra.ReplaceSplitsAtWordBoundary | SwiftyDocs/Helpers/String+Extra.swift:41 | the replacement distributes over a concatenation cut next to a word character |
| StringExtra.ReplaceFixedPoint | SwiftyDocs/Helpers/String+Extra.swift:41 | a string of word characters and single hyphens is its own replacement |
| StringExtra.SlugIdempotent | SwiftyDocs/Helpers/String+Extra.swift:36-42 | slugging twice with the same flag is slugging once |
| StringExtra.FirstMatch | SwiftyDocs/Helpers/String+Extra.swift:19 | a literal search finds the leftmost occurrence inside the range, or reports none when there is none |
| StringExtra.AppendMatch | SwiftyDocs/Helpers/String+Extra.swift:18-24 | one more leftmost match after the last keeps the matches ordered, non-overlapping and leftmost |
| StringExtra.Ranges | SwiftyDocs/Helpers/String+Extra.swift:13-27 | an empty receiver or needle gives no ranges; the ranges are increasing, non-overlapping occurrences of the needle, each the leftmost after the previous one; none remains after the last; without a range no match includes the final character; with one, every match lies inside it |
| StringRanges.Repeated | SwiftyDocs/Helpers/String+Ranges.swift:28-31 | a count of zero or less gives the empty string; otherwise the string followed by one repetition fewer |
| StringRanges.Ranges | SwiftyDocs/Helpers/String+Ranges.swift:12-26 | an empty receiver gives no ranges; every range is an occurrence of the needle; ranges are increasing and non-overlapping, leftmost, exclude the final character without a range and lie inside an explicit one |
| SwiftDocItem.RawDeclaration | SwiftyDocs/Models/SwiftDocItem.swift:32-37 | without `lazy` the parsed declaration wins and the documented one stands in when it is missing; with `lazy` the documented one wins and the parsed one stands in; with neither the text `no declaration`; the result is always one of the three |
| SwiftDocItem.StripTrailingEquals | SwiftyDocs/Models/SwiftDocItem.swift:39 | the clean-up only cuts a suffix |
| SwiftDocItem.StripTrailingEqualsRemovesOneRun | SwiftyDocs/Models/SwiftDocItem.swift:39 | a string not ending in whitespace and `=` is unchanged; otherwise exactly the final `=` and the whitespace run before it go |
| SwiftDocItem.StripOnlyOnce | SwiftyDocs/Models/SwiftDocItem.swift:39 | the pattern is removed once: `a = =` becomes `a =` |
| SwiftDocItem.Declaration | SwiftyDocs/Models/SwiftDocItem.swift:32-40 | the declaration follows the same precedence in every case (including each fallback) when the chosen text does not end in spaced `=`, is `no declaration` without either source, and is always a prefix of the raw declaration |
| SwiftDocItem.GlobalFuncFolder | SwiftyDocs/Models/SwiftDocItem.swift:61 | the folder of a global function is `global-func` |
| SwiftDocItem.SlugTwoWords | SwiftyDocs/Models/SwiftDocItem.swift:61 | two lower-case words separated by a space slug to the words joined by `-` |
| SwiftDocItem.Folder | SwiftyDocs/Models/SwiftDocItem.swift:61 | the link folder is the lower-cased slug of the kind's label: `capitalized` before the slug changes nothing |
| SwiftDocItem.HtmlLink | SwiftyDocs/Models/SwiftDocItem.swift:60-72 | a multi-page link is exactly the folder, `/`, the title with its non-word runs replaced and its letter case kept, `.` and the format's extension, so it holds exactly one `/`; a single-page link is `#` and the lower-cased slug of the title, with no `/` and no upper-case letter |
| SwiftDocItem.MultiPageLink | SwiftyDocs/Models/SwiftDocItem.swift:64-67 | the link is exactly the folder, `/`, the case-keeping replacement of the title's non-word runs, `.` and `md` for Markdown or `html` otherwise; it opens with the folder and `/`, closes with the extension and holds exactly one `/` |
| SwiftDocItem.WordTitleKeepsCase | SwiftyDocs/Models/SwiftDocItem.swift:66 | a title made only of word characters is the file name itself, upper-case letters included |
| SwiftDocItem.SinglePageLink | SwiftyDocs/Models/SwiftDocItem.swift:68-69 | `#` then the lower-cased slug of the title, holding no `/` |
| SwiftDocItem.ExtensionIsWord | SwiftyDocs/Models/SwiftDocItem.swift:65 | both file extensions are made of word characters only, so a link ends in `.` and the extension as given |
| SwiftDocItem.LinkShape | SwiftyDocs/Models/SwiftDocItem.swift:64-67 | two slugs joined by `/` with an extension hold one `/` |
| SwiftDocItem.Make | SwiftyDocs/Models/SwiftDocItem.swift:78-82 | the access level is the level whose name the access string spells in any letter case, the parse of the lower-cased string in general; every other field is stored as given |
| SwiftDocItem.MakeDefaultsToInternal | SwiftyDocs/Models/SwiftDocItem.swift:78-79 | an access string naming no level makes an `internal` item |
| SortedDocController.ItemFor | SwiftyDocs/Models/SortedDocController.swift:40-66 | a usable container's item has the parsed kind; its title is the bare name for an `other` kind or without a parent name, and otherwise the parent name, a dot and the name; it carries the container's access and comment, the given source file, the declaration precedence parsed, then documented, then `no declaration`, and children exactly when the container has nested containers |
| SortedDocController.Title | SwiftyDocs/Models/SortedDocController.swift:52-58 | the title is the bare name exactly when the kind is `other` or there is no parent name; it always ends with the name, and otherwise is the parent name, a dot and the name |
| SortedDocController.Build | SwiftyDocs/Models/SortedDocController.swift:38-69 | no more items than containers |
| SortedDocController.GetDocItemsFrom | SwiftyDocs/Models/SortedDocController.swift:35-70 | nil containers give nil and a list gives a list no longer than it |
| SortedDocController.UsableOnly | SwiftyDocs/Models/SortedDocController.swift:39-42 | the containers kept are exactly the usable ones of the input: each one kept is usable and from the input, and each usable input container is kept |
| SortedDocController.BuildIsFilterThenMap | SwiftyDocs/Models/SortedDocController.swift:39-67 | building keeps the usable containers in order and converts each into its item |
| SortedDocController.NothingUsable | SwiftyDocs/Models/SortedDocController.swift:39-42 | a list without a usable container gives no items |
| SortedDocController.BuildKeepsSourceFile | SwiftyDocs/Models/SortedDocController.swift:45-63 | every item at every depth carries the source file passed in |
| SortedDocController.ItemKeepsSourceFile | SwiftyDocs/Models/SortedDocController.swift:45-63 | an item's children, at every depth, carry the item's source file |
| SortedDocController.ChildTitleUsesBareName | SwiftyDocs/Models/SortedDocController.swift:45-58 | a child of a non-`other` kind is titled with the parent's bare name, a dot and its own name |
| SortedDocController.TopLevelTitles | SwiftyDocs/Models/SortedDocController.swift:52-58 | items built without a parent name are titled by their bare name |
| SortedDocController.AddDoc | SwiftyDocs/Models/SortedDocController.swift:28-33 | the file's items go after the existing ones, which stay as they were |
| SortedDocController.AddDocs | SwiftyDocs/Models/SortedDocController.swift:22-26 | adding files keeps the existing items as a prefix |
| SortedDocController.AddDocsConcat | SwiftyDocs/Models/SortedDocController.swift:22-26 | adding two batches in turn is adding them together |
| SortedDocController.AddDocsOfUnusable | SwiftyDocs/Models/SortedDocController.swift:22-33 | files without a usable top-level container add nothing |
| ArraySwiftDocItem.GetChildren | SwiftyDocs/Helpers/Array+SwiftDocItem.swift:25-38 | no children give nil; otherwise there is one entry per descendant |
| ArraySwiftDocItem.Walk | SwiftyDocs/Helpers/Array+SwiftDocItem.swift:13-38 | the pre-order walk holds as many items as the forest |
| ArraySwiftDocItem.EnumeratedChildren | SwiftyDocs/Helpers/Array+SwiftDocItem.swift:13-22 | the loop computes the pre-order walk, of the forest's size, and the empty array maps to the empty array |
| ArraySwiftDocItem.WalkConcat | SwiftyDocs/Helpers/Array+SwiftDocItem.swift:15-19 | walking a concatenation walks the parts in turn |
| ArraySwiftDocItem.TopLevelPositions | SwiftyDocs/Helpers/Array+SwiftDocItem.swift:15-18 | each top-level item appears at its offset, immediately followed by all its descendants |
| ArraySwiftDocItem.TopLevelOrder | SwiftyDocs/Helpers/Array+SwiftDocItem.swift:15-16 | top-level items keep their relative order |
| ArraySwiftDocItem.LeafContributesItself | SwiftyDocs/Helpers/Array+SwiftDocItem.swift:15-28 | an item without children, or with an empty list of them, contributes only itself |
| Text.TrimEmptyIffAllSpace | SwiftyDocs/Helpers/MarkdownDSL.swift:117-119 | a line trims to nothing exactly when it is whitespace only |
| Text.SplitJoin | SwiftyDocs/Helpers/MarkdownDSL.swift:109-141 | splitting joined lines gives the lines back when none holds a line break |
| Text.JoinSplit | SwiftyDocs/Helpers/MarkdownDSL.swift:109-141 | joining the split lines gives the text back |
| Text.Capitalize | SwiftyDocs/Helpers/MarkdownGenerator.swift:66-67 | `capitalized` keeps the length, upper-cases the first letter of each word and lower-cases every other letter |
| Text.LowerOfCapitalize | SwiftyDocs/Models/SwiftDocItem.swift:61 | lower-casing a capitalised string is lower-casing the string |
| Text.LastSegment | SwiftyDocs/Helpers/StringMap.swift:62 | the interpreted fallback, the last non-empty segment, holds no separator |
| Text.LastSegmentEmpty | SwiftyDocs/Helpers/StringMap.swift:62 | the interpreted fallback is empty exactly when the key is nothing but dots |
| MarkdownCleanup.TidyKeepsContent | SwiftyDocs/Helpers/MarkdownDSL.swift:116-139 | the clean-up deletes blank lines only: the content lines survive, in order |
| MarkdownCleanup.TidyFromInput | SwiftyDocs/Helpers/MarkdownDSL.swift:137-141 | every output line is an input line, and a non-empty input gives a non-empty output |
| MarkdownCleanup.TidyFixedPoint | SwiftyDocs/Helpers/MarkdownDSL.swift:116-139 | where no blank run separates two list lines, nothing is deleted |
| MarkdownCleanup.TidyOutputTidied | SwiftyDocs/Helpers/MarkdownDSL.swift:116-139 | after the clean-up no blank run separates two list lines |
| MarkdownCleanup.TidyIdempotent | SwiftyDocs/Helpers/MarkdownDSL.swift:116-139 | tidying the tidied lines changes nothing |
| MarkdownCleanup.CleanupIdempotent | SwiftyDocs/Helpers/MarkdownDSL.swift:107-142 | cleaning up a cleaned-up text changes nothing |
| MarkdownCleanup.Cleanup | SwiftyDocs/Helpers/MarkdownDSL.swift:107-142 | the lines of the cleaned-up text are the reference clean-up of the input's lines |
| MarkdownCleanup.ScanLine | SwiftyDocs/Helpers/MarkdownDSL.swift:116-134 | one step of the scan keeps the loop invariant: the indices collected so far are those the reference clean-up deletes among the lines seen, and the counter is the number of blank lines since the last content line |
| MarkdownCleanup.CleanupRender | SwiftyDocs/Helpers/MarkdownDSL.swift:107-142 | the index-collecting loops of `cleanupRender` compute the reference clean-up: blank lines between two list lines are deleted, all other lines are kept in order |
| MarkdownCleanup.LinesToRemove | SwiftyDocs/Helpers/MarkdownDSL.swift:109-135 | the indices collected are in range and increasing, and removing them is the reference clean-up |
| MarkdownCleanup.MarkRun | SwiftyDocs/Helpers/MarkdownDSL.swift:123-126 | the inner loop appends the indices of the blank lines since the last content line, in increasing order |
| MarkdownCleanup.RemoveLines | SwiftyDocs/Helpers/MarkdownDSL.swift:137-139 | removing the indices from the highest down removes exactly the lines at those indices |
| MarkdownCleanup.CleanupTwoLines | SwiftyDocs/Helpers/MarkdownDSL.swift:107-142 | a content line followed by a blank line comes through unchanged |
| MarkdownCleanup.LinesThenBlanksTidied | SwiftyDocs/Helpers/MarkdownDSL.swift:116-135 | content lines followed only by blank lines have nothing to delete |
| MarkdownCleanup.CleanupKeepsUnbroken | SwiftyDocs/Helpers/MarkdownDSL.swift:107-142 | a text of content lines followed only by blank lines comes through the clean-up unchanged |
| MarkdownDSL.GetLinks | SwiftyDocs/Helpers/MarkdownDSL.swift:151-158 | there are no more links than attributes |
| MarkdownDSL.GetLinksMembers | SwiftyDocs/Helpers/MarkdownDSL.swift:151-158 | a URL is among the links exactly when a `linkURL` attribute carries it |
| MarkdownDSL.GetLinksConcat | SwiftyDocs/Helpers/MarkdownDSL.swift:151-158 | the links of concatenated attributes are the links of each part, in order |
| MarkdownDSL.GetIndentationConcat | SwiftyDocs/Helpers/MarkdownDSL.swift:160-167 | the indentation of concatenated attributes is the sum of both parts' |
| MarkdownDSL.TypeOf | SwiftyDocs/Helpers/MarkdownDSL.swift:32-37 | a node has a type exactly when it is an element, and then it is the element's |
| MarkdownDSL.TextOf | SwiftyDocs/Helpers/MarkdownDSL.swift:39-44 | a node has a text exactly when it is an element, and then it is the element's |
| MarkdownDSL.Render | SwiftyDocs/Helpers/MarkdownDSL.swift:55-105 | with footnote references, and for any collection in either mode, the links a render owes are every link of the tree in document order, at any depth |
| MarkdownDSL.RenderIndented | SwiftyDocs/Helpers/MarkdownDSL.swift:81-92 | an indented collection owes the links of all its children, in order; children are rendered with footnote references whatever the mode |
| MarkdownDSL.RenderNonIndented | SwiftyDocs/Helpers/MarkdownDSL.swift:94-103 | a non-indented collection owes the links of all its children, in order |
| MarkdownDSL.Description | SwiftyDocs/Helpers/MarkdownDSL.swift:25-28 | an element without children and with one link describes itself as its tabs, its text, the URL in parentheses and a block's newline |
| MarkdownDSL.AllLinksOfConcat | SwiftyDocs/Helpers/MarkdownDSL.swift:90 | the links of concatenated nodes are the links of each part, in order |
| MarkdownDSL.Footnotes | SwiftyDocs/Helpers/MarkdownDSL.swift:48 | one footnote per cached URL, `[id]:url`, in cache order |
| MarkdownDSL.FinalRender | SwiftyDocs/Helpers/MarkdownDSL.swift:46-53 | the cache is empty afterwards, and with nothing cached the result is the cleaned-up render and a newline |
| MarkdownDSL.Insert | SwiftyDocs/Helpers/MarkdownDSL.swift:216 | inserting puts the URL in the cache, adds nothing else, keeps the cache duplicate-free and grows it only by a new URL |
| MarkdownDSL.Clamp | SwiftyDocs/Helpers/MarkdownDSL.swift:180 | the header level is clamped into 1 to 6 and kept when already inside |
| MarkdownDSL.HeaderAsWritten | SwiftyDocs/Helpers/MarkdownDSL.swift:175-183 | the header as written is a block whose text is the clamped number of `#`, a space and the text, holding no link, whose child holds one empty indented collection |
| MarkdownDSL.Header | SwiftyDocs/Helpers/MarkdownDSL.swift:179-183 | the corrected header is the same block with no children |
| MarkdownDSL.StyledHeaderRender | SwiftyDocs/Helpers/MarkdownDSL.swift:175-183 | at the top level either header renders as its line, a newline and its gap (a tab as written, nothing corrected), owing no footnote |
| MarkdownDSL.HeaderNotListItem | SwiftyDocs/Helpers/MarkdownDSL.swift:121-122 | a header line never counts as a list line for the clean-up |
| MarkdownDSL.LinkTarget | SwiftyDocs/Helpers/MarkdownDSL.swift:215 | the target is the destination when it is a valid URL and `#` otherwise |
| MarkdownDSL.InlineTexts | SwiftyDocs/Helpers/MarkdownDSL.swift:190 | one text per element, each the element rendered on its own with footnote references |
| MarkdownDSL.Link | SwiftyDocs/Helpers/MarkdownDSL.swift:214-218 | a link is an inline element whose one link is the target (`#` for an invalid destination), and the cache gains that target |
| MarkdownDSL.LeafRender | SwiftyDocs/Helpers/MarkdownDSL.swift:57-79 | an element without children and without exactly one link writes its tabs, its text and a block's newline, no reference, and owes all its links even in inline mode |
| MarkdownDSL.ParagraphRender | SwiftyDocs/Helpers/MarkdownDSL.swift:185-187 | a paragraph renders as its tabs, its text and a newline |
| MarkdownDSL.CodeBlockRender | SwiftyDocs/Helpers/MarkdownDSL.swift:206-208 | a code block renders as an opening fence with the syntax, the code and a closing fence, each on its own line |
| MarkdownDSL.HeaderRender | SwiftyDocs/Helpers/MarkdownDSL.swift:179-183 | the corrected header renders as the clamped number of `#`, a space, the text and a newline, at any depth |
| MarkdownDSL.HeaderAsWrittenRender | SwiftyDocs/Helpers/MarkdownDSL.swift:175-183 | the header as written renders the same line followed by the tabs of the next depth |
| MarkdownDSL.HeaderFinalRender | SwiftyDocs/Helpers/MarkdownDSL.swift:179-183 | the corrected header's final render is its line and an empty line |
| MarkdownDSL.HeaderAsWrittenFinalRender | SwiftyDocs/Helpers/MarkdownDSL.swift:175-183 | the header as written ends its final render with a line holding one tab |
| MarkdownDSL.HeaderLine | SwiftyDocs/Helpers/MarkdownDSL.swift:180-182 | a header line is never blank and holds no line break |
| MarkdownDSL.HeaderFinding | SwiftyDocsTests/MarkdownDSLTests.swift:14-19 | `header(1, "Header 1")` as written finally renders `# Header 1\n\t\n`, not the expected `# Header 1\n\n`, which the corrected header gives |
| MarkdownDSL.LinkFootnote | SwiftyDocs/Helpers/MarkdownDSL.swift:214-218 | in a page a link writes `[text][id]` and owes its URL, whose footnote line the final render of the cache holds |
| MarkdownDSL.LinkDescription | SwiftyDocs/Helpers/MarkdownDSL.swift:25-28 | interpolated into a string, a link reads `[text](url)` and owes nothing |
| MarkdownDSL.LinkCacheGrows | SwiftyDocs/Helpers/MarkdownDSL.swift:214-218 | a link only adds its target to the cache, keeping it duplicate-free |
| MarkdownDSL.InvalidDestination | SwiftyDocs/Helpers/MarkdownDSL.swift:215 | a destination that is not a URL links to `#` |
| MarkdownDSL.InlineParagraphOwesNothing | SwiftyDocs/Helpers/MarkdownDSL.swift:189-192 | a paragraph of inline elements keeps only their text, so it owes no footnote |
| MarkdownDSL.IndentedLines | SwiftyDocs/Helpers/MarkdownDSL.swift:81-92 | children that end lines are each written behind `depth` tabs, and the collection ends a line |
| MarkdownDSL.AppendingRender | SwiftyDocs/Helpers/MarkdownGenerator.swift:44-50 | appending nodes writes the node with footnote references, a newline, then the new nodes as a non-indented collection |
| MarkdownDSL.AppendingLinks | SwiftyDocs/Helpers/MarkdownGenerator.swift:44-50 | appending nodes owes the node's links, then the new nodes' |
| MarkdownDSL.AppendingNode | SwiftyDocs/Helpers/MarkdownGenerator.swift:68-74 | appending one node owes the node's links, then the new node's |
| MarkdownDSL.AppendingTwice | SwiftyDocs/Helpers/MarkdownGenerator.swift:44-50 | appending to an appended node leaves an empty line between the groups |
| MarkdownDSL.NonIndentedEndsLine | SwiftyDocs/Helpers/MarkdownDSL.swift:94-103 | a non-empty non-indented collection ends a line |
| MarkdownDSL.ListItemRender | SwiftyDocs/Helpers/MarkdownDSL.swift:198-200 | a list item writes `* `, its text and a newline, then its children one level deeper |
| MarkdownDSL.SingleIndented | SwiftyDocs/Helpers/MarkdownDSL.swift:84-88 | a lone child of an indented collection is written behind `depth` tabs |
| MarkdownDSL.NestedListRender | SwiftyDocs/Helpers/MarkdownDSL.swift:198-200 | nested list items render one per line, each one tab deeper than its parent |
| MarkdownDSL.SubListingFinalRender | SwiftyDocsTests/MarkdownDSLTests.swift:113-137 | a document holding a chain of nested items finally renders as its staircase of lines and two empty lines |
| MarkdownDSL.CleanFinalRender | SwiftyDocs/Helpers/MarkdownDSL.swift:46-53 | a render the clean-up leaves alone, with nothing cached, becomes the final render with one more newline |
| MarkdownDSL.DocumentOfOne | SwiftyDocs/Helpers/MarkdownDSL.swift:171-173 | a document of one node is the node's text and a newline |
| MarkdownDSL.GetIndentationFold | SwiftyDocs/Helpers/MarkdownDSL.swift:160-167 | one more attribute adds its value to the indentation when it is an `indentation`, and nothing otherwise |
| MarkdownDSL.NoIndentation | SwiftyDocs/Helpers/MarkdownDSL.swift:160-167 | attributes holding no `indentation` give an indentation of 0 |
| MarkdownDSL.ParentRender | SwiftyDocs/Helpers/MarkdownDSL.swift:57-79 | an element with no link and no indentation writes its text, a block's newline and its children one level deeper, and owes its children's links |
| MarkdownDSL.PlainTextRender | SwiftyDocs/Helpers/MarkdownDSL.swift:194-196 | `text` renders as its tabs and its text, with no newline and no link owed |
| MarkdownDSL.ItalicsRender | SwiftyDocs/Helpers/MarkdownDSL.swift:220-222 | `italics` renders as the text between single stars at any depth, and owes nothing |
| MarkdownDSL.BoldRender | SwiftyDocs/Helpers/MarkdownDSL.swift:224-226 | `bold` renders as the text between double stars at any depth, and owes nothing |
| MarkdownDSL.BoldItalicsRender | SwiftyDocs/Helpers/MarkdownDSL.swift:228-230 | `boldItalics` renders as the text between triple stars at any depth, and owes nothing |
| MarkdownDSL.NewlineRender | SwiftyDocs/Helpers/MarkdownDSL.swift:232-234 | `newline()` renders as one line break and nothing else |
| MarkdownDSL.InlineParagraphRender | SwiftyDocs/Helpers/MarkdownDSL.swift:189-192 | an inline paragraph renders as its tabs, the elements' own footnote-mode texts joined by spaces, and a newline, and owes no link |
| MarkdownDSL.EmphasisPairRender | SwiftyDocs/Helpers/MarkdownDSL.swift:189-192 | two inline elements render on one line: the tabs, the first's text, a space, the second's text and a newline |
| MarkdownDSL.OrderedListItemRender | SwiftyDocs/Helpers/MarkdownDSL.swift:202-204 | an ordered item writes `1. `, its text and a newline, then its children one level deeper |
| MarkdownDSL.AppendingLink | SwiftyDocs/Helpers/MarkdownDSL.swift:236-238 | appending a link gives the node and the link together in a non-indented collection, and the cache gains the link's target |
| MarkdownDSL.AppendingLinkRender | SwiftyDocs/Helpers/MarkdownDSL.swift:236-238 | the result renders as the node's text with footnote references, a newline, `[name][id]` and a newline, and owes the node's links and then the target |
| MarkdownDSL.NonIndentedLines | SwiftyDocs/Helpers/MarkdownDSL.swift:94-103 | a non-indented collection writes each child's text followed by a newline, in order |
| MarkdownDSL.NonIndentedConcat | SwiftyDocs/Helpers/MarkdownDSL.swift:94-103 | a non-indented collection of two runs of children writes the first run's text, then the second's |
| MarkdownDSL.DocumentConcat | SwiftyDocs/Helpers/MarkdownDSL.swift:171-173 | a document of two runs of nodes renders as the first run's document followed by the second's |
| MarkdownDSL.LineConcat | SwiftyDocs/Helpers/MarkdownDSL.swift:210-212 | a `line` of two runs of nodes renders as the first run's line followed by the second's |
| MarkdownDSL.IndentedThree | SwiftyDocs/Helpers/MarkdownDSL.swift:81-92 | three children that each end a line are each written behind the collection's tabs, in order |
| MarkdownCleanup.TidyKeepsLead | SwiftyDocs/Helpers/MarkdownDSL.swift:116-139 | leading lines of which none but the last is a list line come through the clean-up first and unchanged |
| MarkdownCleanup.CleanupKeepsLead | SwiftyDocs/Helpers/MarkdownDSL.swift:107-142 | a text whose lines before its last hold no list line comes through the clean-up first and unchanged, with its line break, whatever follows it |
| Text.SplitConcat | SwiftyDocs/Helpers/MarkdownDSL.swift:109 | splitting two texts joined by the separator gives the lines of the first, then those of the second |
| Text.JoinConcat | SwiftyDocs/Helpers/MarkdownDSL.swift:141 | joining two non-empty runs of lines puts the separator once between the two joined runs |
| MarkdownGenerator.SourceBlockEquality | SwiftyDocs/Helpers/MarkdownGenerator.swift:94-108 | two "Found in" blocks are equal exactly when the inline code of their files is the same |
| MarkdownGenerator.ChildDocSource | SwiftyDocs/Helpers/MarkdownGenerator.swift:94-108 | a member gets its own "Found in" block, after its item, exactly when its file differs from the parent's |
| MarkdownGenerator.SetupList | SwiftyDocs/Helpers/MarkdownGenerator.swift:82-111 | one list item per visible non-extension child, counting the visible members of visible extensions at any depth |
| MarkdownGenerator.SetupChildren | SwiftyDocs/Helpers/MarkdownGenerator.swift:80-81 | nil children give no items; otherwise as many as are documented |
| MarkdownGenerator.HeadingsAreHeaders | SwiftyDocs/Helpers/MarkdownDSL.swift:179-234 | a header of either style shows its line as a heading, and paragraphs, list items, code blocks, text, emphasis and newlines show none |
| MarkdownGenerator.SetupListConcat | SwiftyDocs/Helpers/MarkdownGenerator.swift:83-110 | the children are handled one at a time, in order |
| MarkdownGenerator.ExtensionFlattened | SwiftyDocs/Helpers/MarkdownGenerator.swift:86-91 | a visible extension is replaced by its own members, against the parent's source block |
| MarkdownGenerator.HiddenChild | SwiftyDocs/Helpers/MarkdownGenerator.swift:84 | a child below the minimum access contributes nothing, its members included |
| MarkdownGenerator.SetupListHasNoHeaders | SwiftyDocs/Helpers/MarkdownGenerator.swift:80-112 | member documentation holds no heading |
| MarkdownGenerator.ChildDocHasNoHeaders | SwiftyDocs/Helpers/MarkdownGenerator.swift:99-108 | one member's documentation holds no heading |
| MarkdownGenerator.SourceBlockRender | SwiftyDocs/Helpers/MarkdownGenerator.swift:20-23 | the "Found in" block renders as `*Found in:*`, an empty line, `* ` with the file's inline code, and two line breaks, and owes no link |
| MarkdownGenerator.RootRender | SwiftyDocs/Helpers/MarkdownGenerator.swift:20-31 | the item's own block renders as its six parts in order, each followed by a line break: the title header with its gap line, the bold access level and italic kind, the `swift` code block of the declaration, the comment or "No documentation", the newline node, and the "Found in" block of its file |
| MarkdownGenerator.PageStartsWithRoot | SwiftyDocs/Helpers/MarkdownGenerator.swift:20-51 | the rendered page opens with the item's whole own block, whatever members and extensions follow |
| MarkdownGenerator.PageKeepsRootPrefix | SwiftyDocs/Helpers/MarkdownGenerator.swift:43-51 | appending the members and extensions sections keeps any opening of the item's own block |
| MarkdownGenerator.DocumentOpensWithRoot | SwiftyDocs/Helpers/MarkdownGenerator.swift:20-53 | the final page opens with the item's own block up to its source-file line, when no line before that one is a list line |
| MarkdownGenerator.FinalRenderKeepsLead | SwiftyDocs/Helpers/MarkdownDSL.swift:46-53 | a render opening with lines of which none but the last is a list line keeps that opening through the clean-up and the footnotes |
| MarkdownGenerator.TocLabel | SwiftyDocs/Helpers/MarkdownGenerator.swift:99 | without TOC links the label is the title; with them it opens with `##--` and closes with `/`, the title and `--##` |
| MarkdownGenerator.TocMarkerFields | SwiftyDocs/Helpers/MarkdownGenerator.swift:99 | between its fences the marker splits at `/` into the docset type, the escaped title and the title, when none of them holds a `/` |
| MarkdownGenerator.MemberRender | SwiftyDocs/Helpers/MarkdownGenerator.swift:100-104 | a member's item writes `* `, its label and a newline, then, one tab in, the bold-italic access level and italic kind, the comment, and the `swift` code block of the declaration |
| MarkdownGenerator.MemberNodesRender | SwiftyDocs/Helpers/MarkdownGenerator.swift:101-103 | the three children of a member's item each render on their own lines, behind one tab |
| MarkdownGenerator.ChildDocRender | SwiftyDocs/Helpers/MarkdownGenerator.swift:94-108 | a member's documentation renders as its item, then a newline and its own "Found in" block exactly when its file's inline code differs from the parent's |
| MarkdownGenerator.EntryLineRender | SwiftyDocs/Helpers/MarkdownGenerator.swift:73 | an entry line is `* `, a space, the link's footnote text and a newline |
| MarkdownGenerator.PageRoot | SwiftyDocs/Helpers/MarkdownGenerator.swift:20-31 | the item's own block shows the title as its only heading, at level two |
| MarkdownGenerator.SourceBlockHeaders | SwiftyDocs/Helpers/MarkdownGenerator.swift:20-23 | the "Found in" block shows no heading |
| MarkdownGenerator.PageNode | SwiftyDocs/Helpers/MarkdownGenerator.swift:24-51 | a page's headings are the level-two title, then "Members" exactly when some member is documented, then "Extensions" exactly when some extension member is |
| MarkdownGenerator.GenerateMarkdownDocumentString | SwiftyDocs/Helpers/MarkdownGenerator.swift:18-54 | the rendered page opens with the level-two title line and the line after it (one tab with the program's header, empty with the corrected one); when no line of the item's own block before its source-file line is a list line, it opens with that whole block up to that line; the link cache is empty afterwards |
| MarkdownGenerator.DocumentOpensWithTitle | SwiftyDocs/Helpers/MarkdownGenerator.swift:24-53 | the final render of a page keeps its opening title line and gap line first |
| MarkdownGenerator.FinalRenderKeepsOpening | SwiftyDocs/Helpers/MarkdownDSL.swift:46-53 | a render that opens, after at most one empty line, with a heading line and a blank line keeps that opening through the clean-up and the footnotes |
| MarkdownCleanup.CleanupKeepsOpening | SwiftyDocs/Helpers/MarkdownDSL.swift:107-142 | a heading line that is not a list line, followed by a blank line, comes through the clean-up unchanged at the start of the text, after at most one empty line |
| MarkdownGenerator.SectionHeaders | SwiftyDocs/Helpers/MarkdownGenerator.swift:43-51 | adding a non-empty section adds its heading and nothing else; an empty one adds nothing |
| MarkdownGenerator.PageStartsWithTitle | SwiftyDocs/Helpers/MarkdownGenerator.swift:24-53 | with either header style, the rendered page opens with the level-two title line and its gap line, whatever sections follow |
| MarkdownGenerator.RootStartsWithTitle | SwiftyDocs/Helpers/MarkdownGenerator.swift:24-31 | the item's own block opens with the title line and its gap line |
| MarkdownGenerator.InsertByKind | SwiftyDocs/Helpers/MarkdownGenerator.swift:63 | inserting into a list sorted by kind label keeps it sorted and adds exactly the new item |
| MarkdownGenerator.SortByKind | SwiftyDocs/Helpers/MarkdownGenerator.swift:63 | the contents order is a rearrangement of the items sorted by kind label |
| MarkdownGenerator.Visible | SwiftyDocs/Helpers/MarkdownGenerator.swift:64 | the visible items are exactly the items of the input at or above the minimum access, no more of them than the input |
| MarkdownGenerator.GenerateMarkdownContents | SwiftyDocs/Helpers/MarkdownGenerator.swift:59-78 | the contents open with an empty line, then the level-four heading of the first visible item in kind order and its gap line; when no visible item's title, group title or footnote id holds a line break, the non-blank lines of the text begin with the reference contents lines (each group heading where the kind changes, then `*  [title][id]` per visible item, in kind order); the link cache is empty afterwards |
| MarkdownGenerator.ContentsOpensWithGroup | SwiftyDocs/Helpers/MarkdownGenerator.swift:61-77 | the final contents open with an empty line and the heading of the first visible item's group |
| MarkdownGenerator.FirstContentsNode | SwiftyDocs/Helpers/MarkdownGenerator.swift:63-68 | the first node the contents loop appends is the heading of the first visible item's group, when its title differs from the current one |
| MarkdownGenerator.HeadingFirstRender | SwiftyDocs/Helpers/MarkdownGenerator.swift:62-68 | the empty document with a heading appended renders as an empty line, the heading line and its gap line |
| MarkdownGenerator.GroupHeading | SwiftyDocs/Helpers/MarkdownGenerator.swift:66-68 | a level-four heading of the new title is added exactly when the title changes |
| MarkdownGenerator.AppendEachHeaders | SwiftyDocs/Helpers/MarkdownGenerator.swift:62-75 | appending nodes one by one keeps the headings in order |
| MarkdownGenerator.ContentsHeadings | SwiftyDocs/Helpers/MarkdownGenerator.swift:61-69 | the contents have a level-four capitalised-kind heading exactly where a visible item's kind differs from the previous visible item's, and no other heading |
| MarkdownGenerator.ContentsStep | SwiftyDocs/Helpers/MarkdownGenerator.swift:64-74 | a visible item contributes its group heading when due, its entry and a newline, before the rest |
| MarkdownGenerator.EntryShape | SwiftyDocs/Helpers/MarkdownGenerator.swift:73-74 | an entry and its newline hold one newline node and no heading |
| MarkdownGenerator.ContentsEntries | SwiftyDocs/Helpers/MarkdownGenerator.swift:71-74 | the contents hold one entry, closed by one newline node, per item at or above the minimum access, and no other newline node |
| MarkdownGenerator.ContentsCache | SwiftyDocs/Helpers/MarkdownGenerator.swift:71 | after the contents loop the cache holds every visible item's link target once, and nothing else new |
| MarkdownGenerator.EntryRender | SwiftyDocs/Helpers/MarkdownGenerator.swift:71-73 | a contents entry reads `*`, two spaces, the linked title and its footnote reference |
| MarkdownGenerator.ContentsFinalLines | SwiftyDocs/Helpers/MarkdownGenerator.swift:59-78 | when no visible item's title, group title or footnote id holds a line break, the non-blank lines of the final contents are exactly the reference contents lines followed by the non-blank lines of the footnotes |
| MarkdownGenerator.ContentsWithFootnotes | SwiftyDocs/Helpers/MarkdownGenerator.swift:59-78 | starting from an empty cache, with break-free link targets as well, the non-blank lines of the final contents are the reference contents lines followed by one footnote line per cached target |
| MarkdownGenerator.ContentsFootnoteLines | SwiftyDocs/Helpers/MarkdownGenerator.swift:71 | the footnotes of the targets the contents loop caches come out one per line, none of them blank |
| MarkdownGenerator.ContentsNodeLines | SwiftyDocs/Helpers/MarkdownGenerator.swift:61-75 | the nodes of the contents loop show, node by node, the reference contents lines: a heading line where the group title changes, then the item's entry line |
| MarkdownGenerator.HeadingLines | SwiftyDocs/Helpers/MarkdownGenerator.swift:66-68 | the group heading contributes the heading line exactly when the title changes, and nothing otherwise |
| MarkdownGenerator.EntryLines | SwiftyDocs/Helpers/MarkdownGenerator.swift:71-74 | an entry and its newline contribute exactly the one line `*  [title][id]` |
| MarkdownGenerator.EntryNodeLines | SwiftyDocs/Helpers/MarkdownGenerator.swift:73-74 | a list entry whose link renders without a line break, followed by a newline node, shows as one non-blank line |
| MarkdownGenerator.AppendEachText | SwiftyDocs/Helpers/MarkdownGenerator.swift:62-75 | appending nodes one by one renders as the start text followed by each node's text framed by line breaks |
| MarkdownGenerator.FramedContent | SwiftyDocs/Helpers/MarkdownGenerator.swift:62-75 | the non-blank lines of the framed node texts are those of each node, in order |
| MarkdownGenerator.AppendedContent | SwiftyDocs/Helpers/MarkdownGenerator.swift:62-75 | the empty document with nodes appended shows the non-blank lines of each node, in order, and no others |
| MarkdownGenerator.FinalContent | SwiftyDocs/Helpers/MarkdownDSL.swift:46-53 | the non-blank lines of a final render are those of the render followed by those of the footnotes |
| MarkdownGenerator.FootnoteLines | SwiftyDocs/Helpers/MarkdownDSL.swift:48 | footnotes of break-free links and ids come out as one non-blank line each, in cache order |
| MarkdownCleanup.CleanupKeepsTextContent | SwiftyDocs/Helpers/MarkdownDSL.swift:107-142 | the clean-up keeps every non-blank line of the text, in order, and adds none |
| MarkdownCleanup.TextContentConcat | SwiftyDocs/Helpers/MarkdownDSL.swift:52 | the non-blank lines of two texts joined by a line break are those of the first followed by those of the second |
| MarkdownCleanup.JoinedContent | SwiftyDocs/Helpers/MarkdownDSL.swift:141 | lines joined by line breaks, none blank and none holding a break, come back as exactly those lines |

## Left out

- Reading and decoding the symbol tree is left out, because it is I/O and JSON decoding. This covers `getDocs`, the operation queue and the helper process. Only the shape of the raw container record is modelled, with the classification strings already shortened.
- `HTMLWrapper`, the view controllers, the menus and the defaults are left out, because they are fixed templates and user interface.
- Foundation behaviour is abstract and enters as parameters. This covers `URL(string:)` validity, `hashValue` (seeded per process), `percentEscaped`, `MDNode.codeInline` and the `NSLog` side effect of the string maps.
- Character classes are ASCII. Lower-casing, `capitalized`, `\w`, `\s` and trimming are restricted to ASCII, and Unicode is not modelled.
- URLs are plain text. A URL is modelled as the text it was made from, standing in for `absoluteString`.
- The link cache keeps insertion order. Swift's `Set` has no fixed iteration order, so the footnotes of a final render may come in any order in the program. The model fixes insertion order.
- `MDNode` equality is taken to be structural, so the "Found in" comparison compares the inline code of the two files. The `Equatable` conformance is not part of this model.
- The extensions of a page are an explicit parameter of the page functions. `SwiftDocItem.extensions` is not part of this model.
- `appending(node:)` and `appending(nodes:)` are taken to wrap the node and the new nodes in a non-indented collection, the same way as `appending(linkText:destination:)`. Their definitions are not part of this model.
- `hr()` is not part of this model.
- `MarkdownGenerator.SortByKind` models Swift's `sorted` as a stable insertion sort by kind label. `sorted` does not promise stability, so the order of two items of the same kind may differ in the program.
- The regular expression `\s+=$` can also match before a final line break. The model treats `$` as the end of the string.
- The optional children lists are separate datatypes (`SwiftDocItem.Properties`, `DocFile.Substructure`) rather than `Option<seq<…>>`, so that recursion through them terminates.
- `GenerateMarkdownDocumentString` states the page's final text up to the item's source-file line, and only when no line before it is a list line (a comment or declaration line starting `* ` or `1. `). Such a line lets the clean-up delete blank lines, so the opening can then differ. The members and extensions sections are stated per member (`MarkdownGenerator.ChildDocRender`) and per append (`MarkdownDSL.AppendingRender`), not as one equation for the whole page.
- `GenerateMarkdownContents` states the non-blank lines of the contents only when no visible item's title, group title or footnote id holds a line break; such a break would split an entry or heading into several lines. The blank lines between the entries are not stated line by line.
- `MarkdownDSL.FinalRender` states the final text only when the cache is empty. With links cached, `MarkdownDSL.LinkFootnote` states that each footnote line is present, but not where it appears in the text.
- `MarkdownDSL.Description`: the unit test at SwiftyDocsTests/MarkdownDSLTests.swift:16 expects the description of a header without its trailing newline. A block always appends one, so neither the header as written nor the corrected one gives that text.
- The `[\d+]` count of the clean-up test is not modelled, because it depends on `hashValue`.
- `testAppending` and `testEquatable` are not modelled. The first asserts nothing, and the second uses APIs that are not part of this model.

## Findings

| source | as written | input that shows it | evidently intended | confidence | as-written member | corrected member |
|---|---|---|---|---|---|---|
| SwiftyDocs/Helpers/MarkdownDSL.swift:179-183 | `header` calls the variadic static `element(_:_:attributes:_:)` with `.indentedCollection([])`. That function wraps its children in another indented collection, so the header gets a child holding one empty indented collection. The child is padded with the tabs of the next depth, so the header line is followed by a line holding one tab. | `header(1, "Header 1").finalRender()` gives `# Header 1\n\t\n` | a header with no children, whose final render is `# Header 1\n\n`, as SwiftyDocsTests/MarkdownDSLTests.swift:17-18 expects | not executed | MarkdownDSL.HeaderAsWrittenFinalRender | MarkdownDSL.HeaderFinalRender |

The page and contents functions of `MarkdownGenerator` take a
`MarkdownDSL.HeaderStyle`. With `AsWritten` they build the program's pages,
whose headings are followed by a line holding one tab. With `Corrected` they
build the intended pages, whose headings are followed by an empty line.
`MarkdownDSL.HeaderFinding` puts the two headers side by side for the test's
input.
