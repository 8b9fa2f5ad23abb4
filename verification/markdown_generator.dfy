/**
  `MarkdownGenerator`: the markdown page of one documented item (title,
  access and kind, declaration, comment, source file, then its visible
  members and extensions as list items) and the contents page that lists
  the visible top-level items grouped by kind, each a link to its page.
 */
module MarkdownGenerator {
  import Text
  import Platform
  import AccessControl
  import TypeKind
  import SaveFormat
  import PageCount
  import opened Wrappers
  import opened MarkdownDSL
  import SwiftDocItem
  import StringExtra

  type Item = SwiftDocItem.Item

  const NoDocumentation: string := "No documentation"

  // ---------------------------------------------------------------------------
  // Item pages

  /** The "Found in:" block naming an item's source file as inline code. */
  function SourceBlock(sourceFile: string, env: Platform.Env): MDNode {
    NonIndentedCollection([
      ParagraphWithInlineElements([Italics("Found in:")], 0, env),
      UnorderedListItem(env.codeInline(sourceFile), [], 0)])
  }

  /** Two source blocks are the same node exactly when the inline code of
      their files is the same text. */
  lemma SourceBlockEquality(a: string, b: string, env: Platform.Env)
    ensures SourceBlock(a, env) == SourceBlock(b, env) <==> env.codeInline(a) == env.codeInline(b)
  {
    if SourceBlock(a, env) == SourceBlock(b, env) {
      var x, y := SourceBlock(a, env).nodes[1], SourceBlock(b, env).nodes[1];
      assert x.text == y.text;
      assert "* " + env.codeInline(a) == "* " + env.codeInline(b);
      assert env.codeInline(a) == ("* " + env.codeInline(a))[2..];
    }
  }

  /** The "Found in:" block as text, up to the file's name: the label in
      italics, an empty line, and the file as a list item. */
  function SourceOpening(sourceFile: string, env: Platform.Env): string {
    "*Found in:*\n" + "\n" + "* " + env.codeInline(sourceFile)
  }

  /** The "Found in:" block as text: its opening, the end of the file's
      line, and an empty line. */
  function SourceText(sourceFile: string, env: Platform.Env): string {
    SourceOpening(sourceFile, env) + "\n" + "\n"
  }

  /** The source block renders as its text at any depth and owes no
      footnotes. */
  lemma SourceBlockRender(sourceFile: string, depth: int, env: Platform.Env)
    ensures Render(SourceBlock(sourceFile, env), depth, false, env) == Rendered(SourceText(sourceFile, env), [])
  {
    var block := SourceBlock(sourceFile, env);
    var code := env.codeInline(sourceFile);
    var heading, item := block.nodes[0], block.nodes[1];
    var first, second := "*Found in:*\n", "* " + code + "\n";
    assert Render(heading, depth, false, env).text == first by {
      ItalicsRender("Found in:", 0, false, env);
      InlineParagraphRender([Italics("Found in:")], 0, depth, false, env);
      assert InlineTexts([Italics("Found in:")], env) == ["*Found in:*"] by {
        assert InlineTexts([Italics("Found in:")], env)[0] == "*Found in:*";
      }
    }
    assert Render(item, depth, false, env).text == second by {
      ListItemRender(code, [], depth, false, env);
    }
    assert RenderNonIndented(block.nodes, depth, env).text == Lines([first, second]) by {
      NonIndentedLines(block.nodes, [first, second], depth, env);
    }
    assert Lines([first, second]) == SourceText(sourceFile, env) by {
      LinesOfTwo(first, second);
      Text.ConcatAssoc(first + "\n", "* " + code + "\n", "\n");
      Text.ConcatAssoc(first + "\n", "* " + code, "\n");
      Text.ConcatAssoc(first + "\n", "* ", code);
    }
    assert AllLinksOf(block.nodes) == [] by {
      InlineParagraphOwesNothing([Italics("Found in:")], 0, env);
      assert AllLinks(item) == [];
      assert AllLinksOf(block.nodes[1..]) == AllLinks(item) + AllLinksOf([]);
    }
  }

  /** The label of a member: with table-of-contents links on, the marker
      `##--type/escaped title/title--##` that the page script replaces;
      otherwise the title itself. */
  function TocLabel(child: Item, includeTOCLinks: bool, env: Platform.Env): (r: string)
    ensures !includeTOCLinks ==> r == child.title
    ensures includeTOCLinks ==> Text.StartsWith(r, "##--") && Text.EndsWith(r, "/" + child.title + "--##")
  {
    if includeTOCLinks then
      var r := "##--" + TypeKind.DocSetType(child.kind) + "/" + env.percentEscaped(child.title) + "/" + child.title + "--##";
      assert r == "##--" + (TypeKind.DocSetType(child.kind) + "/" + env.percentEscaped(child.title)) + ("/" + child.title + "--##");
      r
    else child.title
  }

  /** The marker reads back: between its fences, splitting at `/` gives the
      docset type, the escaped title and the title, when none of them holds
      a `/`. */
  lemma TocMarkerFields(child: Item, env: Platform.Env)
    requires '/' !in TypeKind.DocSetType(child.kind) && '/' !in env.percentEscaped(child.title) && '/' !in child.title
    ensures var r := TocLabel(child, true, env);
      && |r| >= 8 && r[..4] == "##--" && r[|r| - 4..] == "--##"
      && Text.Split(r[4..|r| - 4], '/') == [TypeKind.DocSetType(child.kind), env.percentEscaped(child.title), child.title]
  {
    MarkerFields(TypeKind.DocSetType(child.kind), env.percentEscaped(child.title), child.title);
  }

  lemma MarkerFields(kind: string, escaped: string, title: string)
    requires '/' !in kind && '/' !in escaped && '/' !in title
    ensures var r := "##--" + kind + "/" + escaped + "/" + title + "--##";
      && |r| >= 8 && r[..4] == "##--" && r[|r| - 4..] == "--##"
      && Text.Split(r[4..|r| - 4], '/') == [kind, escaped, title]
  {
    var inner := kind + "/" + escaped + "/" + title;
    assert "##--" + kind + "/" + escaped + "/" + title + "--##" == "##--" + inner + "--##";
    Fenced(inner);
    SlashFields(kind, escaped, title);
  }

  /** A fenced text keeps its fences and its inside apart. */
  lemma Fenced(inner: string)
    ensures var r := "##--" + inner + "--##";
      |r| >= 8 && r[..4] == "##--" && r[|r| - 4..] == "--##" && r[4..|r| - 4] == inner
  {
  }

  lemma SlashFields(kind: string, escaped: string, title: string)
    requires '/' !in kind && '/' !in escaped && '/' !in title
    ensures Text.Split(kind + "/" + escaped + "/" + title, '/') == [kind, escaped, title]
  {
    Text.SplitNoSeparator(title, '/');
    Text.SplitAtSeparator(escaped, '/', title);
    Text.SplitAtSeparator(kind, '/', escaped + "/" + title);
    assert kind + "/" + escaped + "/" + title == kind + "/" + (escaped + "/" + title);
  }

  /** The nodes under a member's list item: access and kind, comment, and
      declaration. */
  function MemberNodes(access: string, kind: string, comment: string, declaration: string, env: Platform.Env): seq<MDNode> {
    [ParagraphWithInlineElements([BoldItalics(access), Italics(kind)], 0, env),
     Paragraph(comment, 0),
     CodeBlock(declaration, "swift", 0)]
  }

  /** The text under a member's list item, one tab in: the access level in
      bold italics and the kind in italics, the comment, and the
      declaration fenced as Swift. */
  function MemberBody(access: string, kind: string, comment: string, declaration: string): string {
    Tab + ("***" + access + "***" + " " + ("*" + kind + "*") + "\n")
    + Tab + (comment + "\n")
    + Tab + ("```" + "swift" + "\n" + declaration + "\n```\n")
  }

  /** A member's list item renders as its label line and its body. */
  lemma MemberRender(entry: string, access: string, kind: string, comment: string, declaration: string, env: Platform.Env)
    ensures Render(UnorderedListItem(entry, MemberNodes(access, kind, comment, declaration, env), 0), 0, false, env).text
         == "* " + entry + "\n" + MemberBody(access, kind, comment, declaration)
  {
    var nodes := MemberNodes(access, kind, comment, declaration, env);
    var body := MemberBody(access, kind, comment, declaration);
    assert RenderIndented(nodes, 1, env).text == body by {
      MemberNodesRender(access, kind, comment, declaration, env);
    }
    assert Render(UnorderedListItem(entry, nodes, 0), 0, false, env).text == "* " + entry + "\n" + RenderIndented(nodes, 1, env).text by {
      ListItemRender(entry, nodes, 0, false, env);
    }
  }

  lemma MemberNodesRender(access: string, kind: string, comment: string, declaration: string, env: Platform.Env)
    ensures RenderIndented(MemberNodes(access, kind, comment, declaration, env), 1, env).text == MemberBody(access, kind, comment, declaration)
  {
    var a := ParagraphWithInlineElements([BoldItalics(access), Italics(kind)], 0, env);
    var b, c := Paragraph(comment, 0), CodeBlock(declaration, "swift", 0);
    MemberLines(access, kind, comment, declaration, env);
    IndentedThree(a, b, c, 1, env);
    assert StringExtra.Repeated(Tab, 1) == StringExtra.Repeated(Tab, 0) + Tab == Tab;
  }

  /** Each node under a member's list item renders as one line, or as the
      fenced lines of the declaration. */
  lemma MemberLines(access: string, kind: string, comment: string, declaration: string, env: Platform.Env)
    ensures Render(ParagraphWithInlineElements([BoldItalics(access), Italics(kind)], 0, env), 1, false, env).text
         == "***" + access + "***" + " " + ("*" + kind + "*") + "\n"
    ensures Render(Paragraph(comment, 0), 1, false, env).text == comment + "\n"
    ensures Render(CodeBlock(declaration, "swift", 0), 1, false, env).text == "```" + "swift" + "\n" + declaration + "\n```\n"
  {
    BoldItalicsRender(access, 0, false, env);
    ItalicsRender(kind, 0, false, env);
    AccessAndKindRender(BoldItalics(access), Italics(kind), "***" + access + "***", "*" + kind + "*", 1, env);
    ParagraphRender(comment, 0, 1, false, env);
    CodeBlockRender(declaration, "swift", 0, 1, false, env);
  }

  /** The list item documenting one member, followed by its own source
      block when that differs from the parent's. */
  function ChildDoc(child: Item, parentSourceFile: MDNode, includeTOCLinks: bool, env: Platform.Env): MDNode {
    var childSourceFile := SourceBlock(child.sourceFile, env);
    var childDoc := UnorderedListItem(TocLabel(child, includeTOCLinks, env),
      MemberNodes(AccessControl.StringValue(child.accessControl), TypeKind.StringValue(child.kind),
                  child.comment.GetOr(NoDocumentation), SwiftDocItem.Declaration(child), env), 0);
    if parentSourceFile != childSourceFile then AppendingNode(childDoc, childSourceFile) else childDoc
  }

  /** A member renders as its entry line and body, then, when its file's
      inline code differs from the parent's, a newline and its own source
      block on lines of its own. */
  lemma ChildDocRender(child: Item, parentFile: string, includeTOCLinks: bool, env: Platform.Env)
    ensures Render(ChildDoc(child, SourceBlock(parentFile, env), includeTOCLinks, env), 0, false, env).text
         == "* " + TocLabel(child, includeTOCLinks, env) + "\n"
            + MemberBody(AccessControl.StringValue(child.accessControl), TypeKind.StringValue(child.kind),
                         child.comment.GetOr(NoDocumentation), SwiftDocItem.Declaration(child))
            + (if env.codeInline(child.sourceFile) != env.codeInline(parentFile)
               then "\n" + (SourceText(child.sourceFile, env) + "\n") else "")
  {
    var entry := TocLabel(child, includeTOCLinks, env);
    var access, kind := AccessControl.StringValue(child.accessControl), TypeKind.StringValue(child.kind);
    var comment, declaration := child.comment.GetOr(NoDocumentation), SwiftDocItem.Declaration(child);
    var item := UnorderedListItem(entry, MemberNodes(access, kind, comment, declaration, env), 0);
    var text := "* " + entry + "\n" + MemberBody(access, kind, comment, declaration);
    var source := SourceBlock(child.sourceFile, env);
    var doc := ChildDoc(child, SourceBlock(parentFile, env), includeTOCLinks, env);
    var differs := env.codeInline(child.sourceFile) != env.codeInline(parentFile);
    assert Render(item, 0, false, env).text == text by {
      MemberRender(entry, access, kind, comment, declaration, env);
    }
    assert doc == if differs then Appending(item, [source]) else item by {
      SourceBlockEquality(parentFile, child.sourceFile, env);
    }
    if differs {
      var tail := SourceText(child.sourceFile, env) + "\n";
      assert RenderNonIndented([source], 0, env).text == tail + [] by {
        SourceBlockRender(child.sourceFile, 0, env);
        assert [source][1..] == [];
      }
      assert Render(Appending(item, [source]), 0, false, env).text == text + "\n" + tail by {
        AppendingRender(item, [source], 0, false, env);
      }
      Text.ConcatAssoc(text, "\n", tail);
    } else {
      assert text + "" == text;
    }
  }

  /** `setupChildrenProperties(from:minimumAccessControl:parentSourceFile:includeTOCLinks:)`:
      no children give nothing. */
  function SetupChildren(children: SwiftDocItem.Properties, minimumAccessControl: AccessControl.Level,
                         parentSourceFile: MDNode, includeTOCLinks: bool, env: Platform.Env): (r: seq<MDNode>)
    ensures |r| == DocumentedIn(children, minimumAccessControl)
    decreases children, 1
  {
    match children
    case NoProperties => []
    case Properties(items) => SetupList(items, minimumAccessControl, parentSourceFile, includeTOCLinks, env)
  }

  /** The loop over the children: one below the minimum access is skipped,
      an extension contributes its own visible members in its place, any
      other child becomes one list item. So there is one list item per
      documented member, however deep the extensions nest. */
  function SetupList(items: seq<Item>, minimumAccessControl: AccessControl.Level,
                     parentSourceFile: MDNode, includeTOCLinks: bool, env: Platform.Env): (r: seq<MDNode>)
    ensures |r| == Documented(items, minimumAccessControl)
    decreases items, 0
  {
    if items == [] then []
    else
      var child := items[0];
      var here :=
        if !AccessControl.AtLeast(child.accessControl, minimumAccessControl) then []
        else if child.kind == TypeKind.Extension then
          SetupChildren(child.properties, minimumAccessControl, parentSourceFile, includeTOCLinks, env)
        else [ChildDoc(child, parentSourceFile, includeTOCLinks, env)];
      here + SetupList(items[1..], minimumAccessControl, parentSourceFile, includeTOCLinks, env)
  }

  /** The number of members a list documents: visible children that are not
      extensions, counting the visible members of visible extensions. */
  function Documented(items: seq<Item>, minimumAccessControl: AccessControl.Level): nat
    decreases items, 0
  {
    if items == [] then 0
    else
      var child := items[0];
      (if !AccessControl.AtLeast(child.accessControl, minimumAccessControl) then 0
       else if child.kind == TypeKind.Extension then DocumentedIn(child.properties, minimumAccessControl)
       else 1)
      + Documented(items[1..], minimumAccessControl)
  }

  function DocumentedIn(children: SwiftDocItem.Properties, minimumAccessControl: AccessControl.Level): nat
    decreases children, 1
  {
    match children
    case NoProperties => 0
    case Properties(items) => Documented(items, minimumAccessControl)
  }

  /** The children are handled one at a time: a list of children gives the
      items of its first part, then those of the rest. */
  lemma {:induction false} SetupListConcat(a: seq<Item>, b: seq<Item>, minimumAccessControl: AccessControl.Level,
                                           parentSourceFile: MDNode, includeTOCLinks: bool, env: Platform.Env)
    ensures SetupList(a + b, minimumAccessControl, parentSourceFile, includeTOCLinks, env)
         == SetupList(a, minimumAccessControl, parentSourceFile, includeTOCLinks, env)
          + SetupList(b, minimumAccessControl, parentSourceFile, includeTOCLinks, env)
    decreases a
  {
    if a == [] {
      assert a + b == b;
    } else {
      assert (a + b)[0] == a[0];
      assert (a + b)[1..] == a[1..] + b;
      SetupListConcat(a[1..], b, minimumAccessControl, parentSourceFile, includeTOCLinks, env);
    }
  }

  /** A visible extension is flattened: its members are documented as if
      they were the parent's own, with the parent's source block. */
  lemma ExtensionFlattened(ext: Item, minimumAccessControl: AccessControl.Level,
                           parentSourceFile: MDNode, includeTOCLinks: bool, env: Platform.Env)
    requires ext.kind == TypeKind.Extension && AccessControl.AtLeast(ext.accessControl, minimumAccessControl)
    ensures SetupList([ext], minimumAccessControl, parentSourceFile, includeTOCLinks, env)
         == SetupChildren(ext.properties, minimumAccessControl, parentSourceFile, includeTOCLinks, env)
  {
    assert [ext][1..] == [];
  }

  /** A child below the minimum access contributes nothing, its members
      included. */
  lemma HiddenChild(child: Item, minimumAccessControl: AccessControl.Level,
                    parentSourceFile: MDNode, includeTOCLinks: bool, env: Platform.Env)
    requires !AccessControl.AtLeast(child.accessControl, minimumAccessControl)
    ensures SetupList([child], minimumAccessControl, parentSourceFile, includeTOCLinks, env) == []
  {
    assert [child][1..] == [];
  }

  /** A member's own source block is appended exactly when its file's
      inline code differs from the parent's. */
  lemma ChildDocSource(child: Item, parentFile: string, includeTOCLinks: bool, env: Platform.Env)
    ensures var doc := ChildDoc(child, SourceBlock(parentFile, env), includeTOCLinks, env);
      && (doc.NonIndentedCollection? <==> env.codeInline(child.sourceFile) != env.codeInline(parentFile))
      && (doc.NonIndentedCollection? ==> doc.nodes[1] == SourceBlock(child.sourceFile, env))
  {
    SourceBlockEquality(parentFile, child.sourceFile, env);
  }

  // ---------------------------------------------------------------------------
  // Headings of a page

  /** The headings a node shows at the top level of its collections, in
      order: headers are the only block elements without attributes. */
  function Headers(n: MDNode): seq<string>
    decreases n, 1
  {
    match n
    case Element(text, kind, attrs, _) => if kind == Block && attrs == [] then [text] else []
    case NonIndentedCollection(nodes) => HeadersOf(nodes)
    case IndentedCollection(_) => []
  }

  function HeadersOf(nodes: seq<MDNode>): seq<string>
    decreases nodes, 0
  {
    if nodes == [] then [] else Headers(nodes[0]) + HeadersOf(nodes[1..])
  }

  /** Only headers are headings: a header of either style shows its line,
      and the other builders a page is made of show none. */
  lemma HeadingsAreHeaders(style: HeaderStyle, headerValue: int, title: string, text: string, syntax: string,
                           children: seq<MDNode>, indentation: int, env: Platform.Env)
    ensures Headers(StyledHeader(style, headerValue, title)) == [HeaderText(headerValue, title)]
    ensures Headers(Paragraph(text, indentation)) == []
    ensures Headers(ParagraphWithInlineElements(children, indentation, env)) == []
    ensures Headers(UnorderedListItem(text, children, indentation)) == []
    ensures Headers(OrderedListItem(text, children, indentation)) == []
    ensures Headers(CodeBlock(text, syntax, indentation)) == []
    ensures Headers(PlainText(text, indentation)) == [] && Headers(Newline()) == []
    ensures Headers(Italics(text)) == [] && Headers(Bold(text)) == [] && Headers(BoldItalics(text)) == []
  {}

  lemma {:induction false} HeadersOfConcat(a: seq<MDNode>, b: seq<MDNode>)
    ensures HeadersOf(a + b) == HeadersOf(a) + HeadersOf(b)
  {
    if a == [] {
      assert a + b == b;
    } else {
      assert (a + b)[0] == a[0];
      assert (a + b)[1..] == a[1..] + b;
      HeadersOfConcat(a[1..], b);
    }
  }

  lemma AppendingHeaders(n: MDNode, nodes: seq<MDNode>)
    ensures Headers(Appending(n, nodes)) == Headers(n) + HeadersOf(nodes)
  {
    HeadersOfConcat([n], nodes);
    assert [n][1..] == [];
  }

  /** Member documentation shows no headings of its own. */
  lemma {:induction false} SetupListHasNoHeaders(items: seq<Item>, minimumAccessControl: AccessControl.Level,
                                                 parentSourceFile: MDNode, includeTOCLinks: bool, env: Platform.Env)
    ensures HeadersOf(SetupList(items, minimumAccessControl, parentSourceFile, includeTOCLinks, env)) == []
    decreases items, 0
  {
    if items != [] {
      var child := items[0];
      var rest := SetupList(items[1..], minimumAccessControl, parentSourceFile, includeTOCLinks, env);
      SetupListHasNoHeaders(items[1..], minimumAccessControl, parentSourceFile, includeTOCLinks, env);
      if !AccessControl.AtLeast(child.accessControl, minimumAccessControl) {
        HeadersOfConcat([], rest);
      } else if child.kind == TypeKind.Extension {
        SetupChildrenHasNoHeaders(child.properties, minimumAccessControl, parentSourceFile, includeTOCLinks, env);
        HeadersOfConcat(SetupChildren(child.properties, minimumAccessControl, parentSourceFile, includeTOCLinks, env), rest);
      } else {
        var doc := ChildDoc(child, parentSourceFile, includeTOCLinks, env);
        ChildDocHasNoHeaders(child, parentSourceFile, includeTOCLinks, env);
        HeadersOfConcat([doc], rest);
        assert HeadersOf([doc]) == Headers(doc) + HeadersOf([]);
      }
    }
  }

  lemma {:induction false} SetupChildrenHasNoHeaders(children: SwiftDocItem.Properties, minimumAccessControl: AccessControl.Level,
                                                     parentSourceFile: MDNode, includeTOCLinks: bool, env: Platform.Env)
    ensures HeadersOf(SetupChildren(children, minimumAccessControl, parentSourceFile, includeTOCLinks, env)) == []
    decreases children, 1
  {
    match children
    case NoProperties =>
    case Properties(items) => SetupListHasNoHeaders(items, minimumAccessControl, parentSourceFile, includeTOCLinks, env);
  }

  lemma ChildDocHasNoHeaders(child: Item, parentSourceFile: MDNode, includeTOCLinks: bool, env: Platform.Env)
    ensures Headers(ChildDoc(child, parentSourceFile, includeTOCLinks, env)) == []
  {
    var source := SourceBlock(child.sourceFile, env);
    assert HeadersOf(source.nodes[1..]) == Headers(source.nodes[1]) + HeadersOf([]);
    assert Headers(source) == Headers(source.nodes[0]) + HeadersOf(source.nodes[1..]);
    var doc := ChildDoc(child, parentSourceFile, includeTOCLinks, env);
    if doc.NonIndentedCollection? {
      AppendingHeaders(doc.nodes[0], [source]);
      assert HeadersOf([source]) == Headers(source) + HeadersOf([]);
    }
  }

  /** The page node of `generateMarkdownDocumentString`: the item's own
      block, then, when there are any, the "Members" heading and the
      member items, then the "Extensions" heading and the extension items.
      Swift reads the extensions from a property of the item that is not
      part of this model, so they are a parameter here. A page shows the
      item's title as a level-two heading, a "Members" heading exactly when
      some member is documented, and an "Extensions" heading exactly when
      some extension member is. */
  function PageNode(item: Item, extensions: SwiftDocItem.Properties, minimumAccessControl: AccessControl.Level,
                    includeTOCLinks: bool, headerStyle: HeaderStyle, env: Platform.Env): (r: MDNode)
    ensures Headers(r) ==
      [HeaderText(2, item.title)]
      + (if DocumentedIn(item.properties, minimumAccessControl) > 0 then [HeaderText(3, "Members")] else [])
      + (if DocumentedIn(extensions, minimumAccessControl) > 0 then [HeaderText(3, "Extensions")] else [])
  {
    var sourceFile := SourceBlock(item.sourceFile, env);
    var rootDoc := PageRoot(item, headerStyle, env);
    var children := SetupChildren(item.properties, minimumAccessControl, sourceFile, includeTOCLinks, env);
    var exts := SetupChildren(extensions, minimumAccessControl, sourceFile, includeTOCLinks, env);
    var withMembers :=
      if children != [] then Appending(Appending(rootDoc, [StyledHeader(headerStyle, 3, "Members"), Newline()]), children) else rootDoc;
    SetupChildrenHasNoHeaders(item.properties, minimumAccessControl, sourceFile, includeTOCLinks, env);
    SetupChildrenHasNoHeaders(extensions, minimumAccessControl, sourceFile, includeTOCLinks, env);
    SectionHeaders(headerStyle, rootDoc, "Members", children);
    SectionHeaders(headerStyle, withMembers, "Extensions", exts);
    if exts != [] then Appending(Appending(withMembers, [StyledHeader(headerStyle, 3, "Extensions"), Newline()]), exts) else withMembers
  }

  /** `generateMarkdownDocumentString(fromRootDocItem:minimumAccessControl:includeTOCLinks:)` */
  function GenerateMarkdownDocumentString(item: Item, extensions: SwiftDocItem.Properties,
                                          minimumAccessControl: AccessControl.Level, includeTOCLinks: bool,
                                          headerStyle: HeaderStyle, cache: seq<string>, env: Platform.Env): (r: (string, seq<string>))
    ensures r.1 == []
    ensures '\n' !in item.title ==> Text.StartsWith(r.0, TitleOpening(item.title, headerStyle))
    ensures MarkdownCleanup.NoListBeforeLastLine(RootOpening(item, headerStyle, env)) ==>
      Text.StartsWith(r.0, RootOpening(item, headerStyle, env) + "\n")
  {
    DocumentOpensWithTitle(item, extensions, minimumAccessControl, includeTOCLinks, headerStyle, cache, env);
    DocumentOpensWithRoot(item, extensions, minimumAccessControl, includeTOCLinks, headerStyle, cache, env);
    FinalRender(PageNode(item, extensions, minimumAccessControl, includeTOCLinks, headerStyle, env), false, cache, env)
  }

  /** The clean-up keeps the opening of the rendered page, and the
      footnotes come after it. */
  lemma DocumentOpensWithTitle(item: Item, extensions: SwiftDocItem.Properties, minimumAccessControl: AccessControl.Level,
                               includeTOCLinks: bool, headerStyle: HeaderStyle, cache: seq<string>, env: Platform.Env)
    ensures '\n' !in item.title ==>
      Text.StartsWith(FinalRender(PageNode(item, extensions, minimumAccessControl, includeTOCLinks, headerStyle, env), false, cache, env).0,
                      TitleOpening(item.title, headerStyle))
  {
    if '\n' !in item.title {
      var page := PageNode(item, extensions, minimumAccessControl, includeTOCLinks, headerStyle, env);
      PageStartsWithTitle(item, extensions, minimumAccessControl, includeTOCLinks, headerStyle, env);
      assert [] + HeaderText(2, item.title) == HeaderText(2, item.title);
      FinalRenderKeepsOpening(page, [], 2, item.title, HeaderGap(headerStyle), cache, env);
    }
  }

  /** A rendered text that opens with a heading line and a blank line,
      after at most one empty line, keeps that opening through the final
      render. */
  lemma FinalRenderKeepsOpening(n: MDNode, before: string, headerValue: int, title: string, gap: string,
                                cache: seq<string>, env: Platform.Env)
    requires before == [] || before == "\n"
    requires '\n' !in title && '\n' !in gap && MarkdownCleanup.IsBlank(gap)
    requires Text.StartsWith(Render(n, 0, false, env).text, before + HeaderText(headerValue, title) + "\n" + gap + "\n")
    ensures Text.StartsWith(FinalRender(n, false, cache, env).0, before + HeaderText(headerValue, title) + "\n" + gap + "\n")
  {
    var line := HeaderText(headerValue, title);
    var text := Render(n, 0, false, env).text;
    var opening := before + line + "\n" + gap + "\n";
    var rest := text[|opening|..];
    assert text == before + line + "\n" + gap + "\n" + rest by {
      assert text == opening + rest;
    }
    HeaderLine(headerValue, title);
    HeaderNotListItem(headerValue, title);
    MarkdownCleanup.CleanupKeepsOpening(before, line, gap, rest);
    var clean := MarkdownCleanup.Cleanup(text);
    var r := FinalRender(n, false, cache, env).0;
    assert r == clean + ("\n" + Text.Join(Footnotes(cache, env), '\n'));
    assert r[..|opening|] == clean[..|opening|];
  }

  /** The item's own block: its only heading is the title. */
  function PageRoot(item: Item, headerStyle: HeaderStyle, env: Platform.Env): (r: MDNode)
    ensures Headers(r) == [HeaderText(2, item.title)]
  {
    var nodes := RootNodes(item, headerStyle, env);
    assert HeadersOf(nodes) == [HeaderText(2, item.title)] by {
      SourceBlockHeaders(item.sourceFile, env);
      HeadersOfLeading(nodes);
    }
    Document(nodes)
  }

  /** The nodes of the item's own block: title, access and kind,
      declaration, comment, newline and source block. */
  function RootNodes(item: Item, headerStyle: HeaderStyle, env: Platform.Env): (r: seq<MDNode>)
    ensures |r| == 6
  {
    BlockNodes(headerStyle, item.title, AccessControl.StringValue(item.accessControl), TypeKind.StringValue(item.kind),
               SwiftDocItem.Declaration(item), item.comment.GetOr(NoDocumentation), item.sourceFile, env)
  }

  function BlockNodes(headerStyle: HeaderStyle, title: string, access: string, kind: string, declaration: string,
                      comment: string, sourceFile: string, env: Platform.Env): (r: seq<MDNode>)
    ensures |r| == 6
  {
    [StyledHeader(headerStyle, 2, title),
     ParagraphWithInlineElements([Bold(access), Italics(kind)], 0, env),
     CodeBlock(declaration, "swift", 0),
     Paragraph(comment, 0),
     Newline(),
     SourceBlock(sourceFile, env)]
  }

  /** The texts of the item's own nodes before its source block: the title
      heading with the line after it, the access level in bold and the kind
      in italics, the declaration fenced as Swift, the comment (or "No
      documentation"), and the newline. */
  function RootLines(item: Item, headerStyle: HeaderStyle): seq<string> {
    BlockLines(headerStyle, item.title, AccessControl.StringValue(item.accessControl), TypeKind.StringValue(item.kind),
               SwiftDocItem.Declaration(item), item.comment.GetOr(NoDocumentation))
  }

  function BlockLines(headerStyle: HeaderStyle, title: string, access: string, kind: string, declaration: string,
                      comment: string): seq<string> {
    [HeaderText(2, title) + "\n" + HeaderGap(headerStyle),
     "**" + access + "**" + " " + ("*" + kind + "*") + "\n",
     "```" + "swift" + "\n" + declaration + "\n```\n",
     comment + "\n",
     "\n"]
  }

  /** The text of the item's own block up to its file's name: each node
      followed by the newline of the document, then the "Found in:"
      block's opening. */
  function RootOpening(item: Item, headerStyle: HeaderStyle, env: Platform.Env): string {
    Lines(RootLines(item, headerStyle)) + SourceOpening(item.sourceFile, env)
  }

  /** The item's own block renders as its opening and three newlines: the
      end of the file's line, the source block's empty line, and the
      document's newline after the source block. */
  lemma RootRender(item: Item, headerStyle: HeaderStyle, env: Platform.Env)
    ensures Render(PageRoot(item, headerStyle, env), 0, false, env).text == RootOpening(item, headerStyle, env) + "\n" + "\n" + "\n"
  {
    var access, kind := AccessControl.StringValue(item.accessControl), TypeKind.StringValue(item.kind);
    var declaration, comment := SwiftDocItem.Declaration(item), item.comment.GetOr(NoDocumentation);
    assert PageRoot(item, headerStyle, env) == Document(RootNodes(item, headerStyle, env));
    BlockRender(headerStyle, item.title, access, kind, declaration, comment, item.sourceFile, env);
  }

  /** An item's own block, from its texts, renders as its lines, then the
      source block's opening and three newlines. */
  lemma BlockRender(headerStyle: HeaderStyle, title: string, access: string, kind: string, declaration: string,
                    comment: string, sourceFile: string, env: Platform.Env)
    ensures RenderNonIndented(BlockNodes(headerStyle, title, access, kind, declaration, comment, sourceFile, env), 0, env).text
         == Lines(BlockLines(headerStyle, title, access, kind, declaration, comment)) + SourceOpening(sourceFile, env) + "\n" + "\n" + "\n"
  {
    var nodes := BlockNodes(headerStyle, title, access, kind, declaration, comment, sourceFile, env);
    var lines := BlockLines(headerStyle, title, access, kind, declaration, comment);
    var texts := lines + [SourceText(sourceFile, env)];
    BlockNodeTexts(headerStyle, title, access, kind, declaration, comment, sourceFile, env);
    NonIndentedLines(nodes, texts, 0, env);
    LinesConcat(lines, [SourceText(sourceFile, env)]);
    var front, source := Lines(lines), SourceOpening(sourceFile, env);
    assert Lines([SourceText(sourceFile, env)]) == source + "\n" + "\n" + "\n" + [];
    Text.ConcatAssoc(front, source + "\n" + "\n", "\n");
    Text.ConcatAssoc(front, source + "\n", "\n");
    Text.ConcatAssoc(front, source, "\n");
  }

  /** Each node of an item's own block renders as its text. */
  lemma BlockNodeTexts(headerStyle: HeaderStyle, title: string, access: string, kind: string, declaration: string,
                       comment: string, sourceFile: string, env: Platform.Env)
    ensures var nodes := BlockNodes(headerStyle, title, access, kind, declaration, comment, sourceFile, env);
      var texts := BlockLines(headerStyle, title, access, kind, declaration, comment) + [SourceText(sourceFile, env)];
      && |nodes| == |texts|
      && forall i :: 0 <= i < |nodes| ==> Render(nodes[i], 0, false, env).text == texts[i]
  {
    var nodes := BlockNodes(headerStyle, title, access, kind, declaration, comment, sourceFile, env);
    var texts := BlockLines(headerStyle, title, access, kind, declaration, comment) + [SourceText(sourceFile, env)];
    var n0, n1, n2 := StyledHeader(headerStyle, 2, title), ParagraphWithInlineElements([Bold(access), Italics(kind)], 0, env), CodeBlock(declaration, "swift", 0);
    var n3, n4, n5 := Paragraph(comment, 0), Newline(), SourceBlock(sourceFile, env);
    var lines := BlockLines(headerStyle, title, access, kind, declaration, comment);
    assert nodes == [n0, n1, n2, n3, n4, n5];
    assert texts == lines + [SourceText(sourceFile, env)];
    assert Render(n0, 0, false, env).text == lines[0] by {
      StyledHeaderRender(headerStyle, 2, title, env);
    }
    assert Render(n1, 0, false, env).text == lines[1] by {
      BoldRender(access, 0, false, env);
      ItalicsRender(kind, 0, false, env);
      AccessAndKindRender(Bold(access), Italics(kind), "**" + access + "**", "*" + kind + "*", 0, env);
    }
    assert Render(n2, 0, false, env).text == lines[2] by {
      CodeBlockRender(declaration, "swift", 0, 0, false, env);
    }
    assert Render(n3, 0, false, env).text == lines[3] by {
      ParagraphRender(comment, 0, 0, false, env);
    }
    assert Render(n4, 0, false, env).text == lines[4] by {
      NewlineRender(0, false, env);
    }
    assert Render(n5, 0, false, env).text == SourceText(sourceFile, env) by {
      SourceBlockRender(sourceFile, 0, env);
    }
  }

  /** The access level and the kind, emphasised, on one unindented line. */
  lemma AccessAndKindRender(access: MDNode, kind: MDNode, accessText: string, kindText: string, depth: int, env: Platform.Env)
    requires Render(access, 0, false, env).text == accessText && Render(kind, 0, false, env).text == kindText
    ensures Render(ParagraphWithInlineElements([access, kind], 0, env), depth, false, env).text == accessText + " " + kindText + "\n"
  {
    var r := Render(ParagraphWithInlineElements([access, kind], 0, env), depth, false, env).text;
    assert r == StringExtra.Repeated(Tab, 0) + accessText + " " + kindText + "\n" by {
      EmphasisPairRender(access, kind, 0, depth, false, env);
    }
    assert StringExtra.Repeated(Tab, 0) == [];
  }

  lemma SourceBlockHeaders(sourceFile: string, env: Platform.Env)
    ensures Headers(SourceBlock(sourceFile, env)) == []
  {
    HeadersOfNone(SourceBlock(sourceFile, env).nodes);
  }

  /** Nodes that show no heading after the first leave the first's. */
  lemma HeadersOfLeading(nodes: seq<MDNode>)
    requires nodes != []
    requires forall i :: 1 <= i < |nodes| ==> Headers(nodes[i]) == []
    ensures HeadersOf(nodes) == Headers(nodes[0])
  {
    var rest := nodes[1..];
    forall i | 0 <= i < |rest| ensures Headers(rest[i]) == [] {
      assert rest[i] == nodes[i + 1];
    }
    HeadersOfNone(rest);
    assert Headers(nodes[0]) + [] == Headers(nodes[0]);
  }

  /** Appending keeps what was written before: the rendered node is a
      prefix of the rendered result. */
  lemma AppendingKeepsPrefix(n: MDNode, nodes: seq<MDNode>, prefix: string, env: Platform.Env)
    requires Text.StartsWith(Render(n, 0, false, env).text, prefix)
    ensures Text.StartsWith(Render(Appending(n, nodes), 0, false, env).text, prefix)
  {
    AppendingRender(n, nodes, 0, false, env);
    var before := Render(n, 0, false, env).text;
    var after := Render(Appending(n, nodes), 0, false, env).text;
    assert after[..|before|] == before;
    assert after[..|prefix|] == before[..|prefix|];
  }

  /** The opening of every page: the item's title as a level-two heading and
      the line after it, which holds a tab with the program's header and is
      empty with the corrected one. */
  function TitleOpening(title: string, headerStyle: HeaderStyle): string {
    HeaderText(2, title) + "\n" + HeaderGap(headerStyle) + "\n"
  }

  /** Every page opens with the item's title, whatever members and
      extensions follow. */
  lemma PageStartsWithTitle(item: Item, extensions: SwiftDocItem.Properties, minimumAccessControl: AccessControl.Level,
                            includeTOCLinks: bool, headerStyle: HeaderStyle, env: Platform.Env)
    ensures Text.StartsWith(Render(PageNode(item, extensions, minimumAccessControl, includeTOCLinks, headerStyle, env), 0, false, env).text,
                            TitleOpening(item.title, headerStyle))
  {
    RootStartsWithTitle(item, headerStyle, env);
    PageKeepsRootPrefix(item, extensions, minimumAccessControl, includeTOCLinks, headerStyle, env, TitleOpening(item.title, headerStyle));
  }

  /** Every page opens with the item's own block, whatever members and
      extensions follow. */
  lemma PageStartsWithRoot(item: Item, extensions: SwiftDocItem.Properties, minimumAccessControl: AccessControl.Level,
                           includeTOCLinks: bool, headerStyle: HeaderStyle, env: Platform.Env)
    ensures Text.StartsWith(Render(PageNode(item, extensions, minimumAccessControl, includeTOCLinks, headerStyle, env), 0, false, env).text,
                            RootOpening(item, headerStyle, env) + "\n" + "\n" + "\n")
  {
    var root := RootOpening(item, headerStyle, env) + "\n" + "\n" + "\n";
    assert Text.StartsWith(Render(PageRoot(item, headerStyle, env), 0, false, env).text, root) by {
      RootRender(item, headerStyle, env);
    }
    PageKeepsRootPrefix(item, extensions, minimumAccessControl, includeTOCLinks, headerStyle, env, root);
  }

  /** Whatever the rendered item block opens with, the rendered page opens
      with too. */
  lemma PageKeepsRootPrefix(item: Item, extensions: SwiftDocItem.Properties, minimumAccessControl: AccessControl.Level,
                            includeTOCLinks: bool, headerStyle: HeaderStyle, env: Platform.Env, prefix: string)
    requires Text.StartsWith(Render(PageRoot(item, headerStyle, env), 0, false, env).text, prefix)
    ensures Text.StartsWith(Render(PageNode(item, extensions, minimumAccessControl, includeTOCLinks, headerStyle, env), 0, false, env).text, prefix)
  {
    var sourceFile := SourceBlock(item.sourceFile, env);
    var rootDoc := PageRoot(item, headerStyle, env);
    var children := SetupChildren(item.properties, minimumAccessControl, sourceFile, includeTOCLinks, env);
    var exts := SetupChildren(extensions, minimumAccessControl, sourceFile, includeTOCLinks, env);
    var members := [StyledHeader(headerStyle, 3, "Members"), Newline()];
    var extensionsHeading := [StyledHeader(headerStyle, 3, "Extensions"), Newline()];
    var withMembers := if children != [] then Appending(Appending(rootDoc, members), children) else rootDoc;
    SectionKeepsPrefix(rootDoc, members, children, prefix, env);
    SectionKeepsPrefix(withMembers, extensionsHeading, exts, prefix, env);
  }

  /** Adding a section, when it has items, keeps the text before it. */
  lemma SectionKeepsPrefix(n: MDNode, heading: seq<MDNode>, items: seq<MDNode>, prefix: string, env: Platform.Env)
    requires Text.StartsWith(Render(n, 0, false, env).text, prefix)
    ensures Text.StartsWith(Render(if items != [] then Appending(Appending(n, heading), items) else n, 0, false, env).text, prefix)
  {
    if items != [] {
      AppendingKeepsPrefix(n, heading, prefix, env);
      AppendingKeepsPrefix(Appending(n, heading), items, prefix, env);
    }
  }

  /** The final text of a page opens with the item's own block up to its
      file's list item, when no line of it before that one is a list item
      (the clean-up could otherwise join two list items there). */
  lemma DocumentOpensWithRoot(item: Item, extensions: SwiftDocItem.Properties, minimumAccessControl: AccessControl.Level,
                              includeTOCLinks: bool, headerStyle: HeaderStyle, cache: seq<string>, env: Platform.Env)
    ensures MarkdownCleanup.NoListBeforeLastLine(RootOpening(item, headerStyle, env)) ==>
      Text.StartsWith(FinalRender(PageNode(item, extensions, minimumAccessControl, includeTOCLinks, headerStyle, env), false, cache, env).0,
                      RootOpening(item, headerStyle, env) + "\n")
  {
    var opening := RootOpening(item, headerStyle, env);
    if MarkdownCleanup.NoListBeforeLastLine(opening) {
      var page := PageNode(item, extensions, minimumAccessControl, includeTOCLinks, headerStyle, env);
      var text := Render(page, 0, false, env).text;
      assert Text.StartsWith(text, opening + "\n") by {
        PageStartsWithRoot(item, extensions, minimumAccessControl, includeTOCLinks, headerStyle, env);
        StartsWithShorter(text, opening + "\n" + "\n", "\n");
        StartsWithShorter(text, opening + "\n", "\n");
      }
      assert Text.StartsWith(FinalRender(page, false, cache, env).0, opening + "\n") by {
        FinalRenderKeepsLead(page, opening, cache, env);
      }
    }
  }

  lemma StartsWithShorter(s: string, p: string, more: string)
    requires Text.StartsWith(s, p + more)
    ensures Text.StartsWith(s, p)
  {
    assert s[..|p|] == (p + more)[..|p|];
  }

  /** A rendered text that opens with lines none of which but the last is a
      list item keeps them, and the newline after them, through the final
      render. */
  lemma FinalRenderKeepsLead(n: MDNode, opening: string, cache: seq<string>, env: Platform.Env)
    requires MarkdownCleanup.NoListBeforeLastLine(opening)
    requires Text.StartsWith(Render(n, 0, false, env).text, opening + "\n")
    ensures Text.StartsWith(FinalRender(n, false, cache, env).0, opening + "\n")
  {
    var text := Render(n, 0, false, env).text;
    var lead := opening + "\n";
    var clean := MarkdownCleanup.Cleanup(text);
    assert Text.StartsWith(clean, lead) by {
      var rest := text[|lead|..];
      assert text == lead + rest;
      MarkdownCleanup.CleanupKeepsLead(opening, rest);
    }
    var r := FinalRender(n, false, cache, env).0;
    assert r == clean + ("\n" + Text.Join(Footnotes(cache, env), '\n'));
    assert r[..|lead|] == clean[..|lead|];
  }

  lemma RootStartsWithTitle(item: Item, headerStyle: HeaderStyle, env: Platform.Env)
    ensures Text.StartsWith(Render(PageRoot(item, headerStyle, env), 0, false, env).text, TitleOpening(item.title, headerStyle))
  {
    var nodes := PageRoot(item, headerStyle, env).nodes;
    StyledHeaderRender(headerStyle, 2, item.title, env);
    var head := HeaderText(2, item.title) + "\n" + HeaderGap(headerStyle);
    var rest := RenderNonIndented(nodes[1..], 0, env).text;
    assert Render(PageRoot(item, headerStyle, env), 0, false, env).text == head + "\n" + rest;
    assert (head + "\n" + rest)[..|head| + 1] == head + "\n";
  }

  lemma {:induction false} HeadersOfNone(nodes: seq<MDNode>)
    requires forall i :: 0 <= i < |nodes| ==> Headers(nodes[i]) == []
    ensures HeadersOf(nodes) == []
  {
    if nodes != [] {
      HeadersOfNone(nodes[1..]);
    }
  }

  /** Adding a section with a heading adds that heading and nothing else
      to the page's headings. */
  lemma SectionHeaders(headerStyle: HeaderStyle, n: MDNode, title: string, items: seq<MDNode>)
    requires HeadersOf(items) == []
    ensures var section := if items != [] then Appending(Appending(n, [StyledHeader(headerStyle, 3, title), Newline()]), items) else n;
      Headers(section) == Headers(n) + (if items != [] then [HeaderText(3, title)] else [])
  {
    if items != [] {
      AppendingHeaders(Appending(n, [StyledHeader(headerStyle, 3, title), Newline()]), items);
      AppendingHeaders(n, [StyledHeader(headerStyle, 3, title), Newline()]);
      assert HeadersOf([Newline()]) == [];
    }
  }

  // ---------------------------------------------------------------------------
  // The contents page

  /** The sort key of the contents page: the kind's label. */
  function KindKey(item: Item): string {
    TypeKind.StringValue(item.kind)
  }

  /** Ordered by kind label, lexicographically. */
  predicate SortedByKind(items: seq<Item>) {
    forall i, j :: 0 <= i < j < |items| ==> !Text.StrLess(KindKey(items[j]), KindKey(items[i]))
  }

  /** Puts `x` after every item whose key is not greater than its own. */
  function InsertByKind(sorted: seq<Item>, x: Item): (r: seq<Item>)
    requires SortedByKind(sorted)
    ensures SortedByKind(r)
    ensures multiset(r) == multiset(sorted) + multiset{x}
  {
    if sorted == [] then [x]
    else
      var last := sorted[|sorted| - 1];
      if Text.StrLess(KindKey(x), KindKey(last)) then
        var front := sorted[..|sorted| - 1];
        var placed := InsertByKind(front, x);
        InsertedBefore(front, x, last, placed);
        assert sorted == front + [last];
        placed + [last]
      else
        InsertedLast(sorted, x);
        sorted + [x]
  }

  lemma InsertedLast(sorted: seq<Item>, x: Item)
    requires sorted != [] && SortedByKind(sorted)
    requires !Text.StrLess(KindKey(x), KindKey(sorted[|sorted| - 1]))
    ensures SortedByKind(sorted + [x])
  {
    var r := sorted + [x];
    var n := |sorted|;
    forall i, j | 0 <= i < j < |r| ensures !Text.StrLess(KindKey(r[j]), KindKey(r[i])) {
      if j == n && i < n - 1 {
        var a, b, c := KindKey(r[i]), KindKey(sorted[n - 1]), KindKey(x);
        if Text.StrLess(c, a) {
          Text.StrLessTotal(a, b);
          if Text.StrLess(a, b) {
            Text.StrLessTransitive(c, a, b);
          }
        }
      }
    }
  }

  lemma InsertedBefore(front: seq<Item>, x: Item, last: Item, placed: seq<Item>)
    requires SortedByKind(front + [last])
    requires Text.StrLess(KindKey(x), KindKey(last))
    requires SortedByKind(placed)
    requires multiset(placed) == multiset(front) + multiset{x}
    ensures SortedByKind(placed + [last])
  {
    var r := placed + [last];
    forall i | 0 <= i < |placed| ensures !Text.StrLess(KindKey(last), KindKey(placed[i])) {
      assert placed[i] in multiset(placed);
      if placed[i] == x {
        Text.StrLessIrreflexive(KindKey(x));
        if Text.StrLess(KindKey(last), KindKey(x)) {
          Text.StrLessTransitive(KindKey(x), KindKey(last), KindKey(x));
        }
      } else {
        assert placed[i] in multiset(front);
        var k :| 0 <= k < |front| && front[k] == placed[i];
        assert (front + [last])[k] == front[k];
        assert (front + [last])[|front|] == last;
      }
    }
  }

  /** The contents page's `sorted { $0.kind.stringValue < $1.kind.stringValue }`,
      as a stable insertion sort: a rearrangement ordered by kind label. */
  function SortByKind(items: seq<Item>): (r: seq<Item>)
    ensures SortedByKind(r)
    ensures multiset(r) == multiset(items)
  {
    if items == [] then []
    else
      var front := items[..|items| - 1];
      assert items == front + [items[|items| - 1]];
      InsertByKind(SortByKind(front), items[|items| - 1])
  }

  /** The items at or above the minimum access, in order. */
  function Visible(items: seq<Item>, minimumAccessControl: AccessControl.Level): (r: seq<Item>)
    ensures |r| <= |items|
    ensures forall i :: 0 <= i < |r| ==> r[i] in items && AccessControl.AtLeast(r[i].accessControl, minimumAccessControl)
    ensures forall x :: x in items && AccessControl.AtLeast(x.accessControl, minimumAccessControl) ==> x in r
  {
    if items == [] then []
    else
      (if AccessControl.AtLeast(items[0].accessControl, minimumAccessControl) then [items[0]] else [])
      + Visible(items[1..], minimumAccessControl)
  }

  /** The heading of a kind's group: its label, capitalised. */
  function GroupTitle(item: Item): string {
    Text.Capitalize(KindKey(item))
  }

  /** The contents entry of one item: `*`, a space, and a link to its page. */
  function EntryLine(link: MDNode, env: Platform.Env): MDNode {
    ParagraphWithInlineElements([PlainText("* ", 0), link], 0, env)
  }

  /** The level-four heading a group gets when its title differs from the
      one before. */
  function GroupHeading(headerStyle: HeaderStyle, currentTitle: string, title: string): (r: seq<MDNode>)
    ensures HeadersOf(r) == (if currentTitle != title then [HeaderText(4, title)] else [])
  {
    assert HeadersOf([StyledHeader(headerStyle, 4, title)]) == Headers(StyledHeader(headerStyle, 4, title)) + HeadersOf([]);
    if currentTitle != title then [StyledHeader(headerStyle, 4, title)] else []
  }

  /** The nodes the contents loop appends, in order, and the link cache
      after it: for each visible item, a level-four heading when its group
      title differs from the current one, then its entry and a newline. */
  function ContentsNodes(items: seq<Item>, currentTitle: string, minimumAccessControl: AccessControl.Level,
                         linkStyle: PageCount.Style, format: SaveFormat.Format, headerStyle: HeaderStyle,
                         cache: seq<string>, env: Platform.Env): (r: (seq<MDNode>, seq<string>))
    decreases |items|
  {
    if items == [] then ([], cache)
    else
      var item := items[0];
      if !AccessControl.AtLeast(item.accessControl, minimumAccessControl) then
        ContentsNodes(items[1..], currentTitle, minimumAccessControl, linkStyle, format, headerStyle, cache, env)
      else
        var title := GroupTitle(item);
        var heading := GroupHeading(headerStyle, currentTitle, title);
        var (link, cache') := Link(item.title, SwiftDocItem.HtmlLink(item, format, linkStyle), cache, env);
        var rest := ContentsNodes(items[1..], title, minimumAccessControl, linkStyle, format, headerStyle, cache', env);
        (heading + [EntryLine(link, env), Newline()] + rest.0, rest.1)
  }

  /** `rootMD = rootMD.appending(node: ...)` for each node in turn: every
      step wraps the page so far in a new collection. */
  function AppendEach(n: MDNode, nodes: seq<MDNode>): MDNode
    decreases |nodes|
  {
    if nodes == [] then n else AppendEach(AppendingNode(n, nodes[0]), nodes[1..])
  }

  /** `generateMarkdownContents(fromTopLevelIndex:minimumAccessControl:linkStyle:format:)` */
  function GenerateMarkdownContents(topLevelIndex: seq<Item>, minimumAccessControl: AccessControl.Level,
                                    linkStyle: PageCount.Style, format: SaveFormat.Format, headerStyle: HeaderStyle,
                                    cache: seq<string>, env: Platform.Env): (r: (string, seq<string>))
    ensures r.1 == []
    ensures var first := Visible(SortByKind(topLevelIndex), minimumAccessControl);
      first != [] && GroupTitle(first[0]) != [] && '\n' !in GroupTitle(first[0]) ==>
        Text.StartsWith(r.0, "\n" + HeaderText(4, GroupTitle(first[0])) + "\n" + HeaderGap(headerStyle) + "\n")
    ensures var visible := Visible(SortByKind(topLevelIndex), minimumAccessControl);
      (forall item :: item in visible ==> PlainEntry(item, format, linkStyle, env)) ==>
        ContentsLines(visible, "", format, linkStyle, env) <= MarkdownCleanup.TextContent(r.0)
  {
    var (nodes, cache') := ContentsNodes(SortByKind(topLevelIndex), "", minimumAccessControl, linkStyle, format, headerStyle, cache, env);
    ContentsOpensWithGroup(SortByKind(topLevelIndex), minimumAccessControl, linkStyle, format, headerStyle, cache, env);
    ContentsFinalLines(SortByKind(topLevelIndex), minimumAccessControl, linkStyle, format, headerStyle, cache, env);
    FinalRender(AppendEach(Document([]), nodes), false, cache', env)
  }

  /** The contents page opens with an empty line and the heading of the
      first visible item's group, which is the group that sorts first. */
  lemma ContentsOpensWithGroup(sorted: seq<Item>, minimumAccessControl: AccessControl.Level,
                               linkStyle: PageCount.Style, format: SaveFormat.Format, headerStyle: HeaderStyle,
                               cache: seq<string>, env: Platform.Env)
    ensures var first := Visible(sorted, minimumAccessControl);
      var (nodes, cache') := ContentsNodes(sorted, "", minimumAccessControl, linkStyle, format, headerStyle, cache, env);
      first != [] && GroupTitle(first[0]) != [] && '\n' !in GroupTitle(first[0]) ==>
        Text.StartsWith(FinalRender(AppendEach(Document([]), nodes), false, cache', env).0,
                        "\n" + HeaderText(4, GroupTitle(first[0])) + "\n" + HeaderGap(headerStyle) + "\n")
  {
    var first := Visible(sorted, minimumAccessControl);
    var (nodes, cache') := ContentsNodes(sorted, "", minimumAccessControl, linkStyle, format, headerStyle, cache, env);
    if first != [] && GroupTitle(first[0]) != [] && '\n' !in GroupTitle(first[0]) {
      var title := GroupTitle(first[0]);
      FirstContentsNode(sorted, "", minimumAccessControl, linkStyle, format, headerStyle, cache, env);
      var heading := StyledHeader(headerStyle, 4, title);
      var opening := "\n" + HeaderText(4, title) + "\n" + HeaderGap(headerStyle) + "\n";
      HeadingFirstRender(Document([]), heading, title, headerStyle, env);
      AppendEachKeepsPrefix(AppendingNode(Document([]), heading), nodes[1..], opening, env);
      assert AppendEach(Document([]), nodes) == AppendEach(AppendingNode(Document([]), heading), nodes[1..]);
      FinalRenderKeepsOpening(AppendEach(Document([]), nodes), "\n", 4, title, HeaderGap(headerStyle), cache', env);
    }
  }

  /** The first node of the contents is the heading of the first visible
      item's group, when that differs from the current title. */
  lemma {:induction false} FirstContentsNode(items: seq<Item>, currentTitle: string, minimumAccessControl: AccessControl.Level,
                                             linkStyle: PageCount.Style, format: SaveFormat.Format, headerStyle: HeaderStyle,
                                             cache: seq<string>, env: Platform.Env)
    requires Visible(items, minimumAccessControl) != []
    requires GroupTitle(Visible(items, minimumAccessControl)[0]) != currentTitle
    ensures var nodes := ContentsNodes(items, currentTitle, minimumAccessControl, linkStyle, format, headerStyle, cache, env).0;
      nodes != [] && nodes[0] == StyledHeader(headerStyle, 4, GroupTitle(Visible(items, minimumAccessControl)[0]))
    decreases |items|
  {
    var item := items[0];
    if !AccessControl.AtLeast(item.accessControl, minimumAccessControl) {
      assert Visible(items, minimumAccessControl) == Visible(items[1..], minimumAccessControl);
      FirstContentsNode(items[1..], currentTitle, minimumAccessControl, linkStyle, format, headerStyle, cache, env);
    } else {
      VisibleCons(items, minimumAccessControl);
      ContentsStep(items, currentTitle, minimumAccessControl, linkStyle, format, headerStyle, cache, env);
    }
  }

  /** The empty document with a top-level heading appended renders as an
      empty line, the heading's line and its gap line. */
  lemma HeadingFirstRender(empty: MDNode, heading: MDNode, title: string, headerStyle: HeaderStyle, env: Platform.Env)
    requires empty == Document([]) && heading == StyledHeader(headerStyle, 4, title)
    ensures Render(AppendingNode(empty, heading), 0, false, env).text ==
      "\n" + HeaderText(4, title) + "\n" + HeaderGap(headerStyle) + "\n"
  {
    var h := HeaderText(4, title) + "\n" + HeaderGap(headerStyle);
    var one := RenderNonIndented([heading], 0, env).text;
    var e := Render(empty, 0, false, env).text;
    assert Render(AppendingNode(empty, heading), 0, false, env).text == e + "\n" + one by {
      AppendingRender(empty, [heading], 0, false, env);
    }
    assert one == h + "\n" by {
      StyledHeaderRender(headerStyle, 4, title, env);
      DocumentOfOne(heading, env);
    }
    assert e == [];
    NewlineAround(e, one, HeaderText(4, title), HeaderGap(headerStyle));
  }

  /** Nothing, a newline, and a line with its gap and newline read as the
      newline-wrapped line and gap. */
  lemma NewlineAround(e: string, one: string, line: string, gap: string)
    requires e == [] && one == line + "\n" + gap + "\n"
    ensures e + "\n" + one == "\n" + line + "\n" + gap + "\n"
  {
    assert e + "\n" == "\n";
  }

  /** Appending nodes one at a time keeps what was written before. */
  lemma {:induction false} AppendEachKeepsPrefix(n: MDNode, nodes: seq<MDNode>, prefix: string, env: Platform.Env)
    requires Text.StartsWith(Render(n, 0, false, env).text, prefix)
    ensures Text.StartsWith(Render(AppendEach(n, nodes), 0, false, env).text, prefix)
    decreases |nodes|
  {
    if nodes != [] {
      AppendingKeepsPrefix(n, [nodes[0]], prefix, env);
      AppendEachKeepsPrefix(AppendingNode(n, nodes[0]), nodes[1..], prefix, env);
    }
  }

  /** The headings a sequence of visible items gets: one per run of items
      with the same group title, the first run compared against `current`. */
  function GroupHeadings(items: seq<Item>, current: string): seq<string>
    decreases |items|
  {
    if items == [] then []
    else
      var title := GroupTitle(items[0]);
      (if title != current then [HeaderText(4, title)] else []) + GroupHeadings(items[1..], title)
  }

  lemma {:induction false} AppendEachHeaders(n: MDNode, nodes: seq<MDNode>)
    ensures Headers(AppendEach(n, nodes)) == Headers(n) + HeadersOf(nodes)
    decreases |nodes|
  {
    if nodes != [] {
      AppendingHeaders(n, [nodes[0]]);
      assert HeadersOf([nodes[0]]) == Headers(nodes[0]) + HeadersOf([]);
      AppendEachHeaders(AppendingNode(n, nodes[0]), nodes[1..]);
    }
  }

  /** The contents page has a heading before each run of visible items of
      one kind, and no other heading. */
  lemma {:induction false} ContentsHeadings(items: seq<Item>, currentTitle: string, minimumAccessControl: AccessControl.Level,
                                            linkStyle: PageCount.Style, format: SaveFormat.Format, headerStyle: HeaderStyle,
                                            cache: seq<string>, env: Platform.Env)
    ensures HeadersOf(ContentsNodes(items, currentTitle, minimumAccessControl, linkStyle, format, headerStyle, cache, env).0)
         == GroupHeadings(Visible(items, minimumAccessControl), currentTitle)
    decreases |items|
  {
    if items != [] {
      var item := items[0];
      if !AccessControl.AtLeast(item.accessControl, minimumAccessControl) {
        ContentsHeadings(items[1..], currentTitle, minimumAccessControl, linkStyle, format, headerStyle, cache, env);
        assert Visible(items, minimumAccessControl) == Visible(items[1..], minimumAccessControl);
      } else {
        var title := GroupTitle(item);
        var link := Link(item.title, SwiftDocItem.HtmlLink(item, format, linkStyle), cache, env);
        var heading := GroupHeading(headerStyle, currentTitle, title);
        var entry := [EntryLine(link.0, env), Newline()];
        var rest := ContentsNodes(items[1..], title, minimumAccessControl, linkStyle, format, headerStyle, link.1, env).0;
        var all := ContentsNodes(items, currentTitle, minimumAccessControl, linkStyle, format, headerStyle, cache, env).0;
        ContentsStep(items, currentTitle, minimumAccessControl, linkStyle, format, headerStyle, cache, env);
        assert all == heading + entry + rest;
        ContentsHeadings(items[1..], title, minimumAccessControl, linkStyle, format, headerStyle, link.1, env);
        EntryShape(link.0, env);
        HeadersOfConcat(heading, entry);
        HeadersOfConcat(heading + entry, rest);
        assert HeadersOf(all) == HeadersOf(heading) + HeadersOf(rest);
        var vis := Visible(items, minimumAccessControl);
        VisibleCons(items, minimumAccessControl);
        assert vis != [] && vis[0] == item && vis[1..] == Visible(items[1..], minimumAccessControl);
        GroupHeadingsCons(vis, currentTitle);
      }
    }
  }

  /** One visible item's share of the contents: its group heading, if any,
      its entry and a newline, followed by the rest. */
  lemma ContentsStep(items: seq<Item>, currentTitle: string, minimumAccessControl: AccessControl.Level,
                     linkStyle: PageCount.Style, format: SaveFormat.Format, headerStyle: HeaderStyle,
                     cache: seq<string>, env: Platform.Env)
    requires items != [] && AccessControl.AtLeast(items[0].accessControl, minimumAccessControl)
    ensures var link := Link(items[0].title, SwiftDocItem.HtmlLink(items[0], format, linkStyle), cache, env);
      ContentsNodes(items, currentTitle, minimumAccessControl, linkStyle, format, headerStyle, cache, env).0
      == GroupHeading(headerStyle, currentTitle, GroupTitle(items[0])) + [EntryLine(link.0, env), Newline()]
         + ContentsNodes(items[1..], GroupTitle(items[0]), minimumAccessControl, linkStyle, format, headerStyle, link.1, env).0
  {}

  lemma GroupHeadingsCons(items: seq<Item>, current: string)
    requires items != []
    ensures GroupHeadings(items, current)
         == (if GroupTitle(items[0]) != current then [HeaderText(4, GroupTitle(items[0]))] else [])
            + GroupHeadings(items[1..], GroupTitle(items[0]))
  {}

  lemma VisibleCons(items: seq<Item>, minimumAccessControl: AccessControl.Level)
    requires items != [] && AccessControl.AtLeast(items[0].accessControl, minimumAccessControl)
    ensures Visible(items, minimumAccessControl) == [items[0]] + Visible(items[1..], minimumAccessControl)
  {}

  /** An entry and its newline: one newline node, no heading. */
  lemma EntryShape(link: MDNode, env: Platform.Env)
    ensures Newlines([EntryLine(link, env), Newline()]) == 1
    ensures HeadersOf([EntryLine(link, env), Newline()]) == []
  {
    var entry := [EntryLine(link, env), Newline()];
    assert entry[0].kind == Block;
    assert entry[1..] == [Newline()];
    assert Newlines([Newline()]) == 1 + Newlines([]);
    HeadersOfNone(entry);
  }

  /** The number of newline nodes among `nodes`. */
  function Newlines(nodes: seq<MDNode>): nat {
    if nodes == [] then 0 else (if nodes[0] == Newline() then 1 else 0) + Newlines(nodes[1..])
  }

  lemma {:induction false} NewlinesConcat(a: seq<MDNode>, b: seq<MDNode>)
    ensures Newlines(a + b) == Newlines(a) + Newlines(b)
  {
    if a == [] {
      assert a + b == b;
    } else {
      assert (a + b)[0] == a[0];
      assert (a + b)[1..] == a[1..] + b;
      NewlinesConcat(a[1..], b);
    }
  }

  /** Every visible item gets exactly one entry, each closed by a newline. */
  lemma {:induction false} ContentsEntries(items: seq<Item>, currentTitle: string, minimumAccessControl: AccessControl.Level,
                                           linkStyle: PageCount.Style, format: SaveFormat.Format, headerStyle: HeaderStyle,
                                           cache: seq<string>, env: Platform.Env)
    ensures Newlines(ContentsNodes(items, currentTitle, minimumAccessControl, linkStyle, format, headerStyle, cache, env).0)
         == |Visible(items, minimumAccessControl)|
    decreases |items|
  {
    if items != [] {
      var item := items[0];
      if !AccessControl.AtLeast(item.accessControl, minimumAccessControl) {
        assert |Visible(items, minimumAccessControl)| == |Visible(items[1..], minimumAccessControl)|;
        ContentsEntries(items[1..], currentTitle, minimumAccessControl, linkStyle, format, headerStyle, cache, env);
      } else {
        var title := GroupTitle(item);
        var heading := GroupHeading(headerStyle, currentTitle, title);
        var (link, cache') := Link(item.title, SwiftDocItem.HtmlLink(item, format, linkStyle), cache, env);
        var rest := ContentsNodes(items[1..], title, minimumAccessControl, linkStyle, format, headerStyle, cache', env).0;
        var entry := [EntryLine(link, env), Newline()];
        assert ContentsNodes(items, currentTitle, minimumAccessControl, linkStyle, format, headerStyle, cache, env).0 == heading + entry + rest;
        assert |Visible(items, minimumAccessControl)| == 1 + |Visible(items[1..], minimumAccessControl)|;
        ContentsEntries(items[1..], title, minimumAccessControl, linkStyle, format, headerStyle, cache', env);
        EntryNewlines(headerStyle, currentTitle, title, link, rest, env);
      }
    }
  }

  /** One contents entry, with or without its heading, holds one newline. */
  lemma EntryNewlines(headerStyle: HeaderStyle, currentTitle: string, title: string, link: MDNode, rest: seq<MDNode>, env: Platform.Env)
    ensures Newlines(GroupHeading(headerStyle, currentTitle, title) + [EntryLine(link, env), Newline()] + rest) == 1 + Newlines(rest)
  {
    var heading := GroupHeading(headerStyle, currentTitle, title);
    var entry := [EntryLine(link, env), Newline()];
    assert Newlines(heading) == 0 by {
      if heading != [] { assert heading[1..] == []; }
    }
    EntryShape(link, env);
    NewlinesConcat(heading, entry);
    NewlinesConcat(heading + entry, rest);
  }

  /** The cache after the contents loop holds every visible item's link
      target, each once, and nothing else new. */
  lemma {:induction false} ContentsCache(items: seq<Item>, currentTitle: string, minimumAccessControl: AccessControl.Level,
                                         linkStyle: PageCount.Style, format: SaveFormat.Format, headerStyle: HeaderStyle,
                                         cache: seq<string>, env: Platform.Env)
    requires NoDuplicates(cache)
    ensures var cache' := ContentsNodes(items, currentTitle, minimumAccessControl, linkStyle, format, headerStyle, cache, env).1;
      && NoDuplicates(cache')
      && (forall u :: u in cache ==> u in cache')
      && (forall item :: item in Visible(items, minimumAccessControl) ==>
            LinkTarget(SwiftDocItem.HtmlLink(item, format, linkStyle), env) in cache')
      && (forall u :: u in cache' ==>
            (u in cache || exists item :: item in Visible(items, minimumAccessControl) &&
                                          u == LinkTarget(SwiftDocItem.HtmlLink(item, format, linkStyle), env)))
    decreases |items|
  {
    if items != [] {
      var item := items[0];
      var vis := Visible(items, minimumAccessControl);
      var visRest := Visible(items[1..], minimumAccessControl);
      if !AccessControl.AtLeast(item.accessControl, minimumAccessControl) {
        ContentsCache(items[1..], currentTitle, minimumAccessControl, linkStyle, format, headerStyle, cache, env);
        assert vis == visRest;
      } else {
        var title := GroupTitle(item);
        var target := LinkTarget(SwiftDocItem.HtmlLink(item, format, linkStyle), env);
        var cache1 := Link(item.title, SwiftDocItem.HtmlLink(item, format, linkStyle), cache, env).1;
        ContentsCache(items[1..], title, minimumAccessControl, linkStyle, format, headerStyle, cache1, env);
        assert vis == [item] + visRest;
        forall x | x in vis ensures x == item || x in visRest {}
      }
    }
  }

  /** A contents entry reads `*`, two spaces, the linked title and its
      footnote reference. */
  lemma EntryRender(title: string, destination: string, cache: seq<string>, depth: int, env: Platform.Env)
    ensures var link := Link(title, destination, cache, env).0;
      Render(EntryLine(link, env), depth, false, env).text ==
        "*  " + "[" + title + "][" + env.id(LinkTarget(destination, env)) + "]" + "\n"
  {
    var link := Link(title, destination, cache, env).0;
    var tail := "[" + title + "][" + env.id(LinkTarget(destination, env)) + "]";
    assert Render(link, 0, false, env).text == tail by {
      LinkFootnote(title, destination, cache, 0, env);
    }
    assert Render(EntryLine(link, env), depth, false, env).text == "*  " + tail + "\n" by {
      EntryLineRender(link, tail, depth, env);
    }
    assert "*  " + tail + "\n" == "*  " + "[" + title + "][" + env.id(LinkTarget(destination, env)) + "]" + "\n" by {
      Text.ConcatAssoc("*  ", "[" + title + "][" + env.id(LinkTarget(destination, env)), "]");
    }
  }

  /** An entry line is the bullet, a space and the link's own text. */
  lemma EntryLineRender(link: MDNode, tail: string, depth: int, env: Platform.Env)
    requires Render(link, 0, false, env).text == tail
    ensures Render(EntryLine(link, env), depth, false, env).text == "*  " + tail + "\n"
  {
    var star := PlainText("* ", 0);
    assert Render(star, 0, false, env).text == "* " by {
      LeafRender(star, 0, false, env);
      assert StringExtra.Repeated(Tab, 0) == [];
    }
    var texts := InlineTexts([star, link], env);
    assert Text.Join(texts, ' ') == "*  " + tail by {
      assert texts == ["* ", tail];
      Text.JoinPair("* ", tail, ' ');
    }
    var line := EntryLine(link, env);
    assert line.text == "*  " + tail;
    LeafRender(line, depth, false, env);
    assert StringExtra.Repeated(Tab, 0) == [];
  }

  // ---------------------------------------------------------------------------
  // The content lines of the contents page

  /** The content line of one item's contents entry: `*`, two spaces, the
      linked title and its footnote reference. */
  function EntryContent(item: Item, format: SaveFormat.Format, linkStyle: PageCount.Style, env: Platform.Env): string {
    "*  " + ("[" + item.title + "][" + env.id(LinkTarget(SwiftDocItem.HtmlLink(item, format, linkStyle), env)) + "]")
  }

  /** An item whose title, group title and footnote id hold no line break,
      so that its heading and entry each stay on one line. */
  predicate PlainEntry(item: Item, format: SaveFormat.Format, linkStyle: PageCount.Style, env: Platform.Env) {
    && '\n' !in item.title
    && '\n' !in GroupTitle(item)
    && '\n' !in env.id(LinkTarget(SwiftDocItem.HtmlLink(item, format, linkStyle), env))
  }

  /** Reference for the contents: for each visible item, in order, the
      heading line of its group when the group title changes, then its
      entry line. */
  function ContentsLines(items: seq<Item>, current: string, format: SaveFormat.Format, linkStyle: PageCount.Style,
                         env: Platform.Env): seq<string>
    decreases |items|
  {
    if items == [] then []
    else
      var title := GroupTitle(items[0]);
      (if title != current then [HeaderText(4, title)] else []) + [EntryContent(items[0], format, linkStyle, env)]
        + ContentsLines(items[1..], title, format, linkStyle, env)
  }

  /** The text appended nodes add after the page so far: each node's own
      render, with a line break before and after it. */
  function Framed(nodes: seq<MDNode>, env: Platform.Env): string
    decreases |nodes|
  {
    if nodes == [] then []
    else "\n" + Render(nodes[0], 0, false, env).text + "\n" + Framed(nodes[1..], env)
  }

  /** The content lines of each node's own render, in order. */
  function NodeLines(nodes: seq<MDNode>, env: Platform.Env): seq<string>
    decreases |nodes|
  {
    if nodes == [] then []
    else MarkdownCleanup.TextContent(Render(nodes[0], 0, false, env).text) + NodeLines(nodes[1..], env)
  }

  /** Appending nodes one at a time writes the page so far, then each node
      framed by line breaks. */
  lemma {:induction false} AppendEachText(n: MDNode, nodes: seq<MDNode>, env: Platform.Env)
    ensures Render(AppendEach(n, nodes), 0, false, env).text == Render(n, 0, false, env).text + Framed(nodes, env)
    decreases |nodes|
  {
    if nodes != [] {
      var x := nodes[0];
      var before, t := Render(n, 0, false, env).text, Render(x, 0, false, env).text;
      var m := AppendingNode(n, x);
      assert Render(m, 0, false, env).text == before + "\n" + (t + "\n") by {
        AppendingRender(n, [x], 0, false, env);
        DocumentOfOne(x, env);
      }
      AppendEachText(m, nodes[1..], env);
      var rest := Framed(nodes[1..], env);
      assert before + "\n" + (t + "\n") + rest == before + ("\n" + t + "\n" + rest);
    }
  }

  /** The content of the framed nodes is the content of each node's render. */
  lemma {:induction false} FramedContent(nodes: seq<MDNode>, env: Platform.Env)
    ensures MarkdownCleanup.TextContent(Framed(nodes, env)) == NodeLines(nodes, env)
    decreases |nodes|
  {
    if nodes == [] {
      MarkdownCleanup.LineContent([]);
    } else {
      var t, rest := Render(nodes[0], 0, false, env).text, Framed(nodes[1..], env);
      assert Framed(nodes, env) == [] + "\n" + (t + "\n" + rest);
      MarkdownCleanup.TextContentConcat([], t + "\n" + rest);
      MarkdownCleanup.LineContent([]);
      MarkdownCleanup.TextContentConcat(t, rest);
      FramedContent(nodes[1..], env);
    }
  }

  lemma {:induction false} NodeLinesConcat(a: seq<MDNode>, b: seq<MDNode>, env: Platform.Env)
    ensures NodeLines(a + b, env) == NodeLines(a, env) + NodeLines(b, env)
    decreases |a|
  {
    if a == [] {
      assert a + b == b;
    } else {
      assert (a + b)[1..] == a[1..] + b;
      NodeLinesConcat(a[1..], b, env);
    }
  }

  /** A group heading shows its header line as its only content. */
  lemma HeadingLines(headerStyle: HeaderStyle, current: string, title: string, env: Platform.Env)
    requires '\n' !in title
    ensures NodeLines(GroupHeading(headerStyle, current, title), env) == (if title != current then [HeaderText(4, title)] else [])
  {
    if title != current {
      var h := StyledHeader(headerStyle, 4, title);
      var line, gap := HeaderText(4, title), HeaderGap(headerStyle);
      assert Render(h, 0, false, env).text == line + "\n" + gap by {
        StyledHeaderRender(headerStyle, 4, title, env);
      }
      assert MarkdownCleanup.TextContent(line + "\n" + gap) == [line] by {
        HeaderLine(4, title);
        MarkdownCleanup.TextContentConcat(line, gap);
        MarkdownCleanup.LineContent(line);
        MarkdownCleanup.LineContent(gap);
      }
      assert NodeLines([h], env) == MarkdownCleanup.TextContent(Render(h, 0, false, env).text) + NodeLines([], env);
    }
  }

  /** An entry and its newline show the entry line as their only content. */
  lemma EntryLines(item: Item, format: SaveFormat.Format, linkStyle: PageCount.Style, cache: seq<string>, env: Platform.Env)
    requires PlainEntry(item, format, linkStyle, env)
    ensures var link := Link(item.title, SwiftDocItem.HtmlLink(item, format, linkStyle), cache, env).0;
      NodeLines([EntryLine(link, env), Newline()], env) == [EntryContent(item, format, linkStyle, env)]
  {
    var destination := SwiftDocItem.HtmlLink(item, format, linkStyle);
    var link := Link(item.title, destination, cache, env).0;
    var id := env.id(LinkTarget(destination, env));
    var tail := "[" + item.title + "][" + id + "]";
    assert Render(link, 0, false, env).text == tail by {
      LinkFootnote(item.title, destination, cache, 0, env);
    }
    assert '\n' !in tail;
    EntryNodeLines(link, tail, env);
  }

  lemma EntryNodeLines(link: MDNode, tail: string, env: Platform.Env)
    requires Render(link, 0, false, env).text == tail && '\n' !in tail
    ensures NodeLines([EntryLine(link, env), Newline()], env) == ["*  " + tail]
  {
    assert MarkdownCleanup.TextContent(Render(EntryLine(link, env), 0, false, env).text) == ["*  " + tail] by {
      EntryLineRender(link, tail, 0, env);
      EntryLineContent("*  " + tail);
    }
    assert MarkdownCleanup.TextContent(Render(Newline(), 0, false, env).text) == [] by {
      NewlineRender(0, false, env);
      NewlineContent();
    }
    var entry := [EntryLine(link, env), Newline()];
    assert entry[1..] == [Newline()] && [Newline()][1..] == [];
  }

  /** A non-blank line and its line break show the line as their content. */
  lemma EntryLineContent(line: string)
    requires '\n' !in line && line != [] && line[0] == '*'
    ensures MarkdownCleanup.TextContent(line + "\n") == [line]
  {
    assert line + "\n" == line + "\n" + [];
    MarkdownCleanup.TextContentConcat(line, []);
    MarkdownCleanup.LineContent(line);
    MarkdownCleanup.LineContent([]);
  }

  /** A lone line break shows no content. */
  lemma NewlineContent()
    ensures MarkdownCleanup.TextContent("\n") == []
  {
    assert "\n" == [] + "\n" + [];
    MarkdownCleanup.TextContentConcat([], []);
    MarkdownCleanup.LineContent([]);
  }

  /** The contents nodes show, as content, exactly the reference lines of
      the visible items. */
  lemma {:induction false} ContentsNodeLines(items: seq<Item>, currentTitle: string, minimumAccessControl: AccessControl.Level,
                                             linkStyle: PageCount.Style, format: SaveFormat.Format, headerStyle: HeaderStyle,
                                             cache: seq<string>, env: Platform.Env)
    requires forall item :: item in Visible(items, minimumAccessControl) ==> PlainEntry(item, format, linkStyle, env)
    ensures NodeLines(ContentsNodes(items, currentTitle, minimumAccessControl, linkStyle, format, headerStyle, cache, env).0, env)
         == ContentsLines(Visible(items, minimumAccessControl), currentTitle, format, linkStyle, env)
    decreases |items|
  {
    if items != [] {
      var item := items[0];
      if !AccessControl.AtLeast(item.accessControl, minimumAccessControl) {
        assert Visible(items, minimumAccessControl) == Visible(items[1..], minimumAccessControl);
        ContentsNodeLines(items[1..], currentTitle, minimumAccessControl, linkStyle, format, headerStyle, cache, env);
      } else {
        var title := GroupTitle(item);
        var link := Link(item.title, SwiftDocItem.HtmlLink(item, format, linkStyle), cache, env);
        var heading := GroupHeading(headerStyle, currentTitle, title);
        var entry := [EntryLine(link.0, env), Newline()];
        var rest := ContentsNodes(items[1..], title, minimumAccessControl, linkStyle, format, headerStyle, link.1, env).0;
        var vis := Visible(items, minimumAccessControl);
        assert vis == [item] + Visible(items[1..], minimumAccessControl) by {
          VisibleCons(items, minimumAccessControl);
        }
        assert vis[0] == item && vis[1..] == Visible(items[1..], minimumAccessControl);
        assert PlainEntry(item, format, linkStyle, env) by {
          assert item in vis;
        }
        ContentsStep(items, currentTitle, minimumAccessControl, linkStyle, format, headerStyle, cache, env);
        NodeLinesConcat(heading + entry, rest, env);
        NodeLinesConcat(heading, entry, env);
        HeadingLines(headerStyle, currentTitle, title, env);
        EntryLines(item, format, linkStyle, cache, env);
        ContentsNodeLines(items[1..], title, minimumAccessControl, linkStyle, format, headerStyle, link.1, env);
      }
    }
  }

  /** The final contents text shows as content exactly the reference lines
      of the visible items, in kind order, followed by the footnote lines of
      the cache. */
  lemma ContentsFinalLines(sorted: seq<Item>, minimumAccessControl: AccessControl.Level,
                           linkStyle: PageCount.Style, format: SaveFormat.Format, headerStyle: HeaderStyle,
                           cache: seq<string>, env: Platform.Env)
    ensures var (nodes, cache') := ContentsNodes(sorted, "", minimumAccessControl, linkStyle, format, headerStyle, cache, env);
      (forall item :: item in Visible(sorted, minimumAccessControl) ==> PlainEntry(item, format, linkStyle, env)) ==>
      MarkdownCleanup.TextContent(FinalRender(AppendEach(Document([]), nodes), false, cache', env).0)
      == ContentsLines(Visible(sorted, minimumAccessControl), "", format, linkStyle, env)
         + MarkdownCleanup.TextContent(Text.Join(Footnotes(cache', env), '\n'))
  {
    if forall item :: item in Visible(sorted, minimumAccessControl) ==> PlainEntry(item, format, linkStyle, env) {
      var (nodes, cache') := ContentsNodes(sorted, "", minimumAccessControl, linkStyle, format, headerStyle, cache, env);
      var page := AppendEach(Document([]), nodes);
      assert MarkdownCleanup.TextContent(Render(page, 0, false, env).text) == NodeLines(nodes, env) by {
        AppendedContent(nodes, env);
      }
      assert NodeLines(nodes, env) == ContentsLines(Visible(sorted, minimumAccessControl), "", format, linkStyle, env) by {
        ContentsNodeLines(sorted, "", minimumAccessControl, linkStyle, format, headerStyle, cache, env);
      }
      FinalContent(page, cache', env);
    }
  }

  /** Starting from an empty cache, with break-free link targets, the
      contents show the reference lines and then exactly one footnote line
      per cached target; `ContentsCache` says which targets are cached. */
  lemma ContentsWithFootnotes(sorted: seq<Item>, minimumAccessControl: AccessControl.Level,
                              linkStyle: PageCount.Style, format: SaveFormat.Format, headerStyle: HeaderStyle, env: Platform.Env)
    requires forall item :: item in Visible(sorted, minimumAccessControl) ==>
      PlainEntry(item, format, linkStyle, env) && '\n' !in LinkTarget(SwiftDocItem.HtmlLink(item, format, linkStyle), env)
    ensures var (nodes, cache') := ContentsNodes(sorted, "", minimumAccessControl, linkStyle, format, headerStyle, [], env);
      MarkdownCleanup.TextContent(FinalRender(AppendEach(Document([]), nodes), false, cache', env).0)
      == ContentsLines(Visible(sorted, minimumAccessControl), "", format, linkStyle, env) + Footnotes(cache', env)
  {
    var cache' := ContentsNodes(sorted, "", minimumAccessControl, linkStyle, format, headerStyle, [], env).1;
    ContentsFinalLines(sorted, minimumAccessControl, linkStyle, format, headerStyle, [], env);
    assert MarkdownCleanup.TextContent(Text.Join(Footnotes(cache', env), '\n')) == Footnotes(cache', env) by {
      ContentsFootnoteLines(sorted, minimumAccessControl, linkStyle, format, headerStyle, env);
    }
  }

  /** The footnote lines of the contents are its footnotes, one per line. */
  lemma ContentsFootnoteLines(sorted: seq<Item>, minimumAccessControl: AccessControl.Level,
                              linkStyle: PageCount.Style, format: SaveFormat.Format, headerStyle: HeaderStyle, env: Platform.Env)
    requires forall item :: item in Visible(sorted, minimumAccessControl) ==>
      PlainEntry(item, format, linkStyle, env) && '\n' !in LinkTarget(SwiftDocItem.HtmlLink(item, format, linkStyle), env)
    ensures var cache' := ContentsNodes(sorted, "", minimumAccessControl, linkStyle, format, headerStyle, [], env).1;
      MarkdownCleanup.TextContent(Text.Join(Footnotes(cache', env), '\n')) == Footnotes(cache', env)
  {
    var cache' := ContentsNodes(sorted, "", minimumAccessControl, linkStyle, format, headerStyle, [], env).1;
    ContentsCache(sorted, "", minimumAccessControl, linkStyle, format, headerStyle, [], env);
    FootnoteLines(cache', env);
  }

  /** The nodes appended to the empty document show the content of each
      node's own render. */
  lemma AppendedContent(nodes: seq<MDNode>, env: Platform.Env)
    ensures MarkdownCleanup.TextContent(Render(AppendEach(Document([]), nodes), 0, false, env).text) == NodeLines(nodes, env)
  {
    AppendEachText(Document([]), nodes, env);
    assert Render(Document([]), 0, false, env).text == [];
    assert Render(AppendEach(Document([]), nodes), 0, false, env).text == Framed(nodes, env);
    FramedContent(nodes, env);
  }

  /** The final render shows the content of the render, then that of the
      footnotes. */
  lemma FinalContent(n: MDNode, cache: seq<string>, env: Platform.Env)
    ensures MarkdownCleanup.TextContent(FinalRender(n, false, cache, env).0)
         == MarkdownCleanup.TextContent(Render(n, 0, false, env).text) + MarkdownCleanup.TextContent(Text.Join(Footnotes(cache, env), '\n'))
  {
    var text := Render(n, 0, false, env).text;
    MarkdownCleanup.CleanupKeepsTextContent(text);
    MarkdownCleanup.TextContentConcat(MarkdownCleanup.Cleanup(text), Text.Join(Footnotes(cache, env), '\n'));
  }

  /** Each footnote line is non-blank, so with break-free ids and URLs the
      footnotes' content is the footnote lines themselves. */
  lemma FootnoteLines(cache: seq<string>, env: Platform.Env)
    requires forall u :: u in cache ==> '\n' !in u && '\n' !in env.id(u)
    ensures MarkdownCleanup.TextContent(Text.Join(Footnotes(cache, env), '\n')) == Footnotes(cache, env)
  {
    var notes := Footnotes(cache, env);
    forall k | 0 <= k < |notes| ensures '\n' !in notes[k] && !MarkdownCleanup.IsBlank(notes[k]) {
      assert cache[k] in cache;
      assert notes[k][0] == '[';
    }
    MarkdownCleanup.JoinedContent(notes);
  }
}
