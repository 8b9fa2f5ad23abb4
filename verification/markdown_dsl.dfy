/**
  `MDNode`, the small markdown tree the documentation pages are built from,
  its rendering to text, and the static builders (`header`, `paragraph`,
  `link`, ...). Rendering returns the text together with the URLs of the
  links that were rendered as footnote references; `finalRender` tidies the
  text and appends one footnote definition per URL in the link cache.

  The link cache is a process-wide `Set<URL>` that `link` inserts into and
  `finalRender` empties. Here it is a duplicate-free sequence passed in and
  returned, in insertion order; a URL is modelled by its text.
 */
module MarkdownDSL {
  import Text
  import StringExtra
  import Platform
  import MarkdownCleanup
  import opened Wrappers

  datatype MDType = Inline | Block

  datatype MDAttribute = Indentation(n: int) | LinkURL(url: string) | NewlinePrefix(n: int)

  datatype MDNode =
    | Element(text: string, kind: MDType, attrs: seq<MDAttribute>, child: MDNode)
    | NonIndentedCollection(nodes: seq<MDNode>)
    | IndentedCollection(nodes: seq<MDNode>)

  /** What `render` returns: the text and the URLs still owed a footnote. */
  datatype Rendered = Rendered(text: string, links: seq<string>)

  // ---------------------------------------------------------------------------
  // Attributes

  /** `getLinks()`: the URLs of the `linkURL` attributes, in order. */
  function GetLinks(attrs: seq<MDAttribute>): (r: seq<string>)
    ensures |r| <= |attrs|
  {
    if attrs == [] then []
    else (if attrs[0].LinkURL? then [attrs[0].url] else []) + GetLinks(attrs[1..])
  }

  /** `getIndentation()`: the sum of the `indentation` attributes. */
  function GetIndentation(attrs: seq<MDAttribute>): int {
    if attrs == [] then 0
    else (if attrs[0].Indentation? then attrs[0].n else 0) + GetIndentation(attrs[1..])
  }

  /** The URLs `getLinks` finds are exactly those of the link attributes. */
  lemma {:induction false} GetLinksMembers(attrs: seq<MDAttribute>)
    ensures forall u :: u in GetLinks(attrs) <==> LinkURL(u) in attrs
  {
    if attrs != [] {
      GetLinksMembers(attrs[1..]);
      assert attrs == [attrs[0]] + attrs[1..];
    }
  }

  lemma {:induction false} GetLinksConcat(a: seq<MDAttribute>, b: seq<MDAttribute>)
    ensures GetLinks(a + b) == GetLinks(a) + GetLinks(b)
  {
    if a == [] {
      assert a + b == b;
    } else {
      assert (a + b)[0] == a[0] && (a + b)[1..] == a[1..] + b;
      GetLinksConcat(a[1..], b);
      var head := if a[0].LinkURL? then [a[0].url] else [];
      assert GetLinks(a + b) == head + (GetLinks(a[1..]) + GetLinks(b));
      assert GetLinks(a) == head + GetLinks(a[1..]);
    }
  }

  /** `getIndentation()` reduces from the left: each attribute adds its
      value when it is an indentation and nothing otherwise. */
  lemma GetIndentationFold(attrs: seq<MDAttribute>, a: MDAttribute)
    ensures GetIndentation(attrs + [a]) == GetIndentation(attrs) + (if a.Indentation? then a.n else 0)
  {
    GetIndentationConcat(attrs, [a]);
    assert [a][1..] == [];
  }

  /** Without an indentation attribute there is no indentation. */
  lemma {:induction false} NoIndentation(attrs: seq<MDAttribute>)
    requires forall k :: 0 <= k < |attrs| ==> !attrs[k].Indentation?
    ensures GetIndentation(attrs) == 0
  {
    if attrs != [] {
      NoIndentation(attrs[1..]);
    }
  }

  lemma {:induction false} GetIndentationConcat(a: seq<MDAttribute>, b: seq<MDAttribute>)
    ensures GetIndentation(a + b) == GetIndentation(a) + GetIndentation(b)
  {
    if a == [] {
      assert a + b == b;
    } else {
      assert (a + b)[1..] == a[1..] + b;
      GetIndentationConcat(a[1..], b);
    }
  }

  // ---------------------------------------------------------------------------
  // Rendering

  const Tab: string := "\t"

  /** `render(inheritedIndentation:parent:inlineLinks:)`. An element writes its
      text, then its single link (inline as `(url)`, or as the footnote
      reference `[id]`), then a newline if it is a block, all behind its own
      indentation in tabs; its child is rendered one level deeper.
      With footnote references, and below any collection whatever the mode,
      the links owed are every link of the tree, in document order. */
  function Render(n: MDNode, depth: int, inlineLinks: bool, env: Platform.Env): (r: Rendered)
    ensures !inlineLinks || !n.Element? ==> r.links == AllLinks(n)
    decreases n, 1
  {
    match n
    case Element(text, kind, attrs, child) =>
      var links := GetLinks(attrs);
      var inlined := |links| == 1 && inlineLinks;
      var reference :=
        if |links| != 1 then ""
        else if inlineLinks then "(" + links[0] + ")"
        else "[" + env.id(links[0]) + "]";
      var body := text + reference + (if kind == Block then "\n" else "");
      var c := Render(child, depth + 1, inlineLinks, env);
      Rendered(StringExtra.Repeated(Tab, GetIndentation(attrs)) + body + c.text,
               (if inlined then [] else links) + c.links)
    case IndentedCollection(nodes) => RenderIndented(nodes, depth, env)
    case NonIndentedCollection(nodes) => RenderNonIndented(nodes, depth, env)
  }

  /** The tabs an indented collection writes before a child: `depth` of them
      when the text so far is empty or ends a line. */
  function Pad(soFar: string, depth: int): string {
    if soFar == [] || soFar[|soFar| - 1] == '\n' then StringExtra.Repeated(Tab, depth) else []
  }

  /** An indented collection, folded from the left: the children render at
      the collection's depth with footnote references. */
  function RenderIndented(nodes: seq<MDNode>, depth: int, env: Platform.Env): (r: Rendered)
    ensures r.links == AllLinksOf(nodes)
    decreases nodes, 0
  {
    if nodes == [] then Rendered([], [])
    else
      AllLinksOfLast(nodes);
      var acc := RenderIndented(nodes[..|nodes| - 1], depth, env);
      var r := Render(nodes[|nodes| - 1], depth, false, env);
      Rendered(acc.text + Pad(acc.text, depth) + r.text, acc.links + r.links)
  }

  /** A non-indented collection: each child followed by a newline. */
  function RenderNonIndented(nodes: seq<MDNode>, depth: int, env: Platform.Env): (r: Rendered)
    ensures r.links == AllLinksOf(nodes)
    decreases nodes, 0
  {
    if nodes == [] then Rendered([], [])
    else
      var r := Render(nodes[0], depth, false, env);
      var rest := RenderNonIndented(nodes[1..], depth, env);
      Rendered(r.text + "\n" + rest.text, r.links + rest.links)
  }

  /** `type`: the kind of an element; collections have none. */
  function TypeOf(n: MDNode): (r: Option<MDType>)
    ensures r.Some? <==> n.Element?
    ensures n.Element? ==> r == Some(n.kind)
  {
    if n.Element? then Some(n.kind) else None
  }

  /** `text`: the text of an element; collections have none. */
  function TextOf(n: MDNode): (r: Option<string>)
    ensures r.Some? <==> n.Element?
    ensures n.Element? ==> r == Some(n.text)
  {
    if n.Element? then Some(n.text) else None
  }

  /** `description`: the text rendered with inline links. An element
      without children writes its single link inline, as `(url)` after its
      text, in place of a footnote reference. */
  function Description(n: MDNode, env: Platform.Env): (r: string)
    ensures n.Element? && n.child == IndentedCollection([]) && |GetLinks(n.attrs)| == 1 ==>
      r == StringExtra.Repeated(Tab, GetIndentation(n.attrs)) + n.text + "(" + GetLinks(n.attrs)[0] + ")"
           + (if n.kind == Block then "\n" else "")
  {
    assert n.Element? && n.child == IndentedCollection([]) ==> Render(n.child, 1, true, env) == Rendered([], []);
    Render(n, 0, true, env).text
  }

  // ---------------------------------------------------------------------------
  // The final render and the link cache

  /** One footnote definition per cached URL: `[id]:url`. */
  function Footnotes(cache: seq<string>, env: Platform.Env): (r: seq<string>)
    ensures |r| == |cache|
    ensures forall i :: 0 <= i < |cache| ==> r[i] == "[" + env.id(cache[i]) + "]:" + cache[i]
  {
    seq(|cache|, i requires 0 <= i < |cache| => "[" + env.id(cache[i]) + "]:" + cache[i])
  }

  /** `finalRender(inlineLinks:)`: the cleaned-up text, a newline, and the
      footnote definitions of every cached URL, one per line; the cache is
      emptied. The links `render` reports are not used. */
  function FinalRender(n: MDNode, inlineLinks: bool, cache: seq<string>, env: Platform.Env): (r: (string, seq<string>))
    ensures r.1 == []
    ensures cache == [] ==> r.0 == MarkdownCleanup.Cleanup(Render(n, 0, inlineLinks, env).text) + "\n"
  {
    (MarkdownCleanup.Cleanup(Render(n, 0, inlineLinks, env).text) + "\n" + Text.Join(Footnotes(cache, env), '\n'), [])
  }

  /** The link cache holds each URL once. */
  predicate NoDuplicates(cache: seq<string>) {
    forall i, j :: 0 <= i < j < |cache| ==> cache[i] != cache[j]
  }

  /** `linkCache.insert(url)` */
  function Insert(cache: seq<string>, url: string): (r: seq<string>)
    ensures url in r
    ensures forall x :: x in r <==> x == url || x in cache
    ensures NoDuplicates(cache) ==> NoDuplicates(r)
    ensures |r| == if url in cache then |cache| else |cache| + 1
  {
    if url in cache then cache else cache + [url]
  }

  // ---------------------------------------------------------------------------
  // Builders

  /** `document(_:)` */
  function Document(children: seq<MDNode>): MDNode {
    NonIndentedCollection(children)
  }

  /** The static `element(_:_:attributes:_:)`: the children become an
      indented collection. */
  function ElementWith(value: string, kind: MDType, attributes: seq<MDAttribute>, children: seq<MDNode>): MDNode {
    Element(value, kind, attributes, IndentedCollection(children))
  }

  /** `min(max(headerValue, 1), 6)` */
  function Clamp(headerValue: int): (r: int)
    ensures 1 <= r <= 6
    ensures 1 <= headerValue <= 6 ==> r == headerValue
    ensures headerValue < 1 ==> r == 1
    ensures headerValue > 6 ==> r == 6
  {
    if headerValue < 1 then 1 else if headerValue > 6 then 6 else headerValue
  }

  function HeaderText(headerValue: int, text: string): string {
    StringExtra.Repeated("#", Clamp(headerValue)) + " " + text
  }

  /** `header(_:_:)` as written: it calls the static `element`, whose
      variadic children wrap the empty collection in a second one. */
  function HeaderAsWritten(headerValue: int, text: string): (r: MDNode)
    ensures TypeOf(r) == Some(Block) && TextOf(r) == Some(HeaderText(headerValue, text))
    ensures AllLinks(r) == []
    ensures r.child == IndentedCollection([IndentedCollection([])])
  {
    ElementWith(HeaderText(headerValue, text), Block, [], [IndentedCollection([])])
  }

  /** `header(_:_:)` as evidently intended: a block with no children. */
  function Header(headerValue: int, text: string): (r: MDNode)
    ensures TypeOf(r) == Some(Block) && TextOf(r) == Some(HeaderText(headerValue, text))
    ensures AllLinks(r) == []
    ensures r.child == IndentedCollection([])
  {
    Element(HeaderText(headerValue, text), Block, [], IndentedCollection([]))
  }

  /** Which `header` a page is built with: the program's, or the corrected
      one the header's unit test expects. */
  datatype HeaderStyle = AsWritten | Corrected

  function StyledHeader(style: HeaderStyle, headerValue: int, text: string): MDNode {
    if style.AsWritten? then HeaderAsWritten(headerValue, text) else Header(headerValue, text)
  }

  /** What a top-level header leaves on the line after its own: one tab as
      written, nothing once corrected. */
  function HeaderGap(style: HeaderStyle): string {
    if style.AsWritten? then Tab else ""
  }

  /** `paragraph(_:indentation:)` */
  function Paragraph(text: string, indentation: int): MDNode {
    Element(text, Block, [Indentation(indentation)], IndentedCollection([]))
  }

  /** The texts of inline elements rendered on their own, without inline
      links. */
  function InlineTexts(elements: seq<MDNode>, env: Platform.Env): (r: seq<string>)
    ensures |r| == |elements|
    ensures forall i :: 0 <= i < |elements| ==> r[i] == Render(elements[i], 0, false, env).text
  {
    seq(|elements|, i requires 0 <= i < |elements| => Render(elements[i], 0, false, env).text)
  }

  /** `paragraphWithInlineElements(_:indentation:)`: the elements rendered
      and joined by spaces into one block. */
  function ParagraphWithInlineElements(elements: seq<MDNode>, indentation: int, env: Platform.Env): MDNode {
    Element(Text.Join(InlineTexts(elements, env), ' '), Block, [Indentation(indentation)], IndentedCollection([]))
  }

  /** `text(_:indentation:)` */
  function PlainText(text: string, indentation: int): MDNode {
    Element(text, Inline, [Indentation(indentation)], IndentedCollection([]))
  }

  /** `unorderedListItem(_:_:indentation:)` */
  function UnorderedListItem(text: string, children: seq<MDNode>, indentation: int): MDNode {
    Element("* " + text, Block, [Indentation(indentation)], IndentedCollection(children))
  }

  /** `orderedListItem(_:_:indentation:)` */
  function OrderedListItem(text: string, children: seq<MDNode>, indentation: int): MDNode {
    Element("1. " + text, Block, [Indentation(indentation)], IndentedCollection(children))
  }

  /** `codeBlock(_:syntax:indentation:)` */
  function CodeBlock(text: string, syntax: string, indentation: int): MDNode {
    Element("```" + syntax + "\n" + text + "\n```", Block, [Indentation(indentation)], IndentedCollection([]))
  }

  /** `line(_:)` */
  function Line(children: seq<MDNode>): MDNode {
    NonIndentedCollection(children)
  }

  /** The URL a link points at: the destination when `URL(string:)` accepts
      it, `#` otherwise. */
  function LinkTarget(destination: string, env: Platform.Env): (r: string)
    ensures r == destination || r == "#"
    ensures env.validUrl(destination) ==> r == destination
    ensures r != destination ==> !env.validUrl(destination)
  {
    if env.validUrl(destination) then destination else "#"
  }

  /** `link(_:_:)`: an inline element carrying the URL, which is also added
      to the cache. */
  function Link(text: string, destination: string, cache: seq<string>, env: Platform.Env): (r: (MDNode, seq<string>))
    ensures r.0.Element? && r.0.kind == Inline
    ensures GetLinks(r.0.attrs) == [LinkTarget(destination, env)]
    ensures r.1 == Insert(cache, LinkTarget(destination, env))
  {
    var url := LinkTarget(destination, env);
    (Element("[" + text + "]", Inline, [LinkURL(url)], IndentedCollection([])), Insert(cache, url))
  }

  /** `italics(_:)` */
  function Italics(text: string): MDNode {
    Element("*" + text + "*", Inline, [], IndentedCollection([]))
  }

  /** `bold(_:)` */
  function Bold(text: string): MDNode {
    Element("**" + text + "**", Inline, [], IndentedCollection([]))
  }

  /** `boldItalics(_:)` */
  function BoldItalics(text: string): MDNode {
    Element("***" + text + "***", Inline, [], IndentedCollection([]))
  }

  /** `newline()` */
  function Newline(): MDNode {
    Element("\n", Inline, [], IndentedCollection([]))
  }

  /** `appending(nodes:)`: this node followed by `nodes`, in a non-indented
      collection. */
  function Appending(n: MDNode, nodes: seq<MDNode>): MDNode {
    NonIndentedCollection([n] + nodes)
  }

  /** Appending owes the links of the node, then those of the new nodes. */
  lemma AppendingLinks(n: MDNode, nodes: seq<MDNode>)
    ensures AllLinks(Appending(n, nodes)) == AllLinks(n) + AllLinksOf(nodes)
  {
    assert ([n] + nodes)[0] == n && ([n] + nodes)[1..] == nodes;
  }

  /** `appending(node:)`: the links owed are the node's, then the new node's. */
  function AppendingNode(n: MDNode, node: MDNode): (r: MDNode)
    ensures AllLinks(r) == AllLinks(n) + AllLinks(node)
  {
    AppendingLinks(n, [node]);
    assert [node][1..] == [] && AllLinksOf([node]) == AllLinks(node) + [];
    Appending(n, [node])
  }

  /** `appending(linkText:destination:)`: the node and then a link, in a
      non-indented collection; the link's URL joins the cache. */
  function AppendingLink(n: MDNode, name: string, destination: string, cache: seq<string>, env: Platform.Env): (r: (MDNode, seq<string>))
    ensures r.0 == NonIndentedCollection([n, Link(name, destination, cache, env).0])
    ensures r.1 == Insert(cache, LinkTarget(destination, env))
  {
    var (link, cache') := Link(name, destination, cache, env);
    (NonIndentedCollection([n, link]), cache')
  }

  /** The appended link is a line of its own after the node's text, written
      `[name][id]`, and it owes its footnote after the node's links. */
  lemma AppendingLinkRender(n: MDNode, name: string, destination: string, cache: seq<string>, depth: int, inlineLinks: bool, env: Platform.Env)
    ensures var url := LinkTarget(destination, env);
      Render(AppendingLink(n, name, destination, cache, env).0, depth, inlineLinks, env) ==
        Rendered(Render(n, depth, false, env).text + "\n" + ("[" + name + "][" + env.id(url) + "]" + "\n"),
                 AllLinks(n) + [url])
  {
    var link := Link(name, destination, cache, env).0;
    var url := LinkTarget(destination, env);
    LinkFootnote(name, destination, cache, depth, env);
    var nodes := [n, link];
    assert nodes[1..] == [link] && [link][1..] == [];
    var tail := RenderNonIndented([link], depth, env);
    assert [link][0] == link && RenderNonIndented([], depth, env) == Rendered([], []);
    assert tail.text == "[" + name + "][" + env.id(url) + "]" + "\n" + [];
    assert tail.links == [url] + [];
  }

  // ---------------------------------------------------------------------------
  // Properties of rendering

  /** Every URL of every element of the tree, in document order: the links a
      document owes footnotes for. */
  function AllLinks(n: MDNode): seq<string>
    decreases n, 1
  {
    match n
    case Element(_, _, attrs, child) => GetLinks(attrs) + AllLinks(child)
    case IndentedCollection(nodes) => AllLinksOf(nodes)
    case NonIndentedCollection(nodes) => AllLinksOf(nodes)
  }

  function AllLinksOf(nodes: seq<MDNode>): seq<string>
    decreases nodes, 0
  {
    if nodes == [] then [] else AllLinks(nodes[0]) + AllLinksOf(nodes[1..])
  }

  lemma {:induction false} AllLinksOfConcat(a: seq<MDNode>, b: seq<MDNode>)
    ensures AllLinksOf(a + b) == AllLinksOf(a) + AllLinksOf(b)
  {
    if a == [] {
      assert a + b == b;
    } else {
      assert (a + b)[0] == a[0];
      assert (a + b)[1..] == a[1..] + b;
      AllLinksOfConcat(a[1..], b);
    }
  }

  lemma AllLinksOfLast(nodes: seq<MDNode>)
    requires nodes != []
    ensures AllLinksOf(nodes) == AllLinksOf(nodes[..|nodes| - 1]) + AllLinks(nodes[|nodes| - 1])
  {
    var front, last := nodes[..|nodes| - 1], nodes[|nodes| - 1];
    assert nodes == front + [last];
    AllLinksOfConcat(front, [last]);
    assert [last][1..] == [];
    assert AllLinksOf([last]) == AllLinks(last) + [];
    assert AllLinks(last) + [] == AllLinks(last);
  }

  /** An element without children and without exactly one link renders as
      its indentation in tabs, its text, and a newline if it is a block: no
      reference is written, and every link it carries is still owed, even in
      inline mode. */
  lemma LeafRender(n: MDNode, depth: int, inlineLinks: bool, env: Platform.Env)
    requires n.Element? && n.child == IndentedCollection([]) && |GetLinks(n.attrs)| != 1
    ensures Render(n, depth, inlineLinks, env) ==
      Rendered(StringExtra.Repeated(Tab, GetIndentation(n.attrs)) + n.text + (if n.kind == Block then "\n" else ""),
               GetLinks(n.attrs))
  {
    assert Render(n.child, depth + 1, inlineLinks, env) == Rendered([], []);
  }

  /** An element with no links and no indentation writes its text, its
      newline when it is a block, and its child one level deeper. */
  lemma ParentRender(n: MDNode, depth: int, inlineLinks: bool, env: Platform.Env)
    requires n.Element? && GetLinks(n.attrs) == [] && GetIndentation(n.attrs) == 0
    ensures Render(n, depth, inlineLinks, env) ==
      Rendered(n.text + (if n.kind == Block then "\n" else "") + Render(n.child, depth + 1, inlineLinks, env).text,
               Render(n.child, depth + 1, inlineLinks, env).links)
  {
    assert StringExtra.Repeated(Tab, 0) == [];
  }

  lemma ParagraphRender(text: string, indentation: int, depth: int, inlineLinks: bool, env: Platform.Env)
    ensures Render(Paragraph(text, indentation), depth, inlineLinks, env) ==
      Rendered(StringExtra.Repeated(Tab, indentation) + text + "\n", [])
  {
    LeafRender(Paragraph(text, indentation), depth, inlineLinks, env);
  }

  /** A code block is a fenced block: the fence with the syntax name, the
      code, and the closing fence, each on its own line. */
  lemma CodeBlockRender(text: string, syntax: string, indentation: int, depth: int, inlineLinks: bool, env: Platform.Env)
    ensures Render(CodeBlock(text, syntax, indentation), depth, inlineLinks, env) ==
      Rendered(StringExtra.Repeated(Tab, indentation) + "```" + syntax + "\n" + text + "\n```\n", [])
  {
    LeafRender(CodeBlock(text, syntax, indentation), depth, inlineLinks, env);
  }

  /** Plain text is inline: its indentation and its text, with no newline. */
  lemma PlainTextRender(text: string, indentation: int, depth: int, inlineLinks: bool, env: Platform.Env)
    ensures Render(PlainText(text, indentation), depth, inlineLinks, env) ==
      Rendered(StringExtra.Repeated(Tab, indentation) + text, [])
  {
    LeafRender(PlainText(text, indentation), depth, inlineLinks, env);
  }

  /** Emphasis is inline and unindented: the text between one star in
      italics, two in bold and three in both. */
  lemma ItalicsRender(text: string, depth: int, inlineLinks: bool, env: Platform.Env)
    ensures Render(Italics(text), depth, inlineLinks, env) == Rendered("*" + text + "*", [])
  {
    LeafRender(Italics(text), depth, inlineLinks, env);
  }

  lemma BoldRender(text: string, depth: int, inlineLinks: bool, env: Platform.Env)
    ensures Render(Bold(text), depth, inlineLinks, env) == Rendered("**" + text + "**", [])
  {
    LeafRender(Bold(text), depth, inlineLinks, env);
  }

  lemma BoldItalicsRender(text: string, depth: int, inlineLinks: bool, env: Platform.Env)
    ensures Render(BoldItalics(text), depth, inlineLinks, env) == Rendered("***" + text + "***", [])
  {
    LeafRender(BoldItalics(text), depth, inlineLinks, env);
  }

  /** `newline()` writes a newline and nothing else. */
  lemma NewlineRender(depth: int, inlineLinks: bool, env: Platform.Env)
    ensures Render(Newline(), depth, inlineLinks, env) == Rendered("\n", [])
  {
    LeafRender(Newline(), depth, inlineLinks, env);
  }

  /** An inline paragraph is one line: the elements, each rendered on its own
      with footnote references, joined by spaces. */
  lemma InlineParagraphRender(elements: seq<MDNode>, indentation: int, depth: int, inlineLinks: bool, env: Platform.Env)
    ensures Render(ParagraphWithInlineElements(elements, indentation, env), depth, inlineLinks, env) ==
      Rendered(StringExtra.Repeated(Tab, indentation) + Text.Join(InlineTexts(elements, env), ' ') + "\n", [])
  {
    LeafRender(ParagraphWithInlineElements(elements, indentation, env), depth, inlineLinks, env);
  }

  /** Two emphasised words on one line, as an item's access level and kind
      are shown. */
  lemma EmphasisPairRender(a: MDNode, b: MDNode, indentation: int, depth: int, inlineLinks: bool, env: Platform.Env)
    ensures Render(ParagraphWithInlineElements([a, b], indentation, env), depth, inlineLinks, env).text ==
      StringExtra.Repeated(Tab, indentation) + Render(a, 0, false, env).text + " " + Render(b, 0, false, env).text + "\n"
  {
    InlineParagraphRender([a, b], indentation, depth, inlineLinks, env);
    var texts := InlineTexts([a, b], env);
    assert texts == [texts[0], texts[1]];
    Text.JoinPair(texts[0], texts[1], ' ');
  }

  /** An ordered item renders as its `1.` line followed by its children, one
      level deeper. */
  lemma OrderedListItemRender(title: string, children: seq<MDNode>, depth: int, inlineLinks: bool, env: Platform.Env)
    ensures Render(OrderedListItem(title, children, 0), depth, inlineLinks, env).text ==
      "1. " + title + "\n" + RenderIndented(children, depth + 1, env).text
  {
    var n := OrderedListItem(title, children, 0);
    assert GetLinks(n.attrs) == [] && GetIndentation(n.attrs) == 0;
    ParentRender(n, depth, inlineLinks, env);
  }

  /** The corrected header renders as its marks, a space, the text and one
      newline, at any depth. */
  lemma HeaderRender(headerValue: int, text: string, depth: int, inlineLinks: bool, env: Platform.Env)
    ensures Render(Header(headerValue, text), depth, inlineLinks, env) ==
      Rendered(StringExtra.Repeated("#", Clamp(headerValue)) + " " + text + "\n", [])
  {
    LeafRender(Header(headerValue, text), depth, inlineLinks, env);
  }

  /** The header as written leaves the tabs of the next depth after its
      newline. */
  lemma HeaderAsWrittenRender(headerValue: int, text: string, depth: int, inlineLinks: bool, env: Platform.Env)
    requires depth >= 0
    ensures Render(HeaderAsWritten(headerValue, text), depth, inlineLinks, env) ==
      Rendered(StringExtra.Repeated("#", Clamp(headerValue)) + " " + text + "\n" + StringExtra.Repeated(Tab, depth + 1), [])
  {
    var n := HeaderAsWritten(headerValue, text);
    var line := HeaderText(headerValue, text);
    var tabs := StringExtra.Repeated(Tab, depth + 1);
    assert Render(n.child, depth + 1, inlineLinks, env) == Rendered(tabs, []) by {
      EmptyChildPadded(depth + 1, inlineLinks, env);
    }
    assert Render(n, depth, inlineLinks, env) == Rendered(line + "\n" + tabs, []) by {
      assert GetLinks(n.attrs) == [] && GetIndentation(n.attrs) == 0;
      ParentRender(n, depth, inlineLinks, env);
    }
  }

  /** The wrapped empty collection writes only the tabs of its depth. */
  lemma EmptyChildPadded(depth: int, inlineLinks: bool, env: Platform.Env)
    ensures Render(IndentedCollection([IndentedCollection([])]), depth, inlineLinks, env) ==
      Rendered(StringExtra.Repeated(Tab, depth), [])
  {
    var inner := IndentedCollection([]);
    assert [inner][..0] == [];
    assert Render(inner, depth, false, env) == Rendered([], []);
    assert RenderIndented([inner], depth, env) == Rendered([] + Pad([], depth) + [], [] + []);
  }

  /** At the top level either header renders as its line, a newline and its
      gap, and owes no footnote. */
  lemma StyledHeaderRender(style: HeaderStyle, headerValue: int, text: string, env: Platform.Env)
    ensures Render(StyledHeader(style, headerValue, text), 0, false, env) ==
      Rendered(HeaderText(headerValue, text) + "\n" + HeaderGap(style), [])
  {
    if style.AsWritten? {
      HeaderAsWrittenRender(headerValue, text, 0, false, env);
      assert StringExtra.Repeated(Tab, 1) == StringExtra.Repeated(Tab, 0) + Tab == Tab;
    } else {
      HeaderRender(headerValue, text, 0, false, env);
      assert HeaderText(headerValue, text) + "\n" + "" == HeaderText(headerValue, text) + "\n";
    }
  }

  /** A header's final render is its line followed by an empty line. */
  lemma HeaderFinalRender(headerValue: int, text: string, env: Platform.Env)
    requires '\n' !in text
    ensures FinalRender(Header(headerValue, text), false, [], env).0 ==
      StringExtra.Repeated("#", Clamp(headerValue)) + " " + text + "\n\n"
  {
    var line := HeaderText(headerValue, text);
    var rendered := line + ['\n'] + [];
    assert Render(Header(headerValue, text), 0, false, env).text == rendered by {
      HeaderRender(headerValue, text, 0, false, env);
      assert line + "\n" == rendered;
    }
    assert MarkdownCleanup.Cleanup(rendered) == rendered by {
      HeaderLine(headerValue, text);
      MarkdownCleanup.CleanupTwoLines(line, []);
    }
    assert rendered + "\n" == line + "\n\n";
  }

  /** The header as written ends its final render with a line holding one tab. */
  lemma HeaderAsWrittenFinalRender(headerValue: int, text: string, env: Platform.Env)
    requires '\n' !in text
    ensures FinalRender(HeaderAsWritten(headerValue, text), false, [], env).0 ==
      StringExtra.Repeated("#", Clamp(headerValue)) + " " + text + "\n\t\n"
  {
    var line := HeaderText(headerValue, text);
    var rendered := line + ['\n'] + Tab;
    assert Render(HeaderAsWritten(headerValue, text), 0, false, env).text == rendered by {
      HeaderAsWrittenRender(headerValue, text, 0, false, env);
      assert StringExtra.Repeated(Tab, 1) == StringExtra.Repeated(Tab, 0) + Tab == Tab;
      assert line + "\n" + Tab == rendered;
    }
    assert MarkdownCleanup.Cleanup(rendered) == rendered by {
      HeaderLine(headerValue, text);
      MarkdownCleanup.CleanupTwoLines(line, Tab);
    }
    assert rendered + "\n" == line + "\n\t\n";
  }

  /** A header line starts with `#`, so it is not blank, and holds no line break. */
  lemma HeaderLine(headerValue: int, text: string)
    requires '\n' !in text
    ensures !MarkdownCleanup.IsBlank(HeaderText(headerValue, text))
    ensures '\n' !in HeaderText(headerValue, text)
  {
    var c := Clamp(headerValue);
    StringExtra.RepeatedChar('#', c);
    var line := HeaderText(headerValue, text);
    assert line[0] == '#';
    assert !Text.IsSpace(line[0]);
  }

  /** A header line is not a list item, so the clean-up never deletes the
      blank line under it. */
  lemma HeaderNotListItem(headerValue: int, text: string)
    ensures !MarkdownCleanup.IsListLine(Text.Trim(HeaderText(headerValue, text)))
  {
    var line := HeaderText(headerValue, text);
    StringExtra.RepeatedChar('#', Clamp(headerValue));
    assert line[0] == '#' && !Text.IsSpace(line[0]);
    assert Text.TrimStart(line) == line;
    Text.TrimEndShape(line);
    var trimmed := Text.Trim(line);
    assert trimmed != [] && trimmed[0] == '#';
  }

  /** The header of the first test case: the code as written renders
      `# Header 1` followed by a tab-only line, not the expected
      `"# Header 1\n\n"`, which the corrected header gives. */
  lemma HeaderFinding(headerValue: int, text: string, env: Platform.Env)
    requires headerValue == 1 && text == "Header 1"
    ensures FinalRender(HeaderAsWritten(headerValue, text), false, [], env).0 == "# Header 1\n\t\n"
    ensures FinalRender(Header(headerValue, text), false, [], env).0 == "# Header 1\n\n"
    ensures FinalRender(HeaderAsWritten(headerValue, text), false, [], env).0 != FinalRender(Header(headerValue, text), false, [], env).0
  {
    var marks := StringExtra.Repeated("#", Clamp(headerValue));
    assert marks == "#" by {
      assert StringExtra.Repeated("#", 1) == StringExtra.Repeated("#", 0) + "#";
    }
    assert '\n' !in text;
    HeaderAsWrittenFinalRender(headerValue, text, env);
    HeaderFinalRender(headerValue, text, env);
    HeaderOneSpelled(marks, text);
  }

  /** The two renders of the test's header, spelled out. */
  lemma HeaderOneSpelled(marks: string, text: string)
    requires marks == "#" && text == "Header 1"
    ensures marks + " " + text + "\n\t\n" == "# Header 1\n\t\n"
    ensures marks + " " + text + "\n\n" == "# Header 1\n\n"
    ensures "# Header 1\n\t\n" != "# Header 1\n\n"
  {
    assert |"# Header 1\n\t\n"| != |"# Header 1\n\n"|;
  }

  // ---------------------------------------------------------------------------
  // Links

  /** Rendered in a page, a link writes its text and the footnote reference
      `[id]`, and owes a footnote; the final render defines that footnote,
      because the link put its URL in the cache. */
  lemma LinkFootnote(text: string, destination: string, cache: seq<string>, depth: int, env: Platform.Env)
    ensures var (node, cache') := Link(text, destination, cache, env);
      var url := LinkTarget(destination, env);
      && Render(node, depth, false, env) == Rendered("[" + text + "][" + env.id(url) + "]", [url])
      && "[" + env.id(url) + "]:" + url in Footnotes(cache', env)
  {
    var (node, cache') := Link(text, destination, cache, env);
    var url := LinkTarget(destination, env);
    assert Render(node.child, depth + 1, false, env) == Rendered([], []);
    assert StringExtra.Repeated(Tab, GetIndentation(node.attrs)) == [];
    var i :| 0 <= i < |cache'| && cache'[i] == url;
    assert Footnotes(cache', env)[i] == "[" + env.id(url) + "]:" + url;
  }

  /** Interpolated into a string, a link is written inline as
      `[text](url)` and owes nothing. */
  lemma LinkDescription(text: string, destination: string, cache: seq<string>, env: Platform.Env)
    ensures var node := Link(text, destination, cache, env).0;
      var url := LinkTarget(destination, env);
      && Description(node, env) == "[" + text + "](" + url + ")"
      && Render(node, 0, true, env).links == []
  {
    var node := Link(text, destination, cache, env).0;
    assert Render(node.child, 1, true, env) == Rendered([], []);
    assert StringExtra.Repeated(Tab, GetIndentation(node.attrs)) == [];
  }

  /** Making links only ever adds their URLs to the cache, each once. */
  lemma LinkCacheGrows(text: string, destination: string, cache: seq<string>, env: Platform.Env)
    requires NoDuplicates(cache)
    ensures var cache' := Link(text, destination, cache, env).1;
      && NoDuplicates(cache')
      && cache'[..|cache|] == cache
      && LinkTarget(destination, env) in cache'
      && (forall u :: u in cache' ==> u in cache || u == LinkTarget(destination, env))
  {}

  /** A destination that is not a URL links to `#`. */
  lemma InvalidDestination(text: string, destination: string, cache: seq<string>, env: Platform.Env)
    requires !env.validUrl(destination)
    ensures GetLinks(Link(text, destination, cache, env).0.attrs) == ["#"]
    ensures "#" in Link(text, destination, cache, env).1
  {}

  /** An inline paragraph keeps only the text of its elements: it owes no
      footnotes, although its links are still in the cache. */
  lemma InlineParagraphOwesNothing(elements: seq<MDNode>, indentation: int, env: Platform.Env)
    ensures AllLinks(ParagraphWithInlineElements(elements, indentation, env)) == []
  {
    var n := ParagraphWithInlineElements(elements, indentation, env);
    assert GetLinks(n.attrs) == GetLinks([Indentation(indentation)]) == [];
    assert AllLinks(n.child) == AllLinksOf([]) == [];
  }

  // ---------------------------------------------------------------------------
  // Collections

  /** A line ends with a newline. */
  predicate EndsLine(s: string) {
    s != [] && s[|s| - 1] == '\n'
  }

  /** Children stacked as lines: each rendered at `depth` behind `depth`
      tabs. */
  function Stacked(nodes: seq<MDNode>, depth: int, env: Platform.Env): string
    decreases |nodes|
  {
    if nodes == [] then []
    else Stacked(nodes[..|nodes| - 1], depth, env) + StringExtra.Repeated(Tab, depth) + Render(nodes[|nodes| - 1], depth, false, env).text
  }

  /** In an indented collection of children that each end a line, every
      child starts a line of its own behind the collection's indentation. */
  lemma {:induction false} IndentedLines(nodes: seq<MDNode>, depth: int, env: Platform.Env)
    requires forall i :: 0 <= i < |nodes| ==> EndsLine(Render(nodes[i], depth, false, env).text)
    ensures RenderIndented(nodes, depth, env).text == Stacked(nodes, depth, env)
    ensures nodes != [] ==> EndsLine(RenderIndented(nodes, depth, env).text)
    decreases |nodes|
  {
    if nodes != [] {
      var front := nodes[..|nodes| - 1];
      var tabs := StringExtra.Repeated(Tab, depth);
      FrontEndsLines(nodes, front, depth, env);
      IndentedLines(front, depth, env);
      var acc := RenderIndented(front, depth, env).text;
      var last := Render(nodes[|nodes| - 1], depth, false, env).text;
      assert Pad(acc, depth) == tabs by {
        assert acc == [] || EndsLine(acc);
      }
      assert RenderIndented(nodes, depth, env).text == acc + tabs + last;
      assert Stacked(nodes, depth, env) == Stacked(front, depth, env) + tabs + last;
      EndsLineAfter(acc + tabs, last);
    }
  }

  lemma FrontEndsLines(nodes: seq<MDNode>, front: seq<MDNode>, depth: int, env: Platform.Env)
    requires nodes != [] && front == nodes[..|nodes| - 1]
    requires forall i :: 0 <= i < |nodes| ==> EndsLine(Render(nodes[i], depth, false, env).text)
    ensures forall i :: 0 <= i < |front| ==> EndsLine(Render(front[i], depth, false, env).text)
  {
    forall i | 0 <= i < |front| ensures EndsLine(Render(front[i], depth, false, env).text) {
      assert front[i] == nodes[i];
    }
  }

  lemma EndsLineAfter(a: string, b: string)
    requires EndsLine(b)
    ensures EndsLine(a + b)
  {
    assert (a + b)[|a + b| - 1] == b[|b| - 1];
  }

  /** `appending(nodes:)` puts the new nodes after the rendered node and a
      newline; each node, old or new, is followed by a newline. */
  lemma AppendingRender(n: MDNode, nodes: seq<MDNode>, depth: int, inlineLinks: bool, env: Platform.Env)
    ensures Render(Appending(n, nodes), depth, inlineLinks, env).text ==
      Render(n, depth, false, env).text + "\n" + RenderNonIndented(nodes, depth, env).text
  {
    assert ([n] + nodes)[0] == n && ([n] + nodes)[1..] == nodes;
  }

  /** Appending to a node that was itself appended to adds an empty line
      between the two groups, since the inner collection ends with a
      newline before the outer one adds its own. */
  lemma AppendingTwice(n: MDNode, a: seq<MDNode>, b: seq<MDNode>, depth: int, env: Platform.Env)
    ensures Render(Appending(Appending(n, a), b), depth, false, env).text ==
      Render(Appending(n, a), depth, false, env).text + "\n" + RenderNonIndented(b, depth, env).text
    ensures EndsLine(Render(Appending(n, a), depth, false, env).text)
  {
    AppendingRender(Appending(n, a), b, depth, false, env);
    AppendingRender(n, a, depth, false, env);
    NonIndentedEndsLine(a, depth, env);
  }

  lemma {:induction false} NonIndentedEndsLine(nodes: seq<MDNode>, depth: int, env: Platform.Env)
    ensures nodes != [] ==> EndsLine(RenderNonIndented(nodes, depth, env).text)
    decreases |nodes|
  {
    if nodes != [] {
      NonIndentedEndsLine(nodes[1..], depth, env);
    }
  }

  // ---------------------------------------------------------------------------
  // Nested lists

  /** A list item whose only child is the next item, one level down. */
  function Nest(titles: seq<string>): MDNode
    requires |titles| >= 1
    decreases |titles|
  {
    UnorderedListItem(titles[0], if |titles| == 1 then [] else [Nest(titles[1..])], 0)
  }

  /** The lines of a staircase: item `k` behind `first + k` tabs. */
  function Staircase(titles: seq<string>, first: int): string
    decreases |titles|
  {
    if titles == [] then []
    else StringExtra.Repeated(Tab, first) + "* " + titles[0] + "\n" + Staircase(titles[1..], first + 1)
  }

  /** A list item renders as its line followed by its children, one
      level deeper. */
  lemma ListItemRender(title: string, children: seq<MDNode>, depth: int, inlineLinks: bool, env: Platform.Env)
    ensures Render(UnorderedListItem(title, children, 0), depth, inlineLinks, env).text ==
      "* " + title + "\n" + RenderIndented(children, depth + 1, env).text
  {
    var n := UnorderedListItem(title, children, 0);
    assert GetLinks(n.attrs) == [] && GetIndentation(n.attrs) == 0;
    ParentRender(n, depth, inlineLinks, env);
  }

  /** Three children that each end a line stack up, each behind the
      collection's indentation. */
  lemma IndentedThree(a: MDNode, b: MDNode, c: MDNode, depth: int, env: Platform.Env)
    requires EndsLine(Render(a, depth, false, env).text) && EndsLine(Render(b, depth, false, env).text)
    requires EndsLine(Render(c, depth, false, env).text)
    ensures var tabs := StringExtra.Repeated(Tab, depth);
      RenderIndented([a, b, c], depth, env).text ==
        tabs + Render(a, depth, false, env).text + tabs + Render(b, depth, false, env).text + tabs + Render(c, depth, false, env).text
  {
    var tabs := StringExtra.Repeated(Tab, depth);
    var ra, rb, rc := Render(a, depth, false, env).text, Render(b, depth, false, env).text, Render(c, depth, false, env).text;
    var one := RenderIndented([a], depth, env).text;
    assert one == tabs + ra && EndsLine(one) by {
      SingleIndented(a, depth, env);
      EndsLineAfter(tabs, ra);
    }
    var two := RenderIndented([a, b], depth, env).text;
    assert two == one + tabs + rb && EndsLine(two) by {
      assert [a, b][..1] == [a];
      assert Pad(one, depth) == tabs;
      EndsLineAfter(one + tabs, rb);
    }
    assert RenderIndented([a, b, c], depth, env).text == two + tabs + rc by {
      assert [a, b, c][..2] == [a, b];
      assert Pad(two, depth) == tabs;
    }
  }

  lemma SingleIndented(c: MDNode, depth: int, env: Platform.Env)
    ensures RenderIndented([c], depth, env).text == StringExtra.Repeated(Tab, depth) + Render(c, depth, false, env).text
  {
    assert [c][..0] == [];
  }

  /** Nested list items render one per line, each one tab deeper than its
      parent. */
  lemma {:induction false} NestedListRender(titles: seq<string>, depth: int, inlineLinks: bool, env: Platform.Env)
    requires |titles| >= 1
    ensures StringExtra.Repeated(Tab, depth) + Render(Nest(titles), depth, inlineLinks, env).text == Staircase(titles, depth)
    decreases |titles|
  {
    var tabs := StringExtra.Repeated(Tab, depth);
    var head := "* " + titles[0] + "\n";
    StaircaseStep(titles, depth);
    if |titles| == 1 {
      ListItemRender(titles[0], [], depth, inlineLinks, env);
    } else {
      var deeper := StringExtra.Repeated(Tab, depth + 1);
      var inner := Render(Nest(titles[1..]), depth + 1, false, env).text;
      NestStep(titles, depth, inlineLinks, env);
      NestedListRender(titles[1..], depth + 1, false, env);
      Text.ConcatAssoc(head, deeper, inner);
      Text.ConcatAssoc(tabs, head, deeper + inner);
    }
  }

  lemma NestStep(titles: seq<string>, depth: int, inlineLinks: bool, env: Platform.Env)
    requires |titles| >= 2
    ensures Render(Nest(titles), depth, inlineLinks, env).text ==
      "* " + titles[0] + "\n" + StringExtra.Repeated(Tab, depth + 1) + Render(Nest(titles[1..]), depth + 1, false, env).text
  {
    var inner := Nest(titles[1..]);
    ListItemRender(titles[0], [inner], depth, inlineLinks, env);
    SingleIndented(inner, depth + 1, env);
  }

  lemma StaircaseStep(titles: seq<string>, first: int)
    requires |titles| >= 1
    ensures Staircase(titles, first) ==
      StringExtra.Repeated(Tab, first) + ("* " + titles[0] + "\n") + Staircase(titles[1..], first + 1)
  {}
  /** The lines of a staircase, without their line breaks. */
  function StaircaseLines(titles: seq<string>, first: int): (r: seq<string>)
    ensures |r| == |titles|
    decreases |titles|
  {
    if titles == [] then []
    else [StringExtra.Repeated(Tab, first) + "* " + titles[0]] + StaircaseLines(titles[1..], first + 1)
  }

  /** A staircase line is a list line: tabs, then `* ` and the title. */
  lemma StaircaseLine(title: string, first: int)
    requires '\n' !in title
    ensures var line := StringExtra.Repeated(Tab, first) + "* " + title;
      && '\n' !in line
      && !MarkdownCleanup.IsBlank(line)
  {
    var tabs := StringExtra.Repeated(Tab, first);
    var line := tabs + "* " + title;
    StringExtra.RepeatedChar('\t', first);
    assert Tab == ['\t'];
    assert line[|tabs|] == '*';
    forall i | 0 <= i < |line| ensures line[i] != '\n' {
      if i >= |tabs| + 2 {
        assert line[i] == title[i - |tabs| - 2];
      }
    }
  }

  /** Splitting a staircase at its line breaks gives its lines. */
  lemma {:induction false} StaircaseSplit(titles: seq<string>, first: int, tail: string)
    requires forall k :: 0 <= k < |titles| ==> '\n' !in titles[k]
    ensures Text.Split(Staircase(titles, first) + tail, '\n') == StaircaseLines(titles, first) + Text.Split(tail, '\n')
    decreases |titles|
  {
    if titles == [] {
      assert Staircase(titles, first) + tail == tail;
    } else {
      var line := StringExtra.Repeated(Tab, first) + "* " + titles[0];
      var below := Staircase(titles[1..], first + 1);
      StaircaseLine(titles[0], first);
      StaircaseSplit(titles[1..], first + 1, tail);
      StaircaseCons(titles, first, tail);
      Text.SplitAtSeparator(line, '\n', below + tail);
    }
  }

  lemma StaircaseCons(titles: seq<string>, first: int, tail: string)
    requires |titles| >= 1
    ensures Staircase(titles, first) + tail ==
      (StringExtra.Repeated(Tab, first) + "* " + titles[0]) + ['\n'] + (Staircase(titles[1..], first + 1) + tail)
  {
    var tabs, below := StringExtra.Repeated(Tab, first), Staircase(titles[1..], first + 1);
    var line := tabs + "* " + titles[0];
    assert Staircase(titles, first) == tabs + "* " + titles[0] + "\n" + below;
    assert tabs + "* " + titles[0] + "\n" + below == line + ['\n'] + below;
  }

  /** No staircase line is blank. */
  lemma {:induction false} StaircaseLinesNotBlank(titles: seq<string>, first: int)
    requires forall k :: 0 <= k < |titles| ==> '\n' !in titles[k]
    ensures forall k :: 0 <= k < |titles| ==> !MarkdownCleanup.IsBlank(StaircaseLines(titles, first)[k])
    decreases |titles|
  {
    if titles != [] {
      var lines := StaircaseLines(titles, first);
      var rest := StaircaseLines(titles[1..], first + 1);
      StaircaseLine(titles[0], first);
      StaircaseLinesNotBlank(titles[1..], first + 1);
      assert lines[1..] == rest;
      forall k | 0 <= k < |titles| ensures !MarkdownCleanup.IsBlank(lines[k]) {
        if k > 0 {
          assert lines[k] == rest[k - 1];
        }
      }
    }
  }

  /** A document holding one chain of nested list items renders, after the
      clean-up, as its staircase of lines and two empty lines: the clean-up
      finds no blank line between list items to delete. */
  lemma SubListingFinalRender(titles: seq<string>, env: Platform.Env)
    requires |titles| >= 1
    requires forall k :: 0 <= k < |titles| ==> '\n' !in titles[k]
    ensures FinalRender(Document([Nest(titles)]), false, [], env).0 == Staircase(titles, 0) + "\n\n"
  {
    var stairs := Staircase(titles, 0);
    var doc := Document([Nest(titles)]);
    assert Render(doc, 0, false, env).text == stairs + "\n" by {
      SubListingRender(titles, env);
    }
    assert MarkdownCleanup.Cleanup(stairs + "\n") == stairs + "\n" by {
      StaircaseSurvivesCleanup(titles);
    }
    assert FinalRender(doc, false, [], env).0 == (stairs + "\n") + "\n" by {
      CleanFinalRender(doc, stairs + "\n", env);
    }
    Text.BlankLine(stairs);
  }

  /** A rendered text the clean-up leaves alone is the final render, with
      one more newline and no footnotes. */
  lemma CleanFinalRender(n: MDNode, text: string, env: Platform.Env)
    requires Render(n, 0, false, env).text == text
    requires MarkdownCleanup.Cleanup(text) == text
    ensures FinalRender(n, false, [], env).0 == text + "\n"
  {}

  lemma SubListingRender(titles: seq<string>, env: Platform.Env)
    requires |titles| >= 1
    ensures Render(Document([Nest(titles)]), 0, false, env).text == Staircase(titles, 0) + "\n"
  {
    NestedListRender(titles, 0, false, env);
    assert StringExtra.Repeated(Tab, 0) == [];
    DocumentOfOne(Nest(titles), env);
  }

  lemma StaircaseSurvivesCleanup(titles: seq<string>)
    requires forall k :: 0 <= k < |titles| ==> '\n' !in titles[k]
    ensures MarkdownCleanup.Cleanup(Staircase(titles, 0) + "\n") == Staircase(titles, 0) + "\n"
  {
    StaircaseNewlineSplit(titles);
    StaircaseLinesNotBlank(titles, 0);
    MarkdownCleanup.CleanupKeepsUnbroken(Staircase(titles, 0) + "\n", StaircaseLines(titles, 0), [[], []]);
  }

  /** A staircase and a newline split into its lines and two empty ones. */
  lemma StaircaseNewlineSplit(titles: seq<string>)
    requires forall k :: 0 <= k < |titles| ==> '\n' !in titles[k]
    ensures Text.Split(Staircase(titles, 0) + "\n", '\n') == StaircaseLines(titles, 0) + [[], []]
    ensures MarkdownCleanup.AllBlank([[], []])
  {
    StaircaseSplit(titles, 0, "\n");
    NewlineSplit();
  }

  lemma NewlineSplit()
    ensures Text.Split("\n", '\n') == [[], []]
  {
    assert "\n"[1..] == [];
  }

  /** Texts each followed by a newline: how a non-indented collection
      writes its children. */
  function Lines(texts: seq<string>): string {
    if texts == [] then [] else texts[0] + "\n" + Lines(texts[1..])
  }

  lemma LinesOfTwo(a: string, b: string)
    ensures Lines([a, b]) == a + "\n" + (b + "\n" + "")
  {
    assert [a, b][1..] == [b] && [b][1..] == [];
    assert Lines([b]) == b + "\n" + Lines([]);
  }

  lemma {:induction false} LinesConcat(a: seq<string>, b: seq<string>)
    ensures Lines(a + b) == Lines(a) + Lines(b)
    decreases |a|
  {
    if a == [] {
      assert a + b == b;
    } else {
      assert (a + b)[0] == a[0] && (a + b)[1..] == a[1..] + b;
      LinesConcat(a[1..], b);
      Text.ConcatAssoc(a[0] + "\n", Lines(a[1..]), Lines(b));
    }
  }

  /** A non-indented collection writes each child's text followed by a
      newline. */
  lemma {:induction false} NonIndentedLines(nodes: seq<MDNode>, texts: seq<string>, depth: int, env: Platform.Env)
    requires |nodes| == |texts|
    requires forall i :: 0 <= i < |nodes| ==> Render(nodes[i], depth, false, env).text == texts[i]
    ensures RenderNonIndented(nodes, depth, env).text == Lines(texts)
    decreases |nodes|
  {
    if nodes != [] {
      assert forall i :: 0 <= i < |nodes| - 1 ==> nodes[1..][i] == nodes[i + 1] && texts[1..][i] == texts[i + 1];
      NonIndentedLines(nodes[1..], texts[1..], depth, env);
      assert Render(nodes[0], depth, false, env).text == texts[0];
    }
  }

  /** A non-indented collection writes its children one after another, so
      it splits between any two of them. */
  lemma {:induction false} NonIndentedConcat(a: seq<MDNode>, b: seq<MDNode>, depth: int, env: Platform.Env)
    ensures RenderNonIndented(a + b, depth, env).text == RenderNonIndented(a, depth, env).text + RenderNonIndented(b, depth, env).text
    decreases |a|
  {
    if a == [] {
      assert a + b == b;
    } else {
      assert (a + b)[0] == a[0] && (a + b)[1..] == a[1..] + b;
      NonIndentedConcat(a[1..], b, depth, env);
      var head := Render(a[0], depth, false, env).text + "\n";
      Text.ConcatAssoc(head, RenderNonIndented(a[1..], depth, env).text, RenderNonIndented(b, depth, env).text);
    }
  }

  /** A document of the children of two documents is the one's text followed
      by the other's. */
  lemma DocumentConcat(a: seq<MDNode>, b: seq<MDNode>, depth: int, inlineLinks: bool, env: Platform.Env)
    ensures Render(Document(a + b), depth, inlineLinks, env).text ==
      Render(Document(a), depth, inlineLinks, env).text + Render(Document(b), depth, inlineLinks, env).text
  {
    NonIndentedConcat(a, b, depth, env);
  }

  /** A line of the nodes of two lines is the one's text followed by the
      other's. */
  lemma LineConcat(a: seq<MDNode>, b: seq<MDNode>, depth: int, inlineLinks: bool, env: Platform.Env)
    ensures Render(Line(a + b), depth, inlineLinks, env).text ==
      Render(Line(a), depth, inlineLinks, env).text + Render(Line(b), depth, inlineLinks, env).text
  {
    NonIndentedConcat(a, b, depth, env);
  }

  /** A document of one node is that node's text and a newline. */
  lemma DocumentOfOne(n: MDNode, env: Platform.Env)
    ensures Render(Document([n]), 0, false, env).text == Render(n, 0, false, env).text + "\n"
  {
    assert [n][1..] == [];
    assert RenderNonIndented([n][1..], 0, env) == Rendered([], []);
    var t := Render(n, 0, false, env).text;
    assert t + "\n" + [] == t + "\n";
  }
}
