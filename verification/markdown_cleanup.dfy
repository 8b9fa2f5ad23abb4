/**
  The clean-up pass that `finalRender` runs over rendered markdown: a
  whitespace-only line is deleted when it lies between two consecutive
  content lines that are both list items (their trimmed text starts with
  `1. ` or `* `), so that nested lists do not break apart. Every other line
  is kept, in order.
 */
module MarkdownCleanup {
  import Text

  /** A line with no content: whitespace only, so that trimming it leaves
      nothing (`TrimEmptyIffAllSpace`). */
  predicate IsBlank(line: string) {
    forall i :: 0 <= i < |line| ==> Text.IsSpace(line[i])
  }

  /** Trimmed content that starts an ordered or unordered list item. */
  predicate IsListLine(content: string) {
    Text.StartsWith(content, "1. ") || Text.StartsWith(content, "* ")
  }

  // ---------------------------------------------------------------------------
  // Reference definition

  /** The lines that survive, scanning left to right. Blank lines wait in
      `pending` until the next content line decides their fate: they are
      dropped when that line and the previous content line (`prevList`) are
      both list items, and kept otherwise; blank lines at the end are kept. */
  function Tidy(lines: seq<string>, prevList: bool, pending: seq<string>): seq<string>
    decreases |lines|
  {
    if lines == [] then pending
    else if IsBlank(lines[0]) then Tidy(lines[1..], prevList, pending + [lines[0]])
    else
      var list := IsListLine(Text.Trim(lines[0]));
      (if prevList && list then [] else pending) + [lines[0]] + Tidy(lines[1..], list, [])
  }

  /** The clean-up of a rendered string: split into lines, tidy, join. The
      lines of the result are the tidied lines of the input. */
  function Cleanup(s: string): (r: string)
    ensures Text.Split(r, '\n') == Tidy(Text.Split(s, '\n'), false, [])
  {
    var tidy := Tidy(Text.Split(s, '\n'), false, []);
    TidyFromInput(Text.Split(s, '\n'), false, []);
    assert forall k :: 0 <= k < |tidy| ==> '\n' !in tidy[k] by {
      forall k | 0 <= k < |tidy| ensures '\n' !in tidy[k] {
        assert tidy[k] in tidy;
      }
    }
    Text.SplitJoin(tidy, '\n');
    Text.Join(tidy, '\n')
  }

  /** Every pending line is blank. */
  predicate AllBlank(xs: seq<string>) {
    forall k :: 0 <= k < |xs| ==> IsBlank(xs[k])
  }

  /** The lines with content, in order. */
  function Content(xs: seq<string>): (r: seq<string>)
    ensures |r| <= |xs|
  {
    if xs == [] then [] else (if IsBlank(xs[0]) then [] else [xs[0]]) + Content(xs[1..])
  }

  lemma {:induction false} ContentConcat(xs: seq<string>, ys: seq<string>)
    ensures Content(xs + ys) == Content(xs) + Content(ys)
  {
    if xs == [] {
      assert xs + ys == ys;
    } else {
      assert (xs + ys)[1..] == xs[1..] + ys;
      ContentConcat(xs[1..], ys);
    }
  }

  lemma {:induction false} ContentOfBlank(xs: seq<string>)
    requires AllBlank(xs)
    ensures Content(xs) == []
  {
    if xs != [] {
      ContentOfBlank(xs[1..]);
    }
  }

  /** Tidying deletes blank lines only: every content line survives, in order. */
  lemma {:induction false} TidyKeepsContent(lines: seq<string>, prevList: bool, pending: seq<string>)
    requires AllBlank(pending)
    ensures Content(Tidy(lines, prevList, pending)) == Content(lines)
    decreases |lines|
  {
    if lines == [] {
      ContentOfBlank(pending);
    } else if IsBlank(lines[0]) {
      assert AllBlank(pending + [lines[0]]) by {
        forall k | 0 <= k < |pending| + 1 ensures IsBlank((pending + [lines[0]])[k]) {
          if k < |pending| { assert (pending + [lines[0]])[k] == pending[k]; }
        }
      }
      TidyKeepsContent(lines[1..], prevList, pending + [lines[0]]);
      assert Content(lines) == [] + Content(lines[1..]);
      assert [] + Content(lines[1..]) == Content(lines[1..]);
    } else {
      var list := IsListLine(Text.Trim(lines[0]));
      var kept := if prevList && list then [] else pending;
      var line := [lines[0]];
      var tail := Tidy(lines[1..], list, []);
      assert Tidy(lines, prevList, pending) == kept + line + tail;
      TidyKeepsContent(lines[1..], list, []);
      ContentOfBlank(kept);
      ContentConcat(kept + line, tail);
      ContentConcat(kept, line);
      assert Content(line) == line by {
        assert line[1..] == [];
      }
      assert [] + line == line;
      assert Content(lines) == line + Content(lines[1..]);
    }
  }

  /** Every line of the result is one of the input lines. */
  lemma {:induction false} TidyFromInput(lines: seq<string>, prevList: bool, pending: seq<string>)
    ensures forall x :: x in Tidy(lines, prevList, pending) ==> x in lines || x in pending
    ensures |lines| + |pending| > 0 ==> Tidy(lines, prevList, pending) != []
    decreases |lines|
  {
    if lines != [] {
      if IsBlank(lines[0]) {
        TidyFromInput(lines[1..], prevList, pending + [lines[0]]);
      } else {
        var list := IsListLine(Text.Trim(lines[0]));
        TidyFromInput(lines[1..], list, []);
        assert lines[0] in Tidy(lines, prevList, pending);
      }
    }
  }

  /** No blank run separates two list items: scanning `lines` from state
      (`prevList`, `gap`), no list line follows a list line across blank
      lines. */
  predicate Tidied(lines: seq<string>, prevList: bool, gap: bool)
    decreases |lines|
  {
    if lines == [] then true
    else if IsBlank(lines[0]) then Tidied(lines[1..], prevList, true)
    else
      var list := IsListLine(Text.Trim(lines[0]));
      !(prevList && list && gap) && Tidied(lines[1..], list, false)
  }

  /** Tidy changes nothing where there is nothing to delete. */
  lemma {:induction false} TidyFixedPoint(lines: seq<string>, prevList: bool, pending: seq<string>)
    requires Tidied(lines, prevList, pending != [])
    ensures Tidy(lines, prevList, pending) == pending + lines
    decreases |lines|
  {
    if lines != [] {
      ConsSplit(pending, lines);
      if IsBlank(lines[0]) {
        assert Tidied(lines[1..], prevList, true);
        TidyFixedPoint(lines[1..], prevList, pending + [lines[0]]);
        assert Tidy(lines, prevList, pending) == Tidy(lines[1..], prevList, pending + [lines[0]]);
      } else {
        var list := IsListLine(Text.Trim(lines[0]));
        assert !(prevList && list && pending != []) && Tidied(lines[1..], list, false);
        TidyFixedPoint(lines[1..], list, []);
        var kept := if prevList && list then [] else pending;
        assert kept == pending;
        assert Tidy(lines, prevList, pending) == kept + [lines[0]] + Tidy(lines[1..], list, []);
        assert [] + lines[1..] == lines[1..];
      }
    }
  }

  lemma ConsSplit(front: seq<string>, xs: seq<string>)
    requires xs != []
    ensures front + [xs[0]] + xs[1..] == front + xs
  {
    assert xs == [xs[0]] + xs[1..];
  }

  lemma {:induction false} TidiedAfterBlanks(blanks: seq<string>, rest: seq<string>, prevList: bool, gap: bool)
    requires AllBlank(blanks)
    ensures Tidied(blanks + rest, prevList, gap) == Tidied(rest, prevList, gap || blanks != [])
    decreases |blanks|
  {
    if blanks != [] {
      assert (blanks + rest)[0] == blanks[0];
      assert (blanks + rest)[1..] == blanks[1..] + rest;
      TidiedAfterBlanks(blanks[1..], rest, prevList, true);
    } else {
      assert blanks + rest == rest;
    }
  }

  /** What Tidy produces has nothing left to delete. */
  lemma {:induction false} TidyOutputTidied(lines: seq<string>, prevList: bool, pending: seq<string>)
    requires AllBlank(pending)
    ensures Tidied(Tidy(lines, prevList, pending), prevList, false)
    decreases |lines|
  {
    if lines == [] {
      TidiedAfterBlanks(pending, [], prevList, false);
      assert pending + [] == pending;
    } else if IsBlank(lines[0]) {
      TidyOutputTidied(lines[1..], prevList, pending + [lines[0]]);
    } else {
      var list := IsListLine(Text.Trim(lines[0]));
      var kept := if prevList && list then [] else pending;
      var tail := Tidy(lines[1..], list, []);
      TidyOutputTidied(lines[1..], list, []);
      var after := [lines[0]] + tail;
      assert after[0] == lines[0] && after[1..] == tail;
      assert Tidied(after, prevList, kept != []);
      TidiedAfterBlanks(kept, after, prevList, false);
      assert kept + [lines[0]] + tail == kept + after;
    }
  }

  /** Tidying twice is tidying once. */
  lemma TidyIdempotent(lines: seq<string>)
    ensures Tidy(Tidy(lines, false, []), false, []) == Tidy(lines, false, [])
  {
    TidyOutputTidied(lines, false, []);
    TidyFixedPoint(Tidy(lines, false, []), false, []);
  }

  /** Cleaning up twice is cleaning up once. */
  lemma CleanupIdempotent(s: string)
    ensures Cleanup(Cleanup(s)) == Cleanup(s)
  {
    TidyIdempotent(Text.Split(s, '\n'));
  }

  // ---------------------------------------------------------------------------
  // The lines that remain after deleting the lines at some indices

  /** `xs`, whose first element has index `base`, without the elements whose
      index is in `drop`. */
  function Without(xs: seq<string>, drop: set<int>, base: int): (r: seq<string>)
    ensures |r| <= |xs|
    decreases |xs|
  {
    if xs == [] then [] else (if base in drop then [] else [xs[0]]) + Without(xs[1..], drop, base + 1)
  }

  /** The indices listed in `s`. */
  function Elems(s: seq<int>): set<int> {
    if s == [] then {} else {s[0]} + Elems(s[1..])
  }

  lemma {:induction false} ElemsIn(s: seq<int>)
    ensures forall j :: j in Elems(s) <==> j in s
  {
    if s != [] {
      ElemsIn(s[1..]);
      assert s == [s[0]] + s[1..];
    }
  }

  lemma {:induction false} WithoutConcat(xs: seq<string>, ys: seq<string>, drop: set<int>, base: int)
    ensures Without(xs + ys, drop, base) == Without(xs, drop, base) + Without(ys, drop, base + |xs|)
    decreases |xs|
  {
    if xs == [] {
      assert xs + ys == ys;
    } else {
      var head := if base in drop then [] else [xs[0]];
      var rest := Without(xs[1..], drop, base + 1);
      var restYs := Without(ys, drop, base + |xs|);
      assert (xs + ys)[0] == xs[0] && (xs + ys)[1..] == xs[1..] + ys;
      WithoutConcat(xs[1..], ys, drop, base + 1);
      assert Without(xs + ys, drop, base) == head + (rest + restYs);
      assert Without(xs, drop, base) == head + rest;
      Text.ConcatAssoc(head, rest, restYs);
    }
  }

  /** Only the indices inside the range matter. */
  lemma {:induction false} WithoutSame(xs: seq<string>, d1: set<int>, d2: set<int>, base: int)
    requires forall j :: base <= j < base + |xs| ==> (j in d1 <==> j in d2)
    ensures Without(xs, d1, base) == Without(xs, d2, base)
    decreases |xs|
  {
    if xs != [] {
      WithoutSame(xs[1..], d1, d2, base + 1);
    }
  }

  lemma {:induction false} WithoutKeepAll(xs: seq<string>, drop: set<int>, base: int)
    requires forall j :: j in drop ==> j < base || base + |xs| <= j
    ensures Without(xs, drop, base) == xs
    decreases |xs|
  {
    if xs != [] {
      WithoutKeepAll(xs[1..], drop, base + 1);
      assert [xs[0]] + xs[1..] == xs;
    }
  }

  lemma {:induction false} WithoutDropAll(xs: seq<string>, drop: set<int>, base: int)
    requires forall j :: base <= j < base + |xs| ==> j in drop
    ensures Without(xs, drop, base) == []
    decreases |xs|
  {
    if xs != [] {
      WithoutDropAll(xs[1..], drop, base + 1);
    }
  }

  /** Deleting index `p` from what is left after deleting the larger
      indices `rest` is deleting `p` and `rest` together. */
  lemma RemoveOne(xs: seq<string>, p: int, rest: set<int>)
    requires 0 <= p < |xs|
    requires forall j :: j in rest ==> j > p
    ensures p < |Without(xs, rest, 0)|
    ensures Without(xs, {p} + rest, 0) == Without(xs, rest, 0)[..p] + Without(xs, rest, 0)[p + 1..]
  {
    var front, back := xs[..p], xs[p + 1..];
    var tail := Without(back, rest, p + 1);
    var kept := Without(xs, rest, 0);
    KeepAtIndex(xs, p, rest);
    DropAtIndex(xs, p, rest);
    assert kept[..p] == front && kept[p + 1..] == tail;
  }

  /** Indices from `p` on leave the lines before `p` alone. */
  lemma {:induction false} WithoutBelow(xs: seq<string>, d: set<int>, base: int, p: int)
    requires base <= p <= base + |xs|
    requires forall j :: j in d ==> j >= p
    ensures Without(xs, d, base) == xs[..p - base] + Without(xs[p - base..], d, p)
    decreases |xs|
  {
    if p > base {
      var k := p - base;
      var rest := Without(xs[k..], d, p);
      WithoutBelow(xs[1..], d, base + 1, p);
      assert xs[1..][k - 1..] == xs[k..];
      assert Without(xs, d, base) == [xs[0]] + (xs[1..][..k - 1] + rest);
      assert xs[..k] == [xs[0]] + xs[1..][..k - 1];
      Text.ConcatAssoc([xs[0]], xs[1..][..k - 1], rest);
    } else {
      assert xs[..0] == [] && xs[0..] == xs;
      assert [] + Without(xs, d, base) == Without(xs, d, base);
    }
  }

  /** Indices above `p` leave the lines up to `p` alone. */
  lemma KeepAtIndex(xs: seq<string>, p: int, rest: set<int>)
    requires 0 <= p < |xs|
    requires forall j :: j in rest ==> j > p
    ensures Without(xs, rest, 0) == xs[..p] + [xs[p]] + Without(xs[p + 1..], rest, p + 1)
  {
    WithoutBelow(xs, rest, 0, p);
    var tail := Without(xs[p + 1..], rest, p + 1);
    assert xs[p..][1..] == xs[p + 1..];
    assert Without(xs[p..], rest, p) == [xs[p]] + tail;
    Text.ConcatAssoc(xs[..p], [xs[p]], tail);
  }

  /** Adding `p` to indices above it deletes line `p` as well. */
  lemma DropAtIndex(xs: seq<string>, p: int, rest: set<int>)
    requires 0 <= p < |xs|
    requires forall j :: j in rest ==> j > p
    ensures Without(xs, {p} + rest, 0) == xs[..p] + Without(xs[p + 1..], rest, p + 1)
  {
    var d := {p} + rest;
    AddedBelow(xs, p, rest);
    WithoutSkipsDropped(xs[p..], d, p);
    assert xs[p..][1..] == xs[p + 1..];
    AddedNotAbove(xs[p + 1..], p, rest);
  }

  lemma AddedBelow(xs: seq<string>, p: int, rest: set<int>)
    requires 0 <= p < |xs|
    requires forall j :: j in rest ==> j > p
    ensures Without(xs, {p} + rest, 0) == xs[..p] + Without(xs[p..], {p} + rest, p)
  {
    var d := {p} + rest;
    forall j | j in d ensures j >= p {
      if j != p { assert j in rest; }
    }
    WithoutBelow(xs, d, 0, p);
  }

  lemma WithoutSkipsDropped(xs: seq<string>, d: set<int>, base: int)
    requires xs != [] && base in d
    ensures Without(xs, d, base) == Without(xs[1..], d, base + 1)
  {
    assert [] + Without(xs[1..], d, base + 1) == Without(xs[1..], d, base + 1);
  }

  lemma AddedNotAbove(xs: seq<string>, p: int, rest: set<int>)
    ensures Without(xs, {p} + rest, p + 1) == Without(xs, rest, p + 1)
  {
    WithoutSame(xs, {p} + rest, rest, p + 1);
  }

  /** The indices `a`, `a + 1`, ..., `b - 1`. */
  function Range(a: int, b: int): (r: seq<int>)
    requires a <= b
    ensures |r| == b - a
    ensures forall k :: 0 <= k < |r| ==> r[k] == a + k
  {
    seq(b - a, k requires 0 <= k < b - a => a + k)
  }

  // ---------------------------------------------------------------------------
  // The Swift algorithm

  /** What the first pass of `CleanupRender` knows after `index` lines,
      with the last `since` of them blank: the deletions recorded so far are
      increasing and precede the blank run, and deleting them from the lines
      before the run, then tidying the rest with the run pending, gives the
      reference result. */
  predicate Scanned(lines: seq<string>, index: int, since: int, drop: seq<int>, prevList: bool)
  {
    && 0 <= since <= index <= |lines|
    && (forall k :: 0 <= k < |drop| ==> 0 <= drop[k] < index - since)
    && (forall k :: 0 <= k < |drop| - 1 ==> drop[k] < drop[k + 1])
    && Tidy(lines, false, []) ==
       Without(lines[..index - since], Elems(drop), 0) + Tidy(lines[index..], prevList, lines[index - since..index])
  }

  /** `cleanupRender(renderedString:)`: a first pass records the indices of
      the lines to delete, a second pass deletes them from the last to the
      first, and the lines are joined again. */
  method CleanupRender(renderedString: string) returns (r: string)
    ensures r == Cleanup(renderedString)
  {
    var lines := Text.Split(renderedString, '\n');
    var linesToRemove := LinesToRemove(lines);
    lines := RemoveLines(lines, linesToRemove);
    r := Text.Join(lines, '\n');
  }

  /** The first pass: the indices of the blank lines that separate two list
      items, in increasing order, such that deleting them tidies `lines`. */
  method LinesToRemove(lines: seq<string>) returns (linesToRemove: seq<int>)
    ensures forall k :: 0 <= k < |linesToRemove| ==> 0 <= linesToRemove[k] < |lines|
    ensures forall k :: 0 <= k < |linesToRemove| - 1 ==> linesToRemove[k] < linesToRemove[k + 1]
    ensures Tidy(lines, false, []) == Without(lines, Elems(linesToRemove), 0)
  {
    var previousContent: string := "";
    var linesSinceContent: nat := 0;
    linesToRemove := [];

    var index := 0;
    while index < |lines|
      invariant index <= |lines|
      invariant Scanned(lines, index, linesSinceContent, linesToRemove, IsListLine(previousContent))
    {
      previousContent, linesSinceContent, linesToRemove :=
        ScanLine(lines, index, previousContent, linesSinceContent, linesToRemove);
      index := index + 1;
    }
    ScanDone(lines, linesSinceContent, linesToRemove, IsListLine(previousContent));
  }

  /** One turn of the first pass: a content line records the blank run
      before it when it and the previous content line are list items, and
      resets the run; a blank line extends the run. */
  method ScanLine(lines: seq<string>, index: nat, previousContent: string, linesSinceContent: nat,
                  linesToRemove: seq<int>)
    returns (previousContent': string, linesSinceContent': nat, linesToRemove': seq<int>)
    requires index < |lines|
    requires Scanned(lines, index, linesSinceContent, linesToRemove, IsListLine(previousContent))
    ensures Scanned(lines, index + 1, linesSinceContent', linesToRemove', IsListLine(previousContent'))
  {
    var line := lines[index];
    var content := Text.Trim(line);
    Text.TrimEmptyIffAllSpace(line);
    linesToRemove' := linesToRemove;
    if content != [] {
      if IsListLine(content) && IsListLine(previousContent) {
        linesToRemove' := MarkRun(linesToRemove, index, linesSinceContent);
      }
      ContentStep(lines, index, linesSinceContent, linesToRemove, linesToRemove', IsListLine(previousContent));
      previousContent' := content;
      linesSinceContent' := 0;
    } else {
      BlankStep(lines, index, linesSinceContent, linesToRemove, IsListLine(previousContent));
      previousContent' := previousContent;
      linesSinceContent' := linesSinceContent + 1;
    }
  }

  /** Records the `linesSinceContent` lines before `index`, oldest first. */
  method MarkRun(linesToRemove: seq<int>, index: int, linesSinceContent: nat) returns (marked: seq<int>)
    requires linesSinceContent <= index
    ensures marked == linesToRemove + Range(index - linesSinceContent, index)
  {
    marked := linesToRemove;
    var count := linesSinceContent;
    while count >= 1
      invariant 0 <= count <= linesSinceContent
      invariant marked == linesToRemove + Range(index - linesSinceContent, index - count)
    {
      marked := marked + [index - count];
      count := count - 1;
    }
  }

  /** The second pass: `remove(at:)` for each recorded index, last first. */
  method RemoveLines(original: seq<string>, linesToRemove: seq<int>) returns (lines: seq<string>)
    requires forall k :: 0 <= k < |linesToRemove| ==> 0 <= linesToRemove[k] < |original|
    requires forall k :: 0 <= k < |linesToRemove| - 1 ==> linesToRemove[k] < linesToRemove[k + 1]
    ensures lines == Without(original, Elems(linesToRemove), 0)
  {
    lines := original;
    var k := |linesToRemove|;
    assert linesToRemove[k..] == [];
    WithoutKeepAll(original, {}, 0);
    while k > 0
      invariant 0 <= k <= |linesToRemove|
      invariant lines == Without(original, Elems(linesToRemove[k..]), 0)
    {
      k := k - 1;
      RemoveStep(original, linesToRemove, k);
      lines := lines[..linesToRemove[k]] + lines[linesToRemove[k] + 1..];
    }
    assert linesToRemove[0..] == linesToRemove;
  }

  /** Loop step of the second pass: the indices are increasing, so deleting
      the `k`-th one leaves the positions of the later ones' lines alone. */
  lemma RemoveStep(original: seq<string>, drop: seq<int>, k: nat)
    requires k < |drop|
    requires forall i :: 0 <= i < |drop| ==> 0 <= drop[i] < |original|
    requires forall i :: 0 <= i < |drop| - 1 ==> drop[i] < drop[i + 1]
    ensures drop[k] < |Without(original, Elems(drop[k + 1..]), 0)|
    ensures Without(original, Elems(drop[k..]), 0)
         == Without(original, Elems(drop[k + 1..]), 0)[..drop[k]] + Without(original, Elems(drop[k + 1..]), 0)[drop[k] + 1..]
  {
    assert drop[k..][0] == drop[k] && drop[k..][1..] == drop[k + 1..];
    var later := Elems(drop[k + 1..]);
    ElemsIn(drop[k + 1..]);
    forall j | j in later ensures j > drop[k] {
      var i :| 0 <= i < |drop[k + 1..]| && drop[k + 1..][i] == j;
      Increasing(drop, k, k + 1 + i);
    }
    RemoveOne(original, drop[k], later);
  }

  lemma {:induction false} Increasing(drop: seq<int>, i: nat, j: nat)
    requires forall k :: 0 <= k < |drop| - 1 ==> drop[k] < drop[k + 1]
    requires i < j < |drop|
    ensures drop[i] < drop[j]
    decreases j - i
  {
    if i + 1 < j {
      Increasing(drop, i + 1, j);
    }
  }

  lemma TidyBlank(lines: seq<string>, prevList: bool, pending: seq<string>)
    requires lines != [] && IsBlank(lines[0])
    ensures Tidy(lines, prevList, pending) == Tidy(lines[1..], prevList, pending + [lines[0]])
  {}

  lemma TidyContent(lines: seq<string>, prevList: bool, pending: seq<string>)
    requires lines != [] && !IsBlank(lines[0])
    ensures var list := IsListLine(Text.Trim(lines[0]));
      Tidy(lines, prevList, pending) == (if prevList && list then [] else pending) + [lines[0]] + Tidy(lines[1..], list, [])
  {}

  /** A blank line joins the pending run. */
  lemma BlankStep(lines: seq<string>, index: int, since: int, drop: seq<int>, prevList: bool)
    requires Scanned(lines, index, since, drop, prevList)
    requires index < |lines| && IsBlank(lines[index])
    ensures Scanned(lines, index + 1, since + 1, drop, prevList)
  {
    BlankShift(lines, index, index - since, prevList);
  }

  lemma BlankShift(lines: seq<string>, index: int, m: int, prevList: bool)
    requires 0 <= m <= index < |lines| && IsBlank(lines[index])
    ensures Tidy(lines[index..], prevList, lines[m..index]) == Tidy(lines[index + 1..], prevList, lines[m..index + 1])
  {
    var rest := lines[index..];
    assert rest[0] == lines[index];
    assert rest[1..] == lines[index + 1..];
    TidyBlank(rest, prevList, lines[m..index]);
    assert lines[m..index] + [lines[index]] == lines[m..index + 1];
  }

  /** A content line settles the pending run: deleted when `after` adds the
      run's indices, which the Swift code does for a list line after a list
      line, and kept otherwise. */
  lemma ContentStep(lines: seq<string>, index: int, since: int, before: seq<int>, after: seq<int>, prevList: bool)
    requires Scanned(lines, index, since, before, prevList)
    requires index < |lines| && !IsBlank(lines[index])
    requires var list := IsListLine(Text.Trim(lines[index]));
      after == if prevList && list then before + Range(index - since, index) else before
    ensures Scanned(lines, index + 1, 0, after, IsListLine(Text.Trim(lines[index])))
  {
    var m := index - since;
    var list := IsListLine(Text.Trim(lines[index]));
    var pending := lines[m..index];
    var tail := Tidy(lines[index + 1..], list, []);
    var front := Without(lines[..m], Elems(before), 0);
    var line := [lines[index]];
    assert Tidy(lines[index..], prevList, pending) == (if prevList && list then [] else pending) + line + tail by {
      var rest := lines[index..];
      assert rest[0] == lines[index] && rest[1..] == lines[index + 1..];
      TidyContent(rest, prevList, pending);
    }
    assert lines[index + 1..index + 1] == [];
    if prevList && list {
      ListStep(lines, index, m, before, after);
      assert [] + line == line;
      Text.ConcatAssoc(front, line, tail);
    } else {
      KeepStep(lines, index, m, before);
      Text.ConcatAssoc(front, pending + line, tail);
      Text.ConcatAssoc(front, pending, line);
    }
  }

  /** At the end of the first pass the pending run is kept. */
  lemma ScanDone(lines: seq<string>, since: int, drop: seq<int>, prevList: bool)
    requires Scanned(lines, |lines|, since, drop, prevList)
    ensures Tidy(lines, false, []) == Without(lines, Elems(drop), 0)
    ensures forall k :: 0 <= k < |drop| ==> 0 <= drop[k] < |lines|
  {
    var m := |lines| - since;
    var front := Without(lines[..m], Elems(drop), 0);
    assert Tidy(lines, false, []) == front + lines[m..] by {
      PendingKept(lines, m, prevList);
    }
    assert Without(lines, Elems(drop), 0) == front + lines[m..] by {
      assert forall k :: 0 <= k < |drop| ==> 0 <= drop[k] < m;
      KeepTail(lines, m, drop);
    }
  }

  lemma PendingKept(lines: seq<string>, m: int, prevList: bool)
    requires 0 <= m <= |lines|
    ensures Tidy(lines[|lines|..], prevList, lines[m..|lines|]) == lines[m..]
  {
    assert lines[|lines|..] == [];
    assert lines[m..|lines|] == lines[m..];
  }

  lemma KeepTail(lines: seq<string>, m: int, drop: seq<int>)
    requires 0 <= m <= |lines|
    requires forall k :: 0 <= k < |drop| ==> 0 <= drop[k] < m
    ensures Without(lines, Elems(drop), 0) == Without(lines[..m], Elems(drop), 0) + lines[m..]
  {
    ElemsIn(drop);
    KeepAfter(lines, m, Elems(drop));
  }

  /** Indices below `m` leave the lines from `m` on alone. */
  lemma KeepAfter(lines: seq<string>, m: int, d: set<int>)
    requires 0 <= m <= |lines|
    requires forall j :: j in d ==> j < m
    ensures Without(lines, d, 0) == Without(lines[..m], d, 0) + lines[m..]
  {
    var front, back := lines[..m], lines[m..];
    assert Without(lines, d, 0) == Without(front, d, 0) + Without(back, d, m) by {
      assert front + back == lines;
      WithoutConcat(front, back, d, 0);
    }
    assert Without(back, d, m) == back by {
      WithoutKeepAll(back, d, m);
    }
  }

  /** Loop step for a list line after a list line: the blank lines since the
      previous content line are deleted. */
  lemma ListStep(lines: seq<string>, index: nat, m: nat, before: seq<int>, after: seq<int>)
    requires m <= index < |lines|
    requires forall k :: 0 <= k < |before| ==> 0 <= before[k] < m
    requires forall k :: 0 <= k < |before| - 1 ==> before[k] < before[k + 1]
    requires after == before + Range(m, index)
    ensures Without(lines[..index + 1], Elems(after), 0) == Without(lines[..m], Elems(before), 0) + [lines[index]]
    ensures forall k :: 0 <= k < |after| ==> 0 <= after[k] < index + 1
    ensures forall k :: 0 <= k < |after| - 1 ==> after[k] < after[k + 1]
  {
    AppendRunOrdered(before, m, index, after);
    AppendRunMembers(before, m, index, after);
    ElemsIn(after);
    ElemsIn(before);
    DropRun(lines, index, m, Elems(after), Elems(before));
  }

  /** Appending the run `m .. index - 1` to increasing indices below `m`
      keeps them increasing and below `index + 1`. */
  lemma AppendRunOrdered(before: seq<int>, m: nat, index: nat, after: seq<int>)
    requires m <= index
    requires forall k :: 0 <= k < |before| ==> 0 <= before[k] < m
    requires forall k :: 0 <= k < |before| - 1 ==> before[k] < before[k + 1]
    requires after == before + Range(m, index)
    ensures forall k :: 0 <= k < |after| ==> 0 <= after[k] < index + 1
    ensures forall k :: 0 <= k < |after| - 1 ==> after[k] < after[k + 1]
  {
    forall k | 0 <= k < |after| ensures 0 <= after[k] < index + 1 {
      if k >= |before| { assert after[k] == Range(m, index)[k - |before|]; }
    }
    forall k | 0 <= k < |after| - 1 ensures after[k] < after[k + 1] {
      if k + 1 < |before| {
        assert after[k] == before[k] && after[k + 1] == before[k + 1];
      } else if k + 1 == |before| {
        assert after[k + 1] == Range(m, index)[0];
      } else {
        assert after[k] == Range(m, index)[k - |before|];
        assert after[k + 1] == Range(m, index)[k + 1 - |before|];
      }
    }
  }

  /** The indices of `before + Range(m, index)`: the whole run, the same
      ones as `before` below `m`, and none from `index` on. */
  lemma AppendRunMembers(before: seq<int>, m: nat, index: nat, after: seq<int>)
    requires m <= index
    requires forall k :: 0 <= k < |before| ==> 0 <= before[k] < m
    requires after == before + Range(m, index)
    ensures forall j :: m <= j < index ==> j in after
    ensures forall j :: 0 <= j < m ==> (j in after <==> j in before)
    ensures forall j :: j in after ==> j < index
  {
    forall j | m <= j < index ensures j in after {
      assert after[|before| + (j - m)] == j;
    }
    forall j | 0 <= j < m ensures j in after <==> j in before {
      if j in after {
        var i :| 0 <= i < |after| && after[i] == j;
        assert i < |before|;
      }
      if j in before {
        var i :| 0 <= i < |before| && before[i] == j;
        assert after[i] == j;
      }
    }
    forall j | j in after ensures j < index {
      var i :| 0 <= i < |after| && after[i] == j;
      if i >= |before| { assert after[i] == Range(m, index)[i - |before|]; }
    }
  }

  /** Deleting the whole run `m .. index - 1` leaves the lines before it,
      minus their own deletions, and the content line. */
  lemma DropRun(lines: seq<string>, index: nat, m: nat, d: set<int>, d0: set<int>)
    requires m <= index < |lines|
    requires forall j :: m <= j < index ==> j in d
    requires forall j :: 0 <= j < m ==> (j in d <==> j in d0)
    requires forall j :: j in d ==> j < index
    ensures Without(lines[..index + 1], d, 0) == Without(lines[..m], d0, 0) + [lines[index]]
  {
    var run := lines[m..index];
    assert lines[..index + 1] == lines[..m] + (run + [lines[index]]);
    WithoutConcat(lines[..m], run + [lines[index]], d, 0);
    WithoutConcat(run, [lines[index]], d, m);
    WithoutSame(lines[..m], d, d0, 0);
    WithoutDropAll(run, d, m);
    WithoutKeepAll([lines[index]], d, index);
  }

  /** Loop step for any other content line: the blank lines since the
      previous content line stay. */
  lemma KeepStep(lines: seq<string>, index: nat, m: nat, drop: seq<int>)
    requires m <= index < |lines|
    requires forall k :: 0 <= k < |drop| ==> 0 <= drop[k] < m
    ensures Without(lines[..index + 1], Elems(drop), 0) == Without(lines[..m], Elems(drop), 0) + lines[m..index] + [lines[index]]
  {
    ElemsIn(drop);
    KeepRun(lines, index, m, Elems(drop));
  }

  lemma KeepRun(lines: seq<string>, index: nat, m: nat, d: set<int>)
    requires m <= index < |lines|
    requires forall j :: j in d ==> j < m
    ensures Without(lines[..index + 1], d, 0) == Without(lines[..m], d, 0) + lines[m..index] + [lines[index]]
  {
    var run := lines[m..index + 1];
    assert run == lines[m..index] + [lines[index]];
    assert lines[..index + 1] == lines[..m] + run;
    WithoutConcat(lines[..m], run, d, 0);
    WithoutKeepAll(run, d, m);
    var front := Without(lines[..m], d, 0);
    assert front + run == front + lines[m..index] + [lines[index]];
  }

  /** A content line followed by a blank line comes through the clean-up
      unchanged. */
  lemma CleanupTwoLines(line: string, blank: string)
    requires '\n' !in line && '\n' !in blank
    requires !IsBlank(line) && IsBlank(blank)
    ensures Cleanup(line + ['\n'] + blank) == line + ['\n'] + blank
  {
    Text.SplitAtSeparator(line, '\n', blank);
    Text.SplitNoSeparator(blank, '\n');
    var lines := [line, blank];
    assert Text.Split(line + ['\n'] + blank, '\n') == lines;
    assert lines[1..] == [blank];
    assert [blank][1..] == [];
    assert Tidy([blank], IsListLine(Text.Trim(line)), []) == [blank];
    assert Tidy(lines, false, []) == [line] + [blank];
    assert Text.Join(lines, '\n') == line + ['\n'] + Text.Join([blank], '\n');
  }

  /** Content lines followed by nothing but blank lines are already tidy:
      no blank line sits between two content lines. */
  lemma {:induction false} LinesThenBlanksTidied(lines: seq<string>, blanks: seq<string>, prevList: bool)
    requires forall k :: 0 <= k < |lines| ==> !IsBlank(lines[k])
    requires AllBlank(blanks)
    ensures Tidied(lines + blanks, prevList, false)
    decreases |lines|
  {
    if lines == [] {
      assert lines + blanks == blanks + [];
      TidiedAfterBlanks(blanks, [], prevList, false);
    } else {
      assert (lines + blanks)[1..] == lines[1..] + blanks;
      LinesThenBlanksTidied(lines[1..], blanks, IsListLine(Text.Trim(lines[0])));
    }
  }

  /** A text whose lines are content lines and then only blank lines comes
      through the clean-up unchanged. */
  lemma CleanupKeepsUnbroken(s: string, lines: seq<string>, blanks: seq<string>)
    requires Text.Split(s, '\n') == lines + blanks
    requires forall k :: 0 <= k < |lines| ==> !IsBlank(lines[k])
    requires AllBlank(blanks)
    ensures Cleanup(s) == s
  {
    LinesThenBlanksTidied(lines, blanks, false);
    TidyFixedPoint(lines + blanks, false, []);
    assert [] + (lines + blanks) == lines + blanks;
    Text.JoinSplit(s, '\n');
  }

  // ---------------------------------------------------------------------------
  // The opening of a page

  /** Before any list line, blank lines are never deleted: the waiting ones
      are written first, and a line follows them when any input is left. */
  lemma {:induction false} PendingWrittenFirst(lines: seq<string>, pending: seq<string>)
    ensures |Tidy(lines, false, pending)| >= |pending| + (if lines == [] then 0 else 1)
    ensures Tidy(lines, false, pending)[..|pending|] == pending
    decreases |lines|
  {
    if lines != [] && IsBlank(lines[0]) {
      var more := pending + [lines[0]];
      PendingWrittenFirst(lines[1..], more);
      var t := Tidy(lines[1..], false, more);
      assert t[..|pending|] == t[..|more|][..|pending|];
      assert more[..|pending|] == pending;
    }
  }

  /** A heading line that is not a list item, followed by a blank line,
      comes through the clean-up unchanged at the start of the text, after
      at most one empty line. */
  lemma CleanupKeepsOpening(before: string, line: string, gap: string, rest: string)
    requires before == [] || before == "\n"
    requires '\n' !in line && !IsBlank(line) && !IsListLine(Text.Trim(line))
    requires '\n' !in gap && IsBlank(gap)
    ensures Text.StartsWith(Cleanup(before + line + "\n" + gap + "\n" + rest), before + line + "\n" + gap + "\n")
  {
    var tail := Text.Split(rest, '\n');
    var lead: seq<string> := if before == [] then [] else [[]];
    SplitOpening(before, line, gap, rest);
    TidyOpening(lead, line, gap, tail);
    PendingWrittenFirst(tail, [gap]);
    var t := Tidy(tail, false, [gap]);
    assert t == [gap] + t[1..] && t[1..] != [];
    OpeningJoined(lead, line, gap, t[1..]);
    var opening := before + line + "\n" + gap + "\n";
    assert Text.Join(lead + [line] + t, '\n') == opening + Text.Join(t[1..], '\n');
  }

  lemma SplitOpening(before: string, line: string, gap: string, rest: string)
    requires before == [] || before == "\n"
    requires '\n' !in line && '\n' !in gap
    ensures Text.Split(before + line + "\n" + gap + "\n" + rest, '\n') ==
      (if before == [] then [] else [[]]) + [line, gap] + Text.Split(rest, '\n')
  {
    var tail := Text.Split(rest, '\n');
    Text.SplitAtSeparator(gap, '\n', rest);
    Text.SplitAtSeparator(line, '\n', gap + "\n" + rest);
    var l, g := line + "\n", gap + "\n";
    var body := l + (g + rest);
    var b := before + line + "\n";
    Text.ConcatAssoc(before, line, "\n");
    Text.ConcatAssoc(b, gap, "\n");
    Text.ConcatAssoc(b, g, rest);
    Text.ConcatAssoc(before, l, g + rest);
    assert before + line + "\n" + gap + "\n" + rest == before + body;
    assert Text.Split(body, '\n') == [line, gap] + tail;
    if before != [] {
      Text.SplitAtSeparator([], '\n', body);
      assert before + body == [] + ['\n'] + body;
    } else {
      assert before + body == body;
    }
  }

  lemma TidyOpening(lead: seq<string>, line: string, gap: string, tail: seq<string>)
    requires lead == [] || lead == [[]]
    requires !IsBlank(line) && !IsListLine(Text.Trim(line)) && IsBlank(gap)
    ensures Tidy(lead + [line, gap] + tail, false, []) == lead + [line] + Tidy(tail, false, [gap])
  {
    var t := Tidy(tail, false, [gap]);
    assert Tidy([gap] + tail, false, []) == t by {
      assert ([gap] + tail)[1..] == tail;
      assert [] + [gap] == [gap];
    }
    assert Tidy([line, gap] + tail, false, lead) == lead + [line] + t by {
      assert ([line, gap] + tail)[1..] == [gap] + tail;
    }
    if lead != [] {
      var lines := lead + [line, gap] + tail;
      assert lines[0] == [] && IsBlank(lines[0]);
      assert lines[1..] == [line, gap] + tail;
      assert [] + [lines[0]] == lead;
    } else {
      assert lead + [line, gap] + tail == [line, gap] + tail;
    }
  }

  lemma OpeningJoined(lead: seq<string>, line: string, gap: string, more: seq<string>)
    requires lead == [] || lead == [[]]
    requires more != []
    ensures Text.Join(lead + [line] + ([gap] + more), '\n') ==
      (if lead == [] then [] else "\n") + line + "\n" + gap + "\n" + Text.Join(more, '\n')
  {
    var inner := [gap] + more;
    assert Text.Join(inner, '\n') == gap + "\n" + Text.Join(more, '\n') by {
      assert inner[1..] == more;
    }
    var withLine := [line] + inner;
    assert Text.Join(withLine, '\n') == line + "\n" + Text.Join(inner, '\n') by {
      assert withLine[1..] == inner;
    }
    if lead != [] {
      var all := lead + withLine;
      assert all[1..] == withLine;
      assert Text.Join(all, '\n') == [] + "\n" + Text.Join(withLine, '\n');
      assert lead + [line] + inner == all;
    } else {
      assert lead + [line] + inner == withLine;
    }
  }

  // ---------------------------------------------------------------------------
  // A leading run of lines

  /** No line of `s` before its last is a list item: no blank line in `s`
      can lie between two list items. */
  predicate NoListBeforeLastLine(s: string) {
    NoListBeforeLast(Text.Split(s, '\n'))
  }

  predicate NoListBeforeLast(lines: seq<string>) {
    forall k :: 0 <= k < |lines| - 1 ==> !IsListLine(Text.Trim(lines[k]))
  }

  /** Lines left over, or lines waiting, always give some output. */
  lemma {:induction false} TidyNonEmpty(lines: seq<string>, prevList: bool, pending: seq<string>)
    requires lines != [] || pending != []
    ensures Tidy(lines, prevList, pending) != []
    decreases |lines|
  {
    if lines != [] && IsBlank(lines[0]) {
      TidyNonEmpty(lines[1..], prevList, pending + [lines[0]]);
    }
  }

  /** A leading run of lines none of which but the last is a list item is
      written unchanged, after the waiting lines; more output follows when
      more input does. */
  lemma {:induction false} TidyKeepsLead(lead: seq<string>, tail: seq<string>, pending: seq<string>)
    requires NoListBeforeLast(lead)
    ensures |Tidy(lead + tail, false, pending)| >= |pending| + |lead| + (if tail == [] then 0 else 1)
    ensures Tidy(lead + tail, false, pending)[..|pending| + |lead|] == pending + lead
    decreases |lead|
  {
    if lead == [] {
      assert lead + tail == tail && pending + lead == pending;
      PendingWrittenFirst(tail, pending);
    } else {
      var x := lead[0];
      var rest := lead[1..];
      assert (lead + tail)[0] == x && (lead + tail)[1..] == rest + tail;
      assert lead == [x] + rest;
      assert NoListBeforeLast(rest) by {
        assert forall k :: 0 <= k < |rest| - 1 ==> rest[k] == lead[k + 1];
      }
      if IsBlank(x) {
        TidyKeepsLead(rest, tail, pending + [x]);
        assert pending + [x] + rest == pending + lead;
      } else if rest != [] {
        assert !IsListLine(Text.Trim(lead[0]));
        TidyKeepsLead(rest, tail, []);
        var t := Tidy(rest + tail, false, []);
        assert Tidy(lead + tail, false, pending) == pending + [x] + t;
        assert t[..|rest|] == [] + rest;
        assert (pending + [x] + t)[..|pending| + |lead|] == pending + [x] + t[..|rest|];
      } else {
        var t := Tidy(tail, IsListLine(Text.Trim(x)), []);
        assert rest + tail == tail;
        assert Tidy(lead + tail, false, pending) == pending + [x] + t;
        if tail != [] {
          TidyNonEmpty(tail, IsListLine(Text.Trim(x)), []);
        }
      }
    }
  }

  /** A text none of whose lines but the last is a list item comes through
      the clean-up unchanged at the start, with the newline after it,
      whatever follows. */
  lemma CleanupKeepsLead(p: string, rest: string)
    requires NoListBeforeLastLine(p)
    ensures Text.StartsWith(Cleanup(p + "\n" + rest), p + "\n")
  {
    var lead, tail := Text.Split(p, '\n'), Text.Split(rest, '\n');
    var t := Tidy(lead + tail, false, []);
    assert Text.Split(p + "\n" + rest, '\n') == lead + tail by {
      Text.SplitConcat(p, '\n', rest);
    }
    TidyKeepsLead(lead, tail, []);
    var more := t[|lead|..];
    assert t == lead + more && more != [] by {
      assert t[..|lead|] == [] + lead;
    }
    assert Text.Join(t, '\n') == p + "\n" + Text.Join(more, '\n') by {
      Text.JoinConcat(lead, more, '\n');
      Text.JoinSplit(p, '\n');
    }
  }

  // ---------------------------------------------------------------------------
  // Content lines of a text

  /** The lines of a text that hold something other than whitespace, in
      order. */
  function TextContent(s: string): seq<string> {
    Content(Text.Split(s, '\n'))
  }

  /** Texts joined at a line break keep each one's content lines, in order. */
  lemma TextContentConcat(a: string, b: string)
    ensures TextContent(a + "\n" + b) == TextContent(a) + TextContent(b)
  {
    Text.SplitConcat(a, '\n', b);
    ContentConcat(Text.Split(a, '\n'), Text.Split(b, '\n'));
  }

  /** A single line is the content of its text exactly when it is not blank. */
  lemma LineContent(line: string)
    requires '\n' !in line
    ensures TextContent(line) == (if IsBlank(line) then [] else [line])
  {
    Text.SplitNoSeparator(line, '\n');
    assert [line][1..] == [];
  }

  /** The clean-up deletes blank lines only, so the content of a text is
      the content of its cleaned-up form. */
  lemma CleanupKeepsTextContent(s: string)
    ensures TextContent(Cleanup(s)) == TextContent(s)
  {
    TidyKeepsContent(Text.Split(s, '\n'), false, []);
  }

  /** Lines that are each non-blank and break-free, joined at line breaks,
      are their text's content. */
  lemma {:induction false} JoinedContent(lines: seq<string>)
    requires forall k :: 0 <= k < |lines| ==> '\n' !in lines[k] && !IsBlank(lines[k])
    ensures TextContent(Text.Join(lines, '\n')) == lines
  {
    if lines == [] {
      LineContent([]);
    } else {
      Text.SplitJoin(lines, '\n');
      ContentOfLines(lines);
    }
  }

  lemma {:induction false} ContentOfLines(lines: seq<string>)
    requires forall k :: 0 <= k < |lines| ==> !IsBlank(lines[k])
    ensures Content(lines) == lines
  {
    if lines != [] {
      ContentOfLines(lines[1..]);
    }
  }
}
