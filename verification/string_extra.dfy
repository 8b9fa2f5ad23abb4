/**
  The `String` helpers of `String+Extra.swift`: repeating a string, turning a
  title into a slug for file names and anchors (`\W+` replaced by `-`), and
  collecting every literal occurrence of a substring.
 */
module StringExtra {
  import Text
  import opened Wrappers

  // ---------------------------------------------------------------------------
  // repeated(count:)

  /** `repeated(count:)`: `count` copies of `s` one after another; a count of
      zero or less gives the empty string. */
  function Repeated(s: string, count: int): (r: string)
    ensures count <= 0 ==> r == []
    ensures |r| == (if count <= 0 then 0 else count * |s|)
    decreases count
  {
    if count <= 0 then [] else Repeated(s, count - 1) + s
  }

  /** Repeating `a + b` times is repeating `a` times, then `b` times. */
  lemma {:induction false} RepeatedAdd(s: string, a: nat, b: nat)
    ensures Repeated(s, a + b) == Repeated(s, a) + Repeated(s, b)
    decreases b
  {
    if b > 0 {
      RepeatedAdd(s, a, b - 1);
      assert Repeated(s, a + b) == Repeated(s, a + b - 1) + s;
    }
  }

  /** A repetition also starts with one copy of `s`. */
  lemma RepeatedFront(s: string, count: int)
    requires count > 0
    ensures Repeated(s, count) == s + Repeated(s, count - 1)
  {
    var n: nat := count - 1;
    assert Repeated(s, 1) == s by {
      assert Repeated(s, 1) == [] + s;
    }
    RepeatedAdd(s, 1, n);
    assert 1 + n == count;
  }

  /** The `k`-th block of `|s|` characters of `Repeated(s, n)` is `s` itself. */
  lemma {:induction false} RepeatedBlocks(s: string, n: nat, k: nat)
    requires k < n
    ensures k * |s| + |s| <= |Repeated(s, n)|
    ensures Repeated(s, n)[k * |s|..k * |s| + |s|] == s
  {
    RepeatedAdd(s, k, 1);
    RepeatedAdd(s, k + 1, n - k - 1);
    var front := Repeated(s, k + 1);
    assert Repeated(s, 1) == s;
    assert |Repeated(s, k)| == k * |s|;
    assert Repeated(s, n) == Repeated(s, k) + s + Repeated(s, n - k - 1);
  }

  /** A repeated single character fills every position. */
  lemma {:induction false} RepeatedChar(c: char, n: int)
    ensures forall i :: 0 <= i < |Repeated([c], n)| ==> Repeated([c], n)[i] == c
    decreases n
  {
    if n > 0 {
      RepeatedChar(c, n - 1);
    }
  }

  // ---------------------------------------------------------------------------
  // replacingNonWordCharacters(lowercased:)

  /** Drops the run of non-word characters at the front of `s`. */
  function SkipNonWord(s: string): (r: string)
    ensures |r| <= |s| && r == s[|s| - |r|..]
    ensures forall i :: 0 <= i < |s| - |r| ==> !Text.IsWord(s[i])
    ensures r != [] ==> Text.IsWord(r[0])
  {
    if s != [] && !Text.IsWord(s[0]) then
      var r := SkipNonWord(s[1..]);
      assert r == s[|s| - |r|..];
      assert forall i :: 0 <= i < |s| - |r| ==> !Text.IsWord(s[i]) by {
        forall i | 0 <= i < |s| - |r| ensures !Text.IsWord(s[i]) {
          if i > 0 { assert s[i] == s[1..][i - 1]; }
        }
      }
      r
    else s
  }

  /** The regular-expression replacement of `\W+` by `-`: each maximal run of
      non-word characters becomes one hyphen, word characters stay. */
  function ReplaceNonWord(s: string): (r: string)
    ensures forall i :: 0 <= i < |r| ==> Text.IsWord(r[i]) || r[i] == '-'
    ensures forall i :: 0 <= i < |r| - 1 ==> !(r[i] == '-' && r[i + 1] == '-')
    ensures r != [] <==> s != []
    ensures r != [] ==> (r[0] == '-' <==> !Text.IsWord(s[0]))
    decreases |s|
  {
    if s == [] then []
    else if Text.IsWord(s[0]) then [s[0]] + ReplaceNonWord(s[1..])
    else "-" + ReplaceNonWord(SkipNonWord(s))
  }

  /** `replacingNonWordCharacters(lowercased:)`: lower-case first unless asked
      not to, then replace the runs of non-word characters. */
  function Slug(s: string, lowercased: bool): (r: string)
    ensures forall i :: 0 <= i < |r| ==> Text.IsWord(r[i]) || r[i] == '-'
    ensures forall i :: 0 <= i < |r| - 1 ==> !(r[i] == '-' && r[i + 1] == '-')
    ensures lowercased ==> forall i :: 0 <= i < |r| ==> !Text.IsUpper(r[i])
  {
    var t := if lowercased then Text.LowerStr(s) else s;
    LowerWordsStayLower(t, lowercased);
    ReplaceNonWord(t)
  }

  /** Helper for `Slug`: the replacement only removes characters or inserts
      hyphens, so a string with no upper-case letters yields none. */
  lemma {:induction false} LowerWordsStayLower(t: string, lowercased: bool)
    requires lowercased ==> t == Text.LowerStr(t[..])
    ensures lowercased ==> forall i :: 0 <= i < |ReplaceNonWord(t)| ==> !Text.IsUpper(ReplaceNonWord(t)[i])
  {
    if lowercased {
      forall i | 0 <= i < |t| ensures !Text.IsUpper(t[i]) {
        Text.LowerIdempotent(t[i]);
      }
      NoUpperPreserved(t);
    }
  }

  lemma {:induction false} NoUpperPreserved(t: string)
    requires forall i :: 0 <= i < |t| ==> !Text.IsUpper(t[i])
    ensures forall i :: 0 <= i < |ReplaceNonWord(t)| ==> !Text.IsUpper(ReplaceNonWord(t)[i])
    decreases |t|
  {
    if t != [] {
      if Text.IsWord(t[0]) {
        NoUpperPreserved(t[1..]);
      } else {
        NoUpperPreserved(SkipNonWord(t));
      }
    }
  }

  /** A run of word characters is kept as it is. */
  lemma {:induction false} ReplaceWordRun(w: string)
    requires forall i :: 0 <= i < |w| ==> Text.IsWord(w[i])
    ensures ReplaceNonWord(w) == w
    decreases |w|
  {
    if w != [] {
      ReplaceWordRun(w[1..]);
      assert [w[0]] + w[1..] == w;
    }
  }

  /** A non-empty run of non-word characters becomes a single hyphen. */
  lemma {:induction false} ReplaceNonWordRun(n: string)
    requires n != []
    requires forall i :: 0 <= i < |n| ==> !Text.IsWord(n[i])
    ensures ReplaceNonWord(n) == "-"
  {
    assert SkipNonWord(n) == [];
  }

  lemma {:induction false} SkipNonWordConcat(a: string, b: string)
    requires forall i :: 0 <= i < |a| ==> !Text.IsWord(a[i])
    requires b == [] || Text.IsWord(b[0])
    ensures SkipNonWord(a + b) == b
    decreases |a|
  {
    if a != [] {
      assert (a + b)[1..] == a[1..] + b;
      SkipNonWordConcat(a[1..], b);
    } else {
      assert a + b == b;
    }
  }

  lemma {:induction false} SkipNonWordConcatLeft(a: string, b: string)
    requires a != [] && !Text.IsWord(a[0])
    requires exists i :: 0 <= i < |a| && Text.IsWord(a[i])
    ensures SkipNonWord(a + b) == SkipNonWord(a) + b
    decreases |a|
  {
    assert (a + b)[0] == a[0] && (a + b)[1..] == a[1..] + b;
    assert SkipNonWord(a + b) == SkipNonWord(a[1..] + b);
    assert SkipNonWord(a) == SkipNonWord(a[1..]);
    if !Text.IsWord(a[1]) {
      var i :| 0 <= i < |a| && Text.IsWord(a[i]);
      assert a[1..][i - 1] == a[i];
      SkipNonWordConcatLeft(a[1..], b);
    } else {
      assert (a[1..] + b)[0] == a[1];
      assert SkipNonWord(a[1..]) == a[1..];
    }
  }

  /** Cutting between two runs, where they do not merge, lets the replacement
      work on the halves separately: `\W+` never spans a word character. */
  lemma {:induction false} ReplaceSplitsAtWordBoundary(a: string, b: string)
    requires a == [] || b == [] || Text.IsWord(a[|a| - 1]) || Text.IsWord(b[0])
    ensures ReplaceNonWord(a + b) == ReplaceNonWord(a) + ReplaceNonWord(b)
    decreases |a|, 1
  {
    if a == [] {
      assert a + b == b;
    } else if b == [] {
      assert a + b == a;
    } else if Text.IsWord(a[0]) {
      SplitAfterWord(a, b);
    } else if forall i :: 0 <= i < |a| ==> !Text.IsWord(a[i]) {
      SplitAfterNonWordRun(a, b);
    } else {
      SplitInsideNonWordRun(a, b);
    }
  }

  /** `ReplaceSplitsAtWordBoundary` when `a` starts with a word character. */
  lemma {:induction false} SplitAfterWord(a: string, b: string)
    requires a != [] && b != [] && Text.IsWord(a[0])
    requires Text.IsWord(a[|a| - 1]) || Text.IsWord(b[0])
    ensures ReplaceNonWord(a + b) == ReplaceNonWord(a) + ReplaceNonWord(b)
    decreases |a|, 0
  {
    var ab := a + b;
    assert ab[0] == a[0] && ab[1..] == a[1..] + b;
    assert a[1..] == [] || a[1..][|a[1..]| - 1] == a[|a| - 1];
    ReplaceSplitsAtWordBoundary(a[1..], b);
    assert ReplaceNonWord(ab) == [a[0]] + ReplaceNonWord(a[1..] + b);
    assert ReplaceNonWord(a) == [a[0]] + ReplaceNonWord(a[1..]);
    Text.ConcatAssoc([a[0]], ReplaceNonWord(a[1..]), ReplaceNonWord(b));
  }

  /** `ReplaceSplitsAtWordBoundary` when `a` is all non-word characters. */
  lemma {:induction false} SplitAfterNonWordRun(a: string, b: string)
    requires a != [] && b != [] && Text.IsWord(b[0])
    requires forall i :: 0 <= i < |a| ==> !Text.IsWord(a[i])
    ensures ReplaceNonWord(a + b) == ReplaceNonWord(a) + ReplaceNonWord(b)
  {
    var ab := a + b;
    assert ab[0] == a[0];
    SkipNonWordConcat(a, b);
    ReplaceNonWordRun(a);
    assert ReplaceNonWord(ab) == "-" + ReplaceNonWord(SkipNonWord(ab));
  }

  /** `ReplaceSplitsAtWordBoundary` when `a` starts with a non-word run that
      a word character ends. */
  lemma {:induction false} SplitInsideNonWordRun(a: string, b: string)
    requires a != [] && b != [] && !Text.IsWord(a[0])
    requires exists i :: 0 <= i < |a| && Text.IsWord(a[i])
    requires Text.IsWord(a[|a| - 1]) || Text.IsWord(b[0])
    ensures ReplaceNonWord(a + b) == ReplaceNonWord(a) + ReplaceNonWord(b)
    decreases |a|, 0
  {
    var ab := a + b;
    assert ab[0] == a[0];
    SkipNonWordConcatLeft(a, b);
    var rest := SkipNonWord(a);
    assert rest != [] && rest[|rest| - 1] == a[|a| - 1] && |rest| < |a|;
    ReplaceSplitsAtWordBoundary(rest, b);
    assert ReplaceNonWord(ab) == "-" + ReplaceNonWord(rest + b);
    assert ReplaceNonWord(a) == "-" + ReplaceNonWord(rest);
    Text.ConcatAssoc("-", ReplaceNonWord(rest), ReplaceNonWord(b));
  }

  /** A string of word characters and single hyphens is its own slug body. */
  lemma {:induction false} ReplaceFixedPoint(r: string)
    requires forall i :: 0 <= i < |r| ==> Text.IsWord(r[i]) || r[i] == '-'
    requires forall i :: 0 <= i < |r| - 1 ==> !(r[i] == '-' && r[i + 1] == '-')
    ensures ReplaceNonWord(r) == r
    decreases |r|
  {
    if r != [] {
      var t := r[1..];
      assert forall i :: 0 <= i < |t| ==> t[i] == r[i + 1];
      ReplaceFixedPoint(t);
      Text.HeadTail(r);
      if r[0] == '-' {
        Text.SlashAndHyphenAreNotWord();
        assert t == [] || Text.IsWord(t[0]);
        assert SkipNonWord(r) == SkipNonWord(t) == t;
        assert ReplaceNonWord(r) == "-" + ReplaceNonWord(t);
      } else {
        assert ReplaceNonWord(r) == [r[0]] + ReplaceNonWord(t);
      }
    }
  }

  /** Slugging is idempotent for a fixed `lowercased` flag. */
  lemma {:induction false} SlugIdempotent(s: string, lowercased: bool)
    ensures Slug(Slug(s, lowercased), lowercased) == Slug(s, lowercased)
  {
    var r := Slug(s, lowercased);
    if lowercased {
      assert Text.LowerStr(r) == r;
    }
    Text.SlashAndHyphenAreNotWord();
    ReplaceFixedPoint(r);
  }

  // ---------------------------------------------------------------------------
  // ranges(of:options:range:locale:) with a literal pattern

  /** `needle` occurs at `i` and ends no later than `hi`. */
  predicate MatchWithin(s: string, needle: string, i: int, hi: int)
  {
    0 <= i && i + |needle| <= hi <= |s| && s[i..i + |needle|] == needle
  }

  /** `range(of:options:range:)` for a literal pattern: the leftmost
      occurrence inside `lo..<hi`, or none. An empty pattern never matches. */
  function FirstMatch(s: string, needle: string, lo: nat, hi: nat): (r: Option<nat>)
    requires lo <= hi <= |s|
    ensures r.Some? ==> lo <= r.value && MatchWithin(s, needle, r.value, hi) && needle != []
    ensures r.Some? ==> forall j :: lo <= j < r.value ==> !MatchWithin(s, needle, j, hi)
    ensures r.None? ==> needle == [] || forall j :: lo <= j ==> !MatchWithin(s, needle, j, hi)
    decreases hi - lo
  {
    if needle == [] || lo + |needle| > hi then None
    else if s[lo..lo + |needle|] == needle then Some(lo)
    else FirstMatch(s, needle, lo + 1, hi)
  }

  /** No occurrence inside `..<hi` starts in `a..<b`. */
  predicate NoMatchBetween(s: string, needle: string, a: int, b: int, hi: int)
  {
    forall j :: a <= j < b ==> !MatchWithin(s, needle, j, hi)
  }

  /** The first index a match may start at: the start of the searched range,
      then the end of the previous match. */
  function SearchStart(rs: seq<(nat, nat)>, k: nat, lo: nat): nat
    requires k <= |rs|
  {
    if k == 0 then lo else rs[k - 1].1
  }

  /** Every range is an occurrence of `needle` inside `lo..<hi`, and the
      ranges come in increasing order without overlapping. */
  predicate OrderedMatches(s: string, needle: string, rs: seq<(nat, nat)>, lo: int, hi: int)
  {
    && (forall k :: 0 <= k < |rs| ==> lo <= rs[k].0 < rs[k].1 && rs[k].1 == rs[k].0 + |needle|)
    && (forall k :: 0 <= k < |rs| ==> MatchWithin(s, needle, rs[k].0, hi))
    && (forall k :: 0 <= k < |rs| - 1 ==> rs[k].1 <= rs[k + 1].0)
  }

  /** Each range is the leftmost occurrence after the previous one. */
  predicate Leftmost(s: string, needle: string, rs: seq<(nat, nat)>, lo: nat, hi: int)
  {
    forall k :: 0 <= k < |rs| ==> NoMatchBetween(s, needle, SearchStart(rs, k, lo), rs[k].0, hi)
  }

  /** One more leftmost match keeps both properties. */
  lemma AppendMatch(s: string, needle: string, rs: seq<(nat, nat)>, lo: nat, hi: int, i: nat)
    requires OrderedMatches(s, needle, rs, lo, hi) && Leftmost(s, needle, rs, lo, hi)
    requires lo <= SearchStart(rs, |rs|, lo) <= i && MatchWithin(s, needle, i, hi) && needle != []
    requires NoMatchBetween(s, needle, SearchStart(rs, |rs|, lo), i, hi)
    ensures OrderedMatches(s, needle, rs + [(i, i + |needle|)], lo, hi)
    ensures Leftmost(s, needle, rs + [(i, i + |needle|)], lo, hi)
  {
    AppendOrdered(s, needle, rs, lo, hi, i);
    AppendLeftmost(s, needle, rs, lo, hi, i);
  }

  lemma AppendOrdered(s: string, needle: string, rs: seq<(nat, nat)>, lo: nat, hi: int, i: nat)
    requires OrderedMatches(s, needle, rs, lo, hi)
    requires lo <= SearchStart(rs, |rs|, lo) <= i && MatchWithin(s, needle, i, hi) && needle != []
    ensures OrderedMatches(s, needle, rs + [(i, i + |needle|)], lo, hi)
  {
    var rs' := rs + [(i, i + |needle|)];
    forall k | 0 <= k < |rs'|
      ensures lo <= rs'[k].0 < rs'[k].1 && rs'[k].1 == rs'[k].0 + |needle|
      ensures MatchWithin(s, needle, rs'[k].0, hi)
    {
      if k < |rs| { assert rs'[k] == rs[k]; }
    }
    forall k | 0 <= k < |rs'| - 1 ensures rs'[k].1 <= rs'[k + 1].0 {
      if k + 1 < |rs| {
        assert rs'[k] == rs[k] && rs'[k + 1] == rs[k + 1];
      } else {
        assert rs'[k] == rs[k] && rs[k].1 == SearchStart(rs, |rs|, lo);
      }
    }
  }

  lemma AppendLeftmost(s: string, needle: string, rs: seq<(nat, nat)>, lo: nat, hi: int, i: nat)
    requires Leftmost(s, needle, rs, lo, hi)
    requires SearchStart(rs, |rs|, lo) <= i
    requires NoMatchBetween(s, needle, SearchStart(rs, |rs|, lo), i, hi)
    ensures Leftmost(s, needle, rs + [(i, i + |needle|)], lo, hi)
  {
    var rs' := rs + [(i, i + |needle|)];
    forall k | 0 <= k < |rs'|
      ensures NoMatchBetween(s, needle, SearchStart(rs', k, lo), rs'[k].0, hi)
    {
      if k < |rs| {
        assert rs'[k] == rs[k];
        assert SearchStart(rs', k, lo) == SearchStart(rs, k, lo);
      } else {
        assert SearchStart(rs', k, lo) == SearchStart(rs, |rs|, lo);
      }
    }
  }

  /** Where the search starts: the explicit range, else the first character. */
  function SearchLow(range: Option<(nat, nat)>): nat {
    if range.Some? then range.value.0 else 0
  }

  /** Where the search ends: the explicit range, else the index of the last
      character, so that the last character is never searched. */
  function SearchEnd(s: string, range: Option<(nat, nat)>): int {
    if range.Some? then range.value.1 else |s| - 1
  }

  /** `ranges(of:options:range:locale:)` with a literal pattern: searches the
      range again and again, each time after the previous match, and stops at
      the first search that fails; an empty string without a range gives no
      ranges at all. */
  method Ranges(s: string, needle: string, range: Option<(nat, nat)>) returns (rs: seq<(nat, nat)>)
    requires range.Some? ==> range.value.0 <= range.value.1 <= |s|
    ensures s == [] ==> rs == []
    ensures needle == [] ==> rs == []
    ensures OrderedMatches(s, needle, rs, SearchLow(range), SearchEnd(s, range))
    ensures Leftmost(s, needle, rs, SearchLow(range), SearchEnd(s, range))
    ensures needle != [] ==> NoMatchBetween(s, needle, SearchStart(rs, |rs|, SearchLow(range)), |s|, SearchEnd(s, range))
    ensures range.None? ==> forall k :: 0 <= k < |rs| ==> rs[k].1 < |s|
    ensures range.Some? ==> forall k :: 0 <= k < |rs| ==> range.value.0 <= rs[k].0 && rs[k].1 <= range.value.1
  {
    if range.None? && s == [] {
      return [];
    }
    var endRange: nat := SearchEnd(s, range);
    var lowRange: nat := SearchLow(range);
    rs := [];
    var exhausted := false;
    while lowRange < endRange && !exhausted
      invariant SearchLow(range) <= lowRange
      invariant needle == [] ==> rs == []
      invariant lowRange == SearchStart(rs, |rs|, SearchLow(range))
      invariant OrderedMatches(s, needle, rs, SearchLow(range), endRange)
      invariant Leftmost(s, needle, rs, SearchLow(range), endRange)
      invariant exhausted && needle != [] ==> NoMatchBetween(s, needle, lowRange, |s|, endRange)
      decreases endRange - lowRange, !exhausted
    {
      var found := FirstMatch(s, needle, lowRange, endRange);
      if found.None? {
        exhausted := true;
      } else {
        var i := found.value;
        AppendMatch(s, needle, rs, SearchLow(range), endRange, i);
        rs := rs + [(i, i + |needle|)];
        lowRange := i + |needle|;
      }
    }
    if needle != [] && !exhausted {
      NoMatchPastEnd(s, needle, lowRange, endRange);
    }
    MatchesInside(s, needle, rs, SearchLow(range), endRange);
  }

  /** No occurrence fits in a search range that is already used up. */
  lemma NoMatchPastEnd(s: string, needle: string, lo: int, hi: int)
    requires hi <= lo && needle != []
    ensures NoMatchBetween(s, needle, lo, |s|, hi)
  {
  }

  /** Ordered matches lie inside the searched range. */
  lemma MatchesInside(s: string, needle: string, rs: seq<(nat, nat)>, lo: int, hi: int)
    requires OrderedMatches(s, needle, rs, lo, hi)
    ensures forall k :: 0 <= k < |rs| ==> lo <= rs[k].0 && rs[k].1 <= hi
  {
    forall k | 0 <= k < |rs| ensures lo <= rs[k].0 && rs[k].1 <= hi {
      assert MatchWithin(s, needle, rs[k].0, hi);
    }
  }
}
