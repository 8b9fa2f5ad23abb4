/**
  Character classes and string primitives that the Swift code takes from
  Foundation, restricted to ASCII: lower-casing, `capitalized`, the regular
  expression classes `\w` and `\s`, trimming, prefix tests, splitting on one
  separator and joining. Strings are `seq<char>`.
 */
module Text {

  // ---------------------------------------------------------------------------
  // Characters

  predicate IsUpper(c: char) { 'A' <= c <= 'Z' }

  predicate IsLower(c: char) { 'a' <= c <= 'z' }

  function Lower(c: char): char {
    if IsUpper(c) then (c as int + 32) as char else c
  }

  function Upper(c: char): char {
    if IsLower(c) then (c as int - 32) as char else c
  }

  /** The regular-expression class `\w`: letters, digits and the underscore. */
  predicate IsWord(c: char) {
    IsUpper(c) || IsLower(c) || ('0' <= c <= '9') || c == '_'
  }

  /** The class `\s`, which is also what `.whitespacesAndNewlines` trims. */
  predicate IsSpace(c: char) {
    c == ' ' || c == '\t' || c == '\n' || c == '\r' || c == '\U{000B}' || c == '\U{000C}'
  }

  lemma SlashAndHyphenAreNotWord()
    ensures !IsWord('-') && !IsWord('/') && !IsWord('.')
  {}

  lemma LowerIdempotent(c: char)
    ensures Lower(Lower(c)) == Lower(c)
    ensures Lower(Upper(c)) == Lower(c)
    ensures IsWord(Lower(c)) == IsWord(c)
    ensures !IsUpper(Lower(c))
  {}

  // ---------------------------------------------------------------------------
  // Case mapping on strings

  /** `lowercased()` */
  function LowerStr(s: string): (r: string)
    ensures |r| == |s|
    ensures forall i :: 0 <= i < |s| ==> r[i] == Lower(s[i])
  {
    seq(|s|, i requires 0 <= i < |s| => Lower(s[i]))
  }

  /** Whether position `i` starts a word in the sense of `capitalized`:
      words are delimited by spaces, tabs and line terminators. */
  predicate StartsWordAt(s: string, i: nat)
    requires i < |s|
  {
    i == 0 || IsSpace(s[i - 1])
  }

  /** `capitalized`: the first character of each word upper-case, every other
      character lower-case. */
  function Capitalize(s: string): (r: string)
    ensures |r| == |s|
    ensures forall i :: 0 <= i < |s| ==> r[i] == (if StartsWordAt(s, i) then Upper(s[i]) else Lower(s[i]))
  {
    seq(|s|, i requires 0 <= i < |s| => if StartsWordAt(s, i) then Upper(s[i]) else Lower(s[i]))
  }

  /** A string with no upper-case letter is its own lower-case form. */
  lemma LowerStrOfLowercase(s: string)
    requires forall i :: 0 <= i < |s| ==> !IsUpper(s[i])
    ensures LowerStr(s) == s
  {}

  lemma LowerStrIdempotent(s: string)
    ensures LowerStr(LowerStr(s)) == LowerStr(s)
  {
    forall i | 0 <= i < |s| ensures LowerStr(LowerStr(s))[i] == LowerStr(s)[i] {
      LowerIdempotent(s[i]);
    }
  }

  /** Lower-casing forgets what `capitalized` did. */
  lemma LowerOfCapitalize(s: string)
    ensures LowerStr(Capitalize(s)) == LowerStr(s)
  {
    forall i | 0 <= i < |s| ensures LowerStr(Capitalize(s))[i] == LowerStr(s)[i] {
      LowerIdempotent(s[i]);
    }
  }

  lemma CapitalizeEmpty(s: string)
    ensures Capitalize(s) == [] <==> s == []
  {
    if s != [] {
      assert |Capitalize(s)| == |s|;
    }
  }

  // ---------------------------------------------------------------------------
  // Prefixes and trimming

  predicate StartsWith(s: string, prefix: string) {
    |prefix| <= |s| && s[..|prefix|] == prefix
  }

  predicate EndsWith(s: string, suffix: string) {
    |suffix| <= |s| && s[|s| - |suffix|..] == suffix
  }

  function TrimStart(s: string): string {
    if s != [] && IsSpace(s[0]) then TrimStart(s[1..]) else s
  }

  function TrimEnd(s: string): string {
    if s != [] && IsSpace(s[|s| - 1]) then TrimEnd(s[..|s| - 1]) else s
  }

  /** `TrimStart` drops the longest all-whitespace prefix. */
  lemma {:induction false} TrimStartShape(s: string)
    ensures var r := TrimStart(s);
      && |r| <= |s| && r == s[|s| - |r|..]
      && (r != [] ==> !IsSpace(r[0]))
      && (forall i :: 0 <= i < |s| - |r| ==> IsSpace(s[i]))
  {
    if s != [] && IsSpace(s[0]) {
      var r := TrimStart(s[1..]);
      TrimStartShape(s[1..]);
      assert TrimStart(s) == r;
      assert r == s[|s| - |r|..] by {
        assert s[1..][|s| - 1 - |r|..] == s[|s| - |r|..];
      }
      forall i | 0 <= i < |s| - |r| ensures IsSpace(s[i]) {
        if i > 0 { assert s[i] == s[1..][i - 1]; }
      }
    } else {
      assert s[0..] == s;
    }
  }

  /** `TrimEnd` drops the longest all-whitespace suffix. */
  lemma {:induction false} TrimEndShape(s: string)
    ensures var r := TrimEnd(s);
      && |r| <= |s| && r == s[..|r|]
      && (r != [] ==> !IsSpace(r[|r| - 1]))
      && (forall i :: |r| <= i < |s| ==> IsSpace(s[i]))
  {
    if s != [] && IsSpace(s[|s| - 1]) {
      var front := s[..|s| - 1];
      var r := TrimEnd(front);
      TrimEndShape(front);
      assert TrimEnd(s) == r;
      assert r == s[..|r|] by {
        assert front[..|r|] == s[..|r|];
      }
      forall i | |r| <= i < |s| ensures IsSpace(s[i]) {
        if i < |s| - 1 { assert s[i] == front[i]; }
      }
    } else {
      assert s[..|s|] == s;
    }
  }

  /** `trimmingCharacters(in: .whitespacesAndNewlines)` */
  function Trim(s: string): string {
    TrimEnd(TrimStart(s))
  }

  /** A line holding nothing but whitespace trims to the empty string. */
  lemma TrimEmptyIffAllSpace(s: string)
    ensures Trim(s) == [] <==> forall i :: 0 <= i < |s| ==> IsSpace(s[i])
  {
    var t := TrimStart(s);
    TrimStartShape(s);
    TrimEndShape(t);
    assert t != [] ==> TrimEnd(t) != [];
  }

  // ---------------------------------------------------------------------------
  // Sequences

  /** Regrouping a concatenation; calling this keeps the index-wise
      comparison out of proofs whose context is large. */
  lemma ConcatAssoc<T>(a: seq<T>, b: seq<T>, c: seq<T>)
    ensures a + (b + c) == (a + b) + c
  {
  }

  /** Two line breaks in a row are the two-character break literal. */
  lemma BlankLine(s: string)
    ensures s + "\n" + "\n" == s + "\n\n"
  {
    assert "\n" + "\n" == "\n\n";
  }

  /** A non-empty sequence is its first element followed by the rest. */
  lemma HeadTail<T>(s: seq<T>)
    requires s != []
    ensures [s[0]] + s[1..] == s
  {
  }

  // ---------------------------------------------------------------------------
  // Splitting and joining on one separator character

  /** `split(separator: sep, omittingEmptySubsequences: false)`: every
      separator ends one part, so there is always at least one part. */
  function Split(s: string, sep: char): (parts: seq<string>)
    ensures |parts| >= 1
    ensures forall k :: 0 <= k < |parts| ==> sep !in parts[k]
  {
    if s == [] then [[]]
    else
      var rest := Split(s[1..], sep);
      if s[0] == sep then [[]] + rest
      else [[s[0]] + rest[0]] + rest[1..]
  }

  /** `joined(separator: [sep])` */
  function Join(parts: seq<string>, sep: char): string
  {
    if |parts| == 0 then []
    else if |parts| == 1 then parts[0]
    else parts[0] + [sep] + Join(parts[1..], sep)
  }

  /** Two parts are joined around one separator. */
  lemma JoinPair(a: string, b: string, sep: char)
    ensures Join([a, b], sep) == a + [sep] + b
  {
    assert [a, b][1..] == [b];
  }

  /** Joining two non-empty runs of parts puts one separator between
      their joins. */
  lemma {:induction false} JoinConcat(p: seq<string>, q: seq<string>, sep: char)
    requires p != [] && q != []
    ensures Join(p + q, sep) == Join(p, sep) + [sep] + Join(q, sep)
    decreases |p|
  {
    assert (p + q)[0] == p[0] && (p + q)[1..] == p[1..] + q;
    if |p| > 1 {
      JoinConcat(p[1..], q, sep);
      ConcatAssoc(p[0] + [sep], Join(p[1..], sep) + [sep], Join(q, sep));
      ConcatAssoc(p[0] + [sep], Join(p[1..], sep), [sep]);
    }
  }

  lemma {:induction false} SplitNoSeparator(s: string, sep: char)
    requires sep !in s
    ensures Split(s, sep) == [s]
  {
    if s != [] {
      SplitNoSeparator(s[1..], sep);
      assert [s[0]] + s[1..] == s;
    }
  }

  lemma {:induction false} SplitAtSeparator(a: string, sep: char, b: string)
    requires sep !in a
    ensures Split(a + [sep] + b, sep) == [a] + Split(b, sep)
  {
    if a == [] {
      assert a + [sep] + b == [sep] + b;
      assert ([sep] + b)[1..] == b;
    } else {
      assert (a + [sep] + b)[1..] == a[1..] + [sep] + b;
      SplitAtSeparator(a[1..], sep, b);
      assert [a[0]] + a[1..] == a;
    }
  }

  /** A separator splits the text into the parts before it and the parts
      after it. */
  lemma {:induction false} SplitConcat(a: string, sep: char, b: string)
    ensures Split(a + [sep] + b, sep) == Split(a, sep) + Split(b, sep)
    decreases |a|
  {
    if a == [] {
      assert a + [sep] + b == [sep] + b;
      assert ([sep] + b)[1..] == b;
    } else {
      assert (a + [sep] + b)[0] == a[0];
      assert (a + [sep] + b)[1..] == a[1..] + [sep] + b;
      SplitConcat(a[1..], sep, b);
      var front := Split(a[1..], sep);
      if a[0] != sep {
        assert (front + Split(b, sep))[0] == front[0];
        assert (front + Split(b, sep))[1..] == front[1..] + Split(b, sep);
      }
    }
  }

  /** Splitting undoes joining when no part holds the separator. */
  lemma {:induction false} SplitJoin(parts: seq<string>, sep: char)
    requires |parts| >= 1
    requires forall k :: 0 <= k < |parts| ==> sep !in parts[k]
    ensures Split(Join(parts, sep), sep) == parts
  {
    if |parts| == 1 {
      SplitNoSeparator(parts[0], sep);
    } else {
      SplitJoin(parts[1..], sep);
      SplitAtSeparator(parts[0], sep, Join(parts[1..], sep));
      assert [parts[0]] + parts[1..] == parts;
    }
  }

  /** Joining undoes splitting: nothing is lost between the parts. */
  lemma {:induction false} JoinSplit(s: string, sep: char)
    ensures Join(Split(s, sep), sep) == s
  {
    if s != [] {
      var rest := Split(s[1..], sep);
      JoinSplit(s[1..], sep);
      if s[0] == sep {
        assert ([[]] + rest)[1..] == rest;
        assert [sep] + s[1..] == s;
      } else {
        var parts := [[s[0]] + rest[0]] + rest[1..];
        assert parts[1..] == rest[1..];
        if |rest| == 1 {
          assert Join(rest, sep) == rest[0];
        } else {
          assert Join(rest, sep) == rest[0] + [sep] + Join(rest[1..], sep);
        }
        assert [s[0]] + s[1..] == s;
      }
    }
  }

  /** The parts `split(separator:)` keeps by default: the non-empty ones. */
  function NonEmptyParts(parts: seq<string>): (r: seq<string>)
    ensures forall k :: 0 <= k < |r| ==> r[k] != [] && r[k] in parts
  {
    if parts == [] then []
    else (if parts[0] == [] then [] else [parts[0]]) + NonEmptyParts(parts[1..])
  }

  /** `split(separator: sep).last ?? ""`: the last non-empty segment. */
  function LastSegment(s: string, sep: char): (r: string)
    ensures sep !in r
  {
    var parts := NonEmptyParts(Split(s, sep));
    if parts == [] then [] else parts[|parts| - 1]
  }

  lemma {:induction false} NoNonEmptyPartsIffAllSeparators(s: string, sep: char)
    ensures NonEmptyParts(Split(s, sep)) == [] <==> forall i :: 0 <= i < |s| ==> s[i] == sep
  {
    if s != [] {
      NoNonEmptyPartsIffAllSeparators(s[1..], sep);
      var rest := Split(s[1..], sep);
      if s[0] == sep {
        assert Split(s, sep) == [[]] + rest;
        assert ([[]] + rest)[1..] == rest;
        if forall i :: 0 <= i < |s[1..]| ==> s[1..][i] == sep {
          forall i | 0 <= i < |s| ensures s[i] == sep {
            if i > 0 { assert s[i] == s[1..][i - 1]; }
          }
        }
      } else {
        assert Split(s, sep)[0] != [];
      }
    }
  }

  /** The last segment is empty exactly when the string is nothing but separators. */
  lemma LastSegmentEmpty(s: string, sep: char)
    ensures LastSegment(s, sep) == [] <==> forall i :: 0 <= i < |s| ==> s[i] == sep
  {
    NoNonEmptyPartsIffAllSeparators(s, sep);
  }

  // ---------------------------------------------------------------------------
  // Lexicographic order, standing in for `String`'s `<`

  predicate StrLess(a: string, b: string)
  {
    if a == [] then b != []
    else if b == [] then false
    else if a[0] < b[0] then true
    else a[0] == b[0] && StrLess(a[1..], b[1..])
  }

  lemma {:induction false} StrLessIrreflexive(a: string)
    ensures !StrLess(a, a)
  {
    if a != [] {
      StrLessIrreflexive(a[1..]);
    }
  }

  lemma {:induction false} StrLessTransitive(a: string, b: string, c: string)
    requires StrLess(a, b) && StrLess(b, c)
    ensures StrLess(a, c)
  {
    if a != [] && b != [] && c != [] && a[0] == b[0] && b[0] == c[0] {
      StrLessTransitive(a[1..], b[1..], c[1..]);
    }
  }

  lemma {:induction false} StrLessTotal(a: string, b: string)
    ensures StrLess(a, b) || a == b || StrLess(b, a)
  {
    if a != [] && b != [] && a[0] == b[0] {
      StrLessTotal(a[1..], b[1..]);
      if a[1..] == b[1..] {
        assert a == [a[0]] + a[1..] && b == [b[0]] + b[1..];
      }
    }
  }
}
