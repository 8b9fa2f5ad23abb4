/**
  `Accessibility`, the earlier copy of `AccessControl` that the older item
  controller and the unit tests use: the five Swift access levels ordered by
  raw value, a display string and a case-insensitive parser that falls back
  to `internal`.
 */
module Accessibility {
  import Text

  datatype Level = Private | Fileprivate | Internal | Public | Open

  /** The enumeration's `Int` raw value, in declaration order. */
  function RawValue(a: Level): nat {
    match a
    case Private => 0
    case Fileprivate => 1
    case Internal => 2
    case Public => 3
    case Open => 4
  }

  /** `<` compares raw values. */
  predicate Less(a: Level, b: Level) {
    RawValue(a) < RawValue(b)
  }

  /** `>=` as `Comparable` derives it from `<`. */
  predicate AtLeast(a: Level, b: Level) {
    !Less(a, b)
  }

  function StringValue(a: Level): string {
    match a
    case Private => "private"
    case Fileprivate => "fileprivate"
    case Internal => "internal"
    case Public => "public"
    case Open => "open"
  }

  /** Parses a level from its name in any letter case; anything else is `internal`. */
  function CreateFrom(s: string): (r: Level)
    ensures forall a :: StringValue(a) == Text.LowerStr(s) ==> r == a
    ensures (forall a :: StringValue(a) != Text.LowerStr(s)) ==> r == Internal
  {
    var l := Text.LowerStr(s);
    assert forall a, b :: StringValue(a) == StringValue(b) ==> a == b by {
      forall a, b ensures StringValue(a) == StringValue(b) ==> a == b {
        StringValueInjective(a, b);
      }
    }
    assert StringValue(Private) == "private" && StringValue(Fileprivate) == "fileprivate";
    assert StringValue(Internal) == "internal" && StringValue(Public) == "public" && StringValue(Open) == "open";
    if l == "private" then Private
    else if l == "fileprivate" then Fileprivate
    else if l == "internal" then Internal
    else if l == "public" then Public
    else if l == "open" then Open
    else Internal
  }

  /** `private < fileprivate < internal < public < open`, and `<` is a strict total order. */
  lemma LessIsStrictTotalOrder()
    ensures Less(Private, Fileprivate) && Less(Fileprivate, Internal)
    ensures Less(Internal, Public) && Less(Public, Open)
    ensures forall a :: !Less(a, a)
    ensures forall a, b, c :: Less(a, b) && Less(b, c) ==> Less(a, c)
    ensures forall a, b :: a != b ==> Less(a, b) || Less(b, a)
  {}

  lemma StringValueInjective(a: Level, b: Level)
    ensures StringValue(a) == StringValue(b) <==> a == b
  {}

  /** Every level parses back from its own string value. */
  lemma RoundTrip(a: Level)
    ensures CreateFrom(StringValue(a)) == a
  {
    Text.LowerStrOfLowercase(StringValue(a));
  }

  /** The parser ignores letter case. */
  lemma CreateFromCaseInsensitive(s: string)
    ensures CreateFrom(s) == CreateFrom(Text.LowerStr(s))
  {
    Text.LowerStrIdempotent(s);
  }

  /** A string that names no level, in any letter case, yields `internal`. */
  lemma UnknownIsInternal(s: string)
    requires forall a :: Text.LowerStr(s) != StringValue(a)
    ensures CreateFrom(s) == Internal
  {}

  /** `>` as `Comparable` derives it from `<`. */
  predicate Greater(a: Level, b: Level) {
    Less(b, a)
  }

  /** The comparisons the project's unit test asserts between `internal` and `public`. */
  lemma InternalPublicComparisons()
    ensures Less(Internal, Public)
    ensures Greater(Public, Internal)
    ensures AtLeast(Public, Internal) && AtLeast(Public, Public)
    ensures !AtLeast(Internal, Public)
  {}
}
