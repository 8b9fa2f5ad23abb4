/**
  `TypeKind`: the kind of a documented declaration. Seven fixed kinds and a
  catch-all `Other` carrying the lower-cased label it was parsed from. Each
  kind has a display string (`stringValue`) and a docset category
  (`docSetType`).
 */
module TypeKind {
  import Text

  datatype Kind =
    | Extension | Enum | Class | Struct | Protocol | GlobalFunc | Typealias
    | Other(value: string)

  /** The hand-written `==`: same case, and equal payloads for `Other`. */
  function Equals(lhs: Kind, rhs: Kind): bool {
    match lhs
    case Extension => rhs.Extension?
    case Enum => rhs.Enum?
    case Class => rhs.Class?
    case Struct => rhs.Struct?
    case Protocol => rhs.Protocol?
    case GlobalFunc => rhs.GlobalFunc?
    case Typealias => rhs.Typealias?
    case Other(v) => rhs.Other? && rhs.value == v
  }

  /** The hand-written `==` is exactly structural equality. */
  lemma EqualsIsEquality(lhs: Kind, rhs: Kind)
    ensures Equals(lhs, rhs) <==> lhs == rhs
  {}

  /** The kinds that sit at the top level of an exported document. */
  const TopLevelCases: seq<Kind> := [Extension, Enum, Class, Struct, Protocol, GlobalFunc, Typealias]

  /** `topLevelCases` lists the seven fixed kinds, each once, and no `Other`. */
  lemma TopLevelCasesAreTheFixedKinds()
    ensures |TopLevelCases| == 7
    ensures forall k :: k in TopLevelCases <==> !k.Other?
    ensures forall i, j :: 0 <= i < j < |TopLevelCases| ==> TopLevelCases[i] != TopLevelCases[j]
  {}

  function StringValue(k: Kind): string {
    match k
    case Extension => "extension"
    case Enum => "enum"
    case Class => "class"
    case Struct => "struct"
    case Protocol => "protocol"
    case GlobalFunc => "global func"
    case Typealias => "typealias"
    case Other(v) => v
  }

  /** The docset category: a fixed noun per fixed kind; for `Other`, the
      capitalised last space-separated word of its label. */
  function DocSetType(k: Kind): string {
    match k
    case Extension => "Extension"
    case Enum => "Enum"
    case Class => "Class"
    case Struct => "Struct"
    case Protocol => "Protocol"
    case GlobalFunc => "Function"
    case Typealias => "Alias"
    case Other(v) => Text.Capitalize(Text.LastSegment(v, ' '))
  }

  /** Whether `s` is one of the seven fixed labels. */
  predicate IsFixedLabel(s: string) {
    s in {"extension", "enum", "class", "struct", "protocol", "global func", "typealias"}
  }

  /** Parses a kind from its label in any letter case; an unknown label
      becomes `Other` of the lower-cased input. */
  function CreateFrom(s: string): (r: Kind)
    ensures StringValue(r) == Text.LowerStr(s)
    ensures r.Other? <==> !IsFixedLabel(Text.LowerStr(s))
  {
    var l := Text.LowerStr(s);
    if l == "extension" then Extension
    else if l == "enum" then Enum
    else if l == "class" then Class
    else if l == "struct" then Struct
    else if l == "protocol" then Protocol
    else if l == "global func" then GlobalFunc
    else if l == "typealias" then Typealias
    else Other(l)
  }

  /** Every fixed kind parses back from its own display string. */
  lemma RoundTrip(k: Kind)
    requires !k.Other?
    ensures CreateFrom(StringValue(k)) == k
  {
    Text.LowerStrOfLowercase(StringValue(k));
  }

  /** An `Other` label survives a round trip exactly when it is lower-case
      and not one of the fixed labels. */
  lemma OtherRoundTrip(v: string)
    ensures CreateFrom(v) == Other(v) <==> Text.LowerStr(v) == v && !IsFixedLabel(v)
  {}

  /** The parser ignores letter case. */
  lemma CreateFromCaseInsensitive(s: string)
    ensures CreateFrom(s) == CreateFrom(Text.LowerStr(s))
  {
    Text.LowerStrIdempotent(s);
  }

  /** The docset category of an `Other` kind is empty exactly when its label
      holds no character other than spaces. */
  lemma OtherDocSetTypeEmpty(v: string)
    ensures DocSetType(Other(v)) == [] <==> forall i :: 0 <= i < |v| ==> v[i] == ' '
  {
    Text.CapitalizeEmpty(Text.LastSegment(v, ' '));
    Text.LastSegmentEmpty(v, ' ');
  }
}
