/**
  The table that shortens the introspection tool's classification strings
  (`source.lang.swift.decl.class` and the like) to display labels, and the
  fallback for strings the table does not know (the newer copy of
  `StringMap`, the one kept with the other helpers).
 */
module StringMapHelpers {
  import Text
  import AccessControl
  import TypeKind

  /** The mapping of the dictionary literal. A dictionary's entries have no
      order; the literal's groups are listed here last to first. */
  const Mappings: map<string, string> := map[
    "source.decl.attribute.convenience" := "convenience",
    "source.decl.attribute.lazy" := "lazy",
    "source.decl.attribute.open" := "open",
    "source.decl.attribute.fileprivate" := "fileprivate",
    "source.decl.attribute.public" := "public",
    "source.decl.attribute.private" := "private",
    "source.decl.attribute.setter_access.private" := "private(set)",
    "source.decl.attribute.final" := "final",
    "source.decl.attribute.discardableResult" := "discardable result",
    "source.decl.attribute.mutating" := "mutating",
    "source.decl.attribute.prefix" := "prefix",

    "source.lang.swift.syntaxtype.comment.mark" := "mark",

    "source.lang.swift.decl.class" := "class",
    "source.lang.swift.decl.enumelement" := "enum element",
    "source.lang.swift.decl.enumcase" := "enum case",
    "source.lang.swift.decl.enum" := "enum",
    "source.lang.swift.decl.function.subscript" := "subscript",
    "source.lang.swift.decl.function.method.instance" := "instance method",
    "source.lang.swift.decl.function.free" := "global func",
    "source.lang.swift.decl.var.local" := "local",
    "source.lang.swift.decl.var.static" := "static",
    "source.lang.swift.decl.var.instance" := "instance property",
    "source.lang.swift.decl.function.method.static" := "static",
    "source.lang.swift.decl.generic_type_param" := "generic type parameter",
    "source.lang.swift.decl.protocol" := "protocol",
    "source.lang.swift.decl.extension" := "extension",
    "source.lang.swift.decl.struct" := "struct",
    "source.lang.swift.decl.typealias" := "typealias",
    "source.lang.swift.decl.associatedtype" := "associated type",

    "source.lang.swift.accessibility.private" := "private",
    "source.lang.swift.accessibility.fileprivate" := "fileprivate",
    "source.lang.swift.accessibility.internal" := "internal",
    "source.lang.swift.accessibility.public" := "public",
    "source.lang.swift.accessibility.open" := "open"
  ]


  /** Every label in the table is non-empty, so a known key never reaches the fallback. */
  lemma ValuesNonEmpty()
    ensures forall k :: k in Mappings ==> Mappings[k] != []
  {}

  /** `shortenSwiftDocClassificationString(useInterpretation:)`: the table's
      label for a known key; otherwise the input itself, or with
      `useInterpretation` its last non-empty `.`-separated segment. */
  function Shorten(s: string, useInterpretation: bool): (r: string)
    ensures s in Mappings ==> r == Mappings[s]
    ensures s !in Mappings && !useInterpretation ==> r == s
    ensures s !in Mappings && useInterpretation ==> r == Text.LastSegment(s, '.')
  {
    ValuesNonEmpty();
    var rStr := if s in Mappings then Mappings[s] else [];
    if rStr == [] then
      if useInterpretation then Text.LastSegment(s, '.') else s
    else rStr
  }

  /** The introspection tool's key for an access level. */
  function AccessibilityKey(a: AccessControl.Level): string {
    match a
    case Private => "source.lang.swift.accessibility.private"
    case Fileprivate => "source.lang.swift.accessibility.fileprivate"
    case Internal => "source.lang.swift.accessibility.internal"
    case Public => "source.lang.swift.accessibility.public"
    case Open => "source.lang.swift.accessibility.open"
  }

  /** Every accessibility key is in the table, and its label is the name
      `AccessControl` parses back into that level. */
  lemma AccessibilityKeysParse(a: AccessControl.Level)
    ensures AccessibilityKey(a) in Mappings
    ensures Shorten(AccessibilityKey(a), false) == AccessControl.StringValue(a)
    ensures AccessControl.CreateFrom(Shorten(AccessibilityKey(a), false)) == a
  {
    match a
    case Private => AccessKeyParses("source.lang.swift.accessibility.private", a);
    case Fileprivate => AccessKeyParses("source.lang.swift.accessibility.fileprivate", a);
    case Internal => AccessKeyParses("source.lang.swift.accessibility.internal", a);
    case Public => AccessKeyParses("source.lang.swift.accessibility.public", a);
    case Open => AccessKeyParses("source.lang.swift.accessibility.open", a);
  }

  lemma AccessKeyParses(key: string, a: AccessControl.Level)
    requires key in Mappings && Mappings[key] == AccessControl.StringValue(a)
    ensures Shorten(key, false) == AccessControl.StringValue(a)
    ensures AccessControl.CreateFrom(Shorten(key, false)) == a
  {
    AccessControl.RoundTrip(a);
  }

  /** The introspection tool's declaration key for each of the seven fixed
      kinds; `other` kinds have no key of their own. */
  function DeclarationKey(k: TypeKind.Kind): string
    requires !k.Other?
  {
    match k
    case Class => "source.lang.swift.decl.class"
    case Enum => "source.lang.swift.decl.enum"
    case Struct => "source.lang.swift.decl.struct"
    case Protocol => "source.lang.swift.decl.protocol"
    case Extension => "source.lang.swift.decl.extension"
    case Typealias => "source.lang.swift.decl.typealias"
    case GlobalFunc => "source.lang.swift.decl.function.free"
    case Other(_) => ""
  }

  /** The declaration key of every fixed kind is in the table, and its label
      is the name `TypeKind` parses back into that kind; so a free function
      becomes `global func`. */
  lemma DeclarationKeysParse(k: TypeKind.Kind)
    requires !k.Other?
    ensures DeclarationKey(k) in Mappings
    ensures Shorten(DeclarationKey(k), false) == TypeKind.StringValue(k)
    ensures TypeKind.CreateFrom(Shorten(DeclarationKey(k), false)) == k
  {
    match k
    case Class => KindKeyParses("source.lang.swift.decl.class", k);
    case Enum => KindKeyParses("source.lang.swift.decl.enum", k);
    case Struct => KindKeyParses("source.lang.swift.decl.struct", k);
    case Protocol => KindKeyParses("source.lang.swift.decl.protocol", k);
    case Extension => KindKeyParses("source.lang.swift.decl.extension", k);
    case Typealias => KindKeyParses("source.lang.swift.decl.typealias", k);
    case GlobalFunc => KindKeyParses("source.lang.swift.decl.function.free", k);
  }

  lemma KindKeyParses(key: string, k: TypeKind.Kind)
    requires !k.Other?
    requires key in Mappings && Mappings[key] == TypeKind.StringValue(k)
    ensures Shorten(key, false) == TypeKind.StringValue(k)
    ensures TypeKind.CreateFrom(Shorten(key, false)) == k
  {
    TypeKind.RoundTrip(k);
  }



  /** Two different static keys share one label, so the table is not injective. */
  lemma StaticKeysShareALabel()
    ensures Shorten("source.lang.swift.decl.var.static", false) == "static"
    ensures Shorten("source.lang.swift.decl.function.method.static", false) == "static"
  {}

  /** The `lazy` attribute key maps to the `lazy` label that selects the declaration. */
  lemma LazyAttributeKey()
    ensures Shorten("source.decl.attribute.lazy", false) == "lazy"
  {}
}
