/**
  The older copy of `StringMap`, kept with the models: a smaller table
  without the free-function, typealias, associated-type, `mutating` and
  `prefix` keys, and the same shortening function.
 */
module StringMapModels {
  import Text
  import AccessControl
  import StringMapHelpers

  /** The mapping of the dictionary literal. A dictionary's entries have no
      order; the literal's groups are listed here last to first. */
  const Mappings: map<string, string> := map[
    "source.decl.attribute.convenience" := "convenience",
    "source.decl.attribute.lazy" := "lazy",
    "source.decl.attribute.open" := "open",
    "source.decl.attribute.fileprivate" := "fileprivate",
    "source.decl.attribute.public" := "public",
    "source.decl.attribute.private" := "private",
    "source.decl.attribute.setter_access.private" := "private(set)",
    "source.decl.attribute.final" := "final",
    "source.decl.attribute.discardableResult" := "discardable result",

    "source.lang.swift.decl.class" := "class",
    "source.lang.swift.decl.enumelement" := "enum element",
    "source.lang.swift.decl.enumcase" := "enum case",
    "source.lang.swift.decl.enum" := "enum",
    "source.lang.swift.decl.function.subscript" := "subscript",
    "source.lang.swift.decl.function.method.instance" := "instance method",
    "source.lang.swift.decl.var.local" := "local",
    "source.lang.swift.decl.var.static" := "static",
    "source.lang.swift.decl.function.method.static" := "static",
    "source.lang.swift.syntaxtype.comment.mark" := "mark",
    "source.lang.swift.decl.generic_type_param" := "generic type parameter",
    "source.lang.swift.decl.protocol" := "protocol",
    "source.lang.swift.decl.extension" := "extension",
    "source.lang.swift.decl.struct" := "struct",

    "source.lang.swift.decl.var.instance" := "instance property",

    "source.lang.swift.accessibility.private" := "private",
    "source.lang.swift.accessibility.fileprivate" := "fileprivate",
    "source.lang.swift.accessibility.internal" := "internal",
    "source.lang.swift.accessibility.public" := "public",
    "source.lang.swift.accessibility.open" := "open"
  ]

  /** Every label in the table is non-empty, so a known key never reaches the fallback. */
  lemma ValuesNonEmpty()
    ensures forall k :: k in Mappings ==> Mappings[k] != []
  {}

  /** `shortenSwiftDocClassificationString(useInterpretation:)`: the table's
      label for a known key; otherwise the input itself, or with
      `useInterpretation` its last non-empty `.`-separated segment. */
  function Shorten(s: string, useInterpretation: bool): (r: string)
    ensures s in Mappings ==> r == Mappings[s]
    ensures s !in Mappings && !useInterpretation ==> r == s
    ensures s !in Mappings && useInterpretation ==> r == Text.LastSegment(s, '.')
  {
    ValuesNonEmpty();
    var rStr := if s in Mappings then Mappings[s] else [];
    if rStr == [] then
      if useInterpretation then Text.LastSegment(s, '.') else s
    else rStr
  }

  /** Every accessibility key is in the older table too, labelled with the
      Swift name of its level. */
  lemma AccessibilityKeysMapToNames(a: AccessControl.Level)
    ensures StringMapHelpers.AccessibilityKey(a) in Mappings
    ensures Shorten(StringMapHelpers.AccessibilityKey(a), false) == AccessControl.StringValue(a)
  {
    match a
    case Private => assert Mappings["source.lang.swift.accessibility.private"] == "private";
    case Fileprivate => assert Mappings["source.lang.swift.accessibility.fileprivate"] == "fileprivate";
    case Internal => assert Mappings["source.lang.swift.accessibility.internal"] == "internal";
    case Public => assert Mappings["source.lang.swift.accessibility.public"] == "public";
    case Open => assert Mappings["source.lang.swift.accessibility.open"] == "open";
  }

  /** Both static keys share the label `static`. */
  lemma StaticKeysShareALabel()
    ensures Shorten("source.lang.swift.decl.var.static", false) == "static"
    ensures Shorten("source.lang.swift.decl.function.method.static", false) == "static"
  {}

  /** This table does not know free functions or typealiases, so their keys
      pass through verbatim, or shrink to their last segment on request. */
  lemma FreeFunctionAndTypealiasPassThrough()
    ensures Shorten("source.lang.swift.decl.function.free", false) == "source.lang.swift.decl.function.free"
    ensures Shorten("source.lang.swift.decl.typealias", false) == "source.lang.swift.decl.typealias"
  {}
}
