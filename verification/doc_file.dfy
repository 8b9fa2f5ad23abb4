/**
  The raw symbol tree as decoded from the introspection tool's JSON: a file
  of top-level containers, each a record of optional strings with nested
  containers of the same shape. The classification strings (`accessControl`,
  `kind`, attribute names) arrive already shortened.
 */
module DocFile {
  import opened Wrappers

  datatype DocContainer = DocContainer(
    accessControl: Option<string>,
    docDeclaration: Option<string>,
    parsedDeclaration: Option<string>,
    comment: Option<string>,
    name: Option<string>,
    kind: string,
    inheritedTypes: Option<seq<string>>,
    attributes: Option<seq<string>>,
    nestedContainers: Substructure)

  /** The optional `key.substructure` list. It is a datatype of its own, not
      an `Option`, so that recursion through it is seen to terminate. */
  datatype Substructure = NoSubstructure | Substructure(containers: seq<DocContainer>)

  datatype DocFile = DocFile(filePath: Option<string>, topLevelContainers: seq<DocContainer>)
}
