/**
  The immutable language record loaded from the GitHub Linguist registry.
  Only `group` may be absent; the three lists are always present, in registry
  order. Extensions carry their leading dot (".kt"). `group` names the parent
  language of a variant and is an opaque label: nothing requires it to name
  an entry of the table.
 */
module Languages {
  import opened Outcomes

  /**
    One registered language. The registry's `type` classification
    ("programming", "markup", ...) is the field `kind`, since `type` is a
    Dafny keyword. Being a datatype, two values are equal exactly when all
    six fields are.
   */
  datatype Language = Language(
    name: string,
    kind: string,
    group: Option<string>,
    extensions: seq<string>,
    filenames: seq<string>,
    aliases: seq<string>
  )
}
