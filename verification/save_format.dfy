/** `SaveFormat`: the output format of an export. */
module SaveFormat {

  datatype Format = Html | Markdown | Docset
}
