/**
  The Foundation services the documentation code calls but whose behaviour
  is outside this model, passed in as functions: the footnote id that
  `URL.hashValue` supplies (seeded per process), whether `URL(string:)`
  accepts a destination, percent-escaping, and the text of an inline code
  span.
 */
module Platform {

  datatype Env = Env(
    id: string -> string,
    validUrl: string -> bool,
    percentEscaped: string -> string,
    codeInline: string -> string)
}
