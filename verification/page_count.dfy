/** `PageCount`: whether an export writes one page or one page per item. */
module PageCount {

  datatype Style = MultiPage | SinglePage

  /** The raw value each case carries. */
  function RawValue(p: Style): string {
    match p
    case MultiPage => "multiple"
    case SinglePage => "single"
  }
}
