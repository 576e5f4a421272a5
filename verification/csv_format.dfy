/** `CSVFormat`: the separator, the character encoding and whether a
    byte-order mark is written. Immutable; its getters are the fields. */
module CsvFormats {

  /** Only the distinction "UTF-8 or not" matters to the format. */
  datatype Charset = Utf8 | OtherCharset(name: string)

  datatype CsvFormat = CsvFormat(separator: char, encoding: Charset, withBom: bool) {

    /** The constructor's assertion: a byte-order mark is only meaningful for UTF-8. */
    predicate Valid() {
      encoding == Utf8 || !withBom
    }
  }

  /** The constructor: admits exactly the arguments its assertion admits, and the
      getters give back exactly those arguments. */
  function NewCsvFormat(separator: char, encoding: Charset, withBom: bool): (format: CsvFormat)
    requires encoding == Utf8 || !withBom
    ensures format.Valid()
    ensures format.separator == separator
    ensures format.encoding == encoding
    ensures format.withBom == withBom
  {
    CsvFormat(separator, encoding, withBom)
  }

  /** Semicolon separated, UTF-8, with byte-order mark. */
  const Excel: CsvFormat := NewCsvFormat(';', Utf8, true)

  /** Comma separated, UTF-8, without byte-order mark. */
  const LibreOffice: CsvFormat := NewCsvFormat(',', Utf8, false)

  /** Both presets satisfy the constructor's assertion and differ in separator
      and byte-order mark. */
  lemma PresetFormats()
    ensures Excel.Valid() && Excel.separator == ';' && Excel.encoding == Utf8 && Excel.withBom
    ensures LibreOffice.Valid() && LibreOffice.separator == ',' && LibreOffice.encoding == Utf8
    ensures !LibreOffice.withBom
  {
  }
}
