/** The optional value used for absent tags, failed scans and failed parses. */
module Options {
  datatype Option<T> = None | Some(value: T)
}
