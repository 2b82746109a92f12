/** The value both directions of the codec work on, and their error kinds. */
module ContentTypes {
  /**
   * A media type: the `type/subtype` text and the parameter map.  `Parse`
   * produces them lowercased (type and names); `Format` takes them as given.
   */
  datatype ContentType = ContentType(typ: string, parameters: map<string, string>)

  /** Why `Parse` refused its input. */
  datatype ParseError = InvalidMediaType | InvalidParameterFormat

  /** Why `Format` refused its input. */
  datatype FormatError = InvalidType | InvalidParameterName | InvalidParameterValue
}
