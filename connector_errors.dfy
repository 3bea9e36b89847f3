/** The errors the connector raises as `ConnectorException(code, message)`. */
module ConnectorErrors {
  import opened Wrappers

  datatype ErrorCode = InvalidUrl | InvalidDateFormat | InvalidDateRange | FetchError | ParseError
  {
    /** The code string carried by the exception. */
    function Name(): string
    {
      match this
      case InvalidUrl => "INVALID_URL"
      case InvalidDateFormat => "INVALID_DATE_FORMAT"
      case InvalidDateRange => "INVALID_DATE_RANGE"
      case FetchError => "FETCH_ERROR"
      case ParseError => "PARSE_ERROR"
    }
  }

  datatype ConnectorError = ConnectorError(code: ErrorCode, message: string)

  /** Java's string conversion of a possibly-null string in a concatenation. */
  function JavaString(s: Option<string>): string
  {
    match s
    case None => "null"
    case Some(v) => v
  }
}
