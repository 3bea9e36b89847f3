/** The connector's input record and its date parameters: the default for `maxItems`
    and the reading of `fromDate` / `toDate` as ISO 8601 date-times or dates. */
module FeedRequest {
  import opened Wrappers
  import opened JavaText
  import opened IsoDates
  import opened ConnectorErrors

  const DefaultMaxItems: int := 10
  /** The bounds `@Min(1)` and `@Max(500)` put on `maxItems`. */
  const MinMaxItems: int := 1
  const MaxMaxItems: int := 500

  /** The request as bound from the process variables; `None` is Java's `null`. */
  datatype RssFeedRequest = RssFeedRequest(
    feedUrl: string,
    maxItems: Option<int>,
    fromDate: Option<string>,
    toDate: Option<string>)
  {
    /** What the framework's bean validation guarantees before the connector runs:
        `maxItems` is absent or within `@Min(1)` .. `@Max(500)`. */
    predicate Valid()
    {
      maxItems.None? || MinMaxItems <= maxItems.value <= MaxMaxItems
    }

    /** `getMaxItemsOrDefault()`. */
    function MaxItemsOrDefault(): (n: int)
      ensures maxItems.Some? ==> n == maxItems.value
      ensures maxItems.None? ==> n == DefaultMaxItems
      ensures Valid() ==> MinMaxItems <= n <= MaxMaxItems
    {
      if maxItems.Some? then maxItems.value else DefaultMaxItems
    }

    /** `parseFromDate()`. */
    function ParseFromDate(): (r: Result<Option<OffsetDateTime>, ConnectorError>)
      ensures fromDate.None? ==> r == Success(None)
      ensures r.Failure? ==> r.error.code == InvalidDateFormat
                             && r.error.message == FormatMessage("fromDate", fromDate.value)
    {
      ParseDate(fromDate, "fromDate")
    }

    /** `parseToDate()`. */
    function ParseToDate(): (r: Result<Option<OffsetDateTime>, ConnectorError>)
      ensures toDate.None? ==> r == Success(None)
      ensures r.Failure? ==> r.error.code == InvalidDateFormat
                             && r.error.message == FormatMessage("toDate", toDate.value)
    {
      ParseDate(toDate, "toDate")
    }
  }

  const FormatRequirement: string := " must follow ISO8601 format"
  const SupportedFormats: string :=
    ". Supported formats: date (e.g., 2025-01-01), datetime (e.g., 2025-01-01T00:00:00Z). Received: "

  /** The `INVALID_DATE_FORMAT` message for `fieldName`, quoting the input as received. */
  function FormatMessage(fieldName: string, received: string): string
  {
    fieldName + FormatRequirement + SupportedFormats + received
  }

  /** The trimmed input cut at its first `[` (a zone identifier such as `[GMT]`). */
  function Normalize(s: string): (r: string)
    ensures '[' !in r
    ensures r <= Trim(s)
    ensures '[' !in Trim(s) ==> r == Trim(s)
    ensures '[' in Trim(s) ==> |r| < |Trim(s)| && Trim(s)[|r|] == '['
  {
    var t := Trim(s);
    var i := IndexOf(t, '[');
    if i >= 0 then t[..i] else t
  }

  /** `parseDate(dateString, fieldName)`: `None` for a null or blank input; otherwise the
      normalised text read as a date-time, or `INVALID_DATE_FORMAT`. */
  function ParseDate(dateString: Option<string>, fieldName: string): (r: Result<Option<OffsetDateTime>, ConnectorError>)
    ensures dateString.None? ==> r == Success(None)
    ensures r.Failure? ==> dateString.Some? && r.error == ConnectorError(InvalidDateFormat, FormatMessage(fieldName, dateString.value))
    ensures dateString.Some? && IsBlank(dateString.value) ==> r == Success(None)
    ensures dateString.Some? && !IsBlank(dateString.value) ==>
              (r.Success? <==> ReadDateTime(Normalize(dateString.value)).Some?)
    ensures r.Success? && r.value.Some? ==> dateString.Some? && r.value == ReadDateTime(Normalize(dateString.value))
  {
    if dateString.None? || IsBlank(dateString.value) then Success(None)
    else
      match ReadDateTime(Normalize(dateString.value))
      case Some(odt) => Success(Some(odt))
      case None => Failure(ConnectorError(InvalidDateFormat, FormatMessage(fieldName, dateString.value)))
  }

  /** The two attempts of `parseDate`: an offset date-time first, then a date taken at the
      start of its day in UTC. */
  function ReadDateTime(s: string): (r: Option<OffsetDateTime>)
    ensures ParseOffsetDateTime(s).Some? ==> r == ParseOffsetDateTime(s)
    ensures r.None? <==> ParseOffsetDateTime(s).None? && ParseLocalDate(s).None?
  {
    match ParseOffsetDateTime(s)
    case Some(odt) => Some(odt)
    case None =>
      match ParseLocalDate(s)
      case Some(date) => Some(AtStartOfDayUtc(date))
      case None => None
  }
}
