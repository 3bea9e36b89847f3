# RSS Feed Connector — a Dafny model

The model covers the outbound Camunda connector that reads an RSS or Atom feed and returns its
items. Given an `RssFeedRequest` (a feed URL, an optional `maxItems`, and optional `fromDate` and
`toDate` texts), `executeConnector` runs these steps in order:

1. It checks the URL with `URI.create`. The scheme must be `http`, `https` or `file`, in any case.
2. It reads both date bounds as ISO 8601 offset date-times. A bare date counts as the start of
   that day in UTC. A trailing zone identifier such as `[GMT]` is dropped.
3. It rejects a `fromDate` that is after `toDate`.
4. It fetches and parses the feed.
5. It keeps at most 500 entries (`SAFETY_LIMIT_ITEMS`) and converts each one to an `RssFeedItem`.
6. It keeps the items whose date lies within the bounds, both ends included.
7. It sorts the items by date text, newest first, with undated items last. It keeps the first
   `maxItems` (10 when absent).
8. It returns the items with `totalItems`, `filteredItems` and the feed's metadata.

Every failure the connector raises itself is a `ConnectorError(code, message)` with one of these
codes: `INVALID_URL`, `INVALID_DATE_FORMAT`, `INVALID_DATE_RANGE`, `FETCH_ERROR` or
`PARSE_ERROR`. Unchecked exceptions thrown by the HTTP client's request builder or by the feed
library escape uncaught; they lie inside the `fetch` step and are listed under "Left out".

The model is pure: datatypes, functions and lemmas. The source has no mutable state worth
modelling: `executeConnector` is a chain of calls and a Java stream. A Java `null` is `None`,
and a thrown `ConnectorException` is a `Failure`. Two steps are parameters of
`RssFeedConnector.ExecuteConnector`:

- `fetch : Uri -> Result<SyndFeed, ConnectorError>` stands for fetching and parsing the feed
  (HTTP, file and the syndication library).
- `formatDate : EpochMillis -> string` stands for `formatDate(Date)`.

Modules:

- `JavaText`: `trim`, `indexOf` and `compareTo` from `java.lang.String`, and an ASCII
  `equalsIgnoreCase`.
- `TimeFieldFacts`: the value of every accepted offset and time of day, for all digits.
- `IsoDates` and `IsoDateFacts`: the parsers `ISO_LOCAL_DATE` and `ISO_OFFSET_DATE_TIME`, with
  strict resolution and strict fields except for the offset, which `ISO_OFFSET_DATE_TIME` reads
  leniently (`+01`, `+01:00` and `+01:00:00` are all accepted), and `isBefore`/`isAfter` on
  instants.
- `DateExamples`: the dates used in the connector's tests, as parsed values.
- `JavaUri`: the acceptance grammar of `java.net.URI` (RFC 2396, as `java.net.URI` applies it).
- `FeedRequest` and `FeedRequestFacts`: the request record and `parseDate`.
- `Syndication` and `Dto`: the feed the library hands over, and the records the connector returns.
- `ItemOrder`: the comparator and a stable sort.
- `RssFeedConnector`: the pipeline itself.
- `SelectionFacts` and `ConnectorProperties`: what the pipeline promises.

`totalItems` follows the code, not the documentation. The comment on `RssFeedResult.totalItems`
says it counts the feed "before any filtering". The code sets it to the number of entries left
after the 500-entry safety cap (RssFeedConnectorFunction.java lines 121-126), and the model does
the same.

## Model

| member | source | states |
|---|---|---|
| JavaText.Trim | src/main/java/io/camunda/connector/rssfeed/dto/RssFeedRequest.java:124 | `trim()` leaves text that neither starts nor ends with a character at or below U+0020, and is never longer than its input; `TrimIsInfix` and `TrimUnique` pin the exact result |
| JavaText.TrimIsInfix | src/main/java/io/camunda/connector/rssfeed/dto/RssFeedRequest.java:124 | `trim()` is an infix of its input, and every character before and after that infix is at or below U+0020 |
| JavaText.TrimUnique | src/main/java/io/camunda/connector/rssfeed/dto/RssFeedRequest.java:124 | any infix with only such characters around it and a kept character at each end is exactly what `trim()` returns |
| JavaText.TrimIdempotent | src/main/java/io/camunda/connector/rssfeed/dto/RssFeedRequest.java:124 | trimming trimmed text changes nothing |
| JavaText.BlankIffAllTrimmable | src/main/java/io/camunda/connector/rssfeed/dto/RssFeedRequest.java:120 | `trim().isEmpty()` holds exactly when every character is at or below U+0020 |
| JavaText.TrimKeepsUpTo | src/main/java/io/camunda/connector/rssfeed/dto/RssFeedRequest.java:124 | trimming text that starts with a kept character keeps everything up to any later kept character |
| JavaText.IndexOf | src/main/java/io/camunda/connector/rssfeed/dto/RssFeedRequest.java:128-129 | `indexOf('[')` is -1 exactly when there is no `[`; otherwise it is the first position of `[` |
| JavaText.CompareTo | src/main/java/io/camunda/connector/rssfeed/RssFeedConnectorFunction.java:141-143 | `String.compareTo`; its properties are stated by `CompareToFlips`, `CompareToZeroIffEqual` and `CompareToTransitive` |
| JavaText.CompareToFlips | src/main/java/io/camunda/connector/rssfeed/RssFeedConnectorFunction.java:141-143 | `compareTo` is antisymmetric: swapping the operands negates it |
| JavaText.CompareToZeroIffEqual | src/main/java/io/camunda/connector/rssfeed/RssFeedConnectorFunction.java:141-143 | `compareTo` is zero exactly for equal strings |
| JavaText.CompareToTransitive | src/main/java/io/camunda/connector/rssfeed/RssFeedConnectorFunction.java:141-143 | `compareTo <= 0` is transitive |
| IsoDates.Offset | src/main/java/io/camunda/connector/rssfeed/dto/RssFeedRequest.java:134 | the offset of `ISO_OFFSET_DATE_TIME`, read leniently; its own contract keeps it within 18 hours either way, and the `TimeFieldFacts` lemmas below give its value for every accepted text |
| TimeFieldFacts.OffsetHours | src/main/java/io/camunda/connector/rssfeed/dto/RssFeedRequest.java:134 | `+HH` / `-HH` is that many hours east / west, for any hour up to 18 |
| TimeFieldFacts.OffsetHoursMinutes | src/main/java/io/camunda/connector/rssfeed/dto/RssFeedRequest.java:134 | `±HH:mm` is that many hours and minutes, for hours up to 23 and minutes up to 59 within 18 hours |
| TimeFieldFacts.OffsetHoursMinutesSeconds | src/main/java/io/camunda/connector/rssfeed/dto/RssFeedRequest.java:134 | `±HH:mm:ss` is that many hours, minutes and seconds, each field in range, within 18 hours |
| TimeFieldFacts.OffsetShape | src/main/java/io/camunda/connector/rssfeed/dto/RssFeedRequest.java:134 | every accepted offset is `Z`, `z`, or a sign, two digits, and optionally `:` and two digits once or twice, so the three value lemmas cover every accepted offset |
| TimeFieldFacts.OffsetHourRefused | src/main/java/io/camunda/connector/rssfeed/dto/RssFeedRequest.java:134 | an hour above 18 is refused, whatever follows |
| TimeFieldFacts.OffsetMinuteRefused | src/main/java/io/camunda/connector/rssfeed/dto/RssFeedRequest.java:134 | a minute field above 59 is refused, whatever follows |
| TimeFieldFacts.OffsetSecondRefused | src/main/java/io/camunda/connector/rssfeed/dto/RssFeedRequest.java:134 | a second field above 59 is refused, whatever follows |
| TimeFieldFacts.TimeHoursMinutes | src/main/java/io/camunda/connector/rssfeed/dto/RssFeedRequest.java:134 | `HH:mm` not followed by a seconds section reads as that hour and minute, zero seconds, with the rest left over |
| TimeFieldFacts.TimeWithSeconds | src/main/java/io/camunda/connector/rssfeed/dto/RssFeedRequest.java:134 | `HH:mm:ss` reads as that hour, minute and second, with the nanoseconds and the rest the fraction gives |
| TimeFieldFacts.TimeFieldRefused | src/main/java/io/camunda/connector/rssfeed/dto/RssFeedRequest.java:134 | an hour above 23 or a minute above 59 is refused |
| TimeFieldFacts.TimeSecondRefused | src/main/java/io/camunda/connector/rssfeed/dto/RssFeedRequest.java:134 | a second above 59 is refused |
| TimeFieldFacts.FractionDigits | src/main/java/io/camunda/connector/rssfeed/dto/RssFeedRequest.java:134 | `.` and up to nine digits give those digits scaled to nanoseconds, provided a run shorter than nine is not followed by another digit |
| IsoDates.ParseOffsetDateTime | src/main/java/io/camunda/connector/rssfeed/dto/RssFeedRequest.java:134 | `OffsetDateTime.parse(s, ISO_OFFSET_DATE_TIME)`; `IsoDateFacts.DateTimeParts` states what it returns and `IsoDateFacts.ParsedNanoInRange` that its nanosecond is below one second |
| IsoDates.ParseLocalDate | src/main/java/io/camunda/connector/rssfeed/dto/RssFeedRequest.java:139 | `LocalDate.parse(s, ISO_LOCAL_DATE)`; `IsoDateFacts.PlainDate` and `IsoDateFacts.DateIsNotDateTime` state what it accepts |
| IsoDates.IsBefore | src/main/java/io/camunda/connector/rssfeed/RssFeedConnectorFunction.java:363 | `isBefore`; `IsoDateFacts.BeforeIsEarlierInstant` states that it compares instants |
| IsoDates.IsAfter | src/main/java/io/camunda/connector/rssfeed/RssFeedConnectorFunction.java:110 | `isAfter`, the converse of `isBefore` |
| IsoDateFacts.DateTimeParts | src/main/java/io/camunda/connector/rssfeed/dto/RssFeedRequest.java:134 | a date, `T`, a time and an offset parse as exactly that offset date-time |
| IsoDateFacts.DateIsNotDateTime | src/main/java/io/camunda/connector/rssfeed/dto/RssFeedRequest.java:132-140 | a bare date is never an offset date-time, so the first attempt fails and the date fallback runs |
| IsoDateFacts.DateIsMidnightUtc | src/main/java/io/camunda/connector/rssfeed/dto/RssFeedRequest.java:139-140 | `<date>T00:00Z` parses as the start of that date in UTC |
| IsoDateFacts.PlainDate | src/main/java/io/camunda/connector/rssfeed/dto/RssFeedRequest.java:139 | `yyyy-MM-dd` with a valid month and day parses as that date |
| IsoDateFacts.DigitsBelow | src/main/java/io/camunda/connector/rssfeed/dto/RssFeedRequest.java:134 | `n` digits read as a value below `10^n` |
| IsoDateFacts.FractionBelowSecond | src/main/java/io/camunda/connector/rssfeed/dto/RssFeedRequest.java:134 | a fraction of up to nine digits scales to fewer than 10^9 nanoseconds |
| IsoDateFacts.TimePartNano | src/main/java/io/camunda/connector/rssfeed/dto/RssFeedRequest.java:134 | a parsed time of day has its nanosecond below one second |
| IsoDateFacts.ParsedNanoInRange | src/main/java/io/camunda/connector/rssfeed/dto/RssFeedRequest.java:134 | every offset date-time the parser returns has its nanosecond below one second |
| IsoDateFacts.BeforeIsEarlierInstant | src/main/java/io/camunda/connector/rssfeed/RssFeedConnectorFunction.java:363 | `isBefore` holds exactly when the first instant, in nanoseconds since the epoch, is earlier, whatever the offsets |
| IsoDateFacts.SameMonthDays | src/main/java/io/camunda/connector/rssfeed/RssFeedConnectorFunction.java:110 | two days of one month are as many epoch days apart as their day numbers |
| DateExamples.BareDateExample | src/main/java/io/camunda/connector/rssfeed/dto/RssFeedRequest.java:110 | `2025-10-25` is the date 2025-10-25 and is not an offset date-time |
| DateExamples.NewYearDate | src/main/java/io/camunda/connector/rssfeed/dto/RssFeedRequest.java:111 | `2025-01-01` is the date 2025-01-01 |
| DateExamples.October20Date | src/test/java/io/camunda/connector/rssfeed/RssFeedConnectorFunctionTest.java:447 | `2025-10-20` is the date 2025-10-20 |
| DateExamples.MidnightWithSeconds | src/main/java/io/camunda/connector/rssfeed/dto/RssFeedRequest.java:111 | `00:00:00` is midnight with nothing left over |
| DateExamples.MillisFraction | src/main/java/io/camunda/connector/rssfeed/dto/RssFeedRequest.java:112 | `.434` is 434 000 000 nanoseconds |
| DateExamples.TimeWithMillis | src/main/java/io/camunda/connector/rssfeed/dto/RssFeedRequest.java:112 | `12:20:31.434` is 12:20:31 and 434 ms |
| DateExamples.MidnightZuluExample | src/main/java/io/camunda/connector/rssfeed/dto/RssFeedRequest.java:111 | `2025-01-01T00:00:00Z` is 2025-01-01 at midnight, offset 0 |
| DateExamples.FractionalZuluExample | src/main/java/io/camunda/connector/rssfeed/dto/RssFeedRequest.java:112 | `2025-10-25T12:20:31.434Z` is that date and time at offset 0 |
| DateExamples.HourOffset | src/main/java/io/camunda/connector/rssfeed/dto/RssFeedRequest.java:134 | the lenient offset `+01` is one hour east, 3600 seconds |
| DateExamples.HourOffsetExample | src/main/java/io/camunda/connector/rssfeed/dto/RssFeedRequest.java:134 | `2025-01-01T00:00:00+01` is 2025-01-01 at midnight, offset +01:00 |
| DateExamples.NotADateExample | src/test/java/io/camunda/connector/rssfeed/RssFeedConnectorFunctionTest.java:103 | `not-a-date` is neither an offset date-time nor a date |
| FeedRequest.RssFeedRequest.MaxItemsOrDefault | src/main/java/io/camunda/connector/rssfeed/dto/RssFeedRequest.java:83-85 | the given `maxItems`, or 10 when absent; always within 1..500 for a request that passed bean validation |
| FeedRequest.RssFeedRequest.ParseFromDate | src/main/java/io/camunda/connector/rssfeed/dto/RssFeedRequest.java:93-95 | an absent `fromDate` is no bound; a failure is `INVALID_DATE_FORMAT` naming `fromDate` and quoting the input |
| FeedRequest.RssFeedRequest.ParseToDate | src/main/java/io/camunda/connector/rssfeed/dto/RssFeedRequest.java:103-105 | an absent `toDate` is no bound; a failure is `INVALID_DATE_FORMAT` naming `toDate` and quoting the input |
| FeedRequest.Normalize | src/main/java/io/camunda/connector/rssfeed/dto/RssFeedRequest.java:124-130 | the normal form is the trimmed input up to its first `[`: a prefix of the trimmed input with no `[`, followed there by `[` when the trimmed input has one, and the whole trimmed input when it has none |
| FeedRequest.ParseDate | src/main/java/io/camunda/connector/rssfeed/dto/RssFeedRequest.java:119-150 | `null` or blank text gives no bound; other text succeeds exactly when its normal form reads as a date-time, and the bound is that date-time; every failure is `INVALID_DATE_FORMAT` with the message for that field and the untrimmed input |
| FeedRequest.ReadDateTime | src/main/java/io/camunda/connector/rssfeed/dto/RssFeedRequest.java:132-140 | an offset date-time wins; the text is unreadable exactly when it is neither an offset date-time nor a date |
| FeedRequestFacts.NoBoundIffBlank | src/main/java/io/camunda/connector/rssfeed/dto/RssFeedRequest.java:120-122 | a present input gives no bound exactly when all of its characters are whitespace |
| FeedRequest.FormatMessage | src/main/java/io/camunda/connector/rssfeed/dto/RssFeedRequest.java:142-145 | the `INVALID_DATE_FORMAT` message; `FeedRequestFacts.InvalidDateMessage` states its parts |
| FeedRequestFacts.InvalidDateMessage | src/main/java/io/camunda/connector/rssfeed/dto/RssFeedRequest.java:142-145 | the message starts with the field name, says "ISO8601 format" and ends with the input as received |
| FeedRequestFacts.NormalizeTrimmed | src/main/java/io/camunda/connector/rssfeed/dto/RssFeedRequest.java:124-130 | trimmed text without `[` is left as it is |
| FeedRequestFacts.NormalizeCutsAtBracket | src/main/java/io/camunda/connector/rssfeed/dto/RssFeedRequest.java:128-130 | everything from the first `[` on is dropped |
| FeedRequestFacts.ZoneIdIgnored | src/main/java/io/camunda/connector/rssfeed/dto/RssFeedRequest.java:126-130 | appending `[zone]` never changes whether the text parses, nor the date-time it parses as |
| FeedRequestFacts.ReadsTrimmed | src/main/java/io/camunda/connector/rssfeed/dto/RssFeedRequest.java:132-147 | trimmed text without `[` is read as it stands, and fails when it is neither form |
| FeedRequestFacts.BareDateIsMidnightUtc | src/main/java/io/camunda/connector/rssfeed/dto/RssFeedRequest.java:135-140 | a bare date reads as 00:00 UTC of that day, the same as `<date>T00:00Z` |
| FeedRequestFacts.MidnightZuluReads | src/main/java/io/camunda/connector/rssfeed/dto/RssFeedRequest.java:132-134 | `<date>T00:00:00Z` reads as the start of that date in UTC |
| FeedRequestFacts.ZonedDateTimeReads | src/main/java/io/camunda/connector/rssfeed/dto/RssFeedRequest.java:126-134 | an offset date-time followed by `[zone]` reads as the offset date-time alone |
| FeedRequestFacts.PaddingIgnored | src/main/java/io/camunda/connector/rssfeed/dto/RssFeedRequest.java:120-124 | surrounding whitespace never changes whether a date parses, nor the bound it gives |
| FeedRequestFacts.PaddedDateExample | src/main/java/io/camunda/connector/rssfeed/dto/RssFeedRequest.java:124 | ` 2025-10-25 ` reads as 2025-10-25T00:00Z |
| FeedRequestFacts.HourOffsetReads | src/main/java/io/camunda/connector/rssfeed/dto/RssFeedRequest.java:134 | `2025-01-01T00:00:00+01` reads as 2025-01-01T00:00+01:00 |
| FeedRequestFacts.BoundNanoInRange | src/main/java/io/camunda/connector/rssfeed/dto/RssFeedRequest.java:119-150 | every bound `parseDate` yields has its nanosecond below one second |
| FeedRequestFacts.DateOnlyExample | src/test/java/io/camunda/connector/rssfeed/RssFeedConnectorFunctionTest.java:114-123 | `2025-10-25` reads as 2025-10-25T00:00Z |
| FeedRequestFacts.DateTimeExample | src/test/java/io/camunda/connector/rssfeed/RssFeedConnectorFunctionTest.java:138-147 | `2025-01-01T00:00:00Z` reads as that instant |
| FeedRequestFacts.ZoneIdExample | src/test/java/io/camunda/connector/rssfeed/RssFeedConnectorFunctionTest.java:126-135 | `2025-10-25T12:20:31.434Z[GMT]` (any zone) reads as 2025-10-25T12:20:31.434Z |
| FeedRequestFacts.NotADateRejected | src/test/java/io/camunda/connector/rssfeed/RssFeedConnectorFunctionTest.java:97-111 | `not-a-date` as `fromDate` fails with `INVALID_DATE_FORMAT` and the exact message |
| JavaUri.Parse | src/main/java/io/camunda/connector/rssfeed/RssFeedConnectorFunction.java:165 | `URI.create`; `ParseIsLossless` and `SpaceIsMalformed` state what every accepted text looks like and what is refused, `ServerUrlAccepted` and `PathUrlAccepted` that `scheme://host/path` and `scheme:/path` are accepted with exactly those components |
| JavaUri.ParseIsLossless | src/main/java/io/camunda/connector/rssfeed/RssFeedConnectorFunction.java:165 | a URI that `URI.create` accepts is well formed, and its components render back to the input text |
| JavaUri.SpaceIsMalformed | src/main/java/io/camunda/connector/rssfeed/RssFeedConnectorFunction.java:165 | no text containing a space is accepted |
| JavaUri.ValidHasNoSpace | src/main/java/io/camunda/connector/rssfeed/RssFeedConnectorFunction.java:165 | no component that the grammar admits contains a space |
| JavaUri.SchemeIsPrefix | src/main/java/io/camunda/connector/rssfeed/RssFeedConnectorFunction.java:167 | the scheme of an accepted `scheme:rest` is the text before the first colon |
| JavaUri.SchemeColonAfterScheme | src/main/java/io/camunda/connector/rssfeed/RssFeedConnectorFunction.java:167 | the scheme colon is the first colon after a run of scheme characters |
| JavaUri.AdmittedValid | src/main/java/io/camunda/connector/rssfeed/RssFeedConnectorFunction.java:165 | a component made only of characters its class admits passes the character check |
| JavaUri.ScanStop | src/main/java/io/camunda/connector/rssfeed/RssFeedConnectorFunction.java:165 | the scan for a component's end stops at the first stop character, or at the end of the text |
| JavaUri.PathAccepted | src/main/java/io/camunda/connector/rssfeed/RssFeedConnectorFunction.java:165 | a path of admitted characters, with no `?` or `#`, is taken whole as the path, with no query and nothing left |
| JavaUri.AuthorityAccepted | src/main/java/io/camunda/connector/rssfeed/RssFeedConnectorFunction.java:165 | a non-empty host of admitted characters followed by an empty or `/`-led path splits into exactly that host and path |
| JavaUri.SchemeSplit | src/main/java/io/camunda/connector/rssfeed/RssFeedConnectorFunction.java:165-167 | for a valid scheme, `scheme:rest` parses as `rest` parsed after that scheme |
| JavaUri.ServerUrlAccepted | src/main/java/io/camunda/connector/rssfeed/RssFeedConnectorFunction.java:165-167 | `scheme://host/path` built from admitted characters is accepted, with that scheme, host and path, no query and no fragment |
| JavaUri.PathUrlAccepted | src/main/java/io/camunda/connector/rssfeed/RssFeedConnectorFunction.java:165-167 | `scheme:/path` (no `//`) built from admitted characters is accepted, with that scheme and path, no authority, query or fragment |
| RssFeedConnector.IsSupportedScheme | src/main/java/io/camunda/connector/rssfeed/RssFeedConnectorFunction.java:168-169 | `http`, `https` or `file` in any case; `ValidateAndParseUrl`'s contract, `ConnectorProperties.SupportedIsScheme` and `ConnectorProperties.SchemeDecides` state its effect |
| RssFeedConnector.ValidateAndParseUrl | src/main/java/io/camunda/connector/rssfeed/RssFeedConnectorFunction.java:163-182 | success exactly when the URL parses and has a scheme that is `http`, `https` or `file` in any case; the result is the parsed URI; every failure is `INVALID_URL` |
| RssFeedConnector.Take | src/main/java/io/camunda/connector/rssfeed/RssFeedConnectorFunction.java:122-124 | `limit(n)` keeps a prefix of length `min(size, n)` |
| RssFeedConnector.PublishedText | src/main/java/io/camunda/connector/rssfeed/RssFeedConnectorFunction.java:278-283 | the published date, else the updated date, formatted; stated in `ConvertToRssFeedItem`'s contract |
| RssFeedConnector.CategoryNames | src/main/java/io/camunda/connector/rssfeed/RssFeedConnectorFunction.java:285-291 | the names of a category list: never more than the categories, none of them empty; `SelectionFacts.CategoryNamesMember` and `CategoryNamesAppend` state which and in what order |
| RssFeedConnector.CleanCategories | src/main/java/io/camunda/connector/rssfeed/RssFeedConnectorFunction.java:285-292 | the entry's category names, or the empty list when it has no category list |
| RssFeedConnector.ConvertToRssFeedItem | src/main/java/io/camunda/connector/rssfeed/RssFeedConnectorFunction.java:277-306 | title, link, author and guid are copied; the description is the content's value; the date is the published date, else the updated date, formatted, and absent only when both are; the categories are the category names, or none when the entry has no list |
| RssFeedConnector.ConvertAll | src/main/java/io/camunda/connector/rssfeed/RssFeedConnectorFunction.java:138-139 | `map(convertToRssFeedItem)` converts each entry at its own position |
| RssFeedConnector.ExtractFeedMetadata | src/main/java/io/camunda/connector/rssfeed/RssFeedConnectorFunction.java:314-325 | title, description and link are copied; `lastBuildDate` is the formatted published date, absent exactly when that is |
| RssFeedConnector.MatchesDateFilter | src/main/java/io/camunda/connector/rssfeed/RssFeedConnectorFunction.java:347-378 | `matchesDateFilter`; `SelectionFacts.InclusiveBounds`, `SelectionFacts.FilterWithoutBounds` and `ConnectorProperties.RequestBoundsInclusive` state what it keeps |
| RssFeedConnector.FilterByDate | src/main/java/io/camunda/connector/rssfeed/RssFeedConnectorFunction.java:140 | the `filter` step; `SelectionFacts.FilterMember`, `FilterAppend` and `FilterLength` state what it keeps and in what order |
| RssFeedConnector.RangeInverted | src/main/java/io/camunda/connector/rssfeed/RssFeedConnectorFunction.java:110 | both bounds present and `fromDate` after `toDate`; `ConnectorProperties.InvertedRangeRejected` and `EqualBoundsAccepted` state its effect |
| RssFeedConnector.RangeError | src/main/java/io/camunda/connector/rssfeed/RssFeedConnectorFunction.java:111-114 | the `INVALID_DATE_RANGE` error quoting both inputs; `ConnectorProperties.InvertedRangeRejected` states it |
| RssFeedConnector.ExecuteConnector | src/main/java/io/camunda/connector/rssfeed/RssFeedConnectorFunction.java:101-154 | a result has `totalItems` at most 500 and `filteredItems` equal to the item count and at most `maxItems`; a bad URL fails with the URL check's error; `ConnectorProperties` states the rest |
| RssFeedConnector.SelectItems | src/main/java/io/camunda/connector/rssfeed/RssFeedConnectorFunction.java:138-145 | the stream never returns more than `maxItems` items |
| ItemOrder.CompareDates | src/main/java/io/camunda/connector/rssfeed/RssFeedConnectorFunction.java:141-143 | the `nullsLast(reverseOrder())` comparator; `CompareDatesFlips`, `CompareDatesZeroIffEqual` and `CompareDatesTransitive` state that it is a total preorder |
| ItemOrder.SortByDate | src/main/java/io/camunda/connector/rssfeed/RssFeedConnectorFunction.java:141-143 | the `sorted` step; `SortSorted`, `SortPermutes`, `SortStable` and `StableSortIsUnique` state what it returns |
| ItemOrder.CompareDatesFlips | src/main/java/io/camunda/connector/rssfeed/RssFeedConnectorFunction.java:141-143 | the `nullsLast(reverseOrder())` comparator is antisymmetric |
| ItemOrder.CompareDatesZeroIffEqual | src/main/java/io/camunda/connector/rssfeed/RssFeedConnectorFunction.java:141-143 | the comparator ties exactly the items with the same date text, or with none |
| ItemOrder.CompareDatesTransitive | src/main/java/io/camunda/connector/rssfeed/RssFeedConnectorFunction.java:141-143 | the comparator is transitive |
| ItemOrder.InsertPermutes | src/main/java/io/camunda/connector/rssfeed/RssFeedConnectorFunction.java:141-143 | inserting an item adds exactly that item |
| ItemOrder.InsertSorted | src/main/java/io/camunda/connector/rssfeed/RssFeedConnectorFunction.java:141-143 | inserting into a sorted sequence keeps it sorted |
| ItemOrder.SortSorted | src/main/java/io/camunda/connector/rssfeed/RssFeedConnectorFunction.java:141-143 | the sort's output is ordered by the comparator |
| ItemOrder.SortPermutes | src/main/java/io/camunda/connector/rssfeed/RssFeedConnectorFunction.java:141-143 | the sort's output is a permutation of its input |
| ItemOrder.SortKeepsItems | src/main/java/io/camunda/connector/rssfeed/RssFeedConnectorFunction.java:141-143 | the sort keeps the length and exactly the same items |
| ItemOrder.InsertStable | src/main/java/io/camunda/connector/rssfeed/RssFeedConnectorFunction.java:141-143 | insertion places an item before the items of its date that were already there |
| ItemOrder.SortStable | src/main/java/io/camunda/connector/rssfeed/RssFeedConnectorFunction.java:141-143 | the sort is stable: items with the same date keep their input order |
| ItemOrder.WithDateMember | src/main/java/io/camunda/connector/rssfeed/RssFeedConnectorFunction.java:141-143 | the items of one date are exactly the input's items with that date |
| ItemOrder.StableSortIsUnique | src/main/java/io/camunda/connector/rssfeed/RssFeedConnectorFunction.java:141-143 | any sorted sequence with the input's items in the input's order within each date equals the sort's output, so every stable sort (`List.sort`'s merge sort among them) gives the same list |
| ItemOrder.SortedByDatesEqual | src/main/java/io/camunda/connector/rssfeed/RssFeedConnectorFunction.java:141-143 | two sorted sequences that agree on the items of every date are equal |
| ItemOrder.SortedMeans | src/main/java/io/camunda/connector/rssfeed/RssFeedConnectorFunction.java:141-143 | sorted means undated items come after all dated ones, and dated items run from the greatest date text to the least |
| SelectionFacts.FilterMember | src/main/java/io/camunda/connector/rssfeed/RssFeedConnectorFunction.java:140 | the filter keeps an item exactly when it matches |
| SelectionFacts.FilterAppend | src/main/java/io/camunda/connector/rssfeed/RssFeedConnectorFunction.java:140 | the filter keeps the order of the items |
| SelectionFacts.FilterLength | src/main/java/io/camunda/connector/rssfeed/RssFeedConnectorFunction.java:140 | the filter never adds items |
| SelectionFacts.FilterWithoutBounds | src/main/java/io/camunda/connector/rssfeed/RssFeedConnectorFunction.java:349-351 | without bounds nothing is filtered out |
| SelectionFacts.InclusiveBounds | src/main/java/io/camunda/connector/rssfeed/RssFeedConnectorFunction.java:347-378 | undated or unparseable items always match; a parsed date matches exactly when `fromDate <= date <= toDate` as instants, both ends included, for any bounds whose nanosecond is below one second |
| SelectionFacts.PrefixComesFirst | src/main/java/io/camunda/connector/rssfeed/RssFeedConnectorFunction.java:144 | the first `n` items of a sorted list are sorted and may precede every item left out |
| SelectionFacts.SelectedAreSortedMatches | src/main/java/io/camunda/connector/rssfeed/RssFeedConnectorFunction.java:138-145 | the returned items are sorted, and each one is a converted entry that matches the date filter |
| SelectionFacts.SelectedAreNewest | src/main/java/io/camunda/connector/rssfeed/RssFeedConnectorFunction.java:141-144 | every matching item left out may come after each returned one; when at most `maxItems` items match, all of them are returned |
| SelectionFacts.SelectedCount | src/main/java/io/camunda/connector/rssfeed/RssFeedConnectorFunction.java:138-147 | the count is the smaller of the number of matching items and `maxItems`; without bounds, the smaller of the number of entries and `maxItems` |
| SelectionFacts.SelectedKeepsFeedOrder | src/main/java/io/camunda/connector/rssfeed/RssFeedConnectorFunction.java:141-143 | when nothing is cut, items with the same date text come back in feed order |
| SelectionFacts.CategoryNamesAppend | src/main/java/io/camunda/connector/rssfeed/RssFeedConnectorFunction.java:285-291 | the category names keep the list's order |
| SelectionFacts.CategoryNamesMember | src/main/java/io/camunda/connector/rssfeed/RssFeedConnectorFunction.java:285-291 | a name is listed exactly when it is non-empty and some non-null category carries it |
| ConnectorProperties.NoFetchBeforeChecks | src/main/java/io/camunda/connector/rssfeed/RssFeedConnectorFunction.java:101-118 | a call that fails a check fails whatever the feed would have been: nothing is fetched first |
| ConnectorProperties.SucceedsIff | src/main/java/io/camunda/connector/rssfeed/RssFeedConnectorFunction.java:101-154 | a call succeeds exactly when every check passes and the feed is fetched and parsed |
| ConnectorProperties.ErrorCodeNamesTheStep | src/main/java/io/camunda/connector/rssfeed/RssFeedConnectorFunction.java:101-118 | each error code arises exactly when its own step fails and the earlier steps pass |
| ConnectorProperties.FailureMessages | src/main/java/io/camunda/connector/rssfeed/RssFeedConnectorFunction.java:101-118 | the exact error of each failing step, in the order the steps run |
| ConnectorProperties.CallOnFeed | src/main/java/io/camunda/connector/rssfeed/RssFeedConnectorFunction.java:118-153 | on a fetched feed, `totalItems` is the entry count capped at 500, the items are the selected ones, `filteredItems` counts them and is at most `min(maxItems, totalItems)`, and the metadata is the feed's |
| ConnectorProperties.NoBoundsKeepsAll | src/main/java/io/camunda/connector/rssfeed/RssFeedConnectorFunction.java:121-147 | without bounds `filteredItems` is `min(totalItems, maxItems)` |
| ConnectorProperties.EmptyFeed | src/test/java/io/camunda/connector/rssfeed/RssFeedConnectorFunctionTest.java:46-61 | an empty feed gives no items and zero counts |
| ConnectorProperties.CappedByMaxItems | src/test/java/io/camunda/connector/rssfeed/RssFeedConnectorFunctionTest.java:259-275 | 15 entries asked for 5 give `totalItems` 15 and 5 items |
| ConnectorProperties.UrlWithSpaceRejected | src/main/java/io/camunda/connector/rssfeed/RssFeedConnectorFunction.java:175-181 | a URL with a space fails with `INVALID_URL` and the malformed-URL message |
| ConnectorProperties.MalformedUrlExample | src/test/java/io/camunda/connector/rssfeed/RssFeedConnectorFunctionTest.java:64-78 | `http://not a valid url` fails the call with `INVALID_URL` |
| ConnectorProperties.SupportedIsScheme | src/main/java/io/camunda/connector/rssfeed/RssFeedConnectorFunction.java:168-169 | `http`, `https` and `file` in any case are syntactically schemes |
| ConnectorProperties.SchemeDecides | src/main/java/io/camunda/connector/rssfeed/RssFeedConnectorFunction.java:167-174 | a parsed URL with an unsupported scheme fails with the scheme message; one with a supported scheme succeeds with that scheme |
| ConnectorProperties.ServerUrlVerdict | src/main/java/io/camunda/connector/rssfeed/RssFeedConnectorFunction.java:163-174 | a `scheme://host/path` URL of admitted characters passes the check with its parsed components when the scheme is `http`, `https` or `file` in any case, and fails with `INVALID_URL` and the scheme message otherwise |
| ConnectorProperties.BbcUrlAccepted | src/test/java/io/camunda/connector/rssfeed/RssFeedConnectorFunctionTest.java:398 | `https://feeds.bbci.co.uk/news/rss.xml` passes the check as scheme `https`, host `feeds.bbci.co.uk`, path `/news/rss.xml` |
| ConnectorProperties.FileUrlAccepted | src/test/java/io/camunda/connector/rssfeed/RssFeedConnectorFunctionTest.java:25-27 | a `file:` URL with an absolute path of admitted characters, the form a class-loader resource URL takes, passes the check with that path and no authority |
| ConnectorProperties.FtpUrlRejected | src/main/java/io/camunda/connector/rssfeed/RssFeedConnectorFunction.java:167-172 | `ftp://example.com/feed` parses but fails with `INVALID_URL` and the scheme message quoting it |
| ConnectorProperties.NotADateStopsTheCall | src/test/java/io/camunda/connector/rssfeed/RssFeedConnectorFunctionTest.java:97-111 | `fromDate` = `not-a-date` fails the call with `INVALID_DATE_FORMAT` |
| ConnectorProperties.InvertedRangeRejected | src/main/java/io/camunda/connector/rssfeed/RssFeedConnectorFunction.java:109-115 | `fromDate` after `toDate` fails with `INVALID_DATE_RANGE` and a message quoting both inputs |
| ConnectorProperties.RequestBoundsInclusive | src/main/java/io/camunda/connector/rssfeed/RssFeedConnectorFunction.java:347-378 | with the bounds a request yields, the filter keeps a parsed date exactly when it lies between them as instants, both ends included, and keeps undated or unparseable items |
| ConnectorProperties.InvertedIffLaterInstant | src/main/java/io/camunda/connector/rssfeed/RssFeedConnectorFunction.java:110 | a request's two bounds are an inverted range exactly when `toDate` is an earlier instant than `fromDate`, whatever their offsets |
| ConnectorProperties.SameInstantAccepted | src/main/java/io/camunda/connector/rssfeed/RssFeedConnectorFunction.java:110 | bounds naming the same instant in different offsets are not an inverted range |
| ConnectorProperties.EqualBoundsAccepted | src/main/java/io/camunda/connector/rssfeed/RssFeedConnectorFunction.java:110 | equal bounds are not an inverted range |
| ConnectorProperties.LaterDayRejected | src/test/java/io/camunda/connector/rssfeed/RssFeedConnectorFunctionTest.java:439-460 | a `fromDate` on a later day of the same month than `toDate` fails with `INVALID_DATE_RANGE` |
| ConnectorProperties.OctoberBoundsExample | src/test/java/io/camunda/connector/rssfeed/RssFeedConnectorFunctionTest.java:446-447 | the test's bounds read as 2025-10-25 and 2025-10-20 at 00:00 UTC |

## Left out

- Fetching the feed is left out: the HTTP client, the timeouts, the redirects, `file:` reading and the syndication library's XML parsing. It is the `fetch` parameter. Its only modelled effect is a feed or a `FETCH_ERROR` / `PARSE_ERROR`.
- `formatDate` is the `formatDate` parameter. Formatting an instant as UTC `ISO_OFFSET_DATE_TIME` text needs calendar arithmetic on milliseconds, which this model does not include.
- The following are outside the model: `execute`, the binding of process variables to the request, logging, the truncation warning and the process-instance key.
- Bean validation is not executed. `@Min(1)` / `@Max(500)` on `maxItems` appear as the `Valid()` precondition. `@NotBlank` on `feedUrl` is assumed: the model's `feedUrl` is a string, never null. Without that annotation a null `feedUrl` would make `URI.create(null)` (RssFeedConnectorFunction.java line 165) throw a `NullPointerException`, which the `catch (IllegalArgumentException)` at line 175 does not handle. An empty or blank URL needs no such assumption: it is rejected with `INVALID_URL` either way.
- JavaUri: IPv6 and IPvFuture literals in brackets are rejected, where `java.net.URI` accepts them. Server-based authority parsing (user info, host, port) is also outside the model; the authority is checked only as a registry name.
- JavaUri.ParseIsLossless: an empty authority `//` is `Some([])`, where Java gives `null`.
- JavaText.CompareTo compares characters as code points, not UTF-16 units. The two differ only for text outside the Basic Multilingual Plane.
- RssFeedConnector.IsSupportedScheme folds case only for ASCII letters. Scheme characters are ASCII, so a scheme never differs.
- ItemOrder.SortByDate is an insertion sort, not `List.sort`'s merge sort. `StableSortIsUnique` proves that every stable sort by this comparator gives the same list.
- FeedRequestFacts.ZoneIdIgnored is stated only for inputs that are trimmed and contain no `[`.
- JavaText.Trim: its own contract states only the shape of the result. `JavaText.TrimIsInfix` and `JavaText.TrimUnique` state that it is exactly the infix between the leading and trailing runs of characters at or below U+0020.
- `HttpRequest.newBuilder().uri(uri)` (RssFeedConnectorFunction.java lines 198-199) throws an unchecked `IllegalArgumentException` for an `http` or `https` URI without a host, or an opaque one, and the feed library's `build` may throw unchecked exceptions as well. The connector does not catch them, so they escape as they are rather than as a `ConnectorError`. The model folds them into the `fetch` parameter, which can only return a feed or a `ConnectorError`.
- FeedRequestFacts.ReadsTrimmed states only that unreadable text fails. The exact message comes from `FeedRequest.ParseDate`'s contract.
- ConnectorProperties.LaterDayRejected covers bounds on different days of one month. `OctoberBoundsExample` shows that the test's two date texts read as such bounds.
- The tests that depend on the contents of the feed fixtures are not modelled: parsing `test-feed.xml`, the live BBC feed and the per-item date checks. Those contents are not part of this model.
- Item dates are compared as text in the sort and as instants in the filter, as the source does. The model does not assume that the two orders agree.
