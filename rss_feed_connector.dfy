/** The connector's pipeline, `executeConnector`: URL check, date bounds, range check, fetch,
    safety cap, conversion, date filter, sort, user cap and assembly of the result.
    Fetching and parsing the feed, and formatting a `Date` as ISO 8601 text, are parameters. */
module RssFeedConnector {
  import opened Wrappers
  import opened JavaText
  import opened IsoDates
  import opened JavaUri
  import opened ConnectorErrors
  import opened FeedRequest
  import opened Dto
  import opened Syndication
  import opened ItemOrder

  /** `SAFETY_LIMIT_ITEMS`: at most this many entries of a feed are processed. */
  const SafetyLimitItems: int := 500

  const MalformedUrlMessage: string := "The provided URL is malformed: "
  const SchemeMessage: string := "URL must use HTTP, HTTPS, or file scheme. Received: "
  const RangeMessage: string := "fromDate must be before or equal to toDate. Received fromDate: "
  const RangeMessageTo: string := ", toDate: "

  /** `scheme.equalsIgnoreCase("http" | "https" | "file")`. */
  predicate IsSupportedScheme(scheme: string)
  {
    EqualsIgnoreCaseAscii(scheme, "http") || EqualsIgnoreCaseAscii(scheme, "https") || EqualsIgnoreCaseAscii(scheme, "file")
  }

  /** `validateAndParseUrl`: `URI.create`, then the scheme check. */
  function ValidateAndParseUrl(url: string): (r: Result<Uri, ConnectorError>)
    ensures r.Success? <==> Parse(url).Some? && Parse(url).value.scheme.Some? && IsSupportedScheme(Parse(url).value.scheme.value)
    ensures r.Success? ==> Parse(url) == Some(r.value)
    ensures r.Failure? ==> r.error.code == InvalidUrl
  {
    match Parse(url)
    case None => Failure(ConnectorError(InvalidUrl, MalformedUrlMessage + url))
    case Some(uri) =>
      if uri.scheme.None? || !IsSupportedScheme(uri.scheme.value) then
        Failure(ConnectorError(InvalidUrl, SchemeMessage + url))
      else Success(uri)
  }

  /** The first `n` elements of `s` (`Stream.limit(n)`), all of them when there are fewer. */
  function Take<T>(s: seq<T>, n: int): (r: seq<T>)
    requires n >= 0
    ensures |r| == Min(|s|, n)
    ensures r <= s
  {
    if |s| <= n then s else s[..n]
  }

  /** The published date, else the updated date, formatted; `None` when the entry has neither. */
  function PublishedText(entry: SyndEntry, formatDate: EpochMillis -> string): Option<string>
  {
    if entry.publishedDate.Some? then Some(formatDate(entry.publishedDate.value))
    else if entry.updatedDate.Some? then Some(formatDate(entry.updatedDate.value))
    else None
  }

  /** The name a category contributes: none for a null category, a null name or an empty name. */
  function CategoryName(c: Option<SyndCategory>): seq<string>
  {
    if c.Some? && c.value.name.Some? && c.value.name.value != [] then [c.value.name.value] else []
  }

  /** The surviving names of a category list, in list order. */
  function CategoryNames(cs: seq<Option<SyndCategory>>): (names: seq<string>)
    ensures |names| <= |cs|
    ensures forall k :: 0 <= k < |names| ==> names[k] != []
  {
    if cs == [] then [] else CategoryName(cs[0]) + CategoryNames(cs[1..])
  }

  /** The categories of an entry: the empty list when the entry has none. */
  function CleanCategories(cs: Option<seq<Option<SyndCategory>>>): seq<string>
  {
    if cs.Some? then CategoryNames(cs.value) else []
  }

  /** `convertToRssFeedItem`. */
  function ConvertToRssFeedItem(entry: SyndEntry, formatDate: EpochMillis -> string): (item: RssFeedItem)
    ensures item.title == entry.title && item.link == entry.link && item.author == entry.author
    ensures item.guid == entry.uri
    ensures item.description == (if entry.description.Some? then entry.description.value.value else None)
    ensures item.publishedDate.None? <==> entry.publishedDate.None? && entry.updatedDate.None?
    ensures entry.publishedDate.Some? ==> item.publishedDate == Some(formatDate(entry.publishedDate.value))
    ensures entry.publishedDate.None? && entry.updatedDate.Some? ==>
              item.publishedDate == Some(formatDate(entry.updatedDate.value))
    ensures entry.categories.None? ==> item.categories == []
    ensures entry.categories.Some? ==> item.categories == CategoryNames(entry.categories.value)
  {
    RssFeedItem(
      entry.title,
      entry.link,
      if entry.description.Some? then entry.description.value.value else None,
      PublishedText(entry, formatDate),
      entry.author,
      CleanCategories(entry.categories),
      entry.uri)
  }

  function ConvertAll(entries: seq<SyndEntry>, formatDate: EpochMillis -> string): (items: seq<RssFeedItem>)
    ensures |items| == |entries|
    ensures forall i :: 0 <= i < |entries| ==> items[i] == ConvertToRssFeedItem(entries[i], formatDate)
  {
    if entries == [] then [] else [ConvertToRssFeedItem(entries[0], formatDate)] + ConvertAll(entries[1..], formatDate)
  }

  /** `extractFeedMetadata`. */
  function ExtractFeedMetadata(feed: SyndFeed, formatDate: EpochMillis -> string): (m: FeedMetadata)
    ensures m.title == feed.title && m.description == feed.description && m.link == feed.link
    ensures m.lastBuildDate.None? <==> feed.publishedDate.None?
    ensures feed.publishedDate.Some? ==> m.lastBuildDate == Some(formatDate(feed.publishedDate.value))
  {
    FeedMetadata(
      feed.title,
      feed.description,
      feed.link,
      if feed.publishedDate.Some? then Some(formatDate(feed.publishedDate.value)) else None)
  }

  /** `matchesDateFilter`: without bounds everything matches; an undated item, or one whose
      date does not parse as an offset date-time, matches; otherwise the date must not be
      before `fromDate` nor after `toDate`. */
  predicate MatchesDateFilter(item: RssFeedItem, fromDate: Option<OffsetDateTime>, toDate: Option<OffsetDateTime>)
  {
    if fromDate.None? && toDate.None? then true
    else if item.publishedDate.None? then true
    else
      match ParseOffsetDateTime(item.publishedDate.value)
      case None => true
      case Some(d) =>
        !(fromDate.Some? && IsBefore(d, fromDate.value)) && !(toDate.Some? && IsAfter(d, toDate.value))
  }

  /** The items that match the filter, in their order. */
  function FilterByDate(items: seq<RssFeedItem>, fromDate: Option<OffsetDateTime>, toDate: Option<OffsetDateTime>): seq<RssFeedItem>
  {
    if items == [] then []
    else if MatchesDateFilter(items[0], fromDate, toDate) then [items[0]] + FilterByDate(items[1..], fromDate, toDate)
    else FilterByDate(items[1..], fromDate, toDate)
  }

  /** The range check: both bounds present and `fromDate` after `toDate`. */
  predicate RangeInverted(fromDate: Option<OffsetDateTime>, toDate: Option<OffsetDateTime>)
  {
    fromDate.Some? && toDate.Some? && IsAfter(fromDate.value, toDate.value)
  }

  /** The `INVALID_DATE_RANGE` message, quoting both inputs as received. */
  function RangeError(request: RssFeedRequest): ConnectorError
  {
    ConnectorError(InvalidDateRange,
      RangeMessage + JavaString(request.fromDate) + RangeMessageTo + JavaString(request.toDate))
  }

  /** The stream over the (capped) entries: convert, keep the matching items, sort them newest
      first, keep the first `maxItems`. */
  function SelectItems(
    entries: seq<SyndEntry>,
    fromDate: Option<OffsetDateTime>,
    toDate: Option<OffsetDateTime>,
    maxItems: int,
    formatDate: EpochMillis -> string): (items: seq<RssFeedItem>)
    requires maxItems >= 0
    ensures |items| <= maxItems
  {
    Take(SortByDate(FilterByDate(ConvertAll(entries, formatDate), fromDate, toDate)), maxItems)
  }

  /** `executeConnector`, given the fetch-and-parse step as `fetch` (a `FETCH_ERROR` or
      `PARSE_ERROR` failure, or the parsed feed) and the date formatter as `formatDate`. */
  function ExecuteConnector(
    request: RssFeedRequest,
    fetch: Uri -> Result<SyndFeed, ConnectorError>,
    formatDate: EpochMillis -> string): (r: Result<RssFeedResult, ConnectorError>)
    requires request.Valid()
    ensures r.Success? ==> r.value.totalItems <= SafetyLimitItems
                           && r.value.filteredItems == |r.value.items| <= request.MaxItemsOrDefault()
    ensures ValidateAndParseUrl(request.feedUrl).Failure? ==> r == Failure(ValidateAndParseUrl(request.feedUrl).error)
  {
    var uri :- ValidateAndParseUrl(request.feedUrl);
    var fromDate :- request.ParseFromDate();
    var toDate :- request.ParseToDate();
    if RangeInverted(fromDate, toDate) then
      Failure(RangeError(request))
    else
      var feed :- fetch(uri);
      var entries := Take(feed.entries, SafetyLimitItems);
      var items := SelectItems(entries, fromDate, toDate, request.MaxItemsOrDefault(), formatDate);
      Success(RssFeedResult(items, |entries|, |items|, ExtractFeedMetadata(feed, formatDate)))
  }
}
