/** What `executeConnector` promises as a whole: the checks run in a fixed order before anything
    is fetched, each failure carries the code of the step that failed, and a successful call
    reports the capped entry count, the returned items and the feed's metadata. */
module ConnectorProperties {
  import opened Wrappers
  import opened JavaText
  import opened IsoDates
  import opened IsoDateFacts
  import opened DateExamples
  import opened JavaUri
  import opened ConnectorErrors
  import opened FeedRequest
  import opened FeedRequestFacts
  import opened Dto
  import opened Syndication
  import opened RssFeedConnector
  import opened SelectionFacts

  /** The URL, both dates and their order are acceptable: the call goes on to fetch the feed. */
  predicate ChecksPass(request: RssFeedRequest)
  {
    && ValidateAndParseUrl(request.feedUrl).Success?
    && request.ParseFromDate().Success?
    && request.ParseToDate().Success?
    && !RangeInverted(request.ParseFromDate().value, request.ParseToDate().value)
  }

  /** A fetch-and-parse step that fails only as the connector's does, with `FETCH_ERROR` or `PARSE_ERROR`. */
  ghost predicate FetchErrorsOnly(fetch: Uri -> Result<SyndFeed, ConnectorError>)
  {
    forall u :: fetch(u).Failure? ==> fetch(u).error.code == FetchError || fetch(u).error.code == ParseError
  }

  /** Nothing is fetched unless every check passes: a call that fails a check fails the same
      way whatever the feed would have been. */
  lemma NoFetchBeforeChecks(
    request: RssFeedRequest,
    fetch: Uri -> Result<SyndFeed, ConnectorError>,
    otherFetch: Uri -> Result<SyndFeed, ConnectorError>,
    formatDate: EpochMillis -> string)
    requires request.Valid() && !ChecksPass(request)
    ensures ExecuteConnector(request, fetch, formatDate).Failure?
    ensures ExecuteConnector(request, fetch, formatDate) == ExecuteConnector(request, otherFetch, formatDate)
  {
  }

  /** A call succeeds exactly when every check passes and the feed is fetched and parsed. */
  lemma SucceedsIff(request: RssFeedRequest, fetch: Uri -> Result<SyndFeed, ConnectorError>, formatDate: EpochMillis -> string)
    requires request.Valid()
    ensures ExecuteConnector(request, fetch, formatDate).Success? <==>
            ChecksPass(request) && fetch(ValidateAndParseUrl(request.feedUrl).value).Success?
  {
  }

  /** The error code names the step that failed, and each step fails only with its own code:
      `INVALID_URL` for the URL, `INVALID_DATE_FORMAT` for either date, `INVALID_DATE_RANGE` for
      their order, `FETCH_ERROR` / `PARSE_ERROR` for the feed. */
  lemma ErrorCodeNamesTheStep(request: RssFeedRequest, fetch: Uri -> Result<SyndFeed, ConnectorError>, formatDate: EpochMillis -> string)
    requires request.Valid() && FetchErrorsOnly(fetch)
    ensures var r := ExecuteConnector(request, fetch, formatDate);
            var url := ValidateAndParseUrl(request.feedUrl);
            var fromDate := request.ParseFromDate();
            var toDate := request.ParseToDate();
            && (r.Failure? && r.error.code == InvalidUrl <==> url.Failure?)
            && (r.Failure? && r.error.code == InvalidDateFormat <==>
                  url.Success? && (fromDate.Failure? || toDate.Failure?))
            && (r.Failure? && r.error.code == InvalidDateRange <==>
                  url.Success? && fromDate.Success? && toDate.Success? && RangeInverted(fromDate.value, toDate.value))
            && (r.Failure? && (r.error.code == FetchError || r.error.code == ParseError) <==>
                  ChecksPass(request) && fetch(url.value).Failure?)
  {
  }

  /** The message of each failure: the URL as received, the offending date text under its
      field name, both date texts for an inverted range, or the fetch step's own error. */
  lemma FailureMessages(request: RssFeedRequest, fetch: Uri -> Result<SyndFeed, ConnectorError>, formatDate: EpochMillis -> string)
    requires request.Valid()
    ensures var r := ExecuteConnector(request, fetch, formatDate);
            var url := ValidateAndParseUrl(request.feedUrl);
            && (Parse(request.feedUrl).None? ==>
                  r == Failure(ConnectorError(InvalidUrl, MalformedUrlMessage + request.feedUrl)))
            && (Parse(request.feedUrl).Some? && url.Failure? ==>
                  r == Failure(ConnectorError(InvalidUrl, SchemeMessage + request.feedUrl)))
            && (url.Success? && request.ParseFromDate().Failure? ==>
                  r == Failure(ConnectorError(InvalidDateFormat, FormatMessage("fromDate", request.fromDate.value))))
            && (url.Success? && request.ParseFromDate().Success? && request.ParseToDate().Failure? ==>
                  r == Failure(ConnectorError(InvalidDateFormat, FormatMessage("toDate", request.toDate.value))))
            && (ChecksPass(request) && fetch(url.value).Failure? ==> r == Failure(fetch(url.value).error))
  {
  }

  /** A successful call on a fetched feed: at most 500 entries are looked at, `totalItems` counts
      them, `filteredItems` counts the returned items, which are the selected ones and at most
      `maxItems`, and the metadata is the feed's. */
  lemma CallOnFeed(
    request: RssFeedRequest,
    fetch: Uri -> Result<SyndFeed, ConnectorError>,
    formatDate: EpochMillis -> string,
    feed: SyndFeed)
    requires request.Valid() && ChecksPass(request)
    requires fetch(ValidateAndParseUrl(request.feedUrl).value) == Success(feed)
    ensures var r := ExecuteConnector(request, fetch, formatDate);
            && r.Success?
            && r.value.totalItems == Min(|feed.entries|, SafetyLimitItems)
            && r.value.items == SelectItems(Take(feed.entries, SafetyLimitItems),
                                  request.ParseFromDate().value, request.ParseToDate().value,
                                  request.MaxItemsOrDefault(), formatDate)
            && r.value.filteredItems == |r.value.items|
            && r.value.filteredItems <= Min(request.MaxItemsOrDefault(), r.value.totalItems)
            && r.value.metadata == ExtractFeedMetadata(feed, formatDate)
  {
    SelectedCount(Take(feed.entries, SafetyLimitItems), request.ParseFromDate().value, request.ParseToDate().value,
                  request.MaxItemsOrDefault(), formatDate);
  }

  /** Without date bounds every entry up to the caps comes back: `filteredItems` is the smaller
      of `totalItems` and `maxItems`. */
  lemma NoBoundsKeepsAll(
    request: RssFeedRequest,
    fetch: Uri -> Result<SyndFeed, ConnectorError>,
    formatDate: EpochMillis -> string,
    feed: SyndFeed)
    requires request.Valid() && request.fromDate.None? && request.toDate.None?
    requires ValidateAndParseUrl(request.feedUrl).Success?
    requires fetch(ValidateAndParseUrl(request.feedUrl).value) == Success(feed)
    ensures var r := ExecuteConnector(request, fetch, formatDate);
            r.Success? && r.value.filteredItems == Min(r.value.totalItems, request.MaxItemsOrDefault())
  {
    SelectedCount(Take(feed.entries, SafetyLimitItems), None, None, request.MaxItemsOrDefault(), formatDate);
  }

  /** An empty feed gives no items and zero counts. */
  lemma EmptyFeed(
    request: RssFeedRequest,
    fetch: Uri -> Result<SyndFeed, ConnectorError>,
    formatDate: EpochMillis -> string,
    feed: SyndFeed)
    requires request.Valid() && ChecksPass(request) && feed.entries == []
    requires fetch(ValidateAndParseUrl(request.feedUrl).value) == Success(feed)
    ensures var r := ExecuteConnector(request, fetch, formatDate);
            r.Success? && r.value.items == [] && r.value.totalItems == 0 && r.value.filteredItems == 0
  {
    CallOnFeed(request, fetch, formatDate, feed);
  }

  /** A feed of 15 entries asked for 5 items without bounds reports 15 entries and 5 items. */
  lemma CappedByMaxItems(
    request: RssFeedRequest,
    fetch: Uri -> Result<SyndFeed, ConnectorError>,
    formatDate: EpochMillis -> string,
    feed: SyndFeed)
    requires request.maxItems == Some(5) && request.fromDate.None? && request.toDate.None?
    requires ValidateAndParseUrl(request.feedUrl).Success? && |feed.entries| == 15
    requires fetch(ValidateAndParseUrl(request.feedUrl).value) == Success(feed)
    ensures var r := ExecuteConnector(request, fetch, formatDate);
            r.Success? && r.value.totalItems == 15 && r.value.filteredItems == 5 && |r.value.items| == 5
  {
    NoBoundsKeepsAll(request, fetch, formatDate, feed);
  }

  /** A URL containing a space is malformed, and the call fails before any date is read. */
  lemma UrlWithSpaceRejected(url: string)
    requires ' ' in url
    ensures ValidateAndParseUrl(url) == Failure(ConnectorError(InvalidUrl, MalformedUrlMessage + url))
  {
    SpaceIsMalformed(url);
  }

  /** `http://not a valid url` is rejected with `INVALID_URL`. */
  lemma MalformedUrlExample(
    request: RssFeedRequest,
    fetch: Uri -> Result<SyndFeed, ConnectorError>,
    formatDate: EpochMillis -> string)
    requires request.Valid() && request.feedUrl == "http://not a valid url"
    ensures ExecuteConnector(request, fetch, formatDate)
         == Failure(ConnectorError(InvalidUrl, MalformedUrlMessage + request.feedUrl))
  {
    assert request.feedUrl[10] == ' ';
    UrlWithSpaceRejected(request.feedUrl);
  }

  /** The letters of `http`, `https` or `file` in any case form a URI scheme. */
  lemma SupportedIsScheme(scheme: string)
    requires IsSupportedScheme(scheme)
    ensures IsScheme(scheme)
  {
    forall i | 0 <= i < |scheme|
      ensures IsAlpha(scheme[i])
    {
      assert 'a' <= AsciiLower(scheme[i]) <= 'z';
    }
  }

  /** A URL with a scheme other than `http`, `https` or `file` is rejected with `INVALID_URL`;
      one with a supported scheme, in any case, is accepted whenever it parses. */
  lemma SchemeDecides(scheme: string, rest: string)
    requires IsScheme(scheme)
    ensures var url := scheme + ":" + rest;
            && (!IsSupportedScheme(scheme) && Parse(url).Some? ==>
                  ValidateAndParseUrl(url) == Failure(ConnectorError(InvalidUrl, SchemeMessage + url)))
            && (IsSupportedScheme(scheme) && Parse(url).Some? ==>
                  ValidateAndParseUrl(url).Success? && ValidateAndParseUrl(url).value.scheme == Some(scheme))
  {
    SchemeIsPrefix(scheme, rest);
  }

  /** A `scheme://host/path` URL built from admitted characters gets the full verdict: parsed
      into its scheme, host and path when the scheme is supported, refused for its scheme
      otherwise. */
  lemma ServerUrlVerdict(scheme: string, host: string, path: string)
    requires IsScheme(scheme)
    requires host != [] && AllAdmitted(RegName, host)
    requires path == [] || path[0] == '/'
    requires AllAdmitted(PathText, path)
    ensures var url := scheme + ":" + ("//" + host + path);
            && (IsSupportedScheme(scheme) ==>
                  ValidateAndParseUrl(url) == Success(Uri(Some(scheme), Hierarchy(Some(host), path, None), None)))
            && (!IsSupportedScheme(scheme) ==>
                  ValidateAndParseUrl(url) == Failure(ConnectorError(InvalidUrl, SchemeMessage + url)))
  {
    ServerUrlAccepted(scheme, host, path);
  }

  /** The live feed URL of the connector's tests passes the URL check, with its host and path
      as the parsed components. */
  lemma BbcUrlAccepted(url: string)
    requires url == "https://feeds.bbci.co.uk/news/rss.xml"
    ensures ValidateAndParseUrl(url)
         == Success(Uri(Some("https"), Hierarchy(Some("feeds.bbci.co.uk"), "/news/rss.xml", None), None))
  {
    var host, path := BbcUrlSplit(url);
    BbcHostAdmitted(host);
    BbcPathAdmitted(path);
    assert IsScheme("https");
    ServerUrlAccepted("https", host, path);
    assert IsSupportedScheme("https");
  }

  lemma BbcUrlSplit(url: string) returns (host: string, path: string)
    requires url == "https://feeds.bbci.co.uk/news/rss.xml"
    ensures host == "feeds.bbci.co.uk" && path == "/news/rss.xml"
    ensures url == "https" + ":" + ("//" + host + path)
  {
    host, path := "feeds.bbci.co.uk", "/news/rss.xml";
  }

  lemma BbcHostAdmitted(host: string)
    requires host == "feeds.bbci.co.uk"
    ensures AllAdmitted(RegName, host)
  {
  }

  lemma BbcPathAdmitted(path: string)
    requires path == "/news/rss.xml"
    ensures AllAdmitted(PathText, path)
  {
  }

  /** A `file:` URL with an absolute path, such as the one the class loader gives for the
      tests' feed fixture, passes the URL check with that path and no authority. */
  lemma FileUrlAccepted(path: string)
    requires path != [] && path[0] == '/' && (|path| == 1 || path[1] != '/')
    requires AllAdmitted(PathText, path)
    ensures ValidateAndParseUrl("file:" + path) == Success(Uri(Some("file"), Hierarchy(None, path, None), None))
  {
    assert "file:" + path == "file" + ":" + path;
    assert IsScheme("file") && IsSupportedScheme("file");
    PathUrlAccepted("file", path);
  }

  /** A well-formed URL with an unsupported scheme fails the scheme check, not the syntax check. */
  lemma FtpUrlRejected(url: string)
    requires url == "ftp://example.com/feed"
    ensures ValidateAndParseUrl(url) == Failure(ConnectorError(InvalidUrl, SchemeMessage + url))
  {
    var host, path := FtpUrlSplit(url);
    FtpHostAdmitted(host);
    FtpPathAdmitted(path);
    assert IsScheme("ftp");
    ServerUrlAccepted("ftp", host, path);
    assert !IsSupportedScheme("ftp");
  }

  lemma FtpUrlSplit(url: string) returns (host: string, path: string)
    requires url == "ftp://example.com/feed"
    ensures host == "example.com" && path == "/feed"
    ensures url == "ftp" + ":" + ("//" + host + path)
  {
    host, path := "example.com", "/feed";
  }

  lemma FtpHostAdmitted(host: string)
    requires host == "example.com"
    ensures AllAdmitted(RegName, host)
  {
  }

  lemma FtpPathAdmitted(path: string)
    requires path == "/feed"
    ensures AllAdmitted(PathText, path)
  {
  }

  /** `fromDate` = `not-a-date` is rejected with `INVALID_DATE_FORMAT` before anything is fetched. */
  lemma NotADateStopsTheCall(
    request: RssFeedRequest,
    fetch: Uri -> Result<SyndFeed, ConnectorError>,
    formatDate: EpochMillis -> string,
    s: string)
    requires request.Valid() && ValidateAndParseUrl(request.feedUrl).Success?
    requires s == "not-a-date" && request.fromDate == Some(s)
    ensures ExecuteConnector(request, fetch, formatDate)
         == Failure(ConnectorError(InvalidDateFormat, FormatMessage("fromDate", s)))
  {
    NotADateRejected(s);
  }

  /** `fromDate` after `toDate` is rejected with `INVALID_DATE_RANGE` before anything is fetched. */
  lemma InvertedRangeRejected(
    request: RssFeedRequest,
    fetch: Uri -> Result<SyndFeed, ConnectorError>,
    formatDate: EpochMillis -> string)
    requires request.Valid() && ValidateAndParseUrl(request.feedUrl).Success?
    requires request.ParseFromDate().Success? && request.ParseToDate().Success?
    requires RangeInverted(request.ParseFromDate().value, request.ParseToDate().value)
    ensures ExecuteConnector(request, fetch, formatDate) == Failure(RangeError(request))
  {
  }

  /** With the bounds the request yields, the filter keeps a dated item exactly when its instant
      lies between them, both ends included; undated items and unparseable dates are kept. */
  lemma RequestBoundsInclusive(request: RssFeedRequest, item: RssFeedItem)
    requires request.ParseFromDate().Success? && request.ParseToDate().Success?
    ensures var fromDate := request.ParseFromDate().value;
            var toDate := request.ParseToDate().value;
            && (item.publishedDate.None? || ParseOffsetDateTime(item.publishedDate.value).None? ==>
                  MatchesDateFilter(item, fromDate, toDate))
            && (item.publishedDate.Some? && ParseOffsetDateTime(item.publishedDate.value).Some? ==>
                  var t := InstantNanos(ParseOffsetDateTime(item.publishedDate.value).value);
                  (MatchesDateFilter(item, fromDate, toDate) <==>
                     (fromDate.None? || InstantNanos(fromDate.value) <= t)
                     && (toDate.None? || t <= InstantNanos(toDate.value))))
  {
    if request.ParseFromDate().value.Some? {
      BoundNanoInRange(request.fromDate, "fromDate");
    }
    if request.ParseToDate().value.Some? {
      BoundNanoInRange(request.toDate, "toDate");
    }
    InclusiveBounds(item, request.ParseFromDate().value, request.ParseToDate().value);
  }

  /** Equal bounds are not an inverted range: a single instant is a valid range. */
  lemma EqualBoundsAccepted(d: OffsetDateTime)
    ensures !RangeInverted(Some(d), Some(d))
  {
  }

  /** A request's two bounds form an inverted range exactly when `toDate` is an earlier instant
      than `fromDate`, whatever their offsets. */
  lemma InvertedIffLaterInstant(request: RssFeedRequest)
    requires request.ParseFromDate().Success? && request.ParseFromDate().value.Some?
    requires request.ParseToDate().Success? && request.ParseToDate().value.Some?
    ensures RangeInverted(request.ParseFromDate().value, request.ParseToDate().value)
        <==> InstantNanos(request.ParseToDate().value.value) < InstantNanos(request.ParseFromDate().value.value)
  {
    BoundNanoInRange(request.fromDate, "fromDate");
    BoundNanoInRange(request.toDate, "toDate");
    BeforeIsEarlierInstant(request.ParseToDate().value.value, request.ParseFromDate().value.value);
  }

  /** Bounds that name the same instant, in whatever offsets, are not an inverted range. */
  lemma SameInstantAccepted(request: RssFeedRequest)
    requires request.ParseFromDate().Success? && request.ParseFromDate().value.Some?
    requires request.ParseToDate().Success? && request.ParseToDate().value.Some?
    requires InstantNanos(request.ParseFromDate().value.value) == InstantNanos(request.ParseToDate().value.value)
    ensures !RangeInverted(request.ParseFromDate().value, request.ParseToDate().value)
  {
    InvertedIffLaterInstant(request);
  }

  /** A bound on a later day of a month than the other bound is an inverted range, whatever
      the fetch would have given. */
  lemma LaterDayRejected(
    request: RssFeedRequest,
    fetch: Uri -> Result<SyndFeed, ConnectorError>,
    formatDate: EpochMillis -> string,
    y: int, m: int, earlierDay: int, laterDay: int)
    requires request.Valid() && ValidateAndParseUrl(request.feedUrl).Success?
    requires request.ParseFromDate() == Success(Some(AtStartOfDayUtc(LocalDate(y, m, laterDay))))
    requires request.ParseToDate() == Success(Some(AtStartOfDayUtc(LocalDate(y, m, earlierDay))))
    requires earlierDay < laterDay
    ensures ExecuteConnector(request, fetch, formatDate) == Failure(RangeError(request))
  {
    SameMonthDays(y, m, earlierDay, laterDay);
  }

  /** `fromDate` = 2025-10-25T00:00:00Z and `toDate` = 2025-10-20T00:00:00Z read as the
      starts of those days in UTC; by `LaterDayRejected` the call fails with `INVALID_DATE_RANGE`. */
  lemma OctoberBoundsExample(request: RssFeedRequest, later: string, earlier: string, time: string)
    requires later == "2025-10-25" && earlier == "2025-10-20" && time == "00:00:00"
    requires request.fromDate == Some(later + "T" + time + "Z") && request.toDate == Some(earlier + "T" + time + "Z")
    ensures request.ParseFromDate() == Success(Some(AtStartOfDayUtc(LocalDate(2025, 10, 25))))
    ensures request.ParseToDate() == Success(Some(AtStartOfDayUtc(LocalDate(2025, 10, 20))))
  {
    OctoberDatesRead(later, earlier, time);
  }

  lemma OctoberDatesRead(later: string, earlier: string, time: string)
    requires later == "2025-10-25" && earlier == "2025-10-20" && time == "00:00:00"
    ensures ParseDate(Some(later + "T" + time + "Z"), "fromDate") == Success(Some(AtStartOfDayUtc(LocalDate(2025, 10, 25))))
    ensures ParseDate(Some(earlier + "T" + time + "Z"), "toDate") == Success(Some(AtStartOfDayUtc(LocalDate(2025, 10, 20))))
  {
    BareDateExample(later);
    October20Date(earlier);
    PlainDates(later, earlier);
    MidnightZuluReads(later, time, "fromDate");
    MidnightZuluReads(earlier, time, "toDate");
  }

  lemma PlainDates(later: string, earlier: string)
    requires later == "2025-10-25" && earlier == "2025-10-20"
    ensures IsTrimmed(later) && '[' !in later && IsTrimmed(earlier) && '[' !in earlier
  {
  }
}
