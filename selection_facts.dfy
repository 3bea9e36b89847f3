/** What the stream over the feed's entries promises: the date filter keeps exactly the
    matching items in their order with inclusive bounds, the returned items are sorted newest
    first and are the newest matching ones, and categories keep their non-empty names. */
module SelectionFacts {
  import opened Wrappers
  import opened IsoDates
  import opened IsoDateFacts
  import opened Dto
  import opened Syndication
  import opened ItemOrder
  import opened RssFeedConnector

  /** The filter keeps an item exactly when it matches. */
  lemma {:induction false} FilterMember(s: seq<RssFeedItem>, fromDate: Option<OffsetDateTime>, toDate: Option<OffsetDateTime>, x: RssFeedItem)
    ensures x in FilterByDate(s, fromDate, toDate) <==> x in s && MatchesDateFilter(x, fromDate, toDate)
  {
    if s != [] {
      FilterMember(s[1..], fromDate, toDate, x);
      assert s == [s[0]] + s[1..];
    }
  }

  /** The filter keeps the order of the items: filtering a concatenation filters each part. */
  lemma {:induction false} FilterAppend(a: seq<RssFeedItem>, b: seq<RssFeedItem>, fromDate: Option<OffsetDateTime>, toDate: Option<OffsetDateTime>)
    ensures FilterByDate(a + b, fromDate, toDate) == FilterByDate(a, fromDate, toDate) + FilterByDate(b, fromDate, toDate)
  {
    if a == [] {
      assert a + b == b;
    } else {
      assert (a + b)[1..] == a[1..] + b;
      FilterAppend(a[1..], b, fromDate, toDate);
    }
  }

  lemma {:induction false} FilterLength(s: seq<RssFeedItem>, fromDate: Option<OffsetDateTime>, toDate: Option<OffsetDateTime>)
    ensures |FilterByDate(s, fromDate, toDate)| <= |s|
  {
    if s != [] {
      FilterLength(s[1..], fromDate, toDate);
    }
  }

  /** Without bounds nothing is filtered out. */
  lemma {:induction false} FilterWithoutBounds(s: seq<RssFeedItem>)
    ensures FilterByDate(s, None, None) == s
  {
    if s != [] {
      FilterWithoutBounds(s[1..]);
      assert s == [s[0]] + s[1..];
    }
  }

  /** A dated item whose date parses is kept exactly when its instant lies within the bounds,
      both ends included; an undated item, or one whose date does not parse, is always kept. */
  lemma InclusiveBounds(item: RssFeedItem, fromDate: Option<OffsetDateTime>, toDate: Option<OffsetDateTime>)
    requires fromDate.Some? ==> NanoInRange(fromDate.value)
    requires toDate.Some? ==> NanoInRange(toDate.value)
    ensures item.publishedDate.None? ==> MatchesDateFilter(item, fromDate, toDate)
    ensures item.publishedDate.Some? && ParseOffsetDateTime(item.publishedDate.value).None? ==>
              MatchesDateFilter(item, fromDate, toDate)
    ensures item.publishedDate.Some? && ParseOffsetDateTime(item.publishedDate.value).Some? ==>
              var t := InstantNanos(ParseOffsetDateTime(item.publishedDate.value).value);
              (MatchesDateFilter(item, fromDate, toDate) <==>
                 (fromDate.None? || InstantNanos(fromDate.value) <= t)
                 && (toDate.None? || t <= InstantNanos(toDate.value)))
  {
    if item.publishedDate.Some? && ParseOffsetDateTime(item.publishedDate.value).Some? {
      var d := ParseOffsetDateTime(item.publishedDate.value).value;
      ParsedNanoInRange(item.publishedDate.value);
      if fromDate.Some? {
        BeforeIsEarlierInstant(d, fromDate.value);
      }
      if toDate.Some? {
        BeforeIsEarlierInstant(toDate.value, d);
      }
    }
  }

  /** The first `n` items of a sorted sequence are sorted and may precede every item left out. */
  lemma PrefixComesFirst(s: seq<RssFeedItem>, n: int)
    requires Sorted(s) && n >= 0
    ensures Sorted(Take(s, n))
    ensures forall x, y :: x in Take(s, n) && y in s && y !in Take(s, n) ==> CompareItems(x, y) <= 0
  {
    var p := Take(s, n);
    forall x, y | x in p && y in s && y !in p
      ensures CompareItems(x, y) <= 0
    {
      var i :| 0 <= i < |p| && p[i] == x;
      var j :| 0 <= j < |s| && s[j] == y;
    }
  }

  /** The items the stream keeps before sorting and capping: the converted entries that match. */
  function Candidates(entries: seq<SyndEntry>, fromDate: Option<OffsetDateTime>, toDate: Option<OffsetDateTime>, formatDate: EpochMillis -> string): seq<RssFeedItem>
  {
    FilterByDate(ConvertAll(entries, formatDate), fromDate, toDate)
  }

  /** Every returned item is a converted entry that matches the date filter, and the items
      come sorted: dated items newest first, undated items last. */
  lemma SelectedAreSortedMatches(entries: seq<SyndEntry>, fromDate: Option<OffsetDateTime>, toDate: Option<OffsetDateTime>, maxItems: int, formatDate: EpochMillis -> string)
    requires maxItems >= 0
    ensures var items := SelectItems(entries, fromDate, toDate, maxItems, formatDate);
            Sorted(items)
            && forall x :: x in items ==> x in ConvertAll(entries, formatDate) && MatchesDateFilter(x, fromDate, toDate)
  {
    var c := Candidates(entries, fromDate, toDate, formatDate);
    SortSorted(c);
    SortKeepsItems(c);
    PrefixComesFirst(SortByDate(c), maxItems);
    forall x | x in SelectItems(entries, fromDate, toDate, maxItems, formatDate)
      ensures x in ConvertAll(entries, formatDate) && MatchesDateFilter(x, fromDate, toDate)
    {
      FilterMember(ConvertAll(entries, formatDate), fromDate, toDate, x);
    }
  }

  /** The items returned are the newest matching ones: every matching item left out may come
      after each returned item, and when no more items match than are asked for, none is left out. */
  lemma SelectedAreNewest(entries: seq<SyndEntry>, fromDate: Option<OffsetDateTime>, toDate: Option<OffsetDateTime>, maxItems: int, formatDate: EpochMillis -> string)
    requires maxItems >= 0
    ensures var items := SelectItems(entries, fromDate, toDate, maxItems, formatDate);
            var converted := ConvertAll(entries, formatDate);
            && (forall x, y :: x in items && y in converted && MatchesDateFilter(y, fromDate, toDate) && y !in items ==>
                  CompareItems(x, y) <= 0)
            && (|Candidates(entries, fromDate, toDate, formatDate)| <= maxItems ==>
                  forall y :: y in converted && MatchesDateFilter(y, fromDate, toDate) ==> y in items)
  {
    var c := Candidates(entries, fromDate, toDate, formatDate);
    SortSorted(c);
    SortKeepsItems(c);
    PrefixComesFirst(SortByDate(c), maxItems);
    forall y | y in ConvertAll(entries, formatDate) && MatchesDateFilter(y, fromDate, toDate)
      ensures y in SortByDate(c)
    {
      FilterMember(ConvertAll(entries, formatDate), fromDate, toDate, y);
    }
  }

  /** How many items come back: as many as match, up to `maxItems`; without bounds, as many
      entries as there are, up to `maxItems`. */
  lemma SelectedCount(entries: seq<SyndEntry>, fromDate: Option<OffsetDateTime>, toDate: Option<OffsetDateTime>, maxItems: int, formatDate: EpochMillis -> string)
    requires maxItems >= 0
    ensures var n := |SelectItems(entries, fromDate, toDate, maxItems, formatDate)|;
            n == Min(|Candidates(entries, fromDate, toDate, formatDate)|, maxItems)
            && n <= Min(|entries|, maxItems)
            && (fromDate.None? && toDate.None? ==> n == Min(|entries|, maxItems))
  {
    var converted := ConvertAll(entries, formatDate);
    SortKeepsItems(FilterByDate(converted, fromDate, toDate));
    FilterLength(converted, fromDate, toDate);
    FilterWithoutBounds(converted);
  }

  /** When nothing is cut by `maxItems`, items with the same date text come back in feed order. */
  lemma SelectedKeepsFeedOrder(entries: seq<SyndEntry>, fromDate: Option<OffsetDateTime>, toDate: Option<OffsetDateTime>, maxItems: int, formatDate: EpochMillis -> string, d: Option<string>)
    requires maxItems >= 0 && |Candidates(entries, fromDate, toDate, formatDate)| <= maxItems
    ensures WithDate(SelectItems(entries, fromDate, toDate, maxItems, formatDate), d)
         == WithDate(Candidates(entries, fromDate, toDate, formatDate), d)
  {
    var c := Candidates(entries, fromDate, toDate, formatDate);
    SortKeepsItems(c);
    SortStable(c, d);
  }

  lemma {:induction false} CategoryNamesAppend(a: seq<Option<SyndCategory>>, b: seq<Option<SyndCategory>>)
    ensures CategoryNames(a + b) == CategoryNames(a) + CategoryNames(b)
  {
    if a == [] {
      assert a + b == b;
    } else {
      assert (a + b)[1..] == a[1..] + b;
      CategoryNamesAppend(a[1..], b);
    }
  }

  /** A name is listed exactly when some category carries it and it is not empty. */
  lemma {:induction false} CategoryNamesMember(cs: seq<Option<SyndCategory>>, n: string)
    ensures n in CategoryNames(cs) <==> n != [] && Some(SyndCategory(Some(n))) in cs
  {
    if cs != [] {
      CategoryNamesMember(cs[1..], n);
      assert cs == [cs[0]] + cs[1..];
    }
  }
}
