/** The order of the returned items: `sorted(Comparator.comparing(RssFeedItem::publishedDate,
    Comparator.nullsLast(Comparator.reverseOrder())))`, a stable sort on the date TEXT,
    newest (lexicographically greatest) first and undated items last. */
module ItemOrder {
  import opened Wrappers
  import opened JavaText
  import opened Dto

  /** `nullsLast(reverseOrder())`: two nulls tie, a null sorts after any string, and two
      strings compare in reverse `compareTo` order. */
  function CompareDates(a: Option<string>, b: Option<string>): int
  {
    if a.None? && b.None? then 0
    else if a.None? then 1
    else if b.None? then -1
    else CompareTo(b.value, a.value)
  }

  function CompareItems(x: RssFeedItem, y: RssFeedItem): int
  {
    CompareDates(x.publishedDate, y.publishedDate)
  }

  lemma CompareDatesFlips(a: Option<string>, b: Option<string>)
    ensures CompareDates(b, a) == -CompareDates(a, b)
  {
    if a.Some? && b.Some? {
      CompareToFlips(a.value, b.value);
    }
  }

  /** The comparator ties exactly the items with the same date text. */
  lemma CompareDatesZeroIffEqual(a: Option<string>, b: Option<string>)
    ensures CompareDates(a, b) == 0 <==> a == b
  {
    if a.Some? && b.Some? {
      CompareToZeroIffEqual(b.value, a.value);
    }
  }

  lemma CompareDatesTransitive(a: Option<string>, b: Option<string>, c: Option<string>)
    requires CompareDates(a, b) <= 0 && CompareDates(b, c) <= 0
    ensures CompareDates(a, c) <= 0
  {
    if a.Some? && b.Some? && c.Some? {
      CompareToTransitive(c.value, b.value, a.value);
    }
  }

  /** Every item may precede every later one. */
  predicate Sorted(s: seq<RssFeedItem>)
  {
    forall i, j :: 0 <= i < j < |s| ==> CompareItems(s[i], s[j]) <= 0
  }

  /** `x` goes before the first item it may precede, so before every item it ties with. */
  function Insert(x: RssFeedItem, s: seq<RssFeedItem>): seq<RssFeedItem>
  {
    if s == [] then [x]
    else if CompareItems(x, s[0]) <= 0 then [x] + s
    else [s[0]] + Insert(x, s[1..])
  }

  /** A stable sort by the comparator (Java's `Stream.sorted` is stable on an ordered stream). */
  function SortByDate(s: seq<RssFeedItem>): seq<RssFeedItem>
  {
    if s == [] then [] else Insert(s[0], SortByDate(s[1..]))
  }

  /** The items of `s` whose date text is `d`, in their order in `s`. */
  function WithDate(s: seq<RssFeedItem>, d: Option<string>): seq<RssFeedItem>
  {
    if s == [] then []
    else if s[0].publishedDate == d then [s[0]] + WithDate(s[1..], d)
    else WithDate(s[1..], d)
  }

  lemma {:induction false} WithDateAppend(a: seq<RssFeedItem>, b: seq<RssFeedItem>, d: Option<string>)
    ensures WithDate(a + b, d) == WithDate(a, d) + WithDate(b, d)
  {
    if a != [] {
      assert (a + b)[1..] == a[1..] + b;
      WithDateAppend(a[1..], b, d);
    } else {
      assert a + b == b;
    }
  }

  lemma {:induction false} InsertPermutes(x: RssFeedItem, s: seq<RssFeedItem>)
    ensures multiset(Insert(x, s)) == multiset{x} + multiset(s)
  {
    if s != [] && CompareItems(x, s[0]) > 0 {
      InsertPermutes(x, s[1..]);
      assert Insert(x, s) == [s[0]] + Insert(x, s[1..]);
      assert s == [s[0]] + s[1..];
    }
  }

  lemma {:induction false} InsertSorted(x: RssFeedItem, s: seq<RssFeedItem>)
    requires Sorted(s)
    ensures Sorted(Insert(x, s))
  {
    if s == [] {
    } else if CompareItems(x, s[0]) <= 0 {
      var r := [x] + s;
      forall i, j | 0 <= i < j < |r|
        ensures CompareItems(r[i], r[j]) <= 0
      {
        if i == 0 && j > 1 {
          CompareDatesTransitive(x.publishedDate, s[0].publishedDate, s[j - 1].publishedDate);
        }
      }
    } else {
      var t := Insert(x, s[1..]);
      InsertSorted(x, s[1..]);
      InsertPermutes(x, s[1..]);
      CompareDatesFlips(x.publishedDate, s[0].publishedDate);
      var r := [s[0]] + t;
      forall i, j | 0 <= i < j < |r|
        ensures CompareItems(r[i], r[j]) <= 0
      {
        if i == 0 {
          assert r[j] in multiset(t);
          if r[j] != x {
            assert r[j] in s[1..];
          }
        }
      }
    }
  }

  /** The sort orders the items. */
  lemma {:induction false} SortSorted(s: seq<RssFeedItem>)
    ensures Sorted(SortByDate(s))
  {
    if s != [] {
      SortSorted(s[1..]);
      InsertSorted(s[0], SortByDate(s[1..]));
    }
  }

  /** The sort loses and invents nothing. */
  lemma {:induction false} SortPermutes(s: seq<RssFeedItem>)
    ensures multiset(SortByDate(s)) == multiset(s)
  {
    if s != [] {
      SortPermutes(s[1..]);
      InsertPermutes(s[0], SortByDate(s[1..]));
      assert s == [s[0]] + s[1..];
    }
  }

  /** The sort keeps the number of items and which items there are. */
  lemma SortKeepsItems(s: seq<RssFeedItem>)
    ensures |SortByDate(s)| == |s|
    ensures forall x :: x in SortByDate(s) <==> x in s
  {
    SortPermutes(s);
    assert |multiset(SortByDate(s))| == |multiset(s)|;
    forall x
      ensures x in SortByDate(s) <==> x in s
    {
      assert x in SortByDate(s) <==> x in multiset(SortByDate(s));
      assert x in s <==> x in multiset(s);
    }
  }

  /** Inserting `x` puts it ahead of every item with its date: the items before it all
      compare strictly before it. */
  lemma {:induction false} InsertStable(x: RssFeedItem, s: seq<RssFeedItem>, d: Option<string>)
    ensures WithDate(Insert(x, s), d) == (if x.publishedDate == d then [x] else []) + WithDate(s, d)
  {
    if s == [] {
      assert WithDate([x], d) == (if x.publishedDate == d then [x] else []) + WithDate([], d);
    } else if CompareItems(x, s[0]) <= 0 {
      WithDateAppend([x], s, d);
    } else {
      InsertStable(x, s[1..], d);
      CompareDatesZeroIffEqual(x.publishedDate, s[0].publishedDate);
      WithDateAppend([s[0]], Insert(x, s[1..]), d);
      WithDateAppend([s[0]], s[1..], d);
      assert [s[0]] + s[1..] == s;
    }
  }

  /** The sort is stable: items with the same date keep their relative order. */
  lemma {:induction false} SortStable(s: seq<RssFeedItem>, d: Option<string>)
    ensures WithDate(SortByDate(s), d) == WithDate(s, d)
  {
    if s != [] {
      SortStable(s[1..], d);
      InsertStable(s[0], SortByDate(s[1..]), d);
      WithDateAppend([s[0]], s[1..], d);
      assert [s[0]] + s[1..] == s;
    }
  }

  lemma {:induction false} WithDateMember(s: seq<RssFeedItem>, d: Option<string>, x: RssFeedItem)
    ensures x in WithDate(s, d) <==> x in s && x.publishedDate == d
  {
    if s != [] {
      WithDateMember(s[1..], d, x);
      assert s == [s[0]] + s[1..];
    }
  }

  /** The order is determined: a sorted sequence that keeps, date by date, the items of `s` in
      their order in `s` is the sort of `s`. Any stable sort, Java's included, gives this output. */
  lemma {:induction false} StableSortIsUnique(t: seq<RssFeedItem>, s: seq<RssFeedItem>)
    requires Sorted(t) && forall d :: WithDate(t, d) == WithDate(s, d)
    ensures t == SortByDate(s)
  {
    var u := SortByDate(s);
    SortSorted(s);
    forall d
      ensures WithDate(t, d) == WithDate(u, d)
    {
      SortStable(s, d);
    }
    SortedByDatesEqual(t, u);
  }

  /** Two sorted sequences that agree date by date are equal. */
  lemma {:induction false} SortedByDatesEqual(t: seq<RssFeedItem>, u: seq<RssFeedItem>)
    requires Sorted(t) && Sorted(u) && forall d :: WithDate(t, d) == WithDate(u, d)
    ensures t == u
    decreases |t|
  {
    if t == [] {
      if u != [] {
        WithDateMember(u, u[0].publishedDate, u[0]);
      }
    } else if u == [] {
      WithDateMember(t, t[0].publishedDate, t[0]);
    } else {
      var a := t[0];
      var b := u[0];
      WithDateMember(u, b.publishedDate, b);
      WithDateMember(t, b.publishedDate, b);
      WithDateMember(t, a.publishedDate, a);
      WithDateMember(u, a.publishedDate, a);
      HeadComesFirst(t, b);
      HeadComesFirst(u, a);
      SameDateHeads(t, u);
      SortedTail(t);
      SortedTail(u);
      TailsAgree(t, u);
      SortedByDatesEqual(t[1..], u[1..]);
      assert t == [a] + t[1..] && u == [b] + u[1..];
    }
  }

  /** The first item of a sorted sequence may precede each of its items. */
  lemma HeadComesFirst(s: seq<RssFeedItem>, x: RssFeedItem)
    requires Sorted(s) && x in s
    ensures CompareItems(s[0], x) <= 0
  {
    var i :| 0 <= i < |s| && s[i] == x;
    if i == 0 {
      CompareDatesZeroIffEqual(x.publishedDate, x.publishedDate);
    }
  }

  lemma SortedTail(s: seq<RssFeedItem>)
    requires Sorted(s) && s != []
    ensures Sorted(s[1..])
  {
  }

  /** Two sequences whose first items may each precede the other, and that agree on the date
      of the first, start with the same item. */
  lemma SameDateHeads(t: seq<RssFeedItem>, u: seq<RssFeedItem>)
    requires t != [] && u != []
    requires CompareItems(t[0], u[0]) <= 0 && CompareItems(u[0], t[0]) <= 0
    requires WithDate(t, t[0].publishedDate) == WithDate(u, t[0].publishedDate)
    ensures t[0] == u[0]
  {
    CompareDatesFlips(t[0].publishedDate, u[0].publishedDate);
    CompareDatesZeroIffEqual(t[0].publishedDate, u[0].publishedDate);
    WithDateHead(t, t[0].publishedDate);
    WithDateHead(u, t[0].publishedDate);
    assert WithDate(t, t[0].publishedDate)[0] == t[0];
    assert WithDate(u, t[0].publishedDate)[0] == u[0];
  }

  /** The first item of a sequence is the first item of its date. */
  lemma WithDateHead(s: seq<RssFeedItem>, d: Option<string>)
    requires s != [] && s[0].publishedDate == d
    ensures WithDate(s, d) == [s[0]] + WithDate(s[1..], d)
  {
  }

  /** Removing the same first item from two sequences that agree date by date leaves two
      sequences that agree date by date. */
  lemma TailsAgree(t: seq<RssFeedItem>, u: seq<RssFeedItem>)
    requires t != [] && u != [] && t[0] == u[0]
    requires forall d :: WithDate(t, d) == WithDate(u, d)
    ensures forall d :: WithDate(t[1..], d) == WithDate(u[1..], d)
  {
    forall d
      ensures WithDate(t[1..], d) == WithDate(u[1..], d)
    {
      assert WithDate(t, d) == WithDate(u, d);
      if t[0].publishedDate == d {
        WithDateHead(t, d);
        WithDateHead(u, d);
        assert WithDate(t, d)[1..] == WithDate(t[1..], d);
      }
    }
  }

  /** What sorted means here: every dated item comes before every undated one, and dated
      items run from the greatest date text to the least. */
  lemma SortedMeans(s: seq<RssFeedItem>)
    ensures Sorted(s) <==>
            (forall i, j :: 0 <= i < j < |s| && s[i].publishedDate.None? ==> s[j].publishedDate.None?)
            && (forall i, j :: 0 <= i < j < |s| && s[i].publishedDate.Some? && s[j].publishedDate.Some? ==>
                  CompareTo(s[i].publishedDate.value, s[j].publishedDate.value) >= 0)
  {
    if Sorted(s) {
      forall i, j | 0 <= i < j < |s| && s[i].publishedDate.Some? && s[j].publishedDate.Some?
        ensures CompareTo(s[i].publishedDate.value, s[j].publishedDate.value) >= 0
      {
        assert CompareItems(s[i], s[j]) <= 0;
        CompareToFlips(s[i].publishedDate.value, s[j].publishedDate.value);
      }
    }
    if (forall i, j :: 0 <= i < j < |s| && s[i].publishedDate.Some? && s[j].publishedDate.Some? ==>
                  CompareTo(s[i].publishedDate.value, s[j].publishedDate.value) >= 0) {
      forall i, j | 0 <= i < j < |s| && s[i].publishedDate.Some? && s[j].publishedDate.Some?
        ensures CompareItems(s[i], s[j]) <= 0
      {
        CompareToFlips(s[i].publishedDate.value, s[j].publishedDate.value);
      }
    }
  }
}
