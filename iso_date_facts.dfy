/** Properties of the `java.time` parsers: how a date-time's offset moves its instant,
    how a bare date relates to midnight UTC, and worked values from the connector's tests. */
module IsoDateFacts {
  import opened Wrappers
  import opened IsoDates

  /** A string that cannot continue a time field: it does not start with a digit, ':' or '.'. */
  predicate EndsTimeField(b: string)
  {
    b == [] || (b[0] != ':' && b[0] != '.' && !IsDigit(b[0]))
  }

  lemma {:induction false} DigitRunAppend(a: string, b: string)
    ensures DigitRun(a + b) >= DigitRun(a)
    ensures DigitRun(a) < |a| ==> DigitRun(a + b) == DigitRun(a)
    ensures DigitRun(a) == |a| && (b == [] || !IsDigit(b[0])) ==> DigitRun(a + b) == |a|
  {
    if a == [] {
      assert a + b == b;
    } else if IsDigit(a[0]) {
      assert (a + b)[1..] == a[1..] + b;
      DigitRunAppend(a[1..], b);
    }
  }

  /** `DigitRun` is the length of the digit run: all digits up to `n`, then a non-digit or the end. */
  lemma {:induction false} DigitRunOf(s: string, n: nat)
    requires n <= |s| && (forall i :: 0 <= i < n ==> IsDigit(s[i])) && (n == |s| || !IsDigit(s[n]))
    ensures DigitRun(s) == n
  {
    if n > 0 {
      DigitRunOf(s[1..], n - 1);
    }
  }

  lemma TwoDigitsAppend(a: string, b: string)
    requires TwoDigits(a).Some?
    ensures TwoDigits(a + b) == Some((TwoDigits(a).value.0, TwoDigits(a).value.1 + b))
  {
    assert (a + b)[..2] == a[..2];
    assert (a + b)[2..] == a[2..] + b;
  }

  lemma YearDigitsAppend(sign: char, body: string, b: string)
    requires YearDigits(sign, body).Some? && YearDigits(sign, body).value.1 != []
    ensures YearDigits(sign, body + b) == Some((YearDigits(sign, body).value.0, YearDigits(sign, body).value.1 + b))
  {
    DigitRunAppend(body, b);
    var n := Min(DigitRun(body), 10);
    assert Min(DigitRun(body + b), 10) == n;
    assert (body + b)[..n] == body[..n];
    assert (body + b)[n..] == body[n..] + b;
  }

  lemma YearAppend(a: string, b: string)
    requires Year(a).Some? && Year(a).value.1 != []
    ensures Year(a + b) == Some((Year(a).value.0, Year(a).value.1 + b))
  {
    if a != [] && (a[0] == '+' || a[0] == '-') {
      assert (a + b)[1..] == a[1..] + b;
      YearDigitsAppend(a[0], a[1..], b);
    } else {
      YearDigitsAppend(' ', a, b);
    }
  }

  lemma LiteralAppend(a: string, c: char, b: string)
    requires Literal(a, c).Some?
    ensures Literal(a + b, c) == Some(Literal(a, c).value + b)
  {
    assert (a + b)[1..] == a[1..] + b;
  }

  /** A date is a closed unit: text appended after it only lengthens the unparsed rest. */
  lemma DatePartAppend(a: string, b: string)
    requires DatePart(a).Some?
    ensures DatePart(a + b) == Some((DatePart(a).value.0, DatePart(a).value.1 + b))
  {
    var yr := Year(a).value;
    YearAppend(a, b);
    MonthDayAppend(yr.0, yr.1, b);
  }

  lemma MonthDayAppend(y: int, a: string, b: string)
    requires MonthDay(y, a).Some?
    ensures MonthDay(y, a + b) == Some((MonthDay(y, a).value.0, MonthDay(y, a).value.1 + b))
  {
    var r1 := Literal(a, '-').value;
    LiteralAppend(a, '-', b);
    var mr := TwoDigits(r1).value;
    TwoDigitsAppend(r1, b);
    var r2 := Literal(mr.1, '-').value;
    LiteralAppend(mr.1, '-', b);
    TwoDigitsAppend(r2, b);
  }

  lemma FractionAppend(a: string, b: string)
    requires Fraction(a).1 == [] && EndsTimeField(b)
    ensures Fraction(a + b) == (Fraction(a).0, b)
  {
    if a != [] {
      var digits := a[1..];
      DigitRunAppend(digits, b);
      assert (a + b)[1..] == digits + b;
      var k := Min(DigitRun(digits), 9);
      assert (a + b)[1..1 + k] == a[1..1 + k];
      assert (a + b)[1 + k..] == b;
    } else {
      assert a + b == b;
    }
  }

  lemma OptionalSecondsAppend(a: string, b: string)
    requires OptionalSeconds(a).2 == [] && EndsTimeField(b)
    ensures OptionalSeconds(a + b) == (OptionalSeconds(a).0, OptionalSeconds(a).1, b)
  {
    if |a| >= 3 && a[0] == ':' && IsDigit(a[1]) && IsDigit(a[2]) {
      assert (a + b)[3..] == a[3..] + b;
      FractionAppend(a[3..], b);
    } else {
      assert a + b == b;
    }
  }

  lemma TimePartAppend(a: string, b: string)
    requires TimePart(a).Some? && TimePart(a).value.1 == [] && EndsTimeField(b)
    ensures TimePart(a + b) == Some((TimePart(a).value.0, b))
  {
    var hr := TwoDigits(a).value;
    TwoDigitsAppend(a, b);
    var r1 := Literal(hr.1, ':').value;
    LiteralAppend(hr.1, ':', b);
    var mr := TwoDigits(r1).value;
    TwoDigitsAppend(r1, b);
    OptionalSecondsAppend(mr.1, b);
  }

  /** A complete local date-time followed by an offset parses to its own value. */
  lemma LocalDateTimeAppend(a: string, b: string)
    requires LocalDateTime(a).Some? && LocalDateTime(a).value.2 == [] && EndsTimeField(b)
    ensures LocalDateTime(a + b) == Some((LocalDateTime(a).value.0, LocalDateTime(a).value.1, b))
  {
    var dr := DatePart(a).value;
    DatePartAppend(a, b);
    TimeAfterDateAppend(dr.0, dr.1, b);
  }

  lemma TimeAfterDateAppend(date: LocalDate, a: string, b: string)
    requires TimeAfterDate(date, a).Some? && TimeAfterDate(date, a).value.2 == [] && EndsTimeField(b)
    ensures TimeAfterDate(date, a + b) == Some((date, TimeAfterDate(date, a).value.1, b))
  {
    assert (a + b)[1..] == a[1..] + b;
    TimePartAppend(a[1..], b);
  }

  lemma OffsetEndsTimeField(s: string)
    requires Offset(s).Some?
    ensures EndsTimeField(s)
  {
  }

  /** A local date-time followed by an offset parses to that date-time at that offset. */
  lemma {:induction false} DateTimeWithOffset(local: string, offset: string)
    requires LocalDateTime(local).Some? && LocalDateTime(local).value.2 == []
    requires Offset(offset).Some?
    ensures ParseOffsetDateTime(local + offset)
         == Some(OffsetDateTime(LocalDateTime(local).value.0, LocalDateTime(local).value.1, Offset(offset).value))
  {
    OffsetEndsTimeField(offset);
    LocalDateTimeAppend(local, offset);
  }

  lemma One(s: string)
    requires |s| == 1 && IsDigit(s[0])
    ensures DigitsValue(s) == DigitValue(s[0])
  {
    assert s[..0] == [];
  }

  lemma Two(s: string)
    requires |s| == 2 && IsDigit(s[0]) && IsDigit(s[1])
    ensures DigitsValue(s) == 10 * DigitValue(s[0]) + DigitValue(s[1])
  {
    One(s[..1]);
  }

  lemma Three(s: string)
    requires |s| == 3 && forall i :: 0 <= i < 3 ==> IsDigit(s[i])
    ensures DigitsValue(s) == 100 * DigitValue(s[0]) + 10 * DigitValue(s[1]) + DigitValue(s[2])
  {
    Two(s[..2]);
  }

  lemma Four(s: string)
    requires |s| == 4 && forall i :: 0 <= i < 4 ==> IsDigit(s[i])
    ensures DigitsValue(s) == 1000 * DigitValue(s[0]) + 100 * DigitValue(s[1])
                              + 10 * DigitValue(s[2]) + DigitValue(s[3])
  {
    Three(s[..3]);
  }

  lemma MidnightTimePart()
    ensures TimePart("00:00") == Some((Midnight, []))
  {
    var t := "00:00";
    assert t[2..][1..] == t[3..];
  }

  /** After a complete date, the local date-time is decided by what follows the date. */
  lemma DateThen(date: string, t: string)
    requires ParseLocalDate(date).Some?
    ensures LocalDateTime(date + t) == TimeAfterDate(ParseLocalDate(date).value, t)
  {
    var dr := DatePart(date).value;
    DatePartAppend(date, t);
    assert dr.1 + t == t;
  }

  /** The calendar date `YYYY-MM-DD` with a four-digit year is accepted, with the value its
      digits spell, whenever the month and the day exist. */
  lemma PlainDate(s: string)
    requires |s| == 10 && s[4] == '-' && s[7] == '-'
    requires forall i :: 0 <= i < 10 && i != 4 && i != 7 ==> IsDigit(s[i])
    requires 1 <= PairValue(s[5], s[6]) <= 12
    requires 1 <= PairValue(s[8], s[9]) <= LengthOfMonth(DigitsValue(s[..4]), PairValue(s[5], s[6]))
    ensures ParseLocalDate(s) == Some(LocalDate(DigitsValue(s[..4]), PairValue(s[5], s[6]), PairValue(s[8], s[9])))
  {
    DigitRunOf(s, 4);
    Four(s[..4]);
    assert Year(s) == Some((DigitsValue(s[..4]), s[4..]));
    assert s[4..][1..][2..][1..] == s[8..];
  }

  /** A bare date is never an offset date-time: the time and the offset are mandatory. */
  lemma DateIsNotDateTime(s: string)
    requires ParseLocalDate(s).Some?
    ensures ParseOffsetDateTime(s).None?
  {
  }

  /** A date, `T`, a time and an offset, each complete, read as that date and time at that offset. */
  lemma {:induction false} DateTimeParts(date: string, time: string, offset: string)
    requires ParseLocalDate(date).Some?
    requires TimePart(time).Some? && TimePart(time).value.1 == []
    requires Offset(offset).Some?
    ensures ParseOffsetDateTime(date + "T" + time + offset)
         == Some(OffsetDateTime(ParseLocalDate(date).value, TimePart(time).value.0, Offset(offset).value))
  {
    var t := "T" + time;
    SeparatorAssociates(date, time);
    DateThen(date, t);
    SeparatedTime(ParseLocalDate(date).value, time);
    DateTimeWithOffset(date + t, offset);
  }

  lemma SeparatorAssociates(date: string, time: string)
    ensures date + "T" + time == date + ("T" + time)
  {
  }

  /** `T` and a complete time, after a parsed date, read as that time. */
  lemma SeparatedTime(date: LocalDate, time: string)
    requires TimePart(time).Some? && TimePart(time).value.1 == []
    ensures TimeAfterDate(date, "T" + time) == Some((date, TimePart(time).value.0, []))
  {
    assert ("T" + time)[1..] == time;
  }

  lemma ZuluOffset()
    ensures Offset("Z") == Some(0)
  {
  }

  /** A bare date names the same date-time as that date at 00:00 UTC written out in full,
      which is how the connector reads a bare date. */
  lemma DateIsMidnightUtc(date: string)
    requires ParseLocalDate(date).Some?
    ensures ParseOffsetDateTime(date + "T00:00Z") == Some(AtStartOfDayUtc(ParseLocalDate(date).value))
  {
    MidnightTimePart();
    ZuluOffset();
    DateTimeParts(date, "00:00", "Z");
    MidnightSuffix(date);
  }

  lemma MidnightSuffix(date: string)
    ensures date + "T" + "00:00" + "Z" == date + "T00:00Z"
  {
  }

  const NanosPerSecond: int := 1_000_000_000

  /** The nanosecond field of a `LocalTime` is always below one second. */
  predicate NanoInRange(t: OffsetDateTime)
  {
    0 <= t.time.nano < NanosPerSecond
  }

  /** The instant as a single count of nanoseconds since 1970-01-01T00:00Z. */
  function InstantNanos(t: OffsetDateTime): int
  {
    EpochSecond(t) * NanosPerSecond + t.time.nano
  }

  /** The run that `DigitRun` measures is made of digits. */
  lemma {:induction false} DigitRunDigits(s: string)
    ensures forall i :: 0 <= i < DigitRun(s) ==> IsDigit(s[i])
  {
    if s != [] && IsDigit(s[0]) {
      DigitRunDigits(s[1..]);
    }
  }

  /** A numeral of `n` digits is below `10^n`. */
  lemma {:induction false} DigitsBelow(s: string)
    requires forall i :: 0 <= i < |s| ==> IsDigit(s[i])
    ensures 0 <= DigitsValue(s) < Pow10(|s|)
  {
    if s != [] {
      DigitsBelow(s[..|s| - 1]);
    }
  }

  lemma {:induction false} Pow10Add(a: nat, b: nat)
    ensures Pow10(a) * Pow10(b) == Pow10(a + b)
  {
    if a > 0 {
      Pow10Add(a - 1, b);
      assert Pow10(a) * Pow10(b) == 10 * (Pow10(a - 1) * Pow10(b));
    }
  }

  /** A `k`-digit value scaled to nine digits stays below `10^9`. */
  lemma ScaledBelow(v: int, k: nat)
    requires k <= 9 && 0 <= v < Pow10(k)
    ensures 0 <= v * Pow10(9 - k) < NanosPerSecond
  {
    Pow10Add(k, 9 - k);
    Pow10Nine();
    SplitProduct(v, Pow10(k) - v, Pow10(9 - k));
  }

  /** `(a + b) * c` splits into a part below it when `b` and `c` are positive. */
  lemma SplitProduct(a: int, b: int, c: int)
    requires a >= 0 && b >= 1 && c >= 1
    ensures 0 <= a * c < (a + b) * c
  {
    assert (a + b) * c == a * c + b * c;
  }

  lemma Pow10Nine()
    ensures Pow10(9) == NanosPerSecond
  {
  }

  /** A fraction of a second read from up to nine digits is below one second. */
  lemma FractionBelowSecond(s: string)
    ensures 0 <= Fraction(s).0 < NanosPerSecond
  {
    if s != [] && s[0] == '.' {
      var k := Min(DigitRun(s[1..]), 9);
      DigitRunDigits(s[1..]);
      DigitsBelow(s[1..1 + k]);
      ScaledBelow(DigitsValue(s[1..1 + k]), k);
    }
  }

  /** A time read by `ISO_LOCAL_TIME` has a nanosecond field below one second. */
  lemma TimePartNano(s: string)
    requires TimePart(s).Some?
    ensures 0 <= TimePart(s).value.0.nano < NanosPerSecond
  {
    var hr := TwoDigits(s).value;
    var r1 := Literal(hr.1, ':').value;
    var mr := TwoDigits(r1).value;
    if |mr.1| >= 3 {
      FractionBelowSecond(mr.1[3..]);
    }
  }

  /** Every offset date-time the parser yields has a nanosecond field below one second. */
  lemma ParsedNanoInRange(s: string)
    requires ParseOffsetDateTime(s).Some?
    ensures NanoInRange(ParseOffsetDateTime(s).value)
  {
    var dr := DatePart(s).value;
    var r1 := TimeSeparator(dr.1).value;
    TimePartNano(r1);
  }

  /** `isBefore` orders date-times by the instant they name, whatever their offsets. */
  lemma BeforeIsEarlierInstant(a: OffsetDateTime, b: OffsetDateTime)
    requires NanoInRange(a) && NanoInRange(b)
    ensures IsBefore(a, b) <==> InstantNanos(a) < InstantNanos(b)
  {
    var ea := EpochSecond(a);
    var eb := EpochSecond(b);
    if ea < eb {
      assert (ea + 1) * NanosPerSecond <= eb * NanosPerSecond;
    } else if eb < ea {
      assert (eb + 1) * NanosPerSecond <= ea * NanosPerSecond;
    }
  }

  /** Within one month, epoch days are as far apart as the days of the month. */
  lemma SameMonthDays(y: int, m: int, d1: int, d2: int)
    ensures EpochDay(LocalDate(y, m, d2)) - EpochDay(LocalDate(y, m, d1)) == d2 - d1
  {
  }
}
