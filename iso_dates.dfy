/** The two `java.time` parsers the connector uses, `DateTimeFormatter.ISO_LOCAL_DATE`
    and `DateTimeFormatter.ISO_OFFSET_DATE_TIME`, both with strict resolution and strict
    parsing except for the offset, which `ISO_OFFSET_DATE_TIME` parses leniently, and the
    instant comparison of `OffsetDateTime.isBefore` / `isAfter`. */
module IsoDates {
  import opened Wrappers

  const SecondsPerDay: int := 86_400
  /** Largest magnitude of the YEAR field. */
  const MaxYear: int := 999_999_999
  /** `ZoneOffset` admits at most eighteen hours either side of UTC. */
  const MaxOffsetSeconds: int := 64_800
  /** Days from 0000-01-01 to 1970-01-01, as in `LocalDate.toEpochDay`. */
  const Days0000To1970: int := 719_528

  /** A calendar date as the parser reads it: proleptic year, month 1..12, day of month. */
  datatype LocalDate = LocalDate(year: int, month: int, day: int)

  /** A time of day: hour, minute, second and nanosecond of the second. */
  datatype LocalTime = LocalTime(hour: int, minute: int, second: int, nano: int)

  const Midnight: LocalTime := LocalTime(0, 0, 0, 0)

  /** A local date-time with its offset from UTC in seconds (east positive). */
  datatype OffsetDateTime = OffsetDateTime(date: LocalDate, time: LocalTime, offsetSeconds: int)

  predicate IsDigit(c: char) { '0' <= c <= '9' }

  /** Length of the run of ASCII digits that starts `s`. */
  function DigitRun(s: string): (n: nat)
    ensures n <= |s|
  {
    if s == [] || !IsDigit(s[0]) then 0 else 1 + DigitRun(s[1..])
  }

  function DigitValue(c: char): int
  {
    c as int - '0' as int
  }

  function DigitsValue(s: string): int
  {
    if s == [] then 0 else 10 * DigitsValue(s[..|s| - 1]) + DigitValue(s[|s| - 1])
  }

  /** The value of the two-digit numeral `hi lo`. */
  function PairValue(hi: char, lo: char): int
  {
    10 * DigitValue(hi) + DigitValue(lo)
  }

  function Pow10(n: nat): nat
  {
    if n == 0 then 1 else 10 * Pow10(n - 1)
  }

  function Min(a: int, b: int): int { if a <= b then a else b }

  /** A fixed-width field of two digits (`appendValue(field, 2)`): no sign, exactly two digits. */
  function TwoDigits(s: string): Option<(int, string)>
  {
    if |s| >= 2 && IsDigit(s[0]) && IsDigit(s[1]) then Some((PairValue(s[0], s[1]), s[2..])) else None
  }

  /** `appendValue(YEAR, 4, 10, SignStyle.EXCEEDS_PAD)`: an optional sign, then the year's digits. */
  function Year(s: string): Option<(int, string)>
  {
    if s != [] && (s[0] == '+' || s[0] == '-') then YearDigits(s[0], s[1..]) else YearDigits(' ', s)
  }

  /** The digits of a year after its sign (`' '` for none): up to ten digits, at least four;
      an unsigned year has exactly four, a `+` needs more than four, `-0000` is refused,
      and the value must lie within the YEAR range. */
  function YearDigits(sign: char, body: string): Option<(int, string)>
  {
    var n := Min(DigitRun(body), 10);
    if n < 4 then None
    else
      var v: int := DigitsValue(body[..n]);
      if sign == ' ' && n > 4 then None
      else if sign == '+' && n <= 4 then None
      else if sign == '-' && v == 0 then None
      else if v > MaxYear then None
      else Some((if sign == '-' then -v else v, body[n..]))
  }

  predicate IsLeapYear(y: int)
  {
    y % 4 == 0 && (y % 100 != 0 || y % 400 == 0)
  }

  function LengthOfMonth(y: int, m: int): int
  {
    if m == 2 then (if IsLeapYear(y) then 29 else 28)
    else if m == 4 || m == 6 || m == 9 || m == 11 then 30
    else 31
  }

  /** `LocalDate.toEpochDay`, with Java's truncating division written out for negative years. */
  function EpochDay(date: LocalDate): int
  {
    var y := date.year;
    var m := date.month;
    var total0 := 365 * y;
    var total1 :=
      if y >= 0 then total0 + (y + 3) / 4 - (y + 99) / 100 + (y + 399) / 400
      else total0 - ((-y) / 4 - (-y) / 100 + (-y) / 400);
    var total2 := total1 + (367 * m - 362) / 12 + date.day - 1;
    var total3 := if m > 2 then total2 - 1 - (if IsLeapYear(y) then 0 else 1) else total2;
    total3 - Days0000To1970
  }

  /** `LocalTime.toSecondOfDay`. */
  function SecondOfDay(time: LocalTime): int
  {
    time.hour * 3600 + time.minute * 60 + time.second
  }

  /** `OffsetDateTime.toEpochSecond`: seconds since 1970-01-01T00:00Z, the offset subtracted. */
  function EpochSecond(odt: OffsetDateTime): int
  {
    EpochDay(odt.date) * SecondsPerDay + SecondOfDay(odt.time) - odt.offsetSeconds
  }

  /** `a.isBefore(b)`: compares the instants, epoch second first, then the nanosecond. */
  predicate IsBefore(a: OffsetDateTime, b: OffsetDateTime)
  {
    EpochSecond(a) < EpochSecond(b) || (EpochSecond(a) == EpochSecond(b) && a.time.nano < b.time.nano)
  }

  /** `a.isAfter(b)`. */
  predicate IsAfter(a: OffsetDateTime, b: OffsetDateTime)
  {
    IsBefore(b, a)
  }

  /** `LocalDate.atStartOfDay(ZoneOffset.UTC).toOffsetDateTime()`. */
  function AtStartOfDayUtc(date: LocalDate): OffsetDateTime
  {
    OffsetDateTime(date, Midnight, 0)
  }

  /** A literal character at the front of `s` (`appendLiteral`): the rest after it. */
  function Literal(s: string, c: char): Option<string>
  {
    if s != [] && s[0] == c then Some(s[1..]) else None
  }

  /** `ISO_LOCAL_DATE` at the front of `s`: year '-' MM '-' dd. Gives the date and the
      unparsed rest. */
  function DatePart(s: string): Option<(LocalDate, string)>
  {
    var yr :- Year(s);
    MonthDay(yr.0, yr.1)
  }

  /** The `'-' MM '-' dd` that follows the year `y`. */
  function MonthDay(y: int, s: string): Option<(LocalDate, string)>
  {
    var r1 :- Literal(s, '-');
    var mr :- TwoDigits(r1);
    var r2 :- Literal(mr.1, '-');
    var dr :- TwoDigits(r2);
    ResolveDate(y, mr.0, dr.0, dr.1)
  }

  /** Strict resolution of a parsed date: month 1..12 and a day that exists in that month. */
  function ResolveDate(y: int, m: int, d: int, rest: string): Option<(LocalDate, string)>
  {
    if 1 <= m <= 12 && 1 <= d <= LengthOfMonth(y, m) then Some((LocalDate(y, m, d), rest)) else None
  }

  /** The optional section `[':' ss ['.' fraction]]` of `ISO_LOCAL_TIME`; when the section
      does not match, nothing is consumed. Gives seconds, nanoseconds and the rest. */
  function OptionalSeconds(s: string): (int, int, string)
  {
    if |s| >= 3 && s[0] == ':' && IsDigit(s[1]) && IsDigit(s[2]) then
      var fr := Fraction(s[3..]);
      (PairValue(s[1], s[2]), fr.0, fr.1)
    else (0, 0, s)
  }

  /** The optional `'.' fraction` after the seconds (`appendFraction(NANO_OF_SECOND, 0, 9, true)`):
      zero to nine digits, scaled to nanoseconds. Gives the nanoseconds and the rest. */
  function Fraction(s: string): (int, string)
  {
    if s != [] && s[0] == '.' then
      var k := Min(DigitRun(s[1..]), 9);
      (DigitsValue(s[1..1 + k]) * Pow10(9 - k), s[1 + k..])
    else (0, s)
  }

  /** `ISO_LOCAL_TIME` at the front of `s`: HH ':' mm, then the optional seconds.
      Gives the time and the rest. */
  function TimePart(s: string): Option<(LocalTime, string)>
  {
    var hr :- TwoDigits(s);
    var r1 :- Literal(hr.1, ':');
    var mr :- TwoDigits(r1);
    ResolveTime(hr.0, mr.0, OptionalSeconds(mr.1))
  }

  /** Strict resolution of a parsed time: hour 0..23, minute and second 0..59. */
  function ResolveTime(h: int, m: int, secs: (int, int, string)): Option<(LocalTime, string)>
  {
    if 0 <= h <= 23 && 0 <= m <= 59 && secs.0 <= 59 then
      Some((LocalTime(h, m, secs.0, secs.1), secs.2))
    else None
  }

  /** The date-time separator `T`, matched case-insensitively. */
  function TimeSeparator(s: string): Option<string>
  {
    if s != [] && (s[0] == 'T' || s[0] == 't') then Some(s[1..]) else None
  }

  /** `ISO_LOCAL_DATE_TIME` at the front of `s`: the date, the time and the rest. */
  function LocalDateTime(s: string): Option<(LocalDate, LocalTime, string)>
  {
    var dr :- DatePart(s);
    TimeAfterDate(dr.0, dr.1)
  }

  /** The `T` and the time that follow an already parsed `date`. */
  function TimeAfterDate(date: LocalDate, s: string): Option<(LocalDate, LocalTime, string)>
  {
    var r1 :- TimeSeparator(s);
    var tr :- TimePart(r1);
    Some((date, tr.0, tr.1))
  }

  /** `appendOffsetId()` on the whole of `s`, with the lenient offset parsing that
      `ISO_OFFSET_DATE_TIME` switches on for it: `Z` in either case, or a sign and HH, then
      optionally ':' MM and, after the minutes, optionally ':' ss, within eighteen hours.
      Gives the offset in seconds east of UTC. */
  function Offset(s: string): (r: Option<int>)
    ensures r.Some? ==> -MaxOffsetSeconds <= r.value <= MaxOffsetSeconds
  {
    if s == [] then None
    else if s[0] == 'Z' || s[0] == 'z' then (if |s| == 1 then Some(0) else None)
    else if s[0] == '+' || s[0] == '-' then
      var hr :- TwoDigits(s[1..]);
      var minutes := OffsetField(hr.1);
      var seconds := if minutes.0 then OffsetField(minutes.2) else (false, 0, minutes.2);
      var total := hr.0 * 3600 + minutes.1 * 60 + seconds.1;
      if seconds.2 == [] && hr.0 <= 23 && total <= MaxOffsetSeconds then
        Some(if s[0] == '-' then -total else total)
      else None
    else None
  }

  /** An optional `':' nn` field of a lenient offset, taken only when `nn` is at most 59:
      whether it is there, its value (0 when it is not) and the rest (all of `s` when it is not). */
  function OffsetField(s: string): (bool, int, string)
  {
    if |s| >= 3 && s[0] == ':' && IsDigit(s[1]) && IsDigit(s[2]) && PairValue(s[1], s[2]) <= 59 then
      (true, PairValue(s[1], s[2]), s[3..])
    else (false, 0, s)
  }

  /** `OffsetDateTime.parse(s, ISO_OFFSET_DATE_TIME)` as an instant, or `None` where Java throws
      `DateTimeParseException`. The whole string must be consumed. */
  function ParseOffsetDateTime(s: string): Option<OffsetDateTime>
  {
    var lr :- LocalDateTime(s);
    var off :- Offset(lr.2);
    Some(OffsetDateTime(lr.0, lr.1, off))
  }

  /** `LocalDate.parse(s, ISO_LOCAL_DATE)`, or `None` where Java throws. */
  function ParseLocalDate(s: string): Option<LocalDate>
  {
    var dr :- DatePart(s);
    if dr.1 == [] then Some(dr.0) else None
  }
}
