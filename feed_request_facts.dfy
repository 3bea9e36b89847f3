/** What `parseDate` promises: blank means no bound, a zone identifier in brackets is
    ignored, a bare date is midnight UTC, and a rejected input is named in the error. */
module FeedRequestFacts {
  import opened Wrappers
  import opened JavaText
  import opened IsoDates
  import opened IsoDateFacts
  import opened DateExamples
  import opened ConnectorErrors
  import opened FeedRequest

  /** Text that `trim()` leaves as it is. */
  predicate IsTrimmed(s: string)
  {
    s != [] && !IsTrimmable(s[0]) && !IsTrimmable(s[|s| - 1])
  }

  /** A present input means "no bound" exactly when it is empty or all whitespace;
      every other input is either a date-time or an error. */
  lemma {:induction false} NoBoundIffBlank(s: string, fieldName: string)
    ensures ParseDate(Some(s), fieldName) == Success(None) <==> forall k :: 0 <= k < |s| ==> IsTrimmable(s[k])
  {
    BlankIffAllTrimmable(s);
  }

  /** The `INVALID_DATE_FORMAT` message starts with the field name, says "ISO8601 format"
      and ends with the input exactly as received, untrimmed. */
  lemma InvalidDateMessage(fieldName: string, received: string)
    ensures var m := FormatMessage(fieldName, received);
            |m| >= |fieldName| + 27 + |received|
            && m[..|fieldName|] == fieldName
            && m[|fieldName| + 13..|fieldName| + 27] == "ISO8601 format"
            && m[|m| - |received|..] == received
  {
    assert FormatRequirement[13..] == "ISO8601 format";
    var m := FormatMessage(fieldName, received);
    assert m[|fieldName| + 13..|fieldName| + 27] == FormatRequirement[13..];
  }

  /** Trimmed text without a `[` is its own normal form. */
  lemma NormalizeTrimmed(s: string)
    requires IsTrimmed(s) && '[' !in s
    ensures Normalize(s) == s
  {
    TrimKeepsTrimmedString(s);
  }

  /** Everything from the first `[` on is dropped, closed or not, so a zone identifier such as
      `[GMT]` never changes the date-time read; only the error message, which quotes the input,
      can differ. */
  lemma ZoneIdIgnored(s: string, zone: string, fieldName: string)
    requires IsTrimmed(s) && '[' !in s
    ensures ParseDate(Some(s + "[" + zone), fieldName).Success? == ParseDate(Some(s), fieldName).Success?
    ensures ParseDate(Some(s), fieldName).Success? ==>
              ParseDate(Some(s + "[" + zone), fieldName) == ParseDate(Some(s), fieldName)
  {
    var x := s + "[" + zone;
    NormalizeCutsAtBracket(s, zone);
    TrimKeepsUpTo(x, |s|);
    assert !IsBlank(x);
    ReadsTrimmed(s, fieldName);
  }

  /** Trimmed text without a `[` is read as it stands. */
  lemma ReadsTrimmed(s: string, fieldName: string)
    requires IsTrimmed(s) && '[' !in s
    ensures ReadDateTime(s).Some? ==> ParseDate(Some(s), fieldName) == Success(ReadDateTime(s))
    ensures ReadDateTime(s).None? ==> ParseDate(Some(s), fieldName).Failure?
  {
    NormalizeTrimmed(s);
  }

  lemma NormalizeCutsAtBracket(s: string, zone: string)
    requires IsTrimmed(s) && '[' !in s
    ensures Normalize(s + "[" + zone) == s
  {
    var x := s + "[" + zone;
    TrimKeepsUpTo(x, |s|);
    var t := Trim(x);
    assert t[..|s|] == s;
    IndexOfFirst(t, '[', |s|);
  }

  /** A bare date reads as that date at 00:00 UTC: exactly the date-time that the same date
      written as `<date>T00:00Z` reads as. */
  lemma BareDateIsMidnightUtc(date: string, fieldName: string)
    requires ParseLocalDate(date).Some? && IsTrimmed(date) && '[' !in date
    ensures ParseDate(Some(date), fieldName) == Success(Some(AtStartOfDayUtc(ParseLocalDate(date).value)))
    ensures ParseDate(Some(date), fieldName) == ParseDate(Some(date + "T00:00Z"), fieldName)
  {
    NormalizeTrimmed(date);
    DateIsNotDateTime(date);
    DateIsMidnightUtc(date);
    var full := date + "T00:00Z";
    assert full[|full| - 1] == 'Z';
    assert '[' !in full by {
      assert full == date + "T00:00Z";
    }
    NormalizeTrimmed(full);
  }

  /** Surrounding whitespace never matters: an input reads as its trimmed text does, and
      fails exactly when that fails (only the message, which quotes the input, differs). */
  lemma PaddingIgnored(s: string, fieldName: string)
    ensures ParseDate(Some(s), fieldName).Success? == ParseDate(Some(Trim(s)), fieldName).Success?
    ensures ParseDate(Some(s), fieldName).Success? ==>
              ParseDate(Some(s), fieldName) == ParseDate(Some(Trim(s)), fieldName)
  {
    var t := Trim(s);
    TrimIdempotent(s);
    assert Trim(t) == Trim(s);
    SameNormalFormReadsAlike(s, t, fieldName);
  }

  /** Two inputs that are blank alike and have one normal form parse alike. */
  lemma SameNormalFormReadsAlike(a: string, b: string, fieldName: string)
    requires IsBlank(a) == IsBlank(b) && Trim(a) == Trim(b)
    ensures ParseDate(Some(a), fieldName).Success? == ParseDate(Some(b), fieldName).Success?
    ensures ParseDate(Some(a), fieldName).Success? ==>
              ParseDate(Some(a), fieldName) == ParseDate(Some(b), fieldName)
  {
    if !IsBlank(a) {
      var n := Normalize(a);
      assert n == Normalize(b);
      if ReadDateTime(n).Some? {
        assert ParseDate(Some(a), fieldName) == Success(ReadDateTime(n));
        assert ParseDate(Some(b), fieldName) == Success(ReadDateTime(n));
      }
    }
  }

  /** ` 2025-10-25 ` reads as 2025-10-25T00:00Z, as the bare date does. */
  lemma PaddedDateExample(s: string)
    requires s == " 2025-10-25 "
    ensures ParseDate(Some(s), "fromDate") == Success(Some(OffsetDateTime(LocalDate(2025, 10, 25), Midnight, 0)))
  {
    var date := s[1..11];
    assert date == "2025-10-25";
    assert TrimmedInfix(s, 1, 10);
    TrimUnique(s, 1, 10);
    PaddingIgnored(s, "fromDate");
    DateOnlyExample(date);
  }

  /** `2025-10-25` reads as 2025-10-25T00:00Z. */
  lemma DateOnlyExample(s: string)
    requires s == "2025-10-25"
    ensures ParseDate(Some(s), "fromDate") == Success(Some(OffsetDateTime(LocalDate(2025, 10, 25), Midnight, 0)))
  {
    BareDateExample(s);
    BareDateIsMidnightUtc(s, "fromDate");
  }

  /** `2025-01-01T00:00:00Z` reads as that instant. */
  lemma DateTimeExample(date: string, time: string)
    requires date == "2025-01-01" && time == "00:00:00"
    ensures ParseDate(Some(date + "T" + time + "Z"), "fromDate") == Success(Some(OffsetDateTime(LocalDate(2025, 1, 1), Midnight, 0)))
  {
    MidnightZuluExample(date, time);
    PlainParts(date, time);
    ZuluText(date, time);
    ReadsTrimmed(date + "T" + time + "Z", "fromDate");
  }

  /** `2025-10-25T12:20:31.434Z[GMT]` reads as `2025-10-25T12:20:31.434Z`, and so does the same
      date-time followed by any other bracketed zone (`zone` is what follows the `[`). */
  lemma ZoneIdExample(date: string, time: string, zone: string)
    requires date == "2025-10-25" && time == "12:20:31.434"
    ensures ParseDate(Some(date + "T" + time + "Z" + "[" + zone), "fromDate")
         == Success(Some(OffsetDateTime(LocalDate(2025, 10, 25), LocalTime(12, 20, 31, 434_000_000), 0)))
  {
    FractionalZuluExample(date, time);
    PlainParts(date, time);
    ZuluText(date, time);
    ZonedDateTimeReads(date + "T" + time + "Z", zone, "fromDate");
  }

  /** `2025-01-01T00:00:00+01` reads as midnight at offset +01:00: the offset's minutes may be left out. */
  lemma HourOffsetReads(date: string, time: string, offset: string)
    requires date == "2025-01-01" && time == "00:00:00" && offset == "+01"
    ensures ParseDate(Some(date + "T" + time + offset), "fromDate")
         == Success(Some(OffsetDateTime(LocalDate(2025, 1, 1), Midnight, 3600)))
  {
    HourOffsetExample(date, time, offset);
    PlainParts(date, time);
    OffsetText(date, time, offset);
    ReadsTrimmed(date + "T" + time + offset, "fromDate");
  }

  /** A trimmed date without a bracket, `T`, a bracket-free time and `+01` is trimmed and has no bracket. */
  lemma OffsetText(date: string, time: string, offset: string)
    requires IsTrimmed(date) && '[' !in date && '[' !in time && offset == "+01"
    ensures IsTrimmed(date + "T" + time + offset) && '[' !in date + "T" + time + offset
  {
    var s := date + "T" + time + offset;
    assert s[0] == date[0] && s[|s| - 1] == '1';
    assert s == date + ("T" + time + offset);
    assert '[' !in "T" + time + offset;
  }

  /** Every bound `parseDate` yields has a nanosecond field below one second. */
  lemma BoundNanoInRange(dateString: Option<string>, fieldName: string)
    requires ParseDate(dateString, fieldName).Success? && ParseDate(dateString, fieldName).value.Some?
    ensures NanoInRange(ParseDate(dateString, fieldName).value.value)
  {
    var t := Normalize(dateString.value);
    if ParseOffsetDateTime(t).Some? {
      ParsedNanoInRange(t);
    }
  }

  /** The dates and times of the examples are trimmed and have no bracket. */
  lemma PlainParts(date: string, time: string)
    requires date == "2025-01-01" || date == "2025-10-25"
    requires time == "00:00:00" || time == "12:20:31.434"
    ensures IsTrimmed(date) && '[' !in date && '[' !in time
  {
  }

  /** An offset date-time followed by a zone identifier reads as the offset date-time alone. */
  lemma ZonedDateTimeReads(s: string, zone: string, fieldName: string)
    requires IsTrimmed(s) && '[' !in s && ParseOffsetDateTime(s).Some?
    ensures ParseDate(Some(s + "[" + zone), fieldName) == Success(ParseOffsetDateTime(s))
  {
    ReadsTrimmed(s, fieldName);
    ZoneIdIgnored(s, zone, fieldName);
  }

  /** `not-a-date` is neither form and is rejected with `INVALID_DATE_FORMAT`. */
  lemma NotADateRejected(s: string)
    requires s == "not-a-date"
    ensures ParseDate(Some(s), "fromDate") == Failure(ConnectorError(InvalidDateFormat, FormatMessage("fromDate", s)))
  {
    NotADateExample(s);
    NotADateText(s);
    NormalizeTrimmed(s);
    TrimKeepsTrimmedString(s);
    assert ReadDateTime(Normalize(s)).None?;
  }

  /** `not-a-date` is trimmed and has no bracket. */
  lemma NotADateText(s: string)
    requires s == "not-a-date"
    ensures IsTrimmed(s) && '[' !in s
  {
  }

  /** A date followed by `T00:00:00Z` reads as that date at the start of its day in UTC. */
  lemma MidnightZuluReads(date: string, time: string, fieldName: string)
    requires ParseLocalDate(date).Some? && IsTrimmed(date) && '[' !in date && time == "00:00:00"
    ensures ParseDate(Some(date + "T" + time + "Z"), fieldName)
         == Success(Some(AtStartOfDayUtc(ParseLocalDate(date).value)))
  {
    MidnightWithSeconds(time);
    ZuluOffset();
    DateTimeParts(date, time, "Z");
    ZuluText(date, time);
    ReadsTrimmed(date + "T" + time + "Z", fieldName);
  }

  /** A trimmed date without a bracket, `T`, a bracket-free time and `Z` is trimmed and has no bracket. */
  lemma ZuluText(date: string, time: string)
    requires IsTrimmed(date) && '[' !in date && '[' !in time
    ensures IsTrimmed(date + "T" + time + "Z") && '[' !in date + "T" + time + "Z"
  {
    var s := date + "T" + time + "Z";
    assert s[0] == date[0] && s[|s| - 1] == 'Z';
    assert s == date + ("T" + time + "Z");
    assert '[' !in "T" + time + "Z";
  }
}
