/** Worked values of the `java.time` parsers, taken from the connector's tests. */
module DateExamples {
  import opened Wrappers
  import opened IsoDates
  import opened IsoDateFacts

  lemma BareDateExample(s: string)
    requires s == "2025-10-25"
    ensures ParseLocalDate(s) == Some(LocalDate(2025, 10, 25))
    ensures ParseOffsetDateTime(s).None?
  {
    Four(s[..4]);
    PlainDate(s);
    DateIsNotDateTime(s);
  }

  lemma NewYearDate(s: string)
    requires s == "2025-01-01"
    ensures ParseLocalDate(s) == Some(LocalDate(2025, 1, 1))
  {
    Four(s[..4]);
    PlainDate(s);
  }

  lemma October20Date(s: string)
    requires s == "2025-10-20"
    ensures ParseLocalDate(s) == Some(LocalDate(2025, 10, 20))
  {
    Four(s[..4]);
    PlainDate(s);
  }

  lemma MidnightWithSeconds(s: string)
    requires s == "00:00:00"
    ensures TimePart(s) == Some((Midnight, []))
  {
    assert s[2..][1..][2..] == ":00";
  }

  lemma MillisFraction(f: string)
    requires f == ".434"
    ensures Fraction(f) == (434_000_000, [])
  {
    DigitRunOf(f[1..], 3);
    Three(f[1..]);
    assert f[1..1 + 3] == f[1..];
    assert Pow10(9 - 3) == 1_000_000;
  }

  lemma TimeWithMillis(s: string)
    requires s == "12:20:31.434"
    ensures TimePart(s) == Some((LocalTime(12, 20, 31, 434_000_000), []))
  {
    MillisFraction(s[8..]);
    assert s[2..][1..][2..] == ":31.434";
    assert s[2..][1..][2..][3..] == s[8..];
  }

  lemma MidnightZuluExample(date: string, time: string)
    requires date == "2025-01-01" && time == "00:00:00"
    ensures ParseOffsetDateTime(date + "T" + time + "Z") == Some(OffsetDateTime(LocalDate(2025, 1, 1), Midnight, 0))
  {
    NewYearDate(date);
    MidnightWithSeconds(time);
    ZuluOffset();
    DateTimeParts(date, time, "Z");
  }

  lemma FractionalZuluExample(date: string, time: string)
    requires date == "2025-10-25" && time == "12:20:31.434"
    ensures ParseOffsetDateTime(date + "T" + time + "Z")
         == Some(OffsetDateTime(LocalDate(2025, 10, 25), LocalTime(12, 20, 31, 434_000_000), 0))
  {
    BareDateExample(date);
    TimeWithMillis(time);
    ZuluOffset();
    DateTimeParts(date, time, "Z");
  }

  /** An offset of hours alone, `+01`, is one hour east of UTC. */
  lemma HourOffset(s: string)
    requires s == "+01"
    ensures Offset(s) == Some(3600)
  {
    assert s[1..][2..] == [];
  }

  /** `2025-01-01T00:00:00+01` is midnight of 2025-01-01 at offset +01:00. */
  lemma HourOffsetExample(date: string, time: string, offset: string)
    requires date == "2025-01-01" && time == "00:00:00" && offset == "+01"
    ensures ParseOffsetDateTime(date + "T" + time + offset) == Some(OffsetDateTime(LocalDate(2025, 1, 1), Midnight, 3600))
  {
    NewYearDate(date);
    MidnightWithSeconds(time);
    HourOffset(offset);
    DateTimeParts(date, time, offset);
  }

  lemma NotADateExample(s: string)
    requires s == "not-a-date"
    ensures ParseOffsetDateTime(s).None? && ParseLocalDate(s).None?
  {
    assert DigitRun(s) == 0;
  }
}
