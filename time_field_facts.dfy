/** The value of every offset and every time of day the `java.time` parsers accept, stated
    for all digits: the lenient offset forms `+HH`, `+HH:mm` and `+HH:mm:ss`, the time forms
    `HH:mm` and `HH:mm:ss[.f]`, and the field values the parsers refuse. */
module TimeFieldFacts {
  import opened Wrappers
  import opened IsoDates
  import opened IsoDateFacts

  /** An offset's magnitude with its sign applied: `-` is west of UTC. */
  function Signed(sign: char, total: int): int
  {
    if sign == '-' then -total else total
  }

  predicate IsSign(c: char) { c == '+' || c == '-' }

  /** The texts the lenient offset parser accepts, by shape: `Z` or `z`, or a sign and two
      digits, optionally followed by `:` and two digits, and then optionally by another. */
  predicate OffsetShaped(s: string)
  {
    || s == "Z" || s == "z"
    || (&& (|s| == 3 || |s| == 6 || |s| == 9)
        && IsSign(s[0]) && IsDigit(s[1]) && IsDigit(s[2])
        && (|s| >= 6 ==> s[3] == ':' && IsDigit(s[4]) && IsDigit(s[5]))
        && (|s| == 9 ==> s[6] == ':' && IsDigit(s[7]) && IsDigit(s[8])))
  }

  /** `+HH`: whole hours, up to eighteen. */
  lemma OffsetHours(sign: char, h1: char, h2: char)
    requires IsSign(sign) && IsDigit(h1) && IsDigit(h2) && PairValue(h1, h2) <= 18
    ensures Offset([sign, h1, h2]) == Some(Signed(sign, PairValue(h1, h2) * 3600))
  {
    assert [sign, h1, h2][1..] == [h1, h2];
  }

  /** `+HH:mm`: hours up to 23 and minutes up to 59, within eighteen hours in all. */
  lemma OffsetHoursMinutes(sign: char, h1: char, h2: char, m1: char, m2: char)
    requires IsSign(sign) && IsDigit(h1) && IsDigit(h2) && IsDigit(m1) && IsDigit(m2)
    requires PairValue(h1, h2) <= 23 && PairValue(m1, m2) <= 59
    requires PairValue(h1, h2) * 3600 + PairValue(m1, m2) * 60 <= MaxOffsetSeconds
    ensures Offset([sign, h1, h2, ':', m1, m2])
         == Some(Signed(sign, PairValue(h1, h2) * 3600 + PairValue(m1, m2) * 60))
  {
    var s := [sign, h1, h2, ':', m1, m2];
    assert s[1..][2..] == [':', m1, m2];
    assert OffsetField([':', m1, m2]) == (true, PairValue(m1, m2), []);
  }

  /** `+HH:mm:ss`: hours up to 23, minutes and seconds up to 59, within eighteen hours in all. */
  lemma OffsetHoursMinutesSeconds(sign: char, h1: char, h2: char, m1: char, m2: char, s1: char, s2: char)
    requires IsSign(sign) && IsDigit(h1) && IsDigit(h2) && IsDigit(m1) && IsDigit(m2)
    requires IsDigit(s1) && IsDigit(s2)
    requires PairValue(h1, h2) <= 23 && PairValue(m1, m2) <= 59 && PairValue(s1, s2) <= 59
    requires PairValue(h1, h2) * 3600 + PairValue(m1, m2) * 60 + PairValue(s1, s2) <= MaxOffsetSeconds
    ensures Offset([sign, h1, h2, ':', m1, m2, ':', s1, s2])
         == Some(Signed(sign, PairValue(h1, h2) * 3600 + PairValue(m1, m2) * 60 + PairValue(s1, s2)))
  {
    var s := [sign, h1, h2, ':', m1, m2, ':', s1, s2];
    assert s[1..][2..] == [':', m1, m2, ':', s1, s2];
    assert [':', m1, m2, ':', s1, s2][3..] == [':', s1, s2];
    assert OffsetField([':', m1, m2, ':', s1, s2]) == (true, PairValue(m1, m2), [':', s1, s2]);
    assert [':', s1, s2][3..] == [];
    assert OffsetField([':', s1, s2]) == (true, PairValue(s1, s2), []);
  }

  /** Hours beyond eighteen are refused, whatever follows them. */
  lemma OffsetHourRefused(sign: char, h1: char, h2: char, rest: string)
    requires IsSign(sign) && IsDigit(h1) && IsDigit(h2) && PairValue(h1, h2) > 18
    ensures Offset([sign, h1, h2] + rest).None?
  {
    assert ([sign, h1, h2] + rest)[1..] == [h1, h2] + rest;
  }

  /** A minute field above 59 is not taken, and the text it leaves makes the offset fail. */
  lemma OffsetMinuteRefused(sign: char, h1: char, h2: char, m1: char, m2: char, rest: string)
    requires IsSign(sign) && IsDigit(h1) && IsDigit(h2) && IsDigit(m1) && IsDigit(m2)
    requires PairValue(m1, m2) > 59
    ensures Offset([sign, h1, h2, ':', m1, m2] + rest).None?
  {
    var s := [sign, h1, h2, ':', m1, m2] + rest;
    assert s[1..][2..] == [':', m1, m2] + rest;
  }

  /** A second field above 59 is not taken, and the text it leaves makes the offset fail. */
  lemma OffsetSecondRefused(sign: char, h1: char, h2: char, m1: char, m2: char, s1: char, s2: char, rest: string)
    requires IsSign(sign) && IsDigit(h1) && IsDigit(h2) && IsDigit(m1) && IsDigit(m2)
    requires IsDigit(s1) && IsDigit(s2) && PairValue(m1, m2) <= 59 && PairValue(s1, s2) > 59
    ensures Offset([sign, h1, h2, ':', m1, m2, ':', s1, s2] + rest).None?
  {
    var s := [sign, h1, h2, ':', m1, m2, ':', s1, s2] + rest;
    assert s[1..][2..] == [':', m1, m2, ':', s1, s2] + rest;
    assert ([':', m1, m2, ':', s1, s2] + rest)[3..] == [':', s1, s2] + rest;
    assert OffsetField(s[1..][2..]) == (true, PairValue(m1, m2), [':', s1, s2] + rest);
  }

  /** Every accepted offset has one of the shapes above, so the value lemmas cover them all. */
  lemma OffsetShape(s: string)
    requires Offset(s).Some?
    ensures OffsetShaped(s)
  {
    if IsSign(s[0]) {
      var hr := TwoDigits(s[1..]).value;
      assert hr.1 == s[3..];
      var minutes := OffsetField(hr.1);
      if minutes.0 {
        assert minutes.2 == s[6..];
        var seconds := OffsetField(minutes.2);
        if seconds.0 {
          assert seconds.2 == s[9..];
        }
      }
    }
  }

  /** A text that does not open an optional `:ss` section. */
  predicate NoSecondsSection(rest: string)
  {
    !(|rest| >= 3 && rest[0] == ':' && IsDigit(rest[1]) && IsDigit(rest[2]))
  }

  /** `HH:mm` with nothing that continues it reads as that hour and minute, with no seconds. */
  lemma TimeHoursMinutes(h1: char, h2: char, m1: char, m2: char, rest: string)
    requires IsDigit(h1) && IsDigit(h2) && IsDigit(m1) && IsDigit(m2)
    requires PairValue(h1, h2) <= 23 && PairValue(m1, m2) <= 59 && NoSecondsSection(rest)
    ensures TimePart([h1, h2, ':', m1, m2] + rest)
         == Some((LocalTime(PairValue(h1, h2), PairValue(m1, m2), 0, 0), rest))
  {
    var s := [h1, h2, ':', m1, m2] + rest;
    assert s[2..][1..] == [m1, m2] + rest;
    assert ([m1, m2] + rest)[2..] == rest;
  }

  /** `HH:mm:ss` reads as that hour, minute and second, and the fraction that follows gives
      the nanoseconds. */
  lemma TimeWithSeconds(h1: char, h2: char, m1: char, m2: char, s1: char, s2: char, rest: string)
    requires IsDigit(h1) && IsDigit(h2) && IsDigit(m1) && IsDigit(m2) && IsDigit(s1) && IsDigit(s2)
    requires PairValue(h1, h2) <= 23 && PairValue(m1, m2) <= 59 && PairValue(s1, s2) <= 59
    ensures TimePart([h1, h2, ':', m1, m2, ':', s1, s2] + rest)
         == Some((LocalTime(PairValue(h1, h2), PairValue(m1, m2), PairValue(s1, s2), Fraction(rest).0),
                  Fraction(rest).1))
  {
    var s := [h1, h2, ':', m1, m2, ':', s1, s2] + rest;
    assert s[2..][1..] == [m1, m2, ':', s1, s2] + rest;
    assert ([m1, m2, ':', s1, s2] + rest)[2..] == [':', s1, s2] + rest;
    assert ([':', s1, s2] + rest)[3..] == rest;
  }

  /** An hour above 23 or a minute above 59 is refused. */
  lemma TimeFieldRefused(h1: char, h2: char, m1: char, m2: char, rest: string)
    requires IsDigit(h1) && IsDigit(h2) && IsDigit(m1) && IsDigit(m2)
    requires PairValue(h1, h2) > 23 || PairValue(m1, m2) > 59
    ensures TimePart([h1, h2, ':', m1, m2] + rest).None?
  {
    var s := [h1, h2, ':', m1, m2] + rest;
    assert s[2..][1..] == [m1, m2] + rest;
  }

  /** A second above 59 is refused. */
  lemma TimeSecondRefused(h1: char, h2: char, m1: char, m2: char, s1: char, s2: char, rest: string)
    requires IsDigit(h1) && IsDigit(h2) && IsDigit(m1) && IsDigit(m2) && IsDigit(s1) && IsDigit(s2)
    requires PairValue(s1, s2) > 59
    ensures TimePart([h1, h2, ':', m1, m2, ':', s1, s2] + rest).None?
  {
    var s := [h1, h2, ':', m1, m2, ':', s1, s2] + rest;
    assert s[2..][1..] == [m1, m2, ':', s1, s2] + rest;
    assert ([m1, m2, ':', s1, s2] + rest)[2..] == [':', s1, s2] + rest;
  }

  /** `.` and up to nine digits not followed by another digit give those digits scaled to
      nanoseconds; a tenth digit would not be taken. */
  lemma FractionDigits(digits: string, rest: string)
    requires |digits| <= 9 && forall i :: 0 <= i < |digits| ==> IsDigit(digits[i])
    requires |digits| == 9 || rest == [] || !IsDigit(rest[0])
    ensures Fraction(['.'] + digits + rest) == (DigitsValue(digits) * Pow10(9 - |digits|), rest)
  {
    var t := digits + rest;
    var n := |digits|;
    assert forall i :: 0 <= i < n ==> IsDigit(t[i]);
    if n == 9 {
      DigitRunAtLeast(t, n);
    } else {
      DigitRunOf(t, n);
    }
    FractionOf(t, n, digits, rest);
  }

  /** The fraction reads the first `n` characters after the `.` when the digit run, cut at
      nine, is `n` long. */
  lemma FractionOf(t: string, n: nat, digits: string, rest: string)
    requires t == digits + rest && n == |digits| && n == Min(DigitRun(t), 9)
    ensures Fraction(['.'] + digits + rest) == (DigitsValue(digits) * Pow10(9 - n), rest)
  {
    var s := ['.'] + digits + rest;
    assert s[1..] == t;
    assert s[1..1 + n] == digits && s[1 + n..] == rest;
  }

  /** A text that starts with `n` digits has a digit run at least `n` long. */
  lemma {:induction false} DigitRunAtLeast(s: string, n: nat)
    requires n <= |s| && forall i :: 0 <= i < n ==> IsDigit(s[i])
    ensures DigitRun(s) >= n
  {
    if n > 0 {
      DigitRunAtLeast(s[1..], n - 1);
    }
  }
}
