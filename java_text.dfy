/** The few `java.lang.String` operations the connector relies on:
    `trim()`, `trim().isEmpty()`, `indexOf(char)`, `compareTo` and an ASCII
    `equalsIgnoreCase`. Strings are sequences of characters. */
module JavaText {

  /** `String.trim()` removes every leading and trailing character whose code is at most U+0020. */
  predicate IsTrimmable(c: char) { c <= ' ' }

  function TrimLeading(s: string): (r: string)
    ensures |r| <= |s| && r == s[|s| - |r|..]
    ensures r == [] || !IsTrimmable(r[0])
  {
    if s != [] && IsTrimmable(s[0]) then TrimLeading(s[1..]) else s
  }

  function TrimTrailing(s: string): (r: string)
    ensures |r| <= |s| && r == s[..|r|]
    ensures r == [] || !IsTrimmable(r[|r| - 1])
  {
    if s != [] && IsTrimmable(s[|s| - 1]) then TrimTrailing(s[..|s| - 1]) else s
  }

  /** `TrimLeading` removes only trimmable characters. */
  lemma {:induction false} TrimLeadingDropsTrimmable(s: string)
    ensures forall k :: 0 <= k < |s| - |TrimLeading(s)| ==> IsTrimmable(s[k])
  {
    if s != [] && IsTrimmable(s[0]) {
      TrimLeadingDropsTrimmable(s[1..]);
    }
  }

  /** `TrimTrailing` removes only trimmable characters. */
  lemma {:induction false} TrimTrailingDropsTrimmable(s: string)
    ensures forall k :: |TrimTrailing(s)| <= k < |s| ==> IsTrimmable(s[k])
  {
    if s != [] && IsTrimmable(s[|s| - 1]) {
      TrimTrailingDropsTrimmable(s[..|s| - 1]);
    }
  }

  /** `s.trim()`: the longest infix of `s` that neither starts nor ends with a trimmable character,
      everything outside it being trimmable. */
  function Trim(s: string): (r: string)
    ensures r == [] || (!IsTrimmable(r[0]) && !IsTrimmable(r[|r| - 1]))
    ensures |r| <= |s|
  {
    TrimTrailing(TrimLeading(s))
  }

  /** `s == null || s.trim().isEmpty()` for a present string. */
  predicate IsBlank(s: string) { Trim(s) == [] }

  lemma {:induction false} BlankIffAllTrimmable(s: string)
    ensures IsBlank(s) <==> forall k :: 0 <= k < |s| ==> IsTrimmable(s[k])
  {
    var lead := TrimLeading(s);
    var r := TrimTrailing(lead);
    TrimLeadingDropsTrimmable(s);
    TrimTrailingDropsTrimmable(lead);
    assert forall k :: 0 <= k < |lead| ==> lead[k] == s[|s| - |lead| + k];
  }

  lemma {:induction false} TrimKeepsTrimmedString(s: string)
    requires s != [] && !IsTrimmable(s[0]) && !IsTrimmable(s[|s| - 1])
    ensures Trim(s) == s
  {
    var lead := TrimLeading(s);
    var r := TrimTrailing(s);
  }

  /** Trimming text that starts with a kept character and has a kept character at position `n`
      keeps everything up to and including position `n`. */
  lemma {:induction false} TrimKeepsUpTo(s: string, n: nat)
    requires n < |s| && !IsTrimmable(s[0]) && !IsTrimmable(s[n])
    ensures |Trim(s)| > n && Trim(s)[..n + 1] == s[..n + 1]
  {
    var lead := TrimLeading(s);
    TrimTrailingDropsTrimmable(lead);
  }

  /** `trim()` cuts `s` down to an infix: only trimmable characters lie before and after it. */
  lemma TrimIsInfix(s: string) returns (i: nat)
    ensures i + |Trim(s)| <= |s| && Trim(s) == s[i..i + |Trim(s)|]
    ensures forall k :: 0 <= k < i ==> IsTrimmable(s[k])
    ensures forall k :: i + |Trim(s)| <= k < |s| ==> IsTrimmable(s[k])
  {
    var lead := TrimLeading(s);
    i := |s| - |lead|;
    TrimLeadingDropsTrimmable(s);
    TrimTrailingDropsTrimmable(lead);
    SuffixTrimmedAtEnd(s, lead, TrimTrailing(lead), i);
  }

  /** Cutting trimmable characters off the end of the suffix `s[i..]` leaves an infix of `s`
      with only trimmable characters after it. */
  lemma SuffixTrimmedAtEnd(s: string, lead: string, r: string, i: nat)
    requires i + |lead| == |s| && lead == s[i..]
    requires |r| <= |lead| && r == lead[..|r|]
    requires forall k :: |r| <= k < |lead| ==> IsTrimmable(lead[k])
    ensures r == s[i..i + |r|]
    ensures forall k :: i + |r| <= k < |s| ==> IsTrimmable(s[k])
  {
    forall k | i + |r| <= k < |s|
      ensures IsTrimmable(s[k])
    {
      assert s[k] == lead[k - i];
    }
  }

  /** `s[i..i + n]` is what trimming may leave: only trimmable characters lie outside it, and
      it is empty or starts and ends with a kept character. */
  predicate TrimmedInfix(s: string, i: nat, n: nat)
  {
    && i + n <= |s|
    && (forall k :: 0 <= k < i ==> IsTrimmable(s[k]))
    && (forall k :: i + n <= k < |s| ==> IsTrimmable(s[k]))
    && (n == 0 || (!IsTrimmable(s[i]) && !IsTrimmable(s[i + n - 1])))
  }

  /** A string has one trimmed infix (up to where an empty one sits). */
  lemma SameInfix(s: string, i: nat, n: nat, j: nat, m: nat)
    requires TrimmedInfix(s, i, n) && TrimmedInfix(s, j, m)
    ensures n == m && (n == 0 || i == j)
  {
    if n != 0 && m != 0 {
      assert !(j < i) && !(i < j) by {
        assert !IsTrimmable(s[i]) && !IsTrimmable(s[j]);
      }
    }
  }

  /** `trim()` is determined by its shape: the trimmed infix of `s`, wherever it is, is the
      trimmed text. */
  lemma TrimUnique(s: string, i: nat, n: nat)
    requires TrimmedInfix(s, i, n)
    ensures Trim(s) == s[i..i + n]
  {
    var t := Trim(s);
    var j := TrimIsInfix(s);
    KeptEndsInfix(s, j, t);
    SameInfix(s, i, n, j, |t|);
  }

  /** An infix with kept ends and only trimmable characters around it is a trimmed infix. */
  lemma KeptEndsInfix(s: string, j: nat, t: string)
    requires j + |t| <= |s| && t == s[j..j + |t|]
    requires forall k :: 0 <= k < j ==> IsTrimmable(s[k])
    requires forall k :: j + |t| <= k < |s| ==> IsTrimmable(s[k])
    requires t == [] || (!IsTrimmable(t[0]) && !IsTrimmable(t[|t| - 1]))
    ensures TrimmedInfix(s, j, |t|)
  {
    assert t != [] ==> t[0] == s[j] && t[|t| - 1] == s[j + |t| - 1];
  }

  /** Trimming twice trims once. */
  lemma TrimIdempotent(s: string)
    ensures Trim(Trim(s)) == Trim(s)
  {
    if Trim(s) != [] {
      TrimKeepsTrimmedString(Trim(s));
    }
  }

  /** `s.indexOf(c)`: the first position of `c`, or -1 when `c` does not occur. */
  function IndexOf(s: string, c: char): (r: int)
    ensures -1 <= r < |s|
    ensures r == -1 <==> c !in s
    ensures r >= 0 ==> s[r] == c && c !in s[..r]
  {
    if s == [] then -1
    else if s[0] == c then 0
    else
      var i := IndexOf(s[1..], c);
      assert s[1..][..if i < 0 then 0 else i] == s[1..1 + if i < 0 then 0 else i];
      if i < 0 then -1 else 1 + i
  }

  /** The first occurrence of `c` is where `indexOf` finds it. */
  lemma IndexOfFirst(s: string, c: char, n: nat)
    requires n < |s| && s[n] == c && c !in s[..n]
    ensures IndexOf(s, c) == n
  {
  }

  /** `a.compareTo(b)`: the difference of the first differing characters,
      or the difference of the lengths when one string is a prefix of the other. */
  function CompareTo(a: string, b: string): int
  {
    if a == [] || b == [] then |a| - |b|
    else if a[0] != b[0] then a[0] as int - b[0] as int
    else CompareTo(a[1..], b[1..])
  }

  lemma {:induction false} CompareToFlips(a: string, b: string)
    ensures CompareTo(b, a) == -CompareTo(a, b)
  {
    if a != [] && b != [] && a[0] == b[0] {
      CompareToFlips(a[1..], b[1..]);
    }
  }

  lemma {:induction false} CompareToZeroIffEqual(a: string, b: string)
    ensures CompareTo(a, b) == 0 <==> a == b
  {
    if a != [] && b != [] && a[0] == b[0] {
      CompareToZeroIffEqual(a[1..], b[1..]);
      assert a == [a[0]] + a[1..] && b == [b[0]] + b[1..];
    }
  }

  lemma {:induction false} CompareToTransitive(a: string, b: string, c: string)
    requires CompareTo(a, b) <= 0 && CompareTo(b, c) <= 0
    ensures CompareTo(a, c) <= 0
  {
    if a != [] && b != [] && c != [] && a[0] == b[0] && b[0] == c[0] {
      CompareToTransitive(a[1..], b[1..], c[1..]);
    }
  }

  function AsciiLower(c: char): char
  {
    if 'A' <= c <= 'Z' then (c as int + 32) as char else c
  }

  /** `a.equalsIgnoreCase(b)` restricted to ASCII letters, the only letters a URI scheme may hold. */
  predicate EqualsIgnoreCaseAscii(a: string, b: string)
  {
    |a| == |b| && forall i :: 0 <= i < |a| ==> AsciiLower(a[i]) == AsciiLower(b[i])
  }
}
