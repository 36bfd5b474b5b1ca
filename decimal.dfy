/** Decimal text of unbounded integers, as java.math.BigInteger writes it
    (toString) and reads it (the BigInteger(String) constructor behind Kotlin's
    String.toBigInteger), and Kotlin's String.split on a one-character delimiter. */
module Decimal {
  import opened Wrappers

  predicate IsDigit(c: char)
  {
    '0' <= c <= '9'
  }

  predicate AllDigits(s: string)
  {
    forall i | 0 <= i < |s| :: IsDigit(s[i])
  }

  function DigitChar(d: nat): (c: char)
    requires d < 10
    ensures IsDigit(c)
  {
    ('0' as int + d) as char
  }

  function DigitValue(c: char): (d: nat)
    requires IsDigit(c)
    ensures d < 10 && DigitChar(d) == c
  {
    c as int - '0' as int
  }

  /** The number a string of decimal digits denotes, most significant digit first. */
  function DigitsValue(s: string): nat
    requires AllDigits(s)
    decreases |s|
  {
    if s == [] then 0 else DigitsValue(s[..|s| - 1]) * 10 + DigitValue(s[|s| - 1])
  }

  /** The digits of `n` without leading zeros; reading them back gives `n`. */
  function NatToString(n: nat): (s: string)
    ensures |s| >= 1 && AllDigits(s)
    ensures |s| == 1 || s[0] != '0'
    ensures DigitsValue(s) == n
    decreases n
  {
    if n < 10 then [DigitChar(n)]
    else
      var s := NatToString(n / 10) + [DigitChar(n % 10)];
      assert s[..|s| - 1] == NatToString(n / 10);
      s
  }

  /** BigInteger.toString: a minus sign for negative values, then the digits of
      the magnitude. Reading the text back gives the same integer, and the text
      never holds a '/'. */
  function IntToString(i: int): (s: string)
    ensures i < 0 ==> |s| >= 2 && s[0] == '-' && s[1..] == NatToString(-i)
    ensures i >= 0 ==> s == NatToString(i)
    ensures ParseInt(s) == Some(i)
    ensures '/' !in s
  {
    if i < 0 then
      var s := "-" + NatToString(-i);
      assert s[1..] == NatToString(-i);
      s
    else
      NatToString(i)
  }

  /** Text BigInteger(String) accepts in radix 10: an optional sign, '-' or '+',
      then at least one decimal digit and nothing else. */
  predicate IsNumeral(t: string)
  {
    var start := if |t| > 0 && (t[0] == '-' || t[0] == '+') then 1 else 0;
    start < |t| && AllDigits(t[start..])
  }

  /** The BigInteger(String) constructor in radix 10: an optional '-' or '+'
      followed by one or more decimal digits; anything else is rejected. */
  function ParseInt(s: string): (r: Option<int>)
    ensures r.Some? <==> IsNumeral(s)
    ensures r.Some? ==> |s| >= 1
    ensures r.Some? && s[0] == '-' ==> r.value <= 0
  {
    if |s| > 0 && (s[0] == '-' || s[0] == '+') then
      var digits := s[1..];
      if |digits| > 0 && AllDigits(digits) then
        var magnitude: int := DigitsValue(digits);
        Some(if s[0] == '-' then -magnitude else magnitude)
      else
        None
    else if |s| > 0 && AllDigits(s) then
      Some(DigitsValue(s))
    else
      None
  }

  /** Different integers are written differently. */
  lemma IntToStringInjective(i: int, j: int)
    requires IntToString(i) == IntToString(j)
    ensures i == j
  {
    assert ParseInt(IntToString(i)) == Some(i);
  }

  /** Kotlin's String.split with a one-character delimiter: the pieces between
      delimiters, empty pieces included; there is one more piece than there are
      delimiters, and joining the pieces with the delimiter gives `s` back. */
  function Split(s: string, sep: char): (parts: seq<string>)
    ensures |parts| >= 1
    ensures forall i | 0 <= i < |parts| :: sep !in parts[i]
    ensures sep in s <==> |parts| >= 2
    decreases |s|
  {
    if s == [] then [""]
    else
      var rest := Split(s[1..], sep);
      if s[0] == sep then
        [""] + rest
      else
        var parts := [[s[0]] + rest[0]] + rest[1..];
        assert parts[1..] == rest[1..];
        parts
  }

  /** Joining the pieces of a split gives the text back. */
  lemma {:induction false} JoinSplit(s: string, sep: char)
    ensures Join(Split(s, sep), sep) == s
    decreases |s|
  {
    if s != [] {
      JoinSplit(s[1..], sep);
      var rest := Split(s[1..], sep);
      if s[0] == sep {
        assert Split(s, sep)[1..] == rest;
      } else if |rest| == 1 {
        assert s == [s[0]] + s[1..];
      } else {
        JoinSplitStep(s[0], rest, sep);
        assert s == [s[0]] + s[1..];
      }
    }
  }

  /** Prepending a character that is not the delimiter extends the first piece. */
  lemma JoinSplitStep(c: char, rest: seq<string>, sep: char)
    requires |rest| >= 2 && c != sep
    ensures Join([[c] + rest[0]] + rest[1..], sep) == [c] + Join(rest, sep)
  {
    var parts := [[c] + rest[0]] + rest[1..];
    assert parts[1..] == rest[1..];
  }

  /** The pieces of a split, put back together with the delimiter between them. */
  function Join(parts: seq<string>, sep: char): string
    requires |parts| >= 1
    decreases |parts|
  {
    if |parts| == 1 then parts[0] else parts[0] + [sep] + Join(parts[1..], sep)
  }

  /** Splitting a text that starts with a piece free of the delimiter. */
  lemma {:induction false} SplitPrefix(a: string, t: string, sep: char)
    requires sep !in a
    ensures Split(a + t, sep) == [a + Split(t, sep)[0]] + Split(t, sep)[1..]
    decreases |a|
  {
    if a != [] {
      var S := Split(t, sep);
      assert (a + t)[0] == a[0] != sep;
      assert (a + t)[1..] == a[1..] + t;
      SplitPrefix(a[1..], t, sep);
      var R := Split(a[1..] + t, sep);
      assert R[0] == a[1..] + S[0] && R[1..] == S[1..];
      assert Split(a + t, sep) == [[a[0]] + R[0]] + R[1..];
      assert [a[0]] + (a[1..] + S[0]) == a + S[0];
    } else {
      assert a + t == t && a + Split(t, sep)[0] == Split(t, sep)[0];
      assert Split(t, sep) == [Split(t, sep)[0]] + Split(t, sep)[1..];
    }
  }

  /** A delimiter-free piece followed by the delimiter splits off as one piece. */
  lemma SplitAfterPiece(a: string, u: string, sep: char)
    requires sep !in a
    ensures Split(a + [sep] + u, sep) == [a] + Split(u, sep)
  {
    assert a + [sep] + u == a + ([sep] + u);
    SplitPrefix(a, [sep] + u, sep);
    assert ([sep] + u)[1..] == u;
    assert Split([sep] + u, sep) == [""] + Split(u, sep);
    assert a + "" == a;
  }

  /** Splitting undoes joining pieces that hold no delimiter. */
  lemma {:induction false} SplitJoin(parts: seq<string>, sep: char)
    requires |parts| >= 1
    requires forall i | 0 <= i < |parts| :: sep !in parts[i]
    ensures Split(Join(parts, sep), sep) == parts
    decreases |parts|
  {
    if |parts| == 1 {
      SplitPrefix(parts[0], "", sep);
      assert parts[0] + "" == parts[0];
    } else {
      SplitJoin(parts[1..], sep);
      SplitAfterPiece(parts[0], Join(parts[1..], sep), sep);
      assert parts == [parts[0]] + parts[1..];
    }
  }
}
