/**
  Decimal text of non-negative integers: Python's `str(n)` (used by
  `'unknown-{}'.format(i)` and by the `{0.month}` date fields) and `int(t)`
  on a run of ASCII digits.
 */
module Decimal {

  predicate IsDigit(c: char) { '0' <= c <= '9' }

  predicate AllDigits(s: string) {
    forall i :: 0 <= i < |s| ==> IsDigit(s[i])
  }

  function DigitValue(c: char): (v: nat)
    requires IsDigit(c)
    ensures v < 10
  {
    c as int - '0' as int
  }

  function DigitChar(v: nat): (c: char)
    requires v < 10
    ensures IsDigit(c) && DigitValue(c) == v
  {
    ('0' as int + v) as char
  }

  /** The value `int(s)` gives a non-empty string of ASCII digits. */
  function Value(s: string): nat
    requires AllDigits(s)
  {
    if |s| == 0 then 0 else Value(s[..|s| - 1]) * 10 + DigitValue(s[|s| - 1])
  }

  /** Digits with no superfluous leading zero: what `str` prints. */
  predicate Canonical(s: string) {
    |s| >= 1 && AllDigits(s) && (s[0] == '0' ==> |s| == 1)
  }

  /** `str(n)`: decimal digits, most significant first, never zero-padded. */
  function Show(n: nat): (s: string)
    ensures Canonical(s) && Value(s) == n
    ensures n < 10 <==> |s| == 1
    ensures n < 100 <==> |s| <= 2
    ensures n < 1000 <==> |s| <= 3
    ensures n < 10000 <==> |s| <= 4
  {
    if n < 10 then [DigitChar(n)]
    else
      var hi := Show(n / 10);
      var s := hi + [DigitChar(n % 10)];
      assert s[..|s| - 1] == hi;
      s
  }

  lemma DigitRoundTrip(c: char)
    requires IsDigit(c)
    ensures DigitChar(DigitValue(c)) == c
  {
  }

  /** One- and two-digit numbers print as their digits. */
  lemma ShowSmall(n: nat)
    requires n < 100
    ensures n < 10 ==> Show(n) == [DigitChar(n)]
    ensures n >= 10 ==> Show(n) == [DigitChar(n / 10), DigitChar(n % 10)]
  {
    if n >= 10 {
      assert Show(n) == Show(n / 10) + [DigitChar(n % 10)];
    }
  }

  /** A string of at most four digits is worth less than 10000. */
  lemma {:induction false} ValueBelow(s: string)
    requires AllDigits(s)
    ensures |s| <= 1 ==> Value(s) < 10
    ensures |s| <= 2 ==> Value(s) < 100
    ensures |s| <= 3 ==> Value(s) < 1000
    ensures |s| <= 4 ==> Value(s) < 10000
    decreases |s|
  {
    if |s| > 0 {
      ValueBelow(s[..|s| - 1]);
    }
  }

  /** Two numbers print alike only if they are equal. */
  lemma ShowInjective(a: nat, b: nat)
    requires Show(a) == Show(b)
    ensures a == b
  {
  }

  /** A leading zero does not change the value. */
  lemma {:induction false} ValueLeadingZero(s: string)
    requires AllDigits(s)
    ensures AllDigits("0" + s) && Value("0" + s) == Value(s)
    decreases |s|
  {
    if |s| > 0 {
      var n := |s| - 1;
      assert ("0" + s)[..|s|] == "0" + s[..n];
      ValueLeadingZero(s[..n]);
    }
  }

  /** `'{:04d}'`-style four-digit rendering, zero-filled on the left: the only year text `%Y` accepts. */
  function Pad4(y: nat): (s: string)
    requires y < 10000
    ensures |s| == 4 && AllDigits(s) && Value(s) == y
  {
    var t := Show(y);
    if |t| == 4 then t
    else if |t| == 3 then ValueLeadingZero(t); "0" + t
    else if |t| == 2 then
      ValueLeadingZero(t); ValueLeadingZero("0" + t);
      assert "00" + t == "0" + ("0" + t);
      "00" + t
    else
      ValueLeadingZero(t); ValueLeadingZero("0" + t); ValueLeadingZero("00" + t);
      assert "00" + t == "0" + ("0" + t) && "000" + t == "0" + ("00" + t);
      "000" + t
  }

  /** A four-digit year prints the same with or without padding. */
  lemma {:induction false} ShowIsPad4(y: nat)
    requires 1000 <= y < 10000
    ensures Show(y) == Pad4(y)
  {
    DigitsDetermineValue(Show(y), Pad4(y));
  }

  /** Equal-length digit strings with equal values are equal. */
  lemma {:induction false} DigitsDetermineValue(s: string, t: string)
    requires AllDigits(s) && AllDigits(t) && |s| == |t| && Value(s) == Value(t)
    ensures s == t
    decreases |s|
  {
    if |s| > 0 {
      var n := |s| - 1;
      assert DigitValue(s[n]) == Value(s) % 10;
      assert DigitValue(t[n]) == Value(t) % 10;
      DigitsDetermineValue(s[..n], t[..n]);
      assert s == s[..n] + [s[n]];
      assert t == t[..n] + [t[n]];
    }
  }
}
