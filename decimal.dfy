/**
 * Decimal rendering of integers, as a JavaScript template literal prints an
 * integral number (`${id}`): optional '-' followed by the digits, no leading
 * zeros. Used for the message `Product #<id> not found`.
 */
module Decimal {

  predicate IsDigit(c: char) {
    '0' <= c <= '9'
  }

  predicate AllDigits(s: string) {
    forall i :: 0 <= i < |s| ==> IsDigit(s[i])
  }

  /** Digits without a leading zero, except "0" itself. */
  predicate CanonicalDigits(s: string) {
    |s| > 0 && AllDigits(s) && (s[0] == '0' ==> |s| == 1)
  }

  /** The form JavaScript prints an integer in: canonical digits, after a '-' only for a negative value (no "-0"). */
  predicate Canonical(s: string) {
    if |s| > 0 && s[0] == '-' then CanonicalDigits(s[1..]) && s[1] != '0' else CanonicalDigits(s)
  }

  /** A numeral as rendered by FromInt: digits, optionally after one '-'. */
  predicate IsNumeral(s: string) {
    if |s| > 0 && s[0] == '-' then |s| > 1 && AllDigits(s[1..]) else |s| > 0 && AllDigits(s)
  }

  function DigitChar(d: nat): (c: char)
    requires d < 10
    ensures IsDigit(c) && DigitValue(c) == d
  {
    ('0' as int + d) as char
  }

  function DigitValue(c: char): nat
    requires IsDigit(c)
  {
    (c as int - '0' as int) as nat
  }

  function FromNat(n: nat): (s: string)
    ensures |s| > 0 && AllDigits(s)
    ensures s[0] == '0' ==> n == 0 && |s| == 1
  {
    if n < 10 then [DigitChar(n)] else FromNat(n / 10) + [DigitChar(n % 10)]
  }

  function FromInt(i: int): (s: string)
    ensures IsNumeral(s) && Canonical(s)
    ensures s[0] == '-' ==> i < 0 && s[1] != '0'
  {
    if i < 0 then "-" + FromNat(-i) else FromNat(i)
  }

  function ToNat(s: string): nat
    requires AllDigits(s)
  {
    if s == [] then 0 else 10 * ToNat(s[..|s| - 1]) + DigitValue(s[|s| - 1])
  }

  function ToInt(s: string): int
    requires IsNumeral(s)
  {
    if s[0] == '-' then -(ToNat(s[1..]) as int) else ToNat(s)
  }

  /** Reading back the digits of a natural number gives that number. */
  lemma {:induction false} NatRoundTrip(n: nat)
    ensures ToNat(FromNat(n)) == n
  {
    var s := FromNat(n);
    if n >= 10 {
      NatRoundTrip(n / 10);
      assert s[..|s| - 1] == FromNat(n / 10);
    }
  }

  /** Reading back the rendering of any integer gives that integer. */
  lemma RoundTrip(i: int)
    ensures ToInt(FromInt(i)) == i
  {
    if i < 0 {
      NatRoundTrip(-i);
      assert FromInt(i)[1..] == FromNat(-i);
    } else {
      NatRoundTrip(i);
    }
  }

  /** Different integers are rendered as different strings. */
  lemma FromIntInjective(a: int, b: int)
    requires FromInt(a) == FromInt(b)
    ensures a == b
  {
    RoundTrip(a);
    RoundTrip(b);
  }

  /** Digits that do not start with '0' denote a positive number. */
  lemma {:induction false} LeadingNonZero(s: string)
    requires |s| > 0 && AllDigits(s) && s[0] != '0'
    ensures ToNat(s) >= 1
    decreases |s|
  {
    if |s| > 1 {
      LeadingNonZero(s[..|s| - 1]);
    }
  }

  /** Canonical digits are the rendering of the number they denote. */
  lemma {:induction false} CanonicalNatUnique(s: string)
    requires CanonicalDigits(s)
    ensures FromNat(ToNat(s)) == s
    decreases |s|
  {
    if |s| > 1 {
      var init, last := s[..|s| - 1], s[|s| - 1];
      assert CanonicalDigits(init);
      CanonicalNatUnique(init);
      LeadingNonZero(init);
      var n := ToNat(s);
      assert n == 10 * ToNat(init) + DigitValue(last);
      assert n / 10 == ToNat(init) && n % 10 == DigitValue(last);
      assert DigitChar(DigitValue(last)) == last;
      assert s == init + [last];
    } else {
      assert DigitChar(DigitValue(s[0])) == s[0];
    }
  }

  /**
   * A canonical numeral is the only one FromInt gives for its value: the
   * rendering of an integer is fixed by being canonical and reading back.
   */
  lemma CanonicalUnique(s: string, i: int)
    requires Canonical(s) && IsNumeral(s) && ToInt(s) == i
    ensures s == FromInt(i)
  {
    if s[0] == '-' {
      CanonicalNatUnique(s[1..]);
      LeadingNonZero(s[1..]);
      assert s == "-" + s[1..];
    } else {
      CanonicalNatUnique(s);
    }
  }
}
