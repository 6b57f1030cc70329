/**
  Decimal text of integers, as Go's `fmt.Sprintf("%d", n)` and
  `encoding/json` (for integral numbers) write them: an optional minus sign
  followed by base-ten digits without leading zeros.
 */
module Decimal {

  predicate IsDigit(c: char) {
    '0' <= c <= '9'
  }

  function Digit(d: nat): (c: char)
    requires d < 10
    ensures IsDigit(c) && c as int - '0' as int == d
  {
    ('0' as int + d) as char
  }

  /** The digits of `n`, most significant first. */
  function Digits(n: nat): (s: string)
    ensures |s| > 0
    ensures forall i :: 0 <= i < |s| ==> IsDigit(s[i])
    ensures |s| > 1 ==> s[0] != '0'
  {
    if n < 10 then [Digit(n)] else Digits(n / 10) + [Digit(n % 10)]
  }

  /** `%d`: a minus sign exactly for negative numbers, then the digits. */
  function Format(n: int): (s: string)
    ensures |s| > 0
    ensures s[0] == '-' <==> n < 0
    ensures n >= 0 ==> IsDigit(s[0])
    ensures forall i :: 0 < i < |s| ==> IsDigit(s[i])
  {
    if n < 0 then "-" + Digits(-n) else Digits(n)
  }

  /** The number a string of digits denotes (the reference definition). */
  function DigitsValue(s: string): nat
    requires forall i :: 0 <= i < |s| ==> IsDigit(s[i])
  {
    if s == [] then 0
    else
      assert IsDigit(s[|s| - 1]);
      DigitsValue(s[..|s| - 1]) * 10 + (s[|s| - 1] as int - '0' as int)
  }

  /** The integer a decimal numeral denotes. */
  function Value(s: string): (n: int)
    requires forall i :: 0 < i < |s| ==> IsDigit(s[i])
    requires |s| > 0 && s[0] != '-' ==> IsDigit(s[0])
  {
    if |s| > 0 && s[0] == '-' then 0 - DigitsValue(s[1..]) else DigitsValue(s)
  }

  lemma {:induction false} DigitsRoundTrip(n: nat)
    ensures DigitsValue(Digits(n)) == n
  {
    if n >= 10 {
      var s := Digits(n / 10) + [Digit(n % 10)];
      assert s[..|s| - 1] == Digits(n / 10);
      DigitsRoundTrip(n / 10);
    }
  }

  /** Reading back what `Format` wrote gives the original integer. */
  lemma FormatRoundTrip(n: int)
    ensures Value(Format(n)) == n
  {
    if n < 0 {
      assert Format(n)[1..] == Digits(-n);
      DigitsRoundTrip(-n);
    } else {
      DigitsRoundTrip(n);
    }
  }

  /** Different integers are written differently. */
  lemma FormatInjective(m: int, n: int)
    requires Format(m) == Format(n)
    ensures m == n
  {
    FormatRoundTrip(m);
    FormatRoundTrip(n);
  }

  /**
    The length of the numeral at the front of `c`: an optional leading minus
    sign and the digits that follow it, counted from position `i`.
   */
  function NumeralLength(c: string, i: nat): (k: nat)
    requires i <= |c|
    ensures i <= k <= |c|
    decreases |c| - i
  {
    if i < |c| && (IsDigit(c[i]) || (i == 0 && c[i] == '-')) then NumeralLength(c, i + 1) else i
  }

  lemma {:induction false} NumeralLengthOfFormat(n: int, s: string, i: nat)
    requires i <= |Format(n)|
    requires s == [] || !IsDigit(s[0])
    ensures NumeralLength(Format(n) + s, i) == |Format(n)|
    decreases |Format(n)| - i
  {
    var a := Format(n);
    if i < |a| {
      assert (a + s)[i] == a[i];
      NumeralLengthOfFormat(n, s, i + 1);
    } else if s != [] {
      assert (a + s)[i] == s[0];
    }
  }

  /**
    A numeral followed by text that does not start with a digit can be cut
    off in one way only: the integer and the rest are both determined.
   */
  lemma FormatUnique(m: int, n: int, s: string, t: string)
    requires Format(m) + s == Format(n) + t
    requires s == [] || !IsDigit(s[0])
    requires t == [] || !IsDigit(t[0])
    ensures m == n && s == t
  {
    var a, b := Format(m), Format(n);
    NumeralLengthOfFormat(m, s, 0);
    NumeralLengthOfFormat(n, t, 0);
    assert a == (a + s)[..|a|] == (b + t)[..|b|] == b;
    assert s == (a + s)[|a|..] == (b + t)[|b|..] == t;
    FormatInjective(m, n);
  }
}
