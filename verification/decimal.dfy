/** Decimal rendering of natural numbers, as JavaScript's template literals print an
    integral count (`${n}`). */
module Decimal {

  predicate IsDigit(c: char) {
    '0' <= c <= '9'
  }

  function DigitChar(d: nat): (c: char)
    requires d < 10
    ensures IsDigit(c) && c as int - '0' as int == d
  {
    "0123456789"[d]
  }

  /** The decimal digits of `n`, most significant first, without leading zeros. */
  function NatToString(n: nat): (s: string)
    ensures |s| >= 1
    ensures forall i | 0 <= i < |s| :: IsDigit(s[i])
    ensures s[0] == '0' <==> n == 0
    ensures n == 0 ==> s == "0"
    decreases n
  {
    if n < 10 then [DigitChar(n)] else NatToString(n / 10) + [DigitChar(n % 10)]
  }

  /** The value of a string of decimal digits. */
  function DigitsValue(s: string): nat
    requires forall i | 0 <= i < |s| :: IsDigit(s[i])
    decreases |s|
  {
    if |s| == 0 then 0
    else
      assert IsDigit(s[|s| - 1]);
      DigitsValue(s[..|s| - 1]) * 10 + (s[|s| - 1] as int - '0' as int)
  }

  /** Reading the rendered digits back gives the number. */
  lemma {:induction false} NatToStringRoundTrip(n: nat)
    ensures DigitsValue(NatToString(n)) == n
    decreases n
  {
    if n >= 10 {
      NatToStringRoundTrip(n / 10);
      var s := NatToString(n);
      assert s[..|s| - 1] == NatToString(n / 10);
    }
  }

  /** Distinct numbers render differently. */
  lemma NatToStringInjective(m: nat, n: nat)
    requires NatToString(m) == NatToString(n)
    ensures m == n
  {
    NatToStringRoundTrip(m);
    NatToStringRoundTrip(n);
  }

  /** Digits as `NatToString` writes them: at least one, and no leading zero. */
  predicate IsCanonical(s: string) {
    |s| >= 1 && (forall i | 0 <= i < |s| :: IsDigit(s[i])) && (s[0] == '0' ==> |s| == 1)
  }

  /** Digits that open with a non-zero digit have a positive value. */
  lemma {:induction false} NonZeroLeadIsPositive(s: string)
    requires |s| >= 1 && forall i | 0 <= i < |s| :: IsDigit(s[i])
    requires s[0] != '0'
    ensures DigitsValue(s) >= 1
    decreases |s|
  {
    if |s| > 1 {
      NonZeroLeadIsPositive(s[..|s| - 1]);
    }
  }

  /** Rendering the value of canonical digits gives the digits back, so `NatToString`
      is onto the canonical strings. */
  lemma {:induction false} CanonicalRoundTrip(s: string)
    requires IsCanonical(s)
    ensures NatToString(DigitsValue(s)) == s
    decreases |s|
  {
    var v := DigitsValue(s);
    if |s| > 1 {
      var init := s[..|s| - 1];
      assert init[0] == s[0];
      CanonicalRoundTrip(init);
      NonZeroLeadIsPositive(init);
      assert v / 10 == DigitsValue(init) && v % 10 == s[|s| - 1] as int - '0' as int;
      assert s == init + [s[|s| - 1]];
    }
  }

  /** The run of decimal digits that opens `s`. */
  function LeadingDigits(s: string): (d: string)
    ensures |d| <= |s| && d == s[..|d|]
    ensures forall i | 0 <= i < |d| :: IsDigit(d[i])
    ensures |d| < |s| ==> !IsDigit(s[|d|])
    decreases |s|
  {
    if |s| == 0 || !IsDigit(s[0]) then ""
    else [s[0]] + LeadingDigits(s[1..])
  }

  /** Digits followed by a non-digit: the leading run is exactly those digits. */
  lemma {:induction false} LeadingDigitsOf(d: string, rest: string)
    requires forall i | 0 <= i < |d| :: IsDigit(d[i])
    requires |rest| > 0 && !IsDigit(rest[0])
    ensures LeadingDigits(d + rest) == d
    decreases |d|
  {
    if |d| > 0 {
      assert (d + rest)[1..] == d[1..] + rest;
      LeadingDigitsOf(d[1..], rest);
    }
  }

  /** The count a text opens with. */
  function LeadingCount(text: string): nat {
    DigitsValue(LeadingDigits(text))
  }

  /** A count rendered and followed by a non-digit reads back as that count. */
  lemma CountReadsBack(n: nat, rest: string)
    requires |rest| > 0 && !IsDigit(rest[0])
    ensures LeadingCount(NatToString(n) + rest) == n
  {
    LeadingDigitsOf(NatToString(n), rest);
    NatToStringRoundTrip(n);
  }

  /** A rendered count followed by text that does not open with a digit. */
  function CountThen(n: nat, rest: string): (text: string)
    requires |rest| > 0 && !IsDigit(rest[0])
    ensures LeadingCount(text) == n
    ensures |text| == |NatToString(n)| + |rest|
    ensures |NatToString(n)| < |text|
    ensures text[..|NatToString(n)|] == NatToString(n)
    ensures text[|NatToString(n)|..] == rest
  {
    CountReadsBack(n, rest);
    NatToString(n) + rest
  }
}
