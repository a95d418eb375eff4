/** Decimal rendering of integers, the `%d` verb of Go's `fmt` package as
    `Location.String` uses it: an optional minus sign followed by the digits
    of the magnitude, most significant first, with no leading zeros.

    `Parse` is the inverse of `FromInt`; the round trip
    `Parse(FromInt(n)) == n` is what makes the line number of a rendered
    location recoverable. */
module Decimal {

  predicate IsDigit(c: char) {
    '0' <= c <= '9'
  }

  /** The digit character for a value below ten. */
  function DigitChar(d: nat): (c: char)
    requires d < 10
    ensures IsDigit(c)
    ensures DigitValue(c) == d
  {
    "0123456789"[d]
  }

  /** The value of a digit character. */
  function DigitValue(c: char): (d: nat)
    requires IsDigit(c)
    ensures d < 10
  {
    (c as int - '0' as int) as nat
  }

  /** A canonical rendering of a natural number: non-empty, all digits, and no
      leading zero unless the number itself is zero. */
  predicate IsCanonical(s: string) {
    |s| > 0 &&
    (forall i :: 0 <= i < |s| ==> IsDigit(s[i])) &&
    (s[0] == '0' ==> |s| == 1)
  }

  /** The digits of a natural number, most significant first. */
  function FromNat(n: nat): (s: string)
    ensures IsCanonical(s)
    ensures n < 10 <==> |s| == 1
    decreases n
  {
    if n < 10 then [DigitChar(n)]
    else FromNat(n / 10) + [DigitChar(n % 10)]
  }

  /** What `%d` prints for an integer: a minus sign for negatives, then the
      digits of the magnitude. */
  function FromInt(n: int): (s: string)
    ensures |s| > 0
    ensures n < 0 <==> s[0] == '-'
    ensures IsNumeral(s)
  {
    if n < 0 then "-" + FromNat(-n) else FromNat(n)
  }

  /** The value of a string of digits, read most significant first. */
  function ParseNat(s: string): (n: nat)
    requires forall i :: 0 <= i < |s| ==> IsDigit(s[i])
  {
    if |s| == 0 then 0
    else 10 * ParseNat(s[..|s| - 1]) + DigitValue(s[|s| - 1])
  }

  /** A canonical rendering of an integer: an optional minus sign, then a
      canonical rendering of the magnitude. */
  predicate IsNumeral(s: string) {
    |s| > 0 && (if s[0] == '-' then IsCanonical(s[1..]) else IsCanonical(s))
  }

  /** Reads back an optionally signed decimal numeral. */
  function Parse(s: string): int
    requires IsNumeral(s)
  {
    if s[0] == '-' then -(ParseNat(s[1..]) as int) else ParseNat(s)
  }

  /** Reading the digits of `n` back gives `n`. */
  lemma {:induction false} ParseFromNat(n: nat)
    ensures ParseNat(FromNat(n)) == n
    decreases n
  {
    if n >= 10 {
      var prefix := FromNat(n / 10);
      var s := prefix + [DigitChar(n % 10)];
      assert s[..|s| - 1] == prefix;
      ParseFromNat(n / 10);
    }
  }

  /** The round trip of `%d`: parsing what `FromInt` prints gives the number. */
  lemma ParseFromInt(n: int)
    ensures Parse(FromInt(n)) == n
  {
    var s := FromInt(n);
    if n < 0 {
      assert s[1..] == FromNat(-n);
      ParseFromNat(-n);
    } else {
      ParseFromNat(n);
    }
  }

  /** Distinct integers print differently. */
  lemma FromIntInjective(a: int, b: int)
    requires FromInt(a) == FromInt(b)
    ensures a == b
  {
    ParseFromInt(a);
    ParseFromInt(b);
  }
}
