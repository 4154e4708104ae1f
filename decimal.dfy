/**
 * Decimal strings of integers, as `int.ToString(CultureInfo.InvariantCulture)` writes them:
 * the digits without leading zeros, preceded by `-` for a negative number.
 */
module Decimal {
  import opened Wrappers

  predicate IsDigit(c: char) {
    '0' <= c <= '9'
  }

  predicate IsDigits(s: string) {
    forall i :: 0 <= i < |s| ==> IsDigit(s[i])
  }

  function DigitChar(d: int): (c: char)
    requires 0 <= d < 10
    ensures IsDigit(c) && c as int - '0' as int == d
  {
    ('0' as int + d) as char
  }

  /** The digits of `n`: a single digit below ten, and never a leading zero. */
  function NatToString(n: nat): (r: string)
    ensures IsDigits(r)
    ensures n < 10 <==> |r| == 1
    ensures |r| >= 1 && (|r| > 1 ==> r[0] != '0')
    decreases n
  {
    if n < 10 then [DigitChar(n)] else NatToString(n / 10) + [DigitChar(n % 10)]
  }

  /** The value of a string of digits; the empty string reads as zero. */
  function ParseNat(s: string): nat
    requires IsDigits(s)
  {
    if s == [] then 0 else ParseNat(s[..|s| - 1]) * 10 + (s[|s| - 1] as int - '0' as int)
  }

  /** Reading the digits of `n` gives back `n`. */
  lemma {:induction false} ParseNatToString(n: nat)
    ensures ParseNat(NatToString(n)) == n
    decreases n
  {
    var s := NatToString(n);
    if n < 10 {
      assert s[..0] == [];
    } else {
      ParseNatToString(n / 10);
      assert s[..|s| - 1] == NatToString(n / 10);
    }
  }

  /** `number.ToString(CultureInfo.InvariantCulture)`. */
  function IntToString(i: int): (r: string)
    ensures |r| > 0
  {
    if i < 0 then "-" + NatToString(-i) else NatToString(i)
  }

  /** The integer an invariant-culture decimal string denotes, if it is one. */
  function ParseInt(s: string): Option<int> {
    if |s| > 1 && s[0] == '-' && IsDigits(s[1..]) then Some(-(ParseNat(s[1..]) as int))
    else if |s| > 0 && IsDigits(s) then Some(ParseNat(s))
    else None
  }

  /** Every integer's string reads back as that integer, so different integers print differently. */
  lemma ParseIntToString(i: int)
    ensures ParseInt(IntToString(i)) == Some(i)
  {
    var s := IntToString(i);
    if i < 0 {
      ParseNatToString(-i);
      assert s[1..] == NatToString(-i);
    } else {
      ParseNatToString(i);
      assert IsDigit(s[0]);
    }
  }
}
