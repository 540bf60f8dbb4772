/** Base-10 rendering of integers, as a JavaScript template literal renders
 *  the integer parts of a date (`${n}`: no padding, a leading '-' when
 *  negative), and the reading that inverts it. */
module Decimal {
  import opened Optional

  predicate IsDigit(c: char) { '0' <= c <= '9' }

  predicate AllDigits(s: string) { forall i :: 0 <= i < |s| ==> IsDigit(s[i]) }

  function DigitChar(d: nat): (c: char)
    requires d < 10
    ensures IsDigit(c)
  {
    ('0' as int + d) as char
  }

  function DigitValue(c: char): (d: nat)
    requires IsDigit(c)
    ensures d < 10
  {
    c as int - '0' as int
  }

  /** The shortest base-10 form of `n`: no leading zero except in "0". */
  function FromNat(n: nat): (s: string)
    ensures |s| > 0 && AllDigits(s)
    ensures s[0] == '0' <==> n == 0
    ensures |s| == 1 || s[0] != '0'
    decreases n
  {
    if n < 10 then [DigitChar(n)] else FromNat(n / 10) + [DigitChar(n % 10)]
  }

  /** The value of a string of digits. */
  function ToNat(s: string): nat
    requires AllDigits(s)
    decreases |s|
  {
    if s == [] then 0 else 10 * ToNat(s[..|s| - 1]) + DigitValue(s[|s| - 1])
  }

  lemma {:induction false} ToNatFromNat(n: nat)
    ensures ToNat(FromNat(n)) == n
    decreases n
  {
    if n >= 10 {
      var s := FromNat(n);
      assert s[..|s| - 1] == FromNat(n / 10);
      ToNatFromNat(n / 10);
    }
  }

  /** `${i}` for an integer `i`. */
  function FromInt(i: int): (s: string)
    ensures |s| > 0
    ensures forall k :: 0 <= k < |s| ==> s[k] == '-' || IsDigit(s[k])
    ensures s[0] == '-' <==> i < 0
    ensures forall k :: 0 < k < |s| ==> IsDigit(s[k])
    ensures i < 0 ==> |s| > 1 && s[1] != '0'
    ensures i >= 0 ==> |s| == 1 || s[0] != '0'
  {
    if i < 0 then "-" + FromNat(-i) else FromNat(i)
  }

  /** Reads an optionally signed string of digits; anything else is not a number. */
  function ToInt(s: string): Option<int>
  {
    if |s| > 1 && s[0] == '-' && AllDigits(s[1..]) then Some(0 - ToNat(s[1..]) as int)
    else if |s| > 0 && AllDigits(s) then Some(ToNat(s))
    else None
  }

  lemma ToIntFromInt(i: int)
    ensures ToInt(FromInt(i)) == Some(i)
  {
    if i < 0 {
      ToNatFromNat(-i);
      assert FromInt(i)[1..] == FromNat(-i);
    } else {
      ToNatFromNat(i);
    }
  }
}
