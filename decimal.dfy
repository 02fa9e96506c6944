/**
 * Base-10 text for 64-bit integers, as Go's strconv.FormatInt(n, 10) writes
 * it and strconv.ParseInt(s, 10, 64) reads it.
 */
module Decimal {
  import opened Wrappers
  import opened ByteOrder

  const Two63: int := 0x8000_0000_0000_0000
  const Two64: int := 0x1_0000_0000_0000_0000

  type Int64 = x: int | -0x8000_0000_0000_0000 <= x < 0x8000_0000_0000_0000
  type Uint64 = x: int | 0 <= x < 0x1_0000_0000_0000_0000

  predicate IsDigit(c: char) { '0' <= c <= '9' }

  predicate AllDigits(s: string)
  {
    forall i :: 0 <= i < |s| ==> IsDigit(s[i])
  }

  function DigitChar(d: nat): char
    requires d < 10
  {
    (d + '0' as int) as char
  }

  function DigitValue(c: char): nat
    requires IsDigit(c)
  {
    c as int - '0' as int
  }

  /** The number a string of decimal digits denotes, read left to right as ParseUint does. */
  function Value(s: string): nat
    requires AllDigits(s)
  {
    if |s| == 0 then 0 else 10 * Value(s[..|s| - 1]) + DigitValue(s[|s| - 1])
  }

  function Pow10(k: nat): nat
  {
    if k == 0 then 1 else 10 * Pow10(k - 1)
  }

  /** The digits of n with no leading zero ("0" for zero). */
  function FormatNat(n: nat): (s: string)
    ensures |s| >= 1 && AllDigits(s) && Value(s) == n
    ensures n > 0 ==> s[0] != '0'
  {
    if n < 10 then [DigitChar(n)]
    else
      var p := FormatNat(n / 10);
      assert (p + [DigitChar(n % 10)])[..|p|] == p;
      p + [DigitChar(n % 10)]
  }

  /**
   * strconv.FormatInt(n, 10): a minus sign for negative n, then the digits of |n|.
   * The text denotes n: digits whose value is n, or a sign and digits whose value is -n.
   */
  function FormatDec(n: Int64): (s: string)
    ensures n >= 0 ==> AllDigits(s) && |s| >= 1 && Value(s) == n
    ensures n < 0 ==> |s| >= 2 && s[0] == '-' && AllDigits(s[1..]) && Value(s[1..]) == -(n as int)
  {
    if n < 0 then "-" + FormatNat(-(n as int)) else FormatNat(n)
  }

  /** An optional '+' or '-' followed by one or more decimal digits. */
  predicate SignedDigits(s: string)
  {
    |s| >= 1 && (AllDigits(s) || ((s[0] == '+' || s[0] == '-') && |s| >= 2 && AllDigits(s[1..])))
  }

  /**
   * strconv.ParseInt(s, 10, 64): an optional '+' or '-', then one or more
   * decimal digits (leading zeros allowed), denoting a value in the int64
   * range.  Anything else (the empty string, a lone sign, any other
   * character, a value out of range) is an error, here None.
   */
  function ParseDec(s: string): (r: Option<Int64>)
    ensures r.Some? ==> SignedDigits(s)
    ensures |s| >= 1 && AllDigits(s) ==> (r.Some? <==> Value(s) < Two63) && (r.Some? ==> r.value == Value(s))
    ensures |s| >= 2 && s[0] == '+' && AllDigits(s[1..]) ==> r == ParseDec(s[1..])
    ensures |s| >= 2 && s[0] == '-' && AllDigits(s[1..]) ==>
              (r.Some? <==> Value(s[1..]) <= Two63) && (r.Some? ==> r.value == 0 - Value(s[1..]) as int)
  {
    if |s| == 0 then None
    else
      var neg := s[0] == '-';
      var body := if s[0] == '+' || s[0] == '-' then s[1..] else s;
      if |body| == 0 || !AllDigits(body) then None
      else
        var v: int := if neg then 0 - Value(body) as int else Value(body);
        if -Two63 <= v < Two63 then Some(v) else None
  }

  /** Parsing what FormatInt writes gives back the same int64. */
  lemma ParseFormatDec(n: Int64)
    ensures ParseDec(FormatDec(n)) == Some(n)
  {
    var s := FormatDec(n);
    if n < 0 {
      assert s[1..] == FormatNat(-(n as int));
    }
  }

  /** Distinct int64 values have distinct decimal texts. */
  lemma FormatDecInjective(a: Int64, b: Int64)
    ensures FormatDec(a) == FormatDec(b) <==> a == b
  {
    if FormatDec(a) == FormatDec(b) {
      ParseFormatDec(a);
      ParseFormatDec(b);
    }
  }

  /** Every uint64 is below 10^20. */
  lemma Uint64BelowPow10Twenty()
    ensures Two64 < Pow10(20)
  {
    assert Pow10(10) == 10_000_000_000;
  }

  /** A number below 10^k has at most k digits. */
  lemma {:induction false} FormatNatWidth(n: nat, k: nat)
    requires 1 <= k && n < Pow10(k)
    ensures |FormatNat(n)| <= k
  {
    if n >= 10 {
      assert k != 1;
      FormatNatWidth(n / 10, k - 1);
    }
  }

  /** Number of digits of n: one more than the number of digits of n / 10 once n >= 10. */
  lemma {:induction false} FormatNatWidthMonotone(a: nat, b: nat)
    requires a <= b
    ensures |FormatNat(a)| <= |FormatNat(b)|
  {
    if a >= 10 {
      FormatNatWidthMonotone(a / 10, b / 10);
    }
  }

  /**
   * For digit strings of equal length, string order is numeric order and
   * string equality is numeric equality.
   */
  lemma {:induction false} DigitsOrder(s: string, t: string)
    requires AllDigits(s) && AllDigits(t) && |s| == |t|
    ensures Lt(s, t) <==> Value(s) < Value(t)
    ensures s == t <==> Value(s) == Value(t)
  {
    if |s| > 0 {
      var n := |s| - 1;
      var s', t' := s[..n], t[..n];
      DigitsOrder(s', t');
      assert s == s' + [s[n]] && t == t' + [t[n]];
      LtSnoc(s', t', s[n], t[n]);
    }
  }

  /** n zero digits. */
  function Zeros(n: nat): (z: string)
    ensures |z| == n && AllDigits(z) && Value(z) == 0
  {
    if n == 0 then [] else Zeros(n - 1) + ['0']
  }

  /** Leading zeros do not change the value of a digit string. */
  lemma {:induction false} ValueZerosPrefix(m: nat, s: string)
    requires AllDigits(s)
    ensures AllDigits(Zeros(m) + s) && Value(Zeros(m) + s) == Value(s)
  {
    var z := Zeros(m);
    if |s| == 0 {
      assert z + s == z;
    } else {
      var n := |s| - 1;
      ValueZerosPrefix(m, s[..n]);
      assert (z + s)[..|z + s| - 1] == z + s[..n];
    }
  }
}
