/**
 * Decimal text of integers, as `big.Int.String` and `fmt`'s `%d` / `%0Nd` produce
 * it, together with a reader of digit strings used to state round trips.
 */
module Text {
  predicate IsDigit(c: char) { '0' <= c <= '9' }

  predicate AllDigits(s: string) { forall i :: 0 <= i < |s| ==> IsDigit(s[i]) }

  /** 10^k, and 1 for k <= 0 (as `big.Int.Exp` returns for a non-positive exponent). */
  function Pow10(k: int): (r: nat)
    ensures r >= 1
    decreases if k <= 0 then 0 else k
  {
    if k <= 0 then 1 else 10 * Pow10(k - 1)
  }

  lemma Pow10Add(a: nat, b: nat)
    ensures Pow10(a + b) == Pow10(a) * Pow10(b)
  {
    if a > 0 { Pow10Add(a - 1, b); }
  }

  lemma Pow10Monotone(a: nat, b: nat)
    requires a <= b
    ensures Pow10(a) <= Pow10(b)
  {
    if a < b { Pow10Monotone(a, b - 1); }
  }

  function DigitChar(d: nat): (c: char)
    requires d < 10
    ensures IsDigit(c)
  {
    (48 + d) as char
  }

  function DigitOf(c: char): (d: nat)
    requires IsDigit(c)
    ensures d < 10
  {
    (c as int) - 48
  }

  /** The shortest decimal text of a natural number ("0" for zero). */
  function NatToString(n: nat): (s: string)
    ensures |s| >= 1 && AllDigits(s)
  {
    if n < 10 then [DigitChar(n)] else NatToString(n / 10) + [DigitChar(n % 10)]
  }

  /** `big.Int.String()` and `%d`: a minus sign for negative values, then the digits. */
  function IntToString(i: int): string
  {
    if i < 0 then "-" + NatToString(-i) else NatToString(i)
  }

  /** The number a string of digits denotes (leading zeros allowed). */
  function DigitsValue(s: string): nat
    requires AllDigits(s)
  {
    if s == [] then 0 else DigitsValue(s[..|s| - 1]) * 10 + DigitOf(s[|s| - 1])
  }

  /** Reading back the text of n gives n. */
  lemma {:induction false} NatToStringRoundTrip(n: nat)
    ensures DigitsValue(NatToString(n)) == n
  {
    var s := NatToString(n);
    if n < 10 {
      assert s[..0] == [];
    } else {
      NatToStringRoundTrip(n / 10);
      assert s[..|s| - 1] == NatToString(n / 10);
    }
  }

  /** The text of n is at most p characters long exactly when n < 10^p. */
  lemma {:induction false} NatToStringLength(n: nat, p: nat)
    requires p >= 1
    ensures |NatToString(n)| <= p <==> n < Pow10(p)
  {
    if n >= 10 {
      if p == 1 {
        assert Pow10(1) == 10;
      } else {
        NatToStringLength(n / 10, p - 1);
        assert Pow10(p) == 10 * Pow10(p - 1);
      }
    } else {
      Pow10Monotone(1, p);
      assert Pow10(1) == 10;
    }
  }

  function Zeros(k: nat): (s: string)
    ensures |s| == k && AllDigits(s)
  {
    if k == 0 then "" else "0" + Zeros(k - 1)
  }

  /** `s` with '0' characters prepended until it is at least n long. */
  function PadZeros(s: string, n: int): (r: string)
    ensures |r| == if |s| >= n then |s| else n
  {
    if |s| >= n then s else Zeros(n - |s|) + s
  }

  /** Leading zeros do not change the number a digit string denotes. */
  lemma {:induction false} ZerosPrefixValue(k: nat, s: string)
    requires AllDigits(s)
    ensures AllDigits(Zeros(k) + s) && DigitsValue(Zeros(k) + s) == DigitsValue(s)
  {
    var t := Zeros(k) + s;
    if s == [] {
      assert t == Zeros(k);
      ZerosValue(k);
    } else {
      ZerosPrefixValue(k, s[..|s| - 1]);
      assert t[..|t| - 1] == Zeros(k) + s[..|s| - 1];
      assert t[|t| - 1] == s[|s| - 1];
    }
  }

  lemma {:induction false} ZerosValue(k: nat)
    ensures DigitsValue(Zeros(k)) == 0
  {
    if k > 0 {
      var z := Zeros(k);
      assert z == Zeros(k - 1) + "0" by { ZerosSnoc(k); }
      assert z[..|z| - 1] == Zeros(k - 1);
      ZerosValue(k - 1);
    }
  }

  lemma {:induction false} ZerosSnoc(k: nat)
    requires k > 0
    ensures Zeros(k) == Zeros(k - 1) + "0"
  {
    if k > 1 { ZerosSnoc(k - 1); }
  }

  /** Zero padding keeps the value of the digits it pads. */
  lemma PadZerosValue(s: string, n: int)
    requires AllDigits(s)
    ensures AllDigits(PadZeros(s, n)) && DigitsValue(PadZeros(s, n)) == DigitsValue(s)
  {
    if |s| < n { ZerosPrefixValue(n - |s|, s); }
  }

  /**
   * `fmt`'s `%0<width>d`: the sign, then the digits of |i| padded with zeros,
   * the whole at least `width` characters long.
   */
  function FormatZeroPadded(i: int, width: nat): (s: string)
  {
    if i < 0 then "-" + PadZeros(NatToString(-i), width - 1) else PadZeros(NatToString(i), width)
  }
}
