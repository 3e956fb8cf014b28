/**
 * Go's fixed-width signed integers. Go's `int` is 64 bits wide on the platforms
 * the repository targets; `int32(x)` narrowing and fixed-width `+`/`-` wrap
 * around in two's complement.
 */
module GoInt {
  const TWO_32: int := 0x1_0000_0000
  const TWO_64: int := 0x1_0000_0000_0000_0000

  predicate IsInt32(x: int) { -0x8000_0000 <= x < 0x8000_0000 }
  predicate IsInt64(x: int) { -0x8000_0000_0000_0000 <= x < 0x8000_0000_0000_0000 }

  type Int32 = x: int | IsInt32(x)
  type Int64 = x: int | IsInt64(x)

  /** Two's complement reduction of an unbounded integer to 32 bits. */
  function Wrap32(x: int): (r: Int32)
    ensures (r - x) % TWO_32 == 0
    ensures IsInt32(x) ==> r == x
  {
    var m := x % TWO_32;
    if m < 0x8000_0000 then m else m - TWO_32
  }

  /** Two's complement reduction of an unbounded integer to 64 bits. */
  function Wrap64(x: int): (r: Int64)
    ensures (r - x) % TWO_64 == 0
    ensures IsInt64(x) ==> r == x
  {
    var m := x % TWO_64;
    if m < 0x8000_0000_0000_0000 then m else m - TWO_64
  }

  /** Saturation to the 64-bit range, which `time.Time.Sub` applies to the Duration it returns. */
  function Clamp64(x: int): (r: Int64)
    ensures IsInt64(x) ==> r == x
    ensures !IsInt64(x) ==> r == (if x < 0 then -0x8000_0000_0000_0000 else 0x7fff_ffff_ffff_ffff)
  {
    if x < -0x8000_0000_0000_0000 then -0x8000_0000_0000_0000
    else if x > 0x7fff_ffff_ffff_ffff then 0x7fff_ffff_ffff_ffff
    else x
  }

  /** Wrapping is determined by the residue: values that agree modulo 2^32 wrap alike. */
  lemma Wrap32Congruent(x: int, y: int)
    requires (x - y) % TWO_32 == 0
    ensures Wrap32(x) == Wrap32(y)
  {
    assert x % TWO_32 == y % TWO_32 by {
      var k := (x - y) / TWO_32;
      assert x - y == k * TWO_32;
      assert x == y + k * TWO_32;
    }
  }

  /** Reducing modulo 2^64 first does not change the residue modulo 2^32. */
  lemma ModOfMod64(x: int)
    ensures (x % TWO_64) % TWO_32 == x % TWO_32
  {
    var q, r := x / TWO_64, x % TWO_64;
    var q2, r2 := r / TWO_32, r % TWO_32;
    assert x == (q * TWO_32 + q2) * TWO_32 + r2;
  }

  /** Wrap64 keeps the residue modulo 2^32. */
  lemma Wrap64Residue32(x: int)
    ensures Wrap64(x) % TWO_32 == x % TWO_32
  {
    ModOfMod64(x);
    var m := x % TWO_64;
    if m >= 0x8000_0000_0000_0000 {
      assert m - TWO_64 == m + (-0x1_0000_0000) * TWO_32;
    }
  }

  /** Narrowing a 64-bit value to 32 bits after wrapping it to 64 bits first changes nothing. */
  lemma Wrap32OfWrap64(x: int)
    ensures Wrap32(Wrap64(x)) == Wrap32(x)
  {
    Wrap64Residue32(x);
  }
}
