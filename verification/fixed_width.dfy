/** C++ fixed-width integers as used by the k-mer index header: `int32_t`/`int`,
    `uint32_t`, and the implicit conversion of a signed `int` to the bit pattern
    of an unsigned 32-bit word. */
module FixedWidth {

  newtype int32 = x: int | -0x8000_0000 <= x < 0x8000_0000
  newtype uint32 = x: int | 0 <= x < 0x1_0000_0000

  const MinInt32: int := -0x8000_0000
  const Two32: int := 0x1_0000_0000

  /** The 32-bit two's complement pattern of the signed `int` `x`: the bits
      that a bitwise operation on `x` works on. `setPos` ANDs this pattern with
      the `int` literal `0x0FFFFFFF`, keeping its low 28 bits, which equal
      `x mod 2^28`. */
  function Bits(x: int32): (w: bv32)
    ensures w as int == x as int % Two32
    ensures x >= 0 ==> w as int == x as int
  {
    var n := x as int % Two32;
    NatBitsRoundTrip(n);
    n as bv32
  }

  /** Converting a word to an integer and back is the identity. */
  lemma WordRoundTrip(w: bv32)
    ensures (w as int) as bv32 == w
  {
  }

  lemma ShiftInZero(h: bv32)
    requires h as int < 0x8000_0000
    ensures (h << 1) as int == 2 * h as int
  {
  }

  lemma ShiftInOne(h: bv32)
    requires h as int < 0x8000_0000
    ensures ((h << 1) | 1) as int == 2 * h as int + 1
  {
  }

  /** A word whose value is `n`, built bit by bit from the most significant end. */
  ghost function FromNat(n: nat): (w: bv32)
    requires n < Two32
    ensures w as int == n
    decreases n
  {
    if n == 0 then 0
    else
      var h := FromNat(n / 2);
      if n % 2 == 1 then ShiftInOne(h); (h << 1) | 1
      else ShiftInZero(h); h << 1
  }

  /** Every integer that fits in 32 bits survives the trip to a word and back. */
  lemma {:induction false} NatBitsRoundTrip(n: nat)
    requires n < Two32
    ensures (n as bv32) as int == n
  {
    WordRoundTrip(FromNat(n));
  }
}
