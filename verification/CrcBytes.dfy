/**
 How bytes enter the division register: least significant bit first.
 */
module CrcBytes {
  import opened ShiftRegister
  import opened CrcTable
  import opened CrcRegister

  function Mask(k: nat): bv8
    requires k < 8
  {
    match k
    case 0 => 1 case 1 => 2 case 2 => 4 case 3 => 8
    case 4 => 16 case 5 => 32 case 6 => 64 case 7 => 128
  }

  function HasBit(b: bv8, k: nat): bool
    requires k < 8
  {
    b & Mask(k) != 0
  }

  function ByteBits(b: bv8): (bits: seq<bool>)
    ensures |bits| == 8
  {
    seq(8, k requires 0 <= k < 8 => HasBit(b, k))
  }

  function Bits(s: seq<bv8>): seq<bool> {
    seq(8 * |s|, j requires 0 <= j < 8 * |s| => ByteBits(s[j / 8])[j % 8])
  }

  lemma ByteBitsXor(a: bv8, b: bv8)
    ensures ByteBits(a ^ b) == XorBits(ByteBits(a), ByteBits(b))
  {
    forall k: nat | k < 8 { HasBitXor(a, b, k); }
    hide HasBit;
  }

  lemma HasBitXor(a: bv8, b: bv8, k: nat)
    requires k < 8
    ensures HasBit(a ^ b, k) == (HasBit(a, k) != HasBit(b, k))
  {
    hide Mask;
    assert Mask(k) & (Mask(k) - 1) == 0 by { MaskIsOneBit(k); }
    OneBitXor(a, b, Mask(k));
  }

  lemma MaskIsOneBit(k: nat)
    requires k < 8
    ensures Mask(k) & (Mask(k) - 1) == 0
  {}

  lemma OneBitXor(a: bv8, b: bv8, m: bv8)
    requires m & (m - 1) == 0
    ensures ((a ^ b) & m != 0) == ((a & m != 0) != (b & m != 0))
  {}

  lemma ByteBitsInjective(a: bv8, b: bv8)
    requires ByteBits(a) == ByteBits(b)
    ensures a == b
  {
    forall k: nat | k < 8
      ensures HasBit(a, k) == HasBit(b, k)
    {
      assert ByteBits(a)[k] == ByteBits(b)[k];
    }
    SameBits(a, b);
  }

  lemma SameBits(a: bv8, b: bv8)
    requires HasBit(a, 0) == HasBit(b, 0) && HasBit(a, 1) == HasBit(b, 1)
    requires HasBit(a, 2) == HasBit(b, 2) && HasBit(a, 3) == HasBit(b, 3)
    requires HasBit(a, 4) == HasBit(b, 4) && HasBit(a, 5) == HasBit(b, 5)
    requires HasBit(a, 6) == HasBit(b, 6) && HasBit(a, 7) == HasBit(b, 7)
    ensures a == b
  {}

  // Feeding a word its own low bit shifts it; feeding it its own low byte shifts it by eight.
  lemma OneBitShifts(c: bv32, bit: bool)
    requires bit == LowBit(c)
    ensures Step(c, bit) == Halve(c)
  {}

  function Halve(c: bv32): bv32 { c >> 1 }

  function LowBit(c: bv32): bool { c & 1 != 0 }

  function Shift(c: bv32, k: nat): bv32 {
    if k == 0 then c else Halve(Shift(c, k - 1))
  }

  lemma ShiftValues(c: bv32)
    ensures Shift(c, 0) == c && Shift(c, 1) == c >> 1 && Shift(c, 2) == c >> 2 && Shift(c, 3) == c >> 3
    ensures Shift(c, 4) == c >> 4 && Shift(c, 5) == c >> 5 && Shift(c, 6) == c >> 6 && Shift(c, 7) == c >> 7
    ensures Shift(c, 8) == c >> 8
  {
    HalveShifts(c);
    hide Halve;
  }

  lemma HalveShifts(c: bv32)
    ensures Halve(c) == c >> 1 && Halve(c >> 1) == c >> 2 && Halve(c >> 2) == c >> 3 && Halve(c >> 3) == c >> 4
    ensures Halve(c >> 4) == c >> 5 && Halve(c >> 5) == c >> 6 && Halve(c >> 6) == c >> 7 && Halve(c >> 7) == c >> 8
  {}

  lemma ByteIsLowBits(c: bv32, b: bv8, k: nat)
    requires k < 8 && c & 0xff == b as bv32
    ensures HasBit(b, k) == LowBit(Shift(c, k))
  {
    ShiftValues(c);
    LowByteBits(c, b);
    hide HasBit, LowBit, Shift;
  }

  lemma LowByteBits(c: bv32, b: bv8)
    requires c & 0xff == b as bv32
    ensures HasBit(b, 0) == LowBit(c) && HasBit(b, 1) == LowBit(c >> 1)
    ensures HasBit(b, 2) == LowBit(c >> 2) && HasBit(b, 3) == LowBit(c >> 3)
    ensures HasBit(b, 4) == LowBit(c >> 4) && HasBit(b, 5) == LowBit(c >> 5)
    ensures HasBit(b, 6) == LowBit(c >> 6) && HasBit(b, 7) == LowBit(c >> 7)
  {
    MaskedBits(c, b);
  }

  lemma MaskedBits(c: bv32, b: bv8)
    requires c & 0xff == b as bv32
    ensures (b & 1 != 0) == (c & 1 != 0) && (b & 2 != 0) == ((c >> 1) & 1 != 0)
    ensures (b & 4 != 0) == ((c >> 2) & 1 != 0) && (b & 8 != 0) == ((c >> 3) & 1 != 0)
    ensures (b & 16 != 0) == ((c >> 4) & 1 != 0) && (b & 32 != 0) == ((c >> 5) & 1 != 0)
    ensures (b & 64 != 0) == ((c >> 6) & 1 != 0) && (b & 128 != 0) == ((c >> 7) & 1 != 0)
  {}

  lemma {:induction false} DrainFrom(c: bv32, b: bv8, k: nat)
    requires k <= 8 && c & 0xff == b as bv32
    ensures Run(Step, Shift(c, k), ByteBits(b)[k..]) == Shift(c, 8)
    decreases 8 - k
  {
    if k < 8 {
      ByteIsLowBits(c, b, k);
      hide Step, HasBit, Halve, LowBit;
      OneBitShifts(Shift(c, k), HasBit(b, k));
      DrainFrom(c, b, k + 1);
    }
  }

  predicate EndsIn(c: bv32, b: bv8) { c & 0xff == b as bv32 }

  function Tail(c: bv32): bv32 { c >> 8 }

  lemma Drain(c: bv32, b: bv8)
    requires EndsIn(c, b)
    ensures Run(Step, c, ByteBits(b)) == Tail(c)
  {
    DrainFrom(c, b, 0);
    ShiftValues(c);
    hide Step, ByteBits;
    assert ByteBits(b)[0..] == ByteBits(b);
  }
}
