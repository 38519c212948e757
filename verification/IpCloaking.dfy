/**
 The CRC-32 of contrib/ip_cloaking.c: its table-driven loop is proved equal to bit-by-bit
 division, on machines where unsigned long has 32 bits and where it has 64.
 */
module IpCloaking {
  import opened ShiftRegister
  import opened CrcTable
  import opened CrcRegister
  import opened CrcBytes

  // The checksum by definition: start value 0 and no final complement.
  ghost function Checksum(s: seq<bv8>): bv32 { Run(Step, 0, Bits(s)) }

  // -------- what the checksum promises

  function XorBytes(s: seq<bv8>, t: seq<bv8>): seq<bv8>
    requires |s| == |t|
  {
    seq(|s|, i requires 0 <= i < |s| => s[i] ^ t[i])
  }

  lemma ChecksumIsLinear(s: seq<bv8>, t: seq<bv8>)
    requires |s| == |t|
    ensures Checksum(XorBytes(s, t)) == Checksum(s) ^ Checksum(t)
  {
    hide Step, ByteBits;
    forall j | 0 <= j < 8 * |s|
      ensures Bits(XorBytes(s, t))[j] == XorBits(Bits(s), Bits(t))[j]
    {
      ByteBitsXor(s[j / 8], t[j / 8]);
    }
    assert Bits(XorBytes(s, t)) == XorBits(Bits(s), Bits(t));
    DifferenceOfRuns(0, 0, Bits(s), Bits(t));
    XorIsZero(0, 0);
  }

  // Strings that differ only inside four consecutive bytes have different checksums.
  lemma FourByteErrorIsDetected(s: seq<bv8>, t: seq<bv8>, start: nat)
    requires |s| == |t| && s != t
    requires forall i :: 0 <= i < |s| && s[i] != t[i] ==> start <= i < start + 4
    ensures Checksum(s) != Checksum(t)
  {
    hide Step, ByteBits;
    var i :| 0 <= i < |s| && s[i] != t[i];
    if Bits(s) == Bits(t) {
      forall k | 0 <= k < 8
        ensures ByteBits(s[i])[k] == ByteBits(t[i])[k]
      {
        assert Bits(s)[8 * i + k] == Bits(t)[8 * i + k];
      }
      ByteBitsInjective(s[i], t[i]);
      assert false;
    }
    BurstIsDetected(0, Bits(s), Bits(t), 8 * start);
  }

  // The checksum of RFC 1952, section 8: the register starts at all ones and is complemented.
  ghost function ChecksumRfc1952(s: seq<bv8>): bv32 { Xor(Run(Step, 0xffffffff, Bits(s)), 0xffffffff) }

  // On strings of one length the two checksums differ by a constant, so they tell the same
  // strings apart.
  lemma AgreesWithRfc1952(s: seq<bv8>, t: seq<bv8>)
    requires |s| == |t|
    ensures Checksum(s) == Checksum(t) <==> ChecksumRfc1952(s) == ChecksumRfc1952(t)
  {
    hide Step;
    UndetectedExactly(0, Bits(s), Bits(t));
    UndetectedExactly(0xffffffff, Bits(s), Bits(t));
    XorCancels(Run(Step, 0xffffffff, Bits(s)), Run(Step, 0xffffffff, Bits(t)), 0xffffffff);
  }

  // The bound of 32 is the best possible: the polynomial itself is a pattern of 33 bits that
  // goes unnoticed, whatever follows it.
  lemma BurstOf33IsNotDetected(after: seq<bool>)
    ensures Run(Step, 0, [true] + Bits([0x20, 0x83, 0xb8, 0xed]) + after) == Run(Step, 0, after)
  {
    hide Step;
    var pattern := ByteBits(0x20) + (ByteBits(0x83) + (ByteBits(0xb8) + ByteBits(0xed)));
    assert Bits([0x20, 0x83, 0xb8, 0xed]) == pattern;
    RunConcat(Step, 0, [true] + pattern, after);
    RunConcat(Step, 0, [true], pattern);
    FirstStep();
    RunConcat(Step, POLYNOMIAL, ByteBits(0x20), ByteBits(0x83) + (ByteBits(0xb8) + ByteBits(0xed)));
    Drain(POLYNOMIAL, 0x20);
    RunConcat(Step, 0xedb883, ByteBits(0x83), ByteBits(0xb8) + ByteBits(0xed));
    Drain(0xedb883, 0x83);
    RunConcat(Step, 0xedb8, ByteBits(0xb8), ByteBits(0xed));
    Drain(0xedb8, 0xb8);
    Drain(0xed, 0xed);
  }

  // Every entry is what eight zero bits make of its index.
  lemma TableIsEightSteps(i: bv32)
    requires i < 256
    ensures TableEntry(i) == Run(Step, i, Zeros(8))
  {
    hide *;
    EntryIsEightDivisions(i);
    EightZeros(i);
  }

  lemma EightZeros(i: bv32)
    ensures Run(Step, i, Zeros(8)) == Divide8(i)
  {
    hide Divide, Step;
    assert Zeros(8) == [false, false, false, false, false, false, false, false];
    RunOfEight(Step, i, false, false, false, false, false, false, false, false);
    forall c: bv32 { ZeroBitDivides(c); }
  }

  // -------- the checksum loop

  function Index(c: bv32, b: bv8): bv32 { (c ^ (b as bv32)) & 0xff }

  // One turn of the loop: a table lookup, equal to the register after the byte's eight bits.
  function TableStep(c: bv32, b: bv8): (d: bv32)
    ensures d == Run(Step, c, ByteBits(b))
  {
    IndexIsByte(c, b);
    TableStepIsEightBits(c, b);
    Xor(TableEntry(Index(c, b)), Tail(c))
  }

  lemma TableStepIsEightBits(c: bv32, b: bv8)
    requires Index(c, b) < 256
    ensures Xor(TableEntry(Index(c, b)), Tail(c)) == Run(Step, c, ByteBits(b))
  {
    hide *;
    var i := Index(c, b);
    TableIsEightSteps(i);
    RestEndsIn(c, b);
    RestTail(c, b);
    Drain(Xor(c, i), b);
    XorTwice(i, c);
    SplitRun(i, Xor(c, i), b);
  }

  lemma SplitRun(a: bv32, rest: bv32, b: bv8)
    ensures Xor(Run(Step, a, Zeros(8)), Run(Step, rest, ByteBits(b))) == Run(Step, Xor(a, rest), ByteBits(b))
  {
    hide Step, Xor, ByteBits;
    DifferenceOfRuns(a, rest, Zeros(8), ByteBits(b));
    assert XorBits(Zeros(8), ByteBits(b)) == ByteBits(b);
  }

  lemma IndexIsByte(c: bv32, b: bv8)
    ensures Index(c, b) < 256
  {}

  lemma RestEndsIn(c: bv32, b: bv8)
    ensures EndsIn(Xor(c, Index(c, b)), b)
  {
    LowByteOfXor(c, b as bv32);
  }

  lemma LowByteOfXor(c: bv32, w: bv32)
    requires w < 256
    ensures (c ^ ((c ^ w) & 0xff)) & 0xff == w
  {}

  lemma RestTail(c: bv32, b: bv8)
    ensures Tail(Xor(c, Index(c, b))) == Tail(c)
  {
    TailOfXor(c, (c ^ (b as bv32)) & 0xff);
  }

  lemma TailOfXor(c: bv32, w: bv32)
    requires w < 256
    ensures (c ^ w) >> 8 == c >> 8
  {}

  lemma XorTwice(a: bv32, c: bv32)
    ensures Xor(a, Xor(c, a)) == c
  {}

  lemma BitsAppend(s: seq<bv8>, i: nat)
    requires i < |s|
    ensures Bits(s[..i + 1]) == Bits(s[..i]) + ByteBits(s[i])
  {
    hide ByteBits;
    assert Bits(s[..i + 1])[..8 * i] == Bits(s[..i]);
    assert Bits(s[..i + 1])[8 * i..] == ByteBits(s[i]);
  }

  method Crc32(s: seq<bv8>) returns (crc: bv32)
    ensures crc == Checksum(s)
  {
    hide TableStep, Step, ByteBits;
    crc := 0;
    for i := 0 to |s|
      invariant crc == Run(Step, 0, Bits(s[..i]))
    {
      BitsAppend(s, i);
      RunConcat(Step, 0, Bits(s[..i]), ByteBits(s[i]));
      crc := TableStep(crc, s[i]);
    }
    assert s[..|s|] == s;
  }

  // The same loop where unsigned long has 64 bits.
  function Widen(c: bv32): bv64 { c as bv64 }

  function WideIndex(c: bv64, b: bv8): bv32 { ((c ^ (b as bv64)) & 0xff) as bv32 }

  function WideMix(e: bv64, c: bv64): bv64 { e ^ (c >> 8) }

  function WideTableStep(c: bv64, b: bv8): bv64 {
    WideIndexIsByte(c, b);
    WideMix(Widen(TableEntry(WideIndex(c, b))), c)
  }

  lemma WideIndexIsByte(c: bv64, b: bv8)
    ensures WideIndex(c, b) < 256
  {}

  lemma WideStepIsNarrow(c: bv32, b: bv8)
    ensures WideTableStep(Widen(c), b) == Widen(TableStep(c, b))
  {
    IndexIsByte(c, b);
    hide TableEntry, Index, WideIndex, Step, ByteBits, WideMix, Widen, Xor, Tail;
    WideIndexIsIndex(c, b);
    WideXor(TableEntry(Index(c, b)), c);
  }

  lemma WideIndexIsIndex(c: bv32, b: bv8)
    ensures WideIndex(Widen(c), b) == Index(c, b)
  {}

  lemma WideXor(e: bv32, c: bv32)
    ensures WideMix(Widen(e), Widen(c)) == Widen(Xor(e, Tail(c)))
  {}

  method Crc32Wide(s: seq<bv8>) returns (crc: bv64)
    ensures crc == Widen(Checksum(s))
  {
    hide TableStep, WideTableStep, Step, ByteBits;
    crc := 0;
    for i := 0 to |s|
      invariant crc == Widen(Run(Step, 0, Bits(s[..i])))
    {
      BitsAppend(s, i);
      RunConcat(Step, 0, Bits(s[..i]), ByteBits(s[i]));
      WideStepIsNarrow(Run(Step, 0, Bits(s[..i])), s[i]);
      crc := WideTableStep(crc, s[i]);
    }
    assert s[..|s|] == s;
  }
}

/**
 The four hash segments make_virthost computes from the checksums.
 */
module CloakHash {
  import opened IpCloaking

  // -------- the hash segments of make_virthost

  const KEY: bv32 := 23857
  const KEY2: bv32 := 38447
  const KEY3: bv32 := 64709

  // hash[0..3] of a host of four dot-separated segments, where unsigned long has 32 bits:
  // all four keep the low 30 bits of the mixed checksum.
  method HashSegments(parv: seq<seq<bv8>>) returns (hash: array<bv32>)
    requires |parv| == 4
    ensures fresh(hash) && hash.Length == 4
    ensures hash[0] == (((Checksum(parv[3]) + KEY) ^ KEY2) ^ KEY3) & 0x3fffffff
    ensures hash[1] == (((KEY2 ^ Checksum(parv[2])) + KEY3) ^ KEY) & 0x3fffffff
    ensures hash[2] == (((Checksum(parv[1]) + KEY3) ^ KEY) ^ KEY2) & 0x3fffffff
    ensures hash[3] == (((KEY3 ^ Checksum(parv[0])) + KEY2) ^ KEY) & 0x3fffffff
  {
    hide Checksum;
    hash := new bv32[4];
    var crc := Crc32(parv[3]);
    hash[0] := ((crc + KEY) ^ KEY2) ^ KEY3;
    crc := Crc32(parv[2]);
    hash[1] := ((KEY2 ^ crc) + KEY3) ^ KEY;
    crc := Crc32(parv[1]);
    hash[2] := ((crc + KEY3) ^ KEY) ^ KEY2;
    crc := Crc32(parv[0]);
    hash[3] := ((KEY3 ^ crc) + KEY2) ^ KEY;
    TrimSegments(hash);
  }

  method TrimSegments(hash: array<bv32>)
    requires hash.Length == 4
    modifies hash
    ensures hash[0] == old(hash[0]) & 0x3fffffff && hash[1] == old(hash[1]) & 0x3fffffff
    ensures hash[2] == old(hash[2]) & 0x3fffffff && hash[3] == old(hash[3]) & 0x3fffffff
  {
    Trimmed(hash[0]);
    Trimmed(hash[1]);
    Trimmed(hash[2]);
    Trimmed(hash[3]);
    TrimSegment(hash, 0, 0x3FFFFFFF, 0xFFFFFFFF);
    TrimSegment(hash, 1, 0x7FFFFFFF, 0x3FFFFFFF);
    TrimSegment(hash, 2, 0x7FFFFFFF, 0xFFFFFFFF);
    TrimSegment(hash, 3, 0x3FFFFFFF, 0x7FFFFFFF);
  }

  method TrimSegment(hash: array<bv32>, i: nat, mask: bv32, mask2: bv32)
    requires i < hash.Length
    modifies hash
    ensures hash[i] == (((old(hash[i]) << 2) >> 2) & mask) & mask2
    ensures forall j :: 0 <= j < hash.Length && j != i ==> hash[j] == old(hash[j])
  {
    hash[i] := hash[i] << 2;
    hash[i] := hash[i] >> 2;
    hash[i] := hash[i] & mask;
    hash[i] := hash[i] & mask2;
  }

  lemma Trimmed(w: bv32)
    ensures (((w << 2) >> 2) & 0x3FFFFFFF) & 0xFFFFFFFF == w & 0x3fffffff
    ensures (((w << 2) >> 2) & 0x7FFFFFFF) & 0x3FFFFFFF == w & 0x3fffffff
    ensures (((w << 2) >> 2) & 0x7FFFFFFF) & 0xFFFFFFFF == w & 0x3fffffff
    ensures (((w << 2) >> 2) & 0x3FFFFFFF) & 0x7FFFFFFF == w & 0x3fffffff
  {}

  // The same segments where unsigned long has 64 bits: hash[0], hash[1] and hash[3], the printed
  // ones, come out the same; hash[2] keeps one bit more.
  method HashSegmentsWide(parv: seq<seq<bv8>>) returns (hash: array<bv64>)
    requires |parv| == 4
    ensures fresh(hash) && hash.Length == 4
    ensures hash[0] == ((((Checksum(parv[3]) + KEY) ^ KEY2) ^ KEY3) & 0x3fffffff) as bv64
    ensures hash[1] == ((((KEY2 ^ Checksum(parv[2])) + KEY3) ^ KEY) & 0x3fffffff) as bv64
    ensures hash[2] == ((((Checksum(parv[1]) + KEY3) ^ KEY) ^ KEY2) & 0x7fffffff) as bv64
    ensures hash[3] == ((((KEY3 ^ Checksum(parv[0])) + KEY2) ^ KEY) & 0x3fffffff) as bv64
  {
    WideAddThenXor(Checksum(parv[3]), KEY, KEY2, KEY3);
    WideXorThenAdd(Checksum(parv[2]), KEY2, KEY3, KEY);
    WideAddThenXor(Checksum(parv[1]), KEY3, KEY, KEY2);
    WideXorThenAdd(Checksum(parv[0]), KEY3, KEY2, KEY);
    hide Checksum;
    hash := new bv64[4];
    var crc := Crc32Wide(parv[3]);
    hash[0] := ((crc + (KEY as bv64)) ^ (KEY2 as bv64)) ^ (KEY3 as bv64);
    crc := Crc32Wide(parv[2]);
    hash[1] := (((KEY2 as bv64) ^ crc) + (KEY3 as bv64)) ^ (KEY as bv64);
    crc := Crc32Wide(parv[1]);
    hash[2] := ((crc + (KEY3 as bv64)) ^ (KEY as bv64)) ^ (KEY2 as bv64);
    crc := Crc32Wide(parv[0]);
    hash[3] := (((KEY3 as bv64) ^ crc) + (KEY2 as bv64)) ^ (KEY as bv64);
    TrimSegmentsWide(hash);
  }

  method TrimSegmentsWide(hash: array<bv64>)
    requires hash.Length == 4
    modifies hash
    ensures hash[0] == old(hash[0]) & 0x3fffffff && hash[1] == old(hash[1]) & 0x3fffffff
    ensures hash[2] == old(hash[2]) & 0x7fffffff && hash[3] == old(hash[3]) & 0x3fffffff
  {
    TrimmedWide(hash[0]);
    TrimmedWide(hash[1]);
    TrimmedWide(hash[2]);
    TrimmedWide(hash[3]);
    TrimSegmentWide(hash, 0, 0x3FFFFFFF, 0xFFFFFFFF);
    TrimSegmentWide(hash, 1, 0x7FFFFFFF, 0x3FFFFFFF);
    TrimSegmentWide(hash, 2, 0x7FFFFFFF, 0xFFFFFFFF);
    TrimSegmentWide(hash, 3, 0x3FFFFFFF, 0x7FFFFFFF);
  }

  method TrimSegmentWide(hash: array<bv64>, i: nat, mask: bv64, mask2: bv64)
    requires i < hash.Length
    modifies hash
    ensures hash[i] == (((old(hash[i]) << 2) >> 2) & mask) & mask2
    ensures forall j :: 0 <= j < hash.Length && j != i ==> hash[j] == old(hash[j])
  {
    hash[i] := hash[i] << 2;
    hash[i] := hash[i] >> 2;
    hash[i] := hash[i] & mask;
    hash[i] := hash[i] & mask2;
  }

  lemma TrimmedWide(w: bv64)
    ensures (((w << 2) >> 2) & 0x3FFFFFFF) & 0xFFFFFFFF == w & 0x3fffffff
    ensures (((w << 2) >> 2) & 0x7FFFFFFF) & 0x3FFFFFFF == w & 0x3fffffff
    ensures (((w << 2) >> 2) & 0x7FFFFFFF) & 0xFFFFFFFF == w & 0x7fffffff
    ensures (((w << 2) >> 2) & 0x3FFFFFFF) & 0x7FFFFFFF == w & 0x3fffffff
  {}

  lemma WideAddThenXor(c: bv32, a: bv32, x: bv32, y: bv32)
    ensures ((((c as bv64) + (a as bv64)) ^ (x as bv64)) ^ (y as bv64)) & 0x3fffffff
            == ((((c + a) ^ x) ^ y) & 0x3fffffff) as bv64
    ensures ((((c as bv64) + (a as bv64)) ^ (x as bv64)) ^ (y as bv64)) & 0x7fffffff
            == ((((c + a) ^ x) ^ y) & 0x7fffffff) as bv64
  {}

  lemma WideXorThenAdd(c: bv32, x: bv32, a: bv32, y: bv32)
    ensures ((((x as bv64) ^ (c as bv64)) + (a as bv64)) ^ (y as bv64)) & 0x3fffffff
            == ((((x ^ c) + a) ^ y) & 0x3fffffff) as bv64
  {}

  // A printed segment is below 2^30, and hash[2] of the two machines agrees exactly when bit 30
  // of the mixed checksum is clear.
  lemma Hash2AgreesExactly(mixed: bv32)
    ensures mixed & 0x3fffffff < 0x40000000
    ensures (mixed & 0x7fffffff) as bv64 == (mixed & 0x3fffffff) as bv64 <==> mixed & 0x40000000 == 0
  {}
}

/**
 The user mode bit taken when the cloaking module is loaded.
 */
module UserModeBit {
  import opened ShiftRegister
  import CrcRegister
  import opened ModeBits

  ghost predicate Free(userModes: seq<bv32>, mask: bv32) {
    forall i :: 0 <= i < |userModes| ==> !Has(userModes[i], mask)
  }

  lemma UnionIsFree(userModes: seq<bv32>, mask: bv32)
    ensures !Has(Fold(Union, 0, userModes), mask) <==> Free(userModes, mask)
  {
    forall a, b { UnionClears(a, b, mask); }
    ZeroClears(mask);
    hide Has, Union;
    FoldHolds(Union, 0, userModes, mode => !Has(mode, mask));
  }

  // The lowest bit that no user mode uses, or 0 when all 32 are in use.
  method FindFreeMode(userModes: seq<bv32>) returns (umode: bv32)
    ensures umode == 0 ==> forall j: nat :: j < 32 ==> !Free(userModes, CrcRegister.PowerOfTwo(j))
    ensures umode != 0 ==> exists k: nat :: k < 32 && umode == CrcRegister.PowerOfTwo(k) && Free(userModes, umode)
                                            && forall j: nat :: j < k ==> !Free(userModes, CrcRegister.PowerOfTwo(j))
  {
    hide CrcRegister.PowerOfTwo, Free, Has, Union;
    var all: bv32 := 0;
    for i := 0 to |userModes|
      invariant all == Fold(Union, 0, userModes[..i])
    {
      assert userModes[..i + 1][..i] == userModes[..i];
      all := Union(all, userModes[i]);
    }
    assert userModes[..|userModes|] == userModes;
    umode := LowestClear(all);
    forall mask { UnionIsFree(userModes, mask); }
  }

  method LowestClear(all: bv32) returns (umode: bv32)
    ensures umode == 0 ==> forall j: nat :: j < 32 ==> Has(all, CrcRegister.PowerOfTwo(j))
    ensures umode != 0 ==> exists k: nat :: k < 32 && umode == CrcRegister.PowerOfTwo(k) && !Has(all, umode)
                                            && forall j: nat :: j < k ==> Has(all, CrcRegister.PowerOfTwo(j))
  {
    hide CrcRegister.PowerOfTwo, Has;
    umode := 1;
    ghost var k: nat := 0;
    FirstPower();
    while umode != 0 && Has(all, umode)
      invariant k <= 32 && (umode == 0 <==> k == 32) && (k < 32 ==> umode == CrcRegister.PowerOfTwo(k))
      invariant forall j: nat :: j < k ==> Has(all, CrcRegister.PowerOfTwo(j))
      decreases 32 - k
    {
      NextPower(k);
      umode := umode << 1;
      k := k + 1;
    }
  }

  lemma FirstPower()
    ensures CrcRegister.PowerOfTwo(0) == 1
  {}

  lemma NextPower(k: nat)
    requires k < 32
    ensures k < 31 ==>
              CrcRegister.PowerOfTwo(k) << 1 == CrcRegister.PowerOfTwo(k + 1) && CrcRegister.PowerOfTwo(k) << 1 != 0
    ensures k == 31 ==> CrcRegister.PowerOfTwo(k) << 1 == 0
  {}

  lemma UnionClears(a: bv32, b: bv32, m: bv32)
    ensures !Has(Union(a, b), m) <==> !Has(a, m) && !Has(b, m)
  {
    hide *;
    if !Has(Union(a, b), m) { UnionIsClear(a, b, m); }
    if !Has(a, m) && !Has(b, m) { BothAreClear(a, b, m); }
  }

  lemma UnionIsClear(a: bv32, b: bv32, m: bv32)
    requires !Has(Union(a, b), m)
    ensures !Has(a, m) && !Has(b, m)
  {
    Distribute(a, b, m);
    OrOfZero(a & m, b & m);
  }

  lemma BothAreClear(a: bv32, b: bv32, m: bv32)
    requires !Has(a, m) && !Has(b, m)
    ensures !Has(Union(a, b), m)
  {
    Distribute(a, b, m);
  }

  lemma Distribute(a: bv32, b: bv32, m: bv32)
    ensures (a | b) & m == (a & m) | (b & m)
  {}

  lemma OrOfZero(x: bv32, y: bv32)
    requires x | y == 0
    ensures x == 0 && y == 0
  {}

  lemma ZeroClears(m: bv32)
    ensures !Has(0, m)
  {}
}
