/**
 Reflected division by the polynomial 0xEDB88320, one message bit at a time, and what makes the
 remainder worth having as a checksum: it is XOR-linear, and any error confined to 32 consecutive
 bits changes it.
 */
module CrcRegister {
  import opened ShiftRegister
  import opened CrcTable

  function Xor(a: bv32, b: bv32): bv32 { a ^ b }

  function Bit(b: bool): bv32 { if b then 1 else 0 }

  function Step(c: bv32, b: bool): bv32 { Divide(Xor(c, Bit(b))) }

  // -------- the laws of one step

  lemma ShiftXor(a: bv32, b: bv32)
    ensures (a ^ b) >> 1 == (a >> 1) ^ (b >> 1)
    ensures (a ^ b) & 1 == (a & 1) ^ (b & 1)
    ensures a & 1 == 0 || a & 1 == 1
  {}

  lemma XorLaws(a: bv32, b: bv32, p: bv32)
    ensures (a ^ p) ^ (b ^ p) == a ^ b
    ensures (a ^ b) ^ p == (a ^ p) ^ b == a ^ (b ^ p)
    ensures a ^ 0 == a
  {}

  lemma DivideIsLinear(a: bv32, b: bv32)
    ensures Divide(Xor(a, b)) == Xor(Divide(a), Divide(b))
  {
    hide Divide;
    DivideOfXor(a, b);
  }

  lemma DivideOfXor(a: bv32, b: bv32)
    ensures Divide(a ^ b) == Divide(a) ^ Divide(b)
  {
    ShiftXor(a, b);
    ShiftXor(b, a);
    XorLaws(a >> 1, b >> 1, POLYNOMIAL);
    if a & 1 == 0 && b & 1 == 0 {
    } else if a & 1 == 1 && b & 1 == 1 {
    } else if a & 1 == 1 {
    } else {
    }
  }

  lemma BitIsLinear(a: bv32, b: bv32, p: bool, q: bool)
    ensures Xor(Xor(a, b), Bit(p != q)) == Xor(Xor(a, Bit(p)), Xor(b, Bit(q)))
  {
    hide Bit, Xor;
    BitsXor(p, q);
    XorSwap(a, b, Bit(p), Bit(q));
  }

  lemma BitsXor(p: bool, q: bool)
    ensures Bit(p != q) == Xor(Bit(p), Bit(q))
  {}

  lemma XorSwap(a: bv32, b: bv32, p: bv32, q: bv32)
    ensures Xor(Xor(a, b), Xor(p, q)) == Xor(Xor(a, p), Xor(b, q))
  {
    hide Xor;
    XorAssociates(a, b, Xor(p, q));
    XorAssociates(b, p, q);
    XorAssociates(p, b, q);
    XorAssociates(a, p, Xor(b, q));
    assert Xor(b, p) == Xor(p, b) by { XorCommutes(b, p); }
  }

  lemma XorAssociates(a: bv32, b: bv32, c: bv32)
    ensures Xor(Xor(a, b), c) == Xor(a, Xor(b, c))
  {}

  lemma XorCommutes(a: bv32, b: bv32)
    ensures Xor(a, b) == Xor(b, a)
  {}

  lemma StepIsLinear(a: bv32, b: bv32, p: bool, q: bool)
    ensures Step(Xor(a, b), p != q) == Xor(Step(a, p), Step(b, q))
  {
    hide Divide, Xor, Bit;
    BitIsLinear(a, b, p, q);
    DivideIsLinear(Xor(a, Bit(p)), Xor(b, Bit(q)));
  }

  // The polynomial has its top bit set, so a step can be undone.
  lemma StepIsInjective(a: bv32, b: bv32, p: bool)
    requires Step(a, p) == Step(b, p)
    ensures a == b
  {}

  function PowerOfTwo(n: nat): bv32
    requires n < 32
  {
    1 << n
  }

  function Double(c: bv32): bv32 { c << 1 }

  predicate Below(c: bv32, limit: bv32) { c < limit }

  predicate Small(n: nat, c: bv32) { n < 32 && Below(c, PowerOfTwo(n)) }

  lemma PowersDouble(n: nat)
    requires n < 31
    ensures Below(PowerOfTwo(n), 0x40000001) && PowerOfTwo(n + 1) == Double(PowerOfTwo(n))
  {}

  lemma StepHalves(limit: bv32, c: bv32, p: bool)
    requires Below(limit, 0x40000001) && Below(Step(c, p), limit)
    ensures Below(c, Double(limit))
  {
    hide Divide, Xor, Bit, Below, Double;
    DivideHalves(limit, Xor(c, Bit(p)));
    ClearLowBit(limit, c, p);
  }

  predicate Even(c: bv32) { c & 1 == 0 }

  lemma DivideHalves(limit: bv32, z: bv32)
    requires Below(limit, 0x40000001) && Below(Divide(z), limit)
    ensures Even(z) && Below(z, Double(limit))
  {}

  lemma ClearLowBit(limit: bv32, c: bv32, p: bool)
    requires Below(limit, 0x40000001)
    requires Even(Xor(c, Bit(p))) && Below(Xor(c, Bit(p)), Double(limit))
    ensures Below(c, Double(limit))
  {}

  lemma StepShrinksSlowly(n: nat, c: bv32, p: bool)
    requires n < 31 && Small(n, Step(c, p))
    ensures Small(n + 1, c)
  {
    hide PowerOfTwo, Double, Below, Step;
    PowersDouble(n);
    StepHalves(PowerOfTwo(n), c, p);
  }

  // -------- what the checksum promises

  // The checksums of equal-length messages differ by the checksum of their difference.
  lemma DifferenceOfRuns(a: bv32, b: bv32, x: seq<bool>, y: seq<bool>)
    requires |x| == |y|
    ensures Xor(Run(Step, a, x), Run(Step, b, y)) == Run(Step, Xor(a, b), XorBits(x, y))
  {
    hide Step, Xor;
    forall a, b, p, q { StepIsLinear(a, b, p, q); }
    RunIsLinear(Step, Xor, a, b, x, y);
  }

  // An error goes unnoticed exactly when the error pattern on its own leaves the register at zero.
  lemma UndetectedExactly(c: bv32, x: seq<bool>, y: seq<bool>)
    requires |x| == |y|
    ensures Run(Step, c, x) == Run(Step, c, y) <==> Run(Step, 0, XorBits(x, y)) == 0
  {
    hide Step;
    DifferenceOfRuns(c, c, x, y);
    XorIsZero(c, c);
    XorIsZero(Run(Step, c, x), Run(Step, c, y));
  }

  lemma XorIsZero(a: bv32, b: bv32)
    ensures Xor(a, b) == 0 <==> a == b
  {
    SelfXor(a);
    if a ^ b == 0 { ZeroXor(a, b); }
  }

  lemma SelfXor(a: bv32)
    ensures a ^ a == 0
  {}

  lemma ZeroXor(a: bv32, b: bv32)
    requires a ^ b == 0
    ensures a == b
  {}

  // An error burst of at most 32 bits, in a message of any length, is always detected:
  // whatever the register held before, two messages that differ only inside a window of
  // 32 bits leave it different.
  lemma BurstIsDetected(c: bv32, x: seq<bool>, y: seq<bool>, start: nat)
    requires |x| == |y| && x != y
    requires forall j :: 0 <= j < |x| && x[j] != y[j] ==> start <= j < start + 32
    ensures Run(Step, c, x) != Run(Step, c, y)
  {
    hide Step;
    UndetectedExactly(c, x, y);
    var before, burst, after := BurstShape(x, y, start);
    BurstRun(before, burst, after);
  }

  lemma BurstRun(before: nat, burst: seq<bool>, after: nat)
    requires |burst| <= 31
    ensures Run(Step, 0, Zeros(before) + ([true] + (burst + Zeros(after)))) != 0
  {
    hide Step, Small;
    RunConcat(Step, 0, Zeros(before), [true] + (burst + Zeros(after)));
    FirstStep();
    RunOfZeros(Step, 0, before);
    RunConcat(Step, 0, [true], burst + Zeros(after));
    RunConcat(Step, POLYNOMIAL, burst, Zeros(after));
    if Run(Step, Run(Step, POLYNOMIAL, burst), Zeros(after)) == 0 {
      RunOfZeros(Step, 0, after);
      forall a, b, p | Step(a, p) == Step(b, p) { StepIsInjective(a, b, p); }
      RunIsInjective(Step, Run(Step, POLYNOMIAL, burst), 0, Zeros(after));
      forall n: nat, c, p | n < 31 && Small(n, Step(c, p)) { StepShrinksSlowly(n, c, p); }
      assert Small(0, 0) by { ZeroIsSmall(); }
      RunShrinksSlowly(Step, Small, 31, POLYNOMIAL, burst);
      assert false by { PolynomialIsLarge(); }
    }
  }

  lemma FirstStep()
    ensures Step(0, false) == 0
    ensures Run(Step, 0, [true]) == POLYNOMIAL
  {
    assert Step(0, true) == POLYNOMIAL;
    assert [true][1..] == [];
  }

  lemma ZeroIsSmall()
    ensures Small(0, 0)
  {}

  lemma PolynomialIsLarge()
    ensures forall n: nat :: !Small(n, POLYNOMIAL)
  {
    forall n: nat
      ensures !Small(n, POLYNOMIAL)
    {
      if n < 32 {
        assert PowerOfTwo(n) <= 0x80000000;
      }
    }
  }

  lemma XorCancels(a: bv32, b: bv32, p: bv32)
    ensures Xor(a, p) == Xor(b, p) <==> a == b
  {}

  lemma ZeroBitDivides(c: bv32)
    ensures Step(c, false) == Divide(c)
  {
    hide Divide;
    assert Xor(c, Bit(false)) == c;
  }
}
