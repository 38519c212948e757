/**
 A register that consumes a message bit by bit, over any word type. The inductions
 behind the checksum are done here, where the word is a type parameter, and the
 laws they use are proved of 32-bit words in module IpCloaking.
 */
module ShiftRegister {

  // The register after consuming `bits`, started at `c`.
  ghost function Run<W>(step: (W, bool) -> W, c: W, bits: seq<bool>): W
    decreases bits
  {
    if bits == [] then c else Run(step, step(c, bits[0]), bits[1..])
  }

  ghost function XorBits(x: seq<bool>, y: seq<bool>): (d: seq<bool>)
    requires |x| == |y|
    ensures |d| == |x|
  {
    seq(|x|, i requires 0 <= i < |x| => x[i] != y[i])
  }

  ghost function Zeros(n: nat): seq<bool> { seq(n, _ => false) }

  ghost function Fold<W>(op: (W, W) -> W, unit: W, s: seq<W>): W {
    if s == [] then unit else op(Fold(op, unit, s[..|s| - 1]), s[|s| - 1])
  }

  lemma {:induction false} FoldHolds<W(!new)>(op: (W, W) -> W, unit: W, s: seq<W>, p: W -> bool)
    requires p(unit) && forall a, b :: p(op(a, b)) <==> p(a) && p(b)
    ensures p(Fold(op, unit, s)) <==> forall i :: 0 <= i < |s| ==> p(s[i])
  {
    if s != [] {
      var front := s[..|s| - 1];
      FoldHolds(op, unit, front, p);
      assert forall i :: 0 <= i < |front| ==> front[i] == s[i];
    }
  }

  lemma {:induction false} RunConcat<W>(step: (W, bool) -> W, c: W, x: seq<bool>, y: seq<bool>)
    ensures Run(step, c, x + y) == Run(step, Run(step, c, x), y)
    decreases x
  {
    if x == [] {
      assert x + y == y;
    } else {
      assert (x + y)[1..] == x[1..] + y;
      RunConcat(step, step(c, x[0]), x[1..], y);
    }
  }

  lemma RunOfEight<W>(step: (W, bool) -> W, c: W, b0: bool, b1: bool, b2: bool, b3: bool,
                      b4: bool, b5: bool, b6: bool, b7: bool)
    ensures Run(step, c, [b0, b1, b2, b3, b4, b5, b6, b7])
            == step(step(step(step(step(step(step(step(c, b0), b1), b2), b3), b4), b5), b6), b7)
  {
    var c4 := step(step(step(step(c, b0), b1), b2), b3);
    RunOfFour(step, c, b0, b1, b2, b3);
    RunOfFour(step, c4, b4, b5, b6, b7);
    assert [b0, b1, b2, b3, b4, b5, b6, b7] == [b0, b1, b2, b3] + [b4, b5, b6, b7];
    RunConcat(step, c, [b0, b1, b2, b3], [b4, b5, b6, b7]);
  }

  lemma RunOfFour<W>(step: (W, bool) -> W, c: W, b0: bool, b1: bool, b2: bool, b3: bool)
    ensures Run(step, c, [b0, b1, b2, b3]) == step(step(step(step(c, b0), b1), b2), b3)
  {
    RunCons(step, c, b0, [b1, b2, b3]);
    RunCons(step, step(c, b0), b1, [b2, b3]);
    RunCons(step, step(step(c, b0), b1), b2, [b3]);
    RunCons(step, step(step(step(c, b0), b1), b2), b3, []);
    assert [b0] + [b1, b2, b3] == [b0, b1, b2, b3] && [b1] + [b2, b3] == [b1, b2, b3];
    assert [b2] + [b3] == [b2, b3] && [b3] + [] == [b3];
  }

  lemma RunCons<W>(step: (W, bool) -> W, c: W, b: bool, rest: seq<bool>)
    ensures Run(step, c, [b] + rest) == Run(step, step(c, b), rest)
  {
    assert ([b] + rest)[1..] == rest;
  }

  lemma {:induction false} RunIsLinear<W(!new)>(step: (W, bool) -> W, xor: (W, W) -> W,
                                                a: W, b: W, x: seq<bool>, y: seq<bool>)
    requires forall a, b, p, q :: step(xor(a, b), p != q) == xor(step(a, p), step(b, q))
    requires |x| == |y|
    ensures Run(step, xor(a, b), XorBits(x, y)) == xor(Run(step, a, x), Run(step, b, y))
    decreases x
  {
    if x != [] {
      assert XorBits(x, y)[1..] == XorBits(x[1..], y[1..]);
      RunIsLinear(step, xor, step(a, x[0]), step(b, y[0]), x[1..], y[1..]);
    }
  }

  lemma {:induction false} RunIsInjective<W(!new)>(step: (W, bool) -> W, a: W, b: W, bits: seq<bool>)
    requires forall a, b, p :: step(a, p) == step(b, p) ==> a == b
    requires Run(step, a, bits) == Run(step, b, bits)
    ensures a == b
    decreases bits
  {
    if bits != [] {
      RunIsInjective(step, step(a, bits[0]), step(b, bits[0]), bits[1..]);
    }
  }

  lemma {:induction false} RunOfZeros<W(!new)>(step: (W, bool) -> W, zero: W, n: nat)
    requires step(zero, false) == zero
    ensures Run(step, zero, Zeros(n)) == zero
  {
    if n > 0 {
      assert Zeros(n)[1..] == Zeros(n - 1);
      RunOfZeros(step, zero, n - 1);
    }
  }

  // If each step at most halves a word, a word needs many steps to become small.
  lemma {:induction false} RunShrinksSlowly<W(!new)>(step: (W, bool) -> W, small: (nat, W) -> bool,
                                                     limit: nat, c: W, bits: seq<bool>)
    requires forall n: nat, c, p :: n < limit && small(n, step(c, p)) ==> small(n + 1, c)
    requires |bits| <= limit && small(0, Run(step, c, bits))
    ensures small(|bits|, c)
    decreases bits
  {
    if bits != [] {
      RunShrinksSlowly(step, small, limit, step(c, bits[0]), bits[1..]);
    }
  }

  // The difference of two messages that differ only inside a window of 32 bits.
  lemma BurstShape(x: seq<bool>, y: seq<bool>, start: nat) returns (before: nat, burst: seq<bool>, after: nat)
    requires |x| == |y| && x != y
    requires forall j :: 0 <= j < |x| && x[j] != y[j] ==> start <= j < start + 32
    ensures |burst| <= 31
    ensures XorBits(x, y) == Zeros(before) + ([true] + (burst + Zeros(after)))
  {
    before := 0;
    while before < |x| && x[before] == y[before]
      invariant before <= |x|
      invariant forall j :: 0 <= j < before ==> x[j] == y[j]
    {
      before := before + 1;
    }
    var last := if start + 32 < |x| then start + 32 else |x|;
    var d := XorBits(x, y);
    burst, after := d[before + 1..last], |x| - last;
    assert forall j :: 0 <= j < |d| ==> d[j] == (x[j] != y[j]);
    assert d[..before] == Zeros(before);
    assert d[last..] == Zeros(after);
    assert d == d[..before] + ([d[before]] + (d[before + 1..last] + d[last..]));
  }
}
