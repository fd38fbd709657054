/**
 Polynomials over GF(2) as sequences of bits, most significant coefficient first, and the
 shift register that every cyclic redundancy check of the parsers runs. A divisor
 x^w + p(x) is given by the `w` coefficients of `p`; the leading one is implicit.
 */
module Gf2 {

  type Bits = seq<bool>

  function Zeros(n: nat): (r: Bits)
    ensures |r| == n && forall i | 0 <= i < n :: !r[i]
  {
    seq(n, _ => false)
  }

  function Ones(n: nat): (r: Bits)
    ensures |r| == n && forall i | 0 <= i < n :: r[i]
  {
    seq(n, _ => true)
  }

  function Not(a: Bits): (r: Bits)
    ensures |r| == |a| && forall i | 0 <= i < |a| :: r[i] == !a[i]
  {
    seq(|a|, i requires 0 <= i < |a| => !a[i])
  }

  /** Addition of polynomials. */
  function Xor(a: Bits, b: Bits): (r: Bits)
    requires |a| == |b|
    ensures |r| == |a| && forall i | 0 <= i < |a| :: r[i] == (a[i] != b[i])
  {
    seq(|a|, i requires 0 <= i < |a| => a[i] != b[i])
  }

  function Reverse(a: Bits): (r: Bits)
    ensures |r| == |a| && forall i | 0 <= i < |a| :: r[i] == a[|a| - 1 - i]
  {
    seq(|a|, i requires 0 <= i < |a| => a[|a| - 1 - i])
  }

  /** One clock of the register: the bit leaving it, plus the input bit, selects the divisor. */
  function Shift(poly: Bits, r: Bits, bit: bool): (r': Bits)
    requires |r| == |poly| > 0
    ensures |r'| == |r|
  {
    if r[0] != bit then Xor(r[1..] + [false], poly) else r[1..] + [false]
  }

  /** The register after clocking in all of `bits`. */
  function Register(poly: Bits, r: Bits, bits: Bits): (r': Bits)
    requires |r| == |poly| > 0
    ensures |r'| == |r|
    decreases |bits|
  {
    if bits == [] then r else Register(poly, Shift(poly, r, bits[0]), bits[1..])
  }

  /** Schoolbook division: the remainder of `dividend` by x^w + poly. */
  function LongDivision(dividend: Bits, poly: Bits): (r: Bits)
    requires |dividend| >= |poly| > 0
    ensures |r| == |poly|
    decreases |dividend|
  {
    var w := |poly|;
    if |dividend| == w then dividend
    else if dividend[0] then LongDivision(Xor(dividend[1..w + 1], poly) + dividend[w + 1..], poly)
    else LongDivision(dividend[1..], poly)
  }

  // ---------------------------------------------------------------------------------------
  // Division
  // ---------------------------------------------------------------------------------------

  /** `bits` times x^w, with `r` added to its top `w` coefficients. */
  function Dividend(poly: Bits, r: Bits, bits: Bits): (d: Bits)
    requires |r| == |poly|
    ensures |d| == |bits| + |poly|
  {
    Xor(bits + Zeros(|poly|), r + Zeros(|bits|))
  }

  /** One clock of the register is one line of the schoolbook division. */
  lemma DivisionStep(poly: Bits, r: Bits, bits: Bits)
    requires |r| == |poly| > 0 && bits != []
    ensures var d, d' := Dividend(poly, r, bits), Dividend(poly, Shift(poly, r, bits[0]), bits[1..]);
            d' == if d[0] then Xor(d[1..|poly| + 1], poly) + d[|poly| + 1..] else d[1..]
  {
    var d, d' := Dividend(poly, r, bits), Dividend(poly, Shift(poly, r, bits[0]), bits[1..]);
    var line := if d[0] then Xor(d[1..|poly| + 1], poly) + d[|poly| + 1..] else d[1..];
    forall i | 0 <= i < |d'| ensures d'[i] == line[i] {
    }
  }

  /** The register, started at `r`, computes the remainder of bits * x^w with `r` added at the top. */
  lemma {:induction false} RegisterDivides(poly: Bits, r: Bits, bits: Bits)
    requires |r| == |poly| > 0
    ensures Register(poly, r, bits) == LongDivision(Dividend(poly, r, bits), poly)
    decreases |bits|
  {
    if bits == [] {
      assert Dividend(poly, r, bits) == r;
    } else {
      DivisionStep(poly, r, bits);
      RegisterDivides(poly, Shift(poly, r, bits[0]), bits[1..]);
    }
  }

  /** With a cleared register the result is the remainder of bits * x^w, and nothing else. */
  lemma ClearedRegisterDivides(poly: Bits, bits: Bits)
    requires |poly| > 0
    ensures Register(poly, Zeros(|poly|), bits) == LongDivision(bits + Zeros(|poly|), poly)
  {
    RegisterDivides(poly, Zeros(|poly|), bits);
    assert Xor(bits + Zeros(|poly|), Zeros(|poly|) + Zeros(|bits|)) == bits + Zeros(|poly|);
  }

  // ---------------------------------------------------------------------------------------
  // Composition and linearity
  // ---------------------------------------------------------------------------------------

  lemma {:induction false} RegisterConcat(poly: Bits, r: Bits, a: Bits, b: Bits)
    requires |r| == |poly| > 0
    ensures Register(poly, r, a + b) == Register(poly, Register(poly, r, a), b)
    decreases |a|
  {
    if a == [] {
      assert a + b == b;
    } else {
      assert (a + b)[1..] == a[1..] + b;
      RegisterConcat(poly, Shift(poly, r, a[0]), a[1..], b);
    }
  }

  /** The register is linear in its start value and its input together. */
  lemma {:induction false} RegisterLinear(poly: Bits, r: Bits, s: Bits, a: Bits, b: Bits)
    requires |r| == |s| == |poly| > 0
    requires |a| == |b|
    ensures Register(poly, Xor(r, s), Xor(a, b))
            == Xor(Register(poly, r, a), Register(poly, s, b))
    decreases |a|
  {
    if a != [] {
      assert Xor(a, b)[1..] == Xor(a[1..], b[1..]);
      assert Shift(poly, Xor(r, s), Xor(a, b)[0])
          == Xor(Shift(poly, r, a[0]), Shift(poly, s, b[0]));
      RegisterLinear(poly, Shift(poly, r, a[0]), Shift(poly, s, b[0]), a[1..], b[1..]);
    } else {
      assert Xor(a, b) == [];
    }
  }

  lemma XorCancels(a: Bits, b: Bits)
    requires |a| == |b|
    ensures Xor(a, Xor(a, b)) == b
  {
  }

  /** Changing the input changes the register by the register of the change alone. */
  lemma RegisterOfChange(poly: Bits, r: Bits, clear: Bits, a: Bits, b: Bits, e: Bits)
    requires |r| == |poly| > 0 && clear == Zeros(|poly|)
    requires |a| == |b| && e == Xor(a, b)
    ensures Register(poly, r, b) == Xor(Register(poly, r, a), Register(poly, clear, e))
  {
    assert r == Xor(r, clear) by { XorZeros(r); }
    assert b == Xor(a, e) by { XorCancels(a, b); }
    RegisterLinear(poly, r, clear, a, e);
  }

  lemma XorZeros(a: Bits)
    ensures Xor(a, Zeros(|a|)) == a
  {
  }

  // ---------------------------------------------------------------------------------------
  // Zero residue
  // ---------------------------------------------------------------------------------------

  /** Clocking in zeros never clears a register that was not clear: the divisor is not a multiple of x. */
  lemma {:induction false} ZerosKeepNonzero(poly: Bits, r: Bits, n: nat)
    requires |r| == |poly| > 0 && poly[|poly| - 1]
    ensures Register(poly, r, Zeros(n)) == Zeros(|poly|) <==> r == Zeros(|poly|)
    decreases n
  {
    if n > 0 {
      assert Zeros(n)[1..] == Zeros(n - 1);
      ShiftKeepsNonzero(poly, r);
      ZerosKeepNonzero(poly, Shift(poly, r, false), n - 1);
    }
  }

  lemma ShiftKeepsNonzero(poly: Bits, r: Bits)
    requires |r| == |poly| > 0 && poly[|poly| - 1]
    ensures Shift(poly, r, false) == Zeros(|poly|) <==> r == Zeros(|poly|)
  {
    var w := |poly|;
    var r' := Shift(poly, r, false);
    assert r[0] ==> r'[w - 1];
    assert forall i | 0 < i < w :: !r[0] ==> r'[i - 1] == r[i];
    assert r' == Zeros(w) ==> forall i | 0 <= i < w :: !r[i];
  }

  /** Up to `w` input bits can be added into the register first and clocked through as zeros. */
  lemma {:induction false} RegisterAbsorbs(poly: Bits, r: Bits, bits: Bits)
    requires |r| == |poly| > 0 && |bits| <= |poly|
    ensures Register(poly, r, bits)
            == Register(poly, Xor(r, bits + Zeros(|poly| - |bits|)), Zeros(|bits|))
  {
    var n, w := |bits|, |poly|;
    var pad := bits + Zeros(w - n);
    // The padded input, started on a register holding the same bits, never selects the divisor.
    RegisterCancels(poly, pad[..n], Zeros(w - n));
    assert pad[..n] == bits;
    assert Register(poly, pad, bits) == Zeros(w);
    RegisterLinear(poly, r, pad, bits, bits);
    RegisterLinear(poly, Xor(r, pad), Zeros(w), Zeros(n), Zeros(n));
    assert Xor(bits, bits) == Zeros(n);
    assert Xor(Register(poly, r, bits), Zeros(w)) == Register(poly, r, bits);
  }

  /** A register that starts with the input at its top and zeros below ends clear. */
  lemma {:induction false} RegisterCancels(poly: Bits, bits: Bits, low: Bits)
    requires |bits| + |low| == |poly| > 0
    requires low == Zeros(|low|)
    ensures Register(poly, bits + low, bits) == Zeros(|poly|)
    decreases |bits|
  {
    if bits != [] {
      var r' := Shift(poly, bits + low, bits[0]);
      assert r' == bits[1..] + (low + [false]);
      RegisterCancels(poly, bits[1..], low + [false]);
    }
  }

  lemma {:induction false} RegisterShiftsOut(poly: Bits, high: Bits, low: Bits)
    requires |high| + |low| == |poly| > 0
    requires high == Zeros(|high|)
    ensures Register(poly, high + low, Zeros(|high|)) == low + Zeros(|high|)
    decreases |high|
  {
    if high == [] {
      assert high + low == low + Zeros(0);
    } else {
      var r' := Shift(poly, high + low, false);
      assert r' == high[1..] + (low + [false]);
      assert Zeros(|high|)[1..] == Zeros(|high| - 1);
      RegisterShiftsOut(poly, high[1..], low + [false]);
      assert (low + [false]) + Zeros(|high| - 1) == low + Zeros(|high|);
    }
  }

  /**
   The identity behind every lookup table: the `n` bits that leave the register meet the `n`
   input bits, and what the two select depends on their sum alone.
   */
  lemma RegisterByTable(poly: Bits, r: Bits, bits: Bits, index: Bits)
    requires |bits| <= |poly| && |r| == |poly| > 0
    requires index == Xor(bits, r[..|bits|])
    ensures Register(poly, r, bits)
            == Xor(r[|bits|..] + Zeros(|bits|), Register(poly, Zeros(|poly|), index))
  {
    var n, w := |bits|, |poly|;
    var high, low := r[..n] + Zeros(w - n), Zeros(n) + r[n..];
    assert r == Xor(high, low);
    assert bits == Xor(r[..n], index);
    RegisterLinear(poly, high, low, r[..n], index);
    RegisterCancels(poly, r[..n], Zeros(w - n));
    assert Xor(Zeros(w), Register(poly, low, index)) == Register(poly, low, index);
    assert low == Xor(low, Zeros(w)) && index == Xor(Zeros(n), index);
    RegisterLinear(poly, low, Zeros(w), Zeros(n), index);
    RegisterShiftsOut(poly, Zeros(n), r[n..]);
  }

  /** When the input is longer than the register, the register only changes its first bits. */
  lemma RegisterIntoInput(poly: Bits, r: Bits, bits: Bits, index: Bits)
    requires |bits| >= |poly| && |r| == |poly| > 0
    requires index == Xor(bits, r + Zeros(|bits| - |r|))
    ensures Register(poly, r, bits) == Register(poly, Zeros(|poly|), index)
  {
    var n, w := |bits|, |poly|;
    var own := r + Zeros(n - w);
    assert bits == Xor(own, index);
    assert r == Xor(r, Zeros(w));
    RegisterLinear(poly, r, Zeros(w), own, index);
    RegisterConcat(poly, r, r, Zeros(n - w));
    assert r + [] == r;
    RegisterCancels(poly, r, []);
    RegisterShiftsZeros(poly, n - w);
    assert Xor(Zeros(w), Register(poly, Zeros(w), index)) == Register(poly, Zeros(w), index);
  }

  lemma {:induction false} RegisterShiftsZeros(poly: Bits, n: nat)
    requires |poly| > 0
    ensures Register(poly, Zeros(|poly|), Zeros(n)) == Zeros(|poly|)
    decreases n
  {
    if n > 0 {
      assert Zeros(n)[1..] == Zeros(n - 1);
      assert Shift(poly, Zeros(|poly|), false) == Zeros(|poly|);
      RegisterShiftsZeros(poly, n - 1);
    }
  }

  /** The residue is zero exactly when the last `w` bits are the register that precedes them. */
  lemma ZeroResidue(poly: Bits, r: Bits, trailer: Bits)
    requires |r| == |trailer| == |poly| > 0 && poly[|poly| - 1]
    ensures Register(poly, r, trailer) == Zeros(|poly|) <==> trailer == r
  {
    var w := |poly|;
    RegisterAbsorbs(poly, r, trailer);
    assert trailer + Zeros(0) == trailer;
    ZerosKeepNonzero(poly, Xor(r, trailer), w);
    assert forall i | 0 <= i < w :: Xor(r, trailer)[i] == (r[i] != trailer[i]);
    assert Xor(r, trailer) == Zeros(w) ==> trailer == r;
    assert trailer == r ==> Xor(r, trailer) == Zeros(w);
  }

  // ---------------------------------------------------------------------------------------
  // Error detection
  // ---------------------------------------------------------------------------------------

  /** All the one bits of `e` lie in a window of `n` bits, and there is at least one. */
  ghost predicate IsBurst(e: Bits, n: nat) {
    && (exists i :: 0 <= i < |e| && e[i])
    && (exists lo: nat :: Within(e, lo, n))
  }

  ghost predicate Within(e: Bits, lo: nat, n: nat) {
    forall i | 0 <= i < |e| && e[i] :: lo <= i < lo + n
  }

  function Parity(a: Bits): bool {
    if a == [] then false else a[0] != Parity(a[1..])
  }

  /** A non-zero input no longer than the register leaves a residue. */
  lemma ShortInputLeavesResidue(poly: Bits, input: Bits, one: nat)
    requires |poly| > 0 && poly[|poly| - 1]
    requires one < |input| <= |poly| && input[one]
    ensures Register(poly, Zeros(|poly|), input) != Zeros(|poly|)
  {
    var clear := Zeros(|poly|);
    var pad := Xor(clear, input + Zeros(|poly| - |input|));
    assert pad != clear by { assert pad[one]; }
    RegisterAbsorbs(poly, clear, input);
    ZerosKeepNonzero(poly, pad, |input|);
  }

  /** Zeros before and after an input do not hide its residue. */
  lemma ZerosAround(poly: Bits, before: nat, input: Bits, after: nat)
    requires |poly| > 0 && poly[|poly| - 1]
    requires Register(poly, Zeros(|poly|), input) != Zeros(|poly|)
    ensures Register(poly, Zeros(|poly|), Zeros(before) + (input + Zeros(after))) != Zeros(|poly|)
  {
    RegisterConcat(poly, Zeros(|poly|), Zeros(before), input + Zeros(after));
    ZerosKeepNonzero(poly, Zeros(|poly|), before);
    RegisterConcat(poly, Zeros(|poly|), input, Zeros(after));
    ZerosKeepNonzero(poly, Register(poly, Zeros(|poly|), input), after);
  }

  lemma OnesInWindow(e: Bits, lo: nat, hi: nat)
    requires lo <= hi <= |e|
    requires forall i | 0 <= i < |e| && e[i] :: lo <= i < hi
    ensures e == Zeros(lo) + (e[lo..hi] + Zeros(|e| - hi))
  {
    var around := Zeros(lo) + (e[lo..hi] + Zeros(|e| - hi));
    forall i | 0 <= i < |e| ensures e[i] == around[i] {
    }
  }

  lemma WindowLeavesResidue(poly: Bits, e: Bits, lo: nat, one: nat, hi: nat)
    requires |poly| > 0 && poly[|poly| - 1]
    requires lo <= one < hi <= |e| && hi - lo <= |poly| && e[one]
    requires forall i | 0 <= i < |e| && e[i] :: lo <= i < hi
    ensures Register(poly, Zeros(|poly|), e) != Zeros(|poly|)
  {
    var window, after := e[lo..hi], |e| - hi;
    assert e == Zeros(lo) + (window + Zeros(after)) by {
      OnesInWindow(e, lo, hi);
    }
    ShortInputLeavesResidue(poly, window, one - lo);
    ZerosAround(poly, lo, window, after);
  }

  /** A burst no longer than the register leaves a residue. */
  lemma BurstLeavesResidue(poly: Bits, e: Bits)
    requires |poly| > 0 && poly[|poly| - 1]
    requires IsBurst(e, |poly|)
    ensures Register(poly, Zeros(|poly|), e) != Zeros(|poly|)
  {
    var lo: nat :| Within(e, lo, |poly|);
    var one :| 0 <= one < |e| && e[one];
    assert lo <= one < lo + |poly|;
    WindowLeavesResidue(poly, e, lo, one, if lo + |poly| <= |e| then lo + |poly| else |e|);
  }

  lemma {:induction false} ParityOfXor(a: Bits, b: Bits)
    requires |a| == |b|
    ensures Parity(Xor(a, b)) == (Parity(a) != Parity(b))
    decreases |a|
  {
    if a != [] {
      assert Xor(a, b)[1..] == Xor(a[1..], b[1..]);
      ParityOfXor(a[1..], b[1..]);
    }
  }

  lemma {:induction false} ParityOfAppend(a: Bits, b: Bits)
    ensures Parity(a + b) == (Parity(a) != Parity(b))
    decreases |a|
  {
    if a == [] {
      assert a + b == b;
    } else {
      assert (a + b)[1..] == a[1..] + b;
      ParityOfAppend(a[1..], b);
    }
  }

  /** When x + 1 divides the divisor, the register carries the parity of everything clocked in. */
  lemma {:induction false} RegisterParity(poly: Bits, r: Bits, bits: Bits)
    requires |r| == |poly| > 0 && Parity(poly)
    ensures Parity(Register(poly, r, bits)) == (Parity(r) != Parity(bits))
    decreases |bits|
  {
    if bits != [] {
      var r' := Shift(poly, r, bits[0]);
      ParityOfAppend(r[1..], [false]);
      ParityOfXor(r[1..] + [false], poly);
      assert Parity([false]) == false;
      RegisterParity(poly, r', bits[1..]);
    }
  }

  lemma {:induction false} ParityOfZeros(n: nat)
    ensures !Parity(Zeros(n))
    decreases n
  {
    if n > 0 {
      assert Zeros(n)[1..] == Zeros(n - 1);
      ParityOfZeros(n - 1);
    }
  }

  /** An odd number of flipped bits leaves a residue. */
  lemma OddErrorLeavesResidue(poly: Bits, e: Bits)
    requires |poly| > 0 && Parity(poly) && Parity(e)
    ensures Register(poly, Zeros(|poly|), e) != Zeros(|poly|)
  {
    RegisterParity(poly, Zeros(|poly|), e);
    ParityOfZeros(|poly|);
  }
}
