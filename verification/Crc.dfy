/** The cyclic redundancy checks of the protocols, as remainders of message polynomials. */
module Crc {
  import opened Bytes
  import opened Gf2

  /** The order in which an engine feeds the bits of a byte to its register. */
  datatype Order = MsbFirst | LsbFirst

  /** Coefficient `i` of a byte, bit 7 first. */
  predicate MsbBit(b: byte, i: nat) {
    match i
    case 0 => b & 0x80 != 0
    case 1 => b & 0x40 != 0
    case 2 => b & 0x20 != 0
    case 3 => b & 0x10 != 0
    case 4 => b & 0x08 != 0
    case 5 => b & 0x04 != 0
    case 6 => b & 0x02 != 0
    case _ => b & 0x01 != 0
  }

  function ByteBits(order: Order, b: byte): (r: Bits)
    ensures |r| == 8
  {
    seq(8, i requires 0 <= i < 8 => MsbBit(b, if order.MsbFirst? then i else 7 - i))
  }

  function MessageBits(order: Order, m: seq<byte>): (r: Bits)
    ensures |r| == 8 * |m|
  {
    if m == [] then [] else MessageBits(order, m[..|m| - 1]) + ByteBits(order, m[|m| - 1])
  }

  /** The generator x^w + sum of x^e for the given exponents, without its leading term. */
  function Generator(w: nat, exponents: set<int>): (r: Bits)
    ensures |r| == w
  {
    seq(w, i requires 0 <= i < w => w - 1 - i in exponents)
  }

  const POLY4: Bits := Generator(4, {3, 0})
  const POLY8: Bits := Generator(8, {2, 1, 0})
  const POLY16: Bits := Generator(16, {12, 5, 0})
  const POLY24: Bits := Generator(24, {23, 18, 17, 14, 11, 10, 7, 6, 5, 4, 3, 1, 0})
  const POLY32: Bits := Generator(32, {26, 23, 22, 16, 12, 11, 10, 8, 7, 5, 4, 2, 1, 0})

  /** The register of an engine that starts at `init` and has read the message `m`. */
  function Residue(poly: Bits, order: Order, init: Bits, m: seq<byte>): (r: Bits)
    requires |init| == |poly| > 0
    ensures |r| == |poly|
  {
    Register(poly, init, MessageBits(order, m))
  }

  /** The register is the remainder of the message polynomial times x^w, with the start value added at its top. */
  lemma ResidueDivides(poly: Bits, order: Order, init: Bits, m: seq<byte>)
    requires |init| == |poly| > 0
    ensures Residue(poly, order, init, m) == LongDivision(Dividend(poly, init, MessageBits(order, m)), poly)
    ensures init == Zeros(|poly|) ==> Residue(poly, order, init,
                                              m) == LongDivision(MessageBits(order, m) + Zeros(|poly|), poly)
  {
    RegisterDivides(poly, init, MessageBits(order, m));
    ClearedRegisterDivides(poly, MessageBits(order, m));
  }

  lemma {:induction false} MessageBitsConcat(order: Order, a: seq<byte>, b: seq<byte>)
    ensures MessageBits(order, a + b) == MessageBits(order, a) + MessageBits(order, b)
    decreases |b|
  {
    if b == [] {
      assert a + b == a;
    } else {
      assert (a + b)[..|a + b| - 1] == a + b[..|b| - 1];
      MessageBitsConcat(order, a, b[..|b| - 1]);
    }
  }

  /** Reading a message in two parts continues the first part's register. */
  lemma ResidueConcat(poly: Bits, order: Order, init: Bits, a: seq<byte>, b: seq<byte>)
    requires |init| == |poly| > 0
    ensures Residue(poly, order, init, a + b) == Residue(poly, order, Residue(poly, order, init, a), b)
  {
    MessageBitsConcat(order, a, b);
    RegisterConcat(poly, init, MessageBits(order, a), MessageBits(order, b));
  }

  lemma ResidueAppend(poly: Bits, order: Order, init: Bits, m: seq<byte>, b: byte)
    requires |init| == |poly| > 0
    ensures Residue(poly, order, init, m + [b])
            == Register(poly, Residue(poly, order, init, m), ByteBits(order, b))
  {
    assert (m + [b])[..|m|] == m;
    RegisterConcat(poly, init, MessageBits(order, m), ByteBits(order, b));
  }

  lemma ResidueOfOne(poly: Bits, order: Order, init: Bits, b: byte)
    requires |init| == |poly| > 0
    ensures Residue(poly, order, init, [b]) == Register(poly, init, ByteBits(order, b))
  {
    ResidueAppend(poly, order, init, [], b);
    assert [] + [b] == [b];
  }

  /** Equal bits mean equal bytes. */
  lemma ByteBitsInjective(order: Order, a: byte, b: byte)
    requires ByteBits(order, a) == ByteBits(order, b)
    ensures a == b
  {
    forall i: nat | i < 8 ensures MsbBit(a, i) == MsbBit(b, i) {
      var k := if order.MsbFirst? then i else 7 - i;
      assert ByteBits(order, a)[k] == ByteBits(order, b)[k];
    }
    SameBits(a, b);
  }

  lemma SameBits(a: byte, b: byte)
    requires forall i: nat | i < 8 :: MsbBit(a, i) == MsbBit(b, i)
    ensures a == b
  {
    assert MsbBit(a, 0) == MsbBit(b, 0) && MsbBit(a, 1) == MsbBit(b, 1);
    assert MsbBit(a, 2) == MsbBit(b, 2) && MsbBit(a, 3) == MsbBit(b, 3);
    assert MsbBit(a, 4) == MsbBit(b, 4) && MsbBit(a, 5) == MsbBit(b, 5);
    assert MsbBit(a, 6) == MsbBit(b, 6) && MsbBit(a, 7) == MsbBit(b, 7);
  }

  lemma {:induction false} MessageBitsInjective(order: Order, a: seq<byte>, b: seq<byte>)
    requires MessageBits(order, a) == MessageBits(order, b)
    ensures a == b
    decreases |a|
  {
    if a != [] {
      var n := |a| - 1;
      var p, q := MessageBits(order, a), MessageBits(order, b);
      assert p[..8 * n] == MessageBits(order, a[..n]) && p[8 * n..] == ByteBits(order, a[n]);
      assert q[..8 * n] == MessageBits(order, b[..n]) && q[8 * n..] == ByteBits(order, b[n]);
      ByteBitsInjective(order, a[n], b[n]);
      MessageBitsInjective(order, a[..n], b[..n]);
      assert a == a[..n] + [a[n]] && b == b[..n] + [b[n]];
    }
  }

  // ---------------------------------------------------------------------------------------
  // Error detection
  // ---------------------------------------------------------------------------------------

  /** The bits in which two messages of one length differ. */
  function Difference(order: Order, a: seq<byte>, b: seq<byte>): (e: Bits)
    requires |a| == |b|
    ensures |e| == 8 * |a|
  {
    Xor(MessageBits(order, a), MessageBits(order, b))
  }

  /** Changing the message changes the register by the register of the difference alone. */
  lemma ResidueOfDifference(poly: Bits, order: Order, init: Bits, a: seq<byte>, b: seq<byte>)
    requires |init| == |poly| > 0
    requires |a| == |b|
    ensures Residue(poly, order, init, b)
            == Xor(Residue(poly, order, init, a),
                   Register(poly, Zeros(|poly|), Difference(order, a, b)))
  {
    RegisterOfChange(poly, init, Zeros(|poly|), MessageBits(order, a), MessageBits(order, b),
                     Difference(order, a, b));
  }

  /** Differences that a register of this generator is bound to notice. */
  ghost predicate Noticed(poly: Bits, e: Bits)
    requires |poly| > 0
  {
    IsBurst(e, |poly|) || (Parity(poly) && Parity(e))
  }

  /** A message with a noticed difference cannot have the residue of the original. */
  lemma NoticedChangesResidue(poly: Bits, order: Order, init: Bits, a: seq<byte>, b: seq<byte>)
    requires |init| == |poly| > 0 && poly[|poly| - 1]
    requires |a| == |b| && Noticed(poly, Difference(order, a, b))
    ensures Residue(poly, order, init, a) != Residue(poly, order, init, b)
  {
    var e := Difference(order, a, b);
    ResidueOfDifference(poly, order, init, a, b);
    if IsBurst(e, |poly|) {
      BurstLeavesResidue(poly, e);
    } else {
      OddErrorLeavesResidue(poly, e);
    }
    XorNonzero(Residue(poly, order, init, a), Register(poly, Zeros(|poly|), e));
  }

  lemma XorNonzero(a: Bits, d: Bits)
    requires |a| == |d| && d != Zeros(|d|)
    ensures Xor(a, d) != a
  {
    var i :| 0 <= i < |d| && d[i] != Zeros(|d|)[i];
    assert Xor(a, d)[i] != a[i];
  }
}
