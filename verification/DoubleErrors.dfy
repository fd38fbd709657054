/** The CRC-24Q polynomial as a power of x: no two flipped bits of a frame cancel. */
module DoubleErrors {
  import opened Bytes
  import opened Gf2
  import opened Words
  import opened Crc
  import opened LookupTables
  import opened CrcEngines
  import opened WordBytes
  import opened Trailers

  // ---------------------------------------------------------------------------------------
  // Multiplication by powers of x
  // ---------------------------------------------------------------------------------------

  /** r times x^n, reduced. */
  function Power(poly: Bits, r: Bits, n: nat): (r': Bits)
    requires |r| == |poly| > 0
    ensures |r'| == |poly|
  {
    Register(poly, r, Zeros(n))
  }

  function One(w: nat): (r: Bits)
    requires w > 0
    ensures |r| == w
  {
    Zeros(w - 1) + [true]
  }

  lemma PowerAdd(poly: Bits, r: Bits, m: nat, n: nat)
    requires |r| == |poly| > 0
    ensures Power(poly, r, m + n) == Power(poly, Power(poly, r, m), n)
  {
    assert Zeros(m + n) == Zeros(m) + Zeros(n);
    RegisterConcat(poly, r, Zeros(m), Zeros(n));
  }

  lemma PowerXor(poly: Bits, a: Bits, b: Bits, n: nat)
    requires |a| == |b| == |poly| > 0
    ensures Power(poly, Xor(a, b), n) == Xor(Power(poly, a, n), Power(poly, b, n))
  {
    assert Xor(Zeros(n), Zeros(n)) == Zeros(n);
    RegisterLinear(poly, a, b, Zeros(n), Zeros(n));
  }

  lemma PowerOne(poly: Bits, r: Bits)
    requires |r| == |poly| > 0
    ensures Power(poly, r, 1) == Shift(poly, r, false)
  {
    assert Zeros(1)[1..] == [];
  }

  lemma PowerShift(poly: Bits, r: Bits, n: nat)
    requires |r| == |poly| > 0
    ensures Power(poly, Shift(poly, r, false), n) == Shift(poly, Power(poly, r, n), false)
  {
    PowerOne(poly, r);
    PowerOne(poly, Power(poly, r, n));
    PowerAdd(poly, r, 1, n);
    PowerAdd(poly, r, n, 1);
  }

  lemma SumIsZero(a: Bits, b: Bits)
    requires |a| == |b|
    ensures Xor(a, b) == Zeros(|a|) <==> a == b
  {
    if Xor(a, b) == Zeros(|a|) {
      forall i | 0 <= i < |a| ensures a[i] == b[i] {
        assert !Xor(a, b)[i];
      }
    }
  }

  /** Multiplication by a power of x loses nothing. */
  lemma PowerInjective(poly: Bits, a: Bits, b: Bits, n: nat)
    requires |a| == |b| == |poly| > 0 && poly[|poly| - 1] && Power(poly, a, n) == Power(poly, b, n)
    ensures a == b
  {
    PowerXor(poly, a, b, n);
    ZerosKeepNonzero(poly, Xor(a, b), n);
    SumIsZero(Power(poly, a, n), Power(poly, b, n));
    SumIsZero(a, b);
  }

  // ---------------------------------------------------------------------------------------
  // Multiplication by any polynomial, most significant coefficient first
  // ---------------------------------------------------------------------------------------

  function HornerStep(poly: Bits, t: Bits, bit: bool, c: Bits): (r: Bits)
    requires |t| == |c| == |poly| > 0
    ensures |r| == |poly|
  {
    if bit then Xor(Shift(poly, t, false), c) else Shift(poly, t, false)
  }

  function Horner(poly: Bits, t: Bits, v: Bits, c: Bits): (r: Bits)
    requires |t| == |c| == |poly| > 0
    ensures |r| == |poly|
    decreases |v|
  {
    if v == [] then t else HornerStep(poly, Horner(poly, t, v[..|v| - 1], c), v[|v| - 1], c)
  }

  lemma {:induction false} HornerConcat(poly: Bits, t: Bits, a: Bits, b: Bits, c: Bits)
    requires |t| == |c| == |poly| > 0
    ensures Horner(poly, t, a + b, c) == Horner(poly, Horner(poly, t, a, c), b, c)
    decreases |b|
  {
    if b == [] {
      assert a + b == a;
    } else {
      assert (a + b)[..|a + b| - 1] == a + b[..|b| - 1];
      HornerConcat(poly, t, a, b[..|b| - 1], c);
    }
  }

  lemma HornerStepPower(poly: Bits, t: Bits, bit: bool, c: Bits, n: nat)
    requires |t| == |c| == |poly| > 0
    ensures Power(poly, HornerStep(poly, t, bit, c), n) == HornerStep(poly, Power(poly, t, n), bit, Power(poly, c, n))
  {
    PowerShift(poly, t, n);
    PowerXor(poly, Shift(poly, t, false), c, n);
  }

  /** Multiplications commute. */
  lemma {:induction false} HornerPower(poly: Bits, t: Bits, v: Bits, c: Bits, n: nat)
    requires |t| == |c| == |poly| > 0
    ensures Power(poly, Horner(poly, t, v, c), n) == Horner(poly, Power(poly, t, n), v, Power(poly, c, n))
    decreases |v|
  {
    if v != [] {
      HornerPower(poly, t, v[..|v| - 1], c, n);
      HornerStepPower(poly, Horner(poly, t, v[..|v| - 1], c), v[|v| - 1], c, n);
    }
  }

  lemma HornerStepOne(poly: Bits, head: Bits, bit: bool)
    requires |head| < |poly|
    ensures HornerStep(poly, Zeros(|poly| - |head|) + head, bit, One(|poly|))
            == Zeros(|poly| - |head| - 1) + (head + [bit])
  {
    var w, k := |poly|, |head|;
    var t := Zeros(w - k) + head;
    assert Shift(poly, t, false) == Zeros(w - k - 1) + (head + [false]);
  }

  /** A polynomial of low degree times one is itself. */
  lemma {:induction false} HornerOne(poly: Bits, v: Bits)
    requires |v| <= |poly| && |poly| > 0
    ensures Horner(poly, Zeros(|poly|), v, One(|poly|)) == Zeros(|poly| - |v|) + v
    decreases |v|
  {
    if v == [] {
      assert Zeros(|poly|) + [] == Zeros(|poly|);
    } else {
      var head := v[..|v| - 1];
      HornerOne(poly, head);
      HornerStepOne(poly, head, v[|v| - 1]);
      assert head + [v[|v| - 1]] == v;
    }
  }

  /** x^(m + n) is x^m times x^n. */
  lemma PowerTimes(poly: Bits, m: nat, n: nat, v: Bits, c: Bits)
    requires |poly| > 0 && v == Power(poly, One(|poly|), m) && c == Power(poly, One(|poly|), n)
    ensures Power(poly, One(|poly|), m + n) == Horner(poly, Zeros(|poly|), v, c)
  {
    var w := |poly|;
    PowerAdd(poly, One(w), m, n);
    HornerOne(poly, v);
    assert Zeros(0) + v == v;
    HornerPower(poly, Zeros(w), v, One(w), n);
    ZerosKeepZero(poly, n);
  }

  lemma ZerosKeepZero(poly: Bits, n: nat)
    requires |poly| > 0
    ensures Power(poly, Zeros(|poly|), n) == Zeros(|poly|)
  {
    RegisterShiftsZeros(poly, n);
  }

  // ---------------------------------------------------------------------------------------
  // The same in machine words
  // ---------------------------------------------------------------------------------------

  const POWER: bv32 := 0x864CFB00

  function AddIf(t: bv32, bit: bool, c: bv32): bv32 {
    if bit then t ^ c else t
  }

  function StepUp(t: bv32, bit: bool, c: bv32): bv32 {
    AddIf(ClockUp(POWER, t, false), bit, c)
  }

  lemma AddIfBits(t: bv32, bit: bool, c: bv32, r: bv32)
    requires r == AddIf(t, bit, c) && Fits(TOP, 24, t) && Fits(TOP, 24, c)
    ensures WordBits(TOP, 24, r) == (if bit then Xor(WordBits(TOP, 24, t), WordBits(TOP, 24, c))
                                     else WordBits(TOP, 24, t))
    ensures Fits(TOP, 24, r)
  {
    if bit {
      TopIsLinear();
      TopAdd(t, c);
      WordBitsAdd(TOP, 24, t, c);
    }
  }

  lemma ClockBits(t: bv32, s: bv32)
    requires s == ClockUp(POWER, t, false) && Fits(TOP, 24, t)
    ensures WordBits(TOP, 24, s) == Shift(POLY24, WordBits(TOP, 24, t), false) && Fits(TOP, 24, s)
  {
    TopIsLinear();
    Generator24();
    ClockUpIsClock(POWER, t, false);
    ClockShifts(TOP, 24, POWER, t, false);
  }

  lemma StepUpBits(t: bv32, bit: bool, c: bv32, r: bv32)
    requires r == StepUp(t, bit, c) && Fits(TOP, 24, t) && Fits(TOP, 24, c)
    ensures WordBits(TOP, 24, r) == HornerStep(POLY24, WordBits(TOP, 24, t), bit, WordBits(TOP, 24, c))
    ensures Fits(TOP, 24, r)
  {
    var s := ClockUp(POWER, t, false);
    ClockBits(t, s);
    AddIfBits(s, bit, c, r);
  }

  lemma HornerAppend(poly: Bits, t: Bits, v: Bits, bit: bool, c: Bits, before: Bits, after: Bits, all: Bits)
    requires |poly| == |t| == |c| == |before| > 0 && all == v + [bit]
    requires Horner(poly, t, v, c) == before && after == HornerStep(poly, before, bit, c)
    ensures Horner(poly, t, all, c) == after
  {
    assert all[..|all| - 1] == v;
  }

  lemma HornerFour(poly: Bits, t0: Bits, t1: Bits, t2: Bits, t3: Bits, t4: Bits, a: bool, b: bool, c: bool, d: bool,
                   r: Bits)
    requires |poly| == |t0| == |r| > 0 && t1 == HornerStep(poly, t0, a, r) && t2 == HornerStep(poly, t1, b, r)
    requires t3 == HornerStep(poly, t2, c, r) && t4 == HornerStep(poly, t3, d, r)
    ensures Horner(poly, t0, [a, b, c, d], r) == t4
  {
    HornerAppend(poly, t0, [], a, r, t0, t1, [a]);
    HornerAppend(poly, t0, [a], b, r, t1, t2, [a, b]);
    HornerAppend(poly, t0, [a, b], c, r, t2, t3, [a, b, c]);
    HornerAppend(poly, t0, [a, b, c], d, r, t3, t4, [a, b, c, d]);
  }

  /** Four steps at once. */
  lemma FourStepBits(t0: bv32, t1: bv32, t2: bv32, t3: bv32, t4: bv32, a: bool, b: bool, c: bool, d: bool, r: bv32)
    requires t1 == StepUp(t0, a, r) && t2 == StepUp(t1, b, r) && t3 == StepUp(t2, c, r) && t4 == StepUp(t3, d, r)
    requires Fits(TOP, 24, t0) && Fits(TOP, 24, r)
    ensures WordBits(TOP, 24, t4) == Horner(POLY24, WordBits(TOP, 24, t0), [a, b, c, d], WordBits(TOP, 24, r))
    ensures Fits(TOP, 24, t4)
  {
    StepUpBits(t0, a, r, t1);
    StepUpBits(t1, b, r, t2);
    StepUpBits(t2, c, r, t3);
    StepUpBits(t3, d, r, t4);
    HornerFour(POLY24, WordBits(TOP, 24, t0), WordBits(TOP, 24, t1), WordBits(TOP, 24, t2), WordBits(TOP, 24, t3),
               WordBits(TOP, 24, t4), a, b, c, d, WordBits(TOP, 24, r));
  }

  lemma BitsOfByte(i: byte)
    ensures ByteBits(MsbFirst, i)
            == [MsbBit(i, 0), MsbBit(i, 1), MsbBit(i, 2), MsbBit(i, 3)]
               + [MsbBit(i, 4), MsbBit(i, 5), MsbBit(i, 6), MsbBit(i, 7)]
  {
  }

  lemma EightStepsBits(t: bv32, i: byte, c: bv32, t1: bv32, t2: bv32, t3: bv32, t4: bv32, t5: bv32, t6: bv32, t7: bv32,
                       r: bv32)
    requires Fits(TOP, 24, t) && Fits(TOP, 24, c)
    requires t1 == StepUp(t, MsbBit(i, 0), c) && t2 == StepUp(t1, MsbBit(i, 1), c)
    requires t3 == StepUp(t2, MsbBit(i, 2), c) && t4 == StepUp(t3, MsbBit(i, 3), c)
    requires t5 == StepUp(t4, MsbBit(i, 4), c) && t6 == StepUp(t5, MsbBit(i, 5), c)
    requires t7 == StepUp(t6, MsbBit(i, 6), c) && r == StepUp(t7, MsbBit(i, 7), c)
    ensures Steps8(t, i, c, r)
  {
    FourStepBits(t, t1, t2, t3, t4, MsbBit(i, 0), MsbBit(i, 1), MsbBit(i, 2), MsbBit(i, 3), c);
    FourStepBits(t4, t5, t6, t7, r, MsbBit(i, 4), MsbBit(i, 5), MsbBit(i, 6), MsbBit(i, 7), c);
    BitsOfByte(i);
    HornerConcat(POLY24, WordBits(TOP, 24, t), [MsbBit(i, 0), MsbBit(i, 1), MsbBit(i, 2), MsbBit(i, 3)],
                 [MsbBit(i, 4), MsbBit(i, 5), MsbBit(i, 6), MsbBit(i, 7)], WordBits(TOP, 24, c));
  }

  lemma HornerThree(poly: Bits, t0: Bits, t1: Bits, t2: Bits, t3: Bits, a: Bits, b: Bits, d: Bits, c: Bits)
    requires |poly| == |t0| == |t1| == |t2| == |c| > 0
    requires t1 == Horner(poly, t0, a, c) && t2 == Horner(poly, t1, b, c) && t3 == Horner(poly, t2, d, c)
    ensures Horner(poly, t0, a + b + d, c) == t3
  {
    HornerConcat(poly, t0, a, b, c);
    HornerConcat(poly, t0, a + b, d, c);
  }

  /** The word `r` is `t` after the eight coefficients of a byte. */
  ghost predicate Steps8(t: bv32, i: byte, c: bv32, r: bv32) {
    && Fits(TOP, 24, r)
    && forall j | j == i ::
         WordBits(TOP, 24, r) == Horner(POLY24, WordBits(TOP, 24, t), ByteBits(MsbFirst, j), WordBits(TOP, 24, c))
  }

  lemma ProductBits(v: bv32, v1: bv32, v2: bv32, b2: byte, b1: byte, b0: byte, c: bv32, t1: bv32, t2: bv32, r: bv32)
    requires v1 == v << 8 && v2 == v1 << 8 && Fits(TOP, 24, c)
    requires b2 == (v >> 24) as bv8 && b1 == (v1 >> 24) as bv8 && b0 == (v2 >> 24) as bv8
    requires Steps8(0, b2, c, t1) && Steps8(t1, b1, c, t2) && Steps8(t2, b0, c, r)
    ensures WordBits(TOP, 24, r) == Horner(POLY24, Zeros(24), WordBits(TOP, 24, v), WordBits(TOP, 24, c))
    ensures Fits(TOP, 24, r)
  {
    ZeroWord(TOP, 0, 24);
    TopWord24(v, v1, v2, b2, b1, b0);
    HornerThree(POLY24, Zeros(24), WordBits(TOP, 24, t1), WordBits(TOP, 24, t2), WordBits(TOP, 24, r),
                ByteBits(MsbFirst, b2), ByteBits(MsbFirst, b1), ByteBits(MsbFirst, b0), WordBits(TOP, 24, c));
  }

  /** The word holds x^n. */
  ghost predicate Holds(c: bv32, n: nat) {
    Fits(TOP, 24, c) && forall k: nat | k == n :: WordBits(TOP, 24, c) == Power(POLY24, One(24), k)
  }

  lemma Times(v: bv32, v1: bv32, v2: bv32, b2: byte, b1: byte, b0: byte, c: bv32, t1: bv32, t2: bv32, r: bv32, m: nat,
              n: nat)
    requires Holds(v, m) && Holds(c, n) && v1 == v << 8 && v2 == v1 << 8
    requires b2 == (v >> 24) as bv8 && b1 == (v1 >> 24) as bv8 && b0 == (v2 >> 24) as bv8
    requires Steps8(0, b2, c, t1) && Steps8(t1, b1, c, t2) && Steps8(t2, b0, c, r)
    ensures Holds(r, m + n)
  {
    ProductBits(v, v1, v2, b2, b1, b0, c, t1, t2, r);
    PowerTimes(POLY24, m, n, WordBits(TOP, 24, v), WordBits(TOP, 24, c));
  }

  /** x itself. */
  lemma FirstPower()
    ensures Holds(0x00000200, 1)
  {
    TopBytes(24, 0x00000200, 0x00);
    TopBytes(16, 0x00020000, 0x00);
    TopBytes(8, 0x02000000, 0x02);
    ZeroWord(TOP, 0, 0);
    var w := WordBits(TOP, 24, 0x00000200);
    assert ByteBits(MsbFirst, 0x00) == Zeros(8);
    assert ByteBits(MsbFirst, 0x02) == Zeros(6) + [true, false];
    assert w == Zeros(22) + [true, false];
    PowerOne(POLY24, One(24));
    assert Shift(POLY24, One(24), false) == Zeros(22) + [true, false];
  }

  lemma Square1()
    ensures Holds(0x00000400, 2)
  {
    FirstPower();
    ZeroWord(TOP, 0, 24);
    EightStepsBits(0x00000000, 0x00, 0x00000200, 0x00000000, 0x00000000, 0x00000000, 0x00000000, 0x00000000, 0x00000000,
                   0x00000000, 0x00000000);
    EightStepsBits(0x00000000, 0x00, 0x00000200, 0x00000000, 0x00000000, 0x00000000, 0x00000000, 0x00000000, 0x00000000,
                   0x00000000, 0x00000000);
    EightStepsBits(0x00000000, 0x02, 0x00000200, 0x00000000, 0x00000000, 0x00000000, 0x00000000, 0x00000000, 0x00000000,
                   0x00000200, 0x00000400);
    Times(0x00000200, 0x00020000, 0x02000000, 0x00, 0x00, 0x02, 0x00000200, 0x00000000, 0x00000000, 0x00000400, 1, 1);
  }

  lemma Square2()
    ensures Holds(0x00001000, 4)
  {
    Square1();
    ZeroWord(TOP, 0, 24);
    EightStepsBits(0x00000000, 0x00, 0x00000400, 0x00000000, 0x00000000, 0x00000000, 0x00000000, 0x00000000, 0x00000000,
                   0x00000000, 0x00000000);
    EightStepsBits(0x00000000, 0x00, 0x00000400, 0x00000000, 0x00000000, 0x00000000, 0x00000000, 0x00000000, 0x00000000,
                   0x00000000, 0x00000000);
    EightStepsBits(0x00000000, 0x04, 0x00000400, 0x00000000, 0x00000000, 0x00000000, 0x00000000, 0x00000000, 0x00000400,
                   0x00000800, 0x00001000);
    Times(0x00000400, 0x00040000, 0x04000000, 0x00, 0x00, 0x04, 0x00000400, 0x00000000, 0x00000000, 0x00001000, 2, 2);
  }

  lemma Square3()
    ensures Holds(0x00010000, 8)
  {
    Square2();
    ZeroWord(TOP, 0, 24);
    EightStepsBits(0x00000000, 0x00, 0x00001000, 0x00000000, 0x00000000, 0x00000000, 0x00000000, 0x00000000, 0x00000000,
                   0x00000000, 0x00000000);
    EightStepsBits(0x00000000, 0x00, 0x00001000, 0x00000000, 0x00000000, 0x00000000, 0x00000000, 0x00000000, 0x00000000,
                   0x00000000, 0x00000000);
    EightStepsBits(0x00000000, 0x10, 0x00001000, 0x00000000, 0x00000000, 0x00000000, 0x00001000, 0x00002000, 0x00004000,
                   0x00008000, 0x00010000);
    Times(0x00001000, 0x00100000, 0x10000000, 0x00, 0x00, 0x10, 0x00001000, 0x00000000, 0x00000000, 0x00010000, 4, 4);
  }

  lemma Square4()
    ensures Holds(0x01000000, 16)
  {
    Square3();
    ZeroWord(TOP, 0, 24);
    EightStepsBits(0x00000000, 0x00, 0x00010000, 0x00000000, 0x00000000, 0x00000000, 0x00000000, 0x00000000, 0x00000000,
                   0x00000000, 0x00000000);
    EightStepsBits(0x00000000, 0x01, 0x00010000, 0x00000000, 0x00000000, 0x00000000, 0x00000000, 0x00000000, 0x00000000,
                   0x00000000, 0x00010000);
    EightStepsBits(0x00010000, 0x00, 0x00010000, 0x00020000, 0x00040000, 0x00080000, 0x00100000, 0x00200000, 0x00400000,
                   0x00800000, 0x01000000);
    Times(0x00010000, 0x01000000, 0x00000000, 0x00, 0x01, 0x00, 0x00010000, 0x00000000, 0x00010000, 0x01000000, 8, 8);
  }

  lemma Square5()
    ensures Holds(0x668F4800, 32)
  {
    Square4();
    ZeroWord(TOP, 0, 24);
    EightStepsBits(0x00000000, 0x01, 0x01000000, 0x00000000, 0x00000000, 0x00000000, 0x00000000, 0x00000000, 0x00000000,
                   0x00000000, 0x01000000);
    EightStepsBits(0x01000000, 0x00, 0x01000000, 0x02000000, 0x04000000, 0x08000000, 0x10000000, 0x20000000, 0x40000000,
                   0x80000000, 0x864CFB00);
    EightStepsBits(0x864CFB00, 0x00, 0x01000000, 0x8AD50D00, 0x93E6E100, 0xA1813900, 0xC54E8900, 0x0CD1E900, 0x19A3D200,
                   0x3347A400, 0x668F4800);
    Times(0x01000000, 0x00000000, 0x00000000, 0x01, 0x00, 0x00, 0x01000000, 0x01000000, 0x864CFB00, 0x668F4800, 16, 16);
  }

  lemma Square6()
    ensures Holds(0x36EB3D00, 64)
  {
    Square5();
    ZeroWord(TOP, 0, 24);
    EightStepsBits(0x00000000, 0x66, 0x668F4800, 0x00000000, 0x668F4800, 0xAB91D800, 0xD16F4B00, 0x24926D00, 0x2FAB9200,
                   0x39D86C00, 0x73B0D800);
    EightStepsBits(0x73B0D800, 0x8F, 0x668F4800, 0x81EEF800, 0x85910B00, 0x8D6EED00, 0x9C912100, 0xD9E1F100, 0x53005100,
                   0xC08FEA00, 0x61DC6700);
    EightStepsBits(0x61DC6700, 0x48, 0x668F4800, 0xC3B8CE00, 0x67B22F00, 0xCF645E00, 0x18844700, 0x5787C600, 0xAF0F8C00,
                   0xD853E300, 0x36EB3D00);
    Times(0x668F4800, 0x8F480000, 0x48000000, 0x66, 0x8F, 0x48, 0x668F4800, 0x73B0D800, 0x61DC6700, 0x36EB3D00, 32, 32);
  }

  lemma Square7()
    ensures Holds(0x6243DA00, 128)
  {
    Square6();
    ZeroWord(TOP, 0, 24);
    EightStepsBits(0x00000000, 0x36, 0x36EB3D00, 0x00000000, 0x00000000, 0x36EB3D00, 0x5B3D4700, 0xB67A8E00, 0xDC52DA00,
                   0x08027200, 0x1004E400);
    EightStepsBits(0x1004E400, 0xEB, 0x36EB3D00, 0x16E2F500, 0x1B2ED700, 0x00B69300, 0x016D2600, 0x34317100, 0x6862E200,
                   0xE62EF900, 0x7CFA3400);
    EightStepsBits(0x7CFA3400, 0x3D, 0x36EB3D00, 0xF9F46800, 0x75A42B00, 0xDDA36B00, 0x0BE11000, 0x21291D00, 0x74B90700,
                   0xE9720E00, 0x6243DA00);
    Times(0x36EB3D00, 0xEB3D0000, 0x3D000000, 0x36, 0xEB, 0x3D, 0x36EB3D00, 0x1004E400, 0x7CFA3400, 0x6243DA00, 64, 64);
  }

  lemma Square8()
    ensures Holds(0xCB800E00, 256)
  {
    Square7();
    ZeroWord(TOP, 0, 24);
    EightStepsBits(0x00000000, 0x62, 0x6243DA00, 0x00000000, 0x6243DA00, 0xA6C46E00, 0xCBC42700, 0x11C4B500, 0x23896A00,
                   0x25510E00, 0x4AA21C00);
    EightStepsBits(0x4AA21C00, 0x43, 0x6243DA00, 0x95443800, 0xCE875100, 0x1B425900, 0x3684B200, 0x6D096400, 0xDA12C800,
                   0x502AB100, 0xC216B800);
    EightStepsBits(0xC216B800, 0xDA, 0x6243DA00, 0x60225100, 0xA2077800, 0xC2420B00, 0x608B3700, 0xA355B400, 0xC0E79300,
                   0x65C00700, 0xCB800E00);
    Times(0x6243DA00, 0x43DA0000, 0xDA000000, 0x62, 0x43, 0xDA, 0x6243DA00, 0x4AA21C00, 0xC216B800, 0xCB800E00, 128,
          128);
  }

  lemma Square9()
    ensures Holds(0x7DB43E00, 512)
  {
    Square8();
    ZeroWord(TOP, 0, 24);
    EightStepsBits(0x00000000, 0xCB, 0xCB800E00, 0xCB800E00, 0xDACCE900, 0x33D52900, 0x67AA5200, 0x04D4AA00, 0x09A95400,
                   0xD8D2A600, 0xFC69B900);
    EightStepsBits(0xFC69B900, 0x80, 0xCB800E00, 0xB51F8700, 0xEC73F500, 0x5EAB1100, 0xBD562200, 0xFCE0BF00, 0x7F8D8500,
                   0xFF1B0A00, 0x787AEF00);
    EightStepsBits(0x787AEF00, 0x0E, 0xCB800E00, 0xF0F5DE00, 0x67A74700, 0xCF4E8E00, 0x18D1E700, 0xFA23C000, 0xB98B7500,
                   0x3EDA1F00, 0x7DB43E00);
    Times(0xCB800E00, 0x800E0000, 0x0E000000, 0xCB, 0x80, 0x0E, 0xCB800E00, 0xFC69B900, 0x787AEF00, 0x7DB43E00, 256,
          256);
  }

  lemma Square10()
    ensures Holds(0xDEF23C00, 1024)
  {
    Square9();
    ZeroWord(TOP, 0, 24);
    EightStepsBits(0x00000000, 0x7D, 0x7DB43E00, 0x00000000, 0x7DB43E00, 0x86DC4200, 0xF6404100, 0x17784700, 0x5344B000,
                   0xA6896000, 0xB6EA0500);
    EightStepsBits(0xB6EA0500, 0xB4, 0x7DB43E00, 0x962CCF00, 0xAA156500, 0xAFD20F00, 0xA45CDB00, 0xCEF54D00, 0x66125F00,
                   0xCC24BE00, 0x1E058700);
    EightStepsBits(0x1E058700, 0x3E, 0x7DB43E00, 0x3C0B0E00, 0x78161C00, 0x8D980600, 0xE0C8C900, 0x3A695700, 0x09669000,
                   0x6F791E00, 0xDEF23C00);
    Times(0x7DB43E00, 0xB43E0000, 0x3E000000, 0x7D, 0xB4, 0x3E, 0x7DB43E00, 0xB6EA0500, 0x1E058700, 0xDEF23C00, 512,
          512);
  }

  lemma Square11()
    ensures Holds(0x3D145A00, 2048)
  {
    Square10();
    ZeroWord(TOP, 0, 24);
    EightStepsBits(0x00000000, 0xDE, 0xDEF23C00, 0xDEF23C00, 0xE55ABF00, 0x4CF98500, 0x47013600, 0x50F05000, 0x7F129C00,
                   0x20D70400, 0x41AE0800);
    EightStepsBits(0x41AE0800, 0xF2, 0xDEF23C00, 0x5DAE2C00, 0x65AE6400, 0x15AEF400, 0xF5AFD400, 0x6D135300, 0xDA26A600,
                   0xECF38B00, 0x5FABED00);
    EightStepsBits(0x5FABED00, 0x3C, 0xDEF23C00, 0xBF57DA00, 0xF8E34F00, 0xA9785900, 0x0A4E7500, 0xCA6ED600, 0xCC636B00,
                   0x1E8A2D00, 0x3D145A00);
    Times(0xDEF23C00, 0xF23C0000, 0x3C000000, 0xDE, 0xF2, 0x3C, 0xDEF23C00, 0x41AE0800, 0x5FABED00, 0x3D145A00, 1024,
          1024);
  }

  lemma Square12()
    ensures Holds(0xC5BF5600, 4096)
  {
    Square11();
    ZeroWord(TOP, 0, 24);
    EightStepsBits(0x00000000, 0x3D, 0x3D145A00, 0x00000000, 0x00000000, 0x3D145A00, 0x473CEE00, 0xB36D8600, 0xDD83AD00,
                   0x3D4BA100, 0x47831800);
    EightStepsBits(0x47831800, 0x14, 0x3D145A00, 0x8F063000, 0x98409B00, 0xB6CDCD00, 0xD6C33B00, 0x2BCA8D00, 0x6A814000,
                   0xD5028000, 0x2C49FB00);
    EightStepsBits(0x2C49FB00, 0x5A, 0x3D145A00, 0x5893F600, 0x8C33B600, 0x9E2B9700, 0x870F8F00, 0xB547BF00, 0xECC38500,
                   0x62DFAB00, 0xC5BF5600);
    Times(0x3D145A00, 0x145A0000, 0x5A000000, 0x3D, 0x14, 0x5A, 0x3D145A00, 0x47831800, 0x2C49FB00, 0xC5BF5600, 2048,
          2048);
  }

  lemma Square13()
    ensures Holds(0x11E89800, 8192)
  {
    Square12();
    ZeroWord(TOP, 0, 24);
    EightStepsBits(0x00000000, 0xC5, 0xC5BF5600, 0xC5BF5600, 0xC88D0100, 0x1756F900, 0x2EADF200, 0x5D5BE400, 0x7F089E00,
                   0xFE113C00, 0xBFD1D500);
    EightStepsBits(0xBFD1D500, 0xBF, 0xC5BF5600, 0x3C500700, 0x78A00E00, 0x34FF4A00, 0xAC41C200, 0x1B702900, 0xF35F0400,
                   0xA54DA500, 0x0968E700);
    EightStepsBits(0x0968E700, 0x56, 0xC5BF5600, 0x12D1CE00, 0xE01CCA00, 0x46756F00, 0x49558800, 0x92AB1000, 0x66A58D00,
                   0x08F44C00, 0x11E89800);
    Times(0xC5BF5600, 0xBF560000, 0x56000000, 0xC5, 0xBF, 0x56, 0xC5BF5600, 0xBFD1D500, 0x0968E700, 0x11E89800, 4096,
          4096);
  }

  lemma Square14()
    ensures Holds(0xEACC6500, 16384)
  {
    Square13();
    ZeroWord(TOP, 0, 24);
    EightStepsBits(0x00000000, 0x11, 0x11E89800, 0x00000000, 0x00000000, 0x00000000, 0x11E89800, 0x23D13000, 0x47A26000,
                   0x8F44C000, 0x892DE300);
    EightStepsBits(0x892DE300, 0xE8, 0x11E89800, 0x85FFA500, 0x9C5B2900, 0xAF123100, 0xD8689900, 0x27755100, 0x4EEAA200,
                   0x9DD54400, 0xBDE67300);
    EightStepsBits(0xBDE67300, 0x98, 0x11E89800, 0xEC688500, 0x5E9DF100, 0xBD3BE200, 0xEDD3A700, 0x4C032D00, 0x98065A00,
                   0xB6404F00, 0xEACC6500);
    Times(0x11E89800, 0xE8980000, 0x98000000, 0x11, 0xE8, 0x98, 0x11E89800, 0x892DE300, 0xBDE67300, 0xEACC6500, 8192,
          8192);
  }

  lemma Square15()
    ensures Holds(0x0893EB00, 32768)
  {
    Square14();
    ZeroWord(TOP, 0, 24);
    EightStepsBits(0x00000000, 0xEA, 0xEACC6500, 0xEACC6500, 0xB9185400, 0x1EB03600, 0x3D606C00, 0x900CBD00, 0xA6558100,
                   0x202B9C00, 0x40573800);
    EightStepsBits(0x40573800, 0xCC, 0xEACC6500, 0x6A621500, 0x3E084F00, 0x7C109E00, 0xF8213C00, 0x9CC2E600, 0x55055200,
                   0xAA0AA400, 0xD259B300);
    EightStepsBits(0xD259B300, 0x65, 0xEACC6500, 0x22FF9D00, 0xAF335F00, 0x32E62000, 0x65CC4000, 0xCB988000, 0xFBB19E00,
                   0x712FC700, 0x0893EB00);
    Times(0xEACC6500, 0xCC650000, 0x65000000, 0xEA, 0xCC, 0x65, 0xEACC6500, 0x40573800, 0xD259B300, 0x0893EB00, 16384,
          16384);
  }

  lemma Square16()
    ensures Holds(0xDBEA2700, 65536)
  {
    Square15();
    ZeroWord(TOP, 0, 24);
    EightStepsBits(0x00000000, 0x08, 0x0893EB00, 0x00000000, 0x00000000, 0x00000000, 0x00000000, 0x0893EB00, 0x1127D600,
                   0x224FAC00, 0x449F5800);
    EightStepsBits(0x449F5800, 0x93, 0x0893EB00, 0x81AD5B00, 0x85164D00, 0x8C606100, 0x961FD200, 0xAA735F00, 0xD2AA4500,
                   0x2B8B9A00, 0x5F84DF00);
    EightStepsBits(0x5F84DF00, 0xEB, 0x0893EB00, 0xB79A5500, 0xE1EBBA00, 0x4D086400, 0x9A10C800, 0xBAFE8000, 0xF3B1FB00,
                   0x69BCE600, 0xDBEA2700);
    Times(0x0893EB00, 0x93EB0000, 0xEB000000, 0x08, 0x93, 0xEB, 0x0893EB00, 0x449F5800, 0x5F84DF00, 0xDBEA2700, 32768,
          32768);
  }

  lemma Square17()
    ensures Holds(0xEC11C000, 131072)
  {
    Square16();
    ZeroWord(TOP, 0, 24);
    EightStepsBits(0x00000000, 0xDB, 0xDBEA2700, 0xDBEA2700, 0xEA729200, 0x52A9DF00, 0x7EB99900, 0x26991500, 0x4D322A00,
                   0x418E7300, 0x58F6C100);
    EightStepsBits(0x58F6C100, 0xEA, 0xDBEA2700, 0x6A07A500, 0x0FE56D00, 0xC420FD00, 0x0E0D0100, 0xC7F02500, 0x09ACB100,
                   0xC8B34500, 0x172A7100);
    EightStepsBits(0x172A7100, 0x27, 0xDBEA2700, 0x2E54E200, 0x5CA9C400, 0x62B9AF00, 0xC5735E00, 0x0CAA4700, 0xC2BEA900,
                   0xD8DB8E00, 0xEC11C000);
    Times(0xDBEA2700, 0xEA270000, 0x27000000, 0xDB, 0xEA, 0x27, 0xDBEA2700, 0x58F6C100, 0x172A7100, 0xEC11C000, 65536,
          65536);
  }

  lemma Square18()
    ensures Holds(0x6EC0ED00, 262144)
  {
    Square17();
    ZeroWord(TOP, 0, 24);
    EightStepsBits(0x00000000, 0xEC, 0xEC11C000, 0xEC11C000, 0xB27EBB00, 0x0EA04D00, 0x1D409A00, 0xD690F400, 0xC77CD300,
                   0x08B55D00, 0x116ABA00);
    EightStepsBits(0x116ABA00, 0x11, 0xEC11C000, 0x22D57400, 0x45AAE800, 0x8B55D000, 0x7CF69B00, 0xF9ED3600, 0x75969700,
                   0xEB2D2E00, 0xBC076700);
    EightStepsBits(0xBC076700, 0xC0, 0xEC11C000, 0x1253F500, 0xC8B62A00, 0x1720AF00, 0x2E415E00, 0x5C82BC00, 0xB9057800,
                   0xF4460B00, 0x6EC0ED00);
    Times(0xEC11C000, 0x11C00000, 0xC0000000, 0xEC, 0x11, 0xC0, 0xEC11C000, 0x116ABA00, 0xBC076700, 0x6EC0ED00, 131072,
          131072);
  }

  lemma Square19()
    ensures Holds(0xE7B0EE00, 524288)
  {
    Square18();
    ZeroWord(TOP, 0, 24);
    EightStepsBits(0x00000000, 0x6E, 0x6EC0ED00, 0x00000000, 0x6EC0ED00, 0xB3413700, 0xE0CE9500, 0x29113C00, 0x3CE29500,
                   0x1705C700, 0x2E0B8E00);
    EightStepsBits(0x2E0B8E00, 0xC0, 0x6EC0ED00, 0x32D7F100, 0x0B6F0F00, 0x16DE1E00, 0x2DBC3C00, 0x5B787800, 0xB6F0F000,
                   0xEBAD1B00, 0x5116CD00);
    EightStepsBits(0x5116CD00, 0xED, 0x6EC0ED00, 0xCCED7700, 0x7156F800, 0x8C6D1D00, 0x9E96C100, 0xD5A19400, 0x43CF3E00,
                   0x879E7C00, 0xE7B0EE00);
    Times(0x6EC0ED00, 0xC0ED0000, 0xED000000, 0x6E, 0xC0, 0xED, 0x6EC0ED00, 0x2E0B8E00, 0x5116CD00, 0xE7B0EE00, 262144,
          262144);
  }

  lemma Square20()
    ensures Holds(0xDE2E5200, 1048576)
  {
    Square19();
    ZeroWord(TOP, 0, 24);
    EightStepsBits(0x00000000, 0xE7, 0xE7B0EE00, 0xE7B0EE00, 0xAE9DC900, 0x3CC78700, 0x798F0E00, 0xF31E1C00, 0x87C02D00,
                   0x6E7C4F00, 0x3B487000);
    EightStepsBits(0x3B487000, 0xB0, 0xE7B0EE00, 0x91200E00, 0xA40CE700, 0x29E5DB00, 0xB47B5800, 0xEEBA4B00, 0x5B386D00,
                   0xB670DA00, 0xEAAD4F00);
    EightStepsBits(0xEAAD4F00, 0xEE, 0xE7B0EE00, 0xB4A68B00, 0x08B10300, 0xF6D2E800, 0x6BE92B00, 0x3062B800, 0x87759E00,
                   0x6F172900, 0xDE2E5200);
    Times(0xE7B0EE00, 0xB0EE0000, 0xEE000000, 0xE7, 0xB0, 0xEE, 0xE7B0EE00, 0x3B487000, 0xEAAD4F00, 0xDE2E5200, 524288,
          524288);
  }

  lemma Square21()
    ensures Holds(0x37A1AE00, 2097152)
  {
    Square20();
    ZeroWord(TOP, 0, 24);
    EightStepsBits(0x00000000, 0xDE, 0xDE2E5200, 0xDE2E5200, 0xE43E0D00, 0x4E30E100, 0x424F9000, 0x5AB17200, 0x6B4CB600,
                   0x08B73E00, 0x116E7C00);
    EightStepsBits(0x116E7C00, 0x2E, 0xDE2E5200, 0x22DCF800, 0x45B9F000, 0x555DB200, 0xAABB6400, 0x0D146100, 0xC4069000,
                   0xD06F8900, 0x2693E900);
    EightStepsBits(0x2693E900, 0x52, 0xDE2E5200, 0x4D27D200, 0x4461F600, 0x88C3EC00, 0x49E57100, 0x93CAE200, 0xA1D93F00,
                   0x1BD0D700, 0x37A1AE00);
    Times(0xDE2E5200, 0x2E520000, 0x52000000, 0xDE, 0x2E, 0x52, 0xDE2E5200, 0x116E7C00, 0x2693E900, 0x37A1AE00, 1048576,
          1048576);
  }

  lemma Square22()
    ensures Holds(0x85C31E00, 4194304)
  {
    Square21();
    ZeroWord(TOP, 0, 24);
    EightStepsBits(0x00000000, 0x37, 0x37A1AE00, 0x00000000, 0x00000000, 0x37A1AE00, 0x58E2F200, 0xB1C5E400, 0xD2669D00,
                   0x15206F00, 0x1DE17000);
    EightStepsBits(0x1DE17000, 0xA1, 0x37A1AE00, 0x0C634E00, 0x18C69C00, 0x062C9600, 0x0C592C00, 0x18B25800, 0x3164B000,
                   0x62C96000, 0xF2336E00);
    EightStepsBits(0xF2336E00, 0xAE, 0x37A1AE00, 0x558B8900, 0xAB171200, 0xE7C37100, 0x49CA1900, 0xA4359C00, 0xF9866D00,
                   0x42E18F00, 0x85C31E00);
    Times(0x37A1AE00, 0xA1AE0000, 0xAE000000, 0x37, 0xA1, 0xAE, 0x37A1AE00, 0x1DE17000, 0xF2336E00, 0x85C31E00, 2097152,
          2097152);
  }

  lemma Square23()
    ensures Holds(0x00000200, 8388608)
  {
    Square22();
    ZeroWord(TOP, 0, 24);
    EightStepsBits(0x00000000, 0x85, 0x85C31E00, 0x85C31E00, 0x8DCAC700, 0x9DD97500, 0xBDFE1100, 0xFDB0D900, 0xF8EE5700,
                   0x77905500, 0x6AE3B400);
    EightStepsBits(0x6AE3B400, 0xC3, 0x85C31E00, 0x50047600, 0x25CBF200, 0x4B97E400, 0x972FC800, 0xA8136B00, 0xD66A2D00,
                   0xAF5BBF00, 0x5D389B00);
    EightStepsBits(0x5D389B00, 0x1E, 0x85C31E00, 0xBA713600, 0xF2AE9700, 0x6311D500, 0x43E0B400, 0x02027600, 0x81C7F200,
                   0x00000100, 0x00000200);
    Times(0x85C31E00, 0xC31E0000, 0x1E000000, 0x85, 0xC3, 0x1E, 0x85C31E00, 0x6AE3B400, 0x5D389B00, 0x00000200, 4194304,
          4194304);
  }

  lemma Power48()
    ensures Holds(0x36095200, 48)
  {
    Square5();
    Square4();
    ZeroWord(TOP, 0, 24);
    EightStepsBits(0x00000000, 0x66, 0x01000000, 0x00000000, 0x01000000, 0x03000000, 0x06000000, 0x0C000000, 0x19000000,
                   0x33000000, 0x66000000);
    EightStepsBits(0x66000000, 0x8F, 0x01000000, 0xCD000000, 0x1C4CFB00, 0x3899F600, 0x7133EC00, 0xE367D800, 0x41834B00,
                   0x82069600, 0x8341D700);
    EightStepsBits(0x8341D700, 0x48, 0x01000000, 0x80CF5500, 0x86D25100, 0x8BE85900, 0x919C4900, 0xA4746900, 0xCEA42900,
                   0x1B04A900, 0x36095200);
    Times(0x668F4800, 0x8F480000, 0x48000000, 0x66, 0x8F, 0x48, 0x01000000, 0x66000000, 0x8341D700, 0x36095200, 32, 16);
  }

  // ---------------------------------------------------------------------------------------
  // Periods of x
  // ---------------------------------------------------------------------------------------

  ghost predicate Period(n: nat) {
    forall k: nat | k == n :: Power(POLY24, One(24), k) == One(24)
  }

  lemma PeriodDifference(a: nat, b: nat)
    requires Period(a + b) && Period(b)
    ensures Period(a)
  {
    GeneratorsAreOdd();
    assert Power(POLY24, One(24), a + b) == One(24) && Power(POLY24, One(24), b) == One(24);
    PowerAdd(POLY24, One(24), a, b);
    PowerInjective(POLY24, Power(POLY24, One(24), a), One(24), b);
  }

  lemma {:induction false} PeriodReduces(n: nat, d: nat, q: nat, r: nat)
    requires Period(n) && Period(d) && n == q * d + r
    ensures Period(r)
    decreases q
  {
    if q > 0 {
      assert q * d == (q - 1) * d + d;
      PeriodDifference((q - 1) * d + r, d);
      PeriodReduces((q - 1) * d + r, d, q - 1, r);
    }
  }

  const N := 8388607

  /** x^(2^23) is x again. */
  lemma MersennePeriod()
    ensures Period(N)
  {
    Square23();
    FirstPower();
    GeneratorsAreOdd();
    assert Power(POLY24, One(24), 8388608) == WordBits(TOP, 24, 0x00000200) == Power(POLY24, One(24), 1);
    PowerAdd(POLY24, One(24), N, 1);
    PowerInjective(POLY24, Power(POLY24, One(24), N), One(24), 1);
  }

  // ---------------------------------------------------------------------------------------
  // The divisors of 2^23 - 1 = 47 * 178481
  // ---------------------------------------------------------------------------------------

  /** No number from 2 to `k` divides 178481. */
  predicate NoDivisorUpTo(k: nat) {
    k < 2 || (178481 % k != 0 && NoDivisorUpTo(k - 1))
  }

  /** No number from 2 to `k` divides 47. */
  predicate NoSmallDivisorUpTo(k: nat) {
    k < 2 || (47 % k != 0 && NoSmallDivisorUpTo(k - 1))
  }

  lemma {:induction false} NoSmallDivisor(n: nat, k: nat)
    requires NoSmallDivisorUpTo(n) && 2 <= k <= n
    ensures 47 % k != 0
    decreases n
  {
    if k < n {
      NoSmallDivisor(n - 1, k);
    }
  }

  lemma FortySevenIsPrime()
    ensures NoSmallDivisorUpTo(46)
  {
    assert NoSmallDivisorUpTo(17);
    assert NoSmallDivisorUpTo(32);
  }

  lemma UpTo47()
    ensures NoDivisorUpTo(47)
  {
    assert NoDivisorUpTo(17); assert NoDivisorUpTo(32);
  }

  lemma UpTo92()
    ensures NoDivisorUpTo(92)
  {
    UpTo47();
    assert NoDivisorUpTo(62); assert NoDivisorUpTo(77);
  }

  lemma UpTo137()
    ensures NoDivisorUpTo(137)
  {
    UpTo92();
    assert NoDivisorUpTo(107); assert NoDivisorUpTo(122);
  }

  lemma UpTo182()
    ensures NoDivisorUpTo(182)
  {
    UpTo137();
    assert NoDivisorUpTo(152); assert NoDivisorUpTo(167);
  }

  lemma UpTo227()
    ensures NoDivisorUpTo(227)
  {
    UpTo182();
    assert NoDivisorUpTo(197); assert NoDivisorUpTo(212);
  }

  lemma UpTo272()
    ensures NoDivisorUpTo(272)
  {
    UpTo227();
    assert NoDivisorUpTo(242); assert NoDivisorUpTo(257);
  }

  lemma UpTo317()
    ensures NoDivisorUpTo(317)
  {
    UpTo272();
    assert NoDivisorUpTo(287); assert NoDivisorUpTo(302);
  }

  lemma UpTo362()
    ensures NoDivisorUpTo(362)
  {
    UpTo317();
    assert NoDivisorUpTo(332); assert NoDivisorUpTo(347);
  }

  lemma UpTo407()
    ensures NoDivisorUpTo(407)
  {
    UpTo362();
    assert NoDivisorUpTo(377); assert NoDivisorUpTo(392);
  }

  lemma UpTo422()
    ensures NoDivisorUpTo(422)
  {
    UpTo407();
  }

  lemma {:induction false} NoDivisor(n: nat, k: nat)
    requires NoDivisorUpTo(n) && 2 <= k <= n
    ensures 178481 % k != 0
    decreases n
  {
    if k < n {
      NoDivisor(n - 1, k);
    }
  }

  lemma MultipleDivides(u: nat, v: nat)
    requires u > 0
    ensures (u * v) % u == 0
  {
    var q, r := (u * v) / u, (u * v) % u;
    assert (v - q) * u == r;
    assert v - q >= 1 ==> (v - q) * u >= u;
    assert v - q <= -1 ==> (v - q) * u + u <= 0;
  }

  lemma LargeProduct(u: nat, v: nat)
    requires u >= 423 && v >= 423
    ensures u * v >= 423 * 423
  {
    assert u * v >= u * 423 >= 423 * 423;
  }

  /** 178481 is prime. */
  lemma PrimeFactor(u: nat, v: nat)
    requires u * v == 178481
    ensures u == 1 || v == 1
  {
    UpTo422();
    if u >= 423 && v >= 423 {
      LargeProduct(u, v);
    } else if 2 <= u <= 422 {
      NoDivisor(422, u);
      MultipleDivides(u, v);
    } else if 2 <= v <= 422 {
      NoDivisor(422, v);
      MultipleDivides(v, u);
    }
  }

  lemma ProductOfSum(a: int, b: int, e: int)
    ensures (a + b) * e == a * e + b * e
  {
  }

  lemma ProductInOrder(a: int, b: int, c: int)
    ensures (a * b) * c == a * (b * c)
  {
  }

  /** One division step: the remainder of 47 by `r` has the same property as `r`. */
  lemma RemainderMultiple(q: int, r: int, rest: int, e: int, k: int)
    requires q * r + rest == 47 && r * e == 47 * k
    ensures rest * e == 47 * (e - q * k)
  {
    var product := q * r;
    ProductOfSum(product, rest, e);
    ProductInOrder(q, r, e);
    ProductInOrder(q, 47, k);
    ProductInOrder(47, q, k);
  }

  /** Descent on the remainder: a multiple of 47 with a factor below 47 has its other factor divisible by 47. */
  lemma {:induction false} SmallFactor(r: nat, e: nat, k: int) returns (z: int)
    requires 1 <= r < 47 && r * e == 47 * k
    ensures e == 47 * z
    decreases r
  {
    if r == 1 {
      z := k;
    } else {
      FortySevenIsPrime();
      NoSmallDivisor(46, r);
      var q, r' := 47 / r, 47 % r;
      RemainderMultiple(q, r, r', e, k);
      z := SmallFactor(r', e, e - q * k);
    }
  }

  /** 47 is prime. */
  lemma FactorOf47(d: nat, e: nat, p: nat) returns (z: int)
    requires d * e == 47 * p && d % 47 != 0
    ensures e == 47 * z
  {
    var q, r := d / 47, d % 47;
    assert r * e == 47 * (p - q * e) by {
      assert d == 47 * q + r;
      assert d * e == 47 * (q * e) + r * e;
    }
    z := SmallFactor(r, e, p - q * e);
  }

  lemma DivisorOfN(d: nat, e: nat)
    requires d * e == N && 1 <= d < 178481
    ensures d == 1 || d == 47
  {
    if d % 47 == 0 {
      var d' := d / 47;
      assert d == 47 * d';
      assert 47 * (d' * e) == 47 * 178481;
      PrimeFactor(d', e);
    } else {
      var z := FactorOf47(d, e, 178481);
      assert 47 * (d * z) == 47 * 178481;
      assert z > 0;
      PrimeFactor(d, z);
    }
  }

  // ---------------------------------------------------------------------------------------
  // No short period, no cancelling pair
  // ---------------------------------------------------------------------------------------

  lemma DifferentWords(a: bv32, b: bv32, i: byte, j: byte)
    requires i == (a >> 24) as bv8 && j == (b >> 24) as bv8 && i != j
    ensures WordBits(TOP, 24, a) != WordBits(TOP, 24, b)
  {
    TopBytes(24, a, i);
    TopBytes(24, b, j);
    if WordBits(TOP, 24, a) == WordBits(TOP, 24, b) {
      assert ByteBits(MsbFirst, i) == WordBits(TOP, 24, a)[..8] == ByteBits(MsbFirst, j);
      ByteBitsInjective(MsbFirst, i, j);
    }
  }

  lemma NotOne()
    ensures !Period(1)
  {
    FirstPower();
    PowerOne(POLY24, One(24));
    assert Shift(POLY24, One(24), false)[23] == false && One(24)[23];
    assert Power(POLY24, One(24), 1) != One(24);
  }

  lemma NotFortySeven()
    ensures !Period(47)
  {
    if Period(47) {
      Power48();
      FirstPower();
      assert Power(POLY24, One(24), 47) == One(24);
      PowerAdd(POLY24, One(24), 47, 1);
      assert WordBits(TOP, 24, 0x36095200) == Power(POLY24, One(24), 48)
             && WordBits(TOP, 24, 0x00000200) == Power(POLY24, One(24), 1);
      DifferentWords(0x36095200, 0x00000200, 0x36, 0x00);
    }
  }

  /** The powers of x do not repeat within 178480 steps. */
  lemma {:induction false} NoShortPeriod(d: nat)
    requires 1 <= d < 178481
    ensures !Period(d)
    decreases d
  {
    if Period(d) {
      MersennePeriod();
      var q, r := N / d, N % d;
      assert N == q * d + r;
      PeriodReduces(N, d, q, r);
      if r > 0 {
        NoShortPeriod(r);
      } else {
        assert d * q == N;
        DivisorOfN(d, q);
        NotOne();
        NotFortySeven();
      }
    }
  }

  /** The divisor without its leading term is x^w. */
  lemma PolynomialIsPower(poly: Bits)
    requires |poly| > 0
    ensures Power(poly, One(|poly|), |poly|) == poly
  {
    var w := |poly|;
    var top := [true] + Zeros(w - 1);
    RegisterShiftsOut(poly, Zeros(w - 1), [true]);
    PowerAdd(poly, One(w), w - 1, 1);
    PowerOne(poly, top);
    TopShiftsOut(poly, top);
  }

  lemma TopShiftsOut(poly: Bits, top: Bits)
    requires |poly| > 0 && top == [true] + Zeros(|poly| - 1)
    ensures Shift(poly, top, false) == poly
  {
    assert top[1..] + [false] == Zeros(|poly|);
  }

  lemma ShiftOfOne(poly: Bits, r: Bits)
    requires |r| == |poly| > 0
    ensures Shift(poly, r, true) == Xor(Shift(poly, r, false), poly)
  {
    var s := r[1..] + [false];
    assert Xor(Xor(s, poly), poly) == s;
  }

  /** Two ones at a distance `d`, and nothing else. */
  function TwoOnes(d: nat): Bits
    requires d >= 1
  {
    [true] + Zeros(d - 1) + [true]
  }

  lemma TwoOnesRegister(d: nat)
    requires d >= 1
    ensures Register(POLY24, Zeros(24), TwoOnes(d)) == Xor(Power(POLY24, POLY24, d), POLY24)
  {
    var z := Zeros(d - 1);
    RegisterConcat(POLY24, Zeros(24), [true] + z, [true]);
    RegisterConcat(POLY24, Zeros(24), [true], z);
    assert [true][1..] == [];
    assert Register(POLY24, Zeros(24), [true]) == Shift(POLY24, Zeros(24), true) == POLY24 by {
      ShiftOfOne(POLY24, Zeros(24));
      assert Shift(POLY24, Zeros(24), false) == Zeros(24);
      assert Xor(Zeros(24), POLY24) == POLY24;
    }
    var r := Power(POLY24, POLY24, d - 1);
    assert Register(POLY24, r, [true]) == Shift(POLY24, r, true);
    ShiftOfOne(POLY24, r);
    PowerOne(POLY24, r);
    PowerAdd(POLY24, POLY24, d - 1, 1);
  }

  /** Two flipped bits less than 178481 apart leave a residue. */
  lemma PairLeavesResidue(d: nat)
    requires 1 <= d < 178481
    ensures Register(POLY24, Zeros(24), TwoOnes(d)) != Zeros(24)
  {
    GeneratorsAreOdd();
    TwoOnesRegister(d);
    SumIsZero(Power(POLY24, POLY24, d), POLY24);
    if Power(POLY24, POLY24, d) == POLY24 {
      PolynomialIsPower(POLY24);
      PowerAdd(POLY24, One(24), 24, d);
      PowerAdd(POLY24, One(24), d, 24);
      PowerInjective(POLY24, Power(POLY24, One(24), d), One(24), 24);
      NoShortPeriod(d);
    }
  }
}
