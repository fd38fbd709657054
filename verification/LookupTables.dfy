/** Why a table with one entry per byte does the work of eight clocks of a shift register. */
module LookupTables {
  import opened Bytes
  import opened Gf2
  import opened Words
  import opened Crc

  /** The byte without the bit that is sent last. */
  function Earlier(order: Order, i: byte): byte {
    if order.MsbFirst? then i >> 1 else i << 1
  }

  /** The bit of the byte that is sent last. */
  predicate Last(order: Order, i: byte) {
    if order.MsbFirst? then i & 1 != 0 else i & 0x80 != 0
  }

  lemma ShiftedBit(i: byte, k: nat)
    requires k < 7
    ensures MsbBit(i >> 1, k + 1) == MsbBit(i, k)
    ensures MsbBit(i << 1, k) == MsbBit(i, k + 1)
  {
  }

  lemma EarlierBits(order: Order, i: byte)
    ensures ByteBits(order, Earlier(order, i)) == [false] + ByteBits(order, i)[..7]
    ensures ByteBits(order, i)[7] == Last(order, i)
  {
    var a, b := ByteBits(order, Earlier(order, i)), [false] + ByteBits(order, i)[..7];
    forall k | 0 <= k < 8 ensures a[k] == b[k] {
      if k > 0 { ShiftedBit(i, if order.MsbFirst? then k - 1 else 7 - k); }
    }
  }

  /** The register that the last `n` bits of a byte leave behind. */
  function Entry<W(!new)>(o: Ops<W>, order: Order, poly: W, zero: W, i: byte, n: nat): W
    decreases n
  {
    if n == 0 then zero
    else Clock(o, poly, Entry(o, order, poly, zero, Earlier(order, i), n - 1), Last(order, i))
  }

  lemma {:induction false} EntryIsRegister<W(!new)>(o: Ops<W>, order: Order, w: nat, poly: W, zero: W,
                                                    i: byte, n: nat)
    requires Linear(o) && w > 0 && Fits(o, w, poly)
    requires WordBits(o, w, zero) == Zeros(w) && Fits(o, w, zero)
    requires n <= 8
    ensures WordBits(o, w, Entry(o, order, poly, zero, i, n))
            == Register(WordBits(o, w, poly), Zeros(w), ByteBits(order, i)[8 - n..])
    ensures Fits(o, w, Entry(o, order, poly, zero, i, n))
    decreases n
  {
    if n > 0 {
      var e := Earlier(order, i);
      EarlierBits(order, i);
      EntryIsRegister(o, order, w, poly, zero, e, n - 1);
      ClockShifts(o, w, poly, Entry(o, order, poly, zero, e, n - 1), Last(order, i));
      var tail, first := ByteBits(order, i)[8 - n..], ByteBits(order, e)[9 - n..];
      LastOfTail(ByteBits(order, i), ByteBits(order, e), n);
      RegisterAppend(WordBits(o, w, poly), Zeros(w), first, Last(order, i), tail);
    }
  }

  lemma LastOfTail(bits: Bits, earlier: Bits, n: nat)
    requires |bits| == 8 && 0 < n <= 8 && earlier == [false] + bits[..7]
    ensures bits[8 - n..] == earlier[9 - n..] + [bits[7]]
  {
  }

  lemma RegisterAppend(poly: Bits, clear: Bits, first: Bits, last: bool, tail: Bits)
    requires |clear| == |poly| > 0 && tail == first + [last]
    ensures Register(poly, clear, tail) == Shift(poly, Register(poly, clear, first), last)
  {
    RegisterConcat(poly, clear, first, [last]);
  }

  /** One table lookup does the work of eight clocks. */
  lemma LookupStep<W(!new)>(o: Ops<W>, order: Order, w: nat, poly: W, c: W, data: byte, index: byte, entry: W)
    requires Linear(o) && 8 <= w && Fits(o, w, c)
    requires ByteBits(order, index) == Xor(ByteBits(order, data), WordBits(o, w, c)[..8])
    requires WordBits(o, w, entry) == Register(WordBits(o, w, poly), Zeros(w), ByteBits(order, index))
    requires Fits(o, w, entry)
    ensures WordBits(o, w, o.add(Steps(o, c, 8), entry))
            == Register(WordBits(o, w, poly), WordBits(o, w, c), ByteBits(order, data))
    ensures Fits(o, w, o.add(Steps(o, c, 8), entry))
  {
    WordBitsOfSteps(o, w, c, 8);
    WordBitsAdd(o, w, Steps(o, c, 8), entry);
    RegisterByTable(WordBits(o, w, poly), WordBits(o, w, c), ByteBits(order, data), ByteBits(order, index));
  }

  // ---------------------------------------------------------------------------------------
  // Words and their bytes
  // ---------------------------------------------------------------------------------------

  lemma BitXor(a: byte, b: byte, c: byte, i: nat)
    requires c == a ^ b && i < 8
    ensures MsbBit(c, i) == (MsbBit(a, i) != MsbBit(b, i))
  {
    if i == 0 {
    } else if i == 1 {
    } else if i == 2 {
    } else if i == 3 {
    } else if i == 4 {
    } else if i == 5 {
    } else if i == 6 {
    } else {
    }
  }

  lemma ByteBitsXor(order: Order, a: byte, b: byte, c: byte)
    requires c == a ^ b
    ensures ByteBits(order, c) == Xor(ByteBits(order, a), ByteBits(order, b))
  {
    forall i: nat | i < 8 ensures MsbBit(c, i) == (MsbBit(a, i) != MsbBit(b, i)) {
      BitXor(a, b, c, i);
    }
  }

  lemma TopBit(c: bv32, b: byte, i: nat)
    requires b == (c >> 24) as bv8 && i < 8
    ensures Bit(TOP, c, i) == MsbBit(b, i)
  {
    if i == 0 {
    } else if i == 1 {
    } else if i == 2 {
    } else if i == 3 {
    } else if i == 4 {
    } else if i == 5 {
    } else if i == 6 {
    } else {
    }
  }

  lemma BottomBit(c: bv32, b: byte, i: nat)
    requires b == (c & 0xFF) as bv8 && i < 8
    ensures Bit(BOTTOM, c, i) == MsbBit(b, 7 - i)
  {
    if i == 0 {
    } else if i == 1 {
    } else if i == 2 {
    } else if i == 3 {
    } else if i == 4 {
    } else if i == 5 {
    } else if i == 6 {
    } else {
    }
  }

  /** A word whose register sits at the top is its first byte, then the rest moved up. */
  lemma TopBytes(w: nat, c: bv32, b: byte)
    requires 8 <= w && b == (c >> 24) as bv8
    ensures WordBits(TOP, w, c) == ByteBits(MsbFirst, b) + WordBits(TOP, w - 8, c << 8)
    ensures Fits(TOP, w, c) <==> Fits(TOP, w - 8, c << 8)
  {
    TopSteps8(c);
    var rest := c << 8;
    forall i: nat {:trigger Bit(TOP, rest, i)} ensures Bit(TOP, rest, i) == Bit(TOP, c, i + 8) {
      BitOfSteps(TOP, c, 8, i);
    }
    forall i: nat | i < 8 ensures Bit(TOP, c, i) == MsbBit(b, i) {
      TopBit(c, b, i);
    }
    if Fits(TOP, w - 8, rest) {
      forall i | i >= w ensures !Bit(TOP, c, i) {
        assert Bit(TOP, rest, i - 8) == Bit(TOP, c, i - 8 + 8);
      }
    }
  }

  lemma BottomBytes(w: nat, c: bv32, b: byte)
    requires 8 <= w && b == (c & 0xFF) as bv8
    ensures WordBits(BOTTOM, w, c) == ByteBits(LsbFirst, b) + WordBits(BOTTOM, w - 8, c >> 8)
    ensures Fits(BOTTOM, w, c) <==> Fits(BOTTOM, w - 8, c >> 8)
  {
    BottomSteps8(c);
    var rest := c >> 8;
    forall i: nat {:trigger Bit(BOTTOM, rest, i)} ensures Bit(BOTTOM, rest, i) == Bit(BOTTOM, c, i + 8) {
      BitOfSteps(BOTTOM, c, 8, i);
    }
    forall i: nat | i < 8 ensures Bit(BOTTOM, c, i) == MsbBit(b, 7 - i) {
      BottomBit(c, b, i);
    }
    if Fits(BOTTOM, w - 8, rest) {
      forall i | i >= w ensures !Bit(BOTTOM, c, i) {
        assert Bit(BOTTOM, rest, i - 8) == Bit(BOTTOM, c, i - 8 + 8);
      }
    }
  }

  lemma {:induction false} ZeroBit<W(!new)>(o: Ops<W>, zero: W, i: nat)
    requires !o.front(zero) && o.step(zero) == zero
    ensures !Bit(o, zero, i)
    decreases i
  {
    if i > 0 {
      ZeroBit(o, zero, i - 1);
    }
  }

  lemma ZeroWord<W(!new)>(o: Ops<W>, zero: W, w: nat)
    requires !o.front(zero) && o.step(zero) == zero
    ensures WordBits(o, w, zero) == Zeros(w) && Fits(o, w, zero)
  {
    forall i: nat ensures !Bit(o, zero, i) {
      ZeroBit(o, zero, i);
    }
  }
}
