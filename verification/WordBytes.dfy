/** How the words of the CRC engines compare with the checksum bytes of a message. */
module WordBytes {
  import opened Bytes
  import opened Gf2
  import opened Words
  import opened Crc
  import opened LookupTables
  import opened CrcEngines
  import opened SpartnCrc

  lemma MessageBitsOfOne(order: Order, a: byte)
    ensures MessageBits(order, [a]) == ByteBits(order, a)
  {
    assert [a][..0] == [];
  }

  lemma MessageBitsOfTwo(order: Order, a: byte, b: byte)
    ensures MessageBits(order, [a, b]) == ByteBits(order, a) + ByteBits(order, b)
  {
    assert [a, b][..1] == [a];
    MessageBitsOfOne(order, a);
  }

  lemma MessageBitsOfThree(order: Order, a: byte, b: byte, c: byte)
    ensures MessageBits(order, [a, b, c]) == ByteBits(order, a) + ByteBits(order, b) + ByteBits(order, c)
  {
    assert [a, b, c][..2] == [a, b];
    MessageBitsOfTwo(order, a, b);
  }

  lemma MessageBitsOfFour(order: Order, a: byte, b: byte, c: byte, d: byte)
    ensures MessageBits(order, [a, b, c, d])
            == ByteBits(order, a) + ByteBits(order, b) + ByteBits(order, c) + ByteBits(order, d)
  {
    assert [a, b, c, d][..3] == [a, b, c];
    MessageBitsOfThree(order, a, b, c);
  }

  lemma {:induction false} MessageBitsOfZeros(order: Order, n: nat)
    ensures MessageBits(order, seq(n, _ => 0)) == Zeros(8 * n)
  {
    if n > 0 {
      MessageBitsOfZeros(order, n - 1);
      var z: seq<byte> := seq(n, _ => 0);
      assert z[..n - 1] == seq(n - 1, _ => 0);
      assert ByteBits(order, 0) == Zeros(8);
    }
  }

  lemma SameMessage(order: Order, a: seq<byte>, b: seq<byte>)
    ensures MessageBits(order, a) == MessageBits(order, b) <==> a == b
  {
    if MessageBits(order, a) == MessageBits(order, b) {
      MessageBitsInjective(order, a, b);
    }
  }

  lemma Pairs<T>(a: T, b: T, c: T, d: T)
    ensures [a, b] == [c, d] <==> a == c && b == d
  {
    if [a, b] == [c, d] {
      assert a == [a, b][0] == c && b == [a, b][1] == d;
    }
  }

  lemma Triples<T>(a: T, b: T, c: T, d: T, e: T, f: T)
    ensures [a, b, c] == [d, e, f] <==> a == d && b == e && c == f
  {
    if [a, b, c] == [d, e, f] {
      assert a == [a, b, c][0] == d && b == [a, b, c][1] == e && c == [a, b, c][2] == f;
    }
  }

  lemma Quadruples<T>(a: T, b: T, c: T, d: T, e: T, f: T, g: T, h: T)
    ensures [a, b, c, d] == [e, f, g, h] <==> a == e && b == f && c == g && d == h
  {
    if [a, b, c, d] == [e, f, g, h] {
      assert a == [a, b, c, d][0] == e && b == [a, b, c, d][1] == f;
      assert c == [a, b, c, d][2] == g && d == [a, b, c, d][3] == h;
    }
  }

  // ---------------------------------------------------------------------------------------
  // Registers at the top of the word, most significant byte first
  // ---------------------------------------------------------------------------------------

  lemma TopWord16(c: bv32, c1: bv32, b1: byte, b0: byte)
    requires c1 == c << 8 && b1 == (c >> 24) as bv8 && b0 == (c1 >> 24) as bv8
    ensures WordBits(TOP, 16, c) == ByteBits(MsbFirst, b1) + ByteBits(MsbFirst, b0)
  {
    TopBytes(16, c, b1);
    TopBytes(8, c1, b0);
  }

  lemma TopWord24(c: bv32, c1: bv32, c2: bv32, b2: byte, b1: byte, b0: byte)
    requires c1 == c << 8 && c2 == c1 << 8
    requires b2 == (c >> 24) as bv8 && b1 == (c1 >> 24) as bv8 && b0 == (c2 >> 24) as bv8
    ensures WordBits(TOP, 24, c) == ByteBits(MsbFirst, b2) + ByteBits(MsbFirst, b1) + ByteBits(MsbFirst, b0)
  {
    TopBytes(24, c, b2);
    TopWord16(c1, c2, b1, b0);
  }

  lemma TopWord(c: bv32, c1: bv32, c2: bv32, c3: bv32, b3: byte, b2: byte, b1: byte, b0: byte)
    requires c1 == c << 8 && c2 == c1 << 8 && c3 == c2 << 8
    requires b3 == (c >> 24) as bv8 && b2 == (c1 >> 24) as bv8 && b1 == (c2 >> 24) as bv8 && b0 == (c3 >> 24) as bv8
    ensures WordBits(TOP, 32, c)
            == ByteBits(MsbFirst, b3) + (ByteBits(MsbFirst, b2) + ByteBits(MsbFirst, b1) + ByteBits(MsbFirst, b0))
  {
    TopBytes(32, c, b3);
    TopWord24(c1, c2, c3, b2, b1, b0);
  }

  lemma Word16Bytes(crc: bv16, c: bv32, hi: byte, lo: byte)
    requires c == crc as bv32 << 16
    requires hi == (crc >> 8) as bv8 && lo == (crc & 0xFF) as bv8
    ensures Bits16(crc) == MessageBits(MsbFirst, [hi, lo])
  {
    TopWord16(c, c << 8, hi, lo);
    MessageBitsOfTwo(MsbFirst, hi, lo);
  }

  lemma Compose16(crc: bv16, h: byte, l: byte, hi: byte, lo: byte)
    requires h == (crc >> 8) as bv8 && l == (crc & 0xFF) as bv8
    ensures crc == (hi as bv16 << 8) | lo as bv16 <==> h == hi && l == lo
  {
  }

  /** A 16-bit word equals the big-endian value of two bytes exactly when their bits agree. */
  lemma Word16(crc: bv16, w: bv16, hi: byte, lo: byte)
    requires w == (hi as bv16 << 8) | lo as bv16
    ensures Bits16(crc) == MessageBits(MsbFirst, [hi, lo]) <==> crc == w
  {
    var h, l := (crc >> 8) as bv8, (crc & 0xFF) as bv8;
    Word16Bytes(crc, crc as bv32 << 16, h, l);
    Compose16(crc, h, l, hi, lo);
    SameMessage(MsbFirst, [h, l], [hi, lo]);
    Pairs(h, l, hi, lo);
  }

  lemma SameBits16(a: bv16, b: bv16)
    ensures Bits16(a) == Bits16(b) <==> a == b
  {
    var hi, lo := (b >> 8) as bv8, (b & 0xFF) as bv8;
    Word16Bytes(b, b as bv32 << 16, hi, lo);
    Word16(a, b, hi, lo);
  }

  lemma LowByte(w: bv16, lo: byte)
    requires w == lo as bv16
    ensures Bits16(w) == MessageBits(MsbFirst, [0, lo])
  {
    Word16(w, w, 0, lo);
  }

  /** The high byte joins a word that holds the low byte. */
  lemma HighByte(w: bv16, lo: byte, hi: byte, both: bv16)
    requires Bits16(w) == MessageBits(MsbFirst, [0, lo]) && both == (hi as bv16 << 8) | w
    ensures Bits16(both) == MessageBits(MsbFirst, [hi, lo])
  {
    Word16(w, lo as bv16, 0, lo);
    Word16(both, both, hi, lo);
  }

  /** Joins a high byte to the low byte that the word holds. */
  method JoinBytes(w: bv16, ghost lo: byte, hi: byte) returns (both: bv16)
    requires Bits16(w) == MessageBits(MsbFirst, [0, lo])
    ensures Bits16(both) == MessageBits(MsbFirst, [hi, lo])
  {
    both := (hi as bv16 << 8) | w;
    HighByte(w, lo, hi, both);
  }

  lemma MaskedBit(b: byte, c: byte, i: nat)
    requires c == b & 0x1F && i < 8
    ensures MsbBit(c, i) == if i < 3 then false else MsbBit(b, i)
  {
    if i == 0 {
    } else if i == 1 {
    } else if i == 2 {
    } else if i == 3 {
    } else if i == 4 {
    } else if i == 5 {
    } else if i == 6 {
    } else {
    }
  }

  lemma MaskedByte(b: byte, c: byte)
    requires c == b & 0x1F
    ensures ByteBits(MsbFirst, c) == Zeros(3) + ByteBits(MsbFirst, b)[3..]
  {
    forall i: nat | i < 8 ensures MsbBit(c, i) == if i < 3 then false else MsbBit(b, i) {
      MaskedBit(b, c, i);
    }
  }

  lemma ShiftedBit5(b: byte, c: byte, i: nat)
    requires c == b >> 5 && i < 8
    ensures MsbBit(c, i) == if i < 5 then false else MsbBit(b, i - 5)
  {
    if i == 0 {
    } else if i == 1 {
    } else if i == 2 {
    } else if i == 3 {
    } else if i == 4 {
    } else if i == 5 {
    } else if i == 6 {
    } else {
    }
  }

  /** The top three bits of a byte. */
  lemma ShiftedByte(b: byte, c: byte)
    requires c == b >> 5
    ensures ByteBits(MsbFirst, c) == Zeros(5) + ByteBits(MsbFirst, b)[..3]
  {
    forall i: nat | i < 8 ensures MsbBit(c, i) == if i < 5 then false else MsbBit(b, i - 5) {
      ShiftedBit5(b, c, i);
    }
  }

  lemma Masked16(w: bv16, hi: byte, lo: byte, masked: bv16, top: byte)
    requires w == (hi as bv16 << 8) | lo as bv16 && masked == w & 0x1FFF && top == hi & 0x1F
    ensures masked == (top as bv16 << 8) | lo as bv16
  {
  }

  /** Limiting a word to 13 bits clears the top three. */
  lemma MaskedWord(w: bv16, hi: byte, lo: byte, masked: bv16)
    requires Bits16(w) == MessageBits(MsbFirst, [hi, lo]) && masked == w & 0x1FFF
    ensures Bits16(masked) == Zeros(3) + MessageBits(MsbFirst, [hi, lo])[3..]
  {
    var top := hi & 0x1F;
    Word16(w, (hi as bv16 << 8) | lo as bv16, hi, lo);
    Masked16(w, hi, lo, masked, top);
    Word16(masked, masked, top, lo);
    MaskedByte(hi, top);
    MessageBitsOfTwo(MsbFirst, hi, lo);
    MessageBitsOfTwo(MsbFirst, top, lo);
  }

  lemma Word24Bytes(crc: bv32, c: bv32, b2: byte, b1: byte, b0: byte)
    requires crc & 0xFF000000 == 0 && c == crc << 8
    requires b2 == (crc >> 16) as bv8 && b1 == ((crc >> 8) & 0xFF) as bv8 && b0 == (crc & 0xFF) as bv8
    ensures Bits24(crc) == MessageBits(MsbFirst, [b2, b1, b0])
  {
    TopWord24(c, c << 8, c << 8 << 8, b2, b1, b0);
    MessageBitsOfThree(MsbFirst, b2, b1, b0);
  }

  lemma Compose24(crc: bv32, c2: byte, c1: byte, c0: byte, b2: byte, b1: byte, b0: byte)
    requires crc & 0xFF000000 == 0
    requires c2 == (crc >> 16) as bv8 && c1 == ((crc >> 8) & 0xFF) as bv8 && c0 == (crc & 0xFF) as bv8
    ensures crc == (((b2 as bv32 << 8) | b1 as bv32) << 8) | b0 as bv32 <==> c2 == b2 && c1 == b1 && c0 == b0
  {
  }

  lemma Word24(crc: bv32, w: bv32, b2: byte, b1: byte, b0: byte)
    requires crc & 0xFF000000 == 0 && w == (((b2 as bv32 << 8) | b1 as bv32) << 8) | b0 as bv32
    ensures Bits24(crc) == MessageBits(MsbFirst, [b2, b1, b0]) <==> crc == w
  {
    var c2, c1, c0 := (crc >> 16) as bv8, ((crc >> 8) & 0xFF) as bv8, (crc & 0xFF) as bv8;
    Word24Bytes(crc, crc << 8, c2, c1, c0);
    Compose24(crc, c2, c1, c0, b2, b1, b0);
    SameMessage(MsbFirst, [c2, c1, c0], [b2, b1, b0]);
    Triples(c2, c1, c0, b2, b1, b0);
  }

  /** The 24-bit register is clear exactly when its word is zero. */
  lemma Clear24(crc: bv32)
    requires crc & 0xFF000000 == 0
    ensures Bits24(crc) == Zeros(24) <==> crc == 0
  {
    Word24(crc, 0, 0, 0, 0);
    MessageBitsOfZeros(MsbFirst, 3);
    assert seq<byte>(3, _ => 0) == [0, 0, 0];
  }

  lemma TopWordBytes(crc: bv32, c1: bv32, c2: bv32, c3: bv32, b3: byte, b2: byte, b1: byte, b0: byte)
    requires c1 == crc << 8 && c2 == c1 << 8 && c3 == c2 << 8
    requires b3 == (crc >> 24) as bv8 && b2 == ((crc >> 16) & 0xFF) as bv8
    requires b1 == ((crc >> 8) & 0xFF) as bv8 && b0 == (crc & 0xFF) as bv8
    ensures TopBits32(crc) == MessageBits(MsbFirst, [b3, b2, b1, b0])
  {
    TopWord(crc, c1, c2, c3, b3, b2, b1, b0);
    MessageBitsOfFour(MsbFirst, b3, b2, b1, b0);
  }

  lemma Compose32(crc: bv32, w: bv32, c3: byte, c2: byte, c1: byte, c0: byte, b3: byte, b2: byte, b1: byte, b0: byte)
    requires c3 == (crc >> 24) as bv8 && c2 == ((crc >> 16) & 0xFF) as bv8
    requires c1 == ((crc >> 8) & 0xFF) as bv8 && c0 == (crc & 0xFF) as bv8
    requires w == (((((b3 as bv32 << 8) | b2 as bv32) << 8) | b1 as bv32) << 8) | b0 as bv32
    ensures crc == w <==> c3 == b3 && c2 == b2 && c1 == b1 && c0 == b0
  {
  }

  lemma TopWordSame(crc: bv32, w: bv32, c1: bv32, c2: bv32, c3: bv32, d3: byte, d2: byte, d1: byte, d0: byte,
                    b3: byte, b2: byte, b1: byte, b0: byte)
    requires c1 == crc << 8 && c2 == c1 << 8 && c3 == c2 << 8
    requires d3 == (crc >> 24) as bv8 && d2 == ((crc >> 16) & 0xFF) as bv8
    requires d1 == ((crc >> 8) & 0xFF) as bv8 && d0 == (crc & 0xFF) as bv8
    requires crc == w <==> d3 == b3 && d2 == b2 && d1 == b1 && d0 == b0
    ensures TopBits32(crc) == MessageBits(MsbFirst, [b3, b2, b1, b0]) <==> crc == w
  {
    TopWordBytes(crc, c1, c2, c3, d3, d2, d1, d0);
    SameMessage(MsbFirst, [d3, d2, d1, d0], [b3, b2, b1, b0]);
    Quadruples(d3, d2, d1, d0, b3, b2, b1, b0);
  }

  lemma TopWord32(crc: bv32, w: bv32, b3: byte, b2: byte, b1: byte, b0: byte)
    requires w == (((((b3 as bv32 << 8) | b2 as bv32) << 8) | b1 as bv32) << 8) | b0 as bv32
    ensures TopBits32(crc) == MessageBits(MsbFirst, [b3, b2, b1, b0]) <==> crc == w
  {
    var c3, c2, c1, c0 := (crc >> 24) as bv8, ((crc >> 16) & 0xFF) as bv8, ((crc >> 8) & 0xFF) as bv8,
                        (crc & 0xFF) as bv8;
    Compose32(crc, w, c3, c2, c1, c0, b3, b2, b1, b0);
    TopWordSame(crc, w, crc << 8, crc << 8 << 8, crc << 8 << 8 << 8, c3, c2, c1, c0, b3, b2, b1, b0);
  }

  // ---------------------------------------------------------------------------------------
  // Registers at the bottom of the word, least significant byte first
  // ---------------------------------------------------------------------------------------

  lemma BottomWord(c: bv32, c1: bv32, c2: bv32, c3: bv32, b0: byte, b1: byte, b2: byte, b3: byte)
    requires c1 == c >> 8 && c2 == c1 >> 8 && c3 == c2 >> 8
    requires b0 == (c & 0xFF) as bv8 && b1 == (c1 & 0xFF) as bv8 && b2 == (c2 & 0xFF) as bv8 && b3 == (c3 & 0xFF) as bv8
    ensures Bits32(c)
            == ByteBits(LsbFirst, b0) + ByteBits(LsbFirst, b1) + ByteBits(LsbFirst, b2) + ByteBits(LsbFirst, b3)
  {
    BottomBytes(32, c, b0);
    BottomBytes(24, c1, b1);
    BottomBytes(16, c2, b2);
    BottomBytes(8, c3, b3);
  }

  lemma BottomWordBytes(crc: bv32, c1: bv32, c2: bv32, c3: bv32, b0: byte, b1: byte, b2: byte, b3: byte)
    requires c1 == crc >> 8 && c2 == c1 >> 8 && c3 == c2 >> 8
    requires b3 == (crc >> 24) as bv8 && b2 == ((crc >> 16) & 0xFF) as bv8
    requires b1 == ((crc >> 8) & 0xFF) as bv8 && b0 == (crc & 0xFF) as bv8
    ensures Bits32(crc) == MessageBits(LsbFirst, [b0, b1, b2, b3])
  {
    BottomWord(crc, c1, c2, c3, b0, b1, b2, b3);
    MessageBitsOfFour(LsbFirst, b0, b1, b2, b3);
  }

  lemma ComposeReversed32(crc: bv32, w: bv32, c0: byte, c1: byte, c2: byte, c3: byte, b0: byte, b1: byte, b2: byte,
                          b3: byte)
    requires c3 == (crc >> 24) as bv8 && c2 == ((crc >> 16) & 0xFF) as bv8
    requires c1 == ((crc >> 8) & 0xFF) as bv8 && c0 == (crc & 0xFF) as bv8
    requires w == b0 as bv32 | (b1 as bv32 << 8) | (b2 as bv32 << 16) | (b3 as bv32 << 24)
    ensures crc == w <==> c0 == b0 && c1 == b1 && c2 == b2 && c3 == b3
  {
  }

  lemma BottomWordSame(crc: bv32, w: bv32, c1: bv32, c2: bv32, c3: bv32, d0: byte, d1: byte, d2: byte, d3: byte,
                       b0: byte, b1: byte, b2: byte, b3: byte)
    requires c1 == crc >> 8 && c2 == c1 >> 8 && c3 == c2 >> 8
    requires d3 == (crc >> 24) as bv8 && d2 == ((crc >> 16) & 0xFF) as bv8
    requires d1 == ((crc >> 8) & 0xFF) as bv8 && d0 == (crc & 0xFF) as bv8
    requires crc == w <==> d0 == b0 && d1 == b1 && d2 == b2 && d3 == b3
    ensures Bits32(crc) == MessageBits(LsbFirst, [b0, b1, b2, b3]) <==> crc == w
  {
    BottomWordBytes(crc, c1, c2, c3, d0, d1, d2, d3);
    SameMessage(LsbFirst, [d0, d1, d2, d3], [b0, b1, b2, b3]);
    Quadruples(d0, d1, d2, d3, b0, b1, b2, b3);
  }

  /** A 32-bit word equals the little-endian value of four bytes exactly when their bits agree. */
  lemma BottomWord32(crc: bv32, w: bv32, b0: byte, b1: byte, b2: byte, b3: byte)
    requires w == b0 as bv32 | (b1 as bv32 << 8) | (b2 as bv32 << 16) | (b3 as bv32 << 24)
    ensures Bits32(crc) == MessageBits(LsbFirst, [b0, b1, b2, b3]) <==> crc == w
  {
    var c3, c2, c1, c0 := (crc >> 24) as bv8, ((crc >> 16) & 0xFF) as bv8, ((crc >> 8) & 0xFF) as bv8,
                        (crc & 0xFF) as bv8;
    ComposeReversed32(crc, w, c0, c1, c2, c3, b0, b1, b2, b3);
    BottomWordSame(crc, w, crc >> 8, crc >> 8 >> 8, crc >> 8 >> 8 >> 8, c0, c1, c2, c3, b0, b1, b2, b3);
  }

  lemma Clear32(crc: bv32)
    ensures Bits32(crc) == Zeros(32) <==> crc == 0
  {
    BottomWord32(crc, 0, 0, 0, 0, 0);
    MessageBitsOfZeros(LsbFirst, 4);
    assert seq<byte>(4, _ => 0) == [0, 0, 0, 0];
  }

  lemma BottomOnes()
    ensures Bits32(0xFFFFFFFF) == Ones(32)
  {
    BottomWordBytes(0xFFFFFFFF, 0xFFFFFF, 0xFFFF, 0xFF, 0xFF, 0xFF, 0xFF, 0xFF);
    MessageBitsOfFour(LsbFirst, 0xFF, 0xFF, 0xFF, 0xFF);
    assert ByteBits(LsbFirst, 0xFF) == Ones(8);
  }

  /** Flipping every bit of the word inverts the register. */
  lemma InvertedWord(c: bv32, d: bv32)
    requires d == c ^ 0xFFFFFFFF
    ensures Bits32(d) == Not(Bits32(c))
  {
    BottomIsLinear();
    BottomAdd(c, 0xFFFFFFFF);
    WordBitsAdd(BOTTOM, 32, c, 0xFFFFFFFF);
    BottomOnes();
  }

  // ---------------------------------------------------------------------------------------
  // The 4-bit header register
  // ---------------------------------------------------------------------------------------

  lemma Word4(crc: byte, b: byte)
    requires crc < 16
    ensures Bits4(crc) == ByteBits(LsbFirst, b & 0x0F)[..4] <==> crc == b & 0x0F
  {
    var n := b & 0x0F;
    BottomNibble(crc as bv32, crc);
    BottomNibble(n as bv32, n);
    if Bits4(crc) == ByteBits(LsbFirst, n)[..4] {
      assert ByteBits(LsbFirst, n) == Bits4(n) + Zeros(4) && ByteBits(LsbFirst, crc) == Bits4(crc) + Zeros(4);
      ByteBitsInjective(LsbFirst, crc, n);
    }
  }
}
