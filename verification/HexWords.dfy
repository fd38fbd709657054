/** Hexadecimal characters shifted into a 32-bit word. */
module HexWords {
  import opened Bytes
  import opened Gf2
  import opened Words
  import opened Crc
  import opened CrcEngines
  import opened SpartnCrc
  import opened WordBytes
  import opened Formats

  lemma ReversedByte(b: byte)
    ensures Reverse(ByteBits(LsbFirst, b)) == ByteBits(MsbFirst, b)
  {
  }

  lemma ReverseConcat(a: Bits, b: Bits)
    ensures Reverse(a + b) == Reverse(b) + Reverse(a)
  {
  }

  lemma ReverseFour(a: Bits, b: Bits, c: Bits, d: Bits)
    ensures Reverse(a + b + c + d) == Reverse(d) + Reverse(c) + Reverse(b) + Reverse(a)
  {
    ReverseConcat(a + b + c, d);
    ReverseConcat(a + b, c);
    ReverseConcat(a, b);
  }

  lemma ReversedBytes(b3: byte, b2: byte, b1: byte, b0: byte)
    ensures Reverse(MessageBits(LsbFirst, [b0, b1, b2, b3])) == MessageBits(MsbFirst, [b3, b2, b1, b0])
  {
    MessageBitsOfFour(LsbFirst, b0, b1, b2, b3);
    MessageBitsOfFour(MsbFirst, b3, b2, b1, b0);
    ReverseFour(ByteBits(LsbFirst, b0), ByteBits(LsbFirst, b1), ByteBits(LsbFirst, b2), ByteBits(LsbFirst, b3));
    ReversedByte(b0);
    ReversedByte(b1);
    ReversedByte(b2);
    ReversedByte(b3);
  }

  /** The bits of a word read from either end. */
  lemma ReversedWord(c: bv32)
    ensures Reverse(Bits32(c)) == TopBits32(c)
  {
    var c3, c2, c1, c0 := (c >> 24) as bv8, ((c >> 16) & 0xFF) as bv8, ((c >> 8) & 0xFF) as bv8, (c & 0xFF) as bv8;
    TopWordBytes(c, c << 8, c << 8 << 8, c << 8 << 8 << 8, c3, c2, c1, c0);
    BottomWordBytes(c, c >> 8, c >> 8 >> 8, c >> 8 >> 8 >> 8, c0, c1, c2, c3);
    ReversedBytes(c3, c2, c1, c0);
  }

  function DigitBits(w: bv32): (r: Bits)
    ensures |r| == 4
  {
    [w & 8 != 0, w & 4 != 0, w & 2 != 0, w & 1 != 0]
  }

  lemma NibbleWord(n: int, w: bv32)
    requires 0 <= n < 16 && w == n as bv32
    ensures w < 16 && NibbleBits(n) == DigitBits(w)
  {
    if n == 0 {} else if n == 1 {} else if n == 2 {} else if n == 3 {} else if n == 4 {}
    else if n == 5 {} else if n == 6 {} else if n == 7 {} else if n == 8 {} else if n == 9 {}
    else if n == 10 {} else if n == 11 {} else if n == 12 {} else if n == 13 {} else if n == 14 {} else {}
  }

  lemma DigitBit(w: bv32, b: byte, i: nat)
    requires w < 16 && b == w as bv8 && i < 8
    ensures MsbBit(b, i) == (Zeros(4) + DigitBits(w))[i]
  {
    if i == 0 {
    } else if i == 1 {
    } else if i == 2 {
    } else if i == 3 {
    } else if i == 4 {
    } else if i == 5 {
    } else if i == 6 {
    } else {
    }
  }

  lemma DigitByte(w: bv32, b: byte)
    requires w < 16 && b == w as bv8
    ensures ByteBits(MsbFirst, b) == Zeros(4) + DigitBits(w)
  {
    forall i: nat | i < 8 ensures ByteBits(MsbFirst, b)[i] == (Zeros(4) + DigitBits(w))[i] {
      DigitBit(w, b, i);
    }
  }

  lemma DigitWord(w: bv32, b: byte)
    requires w < 16 && b == w as bv8
    ensures TopBits32(w) == Zeros(28) + DigitBits(w)
  {
    TopWordBytes(w, w << 8, w << 8 << 8, w << 8 << 8 << 8, 0, 0, 0, b);
    MessageBitsOfFour(MsbFirst, 0, 0, 0, b);
    assert ByteBits(MsbFirst, 0) == Zeros(8);
    DigitByte(w, b);
  }

  lemma TopSteps4(c: bv32)
    ensures Steps(TOP, c, 4) == c << 4
  {
  }

  lemma OrIsXor(c: bv32, w: bv32)
    requires w < 16
    ensures (c << 4) | w == (c << 4) ^ w
  {
  }

  lemma ShiftedWord(c: bv32, up: bv32)
    requires up == c << 4
    ensures TopBits32(up) == TopBits32(c)[4..] + Zeros(4)
  {
    TopFits32(c);
    TopSteps4(c);
    WordBitsOfSteps(TOP, 32, c, 4);
  }

  lemma XorOfDigits(high: Bits, low: Bits)
    requires |high| == 28 && |low| == 4
    ensures Xor(high + Zeros(4), Zeros(28) + low) == high + low
  {
  }

  /** Shifting a digit in moves the word up by four bits. */
  lemma ShiftIn(c: bv32, w: bv32, up: bv32, d: bv32, low: byte)
    requires w < 16 && up == c << 4 && d == up | w && low == w as bv8
    ensures TopBits32(d) == TopBits32(c)[4..] + DigitBits(w)
  {
    OrIsXor(c, w);
    ShiftedWord(c, up);
    DigitWord(w, low);
    XoredWord(up, w, d);
    XorOfDigits(TopBits32(c)[4..], DigitBits(w));
  }

  lemma XoredWord(a: bv32, b: bv32, c: bv32)
    requires c == a ^ b
    ensures TopBits32(c) == Xor(TopBits32(a), TopBits32(b))
  {
    TopIsLinear();
    TopAdd(a, b);
    WordBitsAdd(TOP, 32, a, b);
  }

  lemma DropAppend(all: Bits, digit: Bits, tail: Bits, k: nat)
    requires |all| == 32 && |digit| == 4 && k < 8 && tail == all[32 - 4 * k..]
    ensures (all[4..] + digit)[28 - 4 * k..] == tail + digit
  {
  }

  /** One more character. */
  lemma HexStep(s: seq<byte>, data: byte, n: int, c: bv32, w: bv32, up: bv32, d: bv32, low: byte)
    requires |s| < 8 && n == AsciiToNibble(data) && n >= 0 && w == n as bv32 && w < 16
    requires up == c << 4 && d == up | w && low == w as bv8
    requires TopBits32(c)[32 - 4 * |s|..] == HexBits(s)
    ensures TopBits32(d)[28 - 4 * |s|..] == HexBits(s + [data])
  {
    NibbleWord(n, w);
    ShiftIn(c, w, up, d, low);
    DropAppend(TopBits32(c), DigitBits(w), HexBits(s), |s|);
    assert (s + [data])[..|s|] == s;
  }

  lemma SameWord(a: bv32, b: bv32)
    ensures TopBits32(a) == TopBits32(b) <==> a == b
  {
    var c3, c2, c1, c0 := (b >> 24) as bv8, ((b >> 16) & 0xFF) as bv8, ((b >> 8) & 0xFF) as bv8, (b & 0xFF) as bv8;
    TopWordBytes(b, b << 8, b << 8 << 8, b << 8 << 8 << 8, c3, c2, c1, c0);
    Recompose(b, c3, c2, c1, c0);
    TopWord32(a, b, c3, c2, c1, c0);
  }

  lemma Recompose(b: bv32, c3: byte, c2: byte, c1: byte, c0: byte)
    requires c3 == (b >> 24) as bv8 && c2 == ((b >> 16) & 0xFF) as bv8
    requires c1 == ((b >> 8) & 0xFF) as bv8 && c0 == (b & 0xFF) as bv8
    ensures b == (((((c3 as bv32 << 8) | c2 as bv32) << 8) | c1 as bv32) << 8) | c0 as bv32
  {
  }

  /** Comparing words compares the characters' bits with the register, most significant bit first. */
  lemma HexCompare(crc: bv32, received: bv32, s: seq<byte>)
    requires |s| == 8 && TopBits32(received) == HexBits(s)
    ensures HexBits(s) == Reverse(Bits32(crc)) <==> crc == received
  {
    ReversedWord(crc);
    SameWord(crc, received);
  }
}
