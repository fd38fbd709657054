/** The five CRC loops of the SPARTN machine, and how the engines of the different parsers agree. */
module SpartnCrc {
  import opened Bytes
  import opened Gf2
  import opened Words
  import opened Crc
  import opened CrcTables
  import opened LookupTables
  import opened CrcEngines

  // ---------------------------------------------------------------------------------------
  // CRC-4, reflected
  // ---------------------------------------------------------------------------------------

  /** The 4-bit register, bit 0 first. */
  function Bits4(c: byte): (r: Bits)
    ensures |r| == 4
  {
    WordBits(BOTTOM, 4, c as bv32)
  }

  lemma Generator4()
    ensures WordBits(BOTTOM, 4, 0x9) == POLY4 && Fits(BOTTOM, 4, 0x9)
  {
    BottomNibble(0x9, 0x9);
    ZeroWord(BOTTOM, 0, 0);
  }

  /** A byte below 16 is its four low bits and nothing else. */
  lemma BottomNibble(c: bv32, b: byte)
    requires c < 16 && b == c as bv8
    ensures ByteBits(LsbFirst, b) == WordBits(BOTTOM, 4, c) + Zeros(4) && Fits(BOTTOM, 4, c)
  {
    BottomBytes(8, c, b);
    BottomFits8(c);
    var r := ByteBits(LsbFirst, b);
    assert r[4] == false && r[5] == false && r[6] == false && r[7] == false;
    forall i | i >= 4 ensures !Bit(BOTTOM, c, i) {
      if i < 8 { BottomBit(c, b, i); }
    }
  }

  lemma Rows4(i: byte)
    ensures Covers(SPARTN_CRC4_TABLE, i) && Lookup(SPARTN_CRC4_TABLE, i) == EightDown(0x9, i)
  {
  }

  lemma Table4(i: byte)
    ensures Covers(SPARTN_CRC4_TABLE, i)
    ensures var e := Lookup(SPARTN_CRC4_TABLE, i);
            Fits(BOTTOM, 4, e)
            && WordBits(BOTTOM, 4, e) == Register(POLY4, Zeros(4), ByteBits(LsbFirst, i))
  {
    Rows4(i);
    Generator4();
    BottomEntry(4, 0x9, i);
  }

  lemma Small4(i: byte)
    ensures EightDown(0x9, i) < 16
  {
  }

  lemma Step4(rem: byte, data: byte, index: byte)
    requires rem < 16 && index == data ^ rem
    ensures Register(POLY4, Bits4(rem), ByteBits(LsbFirst, data))
            == Register(POLY4, Zeros(4), ByteBits(LsbFirst, index))
  {
    BottomNibble(rem as bv32, rem);
    ByteBitsXor(LsbFirst, data, rem, index);
    RegisterIntoInput(POLY4, Bits4(rem), ByteBits(LsbFirst, data), ByteBits(LsbFirst, index));
  }

  method Crc4Step(rem: byte, data: byte) returns (r: byte)
    requires rem < 16
    ensures r < 16 && Bits4(r) == Register(POLY4, Bits4(rem), ByteBits(LsbFirst, data))
  {
    var index := data ^ rem;
    Step4(rem, data, index);
    Table4(index);
    Rows4(index);
    Small4(index);
    r := Lookup(SPARTN_CRC4_TABLE, index) as bv8;
  }

  method SpartnCrc4(msg: seq<byte>) returns (r: byte)
    ensures r < 16 && Bits4(r) == Residue(POLY4, LsbFirst, Zeros(4), msg)
  {
    r := 0;
    ZeroWord(BOTTOM, 0, 4);
    var x := 0;
    while x < |msg|
      invariant x <= |msg|
      invariant r < 16 && Bits4(r) == Residue(POLY4, LsbFirst, Zeros(4), msg[..x])
    {
      ResidueAppend(POLY4, LsbFirst, Zeros(4), msg[..x], msg[x]);
      assert msg[..x + 1] == msg[..x] + [msg[x]];
      r := Crc4Step(r, msg[x]);
      x := x + 1;
    }
    assert msg[..x] == msg;
  }

  // ---------------------------------------------------------------------------------------
  // CRC-8
  // ---------------------------------------------------------------------------------------

  lemma Generator8()
    ensures WordBits(TOP, 8, 0x07000000) == POLY8 && Fits(TOP, 8, 0x07000000)
  {
    TopBytes(8, 0x07000000, 0x07);
    ZeroWord(TOP, 0, 0);
  }

  lemma Rows8(i: byte)
    ensures Covers(SPARTN_CRC8_TABLE, i) && Lookup(SPARTN_CRC8_TABLE, i) << 24 == EightUp(0x07000000, i)
  {
  }

  lemma Table8(i: byte)
    ensures Covers(SPARTN_CRC8_TABLE, i)
    ensures var e := Lookup(SPARTN_CRC8_TABLE, i) << 24;
            Fits(TOP, 8, e)
            && WordBits(TOP, 8, e) == Register(POLY8, Zeros(8), ByteBits(MsbFirst, i))
  {
    Rows8(i);
    Generator8();
    TopEntry(8, 0x07000000, i);
  }

  lemma Entry8(t: bv32, e: bv32, b: byte)
    requires e == t << 24 && b == (t & 0xFF) as bv8
    ensures WordBits(TOP, 8, e) == ByteBits(MsbFirst, b)
  {
    TopBytes(8, e, b);
  }

  lemma Step8Bits(rem: byte, data: byte, index: byte)
    requires index == data ^ rem
    ensures Register(POLY8, ByteBits(MsbFirst, rem), ByteBits(MsbFirst, data))
            == Register(POLY8, Zeros(8), ByteBits(MsbFirst, index))
  {
    ByteBitsXor(MsbFirst, data, rem, index);
    assert ByteBits(MsbFirst, rem) + Zeros(0) == ByteBits(MsbFirst, rem);
    RegisterIntoInput(POLY8, ByteBits(MsbFirst, rem), ByteBits(MsbFirst, data), ByteBits(MsbFirst, index));
  }

  method Crc8Step(rem: byte, data: byte) returns (r: byte)
    ensures ByteBits(MsbFirst, r) == Register(POLY8, ByteBits(MsbFirst, rem), ByteBits(MsbFirst, data))
  {
    var index := data ^ rem;
    Step8Bits(rem, data, index);
    Table8(index);
    var t := Lookup(SPARTN_CRC8_TABLE, index);
    r := (t & 0xFF) as bv8;
    Entry8(t, t << 24, r);
  }

  method SpartnCrc8(msg: seq<byte>) returns (r: byte)
    ensures ByteBits(MsbFirst, r) == Residue(POLY8, MsbFirst, Zeros(8), msg)
  {
    r := 0;
    assert ByteBits(MsbFirst, 0) == Zeros(8);
    var x := 0;
    while x < |msg|
      invariant x <= |msg|
      invariant ByteBits(MsbFirst, r) == Residue(POLY8, MsbFirst, Zeros(8), msg[..x])
    {
      ResidueAppend(POLY8, MsbFirst, Zeros(8), msg[..x], msg[x]);
      assert msg[..x + 1] == msg[..x] + [msg[x]];
      r := Crc8Step(r, msg[x]);
      x := x + 1;
    }
    assert msg[..x] == msg;
  }

  // ---------------------------------------------------------------------------------------
  // CRC-16
  // ---------------------------------------------------------------------------------------

  method SpartnCrc16(msg: seq<byte>) returns (r: bv16)
    ensures Bits16(r) == Residue(POLY16, MsbFirst, Zeros(16), msg)
  {
    r := 0;
    ZeroWord(TOP, 0, 16);
    var x := 0;
    while x < |msg|
      invariant x <= |msg|
      invariant Bits16(r) == Residue(POLY16, MsbFirst, Zeros(16), msg[..x])
    {
      ResidueAppend(POLY16, MsbFirst, Zeros(16), msg[..x], msg[x]);
      assert msg[..x + 1] == msg[..x] + [msg[x]];
      r := Crc16Step(r, msg[x]);
      x := x + 1;
    }
    assert msg[..x] == msg;
  }

  method Crc16Step(rem: bv16, data: byte) returns (r: bv16)
    ensures Bits16(r) == Register(POLY16, Bits16(rem), ByteBits(MsbFirst, data))
  {
    var index := data ^ (rem >> 8) as bv8;
    Table16(index);
    var t := Lookup(SPARTN_CRC16_TABLE, index);
    r := (t & 0xFFFF) as bv16 ^ (rem << 8);
    Step16(rem, rem as bv32 << 16, data, index, t, t << 16, rem as bv32 << 16 << 8, r, r as bv32 << 16);
  }

  // ---------------------------------------------------------------------------------------
  // CRC-24
  // ---------------------------------------------------------------------------------------

  lemma Rows24(i: byte)
    ensures Covers(SPARTN_CRC24_TABLE, i) && Lookup(SPARTN_CRC24_TABLE, i) << 8 == EightUp(0x864CFB00, i)
  {
  }

  lemma Table24(i: byte)
    ensures Covers(SPARTN_CRC24_TABLE, i)
    ensures var e := Lookup(SPARTN_CRC24_TABLE, i) << 8;
            Fits(TOP, 24, e)
            && WordBits(TOP, 24, e) == Register(POLY24, Zeros(24), ByteBits(MsbFirst, i))
  {
    Rows24(i);
    Generator24();
    TopEntry(24, 0x864CFB00, i);
  }

  method Crc24Step(rem: bv32, data: byte) returns (r: bv32)
    requires rem & 0xFF000000 == 0
    ensures Bits24(r) == Register(POLY24, Bits24(rem), ByteBits(MsbFirst, data))
    ensures r & 0xFF000000 == 0
  {
    var index := data ^ (rem >> 16) as bv8;
    Table24(index);
    var t := Lookup(SPARTN_CRC24_TABLE, index);
    r := (t ^ (rem << 8)) & 0x00FFFFFF;
    Step24(rem, rem << 8, data, index, t, t << 8, rem << 8 << 8, r, r << 8);
  }

  method SpartnCrc24(msg: seq<byte>) returns (r: bv32)
    ensures Bits24(r) == Residue(POLY24, MsbFirst, Zeros(24), msg) && r & 0xFF000000 == 0
  {
    r := 0;
    ZeroWord(TOP, 0, 24);
    var x := 0;
    while x < |msg|
      invariant x <= |msg| && r & 0xFF000000 == 0
      invariant Bits24(r) == Residue(POLY24, MsbFirst, Zeros(24), msg[..x])
    {
      ResidueAppend(POLY24, MsbFirst, Zeros(24), msg[..x], msg[x]);
      assert msg[..x + 1] == msg[..x] + [msg[x]];
      r := Crc24Step(r, msg[x]);
      x := x + 1;
    }
    assert msg[..x] == msg;
  }

  // ---------------------------------------------------------------------------------------
  // CRC-32, all-ones seed and final inversion
  // ---------------------------------------------------------------------------------------

  /** The register of the engine that sends the most significant bit first. */
  function TopBits32(c: bv32): (r: Bits)
    ensures |r| == 32
  {
    WordBits(TOP, 32, c)
  }

  lemma Generator32()
    ensures WordBits(TOP, 32, 0x04C11DB7) == POLY32 && Fits(TOP, 32, 0x04C11DB7)
  {
    TopBytes(32, 0x04C11DB7, 0x04);
    TopBytes(24, 0xC11DB700, 0xC1);
    TopBytes(16, 0x1DB70000, 0x1D);
    TopBytes(8, 0xB7000000, 0xB7);
    ZeroWord(TOP, 0, 0);
  }

  lemma Rows32(i: byte)
    ensures Covers(SPARTN_CRC32_TABLE, i) && Lookup(SPARTN_CRC32_TABLE, i) == EightUp(0x04C11DB7, i)
  {
  }

  lemma Table32(i: byte)
    ensures Covers(SPARTN_CRC32_TABLE, i)
    ensures var e := Lookup(SPARTN_CRC32_TABLE, i);
            Fits(TOP, 32, e)
            && WordBits(TOP, 32, e) == Register(POLY32, Zeros(32), ByteBits(MsbFirst, i))
  {
    Rows32(i);
    Generator32();
    TopEntry(32, 0x04C11DB7, i);
  }

  lemma Step32(rem: bv32, data: byte, index: byte, t: bv32, rest: bv32, r: bv32)
    requires rest == rem << 8 && r == t ^ rest
    requires index == data ^ (rem >> 24) as bv8
    requires Fits(TOP, 32, t)
    requires WordBits(TOP, 32, t) == Register(POLY32, Zeros(32), ByteBits(MsbFirst, index))
    ensures TopBits32(r) == Register(POLY32, TopBits32(rem), ByteBits(MsbFirst, data))
  {
    Generator32();
    TopFits32(rem);
    TopLookup(32, 0x04C11DB7, rem, data, index, t, rest, r);
  }

  method Crc32Step(rem: bv32, data: byte) returns (r: bv32)
    ensures TopBits32(r) == Register(POLY32, TopBits32(rem), ByteBits(MsbFirst, data))
  {
    var index := data ^ (rem >> 24) as bv8;
    Table32(index);
    var t := Lookup(SPARTN_CRC32_TABLE, index);
    r := t ^ (rem << 8);
    Step32(rem, data, index, t, rem << 8, r);
  }

  lemma TopBits32OfNot(c: bv32, d: bv32)
    requires d == c ^ 0xFFFFFFFF
    ensures TopBits32(d) == Not(TopBits32(c))
  {
    TopIsLinear();
    TopAdd(c, 0xFFFFFFFF);
    WordBitsAdd(TOP, 32, c, 0xFFFFFFFF);
    TopOnes();
  }

  lemma TopOnes()
    ensures TopBits32(0xFFFFFFFF) == Ones(32)
  {
    TopBytes(32, 0xFFFFFFFF, 0xFF);
    TopBytes(24, 0xFFFFFF00, 0xFF);
    TopBytes(16, 0xFFFF0000, 0xFF);
    TopBytes(8, 0xFF000000, 0xFF);
    assert ByteBits(MsbFirst, 0xFF) == Ones(8);
  }

  method SpartnCrc32(msg: seq<byte>) returns (r: bv32)
    ensures TopBits32(r) == Not(Residue(POLY32, MsbFirst, Ones(32), msg))
  {
    r := 0xFFFFFFFF;
    TopOnes();
    var x := 0;
    while x < |msg|
      invariant x <= |msg|
      invariant TopBits32(r) == Residue(POLY32, MsbFirst, Ones(32), msg[..x])
    {
      ResidueAppend(POLY32, MsbFirst, Ones(32), msg[..x], msg[x]);
      assert msg[..x + 1] == msg[..x] + [msg[x]];
      r := Crc32Step(r, msg[x]);
      x := x + 1;
    }
    assert msg[..x] == msg;
    TopBits32OfNot(r, r ^ 0xFFFFFFFF);
    r := r ^ 0xFFFFFFFF;
  }
}
