/**
 The table-driven engines of the parsers. Each one is proved to run the shift register of its
 generator, and so to compute remainders of message polynomials, on every byte string.
 */
module CrcEngines {
  import opened Bytes
  import opened Gf2
  import opened Words
  import opened Crc
  import opened CrcTables
  import opened LookupTables

  // ---------------------------------------------------------------------------------------
  // Table steps at the top and at the bottom of a word
  // ---------------------------------------------------------------------------------------

  /** One clock of a register at the top of a word. */
  function ClockUp(poly: bv32, c: bv32, bit: bool): bv32 {
    if (c & 0x80000000 != 0) != bit then (c << 1) ^ poly else c << 1
  }

  lemma TopStep(c: bv32)
    ensures TOP.step(c) == c << 1
  {
  }

  lemma TopAdd(a: bv32, b: bv32)
    ensures TOP.add(a, b) == a ^ b
  {
  }

  lemma TopStepAdd(poly: bv32, c: bv32, s: bv32, d: bv32)
    requires d == s ^ poly && s == c << 1
    ensures TOP.add(TOP.step(c), poly) == d
  {
    TopStep(c);
    TopAdd(s, poly);
  }

  lemma ClockUpIsClock(poly: bv32, c: bv32, bit: bool)
    ensures Clock(TOP, poly, c, bit) == ClockUp(poly, c, bit)
  {
    if (c & 0x80000000 != 0) != bit {
      TopStepAdd(poly, c, c << 1, (c << 1) ^ poly);
    } else {
      TopStep(c);
    }
  }

  /** One clock of a register at the bottom of a word. */
  function ClockDown(poly: bv32, c: bv32, bit: bool): bv32 {
    if (c & 1 != 0) != bit then (c >> 1) ^ poly else c >> 1
  }

  lemma BottomStep(c: bv32)
    ensures BOTTOM.step(c) == c >> 1
  {
  }

  lemma BottomAdd(a: bv32, b: bv32)
    ensures BOTTOM.add(a, b) == a ^ b
  {
  }

  lemma BottomStepAdd(poly: bv32, c: bv32, s: bv32, d: bv32)
    requires d == s ^ poly && s == c >> 1
    ensures BOTTOM.add(BOTTOM.step(c), poly) == d
  {
    BottomStep(c);
    BottomAdd(s, poly);
  }

  lemma ClockDownIsClock(poly: bv32, c: bv32, bit: bool)
    ensures Clock(BOTTOM, poly, c, bit) == ClockDown(poly, c, bit)
  {
    if (c & 1 != 0) != bit {
      BottomStepAdd(poly, c, c >> 1, (c >> 1) ^ poly);
    } else {
      BottomStep(c);
    }
  }

  /** The register that one byte leaves behind at the top of a word. */
  function EightUp(poly: bv32, i: byte): bv32 {
    var c1 := ClockUp(poly, 0, i & 0x80 != 0);
    var c2 := ClockUp(poly, c1, i & 0x40 != 0);
    var c3 := ClockUp(poly, c2, i & 0x20 != 0);
    var c4 := ClockUp(poly, c3, i & 0x10 != 0);
    var c5 := ClockUp(poly, c4, i & 0x08 != 0);
    var c6 := ClockUp(poly, c5, i & 0x04 != 0);
    var c7 := ClockUp(poly, c6, i & 0x02 != 0);
    ClockUp(poly, c7, i & 0x01 != 0)
  }

  function FoldUp(poly: bv32, i: byte, n: nat): bv32
    decreases n
  {
    if n == 0 then 0 else ClockUp(poly, FoldUp(poly, i >> 1, n - 1), i & 0x01 != 0)
  }

  lemma EightUpIsFold(poly: bv32, i: byte)
    ensures EightUp(poly, i) == FoldUp(poly, i, 8)
  {
  }

  lemma {:induction false} FoldUpIsEntry(poly: bv32, i: byte, n: nat)
    ensures FoldUp(poly, i, n) == Entry(TOP, MsbFirst, poly, 0, i, n)
    decreases n
  {
    if n > 0 {
      FoldUpIsEntry(poly, i >> 1, n - 1);
      ClockUpIsClock(poly, FoldUp(poly, i >> 1, n - 1), i & 0x01 != 0);
    }
  }

  lemma TopEntry(w: nat, poly: bv32, i: byte)
    requires w > 0 && Fits(TOP, w, poly)
    ensures WordBits(TOP, w, EightUp(poly, i))
            == Register(WordBits(TOP, w, poly), Zeros(w), ByteBits(MsbFirst, i))
    ensures Fits(TOP, w, EightUp(poly, i))
  {
    TopIsLinear();
    ZeroWord(TOP, 0, w);
    EntryIsRegister(TOP, MsbFirst, w, poly, 0, i, 8);
    assert ByteBits(MsbFirst, i)[0..] == ByteBits(MsbFirst, i);
    EightUpIsFold(poly, i);
    FoldUpIsEntry(poly, i, 8);
  }

  lemma TopIndex(w: nat, c: bv32, data: byte, first: byte, index: byte)
    requires 8 <= w && first == (c >> 24) as bv8 && index == data ^ first
    ensures ByteBits(MsbFirst, index) == Xor(ByteBits(MsbFirst, data), WordBits(TOP, w, c)[..8])
  {
    TopBytes(w, c, first);
    ByteBitsXor(MsbFirst, data, first, index);
    assert WordBits(TOP, w, c)[..8] == ByteBits(MsbFirst, first);
  }

  /** The step of the engines that shift left. */
  lemma TopLookup(w: nat, poly: bv32, c: bv32, data: byte, index: byte, entry: bv32, rest: bv32, next: bv32)
    requires 8 <= w && Fits(TOP, w, c)
    requires index == data ^ (c >> 24) as bv8
    requires WordBits(TOP, w, entry) == Register(WordBits(TOP, w, poly), Zeros(w), ByteBits(MsbFirst, index))
    requires Fits(TOP, w, entry)
    requires rest == c << 8 && next == rest ^ entry
    ensures WordBits(TOP, w, next)
            == Register(WordBits(TOP, w, poly), WordBits(TOP, w, c), ByteBits(MsbFirst, data))
  {
    TopIndex(w, c, data, (c >> 24) as bv8, index);
    TopIsLinear();
    LookupStep(TOP, MsbFirst, w, poly, c, data, index, entry);
    TopSteps8(c);
    TopAdd(rest, entry);
  }

  /** The register that one byte leaves behind, reflected. */
  function EightDown(poly: bv32, i: byte): bv32 {
    var c1 := ClockDown(poly, 0, i & 0x01 != 0);
    var c2 := ClockDown(poly, c1, i & 0x02 != 0);
    var c3 := ClockDown(poly, c2, i & 0x04 != 0);
    var c4 := ClockDown(poly, c3, i & 0x08 != 0);
    var c5 := ClockDown(poly, c4, i & 0x10 != 0);
    var c6 := ClockDown(poly, c5, i & 0x20 != 0);
    var c7 := ClockDown(poly, c6, i & 0x40 != 0);
    ClockDown(poly, c7, i & 0x80 != 0)
  }

  function FoldDown(poly: bv32, i: byte, n: nat): bv32
    decreases n
  {
    if n == 0 then 0 else ClockDown(poly, FoldDown(poly, i << 1, n - 1), i & 0x80 != 0)
  }

  lemma EightDownIsFold(poly: bv32, i: byte)
    ensures EightDown(poly, i) == FoldDown(poly, i, 8)
  {
  }

  lemma {:induction false} FoldDownIsEntry(poly: bv32, i: byte, n: nat)
    ensures FoldDown(poly, i, n) == Entry(BOTTOM, LsbFirst, poly, 0, i, n)
    decreases n
  {
    if n > 0 {
      FoldDownIsEntry(poly, i << 1, n - 1);
      ClockDownIsClock(poly, FoldDown(poly, i << 1, n - 1), i & 0x80 != 0);
    }
  }

  lemma BottomEntry(w: nat, poly: bv32, i: byte)
    requires w > 0 && Fits(BOTTOM, w, poly)
    ensures WordBits(BOTTOM, w, EightDown(poly, i))
            == Register(WordBits(BOTTOM, w, poly), Zeros(w), ByteBits(LsbFirst, i))
    ensures Fits(BOTTOM, w, EightDown(poly, i))
  {
    BottomIsLinear();
    ZeroWord(BOTTOM, 0, w);
    EntryIsRegister(BOTTOM, LsbFirst, w, poly, 0, i, 8);
    assert ByteBits(LsbFirst, i)[0..] == ByteBits(LsbFirst, i);
    EightDownIsFold(poly, i);
    FoldDownIsEntry(poly, i, 8);
  }

  lemma BottomIndex(w: nat, c: bv32, data: byte, first: byte, index: byte)
    requires 8 <= w && first == (c & 0xFF) as bv8 && index == data ^ first
    ensures ByteBits(LsbFirst, index) == Xor(ByteBits(LsbFirst, data), WordBits(BOTTOM, w, c)[..8])
  {
    BottomBytes(w, c, first);
    ByteBitsXor(LsbFirst, data, first, index);
    assert WordBits(BOTTOM, w, c)[..8] == ByteBits(LsbFirst, first);
  }

  /** The step of the reflected engines. */
  lemma BottomLookup(w: nat, poly: bv32, c: bv32, data: byte, index: byte, entry: bv32, rest: bv32, next: bv32)
    requires 8 <= w && Fits(BOTTOM, w, c)
    requires index == data ^ (c & 0xFF) as bv8
    requires WordBits(BOTTOM, w, entry) == Register(WordBits(BOTTOM, w, poly), Zeros(w), ByteBits(LsbFirst, index))
    requires Fits(BOTTOM, w, entry)
    requires rest == c >> 8 && next == rest ^ entry
    ensures WordBits(BOTTOM, w, next)
            == Register(WordBits(BOTTOM, w, poly), WordBits(BOTTOM, w, c), ByteBits(LsbFirst, data))
  {
    BottomIndex(w, c, data, (c & 0xFF) as bv8, index);
    BottomIsLinear();
    LookupStep(BOTTOM, LsbFirst, w, poly, c, data, index, entry);
    BottomSteps8(c);
    BottomAdd(rest, entry);
  }

  lemma TopFits8(c: bv32)
    requires c << 8 == 0
    ensures Fits(TOP, 8, c)
  {
    TopBytes(8, c, (c >> 24) as bv8);
    ZeroWord(TOP, 0, 0);
  }

  lemma TopFits16(c: bv32)
    requires c << 16 == 0
    ensures Fits(TOP, 16, c)
  {
    TopBytes(16, c, (c >> 24) as bv8);
    TopFits8(c << 8);
  }

  lemma TopFits24(c: bv32)
    requires c << 24 == 0
    ensures Fits(TOP, 24, c)
  {
    TopBytes(24, c, (c >> 24) as bv8);
    TopFits16(c << 8);
  }

  lemma TopFits32(c: bv32)
    ensures Fits(TOP, 32, c)
  {
    TopBytes(32, c, (c >> 24) as bv8);
    TopFits24(c << 8);
  }

  lemma BottomFits8(c: bv32)
    requires c >> 8 == 0
    ensures Fits(BOTTOM, 8, c)
  {
    BottomBytes(8, c, (c & 0xFF) as bv8);
    ZeroWord(BOTTOM, 0, 0);
  }

  lemma BottomFits16(c: bv32)
    requires c >> 16 == 0
    ensures Fits(BOTTOM, 16, c)
  {
    BottomBytes(16, c, (c & 0xFF) as bv8);
    BottomFits8(c >> 8);
  }

  lemma BottomFits24(c: bv32)
    requires c >> 24 == 0
    ensures Fits(BOTTOM, 24, c)
  {
    BottomBytes(24, c, (c & 0xFF) as bv8);
    BottomFits16(c >> 8);
  }

  lemma BottomFits32(c: bv32)
    ensures Fits(BOTTOM, 32, c)
  {
    BottomBytes(32, c, (c & 0xFF) as bv8);
    BottomFits24(c >> 8);
  }

  // ---------------------------------------------------------------------------------------
  // CRC-24Q (RTCM)
  // ---------------------------------------------------------------------------------------

  /** The 24-bit register in the low bits of a word. */
  function Bits24(c: bv32): (r: Bits)
    ensures |r| == 24
  {
    WordBits(TOP, 24, c << 8)
  }

  lemma Generator24()
    ensures WordBits(TOP, 24, 0x864CFB00) == POLY24 && Fits(TOP, 24, 0x864CFB00)
  {
    TopBytes(24, 0x864CFB00, 0x86);
    TopBytes(16, 0x4CFB0000, 0x4C);
    TopBytes(8, 0xFB000000, 0xFB);
    ZeroWord(TOP, 0, 0);
  }

  lemma Rows24q(i: byte)
    ensures Covers(CRC24Q_TABLE, i) && Lookup(CRC24Q_TABLE, i) << 8 == EightUp(0x864CFB00, i)
  {
  }

  lemma Table24q(i: byte)
    ensures Covers(CRC24Q_TABLE, i)
    ensures var e := Lookup(CRC24Q_TABLE, i) << 8;
            Fits(TOP, 24, e)
            && WordBits(TOP, 24, e) == Register(POLY24, Zeros(24), ByteBits(MsbFirst, i))
  {
    Rows24q(i);
    Generator24();
    TopEntry(24, 0x864CFB00, i);
  }

  lemma Lookup24(crc: bv32, c: bv32, data: byte, index: byte, entry: bv32, rest: bv32, r: bv32, next: bv32)
    requires c == crc << 8 && rest == c << 8 && next == r << 8 && next == rest ^ entry
    requires index == data ^ (c >> 24) as bv8
    requires Fits(TOP, 24, entry)
    requires WordBits(TOP, 24, entry) == Register(POLY24, Zeros(24), ByteBits(MsbFirst, index))
    ensures Bits24(r) == Register(POLY24, Bits24(crc), ByteBits(MsbFirst, data))
  {
    Generator24();
    TopFits24(c);
    TopLookup(24, 0x864CFB00, c, data, index, entry, rest, next);
  }

  /** Moving the step to the top of the word. */
  lemma Align24(crc: bv32, c: bv32, data: byte, index: byte, t: bv32, e: bv32, rest: bv32, r: bv32, next: bv32)
    requires c == crc << 8 && e == t << 8 && rest == c << 8 && next == r << 8
    requires index == data ^ ((crc >> 16) & 0xFF) as bv8
    requires r == ((crc << 8) ^ t) & 0x00FFFFFF
    ensures next == rest ^ e && index == data ^ (c >> 24) as bv8
  {
  }

  lemma Step24(crc: bv32, c: bv32, data: byte, index: byte, t: bv32, e: bv32, rest: bv32, r: bv32, next: bv32)
    requires c == crc << 8 && e == t << 8 && rest == c << 8 && next == r << 8
    requires index == data ^ ((crc >> 16) & 0xFF) as bv8
    requires r == ((crc << 8) ^ t) & 0x00FFFFFF
    requires Fits(TOP, 24, e)
    requires WordBits(TOP, 24, e) == Register(POLY24, Zeros(24), ByteBits(MsbFirst, index))
    ensures Bits24(r) == Register(POLY24, Bits24(crc), ByteBits(MsbFirst, data))
  {
    Align24(crc, c, data, index, t, e, rest, r, next);
    Lookup24(crc, c, data, index, e, rest, r, next);
  }

  /** The incremental CRC-24Q step of the RTCM machine. */
  method ComputeCrc24q(crc: bv32, data: byte) returns (r: bv32)
    ensures Bits24(r) == Register(POLY24, Bits24(crc), ByteBits(MsbFirst, data))
    ensures r & 0xFF000000 == 0
  {
    var index := data ^ ((crc >> 16) & 0xFF) as bv8;
    Table24q(index);
    var t := Lookup(CRC24Q_TABLE, index);
    r := ((crc << 8) ^ t) & 0x00FFFFFF;
    Step24(crc, crc << 8, data, index, t, t << 8, crc << 8 << 8, r, r << 8);
  }

  // ---------------------------------------------------------------------------------------
  // Reflected CRC-32 (SEMP and Unicore)
  // ---------------------------------------------------------------------------------------

  /** The register of the reflected engine, bit 0 first. */
  function Bits32(c: bv32): (r: Bits)
    ensures |r| == 32
  {
    WordBits(BOTTOM, 32, c)
  }

  lemma Generator32Reflected()
    ensures WordBits(BOTTOM, 32, 0xEDB88320) == POLY32 && Fits(BOTTOM, 32, 0xEDB88320)
  {
    BottomBytes(32, 0xEDB88320, 0x20);
    BottomBytes(24, 0x00EDB883, 0x83);
    BottomBytes(16, 0x0000EDB8, 0xB8);
    BottomBytes(8, 0x000000ED, 0xED);
    ZeroWord(BOTTOM, 0, 0);
  }

  lemma Rows32r(i: byte)
    ensures Covers(CRC32_TABLE, i) && Lookup(CRC32_TABLE, i) == EightDown(0xEDB88320, i)
  {
  }

  lemma Table32r(i: byte)
    ensures Covers(CRC32_TABLE, i)
    ensures var e := Lookup(CRC32_TABLE, i);
            Fits(BOTTOM, 32, e)
            && WordBits(BOTTOM, 32, e) == Register(POLY32, Zeros(32), ByteBits(LsbFirst, i))
  {
    Rows32r(i);
    Generator32Reflected();
    BottomEntry(32, 0xEDB88320, i);
  }

  lemma Step32Reflected(crc: bv32, data: byte, index: byte, t: bv32, rest: bv32, r: bv32)
    requires rest == crc >> 8 && r == t ^ rest
    requires index == ((crc ^ data as bv32) & 0xFF) as bv8
    requires Fits(BOTTOM, 32, t)
    requires WordBits(BOTTOM, 32, t) == Register(POLY32, Zeros(32), ByteBits(LsbFirst, index))
    ensures Bits32(r) == Register(POLY32, Bits32(crc), ByteBits(LsbFirst, data))
  {
    Generator32Reflected();
    BottomFits32(crc);
    BottomLookup(32, 0xEDB88320, crc, data, index, t, rest, r);
  }

  /** The incremental CRC-32 step of the SEMP and Unicore machines. */
  method ComputeCrc32(crc: bv32, data: byte) returns (r: bv32)
    ensures Bits32(r) == Register(POLY32, Bits32(crc), ByteBits(LsbFirst, data))
  {
    var index := ((crc ^ data as bv32) & 0xFF) as bv8;
    Table32r(index);
    var t := Lookup(CRC32_TABLE, index);
    r := t ^ (crc >> 8);
    Step32Reflected(crc, data, index, t, crc >> 8, r);
  }

  // ---------------------------------------------------------------------------------------
  // CRC-CCITT (SBF) and SPARTN CRC-16
  // ---------------------------------------------------------------------------------------

  function Bits16(c: bv16): (r: Bits)
    ensures |r| == 16
  {
    WordBits(TOP, 16, c as bv32 << 16)
  }

  lemma Generator16()
    ensures WordBits(TOP, 16, 0x10210000) == POLY16 && Fits(TOP, 16, 0x10210000)
  {
    TopBytes(16, 0x10210000, 0x10);
    TopBytes(8, 0x21000000, 0x21);
    ZeroWord(TOP, 0, 0);
  }

  lemma RowsCcitt(i: byte)
    ensures Covers(CCITT_TABLE, i) && Lookup(CCITT_TABLE, i) << 16 == EightUp(0x10210000, i)
  {
  }

  lemma TableCcitt(i: byte)
    ensures Covers(CCITT_TABLE, i)
    ensures var e := Lookup(CCITT_TABLE, i) << 16;
            Fits(TOP, 16, e)
            && WordBits(TOP, 16, e) == Register(POLY16, Zeros(16), ByteBits(MsbFirst, i))
  {
    RowsCcitt(i);
    Generator16();
    TopEntry(16, 0x10210000, i);
  }

  lemma Rows16(i: byte)
    ensures Covers(SPARTN_CRC16_TABLE, i) && Lookup(SPARTN_CRC16_TABLE, i) << 16 == EightUp(0x10210000, i)
  {
  }

  lemma Table16(i: byte)
    ensures Covers(SPARTN_CRC16_TABLE, i)
    ensures var e := Lookup(SPARTN_CRC16_TABLE, i) << 16;
            Fits(TOP, 16, e)
            && WordBits(TOP, 16, e) == Register(POLY16, Zeros(16), ByteBits(MsbFirst, i))
  {
    Rows16(i);
    Generator16();
    TopEntry(16, 0x10210000, i);
  }

  lemma Align16(crc: bv16, c: bv32, data: byte, index: byte, t: bv32, e: bv32, rest: bv32, r: bv16, next: bv32)
    requires c == crc as bv32 << 16 && e == t << 16 && rest == c << 8 && next == r as bv32 << 16
    requires index == data ^ (crc >> 8) as bv8
    requires r == (t & 0xFFFF) as bv16 ^ (crc << 8)
    ensures next == rest ^ e && index == data ^ (c >> 24) as bv8
  {
  }

  lemma Step16(crc: bv16, c: bv32, data: byte, index: byte, t: bv32, e: bv32, rest: bv32, r: bv16, next: bv32)
    requires c == crc as bv32 << 16 && e == t << 16 && rest == c << 8 && next == r as bv32 << 16
    requires index == data ^ (crc >> 8) as bv8
    requires r == (t & 0xFFFF) as bv16 ^ (crc << 8)
    requires Fits(TOP, 16, e)
    requires WordBits(TOP, 16, e) == Register(POLY16, Zeros(16), ByteBits(MsbFirst, index))
    ensures Bits16(r) == Register(POLY16, Bits16(crc), ByteBits(MsbFirst, data))
  {
    Align16(crc, c, data, index, t, e, rest, r, next);
    Generator16();
    TopFits16(c);
    TopLookup(16, 0x10210000, c, data, index, e, rest, next);
  }

  /** The incremental CRC-CCITT step of the SBF machine. */
  method CcittUpdate(crc: bv16, data: byte) returns (r: bv16)
    ensures Bits16(r) == Register(POLY16, Bits16(crc), ByteBits(MsbFirst, data))
  {
    var index := (crc >> 8) as bv8 ^ data;
    TableCcitt(index);
    var t := Lookup(CCITT_TABLE, index);
    r := (t & 0xFFFF) as bv16 ^ (crc << 8);
    Step16(crc, crc as bv32 << 16, data, index, t, t << 16, crc as bv32 << 16 << 8, r, r as bv32 << 16);
  }
}
