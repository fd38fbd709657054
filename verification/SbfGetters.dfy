/** The fields of an SBF block: the ID field, and the little-endian values at an offset. */
module SbfGetters {
  import opened Bytes
  import opened Gf2
  import opened Crc
  import opened CrcEngines
  import opened WordBytes
  import opened ParserState
  import opened Encoders

  // ---------------------------------------------------------------------------------------
  // The ID field
  // ---------------------------------------------------------------------------------------

  /** The block number and the revision make up the ID field again. */
  lemma IdRecomposes(id: bv16, rev: byte, lo: byte, hi: byte)
    requires SbfIdBits(id, rev, lo, hi)
    ensures MessageBits(MsbFirst, [hi, lo]) == ByteBits(MsbFirst, rev)[5..] + Bits16(id)[3..]
    ensures Bits16(id)[..3] == Zeros(3) && ByteBits(MsbFirst, rev)[..5] == Zeros(5)
  {
    var raw := MessageBits(MsbFirst, [hi, lo]);
    MessageBitsOfTwo(MsbFirst, hi, lo);
    assert raw[..3] == ByteBits(MsbFirst, hi)[..3];
    assert raw == raw[..3] + raw[3..];
  }

  lemma MaskedIdBits(lo: byte, hi: byte, raw: bv16, id: bv16, rev: byte)
    requires raw == lo as bv16 | (hi as bv16 << 8) && id == raw & 0x1FFF && rev == hi >> 5
    ensures SbfIdBits(id, rev, lo, hi)
  {
    Word16(raw, raw, hi, lo);
    MaskedWord(raw, hi, lo, id);
    ShiftedByte(hi, rev);
  }

  lemma SameByteBits(a: byte, b: byte)
    requires ByteBits(MsbFirst, a) == ByteBits(MsbFirst, b)
    ensures a == b
  {
    ByteBitsInjective(MsbFirst, a, b);
  }

  lemma IdNumber(lo: byte, hi: byte, id: bv16, rev: byte)
    requires id == (lo as bv16 | (hi as bv16 << 8)) & 0x1FFF && rev == hi >> 5
    ensures id as int == LittleEndian16(lo, hi) % 8192 && rev as int == LittleEndian16(lo, hi) / 8192
  {
  }

  /** As numbers: the block number is the ID field modulo 8192, the revision its quotient. */
  lemma IdValues(id: bv16, rev: byte, lo: byte, hi: byte)
    requires SbfIdBits(id, rev, lo, hi)
    ensures id as int == LittleEndian16(lo, hi) % 8192 && rev as int == LittleEndian16(lo, hi) / 8192
  {
    var raw := lo as bv16 | (hi as bv16 << 8);
    MaskedIdBits(lo, hi, raw, raw & 0x1FFF, hi >> 5);
    SameBits16(id, raw & 0x1FFF);
    SameByteBits(rev, hi >> 5);
    IdNumber(lo, hi, id, rev);
  }

  // ---------------------------------------------------------------------------------------
  // Little-endian values
  // ---------------------------------------------------------------------------------------

  /** The value of four bytes, low byte first. */
  function LittleEndian32(b0: byte, b1: byte, b2: byte, b3: byte): nat {
    b0 as int + 0x100 * (b1 as int) + 0x1_0000 * (b2 as int) + 0x100_0000 * (b3 as int)
  }

  lemma TwoBytes(lo: byte, hi: byte, data: bv16)
    requires data == lo as bv16 | (hi as bv16 << 8)
    ensures data as int == LittleEndian16(lo, hi)
  {
  }

  /** The value of the two bytes at the offset, low byte first. */
  method GetU2(buffer: seq<byte>, offset: nat) returns (data: bv16)
    requires offset + 2 <= |buffer|
    ensures data as int == LittleEndian16(buffer[offset], buffer[offset + 1])
  {
    data := buffer[offset] as bv16;
    data := data | (buffer[offset + 1] as bv16 << 8);
    TwoBytes(buffer[offset], buffer[offset + 1], data);
  }

  /** A byte in its place in the word. */
  function Place4(b: byte, i: nat): bv32 {
    match i
    case 0 => b as bv32
    case 1 => b as bv32 << 8
    case 2 => b as bv32 << 16
    case _ => b as bv32 << 24
  }

  function Join4(a: bv32, b: bv32): bv32 {
    a | b
  }

  /** The first bytes joined into a word, low byte first. */
  function Gather4(s: seq<byte>): bv32 {
    if s == [] then 0 else Join4(Gather4(s[..|s| - 1]), Place4(s[|s| - 1], |s| - 1))
  }

  /** The four bytes joined one after the other. */
  function Word4(b0: byte, b1: byte, b2: byte, b3: byte): bv32 {
    Join4(Join4(Join4(Join4(0, Place4(b0, 0)), Place4(b1, 1)), Place4(b2, 2)), Place4(b3, 3))
  }

  lemma ValueOf4(b0: byte, b1: byte, b2: byte, b3: byte, w: bv32)
    requires w == b0 as bv32 | (b1 as bv32 << 8) | (b2 as bv32 << 16) | (b3 as bv32 << 24)
    ensures w as int == b0 as int + 0x100 * (b1 as int) + 0x1_0000 * (b2 as int) + 0x100_0000 * (b3 as int)
  {
  }

  lemma Word4Is(b0: byte, b1: byte, b2: byte, b3: byte)
    ensures Word4(b0, b1, b2, b3) == b0 as bv32 | (b1 as bv32 << 8) | (b2 as bv32 << 16) | (b3 as bv32 << 24)
  {
  }

  lemma FourBytes(b0: byte, b1: byte, b2: byte, b3: byte, w: bv32)
    requires w == Word4(b0, b1, b2, b3)
    ensures w as int == LittleEndian32(b0, b1, b2, b3)
  {
    Word4Is(b0, b1, b2, b3);
    ValueOf4(b0, b1, b2, b3, w);
  }

  lemma GatherNext4(s: seq<byte>, b: byte, w: bv32)
    requires Gather4(s) == w
    ensures Gather4(s + [b]) == Join4(w, Place4(b, |s|))
  {
    assert (s + [b])[..|s|] == s;
  }

  lemma GatherAll4(b0: byte, b1: byte, b2: byte, b3: byte)
    ensures Gather4([b0, b1, b2, b3]) == Word4(b0, b1, b2, b3)
  {
    var s := [b0, b1, b2, b3];
    assert s[..1] == [] + [b0] && s[..2] == s[..1] + [b1] && s[..3] == s[..2] + [b2] && s == s[..3] + [b3];
    GatherNext4([], b0, 0);
    GatherNext4(s[..1], b1, Gather4(s[..1]));
    GatherNext4(s[..2], b2, Gather4(s[..2]));
    GatherNext4(s[..3], b3, Gather4(s[..3]));
  }

  /** The value of the four bytes at the offset, low byte first. */
  method GetU4(buffer: seq<byte>, offset: nat) returns (data: bv32)
    requires offset + 4 <= |buffer|
    ensures data as int
            == LittleEndian32(buffer[offset], buffer[offset + 1], buffer[offset + 2], buffer[offset + 3])
  {
    ghost var s := buffer[offset..offset + 4];
    data := 0;
    var i := 0;
    while i < 4
      invariant i <= 4 && data == Gather4(s[..i])
    {
      assert s[..i + 1][..i] == s[..i];
      data := Join4(data, Place4(buffer[offset + i], i));
      i := i + 1;
    }
    assert s[..4] == [s[0], s[1], s[2], s[3]];
    GatherAll4(s[0], s[1], s[2], s[3]);
    FourBytes(s[0], s[1], s[2], s[3], data);
  }

  /** A byte in its place in the word. */
  function Place8(b: byte, i: nat): bv64 {
    match i
    case 0 => b as bv64
    case 1 => b as bv64 << 8
    case 2 => b as bv64 << 16
    case 3 => b as bv64 << 24
    case 4 => b as bv64 << 32
    case 5 => b as bv64 << 40
    case 6 => b as bv64 << 48
    case _ => b as bv64 << 56
  }

  function Join8(a: bv64, b: bv64): bv64 {
    a | b
  }

  /** The first bytes joined into a word, low byte first. */
  function Gather8(s: seq<byte>): bv64 {
    if s == [] then 0 else Join8(Gather8(s[..|s| - 1]), Place8(s[|s| - 1], |s| - 1))
  }

  /** The eight bytes joined one after the other. */
  function Word8(b0: byte, b1: byte, b2: byte, b3: byte, b4: byte, b5: byte, b6: byte, b7: byte): bv64 {
    var low := Join8(Join8(Join8(Join8(0, Place8(b0, 0)), Place8(b1, 1)), Place8(b2, 2)), Place8(b3, 3));
    Join8(Join8(Join8(Join8(low, Place8(b4, 4)), Place8(b5, 5)), Place8(b6, 6)), Place8(b7, 7))
  }

  lemma ValueOf8(b0: byte, b1: byte, b2: byte, b3: byte, b4: byte, b5: byte, b6: byte, b7: byte, w: bv64)
    requires w == b0 as bv64 | (b1 as bv64 << 8) | (b2 as bv64 << 16) | (b3 as bv64 << 24)
                  | (b4 as bv64 << 32) | (b5 as bv64 << 40) | (b6 as bv64 << 48) | (b7 as bv64 << 56)
    ensures w as int == b0 as int + 0x100 * (b1 as int) + 0x1_0000 * (b2 as int) + 0x100_0000 * (b3 as int)
                        + 0x1_0000_0000 * (b4 as int) + 0x100_0000_0000 * (b5 as int)
                        + 0x1_0000_0000_0000 * (b6 as int) + 0x100_0000_0000_0000 * (b7 as int)
  {
  }

  lemma Joins8(p0: bv64, p1: bv64, p2: bv64, p3: bv64, p4: bv64, p5: bv64, p6: bv64, p7: bv64)
    ensures Join8(Join8(Join8(Join8(Join8(Join8(Join8(Join8(0, p0), p1), p2), p3), p4), p5), p6), p7)
            == p0 | p1 | p2 | p3 | p4 | p5 | p6 | p7
  {
  }

  lemma Regroup(b0: byte, b1: byte, b2: byte, b3: byte, b4: byte, b5: byte, b6: byte, b7: byte, n: int)
    requires n == b0 as int + 0x100 * (b1 as int) + 0x1_0000 * (b2 as int) + 0x100_0000 * (b3 as int)
                  + 0x1_0000_0000 * (b4 as int) + 0x100_0000_0000 * (b5 as int)
                  + 0x1_0000_0000_0000 * (b6 as int) + 0x100_0000_0000_0000 * (b7 as int)
    ensures n == LittleEndian32(b0, b1, b2, b3) + 0x1_0000_0000 * LittleEndian32(b4, b5, b6, b7)
  {
  }

  lemma Union8(b0: byte, b1: byte, b2: byte, b3: byte, b4: byte, b5: byte, b6: byte, b7: byte, w: bv64,
               p0: bv64, p1: bv64, p2: bv64, p3: bv64, p4: bv64, p5: bv64, p6: bv64, p7: bv64)
    requires p0 == b0 as bv64 && p1 == b1 as bv64 << 8 && p2 == b2 as bv64 << 16 && p3 == b3 as bv64 << 24
    requires p4 == b4 as bv64 << 32 && p5 == b5 as bv64 << 40 && p6 == b6 as bv64 << 48 && p7 == b7 as bv64 << 56
    requires w == p0 | p1 | p2 | p3 | p4 | p5 | p6 | p7
    ensures w == b0 as bv64 | (b1 as bv64 << 8) | (b2 as bv64 << 16) | (b3 as bv64 << 24)
                 | (b4 as bv64 << 32) | (b5 as bv64 << 40) | (b6 as bv64 << 48) | (b7 as bv64 << 56)
  {
  }

  lemma EightBytes(b0: byte, b1: byte, b2: byte, b3: byte, b4: byte, b5: byte, b6: byte, b7: byte, w: bv64)
    requires w == Word8(b0, b1, b2, b3, b4, b5, b6, b7)
    ensures w as int == LittleEndian32(b0, b1, b2, b3) + 0x1_0000_0000 * LittleEndian32(b4, b5, b6, b7)
  {
    var p0, p1, p2, p3 := Place8(b0, 0), Place8(b1, 1), Place8(b2, 2), Place8(b3, 3);
    var p4, p5, p6, p7 := Place8(b4, 4), Place8(b5, 5), Place8(b6, 6), Place8(b7, 7);
    Joins8(p0, p1, p2, p3, p4, p5, p6, p7);
    Union8(b0, b1, b2, b3, b4, b5, b6, b7, w, p0, p1, p2, p3, p4, p5, p6, p7);
    ValueOf8(b0, b1, b2, b3, b4, b5, b6, b7, w);
    Regroup(b0, b1, b2, b3, b4, b5, b6, b7, w as int);
  }

  lemma GatherStep8(s: seq<byte>, i: nat, w: bv64)
    requires i < |s| && w == Gather8(s[..i])
    ensures Gather8(s[..i + 1]) == Join8(w, Place8(s[i], i))
  {
    assert s[..i + 1][..i] == s[..i];
  }

  lemma GatherAll8(b0: byte, b1: byte, b2: byte, b3: byte, b4: byte, b5: byte, b6: byte, b7: byte)
    ensures Gather8([b0, b1, b2, b3, b4, b5, b6, b7]) == Word8(b0, b1, b2, b3, b4, b5, b6, b7)
  {
    var w0 := Join8(0, Place8(b0, 0));
    assert [b0][..0] == [];
    assert Gather8([b0]) == w0;
    var w1 := Join8(w0, Place8(b1, 1));
    assert [b0, b1][..1] == [b0];
    assert Gather8([b0, b1]) == w1;
    var w2 := Join8(w1, Place8(b2, 2));
    assert [b0, b1, b2][..2] == [b0, b1];
    assert Gather8([b0, b1, b2]) == w2;
    var w3 := Join8(w2, Place8(b3, 3));
    assert [b0, b1, b2, b3][..3] == [b0, b1, b2];
    assert Gather8([b0, b1, b2, b3]) == w3;
    var w4 := Join8(w3, Place8(b4, 4));
    assert [b0, b1, b2, b3, b4][..4] == [b0, b1, b2, b3];
    assert Gather8([b0, b1, b2, b3, b4]) == w4;
    var w5 := Join8(w4, Place8(b5, 5));
    assert [b0, b1, b2, b3, b4, b5][..5] == [b0, b1, b2, b3, b4];
    assert Gather8([b0, b1, b2, b3, b4, b5]) == w5;
    var w6 := Join8(w5, Place8(b6, 6));
    assert [b0, b1, b2, b3, b4, b5, b6][..6] == [b0, b1, b2, b3, b4, b5];
    assert Gather8([b0, b1, b2, b3, b4, b5, b6]) == w6;
    assert [b0, b1, b2, b3, b4, b5, b6, b7][..7] == [b0, b1, b2, b3, b4, b5, b6];
  }

  /** The value of the eight bytes at the offset, low byte first. */
  method GetU8(buffer: seq<byte>, offset: nat) returns (data: bv64)
    requires offset + 8 <= |buffer|
    ensures data as int
            == LittleEndian32(buffer[offset], buffer[offset + 1], buffer[offset + 2], buffer[offset + 3])
               + 0x1_0000_0000
                 * LittleEndian32(buffer[offset + 4], buffer[offset + 5], buffer[offset + 6], buffer[offset + 7])
  {
    ghost var s := buffer[offset..offset + 8];
    data := 0;
    var i := 0;
    while i < 8
      invariant i <= 8 && data == Gather8(s[..i])
    {
      GatherStep8(s, i, data);
      data := Join8(data, Place8(buffer[offset + i], i));
      i := i + 1;
    }
    assert s[..8] == [s[0], s[1], s[2], s[3], s[4], s[5], s[6], s[7]];
    GatherAll8(s[0], s[1], s[2], s[3], s[4], s[5], s[6], s[7]);
    EightBytes(s[0], s[1], s[2], s[3], s[4], s[5], s[6], s[7], data);
  }

  // ---------------------------------------------------------------------------------------
  // Encoding and back
  // ---------------------------------------------------------------------------------------

  /** The four bytes of a number, low byte first. */
  function NumberBytes(n: nat): (s: seq<byte>)
    ensures |s| == 4
  {
    [Low(n), Low(n / 0x100), Low(n / 0x1_0000), Low(n / 0x100_0000)]
  }

  lemma Quotients(n: nat, a: nat, b: nat, c: nat)
    requires a == n / 0x100 && b == a / 0x100 && c == b / 0x100
    ensures b == n / 0x1_0000 && c == n / 0x100_0000
  {
  }

  lemma Digits(n: nat)
    requires n < 0x1_0000_0000
    ensures n % 256 + 0x100 * (n / 0x100 % 256) + 0x1_0000 * (n / 0x1_0000 % 256)
            + 0x100_0000 * (n / 0x100_0000 % 256) == n
    ensures n < 0x1_0000 ==> n % 256 + 256 * (n / 0x100 % 256) == n
  {
    var a := n / 0x100;
    var b := a / 0x100;
    var c := b / 0x100;
    Quotients(n, a, b, c);
    assert n == 256 * a + n % 256 && a == 256 * b + a % 256 && b == 256 * c + b % 256 && c < 256;
  }

  lemma NumberValue(n: nat, s: seq<byte>)
    requires n < 0x1_0000_0000 && s == NumberBytes(n)
    ensures LittleEndian32(s[0], s[1], s[2], s[3]) == n
    ensures n < 0x1_0000 ==> LittleEndian16(s[0], s[1]) == n
  {
    Digits(n);
    ByteValues(s[0], s[1], s[2], s[3], n % 256, n / 0x100 % 256, n / 0x1_0000 % 256, n / 0x100_0000 % 256);
  }

  lemma ByteValues(b0: byte, b1: byte, b2: byte, b3: byte, v0: nat, v1: nat, v2: nat, v3: nat)
    requires b0 as int == v0 && b1 as int == v1 && b2 as int == v2 && b3 as int == v3
    ensures LittleEndian32(b0, b1, b2, b3) == v0 + 0x100 * v1 + 0x1_0000 * v2 + 0x100_0000 * v3
    ensures LittleEndian16(b0, b1) == v0 + 256 * v1
  {
  }

  /** The getters undo the encoding, wherever the bytes stand in the buffer. */
  method GettersUndo(n: nat, high: nat, before: seq<byte>, after: seq<byte>) returns (u2: bv16, u4: bv32, u8: bv64)
    requires n < 0x1_0000_0000 && high < 0x1_0000_0000
    ensures n < 0x1_0000 ==> u2 as int == n
    ensures u4 as int == n && u8 as int == n + 0x1_0000_0000 * high
  {
    var s, t := NumberBytes(n), NumberBytes(high);
    NumberValue(n, s);
    NumberValue(high, t);
    var buffer, k := before + s + t + after, |before|;
    assert buffer[k] == s[0] && buffer[k + 1] == s[1] && buffer[k + 2] == s[2] && buffer[k + 3] == s[3];
    assert buffer[k + 4] == t[0] && buffer[k + 5] == t[1] && buffer[k + 6] == t[2] && buffer[k + 7] == t[3];
    u2 := GetU2(buffer, k);
    u4 := GetU4(buffer, k);
    u8 := GetU8(buffer, k);
  }
}
