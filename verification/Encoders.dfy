/**
 Encoders written from the frame formats. What they produce is framed, carries a correct
 checksum, and gives the packet back.
 */
module Encoders {
  import opened Bytes
  import opened Gf2
  import opened Crc
  import opened Formats
  import opened Frames
  import opened Announcements
  import opened Trailers
  import opened ByteSums

  // ---------------------------------------------------------------------------------------
  // Bits and fields as bytes
  // ---------------------------------------------------------------------------------------

  function BitValue(bit: bool, weight: byte): byte {
    if bit then weight else 0
  }

  /** The byte with the given bits, most significant first. */
  function ByteOf(r: Bits): byte
    requires |r| == 8
  {
    BitValue(r[0], 0x80) | BitValue(r[1], 0x40) | BitValue(r[2], 0x20) | BitValue(r[3], 0x10)
    | BitValue(r[4], 0x08) | BitValue(r[5], 0x04) | BitValue(r[6], 0x02) | BitValue(r[7], 0x01)
  }

  lemma BitOfByte(b0: bool, b1: bool, b2: bool, b3: bool, b4: bool, b5: bool, b6: bool, b7: bool, b: byte, i: nat)
    requires b == BitValue(b0, 0x80) | BitValue(b1, 0x40) | BitValue(b2, 0x20) | BitValue(b3, 0x10)
                  | BitValue(b4, 0x08) | BitValue(b5, 0x04) | BitValue(b6, 0x02) | BitValue(b7, 0x01)
    requires i < 8
    ensures MsbBit(b, i) == [b0, b1, b2, b3, b4, b5, b6, b7][i]
  {
    if i == 0 {
    } else if i == 1 {
    } else if i == 2 {
    } else if i == 3 {
    } else if i == 4 {
    } else if i == 5 {
    } else if i == 6 {
    } else {
    }
  }

  lemma BitsOfByte(r: Bits)
    requires |r| == 8
    ensures ByteBits(MsbFirst, ByteOf(r)) == r
  {
    assert r == [r[0], r[1], r[2], r[3], r[4], r[5], r[6], r[7]];
    forall i: nat | i < 8 ensures MsbBit(ByteOf(r), i) == r[i] {
      BitOfByte(r[0], r[1], r[2], r[3], r[4], r[5], r[6], r[7], ByteOf(r), i);
    }
  }

  /** The byte that an engine of the given bit order feeds in as `r`. */
  function OrderedByte(order: Order, r: Bits): byte
    requires |r| == 8
  {
    ByteOf(if order.MsbFirst? then r else Reverse(r))
  }

  lemma BitsOfOrderedByte(order: Order, r: Bits)
    requires |r| == 8
    ensures ByteBits(order, OrderedByte(order, r)) == r
  {
    if order.MsbFirst? {
      BitsOfByte(r);
    } else {
      BitsOfByte(Reverse(r));
      var b := OrderedByte(order, r);
      forall i | 0 <= i < 8 ensures ByteBits(LsbFirst, b)[i] == r[i] {
        assert ByteBits(LsbFirst, b)[i] == ByteBits(MsbFirst, b)[7 - i];
      }
    }
  }

  /** The bytes that an engine of the given bit order feeds in as `r`. */
  function Packed(order: Order, r: Bits): (s: seq<byte>)
    requires |r| % 8 == 0
    ensures |s| == |r| / 8
  {
    if r == [] then [] else Packed(order, r[..|r| - 8]) + [OrderedByte(order, r[|r| - 8..])]
  }

  lemma {:induction false} BitsOfPacked(order: Order, r: Bits)
    requires |r| % 8 == 0
    ensures MessageBits(order, Packed(order, r)) == r
    decreases |r|
  {
    if r != [] {
      var head := r[..|r| - 8];
      BitsOfPacked(order, head);
      BitsOfOrderedByte(order, r[|r| - 8..]);
      var s := Packed(order, r);
      assert s[..|s| - 1] == Packed(order, head);
      assert r == head + r[|r| - 8..];
    }
  }

  /** The byte with the given value. */
  function ByteAt(n: nat): (b: byte)
    requires n < 256
    ensures b as int == n
  {
    if n == 0 then 0 else
      var p := ByteAt(n - 1);
      NextByteValue(p);
      Plus(p, 1)
  }

  function Low(n: nat): (b: byte)
    ensures b as int == n % 256
  {
    ByteAt(n % 256)
  }

  function High(n: nat): (b: byte)
    requires n < 65536
    ensures b as int == n / 256
  {
    ByteAt(n / 256)
  }

  lemma Fields16(n: nat, lo: byte, hi: byte)
    requires n < 65536 && lo == Low(n) && hi == High(n)
    ensures LittleEndian16(lo, hi) == n && 256 * (hi as int) + lo as int == n
  {
  }

  lemma SmallByte(b: byte)
    requires b as int < 4
    ensures b & 0xFC == 0
  {
    assert (b as int) as bv8 == b;
    if b as int == 0 {
    } else if b as int == 1 {
    } else if b as int == 2 {
    } else {
    }
  }

  // ---------------------------------------------------------------------------------------
  // Binary packets
  // ---------------------------------------------------------------------------------------

  function EncodeRtcm(payload: seq<byte>): (f: seq<byte>)
    requires |payload| < 1024
    ensures |f| == |payload| + 6
  {
    var body := [0xD3, High(|payload|), Low(|payload|)] + payload;
    body + Packed(MsbFirst, Residue(POLY24, MsbFirst, Zeros(24), body))
  }

  lemma RtcmFrameOf(payload: seq<byte>, hi: byte, lo: byte, body: seq<byte>, trailer: seq<byte>, f: seq<byte>)
    requires |payload| < 1024 && 256 * (hi as int) + lo as int == |payload| && |trailer| == 3
    requires body == [0xD3, hi, lo] + payload && f == body + trailer
    ensures Announced(Rtcm, f) && (RtcmFrame(f) <==> |payload| >= 3)
    ensures f[..|f| - 3] == body && f[|f| - 3..] == trailer && f[3..|f| - 3] == payload
  {
    SmallByte(hi);
  }

  /** The payload comes back and the checksum is right; the frame is complete unless the payload is too short. */
  lemma RtcmRoundTrip(payload: seq<byte>)
    requires |payload| < 1024
    ensures var f := EncodeRtcm(payload);
            && Announced(Rtcm, f) && (RtcmFrame(f) <==> |payload| >= 3)
            && ChecksumOk(Rtcm, f) && f[3..|f| - 3] == payload
  {
    var hi, lo := High(|payload|), Low(|payload|);
    Fields16(|payload|, lo, hi);
    var body := [0xD3, hi, lo] + payload;
    var r := Residue(POLY24, MsbFirst, Zeros(24), body);
    BitsOfPacked(MsbFirst, r);
    RtcmFrameOf(payload, hi, lo, body, Packed(MsbFirst, r), EncodeRtcm(payload));
    RtcmTrailer(EncodeRtcm(payload));
  }

  function EncodeUblox(class_: byte, id: byte, payload: seq<byte>): (f: seq<byte>)
    requires |payload| < 65536
    ensures |f| == |payload| + 8
  {
    var covered := [class_, id, Low(|payload|), High(|payload|)] + payload;
    [0xB5, 0x62] + covered + [Fletcher(covered).0, Fletcher(covered).1]
  }

  lemma UbloxRoundTrip(class_: byte, id: byte, payload: seq<byte>)
    requires |payload| < 65536
    ensures var f := EncodeUblox(class_, id, payload);
            UbloxFrame(f) && ChecksumOk(Ublox, f) && f[2] == class_ && f[3] == id && f[6..|f| - 2] == payload
  {
    var lo, hi := Low(|payload|), High(|payload|);
    Fields16(|payload|, lo, hi);
    var covered := [class_, id, lo, hi] + payload;
    var f := EncodeUblox(class_, id, payload);
    assert f[2..|f| - 2] == covered;
  }

  /** The trailer of a SEMP frame: the inverted register, low byte first. */
  function SempTrailer(body: seq<byte>): (t: seq<byte>)
    ensures |t| == 4
  {
    Packed(LsbFirst, Not(Residue(POLY32, LsbFirst, Ones(32), body)))
  }

  /** `front` are the header bytes between the header length and the message length, `back` those behind it. */
  function EncodeSemp(front: seq<byte>, back: seq<byte>, data: seq<byte>): (f: seq<byte>)
    requires |front| == 8 && |back| == 6 && |data| < 65536
    ensures |f| == |data| + 24
  {
    var body := [0xAA, 0x44, 0x18, 0x14] + front + [Low(|data|), High(|data|)] + back + data;
    body + SempTrailer(body)
  }

  lemma SempFrameOf(front: seq<byte>, lo: byte, hi: byte, back: seq<byte>, data: seq<byte>,
                    body: seq<byte>, trailer: seq<byte>, f: seq<byte>)
    requires |front| == 8 && |back| == 6 && LittleEndian16(lo, hi) == |data| && |trailer| == 4
    requires body == [0xAA, 0x44, 0x18, 0x14] + front + [lo, hi] + back + data && f == body + trailer
    ensures MmpSempFrame(f) && Announced(Custom, f) && (CustomFrame(f) <==> data != [])
    ensures f[..|f| - 4] == body && f[|f| - 4..] == trailer
    ensures f[4..12] == front && f[14..20] == back && f[20..|f| - 4] == data
  {
    assert f[12] == lo && f[13] == hi;
  }

  /** Both SEMP machines take the frame, unless there is no data. */
  lemma SempRoundTrip(front: seq<byte>, back: seq<byte>, data: seq<byte>)
    requires |front| == 8 && |back| == 6 && |data| < 65536
    ensures var f := EncodeSemp(front, back, data);
            && MmpSempFrame(f) && ChecksumOk(MmpSemp, f) && ChecksumOk(Custom, f)
            && Announced(Custom, f) && (CustomFrame(f) <==> data != [])
            && f[4..12] == front && f[14..20] == back && f[20..|f| - 4] == data
  {
    var lo, hi := Low(|data|), High(|data|);
    Fields16(|data|, lo, hi);
    var body := [0xAA, 0x44, 0x18, 0x14] + front + [lo, hi] + back + data;
    SempFrameOf(front, lo, hi, back, data, body, SempTrailer(body), EncodeSemp(front, back, data));
    SempTrailerFits(body, EncodeSemp(front, back, data));
  }

  lemma SempTrailerFits(body: seq<byte>, f: seq<byte>)
    requires |f| == |body| + 4 && f[..|f| - 4] == body && f[|f| - 4..] == SempTrailer(body)
    ensures ChecksumOk(MmpSemp, f) && ChecksumOk(Custom, f)
  {
    BitsOfPacked(LsbFirst, Not(Residue(POLY32, LsbFirst, Ones(32), body)));
    CustomTrailer(f);
  }

  function EncodeUnicore(front: seq<byte>, back: seq<byte>, data: seq<byte>): (f: seq<byte>)
    requires |front| == 3 && |back| == 16 && |data| < 65536
    ensures |f| == |data| + 28
  {
    var body := [0xAA, 0x44, 0xB5] + front + [Low(|data|), High(|data|)] + back + data;
    body + Packed(LsbFirst, Residue(POLY32, LsbFirst, Zeros(32), body))
  }

  lemma UnicoreFrameOf(front: seq<byte>, lo: byte, hi: byte, back: seq<byte>, data: seq<byte>,
                       body: seq<byte>, trailer: seq<byte>, f: seq<byte>)
    requires |front| == 3 && |back| == 16 && LittleEndian16(lo, hi) == |data| && |trailer| == 4
    requires body == [0xAA, 0x44, 0xB5] + front + [lo, hi] + back + data && f == body + trailer
    ensures Announced(UnicoreBinary, f) && (UnicoreFrame(f) <==> data != [])
    ensures f[..|f| - 4] == body && f[|f| - 4..] == trailer
    ensures f[3..6] == front && f[8..24] == back && f[24..|f| - 4] == data
  {
    assert f[6] == lo && f[7] == hi;
  }

  lemma UnicoreRoundTrip(front: seq<byte>, back: seq<byte>, data: seq<byte>)
    requires |front| == 3 && |back| == 16 && |data| < 65536
    ensures var f := EncodeUnicore(front, back, data);
            && Announced(UnicoreBinary, f) && (UnicoreFrame(f) <==> data != []) && ChecksumOk(UnicoreBinary, f)
            && f[3..6] == front && f[8..24] == back && f[24..|f| - 4] == data
  {
    var lo, hi := Low(|data|), High(|data|);
    Fields16(|data|, lo, hi);
    var body := [0xAA, 0x44, 0xB5] + front + [lo, hi] + back + data;
    var r := Residue(POLY32, LsbFirst, Zeros(32), body);
    BitsOfPacked(LsbFirst, r);
    UnicoreFrameOf(front, lo, hi, back, data, body, Packed(LsbFirst, r), EncodeUnicore(front, back, data));
    UnicoreTrailer(EncodeUnicore(front, back, data));
  }

  /** An SBF block: sync, CRC of everything behind it, ID field, length, payload. */
  function SbfBlockOf(idLow: byte, idHigh: byte, lo: byte, hi: byte, payload: seq<byte>): (f: seq<byte>)
    ensures |f| == |payload| + 8
  {
    var covered := [idLow, idHigh, lo, hi] + payload;
    var crc := Packed(MsbFirst, Residue(POLY16, MsbFirst, Zeros(16), covered));
    [0x24, 0x40, crc[1], crc[0]] + covered
  }

  function EncodeSbf(idLow: byte, idHigh: byte, payload: seq<byte>): (f: seq<byte>)
    requires |payload| < 65528 && |payload| % 4 == 0
    ensures |f| == |payload| + 8
  {
    SbfBlockOf(idLow, idHigh, Low(|payload| + 8), High(|payload| + 8), payload)
  }

  lemma SbfSlices(idLow: byte, idHigh: byte, lo: byte, hi: byte, payload: seq<byte>, c0: byte, c1: byte,
                  covered: seq<byte>, f: seq<byte>)
    requires covered == [idLow, idHigh, lo, hi] + payload && f == [0x24, 0x40, c1, c0] + covered
    ensures |f| == |payload| + 8 && f[0] == 0x24 && f[1] == 0x40 && f[2] == c1 && f[3] == c0
    ensures f[4] == idLow && f[5] == idHigh && f[6] == lo && f[7] == hi && f[4..] == covered && f[8..] == payload
  {
  }

  lemma SbfIsChecked(f: seq<byte>, covered: seq<byte>, crc: seq<byte>)
    requires |f| >= 4 && f[4..] == covered && |crc| == 2 && f[3] == crc[0] && f[2] == crc[1]
    requires MessageBits(MsbFirst, crc) == Residue(POLY16, MsbFirst, Zeros(16), covered)
    ensures ChecksumOk(Sbf, f)
  {
    assert crc == [f[3], f[2]];
  }

  lemma SbfFrameOf(f: seq<byte>, lo: byte, hi: byte, length: nat)
    requires |f| == length >= 8 && length % 4 == 0 && f[0] == 0x24 && f[1] == 0x40 && f[6] == lo && f[7] == hi
    requires LittleEndian16(lo, hi) == length
    ensures Announced(Sbf, f) && (SbfFrame(f) <==> length >= 12)
  {
  }

  lemma SbfCrcOf(covered: seq<byte>, crc: seq<byte>)
    requires crc == Packed(MsbFirst, Residue(POLY16, MsbFirst, Zeros(16), covered))
    ensures |crc| == 2 && MessageBits(MsbFirst, crc) == Residue(POLY16, MsbFirst, Zeros(16), covered)
  {
    BitsOfPacked(MsbFirst, Residue(POLY16, MsbFirst, Zeros(16), covered));
  }

  lemma SbfBlockIsChecked(idLow: byte, idHigh: byte, lo: byte, hi: byte, payload: seq<byte>,
                          covered: seq<byte>, f: seq<byte>)
    requires covered == [idLow, idHigh, lo, hi] + payload && f == SbfBlockOf(idLow, idHigh, lo, hi, payload)
    ensures ChecksumOk(Sbf, f)
  {
    var crc := Packed(MsbFirst, Residue(POLY16, MsbFirst, Zeros(16), covered));
    SbfCrcOf(covered, crc);
    SbfIsChecked(f, covered, crc);
  }

  lemma MultipleOfFour(n: nat)
    requires n % 4 == 0
    ensures (n + 8) % 4 == 0 && (n + 8 >= 12 <==> n > 0)
  {
  }

  lemma SbfBlockIsLaidOut(payload: seq<byte>, lo: byte, hi: byte, length: nat, f: seq<byte>)
    requires length == |payload| + 8 == |f| && |payload| % 4 == 0 && LittleEndian16(lo, hi) == length
    requires f[0] == 0x24 && f[1] == 0x40 && f[6] == lo && f[7] == hi
    ensures Announced(Sbf, f) && (SbfFrame(f) <==> payload != [])
  {
    MultipleOfFour(|payload|);
    SbfFrameOf(f, lo, hi, length);
  }

  lemma SbfFieldsRoundTrip(idLow: byte, idHigh: byte, lo: byte, hi: byte, payload: seq<byte>, f: seq<byte>)
    requires |payload| < 65528 && |payload| % 4 == 0 && LittleEndian16(lo, hi) == |payload| + 8
    requires f == SbfBlockOf(idLow, idHigh, lo, hi, payload)
    ensures Announced(Sbf, f) && (SbfFrame(f) <==> payload != []) && ChecksumOk(Sbf, f)
    ensures f[4] == idLow && f[5] == idHigh && f[8..] == payload
  {
    var covered := [idLow, idHigh, lo, hi] + payload;
    SbfSlices(idLow, idHigh, lo, hi, payload, f[3], f[2], covered, f);
    SbfBlockIsLaidOut(payload, lo, hi, |payload| + 8, f);
    SbfBlockIsChecked(idLow, idHigh, lo, hi, payload, covered, f);
  }

  lemma SbfRoundTrip(idLow: byte, idHigh: byte, payload: seq<byte>)
    requires |payload| < 65528 && |payload| % 4 == 0
    ensures var f := EncodeSbf(idLow, idHigh, payload);
            && Announced(Sbf, f) && (SbfFrame(f) <==> payload != []) && ChecksumOk(Sbf, f)
            && f[4] == idLow && f[5] == idHigh && f[8..] == payload
  {
    var lo, hi := Low(|payload| + 8), High(|payload| + 8);
    Fields16(|payload| + 8, lo, hi);
    SbfFieldsRoundTrip(idLow, idHigh, lo, hi, payload, EncodeSbf(idLow, idHigh, payload));
  }
}
