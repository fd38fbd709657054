/** An encoder for SPARTN frames: the header with its CRC-4, and the trailer of the chosen CRC type. */
module SpartnEncoder {
  import opened Bytes
  import opened Gf2
  import opened Crc
  import opened Formats
  import opened Frames
  import opened Announcements
  import opened Trailers
  import opened Encoders

  // ---------------------------------------------------------------------------------------
  // The header
  // ---------------------------------------------------------------------------------------

  /** Message type in seven bits, and the top bit of the payload length. */
  function TypeByte(kind: byte, n: nat): byte {
    (kind & 0xFE) | BitValue(n >= 512, 1)
  }

  /** The last bit of the payload length, the encryption flag and the CRC type, with the CRC-4 still clear. */
  function FlagBits(n: nat, encrypted: bool, crcType: nat): byte {
    BitValue(n % 2 == 1, 0x80) | BitValue(encrypted, 0x40)
    | BitValue(crcType / 2 == 1, 0x20) | BitValue(crcType % 2 == 1, 0x10)
  }

  /** The four bits of a CRC-4 as the low half of a byte. */
  function NibbleByte(r: Bits): byte
    requires |r| == 4
  {
    BitValue(r[0], 1) | BitValue(r[1], 2) | BitValue(r[2], 4) | BitValue(r[3], 8)
  }

  lemma TypeByteFields(kind: byte, top: bool, b: byte)
    requires b == (kind & 0xFE) | BitValue(top, 1)
    ensures b & 1 == BitValue(top, 1) && b & 0xFE == kind & 0xFE
  {
  }

  lemma FlagByteFields(odd: bool, encrypted: bool, t1: bool, t0: bool, r0: bool, r1: bool, r2: bool, r3: bool,
                       flags: byte, crc: byte, b: byte)
    requires flags == BitValue(odd, 0x80) | BitValue(encrypted, 0x40) | BitValue(t1, 0x20) | BitValue(t0, 0x10)
    requires crc == BitValue(r0, 1) | BitValue(r1, 2) | BitValue(r2, 4) | BitValue(r3, 8)
    requires b == flags | crc
    ensures b & 0xF0 == flags && b & 0x0F == crc
    ensures b >> 7 == BitValue(odd, 1) && (b & 0x40 != 0) == encrypted
    ensures (b >> 4) & 3 == BitValue(t1, 2) | BitValue(t0, 1)
  {
  }

  lemma NibbleByteBits(r: Bits, b: byte)
    requires |r| == 4 && b == NibbleByte(r)
    ensures ByteBits(LsbFirst, b)[..4] == r
  {
    assert MsbBit(b, 7) == r[0] && MsbBit(b, 6) == r[1] && MsbBit(b, 5) == r[2] && MsbBit(b, 4) == r[3];
  }

  lemma SmallValues(bit: bool, t1: bool, t0: bool)
    ensures BitValue(bit, 1) as int == if bit then 1 else 0
    ensures (BitValue(t1, 2) | BitValue(t0, 1)) as int == (if t1 then 2 else 0) + if t0 then 1 else 0
  {
  }

  /** The four header bytes. */
  function HeaderBytes(kind: byte, encrypted: bool, crcType: nat, n: nat): (h: seq<byte>)
    requires n < 1024
    ensures |h| == 4
  {
    var high, low, flags := TypeByte(kind, n), ByteAt(n / 2 % 256), FlagBits(n, encrypted, crcType);
    [0x73, high, low, flags | NibbleByte(Residue(POLY4, LsbFirst, Zeros(4), [high, low, flags]))]
  }

  lemma PayloadValue(n: nat)
    requires n < 1024
    ensures 512 * (if n >= 512 then 1 else 0) + 2 * (n / 2 % 256) + (if n % 2 == 1 then 1 else 0) == n
  {
  }

  lemma HeaderIsChecked(h: seq<byte>, flags: byte, crc: byte, r: Bits)
    requires |h| == 4 && h[3] & 0xF0 == flags && h[3] & 0x0F == crc
    requires r == Residue(POLY4, LsbFirst, Zeros(4), [h[1], h[2], flags]) && ByteBits(LsbFirst, crc)[..4] == r
    ensures SpartnHeaderOk(h)
  {
  }

  lemma HeaderLength(h: seq<byte>, n: nat, high: nat, low: nat)
    requires |h| == 4 && n < 1024 && h[2] as int == n / 2 % 256
    requires (h[1] & 1) as int == high == (if n >= 512 then 1 else 0)
    requires (h[3] >> 7) as int == low == (if n % 2 == 1 then 1 else 0)
    ensures SpartnPayload(h) == n
  {
    PayloadValue(n);
  }

  lemma HeaderCrcType(h: seq<byte>, crcType: nat, bits: byte)
    requires |h| == 4 && crcType < 4 && (h[3] >> 4) & 3 == bits
    requires bits as int == (if crcType / 2 == 1 then 2 else 0) + if crcType % 2 == 1 then 1 else 0
    ensures SpartnCrcBytes(h) == crcType + 1
  {
  }

  lemma HeaderLengthOf(kind: byte, n: nat, odd: bool, h: seq<byte>)
    requires |h| == 4 && n < 1024 && h[1] == TypeByte(kind, n) && h[2] as int == n / 2 % 256
    requires h[3] >> 7 == BitValue(odd, 1) && odd == (n % 2 == 1)
    ensures SpartnPayload(h) == n && h[1] & 0xFE == kind & 0xFE
  {
    TypeByteFields(kind, n >= 512, h[1]);
    SmallValues(n >= 512, false, false);
    SmallValues(odd, false, false);
    HeaderLength(h, n, (h[1] & 1) as int, (h[3] >> 7) as int);
  }

  lemma HeaderCrcTypeOf(crcType: nat, t1: bool, t0: bool, h: seq<byte>)
    requires |h| == 4 && crcType < 4 && t1 == (crcType / 2 == 1) && t0 == (crcType % 2 == 1)
    requires (h[3] >> 4) & 3 == BitValue(t1, 2) | BitValue(t0, 1)
    ensures SpartnCrcBytes(h) == crcType + 1
  {
    SmallValues(false, t1, t0);
    HeaderCrcType(h, crcType, (h[3] >> 4) & 3);
  }

  lemma HeaderFields(kind: byte, encrypted: bool, crcType: nat, n: nat, flags: byte, r: Bits, crc: byte, h: seq<byte>)
    requires |h| == 4 && n < 1024 && crcType < 4 && |r| == 4
    requires h[1] == TypeByte(kind, n) && h[2] as int == n / 2 % 256 && h[3] == flags | crc
    requires flags == FlagBits(n, encrypted, crcType) && crc == NibbleByte(r)
    ensures SpartnPayload(h) == n && h[1] & 0xFE == kind & 0xFE
    ensures SpartnEncrypted(h) == encrypted && SpartnCrcBytes(h) == crcType + 1
    ensures h[3] & 0xF0 == flags && h[3] & 0x0F == crc
  {
    var odd, t1, t0 := n % 2 == 1, crcType / 2 == 1, crcType % 2 == 1;
    FlagByteFields(odd, encrypted, t1, t0, r[0], r[1], r[2], r[3], flags, crc, h[3]);
    HeaderLengthOf(kind, n, odd, h);
    HeaderCrcTypeOf(crcType, t1, t0, h);
  }

  /** The header gives its fields back, and its CRC-4 is right. */
  lemma SpartnHeaderRoundTrip(kind: byte, encrypted: bool, crcType: nat, n: nat, h: seq<byte>)
    requires n < 1024 && crcType < 4 && h == HeaderBytes(kind, encrypted, crcType, n)
    ensures h[0] == 0x73 && SpartnHeaderOk(h) && h[1] & 0xFE == kind & 0xFE
    ensures SpartnPayload(h) == n && SpartnEncrypted(h) == encrypted && SpartnCrcBytes(h) == crcType + 1
  {
    var flags := FlagBits(n, encrypted, crcType);
    var r := Residue(POLY4, LsbFirst, Zeros(4), [h[1], h[2], flags]);
    HeaderFields(kind, encrypted, crcType, n, flags, r, NibbleByte(r), h);
    NibbleByteBits(r, NibbleByte(r));
    HeaderIsChecked(h, flags, NibbleByte(r), r);
  }

  // ---------------------------------------------------------------------------------------
  // The frame
  // ---------------------------------------------------------------------------------------

  /** The authentication indicator, in its place in the last description byte. */
  function IndicatorBits(indicator: nat): byte
    requires indicator < 8
  {
    [0x00, 0x08, 0x10, 0x18, 0x20, 0x28, 0x30, 0x38][indicator]
  }

  /** The length code for an authentication of 64, 96, 128, 256 or 512 bits. */
  function LengthCode(n: nat): byte {
    if n == 12 then 1 else if n == 16 then 2 else if n == 32 then 3 else if n == 64 then 4 else 0
  }

  /** The lengths that an authentication can have: none unless the frame is encrypted and the indicator asks for it. */
  predicate AuthenticationFits(encrypted: bool, indicator: nat, n: nat) {
    indicator < 8 && if encrypted && indicator >= 2 then n in {8, 12, 16, 32, 64} else n == 0
  }

  /** The description has the length that the time tag flag and the encryption flag announce. */
  predicate FieldsFit(encrypted: bool, indicator: nat, description: seq<byte>, authentication: seq<byte>) {
    && description != []
    && |description| == (if description[0] & 8 == 0 then 4 else 6) + (if encrypted then 2 else 0)
    && AuthenticationFits(encrypted, indicator, |authentication|)
  }

  /** The last description byte: in an encrypted frame its six low bits are indicator and length code. */
  function LastByte(encrypted: bool, indicator: nat, last: byte, n: nat): byte
    requires indicator < 8
  {
    if encrypted then (last & 0xC0) | IndicatorBits(indicator) | LengthCode(n) else last
  }

  lemma IndicatorComesBack(indicator: nat, bits: byte, code: byte, b: byte)
    requires indicator < 8 && bits == IndicatorBits(indicator) && code <= 4 && b & 0x3F == bits | code
    ensures ((b >> 3) & 7) as int == indicator && b & 7 == code
  {
    assert bits & 0x07 == 0;
    if indicator == 0 {} else if indicator == 1 {} else if indicator == 2 {} else if indicator == 3 {}
    else if indicator == 4 {} else if indicator == 5 {} else if indicator == 6 {} else {}
  }

  lemma LengthComesBack(indicator: nat, n: nat, b: byte)
    requires indicator >= 2 && n in {8, 12, 16, 32, 64}
    requires ((b >> 3) & 7) as int == indicator && b & 7 == LengthCode(n)
    ensures AuthenticationBytes(true, b) == n
  {
  }

  /** Exactly the encoded number of authentication bytes is announced. */
  lemma AuthenticationComesBack(encrypted: bool, indicator: nat, last: byte, n: nat)
    requires AuthenticationFits(encrypted, indicator, n)
    ensures AuthenticationBytes(encrypted, LastByte(encrypted, indicator, last, n)) == n
    ensures encrypted ==> LastByte(encrypted, indicator, last, n) & 0xC0 == last & 0xC0
    ensures encrypted ==> ((LastByte(encrypted, indicator, last, n) >> 3) & 7) as int == indicator
  {
    if encrypted {
      var bits, code, b := IndicatorBits(indicator), LengthCode(n), LastByte(encrypted, indicator, last, n);
      MarkedByte(last, bits, code, b);
      IndicatorComesBack(indicator, bits, code, b);
      if indicator >= 2 {
        LengthComesBack(indicator, n, b);
      } else {
        NoAuthentication(true, b, indicator);
      }
    }
  }

  lemma MarkedByte(last: byte, bits: byte, code: byte, b: byte)
    requires bits & 0xC7 == 0 && code <= 7 && b == (last & 0xC0) | bits | code
    ensures b & 0xC0 == last & 0xC0 && b & 0x3F == bits | code
  {
  }

  /** Indicators 0 and 1, and frames without encryption, announce no authentication. */
  lemma NoAuthentication(encrypted: bool, b: byte, indicator: nat)
    requires ((b >> 3) & 7) as int == indicator && (indicator <= 1 || !encrypted)
    ensures AuthenticationBytes(encrypted, b) == 0
  {
  }

  /** The length codes 4 to 7 all announce 64 bytes. */
  lemma LongAuthentication(b: byte)
    requires (b >> 3) & 7 >= 2 && b & 7 >= 4
    ensures AuthenticationBytes(true, b) == 64
  {
  }

  function Marked(encrypted: bool, indicator: nat, description: seq<byte>, n: nat): (d: seq<byte>)
    requires indicator < 8 && description != []
    ensures |d| == |description|
  {
    var last := |description| - 1;
    description[..last] + [LastByte(encrypted, indicator, description[last], n)]
  }

  /**
   The trailer over everything behind the preamble, high byte first: CRC-8, CRC-16 or CRC-24Q from a
   cleared register, or CRC-32 with all-ones seed and final inversion.
   */
  function TrailerBits(crcType: nat, covered: seq<byte>): (r: Bits)
    requires crcType < 4
    ensures |r| == 8 * (crcType + 1)
  {
    if crcType == 0 then Residue(POLY8, MsbFirst, Zeros(8), covered)
    else if crcType == 1 then Residue(POLY16, MsbFirst, Zeros(16), covered)
    else if crcType == 2 then Residue(POLY24, MsbFirst, Zeros(24), covered)
    else Not(Residue(POLY32, MsbFirst, Ones(32), covered))
  }

  function EncodeSpartn(kind: byte, encrypted: bool, crcType: nat, indicator: nat,
                        description: seq<byte>, payload: seq<byte>, authentication: seq<byte>): (f: seq<byte>)
    requires crcType < 4 && indicator < 8 && description != [] && |payload| < 1024
    ensures |f| == 5 + |description| + |payload| + |authentication| + crcType
  {
    var body := HeaderBytes(kind, encrypted, crcType, |payload|)
                + Marked(encrypted, indicator, description, |authentication|) + payload + authentication;
    body + Packed(MsbFirst, TrailerBits(crcType, body[1..]))
  }

  /** The fields of a frame are those of its header. */
  lemma FieldsOfHeader(h: seq<byte>, f: seq<byte>)
    requires |h| == 4 <= |f| && f[..4] == h
    ensures SpartnHeaderOk(f) == SpartnHeaderOk(h) && SpartnPayload(f) == SpartnPayload(h)
    ensures SpartnEncrypted(f) == SpartnEncrypted(h) && SpartnCrcBytes(f) == SpartnCrcBytes(h)
  {
    assert h[0] == f[0] && h[1] == f[1] && h[2] == f[2] && h[3] == f[3];
  }

  lemma DescriptionOf(f: seq<byte>, encrypted: bool, d: seq<byte>, n: nat)
    requires d != [] && |f| >= 4 + |d| && SpartnEncrypted(f) == encrypted
    requires |d| == (if d[0] & 8 == 0 then 4 else 6) + (if encrypted then 2 else 0)
    requires AuthenticationBytes(encrypted, d[|d| - 1]) == n
    requires f[4] == d[0] && f[3 + |d|] == d[|d| - 1]
    ensures SpartnDescription(f) == |d| && SpartnEmbedded(f) == n
  {
  }

  lemma AnnouncedBy(p: Routine, f: seq<byte>)
    requires p.Spartn? && |f| >= 5 && f[0] == 0x73 && SpartnHeaderOk(f) && |f| >= 4 + SpartnDescription(f)
    requires |f| == 4 + SpartnDescription(f) + SpartnPayload(f) + SpartnEmbedded(f) + SpartnCrcBytes(f)
    ensures Announced(p, f) && (SpartnFrame(f) <==> SpartnPayload(f) >= 1)
  {
  }

  /** `d` is the description as it is sent. */
  predicate Sends(encrypted: bool, d: seq<byte>, n: nat) {
    && d != [] && |d| == (if d[0] & 8 == 0 then 4 else 6) + (if encrypted then 2 else 0)
    && AuthenticationBytes(encrypted, d[|d| - 1]) == n
  }

  lemma MarkedSends(encrypted: bool, indicator: nat, description: seq<byte>, authentication: seq<byte>, d: seq<byte>)
    requires FieldsFit(encrypted, indicator, description, authentication)
    requires d == Marked(encrypted, indicator, description, |authentication|)
    ensures Sends(encrypted, d, |authentication|)
  {
    AuthenticationComesBack(encrypted, indicator, description[|description| - 1], |authentication|);
    assert d[0] == description[0];
  }

  lemma LayoutOf(h: seq<byte>, encrypted: bool, crcType: nat, d: seq<byte>, payload: seq<byte>,
                 authentication: seq<byte>, trailer: seq<byte>, f: seq<byte>)
    requires |h| == 4 && h[0] == 0x73 && SpartnHeaderOk(h) && |trailer| == crcType + 1
    requires SpartnPayload(h) == |payload| && SpartnEncrypted(h) == encrypted && SpartnCrcBytes(h) == crcType + 1
    requires Sends(encrypted, d, |authentication|)
    requires f == h + d + payload + authentication + trailer
    ensures Announced(Spartn, f) && (SpartnFrame(f) <==> payload != []) && SpartnCrcBytes(f) == crcType + 1
  {
    FieldsOfHeader(h, f);
    DescriptionOf(f, encrypted, d, |authentication|);
    AnnouncedBy(Spartn, f);
  }

  lemma SlicesOf(h: seq<byte>, d: seq<byte>, payload: seq<byte>, authentication: seq<byte>,
                 trailer: seq<byte>, body: seq<byte>, f: seq<byte>)
    requires |h| == 4 && body == h + d + payload + authentication && f == body + trailer
    ensures f == h + d + payload + authentication + trailer && f[..4] == h
    ensures f[1..|f| - |trailer|] == body[1..] && f[|f| - |trailer|..] == trailer
    ensures f[4..4 + |d|] == d && f[4 + |d|..4 + |d| + |payload|] == payload
    ensures f[4 + |d| + |payload|..|f| - |trailer|] == authentication
  {
  }

  lemma TrailerIsChecked(f: seq<byte>, crcType: nat, covered: seq<byte>, r: Bits)
    requires |f| >= 8 && crcType < 4 && SpartnCrcBytes(f) == crcType + 1 && covered == f[1..|f| - crcType - 1]
    requires r == TrailerBits(crcType, covered) && MessageBits(MsbFirst, f[|f| - crcType - 1..]) == r
    ensures ChecksumOk(Spartn, f)
  {
    SpartnTrailer(f, crcType + 1, covered, f[|f| - crcType - 1..]);
  }

  lemma FrameOf(h: seq<byte>, encrypted: bool, crcType: nat, d: seq<byte>, payload: seq<byte>,
                authentication: seq<byte>, body: seq<byte>, trailer: seq<byte>, r: Bits, f: seq<byte>)
    requires |h| == 4 && h[0] == 0x73 && SpartnHeaderOk(h) && crcType < 4 && |trailer| == crcType + 1
    requires SpartnPayload(h) == |payload| && SpartnEncrypted(h) == encrypted && SpartnCrcBytes(h) == crcType + 1
    requires Sends(encrypted, d, |authentication|)
    requires body == h + d + payload + authentication && f == body + trailer
    requires r == TrailerBits(crcType, body[1..]) && MessageBits(MsbFirst, trailer) == r
    ensures Announced(Spartn, f) && (SpartnFrame(f) <==> payload != []) && ChecksumOk(Spartn, f)
    ensures f[1] == h[1] && SpartnEncrypted(f) == encrypted && SpartnCrcBytes(f) == crcType + 1
  {
    SlicesOf(h, d, payload, authentication, trailer, body, f);
    LayoutOf(h, encrypted, crcType, d, payload, authentication, trailer, f);
    FieldsOfHeader(h, f);
    TrailerIsChecked(f, crcType, body[1..], r);
  }

  /** What the receiver finds in the frame. */
  predicate GivesBack(f: seq<byte>, kind: byte, encrypted: bool, crcType: nat, indicator: nat,
                      description: seq<byte>, payload: seq<byte>, authentication: seq<byte>)
    requires |f| == 5 + |description| + |payload| + |authentication| + crcType && description != []
  {
    var n := |description|;
    && f[1] & 0xFE == kind & 0xFE && SpartnEncrypted(f) == encrypted && SpartnCrcBytes(f) == crcType + 1
    && f[4..3 + n] == description[..n - 1] && f[4 + n..4 + n + |payload|] == payload
    && f[4 + n + |payload|..|f| - crcType - 1] == authentication
    && (if encrypted then f[3 + n] & 0xC0 == description[n - 1] & 0xC0 && ((f[3 + n] >> 3) & 7) as int == indicator
        else f[3 + n] == description[n - 1])
  }

  lemma MarkedGivesBack(f: seq<byte>, d: seq<byte>, kind: byte, encrypted: bool, crcType: nat, indicator: nat,
                        description: seq<byte>, payload: seq<byte>, authentication: seq<byte>)
    requires FieldsFit(encrypted, indicator, description, authentication)
    requires |f| == 5 + |description| + |payload| + |authentication| + crcType
    requires d == Marked(encrypted, indicator, description, |authentication|) && f[4..4 + |d|] == d
    requires f[1] & 0xFE == kind & 0xFE && SpartnEncrypted(f) == encrypted && SpartnCrcBytes(f) == crcType + 1
    requires f[4 + |d|..4 + |d| + |payload|] == payload && f[4 + |d| + |payload|..|f| - crcType - 1] == authentication
    ensures GivesBack(f, kind, encrypted, crcType, indicator, description, payload, authentication)
  {
    var n := |description|;
    AuthenticationComesBack(encrypted, indicator, description[n - 1], |authentication|);
    assert f[3 + n] == d[n - 1];
    assert f[4..3 + n] == d[..n - 1] == description[..n - 1];
  }

  lemma PartsRoundTrip(kind: byte, encrypted: bool, crcType: nat, indicator: nat,
                       description: seq<byte>, payload: seq<byte>, authentication: seq<byte>,
                       h: seq<byte>, d: seq<byte>, body: seq<byte>, trailer: seq<byte>, r: Bits, f: seq<byte>)
    requires crcType < 4 && |payload| < 1024 && FieldsFit(encrypted, indicator, description, authentication)
    requires h == HeaderBytes(kind, encrypted, crcType, |payload|)
    requires d == Marked(encrypted, indicator, description, |authentication|)
    requires body == h + d + payload + authentication && f == body + trailer && |trailer| == crcType + 1
    requires r == TrailerBits(crcType, body[1..]) && MessageBits(MsbFirst, trailer) == r
    ensures Announced(Spartn, f) && (SpartnFrame(f) <==> payload != []) && ChecksumOk(Spartn, f)
    ensures |f| == 5 + |description| + |payload| + |authentication| + crcType
    ensures GivesBack(f, kind, encrypted, crcType, indicator, description, payload, authentication)
  {
    SpartnHeaderRoundTrip(kind, encrypted, crcType, |payload|, h);
    MarkedSends(encrypted, indicator, description, authentication, d);
    FrameOf(h, encrypted, crcType, d, payload, authentication, body, trailer, r, f);
    SlicesOf(h, d, payload, authentication, trailer, body, f);
    MarkedGivesBack(f, d, kind, encrypted, crcType, indicator, description, payload, authentication);
  }

  /** All fields come back and both checksums are right; the frame is complete unless there is no payload. */
  lemma SpartnRoundTrip(kind: byte, encrypted: bool, crcType: nat, indicator: nat,
                        description: seq<byte>, payload: seq<byte>, authentication: seq<byte>)
    requires crcType < 4 && |payload| < 1024 && FieldsFit(encrypted, indicator, description, authentication)
    ensures var f := EncodeSpartn(kind, encrypted, crcType, indicator, description, payload, authentication);
            && Announced(Spartn, f) && (SpartnFrame(f) <==> payload != []) && ChecksumOk(Spartn, f)
            && GivesBack(f, kind, encrypted, crcType, indicator, description, payload, authentication)
  {
    var h, d := HeaderBytes(kind, encrypted, crcType, |payload|),
                Marked(encrypted, indicator, description, |authentication|);
    var body := h + d + payload + authentication;
    var r := TrailerBits(crcType, body[1..]);
    var f := EncodeSpartn(kind, encrypted, crcType, indicator, description, payload, authentication);
    BitsOfPacked(MsbFirst, r);
    PartsRoundTrip(kind, encrypted, crcType, indicator, description, payload, authentication, h, d, body,
                   Packed(MsbFirst, r), r, f);
  }
}
