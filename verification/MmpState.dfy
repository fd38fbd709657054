/**
 The fields of the multi-protocol parser, and what they hold when a message has been read in
 part.
 */
module MmpState {
  import opened Bytes
  import opened Gf2
  import opened Crc
  import opened CrcEngines
  import opened WordBytes
  import opened Formats
  import opened Tracking
  import opened ParserState

  datatype MmpNmeaState =
    | FindFirstComma | FindAsterisk | ChecksumByte1 | ChecksumByte2 | LineTermination

  datatype MmpUbloxState =
    | Sync2 | ReadClass | ReadMessageId | ReadLength | ReadData | ChecksumA | ChecksumB

  /** The state routine that receives the next byte. */
  datatype MmpPhase =
    | Searching
    | InSemp(semp: BinaryState)
    | InNmea(nmea: MmpNmeaState)
    | InUblox(ublox: MmpUbloxState)

  datatype MmpScratch =
    | SempData(crc: bv32, remaining: nat)
    | NmeaData(name: seq<byte>, nameLength: nat)
    | UbloxData(checksumA: byte, checksumB: byte, bytesRemaining: nat)

  /** `lengthBytes` is the static variable of the u-blox length routine. */
  datatype MmpFields = MmpFields(phase: MmpPhase, computing: bool, crc: bv32, scratch: MmpScratch, lengthBytes: nat)

  const MMP_TABLE: seq<Routine> := [MmpSemp, MmpNmea, MmpUblox, MmpRtcm]

  // ---------------------------------------------------------------------------------------
  // SEMP
  // ---------------------------------------------------------------------------------------

  // Both are stated over a bound variable so that they are unfolded only where the register itself
  // is mentioned.

  /** The CRC of the bytes so far. */
  predicate RunningCrc(crc: bv32, m: seq<byte>) {
    forall b | b == m :: Bits32(crc) == Residue(POLY32, LsbFirst, Ones(32), b)
  }

  /** The stored CRC is that of the bytes before the trailer. */
  predicate StoredCrc(crc: bv32, covered: seq<byte>) {
    forall b | b == covered :: Bits32(crc) == Not(Residue(POLY32, LsbFirst, Ones(32), b))
  }

  predicate SempShape(f: MmpFields, m: seq<byte>) {
    && f.phase.InSemp? && f.computing && f.lengthBytes == 0
    && (f.phase.semp in {BinaryReadData, BinaryReadCrc} ==> f.scratch.SempData?)
    && BinaryShape(f.phase.semp, if f.scratch.SempData? then f.scratch.remaining else 0, 0x18, 20, MmpSempSize(m), m)
  }

  predicate SempCovers(f: MmpFields, m: seq<byte>)
    requires SempShape(f, m)
  {
    if f.phase.semp == BinaryReadCrc then StoredCrc(f.scratch.crc, m[..MmpSempSize(m) - 4])
    else RunningCrc(f.crc, m)
  }

  predicate SempTracks(f: MmpFields, m: seq<byte>) {
    SempShape(f, m) && SempCovers(f, m)
  }

  lemma SempDataOpens(n: seq<byte>, length: nat, size: nat)
    requires |n| == 20 && n[0] == 0xAA && n[1] == 0x44 && n[2] == 0x18 && size == 24 + length && length <= 65535
    ensures BinaryVerdict(n, 0x18, 20, size) == Partial
    ensures if length == 0 then BinaryShape(BinaryReadCrc, 4, 0x18, 20, size, n)
            else BinaryShape(BinaryReadData, length, 0x18, 20, size, n)
  {
  }

  /** The last header byte opens the data, or the trailer when there is no data. */
  lemma SempHeaderEnd(m: seq<byte>, data: byte, remaining: int, length: int)
    requires BinaryShape(BinaryReadHeader, remaining, 0x18, 20, MmpSempSize(m), m) && |m| + 1 == 20
    requires length == CustomLength(m + [data])
    ensures (m + [data])[3] != 0x14 ==> MmpSempVerdict(m + [data]) == Dropped
    ensures (m + [data])[3] == 0x14 ==> MmpSempVerdict(m + [data]) == Partial
    ensures if length == 0 then BinaryShape(BinaryReadCrc, 4, 0x18, 20, MmpSempSize(m + [data]), m + [data])
            else BinaryShape(BinaryReadData, length, 0x18, 20, MmpSempSize(m + [data]), m + [data])
    ensures length == 0 ==> MmpSempSize(m + [data]) - 4 == |m| + 1
  {
    SempDataOpens(m + [data], length, MmpSempSize(m + [data]));
  }

  lemma SempHeaderMore(m: seq<byte>, data: byte, remaining: int)
    requires BinaryShape(BinaryReadHeader, remaining, 0x18, 20, MmpSempSize(m), m) && |m| + 1 < 20
    ensures MmpSempVerdict(m + [data]) == Partial
    ensures BinaryShape(BinaryReadHeader, remaining, 0x18, 20, MmpSempSize(m + [data]), m + [data])
  {
  }

  lemma SempInvertedCrc(crc: bv32, inverted: bv32, m: seq<byte>)
    requires RunningCrc(crc, m) && inverted == crc ^ 0xFFFFFFFF
    ensures StoredCrc(inverted, m)
  {
    InvertedWord(crc, inverted);
  }

  /** Before the trailer the running CRC is kept; on reaching it the inverted CRC is stored. */
  lemma SempStillTracks(f: MmpFields, m: seq<byte>, crc: bv32)
    requires SempShape(f, m) && RunningCrc(crc, m)
    requires if f.phase.semp == BinaryReadCrc then MmpSempSize(m) - 4 == |m| && f.scratch.crc == crc ^ 0xFFFFFFFF
             else f.crc == crc
    ensures SempTracks(f, m)
  {
    if f.phase.semp == BinaryReadCrc {
      SempInvertedCrc(crc, f.scratch.crc, m);
      assert m[..|m|] == m;
    }
  }

  /** Compares a word with four bytes, low byte first. */
  method TrailerEquals(crc: bv32, trailer: seq<byte>) returns (same: bool)
    requires |trailer| == 4
    ensures same <==> Bits32(crc) == MessageBits(LsbFirst, trailer)
  {
    var read := trailer[0] as bv32 | (trailer[1] as bv32 << 8)
                | (trailer[2] as bv32 << 16) | (trailer[3] as bv32 << 24);
    BottomWord32(crc, read, trailer[0], trailer[1], trailer[2], trailer[3]);
    assert trailer == [trailer[0], trailer[1], trailer[2], trailer[3]];
    same := read == crc;
  }

  /** A trailer byte keeps the stored CRC, and the last one leaves exactly the trailer behind it. */
  lemma SempTrailerNext(f: MmpFields, m: seq<byte>, data: byte, remaining: nat)
    requires SempTracks(f, m) && f.phase.semp == BinaryReadCrc && remaining == U16(f.scratch.remaining - 1)
    ensures var n := m + [data];
            if remaining != 0
            then MmpSempVerdict(n) == Partial
                && forall crc :: SempTracks(f.(crc := crc, scratch := SempData(f.scratch.crc, remaining)), n)
            else MmpSempVerdict(n) == Whole && |n| >= 24 && StoredCrc(f.scratch.crc, n[..|n| - 4])
  {
    BinaryCrcStep(m, data, f.scratch.remaining, 0x18, 20, MmpSempSize(m));
    var n := m + [data];
    var k := MmpSempSize(m) - 4;
    assert MmpSempSize(n) == MmpSempSize(m) && n[..k] == m[..k];
  }

  // ---------------------------------------------------------------------------------------
  // NMEA
  // ---------------------------------------------------------------------------------------

  predicate NmeaFollows(f: MmpFields, bufferLength: nat, m: seq<byte>) {
    && f.phase.InNmea? && !f.computing && f.lengthBytes == 0
    && match f.phase.nmea
       case FindFirstComma =>
         InName(MmpNmea, m) && XorHolds(f.crc, m[1..])
         && f.scratch.NmeaData? && NameHolds(f.scratch.name, f.scratch.nameLength, m)
       case FindAsterisk => InBody(MmpNmea, bufferLength, m) && XorHolds(f.crc, m[1..])
       case ChecksumByte1 => InChecksum(MmpNmea, bufferLength, 0, m) && XorHolds(f.crc, m[1..Find(m, STAR)])
       case ChecksumByte2 => InChecksum(MmpNmea, bufferLength, 1, m) && XorHolds(f.crc, m[1..Find(m, STAR)])
       case LineTermination => InChecksum(MmpNmea, bufferLength, 2, m) && XorHolds(f.crc, m[1..Find(m, STAR)])
  }

  /** The sentence is ready exactly in the last state. */
  lemma NmeaIsReady(f: MmpFields, bufferLength: nat, m: seq<byte>)
    requires NmeaFollows(f, bufferLength, m)
    ensures Ready(MmpNmea, m) <==> f.phase.nmea == LineTermination
    ensures Ready(MmpNmea, m) ==> |m| + 2 <= bufferLength
  {
  }

  lemma NmeaNameNext(f: MmpFields, bufferLength: nat, m: seq<byte>, data: byte, crc: bv32, s: MmpScratch)
    requires NmeaFollows(f, bufferLength, m) && f.phase.nmea == FindFirstComma && XorHolds(crc, (m + [data])[1..])
    ensures var n := m + [data];
            if data == COMMA && f.scratch.nameLength != 0 then
              SentenceVerdict(MmpNmea, bufferLength, n) == Partial
              && NmeaFollows(f.(phase := InNmea(FindAsterisk), crc := crc, scratch := s), bufferLength, n)
            else if !IsNameChar(data) || f.scratch.nameLength >= 15
                then SentenceVerdict(MmpNmea, bufferLength, n) == Broken
            else
              SentenceVerdict(MmpNmea, bufferLength, n) == Partial
              && NmeaFollows(f.(crc := crc, scratch := NmeaData(f.scratch.name[f.scratch.nameLength := data],
                                                                f.scratch.nameLength + 1)), bufferLength, n)
  {
    NameStep(MmpNmea, bufferLength, m, data);
    if f.scratch.nameLength < 15 {
      NameAppend(f.scratch.name, f.scratch.nameLength, m, data);
    }
  }

  lemma NmeaBodyNext(f: MmpFields, bufferLength: nat, m: seq<byte>, data: byte, crc: bv32)
    requires NmeaFollows(f, bufferLength, m) && f.phase.nmea == FindAsterisk && XorHolds(crc, (m + [data])[1..])
    requires bufferLength >= 32
    ensures var n := m + [data];
            if data == STAR then
              SentenceVerdict(MmpNmea, bufferLength, n) == Partial
              && NmeaFollows(f.(phase := InNmea(ChecksumByte1)), bufferLength, n)
            else if |m| + 6 > bufferLength then SentenceVerdict(MmpNmea, bufferLength, n) == Broken
            else SentenceVerdict(MmpNmea, bufferLength, n) == Partial && NmeaFollows(f.(crc := crc), bufferLength, n)
  {
    BodyStep(MmpNmea, bufferLength, m, data);
    XorAtStar(f.crc, m);
  }

  // ---------------------------------------------------------------------------------------
  // u-blox
  // ---------------------------------------------------------------------------------------

  predicate UbloxHolds(ph: MmpUbloxState, v: MmpScratch, lengthBytes: nat, m: seq<byte>) {
    && 1 <= |m| && m[0] == 0xB5
    && (|m| >= 2 ==> m[1] == 0x62)
    && lengthBytes == (if ph == ReadLength && |m| == 5 then 1 else 0)
    && match ph
       case Sync2 => |m| == 1
       case ReadClass => |m| == 2
       case ReadMessageId => |m| == 3
       case ReadLength =>
         && 4 <= |m| <= 5 && v.UbloxData? && (v.checksumA, v.checksumB) == Fletcher(m[2..])
         && (|m| == 5 ==> v.bytesRemaining == m[4] as int)
       case ReadData =>
         && v.UbloxData? && 6 <= |m| < UbloxSize(m) - 2 && (v.checksumA, v.checksumB) == Fletcher(m[2..])
         && v.bytesRemaining == UbloxSize(m) - 2 - |m|
       case ChecksumA =>
         && v.UbloxData? && 6 <= |m| == UbloxSize(m) - 2 && (v.checksumA, v.checksumB) == Fletcher(m[2..])
       case ChecksumB =>
         && v.UbloxData? && 7 <= |m| == UbloxSize(m) - 1
         && (v.checksumA, v.checksumB) == Fletcher(m[2..|m| - 1]) && m[|m| - 1] == v.checksumA
  }

  predicate UbloxFollows(f: MmpFields, m: seq<byte>) {
    f.phase.InUblox? && !f.computing && UbloxHolds(f.phase.ublox, f.scratch, f.lengthBytes, m)
  }

  lemma UbloxSums(m: seq<byte>, data: byte, ck: (byte, byte))
    requires |m| >= 2 && ck == Fletcher(m[2..])
    ensures Add(ck, data) == Fletcher((m + [data])[2..])
  {
    FletcherAppend(m[2..], data);
    assert (m + [data])[2..] == m[2..] + [data];
  }

  lemma UbloxStartsSums(m: seq<byte>, data: byte)
    requires |m| == 3
    ensures Add(Add((0, 0), m[2]), data) == Fletcher((m + [data])[2..])
  {
    assert m[2..] == [] + [m[2]];
    FletcherAppend([], m[2]);
    UbloxSums(m, data, Fletcher(m[2..]));
  }

  lemma UbloxLengthNext(m: seq<byte>, data: byte, v: MmpScratch, lengthBytes: nat, ck: (byte, byte))
    requires UbloxHolds(ReadLength, v, lengthBytes, m) && ck == Add((v.checksumA, v.checksumB), data)
    ensures MmpUbloxVerdict(m + [data]) == Partial
    ensures if lengthBytes == 0 then UbloxHolds(ReadLength, UbloxData(ck.0, ck.1, data as int), 1, m + [data])
            else var r := v.bytesRemaining + 256 * (data as int);
              UbloxHolds(if r == 0 then ChecksumA else ReadData, UbloxData(ck.0, ck.1, r), 0, m + [data])
  {
    UbloxSums(m, data, (v.checksumA, v.checksumB));
  }

  /** The fields after a length byte: the low byte first, then the high byte. */
  function UbloxLengthStep(f: MmpFields, ck: (byte, byte), value: nat): MmpFields
    requires f.scratch.UbloxData?
  {
    if f.lengthBytes == 0 then f.(scratch := UbloxData(ck.0, ck.1, value), lengthBytes := 1)
    else
      var r := f.scratch.bytesRemaining + 256 * value;
      f.(phase := InUblox(if r == 0 then ChecksumA else ReadData), scratch := UbloxData(ck.0, ck.1, r),
         lengthBytes := 0)
  }

  lemma UbloxLowLength(f: MmpFields, f': MmpFields, m: seq<byte>, data: byte, ck: (byte, byte), r: nat)
    requires UbloxFollows(f, m) && f.phase.ublox == ReadLength && f.lengthBytes == 0 && r == data as int
    requires ck == Add((f.scratch.checksumA, f.scratch.checksumB), data)
    requires f' == f.(scratch := UbloxData(ck.0, ck.1, r), lengthBytes := 1)
    ensures MmpUbloxVerdict(m + [data]) == Partial && UbloxFollows(f', m + [data])
  {
    UbloxLengthNext(m, data, f.scratch, f.lengthBytes, ck);
  }

  lemma UbloxHighLength(f: MmpFields, f': MmpFields, m: seq<byte>, data: byte, ck: (byte, byte), r: nat)
    requires UbloxFollows(f, m) && f.phase.ublox == ReadLength && f.lengthBytes != 0
    requires ck == Add((f.scratch.checksumA, f.scratch.checksumB), data)
             && r == f.scratch.bytesRemaining + 256 * (data as int)
    requires f' == f.(phase := InUblox(if r == 0 then ChecksumA else ReadData), scratch := UbloxData(ck.0, ck.1, r),
                      lengthBytes := 0)
    ensures MmpUbloxVerdict(m + [data]) == Partial && UbloxFollows(f', m + [data])
  {
    UbloxLengthNext(m, data, f.scratch, f.lengthBytes, ck);
  }

  lemma UbloxLengthMoves(f: MmpFields, f': MmpFields, m: seq<byte>, data: byte, ck: (byte, byte), value: nat)
    requires UbloxFollows(f, m) && f.phase.ublox == ReadLength && f' == UbloxLengthStep(f, ck, value)
    requires ck == Add((f.scratch.checksumA, f.scratch.checksumB), data) && value == data as int
    ensures MmpUbloxVerdict(m + [data]) == Partial && UbloxFollows(f', m + [data])
  {
    if f.lengthBytes == 0 {
      UbloxLowLength(f, f', m, data, ck, value);
    } else {
      UbloxHighLength(f, f', m, data, ck, f.scratch.bytesRemaining + 256 * value);
    }
  }

  lemma UbloxDataNext(m: seq<byte>, data: byte, v: MmpScratch, ck: (byte, byte))
    requires UbloxHolds(ReadData, v, 0, m) && ck == Add((v.checksumA, v.checksumB), data)
    ensures MmpUbloxVerdict(m + [data]) == Partial && v.bytesRemaining >= 1
    ensures UbloxHolds(if v.bytesRemaining - 1 == 0 then ChecksumA else ReadData,
                       UbloxData(ck.0, ck.1, v.bytesRemaining - 1), 0, m + [data])
  {
    UbloxSums(m, data, (v.checksumA, v.checksumB));
  }

  lemma UbloxANext(m: seq<byte>, data: byte, v: MmpScratch)
    requires UbloxHolds(ChecksumA, v, 0, m)
    ensures if data == v.checksumA then MmpUbloxVerdict(m + [data]) == Partial
            && UbloxHolds(ChecksumB, v, 0, m + [data])
            else MmpUbloxVerdict(m + [data]) == Failed
  {
    assert (m + [data])[2..|m|] == m[2..];
  }

  lemma UbloxBNext(m: seq<byte>, data: byte, v: MmpScratch)
    requires UbloxHolds(ChecksumB, v, 0, m)
    ensures MmpUbloxVerdict(m + [data]) == Whole && |m + [data]| >= 8
    ensures data == v.checksumB <==> UbloxOk(m + [data])
  {
    UbloxCkBStep(m, data, 0, (v.checksumA, v.checksumB));
  }

  // ---------------------------------------------------------------------------------------
  // All protocols
  // ---------------------------------------------------------------------------------------

  predicate MmpTracks(p: Routine, bufferLength: nat, f: MmpFields, m: seq<byte>) {
    match p
    case MmpSemp => SempTracks(f, m)
    case MmpNmea => NmeaFollows(f, bufferLength, m)
    case MmpUblox => UbloxFollows(f, m)
    case _ => false
  }

  /** The same, stated so that it is unfolded only where a protocol's own predicate is at hand. */
  predicate MmpFollows(p: Routine, bufferLength: nat, f: MmpFields, m: seq<byte>) {
    forall b | b == bufferLength :: MmpTracks(p, b, f, m)
  }

  /** The fields right after a preamble has been claimed. */
  predicate MmpBegun(p: Routine, f: MmpFields, data: byte) {
    f.lengthBytes == 0 &&
    match p
    case MmpSemp => f.phase == InSemp(BinarySync2) && f.computing
                    && RunningCrc(f.crc, [data])
    case MmpNmea => f.phase == InNmea(FindFirstComma) && !f.computing && f.crc == 0
                    && f.scratch.NmeaData? && |f.scratch.name| == 16 && f.scratch.nameLength == 0
    case MmpUblox => f.phase == InUblox(Sync2) && !f.computing
    case _ => false
  }

  lemma MmpBegunTracks(p: Routine, bufferLength: nat, f: MmpFields, data: byte)
    requires MmpBegun(p, f, data) && Preamble(p, data)
    ensures MmpTracks(p, bufferLength, f, [data]) && f.phase != Searching
  {
    assert [data][..0] == [];
  }
}
