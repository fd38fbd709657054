/**
 The fields of the parse structure, and what they hold when a message has been read in part.
 */
module ParserState {
  import opened Bytes
  import opened Gf2
  import opened Crc
  import opened CrcEngines
  import opened WordBytes
  import opened Formats
  import opened Stream
  import opened Tracking

  datatype NmeaState =
    | NmeaFindFirstComma | NmeaFindAsterisk | NmeaChecksumByte1 | NmeaChecksumByte2
    | NmeaLineTermination | NmeaCarriageReturn | NmeaLineFeed

  datatype HashState =
    | HashFindFirstComma | HashFindAsterisk | HashChecksumByte
    | HashLineTermination | HashCarriageReturn | HashLineFeed

  /** The state routine that receives the next byte. */
  datatype Phase =
    | FirstByte
    | NmeaPhase(nmea: NmeaState)
    | RtcmPhase(rtcm: RtcmState)
    | UbloxPhase(ublox: UbloxState)
    | HashPhase(hash: HashState)
    | CustomPhase(custom: BinaryState)
    | SpartnPhase(spartn: SpartnState)
    | SbfPhase(sbf: SbfState)
    | UnicorePhase(unicore: BinaryState)

  /** The routine that updates the running CRC, when one is set. */
  datatype CrcRoutine = NoCrc | Crc24q | Crc32

  /** The scratch area that the protocol machines share, one variant at a time. */
  datatype Scratch =
    | NmeaValues(name: seq<byte>, nameLength: nat)
    | RtcmValues(remaining: nat)
    | UbloxValues(remaining: nat, ckA: byte, ckB: byte)
    | HashValues(name: seq<byte>, nameLength: nat, remaining: nat, checksumBytes: nat)
    | CustomValues(remaining: nat)
    | SpartnValues(fields: SpartnFields)
    | SbfValues(block: SbfBlock)
    | UnicoreValues(remaining: nat)

  datatype SbfBlock = SbfBlock(
    expectedCrc: bv16, computedCrc: bv16, sbfId: bv16, sbfIdRev: byte, length: nat, remaining: nat)

  datatype Fields = Fields(phase: Phase, routine: CrcRoutine, crc: bv32, scratch: Scratch)

  /** Which half of a line terminator has been read. */
  function EndingOf(phase: Phase): Ending {
    if phase == NmeaPhase(NmeaLineFeed) || phase == HashPhase(HashLineFeed) then SawCr
    else if phase == NmeaPhase(NmeaCarriageReturn) || phase == HashPhase(HashCarriageReturn) then SawLf
    else NoEnding
  }

  // ---------------------------------------------------------------------------------------
  // Sentences
  // ---------------------------------------------------------------------------------------

  /** The running exclusive or, kept in the CRC field; unfolded only where it is mentioned. */
  predicate XorHolds(crc: bv32, s: seq<byte>) {
    forall b | b == s :: crc == XorAll(b) as bv32
  }

  lemma XorWords(a: byte, b: byte)
    ensures a as bv32 ^ b as bv32 == (a ^ b) as bv32
  {
  }

  lemma XorStep(crc: bv32, s: seq<byte>, data: byte)
    requires XorHolds(crc, s)
    ensures XorHolds(crc ^ data as bv32, s + [data])
  {
    assert (s + [data])[..|s|] == s;
    XorWords(XorAll(s), data);
  }

  lemma XorValue(b: byte)
    ensures (b as bv32) as int == b as int
  {
  }

  /** The characters of the name so far. */
  predicate NameHolds(name: seq<byte>, nameLength: nat, m: seq<byte>) {
    1 <= |m| && |name| == 16 && nameLength == |m| - 1 < 16 && name[..nameLength] == m[1..]
  }

  lemma NameAppend(name: seq<byte>, nameLength: nat, m: seq<byte>, data: byte)
    requires NameHolds(name, nameLength, m) && nameLength < 15
    ensures NameHolds(name[nameLength := data], nameLength + 1, m + [data])
  {
  }

  predicate NmeaTracks(f: Fields, bufferLength: nat, m: seq<byte>) {
    && f.phase.NmeaPhase? && f.routine == NoCrc
    && match f.phase.nmea
       case NmeaFindFirstComma =>
         InName(Nmea, m) && XorHolds(f.crc, m[1..])
         && f.scratch.NmeaValues? && NameHolds(f.scratch.name, f.scratch.nameLength, m)
       case NmeaFindAsterisk => InBody(Nmea, bufferLength, m) && XorHolds(f.crc, m[1..])
       case NmeaChecksumByte1 => InChecksum(Nmea, bufferLength, 0, m) && XorHolds(f.crc, m[1..Find(m, STAR)])
       case NmeaChecksumByte2 => InChecksum(Nmea, bufferLength, 1, m) && XorHolds(f.crc, m[1..Find(m, STAR)])
       case _ => InChecksum(Nmea, bufferLength, 2, m) && XorHolds(f.crc, m[1..Find(m, STAR)])
  }

  predicate HashTracks(f: Fields, bufferLength: nat, m: seq<byte>) {
    && f.phase.HashPhase? && f.routine == NoCrc && f.scratch.HashValues?
    && match f.phase.hash
       case HashFindFirstComma =>
         InName(UnicoreHash, m) && XorHolds(f.crc, m[1..]) && NameHolds(f.scratch.name, f.scratch.nameLength, m)
       case HashFindAsterisk =>
         InBody(UnicoreHash, bufferLength, m) && XorHolds(f.crc, m[1..])
         && f.scratch.checksumBytes == ChecksumChars(UnicoreHash, m)
       case HashChecksumByte =>
         && f.scratch.checksumBytes == ChecksumChars(UnicoreHash, m)
         && 1 <= f.scratch.remaining <= f.scratch.checksumBytes
         && InChecksum(UnicoreHash, bufferLength, f.scratch.checksumBytes - f.scratch.remaining, m)
         && XorHolds(f.crc, m[1..Find(m, STAR)])
       case _ =>
         && f.scratch.checksumBytes == ChecksumChars(UnicoreHash, m)
         && InChecksum(UnicoreHash, bufferLength, f.scratch.checksumBytes, m)
         && XorHolds(f.crc, m[1..Find(m, STAR)])
         && (f.phase.hash != HashLineTermination ==> |m| < bufferLength)
  }

  /** Reading one more byte of the name or the body extends the covered bytes. */
  lemma XorAppend(crc: bv32, m: seq<byte>, data: byte)
    requires |m| >= 1 && XorHolds(crc, m[1..])
    ensures XorHolds(crc ^ data as bv32, (m + [data])[1..])
  {
    XorStep(crc, m[1..], data);
    assert (m + [data])[1..] == m[1..] + [data];
  }

  /** Includes a byte in the running exclusive or. */
  method XorByte(crc: bv32, ghost m: seq<byte>, data: byte) returns (value: bv32)
    requires |m| >= 1 && XorHolds(crc, m[1..])
    ensures XorHolds(value, (m + [data])[1..])
  {
    XorAppend(crc, m, data);
    value := crc ^ data as bv32;
  }

  lemma KeepsSlice(m: seq<byte>, data: byte, lo: nat, hi: nat)
    requires lo <= hi <= |m|
    ensures (m + [data])[lo..hi] == m[lo..hi]
  {
  }

  /** The asterisk ends the covered bytes. */
  lemma XorAtStar(crc: bv32, m: seq<byte>)
    requires |m| >= 1 && XorHolds(crc, m[1..]) && Find(m, STAR) == |m|
    ensures XorHolds(crc, (m + [STAR])[1..Find(m + [STAR], STAR)])
  {
    FindAppend(m, STAR, STAR);
    assert (m + [STAR])[1..|m|] == m[1..];
  }

  lemma XorAfterStar(crc: bv32, m: seq<byte>, data: byte)
    requires 1 <= Find(m, STAR) < |m| && XorHolds(crc, m[1..Find(m, STAR)])
    ensures XorHolds(crc, (m + [data])[1..Find(m + [data], STAR)])
  {
    FindAppend(m, data, STAR);
    KeepsSlice(m, data, 1, Find(m, STAR));
  }

  /** The two characters against the running exclusive or. */
  lemma XorMatches(crc: bv32, m: seq<byte>)
    requires |m| >= 3 && 1 <= Find(m, STAR) && XorHolds(crc, m[1..Find(m, STAR)])
    ensures XorOk(m) <==> 16 * AsciiToNibble(m[|m| - 2]) + AsciiToNibble(m[|m| - 1]) == crc as int
  {
    XorValue(XorAll(m[1..Find(m, STAR)]));
  }

  /** The name has just been closed by its comma. */
  lemma NameClosed(m: seq<byte>)
    requires InName(UnicoreHash, m)
    ensures Name(m + [COMMA]) == m[1..]
  {
    FindAppend(m, COMMA, COMMA);
    assert (m + [COMMA])[1..|m|] == m[1..];
  }

  lemma NameKept(m: seq<byte>, data: byte)
    requires 1 <= Find(m, COMMA) < |m|
    ensures ChecksumChars(UnicoreHash, m + [data]) == ChecksumChars(UnicoreHash, m)
  {
    FindAppend(m, data, COMMA);
    KeepsSlice(m, data, 1, Find(m, COMMA));
  }

  /** A sentence machine waits for the line terminator exactly when the sentence is ready. */
  lemma NmeaReady(f: Fields, bufferLength: nat, m: seq<byte>)
    requires NmeaTracks(f, bufferLength, m)
    ensures Ready(Nmea, m) <==> f.phase.nmea in {NmeaLineTermination, NmeaCarriageReturn, NmeaLineFeed}
    ensures Ready(Nmea, m) ==> |m| + 3 <= bufferLength
  {
  }

  lemma HashReady(f: Fields, bufferLength: nat, m: seq<byte>)
    requires HashTracks(f, bufferLength, m)
    ensures Ready(UnicoreHash, m) <==> f.phase.hash in {HashLineTermination, HashCarriageReturn, HashLineFeed}
  {
  }

  lemma NmeaNameFields(f: Fields, bufferLength: nat, m: seq<byte>, data: byte, crc: bv32, s: Scratch)
    requires NmeaTracks(f, bufferLength, m) && f.phase.nmea == NmeaFindFirstComma && XorHolds(crc, (m + [data])[1..])
    ensures var n := m + [data];
            if data == COMMA && f.scratch.nameLength != 0 then
              SentenceVerdict(Nmea, bufferLength, n) == Partial
              && NmeaTracks(Fields(NmeaPhase(NmeaFindAsterisk), f.routine, crc, s), bufferLength, n)
            else if !IsNameChar(data) || f.scratch.nameLength == 15
                then SentenceVerdict(Nmea, bufferLength, n) == Broken
            else
              SentenceVerdict(Nmea, bufferLength, n) == Partial
              && NmeaTracks(f.(crc := crc, scratch := NmeaValues(f.scratch.name[f.scratch.nameLength := data],
                                                                 f.scratch.nameLength + 1)), bufferLength, n)
  {
    NameStep(Nmea, bufferLength, m, data);
    if f.scratch.nameLength < 15 {
      NameAppend(f.scratch.name, f.scratch.nameLength, m, data);
    }
  }

  lemma NmeaBodyFields(f: Fields, bufferLength: nat, m: seq<byte>, data: byte, crc: bv32)
    requires NmeaTracks(f, bufferLength, m) && f.phase.nmea == NmeaFindAsterisk && XorHolds(crc, (m + [data])[1..])
    requires bufferLength >= 32
    ensures var n := m + [data];
            if data == STAR then
              SentenceVerdict(Nmea, bufferLength, n) == Partial
              && NmeaTracks(f.(phase := NmeaPhase(NmeaChecksumByte1)), bufferLength, n)
            else if |m| + 7 > bufferLength then SentenceVerdict(Nmea, bufferLength, n) == Broken
            else SentenceVerdict(Nmea, bufferLength, n) == Partial && NmeaTracks(f.(crc := crc), bufferLength, n)
  {
    BodyStep(Nmea, bufferLength, m, data);
    XorAtStar(f.crc, m);
  }

  lemma HashNameFields(f: Fields, bufferLength: nat, m: seq<byte>, data: byte, crc: bv32)
    requires HashTracks(f, bufferLength, m) && f.phase.hash == HashFindFirstComma && XorHolds(crc, (m + [data])[1..])
    requires data != COMMA || f.scratch.nameLength == 0
    ensures var n := m + [data];
            if !IsNameChar(data) || f.scratch.nameLength == 15
                then SentenceVerdict(UnicoreHash, bufferLength, n) == Broken
            else
              SentenceVerdict(UnicoreHash, bufferLength, n) == Partial
              && HashTracks(f.(crc := crc, scratch := HashValues(f.scratch.name[f.scratch.nameLength := data],
                                                                 f.scratch.nameLength + 1, f.scratch.remaining,
                                                                 f.scratch.checksumBytes)), bufferLength, n)
  {
    NameStep(UnicoreHash, bufferLength, m, data);
    if f.scratch.nameLength < 15 {
      NameAppend(f.scratch.name, f.scratch.nameLength, m, data);
    }
  }

  lemma HashCommaFields(f: Fields, bufferLength: nat, m: seq<byte>, crc: bv32, s: Scratch)
    requires HashTracks(f, bufferLength, m) && f.phase.hash == HashFindFirstComma && XorHolds(crc, (m + [COMMA])[1..])
    requires f.scratch.nameLength != 0
    requires s.HashValues? && s.checksumBytes == (if Contains(f.scratch.name[..f.scratch.nameLength], MODE) then 2
                                                  else 8)
    ensures SentenceVerdict(UnicoreHash, bufferLength, m + [COMMA]) == Partial
    ensures HashTracks(Fields(HashPhase(HashFindAsterisk), f.routine, crc, s), bufferLength, m + [COMMA])
  {
    NameStep(UnicoreHash, bufferLength, m, COMMA);
    NameClosed(m);
  }

  lemma HashBodyFields(f: Fields, bufferLength: nat, m: seq<byte>, data: byte, crc: bv32)
    requires HashTracks(f, bufferLength, m) && f.phase.hash == HashFindAsterisk && XorHolds(crc, (m + [data])[1..])
    requires bufferLength >= 32 && data != STAR
    ensures var n := m + [data];
            if |m| + 4 > bufferLength then SentenceVerdict(UnicoreHash, bufferLength, n) == Broken
            else SentenceVerdict(UnicoreHash, bufferLength, n) == Partial && HashTracks(f.(crc := crc), bufferLength, n)
  {
    BodyStep(UnicoreHash, bufferLength, m, data);
    NameKept(m, data);
  }

  lemma HashStarFields(f: Fields, bufferLength: nat, m: seq<byte>, s: Scratch)
    requires HashTracks(f, bufferLength, m) && f.phase.hash == HashFindAsterisk && bufferLength >= 32
    requires s.HashValues? && s.remaining == s.checksumBytes == f.scratch.checksumBytes
    ensures SentenceVerdict(UnicoreHash, bufferLength, m + [STAR]) == Partial
    ensures HashTracks(f.(phase := HashPhase(HashChecksumByte), scratch := s), bufferLength, m + [STAR])
  {
    BodyStep(UnicoreHash, bufferLength, m, STAR);
    XorAtStar(f.crc, m);
    NameKept(m, STAR);
  }

  lemma HashDigitFields(f: Fields, bufferLength: nat, m: seq<byte>, data: byte, s: Scratch)
    requires HashTracks(f, bufferLength, m) && f.phase.hash == HashChecksumByte && IsNibble(data)
    requires s.HashValues? && s.checksumBytes == f.scratch.checksumBytes && s.remaining == f.scratch.remaining - 1
    ensures SentenceVerdict(UnicoreHash, bufferLength, m + [data]) == Partial
    ensures HashTracks(f.(phase := HashPhase(if s.remaining == 0 then HashLineTermination else HashChecksumByte),
                          scratch := s),
                       bufferLength, m + [data])
  {
    ChecksumStep(UnicoreHash, bufferLength, f.scratch.checksumBytes - f.scratch.remaining, m, data);
    XorAfterStar(f.crc, m, data);
  }

  // ---------------------------------------------------------------------------------------
  // Binary messages
  // ---------------------------------------------------------------------------------------

  predicate Holds24(crc: bv32, m: seq<byte>) {
    crc & 0xFF000000 == 0 && Bits24(crc) == Residue(POLY24, MsbFirst, Zeros(24), m)
  }

  predicate RtcmTracks(f: Fields, m: seq<byte>) {
    && f.phase.RtcmPhase? && f.routine == Crc24q && Holds24(f.crc, m)
    && (f.phase.rtcm != RtcmReadLength1 ==> f.scratch.RtcmValues?)
    && RtcmShape(f.phase.rtcm, if f.scratch.RtcmValues? then f.scratch.remaining else 0, m)
  }

  predicate UbloxTracks(f: Fields, m: seq<byte>) {
    && f.phase.UbloxPhase? && f.routine == NoCrc
    && (f.phase.ublox !in {UbloxSync2, UbloxClass} ==> f.scratch.UbloxValues?)
    && (if f.scratch.UbloxValues?
        then UbloxShape(f.phase.ublox, f.scratch.remaining, (f.scratch.ckA, f.scratch.ckB), m)
        else UbloxShape(f.phase.ublox, 0, (0, 0), m))
  }

  /** The bytes that the SEMP machine's register covers before it is inverted. */
  function Covered(ph: BinaryState, m: seq<byte>): int {
    if ph.BinaryReadCrc? then CustomSize(m) - 4 else -1
  }

  predicate CustomShape(f: Fields, m: seq<byte>) {
    && f.phase.CustomPhase? && f.routine == Crc32
    && (f.phase.custom in {BinaryReadData, BinaryReadCrc} ==> f.scratch.CustomValues?)
    && BinaryShape(f.phase.custom, if f.scratch.CustomValues? then f.scratch.remaining else 0, 0x18, 20, CustomSize(m),
                   m)
  }

  predicate CustomTracks(f: Fields, m: seq<byte>) {
    CustomShape(f, m) && Bits32(f.crc) == SempRegister(Covered(f.phase.custom, m), m)
  }

  predicate UnicoreShape(f: Fields, m: seq<byte>) {
    && f.phase.UnicorePhase? && f.routine == Crc32
    && (f.phase.unicore in {BinaryReadData, BinaryReadCrc} ==> f.scratch.UnicoreValues?)
    && BinaryShape(f.phase.unicore, if f.scratch.UnicoreValues? then f.scratch.remaining else 0, 0xB5, 24,
                   UnicoreSize(m), m)
  }

  predicate UnicoreTracks(f: Fields, m: seq<byte>) {
    UnicoreShape(f, m) && Bits32(f.crc) == Residue(POLY32, LsbFirst, Zeros(32), m)
  }

  /** The layout is stated over a bound variable so that it is unfolded only where a step needs it. */
  predicate SpartnTracks(f: Fields, m: seq<byte>) {
    && m != [] && f.phase.SpartnPhase? && f.routine == NoCrc && f.scratch.SpartnValues?
    && forall b | b == m :: SpartnShape(f.phase.spartn, f.scratch.fields, b)
  }

  /** The 13-bit number and the 3-bit revision of the ID field. */
  predicate SbfIdBits(id: bv16, rev: byte, lo: byte, hi: byte) {
    && Bits16(id) == Zeros(3) + MessageBits(MsbFirst, [hi, lo])[3..]
    && ByteBits(MsbFirst, rev) == Zeros(5) + ByteBits(MsbFirst, hi)[..3]
  }

  /** The running CRC of an SBF block, unfolded only where the register is mentioned. */
  predicate SbfCrcHolds(crc: bv16, s: seq<byte>) {
    forall b | b == s :: Bits16(crc) == Residue(POLY16, MsbFirst, Zeros(16), b)
  }

  /** The checksum and identification fields of an SBF block. */
  predicate SbfFields(v: SbfBlock, m: seq<byte>) {
    && (|m| == 3 ==> Bits16(v.expectedCrc) == MessageBits(MsbFirst, [0, m[2]]))
    && (|m| >= 4 ==> Bits16(v.expectedCrc) == MessageBits(MsbFirst, [m[3], m[2]]))
    && (|m| >= 4 ==> SbfCrcHolds(v.computedCrc, m[4..]))
    && (|m| == 5 ==> Bits16(v.sbfId) == MessageBits(MsbFirst, [0, m[4]]))
    && (|m| >= 6 ==> SbfIdBits(v.sbfId, v.sbfIdRev, m[4], m[5]))
  }

  predicate SbfTracks(f: Fields, m: seq<byte>) {
    && f.phase.SbfPhase? && f.routine == NoCrc
    && (f.phase.sbf !in {SbfPreamble2, SbfCrc1} ==> f.scratch.SbfValues? && SbfFields(f.scratch.block, m))
    && (if f.scratch.SbfValues? then SbfShape(f.phase.sbf, f.scratch.block.length, f.scratch.block.remaining, m)
        else SbfShape(f.phase.sbf, 0, 0, m))
  }

  // ---------------------------------------------------------------------------------------
  // All protocols
  // ---------------------------------------------------------------------------------------

  /** The routines that this parser's table can list. */
  predicate Supported(p: Routine) {
    !p.MmpSemp? && !p.MmpNmea? && !p.MmpUblox? && !p.MmpRtcm?
  }

  /** The fields agree with the message in the buffer. */
  predicate Tracks(p: Routine, bufferLength: nat, f: Fields, m: seq<byte>)
    requires Supported(p)
  {
    match p
    case Nmea => NmeaTracks(f, bufferLength, m)
    case Rtcm => RtcmTracks(f, m)
    case Ublox => UbloxTracks(f, m)
    case UnicoreHash => HashTracks(f, bufferLength, m)
    case Custom => CustomTracks(f, m)
    case Spartn => SpartnTracks(f, m)
    case Sbf => SbfTracks(f, m)
    case UnicoreBinary => UnicoreTracks(f, m)
  }

  /** The same, stated so that it is unfolded only where a protocol's own predicate is at hand. */
  predicate Follows(p: Routine, bufferLength: nat, f: Fields, m: seq<byte>) {
    Supported(p) && forall b | b == bufferLength :: Tracks(p, b, f, m)
  }

  /** The fields right after a preamble has been claimed. */
  predicate Begun(p: Routine, f: Fields, data: byte)
    requires Supported(p)
  {
    match p
    case Nmea => f.phase == NmeaPhase(NmeaFindFirstComma) && f.routine == NoCrc && f.crc == 0
                 && f.scratch.NmeaValues? && |f.scratch.name| == 16 && f.scratch.nameLength == 0
    case Rtcm => f.phase == RtcmPhase(RtcmReadLength1) && f.routine == Crc24q && Holds24(f.crc, [data])
    case Ublox => f.phase == UbloxPhase(UbloxSync2) && f.routine == NoCrc
    case UnicoreHash => f.phase == HashPhase(HashFindFirstComma) && f.routine == NoCrc && f.crc == 0
                        && f.scratch.HashValues? && |f.scratch.name| == 16 && f.scratch.nameLength == 0
    case Custom => f.phase == CustomPhase(BinarySync2) && f.routine == Crc32
                   && Bits32(f.crc) == Residue(POLY32, LsbFirst, Ones(32), [data])
    case Spartn => f.phase == SpartnPhase(SpartnReadTF002TF006) && f.routine == NoCrc
                   && f.scratch.SpartnValues? && f.scratch.fields.frameCount == 0
    case Sbf => f.phase == SbfPhase(SbfPreamble2) && f.routine == NoCrc
    case UnicoreBinary => f.phase == UnicorePhase(BinarySync2) && f.routine == Crc32
                          && Bits32(f.crc) == Residue(POLY32, LsbFirst, Zeros(32), [data])
  }

  lemma SentenceBegun(p: Routine, data: byte)
    requires p in {Nmea, UnicoreHash} && Preamble(p, data)
    ensures InName(p, [data]) && XorAll([data][1..]) == 0
  {
    assert [data][..0] == [];
  }

  lemma BegunTracks(p: Routine, bufferLength: nat, f: Fields, data: byte)
    requires Supported(p) && Begun(p, f, data) && Preamble(p, data)
    ensures Tracks(p, bufferLength, f, [data]) && f.phase != FirstByte && EndingOf(f.phase).NoEnding?
  {
    if IsSentence(p) {
      SentenceBegun(p, data);
    }
  }

  // ---------------------------------------------------------------------------------------
  // Entering a state routine: the byte is stored and the CRC covers it
  // ---------------------------------------------------------------------------------------

  predicate RtcmEntered(f: Fields, m: seq<byte>, data: byte) {
    && f.phase.RtcmPhase? && f.routine == Crc24q && Holds24(f.crc, m + [data])
    && (f.phase.rtcm != RtcmReadLength1 ==> f.scratch.RtcmValues?)
    && RtcmShape(f.phase.rtcm, if f.scratch.RtcmValues? then f.scratch.remaining else 0, m)
  }

  predicate CustomEntered(f: Fields, m: seq<byte>, data: byte) {
    CustomShape(f, m) && Bits32(f.crc) == SempRegister(Covered(f.phase.custom, m), m + [data])
  }

  predicate UnicoreEntered(f: Fields, m: seq<byte>, data: byte) {
    UnicoreShape(f, m) && Bits32(f.crc) == Residue(POLY32, LsbFirst, Zeros(32), m + [data])
  }

  lemma RtcmEnters(f: Fields, m: seq<byte>, data: byte, crc: bv32)
    requires RtcmTracks(f, m)
    requires crc & 0xFF000000 == 0 && Bits24(crc) == Register(POLY24, Bits24(f.crc), ByteBits(MsbFirst, data))
    ensures RtcmEntered(f.(crc := crc), m, data)
  {
    ResidueAppend(POLY24, MsbFirst, Zeros(24), m, data);
  }

  lemma CustomEnters(f: Fields, m: seq<byte>, data: byte, crc: bv32)
    requires CustomTracks(f, m) && Bits32(crc) == Register(POLY32, Bits32(f.crc), ByteBits(LsbFirst, data))
    ensures CustomEntered(f.(crc := crc), m, data)
  {
    SempRegisterAppend(Covered(f.phase.custom, m), m, data);
  }

  lemma UnicoreEnters(f: Fields, m: seq<byte>, data: byte, crc: bv32)
    requires UnicoreTracks(f, m) && Bits32(crc) == Register(POLY32, Bits32(f.crc), ByteBits(LsbFirst, data))
    ensures UnicoreEntered(f.(crc := crc), m, data)
  {
    ResidueAppend(POLY32, LsbFirst, Zeros(32), m, data);
  }

  /** The word after the CRC routine has read the byte. */
  predicate CrcUpdated(routine: CrcRoutine, before: bv32, data: byte, after: bv32) {
    match routine
    case NoCrc => after == before
    case Crc24q =>
      after & 0xFF000000 == 0 && Bits24(after) == Register(POLY24, Bits24(before), ByteBits(MsbFirst, data))
    case Crc32 => Bits32(after) == Register(POLY32, Bits32(before), ByteBits(LsbFirst, data))
  }

  /** The phases in which a sentence waits for its line terminator. */
  predicate IsEnding(phase: Phase) {
    || (phase.NmeaPhase? && phase.nmea in {NmeaLineTermination, NmeaCarriageReturn, NmeaLineFeed})
    || (phase.HashPhase? && phase.hash in {HashLineTermination, HashCarriageReturn, HashLineFeed})
  }

  lemma EndingIsReady(p: Routine, bufferLength: nat, f: Fields, m: seq<byte>)
    requires Supported(p) && Tracks(p, bufferLength, f, m)
    ensures Ready(p, m) <==> IsEnding(f.phase)
    ensures !EndingOf(f.phase).NoEnding? ==> IsEnding(f.phase) && |m| < bufferLength
  {
    if p.Nmea? {
      NmeaReady(f, bufferLength, m);
    } else if p.UnicoreHash? {
      HashReady(f, bufferLength, m);
    }
  }

  // ---------------------------------------------------------------------------------------
  // What the routines with arithmetic make of the fields
  // ---------------------------------------------------------------------------------------

  lemma UbloxIdFields(f: Fields, m: seq<byte>, data: byte, ck: (byte, byte), remaining: nat)
    requires UbloxTracks(f, m) && f.phase.ublox == UbloxId && ck == Add((f.scratch.ckA, f.scratch.ckB), data)
    requires remaining == f.scratch.remaining
    ensures UbloxVerdict(m + [data]) == Partial
    ensures UbloxTracks(f.(phase := UbloxPhase(UbloxLength1), scratch := UbloxValues(remaining, ck.0, ck.1)),
                        m + [data])
  {
    UbloxIdStep(m, data, f.scratch.remaining, (f.scratch.ckA, f.scratch.ckB));
  }

  lemma UbloxLength1Fields(f: Fields, m: seq<byte>, data: byte, ck: (byte, byte), remaining: nat)
    requires UbloxTracks(f, m) && f.phase.ublox == UbloxLength1 && ck == Add((f.scratch.ckA, f.scratch.ckB), data)
    requires remaining == data as int
    ensures UbloxVerdict(m + [data]) == Partial
    ensures UbloxTracks(f.(phase := UbloxPhase(UbloxLength2), scratch := UbloxValues(remaining, ck.0, ck.1)),
                        m + [data])
  {
    UbloxLength1Step(m, data, f.scratch.remaining, (f.scratch.ckA, f.scratch.ckB));
  }

  lemma UbloxLength2Fields(f: Fields, m: seq<byte>, data: byte, ck: (byte, byte), remaining: nat)
    requires UbloxTracks(f, m) && f.phase.ublox == UbloxLength2 && ck == Add((f.scratch.ckA, f.scratch.ckB), data)
    requires remaining == f.scratch.remaining + 256 * (data as int)
    ensures UbloxVerdict(m + [data]) == Partial
    ensures UbloxTracks(f.(phase := UbloxPhase(UbloxPayload), scratch := UbloxValues(remaining, ck.0, ck.1)),
                        m + [data])
  {
    UbloxLength2Step(m, data, f.scratch.remaining, (f.scratch.ckA, f.scratch.ckB));
  }

  lemma UbloxPayloadFields(f: Fields, m: seq<byte>, data: byte, ck: (byte, byte), remaining: nat)
    requires UbloxTracks(f, m) && f.phase.ublox == UbloxPayload && ck == Add((f.scratch.ckA, f.scratch.ckB), data)
    requires f.scratch.remaining > 0 && remaining == U16(f.scratch.remaining - 1)
    ensures UbloxVerdict(m + [data]) == Partial
    ensures UbloxTracks(f.(scratch := UbloxValues(remaining, ck.0, ck.1)), m + [data])
  {
    UbloxPayloadStep(m, data, f.scratch.remaining, (f.scratch.ckA, f.scratch.ckB));
  }

  lemma UbloxCkAFields(f: Fields, m: seq<byte>, data: byte, remaining: nat)
    requires UbloxTracks(f, m) && f.phase.ublox == UbloxPayload
    requires f.scratch.remaining == 0 && remaining == U16(f.scratch.remaining - 1)
    ensures UbloxVerdict(m + [data]) == Partial
    ensures UbloxTracks(f.(phase := UbloxPhase(UbloxCkB),
                           scratch := UbloxValues(remaining, f.scratch.ckA, f.scratch.ckB)), m + [data])
  {
    UbloxPayloadStep(m, data, f.scratch.remaining, (f.scratch.ckA, f.scratch.ckB));
  }

  /** The SEMP register is inverted when the last data byte has been read, and only then. */
  lemma CustomCovers(f: Fields, f': Fields, m: seq<byte>, data: byte)
    requires CustomEntered(f, m, data) && CustomShape(f', m + [data]) && CustomSize(m + [data]) == CustomSize(m)
    requires f.phase == f'.phase && f.crc == f'.crc
    ensures CustomTracks(f', m + [data])
  {
  }

  lemma CustomInverts(f: Fields, f': Fields, m: seq<byte>, data: byte)
    requires CustomEntered(f, m, data) && CustomShape(f', m + [data]) && |m| + 1 == CustomSize(m + [data]) - 4
    requires f.phase.custom == BinaryReadData && f'.phase.custom == BinaryReadCrc && f'.crc == f.crc ^ 0xFFFFFFFF
    ensures CustomTracks(f', m + [data])
  {
    InvertedWord(f.crc, f'.crc);
    SempRegisterInverts(m + [data]);
  }

  lemma CustomNotYet(f: Fields, f': Fields, m: seq<byte>, data: byte)
    requires CustomEntered(f, m, data) && CustomShape(f', m + [data])
    requires f.phase.custom != BinaryReadCrc && f'.phase.custom != BinaryReadCrc && f.crc == f'.crc
    ensures CustomTracks(f', m + [data])
  {
  }

  lemma CustomChecks(p: Routine, m: seq<byte>, r: Bits)
    requires p.Custom? && |m| >= 4 && r == SempRegister(|m| - 4, m)
    ensures ChecksumOk(p, m) <==> r == Zeros(32)
  {
  }

  /** At the last CRC byte the word is zero exactly when the checksum is right. */
  lemma CustomZero(f: Fields, m: seq<byte>, data: byte)
    requires CustomEntered(f, m, data) && f.phase.custom == BinaryReadCrc && |m| + 1 == CustomSize(m)
    ensures f.crc == 0 <==> ChecksumOk(Custom, m + [data])
  {
    CustomChecks(Custom, m + [data], SempRegister(|m| - 3, m + [data]));
    Clear32(f.crc);
  }

  lemma UnicoreZero(f: Fields, m: seq<byte>, data: byte)
    requires UnicoreEntered(f, m, data)
    ensures f.crc == 0 <==> ChecksumOk(UnicoreBinary, m + [data])
  {
    Clear32(f.crc);
  }

  // ---------------------------------------------------------------------------------------
  // SBF fields
  // ---------------------------------------------------------------------------------------

  lemma SbfCovers(m: seq<byte>, data: byte, before: bv16, after: bv16)
    requires |m| >= 4 && SbfCrcHolds(before, m[4..])
    requires Bits16(after) == Register(POLY16, Bits16(before), ByteBits(MsbFirst, data))
    ensures SbfCrcHolds(after, (m + [data])[4..])
  {
    ResidueAppend(POLY16, MsbFirst, Zeros(16), m[4..], data);
    assert (m + [data])[4..] == m[4..] + [data];
  }

  lemma SbfStarts(m: seq<byte>, computed: bv16)
    requires |m| == 4 && computed == 0
    ensures SbfCrcHolds(computed, m[4..])
  {
    Word16(computed, 0, 0, 0);
    MessageBitsOfZeros(MsbFirst, 2);
    assert seq<byte>(2, _ => 0) == [0, 0];
    assert m[4..] == [];
  }

  /** The computed CRC equals the stored one exactly when the checksum is right. */
  lemma SbfMatches(expected: bv16, m: seq<byte>, computed: bv16)
    requires |m| >= 4 && Bits16(expected) == MessageBits(MsbFirst, [m[3], m[2]])
    requires SbfCrcHolds(computed, m[4..])
    ensures computed == expected <==> ChecksumOk(Sbf, m)
  {
    SameBits16(computed, expected);
    assert Bits16(computed) == Residue(POLY16, MsbFirst, Zeros(16), m[4..]);
  }

  /** Splits the ID field when its high byte arrives. */
  method SplitId(low: bv16, ghost lo: byte, hi: byte) returns (id: bv16, rev: byte)
    requires Bits16(low) == MessageBits(MsbFirst, [0, lo])
    ensures SbfIdBits(id, rev, lo, hi)
  {
    var raw := JoinBytes(low, lo, hi);
    id := raw & 0x1FFF;
    MaskedWord(raw, hi, lo, id);
    rev := hi >> 5;
    ShiftedByte(hi, rev);
  }

  /** Once the identification is read, a byte moves the running CRC alone. */
  lemma SbfFieldsKept(v: SbfBlock, v': SbfBlock, m: seq<byte>, data: byte)
    requires |m| >= 6 && SbfFields(v, m)
    requires Bits16(v'.computedCrc) == Register(POLY16, Bits16(v.computedCrc), ByteBits(MsbFirst, data))
    requires v' == v.(computedCrc := v'.computedCrc, length := v'.length, remaining := v'.remaining)
    ensures SbfFields(v', m + [data])
  {
    SbfCovers(m, data, v.computedCrc, v'.computedCrc);
  }

  lemma SbfLengthFields(f: Fields, m: seq<byte>, data: byte, computed: bv16, length: nat)
    requires SbfTracks(f, m) && f.phase.sbf == SbfLengthMsb && length == f.scratch.block.length + 256 * (data as int)
    requires Bits16(computed) == Register(POLY16, Bits16(f.scratch.block.computedCrc), ByteBits(MsbFirst, data))
    ensures if length % 4 != 0 then SbfVerdict(m + [data]) == Dropped
            else SbfVerdict(m + [data]) == Partial
                 && SbfTracks(f.(phase := SbfPhase(SbfReadBytes),
                                 scratch := SbfValues(f.scratch.block.(computedCrc := computed, length := length,
                                                                       remaining := U16(length - 8)))),
                              m + [data])
  {
    var v := f.scratch.block;
    SbfLengthMsbStep(m, data, v.length, v.remaining, length);
    if length % 4 == 0 {
      SbfFieldsKept(v, v.(computedCrc := computed, length := length, remaining := U16(length - 8)), m, data);
    }
  }

  lemma SbfMoreFields(f: Fields, m: seq<byte>, data: byte, computed: bv16, remaining: nat)
    requires SbfTracks(f, m) && f.phase.sbf == SbfReadBytes && remaining == U16(f.scratch.block.remaining - 1)
             && remaining != 0
    requires Bits16(computed) == Register(POLY16, Bits16(f.scratch.block.computedCrc), ByteBits(MsbFirst, data))
    ensures SbfVerdict(m + [data]) == Partial
    ensures SbfTracks(f.(scratch := SbfValues(f.scratch.block.(computedCrc := computed, remaining := remaining))),
                      m + [data])
  {
    var v := f.scratch.block;
    SbfReadBytesStep(m, data, v.length, v.remaining);
    SbfFieldsKept(v, v.(computedCrc := computed, remaining := remaining), m, data);
  }

  lemma SbfLastFields(f: Fields, m: seq<byte>, data: byte, computed: bv16)
    requires SbfTracks(f, m) && f.phase.sbf == SbfReadBytes && U16(f.scratch.block.remaining - 1) == 0
    requires Bits16(computed) == Register(POLY16, Bits16(f.scratch.block.computedCrc), ByteBits(MsbFirst, data))
    ensures SbfVerdict(m + [data]) == Whole
    ensures computed == f.scratch.block.expectedCrc <==> ChecksumOk(Sbf, m + [data])
  {
    SbfReadBytesStep(m, data, f.scratch.block.length, f.scratch.block.remaining);
    SbfCovers(m, data, f.scratch.block.computedCrc, computed);
    SbfMatches(f.scratch.block.expectedCrc, m + [data], computed);
  }
}
