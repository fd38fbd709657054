/**
 The frame formats, as predicates and measures on byte sequences. Nothing here knows about
 parser states: a parse routine is described by its preamble, by the verdict on each prefix of
 a message, and by the checksum of a whole message.
 */
module Formats {
  import opened Bytes
  import opened Gf2
  import opened Crc

  /** The parse routines that a parser table can list. The last four belong to the multi-protocol parser. */
  datatype Routine =
    | Nmea | Rtcm | Ublox | UnicoreHash | Custom
    | Spartn | Sbf | UnicoreBinary
    | MmpSemp | MmpNmea | MmpUblox | MmpRtcm

  /**
   What a routine makes of a message prefix.
   Partial: read on. Whole: the checksum decides. Failed: a checksum byte is already wrong.
   Broken: the last byte does not belong here and is offered as a preamble.
   Dropped: the last byte does not belong here and is consumed.
   */
  datatype Verdict = Partial | Whole | Failed | Broken | Dropped

  predicate Preamble(p: Routine, data: byte) {
    match p
    case Nmea => data == 0x24 || data == 0x21
    case Rtcm => data == 0xD3
    case Ublox => data == 0xB5
    case UnicoreHash => data == 0x23
    case Custom => data == 0xAA
    case Spartn => data == 0x73
    case Sbf => data == 0x24
    case UnicoreBinary => data == 0xAA
    case MmpSemp => data == 0xAA
    case MmpNmea => data == 0x24
    case MmpUblox => data == 0xB5
    case MmpRtcm => false
  }

  predicate IsSentence(p: Routine) {
    p.Nmea? || p.UnicoreHash? || p.MmpNmea?
  }

  /** How many bytes a 16-bit counter reads when it is decremented before it is tested against zero. */
  function Wrapped(count: int): (n: nat)
    requires -65536 < count < 65536
    ensures 1 <= n <= 65536
  {
    if count <= 0 then count + 65536 else count
  }

  // ---------------------------------------------------------------------------------------
  // RTCM: D3, 6 zero bits and a 10-bit length, payload, 24-bit CRC
  // ---------------------------------------------------------------------------------------

  function RtcmLength(m: seq<byte>): (n: nat)
    requires |m| >= 3
    ensures n < 65536
  {
    256 * (m[1] as int) + m[2] as int
  }

  /** The size at which the routine stops reading; a payload of fewer than three bytes wraps the counter. */
  function RtcmSize(m: seq<byte>): (n: nat)
    requires |m| >= 3
  {
    var length := RtcmLength(m);
    5 + (if length < 3 then length + 65534 else length - 2) + 3
  }

  function RtcmVerdict(m: seq<byte>): Verdict
    requires |m| >= 2
  {
    if |m| == 2 then (if m[1] & 0xFC != 0 then Broken else Partial)
    else if |m| < RtcmSize(m) then Partial
    else Whole
  }

  // ---------------------------------------------------------------------------------------
  // u-blox: B5 62, class, id, 16-bit length, payload, two checksum bytes
  // ---------------------------------------------------------------------------------------

  function UbloxSize(m: seq<byte>): (n: nat)
    requires |m| >= 6
    ensures n >= 8
  {
    LittleEndian16(m[4], m[5]) + 8
  }

  /** One more byte of the two running sums. */
  function Add(ck: (byte, byte), data: byte): (byte, byte) {
    var a := Plus(ck.0, data);
    (a, Plus(ck.1, a))
  }

  /** The two running sums of the 8-bit Fletcher checksum. */
  function Fletcher(s: seq<byte>): (byte, byte) {
    if s == [] then (0, 0) else Add(Fletcher(s[..|s| - 1]), s[|s| - 1])
  }

  function UbloxVerdict(m: seq<byte>): Verdict
    requires |m| >= 2
  {
    if |m| == 2 then (if m[1] == 0x62 then Partial else Broken)
    else if |m| < 6 || |m| < UbloxSize(m) then Partial
    else Whole
  }

  /** The multi-protocol parser gives up on the first wrong checksum byte. */
  function MmpUbloxVerdict(m: seq<byte>): Verdict
    requires |m| >= 2
  {
    if |m| >= 6 && |m| == UbloxSize(m) - 1 && m[|m| - 1] != Fletcher(m[2..|m| - 1]).0 then Failed
    else UbloxVerdict(m)
  }

  // ---------------------------------------------------------------------------------------
  // SEMP (custom) and Unicore binary: AA 44 xx, header, data, 32-bit CRC
  // ---------------------------------------------------------------------------------------

  function BinaryVerdict(m: seq<byte>, sync: byte, header: nat, size: nat): Verdict
    requires |m| >= 2
  {
    if |m| == 2 then (if m[1] == 0x44 then Partial else Broken)
    else if |m| == 3 then (if m[2] == sync then Partial else Broken)
    else if |m| < header || |m| < size then Partial
    else Whole
  }

  function CustomLength(m: seq<byte>): (n: nat)
    requires |m| >= 20
    ensures n < 65536
  {
    LittleEndian16(m[12], m[13])
  }

  function CustomSize(m: seq<byte>): nat {
    if |m| < 20 then 0 else 20 + Wrapped(CustomLength(m)) + 4
  }

  function UnicoreLength(m: seq<byte>): (n: nat)
    requires |m| >= 24
    ensures n < 65536
  {
    LittleEndian16(m[6], m[7])
  }

  function UnicoreSize(m: seq<byte>): nat {
    if |m| < 24 then 0 else 24 + Wrapped(UnicoreLength(m)) + 4
  }

  /** The multi-protocol parser reads a message without data correctly, and insists on header length 0x14. */
  function MmpSempSize(m: seq<byte>): nat {
    if |m| < 20 then 0 else 20 + CustomLength(m) + 4
  }

  function MmpSempVerdict(m: seq<byte>): Verdict
    requires |m| >= 2
  {
    if |m| == 20 && m[3] != 0x14 then Dropped
    else BinaryVerdict(m, 0x18, 20, MmpSempSize(m))
  }

  // ---------------------------------------------------------------------------------------
  // SPARTN: 73, 3-byte header with CRC-4, description, payload, authentication, CRC
  // ---------------------------------------------------------------------------------------

  function SpartnPayload(m: seq<byte>): (n: nat)
    requires |m| >= 4
    ensures n < 1024
  {
    512 * ((m[1] & 1) as int) + 2 * (m[2] as int) + (m[3] >> 7) as int
  }

  predicate SpartnEncrypted(m: seq<byte>)
    requires |m| >= 4
  {
    m[3] & 0x40 != 0
  }

  function SpartnCrcBytes(m: seq<byte>): (n: nat)
    requires |m| >= 4
    ensures 1 <= n <= 4
  {
    ((m[3] >> 4) & 3) as int + 1
  }

  /** TF007 to TF016: the bytes between the header and the payload. */
  function SpartnDescription(m: seq<byte>): (n: nat)
    requires |m| >= 5
    ensures 4 <= n <= 8
  {
    (if m[4] & 8 == 0 then 4 else 6) + (if SpartnEncrypted(m) then 2 else 0)
  }

  /** The length of the embedded authentication that the last description byte announces. */
  function AuthenticationBytes(encrypted: bool, data: byte): (n: nat)
    ensures n <= 64
  {
    if !encrypted || (data >> 3) & 7 <= 1 then 0
    else match data & 7
      case 0 => 8
      case 1 => 12
      case 2 => 16
      case 3 => 32
      case _ => 64
  }

  /** TF015: the bytes of embedded authentication after the payload, set by the last description byte. */
  function SpartnEmbedded(m: seq<byte>): (n: nat)
    requires |m| >= 5 && |m| >= 4 + SpartnDescription(m)
    ensures n <= 64
  {
    AuthenticationBytes(SpartnEncrypted(m), m[3 + SpartnDescription(m)])
  }

  function SpartnSize(m: seq<byte>): (n: nat)
    requires |m| >= 5 && |m| >= 4 + SpartnDescription(m)
  {
    4 + SpartnDescription(m) + Wrapped(SpartnPayload(m)) + SpartnEmbedded(m) + SpartnCrcBytes(m)
  }

  /** The header CRC-4 covers the header with its own four bits cleared. */
  predicate SpartnHeaderOk(m: seq<byte>)
    requires |m| >= 4
  {
    Residue(POLY4, LsbFirst, Zeros(4), [m[1], m[2], m[3] & 0xF0]) == ByteBits(LsbFirst, m[3] & 0x0F)[..4]
  }

  function SpartnVerdict(m: seq<byte>): Verdict
    requires |m| >= 2
  {
    if |m| == 4 then (if SpartnHeaderOk(m) then Partial else Dropped)
    else if |m| < 5 || |m| < 4 + SpartnDescription(m) || |m| < SpartnSize(m) then Partial
    else Whole
  }

  /** The remainder that the trailer of `k` bytes must hold. */
  function SpartnRemainder(k: nat, covered: seq<byte>): Bits
    requires 1 <= k <= 4
  {
    match k
    case 1 => Residue(POLY8, MsbFirst, Zeros(8), covered)
    case 2 => Residue(POLY16, MsbFirst, Zeros(16), covered)
    case 3 => Residue(POLY24, MsbFirst, Zeros(24), covered)
    case _ => Not(Residue(POLY32, MsbFirst, Ones(32), covered))
  }

  // ---------------------------------------------------------------------------------------
  // SBF: 24 40, CRC, ID, length, payload
  // ---------------------------------------------------------------------------------------

  function SbfSize(m: seq<byte>): (n: nat)
    requires |m| >= 8
  {
    8 + Wrapped(LittleEndian16(m[6], m[7]) - 8)
  }

  function SbfVerdict(m: seq<byte>): Verdict
    requires |m| >= 2
  {
    if |m| == 2 then (if m[1] == 0x40 then Partial else Dropped)
    else if |m| == 8 then (if LittleEndian16(m[6], m[7]) % 4 == 0 then Partial else Dropped)
    else if |m| < 8 || |m| < SbfSize(m) then Partial
    else Whole
  }

  // ---------------------------------------------------------------------------------------
  // Sentences: preamble, name, comma, body, asterisk, checksum characters
  // ---------------------------------------------------------------------------------------

  const MODE: seq<byte> := [0x4D, 0x4F, 0x44, 0x45]

  predicate OccursAt(s: seq<byte>, i: int, word: seq<byte>) {
    0 <= i <= |s| - |word| && s[i..i + |word|] == word
  }

  /** `word` occurs in `s`. */
  predicate Contains(s: seq<byte>, word: seq<byte>) {
    exists i | 0 <= i <= |s| :: OccursAt(s, i, word)
  }

  /** The characters between the preamble and the first comma. */
  function Name(m: seq<byte>): seq<byte> {
    if 1 <= Find(m, COMMA) then m[1..Find(m, COMMA)] else []
  }

  /** The number of checksum characters that follow the asterisk. */
  function ChecksumChars(p: Routine, m: seq<byte>): (n: nat)
    ensures n == 2 || n == 8
  {
    if p.UnicoreHash? && !Contains(Name(m), MODE) then 8 else 2
  }

  /** The bytes that must remain free while the body is read. */
  function Overhead(p: Routine): nat {
    if p.UnicoreHash? then 3 else if p.MmpNmea? then 5 else 6
  }

  function SentenceVerdict(p: Routine, bufferLength: nat, m: seq<byte>): Verdict
    requires |m| >= 2
  {
    var last, comma, star := |m| - 1, Find(m, COMMA), Find(m, STAR);
    if comma == |m| then (if IsNameChar(m[last]) && last <= 15 then Partial else Broken)
    else if comma == 1 then Broken
    else if comma == last || star == last then Partial
    else if star == |m| then (if |m| + Overhead(p) <= bufferLength then Partial else Broken)
    else if IsNibble(m[last]) then Partial
    else Broken
  }

  /** All checksum characters are there; a line terminator or the next message follows. */
  predicate Ready(p: Routine, m: seq<byte>) {
    && IsSentence(p)
    && Find(m, STAR) < |m|
    && |m| == Find(m, STAR) + 1 + ChecksumChars(p, m)
  }

  function Verdicts(p: Routine, bufferLength: nat, m: seq<byte>): Verdict
    requires |m| >= 2
  {
    match p
    case Nmea => SentenceVerdict(p, bufferLength, m)
    case Rtcm => RtcmVerdict(m)
    case Ublox => UbloxVerdict(m)
    case UnicoreHash => SentenceVerdict(p, bufferLength, m)
    case Custom => BinaryVerdict(m, 0x18, 20, CustomSize(m))
    case Spartn => SpartnVerdict(m)
    case Sbf => SbfVerdict(m)
    case UnicoreBinary => BinaryVerdict(m, 0xB5, 24, UnicoreSize(m))
    case MmpSemp => MmpSempVerdict(m)
    case MmpNmea => SentenceVerdict(p, bufferLength, m)
    case MmpUblox => MmpUbloxVerdict(m)
    case MmpRtcm => Broken
  }

  // ---------------------------------------------------------------------------------------
  // Checksums of whole messages
  // ---------------------------------------------------------------------------------------

  predicate UbloxOk(m: seq<byte>)
    requires |m| >= 8
  {
    var n := |m|;
    (m[n - 2], m[n - 1]) == Fletcher(m[2..n - 2])
  }

  /** The register after header, data and trailer, with the inversion before the trailer. */
  function CustomResidue(m: seq<byte>): (r: Bits)
    requires |m| >= 4
    ensures |r| == 32
  {
    var n := |m| - 4;
    Residue(POLY32, LsbFirst, Not(Residue(POLY32, LsbFirst, Ones(32), m[..n])), m[n..])
  }

  /** The trailer is the CRC-32 of what precedes it, low byte first. */
  predicate SempOk(m: seq<byte>)
    requires |m| >= 4
  {
    MessageBits(LsbFirst, m[|m| - 4..]) == Not(Residue(POLY32, LsbFirst, Ones(32), m[..|m| - 4]))
  }

  predicate SpartnOk(m: seq<byte>)
    requires |m| >= 8
  {
    var k := SpartnCrcBytes(m);
    MessageBits(MsbFirst, m[|m| - k..]) == SpartnRemainder(k, m[1..|m| - k])
  }

  predicate SbfOk(m: seq<byte>)
    requires |m| >= 4
  {
    MessageBits(MsbFirst, [m[3], m[2]]) == Residue(POLY16, MsbFirst, Zeros(16), m[4..])
  }

  /** The two characters after the asterisk are the exclusive or of the bytes before it. */
  predicate XorOk(m: seq<byte>)
    requires |m| >= 3 && 1 <= Find(m, STAR)
  {
    16 * AsciiToNibble(m[|m| - 2]) + AsciiToNibble(m[|m| - 1]) == XorAll(m[1..Find(m, STAR)]) as int
  }

  /** The bits of hexadecimal characters, most significant first. */
  function HexBits(s: seq<byte>): (r: Bits)
    ensures |r| == 4 * |s|
  {
    if s == [] then [] else HexBits(s[..|s| - 1]) + NibbleBits(AsciiToNibble(s[|s| - 1]))
  }

  function NibbleBits(n: int): (r: Bits)
    ensures |r| == 4
  {
    [n / 8 % 2 == 1, n / 4 % 2 == 1, n / 2 % 2 == 1, n % 2 == 1]
  }

  /** The eight characters after the asterisk are the CRC-32, zero seed, of the bytes before it. */
  predicate HashOk(m: seq<byte>)
    requires |m| >= 10 && 1 <= Find(m, STAR) <= |m| - 9
  {
    var star := Find(m, STAR);
    HexBits(m[star + 1..star + 9]) == Reverse(Residue(POLY32, LsbFirst, Zeros(32), m[1..star]))
  }

  predicate ChecksumOk(p: Routine, m: seq<byte>) {
    match p
    case Rtcm => Residue(POLY24, MsbFirst, Zeros(24), m) == Zeros(24)
    case Ublox => |m| >= 8 && UbloxOk(m)
    case MmpUblox => |m| >= 8 && UbloxOk(m)
    case Custom => |m| >= 4 && CustomResidue(m) == Zeros(32)
    case MmpSemp => |m| >= 4 && SempOk(m)
    case UnicoreBinary => Residue(POLY32, LsbFirst, Zeros(32), m) == Zeros(32)
    case Spartn => |m| >= 8 && SpartnOk(m)
    case Sbf => |m| >= 4 && SbfOk(m)
    case Nmea => |m| >= 3 && 1 <= Find(m, STAR) && XorOk(m)
    case MmpNmea => |m| >= 3 && 1 <= Find(m, STAR) && XorOk(m)
    case UnicoreHash =>
      if ChecksumChars(p, m) == 8 then |m| >= 10 && 1 <= Find(m, STAR) <= |m| - 9 && HashOk(m)
      else |m| >= 3 && 1 <= Find(m, STAR) && XorOk(m)
    case MmpRtcm => false
  }
}
