/**
 How the counters and checksums of each protocol machine follow from the bytes it has read.
 For every machine state there is a lemma that says what the next byte makes of them.
 */
module Tracking {
  import opened Bytes
  import opened Gf2
  import opened Crc
  import opened Formats

  // ---------------------------------------------------------------------------------------
  // RTCM
  // ---------------------------------------------------------------------------------------

  datatype RtcmState =
    | RtcmReadLength1 | RtcmReadLength2 | RtcmReadMessage1 | RtcmReadMessage2 | RtcmReadData | RtcmReadCrc

  predicate RtcmShape(ph: RtcmState, remaining: int, m: seq<byte>) {
    && 1 <= |m| && m[0] == 0xD3
    && (|m| >= 2 ==> m[1] & 0xFC == 0)
    && match ph
       case RtcmReadLength1 => |m| == 1
       case RtcmReadLength2 => |m| == 2 && remaining == 256 * (m[1] as int)
       case RtcmReadMessage1 => |m| == 3 && remaining == RtcmLength(m)
       case RtcmReadMessage2 => |m| == 4 && remaining == U16(RtcmLength(m) - 1)
       case RtcmReadData => 5 <= |m| < RtcmSize(m) - 3 && remaining == U16(RtcmSize(m) - 3 - |m|)
       case RtcmReadCrc => 5 <= |m| && RtcmSize(m) - 3 <= |m| < RtcmSize(m) && remaining == RtcmSize(m) - |m|
  }

  lemma RtcmLength1Step(m: seq<byte>, data: byte, remaining: int)
    requires RtcmShape(RtcmReadLength1, remaining, m)
    ensures if data & 0xFC != 0 then RtcmVerdict(m + [data]) == Broken
            else RtcmVerdict(m + [data]) == Partial && RtcmShape(RtcmReadLength2, 256 * (data as int), m + [data])
  {
  }

  lemma RtcmLength2Step(m: seq<byte>, data: byte, remaining: int)
    requires RtcmShape(RtcmReadLength2, remaining, m)
    ensures RtcmVerdict(m + [data]) == Partial && RtcmShape(RtcmReadMessage1, remaining + data as int, m + [data])
  {
  }

  lemma RtcmMessage1Step(m: seq<byte>, data: byte, remaining: int)
    requires RtcmShape(RtcmReadMessage1, remaining, m)
    ensures RtcmVerdict(m + [data]) == Partial && RtcmShape(RtcmReadMessage2, U16(remaining - 1), m + [data])
  {
  }

  lemma RtcmMessage2Step(m: seq<byte>, data: byte, remaining: int)
    requires RtcmShape(RtcmReadMessage2, remaining, m)
    ensures RtcmVerdict(m + [data]) == Partial && RtcmShape(RtcmReadData, U16(remaining - 1), m + [data])
  {
    U16Pred(RtcmLength(m) - 1);
    assert RtcmLength(m + [data]) == RtcmLength(m);
    assert RtcmLength(m) < 3 ==> U16(RtcmLength(m) + 65534) == U16(RtcmLength(m) - 2);
  }

  lemma RtcmDataStep(m: seq<byte>, data: byte, remaining: int)
    requires RtcmShape(RtcmReadData, remaining, m)
    ensures RtcmVerdict(m + [data]) == Partial
    ensures if U16(remaining - 1) == 0 then RtcmShape(RtcmReadCrc, 3, m + [data])
            else RtcmShape(RtcmReadData, U16(remaining - 1), m + [data])
  {
  }

  lemma RtcmCrcStep(m: seq<byte>, data: byte, remaining: int)
    requires RtcmShape(RtcmReadCrc, remaining, m)
    ensures if U16(remaining - 1) > 0
            then RtcmVerdict(m + [data]) == Partial && RtcmShape(RtcmReadCrc, U16(remaining - 1), m + [data])
            else RtcmVerdict(m + [data]) == Whole
  {
  }

  // ---------------------------------------------------------------------------------------
  // u-blox
  // ---------------------------------------------------------------------------------------

  datatype UbloxState =
    | UbloxSync2 | UbloxClass | UbloxId | UbloxLength1 | UbloxLength2 | UbloxPayload | UbloxCkB

  predicate UbloxShape(ph: UbloxState, remaining: int, ck: (byte, byte), m: seq<byte>) {
    && 1 <= |m| && m[0] == 0xB5
    && (|m| >= 2 ==> m[1] == 0x62)
    && match ph
       case UbloxSync2 => |m| == 1
       case UbloxClass => |m| == 2
       case UbloxId => |m| == 3 && ck == Fletcher(m[2..])
       case UbloxLength1 => |m| == 4 && ck == Fletcher(m[2..])
       case UbloxLength2 => |m| == 5 && ck == Fletcher(m[2..]) && remaining == m[4] as int
       case UbloxPayload => 6 <= |m| <= UbloxSize(m) - 2 && remaining == UbloxSize(m) - 2 - |m|
           && ck == Fletcher(m[2..])
       case UbloxCkB => 7 <= |m| == UbloxSize(m) - 1 && ck == Fletcher(m[2..|m| - 1])
  }

  lemma FletcherAppend(s: seq<byte>, data: byte)
    ensures Fletcher(s + [data]) == Add(Fletcher(s), data)
  {
    assert (s + [data])[..|s|] == s;
  }

  lemma UbloxSync2Step(m: seq<byte>, data: byte, remaining: int, ck: (byte, byte))
    requires UbloxShape(UbloxSync2, remaining, ck, m)
    ensures if data != 0x62 then UbloxVerdict(m + [data]) == Broken
            else UbloxVerdict(m + [data]) == Partial && UbloxShape(UbloxClass, remaining, ck, m + [data])
  {
  }

  lemma UbloxClassStep(m: seq<byte>, data: byte, remaining: int, ck: (byte, byte))
    requires UbloxShape(UbloxClass, remaining, ck, m)
    ensures UbloxVerdict(m + [data]) == Partial && UbloxShape(UbloxId, remaining, (data, data), m + [data])
  {
    FletcherAppend([], data);
    assert (m + [data])[2..] == [data];
    assert [] + [data] == [data];
  }

  lemma UbloxIdStep(m: seq<byte>, data: byte, remaining: int, ck: (byte, byte))
    requires UbloxShape(UbloxId, remaining, ck, m)
    ensures UbloxVerdict(m + [data]) == Partial && UbloxShape(UbloxLength1, remaining, Add(ck, data), m + [data])
  {
    FletcherAppend(m[2..], data);
    assert (m + [data])[2..] == m[2..] + [data];
  }

  lemma UbloxLength1Step(m: seq<byte>, data: byte, remaining: int, ck: (byte, byte))
    requires UbloxShape(UbloxLength1, remaining, ck, m)
    ensures UbloxVerdict(m + [data]) == Partial && UbloxShape(UbloxLength2, data as int, Add(ck, data), m + [data])
  {
    FletcherAppend(m[2..], data);
    assert (m + [data])[2..] == m[2..] + [data];
  }

  lemma UbloxLength2Step(m: seq<byte>, data: byte, remaining: int, ck: (byte, byte))
    requires UbloxShape(UbloxLength2, remaining, ck, m)
    ensures UbloxVerdict(m + [data]) == Partial
    ensures UbloxShape(UbloxPayload, remaining + 256 * (data as int), Add(ck, data), m + [data])
  {
    FletcherAppend(m[2..], data);
    assert (m + [data])[2..] == m[2..] + [data];
  }

  lemma UbloxPayloadStep(m: seq<byte>, data: byte, remaining: int, ck: (byte, byte))
    requires UbloxShape(UbloxPayload, remaining, ck, m)
    ensures UbloxVerdict(m + [data]) == Partial
    ensures if remaining > 0 then UbloxShape(UbloxPayload, U16(remaining - 1), Add(ck, data), m + [data])
            else UbloxShape(UbloxCkB, U16(remaining - 1), ck, m + [data])
  {
    FletcherAppend(m[2..], data);
    assert (m + [data])[2..] == m[2..] + [data];
    assert (m + [data])[2..|m|] == m[2..];
  }

  lemma UbloxCkBStep(m: seq<byte>, data: byte, remaining: int, ck: (byte, byte))
    requires UbloxShape(UbloxCkB, remaining, ck, m)
    ensures UbloxVerdict(m + [data]) == Whole && |m + [data]| >= 8
    ensures UbloxOk(m + [data]) <==> m[|m| - 1] == ck.0 && data == ck.1
  {
    var n := m + [data];
    assert n[2..|n| - 2] == m[2..|m| - 1];
    assert n[|n| - 2] == m[|m| - 1] && n[|n| - 1] == data;
  }

  // ---------------------------------------------------------------------------------------
  // SEMP and Unicore binary
  // ---------------------------------------------------------------------------------------

  datatype BinaryState = BinarySync2 | BinarySync3 | BinaryReadHeader | BinaryReadData | BinaryReadCrc

  predicate BinaryShape(ph: BinaryState, remaining: int, sync: byte, header: nat, size: nat, m: seq<byte>) {
    && 1 <= |m| && m[0] == 0xAA && header >= 4
    && (|m| >= 2 ==> m[1] == 0x44)
    && (|m| >= 3 ==> m[2] == sync)
    && match ph
       case BinarySync2 => |m| == 1
       case BinarySync3 => |m| == 2
       case BinaryReadHeader => 3 <= |m| < header
       case BinaryReadData => header <= |m| < size - 4 && remaining == U16(size - 4 - |m|) && size - 4 - |m| <= 65536
       case BinaryReadCrc => header <= |m| && size - 4 <= |m| < size && remaining == size - |m|
  }

  lemma BinarySync2Step(m: seq<byte>, data: byte, remaining: int, sync: byte, header: nat, size: nat, size': nat)
    requires BinaryShape(BinarySync2, remaining, sync, header, size, m)
    ensures if data != 0x44 then BinaryVerdict(m + [data], sync, header, size') == Broken
            else BinaryVerdict(m + [data], sync, header, size') == Partial
                 && BinaryShape(BinarySync3, remaining, sync, header, size', m + [data])
  {
  }

  lemma BinarySync3Step(m: seq<byte>, data: byte, remaining: int, sync: byte, header: nat, size: nat, size': nat)
    requires BinaryShape(BinarySync3, remaining, sync, header, size, m)
    ensures if data != sync then BinaryVerdict(m + [data], sync, header, size') == Broken
            else BinaryVerdict(m + [data], sync, header, size') == Partial
                 && BinaryShape(BinaryReadHeader, remaining, sync, header, size', m + [data])
  {
  }

  /** The header is complete when its last byte arrives, and then the length field is known. */
  lemma BinaryHeaderStep(m: seq<byte>, data: byte, remaining: int, sync: byte, header: nat, size: nat, size': nat,
                         length: int)
    requires BinaryShape(BinaryReadHeader, remaining, sync, header, size, m)
    requires 0 <= length < 65536 && (|m| + 1 == header ==> size' == header + Wrapped(length) + 4)
    ensures BinaryVerdict(m + [data], sync, header, size') == Partial
    ensures if |m| + 1 >= header then BinaryShape(BinaryReadData, length, sync, header, size', m + [data])
            else BinaryShape(BinaryReadHeader, remaining, sync, header, size', m + [data])
  {
  }

  lemma BinaryDataStep(m: seq<byte>, data: byte, remaining: int, sync: byte, header: nat, size: nat)
    requires BinaryShape(BinaryReadData, remaining, sync, header, size, m)
    ensures BinaryVerdict(m + [data], sync, header, size) == Partial
    ensures if U16(remaining - 1) == 0
            then |m| + 1 == size - 4 && BinaryShape(BinaryReadCrc, 4, sync, header, size, m + [data])
            else BinaryShape(BinaryReadData, U16(remaining - 1), sync, header, size, m + [data])
  {
  }

  lemma BinaryCrcStep(m: seq<byte>, data: byte, remaining: int, sync: byte, header: nat, size: nat)
    requires BinaryShape(BinaryReadCrc, remaining, sync, header, size, m)
    ensures if U16(remaining - 1) > 0
            then BinaryVerdict(m + [data], sync, header, size) == Partial
                 && BinaryShape(BinaryReadCrc, U16(remaining - 1), sync, header, size, m + [data])
            else BinaryVerdict(m + [data], sync, header, size) == Whole && |m| + 1 == size
  {
  }

  /** The register of the SEMP machine: seeded with ones, inverted after `covered` bytes. */
  function SempRegister(covered: int, m: seq<byte>): (r: Bits)
    ensures |r| == 32
  {
    if 0 <= covered <= |m|
    then Residue(POLY32, LsbFirst, Not(Residue(POLY32, LsbFirst, Ones(32), m[..covered])), m[covered..])
    else Residue(POLY32, LsbFirst, Ones(32), m)
  }

  lemma SempRegisterAppend(covered: int, m: seq<byte>, data: byte)
    requires covered != |m| + 1
    ensures SempRegister(covered, m + [data]) == Register(POLY32, SempRegister(covered, m), ByteBits(LsbFirst, data))
  {
    if 0 <= covered <= |m| {
      assert (m + [data])[..covered] == m[..covered] && (m + [data])[covered..] == m[covered..] + [data];
      ResidueAppend(POLY32, LsbFirst, Not(Residue(POLY32, LsbFirst, Ones(32), m[..covered])), m[covered..], data);
    } else {
      ResidueAppend(POLY32, LsbFirst, Ones(32), m, data);
    }
  }

  /** The inversion takes place when the last covered byte has been read. */
  lemma SempRegisterInverts(m: seq<byte>)
    ensures SempRegister(|m|, m) == Not(Residue(POLY32, LsbFirst, Ones(32), m))
  {
    assert m[..|m|] == m && m[|m|..] == [];
  }

  // ---------------------------------------------------------------------------------------
  // SBF
  // ---------------------------------------------------------------------------------------

  datatype SbfState =
    | SbfPreamble2 | SbfCrc1 | SbfCrc2 | SbfId1 | SbfId2 | SbfLengthLsb | SbfLengthMsb | SbfReadBytes

  predicate SbfShape(ph: SbfState, length: int, remaining: int, m: seq<byte>) {
    && 1 <= |m| && m[0] == 0x24
    && (|m| >= 2 ==> m[1] == 0x40)
    && match ph
       case SbfPreamble2 => |m| == 1
       case SbfCrc1 => |m| == 2
       case SbfCrc2 => |m| == 3
       case SbfId1 => |m| == 4
       case SbfId2 => |m| == 5
       case SbfLengthLsb => |m| == 6
       case SbfLengthMsb => |m| == 7 && length == m[6] as int
       case SbfReadBytes =>
         8 <= |m| < SbfSize(m) && remaining == U16(SbfSize(m) - |m|) && SbfSize(m) - |m| <= 65536
  }

  lemma SbfHeaderStep(ph: SbfState, ph': SbfState, m: seq<byte>, data: byte, length: int, remaining: int)
    requires SbfShape(ph, length, remaining, m)
    requires (ph, ph') in {(SbfCrc1, SbfCrc2), (SbfCrc2, SbfId1), (SbfId1, SbfId2), (SbfId2, SbfLengthLsb)}
    ensures SbfVerdict(m + [data]) == Partial && SbfShape(ph', length, remaining, m + [data])
  {
  }

  lemma SbfPreamble2Step(m: seq<byte>, data: byte, length: int, remaining: int)
    requires SbfShape(SbfPreamble2, length, remaining, m)
    ensures if data == 0x40 then SbfVerdict(m + [data]) == Partial && SbfShape(SbfCrc1, length, remaining, m + [data])
            else SbfVerdict(m + [data]) == Dropped
  {
  }

  lemma SbfLengthLsbStep(m: seq<byte>, data: byte, length: int, remaining: int)
    requires SbfShape(SbfLengthLsb, length, remaining, m)
    ensures SbfVerdict(m + [data]) == Partial && SbfShape(SbfLengthMsb, data as int, remaining, m + [data])
  {
  }

  lemma SbfLengthMsbStep(m: seq<byte>, data: byte, length: int, remaining: int, l: nat)
    requires SbfShape(SbfLengthMsb, length, remaining, m) && l == length + 256 * (data as int)
    ensures if l % 4 == 0 then SbfVerdict(m + [data]) == Partial && SbfShape(SbfReadBytes, l, U16(l - 8), m + [data])
            else SbfVerdict(m + [data]) == Dropped
  {
  }

  lemma SbfReadBytesStep(m: seq<byte>, data: byte, length: int, remaining: int)
    requires SbfShape(SbfReadBytes, length, remaining, m)
    ensures if U16(remaining - 1) == 0 then SbfVerdict(m + [data]) == Whole
            else SbfVerdict(m + [data]) == Partial && SbfShape(SbfReadBytes, length, U16(remaining - 1), m + [data])
  {
    assert SbfSize(m + [data]) == SbfSize(m);
  }

  // ---------------------------------------------------------------------------------------
  // SPARTN
  // ---------------------------------------------------------------------------------------

  datatype SpartnState =
    | SpartnReadTF002TF006 | SpartnReadTF007 | SpartnReadTF009 | SpartnReadTF016 | SpartnReadTF017 | SpartnReadTF018

  datatype SpartnFields = SpartnFields(
    frameCount: nat, crcBytes: nat, crcType: nat, description: nat, payloadLength: nat, eaf: nat, embedded: nat)

  /** The fields that the header sets. */
  predicate SpartnHeader(v: SpartnFields, m: seq<byte>)
    requires |m| >= 4
  {
    && v.payloadLength == SpartnPayload(m) && v.eaf == (if SpartnEncrypted(m) then 1 else 0)
    && v.crcBytes == SpartnCrcBytes(m) && v.crcType == v.crcBytes - 1
  }

  predicate SpartnShape(ph: SpartnState, v: SpartnFields, m: seq<byte>) {
    && 1 <= |m| && m[0] == 0x73
    && match ph
       case SpartnReadTF002TF006 =>
         && |m| <= 3 && v.frameCount == |m| - 1
         && (|m| == 2 ==> v.payloadLength == (m[1] & 1) as int)
         && (|m| == 3 ==> v.payloadLength == 256 * ((m[1] & 1) as int) + m[2] as int)
       case SpartnReadTF007 => |m| == 4 && SpartnHeader(v, m)
       case SpartnReadTF009 =>
         && 5 <= |m| < 4 + SpartnDescription(m) && SpartnHeader(v, m)
         && v.description == SpartnDescription(m) && v.frameCount == |m| - 4
       case _ =>
         && |m| >= 5 && |m| >= 4 + SpartnDescription(m) && SpartnHeader(v, m)
         && v.description == SpartnDescription(m) && v.embedded == SpartnEmbedded(m)
         && SpartnFrom(ph, m) <= |m| < SpartnFrom(ph, m) + SpartnLength(ph, m)
         && v.frameCount == |m| - SpartnFrom(ph, m)
  }

  /** Where the field that the state reads begins. */
  function SpartnFrom(ph: SpartnState, m: seq<byte>): nat
    requires |m| >= 5 && |m| >= 4 + SpartnDescription(m)
  {
    4 + SpartnDescription(m)
    + (if ph.SpartnReadTF016? then 0 else Wrapped(SpartnPayload(m)))
    + (if ph.SpartnReadTF018? then SpartnEmbedded(m) else 0)
  }

  function SpartnLength(ph: SpartnState, m: seq<byte>): (n: nat)
    requires |m| >= 5 && |m| >= 4 + SpartnDescription(m)
    ensures n <= 65536
  {
    if ph.SpartnReadTF016? then Wrapped(SpartnPayload(m))
    else if ph.SpartnReadTF017? then SpartnEmbedded(m)
    else SpartnCrcBytes(m)
  }

  /** The payload length after another header byte. */
  function SpartnPayloadBits(v: SpartnFields, data: byte): nat {
    match v.frameCount
    case 0 => (data & 1) as int
    case 1 => 256 * v.payloadLength + data as int
    case _ => 2 * v.payloadLength + (data >> 7) as int
  }

  lemma SpartnHeaderByteStep(v: SpartnFields, m: seq<byte>, data: byte)
    requires SpartnShape(SpartnReadTF002TF006, v, m) && |m| < 3
    ensures SpartnVerdict(m + [data]) == Partial
    ensures SpartnShape(SpartnReadTF002TF006,
                        v.(frameCount := v.frameCount + 1, payloadLength := SpartnPayloadBits(v, data)), m + [data])
  {
  }

  lemma SpartnHeaderEndStep(v: SpartnFields, m: seq<byte>, data: byte, v': SpartnFields)
    requires SpartnShape(SpartnReadTF002TF006, v, m) && |m| == 3
    requires v'.payloadLength == SpartnPayloadBits(v, data) && v'.eaf == ((data >> 6) & 1) as int
    requires v'.crcType == ((data >> 4) & 3) as int && v'.crcBytes == v'.crcType + 1
    ensures if SpartnHeaderOk(m + [data]) then SpartnVerdict(m + [data]) == Partial
            && SpartnShape(SpartnReadTF007, v', m + [data])
            else SpartnVerdict(m + [data]) == Dropped
  {
    HighBits(data);
  }

  lemma HighBits(data: byte)
    ensures (data & 0x40 != 0) == (((data >> 6) & 1) as int == 1)
    ensures (data & 0x40 == 0) == (((data >> 6) & 1) as int == 0)
  {
    assert (data >> 6) & 1 == 0 || (data >> 6) & 1 == 1;
  }

  lemma SpartnTF007Step(v: SpartnFields, m: seq<byte>, data: byte, v': SpartnFields)
    requires SpartnShape(SpartnReadTF007, v, m)
    requires v' == v.(frameCount := 1,
                      description := (if (data >> 3) & 1 == 0 then 4 else 6) + (if v.eaf > 0 then 2 else 0))
    ensures SpartnVerdict(m + [data]) == Partial && SpartnShape(SpartnReadTF009, v', m + [data])
  {
    assert ((data >> 3) & 1 == 0) == (data & 8 == 0);
  }

  lemma SpartnTF009Step(v: SpartnFields, m: seq<byte>, data: byte)
    requires SpartnShape(SpartnReadTF009, v, m)
    ensures SpartnVerdict(m + [data]) == Partial
    ensures if v.frameCount + 1 == v.description
            then SpartnShape(SpartnReadTF016, v.(frameCount := 0, embedded := AuthenticationBytes(v.eaf != 0, data)),
                             m + [data])
            else SpartnShape(SpartnReadTF009, v.(frameCount := v.frameCount + 1), m + [data])
  {
  }

  /** The state after a finished payload or authentication field. */
  function SpartnAfter(ph: SpartnState, embedded: nat): SpartnState {
    if ph.SpartnReadTF016? && embedded > 0 then SpartnReadTF017 else SpartnReadTF018
  }

  lemma SpartnSame(m: seq<byte>, data: byte)
    requires |m| >= 5 && |m| >= 4 + SpartnDescription(m)
    ensures var m' := m + [data];
            && SpartnDescription(m') == SpartnDescription(m) && SpartnPayload(m') == SpartnPayload(m)
            && SpartnCrcBytes(m') == SpartnCrcBytes(m) && SpartnEmbedded(m') == SpartnEmbedded(m)
            && SpartnEncrypted(m') == SpartnEncrypted(m)
  {
  }

  /** The 16-bit count of a field meets its length exactly when the field is finished. */
  lemma SpartnCount(count: nat, length: nat, full: nat)
    requires length < 65536 && full == Wrapped(length) && count < full
    ensures U16(count + 1) == length <==> count + 1 == full
    ensures U16(count + 1) != length ==> U16(count + 1) == count + 1 < full
  {
  }

  lemma SpartnTF016Step(v: SpartnFields, m: seq<byte>, data: byte)
    requires SpartnShape(SpartnReadTF016, v, m)
    ensures SpartnVerdict(m + [data]) == Partial
    ensures if U16(v.frameCount + 1) != v.payloadLength
            then SpartnShape(SpartnReadTF016, v.(frameCount := U16(v.frameCount + 1)), m + [data])
            else SpartnShape(SpartnAfter(SpartnReadTF016, v.embedded), v.(frameCount := 0), m + [data])
  {
    SpartnSame(m, data);
    SpartnCount(v.frameCount, v.payloadLength, SpartnLength(SpartnReadTF016, m));
  }

  lemma SpartnTF017Step(v: SpartnFields, m: seq<byte>, data: byte)
    requires SpartnShape(SpartnReadTF017, v, m)
    ensures SpartnVerdict(m + [data]) == Partial
    ensures if U16(v.frameCount + 1) != v.embedded
            then SpartnShape(SpartnReadTF017, v.(frameCount := U16(v.frameCount + 1)), m + [data])
            else SpartnShape(SpartnReadTF018, v.(frameCount := 0), m + [data])
  {
    SpartnSame(m, data);
    SpartnCount(v.frameCount, v.embedded, SpartnLength(SpartnReadTF017, m));
  }

  lemma SpartnTF018Step(v: SpartnFields, m: seq<byte>, data: byte)
    requires SpartnShape(SpartnReadTF018, v, m)
    ensures if U16(v.frameCount + 1) != v.crcBytes
            then SpartnVerdict(m + [data]) == Partial
                 && SpartnShape(SpartnReadTF018, v.(frameCount := U16(v.frameCount + 1)), m + [data])
            else SpartnVerdict(m + [data]) == Whole && |m| + 1 == SpartnSize(m + [data])
  {
    SpartnSame(m, data);
    SpartnCount(v.frameCount, v.crcBytes, SpartnLength(SpartnReadTF018, m));
  }

  // ---------------------------------------------------------------------------------------
  // Sentences
  // ---------------------------------------------------------------------------------------

  lemma FindAppend(m: seq<byte>, data: byte, b: byte)
    ensures Find(m + [data], b) == if Find(m, b) < |m| then Find(m, b) else if data == b then |m| else |m| + 1
  {
    assert (m + [data])[..|m|] == m;
  }

  predicate InName(p: Routine, m: seq<byte>) {
    && 1 <= |m| <= 16 && Preamble(p, m[0])
    && Find(m, COMMA) == |m| && Find(m, STAR) == |m|
    && forall j | 1 <= j < |m| :: IsNameChar(m[j])
  }

  /** The comma has been read after a name of 1 to 15 characters. */
  predicate Named(p: Routine, m: seq<byte>) {
    && 1 <= |m| && Preamble(p, m[0])
    && 2 <= Find(m, COMMA) <= 16 && Find(m, COMMA) < |m|
    && forall j | 1 <= j < Find(m, COMMA) :: IsNameChar(m[j])
  }

  predicate InBody(p: Routine, bufferLength: nat, m: seq<byte>) {
    && Named(p, m) && Find(m, STAR) == |m|
    && (|m| - 1 == Find(m, COMMA) || |m| + Overhead(p) <= bufferLength)
  }

  /** The asterisk and `n` checksum characters have been read. */
  predicate InChecksum(p: Routine, bufferLength: nat, n: nat, m: seq<byte>) {
    && Named(p, m) && Find(m, COMMA) < Find(m, STAR) < |m| && |m| == Find(m, STAR) + 1 + n
    && Find(m, STAR) + Overhead(p) <= bufferLength
    && forall j | Find(m, STAR) < j < |m| :: IsNibble(m[j])
  }

  lemma NameStep(p: Routine, bufferLength: nat, m: seq<byte>, data: byte)
    requires InName(p, m)
    ensures if data == COMMA && |m| > 1 then
              SentenceVerdict(p, bufferLength, m + [data]) == Partial && InBody(p, bufferLength, m + [data])
            else if !IsNameChar(data) || |m| == 16 then SentenceVerdict(p, bufferLength, m + [data]) == Broken
            else SentenceVerdict(p, bufferLength, m + [data]) == Partial && InName(p, m + [data])
  {
    FindAppend(m, data, COMMA);
    FindAppend(m, data, STAR);
  }

  lemma BodyStep(p: Routine, bufferLength: nat, m: seq<byte>, data: byte)
    requires InBody(p, bufferLength, m) && bufferLength >= 32
    ensures if data == STAR then
              SentenceVerdict(p, bufferLength, m + [data]) == Partial && InChecksum(p, bufferLength, 0, m + [data])
            else if |m| + 1 + Overhead(p) > bufferLength then SentenceVerdict(p, bufferLength, m + [data]) == Broken
            else SentenceVerdict(p, bufferLength, m + [data]) == Partial && InBody(p, bufferLength, m + [data])
  {
    FindAppend(m, data, COMMA);
    FindAppend(m, data, STAR);
  }

  lemma ChecksumStep(p: Routine, bufferLength: nat, n: nat, m: seq<byte>, data: byte)
    requires InChecksum(p, bufferLength, n, m)
    ensures if IsNibble(data) then
              SentenceVerdict(p, bufferLength, m + [data]) == Partial && InChecksum(p, bufferLength, n + 1, m + [data])
            else SentenceVerdict(p, bufferLength, m + [data]) == Broken
    ensures Find(m + [data], STAR) == Find(m, STAR) && ChecksumChars(p, m + [data]) == ChecksumChars(p, m)
  {
    FindAppend(m, data, COMMA);
    FindAppend(m, data, STAR);
    assert Name(m + [data]) == Name(m);
  }
}
