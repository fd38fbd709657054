/**
 The streaming parser: a driver that searches for preambles and hands every byte to the state
 routine of the protocol machine that claimed the message. The parse structure, the message
 buffer and the shared scratch area are updated in place; every routine is proved against the
 stream specification.
 */
module MessageParser {
  import opened Bytes
  import opened Gf2
  import opened Crc
  import opened CrcEngines
  import opened SpartnCrc
  import opened WordBytes
  import opened HexWords
  import opened Formats
  import opened Traces
  import opened Stream
  import opened Trailers
  import opened Tracking
  import opened ParserState

  const NMEA_BUFFER_OVERHEAD := 1 + 2 + 2 + 1
  const UNICORE_HASH_BUFFER_OVERHEAD := 1 + 1 + 1

  lemma FirstClaim(table: seq<Routine>, data: byte, i: nat)
    requires i <= |table| && forall j | 0 <= j < i :: !Preamble(table[j], data)
    requires i < |table| ==> Preamble(table[i], data)
    ensures Claim(table, data) == i
  {
  }

  /** The verdict of a binary machine on a whole message, as the source writes it. */
  lemma BinaryDecision(cfg: Config, i: nat, m: seq<byte>, ok: bool)
    requires i < |cfg.table| && cfg.table[i] in {Rtcm, Ublox, Custom, Spartn, Sbf, UnicoreBinary}
    requires ok == ChecksumOk(cfg.table[i], m)
    ensures Decide(cfg, i, m)
            == if ok || (cfg.badCrc.Some? && !cfg.badCrc.value(m)) then Accepted(i, m) else Rejected(i, m)
  {
  }

  /** The verdict of a sentence machine with two checksum characters. */
  lemma SentenceDecision(cfg: Config, i: nat, m: seq<byte>, ok: bool)
    requires i < |cfg.table| && cfg.table[i] in {Nmea, UnicoreHash} && ChecksumChars(cfg.table[i], m) == 2
    requires ok == ChecksumOk(cfg.table[i], m)
    ensures Decide(cfg, i, m)
            == if ok || (cfg.badCrc.Some? && !cfg.badCrc.value(m)) then Accepted(i, m + CRLF) else Rejected(i, m)
  {
  }

  /** The verdict on a Unicore sentence with an eight-character CRC. */
  lemma HashDecision(cfg: Config, i: nat, m: seq<byte>, ok: bool)
    requires i < |cfg.table| && cfg.table[i] == UnicoreHash && ChecksumChars(cfg.table[i], m) == 8
    requires ok == ChecksumOk(cfg.table[i], m)
    ensures Decide(cfg, i, m)
            == if ok && |m| + 3 <= cfg.bufferLength then Accepted(i, m + CRLF) else Rejected(i, m)
  {
  }

  lemma SpartnChecks(p: Routine, n: seq<byte>, k: nat, covered: seq<byte>, trailer: seq<byte>, matches: bool)
    requires p.Spartn? && |n| >= 8 && k == SpartnCrcBytes(n)
    requires covered == n[1..|n| - k] && trailer == n[|n| - k..]
    requires SpartnVerifies(k - 1, covered, trailer, matches)
    ensures matches == ChecksumOk(p, n)
  {
    SpartnTrailer(n, k, covered, trailer);
  }

  /** The answer of the trailer check for each CRC type. */
  ghost predicate SpartnVerifies(crcType: nat, covered: seq<byte>, trailer: seq<byte>, matches: bool) {
    && (crcType == 0 ==> matches == (MessageBits(MsbFirst, trailer) == Residue(POLY8, MsbFirst, Zeros(8), covered)))
    && (crcType == 1 ==> matches == (MessageBits(MsbFirst, trailer) == Residue(POLY16, MsbFirst, Zeros(16), covered)))
    && (crcType == 2 ==> matches == (MessageBits(MsbFirst, trailer) == Residue(POLY24, MsbFirst, Zeros(24), covered)))
    && (crcType == 3
        ==> matches == (MessageBits(MsbFirst, trailer) == Not(Residue(POLY32, MsbFirst, Ones(32), covered))))
  }

  /** The trailer check: the CRC that the type selects, against the trailer bytes, high byte first. */
  method TrailerMatches(crcType: nat, covered: seq<byte>, trailer: seq<byte>) returns (matches: bool)
    requires crcType < 4 && |trailer| == crcType + 1
    ensures SpartnVerifies(crcType, covered, trailer, matches)
  {
    if crcType == 0 {
      var crc := SpartnCrc8(covered);
      matches := crc == trailer[0];
      Trailer8(crc, trailer);
    } else if crcType == 1 {
      var crc := SpartnCrc16(covered);
      var expected := (trailer[0] as bv16 << 8) | trailer[1] as bv16;
      matches := crc == expected;
      Word16(crc, expected, trailer[0], trailer[1]);
      assert trailer == [trailer[0], trailer[1]];
    } else if crcType == 2 {
      var crc := SpartnCrc24(covered);
      var expected := (((trailer[0] as bv32 << 8) | trailer[1] as bv32) << 8) | trailer[2] as bv32;
      matches := crc == expected;
      Word24(crc, expected, trailer[0], trailer[1], trailer[2]);
      assert trailer == [trailer[0], trailer[1], trailer[2]];
    } else {
      matches := Trailer32(covered, trailer);
    }
  }

  lemma Trailer8(crc: byte, trailer: seq<byte>)
    requires |trailer| == 1
    ensures crc == trailer[0] <==> ByteBits(MsbFirst, crc) == MessageBits(MsbFirst, trailer)
  {
    assert trailer == [trailer[0]];
    MessageBitsOfOne(MsbFirst, trailer[0]);
    if ByteBits(MsbFirst, crc) == MessageBits(MsbFirst, trailer) {
      ByteBitsInjective(MsbFirst, crc, trailer[0]);
    }
  }

  method Trailer32(covered: seq<byte>, trailer: seq<byte>) returns (matches: bool)
    requires |trailer| == 4
    ensures matches == (MessageBits(MsbFirst, trailer) == Not(Residue(POLY32, MsbFirst, Ones(32), covered)))
  {
    var crc := SpartnCrc32(covered);
    var expected := (((((trailer[0] as bv32 << 8) | trailer[1] as bv32) << 8) | trailer[2] as bv32) << 8)
                    | trailer[3] as bv32;
    matches := crc == expected;
    TopWord32(crc, expected, trailer[0], trailer[1], trailer[2], trailer[3]);
    assert trailer == [trailer[0], trailer[1], trailer[2], trailer[3]];
  }

  /** The number of authentication bytes that the last description byte announces. */
  method AuthenticationLength(eaf: nat, data: byte) returns (n: nat)
    ensures n == AuthenticationBytes(eaf != 0, data)
    ensures n == if eaf == 0 || (data >> 3) & 7 <= 1 then 0 else [8, 12, 16, 32, 64, 64, 64, 64][(data & 7) as int]
  {
    if eaf == 0 {
      return 0;
    }
    var indicator := (data >> 3) & 0x07;
    if indicator <= 1 {
      return 0;
    }
    match data & 0x07
    case 0 => n := 8;
    case 1 => n := 12;
    case 2 => n := 16;
    case 3 => n := 32;
    case _ => n := 64;
  }

  /** When the trailer is complete the fields describe the whole message. */
  lemma SpartnWhole(v: SpartnFields, m: seq<byte>, data: byte)
    requires SpartnShape(SpartnReadTF018, v, m)
    requires |m| + 1 == SpartnSize(m + [data]) <= 65535
    ensures v.payloadLength > 0 && 4 + v.description + v.payloadLength + v.embedded == |m| + 1 - v.crcBytes
    ensures v.crcBytes == SpartnCrcBytes(m + [data]) == v.crcType + 1 <= 4
  {
    SpartnSame(m, data);
  }

  /** The running CRC of a re-scan, unfolded only where the register is mentioned. */
  predicate HashCrc(crc: bv32, s: seq<byte>) {
    forall b | b == s :: Bits32(crc) == Residue(POLY32, LsbFirst, Zeros(32), b)
  }

  lemma EmptyResidue()
    ensures HashCrc(0, [])
  {
    Clear32(0);
  }

  method ExtendCrc(crc: bv32, ghost s: seq<byte>, data: byte) returns (value: bv32)
    requires HashCrc(crc, s)
    ensures HashCrc(value, s + [data])
  {
    ResidueAppend(POLY32, LsbFirst, Zeros(32), s, data);
    value := ComputeCrc32(crc, data);
  }

  /** Re-scans a sentence: the CRC runs from behind the preamble to the first asterisk. */
  method HashComputed(text: seq<byte>) returns (value: bv32, next: nat)
    requires 2 <= Find(text, STAR) < |text|
    ensures next == Find(text, STAR) && HashCrc(value, text[1..next])
  {
    EmptyResidue();
    value := 0;
    next := 1;
    while next == 1 || text[next] != STAR
      invariant 1 <= next <= Find(text, STAR)
      invariant HashCrc(value, text[1..next])
      decreases |text| - next
    {
      assert text[1..next + 1] == text[1..next] + [text[next]];
      value := ExtendCrc(value, text[1..next], text[next]);
      next := next + 1;
    }
  }

  method ShiftNibble(received: bv32, ghost s: seq<byte>, data: byte) returns (value: bv32)
    requires |s| < 8 && IsNibble(data) && TopBits32(received)[32 - 4 * |s|..] == HexBits(s)
    ensures TopBits32(value)[28 - 4 * |s|..] == HexBits(s + [data])
  {
    var n := AsciiToNibble(data);
    var w := n as bv32;
    NibbleWord(n, w);
    value := (received << 4) | w;
    HexStep(s, data, n, received, w, received << 4, value, w as bv8);
  }

  /** The eight checksum characters as a word. */
  method HashReceived(digits: seq<byte>) returns (received: bv32)
    requires |digits| == 8 && forall j | 0 <= j < 8 :: IsNibble(digits[j])
    ensures TopBits32(received) == HexBits(digits)
  {
    received := 0;
    var i := 0;
    while i < 8
      invariant i <= 8 && TopBits32(received)[32 - 4 * i..] == HexBits(digits[..i])
    {
      received := ShiftNibble(received, digits[..i], digits[i]);
      assert digits[..i + 1] == digits[..i] + [digits[i]];
      i := i + 1;
    }
    assert digits[..8] == digits && TopBits32(received)[0..] == TopBits32(received);
  }

  /** The CRC of the sentence against its eight characters. */
  method HashCompare(text: seq<byte>) returns (same: bool)
    requires 2 <= Find(text, STAR) && |text| == Find(text, STAR) + 9
    requires forall j | Find(text, STAR) < j < |text| :: IsNibble(text[j])
    ensures same <==> HashOk(text)
  {
    var value, star := HashComputed(text);
    var received := HashReceived(text[star + 1..star + 9]);
    HexCompare(value, received, text[star + 1..star + 9]);
    same := value == received;
    assert Bits32(value) == Residue(POLY32, LsbFirst, Zeros(32), text[1..star]);
  }

  /** Whether the word MODE occurs in the name. */
  method FindMode(name: seq<byte>) returns (found: bool)
    ensures found <==> Contains(name, MODE)
  {
    var i := 0;
    while i + 4 <= |name|
      invariant i <= |name| && forall j | 0 <= j < i :: !OccursAt(name, j, MODE)
    {
      if name[i..i + 4] == MODE {
        assert OccursAt(name, i, MODE);
        return true;
      }
      assert !OccursAt(name, i, MODE);
      i := i + 1;
    }
    forall j | 0 <= j <= |name| ensures !OccursAt(name, j, MODE) {
    }
    return false;
  }

  /** An accepted sentence leaves no room for its terminator and its NUL. */
  predicate PastTheEnd(cfg: Config, p: Routine, m: seq<byte>) {
    p.UnicoreHash? && ChecksumChars(p, m) == 2 && Passes(cfg, p, m) && |m| + 3 > cfg.bufferLength
  }

  /** Reading the byte writes behind the buffer. */
  predicate Overruns(cfg: Config, st: State, data: byte) {
    && st.Busy? && Proper(cfg, st) && |st.msg| < cfg.bufferLength && Ready(cfg.table[st.index], st.msg)
    && NextEnding(cfg, st, data).events != [] && PastTheEnd(cfg, cfg.table[st.index], st.msg)
  }

  /** Reading the byte writes behind the buffer exactly when it passes on a sentence without room for its NUL. */
  lemma OverrunIsSpill(cfg: Config, st: State, data: byte)
    requires cfg.Valid() && Proper(cfg, st) && forall p | p in cfg.table :: Supported(p)
    requires st.Busy? && cfg.table[st.index].Nmea? && Ready(Nmea, st.msg) ==> |st.msg| + 3 <= cfg.bufferLength
    ensures Overruns(cfg, st, data) <==> SomeSpilled(cfg, Next(cfg, st, data).events)
  {
    if st.Busy? && |st.msg| < cfg.bufferLength {
      var p, e := cfg.table[st.index], Decide(cfg, st.index, st.msg);
      assert p in cfg.table;
      if Ready(p, st.msg) {
        EndingSpills(cfg, st.index, p, st.msg, e);
        assert NextEnding(cfg, st, data).events != [] ==> e in NextEnding(cfg, st, data).events;
      } else {
        InsideSpillsNothing(cfg, st.index, st.msg, data);
      }
    }
  }

  lemma EndingSpills(cfg: Config, i: nat, p: Routine, m: seq<byte>, e: Event)
    requires i < |cfg.table| && p == cfg.table[i] && p in {Nmea, UnicoreHash} && e == Decide(cfg, i, m)
    requires p.Nmea? ==> |m| + 3 <= cfg.bufferLength
    ensures Spilled(cfg, e) <==> PastTheEnd(cfg, p, m)
  {
  }

  lemma InsideSpillsNothing(cfg: Config, i: nat, m: seq<byte>, data: byte)
    requires i < |cfg.table| && 1 <= |m|
    ensures !SomeSpilled(cfg, NextByte(cfg, i, m, data).events)
  {
  }

  class Parser {
    const table: seq<Routine>
    const bufferLength: nat
    const badCrc: Option<seq<byte> -> bool>
    /** Two cells longer than the buffer, to show what is written behind it. */
    const buffer: array<byte>
    var phase: Phase
    var computeCrc: CrcRoutine
    var crc: bv32
    var msgLength: nat
    var parserType: nat
    var scratch: Scratch
    /** The checksum decisions so far. */
    ghost var log: seq<Event>
    /** Something has been written behind the buffer. */
    ghost var overrun: bool

    /** Starts a parser; a buffer below the minimum is enlarged. */
    constructor (parsers: seq<Routine>, length: nat, minimum: nat, callback: Option<seq<byte> -> bool>)
      requires 0 < |parsers| <= 255 && (forall p | p in parsers :: Supported(p))
      requires length <= 65535 && 32 <= minimum <= 65535
      ensures Valid() && State() == Idle && log == [] && !overrun && fresh(buffer)
      ensures Cfg() == Config(parsers, if length < minimum then minimum else length, callback)
    {
      table := parsers;
      bufferLength := if length < minimum then minimum else length;
      badCrc := callback;
      var size := if length < minimum then minimum else length;
      buffer := new byte[size + 2];
      phase := FirstByte;
      computeCrc := NoCrc;
      crc := 0;
      msgLength := 0;
      parserType := 0;
      scratch := RtcmValues(0);
      log := [];
      overrun := false;
    }

    ghost function Cfg(): Config {
      Config(table, bufferLength, badCrc)
    }

    ghost predicate Configured() {
      && Cfg().Valid() && buffer.Length == bufferLength + 2
      && forall p | p in table :: Supported(p)
    }

    ghost function Now(): Fields
      reads this
    {
      Fields(phase, computeCrc, crc, scratch)
    }

    ghost predicate Valid()
      reads this, buffer
    {
      && Configured() && msgLength <= buffer.Length
      && (phase != FirstByte ==>
            && 1 <= msgLength <= bufferLength && parserType < |table|
            && Follows(table[parserType], bufferLength, Now(), buffer[..msgLength]))
    }

    /** The state of the stream specification that the fields stand for. */
    ghost function State(): State
      requires msgLength <= buffer.Length
      reads this, buffer
    {
      if phase == FirstByte then Idle else Busy(parserType, buffer[..msgLength], EndingOf(phase))
    }

    /** The byte has been offered to the table. */
    ghost predicate Offered(data: byte)
      reads this, buffer
    {
      && Configured() && msgLength == 1 && buffer[0] == data
      && parserType == Claim(table, data)
      && (if parserType == |table| then phase == FirstByte
          else Begun(table[parserType], Now(), data))
    }

    lemma OfferedIsOffer(data: byte)
      requires Offered(data)
      ensures Valid() && State() == Offer(Cfg(), data)
    {
      assert buffer[..1] == [data];
      if parserType < |table| {
        BegunTracks(table[parserType], bufferLength, Now(), data);
      }
    }

    /** The byte `data` has just been stored behind the message `m`. */
    ghost predicate Stored(p: Routine, m: seq<byte>, data: byte)
      reads this, buffer
    {
      && Configured() && 1 <= |m| && msgLength == |m| + 1 <= bufferLength
      && buffer[..msgLength] == m + [data] && parserType < |table| && table[parserType] == p
    }

    /** What a verdict on the message `m`, which ends in `data`, leaves behind. */
    ghost predicate Result(v: Verdict, tracks: bool, index: nat, m: seq<byte>, data: byte, before: seq<Event>,
                           over: bool)
      reads this, buffer
    {
      && Configured() && msgLength <= buffer.Length && index < |table| && overrun == over
      && match v
         case Partial => tracks && phase != FirstByte && EndingOf(phase).NoEnding? && parserType == index
                         && msgLength == |m| && buffer[..msgLength] == m && log == before
         case Whole => phase == FirstByte && Logged(log, before, Cfg(), index, m)
         case Failed => phase == FirstByte && log == before + [Rejected(index, m)]
         case Broken => Offered(data) && log == before
         case Dropped => phase == FirstByte && log == before
    }

    // The same for each machine, with its own verdict and fields.

    ghost predicate RtcmResult(n: seq<byte>, data: byte, index: nat, before: seq<Event>, over: bool)
      requires |n| >= 2
      reads this, buffer
    {
      Result(RtcmVerdict(n), RtcmTracks(Now(), n), index, n, data, before, over)
    }

    ghost predicate UbloxResult(n: seq<byte>, data: byte, index: nat, before: seq<Event>, over: bool)
      requires |n| >= 2
      reads this, buffer
    {
      Result(UbloxVerdict(n), UbloxTracks(Now(), n), index, n, data, before, over)
    }

    ghost predicate CustomResult(n: seq<byte>, data: byte, index: nat, before: seq<Event>, over: bool)
      requires |n| >= 2
      reads this, buffer
    {
      Result(BinaryVerdict(n, 0x18, 20, CustomSize(n)), CustomTracks(Now(), n), index, n, data, before, over)
    }

    ghost predicate UnicoreBinaryResult(n: seq<byte>, data: byte, index: nat, before: seq<Event>, over: bool)
      requires |n| >= 2
      reads this, buffer
    {
      Result(BinaryVerdict(n, 0xB5, 24, UnicoreSize(n)), UnicoreTracks(Now(), n), index, n, data, before, over)
    }

    ghost predicate SbfResult(n: seq<byte>, data: byte, index: nat, before: seq<Event>, over: bool)
      requires |n| >= 2
      reads this, buffer
    {
      Result(SbfVerdict(n), SbfTracks(Now(), n), index, n, data, before, over)
    }

    ghost predicate SpartnResult(n: seq<byte>, data: byte, index: nat, before: seq<Event>, over: bool)
      requires |n| >= 2
      reads this, buffer
    {
      Result(SpartnVerdict(n), SpartnTracks(Now(), n), index, n, data, before, over)
    }

    ghost predicate NmeaResult(n: seq<byte>, data: byte, index: nat, before: seq<Event>, over: bool)
      requires |n| >= 2
      reads this, buffer
    {
      Result(SentenceVerdict(Nmea, bufferLength, n), NmeaTracks(Now(), bufferLength, n), index, n, data, before, over)
    }

    ghost predicate HashResult(n: seq<byte>, data: byte, index: nat, before: seq<Event>, over: bool)
      requires |n| >= 2
      reads this, buffer
    {
      Result(SentenceVerdict(UnicoreHash, bufferLength, n), HashTracks(Now(), bufferLength, n), index, n, data, before,
             over)
    }

    /** The message `m` is still being read, and nothing has been decided. */
    ghost predicate Kept(m: seq<byte>, index: nat, before: seq<Event>, over: bool)
      reads this, buffer
    {
      && Configured() && parserType == index < |table| && msgLength == |m| <= bufferLength
      && buffer[..msgLength] == m && log == before && overrun == over
    }

    /** A state routine that can end a message has read on or decided. */
    ghost predicate Ended(v: Verdict, tracks: bool, m: seq<byte>, before: seq<Event>)
      reads this
      requires parserType < |table|
    {
      if v == Partial then tracks && log == before
      else if v == Dropped then phase == FirstByte && log == before
      else v == Whole && phase == FirstByte && Logged(log, before, Cfg(), parserType, m)
    }

    lemma KeptResult(m: seq<byte>, data: byte)
      requires Configured() && parserType < |table| && msgLength <= bufferLength && buffer[..msgLength] == m
      requires phase != FirstByte && EndingOf(phase).NoEnding?
      ensures Result(Partial, true, parserType, m, data, log, overrun)
    {
    }

    lemma EndedResult(v: Verdict, tracks: bool, m: seq<byte>, data: byte, before: seq<Event>)
      requires Configured() && parserType < |table| && msgLength <= bufferLength && buffer[..msgLength] == m
      requires Ended(v, tracks, m, before) && (tracks ==> phase != FirstByte && EndingOf(phase).NoEnding?)
      ensures Result(v, tracks, parserType, m, data, before, overrun)
    {
    }

    /** A verdict acts as the stream specification says. */
    lemma ResultIsNext(index: nat, m: seq<byte>, data: byte, before: seq<Event>, over: bool)
      requires Configured() && index < |table| && 1 <= |m| < bufferLength
      requires Result(Verdicts(table[index], bufferLength, m + [data]),
                      Tracks(table[index], bufferLength, Now(), m + [data]), index, m + [data], data, before, over)
      ensures Valid() && State() == NextByte(Cfg(), index, m, data).state
      ensures log == before + NextByte(Cfg(), index, m, data).events && overrun == over
    {
      if Verdicts(table[index], bufferLength, m + [data]).Broken? {
        OfferedIsOffer(data);
      }
    }

    /** The end-of-message callback, or the debug message that replaces it. */
    ghost method Report(passed: bool)
      requires msgLength <= buffer.Length
      modifies this`log
      ensures log == old(log) + [if passed then Accepted(parserType, buffer[..msgLength])
                                 else Rejected(parserType, buffer[..msgLength])]
    {
      log := log + [if passed then Accepted(parserType, buffer[..msgLength])
                    else Rejected(parserType, buffer[..msgLength])];
    }

    /** The message is complete: the checksum, or the callback for bad ones, decides. */
    method Conclude(ghost m: seq<byte>, ok: bool)
      requires parserType < |table| && table[parserType] in {Rtcm, Ublox, Custom, Spartn, Sbf, UnicoreBinary}
      requires msgLength <= buffer.Length && buffer[..msgLength] == m && ok == ChecksumOk(table[parserType], m)
      modifies this`phase, this`log
      ensures phase == FirstByte && Logged(log, old(log), Cfg(), parserType, m)
    {
      BinaryDecision(Cfg(), parserType, m, ok);
      Report(ok || (badCrc.Some? && !badCrc.value(buffer[..msgLength])));
      phase := FirstByte;
    }

    // -------------------------------------------------------------------------------------
    // The driver
    // -------------------------------------------------------------------------------------

    /** Looks for a parser that claims the byte as its preamble. */
    method SempFirstByte(data: byte) returns (found: bool)
      requires Configured()
      modifies this`phase, this`computeCrc, this`crc, this`msgLength, this`parserType, this`scratch, buffer
      ensures Offered(data)
      ensures found == (Claim(table, data) < |table|)
    {
      crc := 0;
      computeCrc := NoCrc;
      msgLength := 0;
      parserType := |table|;
      buffer[msgLength] := data;
      msgLength := msgLength + 1;
      var index := 0;
      while index < |table|
        invariant index <= |table| && msgLength == 1 && buffer[0] == data
        invariant crc == 0 && computeCrc == NoCrc && log == old(log) && overrun == old(overrun)
        invariant parserType == |table| && forall j | 0 <= j < index :: !Preamble(table[j], data)
      {
        found := PreambleOf(table[index], data);
        if found {
          parserType := index;
          FirstClaim(table, data, index);
          return;
        }
        index := index + 1;
      }
      FirstClaim(table, data, index);
      phase := FirstByte;
      found := false;
    }

    /** The preamble routine that a table entry points to. */
    method PreambleOf(p: Routine, data: byte) returns (found: bool)
      requires Supported(p) && crc == 0 && computeCrc == NoCrc
      modifies this`phase, this`computeCrc, this`crc, this`scratch
      ensures found == Preamble(p, data)
      ensures if found then Begun(p, Now(), data) else crc == 0 && computeCrc == NoCrc
    {
      if p.Nmea? {
        found := SempNmeaPreamble(data);
      } else if p.Rtcm? {
        found := SempRtcmPreamble(data);
      } else if p.Ublox? {
        found := SempUbloxPreamble(data);
      } else if p.UnicoreHash? {
        found := SempUnicoreHashPreamble(data);
      } else if p.Custom? {
        found := SempCustomPreamble(data);
      } else if p.Spartn? {
        found := SempSpartnPreamble(data);
      } else if p.Sbf? {
        found := SempSbfPreamble(data);
      } else {
        found := SempUnicoreBinaryPreamble(data);
      }
    }

    // -------------------------------------------------------------------------------------
    // RTCM
    // -------------------------------------------------------------------------------------

    method SempRtcmPreamble(data: byte) returns (found: bool)
      requires crc == 0 && computeCrc == NoCrc
      modifies this`phase, this`computeCrc, this`crc, this`scratch
      ensures found == Preamble(Rtcm, data)
      ensures if found then Begun(Rtcm, Now(), data) else crc == 0 && computeCrc == NoCrc
    {
      if data != 0xD3 {
        return false;
      }
      computeCrc := Crc24q;
      Clear24(crc);
      crc := ComputeCrc24q(crc, data);
      ResidueOfOne(POLY24, MsbFirst, Zeros(24), data);
      phase := RtcmPhase(RtcmReadLength1);
      return true;
    }

    method SempRtcmReadLength1(ghost m: seq<byte>, data: byte)
      requires Stored(Rtcm, m, data) && RtcmEntered(Now(), m, data) && phase.rtcm == RtcmReadLength1
      modifies this`phase, this`computeCrc, this`crc, this`msgLength, this`parserType, this`scratch, buffer
      ensures RtcmResult(m + [data], data, old(parserType), log, overrun)
    {
      RtcmLength1Step(m, data, if scratch.RtcmValues? then scratch.remaining else 0);
      if data & 0xFC != 0 {
        var _ := SempFirstByte(data);
        return;
      }
      scratch := RtcmValues(256 * (data as int));
      phase := RtcmPhase(RtcmReadLength2);
    }

    method SempRtcmReadLength2(ghost m: seq<byte>, data: byte)
      requires RtcmEntered(Now(), m, data) && phase.rtcm == RtcmReadLength2
      modifies this`phase, this`scratch
      ensures RtcmVerdict(m + [data]) == Partial && RtcmTracks(Now(), m + [data])
    {
      RtcmLength2Step(m, data, scratch.remaining);
      scratch := RtcmValues(scratch.remaining + data as int);
      phase := RtcmPhase(RtcmReadMessage1);
    }

    method SempRtcmReadMessage1(ghost m: seq<byte>, data: byte)
      requires RtcmEntered(Now(), m, data) && phase.rtcm == RtcmReadMessage1
      modifies this`phase, this`scratch
      ensures RtcmVerdict(m + [data]) == Partial && RtcmTracks(Now(), m + [data])
    {
      RtcmMessage1Step(m, data, scratch.remaining);
      scratch := RtcmValues(U16(scratch.remaining - 1));
      phase := RtcmPhase(RtcmReadMessage2);
    }

    method SempRtcmReadMessage2(ghost m: seq<byte>, data: byte)
      requires RtcmEntered(Now(), m, data) && phase.rtcm == RtcmReadMessage2
      modifies this`phase, this`scratch
      ensures RtcmVerdict(m + [data]) == Partial && RtcmTracks(Now(), m + [data])
    {
      RtcmMessage2Step(m, data, scratch.remaining);
      scratch := RtcmValues(U16(scratch.remaining - 1));
      phase := RtcmPhase(RtcmReadData);
    }

    method SempRtcmReadData(ghost m: seq<byte>, data: byte)
      requires RtcmEntered(Now(), m, data) && phase.rtcm == RtcmReadData
      modifies this`phase, this`scratch
      ensures RtcmVerdict(m + [data]) == Partial && RtcmTracks(Now(), m + [data])
    {
      RtcmDataStep(m, data, scratch.remaining);
      scratch := RtcmValues(U16(scratch.remaining - 1));
      if scratch.remaining <= 0 {
        scratch := RtcmValues(3);
        phase := RtcmPhase(RtcmReadCrc);
      }
    }

    method SempRtcmReadCrc(ghost m: seq<byte>, data: byte)
      requires Stored(Rtcm, m, data) && RtcmEntered(Now(), m, data) && phase.rtcm == RtcmReadCrc
      modifies this`phase, this`scratch, this`log
      ensures Ended(RtcmVerdict(m + [data]), RtcmTracks(Now(), m + [data]), m + [data], old(log))
    {
      RtcmCrcStep(m, data, scratch.remaining);
      scratch := RtcmValues(U16(scratch.remaining - 1));
      if scratch.remaining > 0 {
        return;
      }
      Clear24(crc);
      Conclude(m + [data], crc == 0);
    }

    method RtcmInside(ghost m: seq<byte>, data: byte)
      requires RtcmEntered(Now(), m, data) && phase.rtcm !in {RtcmReadLength1, RtcmReadCrc}
      modifies this`phase, this`scratch
      ensures RtcmVerdict(m + [data]) == Partial && RtcmTracks(Now(), m + [data])
    {
      match phase.rtcm
      case RtcmReadLength2 => SempRtcmReadLength2(m, data);
      case RtcmReadMessage1 => SempRtcmReadMessage1(m, data);
      case RtcmReadMessage2 => SempRtcmReadMessage2(m, data);
      case RtcmReadData => SempRtcmReadData(m, data);
    }

    method RtcmByte(ghost m: seq<byte>, data: byte)
      requires Stored(Rtcm, m, data) && RtcmEntered(Now(), m, data)
      modifies this, buffer
      ensures RtcmResult(m + [data], data, old(parserType), old(log), old(overrun))
    {
      if phase.rtcm == RtcmReadLength1 {
        SempRtcmReadLength1(m, data);
      } else if phase.rtcm == RtcmReadCrc {
        SempRtcmReadCrc(m, data);
        EndedResult(RtcmVerdict(m + [data]), RtcmTracks(Now(), m + [data]), m + [data], data, old(log));
      } else {
        RtcmInside(m, data);
        KeptResult(m + [data], data);
      }
    }

    // -------------------------------------------------------------------------------------
    // u-blox
    // -------------------------------------------------------------------------------------

    method SempUbloxPreamble(data: byte) returns (found: bool)
      requires crc == 0 && computeCrc == NoCrc
      modifies this`phase, this`computeCrc, this`crc, this`scratch
      ensures found == Preamble(Ublox, data)
      ensures if found then Begun(Ublox, Now(), data) else crc == 0 && computeCrc == NoCrc
    {
      if data != 0xB5 {
        return false;
      }
      phase := UbloxPhase(UbloxSync2);
      return true;
    }

    method SempUbloxSync2(ghost m: seq<byte>, data: byte)
      requires Stored(Ublox, m, data) && UbloxTracks(Now(), m) && phase.ublox == UbloxSync2
      modifies this`phase, this`computeCrc, this`crc, this`msgLength, this`parserType, this`scratch, buffer
      ensures UbloxResult(m + [data], data, old(parserType), log, overrun)
    {
      UbloxSync2Step(m, data, if scratch.UbloxValues? then scratch.remaining else 0,
                     if scratch.UbloxValues? then (scratch.ckA, scratch.ckB) else (0, 0));
      if data != 0x62 {
        var _ := SempFirstByte(data);
        return;
      }
      phase := UbloxPhase(UbloxClass);
    }

    method SempUbloxClass(ghost m: seq<byte>, data: byte)
      requires UbloxTracks(Now(), m) && phase.ublox == UbloxClass
      modifies this`phase, this`scratch
      ensures UbloxVerdict(m + [data]) == Partial && UbloxTracks(Now(), m + [data])
    {
      UbloxClassStep(m, data, if scratch.UbloxValues? then scratch.remaining else 0,
                     if scratch.UbloxValues? then (scratch.ckA, scratch.ckB) else (0, 0));
      scratch := UbloxValues(if scratch.UbloxValues? then scratch.remaining else 0, data, data);
      phase := UbloxPhase(UbloxId);
    }

    method SempUbloxId(ghost m: seq<byte>, data: byte)
      requires UbloxTracks(Now(), m) && phase.ublox == UbloxId
      modifies this`phase, this`scratch
      ensures UbloxVerdict(m + [data]) == Partial && UbloxTracks(Now(), m + [data])
    {
      var ck := Add((scratch.ckA, scratch.ckB), data);
      var remaining := scratch.remaining;
      UbloxIdFields(Now(), m, data, ck, remaining);
      scratch := UbloxValues(remaining, ck.0, ck.1);
      phase := UbloxPhase(UbloxLength1);
    }

    method SempUbloxLength1(ghost m: seq<byte>, data: byte)
      requires UbloxTracks(Now(), m) && phase.ublox == UbloxLength1
      modifies this`phase, this`scratch
      ensures UbloxVerdict(m + [data]) == Partial && UbloxTracks(Now(), m + [data])
    {
      var ck := Add((scratch.ckA, scratch.ckB), data);
      var remaining := data as int;
      UbloxLength1Fields(Now(), m, data, ck, remaining);
      scratch := UbloxValues(remaining, ck.0, ck.1);
      phase := UbloxPhase(UbloxLength2);
    }

    method SempUbloxLength2(ghost m: seq<byte>, data: byte)
      requires UbloxTracks(Now(), m) && phase.ublox == UbloxLength2
      modifies this`phase, this`scratch
      ensures UbloxVerdict(m + [data]) == Partial && UbloxTracks(Now(), m + [data])
    {
      var ck := Add((scratch.ckA, scratch.ckB), data);
      var remaining := scratch.remaining + 256 * (data as int);
      UbloxLength2Fields(Now(), m, data, ck, remaining);
      scratch := UbloxValues(remaining, ck.0, ck.1);
      phase := UbloxPhase(UbloxPayload);
    }

    method SempUbloxPayload(ghost m: seq<byte>, data: byte)
      requires UbloxTracks(Now(), m) && phase.ublox == UbloxPayload
      modifies this`phase, this`scratch
      ensures UbloxVerdict(m + [data]) == Partial && UbloxTracks(Now(), m + [data])
    {
      var more := scratch.remaining > 0;
      var remaining := U16(scratch.remaining - 1);
      if more {
        var ck := Add((scratch.ckA, scratch.ckB), data);
        UbloxPayloadFields(Now(), m, data, ck, remaining);
        scratch := UbloxValues(remaining, ck.0, ck.1);
        return;
      }
      scratch := UbloxValues(remaining, scratch.ckA, scratch.ckB);
      SempUbloxCkA(m, data);
    }

    /** The first checksum byte is kept but not covered: the sums stay those of class to payload. */
    method SempUbloxCkA(ghost m: seq<byte>, data: byte)
      requires phase == UbloxPhase(UbloxPayload) && scratch.UbloxValues? && scratch.remaining == U16(-1)
      requires UbloxTracks(Now().(scratch := UbloxValues(0, scratch.ckA, scratch.ckB)), m)
      modifies this`phase
      ensures UbloxVerdict(m + [data]) == Partial && UbloxTracks(Now(), m + [data])
      ensures |m| + 1 == UbloxSize(m + [data]) - 1 && (scratch.ckA, scratch.ckB) == Fletcher(m[2..])
    {
      UbloxCkAFields(Now().(scratch := UbloxValues(0, scratch.ckA, scratch.ckB)), m, data, scratch.remaining);
      phase := UbloxPhase(UbloxCkB);
    }

    method SempUbloxCkB(ghost m: seq<byte>, data: byte)
      requires Stored(Ublox, m, data) && UbloxTracks(Now(), m) && phase.ublox == UbloxCkB
      modifies this`phase, this`msgLength, this`log
      ensures UbloxVerdict(m + [data]) == Whole && msgLength == 0
      ensures phase == FirstByte && Logged(log, old(log), Cfg(), parserType, m + [data])
    {
      UbloxCkBStep(m, data, scratch.remaining, (scratch.ckA, scratch.ckB));
      var badChecksum := buffer[msgLength - 2] != scratch.ckA || buffer[msgLength - 1] != scratch.ckB;
      assert buffer[msgLength - 2] == (m + [data])[|m| - 1] && buffer[msgLength - 1] == (m + [data])[|m|];
      Conclude(m + [data], !badChecksum);
      msgLength := 0;
    }

    method UbloxInside(ghost m: seq<byte>, data: byte)
      requires UbloxTracks(Now(), m) && phase.ublox !in {UbloxSync2, UbloxCkB}
      modifies this`phase, this`scratch
      ensures UbloxVerdict(m + [data]) == Partial && UbloxTracks(Now(), m + [data])
    {
      match phase.ublox
      case UbloxClass => SempUbloxClass(m, data);
      case UbloxId => SempUbloxId(m, data);
      case UbloxLength1 => SempUbloxLength1(m, data);
      case UbloxLength2 => SempUbloxLength2(m, data);
      case UbloxPayload => SempUbloxPayload(m, data);
    }

    method UbloxByte(ghost m: seq<byte>, data: byte)
      requires Stored(Ublox, m, data) && UbloxTracks(Now(), m)
      modifies this, buffer
      ensures UbloxResult(m + [data], data, old(parserType), old(log), old(overrun))
    {
      if phase.ublox == UbloxSync2 {
        SempUbloxSync2(m, data);
      } else if phase.ublox == UbloxCkB {
        SempUbloxCkB(m, data);
      } else {
        UbloxInside(m, data);
        KeptResult(m + [data], data);
      }
    }

    // -------------------------------------------------------------------------------------
    // SEMP (custom)
    // -------------------------------------------------------------------------------------

    method SempCustomPreamble(data: byte) returns (found: bool)
      requires crc == 0 && computeCrc == NoCrc
      modifies this`phase, this`computeCrc, this`crc, this`scratch
      ensures found == Preamble(Custom, data)
      ensures if found then Begun(Custom, Now(), data) else crc == 0 && computeCrc == NoCrc
    {
      if data != 0xAA {
        return false;
      }
      crc := 0xFFFFFFFF;
      BottomOnes();
      computeCrc := Crc32;
      crc := ComputeCrc32(crc, data);
      ResidueOfOne(POLY32, LsbFirst, Ones(32), data);
      phase := CustomPhase(BinarySync2);
      return true;
    }

    method SempCustomSync2(ghost m: seq<byte>, data: byte)
      requires Stored(Custom, m, data) && CustomShape(Now(), m) && phase.custom == BinarySync2
      modifies this`phase, this`computeCrc, this`crc, this`msgLength, this`parserType, this`scratch, buffer
      ensures Result(BinaryVerdict(m + [data], 0x18, 20, CustomSize(m + [data])),
                     CustomShape(Now(), m + [data]) && phase == CustomPhase(BinarySync3) && crc == old(crc),
                     old(parserType), m + [data], data, log, overrun)
    {
      BinarySync2Step(m, data, if scratch.CustomValues? then scratch.remaining else 0, 0x18, 20, CustomSize(m),
                      CustomSize(m + [data]));
      if data != 0x44 {
        var _ := SempFirstByte(data);
        return;
      }
      phase := CustomPhase(BinarySync3);
    }

    method SempCustomSync3(ghost m: seq<byte>, data: byte)
      requires Stored(Custom, m, data) && CustomShape(Now(), m) && phase.custom == BinarySync3
      modifies this`phase, this`computeCrc, this`crc, this`msgLength, this`parserType, this`scratch, buffer
      ensures Result(BinaryVerdict(m + [data], 0x18, 20, CustomSize(m + [data])),
                     CustomShape(Now(), m + [data]) && phase == CustomPhase(BinaryReadHeader) && crc == old(crc),
                     old(parserType), m + [data], data, log, overrun)
    {
      BinarySync3Step(m, data, if scratch.CustomValues? then scratch.remaining else 0, 0x18, 20, CustomSize(m),
                      CustomSize(m + [data]));
      if data != 0x18 {
        var _ := SempFirstByte(data);
        return;
      }
      phase := CustomPhase(BinaryReadHeader);
    }

    method SempCustomReadHeader(ghost m: seq<byte>, data: byte)
      requires Stored(Custom, m, data) && CustomShape(Now(), m) && phase.custom == BinaryReadHeader
      modifies this`phase, this`scratch
      ensures BinaryVerdict(m + [data], 0x18, 20, CustomSize(m + [data])) == Partial && CustomShape(Now(), m + [data])
              && phase.custom != BinaryReadCrc
    {
      if msgLength >= 20 {
        assert buffer[12] == (m + [data])[12] && buffer[13] == (m + [data])[13];
        var length := LittleEndian16(buffer[12], buffer[13]);
        BinaryHeaderStep(m, data, if scratch.CustomValues? then scratch.remaining else 0, 0x18, 20, CustomSize(m),
                         CustomSize(m + [data]), length);
        scratch := CustomValues(length);
        phase := CustomPhase(BinaryReadData);
      } else {
        BinaryHeaderStep(m, data, if scratch.CustomValues? then scratch.remaining else 0, 0x18, 20, CustomSize(m),
                         CustomSize(m + [data]), 0);
      }
    }

    method SempCustomReadData(ghost m: seq<byte>, data: byte)
      requires CustomShape(Now(), m) && phase.custom == BinaryReadData
      modifies this`phase, this`scratch, this`crc
      ensures BinaryVerdict(m + [data], 0x18, 20, CustomSize(m + [data])) == Partial && CustomShape(Now(), m + [data])
              && CustomSize(m + [data]) == CustomSize(m)
      ensures if phase.custom == BinaryReadCrc then |m| + 1 == CustomSize(m) - 4 && crc == old(crc) ^ 0xFFFFFFFF
              else phase == old(phase) && crc == old(crc)
    {
      BinaryDataStep(m, data, scratch.remaining, 0x18, 20, CustomSize(m));
      scratch := CustomValues(U16(scratch.remaining - 1));
      if scratch.remaining == 0 {
        scratch := CustomValues(4);
        crc := crc ^ 0xFFFFFFFF;
        phase := CustomPhase(BinaryReadCrc);
      }
    }

    method SempCustomReadCrc(ghost m: seq<byte>, data: byte)
      requires Stored(Custom, m, data) && CustomShape(Now(), m) && phase.custom == BinaryReadCrc
      requires |m| + 1 == CustomSize(m) ==> (crc == 0 <==> ChecksumOk(Custom, m + [data]))
      modifies this`phase, this`scratch, this`log
      ensures Ended(BinaryVerdict(m + [data], 0x18, 20, CustomSize(m + [data])),
                    CustomShape(Now(), m + [data]) && phase == old(phase) && CustomSize(m + [data]) == CustomSize(m),
                    m + [data], old(log))
    {
      BinaryCrcStep(m, data, scratch.remaining, 0x18, 20, CustomSize(m));
      scratch := CustomValues(U16(scratch.remaining - 1));
      if scratch.remaining != 0 {
        return;
      }
      Conclude(m + [data], crc == 0);
    }

    method CustomSync(ghost m: seq<byte>, data: byte)
      requires Stored(Custom, m, data) && CustomEntered(Now(), m, data) && phase.custom in {BinarySync2, BinarySync3}
      modifies this`phase, this`computeCrc, this`crc, this`msgLength, this`parserType, this`scratch, buffer
      ensures CustomResult(m + [data], data, old(parserType), log, overrun)
    {
      ghost var was := Now();
      if phase.custom == BinarySync2 {
        SempCustomSync2(m, data);
      } else {
        SempCustomSync3(m, data);
      }
      if BinaryVerdict(m + [data], 0x18, 20, CustomSize(m + [data])) == Partial {
        CustomNotYet(was, Now(), m, data);
      }
    }

    method CustomInside(ghost m: seq<byte>, data: byte)
      requires Stored(Custom, m, data) && CustomEntered(Now(), m, data)
               && phase.custom in {BinaryReadHeader, BinaryReadData}
      modifies this`phase, this`scratch, this`crc
      ensures BinaryVerdict(m + [data], 0x18, 20, CustomSize(m + [data])) == Partial && CustomTracks(Now(), m + [data])
    {
      ghost var was := Now();
      if phase.custom == BinaryReadHeader {
        SempCustomReadHeader(m, data);
        CustomNotYet(was, Now(), m, data);
      } else {
        SempCustomReadData(m, data);
        if phase.custom == BinaryReadCrc {
          CustomInverts(was, Now(), m, data);
        } else {
          CustomNotYet(was, Now(), m, data);
        }
      }
    }

    method CustomTrailer(ghost m: seq<byte>, data: byte)
      requires Stored(Custom, m, data) && CustomEntered(Now(), m, data) && phase.custom == BinaryReadCrc
      modifies this`phase, this`scratch, this`log
      ensures Ended(BinaryVerdict(m + [data], 0x18, 20, CustomSize(m + [data])), CustomTracks(Now(), m + [data]),
                    m + [data], old(log))
    {
      ghost var was := Now();
      if |m| + 1 == CustomSize(m) {
        CustomZero(was, m, data);
      }
      SempCustomReadCrc(m, data);
      if BinaryVerdict(m + [data], 0x18, 20, CustomSize(m + [data])) == Partial {
        CustomCovers(was, Now(), m, data);
      }
    }

    method CustomLast(ghost m: seq<byte>, data: byte)
      requires Stored(Custom, m, data) && CustomEntered(Now(), m, data) && phase.custom == BinaryReadCrc
      modifies this`phase, this`scratch, this`log
      ensures CustomResult(m + [data], data, parserType, old(log), overrun)
    {
      CustomTrailer(m, data);
      ghost var n := m + [data];
      ghost var v, tracks := BinaryVerdict(n, 0x18, 20, CustomSize(n)), CustomTracks(Now(), n);
      EndedResult(v, tracks, n, data, old(log));
    }

    method CustomByte(ghost m: seq<byte>, data: byte)
      requires Stored(Custom, m, data) && CustomEntered(Now(), m, data)
      modifies this, buffer
      ensures CustomResult(m + [data], data, old(parserType), old(log), old(overrun))
    {
      if phase.custom in {BinarySync2, BinarySync3} {
        CustomSync(m, data);
      } else if phase.custom == BinaryReadCrc {
        CustomLast(m, data);
      } else {
        CustomInside(m, data);
        KeptResult(m + [data], data);
      }
    }

    // -------------------------------------------------------------------------------------
    // Unicore binary
    // -------------------------------------------------------------------------------------

    method SempUnicoreBinaryPreamble(data: byte) returns (found: bool)
      requires crc == 0 && computeCrc == NoCrc
      modifies this`phase, this`computeCrc, this`crc, this`scratch
      ensures found == Preamble(UnicoreBinary, data)
      ensures if found then Begun(UnicoreBinary, Now(), data) else crc == 0 && computeCrc == NoCrc
    {
      if data != 0xAA {
        return false;
      }
      crc := 0;
      Clear32(crc);
      computeCrc := Crc32;
      crc := ComputeCrc32(crc, data);
      ResidueOfOne(POLY32, LsbFirst, Zeros(32), data);
      phase := UnicorePhase(BinarySync2);
      return true;
    }

    method SempUnicoreBinaryBinarySync2(ghost m: seq<byte>, data: byte)
      requires Stored(UnicoreBinary, m, data) && UnicoreShape(Now(), m) && phase.unicore == BinarySync2
      modifies this`phase, this`computeCrc, this`crc, this`msgLength, this`parserType, this`scratch, buffer
      ensures Result(BinaryVerdict(m + [data], 0xB5, 24, UnicoreSize(m + [data])),
                     UnicoreShape(Now(), m + [data]) && phase == UnicorePhase(BinarySync3) && crc == old(crc),
                     old(parserType), m + [data], data, log, overrun)
    {
      BinarySync2Step(m, data, if scratch.UnicoreValues? then scratch.remaining else 0, 0xB5, 24, UnicoreSize(m),
                      UnicoreSize(m + [data]));
      if data != 0x44 {
        var _ := SempFirstByte(data);
        return;
      }
      phase := UnicorePhase(BinarySync3);
    }

    method SempUnicoreBinaryBinarySync3(ghost m: seq<byte>, data: byte)
      requires Stored(UnicoreBinary, m, data) && UnicoreShape(Now(), m) && phase.unicore == BinarySync3
      modifies this`phase, this`computeCrc, this`crc, this`msgLength, this`parserType, this`scratch, buffer
      ensures Result(BinaryVerdict(m + [data], 0xB5, 24, UnicoreSize(m + [data])),
                     UnicoreShape(Now(), m + [data]) && phase == UnicorePhase(BinaryReadHeader) && crc == old(crc),
                     old(parserType), m + [data], data, log, overrun)
    {
      BinarySync3Step(m, data, if scratch.UnicoreValues? then scratch.remaining else 0, 0xB5, 24, UnicoreSize(m),
                      UnicoreSize(m + [data]));
      if data != 0xB5 {
        var _ := SempFirstByte(data);
        return;
      }
      phase := UnicorePhase(BinaryReadHeader);
    }

    method SempUnicoreBinaryReadHeader(ghost m: seq<byte>, data: byte)
      requires Stored(UnicoreBinary, m, data) && UnicoreShape(Now(), m) && phase.unicore == BinaryReadHeader
      modifies this`phase, this`scratch
      ensures BinaryVerdict(m + [data], 0xB5, 24, UnicoreSize(m + [data])) == Partial
              && UnicoreShape(Now(), m + [data]) && phase.unicore != BinaryReadCrc
    {
      if msgLength >= 24 {
        assert buffer[6] == (m + [data])[6] && buffer[7] == (m + [data])[7];
        var length := LittleEndian16(buffer[6], buffer[7]);
        BinaryHeaderStep(m, data, if scratch.UnicoreValues? then scratch.remaining else 0, 0xB5, 24, UnicoreSize(m),
                         UnicoreSize(m + [data]), length);
        scratch := UnicoreValues(length);
        phase := UnicorePhase(BinaryReadData);
      } else {
        BinaryHeaderStep(m, data, if scratch.UnicoreValues? then scratch.remaining else 0, 0xB5, 24, UnicoreSize(m),
                         UnicoreSize(m + [data]), 0);
      }
    }

    method SempUnicoreBinaryReadData(ghost m: seq<byte>, data: byte)
      requires UnicoreShape(Now(), m) && phase.unicore == BinaryReadData
      modifies this`phase, this`scratch
      ensures BinaryVerdict(m + [data], 0xB5, 24, UnicoreSize(m + [data])) == Partial
              && UnicoreShape(Now(), m + [data]) && UnicoreSize(m + [data]) == UnicoreSize(m)
    {
      BinaryDataStep(m, data, scratch.remaining, 0xB5, 24, UnicoreSize(m));
      scratch := UnicoreValues(U16(scratch.remaining - 1));
      if scratch.remaining == 0 {
        scratch := UnicoreValues(4);
        phase := UnicorePhase(BinaryReadCrc);
      }
    }

    method SempUnicoreBinaryReadCrc(ghost m: seq<byte>, data: byte)
      requires Stored(UnicoreBinary, m, data) && UnicoreShape(Now(), m) && phase.unicore == BinaryReadCrc
      requires |m| + 1 == UnicoreSize(m) ==> (crc == 0 <==> ChecksumOk(UnicoreBinary, m + [data]))
      modifies this`phase, this`scratch, this`log
      ensures Ended(BinaryVerdict(m + [data], 0xB5, 24, UnicoreSize(m + [data])),
                    UnicoreShape(Now(), m + [data]) && phase == old(phase) && UnicoreSize(m + [data]) == UnicoreSize(m),
                    m + [data], old(log))
    {
      BinaryCrcStep(m, data, scratch.remaining, 0xB5, 24, UnicoreSize(m));
      scratch := UnicoreValues(U16(scratch.remaining - 1));
      if scratch.remaining != 0 {
        return;
      }
      Conclude(m + [data], crc == 0);
    }

    method UnicoreBinarySync(ghost m: seq<byte>, data: byte)
      requires Stored(UnicoreBinary, m, data) && UnicoreEntered(Now(), m, data)
               && phase.unicore in {BinarySync2, BinarySync3}
      modifies this`phase, this`computeCrc, this`crc, this`msgLength, this`parserType, this`scratch, buffer
      ensures UnicoreBinaryResult(m + [data], data, old(parserType), log, overrun)
    {
      ghost var was := Now();
      if phase.unicore == BinarySync2 {
        SempUnicoreBinaryBinarySync2(m, data);
      } else {
        SempUnicoreBinaryBinarySync3(m, data);
      }
    }

    method UnicoreBinaryInside(ghost m: seq<byte>, data: byte)
      requires Stored(UnicoreBinary, m, data) && UnicoreEntered(Now(), m, data)
               && phase.unicore in {BinaryReadHeader, BinaryReadData}
      modifies this`phase, this`scratch
      ensures BinaryVerdict(m + [data], 0xB5, 24, UnicoreSize(m + [data])) == Partial
              && UnicoreTracks(Now(), m + [data])
    {
      if phase.unicore == BinaryReadHeader {
        SempUnicoreBinaryReadHeader(m, data);
      } else {
        SempUnicoreBinaryReadData(m, data);
      }
    }

    method UnicoreBinaryTrailer(ghost m: seq<byte>, data: byte)
      requires Stored(UnicoreBinary, m, data) && UnicoreEntered(Now(), m, data) && phase.unicore == BinaryReadCrc
      modifies this`phase, this`scratch, this`log
      ensures Ended(BinaryVerdict(m + [data], 0xB5, 24, UnicoreSize(m + [data])), UnicoreTracks(Now(), m + [data]),
                    m + [data], old(log))
    {
      ghost var was := Now();
      if |m| + 1 == UnicoreSize(m) {
        UnicoreZero(was, m, data);
      }
      SempUnicoreBinaryReadCrc(m, data);
    }

    method UnicoreBinaryByte(ghost m: seq<byte>, data: byte)
      requires Stored(UnicoreBinary, m, data) && UnicoreEntered(Now(), m, data)
      modifies this, buffer
      ensures UnicoreBinaryResult(m + [data], data, old(parserType), old(log), old(overrun))
    {
      if phase.unicore in {BinarySync2, BinarySync3} {
        UnicoreBinarySync(m, data);
      } else if phase.unicore == BinaryReadCrc {
        UnicoreBinaryTrailer(m, data);
        EndedResult(BinaryVerdict(m + [data], 0xB5, 24, UnicoreSize(m + [data])), UnicoreTracks(Now(), m + [data]),
                    m + [data], data, old(log));
      } else {
        UnicoreBinaryInside(m, data);
        KeptResult(m + [data], data);
      }
    }

    // -------------------------------------------------------------------------------------
    // SBF
    // -------------------------------------------------------------------------------------

    method SempSbfPreamble(data: byte) returns (found: bool)
      requires crc == 0 && computeCrc == NoCrc
      modifies this`phase, this`computeCrc, this`crc, this`scratch
      ensures found == Preamble(Sbf, data)
      ensures if found then Begun(Sbf, Now(), data) else crc == 0 && computeCrc == NoCrc
    {
      if data != 0x24 {
        return false;
      }
      phase := SbfPhase(SbfPreamble2);
      return true;
    }

    method SempSbfPreamble2(ghost m: seq<byte>, data: byte)
      requires Stored(Sbf, m, data) && SbfTracks(Now(), m) && phase.sbf == SbfPreamble2
      modifies this`phase
      ensures SbfResult(m + [data], data, old(parserType), old(log), old(overrun))
    {
      SbfPreamble2Step(m, data, if scratch.SbfValues? then scratch.block.length else 0,
                       if scratch.SbfValues? then scratch.block.remaining else 0);
      phase := if data == 0x40 then SbfPhase(SbfCrc1) else FirstByte;
    }

    method SempSbfCrc1(ghost m: seq<byte>, data: byte)
      requires SbfTracks(Now(), m) && phase.sbf == SbfCrc1
      modifies this`phase, this`scratch
      ensures SbfVerdict(m + [data]) == Partial && SbfTracks(Now(), m + [data])
    {
      SbfHeaderStep(SbfCrc1, SbfCrc2, m, data, if scratch.SbfValues? then scratch.block.length else 0,
                    if scratch.SbfValues? then scratch.block.remaining else 0);
      LowByte(data as bv16, data);
      scratch := SbfValues(if scratch.SbfValues? then scratch.block.(expectedCrc := data as bv16)
                           else SbfBlock(data as bv16, 0, 0, 0, 0, 0));
      phase := SbfPhase(SbfCrc2);
    }

    method SempSbfCrc2(ghost m: seq<byte>, data: byte)
      requires SbfTracks(Now(), m) && phase.sbf == SbfCrc2
      modifies this`phase, this`scratch
      ensures SbfVerdict(m + [data]) == Partial && SbfTracks(Now(), m + [data])
    {
      SbfHeaderStep(SbfCrc2, SbfId1, m, data, scratch.block.length, scratch.block.remaining);
      SbfStarts(m + [data], 0);
      var expected := JoinBytes(scratch.block.expectedCrc, m[2], data);
      scratch := SbfValues(scratch.block.(expectedCrc := expected, computedCrc := 0));
      phase := SbfPhase(SbfId1);
    }

    method SempSbfId1(ghost m: seq<byte>, data: byte)
      requires SbfTracks(Now(), m) && phase.sbf == SbfId1
      modifies this`phase, this`scratch
      ensures SbfVerdict(m + [data]) == Partial && SbfTracks(Now(), m + [data])
    {
      SbfHeaderStep(SbfId1, SbfId2, m, data, scratch.block.length, scratch.block.remaining);
      var computed := CcittUpdate(scratch.block.computedCrc, data);
      SbfCovers(m, data, scratch.block.computedCrc, computed);
      LowByte(data as bv16, data);
      scratch := SbfValues(scratch.block.(computedCrc := computed, sbfId := data as bv16));
      phase := SbfPhase(SbfId2);
    }

    method SempSbfId2(ghost m: seq<byte>, data: byte)
      requires SbfTracks(Now(), m) && phase.sbf == SbfId2
      modifies this`phase, this`scratch
      ensures SbfVerdict(m + [data]) == Partial && SbfTracks(Now(), m + [data])
    {
      SbfHeaderStep(SbfId2, SbfLengthLsb, m, data, scratch.block.length, scratch.block.remaining);
      var computed := CcittUpdate(scratch.block.computedCrc, data);
      SbfCovers(m, data, scratch.block.computedCrc, computed);
      var id, rev := SplitId(scratch.block.sbfId, m[4], data);
      scratch := SbfValues(scratch.block.(computedCrc := computed, sbfId := id, sbfIdRev := rev));
      phase := SbfPhase(SbfLengthLsb);
    }

    method SempSbfLengthLsb(ghost m: seq<byte>, data: byte)
      requires SbfTracks(Now(), m) && phase.sbf == SbfLengthLsb
      modifies this`phase, this`scratch
      ensures SbfVerdict(m + [data]) == Partial && SbfTracks(Now(), m + [data])
    {
      SbfLengthLsbStep(m, data, scratch.block.length, scratch.block.remaining);
      var computed := CcittUpdate(scratch.block.computedCrc, data);
      SbfCovers(m, data, scratch.block.computedCrc, computed);
      scratch := SbfValues(scratch.block.(computedCrc := computed, length := data as int));
      phase := SbfPhase(SbfLengthMsb);
    }

    method SempSbfLengthMsb(ghost m: seq<byte>, data: byte)
      requires Stored(Sbf, m, data) && SbfTracks(Now(), m) && phase.sbf == SbfLengthMsb
      modifies this`phase, this`scratch
      ensures Ended(SbfVerdict(m + [data]), SbfTracks(Now(), m + [data]), m + [data], old(log))
    {
      var computed := CcittUpdate(scratch.block.computedCrc, data);
      var length := scratch.block.length + 256 * (data as int);
      SbfLengthFields(Now(), m, data, computed, length);
      if length % 4 == 0 {
        scratch := SbfValues(scratch.block.(computedCrc := computed, length := length, remaining := U16(length - 8)));
        phase := SbfPhase(SbfReadBytes);
        return;
      }
      scratch := SbfValues(scratch.block.(computedCrc := computed, length := length));
      phase := FirstByte;
    }

    method SbfMore(ghost m: seq<byte>, data: byte, computed: bv16, remaining: nat)
      requires SbfTracks(Now(), m) && phase.sbf == SbfReadBytes
      requires remaining == U16(scratch.block.remaining - 1) && remaining != 0
      requires Bits16(computed) == Register(POLY16, Bits16(scratch.block.computedCrc), ByteBits(MsbFirst, data))
      modifies this`scratch
      ensures SbfVerdict(m + [data]) == Partial && SbfTracks(Now(), m + [data])
    {
      SbfMoreFields(Now(), m, data, computed, remaining);
      scratch := SbfValues(scratch.block.(computedCrc := computed, remaining := remaining));
    }

    method SbfDone(ghost m: seq<byte>, data: byte, computed: bv16)
      requires Stored(Sbf, m, data) && SbfTracks(Now(), m) && phase.sbf == SbfReadBytes
      requires U16(scratch.block.remaining - 1) == 0
      requires Bits16(computed) == Register(POLY16, Bits16(scratch.block.computedCrc), ByteBits(MsbFirst, data))
      modifies this`phase, this`scratch, this`log
      ensures SbfVerdict(m + [data]) == Whole
      ensures phase == FirstByte && Logged(log, old(log), Cfg(), parserType, m + [data])
    {
      SbfLastFields(Now(), m, data, computed);
      var ok := computed == scratch.block.expectedCrc;
      scratch := SbfValues(scratch.block.(computedCrc := computed, remaining := 0));
      Conclude(m + [data], ok);
    }

    method SempSbfReadBytes(ghost m: seq<byte>, data: byte)
      requires Stored(Sbf, m, data) && SbfTracks(Now(), m) && phase.sbf == SbfReadBytes
      modifies this`phase, this`scratch, this`log
      ensures Ended(SbfVerdict(m + [data]), SbfTracks(Now(), m + [data]), m + [data], old(log))
    {
      var computed := CcittUpdate(scratch.block.computedCrc, data);
      var remaining := U16(scratch.block.remaining - 1);
      if remaining == 0 {
        SbfDone(m, data, computed);
      } else {
        SbfMore(m, data, computed, remaining);
      }
    }

    method SbfInside(ghost m: seq<byte>, data: byte)
      requires SbfTracks(Now(), m) && phase.sbf !in {SbfPreamble2, SbfLengthMsb, SbfReadBytes}
      modifies this`phase, this`scratch
      ensures SbfVerdict(m + [data]) == Partial && SbfTracks(Now(), m + [data])
    {
      match phase.sbf
      case SbfCrc1 => SempSbfCrc1(m, data);
      case SbfCrc2 => SempSbfCrc2(m, data);
      case SbfId1 => SempSbfId1(m, data);
      case SbfId2 => SempSbfId2(m, data);
      case SbfLengthLsb => SempSbfLengthLsb(m, data);
    }

    method SbfLast(ghost m: seq<byte>, data: byte)
      requires Stored(Sbf, m, data) && SbfTracks(Now(), m) && phase.sbf == SbfReadBytes
      modifies this`phase, this`scratch, this`log
      ensures SbfResult(m + [data], data, parserType, old(log), overrun)
    {
      SempSbfReadBytes(m, data);
      EndedResult(SbfVerdict(m + [data]), SbfTracks(Now(), m + [data]), m + [data], data, old(log));
    }

    method SbfLength(ghost m: seq<byte>, data: byte)
      requires Stored(Sbf, m, data) && SbfTracks(Now(), m) && phase.sbf == SbfLengthMsb
      modifies this`phase, this`scratch, this`log
      ensures SbfResult(m + [data], data, parserType, old(log), overrun)
    {
      SempSbfLengthMsb(m, data);
      EndedResult(SbfVerdict(m + [data]), SbfTracks(Now(), m + [data]), m + [data], data, old(log));
    }

    method SbfEdge(ghost m: seq<byte>, data: byte)
      requires Stored(Sbf, m, data) && SbfTracks(Now(), m) && phase.sbf in {SbfPreamble2, SbfLengthMsb, SbfReadBytes}
      modifies this`phase, this`scratch, this`log
      ensures SbfResult(m + [data], data, parserType, old(log), overrun)
    {
      if phase.sbf == SbfPreamble2 {
        SempSbfPreamble2(m, data);
      } else if phase.sbf == SbfLengthMsb {
        SbfLength(m, data);
      } else {
        SbfLast(m, data);
      }
    }

    method SbfByte(ghost m: seq<byte>, data: byte)
      requires Stored(Sbf, m, data) && SbfTracks(Now(), m)
      modifies this, buffer
      ensures SbfResult(m + [data], data, old(parserType), old(log), old(overrun))
    {
      if phase.sbf in {SbfPreamble2, SbfLengthMsb, SbfReadBytes} {
        SbfEdge(m, data);
      } else {
        SbfInside(m, data);
        KeptResult(m + [data], data);
      }
    }

    // -------------------------------------------------------------------------------------
    // SPARTN
    // -------------------------------------------------------------------------------------

    method SempSpartnPreamble(data: byte) returns (found: bool)
      requires crc == 0 && computeCrc == NoCrc
      modifies this`phase, this`computeCrc, this`crc, this`scratch
      ensures found == Preamble(Spartn, data)
      ensures if found then Begun(Spartn, Now(), data) else crc == 0 && computeCrc == NoCrc
    {
      if data != 0x73 {
        return false;
      }
      scratch := SpartnValues(SpartnFields(0, 0, 0, 0, 0, 0, 0));
      phase := SpartnPhase(SpartnReadTF002TF006);
      return true;
    }

    /** The header CRC: the buffer's fourth byte loses its CRC bits and gets them back. */
    method SpartnHeaderCrc(ghost n: seq<byte>, data: byte) returns (valid: bool)
      requires |n| == 4 <= buffer.Length && buffer[..4] == n && n[3] == data
      modifies buffer
      ensures buffer[..] == old(buffer[..]) && valid == SpartnHeaderOk(n)
    {
      ghost var was := buffer[..];
      assert buffer[1] == n[1] && buffer[2] == n[2] && buffer[3] == n[3];
      buffer[3] := buffer[3] & 0xF0;
      assert buffer[1..4] == [n[1], n[2], n[3] & 0xF0];
      var frameCrc := SpartnCrc4(buffer[1..4]);
      Word4(frameCrc, data);
      valid := frameCrc == data & 0x0F;
      buffer[3] := data;
      assert buffer[..] == was;
    }

    method SempSpartnReadTF002TF006(ghost m: seq<byte>, data: byte)
      requires Stored(Spartn, m, data) && SpartnTracks(Now(), m) && phase.spartn == SpartnReadTF002TF006
      modifies this`phase, this`scratch, buffer
      ensures SpartnResult(m + [data], data, old(parserType), old(log), old(overrun))
    {
      ghost var n := m + [data];
      var v := scratch.fields;
      if v.frameCount < 2 {
        SpartnHeaderByteStep(v, m, data);
        scratch := SpartnValues(v.(frameCount := v.frameCount + 1, payloadLength := SpartnPayloadBits(v, data)));
        return;
      }
      var crcType := ((data >> 4) & 3) as int;
      v := SpartnFields(v.frameCount + 1, crcType + 1, crcType, v.description, SpartnPayloadBits(v, data),
                        ((data >> 6) & 1) as int, v.embedded);
      SpartnHeaderEndStep(scratch.fields, m, data, v);
      scratch := SpartnValues(v);
      var valid := SpartnHeaderCrc(n, data);
      assert buffer[..msgLength] == n;
      phase := if valid then SpartnPhase(SpartnReadTF007) else FirstByte;
    }

    method SempSpartnReadTF007(ghost m: seq<byte>, data: byte)
      requires SpartnTracks(Now(), m) && phase.spartn == SpartnReadTF007
      modifies this`phase, this`scratch
      ensures SpartnVerdict(m + [data]) == Partial && SpartnTracks(Now(), m + [data])
    {
      var v := scratch.fields;
      v := v.(frameCount := 1,
              description := (if (data >> 3) & 1 == 0 then 4 else 6) + (if v.eaf > 0 then 2 else 0));
      SpartnTF007Step(scratch.fields, m, data, v);
      scratch := SpartnValues(v);
      phase := SpartnPhase(SpartnReadTF009);
    }

    method SempSpartnReadTF009(ghost m: seq<byte>, data: byte)
      requires SpartnTracks(Now(), m) && phase.spartn == SpartnReadTF009
      modifies this`phase, this`scratch
      ensures SpartnVerdict(m + [data]) == Partial && SpartnTracks(Now(), m + [data])
    {
      var v := scratch.fields;
      SpartnTF009Step(v, m, data);
      v := v.(frameCount := v.frameCount + 1);
      if v.frameCount == v.description {
        var embedded := AuthenticationLength(v.eaf, data);
        v := v.(embedded := embedded, frameCount := 0);
        phase := SpartnPhase(SpartnReadTF016);
      }
      scratch := SpartnValues(v);
    }

    method SempSpartnReadTF016(ghost m: seq<byte>, data: byte)
      requires SpartnTracks(Now(), m) && phase.spartn == SpartnReadTF016
      modifies this`phase, this`scratch
      ensures SpartnVerdict(m + [data]) == Partial && SpartnTracks(Now(), m + [data])
    {
      var v := scratch.fields;
      SpartnTF016Step(v, m, data);
      v := v.(frameCount := U16(v.frameCount + 1));
      if v.frameCount == v.payloadLength {
        phase := SpartnPhase(if v.embedded > 0 then SpartnReadTF017 else SpartnReadTF018);
        v := v.(frameCount := 0);
      }
      scratch := SpartnValues(v);
    }

    method SempSpartnReadTF017(ghost m: seq<byte>, data: byte)
      requires SpartnTracks(Now(), m) && phase.spartn == SpartnReadTF017
      modifies this`phase, this`scratch
      ensures SpartnVerdict(m + [data]) == Partial && SpartnTracks(Now(), m + [data])
    {
      var v := scratch.fields;
      SpartnTF017Step(v, m, data);
      v := v.(frameCount := U16(v.frameCount + 1));
      if v.frameCount == v.embedded {
        phase := SpartnPhase(SpartnReadTF018);
        v := v.(frameCount := 0);
      }
      scratch := SpartnValues(v);
    }

    /** The trailer is found behind the bytes that the fields count, and the CRC covers all but the preamble. */
    method SpartnTrailer(ghost n: seq<byte>, v: SpartnFields) returns (matches: bool)
      requires |n| == msgLength <= buffer.Length && buffer[..msgLength] == n
      requires |n| >= 8 && v.crcBytes == SpartnCrcBytes(n) == v.crcType + 1
      requires 4 + v.description + v.payloadLength + v.embedded == |n| - v.crcBytes
      requires |n| <= 65535
      ensures matches == ChecksumOk(Spartn, n)
    {
      var numBytes := U16(4 + v.description + v.payloadLength + v.embedded);
      assert numBytes + v.crcBytes == msgLength;
      assert buffer[1..numBytes] == n[1..numBytes];
      assert buffer[numBytes..msgLength] == n[numBytes..];
      matches := TrailerMatches(v.crcType, buffer[1..numBytes], buffer[numBytes..msgLength]);
      SpartnChecks(Spartn, n, v.crcBytes, n[1..numBytes], n[numBytes..], matches);
    }

    method SempSpartnReadTF018(ghost m: seq<byte>, data: byte)
      requires Stored(Spartn, m, data) && SpartnTracks(Now(), m) && phase.spartn == SpartnReadTF018
      modifies this`phase, this`scratch, this`log
      ensures Ended(SpartnVerdict(m + [data]), SpartnTracks(Now(), m + [data]), m + [data], old(log))
    {
      var v := scratch.fields;
      SpartnTF018Step(v, m, data);
      v := v.(frameCount := U16(v.frameCount + 1));
      scratch := SpartnValues(v);
      if v.frameCount == v.crcBytes {
        SpartnWhole(old(scratch.fields), m, data);
        var matches := SpartnTrailer(m + [data], v);
        Conclude(m + [data], matches);
      }
    }

    method SpartnInside(ghost m: seq<byte>, data: byte)
      requires SpartnTracks(Now(), m) && phase.spartn !in {SpartnReadTF002TF006, SpartnReadTF018}
      modifies this`phase, this`scratch
      ensures SpartnVerdict(m + [data]) == Partial && SpartnTracks(Now(), m + [data])
    {
      match phase.spartn
      case SpartnReadTF007 => SempSpartnReadTF007(m, data);
      case SpartnReadTF009 => SempSpartnReadTF009(m, data);
      case SpartnReadTF016 => SempSpartnReadTF016(m, data);
      case SpartnReadTF017 => SempSpartnReadTF017(m, data);
    }

    method SpartnLast(ghost m: seq<byte>, data: byte)
      requires Stored(Spartn, m, data) && SpartnTracks(Now(), m) && phase.spartn == SpartnReadTF018
      modifies this`phase, this`scratch, this`log
      ensures SpartnResult(m + [data], data, parserType, old(log), overrun)
    {
      SempSpartnReadTF018(m, data);
      EndedResult(SpartnVerdict(m + [data]), SpartnTracks(Now(), m + [data]), m + [data], data, old(log));
    }

    method SpartnEdge(ghost m: seq<byte>, data: byte)
      requires Stored(Spartn, m, data) && SpartnTracks(Now(), m)
               && phase.spartn in {SpartnReadTF002TF006, SpartnReadTF018}
      modifies this, buffer
      ensures SpartnResult(m + [data], data, old(parserType), old(log), old(overrun))
    {
      if phase.spartn == SpartnReadTF002TF006 {
        SempSpartnReadTF002TF006(m, data);
      } else {
        SpartnLast(m, data);
      }
    }

    method SpartnByte(ghost m: seq<byte>, data: byte)
      requires Stored(Spartn, m, data) && SpartnTracks(Now(), m)
      modifies this, buffer
      ensures SpartnResult(m + [data], data, old(parserType), old(log), old(overrun))
    {
      if phase.spartn in {SpartnReadTF002TF006, SpartnReadTF018} {
        SpartnEdge(m, data);
      } else {
        SpartnInside(m, data);
        KeptResult(m + [data], data);
      }
    }

    // -------------------------------------------------------------------------------------
    // Sentences
    // -------------------------------------------------------------------------------------

    /** Appends a character, wherever the message ends. */
    method Put(data: byte)
      requires msgLength < buffer.Length
      modifies this`msgLength, this`overrun, buffer
      ensures msgLength == old(msgLength) + 1 && buffer[..msgLength] == old(buffer[..msgLength]) + [data]
      ensures overrun == (old(overrun) || old(msgLength) >= bufferLength)
    {
      overrun := overrun || msgLength >= bufferLength;
      buffer[msgLength] := data;
      msgLength := msgLength + 1;
    }

    /** Appends carriage return, line feed and the string terminator. */
    method CloseSentence()
      requires msgLength + 3 <= buffer.Length
      modifies this`msgLength, this`overrun, buffer
      ensures msgLength == old(msgLength) + 2 && buffer[..msgLength] == old(buffer[..msgLength]) + CRLF
      ensures overrun == (old(overrun) || old(msgLength) + 3 > bufferLength)
    {
      Put(CR);
      Put(LF);
      overrun := overrun || msgLength >= bufferLength;
      ghost var text := buffer[..msgLength];
      buffer[msgLength] := 0;
      assert buffer[..msgLength] == text;
    }

    /** A complete sentence without its line terminator is in the buffer. */
    ghost predicate Complete(p: Routine, m: seq<byte>)
      reads this, buffer
    {
      && Configured() && parserType < |table| && table[parserType] == p
      && msgLength == |m| < bufferLength && buffer[..msgLength] == m
    }

    /** The sentence has been judged. */
    ghost predicate Judged(p: Routine, index: nat, m: seq<byte>, before: seq<Event>, over: bool)
      reads this
    {
      && msgLength <= buffer.Length && index < |table| && table[index] == p
      && Logged(log, before, Cfg(), index, m) && overrun == (over || PastTheEnd(Cfg(), p, m))
    }

    /** What a byte after a complete sentence leaves behind. */
    ghost predicate Closing(p: Routine, index: nat, m: seq<byte>, ending: Ending, data: byte, before: seq<Event>,
                            over: bool)
      reads this, buffer
    {
      if ending.NoEnding? && (data == CR || data == LF)
      then Kept(m, index, before, over) && Follows(p, bufferLength, Now(), m) && phase != FirstByte
           && EndingOf(phase) == if data == CR then SawCr else SawLf
      else
        Judged(p, index, m, before, over)
        && (if (ending.SawCr? && data == LF) || (ending.SawLf? && data == CR) then phase == FirstByte
            else Offered(data))
    }

    // -------------------------------------------------------------------------------------
    // NMEA
    // -------------------------------------------------------------------------------------

    method SempNmeaPreamble(data: byte) returns (found: bool)
      requires crc == 0 && computeCrc == NoCrc
      modifies this`phase, this`computeCrc, this`crc, this`scratch
      ensures found == Preamble(Nmea, data)
      ensures if found then Begun(Nmea, Now(), data) else crc == 0 && computeCrc == NoCrc
    {
      if data != 0x24 && data != 0x21 {
        return false;
      }
      scratch := NmeaValues(seq(16, _ => 0), 0);
      phase := NmeaPhase(NmeaFindFirstComma);
      return true;
    }

    /** One more character of the name. */
    method NmeaNameByte(ghost m: seq<byte>, data: byte, value: bv32)
      requires Stored(Nmea, m, data) && NmeaTracks(Now(), bufferLength, m) && phase.nmea == NmeaFindFirstComma
      requires (data != COMMA || scratch.nameLength == 0) && XorHolds(value, (m + [data])[1..])
      modifies this`phase, this`computeCrc, this`crc, this`msgLength, this`parserType, this`scratch, buffer
      ensures NmeaResult(m + [data], data, old(parserType), log, overrun)
    {
      NmeaNameFields(Now(), bufferLength, m, data, value, scratch);
      crc := value;
      if !IsNameChar(data) || scratch.nameLength == 15 {
        var _ := SempFirstByte(data);
        return;
      }
      scratch := NmeaValues(scratch.name[scratch.nameLength := data], scratch.nameLength + 1);
    }

    method SempNmeaFindFirstComma(ghost m: seq<byte>, data: byte)
      requires Stored(Nmea, m, data) && NmeaTracks(Now(), bufferLength, m) && phase.nmea == NmeaFindFirstComma
      modifies this`phase, this`computeCrc, this`crc, this`msgLength, this`parserType, this`scratch, buffer
      ensures NmeaResult(m + [data], data, old(parserType), log, overrun)
    {
      var value := XorByte(crc, m, data);
      if data != COMMA || scratch.nameLength == 0 {
        NmeaNameByte(m, data, value);
      } else {
        var terminated := NmeaValues(scratch.name[scratch.nameLength := 0], scratch.nameLength);
        NmeaNameFields(Now(), bufferLength, m, data, value, terminated);
        crc := value;
        scratch := terminated;
        phase := NmeaPhase(NmeaFindAsterisk);
      }
    }

    method SempNmeaFindAsterisk(ghost m: seq<byte>, data: byte)
      requires Stored(Nmea, m, data) && NmeaTracks(Now(), bufferLength, m) && phase.nmea == NmeaFindAsterisk
      modifies this`phase, this`computeCrc, this`crc, this`msgLength, this`parserType, this`scratch, buffer
      ensures NmeaResult(m + [data], data, old(parserType), log, overrun)
    {
      var value := XorByte(crc, m, data);
      NmeaBodyFields(Now(), bufferLength, m, data, value);
      if data == STAR {
        phase := NmeaPhase(NmeaChecksumByte1);
      } else {
        crc := value;
        if msgLength + NMEA_BUFFER_OVERHEAD > bufferLength {
          var _ := SempFirstByte(data);
        }
      }
    }

    method SempNmeaChecksumByte1(ghost m: seq<byte>, data: byte)
      requires Stored(Nmea, m, data) && NmeaTracks(Now(), bufferLength, m) && phase.nmea == NmeaChecksumByte1
      modifies this`phase, this`computeCrc, this`crc, this`msgLength, this`parserType, this`scratch, buffer
      ensures NmeaResult(m + [data], data, old(parserType), log, overrun)
    {
      ChecksumStep(Nmea, bufferLength, 0, m, data);
      assert buffer[msgLength - 1] == (m + [data])[|m|];
      if AsciiToNibble(buffer[msgLength - 1]) >= 0 {
        XorAfterStar(crc, m, data);
        phase := NmeaPhase(NmeaChecksumByte2);
      } else {
        var _ := SempFirstByte(data);
      }
    }

    method SempNmeaChecksumByte2(ghost m: seq<byte>, data: byte)
      requires Stored(Nmea, m, data) && NmeaTracks(Now(), bufferLength, m) && phase.nmea == NmeaChecksumByte2
      modifies this`phase, this`computeCrc, this`crc, this`msgLength, this`parserType, this`scratch, buffer
      ensures NmeaResult(m + [data], data, old(parserType), log, overrun)
    {
      ChecksumStep(Nmea, bufferLength, 1, m, data);
      assert buffer[msgLength - 1] == (m + [data])[|m|];
      if AsciiToNibble(buffer[msgLength - 1]) >= 0 {
        XorAfterStar(crc, m, data);
        phase := NmeaPhase(NmeaLineTermination);
      } else {
        var _ := SempFirstByte(data);
      }
    }

    method SempNmeaValidateChecksum(ghost m: seq<byte>)
      requires Complete(Nmea, m) && InChecksum(Nmea, bufferLength, 2, m) && XorHolds(crc, m[1..Find(m, STAR)])
      modifies this`msgLength, this`overrun, this`log, buffer
      ensures Judged(Nmea, parserType, m, old(log), old(overrun)) && overrun == old(overrun)
    {
      assert buffer[msgLength - 2] == m[|m| - 2] && buffer[msgLength - 1] == m[|m| - 1];
      var checksum := 16 * AsciiToNibble(buffer[msgLength - 2]) + AsciiToNibble(buffer[msgLength - 1]);
      XorMatches(crc, m);
      SentenceDecision(Cfg(), parserType, m, checksum == crc as int);
      if checksum == crc as int || (badCrc.Some? && !badCrc.value(buffer[..msgLength])) {
        CloseSentence();
        Report(true);
      } else {
        Report(false);
      }
    }

    method SempNmeaLineFeed(ghost m: seq<byte>, data: byte)
      requires Stored(Nmea, m, data) && NmeaTracks(Now(), bufferLength, m) && phase == NmeaPhase(NmeaLineFeed)
      modifies this, buffer
      ensures Judged(Nmea, old(parserType), m, old(log), old(overrun))
      ensures if data == LF then phase == FirstByte else Offered(data)
    {
      msgLength := msgLength - 1;
      assert buffer[..msgLength] == (m + [data])[..|m|] == m;
      if data == LF {
        SempNmeaValidateChecksum(m);
        phase := FirstByte;
        return;
      }
      SempNmeaValidateChecksum(m);
      var _ := SempFirstByte(data);
    }

    method SempNmeaCarriageReturn(ghost m: seq<byte>, data: byte)
      requires Stored(Nmea, m, data) && NmeaTracks(Now(), bufferLength, m) && phase == NmeaPhase(NmeaCarriageReturn)
      modifies this, buffer
      ensures Judged(Nmea, old(parserType), m, old(log), old(overrun))
      ensures if data == CR then phase == FirstByte else Offered(data)
    {
      msgLength := msgLength - 1;
      assert buffer[..msgLength] == (m + [data])[..|m|] == m;
      if data == CR {
        SempNmeaValidateChecksum(m);
        phase := FirstByte;
        return;
      }
      SempNmeaValidateChecksum(m);
      var _ := SempFirstByte(data);
    }

    method SempNmeaLineTermination(ghost m: seq<byte>, data: byte)
      requires Stored(Nmea, m, data) && NmeaTracks(Now(), bufferLength, m) && phase == NmeaPhase(NmeaLineTermination)
      modifies this, buffer
      ensures if data == CR || data == LF
              then Kept(m, old(parserType), old(log), old(overrun)) && Now() == old(Now()).(phase := phase)
                   && phase == NmeaPhase(if data == CR then NmeaLineFeed else NmeaCarriageReturn)
              else Judged(Nmea, old(parserType), m, old(log), old(overrun)) && Offered(data)
    {
      msgLength := msgLength - 1;
      assert buffer[..msgLength] == (m + [data])[..|m|] == m;
      if data == CR {
        phase := NmeaPhase(NmeaLineFeed);
        return;
      } else if data == LF {
        phase := NmeaPhase(NmeaCarriageReturn);
        return;
      }
      SempNmeaValidateChecksum(m);
      var _ := SempFirstByte(data);
    }

    method NmeaByte(ghost m: seq<byte>, data: byte)
      requires Stored(Nmea, m, data) && NmeaTracks(Now(), bufferLength, m) && !IsEnding(phase)
      modifies this`phase, this`computeCrc, this`crc, this`msgLength, this`parserType, this`scratch, buffer
      ensures NmeaResult(m + [data], data, old(parserType), log, overrun)
    {
      match phase.nmea
      case NmeaFindFirstComma => SempNmeaFindFirstComma(m, data);
      case NmeaFindAsterisk => SempNmeaFindAsterisk(m, data);
      case NmeaChecksumByte1 => SempNmeaChecksumByte1(m, data);
      case NmeaChecksumByte2 => SempNmeaChecksumByte2(m, data);
    }

    method NmeaEnding(ghost m: seq<byte>, data: byte)
      requires Stored(Nmea, m, data) && NmeaTracks(Now(), bufferLength, m) && IsEnding(phase)
      modifies this, buffer
      ensures Closing(Nmea, old(parserType), m, old(EndingOf(phase)), data, old(log), old(overrun))
    {
      if phase.nmea == NmeaLineFeed {
        SempNmeaLineFeed(m, data);
      } else if phase.nmea == NmeaCarriageReturn {
        SempNmeaCarriageReturn(m, data);
      } else {
        SempNmeaLineTermination(m, data);
      }
    }

    // -------------------------------------------------------------------------------------
    // Unicore hash
    // -------------------------------------------------------------------------------------

    method SempUnicoreHashPreamble(data: byte) returns (found: bool)
      requires crc == 0 && computeCrc == NoCrc
      modifies this`phase, this`computeCrc, this`crc, this`scratch
      ensures found == Preamble(UnicoreHash, data)
      ensures if found then Begun(UnicoreHash, Now(), data) else crc == 0 && computeCrc == NoCrc
    {
      if data != 0x23 {
        return false;
      }
      scratch := HashValues(seq(16, _ => 0), 0, 0, 0);
      phase := HashPhase(HashFindFirstComma);
      return true;
    }

    /** The comma closes the name, which decides how many checksum characters follow. */
    method HashComma(ghost m: seq<byte>, value: bv32)
      requires HashTracks(Now(), bufferLength, m) && phase.hash == HashFindFirstComma && scratch.nameLength != 0
      requires XorHolds(value, (m + [COMMA])[1..])
      modifies this`phase, this`crc, this`scratch
      ensures SentenceVerdict(UnicoreHash, bufferLength, m + [COMMA]) == Partial
      ensures HashTracks(Now(), bufferLength, m + [COMMA]) && phase == HashPhase(HashFindAsterisk)
    {
      var mode := FindMode(scratch.name[..scratch.nameLength]);
      var named := HashValues(scratch.name[scratch.nameLength := 0], scratch.nameLength, scratch.remaining,
                              if mode then 2 else 8);
      HashCommaFields(Now(), bufferLength, m, value, named);
      crc := value;
      scratch := named;
      phase := HashPhase(HashFindAsterisk);
    }

    /** One more character of the name. */
    method HashNameByte(ghost m: seq<byte>, data: byte, value: bv32)
      requires Stored(UnicoreHash, m, data) && HashTracks(Now(), bufferLength, m) && phase.hash == HashFindFirstComma
      requires (data != COMMA || scratch.nameLength == 0) && XorHolds(value, (m + [data])[1..])
      modifies this`phase, this`computeCrc, this`crc, this`msgLength, this`parserType, this`scratch, buffer
      ensures HashResult(m + [data], data, old(parserType), log, overrun)
    {
      HashNameFields(Now(), bufferLength, m, data, value);
      crc := value;
      if !IsNameChar(data) || scratch.nameLength == 15 {
        var _ := SempFirstByte(data);
        return;
      }
      scratch := HashValues(scratch.name[scratch.nameLength := data], scratch.nameLength + 1, scratch.remaining,
                            scratch.checksumBytes);
    }

    method SempUnicoreHashFindFirstComma(ghost m: seq<byte>, data: byte)
      requires Stored(UnicoreHash, m, data) && HashTracks(Now(), bufferLength, m) && phase.hash == HashFindFirstComma
      modifies this`phase, this`computeCrc, this`crc, this`msgLength, this`parserType, this`scratch, buffer
      ensures HashResult(m + [data], data, old(parserType), log, overrun)
    {
      var value := XorByte(crc, m, data);
      if data != COMMA || scratch.nameLength == 0 {
        HashNameByte(m, data, value);
      } else {
        HashComma(m, value);
      }
    }

    method SempUnicoreHashFindAsterisk(ghost m: seq<byte>, data: byte)
      requires Stored(UnicoreHash, m, data) && HashTracks(Now(), bufferLength, m) && phase.hash == HashFindAsterisk
      modifies this`phase, this`computeCrc, this`crc, this`msgLength, this`parserType, this`scratch, buffer
      ensures HashResult(m + [data], data, old(parserType), log, overrun)
    {
      if data == STAR {
        var counted := HashValues(scratch.name, scratch.nameLength, scratch.checksumBytes, scratch.checksumBytes);
        HashStarFields(Now(), bufferLength, m, counted);
        scratch := counted;
        phase := HashPhase(HashChecksumByte);
      } else {
        var value := XorByte(crc, m, data);
        HashBodyFields(Now(), bufferLength, m, data, value);
        crc := value;
        if msgLength + UNICORE_HASH_BUFFER_OVERHEAD > bufferLength {
          var _ := SempFirstByte(data);
        }
      }
    }

    method SempUnicoreHashChecksumByte(ghost m: seq<byte>, data: byte)
      requires Stored(UnicoreHash, m, data) && HashTracks(Now(), bufferLength, m) && phase.hash == HashChecksumByte
      modifies this`phase, this`computeCrc, this`crc, this`msgLength, this`parserType, this`scratch, buffer
      ensures HashResult(m + [data], data, old(parserType), log, overrun)
    {
      var counted := HashValues(scratch.name, scratch.nameLength, scratch.remaining - 1, scratch.checksumBytes);
      assert buffer[msgLength - 1] == (m + [data])[|m|];
      if AsciiToNibble(buffer[msgLength - 1]) < 0 {
        ChecksumStep(UnicoreHash, bufferLength, scratch.checksumBytes - scratch.remaining, m, data);
        var _ := SempFirstByte(data);
        return;
      }
      HashDigitFields(Now(), bufferLength, m, data, counted);
      scratch := counted;
      if scratch.remaining == 0 {
        phase := HashPhase(HashLineTermination);
      }
    }

    method SempUnicoreHashValidateCrc(ghost m: seq<byte>)
      requires Complete(UnicoreHash, m) && InChecksum(UnicoreHash, bufferLength, 8, m)
               && ChecksumChars(UnicoreHash, m) == 8
      modifies this`phase, this`msgLength, this`overrun, this`log, buffer
      ensures Judged(UnicoreHash, parserType, m, old(log), old(overrun)) && overrun == old(overrun)
    {
      var same := HashCompare(buffer[..msgLength]);
      HashDecision(Cfg(), parserType, m, same);
      if !same {
        Report(false);
        return;
      }
      if msgLength + UNICORE_HASH_BUFFER_OVERHEAD > bufferLength {
        phase := FirstByte;
        Report(false);
        return;
      }
      CloseSentence();
      Report(true);
    }

    /** The two-character checksum of the MODE sentences. */
    method HashShortChecksum(ghost m: seq<byte>)
      requires Complete(UnicoreHash, m) && ChecksumChars(UnicoreHash, m) == 2 && |m| >= 3 && 1 <= Find(m, STAR)
      requires XorHolds(crc, m[1..Find(m, STAR)])
      modifies this`phase, this`msgLength, this`overrun, this`log, buffer
      ensures Judged(UnicoreHash, parserType, m, old(log), old(overrun))
    {
      assert buffer[msgLength - 2] == m[|m| - 2] && buffer[msgLength - 1] == m[|m| - 1];
      var checksum := 16 * AsciiToNibble(buffer[msgLength - 2]) + AsciiToNibble(buffer[msgLength - 1]);
      XorMatches(crc, m);
      SentenceDecision(Cfg(), parserType, m, checksum == crc as int);
      if checksum == crc as int || (badCrc.Some? && !badCrc.value(buffer[..msgLength])) {
        CloseSentence();
        Report(true);
      } else {
        Report(false);
      }
    }

    method SempUnicoreHashValidateChecksum(ghost m: seq<byte>)
      requires Complete(UnicoreHash, m) && HashTracks(Now(), bufferLength, m) && Ready(UnicoreHash, m)
      modifies this`phase, this`msgLength, this`overrun, this`log, buffer
      ensures Judged(UnicoreHash, parserType, m, old(log), old(overrun))
    {
      HashReady(Now(), bufferLength, m);
      if scratch.checksumBytes > 2 {
        SempUnicoreHashValidateCrc(m);
        return;
      }
      HashShortChecksum(m);
    }

    method SempUnicoreHashLineFeed(ghost m: seq<byte>, data: byte)
      requires Stored(UnicoreHash, m, data) && HashTracks(Now(), bufferLength, m) && phase == HashPhase(HashLineFeed)
      modifies this, buffer
      ensures Judged(UnicoreHash, old(parserType), m, old(log), old(overrun))
      ensures if data == LF then phase == FirstByte else Offered(data)
    {
      msgLength := msgLength - 1;
      assert buffer[..msgLength] == (m + [data])[..|m|] == m;
      if data == LF {
        SempUnicoreHashValidateChecksum(m);
        phase := FirstByte;
        return;
      }
      SempUnicoreHashValidateChecksum(m);
      var _ := SempFirstByte(data);
    }

    method SempUnicoreHashCarriageReturn(ghost m: seq<byte>, data: byte)
      requires Stored(UnicoreHash, m, data) && HashTracks(Now(), bufferLength, m)
               && phase == HashPhase(HashCarriageReturn)
      modifies this, buffer
      ensures Judged(UnicoreHash, old(parserType), m, old(log), old(overrun))
      ensures if data == CR then phase == FirstByte else Offered(data)
    {
      msgLength := msgLength - 1;
      assert buffer[..msgLength] == (m + [data])[..|m|] == m;
      if data == CR {
        SempUnicoreHashValidateChecksum(m);
        phase := FirstByte;
        return;
      }
      SempUnicoreHashValidateChecksum(m);
      var _ := SempFirstByte(data);
    }

    method SempUnicoreHashLineTermination(ghost m: seq<byte>, data: byte)
      requires Stored(UnicoreHash, m, data) && HashTracks(Now(), bufferLength, m)
               && phase == HashPhase(HashLineTermination)
      modifies this, buffer
      ensures if data == CR || data == LF
              then Kept(m, old(parserType), old(log), old(overrun)) && Now() == old(Now()).(phase := phase)
                   && phase == HashPhase(if data == CR then HashLineFeed else HashCarriageReturn)
              else Judged(UnicoreHash, old(parserType), m, old(log), old(overrun)) && Offered(data)
    {
      msgLength := msgLength - 1;
      assert buffer[..msgLength] == (m + [data])[..|m|] == m;
      if data == CR {
        phase := HashPhase(HashLineFeed);
        return;
      } else if data == LF {
        phase := HashPhase(HashCarriageReturn);
        return;
      }
      SempUnicoreHashValidateChecksum(m);
      var _ := SempFirstByte(data);
    }

    method HashByte(ghost m: seq<byte>, data: byte)
      requires Stored(UnicoreHash, m, data) && HashTracks(Now(), bufferLength, m) && !IsEnding(phase)
      modifies this`phase, this`computeCrc, this`crc, this`msgLength, this`parserType, this`scratch, buffer
      ensures HashResult(m + [data], data, old(parserType), log, overrun)
    {
      match phase.hash
      case HashFindFirstComma => SempUnicoreHashFindFirstComma(m, data);
      case HashFindAsterisk => SempUnicoreHashFindAsterisk(m, data);
      case HashChecksumByte => SempUnicoreHashChecksumByte(m, data);
    }

    method HashEnding(ghost m: seq<byte>, data: byte)
      requires Stored(UnicoreHash, m, data) && HashTracks(Now(), bufferLength, m) && IsEnding(phase)
      modifies this, buffer
      ensures Closing(UnicoreHash, old(parserType), m, old(EndingOf(phase)), data, old(log), old(overrun))
    {
      if phase.hash == HashLineFeed {
        SempUnicoreHashLineFeed(m, data);
      } else if phase.hash == HashCarriageReturn {
        SempUnicoreHashCarriageReturn(m, data);
      } else {
        SempUnicoreHashLineTermination(m, data);
      }
    }

    // -------------------------------------------------------------------------------------
    // One byte of the stream
    // -------------------------------------------------------------------------------------

    /** The fields have moved as the specification step says. */
    ghost predicate Stepped(step: Step, before: seq<Event>, over: bool)
      reads this, buffer
    {
      Valid() && State() == step.state && log == before + step.events && overrun == over
    }

    method ComputeCrc(data: byte)
      modifies this`crc
      ensures CrcUpdated(computeCrc, old(crc), data, crc)
    {
      match computeCrc
      case NoCrc =>
      case Crc24q => crc := ComputeCrc24q(crc, data);
      case Crc32 => crc := ComputeCrc32(crc, data);
    }

    method NmeaRead(ghost m: seq<byte>, data: byte)
      requires Stored(Nmea, m, data) && NmeaTracks(Now(), bufferLength, m) && !IsEnding(phase)
      modifies this, buffer
      ensures NmeaResult(m + [data], data, old(parserType), old(log), old(overrun))
    {
      ComputeCrc(data);
      NmeaByte(m, data);
    }

    method RtcmCrc(ghost m: seq<byte>, data: byte)
      requires RtcmTracks(Now(), m)
      modifies this`crc
      ensures RtcmEntered(Now(), m, data)
    {
      ghost var was := Now();
      ComputeCrc(data);
      RtcmEnters(was, m, data, crc);
    }

    method RtcmRead(ghost m: seq<byte>, data: byte)
      requires Stored(Rtcm, m, data) && RtcmTracks(Now(), m)
      modifies this, buffer
      ensures RtcmResult(m + [data], data, old(parserType), old(log), old(overrun))
    {
      RtcmCrc(m, data);
      RtcmByte(m, data);
    }

    method UbloxRead(ghost m: seq<byte>, data: byte)
      requires Stored(Ublox, m, data) && UbloxTracks(Now(), m)
      modifies this, buffer
      ensures UbloxResult(m + [data], data, old(parserType), old(log), old(overrun))
    {
      ComputeCrc(data);
      UbloxByte(m, data);
    }

    method HashRead(ghost m: seq<byte>, data: byte)
      requires Stored(UnicoreHash, m, data) && HashTracks(Now(), bufferLength, m) && !IsEnding(phase)
      modifies this, buffer
      ensures HashResult(m + [data], data, old(parserType), old(log), old(overrun))
    {
      ComputeCrc(data);
      HashByte(m, data);
    }

    method CustomCrc(ghost m: seq<byte>, data: byte)
      requires CustomTracks(Now(), m)
      modifies this`crc
      ensures CustomEntered(Now(), m, data)
    {
      ghost var was := Now();
      ComputeCrc(data);
      CustomEnters(was, m, data, crc);
    }

    method CustomRead(ghost m: seq<byte>, data: byte)
      requires Stored(Custom, m, data) && CustomTracks(Now(), m)
      modifies this, buffer
      ensures CustomResult(m + [data], data, old(parserType), old(log), old(overrun))
    {
      CustomCrc(m, data);
      CustomByte(m, data);
    }

    method SpartnRead(ghost m: seq<byte>, data: byte)
      requires Stored(Spartn, m, data) && SpartnTracks(Now(), m)
      modifies this, buffer
      ensures SpartnResult(m + [data], data, old(parserType), old(log), old(overrun))
    {
      ComputeCrc(data);
      SpartnByte(m, data);
    }

    method SbfRead(ghost m: seq<byte>, data: byte)
      requires Stored(Sbf, m, data) && SbfTracks(Now(), m)
      modifies this, buffer
      ensures SbfResult(m + [data], data, old(parserType), old(log), old(overrun))
    {
      ComputeCrc(data);
      SbfByte(m, data);
    }

    method UnicoreBinaryCrc(ghost m: seq<byte>, data: byte)
      requires UnicoreTracks(Now(), m)
      modifies this`crc
      ensures UnicoreEntered(Now(), m, data)
    {
      ghost var was := Now();
      ComputeCrc(data);
      UnicoreEnters(was, m, data, crc);
    }

    method UnicoreBinaryRead(ghost m: seq<byte>, data: byte)
      requires Stored(UnicoreBinary, m, data) && UnicoreTracks(Now(), m)
      modifies this, buffer
      ensures UnicoreBinaryResult(m + [data], data, old(parserType), old(log), old(overrun))
    {
      UnicoreBinaryCrc(m, data);
      UnicoreBinaryByte(m, data);
    }

    /** Computes the CRC value and updates the parser state based on the byte. */
    method StateRoutine(ghost m: seq<byte>, data: byte)
      requires parserType < |table| && Stored(table[parserType], m, data)
      requires Supported(table[parserType]) && Tracks(table[parserType], bufferLength, Now(), m) && !IsEnding(phase)
      modifies this, buffer
      ensures Stepped(NextByte(Cfg(), old(parserType), m, data), old(log), old(overrun))
    {
      var p := table[parserType];
      if p.Nmea? {
        NmeaRead(m, data);
      } else if p.Rtcm? {
        RtcmRead(m, data);
      } else if p.Ublox? {
        UbloxRead(m, data);
      } else if p.UnicoreHash? {
        HashRead(m, data);
      } else if p.Custom? {
        CustomRead(m, data);
      } else if p.Spartn? {
        SpartnRead(m, data);
      } else if p.Sbf? {
        SbfRead(m, data);
      } else {
        UnicoreBinaryRead(m, data);
      }
      ResultIsNext(old(parserType), m, data, old(log), old(overrun));
    }

    method EndingRoutine(ghost m: seq<byte>, data: byte)
      requires parserType < |table| && Stored(table[parserType], m, data)
      requires Tracks(table[parserType], bufferLength, Now(), m) && IsEnding(phase)
      modifies this, buffer
      ensures Closing(old(table[parserType]), old(parserType), m, old(EndingOf(phase)), data, old(log), old(overrun))
    {
      ComputeCrc(data);
      if table[parserType].Nmea? {
        NmeaEnding(m, data);
      } else {
        HashEnding(m, data);
      }
    }

    lemma ClosingIsNext(index: nat, m: seq<byte>, ending: Ending, data: byte, before: seq<Event>, over: bool)
      requires Configured() && index < |table| && table[index] in {Nmea, UnicoreHash} && 1 <= |m| < bufferLength
      requires Closing(table[index], index, m, ending, data, before, over)
      ensures var step := NextEnding(Cfg(), Busy(index, m, ending), data);
              Stepped(step, before, over || (step.events != [] && PastTheEnd(Cfg(), table[index], m)))
    {
      if !(ending.NoEnding? && (data == CR || data == LF))
         && !((ending.SawCr? && data == LF) || (ending.SawLf? && data == CR)) {
        OfferedIsOffer(data);
      }
    }

    /** A valid parser stands for a proper state of the specification. */
    lemma ValidIsProper()
      requires Valid()
      ensures Proper(Cfg(), State())
      ensures phase != FirstByte ==> (Ready(table[parserType], buffer[..msgLength]) <==> IsEnding(phase))
      ensures IsEnding(phase) ==> table[parserType] in {Nmea, UnicoreHash}
    {
      if phase != FirstByte {
        assert table[parserType] in table;
        EndingIsReady(table[parserType], bufferLength, Now(), buffer[..msgLength]);
      }
    }

    /** The reserve of the NMEA machine is still free when a sentence is ready. */
    lemma ReserveIsFree()
      requires Valid() && phase != FirstByte && table[parserType].Nmea? && Ready(Nmea, buffer[..msgLength])
      ensures msgLength + 3 <= bufferLength
    {
      assert Tracks(table[parserType], bufferLength, Now(), buffer[..msgLength]);
      NmeaReady(Now(), bufferLength, buffer[..msgLength]);
    }

    /** Saves the byte. */
    method SaveByte(ghost m: seq<byte>, data: byte)
      requires Configured() && parserType < |table| && 1 <= msgLength < bufferLength && m == buffer[..msgLength]
      modifies this`msgLength, buffer
      ensures Stored(table[parserType], m, data)
    {
      buffer[msgLength] := data;
      msgLength := msgLength + 1;
      assert buffer[..msgLength] == m + [data];
    }

    /** Reads a byte while a message is being collected and the buffer has room. */
    method ReadInside(ghost m: seq<byte>, data: byte)
      requires Valid() && phase != FirstByte && msgLength < bufferLength && m == buffer[..msgLength] && !IsEnding(phase)
      modifies this, buffer
      ensures Stepped(NextByte(Cfg(), old(parserType), m, data), old(log), old(overrun))
    {
      assert table[parserType] in table;
      SaveByte(m, data);
      StateRoutine(m, data);
    }

    /** Reads a byte while a complete sentence waits for its line terminator. */
    method ReadEnding(ghost m: seq<byte>, data: byte)
      requires Valid() && msgLength < bufferLength && m == buffer[..msgLength] && IsEnding(phase)
      requires table[parserType] in {Nmea, UnicoreHash}
      modifies this, buffer
      ensures Closing(old(table[parserType]), old(parserType), m, old(EndingOf(phase)), data, old(log), old(overrun))
    {
      SaveByte(m, data);
      EndingRoutine(m, data);
    }

    method ReadOn(ghost st: State, data: byte)
      requires Valid() && phase != FirstByte && msgLength < bufferLength && st == State() && Proper(Cfg(), st)
      requires Ready(table[parserType], buffer[..msgLength]) <==> IsEnding(phase)
      requires IsEnding(phase) ==> table[parserType] in {Nmea, UnicoreHash}
      modifies this, buffer
      ensures Stepped(Next(Cfg(), st, data), old(log), old(overrun) || Overruns(Cfg(), st, data))
    {
      if IsEnding(phase) {
        ReadEnding(st.msg, data);
        ClosingIsNext(st.index, st.msg, st.ending, data, old(log), old(overrun));
      } else {
        ReadInside(st.msg, data);
      }
    }

    /** Reads the next byte of the stream. */
    method SempParseNextByte(data: byte)
      requires Valid()
      modifies this, buffer
      ensures Valid()
      ensures State() == Next(Cfg(), old(State()), data).state
      ensures log == old(log) + Next(Cfg(), old(State()), data).events
      ensures overrun == (old(overrun) || Overruns(Cfg(), old(State()), data))
    {
      if msgLength >= bufferLength {
        var _ := SempFirstByte(data);
        OfferedIsOffer(data);
      } else if phase == FirstByte {
        buffer[msgLength] := data;
        msgLength := msgLength + 1;
        ComputeCrc(data);
        var _ := SempFirstByte(data);
        OfferedIsOffer(data);
      } else {
        ValidIsProper();
        ReadOn(State(), data);
      }
    }

    /** Reads one byte, with the specification step as a relation. */
    method ReadOne(data: byte) returns (ghost events: seq<Event>)
      requires Valid()
      modifies this, buffer
      ensures Valid() && log == old(log) + events && Moves(Cfg(), old(State()), data, State(), events)
      ensures overrun == (old(overrun) || SomeSpilled(Cfg(), events))
    {
      events := Next(Cfg(), State(), data).events;
      ValidIsProper();
      if phase != FirstByte && table[parserType].Nmea? && Ready(Nmea, buffer[..msgLength]) {
        ReserveIsFree();
      }
      OverrunIsSpill(Cfg(), State(), data);
      SempParseNextByte(data);
    }

    method ReadAll(stream: seq<byte>) returns (ghost events: seq<Event>)
      requires Valid()
      modifies this, buffer
      ensures Valid() && log == old(log) + events && Runs(Cfg(), old(State()), stream, State(), events)
      ensures overrun == (old(overrun) || SomeSpilled(Cfg(), events))
    {
      ghost var start, before := State(), log;
      events := [];
      RunsNowhere(Cfg(), start);
      var i := 0;
      assert stream[..0] == [];
      while i < |stream|
        invariant i <= |stream| && Valid()
        invariant log == before + events && Runs(Cfg(), start, stream[..i], State(), events)
        invariant overrun == (old(overrun) || SomeSpilled(Cfg(), events))
      {
        ghost var mid := State();
        ghost var more := ReadOne(stream[i]);
        RunsOn(Cfg(), start, stream[..i], mid, events, stream[i], State(), more);
        assert stream[..i + 1] == stream[..i] + [stream[i]];
        SpilledEarlierOrLater(Cfg(), events, more);
        events := events + more;
        i := i + 1;
      }
      assert stream[..i] == stream;
    }

    /** Reads a stretch of the stream. It writes behind the buffer only for a sentence that fills it. */
    method Feed(stream: seq<byte>)
      requires Valid()
      modifies this, buffer
      ensures Valid()
      ensures State() == Run(Cfg(), old(State()), stream).state
      ensures log == old(log) + Run(Cfg(), old(State()), stream).events
      ensures overrun == (old(overrun) || SomeSpilled(Cfg(), Run(Cfg(), old(State()), stream).events))
    {
      ghost var events := ReadAll(stream);
      assert Run(Cfg(), old(State()), stream) == Outcome(State(), events);
    }
  }

  /** Refuses an empty or mismatched table and a missing name; otherwise the parser starts idle. */
  method SempBeginParser(name: string, parsers: seq<Routine>, names: seq<string>, length: nat, minimum: nat,
                         callback: Option<seq<byte> -> bool>) returns (p: Parser?)
    requires |parsers| <= 255 && (forall r | r in parsers :: Supported(r))
    requires length <= 65535 && 32 <= minimum <= 65535
    ensures p == null <==> |parsers| != |names| || name == "" || parsers == []
    ensures p != null ==> fresh(p) && fresh(p.buffer) && p.Valid() && p.State() == Idle && p.log == []
    ensures p != null ==> p.Cfg() == Config(parsers, if length < minimum then minimum else length, callback)
  {
    if |parsers| != |names| || name == "" || parsers == [] {
      return null;
    }
    p := new Parser(parsers, length, minimum, callback);
  }

  /**
   Idle parsers are interchangeable: whatever earlier messages left in the length, the CRC, the
   buffer and the scratch area, the same stream leads to the same decisions.
   */
  method FeedBoth(a: Parser, b: Parser, stream: seq<byte>)
    requires a.Valid() && b.Valid() && a.Cfg() == b.Cfg() && a.phase == FirstByte && b.phase == FirstByte
    requires a != b && a.buffer != b.buffer
    modifies a, a.buffer, b, b.buffer
    ensures a.Valid() && b.Valid() && a.State() == b.State()
    ensures old(a.log) <= a.log && old(b.log) <= b.log
    ensures a.log[|old(a.log)|..] == b.log[|old(b.log)|..]
  {
    a.Feed(stream);
    b.Feed(stream);
  }
}
