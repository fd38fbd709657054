/** The theorems about streams, carried over to the parsers that update their state in place. */
module EndToEnd {
  import opened Bytes
  import opened Crc
  import opened Formats
  import opened Stream
  import opened Frames
  import opened Announcements
  import opened Demultiplex
  import opened Delivery
  import opened Packets
  import opened ParserState
  import opened Room
  import opened ErrorDetection
  import opened SempEquivalence
  import opened MmpState
  import opened MessageParser
  import opened MultiProtocolParser
  import opened BufferInterface

  /** An idle parser hands every encoded packet of a stream to the application, in order, and nothing else. */
  method ReceivePackets(p: Parser, items: seq<Item>, wire: seq<byte>)
    requires p.Valid() && p.State() == Idle && AllAddressed(p.Cfg(), items) && wire == Wire(items)
    modifies p, p.buffer
    ensures p.Valid() && p.State() == Idle
    ensures forall item | item in items && !item.Noise? :: item.index < |p.table|
    ensures p.log == old(p.log) + Deliveries(p.Cfg(), items)
  {
    PacketsRoundTrip(p.Cfg(), items);
    p.Feed(wire);
  }

  /** The multi-protocol parser does the same with the packets of its three protocols, and counts them. */
  method CountPackets(q: MmpParser, items: seq<Item>, wire: seq<byte>) returns (calls: nat)
    requires q.Valid() && q.State() == Idle && AllAddressed(q.Cfg(), items) && wire == Wire(items)
    modifies q, q.buffer
    ensures q.Valid() && q.State() == Idle
    ensures forall item | item in items && !item.Noise? :: item.index < |MMP_TABLE|
    ensures q.log == old(q.log) + Deliveries(q.Cfg(), items)
    ensures CountersMove(old(q.messagesProcessed), old(q.crcErrors), q.messagesProcessed, q.crcErrors,
                         Deliveries(q.Cfg(), items))
  {
    PacketsRoundTrip(q.Cfg(), items);
    calls := q.Drain(wire);
  }

  /**
   One call on a buffer: of a SEMP frame, a u-blox frame or a sentence with its CR LF exactly that
   message is taken and decided on, of a byte that begins none of them only that byte.
   */
  method TakeOne(q: MmpParser, f: seq<byte>, rest: seq<byte>) returns (processed: nat)
    requires q.Valid() && q.State() == Idle && |f| + |rest| <= MAXIMUM_LENGTH && Portion(q.bufferLength, f)
    modifies q, q.buffer
    ensures processed == |f| && q.Valid()
    ensures q.State() == Run(q.Cfg(), Idle, f).state && q.log == old(q.log) + Run(q.Cfg(), Idle, f).events
  {
    ghost var events;
    processed, events := q.ProcessBuffer(f + rest);
    TakesPortion(q.Cfg(), f, f + rest, processed);
    assert (f + rest)[..processed] == f;
  }

  /** Without the Unicore hash machine, an idle parser never writes behind its buffer, whatever it reads. */
  method StaysInBuffer(p: Parser, stream: seq<byte>)
    requires p.Valid() && p.State() == Idle && !p.overrun && UnicoreHash !in p.table
    modifies p, p.buffer
    ensures p.Valid() && !p.overrun && p.log == old(p.log) + Run(p.Cfg(), Idle, stream).events
  {
    assert MmpNmea !in p.table by {
      assert !Supported(MmpNmea);
    }
    NeverSpills(p.Cfg(), stream);
    p.Feed(stream);
  }

  /** An idle parser passes on nothing of an RTCM frame that was damaged behind its length field. */
  method RefuseDamagedRtcm(p: Parser, n: nat, ghost f: seq<byte>, g: seq<byte>, ghost i: nat, ghost j: nat)
    requires p.Valid() && p.State() == Idle && p.badCrc.None?
    requires n < |p.table| && p.table[n] == Rtcm && Claim(p.table, 0xD3) == n
    requires RtcmFrame(f) && |f| <= p.bufferLength && ChecksumOk(Rtcm, f) && KeepsHeader(f, g, 3)
    requires Noticed(POLY24, Difference(MsbFirst, f, g)) || TwoBits(Difference(MsbFirst, f, g), i, j)
    modifies p, p.buffer
    ensures p.Valid() && p.State() == Idle && p.log == old(p.log) + [Rejected(n, g)]
  {
    if Noticed(POLY24, Difference(MsbFirst, f, g)) {
      RtcmErrorRejected(p.Cfg(), n, f, g);
    } else {
      RtcmDoubleErrorRejected(p.Cfg(), n, f, g, i, j);
    }
    p.Feed(g);
  }

  /** Both implementations of SEMP framing read the same frame: they pass it on together or not at all. */
  method ReadSempTwice(p: Parser, q: MmpParser, n: nat, f: seq<byte>) returns (calls: nat)
    requires p.Valid() && p.State() == Idle && q.Valid() && q.State() == Idle
    requires p.badCrc.None? && p.bufferLength == q.bufferLength && p.buffer != q.buffer
    requires n < |p.table| && p.table[n] == Custom && Claim(p.table, 0xAA) == n
    requires CustomFrame(f) && MmpSempFrame(f) && |f| <= p.bufferLength
    modifies p, p.buffer, q, q.buffer
    ensures p.log == old(p.log) + [if SempOk(f) then Accepted(n, f) else Rejected(n, f)]
    ensures q.log == old(q.log) + [if SempOk(f) then Accepted(0, f) else Rejected(0, f)]
  {
    MachinesAgree(p.Cfg(), q.Cfg(), n, 0, f);
    p.Feed(f);
    calls := q.Drain(f);
  }

  /**
   On any stream in which no header has another length or announces no data, and no byte that is
   offered to the tables is claimed by another protocol, both parsers log the same decisions.
   */
  method ReadSempStreams(p: Parser, q: MmpParser, n: nat, stream: seq<byte>) returns (calls: nat)
    requires p.Valid() && p.State() == Idle && q.Valid() && q.State() == Idle
    requires Pair(p.Cfg(), q.Cfg(), n, 0) && p.buffer != q.buffer
    requires NeverDiverges(p.Cfg(), q.Cfg(), n, 0, stream)
    modifies p, p.buffer, q, q.buffer
    ensures old(p.log) <= p.log && q.log == old(q.log) + Renamed(p.log[|old(p.log)|..], 0)
  {
    RunsTogether(p.Cfg(), q.Cfg(), n, 0, stream);
    p.Feed(stream);
    calls := q.Drain(stream);
  }

  /**
   The counters of a new parser, after any stream: each holds the number of its decisions in the
   log, modulo the word size, and all sixteen together the number of all decisions.
   */
  method CountMessages(size: nat, callback: Option<seq<byte> -> bool>, stream: seq<byte>)
    returns (q: MmpParser?, calls: nat)
    requires size <= MAXIMUM_LENGTH
    ensures q == null <==> size < MINIMUM_BUFFER_LENGTH
    ensures q != null ==> q.log == Run(Config(MMP_TABLE, size, callback), Idle, stream).events
    ensures q != null ==> Counted(q.messagesProcessed, q.crcErrors, q.log)
    ensures q != null ==> CounterSum(q.messagesProcessed, q.crcErrors, 8) % WORD == |q.log| % WORD
  {
    calls := 0;
    q := InitParser(size, callback);
    if q != null {
      calls := q.Drain(stream);
      DecisionsInTable(q.Cfg(), stream);
      assert q.log[0..] == q.log;
      CountersAddUp(q.messagesProcessed, q.crcErrors, q.log);
    }
  }

  /** Byte by byte or in chunks: two parsers with the same counters end with the same counters. */
  method CountTwice(q: MmpParser, r: MmpParser, stream: seq<byte>) returns (calls: nat)
    requires q.Valid() && r.Valid() && q != r && q.buffer != r.buffer && q.Cfg() == r.Cfg() && q.State() == r.State()
    requires q.messagesProcessed == r.messagesProcessed && q.crcErrors == r.crcErrors
    modifies q, q.buffer, r, r.buffer
    ensures q.Valid() && r.Valid() && q.State() == r.State()
    ensures q.messagesProcessed == r.messagesProcessed && q.crcErrors == r.crcErrors
    ensures old(q.log) <= q.log && old(r.log) <= r.log && q.log[|old(q.log)|..] == r.log[|old(r.log)|..]
  {
    calls := q.Drain(stream);
    r.ProcessEach(stream);
    SameCounters(old(q.messagesProcessed), old(q.crcErrors), q.messagesProcessed, q.crcErrors,
                 r.messagesProcessed, r.crcErrors, Run(q.Cfg(), old(q.State()), stream).events);
  }

  /** A correctly encoded packet with too little payload is not passed on: the parser goes on reading. */
  method ReadShortPacket(p: Parser, i: nat, packet: Packet)
    requires p.Valid() && p.State() == Idle && i < |p.table| && Reads(p.table[i], packet)
    requires HasCounter(p.table[i]) && Encodable(packet) && !Sufficient(p.table[i], packet)
    requires FitsBuffer(packet, p.bufferLength) && Claim(p.table, Encode(packet)[0]) == i
    modifies p, p.buffer
    ensures p.Valid() && p.State() == Busy(i, Encode(packet), NoEnding) && p.log == old(p.log)
  {
    PacketIsDecided(p.Cfg(), i, packet);
    p.Feed(Encode(packet));
  }

  /** A MODE sentence that fills the buffer is closed behind it. */
  method ReadLongModeSentence(p: Parser, i: nat)
    requires p.Valid() && p.State() == Idle && i < |p.table| && p.table[i].UnicoreHash? && Claim(p.table, 0x23) == i
    modifies p, p.buffer
    ensures p.Valid() && p.overrun
  {
    ModeSentenceSpills(p.Cfg(), i);
    p.Feed(LongModeSentence(p.bufferLength) + CRLF);
  }

  /** And so is an NMEA sentence of the multi-protocol parser. */
  method ReadLongNmeaSentence(q: MmpParser) returns (calls: nat)
    requires q.Valid() && q.State() == Idle
    modifies q, q.buffer
    ensures q.Valid() && q.overrun
  {
    NmeaSentenceSpills(q.Cfg(), 1);
    calls := q.Drain(LongNmeaSentence(q.bufferLength) + [CR]);
  }
}
