/** Streams of encoded packets come out of the parser as they went in. */
module Packets {
  import opened Bytes
  import opened Formats
  import opened Characters
  import opened Traces
  import opened Stream
  import opened Frames
  import opened Announcements
  import opened Demultiplex
  import opened Delivery
  import opened Encoders
  import opened SpartnEncoder
  import opened SentenceEncoders

  datatype Packet =
    | RtcmPacket(payload: seq<byte>)
    | UbloxPacket(class_: byte, id: byte, payload: seq<byte>)
    | SempPacket(front: seq<byte>, back: seq<byte>, data: seq<byte>)
    | UnicorePacket(front: seq<byte>, back: seq<byte>, data: seq<byte>)
    | SbfPacket(idLow: byte, idHigh: byte, payload: seq<byte>)
    | SpartnPacket(kind: byte, encrypted: bool, crcType: nat, indicator: nat, description: seq<byte>,
                   payload: seq<byte>, authentication: seq<byte>)
    | NmeaPacket(start: char, name: seq<byte>, body: seq<byte>, flips: seq<bool>)
    | HashPacket(name: seq<byte>, body: seq<byte>, flips: seq<bool>)

  /** The routine of the packet's format reads it; the multi-protocol parser has its own for three formats. */
  predicate Reads(r: Routine, p: Packet) {
    match p
    case RtcmPacket(_) => r.Rtcm?
    case UbloxPacket(_, _, _) => r.Ublox? || r.MmpUblox?
    case SempPacket(_, _, _) => r.Custom? || r.MmpSemp?
    case UnicorePacket(_, _, _) => r.UnicoreBinary?
    case SbfPacket(_, _, _) => r.Sbf?
    case SpartnPacket(_, _, _, _, _, _, _) => r.Spartn?
    case NmeaPacket(start, _, _, _) => r.Nmea? || (r.MmpNmea? && start == '$')
    case HashPacket(_, _, _) => r.UnicoreHash?
  }

  /** The fields have the sizes that the format provides for. */
  predicate Encodable(p: Packet) {
    match p
    case RtcmPacket(payload) => |payload| < 1024
    case UbloxPacket(_, _, payload) => |payload| < 65536
    case SempPacket(front, back, data) => |front| == 8 && |back| == 6 && |data| < 65536
    case UnicorePacket(front, back, data) => |front| == 3 && |back| == 16 && |data| < 65536
    case SbfPacket(_, _, payload) => |payload| < 65528 && |payload| % 4 == 0
    case SpartnPacket(_, encrypted, crcType, indicator, description, payload, authentication) =>
      crcType < 4 && |payload| < 1024 && FieldsFit(encrypted, indicator, description, authentication)
    case NmeaPacket(start, name, body, flips) =>
      (start == '$' || start == '!') && IsName(name) && STAR !in body && |flips| == 2
    case HashPacket(name, body, flips) =>
      IsName(name) && STAR !in body && |flips| == if Contains(name, Text("MODE")) then 2 else 8
  }

  /** There is as much payload as the machine's counter needs. */
  predicate Sufficient(r: Routine, p: Packet) {
    match p
    case RtcmPacket(payload) => |payload| >= 3
    case SempPacket(_, _, data) => r.MmpSemp? || data != []
    case UnicorePacket(_, _, data) => data != []
    case SbfPacket(_, _, payload) => payload != []
    case SpartnPacket(_, _, _, _, _, payload, _) => payload != []
    case _ => true
  }

  /** A Unicore hash sentence has two checksum characters when its name contains MODE, and eight otherwise. */
  function Encode(p: Packet): (f: seq<byte>)
    requires Encodable(p)
    ensures |f| >= 6
  {
    match p
    case RtcmPacket(payload) => EncodeRtcm(payload)
    case UbloxPacket(class_, id, payload) => EncodeUblox(class_, id, payload)
    case SempPacket(front, back, data) => EncodeSemp(front, back, data)
    case UnicorePacket(front, back, data) => EncodeUnicore(front, back, data)
    case SbfPacket(idLow, idHigh, payload) => EncodeSbf(idLow, idHigh, payload)
    case SpartnPacket(kind, encrypted, crcType, indicator, description, payload, authentication) =>
      EncodeSpartn(kind, encrypted, crcType, indicator, description, payload, authentication)
    case NmeaPacket(start, name, body, flips) => EncodeNmea(Code(start), name, body, flips)
    case HashPacket(name, body, flips) =>
      if Contains(name, Text("MODE")) then EncodeNmea(Code('#'), name, body, flips) else EncodeHash(name, body, flips)
  }

  /** The encoded packet fits the buffer; sentences need room for their terminator and a NUL as well. */
  predicate FitsBuffer(p: Packet, bufferLength: nat)
    requires Encodable(p)
  {
    |Encode(p)| + (if p.NmeaPacket? || p.HashPacket? then 3 else 0) <= bufferLength
  }

  /** A frame of its format with a correct checksum; unfolded only where it is used. */
  ghost predicate Correct(r: Routine, bufferLength: nat, f: seq<byte>) {
    forall m | m == f :: Framed(r, bufferLength, m) && ChecksumOk(r, m)
  }

  lemma NmeaPacketIsFramed(r: Routine, p: Packet, bufferLength: nat)
    requires p.NmeaPacket? && Reads(r, p) && Encodable(p) && FitsBuffer(p, bufferLength)
    ensures Correct(r, bufferLength, Encode(p))
  {
    SentenceStarts(Code(p.start));
    NmeaRoundTrip(r, bufferLength, Code(p.start), p.name, p.body, p.flips);
  }

  lemma HashPacketIsFramed(p: Packet, bufferLength: nat)
    requires p.HashPacket? && Encodable(p) && FitsBuffer(p, bufferLength)
    ensures Correct(UnicoreHash, bufferLength, Encode(p))
  {
    Delimiters();
    if Contains(p.name, MODE) {
      SentenceStarts(Code('#'));
      NmeaRoundTrip(UnicoreHash, bufferLength, Code('#'), p.name, p.body, p.flips);
    } else {
      HashRoundTrip(bufferLength, p.name, p.body, p.flips);
    }
  }

  /** The packet is laid out as its header announces, and its checksum is right; unfolded only where it is used. */
  ghost predicate Delivers(r: Routine, f: seq<byte>, sufficient: bool) {
    forall m | m == f :: HasCounter(r) && Announced(r, m) && (Enough(r, m) <==> sufficient) && ChecksumOk(r, m)
  }

  lemma RtcmDelivers(payload: seq<byte>, f: seq<byte>)
    requires |payload| < 1024 && f == EncodeRtcm(payload)
    ensures Delivers(Rtcm, f, |payload| >= 3)
  {
    RtcmRoundTrip(payload);
    EnoughIsFramed(Rtcm, 0, f);
  }

  lemma SempDelivers(front: seq<byte>, back: seq<byte>, data: seq<byte>, f: seq<byte>)
    requires |front| == 8 && |back| == 6 && |data| < 65536 && f == EncodeSemp(front, back, data)
    ensures Delivers(Custom, f, data != [])
  {
    SempRoundTrip(front, back, data);
    EnoughIsFramed(Custom, 0, f);
  }

  lemma UnicoreDelivers(front: seq<byte>, back: seq<byte>, data: seq<byte>, f: seq<byte>)
    requires |front| == 3 && |back| == 16 && |data| < 65536 && f == EncodeUnicore(front, back, data)
    ensures Delivers(UnicoreBinary, f, data != [])
  {
    UnicoreRoundTrip(front, back, data);
    EnoughIsFramed(UnicoreBinary, 0, f);
  }

  lemma SbfDelivers(idLow: byte, idHigh: byte, payload: seq<byte>, f: seq<byte>)
    requires |payload| < 65528 && |payload| % 4 == 0 && f == EncodeSbf(idLow, idHigh, payload)
    ensures Delivers(Sbf, f, payload != [])
  {
    SbfRoundTrip(idLow, idHigh, payload);
    EnoughIsFramed(Sbf, 0, f);
  }

  lemma SpartnDelivers(p: Packet, f: seq<byte>)
    requires p.SpartnPacket? && Encodable(p) && f == Encode(p)
    ensures Delivers(Spartn, f, p.payload != [])
  {
    SpartnRoundTrip(p.kind, p.encrypted, p.crcType, p.indicator, p.description, p.payload, p.authentication);
    EnoughIsFramed(Spartn, 0, f);
  }

  lemma CountedPacket(r: Routine, p: Packet)
    requires Encodable(p) && Reads(r, p) && HasCounter(r)
    ensures Delivers(r, Encode(p), Sufficient(r, p))
  {
    match p
    case RtcmPacket(payload) => RtcmDelivers(payload, Encode(p));
    case SempPacket(front, back, data) => SempDelivers(front, back, data, Encode(p));
    case UnicorePacket(front, back, data) => UnicoreDelivers(front, back, data, Encode(p));
    case SbfPacket(idLow, idHigh, payload) => SbfDelivers(idLow, idHigh, payload, Encode(p));
    case SpartnPacket(_, _, _, _, _, _, _) => SpartnDelivers(p, Encode(p));
  }

  lemma DeliveredIsFramed(r: Routine, bufferLength: nat, f: seq<byte>)
    requires Delivers(r, f, true)
    ensures Correct(r, bufferLength, f)
  {
    EnoughIsFramed(r, bufferLength, f);
  }

  lemma DeliveredIsDecided(cfg: Config, i: nat, f: seq<byte>, sufficient: bool)
    requires cfg.Valid() && i < |cfg.table| && f != [] && |f| <= cfg.bufferLength && Claim(cfg.table, f[0]) == i
    requires Delivers(cfg.table[i], f, sufficient)
    ensures Run(cfg, Idle, f)
            == if sufficient then Outcome(Idle, [Accepted(i, f)]) else Outcome(Busy(i, f, NoEnding), [])
  {
    assert ChecksumOk(cfg.table[i], f);
    AnnouncedIsDecided(cfg, i, f);
    if sufficient {
      CheckedIsAccepted(cfg, i, f);
    }
  }

  lemma CheckedIsAccepted(cfg: Config, i: nat, f: seq<byte>)
    requires i < |cfg.table| && HasCounter(cfg.table[i]) && ChecksumOk(cfg.table[i], f)
    ensures Decide(cfg, i, f) == Accepted(i, f)
  {
  }

  lemma UbloxPacketIsFramed(r: Routine, p: Packet, bufferLength: nat)
    requires p.UbloxPacket? && Reads(r, p) && Encodable(p)
    ensures Correct(r, bufferLength, Encode(p))
  {
    UbloxRoundTrip(p.class_, p.id, p.payload);
  }

  lemma MmpSempPacketIsFramed(p: Packet, bufferLength: nat)
    requires p.SempPacket? && Encodable(p)
    ensures Correct(MmpSemp, bufferLength, Encode(p))
  {
    SempRoundTrip(p.front, p.back, p.data);
  }

  lemma PacketIsFramed(r: Routine, p: Packet, bufferLength: nat)
    requires Encodable(p) && Reads(r, p) && Sufficient(r, p) && FitsBuffer(p, bufferLength)
    ensures Correct(r, bufferLength, Encode(p))
  {
    if p.NmeaPacket? {
      NmeaPacketIsFramed(r, p, bufferLength);
    } else if p.HashPacket? {
      HashPacketIsFramed(p, bufferLength);
    } else if p.UbloxPacket? {
      UbloxPacketIsFramed(r, p, bufferLength);
    } else if r.MmpSemp? {
      MmpSempPacketIsFramed(p, bufferLength);
    } else {
      CountedPacket(r, p);
      DeliveredIsFramed(r, bufferLength, Encode(p));
    }
  }

  /**
   Every correctly encoded packet of a machine with a counter, also one with too little payload: it
   is passed on at its last byte if and only if its payload suffices, and otherwise the parser is
   still reading and has passed on nothing.
   */
  lemma PacketIsDecided(cfg: Config, i: nat, p: Packet)
    requires cfg.Valid() && i < |cfg.table| && Reads(cfg.table[i], p) && HasCounter(cfg.table[i])
    requires Encodable(p) && FitsBuffer(p, cfg.bufferLength) && Claim(cfg.table, Encode(p)[0]) == i
    ensures var f := Encode(p);
            Run(cfg, Idle, f)
            == if Sufficient(cfg.table[i], p) then Outcome(Idle, [Accepted(i, f)])
               else Outcome(Busy(i, f, NoEnding), [])
  {
    CountedPacket(cfg.table[i], p);
    DeliveredIsDecided(cfg, i, Encode(p), Sufficient(cfg.table[i], p));
  }

  /** A packet for the parser at its table index, or noise without preambles, and proper line terminators. */
  ghost predicate Addressed(cfg: Config, item: Item, rest: seq<byte>) {
    if item.Noise? then forall b | b in item.bytes :: Claim(cfg.table, b) == |cfg.table|
    else
      && item.index < |cfg.table| && item.bytes != [] && Claim(cfg.table, item.bytes[0]) == item.index
      && (item.Sentence? <==> IsSentence(cfg.table[item.index]))
      && (item.Sentence? ==> Closed(cfg.table[item.index], item.term)
                             || (rest != [] && CutOff(cfg.table[item.index], item.term, rest[0])))
      && Carries(cfg, item.index, item.bytes)
  }

  ghost predicate Carries(cfg: Config, i: nat, bytes: seq<byte>)
    requires i < |cfg.table|
  {
    exists p: Packet :: CarriesPacket(cfg, i, bytes, p)
  }

  predicate CarriesPacket(cfg: Config, i: nat, bytes: seq<byte>, p: Packet)
    requires i < |cfg.table|
  {
    && Encodable(p) && Reads(cfg.table[i], p) && Sufficient(cfg.table[i], p) && FitsBuffer(p, cfg.bufferLength)
    && bytes == Encode(p)
  }

  ghost predicate AllAddressed(cfg: Config, items: seq<Item>) {
    items != [] ==> Addressed(cfg, items[0], Wire(items[1..])) && AllAddressed(cfg, items[1..])
  }

  lemma PacketPasses(cfg: Config, i: nat, bytes: seq<byte>, p: Packet)
    requires i < |cfg.table| && CarriesPacket(cfg, i, bytes, p)
    ensures Framed(cfg.table[i], cfg.bufferLength, bytes) && Passes(cfg, cfg.table[i], bytes)
    ensures |bytes| + (if IsSentence(cfg.table[i]) then 3 else 0) <= cfg.bufferLength
  {
    PacketIsFramed(cfg.table[i], p, cfg.bufferLength);
    assert ChecksumOk(cfg.table[i], bytes);
  }

  lemma AddressedIsWellFormed(cfg: Config, item: Item, rest: seq<byte>)
    requires Addressed(cfg, item, rest)
    ensures WellFormed(cfg, item, rest)
    ensures !item.Noise? ==> item.index < |cfg.table| && Passes(cfg, cfg.table[item.index], item.bytes)
  {
    if !item.Noise? {
      var p: Packet :| CarriesPacket(cfg, item.index, item.bytes, p);
      PacketPasses(cfg, item.index, item.bytes, p);
    }
  }

  lemma {:induction false} AllAddressedIsWellFormed(cfg: Config, items: seq<Item>)
    requires AllAddressed(cfg, items)
    ensures AllWellFormed(cfg, items) && AllPass(cfg, items)
    decreases |items|
  {
    if items != [] {
      AddressedIsWellFormed(cfg, items[0], Wire(items[1..]));
      AllAddressedIsWellFormed(cfg, items[1..]);
      forall item | item in items && !item.Noise?
        ensures item.index < |cfg.table| && Passes(cfg, cfg.table[item.index], item.bytes)
      {
        assert item == items[0] || item in items[1..];
      }
    }
  }

  /**
   The demultiplexing round trip. For every list of packets of any of the protocols, each encoded
   for its own entry of the table, with arbitrary preamble-free noise between them, the messages
   passed on are exactly those packets, in order, each under its table index, and the parser ends
   idle.
   */
  lemma PacketsRoundTrip(cfg: Config, items: seq<Item>)
    requires cfg.Valid() && AllAddressed(cfg, items)
    ensures forall item | item in items && !item.Noise? :: item.index < |cfg.table|
    ensures Run(cfg, Idle, Wire(items)) == Outcome(Idle, Deliveries(cfg, items))
  {
    AllAddressedIsWellFormed(cfg, items);
    AllDelivered(cfg, items);
  }
}
