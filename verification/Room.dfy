/** How much of the buffer the protocols use: the reserve of the sentence machines, and the largest frames. */
module Room {
  import opened Bytes
  import opened Formats
  import opened Traces
  import opened Stream
  import opened Soundness
  import opened Frames
  import opened Demultiplex
  import opened Delivery
  import opened SentenceEncoders

  function Repeat(b: byte, n: nat): (s: seq<byte>)
    ensures |s| == n && forall x | x in s :: x == b
  {
    seq(n, _ => b)
  }

  // ---------------------------------------------------------------------------------------
  // NMEA: the reserve is exactly enough
  // ---------------------------------------------------------------------------------------

  /** Carriage return, line feed and NUL always fit behind a complete NMEA sentence. */
  lemma NmeaHasRoom(bufferLength: nat, m: seq<byte>)
    requires SentenceFrame(Nmea, bufferLength, m)
    ensures |m| + 3 <= bufferLength
  {
  }

  /** And for some sentence they just fit. */
  lemma NmeaRoomIsTight(bufferLength: nat) returns (m: seq<byte>)
    requires bufferLength >= 32
    ensures SentenceFrame(Nmea, bufferLength, m) && ChecksumOk(Nmea, m) && |m| + 3 == bufferLength
  {
    var name: seq<byte>, body := [0x41], Repeat(0x30, bufferLength - 9);
    m := EncodeNmea(0x24, name, body, [false, false]);
    NmeaRoundTrip(Nmea, bufferLength, 0x24, name, body, [false, false]);
  }

  // ---------------------------------------------------------------------------------------
  // When closing a sentence does not fit
  // ---------------------------------------------------------------------------------------

  /**
   The exact condition, for every decision of every run: a sentence that is passed on fails to fit
   with its terminator and NUL if and only if it is a Unicore hash sentence named with MODE that
   leaves two bytes or one, or an NMEA sentence of the multi-protocol parser that leaves two.
   */
  lemma SpilledExactly(cfg: Config, s: seq<byte>, k: nat)
    requires cfg.Valid() && k < |Run(cfg, Idle, s).events|
    ensures var e := Run(cfg, Idle, s).events[k]; e.index < |cfg.table|
    ensures var e := Run(cfg, Idle, s).events[k];
            Spilled(cfg, e) <==> e.Accepted? && JustTooLong(cfg.table[e.index], Body(cfg, e), cfg.bufferLength)
  {
    EveryByteAccounted(cfg, s);
    AccountJustifies(cfg, s, Run(cfg, Idle, s), Starts(cfg, s), k);
    JustifiedSpills(cfg, Run(cfg, Idle, s).events[k]);
  }

  predicate JustTooLong(p: Routine, m: seq<byte>, bufferLength: nat) {
    || (p.UnicoreHash? && Contains(Name(m), MODE) && |m| in {bufferLength - 2, bufferLength - 1})
    || (p.MmpNmea? && |m| == bufferLength - 2)
  }

  lemma JustifiedSpills(cfg: Config, e: Event)
    requires cfg.Valid() && Justified(cfg, e)
    ensures Spilled(cfg, e) <==> e.Accepted? && JustTooLong(cfg.table[e.index], Body(cfg, e), cfg.bufferLength)
  {
    if e.Accepted? && IsSentence(cfg.table[e.index]) {
      CompleteIsFramed(cfg, cfg.table[e.index], Body(cfg, e));
    }
  }

  /** Without those two machines in the table, no stream whatever makes a sentence spill. */
  lemma NeverSpills(cfg: Config, s: seq<byte>)
    requires cfg.Valid() && UnicoreHash !in cfg.table && MmpNmea !in cfg.table
    ensures !SomeSpilled(cfg, Run(cfg, Idle, s).events)
  {
    var events := Run(cfg, Idle, s).events;
    forall e | e in events ensures !Spilled(cfg, e) {
      var k :| 0 <= k < |events| && events[k] == e;
      SpilledExactly(cfg, s, k);
      assert cfg.table[e.index] in cfg.table;
    }
  }

  /** A MODE sentence that leaves one byte of the buffer free. */
  function LongModeSentence(bufferLength: nat): seq<byte>
    requires bufferLength >= 32
  {
    EncodeNmea(0x23, MODE, Repeat(0x30, bufferLength - 10), [false, false])
  }

  /** An NMEA sentence that leaves two bytes of the buffer free. */
  function LongNmeaSentence(bufferLength: nat): seq<byte>
    requires bufferLength >= 32
  {
    EncodeNmea(0x24, [0x41], Repeat(0x30, bufferLength - 8), [false, false])
  }

  lemma LongModeIsFrame(bufferLength: nat)
    requires bufferLength >= 32
    ensures var m := LongModeSentence(bufferLength);
            && SentenceFrame(UnicoreHash, bufferLength, m) && ChecksumOk(UnicoreHash, m)
            && m[0] == 0x23 && |m| == bufferLength - 1 && ChecksumChars(UnicoreHash, m) == 2
  {
    assert OccursAt(MODE, 0, MODE);
    NmeaRoundTrip(UnicoreHash, bufferLength, 0x23, MODE, Repeat(0x30, bufferLength - 10), [false, false]);
  }

  lemma LongNmeaIsFrame(bufferLength: nat)
    requires bufferLength >= 32
    ensures var m := LongNmeaSentence(bufferLength);
            SentenceFrame(MmpNmea, bufferLength, m) && ChecksumOk(MmpNmea, m) && m[0] == 0x24 && |m| == bufferLength - 2
  {
    NmeaRoundTrip(MmpNmea, bufferLength, 0x24, [0x41], Repeat(0x30, bufferLength - 8), [false, false]);
  }

  lemma AcceptedSpills(cfg: Config, i: nat, m: seq<byte>, term: seq<byte>)
    requires cfg.Valid() && i < |cfg.table| && IsSentence(cfg.table[i]) && Closed(cfg.table[i], term)
    requires Framed(cfg.table[i], cfg.bufferLength, m) && Passes(cfg, cfg.table[i], m) && Claim(cfg.table, m[0]) == i
    requires cfg.bufferLength - 2 <= |m| < cfg.bufferLength
    ensures Run(cfg, Idle, m + term).events == [Accepted(i, m + CRLF)]
    ensures SomeSpilled(cfg, Run(cfg, Idle, m + term).events)
  {
    TerminatorNormalised(cfg, i, m, term, []);
    assert m + term + [] == m + term;
    assert Run(cfg, Idle, []) == Outcome(Idle, []);
    assert Spilled(cfg, Accepted(i, m + CRLF)) && Accepted(i, m + CRLF) in Run(cfg, Idle, m + term).events;
  }

  /** The condition is met: for every buffer length there is a MODE sentence that does not fit. */
  lemma ModeSentenceSpills(cfg: Config, i: nat)
    requires cfg.Valid() && i < |cfg.table| && cfg.table[i].UnicoreHash? && Claim(cfg.table, 0x23) == i
    ensures SomeSpilled(cfg, Run(cfg, Idle, LongModeSentence(cfg.bufferLength) + CRLF).events)
  {
    LongModeIsFrame(cfg.bufferLength);
    AcceptedSpills(cfg, i, LongModeSentence(cfg.bufferLength), CRLF);
  }

  /** And for every buffer length there is an NMEA sentence that the multi-protocol parser cannot close inside it. */
  lemma NmeaSentenceSpills(cfg: Config, i: nat)
    requires cfg.Valid() && i < |cfg.table| && cfg.table[i].MmpNmea? && Claim(cfg.table, 0x24) == i
    ensures SomeSpilled(cfg, Run(cfg, Idle, LongNmeaSentence(cfg.bufferLength) + [CR]).events)
  {
    LongNmeaIsFrame(cfg.bufferLength);
    AcceptedSpills(cfg, i, LongNmeaSentence(cfg.bufferLength), [CR]);
  }

  // ---------------------------------------------------------------------------------------
  // SPARTN: the layout of a complete frame
  // ---------------------------------------------------------------------------------------

  /** A complete frame is laid out as its fields say, and has at most 1103 bytes. */
  lemma SpartnLayout(cfg: Config, m: seq<byte>)
    requires cfg.Valid() && |m| <= cfg.bufferLength && Complete(cfg, Spartn, m)
    ensures |m| >= 5 && |m| >= 4 + SpartnDescription(m)
    ensures |m| == 4 + SpartnDescription(m) + SpartnPayload(m) + SpartnEmbedded(m) + SpartnCrcBytes(m)
    ensures |m| <= 1103 && SpartnHeaderOk(m) && SpartnPayload(m) >= 1
  {
    CompleteIsFramed(cfg, Spartn, m);
  }
}
