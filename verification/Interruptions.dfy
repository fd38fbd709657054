/** Bytes that cannot continue a message: which of them are lost, and which are read again as a first byte. */
module Interruptions {
  import opened Bytes
  import opened Formats
  import opened Traces
  import opened Stream
  import opened Soundness
  import opened Frames
  import opened Completeness
  import opened Characters

  predicate IsDigitCharacter(b: byte) {
    InRange(b, '0', '9') || InRange(b, 'A', 'F') || InRange(b, 'a', 'f') || 0x10 <= b <= 0x19
  }

  /** The room that a sentence keeps free for what follows its body. */
  function Reserve(p: Routine): nat {
    match p
    case Nmea => 6
    case MmpNmea => 5
    case _ => 3
  }

  /** A character that a name, a body or a checksum cannot hold, or a name or body that grows too long. */
  predicate SentenceBreaksOff(p: Routine, bufferLength: nat, m: seq<byte>, data: byte) {
    if COMMA !in m then (if data == COMMA then |m| == 1 else !IsLetterOrDigit(data) || |m| > 15)
    else if STAR !in m then data != STAR && |m| + 1 + Reserve(p) > bufferLength
    else !IsDigitCharacter(data)
  }

  predicate WrongSync(m: seq<byte>, data: byte, sync2: byte, sync3: byte) {
    (|m| == 1 && data != sync2) || (|m| == 2 && data != sync3)
  }

  /** The message is given up, and the byte is read as the first byte of another one. */
  predicate BreaksOff(p: Routine, bufferLength: nat, m: seq<byte>, data: byte) {
    match p
    case Rtcm => |m| == 1 && data >= 4
    case Ublox => |m| == 1 && data != 0x62
    case MmpUblox => |m| == 1 && data != 0x62
    case Custom => WrongSync(m, data, 0x44, 0x18)
    case MmpSemp => WrongSync(m, data, 0x44, 0x18)
    case UnicoreBinary => WrongSync(m, data, 0x44, 0xB5)
    case Nmea => SentenceBreaksOff(p, bufferLength, m, data)
    case UnicoreHash => SentenceBreaksOff(p, bufferLength, m, data)
    case MmpNmea => SentenceBreaksOff(p, bufferLength, m, data)
    case _ => false
  }

  /** The message is given up, and the byte with it. */
  predicate Swallows(p: Routine, m: seq<byte>, data: byte) {
    match p
    case Sbf => (|m| == 1 && data != 0x40) || (|m| == 7 && LittleEndian16(m[6], data) % 4 != 0)
    case Spartn => |m| == 3 && !SpartnHeaderOk(m + [data])
    case MmpSemp => |m| == 19 && m[3] != 0x14
    case _ => false
  }

  lemma SixBits(data: byte)
    ensures data & 0xFC != 0 <==> data >= 4
  {
  }

  lemma BinaryVerdictSplits(p: Routine, bufferLength: nat, m: seq<byte>, data: byte)
    requires !IsSentence(p) && !p.MmpRtcm? && m != []
    ensures Verdicts(p, bufferLength, m + [data]).Broken? <==> BreaksOff(p, bufferLength, m, data)
    ensures Verdicts(p, bufferLength, m + [data]).Dropped? <==> Swallows(p, m, data)
  {
    SixBits(data);
  }

  lemma FoundIn(m: seq<byte>, data: byte, b: byte)
    ensures b in m ==> Find(m + [data], b) < |m|
    ensures b !in m ==> Find(m + [data], b) == if data == b then |m| else |m| + 1
  {
    var m' := m + [data];
    if b in m {
      var j :| 0 <= j < |m| && m[j] == b;
      assert m'[j] == b;
    }
    assert forall j | 0 <= j < |m| :: m'[j] == m[j];
    assert data == b ==> m'[|m|] == b;
  }

  lemma CommaComesLater(cfg: Config, p: Routine, m: seq<byte>)
    requires IsSentence(p) && Live(cfg, p, m) && |m| >= 2
    ensures m[0] != COMMA && m[1] != COMMA
  {
    assert ReadsOn(cfg, p, m, 2);
    assert m[..2] == [m[0]] + [m[1]];
    PreambleIsNoDelimiter(p, m[0]);
    FoundIn([m[0]], m[1], COMMA);
  }

  lemma SentenceVerdictSplits(cfg: Config, p: Routine, m: seq<byte>, data: byte)
    requires IsSentence(p) && Live(cfg, p, m) && !Ready(p, m)
    ensures Verdicts(p, cfg.bufferLength, m + [data]).Broken? <==> BreaksOff(p, cfg.bufferLength, m, data)
    ensures !Verdicts(p, cfg.bufferLength, m + [data]).Dropped?
  {
    FoundIn(m, data, COMMA);
    FoundIn(m, data, STAR);
    NameAlphabet(data);
    HexCharacters(data);
    PreambleIsNoDelimiter(p, m[0]);
    if |m| >= 2 {
      CommaComesLater(cfg, p, m);
    }
  }

  lemma VerdictSplits(cfg: Config, p: Routine, m: seq<byte>, data: byte)
    requires Live(cfg, p, m) && !Ready(p, m)
    ensures Verdicts(p, cfg.bufferLength, m + [data]).Broken? <==> BreaksOff(p, cfg.bufferLength, m, data)
    ensures Verdicts(p, cfg.bufferLength, m + [data]).Dropped? <==> Swallows(p, m, data)
  {
    if IsSentence(p) {
      SentenceVerdictSplits(cfg, p, m, data);
    } else {
      BinaryVerdictSplits(p, cfg.bufferLength, m, data);
    }
  }

  /** The message in hand is forgotten: the stream goes on as if it began with `rest`. */
  ghost predicate StartsOver(cfg: Config, before: seq<byte>, rest: seq<byte>) {
    Run(cfg, Idle, before + rest) == Run(cfg, Idle, rest)
  }

  lemma OfferedStartsOver(cfg: Config, i: nat, m: seq<byte>, data: byte, rest: seq<byte>)
    requires Run(cfg, Idle, m) == Outcome(Busy(i, m, NoEnding), [])
    requires Next(cfg, Busy(i, m, NoEnding), data) == Outcome(Offer(cfg, data), [])
    ensures StartsOver(cfg, m, [data] + rest)
  {
    var st, s := Busy(i, m, NoEnding), [data] + rest;
    RunConcat(cfg, Idle, m, s);
    FoldMerges(Machine(cfg), st, Idle, [], s);
  }

  lemma DroppedStartsOver(cfg: Config, i: nat, m: seq<byte>, data: byte, rest: seq<byte>)
    requires Run(cfg, Idle, m) == Outcome(Busy(i, m, NoEnding), [])
    requires Next(cfg, Busy(i, m, NoEnding), data) == Outcome(Idle, [])
    ensures StartsOver(cfg, m + [data], rest)
  {
    RunAppend(cfg, Idle, m, data);
    RunConcat(cfg, Idle, m + [data], rest);
  }

  /** The byte was added to the message, or completed it and a decision was made. */
  ghost predicate Continued(cfg: Config, i: nat, m: seq<byte>) {
    var r := Run(cfg, Idle, m);
    || r == Outcome(Busy(i, m, NoEnding), [])
    || (r.state.Idle? && |r.events| == 1 && Body(cfg, r.events[0]) == m)
  }

  lemma ByteContinues(cfg: Config, i: nat, m: seq<byte>, data: byte)
    requires cfg.Valid() && i < |cfg.table| && 1 <= |m| < cfg.bufferLength && !Ready(cfg.table[i], m)
    requires Run(cfg, Idle, m) == Outcome(Busy(i, m, NoEnding), [])
    requires !Verdicts(cfg.table[i], cfg.bufferLength, m + [data]).Broken?
    requires !Verdicts(cfg.table[i], cfg.bufferLength, m + [data]).Dropped?
    ensures Continued(cfg, i, m + [data])
  {
    RunAppend(cfg, Idle, m, data);
    var p, m' := cfg.table[i], m + [data];
    if Verdicts(p, cfg.bufferLength, m').Whole? {
      SentencesAreNeverWhole(cfg, p, m');
    }
  }

  /**
   For every message in progress, every next byte and every continuation: a byte that cannot
   follow is read again as a first byte, except for the SBF second sync byte and length, the
   SPARTN header check and the SEMP header length, where it is lost; in both cases nothing else is.
   Every other byte is taken.
   */
  lemma Interrupted(cfg: Config, i: nat, m: seq<byte>, data: byte, rest: seq<byte>)
    requires cfg.Valid() && i < |cfg.table| && |m| < cfg.bufferLength
    requires Live(cfg, cfg.table[i], m) && !Ready(cfg.table[i], m) && Claim(cfg.table, m[0]) == i
    ensures BreaksOff(cfg.table[i], cfg.bufferLength, m, data) ==> StartsOver(cfg, m, [data] + rest)
    ensures Swallows(cfg.table[i], m, data) ==> StartsOver(cfg, m + [data], rest)
    ensures BreaksOff(cfg.table[i], cfg.bufferLength, m, data) || Swallows(cfg.table[i], m, data)
            || Continued(cfg, i, m + [data])
  {
    var p := cfg.table[i];
    VerdictSplits(cfg, p, m, data);
    RunLive(cfg, i, m);
    if BreaksOff(p, cfg.bufferLength, m, data) {
      OfferedStartsOver(cfg, i, m, data, rest);
    } else if Swallows(p, m, data) {
      DroppedStartsOver(cfg, i, m, data, rest);
    } else {
      ByteContinues(cfg, i, m, data);
    }
  }

  /** A message that has filled the buffer is given up with the next byte, which is read as a first byte. */
  lemma TooLong(cfg: Config, i: nat, m: seq<byte>, data: byte, rest: seq<byte>)
    requires cfg.Valid() && i < |cfg.table| && |m| == cfg.bufferLength
    requires Live(cfg, cfg.table[i], m) && Claim(cfg.table, m[0]) == i
    ensures StartsOver(cfg, m, [data] + rest)
  {
    RunLive(cfg, i, m);
    OfferedStartsOver(cfg, i, m, data, rest);
  }
}
