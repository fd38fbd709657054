/** Streams that interleave messages of several protocols with noise are taken apart exactly. */
module Demultiplex {
  import opened Bytes
  import opened Formats
  import opened Traces
  import opened Stream
  import opened Frames
  import opened Completeness

  // ---------------------------------------------------------------------------------------
  // Line terminators
  // ---------------------------------------------------------------------------------------

  /** The terminator is finished: the sentence is decided and the parser is idle. */
  predicate Closed(p: Routine, term: seq<byte>) {
    if p.MmpNmea? then term == [CR] || term == [LF] else term == [CR, LF] || term == [LF, CR]
  }

  /** The terminator is missing, or half of it is, and the byte that follows cannot finish it. */
  predicate CutOff(p: Routine, term: seq<byte>, next: byte) {
    || (term == [] && next != CR && next != LF)
    || (!p.MmpNmea? && term == [CR] && next != LF)
    || (!p.MmpNmea? && term == [LF] && next != CR)
  }

  function EndingOf(term: seq<byte>): Ending {
    if term == [CR] then SawCr else if term == [LF] then SawLf else NoEnding
  }

  lemma ClosedSentence(cfg: Config, i: nat, m: seq<byte>, term: seq<byte>)
    requires cfg.Valid() && i < |cfg.table| && 1 <= |m| < cfg.bufferLength && Ready(cfg.table[i], m)
    requires Closed(cfg.table[i], term)
    ensures Run(cfg, Busy(i, m, NoEnding), term) == Outcome(Idle, [Decide(cfg, i, m)])
  {
    var st := Busy(i, m, NoEnding);
    RunOne(cfg, st, term[0]);
    if |term| == 1 {
      assert term == [term[0]];
    } else {
      assert term == [term[0]] + [term[1]];
      RunAppend(cfg, st, [term[0]], term[1]);
    }
  }

  lemma OpenSentence(cfg: Config, i: nat, m: seq<byte>, term: seq<byte>, next: byte)
    requires cfg.Valid() && i < |cfg.table| && 1 <= |m| < cfg.bufferLength && Ready(cfg.table[i], m)
    requires CutOff(cfg.table[i], term, next)
    ensures Run(cfg, Busy(i, m, NoEnding), term) == Outcome(Busy(i, m, EndingOf(term)), [])
    ensures Next(cfg, Busy(i, m, EndingOf(term)), next) == Outcome(Offer(cfg, next), [Decide(cfg, i, m)])
  {
    if term != [] {
      RunOne(cfg, Busy(i, m, NoEnding), term[0]);
    }
  }

  /** A state that decides and offers the byte goes on as the idle state does. */
  lemma OfferedRun(cfg: Config, st: State, e: Event, rest: seq<byte>)
    requires cfg.Valid() && rest != [] && Next(cfg, st, rest[0]) == Outcome(Offer(cfg, rest[0]), [e])
    ensures Run(cfg, st, rest) == Outcome(Run(cfg, Idle, rest).state, [e] + Run(cfg, Idle, rest).events)
  {
    FoldMerges(Machine(cfg), st, Idle, [e], rest);
  }

  /** The byte after a cut-off terminator is offered as a preamble, and nothing of it is lost. */
  lemma CutOffSentence(cfg: Config, i: nat, m: seq<byte>, term: seq<byte>, rest: seq<byte>)
    requires cfg.Valid() && i < |cfg.table| && 1 <= |m| < cfg.bufferLength && Ready(cfg.table[i], m)
    requires rest != [] && CutOff(cfg.table[i], term, rest[0])
    ensures Run(cfg, Busy(i, m, NoEnding), term + rest)
            == Outcome(Run(cfg, Idle, rest).state, [Decide(cfg, i, m)] + Run(cfg, Idle, rest).events)
  {
    var st := Busy(i, m, EndingOf(term));
    OpenSentence(cfg, i, m, term, rest[0]);
    RunConcat(cfg, Busy(i, m, NoEnding), term, rest);
    OfferedRun(cfg, st, Decide(cfg, i, m), rest);
  }

  // ---------------------------------------------------------------------------------------
  // Items of a stream
  // ---------------------------------------------------------------------------------------

  datatype Item =
    | Noise(bytes: seq<byte>)
    | Message(index: nat, bytes: seq<byte>)
    | Sentence(index: nat, bytes: seq<byte>, term: seq<byte>)

  /** The bytes of an item on the wire. */
  function ItemBytes(item: Item): seq<byte> {
    if item.Sentence? then item.bytes + item.term else item.bytes
  }

  function Wire(items: seq<Item>): seq<byte> {
    if items == [] then [] else ItemBytes(items[0]) + Wire(items[1..])
  }

  /** The decisions that the items call for. */
  function Decisions(cfg: Config, items: seq<Item>): seq<Event>
    requires forall item | item in items && !item.Noise? :: item.index < |cfg.table|
  {
    if items == [] then []
    else (if items[0].Noise? then [] else [Decide(cfg, items[0].index, items[0].bytes)]) + Decisions(cfg, items[1..])
  }

  /** Noise holds no preamble; a frame fits the buffer and its preamble belongs to its own routine. */
  predicate WellFormed(cfg: Config, item: Item, rest: seq<byte>) {
    match item
    case Noise(bytes) => forall b | b in bytes :: Claim(cfg.table, b) == |cfg.table|
    case Message(i, f) =>
      && i < |cfg.table| && !IsSentence(cfg.table[i])
      && 2 <= |f| <= cfg.bufferLength && Claim(cfg.table, f[0]) == i
      && Framed(cfg.table[i], cfg.bufferLength, f)
    case Sentence(i, m, term) =>
      && i < |cfg.table| && IsSentence(cfg.table[i])
      && 1 <= |m| < cfg.bufferLength && Claim(cfg.table, m[0]) == i
      && Framed(cfg.table[i], cfg.bufferLength, m)
      && (Closed(cfg.table[i], term) || (rest != [] && CutOff(cfg.table[i], term, rest[0])))
  }

  predicate AllWellFormed(cfg: Config, items: seq<Item>) {
    items != [] ==> WellFormed(cfg, items[0], Wire(items[1..])) && AllWellFormed(cfg, items[1..])
  }

  lemma {:induction false} IndicesInTable(cfg: Config, items: seq<Item>)
    requires AllWellFormed(cfg, items)
    ensures forall item | item in items && !item.Noise? :: item.index < |cfg.table|
    decreases |items|
  {
    if items != [] {
      IndicesInTable(cfg, items[1..]);
      forall item | item in items && !item.Noise? ensures item.index < |cfg.table| {
        assert item == items[0] || item in items[1..];
      }
    }
  }

  lemma {:induction false} NoiseIsIgnored(cfg: Config, bytes: seq<byte>)
    requires forall b | b in bytes :: Claim(cfg.table, b) == |cfg.table|
    ensures Run(cfg, Idle, bytes) == Outcome(Idle, [])
    decreases |bytes|
  {
    if bytes != [] {
      var init, data := bytes[..|bytes| - 1], bytes[|bytes| - 1];
      assert bytes == init + [data] && data in bytes;
      NoiseIsIgnored(cfg, init);
      RunAppend(cfg, Idle, init, data);
    }
  }

  /** Once it searches for a preamble, noise keeps the parser idle. */
  lemma NoiseStaysIdle(cfg: Config, st: State, noise: seq<byte>, k: nat)
    requires forall b | b in noise :: Claim(cfg.table, b) == |cfg.table|
    requires k <= |noise| && Searching(cfg, st, noise, k)
    ensures Run(cfg, st, noise).state == Idle
  {
    var head, tail := noise[..k], noise[k..];
    assert noise == head + tail;
    assert k > 0 ==> noise[k - 1] in noise;
    NoiseIsIgnored(cfg, tail);
    RunConcat(cfg, st, head, tail);
  }

  function Prepend(events: seq<Event>, r: Step): Step {
    Outcome(r.state, events + r.events)
  }

  lemma RunThen(cfg: Config, a: seq<byte>, events: seq<Event>, rest: seq<byte>)
    requires Run(cfg, Idle, a) == Outcome(Idle, events)
    ensures Run(cfg, Idle, a + rest) == Prepend(events, Run(cfg, Idle, rest))
  {
    RunConcat(cfg, Idle, a, rest);
  }

  lemma ClosedItem(cfg: Config, i: nat, m: seq<byte>, term: seq<byte>, rest: seq<byte>)
    requires cfg.Valid() && WellFormed(cfg, Sentence(i, m, term), rest) && Closed(cfg.table[i], term)
    ensures Run(cfg, Idle, (m + term) + rest) == Prepend([Decide(cfg, i, m)], Run(cfg, Idle, rest))
  {
    RunSentence(cfg, i, m);
    RunConcat(cfg, Idle, m, term);
    ClosedSentence(cfg, i, m, term);
    RunThen(cfg, m + term, [Decide(cfg, i, m)], rest);
  }

  lemma CutOffItem(cfg: Config, i: nat, m: seq<byte>, term: seq<byte>, rest: seq<byte>)
    requires cfg.Valid() && WellFormed(cfg, Sentence(i, m, term), rest) && !Closed(cfg.table[i], term)
    ensures Run(cfg, Idle, (m + term) + rest) == Prepend([Decide(cfg, i, m)], Run(cfg, Idle, rest))
  {
    RunSentence(cfg, i, m);
    RunConcat(cfg, Idle, m, term + rest);
    assert m + (term + rest) == (m + term) + rest;
    CutOffSentence(cfg, i, m, term, rest);
  }

  lemma RunItem(cfg: Config, item: Item, rest: seq<byte>)
    requires cfg.Valid() && WellFormed(cfg, item, rest)
    ensures Run(cfg, Idle, ItemBytes(item) + rest)
            == Prepend(if item.Noise? then [] else [Decide(cfg, item.index, item.bytes)], Run(cfg, Idle, rest))
  {
    match item
    case Noise(bytes) =>
      NoiseIsIgnored(cfg, bytes);
      RunThen(cfg, bytes, [], rest);
    case Message(i, f) =>
      RunFrame(cfg, i, f);
      RunThen(cfg, f, [Decide(cfg, i, f)], rest);
    case Sentence(i, m, term) =>
      if Closed(cfg.table[i], term) {
        ClosedItem(cfg, i, m, term, rest);
      } else {
        CutOffItem(cfg, i, m, term, rest);
      }
  }

  /**
   The demultiplexing round trip. For every list of frames of any of the protocols in the table,
   with noise anywhere between them, the parser decides on exactly those frames, in order, each
   under its own table index, and is idle at the end.
   */
  lemma {:induction false} Demultiplexes(cfg: Config, items: seq<Item>)
    requires cfg.Valid() && AllWellFormed(cfg, items)
    ensures forall item | item in items && !item.Noise? :: item.index < |cfg.table|
    ensures Run(cfg, Idle, Wire(items)) == Outcome(Idle, Decisions(cfg, items))
    decreases |items|
  {
    IndicesInTable(cfg, items);
    if items == [] {
      assert Run(cfg, Idle, []) == Outcome(Idle, []);
    } else {
      RunItem(cfg, items[0], Wire(items[1..]));
      Demultiplexes(cfg, items[1..]);
    }
  }

  /**
   Resynchronisation: whatever the parser was reading, after a buffer length of noise it is idle,
   and from there on the decisions are exactly those on the frames that follow.
   */
  lemma Resynchronises(cfg: Config, st: State, noise: seq<byte>, items: seq<Item>)
    requires cfg.Valid() && Proper(cfg, st) && |noise| >= cfg.bufferLength
    requires (forall b | b in noise :: Claim(cfg.table, b) == |cfg.table|) && AllWellFormed(cfg, items)
    ensures forall item | item in items && !item.Noise? :: item.index < |cfg.table|
    ensures Run(cfg, st, noise).state == Idle
    ensures Run(cfg, st, noise + Wire(items))
            == Outcome(Idle, Run(cfg, st, noise).events + Decisions(cfg, items))
  {
    Recovers(cfg, st, noise);
    var k: nat :| k <= Patience(cfg, st) && Searching(cfg, st, noise, k);
    NoiseStaysIdle(cfg, st, noise, k);
    Demultiplexes(cfg, items);
    RunConcat(cfg, st, noise, Wire(items));
  }
}
