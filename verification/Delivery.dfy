/** What reaches the application: genuine frames, all of them, in order, and each of them again when re-fed. */
module Delivery {
  import opened Bytes
  import opened Formats
  import opened Traces
  import opened Stream
  import opened Soundness
  import opened Frames
  import opened Completeness
  import opened Demultiplex

  // ---------------------------------------------------------------------------------------
  // Nothing but genuine frames
  // ---------------------------------------------------------------------------------------

  /** The message was read from position `lo`, and it is a frame of its format with a correct checksum. */
  ghost predicate Genuine(cfg: Config, s: seq<byte>, e: Event, lo: int) {
    && e.Accepted? && e.index < |cfg.table|
    && var p, m := cfg.table[e.index], Body(cfg, e);
    && 0 <= lo && lo + |m| <= |s| && s[lo..lo + |m|] == m
    && Framed(p, cfg.bufferLength, m) && ChecksumOk(p, m) && e.bytes == Output(p, m)
  }

  /**
   Soundness, read declaratively: with no second opinion on bad checksums, whatever the input,
   every message passed on is a frame of its format, checksum included, cut out of the input; and
   the messages do not overlap and come in stream order.
   */
  lemma OnlyGenuineFrames(cfg: Config, s: seq<byte>, k: nat)
    requires cfg.Valid() && cfg.badCrc.None? && k < |Run(cfg, Idle, s).events| && Run(cfg, Idle, s).events[k].Accepted?
    ensures |Starts(cfg, s)| == |Run(cfg, Idle, s).events|
    ensures Genuine(cfg, s, Run(cfg, Idle, s).events[k], Starts(cfg, s)[k])
    ensures Starts(cfg, s)[k] + |Body(cfg, Run(cfg, Idle, s).events[k])| <= NextStart(Starts(cfg, s), k, |s|)
  {
    EveryByteAccounted(cfg, s);
    LocatedIsGenuine(cfg, s, Run(cfg, Idle, s), Starts(cfg, s), k);
  }

  lemma LocatedIsGenuine(cfg: Config, s: seq<byte>, r: Step, starts: seq<int>, k: nat)
    requires cfg.Valid() && cfg.badCrc.None? && Account(cfg, s, r, starts) && k < |r.events| && r.events[k].Accepted?
    ensures |starts| == |r.events| && Genuine(cfg, s, r.events[k], starts[k])
    ensures starts[k] + |Body(cfg, r.events[k])| <= NextStart(starts, k, |s|)
  {
    var lo := Start(r.state, |s|);
    assert Located(cfg, s, r.events[k], starts[k], NextStart(starts, k, lo));
    JustifiedIsGenuine(cfg, s, r.events[k], starts[k], NextStart(starts, k, lo));
  }

  lemma JustifiedIsGenuine(cfg: Config, s: seq<byte>, e: Event, lo: int, limit: int)
    requires cfg.Valid() && cfg.badCrc.None? && e.Accepted? && Located(cfg, s, e, lo, limit)
    ensures Genuine(cfg, s, e, lo)
  {
    assert Justified(cfg, e);
    CompleteIsFramed(cfg, cfg.table[e.index], Body(cfg, e));
  }

  // ---------------------------------------------------------------------------------------
  // Re-feeding
  // ---------------------------------------------------------------------------------------

  lemma NoPreambleIsLineFeed(cfg: Config)
    ensures Claim(cfg.table, LF) == |cfg.table|
  {
  }

  lemma RefeedSentence(cfg: Config, i: nat, m: seq<byte>)
    requires cfg.Valid() && i < |cfg.table| && IsSentence(cfg.table[i]) && 1 <= |m| < cfg.bufferLength
    requires Claim(cfg.table, m[0]) == i && Framed(cfg.table[i], cfg.bufferLength, m)
    ensures Run(cfg, Idle, m + CRLF) == Outcome(Idle, [Decide(cfg, i, m)])
  {
    if cfg.table[i].MmpNmea? {
      RunItem(cfg, Sentence(i, m, [CR]), [LF]);
      NoPreambleIsLineFeed(cfg);
      RunOne(cfg, Idle, LF);
      assert (m + [CR]) + [LF] == m + CRLF;
    } else {
      RunItem(cfg, Sentence(i, m, CRLF), []);
      assert (m + CRLF) + [] == m + CRLF && Run(cfg, Idle, []) == Outcome(Idle, []);
    }
  }

  lemma RefeedJustified(cfg: Config, e: Event)
    requires cfg.Valid() && e.Accepted? && Justified(cfg, e)
    ensures Run(cfg, Idle, e.bytes) == Outcome(Idle, [e])
  {
    var p, m := cfg.table[e.index], Body(cfg, e);
    CompleteIsFramed(cfg, p, m);
    if IsSentence(p) {
      RefeedSentence(cfg, e.index, m);
    } else {
      RunFrame(cfg, e.index, m);
    }
  }

  /** Whatever was passed on, fed to an idle parser, is passed on again, unchanged and alone. */
  lemma Refeed(cfg: Config, s: seq<byte>, k: nat)
    requires cfg.Valid() && k < |Run(cfg, Idle, s).events| && Run(cfg, Idle, s).events[k].Accepted?
    ensures var e := Run(cfg, Idle, s).events[k]; Run(cfg, Idle, e.bytes) == Outcome(Idle, [e])
  {
    EveryByteAccounted(cfg, s);
    AccountJustifies(cfg, s, Run(cfg, Idle, s), Starts(cfg, s), k);
    RefeedJustified(cfg, Run(cfg, Idle, s).events[k]);
  }

  lemma AccountJustifies(cfg: Config, s: seq<byte>, r: Step, starts: seq<int>, k: nat)
    requires Account(cfg, s, r, starts) && k < |r.events|
    ensures Justified(cfg, r.events[k])
  {
    assert Located(cfg, s, r.events[k], starts[k], NextStart(starts, k, Start(r.state, |s|)));
  }

  /** Every decision names an entry of the table. */
  lemma DecisionsInTable(cfg: Config, s: seq<byte>)
    requires cfg.Valid()
    ensures forall e | e in Run(cfg, Idle, s).events :: e.index < |cfg.table|
  {
    var r := Run(cfg, Idle, s);
    EveryByteAccounted(cfg, s);
    forall e | e in r.events ensures e.index < |cfg.table| {
      var k :| 0 <= k < |r.events| && r.events[k] == e;
      AccountJustifies(cfg, s, r, Starts(cfg, s), k);
    }
  }

  // ---------------------------------------------------------------------------------------
  // All of them, in order
  // ---------------------------------------------------------------------------------------

  predicate AllPass(cfg: Config, items: seq<Item>) {
    forall item | item in items && !item.Noise? ::
      item.index < |cfg.table| && Passes(cfg, cfg.table[item.index], item.bytes)
  }

  /** The messages that the items carry, under their table indices. */
  function Deliveries(cfg: Config, items: seq<Item>): seq<Event>
    requires forall item | item in items && !item.Noise? :: item.index < |cfg.table|
  {
    if items == [] then []
    else (if items[0].Noise? then [] else [Accepted(items[0].index, Output(cfg.table[items[0].index], items[0].bytes))])
         + Deliveries(cfg, items[1..])
  }

  lemma {:induction false} DecisionsAreDeliveries(cfg: Config, items: seq<Item>)
    requires AllPass(cfg, items)
    ensures Decisions(cfg, items) == Deliveries(cfg, items)
    decreases |items|
  {
    if items != [] {
      DecisionsAreDeliveries(cfg, items[1..]);
    }
  }

  /** When every checksum is right, the application receives exactly the messages of the stream, in order. */
  lemma AllDelivered(cfg: Config, items: seq<Item>)
    requires cfg.Valid() && AllWellFormed(cfg, items) && AllPass(cfg, items)
    ensures Run(cfg, Idle, Wire(items)) == Outcome(Idle, Deliveries(cfg, items))
  {
    Demultiplexes(cfg, items);
    DecisionsAreDeliveries(cfg, items);
  }

  // ---------------------------------------------------------------------------------------
  // Line terminators
  // ---------------------------------------------------------------------------------------

  /**
   A valid sentence gives the same output, once, whether CR LF, LF CR, a lone CR, a lone LF or
   nothing ends it; and the byte after a cut-off terminator is read as if the parser were idle.
   */
  lemma TerminatorNormalised(cfg: Config, i: nat, m: seq<byte>, term: seq<byte>, rest: seq<byte>)
    requires cfg.Valid() && WellFormed(cfg, Sentence(i, m, term), rest) && Passes(cfg, cfg.table[i], m)
    ensures Run(cfg, Idle, m + term + rest).events == [Accepted(i, m + CRLF)] + Run(cfg, Idle, rest).events
    ensures Run(cfg, Idle, m + term + rest).state == Run(cfg, Idle, rest).state
  {
    RunItem(cfg, Sentence(i, m, term), rest);
  }

  /** The five endings, for NMEA and Unicore hash sentences and any byte that does not belong to the terminator. */
  lemma FiveEndings(cfg: Config, i: nat, m: seq<byte>, term: seq<byte>, next: byte)
    requires i < |cfg.table| && cfg.table[i] in {Nmea, UnicoreHash} && next != CR && next != LF
    requires term in [[CR, LF], [LF, CR], [CR], [LF], []]
    ensures Closed(cfg.table[i], term) || CutOff(cfg.table[i], term, next)
  {
  }
}
