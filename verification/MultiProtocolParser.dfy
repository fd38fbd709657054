/**
 The multi-protocol parser: a second implementation of SEMP, NMEA and u-blox framing, with
 counters per protocol and a buffer interface that stops at the end of every message.
 */
module MultiProtocolParser {
  import opened Bytes
  import opened Gf2
  import opened Crc
  import opened CrcEngines
  import opened WordBytes
  import opened Formats
  import opened Traces
  import opened Stream
  import opened Tracking
  import opened ParserState
  import opened MmpState
  import opened MessageParser

  // ---------------------------------------------------------------------------------------
  // What the caller is told
  // ---------------------------------------------------------------------------------------

  /** The value that processing a byte returns: whether the parser wants to read on. */
  predicate Reply(cfg: Config, st: State, data: byte) {
    var claimed := Claim(cfg.table, data) < |cfg.table|;
    if st.Idle? || !Proper(cfg, st) || |st.msg| >= cfg.bufferLength then claimed
    else if Ready(cfg.table[st.index], st.msg) then data == CR || data == LF || claimed
    else match Verdicts(cfg.table[st.index], cfg.bufferLength, st.msg + [data])
      case Partial => true
      case Broken => claimed
      case _ => false
  }

  /** The reply to the byte, unfolded only where it is used. */
  ghost predicate Replies(cfg: Config, st: State, data: byte, more: bool) {
    forall d | d == data :: more == Reply(cfg, st, d)
  }

  /** The reply to byte `k` of a stretch that is read from the given state. */
  ghost predicate RepliesAt(cfg: Config, st: State, s: seq<byte>, k: nat, more: bool)
    requires k < |s|
  {
    forall t | t == s[..k] :: Replies(cfg, Run(cfg, st, t).state, s[k], more)
  }

  lemma RepliesAfter(cfg: Config, st: State, s: seq<byte>, k: nat, mid: State, events: seq<Event>, more: bool)
    requires k < |s| && Runs(cfg, st, s[..k], mid, events) && Replies(cfg, mid, s[k], more)
    ensures RepliesAt(cfg, st, s, k, more)
  {
    assert Run(cfg, st, s[..k]) == Outcome(mid, events);
  }

  /** `n` is the number of bytes up to and including the first one with a negative reply, or all of them. */
  ghost predicate StopsAt(cfg: Config, st: State, s: seq<byte>, n: nat) {
    && n <= |s| && (s != [] ==> n > 0)
    && (forall k | 0 <= k < n - 1 :: RepliesAt(cfg, st, s, k, true))
    && (0 < n < |s| ==> RepliesAt(cfg, st, s, n - 1, false))
  }

  /** The first `n` bytes all had a positive reply. */
  ghost predicate AllReplied(cfg: Config, st: State, s: seq<byte>, n: nat) {
    n <= |s| && forall k | 0 <= k < n :: RepliesAt(cfg, st, s, k, true)
  }

  lemma StopsHere(cfg: Config, st: State, s: seq<byte>, n: nat, more: bool)
    requires AllReplied(cfg, st, s, n) && n < |s| && RepliesAt(cfg, st, s, n, more)
    ensures if more then AllReplied(cfg, st, s, n + 1) else StopsAt(cfg, st, s, n + 1)
  {
  }

  lemma StopsAtTheEnd(cfg: Config, st: State, s: seq<byte>)
    requires AllReplied(cfg, st, s, |s|)
    ensures StopsAt(cfg, st, s, |s|)
  {
  }

  const WORD := 0x1_0000_0000
  const MINIMUM_BUFFER_LENGTH: nat := 256
  /** The largest 16-bit length. */
  const MAXIMUM_LENGTH: nat := 65535

  /** How many messages of a protocol were passed to the application. */
  function Passed(events: seq<Event>, p: nat): nat {
    if events == [] then 0
    else Passed(events[..|events| - 1], p)
         + (if events[|events| - 1].Accepted? && events[|events| - 1].index == p then 1 else 0)
  }

  /** How many messages of a protocol had a bad checksum. */
  function Bad(events: seq<Event>, p: nat): nat {
    if events == [] then 0
    else Bad(events[..|events| - 1], p)
         + (if events[|events| - 1].Rejected? && events[|events| - 1].index == p then 1 else 0)
  }

  /** The 32-bit counters agree with the decisions. */
  predicate Counted(processed: seq<nat>, errors: seq<nat>, events: seq<Event>) {
    && |processed| == 8 && |errors| == 8
    && (forall p | 0 <= p < 8 :: processed[p] == Passed(events, p) % WORD)
    && (forall p | 0 <= p < 8 :: errors[p] == Bad(events, p) % WORD)
  }

  /** The same, stated so that it is unfolded only where a counter changes. */
  predicate Tallied(processed: seq<nat>, errors: seq<nat>, events: seq<Event>) {
    forall e | e == events :: Counted(processed, errors, e)
  }

  lemma WordSum(a: nat, b: nat)
    ensures (a % WORD + b) % WORD == (a + b) % WORD
  {
  }

  lemma PassedAppend(events: seq<Event>, e: Event, p: nat)
    ensures Passed(events + [e], p) == Passed(events, p) + (if e.Accepted? && e.index == p then 1 else 0)
    ensures Bad(events + [e], p) == Bad(events, p) + (if e.Rejected? && e.index == p then 1 else 0)
  {
    assert (events + [e])[..|events|] == events;
  }

  /** Counting one decision increments one counter. */
  lemma CountedAccepted(processed: seq<nat>, errors: seq<nat>, events: seq<Event>, p: nat, m: seq<byte>)
    requires Tallied(processed, errors, events) && p < 8
    ensures |processed| == 8 && Tallied(processed[p := (processed[p] + 1) % WORD], errors, events + [Accepted(p, m)])
  {
    assert Counted(processed, errors, events);
    var after, more := processed[p := (processed[p] + 1) % WORD], events + [Accepted(p, m)];
    forall q | 0 <= q < 8 ensures after[q] == Passed(more, q) % WORD && errors[q] == Bad(more, q) % WORD {
      PassedAppend(events, Accepted(p, m), q);
      WordSum(Passed(events, q), 1);
    }
  }

  lemma CountedRejected(processed: seq<nat>, errors: seq<nat>, events: seq<Event>, p: nat, m: seq<byte>)
    requires Tallied(processed, errors, events) && p < 8
    ensures |errors| == 8 && Tallied(processed, errors[p := (errors[p] + 1) % WORD], events + [Rejected(p, m)])
  {
    assert Counted(processed, errors, events);
    var after, more := errors[p := (errors[p] + 1) % WORD], events + [Rejected(p, m)];
    forall q | 0 <= q < 8 ensures processed[q] == Passed(more, q) % WORD && after[q] == Bad(more, q) % WORD {
      PassedAppend(events, Rejected(p, m), q);
      WordSum(Bad(events, q), 1);
    }
  }

  /** How the counters move when some decisions are made. */
  predicate CountersAdvance(processed: seq<nat>, errors: seq<nat>, processed': seq<nat>, errors': seq<nat>,
                            events: seq<Event>)
  {
    && |processed| == |processed'| == |errors| == |errors'| == 8
    && (forall p | 0 <= p < 8 :: processed'[p] == (processed[p] + Passed(events, p)) % WORD)
    && (forall p | 0 <= p < 8 :: errors'[p] == (errors[p] + Bad(events, p)) % WORD)
  }

  /** The same, stated so that it is unfolded only where the counters are compared. */
  predicate CountersMove(processed: seq<nat>, errors: seq<nat>, processed': seq<nat>, errors': seq<nat>,
                         events: seq<Event>)
  {
    forall e | e == events :: CountersAdvance(processed, errors, processed', errors', e)
  }

  lemma {:induction false} PassedConcat(a: seq<Event>, b: seq<Event>, p: nat)
    ensures Passed(a + b, p) == Passed(a, p) + Passed(b, p) && Bad(a + b, p) == Bad(a, p) + Bad(b, p)
    decreases |b|
  {
    if b == [] {
      assert a + b == a;
    } else {
      assert (a + b)[..|a + b| - 1] == a + b[..|b| - 1];
      PassedConcat(a, b[..|b| - 1], p);
    }
  }

  /** Counters that agree with the log before and after move by the decisions in between. */
  lemma TallyMoves(processed: seq<nat>, errors: seq<nat>, processed': seq<nat>, errors': seq<nat>,
                   before: seq<Event>, events: seq<Event>)
    requires Tallied(processed, errors, before) && Tallied(processed', errors', before + events)
    ensures CountersMove(processed, errors, processed', errors', events)
  {
    assert Counted(processed, errors, before) && Counted(processed', errors', before + events);
    forall p | 0 <= p < 8
      ensures processed'[p] == (processed[p] + Passed(events, p)) % WORD
      ensures errors'[p] == (errors[p] + Bad(events, p)) % WORD
    {
      PassedConcat(before, events, p);
      WordSum(Passed(before, p), Passed(events, p));
      WordSum(Bad(before, p), Bad(events, p));
    }
  }

  /** The decisions determine how the counters move. */
  lemma SameCounters(processed: seq<nat>, errors: seq<nat>, processed1: seq<nat>, errors1: seq<nat>,
                     processed2: seq<nat>, errors2: seq<nat>, events: seq<Event>)
    requires CountersMove(processed, errors, processed1, errors1, events)
    requires CountersMove(processed, errors, processed2, errors2, events)
    ensures processed1 == processed2 && errors1 == errors2
  {
    assert CountersAdvance(processed, errors, processed1, errors1, events);
    assert CountersAdvance(processed, errors, processed2, errors2, events);
  }

  /** The decisions on the first `n` protocols. */
  function Total(events: seq<Event>, n: nat): nat {
    if n == 0 then 0 else Total(events, n - 1) + Passed(events, n - 1) + Bad(events, n - 1)
  }

  lemma {:induction false} TotalAppend(events: seq<Event>, e: Event, n: nat)
    ensures Total(events + [e], n) == Total(events, n) + if e.index < n then 1 else 0
    decreases n
  {
    assert (events + [e])[..|events|] == events;
    if n > 0 {
      TotalAppend(events, e, n - 1);
    }
  }

  lemma {:induction false} EveryDecisionCounted(events: seq<Event>, n: nat)
    requires forall e | e in events :: e.index < n
    ensures Total(events, n) == |events|
    decreases |events|
  {
    if events == [] {
      NothingCounted(n);
    } else {
      var init, e := events[..|events| - 1], events[|events| - 1];
      EveryDecisionCounted(init, n);
      TotalAppend(init, e, n);
      assert init + [e] == events;
    }
  }

  lemma {:induction false} NothingCounted(n: nat)
    ensures Total([], n) == 0
  {
    if n > 0 {
      NothingCounted(n - 1);
    }
  }

  /** The sum of the counters of the first `n` protocols. */
  function CounterSum(processed: seq<nat>, errors: seq<nat>, n: nat): nat
    requires n <= |processed| && n <= |errors|
  {
    if n == 0 then 0 else CounterSum(processed, errors, n - 1) + processed[n - 1] + errors[n - 1]
  }

  lemma ThreeWords(a: nat, x: nat, b: nat, c: nat)
    requires a % WORD == x % WORD
    ensures (a + b % WORD + c % WORD) % WORD == (x + b + c) % WORD
  {
    WordSum(a, b % WORD + c % WORD);
    WordSum(x, b + c);
    WordSum(b, x % WORD + c % WORD);
    WordSum(c, x % WORD + b);
  }

  lemma {:induction false} CounterSumIsTotal(processed: seq<nat>, errors: seq<nat>, events: seq<Event>, n: nat)
    requires Counted(processed, errors, events) && n <= 8
    ensures CounterSum(processed, errors, n) % WORD == Total(events, n) % WORD
  {
    if n > 0 {
      CounterSumIsTotal(processed, errors, events, n - 1);
      ThreeWords(CounterSum(processed, errors, n - 1), Total(events, n - 1), Passed(events, n - 1), Bad(events, n - 1));
    }
  }

  /** All sixteen counters together count the decisions, modulo the word size. */
  lemma CountersAddUp(processed: seq<nat>, errors: seq<nat>, events: seq<Event>)
    requires Tallied(processed, errors, events) && forall e | e in events :: e.index < 8
    ensures Counted(processed, errors, events)
    ensures CounterSum(processed, errors, 8) % WORD == |events| % WORD
  {
    assert Counted(processed, errors, events);
    CounterSumIsTotal(processed, errors, events, 8);
    EveryDecisionCounted(events, 8);
  }

  lemma XorMasked(crc: bv32, masked: bv32, s: seq<byte>)
    requires XorHolds(crc, s) && masked == crc & 0xFF
    ensures masked == crc
  {
    assert crc == XorAll(s) as bv32;
  }

  /** Compares the checksum characters with the low byte of the running exclusive or. */
  method LowByteEquals(crc: bv32, ghost m: seq<byte>, checksum: int) returns (same: bool)
    requires |m| >= 3 && 1 <= Find(m, STAR) && XorHolds(crc, m[1..Find(m, STAR)])
    requires checksum == 16 * AsciiToNibble(m[|m| - 2]) + AsciiToNibble(m[|m| - 1])
    ensures same == XorOk(m)
  {
    XorMatches(crc, m);
    XorMasked(crc, crc & 0xFF, m[1..Find(m, STAR)]);
    same := checksum == (crc & 0xFF) as int;
  }

  /** Closing an accepted sentence writes behind the buffer. */
  predicate Spills(cfg: Config, p: Routine, m: seq<byte>) {
    p.MmpNmea? && Passes(cfg, p, m) && |m| + 3 > cfg.bufferLength
  }

  predicate SpillsOn(cfg: Config, st: State, data: byte) {
    && st.Busy? && Proper(cfg, st) && |st.msg| < cfg.bufferLength && Ready(cfg.table[st.index], st.msg)
    && Spills(cfg, cfg.table[st.index], st.msg)
  }

  /** Reading the byte writes behind the buffer exactly when it passes on a sentence without room for its NUL. */
  lemma SpillsOnIsSpill(cfg: Config, st: State, data: byte)
    requires cfg.Valid() && cfg.table == MMP_TABLE && Proper(cfg, st)
    ensures SpillsOn(cfg, st, data) <==> SomeSpilled(cfg, Next(cfg, st, data).events)
  {
    if st.Busy? && |st.msg| < cfg.bufferLength {
      if Ready(cfg.table[st.index], st.msg) {
        var e := Decide(cfg, st.index, st.msg);
        assert NextEnding(cfg, st, data).events == [e];
        assert e in NextEnding(cfg, st, data).events;
      } else {
        InsideSpillsNothing(cfg, st.index, st.msg, data);
      }
    }
  }

  /** The decision on a message that is passed on as it is; unfolded only where it is used. */
  ghost predicate Decided(cfg: Config, i: nat, m: seq<byte>, ok: bool) {
    forall j: nat | j == i :: j < |cfg.table| && Decide(cfg, j, m) == if ok then Accepted(j, m) else Rejected(j, m)
  }

  /** SEMP and u-blox decide by the checksum alone. */
  lemma ExplicitDecision(cfg: Config, i: nat, m: seq<byte>, ok: bool)
    requires i < |cfg.table| && cfg.table[i] in {MmpSemp, MmpUblox} && ok == ChecksumOk(cfg.table[i], m)
    ensures Decided(cfg, i, m, ok)
  {
  }

  lemma SempDecision(cfg: Config, i: nat, m: seq<byte>, trailer: seq<byte>, crc: bv32, ok: bool)
    requires i < |cfg.table| && cfg.table[i] == MmpSemp && |m| >= 4 && trailer == m[|m| - 4..]
    requires StoredCrc(crc, m[..|m| - 4]) && ok == (Bits32(crc) == MessageBits(LsbFirst, trailer))
    ensures Decided(cfg, i, m, ok)
  {
    assert ok == SempOk(m);
    ExplicitDecision(cfg, i, m, ok);
  }

  lemma UbloxDecision(cfg: Config, i: nat, m: seq<byte>, ok: bool)
    requires i < |cfg.table| && cfg.table[i] == MmpUblox && |m| >= 8 && ok == UbloxOk(m)
    ensures Decided(cfg, i, m, ok)
  {
    ExplicitDecision(cfg, i, m, ok);
  }

  lemma SentenceChecked(cfg: Config, i: nat, m: seq<byte>, ok: bool)
    requires i < |cfg.table| && cfg.table[i] == MmpNmea && ok == ChecksumOk(cfg.table[i], m)
    ensures Passes(cfg, MmpNmea, m) == (ok || (cfg.badCrc.Some? && !cfg.badCrc.value(m)))
    ensures Decide(cfg, i, m) == if Passes(cfg, MmpNmea, m) then Accepted(i, m + CRLF) else Rejected(i, m)
  {
  }

  /** Some protocol claims the byte as its preamble; unfolded only where the claim is mentioned. */
  predicate Claimed(data: byte) {
    forall d | d == data :: Claim(MMP_TABLE, d) < |MMP_TABLE|
  }

  class MmpParser {
    const bufferLength: nat
    const badCrc: Option<seq<byte> -> bool>
    /** One cell longer than the buffer, to show what is written behind it. */
    const buffer: array<byte>
    var phase: MmpPhase
    var computing: bool
    var crc: bv32
    var length: nat
    var protocol: nat
    var scratch: MmpScratch
    var lengthBytes: nat
    var messagesProcessed: seq<nat>
    var crcErrors: seq<nat>
    ghost var log: seq<Event>
    ghost var overrun: bool
    /** The decisions before this one are no longer counted. */
    ghost var statsFrom: nat

    /** Starts the parser on a buffer of at least the minimum length. */
    constructor (size: nat, callback: Option<seq<byte> -> bool>)
      requires 256 <= size <= 65535
      ensures Valid() && State() == Idle && log == [] && !overrun && statsFrom == 0 && fresh(buffer)
      ensures Cfg() == Config(MMP_TABLE, size, callback)
    {
      bufferLength := size;
      badCrc := callback;
      buffer := new byte[size + 1];
      phase := Searching;
      computing := false;
      crc := 0;
      length := 0;
      protocol := 8;
      scratch := SempData(0, 0);
      lengthBytes := 0;
      messagesProcessed := seq(8, _ => 0);
      crcErrors := seq(8, _ => 0);
      log := [];
      overrun := false;
      statsFrom := 0;
    }

    ghost function Cfg(): Config {
      Config(MMP_TABLE, bufferLength, badCrc)
    }

    /** What holds in every state: the configuration and the counters. */
    ghost predicate Base()
      reads this
    {
      && Cfg().Valid() && buffer.Length == bufferLength + 1
      && statsFrom <= |log| && Tallied(messagesProcessed, crcErrors, log[statsFrom..])
    }

    ghost function Now(): MmpFields
      reads this
    {
      MmpFields(phase, computing, crc, scratch, lengthBytes)
    }

    ghost predicate Valid()
      reads this, buffer
    {
      && Base() && length <= buffer.Length
      && (if phase == Searching then lengthBytes == 0
          else 1 <= length <= bufferLength && protocol < |MMP_TABLE|
               && MmpFollows(MMP_TABLE[protocol], bufferLength, Now(), buffer[..length]))
    }

    ghost function State(): State
      requires length <= buffer.Length
      reads this, buffer
    {
      if phase == Searching then Idle else Busy(protocol, buffer[..length], NoEnding)
    }

    ghost predicate Offered(data: byte)
      reads this, buffer
    {
      && Base() && length == 1 && buffer[0] == data
      && forall d | d == data ::
           if Claim(MMP_TABLE, d) == |MMP_TABLE| then phase == Searching && lengthBytes == 0
           else protocol == Claim(MMP_TABLE, d) && MmpBegun(MMP_TABLE[protocol], Now(), d)
    }

    lemma OfferedIsOffer(data: byte)
      requires Offered(data)
      ensures Valid() && State() == Offer(Cfg(), data)
    {
      assert buffer[..1] == [data];
      if Claim(MMP_TABLE, data) < |MMP_TABLE| {
        MmpBegunTracks(MMP_TABLE[protocol], bufferLength, Now(), data);
      }
    }

    ghost predicate Stored(p: Routine, m: seq<byte>, data: byte)
      reads this, buffer
    {
      && Base() && 1 <= |m| && length == |m| + 1 <= bufferLength
      && buffer[..length] == m + [data] && protocol < |MMP_TABLE| && MMP_TABLE[protocol] == p
    }

    /** What a verdict on the message `m`, which ends in `data`, leaves behind. */
    ghost predicate Result(v: Verdict, tracks: bool, index: nat, m: seq<byte>, data: byte, before: seq<Event>,
                           over: bool, more: bool)
      reads this, buffer
    {
      && Base() && length <= buffer.Length && index < |MMP_TABLE| && overrun == over
      && match v
         case Partial => tracks && phase != Searching && protocol == index
                         && length == |m| && buffer[..length] == m && log == before && more
         case Whole => Idled() && Logged(log, before, Cfg(), index, m) && !more
         case Failed => Idled() && log == before + [Rejected(index, m)] && !more
         case Broken => Offered(data) && log == before && more == Claimed(data)
         case Dropped => Idled() && log == before && !more
    }

    // The same for each machine, with its own verdict and fields.

    ghost predicate SempResult(n: seq<byte>, data: byte, index: nat, before: seq<Event>, over: bool, more: bool)
      requires |n| >= 2
      reads this, buffer
    {
      Result(MmpSempVerdict(n), SempTracks(Now(), n), index, n, data, before, over, more)
    }

    ghost predicate NmeaResult(n: seq<byte>, data: byte, index: nat, before: seq<Event>, over: bool, more: bool)
      requires |n| >= 2
      reads this, buffer
    {
      Result(SentenceVerdict(MmpNmea, bufferLength, n), NmeaFollows(Now(), bufferLength, n), index, n, data, before,
             over, more)
    }

    ghost predicate UbloxResult(n: seq<byte>, data: byte, index: nat, before: seq<Event>, over: bool, more: bool)
      requires |n| >= 2
      reads this, buffer
    {
      Result(MmpUbloxVerdict(n), UbloxFollows(Now(), n), index, n, data, before, over, more)
    }

    ghost predicate Idled()
      reads this
    {
      phase == Searching && lengthBytes == 0
    }

    lemma KeptResult(m: seq<byte>, data: byte)
      requires Base() && protocol < |MMP_TABLE| && length <= bufferLength && buffer[..length] == m && phase != Searching
      ensures Result(Partial, true, protocol, m, data, log, overrun, true)
    {
    }

    /** A verdict acts as the stream specification says. */
    lemma ResultIsNext(index: nat, m: seq<byte>, data: byte, before: seq<Event>, over: bool, more: bool)
      requires Base() && index < |MMP_TABLE| && 1 <= |m| < bufferLength
      requires Result(Verdicts(MMP_TABLE[index], bufferLength, m + [data]),
                      MmpTracks(MMP_TABLE[index], bufferLength, Now(), m + [data]),
                      index, m + [data], data, before, over, more)
      ensures Valid() && State() == NextByte(Cfg(), index, m, data).state
      ensures log == before + NextByte(Cfg(), index, m, data).events && overrun == over
    {
      if Verdicts(MMP_TABLE[index], bufferLength, m + [data]).Broken? {
        OfferedIsOffer(data);
      }
    }

    /** A message is passed to the application and counted. */
    method Accept(p: nat)
      requires Base() && p < 8 && length <= buffer.Length
      modifies this`messagesProcessed, this`log
      ensures Base() && log == old(log) + [Accepted(p, buffer[..length])]
    {
      CountedAccepted(messagesProcessed, crcErrors, log[statsFrom..], p, buffer[..length]);
      assert (log + [Accepted(p, buffer[..length])])[statsFrom..] == log[statsFrom..] + [Accepted(p, buffer[..length])];
      messagesProcessed := messagesProcessed[p := (messagesProcessed[p] + 1) % WORD];
      log := log + [Accepted(p, buffer[..length])];
    }

    /** A bad checksum is counted. */
    method Reject(p: nat)
      requires Base() && p < 8 && length <= buffer.Length
      modifies this`crcErrors, this`log
      ensures Base() && log == old(log) + [Rejected(p, buffer[..length])]
    {
      CountedRejected(messagesProcessed, crcErrors, log[statsFrom..], p, buffer[..length]);
      assert (log + [Rejected(p, buffer[..length])])[statsFrom..] == log[statsFrom..] + [Rejected(p, buffer[..length])];
      crcErrors := crcErrors[p := (crcErrors[p] + 1) % WORD];
      log := log + [Rejected(p, buffer[..length])];
    }

    /** A message without line terminator is passed on or counted as an error. */
    method Conclude(p: nat, ghost m: seq<byte>, same: bool)
      requires Base() && p < 8 && length == |m| <= buffer.Length && buffer[..length] == m && Decided(Cfg(), p, m, same)
      modifies this`phase, this`messagesProcessed, this`crcErrors, this`log
      ensures Base() && phase == Searching && Logged(log, old(log), Cfg(), p, m)
    {
      if same {
        Accept(p);
      } else {
        Reject(p);
      }
      phase := Searching;
    }

    // -------------------------------------------------------------------------------------
    // The driver
    // -------------------------------------------------------------------------------------

    method FirstByte(data: byte) returns (found: bool)
      requires Base() && lengthBytes == 0
      modifies this`phase, this`computing, this`crc, this`length, this`protocol, this`scratch, buffer
      ensures Offered(data) && found == Claimed(data)
    {
      crc := 0;
      computing := false;
      length := 0;
      protocol := 8;
      buffer[length] := data;
      length := length + 1;
      var index := 0;
      while index < |MMP_TABLE|
        invariant index <= |MMP_TABLE| && length == 1 && buffer[0] == data && Base()
        invariant crc == 0 && !computing && forall j | 0 <= j < index :: !Preamble(MMP_TABLE[j], data)
      {
        found := PreambleOf(MMP_TABLE[index], data);
        if found {
          protocol := index;
          FirstClaim(MMP_TABLE, data, index);
          return;
        }
        index := index + 1;
      }
      FirstClaim(MMP_TABLE, data, index);
      phase := Searching;
      found := false;
    }

    method PreambleOf(p: Routine, data: byte) returns (found: bool)
      requires p in MMP_TABLE && crc == 0 && !computing && lengthBytes == 0
      modifies this`phase, this`computing, this`crc, this`scratch
      ensures found == Preamble(p, data)
      ensures if found then MmpBegun(p, Now(), data) else crc == 0 && !computing
    {
      if p.MmpSemp? {
        found := SempPreamble(data);
      } else if p.MmpNmea? {
        found := NmeaPreamble(data);
      } else if p.MmpUblox? {
        found := UbloxPreamble(data);
      } else {
        found := RtcmPreamble(data);
      }
    }

    method SempPreamble(data: byte) returns (found: bool)
      requires crc == 0 && !computing && lengthBytes == 0
      modifies this`phase, this`computing, this`crc, this`scratch
      ensures found == Preamble(MmpSemp, data)
      ensures if found then MmpBegun(MmpSemp, Now(), data) else crc == 0 && !computing
    {
      if data != 0xAA {
        return false;
      }
      crc := 0xFFFFFFFF;
      BottomOnes();
      computing := true;
      crc := ComputeCrc32(crc, data);
      ResidueOfOne(POLY32, LsbFirst, Ones(32), data);
      phase := InSemp(BinarySync2);
      return true;
    }

    method NmeaPreamble(data: byte) returns (found: bool)
      requires crc == 0 && !computing && lengthBytes == 0
      modifies this`phase, this`computing, this`crc, this`scratch
      ensures found == Preamble(MmpNmea, data)
      ensures if found then MmpBegun(MmpNmea, Now(), data) else crc == 0 && !computing
    {
      if data != 0x24 {
        return false;
      }
      scratch := NmeaData(seq(16, _ => 0), 0);
      crc := 0;
      computing := false;
      phase := InNmea(FindFirstComma);
      return true;
    }

    method UbloxPreamble(data: byte) returns (found: bool)
      requires crc == 0 && !computing && lengthBytes == 0
      modifies this`phase, this`computing, this`crc, this`scratch
      ensures found == Preamble(MmpUblox, data)
      ensures if found then MmpBegun(MmpUblox, Now(), data) else crc == 0 && !computing
    {
      if data != 0xB5 {
        return false;
      }
      computing := false;
      phase := InUblox(Sync2);
      return true;
    }

    /** RTCM is recognised but not implemented: its preamble is never claimed. */
    method RtcmPreamble(data: byte) returns (found: bool)
      modifies this`phase
      ensures !found && found == Preamble(MmpRtcm, data)
    {
      if data != 0xD3 {
        return false;
      }
      phase := Searching;
      return false;
    }

    // -------------------------------------------------------------------------------------
    // SEMP
    // -------------------------------------------------------------------------------------

    method SempSync2(ghost m: seq<byte>, data: byte) returns (more: bool)
      requires Stored(MmpSemp, m, data) && SempShape(Now(), m) && phase.semp == BinarySync2
      modifies this, buffer
      ensures statsFrom == old(statsFrom)
      ensures Result(MmpSempVerdict(m + [data]),
                     SempShape(Now(), m + [data]) && phase == InSemp(BinarySync3) && crc == old(crc),
                     old(protocol), m + [data], data, old(log), old(overrun), more)
    {
      BinarySync2Step(m, data, if scratch.SempData? then scratch.remaining else 0, 0x18, 20, MmpSempSize(m),
                      MmpSempSize(m + [data]));
      if data != 0x44 {
        more := FirstByte(data);
        return;
      }
      phase := InSemp(BinarySync3);
      more := true;
    }

    method SempSync3(ghost m: seq<byte>, data: byte) returns (more: bool)
      requires Stored(MmpSemp, m, data) && SempShape(Now(), m) && phase.semp == BinarySync3
      modifies this, buffer
      ensures statsFrom == old(statsFrom)
      ensures Result(MmpSempVerdict(m + [data]),
                     SempShape(Now(), m + [data]) && phase == InSemp(BinaryReadHeader) && crc == old(crc),
                     old(protocol), m + [data], data, old(log), old(overrun), more)
    {
      BinarySync3Step(m, data, if scratch.SempData? then scratch.remaining else 0, 0x18, 20, MmpSempSize(m),
                      MmpSempSize(m + [data]));
      if data != 0x18 {
        more := FirstByte(data);
        return;
      }
      phase := InSemp(BinaryReadHeader);
      more := true;
    }

    method SempReadHeader(ghost m: seq<byte>, data: byte) returns (more: bool)
      requires Stored(MmpSemp, m, data) && SempShape(Now(), m) && phase.semp == BinaryReadHeader
      modifies this`phase, this`scratch, this`crc
      ensures if |m| + 1 == 20 && (m + [data])[3] != 0x14 then MmpSempVerdict(m + [data]) == Dropped && Idled() && !more
              else MmpSempVerdict(m + [data]) == Partial && SempShape(Now(), m + [data]) && more
      ensures phase == InSemp(BinaryReadCrc)
              ==> MmpSempSize(m + [data]) - 4 == |m| + 1 && scratch.crc == old(crc) ^ 0xFFFFFFFF
      ensures phase != InSemp(BinaryReadCrc) ==> crc == old(crc)
    {
      more := true;
      if length >= 20 {
        ghost var n := m + [data];
        assert buffer[3] == n[3] && buffer[12] == n[12] && buffer[13] == n[13];
        var messageLength := LittleEndian16(buffer[12], buffer[13]);
        SempHeaderEnd(m, data, if scratch.SempData? then scratch.remaining else 0, messageLength);
        if buffer[3] != 0x14 {
          phase := Searching;
          return false;
        }
        if messageLength == 0 {
          crc := crc ^ 0xFFFFFFFF;
          scratch := SempData(crc, 4);
          phase := InSemp(BinaryReadCrc);
        } else {
          scratch := SempData(if scratch.SempData? then scratch.crc else 0, messageLength);
          phase := InSemp(BinaryReadData);
        }
      } else {
        SempHeaderMore(m, data, if scratch.SempData? then scratch.remaining else 0);
      }
    }

    method SempReadData(ghost m: seq<byte>, data: byte) returns (more: bool)
      requires SempShape(Now(), m) && phase.semp == BinaryReadData
      modifies this`phase, this`scratch, this`crc
      ensures MmpSempVerdict(m + [data]) == Partial && SempShape(Now(), m + [data])
              && MmpSempSize(m + [data]) == MmpSempSize(m) && more
      ensures if phase.semp == BinaryReadCrc then MmpSempSize(m) - 4 == |m| + 1 && scratch.crc == old(crc) ^ 0xFFFFFFFF
              else crc == old(crc)
    {
      BinaryDataStep(m, data, scratch.remaining, 0x18, 20, MmpSempSize(m));
      scratch := SempData(scratch.crc, U16(scratch.remaining - 1));
      if scratch.remaining == 0 {
        crc := crc ^ 0xFFFFFFFF;
        scratch := SempData(crc, 4);
        phase := InSemp(BinaryReadCrc);
      }
      more := true;
    }

    method SempDone(ghost m: seq<byte>)
      requires Base() && length == |m| <= buffer.Length && buffer[..length] == m && |m| >= 24
      requires scratch.SempData? && StoredCrc(scratch.crc, m[..|m| - 4])
      modifies this`phase, this`messagesProcessed, this`crcErrors, this`log
      ensures Base() && phase == Searching && Logged(log, old(log), Cfg(), 0, m)
    {
      assert buffer[length - 4..length] == m[|m| - 4..];
      var same := TrailerEquals(scratch.crc, buffer[length - 4..length]);
      SempDecision(Cfg(), 0, m, m[|m| - 4..], scratch.crc, same);
      Conclude(0, m, same);
    }

    method SempReadCrc(ghost m: seq<byte>, data: byte) returns (more: bool)
      requires Stored(MmpSemp, m, data) && SempTracks(Now(), m) && phase.semp == BinaryReadCrc
      modifies this`phase, this`scratch, this`messagesProcessed, this`crcErrors, this`log
      ensures SempResult(m + [data], data, protocol, old(log), overrun, more)
    {
      var remaining := U16(scratch.remaining - 1);
      SempTrailerNext(Now(), m, data, remaining);
      scratch := SempData(scratch.crc, remaining);
      if remaining != 0 {
        return true;
      }
      SempDone(m + [data]);
      more := false;
    }

    /** The CRC routine covers the byte. */
    method ComputeCrc(ghost m: seq<byte>, data: byte)
      requires SempTracks(Now(), m) && phase.semp != BinaryReadCrc
      modifies this`crc
      ensures SempShape(Now(), m) && RunningCrc(crc, m + [data])
    {
      ResidueAppend(POLY32, LsbFirst, Ones(32), m, data);
      crc := ComputeCrc32(crc, data);
    }

    method SempEarly(ghost m: seq<byte>, data: byte) returns (more: bool)
      requires Stored(MmpSemp, m, data) && SempShape(Now(), m) && RunningCrc(crc, m + [data])
      requires phase.semp in {BinarySync2, BinarySync3}
      modifies this, buffer
      ensures statsFrom == old(statsFrom)
      ensures SempResult(m + [data], data, old(protocol), old(log), old(overrun), more)
    {
      if phase.semp == BinarySync2 {
        more := SempSync2(m, data);
      } else {
        more := SempSync3(m, data);
      }
    }

    method SempHeader(ghost m: seq<byte>, data: byte) returns (more: bool)
      requires Stored(MmpSemp, m, data) && SempShape(Now(), m) && RunningCrc(crc, m + [data])
      requires phase.semp == BinaryReadHeader
      modifies this`phase, this`scratch, this`crc
      ensures SempResult(m + [data], data, protocol, log, overrun, more)
    {
      ghost var covered := crc;
      more := SempReadHeader(m, data);
      if more {
        SempStillTracks(Now(), m + [data], covered);
      }
    }

    method SempBody(ghost m: seq<byte>, data: byte) returns (more: bool)
      requires SempShape(Now(), m) && RunningCrc(crc, m + [data]) && phase.semp == BinaryReadData
      modifies this`phase, this`scratch, this`crc
      ensures MmpSempVerdict(m + [data]) == Partial && SempTracks(Now(), m + [data]) && more
    {
      ghost var covered := crc;
      more := SempReadData(m, data);
      SempStillTracks(Now(), m + [data], covered);
    }

    /** The CRC routine also runs over the trailer, where its value is no longer used. */
    method SempTrailer(ghost m: seq<byte>, data: byte) returns (more: bool)
      requires Stored(MmpSemp, m, data) && SempTracks(Now(), m) && phase.semp == BinaryReadCrc
      modifies this`phase, this`scratch, this`crc, this`messagesProcessed, this`crcErrors, this`log
      ensures SempResult(m + [data], data, protocol, old(log), overrun, more)
    {
      crc := ComputeCrc32(crc, data);
      more := SempReadCrc(m, data);
    }

    method SempCovered(ghost m: seq<byte>, data: byte) returns (more: bool)
      requires Stored(MmpSemp, m, data) && SempShape(Now(), m) && RunningCrc(crc, m + [data])
      requires phase.semp != BinaryReadCrc
      modifies this, buffer
      ensures statsFrom == old(statsFrom)
      ensures SempResult(m + [data], data, old(protocol), old(log), old(overrun), more)
    {
      if phase.semp == BinaryReadHeader {
        more := SempHeader(m, data);
      } else if phase.semp == BinaryReadData {
        more := SempBody(m, data);
        KeptResult(m + [data], data);
      } else {
        more := SempEarly(m, data);
      }
    }

    method SempByte(ghost m: seq<byte>, data: byte) returns (more: bool)
      requires Stored(MmpSemp, m, data) && SempTracks(Now(), m)
      modifies this, buffer
      ensures statsFrom == old(statsFrom)
      ensures SempResult(m + [data], data, old(protocol), old(log), old(overrun), more)
    {
      if phase.semp == BinaryReadCrc {
        more := SempTrailer(m, data);
      } else {
        ComputeCrc(m, data);
        more := SempCovered(m, data);
      }
    }

    // -------------------------------------------------------------------------------------
    // NMEA
    // -------------------------------------------------------------------------------------

    /** The comma closes the name. */
    method NmeaComma(ghost m: seq<byte>, value: bv32)
      requires NmeaFollows(Now(), bufferLength, m) && phase.nmea == FindFirstComma && scratch.nameLength != 0
      requires XorHolds(value, (m + [COMMA])[1..])
      modifies this`phase, this`crc, this`scratch
      ensures SentenceVerdict(MmpNmea, bufferLength, m + [COMMA]) == Partial
      ensures NmeaFollows(Now(), bufferLength, m + [COMMA]) && phase != Searching
    {
      var terminated := NmeaData(scratch.name[scratch.nameLength := 0], scratch.nameLength);
      NmeaNameNext(Now(), bufferLength, m, COMMA, value, terminated);
      crc := value;
      scratch := terminated;
      phase := InNmea(FindAsterisk);
    }

    /** One more character of the name. */
    method NmeaNameByte(ghost m: seq<byte>, data: byte, value: bv32) returns (more: bool)
      requires Stored(MmpNmea, m, data) && NmeaFollows(Now(), bufferLength, m) && phase.nmea == FindFirstComma
      requires (data != COMMA || scratch.nameLength == 0) && XorHolds(value, (m + [data])[1..])
      modifies this`phase, this`computing, this`crc, this`length, this`protocol, this`scratch, buffer
      ensures NmeaResult(m + [data], data, old(protocol), log, overrun, more)
    {
      NmeaNameNext(Now(), bufferLength, m, data, value, scratch);
      crc := value;
      if !IsNameChar(data) || scratch.nameLength >= 15 {
        more := FirstByte(data);
        return;
      }
      scratch := NmeaData(scratch.name[scratch.nameLength := data], scratch.nameLength + 1);
      more := true;
    }

    method NmeaFindFirstComma(ghost m: seq<byte>, data: byte) returns (more: bool)
      requires Stored(MmpNmea, m, data) && NmeaFollows(Now(), bufferLength, m) && phase.nmea == FindFirstComma
      modifies this`phase, this`computing, this`crc, this`length, this`protocol, this`scratch, buffer
      ensures NmeaResult(m + [data], data, old(protocol), log, overrun, more)
    {
      var value := XorByte(crc, m, data);
      if data != COMMA || scratch.nameLength == 0 {
        more := NmeaNameByte(m, data, value);
      } else {
        NmeaComma(m, value);
        more := true;
      }
    }

    method NmeaFindAsterisk(ghost m: seq<byte>, data: byte) returns (more: bool)
      requires Stored(MmpNmea, m, data) && NmeaFollows(Now(), bufferLength, m) && phase.nmea == FindAsterisk
      modifies this`phase, this`computing, this`crc, this`length, this`protocol, this`scratch, buffer
      ensures NmeaResult(m + [data], data, old(protocol), log, overrun, more)
    {
      var value := XorByte(crc, m, data);
      NmeaBodyNext(Now(), bufferLength, m, data, value);
      more := true;
      if data == STAR {
        phase := InNmea(ChecksumByte1);
      } else {
        crc := value;
        if length + 5 > bufferLength {
          more := FirstByte(data);
        }
      }
    }

    method NmeaChecksumByte1(ghost m: seq<byte>, data: byte) returns (more: bool)
      requires Stored(MmpNmea, m, data) && NmeaFollows(Now(), bufferLength, m) && phase.nmea == ChecksumByte1
      modifies this`phase, this`computing, this`crc, this`length, this`protocol, this`scratch, buffer
      ensures NmeaResult(m + [data], data, old(protocol), log, overrun, more)
    {
      ChecksumStep(MmpNmea, bufferLength, 0, m, data);
      assert buffer[length - 1] == (m + [data])[|m|];
      if AsciiToNibble(buffer[length - 1]) >= 0 {
        XorAfterStar(crc, m, data);
        phase := InNmea(ChecksumByte2);
        return true;
      }
      more := FirstByte(data);
    }

    method NmeaChecksumByte2(ghost m: seq<byte>, data: byte) returns (more: bool)
      requires Stored(MmpNmea, m, data) && NmeaFollows(Now(), bufferLength, m) && phase.nmea == ChecksumByte2
      modifies this`phase, this`computing, this`crc, this`length, this`protocol, this`scratch, buffer
      ensures NmeaResult(m + [data], data, old(protocol), log, overrun, more)
    {
      ChecksumStep(MmpNmea, bufferLength, 1, m, data);
      assert buffer[length - 1] == (m + [data])[|m|];
      if AsciiToNibble(buffer[length - 1]) >= 0 {
        XorAfterStar(crc, m, data);
        phase := InNmea(LineTermination);
        return true;
      }
      more := FirstByte(data);
    }

    /** Appends the line terminator and the string terminator. */
    method CloseSentence()
      requires length + 3 <= buffer.Length
      modifies this`length, this`overrun, buffer
      ensures length == old(length) + 2 && buffer[..length] == old(buffer[..length]) + CRLF
      ensures overrun == (old(overrun) || old(length) + 3 > bufferLength)
    {
      ghost var text := buffer[..length];
      overrun := overrun || length + 3 > bufferLength;
      buffer[length] := CR;
      buffer[length + 1] := LF;
      length := length + 2;
      buffer[length] := 0;
      assert buffer[..length] == text + CRLF;
    }

    /** The sentence has been judged. */
    ghost predicate Judged(m: seq<byte>, before: seq<Event>, over: bool)
      reads this
    {
      && Base() && length <= buffer.Length
      && Logged(log, before, Cfg(), 1, m)
      && overrun == (over || Spills(Cfg(), MmpNmea, m))
    }

    method NmeaValidateChecksum(ghost m: seq<byte>)
      requires Base() && length == |m| && buffer.Length == bufferLength + 1 && length <= bufferLength
               && buffer[..length] == m
      requires InChecksum(MmpNmea, bufferLength, 2, m) && XorHolds(crc, m[1..Find(m, STAR)])
      modifies this`length, this`overrun, this`messagesProcessed, this`crcErrors, this`log, buffer
      ensures Judged(m, old(log), old(overrun))
    {
      assert buffer[length - 2] == m[|m| - 2] && buffer[length - 1] == m[|m| - 1];
      var checksum := 16 * AsciiToNibble(buffer[length - 2]) + AsciiToNibble(buffer[length - 1]);
      var same := LowByteEquals(crc, m, checksum);
      SentenceChecked(Cfg(), 1, m, same);
      if same || (badCrc.Some? && !badCrc.value(buffer[..length])) {
        CloseSentence();
        Accept(1);
      } else {
        Reject(1);
      }
    }

    method NmeaLineTermination(ghost m: seq<byte>, data: byte) returns (more: bool)
      requires Stored(MmpNmea, m, data) && NmeaFollows(Now(), bufferLength, m) && phase.nmea == LineTermination
      modifies this, buffer
      ensures statsFrom == old(statsFrom)
      ensures Judged(m, old(log), old(overrun))
      ensures if data == CR || data == LF then Idled() && more
              else Offered(data) && more == Claimed(data)
    {
      length := length - 1;
      assert buffer[..length] == (m + [data])[..|m|] == m;
      NmeaValidateChecksum(m);
      if data == CR || data == LF {
        phase := Searching;
        return true;
      }
      more := FirstByte(data);
    }

    method NmeaByte(ghost m: seq<byte>, data: byte) returns (more: bool)
      requires Stored(MmpNmea, m, data) && NmeaFollows(Now(), bufferLength, m) && phase.nmea != LineTermination
      modifies this, buffer
      ensures statsFrom == old(statsFrom)
      ensures NmeaResult(m + [data], data, old(protocol), old(log), old(overrun), more)
    {
      match phase.nmea
      case FindFirstComma => more := NmeaFindFirstComma(m, data);
      case FindAsterisk => more := NmeaFindAsterisk(m, data);
      case ChecksumByte1 => more := NmeaChecksumByte1(m, data);
      case ChecksumByte2 => more := NmeaChecksumByte2(m, data);
    }

    // -------------------------------------------------------------------------------------
    // u-blox
    // -------------------------------------------------------------------------------------

    method UbloxSync2(ghost m: seq<byte>, data: byte) returns (more: bool)
      requires Stored(MmpUblox, m, data) && UbloxFollows(Now(), m) && phase.ublox == Sync2
      modifies this, buffer
      ensures statsFrom == old(statsFrom)
      ensures UbloxResult(m + [data], data, old(protocol), old(log), old(overrun), more)
    {
      if data != 0x62 {
        more := FirstByte(data);
        return;
      }
      phase := InUblox(ReadClass);
      more := true;
    }

    method UbloxReadClass(ghost m: seq<byte>, data: byte) returns (more: bool)
      requires UbloxFollows(Now(), m) && phase.ublox == ReadClass
      modifies this`phase, this`scratch
      ensures MmpUbloxVerdict(m + [data]) == Partial && UbloxFollows(Now(), m + [data]) && more
    {
      phase := InUblox(ReadMessageId);
      more := true;
    }

    method UbloxReadMessageId(ghost m: seq<byte>, data: byte) returns (more: bool)
      requires Stored(MmpUblox, m, data) && UbloxFollows(Now(), m) && phase.ublox == ReadMessageId
      modifies this`phase, this`scratch
      ensures MmpUbloxVerdict(m + [data]) == Partial && UbloxFollows(Now(), m + [data]) && more
    {
      assert buffer[length - 2] == (m + [data])[2] == m[2];
      UbloxStartsSums(m, data);
      var ck := Add((0, 0), buffer[length - 2]);
      ck := Add(ck, data);
      scratch := UbloxData(ck.0, ck.1, if scratch.UbloxData? then scratch.bytesRemaining else 0);
      phase := InUblox(ReadLength);
      more := true;
    }

    method UbloxLengthByte(ck: (byte, byte), value: nat)
      requires phase == InUblox(ReadLength) && scratch.UbloxData?
      modifies this`phase, this`scratch, this`lengthBytes
      ensures Now() == UbloxLengthStep(old(Now()), ck, value)
    {
      if lengthBytes == 0 {
        scratch := UbloxData(ck.0, ck.1, value);
        lengthBytes := 1;
      } else {
        scratch := UbloxData(ck.0, ck.1, scratch.bytesRemaining + 256 * value);
        lengthBytes := 0;
        phase := InUblox(if scratch.bytesRemaining == 0 then ChecksumA else ReadData);
      }
    }

    method UbloxReadLength(ghost m: seq<byte>, data: byte) returns (more: bool)
      requires UbloxFollows(Now(), m) && phase.ublox == ReadLength
      modifies this`phase, this`scratch, this`lengthBytes
      ensures MmpUbloxVerdict(m + [data]) == Partial && UbloxFollows(Now(), m + [data]) && more
    {
      ghost var before := Now();
      var ck := Add((scratch.checksumA, scratch.checksumB), data);
      UbloxLengthByte(ck, data as int);
      UbloxLengthMoves(before, Now(), m, data, ck, data as int);
      more := true;
    }

    method UbloxReadData(ghost m: seq<byte>, data: byte) returns (more: bool)
      requires UbloxFollows(Now(), m) && phase.ublox == ReadData
      modifies this`phase, this`scratch
      ensures MmpUbloxVerdict(m + [data]) == Partial && UbloxFollows(Now(), m + [data]) && more
    {
      var ck := Add((scratch.checksumA, scratch.checksumB), data);
      UbloxDataNext(m, data, scratch, ck);
      scratch := UbloxData(ck.0, ck.1, U16(scratch.bytesRemaining - 1));
      if scratch.bytesRemaining == 0 {
        phase := InUblox(ChecksumA);
      }
      more := true;
    }

    method UbloxChecksumA(ghost m: seq<byte>, data: byte) returns (more: bool)
      requires Stored(MmpUblox, m, data) && UbloxFollows(Now(), m) && phase.ublox == ChecksumA
      modifies this`phase, this`crcErrors, this`log
      ensures UbloxResult(m + [data], data, old(protocol), old(log), old(overrun), more)
    {
      UbloxANext(m, data, scratch);
      if data == scratch.checksumA {
        phase := InUblox(ChecksumB);
        return true;
      }
      Reject(2);
      phase := Searching;
      more := false;
    }

    method UbloxChecksumB(ghost m: seq<byte>, data: byte) returns (more: bool)
      requires Stored(MmpUblox, m, data) && UbloxFollows(Now(), m) && phase.ublox == ChecksumB
      modifies this`phase, this`messagesProcessed, this`crcErrors, this`log
      ensures UbloxResult(m + [data], data, old(protocol), old(log), old(overrun), more)
    {
      UbloxBNext(m, data, scratch);
      UbloxDecision(Cfg(), 2, m + [data], data == scratch.checksumB);
      Conclude(2, m + [data], data == scratch.checksumB);
      more := false;
    }

    method UbloxInside(ghost m: seq<byte>, data: byte) returns (more: bool)
      requires Stored(MmpUblox, m, data) && UbloxFollows(Now(), m) && phase.ublox !in {Sync2, ChecksumA, ChecksumB}
      modifies this`phase, this`scratch, this`lengthBytes
      ensures MmpUbloxVerdict(m + [data]) == Partial && UbloxFollows(Now(), m + [data]) && more
    {
      match phase.ublox
      case ReadClass => more := UbloxReadClass(m, data);
      case ReadMessageId => more := UbloxReadMessageId(m, data);
      case ReadLength => more := UbloxReadLength(m, data);
      case ReadData => more := UbloxReadData(m, data);
    }

    method UbloxByte(ghost m: seq<byte>, data: byte) returns (more: bool)
      requires Stored(MmpUblox, m, data) && UbloxFollows(Now(), m)
      modifies this, buffer
      ensures statsFrom == old(statsFrom)
      ensures UbloxResult(m + [data], data, old(protocol), old(log), old(overrun), more)
    {
      if phase.ublox == Sync2 {
        more := UbloxSync2(m, data);
      } else if phase.ublox == ChecksumA {
        more := UbloxChecksumA(m, data);
      } else if phase.ublox == ChecksumB {
        more := UbloxChecksumB(m, data);
      } else {
        more := UbloxInside(m, data);
        KeptResult(m + [data], data);
      }
    }

    // -------------------------------------------------------------------------------------
    // One byte, one buffer, a whole stream
    // -------------------------------------------------------------------------------------

    /** Saves the byte. */
    method SaveByte(ghost m: seq<byte>, data: byte)
      requires Base() && protocol < |MMP_TABLE| && 1 <= length < bufferLength && m == buffer[..length]
      modifies this`length, buffer
      ensures Stored(MMP_TABLE[protocol], m, data)
    {
      buffer[length] := data;
      length := length + 1;
      assert buffer[..length] == m + [data];
    }

    method StateRoutine(ghost m: seq<byte>, data: byte) returns (more: bool)
      requires protocol < |MMP_TABLE| && Stored(MMP_TABLE[protocol], m, data)
      requires MmpTracks(MMP_TABLE[protocol], bufferLength, Now(), m) && phase != InNmea(LineTermination)
      modifies this, buffer
      ensures statsFrom == old(statsFrom)
      ensures Result(Verdicts(MMP_TABLE[old(protocol)], bufferLength, m + [data]),
                     MmpTracks(MMP_TABLE[old(protocol)], bufferLength, Now(), m + [data]),
                     old(protocol), m + [data], data, old(log), old(overrun), more)
    {
      if protocol == 0 {
        more := SempByte(m, data);
      } else if protocol == 1 {
        more := NmeaByte(m, data);
      } else {
        more := UbloxByte(m, data);
      }
    }

    /** The fields have moved as the specification step says. */
    ghost predicate Stepped(step: Step, before: seq<Event>, over: bool)
      reads this, buffer
    {
      Valid() && State() == step.state && log == before + step.events && overrun == over
    }

    method ReadInside(ghost m: seq<byte>, data: byte) returns (more: bool)
      requires Valid() && phase != Searching && phase != InNmea(LineTermination)
      requires length < bufferLength && m == buffer[..length]
      modifies this, buffer
      ensures statsFrom == old(statsFrom)
      ensures Stepped(NextByte(Cfg(), old(protocol), m, data), old(log), old(overrun))
      ensures more == match Verdicts(MMP_TABLE[old(protocol)], bufferLength, m + [data])
                      case Partial => true
                      case Broken => Claimed(data)
                      case _ => false
    {
      assert MmpTracks(MMP_TABLE[protocol], bufferLength, Now(), m);
      SaveByte(m, data);
      more := StateRoutine(m, data);
      ResultIsNext(old(protocol), m, data, old(log), old(overrun), more);
    }

    method ReadEnding(ghost m: seq<byte>, data: byte) returns (more: bool)
      requires Valid() && phase == InNmea(LineTermination) && length < bufferLength && m == buffer[..length]
      modifies this, buffer
      ensures statsFrom == old(statsFrom)
      ensures Stepped(NextEnding(Cfg(), Busy(1, m, NoEnding), data), old(log),
                      old(overrun) || Spills(Cfg(), MmpNmea, m))
      ensures more == (data == CR || data == LF || Claimed(data))
    {
      assert MmpTracks(MMP_TABLE[protocol], bufferLength, Now(), m);
      SaveByte(m, data);
      more := NmeaLineTermination(m, data);
      if !(data == CR || data == LF) {
        OfferedIsOffer(data);
      }
    }

    /** A valid parser stands for a proper state of the specification. */
    lemma ValidIsProper()
      requires Valid()
      ensures Proper(Cfg(), State())
      ensures phase != Searching ==> (Ready(MMP_TABLE[protocol], buffer[..length])
                                      <==> phase == InNmea(LineTermination))
      ensures phase == InNmea(LineTermination) ==> protocol == 1
      ensures length >= bufferLength ==> lengthBytes == 0
    {
      if phase != Searching {
        var m := buffer[..length];
        assert MmpTracks(MMP_TABLE[protocol], bufferLength, Now(), m);
        if protocol == 1 {
          NmeaIsReady(Now(), bufferLength, m);
        }
      }
    }

    /** The counters have moved by the decisions since an earlier state. */
    lemma CountersMoved(processed: seq<nat>, errors: seq<nat>, before: seq<Event>, events: seq<Event>)
      requires Base() && log == before + events && statsFrom <= |before|
      requires Tallied(processed, errors, before[statsFrom..])
      ensures CountersMove(processed, errors, messagesProcessed, crcErrors, events)
    {
      assert log[statsFrom..] == before[statsFrom..] + events;
      TallyMoves(processed, errors, messagesProcessed, crcErrors, before[statsFrom..], events);
    }

    /** Processes one byte. */
    method ReadByte(data: byte) returns (more: bool)
      requires Valid()
      modifies this, buffer
      ensures statsFrom == old(statsFrom)
      ensures Valid()
      ensures State() == Next(Cfg(), old(State()), data).state
      ensures log == old(log) + Next(Cfg(), old(State()), data).events
      ensures more == Reply(Cfg(), old(State()), data)
      ensures overrun == (old(overrun) || SpillsOn(Cfg(), old(State()), data))
    {
      ValidIsProper();
      if length >= bufferLength {
        more := FirstByte(data);
        OfferedIsOffer(data);
      } else if phase == Searching {
        buffer[length] := data;
        length := length + 1;
        if computing {
          crc := ComputeCrc32(crc, data);
        }
        more := FirstByte(data);
        OfferedIsOffer(data);
      } else if phase == InNmea(LineTermination) {
        more := ReadEnding(buffer[..length], data);
      } else {
        more := ReadInside(buffer[..length], data);
      }
    }

    /** Processes one byte and tells the caller whether to read on. */
    method ProcessByte(data: byte) returns (more: bool)
      requires Valid()
      modifies this, buffer
      ensures statsFrom == old(statsFrom)
      ensures Valid()
      ensures State() == Next(Cfg(), old(State()), data).state
      ensures log == old(log) + Next(Cfg(), old(State()), data).events
      ensures more == Reply(Cfg(), old(State()), data)
      ensures overrun == (old(overrun) || SpillsOn(Cfg(), old(State()), data))
      ensures CountersMove(old(messagesProcessed), old(crcErrors), messagesProcessed, crcErrors,
                           Next(Cfg(), old(State()), data).events)
    {
      ghost var events := Next(Cfg(), State(), data).events;
      more := ReadByte(data);
      CountersMoved(old(messagesProcessed), old(crcErrors), old(log), events);
    }

    /** Processes one byte, with the specification step as a relation. */
    method ProcessOne(data: byte) returns (more: bool, ghost events: seq<Event>)
      requires Valid()
      modifies this, buffer
      ensures statsFrom == old(statsFrom)
      ensures Valid() && log == old(log) + events && Moves(Cfg(), old(State()), data, State(), events)
      ensures Replies(Cfg(), old(State()), data, more)
      ensures overrun == (old(overrun) || SomeSpilled(Cfg(), events))
    {
      events := Next(Cfg(), State(), data).events;
      ValidIsProper();
      SpillsOnIsSpill(Cfg(), State(), data);
      more := ProcessByte(data);
    }

    /** Processes bytes until the parser has finished a message or found nothing to read. */
    method ProcessBuffer(data: seq<byte>) returns (processed: nat, ghost events: seq<Event>)
      requires Valid() && |data| <= MAXIMUM_LENGTH
      modifies this, buffer
      ensures statsFrom == old(statsFrom)
      ensures StopsAt(Cfg(), old(State()), data, processed)
      ensures CountersMove(old(messagesProcessed), old(crcErrors), messagesProcessed, crcErrors, events)
      ensures Valid() && log == old(log) + events && Runs(Cfg(), old(State()), data[..processed], State(), events)
      ensures overrun == (old(overrun) || SomeSpilled(Cfg(), events))
    {
      ghost var start, before := State(), log;
      events := [];
      RunsNowhere(Cfg(), start);
      processed := 0;
      assert data[..0] == [];
      var i := 0;
      while i < |data|
        invariant i == processed <= |data| && Valid()
        invariant log == before + events && Runs(Cfg(), start, data[..i], State(), events)
        invariant AllReplied(Cfg(), start, data, i)
        invariant overrun == (old(overrun) || SomeSpilled(Cfg(), events)) && statsFrom == old(statsFrom)
      {
        ghost var mid := State();
        var more;
        ghost var decisions;
        more, decisions := ProcessOne(data[i]);
        RepliesAfter(Cfg(), start, data, i, mid, events, more);
        StopsHere(Cfg(), start, data, i, more);
        RunsOn(Cfg(), start, data[..i], mid, events, data[i], State(), decisions);
        assert data[..i + 1] == data[..i] + [data[i]];
        SpilledEarlierOrLater(Cfg(), events, decisions);
        events := events + decisions;
        processed := processed + 1;
        if !more {
          CountersMoved(old(messagesProcessed), old(crcErrors), before, events);
          return;
        }
        i := i + 1;
      }
      StopsAtTheEnd(Cfg(), start, data);
      CountersMoved(old(messagesProcessed), old(crcErrors), before, events);
    }

    /** Processes the unconsumed rest again and again, with the whole run as a relation. */
    method DrainAll(data: seq<byte>) returns (calls: nat, ghost events: seq<Event>)
      requires Valid()
      modifies this, buffer
      ensures statsFrom == old(statsFrom) && calls <= |data|
      ensures Valid() && log == old(log) + events && Runs(Cfg(), old(State()), data, State(), events)
      ensures overrun == (old(overrun) || SomeSpilled(Cfg(), events))
    {
      ghost var start, before := State(), log;
      events := [];
      RunsNowhere(Cfg(), start);
      var done := 0;
      calls := 0;
      assert data[..0] == [];
      while done < |data|
        invariant done <= |data| && calls <= done && Valid()
        invariant log == before + events && Runs(Cfg(), start, data[..done], State(), events)
        invariant overrun == (old(overrun) || SomeSpilled(Cfg(), events)) && statsFrom == old(statsFrom)
        decreases |data| - done
      {
        ghost var mid := State();
        var n;
        ghost var decisions;
        var rest := if |data| - done <= MAXIMUM_LENGTH then data[done..] else data[done..done + MAXIMUM_LENGTH];
        n, decisions := ProcessBuffer(rest);
        RunsFurther(Cfg(), start, data[..done], mid, events, rest[..n], State(), decisions);
        assert data[..done] + rest[..n] == data[..done + n];
        SpilledEarlierOrLater(Cfg(), events, decisions);
        events := events + decisions;
        done := done + n;
        calls := calls + 1;
      }
      assert data[..done] == data;
    }

    /** Feeding the unconsumed rest again and again gives the result of reading byte by byte. */
    method Drain(data: seq<byte>) returns (calls: nat)
      requires Valid()
      modifies this, buffer
      ensures statsFrom == old(statsFrom)
      ensures Valid() && calls <= |data|
      ensures State() == Run(Cfg(), old(State()), data).state
      ensures log == old(log) + Run(Cfg(), old(State()), data).events
      ensures overrun == (old(overrun) || SomeSpilled(Cfg(), Run(Cfg(), old(State()), data).events))
      ensures CountersMove(old(messagesProcessed), old(crcErrors), messagesProcessed, crcErrors,
                           Run(Cfg(), old(State()), data).events)
    {
      ghost var events;
      calls, events := DrainAll(data);
      assert Run(Cfg(), old(State()), data) == Outcome(State(), events);
      CountersMoved(old(messagesProcessed), old(crcErrors), old(log), events);
    }

    /** Processes all bytes one at a time. */
    method ProcessEach(data: seq<byte>)
      requires Valid()
      modifies this, buffer
      ensures statsFrom == old(statsFrom) && Valid()
      ensures State() == Run(Cfg(), old(State()), data).state
      ensures log == old(log) + Run(Cfg(), old(State()), data).events
      ensures CountersMove(old(messagesProcessed), old(crcErrors), messagesProcessed, crcErrors,
                           Run(Cfg(), old(State()), data).events)
    {
      ghost var start, before, events: seq<Event> := State(), log, [];
      RunsNowhere(Cfg(), start);
      assert data[..0] == [];
      for i := 0 to |data|
        invariant Valid() && statsFrom == old(statsFrom)
        invariant log == before + events && Runs(Cfg(), start, data[..i], State(), events)
      {
        ghost var mid := State();
        var more;
        ghost var decisions;
        more, decisions := ProcessOne(data[i]);
        RunsOn(Cfg(), start, data[..i], mid, events, data[i], State(), decisions);
        assert data[..i + 1] == data[..i] + [data[i]];
        events := events + decisions;
      }
      assert data[..|data|] == data;
      assert Run(Cfg(), start, data) == Outcome(State(), events);
      CountersMoved(old(messagesProcessed), old(crcErrors), before, events);
    }

    /** Clears the counters. */
    method ResetStats()
      requires Valid()
      modifies this`messagesProcessed, this`crcErrors, this`statsFrom
      ensures Valid() && State() == old(State()) && statsFrom == |log|
              && messagesProcessed == crcErrors == seq(8, _ => 0)
    {
      messagesProcessed := seq(8, _ => 0);
      crcErrors := seq(8, _ => 0);
      statsFrom := |log|;
    }
  }

  /** Refuses a buffer below the minimum; otherwise the parser starts searching, with its counters at zero. */
  method InitParser(size: nat, callback: Option<seq<byte> -> bool>) returns (p: MmpParser?)
    requires size <= 65535
    ensures p == null <==> size < MINIMUM_BUFFER_LENGTH
    ensures p != null ==> fresh(p) && fresh(p.buffer) && p.Valid() && p.State() == Idle
    ensures p != null ==> p.log == [] && p.statsFrom == 0
    ensures p != null ==> p.Cfg() == Config(MMP_TABLE, size, callback)
  {
    if size < MINIMUM_BUFFER_LENGTH {
      return null;
    }
    p := new MmpParser(size, callback);
  }
}
