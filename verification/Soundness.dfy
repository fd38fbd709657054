/** What a parser has in hand at every moment, and what it may pass to the application. */
module Soundness {
  import opened Bytes
  import opened Formats
  import opened Traces
  import opened Stream

  /** Every prefix of `m` made the routine read on. */
  ghost predicate Live(cfg: Config, p: Routine, m: seq<byte>) {
    m != [] && Preamble(p, m[0]) && forall k | 2 <= k <= |m| :: ReadsOn(cfg, p, m, k)
  }

  ghost predicate ReadsOn(cfg: Config, p: Routine, m: seq<byte>, k: nat)
    requires 2 <= k <= |m|
  {
    Verdicts(p, cfg.bufferLength, m[..k]) == Partial && !Ready(p, m[..k - 1])
  }

  /** `m` is all of a message: the checksum decision is made on it. */
  ghost predicate Complete(cfg: Config, p: Routine, m: seq<byte>) {
    if IsSentence(p) then Live(cfg, p, m) && Ready(p, m)
    else
      && |m| >= 2
      && Live(cfg, p, m[..|m| - 1])
      && Verdicts(p, cfg.bufferLength, m) == Whole
  }

  /** `m` ends in a first checksum byte that is already wrong. */
  ghost predicate Refused(cfg: Config, p: Routine, m: seq<byte>) {
    |m| >= 2 && Live(cfg, p, m[..|m| - 1]) && Verdicts(p, cfg.bufferLength, m) == Failed
  }

  lemma LiveExtends(cfg: Config, p: Routine, m: seq<byte>, data: byte)
    requires Live(cfg, p, m) && !Ready(p, m)
    requires Verdicts(p, cfg.bufferLength, m + [data]) == Partial
    ensures Live(cfg, p, m + [data])
  {
    var m' := m + [data];
    forall k | 2 <= k <= |m'| ensures ReadsOn(cfg, p, m', k) {
      if k == |m'| {
        assert m'[..k] == m' && m'[..k - 1] == m;
      } else {
        assert ReadsOn(cfg, p, m, k);
        assert m'[..k] == m[..k] && m'[..k - 1] == m[..k - 1];
      }
    }
  }

  lemma LivePrefix(cfg: Config, p: Routine, m: seq<byte>, n: nat)
    requires Live(cfg, p, m) && 1 <= n <= |m|
    ensures Live(cfg, p, m[..n])
  {
    forall k | 2 <= k <= n ensures ReadsOn(cfg, p, m[..n], k) {
      assert ReadsOn(cfg, p, m, k);
      assert m[..n][..k] == m[..k] && m[..n][..k - 1] == m[..k - 1];
    }
  }

  // ---------------------------------------------------------------------------------------
  // One step
  // ---------------------------------------------------------------------------------------

  /** The bytes of the input that an event is about. */
  function Body(cfg: Config, e: Event): seq<byte> {
    if e.Accepted? && e.index < |cfg.table| && IsSentence(cfg.table[e.index]) && |e.bytes| >= 2
    then e.bytes[..|e.bytes| - 2]
    else e.bytes
  }

  /** The decision was made on a complete message, and made correctly. */
  ghost predicate Justified(cfg: Config, e: Event) {
    && e.index < |cfg.table|
    && var p, m := cfg.table[e.index], Body(cfg, e);
    && m != [] && Claim(cfg.table, m[0]) == e.index
    && |m| <= cfg.bufferLength && (IsSentence(p) ==> |m| < cfg.bufferLength)
    && match e
       case Accepted(_, bytes) => Complete(cfg, p, m) && Passes(cfg, p, m) && bytes == Output(p, m)
       case Rejected(_, _) => (Complete(cfg, p, m) && !Passes(cfg, p, m)) || Refused(cfg, p, m)
  }

  /** What is known of a reachable state. */
  ghost predicate Sound(cfg: Config, st: State) {
    && Proper(cfg, st)
    && (st.Busy? ==>
          && Live(cfg, cfg.table[st.index], st.msg)
          && Claim(cfg.table, st.msg[0]) == st.index)
  }

  lemma OfferIsSound(cfg: Config, data: byte)
    requires cfg.Valid()
    ensures Sound(cfg, Offer(cfg, data))
  {
  }

  lemma DecisionIsJustified(cfg: Config, i: nat, m: seq<byte>)
    requires i < |cfg.table| && Complete(cfg, cfg.table[i], m) && Claim(cfg.table, m[0]) == i
    requires |m| <= cfg.bufferLength && (IsSentence(cfg.table[i]) ==> |m| < cfg.bufferLength)
    ensures Justified(cfg, Decide(cfg, i, m)) && Body(cfg, Decide(cfg, i, m)) == m
  {
    assert (m + CRLF)[..|m + CRLF| - 2] == m;
  }

  /** The new message is the old one with the byte added, or the byte alone, or nothing. */
  ghost predicate Continues(st: State, data: byte, st': State) {
    st'.Busy? ==>
      || (st'.msg == [data] && st'.ending.NoEnding?)
      || (st.Busy? && st'.msg == st.msg + [data] && st.ending.NoEnding? && st'.ending.NoEnding?)
      || (st.Busy? && st'.msg == st.msg && st.ending.NoEnding? && !st'.ending.NoEnding?)
  }

  lemma NextByteIsSound(cfg: Config, i: nat, m: seq<byte>, data: byte)
    requires cfg.Valid() && i < |cfg.table| && |m| < cfg.bufferLength
    requires Live(cfg, cfg.table[i], m) && Claim(cfg.table, m[0]) == i
    requires !Ready(cfg.table[i], m)
    ensures var r := NextByte(cfg, i, m, data);
            && Sound(cfg, r.state)
            && Continues(Busy(i, m, NoEnding), data, r.state)
            && |r.events| <= 1
            && (forall e | e in r.events :: Justified(cfg, e) && Body(cfg, e) == m + [data] && r.state.Idle?)
  {
    var p, m' := cfg.table[i], m + [data];
    OfferIsSound(cfg, data);
    match Verdicts(p, cfg.bufferLength, m')
    case Partial =>
      LiveExtends(cfg, p, m, data);
    case Whole =>
      assert m'[..|m'| - 1] == m;
      SentencesAreNeverWhole(cfg, p, m');
      DecisionIsJustified(cfg, i, m');
    case Failed =>
      assert m'[..|m'| - 1] == m;
      SentencesAreNeverWhole(cfg, p, m');
    case Broken =>
    case Dropped =>
  }

  lemma SentencesAreNeverWhole(cfg: Config, p: Routine, m: seq<byte>)
    requires |m| >= 2 && Verdicts(p, cfg.bufferLength, m) in {Whole, Failed}
    ensures !IsSentence(p)
  {
  }

  lemma NextEndingIsSound(cfg: Config, st: State, data: byte)
    requires cfg.Valid() && Sound(cfg, st) && st.Busy? && |st.msg| < cfg.bufferLength
    requires Ready(cfg.table[st.index], st.msg)
    ensures var r := NextEnding(cfg, st, data);
            && Sound(cfg, r.state)
            && Continues(st, data, r.state)
            && |r.events| <= 1
            && (forall e | e in r.events ::
                  && Justified(cfg, e) && Body(cfg, e) == st.msg
                  && (r.state.Busy? ==> r.state.msg == [data] && r.state.ending.NoEnding?))
  {
    OfferIsSound(cfg, data);
    DecisionIsJustified(cfg, st.index, st.msg);
  }

  /** What one byte does to the state, and what it may decide. */
  ghost predicate StepSound(cfg: Config, st: State, data: byte, r: Step) {
    && Sound(cfg, r.state)
    && Continues(st, data, r.state)
    && |r.events| <= 1
    && (forall e | e in r.events ::
          && Justified(cfg, e) && st.Busy? && Body(cfg, e) in {st.msg, st.msg + [data]}
          && (Body(cfg, e) == st.msg + [data] ==> st.ending.NoEnding? && r.state.Idle?)
          && (r.state.Busy? ==> r.state.msg == [data] && r.state.ending.NoEnding?))
  }

  lemma NextIsSound(cfg: Config, st: State, data: byte)
    requires cfg.Valid() && Sound(cfg, st)
    ensures StepSound(cfg, st, data, Next(cfg, st, data))
  {
    if st.Idle? || |st.msg| >= cfg.bufferLength {
      OfferIsSound(cfg, data);
    } else if Ready(cfg.table[st.index], st.msg) {
      NextEndingIsSound(cfg, st, data);
    } else {
      NextByteIsSound(cfg, st.index, st.msg, data);
    }
  }

  // ---------------------------------------------------------------------------------------
  // Whole streams
  // ---------------------------------------------------------------------------------------

  /** Where the message in hand began, after `n` bytes of input. */
  function Start(st: State, n: int): int {
    if st.Idle? then n else n - |st.msg| - (if st.ending.NoEnding? then 0 else 1)
  }

  /** For each event of a run from the idle state, the position in the input where its message began. */
  function Starts(cfg: Config, s: seq<byte>): seq<int> {
    if s == [] then []
    else
      var n := |s| - 1;
      var st := Run(cfg, Idle, s[..n]).state;
      Starts(cfg, s[..n]) + (if Next(cfg, st, s[n]).events == [] then [] else [Start(st, n)])
  }

  /** The `k`th event is justified, its message is the input at its start, and ends before `limit`. */
  ghost predicate Located(cfg: Config, s: seq<byte>, e: Event, lo: int, limit: int) {
    (forall x | x == e :: Justified(cfg, x)) && Placed(s, Body(cfg, e), lo, limit)
  }

  /** The bytes `m` stand in the input at `lo`, before `limit`. */
  predicate Placed(s: seq<byte>, m: seq<byte>, lo: int, limit: int) {
    0 <= lo <= lo + |m| <= limit <= |s| && s[lo..lo + |m|] == m
  }

  /** Where the message after the `k`th begins. */
  function NextStart(starts: seq<int>, k: int, limit: int): int {
    if 0 <= k + 1 < |starts| then starts[k + 1] else limit
  }

  ghost predicate AllLocated(cfg: Config, s: seq<byte>, events: seq<Event>, starts: seq<int>, limit: int) {
    && |events| == |starts|
    && forall k | 0 <= k < |events| :: Located(cfg, s, events[k], starts[k], NextStart(starts, k, limit))
  }

  /** The message in hand is the end of the input, and all events lie before it. */
  ghost predicate Account(cfg: Config, s: seq<byte>, r: Step, starts: seq<int>) {
    Sound(cfg, r.state) && InHand(s, r.state) && AllLocated(cfg, s, r.events, starts, Start(r.state, |s|))
  }

  ghost predicate InHand(s: seq<byte>, st: State) {
    var lo := Start(st, |s|);
    0 <= lo <= |s| && (st.Busy? ==> s[lo..lo + |st.msg|] == st.msg)
  }

  lemma LocatedGrows(cfg: Config, s: seq<byte>, data: byte, events: seq<Event>, starts: seq<int>, limit: int,
                     limit': int)
    requires AllLocated(cfg, s, events, starts, limit) && limit <= limit' <= |s| + 1
    ensures AllLocated(cfg, s + [data], events, starts, limit')
  {
    forall k | 0 <= k < |events|
      ensures Located(cfg, s + [data], events[k], starts[k], NextStart(starts, k, limit'))
    {
      assert Located(cfg, s, events[k], starts[k], NextStart(starts, k, limit));
      PlacedStays(s, data, Body(cfg, events[k]), starts[k], NextStart(starts, k, limit), NextStart(starts, k, limit'));
    }
  }

  lemma PlacedStays(s: seq<byte>, data: byte, m: seq<byte>, lo: int, limit: int, limit': int)
    requires Placed(s, m, lo, limit) && limit <= limit' <= |s| + 1
    ensures Placed(s + [data], m, lo, limit')
  {
  }

  lemma LocatedAppends(cfg: Config, s: seq<byte>, events: seq<Event>, starts: seq<int>, e: Event, lo: int, limit: int)
    requires AllLocated(cfg, s, events, starts, lo) && Located(cfg, s, e, lo, limit)
    ensures AllLocated(cfg, s, events + [e], starts + [lo], limit)
  {
    var es, ss := events + [e], starts + [lo];
    forall k | 0 <= k < |es| ensures Located(cfg, s, es[k], ss[k], NextStart(ss, k, limit)) {
      if k < |events| {
        assert Located(cfg, s, events[k], starts[k], NextStart(starts, k, lo));
        assert NextStart(ss, k, limit) == NextStart(starts, k, lo);
      }
    }
  }

  /** The message in hand, one byte later. */
  lemma HandMoves(s: seq<byte>, st: State, data: byte, st': State)
    requires InHand(s, st) && Continues(st, data, st')
    ensures InHand(s + [data], st') && Start(st, |s|) <= Start(st', |s| + 1)
  {
    if st'.Busy? && st'.msg == [data] {
      assert (s + [data])[|s|..|s| + 1] == [data];
    }
  }

  lemma SliceKept(s: seq<byte>, data: byte, lo: nat, m: seq<byte>)
    requires lo + |m| <= |s| && s[lo..lo + |m|] == m
    ensures (s + [data])[lo..lo + |m|] == m
    ensures lo + |m| == |s| ==> (s + [data])[lo..] == m + [data]
  {
    assert (s + [data])[lo..lo + |m|] == s[lo..lo + |m|];
  }

  lemma EventMoves(s: seq<byte>, st: State, data: byte, m: seq<byte>, limit: int)
    requires st.Busy? && InHand(s, st)
    requires (m == st.msg && |s| <= limit <= |s| + 1)
             || (m == st.msg + [data] && st.ending.NoEnding? && limit == |s| + 1)
    ensures Placed(s + [data], m, Start(st, |s|), limit)
  {
    SliceKept(s, data, Start(st, |s|), st.msg);
  }

  lemma QuietByte(cfg: Config, s: seq<byte>, data: byte, before: Step, starts: seq<int>, st': State)
    requires Account(cfg, s, before, starts)
    requires Sound(cfg, st') && Continues(before.state, data, st')
    ensures Account(cfg, s + [data], Outcome(st', before.events), starts)
  {
    HandMoves(s, before.state, data, st');
    LocatedGrows(cfg, s, data, before.events, starts, Start(before.state, |s|), Start(st', |s| + 1));
  }

  lemma DecidingByte(cfg: Config, s: seq<byte>, data: byte, before: Step, starts: seq<int>, r: Step, e: Event)
    requires Account(cfg, s, before, starts)
    requires StepSound(cfg, before.state, data, r) && r.events == [e]
    ensures Account(cfg, s + [data], Outcome(r.state, before.events + [e]), starts + [Start(before.state, |s|)])
  {
    var lo, lo' := Start(before.state, |s|), Start(r.state, |s| + 1);
    assert e in r.events;
    HandMoves(s, before.state, data, r.state);
    LocatedGrows(cfg, s, data, before.events, starts, lo, lo);
    EventMoves(s, before.state, data, Body(cfg, e), lo');
    LocatedAppends(cfg, s + [data], before.events, starts, e, lo, lo');
  }

  /** One more byte keeps the account. */
  lemma AccountMoves(cfg: Config, s: seq<byte>, data: byte, before: Step, starts: seq<int>, r: Step)
    requires Account(cfg, s, before, starts) && StepSound(cfg, before.state, data, r)
    ensures Account(cfg, s + [data], Outcome(r.state, before.events + r.events),
                    starts + (if r.events == [] then [] else [Start(before.state, |s|)]))
  {
    if r.events == [] {
      QuietByte(cfg, s, data, before, starts, r.state);
      assert before.events + r.events == before.events && starts + [] == starts;
    } else {
      assert r.events == [r.events[0]];
      DecidingByte(cfg, s, data, before, starts, r, r.events[0]);
    }
  }

  lemma StartsAppend(cfg: Config, s: seq<byte>, data: byte, st: State)
    requires st == Run(cfg, Idle, s).state
    ensures Starts(cfg, s + [data])
            == Starts(cfg, s) + (if Next(cfg, st, data).events == [] then [] else [Start(st, |s|)])
  {
    assert (s + [data])[..|s|] == s;
  }

  /**
   Soundness over all streams. Whatever the input, every message that is passed on or reported is
   a contiguous slice of the input that its own parse routine found complete; a message is passed
   on only when its checksum passes; the slices are disjoint and in stream order; and the bytes
   still in hand are the end of the input.
   */
  lemma {:induction false} EveryByteAccounted(cfg: Config, s: seq<byte>)
    requires cfg.Valid()
    ensures Account(cfg, s, Run(cfg, Idle, s), Starts(cfg, s))
    decreases |s|
  {
    if s == [] {
      assert Run(cfg, Idle, s) == Outcome(Idle, []);
    } else {
      var s', data := s[..|s| - 1], s[|s| - 1];
      assert s == s' + [data];
      EveryByteAccounted(cfg, s');
      var before := Run(cfg, Idle, s');
      NextIsSound(cfg, before.state, data);
      AccountMoves(cfg, s', data, before, Starts(cfg, s'), Next(cfg, before.state, data));
      RunAppend(cfg, Idle, s', data);
      StartsAppend(cfg, s', data, before.state);
    }
  }
}
