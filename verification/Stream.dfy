/**
 What a parser does with a stream of bytes, stated on message prefixes. The states of the
 protocol machines do not appear: a busy parser is determined by the bytes it has kept.
 */
module Stream {
  import opened Bytes
  import opened Formats
  import opened Traces

  datatype Option<+T> = None | Some(value: T)

  /** The parser table, the buffer length, and the optional second opinion on bad checksums. */
  datatype Config = Config(table: seq<Routine>, bufferLength: nat, badCrc: Option<seq<byte> -> bool>) {

    /** What the parser's start routine enforces. */
    ghost predicate Valid() {
      0 < |table| <= 255 && 32 <= bufferLength <= 65535
    }
  }

  /** A line terminator of which one half has been read. */
  datatype Ending = NoEnding | SawCr | SawLf

  datatype State = Idle | Busy(index: nat, msg: seq<byte>, ending: Ending)

  /** A checksum decision: the message was passed to the application, or reported as bad. */
  datatype Event = Accepted(index: nat, bytes: seq<byte>) | Rejected(index: nat, bytes: seq<byte>)

  type Step = Outcome<State, Event>

  /** The first table entry that claims the byte, or the table size. */
  function Claim(table: seq<Routine>, data: byte): (i: nat)
    ensures i <= |table|
    ensures i < |table| ==> Preamble(table[i], data)
    ensures forall j | 0 <= j < i :: !Preamble(table[j], data)
  {
    if table == [] then 0
    else if Preamble(table[0], data) then 0
    else 1 + Claim(table[1..], data)
  }

  /** The byte is offered to the table as the first byte of a message. */
  function Offer(cfg: Config, data: byte): State {
    var i := Claim(cfg.table, data);
    if i < |cfg.table| then Busy(i, [data], NoEnding) else Idle
  }

  /** The callback for bad checksums is not asked by every routine. */
  predicate AsksBadCrc(p: Routine, m: seq<byte>) {
    !p.MmpSemp? && !p.MmpUblox? && !(p.UnicoreHash? && ChecksumChars(p, m) == 8)
  }

  predicate Passes(cfg: Config, p: Routine, m: seq<byte>) {
    && (ChecksumOk(p, m) || (AsksBadCrc(p, m) && cfg.badCrc.Some? && !cfg.badCrc.value(m)))
    && (p.UnicoreHash? && ChecksumChars(p, m) == 8 ==> |m| + 3 <= cfg.bufferLength)
  }

  /** What the application receives: sentences always end in CR LF. */
  function Output(p: Routine, m: seq<byte>): seq<byte> {
    if IsSentence(p) then m + CRLF else m
  }

  function Decide(cfg: Config, i: nat, m: seq<byte>): Event
    requires i < |cfg.table|
  {
    if Passes(cfg, cfg.table[i], m) then Accepted(i, Output(cfg.table[i], m)) else Rejected(i, m)
  }

  /** The decision on a message is the only addition to a log; unfolded only where it is used. */
  ghost predicate Logged(log: seq<Event>, before: seq<Event>, cfg: Config, i: nat, m: seq<byte>) {
    forall j: nat | j == i :: j < |cfg.table| && log == before + [Decide(cfg, j, m)]
  }

  /** A sentence has all its characters and waits for its line terminator. */
  function NextEnding(cfg: Config, st: State, data: byte): Step
    requires st.Busy? && st.index < |cfg.table|
  {
    var decision := [Decide(cfg, st.index, st.msg)];
    if cfg.table[st.index].MmpNmea? then
      if data == CR || data == LF then Outcome(Idle, decision) else Outcome(Offer(cfg, data), decision)
    else if st.ending.NoEnding? && data == CR then Outcome(st.(ending := SawCr), [])
    else if st.ending.NoEnding? && data == LF then Outcome(st.(ending := SawLf), [])
    else if (st.ending.SawCr? && data == LF) || (st.ending.SawLf? && data == CR) then Outcome(Idle, decision)
    else Outcome(Offer(cfg, data), decision)
  }

  function NextByte(cfg: Config, i: nat, m: seq<byte>, data: byte): Step
    requires i < |cfg.table| && m != []
  {
    match Verdicts(cfg.table[i], cfg.bufferLength, m + [data])
    case Partial => Outcome(Busy(i, m + [data], NoEnding), [])
    case Whole => Outcome(Idle, [Decide(cfg, i, m + [data])])
    case Failed => Outcome(Idle, [Rejected(i, m + [data])])
    case Broken => Outcome(Offer(cfg, data), [])
    case Dropped => Outcome(Idle, [])
  }

  /** A state that the machines can be in. */
  predicate Proper(cfg: Config, st: State) {
    st.Busy? ==>
      && st.index < |cfg.table|
      && 1 <= |st.msg| <= cfg.bufferLength
      && (!st.ending.NoEnding? ==> Ready(cfg.table[st.index], st.msg) && |st.msg| < cfg.bufferLength)
  }

  /** One input byte. Only a proper busy state reads on; in every other state the search for a preamble goes on. */
  function Next(cfg: Config, st: State, data: byte): Step {
    if st.Idle? || !Proper(cfg, st) || |st.msg| >= cfg.bufferLength then Outcome(Offer(cfg, data), [])
    else if Ready(cfg.table[st.index], st.msg) then NextEnding(cfg, st, data)
    else NextByte(cfg, st.index, st.msg, data)
  }

  lemma NextIsProper(cfg: Config, st: State, data: byte)
    requires cfg.Valid()
    ensures Proper(cfg, Next(cfg, st, data).state)
  {
  }

  function Machine(cfg: Config): (State, byte) -> Step {
    (st, data) => Next(cfg, st, data)
  }

  /** A whole stream, read from a given state. */
  function Run(cfg: Config, st: State, s: seq<byte>): Step {
    Fold(Machine(cfg), st, s)
  }

  lemma RunConcat(cfg: Config, st: State, a: seq<byte>, b: seq<byte>)
    ensures Run(cfg, st, a + b)
            == Outcome(Run(cfg, Run(cfg, st, a).state, b).state,
                       Run(cfg, st, a).events + Run(cfg, Run(cfg, st, a).state, b).events)
  {
    FoldConcat(Machine(cfg), st, a, b);
  }

  lemma RunAppend(cfg: Config, st: State, s: seq<byte>, data: byte)
    ensures var before, step := Run(cfg, st, s), Next(cfg, Run(cfg, st, s).state, data);
            Run(cfg, st, s + [data]) == Outcome(step.state, before.events + step.events)
  {
    FoldAppend(Machine(cfg), st, s, data);
  }

  /** One step of the machine as a relation, unfolded only where it is used. */
  ghost predicate Moves(cfg: Config, st: State, data: byte, st': State, events: seq<Event>) {
    forall d | d == data :: Next(cfg, st, d) == Outcome(st', events)
  }

  /** A run as a relation, unfolded only where it is used. */
  ghost predicate Runs(cfg: Config, st: State, s: seq<byte>, st': State, events: seq<Event>) {
    forall t | t == s :: Run(cfg, st, t) == Outcome(st', events)
  }

  lemma RunsNowhere(cfg: Config, st: State)
    ensures Runs(cfg, st, [], st, [])
  {
  }

  lemma RunsOn(cfg: Config, st: State, s: seq<byte>, mid: State, events: seq<Event>, data: byte, st': State,
               more: seq<Event>)
    requires Runs(cfg, st, s, mid, events) && Moves(cfg, mid, data, st', more)
    ensures Runs(cfg, st, s + [data], st', events + more)
  {
    RunAppend(cfg, st, s, data);
    assert Run(cfg, st, s) == Outcome(mid, events) && Next(cfg, mid, data) == Outcome(st', more);
  }

  lemma RunsFurther(cfg: Config, st: State, a: seq<byte>, mid: State, events: seq<Event>, b: seq<byte>, st': State,
                    more: seq<Event>)
    requires Runs(cfg, st, a, mid, events) && Runs(cfg, mid, b, st', more)
    ensures Runs(cfg, st, a + b, st', events + more)
  {
    RunConcat(cfg, st, a, b);
    assert Run(cfg, st, a) == Outcome(mid, events) && Run(cfg, mid, b) == Outcome(st', more);
  }

  /** A sentence was passed on that fills the buffer and leaves no room for its NUL. */
  predicate Spilled(cfg: Config, e: Event) {
    e.Accepted? && e.index < |cfg.table| && IsSentence(cfg.table[e.index]) && |e.bytes| >= cfg.bufferLength
  }

  predicate SomeSpilled(cfg: Config, events: seq<Event>) {
    exists e | e in events :: Spilled(cfg, e)
  }

  lemma SpilledEarlierOrLater(cfg: Config, a: seq<Event>, b: seq<Event>)
    ensures SomeSpilled(cfg, a + b) <==> SomeSpilled(cfg, a) || SomeSpilled(cfg, b)
  {
    if SomeSpilled(cfg, a) {
      var e :| e in a && Spilled(cfg, e);
      assert e in a + b;
    }
    if SomeSpilled(cfg, b) {
      var e :| e in b && Spilled(cfg, e);
      assert e in a + b;
    }
  }

  lemma RunOne(cfg: Config, st: State, data: byte)
    ensures Run(cfg, st, [data]) == Next(cfg, st, data)
  {
    FoldOne(Machine(cfg), st, data);
  }
}
