/** The two implementations of SEMP framing, compared on every input. */
module SempEquivalence {
  import opened Bytes
  import opened Formats
  import opened Traces
  import opened Stream
  import opened Soundness
  import opened Frames
  import opened Completeness
  import opened Trailers

  // ---------------------------------------------------------------------------------------
  // One frame, in any two tables
  // ---------------------------------------------------------------------------------------

  /** A parser with the zero-residue machine and one with the explicit comparison. */
  ghost predicate Pair(a: Config, b: Config, i: nat, j: nat) {
    && a.Valid() && b.Valid() && a.bufferLength == b.bufferLength && a.badCrc.None?
    && i < |a.table| && a.table[i] == Custom && Claim(a.table, 0xAA) == i
    && j < |b.table| && b.table[j] == MmpSemp && Claim(b.table, 0xAA) == j
  }

  /** Both machines take a frame for complete exactly when it has the fixed header length and some data. */
  lemma CommonFrames(m: seq<byte>)
    ensures CustomFrame(m) && MmpSempFrame(m) <==> CustomFrame(m) && m[3] == 0x14
    ensures CustomFrame(m) && MmpSempFrame(m) <==> MmpSempFrame(m) && CustomLength(m) >= 1
  {
  }

  /**
   On such a frame both accept the same trailers and pass on the same bytes at the same input
   position, its last byte.
   */
  lemma MachinesAgree(a: Config, b: Config, i: nat, j: nat, f: seq<byte>)
    requires Pair(a, b, i, j) && CustomFrame(f) && MmpSempFrame(f) && |f| <= a.bufferLength
    ensures Run(a, Idle, f) == Outcome(Idle, [if SempOk(f) then Accepted(i, f) else Rejected(i, f)])
    ensures Run(b, Idle, f) == Outcome(Idle, [if SempOk(f) then Accepted(j, f) else Rejected(j, f)])
    ensures forall k | 1 <= k < |f| :: Run(a, Idle, f[..k]).events == [] && Run(b, Idle, f[..k]).events == []
  {
    RunFrame(a, i, f);
    RunFrame(b, j, f);
    CustomTrailer(f);
  }

  // ---------------------------------------------------------------------------------------
  // Every stream
  // ---------------------------------------------------------------------------------------

  /** A decision under another table index. */
  function Named(e: Event, j: nat): Event {
    match e
    case Accepted(_, bytes) => Accepted(j, bytes)
    case Rejected(_, bytes) => Rejected(j, bytes)
  }

  function Renamed(events: seq<Event>, j: nat): (r: seq<Event>)
    ensures |r| == |events| && forall k | 0 <= k < |events| :: r[k] == Named(events[k], j)
  {
    seq(|events|, k requires 0 <= k < |events| => Named(events[k], j))
  }

  /** Both search for a preamble, or both collect the same SEMP message. */
  predicate SameState(i: nat, j: nat, x: State, y: State) {
    || (x.Idle? && y.Idle?)
    || (x.Busy? && y == Busy(j, x.msg, NoEnding) && x == Busy(i, x.msg, NoEnding))
  }

  /** The same state, and the same decisions up to the table index. */
  predicate Alike(i: nat, j: nat, x: Step, y: Step) {
    SameState(i, j, x.state, y.state) && y.events == Renamed(x.events, j)
  }

  /** The prefixes that the machines judge differently: another header length, or no data. */
  predicate Diverges(m: seq<byte>) {
    (|m| == 20 && m[3] != 0x14) || (|m| >= 24 && CustomLength(m) == 0)
  }

  /** The byte is offered to the table: in the search, after a full buffer, or behind a broken preamble. */
  predicate IsOffered(a: Config, st: State, data: byte) {
    || st.Idle? || |st.msg| >= a.bufferLength
    || (st.msg != [] && Verdicts(Custom, a.bufferLength, st.msg + [data]) == Broken)
  }

  /** Another protocol of the table claims the byte. */
  predicate Foreign(cfg: Config, i: nat, data: byte) {
    Claim(cfg.table, data) != i && Claim(cfg.table, data) < |cfg.table|
  }

  /** The byte at which the parsers part, if they do. */
  predicate DivergesOn(a: Config, b: Config, i: nat, j: nat, st: State, data: byte) {
    if IsOffered(a, st, data) then Foreign(a, i, data) || Foreign(b, j, data) else Diverges(st.msg + [data])
  }

  lemma SameVerdict(bufferLength: nat, m: seq<byte>)
    requires 2 <= |m| <= 65535
    ensures Verdicts(Custom, bufferLength, m) == Verdicts(MmpSemp, bufferLength, m) <==> !Diverges(m)
    ensures Diverges(m) ==> Verdicts(Custom, bufferLength, m) == Partial
    ensures Diverges(m) ==> Verdicts(MmpSemp, bufferLength, m) in {Whole, Dropped}
    ensures Verdicts(Custom, bufferLength, m) in {Partial, Whole, Broken}
    ensures Verdicts(Custom, bufferLength, m) == Whole ==> |m| >= 4
  {
  }

  lemma SempChecksum(m: seq<byte>, p: Routine, same: bool)
    requires |m| >= 4 && p.MmpSemp? && same == SempOk(m)
    ensures ChecksumOk(p, m) == same
  {
  }

  lemma OnlyChecksum(cfg: Config, p: Routine, m: seq<byte>, ok: bool)
    requires p.MmpSemp? || (p.Custom? && cfg.badCrc.None?)
    requires ok == ChecksumOk(p, m)
    ensures Passes(cfg, p, m) == ok
  {
  }

  lemma SameDecision(a: Config, b: Config, i: nat, j: nat, m: seq<byte>)
    requires Pair(a, b, i, j) && |m| >= 4
    ensures Decide(b, j, m) == Named(Decide(a, i, m), j)
  {
    var same := SempOk(m);
    CustomTrailer(m);
    SempChecksum(m, MmpSemp, same);
    OnlyChecksum(a, Custom, m, same);
    OnlyChecksum(b, MmpSemp, m, same);
  }

  lemma SameOffer(a: Config, b: Config, i: nat, j: nat, data: byte)
    requires Pair(a, b, i, j)
    ensures SameState(i, j, Offer(a, data), Offer(b, data)) <==> !Foreign(a, i, data) && !Foreign(b, j, data)
  {
    assert Preamble(Custom, data) <==> data == 0xAA;
    assert Preamble(MmpSemp, data) <==> data == 0xAA;
  }

  /** The same verdict has the same effect, but for the byte that is offered after a broken preamble. */
  lemma SameEffect(a: Config, b: Config, i: nat, j: nat, m: seq<byte>, data: byte, v: Verdict)
    requires Pair(a, b, i, j) && m != [] && v in {Partial, Whole, Broken}
    requires Verdicts(a.table[i], a.bufferLength, m + [data]) == v
    requires Verdicts(b.table[j], b.bufferLength, m + [data]) == v
    requires v == Whole ==> Decide(b, j, m + [data]) == Named(Decide(a, i, m + [data]), j)
    ensures Alike(i, j, NextByte(a, i, m, data), NextByte(b, j, m, data))
            <==> (v == Broken ==> SameState(i, j, Offer(a, data), Offer(b, data)))
  {
  }

  lemma OtherEffect(a: Config, b: Config, i: nat, j: nat, m: seq<byte>, data: byte)
    requires Pair(a, b, i, j) && m != []
    requires Verdicts(a.table[i], a.bufferLength, m + [data]) == Partial
    requires Verdicts(b.table[j], b.bufferLength, m + [data]) in {Whole, Dropped}
    ensures !Alike(i, j, NextByte(a, i, m, data), NextByte(b, j, m, data))
  {
  }

  lemma NextMessageByte(a: Config, b: Config, i: nat, j: nat, m: seq<byte>, data: byte)
    requires Pair(a, b, i, j) && 1 <= |m| < a.bufferLength
    ensures Alike(i, j, NextByte(a, i, m, data), NextByte(b, j, m, data))
            <==> !DivergesOn(a, b, i, j, Busy(i, m, NoEnding), data)
  {
    SameVerdict(a.bufferLength, m + [data]);
    if Diverges(m + [data]) {
      OtherEffect(a, b, i, j, m, data);
    } else {
      if |m| >= 3 {
        SameDecision(a, b, i, j, m + [data]);
      }
      SameOffer(a, b, i, j, data);
      SameEffect(a, b, i, j, m, data, Verdicts(Custom, a.bufferLength, m + [data]));
    }
  }

  lemma StepsAgree(a: Config, b: Config, i: nat, j: nat, x: State, y: State, data: byte)
    requires Pair(a, b, i, j) && Proper(a, x) && SameState(i, j, x, y)
    ensures Alike(i, j, Next(a, x, data), Next(b, y, data)) <==> !DivergesOn(a, b, i, j, x, data)
  {
    if x.Idle? || |x.msg| >= a.bufferLength {
      SameOffer(a, b, i, j, data);
    } else {
      NextMessageByte(a, b, i, j, x.msg, data);
    }
  }

  /** The parser with the zero-residue machine reaches a point where the other one parts from it. */
  ghost predicate DivergesAt(a: Config, b: Config, i: nat, j: nat, s: seq<byte>, k: nat)
    requires k < |s|
  {
    DivergesOn(a, b, i, j, Run(a, Idle, s[..k]).state, s[k])
  }

  ghost predicate NeverDiverges(a: Config, b: Config, i: nat, j: nat, s: seq<byte>) {
    forall k | 0 <= k < |s| :: !DivergesAt(a, b, i, j, s, k)
  }

  lemma NeverDivergesBefore(a: Config, b: Config, i: nat, j: nat, s: seq<byte>, n: nat)
    requires n <= |s| && forall k | 0 <= k < n :: !DivergesAt(a, b, i, j, s, k)
    ensures NeverDiverges(a, b, i, j, s[..n])
  {
    forall k | 0 <= k < n ensures !DivergesAt(a, b, i, j, s[..n], k) {
      assert s[..n][..k] == s[..k];
      assert !DivergesAt(a, b, i, j, s, k);
    }
  }

  /** Appending a step keeps the runs alike exactly when the step is. */
  lemma AlikeAppends(i: nat, j: nat, x: Step, y: Step, dx: Step, dy: Step)
    requires Alike(i, j, x, y)
    ensures Alike(i, j, Outcome(dx.state, x.events + dx.events), Outcome(dy.state, y.events + dy.events))
            <==> Alike(i, j, dx, dy)
  {
    assert Renamed(x.events + dx.events, j) == Renamed(x.events, j) + Renamed(dx.events, j);
    assert (y.events + dy.events)[|y.events|..] == dy.events;
    assert (y.events + Renamed(dx.events, j))[|y.events|..] == Renamed(dx.events, j);
  }

  lemma OneByteFurther(a: Config, b: Config, i: nat, j: nat, s: seq<byte>, data: byte)
    requires Pair(a, b, i, j) && Proper(a, Run(a, Idle, s).state) && Alike(i, j, Run(a, Idle, s), Run(b, Idle, s))
    ensures Alike(i, j, Run(a, Idle, s + [data]), Run(b, Idle, s + [data]))
            <==> !DivergesOn(a, b, i, j, Run(a, Idle, s).state, data)
    ensures Proper(a, Run(a, Idle, s + [data]).state)
  {
    var x, y := Run(a, Idle, s), Run(b, Idle, s);
    StepsAgree(a, b, i, j, x.state, y.state, data);
    NextIsProper(a, x.state, data);
    RunAppend(a, Idle, s, data);
    RunAppend(b, Idle, s, data);
    AlikeAppends(i, j, x, y, Next(a, x.state, data), Next(b, y.state, data));
  }

  lemma {:induction false} RunsTogether(a: Config, b: Config, i: nat, j: nat, s: seq<byte>)
    requires Pair(a, b, i, j) && NeverDiverges(a, b, i, j, s)
    ensures Alike(i, j, Run(a, Idle, s), Run(b, Idle, s)) && Proper(a, Run(a, Idle, s).state)
    decreases |s|
  {
    if s == [] {
      assert Run(a, Idle, s) == Outcome(Idle, []) == Run(b, Idle, s);
    } else {
      var n := |s| - 1;
      var s', data := s[..n], s[n];
      assert s == s' + [data];
      assert !DivergesAt(a, b, i, j, s, n);
      NeverDivergesBefore(a, b, i, j, s, n);
      RunsTogether(a, b, i, j, s');
      OneByteFurther(a, b, i, j, s', data);
    }
  }

  /** At the first such point they part: in the state, in what they have decided, or in both. */
  lemma RunsPart(a: Config, b: Config, i: nat, j: nat, s: seq<byte>, k: nat)
    requires Pair(a, b, i, j) && k < |s| && DivergesAt(a, b, i, j, s, k)
    requires forall l | 0 <= l < k :: !DivergesAt(a, b, i, j, s, l)
    ensures !Alike(i, j, Run(a, Idle, s[..k + 1]), Run(b, Idle, s[..k + 1]))
  {
    var s', data := s[..k], s[k];
    assert s[..k + 1] == s' + [data];
    NeverDivergesBefore(a, b, i, j, s, k);
    RunsTogether(a, b, i, j, s');
    OneByteFurther(a, b, i, j, s', data);
  }

  lemma FirstDivergence(a: Config, b: Config, i: nat, j: nat, s: seq<byte>, n: nat) returns (k: nat)
    requires n < |s| && DivergesAt(a, b, i, j, s, n)
    ensures k < |s| && DivergesAt(a, b, i, j, s, k) && forall l | 0 <= l < k :: !DivergesAt(a, b, i, j, s, l)
  {
    var p := (l: int) => 0 <= l < |s| && DivergesAt(a, b, i, j, s, l);
    assert p(n);
    k := First(p, |s|);
    forall l | 0 <= l < k ensures !DivergesAt(a, b, i, j, s, l) {
      assert !p(l);
    }
  }

  /**
   The exact condition, for every stream and any two tables: the parsers do the same after every
   byte of it if and only if no header in it has another length or announces no data, and no byte
   that is offered to the tables is claimed by another protocol of either.
   */
  lemma StreamsAgree(a: Config, b: Config, i: nat, j: nat, s: seq<byte>)
    requires Pair(a, b, i, j)
    ensures (forall n | 0 <= n <= |s| :: Alike(i, j, Run(a, Idle, s[..n]), Run(b, Idle, s[..n])))
            <==> NeverDiverges(a, b, i, j, s)
  {
    if n :| 0 <= n < |s| && DivergesAt(a, b, i, j, s, n) {
      var k := FirstDivergence(a, b, i, j, s, n);
      RunsPart(a, b, i, j, s, k);
    } else {
      forall n | 0 <= n <= |s| ensures Alike(i, j, Run(a, Idle, s[..n]), Run(b, Idle, s[..n])) {
        NeverDivergesBefore(a, b, i, j, s, n);
        RunsTogether(a, b, i, j, s[..n]);
      }
    }
  }

  lemma NoDataReadsOn(bufferLength: nat, f: seq<byte>, k: nat, head: seq<byte>)
    requires MmpSempFrame(f) && CustomLength(f) == 0 && 2 <= k <= |f| && head == f[..k]
    ensures Verdicts(Custom, bufferLength, head) == Partial
  {
  }

  /** A frame without data: one parser passes it on, the other is still reading. */
  lemma WithoutData(a: Config, b: Config, i: nat, j: nat, f: seq<byte>)
    requires Pair(a, b, i, j) && MmpSempFrame(f) && CustomLength(f) == 0 && SempOk(f)
    ensures Run(b, Idle, f) == Outcome(Idle, [Accepted(j, f)])
    ensures Run(a, Idle, f) == Outcome(Busy(i, f, NoEnding), [])
  {
    RunFrame(b, j, f);
    NoDataLive(a, f);
    RunLive(a, i, f);
  }

  lemma NoDataLive(a: Config, f: seq<byte>)
    requires MmpSempFrame(f) && CustomLength(f) == 0
    ensures Live(a, Custom, f)
  {
    forall k | 2 <= k <= |f| ensures ReadsOn(a, Custom, f, k) {
      NoDataReadsOn(a.bufferLength, f, k, f[..k]);
    }
  }
}
