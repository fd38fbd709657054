/** Every frame is read, wherever it stands in the stream, and no input keeps the parser busy for long. */
module Completeness {
  import opened Bytes
  import opened Formats
  import opened Traces
  import opened Stream
  import opened Soundness
  import opened Frames

  // ---------------------------------------------------------------------------------------
  // Reading one message
  // ---------------------------------------------------------------------------------------

  lemma NextReadsOn(cfg: Config, i: nat, m: seq<byte>, data: byte)
    requires cfg.Valid() && i < |cfg.table| && 1 <= |m| < cfg.bufferLength
    requires ReadsOn(cfg, cfg.table[i], m + [data], |m| + 1)
    ensures Next(cfg, Busy(i, m, NoEnding), data) == Outcome(Busy(i, m + [data], NoEnding), [])
  {
    assert (m + [data])[..|m| + 1] == m + [data] && (m + [data])[..|m|] == m;
  }

  /** While the routine reads on, the parser collects the message. */
  lemma {:induction false} RunLive(cfg: Config, i: nat, m: seq<byte>)
    requires cfg.Valid() && i < |cfg.table| && |m| <= cfg.bufferLength
    requires Live(cfg, cfg.table[i], m) && Claim(cfg.table, m[0]) == i
    ensures Run(cfg, Idle, m) == Outcome(Busy(i, m, NoEnding), [])
    decreases |m|
  {
    if |m| == 1 {
      assert m == [m[0]];
      RunOne(cfg, Idle, m[0]);
    } else {
      var m', data := m[..|m| - 1], m[|m| - 1];
      assert m == m' + [data];
      LivePrefix(cfg, cfg.table[i], m, |m| - 1);
      RunLive(cfg, i, m');
      assert ReadsOn(cfg, cfg.table[i], m, |m|);
      NextReadsOn(cfg, i, m', data);
      RunAppend(cfg, Idle, m', data);
    }
  }

  lemma RunComplete(cfg: Config, i: nat, f: seq<byte>, m: seq<byte>)
    requires cfg.Valid() && i < |cfg.table| && 2 <= |f| <= cfg.bufferLength && m == f[..|f| - 1]
    requires !IsSentence(cfg.table[i]) && Complete(cfg, cfg.table[i], f) && Claim(cfg.table, f[0]) == i
    ensures Run(cfg, Idle, f) == Outcome(Idle, [Decide(cfg, i, f)])
  {
    assert f == m + [f[|f| - 1]];
    RunLive(cfg, i, m);
    RunAppend(cfg, Idle, m, f[|f| - 1]);
  }

  lemma RunPrefixes(cfg: Config, i: nat, f: seq<byte>, m: seq<byte>)
    requires cfg.Valid() && i < |cfg.table| && 2 <= |f| <= cfg.bufferLength && m == f[..|f| - 1]
    requires Live(cfg, cfg.table[i], m) && Claim(cfg.table, f[0]) == i
    ensures forall k | 1 <= k < |f| :: Run(cfg, Idle, f[..k]) == Outcome(Busy(i, f[..k], NoEnding), [])
  {
    forall k | 1 <= k < |f| ensures Run(cfg, Idle, f[..k]) == Outcome(Busy(i, f[..k], NoEnding), []) {
      LivePrefix(cfg, cfg.table[i], m, k);
      assert m[..k] == f[..k];
      RunLive(cfg, i, f[..k]);
    }
  }

  /** A frame that fits the buffer is decided on its last byte, whatever its checksum says. */
  lemma RunFrame(cfg: Config, i: nat, f: seq<byte>)
    requires cfg.Valid() && i < |cfg.table| && 2 <= |f| <= cfg.bufferLength
    requires !IsSentence(cfg.table[i]) && Framed(cfg.table[i], cfg.bufferLength, f)
    requires Claim(cfg.table, f[0]) == i
    ensures Run(cfg, Idle, f) == Outcome(Idle, [Decide(cfg, i, f)])
    ensures forall k | 1 <= k < |f| :: Run(cfg, Idle, f[..k]) == Outcome(Busy(i, f[..k], NoEnding), [])
  {
    CompleteIsFramed(cfg, cfg.table[i], f);
    RunComplete(cfg, i, f, f[..|f| - 1]);
    RunPrefixes(cfg, i, f, f[..|f| - 1]);
  }

  /** A sentence is collected up to its last checksum character. */
  lemma RunSentence(cfg: Config, i: nat, m: seq<byte>)
    requires cfg.Valid() && i < |cfg.table| && |m| <= cfg.bufferLength
    requires IsSentence(cfg.table[i]) && Framed(cfg.table[i], cfg.bufferLength, m)
    requires Claim(cfg.table, m[0]) == i
    ensures Run(cfg, Idle, m) == Outcome(Busy(i, m, NoEnding), []) && Ready(cfg.table[i], m)
  {
    CompleteIsFramed(cfg, cfg.table[i], m);
    RunLive(cfg, i, m);
  }

  // ---------------------------------------------------------------------------------------
  // Recovery
  // ---------------------------------------------------------------------------------------

  /** How many more bytes can pass before the parser searches for a preamble again. */
  function Patience(cfg: Config, st: State): int {
    if st.Idle? then 0 else if st.ending.NoEnding? then cfg.bufferLength - |st.msg| + 1 else 1
  }

  lemma PatienceShrinks(cfg: Config, st: State, data: byte)
    requires cfg.Valid() && Proper(cfg, st) && st.Busy?
    ensures var st' := Next(cfg, st, data).state;
            st'.Idle? || st' == Offer(cfg, data) || Patience(cfg, st') < Patience(cfg, st)
    ensures 1 <= Patience(cfg, st) <= cfg.bufferLength
  {
  }

  /** After `k` bytes the search for a preamble has begun anew, at the latest with the `k`th. */
  ghost predicate Searching(cfg: Config, st: State, s: seq<byte>, k: nat)
    requires k <= |s|
  {
    var st' := Run(cfg, st, s[..k]).state;
    st'.Idle? || (k > 0 && st' == Offer(cfg, s[k - 1]))
  }

  lemma SearchingLater(cfg: Config, st: State, s: seq<byte>, st': State, k: nat)
    requires k < |s| && Run(cfg, st, [s[0]]).state == st' && Searching(cfg, st', s[1..], k) && (k == 0 ==> st'.Idle?)
    ensures Searching(cfg, st, s, k + 1)
  {
    RunConcat(cfg, st, [s[0]], s[1..][..k]);
    assert s[..k + 1] == [s[0]] + s[1..][..k];
  }

  /** From every state and for every continuation, within at most `bufferLength` bytes. */
  lemma {:induction false} Recovers(cfg: Config, st: State, s: seq<byte>)
    requires cfg.Valid() && Proper(cfg, st) && |s| >= Patience(cfg, st)
    ensures Patience(cfg, st) <= cfg.bufferLength
    ensures exists k: nat :: k <= Patience(cfg, st) && Searching(cfg, st, s, k)
    decreases Patience(cfg, st)
  {
    if st.Idle? {
      assert Searching(cfg, st, s, 0);
    } else {
      var data, rest := s[0], s[1..];
      PatienceShrinks(cfg, st, data);
      var st' := Next(cfg, st, data).state;
      NextIsProper(cfg, st, data);
      RunOne(cfg, st, data);
      assert s[..1] == [data];
      if st'.Idle? || st' == Offer(cfg, data) {
        assert Searching(cfg, st, s, 1);
      } else {
        Recovers(cfg, st', rest);
        var k: nat :| k <= Patience(cfg, st') && Searching(cfg, st', rest, k);
        SearchingLater(cfg, st, s, st', k);
      }
    }
  }
}
