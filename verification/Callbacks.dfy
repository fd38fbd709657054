/** What the application's callback for bad checksums can change, for every stream: nothing but the decisions. */
module Callbacks {
  import opened Bytes
  import opened Formats
  import opened Stream
  import opened Soundness
  import opened Characters

  /** The machines that ask the callback before they give a message up. */
  ghost predicate Overrulable(p: Routine, m: seq<byte>) {
    || p in {Nmea, Rtcm, Ublox, Custom, Spartn, Sbf, UnicoreBinary, MmpNmea}
    || (p.UnicoreHash? && exists a, b :: Name(m) == a + Text("MODE") + b)
  }

  lemma AskedIsOverrulable(p: Routine, m: seq<byte>)
    requires !p.MmpRtcm?
    ensures AsksBadCrc(p, m) <==> Overrulable(p, m)
  {
    Delimiters();
    ContainsWord(Name(m), Text("MODE"));
  }

  /**
   The same message under the same index in both runs; with the callback it is passed on when it
   is passed on without, and else exactly when its machine asks and the callback does not confirm
   that the checksum is bad.
   */
  ghost predicate Reviewed(cfg: Config, callback: seq<byte> -> bool, plain: Event, asked: Event) {
    && plain.index == asked.index < |cfg.table| && Body(cfg, plain) == Body(cfg, asked)
    && var m := Body(cfg, plain);
    && (asked.Accepted? <==> plain.Accepted? || (Overrulable(cfg.table[plain.index], m) && !callback(m)))
    && (asked.Accepted? == plain.Accepted? ==> asked == plain)
  }

  ghost predicate AllReviewed(cfg: Config, callback: seq<byte> -> bool, plain: seq<Event>, asked: seq<Event>) {
    |plain| == |asked| && forall k | 0 <= k < |plain| :: Reviewed(cfg, callback, plain[k], asked[k])
  }

  lemma DecisionReviewed(cfg: Config, with: Config, callback: seq<byte> -> bool, i: nat, m: seq<byte>)
    requires cfg.badCrc.None? && with == cfg.(badCrc := Some(callback)) && i < |cfg.table| && !cfg.table[i].MmpRtcm?
    ensures Reviewed(cfg, callback, Decide(cfg, i, m), Decide(with, i, m))
  {
    AskedIsOverrulable(cfg.table[i], m);
    assert (m + CRLF)[..|m + CRLF| - 2] == m;
  }

  lemma StepReviewed(cfg: Config, with: Config, callback: seq<byte> -> bool, st: State, data: byte)
    requires cfg.badCrc.None? && with == cfg.(badCrc := Some(callback))
    ensures var a, b := Next(cfg, st, data), Next(with, st, data);
            a.state == b.state && AllReviewed(cfg, callback, a.events, b.events)
  {
    if st.Busy? && Proper(cfg, st) && |st.msg| < cfg.bufferLength {
      if Ready(cfg.table[st.index], st.msg) {
        DecisionReviewed(cfg, with, callback, st.index, st.msg);
      } else if Verdicts(cfg.table[st.index], cfg.bufferLength, st.msg + [data]).Whole? {
        DecisionReviewed(cfg, with, callback, st.index, st.msg + [data]);
      }
    }
  }

  /**
   For every stream: with a callback the parser passes through the same states and makes its
   decisions on the same messages as without one.
   */
  lemma {:induction false} CallbackOnlyReviews(cfg: Config, callback: seq<byte> -> bool, st: State, s: seq<byte>)
    requires cfg.badCrc.None?
    ensures var a, b := Run(cfg, st, s), Run(cfg.(badCrc := Some(callback)), st, s);
            a.state == b.state && AllReviewed(cfg, callback, a.events, b.events)
    decreases |s|
  {
    if s != [] {
      var with, n := cfg.(badCrc := Some(callback)), |s| - 1;
      CallbackOnlyReviews(cfg, callback, st, s[..n]);
      assert s == s[..n] + [s[n]];
      RunAppend(cfg, st, s[..n], s[n]);
      RunAppend(with, st, s[..n], s[n]);
      StepReviewed(cfg, with, callback, Run(cfg, st, s[..n]).state, s[n]);
    }
  }

  /** A callback that always confirms changes nothing. */
  lemma ConfirmingCallback(cfg: Config, st: State, s: seq<byte>)
    requires cfg.badCrc.None?
    ensures Run(cfg.(badCrc := Some(_ => true)), st, s) == Run(cfg, st, s)
  {
    CallbackOnlyReviews(cfg, _ => true, st, s);
    var a, b := Run(cfg, st, s).events, Run(cfg.(badCrc := Some(_ => true)), st, s).events;
    assert forall k | 0 <= k < |a| :: Reviewed(cfg, _ => true, a[k], b[k]);
    assert a == b;
  }
}
