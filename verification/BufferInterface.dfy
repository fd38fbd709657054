/** How many bytes of a buffer the multi-protocol parser takes before it returns to its caller. */
module BufferInterface {
  import opened Bytes
  import opened Formats
  import opened Traces
  import opened Stream
  import opened Soundness
  import opened Frames
  import opened Completeness
  import opened Demultiplex
  import opened Delivery
  import opened Characters
  import opened MmpState
  import opened MultiProtocolParser

  /** The bytes that a search of the fixed table does not pass over, and the protocols that claim them. */
  lemma FixedClaims(data: byte)
    ensures Claim(MMP_TABLE, data)
            == if data == 0xAA then 0 else if data == Code('$') then 1 else if data == 0xB5 then 2 else 4
  {
    assert MMP_TABLE[1..] == [MmpNmea, MmpUblox, MmpRtcm] && MMP_TABLE[2..] == [MmpUblox, MmpRtcm];
  }

  /** A sentence that has all its characters gets the first byte of its line terminator. */
  predicate EndsLine(cfg: Config, st: State, data: byte) {
    && st.Busy? && st.index < |cfg.table| && |st.msg| < cfg.bufferLength && Ready(cfg.table[st.index], st.msg)
    && (data == Code('\r') || data == Code('\n'))
  }

  /** The reply is negative exactly when the parser is idle again, unless the byte ended a line. */
  lemma ReplyMeans(cfg: Config, st: State, data: byte)
    requires cfg.Valid() && cfg.table == MMP_TABLE && Proper(cfg, st)
    ensures Reply(cfg, st, data) <==> Next(cfg, st, data).state.Busy? || EndsLine(cfg, st, data)
  {
    Delimiters();
  }

  lemma ReplySeen(cfg: Config, st: State, s: seq<byte>, k: nat, mid: State, more: bool)
    requires k < |s| && mid == Run(cfg, st, s[..k]).state && RepliesAt(cfg, st, s, k, more)
    ensures more == Reply(cfg, mid, s[k])
  {
    assert Replies(cfg, mid, s[k], more);
  }

  lemma {:induction false} RunIsProper(cfg: Config, st: State, s: seq<byte>)
    requires cfg.Valid() && Proper(cfg, st)
    ensures Proper(cfg, Run(cfg, st, s).state)
    decreases |s|
  {
    if s != [] {
      var n := |s| - 1;
      assert s == s[..n] + [s[n]];
      RunAppend(cfg, st, s[..n], s[n]);
      NextIsProper(cfg, Run(cfg, st, s[..n]).state, s[n]);
    }
  }

  /** Byte `k` left the parser busy, or ended a line. */
  ghost predicate KeepsReading(cfg: Config, st: State, s: seq<byte>, k: nat)
    requires k < |s|
  {
    Run(cfg, st, s[..k + 1]).state.Busy? || EndsLine(cfg, Run(cfg, st, s[..k]).state, s[k])
  }

  lemma RepliedAt(cfg: Config, st: State, s: seq<byte>, k: nat, more: bool)
    requires cfg.Valid() && cfg.table == MMP_TABLE && Proper(cfg, st) && k < |s| && RepliesAt(cfg, st, s, k, more)
    ensures more == KeepsReading(cfg, st, s, k)
  {
    var mid := Run(cfg, st, s[..k]).state;
    assert s[..k + 1] == s[..k] + [s[k]];
    RunIsProper(cfg, st, s[..k]);
    RunAppend(cfg, st, s[..k], s[k]);
    ReplySeen(cfg, st, s, k, mid, more);
    ReplyMeans(cfg, mid, s[k]);
  }

  /** From every state: the bytes taken are those up to the first that leaves the parser idle and ends no line. */
  lemma TakesUntilIdle(cfg: Config, st: State, s: seq<byte>, n: nat)
    requires cfg.Valid() && cfg.table == MMP_TABLE && Proper(cfg, st) && StopsAt(cfg, st, s, n)
    ensures forall k | 0 <= k < n - 1 :: KeepsReading(cfg, st, s, k)
    ensures 0 < n < |s| ==> !KeepsReading(cfg, st, s, n - 1)
  {
    forall k | 0 <= k < n - 1 ensures KeepsReading(cfg, st, s, k) {
      RepliedAt(cfg, st, s, k, true);
    }
    if 0 < n < |s| {
      RepliedAt(cfg, st, s, n - 1, false);
    }
  }

  /** There is one such number. */
  lemma TakesOnly(cfg: Config, st: State, s: seq<byte>, n: nat, k: nat)
    requires cfg.Valid() && cfg.table == MMP_TABLE && Proper(cfg, st) && StopsAt(cfg, st, s, n) && k < |s|
    requires !KeepsReading(cfg, st, s, k) && forall j | 0 <= j < k :: KeepsReading(cfg, st, s, j)
    ensures n == k + 1
  {
    TakesUntilIdle(cfg, st, s, n);
  }

  lemma ReadsFrame(cfg: Config, i: nat, f: seq<byte>, s: seq<byte>, j: nat)
    requires cfg.Valid() && i < |cfg.table| && 2 <= |f| <= cfg.bufferLength && f <= s && j < |f|
    requires !IsSentence(cfg.table[i]) && Framed(cfg.table[i], cfg.bufferLength, f) && Claim(cfg.table, f[0]) == i
    ensures KeepsReading(cfg, Idle, s, j) <==> j < |f| - 1
  {
    RunFrame(cfg, i, f);
    assert s[..j] == f[..j] && s[..j + 1] == f[..j + 1];
    if j == |f| - 1 {
      assert f[..j + 1] == f;
    } else {
      assert Run(cfg, Idle, f[..j + 1]).state.Busy?;
    }
  }

  /** A SEMP or u-blox frame at the front of the buffer is taken, and nothing behind it. */
  lemma TakesFrame(cfg: Config, i: nat, f: seq<byte>, s: seq<byte>, n: nat)
    requires cfg.Valid() && cfg.table == MMP_TABLE && i < |cfg.table| && 2 <= |f| <= cfg.bufferLength && f <= s
    requires !IsSentence(cfg.table[i]) && Framed(cfg.table[i], cfg.bufferLength, f) && Claim(cfg.table, f[0]) == i
    requires StopsAt(cfg, Idle, s, n)
    ensures n == |f|
  {
    forall j | 0 <= j < |f| - 1 ensures KeepsReading(cfg, Idle, s, j) {
      ReadsFrame(cfg, i, f, s, j);
    }
    ReadsFrame(cfg, i, f, s, |f| - 1);
    TakesOnly(cfg, Idle, s, n, |f| - 1);
  }

  lemma TakesNoise(cfg: Config, s: seq<byte>, n: nat)
    requires cfg.Valid() && cfg.table == MMP_TABLE && s != [] && Claim(MMP_TABLE, s[0]) == 4
    requires StopsAt(cfg, Idle, s, n)
    ensures n == 1
  {
    assert s[..0] == [] && s[..1] == [s[0]];
    assert Run(cfg, Idle, []) == Outcome(Idle, []);
    RunOne(cfg, Idle, s[0]);
    TakesOnly(cfg, Idle, s, n, 0);
  }

  lemma ReadsSentence(cfg: Config, i: nat, m: seq<byte>, s: seq<byte>, j: nat)
    requires cfg.Valid() && i < |cfg.table| && 1 <= |m| < cfg.bufferLength && m <= s && j < |m|
    requires IsSentence(cfg.table[i]) && Framed(cfg.table[i], cfg.bufferLength, m) && Claim(cfg.table, m[0]) == i
    ensures KeepsReading(cfg, Idle, s, j)
  {
    CompleteIsFramed(cfg, cfg.table[i], m);
    LivePrefix(cfg, cfg.table[i], m, j + 1);
    RunLive(cfg, i, m[..j + 1]);
    assert s[..j + 1] == m[..j + 1];
  }

  lemma RunsToLineEnd(cfg: Config, i: nat, m: seq<byte>)
    requires cfg.Valid() && i < |cfg.table| && cfg.table[i].MmpNmea? && 1 <= |m| < cfg.bufferLength
    requires SentenceFrame(cfg.table[i], cfg.bufferLength, m) && Claim(cfg.table, m[0]) == i
    ensures Run(cfg, Idle, m).state == Busy(i, m, NoEnding) && Ready(cfg.table[i], m)
    ensures Run(cfg, Idle, m + [CR]).state == Idle && Run(cfg, Idle, m + CRLF).state == Idle
  {
    RunSentence(cfg, i, m);
    ClosedSentence(cfg, i, m, [CR]);
    RunConcat(cfg, Idle, m, [CR]);
    RefeedSentence(cfg, i, m);
  }

  lemma LineSlices(m: seq<byte>, s: seq<byte>)
    requires m + CRLF <= s
    ensures s[..|m|] == m && s[..|m| + 1] == m + [CR] && s[..|m| + 2] == m + CRLF && s[|m|] == Code('\r')
  {
    assert s[|m|] == (m + CRLF)[|m|] && s[|m| + 1] == (m + CRLF)[|m| + 1];
    Delimiters();
  }

  lemma ReadsLineEnd(cfg: Config, i: nat, m: seq<byte>, s: seq<byte>)
    requires i < |cfg.table| && |m| < cfg.bufferLength && |m| + 2 <= |s| && s[|m|] == Code('\r')
    requires Run(cfg, Idle, s[..|m|]).state == Busy(i, m, NoEnding) && Ready(cfg.table[i], m)
    requires Run(cfg, Idle, s[..|m| + 1]).state == Idle && Run(cfg, Idle, s[..|m| + 2]).state == Idle
    ensures KeepsReading(cfg, Idle, s, |m|) && !KeepsReading(cfg, Idle, s, |m| + 1)
  {
  }

  /** A sentence of the machine, unfolded only where it is used. */
  ghost predicate IsLine(cfg: Config, i: nat, m: seq<byte>) {
    forall t | t == m ::
      && i < |cfg.table| && cfg.table[i].MmpNmea? && 1 <= |t| < cfg.bufferLength
      && SentenceFrame(cfg.table[i], cfg.bufferLength, t) && Claim(cfg.table, t[0]) == i
  }

  lemma ReadsLine(cfg: Config, i: nat, m: seq<byte>, s: seq<byte>, j: nat)
    requires cfg.Valid() && IsLine(cfg, i, m) && m + CRLF <= s && j < |m| + 2
    ensures KeepsReading(cfg, Idle, s, j) <==> j < |m| + 1
  {
    if j < |m| {
      assert m <= s;
      ReadsSentence(cfg, i, m, s, j);
    } else {
      RunsToLineEnd(cfg, i, m);
      LineSlices(m, s);
      ReadsLineEnd(cfg, i, m, s);
    }
  }

  /** A sentence with its CR LF at the front of the buffer is taken, and nothing behind it. */
  lemma TakesSentence(cfg: Config, i: nat, m: seq<byte>, s: seq<byte>, n: nat)
    requires cfg.Valid() && cfg.table == MMP_TABLE && IsLine(cfg, i, m) && m + CRLF <= s && StopsAt(cfg, Idle, s, n)
    ensures n == |m| + 2
  {
    var last := |m| + 1;
    forall j | 0 <= j < last ensures KeepsReading(cfg, Idle, s, j) {
      ReadsLine(cfg, i, m, s, j);
    }
    ReadsLine(cfg, i, m, s, last);
    TakesOnly(cfg, Idle, s, n, last);
  }

  /** What one call takes: a SEMP or u-blox frame, a sentence with its CR LF, or a byte that begins none of them. */
  predicate Portion(bufferLength: nat, f: seq<byte>) {
    || (MmpSempFrame(f) && |f| <= bufferLength)
    || (UbloxFrame(f) && |f| <= bufferLength && f[|f| - 2] == Fletcher(f[2..|f| - 2]).0)
    || (|f| == 1 && f[0] != 0xAA && f[0] != 0xB5 && f[0] != Code('$'))
    || (3 <= |f| < bufferLength + 2 && f[|f| - 2..] == CRLF && SentenceFrame(MmpNmea, bufferLength, f[..|f| - 2]))
  }

  lemma TakesPortion(cfg: Config, f: seq<byte>, s: seq<byte>, n: nat)
    requires cfg.Valid() && cfg.table == MMP_TABLE && Portion(cfg.bufferLength, f) && f <= s
    requires StopsAt(cfg, Idle, s, n)
    ensures n == |f|
  {
    FixedClaims(f[0]);
    if MmpSempFrame(f) {
      TakesFrame(cfg, 0, f, s, n);
    } else if UbloxFrame(f) {
      TakesFrame(cfg, 2, f, s, n);
    } else if |f| == 1 {
      TakesNoise(cfg, s, n);
    } else {
      assert f == f[..|f| - 2] + CRLF;
      SentenceStarts(f[0]);
      TakesSentence(cfg, 1, f[..|f| - 2], s, n);
    }
  }
}
