/**
 The frame formats read declaratively, and the proof that they are exactly what the parse
 routines take for complete messages: no shorter, no longer, and never with a counter that
 wrapped around.
 */
module Frames {
  import opened Bytes
  import opened Formats
  import opened Stream
  import opened Soundness

  predicate Starts3(m: seq<byte>, a: byte, b: byte, c: byte) {
    |m| >= 3 && m[0] == a && m[1] == b && m[2] == c
  }

  predicate RtcmFrame(m: seq<byte>) {
    |m| >= 9 && m[0] == 0xD3 && m[1] & 0xFC == 0 && |m| == RtcmLength(m) + 6
  }

  predicate UbloxFrame(m: seq<byte>) {
    |m| >= 8 && m[0] == 0xB5 && m[1] == 0x62 && |m| == LittleEndian16(m[4], m[5]) + 8
  }

  predicate CustomFrame(m: seq<byte>) {
    |m| >= 25 && Starts3(m, 0xAA, 0x44, 0x18) && |m| == CustomLength(m) + 24
  }

  predicate UnicoreFrame(m: seq<byte>) {
    |m| >= 29 && Starts3(m, 0xAA, 0x44, 0xB5) && |m| == UnicoreLength(m) + 28
  }

  /** Unlike the custom machine, the multi-protocol parser takes frames without data but only one header length. */
  predicate MmpSempFrame(m: seq<byte>) {
    |m| >= 24 && Starts3(m, 0xAA, 0x44, 0x18) && m[3] == 0x14 && |m| == CustomLength(m) + 24
  }

  predicate SpartnFrame(m: seq<byte>) {
    && |m| >= 5 && m[0] == 0x73 && SpartnHeaderOk(m)
    && |m| >= 4 + SpartnDescription(m) && SpartnPayload(m) >= 1
    && |m| == 4 + SpartnDescription(m) + SpartnPayload(m) + SpartnEmbedded(m) + SpartnCrcBytes(m)
  }

  predicate SbfSized(m: seq<byte>, length: nat) {
    |m| >= 12 && m[0] == 0x24 && m[1] == 0x40 && |m| == length && length % 4 == 0
  }

  predicate SbfFrame(m: seq<byte>) {
    |m| >= 12 && SbfSized(m, LittleEndian16(m[6], m[7]))
  }

  /** Preamble, 1 to 15 name characters, comma, body, asterisk, checksum characters, with room left in the buffer. */
  predicate SentenceFrame(p: Routine, bufferLength: nat, m: seq<byte>) {
    var comma, star := Find(m, COMMA), Find(m, STAR);
    && m != [] && Preamble(p, m[0])
    && 2 <= comma <= 16 && comma < star < |m|
    && |m| == star + 1 + ChecksumChars(p, m)
    && (forall j | 1 <= j < comma :: IsNameChar(m[j]))
    && (forall j | star < j < |m| :: IsNibble(m[j]))
    && star + Overhead(p) <= bufferLength
  }

  predicate Framed(p: Routine, bufferLength: nat, m: seq<byte>) {
    match p
    case Rtcm => RtcmFrame(m)
    case Ublox => UbloxFrame(m)
    case MmpUblox => UbloxFrame(m) && m[|m| - 2] == Fletcher(m[2..|m| - 2]).0
    case Custom => CustomFrame(m)
    case UnicoreBinary => UnicoreFrame(m)
    case MmpSemp => MmpSempFrame(m)
    case Spartn => SpartnFrame(m)
    case Sbf => SbfFrame(m)
    case MmpRtcm => false
    case _ => SentenceFrame(p, bufferLength, m)
  }

  // ---------------------------------------------------------------------------------------
  // Binary formats
  // ---------------------------------------------------------------------------------------

  /** The routine reads every proper prefix but the first byte. */
  ghost predicate AllPartial(p: Routine, bufferLength: nat, m: seq<byte>) {
    forall k | 2 <= k < |m| :: Verdicts(p, bufferLength, m[..k]) == Partial
  }

  lemma BinaryComplete(cfg: Config, p: Routine, m: seq<byte>)
    requires !IsSentence(p) && |m| >= 2
    ensures Complete(cfg, p, m) <==>
            && Preamble(p, m[0])
            && AllPartial(p, cfg.bufferLength, m)
            && Verdicts(p, cfg.bufferLength, m) == Whole
  {
    var m' := m[..|m| - 1];
    forall k | 2 <= k <= |m'| ensures ReadsOn(cfg, p, m', k) <==> Verdicts(p, cfg.bufferLength, m[..k]) == Partial {
      assert m'[..k] == m[..k];
    }
    if Complete(cfg, p, m) {
      forall k | 2 <= k < |m| ensures Verdicts(p, cfg.bufferLength, m[..k]) == Partial {
        assert ReadsOn(cfg, p, m', k);
      }
    }
  }

  lemma RtcmComplete(bufferLength: nat, m: seq<byte>)
    requires 2 <= |m| <= 65535
    ensures RtcmFrame(m) <==>
            m[0] == 0xD3 && AllPartial(Rtcm, bufferLength, m) && RtcmVerdict(m) == Whole
  {
    if AllPartial(Rtcm, bufferLength, m) && |m| >= 4 {
      assert Verdicts(Rtcm, bufferLength, m[..2]) == Partial;
      assert Verdicts(Rtcm, bufferLength, m[..|m| - 1]) == Partial;
    }
  }

  lemma UbloxComplete(bufferLength: nat, m: seq<byte>)
    requires 2 <= |m| <= 65535
    ensures UbloxFrame(m) <==>
            m[0] == 0xB5 && AllPartial(Ublox, bufferLength, m) && UbloxVerdict(m) == Whole
  {
    if AllPartial(Ublox, bufferLength, m) && |m| >= 7 {
      assert Verdicts(Ublox, bufferLength, m[..2]) == Partial;
      assert Verdicts(Ublox, bufferLength, m[..|m| - 1]) == Partial;
    }
  }

  lemma CustomComplete(bufferLength: nat, m: seq<byte>)
    requires 2 <= |m| <= 65535
    ensures CustomFrame(m) <==>
            m[0] == 0xAA && AllPartial(Custom, bufferLength, m) && Verdicts(Custom, bufferLength, m) == Whole
  {
    if AllPartial(Custom, bufferLength, m) && |m| >= 21 {
      assert Verdicts(Custom, bufferLength, m[..2]) == Partial;
      assert Verdicts(Custom, bufferLength, m[..3]) == Partial;
      assert Verdicts(Custom, bufferLength, m[..|m| - 1]) == Partial;
    }
  }

  lemma UnicoreComplete(bufferLength: nat, m: seq<byte>)
    requires 2 <= |m| <= 65535
    ensures UnicoreFrame(m) <==>
            m[0] == 0xAA && AllPartial(UnicoreBinary, bufferLength, m)
                && Verdicts(UnicoreBinary, bufferLength, m) == Whole
  {
    if AllPartial(UnicoreBinary, bufferLength, m) && |m| >= 25 {
      assert Verdicts(UnicoreBinary, bufferLength, m[..2]) == Partial;
      assert Verdicts(UnicoreBinary, bufferLength, m[..3]) == Partial;
      assert Verdicts(UnicoreBinary, bufferLength, m[..|m| - 1]) == Partial;
    }
  }

  lemma MmpSempComplete(bufferLength: nat, m: seq<byte>)
    requires 2 <= |m| <= 65535
    ensures MmpSempFrame(m) <==>
            m[0] == 0xAA && AllPartial(MmpSemp, bufferLength, m) && MmpSempVerdict(m) == Whole
  {
    if AllPartial(MmpSemp, bufferLength, m) && |m| >= 21 {
      assert Verdicts(MmpSemp, bufferLength, m[..2]) == Partial;
      assert Verdicts(MmpSemp, bufferLength, m[..3]) == Partial;
      assert Verdicts(MmpSemp, bufferLength, m[..20]) == Partial;
      assert Verdicts(MmpSemp, bufferLength, m[..|m| - 1]) == Partial;
    }
  }

  lemma SbfComplete(bufferLength: nat, m: seq<byte>)
    requires 2 <= |m| <= 65535
    ensures SbfFrame(m) <==>
            m[0] == 0x24 && AllPartial(Sbf, bufferLength, m) && SbfVerdict(m) == Whole
  {
    if AllPartial(Sbf, bufferLength, m) && |m| >= 9 {
      assert Verdicts(Sbf, bufferLength, m[..2]) == Partial;
      assert Verdicts(Sbf, bufferLength, m[..8]) == Partial;
      assert Verdicts(Sbf, bufferLength, m[..|m| - 1]) == Partial;
    }
  }

  /** The header fields of a prefix are those of the message. */
  lemma SpartnPrefix(m: seq<byte>, k: nat)
    requires 5 <= k <= |m|
    ensures SpartnDescription(m[..k]) == SpartnDescription(m)
    ensures SpartnHeaderOk(m[..k]) == SpartnHeaderOk(m)
    ensures k >= 4 + SpartnDescription(m) ==> SpartnSize(m[..k]) == SpartnSize(m)
  {
  }

  lemma SpartnHeaderPrefix(m: seq<byte>, head: seq<byte>)
    requires |m| >= 4 && head == m[..4]
    ensures SpartnHeaderOk(head) == SpartnHeaderOk(m)
  {
  }

  lemma SpartnReadsOn(m: seq<byte>, k: nat, head: seq<byte>)
    requires SpartnFrame(m) && 2 <= k < |m| && head == m[..k]
    ensures SpartnVerdict(head) == Partial
  {
    if k >= 5 {
      SpartnPrefix(m, k);
    } else if k == 4 {
      SpartnHeaderPrefix(m, head);
    }
  }

  lemma SpartnIsFrame(bufferLength: nat, m: seq<byte>)
    requires 2 <= |m| <= 65535 && m[0] == 0x73 && AllPartial(Spartn, bufferLength, m) && SpartnVerdict(m) == Whole
    ensures SpartnFrame(m)
  {
    assert Verdicts(Spartn, bufferLength, m[..4]) == Partial;
    SpartnHeaderPrefix(m, m[..4]);
    if |m| >= 6 {
      assert Verdicts(Spartn, bufferLength, m[..|m| - 1]) == Partial;
      SpartnPrefix(m, |m| - 1);
    }
  }

  lemma SpartnComplete(bufferLength: nat, m: seq<byte>)
    requires 2 <= |m| <= 65535
    ensures SpartnFrame(m) <==>
            m[0] == 0x73 && AllPartial(Spartn, bufferLength, m) && SpartnVerdict(m) == Whole
  {
    if SpartnFrame(m) {
      forall k | 2 <= k < |m| ensures Verdicts(Spartn, bufferLength, m[..k]) == Partial {
        SpartnReadsOn(m, k, m[..k]);
      }
    }
    if m[0] == 0x73 && AllPartial(Spartn, bufferLength, m) && SpartnVerdict(m) == Whole {
      SpartnIsFrame(bufferLength, m);
    }
  }

  /** What the first checksum byte decides, one byte early. */
  lemma MmpUbloxEarly(m: seq<byte>, k: nat)
    requires 6 <= k <= |m|
    ensures MmpUbloxVerdict(m[..k]) ==
            if k == UbloxSize(m) - 1 && m[k - 1] != Fletcher(m[2..k - 1]).0 then Failed else UbloxVerdict(m[..k])
  {
    assert m[..k][2..k - 1] == m[2..k - 1];
  }

  lemma MmpUbloxComplete(bufferLength: nat, m: seq<byte>)
    requires 2 <= |m| <= 65535
    ensures UbloxFrame(m) && m[|m| - 2] == Fletcher(m[2..|m| - 2]).0 <==>
            m[0] == 0xB5 && AllPartial(MmpUblox, bufferLength, m) && MmpUbloxVerdict(m) == Whole
  {
    if UbloxFrame(m) && m[|m| - 2] == Fletcher(m[2..|m| - 2]).0 {
      forall k | 2 <= k < |m| ensures Verdicts(MmpUblox, bufferLength, m[..k]) == Partial {
        if k >= 6 { MmpUbloxEarly(m, k); }
      }
      assert m[..|m|] == m;
      MmpUbloxEarly(m, |m|);
    }
    if m[0] == 0xB5 && AllPartial(MmpUblox, bufferLength, m) && MmpUbloxVerdict(m) == Whole {
      assert |m| >= 8;
      assert Verdicts(MmpUblox, bufferLength, m[..2]) == Partial;
      assert Verdicts(MmpUblox, bufferLength, m[..|m| - 1]) == Partial;
      MmpUbloxEarly(m, |m| - 1);
    }
  }

  // ---------------------------------------------------------------------------------------
  // Sentences
  // ---------------------------------------------------------------------------------------

  lemma FindPrefix(m: seq<byte>, b: byte, k: nat)
    requires k <= |m|
    ensures Find(m[..k], b) == if Find(m, b) < k then Find(m, b) else k
  {
    var i, j := Find(m, b), Find(m[..k], b);
    if j < k {
      assert m[j] == b;
    }
  }

  /** Once the comma is read, the number of checksum characters is fixed. */
  lemma ChecksumCharsPrefix(p: Routine, m: seq<byte>, k: nat)
    requires Find(m, COMMA) < k <= |m|
    ensures ChecksumChars(p, m[..k]) == ChecksumChars(p, m)
  {
    FindPrefix(m, COMMA, k);
    assert Name(m[..k]) == Name(m);
  }

  /** The verdict on a prefix, in terms of the commas and asterisks of the message. */
  lemma SentencePrefix(p: Routine, bufferLength: nat, m: seq<byte>, k: nat)
    requires IsSentence(p) && 2 <= k <= |m|
    ensures var comma, star := Find(m, COMMA), Find(m, STAR);
            Verdicts(p, bufferLength, m[..k]) ==
            if comma >= k then (if IsNameChar(m[k - 1]) && k <= 16 then Partial else Broken)
            else if comma == 1 then Broken
            else if comma == k - 1 || star == k - 1 then Partial
            else if star >= k then (if k + Overhead(p) <= bufferLength then Partial else Broken)
            else if IsNibble(m[k - 1]) then Partial
            else Broken
  {
    FindPrefix(m, COMMA, k);
    FindPrefix(m, STAR, k);
  }

  lemma StarIsNoNameChar(data: byte)
    ensures data == STAR ==> !IsNameChar(data)
  {
  }

  lemma PreambleIsNoDelimiter(p: Routine, data: byte)
    requires IsSentence(p) && Preamble(p, data)
    ensures data != STAR && data != COMMA
  {
  }

  lemma SentenceNotReady(p: Routine, bufferLength: nat, m: seq<byte>, k: nat)
    requires IsSentence(p) && SentenceFrame(p, bufferLength, m) && 1 <= k < |m|
    ensures !Ready(p, m[..k])
  {
    FindPrefix(m, STAR, k);
    if Find(m, STAR) < k {
      ChecksumCharsPrefix(p, m, k);
    }
  }

  /** What reading on to position `k` says about the byte before it. */
  predicate LiveByte(p: Routine, bufferLength: nat, comma: nat, star: nat, k: nat, data: byte) {
    && (comma >= k ==> IsNameChar(data) && k <= 16)
    && (comma < k ==> comma != 1)
    && (comma < k - 1 && star >= k ==> k + Overhead(p) <= bufferLength)
    && (comma < k - 1 && star < k - 1 ==> IsNibble(data))
  }

  lemma FrameByte(p: Routine, bufferLength: nat, m: seq<byte>, k: nat)
    requires IsSentence(p) && SentenceFrame(p, bufferLength, m) && 2 <= k <= |m|
    ensures LiveByte(p, bufferLength, Find(m, COMMA), Find(m, STAR), k, m[k - 1])
  {
  }

  lemma SentenceReadsOn(cfg: Config, p: Routine, m: seq<byte>, k: nat)
    requires IsSentence(p) && SentenceFrame(p, cfg.bufferLength, m) && 2 <= k <= |m|
    ensures ReadsOn(cfg, p, m, k)
  {
    assert Verdicts(p, cfg.bufferLength, m[..k]) == Partial by {
      FrameByte(p, cfg.bufferLength, m, k);
      SentencePrefix(p, cfg.bufferLength, m, k);
    }
    SentenceNotReady(p, cfg.bufferLength, m, k - 1);
  }

  lemma LiveAt(cfg: Config, p: Routine, m: seq<byte>, k: nat, comma: nat, star: nat)
    requires IsSentence(p) && Live(cfg, p, m) && 2 <= k <= |m|
    requires comma == Find(m, COMMA) && star == Find(m, STAR)
    ensures LiveByte(p, cfg.bufferLength, comma, star, k, m[k - 1])
  {
    assert ReadsOn(cfg, p, m, k);
    SentencePrefix(p, cfg.bufferLength, m, k);
  }

  lemma LiveStart(cfg: Config, p: Routine, m: seq<byte>)
    requires IsSentence(p) && Live(cfg, p, m)
    ensures m[0] != STAR && m[0] != COMMA
  {
    PreambleIsNoDelimiter(p, m[0]);
  }

  lemma StarAfterComma(m: seq<byte>, comma: nat, star: nat)
    requires comma == Find(m, COMMA) && star == Find(m, STAR) && star < |m|
    requires m[0] != STAR && m[0] != COMMA
    requires comma > star ==> IsNameChar(m[star])
    ensures 1 <= comma < star
  {
    StarIsNoNameChar(m[star]);
  }

  lemma CommaBeforeStar(cfg: Config, p: Routine, m: seq<byte>, comma: nat, star: nat)
    requires IsSentence(p) && Live(cfg, p, m)
    requires comma == Find(m, COMMA) && star == Find(m, STAR) && star < |m|
    ensures 1 <= comma < star
  {
    LiveStart(cfg, p, m);
    LiveAt(cfg, p, m, star + 1, comma, star);
    StarAfterComma(m, comma, star);
  }

  lemma LiveName(cfg: Config, p: Routine, m: seq<byte>, comma: nat, star: nat)
    requires IsSentence(p) && Live(cfg, p, m)
    requires comma == Find(m, COMMA) && star == Find(m, STAR) && star < |m|
    ensures 2 <= comma <= 16 && comma < star
    ensures forall j | 1 <= j < comma :: IsNameChar(m[j])
  {
    CommaBeforeStar(cfg, p, m, comma, star);
    LiveAt(cfg, p, m, comma + 1, comma, star);
    LiveAt(cfg, p, m, comma, comma, star);
    forall j | 1 <= j < comma ensures IsNameChar(m[j]) {
      LiveAt(cfg, p, m, j + 1, comma, star);
    }
  }

  lemma LiveSentence(cfg: Config, p: Routine, m: seq<byte>)
    requires cfg.Valid() && IsSentence(p) && Live(cfg, p, m) && Ready(p, m)
    ensures SentenceFrame(p, cfg.bufferLength, m)
  {
    var comma, star := Find(m, COMMA), Find(m, STAR);
    LiveName(cfg, p, m, comma, star);
    forall j | star < j < |m| ensures IsNibble(m[j]) {
      LiveAt(cfg, p, m, j + 1, comma, star);
    }
    if star > comma + 1 {
      LiveAt(cfg, p, m, star, comma, star);
    }
  }

  lemma SentenceComplete(cfg: Config, p: Routine, m: seq<byte>)
    requires cfg.Valid() && IsSentence(p)
    ensures Complete(cfg, p, m) <==> SentenceFrame(p, cfg.bufferLength, m)
  {
    if SentenceFrame(p, cfg.bufferLength, m) {
      forall k | 2 <= k <= |m| ensures ReadsOn(cfg, p, m, k) {
        SentenceReadsOn(cfg, p, m, k);
      }
    }
    if Complete(cfg, p, m) {
      LiveSentence(cfg, p, m);
    }
  }

  /** The routines take for complete exactly the frames of their formats. */
  lemma CompleteIsFramed(cfg: Config, p: Routine, m: seq<byte>)
    requires cfg.Valid() && |m| <= cfg.bufferLength
    ensures Complete(cfg, p, m) <==> Framed(p, cfg.bufferLength, m)
  {
    if IsSentence(p) {
      SentenceComplete(cfg, p, m);
    } else if |m| >= 2 {
      BinaryComplete(cfg, p, m);
      match p
      case Rtcm => RtcmComplete(cfg.bufferLength, m);
      case Ublox => UbloxComplete(cfg.bufferLength, m);
      case MmpUblox => MmpUbloxComplete(cfg.bufferLength, m);
      case Custom => CustomComplete(cfg.bufferLength, m);
      case UnicoreBinary => UnicoreComplete(cfg.bufferLength, m);
      case MmpSemp => MmpSempComplete(cfg.bufferLength, m);
      case Spartn => SpartnComplete(cfg.bufferLength, m);
      case Sbf => SbfComplete(cfg.bufferLength, m);
      case MmpRtcm =>
    }
  }
}
