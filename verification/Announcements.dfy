/**
 What a length field announces, and when the machines honour it. Their 16-bit counters are
 decremented before they are tested, so an announcement of too little makes them wrap around.
 */
module Announcements {
  import opened Bytes
  import opened Formats
  import opened Traces
  import opened Stream
  import opened Soundness
  import opened Frames
  import opened Completeness

  predicate HasCounter(p: Routine) {
    p in {Rtcm, Custom, UnicoreBinary, Spartn, Sbf}
  }

  /** The message is as long as its header announces, however little that is. */
  predicate Announced(p: Routine, m: seq<byte>)
    requires HasCounter(p)
  {
    match p
    case Rtcm => |m| >= 6 && m[0] == 0xD3 && m[1] & 0xFC == 0 && |m| == RtcmLength(m) + 6
    case Custom => |m| >= 24 && Starts3(m, 0xAA, 0x44, 0x18) && |m| == CustomLength(m) + 24
    case UnicoreBinary => |m| >= 28 && Starts3(m, 0xAA, 0x44, 0xB5) && |m| == UnicoreLength(m) + 28
    case Spartn =>
      && |m| >= 5 && m[0] == 0x73 && SpartnHeaderOk(m) && |m| >= 4 + SpartnDescription(m)
      && |m| == 4 + SpartnDescription(m) + SpartnPayload(m) + SpartnEmbedded(m) + SpartnCrcBytes(m)
    case Sbf => |m| >= 8 && m[0] == 0x24 && m[1] == 0x40 && |m| == LittleEndian16(m[6], m[7]) && |m| % 4 == 0
  }

  /** The header announces as much as the counter needs. */
  predicate Enough(p: Routine, m: seq<byte>)
    requires HasCounter(p) && Announced(p, m)
  {
    match p
    case Rtcm => RtcmLength(m) >= 3
    case Custom => CustomLength(m) >= 1
    case UnicoreBinary => UnicoreLength(m) >= 1
    case Spartn => SpartnPayload(m) >= 1
    case Sbf => LittleEndian16(m[6], m[7]) >= 12
  }

  lemma EnoughIsFramed(p: Routine, bufferLength: nat, m: seq<byte>)
    requires HasCounter(p) && Announced(p, m)
    ensures Enough(p, m) <==> Framed(p, bufferLength, m)
  {
  }

  // ---------------------------------------------------------------------------------------
  // Too little
  // ---------------------------------------------------------------------------------------

  lemma PrefixReadsOn(p: Routine, bufferLength: nat, m: seq<byte>, k: nat, head: seq<byte>)
    requires HasCounter(p) && !p.Spartn? && Announced(p, m) && !Enough(p, m) && 2 <= k <= |m| && head == m[..k]
    ensures Verdicts(p, bufferLength, head) == Partial
  {
  }

  lemma SpartnPrefixReadsOn(m: seq<byte>, k: nat, head: seq<byte>)
    requires Announced(Spartn, m) && SpartnPayload(m) == 0 && 2 <= k <= |m| && head == m[..k]
    ensures SpartnVerdict(head) == Partial
  {
    if k >= 5 {
      SpartnPrefix(m, k);
    } else if k == 4 {
      SpartnHeaderPrefix(m, head);
    }
  }

  lemma TooLittleIsLive(cfg: Config, p: Routine, m: seq<byte>)
    requires HasCounter(p) && Announced(p, m) && !Enough(p, m)
    ensures Live(cfg, p, m)
  {
    forall k | 2 <= k <= |m| ensures ReadsOn(cfg, p, m, k) {
      if p.Spartn? {
        SpartnPrefixReadsOn(m, k, m[..k]);
      } else {
        PrefixReadsOn(p, cfg.bufferLength, m, k, m[..k]);
      }
    }
  }

  /**
   The exact condition: a message that is as long as its header announces is decided on at its
   last byte if and only if the header announces enough. Otherwise the parser is still reading.
   */
  lemma AnnouncedIsDecided(cfg: Config, i: nat, f: seq<byte>)
    requires cfg.Valid() && i < |cfg.table| && |f| <= cfg.bufferLength
    requires HasCounter(cfg.table[i]) && Announced(cfg.table[i], f) && Claim(cfg.table, f[0]) == i
    ensures Run(cfg, Idle, f)
            == if Enough(cfg.table[i], f) then Outcome(Idle, [Decide(cfg, i, f)]) else Outcome(Busy(i, f, NoEnding), [])
  {
    EnoughIsFramed(cfg.table[i], cfg.bufferLength, f);
    if Enough(cfg.table[i], f) {
      RunFrame(cfg, i, f);
    } else {
      TooLittleIsLive(cfg, cfg.table[i], f);
      RunLive(cfg, i, f);
    }
  }
}
