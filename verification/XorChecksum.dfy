/** The two-character checksum of a sentence, bit by bit, and exactly which damage it notices. */
module XorChecksum {
  import opened Bytes
  import opened Formats
  import opened Traces
  import opened Stream
  import opened Frames
  import opened Delivery

  const BITS: seq<byte> := [1, 2, 4, 8, 16, 32, 64, 128]

  /** How many bytes have the bit set. */
  function Having(s: seq<byte>, bit: byte): nat {
    if s == [] then 0 else Having(s[..|s| - 1], bit) + (if s[|s| - 1] & bit == 0 then 0 else 1)
  }

  lemma BitOfXor(a: byte, b: byte, bit: byte)
    requires bit in BITS
    ensures (a ^ b) & bit == 0 <==> (a & bit == 0 <==> b & bit == 0)
  {
  }

  /** Every bit of the checksum is the parity of that bit over all bytes. */
  lemma {:induction false} XorIsParity(s: seq<byte>, bit: byte)
    requires bit in BITS
    ensures XorAll(s) & bit == 0 <==> Having(s, bit) % 2 == 0
    decreases |s|
  {
    if s != [] {
      XorIsParity(s[..|s| - 1], bit);
      BitOfXor(XorAll(s[..|s| - 1]), s[|s| - 1], bit);
    }
  }

  lemma SameByte(x: byte, y: byte)
    requires forall k | 0 <= k < 8 :: x & BITS[k] == 0 <==> y & BITS[k] == 0
    ensures x == y
  {
    assert x & BITS[0] == 0 <==> y & BITS[0] == 0;
    assert x & BITS[1] == 0 <==> y & BITS[1] == 0;
    assert x & BITS[2] == 0 <==> y & BITS[2] == 0;
    assert x & BITS[3] == 0 <==> y & BITS[3] == 0;
    assert x & BITS[4] == 0 <==> y & BITS[4] == 0;
    assert x & BITS[5] == 0 <==> y & BITS[5] == 0;
    assert x & BITS[6] == 0 <==> y & BITS[6] == 0;
    assert x & BITS[7] == 0 <==> y & BITS[7] == 0;
  }

  /** Each bit is set in both, or in neither, an odd number of times. */
  ghost predicate SameParity(s: seq<byte>, t: seq<byte>) {
    forall k | 0 <= k < 8 :: Having(s, BITS[k]) % 2 == Having(t, BITS[k]) % 2
  }

  lemma ParityOf(s: seq<byte>, t: seq<byte>, x: byte, y: byte, bit: byte)
    requires bit in BITS && x == XorAll(s) && y == XorAll(t)
    ensures (x & bit == 0 <==> y & bit == 0) <==> Having(s, bit) % 2 == Having(t, bit) % 2
  {
    XorIsParity(s, bit);
    XorIsParity(t, bit);
  }

  lemma SameChecksum(s: seq<byte>, t: seq<byte>, x: byte, y: byte)
    requires SameParity(s, t) && x == XorAll(s) && y == XorAll(t)
    ensures x == y
  {
    forall k | 0 <= k < 8 ensures x & BITS[k] == 0 <==> y & BITS[k] == 0 {
      ParityOf(s, t, x, y, BITS[k]);
    }
    SameByte(x, y);
  }

  /** Two texts have the same checksum exactly when every bit has the same parity in both. */
  lemma SameXor(s: seq<byte>, t: seq<byte>)
    ensures XorAll(s) == XorAll(t) <==> SameParity(s, t)
  {
    var x, y := XorAll(s), XorAll(t);
    if SameParity(s, t) {
      SameChecksum(s, t, x, y);
    }
    if x == y {
      forall k | 0 <= k < 8 ensures Having(s, BITS[k]) % 2 == Having(t, BITS[k]) % 2 {
        ParityOf(s, t, x, y, BITS[k]);
      }
    }
  }

  lemma XorSlides(a: byte, b: byte, c: byte)
    ensures (a ^ b) ^ c == a ^ (b ^ c)
    ensures a ^ 0 == a
    ensures a ^ b == a ^ c ==> b == c
  {
  }

  lemma {:induction false} XorConcat(s: seq<byte>, t: seq<byte>)
    ensures XorAll(s + t) == XorAll(s) ^ XorAll(t)
    decreases |t|
  {
    if t == [] {
      assert s + t == s;
      XorSlides(XorAll(s), 0, 0);
    } else {
      var t' := t[..|t| - 1];
      assert (s + t)[..|s + t| - 1] == s + t';
      XorConcat(s, t');
      XorSlides(XorAll(s), XorAll(t'), t[|t| - 1]);
    }
  }

  // ---------------------------------------------------------------------------------------
  // Damaged sentences
  // ---------------------------------------------------------------------------------------

  /** What the checksum of a sentence covers: the text between the preamble and the asterisk. */
  function Covered(m: seq<byte>): seq<byte> {
    if 1 <= Find(m, STAR) then m[1..Find(m, STAR)] else []
  }

  /** Two sentences of one machine that end in the same two checksum characters. */
  ghost predicate SameDigits(p: Routine, bufferLength: nat, f: seq<byte>, g: seq<byte>) {
    && IsSentence(p) && SentenceFrame(p, bufferLength, f) && SentenceFrame(p, bufferLength, g)
    && ChecksumChars(p, f) == 2 && ChecksumChars(p, g) == 2
    && f[|f| - 2] == g[|g| - 2] && f[|f| - 1] == g[|g| - 1]
  }

  /** The number that the checksum characters spell. */
  function Spelt(m: seq<byte>): int {
    if |m| < 2 then 0 else 16 * AsciiToNibble(m[|m| - 2]) + AsciiToNibble(m[|m| - 1])
  }

  lemma DigitsSay(p: Routine, bufferLength: nat, m: seq<byte>, x: byte)
    requires IsSentence(p) && SentenceFrame(p, bufferLength, m) && ChecksumChars(p, m) == 2 && x == XorAll(Covered(m))
    ensures ChecksumOk(p, m) <==> Spelt(m) == x as int
  {
  }

  lemma DigitsCompare(p: Routine, bufferLength: nat, f: seq<byte>, g: seq<byte>)
    requires SameDigits(p, bufferLength, f, g) && ChecksumOk(p, f)
    ensures ChecksumOk(p, g) <==> XorAll(Covered(f)) == XorAll(Covered(g))
  {
    var x, y := XorAll(Covered(f)), XorAll(Covered(g));
    DigitsSay(p, bufferLength, f, x);
    DigitsSay(p, bufferLength, g, y);
    SameNumber(x, y);
  }

  lemma SameNumber(x: byte, y: byte)
    ensures x as int == y as int <==> x == y
  {
  }

  /**
   A sentence whose text was changed in any way, with the checksum characters of the original: it
   is passed on if and only if every bit kept its parity.
   */
  lemma DamagedSentence(cfg: Config, i: nat, f: seq<byte>, g: seq<byte>)
    requires cfg.Valid() && cfg.badCrc.None? && i < |cfg.table| && SameDigits(cfg.table[i], cfg.bufferLength, f, g)
    requires |g| < cfg.bufferLength && Claim(cfg.table, g[0]) == i && ChecksumOk(cfg.table[i], f)
    ensures Run(cfg, Idle, g + CRLF)
            == Outcome(Idle, [if SameParity(Covered(f), Covered(g)) then Accepted(i, g + CRLF) else Rejected(i, g)])
  {
    RefeedSentence(cfg, i, g);
    DigitsCompare(cfg.table[i], cfg.bufferLength, f, g);
    SameXor(Covered(f), Covered(g));
  }

  lemma ChangeOfXor(a: seq<byte>, x: byte, y: byte, b: seq<byte>)
    requires x != y
    ensures XorAll(a + [x] + b) != XorAll(a + [y] + b)
  {
    XorConcat(a + [x], b);
    XorConcat(a + [y], b);
    XorConcat(a, [x]);
    XorConcat(a, [y]);
    XorOfOne(x);
    XorOfOne(y);
    StaysApart(XorAll(a), x, y, XorAll(b));
  }

  lemma XorOfOne(x: byte)
    ensures XorAll([x]) == x
  {
    assert [x][..0] == [];
  }

  lemma StaysApart(a: byte, x: byte, y: byte, b: byte)
    requires x != y
    ensures (a ^ x) ^ b != (a ^ y) ^ b
  {
  }

  lemma ChangedSlice(f: seq<byte>, g: seq<byte>, k: nat, star: nat, data: byte)
    requires 1 <= k < star <= |f| - 2 && data != f[k] && g == f[k := data]
    ensures XorAll(f[1..star]) != XorAll(g[1..star])
    ensures |g| == |f| && f[|f| - 2] == g[|g| - 2] && f[|f| - 1] == g[|g| - 1]
  {
    assert f[1..star] == f[1..k] + [f[k]] + f[k + 1..star];
    assert g[1..star] == f[1..k] + [data] + f[k + 1..star];
    ChangeOfXor(f[1..k], f[k], data, f[k + 1..star]);
  }

  lemma TwoDigits(p: Routine, bufferLength: nat, m: seq<byte>)
    requires p in {Nmea, MmpNmea} && SentenceFrame(p, bufferLength, m)
    ensures IsSentence(p) && ChecksumChars(p, m) == 2 && Find(m, STAR) == |m| - 3 && |m| >= 4
    ensures Covered(m) == m[1..|m| - 3]
  {
  }

  lemma ChangedText(p: Routine, bufferLength: nat, f: seq<byte>, g: seq<byte>)
    requires p in {Nmea, MmpNmea} && SentenceFrame(p, bufferLength, f) && SentenceFrame(p, bufferLength, g)
    requires |f| == |g| && f[|f| - 2] == g[|g| - 2] && f[|f| - 1] == g[|g| - 1]
    ensures SameDigits(p, bufferLength, f, g) && Covered(f) == f[1..|f| - 3] && Covered(g) == g[1..|f| - 3]
  {
    TwoDigits(p, bufferLength, f);
    TwoDigits(p, bufferLength, g);
  }

  /** One changed byte is always noticed, as long as what arrives is still a sentence. */
  lemma ChangedSentence(cfg: Config, i: nat, f: seq<byte>, k: nat, data: byte)
    requires cfg.Valid() && cfg.badCrc.None? && i < |cfg.table| && cfg.table[i] in {Nmea, MmpNmea}
    requires SentenceFrame(cfg.table[i], cfg.bufferLength, f) && ChecksumOk(cfg.table[i], f)
    requires |f| < cfg.bufferLength && Claim(cfg.table, f[0]) == i && 1 <= k < Find(f, STAR) && data != f[k]
    requires SentenceFrame(cfg.table[i], cfg.bufferLength, f[k := data])
    ensures Run(cfg, Idle, f[k := data] + CRLF) == Outcome(Idle, [Rejected(i, f[k := data])])
  {
    var p, g := cfg.table[i], f[k := data];
    TwoDigits(p, cfg.bufferLength, f);
    ChangedSlice(f, g, k, |f| - 3, data);
    ChangedText(p, cfg.bufferLength, f, g);
    DamagedSentence(cfg, i, f, g);
    SameXor(Covered(f), Covered(g));
  }
}
