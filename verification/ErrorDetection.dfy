/** Damaged frames are rejected by the whole machine, not just by the checksum. */
module ErrorDetection {
  import opened Bytes
  import opened Gf2
  import opened Crc
  import opened Formats
  import opened Traces
  import opened Stream
  import opened Frames
  import opened Completeness
  import opened Trailers
  import opened ByteSums
  import opened DoubleErrors

  // ---------------------------------------------------------------------------------------
  // Where two messages differ
  // ---------------------------------------------------------------------------------------

  lemma {:induction false} MessageBitAt(order: Order, m: seq<byte>, k: nat, b: nat)
    requires k < |m| && b < 8
    ensures MessageBits(order, m)[8 * k + b] == ByteBits(order, m[k])[b]
    decreases |m|
  {
    var n := |m| - 1;
    if k < n {
      MessageBitAt(order, m[..n], k, b);
    }
  }

  lemma DifferenceAt(order: Order, a: seq<byte>, b: seq<byte>, i: nat)
    requires |a| == |b| && i < 8 * |a| && Difference(order, a, b)[i]
    ensures a[i / 8] != b[i / 8]
  {
    MessageBitAt(order, a, i / 8, i % 8);
    MessageBitAt(order, b, i / 8, i % 8);
  }

  lemma SomeDifference(order: Order, a: seq<byte>, b: seq<byte>) returns (i: nat)
    requires |a| == |b| && a != b
    ensures i < 8 * |a| && Difference(order, a, b)[i]
  {
    if MessageBits(order, a) == MessageBits(order, b) {
      MessageBitsInjective(order, a, b);
    }
    var p, q := MessageBits(order, a), MessageBits(order, b);
    i :| 0 <= i < |p| && p[i] != q[i];
  }

  /** The messages agree outside `n` consecutive bytes. */
  predicate SameOutside(a: seq<byte>, b: seq<byte>, lo: nat, n: nat) {
    |a| == |b| && forall k | 0 <= k < |a| && !(lo <= k < lo + n) :: a[k] == b[k]
  }

  /** Any change inside `n` consecutive bytes is a burst of at most 8n bits. */
  lemma BytesAreBurst(order: Order, a: seq<byte>, b: seq<byte>, lo: nat, n: nat)
    requires SameOutside(a, b, lo, n) && a != b
    ensures IsBurst(Difference(order, a, b), 8 * n)
  {
    var e := Difference(order, a, b);
    var one := SomeDifference(order, a, b);
    forall i | 0 <= i < |e| && e[i] ensures 8 * lo <= i < 8 * lo + 8 * n {
      DifferenceAt(order, a, b, i);
    }
    assert Within(e, 8 * lo, 8 * n);
  }

  // ---------------------------------------------------------------------------------------
  // RTCM
  // ---------------------------------------------------------------------------------------

  lemma ParityOfFour(a: bool, b: bool, c: bool, d: bool)
    ensures Parity([a, b, c, d]) == (a != (b != (c != d)))
  {
    assert [d][1..] == [] && Parity([d]) == d;
    assert [c, d][1..] == [d] && Parity([c, d]) == (c != d);
    assert [b, c, d][1..] == [c, d] && Parity([b, c, d]) == (b != (c != d));
    assert [a, b, c, d][1..] == [b, c, d];
  }

  lemma ParityOfPieces(a: Bits, b: Bits, c: Bits, d: Bits, e: Bits, f: Bits)
    ensures Parity(a + b + c + d + e + f)
            == (((((Parity(a) != Parity(b)) != Parity(c)) != Parity(d)) != Parity(e)) != Parity(f))
  {
    ParityOfAppend(a, b);
    ParityOfAppend(a + b, c);
    ParityOfAppend(a + b + c, d);
    ParityOfAppend(a + b + c + d, e);
    ParityOfAppend(a + b + c + d + e, f);
  }

  /** x + 1 divides the CRC-24Q polynomial. */
  lemma Parity24()
    ensures Parity(POLY24)
  {
    var t, f := true, false;
    assert POLY24 == [t, f, f, f] + [f, t, t, f] + [f, t, f, f] + [t, t, f, f] + [t, t, t, t] + [t, f, t, t];
    ParityOfFour(t, f, f, f);
    ParityOfFour(f, t, t, f);
    ParityOfFour(f, t, f, f);
    ParityOfFour(t, t, f, f);
    ParityOfFour(t, t, t, t);
    ParityOfFour(t, f, t, t);
    ParityOfPieces([t, f, f, f], [f, t, t, f], [f, t, f, f], [t, t, f, f], [t, t, t, t], [t, f, t, t]);
  }

  lemma RtcmDamaged(f: seq<byte>, g: seq<byte>)
    requires |f| == |g| && ChecksumOk(Rtcm, f) && Noticed(POLY24, Difference(MsbFirst, f, g))
    ensures !ChecksumOk(Rtcm, g)
  {
    GeneratorsAreOdd();
    NoticedChangesResidue(POLY24, MsbFirst, Zeros(24), f, g);
  }

  /** A damaged frame keeps its header, so that it is framed as before. */
  predicate KeepsHeader(f: seq<byte>, g: seq<byte>, n: nat) {
    |f| == |g| && |f| >= n && f[..n] == g[..n]
  }

  /**
   A valid RTCM frame that is damaged behind its length field, by a burst of at most 24 bits or
   in an odd number of bits, is not passed on.
   */
  lemma RtcmErrorRejected(cfg: Config, i: nat, f: seq<byte>, g: seq<byte>)
    requires cfg.Valid() && cfg.badCrc.None? && i < |cfg.table| && cfg.table[i] == Rtcm && Claim(cfg.table, 0xD3) == i
    requires RtcmFrame(f) && |f| <= cfg.bufferLength && ChecksumOk(Rtcm, f)
    requires KeepsHeader(f, g, 3) && Noticed(POLY24, Difference(MsbFirst, f, g))
    ensures Run(cfg, Idle, g) == Outcome(Idle, [Rejected(i, g)])
  {
    RtcmDamaged(f, g);
    RtcmHeaderKept(f, g);
    RunFrame(cfg, i, g);
  }

  /** Any change inside three consecutive bytes, or of an odd number of bits, is noticed. */
  lemma RtcmNoticed(f: seq<byte>, g: seq<byte>, lo: nat)
    requires |f| == |g|
    requires (SameOutside(f, g, lo, 3) && f != g) || Parity(Difference(MsbFirst, f, g))
    ensures Noticed(POLY24, Difference(MsbFirst, f, g))
  {
    if SameOutside(f, g, lo, 3) && f != g {
      BytesAreBurst(MsbFirst, f, g, lo, 3);
    } else {
      Parity24();
    }
  }

  /** Exactly two bits differ. */
  predicate TwoBits(e: Bits, i: nat, j: nat) {
    i < j < |e| && forall k | 0 <= k < |e| :: e[k] <==> k == i || k == j
  }

  lemma TwoBitsAreTwoOnes(e: Bits, i: nat, j: nat)
    requires TwoBits(e, i, j)
    ensures e == Zeros(i) + (TwoOnes(j - i) + Zeros(|e| - j - 1))
  {
    var r := Zeros(i) + (TwoOnes(j - i) + Zeros(|e| - j - 1));
    forall k | 0 <= k < |e| ensures e[k] == r[k] {
    }
  }

  lemma TwoBitsLeaveResidue(e: Bits, i: nat, j: nat)
    requires TwoBits(e, i, j) && j - i < 178481
    ensures Register(POLY24, Zeros(24), e) != Zeros(24)
  {
    GeneratorsAreOdd();
    TwoBitsAreTwoOnes(e, i, j);
    PairLeavesResidue(j - i);
    ZerosAround(POLY24, i, TwoOnes(j - i), |e| - j - 1);
  }

  lemma RtcmLengthIsShort(f: seq<byte>)
    requires RtcmFrame(f)
    ensures |f| <= 1029
  {
    assert f[1] == 0 || f[1] == 1 || f[1] == 2 || f[1] == 3;
  }

  /** No two flipped bits of a frame cancel, wherever they are. */
  lemma RtcmDoubleDamaged(f: seq<byte>, g: seq<byte>, i: nat, j: nat)
    requires RtcmFrame(f) && |f| == |g| && ChecksumOk(Rtcm, f) && TwoBits(Difference(MsbFirst, f, g), i, j)
    ensures !ChecksumOk(Rtcm, g)
  {
    RtcmLengthIsShort(f);
    var e := Difference(MsbFirst, f, g);
    TwoBitsLeaveResidue(e, i, j);
    ResidueOfDifference(POLY24, MsbFirst, Zeros(24), f, g);
    XorNonzero(Residue(POLY24, MsbFirst, Zeros(24), f), Register(POLY24, Zeros(24), e));
  }

  /** A valid RTCM frame with any two bits flipped behind its length field is not passed on. */
  lemma RtcmDoubleErrorRejected(cfg: Config, n: nat, f: seq<byte>, g: seq<byte>, i: nat, j: nat)
    requires cfg.Valid() && cfg.badCrc.None? && n < |cfg.table| && cfg.table[n] == Rtcm && Claim(cfg.table, 0xD3) == n
    requires RtcmFrame(f) && |f| <= cfg.bufferLength && ChecksumOk(Rtcm, f)
    requires KeepsHeader(f, g, 3) && TwoBits(Difference(MsbFirst, f, g), i, j)
    ensures Run(cfg, Idle, g) == Outcome(Idle, [Rejected(n, g)])
  {
    RtcmDoubleDamaged(f, g, i, j);
    RtcmHeaderKept(f, g);
    RunFrame(cfg, n, g);
  }

  lemma RtcmHeaderKept(f: seq<byte>, g: seq<byte>)
    requires RtcmFrame(f) && KeepsHeader(f, g, 3)
    ensures RtcmFrame(g)
  {
    assert forall k | 0 <= k < 3 :: g[k] == g[..3][k] && f[k] == f[..3][k];
  }

  // ---------------------------------------------------------------------------------------
  // SEMP
  // ---------------------------------------------------------------------------------------

  lemma NotIsXor(a: Bits)
    ensures Not(a) == Xor(a, Ones(|a|))
  {
  }

  lemma XorSwap(a: Bits, b: Bits, ones: Bits)
    requires |a| == |b| == |ones|
    ensures Xor(Xor(a, b), ones) == Xor(Xor(a, ones), b)
  {
  }

  /** The inversion between data and trailer does not hide a change: the register is affine. */
  lemma CustomResidueOfDifference(f: seq<byte>, g: seq<byte>)
    requires |f| == |g| >= 4
    ensures CustomResidue(g)
            == Xor(CustomResidue(f), Register(POLY32, Zeros(32), Difference(LsbFirst, f, g)))
  {
    var n := |f| - 4;
    var a, b, s, t := f[..n], g[..n], f[n..], g[n..];
    var ra, rb := Residue(POLY32, LsbFirst, Ones(32), a), Residue(POLY32, LsbFirst, Ones(32), b);
    var da, ds := Difference(LsbFirst, a, b), Difference(LsbFirst, s, t);
    var d := Register(POLY32, Zeros(32), da);
    ResidueOfDifference(POLY32, LsbFirst, Ones(32), a, b);
    NotIsXor(ra);
    NotIsXor(rb);
    XorSwap(ra, d, Ones(32));
    assert Not(rb) == Xor(Not(ra), d);
    XorCancels(MessageBits(LsbFirst, s), MessageBits(LsbFirst, t));
    RegisterLinear(POLY32, Not(ra), d, MessageBits(LsbFirst, s), ds);
    DifferenceSplits(f, g, n, a, b, s, t);
    RegisterConcat(POLY32, Zeros(32), da, ds);
  }

  lemma DifferenceSplits(f: seq<byte>, g: seq<byte>, n: nat, a: seq<byte>, b: seq<byte>, s: seq<byte>, t: seq<byte>)
    requires |f| == |g| && n <= |f| && a == f[..n] && b == g[..n] && s == f[n..] && t == g[n..]
    ensures Difference(LsbFirst, f, g) == Difference(LsbFirst, a, b) + Difference(LsbFirst, s, t)
  {
    assert f == a + s && g == b + t;
    MessageBitsConcat(LsbFirst, a, s);
    MessageBitsConcat(LsbFirst, b, t);
  }

  lemma CustomDamaged(f: seq<byte>, g: seq<byte>)
    requires |f| == |g| >= 4 && ChecksumOk(Custom, f) && IsBurst(Difference(LsbFirst, f, g), 32)
    ensures !ChecksumOk(Custom, g)
  {
    GeneratorsAreOdd();
    CustomResidueOfDifference(f, g);
    BurstLeavesResidue(POLY32, Difference(LsbFirst, f, g));
    XorNonzero(CustomResidue(f), Register(POLY32, Zeros(32), Difference(LsbFirst, f, g)));
  }

  /** A valid SEMP frame with any change inside four consecutive bytes behind its header is not passed on. */
  lemma CustomErrorRejected(cfg: Config, i: nat, f: seq<byte>, g: seq<byte>, lo: nat)
    requires cfg.Valid() && cfg.badCrc.None? && i < |cfg.table| && cfg.table[i] == Custom && Claim(cfg.table, 0xAA) == i
    requires CustomFrame(f) && |f| <= cfg.bufferLength && ChecksumOk(Custom, f)
    requires KeepsHeader(f, g, 20) && SameOutside(f, g, lo, 4) && f != g
    ensures Run(cfg, Idle, g) == Outcome(Idle, [Rejected(i, g)])
  {
    BytesAreBurst(LsbFirst, f, g, lo, 4);
    CustomDamaged(f, g);
    HeaderKept(f, g);
    RunFrame(cfg, i, g);
  }

  lemma HeaderKept(f: seq<byte>, g: seq<byte>)
    requires CustomFrame(f) && KeepsHeader(f, g, 20)
    ensures CustomFrame(g)
  {
    assert forall k | 0 <= k < 20 :: g[k] == g[..20][k] && f[k] == f[..20][k];
  }

  // ---------------------------------------------------------------------------------------
  // u-blox
  // ---------------------------------------------------------------------------------------

  /** The payload of `g` is that of `f` with one byte changed, or with two adjacent unequal bytes swapped. */
  ghost predicate PayloadDamaged(f: seq<byte>, g: seq<byte>) {
    && |f| == |g| >= 8
    && exists a: seq<byte>, b: seq<byte>, x: byte, y: byte ::
         && x != y && |a| >= 6 && |b| >= 2
         && ((f == a + [x] + b && g == a + [y] + b) || (f == a + [x, y] + b && g == a + [y, x] + b))
  }

  lemma TrailerKept(f: seq<byte>, a: seq<byte>, mid: seq<byte>, b: seq<byte>, covered: seq<byte>)
    requires |a| >= 6 && |b| >= 2 && f == a + mid + b && covered == a[2..] + mid + b[..|b| - 2]
    ensures f[2..|f| - 2] == covered && f[|f| - 2] == b[|b| - 2] && f[|f| - 1] == b[|b| - 1] && f[..6] == a[..6]
  {
  }

  lemma UbloxDamaged(f: seq<byte>, g: seq<byte>, a: seq<byte>, b: seq<byte>, mid: seq<byte>, mid': seq<byte>,
                     covered: seq<byte>, covered': seq<byte>)
    requires |a| >= 6 && |b| >= 2 && |mid| == |mid'| && f == a + mid + b && g == a + mid' + b
    requires covered == a[2..] + mid + b[..|b| - 2] && covered' == a[2..] + mid' + b[..|b| - 2]
    requires Fletcher(covered) != Fletcher(covered')
    ensures |f| == |g| >= 8 && f[..6] == g[..6] && (UbloxOk(f) ==> !UbloxOk(g))
  {
    TrailerKept(f, a, mid, b, covered);
    TrailerKept(g, a, mid', b, covered');
  }

  lemma UbloxPayloadDamaged(f: seq<byte>, g: seq<byte>)
    requires UbloxFrame(f) && UbloxOk(f) && PayloadDamaged(f, g)
    ensures UbloxFrame(g) && !UbloxOk(g)
  {
    var a: seq<byte>, b: seq<byte>, x: byte, y: byte :|
      && x != y && |a| >= 6 && |b| >= 2
      && ((f == a + [x] + b && g == a + [y] + b) || (f == a + [x, y] + b && g == a + [y, x] + b));
    var b' := b[..|b| - 2];
    if f == a + [x] + b && g == a + [y] + b {
      ByteChangesFletcher(a[2..], x, y, b');
      UbloxDamaged(f, g, a, b, [x], [y], a[2..] + [x] + b', a[2..] + [y] + b');
    } else {
      SwapChangesFletcher(a[2..], x, y, b');
      UbloxDamaged(f, g, a, b, [x, y], [y, x], a[2..] + [x, y] + b', a[2..] + [y, x] + b');
    }
    SameHead(f, g);
  }

  lemma SameHead(f: seq<byte>, g: seq<byte>)
    requires UbloxFrame(f) && |g| == |f| && f[..6] == g[..6]
    ensures UbloxFrame(g)
  {
    assert forall k | 0 <= k < 6 :: f[k] == f[..6][k] && g[k] == g[..6][k];
  }

  /** Such a frame is not passed on, for every payload length. */
  lemma UbloxErrorRejected(cfg: Config, i: nat, f: seq<byte>, g: seq<byte>)
    requires cfg.Valid() && cfg.badCrc.None? && i < |cfg.table| && cfg.table[i] == Ublox && Claim(cfg.table, 0xB5) == i
    requires UbloxFrame(f) && |f| <= cfg.bufferLength && ChecksumOk(Ublox, f) && PayloadDamaged(f, g)
    ensures Run(cfg, Idle, g) == Outcome(Idle, [Rejected(i, g)])
  {
    UbloxPayloadDamaged(f, g);
    RunFrame(cfg, i, g);
  }
}
