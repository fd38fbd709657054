/** A zero residue is the same as a trailer that equals the CRC of the bytes before it. */
module Trailers {
  import opened Bytes
  import opened Gf2
  import opened Crc
  import opened Formats

  lemma GeneratorsAreOdd()
    ensures POLY24[23] && POLY32[31] && POLY16[15]
  {
  }

  /** For every generator with a constant term, and every start value of the trailer's register. */
  lemma ResidueIsTrailer(poly: Bits, order: Order, init: Bits, body: seq<byte>, trailer: seq<byte>)
    requires |init| == |poly| > 0 && poly[|poly| - 1] && 8 * |trailer| == |poly|
    ensures Residue(poly, order, init, body + trailer) == Zeros(|poly|)
            <==> MessageBits(order, trailer) == Residue(poly, order, init, body)
  {
    ResidueConcat(poly, order, init, body, trailer);
    ZeroResidue(poly, Residue(poly, order, init, body), MessageBits(order, trailer));
  }

  /** RTCM: the three trailing bytes, high byte first. */
  lemma RtcmTrailer(m: seq<byte>)
    requires |m| >= 3
    ensures ChecksumOk(Rtcm, m)
            <==> MessageBits(MsbFirst, m[|m| - 3..]) == Residue(POLY24, MsbFirst, Zeros(24), m[..|m| - 3])
  {
    GeneratorsAreOdd();
    assert m == m[..|m| - 3] + m[|m| - 3..];
    ResidueIsTrailer(POLY24, MsbFirst, Zeros(24), m[..|m| - 3], m[|m| - 3..]);
  }

  lemma InvertedTrailer(m: seq<byte>, body: seq<byte>, trailer: seq<byte>, r: Bits, t: Bits)
    requires |m| >= 4 && body == m[..|m| - 4] && trailer == m[|m| - 4..]
    requires r == Not(Residue(POLY32, LsbFirst, Ones(32), body)) && t == MessageBits(LsbFirst, trailer)
    ensures CustomResidue(m) == Zeros(32) <==> t == r
  {
    GeneratorsAreOdd();
    ZeroResidue(POLY32, r, t);
  }

  /** SEMP: the four trailing bytes, low byte first, against the inverted register. */
  lemma CustomTrailer(m: seq<byte>)
    requires |m| >= 4
    ensures ChecksumOk(Custom, m) <==> SempOk(m)
  {
    var body, trailer := m[..|m| - 4], m[|m| - 4..];
    InvertedTrailer(m, body, trailer, Not(Residue(POLY32, LsbFirst, Ones(32), body)), MessageBits(LsbFirst, trailer));
  }

  /** Unicore binary: the four trailing bytes, low byte first, without inversion. */
  lemma UnicoreTrailer(m: seq<byte>)
    requires |m| >= 4
    ensures ChecksumOk(UnicoreBinary, m)
            <==> MessageBits(LsbFirst, m[|m| - 4..]) == Residue(POLY32, LsbFirst, Zeros(32), m[..|m| - 4])
  {
    GeneratorsAreOdd();
    assert m == m[..|m| - 4] + m[|m| - 4..];
    ResidueIsTrailer(POLY32, LsbFirst, Zeros(32), m[..|m| - 4], m[|m| - 4..]);
  }

  /**
   SPARTN: the trailing bytes, high byte first, are the remainder of the bytes between preamble and
   trailer: CRC-8, CRC-16 or CRC-24Q from a cleared register, or CRC-32 with all-ones seed and final
   inversion.
   */
  lemma SpartnTrailer(m: seq<byte>, k: nat, covered: seq<byte>, trailer: seq<byte>)
    requires |m| >= 8 && k == SpartnCrcBytes(m) && covered == m[1..|m| - k] && trailer == m[|m| - k..]
    ensures k == 1 ==> (ChecksumOk(Spartn, m)
                        <==> MessageBits(MsbFirst, trailer) == Residue(POLY8, MsbFirst, Zeros(8), covered))
    ensures k == 2 ==> (ChecksumOk(Spartn, m)
                        <==> MessageBits(MsbFirst, trailer) == Residue(POLY16, MsbFirst, Zeros(16), covered))
    ensures k == 3 ==> (ChecksumOk(Spartn, m)
                        <==> MessageBits(MsbFirst, trailer) == Residue(POLY24, MsbFirst, Zeros(24), covered))
    ensures k == 4 ==> (ChecksumOk(Spartn, m)
                        <==> MessageBits(MsbFirst, trailer) == Not(Residue(POLY32, MsbFirst, Ones(32), covered)))
  {
  }

  /** With a cleared register the trailer is the remainder of long division. */
  lemma SpartnTrailerDivides(m: seq<byte>, poly: Bits, k: nat, covered: seq<byte>, trailer: seq<byte>)
    requires |m| >= 8 && k == SpartnCrcBytes(m) <= 3 && covered == m[1..|m| - k] && trailer == m[|m| - k..]
    requires poly == [POLY8, POLY16, POLY24][k - 1]
    ensures ChecksumOk(Spartn, m)
            <==> MessageBits(MsbFirst, trailer) == LongDivision(MessageBits(MsbFirst, covered) + Zeros(|poly|), poly)
  {
    SpartnTrailer(m, k, covered, trailer);
    ResidueDivides(poly, MsbFirst, Zeros(|poly|), covered);
  }
}
