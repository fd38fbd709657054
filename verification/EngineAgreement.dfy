/** Engines of different parsers that compute the same function. */
module EngineAgreement {
  import opened Bytes
  import opened Gf2
  import opened Words
  import opened Crc
  import opened LookupTables
  import opened CrcEngines
  import opened SpartnCrc
  import opened WordBytes
  import opened HexWords

  // ---------------------------------------------------------------------------------------
  // The incremental engines over a whole message
  // ---------------------------------------------------------------------------------------

  lemma Cleared16()
    ensures Bits16(0) == Residue(POLY16, MsbFirst, Zeros(16), [])
  {
    ZeroWord(TOP, 0, 16);
  }

  method SbfCrc(msg: seq<byte>) returns (crc: bv16)
    ensures Bits16(crc) == Residue(POLY16, MsbFirst, Zeros(16), msg)
  {
    crc := 0;
    Cleared16();
    var i := 0;
    while i < |msg|
      invariant i <= |msg| && Bits16(crc) == Residue(POLY16, MsbFirst, Zeros(16), msg[..i])
    {
      ResidueAppend(POLY16, MsbFirst, Zeros(16), msg[..i], msg[i]);
      assert msg[..i + 1] == msg[..i] + [msg[i]];
      crc := CcittUpdate(crc, msg[i]);
      i := i + 1;
    }
    assert msg[..i] == msg;
  }

  lemma Cleared24()
    ensures Bits24(0) == Residue(POLY24, MsbFirst, Zeros(24), [])
  {
    ZeroWord(TOP, 0, 24);
  }

  method RtcmCrc(msg: seq<byte>) returns (crc: bv32)
    ensures crc & 0xFF000000 == 0 && Bits24(crc) == Residue(POLY24, MsbFirst, Zeros(24), msg)
  {
    crc := 0;
    Cleared24();
    var i := 0;
    while i < |msg|
      invariant i <= |msg| && crc & 0xFF000000 == 0
      invariant Bits24(crc) == Residue(POLY24, MsbFirst, Zeros(24), msg[..i])
    {
      ResidueAppend(POLY24, MsbFirst, Zeros(24), msg[..i], msg[i]);
      assert msg[..i + 1] == msg[..i] + [msg[i]];
      crc := ComputeCrc24q(crc, msg[i]);
      i := i + 1;
    }
    assert msg[..i] == msg;
  }

  lemma Seeded32()
    ensures Bits32(0xFFFFFFFF) == Residue(POLY32, LsbFirst, Ones(32), [])
  {
    BottomOnes();
  }

  /** The SEMP CRC-32: all-ones seed, final inversion. */
  method SempCrc(msg: seq<byte>) returns (crc: bv32)
    ensures Bits32(crc) == Not(Residue(POLY32, LsbFirst, Ones(32), msg))
  {
    crc := SempRegisterOf(msg);
    InvertedWord(crc, crc ^ 0xFFFFFFFF);
    crc := crc ^ 0xFFFFFFFF;
  }

  method SempRegisterOf(msg: seq<byte>) returns (crc: bv32)
    ensures Bits32(crc) == Residue(POLY32, LsbFirst, Ones(32), msg)
  {
    crc := 0xFFFFFFFF;
    Seeded32();
    var i := 0;
    while i < |msg|
      invariant i <= |msg| && Bits32(crc) == Residue(POLY32, LsbFirst, Ones(32), msg[..i])
    {
      ResidueAppend(POLY32, LsbFirst, Ones(32), msg[..i], msg[i]);
      assert msg[..i + 1] == msg[..i] + [msg[i]];
      crc := ComputeCrc32(crc, msg[i]);
      i := i + 1;
    }
    assert msg[..i] == msg;
  }

  // ---------------------------------------------------------------------------------------
  // Agreement
  // ---------------------------------------------------------------------------------------

  lemma SameBits24(a: bv32, b: bv32)
    requires a & 0xFF000000 == 0 && b & 0xFF000000 == 0
    ensures Bits24(a) == Bits24(b) <==> a == b
  {
    var c2, c1, c0 := (b >> 16) as bv8, ((b >> 8) & 0xFF) as bv8, (b & 0xFF) as bv8;
    Word24Bytes(b, b << 8, c2, c1, c0);
    Word24(a, b, c2, c1, c0);
  }

  /** The SBF engine is the SPARTN CRC-16. */
  method SbfEqualsSpartn16(msg: seq<byte>) returns (sbf: bv16, spartn: bv16)
    ensures sbf == spartn && Bits16(sbf) == Residue(POLY16, MsbFirst, Zeros(16), msg)
  {
    sbf := SbfCrc(msg);
    spartn := SpartnCrc16(msg);
    SameBits16(sbf, spartn);
  }

  /** The RTCM engine is the SPARTN CRC-24. */
  method RtcmEqualsSpartn24(msg: seq<byte>) returns (rtcm: bv32, spartn: bv32)
    ensures rtcm == spartn && Bits24(rtcm) == Residue(POLY24, MsbFirst, Zeros(24), msg)
  {
    rtcm := RtcmCrc(msg);
    spartn := SpartnCrc24(msg);
    SameBits24(rtcm, spartn);
  }

  /** A byte with its bits in reverse order. */
  function Mirror(b: byte): byte {
    var b1 := ((b & 0xF0) >> 4) | ((b & 0x0F) << 4);
    var b2 := ((b1 & 0xCC) >> 2) | ((b1 & 0x33) << 2);
    ((b2 & 0xAA) >> 1) | ((b2 & 0x55) << 1)
  }

  function MirrorAll(m: seq<byte>): (r: seq<byte>)
    ensures |r| == |m| && forall i | 0 <= i < |m| :: r[i] == Mirror(m[i])
  {
    seq(|m|, i requires 0 <= i < |m| => Mirror(m[i]))
  }

  lemma MirrorBit(b: byte, c: byte, i: nat)
    requires c == Mirror(b) && i < 8
    ensures MsbBit(c, 7 - i) == MsbBit(b, i)
  {
    if i == 0 {
    } else if i == 1 {
    } else if i == 2 {
    } else if i == 3 {
    } else if i == 4 {
    } else if i == 5 {
    } else if i == 6 {
    } else {
    }
  }

  lemma MirrorBits(b: byte, c: byte)
    requires c == Mirror(b)
    ensures ByteBits(LsbFirst, c) == ByteBits(MsbFirst, b)
  {
    forall i: nat | i < 8 ensures MsbBit(c, 7 - i) == MsbBit(b, i) {
      MirrorBit(b, c, i);
    }
  }

  /** Mirroring every byte exchanges the two bit orders. */
  lemma {:induction false} MirrorMessage(m: seq<byte>)
    ensures MessageBits(LsbFirst, MirrorAll(m)) == MessageBits(MsbFirst, m)
    decreases |m|
  {
    if m != [] {
      var n := |m| - 1;
      assert MirrorAll(m)[..n] == MirrorAll(m[..n]);
      MirrorMessage(m[..n]);
      MirrorBits(m[n], Mirror(m[n]));
    }
  }

  /** The SPARTN CRC-32 is the bit reversal of the SEMP CRC-32 of the message with every byte mirrored. */
  method Spartn32MirrorsSemp(msg: seq<byte>) returns (spartn: bv32, semp: bv32)
    ensures TopBits32(spartn) == Reverse(TopBits32(semp))
    ensures Bits32(semp) == Not(Residue(POLY32, LsbFirst, Ones(32), MirrorAll(msg)))
  {
    spartn := SpartnCrc32(msg);
    semp := SempCrc(MirrorAll(msg));
    MirrorMessage(msg);
    ReversedBack(semp);
  }

  lemma ReversedBack(c: bv32)
    ensures Reverse(TopBits32(c)) == Bits32(c)
  {
    ReversedWord(c);
    var r := Bits32(c);
    assert Reverse(Reverse(r)) == r;
  }
}
