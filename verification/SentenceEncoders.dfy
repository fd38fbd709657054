/** Encoders for NMEA and Unicore hash sentences. */
module SentenceEncoders {
  import opened Bytes
  import opened Gf2
  import opened Crc
  import opened Formats
  import opened Characters
  import opened Frames

  // ---------------------------------------------------------------------------------------
  // Hexadecimal characters
  // ---------------------------------------------------------------------------------------

  function HexDigit(n: nat): byte
    requires n < 16
  {
    [0x30, 0x31, 0x32, 0x33, 0x34, 0x35, 0x36, 0x37, 0x38, 0x39, 0x41, 0x42, 0x43, 0x44, 0x45, 0x46][n]
  }

  lemma DigitValue(n: nat)
    requires n < 16
    ensures AsciiToNibble(HexDigit(n)) == n
  {
    if n == 0 {} else if n == 1 {} else if n == 2 {} else if n == 3 {} else if n == 4 {}
    else if n == 5 {} else if n == 6 {} else if n == 7 {} else if n == 8 {} else if n == 9 {}
    else if n == 10 {} else if n == 11 {} else if n == 12 {} else if n == 13 {} else if n == 14 {} else {}
  }

  function NibbleOf(r: Bits): (n: nat)
    requires |r| == 4
    ensures n < 16
  {
    (if r[0] then 8 else 0) + (if r[1] then 4 else 0) + (if r[2] then 2 else 0) + (if r[3] then 1 else 0)
  }

  lemma BitsOfNibble(r: Bits)
    requires |r| == 4
    ensures NibbleBits(NibbleOf(r)) == r
  {
    assert r == [r[0], r[1], r[2], r[3]];
  }

  function HexOf(r: Bits): (s: seq<byte>)
    requires |r| % 4 == 0
    ensures |s| == |r| / 4
  {
    if r == [] then [] else HexOf(r[..|r| - 4]) + [HexDigit(NibbleOf(r[|r| - 4..]))]
  }

  lemma HexBitsAppend(s: seq<byte>, digit: byte, r: Bits)
    requires |r| == 4 && AsciiToNibble(digit) == NibbleOf(r)
    ensures HexBits(s + [digit]) == HexBits(s) + r && IsNibble(digit)
  {
    BitsOfNibble(r);
    assert (s + [digit])[..|s|] == s;
  }

  lemma NextDigit(r: Bits) returns (digit: byte)
    requires |r| % 4 == 0 && |r| >= 4
    ensures HexOf(r) == HexOf(r[..|r| - 4]) + [digit] && AsciiToNibble(digit) == NibbleOf(r[|r| - 4..])
  {
    var n := NibbleOf(r[|r| - 4..]);
    digit := HexDigit(n);
    DigitValue(n);
  }

  lemma {:induction false} BitsOfHex(r: Bits)
    requires |r| % 4 == 0
    ensures HexBits(HexOf(r)) == r && forall b | b in HexOf(r) :: IsNibble(b)
    decreases |r|
  {
    if r != [] {
      var head, tail := r[..|r| - 4], r[|r| - 4..];
      BitsOfHex(head);
      var digit := NextDigit(r);
      HexBitsAppend(HexOf(head), digit, tail);
      assert r == head + tail;
    }
  }

  // ---------------------------------------------------------------------------------------
  // The shape of a sentence
  // ---------------------------------------------------------------------------------------

  /** Preamble, name, comma, body, asterisk, checksum characters. */
  function Sentence(start: byte, name: seq<byte>, body: seq<byte>, digits: seq<byte>): seq<byte> {
    [start] + name + [COMMA] + body + [STAR] + digits
  }

  predicate IsName(name: seq<byte>) {
    1 <= |name| <= 15 && forall b | b in name :: IsLetterOrDigit(b)
  }

  lemma FindIs(s: seq<byte>, b: byte, i: nat)
    requires i < |s| && s[i] == b && forall j | 0 <= j < i :: s[j] != b
    ensures Find(s, b) == i
  {
  }

  lemma NameCharsAreNoDelimiters(b: byte)
    requires IsLetterOrDigit(b)
    ensures b != COMMA && b != STAR
  {
  }

  lemma SentenceFinds(start: byte, name: seq<byte>, body: seq<byte>, digits: seq<byte>, m: seq<byte>)
    requires start != COMMA && start != STAR && IsName(name) && STAR !in body
    requires m == Sentence(start, name, body, digits)
    ensures Find(m, COMMA) == |name| + 1 && Find(m, STAR) == |name| + |body| + 2
    ensures m[1..|name| + 1] == name && m[1..Find(m, STAR)] == name + [COMMA] + body
    ensures m[Find(m, STAR) + 1..] == digits && Name(m) == name
  {
    forall j | 0 <= j < |name| ensures name[j] != COMMA && name[j] != STAR {
      NameCharsAreNoDelimiters(name[j]);
    }
    FindIs(m, COMMA, |name| + 1);
    forall j | 0 <= j < |name| + |body| + 2 ensures m[j] != STAR {
      if |name| + 2 <= j {
        assert m[j] == body[j - |name| - 2] && m[j] in body;
      }
    }
    FindIs(m, STAR, |name| + |body| + 2);
  }

  lemma SentenceIsFrame(p: Routine, bufferLength: nat, start: byte, name: seq<byte>, body: seq<byte>, digits: seq<byte>,
                        m: seq<byte>)
    requires p in {Nmea, UnicoreHash, MmpNmea} && Preamble(p, start) && IsName(name) && STAR !in body
    requires m == Sentence(start, name, body, digits)
    requires |digits| == (if p.UnicoreHash? && !Contains(name, MODE) then 8 else 2)
    requires forall b | b in digits :: IsNibble(b)
    requires |name| + |body| + 2 + Overhead(p) <= bufferLength
    ensures SentenceFrame(p, bufferLength, m) && Ready(p, m)
  {
    SentenceFinds(start, name, body, digits, m);
    forall j | 1 <= j < |name| + 1 ensures IsNameChar(m[j]) {
      assert m[j] == name[j - 1] && m[j] in name;
      NameAlphabet(m[j]);
    }
    forall j | Find(m, STAR) < j < |m| ensures IsNibble(m[j]) {
      assert m[j] == digits[j - Find(m, STAR) - 1] && m[j] in digits;
    }
  }

  // ---------------------------------------------------------------------------------------
  // The spelling of the checksum characters
  // ---------------------------------------------------------------------------------------

  /** The characters with bit 5 flipped where `flips` says so: lower-case letters, or digits as control codes. */
  function Spelled(digits: seq<byte>, flips: seq<bool>): (s: seq<byte>)
    requires |flips| == |digits|
    ensures |s| == |digits|
  {
    seq(|digits|, i requires 0 <= i < |digits| => if flips[i] then digits[i] ^ 0x20 else digits[i])
  }

  lemma SpelledNibble(digits: seq<byte>, flips: seq<bool>, i: nat)
    requires |flips| == |digits| && i < |digits|
    ensures AsciiToNibble(Spelled(digits, flips)[i]) == AsciiToNibble(digits[i])
  {
    EitherCase(digits[i]);
  }

  lemma {:induction false} SpelledBits(digits: seq<byte>, flips: seq<bool>)
    requires |flips| == |digits|
    ensures HexBits(Spelled(digits, flips)) == HexBits(digits)
    decreases |digits|
  {
    if digits != [] {
      var n, s := |digits| - 1, Spelled(digits, flips);
      SpelledBits(digits[..n], flips[..n]);
      assert s[..n] == Spelled(digits[..n], flips[..n]);
      SpelledNibble(digits, flips, n);
    }
  }

  lemma SpelledNibbles(digits: seq<byte>, flips: seq<bool>)
    requires |flips| == |digits| && forall b | b in digits :: IsNibble(b)
    ensures forall b | b in Spelled(digits, flips) :: IsNibble(b)
  {
    var s := Spelled(digits, flips);
    forall b | b in s ensures IsNibble(b) {
      var i :| 0 <= i < |s| && s[i] == b;
      SpelledNibble(digits, flips, i);
      assert digits[i] in digits;
    }
  }

  // ---------------------------------------------------------------------------------------
  // Two checksum characters
  // ---------------------------------------------------------------------------------------

  /** The exclusive or of name, comma and body as two characters. */
  function XorDigits(name: seq<byte>, body: seq<byte>): (s: seq<byte>)
    ensures |s| == 2
  {
    var x := XorAll(name + [COMMA] + body) as int;
    [HexDigit(x / 16), HexDigit(x % 16)]
  }

  function EncodeNmea(start: byte, name: seq<byte>, body: seq<byte>, flips: seq<bool>): (m: seq<byte>)
    requires |flips| == 2
    ensures |m| == |name| + |body| + 5
  {
    Sentence(start, name, body, Spelled(XorDigits(name, body), flips))
  }

  lemma XorDigitsMatch(name: seq<byte>, body: seq<byte>, flips: seq<bool>)
    requires |flips| == 2
    ensures var d := Spelled(XorDigits(name, body), flips);
            && 16 * AsciiToNibble(d[0]) + AsciiToNibble(d[1]) == XorAll(name + [COMMA] + body) as int
            && forall b | b in d :: IsNibble(b)
  {
    var x, d := XorAll(name + [COMMA] + body) as int, XorDigits(name, body);
    DigitValue(x / 16);
    DigitValue(x % 16);
    SpelledNibble(d, flips, 0);
    SpelledNibble(d, flips, 1);
  }

  lemma XorIsChecked(p: Routine, m: seq<byte>, star: nat, covered: seq<byte>, d: seq<byte>)
    requires IsSentence(p) && ChecksumChars(p, m) == 2 && star == Find(m, STAR) && 1 <= star && |m| == star + 3
    requires m[1..star] == covered && m[star + 1..] == d
    requires 16 * AsciiToNibble(d[0]) + AsciiToNibble(d[1]) == XorAll(covered) as int
    ensures ChecksumOk(p, m)
  {
    assert m[|m| - 2] == d[0] && m[|m| - 1] == d[1];
  }

  /** However its checksum is spelled, the sentence is complete and its checksum right; name and body come back. */
  lemma NmeaRoundTrip(p: Routine, bufferLength: nat, start: byte, name: seq<byte>, body: seq<byte>, flips: seq<bool>)
    requires p in {Nmea, MmpNmea} || (p.UnicoreHash? && Contains(name, MODE))
    requires Preamble(p, start) && IsName(name) && STAR !in body && |flips| == 2
    requires |name| + |body| + 2 + Overhead(p) <= bufferLength
    ensures var m := EncodeNmea(start, name, body, flips);
            && SentenceFrame(p, bufferLength, m) && ChecksumOk(p, m) && Ready(p, m)
            && Name(m) == name && m[Find(m, COMMA) + 1..Find(m, STAR)] == body
  {
    var m, digits := EncodeNmea(start, name, body, flips), Spelled(XorDigits(name, body), flips);
    XorDigitsMatch(name, body, flips);
    SentenceIsFrame(p, bufferLength, start, name, body, digits, m);
    SentenceFinds(start, name, body, digits, m);
    BodyOf(start, name, body, digits, m);
    XorIsChecked(p, m, |name| + |body| + 2, name + [COMMA] + body, digits);
  }

  // ---------------------------------------------------------------------------------------
  // Eight checksum characters
  // ---------------------------------------------------------------------------------------

  /** The CRC-32 of name, comma and body, most significant bit first. */
  function HashDigits(name: seq<byte>, body: seq<byte>): (s: seq<byte>)
    ensures |s| == 8
  {
    HexOf(Reverse(Residue(POLY32, LsbFirst, Zeros(32), name + [COMMA] + body)))
  }

  lemma HashDigitsMatch(name: seq<byte>, body: seq<byte>, flips: seq<bool>, covered: seq<byte>, digits: seq<byte>)
    requires |flips| == 8 && covered == name + [COMMA] + body && digits == Spelled(HashDigits(name, body), flips)
    ensures HexBits(digits) == Reverse(Residue(POLY32, LsbFirst, Zeros(32), covered))
    ensures forall b | b in digits :: IsNibble(b)
  {
    BitsOfHex(Reverse(Residue(POLY32, LsbFirst, Zeros(32), covered)));
    SpelledBits(HashDigits(name, body), flips);
    SpelledNibbles(HashDigits(name, body), flips);
  }

  function EncodeHash(name: seq<byte>, body: seq<byte>, flips: seq<bool>): (m: seq<byte>)
    requires |flips| == 8
    ensures |m| == |name| + |body| + 11
  {
    Sentence(Code('#'), name, body, Spelled(HashDigits(name, body), flips))
  }

  lemma HashIsChecked(m: seq<byte>, star: nat, covered: seq<byte>, digits: seq<byte>)
    requires star == Find(m, STAR) && 1 <= star && |m| == star + 9 && ChecksumChars(UnicoreHash, m) == 8
    requires m[1..star] == covered && m[star + 1..] == digits
    requires HexBits(digits) == Reverse(Residue(POLY32, LsbFirst, Zeros(32), covered))
    ensures ChecksumOk(UnicoreHash, m)
  {
    assert m[star + 1..star + 9] == digits;
  }

  lemma HashRoundTrip(bufferLength: nat, name: seq<byte>, body: seq<byte>, flips: seq<bool>)
    requires IsName(name) && !Contains(name, MODE) && STAR !in body && |flips| == 8
    requires |name| + |body| + 14 <= bufferLength
    ensures var m := EncodeHash(name, body, flips);
            && SentenceFrame(UnicoreHash, bufferLength, m) && ChecksumOk(UnicoreHash, m) && |m| + 3 <= bufferLength
            && Name(m) == name && m[Find(m, COMMA) + 1..Find(m, STAR)] == body
  {
    var m, digits, covered := EncodeHash(name, body, flips), Spelled(HashDigits(name, body), flips),
                              name + [COMMA] + body;
    var start := Code('#');
    SentenceStarts(start);
    HashDigitsMatch(name, body, flips, covered, digits);
    SentenceIsFrame(UnicoreHash, bufferLength, start, name, body, digits, m);
    SentenceFinds(start, name, body, digits, m);
    HashIsChecked(m, |name| + |body| + 2, covered, digits);
    BodyOf(start, name, body, digits, m);
  }

  lemma BodyOf(start: byte, name: seq<byte>, body: seq<byte>, digits: seq<byte>, m: seq<byte>)
    requires m == Sentence(start, name, body, digits)
    ensures m[|name| + 2..|name| + |body| + 2] == body
  {
  }
}
