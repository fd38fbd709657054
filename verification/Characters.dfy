/**
 The characters of the sentence formats, given as characters: delimiters, sentence starts, the
 alphabet of names and the spellings of checksum digits.
 */
module Characters {
  import opened Bytes
  import opened Formats

  /** The ASCII code of a character. */
  function Code(c: char): byte
    requires c < 128 as char
  {
    (c as int) as bv8
  }

  /** The ASCII codes of a text. */
  function Text(s: string): (r: seq<byte>)
    requires forall i | 0 <= i < |s| :: s[i] < 128 as char
    ensures |r| == |s| && forall i | 0 <= i < |s| :: r[i] == Code(s[i])
  {
    seq(|s|, i requires 0 <= i < |s| => Code(s[i]))
  }

  predicate InRange(b: byte, first: char, last: char)
    requires first < 128 as char && last < 128 as char
  {
    Code(first) <= b <= Code(last)
  }

  /** Carriage return, line feed, comma, asterisk, and the word that selects the short checksum. */
  lemma Delimiters()
    ensures CR == Code('\r') && LF == Code('\n') && CRLF == Text("\r\n")
    ensures COMMA == Code(',') && STAR == Code('*') && MODE == Text("MODE")
  {
  }

  /** The characters that begin a sentence, and no others. */
  lemma SentenceStarts(b: byte)
    ensures Preamble(Nmea, b) <==> b == Code('$') || b == Code('!')
    ensures Preamble(UnicoreHash, b) <==> b == Code('#')
    ensures Preamble(MmpNmea, b) <==> b == Code('$')
  {
  }

  predicate IsLetterOrDigit(b: byte) {
    InRange(b, 'A', 'Z') || InRange(b, 'a', 'z') || InRange(b, '0', '9')
  }

  /** `word` occurs in `s` exactly when `s` can be cut in three around it. */
  lemma ContainsWord(s: seq<byte>, word: seq<byte>)
    ensures Contains(s, word) <==> exists a, b :: s == a + word + b
  {
    if Contains(s, word) {
      var i :| 0 <= i <= |s| && OccursAt(s, i, word);
      assert s == s[..i] + word + s[i + |word|..];
    }
    if a, b :| s == a + word + b {
      assert OccursAt(s, |a|, word);
    }
  }

  /** Names are made of the 26 letters in either case and the ten digits. */
  lemma NameAlphabet(b: byte)
    ensures IsNameChar(b) <==> IsLetterOrDigit(b)
  {
  }

  /** The checksum characters and their values: both cases, and the ten control codes that bit 5 makes digits. */
  lemma HexCharacters(b: byte)
    ensures IsNibble(b)
            <==> InRange(b, '0', '9') || InRange(b, 'A', 'F') || InRange(b, 'a', 'f') || 0x10 <= b <= 0x19
    ensures InRange(b, '0', '9') ==> AsciiToNibble(b) == b as int - '0' as int
    ensures InRange(b, 'A', 'F') ==> AsciiToNibble(b) == b as int - 'A' as int + 10
    ensures InRange(b, 'a', 'f') ==> AsciiToNibble(b) == b as int - 'a' as int + 10
    ensures 0x10 <= b <= 0x19 ==> AsciiToNibble(b) == b as int - 0x10
  {
  }

  /** Bit 5 does not matter. */
  lemma EitherCase(b: byte)
    ensures AsciiToNibble(b ^ 0x20) == AsciiToNibble(b)
  {
    assert (b ^ 0x20) | 0x20 == b | 0x20;
  }
}
