/** Bytes, little-endian fields and hexadecimal characters. */
module Bytes {

  /** One byte of the input stream. */
  type byte = bv8

  const CR: byte := 0x0D
  const LF: byte := 0x0A
  const CRLF: seq<byte> := [CR, LF]
  const COMMA: byte := 0x2C
  const STAR: byte := 0x2A

  /** Unsigned 16-bit wrap-around, for the `uint16_t` counters. */
  function U16(x: int): (r: nat)
    ensures r < 65536
  {
    x % 65536
  }

  lemma U16Pred(x: int)
    ensures U16(U16(x) - 1) == U16(x - 1)
  {
  }

  /** Addition with 8-bit wrap-around. */
  function Plus(a: byte, b: byte): byte {
    a + b
  }

  /** The value of a 16-bit field whose low byte comes first. */
  function LittleEndian16(lo: byte, hi: byte): (n: nat)
    ensures n < 65536
  {
    lo as int + 256 * (hi as int)
  }

  /** The value of a hexadecimal character, or -1. Bit 5 is forced on first, as the source does. */
  function AsciiToNibble(data: byte): (r: int)
    ensures -1 <= r < 16
  {
    var low := data | 0x20;
    if 0x61 <= low <= 0x66 then (low - 0x61) as int + 10
    else if 0x30 <= low <= 0x39 then (low - 0x30) as int
    else -1
  }

  predicate IsNibble(data: byte) {
    AsciiToNibble(data) >= 0
  }

  /** The characters allowed in a sentence name. */
  predicate IsNameChar(data: byte) {
    0x41 <= data & 0xDF <= 0x5A || 0x30 <= data <= 0x39
  }

  /** The first position of `b` in `s`, or `|s|` when there is none. */
  function Find(s: seq<byte>, b: byte): (i: nat)
    ensures i <= |s|
    ensures i < |s| ==> s[i] == b
    ensures forall j | 0 <= j < i :: s[j] != b
  {
    if s == [] then 0
    else
      var i := Find(s[..|s| - 1], b);
      if i < |s| - 1 || s[|s| - 1] == b then i else |s|
  }

  /** The exclusive or of all bytes. */
  function XorAll(s: seq<byte>): byte {
    if s == [] then 0 else XorAll(s[..|s| - 1]) ^ s[|s| - 1]
  }
}
