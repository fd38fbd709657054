/**
 Words as bit sequences. A shift register lives at one end of a machine word: engines that send
 the most significant bit first keep it at the top and shift left, the reflected engines keep it
 at the bottom and shift right. `Ops` names the operations of such a word, so that the reasoning
 below is the same at both ends: bit 0 is the one that the next shift drops.
 */
module Words {
  import opened Gf2

  datatype Ops<!W(!new)> = Ops(front: W -> bool, step: W -> W, add: (W, W) -> W)

  ghost predicate LinearAt<W(!new)>(o: Ops<W>, a: W, b: W) {
    && o.front(o.add(a, b)) == (o.front(a) != o.front(b))
    && o.step(o.add(a, b)) == o.add(o.step(a), o.step(b))
  }

  ghost predicate Linear<W(!new)>(o: Ops<W>) {
    forall a: W, b: W :: LinearAt(o, a, b)
  }

  predicate Bit<W(!new)>(o: Ops<W>, c: W, i: nat)
    decreases i
  {
    if i == 0 then o.front(c) else Bit(o, o.step(c), i - 1)
  }

  /** The first `w` bits of a word. */
  function WordBits<W(!new)>(o: Ops<W>, w: nat, c: W): (r: Bits)
    ensures |r| == w && forall i | 0 <= i < w :: r[i] == Bit(o, c, i)
  {
    seq(w, i requires 0 <= i < w => Bit(o, c, i))
  }

  /** The word has no one bits beyond the first `w`. */
  ghost predicate Fits<W(!new)>(o: Ops<W>, w: nat, c: W) {
    forall i | i >= w :: !Bit(o, c, i)
  }

  /** One clock of a shift register that lives in a word. */
  function Clock<W(!new)>(o: Ops<W>, poly: W, c: W, bit: bool): W {
    if o.front(c) != bit then o.add(o.step(c), poly) else o.step(c)
  }

  function Steps<W(!new)>(o: Ops<W>, c: W, n: nat): W
    decreases n
  {
    if n == 0 then c else Steps(o, o.step(c), n - 1)
  }

  lemma {:induction false} BitOfAdd<W(!new)>(o: Ops<W>, a: W, b: W, i: nat)
    requires Linear(o)
    ensures Bit(o, o.add(a, b), i) == (Bit(o, a, i) != Bit(o, b, i))
    decreases i
  {
    assert LinearAt(o, a, b);
    if i > 0 {
      BitOfAdd(o, o.step(a), o.step(b), i - 1);
    }
  }

  lemma WordBitsAdd<W(!new)>(o: Ops<W>, w: nat, a: W, b: W)
    requires Linear(o)
    ensures WordBits(o, w, o.add(a, b)) == Xor(WordBits(o, w, a), WordBits(o, w, b))
    ensures Fits(o, w, a) && Fits(o, w, b) ==> Fits(o, w, o.add(a, b))
  {
    forall i: nat ensures Bit(o, o.add(a, b), i) == (Bit(o, a, i) != Bit(o, b, i)) {
      BitOfAdd(o, a, b, i);
    }
  }

  lemma BitOfClock<W(!new)>(o: Ops<W>, poly: W, c: W, bit: bool, i: nat)
    requires Linear(o)
    ensures Bit(o, Clock(o, poly, c, bit), i)
            == (Bit(o, c, i + 1) != (o.front(c) != bit && Bit(o, poly, i)))
  {
    if o.front(c) != bit {
      BitOfAdd(o, o.step(c), poly, i);
    }
  }

  /** A clock on the word is a clock of the shift register. */
  lemma ClockShifts<W(!new)>(o: Ops<W>, w: nat, poly: W, c: W, bit: bool)
    requires Linear(o) && w > 0 && Fits(o, w, poly) && Fits(o, w, c)
    ensures WordBits(o, w, Clock(o, poly, c, bit))
            == Shift(WordBits(o, w, poly), WordBits(o, w, c), bit)
    ensures Fits(o, w, Clock(o, poly, c, bit))
  {
    var d := Clock(o, poly, c, bit);
    var r, s := WordBits(o, w, d), Shift(WordBits(o, w, poly), WordBits(o, w, c), bit);
    forall i | 0 <= i < w ensures r[i] == s[i] {
      BitOfClock(o, poly, c, bit, i);
    }
    forall i | i >= w ensures !Bit(o, d, i) {
      BitOfClock(o, poly, c, bit, i);
    }
  }

  lemma {:induction false} BitOfSteps<W(!new)>(o: Ops<W>, c: W, n: nat, i: nat)
    ensures Bit(o, Steps(o, c, n), i) == Bit(o, c, i + n)
    decreases n
  {
    if n > 0 {
      BitOfSteps(o, o.step(c), n - 1, i);
    }
  }

  lemma WordBitsOfSteps<W(!new)>(o: Ops<W>, w: nat, c: W, n: nat)
    requires n <= w && Fits(o, w, c)
    ensures WordBits(o, w, Steps(o, c, n)) == WordBits(o, w, c)[n..] + Zeros(n)
    ensures Fits(o, w, Steps(o, c, n))
  {
    forall i: nat ensures Bit(o, Steps(o, c, n), i) == Bit(o, c, i + n) {
      BitOfSteps(o, c, n, i);
    }
  }

  // ---------------------------------------------------------------------------------------
  // The two ends of a 32-bit word
  // ---------------------------------------------------------------------------------------

  const TOP: Ops<bv32> :=
    Ops((c: bv32) => c & 0x80000000 != 0, (c: bv32) => c << 1, (a: bv32, b: bv32) => a ^ b)

  const BOTTOM: Ops<bv32> :=
    Ops((c: bv32) => c & 1 != 0, (c: bv32) => c >> 1, (a: bv32, b: bv32) => a ^ b)

  lemma TopIsLinear()
    ensures Linear(TOP)
  {
    forall a: bv32, b: bv32 ensures LinearAt(TOP, a, b) {
      assert TOP.add(a, b) == a ^ b;
    }
  }

  lemma BottomIsLinear()
    ensures Linear(BOTTOM)
  {
    forall a: bv32, b: bv32 ensures LinearAt(BOTTOM, a, b) {
      assert BOTTOM.add(a, b) == a ^ b;
    }
  }

  lemma TopSteps8(c: bv32)
    ensures Steps(TOP, c, 8) == c << 8
  {
  }

  lemma BottomSteps8(c: bv32)
    ensures Steps(BOTTOM, c, 8) == c >> 8
  {
  }
}
