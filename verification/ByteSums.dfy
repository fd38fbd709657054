/**
 Sums of bytes modulo 256. The reasoning is about any type with an addition that is addition
 modulo 256 under some numbering of its values; bytes are one such type.
 */
module ByteSums {
  import opened Bytes
  import opened Formats

  // ---------------------------------------------------------------------------------------
  // Addition modulo 256
  // ---------------------------------------------------------------------------------------

  ghost predicate Modular<W(!new)>(value: W -> int, add: (W, W) -> W) {
    && (forall a: W :: 0 <= value(a) < 256)
    && (forall a: W, b: W :: value(add(a, b)) == (value(a) + value(b)) % 256)
  }

  ghost predicate AddsNext<W(!new)>(add: (W, W) -> W, one: W, a: W, p: W) {
    add(a, add(p, one)) == add(add(a, p), one)
  }

  /** Counting up from zero, one at a time. */
  ghost predicate Counts<W(!new)>(value: W -> int, add: (W, W) -> W, zero: W, one: W) {
    && (forall a: W :: add(a, zero) == a && 0 <= value(a) < 256)
    && (forall a: W :: value(add(a, one)) == (value(a) + 1) % 256)
    && (forall b: W | value(b) == 0 :: b == zero)
    && (forall a: W, p: W :: AddsNext(add, one, a, p))
  }

  lemma {:induction false} CountsUp<W(!new)>(value: W -> int, add: (W, W) -> W, zero: W, one: W, pred: W -> W, a: W,
                                             b: W)
    requires Counts(value, add, zero, one) && forall x: W :: add(pred(x), one) == x
    ensures value(add(a, b)) == (value(a) + value(b)) % 256
    decreases value(b)
  {
    if value(b) == 0 {
      assert b == zero;
    } else {
      var p := pred(b);
      assert add(p, one) == b;
      assert value(b) == (value(p) + 1) % 256;
      CountsUp(value, add, zero, one, pred, a, p);
      assert AddsNext(add, one, a, p);
    }
  }

  const VALUE: byte -> int := (b: byte) => b as int
  const PLUS: (byte, byte) -> byte := (a: byte, b: byte) => Plus(a, b)

  lemma NextByteValue(a: byte)
    ensures VALUE(PLUS(a, 1)) == (VALUE(a) + 1) % 256 && Plus(a, 1) as int == (a as int + 1) % 256
  {
  }

  lemma ZeroByte(a: byte)
    ensures VALUE(a) == 0 ==> a == 0
  {
    assert (a as int) as bv8 == a;
  }

  lemma BytesAddNext(a: byte, p: byte)
    ensures AddsNext(PLUS, 1, a, p)
  {
  }

  lemma BytesCount()
    ensures Counts(VALUE, PLUS, 0, 1)
  {
    forall a: byte ensures VALUE(PLUS(a, 1)) == (VALUE(a) + 1) % 256 {
      NextByteValue(a);
    }
    forall a: byte | VALUE(a) == 0 ensures a == 0 {
      ZeroByte(a);
    }
    forall a: byte, p: byte ensures AddsNext(PLUS, 1, a, p) {
      BytesAddNext(a, p);
    }
  }

  /** Eight-bit addition is addition modulo 256. */
  lemma BytesAreModular()
    ensures Modular(VALUE, PLUS)
  {
    BytesCount();
    forall a: byte, b: byte ensures VALUE(PLUS(a, b)) == (VALUE(a) + VALUE(b)) % 256 {
      CountsUp(VALUE, PLUS, 0, 1, (x: byte) => x - 1, a, b);
    }
  }

  lemma DifferentBytes(x: byte, y: byte)
    requires x != y
    ensures VALUE(x) != VALUE(y)
  {
    assert (x as int) as bv8 == x && (y as int) as bv8 == y;
  }

  // ---------------------------------------------------------------------------------------
  // The plain sum and the sum weighted by the distance from the end
  // ---------------------------------------------------------------------------------------

  function Plain<W>(value: W -> int, s: seq<W>): int {
    if s == [] then 0 else value(s[0]) + Plain(value, s[1..])
  }

  function Weighted<W>(value: W -> int, s: seq<W>): int {
    if s == [] then 0 else |s| * value(s[0]) + Weighted(value, s[1..])
  }

  lemma WeightOfFirst(n: nat, k: nat, x: int, rest: int)
    ensures (n + k) * x + k * rest == n * x + k * (x + rest)
  {
  }

  lemma {:induction false} SumsConcat<W>(value: W -> int, a: seq<W>, b: seq<W>)
    ensures Plain(value, a + b) == Plain(value, a) + Plain(value, b)
    ensures Weighted(value, a + b) == Weighted(value, a) + |b| * Plain(value, a) + Weighted(value, b)
    decreases |a|
  {
    if a == [] {
      assert a + b == b;
    } else {
      assert (a + b)[1..] == a[1..] + b;
      SumsConcat(value, a[1..], b);
      WeightOfFirst(|a|, |b|, value(a[0]), Plain(value, a[1..]));
    }
  }

  lemma SumsAppend<W>(value: W -> int, s: seq<W>, x: W)
    ensures Plain(value, s + [x]) == Plain(value, s) + value(x)
    ensures Weighted(value, s + [x]) == Weighted(value, s) + Plain(value, s) + value(x)
  {
    SumsConcat(value, s, [x]);
    assert [x][1..] == [];
  }

  /** The two running sums of a Fletcher checksum. */
  function FoldSums<W>(add: (W, W) -> W, zero: W, s: seq<W>): (W, W) {
    if s == [] then (zero, zero)
    else
      var ck := FoldSums(add, zero, s[..|s| - 1]);
      var a := add(ck.0, s[|s| - 1]);
      (a, add(ck.1, a))
  }

  lemma ModuloSum(x: int, y: int)
    ensures (x % 256 + y % 256) % 256 == (x + y) % 256
  {
  }

  lemma FoldStep<W(!new)>(value: W -> int, add: (W, W) -> W, a: W, b: W, x: W, plain: int, weighted: int)
    requires Modular(value, add)
    requires value(a) == plain % 256 && value(b) == weighted % 256
    ensures value(add(a, x)) == (plain + value(x)) % 256
    ensures value(add(b, add(a, x))) == (weighted + (plain + value(x))) % 256
  {
    var n := value(x);
    assert 0 <= n < 256;
    ModuloSum(plain, n);
    ModuloSum(weighted, plain + n);
  }

  /** They are the plain and the weighted sum, modulo 256. */
  lemma {:induction false} FoldIsSums<W(!new)>(value: W -> int, add: (W, W) -> W, zero: W, s: seq<W>)
    requires Modular(value, add) && value(zero) == 0
    ensures value(FoldSums(add, zero, s).0) == Plain(value, s) % 256
    ensures value(FoldSums(add, zero, s).1) == Weighted(value, s) % 256
    decreases |s|
  {
    if s != [] {
      var init, x := s[..|s| - 1], s[|s| - 1];
      assert s == init + [x];
      FoldIsSums(value, add, zero, init);
      SumsAppend(value, init, x);
      var ck := FoldSums(add, zero, init);
      FoldStep(value, add, ck.0, ck.1, x, Plain(value, init), Weighted(value, init));
    }
  }

  lemma {:induction false} FletcherIsFold(s: seq<byte>)
    ensures Fletcher(s) == FoldSums(PLUS, 0, s)
    decreases |s|
  {
    if s != [] {
      FletcherIsFold(s[..|s| - 1]);
    }
  }

  /** The u-blox checksum bytes are the plain and the position-weighted sum of the bytes, modulo 256. */
  lemma FletcherIsSums(s: seq<byte>)
    ensures VALUE(Fletcher(s).0) == Plain(VALUE, s) % 256 && VALUE(Fletcher(s).1) == Weighted(VALUE, s) % 256
  {
    FletcherIsFold(s);
    BytesAreModular();
    FoldIsSums(VALUE, PLUS, 0, s);
  }

  // ---------------------------------------------------------------------------------------
  // Changes that the sums notice
  // ---------------------------------------------------------------------------------------

  lemma NotCongruent(n: int, x: int, y: int)
    requires 0 <= x < 256 && 0 <= y < 256 && x != y
    ensures (n + x) % 256 != (n + y) % 256
  {
  }

  lemma ChangeOfOne<W>(value: W -> int, a: seq<W>, x: W, y: W, b: seq<W>)
    requires 0 <= value(x) < 256 && 0 <= value(y) < 256 && value(x) != value(y)
    ensures Plain(value, a + [x] + b) % 256 != Plain(value, a + [y] + b) % 256
  {
    SumsConcat(value, a + [x], b);
    SumsConcat(value, a + [y], b);
    SumsAppend(value, a, x);
    SumsAppend(value, a, y);
    NotCongruent(Plain(value, a) + Plain(value, b), value(x), value(y));
  }

  lemma SumsOfPair<W>(value: W -> int, a: seq<W>, x: W, y: W)
    ensures Plain(value, a + [x, y]) == Plain(value, a) + value(x) + value(y)
    ensures Weighted(value, a + [x, y]) == Weighted(value, a) + 2 * Plain(value, a) + 2 * value(x) + value(y)
  {
    assert a + [x, y] == a + [x] + [y];
    SumsAppend(value, a, x);
    SumsAppend(value, a + [x], y);
  }

  lemma SwapOfTwo<W>(value: W -> int, a: seq<W>, x: W, y: W, b: seq<W>)
    requires 0 <= value(x) < 256 && 0 <= value(y) < 256 && value(x) != value(y)
    ensures Weighted(value, a + [x, y] + b) % 256 != Weighted(value, a + [y, x] + b) % 256
  {
    SumsConcat(value, a + [x, y], b);
    SumsConcat(value, a + [y, x], b);
    SumsOfPair(value, a, x, y);
    SumsOfPair(value, a, y, x);
    var sum := |b| * (Plain(value, a) + value(x) + value(y));
    NotCongruent(Weighted(value, a) + 2 * Plain(value, a) + value(x) + value(y) + sum + Weighted(value, b),
                 value(x), value(y));
  }

  /** A change of one byte changes the checksum. */
  lemma ByteChangesFletcher(a: seq<byte>, x: byte, y: byte, b: seq<byte>)
    requires x != y
    ensures Fletcher(a + [x] + b) != Fletcher(a + [y] + b)
  {
    BytesAreModular();
    DifferentBytes(x, y);
    FletcherIsSums(a + [x] + b);
    FletcherIsSums(a + [y] + b);
    ChangeOfOne(VALUE, a, x, y, b);
  }

  /** So does a swap of two adjacent unequal bytes. */
  lemma SwapChangesFletcher(a: seq<byte>, x: byte, y: byte, b: seq<byte>)
    requires x != y
    ensures Fletcher(a + [x, y] + b) != Fletcher(a + [y, x] + b)
  {
    BytesAreModular();
    DifferentBytes(x, y);
    FletcherIsSums(a + [x, y] + b);
    FletcherIsSums(a + [y, x] + b);
    SwapOfTwo(VALUE, a, x, y, b);
  }
}
