/** Runs of deterministic machines that log events. */
module Traces {

  datatype Outcome<+S, +E> = Outcome(state: S, events: seq<E>)

  /** The machine reads the whole input, one element at a time. */
  function Fold<S, B, E>(step: (S, B) -> Outcome<S, E>, st: S, s: seq<B>): Outcome<S, E> {
    if s == [] then Outcome(st, [])
    else
      var before := Fold(step, st, s[..|s| - 1]);
      var last := step(before.state, s[|s| - 1]);
      Outcome(last.state, before.events + last.events)
  }

  /** Reading in two parts: the second part starts where the first one stopped. */
  lemma {:induction false} FoldConcat<S, B, E>(step: (S, B) -> Outcome<S, E>, st: S, a: seq<B>, b: seq<B>)
    ensures Fold(step, st, a + b)
            == Outcome(Fold(step, Fold(step, st, a).state, b).state,
                       Fold(step, st, a).events + Fold(step, Fold(step, st, a).state, b).events)
    decreases |b|
  {
    if b == [] {
      assert a + b == a;
    } else {
      var b' := b[..|b| - 1];
      assert (a + b)[..|a + b| - 1] == a + b';
      FoldConcat(step, st, a, b');
    }
  }

  lemma FoldOne<S, B, E>(step: (S, B) -> Outcome<S, E>, st: S, b: B)
    ensures Fold(step, st, [b]) == step(st, b)
  {
    assert [b][..0] == [];
    assert Fold(step, st, []) == Outcome(st, []);
    assert [] + step(st, b).events == step(st, b).events;
  }

  lemma FoldAppend<S, B, E>(step: (S, B) -> Outcome<S, E>, st: S, s: seq<B>, b: B)
    ensures var before := Fold(step, st, s);
            Fold(step, st, s + [b])
            == Outcome(step(before.state, b).state, before.events + step(before.state, b).events)
  {
    FoldConcat(step, st, s, [b]);
    FoldOne(step, Fold(step, st, s).state, b);
  }

  /** A step that does what the first step from another state does, with one more log, goes on alike. */
  lemma FoldMerges<S, B, E>(step: (S, B) -> Outcome<S, E>, st: S, other: S, log: seq<E>, s: seq<B>)
    requires s != [] && step(st, s[0]) == Outcome(step(other, s[0]).state, log) && step(other, s[0]).events == []
    ensures var rest := Fold(step, other, s); Fold(step, st, s) == Outcome(rest.state, log + rest.events)
  {
    var first, more := [s[0]], s[1..];
    assert s == first + more;
    FoldConcat(step, st, first, more);
    FoldConcat(step, other, first, more);
    FoldOne(step, st, s[0]);
    FoldOne(step, other, s[0]);
  }

  /** The least number with a property. */
  lemma First(p: int -> bool, n: nat) returns (k: nat)
    requires exists j :: 0 <= j < n && p(j)
    ensures k < n && p(k) && forall j | 0 <= j < k :: !p(j)
  {
    k := 0;
    while !p(k)
      invariant k <= n && forall j | 0 <= j < k :: !p(j)
      decreases n - k
    {
      k := k + 1;
    }
  }
}
