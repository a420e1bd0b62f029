/** Loops over a sequence, written as left folds. */
module Folds {
  /** The state after `step` has consumed every element of `xs`, first to last, from `s`. */
  function Fold<S, T>(step: (S, T) -> S, s: S, xs: seq<T>): S
    decreases |xs|
  {
    if xs == [] then s else step(Fold(step, s, xs[..|xs| - 1]), xs[|xs| - 1])
  }

  /** Folding over two parts is folding over the first, then the second. */
  lemma {:induction false} FoldAppend<S, T>(step: (S, T) -> S, s: S, a: seq<T>, b: seq<T>)
    ensures Fold(step, s, a + b) == Fold(step, Fold(step, s, a), b)
    decreases |b|
  {
    if b == [] {
      assert a + b == a;
    } else {
      var ab, b', last := a + b, b[..|b| - 1], b[|b| - 1];
      assert ab[..|ab| - 1] == a + b' && ab[|ab| - 1] == last;
      FoldAppend(step, s, a, b');
    }
  }
}
