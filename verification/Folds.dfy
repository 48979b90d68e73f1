// Running a step over a sequence, last element last.
module Folds {
  function Fold<S, B>(f: (S, B) -> S, init: S, s: seq<B>): S {
    if s == [] then init else f(Fold(f, init, s[..|s| - 1]), s[|s| - 1])
  }

  lemma {:induction false} FoldConcat<S, B>(f: (S, B) -> S, init: S, s: seq<B>, t: seq<B>)
    ensures Fold(f, init, s + t) == Fold(f, Fold(f, init, s), t)
  {
    if t == [] {
      assert s + t == s;
    } else {
      assert (s + t)[..|s + t| - 1] == s + t[..|t| - 1];
      FoldConcat(f, init, s, t[..|t| - 1]);
    }
  }

  lemma FoldNext<S, B>(f: (S, B) -> S, init: S, s: seq<B>, i: nat)
    requires i < |s|
    ensures Fold(f, init, s[..i + 1]) == f(Fold(f, init, s[..i]), s[i])
  {
    assert s[..i + 1][..i] == s[..i];
  }
}
