/** Shared facts about sequences. */
module Sequences {

  function FlatMap<S, T>(f: S -> seq<T>, xs: seq<S>): seq<T> {
    if xs == [] then [] else f(xs[0]) + FlatMap(f, xs[1..])
  }

  lemma {:induction false} FlatMapConcat<S, T>(f: S -> seq<T>, a: seq<S>, b: seq<S>)
    ensures FlatMap(f, a + b) == FlatMap(f, a) + FlatMap(f, b)
    decreases |a|
  {
    if a == [] {
      assert a + b == b;
    } else {
      assert (a + b)[1..] == a[1..] + b;
      FlatMapConcat(f, a[1..], b);
    }
  }

  lemma FlatMapOne<S, T>(f: S -> seq<T>, x: S)
    ensures FlatMap(f, [x]) == f(x)
  {
    assert [x][1..] == [];
  }

  lemma FlatMapSnoc<S, T>(f: S -> seq<T>, xs: seq<S>, x: S)
    ensures FlatMap(f, xs + [x]) == FlatMap(f, xs) + f(x)
  {
    FlatMapConcat(f, xs, [x]);
    FlatMapOne(f, x);
  }

  lemma {:induction false} FlatMapNone<S, T>(f: S -> seq<T>, xs: seq<S>)
    requires forall x <- xs :: f(x) == []
    ensures FlatMap(f, xs) == []
    decreases |xs|
  {
    if xs != [] {
      FlatMapNone(f, xs[1..]);
    }
  }
}
