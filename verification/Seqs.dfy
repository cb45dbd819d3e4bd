/** Concatenating the images of a list, the shape of every nested push loop. */
module Seqs {

  function FlatMap<A, B>(xs: seq<A>, f: A -> seq<B>): seq<B> {
    if xs == [] then [] else FlatMap(xs[..|xs| - 1], f) + f(xs[|xs| - 1])
  }

  lemma FlatMapStep<A, B>(xs: seq<A>, f: A -> seq<B>, i: nat)
    requires i < |xs|
    ensures FlatMap(xs[..i + 1], f) == FlatMap(xs[..i], f) + f(xs[i])
  {
    assert xs[..i + 1][..i] == xs[..i];
  }

  lemma {:induction false} FlatMapMember<A, B>(xs: seq<A>, f: A -> seq<B>, y: B)
    ensures y in FlatMap(xs, f) <==> exists x <- xs :: y in f(x)
  {
    if xs != [] {
      FlatMapMember(xs[..|xs| - 1], f, y);
      assert xs == xs[..|xs| - 1] + [xs[|xs| - 1]];
    }
  }

  lemma {:induction false} FlatMapConcat<A, B>(xs: seq<A>, ys: seq<A>, f: A -> seq<B>)
    ensures FlatMap(xs + ys, f) == FlatMap(xs, f) + FlatMap(ys, f)
  {
    if ys == [] {
      assert xs + ys == xs;
    } else {
      FlatMapConcat(xs, ys[..|ys| - 1], f);
      assert (xs + ys)[..|xs + ys| - 1] == xs + ys[..|ys| - 1];
    }
  }

  lemma FullSlice<A>(xs: seq<A>)
    ensures xs[..|xs|] == xs
  {
  }

  /** Elements of `xs` that are not in `ys`, in order. */
  function Minus<A(==)>(xs: seq<A>, ys: seq<A>): seq<A> {
    FlatMap(xs, (x: A) => if x in ys then [] else [x])
  }

  lemma MinusMember<A>(xs: seq<A>, ys: seq<A>, x: A)
    ensures x in Minus(xs, ys) <==> x in xs && x !in ys
  {
    FlatMapMember(xs, (x: A) => if x in ys then [] else [x], x);
  }

  lemma {:induction false} FlatMapSame<A, B>(xs: seq<A>, f: A -> seq<B>, g: A -> seq<B>)
    requires forall x <- xs :: f(x) == g(x)
    ensures FlatMap(xs, f) == FlatMap(xs, g)
  {
    if xs != [] { FlatMapSame(xs[..|xs| - 1], f, g); }
  }
}
