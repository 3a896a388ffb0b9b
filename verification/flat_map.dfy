/**
  Concatenating what a function yields for each element of a sequence, in
  order: the shape of a loop that appends each element's results to one
  list. The lemmas here are the list facts the validator's properties rest on.
 */
module FlatMaps {

  function FlatMap<T, U>(f: T -> seq<U>, xs: seq<T>): (r: seq<U>)
    decreases |xs|
  {
    if xs == [] then [] else FlatMap(f, xs[..|xs| - 1]) + f(xs[|xs| - 1])
  }

  lemma FlatMapSnoc<T, U>(f: T -> seq<U>, xs: seq<T>, x: T)
    ensures FlatMap(f, xs + [x]) == FlatMap(f, xs) + f(x)
  {
    assert (xs + [x])[..|xs|] == xs;
  }

  lemma {:induction false} FlatMapAppend<T, U>(f: T -> seq<U>, xs: seq<T>, ys: seq<T>)
    ensures FlatMap(f, xs + ys) == FlatMap(f, xs) + FlatMap(f, ys)
    decreases |ys|
  {
    if ys == [] {
      assert xs + ys == xs;
    } else {
      var init, last := ys[..|ys| - 1], ys[|ys| - 1];
      assert ys == init + [last];
      assert xs + ys == (xs + init) + [last];
      FlatMapAppend(f, xs, init);
      FlatMapSnoc(f, xs + init, last);
      FlatMapSnoc(f, init, last);
    }
  }

  /** An element of the result comes from some element of the input, and every contribution is kept. */
  lemma {:induction false} FlatMapMember<T, U>(f: T -> seq<U>, xs: seq<T>, u: U)
    ensures u in FlatMap(f, xs) <==> exists i | 0 <= i < |xs| :: u in f(xs[i])
    decreases |xs|
  {
    if xs != [] {
      var init := xs[..|xs| - 1];
      FlatMapMember(f, init, u);
      assert forall i | 0 <= i < |init| :: init[i] == xs[i];
    }
  }

  /** Elements that contribute nothing give nothing. */
  lemma {:induction false} FlatMapNone<T, U>(f: T -> seq<U>, xs: seq<T>)
    requires forall i | 0 <= i < |xs| :: f(xs[i]) == []
    ensures FlatMap(f, xs) == []
    decreases |xs|
  {
    if xs != [] {
      FlatMapNone(f, xs[..|xs| - 1]);
    }
  }

  /** Each element contributing at most one result bounds the result's length by the input's. */
  lemma {:induction false} FlatMapAtMostOne<T, U>(f: T -> seq<U>, xs: seq<T>)
    requires forall i | 0 <= i < |xs| :: |f(xs[i])| <= 1
    ensures |FlatMap(f, xs)| <= |xs|
    decreases |xs|
  {
    if xs != [] {
      FlatMapAtMostOne(f, xs[..|xs| - 1]);
    }
  }

  /** A property every contribution has, every element of the result has. */
  lemma {:induction false} FlatMapAll<T, U>(f: T -> seq<U>, xs: seq<T>, p: U -> bool)
    requires forall i, u | 0 <= i < |xs| && u in f(xs[i]) :: p(u)
    ensures forall u <- FlatMap(f, xs) :: p(u)
    decreases |xs|
  {
    if xs != [] {
      FlatMapAll(f, xs[..|xs| - 1], p);
    }
  }

  /** Two functions that agree on every element give the same result. */
  lemma {:induction false} FlatMapAgree<T, U>(f: T -> seq<U>, g: T -> seq<U>, xs: seq<T>)
    requires forall i | 0 <= i < |xs| :: f(xs[i]) == g(xs[i])
    ensures FlatMap(f, xs) == FlatMap(g, xs)
    decreases |xs|
  {
    if xs != [] {
      FlatMapAgree(f, g, xs[..|xs| - 1]);
    }
  }

  /** Taking out the last element of one sequence and the same value at `j` in another keeps equal multisets equal. */
  lemma RemoveMatching<T>(xs: seq<T>, ys: seq<T>, j: nat)
    requires xs != [] && j < |ys| && ys[j] == xs[|xs| - 1]
    requires multiset(xs) == multiset(ys)
    ensures multiset(xs[..|xs| - 1]) == multiset(ys[..j] + ys[j + 1..])
  {
    var last := xs[|xs| - 1];
    assert xs == xs[..|xs| - 1] + [last];
    assert ys == ys[..j] + [last] + ys[j + 1..];
    assert multiset(xs[..|xs| - 1]) == multiset(xs) - multiset{last};
    assert multiset(ys[..j] + ys[j + 1..]) == multiset(ys) - multiset{last};
  }

  /** Reordering the input reorders the result: the multiset of results is the same. */
  lemma {:induction false} FlatMapPermutation<T, U>(f: T -> seq<U>, xs: seq<T>, ys: seq<T>)
    requires multiset(xs) == multiset(ys)
    ensures multiset(FlatMap(f, xs)) == multiset(FlatMap(f, ys))
    decreases |xs|
  {
    if xs == [] {
      assert |ys| == |multiset(ys)| == 0;
    } else {
      var init, last := xs[..|xs| - 1], xs[|xs| - 1];
      assert last in multiset(xs);
      var j :| 0 <= j < |ys| && ys[j] == last;
      var before, after := ys[..j], ys[j + 1..];
      RemoveMatching(xs, ys, j);
      FlatMapPermutation(f, init, before + after);
      assert xs == init + [last];
      assert ys == (before + [last]) + after;
      FlatMapAppend(f, before, after);
      FlatMapAppend(f, before + [last], after);
      FlatMapSnoc(f, before, last);
      FlatMapSnoc(f, init, last);
    }
  }
}
