/** Order-preserving filtering, prefixes and duplicate-freedom of sequences. */
module Seqs {

  /** No element of `xs` occurs twice. */
  ghost predicate NoDuplicates<T>(xs: seq<T>) {
    forall i, j :: 0 <= i < j < |xs| ==> xs[i] != xs[j]
  }

  ghost predicate StrictlyIncreasing(ks: seq<nat>) {
    forall a, b :: 0 <= a < b < |ks| ==> ks[a] < ks[b]
  }

  /** `r` consists of the elements of `xs` at the strictly increasing positions `ks`, in that order:
      `r` is an order-preserving subsequence of `xs`, and `ks` says where each element came from. */
  ghost predicate SelectedBy<T>(r: seq<T>, xs: seq<T>, ks: seq<nat>) {
    && |r| == |ks|
    && StrictlyIncreasing(ks)
    && (forall k :: 0 <= k < |ks| ==> ks[k] < |xs| && r[k] == xs[ks[k]])
  }

  /** JavaScript `xs.slice(0, n)`: the first `n` elements, or all of them when there are fewer. */
  function Take<T>(xs: seq<T>, n: nat): (r: seq<T>)
    ensures |r| == if |xs| < n then |xs| else n
    ensures r <= xs
  {
    if |xs| <= n then xs else xs[..n]
  }

  /** JavaScript `xs.filter(p)`. It is written here by recursion on the last element, which
      yields the same sequence as the front-to-back scan of JavaScript's `Array.prototype.filter`. */
  function Filter<T>(xs: seq<T>, p: T -> bool): (r: seq<T>)
    ensures |r| <= |xs|
    ensures forall k :: 0 <= k < |r| ==> r[k] in xs && p(r[k])
    ensures forall i :: 0 <= i < |xs| && p(xs[i]) ==> xs[i] in r
    decreases |xs|
  {
    if |xs| == 0 then []
    else
      assert xs == xs[..|xs| - 1] + [xs[|xs| - 1]];
      Filter(xs[..|xs| - 1], p) + (if p(xs[|xs| - 1]) then [xs[|xs| - 1]] else [])
  }

  /** The positions of `xs`, in increasing order, whose element satisfies `p`. */
  function Positions<T>(xs: seq<T>, p: T -> bool): (ks: seq<nat>)
    ensures StrictlyIncreasing(ks)
    ensures forall k :: 0 <= k < |ks| ==> ks[k] < |xs|
    ensures forall i :: 0 <= i < |xs| ==> (p(xs[i]) <==> i in ks)
    decreases |xs|
  {
    if |xs| == 0 then []
    else
      var rest := Positions(xs[..|xs| - 1], p);
      assert forall i :: 0 <= i < |xs| - 1 ==> xs[..|xs| - 1][i] == xs[i];
      if p(xs[|xs| - 1]) then rest + [|xs| - 1] else rest
  }

  /** The filter keeps exactly the elements at `Positions(xs, p)`, in their original order. */
  lemma {:induction false} FilterSelectsPositions<T>(xs: seq<T>, p: T -> bool)
    ensures SelectedBy(Filter(xs, p), xs, Positions(xs, p))
    decreases |xs|
  {
    if |xs| > 0 {
      var n := |xs|;
      var init, last := xs[..n - 1], xs[n - 1];
      FilterSelectsPositions(init, p);
      assert xs == init + [last];
      if p(last) {
        SelectedByAppendKept(Filter(init, p), init, Positions(init, p), last);
      } else {
        SelectedByAppendDropped(Filter(init, p), init, Positions(init, p), last);
      }
    }
  }

  lemma SelectedByAppendKept<T>(r: seq<T>, xs: seq<T>, ks: seq<nat>, x: T)
    requires SelectedBy(r, xs, ks)
    ensures SelectedBy(r + [x], xs + [x], ks + [|xs|])
  {
  }

  lemma SelectedByAppendDropped<T>(r: seq<T>, xs: seq<T>, ks: seq<nat>, x: T)
    requires SelectedBy(r, xs, ks)
    ensures SelectedBy(r, xs + [x], ks)
  {
  }

  lemma FilterSingleton<T>(x: T, p: T -> bool)
    ensures Filter([x], p) == if p(x) then [x] else []
  {
    assert [x][..0] == [];
  }

  /** Filtering a sequence whose elements all pass leaves it unchanged. */
  lemma {:induction false} FilterAllPass<T>(xs: seq<T>, p: T -> bool)
    requires forall k :: 0 <= k < |xs| ==> p(xs[k])
    ensures Filter(xs, p) == xs
    decreases |xs|
  {
    if |xs| > 0 {
      FilterAllPass(xs[..|xs| - 1], p);
      assert xs == xs[..|xs| - 1] + [xs[|xs| - 1]];
    }
  }

  /** Filtering distributes over concatenation. */
  lemma {:induction false} FilterConcat<T>(a: seq<T>, b: seq<T>, p: T -> bool)
    ensures Filter(a + b, p) == Filter(a, p) + Filter(b, p)
    decreases |b|
  {
    if |b| > 0 {
      var b' := b[..|b| - 1];
      FilterConcat(a, b', p);
      assert (a + b)[..|a + b| - 1] == a + b';
    } else {
      assert a + b == a;
    }
  }

  /** An order-preserving subsequence of a duplicate-free sequence is duplicate-free. */
  lemma SelectedByNoDuplicates<T>(r: seq<T>, xs: seq<T>, ks: seq<nat>)
    requires SelectedBy(r, xs, ks)
    requires NoDuplicates(xs)
    ensures NoDuplicates(r)
  {
    forall i, j | 0 <= i < j < |r|
      ensures r[i] != r[j]
    {
      assert ks[i] < ks[j];
    }
  }

  /** Filtering never introduces a duplicate. */
  lemma FilterNoDuplicates<T>(xs: seq<T>, p: T -> bool)
    requires NoDuplicates(xs)
    ensures NoDuplicates(Filter(xs, p))
  {
    FilterSelectsPositions(xs, p);
    SelectedByNoDuplicates(Filter(xs, p), xs, Positions(xs, p));
  }
}
