/** Keeping some elements of a sequence, each mapped to a new value, in
    order: the shape shared by the comparator's two fragment-building
    loops. */
module Filtering {
  import opened Wrappers

  /** The values `f` yields, in the order of `xs`; elements for which `f`
      yields `None` contribute nothing. */
  function FilterMap<T, U>(f: T -> Option<U>, xs: seq<T>): (ys: seq<U>)
    ensures |ys| <= |xs|
  {
    if xs == [] then []
    else
      FilterMap(f, xs[..|xs| - 1]) +
      match f(xs[|xs| - 1])
      case Some(y) => [y]
      case None => []
  }

  /** The positions of the kept elements: increasing, exactly those where
      `f` yields a value, and the k-th output is the value at the k-th
      position. */
  function KeptIndices<T, U>(f: T -> Option<U>, xs: seq<T>): (ix: seq<nat>)
    ensures |ix| == |FilterMap(f, xs)|
    ensures forall k :: 0 <= k < |ix| ==>
      ix[k] < |xs| && f(xs[ix[k]]).Some? && FilterMap(f, xs)[k] == f(xs[ix[k]]).value
    ensures forall k, l :: 0 <= k < l < |ix| ==> ix[k] < ix[l]
    ensures forall i :: 0 <= i < |xs| && f(xs[i]).Some? ==> i in ix
  {
    if xs == [] then []
    else
      var n := |xs| - 1;
      var front := xs[..n];
      var ix0 := KeptIndices(f, front);
      assert forall i :: 0 <= i < n ==> front[i] == xs[i];
      ix0 + if f(xs[n]).Some? then [n] else []
  }

  /** FilterMap distributes over concatenation. */
  lemma {:induction false} FilterMapConcat<T, U>(f: T -> Option<U>, a: seq<T>, b: seq<T>)
    ensures FilterMap(f, a + b) == FilterMap(f, a) + FilterMap(f, b)
    decreases |b|
  {
    if b == [] {
      assert a + b == a;
    } else {
      var n := |b| - 1;
      assert (a + b)[..|a + b| - 1] == a + b[..n];
      assert (a + b)[|a + b| - 1] == b[n];
      FilterMapConcat(f, a, b[..n]);
    }
  }

  /** When `f` keeps nothing, nothing is returned. */
  lemma {:induction false} FilterMapNone<T, U>(f: T -> Option<U>, xs: seq<T>)
    requires forall i :: 0 <= i < |xs| ==> f(xs[i]).None?
    ensures FilterMap(f, xs) == []
  {
    if xs != [] {
      var n := |xs| - 1;
      assert forall i :: 0 <= i < n ==> xs[..n][i] == xs[i];
      FilterMapNone(f, xs[..n]);
    }
  }
}
