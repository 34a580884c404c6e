/** Sequence helpers shared by the caches, the persistence mapping and the query log. */
module Seqs {

  function Min(a: nat, b: nat): nat {
    if a <= b then a else b
  }

  /**
   * Rust's `zip` followed by a `map`: combines the elements at equal positions, stopping at the
   * end of the shorter sequence.
   */
  function ZipWith<A, B, C>(xs: seq<A>, ys: seq<B>, f: (A, B) -> C): (r: seq<C>)
    ensures |r| == Min(|xs|, |ys|)
    ensures forall k :: 0 <= k < |r| ==> r[k] == f(xs[k], ys[k])
  {
    seq(Min(|xs|, |ys|), k requires 0 <= k < Min(|xs|, |ys|) => f(xs[k], ys[k]))
  }
}
