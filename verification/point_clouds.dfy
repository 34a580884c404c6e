/**
 * The point store, seen only through the capability surface the cover-tree core consumes.
 * Distances are abstract reals; no floating-point arithmetic is modelled. Every call fails
 * with `MetricFailure` exactly when one of the indexes it is given cannot be resolved.
 */
module PointClouds {
  import opened Wrappers
  import opened Errors

  datatype PointCloud = PointCloud(
    /** Whether the store can resolve a point index. */
    valid: nat -> bool,
    /** Distance between two stored points. */
    dist: (nat, nat) -> real,
    /** Minimum entry of the adjacency matrix of a list of points. */
    adjMin: seq<nat> -> real)

  /** A query point, seen through its distance to every stored point. */
  datatype QueryPoint = QueryPoint(distTo: nat -> real)

  predicate AllValid(pc: PointCloud, idx: seq<nat>) {
    forall k :: 0 <= k < |idx| ==> pc.valid(idx[k])
  }

  /** `distances_to_point`: distances from a query point to each listed index, aligned with the list. */
  function DistancesToPoint(pc: PointCloud, q: QueryPoint, idx: seq<nat>): (r: Result<seq<real>, Error>)
    ensures r.Ok? <==> AllValid(pc, idx)
    ensures r.Ok? ==> |r.value| == |idx| && forall k :: 0 <= k < |idx| ==> r.value[k] == q.distTo(idx[k])
    ensures r.Err? ==> r.error == MetricFailure
  {
    if AllValid(pc, idx) then Ok(seq(|idx|, k requires 0 <= k < |idx| => q.distTo(idx[k])))
    else Err(MetricFailure)
  }

  /** `distances_to_point_index`: distances from a stored point to each listed index, aligned with the list. */
  function DistancesToIndex(pc: PointCloud, center: nat, idx: seq<nat>): (r: Result<seq<real>, Error>)
    ensures r.Ok? <==> pc.valid(center) && AllValid(pc, idx)
    ensures r.Ok? ==> |r.value| == |idx| && forall k :: 0 <= k < |idx| ==> r.value[k] == pc.dist(center, idx[k])
    ensures r.Err? ==> r.error == MetricFailure
  {
    if pc.valid(center) && AllValid(pc, idx) then Ok(seq(|idx|, k requires 0 <= k < |idx| => pc.dist(center, idx[k])))
    else Err(MetricFailure)
  }

  /** `adj(..)?.min()`: the minimum of the adjacency matrix of the listed points. */
  function AdjMin(pc: PointCloud, idx: seq<nat>): (r: Result<real, Error>)
    ensures r.Ok? <==> AllValid(pc, idx)
    ensures r.Ok? ==> r.value == pc.adjMin(idx)
  {
    if AllValid(pc, idx) then Ok(pc.adjMin(idx)) else Err(MetricFailure)
  }

  lemma AllValidAppend(pc: PointCloud, a: seq<nat>, b: seq<nat>)
    ensures AllValid(pc, a + b) <==> AllValid(pc, a) && AllValid(pc, b)
  {
    if AllValid(pc, a) && AllValid(pc, b) {
      forall k | 0 <= k < |a + b|
        ensures pc.valid((a + b)[k])
      {
        if k >= |a| { assert (a + b)[k] == b[k - |a|]; }
      }
    }
    if AllValid(pc, a + b) {
      forall k | 0 <= k < |a|
        ensures pc.valid(a[k])
      {
        assert (a + b)[k] == a[k];
      }
      forall k | 0 <= k < |b|
        ensures pc.valid(b[k])
      {
        assert (a + b)[|a| + k] == b[k];
      }
    }
  }
}
