/**
 * The construction-time caches of `data_caches.rs`.
 *
 * A `CoveredData` holds a centre and the points it covers, with their distances to it, in two
 * parallel sequences; an `UncoveredData` is a pool of points not yet assigned at the current
 * scale. `Split` and `PickCenter` are the same single order-preserving pass (`PartitionEntries`),
 * applied to a covered bucket and to a freshly measured pool. The random position of
 * `pick_center` is a parameter.
 */
module DataCaches {
  import opened Wrappers
  import opened Errors
  import opened PointClouds
  import opened Partitions

  datatype CoveredData = CoveredData(dists: seq<real>, coverage: seq<nat>, centerIndex: nat)

  datatype UncoveredData = UncoveredData(coverage: seq<nat>)

  /** The result of `max_distance`: `f32`'s negative infinity, or a distance. */
  datatype Bound = NegInf | Finite(value: real)

  /** One distance per covered point: the shape every constructor of a `CoveredData` yields. */
  predicate Aligned(c: CoveredData) {
    |c.dists| == |c.coverage|
  }

  /** The (index, distance) pairs a pass over the cache walks. */
  function Entries(c: CoveredData): seq<Entry> {
    Zip(c.coverage, c.dists)
  }

  /** `CoveredData::len`: the covered points and the centre. */
  function Len(c: CoveredData): (r: nat)
    ensures r >= 1
    ensures Aligned(c) ==> r == |Entries(c)| + 1
  {
    |c.coverage| + 1
  }

  /** `UncoveredData::len`: the size of the pool. */
  function UncoveredLen(u: UncoveredData): (r: nat)
    ensures r == |multiset(u.coverage)|
  {
    |u.coverage|
  }

  /** Points measured from a centre, in the order given. */
  function Measured(pc: PointCloud, center: nat, idx: seq<nat>): (es: seq<Entry>)
    ensures |es| == |idx|
    ensures forall k :: 0 <= k < |idx| ==> es[k] == Entry(idx[k], pc.dist(center, idx[k]))
  {
    seq(|idx|, k requires 0 <= k < |idx| => Entry(idx[k], pc.dist(center, idx[k])))
  }

  /** `Vec::remove`: the sequence without the element at `position`. */
  function Remove(s: seq<nat>, position: nat): (r: seq<nat>)
    requires position < |s|
    ensures |r| == |s| - 1
    ensures multiset(r) == multiset(s) - multiset{s[position]}
  {
    assert s == s[..position] + [s[position]] + s[position + 1..];
    s[..position] + s[position + 1..]
  }

  predicate Distinct(s: seq<nat>) {
    forall i, j :: 0 <= i < j < |s| ==> s[i] != s[j]
  }

  /**
   * `CoveredData::new`: the last reference index becomes the centre and covers every other
   * reference index, with aligned distances. The reference set must not be empty (the source
   * unwraps the pop).
   */
  function NewCovered(pc: PointCloud, refs: seq<nat>): (r: Result<CoveredData, Error>)
    requires |refs| > 0
    ensures r.Ok? <==> AllValid(pc, refs)
    ensures r.Err? ==> r.error == MetricFailure
    ensures r.Ok? ==>
              && r.value.centerIndex == refs[|refs| - 1]
              && r.value.coverage == refs[..|refs| - 1]
              && Aligned(r.value)
              && Entries(r.value) == Measured(pc, refs[|refs| - 1], refs[..|refs| - 1])
              && Len(r.value) == |refs|
  {
    var center := refs[|refs| - 1];
    var coverage := refs[..|refs| - 1];
    assert refs == coverage + [center];
    AllValidAppend(pc, coverage, [center]);
    match DistancesToIndex(pc, center, coverage)
    case Err(e) => Err(e)
    case Ok(dists) => Ok(CoveredData(dists, coverage, center))
  }

  /**
   * `CoveredData::split`: the close bucket keeps the centre and exactly the entries whose
   * distance is below `thresh`, distances aligned, in their original order; the far pool holds
   * exactly the indexes of the other entries, in order. Nothing is lost or duplicated.
   */
  function Split(c: CoveredData, thresh: real): (r: (CoveredData, UncoveredData))
    ensures r.0.centerIndex == c.centerIndex
    ensures Aligned(r.0)
    ensures Entries(r.0) == Pick(Entries(c), Positions(Entries(c), thresh, true))
    ensures r.1.coverage == Indexes(Pick(Entries(c), Positions(Entries(c), thresh, false)))
    ensures multiset(r.0.coverage) + multiset(r.1.coverage) == multiset(Indexes(Entries(c)))
    ensures Aligned(c) ==> Len(r.0) + UncoveredLen(r.1) == Len(c)
  {
    var p := PartitionEntries(Entries(c), thresh);
    assert |multiset(p.closeIndexes) + multiset(p.far)| == |p.closeIndexes| + |p.far|;
    (CoveredData(p.closeDists, p.closeIndexes, c.centerIndex), UncoveredData(p.far))
  }

  /** `to_indexes`: the covered points, which do not include the centre. */
  function ToIndexes(c: CoveredData): (r: seq<nat>)
    ensures |r| + 1 == Len(c)
    ensures Aligned(c) ==> r == Indexes(Entries(c))
  {
    c.coverage
  }

  /** The fold of `max_distance`, one distance at a time from negative infinity. */
  function FoldMax(ds: seq<real>): (m: Bound)
    ensures |ds| == 0 <==> m == NegInf
    ensures forall k :: 0 <= k < |ds| ==> m.Finite? && ds[k] <= m.value
    ensures m.Finite? ==> exists k :: 0 <= k < |ds| && ds[k] == m.value
  {
    if |ds| == 0 then NegInf
    else
      var acc := FoldMax(ds[..|ds| - 1]);
      var d := ds[|ds| - 1];
      if acc.Finite? && acc.value >= d then acc else Finite(d)
  }

  /**
   * `max_distance`: at least every cached distance, equal to one of them, and negative infinity
   * exactly when nothing is cached.
   */
  function MaxDistance(c: CoveredData): (m: Bound)
    ensures |c.dists| == 0 <==> m == NegInf
    ensures forall k :: 0 <= k < |c.dists| ==> m.Finite? && c.dists[k] <= m.value
    ensures m.Finite? ==> exists k :: 0 <= k < |c.dists| && c.dists[k] == m.value
  {
    FoldMax(c.dists)
  }

  /**
   * `UncoveredData::pick_center` with the random position made a parameter. The point at
   * `position` is removed from the pool before anything is measured, so the pool shrinks even
   * when measuring fails. On success the covered bucket is exactly the remaining points closer
   * than `radius` to the centre (with those distances) and the new pool exactly the others,
   * both in their original order.
   */
  function PickCenter(u: UncoveredData, radius: real, pc: PointCloud, position: nat): (r: (UncoveredData, Result<CoveredData, Error>))
    requires position < |u.coverage|
    ensures |r.0.coverage| < |u.coverage|
    ensures r.1.Ok? <==> AllValid(pc, u.coverage)
    ensures r.1.Err? ==> r.1.error == MetricFailure && r.0.coverage == Remove(u.coverage, position)
    ensures r.1.Ok? ==>
              var center := u.coverage[position];
              var es := Measured(pc, center, Remove(u.coverage, position));
              && r.1.value.centerIndex == center
              && Aligned(r.1.value)
              && Entries(r.1.value) == Pick(es, Positions(es, radius, true))
              && r.0.coverage == Indexes(Pick(es, Positions(es, radius, false)))
              && multiset(r.1.value.coverage) + multiset(r.0.coverage) == multiset(u.coverage) - multiset{center}
  {
    var center := u.coverage[position];
    var rest := Remove(u.coverage, position);
    RemoveValid(pc, u.coverage, position);
    match DistancesToIndex(pc, center, rest)
    case Err(e) => (UncoveredData(rest), Err(e))
    case Ok(dists) =>
      var es := Zip(rest, dists);
      assert es == Measured(pc, center, rest);
      assert Indexes(es) == rest;
      var p := PartitionEntries(es, radius);
      assert |multiset(p.closeIndexes) + multiset(p.far)| == |p.closeIndexes| + |p.far|;
      (UncoveredData(p.far), Ok(CoveredData(p.closeDists, p.closeIndexes, center)))
  }

  lemma RemoveValid(pc: PointCloud, s: seq<nat>, position: nat)
    requires position < |s|
    ensures AllValid(pc, s) <==> pc.valid(s[position]) && AllValid(pc, Remove(s, position))
  {
    assert s == s[..position] + [s[position]] + s[position + 1..];
    AllValidAppend(pc, s[..position] + [s[position]], s[position + 1..]);
    AllValidAppend(pc, s[..position], [s[position]]);
    AllValidAppend(pc, s[..position], s[position + 1..]);
  }

  /**
   * The threshold separates the buckets of `split`: the close bucket holds exactly the cached
   * entries below it, and the far pool exactly the indexes of the entries at or above it.
   */
  lemma SplitSeparates(c: CoveredData, thresh: real)
    ensures var r := Split(c, thresh);
            forall e :: e in Entries(r.0) <==> e in Entries(c) && e.dist < thresh
    ensures var r := Split(c, thresh);
            forall i :: i in r.1.coverage <==> exists e :: e in Entries(c) && e.dist >= thresh && e.index == i
  {
    BucketMembers(Entries(c), thresh, true);
    FarIndexMembers(Entries(c), thresh);
  }

  /** When every cached distance is at or above the threshold, `split` moves everything to the far pool. */
  lemma SplitAllFar(c: CoveredData, thresh: real)
    requires Aligned(c)
    requires forall k :: 0 <= k < |c.dists| ==> c.dists[k] >= thresh
    ensures Split(c, thresh).0.coverage == []
    ensures Split(c, thresh).1.coverage == c.coverage
  {
    var es := Entries(c);
    forall j | 0 <= j < |es|
      ensures es[j].dist >= thresh
    {
      assert es[j].dist == c.dists[j];
    }
    PositionsNone(es, thresh, true);
    var pf := Positions(es, thresh, false);
    assert |pf| == |es| by {
      assert |Split(c, thresh).0.coverage| == 0;
    }
    forall k | 0 <= k < |pf|
      ensures pf[k] == k
    {
      PositionsAll(pf, |es|, k);
    }
  }

  /** An ascending list of positions below `n` with `n` entries lists every position. */
  lemma {:induction false} PositionsAll(ps: seq<nat>, n: nat, k: nat)
    requires |ps| == n
    requires forall i :: 0 <= i < |ps| ==> ps[i] < n
    requires forall i, j :: 0 <= i < j < |ps| ==> ps[i] < ps[j]
    requires k < n
    ensures ps[k] == k
  {
    AscendingLowerBound(ps, k);
    AscendingUpperBound(ps, n, k);
  }

  lemma {:induction false} AscendingLowerBound(ps: seq<nat>, k: nat)
    requires forall i, j :: 0 <= i < j < |ps| ==> ps[i] < ps[j]
    requires k < |ps|
    ensures ps[k] >= k
  {
    if k > 0 {
      AscendingLowerBound(ps, k - 1);
    }
  }

  lemma {:induction false} AscendingUpperBound(ps: seq<nat>, n: nat, k: nat)
    requires forall i :: 0 <= i < |ps| ==> ps[i] < n
    requires forall i, j :: 0 <= i < j < |ps| ==> ps[i] < ps[j]
    requires |ps| == n && k < n
    ensures ps[k] <= k
    decreases n - k
  {
    if k < n - 1 {
      AscendingUpperBound(ps, n, k + 1);
    }
  }

  /**
   * The scenario of the source's first split test: twenty points, the last one (the centre) at
   * distance at least 3 from all others; splitting at 1 leaves the centre alone and moves the
   * nineteen others to the far pool.
   */
  lemma SplitsCorrectlyScenario(pc: PointCloud, refs: seq<nat>)
    requires |refs| == 20 && AllValid(pc, refs)
    requires forall k :: 0 <= k < 19 ==> pc.dist(refs[19], refs[k]) >= 3.0
    ensures NewCovered(pc, refs).Ok?
    ensures Len(Split(NewCovered(pc, refs).value, 1.0).0) == 1
    ensures UncoveredLen(Split(NewCovered(pc, refs).value, 1.0).1) == 19
  {
    var c := NewCovered(pc, refs).value;
    forall k | 0 <= k < |c.dists|
      ensures c.dists[k] >= 1.0
    {
      assert Entries(c)[k] == Measured(pc, refs[19], refs[..19])[k];
    }
    SplitAllFar(c, 1.0);
  }

  /** Each bucket of a pass over measured points holds true distances on its side of `radius`. */
  lemma MeasuredBuckets(pc: PointCloud, center: nat, idx: seq<nat>, radius: real)
    ensures var es := Measured(pc, center, idx);
            var close := Pick(es, Positions(es, radius, true));
            forall k :: 0 <= k < |close| ==> close[k].dist == pc.dist(center, close[k].index) && close[k].dist < radius
    ensures var es := Measured(pc, center, idx);
            var far := Pick(es, Positions(es, radius, false));
            forall k :: 0 <= k < |far| ==> pc.dist(center, far[k].index) >= radius
  {
    var es := Measured(pc, center, idx);
    var cps := Positions(es, radius, true);
    var fps := Positions(es, radius, false);
    forall k | 0 <= k < |cps|
      ensures Pick(es, cps)[k].dist == pc.dist(center, Pick(es, cps)[k].index) && Pick(es, cps)[k].dist < radius
    {
      assert cps[k] in cps;
    }
    forall k | 0 <= k < |fps|
      ensures pc.dist(center, Pick(es, fps)[k].index) >= radius
    {
      assert fps[k] in fps;
    }
  }

  /**
   * What `pick_center` sends where: every covered point is closer than `radius` to the centre,
   * with its true distance cached, and every point left in the pool is at least `radius` away.
   */
  lemma PickCenterSeparates(u: UncoveredData, radius: real, pc: PointCloud, position: nat)
    requires position < |u.coverage|
    requires AllValid(pc, u.coverage)
    ensures var close := PickCenter(u, radius, pc, position).1.value;
            forall k :: 0 <= k < |close.coverage| ==>
              close.dists[k] == pc.dist(u.coverage[position], close.coverage[k]) && close.dists[k] < radius
    ensures var pool := PickCenter(u, radius, pc, position).0.coverage;
            forall k :: 0 <= k < |pool| ==> pc.dist(u.coverage[position], pool[k]) >= radius
  {
    var r := PickCenter(u, radius, pc, position);
    var center := u.coverage[position];
    var rest := Remove(u.coverage, position);
    MeasuredBuckets(pc, center, rest, radius);
    CloseSeparated(r.1.value, pc, center, rest, radius);
    FarSeparated(r.0.coverage, pc, center, rest, radius);
  }

  /** A cache whose entries are the close bucket of a measured pass holds true distances below `radius`. */
  lemma CloseSeparated(close: CoveredData, pc: PointCloud, center: nat, idx: seq<nat>, radius: real)
    requires Aligned(close)
    requires var es := Measured(pc, center, idx);
             Entries(close) == Pick(es, Positions(es, radius, true))
    requires var es := Measured(pc, center, idx);
             var picked := Pick(es, Positions(es, radius, true));
             forall k :: 0 <= k < |picked| ==> picked[k].dist == pc.dist(center, picked[k].index) && picked[k].dist < radius
    ensures forall k :: 0 <= k < |close.coverage| ==>
              close.dists[k] == pc.dist(center, close.coverage[k]) && close.dists[k] < radius
  {
    forall k | 0 <= k < |close.coverage|
      ensures close.dists[k] == pc.dist(center, close.coverage[k]) && close.dists[k] < radius
    {
      assert Entries(close)[k] == Entry(close.coverage[k], close.dists[k]);
    }
  }

  /** A pool made of the far bucket of a measured pass lies at least `radius` from the centre. */
  lemma FarSeparated(pool: seq<nat>, pc: PointCloud, center: nat, idx: seq<nat>, radius: real)
    requires var es := Measured(pc, center, idx);
             pool == Indexes(Pick(es, Positions(es, radius, false)))
    requires var es := Measured(pc, center, idx);
             var picked := Pick(es, Positions(es, radius, false));
             forall k :: 0 <= k < |picked| ==> pc.dist(center, picked[k].index) >= radius
    ensures forall k :: 0 <= k < |pool| ==> pc.dist(center, pool[k]) >= radius
  {
  }

  /** In a pool of distinct points each point occurs at most once. */
  lemma {:induction false} DistinctOnce(s: seq<nat>, x: nat)
    requires Distinct(s)
    ensures multiset(s)[x] <= 1
  {
    if |s| > 0 {
      var pre := s[..|s| - 1];
      assert s == pre + [s[|s| - 1]];
      assert Distinct(pre);
      DistinctOnce(pre, x);
      if x == s[|s| - 1] {
        assert x !in pre;
      }
    }
  }

  /**
   * On a pool of distinct points, `pick_center` returns the point at `position` as the centre;
   * it is in neither the covered bucket nor the new pool, the two are disjoint, and together they
   * are the old pool without the centre.
   */
  lemma PickCenterDisjoint(u: UncoveredData, radius: real, pc: PointCloud, position: nat)
    requires position < |u.coverage|
    requires Distinct(u.coverage)
    requires AllValid(pc, u.coverage)
    ensures var (pool, res) := PickCenter(u, radius, pc, position);
            && res.value.centerIndex == u.coverage[position]
            && res.value.centerIndex !in res.value.coverage
            && res.value.centerIndex !in pool.coverage
            && (forall x :: x in res.value.coverage ==> x !in pool.coverage)
            && (forall x :: x in res.value.coverage || x in pool.coverage ==> x in u.coverage && x != u.coverage[position])
            && (forall x :: x in u.coverage && x != u.coverage[position] ==> x in res.value.coverage || x in pool.coverage)
  {
    var r := PickCenter(u, radius, pc, position);
    SplitOfDistinct(u.coverage, u.coverage[position], r.1.value.coverage, r.0.coverage);
  }

  /**
   * Two sequences whose multisets add up to a pool of distinct points without one of its
   * members are disjoint, miss that member, and together hold every other point of the pool.
   */
  lemma SplitOfDistinct(pool: seq<nat>, center: nat, a: seq<nat>, b: seq<nat>)
    requires Distinct(pool) && center in pool
    requires multiset(a) + multiset(b) == multiset(pool) - multiset{center}
    ensures center !in a && center !in b
    ensures forall x :: x in a ==> x !in b
    ensures forall x :: x in a || x in b ==> x in pool && x != center
    ensures forall x :: x in pool && x != center ==> x in a || x in b
  {
    DistinctOnce(pool, center);
    assert multiset(a)[center] + multiset(b)[center] == 0;
    forall x
      ensures multiset(a)[x] + multiset(b)[x] == (if x == center then 0 else multiset(pool)[x])
    {
      assert (multiset(a) + multiset(b))[x] == multiset(a)[x] + multiset(b)[x];
    }
    forall x | x in a
      ensures x !in b
    {
      DistinctOnce(pool, x);
      assert x in multiset(a);
    }
    forall x | x in a || x in b
      ensures x in pool && x != center
    {
      assert x in multiset(a) || x in multiset(b);
    }
    forall x | x in pool && x != center
      ensures x in a || x in b
    {
      assert x in multiset(pool);
    }
  }

  /** The (distance, index) pairs are in ascending order of distance. */
  predicate SortedByDistance(a: seq<(real, nat)>) {
    forall i, j :: 0 <= i <= j < |a| ==> a[i].0 <= a[j].0
  }

  /**
   * `find_split`: a binary search over a slice sorted by distance. On a sorted slice it returns
   * a position with entries at most `thresh` before it and entries at least `thresh` from it on.
   * That is the first position not below `thresh` only when no entry equals `thresh`; on a tie
   * it is the position of whichever equal entry the search lands on. The slice must not be empty
   * (the source computes `len() - 1` on an unsigned length).
   */
  method FindSplit(distIndexes: seq<(real, nat)>, thresh: real) returns (split: nat)
    requires |distIndexes| > 0
    ensures split <= |distIndexes|
    ensures SortedByDistance(distIndexes) ==>
              && (forall j :: 0 <= j < split ==> distIndexes[j].0 <= thresh)
              && (forall j :: split <= j < |distIndexes| ==> distIndexes[j].0 >= thresh)
    ensures SortedByDistance(distIndexes) && (forall j :: 0 <= j < |distIndexes| ==> distIndexes[j].0 != thresh) ==>
              && (forall j :: 0 <= j < split ==> distIndexes[j].0 < thresh)
              && (forall j :: split <= j < |distIndexes| ==> distIndexes[j].0 > thresh)
  {
    var smaller := 0;
    var larger := |distIndexes| - 1;
    while smaller <= larger
      invariant 0 <= smaller <= larger + 1 <= |distIndexes|
      invariant SortedByDistance(distIndexes) ==> forall j :: 0 <= j < smaller ==> distIndexes[j].0 < thresh
      invariant SortedByDistance(distIndexes) ==> forall j :: larger < j < |distIndexes| ==> distIndexes[j].0 > thresh
      decreases larger + 1 - smaller
    {
      var m := (smaller + larger) / 2;
      if distIndexes[m].0 < thresh {
        smaller := m + 1;
      } else if distIndexes[m].0 > thresh {
        if m == 0 {
          return 0;
        }
        larger := m - 1;
      } else {
        return m;
      }
    }
    return smaller;
  }
}
