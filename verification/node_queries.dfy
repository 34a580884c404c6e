/**
 * The per-node query protocol of `node.rs`: `singleton_knn`, `child_knn`, `knn` and
 * `check_seperation`.
 *
 * The nodes compute no geometry themselves: they ask the point store for distances and offer
 * (index, distance) and (address, distance, parent) entries to the query heap. The heap is an
 * append-only log of its push calls; `PointOffers` and `NodeOffers` flatten a log into the
 * entries it offered, in order. How the heap keeps its best k and orders its queue is not part
 * of this model.
 */
module NodeQueries {
  import opened Wrappers
  import opened Errors
  import opened PointClouds
  import opened Nodes
  import opened Seqs

  /** One call on the query heap, with its arguments. */
  datatype HeapCall =
    | PushOutliers(indexes: seq<nat>, dists: seq<real>)
    | PushNodes(addresses: seq<Address>, dists: seq<real>, parent: Option<Address>)

  /** A point offered as a best-k candidate. */
  datatype PointOffer = PointOffer(index: nat, dist: real)

  /** A node offered for later expansion, with the node it was reached from. */
  datatype NodeOffer = NodeOffer(address: Address, dist: real, parent: Option<Address>)

  /** The points one call offers: its indexes paired with its distances. */
  function CallPointOffers(c: HeapCall): seq<PointOffer> {
    match c
    case PushOutliers(idx, ds) =>
      ZipWith(idx, ds, (i, d) => PointOffer(i, d))
    case PushNodes(_, _, _) => []
  }

  /** The nodes one call offers: its addresses paired with its distances, all with its parent. */
  function CallNodeOffers(c: HeapCall): seq<NodeOffer> {
    match c
    case PushOutliers(_, _) => []
    case PushNodes(addrs, ds, parent) =>
      ZipWith(addrs, ds, (a, d) => NodeOffer(a, d, parent))
  }

  /** Every point offered by a log of heap calls, in order. */
  function PointOffers(log: seq<HeapCall>): seq<PointOffer>
    decreases |log|
  {
    if |log| == 0 then [] else CallPointOffers(log[0]) + PointOffers(log[1..])
  }

  /** Every node offered by a log of heap calls, in order. */
  function NodeOffers(log: seq<HeapCall>): seq<NodeOffer>
    decreases |log|
  {
    if |log| == 0 then [] else CallNodeOffers(log[0]) + NodeOffers(log[1..])
  }

  /** The listed points offered at their true distances from the query point. */
  function TrueOffers(q: QueryPoint, idx: seq<nat>): (r: seq<PointOffer>)
    ensures |r| == |idx|
  {
    seq(|idx|, k requires 0 <= k < |idx| => PointOffer(idx[k], q.distTo(idx[k])))
  }

  /** The sibling children offered at the true distances of their centres, tagged with their parent. */
  function SiblingOffers(q: QueryPoint, siblings: seq<Address>, parent: Address): (r: seq<NodeOffer>)
    ensures |r| == |siblings|
  {
    seq(|siblings|, k requires 0 <= k < |siblings| => NodeOffer(siblings[k], q.distTo(siblings[k].center), Some(parent)))
  }

  /** The offers `child_knn` makes for a routing node: the nested child first, then the siblings. */
  function ChildOffers(n: CoverNode, d: real, q: QueryPoint): seq<NodeOffer>
    requires !IsLeaf(n)
  {
    [NodeOffer(Address(n.children.value.nestedScale, n.address.center), d, None)]
      + SiblingOffers(q, n.children.value.addresses, n.address)
  }

  /** The indexes `child_knn` needs: the centre, and the sibling centres of a routing node. */
  function ChildPoints(n: CoverNode): seq<nat> {
    [n.address.center] + match n.children
      case Some(c) => Centers(c.addresses)
      case None => []
  }

  /** The true distances from the query point to the listed points, as the store reports them. */
  function TrueDists(q: QueryPoint, idx: seq<nat>): (r: seq<real>)
    ensures |r| == |idx|
    ensures forall k :: 0 <= k < |idx| ==> r[k] == q.distTo(idx[k])
  {
    seq(|idx|, k requires 0 <= k < |idx| => q.distTo(idx[k]))
  }

  /** The push of `singleton_knn`: every singleton with its true distance. */
  function SinglesCall(n: CoverNode, q: QueryPoint): HeapCall {
    PushOutliers(n.singles, TrueDists(q, n.singles))
  }

  /** The first push of `child_knn`: the nested child, at the centre distance, with no parent. */
  function NestedCall(n: CoverNode, d: real): HeapCall
    requires !IsLeaf(n)
  {
    PushNodes([Address(n.children.value.nestedScale, n.address.center)], [d], None)
  }

  /** The second push of `child_knn`: the siblings, at the true distances of their centres, with this node as parent. */
  function SiblingCall(n: CoverNode, q: QueryPoint): HeapCall
    requires !IsLeaf(n)
  {
    var sibs := n.children.value.addresses;
    PushNodes(sibs, TrueDists(q, Centers(sibs)), Some(n.address))
  }

  /** The push `knn` makes for a leaf's own centre. */
  function CenterCall(n: CoverNode, d: real): HeapCall {
    PushOutliers([n.address.center], [d])
  }

  /** The singleton push offers exactly the singletons at their true distances, and no node. */
  lemma SinglesCallOffers(n: CoverNode, q: QueryPoint)
    ensures CallPointOffers(SinglesCall(n, q)) == TrueOffers(q, n.singles)
    ensures CallNodeOffers(SinglesCall(n, q)) == []
  {
  }

  /** The two pushes of `child_knn` offer exactly `ChildOffers`, and no point. */
  lemma ChildCallsOffers(n: CoverNode, d: real, q: QueryPoint)
    requires !IsLeaf(n)
    ensures CallNodeOffers(NestedCall(n, d)) + CallNodeOffers(SiblingCall(n, q)) == ChildOffers(n, d, q)
    ensures CallPointOffers(NestedCall(n, d)) == [] && CallPointOffers(SiblingCall(n, q)) == []
  {
    var sibs := n.children.value.addresses;
    assert CallNodeOffers(SiblingCall(n, q)) == SiblingOffers(q, sibs, n.address);
  }

  /** The centre push of a leaf offers the centre at the given distance, and no node. */
  lemma CenterCallOffers(n: CoverNode, d: real)
    ensures CallPointOffers(CenterCall(n, d)) == [PointOffer(n.address.center, d)]
    ensures CallNodeOffers(CenterCall(n, d)) == []
  {
  }

  /**
   * The centre distance as the source computes it: the store is always asked (the fallback of
   * `unwrap_or` is evaluated eagerly), and its error propagates even when a distance is given.
   */
  function CenterDistance(n: CoverNode, distToCenter: Option<real>, q: QueryPoint, pc: PointCloud): (r: Result<real, Error>)
    ensures r.Ok? <==> pc.valid(n.address.center)
    ensures r.Ok? ==> r.value == distToCenter.GetOr(q.distTo(n.address.center))
  {
    match DistancesToPoint(pc, q, [n.address.center])
    case Err(e) => Err(e)
    case Ok(ds) => Ok(distToCenter.GetOr(ds[0]))
  }

  /** `singleton_knn`: offers every singleton, in order, at its true distance, in one push. */
  function SingletonKnn(n: CoverNode, q: QueryPoint, pc: PointCloud, heap: seq<HeapCall>): (r: (seq<HeapCall>, Outcome<Error>))
    ensures r.1 == Pass <==> AllValid(pc, n.singles)
    ensures r.1.Fail? ==> r.0 == heap && r.1.error == MetricFailure
    ensures r.1 == Pass ==> r.0 == heap + [SinglesCall(n, q)]
    ensures r.1 == Pass ==> PointOffers(r.0) == PointOffers(heap) + TrueOffers(q, n.singles)
    ensures NodeOffers(r.0) == NodeOffers(heap)
  {
    match DistancesToPoint(pc, q, n.singles)
    case Err(e) => (heap, Fail(e))
    case Ok(ds) =>
      assert ds == TrueDists(q, n.singles);
      AppendCall(heap, SinglesCall(n, q));
      SinglesCallOffers(n, q);
      (heap + [SinglesCall(n, q)], Pass)
  }

  /**
   * `child_knn`: nothing for a leaf. For a routing node it offers the nested child at the
   * centre distance with no parent, then every sibling in order at its true distance with this
   * node as parent: `children_len` node offers in all, and no point offers. A centre that cannot
   * be measured leaves the log as it was; a sibling that cannot be measured leaves the nested
   * child's push in it.
   */
  function ChildKnn(n: CoverNode, distToCenter: Option<real>, q: QueryPoint, pc: PointCloud, heap: seq<HeapCall>): (r: (seq<HeapCall>, Outcome<Error>))
    ensures r.1 == Pass <==> AllValid(pc, ChildPoints(n))
    ensures r.1.Fail? ==> r.1.error == MetricFailure
    ensures IsLeaf(n) || !pc.valid(n.address.center) ==> r.0 == heap
    ensures !IsLeaf(n) && pc.valid(n.address.center) ==>
              var d := distToCenter.GetOr(q.distTo(n.address.center));
              r.0 == heap + [NestedCall(n, d)] + (if r.1 == Pass then [SiblingCall(n, q)] else [])
    ensures PointOffers(r.0) == PointOffers(heap)
    ensures r.1 == Pass && !IsLeaf(n) ==>
              NodeOffers(r.0) == NodeOffers(heap) + ChildOffers(n, distToCenter.GetOr(q.distTo(n.address.center)), q)
    ensures r.1 == Pass ==> |NodeOffers(r.0)| == |NodeOffers(heap)| + ChildrenLen(n)
  {
    AllValidAppend(pc, [n.address.center], ChildPoints(n)[1..]);
    assert ChildPoints(n) == [n.address.center] + ChildPoints(n)[1..];
    match CenterDistance(n, distToCenter, q, pc)
    case Err(e) => (heap, Fail(e))
    case Ok(d) =>
      match n.children
      case None => (heap, Pass)
      case Some(c) =>
        var nested := heap + [NestedCall(n, d)];
        ChildLogOffers(n, d, q, heap);
        match DistancesToPoint(pc, q, Centers(c.addresses))
        case Err(e) => (nested, Fail(e))
        case Ok(ds) =>
          assert ds == TrueDists(q, Centers(c.addresses));
          (nested + [SiblingCall(n, q)], Pass)
  }

  /** The offers of a log after the two pushes of `child_knn`. */
  lemma ChildLogOffers(n: CoverNode, d: real, q: QueryPoint, heap: seq<HeapCall>)
    requires !IsLeaf(n)
    ensures PointOffers(heap + [NestedCall(n, d)]) == PointOffers(heap)
    ensures NodeOffers(heap + [NestedCall(n, d)]) == NodeOffers(heap) + CallNodeOffers(NestedCall(n, d))
    ensures PointOffers(heap + [NestedCall(n, d)] + [SiblingCall(n, q)]) == PointOffers(heap)
    ensures NodeOffers(heap + [NestedCall(n, d)] + [SiblingCall(n, q)]) == NodeOffers(heap) + ChildOffers(n, d, q)
  {
    var nested, sibling := NestedCall(n, d), SiblingCall(n, q);
    ChildCallsOffers(n, d, q);
    AppendCall(heap, nested);
    AppendCall(heap + [nested], sibling);
    var a, b := CallNodeOffers(nested), CallNodeOffers(sibling);
    assert NodeOffers(heap) + a + b == NodeOffers(heap) + (a + b);
  }

  /**
   * `knn`: the singletons first; then the centre distance, always computed; then `child_knn`
   * with that distance; and for a leaf its own centre as a further point offer. A failure keeps
   * every push made before it: the singletons' push once they were measured, and the nested
   * child's push once the centre was.
   */
  function Knn(n: CoverNode, distToCenter: Option<real>, q: QueryPoint, pc: PointCloud, heap: seq<HeapCall>): (r: (seq<HeapCall>, Outcome<Error>))
    ensures r.1 == Pass <==> AllValid(pc, n.singles + ChildPoints(n))
    ensures r.1.Fail? ==> r.1.error == MetricFailure
    ensures !AllValid(pc, n.singles) ==> r.0 == heap
    ensures AllValid(pc, n.singles) && !pc.valid(n.address.center) ==> r.0 == heap + [SinglesCall(n, q)]
    ensures AllValid(pc, n.singles) && pc.valid(n.address.center) ==>
              var d := distToCenter.GetOr(q.distTo(n.address.center));
              r.0 == heap + [SinglesCall(n, q)]
                     + (if IsLeaf(n) then [CenterCall(n, d)]
                        else [NestedCall(n, d)] + (if r.1 == Pass then [SiblingCall(n, q)] else []))
    ensures r.1 == Pass ==>
              var d := distToCenter.GetOr(q.distTo(n.address.center));
              && PointOffers(r.0) == PointOffers(heap) + TrueOffers(q, n.singles)
                                     + (if IsLeaf(n) then [PointOffer(n.address.center, d)] else [])
              && NodeOffers(r.0) == NodeOffers(heap) + (if IsLeaf(n) then [] else ChildOffers(n, d, q))
  {
    AllValidAppend(pc, n.singles, ChildPoints(n));
    AllValidAppend(pc, [n.address.center], ChildPoints(n)[1..]);
    assert ChildPoints(n) == [n.address.center] + ChildPoints(n)[1..];
    var (afterSingles, singlesResult) := SingletonKnn(n, q, pc, heap);
    if singlesResult.Fail? then (afterSingles, singlesResult)
    else
      match CenterDistance(n, distToCenter, q, pc)
      case Err(e) => (afterSingles, Fail(e))
      case Ok(d) =>
        var (afterChildren, childResult) := ChildKnn(n, Some(d), q, pc, afterSingles);
        if childResult.Fail? then (afterChildren, childResult)
        else if n.children.None? then
          AppendCall(afterChildren, CenterCall(n, d));
          CenterCallOffers(n, d);
          (afterChildren + [CenterCall(n, d)], Pass)
        else (afterChildren, Pass)
  }

  /** Appending one call to the log appends exactly that call's offers. */
  lemma AppendCall(log: seq<HeapCall>, c: HeapCall)
    ensures PointOffers(log + [c]) == PointOffers(log) + CallPointOffers(c)
    ensures NodeOffers(log + [c]) == NodeOffers(log) + CallNodeOffers(c)
  {
    OffersAppend(log, [c]);
    assert [c][1..] == [];
  }

  /** The offers of a log are the offers of its parts, in order. */
  lemma {:induction false} OffersAppend(a: seq<HeapCall>, b: seq<HeapCall>)
    ensures PointOffers(a + b) == PointOffers(a) + PointOffers(b)
    ensures NodeOffers(a + b) == NodeOffers(a) + NodeOffers(b)
    decreases |a|
  {
    if |a| > 0 {
      assert (a + b)[1..] == a[1..] + b;
      OffersAppend(a[1..], b);
    } else {
      assert a + b == b;
    }
  }

  /**
   * The eager centre distance: when the centre cannot be measured, `knn` fails even if the
   * caller supplied the centre distance, after the singletons were already offered.
   */
  lemma KnnFailsOnCenter(n: CoverNode, d: real, q: QueryPoint, pc: PointCloud, heap: seq<HeapCall>)
    requires AllValid(pc, n.singles) && !pc.valid(n.address.center)
    ensures Knn(n, Some(d), q, pc, heap).1 == Fail(MetricFailure)
    ensures PointOffers(Knn(n, Some(d), q, pc, heap).0) == PointOffers(heap) + TrueOffers(q, n.singles)
  {
  }

  /**
   * The points `check_seperation` hands to the store: the singletons, then the centre, then the
   * sibling centres of a routing node.
   */
  function SeparationPoints(n: CoverNode): seq<nat> {
    n.singles + [n.address.center] + match n.children
      case Some(c) => Centers(c.addresses)
      case None => []
  }

  /**
   * `check_seperation`: true exactly when `scale` exceeds the minimum of the adjacency matrix of
   * the singletons, the centre and the sibling centres.
   */
  function CheckSeparation(n: CoverNode, scale: real, pc: PointCloud): (r: Result<bool, Error>)
    ensures r.Ok? <==> AllValid(pc, SeparationPoints(n))
    ensures r.Ok? ==> (r.value <==> scale > pc.adjMin(SeparationPoints(n)))
  {
    match AdjMin(pc, SeparationPoints(n))
    case Err(e) => Err(e)
    case Ok(m) => Ok(scale > m)
  }

  /**
   * As written, the check reports a well-separated node as failing: when every pair of points is
   * at least `scale` apart, it returns false.
   */
  lemma CheckSeparationRejectsSeparated(n: CoverNode, scale: real, pc: PointCloud)
    requires AllValid(pc, SeparationPoints(n))
    requires pc.adjMin(SeparationPoints(n)) >= scale
    ensures CheckSeparation(n, scale, pc) == Ok(false)
  {
  }

  /**
   * The check as its documentation describes it: true exactly when the singletons, the centre and
   * the sibling centres are separated by at least `scale`, that is, when their minimum distance is
   * at least `scale`.
   */
  function CheckSeparationCorrected(n: CoverNode, scale: real, pc: PointCloud): (r: Result<bool, Error>)
    ensures r.Ok? <==> AllValid(pc, SeparationPoints(n))
    ensures r.Ok? ==> (r.value <==> pc.adjMin(SeparationPoints(n)) >= scale)
  {
    match AdjMin(pc, SeparationPoints(n))
    case Err(e) => Err(e)
    case Ok(m) => Ok(m >= scale)
  }

  /** On every input the store can measure, the corrected check answers the opposite of the check as written. */
  lemma CheckSeparationCorrectedNegates(n: CoverNode, scale: real, pc: PointCloud)
    requires AllValid(pc, SeparationPoints(n))
    ensures CheckSeparationCorrected(n, scale, pc).value == !CheckSeparation(n, scale, pc).value
  {
  }

  /**
   * The separation check looks at exactly the singletons, the centre and the sibling centres:
   * `singleton_len + children_len` points for a routing node, one more than the singletons for a leaf.
   */
  lemma SeparationPointsMembers(n: CoverNode)
    ensures forall x :: x in SeparationPoints(n) <==>
              || x in n.singles
              || x == n.address.center
              || (n.children.Some? && exists a :: a in n.children.value.addresses && a.center == x)
    ensures |SeparationPoints(n)| == |n.singles| + (if IsLeaf(n) then 1 else ChildrenLen(n))
  {
    if n.children.Some? {
      var sibs := n.children.value.addresses;
      forall x | x in Centers(sibs)
        ensures exists a :: a in sibs && a.center == x
      {
        var k :| 0 <= k < |sibs| && Centers(sibs)[k] == x;
        assert sibs[k] in sibs;
      }
      forall a | a in sibs
        ensures a.center in Centers(sibs)
      {
        var k :| 0 <= k < |sibs| && sibs[k] == a;
        assert Centers(sibs)[k] == a.center;
      }
    }
  }

  /**
   * The mixed node of the source's tests (three singletons, three siblings, a nested child):
   * a successful `knn` offers four nodes and three points.
   */
  lemma KnnMixedNode(q: QueryPoint, pc: PointCloud)
    requires forall i: nat :: i <= 6 ==> pc.valid(i)
    ensures var n := CoverNode(Address(0, 0), 1.0, 8, None,
                               Some(NodeChildren(0, [Address(-4, 1), Address(-4, 2), Address(-4, 3)])), [4, 5, 6]);
            var r := Knn(n, None, q, pc, []);
            && r.1 == Pass && |NodeOffers(r.0)| == 4 && |PointOffers(r.0)| == 3
  {
    var n := CoverNode(Address(0, 0), 1.0, 8, None,
                       Some(NodeChildren(0, [Address(-4, 1), Address(-4, 2), Address(-4, 3)])), [4, 5, 6]);
    assert n.singles + ChildPoints(n) == [4, 5, 6, 0, 1, 2, 3];
    assert NodeOffers([]) == [] && PointOffers([]) == [];
  }

  /**
   * The leaf node of the source's tests (six singletons): a successful `knn` offers no nodes and
   * seven points, the singletons followed by the centre.
   */
  lemma KnnLeafNode(q: QueryPoint, pc: PointCloud)
    requires forall i: nat :: i <= 6 ==> pc.valid(i)
    ensures var n := CoverNode(Address(0, 0), 1.0, 8, None, None, [1, 2, 3, 4, 5, 6]);
            var r := Knn(n, None, q, pc, []);
            && r.1 == Pass && |NodeOffers(r.0)| == 0 && |PointOffers(r.0)| == 7
  {
    var n := CoverNode(Address(0, 0), 1.0, 8, None, None, [1, 2, 3, 4, 5, 6]);
    assert n.singles + ChildPoints(n) == [1, 2, 3, 4, 5, 6, 0];
    assert NodeOffers([]) == [] && PointOffers([]) == [];
  }
}
