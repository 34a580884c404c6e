/**
 * The persistence mapping of `node.rs`: `save` flattens a node into a record and `load`
 * rebuilds a node from a record and the scale index it is stored under. The record is a plain
 * datatype; the integer casts of the source are the identity on in-range values.
 */
module NodeProtos {
  import opened Wrappers
  import opened Nodes
  import opened Seqs

  /** The flat record: a leaf flag, then the nested scale and parallel child columns. */
  datatype NodeProto = NodeProto(
    coverCount: nat,
    centerIndex: nat,
    radius: real,
    outlierPointIndexes: seq<nat>,
    isLeaf: bool,
    nestedScaleIndex: int,
    childrenScaleIndexes: seq<int>,
    childrenPointIndexes: seq<nat>)

  /** A fresh record: every field at its default. */
  const DefaultProto := NodeProto(0, 0, 0.0, [], false, 0, [], [])

  /** The scale column of a list of addresses. */
  function Scales(addresses: seq<Address>): (r: seq<int>)
    ensures |r| == |addresses|
    ensures forall k :: 0 <= k < |addresses| ==> r[k] == addresses[k].scale
  {
    seq(|addresses|, k requires 0 <= k < |addresses| => addresses[k].scale)
  }

  /** Zips the two child columns back into addresses, stopping at the shorter one. */
  function ZipAddresses(scales: seq<int>, points: seq<nat>): (r: seq<Address>)
    ensures |r| == Min(|scales|, |points|)
    ensures forall k :: 0 <= k < |r| ==> r[k] == Address(scales[k], points[k])
  {
    ZipWith(scales, points, (s, c) => Address(s, c))
  }

  /**
   * `save`: copies count, centre, radius and singletons; sets the leaf flag exactly for a leaf,
   * and for a routing node records the nested scale and the siblings as two columns of equal
   * length. A leaf leaves the routing fields at their defaults.
   */
  function Save(n: CoverNode): (p: NodeProto)
    ensures p.isLeaf <==> IsLeaf(n)
    ensures p.coverCount == n.coverCount && p.centerIndex == n.address.center && p.radius == n.radius
    ensures p.outlierPointIndexes == n.singles
    ensures !IsLeaf(n) ==>
              && p.nestedScaleIndex == n.children.value.nestedScale
              && p.childrenScaleIndexes == Scales(n.children.value.addresses)
              && p.childrenPointIndexes == Centers(n.children.value.addresses)
              && |p.childrenScaleIndexes| + 1 == ChildrenLen(n)
    ensures WellFormed(p)
  {
    var proto := DefaultProto.(
      coverCount := n.coverCount,
      centerIndex := n.address.center,
      radius := n.radius,
      outlierPointIndexes := n.singles);
    match n.children
    case Some(c) =>
      proto.(
        isLeaf := false,
        nestedScaleIndex := c.nestedScale,
        childrenScaleIndexes := Scales(c.addresses),
        childrenPointIndexes := Centers(c.addresses))
    case None => proto.(isLeaf := true)
  }

  /** `load`: the node stored under `scaleIndex`, with an empty summary in place of the unsaved one. */
  function Load(scaleIndex: int, p: NodeProto): (n: CoverNode)
    ensures n.address == Address(scaleIndex, p.centerIndex)
    ensures n.coverCount == p.coverCount && n.radius == p.radius && n.singles == p.outlierPointIndexes
    ensures n.singlesSummary == Some(EmptySummary)
    ensures IsLeaf(n) <==> p.isLeaf
    ensures !p.isLeaf ==> n.children.value.nestedScale == p.nestedScaleIndex
    ensures !p.isLeaf ==>
              var sibs := n.children.value.addresses;
              && |sibs| == Min(|p.childrenScaleIndexes|, |p.childrenPointIndexes|)
              && forall k :: 0 <= k < |sibs| ==> sibs[k] == Address(p.childrenScaleIndexes[k], p.childrenPointIndexes[k])
    ensures !p.isLeaf && |p.childrenScaleIndexes| == |p.childrenPointIndexes| ==>
              && Scales(n.children.value.addresses) == p.childrenScaleIndexes
              && Centers(n.children.value.addresses) == p.childrenPointIndexes
  {
    var children :=
      if p.isLeaf then None
      else Some(NodeChildren(p.nestedScaleIndex, ZipAddresses(p.childrenScaleIndexes, p.childrenPointIndexes)));
    CoverNode(Address(scaleIndex, p.centerIndex), p.radius, p.coverCount, Some(EmptySummary), children, p.outlierPointIndexes)
  }

  /** The records `save` can produce: equal-length child columns, routing fields at default on a leaf. */
  predicate WellFormed(p: NodeProto) {
    && |p.childrenScaleIndexes| == |p.childrenPointIndexes|
    && (p.isLeaf ==> p.nestedScaleIndex == 0 && p.childrenScaleIndexes == [] && p.childrenPointIndexes == [])
  }

  /**
   * Saving then loading under the node's own scale index reproduces the node, except that the
   * summary becomes an empty one.
   */
  lemma LoadSave(n: CoverNode)
    ensures Load(n.address.scale, Save(n)) == n.(singlesSummary := Some(EmptySummary))
  {
    if n.children.Some? {
      var c := n.children.value;
      assert ZipAddresses(Scales(c.addresses), Centers(c.addresses)) == c.addresses;
    }
  }

  /** Loading a well-formed record and saving the node gives the record back. */
  lemma SaveLoad(scaleIndex: int, p: NodeProto)
    requires WellFormed(p)
    ensures Save(Load(scaleIndex, p)) == p
  {
  }

  /** Saving two nodes stored under the same scale index gives the same record only for nodes that agree on everything but the summary. */
  lemma SaveInjective(n: CoverNode, m: CoverNode)
    requires n.address.scale == m.address.scale
    requires Save(n) == Save(m)
    ensures n.(singlesSummary := None) == m.(singlesSummary := None)
  {
    LoadSave(n);
    LoadSave(m);
  }
}
