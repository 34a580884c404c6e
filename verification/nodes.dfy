/**
 * The cover-tree vertex of `node.rs` and its mutation API.
 *
 * A node starts as a leaf (no children). It becomes a routing node once, by nesting; only
 * then can sibling children (children with other centres) be added. Every insert adds its
 * coverage to `coverCount` before any check, so a rejected insert still counts. Mutations are
 * pure functions returning the new node together with the call's result.
 */
module Nodes {
  import opened Wrappers
  import opened Errors

  /** A node's identity: its scale index and the index of its centre point. */
  datatype Address = Address(scale: int, center: nat)

  /**
   * The routing structure: the scale of the nested child (same centre, one scale down) and the
   * addresses of the sibling children, in insertion order.
   */
  datatype NodeChildren = NodeChildren(nestedScale: int, addresses: seq<Address>)

  /** A metadata summary; only the empty summary a load produces is modelled. */
  datatype MetaSummary = EmptySummary

  datatype CoverNode = CoverNode(
    address: Address,
    radius: real,
    coverCount: nat,
    singlesSummary: Option<MetaSummary>,
    children: Option<NodeChildren>,
    singles: seq<nat>)

  /** `CoverNode::new`: a blank leaf. */
  function New(address: Address): (n: CoverNode)
    ensures n.address == address && IsLeaf(n)
    ensures n.radius == 0.0 && n.coverCount == 0 && n.singles == [] && n.singlesSummary == None
  {
    CoverNode(address, 0.0, 0, None, None, [])
  }

  predicate IsLeaf(n: CoverNode) {
    n.children.None?
  }

  /**
   * `insert_nested_child`: counts `coverage`, then turns a leaf into a routing node with the
   * given nested scale and no siblings; on a routing node it fails with `DoubleNest` and leaves
   * the children as they were.
   */
  function InsertNestedChild(n: CoverNode, scaleIndex: int, coverage: nat): (r: (CoverNode, Outcome<Error>))
    ensures r.0.coverCount == n.coverCount + coverage
    ensures IsLeaf(n) ==> r.1 == Pass && r.0.children == Some(NodeChildren(scaleIndex, []))
    ensures !IsLeaf(n) ==> r.1 == Fail(DoubleNest) && r.0.children == n.children
    ensures r.0 == n.(coverCount := r.0.coverCount, children := r.0.children)
  {
    var counted := n.(coverCount := n.coverCount + coverage);
    if n.children.Some? then (counted, Fail(DoubleNest))
    else (counted.(children := Some(NodeChildren(scaleIndex, []))), Pass)
  }

  /**
   * `insert_child`: counts `coverage`, then appends the address after the existing siblings of
   * a routing node; on a leaf it fails with `InsertBeforeNest` and the node stays a leaf.
   */
  function InsertChild(n: CoverNode, address: Address, coverage: nat): (r: (CoverNode, Outcome<Error>))
    ensures r.0.coverCount == n.coverCount + coverage
    ensures IsLeaf(n) ==> r.1 == Fail(InsertBeforeNest) && IsLeaf(r.0)
    ensures !IsLeaf(n) ==>
              && r.1 == Pass
              && r.0.children == Some(NodeChildren(n.children.value.nestedScale, n.children.value.addresses + [address]))
    ensures r.0 == n.(coverCount := r.0.coverCount, children := r.0.children)
  {
    var counted := n.(coverCount := n.coverCount + coverage);
    match n.children
    case Some(c) => (counted.(children := Some(c.(addresses := c.addresses + [address]))), Pass)
    case None => (counted, Fail(InsertBeforeNest))
  }

  /** `insert_singletons`: appends the points, in order, after the existing singletons and counts them. */
  function InsertSingletons(n: CoverNode, points: seq<nat>): (r: CoverNode)
    ensures r.singles == n.singles + points
    ensures r.coverCount == n.coverCount + |points|
    ensures r == n.(singles := r.singles, coverCount := r.coverCount)
  {
    n.(coverCount := n.coverCount + |points|, singles := n.singles + points)
  }

  /** `insert_singleton`: appends one point after the existing singletons and counts it. */
  function InsertSingleton(n: CoverNode, point: nat): (r: CoverNode)
    ensures r.singles == n.singles + [point]
    ensures r.coverCount == n.coverCount + 1
    ensures r == n.(singles := r.singles, coverCount := r.coverCount)
  {
    n.(coverCount := n.coverCount + 1, singles := n.singles + [point])
  }

  /** `remove_children`: hands back the children, leaving a leaf with nothing else changed. */
  function RemoveChildren(n: CoverNode): (r: (CoverNode, Option<NodeChildren>))
    ensures r.1 == n.children
    ensures IsLeaf(r.0) && ChildrenLen(r.0) == 0
    ensures r.0.coverCount == n.coverCount
    ensures r.0 == n.(children := None)
  {
    (n.(children := None), n.children)
  }

  /** `children_len`: the siblings plus the nested child, or 0 for a leaf. */
  function ChildrenLen(n: CoverNode): (r: nat)
    ensures r == 0 <==> IsLeaf(n)
    ensures !IsLeaf(n) ==> r == |n.children.value.addresses| + 1
  {
    match n.children
    case Some(c) => |c.addresses| + 1
    case None => 0
  }

  /** `children`: the nested scale and the sibling addresses of a routing node. */
  function Children(n: CoverNode): (r: Option<(int, seq<Address>)>)
    ensures r.None? <==> IsLeaf(n)
    ensures r.Some? ==> r.value.0 == n.children.value.nestedScale && r.value.1 == n.children.value.addresses
  {
    match n.children
    case Some(c) => Some((c.nestedScale, c.addresses))
    case None => None
  }

  /** The centre points of a list of addresses, in order. */
  function Centers(addresses: seq<Address>): (r: seq<nat>)
    ensures |r| == |addresses|
    ensures forall k :: 0 <= k < |addresses| ==> r[k] == addresses[k].center
  {
    seq(|addresses|, k requires 0 <= k < |addresses| => addresses[k].center)
  }

  /** `set_radius`: overwrites the radius. */
  function SetRadius(n: CoverNode, radius: real): CoverNode {
    n.(radius := radius)
  }

  /** One call of the mutation API, as the tree builder issues it. */
  datatype Op =
    | Nest(scaleIndex: int, coverage: nat)
    | AddChild(child: Address, coverage: nat)
    | AddSingletons(points: seq<nat>)
    | AddSingleton(point: nat)
    | TakeChildren
    | UpdateRadius(radius: real)

  /** The node after one call, whether or not the call reported an error. */
  function Step(n: CoverNode, op: Op): CoverNode {
    match op
    case Nest(s, c) => InsertNestedChild(n, s, c).0
    case AddChild(a, c) => InsertChild(n, a, c).0
    case AddSingletons(ps) => InsertSingletons(n, ps)
    case AddSingleton(p) => InsertSingleton(n, p)
    case TakeChildren => RemoveChildren(n).0
    case UpdateRadius(r) => SetRadius(n, r)
  }

  function Replay(n: CoverNode, ops: seq<Op>): CoverNode
    decreases |ops|
  {
    if |ops| == 0 then n else Replay(Step(n, ops[0]), ops[1..])
  }

  /** The coverage a call passes in: its count, or the number of singletons it inserts. */
  function Coverage(op: Op): nat {
    match op
    case Nest(_, c) => c
    case AddChild(_, c) => c
    case AddSingletons(ps) => |ps|
    case AddSingleton(_) => 1
    case TakeChildren => 0
    case UpdateRadius(_) => 0
  }

  function TotalCoverage(ops: seq<Op>): nat
    decreases |ops|
  {
    if |ops| == 0 then 0 else Coverage(ops[0]) + TotalCoverage(ops[1..])
  }

  /** The singletons a sequence of calls inserts, in order. */
  function InsertedSingles(ops: seq<Op>): seq<nat>
    decreases |ops|
  {
    if |ops| == 0 then []
    else
      var here := match ops[0]
        case AddSingletons(ps) => ps
        case AddSingleton(p) => [p]
        case _ => [];
      here + InsertedSingles(ops[1..])
  }

  /** The sibling addresses a sequence of calls adds, in order. */
  function AddedChildren(ops: seq<Op>): seq<Address>
    decreases |ops|
  {
    if |ops| == 0 then []
    else (if ops[0].AddChild? then [ops[0].child] else []) + AddedChildren(ops[1..])
  }

  /**
   * Coverage accounting: after any sequence of calls, rejected inserts included, the count has
   * grown by exactly the coverage passed in; removing children never lowers it.
   */
  lemma {:induction false} ReplayCoverCount(n: CoverNode, ops: seq<Op>)
    ensures Replay(n, ops).coverCount == n.coverCount + TotalCoverage(ops)
    decreases |ops|
  {
    if |ops| > 0 {
      ReplayCoverCount(Step(n, ops[0]), ops[1..]);
    }
  }

  /** From a blank node, the count is the sum of all coverage ever passed in. */
  lemma CoverCountFromNew(address: Address, ops: seq<Op>)
    ensures Replay(New(address), ops).coverCount == TotalCoverage(ops)
  {
    ReplayCoverCount(New(address), ops);
  }

  /** Singletons are only ever appended: the node's singletons are the old ones followed by every inserted one. */
  lemma {:induction false} ReplaySingles(n: CoverNode, ops: seq<Op>)
    ensures Replay(n, ops).singles == n.singles + InsertedSingles(ops)
    ensures Replay(n, ops).address == n.address
    decreases |ops|
  {
    if |ops| > 0 {
      ReplaySingles(Step(n, ops[0]), ops[1..]);
    }
  }

  /**
   * Nest once: a routing node stays a routing node with the same nested scale under every
   * sequence of calls that does not remove its children (a second nesting fails), and its
   * siblings are the old ones followed by every added child, in order.
   */
  lemma {:induction false} NestOnce(n: CoverNode, ops: seq<Op>)
    requires !IsLeaf(n)
    requires forall i :: 0 <= i < |ops| ==> !ops[i].TakeChildren?
    ensures !IsLeaf(Replay(n, ops))
    ensures Replay(n, ops).children.value.nestedScale == n.children.value.nestedScale
    ensures Replay(n, ops).children.value.addresses == n.children.value.addresses + AddedChildren(ops)
    decreases |ops|
  {
    if |ops| > 0 {
      var here := if ops[0].AddChild? then [ops[0].child] else [];
      StepKeepsNest(n, ops[0]);
      var next := Step(n, ops[0]);
      assert forall i :: 0 <= i < |ops[1..]| ==> ops[1..][i] == ops[i + 1];
      NestOnce(next, ops[1..]);
      assert AddedChildren(ops) == here + AddedChildren(ops[1..]);
      assert n.children.value.addresses + here + AddedChildren(ops[1..])
          == n.children.value.addresses + (here + AddedChildren(ops[1..]));
    }
  }

  /** One call other than removal keeps a routing node's nested scale and can only append a sibling. */
  lemma StepKeepsNest(n: CoverNode, op: Op)
    requires !IsLeaf(n) && !op.TakeChildren?
    ensures !IsLeaf(Step(n, op))
    ensures Step(n, op).children.value.nestedScale == n.children.value.nestedScale
    ensures Step(n, op).children.value.addresses
         == n.children.value.addresses + (if op.AddChild? then [op.child] else [])
  {
  }

  /** Without a nesting call, a leaf stays a leaf: every sibling insert before it is rejected. */
  lemma {:induction false} LeafWithoutNest(n: CoverNode, ops: seq<Op>)
    requires IsLeaf(n)
    requires forall i :: 0 <= i < |ops| ==> !ops[i].Nest?
    ensures IsLeaf(Replay(n, ops))
    decreases |ops|
  {
    if |ops| > 0 {
      LeafWithoutNest(Step(n, ops[0]), ops[1..]);
    }
  }

  /** `children_len` counts the nested child as one of the children `children` reports. */
  lemma ChildrenLenMatchesChildren(n: CoverNode)
    ensures ChildrenLen(n) == 0 <==> Children(n).None?
    ensures Children(n).Some? ==> ChildrenLen(n) == |Children(n).value.1| + 1
  {
  }
}
