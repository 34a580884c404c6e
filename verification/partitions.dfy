/**
 * The single linear pass shared by `CoveredData::split` and `UncoveredData::pick_center`:
 * walk the (index, distance) pairs of a cache, push an entry to the close bucket when its
 * distance is strictly below the threshold and to the far bucket otherwise.
 *
 * The reference definition is `Positions`: the ascending list of entry positions that go to
 * one bucket. The partition is proved to be exactly the entries at those positions, in order.
 */
module Partitions {
  import opened Seqs

  /** One (point index, distance) pair, as zipping a cache's two parallel vectors yields it. */
  datatype Entry = Entry(index: nat, dist: real)

  /** The two buckets of one pass: close indexes with their distances, and far indexes. */
  datatype Partition = Partition(closeIndexes: seq<nat>, closeDists: seq<real>, far: seq<nat>)

  /** Rust's `zip`: pairs up the two sequences, stopping at the end of the shorter one. */
  function Zip(indexes: seq<nat>, dists: seq<real>): (es: seq<Entry>)
    ensures |es| == Min(|indexes|, |dists|)
    ensures forall k :: 0 <= k < |es| ==> es[k] == Entry(indexes[k], dists[k])
  {
    ZipWith(indexes, dists, (i, d) => Entry(i, d))
  }

  /** The point indexes of a list of entries. */
  function Indexes(es: seq<Entry>): (r: seq<nat>)
    ensures |r| == |es|
    ensures forall k :: 0 <= k < |es| ==> r[k] == es[k].index
  {
    seq(|es|, k requires 0 <= k < |es| => es[k].index)
  }

  /** The entries at the given positions, in the order the positions are listed. */
  function Pick(es: seq<Entry>, ps: seq<nat>): (r: seq<Entry>)
    requires forall k :: 0 <= k < |ps| ==> ps[k] < |es|
    ensures |r| == |ps|
    ensures forall k :: 0 <= k < |ps| ==> r[k] == es[ps[k]]
  {
    seq(|ps|, k requires 0 <= k < |ps| => es[ps[k]])
  }

  /**
   * Reference definition: the ascending positions of the entries that the pass routes to the
   * close bucket (`close`) or to the far bucket (`!close`).
   */
  function Positions(es: seq<Entry>, thresh: real, close: bool): (ps: seq<nat>)
    ensures forall k :: 0 <= k < |ps| ==> ps[k] < |es|
    ensures forall k, l :: 0 <= k < l < |ps| ==> ps[k] < ps[l]
    ensures forall j :: 0 <= j < |es| ==> (j in ps <==> (es[j].dist < thresh) == close)
  {
    if |es| == 0 then []
    else
      var ps := Positions(es[..|es| - 1], thresh, close);
      if (es[|es| - 1].dist < thresh) == close then ps + [|es| - 1] else ps
  }

  /**
   * The pass itself, one entry at a time, pushing at the end of each bucket.
   * It is exactly a filter: the close bucket holds the entries at the close positions and the
   * far bucket the indexes at the far positions, both in their original order, and together the
   * two buckets are a permutation of the input indexes.
   */
  function PartitionEntries(es: seq<Entry>, thresh: real): (p: Partition)
    ensures Zip(p.closeIndexes, p.closeDists) == Pick(es, Positions(es, thresh, true))
    ensures |p.closeIndexes| == |p.closeDists|
    ensures p.far == Indexes(Pick(es, Positions(es, thresh, false)))
    ensures multiset(p.closeIndexes) + multiset(p.far) == multiset(Indexes(es))
  {
    if |es| == 0 then Partition([], [], [])
    else
      var rest := PartitionEntries(es[..|es| - 1], thresh);
      var e := es[|es| - 1];
      IndexesLast(es);
      if e.dist < thresh then
        StepClose(es, thresh, rest.closeIndexes, rest.closeDists);
        Unmoved(es, thresh, false);
        Partition(rest.closeIndexes + [e.index], rest.closeDists + [e.dist], rest.far)
      else
        StepFar(es, thresh, rest.far);
        Unmoved(es, thresh, true);
        Partition(rest.closeIndexes, rest.closeDists, rest.far + [e.index])
  }

  /** The multiset of indexes grows by the last entry's index. */
  lemma IndexesLast(es: seq<Entry>)
    requires |es| > 0
    ensures multiset(Indexes(es)) == multiset(Indexes(es[..|es| - 1])) + multiset{es[|es| - 1].index}
  {
    assert es == es[..|es| - 1] + [es[|es| - 1]];
    IndexesAppend(es[..|es| - 1], es[|es| - 1]);
  }

  /** An entry routed to the close bucket lands at its end, after every earlier close entry. */
  lemma StepClose(es: seq<Entry>, thresh: real, ci: seq<nat>, cd: seq<real>)
    requires |es| > 0 && es[|es| - 1].dist < thresh
    requires |ci| == |cd|
    requires Zip(ci, cd) == Pick(es[..|es| - 1], Positions(es[..|es| - 1], thresh, true))
    ensures Zip(ci + [es[|es| - 1].index], cd + [es[|es| - 1].dist]) == Pick(es, Positions(es, thresh, true))
  {
    var pc := Positions(es[..|es| - 1], thresh, true);
    assert Positions(es, thresh, true) == pc + [|es| - 1];
    PickPrefix(es, pc);
    PickAppend(es, pc, |es| - 1);
    ZipAppend(ci, cd, es[|es| - 1].index, es[|es| - 1].dist);
  }

  /** An entry routed to the far bucket lands at its end, after every earlier far entry. */
  lemma StepFar(es: seq<Entry>, thresh: real, far: seq<nat>)
    requires |es| > 0 && es[|es| - 1].dist >= thresh
    requires far == Indexes(Pick(es[..|es| - 1], Positions(es[..|es| - 1], thresh, false)))
    ensures far + [es[|es| - 1].index] == Indexes(Pick(es, Positions(es, thresh, false)))
  {
    var pf := Positions(es[..|es| - 1], thresh, false);
    assert Positions(es, thresh, false) == pf + [|es| - 1];
    PickPrefix(es, pf);
    PickAppend(es, pf, |es| - 1);
    IndexesAppend(Pick(es, pf), es[|es| - 1]);
  }

  /** The bucket the last entry does not go to picks the same entries as before it. */
  lemma Unmoved(es: seq<Entry>, thresh: real, close: bool)
    requires |es| > 0 && (es[|es| - 1].dist < thresh) != close
    ensures Pick(es, Positions(es, thresh, close)) == Pick(es[..|es| - 1], Positions(es[..|es| - 1], thresh, close))
  {
    assert Positions(es, thresh, close) == Positions(es[..|es| - 1], thresh, close);
    PickPrefix(es, Positions(es[..|es| - 1], thresh, close));
  }

  lemma ZipAppend(a: seq<nat>, b: seq<real>, i: nat, d: real)
    requires |a| == |b|
    ensures Zip(a + [i], b + [d]) == Zip(a, b) + [Entry(i, d)]
  {
    assert |Zip(a + [i], b + [d])| == |Zip(a, b) + [Entry(i, d)]|;
  }

  lemma IndexesAppend(es: seq<Entry>, e: Entry)
    ensures Indexes(es + [e]) == Indexes(es) + [e.index]
  {
    assert |Indexes(es + [e])| == |Indexes(es) + [e.index]|;
  }

  /** Picking positions that all lie before the last entry does not see the last entry. */
  lemma PickPrefix(es: seq<Entry>, ps: seq<nat>)
    requires |es| > 0
    requires forall k :: 0 <= k < |ps| ==> ps[k] < |es| - 1
    ensures Pick(es, ps) == Pick(es[..|es| - 1], ps)
  {
  }

  lemma PickAppend(es: seq<Entry>, ps: seq<nat>, j: nat)
    requires forall k :: 0 <= k < |ps| ==> ps[k] < |es|
    requires j < |es|
    ensures Pick(es, ps + [j]) == Pick(es, ps) + [es[j]]
  {
    assert |Pick(es, ps + [j])| == |Pick(es, ps) + [es[j]]|;
  }

  /** The far indexes of a pass are exactly the indexes of the entries at or above the threshold. */
  lemma FarIndexMembers(es: seq<Entry>, thresh: real)
    ensures var far := Indexes(Pick(es, Positions(es, thresh, false)));
            forall i :: i in far <==> exists e :: e in es && e.dist >= thresh && e.index == i
  {
    var picked := Pick(es, Positions(es, thresh, false));
    var far := Indexes(picked);
    BucketMembers(es, thresh, false);
    forall i | i in far
      ensures exists e :: e in es && e.dist >= thresh && e.index == i
    {
      var k :| 0 <= k < |far| && far[k] == i;
      assert picked[k] in picked;
    }
    forall i | exists e :: e in es && e.dist >= thresh && e.index == i
      ensures i in far
    {
      var e :| e in es && e.dist >= thresh && e.index == i;
      var k :| 0 <= k < |picked| && picked[k] == e;
      assert far[k] == i;
    }
  }

  /**
   * A bucket holds exactly the entries on its side of the threshold: an entry is picked for the
   * bucket if and only if it is one of the input entries and its distance selects that bucket.
   */
  lemma BucketMembers(es: seq<Entry>, thresh: real, close: bool)
    ensures forall e :: e in Pick(es, Positions(es, thresh, close)) <==> e in es && (e.dist < thresh) == close
  {
    var ps := Positions(es, thresh, close);
    var picked := Pick(es, ps);
    forall e | e in picked
      ensures e in es && (e.dist < thresh) == close
    {
      var k :| 0 <= k < |picked| && picked[k] == e;
      assert ps[k] in ps;
    }
    forall e | e in es && (e.dist < thresh) == close
      ensures e in picked
    {
      var j :| 0 <= j < |es| && es[j] == e;
      assert j in ps;
      var k :| 0 <= k < |ps| && ps[k] == j;
      assert picked[k] == e;
    }
  }

  /** A bucket that no entry's distance selects gets no positions. */
  lemma {:induction false} PositionsNone(es: seq<Entry>, thresh: real, close: bool)
    requires forall j :: 0 <= j < |es| ==> (es[j].dist < thresh) != close
    ensures Positions(es, thresh, close) == []
  {
    if |es| > 0 {
      PositionsNone(es[..|es| - 1], thresh, close);
    }
  }
}
