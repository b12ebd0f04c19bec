/**
 * What getReadLCACount (src/slimm.h:1109-1180) does to the per-taxon read
 * counts and contributing-reference sets, stated on values: reads that are
 * not unique among the valid taxa are assigned to the lowest common
 * ancestor of their taxa, those assignments are then carried up to every
 * ancestor, and finally each reference with reads carries its pass-2 unique
 * count up its own ancestor chain.
 */
module Propagation {
  import opened Wrappers
  import opened Reference
  import opened ReadTargets
  import opened Taxonomy

  /** taxaID2ReadCount and taxaID2Children together. */
  datatype Tally = Tally(counts: map<nat, nat>, children: map<nat, set<nat>>)

  /** The taxa of a read's targets, in target order. */
  function TaxaOf(ts: seq<Target>, taxa: seq<nat>): (r: seq<nat>)
    requires RefsWithin(ts, |taxa|)
    ensures |r| == |ts|
    ensures forall i :: 0 <= i < |ts| ==> r[i] == taxa[ts[i].rID]
  {
    if ts == [] then [] else TaxaOf(ts[..|ts| - 1], taxa) + [taxa[ts[|ts| - 1].rID]]
  }

  /** The references a read hit. */
  function RefIdsOf(ts: seq<Target>): (r: set<nat>)
    ensures forall x :: x in r <==> exists i :: 0 <= i < |ts| && ts[i].rID == x
  {
    if ts == [] then {}
    else
      var p := ts[..|ts| - 1];
      var r := RefIdsOf(p) + {ts[|ts| - 1].rID};
      assert forall i :: 0 <= i < |p| ==> p[i] == ts[i];
      r
  }

  /** getLCA over the ordered set of a read's taxa, every one of them acceptable. */
  ghost function ReadLca(ts: seq<Target>, taxa: seq<nat>, nodes: Nodes, rank: map<nat, nat>): Option<nat>
    requires RefsWithin(ts, |taxa|) && WellFormed(nodes, rank)
  {
    var s := ToOrderedSet(TaxaOf(ts, taxa));
    Lca(s, Elems(s), nodes, rank)
  }

  /** The taxon a read is assigned to lies on the ancestor chain of the taxon of one of its targets. */
  lemma ReadLcaIsAncestor(ts: seq<Target>, taxa: seq<nat>, nodes: Nodes, rank: map<nat, nat>)
    requires RefsWithin(ts, |taxa|) && WellFormed(nodes, rank)
    ensures ReadLca(ts, taxa, nodes, rank).Some? ==>
              exists i :: 0 <= i < |ts| && IsAncestorOrSelf(nodes, ReadLca(ts, taxa, nodes, rank).value, taxa[ts[i].rID])
  {
    var v := TaxaOf(ts, taxa);
    var s := ToOrderedSet(v);
    LcaIsAncestorOfSeed(s, Elems(s), nodes, rank);
    if ReadLca(ts, taxa, nodes, rank).Some? {
      var l := ReadLca(ts, taxa, nodes, rank).value;
      var x :| x in s && x in Elems(s) && IsAncestorOrSelf(nodes, l, x);
      assert x in v;
      var i :| 0 <= i < |v| && v[i] == x;
      assert IsAncestorOrSelf(nodes, l, taxa[ts[i].rID]);
    }
  }

  lemma AscendingFirstTwo(s: seq<nat>)
    requires Ascending(s) && |s| >= 2
    ensures s[0] < s[1]
  {
  }

  /** A read whose targets all belong to one taxon is assigned to that taxon. */
  lemma ReadLcaOneTaxon(ts: seq<Target>, taxa: seq<nat>, nodes: Nodes, rank: map<nat, nat>, x: nat)
    requires RefsWithin(ts, |taxa|) && WellFormed(nodes, rank)
    requires |ts| > 0 && forall i :: 0 <= i < |ts| ==> taxa[ts[i].rID] == x
    ensures ReadLca(ts, taxa, nodes, rank) == Some(x)
  {
    var v := TaxaOf(ts, taxa);
    var s := ToOrderedSet(v);
    assert v[0] == x;
    assert x in s;
    forall i | 0 <= i < |s|
      ensures s[i] == x
    {
      assert s[i] in v;
      var j :| 0 <= j < |v| && v[j] == s[i];
    }
    if |s| >= 2 {
      AscendingFirstTwo(s);
      assert false;
    }
    assert s == [x];
    var r := Restrict(s, Elems(s));
    assert x in r;
    forall i | 0 <= i < |r|
      ensures r[i] == x
    {
      assert r[i] in s;
    }
    if |r| >= 2 {
      AscendingFirstTwo(r);
      assert false;
    }
    assert r == [x];
    LcaSmallFrontier(s, Elems(s), nodes, rank);
  }

  // ------------------------------------------------- loop 1: ambiguous reads

  /**
   * One read of the first loop: a read that is not unique among the valid
   * taxa adds one to its LCA's count and its references to the LCA's set.
   * A read without an answer (an empty frontier, where the source reads
   * begin() of an empty set) changes nothing.
   */
  ghost function AssignRead(tl: Tally, ts: seq<Target>, taxa: seq<nat>, val: set<nat>, nodes: Nodes, rank: map<nat, nat>): Tally
    requires RefsWithin(ts, |taxa|) && WellFormed(nodes, rank)
  {
    match Assignment(ts, taxa, val, nodes, rank)
    case None => tl
    case Some(l) => AddRead(tl, l, RefIdsOf(ts))
  }

  /** The taxon the first loop assigns a read to: none for a read unique among the valid taxa or without an LCA. */
  ghost function Assignment(ts: seq<Target>, taxa: seq<nat>, val: set<nat>, nodes: Nodes, rank: map<nat, nat>): Option<nat>
    requires RefsWithin(ts, |taxa|) && WellFormed(nodes, rank)
  {
    if UniqAmong(ts, taxa, val) then None else ReadLca(ts, taxa, nodes, rank)
  }

  /** One more read for taxon `l`, whose references `refs` join its set. */
  function AddRead(tl: Tally, l: nat, refs: set<nat>): Tally
  {
    Tally(tl.counts[l := Count(tl.counts, l) + 1], tl.children[l := Children(tl.children, l) + refs])
  }

  ghost function AssignReads(tl: Tally, tss: seq<seq<Target>>, taxa: seq<nat>, val: set<nat>, nodes: Nodes, rank: map<nat, nat>): Tally
    requires forall k :: 0 <= k < |tss| ==> RefsWithin(tss[k], |taxa|)
    requires WellFormed(nodes, rank)
  {
    if tss == [] then tl
    else AssignRead(AssignReads(tl, tss[..|tss| - 1], taxa, val, nodes, rank), tss[|tss| - 1], taxa, val, nodes, rank)
  }

  /** Collecting one more target inserts its taxon into the ordered set and its reference into the set of references. */
  lemma {:induction false} CollectStep(ts: seq<Target>, taxa: seq<nat>, j: nat)
    requires j < |ts| && RefsWithin(ts, |taxa|)
    ensures RefsWithin(ts[..j], |taxa|) && RefsWithin(ts[..j + 1], |taxa|)
    ensures ToOrderedSet(TaxaOf(ts[..j + 1], taxa)) == InsertSet(taxa[ts[j].rID], ToOrderedSet(TaxaOf(ts[..j], taxa)))
    ensures RefIdsOf(ts[..j + 1]) == RefIdsOf(ts[..j]) + {ts[j].rID}
  {
    var p := ts[..j + 1];
    assert p[..|p| - 1] == ts[..j];
    var v := TaxaOf(p, taxa);
    assert v == TaxaOf(ts[..j], taxa) + [taxa[ts[j].rID]];
    assert v[..|v| - 1] == TaxaOf(ts[..j], taxa);
  }

  /** AddRead changes taxon `l` only. */
  lemma AddReadAt(tl: Tally, l: nat, refs: set<nat>, x: nat)
    ensures Count(AddRead(tl, l, refs).counts, x) == Count(tl.counts, x) + (if x == l then 1 else 0)
    ensures Children(AddRead(tl, l, refs).children, x) == Children(tl.children, x) + (if x == l then refs else {})
  {
  }

  /** The first loop after one more read. */
  lemma {:induction false} AssignReadsStep(tl: Tally, tss: seq<seq<Target>>, taxa: seq<nat>, val: set<nat>, nodes: Nodes, rank: map<nat, nat>, i: nat)
    requires i < |tss| && (forall k :: 0 <= k < |tss| ==> RefsWithin(tss[k], |taxa|)) && WellFormed(nodes, rank)
    ensures AssignReads(tl, tss[..i + 1], taxa, val, nodes, rank) == AssignRead(AssignReads(tl, tss[..i], taxa, val, nodes, rank), tss[i], taxa, val, nodes, rank)
  {
    assert tss[..i + 1][..i] == tss[..i];
  }

  /** The assignment of every read, in order. */
  ghost function Assignments(tss: seq<seq<Target>>, taxa: seq<nat>, val: set<nat>, nodes: Nodes, rank: map<nat, nat>): (r: seq<Option<nat>>)
    requires forall k :: 0 <= k < |tss| ==> RefsWithin(tss[k], |taxa|)
    requires WellFormed(nodes, rank)
    ensures |r| == |tss|
  {
    if tss == [] then []
    else Assignments(tss[..|tss| - 1], taxa, val, nodes, rank) + [Assignment(tss[|tss| - 1], taxa, val, nodes, rank)]
  }

  lemma {:induction false} AssignmentsAt(tss: seq<seq<Target>>, taxa: seq<nat>, val: set<nat>, nodes: Nodes, rank: map<nat, nat>, k: nat)
    requires forall k :: 0 <= k < |tss| ==> RefsWithin(tss[k], |taxa|)
    requires WellFormed(nodes, rank) && k < |tss|
    ensures Assignments(tss, taxa, val, nodes, rank)[k] == Assignment(tss[k], taxa, val, nodes, rank)
  {
    var n := |tss| - 1;
    if k < n {
      assert tss[..n][k] == tss[k];
      AssignmentsAt(tss[..n], taxa, val, nodes, rank, k);
    }
  }

  /** How many of the assignments `asg` go to `x`. */
  function AssignedCount(asg: seq<Option<nat>>, x: nat): nat
  {
    if asg == [] then 0 else AssignedCount(asg[..|asg| - 1], x) + (if asg[|asg| - 1] == Some(x) then 1 else 0)
  }

  /** The references of the reads whose assignment in `asg` is `x`. */
  function AssignedRefs(tss: seq<seq<Target>>, asg: seq<Option<nat>>, x: nat): set<nat>
    requires |asg| == |tss|
  {
    if tss == [] then {}
    else
      var n := |tss| - 1;
      AssignedRefs(tss[..n], asg[..n], x) + (if asg[n] == Some(x) then RefIdsOf(tss[n]) else {})
  }

  /** The first loop and the assignments, one read from the end. */
  lemma {:induction false} AssignReadsLast(tl: Tally, tss: seq<seq<Target>>, taxa: seq<nat>, val: set<nat>, nodes: Nodes, rank: map<nat, nat>)
    requires tss != [] && (forall k :: 0 <= k < |tss| ==> RefsWithin(tss[k], |taxa|))
    requires WellFormed(nodes, rank)
    ensures var n := |tss| - 1; var asg := Assignments(tss, taxa, val, nodes, rank);
      && (forall k :: 0 <= k < n ==> RefsWithin(tss[..n][k], |taxa|))
      && AssignReads(tl, tss, taxa, val, nodes, rank) == AssignRead(AssignReads(tl, tss[..n], taxa, val, nodes, rank), tss[n], taxa, val, nodes, rank)
      && asg[..n] == Assignments(tss[..n], taxa, val, nodes, rank)
      && asg[n] == Assignment(tss[n], taxa, val, nodes, rank)
  {
    var n := |tss| - 1;
    var asg := Assignments(tss, taxa, val, nodes, rank);
    assert asg == Assignments(tss[..n], taxa, val, nodes, rank) + [Assignment(tss[n], taxa, val, nodes, rank)];
  }

  /** After the first loop a taxon's count has grown by the number of reads assigned to it. */
  lemma {:induction false} AssignReadsAt(tl: Tally, tss: seq<seq<Target>>, taxa: seq<nat>, val: set<nat>, nodes: Nodes, rank: map<nat, nat>, x: nat)
    requires forall k :: 0 <= k < |tss| ==> RefsWithin(tss[k], |taxa|)
    requires WellFormed(nodes, rank)
    ensures Count(AssignReads(tl, tss, taxa, val, nodes, rank).counts, x) == Count(tl.counts, x) + AssignedCount(Assignments(tss, taxa, val, nodes, rank), x)
  {
    if tss != [] {
      var n := |tss| - 1;
      AssignReadsLast(tl, tss, taxa, val, nodes, rank);
      AssignReadsAt(tl, tss[..n], taxa, val, nodes, rank, x);
      match Assignment(tss[n], taxa, val, nodes, rank)
      case None =>
      case Some(l) => AddReadAt(AssignReads(tl, tss[..n], taxa, val, nodes, rank), l, RefIdsOf(tss[n]), x);
    }
  }

  /** After the first loop a taxon's set has gained the references of the reads assigned to it. */
  lemma {:induction false} AssignReadsRefsAt(tl: Tally, tss: seq<seq<Target>>, taxa: seq<nat>, val: set<nat>, nodes: Nodes, rank: map<nat, nat>, x: nat)
    requires forall k :: 0 <= k < |tss| ==> RefsWithin(tss[k], |taxa|)
    requires WellFormed(nodes, rank)
    ensures Children(AssignReads(tl, tss, taxa, val, nodes, rank).children, x) == Children(tl.children, x) + AssignedRefs(tss, Assignments(tss, taxa, val, nodes, rank), x)
  {
    if tss != [] {
      var n := |tss| - 1;
      AssignReadsLast(tl, tss, taxa, val, nodes, rank);
      AssignReadsRefsAt(tl, tss[..n], taxa, val, nodes, rank, x);
      match Assignment(tss[n], taxa, val, nodes, rank)
      case None =>
      case Some(l) => AddReadAt(AssignReads(tl, tss[..n], taxa, val, nodes, rank), l, RefIdsOf(tss[n]), x);
    }
  }

  /** A reference gained by `x` was hit by a read assigned to `x`. */
  lemma {:induction false} AssignedRefsSound(tss: seq<seq<Target>>, asg: seq<Option<nat>>, x: nat, y: nat) returns (k: nat)
    requires |asg| == |tss| && y in AssignedRefs(tss, asg, x)
    ensures k < |tss| && asg[k] == Some(x) && y in RefIdsOf(tss[k])
  {
    var n := |tss| - 1;
    if asg[n] == Some(x) && y in RefIdsOf(tss[n]) {
      k := n;
    } else {
      k := AssignedRefsSound(tss[..n], asg[..n], x, y);
    }
  }

  /** Every reference hit by a read assigned to `x` is gained by `x`. */
  lemma {:induction false} AssignedRefsComplete(tss: seq<seq<Target>>, asg: seq<Option<nat>>, x: nat, y: nat, k: nat)
    requires |asg| == |tss| && k < |tss| && asg[k] == Some(x) && y in RefIdsOf(tss[k])
    ensures y in AssignedRefs(tss, asg, x)
  {
    var n := |tss| - 1;
    if k < n {
      assert tss[..n][k] == tss[k] && asg[..n][k] == asg[k];
      AssignedRefsComplete(tss[..n], asg[..n], x, y, k);
    }
  }

  /** A taxon with a positive count among the assignments is the assignment of some read. */
  lemma {:induction false} AssignedWitness(asg: seq<Option<nat>>, x: nat) returns (k: nat)
    requires AssignedCount(asg, x) > 0
    ensures k < |asg| && asg[k] == Some(x)
  {
    var n := |asg| - 1;
    if asg[n] == Some(x) {
      k := n;
    } else {
      k := AssignedWitness(asg[..n], x);
    }
  }

  /** Only a taxon on the ancestor chain of some read's target taxon gains count in the first loop. */
  lemma AssignedOnlyToAncestors(tl: Tally, tss: seq<seq<Target>>, taxa: seq<nat>, val: set<nat>, nodes: Nodes, rank: map<nat, nat>, x: nat)
    requires forall k :: 0 <= k < |tss| ==> RefsWithin(tss[k], |taxa|)
    requires WellFormed(nodes, rank)
    requires Count(AssignReads(tl, tss, taxa, val, nodes, rank).counts, x) > Count(tl.counts, x)
    ensures exists k, i :: 0 <= k < |tss| && 0 <= i < |tss[k]| && IsAncestorOrSelf(nodes, x, taxa[tss[k][i].rID])
  {
    AssignReadsAt(tl, tss, taxa, val, nodes, rank, x);
    var k := AssignedWitness(Assignments(tss, taxa, val, nodes, rank), x);
    AssignmentsAt(tss, taxa, val, nodes, rank, k);
    ReadLcaIsAncestor(tss[k], taxa, nodes, rank);
  }

  // --------------------------------------------- loops 2 and 3: climbing up

  /** Every ancestor of `t`, bottom up, gains `amount` in its count and `refs` in its set. */
  ghost function Climb(tl: Tally, t: nat, amount: nat, refs: set<nat>, nodes: Nodes, rank: map<nat, nat>): Tally
    requires WellFormed(nodes, rank)
  {
    var path := Ancestors(nodes, rank, t);
    Tally(AddAlong(tl.counts, path, amount), JoinAlong(tl.children, path, refs))
  }

  /** operator[] on the children map: a missing key gets an empty set. */
  function Touch(m: map<nat, set<nat>>, t: nat): (r: map<nat, set<nat>>)
    ensures t in r && Children(r, t) == Children(m, t)
    ensures forall x :: Children(r, x) == Children(m, x)
    ensures forall x :: x in r <==> x in m || x == t
  {
    if t in m then m else m[t := {}]
  }

  /**
   * The second loop, over the keys of the copy of the counts in iteration
   * order: each key's copied count and its current set of references climb
   * to every ancestor.
   */
  ghost function PropagateKeys(tl: Tally, copy: map<nat, nat>, order: seq<nat>, nodes: Nodes, rank: map<nat, nat>): Tally
    requires WellFormed(nodes, rank)
  {
    if order == [] then tl
    else
      var prev := PropagateKeys(tl, copy, order[..|order| - 1], nodes, rank);
      var t := order[|order| - 1];
      Climb(Tally(prev.counts, Touch(prev.children, t)), t, Count(copy, t), Children(prev.children, t), nodes, rank)
  }

  /** The copied counts of the keys below `x`. */
  ghost function CountBelow(copy: map<nat, nat>, order: seq<nat>, nodes: Nodes, rank: map<nat, nat>, x: nat): nat
    requires WellFormed(nodes, rank)
  {
    if order == [] then 0
    else
      var t := order[|order| - 1];
      CountBelow(copy, order[..|order| - 1], nodes, rank, x) + (if x in Ancestors(nodes, rank, t) then Count(copy, t) else 0)
  }

  /** After the second loop a taxon's count has grown by the copied count of every key strictly below it. */
  lemma {:induction false} PropagateKeysCounts(tl: Tally, copy: map<nat, nat>, order: seq<nat>, nodes: Nodes, rank: map<nat, nat>, x: nat)
    requires WellFormed(nodes, rank)
    ensures Count(PropagateKeys(tl, copy, order, nodes, rank).counts, x) == Count(tl.counts, x) + CountBelow(copy, order, nodes, rank, x)
  {
    if order != [] {
      var p := order[..|order| - 1];
      var t := order[|order| - 1];
      PropagateKeysCounts(tl, copy, p, nodes, rank, x);
      ClimbAddsOnce(nodes, rank, PropagateKeys(tl, copy, p, nodes, rank).counts, t, Count(copy, t), x);
    }
  }

  /** Reference `i` is in the set, before the loop, of some key strictly below `x`. */
  ghost predicate FromKeyBelow(children: map<nat, set<nat>>, order: seq<nat>, nodes: Nodes, rank: map<nat, nat>, x: nat, i: nat)
    requires WellFormed(nodes, rank)
  {
    exists j :: 0 <= j < |order| && x in Ancestors(nodes, rank, order[j]) && i in Children(children, order[j])
  }

  /**
   * After the second loop a taxon's set holds exactly its references from
   * before the loop and those of every key strictly below it. A set is read
   * when its key's turn comes and may already hold references of keys
   * further down, but those keys lie below every ancestor of the key too.
   */
  lemma {:induction false} PropagateKeysChildren(tl: Tally, copy: map<nat, nat>, order: seq<nat>, nodes: Nodes, rank: map<nat, nat>, x: nat)
    requires WellFormed(nodes, rank)
    ensures forall i: nat :: i in Children(PropagateKeys(tl, copy, order, nodes, rank).children, x) <==>
              i in Children(tl.children, x) || FromKeyBelow(tl.children, order, nodes, rank, x, i)
  {
    if order != [] {
      var p := order[..|order| - 1];
      var t := order[|order| - 1];
      var prev := PropagateKeys(tl, copy, p, nodes, rank);
      var final := PropagateKeys(tl, copy, order, nodes, rank);
      PropagateKeysChildren(tl, copy, p, nodes, rank, x);
      PropagateKeysChildren(tl, copy, p, nodes, rank, t);
      var refs := Children(prev.children, t);
      var path := Ancestors(nodes, rank, t);
      JoinAlongAt(Touch(prev.children, t), path, refs, x);
      assert Children(final.children, x) == Children(prev.children, x) + (if x in path then refs else {});
      forall i: nat
        ensures i in Children(final.children, x) <==> i in Children(tl.children, x) || FromKeyBelow(tl.children, order, nodes, rank, x, i)
      {
        KeysChildrenStep(tl.children, order, nodes, rank, x, i, Children(prev.children, x), refs, Children(final.children, x));
      }
    }
  }

  /** One key of the second loop: reference `i` reaches `x` through the sets before the key's turn. */
  lemma KeysChildrenStep(children: map<nat, set<nat>>, order: seq<nat>, nodes: Nodes, rank: map<nat, nat>, x: nat, i: nat,
                         prevX: set<nat>, prevT: set<nat>, finalX: set<nat>)
    requires WellFormed(nodes, rank) && order != []
    requires finalX == prevX + (if x in Ancestors(nodes, rank, order[|order| - 1]) then prevT else {})
    requires i in prevX <==> i in Children(children, x) || FromKeyBelow(children, order[..|order| - 1], nodes, rank, x, i)
    requires i in prevT <==> i in Children(children, order[|order| - 1]) || FromKeyBelow(children, order[..|order| - 1], nodes, rank, order[|order| - 1], i)
    ensures i in finalX <==> i in Children(children, x) || FromKeyBelow(children, order, nodes, rank, x, i)
  {
    var p := order[..|order| - 1];
    var t := order[|order| - 1];
    if i in finalX && i !in Children(children, x) {
      if i in prevX {
        var j :| 0 <= j < |p| && x in Ancestors(nodes, rank, p[j]) && i in Children(children, p[j]);
        assert order[j] == p[j];
      } else {
        if i !in Children(children, t) {
          var j :| 0 <= j < |p| && t in Ancestors(nodes, rank, p[j]) && i in Children(children, p[j]);
          AncestorsTransitive(nodes, rank, p[j], t, x);
          assert false;
        }
        assert order[|p|] == t;
      }
    }
    if FromKeyBelow(children, order, nodes, rank, x, i) && i !in Children(children, x) {
      var j :| 0 <= j < |order| && x in Ancestors(nodes, rank, order[j]) && i in Children(children, order[j]);
      if j < |p| {
        assert p[j] == order[j];
        assert FromKeyBelow(children, p, nodes, rank, x, i);
      }
    }
  }

  /** The third loop over the first `n` references: a reference with reads climbs with its pass-2 unique count and its own index. */
  ghost function PropagateUnique(tl: Tally, refs: seq<RefContig>, n: nat, nodes: Nodes, rank: map<nat, nat>): Tally
    requires n <= |refs| && WellFormed(nodes, rank)
  {
    if n == 0 then tl
    else
      var prev := PropagateUnique(tl, refs, n - 1, nodes, rank);
      var r := refs[n - 1];
      if r.noOfReads > 0 then Climb(prev, r.taxaID, r.noOfUniqReads2, {n - 1}, nodes, rank) else prev
  }

  /** The pass-2 unique counts of the references with reads whose taxon lies strictly below `x`. */
  ghost function UniqueBelow(refs: seq<RefContig>, n: nat, nodes: Nodes, rank: map<nat, nat>, x: nat): nat
    requires n <= |refs| && WellFormed(nodes, rank)
  {
    if n == 0 then 0
    else
      var r := refs[n - 1];
      UniqueBelow(refs, n - 1, nodes, rank, x) + (if r.noOfReads > 0 && x in Ancestors(nodes, rank, r.taxaID) then r.noOfUniqReads2 else 0)
  }

  /** Is reference `i` one that the third loop credits to taxon `x`? */
  ghost predicate CreditsTo(refs: seq<RefContig>, i: nat, nodes: Nodes, rank: map<nat, nat>, x: nat)
    requires i < |refs| && WellFormed(nodes, rank)
  {
    refs[i].noOfReads > 0 && x in Ancestors(nodes, rank, refs[i].taxaID)
  }

  /**
   * After the third loop a taxon's count has grown by the pass-2 unique
   * counts of the references with reads below it, and its set has gained
   * exactly those references.
   */
  lemma {:induction false} PropagateUniqueAt(tl: Tally, refs: seq<RefContig>, n: nat, nodes: Nodes, rank: map<nat, nat>, x: nat)
    requires n <= |refs| && WellFormed(nodes, rank)
    ensures Count(PropagateUnique(tl, refs, n, nodes, rank).counts, x) == Count(tl.counts, x) + UniqueBelow(refs, n, nodes, rank, x)
    ensures forall i: nat :: i in Children(PropagateUnique(tl, refs, n, nodes, rank).children, x) <==>
              i in Children(tl.children, x) || (i < n && CreditsTo(refs, i, nodes, rank, x))
  {
    if n > 0 {
      var prev := PropagateUnique(tl, refs, n - 1, nodes, rank);
      var r := refs[n - 1];
      PropagateUniqueAt(tl, refs, n - 1, nodes, rank, x);
      if r.noOfReads > 0 {
        ClimbAddsOnce(nodes, rank, prev.counts, r.taxaID, r.noOfUniqReads2, x);
        JoinAlongAt(prev.children, Ancestors(nodes, rank, r.taxaID), {n - 1}, x);
      }
    }
  }

  /** A reference is never credited to its own taxon: the climb starts at the parent. */
  lemma NotCreditedToOwnTaxon(refs: seq<RefContig>, i: nat, nodes: Nodes, rank: map<nat, nat>)
    requires i < |refs| && WellFormed(nodes, rank)
    ensures !CreditsTo(refs, i, nodes, rank, refs[i].taxaID)
  {
    AncestorsAbove(nodes, rank, refs[i].taxaID);
  }
}
