/**
 * The taxonomy as the classifier sees it (TNodes, src/slimm.h:61): a map from
 * a taxon to its parent. On it: the lowest-common-ancestor search (getLCA,
 * src/slimm.h:736-772 and its overloads at 790-801) and the ancestor climb
 * the read-count propagation walks (src/slimm.h:1144-1153, 1164-1178).
 *
 * A std::set<uint32_t> is modelled as a strictly ascending sequence, because
 * getLCA's result depends on the order in which it visits its frontier.
 */
module Taxonomy {
  import opened Wrappers

  /** Parent of each taxon; the rank label and the name are not needed here. */
  type Nodes = map<nat, nat>

  /**
   * The parent links never loop: each taxon in the table carries a rank, and
   * a parent that is itself in the table ranks strictly lower. A cycle that
   * avoids 0, such as a root other than 0 that is its own parent, makes the
   * climbs in the source run forever; the predicate also rules out an entry
   * for 0 that points back to 0, which those climbs never follow.
   */
  ghost predicate WellFormed(nodes: Nodes, rank: map<nat, nat>)
  {
    forall t :: t in nodes ==> t in rank && (nodes[t] in nodes ==> nodes[t] in rank && rank[nodes[t]] < rank[t])
  }

  /** Steps a climb from `t` can still take, plus one; zero for a taxon without a parent entry. */
  ghost function Height(nodes: Nodes, rank: map<nat, nat>, t: nat): nat
  {
    if t in nodes && t in rank then rank[t] + 1 else 0
  }

  lemma ParentLower(nodes: Nodes, rank: map<nat, nat>, t: nat)
    requires WellFormed(nodes, rank) && t in nodes
    ensures Height(nodes, rank, nodes[t]) < Height(nodes, rank, t)
  {
  }

  // ---------------------------------------------------------------- ancestry

  /** The taxon reached from `t` after `k` parent steps, stopping where the table has no entry. */
  function ClimbN(nodes: Nodes, t: nat, k: nat): nat
    decreases k
  {
    if k == 0 || t !in nodes then t else ClimbN(nodes, nodes[t], k - 1)
  }

  ghost predicate IsAncestorOrSelf(nodes: Nodes, a: nat, t: nat)
  {
    exists k: nat :: ClimbN(nodes, t, k) == a
  }

  lemma {:induction false} ClimbNSucc(nodes: Nodes, t: nat, k: nat)
    requires ClimbN(nodes, t, k) in nodes
    ensures ClimbN(nodes, t, k + 1) == nodes[ClimbN(nodes, t, k)]
    decreases k
  {
    if k > 0 && t in nodes {
      ClimbNSucc(nodes, nodes[t], k - 1);
    }
  }

  /** The parent of an ancestor is an ancestor. */
  lemma ParentOfAncestor(nodes: Nodes, a: nat, t: nat)
    requires IsAncestorOrSelf(nodes, a, t) && a in nodes
    ensures IsAncestorOrSelf(nodes, nodes[a], t)
  {
    var k: nat :| ClimbN(nodes, t, k) == a;
    ClimbNSucc(nodes, t, k);
  }

  /**
   * The taxa a climb from `t` visits, in order: while the current taxon has
   * a parent entry and is not the sentinel 0, step to its parent.
   */
  ghost function Ancestors(nodes: Nodes, rank: map<nat, nat>, t: nat): seq<nat>
    requires WellFormed(nodes, rank)
    decreases Height(nodes, rank, t)
  {
    if t in nodes && t != 0 then [nodes[t]] + Ancestors(nodes, rank, nodes[t]) else []
  }

  /** A climb that passes `t` goes on to every taxon the climb from `t` reaches. */
  lemma {:induction false} AncestorsTransitive(nodes: Nodes, rank: map<nat, nat>, s: nat, t: nat, x: nat)
    requires WellFormed(nodes, rank)
    requires t in Ancestors(nodes, rank, s) && x in Ancestors(nodes, rank, t)
    ensures x in Ancestors(nodes, rank, s)
    decreases Height(nodes, rank, s)
  {
    var up := nodes[s];
    if t != up {
      ParentLower(nodes, rank, s);
      AncestorsTransitive(nodes, rank, up, t, x);
    }
  }

  /**
   * The climb is the chain of parent links from `t`: it starts at the parent
   * of `t`, each taxon after the first is the parent of the one before, and
   * it ends at the first taxon without an entry or equal to 0.
   */
  lemma {:induction false} AncestorsChain(nodes: Nodes, rank: map<nat, nat>, t: nat)
    requires WellFormed(nodes, rank)
    ensures var path := Ancestors(nodes, rank, t);
            && (path == [] <==> t !in nodes || t == 0)
            && (path != [] ==> path[0] == nodes[t])
            && (forall i :: 0 <= i < |path| - 1 ==> path[i] in nodes && path[i] != 0 && path[i + 1] == nodes[path[i]])
            && (path != [] ==> path[|path| - 1] !in nodes || path[|path| - 1] == 0)
    decreases Height(nodes, rank, t)
  {
    if t in nodes && t != 0 {
      var p := nodes[t];
      ParentLower(nodes, rank, t);
      AncestorsChain(nodes, rank, p);
      var rest := Ancestors(nodes, rank, p);
      var path := [p] + rest;
      forall i | 0 <= i < |path| - 1
        ensures path[i] in nodes && path[i] != 0 && path[i + 1] == nodes[path[i]]
      {
        if i > 0 {
          assert path[i] == rest[i - 1] && path[i + 1] == rest[i];
        }
      }
    }
  }

  /** Everything a climb visits lies strictly above its start. */
  lemma {:induction false} AncestorsAbove(nodes: Nodes, rank: map<nat, nat>, t: nat)
    requires WellFormed(nodes, rank)
    ensures forall x :: x in Ancestors(nodes, rank, t) ==> Height(nodes, rank, x) < Height(nodes, rank, t)
    ensures forall x :: x in Ancestors(nodes, rank, t) ==> IsAncestorOrSelf(nodes, x, t) && x != t
    decreases Height(nodes, rank, t)
  {
    if t in nodes && t != 0 {
      var p := nodes[t];
      ParentLower(nodes, rank, t);
      AncestorsAbove(nodes, rank, p);
      assert ClimbN(nodes, t, 1) == p;
      forall x | x in Ancestors(nodes, rank, p)
        ensures IsAncestorOrSelf(nodes, x, t)
      {
        var k: nat :| ClimbN(nodes, p, k) == x;
        assert ClimbN(nodes, t, k + 1) == x;
      }
    }
  }

  /** A climb visits each taxon at most once. */
  lemma {:induction false} AncestorsOnce(nodes: Nodes, rank: map<nat, nat>, t: nat, x: nat)
    requires WellFormed(nodes, rank)
    ensures multiset(Ancestors(nodes, rank, t))[x] <= 1
    decreases Height(nodes, rank, t)
  {
    if t in nodes && t != 0 {
      var p := nodes[t];
      ParentLower(nodes, rank, t);
      AncestorsOnce(nodes, rank, p, x);
      AncestorsAbove(nodes, rank, p);
      assert multiset(Ancestors(nodes, rank, t)) == multiset{p} + multiset(Ancestors(nodes, rank, p));
    }
  }

  // ------------------------------------------------------- maps along a path

  /** A read count, absent keys reading as zero (operator[] on a map of counts). */
  function Count(m: map<nat, nat>, k: nat): nat
  {
    if k in m then m[k] else 0
  }

  /** A set of contributing references, absent keys reading as empty. */
  function Children(m: map<nat, set<nat>>, k: nat): set<nat>
  {
    if k in m then m[k] else {}
  }

  /** `amount` added to the count of every taxon of `ks`, in order, creating missing entries. */
  function AddAlong(m: map<nat, nat>, ks: seq<nat>, amount: nat): map<nat, nat>
  {
    if ks == [] then m
    else
      var before := AddAlong(m, ks[..|ks| - 1], amount);
      var k := ks[|ks| - 1];
      before[k := Count(before, k) + amount]
  }

  /** `refs` joined into the set of every taxon of `ks`, creating missing entries. */
  function JoinAlong(m: map<nat, set<nat>>, ks: seq<nat>, refs: set<nat>): map<nat, set<nat>>
  {
    if ks == [] then m
    else
      var before := JoinAlong(m, ks[..|ks| - 1], refs);
      var k := ks[|ks| - 1];
      before[k := Children(before, k) + refs]
  }

  /** Each count grows by `amount` once per occurrence of its taxon; exactly the taxa of `ks` gain entries. */
  lemma {:induction false} AddAlongAt(m: map<nat, nat>, ks: seq<nat>, amount: nat, x: nat)
    ensures Count(AddAlong(m, ks, amount), x) == Count(m, x) + amount * multiset(ks)[x]
    ensures x in AddAlong(m, ks, amount) <==> x in m || x in ks
  {
    if ks != [] {
      var p, last := ks[..|ks| - 1], ks[|ks| - 1];
      var one: seq<nat> := [last];
      assert ks == p + one;
      assert multiset(ks) == multiset(p) + multiset(one);
      AddAlongAt(m, p, amount, x);
      if last == x {
        var mp: multiset<nat> := multiset(p);
        MulSucc(amount, mp[x]);
      }
    }
  }

  lemma MulSucc(a: nat, c: nat)
    ensures a * (c + 1) == a * c + a
  {
  }

  /** Each set gains `refs` exactly when its taxon is on `ks`; exactly the taxa of `ks` gain entries. */
  lemma {:induction false} JoinAlongAt(m: map<nat, set<nat>>, ks: seq<nat>, refs: set<nat>, x: nat)
    ensures Children(JoinAlong(m, ks, refs), x) == Children(m, x) + (if x in ks then refs else {})
    ensures x in JoinAlong(m, ks, refs) <==> x in m || x in ks
  {
    if ks != [] {
      var p := ks[..|ks| - 1];
      assert ks == p + [ks[|ks| - 1]];
      JoinAlongAt(m, p, refs, x);
    }
  }

  /** One more taxon at the end of a path: the step a climbing loop takes. */
  lemma AlongStep(cm: map<nat, nat>, sm: map<nat, set<nat>>, ks: seq<nat>, k: nat, amount: nat, refs: set<nat>)
    ensures AddAlong(cm, ks + [k], amount) == AddAlong(cm, ks, amount)[k := Count(AddAlong(cm, ks, amount), k) + amount]
    ensures JoinAlong(sm, ks + [k], refs) == JoinAlong(sm, ks, refs)[k := Children(JoinAlong(sm, ks, refs), k) + refs]
  {
    assert (ks + [k])[..|ks + [k]| - 1] == ks;
  }

  /**
   * A climb adds `amount` exactly once to every strict ancestor of `t` that
   * it visits, and to no other taxon.
   */
  lemma ClimbAddsOnce(nodes: Nodes, rank: map<nat, nat>, m: map<nat, nat>, t: nat, amount: nat, x: nat)
    requires WellFormed(nodes, rank)
    ensures var path := Ancestors(nodes, rank, t);
            Count(AddAlong(m, path, amount), x) == Count(m, x) + (if x in path then amount else 0)
  {
    var path := Ancestors(nodes, rank, t);
    AddAlongAt(m, path, amount, x);
    AncestorsOnce(nodes, rank, t, x);
  }

  // ------------------------------------------------------------ ordered sets

  predicate Ascending(s: seq<nat>)
  {
    forall i, j :: 0 <= i < j < |s| ==> s[i] < s[j]
  }

  function Elems(s: seq<nat>): set<nat>
  {
    set t | t in s
  }

  /** No element occurs twice: the order in which a map's keys are visited. */
  predicate NoRepeats(s: seq<nat>)
  {
    forall i, j :: 0 <= i < j < |s| ==> s[i] != s[j]
  }

  /** std::set::insert on an ascending sequence. */
  function InsertSet(x: nat, s: seq<nat>): (r: seq<nat>)
    requires Ascending(s)
    ensures Ascending(r)
    ensures forall y :: y in r <==> y == x || y in s
  {
    if s == [] then [x]
    else if x < s[0] then [x] + s
    else if x == s[0] then s
    else
      var rest := InsertSet(x, s[1..]);
      assert forall y :: y in s[1..] ==> s[0] < y;
      var r := [s[0]] + rest;
      forall j | 0 < j < |r|
        ensures s[0] < r[j]
      {
        assert r[j] == rest[j - 1] && rest[j - 1] in rest;
      }
      r
  }

  /** The range constructor of std::set: the elements of `v`, ascending. */
  function ToOrderedSet(v: seq<nat>): (r: seq<nat>)
    ensures Ascending(r)
    ensures forall y :: y in r <==> y in v
  {
    if v == [] then []
    else
      var p := v[..|v| - 1];
      assert v == p + [v[|v| - 1]];
      InsertSet(v[|v| - 1], ToOrderedSet(p))
  }

  /** The members of `taxa` that are also in `val`, as the first loop of getLCA collects them. */
  function Restrict(taxa: seq<nat>, val: set<nat>): (r: seq<nat>)
    requires Ascending(taxa)
    ensures Ascending(r)
    ensures forall y :: y in r <==> y in taxa && y in val
  {
    if taxa == [] then []
    else
      var p := taxa[..|taxa| - 1];
      var last := taxa[|taxa| - 1];
      assert taxa == p + [last];
      if last in val then InsertSet(last, Restrict(p, val)) else Restrict(p, val)
  }
  /** Inserting a value above every element appends it. */
  lemma {:induction false} InsertSetLast(x: nat, s: seq<nat>)
    requires Ascending(s) && forall y :: y in s ==> y < x
    ensures InsertSet(x, s) == s + [x]
    decreases |s|
  {
    if s != [] {
      assert s[0] in s;
      var rest := s[1..];
      assert forall y :: y in rest ==> y in s;
      InsertSetLast(x, rest);
      assert [s[0]] + (rest + [x]) == s + [x];
    }
  }

  /** An ascending list of acceptable taxa is its own restriction. */
  lemma {:induction false} RestrictAll(taxa: seq<nat>, val: set<nat>)
    requires Ascending(taxa) && forall y :: y in taxa ==> y in val
    ensures Restrict(taxa, val) == taxa
  {
    if taxa != [] {
      var n := |taxa| - 1;
      BelowLast(taxa, val);
      RestrictAll(taxa[..n], val);
      InsertSetLast(taxa[n], taxa[..n]);
      assert taxa == taxa[..n] + [taxa[n]];
    }
  }

  /** In an ascending list of acceptable taxa, what precedes the last one is acceptable and below it. */
  lemma BelowLast(taxa: seq<nat>, val: set<nat>)
    requires taxa != [] && Ascending(taxa) && forall y :: y in taxa ==> y in val
    ensures taxa[|taxa| - 1] in val && Ascending(taxa[..|taxa| - 1])
    ensures forall y :: y in taxa[..|taxa| - 1] ==> y in val && y < taxa[|taxa| - 1]
  {
    var n := |taxa| - 1;
    forall y | y in taxa[..n]
      ensures y in val && y < taxa[n]
    {
      var j :| 0 <= j < n && taxa[..n][j] == y;
      assert taxa[j] == y;
    }
  }


  // --------------------------------------------------------------------- LCA

  datatype Round = Found(lca: nat) | Next(frontier: seq<nat>)

  /**
   * One pass over the frontier from position `i`: a taxon whose parent is in
   * the frontier uses up one of the remaining `count`, and when one is left
   * that parent is the answer; any other taxon with a parent entry puts its
   * parent into the next frontier; a taxon without an entry is dropped.
   */
  function RoundFrom(parents: seq<nat>, nodes: Nodes, i: nat, count: int, newParents: seq<nat>): (r: Round)
    requires Ascending(newParents)
    ensures r.Next? ==> Ascending(r.frontier)
    decreases |parents| - i
  {
    if i >= |parents| then Next(newParents)
    else
      var t := parents[i];
      if t in nodes then
        if nodes[t] in parents then
          if count - 1 == 1 then Found(nodes[t])
          else RoundFrom(parents, nodes, i + 1, count - 1, newParents)
        else RoundFrom(parents, nodes, i + 1, count, InsertSet(nodes[t], newParents))
      else RoundFrom(parents, nodes, i + 1, count, newParents)
  }

  function Round0(parents: seq<nat>, nodes: Nodes): (r: Round)
    ensures r.Next? ==> Ascending(r.frontier)
  {
    RoundFrom(parents, nodes, 0, |parents|, [])
  }

  /** One more than the largest height on the frontier; zero for an empty frontier. */
  ghost function MaxHeight(nodes: Nodes, rank: map<nat, nat>, s: seq<nat>): nat
  {
    if s == [] then 0
    else
      var h := Height(nodes, rank, s[|s| - 1]) + 1;
      var m := MaxHeight(nodes, rank, s[..|s| - 1]);
      if h < m then m else h
  }

  lemma {:induction false} MaxHeightAbove(nodes: Nodes, rank: map<nat, nat>, s: seq<nat>, b: nat)
    requires forall x :: x in s ==> Height(nodes, rank, x) + 1 <= b
    ensures MaxHeight(nodes, rank, s) <= b
  {
    if s != [] {
      var p := s[..|s| - 1];
      assert forall x :: x in p ==> x in s;
      MaxHeightAbove(nodes, rank, p, b);
    }
  }

  lemma {:induction false} MaxHeightBelow(nodes: Nodes, rank: map<nat, nat>, s: seq<nat>, x: nat)
    requires x in s
    ensures Height(nodes, rank, x) + 1 <= MaxHeight(nodes, rank, s)
  {
    var p := s[..|s| - 1];
    if x != s[|s| - 1] {
      assert s == p + [s[|s| - 1]];
      MaxHeightBelow(nodes, rank, p, x);
    }
  }

  lemma {:induction false} RoundBound(nodes: Nodes, rank: map<nat, nat>, parents: seq<nat>, i: nat, count: int, newParents: seq<nat>, b: nat)
    requires WellFormed(nodes, rank) && Ascending(newParents)
    requires forall t :: t in parents ==> Height(nodes, rank, t) <= b
    requires forall x :: x in newParents ==> Height(nodes, rank, x) < b
    ensures var r := RoundFrom(parents, nodes, i, count, newParents);
            r.Next? ==> forall x :: x in r.frontier ==> Height(nodes, rank, x) < b
    decreases |parents| - i
  {
    if i < |parents| {
      var t := parents[i];
      if t in nodes {
        if nodes[t] in parents {
          RoundBound(nodes, rank, parents, i + 1, count - 1, newParents, b);
        } else {
          ParentLower(nodes, rank, t);
          RoundBound(nodes, rank, parents, i + 1, count, InsertSet(nodes[t], newParents), b);
        }
      } else {
        RoundBound(nodes, rank, parents, i + 1, count, newParents, b);
      }
    }
  }

  /** A round that does not answer leaves a frontier strictly closer to the roots: getLCA terminates. */
  lemma RoundShrinks(nodes: Nodes, rank: map<nat, nat>, parents: seq<nat>)
    requires WellFormed(nodes, rank) && parents != []
    ensures Round0(parents, nodes).Next? ==>
              MaxHeight(nodes, rank, Round0(parents, nodes).frontier) < MaxHeight(nodes, rank, parents)
  {
    var b := MaxHeight(nodes, rank, parents);
    forall t | t in parents
      ensures Height(nodes, rank, t) <= b - 1
    {
      MaxHeightBelow(nodes, rank, parents, t);
    }
    MaxHeightBelow(nodes, rank, parents, parents[0]);
    RoundBound(nodes, rank, parents, 0, |parents|, [], b - 1);
    var r := Round0(parents, nodes);
    if r.Next? {
      MaxHeightAbove(nodes, rank, r.frontier, b - 1);
    }
  }

  /**
   * The rounds of getLCA from a given frontier: more than one taxon, run a
   * round; exactly one, that is the answer; none, there is no answer (the
   * source dereferences begin() of an empty set).
   */
  ghost function LcaLoop(parents: seq<nat>, nodes: Nodes, rank: map<nat, nat>): Option<nat>
    requires Ascending(parents) && WellFormed(nodes, rank)
    decreases MaxHeight(nodes, rank, parents)
  {
    if |parents| > 1 then
      RoundShrinks(nodes, rank, parents);
      match Round0(parents, nodes)
      case Found(x) => Some(x)
      case Next(np) => LcaLoop(np, nodes, rank)
    else if |parents| == 1 then Some(parents[0])
    else None
  }

  /** getLCA(taxaIDs, valTaxaIDs, nodes): the rounds, from the candidates that are acceptable. */
  ghost function Lca(taxa: seq<nat>, val: set<nat>, nodes: Nodes, rank: map<nat, nat>): Option<nat>
    requires Ascending(taxa) && WellFormed(nodes, rank)
  {
    LcaLoop(Restrict(taxa, val), nodes, rank)
  }

  method GetLca(taxa: seq<nat>, val: set<nat>, nodes: Nodes, ghost rank: map<nat, nat>) returns (r: Option<nat>)
    requires Ascending(taxa) && WellFormed(nodes, rank)
    ensures r == Lca(taxa, val, nodes, rank)
  {
    var parents: seq<nat> := [];
    for i := 0 to |taxa|
      invariant parents == Restrict(taxa[..i], val)
    {
      assert taxa[..i + 1][..i] == taxa[..i];
      if taxa[i] in val {
        parents := InsertSet(taxa[i], parents);
      }
    }
    assert taxa[..|taxa|] == taxa;
    while |parents| > 1
      invariant Ascending(parents)
      invariant LcaLoop(parents, nodes, rank) == Lca(taxa, val, nodes, rank)
      decreases MaxHeight(nodes, rank, parents)
    {
      var newParents: seq<nat> := [];
      var count: int := |parents|;
      var i := 0;
      while i < |parents|
        invariant 0 <= i <= |parents| && Ascending(newParents)
        invariant RoundFrom(parents, nodes, i, count, newParents) == Round0(parents, nodes)
      {
        var t := parents[i];
        if t in nodes {
          if nodes[t] in parents {
            count := count - 1;
            if count == 1 {
              return Some(nodes[t]);
            }
          } else {
            newParents := InsertSet(nodes[t], newParents);
          }
        }
        i := i + 1;
      }
      RoundShrinks(nodes, rank, parents);
      parents := newParents;
    }
    if |parents| == 1 {
      r := Some(parents[0]);
    } else {
      r := None;
    }
  }

  /** getLCA(taxaIDs, nodes): every candidate is acceptable. */
  method GetLcaOf(taxa: seq<nat>, nodes: Nodes, ghost rank: map<nat, nat>) returns (r: Option<nat>)
    requires Ascending(taxa) && WellFormed(nodes, rank)
    ensures r == Lca(taxa, Elems(taxa), nodes, rank)
  {
    r := GetLca(taxa, Elems(taxa), nodes, rank);
  }

  /** getLCA(std::vector, nodes): the candidates are first collected into an ordered set. */
  method GetLcaOfVector(taxa: seq<nat>, nodes: Nodes, ghost rank: map<nat, nat>) returns (r: Option<nat>)
    requires WellFormed(nodes, rank)
    ensures r == Lca(ToOrderedSet(taxa), Elems(taxa), nodes, rank)
  {
    var s := ToOrderedSet(taxa);
    assert Elems(s) == Elems(taxa);
    r := GetLca(s, Elems(s), nodes, rank);
  }

  // --------------------------------------------------------- LCA properties

  /** An empty frontier has no answer; a frontier of one taxon is its own answer. */
  lemma LcaSmallFrontier(taxa: seq<nat>, val: set<nat>, nodes: Nodes, rank: map<nat, nat>)
    requires Ascending(taxa) && WellFormed(nodes, rank)
    ensures (forall t :: t in taxa ==> t !in val) ==> Lca(taxa, val, nodes, rank) == None
    ensures forall a :: Restrict(taxa, val) == [a] ==> Lca(taxa, val, nodes, rank) == Some(a)
  {
    RestrictEmpty(taxa, val);
  }

  lemma RestrictEmpty(taxa: seq<nat>, val: set<nat>)
    requires Ascending(taxa)
    ensures Restrict(taxa, val) == [] <==> forall t :: t in taxa ==> t !in val
  {
    var f := Restrict(taxa, val);
    if f != [] {
      assert f[0] in f;
    }
  }

  /** Every taxon of the frontier is an ancestor-or-self of some seed. */
  ghost predicate Covered(nodes: Nodes, frontier: seq<nat>, seeds: set<nat>)
  {
    forall x :: x in frontier ==> exists s :: s in seeds && IsAncestorOrSelf(nodes, x, s)
  }

  lemma {:induction false} RoundCovered(nodes: Nodes, parents: seq<nat>, i: nat, count: int, newParents: seq<nat>, seeds: set<nat>)
    requires Ascending(newParents)
    requires Covered(nodes, parents, seeds) && Covered(nodes, newParents, seeds)
    ensures match RoundFrom(parents, nodes, i, count, newParents)
            case Found(x) => exists s :: s in seeds && IsAncestorOrSelf(nodes, x, s)
            case Next(np) => Covered(nodes, np, seeds)
    decreases |parents| - i
  {
    if i < |parents| {
      var t := parents[i];
      if t in nodes {
        assert t in parents;
        var s :| s in seeds && IsAncestorOrSelf(nodes, t, s);
        ParentOfAncestor(nodes, t, s);
        if nodes[t] in parents {
          if count - 1 != 1 {
            RoundCovered(nodes, parents, i + 1, count - 1, newParents, seeds);
          }
        } else {
          var np := InsertSet(nodes[t], newParents);
          assert Covered(nodes, np, seeds);
          RoundCovered(nodes, parents, i + 1, count, np, seeds);
        }
      } else {
        RoundCovered(nodes, parents, i + 1, count, newParents, seeds);
      }
    }
  }

  lemma {:induction false} LcaLoopCovered(parents: seq<nat>, nodes: Nodes, rank: map<nat, nat>, seeds: set<nat>)
    requires Ascending(parents) && WellFormed(nodes, rank)
    requires Covered(nodes, parents, seeds)
    ensures LcaLoop(parents, nodes, rank).Some? ==>
              exists s :: s in seeds && IsAncestorOrSelf(nodes, LcaLoop(parents, nodes, rank).value, s)
    decreases MaxHeight(nodes, rank, parents)
  {
    if |parents| > 1 {
      RoundShrinks(nodes, rank, parents);
      RoundCovered(nodes, parents, 0, |parents|, [], seeds);
      match Round0(parents, nodes)
      case Found(x) =>
      case Next(np) => LcaLoopCovered(np, nodes, rank, seeds);
    } else if |parents| == 1 {
      assert parents[0] in parents;
    }
  }

  /** Whatever getLCA answers lies on the ancestor chain of one of the acceptable candidates. */
  lemma LcaIsAncestorOfSeed(taxa: seq<nat>, val: set<nat>, nodes: Nodes, rank: map<nat, nat>)
    requires Ascending(taxa) && WellFormed(nodes, rank)
    ensures Lca(taxa, val, nodes, rank).Some? ==>
              exists s :: s in taxa && s in val && IsAncestorOrSelf(nodes, Lca(taxa, val, nodes, rank).value, s)
  {
    var seeds := set s | s in taxa && s in val;
    var f := Restrict(taxa, val);
    forall x | x in f
      ensures exists s :: s in seeds && IsAncestorOrSelf(nodes, x, s)
    {
      assert x in seeds;
      assert ClimbN(nodes, x, 0) == x;
    }
    LcaLoopCovered(f, nodes, rank, seeds);
  }

  /** Two siblings under a common parent, candidates restricted to {1, 2, 3}: the answer is the parent. */
  lemma LcaSiblings(nodes: Nodes, rank: map<nat, nat>)
    requires nodes == map[2 := 1, 3 := 1, 1 := 0] && rank == map[1 := 0, 2 := 1, 3 := 1]
    ensures WellFormed(nodes, rank)
    ensures Lca([2, 3], {1, 2, 3}, nodes, rank) == Some(1)
  {
    SiblingsWellFormed(nodes, rank);
    RestrictAll([2, 3], {1, 2, 3});
    SiblingsRound(nodes);
    LcaLoopNext([2, 3], [1], nodes, rank);
    assert LcaLoop([1], nodes, rank) == Some(1);
  }

  /** A round that ends without an answer hands its frontier to the next round. */
  lemma LcaLoopNext(parents: seq<nat>, np: seq<nat>, nodes: Nodes, rank: map<nat, nat>)
    requires |parents| > 1 && Ascending(parents) && Ascending(np) && WellFormed(nodes, rank)
    requires Round0(parents, nodes) == Next(np)
    ensures LcaLoop(parents, nodes, rank) == LcaLoop(np, nodes, rank)
  {
  }

  lemma SiblingsWellFormed(nodes: Nodes, rank: map<nat, nat>)
    requires nodes == map[2 := 1, 3 := 1, 1 := 0] && rank == map[1 := 0, 2 := 1, 3 := 1]
    ensures WellFormed(nodes, rank)
  {
    forall t | t in nodes
      ensures t in rank && (nodes[t] in nodes ==> nodes[t] in rank && rank[nodes[t]] < rank[t])
    {
      assert t == 1 || t == 2 || t == 3;
    }
  }

  lemma SiblingsRound(nodes: Nodes)
    requires nodes == map[2 := 1, 3 := 1, 1 := 0]
    ensures Round0([2, 3], nodes) == Next([1])
  {
    var f := [2, 3];
    assert InsertSet(1, []) == [1];
    assert InsertSet(1, [1]) == [1];
    assert RoundFrom(f, nodes, 2, 2, [1]) == Next([1]);
    assert RoundFrom(f, nodes, 1, 2, [1]) == Next([1]);
  }

  /**
   * A chain 3 -> 2 -> 1 -> 0 with all three as candidates: the round meets
   * 2 (parent of 3) and 1 (parent of 2) in the frontier, and stops at 2,
   * which is not an ancestor of the candidate 1.
   */
  lemma LcaChainMisses(nodes: Nodes, rank: map<nat, nat>)
    requires nodes == map[1 := 0, 2 := 1, 3 := 2] && rank == map[1 := 0, 2 := 1, 3 := 2]
    ensures WellFormed(nodes, rank)
    ensures Lca([1, 2, 3], {1, 2, 3}, nodes, rank) == Some(2)
    ensures !IsAncestorOrSelf(nodes, 2, 1)
  {
    ChainFrontier();
    ChainRound(nodes);
    OnlyRootAbove(nodes);
  }

  lemma ChainFrontier()
    ensures Restrict([1, 2, 3], {1, 2, 3}) == [1, 2, 3]
  {
    RestrictAll([1, 2, 3], {1, 2, 3});
  }

  lemma ChainRound(nodes: Nodes)
    requires nodes == map[1 := 0, 2 := 1, 3 := 2]
    ensures Round0([1, 2, 3], nodes) == Found(2)
  {
    var f := [1, 2, 3];
    assert RoundFrom(f, nodes, 2, 2, [0]) == Found(2);
    assert RoundFrom(f, nodes, 1, 3, [0]) == Found(2);
  }

  lemma OnlyRootAbove(nodes: Nodes)
    requires nodes == map[1 := 0, 2 := 1, 3 := 2]
    ensures !IsAncestorOrSelf(nodes, 2, 1)
  {
    forall k: nat
      ensures ClimbN(nodes, 1, k) != 2
    {
      if k > 0 {
        assert ClimbN(nodes, 1, k) == ClimbN(nodes, 0, k - 1) == 0;
      }
    }
  }
}
