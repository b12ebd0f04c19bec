/**
 * The per-read target aggregator (classes TargetRef and Read,
 * src/slimm.h:224-264 and 307-385): a read collects its alignment hits as one
 * target per reference, each with the bins it hit there, and decides whether
 * it is unique by reference or by distinct valid taxon.
 */
module ReadTargets {
  import opened Wrappers
  import opened Reference

  /** TargetRef: a reference index and the bin numbers hit on it, in arrival order. */
  datatype Target = Target(rID: nat, positions: seq<nat>)

  /** sumRefLengths is a uint32_t: its additions and subtractions wrap. */
  const UINT32_MOD: nat := 0x1_0000_0000

  type u32 = x: nat | x < UINT32_MOD

  /**
   * The uint32_t value of an integer: its representative modulo 2^32 in
   * [0, 2^32), reached one modulus at a time (Wrap32IsMod: it is x % 2^32).
   */
  function Wrap32(x: int): u32
    decreases if x >= 0 then x else UINT32_MOD - x
  {
    if 0 <= x < UINT32_MOD then x
    else if x >= UINT32_MOD then Wrap32(x - UINT32_MOD)
    else Wrap32(x + UINT32_MOD)
  }

  lemma {:induction false} Wrap32IsMod(x: int)
    ensures Wrap32(x) == x % UINT32_MOD
    decreases if x >= 0 then x else UINT32_MOD - x
  {
    if 0 <= x < UINT32_MOD {
      DivModUnique(x, 0, x);
    } else if x >= UINT32_MOD {
      Wrap32IsMod(x - UINT32_MOD);
      ShiftMod(x - UINT32_MOD, 1);
    } else {
      Wrap32IsMod(x + UINT32_MOD);
      ShiftMod(x + UINT32_MOD, -1);
    }
  }

  /** Wrapping once per step is the same as wrapping the whole difference. */
  lemma Wrap32Sub(a: int, b: int)
    ensures Wrap32(Wrap32(a) - b) == Wrap32(a - b)
  {
    Wrap32IsMod(a);
    Wrap32IsMod(Wrap32(a) - b);
    Wrap32IsMod(a - b);
    var m := UINT32_MOD;
    var q := a / m;
    assert a == q * m + a % m;
    assert Wrap32(a) - b == (a - b) + (-q) * m;
    ShiftMod(a - b, -q);
  }

  lemma Wrap32Add(a: int, b: int)
    ensures Wrap32(Wrap32(a) + b) == Wrap32(a + b)
  {
    Wrap32Sub(a, -b);
  }

  /**
   * One wrapping step of a running sum whose unwrapped value is `total`:
   * the new unwrapped value, whose wrap is the wrapped step.
   */
  lemma Wrap32Step(cur: int, total: int, b: int) returns (total': int)
    requires cur == Wrap32(total)
    ensures total' == total + b
    ensures Wrap32(cur + b) == Wrap32(total')
  {
    Wrap32Add(total, b);
    total' := total + b;
  }

  lemma ShiftMod(x: int, k: int)
    ensures (x + k * UINT32_MOD) % UINT32_MOD == x % UINT32_MOD
  {
    var m := UINT32_MOD;
    var y := x + k * m;
    var r := x % m;
    assert x == (x / m) * m + r;
    assert y == (x / m + k) * m + r;
    DivModUnique(y, x / m + k, r);
  }

  lemma DivModUnique(y: int, q: int, r: int)
    requires 0 <= r < UINT32_MOD
    requires y == q * UINT32_MOD + r
    ensures y % UINT32_MOD == r
  {
    var m := UINT32_MOD;
    var q' := y / m;
    assert y == q' * m + y % m;
    MultipleBound(q - q');
  }

  /** A non-zero multiple of the modulus is at least the modulus in size. */
  lemma MultipleBound(d: int)
    ensures d >= 1 ==> d * UINT32_MOD >= UINT32_MOD
    ensures d <= -1 ==> d * UINT32_MOD + UINT32_MOD <= 0
  {
  }

  /** Every target names a reference below `n` (indices into taxaIDs and references). */
  ghost predicate RefsWithin(ts: seq<Target>, n: nat)
  {
    forall i :: 0 <= i < |ts| ==> ts[i].rID < n
  }

  /** No two targets of a read name the same reference. */
  ghost predicate DistinctRefs(ts: seq<Target>)
  {
    forall i, j :: 0 <= i < j < |ts| ==> ts[i].rID != ts[j].rID
  }

  /** The index of the first target on reference `rID`, if there is one. */
  function FindRef(ts: seq<Target>, rID: nat): (r: Option<nat>)
    ensures r.Some? ==> r.value < |ts| && ts[r.value].rID == rID
    ensures r.Some? ==> forall j :: 0 <= j < r.value ==> ts[j].rID != rID
    ensures r.None? <==> forall j :: 0 <= j < |ts| ==> ts[j].rID != rID
  {
    if ts == [] then None
    else if ts[0].rID == rID then Some(0)
    else match FindRef(ts[1..], rID)
      case None => None
      case Some(i) => Some(i + 1)
  }

  /** The targets after one more hit on reference `rID` in bin `binNo` (addTarget). */
  function WithHit(ts: seq<Target>, rID: nat, binNo: nat): seq<Target>
  {
    match FindRef(ts, rID)
    case Some(i) => ts[i := Target(rID, ts[i].positions + [binNo])]
    case None => ts + [Target(rID, [binNo])]
  }

  /** All bins hit on reference `x`, target by target. */
  function HitsOn(ts: seq<Target>, x: nat): seq<nat>
  {
    if ts == [] then []
    else HitsOn(ts[..|ts| - 1], x) + (if ts[|ts| - 1].rID == x then ts[|ts| - 1].positions else [])
  }

  /** The number of alignment hits a read holds. */
  function TotalHits(ts: seq<Target>): nat
  {
    if ts == [] then 0 else TotalHits(ts[..|ts| - 1]) + |ts[|ts| - 1].positions|
  }

  /** Replacing a target by one on the same reference leaves the hits on every other reference as they were. */
  lemma {:induction false} HitsOnOther(ts: seq<Target>, i: nat, t: Target, x: nat)
    requires i < |ts| && t.rID == ts[i].rID && x != t.rID
    ensures HitsOn(ts[i := t], x) == HitsOn(ts, x)
  {
    var n := |ts| - 1;
    if i == n {
      assert ts[i := t][..n] == ts[..n];
    } else {
      assert ts[i := t][..n] == ts[..n][i := t];
      HitsOnOther(ts[..n], i, t, x);
    }
  }

  /** With one target per reference, the hits on the reference of target `i` are its positions. */
  lemma {:induction false} HitsOnOnly(ts: seq<Target>, i: nat)
    requires i < |ts| && DistinctRefs(ts)
    ensures HitsOn(ts, ts[i].rID) == ts[i].positions
  {
    var n := |ts| - 1;
    if i == n {
      NoHitsWithout(ts[..n], ts[i].rID);
    } else {
      assert DistinctRefs(ts[..n]);
      assert ts[..n][i] == ts[i];
      HitsOnOnly(ts[..n], i);
    }
  }

  lemma HitsOnAppend(ts: seq<Target>, t: Target, x: nat)
    ensures HitsOn(ts + [t], x) == HitsOn(ts, x) + (if t.rID == x then t.positions else [])
  {
    assert (ts + [t])[..|ts|] == ts;
  }

  lemma {:induction false} NoHitsWithout(ts: seq<Target>, x: nat)
    requires forall j :: 0 <= j < |ts| ==> ts[j].rID != x
    ensures HitsOn(ts, x) == []
  {
    if ts != [] {
      NoHitsWithout(ts[..|ts| - 1], x);
    }
  }

  lemma {:induction false} TotalHitsReplace(ts: seq<Target>, i: nat, t: Target)
    requires i < |ts|
    ensures TotalHits(ts[i := t]) + |ts[i].positions| == TotalHits(ts) + |t.positions|
  {
    var n := |ts| - 1;
    if i == n {
      assert ts[i := t][..n] == ts[..n];
    } else {
      assert ts[i := t][..n] == ts[..n][i := t];
      TotalHitsReplace(ts[..n], i, t);
    }
  }

  /**
   * addTarget keeps one target per reference, counts one more hit, appends
   * `binNo` to the bins hit on `rID` and leaves every other reference's
   * bins as they were; it adds a target exactly when `rID` had none.
   */
  lemma WithHitSpec(ts: seq<Target>, rID: nat, binNo: nat)
    requires DistinctRefs(ts)
    ensures DistinctRefs(WithHit(ts, rID, binNo))
    ensures TotalHits(WithHit(ts, rID, binNo)) == TotalHits(ts) + 1
    ensures HitsOn(WithHit(ts, rID, binNo), rID) == HitsOn(ts, rID) + [binNo]
    ensures forall x :: x != rID ==> HitsOn(WithHit(ts, rID, binNo), x) == HitsOn(ts, x)
    ensures |WithHit(ts, rID, binNo)| == if FindRef(ts, rID).Some? then |ts| else |ts| + 1
  {
    match FindRef(ts, rID)
    case Some(i) => HitOnExisting(ts, i, binNo);
    case None => HitOnNew(ts, rID, binNo);
  }

  /** One more hit on the reference of target `i`. */
  lemma HitOnExisting(ts: seq<Target>, i: nat, binNo: nat)
    requires DistinctRefs(ts) && i < |ts|
    ensures var u := ts[i := Target(ts[i].rID, ts[i].positions + [binNo])];
            && DistinctRefs(u)
            && TotalHits(u) == TotalHits(ts) + 1
            && HitsOn(u, ts[i].rID) == HitsOn(ts, ts[i].rID) + [binNo]
            && forall x :: x != ts[i].rID ==> HitsOn(u, x) == HitsOn(ts, x)
  {
    var t := Target(ts[i].rID, ts[i].positions + [binNo]);
    var u := ts[i := t];
    TotalHitsReplace(ts, i, t);
    assert DistinctRefs(u) by {
      assert forall j :: 0 <= j < |u| ==> u[j].rID == ts[j].rID;
    }
    assert u[i] == t;
    HitsOnOnly(ts, i);
    HitsOnOnly(u, i);
    forall x | x != t.rID
      ensures HitsOn(u, x) == HitsOn(ts, x)
    {
      HitsOnOther(ts, i, t, x);
    }
  }

  /** One hit on a reference no target names yet. */
  lemma HitOnNew(ts: seq<Target>, rID: nat, binNo: nat)
    requires DistinctRefs(ts) && forall j :: 0 <= j < |ts| ==> ts[j].rID != rID
    ensures var u := ts + [Target(rID, [binNo])];
            && DistinctRefs(u)
            && TotalHits(u) == TotalHits(ts) + 1
            && forall x :: HitsOn(u, x) == HitsOn(ts, x) + (if x == rID then [binNo] else [])
  {
    var t := Target(rID, [binNo]);
    var u := ts + [t];
    forall i, j | 0 <= i < j < |u|
      ensures u[i].rID != u[j].rID
    {
      assert u[i] == ts[i];
      if j < |ts| {
        assert u[j] == ts[j];
      }
    }
    assert u[..|ts|] == ts;
    assert TotalHits(u) == TotalHits(ts) + |t.positions|;
    forall x
      ensures HitsOn(u, x) == HitsOn(ts, x) + (if x == rID then [binNo] else [])
    {
      HitsOnAppend(ts, t, x);
    }
  }

  /** The distinct taxa, among those in `valTaxaIDs`, of the references a read hits (refTaxaIDs in isUniq). */
  function ValidTaxaOf(ts: seq<Target>, taxaIDs: seq<nat>, valTaxaIDs: set<nat>): set<nat>
    requires RefsWithin(ts, |taxaIDs|)
  {
    if ts == [] then {}
    else
      var tx := taxaIDs[ts[|ts| - 1].rID];
      ValidTaxaOf(ts[..|ts| - 1], taxaIDs, valTaxaIDs) + (if tx in valTaxaIDs then {tx} else {})
  }

  /** A taxon is among the read's valid taxa exactly when it is valid and some target's reference belongs to it. */
  lemma {:induction false} ValidTaxaOfMembers(ts: seq<Target>, taxaIDs: seq<nat>, valTaxaIDs: set<nat>, x: nat)
    requires RefsWithin(ts, |taxaIDs|)
    ensures x in ValidTaxaOf(ts, taxaIDs, valTaxaIDs) <==>
            x in valTaxaIDs && exists i :: 0 <= i < |ts| && taxaIDs[ts[i].rID] == x
  {
    if ts != [] {
      var n := |ts| - 1;
      ValidTaxaOfMembers(ts[..n], taxaIDs, valTaxaIDs, x);
      if x in valTaxaIDs && taxaIDs[ts[n].rID] != x {
        if exists i :: 0 <= i < |ts| && taxaIDs[ts[i].rID] == x {
          var i :| 0 <= i < |ts| && taxaIDs[ts[i].rID] == x;
          assert ts[..n][i] == ts[i];
        }
      }
    }
  }

  /**
   * isUniq(taxaIDs, valtaxaIDs): no target is not unique, one target is, and
   * two or more are unique when their valid taxa number at most one.
   */
  predicate UniqAmong(ts: seq<Target>, taxaIDs: seq<nat>, valTaxaIDs: set<nat>)
    requires RefsWithin(ts, |taxaIDs|)
  {
    |ts| == 1 || (|ts| >= 2 && |ValidTaxaOf(ts, taxaIDs, valTaxaIDs)| <= 1)
  }

  lemma AtMostOne(s: set<nat>)
    ensures |s| <= 1 <==> forall x, y :: x in s && y in s ==> x == y
  {
    if |s| > 1 {
      var x :| x in s;
      assert |s - {x}| == |s| - 1;
      var y :| y in s - {x};
    } else if s != {} {
      var x :| x in s;
      assert s == {x} by {
        assert |s - {x}| == |s| - 1 == 0;
      }
    }
  }

  /**
   * With two or more targets, a read is unique exactly when all its targets
   * whose taxon is valid share one taxon; references are not compared.
   */
  lemma UniqAmongIff(ts: seq<Target>, taxaIDs: seq<nat>, valTaxaIDs: set<nat>)
    requires RefsWithin(ts, |taxaIDs|)
    requires |ts| >= 2
    ensures UniqAmong(ts, taxaIDs, valTaxaIDs) <==>
            forall i, j :: 0 <= i < |ts| && 0 <= j < |ts| && taxaIDs[ts[i].rID] in valTaxaIDs && taxaIDs[ts[j].rID] in valTaxaIDs
              ==> taxaIDs[ts[i].rID] == taxaIDs[ts[j].rID]
  {
    var s := ValidTaxaOf(ts, taxaIDs, valTaxaIDs);
    AtMostOne(s);
    forall i | 0 <= i < |ts| && taxaIDs[ts[i].rID] in valTaxaIDs
      ensures taxaIDs[ts[i].rID] in s
    {
      ValidTaxaOfMembers(ts, taxaIDs, valTaxaIDs, taxaIDs[ts[i].rID]);
    }
    forall x | x in s
      ensures exists i :: 0 <= i < |ts| && taxaIDs[ts[i].rID] == x && x in valTaxaIDs
    {
      ValidTaxaOfMembers(ts, taxaIDs, valTaxaIDs, x);
    }
  }

  /** Two targets on references of one taxon make a unique read, whether the taxon is valid or not. */
  lemma SameTaxonIsUniq(ts: seq<Target>, taxaIDs: seq<nat>, valTaxaIDs: set<nat>)
    requires RefsWithin(ts, |taxaIDs|)
    requires |ts| == 2 && taxaIDs[ts[0].rID] == taxaIDs[ts[1].rID]
    ensures UniqAmong(ts, taxaIDs, valTaxaIDs)
  {
    UniqAmongIff(ts, taxaIDs, valTaxaIDs);
  }

  /** Two targets whose references lie in two different valid taxa make a read that is not unique. */
  lemma TwoValidTaxaNotUniq(ts: seq<Target>, taxaIDs: seq<nat>, valTaxaIDs: set<nat>, i: nat, j: nat)
    requires RefsWithin(ts, |taxaIDs|)
    requires i < |ts| && j < |ts|
    requires taxaIDs[ts[i].rID] in valTaxaIDs && taxaIDs[ts[j].rID] in valTaxaIDs
    requires taxaIDs[ts[i].rID] != taxaIDs[ts[j].rID]
    ensures !UniqAmong(ts, taxaIDs, valTaxaIDs)
  {
    UniqAmongIff(ts, taxaIDs, valTaxaIDs);
  }

  /** The targets whose reference's taxon is valid, in their original order. */
  function Kept(ts: seq<Target>, taxaIDs: seq<nat>, valTaxaIDs: set<nat>): seq<Target>
    requires RefsWithin(ts, |taxaIDs|)
  {
    if ts == [] then []
    else
      var t := ts[|ts| - 1];
      Kept(ts[..|ts| - 1], taxaIDs, valTaxaIDs) + (if taxaIDs[t.rID] in valTaxaIDs then [t] else [])
  }

  /** Total length of the references of the targets that are not kept. */
  function DroppedLength(ts: seq<Target>, taxaIDs: seq<nat>, valTaxaIDs: set<nat>, references: seq<RefContig>): nat
    requires RefsWithin(ts, |taxaIDs|) && RefsWithin(ts, |references|)
  {
    if ts == [] then 0
    else
      var t := ts[|ts| - 1];
      DroppedLength(ts[..|ts| - 1], taxaIDs, valTaxaIDs, references)
        + (if taxaIDs[t.rID] in valTaxaIDs then 0 else references[t.rID].length)
  }

  /** update: reads with at most one target keep it; others keep exactly their valid targets. */
  function AfterUpdate(ts: seq<Target>, taxaIDs: seq<nat>, valTaxaIDs: set<nat>): seq<Target>
    requires RefsWithin(ts, |taxaIDs|)
  {
    if |ts| <= 1 then ts else Kept(ts, taxaIDs, valTaxaIDs)
  }

  /** `sumRefLengths -= length` on a uint32_t that already holds `base - dropped`, wrapped. */
  method SubtractLength(sum: u32, ghost base: int, ghost dropped: nat, length: nat) returns (sum': u32)
    requires sum == Wrap32(base - dropped)
    ensures sum' == Wrap32(base - (dropped + length))
  {
    Wrap32Sub(base - dropped, length);
    assert base - dropped - length == base - (dropped + length);
    sum' := Wrap32(sum - length);
  }

  /** One more target of the loop in update: it is kept, or its reference's length is dropped. */
  lemma UpdateStep(ts: seq<Target>, taxaIDs: seq<nat>, valTaxaIDs: set<nat>, references: seq<RefContig>, i: nat)
    requires RefsWithin(ts, |taxaIDs|) && RefsWithin(ts, |references|) && i < |ts|
    ensures RefsWithin(ts[..i], |taxaIDs|) && RefsWithin(ts[..i], |references|)
    ensures Kept(ts[..i + 1], taxaIDs, valTaxaIDs) ==
              Kept(ts[..i], taxaIDs, valTaxaIDs) + (if taxaIDs[ts[i].rID] in valTaxaIDs then [ts[i]] else [])
    ensures DroppedLength(ts[..i + 1], taxaIDs, valTaxaIDs, references) ==
              DroppedLength(ts[..i], taxaIDs, valTaxaIDs, references) + (if taxaIDs[ts[i].rID] in valTaxaIDs then 0 else references[ts[i].rID].length)
  {
    assert ts[..i + 1][..i] == ts[..i];
  }

  /**
   * Keeping distributes over concatenation and keeps a single target exactly
   * when its taxon is valid: it is the order-preserving filter.
   */
  lemma {:induction false} KeptConcat(a: seq<Target>, b: seq<Target>, taxaIDs: seq<nat>, valTaxaIDs: set<nat>)
    requires RefsWithin(a, |taxaIDs|) && RefsWithin(b, |taxaIDs|)
    ensures RefsWithin(a + b, |taxaIDs|)
    ensures Kept(a + b, taxaIDs, valTaxaIDs) == Kept(a, taxaIDs, valTaxaIDs) + Kept(b, taxaIDs, valTaxaIDs)
  {
    if b == [] {
      assert a + b == a;
    } else {
      var n := |b| - 1;
      assert (a + b)[..|a + b| - 1] == a + b[..n];
      KeptConcat(a, b[..n], taxaIDs, valTaxaIDs);
    }
  }

  /** A target survives update exactly when it was there and its taxon is valid. */
  lemma {:induction false} KeptMembers(ts: seq<Target>, taxaIDs: seq<nat>, valTaxaIDs: set<nat>, t: Target)
    requires RefsWithin(ts, |taxaIDs|)
    ensures t in Kept(ts, taxaIDs, valTaxaIDs) <==> t in ts && taxaIDs[t.rID] in valTaxaIDs
  {
    if ts != [] {
      var n := |ts| - 1;
      var p := ts[..n];
      KeptMembers(p, taxaIDs, valTaxaIDs, t);
      assert ts == p + [ts[n]];
    }
  }

  /** Survivors still name references below the bound, and there are no more of them than targets. */
  lemma {:induction false} KeptWithin(ts: seq<Target>, taxaIDs: seq<nat>, valTaxaIDs: set<nat>, n: nat)
    requires RefsWithin(ts, |taxaIDs|) && RefsWithin(ts, n)
    ensures RefsWithin(Kept(ts, taxaIDs, valTaxaIDs), n)
    ensures |Kept(ts, taxaIDs, valTaxaIDs)| <= |ts|
  {
    if ts != [] {
      KeptWithin(ts[..|ts| - 1], taxaIDs, valTaxaIDs, n);
    }
  }

  /** Survivors keep distinct references. */
  lemma {:induction false} KeptDistinct(ts: seq<Target>, taxaIDs: seq<nat>, valTaxaIDs: set<nat>)
    requires RefsWithin(ts, |taxaIDs|) && DistinctRefs(ts)
    ensures DistinctRefs(Kept(ts, taxaIDs, valTaxaIDs))
  {
    if ts != [] {
      var n := |ts| - 1;
      var p := ts[..n];
      assert DistinctRefs(p);
      KeptDistinct(p, taxaIDs, valTaxaIDs);
      var k := Kept(p, taxaIDs, valTaxaIDs);
      forall j | 0 <= j < |k|
        ensures k[j].rID != ts[n].rID
      {
        KeptMembers(p, taxaIDs, valTaxaIDs, k[j]);
      }
    }
  }

  /** Dropping the invalid targets keeps the read's valid taxa, and every survivor's taxon is valid. */
  lemma {:induction false} KeptValidTaxa(ts: seq<Target>, taxaIDs: seq<nat>, valTaxaIDs: set<nat>)
    requires RefsWithin(ts, |taxaIDs|)
    ensures RefsWithin(Kept(ts, taxaIDs, valTaxaIDs), |taxaIDs|)
    ensures ValidTaxaOf(Kept(ts, taxaIDs, valTaxaIDs), taxaIDs, valTaxaIDs) == ValidTaxaOf(ts, taxaIDs, valTaxaIDs)
  {
    KeptWithin(ts, taxaIDs, valTaxaIDs, |taxaIDs|);
    if ts != [] {
      var n := |ts| - 1;
      var p := ts[..n];
      KeptValidTaxa(p, taxaIDs, valTaxaIDs);
      KeptWithin(p, taxaIDs, valTaxaIDs, |taxaIDs|);
      var k := Kept(p, taxaIDs, valTaxaIDs);
      if taxaIDs[ts[n].rID] in valTaxaIDs {
        var k' := k + [ts[n]];
        assert Kept(ts, taxaIDs, valTaxaIDs) == k';
        assert k'[..|k'| - 1] == k;
        assert ValidTaxaOf(k', taxaIDs, valTaxaIDs) == ValidTaxaOf(k, taxaIDs, valTaxaIDs) + {taxaIDs[ts[n].rID]};
      } else {
        assert Kept(ts, taxaIDs, valTaxaIDs) == k;
      }
    }
  }

  /**
   * Read: its targets, the (wrapping) sum of the lengths of the references
   * it was counted on, and its length. The engine holds reads by value, as
   * the values of a map, so each operation below returns the read it makes.
   */
  datatype Read = Read(targets: seq<Target>, sumRefLengths: u32, len: nat)
  {
    /** isUniq(): returns the target count as a bool when it is 0 or 1, so a read without targets is not unique. */
    function IsUniq(): (r: bool)
      ensures r <==> |targets| == 1
    {
      var n := |targets|;
      if n == 0 || n == 1 then n != 0 else false
    }
  }

  /**
   * The two isUniq overloads agree on reads with at most one target; with
   * more, the taxon-aware one may call a read unique that isUniq() does not,
   * and neither calls a read without targets unique.
   */
  lemma IsUniqAgrees(rd: Read, taxaIDs: seq<nat>, valTaxaIDs: set<nat>)
    requires RefsWithin(rd.targets, |taxaIDs|)
    ensures rd.IsUniq() ==> UniqAmong(rd.targets, taxaIDs, valTaxaIDs)
    ensures |rd.targets| <= 1 ==> (UniqAmong(rd.targets, taxaIDs, valTaxaIDs) <==> rd.IsUniq())
    ensures UniqAmong(rd.targets, taxaIDs, valTaxaIDs) ==> rd.targets != []
  {
  }

  /** A read as std::unordered_map::operator[] creates it: no targets, zero sums. */
  function NewRead(): (r: Read)
    ensures r.targets == [] && r.sumRefLengths == 0 && r.len == 0
  {
    Read([], 0, 0)
  }

  /** The read that update leaves: the kept targets and, for a read with two or more targets, the dropped lengths subtracted. */
  function UpdatedRead(rd: Read, taxaIDs: seq<nat>, valTaxaIDs: set<nat>, references: seq<RefContig>): Read
    requires RefsWithin(rd.targets, |taxaIDs|) && RefsWithin(rd.targets, |references|)
  {
    Read(AfterUpdate(rd.targets, taxaIDs, valTaxaIDs),
         if |rd.targets| <= 1 then rd.sumRefLengths
         else Wrap32(rd.sumRefLengths - DroppedLength(rd.targets, taxaIDs, valTaxaIDs, references)),
         rd.len)
  }

  /** isUniq(taxaIDs, valtaxaIDs): collects the valid taxa of the targets into a set and compares its size with 1. */
  method IsUniqAmong(rd: Read, taxaIDs: seq<nat>, valTaxaIDs: set<nat>) returns (r: bool)
    requires RefsWithin(rd.targets, |taxaIDs|)
    ensures r == UniqAmong(rd.targets, taxaIDs, valTaxaIDs)
  {
    var targets := rd.targets;
    var n := |targets|;
    if n == 0 || n == 1 {
      return n != 0;
    }
    var refTaxaIDs: set<nat> := {};
    for i := 0 to n
      invariant refTaxaIDs == ValidTaxaOf(targets[..i], taxaIDs, valTaxaIDs)
    {
      assert targets[..i + 1][..i] == targets[..i];
      var tx := taxaIDs[targets[i].rID];
      if tx in valTaxaIDs {
        refTaxaIDs := refTaxaIDs + {tx};
      }
    }
    assert targets[..n] == targets;
    r := |refTaxaIDs| <= 1;
  }

  /** addTarget: appends `binNo` to the target on `rID`, or adds a target `(rID, [binNo])` at the end. */
  method AddTarget(rd: Read, rID: nat, binNo: nat) returns (rd': Read)
    ensures rd' == rd.(targets := WithHit(rd.targets, rID, binNo))
  {
    var targets := rd.targets;
    var n := |targets|;
    if n == 0 {
      return rd.(targets := targets + [Target(rID, [binNo])]);
    }
    for i := 0 to n
      invariant forall j :: 0 <= j < i ==> targets[j].rID != rID
    {
      if targets[i].rID == rID {
        return rd.(targets := targets[i := Target(rID, targets[i].positions + [binNo])]);
      }
    }
    rd' := rd.(targets := targets + [Target(rID, [binNo])]);
  }

  /**
   * update: a read with two or more targets keeps the targets whose taxon
   * is valid, in order, and subtracts (wrapping) the length of each dropped
   * target's reference from sumRefLengths.
   */
  method Update(rd: Read, taxaIDs: seq<nat>, valTaxaIDs: set<nat>, references: seq<RefContig>) returns (rd': Read)
    requires RefsWithin(rd.targets, |taxaIDs|) && RefsWithin(rd.targets, |references|)
    ensures rd'.targets == AfterUpdate(rd.targets, taxaIDs, valTaxaIDs)
    ensures rd'.sumRefLengths ==
            if |rd.targets| <= 1 then rd.sumRefLengths
            else Wrap32(rd.sumRefLengths - DroppedLength(rd.targets, taxaIDs, valTaxaIDs, references))
    ensures rd'.len == rd.len
  {
    if |rd.targets| <= 1 {
      return rd;
    }
    var newTargets, sum := KeepValid(rd.targets, rd.sumRefLengths, taxaIDs, valTaxaIDs, references);
    rd' := rd.(targets := newTargets, sumRefLengths := sum);
  }

  /** The loop of update: the kept targets in order, and the sum less the dropped references' lengths, wrapped. */
  method KeepValid(ts: seq<Target>, sum0: u32, taxaIDs: seq<nat>, valTaxaIDs: set<nat>, references: seq<RefContig>)
    returns (newTargets: seq<Target>, sum: u32)
    requires RefsWithin(ts, |taxaIDs|) && RefsWithin(ts, |references|)
    ensures newTargets == Kept(ts, taxaIDs, valTaxaIDs)
    ensures sum == Wrap32(sum0 - DroppedLength(ts, taxaIDs, valTaxaIDs, references))
  {
    sum := sum0;
    newTargets := [];
    for i := 0 to |ts|
      invariant newTargets == Kept(ts[..i], taxaIDs, valTaxaIDs)
      invariant sum == Wrap32(sum0 - DroppedLength(ts[..i], taxaIDs, valTaxaIDs, references))
    {
      UpdateStep(ts, taxaIDs, valTaxaIDs, references, i);
      ghost var dropped := DroppedLength(ts[..i], taxaIDs, valTaxaIDs, references);
      if taxaIDs[ts[i].rID] in valTaxaIDs {
        newTargets := newTargets + [ts[i]];
      } else {
        sum := SubtractLength(sum, sum0, dropped, references[ts[i].rID].length);
      }
    }
    assert ts[..|ts|] == ts;
  }
}
