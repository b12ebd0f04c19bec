/**
 * What the counting pass after alignment reading (src/slimm.h:829-894) and
 * the two passes of filterAlignments (src/slimm.h:951-1004) do to the
 * references, stated on values: a read's hits go into the read counts and
 * histograms of the references it hit, and the validation pass compares each
 * reference's unique coverage with a quantile cutoff (src/slimm.h:666-697).
 */
module Counting {
  import opened CoverageTracker
  import opened Reference
  import opened ReadTargets
  import opened Quantile
  import opened Taxonomy

  // ------------------------------------------------------------ well-formed

  /** Every hit position of a target lies inside the bins of its reference. */
  ghost predicate PositionsFit(ps: seq<nat>, r: RefContig)
  {
    forall j :: 0 <= j < |ps| ==> ps[j] < |r.cov|
  }

  /** Every target of a read names a reference and hits only its bins. */
  ghost predicate TargetsFit(ts: seq<Target>, refs: seq<RefContig>)
  {
    forall i :: 0 <= i < |ts| ==> ts[i].rID < |refs| && PositionsFit(ts[i].positions, refs[ts[i].rID])
  }

  ghost predicate AllFit(tss: seq<seq<Target>>, refs: seq<RefContig>)
  {
    forall k :: 0 <= k < |tss| ==> TargetsFit(tss[k], refs)
  }

  /** What the counting passes never change about a reference: its length, its taxon and its bins. */
  function Shape(r: RefContig): (nat, nat, nat, nat, nat)
  {
    (r.length, r.taxaID, |r.cov|, |r.uniqCov|, |r.uniqCov2|)
  }

  ghost predicate SameShape(a: seq<RefContig>, b: seq<RefContig>)
  {
    |a| == |b| && forall i :: 0 <= i < |a| ==> Shape(a[i]) == Shape(b[i])
  }

  /** The three histograms of each reference have the same number of bins. */
  ghost predicate EqualBins(refs: seq<RefContig>)
  {
    forall i :: 0 <= i < |refs| ==> |refs[i].uniqCov| == |refs[i].cov| && |refs[i].uniqCov2| == |refs[i].cov|
  }

  lemma FitAcrossShape(ts: seq<Target>, a: seq<RefContig>, b: seq<RefContig>)
    requires TargetsFit(ts, a) && SameShape(a, b)
    ensures TargetsFit(ts, b)
  {
    forall i | 0 <= i < |ts|
      ensures ts[i].rID < |b| && PositionsFit(ts[i].positions, b[ts[i].rID])
    {
      assert Shape(a[ts[i].rID]) == Shape(b[ts[i].rID]);
    }
  }
  lemma AllFitSnoc(tss: seq<seq<Target>>, refs: seq<RefContig>, i: nat)
    requires i < |tss| && AllFit(tss[..i], refs) && TargetsFit(tss[i], refs)
    ensures AllFit(tss[..i + 1], refs)
  {
    assert tss[..i + 1] == tss[..i] + [tss[i]];
  }

  lemma AllFitAcrossShape(tss: seq<seq<Target>>, a: seq<RefContig>, b: seq<RefContig>)
    requires AllFit(tss, a) && SameShape(a, b)
    ensures AllFit(tss, b)
  {
    forall k | 0 <= k < |tss|
      ensures TargetsFit(tss[k], b)
    {
      FitAcrossShape(tss[k], a, b);
    }
  }


  // --------------------------------------------------------- counting pass

  /**
   * One read's hits on reference `r`: the read count grows by the number of
   * positions and each position's bin by one; a unique read also counts in
   * the unique count and the unique histogram.
   */
  function HitRef(r: RefContig, ps: seq<nat>, unique: bool): (r': RefContig)
    requires PositionsFit(ps, r) && |r.uniqCov| == |r.cov|
    ensures Shape(r') == Shape(r)
    ensures r.Consistent() ==> r'.Consistent()
  {
    AddHitsSum(r.cov, ps);
    AddHitsSum(r.uniqCov, ps);
    r.(noOfReads := r.noOfReads + |ps|,
       noOfUniqReads := if unique then r.noOfUniqReads + |ps| else r.noOfUniqReads,
       cov := AddHits(r.cov, ps),
       uniqCov := if unique then AddHits(r.uniqCov, ps) else r.uniqCov)
  }

  /** A read that is not unique: every target's positions go to its reference. */
  function HitTargets(refs: seq<RefContig>, ts: seq<Target>): (r: seq<RefContig>)
    requires TargetsFit(ts, refs) && EqualBins(refs)
    ensures SameShape(refs, r) && EqualBins(r)
  {
    if ts == [] then refs
    else
      var before := HitTargets(refs, ts[..|ts| - 1]);
      var t := ts[|ts| - 1];
      FitAcrossShape(ts, refs, before);
      before[t.rID := HitRef(before[t.rID], t.positions, false)]
  }

  /** Unique among all matched taxa: isUniq(matchedTaxa, set of matchedTaxa). */
  predicate CountsAsUnique(ts: seq<Target>, taxa: seq<nat>)
    requires RefsWithin(ts, |taxa|)
  {
    UniqAmong(ts, taxa, Elems(taxa))
  }

  /** The counting pass on one read: a unique read counts its first target only, as unique; any other read counts every target. */
  function CountRead(refs: seq<RefContig>, ts: seq<Target>, taxa: seq<nat>): (r: seq<RefContig>)
    requires |taxa| == |refs| && TargetsFit(ts, refs) && EqualBins(refs)
    ensures SameShape(refs, r) && EqualBins(r)
  {
    if CountsAsUnique(ts, taxa) then
      var t := ts[0];
      refs[t.rID := HitRef(refs[t.rID], t.positions, true)]
    else HitTargets(refs, ts)
  }

  /** The counting pass over the reads in iteration order. */
  function CountReads(refs: seq<RefContig>, tss: seq<seq<Target>>, taxa: seq<nat>): (r: seq<RefContig>)
    requires |taxa| == |refs| && AllFit(tss, refs) && EqualBins(refs)
    ensures SameShape(refs, r) && EqualBins(r)
  {
    if tss == [] then refs
    else
      var before := CountReads(refs, tss[..|tss| - 1], taxa);
      FitAcrossShape(tss[|tss| - 1], refs, before);
      CountRead(before, tss[|tss| - 1], taxa)
  }

  /** How many reads count as unique (noOfUniqlyMatched). */
  function UniqReadCount(tss: seq<seq<Target>>, taxa: seq<nat>): nat
    requires forall k :: 0 <= k < |tss| ==> RefsWithin(tss[k], |taxa|)
  {
    if tss == [] then 0
    else UniqReadCount(tss[..|tss| - 1], taxa) + (if CountsAsUnique(tss[|tss| - 1], taxa) then 1 else 0)
  }

  /** The hits the counting pass records for one read: only the first target's for a unique read. */
  function CountedHits(ts: seq<Target>, taxa: seq<nat>): nat
    requires RefsWithin(ts, |taxa|)
  {
    if CountsAsUnique(ts, taxa) then |ts[0].positions| else TotalHits(ts)
  }

  /** The hits of unique reads (uniqHitCount). */
  function UniqHits(tss: seq<seq<Target>>, taxa: seq<nat>): nat
    requires forall k :: 0 <= k < |tss| ==> RefsWithin(tss[k], |taxa|)
  {
    if tss == [] then 0
    else
      var ts := tss[|tss| - 1];
      UniqHits(tss[..|tss| - 1], taxa) + (if CountsAsUnique(ts, taxa) then |ts[0].positions| else 0)
  }

  function AllCountedHits(tss: seq<seq<Target>>, taxa: seq<nat>): nat
    requires forall k :: 0 <= k < |tss| ==> RefsWithin(tss[k], |taxa|)
  {
    if tss == [] then 0 else AllCountedHits(tss[..|tss| - 1], taxa) + CountedHits(tss[|tss| - 1], taxa)
  }

  /** Total length of the references of the targets. */
  function TargetLengths(ts: seq<Target>, refs: seq<RefContig>): nat
    requires RefsWithin(ts, |refs|)
  {
    if ts == [] then 0 else TargetLengths(ts[..|ts| - 1], refs) + refs[ts[|ts| - 1].rID].length
  }

  /**
   * What the counting pass adds to a read's sumRefLengths: a unique read adds
   * the length of the reference of the last alignment record read (the
   * variable `record` outlives the reading loop) and then its own
   * reference's length; any other read adds the length of every target.
   */
  function LengthAdded(ts: seq<Target>, refs: seq<RefContig>, taxa: seq<nat>, lastRecordRID: nat): nat
    requires |taxa| == |refs| && RefsWithin(ts, |refs|) && lastRecordRID < |refs|
  {
    if CountsAsUnique(ts, taxa) then refs[lastRecordRID].length + refs[ts[0].rID].length
    else TargetLengths(ts, refs)
  }

  // ----------------------------------------------------------------- totals

  datatype Counter = AllReads | UniqueReads | UniqueReads2

  function CounterOf(r: RefContig, c: Counter): nat
  {
    match c
    case AllReads => r.noOfReads
    case UniqueReads => r.noOfUniqReads
    case UniqueReads2 => r.noOfUniqReads2
  }

  /** A read counter summed over all references. */
  function TotalCount(refs: seq<RefContig>, c: Counter): nat
  {
    if refs == [] then 0 else TotalCount(refs[..|refs| - 1], c) + CounterOf(refs[|refs| - 1], c)
  }

  lemma {:induction false} TotalCountReplace(refs: seq<RefContig>, i: nat, r: RefContig, c: Counter)
    requires i < |refs|
    ensures TotalCount(refs[i := r], c) + CounterOf(refs[i], c) == TotalCount(refs, c) + CounterOf(r, c)
  {
    var n := |refs| - 1;
    var s := refs[i := r];
    if i < n {
      assert s[..n] == refs[..n][i := r];
      TotalCountReplace(refs[..n], i, r, c);
    } else {
      assert s[..n] == refs[..n];
    }
  }

  lemma HitRefCounters(r: RefContig, ps: seq<nat>, unique: bool)
    requires PositionsFit(ps, r) && |r.uniqCov| == |r.cov|
    ensures CounterOf(HitRef(r, ps, unique), AllReads) == CounterOf(r, AllReads) + |ps|
    ensures CounterOf(HitRef(r, ps, unique), UniqueReads) == CounterOf(r, UniqueReads) + (if unique then |ps| else 0)
    ensures CounterOf(HitRef(r, ps, unique), UniqueReads2) == CounterOf(r, UniqueReads2)
  {
  }

  lemma {:induction false} HitTargetsTotals(refs: seq<RefContig>, ts: seq<Target>)
    requires TargetsFit(ts, refs) && EqualBins(refs)
    ensures TotalCount(HitTargets(refs, ts), AllReads) == TotalCount(refs, AllReads) + TotalHits(ts)
    ensures TotalCount(HitTargets(refs, ts), UniqueReads) == TotalCount(refs, UniqueReads)
    ensures TotalCount(HitTargets(refs, ts), UniqueReads2) == TotalCount(refs, UniqueReads2)
  {
    if ts != [] {
      var p := ts[..|ts| - 1];
      var before := HitTargets(refs, p);
      var t := ts[|ts| - 1];
      HitTargetsTotals(refs, p);
      FitAcrossShape(ts, refs, before);
      var r' := HitRef(before[t.rID], t.positions, false);
      HitRefCounters(before[t.rID], t.positions, false);
      TotalCountReplace(before, t.rID, r', AllReads);
      TotalCountReplace(before, t.rID, r', UniqueReads);
      TotalCountReplace(before, t.rID, r', UniqueReads2);
    }
  }

  /**
   * The counting pass adds to the references' read counts exactly the hits
   * it counts, and to their unique counts exactly the hits of unique reads;
   * the pass-2 counts are untouched.
   */
  lemma {:induction false} CountReadsTotals(refs: seq<RefContig>, tss: seq<seq<Target>>, taxa: seq<nat>)
    requires |taxa| == |refs| && AllFit(tss, refs) && EqualBins(refs)
    ensures forall k :: 0 <= k < |tss| ==> RefsWithin(tss[k], |taxa|)
    ensures TotalCount(CountReads(refs, tss, taxa), AllReads) == TotalCount(refs, AllReads) + AllCountedHits(tss, taxa)
    ensures TotalCount(CountReads(refs, tss, taxa), UniqueReads) == TotalCount(refs, UniqueReads) + UniqHits(tss, taxa)
    ensures TotalCount(CountReads(refs, tss, taxa), UniqueReads2) == TotalCount(refs, UniqueReads2)
  {
    if tss != [] {
      var p := tss[..|tss| - 1];
      var ts := tss[|tss| - 1];
      var before := CountReads(refs, p, taxa);
      CountReadsTotals(refs, p, taxa);
      FitAcrossShape(ts, refs, before);
      if CountsAsUnique(ts, taxa) {
        var t := ts[0];
        var r' := HitRef(before[t.rID], t.positions, true);
        HitRefCounters(before[t.rID], t.positions, true);
        TotalCountReplace(before, t.rID, r', AllReads);
        TotalCountReplace(before, t.rID, r', UniqueReads);
        TotalCountReplace(before, t.rID, r', UniqueReads2);
      } else {
        HitTargetsTotals(before, ts);
      }
    }
  }

  lemma {:induction false} TotalHitsAtLeastFirst(ts: seq<Target>)
    requires |ts| >= 1
    ensures |ts[0].positions| <= TotalHits(ts)
    ensures |ts| == 1 ==> TotalHits(ts) == |ts[0].positions|
  {
    if |ts| > 1 {
      TotalHitsAtLeastFirst(ts[..|ts| - 1]);
    } else {
      assert ts[..0] == [];
    }
  }

  /**
   * A read's hits are all counted unless it is unique through its taxon
   * while hitting two or more references: then only the first target's hits
   * are counted.
   */
  lemma CountedHitsOfRead(ts: seq<Target>, taxa: seq<nat>)
    requires RefsWithin(ts, |taxa|)
    ensures CountedHits(ts, taxa) <= TotalHits(ts)
    ensures !CountsAsUnique(ts, taxa) || |ts| == 1 ==> CountedHits(ts, taxa) == TotalHits(ts)
  {
    if CountsAsUnique(ts, taxa) {
      TotalHitsAtLeastFirst(ts);
    }
  }

  // -------------------------------------------------------------- cutoffs

  /** The unique-coverage percentages of the references that have unique reads, in reference order. */
  function UniqCovs(refs: seq<RefContig>): seq<real>
    requires ConsistentRefs(refs)
  {
    if refs == [] then []
    else
      var r := refs[|refs| - 1];
      UniqCovs(refs[..|refs| - 1]) + (if r.noOfUniqReads > 0 then [r.UniqCovPercent()] else [])
  }

  /** The coverage percentages of the references that have unique reads (covCutoff filters on unique reads too). */
  function CovCovs(refs: seq<RefContig>): seq<real>
    requires ConsistentRefs(refs)
  {
    if refs == [] then []
    else
      var r := refs[|refs| - 1];
      CovCovs(refs[..|refs| - 1]) + (if r.noOfUniqReads > 0 then [r.CovPercent()] else [])
  }

  /** Some reference has unique reads: the quantile over the percentages is defined. */
  predicate HasUniqueReads(refs: seq<RefContig>)
  {
    exists i :: 0 <= i < |refs| && refs[i].noOfUniqReads > 0
  }

  lemma {:induction false} CovsNonEmpty(refs: seq<RefContig>)
    requires ConsistentRefs(refs)
    ensures |UniqCovs(refs)| == |CovCovs(refs)|
    ensures UniqCovs(refs) != [] <==> HasUniqueReads(refs)
  {
    if refs != [] {
      var p, r := refs[..|refs| - 1], refs[|refs| - 1];
      assert ConsistentRefs(p) by {
        forall k | 0 <= k < |p|
          ensures p[k].Consistent()
        {
          assert p[k] == refs[k];
        }
      }
      CovsNonEmpty(p);
      assert |UniqCovs(refs)| == |UniqCovs(p)| + (if r.noOfUniqReads > 0 then 1 else 0);
      assert |CovCovs(refs)| == |CovCovs(p)| + (if r.noOfUniqReads > 0 then 1 else 0);
      if HasUniqueReads(p) {
        var i :| 0 <= i < |p| && p[i].noOfUniqReads > 0;
        assert refs[i] == p[i];
      }
      if HasUniqueReads(refs) && r.noOfUniqReads == 0 {
        var i :| 0 <= i < |refs| && refs[i].noOfUniqReads > 0;
        assert p[i] == refs[i];
      }
    }
  }

  /** covCutoff(): the memo when it is set, the quantile of the coverage percentages otherwise. */
  function CovCutoffValue(covMemo: real, refs: seq<RefContig>, q: real): real
    requires ConsistentRefs(refs) && (covMemo == 0.0 ==> HasUniqueReads(refs))
  {
    if covMemo == 0.0 then
      CovsNonEmpty(refs);
      QuantileCutoff(CovCovs(refs), q)
    else covMemo
  }

  /** uniqCovCutoff() as written: it tests the coverage memo, and returns the unique memo whenever that one is set. */
  function UniqCutoffAsWritten(covMemo: real, uniqMemo: real, refs: seq<RefContig>, q: real): real
    requires ConsistentRefs(refs) && (covMemo == 0.0 ==> HasUniqueReads(refs))
  {
    if covMemo == 0.0 then
      CovsNonEmpty(refs);
      QuantileCutoff(UniqCovs(refs), q)
    else uniqMemo
  }

  /** uniqCovCutoff() guarded by its own memo: the memo when it is set, the quantile of the unique percentages otherwise. */
  function UniqCutoffIntended(uniqMemo: real, refs: seq<RefContig>, q: real): real
    requires ConsistentRefs(refs) && (uniqMemo == 0.0 ==> HasUniqueReads(refs))
  {
    if uniqMemo == 0.0 then
      CovsNonEmpty(refs);
      QuantileCutoff(UniqCovs(refs), q)
    else uniqMemo
  }

  /**
   * The corrected cutoff computed from an empty memo is one of the unique
   * percentages, and storing it and asking again gives the same value.
   */
  lemma UniqCutoffIntendedStable(refs: seq<RefContig>, q: real)
    requires ConsistentRefs(refs) && HasUniqueReads(refs)
    ensures UniqCutoffIntended(0.0, refs, q) in UniqCovs(refs)
    ensures UniqCutoffIntended(UniqCutoffIntended(0.0, refs, q), refs, q) == UniqCutoffIntended(0.0, refs, q)
  {
    CovsNonEmpty(refs);
    QuantileCutoffSpec(UniqCovs(refs), q);
  }

  /**
   * While covCutoff() has not stored a value, the cutoff as written agrees
   * with the corrected one at every call of the validation pass: on the
   * first, with the unique memo unset, and on each later one, with the
   * memo holding what the first call stored; and the value stored is again
   * that cutoff.
   */
  lemma UniqCutoffAgreesBeforeCovCutoff(uniqMemo: real, refs: seq<RefContig>, q: real)
    requires ConsistentRefs(refs) && HasUniqueReads(refs)
    requires uniqMemo == 0.0 || uniqMemo == UniqCutoffIntended(0.0, refs, q)
    ensures UniqCutoffAsWritten(0.0, uniqMemo, refs, q) == UniqCutoffIntended(uniqMemo, refs, q)
    ensures UniqCutoffAsWritten(0.0, uniqMemo, refs, q) == UniqCutoffIntended(0.0, refs, q)
  {
    UniqCutoffIntendedStable(refs, q);
  }

  /** A single reference with one unique hit in the first of two bins. */
  function HalfCoveredRef(): (r: RefContig)
    ensures r.Consistent() && r.noOfUniqReads > 0
  {
    assert Sum([1, 0]) == 1 by {
      assert [1, 0][..1] == [1];
      assert [1][..0] == [];
    }
    assert Sum([0, 0]) == 0 by {
      assert [0, 0][..1] == [0];
      assert [0][..0] == [];
    }
    RefContig(2000, 7, 1, 1, 0, [1, 0], [1, 0], [0, 0])
  }

  /**
   * Once covCutoff() has stored a non-zero value, the cutoff as written
   * returns the unique memo, still 0.0, for a reference whose unique
   * coverage is one half; the corrected cutoff returns one half.
   */
  lemma UniqCutoffStale(refs: seq<RefContig>, q: real)
    requires refs == [HalfCoveredRef()]
    ensures HasUniqueReads(refs)
    ensures UniqCutoffAsWritten(CovCutoffValue(0.0, refs, q), 0.0, refs, q) == 0.0
    ensures UniqCutoffIntended(0.0, refs, q) == 0.5
  {
    var r := refs[0];
    assert refs[0].noOfUniqReads > 0;
    assert [1, 0][..1] == [1] && [1][..0] == [];
    assert CountZeros([1, 0]) == 1;
    assert r.UniqCovPercent() == 0.5;
    assert r.CovPercent() == 0.5;
    assert refs[..0] == [];
    assert UniqCovs(refs) == [0.5];
    assert CovCovs(refs) == [0.5];
    SortAscOfSorted([0.5]);
    assert QuantileCutoff([0.5], q) == 0.5;
  }

  /**
   * The cutoff is needed only when some reference has reads. While the
   * coverage memo is unset, uniqCovCutoff() computes it from the unique
   * percentages, which needs a reference with unique reads (the quantile of
   * no observations starts its walk at index size() - 1 of an empty vector).
   */
  ghost predicate CutoffDefined(covMemo: real, refs: seq<RefContig>)
  {
    covMemo != 0.0 || HasUniqueReads(refs) || forall i :: 0 <= i < |refs| ==> refs[i].noOfReads == 0
  }

  /** Some reference among the first n has reads, so the validation pass has asked for the cutoff. */
  predicate ReadsBefore(refs: seq<RefContig>, n: nat)
    requires n <= |refs|
  {
    exists k :: 0 <= k < n && refs[k].noOfReads > 0
  }

  /** One more reference looked at. */
  lemma ReadsBeforeNext(refs: seq<RefContig>, n: nat)
    requires n < |refs|
    ensures ReadsBefore(refs, n + 1) <==> ReadsBefore(refs, n) || refs[n].noOfReads > 0
  {
  }

  /**
   * The value uniqCovCutoff() as written returns at every call of the
   * validation pass; 0.0 where it is undefined, which happens only when no
   * reference has reads and it is never asked for.
   */
  function FilterCutoff(covMemo: real, uniqMemo: real, refs: seq<RefContig>, q: real): real
    requires ConsistentRefs(refs)
  {
    if covMemo == 0.0 && !HasUniqueReads(refs) then 0.0 else UniqCutoffAsWritten(covMemo, uniqMemo, refs, q)
  }

  /**
   * Asking for the cutoff and storing the answer in the unique memo leaves
   * the answer unchanged: with the coverage memo unset it is recomputed from
   * the same percentages, and with it set the stored answer is returned.
   */
  lemma FilterCutoffStored(covMemo: real, uniqMemo: real, refs: seq<RefContig>, q: real)
    requires ConsistentRefs(refs) && (covMemo == 0.0 ==> HasUniqueReads(refs))
    ensures FilterCutoff(covMemo, UniqCutoffAsWritten(covMemo, uniqMemo, refs, q), refs, q) == FilterCutoff(covMemo, uniqMemo, refs, q)
    ensures covMemo == 0.0 ==> FilterCutoff(covMemo, uniqMemo, refs, q) in UniqCovs(refs)
    ensures covMemo != 0.0 ==> FilterCutoff(covMemo, uniqMemo, refs, q) == uniqMemo
  {
    if covMemo == 0.0 {
      CovsNonEmpty(refs);
      QuantileCutoffSpec(UniqCovs(refs), q);
    }
  }

  // --------------------------------------------------------- validation pass

  /** A reference that has reads and whose unique coverage reaches the cutoff: its taxon becomes valid. */
  predicate Passes(r: RefContig, cutoff: real)
  {
    r.noOfReads > 0 && |r.uniqCov| > 0 && r.UniqCovPercent() >= cutoff
  }

  /** A reference that has reads and whose unique coverage falls below the cutoff: failedByUniqCov counts it. */
  predicate Fails(r: RefContig, cutoff: real)
  {
    r.noOfReads > 0 && |r.uniqCov| > 0 && r.UniqCovPercent() < cutoff
  }

  /** The taxa of the first `n` references that pass. */
  function PassedTaxa(refs: seq<RefContig>, taxa: seq<nat>, cutoff: real, n: nat): set<nat>
    requires n <= |refs| && |taxa| == |refs|
  {
    if n == 0 then {}
    else PassedTaxa(refs, taxa, cutoff, n - 1) + (if Passes(refs[n - 1], cutoff) then {taxa[n - 1]} else {})
  }

  function FailCount(refs: seq<RefContig>, cutoff: real, n: nat): nat
    requires n <= |refs|
  {
    if n == 0 then 0 else FailCount(refs, cutoff, n - 1) + (if Fails(refs[n - 1], cutoff) then 1 else 0)
  }

  function PassCount(refs: seq<RefContig>, cutoff: real, n: nat): nat
    requires n <= |refs|
  {
    if n == 0 then 0 else PassCount(refs, cutoff, n - 1) + (if Passes(refs[n - 1], cutoff) then 1 else 0)
  }

  function WithReads(refs: seq<RefContig>, n: nat): nat
    requires n <= |refs|
  {
    if n == 0 then 0 else WithReads(refs, n - 1) + (if refs[n - 1].noOfReads > 0 then 1 else 0)
  }

  /** A taxon is valid exactly when some reference of that taxon has reads and passes. */
  lemma {:induction false} PassedTaxaMembers(refs: seq<RefContig>, taxa: seq<nat>, cutoff: real, n: nat, x: nat)
    requires n <= |refs| && |taxa| == |refs|
    ensures x in PassedTaxa(refs, taxa, cutoff, n) <==> exists i :: 0 <= i < n && taxa[i] == x && Passes(refs[i], cutoff)
  {
    if n > 0 {
      PassedTaxaMembers(refs, taxa, cutoff, n - 1, x);
      if taxa[n - 1] == x && Passes(refs[n - 1], cutoff) {
        assert x in PassedTaxa(refs, taxa, cutoff, n);
      } else if exists i :: 0 <= i < n && taxa[i] == x && Passes(refs[i], cutoff) {
        var i :| 0 <= i < n && taxa[i] == x && Passes(refs[i], cutoff);
        assert i < n - 1;
      }
    }
  }

  /**
   * On consistent references every reference with reads either passes or
   * fails, never both: the validated and the failed references together are
   * exactly those with reads.
   */
  lemma {:induction false} PassOrFail(refs: seq<RefContig>, cutoff: real, n: nat)
    requires n <= |refs| && ConsistentRefs(refs)
    ensures PassCount(refs, cutoff, n) + FailCount(refs, cutoff, n) == WithReads(refs, n)
  {
    if n > 0 {
      PassOrFail(refs, cutoff, n - 1);
      var r := refs[n - 1];
      assert r.Consistent();
      if r.noOfReads > 0 {
        assert |r.cov| > 0;
      }
    }
  }

  // ------------------------------------------------------------- recount pass

  /** One read's hits, counted again as unique after filtering, into the pass-2 count and histogram. */
  function HitRef2(r: RefContig, ps: seq<nat>): (r': RefContig)
    requires PositionsFit(ps, r) && |r.uniqCov2| == |r.cov|
    ensures Shape(r') == Shape(r)
    ensures r.Consistent() ==> r'.Consistent()
    ensures CounterOf(r', UniqueReads2) == CounterOf(r, UniqueReads2) + |ps|
    ensures CounterOf(r', AllReads) == CounterOf(r, AllReads) && CounterOf(r', UniqueReads) == CounterOf(r, UniqueReads)
  {
    AddHitsSum(r.uniqCov2, ps);
    r.(noOfUniqReads2 := r.noOfUniqReads2 + |ps|, uniqCov2 := AddHits(r.uniqCov2, ps))
  }

  /** The second pass on one read whose targets have already been updated: a unique read counts its first target. */
  function Recount(refs: seq<RefContig>, ts: seq<Target>, taxa: seq<nat>, val: set<nat>): (r: seq<RefContig>)
    requires |taxa| == |refs| && TargetsFit(ts, refs) && EqualBins(refs)
    ensures SameShape(refs, r) && EqualBins(r)
  {
    if UniqAmong(ts, taxa, val) then
      var t := ts[0];
      refs[t.rID := HitRef2(refs[t.rID], t.positions)]
    else refs
  }

  function RecountAll(refs: seq<RefContig>, tss: seq<seq<Target>>, taxa: seq<nat>, val: set<nat>): (r: seq<RefContig>)
    requires |taxa| == |refs| && AllFit(tss, refs) && EqualBins(refs)
    ensures SameShape(refs, r) && EqualBins(r)
  {
    if tss == [] then refs
    else
      var before := RecountAll(refs, tss[..|tss| - 1], taxa, val);
      FitAcrossShape(tss[|tss| - 1], refs, before);
      Recount(before, tss[|tss| - 1], taxa, val)
  }

  /** The hits the second pass counts (noOfUniqlyMatched2). */
  function UniqHits2(tss: seq<seq<Target>>, taxa: seq<nat>, val: set<nat>): nat
    requires forall k :: 0 <= k < |tss| ==> RefsWithin(tss[k], |taxa|)
  {
    if tss == [] then 0
    else
      var ts := tss[|tss| - 1];
      UniqHits2(tss[..|tss| - 1], taxa, val) + (if UniqAmong(ts, taxa, val) then |ts[0].positions| else 0)
  }

  /** One more read of the second pass: its count step and its hits step. */
  lemma {:induction false} RecountAllStep(refs: seq<RefContig>, uss: seq<seq<Target>>, taxa: seq<nat>, val: set<nat>, i: nat)
    requires |taxa| == |refs| && EqualBins(refs) && i < |uss| && AllFit(uss[..i], refs) && TargetsFit(uss[i], refs)
    ensures AllFit(uss[..i + 1], refs)
    ensures TargetsFit(uss[i], RecountAll(refs, uss[..i], taxa, val))
    ensures RecountAll(refs, uss[..i + 1], taxa, val) == Recount(RecountAll(refs, uss[..i], taxa, val), uss[i], taxa, val)
    ensures UniqHits2(uss[..i + 1], taxa, val) == UniqHits2(uss[..i], taxa, val) + (if UniqAmong(uss[i], taxa, val) then |uss[i][0].positions| else 0)
  {
    AllFitSnoc(uss, refs, i);
    assert uss[..i + 1][..i] == uss[..i];
    FitAcrossShape(uss[i], refs, RecountAll(refs, uss[..i], taxa, val));
  }

  /** The second pass adds exactly its counted hits to the pass-2 counts and leaves the other counts alone. */
  lemma {:induction false} RecountAllTotals(refs: seq<RefContig>, tss: seq<seq<Target>>, taxa: seq<nat>, val: set<nat>)
    requires |taxa| == |refs| && AllFit(tss, refs) && EqualBins(refs)
    ensures forall k :: 0 <= k < |tss| ==> RefsWithin(tss[k], |taxa|)
    ensures TotalCount(RecountAll(refs, tss, taxa, val), UniqueReads2) == TotalCount(refs, UniqueReads2) + UniqHits2(tss, taxa, val)
    ensures TotalCount(RecountAll(refs, tss, taxa, val), AllReads) == TotalCount(refs, AllReads)
    ensures TotalCount(RecountAll(refs, tss, taxa, val), UniqueReads) == TotalCount(refs, UniqueReads)
  {
    if tss != [] {
      var p := tss[..|tss| - 1];
      var ts := tss[|tss| - 1];
      var before := RecountAll(refs, p, taxa, val);
      RecountAllTotals(refs, p, taxa, val);
      FitAcrossShape(ts, refs, before);
      if UniqAmong(ts, taxa, val) {
        var t := ts[0];
        var r' := HitRef2(before[t.rID], t.positions);
        TotalCountReplace(before, t.rID, r', AllReads);
        TotalCountReplace(before, t.rID, r', UniqueReads);
        TotalCountReplace(before, t.rID, r', UniqueReads2);
      }
    }
  }

  /** Updating a read keeps its targets fitting the references. */
  lemma AfterUpdateFits(ts: seq<Target>, taxa: seq<nat>, val: set<nat>, refs: seq<RefContig>)
    requires TargetsFit(ts, refs) && |taxa| == |refs|
    ensures RefsWithin(ts, |taxa|)
    ensures TargetsFit(AfterUpdate(ts, taxa, val), refs)
  {
    if |ts| > 1 {
      var k := Kept(ts, taxa, val);
      forall i | 0 <= i < |k|
        ensures k[i].rID < |refs| && PositionsFit(k[i].positions, refs[k[i].rID])
      {
        KeptMembers(ts, taxa, val, k[i]);
      }
    }
  }

  /** Every read's targets after update(). */
  function UpdatedAll(tss: seq<seq<Target>>, taxa: seq<nat>, val: set<nat>): (r: seq<seq<Target>>)
    requires forall k :: 0 <= k < |tss| ==> RefsWithin(tss[k], |taxa|)
    ensures |r| == |tss|
  {
    if tss == [] then [] else UpdatedAll(tss[..|tss| - 1], taxa, val) + [AfterUpdate(tss[|tss| - 1], taxa, val)]
  }

  /** Place `k` of the updated targets is the update of read `k`'s targets. */
  lemma {:induction false} UpdatedAllAt(tss: seq<seq<Target>>, taxa: seq<nat>, val: set<nat>, k: nat)
    requires forall j :: 0 <= j < |tss| ==> RefsWithin(tss[j], |taxa|)
    requires k < |tss|
    ensures UpdatedAll(tss, taxa, val)[k] == AfterUpdate(tss[k], taxa, val)
    decreases |tss|
  {
    if k < |tss| - 1 {
      UpdatedAllAt(tss[..|tss| - 1], taxa, val, k);
    }
  }

  /** The lengths a read adds or drops depend only on the references' lengths. */
  lemma {:induction false} LengthsAcrossShape(ts: seq<Target>, taxa: seq<nat>, val: set<nat>, a: seq<RefContig>, b: seq<RefContig>)
    requires RefsWithin(ts, |taxa|) && RefsWithin(ts, |a|) && SameShape(a, b)
    ensures RefsWithin(ts, |b|)
    ensures TargetLengths(ts, a) == TargetLengths(ts, b)
    ensures DroppedLength(ts, taxa, val, a) == DroppedLength(ts, taxa, val, b)
  {
    if ts != [] {
      LengthsAcrossShape(ts[..|ts| - 1], taxa, val, a, b);
      assert Shape(a[ts[|ts| - 1].rID]) == Shape(b[ts[|ts| - 1].rID]);
    }
  }

  /** The read that update leaves depends only on the references' lengths. */
  lemma UpdatedReadAcrossShape(rd: Read, taxa: seq<nat>, val: set<nat>, a: seq<RefContig>, b: seq<RefContig>)
    requires RefsWithin(rd.targets, |taxa|) && RefsWithin(rd.targets, |a|) && SameShape(a, b)
    ensures RefsWithin(rd.targets, |b|)
    ensures UpdatedRead(rd, taxa, val, a) == UpdatedRead(rd, taxa, val, b)
  {
    LengthsAcrossShape(rd.targets, taxa, val, a, b);
  }

  /** What the counting pass adds to a read's sumRefLengths depends only on the references' lengths. */
  lemma LengthAddedAcrossShape(ts: seq<Target>, taxa: seq<nat>, lastRecordRID: nat, a: seq<RefContig>, b: seq<RefContig>)
    requires |taxa| == |a| && RefsWithin(ts, |a|) && lastRecordRID < |a| && SameShape(a, b)
    ensures RefsWithin(ts, |b|)
    ensures LengthAdded(ts, a, taxa, lastRecordRID) == LengthAdded(ts, b, taxa, lastRecordRID)
  {
    if CountsAsUnique(ts, taxa) {
      assert Shape(a[ts[0].rID]) == Shape(b[ts[0].rID]);
      assert Shape(a[lastRecordRID]) == Shape(b[lastRecordRID]);
    } else {
      LengthsAcrossShape(ts, taxa, {}, a, b);
    }
  }

  /** A read's sumRefLengths after the counting pass, as the uint32 the source keeps. */
  function CountedSum(s: nat, ts: seq<Target>, refs: seq<RefContig>, taxa: seq<nat>, lastRecordRID: nat): u32
    requires |taxa| == |refs| && RefsWithin(ts, |refs|) && lastRecordRID < |refs|
  {
    Wrap32(s + LengthAdded(ts, refs, taxa, lastRecordRID))
  }

  lemma CountedSumAcrossShape(s: nat, ts: seq<Target>, taxa: seq<nat>, lastRecordRID: nat, a: seq<RefContig>, b: seq<RefContig>)
    requires |taxa| == |a| && RefsWithin(ts, |a|) && lastRecordRID < |a| && SameShape(a, b)
    ensures RefsWithin(ts, |b|)
    ensures CountedSum(s, ts, a, taxa, lastRecordRID) == CountedSum(s, ts, b, taxa, lastRecordRID)
  {
    LengthAddedAcrossShape(ts, taxa, lastRecordRID, a, b);
  }

  lemma CountedSumCases(s: nat, ts: seq<Target>, refs: seq<RefContig>, taxa: seq<nat>, lastRecordRID: nat)
    requires |taxa| == |refs| && RefsWithin(ts, |refs|) && lastRecordRID < |refs|
    ensures CountsAsUnique(ts, taxa) ==> CountedSum(s, ts, refs, taxa, lastRecordRID) == Wrap32(s + (refs[lastRecordRID].length + refs[ts[0].rID].length))
    ensures !CountsAsUnique(ts, taxa) ==> CountedSum(s, ts, refs, taxa, lastRecordRID) == Wrap32(s + TargetLengths(ts, refs))
  {
  }

  // ------------------------------------------------------- consistency

  /** Hitting the targets of a read keeps every reference's counts equal to its histograms' sums. */
  lemma {:induction false} HitTargetsConsistent(refs: seq<RefContig>, ts: seq<Target>)
    requires TargetsFit(ts, refs) && EqualBins(refs) && ConsistentRefs(refs)
    ensures ConsistentRefs(HitTargets(refs, ts))
  {
    if ts != [] {
      var p := ts[..|ts| - 1];
      HitTargetsConsistent(refs, p);
    }
  }

  /** The counting pass keeps every reference consistent. */
  lemma {:induction false} CountReadsConsistent(refs: seq<RefContig>, tss: seq<seq<Target>>, taxa: seq<nat>)
    requires |taxa| == |refs| && AllFit(tss, refs) && EqualBins(refs) && ConsistentRefs(refs)
    ensures ConsistentRefs(CountReads(refs, tss, taxa))
  {
    if tss != [] {
      var p := tss[..|tss| - 1];
      var ts := tss[|tss| - 1];
      CountReadsConsistent(refs, p, taxa);
      var before := CountReads(refs, p, taxa);
      FitAcrossShape(ts, refs, before);
      if !CountsAsUnique(ts, taxa) {
        HitTargetsConsistent(before, ts);
      }
    }
  }

  /** The second pass keeps every reference consistent. */
  lemma {:induction false} RecountAllConsistent(refs: seq<RefContig>, tss: seq<seq<Target>>, taxa: seq<nat>, val: set<nat>)
    requires |taxa| == |refs| && AllFit(tss, refs) && EqualBins(refs) && ConsistentRefs(refs)
    ensures ConsistentRefs(RecountAll(refs, tss, taxa, val))
  {
    if tss != [] {
      var p := tss[..|tss| - 1];
      RecountAllConsistent(refs, p, taxa, val);
      FitAcrossShape(tss[|tss| - 1], refs, RecountAll(refs, p, taxa, val));
    }
  }

  // ------------------------------------------------- steps of the counting loops

  /** The counting pass, noOfUniqlyMatched and uniqHitCount after one more read. */
  lemma {:induction false} CountReadsStep(refs: seq<RefContig>, tss: seq<seq<Target>>, taxa: seq<nat>, i: nat)
    requires |taxa| == |refs| && AllFit(tss, refs) && EqualBins(refs) && i < |tss|
    ensures AllFit(tss[..i], refs) && AllFit(tss[..i + 1], refs) && RefsWithin(tss[i], |taxa|)
    ensures TargetsFit(tss[i], CountReads(refs, tss[..i], taxa))
    ensures CountReads(refs, tss[..i + 1], taxa) == CountRead(CountReads(refs, tss[..i], taxa), tss[i], taxa)
    ensures UniqReadCount(tss[..i + 1], taxa) == UniqReadCount(tss[..i], taxa) + (if CountsAsUnique(tss[i], taxa) then 1 else 0)
    ensures UniqHits(tss[..i + 1], taxa) == UniqHits(tss[..i], taxa) + (if CountsAsUnique(tss[i], taxa) then |tss[i][0].positions| else 0)
  {
    assert tss[..i + 1][..i] == tss[..i];
    FitAcrossShape(tss[i], refs, CountReads(refs, tss[..i], taxa));
  }

  /** HitRef spelled out field by field. */
  lemma HitRefFields(r: RefContig, ps: seq<nat>, unique: bool)
    requires PositionsFit(ps, r) && |r.uniqCov| == |r.cov|
    ensures HitRef(r, ps, unique) ==
              r.(noOfReads := r.noOfReads + |ps|,
                 noOfUniqReads := if unique then r.noOfUniqReads + |ps| else r.noOfUniqReads,
                 cov := AddHits(r.cov, ps),
                 uniqCov := if unique then AddHits(r.uniqCov, ps) else r.uniqCov)
  {
  }

  /** HitRef2 spelled out field by field. */
  lemma HitRef2Fields(r: RefContig, ps: seq<nat>)
    requires PositionsFit(ps, r) && |r.uniqCov2| == |r.cov|
    ensures HitRef2(r, ps) == r.(noOfUniqReads2 := r.noOfUniqReads2 + |ps|, uniqCov2 := AddHits(r.uniqCov2, ps))
  {
  }

  /**
   * Each bin of the raw histogram gains one hit per position in it; the
   * unique histogram gains the same only for a unique read, and the
   * filtered histogram and its count are untouched.
   */
  lemma HitRefBins(r: RefContig, ps: seq<nat>, unique: bool, b: nat)
    requires PositionsFit(ps, r) && |r.uniqCov| == |r.cov| && b < |r.cov|
    ensures HitRef(r, ps, unique).cov[b] == r.cov[b] + multiset(ps)[b]
    ensures HitRef(r, ps, unique).uniqCov[b] == r.uniqCov[b] + (if unique then multiset(ps)[b] else 0)
    ensures HitRef(r, ps, unique).uniqCov2 == r.uniqCov2 && HitRef(r, ps, unique).noOfUniqReads2 == r.noOfUniqReads2
  {
    AddHitsAt(r.cov, ps, b);
    AddHitsAt(r.uniqCov, ps, b);
  }

  /** Each bin of the filtered histogram gains one hit per position in it; the other histograms are untouched. */
  lemma HitRef2Bins(r: RefContig, ps: seq<nat>, b: nat)
    requires PositionsFit(ps, r) && |r.uniqCov2| == |r.cov| && b < |r.cov|
    ensures HitRef2(r, ps).uniqCov2[b] == r.uniqCov2[b] + multiset(ps)[b]
    ensures HitRef2(r, ps).cov == r.cov && HitRef2(r, ps).uniqCov == r.uniqCov
  {
    AddHitsAt(r.uniqCov2, ps, b);
  }

  /** The targets of a read one at a time, as the loop over them counts them. */
  lemma HitTargetsStep(refs: seq<RefContig>, ts: seq<Target>, i: nat)
    requires TargetsFit(ts, refs) && EqualBins(refs) && i < |ts|
    ensures TargetsFit(ts[..i], refs) && TargetsFit(ts[..i + 1], refs)
    ensures var b := HitTargets(refs, ts[..i]);
            && ts[i].rID < |b| && PositionsFit(ts[i].positions, b[ts[i].rID]) && |b[ts[i].rID].uniqCov| == |b[ts[i].rID].cov|
            && HitTargets(refs, ts[..i + 1]) == b[ts[i].rID := HitRef(b[ts[i].rID], ts[i].positions, false)]
  {
    var q := ts[..i + 1];
    assert q[..|q| - 1] == ts[..i];
    FitAcrossShape(ts[..i + 1], refs, HitTargets(refs, ts[..i]));
  }

  lemma TargetLengthsStep(ts: seq<Target>, refs: seq<RefContig>, i: nat)
    requires RefsWithin(ts, |refs|) && i < |ts|
    ensures RefsWithin(ts[..i], |refs|) && RefsWithin(ts[..i + 1], |refs|)
    ensures TargetLengths(ts[..i + 1], refs) == TargetLengths(ts[..i], refs) + refs[ts[i].rID].length
  {
    var q := ts[..i + 1];
    assert q[..|q| - 1] == ts[..i];
  }
}
