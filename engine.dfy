/**
 * The classification engine (class Slimm, src/slimm.h:266-305, and the
 * passes analyzeAlignments, filterAlignments and getReadLCACount that work
 * on it): the references with their counts and histograms, the reads with
 * their targets, the valid taxa, and the per-taxon read counts and
 * contributing references. Each pass is a method proved against the
 * value-level passes of modules Counting and Propagation.
 */
module Engine {
  import opened Wrappers
  import opened CoverageTracker
  import opened Reference
  import opened ReadTargets
  import opened Quantile
  import opened Taxonomy
  import opened Counting
  import opened Propagation

  /** The targets of each read, in iteration order. */
  function TargetsOf(rs: seq<Read>): (r: seq<seq<Target>>)
    ensures |r| == |rs|
    ensures forall k :: 0 <= k < |rs| ==> r[k] == rs[k].targets
  {
    seq(|rs|, k requires 0 <= k < |rs| => rs[k].targets)
  }

  /** Every read's targets name references below `n`. */
  ghost predicate ReadsWithin(rs: seq<Read>, n: nat)
  {
    forall k :: 0 <= k < |rs| ==> RefsWithin(rs[k].targets, n)
  }

  /** A read after the counting pass: its sumRefLengths grown by what its targets add. */
  function Counted(rd: Read, refs: seq<RefContig>, taxa: seq<nat>, lastRecordRID: nat): Read
    requires |taxa| == |refs| && lastRecordRID < |refs| && RefsWithin(rd.targets, |refs|)
  {
    rd.(sumRefLengths := CountedSum(rd.sumRefLengths, rd.targets, refs, taxa, lastRecordRID))
  }

  /** The reads with the first `n` counted and the rest as they were. */
  function CountedFirst(rs: seq<Read>, n: nat, refs: seq<RefContig>, taxa: seq<nat>, lastRecordRID: nat): (r: seq<Read>)
    requires n <= |rs| && |taxa| == |refs| && lastRecordRID < |refs| && ReadsWithin(rs, |refs|)
    ensures |r| == |rs|
  {
    if n == 0 then rs
    else CountedFirst(rs, n - 1, refs, taxa, lastRecordRID)[n - 1 := Counted(rs[n - 1], refs, taxa, lastRecordRID)]
  }

  /** The reads after the counting pass. */
  function CountedReads(rs: seq<Read>, refs: seq<RefContig>, taxa: seq<nat>, lastRecordRID: nat): (r: seq<Read>)
    requires |taxa| == |refs| && lastRecordRID < |refs| && ReadsWithin(rs, |refs|)
    ensures |r| == |rs|
  {
    CountedFirst(rs, |rs|, refs, taxa, lastRecordRID)
  }

  /** The reads with the first `n` updated and the rest as they were. */
  function UpdatedFirst(rs: seq<Read>, n: nat, taxa: seq<nat>, val: set<nat>, refs: seq<RefContig>): (r: seq<Read>)
    requires n <= |rs| && ReadsWithin(rs, |taxa|) && ReadsWithin(rs, |refs|)
    ensures |r| == |rs|
  {
    if n == 0 then rs
    else UpdatedFirst(rs, n - 1, taxa, val, refs)[n - 1 := UpdatedRead(rs[n - 1], taxa, val, refs)]
  }

  /** The reads after the second loop of filterAlignments. */
  function UpdatedReads(rs: seq<Read>, taxa: seq<nat>, val: set<nat>, refs: seq<RefContig>): (r: seq<Read>)
    requires ReadsWithin(rs, |taxa|) && ReadsWithin(rs, |refs|)
    ensures |r| == |rs|
  {
    UpdatedFirst(rs, |rs|, taxa, val, refs)
  }

  lemma {:induction false} CountedFirstAt(rs: seq<Read>, n: nat, refs: seq<RefContig>, taxa: seq<nat>, lastRecordRID: nat, k: nat)
    requires n <= |rs| && |taxa| == |refs| && lastRecordRID < |refs| && ReadsWithin(rs, |refs|) && k < |rs|
    ensures CountedFirst(rs, n, refs, taxa, lastRecordRID)[k] == if k < n then Counted(rs[k], refs, taxa, lastRecordRID) else rs[k]
  {
    if n > 0 {
      CountedFirstAt(rs, n - 1, refs, taxa, lastRecordRID, k);
    }
  }

  /** The counting pass changes read `k` only in its sumRefLengths, which gains what the read's targets add. */
  lemma CountedReadsAt(rs: seq<Read>, refs: seq<RefContig>, taxa: seq<nat>, lastRecordRID: nat, k: nat)
    requires |taxa| == |refs| && lastRecordRID < |refs| && ReadsWithin(rs, |refs|) && k < |rs|
    ensures CountedReads(rs, refs, taxa, lastRecordRID)[k] ==
              rs[k].(sumRefLengths := CountedSum(rs[k].sumRefLengths, rs[k].targets, refs, taxa, lastRecordRID))
  {
    CountedFirstAt(rs, |rs|, refs, taxa, lastRecordRID, k);
  }

  /** The counting pass keeps every read's targets. */
  lemma CountedReadsTargets(rs: seq<Read>, refs: seq<RefContig>, taxa: seq<nat>, lastRecordRID: nat)
    requires |taxa| == |refs| && lastRecordRID < |refs| && ReadsWithin(rs, |refs|)
    ensures TargetsOf(CountedReads(rs, refs, taxa, lastRecordRID)) == TargetsOf(rs)
  {
    var cs := CountedReads(rs, refs, taxa, lastRecordRID);
    forall k | 0 <= k < |rs|
      ensures TargetsOf(cs)[k] == TargetsOf(rs)[k]
    {
      CountedFirstAt(rs, |rs|, refs, taxa, lastRecordRID, k);
    }
  }

  lemma {:induction false} UpdatedFirstAt(rs: seq<Read>, n: nat, taxa: seq<nat>, val: set<nat>, refs: seq<RefContig>, k: nat)
    requires n <= |rs| && ReadsWithin(rs, |taxa|) && ReadsWithin(rs, |refs|) && k < |rs|
    ensures UpdatedFirst(rs, n, taxa, val, refs)[k] == if k < n then UpdatedRead(rs[k], taxa, val, refs) else rs[k]
  {
    if n > 0 {
      UpdatedFirstAt(rs, n - 1, taxa, val, refs, k);
    }
  }

  /** The second loop of filterAlignments leaves in place `k` the update of read `k`. */
  lemma UpdatedReadsAt(rs: seq<Read>, taxa: seq<nat>, val: set<nat>, refs: seq<RefContig>, k: nat)
    requires ReadsWithin(rs, |taxa|) && ReadsWithin(rs, |refs|) && k < |rs|
    ensures UpdatedReads(rs, taxa, val, refs)[k] == UpdatedRead(rs[k], taxa, val, refs)
  {
    UpdatedFirstAt(rs, |rs|, taxa, val, refs, k);
  }

  /** The targets of the updated reads are the updated targets. */
  lemma UpdatedReadsTargets(rs: seq<Read>, taxa: seq<nat>, val: set<nat>, refs: seq<RefContig>)
    requires ReadsWithin(rs, |taxa|) && ReadsWithin(rs, |refs|)
    ensures TargetsOf(UpdatedReads(rs, taxa, val, refs)) == UpdatedAll(TargetsOf(rs), taxa, val)
  {
    var us := UpdatedReads(rs, taxa, val, refs);
    forall k | 0 <= k < |rs|
      ensures TargetsOf(us)[k] == UpdatedAll(TargetsOf(rs), taxa, val)[k]
    {
      UpdatedFirstAt(rs, |rs|, taxa, val, refs, k);
      UpdatedAllAt(TargetsOf(rs), taxa, val, k);
    }
  }

  class Slimm {
    var references: seq<RefContig>
    /** The taxon of each reference, by reference index. */
    var matchedTaxa: seq<nat>
    var validRefTaxonIDs: set<nat>
    /** The values of the read-name map, in its iteration order. */
    var readList: seq<Read>
    var uniqHitCount: nat
    var noOfMatched: nat
    var noOfUniqlyMatched: nat
    var noOfUniqlyMatched2: nat
    var failedByUniqCov: nat
    /** The memos behind covCutoff() and uniqCovCutoff(); 0.0 means not yet computed. */
    var covCutoffMemo: real
    var uniqCovCutoffMemo: real
    /** The quantile option (options.covCutOff). */
    var quantile: real
    var taxaID2ReadCount: map<nat, nat>
    var taxaID2Children: map<nat, set<nat>>

    /** One taxon per reference, consistent counts and histograms, and every read's targets inside the references' bins. */
    ghost predicate Valid()
      reads this
    {
      && |matchedTaxa| == |references|
      && ConsistentRefs(references)
      && AllFit(TargetsOf(readList), references)
    }

    ghost function Tallies(): Tally
      reads this
    {
      Tally(taxaID2ReadCount, taxaID2Children)
    }

    /** An engine over references, their taxa and the reads collected from the alignments; nothing counted yet. */
    constructor (refs: seq<RefContig>, taxa: seq<nat>, rs: seq<Read>, q: real)
      ensures references == refs && matchedTaxa == taxa && readList == rs && quantile == q
      ensures validRefTaxonIDs == {} && taxaID2ReadCount == map[] && taxaID2Children == map[]
      ensures uniqHitCount == 0 && noOfMatched == 0 && noOfUniqlyMatched == 0 && noOfUniqlyMatched2 == 0 && failedByUniqCov == 0
      ensures covCutoffMemo == 0.0 && uniqCovCutoffMemo == 0.0
      ensures Valid() <==> |taxa| == |refs| && ConsistentRefs(refs) && AllFit(TargetsOf(rs), refs)
    {
      references := refs;
      matchedTaxa := taxa;
      readList := rs;
      quantile := q;
      validRefTaxonIDs := {};
      taxaID2ReadCount := map[];
      taxaID2Children := map[];
      uniqHitCount := 0;
      noOfMatched := 0;
      noOfUniqlyMatched := 0;
      noOfUniqlyMatched2 := 0;
      failedByUniqCov := 0;
      covCutoffMemo := 0.0;
      uniqCovCutoffMemo := 0.0;
    }

    // ------------------------------------------------------- counting pass

    /** A read's positions on reference `rID`: the counts first, then one more hit in each position's bin. */
    method HitPositions(rID: nat, ps: seq<nat>, unique: bool)
      requires rID < |references| && PositionsFit(ps, references[rID]) && |references[rID].uniqCov| == |references[rID].cov|
      modifies this`references
      ensures references == old(references)[rID := HitRef(old(references)[rID], ps, unique)]
    {
      ghost var r0 := references[rID];
      ghost var counted := r0.(noOfReads := r0.noOfReads + |ps|,
                               noOfUniqReads := if unique then r0.noOfUniqReads + |ps| else r0.noOfUniqReads);
      var r := references[rID];
      references := references[rID := r.(noOfReads := r.noOfReads + |ps|,
                                         noOfUniqReads := if unique then r.noOfUniqReads + |ps| else r.noOfUniqReads)];
      for j := 0 to |ps|
        invariant references == old(references)[rID := counted.(cov := AddHitsFirst(r0.cov, ps, j),
                                                                uniqCov := if unique then AddHitsFirst(r0.uniqCov, ps, j) else r0.uniqCov)]
      {
        var b := ps[j];
        var cur := references[rID];
        references := references[rID := cur.(cov := cur.cov[b := cur.cov[b] + 1],
                                             uniqCov := if unique then cur.uniqCov[b := cur.uniqCov[b] + 1] else cur.uniqCov)];
      }
      HitRefFields(r0, ps, unique);
    }

    /**
     * A read unique among all matched taxa: the length of the last record's
     * reference is added to its sumRefLengths, the unique counters grow, its
     * own reference's length is added, and its first target is counted as unique.
     */
    method CountUniqueRead(rd: Read, lastRecordRID: nat) returns (rd': Read)
      requires |matchedTaxa| == |references| && EqualBins(references) && TargetsFit(rd.targets, references)
      requires lastRecordRID < |references| && |rd.targets| > 0
      modifies this`references, this`noOfUniqlyMatched, this`uniqHitCount
      ensures references == old(references)[rd.targets[0].rID := HitRef(old(references)[rd.targets[0].rID], rd.targets[0].positions, true)]
      ensures noOfUniqlyMatched == old(noOfUniqlyMatched) + 1
      ensures uniqHitCount == old(uniqHitCount) + |rd.targets[0].positions|
      ensures rd' == rd.(sumRefLengths := Wrap32(rd.sumRefLengths + (old(references)[lastRecordRID].length + old(references)[rd.targets[0].rID].length)))
    {
      var t := rd.targets[0];
      var l1 := references[lastRecordRID].length;
      var l2 := references[t.rID].length;
      var sum := rd.sumRefLengths;
      ghost var total := Wrap32Step(sum, sum, l1);
      sum := Wrap32(sum + l1);
      noOfUniqlyMatched := noOfUniqlyMatched + 1;
      uniqHitCount := uniqHitCount + |t.positions|;
      total := Wrap32Step(sum, total, l2);
      sum := Wrap32(sum + l2);
      HitPositions(t.rID, t.positions, true);
      rd' := rd.(sumRefLengths := sum);
    }

    /** A read that is not unique: each target in turn adds its reference's length and is counted as not unique. */
    method CountAmbiguousRead(rd: Read) returns (rd': Read)
      requires |matchedTaxa| == |references| && EqualBins(references) && TargetsFit(rd.targets, references)
      modifies this`references
      ensures references == HitTargets(old(references), rd.targets)
      ensures rd' == rd.(sumRefLengths := Wrap32(rd.sumRefLengths + TargetLengths(rd.targets, old(references))))
    {
      var ts := rd.targets;
      var sum := rd.sumRefLengths;
      ghost var total: int := sum;
      for i := 0 to |ts|
        invariant RefsWithin(ts[..i], |old(references)|)
        invariant references == HitTargets(old(references), ts[..i])
        invariant total == rd.sumRefLengths + TargetLengths(ts[..i], old(references))
        invariant sum == Wrap32(total)
      {
        HitTargetsStep(old(references), ts, i);
        TargetLengthsStep(ts, old(references), i);
        var t := ts[i];
        var len := references[t.rID].length;
        assert Shape(references[t.rID]) == Shape(old(references)[t.rID]);
        total := Wrap32Step(sum, total, len);
        sum := Wrap32(sum + len);
        HitPositions(t.rID, t.positions, false);
      }
      assert ts[..|ts|] == ts;
      rd' := rd.(sumRefLengths := sum);
    }

    /** One read of the counting pass, unique among all matched taxa or not. */
    method CountAlignment(rd: Read, taxaIDs: set<nat>, lastRecordRID: nat) returns (rd': Read)
      requires |matchedTaxa| == |references| && EqualBins(references) && TargetsFit(rd.targets, references)
      requires taxaIDs == Elems(matchedTaxa) && lastRecordRID < |references|
      modifies this`references, this`noOfUniqlyMatched, this`uniqHitCount
      ensures RefsWithin(rd.targets, |references|)
      ensures references == CountRead(old(references), rd.targets, matchedTaxa)
      ensures noOfUniqlyMatched == old(noOfUniqlyMatched) + (if CountsAsUnique(rd.targets, matchedTaxa) then 1 else 0)
      ensures uniqHitCount == old(uniqHitCount) + (if CountsAsUnique(rd.targets, matchedTaxa) then |rd.targets[0].positions| else 0)
      ensures rd' == rd.(sumRefLengths := CountedSum(rd.sumRefLengths, rd.targets, old(references), matchedTaxa, lastRecordRID))
    {
      ghost var r0 := references;
      CountedSumCases(rd.sumRefLengths, rd.targets, r0, matchedTaxa, lastRecordRID);
      var uniq := IsUniqAmong(rd, matchedTaxa, taxaIDs);
      if uniq {
        rd' := CountUniqueRead(rd, lastRecordRID);
        assert CountsAsUnique(rd.targets, matchedTaxa);
      } else {
        rd' := CountAmbiguousRead(rd);
        assert !CountsAsUnique(rd.targets, matchedTaxa);
      }
    }

    /** Read `i` of the counting pass, counted and written back with its new sumRefLengths. */
    method CountReadAt(i: nat, taxaIDs: set<nat>, lastRecordRID: nat, ghost r0: seq<RefContig>, ghost rs: seq<Read>)
      requires |matchedTaxa| == |r0| && EqualBins(r0) && AllFit(TargetsOf(rs), r0) && lastRecordRID < |r0|
      requires i < |rs| && taxaIDs == Elems(matchedTaxa)
      requires readList == CountedFirst(rs, i, r0, matchedTaxa, lastRecordRID)
      requires references == CountReads(r0, TargetsOf(rs)[..i], matchedTaxa)
      modifies this`references, this`noOfUniqlyMatched, this`uniqHitCount, this`readList
      ensures readList == CountedFirst(rs, i + 1, r0, matchedTaxa, lastRecordRID)
      ensures references == CountReads(r0, TargetsOf(rs)[..i + 1], matchedTaxa)
      ensures noOfUniqlyMatched - old(noOfUniqlyMatched) == UniqReadCount(TargetsOf(rs)[..i + 1], matchedTaxa) - UniqReadCount(TargetsOf(rs)[..i], matchedTaxa)
      ensures uniqHitCount - old(uniqHitCount) == UniqHits(TargetsOf(rs)[..i + 1], matchedTaxa) - UniqHits(TargetsOf(rs)[..i], matchedTaxa)
    {
      ghost var tss := TargetsOf(rs);
      CountReadsStep(r0, tss, matchedTaxa, i);
      ghost var before := references;
      CountedFirstAt(rs, i, r0, matchedTaxa, lastRecordRID, i);
      var rd := CountAlignment(readList[i], taxaIDs, lastRecordRID);
      CountedSumAcrossShape(rs[i].sumRefLengths, tss[i], matchedTaxa, lastRecordRID, r0, before);
      readList := readList[i := rd];
    }

    /**
     * The pass of analyzeAlignments after reading: every read in iteration
     * order, then noOfMatched set to the number of reads. `lastRecordRID` is
     * the reference of the last alignment record read.
     */
    method CountAlignments(lastRecordRID: nat)
      requires Valid() && lastRecordRID < |references|
      modifies this`references, this`noOfUniqlyMatched, this`uniqHitCount, this`noOfMatched, this`readList
      ensures Valid()
      ensures ReadsWithin(old(readList), |old(references)|)
      ensures readList == CountedReads(old(readList), old(references), matchedTaxa, lastRecordRID)
      ensures AllFit(TargetsOf(readList), old(references))
      ensures references == CountReads(old(references), TargetsOf(readList), matchedTaxa)
      ensures noOfUniqlyMatched == old(noOfUniqlyMatched) + UniqReadCount(TargetsOf(readList), matchedTaxa)
      ensures uniqHitCount == old(uniqHitCount) + UniqHits(TargetsOf(readList), matchedTaxa)
      ensures noOfMatched == |readList|
    {
      ghost var rs := readList;
      ghost var tss := TargetsOf(readList);
      assert AllFit(tss, old(references));
      var taxaIDs := Elems(matchedTaxa);
      for i := 0 to |readList|
        invariant readList == CountedFirst(rs, i, old(references), matchedTaxa, lastRecordRID)
        invariant references == CountReads(old(references), tss[..i], matchedTaxa)
        invariant noOfUniqlyMatched == old(noOfUniqlyMatched) + UniqReadCount(tss[..i], matchedTaxa)
        invariant uniqHitCount == old(uniqHitCount) + UniqHits(tss[..i], matchedTaxa)
      {
        CountReadAt(i, taxaIDs, lastRecordRID, old(references), rs);
      }
      assert tss[..|rs|] == tss;
      CountedReadsTargets(rs, old(references), matchedTaxa, lastRecordRID);
      assert TargetsOf(readList) == tss;
      noOfMatched := |readList|;
      CountReadsConsistent(old(references), tss, matchedTaxa);
      AllFitAcrossShape(tss, old(references), references);
      assert AllFit(TargetsOf(readList), old(references));
    }

    // ------------------------------------------------------------- cutoffs

    /** The coverage percentages of the references with unique reads. */
    method CovValues() returns (covs: seq<real>)
      requires ConsistentRefs(references)
      ensures covs == CovCovs(references)
    {
      covs := [];
      for i := 0 to |references|
        invariant covs == CovCovs(references[..i])
      {
        assert references[..i + 1][..i] == references[..i];
        var r := references[i];
        assert r.Consistent();
        if r.noOfUniqReads > 0 {
          covs := covs + [r.CovPercent()];
        }
      }
      assert references[..|references|] == references;
    }

    /** The unique-coverage percentages of the references with unique reads. */
    method UniqCovValues() returns (covs: seq<real>)
      requires ConsistentRefs(references)
      ensures covs == UniqCovs(references)
    {
      covs := [];
      for i := 0 to |references|
        invariant covs == UniqCovs(references[..i])
      {
        assert references[..i + 1][..i] == references[..i];
        var r := references[i];
        assert r.Consistent();
        if r.noOfUniqReads > 0 {
          covs := covs + [r.UniqCovPercent()];
        }
      }
      assert references[..|references|] == references;
    }

    /** covCutoff(): computed once from the coverage percentages, then returned from the memo. */
    method CovCutoff() returns (c: real)
      requires ConsistentRefs(references) && (covCutoffMemo == 0.0 ==> HasUniqueReads(references))
      modifies this`covCutoffMemo
      ensures c == CovCutoffValue(old(covCutoffMemo), references, quantile) && covCutoffMemo == c
      ensures old(covCutoffMemo) == 0.0 ==> c in CovCovs(references)
    {
      if covCutoffMemo == 0.0 {
        var covs := CovValues();
        CovsNonEmpty(references);
        covCutoffMemo := GetCutoffByQuantile(covs, quantile);
      }
      c := covCutoffMemo;
    }

    /** uniqCovCutoff() as written: whether to compute is decided by the coverage memo. */
    method UniqCovCutoff() returns (c: real)
      requires ConsistentRefs(references) && (covCutoffMemo == 0.0 ==> HasUniqueReads(references))
      modifies this`uniqCovCutoffMemo
      ensures c == UniqCutoffAsWritten(covCutoffMemo, old(uniqCovCutoffMemo), references, quantile) && uniqCovCutoffMemo == c
    {
      if covCutoffMemo == 0.0 {
        var covs := UniqCovValues();
        CovsNonEmpty(references);
        uniqCovCutoffMemo := GetCutoffByQuantile(covs, quantile);
      }
      c := uniqCovCutoffMemo;
    }

    /** uniqCovCutoff() deciding by its own memo. */
    method UniqCovCutoffIntended() returns (c: real)
      requires ConsistentRefs(references) && (uniqCovCutoffMemo == 0.0 ==> HasUniqueReads(references))
      modifies this`uniqCovCutoffMemo
      ensures c == UniqCutoffIntended(old(uniqCovCutoffMemo), references, quantile) && uniqCovCutoffMemo == c
      ensures old(uniqCovCutoffMemo) == 0.0 ==> c in UniqCovs(references)
    {
      if uniqCovCutoffMemo == 0.0 {
        var covs := UniqCovValues();
        CovsNonEmpty(references);
        uniqCovCutoffMemo := GetCutoffByQuantile(covs, quantile);
      }
      c := uniqCovCutoffMemo;
    }

    // ---------------------------------------------------------- filtering

    /**
     * The first loop of filterAlignments: a reference with reads whose
     * unique coverage reaches the cutoff makes its taxon valid; one below it
     * is counted as failed. The cutoff is asked for at each comparison, from
     * uniqCovCutoff() as written, and is left in its memo.
     */
    method ValidateReferences()
      requires |matchedTaxa| == |references| && ConsistentRefs(references) && CutoffDefined(covCutoffMemo, references)
      modifies this`validRefTaxonIDs, this`failedByUniqCov, this`uniqCovCutoffMemo
      ensures validRefTaxonIDs == old(validRefTaxonIDs) + PassedTaxa(references, matchedTaxa, FilterCutoff(covCutoffMemo, old(uniqCovCutoffMemo), references, quantile), |references|)
      ensures failedByUniqCov == old(failedByUniqCov) + FailCount(references, FilterCutoff(covCutoffMemo, old(uniqCovCutoffMemo), references, quantile), |references|)
      ensures ReadsBefore(references, |references|) ==> uniqCovCutoffMemo == FilterCutoff(covCutoffMemo, old(uniqCovCutoffMemo), references, quantile)
      ensures !ReadsBefore(references, |references|) ==> uniqCovCutoffMemo == old(uniqCovCutoffMemo)
    {
      ghost var cutoff := FilterCutoff(covCutoffMemo, uniqCovCutoffMemo, references, quantile);
      for i := 0 to |references|
        invariant uniqCovCutoffMemo == if ReadsBefore(references, i) then cutoff else old(uniqCovCutoffMemo)
        invariant validRefTaxonIDs == old(validRefTaxonIDs) + PassedTaxa(references, matchedTaxa, cutoff, i)
        invariant failedByUniqCov == old(failedByUniqCov) + FailCount(references, cutoff, i)
      {
        ValidateNext(i, cutoff, old(validRefTaxonIDs), old(failedByUniqCov), old(uniqCovCutoffMemo));
      }
    }

    /** The loop of ValidateReferences after the first `i` references, extended by one. */
    method ValidateNext(i: nat, ghost cutoff: real, ghost taxa0: set<nat>, ghost failed0: nat, ghost memo0: real)
      requires |matchedTaxa| == |references| && ConsistentRefs(references) && i < |references|
      requires CutoffDefined(covCutoffMemo, references) && cutoff == FilterCutoff(covCutoffMemo, memo0, references, quantile)
      requires uniqCovCutoffMemo == if ReadsBefore(references, i) then cutoff else memo0
      requires validRefTaxonIDs == taxa0 + PassedTaxa(references, matchedTaxa, cutoff, i)
      requires failedByUniqCov == failed0 + FailCount(references, cutoff, i)
      modifies this`validRefTaxonIDs, this`failedByUniqCov, this`uniqCovCutoffMemo
      ensures uniqCovCutoffMemo == if ReadsBefore(references, i + 1) then cutoff else memo0
      ensures validRefTaxonIDs == taxa0 + PassedTaxa(references, matchedTaxa, cutoff, i + 1)
      ensures failedByUniqCov == failed0 + FailCount(references, cutoff, i + 1)
    {
      ReadsBeforeNext(references, i);
      if ReadsBefore(references, i) {
        var k :| 0 <= k < i && references[k].noOfReads > 0;
        assert !(forall j :: 0 <= j < |references| ==> references[j].noOfReads == 0);
        FilterCutoffStored(covCutoffMemo, memo0, references, quantile);
      }
      ValidateReference(i, cutoff);
    }

    /** One reference of the first loop of filterAlignments, compared with the cutoff as uniqCovCutoff() returns it. */
    method ValidateReference(i: nat, ghost cutoff: real)
      requires |matchedTaxa| == |references| && ConsistentRefs(references) && i < |references|
      requires CutoffDefined(covCutoffMemo, references) && FilterCutoff(covCutoffMemo, uniqCovCutoffMemo, references, quantile) == cutoff
      modifies this`validRefTaxonIDs, this`failedByUniqCov, this`uniqCovCutoffMemo
      ensures FilterCutoff(covCutoffMemo, uniqCovCutoffMemo, references, quantile) == cutoff
      ensures uniqCovCutoffMemo == if references[i].noOfReads > 0 then cutoff else old(uniqCovCutoffMemo)
      ensures validRefTaxonIDs == old(validRefTaxonIDs) + (if Passes(references[i], cutoff) then {matchedTaxa[i]} else {})
      ensures failedByUniqCov == old(failedByUniqCov) + (if Fails(references[i], cutoff) then 1 else 0)
    {
      var r := references[i];
      if r.noOfReads == 0 {
        return;
      }
      assert r.Consistent() && |r.cov| > 0;
      assert !(forall k :: 0 <= k < |references| ==> references[k].noOfReads == 0);
      FilterCutoffStored(covCutoffMemo, uniqCovCutoffMemo, references, quantile);
      var c := UniqCovCutoff();
      if r.UniqCovPercent() >= c {
        validRefTaxonIDs := validRefTaxonIDs + {matchedTaxa[i]};
      } else {
        FilterCutoffStored(covCutoffMemo, uniqCovCutoffMemo, references, quantile);
        c := UniqCovCutoff();
        if r.UniqCovPercent() < c {
          failedByUniqCov := failedByUniqCov + 1;
        }
      }
    }

    /** A read's positions counted again, as unique after filtering, into the pass-2 count and histogram. */
    method HitPositions2(rID: nat, ps: seq<nat>)
      requires rID < |references| && PositionsFit(ps, references[rID]) && |references[rID].uniqCov2| == |references[rID].cov|
      modifies this`references
      ensures references == old(references)[rID := HitRef2(old(references)[rID], ps)]
    {
      ghost var r0 := references[rID];
      var r := references[rID];
      references := references[rID := r.(noOfUniqReads2 := r.noOfUniqReads2 + |ps|)];
      for j := 0 to |ps|
        invariant references == old(references)[rID := r0.(noOfUniqReads2 := r0.noOfUniqReads2 + |ps|, uniqCov2 := AddHitsFirst(r0.uniqCov2, ps, j))]
      {
        var b := ps[j];
        var cur := references[rID];
        references := references[rID := cur.(uniqCov2 := cur.uniqCov2[b := cur.uniqCov2[b] + 1])];
      }
      HitRef2Fields(r0, ps);
    }

    /** One read of the second loop of filterAlignments: update it, then count it if it is now unique among the valid taxa. */
    method RecountAlignment(rd: Read) returns (rd': Read)
      requires |matchedTaxa| == |references| && EqualBins(references) && TargetsFit(rd.targets, references)
      modifies this`references, this`noOfUniqlyMatched2
      ensures RefsWithin(rd.targets, |references|) && RefsWithin(rd.targets, |matchedTaxa|)
      ensures rd' == UpdatedRead(rd, matchedTaxa, validRefTaxonIDs, old(references))
      ensures TargetsFit(rd'.targets, old(references))
      ensures references == Recount(old(references), rd'.targets, matchedTaxa, validRefTaxonIDs)
      ensures noOfUniqlyMatched2 == old(noOfUniqlyMatched2) + (if UniqAmong(rd'.targets, matchedTaxa, validRefTaxonIDs) then |rd'.targets[0].positions| else 0)
    {
      AfterUpdateFits(rd.targets, matchedTaxa, validRefTaxonIDs, references);
      rd' := Update(rd, matchedTaxa, validRefTaxonIDs, references);
      var uniq := IsUniqAmong(rd', matchedTaxa, validRefTaxonIDs);
      if uniq {
        var t := rd'.targets[0];
        noOfUniqlyMatched2 := noOfUniqlyMatched2 + |t.positions|;
        HitPositions2(t.rID, t.positions);
      }
    }

    /** Read `i` of the second loop of filterAlignments, recounted and written back updated. */
    method RecountReadAt(i: nat, ghost r0: seq<RefContig>, ghost rs: seq<Read>)
      requires |matchedTaxa| == |r0| && EqualBins(r0) && AllFit(TargetsOf(rs), r0) && i < |rs|
      requires readList == UpdatedFirst(rs, i, matchedTaxa, validRefTaxonIDs, r0)
      requires AllFit(UpdatedAll(TargetsOf(rs), matchedTaxa, validRefTaxonIDs)[..i], r0)
      requires references == RecountAll(r0, UpdatedAll(TargetsOf(rs), matchedTaxa, validRefTaxonIDs)[..i], matchedTaxa, validRefTaxonIDs)
      modifies this`references, this`noOfUniqlyMatched2, this`readList
      ensures readList == UpdatedFirst(rs, i + 1, matchedTaxa, validRefTaxonIDs, r0)
      ensures AllFit(UpdatedAll(TargetsOf(rs), matchedTaxa, validRefTaxonIDs)[..i + 1], r0)
      ensures references == RecountAll(r0, UpdatedAll(TargetsOf(rs), matchedTaxa, validRefTaxonIDs)[..i + 1], matchedTaxa, validRefTaxonIDs)
      ensures noOfUniqlyMatched2 - old(noOfUniqlyMatched2) ==
                UniqHits2(UpdatedAll(TargetsOf(rs), matchedTaxa, validRefTaxonIDs)[..i + 1], matchedTaxa, validRefTaxonIDs) -
                UniqHits2(UpdatedAll(TargetsOf(rs), matchedTaxa, validRefTaxonIDs)[..i], matchedTaxa, validRefTaxonIDs)
    {
      ghost var tss := TargetsOf(rs);
      ghost var uss := UpdatedAll(tss, matchedTaxa, validRefTaxonIDs);
      UpdatedFirstAt(rs, i, matchedTaxa, validRefTaxonIDs, r0, i);
      UpdatedReadAcrossShape(rs[i], matchedTaxa, validRefTaxonIDs, r0, references);
      AfterUpdateFits(tss[i], matchedTaxa, validRefTaxonIDs, r0);
      UpdatedAllAt(tss, matchedTaxa, validRefTaxonIDs, i);
      RecountAllStep(r0, uss, matchedTaxa, validRefTaxonIDs, i);
      var rd := RecountAlignment(readList[i]);
      readList := readList[i := rd];
    }

    /** The second loop of filterAlignments over every read in iteration order. */
    method RecountUniqueReads()
      requires Valid()
      modifies this`references, this`noOfUniqlyMatched2, this`readList
      ensures Valid()
      ensures ReadsWithin(old(readList), |matchedTaxa|) && ReadsWithin(old(readList), |old(references)|)
      ensures readList == UpdatedReads(old(readList), matchedTaxa, validRefTaxonIDs, old(references))
      ensures TargetsOf(readList) == UpdatedAll(TargetsOf(old(readList)), matchedTaxa, validRefTaxonIDs)
      ensures AllFit(TargetsOf(readList), old(references))
      ensures references == RecountAll(old(references), TargetsOf(readList), matchedTaxa, validRefTaxonIDs)
      ensures noOfUniqlyMatched2 == old(noOfUniqlyMatched2) + UniqHits2(TargetsOf(readList), matchedTaxa, validRefTaxonIDs)
    {
      ghost var rs := readList;
      ghost var tss := TargetsOf(readList);
      ghost var uss := UpdatedAll(tss, matchedTaxa, validRefTaxonIDs);
      for i := 0 to |readList|
        invariant readList == UpdatedFirst(rs, i, matchedTaxa, validRefTaxonIDs, old(references))
        invariant AllFit(uss[..i], old(references))
        invariant references == RecountAll(old(references), uss[..i], matchedTaxa, validRefTaxonIDs)
        invariant noOfUniqlyMatched2 == old(noOfUniqlyMatched2) + UniqHits2(uss[..i], matchedTaxa, validRefTaxonIDs)
      {
        RecountReadAt(i, old(references), rs);
      }
      assert uss[..|rs|] == uss;
      UpdatedReadsTargets(rs, matchedTaxa, validRefTaxonIDs, old(references));
      RecountAllConsistent(old(references), uss, matchedTaxa, validRefTaxonIDs);
      AllFitAcrossShape(uss, old(references), references);
    }

    /** filterAlignments: validate the references, then count the reads that are unique among the valid taxa. */
    method FilterAlignments()
      requires Valid() && CutoffDefined(covCutoffMemo, references)
      modifies this`validRefTaxonIDs, this`failedByUniqCov, this`uniqCovCutoffMemo, this`references, this`noOfUniqlyMatched2, this`readList
      ensures Valid()
      ensures validRefTaxonIDs == old(validRefTaxonIDs) + PassedTaxa(old(references), matchedTaxa, FilterCutoff(covCutoffMemo, old(uniqCovCutoffMemo), old(references), quantile), |references|)
      ensures failedByUniqCov == old(failedByUniqCov) + FailCount(old(references), FilterCutoff(covCutoffMemo, old(uniqCovCutoffMemo), old(references), quantile), |references|)
      ensures ReadsBefore(old(references), |references|) ==> uniqCovCutoffMemo == FilterCutoff(covCutoffMemo, old(uniqCovCutoffMemo), old(references), quantile)
      ensures !ReadsBefore(old(references), |references|) ==> uniqCovCutoffMemo == old(uniqCovCutoffMemo)
      ensures ReadsWithin(old(readList), |matchedTaxa|) && ReadsWithin(old(readList), |old(references)|)
      ensures readList == UpdatedReads(old(readList), matchedTaxa, validRefTaxonIDs, old(references))
      ensures TargetsOf(readList) == UpdatedAll(TargetsOf(old(readList)), matchedTaxa, validRefTaxonIDs)
      ensures AllFit(TargetsOf(readList), old(references))
      ensures references == RecountAll(old(references), TargetsOf(readList), matchedTaxa, validRefTaxonIDs)
      ensures noOfUniqlyMatched2 == old(noOfUniqlyMatched2) + UniqHits2(TargetsOf(readList), matchedTaxa, validRefTaxonIDs)
    {
      ValidateReferences();
      RecountUniqueReads();
    }

    // ------------------------------------------------------ getReadLCACount

    /** Every ancestor of `start`, bottom up, gains `amount` in its count and `refs` in its set. */
    method ClimbFrom(start: nat, amount: nat, refs: set<nat>, nodes: Nodes, ghost rank: map<nat, nat>)
      requires WellFormed(nodes, rank)
      modifies this`taxaID2ReadCount, this`taxaID2Children
      ensures Tallies() == Climb(old(Tallies()), start, amount, refs, nodes, rank)
    {
      var t := start;
      ghost var walked: seq<nat> := [];
      while t in nodes && t != 0
        invariant Ancestors(nodes, rank, start) == walked + Ancestors(nodes, rank, t)
        invariant taxaID2ReadCount == AddAlong(old(taxaID2ReadCount), walked, amount)
        invariant taxaID2Children == JoinAlong(old(taxaID2Children), walked, refs)
        decreases Height(nodes, rank, t)
      {
        ParentLower(nodes, rank, t);
        AlongStep(old(taxaID2ReadCount), old(taxaID2Children), walked, nodes[t], amount, refs);
        t := nodes[t];
        walked := walked + [t];
        if t in taxaID2ReadCount {
          taxaID2ReadCount := taxaID2ReadCount[t := taxaID2ReadCount[t] + amount];
        } else {
          taxaID2ReadCount := taxaID2ReadCount[t := amount];
        }
        taxaID2Children := taxaID2Children[t := Children(taxaID2Children, t) + refs];
      }
      assert walked + [] == walked;
    }

    /** The references a read hit and the ordered set of their taxa, collected target by target. */
    method CollectTargets(ts: seq<Target>) returns (refIDs: set<nat>, taxaIDs: seq<nat>)
      requires RefsWithin(ts, |matchedTaxa|)
      ensures refIDs == RefIdsOf(ts) && taxaIDs == ToOrderedSet(TaxaOf(ts, matchedTaxa))
    {
      refIDs := {};
      taxaIDs := [];
      for j := 0 to |ts|
        invariant refIDs == RefIdsOf(ts[..j])
        invariant taxaIDs == ToOrderedSet(TaxaOf(ts[..j], matchedTaxa))
      {
        CollectStep(ts, matchedTaxa, j);
        var refID := ts[j].rID;
        taxaIDs := InsertSet(matchedTaxa[refID], taxaIDs);
        refIDs := refIDs + {refID};
      }
      assert ts[..|ts|] == ts;
    }

    /** One more read for taxon `l` in the counts, and `refIDs` joined to its set of references. */
    method AddToTaxon(l: nat, refIDs: set<nat>)
      modifies this`taxaID2ReadCount, this`taxaID2Children
      ensures Tallies() == AddRead(old(Tallies()), l, refIDs)
    {
      taxaID2Children := taxaID2Children[l := Children(taxaID2Children, l) + refIDs];
      if l in taxaID2ReadCount {
        taxaID2ReadCount := taxaID2ReadCount[l := taxaID2ReadCount[l] + 1];
      } else {
        taxaID2ReadCount := taxaID2ReadCount[l := 1];
      }
    }

    /** A read not unique among the valid taxa: one more read for the LCA of its taxa, and its references joined to the LCA's set. */
    method AssignToLca(ts: seq<Target>, nodes: Nodes, ghost rank: map<nat, nat>)
      requires RefsWithin(ts, |matchedTaxa|) && WellFormed(nodes, rank) && !UniqAmong(ts, matchedTaxa, validRefTaxonIDs)
      modifies this`taxaID2ReadCount, this`taxaID2Children
      ensures Tallies() == AssignRead(old(Tallies()), ts, matchedTaxa, validRefTaxonIDs, nodes, rank)
    {
      var refIDs, taxaIDs := CollectTargets(ts);
      var lca := GetLcaOf(taxaIDs, nodes, rank);
      if lca.Some? {
        AddToTaxon(lca.value, refIDs);
      }
    }

    /** The first loop of getReadLCACount: each read not unique among the valid taxa goes to the LCA of its taxa. */
    method AssignAmbiguousReads(nodes: Nodes, ghost rank: map<nat, nat>)
      requires Valid() && WellFormed(nodes, rank)
      modifies this`taxaID2ReadCount, this`taxaID2Children
      ensures ReadsWithin(readList, |matchedTaxa|)
      ensures Tallies() == AssignReads(old(Tallies()), TargetsOf(readList), matchedTaxa, validRefTaxonIDs, nodes, rank)
    {
      ghost var tss := TargetsOf(readList);
      assert forall k :: 0 <= k < |tss| ==> RefsWithin(tss[k], |matchedTaxa|);
      for i := 0 to |readList|
        invariant Tallies() == AssignReads(old(Tallies()), tss[..i], matchedTaxa, validRefTaxonIDs, nodes, rank)
      {
        AssignReadsStep(old(Tallies()), tss, matchedTaxa, validRefTaxonIDs, nodes, rank, i);
        var rd := readList[i];
        var uniq := IsUniqAmong(rd, matchedTaxa, validRefTaxonIDs);
        if !uniq {
          AssignToLca(rd.targets, nodes, rank);
        }
      }
      assert tss[..|readList|] == tss;
    }

    /**
     * The second loop: over a copy of the counts, in the iteration order
     * `order` of that copy, each taxon's copied count and current set of
     * references climb to its ancestors.
     */
    method PropagateAssigned(order: seq<nat>, nodes: Nodes, ghost rank: map<nat, nat>)
      requires WellFormed(nodes, rank)
      requires Elems(order) == taxaID2ReadCount.Keys && NoRepeats(order)
      modifies this`taxaID2ReadCount, this`taxaID2Children
      ensures Tallies() == PropagateKeys(old(Tallies()), old(taxaID2ReadCount), order, nodes, rank)
    {
      var copy := taxaID2ReadCount;
      for i := 0 to |order|
        invariant Tallies() == PropagateKeys(old(Tallies()), copy, order[..i], nodes, rank)
      {
        assert order[..i + 1][..i] == order[..i];
        var t := order[i];
        assert t in Elems(order);
        var readCount := copy[t];
        if t !in taxaID2Children {
          taxaID2Children := taxaID2Children[t := {}];
        }
        var refIDs := taxaID2Children[t];
        ClimbFrom(t, readCount, refIDs, nodes, rank);
      }
      assert order[..|order|] == order;
    }

    /** The third loop: every reference with reads climbs from its taxon with its pass-2 unique count and its index. */
    method PropagateUniqueReads(nodes: Nodes, ghost rank: map<nat, nat>)
      requires WellFormed(nodes, rank)
      modifies this`taxaID2ReadCount, this`taxaID2Children
      ensures Tallies() == PropagateUnique(old(Tallies()), references, |references|, nodes, rank)
    {
      for i := 0 to |references|
        invariant Tallies() == PropagateUnique(old(Tallies()), references, i, nodes, rank)
      {
        var r := references[i];
        if r.noOfReads > 0 {
          ClimbFrom(r.taxaID, r.noOfUniqReads2, {i}, nodes, rank);
        }
      }
    }

    /**
     * getReadLCACount: the three loops in turn; `order` is the iteration
     * order of the counts after the first loop, each taxon once.
     */
    method GetReadLcaCount(order: seq<nat>, nodes: Nodes, ghost rank: map<nat, nat>)
      requires Valid() && WellFormed(nodes, rank)
      requires ReadsWithin(readList, |matchedTaxa|)
      requires Elems(order) == AssignReads(Tallies(), TargetsOf(readList), matchedTaxa, validRefTaxonIDs, nodes, rank).counts.Keys && NoRepeats(order)
      modifies this`taxaID2ReadCount, this`taxaID2Children
      ensures (var afterFirst := AssignReads(old(Tallies()), TargetsOf(readList), matchedTaxa, validRefTaxonIDs, nodes, rank);
               Tallies() == PropagateUnique(PropagateKeys(afterFirst, afterFirst.counts, order, nodes, rank), references, |references|, nodes, rank))
    {
      AssignAmbiguousReads(nodes, rank);
      PropagateAssigned(order, nodes, rank);
      PropagateUniqueReads(nodes, rank);
    }
  }
}
