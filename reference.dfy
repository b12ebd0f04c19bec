/**
 * A reference sequence (class ReferenceContig, src/slimm.h:182-221) as the
 * counting passes see it: its length and taxon, its three read counts and its
 * three histograms (all reads, unique reads of pass 1, unique reads of pass 2).
 */
module Reference {
  import opened CoverageTracker

  datatype RefContig = RefContig(
    length: nat,
    taxaID: nat,
    noOfReads: nat,
    noOfUniqReads: nat,
    noOfUniqReads2: nat,
    cov: seq<nat>,
    uniqCov: seq<nat>,
    uniqCov2: seq<nat>)
  {
    function NoOfBins(): nat
    {
      |cov|
    }

    /**
     * The three histograms have the same bins, and each holds exactly as many
     * hits as the matching read count: the counting passes add to a count and
     * to its histogram together.
     */
    ghost predicate Consistent()
    {
      && |uniqCov| == |cov|
      && |uniqCov2| == |cov|
      && Sum(cov) == noOfReads
      && Sum(uniqCov) == noOfUniqReads
      && Sum(uniqCov2) == noOfUniqReads2
    }

    /** uniqCovPercent(): the covered fraction of the pass-1 unique histogram; float 0/0 when there are no bins. */
    function UniqCovPercent(): (f: real)
      requires |uniqCov| > 0
      ensures 0.0 <= f <= 1.0
      ensures f > 0.0 <==> Sum(uniqCov) > 0
    {
      CovFraction(uniqCov)
    }

    /** covPercent(): the covered fraction of the histogram of all reads. */
    function CovPercent(): (f: real)
      requires |cov| > 0
      ensures 0.0 <= f <= 1.0
      ensures f > 0.0 <==> Sum(cov) > 0
    {
      CovFraction(cov)
    }
  }

  ghost predicate ConsistentRefs(refs: seq<RefContig>)
  {
    forall i :: 0 <= i < |refs| ==> refs[i].Consistent()
  }

  /**
   * A reference as a run starts: no reads, and three empty histograms of
   * ceil(length / width) bins each (src/slimm.h:164-170, 205-213).
   */
  function NewRefContig(length: nat, taxaID: nat, width: nat): (r: RefContig)
    requires width > 0
    ensures r.Consistent()
    ensures r.NoOfBins() == BinCount(length, width)
    ensures r.noOfReads == 0 && r.noOfUniqReads == 0 && r.noOfUniqReads2 == 0
    ensures r.length == length && r.taxaID == taxaID
  {
    var n := BinCount(length, width);
    ZerosSum(n);
    RefContig(length, taxaID, 0, 0, 0, Zeros(n), Zeros(n), Zeros(n))
  }

  lemma {:induction false} ZerosSum(n: nat)
    ensures Sum(Zeros(n)) == 0
  {
    if n > 0 {
      assert Zeros(n)[..n - 1] == Zeros(n - 1);
      ZerosSum(n - 1);
    }
  }

  /**
   * A consistent reference that has reads has bins, so its coverage
   * percentages are defined; and it has unique coverage exactly when it has
   * unique reads.
   */
  lemma ReadsMeanBins(r: RefContig)
    requires r.Consistent()
    ensures r.noOfReads > 0 || r.noOfUniqReads > 0 ==> |r.uniqCov| > 0 && |r.cov| > 0
    ensures |r.uniqCov| > 0 ==> (r.UniqCovPercent() > 0.0 <==> r.noOfUniqReads > 0)
    ensures |r.cov| > 0 ==> (r.CovPercent() > 0.0 <==> r.noOfReads > 0)
  {
  }
}
