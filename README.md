# SLIMM classification engine in Dafny

SLIMM (Species Level Identification of Microbes from Metagenomes) assigns
sequencing reads, already aligned against a set of reference genomes, to
taxa. This project models the classification engine in `src/slimm.h` and
proves properties of that model. The engine has six parts:

- **Coverage histograms.** Each reference genome is cut into fixed-width
  bins, and a `Coverage` object counts the hits per bin. Its memoised count
  of occupied bins gives the coverage percentage.
- **Reads and their targets.** A read holds the references it aligned to
  and, per reference, the bins of its hits (`addTarget`). The `isUniq`
  overloads decide whether a read is unique. `update` drops the targets
  whose taxon is not valid.
- **The quantile cutoff** (`getCutoffByQuantile`). The values are sorted
  and added from the top. The cutoff is the value at which the loop stops.
- **The counting pass** (`analyzeAlignments`):
  - Every read adds its hits to the histograms and counters of the
    references it hit.
  - A read counts as unique when all its targets share one taxon.
- **The filtering pass** (`filterAlignments`):
  - A reference is valid when its unique-coverage percentage reaches the
    unique-coverage cutoff (`uniqCovCutoff`).
  - Every read is then updated against the valid taxa.
  - The reads that are now unique are counted again.
- **The LCA pass** (`getReadLCACount`):
  - Every read that is not unique among the valid taxa goes to the lowest
    common ancestor (`getLCA`) of its taxa.
  - The counts then climb the taxonomy to every ancestor.
  - So do the unique counts of the references.

The path helpers that name the report files (`getFilename`,
`getDirectory`, `getTSVFileName`) are modelled as well.

Modules, one file each:

- `wrappers.dfy` (`Wrappers`): `Option` and `Result`.
- `coverage.dfy` (`CoverageTracker`): the `Coverage` class and the bin
  arithmetic.
- `reference.dfy` (`Reference`): a reference contig as a value with three
  histograms.
- `read_targets.dfy` (`ReadTargets`):
  - the targets of a read;
  - 32-bit wrap-around of `sumRefLengths`;
  - `addTarget`, `update` and both `isUniq` overloads.
- `quantile.dfy` (`Quantile`): `getCutoffByQuantile`, with a specification
  of where its loop stops.
- `taxonomy.dfy` (`Taxonomy`):
  - the parent map;
  - climbing to the root;
  - ordered sets as ascending sequences;
  - `getLCA` and its overloads.
- `counting.dfy` (`Counting`):
  - the counting and recounting passes as functions over the reference
    list;
  - the cutoffs;
  - the validation pass.
- `propagation.dfy` (`Propagation`): the three loops of `getReadLCACount`
  as functions over the two maps.
- `paths.dfy` (`Paths`): the file-name helpers.
- `engine.dfy` (`Engine`): the `Slimm` object as a class.
  - Its methods change its fields in place.
  - Each method is proved equal to the functions above.

The C++ keeps the reads in an `unordered_map` keyed by read name and
updates its values in place. The model keeps them as `readList`, the
sequence of the map's values in its iteration order, and the passes
rewrite that sequence element by element. The parent map (`TNodes`) is
`nodes: map<nat, nat>`. Termination of every climb needs a ranking
(`WellFormed`): each node's parent has a smaller rank. This is a ghost
parameter the source does not have.

The engine does not use the `Coverage` class: `getCovPercent` (line 611)
takes its `Coverage` by value, so the memo it fills never persists, and
`RefContig` keeps plain `seq<nat>` histograms whose occupied bins are
counted afresh.

## Model

| member | source | states |
|---|---|---|
| CoverageTracker.BinCount | src/slimm.h:164-170 | the number of bins is the least n with n * width >= totalLen; it is 0 exactly when the length is 0 |
| CoverageTracker.Coverage.Default | src/slimm.h:159-162 | the default histogram has width 1000, no bins and an unset memo |
| CoverageTracker.Coverage.constructor | src/slimm.h:164-170 | a histogram of BinCount(totalLen, width) zero bins, with the memo unset |
| CoverageTracker.Coverage.NoOfNonZeroBins | src/slimm.h:171-178 | on the first call, noOfBins minus the zero bins, which is the number of occupied bins; later calls return the memo; while the memo is fresh, the result is the number of occupied bins |
| CoverageTracker.CoveredBins | src/slimm.h:171-178 | the count of non-zero bins equals the size of the set of occupied bin indices and is at most the number of bins |
| CoverageTracker.CoveredBinsIsOccupied | src/slimm.h:175 | bins minus zero bins equals the number of occupied bins |
| CoverageTracker.CoveredIffHit | src/slimm.h:171-178 | some bin is occupied exactly when the histogram holds at least one hit |
| CoverageTracker.AddHitsAt | src/slimm.h:850-855 | incrementing the bins of a list of positions raises each bin by the number of times it occurs in the list |
| CoverageTracker.AddHitsSum | src/slimm.h:850-855 | the histogram's total grows by the number of positions |
| CoverageTracker.SumIncrement | src/slimm.h:853 | one increment raises the total by one |
| CoverageTracker.CovFraction | src/slimm.h:611-614 | the coverage percentage lies in [0, 1] and is positive exactly when some bin is hit |
| Reference.RefContig.UniqCovPercent | src/slimm.h:619-622 | uniqCovPercent lies in [0, 1] and is positive exactly when the unique histogram holds a hit |
| Reference.RefContig.CovPercent | src/slimm.h:615-618 | covPercent lies in [0, 1] and is positive exactly when the histogram holds a hit |
| Reference.NewRefContig | src/slimm.h:205-213 | a new contig has zero counters and three consistent, equally sized, empty histograms of BinCount(length, width) bins |
| Reference.ZerosSum | src/slimm.h:168 | a fresh histogram holds no hits |
| Reference.ReadsMeanBins | src/slimm.h:182-221 | in a consistent contig, a contig with reads has bins, and each coverage percentage is positive exactly when the matching read counter is |
| ReadTargets.Wrap32IsMod | src/slimm.h:243 | the uint32_t value of an integer is that integer modulo 2^32 |
| ReadTargets.Wrap32Add | src/slimm.h:841 | wrapping after every addition equals wrapping once at the end |
| ReadTargets.Wrap32Sub | src/slimm.h:359 | wrapping after every subtraction equals wrapping once at the end |
| ReadTargets.FindRef | src/slimm.h:375-382 | the search finds the first target on the reference, or none exactly when no target is on it |
| ReadTargets.WithHitSpec | src/slimm.h:365-385 | addTarget keeps targets on distinct references, adds exactly one hit, appends the bin to the hits on that reference and leaves every other reference's hits alone; the target count grows only for a new reference |
| ReadTargets.HitOnExisting | src/slimm.h:375-381 | a hit on a reference already targeted appends to that target's positions and changes nothing else |
| ReadTargets.HitOnNew | src/slimm.h:365-385 | a hit on a new reference appends a target with that one position |
| ReadTargets.HitsOnAppend | src/slimm.h:383 | appending a target adds its positions to the hits on its reference only |
| ReadTargets.HitsOnOnly | src/slimm.h:242 | with distinct references, the hits on a target's reference are that target's positions |
| ReadTargets.TotalHitsReplace | src/slimm.h:379 | replacing one target changes the total hit count by the change in that target's positions |
| ReadTargets.ValidTaxaOfMembers | src/slimm.h:327-333 | the set built by the loop holds exactly the valid taxa of the read's targets |
| ReadTargets.UniqAmongIff | src/slimm.h:319-340 | with two or more targets, the read is unique exactly when all its targets with a valid taxon share that taxon |
| ReadTargets.SameTaxonIsUniq | src/slimm.h:319-340 | two targets on one taxon make a read unique |
| ReadTargets.TwoValidTaxaNotUniq | src/slimm.h:334-337 | two targets on two different valid taxa make a read not unique |
| ReadTargets.Read.IsUniq | src/slimm.h:308-314 | isUniq() holds exactly when the read has one target; a read without targets is not unique |
| ReadTargets.IsUniqAgrees | src/slimm.h:308-340 | the two overloads agree on reads with at most one target; a unique read has a target, and a read unique by isUniq() is unique among any taxa |
| ReadTargets.NewRead | src/slimm.h:239-244 | a new read has no targets and zero sums |
| ReadTargets.IsUniqAmong | src/slimm.h:319-340 | the method returns exactly UniqAmong: one target, or at most one valid taxon among two or more |
| ReadTargets.AddTarget | src/slimm.h:365-385 | the read after addTarget has the targets WithHit, whose meaning WithHitSpec states |
| ReadTargets.Update | src/slimm.h:343-363 | reads with at most one target are left alone; otherwise the targets are those with a valid taxon, in order, and sumRefLengths loses the lengths of the dropped references modulo 2^32; the read length is unchanged |
| ReadTargets.KeepValid | src/slimm.h:352-361 | the loop of update returns exactly the kept targets and the sum less the dropped references' lengths, modulo 2^32 |
| ReadTargets.SubtractLength | src/slimm.h:359 | one wrapped subtraction from a sum that already holds base minus the dropped lengths gives base minus the dropped lengths and this one |
| ReadTargets.UpdateStep | src/slimm.h:353-360 | one more target is either kept, appended in order, or its reference's length is added to the dropped lengths |
| ReadTargets.KeptMembers | src/slimm.h:353-358 | a target survives update exactly when it was a target and its taxon is valid |
| ReadTargets.KeptValidTaxa | src/slimm.h:353-358 | update keeps the set of valid taxa of a read |
| ReadTargets.KeptDistinct | src/slimm.h:353-361 | update keeps the targets on distinct references |
| ReadTargets.KeptWithin | src/slimm.h:353-361 | update keeps every target inside the reference list and never adds targets |
| ReadTargets.KeptConcat | src/slimm.h:353-358 | the filter distributes over concatenation, so it keeps the targets' order |
| Quantile.InsertAdds | src/slimm.h:399 | one insertion step of the sort adds its value once and adds it to the total |
| Quantile.InsertSorted | src/slimm.h:399 | insertion keeps a sequence sorted |
| Quantile.SortAsc | src/slimm.h:399 | std::sort gives an ascending permutation of the values with the same total |
| Quantile.SortAscOfSorted | src/slimm.h:399 | sorting an ascending sequence leaves it unchanged |
| Quantile.QuantileIndex | src/slimm.h:401-407 | the stopping index lies inside the vector |
| Quantile.CutoffIndexStops | src/slimm.h:401-406 | the loop stops at the first index, from the top, where the mass above has reached the share q or the bottom is reached |
| Quantile.StopsAtUnique | src/slimm.h:401-406 | at most one index satisfies that stopping condition |
| Quantile.QuantileCutoffSpec | src/slimm.h:393-410 | the cutoff is the sorted value at the one index satisfying the stopping condition, and it is one of the input values |
| Quantile.QuantileNonPositive | src/slimm.h:402 | with q <= 0 the loop never runs, and the cutoff is the largest value |
| Quantile.QuantileFullMass | src/slimm.h:402-406 | with q >= 1 and non-negative values, the cutoff is the smallest value |
| Quantile.TotalNonNegative | src/slimm.h:396 | a sum of non-negative values is non-negative, and zero only when all are zero |
| Quantile.GetCutoffByQuantile | src/slimm.h:393-410 | the loop computes QuantileCutoff, a value of the input |
| Quantile.QuantileOfSorted | src/slimm.h:399-407 | on sorted input, the cutoff is the value where the loop stops over the input itself |
| Quantile.QuantileExample | src/slimm.h:393-410 | [1, 2, 3, 4, 10] with q = 0.5 gives 4 |
| Taxonomy.ParentLower | src/slimm.h:1144-1146 | in a well-formed taxonomy, each parent has a smaller height, so every climb ends |
| Taxonomy.AncestorsChain | src/slimm.h:1144-1153 | the climb visits the parent, then each node's parent, and stops at a node outside the map or at the root 0 |
| Taxonomy.AncestorsAbove | src/slimm.h:1144-1153 | every node the climb visits is a proper ancestor of the start |
| Taxonomy.AncestorsOnce | src/slimm.h:1144-1153 | the climb visits each node at most once |
| Taxonomy.AddAlongAt | src/slimm.h:1147-1150 | adding an amount along a path raises a node's count by the amount times the node's occurrences on the path; the node is a key afterwards exactly when it was one or is on the path |
| Taxonomy.JoinAlongAt | src/slimm.h:1152 | joining a set along a path adds it to the sets of exactly the nodes on the path |
| Taxonomy.ClimbAddsOnce | src/slimm.h:1144-1150 | a climb adds its amount once to each proper ancestor and to no other node |
| Taxonomy.InsertSet | src/slimm.h:1124 | std::set::insert keeps the set ascending and adds exactly the element |
| Taxonomy.ToOrderedSet | src/slimm.h:799 | a vector's elements as a std::set: ascending, with the same members |
| Taxonomy.Restrict | src/slimm.h:741-746 | the candidates restricted to the valid taxa are ascending and are exactly the candidates that are valid |
| Taxonomy.RestrictAll | src/slimm.h:741-746 | restricting to a superset changes nothing |
| Taxonomy.RestrictEmpty | src/slimm.h:741-746 | the restricted set is empty exactly when no candidate is valid |
| Taxonomy.RoundFrom | src/slimm.h:751-767 | a round that does not return yields an ascending frontier |
| Taxonomy.RoundShrinks | src/slimm.h:747-770 | each round lowers the highest height in the frontier, so the while loop ends |
| Taxonomy.GetLca | src/slimm.h:736-772 | the loop computes Lca: the valid candidates, then rounds until at most one node is left or a round returns early |
| Taxonomy.GetLcaOf | src/slimm.h:790-794 | the one-set overload is Lca with the candidates as their own valid set |
| Taxonomy.GetLcaOfVector | src/slimm.h:796-801 | the vector overload is Lca of the vector's elements as an ordered set |
| Taxonomy.LcaSmallFrontier | src/slimm.h:741-771 | with no valid candidate there is no LCA; with one, it is the LCA |
| Taxonomy.LcaIsAncestorOfSeed | src/slimm.h:736-772 | whatever getLCA returns is an ancestor of, or equal to, some valid candidate |
| Taxonomy.LcaSiblings | src/slimm.h:747-770 | two siblings under node 1 give 1 |
| Taxonomy.LcaChainMisses | src/slimm.h:756-760 | on the chain 3→2→1→0 with candidates {1, 2, 3}, getLCA returns 2, which is not an ancestor of candidate 1 |
| Counting.HitRefBins | src/slimm.h:845-882 | each bin of cov gains one hit per position that falls in it; each bin of uniqCov gains the same when the read is unique and nothing otherwise; uniqCov2 and noOfUniqReads2 are untouched |
| Counting.HitRef2Bins | src/slimm.h:985-993 | each bin of uniqCov2 gains one hit per position that falls in it; cov and uniqCov are untouched |
| Counting.HitRef2 | src/slimm.h:985-993 | a recount keeps the contig's shape and consistency and adds its positions to noOfUniqReads2 only |
| Counting.HitTargetsTotals | src/slimm.h:868-891 | an ambiguous read adds all its hits to the total of noOfReads and nothing to the unique counters |
| Counting.CountReadsTotals | src/slimm.h:835-893 | over all reads, the noOfReads total grows by every counted hit and the noOfUniqReads total by the hits of unique reads; noOfUniqReads2 is unchanged |
| Counting.CountReadsConsistent | src/slimm.h:835-893 | the counting pass keeps every contig's counters equal to its histogram totals |
| Counting.CountedHitsOfRead | src/slimm.h:838-891 | a read contributes at most its hits, and all of them unless it is unique with several targets (then only the first target counts) |
| Counting.TotalHitsAtLeastFirst | src/slimm.h:845 | the first target's hits are among the read's hits, and all of them when it is the only target |
| Counting.CovsNonEmpty | src/slimm.h:667-698 | both cutoff vectors have one value per reference with unique reads; they are empty exactly when no reference has one |
| Counting.UniqCutoffIntendedStable | src/slimm.h:683-698 | once computed, the unique-coverage cutoff is a value of the vector and is returned again on the next call |
| Counting.UniqCutoffAgreesBeforeCovCutoff | src/slimm.h:683-698 | while covCutoff() has not been computed, uniqCovCutoff() as written gives the corrected value at every call of a pass: with the unique memo unset, and with the memo holding the value an earlier call stored, which is that same value |
| Counting.FilterCutoffStored | src/slimm.h:683-698 | storing the answer of uniqCovCutoff() as written and asking again gives the same answer: with the coverage memo unset it is recomputed and is one of the unique percentages; with it set it is the unique memo |
| Counting.UniqCutoffStale | src/slimm.h:685 | after covCutoff() has run, uniqCovCutoff() as written returns its unset memo 0.0 where the intended cutoff is 0.5 |
| Counting.PassedTaxaMembers | src/slimm.h:951-961 | a taxon is made valid exactly when one of its references has reads and reaches the cutoff |
| Counting.PassOrFail | src/slimm.h:951-978 | every reference with reads either passes or is counted in failedByUniqCov, never both |
| Counting.RecountAllTotals | src/slimm.h:980-1004 | the recount adds the first-target hits of the reads unique among the valid taxa to the noOfUniqReads2 total and leaves the other counters alone |
| Counting.RecountAllConsistent | src/slimm.h:980-1004 | the recount keeps every contig consistent |
| Counting.AfterUpdateFits | src/slimm.h:982 | an updated read's targets still fall inside the references' bins |
| Counting.LengthsAcrossShape | src/slimm.h:359 | the lengths a read adds or drops depend only on the references' lengths, which counting never changes |
| Propagation.TaxaOf | src/slimm.h:1121-1124 | the taxa collected from a read are the taxa of its targets' references, target by target |
| Propagation.RefIdsOf | src/slimm.h:1121-1125 | the reference IDs collected are exactly those of the read's targets |
| Propagation.ReadLcaIsAncestor | src/slimm.h:1119-1127 | a read's LCA is an ancestor of, or equal to, the taxon of one of its targets |
| Propagation.ReadLcaOneTaxon | src/slimm.h:1119-1127 | a read whose targets all lie in one taxon has that taxon as its LCA |
| Propagation.AddReadAt | src/slimm.h:1128-1133 | assigning a read raises the LCA's count by one and joins the read's references to its set; other taxa are unchanged |
| Propagation.AssignReadsAt | src/slimm.h:1113-1136 | after the first loop, each taxon's count is its old count plus the number of reads not unique among the valid taxa whose LCA it is |
| Propagation.AssignReadsRefsAt | src/slimm.h:1113-1136 | after the first loop, each taxon's set gains exactly the references of the reads assigned to it |
| Propagation.AssignedRefsSound | src/slimm.h:1128 | every reference credited to a taxon comes from a read assigned to that taxon |
| Propagation.AssignedRefsComplete | src/slimm.h:1128 | every reference of a read assigned to a taxon is credited to that taxon |
| Propagation.AssignedOnlyToAncestors | src/slimm.h:1113-1136 | the first loop raises only the counts of taxa that are ancestors of, or equal to, the taxon of some target |
| Propagation.Touch | src/slimm.h:1143 | operator[] on a missing key inserts an empty set and changes no set |
| Propagation.PropagateKeysCounts | src/slimm.h:1138-1154 | after the second loop, each taxon's count is its old count plus the copied counts of the keys it lies above |
| Propagation.PropagateKeysChildren | src/slimm.h:1138-1154 | after the second loop a taxon's set holds a reference exactly when it held it before the loop or some key strictly below the taxon held it before the loop; sets read late in the loop add nothing more |
| Propagation.PropagateUniqueAt | src/slimm.h:1157-1172 | after the third loop, each taxon's count grows by the noOfUniqReads2 of the references with reads below it, and its set gains exactly those references' indices |
| Propagation.NotCreditedToOwnTaxon | src/slimm.h:1164-1172 | the third loop credits a reference to its taxon's proper ancestors only, never to the taxon itself |
| Paths.FindLastOf | src/slimm.h:548-554 | find_last_of returns the last position holding one of the characters, or none exactly when no such position exists |
| Paths.Find | src/slimm.h:561-562 | find returns the first occurrence of the pattern, or none exactly when it does not occur |
| Paths.SplitPath | src/slimm.h:546-556 | with a separator, directory + separator + file name rebuild the path and the file name holds no separator; without one, both helpers return the path whole |
| Paths.TsvOfAlignmentFile | src/slimm.h:558-566 | "stem.sam" and "stem.bam" with a dot-free stem become "stem.tsv" |
| Paths.TsvWithoutDot | src/slimm.h:561-563 | a name without a dot makes replace throw |
| Paths.TsvOtherwise | src/slimm.h:561-564 | when the last dot starts neither the first ".sam" nor the first ".bam", ".tsv" is appended to the whole name |
| Paths.TsvCutsInsideExtension | src/slimm.h:561-563 | "x.samples" becomes "xples.tsv" |
| Paths.RankedTsvOfAlignmentFile | src/slimm.h:568-574 | "stem.sam" or "stem.bam" with a rank becomes "stem_sp_reported.tsv" for species and "stem_<rank>_reported.tsv" otherwise |
| Paths.RankedTsvShortName | src/slimm.h:573 | a name shorter than four characters makes insert throw |
| Engine.CountedReadsAt | src/slimm.h:835-893 | after the counting pass, each read keeps its targets and its sumRefLengths has gained what CountedSum gives |
| Engine.UpdatedReadsAt | src/slimm.h:980-983 | after the filtering pass, each read is its updated self |
| Engine.UpdatedReadsTargets | src/slimm.h:980-983 | the targets of the updated reads are the updated targets |
| Engine.Slimm.constructor | src/slimm.h:269-305 | a new engine holds the given references, taxa and reads, with every counter zero, both memos unset and empty maps; it satisfies the class invariant exactly when the taxa match the references, the references are consistent and every read fits them |
| Engine.Slimm.HitPositions | src/slimm.h:845-882 | the loop over a target's positions leaves the reference list equal to HitRef applied at that reference |
| Engine.Slimm.CountUniqueRead | src/slimm.h:838-865 | a unique read increments noOfUniqlyMatched, adds its first target's hits to uniqHitCount and counts them on that reference; it adds the stale record's length and its own reference's length to sumRefLengths |
| Engine.Slimm.CountAmbiguousRead | src/slimm.h:866-892 | an ambiguous read counts every target's hits in noOfReads and cov and adds every target's length to sumRefLengths |
| Engine.Slimm.CountAlignment | src/slimm.h:837-892 | one read of the counting loop leaves the references equal to CountRead and the counters raised by its unique hits |
| Engine.Slimm.CountAlignments | src/slimm.h:833-894 | the counting loop leaves the references equal to CountReads over all reads and the reads equal to CountedReads; it raises the counters by UniqReadCount and UniqHits, sets noOfMatched to the number of reads and keeps Valid |
| Engine.Slimm.CovValues | src/slimm.h:671-677 | the loop collects covPercent of each reference with unique reads, in order |
| Engine.Slimm.UniqCovValues | src/slimm.h:687-693 | the loop collects uniqCovPercent of each reference with unique reads, in order |
| Engine.Slimm.CovCutoff | src/slimm.h:667-682 | covCutoff returns the memo when it is set; otherwise it stores and returns the quantile cutoff, which is one of the collected values |
| Engine.Slimm.UniqCovCutoff | src/slimm.h:683-698 | uniqCovCutoff as written: it recomputes while the covCutoff memo is unset and otherwise returns its own memo |
| Engine.Slimm.UniqCovCutoffIntended | src/slimm.h:683-698 | uniqCovCutoff guarded by its own memo: it returns the memo once set, and the first value is one of the collected values |
| Engine.Slimm.ValidateReference | src/slimm.h:953-976 | one reference with reads either adds its taxon to validRefTaxonIDs or increments failedByUniqCov, according to the cutoff uniqCovCutoff() as written returns, which is then left in the unique memo; a reference without reads changes nothing |
| Engine.Slimm.ValidateReferences | src/slimm.h:951-978 | for any memo state, the loop adds PassedTaxa to validRefTaxonIDs and FailCount to failedByUniqCov, both at the value uniqCovCutoff() as written returns; the unique memo then holds that value if some reference has reads, and is unchanged otherwise |
| Engine.Slimm.HitPositions2 | src/slimm.h:985-993 | the recount of one read leaves the references equal to HitRef2 at its reference |
| Engine.Slimm.RecountAlignment | src/slimm.h:982-994 | one read is updated, and its first target's hits are counted when it is unique among the valid taxa |
| Engine.Slimm.RecountUniqueReads | src/slimm.h:980-1004 | the recount loop replaces every read by its update; the references become RecountAll and noOfUniqlyMatched2 grows by UniqHits2 |
| Engine.Slimm.FilterAlignments | src/slimm.h:949-1004 | filterAlignments is the validation loop followed by the recount loop, with both effects as above, including the new value of the unique memo |
| Engine.Slimm.ClimbFrom | src/slimm.h:1144-1153 | the while loop adds the amount to, and joins the set to, every proper ancestor of the start: the Climb of the start |
| Engine.Slimm.CollectTargets | src/slimm.h:1118-1126 | the loop collects the reference IDs and the ordered set of taxa of the read's targets |
| Engine.Slimm.AddToTaxon | src/slimm.h:1128-1133 | one more read for the taxon and its references joined to the taxon's set |
| Engine.Slimm.AssignToLca | src/slimm.h:1115-1134 | a read not unique among the valid taxa is assigned to the LCA of its taxa |
| Engine.Slimm.AssignAmbiguousReads | src/slimm.h:1113-1136 | the first loop leaves the maps equal to AssignReads over all reads, in map order |
| Engine.Slimm.PropagateAssigned | src/slimm.h:1138-1154 | the second loop leaves the maps equal to PropagateKeys over the copied counts |
| Engine.Slimm.PropagateUniqueReads | src/slimm.h:1157-1180 | the third loop leaves the maps equal to PropagateUnique over all references |
| Engine.Slimm.GetReadLcaCount | src/slimm.h:1109-1181 | getReadLCACount is the three loops in turn |

## Left out

- BAM/SAM parsing, the computation of each alignment's bin number, and
  the construction of the reference list and the read map. They are I/O
  in `slimm.cpp`, which is not part of this model. The reads, references
  and taxonomy are parameters.
- The writers, the statistics printout, the command line, `getTaxaId`,
  the abundance loops of `analyzeAlignments` (lines 896-945) and
  `filterAlignments` (1007-1029), and `taxaID2Abundance`. The abundance
  climb inside the third loop (1163, 1174-1177) is float arithmetic that
  no counted quantity depends on.
- `hitCount`, `avgQLength` and the `concatQLength` sum (837). They are
  integer statistics: `hitCount` counts the mapped alignment records
  (826), and `avgQLength` is the integer mean read length (897). Only the
  abundance code, `expCov` and the report read them (909, 701, 1222).
- `minReads`, `minUniqReads` (703-734) and `expCov`. The filter at
  951-978 does not call them; their uses are commented out.
- The `isUniq(taxaIDs)` overload (256). It is declared and never defined.
- `float` is modelled as `real`. Rounding is ignored, so the quantile
  cutoff, the coverage percentages and their comparisons are exact.
- 32-bit counters: only `sumRefLengths` wraps (`Wrap32`). The other
  counters (`noOfReads`, `uniqHitCount`, `binsHeight` and so on) are
  unbounded `nat`s.
- The iteration order of `unordered_map` and `std::map`. `readList` is
  taken to be the read map's values in its order. The second loop takes
  the key order of the copied counts as the parameter `order`.
- Engine.Slimm.CountAlignments requires `lastRecordRID < |references|`.
  The stale `record.rID` at line 841 is the reference of the last record
  read from the alignment file, which this model does not see.
- Engine.Slimm.GetReadLcaCount and the other climbs require
  `WellFormed(nodes, rank)`: every parent link leads to a strictly lower
  rank. A cycle that does not pass through 0 (for example a root other
  than 0 that is its own parent) would make the C++ climbs loop forever.
  `WellFormed` also excludes an entry 0 -> 0 and any cycle through 0,
  although the source tolerates them: the climbs stop at 0 (lines 1144
  and 1164) and never follow its parent link.
- Taxonomy.GetLca returns `None` where the C++ dereferences `begin()` of
  an empty set. That happens when no candidate is valid, or when a round
  leaves an empty frontier. A read whose targets were all dropped by
  `update` is then skipped in the first loop instead of being counted
  under an undefined taxon.
- Quantile.GetCutoffByQuantile requires a non-empty vector. The C++
  indexes `vals.size() - 1` of an empty vector, which is undefined.
  Engine.Slimm.CovCutoff and the other cutoffs require
  `HasUniqueReads` (at least one reference with unique reads) when the
  memo is unset, for the same reason. Engine.Slimm.FilterAlignments,
  Engine.Slimm.ValidateReferences and Engine.Slimm.ValidateReference
  require `CutoffDefined`. This excludes the one state in which the C++
  pass is undefined: the coverage memo is unset, some reference has
  reads, and no reference has unique reads.
- CoverageTracker.CovFraction requires at least one bin. For a
  zero-length reference, the C++ divides 0 by 0.
- The `isValid` flag, `refName` and the relative-abundance fields of a
  contig are not modelled; the core does not read them.
- Positions inside the bins of their reference, and targets inside the
  reference list, are preconditions (`Valid`). The C++ indexes without a
  check.
- `sumRefLengths` is computed but never read in the core. The model
  keeps it exact modulo 2^32 and proves nothing further about it.
- Three descriptions of the system differ from the code. The model follows
  the code in all three:
  - The quantile cutoff of [1, 2, 3, 4, 10] at 0.5 is described as 10;
    the loop returns 4, the value just below the one that reaches the
    share (Quantile.QuantileExample).
  - `getLCA` is described as returning the lowest common ancestor. Its
    early return at lines 756-760 can return a node that is not an
    ancestor of every candidate (Taxonomy.LcaChainMisses).
  - `isUniq()` is described as true for at most one target, and the
    among-valid-taxa check as true for at most one distinct valid taxon.
    Both return false for a read with no targets (lines 310-311 and
    321-322), and so do ReadTargets.Read.IsUniq and ReadTargets.UniqAmong.

## Findings

| source | as written | input that shows it | evidently intended | confidence | as-written member | corrected member |
|---|---|---|---|---|---|---|
| src/slimm.h:685 | `uniqCovCutoff()` tests `_covCutoff == 0.0`, the memo of `covCutoff()`, instead of its own `_uniqCovCutoff` | one reference with unique reads covering 1 of 2 bins, after `covCutoff()` has run: the result is the unset memo 0.0, not 0.5 | test `_uniqCovCutoff == 0.0`, so the cutoff is computed once and then reused | not executed; latent in this core, which calls `covCutoff()` only after filtering | Counting.UniqCutoffStale | Counting.UniqCutoffIntendedStable |

The engine calls `uniqCovCutoff()` as written (Engine.Slimm.UniqCovCutoff)
in the validation pass, for every memo state. Within this core the
coverage memo is still 0.0 at that point, because `covCutoff()` is first
called after `filterAlignments`. There the as-written and the corrected
cutoffs agree at every call of the pass: the unique memo is either unset
or holds the value the first call stored, and both give that value
(Counting.UniqCutoffAgreesBeforeCovCutoff). The
corrected Engine.Slimm.UniqCovCutoffIntended is the method to use once
`covCutoff()` may run first.
