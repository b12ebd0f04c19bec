/**
 * The coverage tracker of one reference sequence: a histogram of read hits
 * over fixed-width bins (class Coverage, src/slimm.h:150-180), and the
 * functions on bin heights that the counting passes and the coverage
 * percentage use.
 */
module CoverageTracker {

  /** Number of bins of width `width` that cover `totalLen` positions: the integer division, plus one when it leaves a remainder. */
  function BinCount(totalLen: nat, width: nat): (n: nat)
    requires width > 0
    ensures n * width >= totalLen
    ensures n > 0 ==> (n - 1) * width < totalLen
    ensures totalLen == 0 <==> n == 0
  {
    var q := totalLen / width;
    DivBounds(totalLen, width);
    q + (if q * width < totalLen then 1 else 0)
  }

  /** The quotient of the division bounds the dividend from both sides. */
  lemma DivBounds(t: nat, w: nat)
    requires w > 0
    ensures (t / w) * w <= t < (t / w) * w + w
    ensures (t / w + 1) * w == (t / w) * w + w
    ensures t / w > 0 ==> (t / w - 1) * w == (t / w) * w - w
  {
    var q, r := t / w, t % w;
    assert t == q * w + r;
    MulSucc(q, w);
    if q > 0 {
      MulSucc(q - 1, w);
    }
  }

  lemma MulSucc(a: nat, b: nat)
    ensures (a + 1) * b == a * b + b
  {
  }

  /** `n` empty bins. */
  function Zeros(n: nat): (s: seq<nat>)
    ensures |s| == n
    ensures forall i :: 0 <= i < n ==> s[i] == 0
  {
    seq(n, _ => 0)
  }

  /** Total height of a histogram: the number of hits it holds. */
  function Sum(s: seq<nat>): nat
  {
    if s == [] then 0 else Sum(s[..|s| - 1]) + s[|s| - 1]
  }

  /** How many bins are empty (std::count of 0 over the heights). */
  function CountZeros(s: seq<nat>): nat
  {
    if s == [] then 0 else CountZeros(s[..|s| - 1]) + (if s[|s| - 1] == 0 then 1 else 0)
  }

  /** The indices of the bins that hold at least one hit. */
  ghost function OccupiedBins(s: seq<nat>): set<nat>
  {
    set i: nat | i < |s| && s[i] > 0
  }

  /** The number of non-zero bins, as the source computes it: all bins minus the empty ones. */
  function CoveredBins(s: seq<nat>): (r: nat)
    ensures r == |OccupiedBins(s)|
    ensures r <= |s|
  {
    CoveredBinsIsOccupied(s);
    |s| - CountZeros(s)
  }

  lemma {:induction false} CoveredBinsIsOccupied(s: seq<nat>)
    ensures CountZeros(s) <= |s|
    ensures |s| - CountZeros(s) == |OccupiedBins(s)|
  {
    if s != [] {
      var n := |s| - 1;
      var p := s[..n];
      CoveredBinsIsOccupied(p);
      if s[n] > 0 {
        assert OccupiedBins(s) == OccupiedBins(p) + {n};
        assert n !in OccupiedBins(p);
      } else {
        assert OccupiedBins(s) == OccupiedBins(p);
      }
    }
  }

  /** A histogram covers some bin exactly when it holds some hit. */
  lemma {:induction false} CoveredIffHit(s: seq<nat>)
    ensures CoveredBins(s) > 0 <==> Sum(s) > 0
  {
    if s != [] {
      var p := s[..|s| - 1];
      CoveredIffHit(p);
      assert CoveredBins(s) == CoveredBins(p) + (if s[|s| - 1] > 0 then 1 else 0);
    }
  }

  /** Adding one hit to bin `i` adds one to the total height. */
  lemma {:induction false} SumIncrement(s: seq<nat>, i: nat)
    requires i < |s|
    ensures Sum(s[i := s[i] + 1]) == Sum(s) + 1
  {
    var t := s[i := s[i] + 1];
    var n := |s| - 1;
    if i < n {
      assert t[..n] == s[..n][i := s[i] + 1];
      SumIncrement(s[..n], i);
    } else {
      assert t[..n] == s[..n];
    }
  }

  /** The histogram after one hit is recorded at each of the first `n` positions, in order. */
  function AddHitsFirst(heights: seq<nat>, positions: seq<nat>, n: nat): (r: seq<nat>)
    requires n <= |positions| && forall j :: 0 <= j < |positions| ==> positions[j] < |heights|
    ensures |r| == |heights|
  {
    if n == 0 then heights
    else
      var before := AddHitsFirst(heights, positions, n - 1);
      before[positions[n - 1] := before[positions[n - 1]] + 1]
  }

  /** The histogram after one hit is recorded at each of `positions`, in order. */
  function AddHits(heights: seq<nat>, positions: seq<nat>): (r: seq<nat>)
    requires forall j :: 0 <= j < |positions| ==> positions[j] < |heights|
    ensures |r| == |heights|
  {
    AddHitsFirst(heights, positions, |positions|)
  }

  lemma {:induction false} AddHitsFirstAt(heights: seq<nat>, positions: seq<nat>, n: nat, x: nat)
    requires n <= |positions| && forall j :: 0 <= j < |positions| ==> positions[j] < |heights|
    requires x < |heights|
    ensures AddHitsFirst(heights, positions, n)[x] == heights[x] + multiset(positions[..n])[x]
  {
    if n > 0 {
      assert positions[..n] == positions[..n - 1] + [positions[n - 1]];
      AddHitsFirstAt(heights, positions, n - 1, x);
    }
  }

  /** Each bin grows by the number of times its index occurs among the positions. */
  lemma AddHitsAt(heights: seq<nat>, positions: seq<nat>, x: nat)
    requires forall j :: 0 <= j < |positions| ==> positions[j] < |heights|
    requires x < |heights|
    ensures AddHits(heights, positions)[x] == heights[x] + multiset(positions)[x]
  {
    AddHitsFirstAt(heights, positions, |positions|, x);
    assert positions[..|positions|] == positions;
  }

  lemma {:induction false} AddHitsFirstSum(heights: seq<nat>, positions: seq<nat>, n: nat)
    requires n <= |positions| && forall j :: 0 <= j < |positions| ==> positions[j] < |heights|
    ensures Sum(AddHitsFirst(heights, positions, n)) == Sum(heights) + n
  {
    if n > 0 {
      AddHitsFirstSum(heights, positions, n - 1);
      SumIncrement(AddHitsFirst(heights, positions, n - 1), positions[n - 1]);
    }
  }

  /** Recording the positions adds exactly one hit per position to the histogram's total. */
  lemma AddHitsSum(heights: seq<nat>, positions: seq<nat>)
    requires forall j :: 0 <= j < |positions| ==> positions[j] < |heights|
    ensures Sum(AddHits(heights, positions)) == Sum(heights) + |positions|
  {
    AddHitsFirstSum(heights, positions, |positions|);
  }

  /** The fraction of bins covered, for a histogram with at least one bin (float division in getCovPercent). */
  function CovFraction(heights: seq<nat>): (f: real)
    requires |heights| > 0
    ensures 0.0 <= f <= 1.0
    ensures f > 0.0 <==> Sum(heights) > 0
  {
    CoveredIffHit(heights);
    (CoveredBins(heights) as real) / (|heights| as real)
  }

  class Coverage {
    var binWidth: nat
    var noOfBins: nat
    var binsHeight: seq<nat>
    /** `_noOfNonZeroBins`: -1 until NoOfNonZeroBins first runs, the cached count afterwards. */
    var nonZeroMemo: int

    ghost predicate Valid()
      reads this
    {
      |binsHeight| == noOfBins && nonZeroMemo >= -1
    }

    /** The cache is either empty or agrees with the current heights. */
    ghost predicate MemoFresh()
      reads this
    {
      nonZeroMemo == -1 || nonZeroMemo == CoveredBins(binsHeight)
    }

    /** The default constructor: width 1000, no bins. */
    constructor Default()
      ensures Valid() && MemoFresh()
      ensures binWidth == 1000 && noOfBins == 0 && binsHeight == [] && nonZeroMemo == -1
    {
      binWidth := 1000;
      noOfBins := 0;
      binsHeight := [];
      nonZeroMemo := -1;
    }

    /** A histogram over `totalLen` positions with bins of `width`: ceil(totalLen / width) empty bins. */
    constructor (totalLen: nat, width: nat)
      requires width > 0
      ensures Valid() && MemoFresh()
      ensures binWidth == width && noOfBins == BinCount(totalLen, width)
      ensures binsHeight == Zeros(noOfBins) && nonZeroMemo == -1
    {
      binWidth := width;
      noOfBins := BinCount(totalLen, width);
      binsHeight := Zeros(BinCount(totalLen, width));
      nonZeroMemo := -1;
    }

    /** Number of bins with at least one hit, computed on the first call and cached behind the -1 sentinel. */
    method NoOfNonZeroBins() returns (r: nat)
      requires Valid()
      modifies this`nonZeroMemo
      ensures Valid() && nonZeroMemo == r
      ensures old(nonZeroMemo) == -1 ==> r == noOfBins - CountZeros(binsHeight) == |OccupiedBins(binsHeight)|
      ensures old(nonZeroMemo) != -1 ==> r == old(nonZeroMemo)
      ensures old(MemoFresh()) ==> MemoFresh() && r == CoveredBins(binsHeight)
    {
      if nonZeroMemo == -1 {
        CoveredBinsIsOccupied(binsHeight);
        nonZeroMemo := noOfBins - CountZeros(binsHeight);
      }
      r := nonZeroMemo;
    }
  }
}
