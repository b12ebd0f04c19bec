/**
 * The quantile cutoff estimator (getCutoffByQuantile, src/slimm.h:393-410):
 * sort a copy of the observations, then walk down from the largest, adding
 * each to a running sum, while the running sum is below the fraction `q` of
 * the total; the element the walk stops at is the cutoff.
 */
module Quantile {

  /** std::accumulate over the observations. */
  function Total(s: seq<real>): real
  {
    if s == [] then 0.0 else s[0] + Total(s[1..])
  }

  predicate SortedAsc(s: seq<real>)
  {
    forall i, j :: 0 <= i < j < |s| ==> s[i] <= s[j]
  }

  /** Insert `x` into an ascending sequence, before the first element not below it. */
  function Insert(x: real, s: seq<real>): seq<real>
  {
    if s == [] then [x]
    else if x <= s[0] then [x] + s
    else [s[0]] + Insert(x, s[1..])
  }

  /** Insertion adds exactly `x`: one more occurrence of it, and `x` more in the total. */
  lemma {:induction false} InsertAdds(x: real, s: seq<real>)
    ensures multiset(Insert(x, s)) == multiset(s) + multiset{x}
    ensures Total(Insert(x, s)) == x + Total(s)
  {
    if s != [] {
      assert s == [s[0]] + s[1..];
      if x <= s[0] {
        assert ([x] + s)[1..] == s;
      } else {
        var rest := Insert(x, s[1..]);
        InsertAdds(x, s[1..]);
        assert ([s[0]] + rest)[1..] == rest;
      }
    }
  }

  /** Insertion keeps an ascending sequence ascending. */
  lemma {:induction false} InsertSorted(x: real, s: seq<real>)
    requires SortedAsc(s)
    ensures SortedAsc(Insert(x, s))
  {
    if s != [] && x > s[0] {
      var rest := Insert(x, s[1..]);
      InsertSorted(x, s[1..]);
      InsertAbove(x, s[1..], s[0]);
      var r := [s[0]] + rest;
      forall i, j | 0 <= i < j < |r|
        ensures r[i] <= r[j]
      {
        assert r[j] == rest[j - 1];
        if i > 0 {
          assert r[i] == rest[i - 1];
        }
      }
    }
  }

  /** A lower bound of `x` and of every element of `s` bounds every element of the insertion. */
  lemma {:induction false} InsertAbove(x: real, s: seq<real>, b: real)
    requires b <= x && forall k :: 0 <= k < |s| ==> b <= s[k]
    ensures forall j :: 0 <= j < |Insert(x, s)| ==> b <= Insert(x, s)[j]
  {
    if s != [] && x > s[0] {
      InsertAbove(x, s[1..], b);
      var rest := Insert(x, s[1..]);
      assert forall j :: 0 < j < |[s[0]] + rest| ==> ([s[0]] + rest)[j] == rest[j - 1];
    }
  }

  /** std::sort of the copy: ascending, the same observations, the same total. */
  function SortAsc(s: seq<real>): (r: seq<real>)
    ensures SortedAsc(r)
    ensures multiset(r) == multiset(s) && |r| == |s|
    ensures Total(r) == Total(s)
  {
    if s == [] then []
    else
      var rest := SortAsc(s[1..]);
      assert s == [s[0]] + s[1..];
      InsertAdds(s[0], rest);
      InsertSorted(s[0], rest);
      Insert(s[0], rest)
  }

  /** Sorting a sequence that is already ascending leaves it as it is. */
  lemma {:induction false} SortAscOfSorted(s: seq<real>)
    requires SortedAsc(s)
    ensures SortAsc(s) == s
  {
    if s != [] {
      SortAscOfSorted(s[1..]);
      assert s == [s[0]] + s[1..];
    }
  }

  /**
   * `subTotal / total < q` as a float comparison: dividing by a zero total
   * gives NaN for a zero running sum and an infinity otherwise, and only
   * minus infinity compares below q.
   */
  predicate Below(subTotal: real, total: real, q: real)
  {
    if total == 0.0 then subTotal < 0.0 else subTotal / total < q
  }

  /** Where the walk that starts at index `i` with running sum `subTotal` stops. */
  function CutoffIndex(vals: seq<real>, total: real, q: real, i: nat, subTotal: real): (k: nat)
    requires i < |vals|
    ensures k <= i
    decreases i
  {
    if Below(subTotal, total, q) && i > 0 then CutoffIndex(vals, total, q, i - 1, subTotal + vals[i])
    else i
  }

  /** The index, in the sorted copy, of the cutoff. */
  function QuantileIndex(v: seq<real>, q: real): (k: nat)
    requires |v| > 0
    ensures k < |v|
  {
    var vals := SortAsc(v);
    CutoffIndex(vals, Total(v), q, |vals| - 1, 0.0)
  }

  function QuantileCutoff(v: seq<real>, q: real): real
    requires |v| > 0
  {
    SortAsc(v)[QuantileIndex(v, q)]
  }

  /** The running sum after the walk has added everything above index `j`. */
  function MassAbove(vals: seq<real>, j: nat): real
    requires j < |vals|
  {
    Total(vals[j + 1..])
  }

  /**
   * The walk stops at `k`: the mass strictly above `k` has reached the
   * fraction (or `k` is the bottom), and the mass strictly above every
   * higher index had not.
   */
  ghost predicate StopsAt(vals: seq<real>, total: real, q: real, k: nat)
  {
    && k < |vals|
    && (k == 0 || !Below(MassAbove(vals, k), total, q))
    && forall j :: k < j < |vals| ==> Below(MassAbove(vals, j), total, q)
  }

  lemma {:induction false} CutoffIndexStops(vals: seq<real>, total: real, q: real, i: nat, subTotal: real)
    requires i < |vals|
    requires subTotal == MassAbove(vals, i)
    requires forall j :: i < j < |vals| ==> Below(MassAbove(vals, j), total, q)
    ensures StopsAt(vals, total, q, CutoffIndex(vals, total, q, i, subTotal))
  {
    if Below(subTotal, total, q) && i > 0 {
      assert vals[i..] == [vals[i]] + vals[i + 1..];
      assert MassAbove(vals, i - 1) == vals[i] + subTotal;
      CutoffIndexStops(vals, total, q, i - 1, subTotal + vals[i]);
    }
  }

  /** At most one index satisfies the stopping condition. */
  lemma StopsAtUnique(vals: seq<real>, total: real, q: real, k1: nat, k2: nat)
    requires StopsAt(vals, total, q, k1) && StopsAt(vals, total, q, k2)
    ensures k1 == k2
  {
  }

  /** The cutoff is where the walk stops, and it is one of the observations. */
  lemma QuantileCutoffSpec(v: seq<real>, q: real)
    requires |v| > 0
    ensures StopsAt(SortAsc(v), Total(v), q, QuantileIndex(v, q))
    ensures QuantileCutoff(v, q) in v
  {
    var vals := SortAsc(v);
    CutoffIndexStops(vals, Total(v), q, |vals| - 1, 0.0);
    assert vals[QuantileIndex(v, q)] in multiset(vals);
  }

  /** A fraction of zero or less stops the walk at once: the cutoff is the largest observation. */
  lemma QuantileNonPositive(v: seq<real>, q: real)
    requires |v| > 0 && q <= 0.0
    ensures forall x :: x in v ==> x <= QuantileCutoff(v, q)
  {
    var vals := SortAsc(v);
    var n := |vals|;
    assert !Below(0.0, Total(v), q);
    assert QuantileIndex(v, q) == n - 1;
    forall x | x in v
      ensures x <= vals[n - 1]
    {
      assert x in multiset(vals);
      var j :| 0 <= j < n && vals[j] == x;
    }
  }

  lemma {:induction false} TotalConcat(a: seq<real>, b: seq<real>)
    ensures Total(a + b) == Total(a) + Total(b)
  {
    if a == [] {
      assert a + b == b;
    } else {
      assert (a + b)[1..] == a[1..] + b;
      TotalConcat(a[1..], b);
    }
  }

  lemma {:induction false} TotalNonNegative(s: seq<real>)
    requires forall i :: 0 <= i < |s| ==> s[i] >= 0.0
    ensures Total(s) >= 0.0
    ensures Total(s) == 0.0 ==> forall i :: 0 <= i < |s| ==> s[i] == 0.0
  {
    if s != [] {
      TotalNonNegative(s[1..]);
      assert forall i :: 1 <= i < |s| ==> s[i] == s[1..][i - 1];
    }
  }

  /** A share of a positive total that reaches a fraction of one or more is the whole total. */
  lemma ShareReachesAll(high: real, total: real, q: real)
    requires total > 0.0 && high <= total && q >= 1.0
    requires !Below(high, total, q)
    ensures high == total
  {
    var f := high / total;
    assert f >= 1.0;
    assert high == f * total;
    assert (f - 1.0) * total >= 0.0;
  }

  /** When the walk stops above the bottom on non-negative sorted values with q >= 1, the stop value is zero. */
  lemma BottomIsZero(vals: seq<real>, total: real, q: real, k: nat)
    requires StopsAt(vals, total, q, k) && 0 < k && q >= 1.0
    requires total == Total(vals)
    requires forall i :: 0 <= i < |vals| ==> vals[i] >= 0.0
    ensures vals[k] == 0.0
  {
    var low := vals[..k + 1];
    var high := vals[k + 1..];
    assert vals == low + high;
    TotalConcat(low, high);
    TotalNonNegative(low);
    TotalNonNegative(high);
    if total == 0.0 {
      TotalNonNegative(vals);
    } else {
      assert MassAbove(vals, k) == Total(high);
      ShareReachesAll(Total(high), total, q);
      assert low[k] == vals[k];
    }
  }

  /**
   * With non-negative observations and a fraction of one or more, the walk
   * only stops once everything below it sums to zero: the cutoff is the
   * smallest observation.
   */
  lemma QuantileFullMass(v: seq<real>, q: real)
    requires |v| > 0 && q >= 1.0
    requires forall i :: 0 <= i < |v| ==> v[i] >= 0.0
    ensures forall x :: x in v ==> QuantileCutoff(v, q) <= x
  {
    var vals := SortAsc(v);
    var total := Total(v);
    var k := QuantileIndex(v, q);
    QuantileCutoffSpec(v, q);
    forall i | 0 <= i < |vals|
      ensures vals[i] >= 0.0
    {
      assert vals[i] in multiset(v);
    }
    if k > 0 {
      BottomIsZero(vals, total, q, k);
    }
    forall x | x in v
      ensures vals[k] <= x
    {
      assert x in multiset(vals);
      var j :| 0 <= j < |vals| && vals[j] == x;
    }
  }

  /**
   * getCutoffByQuantile: the input is taken by value and only a sorted copy
   * is walked; the size()-1 start index needs a non-empty input.
   */
  method GetCutoffByQuantile(v: seq<real>, q: real) returns (cutoff: real)
    requires |v| > 0
    ensures cutoff == QuantileCutoff(v, q)
    ensures cutoff in v
  {
    var total := Total(v);
    var subTotal := 0.0;
    var vals := SortAsc(v);
    var i := |vals| - 1;
    while Below(subTotal, total, q) && i > 0
      invariant 0 <= i < |vals|
      invariant CutoffIndex(vals, total, q, i, subTotal) == QuantileIndex(v, q)
    {
      subTotal := subTotal + vals[i];
      i := i - 1;
    }
    cutoff := vals[i];
    QuantileCutoffSpec(v, q);
  }

  /** On observations that are already ascending, the cutoff is read off them directly. */
  lemma QuantileOfSorted(v: seq<real>, q: real)
    requires |v| > 0 && SortedAsc(v)
    ensures QuantileCutoff(v, q) == v[CutoffIndex(v, Total(v), q, |v| - 1, 0.0)]
  {
    SortAscOfSorted(v);
  }

  /**
   * The example of observations 1, 2, 3, 4, 10 with fraction 0.5: the walk
   * adds 10, which is half of 20, and stops on the next value, 4.
   */
  lemma QuantileExample(v: seq<real>)
    requires v == [1.0, 2.0, 3.0, 4.0, 10.0]
    ensures QuantileCutoff(v, 0.5) == 4.0
  {
    assert Total(v) == 20.0 by {
      assert v[4..][1..] == [];
      assert v[3..][1..] == v[4..];
      assert v[2..][1..] == v[3..];
      assert v[1..][1..] == v[2..];
      assert Total(v[4..]) == 10.0;
      assert Total(v[3..]) == 14.0;
      assert Total(v[2..]) == 17.0;
      assert Total(v[1..]) == 19.0;
    }
    assert CutoffIndex(v, 20.0, 0.5, 4, 0.0) == 3 by {
      assert Below(0.0, 20.0, 0.5) && !Below(10.0, 20.0, 0.5);
      assert CutoffIndex(v, 20.0, 0.5, 3, 10.0) == 3;
    }
    assert SortedAsc(v);
    QuantileOfSorted(v, 0.5);
  }
}
