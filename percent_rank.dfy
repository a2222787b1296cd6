/**
  The exclusive percentile rank `excel_percentrank_exc` (identical in
  transform_betas.py and streamlit_app.py), with the right-side binary search
  `np.searchsorted(..., side="right")` it relies on.
*/
module PercentRank {
  import opened Options
  import opened Sorting

  /**
    Right-side insertion point of x in the sorted sequence a: every element
    before it is at most x, every element from it on is larger than x.
  */
  function SearchSortedRight(a: seq<real>, x: real): (idx: nat)
    requires Sorted(a)
    ensures idx <= |a|
    ensures forall i :: 0 <= i < idx ==> a[i] <= x
    ensures forall i :: idx <= i < |a| ==> x < a[i]
  {
    Bisect(a, x, 0, |a|)
  }

  /** One halving step of the search over the undecided window a[lo..hi]. */
  function Bisect(a: seq<real>, x: real, lo: nat, hi: nat): (idx: nat)
    requires Sorted(a) && lo <= hi <= |a|
    requires forall i :: 0 <= i < lo ==> a[i] <= x
    requires forall i :: hi <= i < |a| ==> x < a[i]
    ensures lo <= idx <= hi
    ensures forall i :: 0 <= i < idx ==> a[i] <= x
    ensures forall i :: idx <= i < |a| ==> x < a[i]
    decreases hi - lo
  {
    if lo == hi then lo
    else
      var mid := (lo + hi) / 2;
      if a[mid] <= x then Bisect(a, x, mid + 1, hi) else Bisect(a, x, lo, mid)
  }

  /**
    Exclusive percentile rank of x in the ascending population a. Undefined for
    a population of fewer than two values and for x outside [min, max]; the
    minimum and the maximum get 1/(n+1) and n/(n+1); an interior x is placed at
    the 0-based slot k = (number of elements <= x) - 1 and interpolated towards
    slot k + 1.
  */
  function PercentRankExc(a: seq<real>, x: real): (r: Option<real>)
    requires Sorted(a)
    ensures r.None? <==> |a| < 2 || x < a[0] || x > a[|a| - 1]
    ensures r.Some? ==> 0.0 < r.value < 1.0
    ensures |a| >= 2 && x == a[0] ==> r == Some(1.0 / (|a| + 1) as real)
    ensures |a| >= 2 && x == a[|a| - 1] && x != a[0] ==> r == Some(|a| as real / (|a| + 1) as real)
  {
    var n := |a|;
    if n < 2 then None
    else if x < a[0] || x > a[n - 1] then None
    else if x == a[0] then Some(1.0 / (n + 1) as real)
    else if x == a[n - 1] then Some(n as real / (n + 1) as real)
    else Some(Interpolated(a, x))
  }

  /**
    The interior case: x sits at the 0-based slot k = (number of elements
    <= x) - 1 and is interpolated towards slot k + 1.
  */
  function Interpolated(a: seq<real>, x: real): (r: real)
    requires Sorted(a) && |a| >= 2 && a[0] < x < a[|a| - 1]
    ensures 0.0 < r < 1.0
  {
    var n := |a|;
    var idx := SearchSortedRight(a, x);
    assert 1 <= idx <= n - 1;
    var k := idx - 1;
    assert a[k] <= x < a[k + 1];
    var fraction := (x - a[k]) / (a[k + 1] - a[k]);
    FractionBounds(a[k], x, a[k + 1]);
    assert k == 0 ==> 0.0 < fraction by {
      if k == 0 { FractionPositive(a[k], x, a[k + 1]); }
    }
    RankBounds(k, fraction, n);
    (k as real + fraction) / (n + 1) as real
  }

  /** The interpolation weight between two bracketing neighbours lies in [0, 1). */
  lemma FractionBounds(lo: real, x: real, hi: real)
    requires lo <= x < hi
    ensures 0.0 <= (x - lo) / (hi - lo) < 1.0
  {
    var d := hi - lo;
    assert (x - lo) / d < d / d == 1.0;
  }

  lemma FractionPositive(lo: real, x: real, hi: real)
    requires lo < x < hi
    ensures 0.0 < (x - lo) / (hi - lo)
  {
  }

  lemma RankBounds(k: nat, fraction: real, n: nat)
    requires k + 2 <= n
    requires 0.0 <= fraction < 1.0
    requires k == 0 ==> 0.0 < fraction
    ensures 0.0 < (k as real + fraction) / (n + 1) as real < 1.0
  {
    var m := (n + 1) as real;
    assert 0.0 < k as real + fraction < m;
    assert (k as real + fraction) / m * m == k as real + fraction;
  }

  /**
    In the interior case the rank is determined by ANY slot k that brackets x
    (a[k] <= x < a[k+1]): the binary search finds exactly that slot.
  */
  lemma {:induction false} InteriorRank(a: seq<real>, x: real, k: nat)
    requires Sorted(a)
    requires k + 1 < |a| && a[k] <= x < a[k + 1]
    requires a[0] < x < a[|a| - 1]
    ensures a[k + 1] - a[k] > 0.0
    ensures PercentRankExc(a, x)
         == Some((k as real + (x - a[k]) / (a[k + 1] - a[k])) / (|a| + 1) as real)
  {
    var idx := SearchSortedRight(a, x);
    assert idx == k + 1;
  }

  /**
    A member of a population of at least two values always has a rank: the
    out-of-range branch is reached only by values outside the population.
  */
  lemma MemberIsRanked(a: seq<real>, v: real)
    requires Sorted(a) && |a| >= 2 && v in a
    ensures PercentRankExc(a, v).Some?
  {
    SortedBounds(a, v);
  }

  /**
    Because the code counts slots from 0, a unique second-smallest element
    ranks exactly like the minimum: both get 1/(n+1).
  */
  lemma SecondSmallestTiesMinimum(a: seq<real>)
    requires Sorted(a) && |a| >= 3
    requires a[0] < a[1] < a[2]
    ensures PercentRankExc(a, a[1]) == PercentRankExc(a, a[0]) == Some(1.0 / (|a| + 1) as real)
  {
    assert a[2] <= a[|a| - 1];
    InteriorRank(a, a[1], 1);
    assert (a[1] - a[1]) / (a[2] - a[1]) == 0.0;
  }

  lemma FivePointsSorted()
    ensures Sorted([-2.0, -1.0, 0.0, 1.0, 2.0])
  {
  }

  /**
    Worked values on the population [-2, -1, 0, 1, 2]: the boundaries rank
    1/(n+1) and n/(n+1), and points outside the range are undefined.
  */
  lemma FivePointBoundaries()
    ensures PercentRankExc([-2.0, -1.0, 0.0, 1.0, 2.0], -2.0) == Some(1.0 / 6.0)
    ensures PercentRankExc([-2.0, -1.0, 0.0, 1.0, 2.0], 2.0) == Some(5.0 / 6.0)
    ensures PercentRankExc([-2.0, -1.0, 0.0, 1.0, 2.0], 3.0).None?
    ensures PercentRankExc([-2.0, -1.0, 0.0, 1.0, 2.0], -3.0).None?
  {
    FivePointsSorted();
  }

  /** On [-2, -1, 0, 1, 2], 0.5 ranks (2 + 0.5)/6: the slot is 0-based, not 3.5/6. */
  lemma FivePointInterior()
    ensures PercentRankExc([-2.0, -1.0, 0.0, 1.0, 2.0], 0.5) == Some(2.5 / 6.0)
  {
    FivePointsSorted();
    InteriorRank([-2.0, -1.0, 0.0, 1.0, 2.0], 0.5, 2);
  }

  /**
    On [-2, -1, 0, 1, 2], -1.5 ranks below the minimum's 1/6 and -1 ties it:
    the rank drops just above the minimum.
  */
  lemma FivePointDropAboveMinimum()
    ensures PercentRankExc([-2.0, -1.0, 0.0, 1.0, 2.0], -1.5) == Some(0.5 / 6.0)
    ensures PercentRankExc([-2.0, -1.0, 0.0, 1.0, 2.0], -1.0) == Some(1.0 / 6.0)
  {
    FivePointsSorted();
    InteriorRank([-2.0, -1.0, 0.0, 1.0, 2.0], -1.0, 1);
    InteriorRank([-2.0, -1.0, 0.0, 1.0, 2.0], -1.5, 0);
  }

}
