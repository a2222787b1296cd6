/**
  Per-column z-scoring with the sample (ddof = 1) standard deviation, over the
  defined cells of a column only (streamlit_app.py lines 74-82 and
  transform_betas.py lines 42-47).
*/
module Standardize {
  import opened Options

  /**
    The defined cells of a column, in order (what np.nanmean and np.nanstd
    look at, and the NaN filter on the flattened table): a value is kept
    exactly when some cell holds it.
  */
  function DefinedValues(col: seq<Option<real>>): (vs: seq<real>)
    ensures |vs| <= |col|
    ensures forall v :: v in vs <==> Some(v) in col
  {
    if |col| == 0 then []
    else
      assert col == [col[0]] + col[1..];
      (if col[0].Some? then [col[0].value] else []) + DefinedValues(col[1..])
  }

  function Sum(vs: seq<real>): real {
    if vs == [] then 0.0 else vs[0] + Sum(vs[1..])
  }

  /** The arithmetic mean (np.nanmean over the defined values). */
  function Mean(vs: seq<real>): real
    requires |vs| > 0
  {
    Sum(vs) / |vs| as real
  }

  /** The mean lies between the values: some value is at most it and some value at least it. */
  lemma MeanBetween(vs: seq<real>)
    requires |vs| > 0
    ensures exists i :: 0 <= i < |vs| && vs[i] <= Mean(vs)
    ensures exists i :: 0 <= i < |vs| && Mean(vs) <= vs[i]
  {
    var m := Mean(vs);
    assert |vs| as real * m == Sum(vs);
    if forall i :: 0 <= i < |vs| ==> vs[i] > m {
      SumAbove(vs, m);
    }
    if forall i :: 0 <= i < |vs| ==> vs[i] < m {
      SumBelow(vs, m);
    }
  }

  /** Values all above c sum to more than |vs| times c. */
  lemma {:induction false} SumAbove(vs: seq<real>, c: real)
    requires |vs| > 0 && forall i :: 0 <= i < |vs| ==> vs[i] > c
    ensures Sum(vs) > |vs| as real * c
  {
    if |vs| > 1 {
      SumAbove(vs[1..], c);
    }
  }

  /** Values all below c sum to less than |vs| times c. */
  lemma {:induction false} SumBelow(vs: seq<real>, c: real)
    requires |vs| > 0 && forall i :: 0 <= i < |vs| ==> vs[i] < c
    ensures Sum(vs) < |vs| as real * c
  {
    if |vs| > 1 {
      SumBelow(vs[1..], c);
    }
  }

  /**
    Product of two reals. Kept as a function of its own so that the solver
    treats a square as one term instead of rewriting it.
  */
  function Mul(a: real, b: real): real {
    a * b
  }

  function Square(x: real): (r: real)
    ensures r >= 0.0
    ensures x != 0.0 ==> r > 0.0
  {
    SquareNonNegative(x);
    Mul(x, x)
  }

  /** Sum of squared deviations of the values from m. */
  function SquaredDeviations(vs: seq<real>, m: real): (r: real)
    ensures r >= 0.0
  {
    if vs == [] then 0.0 else Square(vs[0] - m) + SquaredDeviations(vs[1..], m)
  }

  /** Sample variance: squared deviations from the mean divided by n - 1. */
  function SampleVariance(vs: seq<real>): (r: real)
    requires |vs| >= 2
    ensures r >= 0.0
    ensures r == 0.0 <==> forall i :: 0 <= i < |vs| ==> vs[i] == Mean(vs)
  {
    SquaredDeviationsZero(vs, Mean(vs));
    ZeroQuotient(SquaredDeviations(vs, Mean(vs)), (|vs| - 1) as real);
    SquaredDeviations(vs, Mean(vs)) / (|vs| - 1) as real
  }

  /**
    sigma is np.nanstd(col, ddof=1): undefined (NaN) when fewer than two cells
    are defined, otherwise the non-negative square root of the sample variance.
  */
  predicate IsSampleStdDev(col: seq<Option<real>>, sigma: Option<real>)
    ensures IsSampleStdDev(col, sigma) ==> (sigma.Some? <==> |DefinedValues(col)| >= 2)
    ensures IsSampleStdDev(col, sigma) && sigma.Some? ==>
      (sigma.value == 0.0 <==> SampleVariance(DefinedValues(col)) == 0.0)
  {
    var vs := DefinedValues(col);
    if |vs| < 2 then sigma.None?
    else sigma.Some? && sigma.value >= 0.0 && Square(sigma.value) == SampleVariance(vs)
  }

  /** A column has at most one sample standard deviation: sigma is determined by the column. */
  lemma SampleStdDevUnique(col: seq<Option<real>>, s1: Option<real>, s2: Option<real>)
    requires IsSampleStdDev(col, s1) && IsSampleStdDev(col, s2)
    ensures s1 == s2
  {
    if s1.Some? {
      var a, b := s1.value, s2.value;
      if a < b {
        SquareIncreasing(a, b);
      } else if b < a {
        SquareIncreasing(b, a);
      }
    }
  }

  /** Each defined cell v becomes (v - mu) / s; undefined cells stay undefined. */
  function Scaled(col: seq<Option<real>>, mu: real, s: real): (r: seq<Option<real>>)
    requires s != 0.0
    ensures |r| == |col|
    ensures forall i :: 0 <= i < |col| ==> (r[i].None? <==> col[i].None?)
  {
    seq(|col|, i requires 0 <= i < |col| =>
      match col[i]
      case None => None
      case Some(v) => Some((v - mu) / s))
  }

  /** Scaling can be undone: multiplying back by s and adding mu gives the original cell. */
  lemma ScaledInverse(col: seq<Option<real>>, mu: real, s: real, i: nat)
    requires s != 0.0 && i < |col| && col[i].Some?
    ensures Scaled(col, mu, s)[i].value * s + mu == col[i].value
  {
  }

  /** The same map on the defined values alone. */
  function Deviations(vs: seq<real>, mu: real, s: real): (r: seq<real>)
    requires s != 0.0
    ensures |r| == |vs|
  {
    seq(|vs|, i requires 0 <= i < |vs| => (vs[i] - mu) / s)
  }

  /**
    z-scores of one column. A column with fewer than two defined cells, or
    whose sample standard deviation is 0, becomes entirely undefined; otherwise
    the undefined cells are exactly those that were undefined in the input.
  */
  function StandardizeColumn(col: seq<Option<real>>, sigma: Option<real>): (r: seq<Option<real>>)
    requires IsSampleStdDev(col, sigma)
    ensures |r| == |col|
    ensures forall i :: 0 <= i < |col| ==>
      (r[i].None? <==> col[i].None? || |DefinedValues(col)| < 2 || sigma.value == 0.0)
  {
    if sigma.None? || sigma.value == 0.0 then
      seq(|col|, i => None)
    else
      Scaled(col, Mean(DefinedValues(col)), sigma.value)
  }

  lemma {:induction false} DefinedScaled(col: seq<Option<real>>, mu: real, s: real)
    requires s != 0.0
    ensures DefinedValues(Scaled(col, mu, s)) == Deviations(DefinedValues(col), mu, s)
  {
    if |col| > 0 {
      DefinedScaled(col[1..], mu, s);
      ScaledTail(col, mu, s);
      var rest := DefinedValues(col[1..]);
      if col[0].Some? {
        DeviationsCons(col[0].value, rest, mu, s);
      }
    }
  }

  lemma ScaledTail(col: seq<Option<real>>, mu: real, s: real)
    requires s != 0.0 && |col| > 0
    ensures Scaled(col, mu, s)[1..] == Scaled(col[1..], mu, s)
    ensures Scaled(col, mu, s)[0].Some? == col[0].Some?
    ensures col[0].Some? ==> Scaled(col, mu, s)[0].value == (col[0].value - mu) / s
  {
  }

  lemma DeviationsCons(v: real, rest: seq<real>, mu: real, s: real)
    requires s != 0.0
    ensures Deviations([v] + rest, mu, s) == [(v - mu) / s] + Deviations(rest, mu, s)
  {
  }

  lemma {:induction false} SumDeviations(vs: seq<real>, mu: real, s: real)
    requires s != 0.0
    ensures Sum(Deviations(vs, mu, s)) == (Sum(vs) - |vs| as real * mu) / s
  {
    if vs != [] {
      SumDeviations(vs[1..], mu, s);
      assert Deviations(vs, mu, s)[1..] == Deviations(vs[1..], mu, s);
    }
  }

  lemma {:induction false} SquaredDeviationsScaled(vs: seq<real>, mu: real, s: real)
    requires s != 0.0
    ensures SquaredDeviations(Deviations(vs, mu, s), 0.0) == SquaredDeviations(vs, mu) / Square(s)
  {
    if vs != [] {
      SquaredDeviationsScaled(vs[1..], mu, s);
      var ds := Deviations(vs, mu, s);
      assert ds[1..] == Deviations(vs[1..], mu, s);
      SquareOfQuotient(vs[0] - mu, s);
      assert ds[0] - 0.0 == (vs[0] - mu) / s;
      AddQuotients(Square(vs[0] - mu), SquaredDeviations(vs[1..], mu), Square(s));
    }
  }

  /** The deviations from the mean, divided by any non-zero s, sum to 0. */
  lemma DeviationsMeanZero(vs: seq<real>, s: real)
    requires |vs| > 0 && s != 0.0
    ensures Mean(Deviations(vs, Mean(vs), s)) == 0.0
  {
    var mu := Mean(vs);
    var ds := Deviations(vs, mu, s);
    assert Sum(ds) == 0.0 by {
      SumDeviations(vs, mu, s);
      MeanTimesCount(vs);
      assert Sum(ds) == 0.0 / s;
    }
    assert Mean(ds) == Sum(ds) / |ds| as real;
  }

  /** Dividing the deviations by the sample standard deviation gives sample variance 1. */
  lemma DeviationsVarianceOne(vs: seq<real>, s: real)
    requires |vs| >= 2 && s != 0.0
    requires Square(s) == SampleVariance(vs)
    ensures SampleVariance(Deviations(vs, Mean(vs), s)) == 1.0
  {
    var mu := Mean(vs);
    DeviationsMeanZero(vs, s);
    SquaredDeviationsScaled(vs, mu, s);
    UnitRatio(SquaredDeviations(vs, mu), Square(s), (|vs| - 1) as real);
  }

  /**
    A standardized, non-degenerate column has as many defined cells as the
    input, mean 0 and sample variance 1.
  */
  lemma StandardizedMoments(col: seq<Option<real>>, sigma: Option<real>)
    requires IsSampleStdDev(col, sigma)
    requires sigma.Some? && sigma.value != 0.0
    ensures var zs := DefinedValues(StandardizeColumn(col, sigma));
      |zs| == |DefinedValues(col)| >= 2 && Mean(zs) == 0.0 && SampleVariance(zs) == 1.0
  {
    var vs := DefinedValues(col);
    var mu := Mean(vs);
    DefinedScaled(col, mu, sigma.value);
    DeviationsMeanZero(vs, sigma.value);
    DeviationsVarianceOne(vs, sigma.value);
  }

  lemma {:induction false} SquaredDeviationsZero(vs: seq<real>, m: real)
    ensures SquaredDeviations(vs, m) == 0.0 <==> forall i :: 0 <= i < |vs| ==> vs[i] == m
  {
    if vs != [] {
      SquaredDeviationsZero(vs[1..], m);
      SquareZero(vs[0] - m);
      assert forall i :: 1 <= i < |vs| ==> vs[i] == vs[1..][i - 1];
    }
  }

  lemma {:induction false} SumConstant(vs: seq<real>, c: real)
    requires forall i :: 0 <= i < |vs| ==> vs[i] == c
    ensures Sum(vs) == |vs| as real * c
  {
    if vs != [] {
      SumConstant(vs[1..], c);
    }
  }

  /** The values all coincide exactly when they all equal their mean. */
  lemma AllEqualIffAllMean(vs: seq<real>)
    requires |vs| > 0
    ensures (forall i, j :: 0 <= i < |vs| && 0 <= j < |vs| ==> vs[i] == vs[j])
        <==> (forall i :: 0 <= i < |vs| ==> vs[i] == Mean(vs))
  {
    if forall i, j :: 0 <= i < |vs| && 0 <= j < |vs| ==> vs[i] == vs[j] {
      SumConstant(vs, vs[0]);
      MeanOfConstant(Sum(vs), |vs| as real, vs[0]);
    }
  }

  /**
    For a column with at least two defined cells, the sample standard deviation
    is 0 exactly when all defined cells hold the same value.
  */
  lemma ZeroSpreadIffConstant(col: seq<Option<real>>, sigma: Option<real>)
    requires IsSampleStdDev(col, sigma)
    requires |DefinedValues(col)| >= 2
    ensures var vs := DefinedValues(col);
      sigma.value == 0.0 <==> forall i, j :: 0 <= i < |vs| && 0 <= j < |vs| ==> vs[i] == vs[j]
  {
    var vs := DefinedValues(col);
    SquareZero(sigma.value);
    ZeroQuotient(SquaredDeviations(vs, Mean(vs)), (|vs| - 1) as real);
    SquaredDeviationsZero(vs, Mean(vs));
    AllEqualIffAllMean(vs);
  }

  /**
    A column whose defined cells all hold one value (five entries of 3.0, say)
    standardizes to an entirely undefined column.
  */
  lemma ConstantColumnIsUndefined(col: seq<Option<real>>, sigma: Option<real>, c: real)
    requires IsSampleStdDev(col, sigma)
    requires forall i :: 0 <= i < |col| && col[i].Some? ==> col[i].value == c
    ensures forall i :: 0 <= i < |col| ==> StandardizeColumn(col, sigma)[i].None?
  {
    var vs := DefinedValues(col);
    if |vs| >= 2 {
      assert forall i :: 0 <= i < |vs| ==> vs[i] in vs;
      ZeroSpreadIffConstant(col, sigma);
    }
  }

  // Real-arithmetic steps the solver does not take on its own.

  lemma MulPositive(a: real, b: real)
    requires a > 0.0 && b > 0.0
    ensures Mul(a, b) > 0.0
  {
  }

  lemma SquareNonNegative(x: real)
    ensures Mul(x, x) >= 0.0
    ensures x != 0.0 ==> Mul(x, x) > 0.0
  {
    if x > 0.0 {
      MulPositive(x, x);
    } else if x < 0.0 {
      MulPositive(-x, -x);
      assert Mul(-x, -x) == Mul(x, x);
    }
  }

  lemma SquareIncreasing(a: real, b: real)
    requires 0.0 <= a < b
    ensures Square(a) < Square(b)
  {
    assert Square(a) == Mul(a, a) == a * a;
    assert Square(b) == Mul(b, b) == b * b;
    assert 0.0 <= a * (b - a);
    assert 0.0 < b * (b - a);
  }

  lemma SquareZero(x: real)
    ensures Square(x) == 0.0 <==> x == 0.0
  {
  }

  lemma DivIsUnique(a: real, t: real, r: real)
    requires t > 0.0
    requires r * t == a
    ensures r == a / t
  {
  }

  lemma SquareTimesSquare(d: real, s: real)
    requires s != 0.0
    ensures Square(d / s) * Square(s) == Square(d)
  {
    assert (d / s) * s == d;
    assert (d / s) * (d / s) * (s * s) == ((d / s) * s) * ((d / s) * s);
  }

  lemma SquareOfQuotient(d: real, s: real)
    requires s != 0.0
    ensures Square(d / s) == Square(d) / Square(s)
  {
    SquareTimesSquare(d, s);
    DivIsUnique(Square(d), Square(s), Square(d / s));
  }

  lemma AddQuotients(a: real, b: real, t: real)
    requires t > 0.0
    ensures a / t + b / t == (a + b) / t
  {
  }

  lemma MeanTimesCount(vs: seq<real>)
    requires |vs| > 0
    ensures |vs| as real * Mean(vs) == Sum(vs)
  {
  }

  lemma MeanOfConstant(total: real, n: real, c: real)
    requires n > 0.0 && total == n * c
    ensures total / n == c
  {
  }

  lemma ZeroQuotient(q: real, n: real)
    requires n > 0.0
    ensures q / n == 0.0 <==> q == 0.0
  {
  }

  lemma UnitRatio(q: real, ss: real, n1: real)
    requires n1 > 0.0 && ss > 0.0
    requires ss == q / n1
    ensures q / ss / n1 == 1.0
  {
    assert q == ss * n1;
    assert q / ss == n1;
  }

}
