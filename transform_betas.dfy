/**
  The stand-alone script transform_betas.py: the same standardize, pool, rank
  and rescale pipeline as `process_dataframe`, written without its guards, and
  the blank-cell report printed after it (lines 72-86).
*/
module TransformBetas {
  import opened Options
  import opened Sorting
  import opened PercentRank
  import opened Standardize
  import opened Pipeline

  /**
    `z[col] = (vals - mu) / sigma` with no test on sigma (lines 43-47). An
    undefined sigma makes every cell undefined. A zero sigma divides by zero:
    the cell is undefined (0/0 is NaN) because every numerator is then 0, as
    ZeroSpreadNumeratorsVanish shows, so no infinity can arise.
  */
  function LegacyStandardizeColumn(col: Column, sigma: Option<real>): (r: Column)
    requires IsSampleStdDev(col, sigma)
    ensures |r| == |col|
    ensures forall i :: 0 <= i < |col| && col[i].None? ==> r[i].None?
  {
    if sigma.None? then seq(|col|, i => None)
    else
      var mu := Mean(DefinedValues(col));
      seq(|col|, i requires 0 <= i < |col| =>
        match col[i]
        case None => None
        case Some(v) => if sigma.value == 0.0 then None else Some((v - mu) / sigma.value))
  }

  /**
    When the sample standard deviation is 0, every defined cell equals the
    column mean, so each division the script performs is 0/0.
  */
  lemma ZeroSpreadNumeratorsVanish(col: Column, sigma: Option<real>, i: nat)
    requires IsSampleStdDev(col, sigma) && sigma == Some(0.0)
    requires i < |col| && col[i].Some?
    ensures |DefinedValues(col)| >= 2
    ensures col[i].value - Mean(DefinedValues(col)) == 0.0
  {
    var vs := DefinedValues(col);
    SquareZero(0.0);
    ZeroQuotient(SquaredDeviations(vs, Mean(vs)), (|vs| - 1) as real);
    SquaredDeviationsZero(vs, Mean(vs));
    assert col[i] in col;
    var k :| 0 <= k < |vs| && vs[k] == col[i].value;
  }

  /** In exact arithmetic the unguarded standardization gives the guarded one's column. */
  lemma LegacyStandardizeAgrees(col: Column, sigma: Option<real>)
    requires IsSampleStdDev(col, sigma)
    ensures LegacyStandardizeColumn(col, sigma) == StandardizeColumn(col, sigma)
  {
    var legacy, guarded := LegacyStandardizeColumn(col, sigma), StandardizeColumn(col, sigma);
    forall i | 0 <= i < |col| ensures legacy[i] == guarded[i] {
      if sigma.Some? && sigma.value != 0.0 {
        assert guarded == Scaled(col, Mean(DefinedValues(col)), sigma.value);
      }
    }
  }

  /**
    `transform_exc` of the script (lines 55-59): only an undefined z-score is
    checked. A pool of fewer than two values still yields an undefined cell,
    because the rank itself is NaN there and NaN propagates through the
    rescaling.
  */
  function LegacyTransformCell(cell: Option<real>, pool: seq<real>): (r: Option<real>)
    requires Sorted(pool)
    ensures cell.None? ==> r.None?
  {
    if cell.None? then None
    else
      match PercentRankExc(pool, cell.value)
      case None => None
      case Some(p) => Some((p * 100.0 - 50.5) / 34.0)
  }

  /** The missing pool-size test makes no difference: both transforms agree everywhere. */
  lemma LegacyTransformAgrees(cell: Option<real>, pool: seq<real>)
    requires Sorted(pool)
    ensures LegacyTransformCell(cell, pool) == TransformCell(cell, pool)
  {
  }

  /** The script's column loop (lines 43-47). */
  method LegacyStandardizeColumns(betas: seq<Column>, sigmas: seq<Option<real>>) returns (z: seq<Column>)
    requires |sigmas| == |betas|
    requires forall j :: 0 <= j < |betas| ==> IsSampleStdDev(betas[j], sigmas[j])
    ensures |z| == |betas|
    ensures forall j :: 0 <= j < |betas| ==> z[j] == LegacyStandardizeColumn(betas[j], sigmas[j])
  {
    z := betas;
    var j := 0;
    while j < |z|
      invariant 0 <= j <= |z| == |betas|
      invariant forall k :: 0 <= k < j ==> z[k] == LegacyStandardizeColumn(betas[k], sigmas[k])
      invariant forall k :: j <= k < |z| ==> z[k] == betas[k]
    {
      z := z[j := LegacyStandardizeColumn(betas[j], sigmas[j])];
      j := j + 1;
    }
  }

  /** `z.applymap(transform_exc)` of the script (line 61). */
  function LegacyApplyTransform(z: seq<Column>, rows: nat, pool: seq<real>): (t: seq<Column>)
    requires Rectangular(z, rows) && Sorted(pool)
    ensures |t| == |z| && Rectangular(t, rows)
    ensures forall j, i :: 0 <= j < |z| && 0 <= i < rows ==> t[j][i] == LegacyTransformCell(z[j][i], pool)
  {
    seq(|z|, j requires 0 <= j < |z| =>
      seq(rows, i requires 0 <= i < rows => LegacyTransformCell(z[j][i], pool)))
  }

  /**
    `main` without the file reading and writing (lines 35-61). The pool is the
    sorted defined z-scores with no empty-input branch (sorting nothing gives
    nothing). Both tables come out exactly as `process_dataframe` makes them.
  */
  method LegacyMain(df: Frame, sigmas: seq<Option<real>>) returns (standardized: Frame, transformed: Frame)
    requires WellShaped(df)
    requires |sigmas| == |df.betas|
    requires forall j :: 0 <= j < |df.betas| ==> IsSampleStdDev(df.betas[j], sigmas[j])
    ensures WellShaped(standardized) && WellShaped(transformed)
    ensures standardized.symbols == df.symbols && transformed.symbols == df.symbols
    ensures standardized.names == df.names && transformed.names == df.names
    ensures |standardized.betas| == |df.betas| && |transformed.betas| == |df.betas|
    ensures forall j :: 0 <= j < |df.betas| ==>
      standardized.betas[j] == LegacyStandardizeColumn(df.betas[j], sigmas[j])
      && standardized.betas[j] == StandardizeColumn(df.betas[j], sigmas[j])
    ensures forall j, i :: 0 <= j < |df.betas| && 0 <= i < |df.symbols| ==>
      transformed.betas[j][i] == LegacyTransformCell(standardized.betas[j][i], Pool(standardized.betas, |df.symbols|))
      && transformed.betas[j][i] == TransformCell(standardized.betas[j][i], Pool(standardized.betas, |df.symbols|))
  {
    var rows := |df.symbols|;
    var z := LegacyStandardizeColumns(df.betas, sigmas);
    forall j | 0 <= j < |df.betas| ensures z[j] == StandardizeColumn(df.betas[j], sigmas[j]) {
      LegacyStandardizeAgrees(df.betas[j], sigmas[j]);
    }
    assert Rectangular(z, rows);
    var sortedFlat := SortAscending(DefinedValues(FlattenRowMajor(z, rows)));
    assert sortedFlat == Pool(z, rows);
    var t := LegacyApplyTransform(z, rows, sortedFlat);
    forall j, i | 0 <= j < |z| && 0 <= i < rows ensures t[j][i] == TransformCell(z[j][i], sortedFlat) {
      LegacyTransformAgrees(z[j][i], sortedFlat);
    }
    standardized := Frame(df.symbols, df.names, z);
    transformed := Frame(df.symbols, df.names, t);
  }

  /**
    The rows of a column whose cell is blank, in ascending order
    (`blank_locations[col][blank_locations[col]].index.tolist()`, line 83).
  */
  function BlankRows(col: Column): (rows: seq<nat>)
    ensures forall i: nat :: i in rows <==> i < |col| && col[i].None?
    ensures forall a, b :: 0 <= a < b < |rows| ==> rows[a] < rows[b]
  {
    if |col| == 0 then []
    else
      var last := |col| - 1;
      var prefix := BlankRows(col[..last]);
      assert forall i :: 0 <= i < last ==> col[..last][i] == col[i];
      assert forall a :: 0 <= a < |prefix| ==> prefix[a] < last by {
        forall a | 0 <= a < |prefix| ensures prefix[a] < last {
          assert prefix[a] in prefix;
        }
      }
      prefix + (if col[last].None? then [last] else [])
  }

  /** Two columns blank in the same rows report the same blank rows. */
  lemma {:induction false} SameBlankRows(a: Column, b: Column)
    requires |a| == |b|
    requires forall i :: 0 <= i < |a| ==> (a[i].None? <==> b[i].None?)
    ensures BlankRows(a) == BlankRows(b)
  {
    if |a| > 0 {
      var last := |a| - 1;
      SameBlankRows(a[..last], b[..last]);
    }
  }

  lemma {:induction false} SameBlankCount(s: seq<Column>, t: seq<Column>)
    requires |s| == |t|
    requires forall j :: 0 <= j < |s| ==> |s[j]| == |t[j]|
    requires forall j, i :: 0 <= j < |s| && 0 <= i < |s[j]| ==> (s[j][i].None? <==> t[j][i].None?)
    ensures BlankCount(s) == BlankCount(t)
  {
    if |s| > 0 {
      SameBlankRows(s[0], t[0]);
      SameBlankCount(s[1..], t[1..]);
    }
  }

  ghost predicate ColumnFilled(col: Column) {
    forall i :: 0 <= i < |col| ==> col[i].Some?
  }

  ghost predicate TableFilled(t: seq<Column>) {
    forall j :: 0 <= j < |t| ==> ColumnFilled(t[j])
  }

  lemma ColumnNoBlanksIffFilled(col: Column)
    ensures |BlankRows(col)| == 0 <==> ColumnFilled(col)
  {
    if |BlankRows(col)| > 0 {
      assert BlankRows(col)[0] in BlankRows(col);
    }
  }

  /**
    Blank cells of a whole table (`isna().sum().sum()`, lines 75-78). The
    count is 0 exactly when every cell is defined, the case in which the
    script reports every transformed cell filled (line 86).
  */
  function BlankCount(t: seq<Column>): (c: nat)
    ensures c == 0 <==> TableFilled(t)
  {
    if |t| == 0 then 0
    else
      ColumnNoBlanksIffFilled(t[0]);
      assert TableFilled(t) <==> ColumnFilled(t[0]) && TableFilled(t[1..]) by {
        assert forall j :: 0 <= j < |t[1..]| ==> t[1..][j] == t[j + 1];
        assert forall j :: 1 <= j < |t| ==> t[j] == t[1..][j - 1];
      }
      |BlankRows(t[0])| + BlankCount(t[1..])
  }

  /**
    The script's validation (lines 72-86): whenever the pool holds at least two
    z-scores, the transformed table is blank in exactly the cells where the
    standardized table is blank, so the two counts it prints agree.
  */
  lemma BlankCellsMatch(z: seq<Column>, rows: nat)
    requires Rectangular(z, rows)
    requires |Pool(z, rows)| >= 2
    ensures BlankCount(LegacyApplyTransform(z, rows, Pool(z, rows))) == BlankCount(z)
  {
    var pool := Pool(z, rows);
    var t: seq<Column> := LegacyApplyTransform(z, rows, pool);
    forall j: int, i: int | 0 <= j < |t| && 0 <= i < |t[j]| ensures t[j][i].None? <==> z[j][i].None? {
      LegacyTransformAgrees(z[j][i], pool);
      TransformedUndefinedIff(z, rows, j, i);
    }
    SameBlankCount(t, z);
  }

  /** With fewer than two pooled z-scores every transformed cell is blank. */
  lemma SmallPoolAllBlank(z: seq<Column>, rows: nat, j: nat, i: nat)
    requires Rectangular(z, rows) && j < |z| && i < rows
    requires |Pool(z, rows)| < 2
    ensures LegacyApplyTransform(z, rows, Pool(z, rows))[j][i].None?
  {
  }

}
