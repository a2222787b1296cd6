/**
  The computational body of `process_dataframe` (streamlit_app.py lines
  61-103): standardize every beta column, pool and sort every defined z-score,
  rank each cell against the pool and rescale the rank, and put the two
  metadata columns back in front of both results.
*/
module Pipeline {
  import opened Options
  import opened Sorting
  import opened PercentRank
  import opened Standardize

  type Column = seq<Option<real>>

  /**
    A table: the symbol and company-name columns (as text) and the numeric
    beta columns, each a column of cells.
  */
  datatype Frame = Frame(symbols: seq<string>, names: seq<string>, betas: seq<Column>)

  /** Every column has at least k cells. */
  ghost predicate HasRows(z: seq<Column>, k: nat) {
    forall j :: 0 <= j < |z| ==> k <= |z[j]|
  }

  ghost predicate Rectangular(z: seq<Column>, rows: nat) {
    forall j :: 0 <= j < |z| ==> |z[j]| == rows
  }

  ghost predicate WellShaped(f: Frame) {
    |f.names| == |f.symbols| && Rectangular(f.betas, |f.symbols|)
  }

  /** Row i, read left to right across the columns. */
  function RowCells(z: seq<Column>, i: nat): (row: Column)
    requires HasRows(z, i + 1)
    ensures |row| == |z|
  {
    seq(|z|, j requires 0 <= j < |z| => z[j][i])
  }

  /**
    The first k rows one after the other (`z.values.flatten()`, row-major):
    k rows of |z| cells each.
  */
  function FlattenRowMajor(z: seq<Column>, k: nat): (flat: Column)
    requires HasRows(z, k)
    ensures |flat| == k * |z|
  {
    if k == 0 then [] else FlattenRowMajor(z, k - 1) + RowCells(z, k - 1)
  }

  /** In the flattened table the cell of row r and column j sits at position r * |z| + j. */
  lemma {:induction false} FlattenCell(z: seq<Column>, k: nat, r: nat, j: nat)
    requires HasRows(z, k) && r < k && j < |z|
    ensures r * |z| + j < |FlattenRowMajor(z, k)|
    ensures FlattenRowMajor(z, k)[r * |z| + j] == z[j][r]
  {
    var prefix := FlattenRowMajor(z, k - 1);
    assert FlattenRowMajor(z, k) == prefix + RowCells(z, k - 1);
    if r < k - 1 {
      FlattenCell(z, k - 1, r, j);
    } else {
      assert r * |z| == |prefix|;
    }
  }

  /** The defined cells of all columns, column by column, as a multiset. */
  function DefinedPool(z: seq<Column>): multiset<real> {
    if |z| == 0 then multiset{} else multiset(DefinedValues(z[0])) + DefinedPool(z[1..])
  }

  /**
    The pooled population: the defined cells of the standardized table, sorted
    once (lines 85-90). As a multiset it is exactly the defined cells of all
    columns, so its length is the number of defined cells.
  */
  function Pool(z: seq<Column>, rows: nat): (pool: seq<real>)
    requires Rectangular(z, rows)
    ensures Sorted(pool)
    ensures multiset(pool) == DefinedPool(z)
    ensures |pool| == |DefinedPool(z)|
  {
    FlattenPool(z, rows);
    SortAscending(DefinedValues(FlattenRowMajor(z, rows)))
  }

  /**
    `transform_exc` (lines 93-97): undefined for an undefined z-score or a pool
    of fewer than two values; otherwise the exclusive rank, as a percentage,
    mapped through (p - 50.5) / 34. A defined result lies strictly between
    -50.5/34 and 49.5/34.
  */
  function TransformCell(cell: Option<real>, pool: seq<real>): (r: Option<real>)
    requires Sorted(pool)
    ensures r.Some? ==> cell.Some? && |pool| >= 2
    ensures r.Some? ==> -50.5 / 34.0 < r.value < 49.5 / 34.0
  {
    if cell.None? || |pool| < 2 then None
    else
      match PercentRankExc(pool, cell.value)
      case None => None
      case Some(p) => Some((p * 100.0 - 50.5) / 34.0)
  }

  /**
    The per-column loop of `process_dataframe` (lines 74-82): each beta column
    is replaced by its z-scores.
  */
  method StandardizeColumns(betas: seq<Column>, sigmas: seq<Option<real>>) returns (z: seq<Column>)
    requires |sigmas| == |betas|
    requires forall j :: 0 <= j < |betas| ==> IsSampleStdDev(betas[j], sigmas[j])
    ensures |z| == |betas|
    ensures forall j :: 0 <= j < |betas| ==> z[j] == StandardizeColumn(betas[j], sigmas[j])
  {
    z := betas;
    var j := 0;
    while j < |z|
      invariant 0 <= j <= |z| == |betas|
      invariant forall k :: 0 <= k < j ==> z[k] == StandardizeColumn(betas[k], sigmas[k])
      invariant forall k :: j <= k < |z| ==> z[k] == betas[k]
    {
      z := z[j := StandardizeColumn(betas[j], sigmas[j])];
      j := j + 1;
    }
  }

  /** `z.applymap(transform_exc)` (line 99): the transform applied cell by cell. */
  function ApplyTransform(z: seq<Column>, rows: nat, pool: seq<real>): (t: seq<Column>)
    requires Rectangular(z, rows) && Sorted(pool)
    ensures |t| == |z| && Rectangular(t, rows)
    ensures forall j, i :: 0 <= j < |z| && 0 <= i < rows ==> t[j][i] == TransformCell(z[j][i], pool)
  {
    seq(|z|, j requires 0 <= j < |z| =>
      seq(rows, i requires 0 <= i < rows => TransformCell(z[j][i], pool)))
  }

  /**
    `process_dataframe`. `sigmas[j]` is the sample standard deviation of beta
    column j (the value np.nanstd(..., ddof=1) supplies). Both results keep the
    metadata columns and the row count; the standardized table holds the
    z-scores of every column, and each transformed cell is the rescaled rank of
    its z-score in the pool of all defined z-scores.
  */
  method ProcessDataFrame(df: Frame, sigmas: seq<Option<real>>) returns (standardized: Frame, transformed: Frame)
    requires WellShaped(df)
    requires |sigmas| == |df.betas|
    requires forall j :: 0 <= j < |df.betas| ==> IsSampleStdDev(df.betas[j], sigmas[j])
    ensures WellShaped(standardized) && WellShaped(transformed)
    ensures standardized.symbols == df.symbols && transformed.symbols == df.symbols
    ensures standardized.names == df.names && transformed.names == df.names
    ensures |standardized.betas| == |df.betas| && |transformed.betas| == |df.betas|
    ensures forall j :: 0 <= j < |df.betas| ==>
      standardized.betas[j] == StandardizeColumn(df.betas[j], sigmas[j])
    ensures forall j, i :: 0 <= j < |df.betas| && 0 <= i < |df.symbols| ==>
      transformed.betas[j][i] == TransformCell(standardized.betas[j][i], Pool(standardized.betas, |df.symbols|))
  {
    var rows := |df.symbols|;
    var z := StandardizeColumns(df.betas, sigmas);
    assert Rectangular(z, rows);
    var flat := DefinedValues(FlattenRowMajor(z, rows));
    var sortedFlat := if |flat| == 0 then [] else SortAscending(flat);
    assert sortedFlat == Pool(z, rows);
    var t := ApplyTransform(z, rows, sortedFlat);
    standardized := Frame(df.symbols, df.names, z);
    transformed := Frame(df.symbols, df.names, t);
  }

  /**
    Main property of the pipeline: a transformed cell is undefined exactly when
    its z-score is undefined or the pool has fewer than two values. Every
    defined z-score is a member of the pool, so the rank's out-of-range branch
    is never taken.
  */
  lemma TransformedUndefinedIff(z: seq<Column>, rows: nat, j: nat, i: nat)
    requires Rectangular(z, rows) && j < |z| && i < rows
    ensures TransformCell(z[j][i], Pool(z, rows)).None? <==> z[j][i].None? || |Pool(z, rows)| < 2
  {
    var pool := Pool(z, rows);
    if z[j][i].Some? && |pool| >= 2 {
      CellInPool(z, j, i);
      assert z[j][i].value in multiset(pool);
      MemberIsRanked(pool, z[j][i].value);
    }
  }

  /** The pool holds a value exactly when some cell of the table holds it. */
  lemma {:induction false} PoolMembers(z: seq<Column>, v: real)
    ensures v in DefinedPool(z) <==> exists j, i :: 0 <= j < |z| && 0 <= i < |z[j]| && z[j][i] == Some(v)
  {
    if z != [] {
      PoolMembers(z[1..], v);
      if exists j, i :: 0 <= j < |z| && 0 <= i < |z[j]| && z[j][i] == Some(v) {
        var j, i :| 0 <= j < |z| && 0 <= i < |z[j]| && z[j][i] == Some(v);
        if j == 0 {
          assert Some(v) in z[0];
        } else {
          assert z[1..][j - 1][i] == Some(v);
        }
      }
      if exists j, i :: 0 <= j < |z[1..]| && 0 <= i < |z[1..][j]| && z[1..][j][i] == Some(v) {
        var j, i :| 0 <= j < |z[1..]| && 0 <= i < |z[1..][j]| && z[1..][j][i] == Some(v);
        assert z[j + 1][i] == Some(v);
      }
    }
  }

  lemma CellInPool(z: seq<Column>, j: nat, i: nat)
    requires j < |z| && i < |z[j]| && z[j][i].Some?
    ensures z[j][i].value in DefinedPool(z)
  {
    PoolMembers(z, z[j][i].value);
  }

  /** How many cells of a column hold the value v. */
  function Occurrences(s: Column, v: real): nat {
    if |s| == 0 then 0 else (if s[0] == Some(v) then 1 else 0) + Occurrences(s[1..], v)
  }

  /** How many cells of the whole table hold v, column by column. */
  function TableOccurrences(z: seq<Column>, v: real): nat {
    if |z| == 0 then 0 else Occurrences(z[0], v) + TableOccurrences(z[1..], v)
  }

  /** How many of the first k cells of every column hold v. */
  function PrefixOccurrences(z: seq<Column>, k: nat, v: real): nat
    requires HasRows(z, k)
  {
    if |z| == 0 then 0 else Occurrences(z[0][..k], v) + PrefixOccurrences(z[1..], k, v)
  }

  lemma {:induction false} OccurrencesConcat(a: Column, b: Column, v: real)
    ensures Occurrences(a + b, v) == Occurrences(a, v) + Occurrences(b, v)
  {
    if |a| == 0 {
      assert a + b == b;
    } else {
      assert (a + b)[1..] == a[1..] + b;
      OccurrencesConcat(a[1..], b, v);
    }
  }

  /** The multiplicity of v among the defined values is its number of occurrences. */
  lemma {:induction false} CountDefined(s: Column, v: real)
    ensures multiset(DefinedValues(s))[v] == Occurrences(s, v)
  {
    if |s| > 0 {
      CountDefined(s[1..], v);
      var head := if s[0].Some? then [s[0].value] else [];
      assert multiset(DefinedValues(s)) == multiset(head) + multiset(DefinedValues(s[1..]));
    }
  }

  lemma {:induction false} PoolCount(z: seq<Column>, v: real)
    ensures DefinedPool(z)[v] == TableOccurrences(z, v)
  {
    if |z| > 0 {
      PoolCount(z[1..], v);
      CountDefined(z[0], v);
    }
  }

  lemma {:induction false} EmptyPrefix(z: seq<Column>, v: real)
    ensures PrefixOccurrences(z, 0, v) == 0
  {
    if |z| > 0 {
      EmptyPrefix(z[1..], v);
      assert z[0][..0] == [];
    }
  }

  lemma {:induction false} FullPrefix(z: seq<Column>, rows: nat, v: real)
    requires Rectangular(z, rows)
    ensures PrefixOccurrences(z, rows, v) == TableOccurrences(z, v)
  {
    if |z| > 0 {
      FullPrefix(z[1..], rows, v);
      assert z[0][..rows] == z[0];
    }
  }

  /** Extending every column by one cell adds the occurrences in that row. */
  lemma {:induction false} PrefixAppendRow(z: seq<Column>, k: nat, v: real)
    requires k > 0 && HasRows(z, k)
    ensures PrefixOccurrences(z, k, v) == PrefixOccurrences(z, k - 1, v) + Occurrences(RowCells(z, k - 1), v)
  {
    if |z| > 0 {
      PrefixAppendRow(z[1..], k, v);
      var c := z[0];
      assert c[..k] == c[..k - 1] + [c[k - 1]];
      OccurrencesConcat(c[..k - 1], [c[k - 1]], v);
      assert RowCells(z, k - 1) == [c[k - 1]] + RowCells(z[1..], k - 1);
      OccurrencesConcat([c[k - 1]], RowCells(z[1..], k - 1), v);
    }
  }

  lemma {:induction false} FlattenCount(z: seq<Column>, k: nat, v: real)
    requires HasRows(z, k)
    ensures Occurrences(FlattenRowMajor(z, k), v) == PrefixOccurrences(z, k, v)
  {
    if k == 0 {
      EmptyPrefix(z, v);
    } else {
      FlattenCount(z, k - 1, v);
      OccurrencesConcat(FlattenRowMajor(z, k - 1), RowCells(z, k - 1), v);
      PrefixAppendRow(z, k, v);
    }
  }

  /** Flattening row by row and then dropping undefined cells keeps every defined cell once. */
  lemma FlattenPool(z: seq<Column>, rows: nat)
    requires Rectangular(z, rows)
    ensures multiset(DefinedValues(FlattenRowMajor(z, rows))) == DefinedPool(z)
  {
    var flat := FlattenRowMajor(z, rows);
    forall v ensures multiset(DefinedValues(flat))[v] == DefinedPool(z)[v] {
      CountDefined(flat, v);
      FlattenCount(z, rows, v);
      FullPrefix(z, rows, v);
      PoolCount(z, v);
    }
  }

}
