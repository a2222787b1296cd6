# transform_betas in Dafny

A model of the numerical core of the beta-transformation tool: a Streamlit
application (`streamlit_app.py`) and the older stand-alone script
(`transform_betas.py`). The tool takes a table whose first two columns are a
symbol and a company name and whose remaining columns are numeric betas, and
produces two tables with the same metadata columns:

- the **standardized** table: every beta column z-scored with its own mean and
  its sample (ddof = 1) standard deviation, over the defined cells only; a
  column whose standard deviation is 0 or undefined becomes entirely blank;
- the **transformed** table: every defined z-score ranked, with Excel's
  exclusive percentile rank (PERCENTRANK.EXC as the code implements it),
  against the sorted pool of all defined z-scores of the table, and rescaled
  to (100·p − 50.5) / 34.

It also models how the application derives the date tag `YYYY_MM_DD` of the
output file name from the uploaded file's name.

Modules, one per file:

- `Options` (`options.dfy`): `Option`, the cell type (`None` is a blank/NaN).
- `Sorting` (`sorting.dfy`): ascending order and the sort that builds the pool.
- `PercentRank` (`percent_rank.dfy`): `excel_percentrank_exc` and the
  right-side binary search it relies on.
- `Standardize` (`standardize.dfy`): defined values, mean, sample variance,
  and the per-column z-scoring.
- `Pipeline` (`pipeline.dfy`): `process_dataframe` of the application.
- `TransformBetas` (`transform_betas.dfy`): `main` of the script (unguarded
  standardization and transform) and its blank-cell report.
- `DateTag` (`date_tag.dfy`): `_extract_date_tag_from_filename`.

Numbers are exact reals. NaN is `None`. The square root inside `np.nanstd` is
not computed: each column's standard deviation is passed in (`sigmas[j]`) and
tied to the column by `IsSampleStdDev` (undefined with fewer than two defined
cells, otherwise the non-negative number whose square is the sample variance).
`datetime.today()` is the parameter `today`.

Where the documented intent and the code disagree, the model follows the code:

- The docstring of `excel_percentrank_exc` (transform_betas.py line 7) says the
  rank is undefined for x <= min or x >= max; the code returns 1/(n+1) and
  n/(n+1) at the minimum and maximum and is undefined only strictly outside.
- The comment on transform_betas.py line 26 describes a left-side insertion
  point; the code uses `side="right"`, so the interior slot is
  k = (number of elements <= x) − 1, counted from 0. Excel's PERCENTRANK.EXC
  counts from 1: on [−2, −1, 0, 1, 2] it ranks 0.5 at 3.5/6, the code at 2.5/6
  (`PercentRank.FivePointInterior`). A consequence is that the rank is not
  monotone just above the minimum: −1.5 ranks 0.5/6, below the minimum's 1/6
  (`PercentRank.FivePointDropAboveMinimum`), and when the two smallest values
  and the third are all distinct, the second-smallest value ties the minimum
  (`PercentRank.SecondSmallestTiesMinimum`).

## Model

| member | source | states |
|---|---|---|
| PercentRank.SearchSortedRight | streamlit_app.py:53 | On a sorted population the returned index splits it: every element before it is <= x, every element from it on is > x (`np.searchsorted(side="right")`). |
| PercentRank.PercentRankExc | streamlit_app.py:40-57 | The rank is undefined exactly when the population has fewer than two values or x lies strictly outside [min, max]; every defined rank lies strictly between 0 and 1; the minimum ranks 1/(n+1) and a maximum above the minimum n/(n+1), so a constant population ranks its value 1/(n+1). |
| PercentRank.Interpolated | streamlit_app.py:53-57 | The interior rank (k + fraction)/(n + 1), with k the 0-based bracketing slot, lies strictly between 0 and 1. |
| PercentRank.InteriorRank | transform_betas.py:26-33 | For an interior x, any slot k with a[k] <= x < a[k+1] is the one the search finds, the gap a[k+1] − a[k] is positive, and the rank is (k + (x − a[k])/(a[k+1] − a[k]))/(n + 1). |
| PercentRank.MemberIsRanked | streamlit_app.py:44-52 | Every member of a population of at least two values has a defined rank. |
| PercentRank.SecondSmallestTiesMinimum | transform_betas.py:27-33 | With the 0-based slot, when a[0] < a[1] < a[2] the second-smallest value a[1] gets the same rank 1/(n+1) as the minimum. |
| PercentRank.FivePointBoundaries | transform_betas.py:13-24 | On [−2, −1, 0, 1, 2]: the minimum ranks 1/6, the maximum 5/6, and 3 and −3 are undefined. |
| PercentRank.FivePointInterior | transform_betas.py:27-33 | On [−2, −1, 0, 1, 2], 0.5 ranks 2.5/6. |
| PercentRank.FivePointDropAboveMinimum | transform_betas.py:27-33 | On [−2, −1, 0, 1, 2], −1.5 ranks 0.5/6 (below the minimum's 1/6) and −1 ranks 1/6. |
| Sorting.Insert | streamlit_app.py:90 | Inserting into a sorted sequence keeps it sorted, adds exactly one copy of the value and nothing else. |
| Sorting.SortAscending | streamlit_app.py:90 | `np.sort`: the result is sorted and a permutation of the input. |
| Sorting.SortedBounds | streamlit_app.py:47 | Every member of a sorted sequence lies between its first and last element. |
| Standardize.DefinedValues | streamlit_app.py:77-78 | The NaN filter keeps at most as many values as cells, and a value is kept exactly when some cell holds it. |
| Standardize.MeanBetween | streamlit_app.py:77 | `np.nanmean` lies between the values: some defined value is at most the mean and some is at least it. |
| Standardize.SampleVariance | streamlit_app.py:78 | The ddof = 1 variance is non-negative, and 0 exactly when every value equals the mean. |
| Standardize.IsSampleStdDev | streamlit_app.py:78 | `np.nanstd(ddof=1)` is defined exactly when at least two cells are defined, and is 0 exactly when the sample variance is 0. |
| Standardize.SampleStdDevUnique | streamlit_app.py:78 | A column has only one sample standard deviation, so the supplied sigma is determined by the column. |
| Standardize.Scaled | streamlit_app.py:82 | `(vals - mu) / sigma` keeps the length and leaves a cell blank exactly when the input cell is blank. |
| Standardize.ScaledInverse | streamlit_app.py:82 | The scaling is invertible: a scaled cell times sigma plus mu is the original cell. |
| Standardize.StandardizeColumn | streamlit_app.py:75-82 | A z-scored cell is blank exactly when the input cell is blank, the column has fewer than two defined cells, or its standard deviation is 0; the length is kept. |
| Standardize.StandardizedMoments | streamlit_app.py:76-82 | A non-degenerate standardized column keeps its number of defined cells and has mean 0 and sample variance 1. |
| Standardize.ZeroSpreadIffConstant | streamlit_app.py:78-80 | With at least two defined cells, the standard deviation is 0 exactly when all defined cells are equal. |
| Standardize.ConstantColumnIsUndefined | streamlit_app.py:79-80 | A column whose defined cells all hold one value standardizes to an all-blank column. |
| Pipeline.StandardizeColumns | streamlit_app.py:74-82 | After the loop every column is its standardized column and the column count is kept. |
| Pipeline.Pool | streamlit_app.py:84-90 | The pool is sorted and, as a multiset, exactly the defined cells of the standardized table. |
| Pipeline.FlattenRowMajor | streamlit_app.py:85 | `z.values.flatten()` has rows × columns cells. |
| Pipeline.FlattenCell | streamlit_app.py:85 | Row-major order: the cell of row r and column j sits at position r·(number of columns) + j. |
| Pipeline.FlattenPool | streamlit_app.py:85-86 | Row-major flattening followed by dropping blanks keeps every defined cell of the table exactly once. |
| Pipeline.PoolMembers | streamlit_app.py:85-86 | A value is in the pool exactly when some cell of the table holds it. |
| Pipeline.TransformCell | streamlit_app.py:93-97 | A defined transformed cell comes from a defined z-score and a pool of at least two values, and lies strictly between −50.5/34 and 49.5/34. |
| Pipeline.ApplyTransform | streamlit_app.py:99 | The transformed table has the standardized table's shape and each cell is the transform of the z-score in the same place. |
| Pipeline.ProcessDataFrame | streamlit_app.py:61-103 | Both results keep the symbols, names, column count and row count; standardized column j is the z-scoring of input column j; each transformed cell is the transform of its z-score against the pool of all defined z-scores. |
| Pipeline.TransformedUndefinedIff | streamlit_app.py:93-99 | A transformed cell is blank exactly when its z-score is blank or the pool has fewer than two values: a defined z-score is always in range of the pool. |
| TransformBetas.LegacyStandardizeColumn | transform_betas.py:43-47 | The unguarded z-scoring keeps the length and keeps every blank cell blank. |
| TransformBetas.ZeroSpreadNumeratorsVanish | transform_betas.py:45-47 | When the standard deviation is 0, every defined cell equals the mean, so each division the script makes is 0/0. |
| TransformBetas.LegacyStandardizeAgrees | transform_betas.py:43-47 | The unguarded z-scoring gives the same column as the application's guarded one. |
| TransformBetas.LegacyTransformCell | transform_betas.py:55-59 | A blank z-score gives a blank transformed cell. |
| TransformBetas.LegacyTransformAgrees | transform_betas.py:55-59 | The script's transform, without the pool-size test, equals the application's for every cell and pool. |
| TransformBetas.LegacyStandardizeColumns | transform_betas.py:42-47 | After the loop every column is its unguarded standardized column. |
| TransformBetas.LegacyApplyTransform | transform_betas.py:61 | The transformed table has the standardized table's shape, cell by cell. |
| TransformBetas.LegacyMain | transform_betas.py:35-61 | The script's two tables keep metadata and shape and are cell for cell the tables `process_dataframe` produces. |
| TransformBetas.BlankRows | transform_betas.py:80-84 | The reported blank rows of a column are exactly its blank cells, in strictly ascending order. |
| TransformBetas.SameBlankRows | transform_betas.py:80-84 | Two columns blank in the same rows report the same blank rows. |
| TransformBetas.SameBlankCount | transform_betas.py:75-76 | Two tables blank in the same cells have the same blank count. |
| TransformBetas.BlankCount | transform_betas.py:75-86 | `isna().sum().sum()` is 0 exactly when every cell is defined, which selects the "all filled" branch. |
| TransformBetas.BlankCellsMatch | transform_betas.py:72-86 | With at least two pooled z-scores, the transformed table has exactly as many blank cells as the standardized table. |
| TransformBetas.SmallPoolAllBlank | transform_betas.py:52-59 | With fewer than two pooled z-scores every transformed cell is blank. |
| DateTag.BaseName | streamlit_app.py:14 | The base name is the suffix of the path after its last `/` and contains no `/`. |
| DateTag.LastDot | streamlit_app.py:14 | The index found holds a dot and no dot follows it; no index means no dot. |
| DateTag.Stem | streamlit_app.py:14 | When the base name has a last dot that is neither its first nor its last character, the stem is the part before that dot; otherwise the stem is the whole base name. |
| DateTag.StemDropsExtension | streamlit_app.py:14 | The stem of "base.ext" with no dot in ext and no slash anywhere is "base". |
| DateTag.BaseNameAfterSlash | streamlit_app.py:14 | The base name of "dir/name" is name when name holds no slash. |
| DateTag.StemOfPathDropsExtension | streamlit_app.py:14 | The stem of "dir/base.ext", with no slash in base or ext and no dot in ext, is "base". |
| DateTag.StemOfPlainName | streamlit_app.py:14 | A name with no slash and no dot is its own stem. |
| DateTag.ValidDate | streamlit_app.py:20 | The dates `strptime` and `datetime(...)` accept: month 1-12 and day 1-31; 29 February exactly in leap years; day 31 exactly in the seven long months. |
| DateTag.MatchesAt | streamlit_app.py:16 | A match of any of the three patterns lies within the stem and consists of digits and `-`/`_` separators only. |
| DateTag.Fields | streamlit_app.py:16-34 | A match denotes a year in 2000..2099 and a two-digit month and day. |
| DateTag.Search | streamlit_app.py:16 | `re.search`: the position returned is a match with no match further left; no position means no match anywhere. |
| DateTag.LeftmostUnique | streamlit_app.py:16 | A pattern has at most one leftmost match. |
| DateTag.TryPattern | streamlit_app.py:16-35 | One pattern's block yields a date exactly when its leftmost match is a real date, and then yields that date. |
| DateTag.ExtractDate | streamlit_app.py:13-37 | The chosen date is a real date: today, or the date a pattern denotes at its leftmost match in the stem. |
| DateTag.FormatDate | streamlit_app.py:37 | `strftime("%Y_%m_%d")` gives ten characters, digits everywhere except `_` at positions 4 and 7. |
| DateTag.FormatRoundTrip | streamlit_app.py:20 | Reading a formatted tag back gives the date. |
| DateTag.FormatInjective | streamlit_app.py:20 | Distinct dates get distinct tags. |
| DateTag.ExtractDateTag | streamlit_app.py:13-37 | The tag is ten characters YYYY_MM_DD and reads back to the extracted date. |
| DateTag.CompactFirst | streamlit_app.py:16-22 | A real date at the leftmost compact match decides the tag. |
| DateTag.YearFirstSecond | streamlit_app.py:23-28 | When the compact block falls through, a real date at the leftmost year-first match decides. |
| DateTag.MonthFirstThird | streamlit_app.py:30-35 | When both earlier blocks fall through, a real date at the leftmost month-first match decides. |
| DateTag.TodayWhenAllReject | streamlit_app.py:37 | When all three blocks fall through the tag is today's date. |
| DateTag.LaterCompactIgnored | streamlit_app.py:16-22 | A later valid compact match is ignored when the leftmost one is not a real date. |
| DateTag.MonthFirstExample | streamlit_app.py:30-35 | The name "07-07-2025" yields 7 July 2025. |

## Left out

- Reading and writing files, the Streamlit user interface, downloads and the
  `@st.cache_data` cache: I/O and presentation.
- The text clean-up of beta cells (non-breaking spaces, thousands commas,
  Unicode minus) and `pd.to_numeric(errors="coerce")`: cells arrive already
  parsed, an unparseable entry being a blank. The script's `astype(float)`,
  which raises on text, is likewise not modelled.
- `astype(str)` on the metadata columns: they are modelled as strings.
- The check that an upload has at least three columns (streamlit_app.py line
  146): part of the user interface.
- IEEE floating point: all arithmetic is exact. Rounding in the mean, the
  standard deviation and the rank is not modelled, nor infinities.
- The square root in `np.nanstd`: the standard deviation is an input related
  to the column by `IsSampleStdDev`.
- Pipeline.ProcessDataFrame: does not model the in-place update of a pandas
  DataFrame; tables are values and the loop rebuilds the column sequence.
- `datetime.today()`: a parameter; its year is required to have four digits,
  because `%Y` does not pad earlier years the same way on every platform.
- Unicode digits matched by `\d` and accepted by `int()`: only ASCII digits are
  modelled.
- `Path` corner cases: only `/` separates components; trailing slashes, `.`
  and `..` components and Windows separators are not modelled.
- The `print` calls of the script's report: the counts and blank rows they
  print are modelled, not the text.
