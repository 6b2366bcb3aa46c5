# adaptiveheatmap: quantile normalisation and empirical CDFs in Dafny

`adaptiveheatmap` colours a heatmap by rank rather than by linear position. A
`QuantileNormalize` holds a table of quantiles of the plotted data. It maps a value to
its left insertion index in that table (`numpy.searchsorted`), divided by
`len(table) - 1`. A side panel plots the empirical CDF of the data. That CDF comes
from `finitevalues`, which keeps the finite entries, and from `cdf`/`cumhist`, which
sort the samples and pair them with the cumulative probabilities `(k+1)/n` or with
counts.

This project models that logic with pure functions. It proves the properties the
code and its docstrings promise.

- `numeric.dfy` (module `Numeric`) holds the numbers and the numpy primitives.
  - A float64 entry is `Num = NegInf | Finite(real) | PosInf | NaN`. Finite values are
    exact rationals.
  - `Less` is numpy's NaN-aware order for sorting and searching: -inf, then the finite
    values, then +inf, then NaN.
  - `Sort` stands for `numpy.sort`. It is proved to be the one sorted permutation.
  - `Linspace` and `Arange` stand for `numpy.linspace` and `numpy.arange`. `Linspace`
    computes `start + k*step` as numpy does.
  - Python exceptions become `Result.Err(IndexError | ValueError | ZeroDivisionError)`.
- `utils.dfy` (module `Utils`) models `finitevalues`, the y values of the cumulative
  plot, and `cdf`.
- `core.dfy` (module `Core`) models `QuantileNormalize`, core.py's own copy of `cumhist`
  arithmetic, and how the two `cumhist` versions agree.
  - `QuantileNormalize` covers the constructor `New`, `__call__` as `Call`, and
    `from_data` as `FromData` with its probability grid `Grid`.
  - `Call` runs numpy's left binary search (`BinarySearch`). Then it divides as numpy
    does (`TrueDivide`).

Some behaviour the model follows from the code:

- **Division by zero in `__call__`.** The index is a numpy integer, and numpy's default
  error state only warns on division by zero. So a one-entry table does not raise: it
  gives NaN (0/0) at or below the entry and +inf above it (`SingleEntryDegenerate`).
  The default path builds such a table from data of size 1 (`FromDataSingleSample`).
- **Division by zero in `cdf` and `cumhist`.** `1/len(xs)` divides Python integers, so
  with no samples the normed path raises `ZeroDivisionError`. The model returns that as
  an `Err` result.
- **Default grid size.** The default grid has `min(data.size, 100)` points.
- **Masks are ignored.** `finitevalues` calls `numpy.asarray` first, and that drops a
  MaskedArray's mask. So masked finite entries are kept, as the second docstring example
  shows (`MaskIgnored`, `ExampleMasked`). The `is_masked` branch can never run
  (`AsArray`'s result is never masked), so it is not part of `FiniteValues`' body.
- **No clipping.** Values above the last table entry normalise to `len/(len-1) > 1`
  (`NoClipping`). The last entry normalises to exactly 1 only when it is strictly
  greater than the entry before it (`LastIsOneIff`).

## Model

| member | source | states |
|---|---|---|
| `Numeric.Less` | src/adaptiveheatmap/core.py:25 | the float order `searchsorted` and `sort` use: irreflexive, finite values by value, NaN above every other value and below none |
| `Numeric.OrderLaws` | src/adaptiveheatmap/utils.py:46 | the NaN-aware float order used to sort and search is a total order: irreflexive, total, antisymmetric, transitive |
| `Numeric.NaNIsGreatest` | src/adaptiveheatmap/core.py:53 | NaN is not less than any value, and only NaN is at or above NaN |
| `Numeric.Insert` | src/adaptiveheatmap/utils.py:46 | inserting into a sorted sequence keeps it sorted and adds exactly the one value to its multiset |
| `Numeric.Sort` | src/adaptiveheatmap/utils.py:46 | `numpy.sort` returns a sorted permutation of its input, of the same length |
| `Numeric.SortedPermutationUnique` | src/adaptiveheatmap/utils.py:46 | two sorted sequences with the same multiset are equal |
| `Numeric.SortIsTheSortedPermutation` | src/adaptiveheatmap/core.py:53 | any sorted permutation of the input is exactly `Sort`'s result |
| `Numeric.Linspace` | src/adaptiveheatmap/core.py:14 | `linspace(start, stop, num)` has `num` points and starts at `start`; its end, steps and range are stated by the four lemmas below |
| `Numeric.LinspaceEnds` | src/adaptiveheatmap/core.py:14 | `linspace(start, stop, num)` begins at `start` and, from two points on, ends exactly at `stop` |
| `Numeric.LinspaceSteps` | src/adaptiveheatmap/core.py:14 | consecutive `linspace` points are `(stop - start)/(num - 1)` apart |
| `Numeric.LinspaceIncreasing` | src/adaptiveheatmap/core.py:14 | `linspace` is strictly increasing when `start < stop` |
| `Numeric.LinspaceWithin` | src/adaptiveheatmap/core.py:14 | every `linspace` point lies in `[start, stop]` |
| `Utils.AsArray` | src/adaptiveheatmap/utils.py:35-37 | `numpy.asarray` keeps the values and drops the mask, so the `is_masked` test that follows is always false and the mask-compressing branch never runs |
| `Utils.IsMasked` | src/adaptiveheatmap/utils.py:36 | `numpy.ma.is_masked` is false for a plain array and for a masked array with no entry masked |
| `Utils.KeepFinite` | src/adaptiveheatmap/utils.py:39 | boolean indexing by `isfinite` yields only finite entries and never more entries than the input |
| `Utils.KeepFiniteCounts` | src/adaptiveheatmap/utils.py:39 | the finite filter keeps each finite value exactly as often as it occurs, and keeps no NaN or infinity |
| `Utils.FiniteValues` | src/adaptiveheatmap/utils.py:7-39 | `finitevalues` returns only finite values, no more of them than the input has entries |
| `Utils.FiniteValuesCounts` | src/adaptiveheatmap/utils.py:35-39 | `finitevalues` keeps every finite entry of the data with its multiplicity, and drops every NaN and infinity |
| `Utils.MaskIgnored` | src/adaptiveheatmap/utils.py:25-37 | a masked array gives the same samples as its plain data, whatever the mask |
| `Utils.KeepFiniteDistributes` | src/adaptiveheatmap/utils.py:39 | filtering a concatenation filters each part, in order, so the original order is kept |
| `Utils.KeepFiniteOfFinite` | src/adaptiveheatmap/utils.py:39 | an array of finite values passes the filter unchanged |
| `Utils.FiniteValuesIdempotent` | src/adaptiveheatmap/utils.py:39 | applying `finitevalues` twice gives the same result as applying it once |
| `Utils.ExampleList` | src/adaptiveheatmap/utils.py:23-24 | `finitevalues([1, nan, 2, 3])` is `[1, 2, 3]` |
| `Utils.ExampleMasked` | src/adaptiveheatmap/utils.py:25-32 | the masked 2x4 docstring example gives `[1, 2, 3, 4]`, masked 1 and 3 included |
| `Utils.CumulativeYs` | src/adaptiveheatmap/utils.py:48-51 | normed: n values `(k+1)/n`, and `ZeroDivisionError` exactly when n = 0; unnormed: the counts `1..n-1`, one fewer than the samples |
| `Utils.RankGrid` | src/adaptiveheatmap/utils.py:49 | `linspace(1/n, 1, n)` has n entries |
| `Utils.ProbabilitiesAreRanks` | src/adaptiveheatmap/utils.py:49 | the k-th entry of `linspace(1/n, 1, n)` is `(k+1)/n` |
| `Utils.ProbabilitiesClimbToOne` | src/adaptiveheatmap/utils.py:49 | normed probabilities start at `1/n`, climb strictly, lie in `(0, 1]`, and end at exactly 1 |
| `Utils.Cdf` | src/adaptiveheatmap/utils.py:42-52 | `cdf` fails exactly when normed with no finite samples; otherwise xs is a sorted permutation of `finitevalues(data)`; normed ys are the n probabilities `(k+1)/n`, unnormed ys the counts `1..n-1` |
| `Utils.CdfSamples` | src/adaptiveheatmap/utils.py:46 | `cdf`'s xs are all finite, and they are the only sorted arrangement of `finitevalues(data)` |
| `Core.New` | src/adaptiveheatmap/core.py:18-22 | the constructor stores the table unchanged, with `vmin` its first entry and `vmax` its last; an empty table raises `IndexError` |
| `Core.CountLess` | src/adaptiveheatmap/core.py:25 | the number of table entries below a value is at most the table's length |
| `Core.BinarySearch` | src/adaptiveheatmap/core.py:25 | numpy's left binary search returns a position within the range it searches |
| `Core.SearchSorted` | src/adaptiveheatmap/core.py:25 | `searchsorted` returns an insertion index between 0 and `len(table)` |
| `Core.Call` | src/adaptiveheatmap/core.py:24-26 | `norm(v)` is finite unless the table has exactly one entry, where it is NaN or +inf; from two entries on it lies in `[0, len/(len-1)]`, whatever the table's order; on sorted tables see `NormalizeIsRank`, `NormalizeMonotone`, `AtOrBelowFirstIsZero`, `NoClipping`, `LastIsOneIff` and `SingleEntryDegenerate` |
| `Core.TrueDivide` | src/adaptiveheatmap/core.py:26 | `idx / (len - 1)` is finite exactly when the divisor is non-zero, and then multiplies back to `idx`; 0/0 is NaN and k/0 is +inf |
| `Core.CountLessExact` | src/adaptiveheatmap/core.py:25 | if exactly the first k entries lie below v, then k entries lie below v |
| `Core.BinarySearchSplits` | src/adaptiveheatmap/core.py:25 | on a sorted table the binary search stops where the entries below v end and the others begin |
| `Core.SearchSortedIsCount` | src/adaptiveheatmap/core.py:25 | on a sorted table `searchsorted` equals the count of entries below v, and that count splits the table |
| `Core.CountLessMonotone` | src/adaptiveheatmap/core.py:25 | a larger value has at least as many table entries below it |
| `Core.NormalizeIsRank` | src/adaptiveheatmap/core.py:24-26 | for a sorted table of two or more entries, `norm(v)` is (entries below v) / (`len - 1`) |
| `Core.ClipIgnored` | src/adaptiveheatmap/core.py:18-26 | neither the call's `clip` argument nor the instance's `clip` flag changes the result |
| `Core.AtOrBelowFirstIsZero` | src/adaptiveheatmap/core.py:25-26 | every value at or below the first entry, the first entry included, normalises to 0 |
| `Core.NormalizeMonotone` | src/adaptiveheatmap/core.py:25-26 | `v1 <= v2` implies `norm(v1) <= norm(v2)`, both finite |
| `Core.NoClipping` | src/adaptiveheatmap/core.py:24-26 | results lie in `[0, len/(len-1)]`; values above the last entry give `len/(len-1)`, which is above 1 |
| `Core.LastIsOneIff` | src/adaptiveheatmap/core.py:24-26 | the last entry normalises to exactly 1 if and only if it is strictly greater than the entry before it |
| `Core.TopRankIff` | src/adaptiveheatmap/core.py:25 | in a sorted table, all but the last entry lie below the last one exactly when the second-to-last is strictly smaller |
| `Core.SingleEntryDegenerate` | src/adaptiveheatmap/core.py:26 | a one-entry table divides by zero: NaN at or below the entry, +inf above it |
| `Core.Grid` | src/adaptiveheatmap/core.py:11-14 | the probability grid fails (`ValueError`) exactly for a negative point count; an explicit grid is used as given |
| `Core.Percentages` | src/adaptiveheatmap/core.py:15 | `qs * 100` keeps the length and the (strict or non-strict) order of the grid, and lies in `[0, 100]` exactly when the grid lies in `[0, 1]` |
| `Core.FromData` | src/adaptiveheatmap/core.py:10-16 | a negative point count, or an explicit grid point outside `[0, 1]` (a percentage `nanpercentile` refuses), raises `ValueError`; a successful `from_data` keeps the `clip` flag and has a non-empty table |
| `Core.FromDataTable` | src/adaptiveheatmap/core.py:10-22 | with a well-behaved `nanpercentile`, a grid inside `[0, 1]` gives one table entry per grid point, sorted when the grid is non-decreasing; an empty grid raises `IndexError` |
| `Core.FromDataExplicitGrid` | src/adaptiveheatmap/core.py:10-22 | an explicit grid fails exactly when it is empty or has a point outside `[0, 1]`; otherwise the table has one entry per point, sorted for a non-decreasing grid |
| `Core.FromDataCount` | src/adaptiveheatmap/core.py:10-22 | a point count below 0 raises `ValueError`, 0 raises `IndexError`, and `num >= 1` gives a sorted table of `num` entries |
| `Core.DefaultGridShape` | src/adaptiveheatmap/core.py:11-14 | the default grid has `min(size, 100)` points `k/(points-1)`, from 0 to 1, strictly increasing, all in [0, 1]; one sample gives `[0]` |
| `Core.FromDataDefault` | src/adaptiveheatmap/core.py:10-22 | with the default grid, empty data raises `IndexError`; otherwise the table is sorted, has one entry per grid point, and is bounded by `vmin`/`vmax` |
| `Core.FromDataSingleSample` | src/adaptiveheatmap/core.py:10-26 | data of size 1 gives a one-entry table whose normalisation is NaN or +inf |
| `Core.FromDataRanks` | src/adaptiveheatmap/core.py:10-26 | from two samples on, the default normaliser maps `vmin` to 0 and is monotone |
| `Core.Cumhist` | src/adaptiveheatmap/core.py:48-53 | core `cumhist` fails exactly when normed on empty data; xs is the sorted data; normed ys are `(k+1)/n`; unnormed ys are the counts `1..n-1` |
| `Core.CumhistNaNsLast` | src/adaptiveheatmap/core.py:53 | in `cumhist`'s sorted data every NaN comes after all other values |
| `Core.CumhistAgreesWithCdf` | src/adaptiveheatmap/core.py:48-53 | on finite data, core `cumhist` computes exactly what `utils.cdf` does |

## Left out

- `numpy.nanpercentile` (src/adaptiveheatmap/core.py:15) is a function parameter. Its range check (`ValueError` for a percentage outside `[0, 100]`) is part of `FromData`. `PercentileContract` states what is relied on for percentages in range: one value per requested percentage, non-decreasing when the percentages are. Its interpolation is not modelled.
- `Core.Percentages`: an explicit `qs` is taken to be a numpy array. A Python list or tuple would instead be repeated 100 times by `qs * 100`, and that is not modelled.
- IEEE rounding in `linspace` and in division is not modelled. Arithmetic is exact. `-0.0` and `0.0` are the same value, and all NaNs are the same value.
- `finitevalues` flattens data of any dimension. `Flatten` covers the two-dimensional docstring example.
- `Core.Cumhist` models one-dimensional data only, which is what its caller passes (`get_zdata` flattens it, src/adaptiveheatmap/core.py:94 and 158). On a two-dimensional array `len` would count rows and `numpy.sort` would sort each row.
- `Core.Call` models a scalar `value` only. On an array of values numpy's vectorised search carries its search bounds from one key to the next, so on an unsorted table the result per element can differ from a scalar search; that is not modelled. The `masked_array` wrapper around the result masks nothing and is not modelled either.
- `Core.Call`: on an unsorted table the model runs the same binary search numpy does. Only the range of the result is claimed there, because numpy promises nothing more.
- `Numeric.Sort`: numpy's default sort is not stable. That cannot be observed here, because entries that compare equal are the same `Num`.
- `Core.Grid`: a non-integer scalar `qs` is not modelled. Newer numpy versions reject it in `linspace`.
- The `AdaptiveHeatmap` class (src/adaptiveheatmap/core.py:59-178) is left out: subplot layout, colorbars, tick and label setters, and `plot_main` dispatch. It is plotting-library plumbing with no logic of its own. Its `colorbar_quantile` just calls `__call__` on a grid.
- The shortcut factories (src/adaptiveheatmap/core.py:181-195) are left out. They are thin wrappers.
- The plotting halves of both `cumhist` functions (`ax.step`, `set_ylabel`) are left out. So is `undo_xylim`, which saves and restores axis limits.
- The demos, example scripts, smoke test and build configuration are scripts around the library and are left out.
- The point-query feature is not part of this model. Its implementation is not among the source files.
