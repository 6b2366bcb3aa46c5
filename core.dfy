/** The quantile colour normalisation of `adaptiveheatmap.core` (`QuantileNormalize`:
    `from_data`, the constructor and `__call__`) and the arithmetic half of its `cumhist`. */
module Core {
  import opened Numeric
  import Utils

  /** A `QuantileNormalize` instance: its quantile table, the `vmin`/`vmax` it passes on to
      `matplotlib.colors.Normalize`, and the `clip` flag. */
  datatype QuantileNormalize = QuantileNormalize(quantile: seq<Num>, vmin: Num, vmax: Num, clip: bool)

  /** `QuantileNormalize(quantile, clip)`: the table is stored as given and its first and
      last entries become `vmin` and `vmax`; an empty table fails at `quantile[0]`. */
  function New(quantile: seq<Num>, clip: bool): (r: Result<QuantileNormalize>)
    ensures r.Err? <==> quantile == []
    ensures r.Err? ==> r.error == IndexError
    ensures r.Ok? ==> r.value.quantile == quantile && r.value.clip == clip
    ensures r.Ok? ==> r.value.vmin == quantile[0] && r.value.vmax == quantile[|quantile| - 1]
  {
    if quantile == [] then Err(IndexError)
    else Ok(QuantileNormalize(quantile, quantile[0], quantile[|quantile| - 1], clip))
  }

  /** The number of entries of `a` that are less than `v` in numpy's float order. */
  function CountLess(a: seq<Num>, v: Num): (c: nat)
    ensures c <= |a|
  {
    if a == [] then 0 else (if Less(a[0], v) then 1 else 0) + CountLess(a[1..], v)
  }

  /** The left binary search `numpy.searchsorted` runs between `lo` and `hi`: it narrows
      the range to the first position whose entry is not less than `v`. */
  function BinarySearch(a: seq<Num>, v: Num, lo: nat, hi: nat): (r: nat)
    requires lo <= hi <= |a|
    ensures lo <= r <= hi
    decreases hi - lo
  {
    if lo == hi then lo
    else
      var mid := lo + (hi - lo) / 2;
      if Less(a[mid], v) then BinarySearch(a, v, mid + 1, hi) else BinarySearch(a, v, lo, mid)
  }

  /** `numpy.searchsorted(a, v)` with the default `side='left'`. */
  function SearchSorted(a: seq<Num>, v: Num): (r: nat)
    ensures r <= |a|
  {
    BinarySearch(a, v, 0, |a|)
  }

  /** numpy's true division of an integer index by the integer `den`. Under numpy's default
      error state a zero divisor does not raise: 0/0 is NaN and a positive index over 0 is
      +inf (with a RuntimeWarning). */
  function TrueDivide(num: nat, den: int): (r: Num)
    ensures r.Finite? <==> den != 0
    ensures den != 0 ==> r.val * (den as real) == num as real
    ensures den == 0 ==> (r == NaN <==> num == 0) && (r == PosInf <==> num > 0)
  {
    if den == 0 then (if num == 0 then NaN else PosInf)
    else Finite(num as real / den as real)
  }

  /** `QuantileNormalize.__call__(value, clip)`: the left insertion index of `value` in the
      table, divided by `len(table) - 1`. The `clip` argument, and the instance's own `clip`
      flag, play no part. */
  function Call(n: QuantileNormalize, value: Num, clip: Option<bool>): (r: Num)
    ensures r.Finite? <==> |n.quantile| != 1
    ensures |n.quantile| == 1 ==> r == NaN || r == PosInf
    ensures |n.quantile| >= 2 ==> 0.0 <= r.val <= |n.quantile| as real / (|n.quantile| - 1) as real
  {
    var idx := SearchSorted(n.quantile, value);
    if |n.quantile| >= 2 then
      var m := (|n.quantile| - 1) as real;
      DivideKeepsOrder(0.0, idx as real, m);
      DivideKeepsOrder(idx as real, |n.quantile| as real, m);
      TrueDivide(idx, |n.quantile| - 1)
    else
      TrueDivide(idx, |n.quantile| - 1)
  }

  /** If exactly the first `k` entries are below `v`, `k` entries are below `v`. */
  lemma {:induction false} CountLessExact(a: seq<Num>, v: Num, k: nat)
    requires k <= |a|
    requires forall i :: 0 <= i < k ==> Less(a[i], v)
    requires forall i :: k <= i < |a| ==> !Less(a[i], v)
    ensures CountLess(a, v) == k
  {
    if a != [] {
      var t := a[1..];
      if k == 0 {
        assert forall i :: 0 <= i < |t| ==> !Less(t[i], v) by {
          forall i | 0 <= i < |t| ensures !Less(t[i], v) {
            assert t[i] == a[i + 1];
          }
        }
        CountLessExact(t, v, 0);
      } else {
        assert forall i :: 0 <= i < k - 1 ==> Less(t[i], v) by {
          forall i | 0 <= i < k - 1 ensures Less(t[i], v) {
            assert t[i] == a[i + 1];
          }
        }
        assert forall i :: k - 1 <= i < |t| ==> !Less(t[i], v) by {
          forall i | k - 1 <= i < |t| ensures !Less(t[i], v) {
            assert t[i] == a[i + 1];
          }
        }
        CountLessExact(t, v, k - 1);
      }
    }
  }

  /** On a sorted table the binary search keeps the entries below `v` to the left of the
      range and the others to its right, and ends where the two meet. */
  lemma {:induction false} BinarySearchSplits(a: seq<Num>, v: Num, lo: nat, hi: nat)
    requires Sorted(a) && lo <= hi <= |a|
    requires forall i :: 0 <= i < lo ==> Less(a[i], v)
    requires forall i :: hi <= i < |a| ==> !Less(a[i], v)
    ensures forall i :: 0 <= i < BinarySearch(a, v, lo, hi) ==> Less(a[i], v)
    ensures forall i :: BinarySearch(a, v, lo, hi) <= i < |a| ==> !Less(a[i], v)
    decreases hi - lo
  {
    if lo < hi {
      var mid := lo + (hi - lo) / 2;
      if Less(a[mid], v) {
        forall i | 0 <= i <= mid
          ensures Less(a[i], v)
        {
          if i < mid {
            OrderLaws(a[i], a[mid], v);
          }
        }
        BinarySearchSplits(a, v, mid + 1, hi);
      } else {
        forall i | mid <= i < |a|
          ensures !Less(a[i], v)
        {
          if i > mid {
            OrderLaws(v, a[mid], a[i]);
          }
        }
        BinarySearchSplits(a, v, lo, mid);
      }
    }
  }

  /** On a sorted table `numpy.searchsorted` returns the number of entries below `v`, and
      that number splits the table into the entries below `v` and the rest. */
  lemma SearchSortedIsCount(a: seq<Num>, v: Num)
    requires Sorted(a)
    ensures SearchSorted(a, v) == CountLess(a, v)
    ensures forall i :: 0 <= i < CountLess(a, v) ==> Less(a[i], v)
    ensures forall i :: CountLess(a, v) <= i < |a| ==> !Less(a[i], v)
  {
    BinarySearchSplits(a, v, 0, |a|);
    CountLessExact(a, v, SearchSorted(a, v));
  }

  /** More entries lie below a larger value. */
  lemma {:induction false} CountLessMonotone(a: seq<Num>, v1: Num, v2: Num)
    requires LessEq(v1, v2)
    ensures CountLess(a, v1) <= CountLess(a, v2)
  {
    if a != [] {
      OrderLaws(a[0], v1, v2);
      CountLessMonotone(a[1..], v1, v2);
    }
  }

  /** Normalising `v` against a sorted table of two or more entries gives the number of
      entries below `v` over `len(table) - 1`. */
  lemma NormalizeIsRank(n: QuantileNormalize, v: Num, clip: Option<bool>)
    requires Sorted(n.quantile) && |n.quantile| >= 2
    ensures Call(n, v, clip) == Finite(CountLess(n.quantile, v) as real / (|n.quantile| - 1) as real)
  {
    SearchSortedIsCount(n.quantile, v);
  }

  /** Neither the `clip` argument nor the instance's `clip` flag changes the result. */
  lemma ClipIgnored(n: QuantileNormalize, v: Num, clip1: Option<bool>, clip2: Option<bool>, flag: bool)
    ensures Call(n, v, clip1) == Call(n.(clip := flag), v, clip2)
  {
  }

  /** Every value at or below the first entry of a sorted table, the first entry (`vmin`)
      included, normalises to 0. */
  lemma AtOrBelowFirstIsZero(n: QuantileNormalize, v: Num, clip: Option<bool>)
    requires Sorted(n.quantile) && |n.quantile| >= 2
    requires LessEq(v, n.quantile[0])
    ensures Call(n, v, clip) == Finite(0.0)
  {
    var q := n.quantile;
    forall i | 0 <= i < |q|
      ensures !Less(q[i], v)
    {
      OrderLaws(v, q[0], q[i]);
    }
    CountLessExact(q, v, 0);
    NormalizeIsRank(n, v, clip);
  }

  /** Normalisation against a sorted table is monotone. */
  lemma NormalizeMonotone(n: QuantileNormalize, v1: Num, v2: Num, clip: Option<bool>)
    requires Sorted(n.quantile) && |n.quantile| >= 2
    requires LessEq(v1, v2)
    ensures Call(n, v1, clip).Finite? && Call(n, v2, clip).Finite?
    ensures Call(n, v1, clip).val <= Call(n, v2, clip).val
  {
    NormalizeIsRank(n, v1, clip);
    NormalizeIsRank(n, v2, clip);
    CountLessMonotone(n.quantile, v1, v2);
    DivideKeepsOrder(CountLess(n.quantile, v1) as real, CountLess(n.quantile, v2) as real, (|n.quantile| - 1) as real);
  }

  lemma DivideKeepsOrder(x: real, y: real, m: real)
    requires x <= y && m > 0.0
    ensures x / m <= y / m
  {
    assert y / m - x / m == (y - x) / m;
  }

  /** Nothing is clipped: results range over `[0, len/(len-1)]`, and every value above the
      last entry of a sorted table gets `len/(len-1)`, which exceeds 1. */
  lemma NoClipping(n: QuantileNormalize, v: Num, clip: Option<bool>)
    requires Sorted(n.quantile) && |n.quantile| >= 2
    ensures Call(n, v, clip).Finite?
    ensures 0.0 <= Call(n, v, clip).val <= |n.quantile| as real / (|n.quantile| - 1) as real
    ensures Less(n.quantile[|n.quantile| - 1], v) ==>
      Call(n, v, clip).val == |n.quantile| as real / (|n.quantile| - 1) as real > 1.0
  {
    var q := n.quantile;
    var m := (|q| - 1) as real;
    NormalizeIsRank(n, v, clip);
    DivideKeepsOrder(0.0, CountLess(q, v) as real, m);
    DivideKeepsOrder(CountLess(q, v) as real, |q| as real, m);
    if Less(q[|q| - 1], v) {
      forall i | 0 <= i < |q|
        ensures Less(q[i], v)
      {
        OrderLaws(q[i], q[|q| - 1], v);
      }
      CountLessExact(q, v, |q|);
      assert |q| as real / m > 1.0 by {
        assert |q| as real / m == 1.0 + 1.0 / m;
      }
    }
  }

  /** The last entry of a sorted table normalises to exactly 1 if and only if it is
      strictly greater than the entry before it; a tie at the top leaves it below 1. */
  lemma LastIsOneIff(n: QuantileNormalize, clip: Option<bool>)
    requires Sorted(n.quantile) && |n.quantile| >= 2
    ensures var q := n.quantile;
      Call(n, q[|q| - 1], clip) == Finite(1.0) <==> Less(q[|q| - 2], q[|q| - 1])
  {
    var q := n.quantile;
    var top := q[|q| - 1];
    NormalizeIsRank(n, top, clip);
    TopRankIff(q);
    RatioIsOneIff(CountLess(q, top), |q| - 1);
  }

  /** In a sorted table, all but the last entry lie below the last one exactly when the
      entry before it is strictly smaller. */
  lemma TopRankIff(q: seq<Num>)
    requires Sorted(q) && |q| >= 2
    ensures CountLess(q, q[|q| - 1]) == |q| - 1 <==> Less(q[|q| - 2], q[|q| - 1])
  {
    var top := q[|q| - 1];
    SearchSortedIsCount(q, top);
    if Less(q[|q| - 2], top) {
      forall i | 0 <= i < |q| - 1
        ensures Less(q[i], top)
      {
        OrderLaws(q[i], q[|q| - 2], top);
      }
      OrderLaws(top, top, top);
      CountLessExact(q, top, |q| - 1);
    }
  }

  lemma RatioIsOneIff(c: nat, m: nat)
    requires m >= 1
    ensures c as real / m as real == 1.0 <==> c == m
  {
    if c as real / m as real == 1.0 {
      assert c as real == (c as real / m as real) * m as real;
    }
  }

  /** A one-entry table divides by zero: values at or below the entry give NaN (0/0), values
      above it +inf (1/0). */
  lemma SingleEntryDegenerate(n: QuantileNormalize, v: Num, clip: Option<bool>)
    requires |n.quantile| == 1
    ensures Call(n, v, clip) == if LessEq(v, n.quantile[0]) then NaN else PosInf
  {
  }

  /** The `qs` argument of `from_data`: absent, a number of grid points, or an explicit
      probability grid. */
  datatype QsArg = DefaultQs | Count(num: int) | Points(ps: seq<real>)

  /** `numpy.nanpercentile(data, percentages)`, which the model leaves abstract. */
  type Percentile = (seq<Num>, seq<real>) -> seq<Num>

  predicate NonDecreasing(p: seq<real>) {
    forall i, j :: 0 <= i < j < |p| ==> p[i] <= p[j]
  }

  predicate InUnitRange(p: seq<real>) {
    forall k :: 0 <= k < |p| ==> 0.0 <= p[k] <= 1.0
  }

  predicate InPercentRange(p: seq<real>) {
    forall k :: 0 <= k < |p| ==> 0.0 <= p[k] <= 100.0
  }

  /** What `numpy.nanpercentile` is relied on to deliver for percentages in `[0, 100]` (it
      raises `ValueError` on any other): one value per requested percentage, non-decreasing
      when the percentages are. */
  ghost predicate PercentileContract(pct: Percentile) {
    forall data, ps :: InPercentRange(ps) ==>
      |pct(data, ps)| == |ps| && (NonDecreasing(ps) ==> Sorted(pct(data, ps)))
  }

  function Min(a: int, b: int): int {
    if a <= b then a else b
  }

  /** The probability grid of `from_data`: with no `qs`, `min(data.size, 100)` points; a
      number becomes `numpy.linspace(0, 1, qs)` (a negative one is refused by `linspace`);
      an explicit grid is used as given. */
  function Grid(size: nat, qs: QsArg): (r: Result<seq<real>>)
    ensures r.Err? <==> qs.Count? && qs.num < 0
    ensures r.Err? ==> r.error == ValueError
    ensures qs.Points? ==> r == Ok(qs.ps)
  {
    match qs
    case DefaultQs => Ok(Linspace(0.0, 1.0, Min(size, 100)))
    case Count(num) => if num < 0 then Err(ValueError) else Ok(Linspace(0.0, 1.0, num))
    case Points(ps) => Ok(ps)
  }

  /** `qs * 100`: probabilities as the percentages `nanpercentile` expects. */
  function Percentages(grid: seq<real>): (r: seq<real>)
    ensures |r| == |grid|
    ensures NonDecreasing(grid) ==> NonDecreasing(r)
    ensures StrictlyIncreasing(grid) ==> StrictlyIncreasing(r)
    ensures InPercentRange(r) <==> InUnitRange(grid)
  {
    var r := seq(|grid|, k requires 0 <= k < |grid| => 100.0 * grid[k]);
    assert InUnitRange(grid) ==> InPercentRange(r);
    assert InPercentRange(r) ==> InUnitRange(grid) by {
      if InPercentRange(r) {
        forall k | 0 <= k < |grid|
          ensures 0.0 <= grid[k] <= 1.0
        {
          assert 0.0 <= r[k] <= 100.0;
        }
      }
    }
    r
  }

  /** `QuantileNormalize.from_data(data, qs, clip=clip)`, with `nanpercentile` given as `pct`.
      `nanpercentile` first refuses any percentage outside `[0, 100]` with `ValueError`; an
      empty table then fails in the constructor. */
  function FromData(data: seq<Num>, qs: QsArg, clip: bool, pct: Percentile): (r: Result<QuantileNormalize>)
    ensures qs.Count? && qs.num < 0 ==> r == Err(ValueError)
    ensures qs.Points? && !InUnitRange(qs.ps) ==> r == Err(ValueError)
    ensures r.Ok? ==> r.value.clip == clip && |r.value.quantile| > 0
  {
    match Grid(|data|, qs)
    case Err(e) => Err(e)
    case Ok(grid) =>
      var percentages := Percentages(grid);
      if !InPercentRange(percentages) then Err(ValueError)
      else New(pct(data, percentages), clip)
  }

  /** The default grid has `min(size, 100)` points `k / (points - 1)`, from 0 to 1 and
      strictly increasing; one sample gives the single point `[0]`. */
  lemma DefaultGridShape(size: nat)
    ensures Grid(size, DefaultQs).Ok?
    ensures var g := Grid(size, DefaultQs).value;
      && |g| == Min(size, 100)
      && (|g| >= 2 ==> forall k :: 0 <= k < |g| ==> g[k] == k as real / (|g| - 1) as real)
      && (|g| >= 2 ==> g[0] == 0.0 && g[|g| - 1] == 1.0)
      && (|g| == 1 ==> g == [0.0])
      && StrictlyIncreasing(g)
      && (forall k :: 0 <= k < |g| ==> 0.0 <= g[k] <= 1.0)
  {
    var num := Min(size, 100);
    var g := Linspace(0.0, 1.0, num);
    LinspaceEnds(0.0, 1.0, num);
    LinspaceIncreasing(0.0, 1.0, num);
    LinspaceWithin(0.0, 1.0, num);
    if num >= 2 {
      forall k | 0 <= k < num
        ensures g[k] == k as real / (num - 1) as real
      {
        assert g[k] == 0.0 + (k as real) * (1.0 / (num - 1) as real);
      }
    }
  }

  /** With the default grid and a well-behaved `nanpercentile`, `from_data` fails on empty
      data and otherwise builds a sorted table of one entry per grid point, bounded by
      `vmin` and `vmax`. */
  lemma FromDataDefault(data: seq<Num>, clip: bool, pct: Percentile)
    requires PercentileContract(pct)
    ensures data == [] ==> FromData(data, DefaultQs, clip, pct) == Err(IndexError)
    ensures data != [] ==> FromData(data, DefaultQs, clip, pct).Ok?
    ensures FromData(data, DefaultQs, clip, pct).Ok? ==>
      var n := FromData(data, DefaultQs, clip, pct).value;
      && |n.quantile| == Min(|data|, 100)
      && Sorted(n.quantile)
      && n.vmin == n.quantile[0] && n.vmax == n.quantile[|n.quantile| - 1]
  {
    DefaultGridShape(|data|);
    FromDataTable(data, DefaultQs, clip, pct);
  }

  /** Whatever the grid, a well-behaved `nanpercentile` and a non-empty grid inside
      `[0, 1]` give a table of one entry per grid point, sorted when the grid is
      non-decreasing; an empty grid fails in the constructor. */
  lemma FromDataTable(data: seq<Num>, qs: QsArg, clip: bool, pct: Percentile)
    requires PercentileContract(pct)
    ensures Grid(|data|, qs).Ok? && InUnitRange(Grid(|data|, qs).value) ==>
      var g := Grid(|data|, qs).value;
      && (g == [] ==> FromData(data, qs, clip, pct) == Err(IndexError))
      && (g != [] ==> FromData(data, qs, clip, pct).Ok?
                      && |FromData(data, qs, clip, pct).value.quantile| == |g|
                      && (NonDecreasing(g) ==> Sorted(FromData(data, qs, clip, pct).value.quantile)))
  {
    if Grid(|data|, qs).Ok? && InUnitRange(Grid(|data|, qs).value) {
      var ps := Percentages(Grid(|data|, qs).value);
      assert |pct(data, ps)| == |ps|;
    }
  }

  /** An explicit grid: a point outside `[0, 1]` raises `ValueError`, an empty grid
      `IndexError`; otherwise the table has one entry per point, sorted when the points are
      non-decreasing. */
  lemma FromDataExplicitGrid(data: seq<Num>, ps: seq<real>, clip: bool, pct: Percentile)
    requires PercentileContract(pct)
    ensures FromData(data, Points(ps), clip, pct).Err? <==> ps == [] || !InUnitRange(ps)
    ensures FromData(data, Points(ps), clip, pct).Ok? ==>
      && |FromData(data, Points(ps), clip, pct).value.quantile| == |ps|
      && (NonDecreasing(ps) ==> Sorted(FromData(data, Points(ps), clip, pct).value.quantile))
  {
    FromDataTable(data, Points(ps), clip, pct);
  }

  /** A point count: a negative one raises `ValueError` and zero `IndexError`; `num >= 1`
      gives a sorted table of `num` entries. */
  lemma FromDataCount(data: seq<Num>, num: int, clip: bool, pct: Percentile)
    requires PercentileContract(pct)
    ensures num < 0 ==> FromData(data, Count(num), clip, pct) == Err(ValueError)
    ensures num == 0 ==> FromData(data, Count(num), clip, pct) == Err(IndexError)
    ensures num >= 1 ==> FromData(data, Count(num), clip, pct).Ok?
    ensures num >= 1 ==> |FromData(data, Count(num), clip, pct).value.quantile| == num
    ensures num >= 1 ==> Sorted(FromData(data, Count(num), clip, pct).value.quantile)
  {
    if num >= 0 {
      LinspaceWithin(0.0, 1.0, num);
      LinspaceIncreasing(0.0, 1.0, num);
      FromDataTable(data, Count(num), clip, pct);
    }
  }

  /** One sample gives a one-point grid, hence a one-entry table, and every normalised value
      is NaN or +inf: the degenerate division the default path allows. */
  lemma FromDataSingleSample(data: seq<Num>, clip: bool, pct: Percentile, v: Num, c: Option<bool>)
    requires PercentileContract(pct) && |data| == 1
    ensures FromData(data, DefaultQs, clip, pct).Ok?
    ensures var n := FromData(data, DefaultQs, clip, pct).value;
      |n.quantile| == 1 && Call(n, v, c) == if LessEq(v, n.vmin) then NaN else PosInf
  {
    FromDataDefault(data, clip, pct);
    SingleEntryDegenerate(FromData(data, DefaultQs, clip, pct).value, v, c);
  }

  /** From two samples on, the default normaliser maps `vmin` to 0 and ranks values
      monotonically. */
  lemma FromDataRanks(data: seq<Num>, clip: bool, pct: Percentile, v1: Num, v2: Num, c: Option<bool>)
    requires PercentileContract(pct) && |data| >= 2
    requires LessEq(v1, v2)
    ensures FromData(data, DefaultQs, clip, pct).Ok?
    ensures var n := FromData(data, DefaultQs, clip, pct).value;
      && Call(n, n.vmin, c) == Finite(0.0)
      && Call(n, v1, c).Finite? && Call(n, v2, c).Finite?
      && Call(n, v1, c).val <= Call(n, v2, c).val
  {
    FromDataDefault(data, clip, pct);
    var n := FromData(data, DefaultQs, clip, pct).value;
    OrderLaws(n.vmin, n.vmin, n.vmin);
    AtOrBelowFirstIsZero(n, n.vmin, c);
    NormalizeMonotone(n, v1, v2, c);
  }

  /** The arithmetic of `core.cumhist(data, normed)`: the y values for `len(data)` samples,
      then the data sorted as given (NaNs and infinities are not filtered out here). */
  function Cumhist(data: seq<Num>, normed: bool): (r: Result<Utils.Distribution>)
    ensures r.Err? <==> normed && data == []
    ensures r.Err? ==> r.error == ZeroDivisionError
    ensures r.Ok? ==> Sorted(r.value.xs) && multiset(r.value.xs) == multiset(data)
    ensures r.Ok? && normed ==> (r.value.ys.Probabilities? && |r.value.ys.ps| == |r.value.xs| == |data|
      && forall k :: 0 <= k < |data| ==> r.value.ys.ps[k] == (k + 1) as real / |data| as real)
    ensures r.Ok? && !normed ==> r.value.ys.Counts? && |r.value.ys.cs| == if data == [] then 0 else |data| - 1
    ensures r.Ok? && !normed ==> forall k :: 0 <= k < |r.value.ys.cs| ==> r.value.ys.cs[k] == k + 1
  {
    match Utils.CumulativeYs(|data|, normed)
    case Err(e) => Err(e)
    case Ok(ys) => Ok(Utils.Distribution(Sort(data), ys))
  }

  /** In `cumhist`'s sorted samples every NaN comes after every other value. */
  lemma CumhistNaNsLast(data: seq<Num>, normed: bool, i: nat, j: nat)
    requires Cumhist(data, normed).Ok?
    requires i < j < |Cumhist(data, normed).value.xs|
    requires Cumhist(data, normed).value.xs[i] == NaN
    ensures Cumhist(data, normed).value.xs[j] == NaN
  {
    var xs := Cumhist(data, normed).value.xs;
    assert LessEq(xs[i], xs[j]);
    NaNIsGreatest(xs[j]);
  }

  /** On finite data the two `cumhist` functions agree: `core.cumhist` computes what
      `utils.cdf` does. */
  lemma CumhistAgreesWithCdf(data: seq<Num>, normed: bool)
    requires forall k :: 0 <= k < |data| ==> IsFinite(data[k])
    ensures Cumhist(data, normed) == Utils.Cdf(Utils.Plain(data), normed)
  {
    Utils.KeepFiniteOfFinite(data);
  }
}
