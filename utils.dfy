/** The sample-extraction and empirical-CDF helpers of `adaptiveheatmap.utils`:
    `finitevalues` (the finite entries of an array) and `cdf` (sorted samples paired
    with cumulative probabilities or counts). */
module Utils {
  import opened Numeric

  /** What `finitevalues` is given: a plain array or a numpy MaskedArray (its data and
      its mask), each flattened in C order. */
  datatype ArrayLike = Plain(values: seq<Num>) | Masked(values: seq<Num>, mask: seq<bool>)

  /** C-order flattening of a two-dimensional array. */
  function Flatten<T>(rows: seq<seq<T>>): (r: seq<T>)
    ensures rows == [] ==> r == []
  {
    if rows == [] then [] else rows[0] + Flatten(rows[1..])
  }

  /** `numpy.asarray`: a MaskedArray comes back as a plain ndarray of its data; the mask is
      dropped. */
  function AsArray(a: ArrayLike): (r: ArrayLike)
    ensures !IsMasked(r) && r.values == a.values
  {
    Plain(a.values)
  }

  /** `numpy.ma.is_masked`: a masked array with at least one entry masked. A plain array, or
      a masked array whose mask is all false, is not masked. */
  predicate IsMasked(a: ArrayLike)
    ensures a.Plain? ==> !IsMasked(a)
    ensures IsMasked(a) ==> |a.mask| > 0
    ensures a.Masked? && (forall i :: 0 <= i < |a.mask| ==> !a.mask[i]) ==> !IsMasked(a)
  {
    a.Masked? && exists i :: 0 <= i < |a.mask| && a.mask[i]
  }

  /** `data[numpy.isfinite(data)]`: the finite entries, in order. */
  function KeepFinite(s: seq<Num>): (r: seq<Num>)
    ensures |r| <= |s|
    ensures forall k :: 0 <= k < |r| ==> IsFinite(r[k])
  {
    if s == [] then []
    else (if IsFinite(s[0]) then [s[0]] else []) + KeepFinite(s[1..])
  }

  /** The filter keeps each finite value as often as it occurs and no other value. */
  lemma {:induction false} KeepFiniteCounts(s: seq<Num>)
    ensures forall x :: IsFinite(x) ==> multiset(KeepFinite(s))[x] == multiset(s)[x]
    ensures forall x :: !IsFinite(x) ==> multiset(KeepFinite(s))[x] == 0
  {
    if s != [] {
      KeepFiniteCounts(s[1..]);
      assert s == [s[0]] + s[1..];
    }
  }

  /** `finitevalues(data)`: the finite entries of `data`, one-dimensional. Every NaN and
      infinity is dropped and every finite entry kept, as often as it occurs. The
      `numpy.ma.is_masked` branch never runs, because `numpy.asarray` has already
      stripped the mask (see `AsArray`), so that branch is not part of the body. */
  function FiniteValues(data: ArrayLike): (r: seq<Num>)
    ensures |r| <= |data.values|
    ensures forall k :: 0 <= k < |r| ==> IsFinite(r[k])
  {
    KeepFinite(AsArray(data).values)
  }

  /** `finitevalues` keeps every finite entry of `data` as often as it occurs, and nothing else. */
  lemma FiniteValuesCounts(data: ArrayLike)
    ensures forall x :: IsFinite(x) ==> multiset(FiniteValues(data))[x] == multiset(data.values)[x]
    ensures forall x :: !IsFinite(x) ==> multiset(FiniteValues(data))[x] == 0
  {
    KeepFiniteCounts(data.values);
  }

  /** The mask has no effect: a masked array gives the same samples as its plain data. */
  lemma MaskIgnored(values: seq<Num>, mask: seq<bool>)
    ensures FiniteValues(Masked(values, mask)) == FiniteValues(Plain(values))
  {
  }

  /** The filter keeps the original order: filtering a concatenation filters each part. */
  lemma {:induction false} KeepFiniteDistributes(a: seq<Num>, b: seq<Num>)
    ensures KeepFinite(a + b) == KeepFinite(a) + KeepFinite(b)
  {
    if a == [] {
      assert a + b == b;
    } else {
      assert (a + b)[0] == a[0];
      assert (a + b)[1..] == a[1..] + b;
      KeepFiniteDistributes(a[1..], b);
    }
  }

  /** Arrays of finite values pass through unchanged. */
  lemma {:induction false} KeepFiniteOfFinite(s: seq<Num>)
    requires forall k :: 0 <= k < |s| ==> IsFinite(s[k])
    ensures KeepFinite(s) == s
  {
    if s != [] {
      KeepFiniteOfFinite(s[1..]);
    }
  }

  /** `finitevalues` is idempotent. */
  lemma FiniteValuesIdempotent(data: ArrayLike)
    ensures FiniteValues(Plain(FiniteValues(data))) == FiniteValues(data)
  {
    KeepFiniteOfFinite(FiniteValues(data));
  }

  /** The first docstring example: `finitevalues([1, nan, 2, 3])` is `[1., 2., 3.]`. */
  lemma ExampleList()
    ensures FiniteValues(Plain([Finite(1.0), NaN, Finite(2.0), Finite(3.0)]))
         == [Finite(1.0), Finite(2.0), Finite(3.0)]
  {
  }

  /** The second docstring example: the masked 2x4 array gives `[1., 2., 3., 4.]`, masked
      entries 1 and 3 included. */
  lemma ExampleMasked()
    ensures FiniteValues(Masked(
              Flatten([[Finite(1.0), NaN, Finite(2.0), Finite(3.0)],
                       [NegInf, Finite(4.0), PosInf, PosInf]]),
              Flatten([[true, false, false, true],
                       [true, false, true, false]])))
         == [Finite(1.0), Finite(2.0), Finite(3.0), Finite(4.0)]
  {
    var flat := [Finite(1.0), NaN, Finite(2.0), Finite(3.0), NegInf, Finite(4.0), PosInf, PosInf];
    assert Flatten([[Finite(1.0), NaN, Finite(2.0), Finite(3.0)],
                    [NegInf, Finite(4.0), PosInf, PosInf]]) == flat;
    assert KeepFinite(flat) == [Finite(1.0), Finite(2.0), Finite(3.0), Finite(4.0)];
  }

  /** The y values of a cumulative plot over `n` sorted samples. */
  datatype Ys = Probabilities(ps: seq<real>) | Counts(cs: seq<int>)

  /** Sorted samples `xs` and their cumulative values `ys`. */
  datatype Distribution = Distribution(xs: seq<Num>, ys: Ys)

  /** The y values `cdf` and `cumhist` compute from the sample count `n`:
      `numpy.linspace(1/n, 1, n)` when normed, else `numpy.arange(1, n)`. With no samples
      the normed path divides the Python integer 1 by 0. */
  function CumulativeYs(n: nat, normed: bool): (r: Result<Ys>)
    ensures r.Err? <==> normed && n == 0
    ensures r.Err? ==> r.error == ZeroDivisionError
    ensures r.Ok? ==> (r.value.Probabilities? <==> normed)
    ensures r.Ok? && normed ==> |r.value.ps| == n
    ensures r.Ok? && normed ==> forall k :: 0 <= k < n ==> r.value.ps[k] == (k + 1) as real / n as real
    ensures r.Ok? && !normed ==> |r.value.cs| == if n == 0 then 0 else n - 1
    ensures r.Ok? && !normed ==> forall k :: 0 <= k < |r.value.cs| ==> r.value.cs[k] == k + 1
  {
    if normed then
      if n == 0 then Err(ZeroDivisionError)
      else
        ProbabilitiesAreRanks(n);
        Ok(Probabilities(RankGrid(n)))
    else
      Ok(Counts(Arange(1, n)))
  }

  /** `numpy.linspace(1/n, 1, n)`, the normed cumulative probabilities of `n` samples. */
  function RankGrid(n: nat): (r: seq<real>)
    requires n >= 1
    ensures |r| == n
  {
    Linspace(1.0 / n as real, 1.0, n)
  }

  /** `numpy.linspace(1/n, 1, n)` is the sequence of ranks `(k + 1) / n`. */
  lemma ProbabilitiesAreRanks(n: nat)
    requires n >= 1
    ensures forall k :: 0 <= k < n ==> RankGrid(n)[k] == (k + 1) as real / n as real
  {
    var nr := n as real;
    if n >= 2 {
      var m := (n - 1) as real;
      var step := (1.0 - 1.0 / nr) / m;
      assert 1.0 - 1.0 / nr == m / nr;
      assert step * m == m / nr;
      assert (1.0 / nr) * m == m / nr;
      assert (step - 1.0 / nr) * m == 0.0;
      assert step == 1.0 / nr;
      forall k | 0 <= k < n
        ensures RankGrid(n)[k] == (k + 1) as real / nr
      {
        assert RankGrid(n)[k] == 1.0 / nr + (k as real) * step;
        assert (k as real) * (1.0 / nr) == (k as real) / nr;
        assert 1.0 / nr + (k as real) / nr == (k + 1) as real / nr;
      }
    }
  }

  /** The normed cumulative probabilities climb strictly from `1/n` and end at exactly 1. */
  lemma ProbabilitiesClimbToOne(n: nat)
    requires n >= 1
    ensures CumulativeYs(n, true).Ok?
    ensures StrictlyIncreasing(CumulativeYs(n, true).value.ps)
    ensures CumulativeYs(n, true).value.ps[0] == 1.0 / n as real
    ensures CumulativeYs(n, true).value.ps[n - 1] == 1.0
    ensures forall k :: 0 <= k < n ==> 0.0 < CumulativeYs(n, true).value.ps[k] <= 1.0
  {
    var nr := n as real;
    assert 1.0 / nr <= 1.0;
    LinspaceWithin(1.0 / nr, 1.0, n);
    LinspaceEnds(1.0 / nr, 1.0, n);
    if n >= 2 {
      assert 1.0 / nr < 1.0;
      LinspaceIncreasing(1.0 / nr, 1.0, n);
    }
  }

  /** `cdf(data, normed)`: the finite samples sorted, with their cumulative probabilities
      (or counts). */
  function Cdf(data: ArrayLike, normed: bool): (r: Result<Distribution>)
    ensures r.Err? <==> normed && FiniteValues(data) == []
    ensures r.Err? ==> r.error == ZeroDivisionError
    ensures r.Ok? ==> Sorted(r.value.xs)
    ensures r.Ok? ==> multiset(r.value.xs) == multiset(FiniteValues(data))
    ensures r.Ok? && normed ==> (r.value.ys.Probabilities? && |r.value.ys.ps| == |r.value.xs|
      && forall k :: 0 <= k < |r.value.xs| ==> r.value.ys.ps[k] == (k + 1) as real / |r.value.xs| as real)
    ensures r.Ok? && !normed ==> r.value.ys.Counts? && |r.value.ys.cs| == if r.value.xs == [] then 0 else |r.value.xs| - 1
    ensures r.Ok? && !normed ==> forall k :: 0 <= k < |r.value.ys.cs| ==> r.value.ys.cs[k] == k + 1
  {
    var xs := Sort(FiniteValues(data));
    match CumulativeYs(|xs|, normed)
    case Err(e) => Err(e)
    case Ok(ys) => Ok(Distribution(xs, ys))
  }

  /** The samples of `cdf` are finite, and they are the only sorted arrangement of the
      finite entries of `data`. */
  lemma CdfSamples(data: ArrayLike, normed: bool, xs: seq<Num>)
    requires Cdf(data, normed).Ok?
    ensures forall k :: 0 <= k < |Cdf(data, normed).value.xs| ==> IsFinite(Cdf(data, normed).value.xs[k])
    ensures Sorted(xs) && multiset(xs) == multiset(FiniteValues(data)) ==> xs == Cdf(data, normed).value.xs
  {
    var r := Cdf(data, normed).value.xs;
    forall k | 0 <= k < |r|
      ensures IsFinite(r[k])
    {
      assert r[k] in multiset(r);
    }
    if Sorted(xs) && multiset(xs) == multiset(FiniteValues(data)) {
      SortIsTheSortedPermutation(FiniteValues(data), xs);
    }
  }
}
