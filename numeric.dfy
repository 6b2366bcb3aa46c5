/** Values as a float64 numpy array holds them, with exact arithmetic in place of
    IEEE rounding, and the numpy primitives the heatmap code relies on: the NaN-aware
    sort order, `numpy.sort`, `numpy.linspace` and `numpy.arange`. */
module Numeric {

  /** The Python exceptions the modelled code can raise. */
  datatype Error = IndexError | ValueError | ZeroDivisionError

  datatype Result<T> = Ok(value: T) | Err(error: Error)

  datatype Option<T> = None | Some(value: T)

  /** One float64 entry: a finite value (an exact rational here), an infinity, or NaN. */
  datatype Num = NegInf | Finite(val: real) | PosInf | NaN

  predicate IsFinite(x: Num) {
    x.Finite?
  }

  /** Where a kind of value stands in numpy's float order: -inf, the finite values,
      +inf, and NaN after everything else. */
  function Tier(x: Num): nat {
    match x
    case NegInf => 0
    case Finite(_) => 1
    case PosInf => 2
    case NaN => 3
  }

  /** The strict order `numpy.sort` and `numpy.searchsorted` compare floats by: finite
      values by their value, and NaN above everything, +inf included. */
  predicate Less(a: Num, b: Num)
    ensures Less(a, b) ==> a != b && Tier(a) <= Tier(b)
    ensures a == NaN ==> !Less(a, b)
    ensures a != NaN && b == NaN ==> Less(a, b)
    ensures a.Finite? && b.Finite? ==> (Less(a, b) <==> a.val < b.val)
  {
    Tier(a) < Tier(b) || (a.Finite? && b.Finite? && a.val < b.val)
  }

  predicate LessEq(a: Num, b: Num) {
    !Less(b, a)
  }

  /** The NaN-aware order is a total order on `Num` (all NaNs are the same value). */
  lemma OrderLaws(a: Num, b: Num, c: Num)
    ensures !Less(a, a)
    ensures LessEq(a, b) || LessEq(b, a)
    ensures LessEq(a, b) && LessEq(b, a) ==> a == b
    ensures LessEq(a, b) && LessEq(b, c) ==> LessEq(a, c)
    ensures Less(a, b) && LessEq(b, c) ==> Less(a, c)
    ensures LessEq(a, b) && Less(b, c) ==> Less(a, c)
  {
  }

  /** NaN is the greatest value of the order. */
  lemma NaNIsGreatest(a: Num)
    ensures LessEq(a, NaN)
    ensures LessEq(NaN, a) ==> a == NaN
  {
  }

  predicate Sorted(s: seq<Num>) {
    forall i, j :: 0 <= i < j < |s| ==> LessEq(s[i], s[j])
  }

  /** Insertion of one value into a sorted sequence (the step of the sort below). */
  function Insert(x: Num, s: seq<Num>): (r: seq<Num>)
    requires Sorted(s)
    ensures Sorted(r)
    ensures multiset(r) == multiset(s) + multiset{x}
    ensures forall k :: 0 <= k < |r| ==> r[k] == x || r[k] in s
    decreases |s|
  {
    if s == [] || LessEq(x, s[0]) then
      [x] + s
    else
      var rest := Insert(x, s[1..]);
      assert s == [s[0]] + s[1..];
      HeadBoundsInsert(x, s, rest);
      [s[0]] + rest
  }

  /** Every value of a sorted sequence's tail, and a value greater than its head,
      is bounded below by its head; so the head may stay in front. */
  lemma HeadBoundsInsert(x: Num, s: seq<Num>, rest: seq<Num>)
    requires Sorted(s) && |s| > 0 && Less(s[0], x) && Sorted(rest)
    requires forall k :: 0 <= k < |rest| ==> rest[k] == x || rest[k] in s[1..]
    ensures Sorted([s[0]] + rest)
  {
    forall k | 0 <= k < |rest|
      ensures LessEq(s[0], rest[k])
    {
      if rest[k] != x {
        var j :| 0 <= j < |s[1..]| && s[1..][j] == rest[k];
        assert s[j + 1] == rest[k];
      }
    }
    var t := [s[0]] + rest;
    forall i, j | 0 <= i < j < |t|
      ensures LessEq(t[i], t[j])
    {
      if i > 0 {
        assert t[i] == rest[i - 1] && t[j] == rest[j - 1];
      } else {
        assert t[j] == rest[j - 1];
      }
    }
  }

  /** `numpy.sort` on a flat array: it returns a sorted copy. */
  function Sort(s: seq<Num>): (r: seq<Num>)
    ensures Sorted(r)
    ensures multiset(r) == multiset(s)
    ensures |r| == |s|
  {
    if s == [] then []
    else
      assert s == [s[0]] + s[1..];
      var r := Insert(s[0], Sort(s[1..]));
      assert |r| == |multiset(r)|;
      r
  }

  /** The first entry of a non-empty sorted sequence is no greater than any value in it. */
  lemma {:induction false} SortedHeadIsLeast(s: seq<Num>, y: Num)
    requires Sorted(s) && |s| > 0 && y in multiset(s)
    ensures LessEq(s[0], y)
  {
    var j :| 0 <= j < |s| && s[j] == y;
    if j > 0 {
      assert LessEq(s[0], s[j]);
    }
  }

  /** A sorted permutation is unique: whatever sorts a sequence produces exactly `Sort`'s
      result, so `Sort` is as good a stand-in for `numpy.sort` as any other sort. */
  lemma {:induction false} SortedPermutationUnique(a: seq<Num>, b: seq<Num>)
    requires Sorted(a) && Sorted(b)
    requires multiset(a) == multiset(b)
    ensures a == b
    decreases |a|
  {
    assert |a| == |multiset(a)| == |multiset(b)| == |b|;
    if a != [] {
      assert a[0] in multiset(a);
      assert b[0] in multiset(b);
      SortedHeadIsLeast(b, a[0]);
      SortedHeadIsLeast(a, b[0]);
      OrderLaws(a[0], b[0], b[0]);
      assert a == [a[0]] + a[1..];
      assert b == [b[0]] + b[1..];
      assert multiset(a[1..]) == multiset(a) - multiset{a[0]};
      assert multiset(b[1..]) == multiset(b) - multiset{b[0]};
      SortedPermutationUnique(a[1..], b[1..]);
    }
  }

  lemma SortIsTheSortedPermutation(s: seq<Num>, r: seq<Num>)
    requires Sorted(r) && multiset(r) == multiset(s)
    ensures r == Sort(s)
  {
    SortedPermutationUnique(r, Sort(s));
  }

  /** `numpy.linspace(start, stop, num)`: `num` points from `start` to `stop` inclusive,
      computed as numpy does, `start + k * step` with `step = (stop - start) / (num - 1)`;
      one point is `[start]`, zero points the empty array. */
  function Linspace(start: real, stop: real, num: nat): (r: seq<real>)
    ensures |r| == num
    ensures num >= 1 ==> r[0] == start
  {
    if num == 1 then [start]
    else
      var step := (stop - start) / ((num - 1) as real);
      seq(num, k requires 0 <= k < num => start + (k as real) * step)
  }

  predicate StrictlyIncreasing(s: seq<real>) {
    forall i, j :: 0 <= i < j < |s| ==> s[i] < s[j]
  }

  /** `numpy.linspace` starts at `start` and ends exactly at `stop`. */
  lemma LinspaceEnds(start: real, stop: real, num: nat)
    ensures num >= 1 ==> Linspace(start, stop, num)[0] == start
    ensures num >= 2 ==> Linspace(start, stop, num)[num - 1] == stop
  {
    if num >= 2 {
      var m := (num - 1) as real;
      var step := (stop - start) / m;
      assert Linspace(start, stop, num)[num - 1] == start + m * step;
      assert m * step == stop - start;
    }
  }

  /** Consecutive points of `numpy.linspace` are one equal step apart. */
  lemma LinspaceSteps(start: real, stop: real, num: nat, k: nat)
    requires num >= 2 && k + 1 < num
    ensures Linspace(start, stop, num)[k + 1] - Linspace(start, stop, num)[k] == (stop - start) / ((num - 1) as real)
  {
    var step := (stop - start) / ((num - 1) as real);
    assert ((k + 1) as real) * step == (k as real) * step + step;
  }

  /** `numpy.linspace` climbs strictly when `start < stop`. */
  lemma LinspaceIncreasing(start: real, stop: real, num: nat)
    requires start < stop
    ensures StrictlyIncreasing(Linspace(start, stop, num))
  {
    var r := Linspace(start, stop, num);
    forall i, j | 0 <= i < j < num
      ensures r[i] < r[j]
    {
      PointsGrow(start, stop, num, i, j);
    }
  }

  /** Every point of `numpy.linspace` lies between `start` and `stop`. */
  lemma LinspaceWithin(start: real, stop: real, num: nat)
    requires start <= stop
    ensures forall k :: 0 <= k < num ==> start <= Linspace(start, stop, num)[k] <= stop
  {
    forall k | 0 <= k < num
      ensures start <= Linspace(start, stop, num)[k] <= stop
    {
      PointWithin(start, stop, num, k);
    }
  }

  lemma PointsGrow(start: real, stop: real, num: nat, i: nat, j: nat)
    requires start < stop && i < j < num
    ensures Linspace(start, stop, num)[i] < Linspace(start, stop, num)[j]
  {
    var step := (stop - start) / ((num - 1) as real);
    assert step > 0.0;
    assert Linspace(start, stop, num)[i] == start + (i as real) * step;
    assert Linspace(start, stop, num)[j] == start + (j as real) * step;
    assert (j as real) * step - (i as real) * step == ((j - i) as real) * step;
  }

  lemma PointWithin(start: real, stop: real, num: nat, k: nat)
    requires start <= stop && k < num
    ensures start <= Linspace(start, stop, num)[k] <= stop
  {
    if num >= 2 {
      var m := (num - 1) as real;
      var step := (stop - start) / m;
      assert Linspace(start, stop, num)[k] == start + (k as real) * step;
      StepsStayWithin(k as real, m, step, stop - start);
    }
  }

  /** `k` steps of `width / m` stay within `[0, width]` while `0 <= k <= m`. */
  lemma StepsStayWithin(k: real, m: real, step: real, width: real)
    requires 0.0 <= k <= m && m > 0.0 && width >= 0.0 && step == width / m
    ensures 0.0 <= k * step <= width
  {
    assert step >= 0.0;
    assert m * step == width;
    assert m * step - k * step == (m - k) * step;
  }

  /** `numpy.arange(start, stop)` on integers: `start, start + 1, ..., stop - 1`. */
  function Arange(start: int, stop: int): (r: seq<int>)
    ensures |r| == if stop <= start then 0 else stop - start
    ensures forall k :: 0 <= k < |r| ==> r[k] == start + k
  {
    if stop <= start then [] else seq(stop - start, k => start + k)
  }
}
