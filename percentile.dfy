/** NumPy's `np.percentile` with its default linear interpolation, over the
    reals: the distribution is sorted ascending and the q-th percentile of
    `n` values is read at the fractional position `(n - 1) * q / 100`,
    interpolating linearly between the two neighbouring order statistics. */
module Percentile {
  import opened Wrappers
  import opened Exceptions

  predicate Sorted(s: seq<real>)
  {
    forall i, j :: 0 <= i <= j < |s| ==> s[i] <= s[j]
  }

  /** Inserts `x` before the first entry not smaller than it. */
  function Insert(x: real, s: seq<real>): (r: seq<real>)
    ensures |r| == |s| + 1
  {
    if s == [] || x <= s[0] then [x] + s else [s[0]] + Insert(x, s[1..])
  }

  /** The ascending order statistics of `s` (insertion sort). */
  function Sort(s: seq<real>): (r: seq<real>)
    ensures |r| == |s|
  {
    if s == [] then [] else Insert(s[0], Sort(s[1..]))
  }

  lemma {:induction false} InsertPermutes(x: real, s: seq<real>)
    ensures multiset(Insert(x, s)) == multiset(s) + multiset{x}
  {
    if s != [] && x > s[0] {
      InsertPermutes(x, s[1..]);
      assert s == [s[0]] + s[1..];
    }
  }

  lemma {:induction false} InsertSorted(x: real, s: seq<real>)
    requires Sorted(s)
    ensures Sorted(Insert(x, s))
  {
    if s != [] && x > s[0] {
      var rest := Insert(x, s[1..]);
      InsertSorted(x, s[1..]);
      InsertPermutes(x, s[1..]);
      forall k | 0 <= k < |rest| ensures s[0] <= rest[k] {
        assert rest[k] in multiset(rest);
        assert rest[k] == x || rest[k] in multiset(s[1..]);
      }
    }
  }

  /** Sorting permutes its input. */
  lemma {:induction false} SortPermutes(s: seq<real>)
    ensures multiset(Sort(s)) == multiset(s)
  {
    if s != [] {
      SortPermutes(s[1..]);
      InsertPermutes(s[0], Sort(s[1..]));
      assert s == [s[0]] + s[1..];
    }
  }

  /** Sorting yields an ascending sequence. */
  lemma {:induction false} SortSorted(s: seq<real>)
    ensures Sorted(Sort(s))
  {
    if s != [] {
      SortSorted(s[1..]);
      InsertSorted(s[0], Sort(s[1..]));
    }
  }

  function Min(s: seq<real>): (m: real)
    requires |s| > 0
    ensures m in s
    ensures forall i :: 0 <= i < |s| ==> m <= s[i]
  {
    if |s| == 1 then s[0]
    else
      var m := Min(s[1..]);
      assert forall i :: 1 <= i < |s| ==> s[i] == s[1..][i - 1];
      if s[0] <= m then s[0] else m
  }

  function Max(s: seq<real>): (m: real)
    requires |s| > 0
    ensures m in s
    ensures forall i :: 0 <= i < |s| ==> s[i] <= m
  {
    if |s| == 1 then s[0]
    else
      var m := Max(s[1..]);
      assert forall i :: 1 <= i < |s| ==> s[i] == s[1..][i - 1];
      if m <= s[0] then s[0] else m
  }

  /** Linear interpolation on the ascending sequence `s` at the fractional
      position `h`: `s[k] + (h - k) * (s[k + 1] - s[k])` with `k` the floor
      of `h`; at the last position the last value. */
  function Interpolate(s: seq<real>, h: real): (v: real)
    requires |s| > 0 && 0.0 <= h <= (|s| - 1) as real
  {
    var k := h.Floor;
    var frac := h - k as real;
    if k + 1 < |s| then s[k] + frac * (s[k + 1] - s[k]) else s[k]
  }

  /** `np.percentile(d, q)`; a `q` outside `[0, 100]` raises `ValueError`. */
  function Percentile(d: seq<real>, q: real): (r: Result<real, Exception>)
    requires |d| > 0
    ensures r.Success? <==> 0.0 <= q <= 100.0
    ensures r.Failure? ==> r.error.ValueError?
    ensures r.Success? ==> Min(d) <= r.value <= Max(d)
  {
    if q < 0.0 || q > 100.0 then
      Failure(ValueError("Percentiles must be in the range [0, 100]"))
    else
      var h := Position(|d|, q);
      InterpolateWithinRange(d, h);
      Success(Interpolate(Sort(d), h))
  }

  /** The fractional position `(n - 1) * q / 100` of the q-th percentile among
      `n` order statistics; it lies within the sequence. */
  function Position(n: nat, q: real): (h: real)
    requires n > 0 && 0.0 <= q <= 100.0
    ensures 0.0 <= h <= (n - 1) as real
  {
    var m := (n - 1) as real;
    ScaleMonotone(m, 0.0, q);
    ScaleMonotone(m, q, 100.0);
    assert m * q / 100.0 <= m * 100.0 / 100.0 == m;
    m * q / 100.0
  }

  lemma ScaleMonotone(m: real, x: real, y: real)
    requires 0.0 <= m && x <= y
    ensures m * x <= m * y
  {
    assert m * y - m * x == m * (y - x);
  }

  /** A larger percentile rank gives a later (or the same) position. */
  lemma PositionMonotone(n: nat, q1: real, q2: real)
    requires n > 0 && 0.0 <= q1 <= q2 <= 100.0
    ensures Position(n, q1) <= Position(n, q2)
  {
    var m := (n - 1) as real;
    ScaleMonotone(m, q1, q2);
    var a, b := m * q1, m * q2;
    assert a / 100.0 <= b / 100.0;
  }

  /** The interpolated value lies between the order statistics either side of
      its position. */
  lemma InterpolateBetween(s: seq<real>, h: real)
    requires |s| > 0 && 0.0 <= h <= (|s| - 1) as real && Sorted(s)
    ensures s[h.Floor] <= Interpolate(s, h)
    ensures h.Floor + 1 < |s| ==> Interpolate(s, h) <= s[h.Floor + 1]
    ensures h.Floor + 1 >= |s| ==> Interpolate(s, h) == s[|s| - 1]
  {
    var k := h.Floor;
    var frac := h - k as real;
    if k + 1 < |s| {
      var gap := s[k + 1] - s[k];
      ScaleMonotone(gap, 0.0, frac);
      ScaleMonotone(gap, frac, 1.0);
      assert frac * gap == gap * frac && gap * 1.0 == gap;
      assert Interpolate(s, h) == s[k] + frac * gap;
      assert frac * gap <= gap;
      assert s[k] + gap == s[k + 1];
      assert Interpolate(s, h) <= s[k + 1];
    }
  }

  /** Linear interpolation on an ascending sequence is monotone in the position. */
  lemma InterpolateMonotone(s: seq<real>, h1: real, h2: real)
    requires |s| > 0 && 0.0 <= h1 <= h2 <= (|s| - 1) as real && Sorted(s)
    ensures Interpolate(s, h1) <= Interpolate(s, h2)
  {
    var k1, k2 := h1.Floor, h2.Floor;
    InterpolateBetween(s, h1);
    InterpolateBetween(s, h2);
    if k1 == k2 {
      InterpolateSameCell(s, k1, h1, h2);
    } else {
      assert k1 < k2;
      assert Interpolate(s, h1) <= s[k1 + 1] <= s[k2];
    }
  }

  /** Within one cell `[k, k + 1)` the interpolation is an affine function of
      the position with non-negative slope. */
  lemma InterpolateSameCell(s: seq<real>, k: int, h1: real, h2: real)
    requires |s| > 0 && 0.0 <= h1 <= h2 <= (|s| - 1) as real && Sorted(s)
    requires h1.Floor == k && h2.Floor == k
    ensures Interpolate(s, h1) <= Interpolate(s, h2)
  {
    if k + 1 < |s| {
      var base, gap := s[k], s[k + 1] - s[k];
      var f1, f2 := h1 - k as real, h2 - k as real;
      var v1, v2 := Interpolate(s, h1), Interpolate(s, h2);
      InterpolateInCell(s, h1);
      InterpolateInCell(s, h2);
      assert v1 == base + f1 * gap;
      assert v2 == base + f2 * gap;
      AffineMonotone(base, gap, f1, f2);
      assert v1 <= v2;
    }
  }

  /** Away from the last position the interpolation reads the cell's two ends. */
  lemma InterpolateInCell(s: seq<real>, h: real)
    requires |s| > 0 && 0.0 <= h <= (|s| - 1) as real && h.Floor + 1 < |s|
    ensures Interpolate(s, h) == s[h.Floor] + (h - h.Floor as real) * (s[h.Floor + 1] - s[h.Floor])
  {
  }

  lemma AffineMonotone(base: real, gap: real, f1: real, f2: real)
    requires 0.0 <= gap && f1 <= f2
    ensures base + f1 * gap <= base + f2 * gap
  {
    ScaleMonotone(gap, f1, f2);
    assert f1 * gap == gap * f1 && f2 * gap == gap * f2;
  }

  /** Interpolating among the order statistics of `d` gives a value between
      the smallest and the largest entry of `d`. */
  lemma InterpolateWithinRange(d: seq<real>, h: real)
    requires |d| > 0 && 0.0 <= h <= (|d| - 1) as real
    ensures Min(d) <= Interpolate(Sort(d), h) <= Max(d)
  {
    var s := Sort(d);
    SortSorted(d);
    InterpolateBetween(s, h);
    InterpolateMonotone(s, 0.0, h);
    InterpolateMonotone(s, h, (|d| - 1) as real);
    SortedEnds(d);
  }

  /** The first and last order statistics are the minimum and the maximum. */
  lemma SortedEnds(d: seq<real>)
    requires |d| > 0
    ensures Sort(d)[0] == Min(d) && Sort(d)[|d| - 1] == Max(d)
  {
    var s := Sort(d);
    SortSorted(d);
    SortPermutes(d);
    assert Min(d) in multiset(s) && Max(d) in multiset(s);
    assert s[0] in multiset(d) && s[|d| - 1] in multiset(d);
  }

  /** The 0th percentile is the minimum and the 100th the maximum. */
  lemma PercentileEndpoints(d: seq<real>)
    requires |d| > 0
    ensures Percentile(d, 0.0) == Success(Min(d))
    ensures Percentile(d, 100.0) == Success(Max(d))
  {
    SortedEnds(d);
    assert Position(|d|, 0.0) == 0.0;
    assert Position(|d|, 100.0) == (|d| - 1) as real;
  }

  /** `np.percentile` is monotone in `q`. */
  lemma PercentileMonotone(d: seq<real>, q1: real, q2: real)
    requires |d| > 0 && 0.0 <= q1 <= q2 <= 100.0
    ensures Percentile(d, q1).value <= Percentile(d, q2).value
  {
    PositionMonotone(|d|, q1, q2);
    SortSorted(d);
    InterpolateMonotone(Sort(d), Position(|d|, q1), Position(|d|, q2));
  }

  /** Every percentile of a constant sequence is that constant. */
  lemma PercentileOfConstant(d: seq<real>, c: real, q: real)
    requires |d| > 0 && 0.0 <= q <= 100.0
    requires forall i :: 0 <= i < |d| ==> d[i] == c
    ensures Percentile(d, q) == Success(c)
  {
    assert Min(d) == c && Max(d) == c;
  }
}
