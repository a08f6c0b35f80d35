/** The generic bootstrap hypothesis test of mltools/hypothesis/bootstrap.py.

    A `BootstrapTest` holds a data array and a statistic.  `Test` builds the
    empirical distribution of the statistic over `b` bootstrap replicates into
    the field `dist`, evaluates the statistic on the original data, and derives
    a p-value and a percentile interval from the distribution according to the
    tail of the test.

    The random draws of `np.random.choice` are an input: one index sequence
    per replicate.  A caller-supplied sampling procedure is an opaque function
    of the data and of the replicate number, which stands for the state of the
    random generator it consumes. */
module Bootstrap {
  import opened Wrappers
  import opened Exceptions
  import Percentile

  /** Number of bootstrap samples generated unless the caller says otherwise. */
  const DefaultMonteCarloSize: nat := 1000

  /** The significance level and the tail `test` uses unless told otherwise. */
  const DefaultAlpha: real := 0.05
  const DefaultTail: string := "two-sided"

  /** A NumPy array with `ndim` dimensions, given by its entries along the
      first axis: the elements of a 1-D array or the rows of a 2-D array. */
  datatype Data<T> = Data(ndim: nat, rows: seq<T>)

  /** The argument `b` of `test`: absent (`None`), an integral number, or any
      other value (a float, a string, ...). */
  datatype SampleCount = Default | Integral(n: int) | NotIntegral

  /** An interval bound: a float, or one of NumPy's infinities. */
  datatype Bound = NegInf | Finite(value: real) | PosInf

  /** The named tuple `HypothesisTestResult`. */
  datatype TestResult = TestResult(statistic: real, pValue: real, lower: Bound, upper: Bound)

  function Abs(v: real): (a: real)
    ensures a >= 0.0 && (a == v || a == -v)
  {
    if v < 0.0 then -v else v
  }

  // ---------------------------------------------------------------------------
  // Construction
  // ---------------------------------------------------------------------------

  /** The input checks of `__init__`: the statistic must be callable (`None`
      here stands for a non-callable object), and the data at most
      2-dimensional.  The callable check comes first. */
  function ValidateInit<T, F>(x: Data<T>, statistic: Option<F>): (e: Option<Exception>)
    ensures e.None? <==> statistic.Some? && x.ndim <= 2
    ensures statistic.None? ==> e == Some(TypeError("Parameter 'statistic' must be callable"))
    ensures statistic.Some? && x.ndim > 2 ==> e == Some(ValueError("Parameter 'x' must be at most 2-dimensional."))
  {
    if statistic.None? then
      Some(TypeError("Parameter 'statistic' must be callable"))
    else if x.ndim > 2 then
      Some(ValueError("Parameter 'x' must be at most 2-dimensional."))
    else
      None
  }

  /** `self.x.size[0]` as written: `size` of a NumPy array is an `int`, and
      subscripting an `int` raises `TypeError` whatever the array. */
  function RowCountAsWritten<T>(x: Data<T>): (r: Result<nat, Exception>)
    ensures r.Failure? && r.error.TypeError?
  {
    Failure(TypeError("'int' object is not subscriptable"))
  }

  /** The intended `self.x.shape[0]`: the number of observations (elements of
      a 1-D array, rows of a 2-D array).  A 0-dimensional array has an empty
      shape, so indexing it raises `IndexError`. */
  function RowCount<T>(x: Data<T>): (r: Result<nat, Exception>)
    ensures r.Success? <==> x.ndim >= 1
    ensures r.Success? ==> r.value == |x.rows|
  {
    if x.ndim == 0 then Failure(IndexError("tuple index out of range")) else Success(|x.rows|)
  }

  /** The exception `__init__` raises as written, if any. */
  function InitAsWritten<T, F>(x: Data<T>, statistic: Option<F>): (e: Option<Exception>)
    ensures ValidateInit(x, statistic).Some? ==> e == ValidateInit(x, statistic)
  {
    match ValidateInit(x, statistic)
    case Some(err) => Some(err)
    case None => if RowCountAsWritten(x).Failure? then Some(RowCountAsWritten(x).error) else None
  }

  /** As written, no call of `__init__` returns: every input that passes the
      checks reaches `self.x.size[0]` and raises `TypeError` there. */
  lemma InitAsWrittenAlwaysRaises<T, F>(x: Data<T>, statistic: Option<F>)
    ensures InitAsWritten(x, statistic).Some?
    ensures ValidateInit(x, statistic).None? ==> InitAsWritten(x, statistic).value.TypeError?
  {
  }

  /** The exception `__init__` raises with the row count read from the shape. */
  function InitOutcome<T, F>(x: Data<T>, statistic: Option<F>): (e: Option<Exception>)
    ensures e.None? <==> statistic.Some? && 1 <= x.ndim <= 2
    ensures ValidateInit(x, statistic).Some? ==> e == ValidateInit(x, statistic)
  {
    match ValidateInit(x, statistic)
    case Some(err) => Some(err)
    case None => if RowCount(x).Failure? then Some(RowCount(x).error) else None
  }

  // ---------------------------------------------------------------------------
  // The number of replicates and the replicates themselves
  // ---------------------------------------------------------------------------

  /** `b` as `test` resolves it: `None` becomes the default size, an integral
      value must be positive, anything else raises `ValueError`. */
  function ResolveCount(b: SampleCount): (r: Result<nat, Exception>)
    ensures r.Success? ==> r.value > 0
    ensures b.Default? ==> r == Success(DefaultMonteCarloSize)
    ensures b.Integral? && b.n > 0 ==> r == Success(b.n)
    ensures r.Failure? <==> b.NotIntegral? || (b.Integral? && b.n <= 0)
    ensures r.Failure? ==> r.error == ValueError("Parameter 'b' must be a positive integer.")
  {
    var invalid: Result<nat, Exception> := Failure(ValueError("Parameter 'b' must be a positive integer."));
    match b
    case Default => Success(DefaultMonteCarloSize)
    case Integral(n) => if n <= 0 then invalid else Success(n)
    case NotIntegral => invalid
  }

  /** What `np.random.choice(size, size, replace=True)` returns: `size`
      indices, each in `[0, size)`. */
  predicate IsIndexDraw(indices: seq<nat>, size: nat)
  {
    |indices| == size && forall j :: 0 <= j < |indices| ==> indices[j] < size
  }

  /** The draws of one run of `test`: one index sequence per replicate. */
  predicate DrawsFit(draws: seq<seq<nat>>, b: nat, size: nat)
  {
    |draws| == b && forall i :: 0 <= i < |draws| ==> IsIndexDraw(draws[i], size)
  }

  /** `x[indices, :]` for a 2-D array and `x[indices]` for a 1-D array: both
      select entries along the first axis. */
  function Resample<T>(x: Data<T>, indices: seq<nat>): (r: Data<T>)
    requires forall j :: 0 <= j < |indices| ==> indices[j] < |x.rows|
    ensures r.ndim == x.ndim && |r.rows| == |indices|
    ensures forall j :: 0 <= j < |indices| ==> r.rows[j] == x.rows[indices[j]]
  {
    Data(x.ndim, seq(|indices|, j requires 0 <= j < |indices| => x.rows[indices[j]]))
  }

  /** A default replicate has as many rows as the data, each of them a row of
      the data. */
  lemma DefaultReplicateShape<T>(x: Data<T>, indices: seq<nat>)
    requires IsIndexDraw(indices, |x.rows|)
    ensures |Resample(x, indices).rows| == |x.rows|
    ensures Resample(x, indices).ndim == x.ndim
    ensures forall j :: 0 <= j < |x.rows| ==> Resample(x, indices).rows[j] in x.rows
  {
  }

  /** Replicate `i` of a run: resampled with the `i`-th draw, or produced by
      the caller's sampling procedure. */
  function Replicate<T>(x: Data<T>, procedure: Option<(Data<T>, nat) -> Data<T>>,
                        draws: seq<seq<nat>>, i: nat): (r: Data<T>)
    requires procedure.None? ==> i < |draws| && IsIndexDraw(draws[i], |x.rows|)
    ensures procedure.None? ==>
      r.ndim == x.ndim && |r.rows| == |x.rows| &&
      forall j :: 0 <= j < |x.rows| ==> r.rows[j] == x.rows[draws[i][j]]
    ensures procedure.Some? ==> r == procedure.value(x, i)
  {
    if procedure.None? then Resample(x, draws[i]) else procedure.value(x, i)
  }

  /** The empirical distribution of a run of `b` replicates. */
  function Distribution<T>(x: Data<T>, statistic: Data<T> -> real,
                           procedure: Option<(Data<T>, nat) -> Data<T>>,
                           draws: seq<seq<nat>>, b: nat): (d: seq<real>)
    requires procedure.None? ==> DrawsFit(draws, b, |x.rows|)
    ensures |d| == b
    ensures forall i :: 0 <= i < b ==> d[i] == statistic(Replicate(x, procedure, draws, i))
  {
    seq(b, i requires 0 <= i < b => statistic(Replicate(x, procedure, draws, i)))
  }

  // ---------------------------------------------------------------------------
  // p-values
  // ---------------------------------------------------------------------------

  /** The comparison a tail counts with: `|d| >= |stat|` (two-sided),
      `d <= stat` (left) or `d >= stat` (right). */
  datatype Comparison = AbsAtLeast | AtMost | AtLeast

  predicate Holds(c: Comparison, v: real, stat: real)
  {
    match c
    case AbsAtLeast => Abs(v) >= Abs(stat)
    case AtMost => v <= stat
    case AtLeast => v >= stat
  }

  /** Every entry lies in at least one of the two one-sided tails, and in
      both exactly when it equals the statistic; the two-sided comparison is
      the right-tail comparison of absolute values. */
  lemma TailComparisons(v: real, stat: real)
    ensures Holds(AtMost, v, stat) || Holds(AtLeast, v, stat)
    ensures Holds(AtMost, v, stat) && Holds(AtLeast, v, stat) <==> v == stat
    ensures Holds(AbsAtLeast, v, stat) <==> Holds(AtLeast, Abs(v), Abs(stat))
  {
  }

  /** `np.sum(<comparison over dist>)`: the number of entries for which the
      comparison holds. */
  function Count(d: seq<real>, c: Comparison, stat: real): (k: nat)
    ensures k <= |d|
  {
    if d == [] then 0
    else Count(d[..|d| - 1], c, stat) + (if Holds(c, d[|d| - 1], stat) then 1 else 0)
  }

  /** The positions of the entries for which the comparison holds. */
  function Matches(d: seq<real>, c: Comparison, stat: real): (m: set<nat>)
    ensures forall i :: i in m ==> i < |d| && Holds(c, d[i], stat)
  {
    set i: nat | i < |d| && Holds(c, d[i], stat)
  }

  /** The count is the number of matching positions. */
  lemma {:induction false} CountIsCardinality(d: seq<real>, c: Comparison, stat: real)
    ensures Count(d, c, stat) == |Matches(d, c, stat)|
  {
    if d != [] {
      var n := |d| - 1;
      var prefix := d[..n];
      CountIsCardinality(prefix, c, stat);
      var before := Matches(prefix, c, stat);
      assert Matches(d, c, stat) == before + (if Holds(c, d[n], stat) then {n} else {}) by {
        forall i: nat | i < n ensures d[i] == prefix[i] { }
      }
      assert n !in before;
    }
  }

  /** Counting is monotone in the comparison: where one holds the other does. */
  lemma {:induction false} CountWeaker(d: seq<real>, c1: Comparison, s1: real, c2: Comparison, s2: real)
    requires forall i :: 0 <= i < |d| && Holds(c1, d[i], s1) ==> Holds(c2, d[i], s2)
    ensures Count(d, c1, s1) <= Count(d, c2, s2)
  {
    if d != [] {
      var n := |d| - 1;
      assert forall i :: 0 <= i < n ==> d[..n][i] == d[i];
      CountWeaker(d[..n], c1, s1, c2, s2);
    }
  }

  /** The count is the length when the comparison always holds, and zero when
      it never does. */
  lemma {:induction false} CountExtremes(d: seq<real>, c: Comparison, stat: real)
    ensures (forall i :: 0 <= i < |d| ==> Holds(c, d[i], stat)) ==> Count(d, c, stat) == |d|
    ensures (forall i :: 0 <= i < |d| ==> !Holds(c, d[i], stat)) ==> Count(d, c, stat) == 0
  {
    if d != [] {
      var n := |d| - 1;
      assert forall i :: 0 <= i < n ==> d[..n][i] == d[i];
      CountExtremes(d[..n], c, stat);
    }
  }

  /** `np.sum(...) / b`: the fraction of the distribution for which the
      comparison holds. */
  function PValue(d: seq<real>, c: Comparison, stat: real): (p: real)
    requires |d| > 0
    ensures 0.0 <= p <= 1.0
    ensures p == Count(d, c, stat) as real / |d| as real
  {
    var k := Count(d, c, stat);
    FractionBounds(k, |d|);
    k as real / |d| as real
  }

  /** The left-tail and right-tail counts together cover the distribution,
      so the two one-sided p-values add up to at least 1. */
  lemma {:induction false} OneSidedCountsCover(d: seq<real>, stat: real)
    ensures Count(d, AtMost, stat) + Count(d, AtLeast, stat) >= |d|
  {
    if d != [] {
      OneSidedCountsCover(d[..|d| - 1], stat);
      TailComparisons(d[|d| - 1], stat);
    }
  }

  lemma FractionBounds(k: nat, n: nat)
    requires 0 < n && k <= n
    ensures 0.0 <= k as real / n as real <= 1.0
  {
    assert k as real / n as real <= n as real / n as real;
  }

  lemma FractionMonotone(k1: nat, k2: nat, n: nat)
    requires 0 < n && k1 <= k2
    ensures k1 as real / n as real <= k2 as real / n as real
  {
  }

  // ---------------------------------------------------------------------------
  // Inference: p-value and percentile interval
  // ---------------------------------------------------------------------------

  /** The two-sided branch: the fraction of entries at least as large in
      absolute value as the observed statistic, and the `100 * alpha / 2`-th
      and `100 * (1 - alpha / 2)`-th percentiles. */
  function TwoSided(dist: seq<real>, stat: real, alpha: real): (r: Result<TestResult, Exception>)
    requires |dist| > 0
    ensures r.Success? <==> 0.0 <= alpha <= 2.0
    ensures r.Failure? ==> r.error.ValueError?
    ensures r.Success? ==>
      r.value.statistic == stat && r.value.pValue == PValue(dist, AbsAtLeast, stat) &&
      r.value.lower == Finite(Percentile.Percentile(dist, 100.0 * alpha / 2.0).value) &&
      r.value.upper == Finite(Percentile.Percentile(dist, 100.0 * (1.0 - alpha / 2.0)).value)
    ensures r.Success? ==> InRange(r.value, Percentile.Min(dist), Percentile.Max(dist))
  {
    var pValue := PValue(dist, AbsAtLeast, stat);
    match (Percentile.Percentile(dist, 100.0 * alpha / 2.0), Percentile.Percentile(dist, 100.0 * (1.0 - alpha / 2.0)))
    case (Failure(e), _) => Failure(e)
    case (_, Failure(e)) => Failure(e)
    case (Success(lower), Success(upper)) => Success(TestResult(stat, pValue, Finite(lower), Finite(upper)))
  }

  /** The left-tail branch: the fraction of entries at most the observed
      statistic, and the interval from minus infinity to the
      `100 * alpha`-th percentile. */
  function LeftTail(dist: seq<real>, stat: real, alpha: real): (r: Result<TestResult, Exception>)
    requires |dist| > 0
    ensures r.Success? <==> 0.0 <= alpha <= 1.0
    ensures r.Failure? ==> r.error.ValueError?
    ensures r.Success? ==>
      r.value.statistic == stat && r.value.pValue == PValue(dist, AtMost, stat) &&
      r.value.lower == NegInf &&
      r.value.upper == Finite(Percentile.Percentile(dist, 100.0 * alpha).value)
    ensures r.Success? ==> InRange(r.value, Percentile.Min(dist), Percentile.Max(dist))
  {
    var pValue := PValue(dist, AtMost, stat);
    var upper :- Percentile.Percentile(dist, 100.0 * alpha);
    Success(TestResult(stat, pValue, NegInf, Finite(upper)))
  }

  /** The right-tail branch: the fraction of entries at least the observed
      statistic, and the interval from the `100 * (1 - alpha)`-th percentile
      to plus infinity. */
  function RightTail(dist: seq<real>, stat: real, alpha: real): (r: Result<TestResult, Exception>)
    requires |dist| > 0
    ensures r.Success? <==> 0.0 <= alpha <= 1.0
    ensures r.Failure? ==> r.error.ValueError?
    ensures r.Success? ==>
      r.value.statistic == stat && r.value.pValue == PValue(dist, AtLeast, stat) &&
      r.value.lower == Finite(Percentile.Percentile(dist, 100.0 * (1.0 - alpha)).value) &&
      r.value.upper == PosInf
    ensures r.Success? ==> InRange(r.value, Percentile.Min(dist), Percentile.Max(dist))
  {
    var pValue := PValue(dist, AtLeast, stat);
    var lower :- Percentile.Percentile(dist, 100.0 * (1.0 - alpha));
    Success(TestResult(stat, pValue, Finite(lower), PosInf))
  }

  /** The p-value and interval `test` derives from the distribution `dist`
      and the observed statistic `stat`, branching on `tail`.  A percentile
      rank outside `[0, 100]` raises `ValueError` inside `np.percentile`; an
      unrecognised tail raises `ValueError` in the last branch. */
  function Infer(dist: seq<real>, stat: real, alpha: real, tail: string): (r: Result<TestResult, Exception>)
    requires |dist| > 0
    ensures r.Success? ==> r.value.statistic == stat && 0.0 <= r.value.pValue <= 1.0
    ensures r.Failure? ==> r.error.ValueError?
    ensures r.Success? ==> InRange(r.value, Percentile.Min(dist), Percentile.Max(dist))
    ensures tail == "two-sided" ==> r == TwoSided(dist, stat, alpha)
    ensures tail == "left" ==> r == LeftTail(dist, stat, alpha)
    ensures tail == "right" ==> r == RightTail(dist, stat, alpha)
    ensures tail != "two-sided" && tail != "left" && tail != "right" ==>
      r == Failure(ValueError("Unsupported value for parameter 'tail': " + tail))
  {
    if tail == "two-sided" then TwoSided(dist, stat, alpha)
    else if tail == "left" then LeftTail(dist, stat, alpha)
    else if tail == "right" then RightTail(dist, stat, alpha)
    else Failure(ValueError("Unsupported value for parameter 'tail': " + tail))
  }

  predicate BoundLe(a: Bound, b: Bound)
  {
    match (a, b)
    case (NegInf, _) => true
    case (_, PosInf) => true
    case (Finite(u), Finite(v)) => u <= v
    case _ => false
  }

  /** For every recognised tail and `0 <= alpha <= 1` the test succeeds and
      the lower bound does not exceed the upper bound. */
  lemma IntervalOrdered(dist: seq<real>, stat: real, alpha: real, tail: string)
    requires |dist| > 0 && 0.0 <= alpha <= 1.0
    requires tail == "two-sided" || tail == "left" || tail == "right"
    ensures Infer(dist, stat, alpha, tail).Success?
    ensures BoundLe(Infer(dist, stat, alpha, tail).value.lower, Infer(dist, stat, alpha, tail).value.upper)
  {
    if tail == "two-sided" {
      Percentile.PercentileMonotone(dist, 100.0 * alpha / 2.0, 100.0 * (1.0 - alpha / 2.0));
    }
  }

  /** With the default `alpha` and `tail` the test is two-sided, succeeds,
      and gives an ordered interval. */
  lemma DefaultsSucceed(dist: seq<real>, stat: real)
    requires |dist| > 0
    ensures Infer(dist, stat, DefaultAlpha, DefaultTail) == TwoSided(dist, stat, DefaultAlpha)
    ensures Infer(dist, stat, DefaultAlpha, DefaultTail).Success?
    ensures BoundLe(Infer(dist, stat, DefaultAlpha, DefaultTail).value.lower,
                    Infer(dist, stat, DefaultAlpha, DefaultTail).value.upper)
  {
    IntervalOrdered(dist, stat, DefaultAlpha, DefaultTail);
  }

  /** The finite bounds of a result lie in `[lo, hi]`. */
  predicate InRange(res: TestResult, lo: real, hi: real)
  {
    (res.lower.Finite? ==> lo <= res.lower.value <= hi) &&
    (res.upper.Finite? ==> lo <= res.upper.value <= hi)
  }

  /** With the distribution fixed, the two-sided p-value does not decrease as
      the absolute observed statistic decreases. */
  lemma TwoSidedPValueMonotone(dist: seq<real>, s1: real, s2: real, alpha: real)
    requires |dist| > 0 && 0.0 <= alpha <= 2.0 && Abs(s2) <= Abs(s1)
    ensures Infer(dist, s1, alpha, "two-sided").value.pValue <= Infer(dist, s2, alpha, "two-sided").value.pValue
  {
    CountWeaker(dist, AbsAtLeast, s1, AbsAtLeast, s2);
    FractionMonotone(Count(dist, AbsAtLeast, s1), Count(dist, AbsAtLeast, s2), |dist|);
  }

  /** When every replicate gives the same value `c`, the p-value is 0 or 1
      and every finite bound is `c`. */
  lemma ConstantDistribution(dist: seq<real>, c: real, stat: real, alpha: real, tail: string)
    requires |dist| > 0 && forall i :: 0 <= i < |dist| ==> dist[i] == c
    requires Infer(dist, stat, alpha, tail).Success?
    ensures Infer(dist, stat, alpha, tail).value.pValue in {0.0, 1.0}
    ensures InRange(Infer(dist, stat, alpha, tail).value, c, c)
  {
    assert Percentile.Min(dist) == c && Percentile.Max(dist) == c;
    var cmp := if tail == "two-sided" then AbsAtLeast else if tail == "left" then AtMost else AtLeast;
    assert Infer(dist, stat, alpha, tail).value.pValue == PValue(dist, cmp, stat);
    ConstantPValue(dist, c, cmp, stat);
  }

  /** Over a constant distribution the comparison holds everywhere or
      nowhere, so the p-value is 0 or 1. */
  lemma ConstantPValue(dist: seq<real>, c: real, cmp: Comparison, stat: real)
    requires |dist| > 0 && forall i :: 0 <= i < |dist| ==> dist[i] == c
    ensures PValue(dist, cmp, stat) in {0.0, 1.0}
  {
    CountExtremes(dist, cmp, stat);
    if Holds(cmp, c, stat) {
      assert Count(dist, cmp, stat) == |dist|;
    } else {
      assert Count(dist, cmp, stat) == 0;
    }
  }

  // ---------------------------------------------------------------------------
  // The test object
  // ---------------------------------------------------------------------------

  class BootstrapTest<T> {
    /** The data, `np.asarray(x)`. */
    const x: Data<T>
    /** The number of observations (the row count, read from the shape). */
    const size: nat
    /** The statistic with its extra arguments bound, `partial(statistic, ...)`. */
    const statistic: Data<T> -> real
    /** The empirical distribution of the last run; `null` until `Test` runs. */
    var dist: array?<real>

    predicate Valid()
    {
      1 <= x.ndim <= 2 && size == |x.rows|
    }

    /** The field assignments of `__init__` once its checks have passed. */
    constructor (x: Data<T>, statistic: Data<T> -> real)
      requires 1 <= x.ndim <= 2
      ensures Valid() && this.x == x && this.statistic == statistic && dist == null
    {
      this.x := x;
      this.size := |x.rows|;
      this.statistic := statistic;
      this.dist := null;
    }

    /** `BootstrapTest(x, statistic, *args, **kwargs)`: checks the inputs,
        raising as `__init__` does, and binds the extra arguments `args` to
        the statistic.  `partial` puts the bound arguments first, so the
        stored statistic passes the data after them. */
    static method Create<A>(x: Data<T>, statistic: Option<(A, Data<T>) -> real>, args: A)
      returns (r: Result<BootstrapTest<T>, Exception>)
      ensures InitOutcome(x, statistic).Some? ==> r == Failure(InitOutcome(x, statistic).value)
      ensures InitOutcome(x, statistic).None? ==>
        r.Success? && fresh(r.value) && r.value.Valid() && r.value.x == x && r.value.dist == null &&
        forall d :: r.value.statistic(d) == statistic.value(args, d)
    {
      var e := InitOutcome(x, statistic);
      if e.Some? {
        return Failure(e.value);
      }
      var f := statistic.value;
      var t := new BootstrapTest(x, (d: Data<T>) => f(args, d));
      return Success(t);
    }

    /** `test(b, alpha, tail, seed, sampling_procedure, ...)`.  On an invalid
        `b` it raises before touching `dist`.  Otherwise it replaces `dist`
        by a fresh buffer holding one statistic value per replicate, evaluates
        the statistic on the data, and only then checks `tail`: an
        unrecognised tail raises after the distribution has been rebuilt. */
    method Test(b: SampleCount, alpha: real, tail: string,
                procedure: Option<(Data<T>, nat) -> Data<T>>, draws: seq<seq<nat>>)
      returns (r: Result<TestResult, Exception>)
      requires Valid()
      requires ResolveCount(b).Success? && procedure.None? ==> DrawsFit(draws, ResolveCount(b).value, size)
      modifies this
      ensures ResolveCount(b).Failure? ==> r == Failure(ResolveCount(b).error) && dist == old(dist)
      ensures ResolveCount(b).Success? ==>
        dist != null && fresh(dist) && dist.Length == ResolveCount(b).value &&
        dist[..] == Distribution(x, statistic, procedure, draws, dist.Length) &&
        r == Infer(dist[..], statistic(x), alpha, tail)
    {
      var count := ResolveCount(b);
      if count.Failure? {
        return Failure(count.error);
      }
      var n := count.value;
      var buffer := new real[n](_ => 0.0);
      dist := buffer;
      for i := 0 to n
        invariant dist == buffer
        invariant forall k :: 0 <= k < i ==> buffer[k] == statistic(Replicate(x, procedure, draws, k))
      {
        var xBoot: Data<T>;
        if procedure.None? {
          xBoot := Resample(x, draws[i]);
        } else {
          xBoot := procedure.value(x, i);
        }
        buffer[i] := statistic(xBoot);
      }
      var observed := statistic(x);
      r := Infer(buffer[..], observed, alpha, tail);
    }
  }
}
