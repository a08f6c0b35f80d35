/** The class-label logic of the estimator base classes in
    mltools/generic/estimators.py: extracting the distinct classes of a
    response vector (`np.unique(y, return_inverse=True)`), the binary
    classifier's two-class check and cutoff rule, and the regressor's mean
    squared error.

    Class labels are integers.  The abstract `predict_prob` and `predict`
    are not modelled: the probabilities and predictions they would return
    are inputs. */
module Estimators {
  import opened Wrappers
  import opened Exceptions

  predicate StrictlyIncreasing(s: seq<int>)
  {
    forall i, j :: 0 <= i < j < |s| ==> s[i] < s[j]
  }

  // ---------------------------------------------------------------------------
  // np.unique(y, return_inverse=True)
  // ---------------------------------------------------------------------------

  /** Adds `v` to a strictly increasing sequence unless it is already there. */
  function InsertDistinct(v: int, s: seq<int>): (r: seq<int>)
    requires StrictlyIncreasing(s)
    ensures StrictlyIncreasing(r)
    ensures forall u :: u in r <==> u == v || u in s
  {
    if s == [] || v < s[0] then
      [v] + s
    else if v == s[0] then
      s
    else
      assert forall i :: 1 <= i < |s| ==> s[i] == s[1..][i - 1];
      var rest := InsertDistinct(v, s[1..]);
      assert forall u :: u in rest ==> s[0] < u by {
        forall u | u in rest ensures s[0] < u {
          if u != v {
            var i :| 0 <= i < |s[1..]| && s[1..][i] == u;
            assert s[i + 1] == u;
          }
        }
      }
      assert forall j :: 0 <= j < |rest| ==> s[0] < rest[j] by {
        forall j | 0 <= j < |rest| ensures s[0] < rest[j] {
          assert rest[j] in rest;
        }
      }
      [s[0]] + rest
  }

  /** The sorted distinct labels of `y`. */
  function Unique(y: seq<int>): (c: seq<int>)
    ensures StrictlyIncreasing(c)
    ensures forall u :: u in c <==> u in y
  {
    if y == [] then [] else InsertDistinct(y[0], Unique(y[1..]))
  }

  /** The position of `v` in `c`. */
  function IndexOf(c: seq<int>, v: int): (k: nat)
    requires v in c
    ensures k < |c| && c[k] == v
  {
    if c[0] == v then 0 else 1 + IndexOf(c[1..], v)
  }

  /** `np.unique(y, return_inverse=True)`: the sorted distinct labels, and
      for every entry of `y` the position of its label among them. */
  function UniqueWithInverse(y: seq<int>): (r: (seq<int>, seq<nat>))
    ensures StrictlyIncreasing(r.0)
    ensures forall u :: u in r.0 <==> u in y
    ensures |r.1| == |y|
    ensures forall i :: 0 <= i < |y| ==> r.1[i] < |r.0| && r.0[r.1[i]] == y[i]
  {
    var classes := Unique(y);
    (classes, seq(|y|, i requires 0 <= i < |y| => IndexOf(classes, y[i])))
  }

  /** A strictly increasing sequence is determined by its set of elements:
      the classes are the only sorted duplicate-free listing of the labels. */
  lemma {:induction false} StrictlyIncreasingDeterminedByElements(a: seq<int>, b: seq<int>)
    requires StrictlyIncreasing(a) && StrictlyIncreasing(b)
    requires forall u :: u in a <==> u in b
    ensures a == b
  {
    HeadIsElement(a);
    HeadIsElement(b);
    if a == [] {
    } else {
      assert b != [];
      assert a[0] == b[0];
      forall u ensures u in a[1..] <==> u in b[1..] {
        assert u in a[1..] <==> u in a && u != a[0];
        assert u in b[1..] <==> u in b && u != b[0];
      }
      StrictlyIncreasingDeterminedByElements(a[1..], b[1..]);
      assert a == [a[0]] + a[1..] && b == [b[0]] + b[1..];
    }
  }

  lemma HeadIsElement(s: seq<int>)
    ensures s != [] ==> s[0] in s
  {
  }

  /** The inverse indices are the only ones that map the classes back onto
      `y`, because the classes are free of duplicates. */
  lemma InverseIsUnique(y: seq<int>, i: nat, k: nat)
    requires i < |y| && k < |UniqueWithInverse(y).0|
    requires UniqueWithInverse(y).0[k] == y[i]
    ensures k == UniqueWithInverse(y).1[i]
  {
    var (classes, indices) := UniqueWithInverse(y);
    StrictlyIncreasingInjective(classes, k, indices[i]);
  }

  lemma StrictlyIncreasingInjective(s: seq<int>, a: nat, b: nat)
    requires StrictlyIncreasing(s) && a < |s| && b < |s| && s[a] == s[b]
    ensures a == b
  {
  }

  // ---------------------------------------------------------------------------
  // Classifier
  // ---------------------------------------------------------------------------

  class Classifier {
    /** The distinct class labels; `None` until they are extracted. */
    var classes: Option<seq<int>>

    constructor ()
      ensures classes == None
    {
      classes := None;
    }

    /** `_preprocess_classes`: stores the sorted distinct labels of `y` in
        `classes` and returns, for every entry of `y`, the index of its class. */
    method PreprocessClasses(y: seq<int>) returns (indices: seq<nat>)
      modifies this
      ensures classes == Some(UniqueWithInverse(y).0) && indices == UniqueWithInverse(y).1
      ensures StrictlyIncreasing(classes.value) && (forall u :: u in classes.value <==> u in y)
      ensures |indices| == |y| && forall i :: 0 <= i < |y| ==> indices[i] < |classes.value| && classes.value[indices[i]] == y[i]
    {
      var unique := UniqueWithInverse(y);
      classes := Some(unique.0);
      indices := unique.1;
    }
  }

  /** The cutoff used by `predict` unless the caller gives another. */
  const DefaultCutoff: real := 0.5

  /** The cutoff rule of `predict`: `int(cutoff < p)`, the index of the class
      chosen for probability `p`. */
  function Pick(p: real, cutoff: real): (k: nat)
    ensures k <= 1
    ensures k == 1 <==> p > cutoff
  {
    if cutoff < p then 1 else 0
  }

  /** The first pick that is out of range for `n` classes, if any. */
  function FirstOutOfRange(picks: seq<nat>, n: nat): (r: Option<nat>)
    ensures r.None? <==> forall i :: 0 <= i < |picks| ==> picks[i] < n
    ensures r.Some? ==> r.value in picks && r.value >= n
  {
    if picks == [] then None
    else if picks[0] >= n then Some(picks[0])
    else
      assert forall i :: 1 <= i < |picks| ==> picks[i] == picks[1..][i - 1];
      FirstOutOfRange(picks[1..], n)
  }

  /** The message NumPy gives for an index beyond the end of an array: it
      names the offending index and the array's size in decimal. */
  function OutOfBoundsMessage(index: nat, size: nat): (m: string)
    ensures var k := |Decimal(index)|;
      6 + k + |Decimal(size)| <= |m| && m[..6] == "index " && DigitsValue(m[6..6 + k]) == index &&
      DigitsValue(m[|m| - |Decimal(size)|..]) == size
  {
    var head, tail := Decimal(index), Decimal(size);
    var m := "index " + head + " is out of bounds for axis 0 with size " + tail;
    assert m[6..6 + |head|] == head;
    assert m[|m| - |tail|..] == tail;
    DecimalRoundTrip(index);
    DecimalRoundTrip(size);
    m
  }

  /** The fixed text around the count in the class-count message. */
  const ClassCountPrefix: string := "This model is a binary classifier;found "
  const ClassCountSuffix: string := " distinct classes"

  /** The message of the binary classifier's class-count check: it carries
      the number of distinct classes found, in decimal. */
  function ClassCountMessage(count: nat): (m: string)
    ensures |ClassCountPrefix| + |ClassCountSuffix| <= |m|
    ensures m[..|ClassCountPrefix|] == ClassCountPrefix
    ensures m[|m| - |ClassCountSuffix|..] == ClassCountSuffix
    ensures DigitsValue(m[|ClassCountPrefix|..|m| - |ClassCountSuffix|]) == count
  {
    var digits := Decimal(count);
    var m := ClassCountPrefix + digits + ClassCountSuffix;
    assert m[|ClassCountPrefix|..|m| - |ClassCountSuffix|] == digits;
    DecimalRoundTrip(count);
    m
  }

  class BinaryClassifier {
    /** The part inherited from `Classifier`; its `classes` are this
        classifier's classes. */
    const base: Classifier

    constructor ()
      ensures fresh(base) && base.classes == None
    {
      base := new Classifier();
    }

    /** `_preprocess_classes` of the binary classifier: the base extraction,
        which stores the classes whatever their number, followed by the
        check that there are exactly two. */
    method PreprocessClasses(y: seq<int>) returns (r: Result<seq<nat>, Exception>)
      modifies base
      ensures base.classes == Some(UniqueWithInverse(y).0)
      ensures |base.classes.value| == 2 ==> r == Success(UniqueWithInverse(y).1)
      ensures |base.classes.value| != 2 ==> r == Failure(ValueError(ClassCountMessage(|base.classes.value|)))
      ensures r.Success? ==> base.classes.value[0] < base.classes.value[1]
    {
      var indices := base.PreprocessClasses(y);
      var count := |base.classes.value|;
      if count != 2 {
        return Failure(ValueError(ClassCountMessage(count)));
      }
      return Success(indices);
    }

    /** `predict(x, cutoff)` given `probs = predict_prob(x)`: the label of
        class 1 where the probability exceeds the cutoff, of class 0
        elsewhere.  Indexing the unset `classes` raises `TypeError`; a pick
        beyond the stored classes raises `IndexError`; with classes set,
        prediction succeeds exactly when every pick is within them. */
    function Predict(probs: seq<real>, cutoff: real): (r: Result<seq<int>, Exception>)
      reads base
      ensures base.classes.None? ==> r.Failure? && r.error.TypeError?
      ensures base.classes.Some? && |base.classes.value| >= 2 ==> r.Success?
      ensures r.Success? ==> |r.value| == |probs|
      ensures r.Success? ==> forall i :: 0 <= i < |probs| ==>
        Pick(probs[i], cutoff) < |base.classes.value| &&
        r.value[i] == base.classes.value[Pick(probs[i], cutoff)]
      ensures r.Failure? ==> (r.error.TypeError? || r.error.IndexError?)
      ensures base.classes.Some? ==>
        (r.Success? <==> forall i :: 0 <= i < |probs| ==> Pick(probs[i], cutoff) < |base.classes.value|)
      ensures base.classes.Some? && r.Failure? ==> r.error.IndexError?
    {
      match base.classes
      case None => Failure(TypeError("'NoneType' object is not subscriptable"))
      case Some(classes) =>
        var picks := seq(|probs|, i requires 0 <= i < |probs| => Pick(probs[i], cutoff));
        assert forall i :: 0 <= i < |probs| ==> picks[i] == Pick(probs[i], cutoff);
        match FirstOutOfRange(picks, |classes|)
        case Some(index) => Failure(IndexError(OutOfBoundsMessage(index, |classes|)))
        case None =>
          var labels := seq(|picks|, i requires 0 <= i < |picks| => classes[picks[i]]);
          assert forall i :: 0 <= i < |probs| ==> picks[i] == Pick(probs[i], cutoff) && labels[i] == classes[picks[i]];
          Success(labels)
    }
  }

  /** With two distinct classes, a prediction is class 1 exactly when its
      probability exceeds the cutoff. */
  lemma PredictIsClassOneIff(m: BinaryClassifier, probs: seq<real>, cutoff: real, i: nat)
    requires m.base.classes.Some? && |m.base.classes.value| == 2
    requires m.base.classes.value[0] != m.base.classes.value[1]
    requires i < |probs|
    ensures m.Predict(probs, cutoff).Success?
    ensures m.Predict(probs, cutoff).value[i] == m.base.classes.value[1] <==> probs[i] > cutoff
    ensures m.Predict(probs, cutoff).value[i] == m.base.classes.value[0] <==> probs[i] <= cutoff
  {
  }

  /** Raising the cutoff never turns a class-0 prediction into class 1. */
  lemma RaisingCutoffKeepsClassZero(m: BinaryClassifier, probs: seq<real>, c1: real, c2: real, i: nat)
    requires m.base.classes.Some? && |m.base.classes.value| >= 2
    requires c1 <= c2 && i < |probs|
    ensures m.Predict(probs, c1).value[i] == m.base.classes.value[0] && m.base.classes.value[0] != m.base.classes.value[1]
      ==> m.Predict(probs, c2).value[i] == m.base.classes.value[0]
  {
  }

  // ---------------------------------------------------------------------------
  // Regressor
  // ---------------------------------------------------------------------------

  function Square(v: real): (r: real)
  {
    v * v
  }

  /** The sum of the squared differences of two equally long sequences. */
  function SumSquares(y: seq<real>, yHat: seq<real>): (t: real)
    requires |y| == |yHat|
    ensures t >= 0.0
  {
    if y == [] then 0.0
    else SquareNonNegative(y[0] - yHat[0]); Square(y[0] - yHat[0]) + SumSquares(y[1..], yHat[1..])
  }

  lemma SquareNonNegative(v: real)
    ensures Square(v) >= 0.0
    ensures Square(v) == 0.0 <==> v == 0.0
  {
    if v > 0.0 {
      calc { Square(v); == v * v; > 0.0; }
    } else if v < 0.0 {
      calc { Square(v); == (-v) * (-v); > 0.0; }
    }
  }

  /** `mse(x, y)` given `y_hat = predict(x)`: `np.mean((y - y_hat) ** 2)`.
      `None` is NumPy's `nan`, the mean of an empty array. */
  function Mse(y: seq<real>, yHat: seq<real>): (r: Option<real>)
    requires |y| == |yHat|
    ensures r.Some? <==> |y| > 0
    ensures r.Some? ==> r.value >= 0.0
  {
    if y == [] then None else Some(SumSquares(y, yHat) / |y| as real)
  }

  /** The sum of squares vanishes exactly when the sequences agree. */
  lemma {:induction false} SumSquaresZeroIff(y: seq<real>, yHat: seq<real>)
    requires |y| == |yHat|
    ensures SumSquares(y, yHat) == 0.0 <==> y == yHat
  {
    if y != [] {
      SumSquaresZeroIff(y[1..], yHat[1..]);
      SquareNonNegative(y[0] - yHat[0]);
      if y == yHat {
        assert y[1..] == yHat[1..];
      } else if y[0] == yHat[0] {
        assert y == [y[0]] + y[1..] && yHat == [yHat[0]] + yHat[1..];
      }
    }
  }

  /** The mean squared error is zero exactly when every prediction matches. */
  lemma MseZeroIff(y: seq<real>, yHat: seq<real>)
    requires |y| == |yHat| > 0
    ensures Mse(y, yHat).value == 0.0 <==> y == yHat
  {
    SumSquaresZeroIff(y, yHat);
  }

  /** The error does not depend on which argument holds the predictions. */
  lemma {:induction false} MseSymmetric(y: seq<real>, yHat: seq<real>)
    requires |y| == |yHat|
    ensures Mse(y, yHat) == Mse(yHat, y)
  {
    SumSquaresSymmetric(y, yHat);
  }

  lemma {:induction false} SumSquaresSymmetric(y: seq<real>, yHat: seq<real>)
    requires |y| == |yHat|
    ensures SumSquares(y, yHat) == SumSquares(yHat, y)
  {
    if y != [] {
      SumSquaresSymmetric(y[1..], yHat[1..]);
      assert Square(y[0] - yHat[0]) == Square(yHat[0] - y[0]);
    }
  }
}
