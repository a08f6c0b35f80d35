# Bootstrap hypothesis test and estimator label logic, modelled in Dafny

This project models two parts of the `mltools` library.

- **The generic bootstrap test** (`BootstrapTest` in `mltools/hypothesis/bootstrap.py`).
  Construction checks that the statistic is callable and that the data has at most two dimensions.
  It then stores the data, the number of observations and the statistic with its extra arguments bound.
  `test` resolves the number of replicates `b`, with a default of 1000.
  It overwrites the field `dist` with a fresh buffer of `b` statistic values, one per bootstrap replicate.
  It evaluates the statistic on the original data.
  Finally it derives a p-value and a percentile interval according to the tail: two-sided, left or right.
- **The class-label logic of the estimator base classes** (`mltools/generic/estimators.py`).
  `_preprocess_classes` has `np.unique(y, return_inverse=True)` semantics.
  The binary classifier also checks that there are exactly two classes.
  The binary classifier's `predict` uses a cutoff rule.
  The regressor's `mse` is a mean squared error.

Files:

- `wrappers.dfy`: `Option` and `Result`.
- `exceptions.dfy`: the Python exceptions raised (`TypeError`, `ValueError`, `IndexError`), with their messages, and the decimal rendering of integers used inside those messages.
- `percentile.dfy`: NumPy's `np.percentile` with its default linear interpolation, over `real`. The data is sorted ascending (an insertion sort, proved sorted and a permutation). The q-th percentile of `n` values is read at position `h = (n - 1) * q / 100` as `s[⌊h⌋] + (h - ⌊h⌋) * (s[⌊h⌋ + 1] - s[⌊h⌋])`. A `q` outside `[0, 100]` raises `ValueError`, as NumPy does.
- `bootstrap.dfy`: the `BootstrapTest` class and the pure inference functions behind `test`.
- `estimators.dfy`: the `Classifier` and `BinaryClassifier` classes, and the mean squared error.

Modelling choices:

- The random draws of `np.random.choice(size, size, replace=True)` are an explicit input to `Test`: one index sequence per replicate, each `size` long with every index in `[0, size)`.
- A NumPy array is `Data(ndim, rows)`: its number of dimensions and its entries along the first axis. `size` is the number of those entries, i.e. the row count. Both resampling branches (`x[indices, :]` and `x[indices]`) select rows along that axis.
- The statistic is a total function `Data<T> -> real`. `Create` binds the extra arguments `args` to it as `partial(statistic, *args, **kwargs)` does: the bound arguments come first and the data last, so the stored statistic computes `statistic(args, x)`. The docstring at bootstrap.py:29-31 does not say where the data goes, and binding a positional argument puts it before the data.
- A custom sampling procedure is an opaque function of the data and of the replicate number. The replicate number stands for the state of the random generator that the procedure consumes.
- A non-callable statistic is `None`. The test's `b` argument is `Default` (`None`), `Integral(n)` or `NotIntegral`.
- Interval bounds are a `Bound`: `NegInf`, `Finite(v)` or `PosInf`. These stand for NumPy's infinities.
- The tail is the string the caller passes. Only `"two-sided"`, `"left"` and `"right"` are recognised.
- `test` checks `tail` in its last branch (bootstrap.py:119-120). That check runs after the `b` iterations of lines 90-101 and after the observed statistic of line 104. `Test` keeps this order: with an unknown tail it still replaces `dist` by the full new distribution, and only then fails.
- `alpha` is not validated by `test`. An `alpha` that makes a percentile rank leave `[0, 100]` fails inside `np.percentile` with `ValueError`. The model keeps that path.
- The defaults `b = None` (1000 replicates), `alpha = 0.05` and `tail = "two-sided"` of `test` (bootstrap.py:45) are `DefaultMonteCarloSize`, `DefaultAlpha` and `DefaultTail`. The default `cutoff = 0.5` of `predict` (estimators.py:80) is `DefaultCutoff`.
- The docstring of the binary `_preprocess_classes` (estimators.py:56-57) says "at most 2 classes", but line 70 also rejects a single class. The model follows the code: exactly 2.
- The inheritance of `BinaryClassifier` from `Classifier` is modelled by composition. A `BinaryClassifier` owns a `Classifier` (`base`), whose `PreprocessClasses` it calls as `super()._preprocess_classes`.

## Model

| member | source | states |
|---|---|---|
| `Bootstrap.ValidateInit` | mltools/hypothesis/bootstrap.py:35-39 | a non-callable statistic raises `TypeError`, checked first; data with more than 2 dimensions raises `ValueError`; construction proceeds exactly when neither holds |
| `Bootstrap.RowCountAsWritten` | mltools/hypothesis/bootstrap.py:42 | `self.x.size[0]` as written always raises `TypeError` |
| `Bootstrap.InitAsWritten` | mltools/hypothesis/bootstrap.py:35-43 | `__init__` as written: the validation errors come first, then the failure of line 42 |
| `Bootstrap.InitAsWrittenAlwaysRaises` | mltools/hypothesis/bootstrap.py:35-43 | as written, no input constructs a test: validated inputs reach line 42 and raise `TypeError` |
| `Bootstrap.RowCount` | mltools/hypothesis/bootstrap.py:42 | the intended row count succeeds exactly for arrays with at least one dimension, and is the number of entries along the first axis |
| `Bootstrap.InitOutcome` | mltools/hypothesis/bootstrap.py:35-42 | with the intended row count, construction succeeds exactly when the statistic is callable and the data has 1 or 2 dimensions; the validation errors take precedence |
| `Bootstrap.BootstrapTest.constructor` | mltools/hypothesis/bootstrap.py:41-43 | stores the data, its row count and the bound statistic; `dist` is still unset |
| `Bootstrap.BootstrapTest.Create` | mltools/hypothesis/bootstrap.py:20-43 | raises exactly the exception `InitOutcome` names; otherwise returns a fresh test over the data whose statistic is the given one with `args` bound before the data |
| `Bootstrap.ResolveCount` | mltools/hypothesis/bootstrap.py:80-85 | `b = None` becomes 1000; a non-integral or non-positive `b` raises `ValueError` with the source's message; a positive integral `b` is kept unchanged; every resolved count is positive |
| `Bootstrap.IsIndexDraw` | mltools/hypothesis/bootstrap.py:94 | what `np.random.choice(size, size, replace=True)` returns: `size` indices, each in `[0, size)` |
| `Bootstrap.DrawsFit` | mltools/hypothesis/bootstrap.py:91-94 | the draws of a run: one index draw for each of the `b` replicates |
| `Bootstrap.Resample` | mltools/hypothesis/bootstrap.py:94-98 | a default replicate has one row per index, the same number of dimensions, and row `j` is row `indices[j]` of the data |
| `Bootstrap.DefaultReplicateShape` | mltools/hypothesis/bootstrap.py:94-98 | with a draw of `size` indices in `[0, size)`, the replicate has exactly `size` rows, each a row of the data |
| `Bootstrap.Replicate` | mltools/hypothesis/bootstrap.py:92-100 | without a sampling procedure, replicate `i` has the data's dimensions and row count, and row `j` is the data's row `draws[i][j]`; with one, it is whatever the procedure returns for the data |
| `Bootstrap.Distribution` | mltools/hypothesis/bootstrap.py:90-101 | the distribution of a run has exactly `b` entries, and entry `i` is the statistic of replicate `i` |
| `Bootstrap.Holds` | mltools/hypothesis/bootstrap.py:107-118 | the comparison each tail counts with: `abs(d) >= abs(stat)` for two-sided, `d <= stat` for left, `d >= stat` for right |
| `Bootstrap.TailComparisons` | mltools/hypothesis/bootstrap.py:107-118 | every entry satisfies the left or the right comparison, and both exactly when it equals the statistic; the two-sided comparison is the right one on absolute values |
| `Bootstrap.BootstrapTest.Test` | mltools/hypothesis/bootstrap.py:45-123 | an invalid `b` raises before `dist` is touched; otherwise `dist` is a fresh `b`-entry buffer (overwritten, never appended to) equal to the run's distribution, and the result is the inference on it with the statistic of the original data, whatever the tail |
| `Bootstrap.Count` | mltools/hypothesis/bootstrap.py:108 | the number of entries satisfying a tail's comparison never exceeds the distribution's length |
| `Bootstrap.CountIsCardinality` | mltools/hypothesis/bootstrap.py:107-118 | the count equals the number of positions whose entry satisfies the comparison |
| `Bootstrap.CountWeaker` | mltools/hypothesis/bootstrap.py:108 | where one comparison implies another entry by entry, its count is no larger |
| `Bootstrap.CountExtremes` | mltools/hypothesis/bootstrap.py:107-118 | the count is the full length when the comparison holds everywhere and 0 when it holds nowhere |
| `Bootstrap.OneSidedCountsCover` | mltools/hypothesis/bootstrap.py:112-116 | the left-tail and right-tail counts together are at least `b`, so the two one-sided p-values add up to at least 1 |
| `Bootstrap.PValue` | mltools/hypothesis/bootstrap.py:107-118 | a p-value is a count divided by `b`, so it lies in `[0, 1]` |
| `Bootstrap.TwoSided` | mltools/hypothesis/bootstrap.py:107-110 | succeeds exactly for `0 <= alpha <= 2`; the p-value is the fraction with `abs(d) >= abs(stat)`; the bounds are the `100*alpha/2` and `100*(1-alpha/2)` percentiles, both within `[min, max]` of the distribution |
| `Bootstrap.LeftTail` | mltools/hypothesis/bootstrap.py:111-114 | succeeds exactly for `0 <= alpha <= 1`; the p-value is the fraction with `d <= stat`; lower is minus infinity and upper the `100*alpha` percentile |
| `Bootstrap.RightTail` | mltools/hypothesis/bootstrap.py:115-118 | succeeds exactly for `0 <= alpha <= 1`; the p-value is the fraction with `d >= stat`; lower is the `100*(1-alpha)` percentile and upper plus infinity |
| `Bootstrap.Infer` | mltools/hypothesis/bootstrap.py:104-122 | returns the observed statistic with a p-value in `[0, 1]` and finite bounds inside the distribution's range; dispatches on the three tails; any other tail raises `ValueError("Unsupported value for parameter 'tail': ...")` and returns no result |
| `Bootstrap.IntervalOrdered` | mltools/hypothesis/bootstrap.py:107-118 | for every recognised tail and `0 <= alpha <= 1` the test succeeds and lower does not exceed upper |
| `Bootstrap.DefaultsSucceed` | mltools/hypothesis/bootstrap.py:45-110 | with the default `alpha = 0.05` and `tail = "two-sided"` the two-sided branch runs, succeeds, and gives lower <= upper |
| `Bootstrap.TwoSidedPValueMonotone` | mltools/hypothesis/bootstrap.py:108 | with the distribution fixed, the two-sided p-value does not decrease as the absolute observed statistic decreases |
| `Bootstrap.ConstantDistribution` | mltools/hypothesis/bootstrap.py:107-118 | when every replicate gives the same value `c`, the p-value is 0 or 1 and every finite bound equals `c` |
| `Bootstrap.ConstantPValue` | mltools/hypothesis/bootstrap.py:108 | over a constant distribution every tail's p-value is 0 or 1 |
| `Percentile.Percentile` | mltools/hypothesis/bootstrap.py:109-110 | `np.percentile` succeeds exactly for `q` in `[0, 100]`, otherwise raises `ValueError`; the value lies between the smallest and the largest entry |
| `Percentile.SortSorted` | mltools/hypothesis/bootstrap.py:109 | the order statistics read by the percentile are ascending |
| `Percentile.SortPermutes` | mltools/hypothesis/bootstrap.py:109 | the order statistics are a permutation of the distribution |
| `Percentile.PercentileMonotone` | mltools/hypothesis/bootstrap.py:109-110 | the percentile is monotone in `q` |
| `Percentile.PercentileEndpoints` | mltools/hypothesis/bootstrap.py:109-110 | the 0th percentile is the minimum and the 100th the maximum |
| `Percentile.PercentileOfConstant` | mltools/hypothesis/bootstrap.py:109-110 | every percentile of a constant distribution is that constant |
| `Percentile.InterpolateBetween` | mltools/hypothesis/bootstrap.py:109 | the interpolated value lies between the two order statistics either side of its position |
| `Estimators.Unique` | mltools/generic/estimators.py:39 | the classes are strictly increasing (sorted, no duplicates) and contain exactly the labels of `y` |
| `Estimators.UniqueWithInverse` | mltools/generic/estimators.py:39-40 | besides the classes, one index per label of `y`, each within the classes, with `classes[indices[i]] == y[i]` |
| `Estimators.StrictlyIncreasingDeterminedByElements` | mltools/generic/estimators.py:39 | two strictly increasing sequences with the same elements are equal, so the classes are the unique sorted duplicate-free listing of the labels |
| `Estimators.InverseIsUnique` | mltools/generic/estimators.py:39-40 | the inverse index of each label is the only position of the classes holding it |
| `Estimators.Classifier.constructor` | mltools/generic/estimators.py:21 | a new classifier has no classes (`classes = None`) |
| `Estimators.Classifier.PreprocessClasses` | mltools/generic/estimators.py:23-40 | stores the sorted distinct labels in `classes` and returns the inverse indices |
| `Estimators.ClassCountMessage` | mltools/generic/estimators.py:71-72 | the class-count message is the fixed text with the number of distinct classes in decimal between its two parts |
| `Estimators.BinaryClassifier.PreprocessClasses` | mltools/generic/estimators.py:55-73 | stores the classes whatever their number; raises `ValueError` unless there are exactly 2; on success returns the base method's indices and `classes[0] < classes[1]` |
| `Estimators.BinaryClassifier.constructor` | mltools/generic/estimators.py:21 | a new binary classifier owns a fresh base part without classes |
| `Estimators.Pick` | mltools/generic/estimators.py:99 | the chosen class index is 1 exactly when the probability exceeds the cutoff, else 0 |
| `Estimators.FirstOutOfRange` | mltools/generic/estimators.py:99 | NumPy's index check on `self.classes[...]`: no index is reported exactly when every pick is within the classes; a reported index is a pick beyond them |
| `Estimators.OutOfBoundsMessage` | mltools/generic/estimators.py:99 | NumPy's out-of-bounds message names the offending index and the array's size, both in decimal |
| `Estimators.BinaryClassifier.Predict` | mltools/generic/estimators.py:80-99 | one label per probability, `classes[Pick(p, cutoff)]`; unset classes raise `TypeError`; with classes set it succeeds exactly when every pick is within them (always with two or more classes) and otherwise raises `IndexError` |
| `Estimators.PredictIsClassOneIff` | mltools/generic/estimators.py:87-99 | with two distinct classes, a prediction is `classes[1]` if and only if its probability exceeds the cutoff, and `classes[0]` otherwise |
| `Estimators.RaisingCutoffKeepsClassZero` | mltools/generic/estimators.py:99 | raising the cutoff never turns a `classes[0]` prediction into `classes[1]` |
| `Estimators.SumSquares` | mltools/generic/estimators.py:133 | the sum of squared differences is non-negative |
| `Estimators.Mse` | mltools/generic/estimators.py:110-133 | the mean of `(y[i] - y_hat[i])^2` is defined exactly for non-empty input, and is non-negative |
| `Estimators.SumSquaresZeroIff` | mltools/generic/estimators.py:133 | the sum of squared differences is zero exactly when predictions and responses agree |
| `Estimators.MseZeroIff` | mltools/generic/estimators.py:133 | the mean squared error is zero if and only if every prediction matches its response |
| `Estimators.MseSymmetric` | mltools/generic/estimators.py:133 | swapping responses and predictions does not change the error |
| `Exceptions.Decimal` | mltools/generic/estimators.py:72 | the decimal rendering of `len(self.classes)` in the f-string is a non-empty string of digits |
| `Exceptions.DecimalRoundTrip` | mltools/generic/estimators.py:72 | reading back that rendering gives the number rendered |

## Left out

- NumPy's random generator (`np.random.seed`, `np.random.choice`; bootstrap.py:87-88, 94): the draws are an input, so the `seed` argument and run-to-run reproducibility are not modelled. Reproducibility is a property of the generator, which is not visible here.
- The internals of the user's `statistic` and `sampling_procedure`: both are opaque total functions, so the exceptions they may raise (which propagate uncaught) are not modelled.
- The output shape of a custom sampling procedure: it is the caller's responsibility, and the model takes whatever `Data` the procedure returns.
- IEEE floating point: the model computes over `real`. There is no NaN, no rounding in `100 * alpha / 2`, `np.percentile` or `np.mean`, and no float comparison subtleties. `np.mean` of an empty array (NaN) is `None`.
- The columns of a 2-D array: a row is an opaque value, because `x[indices, :]` only moves whole rows.
- Python's bound keyword arguments: `*args, **kwargs` of the statistic are one value `args`. The sampling procedure's own extra arguments are part of the procedure function.
- Class labels are integers. `np.unique` sorts any orderable dtype; the ordering of strings or floats is not modelled.
- The abstract `predict_prob` and `predict`, `Fittable` and `validate_data` (estimators.py:7-8, 131): their bodies are not visible. Their results are inputs. `Mse` assumes only that responses and predictions are equally long, which is what `validate_data` and a well-behaved `predict` guarantee.
- mltools/optimization/__init__.py: it only re-exports names and has no logic.
- Parallel execution of the replicate loop: the code is sequential, and so is the model.
- Bootstrap.BootstrapTest.Test: the distribution buffer is a fresh `array<real>`, initialised to zeros as `np.zeros(b)` does. Aliasing of `dist` with arrays the caller holds is not modelled, because the source never hands the buffer out before the loop ends.

## Findings

| source | as written | input that shows it | evidently intended | confidence | as-written member | corrected member |
|---|---|---|---|---|---|---|
| mltools/hypothesis/bootstrap.py:42 | `self.size = self.x.size[0]`: `size` of a NumPy array is an `int`, and subscripting it raises `TypeError`, so every construction that passes validation fails | `BootstrapTest([1, 2, 3], np.mean)` | `self.x.shape[0]`, the number of observations | high, not executed | `Bootstrap.InitAsWrittenAlwaysRaises` | `Bootstrap.InitOutcome` |
