# Early-stopping triggers, modelled in Dafny

This project models the early-stopping criteria of `stanza/monitoring/trigger.py`.
Each criterion receives one metric value per call and answers whether the
training loop should stop. There are three criteria:

- **`ThresholdEarlyStopping`** has no memory. It stops when the value is above
  `max` or below `min`.
- **`PatienceEarlyStopping`** keeps the best value seen so far and the number
  of calls since that value was last strictly improved. It stops once more
  than `patience` calls have gone by without an improvement. It can be reset.
- **`SlopeThresholdEarlyStopping`** keeps a buffer of the last `time` values.
  Each call shifts the buffer left by one slot. During warm-up it only counts
  calls. Once warm, it stops when the least-squares slope of the buffer,
  fitted against the positions `0 .. time-1`, is below `min` or above `max`.
  It can be reset.

Modules and files:

- `bounds.dfy` (`Bounds`): the bounds default to `-inf` and `+inf`. They are
  the extended reals `NegInf | Finite(r) | PosInf`. The stop test
  `v > hi or v < lo` is `Outside`.
- `threshold.dfy` (`Threshold`): the stateless criterion, a datatype with a
  pure `ShouldStop`.
- `patience.dfy` (`Patience`): the patience criterion, a class whose methods
  update `bestSoFar` and `timeSinceBest`.
  - A ghost `history` records the values passed in since construction or the
    last reset.
  - `Valid()` ties the two fields to functions of that history:
    - `Best` is the maximum, or `NegInf` before the first call.
    - `SinceBest` counts the calls since the position where that maximum was
      first reached.
- `least_squares.dfy` (`LeastSquares`): the exact closed-form ordinary
  least-squares fit.
  - It works over points, through their moments (count, Σx, Σx², Σy, Σxy, Σy²).
  - `Slope(ys)` is the slope of the window `ys` against `x = 0 .. |ys|-1`.
  - It is proved to:
    - solve the normal equations;
    - minimise the squared error over all lines, every other line having a
      strictly larger error;
    - recover `a` exactly when the values lie on a line `a*i + b`.
- `slope.dfy` (`SlopeThreshold`): the slope criterion, a class over an
  `array<real>` buffer.
  - A shift loop moves every slot one place towards the front.
  - `Valid()` says what the buffer and the warm-up counter hold:
    - the buffer equals `Window(history, time)`, the last `time` entries of
      the zero fill followed by the history;
    - the counter equals `Warmup(|history|, time)`.
- `replay.dfy` (`Replay`): the caller's side.
  - It feeds a list of values to a criterion and collects the answers.
  - A run after `Reset` gives the same answers as a run on a newly built
    criterion.
  - It includes worked examples.

Values are exact reals. The source's NaN and rounding behaviour is not
modelled (see below).

## Model

| member | source | states |
|---|---|---|
| Bounds.Outside | stanza/monitoring/trigger.py:50 | The test `v > max or v < min` holds exactly when `v` is not in the closed interval `[min, max]`. Both bounds may be infinite. |
| Threshold.ThresholdEarlyStopping.ShouldStop | stanza/monitoring/trigger.py:44-50 | Stops exactly when the value lies outside `[min, max]`. Being a function of a value, the call changes nothing. |
| Threshold.DefaultNeverStops | stanza/monitoring/trigger.py:44 | With both bounds left at their infinite defaults, no value stops. |
| Threshold.InvertedAlwaysStops | stanza/monitoring/trigger.py:44-50 | When `min > max`, every value stops. |
| Threshold.WiderNeverStopsMore | stanza/monitoring/trigger.py:44-50 | A value that stops under a wider interval also stops under a narrower one it contains. |
| Patience.Best | stanza/monitoring/trigger.py:62-67 | What `best_so_far` holds: `NegInf` exactly before the first call, and afterwards a value that was passed in and that no value passed in exceeds. |
| Patience.SinceBest | stanza/monitoring/trigger.py:63-70 | What `time_since_best` holds: 0 before the first call; afterwards the value that many calls back is the maximum, every value before it is strictly smaller and none after it is larger. |
| Patience.Verdict | stanza/monitoring/trigger.py:66-71 | The answer on a history is true exactly when it is non-empty and none of its last `patience + 1` calls (one call when `patience <= 0`) brought a value above every earlier one. |
| Patience.NoRecentImprovement | stanza/monitoring/trigger.py:66-71 | The test `time_since_best > 0 and time_since_best > patience` holds exactly when no call among the last `max(patience, 0) + 1` was a strict improvement. |
| Patience.MaxIsMaximum | stanza/monitoring/trigger.py:62-69 | `Max` of a non-empty history bounds every value and is attained. |
| Patience.FirstArgMax | stanza/monitoring/trigger.py:66-68 | The position the best value refers to holds the maximum, and every earlier value is strictly smaller. Later equal values never move it. |
| Patience.ImprovesIffGreatest | stanza/monitoring/trigger.py:66 | `v > best_so_far` holds exactly when `v` is greater than every value seen so far. Before the first call it holds for every `v`. |
| Patience.BestStep | stanza/monitoring/trigger.py:66-67 | After a call the best value is the new value if it is strictly greater, and otherwise unchanged. |
| Patience.SinceBestStep | stanza/monitoring/trigger.py:66-70 | The counter becomes 0 on a strict improvement and otherwise grows by exactly 1. An equal value counts as no improvement. |
| Patience.ImprovementContinues | stanza/monitoring/trigger.py:66-69 | The call that brings a strict improvement never stops, whatever the patience. |
| Patience.StopPersists | stanza/monitoring/trigger.py:70-71 | Once the criterion has stopped, it keeps stopping on every call until a strict improvement. |
| Patience.VerdictMeaning | stanza/monitoring/trigger.py:65-71 | A stop means the maximum was first reached more than `patience` calls ago, and no later value exceeds it. |
| Patience.PatienceEarlyStopping.constructor | stanza/monitoring/trigger.py:59-63 | Starts with best `NegInf`, counter 0 and an empty history. |
| Patience.PatienceEarlyStopping.ShouldStop | stanza/monitoring/trigger.py:65-71 | On `v > best_so_far`: the best becomes `v`, the counter 0, and the answer is false. Otherwise (equality included): the best is unchanged, the counter grows by 1, and the answer is `counter > patience`. The fields stay the maximum and the calls since it was reached, and the answer equals `Verdict` on the history. |
| Patience.PatienceEarlyStopping.Reset | stanza/monitoring/trigger.py:73-75 | Restores exactly the constructor state: best `NegInf`, counter 0, empty history. |
| LeastSquares.PushOnAxis | stanza/monitoring/trigger.py:92 | Adding the point at the next position keeps the moments those of the time axis `0, 1, ...`. |
| LeastSquares.SpreadOnAxis | stanza/monitoring/trigger.py:92-95 | On a time axis of `W >= 2` points, the denominator `W·Σi² - (Σi)²` equals `W²(W²-1)/12`, so it is positive. The fit is never degenerate. |
| LeastSquares.PushError | stanza/monitoring/trigger.py:107 | Adding a point adds its own squared residual to the moment form of the error. |
| LeastSquares.PushOnLine | stanza/monitoring/trigger.py:107 | A point on a line that solves the normal equations keeps that line a solution. |
| LeastSquares.NormalSolution | stanza/monitoring/trigger.py:107 | The closed-form slope and intercept solve both normal equations. |
| LeastSquares.NormalSolutionUnique | stanza/monitoring/trigger.py:107 | Any line that solves the normal equations has the closed-form slope. |
| LeastSquares.NormalIsMinimal | stanza/monitoring/trigger.py:107 | A solution of the normal equations has the least squared error of all lines. |
| LeastSquares.NormalIsStrictMinimal | stanza/monitoring/trigger.py:107 | With a positive spread, every line other than a solution of the normal equations has a strictly larger squared error. |
| LeastSquares.OnlySlope | stanza/monitoring/trigger.py:107 | With a non-zero spread, every solution of the normal equations has the closed-form slope. |
| LeastSquares.AccumulateOnAxis | stanza/monitoring/trigger.py:92 | The moments of points at positions `0 .. n-1` count `n` points and are those of the time axis. |
| LeastSquares.ErrorMoments | stanza/monitoring/trigger.py:107 | The squared error summed point by point equals the form computed from the moments. |
| LeastSquares.LineIsNormal | stanza/monitoring/trigger.py:107 | When every point lies on the line `(a, b)`, that line solves the normal equations. |
| LeastSquares.SpreadPositive | stanza/monitoring/trigger.py:92-95 | A window of at least two values has a positive spread, so its slope is defined. |
| LeastSquares.Slope | stanza/monitoring/trigger.py:107 | The slope `m` that `lstsq` returns for a window of at least two values: the fit is not degenerate, and `m` is the slope of every solution of the window's normal equations. |
| LeastSquares.NormalEquations | stanza/monitoring/trigger.py:106-107 | The slope and intercept of a window solve its normal equations. |
| LeastSquares.LeastSquaresOptimal | stanza/monitoring/trigger.py:106-107 | The slope and intercept of a window minimise the summed squared residuals over every line `(m2, c2)`, and every other line has a strictly larger sum. So they are the only least-squares solution, which is what `lstsq` returns for this full-rank system. |
| LeastSquares.SlopeOfLine | stanza/monitoring/trigger.py:106-107 | Values that lie on a line `a·i + b` have slope exactly `a`. |
| SlopeThreshold.Window | stanza/monitoring/trigger.py:93 | The buffer always holds exactly `time` values. |
| SlopeThreshold.WindowEmpty | stanza/monitoring/trigger.py:93 | Before any call the buffer is the zero fill. |
| SlopeThreshold.WindowShift | stanza/monitoring/trigger.py:99-100 | One call drops the oldest slot and appends the new value. |
| SlopeThreshold.WindowIsRecent | stanza/monitoring/trigger.py:93-100 | From the `time`-th call on, the buffer is exactly the last `time` values passed in, oldest first. None of the zero fill is left. |
| SlopeThreshold.Warmup | stanza/monitoring/trigger.py:102-103 | What `points_seen` holds after `n` calls, counting from the 0 it starts at: the smaller of `n` and `time - 1`. |
| SlopeThreshold.Verdict | stanza/monitoring/trigger.py:102-108 | The answer on a history is true exactly when at least `time` values have been passed in and the least-squares slope of the last `time` of them is outside `[min, max]`. |
| SlopeThreshold.WarmupStep | stanza/monitoring/trigger.py:102-103 | The counter never exceeds `time - 1`. It grows by one per call until it reaches `time - 1`, then stays there. |
| SlopeThreshold.FitIffWarm | stanza/monitoring/trigger.py:102 | The counter before a call has reached `time - 1` exactly when that call is at least the `time`-th. |
| SlopeThreshold.WarmupContinues | stanza/monitoring/trigger.py:102-104 | The first `time - 1` calls never stop, whatever the values. |
| SlopeThreshold.VerdictOnLine | stanza/monitoring/trigger.py:106-108 | Once warm, with the last `time` values on a line of slope `a`, the criterion stops exactly when `a` is outside `[min, max]`. |
| SlopeThreshold.SlopeThresholdEarlyStopping.constructor | stanza/monitoring/trigger.py:86-95 | Stores the bounds and the width. Builds a fresh zero-filled buffer of length `time`, with counter 0 and an empty history. |
| SlopeThreshold.SlopeThresholdEarlyStopping.ShouldStop | stanza/monitoring/trigger.py:97-108 | Slot `k < time-1` takes the old slot `k+1`, and the last slot takes `v`. During warm-up the counter grows by one and the answer is false. Once warm, the counter stays and the answer is `slope < min or slope > max`, for the least-squares slope of the new buffer. The answer equals `Verdict` on the history. |
| SlopeThreshold.SlopeThresholdEarlyStopping.Shift | stanza/monitoring/trigger.py:99-100 | The buffer becomes its old contents without the first slot, followed by `v`. |
| SlopeThreshold.SlopeThresholdEarlyStopping.Reset | stanza/monitoring/trigger.py:110-112 | Restores the constructor state: counter 0, a zero-filled buffer and an empty history. |
| Replay.PatienceRunAnswers | stanza/monitoring/trigger.py:65-71 | A run gives one answer per value. The `i`-th answer is the verdict on everything seen up to and including the `i`-th value. |
| Replay.SlopeRunAnswers | stanza/monitoring/trigger.py:97-108 | A run gives one answer per value. The `i`-th answer is the verdict on everything seen up to and including the `i`-th value. |
| Replay.FeedPatience | stanza/monitoring/trigger.py:65-71 | Feeding values in order to a patience criterion yields exactly the run's answers, and extends its history by those values. |
| Replay.FeedSlope | stanza/monitoring/trigger.py:97-108 | Feeding values in order to a slope criterion yields exactly the run's answers, and extends its history by those values. |
| Replay.PatienceFresh | stanza/monitoring/trigger.py:59-71 | A newly built patience criterion answers the run from the empty history. |
| Replay.PatienceResetReplay | stanza/monitoring/trigger.py:73-75 | A used patience criterion, once reset, answers any values exactly as a newly built one does. |
| Replay.SlopeFresh | stanza/monitoring/trigger.py:86-108 | A newly built slope criterion answers the run from the empty history. |
| Replay.SlopeResetReplay | stanza/monitoring/trigger.py:110-112 | A used slope criterion, once reset, answers any values exactly as a newly built one does. |
| Replay.SlopeRunWarmup | stanza/monitoring/trigger.py:102-104 | A run from construction or reset never stops during its first `time - 1` calls. |
| Replay.PatienceRunImprovement | stanza/monitoring/trigger.py:66-69 | A run never stops on a call whose value is above every earlier value. |
| Replay.PatienceExample | stanza/monitoring/trigger.py:59-75 | Patience 2 on `1, 5, 3, 3, 3` answers `false, false, false, false, true`. After `Reset` the same values give the same answers. |
| Replay.PlateauExample | stanza/monitoring/trigger.py:65-71 | Patience 1 on `5, 5, 5` answers `false, false, true`. |
| Replay.SlopeExample | stanza/monitoring/trigger.py:97-108 | Width 3 on `1, 2, 3` (slope 1): with maximum 0.5 the answers are `false, false, true`; with maximum 2 they are `false, false, false`. |

## Left out

- Floating point. Values are exact reals: NaN comparisons, rounding error and
  infinite metric values are not modelled. Only the bounds may be infinite.
- `np.linalg.lstsq` (trigger.py:107) is a foreign numeric call. It is replaced
  by the exact closed-form least-squares solution of the same problem,
  `LeastSquares.Slope`. The intercept `c` is modelled only to state the
  optimality of the fit; the criterion never uses it.
- The construction of `x` and `A` with `np.array` and `np.vstack`
  (trigger.py:92, 95) is library plumbing. Only the positions
  `0 .. time-1` they encode are modelled, as the time axis of the fit.
- SlopeThreshold.SlopeThresholdEarlyStopping.constructor: requires
  `time >= 2`, which the source does not check. The other widths behave as
  follows in the source, and the model has none of them:
  - a negative `time` fails in the constructor, at `np.zeros(time)`
    (trigger.py:93);
  - `time = 0` builds, but every call fails at the write to the last slot
    (trigger.py:100);
  - `time = 1` fits from the first call, because `points_seen < 0` is false
    (trigger.py:102). The system `m·0 + c = v` has many solutions, and
    `lstsq` returns the one of least norm, `m = 0`. So every call answers
    `0 < min or 0 > max`.
- The abstract `Trigger`, `StatefulTriggerMixin` and `EarlyStopping`
  classes (trigger.py:5-36) only give interface shapes whose bodies raise
  `NotImplementedError`. They are not modelled. As in the source,
  `ThresholdEarlyStopping` has no `Reset`, so the model has no
  "unsupported reset" path.
- The training loop that calls the criteria, and any logging, are not part
  of this model. `Replay` stands in for a caller that feeds values in order.
- The class comment of `PatienceEarlyStopping` (trigger.py:55-56) says it
  stops when `patience` time steps have elapsed since the best value. The
  code (trigger.py:71) stops only when more than `patience` have elapsed
  (`time_since_best > self.patience`). With patience 1 on `5, 5, 5`, the
  comment would stop on the second call and the code stops on the third. The
  model follows the code (`Replay.PlateauExample`: `false, false, true`).
