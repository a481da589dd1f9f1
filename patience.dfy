/** The patience criterion: stop once more than `patience` calls have gone
    by since the last strict improvement of the best value seen. */
module Patience {
  import opened Bounds

  // ----- What the fields mean, as functions of the values seen

  /** The largest value of a non-empty history. */
  function Max(h: seq<real>): real
    requires h != []
  {
    if |h| == 1 then h[0]
    else if h[|h| - 1] > Max(h[..|h| - 1]) then h[|h| - 1]
    else Max(h[..|h| - 1])
  }

  /** `Max` is attained and bounds every value. */
  lemma {:induction false} MaxIsMaximum(h: seq<real>)
    requires h != []
    ensures forall i :: 0 <= i < |h| ==> h[i] <= Max(h)
    ensures exists i :: 0 <= i < |h| && h[i] == Max(h)
  {
    if |h| > 1 {
      var p := h[..|h| - 1];
      MaxIsMaximum(p);
      var k :| 0 <= k < |p| && p[k] == Max(p);
      if h[|h| - 1] > Max(p) {
        assert h[|h| - 1] == Max(h);
      } else {
        assert h[k] == Max(h);
      }
      assert forall i :: 0 <= i < |p| ==> h[i] == p[i];
    } else {
      assert h[0] == Max(h);
    }
  }

  /** The position where the maximum was first reached: every earlier value
      is strictly smaller, so no later equal value moves it. */
  function FirstArgMax(h: seq<real>): (i: nat)
    requires h != []
    ensures i < |h| && h[i] == Max(h)
    ensures forall j :: 0 <= j < i ==> h[j] < Max(h)
  {
    if |h| == 1 then 0
    else if h[|h| - 1] > Max(h[..|h| - 1]) then
      MaxIsMaximum(h[..|h| - 1]);
      assert forall j :: 0 <= j < |h| - 1 ==> h[j] == h[..|h| - 1][j];
      |h| - 1
    else
      var i := FirstArgMax(h[..|h| - 1]);
      assert forall j :: 0 <= j < |h| - 1 ==> h[j] == h[..|h| - 1][j];
      i
  }

  /** The best value so far: negative infinity before the first call, then
      a value that was seen and that no value seen exceeds. */
  function Best(h: seq<real>): (b: ExtReal)
    ensures b == NegInf <==> h == []
    ensures h != [] ==> b.Finite? && (exists i :: 0 <= i < |h| && h[i] == b.r)
    ensures h != [] ==> forall i :: 0 <= i < |h| ==> h[i] <= b.r
  {
    if h == [] then NegInf else MaxIsMaximum(h); Finite(Max(h))
  }

  /** The calls since the maximum was first reached (zero before the first
      call): `s` calls back sits the best value, every value before it is
      strictly smaller and none after it is larger. */
  function SinceBest(h: seq<real>): (s: nat)
    ensures h == [] ==> s == 0
    ensures h != [] ==> s < |h| && h[|h| - 1 - s] == Max(h)
    ensures h != [] ==> forall j :: 0 <= j < |h| - 1 - s ==> h[j] < h[|h| - 1 - s]
    ensures h != [] ==> forall j :: |h| - 1 - s < j < |h| ==> h[j] <= h[|h| - 1 - s]
  {
    if h == [] then 0 else MaxIsMaximum(h); |h| - 1 - FirstArgMax(h)
  }

  /** The call at position `j` improved on the best: its value is greater
      than every earlier one. */
  predicate Improves(h: seq<real>, j: nat)
    requires j < |h|
  {
    forall i :: 0 <= i < j ==> h[i] < h[j]
  }

  /** The answer of the call that received the last value of `h`: it stops
      exactly when none of the last `patience + 1` calls (one call when the
      patience is not positive) improved on the best. */
  function Verdict(patience: int, h: seq<real>): (stop: bool)
    ensures stop <==> h != [] &&
                      forall j: nat :: |h| - 1 - Margin(patience) <= j < |h| ==> !Improves(h, j)
  {
    NoRecentImprovement(patience, h);
    SinceBest(h) > 0 && SinceBest(h) > patience
  }

  /** The patience, counted as the source's `> 0` and `> patience` tests
      together count it. */
  function Margin(patience: int): nat {
    if patience > 0 then patience else 0
  }

  /** The counter exceeds the margin exactly when no call in the last
      `Margin(patience) + 1` improved on the best. */
  lemma NoRecentImprovement(patience: int, h: seq<real>)
    ensures (SinceBest(h) > 0 && SinceBest(h) > patience) <==>
            h != [] && forall j: nat :: |h| - 1 - Margin(patience) <= j < |h| ==> !Improves(h, j)
  {
    if h != [] {
      var k := FirstArgMax(h);
      MaxIsMaximum(h);
      assert Improves(h, k);
      forall j: nat | k < j < |h|
        ensures !Improves(h, j)
      {
        assert h[k] >= h[j];
      }
    }
  }

  // ----- One call, on the functions

  /** A value improves on the best exactly when it is greater than every
      value seen so far. */
  lemma ImprovesIffGreatest(h: seq<real>, v: real)
    ensures Above(v, Best(h)) <==> forall i :: 0 <= i < |h| ==> h[i] < v
  {
    if h != [] {
      MaxIsMaximum(h);
    }
  }

  /** The next best value: the new value if it is strictly greater, else unchanged. */
  lemma BestStep(h: seq<real>, v: real)
    ensures Best(h + [v]) == if Above(v, Best(h)) then Finite(v) else Best(h)
  {
    assert (h + [v])[..|h|] == h;
  }

  /** The counter restarts on a strict improvement and otherwise grows by one. */
  lemma SinceBestStep(h: seq<real>, v: real)
    ensures SinceBest(h + [v]) == if Above(v, Best(h)) then 0 else SinceBest(h) + 1
  {
    assert (h + [v])[..|h|] == h;
  }

  /** The call that brings an improvement never stops, whatever the patience. */
  lemma ImprovementContinues(patience: int, h: seq<real>, v: real)
    requires Above(v, Best(h))
    ensures !Verdict(patience, h + [v])
  {
    SinceBestStep(h, v);
  }

  /** Once the criterion fires it keeps firing until an improvement. */
  lemma StopPersists(patience: int, h: seq<real>, v: real)
    requires Verdict(patience, h) && !Above(v, Best(h))
    ensures Verdict(patience, h + [v])
  {
    SinceBestStep(h, v);
  }

  /** A stop means the maximum was reached more than `patience` calls ago
      and nothing since has matched it. */
  lemma VerdictMeaning(patience: int, h: seq<real>)
    requires Verdict(patience, h)
    ensures h != [] && |h| - 1 - FirstArgMax(h) > patience
    ensures forall j :: FirstArgMax(h) < j < |h| ==> h[j] <= h[FirstArgMax(h)]
  {
    MaxIsMaximum(h);
  }

  /** The criterion as the source keeps it: the best value seen and the
      calls since it was last improved. The ghost `history` holds the values
      passed in since construction or the last reset. */
  class PatienceEarlyStopping {
    const patience: int
    var bestSoFar: ExtReal
    var timeSinceBest: nat
    ghost var history: seq<real>

    ghost predicate Valid()
      reads this
    {
      bestSoFar == Best(history) && timeSinceBest == SinceBest(history)
    }

    constructor(patience: int)
      ensures Valid() && history == []
      ensures this.patience == patience && bestSoFar == NegInf && timeSinceBest == 0
    {
      this.patience := patience;
      bestSoFar := NegInf;
      timeSinceBest := 0;
      history := [];
    }

    method ShouldStop(v: real) returns (stop: bool)
      requires Valid()
      modifies this
      ensures Valid() && history == old(history) + [v]
      ensures Above(v, old(bestSoFar)) ==>
                bestSoFar == Finite(v) && timeSinceBest == 0 && !stop
      ensures !Above(v, old(bestSoFar)) ==>
                bestSoFar == old(bestSoFar) && timeSinceBest == old(timeSinceBest) + 1
                && stop == (timeSinceBest > patience)
      ensures stop == Verdict(patience, history)
    {
      BestStep(history, v);
      SinceBestStep(history, v);
      history := history + [v];
      if Above(v, bestSoFar) {
        bestSoFar := Finite(v);
        timeSinceBest := 0;
        return false;
      }
      timeSinceBest := timeSinceBest + 1;
      return timeSinceBest > patience;
    }

    method Reset()
      modifies this
      ensures Valid() && history == []
      ensures bestSoFar == NegInf && timeSinceBest == 0
    {
      bestSoFar := NegInf;
      timeSinceBest := 0;
      history := [];
    }
  }
}
