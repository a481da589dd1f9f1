/** The stateless criterion: stop as soon as the monitored value crosses
    the minimum or the maximum threshold. */
module Threshold {
  import opened Bounds

  /** The thresholds are fixed at construction and default to the
      unbounded interval. */
  datatype ThresholdEarlyStopping = ThresholdEarlyStopping(min: ExtReal := NegInf, max: ExtReal := PosInf)
  {
    /** Stop exactly when the value lies outside the closed interval
        `[min, max]`; being a function of a value, the call changes nothing. */
    function ShouldStop(v: real): (stop: bool)
      ensures stop <==> !Within(v, min, max)
    {
      Outside(v, min, max)
    }
  }

  /** With both bounds left at their defaults the criterion never fires. */
  lemma DefaultNeverStops(v: real)
    ensures !ThresholdEarlyStopping().ShouldStop(v)
  {
  }

  /** An inverted interval (`min > max`) makes the criterion fire on every value. */
  lemma InvertedAlwaysStops(t: ThresholdEarlyStopping, v: real)
    requires !Le(t.min, t.max)
    ensures t.ShouldStop(v)
  {
  }

  /** Widening the interval can only turn a stop into a continue. */
  lemma WiderNeverStopsMore(t: ThresholdEarlyStopping, u: ThresholdEarlyStopping, v: real)
    requires Le(u.min, t.min) && Le(t.max, u.max)
    requires u.ShouldStop(v)
    ensures t.ShouldStop(v)
  {
  }
}
