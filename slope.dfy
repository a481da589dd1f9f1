/** The slope criterion: keep the last `time` values in a buffer shifted by
    one slot per call, and once the buffer holds `time` observations stop
    when the least-squares slope of the buffer leaves `[min, max]`. */
module SlopeThreshold {
  import opened Bounds
  import opened LeastSquares

  // ----- What the buffer and the counter hold, as functions of the values seen

  /** The zero fill of a fresh or reset buffer. */
  function Zeros(n: nat): seq<real> {
    seq(n, i => 0.0)
  }

  /** The buffer after the values `h`: the last `time` entries of the zero
      fill followed by `h`, oldest first. */
  function Window(h: seq<real>, time: nat): (w: seq<real>)
    ensures |w| == time
  {
    (Zeros(time) + h)[|h|..]
  }

  /** The warm-up counter after `n` calls: it counts up to `time - 1` and
      stays there, so it is the smaller of the two. */
  function Warmup(n: nat, time: nat): (c: nat)
    requires time >= 1
    ensures c <= n && c <= time - 1
    ensures c == n || c == time - 1
  {
    if n < time - 1 then n else time - 1
  }

  /** The answer of the call that received the last value of `h`: no fit
      before the `time`-th call, then the slope of the last `time` values
      against the bounds. */
  function Verdict(min: ExtReal, max: ExtReal, time: nat, h: seq<real>): (stop: bool)
    requires time >= 2
    ensures stop <==> |h| >= time && Outside(Slope(h[|h| - time..]), min, max)
  {
    if |h| < time then false
    else
      WindowIsRecent(h, time);
      Outside(Slope(Window(h, time)), min, max)
  }

  /** The values `a*0 + b, a*1 + b, ...` of a line sampled at the buffer's time axis. */
  function Line(n: nat, a: real, b: real): seq<real> {
    seq(n, i => a * (i as real) + b)
  }

  /** A fresh buffer is the zero fill. */
  lemma WindowEmpty(time: nat)
    ensures Window([], time) == Zeros(time)
  {
    assert Zeros(time) + [] == Zeros(time);
  }

  /** One call drops the oldest slot and appends the new value. */
  lemma WindowShift(h: seq<real>, v: real, time: nat)
    requires time >= 1
    ensures Window(h + [v], time) == Window(h, time)[1..] + [v]
  {
    var z := Zeros(time);
    assert z + (h + [v]) == (z + h) + [v];
  }

  /** From the `time`-th call on, every slot holds a value that was passed
      in, none of the zero fill: the buffer is exactly the last `time` values. */
  lemma WindowIsRecent(h: seq<real>, time: nat)
    requires |h| >= time
    ensures Window(h, time) == h[|h| - time..]
  {
    var w, r := Window(h, time), h[|h| - time..];
    forall k | 0 <= k < time
      ensures w[k] == r[k]
    {
      assert w[k] == (Zeros(time) + h)[|h| + k];
    }
  }

  /** The counter never exceeds `time - 1`, and it stops changing there. */
  lemma WarmupStep(n: nat, time: nat)
    requires time >= 1
    ensures Warmup(n, time) <= time - 1
    ensures Warmup(n + 1, time) == if Warmup(n, time) < time - 1 then Warmup(n, time) + 1 else Warmup(n, time)
  {
  }

  /** A fit is made exactly on the calls where the counter, before the call,
      has reached `time - 1`: from the `time`-th call on. */
  lemma FitIffWarm(n: nat, time: nat)
    requires time >= 1
    ensures Warmup(n, time) >= time - 1 <==> n + 1 >= time
  {
  }

  /** The first `time - 1` calls never stop, whatever the values. */
  lemma WarmupContinues(min: ExtReal, max: ExtReal, time: nat, h: seq<real>)
    requires time >= 2 && |h| < time
    ensures !Verdict(min, max, time, h)
  {
  }

  /** Once warm, a window of values on a line of slope `a` stops exactly
      when `a` leaves `[min, max]`. */
  lemma VerdictOnLine(min: ExtReal, max: ExtReal, time: nat, h: seq<real>, a: real, b: real)
    requires time >= 2 && |h| >= time
    requires h[|h| - time..] == Line(time, a, b)
    ensures Verdict(min, max, time, h) <==> Outside(a, min, max)
  {
    WindowIsRecent(h, time);
    SlopeOfLine(Window(h, time), a, b);
  }

  /** The criterion as the source keeps it: the bounds, the window width,
      the buffer and the warm-up counter. The ghost `history` holds the
      values passed in since construction or the last reset. */
  class SlopeThresholdEarlyStopping {
    const min: ExtReal
    const max: ExtReal
    const time: nat
    const y: array<real>
    var pointsSeen: nat
    ghost var history: seq<real>

    ghost predicate Valid()
      reads this, y
    {
      time >= 2 && y.Length == time &&
      y[..] == Window(history, time) && pointsSeen == Warmup(|history|, time)
    }

    constructor(min: ExtReal := NegInf, max: ExtReal := PosInf, time: nat := 5)
      requires time >= 2
      ensures Valid() && fresh(y) && history == []
      ensures this.min == min && this.max == max && this.time == time
      ensures pointsSeen == 0 && y[..] == Zeros(time)
    {
      this.min := min;
      this.max := max;
      this.time := time;
      y := new real[time](i => 0.0);
      pointsSeen := 0;
      history := [];
      new;
      WindowEmpty(time);
    }

    method ShouldStop(v: real) returns (stop: bool)
      requires Valid()
      modifies this, y
      ensures Valid() && history == old(history) + [v]
      ensures forall k :: 0 <= k < time - 1 ==> y[k] == old(y[k + 1])
      ensures y[time - 1] == v
      ensures old(pointsSeen) < time - 1 ==> pointsSeen == old(pointsSeen) + 1 && !stop
      ensures old(pointsSeen) >= time - 1 ==>
                pointsSeen == old(pointsSeen) && stop == Outside(Slope(y[..]), min, max)
      ensures stop == Verdict(min, max, time, history)
    {
      Shift(v);
      WindowShift(history, v, time);
      WarmupStep(|history|, time);
      FitIffWarm(|history|, time);
      history := history + [v];
      if pointsSeen < time - 1 {
        pointsSeen := pointsSeen + 1;
        return false;
      }
      stop := Outside(Slope(y[..]), min, max);
    }

    /** Move every slot one place towards the front and put `v` in the last one. */
    method Shift(v: real)
      requires y.Length >= 1
      modifies y
      ensures y[..] == old(y[..])[1..] + [v]
    {
      ghost var before := y[..];
      var i := 0;
      while i < y.Length - 1
        invariant 0 <= i <= y.Length - 1
        invariant forall k :: 0 <= k < i ==> y[k] == before[k + 1]
        invariant forall k :: i <= k < y.Length ==> y[k] == before[k]
      {
        y[i] := y[i + 1];
        i := i + 1;
      }
      y[y.Length - 1] := v;
    }

    method Reset()
      requires Valid()
      modifies this, y
      ensures Valid() && history == []
      ensures pointsSeen == 0 && y[..] == Zeros(time)
    {
      forall i | 0 <= i < y.Length {
        y[i] := 0.0;
      }
      pointsSeen := 0;
      history := [];
      WindowEmpty(time);
    }
  }
}
