/** The caller's side: a run feeds a list of values to a criterion one call
    at a time and collects the answers. A run after `Reset` answers exactly
    as a run on a newly built criterion. */
module Replay {
  import opened Bounds
  import Patience
  import SlopeThreshold

  // ----- The answers of a run, as functions of the values fed in

  /** The answers of a patience criterion that has seen `start`, fed `vs`
      one call at a time: the last one is the verdict on all of `start + vs`. */
  function PatienceRun(patience: int, start: seq<real>, vs: seq<real>): (out: seq<bool>)
    ensures |out| == |vs|
  {
    if vs == [] then []
    else PatienceRun(patience, start, vs[..|vs| - 1]) + [Patience.Verdict(patience, start + vs)]
  }

  /** The answers of a slope criterion that has seen `start`, fed `vs`. */
  function SlopeRun(min: ExtReal, max: ExtReal, time: nat, start: seq<real>, vs: seq<real>): (out: seq<bool>)
    requires time >= 2
    ensures |out| == |vs|
  {
    if vs == [] then []
    else SlopeRun(min, max, time, start, vs[..|vs| - 1]) + [SlopeThreshold.Verdict(min, max, time, start + vs)]
  }

  /** One answer per value, and the `i`-th answer is the verdict on
      everything seen up to and including `vs[i]`. */
  lemma {:induction false} PatienceRunAnswers(patience: int, start: seq<real>, vs: seq<real>)
    ensures forall i :: 0 <= i < |vs| ==>
              PatienceRun(patience, start, vs)[i] == Patience.Verdict(patience, start + vs[..i + 1])
  {
    if vs != [] {
      var p := vs[..|vs| - 1];
      var r := PatienceRun(patience, start, p);
      PatienceRunAnswers(patience, start, p);
      assert PatienceRun(patience, start, vs) == r + [Patience.Verdict(patience, start + vs)];
      forall i | 0 <= i < |p|
        ensures PatienceRun(patience, start, vs)[i] == Patience.Verdict(patience, start + vs[..i + 1])
      {
        assert PatienceRun(patience, start, vs)[i] == r[i];
        assert p[..i + 1] == vs[..i + 1];
      }
      assert vs[..|vs|] == vs;
    }
  }

  /** One answer per value, and the `i`-th answer is the verdict on
      everything seen up to and including `vs[i]`. */
  lemma {:induction false} SlopeRunAnswers(min: ExtReal, max: ExtReal, time: nat, start: seq<real>, vs: seq<real>)
    requires time >= 2
    ensures forall i :: 0 <= i < |vs| ==>
              SlopeRun(min, max, time, start, vs)[i] == SlopeThreshold.Verdict(min, max, time, start + vs[..i + 1])
  {
    if vs != [] {
      var p := vs[..|vs| - 1];
      var r := SlopeRun(min, max, time, start, p);
      SlopeRunAnswers(min, max, time, start, p);
      assert SlopeRun(min, max, time, start, vs) == r + [SlopeThreshold.Verdict(min, max, time, start + vs)];
      forall i | 0 <= i < |p|
        ensures SlopeRun(min, max, time, start, vs)[i] == SlopeThreshold.Verdict(min, max, time, start + vs[..i + 1])
      {
        assert SlopeRun(min, max, time, start, vs)[i] == r[i];
        assert p[..i + 1] == vs[..i + 1];
      }
      assert vs[..|vs|] == vs;
    }
  }

  /** The run on one more value ends with the verdict on everything seen. */
  lemma PatienceRunStep(patience: int, start: seq<real>, vs: seq<real>, k: nat)
    requires k < |vs|
    ensures start + vs[..k + 1] == start + vs[..k] + [vs[k]]
    ensures PatienceRun(patience, start, vs[..k + 1])
            == PatienceRun(patience, start, vs[..k]) + [Patience.Verdict(patience, start + vs[..k] + [vs[k]])]
  {
    assert vs[..k + 1][..k] == vs[..k];
    assert start + vs[..k + 1] == start + vs[..k] + [vs[k]];
  }

  /** The run on one more value ends with the verdict on everything seen. */
  lemma SlopeRunStep(min: ExtReal, max: ExtReal, time: nat, start: seq<real>, vs: seq<real>, k: nat)
    requires time >= 2 && k < |vs|
    ensures start + vs[..k + 1] == start + vs[..k] + [vs[k]]
    ensures SlopeRun(min, max, time, start, vs[..k + 1])
            == SlopeRun(min, max, time, start, vs[..k]) + [SlopeThreshold.Verdict(min, max, time, start + vs[..k] + [vs[k]])]
  {
    assert vs[..k + 1][..k] == vs[..k];
    assert start + vs[..k + 1] == start + vs[..k] + [vs[k]];
  }

  // ----- Feeding a criterion

  /** Feed `vs` to `t` in order, collecting the answers. */
  method FeedPatience(t: Patience.PatienceEarlyStopping, vs: seq<real>) returns (out: seq<bool>)
    requires t.Valid()
    modifies t
    ensures t.Valid() && t.history == old(t.history) + vs
    ensures out == PatienceRun(t.patience, old(t.history), vs)
  {
    ghost var start := t.history;
    out := [];
    var k := 0;
    while k < |vs|
      invariant 0 <= k <= |vs|
      invariant t.Valid() && t.history == start + vs[..k]
      invariant out == PatienceRun(t.patience, start, vs[..k])
    {
      PatienceRunStep(t.patience, start, vs, k);
      var stop := t.ShouldStop(vs[k]);
      out := out + [stop];
      k := k + 1;
    }
    assert vs[..k] == vs;
  }

  /** Feed `vs` to `t` in order, collecting the answers. */
  method FeedSlope(t: SlopeThreshold.SlopeThresholdEarlyStopping, vs: seq<real>) returns (out: seq<bool>)
    requires t.Valid()
    modifies t, t.y
    ensures t.Valid() && t.history == old(t.history) + vs
    ensures out == SlopeRun(t.min, t.max, t.time, old(t.history), vs)
  {
    ghost var start := t.history;
    out := [];
    var k := 0;
    while k < |vs|
      invariant 0 <= k <= |vs|
      invariant t.Valid() && t.history == start + vs[..k]
      invariant out == SlopeRun(t.min, t.max, t.time, start, vs[..k])
    {
      SlopeRunStep(t.min, t.max, t.time, start, vs, k);
      var stop := t.ShouldStop(vs[k]);
      out := out + [stop];
      k := k + 1;
    }
    assert vs[..k] == vs;
  }

  // ----- Reset, then replay

  /** A newly built patience criterion fed `vs` answers `PatienceRun`. */
  method PatienceFresh(patience: int, vs: seq<real>) returns (out: seq<bool>)
    ensures out == PatienceRun(patience, [], vs)
  {
    var t := new Patience.PatienceEarlyStopping(patience);
    out := FeedPatience(t, vs);
  }

  /** A used patience criterion, once reset, answers `vs` exactly as a newly
      built one does. */
  method PatienceResetReplay(t: Patience.PatienceEarlyStopping, vs: seq<real>) returns (out: seq<bool>)
    requires t.Valid()
    modifies t
    ensures t.Valid() && t.history == vs
    ensures out == PatienceRun(t.patience, [], vs)
  {
    t.Reset();
    out := FeedPatience(t, vs);
  }

  /** A newly built slope criterion fed `vs` answers `SlopeRun`. */
  method SlopeFresh(min: ExtReal, max: ExtReal, time: nat, vs: seq<real>) returns (out: seq<bool>)
    requires time >= 2
    ensures out == SlopeRun(min, max, time, [], vs)
  {
    var t := new SlopeThreshold.SlopeThresholdEarlyStopping(min, max, time);
    out := FeedSlope(t, vs);
  }

  /** A used slope criterion, once reset, answers `vs` exactly as a newly
      built one does. */
  method SlopeResetReplay(t: SlopeThreshold.SlopeThresholdEarlyStopping, vs: seq<real>) returns (out: seq<bool>)
    requires t.Valid()
    modifies t, t.y
    ensures t.Valid() && t.history == vs
    ensures out == SlopeRun(t.min, t.max, t.time, [], vs)
  {
    t.Reset();
    out := FeedSlope(t, vs);
  }

  // ----- Properties of whole runs

  /** No run of a newly built or reset slope criterion stops during its
      first `time - 1` calls. */
  lemma SlopeRunWarmup(min: ExtReal, max: ExtReal, time: nat, vs: seq<real>)
    requires time >= 2
    ensures forall i :: 0 <= i < |vs| && i < time - 1 ==> !SlopeRun(min, max, time, [], vs)[i]
  {
    SlopeRunAnswers(min, max, time, [], vs);
    forall i | 0 <= i < |vs| && i < time - 1
      ensures !SlopeRun(min, max, time, [], vs)[i]
    {
      assert [] + vs[..i + 1] == vs[..i + 1];
      SlopeThreshold.WarmupContinues(min, max, time, vs[..i + 1]);
    }
  }

  /** A run of a newly built or reset patience criterion never stops on a
      call that brings a value above every earlier one. */
  lemma PatienceRunImprovement(patience: int, vs: seq<real>, i: nat)
    requires i < |vs|
    requires forall j :: 0 <= j < i ==> vs[j] < vs[i]
    ensures !PatienceRun(patience, [], vs)[i]
  {
    PatienceRunAnswers(patience, [], vs);
    var h := vs[..i];
    assert [] + vs[..i + 1] == h + [vs[i]];
    Patience.ImprovesIffGreatest(h, vs[i]);
    Patience.ImprovementContinues(patience, h, vs[i]);
  }

  // ----- Worked examples

  /** Patience 2 on `1, 5, 3, 3, 3`: the third call after the best exceeds
      the patience; after `Reset` the same values give the same answers. */
  method PatienceExample() returns (first: seq<bool>, second: seq<bool>)
    ensures first == [false, false, false, false, true]
    ensures second == first
  {
    var t := new Patience.PatienceEarlyStopping(2);
    var a := t.ShouldStop(1.0);
    var b := t.ShouldStop(5.0);
    var c := t.ShouldStop(3.0);
    var d := t.ShouldStop(3.0);
    var e := t.ShouldStop(3.0);
    first := [a, b, c, d, e];
    t.Reset();
    a := t.ShouldStop(1.0);
    b := t.ShouldStop(5.0);
    c := t.ShouldStop(3.0);
    d := t.ShouldStop(3.0);
    e := t.ShouldStop(3.0);
    second := [a, b, c, d, e];
  }

  /** Patience 1 on the plateau `5, 5, 5`: an equal value is no improvement,
      so the counter is 1 on the second call (not above the patience) and 2
      on the third. */
  method PlateauExample() returns (out: seq<bool>)
    ensures out == [false, false, true]
  {
    var t := new Patience.PatienceEarlyStopping(1);
    var a := t.ShouldStop(5.0);
    var b := t.ShouldStop(5.0);
    var c := t.ShouldStop(5.0);
    out := [a, b, c];
  }

  /** A window of 3 on `1, 2, 3` fits the slope 1: the third call stops under
      a maximum of 0.5 and continues under a maximum of 2. */
  lemma SlopeExample()
    ensures SlopeRun(NegInf, Finite(0.5), 3, [], [1.0, 2.0, 3.0]) == [false, false, true]
    ensures SlopeRun(NegInf, Finite(2.0), 3, [], [1.0, 2.0, 3.0]) == [false, false, false]
  {
    var vs := [1.0, 2.0, 3.0];
    SlopeRunWarmup(NegInf, Finite(0.5), 3, vs);
    SlopeRunWarmup(NegInf, Finite(2.0), 3, vs);
    SlopeRunAnswers(NegInf, Finite(0.5), 3, [], vs);
    SlopeRunAnswers(NegInf, Finite(2.0), 3, [], vs);
    assert [] + vs[..3] == vs;
    assert vs[|vs| - 3..] == SlopeThreshold.Line(3, 1.0, 1.0);
    SlopeThreshold.VerdictOnLine(NegInf, Finite(0.5), 3, vs, 1.0, 1.0);
    SlopeThreshold.VerdictOnLine(NegInf, Finite(2.0), 3, vs, 1.0, 1.0);
  }
}
