/** The least-squares slope of a window of values against the time axis
    0, 1, ..., W-1, in exact real arithmetic. The closed form
      m = (W * sum(i * y_i) - sum(i) * sum(y_i)) / (W * sum(i^2) - sum(i)^2)
    stands in for the numeric solver the slope criterion calls; the lemmas
    below show that it is the slope of the line of least squared error, and
    that it recovers the slope of values lying on a line. */
module LeastSquares {

  /** A data point of the fit: a position on the time axis and a value. */
  datatype Point = Point(x: real, y: real)

  /** The sums the normal equations of the fit are built from. */
  datatype Moments = Moments(count: real, sumX: real, sumXX: real, sumY: real, sumXY: real, sumYY: real)
  {
    /** The moments after one more point. */
    function Push(pt: Point): Moments {
      Moments(count + 1.0, sumX + pt.x, sumXX + pt.x * pt.x, sumY + pt.y, sumXY + pt.x * pt.y, sumYY + pt.y * pt.y)
    }

    /** The determinant of the normal equations: `W * sum(x^2) - sum(x)^2`. */
    function Spread(): real {
      count * sumXX - sumX * sumX
    }

    /** The slope solving the normal equations. */
    function Slope(): real
      requires Spread() != 0.0
    {
      (count * sumXY - sumX * sumY) / Spread()
    }

    /** The intercept solving the normal equations. */
    function Intercept(): real
      requires count != 0.0 && Spread() != 0.0
    {
      (sumY - Slope() * sumX) / count
    }

    /** The sum of the squared residuals `(y - m * x - c)^2`, expanded. */
    function Error(m: real, c: real): real {
      ExpandedError(count, sumX, sumXX, sumY, sumXY, sumYY, m, c)
    }

    /** The points sit at 0, 1, ..., W-1: `sum(x) = W (W - 1) / 2` and
        `sum(x^2) = W (W - 1) (2 W - 1) / 6`. */
    predicate OnAxis() {
      2.0 * sumX == count * (count - 1.0) &&
      6.0 * sumXX == count * (count - 1.0) * (2.0 * count - 1.0)
    }

    /** The residuals `y - m * x - c` sum to zero and are uncorrelated
        with `x`: the line `(m, c)` solves the normal equations. */
    predicate Normal(m: real, c: real) {
      sumY - m * sumX - c * count == 0.0 &&
      sumXY - m * sumXX - c * sumX == 0.0
    }
  }

  /** The sum of the squared residuals `(y - m * x - c)^2` of `w` points,
      written through their sums `s`, `q`, `sy`, `sxy` and `syy` of `x`,
      `x^2`, `y`, `x * y` and `y^2`. */
  function ExpandedError(w: real, s: real, q: real, sy: real, sxy: real, syy: real, m: real, c: real): real {
    syy - 2.0 * m * sxy - 2.0 * c * sy + m * m * q + 2.0 * m * c * s + c * c * w
  }

  const Empty := Moments(0.0, 0.0, 0.0, 0.0, 0.0, 0.0)

  /** The moments of a sequence of points. */
  function Accumulate(ps: seq<Point>): Moments {
    if ps == [] then Empty else Accumulate(ps[..|ps| - 1]).Push(ps[|ps| - 1])
  }

  /** The points sit at the positions 0, 1, ..., |ps|-1, in order. */
  predicate OnTimeAxis(ps: seq<Point>) {
    forall i :: 0 <= i < |ps| ==> ps[i].x == i as real
  }

  /** A window of values read against the time axis, oldest first. */
  function TimeAxis(ys: seq<real>): seq<Point> {
    seq(|ys|, i requires 0 <= i < |ys| => Point(i as real, ys[i]))
  }

  // ----- Moments, one point at a time

  /** A point pushed at the next position extends the time axis. */
  lemma PushOnAxis(a: Moments, pt: Point)
    requires a.OnAxis() && pt.x == a.count
    ensures a.Push(pt).OnAxis()
  {
    PushFields(a, pt);
    AxisStep(a.sumX, a.sumXX, a.count, pt.x);
  }

  lemma AxisStep(s: real, q: real, w: real, x: real)
    requires x == w
    requires 2.0 * s == w * (w - 1.0)
    requires 6.0 * q == w * (w - 1.0) * (2.0 * w - 1.0)
    ensures 2.0 * (s + x) == (w + 1.0) * (w + 1.0 - 1.0)
    ensures 6.0 * (q + x * x) == (w + 1.0) * (w + 1.0 - 1.0) * (2.0 * (w + 1.0) - 1.0)
  {
  }

  /** On a time axis of two points or more the spread is
      `W^2 (W^2 - 1) / 12`, which is positive. */
  lemma SpreadOnAxis(a: Moments)
    requires a.OnAxis() && a.count >= 2.0
    ensures 12.0 * a.Spread() == a.count * a.count * (a.count * a.count - 1.0)
    ensures a.Spread() > 0.0
  {
    SpreadArithmetic(a.count, a.sumX, a.sumXX);
  }

  lemma SpreadArithmetic(w: real, s: real, q: real)
    requires w >= 2.0
    requires 2.0 * s == w * (w - 1.0)
    requires 6.0 * q == w * (w - 1.0) * (2.0 * w - 1.0)
    ensures 12.0 * (w * q - s * s) == w * w * (w * w - 1.0)
    ensures w * q - s * s > 0.0
  {
    assert 4.0 * (s * s) == (w * (w - 1.0)) * (w * (w - 1.0));
    assert 12.0 * (w * q) == 2.0 * w * (6.0 * q);
    assert w * w * (w * w - 1.0) > 0.0 by {
      assert w * w >= 4.0;
    }
  }

  /** The fields of `a.Push(pt)`, one by one. */
  lemma PushFields(a: Moments, pt: Point)
    ensures a.Push(pt).count == a.count + 1.0
    ensures a.Push(pt).sumX == a.sumX + pt.x
    ensures a.Push(pt).sumXX == a.sumXX + pt.x * pt.x
    ensures a.Push(pt).sumY == a.sumY + pt.y
    ensures a.Push(pt).sumXY == a.sumXY + pt.x * pt.y
    ensures a.Push(pt).sumYY == a.sumYY + pt.y * pt.y
  {
  }

  /** One more point adds its own squared residual to the error. */
  lemma PushError(a: Moments, pt: Point, m: real, c: real)
    ensures a.Push(pt).Error(m, c) == a.Error(m, c) + Square(pt.y - m * pt.x - c)
  {
    PushFields(a, pt);
    ErrorStep(a.count, a.sumX, a.sumXX, a.sumY, a.sumXY, a.sumYY, pt.x, pt.y, m, c);
  }

  lemma ErrorStep(w: real, s: real, q: real, sy: real, sxy: real, syy: real, x: real, y: real, m: real, c: real)
    ensures ExpandedError(w + 1.0, s + x, q + x * x, sy + y, sxy + x * y, syy + y * y, m, c)
         == ExpandedError(w, s, q, sy, sxy, syy, m, c) + Square(y - m * x - c)
  {
  }

  /** A point on the line `(m, c)` keeps the line a solution of the normal
      equations. */
  lemma PushOnLine(a: Moments, pt: Point, m: real, c: real)
    requires a.Normal(m, c) && pt.y == m * pt.x + c
    ensures a.Push(pt).Normal(m, c)
  {
    PushFields(a, pt);
    LineStep(a.count, a.sumX, a.sumXX, a.sumY, a.sumXY, pt.x, pt.y, m, c);
  }

  lemma LineStep(w: real, s: real, q: real, sy: real, sxy: real, x: real, y: real, m: real, c: real)
    requires sy - m * s - c * w == 0.0
    requires sxy - m * q - c * s == 0.0
    requires y == m * x + c
    ensures (sy + y) - m * (s + x) - c * (w + 1.0) == 0.0
    ensures (sxy + x * y) - m * (q + x * x) - c * (s + x) == 0.0
  {
    assert x * y == m * (x * x) + c * x;
  }

  // ----- The fit, on moments

  /** `Slope` and `Intercept` solve the normal equations. */
  lemma NormalSolution(a: Moments)
    requires a.count != 0.0 && a.Spread() != 0.0
    ensures a.Normal(a.Slope(), a.Intercept())
  {
    NormalArithmetic(a.count, a.sumX, a.sumXX, a.sumY, a.sumXY, a.Slope(), a.Intercept());
  }

  lemma NormalArithmetic(w: real, s: real, q: real, sy: real, sxy: real, m: real, c: real)
    requires w != 0.0 && w * q - s * s != 0.0
    requires m == (w * sxy - s * sy) / (w * q - s * s)
    requires c == (sy - m * s) / w
    ensures sy - m * s - c * w == 0.0
    ensures sxy - m * q - c * s == 0.0
  {
    var den := w * q - s * s;
    assert m * den == w * sxy - s * sy;
    assert c * w == sy - m * s;
    assert w * (sxy - m * q - c * s) == (w * sxy - s * sy) - m * den;
  }

  /** The normal equations have no other solution: whatever line solves
      them has the slope `Slope`. */
  lemma NormalSolutionUnique(a: Moments, m: real, c: real)
    requires a.Spread() != 0.0
    requires a.Normal(m, c)
    ensures a.Slope() == m
  {
    UniqueArithmetic(a.count, a.sumX, a.sumXX, a.sumY, a.sumXY, m, c);
  }

  lemma UniqueArithmetic(w: real, s: real, q: real, sy: real, sxy: real, m: real, c: real)
    requires w * q - s * s != 0.0
    requires sy - m * s - c * w == 0.0
    requires sxy - m * q - c * s == 0.0
    ensures (w * sxy - s * sy) / (w * q - s * s) == m
  {
    assert w * sxy - s * sy == m * (w * q - s * s) by {
      assert sy == m * s + c * w;
      assert sxy == m * q + c * s;
    }
  }

  /** Moving away from a solution of the normal equations adds a quadratic
      form in the change of the line, and that form is never negative. */
  lemma NormalIsMinimal(a: Moments, m: real, c: real, m2: real, c2: real)
    requires a.count > 0.0 && a.Spread() >= 0.0
    requires a.Normal(m, c)
    ensures a.Error(m, c) <= a.Error(m2, c2)
  {
    ShiftArithmetic(a.sumYY, a.sumXY, a.sumY, a.sumXX, a.sumX, a.count, m, c, m2, c2);
    QuadraticNonnegative(a.count, a.sumX, a.sumXX, m2 - m, c2 - c);
  }

  lemma ShiftArithmetic(yy: real, xy: real, sy: real, q: real, s: real, w: real,
                        m: real, c: real, m2: real, c2: real)
    requires sy - m * s - c * w == 0.0
    requires xy - m * q - c * s == 0.0
    ensures yy - 2.0 * m2 * xy - 2.0 * c2 * sy + m2 * m2 * q + 2.0 * m2 * c2 * s + c2 * c2 * w
         == (yy - 2.0 * m * xy - 2.0 * c * sy + m * m * q + 2.0 * m * c * s + c * c * w)
          + ((m2 - m) * (m2 - m) * q + 2.0 * (m2 - m) * (c2 - c) * s + (c2 - c) * (c2 - c) * w)
  {
    var dm, dc := m2 - m, c2 - c;
    assert yy - 2.0 * m2 * xy - 2.0 * c2 * sy + m2 * m2 * q + 2.0 * m2 * c2 * s + c2 * c2 * w
        == (yy - 2.0 * m * xy - 2.0 * c * sy + m * m * q + 2.0 * m * c * s + c * c * w)
         - 2.0 * dm * (xy - m * q - c * s) - 2.0 * dc * (sy - m * s - c * w)
         + (dm * dm * q + 2.0 * dm * dc * s + dc * dc * w);
  }

  lemma QuadraticNonnegative(w: real, s: real, q: real, dm: real, dc: real)
    requires w > 0.0 && w * q - s * s >= 0.0
    ensures dm * dm * q + 2.0 * dm * dc * s + dc * dc * w >= 0.0
  {
    var f := dm * dm * q + 2.0 * dm * dc * s + dc * dc * w;
    var u := w * dc + s * dm;
    assert w * f == u * u + (dm * dm) * (w * q - s * s);
    assert u * u >= 0.0;
    assert (dm * dm) * (w * q - s * s) >= 0.0;
  }

  /** Where the spread is positive, any other line has a strictly larger
      error: the least-squares line is the only minimiser. */
  lemma NormalIsStrictMinimal(a: Moments, m: real, c: real, m2: real, c2: real)
    requires a.count > 0.0 && a.Spread() > 0.0
    requires a.Normal(m, c)
    requires m2 != m || c2 != c
    ensures a.Error(m, c) < a.Error(m2, c2)
  {
    ShiftArithmetic(a.sumYY, a.sumXY, a.sumY, a.sumXX, a.sumX, a.count, m, c, m2, c2);
    QuadraticPositive(a.count, a.sumX, a.sumXX, m2 - m, c2 - c);
  }

  /** With a positive weight and a positive spread the quadratic form is zero
      only at the origin: multiplied by the weight it is a square plus a
      positive multiple of another square. */
  lemma QuadraticPositive(w: real, s: real, q: real, dm: real, dc: real)
    requires w > 0.0 && w * q - s * s > 0.0
    requires dm != 0.0 || dc != 0.0
    ensures dm * dm * q + 2.0 * dm * dc * s + dc * dc * w > 0.0
  {
    var u := w * dc + s * dm;
    if dm == 0.0 {
      NonzeroProduct(w, dc);
    }
    calc {
      w * (dm * dm * q + 2.0 * dm * dc * s + dc * dc * w);
    ==
      u * u + (dm * dm) * (w * q - s * s);
    >  { SplitPositive(u, dm, w * q - s * s); }
      0.0;
    }
    PositiveFactor(w, dm * dm * q + 2.0 * dm * dc * s + dc * dc * w);
  }

  lemma SplitPositive(u: real, x: real, d: real)
    requires d > 0.0 && (u != 0.0 || x != 0.0)
    ensures u * u + (x * x) * d > 0.0
  {
    if x != 0.0 {
      calc {
        u * u + (x * x) * d;
      >= { SquareNonnegative(u); }
        (x * x) * d;
      >  { ScaledSquarePositive(x, d); }
        0.0;
      }
    } else {
      calc {
        u * u + (x * x) * d;
      ==
        u * u;
      >  { SquarePositive(u); }
        0.0;
      }
    }
  }

  lemma SquareNonnegative(x: real)
    ensures x * x >= 0.0
  {
  }

  lemma SquarePositive(x: real)
    requires x != 0.0
    ensures x * x > 0.0
  {
  }

  lemma ScaledSquarePositive(x: real, d: real)
    requires x != 0.0 && d > 0.0
    ensures (x * x) * d > 0.0
  {
    assert x * x > 0.0;
  }

  lemma NonzeroProduct(x: real, y: real)
    requires x != 0.0 && y != 0.0
    ensures x * y != 0.0
  {
  }

  lemma PositiveFactor(w: real, f: real)
    requires w > 0.0 && w * f > 0.0
    ensures f > 0.0
  {
  }

  /** No line other than the closed form solves the normal equations. */
  lemma OnlySlope(a: Moments)
    requires a.Spread() != 0.0
    ensures forall m2, c2 :: a.Normal(m2, c2) ==> m2 == a.Slope()
  {
    forall m2, c2 | a.Normal(m2, c2)
      ensures m2 == a.Slope()
    {
      NormalSolutionUnique(a, m2, c2);
    }
  }

  /** The empty sequence has no error for any line. */
  lemma EmptyError(m: real, c: real)
    ensures Empty.Error(m, c) == 0.0
  {
  }

  // ----- The fit, on sequences of points

  /** The moments of points on the time axis satisfy `OnAxis`. */
  lemma {:induction false} AccumulateOnAxis(ps: seq<Point>)
    requires OnTimeAxis(ps)
    ensures Accumulate(ps).count == |ps| as real
    ensures Accumulate(ps).OnAxis()
  {
    if ps != [] {
      assert OnTimeAxis(ps[..|ps| - 1]);
      AccumulateOnAxis(ps[..|ps| - 1]);
      PushOnAxis(Accumulate(ps[..|ps| - 1]), ps[|ps| - 1]);
    }
  }

  function Square(x: real): real {
    x * x
  }

  /** The sum over the points of the squared residuals `(y - m * x - c)^2`. */
  function SquaredError(ps: seq<Point>, m: real, c: real): real {
    if ps == [] then 0.0
    else SquaredError(ps[..|ps| - 1], m, c) + Square(ps[|ps| - 1].y - m * ps[|ps| - 1].x - c)
  }

  lemma AccumulateLast(ps: seq<Point>)
    requires ps != []
    ensures Accumulate(ps) == Accumulate(ps[..|ps| - 1]).Push(ps[|ps| - 1])
  {
  }

  lemma SquaredErrorLast(ps: seq<Point>, m: real, c: real)
    requires ps != []
    ensures SquaredError(ps, m, c) == SquaredError(ps[..|ps| - 1], m, c) + Square(ps[|ps| - 1].y - m * ps[|ps| - 1].x - c)
  {
  }

  /** The squared error is the expanded form computed from the moments. */
  lemma {:induction false} ErrorMoments(ps: seq<Point>, m: real, c: real)
    ensures SquaredError(ps, m, c) == Accumulate(ps).Error(m, c)
    decreases ps
  {
    if ps == [] {
      EmptyError(m, c);
    } else {
      ErrorMoments(ps[..|ps| - 1], m, c);
      AccumulateLast(ps);
      SquaredErrorLast(ps, m, c);
      PushError(Accumulate(ps[..|ps| - 1]), ps[|ps| - 1], m, c);
    }
  }

  /** Points on the line `(a, b)` make that line a solution of the normal
      equations. */
  lemma {:induction false} LineIsNormal(ps: seq<Point>, a: real, b: real)
    requires forall i :: 0 <= i < |ps| ==> ps[i].y == a * ps[i].x + b
    ensures Accumulate(ps).Normal(a, b)
  {
    if ps != [] {
      LineIsNormal(ps[..|ps| - 1], a, b);
      PushOnLine(Accumulate(ps[..|ps| - 1]), ps[|ps| - 1], a, b);
    }
  }

  // ----- The fit, on windows of values

  /** As soon as the window holds two values the fit is determined. */
  lemma SpreadPositive(ys: seq<real>)
    requires |ys| >= 2
    ensures Accumulate(TimeAxis(ys)).count >= 2.0
    ensures Accumulate(TimeAxis(ys)).Spread() > 0.0
  {
    AccumulateOnAxis(TimeAxis(ys));
    SpreadOnAxis(Accumulate(TimeAxis(ys)));
  }

  /** The least-squares slope of `ys` against the positions 0 .. |ys|-1. */
  function Slope(ys: seq<real>): (m: real)
    requires |ys| >= 2
    ensures Accumulate(TimeAxis(ys)).Spread() > 0.0
    ensures forall m2, c2 :: Accumulate(TimeAxis(ys)).Normal(m2, c2) ==> m2 == m
  {
    SpreadPositive(ys);
    OnlySlope(Accumulate(TimeAxis(ys)));
    Accumulate(TimeAxis(ys)).Slope()
  }

  /** The intercept that goes with `Slope`; the criterion never uses it, it
      serves to state what the slope is optimal for. */
  function Intercept(ys: seq<real>): real
    requires |ys| >= 2
  {
    SpreadPositive(ys);
    Accumulate(TimeAxis(ys)).Intercept()
  }

  /** The fitted line solves the normal equations of the window. */
  lemma NormalEquations(ys: seq<real>)
    requires |ys| >= 2
    ensures Accumulate(TimeAxis(ys)).Normal(Slope(ys), Intercept(ys))
  {
    SpreadPositive(ys);
    NormalSolution(Accumulate(TimeAxis(ys)));
  }

  /** The slope and intercept minimise the squared error over all lines,
      and every other line has a strictly larger error: they are the one
      least-squares fit. */
  lemma LeastSquaresOptimal(ys: seq<real>, m2: real, c2: real)
    requires |ys| >= 2
    ensures SquaredError(TimeAxis(ys), Slope(ys), Intercept(ys)) <= SquaredError(TimeAxis(ys), m2, c2)
    ensures m2 != Slope(ys) || c2 != Intercept(ys) ==>
              SquaredError(TimeAxis(ys), Slope(ys), Intercept(ys)) < SquaredError(TimeAxis(ys), m2, c2)
  {
    SpreadPositive(ys);
    NormalEquations(ys);
    NormalIsMinimal(Accumulate(TimeAxis(ys)), Slope(ys), Intercept(ys), m2, c2);
    if m2 != Slope(ys) || c2 != Intercept(ys) {
      NormalIsStrictMinimal(Accumulate(TimeAxis(ys)), Slope(ys), Intercept(ys), m2, c2);
    }
    ErrorMoments(TimeAxis(ys), Slope(ys), Intercept(ys));
    ErrorMoments(TimeAxis(ys), m2, c2);
  }

  /** Values that lie on a line `a * i + b` have slope exactly `a`. */
  lemma SlopeOfLine(ys: seq<real>, a: real, b: real)
    requires |ys| >= 2
    requires forall i :: 0 <= i < |ys| ==> ys[i] == a * (i as real) + b
    ensures Slope(ys) == a
  {
    LineIsNormal(TimeAxis(ys), a, b);
    SpreadPositive(ys);
    NormalSolutionUnique(Accumulate(TimeAxis(ys)), a, b);
  }
}
