/** Least squares and the capacity forecast, over the reals. */
module Trend {
  import opened Wrappers

  /** A point whose coordinates may be missing. */
  datatype Sample = Sample(x: Option<real>, y: Option<real>)

  datatype Point = Point(x: real, y: real)

  datatype Line = Line(slope: real, intercept: real)

  /** The points without a missing coordinate, in order. */
  function Complete(samples: seq<Sample>): seq<Point> {
    if samples == [] then []
    else
      var rest, s := Complete(samples[..|samples| - 1]), samples[|samples| - 1];
      if s.x.Some? && s.y.Some? then rest + [Point(s.x.value, s.y.value)] else rest
  }

  /** Point by point and in order: a sample with both coordinates is that point, any other is left out. */
  lemma {:induction false} CompleteConcat(a: seq<Sample>, b: seq<Sample>)
    ensures Complete(a + b) == Complete(a) + Complete(b)
    ensures forall x, y :: Complete([Sample(Some(x), Some(y))]) == [Point(x, y)]
    ensures forall s: Sample :: s.x.None? || s.y.None? ==> Complete([s]) == []
  {
    assert forall s: Sample :: [s][..0] == [];
    if b == [] {
      assert a + b == a;
    } else {
      assert (a + b)[..|a + b| - 1] == a + b[..|b| - 1];
      CompleteConcat(a, b[..|b| - 1]);
    }
  }

  function SumX(pts: seq<Point>): real {
    if pts == [] then 0.0 else SumX(pts[..|pts| - 1]) + pts[|pts| - 1].x
  }

  function SumY(pts: seq<Point>): real {
    if pts == [] then 0.0 else SumY(pts[..|pts| - 1]) + pts[|pts| - 1].y
  }

  function SumXX(pts: seq<Point>): real {
    if pts == [] then 0.0 else SumXX(pts[..|pts| - 1]) + pts[|pts| - 1].x * pts[|pts| - 1].x
  }

  function SumXY(pts: seq<Point>): real {
    if pts == [] then 0.0 else SumXY(pts[..|pts| - 1]) + pts[|pts| - 1].x * pts[|pts| - 1].y
  }

  function Denominator(pts: seq<Point>): real {
    |pts| as real * SumXX(pts) - SumX(pts) * SumX(pts)
  }

  /** The least-squares line, or None for fewer than two points or a degenerate x-range. */
  function LinReg(samples: seq<Sample>): Option<Line> {
    var pts := Complete(samples);
    var n := |pts| as real;
    if |pts| < 2 then
      None
    else if Denominator(pts) == 0.0 then
      None
    else
      var slope := (n * SumXY(pts) - SumX(pts) * SumY(pts)) / Denominator(pts);
      Some(Line(slope, (SumY(pts) - slope * SumX(pts)) / n))
  }

  // ---- When there is a line ----

  /** The value a x + b at a point. */
  function At(p: Point, a: real, b: real): real {
    a * p.x + b
  }

  function Square(v: real): real {
    v * v
  }

  /** The sum of squares of a x + b over the points. */
  function SumSquares(pts: seq<Point>, a: real, b: real): real {
    if pts == [] then 0.0
    else SumSquares(pts[..|pts| - 1], a, b) + Square(At(pts[|pts| - 1], a, b))
  }

  lemma {:induction false} SumSquaresExpand(pts: seq<Point>, a: real, b: real)
    ensures SumSquares(pts, a, b) == a * a * SumXX(pts) + 2.0 * (a * b) * SumX(pts) + |pts| as real * (b * b)
  {
    if pts != [] {
      hide Square, At;
      var rest, p := pts[..|pts| - 1], pts[|pts| - 1];
      SumSquaresExpand(rest, a, b);
      SquareExpand(p, a, b);
      ExpandStep(a * a, SumXX(rest), p.x * p.x, 2.0 * (a * b), SumX(rest), p.x, |rest| as real, |pts| as real, b * b);
      hide SumX, SumXX;
    }
  }

  lemma SquareExpand(p: Point, a: real, b: real)
    ensures Square(At(p, a, b)) == a * a * (p.x * p.x) + 2.0 * (a * b) * p.x + b * b
  {}

  lemma ExpandStep(p: real, s: real, ds: real, q: real, t: real, dt: real, n: real, n': real, r: real)
    requires n' == n + 1.0
    ensures p * (s + ds) + q * (t + dt) + n' * r == (p * s + q * t + n * r) + (p * ds + q * dt + r)
  {}

  function Times(r: real, v: real): real {
    r * v
  }

  lemma PositiveProduct(a: real, b: real)
    requires a > 0.0 && b > 0.0
    ensures Times(a, b) > 0.0
  {}

  lemma SquareOfNegation(v: real)
    ensures Square(-v) == Square(v)
  {}

  lemma SquareSign(v: real)
    ensures v == 0.0 ==> Square(v) == 0.0
    ensures v != 0.0 ==> Square(v) > 0.0
    decreases v < 0.0
  {
    if v < 0.0 {
      hide Square;
      SquareOfNegation(v);
      SquareSign(-v);
    } else if v > 0.0 {
      assert Square(v) == Times(v, v);
      hide Square, Times;
      PositiveProduct(v, v);
    }
  }

  lemma {:induction false} SumSquaresPositive(pts: seq<Point>, a: real, b: real)
    ensures SumSquares(pts, a, b) >= 0.0
    ensures SumSquares(pts, a, b) == 0.0 <==> forall p :: p in pts ==> At(p, a, b) == 0.0
  {
    if pts != [] {
      hide At, Square;
      var rest, last := pts[..|pts| - 1], pts[|pts| - 1];
      assert pts == rest + [last];
      SumSquaresPositive(rest, a, b);
      SquareSign(At(last, a, b));
    }
  }

  predicate AllXEqual(pts: seq<Point>) {
    forall p, q :: p in pts && q in pts ==> p.x == q.x
  }

  /** n times the denominator is a sum of squared differences. */
  lemma DenominatorAsSquares(pts: seq<Point>)
    ensures SumSquares(pts, |pts| as real, -SumX(pts)) == |pts| as real * Denominator(pts)
  {
    hide SumSquares, SumX, SumXX;
    var n, s := |pts| as real, SumX(pts);
    SumSquaresExpand(pts, n, -s);
    DenominatorIdentity(n, s, SumXX(pts));
  }

  lemma DenominatorIdentity(n: real, s: real, q: real)
    ensures n * n * q + 2.0 * (n * (-s)) * s + n * ((-s) * (-s)) == n * (n * q - s * s)
  {}

  lemma {:induction false} SumXOfEqual(pts: seq<Point>, x: real)
    requires forall p :: p in pts ==> p.x == x
    ensures SumX(pts) == |pts| as real * x
  {
    if pts != [] {
      assert pts[|pts| - 1] in pts;
      SumXOfEqual(pts[..|pts| - 1], x);
    }
  }

  /** The denominator is never negative, and vanishes exactly when all x are equal. */
  lemma DenominatorSign(pts: seq<Point>)
    requires pts != []
    ensures Denominator(pts) >= 0.0
    ensures Denominator(pts) == 0.0 <==> AllXEqual(pts)
  {
    hide Denominator, SumX, SumSquares;
    var n, s := |pts| as real, SumX(pts);
    DenominatorAsSquares(pts);
    SumSquaresPositive(pts, n, -s);
    SignOfProduct(n, Denominator(pts));
    if AllXEqual(pts) {
      SumXOfEqual(pts, pts[0].x);
    }
    if Denominator(pts) == 0.0 {
      forall p, q | p in pts && q in pts ensures p.x == q.x {
        assert At(p, n, -s) == 0.0 && At(q, n, -s) == 0.0;
        VanishingLine(n, -s, p.x, q.x);
      }
    }
  }

  lemma SignOfProduct(n: real, d: real)
    requires n > 0.0 && n * d >= 0.0
    ensures d >= 0.0 && (n * d == 0.0 <==> d == 0.0)
  {}

  /** A line with two zeros is zero. */
  lemma VanishingLine(a: real, b: real, x: real, y: real)
    requires a * x + b == 0.0 && a * y + b == 0.0
    ensures x == y || (a == 0.0 && b == 0.0)
  {
    assert a * (x - y) == 0.0;
  }

  /** There is no line exactly for fewer than two points or when all x are equal. */
  lemma NoLine(samples: seq<Sample>)
    ensures LinReg(samples).None? <==> |Complete(samples)| < 2 || AllXEqual(Complete(samples))
  {
    hide Denominator, Complete;
    if Complete(samples) != [] {
      DenominatorSign(Complete(samples));
    }
  }

  // ---- Optimality ----

  /** How far the point lies above the line. */
  function Residual(p: Point, l: Line): real {
    p.y - At(p, l.slope, l.intercept)
  }

  /** The squared error of a line. */
  function Error(pts: seq<Point>, l: Line): real {
    if pts == [] then 0.0
    else Error(pts[..|pts| - 1], l) + Square(Residual(pts[|pts| - 1], l))
  }

  /** The sum of residual times (a x + b). */
  function Correlation(pts: seq<Point>, l: Line, a: real, b: real): real {
    if pts == [] then 0.0
    else
      var p := pts[|pts| - 1];
      Correlation(pts[..|pts| - 1], l, a, b) + Times(Residual(p, l), At(p, a, b))
  }

  lemma {:induction false} ErrorShift(pts: seq<Point>, l: Line, a: real, b: real)
    ensures Error(pts, Line(l.slope + a, l.intercept + b))
         == Error(pts, l) - 2.0 * Correlation(pts, l, a, b) + SumSquares(pts, a, b)
  {
    if pts != [] {
      hide At, Residual, Square, Times;
      var p := pts[|pts| - 1];
      ErrorShift(pts[..|pts| - 1], l, a, b);
      ResidualOfShifted(p, l, a, b);
      ResidualShift(Residual(p, l), At(p, a, b));
    }
  }

  lemma ResidualOfShifted(p: Point, l: Line, a: real, b: real)
    ensures Residual(p, Line(l.slope + a, l.intercept + b)) == Residual(p, l) - At(p, a, b)
  {}

  lemma ResidualShift(r: real, v: real)
    ensures Square(r - v) == Square(r) - 2.0 * Times(r, v) + Square(v)
  {}

  function Row(y: real, s: real, x: real, t: real, n: real): real {
    y - s * x - t * n
  }

  lemma {:induction false} CorrelationExpand(pts: seq<Point>, l: Line, a: real, b: real)
    ensures Correlation(pts, l, a, b)
         == a * Row(SumXY(pts), l.slope, SumXX(pts), l.intercept, SumX(pts))
          + b * Row(SumY(pts), l.slope, SumX(pts), l.intercept, |pts| as real)
  {
    if pts == [] {
      assert Row(0.0, l.slope, 0.0, l.intercept, 0.0) == 0.0;
    } else {
      hide Times, Residual, At, Row;
      var rest, p := pts[..|pts| - 1], pts[|pts| - 1];
      CorrelationExpand(rest, l, a, b);
      TermExpand(p, l, a, b);
      RowStep(SumXY(rest), p.x * p.y, l.slope, SumXX(rest), p.x * p.x, l.intercept, SumX(rest), p.x);
      RowStep(SumY(rest), p.y, l.slope, SumX(rest), p.x, l.intercept, |rest| as real, 1.0);
      TwoRows(a, Row(SumXY(rest), l.slope, SumXX(rest), l.intercept, SumX(rest)),
              Row(p.x * p.y, l.slope, p.x * p.x, l.intercept, p.x),
              b, Row(SumY(rest), l.slope, SumX(rest), l.intercept, |rest| as real),
              Row(p.y, l.slope, p.x, l.intercept, 1.0));
      assert |pts| as real == |rest| as real + 1.0;
    }
  }

  lemma TermExpand(p: Point, l: Line, a: real, b: real)
    ensures Times(Residual(p, l), At(p, a, b))
         == a * Row(p.x * p.y, l.slope, p.x * p.x, l.intercept, p.x) + b * Row(p.y, l.slope, p.x, l.intercept, 1.0)
  {
    var x, y, s, t := p.x, p.y, l.slope, l.intercept;
    var r := y - s * x - t;
    assert x * y - s * (x * x) - t * x == r * x;
    assert r * (a * x + b) == a * (r * x) + b * r;
  }

  lemma RowStep(y: real, dy: real, s: real, x: real, dx: real, t: real, n: real, dn: real)
    ensures Row(y + dy, s, x + dx, t, n + dn) == Row(y, s, x, t, n) + Row(dy, s, dx, t, dn)
  {}

  lemma TwoRows(a: real, u: real, du: real, b: real, v: real, dv: real)
    ensures a * (u + du) + b * (v + dv) == (a * u + b * v) + (a * du + b * dv)
  {}

  /** The normal equations of the least-squares line. */
  predicate Normal(pts: seq<Point>, l: Line) {
    && Row(SumXY(pts), l.slope, SumXX(pts), l.intercept, SumX(pts)) == 0.0
    && Row(SumY(pts), l.slope, SumX(pts), l.intercept, |pts| as real) == 0.0
  }

  lemma NormalEquations(samples: seq<Sample>)
    requires LinReg(samples).Some?
    ensures Normal(Complete(samples), LinReg(samples).value)
  {
    hide Complete, SumX, SumY, SumXX, SumXY;
    var pts := Complete(samples);
    SolveNormal(|pts| as real, SumX(pts), SumY(pts), SumXX(pts), SumXY(pts));
  }

  lemma SolveNormal(n: real, sx: real, sy: real, sxx: real, sxy: real)
    requires n > 0.0 && n * sxx - sx * sx != 0.0
    ensures
      var s := (n * sxy - sx * sy) / (n * sxx - sx * sx);
      var t := (sy - s * sx) / n;
      sxy - s * sxx - t * sx == 0.0 && sy - s * sx - t * n == 0.0
  {
    var d := n * sxx - sx * sx;
    var s := Quotient(n * sxy - sx * sy, d);
    var t := Quotient(sy - s * sx, n);
    SolveNormalScaled(n, sx, sy, sxx, sxy, s, t);
    ProductZero(n, sxy - s * sxx - t * sx);
  }

  function Quotient(a: real, b: real): (q: real)
    requires b != 0.0
    ensures q * b == a && q == a / b
  {
    a / b
  }

  lemma ProductZero(a: real, b: real)
    requires a != 0.0 && a * b == 0.0
    ensures b == 0.0
  {}

  lemma SolveNormalScaled(n: real, sx: real, sy: real, sxx: real, sxy: real, s: real, t: real)
    requires s * (n * sxx - sx * sx) == n * sxy - sx * sy && t * n == sy - s * sx
    ensures n * (sxy - s * sxx - t * sx) == 0.0
  {
    assert s * (n * sxx - sx * sx) == n * (s * sxx) - s * sx * sx;
    assert n * (t * sx) == (t * n) * sx == sy * sx - s * sx * sx;
    assert n * (sxy - s * sxx - t * sx) == n * sxy - n * (s * sxx) - n * (t * sx);
  }

  lemma NormalUncorrelated(pts: seq<Point>, l: Line, a: real, b: real)
    requires Normal(pts, l)
    ensures Correlation(pts, l, a, b) == 0.0
  {
    hide Correlation, SumX, SumY, SumXX, SumXY;
    CorrelationExpand(pts, l, a, b);
  }

  /** Any other line has a strictly larger squared error. */
  lemma LeastSquares(samples: seq<Sample>, other: Line)
    requires LinReg(samples).Some?
    ensures Error(Complete(samples), LinReg(samples).value) <= Error(Complete(samples), other)
    ensures Error(Complete(samples), LinReg(samples).value) == Error(Complete(samples), other)
         ==> other == LinReg(samples).value
  {
    NormalEquations(samples);
    NoLine(samples);
    hide LinReg, Complete, Error, Correlation, SumSquares, Normal, AllXEqual, At;
    var pts, l := Complete(samples), LinReg(samples).value;
    var a, b := other.slope - l.slope, other.intercept - l.intercept;
    assert other == Line(l.slope + a, l.intercept + b);
    NormalUncorrelated(pts, l, a, b);
    ErrorShift(pts, l, a, b);
    SumSquaresPositive(pts, a, b);
    VanishingOnPoints(pts, a, b);
  }

  lemma VanishingOnPoints(pts: seq<Point>, a: real, b: real)
    requires !AllXEqual(pts)
    ensures (forall p :: p in pts ==> At(p, a, b) == 0.0) ==> a == 0.0 && b == 0.0
  {
    var p, q :| p in pts && q in pts && p.x != q.x;
    if At(p, a, b) == 0.0 && At(q, a, b) == 0.0 {
      VanishingLine(a, b, p.x, q.x);
    }
  }

  /** The points lie on the line. */
  predicate Collinear(pts: seq<Point>, l: Line) {
    forall p :: p in pts ==> Residual(p, l) == 0.0
  }

  lemma {:induction false} ErrorOfExact(pts: seq<Point>, l: Line)
    requires Collinear(pts, l)
    ensures Error(pts, l) == 0.0
  {
    if pts != [] {
      hide Residual, Square;
      assert pts[|pts| - 1] in pts;
      ErrorOfExact(pts[..|pts| - 1], l);
      SquareSign(Residual(pts[|pts| - 1], l));
    }
  }

  lemma {:induction false} ErrorNonNegative(pts: seq<Point>, l: Line)
    ensures Error(pts, l) >= 0.0
  {
    if pts != [] {
      hide Residual, Square;
      ErrorNonNegative(pts[..|pts| - 1], l);
      SquareSign(Residual(pts[|pts| - 1], l));
    }
  }

  /** Collinear data give back their line. */
  lemma CollinearRecovered(samples: seq<Sample>, l: Line)
    requires LinReg(samples).Some?
    requires Collinear(Complete(samples), l)
    ensures LinReg(samples).value == l
  {
    hide LinReg, Collinear;
    ErrorOfExact(Complete(samples), l);
    ErrorNonNegative(Complete(samples), LinReg(samples).value);
    LeastSquares(samples, l);
  }

  // ---- The capacity forecast ----

  const DAY := 86400.0

  datatype Forecast =
    | Flat(bytesPerDay: real)
    | Shrinking(bytesPerDay: real)
    | Growing(bytesPerDay: real, daysToFull: real)

  function MaxX(pts: seq<Point>): (m: real)
    requires pts != []
    ensures forall p :: p in pts ==> p.x <= m
    ensures exists p :: p in pts && p.x == m
  {
    if |pts| == 1 then pts[0].x
    else
      var rest, last := MaxX(pts[..|pts| - 1]), pts[|pts| - 1];
      assert forall p :: p in pts ==> p == last || p in pts[..|pts| - 1];
      if last.x > rest then last.x else rest
  }

  function MinX(pts: seq<Point>): (m: real)
    requires pts != []
    ensures forall p :: p in pts ==> m <= p.x
    ensures exists p :: p in pts && p.x == m
  {
    if |pts| == 1 then pts[0].x
    else
      var rest, last := MinX(pts[..|pts| - 1]), pts[|pts| - 1];
      assert forall p :: p in pts ==> p == last || p in pts[..|pts| - 1];
      if last.x < rest then last.x else rest
  }

  function Abs(v: real): real {
    if v < 0.0 then -v else v
  }

  function Max(a: real, b: real): real {
    if b > a then b else a
  }

  /** When the filesystem fills, projected along the fitted line. */
  function ForecastCapacity(samples: seq<Sample>, size: Option<real>, usedNow: Option<real>, minSpanHours: real)
    : Option<Forecast>
  {
    var pts := Complete(samples);
    if |pts| < 4 || size.None? || size.value == 0.0 then None
    else if MaxX(pts) - MinX(pts) < minSpanHours * 3600.0 then None
    else if LinReg(samples).None? then None
    else
      var perDay := LinReg(samples).value.slope * DAY;
      var used := if usedNow.Some? then usedNow.value else pts[|pts| - 1].y;
      if Abs(perDay) < size.value / 3650.0 then Some(Flat(perDay))
      else if perDay <= 0.0 then Some(Shrinking(perDay))
      else Some(Growing(perDay, Max(0.0, size.value - used) / perDay))
  }

  /**
    * There is a forecast exactly for four points over a long enough span that do not all
    * share one x.
    */
  lemma ForecastExists(samples: seq<Sample>, size: Option<real>, usedNow: Option<real>, minSpanHours: real)
    ensures ForecastCapacity(samples, size, usedNow, minSpanHours).Some?
       <==> && |Complete(samples)| >= 4
            && size.Some? && size.value != 0.0
            && MaxX(Complete(samples)) - MinX(Complete(samples)) >= minSpanHours * 3600.0
            && !AllXEqual(Complete(samples))
  {
    hide LinReg, Complete;
    NoLine(samples);
  }

  /** Where the line stands at time t. */
  function Level(l: Line, t: real): real {
    l.slope * t + l.intercept
  }

  /** The usage some time after it was `used`, growing with this slope. */
  function Projected(used: real, slope: real, later: real): real {
    used + slope * later
  }

  /** The usage the forecast starts from: the current one if it is given, else the last sample's. */
  function UsageFor(samples: seq<Sample>, usedNow: Option<real>): real
    requires Complete(samples) != []
  {
    if usedNow.Some? then usedNow.value else Complete(samples)[|Complete(samples)| - 1].y
  }

  /** The current usage if it is given, and else that of the last complete sample. */
  predicate StartsFrom(samples: seq<Sample>, usedNow: Option<real>, used: real) {
    || usedNow == Some(used)
    || (usedNow.None? && Complete(samples) != [] && Complete(samples)[|Complete(samples)| - 1].y == used)
  }

  lemma ForecastParts(samples: seq<Sample>, size: real, usedNow: Option<real>, minSpanHours: real)
    requires ForecastCapacity(samples, Some(size), usedNow, minSpanHours).Some?
    ensures LinReg(samples).Some? && Complete(samples) != []
    ensures
      var f := ForecastCapacity(samples, Some(size), usedNow, minSpanHours).value;
      var perDay := LinReg(samples).value.slope * DAY;
      && f.bytesPerDay == perDay
      && (f.Flat? <==> Abs(perDay) < size / 3650.0)
      && (f.Shrinking? <==> !f.Flat? && perDay <= 0.0)
      && (f.Growing? ==> Times(f.daysToFull, perDay) == Max(0.0, size - UsageFor(samples, usedNow)))
  {
    hide LinReg, Complete, MaxX, MinX;
    var perDay := LinReg(samples).value.slope * DAY;
    if perDay > 0.0 {
      var days := Quotient(Max(0.0, size - UsageFor(samples, usedNow)), perDay);
    }
  }

  /**
    * A growing forecast names the first moment, from any time `at` on, at which the usage has reached the
    * size if it stands at the given usage then, or else at the last one, and grows with the fitted slope.
    */
  lemma GrowingProjection(samples: seq<Sample>, size: real, usedNow: Option<real>, minSpanHours: real,
                          used: real, at: real, t: real)
    requires ForecastCapacity(samples, Some(size), usedNow, minSpanHours).Some?
    requires ForecastCapacity(samples, Some(size), usedNow, minSpanHours).value.Growing?
    requires StartsFrom(samples, usedNow, used) && t >= at
    ensures LinReg(samples).Some? && Complete(samples) != []
    ensures
      var f := ForecastCapacity(samples, Some(size), usedNow, minSpanHours).value;
      && f.daysToFull >= 0.0
      && (Projected(used, LinReg(samples).value.slope, t - at) >= size <==> t >= at + f.daysToFull * 86400.0)
  {
    ForecastParts(samples, size, usedNow, minSpanHours);
    hide LinReg, Complete, ForecastCapacity, UsageFor, Times, Projected;
    var f := ForecastCapacity(samples, Some(size), usedNow, minSpanHours).value;
    ReachSize(UsageFor(samples, usedNow), LinReg(samples).value.slope, size, f.bytesPerDay, f.daysToFull, t - at);
  }

  lemma ReachSize(used: real, slope: real, size: real, perDay: real, days: real, later: real)
    requires later >= 0.0 && perDay == slope * DAY > 0.0
    requires Times(days, perDay) == Max(0.0, size - used)
    ensures days >= 0.0
    ensures Projected(used, slope, later) >= size <==> later >= days * DAY
  {
    if days < 0.0 {
      PositiveProduct(-days, perDay);
    }
    assert days * (slope * DAY) == slope * (days * DAY);
    Slope(slope, later, days * DAY);
    Slope(slope, later, 0.0);
  }

  lemma Slope(s: real, t: real, u: real)
    requires s > 0.0
    ensures s * t >= s * u <==> t >= u
  {
    if t > u {
      PositiveProduct(s, t - u);
    }
    if t < u {
      PositiveProduct(s, u - t);
    }
  }

  /**
    * On collinear data a growing forecast from a usage on the line is the true fill time: it names the
    * first moment from then on at which the line has reached the size.
    */
  lemma FillTimeExact(samples: seq<Sample>, l: Line, size: real, usedNow: Option<real>, minSpanHours: real,
                      at: real, t: real)
    requires Collinear(Complete(samples), l)
    requires ForecastCapacity(samples, Some(size), usedNow, minSpanHours).Some?
    requires ForecastCapacity(samples, Some(size), usedNow, minSpanHours).value.Growing?
    requires StartsFrom(samples, usedNow, Level(l, at)) && t >= at
    ensures
      var f := ForecastCapacity(samples, Some(size), usedNow, minSpanHours).value;
      && f.bytesPerDay == l.slope * 86400.0
      && f.daysToFull >= 0.0
      && (Level(l, t) >= size <==> t >= at + f.daysToFull * 86400.0)
  {
    ForecastParts(samples, size, usedNow, minSpanHours);
    LevelLater(l, at, t);
    hide LinReg, Complete, ForecastCapacity, UsageFor, Times, Collinear, StartsFrom, Level;
    CollinearRecovered(samples, l);
    GrowingProjection(samples, size, usedNow, minSpanHours, Level(l, at), at, t);
    hide Projected;
  }

  lemma LevelLater(l: Line, at: real, t: real)
    ensures Level(l, t) == Projected(Level(l, at), l.slope, t - at)
  {}

  /** Without a current usage the forecast starts from the last sample, which is on the line. */
  lemma FillTimeFromLast(samples: seq<Sample>, l: Line, size: real, minSpanHours: real, t: real)
    requires Collinear(Complete(samples), l)
    requires ForecastCapacity(samples, Some(size), None, minSpanHours).Some?
    requires ForecastCapacity(samples, Some(size), None, minSpanHours).value.Growing?
    requires t >= Complete(samples)[|Complete(samples)| - 1].x
    ensures
      var f := ForecastCapacity(samples, Some(size), None, minSpanHours).value;
      Level(l, t) >= size <==> t >= Complete(samples)[|Complete(samples)| - 1].x + f.daysToFull * 86400.0
  {
    ForecastParts(samples, size, None, minSpanHours);
    LastOnLine(samples, l);
    hide LinReg, Complete, ForecastCapacity, UsageFor, Level, Collinear;
    FillTimeExact(samples, l, size, None, minSpanHours, Complete(samples)[|Complete(samples)| - 1].x, t);
  }

  lemma LastOnLine(samples: seq<Sample>, l: Line)
    requires Complete(samples) != [] && Collinear(Complete(samples), l)
    ensures StartsFrom(samples, None, Level(l, Complete(samples)[|Complete(samples)| - 1].x))
  {
    hide Complete;
    var last := Complete(samples)[|Complete(samples)| - 1];
    assert last in Complete(samples) && Residual(last, l) == 0.0;
  }

  /**
    * What each trend says of the fitted line, seen from any time `at`: flat, it moves by less than the size
    * in ten years; otherwise shrinking or growing as it falls or rises. A shrinking line never reaches a
    * size it is below.
    */
  lemma TrendMeaning(samples: seq<Sample>, size: real, usedNow: Option<real>, minSpanHours: real, at: real, t: real)
    requires ForecastCapacity(samples, Some(size), usedNow, minSpanHours).Some?
    ensures LinReg(samples).Some?
    ensures
      var f, l := ForecastCapacity(samples, Some(size), usedNow, minSpanHours).value, LinReg(samples).value;
      && f.bytesPerDay == Level(l, at + 86400.0) - Level(l, at)
      && (f.Flat? <==> -size < Level(l, at + 3650.0 * 86400.0) - Level(l, at) < size)
      && (f.Shrinking? <==> !f.Flat? && Level(l, at + 86400.0) <= Level(l, at))
      && (f.Growing? <==> !f.Flat? && Level(l, at + 86400.0) > Level(l, at))
      && (f.Shrinking? && t >= at ==> Level(l, t) <= Level(l, at))
  {
    ForecastParts(samples, size, usedNow, minSpanHours);
    hide LinReg, Complete, ForecastCapacity, UsageFor;
    var l := LinReg(samples).value;
    hide ForecastCapacity, Times;
    LevelLater(l, at, at + DAY);
    LevelLater(l, at, at + 3650.0 * DAY);
    LevelLater(l, at, t);
    SlopeOver(Level(l, at), l.slope, size, at, t);
    hide Level, Abs, Projected;
  }

  /** The change over a day, over ten years, and over any later stretch. */
  lemma SlopeOver(level: real, slope: real, size: real, at: real, t: real)
    ensures Projected(level, slope, at + DAY - at) == level + slope * DAY
    ensures Projected(level, slope, at + 3650.0 * DAY - at) == level + 3650.0 * (slope * DAY)
    ensures Abs(slope * DAY) < size / 3650.0 <==> Abs(level + 3650.0 * (slope * DAY) - level) < size
    ensures slope * DAY <= 0.0 && t >= at ==> Projected(level, slope, t - at) <= level
  {
    var tenYears := at + 3650.0 * DAY - at;
    assert tenYears == 3650.0 * DAY && at + DAY - at == DAY;
    assert slope * (3650.0 * DAY) == 3650.0 * (slope * DAY);
    assert Projected(level, slope, tenYears) == level + slope * (3650.0 * DAY);
    Falling(level, slope, t - at);
    hide Projected;
  }

  lemma Falling(level: real, slope: real, later: real)
    ensures slope <= 0.0 && later >= 0.0 ==> Projected(level, slope, later) <= level
  {
    assert Projected(level, slope, later) == level + Times(slope, later);
    assert Times(-slope, later) == -Times(slope, later);
    hide Projected, Times;
    if slope < 0.0 && later > 0.0 {
      PositiveProduct(-slope, later);
    } else {
      ZeroFactor(slope, later);
    }
  }

  lemma ZeroFactor(a: real, b: real)
    ensures a == 0.0 || b == 0.0 ==> Times(a, b) == 0.0
  {}
}
