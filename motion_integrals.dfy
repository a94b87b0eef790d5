/** The kinematics of `s_curve_profile` as `generate_move` uses it: the speed is the
    integral of the interpolated acceleration and the position the integral of the
    speed (`integrate` twice). At every breakpoint the two integrals equal the trapezoid
    stepper `Motion`, so up to time 0 the move is at rest at 0, and from the last
    breakpoint on it is at rest at the distance. */
module MotionIntegrals {
  import opened Base
  import opened Polynomials
  import PolyRoots
  import opened Splines
  import opened MotionProfiles

  // ---------------------------------------------------------------------------
  // One linear piece and its two antiderivatives

  lemma EvalCubic(a: real, b: real, c: real, d: real, t: real)
    ensures Eval([a, b, c, d], t) == a + t * (b + t * (c + t * d))
  {
    var p := [a, b, c, d];
    EvalFromStep(p, 0, t);
    EvalFromStep(p, 1, t);
    EvalFromStep(p, 2, t);
    EvalFromStep(p, 3, t);
    EvalFromStep(p, 4, t);
  }

  /** Over [x0, x1] the antiderivative c + c0 t + u t^2 of the line c0 + 2 u t grows by
      the trapezoid of the line's end values. */
  lemma SpeedAlgebra(c: real, c0: real, c1: real, u: real, x0: real, x1: real, q0: real, q1: real, s0: real, s1: real)
    requires c1 == 2.0 * u
    requires q0 == c + x0 * (c0 + x0 * u) && q1 == c + x1 * (c0 + x1 * u)
    requires s0 == c0 + c1 * x0 && s1 == c0 + c1 * x1
    ensures q1 - q0 == (x1 - x0) * (s0 + s1) / 2.0
  {
    var h := x1 - x0;
    assert q1 - q0 == c0 * h + u * (x1 * x1 - x0 * x0);
    assert x1 * x1 - x0 * x0 == h * (x1 + x0);
  }

  /** Over [x0, x1] the second antiderivative d + c t + v t^2 + w t^3 grows by the first
      one's value at x0 times the width, plus the width squared times (2 s0 + s1) / 6. */
  lemma PositionAlgebra(d: real, c: real, c0: real, c1: real, u: real, v: real, w: real, x0: real, x1: real,
                        q0: real, r0: real, r1: real, s0: real, s1: real)
    requires c1 == 2.0 * u && c0 == 2.0 * v && u == 3.0 * w
    requires q0 == c + x0 * (c0 + x0 * u)
    requires r0 == d + x0 * (c + x0 * (v + x0 * w))
    requires r1 == d + x1 * (c + x1 * (v + x1 * w))
    requires s0 == c0 + c1 * x0 && s1 == c0 + c1 * x1
    ensures r1 - r0 == q0 * (x1 - x0) + (x1 - x0) * (x1 - x0) * (2.0 * s0 + s1) / 6.0
  {
    var h := x1 - x0;
    assert x1 == x0 + h;
    assert x1 * x1 == x0 * x0 + 2.0 * x0 * h + h * h;
    assert x1 * x1 * x1 == x0 * x0 * x0 + 3.0 * x0 * x0 * h + 3.0 * x0 * h * h + h * h * h;
    assert r1 - r0 == c * h + v * (2.0 * x0 * h + h * h) + w * (3.0 * x0 * x0 * h + 3.0 * x0 * h * h + h * h * h);
  }

  /** Piece i of `integrate` is the antiderivative of piece i up to its constant term. */
  lemma IntegralShape(s: Spline, i: nat)
    requires s.Valid() && i < |s.polys|
    ensures Integral(s, i) == Antiderivative(s.polys[i])[0 := Integral(s, i)[0]]
  {
    if i == 0 {
      var a := Antiderivative(s.polys[0]);
      assert a[0 := a[0]] == a;
    }
  }

  lemma AntiderivativeOfLine(c0: real, c1: real)
    ensures Antiderivative([c0, c1]) == [0.0, c0, c1 / 2.0]
  {
    var a := Antiderivative([c0, c1]);
    assert a[1] == c0 / 1.0 && a[2] == c1 / 2.0;
  }

  lemma AntiderivativeOfQuadratic(c: real, b: real, a: real)
    ensures Antiderivative([c, b, a]) == [0.0, c, b / 2.0, a / 3.0]
  {
    var r := Antiderivative([c, b, a]);
    assert r[1] == c / 1.0 && r[2] == b / 2.0 && r[3] == a / 3.0;
  }

  /** The antiderivative c + c0 t + u t^2 of the line c0 + c1 t (c1 = 2 u) grows over
      [x0, x1] by the trapezoid of the line's end values. */
  lemma SpeedGain(c0: real, c1: real, c: real, u: real, x0: real, x1: real)
    requires c1 == 2.0 * u
    ensures Eval([c, c0, u], x1) - Eval([c, c0, u], x0) == (x1 - x0) * (Eval([c0, c1], x0) + Eval([c0, c1], x1)) / 2.0
  {
    EvalLinear(c0, c1, x0);
    EvalLinear(c0, c1, x1);
    PolyRoots.EvalQuadratic(c, c0, u, x0);
    PolyRoots.EvalQuadratic(c, c0, u, x1);
    SpeedAlgebra(c, c0, c1, u, x0, x1, Eval([c, c0, u], x0), Eval([c, c0, u], x1), Eval([c0, c1], x0), Eval([c0, c1], x1));
  }

  /** Its antiderivative d + c t + v t^2 + w t^3 (c0 = 2 v, u = 3 w) grows over [x0, x1]
      by the first one's value at x0 times the width plus the width squared times
      (2 p(x0) + p(x1)) / 6. */
  lemma PositionGain(c0: real, c1: real, c: real, d: real, u: real, v: real, w: real, x0: real, x1: real)
    requires c1 == 2.0 * u && c0 == 2.0 * v && u == 3.0 * w
    ensures Eval([d, c, v, w], x1) - Eval([d, c, v, w], x0) ==
              Eval([c, c0, u], x0) * (x1 - x0) + (x1 - x0) * (x1 - x0) * (2.0 * Eval([c0, c1], x0) + Eval([c0, c1], x1)) / 6.0
  {
    EvalLinear(c0, c1, x0);
    EvalLinear(c0, c1, x1);
    PolyRoots.EvalQuadratic(c, c0, u, x0);
    EvalCubic(d, c, v, w, x0);
    EvalCubic(d, c, v, w, x1);
    PositionAlgebra(d, c, c0, c1, u, v, w, x0, x1, Eval([c, c0, u], x0), Eval([d, c, v, w], x0), Eval([d, c, v, w], x1),
                    Eval([c0, c1], x0), Eval([c0, c1], x1));
  }

  /** The gains of a piece are one `Step` of the trapezoid stepper. */
  lemma GainsAreStep(m: (real, real), x0: real, x1: real, y0: real, y1: real, e0: real, e1: real)
    requires e0 == m.0 + (x1 - x0) * (y0 + y1) / 2.0
    requires e1 == m.1 + m.0 * (x1 - x0) + (x1 - x0) * (x1 - x0) * (2.0 * y0 + y1) / 6.0
    ensures Step(m.0, m.1, x1 - x0, y0, y1) == (e0, e1)
  {
  }

  /** A line p from (x0, y0) to (x1, y1), an antiderivative q of it and an antiderivative
      r of q: over [x0, x1] q grows by the trapezoid of y0 and y1, and r by q(x0) times
      the width plus the width squared times (2 y0 + y1) / 6. */
  lemma PieceGains(p: seq<real>, q: seq<real>, r: seq<real>, x0: real, x1: real, y0: real, y1: real, q0: real, r0: real)
    requires |p| == 2 && |q| == 3 && |r| == 4
    requires q == Antiderivative(p)[0 := q[0]] && r == Antiderivative(q)[0 := r[0]]
    requires Eval(p, x0) == y0 && Eval(p, x1) == y1 && Eval(q, x0) == q0 && Eval(r, x0) == r0
    ensures Step(q0, r0, x1 - x0, y0, y1) == (Eval(q, x1), Eval(r, x1))
  {
    var c0, c1, c, d := p[0], p[1], q[0], r[0];
    var u, v, w := q[2], r[2], r[3];
    AntiderivativeOfLine(c0, c1);
    AntiderivativeOfQuadratic(c, c0, u);
    assert p == [c0, c1] && q == [c, c0, u] && r == [d, c, v, w];
    assert c1 == 2.0 * u && c0 == 2.0 * v && u == 3.0 * w;
    SpeedGain(c0, c1, c, u, x0, x1);
    PositionGain(c0, c1, c, d, u, v, w, x0, x1);
    GainsAreStep((q0, r0), x0, x1, y0, y1, Eval(q, x1), Eval(r, x1));
  }

  // ---------------------------------------------------------------------------
  // The integrals at the breakpoints

  /** The acceleration of the breakpoints bp, joined by straight lines. */
  function Accel(bp: seq<(real, real)>): (s: Spline)
    requires |bp| > 0
    ensures s.Valid() && s.knots == Times(bp)
  {
    Interpolation(Times(bp), Accels(bp))
  }

  /** Times that start at 0 and strictly increase, with the motion at rest at time 0. */
  predicate Timed(bp: seq<(real, real)>) {
    |bp| > 0 && Increasing(Times(bp)) && bp[0] == (0.0, 0.0)
  }

  /** Piece k of the acceleration is the straight line from breakpoint k - 1 to
      breakpoint k. */
  lemma LinePiece(bp: seq<(real, real)>, k: nat)
    requires Timed(bp) && 0 < k < |bp|
    ensures var p := Accel(bp).polys[k];
            |p| == 2 && Eval(p, bp[k - 1].0) == bp[k - 1].1 && Eval(p, bp[k].0) == bp[k].1
  {
    var x, y := Times(bp), Accels(bp);
    assert Accel(bp).polys[k] == Segment(x[k - 1], y[k - 1], x[k], y[k]);
    SegmentEval(x[k - 1], y[k - 1], x[k], y[k]);
  }

  /** The curve a follows the breakpoints bp: its knots are their times and each interior
      piece is a straight line from one breakpoint to the next. */
  ghost predicate Through(a: Spline, bp: seq<(real, real)>) {
    a.Valid() && a.knots == Times(bp) &&
    forall k :: 0 < k < |bp| ==>
      |a.polys[k]| == 2 && Eval(a.polys[k], bp[k - 1].0) == bp[k - 1].1 && Eval(a.polys[k], bp[k].0) == bp[k].1
  }

  /** The acceleration of the breakpoints follows them. */
  lemma AccelThrough(bp: seq<(real, real)>)
    requires Timed(bp)
    ensures Through(Accel(bp), bp)
  {
    var a := Accel(bp);
    forall k | 0 < k < |bp|
      ensures |a.polys[k]| == 2 && Eval(a.polys[k], bp[k - 1].0) == bp[k - 1].1 && Eval(a.polys[k], bp[k].0) == bp[k].1
    {
      LinePiece(bp, k);
    }
  }

  /** Over a linear piece k of a curve a, from (x0, y0) to (x1, y1), the integral of a and
      the integral of that advance by one `Step`. */
  lemma IntegratedStep(a: Spline, k: nat, x0: real, x1: real, y0: real, y1: real, m: (real, real))
    requires a.Valid() && k < |a.polys| && |a.polys[k]| == 2
    requires Eval(a.polys[k], x0) == y0 && Eval(a.polys[k], x1) == y1
    requires var v := Integrated(a);
             Eval(v.polys[k], x0) == m.0 && Eval(Integral(v, k), x0) == m.1
    ensures var v := Integrated(a);
            Step(m.0, m.1, x1 - x0, y0, y1) == (Eval(v.polys[k], x1), Eval(Integral(v, k), x1))
  {
    var v := Integrated(a);
    IntegralShape(a, k);
    IntegralShape(v, k);
    PieceGains(a.polys[k], v.polys[k], Integral(v, k), x0, x1, y0, y1, m.0, m.1);
  }

  /** At breakpoint k pieces k and k + 1 of the first integral of a, and of its second
      integral, meet. */
  lemma KnotMeets(a: Spline, bp: seq<(real, real)>, k: nat)
    requires a.Valid() && a.knots == Times(bp) && k < |bp|
    ensures var v := Integrated(a);
            Eval(v.polys[k + 1], bp[k].0) == Eval(v.polys[k], bp[k].0) &&
            Eval(Integral(v, k + 1), bp[k].0) == Eval(Integral(v, k), bp[k].0)
  {
    var v := Integrated(a);
    assert a.knots[k] == bp[k].0 && v.knots[k] == bp[k].0;
    assert v.polys[k] == Integral(a, k) && v.polys[k + 1] == Integral(a, k + 1);
    IntegralContinuous(a, k + 1);
    IntegralContinuous(v, k + 1);
  }

  /** One breakpoint further: if pieces j + 1 of the first and the second integral of a
      start from the motion m at breakpoint j, pieces j + 2 start from one `Step` of m at
      breakpoint j + 1. */
  lemma KinematicStep(a: Spline, bp: seq<(real, real)>, j: nat, m: (real, real))
    requires Through(a, bp) && j + 1 < |bp|
    requires var v := Integrated(a);
             Eval(v.polys[j + 1], bp[j].0) == m.0 && Eval(Integral(v, j + 1), bp[j].0) == m.1
    ensures var v := Integrated(a);
            Step(m.0, m.1, bp[j + 1].0 - bp[j].0, bp[j].1, bp[j + 1].1) ==
              (Eval(v.polys[j + 2], bp[j + 1].0), Eval(Integral(v, j + 2), bp[j + 1].0))
  {
    var k := j + 1;
    assert |a.polys[k]| == 2 && Eval(a.polys[k], bp[j].0) == bp[j].1 && Eval(a.polys[k], bp[k].0) == bp[k].1;
    IntegratedStep(a, k, bp[j].0, bp[k].0, bp[j].1, bp[k].1, m);
    KnotMeets(a, bp, k);
  }

  /** When the first knot of a is at 0, pieces 1 of its first and its second integral are
      0 there. */
  lemma StartsAtRest(a: Spline)
    requires a.Valid() && |a.knots| > 0 && a.knots[0] == 0.0
    ensures var v := Integrated(a);
            Eval(v.polys[1], 0.0) == 0.0 && Eval(Integral(v, 1), 0.0) == 0.0
  {
    var v := Integrated(a);
    assert v.polys[0] == Integral(a, 0) && v.polys[1] == Integral(a, 1);
    IntegralContinuous(a, 1);
    IntegralFirstPiece(a);
    IntegralContinuous(v, 1);
    IntegralFirstPiece(v);
  }

  /** At the first breakpoint, at rest at time 0, the speed and the position are 0. */
  lemma FirstBreakpoint(a: Spline, bp: seq<(real, real)>)
    requires a.Valid() && a.knots == Times(bp) && |bp| > 0 && bp[0] == (0.0, 0.0)
    ensures var v := Integrated(a);
            Eval(v.polys[1], bp[0].0) == Motion(bp, 1).0 && Eval(Integral(v, 1), bp[0].0) == Motion(bp, 1).1
  {
    assert a.knots[0] == bp[0].0 == 0.0;
    StartsAtRest(a);
  }

  /** If the speed and the position at breakpoint j are `Motion(bp, j + 1)`, those at
      breakpoint j + 1 are `Motion(bp, j + 2)`. */
  lemma NextBreakpoint(a: Spline, bp: seq<(real, real)>, j: nat, m: (real, real))
    requires Through(a, bp) && j + 1 < |bp| && m == Motion(bp, j + 1)
    requires var v := Integrated(a);
             Eval(v.polys[j + 1], bp[j].0) == m.0 && Eval(Integral(v, j + 1), bp[j].0) == m.1
    ensures var v := Integrated(a);
            (Eval(v.polys[j + 2], bp[j + 1].0), Eval(Integral(v, j + 2), bp[j + 1].0)) == Motion(bp, j + 2)
  {
    KinematicStep(a, bp, j, m);
    assert Motion(bp, j + 2) == Step(m.0, m.1, bp[j + 1].0 - bp[j].0, bp[j].1, bp[j + 1].1);
  }

  /** At every breakpoint k the speed and the position (pieces k + 1 of the first and the
      second integral of a) are the trapezoid kinematics `Motion(bp, k + 1)`. */
  lemma {:induction false} IntegralsAtBreakpoints(a: Spline, bp: seq<(real, real)>, k: nat)
    requires Through(a, bp) && k < |bp| && bp[0] == (0.0, 0.0)
    ensures var v := Integrated(a);
            Eval(v.polys[k + 1], bp[k].0) == Motion(bp, k + 1).0 &&
            Eval(Integral(v, k + 1), bp[k].0) == Motion(bp, k + 1).1
  {
    if k == 0 {
      FirstBreakpoint(a, bp);
    } else {
      var j: nat := k - 1;
      IntegralsAtBreakpoints(a, bp, j);
      NextBreakpoint(a, bp, j, Motion(bp, k));
    }
  }

  /** At every breakpoint k, the speed and the position curves (the first and the second
      integral of a) take the values `Motion(bp, k + 1)`. */
  lemma AtBreakpoint(a: Spline, bp: seq<(real, real)>, k: nat)
    requires Through(a, bp) && Timed(bp) && k < |bp|
    ensures var v := Integrated(a);
            At(v, bp[k].0) == Motion(bp, k + 1).0 && At(Integrated(v), bp[k].0) == Motion(bp, k + 1).1
  {
    var v := Integrated(a);
    IntegralsAtBreakpoints(a, bp, k);
    PieceIndexIs(Times(bp), bp[k].0, k + 1);
    assert Integrated(v).polys[k + 1] == Integral(v, k + 1);
  }

  /** Where the acceleration piece i is zero, piece i of the speed is a constant c and piece
      i of the position the line d + c t. */
  lemma FlatPiece(a: Spline, i: nat, t: real)
    requires a.Valid() && i < |a.polys| && a.polys[i] == [0.0]
    ensures var v := Integrated(a);
            Eval(v.polys[i], t) == v.polys[i][0] &&
            Eval(Integral(v, i), t) == Integral(v, i)[0] + t * v.polys[i][0]
  {
    var v := Integrated(a);
    IntegralShape(a, i);
    IntegralShape(v, i);
    FlatGains(a.polys[i], v.polys[i], Integral(v, i), t);
  }

  /** The same over plain coefficient lists: q and r are antiderivatives of the zero
      constant p and of q. */
  lemma FlatGains(p: seq<real>, q: seq<real>, r: seq<real>, t: real)
    requires p == [0.0] && |q| == 2 && |r| == 3
    requires q == Antiderivative(p)[0 := q[0]] && r == Antiderivative(q)[0 := r[0]]
    ensures Eval(q, t) == q[0] && Eval(r, t) == r[0] + t * q[0]
  {
    var c, d := q[0], r[0];
    AntiderivativeOfConstant(0.0);
    assert q == [c, 0.0];
    AntiderivativeOfLine(c, 0.0);
    assert r == [d, c, 0.0];
    EvalLinear(c, 0.0, t);
    PolyRoots.EvalQuadratic(d, c, 0.0, t);
  }

  lemma AntiderivativeOfConstant(c: real)
    ensures Antiderivative([c]) == [0.0, c]
  {
  }

  /** Before time 0 both integrals of the acceleration are 0: it is 0 there and the
      integrals start at 0. */
  lemma BeforeStart(bp: seq<(real, real)>, t: real)
    requires Timed(bp) && t < 0.0
    ensures var v := Integrated(Accel(bp));
            At(v, t) == 0.0 && At(Integrated(v), t) == 0.0
  {
    var a := Accel(bp);
    var v := Integrated(a);
    PieceIndexIs(Times(bp), t, 0);
    assert a.polys[0] == [Accels(bp)[0]] == [0.0];
    FlatPiece(a, 0, t);
    assert v.polys[0] == Integral(a, 0) && Integrated(v).polys[0] == Integral(v, 0);
    IntegralFirstPiece(a);
    IntegralFirstPiece(v);
  }

  /** From the last breakpoint T on, where the acceleration is back at 0 and the speed is 0,
      the speed stays 0 and the position stays where it is at T. */
  lemma AfterEnd(bp: seq<(real, real)>, t: real)
    requires Timed(bp) && bp[|bp| - 1].1 == 0.0 && t >= bp[|bp| - 1].0
    requires At(Integrated(Accel(bp)), bp[|bp| - 1].0) == 0.0
    ensures var v := Integrated(Accel(bp));
            At(v, t) == 0.0 && At(Integrated(v), t) == At(Integrated(v), bp[|bp| - 1].0)
  {
    var a := Accel(bp);
    var v := Integrated(a);
    var n := |bp|;
    var end := bp[n - 1].0;
    PieceIndexIs(Times(bp), t, n);
    PieceIndexIs(Times(bp), end, n);
    assert a.polys[n] == [Accels(bp)[n - 1]] == [0.0];
    FlatPiece(a, n, t);
    FlatPiece(a, n, end);
    assert Integrated(v).polys[n] == Integral(v, n);
  }

  /** Up to time 0 the speed and the position are 0. */
  lemma RestBefore(bp: seq<(real, real)>, t: real)
    requires Timed(bp) && t <= 0.0
    ensures var v := Integrated(Accel(bp));
            At(v, t) == 0.0 && At(Integrated(v), t) == 0.0
  {
    if t < 0.0 {
      BeforeStart(bp, t);
    } else {
      AccelThrough(bp);
      AtBreakpoint(Accel(bp), bp, 0);
      assert Motion(bp, 1) == (0.0, 0.0);
    }
  }

  /** Breakpoints whose trapezoid kinematics end at rest at the distance: from the last
      breakpoint on the speed is 0 and the position the distance. */
  lemma RestAfter(bp: seq<(real, real)>, distance: real, t: real)
    requires Timed(bp) && bp[|bp| - 1].1 == 0.0 && Motion(bp, |bp|) == (0.0, distance)
    requires t >= bp[|bp| - 1].0
    ensures var v := Integrated(Accel(bp));
            At(v, t) == 0.0 && At(Integrated(v), t) == distance
  {
    AccelThrough(bp);
    AtBreakpoint(Accel(bp), bp, |bp| - 1);
    AfterEnd(bp, t);
  }

  /** `generate_move`'s speed and position, the first and the second integral of
      `s_curve_profile(distance, max_speed, max_accel, jerk)`: up to time 0 the move is at
      rest at 0, and from the profile's last knot on it is at rest at the distance. */
  lemma ProfileSettles(ops: RealOps, distance: real, maxSpeed: real, maxAccel: real, jerk: real, t: real)
    requires ops.Lawful() && distance >= 0.0 && maxSpeed > 0.0 && maxAccel > 0.0 && jerk > 0.0
    ensures var a := Profile(ops, distance, maxSpeed, maxAccel, jerk);
            var v := Integrated(a);
            (t <= 0.0 ==> At(v, t) == 0.0 && At(Integrated(v), t) == 0.0) &&
            (t >= a.knots[|a.knots| - 1] ==> At(v, t) == 0.0 && At(Integrated(v), t) == distance)
  {
    var bp := Breakpoints(ops, distance, maxSpeed, maxAccel, jerk);
    assert Profile(ops, distance, maxSpeed, maxAccel, jerk) == Accel(bp);
    if distance > 0.0 {
      BreakpointsShape(ops, distance, maxSpeed, maxAccel, jerk);
    }
    BreakpointsMotion(ops, distance, maxSpeed, maxAccel, jerk);
    if t <= 0.0 {
      RestBefore(bp, t);
    }
    if t >= bp[|bp| - 1].0 {
      RestAfter(bp, distance, t);
    }
  }
}
