/** `generate_move` as move.py runs it, on `Curve` objects: the arc curves, the loop
    that appends one corrected curve per axis, the loop that keeps the running minimum
    of the throttle factors, the re-synthesis and the final harmonisation. Each method
    is proved to compute the value-level function of module Move that the lemmas there
    are about. */
module MoveCurves {
  import opened Base
  import opened Splines
  import opened SplineKnots
  import opened SplineCompose
  import opened SplineRange
  import MotionProfiles
  import opened Curves
  import opened CurveOps
  import opened Move

  /** The three arc curves as a value. */
  ghost function ArcValue(accel: Curve, speed: Curve, position: Curve): Arc
    reads accel, speed, position
  {
    Arc(accel.Value(), speed.Value(), position.Value())
  }

  /** `arc_acceleration = s_curve_profile(...)` and its two integrals. */
  method ArcCurves(ops: RealOps, distance: real, m: Triple<real>) returns (accel: Curve, speed: Curve, position: Curve)
    requires ops.Lawful() && distance > 0.0 && Positive(m)
    ensures fresh(accel) && fresh(speed) && fresh(position)
    ensures ArcValue(accel, speed, position) == ArcOf(ops, distance, m)
  {
    var bp := MotionProfiles.Breakpoints(ops, distance, m.speed, m.accel, m.jerk);
    accel := new Curve.Interpolate(MotionProfiles.Times(bp), MotionProfiles.Accels(bp));
    speed := accel.Integrate();
    position := speed.Integrate();
  }

  /** The body of the axis loop before the offset: the scaled arc position, corrected by
      the axis's dynamic model. */
  method CorrectAxis(ops: RealOps, accel: Curve, speed: Curve, position: Curve, k: real, model: DynamicModel)
    returns (r: Result<Curve>)
    requires ops.Lawful() && ArcShaped(ArcValue(accel, speed, position))
    ensures r.Success? ==> fresh(r.value) && Corrected(ops, ArcValue(accel, speed, position), k, model) == Success(r.value.Value())
    ensures r.Failure? ==> Corrected(ops, ArcValue(accel, speed, position), k, model) == Failure(r.error)
  {
    if model.AsymmetricSpringDamper? {
      r := AsymmetricCase(ops, accel, speed, position, k, model);
    } else {
      var p := SymmetricCase(ops, accel, speed, position, k, model);
      r := Success(p);
    }
  }

  /** The models that cannot fail: none, the spring-damper and pressure advance. */
  method SymmetricCase(ops: RealOps, accel: Curve, speed: Curve, position: Curve, k: real, model: DynamicModel)
    returns (p: Curve)
    requires ops.Lawful() && ArcShaped(ArcValue(accel, speed, position)) && !model.AsymmetricSpringDamper?
    ensures fresh(p) && Corrected(ops, ArcValue(accel, speed, position), k, model) == Success(p.Value())
  {
    p := position.Times(k);
    if model.SpringDamper? {
      var omega := model.fN * Tau;
      if omega > 0.0 {
        p := SpringDamperAxis(accel, speed, position, k, omega, model.zeta);
      }
    } else if model.PressureAdvance? {
      if model.k > 0.0 {
        p := PressureAdvanceAxis(accel, speed, position, k, model.k);
      }
    }
  }

  /** The asymmetric spring-damper, applied when either frequency is positive. */
  method AsymmetricCase(ops: RealOps, accel: Curve, speed: Curve, position: Curve, k: real, model: DynamicModel)
    returns (r: Result<Curve>)
    requires ops.Lawful() && ArcShaped(ArcValue(accel, speed, position)) && model.AsymmetricSpringDamper?
    ensures r.Success? ==> fresh(r.value) && Corrected(ops, ArcValue(accel, speed, position), k, model) == Success(r.value.Value())
    ensures r.Failure? ==> Corrected(ops, ArcValue(accel, speed, position), k, model) == Failure(r.error)
  {
    var omegaPos := model.fNPositive * Tau;
    var omegaNeg := model.fNNegative * Tau;
    if omegaPos > 0.0 || omegaNeg > 0.0 {
      CorrectedAsymmetric(ops, ArcValue(accel, speed, position), k, model);
      r := AsymmetricAxis(ops, accel, speed, position, k, omegaPos, omegaNeg, model.zeta);
    } else {
      var p := position.Times(k);
      r := Success(p);
    }
  }

  /** `position + arc_acceleration * (k omega^-2) + arc_speed * (k 2 zeta omega^-1)`. */
  method SpringDamperAxis(accel: Curve, speed: Curve, position: Curve, k: real, omega: real, zeta: real)
    returns (p: Curve)
    requires ArcShaped(ArcValue(accel, speed, position)) && omega > 0.0
    ensures fresh(p) && p.Value() == SpringDamped(ArcValue(accel, speed, position), k, omega, zeta)
  {
    p := position.Times(k);
    var a := accel.Times(k * (1.0 / (omega * omega)));
    var b := speed.Times(k * 2.0 * zeta * (1.0 / omega));
    var correction := a.PlusCurve(b);
    PlusSpec(a.Value(), b.Value());
    p := p.PlusCurve(correction);
  }

  /** `position + composite(kinked_line(omega_neg^-2, omega_pos^-2), arc_acceleration*k +
      arc_speed*(k b/m))`, with `0.0 ** -2` raising ZeroDivisionError. */
  method AsymmetricAxis(ops: RealOps, accel: Curve, speed: Curve, position: Curve, k: real,
                        omegaPos: real, omegaNeg: real, zeta: real)
    returns (r: Result<Curve>)
    requires ops.Lawful() && ArcShaped(ArcValue(accel, speed, position))
    ensures r.Success? ==>
              fresh(r.value) && AsymmetricDamped(ops, ArcValue(accel, speed, position), k, omegaPos, omegaNeg, zeta) == Success(r.value.Value())
    ensures r.Failure? ==> AsymmetricDamped(ops, ArcValue(accel, speed, position), k, omegaPos, omegaNeg, zeta) == Failure(r.error)
  {
    if omegaNeg == 0.0 || omegaPos == 0.0 {
      return Failure(ZeroDivision);
    }
    var p := position.Times(k);
    var kink := new Curve.Kinked(1.0 / (omegaNeg * omegaNeg), 1.0 / (omegaPos * omegaPos));
    var bDivM := zeta * (omegaPos + omegaNeg);
    var a := accel.Times(k);
    var b := speed.Times(k * bDivM);
    var g := a.PlusCurve(b);
    ghost var arc := ArcValue(accel, speed, position);
    assert g.Value() == AsymmetricInput(arc, k, bDivM);
    AsymmetricDampedIs(ops, arc, k, omegaPos, omegaNeg, zeta, bDivM);
    r := KinkedPlusCurves(ops, p, kink, g);
  }

  /** `position + spline.composite(kink, g)`. */
  method KinkedPlusCurves(ops: RealOps, position: Curve, kink: Curve, g: Curve) returns (r: Result<Curve>)
    requires ops.Lawful() && position.Value().Valid() && Increasing(position.knots)
    requires kink.Value().Valid() && g.Value().Valid() && Increasing(g.knots)
    ensures r.Success? ==> fresh(r.value) && KinkedPlus(ops, position.Value(), kink.Value(), g.Value()) == Success(r.value.Value())
    ensures r.Failure? ==> KinkedPlus(ops, position.Value(), kink.Value(), g.Value()) == Failure(r.error)
  {
    var c := Composite(ops, kink, g);
    if c.Failure? {
      return Failure(c.error);
    }
    ComposedKnots(ops, kink.Value(), g.Value());
    var p := position.PlusCurve(c.value);
    r := Success(p);
  }

  /** `(arc_speed * k + arc_acceleration * (k K)).integrate()`. */
  method PressureAdvanceAxis(accel: Curve, speed: Curve, position: Curve, k: real, kPa: real) returns (p: Curve)
    requires ArcShaped(ArcValue(accel, speed, position))
    ensures fresh(p) && p.Value() == Advanced(ArcValue(accel, speed, position), k, kPa)
  {
    var a := speed.Times(k);
    var b := accel.Times(k * kPa);
    var v := a.PlusCurve(b);
    p := v.Integrate();
  }

  /** rs holds the curve of every axis, or its failure. */
  ghost predicate IsAxisPositions(rs: seq<Result<Spline>>, ops: RealOps, arc: Arc, source: seq<real>, delta: seq<real>,
                                  distance: real, models: seq<DynamicModel>)
    requires ops.Lawful() && ArcShaped(arc) && distance != 0.0
    requires |delta| <= |source| && |delta| <= |models|
  {
    && |rs| == |delta|
    && forall k {:trigger AxisPositions(ops, arc, source, delta, distance, models)[k]} ::
         0 <= k < |rs| ==> rs[k] == AxisPositions(ops, arc, source, delta, distance, models)[k]
  }

  /** The loop over the axes: for axis i the corrected arc position with share
      delta[i] / distance plus source[i], appended to a list of new curves; the first
      failing axis ends the loop. */
  method AxisLoop(ops: RealOps, accel: Curve, speed: Curve, position: Curve, ghost arc: Arc, source: seq<real>,
                  delta: seq<real>, distance: real, models: seq<DynamicModel>, ghost rs: seq<Result<Spline>>)
    returns (r: Result<seq<Curve>>)
    requires ops.Lawful() && ArcShaped(arc) && ArcValue(accel, speed, position) == arc && distance != 0.0
    requires |delta| <= |source| && |delta| <= |models|
    requires IsAxisPositions(rs, ops, arc, source, delta, distance, models)
    ensures r.Success? ==>
              && (forall i :: 0 <= i < |r.value| ==> fresh(r.value[i]))
              && (forall i, j :: 0 <= i < j < |r.value| ==> r.value[i] != r.value[j])
              && Collect(rs, |rs|) == Success(Values(r.value))
    ensures r.Failure? ==> Collect(rs, |rs|) == Failure(r.error)
  {
    var positions: seq<Curve> := [];
    for i := 0 to |delta|
      invariant |positions| == i && ArcValue(accel, speed, position) == arc
      invariant forall j :: 0 <= j < i ==> fresh(positions[j]) && rs[j] == Success(positions[j].Value())
      invariant forall j, l :: 0 <= j < l < i ==> positions[j] != positions[l]
    {
      var p := AxisStep(ops, accel, speed, position, arc, source, delta, distance, models, i, rs);
      if p.Failure? {
        CollectFirst(rs, i, |rs|);
        return Failure(p.error);
      }
      positions := positions + [p.value];
    }
    CollectAll(rs, Values(positions));
    r := Success(positions);
  }

  /** One pass of the axis loop: `position + source[i]` for the corrected position. */
  method AxisStep(ops: RealOps, accel: Curve, speed: Curve, position: Curve, ghost arc: Arc, source: seq<real>,
                  delta: seq<real>, distance: real, models: seq<DynamicModel>, i: nat, ghost rs: seq<Result<Spline>>)
    returns (r: Result<Curve>)
    requires ops.Lawful() && ArcShaped(arc) && ArcValue(accel, speed, position) == arc && distance != 0.0
    requires i < |delta| <= |source| && |delta| <= |models|
    requires IsAxisPositions(rs, ops, arc, source, delta, distance, models)
    ensures r.Success? ==> fresh(r.value) && rs[i] == Success(r.value.Value())
    ensures r.Failure? ==> rs[i] == Failure(r.error)
  {
    assert rs[i] == AxisPositions(ops, arc, source, delta, distance, models)[i];
    var c := CorrectAxis(ops, accel, speed, position, delta[i] / distance, models[i]);
    if c.Failure? {
      return Failure(c.error);
    }
    var p := c.value.PlusNumber(source[i]);
    r := Success(p);
  }

  /** The ratios of one entry of `axis_limits`: nothing for an unset entry, else the
      curve differentiated three times and each limit over the peak magnitude that
      `minmax` finds. */
  method EntryThrottle(ops: RealOps, p: Curve, l: Option<AxisLimits>) returns (r: Result<Triple<Option<real>>>)
    requires p.Value().Valid() && (l.Some? ==> PositiveLimits(l.value))
    ensures r == EntryRatios(ops, p.Value(), l)
  {
    if l.None? {
      return Success(Triple(None, None, None));
    }
    if !Filled(p.Value()) {
      return Failure(ValueError);
    }
    var speed := p.Differentiate();
    DerivedFilled(p.Value());
    var accel := speed.Differentiate();
    DerivedFilled(speed.Value());
    var jerk := accel.Differentiate();
    DerivedFilled(accel.Value());
    var sm := speed.MinMax(ops);
    if sm.Failure? {
      return Failure(sm.error);
    }
    var am := accel.MinMax(ops);
    if am.Failure? {
      return Failure(am.error);
    }
    var jm := jerk.MinMax(ops);
    if jm.Failure? {
      return Failure(jm.error);
    }
    var limits := l.value;
    r := Success(Triple(Ratio(limits.speed, Peak(sm.value)), Ratio(limits.accel, Peak(am.value)),
                        Ratio(limits.jerk, Peak(jm.value))));
  }

  /** The throttle loop: each factor starts at 1 and takes the minimum with the
      matching ratio of every entry of `axis_limits`, entry i against axis i. */
  method ThrottleAxes(ops: RealOps, ps: seq<Curve>, limits: seq<Option<AxisLimits>>) returns (r: Result<Triple<real>>)
    requires |limits| <= |ps| && AllValid(Values(ps))
    requires forall j :: 0 <= j < |limits| && limits[j].Some? ==> PositiveLimits(limits[j].value)
    ensures r == Throttled(AllRatios(ops, Values(ps), limits), |limits|)
  {
    ghost var qs := AllRatios(ops, Values(ps), limits);
    var throttleSpeed, throttleAccel, throttleJerk := 1.0, 1.0, 1.0;
    for i := 0 to |limits|
      invariant Throttled(qs, i) == Success(Triple(throttleSpeed, throttleAccel, throttleJerk))
    {
      var q := EntryThrottle(ops, ps[i], limits[i]);
      assert q == qs[i];
      if q.Failure? {
        ThrottledStops(qs, i + 1, |limits|);
        return Failure(q.error);
      }
      throttleSpeed := Tightened(throttleSpeed, q.value.speed);
      throttleAccel := Tightened(throttleAccel, q.value.accel);
      throttleJerk := Tightened(throttleJerk, q.value.jerk);
    }
    r := Success(Triple(throttleSpeed, throttleAccel, throttleJerk));
  }

  /** One synthesis of `generate_move` for the maxima m: the arc curves, the axis loop,
      the throttle loop, and then either the harmonized curves or, when a factor binds,
      the synthesis again from the rescaled maxima, harmonized; at most fuel times. */
  method Synthesize(ops: RealOps, source: seq<real>, delta: seq<real>, distance: real, m: Triple<real>,
                    models: seq<DynamicModel>, limits: seq<Option<AxisLimits>>, fuel: nat)
    returns (r: Result<seq<Curve>>)
    requires MoveInputs(ops, source, delta, models, limits) && distance > 0.0 && Positive(m)
    ensures r.Success? ==>
              && (forall i :: 0 <= i < |r.value| ==> fresh(r.value[i]))
              && (forall i, j :: 0 <= i < j < |r.value| ==> r.value[i] != r.value[j])
              && Synthesized(ops, source, delta, distance, m, models, limits, fuel) == Success(Values(r.value))
    ensures r.Failure? ==> Synthesized(ops, source, delta, distance, m, models, limits, fuel) == Failure(r.error)
    decreases fuel, 3
  {
    var accel, speed, position := ArcCurves(ops, distance, m);
    ghost var rs := AxisPositions(ops, ArcOf(ops, distance, m), source, delta, distance, models);
    var axes := AxisLoop(ops, accel, speed, position, ArcOf(ops, distance, m), source, delta, distance, models, rs);
    if axes.Failure? {
      return Failure(axes.error);
    }
    var ps := axes.value;
    assert AxisCurves(ops, source, delta, distance, m, models) == Success(Values(ps));
    r := Settle(ops, source, delta, distance, m, models, limits, fuel, ps);
  }

  /** The rest of a synthesis once the axis curves ps are there: the throttle loop, then
      the throttle rule. */
  method Settle(ops: RealOps, source: seq<real>, delta: seq<real>, distance: real, m: Triple<real>,
                models: seq<DynamicModel>, limits: seq<Option<AxisLimits>>, fuel: nat, ps: seq<Curve>)
    returns (r: Result<seq<Curve>>)
    requires MoveInputs(ops, source, delta, models, limits) && distance > 0.0 && Positive(m)
    requires AxisCurves(ops, source, delta, distance, m, models) == Success(Values(ps))
    requires forall i, j :: 0 <= i < j < |ps| ==> ps[i] != ps[j]
    modifies set i | 0 <= i < |ps| :: ps[i]
    ensures r.Success? ==>
              && (r.value == ps || forall i :: 0 <= i < |r.value| ==> fresh(r.value[i]))
              && (forall i, j :: 0 <= i < j < |r.value| ==> r.value[i] != r.value[j])
              && Synthesized(ops, source, delta, distance, m, models, limits, fuel) == Success(Values(r.value))
    ensures r.Failure? ==> Synthesized(ops, source, delta, distance, m, models, limits, fuel) == Failure(r.error)
    decreases fuel, 2
  {
    ghost var vs := Values(ps);
    var t := ThrottleAxes(ops, ps, limits);
    if t.Failure? {
      return Failure(t.error);
    }
    SynthesizedOnce(ops, source, delta, distance, m, models, limits, fuel, vs, t.value);
    r := ApplyThrottle(ops, source, delta, distance, m, models, limits, fuel, ps, vs, t.value);
  }

  /** The throttle rule on the factors t of the axis curves ps: ps harmonized in place
      when no factor binds, a failure for a zero jerk or spent fuel, or else the
      re-synthesis, harmonized. */
  method ApplyThrottle(ops: RealOps, source: seq<real>, delta: seq<real>, distance: real, m: Triple<real>,
                       models: seq<DynamicModel>, limits: seq<Option<AxisLimits>>, fuel: nat, ps: seq<Curve>,
                       ghost vs: seq<Spline>, t: Triple<real>)
    returns (r: Result<seq<Curve>>)
    requires MoveInputs(ops, source, delta, models, limits) && distance > 0.0 && Positive(m)
    requires |vs| == |delta| && forall i :: 0 <= i < |vs| ==> vs[i].Valid() && Increasing(vs[i].knots)
    requires forall c :: 0.0 <= Get(t, c) <= 1.0
    requires vs == Values(ps) && forall i, j :: 0 <= i < j < |ps| ==> ps[i] != ps[j]
    modifies set i | 0 <= i < |ps| :: ps[i]
    ensures r.Success? ==>
              && (r.value == ps || forall i :: 0 <= i < |r.value| ==> fresh(r.value[i]))
              && (forall i, j :: 0 <= i < j < |r.value| ==> r.value[i] != r.value[j])
              && Continued(ops, source, delta, distance, m, models, limits, fuel, vs, t) == Success(Values(r.value))
    ensures r.Failure? ==> Continued(ops, source, delta, distance, m, models, limits, fuel, vs, t) == Failure(r.error)
    decreases fuel, 1
  {
    ContinuedCases(ops, source, delta, distance, m, models, limits, fuel, vs, t);
    RescaledPositive(ops, m, t);
    var next := Rescaled(ops, m, t);
    if next.None? {
      Harmonize(ps);
      return Success(ps);
    }
    if next.value.jerk == 0.0 {
      return Failure(AssertionFailed);
    }
    if fuel == 0 {
      return Failure(NoConvergence);
    }
    var g: nat := fuel - 1;
    r := Resynthesize(ops, source, delta, distance, m, next.value, models, limits, fuel, g, vs, t);
  }

  /** `generate_move` called again with the rescaled maxima, and the curves it returns
      harmonized once more. */
  method Resynthesize(ops: RealOps, source: seq<real>, delta: seq<real>, distance: real, m: Triple<real>,
                      next: Triple<real>, models: seq<DynamicModel>, limits: seq<Option<AxisLimits>>,
                      fuel: nat, g: nat, ghost ps: seq<Spline>, ghost t: Triple<real>)
    returns (r: Result<seq<Curve>>)
    requires MoveInputs(ops, source, delta, models, limits) && distance > 0.0 && Positive(m)
    requires |ps| == |delta| && forall i :: 0 <= i < |ps| ==> ps[i].Valid() && Increasing(ps[i].knots)
    requires forall c :: 0.0 <= Get(t, c) <= 1.0
    requires Rescaled(ops, m, t) == Some(next) && next.jerk != 0.0 && fuel > 0 && g == fuel - 1 && Positive(next)
    ensures r.Success? ==>
              && (forall i :: 0 <= i < |r.value| ==> fresh(r.value[i]))
              && (forall i, j :: 0 <= i < j < |r.value| ==> r.value[i] != r.value[j])
              && Continued(ops, source, delta, distance, m, models, limits, fuel, ps, t) == Success(Values(r.value))
    ensures r.Failure? ==> Continued(ops, source, delta, distance, m, models, limits, fuel, ps, t) == Failure(r.error)
    decreases fuel, 0
  {
    var rec := Synthesize(ops, source, delta, distance, next, models, limits, g);
    ContinuedResumes(ops, source, delta, distance, m, next, models, limits, fuel, g, ps, t);
    if rec.Failure? {
      return Failure(rec.error);
    }
    Harmonize(rec.value);
    r := Success(rec.value);
  }

  /** `generate_move`: `None` for a move of length zero, otherwise a list of new curves,
      one per axis, over one common knot list. */
  method GenerateMove(ops: RealOps, source: seq<real>, destination: seq<real>, maxSpeed: real, maxAccel: real,
                      maxJerk: real, models: seq<DynamicModel>, limits: seq<Option<AxisLimits>>, fuel: nat)
    returns (r: Result<Option<seq<Curve>>>)
    requires |source| == |destination| && MoveInputs(ops, source, Delta(source, destination), models, limits)
    requires maxSpeed > 0.0 && maxAccel > 0.0 && maxJerk > 0.0
    ensures r.Success? && r.value.Some? ==>
              && (forall i :: 0 <= i < |r.value.value| ==> fresh(r.value.value[i]))
              && (forall i, j :: 0 <= i < j < |r.value.value| ==> r.value.value[i] != r.value.value[j])
              && Generated(ops, source, destination, maxSpeed, maxAccel, maxJerk, models, limits, fuel)
                 == Success(Some(Values(r.value.value)))
    ensures r.Success? && r.value.None? ==>
              Generated(ops, source, destination, maxSpeed, maxAccel, maxJerk, models, limits, fuel) == Success(None)
    ensures r.Failure? ==>
              Generated(ops, source, destination, maxSpeed, maxAccel, maxJerk, models, limits, fuel) == Failure(r.error)
  {
    var delta := Delta(source, destination);
    var distance := Distance(ops, delta);
    DistanceSpec(ops, delta);
    if distance == 0.0 {
      return Success(None);
    }
    var ps := Synthesize(ops, source, delta, distance, Triple(maxSpeed, maxAccel, maxJerk), models, limits, fuel);
    if ps.Failure? {
      return Failure(ps.error);
    }
    r := Success(Some(ps.value));
  }
}
