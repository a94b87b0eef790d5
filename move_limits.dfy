/** The axis-limit guarantee of move.py's `generate_move`: however many re-syntheses
    the throttle rule asks for, a move that is generated consists of the axis curves of
    maxima no larger than the requested ones, and those curves keep every axis limit up
    to the tolerance eps. */
module MoveLimits {
  import opened Base
  import opened Splines
  import opened SplineKnots
  import opened Move

  /** The curves of a move are those of maxima no larger than the requested ones, and
      within every axis limit up to eps. */
  lemma GeneratedSettles(ops: RealOps, source: seq<real>, destination: seq<real>, maxSpeed: real, maxAccel: real,
                         maxJerk: real, models: seq<DynamicModel>, limits: seq<Option<AxisLimits>>, fuel: nat)
    requires |source| == |destination| && MoveInputs(ops, source, Delta(source, destination), models, limits)
    requires maxSpeed > 0.0 && maxAccel > 0.0 && maxJerk > 0.0
    ensures var r := Generated(ops, source, destination, maxSpeed, maxAccel, maxJerk, models, limits, fuel);
            var delta := Delta(source, destination);
            r.Success? && r.value.Some? ==>
              Distance(ops, delta) > 0.0 &&
              SettledBelow(ops, source, delta, Distance(ops, delta), Triple(maxSpeed, maxAccel, maxJerk),
                           models, limits, r.value.value)
  {
    var delta := Delta(source, destination);
    DistanceSpec(ops, delta);
    if Distance(ops, delta) != 0.0 {
      var m' := SynthesizedSettles(ops, source, delta, Distance(ops, delta), Triple(maxSpeed, maxAccel, maxJerk),
                                   models, limits, fuel);
    }
  }

  /** A successful synthesis went through its first round: the result is what follows
      that round's axis curves and throttle factors. */
  lemma SynthesizedStage(ops: RealOps, source: seq<real>, delta: seq<real>, distance: real, m: Triple<real>,
                         models: seq<DynamicModel>, limits: seq<Option<AxisLimits>>, fuel: nat)
    requires MoveInputs(ops, source, delta, models, limits) && distance > 0.0 && Positive(m)
    requires Synthesized(ops, source, delta, distance, m, models, limits, fuel).Success?
    ensures var st := Stage(ops, source, delta, distance, m, models, limits, 1);
            st.Success? &&
            Synthesized(ops, source, delta, distance, m, models, limits, fuel)
            == Continued(ops, source, delta, distance, m, models, limits, fuel, st.value.0, st.value.1)
  {
  }

  /** A successful synthesis settled: whatever the number of re-syntheses, the curves it
      returns are those of some maxima m' no larger than the requested ones, and these
      pass every axis limit up to the tolerance eps. */
  lemma {:induction false} SynthesizedSettles(ops: RealOps, source: seq<real>, delta: seq<real>, distance: real,
                                              m: Triple<real>, models: seq<DynamicModel>,
                                              limits: seq<Option<AxisLimits>>, fuel: nat)
    returns (m': Triple<real>)
    requires MoveInputs(ops, source, delta, models, limits) && distance > 0.0 && Positive(m)
    ensures Synthesized(ops, source, delta, distance, m, models, limits, fuel).Success? ==>
              Settled(ops, source, delta, distance, m, m', models, limits,
                      Synthesized(ops, source, delta, distance, m, models, limits, fuel).value)
    decreases fuel, 1
  {
    m' := m;
    if Synthesized(ops, source, delta, distance, m, models, limits, fuel).Success? {
      SynthesizedStage(ops, source, delta, distance, m, models, limits, fuel);
      var st := Stage(ops, source, delta, distance, m, models, limits, 1).value;
      if Rescaled(ops, m, st.1).None? {
        SettlesUnthrottled(ops, source, delta, distance, m, models, limits, fuel);
      } else {
        m' := ResynthesisSettles(ops, source, delta, distance, m, models, limits, fuel, st.0, st.1);
      }
    }
  }

  /** When a factor of the first round binds, the synthesis from the rescaled maxima
      settles, and so does the harmonized result. */
  lemma {:induction false} ResynthesisSettles(ops: RealOps, source: seq<real>, delta: seq<real>, distance: real,
                                              m: Triple<real>, models: seq<DynamicModel>,
                                              limits: seq<Option<AxisLimits>>, fuel: nat,
                                              ps: seq<Spline>, t: Triple<real>)
    returns (m': Triple<real>)
    requires MoveInputs(ops, source, delta, models, limits) && distance > 0.0 && Positive(m)
    requires |ps| == |delta| && forall i :: 0 <= i < |ps| ==> ps[i].Valid() && Increasing(ps[i].knots)
    requires forall c :: 0.0 <= Get(t, c) <= 1.0
    requires Rescaled(ops, m, t).Some?
    requires Continued(ops, source, delta, distance, m, models, limits, fuel, ps, t).Success?
    ensures Settled(ops, source, delta, distance, m, m', models, limits,
                    Continued(ops, source, delta, distance, m, models, limits, fuel, ps, t).value)
    decreases fuel, 0
  {
    RescaledSpec(ops, m, t);
    ContinuedCases(ops, source, delta, distance, m, models, limits, fuel, ps, t);
    var next := Rescaled(ops, m, t).value;
    var g: nat := fuel - 1;
    ContinuedResumes(ops, source, delta, distance, m, next, models, limits, fuel, g, ps, t);
    var rec := Synthesized(ops, source, delta, distance, next, models, limits, g);
    m' := SynthesizedSettles(ops, source, delta, distance, next, models, limits, g);
    SettledCarries(ops, source, delta, distance, m, next, m', models, limits, rec.value);
  }

  /** When no factor of the first round binds, the synthesis settles at m itself. */
  lemma SettlesUnthrottled(ops: RealOps, source: seq<real>, delta: seq<real>, distance: real,
                           m: Triple<real>, models: seq<DynamicModel>,
                           limits: seq<Option<AxisLimits>>, fuel: nat)
    requires MoveInputs(ops, source, delta, models, limits) && distance > 0.0 && Positive(m)
    requires Synthesized(ops, source, delta, distance, m, models, limits, fuel).Success?
    requires var st := Stage(ops, source, delta, distance, m, models, limits, 1);
             st.Success? && Rescaled(ops, m, st.value.1).None?
    ensures Settled(ops, source, delta, distance, m, m, models, limits,
                    Synthesized(ops, source, delta, distance, m, models, limits, fuel).value)
  {
    SynthesizedStage(ops, source, delta, distance, m, models, limits, fuel);
    var st := Stage(ops, source, delta, distance, m, models, limits, 1).value;
    RescaledSpec(ops, m, st.1);
    ContinuedCases(ops, source, delta, distance, m, models, limits, fuel, st.0, st.1);
    SettledHere(ops, source, delta, distance, m, models, limits, st.0, st.1);
  }

  /** No factor binds: the harmonized curves of m settle at m. */
  lemma SettledHere(ops: RealOps, source: seq<real>, delta: seq<real>, distance: real, m: Triple<real>,
                    models: seq<DynamicModel>, limits: seq<Option<AxisLimits>>, ps: seq<Spline>, t: Triple<real>)
    requires MoveInputs(ops, source, delta, models, limits) && distance > 0.0 && Positive(m)
    requires Stage(ops, source, delta, distance, m, models, limits, 1) == Success((ps, t))
    requires forall c :: Get(t, c) >= 1.0 - Eps
    ensures Settled(ops, source, delta, distance, m, m, models, limits, Harmonized(ps))
  {
    HarmonizedSpec(ps);
  }

  /** Settling at m' from rescaled maxima no larger than m is settling from m, and
      harmonizing the knots keeps it. */
  lemma SettledCarries(ops: RealOps, source: seq<real>, delta: seq<real>, distance: real, m: Triple<real>,
                       next: Triple<real>, m': Triple<real>, models: seq<DynamicModel>,
                       limits: seq<Option<AxisLimits>>, rec: seq<Spline>)
    requires MoveInputs(ops, source, delta, models, limits) && distance > 0.0
    requires next.speed <= m.speed && next.accel <= m.accel && next.jerk <= m.jerk
    requires Settled(ops, source, delta, distance, next, m', models, limits, rec)
    requires forall i :: 0 <= i < |rec| ==> rec[i].Valid() && Increasing(rec[i].knots)
    ensures Settled(ops, source, delta, distance, m, m', models, limits, Harmonized(rec))
  {
    HarmonizedSpec(rec);
  }
}
