/** move.py: `generate_move`, which turns a straight move from `source` to `destination`
    into one curve per machine axis (position over time). The arc-length acceleration is
    the S-curve profile; each axis scales it by its share of the distance and applies the
    correction of its dynamic model; axis limits throttle jerk, then acceleration, then
    speed by re-synthesizing the move; the curves finally share one knot list.

    The functions below give the result as values (`Spline`); the methods run the same
    steps on `Curve` objects, as `generate_move` does, and are proved against them. */
module Move {
  import opened Base
  import opened Polynomials
  import opened Splines
  import opened SplineKnots
  import opened SplineCompose
  import opened SplineRange
  import MotionProfiles
  import opened Curves
  import opened CurveOps

  /** Python's `math.tau`, the double closest to 2 pi. */
  const Tau: real := 6.283185307179586

  /** The tolerance below 1 under which a throttle factor counts as binding. */
  const Eps: real := 0.0001

  // ---------------------------------------------------------------------------
  // The records

  /** The per-axis `dynamic_model` entry: one of the three parameter records, or anything
      else (such as `None`), which applies no correction. */
  datatype DynamicModel =
    | Uncorrected
    | SpringDamper(fN: real, zeta: real)
    | AsymmetricSpringDamper(fNPositive: real, fNNegative: real, zeta: real)
    | PressureAdvance(k: real)

  /** Three numbers, one each for speed, acceleration and jerk: the kinematic maxima of a
      move, the throttle factors, an axis's limits (`axis_limits`, `PosInf` when unset). */
  datatype Triple<T> = Triple(speed: T, accel: T, jerk: T)

  datatype Component = Speed | Accel | Jerk

  function Get<T>(t: Triple<T>, c: Component): T {
    match c
    case Speed => t.speed
    case Accel => t.accel
    case Jerk => t.jerk
  }

  type AxisLimits = Triple<Ext>

  /** A limit is a positive number or unset. */
  predicate PositiveLimit(l: Ext) {
    l.PosInf? || (l.Fin? && l.r > 0.0)
  }

  predicate PositiveLimits(l: AxisLimits) {
    PositiveLimit(l.speed) && PositiveLimit(l.accel) && PositiveLimit(l.jerk)
  }

  predicate Positive(m: Triple<real>) {
    m.speed > 0.0 && m.accel > 0.0 && m.jerk > 0.0
  }

  predicate AllValid(ps: seq<Spline>) {
    forall i :: 0 <= i < |ps| ==> ps[i].Valid()
  }

  /** What `generate_move` needs of its arguments: exact square roots, a delta as long as
      the source point, a dynamic model for every axis, no more limit entries than axes, and
      every set limit positive. */
  ghost predicate MoveInputs(ops: RealOps, source: seq<real>, delta: seq<real>, models: seq<DynamicModel>,
                             limits: seq<Option<AxisLimits>>) {
    ops.Lawful() && |delta| == |source| && |delta| <= |models| && |limits| <= |delta| &&
    forall j :: 0 <= j < |limits| && limits[j].Some? ==> PositiveLimits(limits[j].value)
  }

  // ---------------------------------------------------------------------------
  // The distance

  function SumOfSquares(v: seq<real>): (r: real)
    ensures r >= 0.0
    ensures r == 0.0 <==> forall i :: 0 <= i < |v| ==> v[i] == 0.0
  {
    if |v| == 0 then 0.0
    else
      var n := |v| - 1;
      var rest := SumOfSquares(v[..n]);
      assert forall i :: 0 <= i < n ==> v[..n][i] == v[i];
      SquareSum(rest, v[n]);
      rest + v[n] * v[n]
  }

  lemma SquarePositive(x: real)
    requires x != 0.0
    ensures x * x > 0.0
  {
    if x < 0.0 {
      NegativeSquare(x);
    }
  }

  lemma NegativeSquare(x: real)
    requires x < 0.0
    ensures x * x > 0.0
  {
  }

  /** Adding a square to a non-negative sum keeps it non-negative, and the total is zero
      only when both parts are. */
  lemma SquareSum(rest: real, x: real)
    requires rest >= 0.0
    ensures rest + x * x >= 0.0
    ensures rest + x * x == 0.0 <==> rest == 0.0 && x == 0.0
  {
    if x == 0.0 {
      calc { rest + x * x; == rest + 0.0 * 0.0; == rest; }
    } else {
      SquarePositive(x);
      calc { rest + x * x; > rest; >= 0.0; }
    }
  }

  /** `np.linalg.norm`: the square root of the sum of squares. */
  function Norm(ops: RealOps, v: seq<real>): real {
    ops.sqrt(SumOfSquares(v))
  }

  /** `destination - source`, component by component. */
  function Delta(source: seq<real>, destination: seq<real>): (r: seq<real>)
    requires |source| == |destination|
    ensures |r| == |source| && forall i :: 0 <= i < |r| ==> r[i] == destination[i] - source[i]
  {
    seq(|source|, i requires 0 <= i < |source| => destination[i] - source[i])
  }

  /** The length of the XYZ part of the delta, or of the whole delta when the XYZ part is
      zero (a move of the other axes only). */
  function Distance(ops: RealOps, delta: seq<real>): real {
    var xyz := Norm(ops, delta[..if |delta| < 3 then |delta| else 3]);
    if xyz == 0.0 then Norm(ops, delta) else xyz
  }

  /** A lawful root is zero exactly at zero. */
  lemma RootZero(ops: RealOps, x: real)
    requires ops.Lawful() && x >= 0.0
    ensures ops.sqrt(x) >= 0.0 && (ops.sqrt(x) == 0.0 <==> x == 0.0)
  {
    var s := ops.sqrt(x);
    assert s >= 0.0 && s * s == x;
    if s == 0.0 {
      calc { x; == s * s; == 0.0 * 0.0; == 0.0; }
    } else {
      SquarePositive(s);
      calc { x; == s * s; > 0.0; }
    }
  }

  /** The distance is never negative, and zero exactly when source and destination
      agree in every coordinate. */
  lemma DistanceSpec(ops: RealOps, delta: seq<real>)
    requires ops.Lawful()
    ensures Distance(ops, delta) >= 0.0
    ensures Distance(ops, delta) == 0.0 <==> forall i :: 0 <= i < |delta| ==> delta[i] == 0.0
  {
    var xyz := delta[..if |delta| < 3 then |delta| else 3];
    RootZero(ops, SumOfSquares(xyz));
    RootZero(ops, SumOfSquares(delta));
    if Norm(ops, xyz) != 0.0 {
      var i :| 0 <= i < |xyz| && xyz[i] != 0.0;
      assert delta[i] != 0.0;
    }
  }

  // ---------------------------------------------------------------------------
  // The arc-length curves

  /** The acceleration, speed and position along the path. */
  datatype Arc = Arc(accel: Spline, speed: Spline, position: Spline)

  /** The speed is the integral of the acceleration and the position that of the speed,
      over strictly increasing knots. */
  predicate ArcShaped(arc: Arc) {
    arc.accel.Valid() && Increasing(arc.accel.knots) && |arc.accel.knots| > 0 &&
    arc.speed == Integrated(arc.accel) && arc.position == Integrated(arc.speed)
  }

  /** `s_curve_profile` and its two integrals, for a positive distance. */
  function ArcOf(ops: RealOps, distance: real, m: Triple<real>): (arc: Arc)
    requires ops.Lawful() && distance > 0.0 && Positive(m)
    ensures ArcShaped(arc)
    ensures arc.accel == MotionProfiles.Profile(ops, distance, m.speed, m.accel, m.jerk)
  {
    MotionProfiles.BreakpointsShape(ops, distance, m.speed, m.accel, m.jerk);
    var a := MotionProfiles.Profile(ops, distance, m.speed, m.accel, m.jerk);
    var v := Integrated(a);
    Arc(a, v, Integrated(v))
  }

  // ---------------------------------------------------------------------------
  // One axis

  /** The position of an axis whose share of the distance is k, before its offset: the
      arc position scaled by k and corrected by the axis's dynamic model. Only the
      asymmetric model can fail: a zero frequency on one side is raised to the power -2,
      or the composition needs roots the finder does not provide. */
  function Corrected(ops: RealOps, arc: Arc, k: real, model: DynamicModel): (r: Result<Spline>)
    requires ops.Lawful() && ArcShaped(arc)
    ensures r.Success? ==> r.value.Valid() && Increasing(r.value.knots)
    ensures r.Failure? ==> model.AsymmetricSpringDamper?
  {
    var position := Scaled(arc.position, k);
    match model
    case Uncorrected => Success(position)
    case SpringDamper(fN, zeta) =>
      if fN * Tau > 0.0 then Success(SpringDamped(arc, k, fN * Tau, zeta)) else Success(position)
    case AsymmetricSpringDamper(fNPositive, fNNegative, zeta) =>
      var omegaPos := fNPositive * Tau;
      var omegaNeg := fNNegative * Tau;
      if omegaPos > 0.0 || omegaNeg > 0.0 then AsymmetricDamped(ops, arc, k, omegaPos, omegaNeg, zeta)
      else Success(position)
    case PressureAdvance(kPa) =>
      if kPa > 0.0 then Success(Advanced(arc, k, kPa)) else Success(position)
  }

  /** `arc_position*k + arc_acceleration*(k omega^-2) + arc_speed*(k 2 zeta omega^-1)`. */
  function SpringDamped(arc: Arc, k: real, omega: real, zeta: real): (r: Spline)
    requires ArcShaped(arc) && omega > 0.0
    ensures r.Valid() && Increasing(r.knots)
  {
    var position := Scaled(arc.position, k);
    var a := Scaled(arc.accel, k * (1.0 / (omega * omega)));
    var b := Scaled(arc.speed, k * 2.0 * zeta * (1.0 / omega));
    PlusSpec(a, b);
    var correction := Plus(a, b);
    PlusSpec(position, correction);
    Plus(position, correction)
  }

  /** The corrected acceleration `arc_acceleration*k + arc_speed*(k b/m)` the asymmetric
      model feeds through its kinked stiffness. */
  function AsymmetricInput(arc: Arc, k: real, bDivM: real): (g: Spline)
    requires ArcShaped(arc)
    ensures g.Valid() && g.knots == arc.accel.knots
  {
    var a := Scaled(arc.accel, k);
    var b := Scaled(arc.speed, k * bDivM);
    Plus(a, b)
  }

  /** With a positive frequency on either side, the asymmetric model applies its correction. */
  lemma CorrectedAsymmetric(ops: RealOps, arc: Arc, k: real, model: DynamicModel)
    requires ops.Lawful() && ArcShaped(arc) && model.AsymmetricSpringDamper?
    requires model.fNPositive * Tau > 0.0 || model.fNNegative * Tau > 0.0
    ensures Corrected(ops, arc, k, model)
            == AsymmetricDamped(ops, arc, k, model.fNPositive * Tau, model.fNNegative * Tau, model.zeta)
  {
  }

  /** `arc_position*k + composite(kinked_line(omega_neg^-2, omega_pos^-2), g)`; a zero
      frequency on either side is the ZeroDivisionError of `0.0 ** -2`. */
  function AsymmetricDamped(ops: RealOps, arc: Arc, k: real, omegaPos: real, omegaNeg: real, zeta: real)
    : (r: Result<Spline>)
    requires ops.Lawful() && ArcShaped(arc)
    ensures r.Success? ==> r.value.Valid() && Increasing(r.value.knots)
  {
    if omegaNeg == 0.0 || omegaPos == 0.0 then Failure(ZeroDivision)
    else
      var kink := KinkedLine(1.0 / (omegaNeg * omegaNeg), 1.0 / (omegaPos * omegaPos));
      var g := AsymmetricInput(arc, k, zeta * (omegaPos + omegaNeg));
      KinkedPlus(ops, Scaled(arc.position, k), kink, g)
  }

  /** The asymmetric correction with b/m computed beforehand. */
  lemma AsymmetricDampedIs(ops: RealOps, arc: Arc, k: real, omegaPos: real, omegaNeg: real, zeta: real, bDivM: real)
    requires ops.Lawful() && ArcShaped(arc) && omegaNeg != 0.0 && omegaPos != 0.0 && bDivM == zeta * (omegaPos + omegaNeg)
    ensures AsymmetricDamped(ops, arc, k, omegaPos, omegaNeg, zeta)
            == KinkedPlus(ops, Scaled(arc.position, k), KinkedLine(1.0 / (omegaNeg * omegaNeg), 1.0 / (omegaPos * omegaPos)),
                          AsymmetricInput(arc, k, bDivM))
  {
    assert AsymmetricInput(arc, k, zeta * (omegaPos + omegaNeg)) == AsymmetricInput(arc, k, bDivM);
  }

  /** `position + composite(kink, g)`, or the failure of the composition. */
  function KinkedPlus(ops: RealOps, position: Spline, kink: Spline, g: Spline): (r: Result<Spline>)
    requires ops.Lawful() && position.Valid() && Increasing(position.knots)
    requires kink.Valid() && g.Valid() && Increasing(g.knots)
    ensures r.Success? ==> r.value.Valid() && Increasing(r.value.knots)
  {
    var correction :- Composed(ops, kink, g);
    ComposedKnots(ops, kink, g);
    PlusSpec(position, correction);
    Success(Plus(position, correction))
  }

  /** Pressure advance: the integral of `arc_speed*k + arc_acceleration*(k K)`. */
  function Advanced(arc: Arc, k: real, kPa: real): (r: Spline)
    requires ArcShaped(arc)
    ensures r.Valid() && Increasing(r.knots)
  {
    var a := Scaled(arc.speed, k);
    var b := Scaled(arc.accel, k * kPa);
    Integrated(Plus(a, b))
  }

  /** The curve the loop appends for one axis: the corrected position plus the axis's
      start coordinate. */
  function AxisPosition(ops: RealOps, arc: Arc, k: real, model: DynamicModel, offset: real): (r: Result<Spline>)
    requires ops.Lawful() && ArcShaped(arc)
    ensures r.Success? ==> r.value.Valid() && Increasing(r.value.knots)
    ensures r.Failure? ==> model.AsymmetricSpringDamper?
  {
    var p :- Corrected(ops, arc, k, model);
    Success(PlusConstant(p, offset))
  }

  /** Where the model applies no correction (no model, or a frequency or gain that is not
      positive), the axis follows the arc position scaled by its share k. */
  predicate Uncorrecting(model: DynamicModel) {
    match model
    case Uncorrected => true
    case SpringDamper(fN, _) => fN * Tau <= 0.0
    case AsymmetricSpringDamper(fP, fN, _) => fP * Tau <= 0.0 && fN * Tau <= 0.0
    case PressureAdvance(kPa) => kPa <= 0.0
  }

  /** Without correction the axis is the scaled arc position. */
  lemma UncorrectedAt(ops: RealOps, arc: Arc, k: real, model: DynamicModel, x: real)
    requires ops.Lawful() && ArcShaped(arc) && Uncorrecting(model)
    ensures Corrected(ops, arc, k, model) == Success(Scaled(arc.position, k))
    ensures At(Corrected(ops, arc, k, model).value, x) == k * At(arc.position, x)
  {
  }

  /** The spring-damper correction: with omega = 2 pi f_n > 0 the axis is
      k p(x) + k/omega^2 a(x) + 2 zeta k/omega v(x), for the arc's position p, speed v and
      acceleration a. */
  lemma SpringDamperAt(arc: Arc, k: real, omega: real, zeta: real, x: real)
    requires ArcShaped(arc) && omega > 0.0
    ensures At(SpringDamped(arc, k, omega, zeta), x) ==
              k * At(arc.position, x) + k * (1.0 / (omega * omega)) * At(arc.accel, x) +
              k * 2.0 * zeta * (1.0 / omega) * At(arc.speed, x)
  {
    var position := Scaled(arc.position, k);
    var a := Scaled(arc.accel, k * (1.0 / (omega * omega)));
    var b := Scaled(arc.speed, k * 2.0 * zeta * (1.0 / omega));
    PlusSpec(a, b);
    PlusSpec(position, Plus(a, b));
    assert At(Plus(position, Plus(a, b)), x) == At(position, x) + (At(a, x) + At(b, x));
  }

  /** The input of the kinked stiffness is k a(x) + k b/m v(x). */
  lemma AsymmetricInputAt(arc: Arc, k: real, bDivM: real, x: real)
    requires ArcShaped(arc)
    ensures At(AsymmetricInput(arc, k, bDivM), x) == k * At(arc.accel, x) + k * bDivM * At(arc.speed, x)
  {
    PlusSpec(Scaled(arc.accel, k), Scaled(arc.speed, k * bDivM));
  }

  /** The asymmetric correction: a zero frequency on either side fails with
      ZeroDivisionError; a successful composition adds c g(x) to k p(x), where g is the
      input above and c is the stiffness slope 1/omega^2 of one of the two sides: the
      negative side's where g(x) < 0 and the positive side's where g(x) > 0, as long as
      the root finder sees g's pieces exactly. */
  lemma AsymmetricAt(ops: RealOps, arc: Arc, k: real, omegaPos: real, omegaNeg: real, zeta: real, x: real)
    returns (c: real)
    requires ops.Lawful() && ArcShaped(arc)
    ensures (omegaPos == 0.0 || omegaNeg == 0.0) ==>
              AsymmetricDamped(ops, arc, k, omegaPos, omegaNeg, zeta) == Failure(ZeroDivision)
    ensures var r := AsymmetricDamped(ops, arc, k, omegaPos, omegaNeg, zeta);
            var g := AsymmetricInput(arc, k, zeta * (omegaPos + omegaNeg));
            r.Success? ==>
              (c == 1.0 / (omegaNeg * omegaNeg) || c == 1.0 / (omegaPos * omegaPos)) &&
              At(r.value, x) == At(Scaled(arc.position, k), x) + Eval([0.0, c], At(g, x))
    ensures var r := AsymmetricDamped(ops, arc, k, omegaPos, omegaNeg, zeta);
            var g := AsymmetricInput(arc, k, zeta * (omegaPos + omegaNeg));
            r.Success? && Exact(g) && At(g, x) != 0.0 ==>
              c == if At(g, x) < 0.0 then 1.0 / (omegaNeg * omegaNeg) else 1.0 / (omegaPos * omegaPos)
  {
    var r := AsymmetricDamped(ops, arc, k, omegaPos, omegaNeg, zeta);
    c := 0.0;
    if r.Success? {
      var cN := 1.0 / (omegaNeg * omegaNeg);
      var cP := 1.0 / (omegaPos * omegaPos);
      var g := AsymmetricInput(arc, k, zeta * (omegaPos + omegaNeg));
      var correction := Composed(ops, KinkedLine(cN, cP), g).value;
      c := KinkedComposedAt(ops, cN, cP, g, x);
      ComposedKnots(ops, KinkedLine(cN, cP), g);
      PlusSpec(Scaled(arc.position, k), correction);
    }
  }

  /** Pressure advance: the axis is the integral of the advanced speed k v + k K a, so
      its derivative is that speed at every point. */
  lemma AdvancedAt(arc: Arc, k: real, kPa: real, x: real)
    requires ArcShaped(arc)
    ensures var r := Advanced(arc, k, kPa);
            Filled(r) && At(Derived(r), x) == k * At(arc.speed, x) + k * kPa * At(arc.accel, x)
  {
    var a := Scaled(arc.speed, k);
    var b := Scaled(arc.accel, k * kPa);
    PlusSpec(a, b);
    var c := Plus(a, b);
    forall i | 0 <= i < |c.polys| ensures |c.polys[i]| > 0 {
      assert |a.polys[i]| == |arc.speed.polys[i]| == |Integral(arc.accel, i)|;
      assert c.polys[i] == Sum(a.polys[i], b.polys[i]);
    }
    DerivedIntegrated(c);
  }

  /** The axis curves one by one, axis i with share delta[i] / distance. */
  function AxisPositions(ops: RealOps, arc: Arc, source: seq<real>, delta: seq<real>, distance: real,
                         models: seq<DynamicModel>): (rs: seq<Result<Spline>>)
    requires ops.Lawful() && ArcShaped(arc) && distance != 0.0
    requires |delta| <= |source| && |delta| <= |models|
    ensures |rs| == |delta|
  {
    seq(|delta|, i requires 0 <= i < |delta| => AxisPosition(ops, arc, delta[i] / distance, models[i], source[i]))
  }

  /** The loop's list: the curves in order, or the first failure. */
  function Collect(rs: seq<Result<Spline>>, n: nat): (r: Result<seq<Spline>>)
    requires n <= |rs|
    ensures r.Success? ==> |r.value| == n
  {
    if n == 0 then Success([])
    else
      var ps :- Collect(rs, n - 1);
      var p :- rs[n - 1];
      Success(ps + [p])
  }

  /** The list is collected exactly when every entry succeeds, and then holds the
      entries' curves in order; otherwise it fails with the first failing entry. */
  lemma {:induction false} CollectSpec(rs: seq<Result<Spline>>, n: nat)
    requires n <= |rs|
    ensures Collect(rs, n).Success? <==> forall j :: 0 <= j < n ==> rs[j].Success?
    ensures Collect(rs, n).Success? ==> forall j :: 0 <= j < n ==> rs[j] == Success(Collect(rs, n).value[j])
    ensures Collect(rs, n).Failure? ==>
              exists j :: 0 <= j < n && rs[j] == Failure(Collect(rs, n).error) && forall l :: 0 <= l < j ==> rs[l].Success?
  {
    if n > 0 {
      CollectSpec(rs, n - 1);
      if Collect(rs, n - 1).Success? && rs[n - 1].Failure? {
        assert rs[n - 1] == Failure(Collect(rs, n).error);
      }
    }
  }

  /** A list whose entries all succeed is collected whole. */
  lemma CollectAll(rs: seq<Result<Spline>>, vs: seq<Spline>)
    requires |vs| == |rs| && forall j :: 0 <= j < |rs| ==> rs[j] == Success(vs[j])
    ensures Collect(rs, |rs|) == Success(vs)
  {
    CollectSpec(rs, |rs|);
    assert Collect(rs, |rs|).value == vs;
  }

  /** The first failing entry is the failure of the whole list. */
  lemma CollectFirst(rs: seq<Result<Spline>>, i: nat, n: nat)
    requires i < n <= |rs| && rs[i].Failure? && forall j :: 0 <= j < i ==> rs[j].Success?
    ensures Collect(rs, n) == Failure(rs[i].error)
  {
    CollectSpec(rs, n);
  }

  /** The axis curves of a move with the given maxima. */
  function AxisCurves(ops: RealOps, source: seq<real>, delta: seq<real>, distance: real, m: Triple<real>,
                      models: seq<DynamicModel>): (r: Result<seq<Spline>>)
    requires ops.Lawful() && distance > 0.0 && Positive(m)
    requires |delta| == |source| && |delta| <= |models|
    ensures r.Success? ==> |r.value| == |delta| &&
                           forall i :: 0 <= i < |delta| ==> r.value[i].Valid() && Increasing(r.value[i].knots)
  {
    var rs := AxisPositions(ops, ArcOf(ops, distance, m), source, delta, distance, models);
    CollectSpec(rs, |delta|);
    Collect(rs, |delta|)
  }

  // ---------------------------------------------------------------------------
  // The axis limits

  function ExtAbs(e: Ext): (r: Ext)
    ensures r != NegInf && (r.Fin? ==> r.r >= 0.0)
  {
    if e.Fin? then Fin(Abs(e.r)) else PosInf
  }

  /** `max([abs(y) for y in curve.minmax()])`. */
  function Peak(m: (Ext, Ext)): (r: Ext)
    ensures r != NegInf && (r.Fin? ==> r.r >= 0.0)
  {
    var a, b := ExtAbs(m.0), ExtAbs(m.1);
    if a.PosInf? || b.PosInf? then PosInf else Fin(Max(a.r, b.r))
  }

  /** `limit / peak` under `np.errstate(divide='ignore')`, as `min` then sees it: `None`
      when the quotient is +inf (an unset limit, a zero peak) or NaN (inf / inf), neither
      of which ever replaces the running throttle. */
  function Ratio(limit: Ext, peak: Ext): (r: Option<real>)
    requires PositiveLimit(limit) && peak != NegInf
  {
    if limit.PosInf? then None
    else if peak.PosInf? then Some(0.0)
    else if peak.r == 0.0 then None
    else Some(limit.r / peak.r)
  }

  /** A ratio is a number no smaller than zero; it is zero only for an unbounded peak,
      and otherwise times the peak gives the limit back. */
  lemma RatioSpec(limit: Ext, peak: Ext)
    requires PositiveLimit(limit) && peak != NegInf && (peak.Fin? ==> peak.r >= 0.0)
    ensures var q := Ratio(limit, peak);
            q.Some? ==> q.value >= 0.0 && limit.Fin? &&
                        (q.value == 0.0 <==> peak.PosInf?) &&
                        (peak.Fin? ==> q.value * peak.r == limit.r)
    ensures Ratio(limit, peak).None? <==> limit.PosInf? || peak == Fin(0.0)
  {
    if limit.Fin? && peak.Fin? && peak.r != 0.0 {
      var q := limit.r / peak.r;
      assert q * peak.r == limit.r;
    }
  }

  /** The three ratios of one limited axis: its curve differentiated once, twice and
      three times, the peak magnitude of each from `minmax`, and the limit over the peak.
      Differentiating an empty piece is numpy's ValueError. */
  function AxisRatios(ops: RealOps, p: Spline, l: AxisLimits): Result<Triple<Option<real>>>
    requires p.Valid() && PositiveLimits(l)
  {
    if !Filled(p) then Failure(ValueError)
    else
      var speed := Derived(p);
      DerivedFilled(p);
      var accel := Derived(speed);
      DerivedFilled(speed);
      var jerk := Derived(accel);
      DerivedFilled(accel);
      var sm :- SplineMinMax(ops, speed);
      var am :- SplineMinMax(ops, accel);
      var jm :- SplineMinMax(ops, jerk);
      Success(Triple(Ratio(l.speed, Peak(sm)), Ratio(l.accel, Peak(am)), Ratio(l.jerk, Peak(jm))))
  }

  lemma DerivedFilled(s: Spline)
    requires s.Valid() && Filled(s)
    ensures Filled(Derived(s))
  {
  }

  /** Every ratio of an axis is no smaller than zero. */
  lemma AxisRatiosNonNegative(ops: RealOps, p: Spline, l: AxisLimits)
    requires p.Valid() && PositiveLimits(l) && AxisRatios(ops, p, l).Success?
    ensures NonNegative(AxisRatios(ops, p, l).value)
  {
    var speed := Derived(p);
    var accel := Derived(speed);
    var jerk := Derived(accel);
    DerivedFilled(p);
    DerivedFilled(speed);
    DerivedFilled(accel);
    RatioSpec(l.speed, Peak(SplineMinMax(ops, speed).value));
    RatioSpec(l.accel, Peak(SplineMinMax(ops, accel).value));
    RatioSpec(l.jerk, Peak(SplineMinMax(ops, jerk).value));
  }

  predicate NonNegative(q: Triple<Option<real>>) {
    forall c :: Get(q, c).Some? ==> Get(q, c).value >= 0.0
  }

  /** One entry of `axis_limits`: the ratios of a limited axis; an entry that is `None` is
      skipped, which is what three ratios of +inf would do. */
  function EntryRatios(ops: RealOps, p: Spline, l: Option<AxisLimits>): (r: Result<Triple<Option<real>>>)
    requires p.Valid() && (l.Some? ==> PositiveLimits(l.value))
    ensures r.Success? ==> NonNegative(r.value)
  {
    if l.None? then Success(Triple(None, None, None))
    else
      var r := AxisRatios(ops, p, l.value);
      if r.Success? then AxisRatiosNonNegative(ops, p, l.value); r else r
  }

  /** The ratios of every entry of `axis_limits`, entry j with axis j. */
  function AllRatios(ops: RealOps, ps: seq<Spline>, limits: seq<Option<AxisLimits>>): (qs: seq<Result<Triple<Option<real>>>>)
    requires |limits| <= |ps| && AllValid(ps)
    requires forall j :: 0 <= j < |limits| && limits[j].Some? ==> PositiveLimits(limits[j].value)
    ensures |qs| == |limits| && forall j :: 0 <= j < |qs| && qs[j].Success? ==> NonNegative(qs[j].value)
  {
    seq(|limits|, j requires 0 <= j < |limits| => EntryRatios(ops, ps[j], limits[j]))
  }

  /** `min(throttle, ratio)`: Python's `min` keeps its first argument unless the second is
      strictly smaller, so an infinite or NaN ratio leaves the throttle alone. */
  function Tightened(t: real, q: Option<real>): real {
    if q.Some? && q.value < t then q.value else t
  }

  /** The three `min` updates of one entry. */
  function TightenedAll(t: Triple<real>, q: Triple<Option<real>>): (r: Triple<real>)
    ensures forall c :: Get(r, c) == Tightened(Get(t, c), Get(q, c))
  {
    Triple(Tightened(t.speed, q.speed), Tightened(t.accel, q.accel), Tightened(t.jerk, q.jerk))
  }

  /** The throttle loop over the first n entries' ratios: each factor starts at 1 and is
      lowered to every ratio below it; the first entry whose ratios fail stops it. */
  function Throttled(qs: seq<Result<Triple<Option<real>>>>, n: nat): Result<Triple<real>>
    requires n <= |qs|
  {
    if n == 0 then Success(Triple(1.0, 1.0, 1.0))
    else
      var t :- Throttled(qs, n - 1);
      var q :- qs[n - 1];
      Success(TightenedAll(t, q))
  }

  /** Entry j among the first n has its ratio for c equal to v. */
  predicate Sets(qs: seq<Result<Triple<Option<real>>>>, n: nat, j: int, c: Component, v: real) {
    0 <= j < n <= |qs| && qs[j].Success? && Get(qs[j].value, c) == Some(v)
  }

  /** Each throttle factor is the running minimum: between 0 and 1, no larger than any
      ratio of the entries so far, and either 1 or one of those ratios. The loop gets
      through n entries exactly when none of their ratios fails. */
  lemma {:induction false} ThrottledSpec(qs: seq<Result<Triple<Option<real>>>>, n: nat)
    requires n <= |qs| && forall j :: 0 <= j < |qs| && qs[j].Success? ==> NonNegative(qs[j].value)
    ensures Throttled(qs, n).Success? <==> forall j :: 0 <= j < n ==> qs[j].Success?
    ensures Throttled(qs, n).Success? ==>
              var t := Throttled(qs, n).value;
              && (forall c :: 0.0 <= Get(t, c) <= 1.0)
              && (forall j, c :: 0 <= j < n && Get(qs[j].value, c).Some? ==> Get(t, c) <= Get(qs[j].value, c).value)
              && (forall c :: Get(t, c) == 1.0 || exists j :: Sets(qs, n, j, c, Get(t, c)))
  {
    if n > 0 {
      ThrottledSpec(qs, n - 1);
      if Throttled(qs, n).Success? {
        var prev := Throttled(qs, n - 1).value;
        var q := qs[n - 1].value;
        var t := Throttled(qs, n).value;
        assert t == TightenedAll(prev, q);
        forall c ensures Get(t, c) == 1.0 || exists j :: Sets(qs, n, j, c, Get(t, c)) {
          if Get(t, c) != Get(prev, c) {
            assert Sets(qs, n, n - 1, c, Get(t, c));
          } else if Get(t, c) != 1.0 {
            var j :| Sets(qs, n - 1, j, c, Get(prev, c));
            assert Sets(qs, n, j, c, Get(t, c));
          }
        }
      }
    }
  }

  /** Once an entry's ratios fail, the loop ends with that failure. */
  lemma {:induction false} ThrottledStops(qs: seq<Result<Triple<Option<real>>>>, i: nat, n: nat)
    requires i <= n <= |qs| && Throttled(qs, i).Failure?
    ensures Throttled(qs, n) == Throttled(qs, i)
    decreases n
  {
    if i < n {
      ThrottledStops(qs, i, n - 1);
    }
  }

  // ---------------------------------------------------------------------------
  // The throttle rule

  /** `throttle_speed ** .25`. */
  function FourthRoot(ops: RealOps, x: real): real {
    ops.sqrt(ops.sqrt(x))
  }

  /** The maxima of the next synthesis, or `None` when no factor binds: jerk first, which
      rescales the jerk only; then acceleration, which rescales acceleration and jerk
      alike; then speed, which rescales acceleration and jerk by the factor and the speed
      by its fourth root. */
  function Rescaled(ops: RealOps, m: Triple<real>, t: Triple<real>): Option<Triple<real>> {
    if t.jerk < 1.0 - Eps then Some(Triple(m.speed, m.accel, m.jerk * t.jerk))
    else if t.accel < 1.0 - Eps then Some(Triple(m.speed, m.accel * t.accel, m.jerk * t.accel))
    else if t.speed < 1.0 - Eps then
      Some(Triple(m.speed * FourthRoot(ops, t.speed), m.accel * t.speed, m.jerk * t.speed))
    else None
  }

  /** A positive maximum times a factor in [0, 1) is smaller, and zero only for a zero
      factor; `n` is that product. */
  lemma ProductBelow(a: real, t: real, n: real)
    requires a > 0.0 && 0.0 <= t < 1.0 && n == a * t
    ensures 0.0 <= n < a && (n == 0.0 <==> t == 0.0)
  {
    if t == 0.0 {
      calc { n; == a * t; == a * 0.0; == 0.0; }
    } else {
      PositiveProduct(a, t);
      calc { n; == a * t; > 0.0; }
    }
    LessProduct(a, t);
    calc { n; == a * t; < a; }
  }

  lemma PositiveProduct(a: real, t: real)
    requires a > 0.0 && t > 0.0
    ensures a * t > 0.0
  {
  }

  lemma LessProduct(a: real, t: real)
    requires a > 0.0 && t < 1.0
    ensures a * t < a
  {
  }

  lemma FourthRootSpec(ops: RealOps, x: real)
    requires ops.Lawful() && 0.0 <= x <= 1.0
    ensures var r := FourthRoot(ops, x);
            0.0 <= r <= 1.0 && r * r * r * r == x && (r == 0.0 <==> x == 0.0)
  {
    var s := ops.sqrt(x);
    var r := ops.sqrt(s);
    RootZero(ops, x);
    RootZero(ops, s);
    assert r * r * r * r == (r * r) * (r * r);
  }

  /** No factor below 1 - eps leaves the maxima as they are; otherwise the jerk strictly
      drops, nothing grows, and the factor that binds first in the order jerk,
      acceleration, speed decides which maxima move together. */
  lemma RescaledSpec(ops: RealOps, m: Triple<real>, t: Triple<real>)
    requires ops.Lawful() && Positive(m) && forall c :: 0.0 <= Get(t, c) <= 1.0
    ensures Rescaled(ops, m, t).None? <==> forall c :: Get(t, c) >= 1.0 - Eps
    ensures var n := Rescaled(ops, m, t);
            n.Some? ==> n.value.speed <= m.speed && n.value.accel <= m.accel && 0.0 <= n.value.jerk < m.jerk &&
                        (n.value.jerk > 0.0 ==> Positive(n.value))
    ensures var n := Rescaled(ops, m, t);
            n.Some? && t.jerk < 1.0 - Eps ==> n.value.speed == m.speed && n.value.accel == m.accel
    ensures var n := Rescaled(ops, m, t);
            n.Some? && t.jerk >= 1.0 - Eps ==> n.value.accel * m.jerk == n.value.jerk * m.accel
    ensures var n := Rescaled(ops, m, t);
            n.Some? && t.jerk >= 1.0 - Eps && t.accel < 1.0 - Eps ==> n.value.speed == m.speed
    ensures var n := Rescaled(ops, m, t);
            n.Some? && t.jerk >= 1.0 - Eps && t.accel >= 1.0 - Eps ==>
              var s := n.value.speed;
              s * s * s * s * m.accel == m.speed * m.speed * m.speed * m.speed * n.value.accel
  {
    assert forall c :: Get(t, c) >= 1.0 - Eps <==> !(Get(t, c) < 1.0 - Eps);
    assert Get(t, Speed) == t.speed && Get(t, Accel) == t.accel && Get(t, Jerk) == t.jerk;
    if t.jerk < 1.0 - Eps {
      RescaledByJerk(ops, m, t);
    } else if t.accel < 1.0 - Eps {
      RescaledByAccel(ops, m, t);
    } else if t.speed < 1.0 - Eps {
      RescaledBySpeed(ops, m, t);
    }
  }

  lemma RescaledByJerk(ops: RealOps, m: Triple<real>, t: Triple<real>)
    requires Positive(m) && 0.0 <= t.jerk < 1.0 - Eps
    ensures Rescaled(ops, m, t) == Some(Triple(m.speed, m.accel, m.jerk * t.jerk))
    ensures var n := Rescaled(ops, m, t).value;
            n.speed == m.speed && n.accel == m.accel && 0.0 <= n.jerk < m.jerk && (n.jerk == 0.0 <==> t.jerk == 0.0)
  {
    var n := Rescaled(ops, m, t).value;
    assert n.jerk == m.jerk * t.jerk;
    ProductBelow(m.jerk, t.jerk, n.jerk);
  }

  lemma RescaledByAccel(ops: RealOps, m: Triple<real>, t: Triple<real>)
    requires Positive(m) && t.jerk >= 1.0 - Eps && 0.0 <= t.accel < 1.0 - Eps
    ensures Rescaled(ops, m, t) == Some(Triple(m.speed, m.accel * t.accel, m.jerk * t.accel))
    ensures var n := Rescaled(ops, m, t).value;
            n.speed == m.speed && 0.0 <= n.accel < m.accel && 0.0 <= n.jerk < m.jerk &&
            (n.jerk == 0.0 <==> t.accel == 0.0) && (n.accel == 0.0 <==> t.accel == 0.0) &&
            n.accel * m.jerk == n.jerk * m.accel
  {
    var n := Rescaled(ops, m, t).value;
    ProductBelow(m.jerk, t.accel, n.jerk);
    ProductBelow(m.accel, t.accel, n.accel);
    calc { n.accel * m.jerk; == (m.accel * t.accel) * m.jerk; == (m.jerk * t.accel) * m.accel; == n.jerk * m.accel; }
  }

  lemma RescaledBySpeed(ops: RealOps, m: Triple<real>, t: Triple<real>)
    requires ops.Lawful() && Positive(m) && t.jerk >= 1.0 - Eps && t.accel >= 1.0 - Eps && 0.0 <= t.speed < 1.0 - Eps
    ensures Rescaled(ops, m, t) == Some(Triple(m.speed * FourthRoot(ops, t.speed), m.accel * t.speed, m.jerk * t.speed))
    ensures var n := Rescaled(ops, m, t).value;
            0.0 <= n.accel < m.accel && 0.0 <= n.jerk < m.jerk &&
            (n.jerk == 0.0 <==> t.speed == 0.0) && (n.accel == 0.0 <==> t.speed == 0.0) &&
            n.accel * m.jerk == n.jerk * m.accel &&
            0.0 <= n.speed <= m.speed && (n.speed == 0.0 <==> t.speed == 0.0) &&
            n.speed * n.speed * n.speed * n.speed * m.accel == m.speed * m.speed * m.speed * m.speed * n.accel
  {
    var n := Rescaled(ops, m, t).value;
    assert n.speed == m.speed * FourthRoot(ops, t.speed);
    assert n.accel == m.accel * t.speed;
    assert n.jerk == m.jerk * t.speed;
    FourthRootSpec(ops, t.speed);
    SpeedRescale(m.speed, m.accel, m.jerk, t.speed, FourthRoot(ops, t.speed), n.speed, n.accel, n.jerk);
  }

  /** The speed rule on plain numbers: acceleration and jerk scaled by s, the speed by
      r, the fourth root of s. */
  lemma SpeedRescale(ms: real, ma: real, mj: real, s: real, r: real, ns: real, na: real, nj: real)
    requires ms > 0.0 && ma > 0.0 && mj > 0.0 && 0.0 <= s < 1.0
    requires 0.0 <= r <= 1.0 && r * r * r * r == s && (r == 0.0 <==> s == 0.0)
    requires ns == ms * r && na == ma * s && nj == mj * s
    ensures 0.0 <= na < ma && 0.0 <= nj < mj && (nj == 0.0 <==> s == 0.0) && (na == 0.0 <==> s == 0.0)
    ensures na * mj == nj * ma
    ensures 0.0 <= ns <= ms && (ns == 0.0 <==> s == 0.0)
    ensures ns * ns * ns * ns * ma == ms * ms * ms * ms * na
  {
    ProductBelow(mj, s, nj);
    ProductBelow(ma, s, na);
    calc { na * mj; == (ma * s) * mj; == (mj * s) * ma; == nj * ma; }
    RootScaled(ms, r, ns);
    FourthPowerScaled(ms, r, ns, s, ma, na);
  }

  /** The speed maximum times its fourth-root factor r in [0, 1] stays within the
      maximum, and is zero only for a zero factor. */
  lemma RootScaled(a: real, r: real, n: real)
    requires a > 0.0 && 0.0 <= r <= 1.0 && n == a * r
    ensures 0.0 <= n <= a && (n == 0.0 <==> r == 0.0)
  {
    if r == 0.0 {
      calc { n; == a * r; == a * 0.0; == 0.0; }
    } else {
      PositiveProduct(a, r);
      calc { n; == a * r; > 0.0; }
    }
    calc { n; == a * r; <= a * 1.0; == a; }
  }

  /** With s = a r, r^4 = x and nb = b x: s^4 b = a^4 nb. */
  lemma FourthPowerScaled(a: real, r: real, s: real, x: real, b: real, nb: real)
    requires s == a * r && r * r * r * r == x && nb == b * x
    ensures s * s * s * s * b == a * a * a * a * nb
  {
    calc {
      s * s * s * s * b;
      == (a * r) * (a * r) * (a * r) * (a * r) * b;
      == a * a * a * a * ((r * r * r * r) * b);
      == a * a * a * a * (x * b);
      == a * a * a * a * nb;
    }
  }

  // ---------------------------------------------------------------------------
  // The move

  /** One synthesis with maxima m and the re-syntheses the throttle rule asks for, at most
      fuel of them. A rescaled jerk of zero (a factor of zero, which positive limits do
      not give) makes `s_curve_profile` divide by a numpy zero: the times become inf, the
      peak acceleration nan, and its `assert peak_accel <= max_accel` fails. */
  function Synthesized(ops: RealOps, source: seq<real>, delta: seq<real>, distance: real, m: Triple<real>,
                       models: seq<DynamicModel>, limits: seq<Option<AxisLimits>>, fuel: nat): (r: Result<seq<Spline>>)
    requires MoveInputs(ops, source, delta, models, limits) && distance > 0.0 && Positive(m)
    ensures r.Success? ==> |r.value| == |delta| && SameKnots(r.value) &&
                           forall i :: 0 <= i < |r.value| ==> r.value[i].Valid() && Increasing(r.value[i].knots)
    decreases fuel, 1
  {
    var st :- Stage(ops, source, delta, distance, m, models, limits, 1);
    Continued(ops, source, delta, distance, m, models, limits, fuel, st.0, st.1)
  }

  /** One round of the synthesis up to the throttle loop: the axis curves and the throttle
      factors, reached once `stage` counts down to zero. The count only defers the
      expansion: the verifier unfolds a recursive function one level per use, so proofs
      about the rounds that follow see a round through this contract, and the corrections
      and derivative ranges inside it are expanded only where `StageOf` is called. */
  function Stage(ops: RealOps, source: seq<real>, delta: seq<real>, distance: real, m: Triple<real>,
                 models: seq<DynamicModel>, limits: seq<Option<AxisLimits>>, stage: nat)
    : (r: Result<(seq<Spline>, Triple<real>)>)
    requires MoveInputs(ops, source, delta, models, limits) && distance > 0.0 && Positive(m)
    ensures r.Success? ==> |r.value.0| == |delta| &&
                           (forall i :: 0 <= i < |delta| ==> r.value.0[i].Valid() && Increasing(r.value.0[i].knots)) &&
                           forall c :: 0.0 <= Get(r.value.1, c) <= 1.0
    decreases stage
  {
    if stage > 0 then Stage(ops, source, delta, distance, m, models, limits, stage - 1)
    else
      var ps :- AxisCurves(ops, source, delta, distance, m, models);
      var t :- Throttled(AllRatios(ops, ps, limits), |limits|);
      ThrottledBounds(AllRatios(ops, ps, limits), |limits|);
      Success((ps, t))
  }

  /** A round gives the axis curves and, when they are found, the throttle factors. */
  lemma StageOf(ops: RealOps, source: seq<real>, delta: seq<real>, distance: real, m: Triple<real>,
                models: seq<DynamicModel>, limits: seq<Option<AxisLimits>>)
    requires MoveInputs(ops, source, delta, models, limits) && distance > 0.0 && Positive(m)
    ensures var axes := AxisCurves(ops, source, delta, distance, m, models);
            Stage(ops, source, delta, distance, m, models, limits, 1)
            == if axes.Failure? then Failure(axes.error)
               else var t := Throttled(AllRatios(ops, axes.value, limits), |limits|);
                    if t.Failure? then Failure(t.error) else Success((axes.value, t.value))
  {
    assert Stage(ops, source, delta, distance, m, models, limits, 1)
           == Stage(ops, source, delta, distance, m, models, limits, 0);
  }

  /** What follows the throttle loop, given the axis curves ps and the factors t: the
      harmonized curves when no factor binds, otherwise the synthesis again from the
      rescaled maxima, harmonized. */
  function Continued(ops: RealOps, source: seq<real>, delta: seq<real>, distance: real, m: Triple<real>,
                     models: seq<DynamicModel>, limits: seq<Option<AxisLimits>>, fuel: nat,
                     ps: seq<Spline>, t: Triple<real>): (r: Result<seq<Spline>>)
    requires MoveInputs(ops, source, delta, models, limits) && distance > 0.0 && Positive(m)
    requires |ps| == |delta| && forall i :: 0 <= i < |ps| ==> ps[i].Valid() && Increasing(ps[i].knots)
    requires forall c :: 0.0 <= Get(t, c) <= 1.0
    ensures r.Success? ==> |r.value| == |delta| && SameKnots(r.value) &&
                           forall i :: 0 <= i < |r.value| ==> r.value[i].Valid() && Increasing(r.value[i].knots)
    decreases fuel, 0
  {
    RescaledPositive(ops, m, t);
    match Rescaled(ops, m, t)
    case None =>
      HarmonizedShape(ps);
      Success(Harmonized(ps))
    case Some(next) =>
      if next.jerk == 0.0 then Failure(AssertionFailed)
      else if fuel == 0 then Failure(NoConvergence)
      else Resumed(delta, Synthesized(ops, source, delta, distance, next, models, limits, fuel - 1))
  }

  /** The outcome of the synthesis from the rescaled maxima, its curves harmonized once
      more. */
  function Resumed(delta: seq<real>, rec: Result<seq<Spline>>): (r: Result<seq<Spline>>)
    requires rec.Success? ==> |rec.value| == |delta| &&
                              forall i :: 0 <= i < |rec.value| ==> rec.value[i].Valid() && Increasing(rec.value[i].knots)
    ensures r.Success? ==> |r.value| == |delta| && SameKnots(r.value) &&
                           forall i :: 0 <= i < |r.value| ==> r.value[i].Valid() && Increasing(r.value[i].knots)
    ensures r.Success? <==> rec.Success?
    ensures rec.Success? ==> r.value == Harmonized(rec.value)
    ensures rec.Failure? ==> r.error == rec.error
  {
    var ps :- rec;
    HarmonizedShape(ps);
    Success(Harmonized(ps))
  }

  /** A synthesis whose axis curves and throttle factors are known goes on as `Continued`. */
  lemma SynthesizedOnce(ops: RealOps, source: seq<real>, delta: seq<real>, distance: real, m: Triple<real>,
                        models: seq<DynamicModel>, limits: seq<Option<AxisLimits>>, fuel: nat,
                        ps: seq<Spline>, t: Triple<real>)
    requires MoveInputs(ops, source, delta, models, limits) && distance > 0.0 && Positive(m)
    requires AxisCurves(ops, source, delta, distance, m, models) == Success(ps)
    requires Throttled(AllRatios(ops, ps, limits), |limits|) == Success(t)
    ensures forall c :: 0.0 <= Get(t, c) <= 1.0
    ensures Synthesized(ops, source, delta, distance, m, models, limits, fuel)
            == Continued(ops, source, delta, distance, m, models, limits, fuel, ps, t)
  {
    ThrottledBounds(AllRatios(ops, ps, limits), |limits|);
  }

  /** No binding factor gives the harmonized curves, a zero jerk or spent fuel a failure. */
  lemma ContinuedCases(ops: RealOps, source: seq<real>, delta: seq<real>, distance: real, m: Triple<real>,
                       models: seq<DynamicModel>, limits: seq<Option<AxisLimits>>, fuel: nat,
                       ps: seq<Spline>, t: Triple<real>)
    requires MoveInputs(ops, source, delta, models, limits) && distance > 0.0 && Positive(m)
    requires |ps| == |delta| && forall i :: 0 <= i < |ps| ==> ps[i].Valid() && Increasing(ps[i].knots)
    requires forall c :: 0.0 <= Get(t, c) <= 1.0
    ensures Rescaled(ops, m, t).None? ==>
              Continued(ops, source, delta, distance, m, models, limits, fuel, ps, t) == Success(Harmonized(ps))
    ensures Rescaled(ops, m, t).Some? && Rescaled(ops, m, t).value.jerk == 0.0 ==>
              Continued(ops, source, delta, distance, m, models, limits, fuel, ps, t) == Failure(AssertionFailed)
    ensures Rescaled(ops, m, t).Some? && Rescaled(ops, m, t).value.jerk != 0.0 && fuel == 0 ==>
              Continued(ops, source, delta, distance, m, models, limits, fuel, ps, t) == Failure(NoConvergence)
  {
  }

  /** When a factor binds, the synthesis goes on from the rescaled maxima with one step
      less of fuel, its curves harmonized when it succeeds. */
  lemma ContinuedResumes(ops: RealOps, source: seq<real>, delta: seq<real>, distance: real, m: Triple<real>,
                         next: Triple<real>, models: seq<DynamicModel>, limits: seq<Option<AxisLimits>>,
                         fuel: nat, g: nat, ps: seq<Spline>, t: Triple<real>)
    requires MoveInputs(ops, source, delta, models, limits) && distance > 0.0 && Positive(m)
    requires |ps| == |delta| && forall i :: 0 <= i < |ps| ==> ps[i].Valid() && Increasing(ps[i].knots)
    requires forall c :: 0.0 <= Get(t, c) <= 1.0
    requires Rescaled(ops, m, t) == Some(next) && next.jerk != 0.0 && g + 1 == fuel && Positive(next)
    ensures Continued(ops, source, delta, distance, m, models, limits, fuel, ps, t)
            == Resumed(delta, Synthesized(ops, source, delta, distance, next, models, limits, g))
  {
    ContinuedRetry(ops, source, delta, distance, m, next, models, limits, g, ps, t);
  }

  /** `ContinuedResumes` with the fuel written as the remaining fuel plus one. */
  lemma ContinuedRetry(ops: RealOps, source: seq<real>, delta: seq<real>, distance: real, m: Triple<real>,
                       next: Triple<real>, models: seq<DynamicModel>, limits: seq<Option<AxisLimits>>,
                       g: nat, ps: seq<Spline>, t: Triple<real>)
    requires MoveInputs(ops, source, delta, models, limits) && distance > 0.0 && Positive(m)
    requires |ps| == |delta| && forall i :: 0 <= i < |ps| ==> ps[i].Valid() && Increasing(ps[i].knots)
    requires forall c :: 0.0 <= Get(t, c) <= 1.0
    requires Rescaled(ops, m, t) == Some(next) && next.jerk != 0.0 && Positive(next)
    ensures Continued(ops, source, delta, distance, m, models, limits, g + 1, ps, t)
            == Resumed(delta, Synthesized(ops, source, delta, distance, next, models, limits, g))
  {
  }

  /** The factors of a throttle loop that gets through lie in [0, 1]. */
  lemma ThrottledBounds(qs: seq<Result<Triple<Option<real>>>>, n: nat)
    requires n <= |qs| && forall j :: 0 <= j < |qs| && qs[j].Success? ==> NonNegative(qs[j].value)
    requires Throttled(qs, n).Success?
    ensures forall c :: 0.0 <= Get(Throttled(qs, n).value, c) <= 1.0
  {
    ThrottledSpec(qs, n);
  }

  /** Rescaled maxima with a non-zero jerk are positive. */
  lemma RescaledPositive(ops: RealOps, m: Triple<real>, t: Triple<real>)
    requires ops.Lawful() && Positive(m) && forall c :: 0.0 <= Get(t, c) <= 1.0
    ensures Rescaled(ops, m, t).Some? && Rescaled(ops, m, t).value.jerk != 0.0 ==> Positive(Rescaled(ops, m, t).value)
  {
    RescaledSpec(ops, m, t);
  }

  /** `generate_move`: `None` for a move of length zero, otherwise the axis curves. */
  function Generated(ops: RealOps, source: seq<real>, destination: seq<real>, maxSpeed: real, maxAccel: real,
                     maxJerk: real, models: seq<DynamicModel>, limits: seq<Option<AxisLimits>>, fuel: nat)
    : (r: Result<Option<seq<Spline>>>)
    requires |source| == |destination| && MoveInputs(ops, source, Delta(source, destination), models, limits)
    requires maxSpeed > 0.0 && maxAccel > 0.0 && maxJerk > 0.0
    ensures r.Success? && r.value.Some? ==>
              |r.value.value| == |source| && SameKnots(r.value.value) &&
              forall i :: 0 <= i < |source| ==> r.value.value[i].Valid() && Increasing(r.value.value[i].knots)
  {
    var delta := Delta(source, destination);
    var distance := Distance(ops, delta);
    DistanceSpec(ops, delta);
    if distance == 0.0 then Success(None)
    else
      var ps :- Synthesized(ops, source, delta, distance, Triple(maxSpeed, maxAccel, maxJerk), models, limits, fuel);
      Success(Some(ps))
  }

  /** `generate_move` gives `None` exactly when source and destination coincide. */
  lemma GeneratedNone(ops: RealOps, source: seq<real>, destination: seq<real>, maxSpeed: real, maxAccel: real,
                      maxJerk: real, models: seq<DynamicModel>, limits: seq<Option<AxisLimits>>, fuel: nat)
    requires |source| == |destination| && MoveInputs(ops, source, Delta(source, destination), models, limits)
    requires maxSpeed > 0.0 && maxAccel > 0.0 && maxJerk > 0.0
    ensures Generated(ops, source, destination, maxSpeed, maxAccel, maxJerk, models, limits, fuel) == Success(None)
            <==> source == destination
  {
    var delta := Delta(source, destination);
    DistanceSpec(ops, delta);
    if Generated(ops, source, destination, maxSpeed, maxAccel, maxJerk, models, limits, fuel) == Success(None) {
      assert Distance(ops, delta) == 0.0;
      forall i | 0 <= i < |source| ensures source[i] == destination[i] {
        assert delta[i] == 0.0;
      }
    }
  }

  /** Every limited entry's ratios succeed and none binds: each is absent or at least
      1 - eps. */
  ghost predicate WithinLimits(ops: RealOps, ps: seq<Spline>, limits: seq<Option<AxisLimits>>)
    requires |limits| <= |ps| && AllValid(ps)
    requires forall j :: 0 <= j < |limits| && limits[j].Some? ==> PositiveLimits(limits[j].value)
  {
    var qs := AllRatios(ops, ps, limits);
    forall j, c :: 0 <= j < |qs| ==> qs[j].Success? && (Get(qs[j].value, c).Some? ==> Get(qs[j].value, c).value >= 1.0 - Eps)
  }

  /** The synthesis settled on maxima m' no larger than m: the round for m' gets through
      its throttle loop with no factor below 1 - eps, and its axis curves agree at every
      point with the result. `SettledMeans` restates this through the axis curves and
      the limits. */
  ghost predicate Settled(ops: RealOps, source: seq<real>, delta: seq<real>, distance: real, m: Triple<real>,
                          m': Triple<real>, models: seq<DynamicModel>, limits: seq<Option<AxisLimits>>,
                          result: seq<Spline>)
    requires MoveInputs(ops, source, delta, models, limits) && distance > 0.0
  {
    && Positive(m') && m'.speed <= m.speed && m'.accel <= m.accel && m'.jerk <= m.jerk
    && var st := Stage(ops, source, delta, distance, m', models, limits, 1);
       && st.Success? && |result| == |st.value.0|
       && (forall i, x :: 0 <= i < |result| ==> result[i].Valid() && At(result[i], x) == At(st.value.0[i], x))
       && forall c :: Get(st.value.1, c) >= 1.0 - Eps
  }

  /** Settling at m' means: the curves of that round are the axis curves for m', and
      every limited axis's ratios for them succeed with none below 1 - eps. */
  lemma SettledMeans(ops: RealOps, source: seq<real>, delta: seq<real>, distance: real, m: Triple<real>,
                     m': Triple<real>, models: seq<DynamicModel>, limits: seq<Option<AxisLimits>>,
                     result: seq<Spline>)
    requires MoveInputs(ops, source, delta, models, limits) && distance > 0.0
    requires Settled(ops, source, delta, distance, m, m', models, limits, result)
    ensures var ps := Stage(ops, source, delta, distance, m', models, limits, 1).value.0;
            AxisCurves(ops, source, delta, distance, m', models) == Success(ps) && WithinLimits(ops, ps, limits)
  {
    StageOf(ops, source, delta, distance, m', models, limits);
    var st := Stage(ops, source, delta, distance, m', models, limits, 1).value;
    UnthrottledWithin(ops, st.0, limits, st.1);
  }

  /** Some maxima no larger than m settle on the result. */
  ghost predicate SettledBelow(ops: RealOps, source: seq<real>, delta: seq<real>, distance: real, m: Triple<real>,
                               models: seq<DynamicModel>, limits: seq<Option<AxisLimits>>, result: seq<Spline>)
    requires MoveInputs(ops, source, delta, models, limits) && distance > 0.0
  {
    exists m' :: Settled(ops, source, delta, distance, m, m', models, limits, result)
  }

  /** The one synthesis that passes the throttle rule is within the limits. */
  lemma UnthrottledWithin(ops: RealOps, ps: seq<Spline>, limits: seq<Option<AxisLimits>>, t: Triple<real>)
    requires |limits| <= |ps| && AllValid(ps)
    requires forall j :: 0 <= j < |limits| && limits[j].Some? ==> PositiveLimits(limits[j].value)
    requires Throttled(AllRatios(ops, ps, limits), |limits|) == Success(t)
    requires forall c :: Get(t, c) >= 1.0 - Eps
    ensures WithinLimits(ops, ps, limits)
  {
    var qs := AllRatios(ops, ps, limits);
    ThrottledSpec(qs, |limits|);
    forall j, c | 0 <= j < |qs|
      ensures qs[j].Success? && (Get(qs[j].value, c).Some? ==> Get(qs[j].value, c).value >= 1.0 - Eps)
    {
      assert qs[j].Success?;
      if Get(qs[j].value, c).Some? {
        assert Get(t, c) <= Get(qs[j].value, c).value;
      }
    }
  }
}
