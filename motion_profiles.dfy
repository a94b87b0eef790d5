/** motion_profiles.py: the closed-form helpers of the symmetric jerk-limited S-curve and
    `s_curve_profile`, which chooses one of four shapes of (time, acceleration) breakpoints
    and joins them by straight lines with the interpolating curve constructor. The square
    and cube roots come from `RealOps`. */
module MotionProfiles {
  import opened Base
  import opened Splines
  import Arith

  // ---------------------------------------------------------------------------
  // Closed-form helpers

  /** `s_curve_max_jerk_t(distance, jerk)`: the jerk time T of a profile of pure jerk
      (T up, 2T down, T up again) covering the distance; its first half covers
      jerk * T^3. */
  function MaxJerkTime(ops: RealOps, distance: real, jerk: real): real
    requires jerk != 0.0
  {
    ops.cbrt(distance / (2.0 * jerk))
  }

  /** `s_curve_distance_during_jerk(jerk, jerk_time)`. */
  function DistanceDuringJerk(jerk: real, jerkTime: real): real {
    jerk * (jerkTime * jerkTime * jerkTime)
  }

  /** `constant_jerk_peak_speed(jerk_time, jerk)`: the speed reached by jerk for T then
      minus jerk for T. */
  function PeakSpeed(jerkTime: real, jerk: real): real {
    jerk * (jerkTime * jerkTime)
  }

  /** `constant_jerk_time_to_max_speed(jerk, speed_to_hit)`. */
  function TimeToMaxSpeed(ops: RealOps, jerk: real, speed: real): real
    requires jerk != 0.0
  {
    ops.sqrt(speed / jerk)
  }

  /** `s_curve_half_distance(jerk, jerk_time, constant_accel_time)`: the distance covered
      up to full speed with jerk time T and a constant acceleration time c between the
      two jerk phases. */
  function HalfDistance(jerk: real, jerkTime: real, accelTime: real): real {
    jerk * jerkTime * (1.5 * (jerkTime * accelTime) + (accelTime * accelTime) / 2.0 + jerkTime * jerkTime)
  }

  /** `s_curve_time_to_half_distance(jerk, jerk_time, half_distance)`: `HalfDistance`
      solved for the constant acceleration time, plus the two jerk phases. */
  function TimeToHalfDistance(ops: RealOps, jerk: real, jerkTime: real, half: real): real
    requires jerk * jerkTime != 0.0
  {
    0.5 * (-3.0 * jerkTime + ops.sqrt((8.0 * half + jerk * (jerkTime * jerkTime * jerkTime)) / (jerk * jerkTime)))
      + 2.0 * jerkTime
  }

  /** `s_curve_time_to_max_speed(jerk, jerk_time, max_speed)`: the time to reach the
      speed with jerk time T and the acceleration jerk * T held in between. */
  function TimeToMaxSpeedAccel(jerk: real, jerkTime: real, maxSpeed: real): real
    requires jerk * jerkTime != 0.0
  {
    var maxAccel := jerk * jerkTime;
    var coastTime := (maxSpeed - maxAccel * jerkTime) / maxAccel;
    coastTime + 2.0 * jerkTime
  }

  // ---------------------------------------------------------------------------
  // The case tree of `s_curve_profile`

  /** No constant acceleration, speed cap not reached: jerk up for T, down for 2T, up
      for T. */
  function JerkOnly(jerkTime: real, jerk: real): seq<(real, real)> {
    var peakAccel := jerkTime * jerk;
    [(0.0, 0.0), (jerkTime, peakAccel), (3.0 * jerkTime, -peakAccel), (4.0 * jerkTime, 0.0)]
  }

  /** No constant acceleration, speed cap reached: the jerk time that just reaches
      max_speed, then a coast at max_speed over the distance left. */
  function JerkCoast(ops: RealOps, distance: real, maxSpeed: real, jerk: real): seq<(real, real)>
    requires jerk != 0.0 && maxSpeed != 0.0
  {
    var jerkTime := TimeToMaxSpeed(ops, jerk, maxSpeed);
    var peakAccel := jerkTime * jerk;
    var jerkDistance := DistanceDuringJerk(jerk, jerkTime);
    var coastDistance := distance - jerkDistance * 2.0;
    var coastTime := coastDistance / maxSpeed;
    JerkCoastPoints(jerkTime, coastTime, peakAccel)
  }

  /** The six breakpoints of the jerk-and-coast shape, from its jerk time, coast time
      and peak acceleration. */
  function JerkCoastPoints(t: real, c: real, peak: real): seq<(real, real)> {
    [(0.0, 0.0), (t, peak), (2.0 * t, 0.0), (2.0 * t + c, 0.0), (3.0 * t + c, -peak), (4.0 * t + c, 0.0)]
  }

  /** Constant acceleration c, no coast; the four-point shape when c is not positive. */
  function AccelNoCoast(jerkTime: real, accelTime: real, maxAccel: real): seq<(real, real)> {
    if accelTime <= 0.0 then
      [(0.0, 0.0), (jerkTime, maxAccel), (3.0 * jerkTime, -maxAccel), (4.0 * jerkTime, 0.0)]
    else
      [(0.0, 0.0), (jerkTime, maxAccel), (jerkTime + accelTime, maxAccel),
       (3.0 * jerkTime + accelTime, -maxAccel), (2.0 * accelTime + 3.0 * jerkTime, -maxAccel),
       (2.0 * accelTime + 4.0 * jerkTime, 0.0)]
  }

  /** Constant acceleration c and a coast of time s; the start and the end of the coast
      merge into one breakpoint when they coincide. */
  function AccelCoast(jerkTime: real, accelTime: real, coastTime: real, maxAccel: real): seq<(real, real)> {
    var bp := [(0.0, 0.0), (jerkTime, maxAccel), (jerkTime + accelTime, maxAccel),
               (2.0 * jerkTime + accelTime, 0.0), (coastTime + 2.0 * jerkTime + accelTime, 0.0),
               (coastTime + 3.0 * jerkTime + accelTime, -maxAccel),
               (coastTime + 2.0 * accelTime + 3.0 * jerkTime, -maxAccel),
               (coastTime + 2.0 * accelTime + 4.0 * jerkTime, 0.0)];
    if bp[4].0 == bp[3].0 then bp[..4] + bp[5..] else bp
  }

  /** With a constant acceleration phase: jerk time max_accel / jerk, then either the
      time to half the distance or, when the speed cap comes first, the time to the cap
      and a coast over the distance left. */
  function AccelPhase(ops: RealOps, distance: real, maxSpeed: real, maxAccel: real, jerk: real): seq<(real, real)>
    requires maxSpeed > 0.0 && maxAccel > 0.0 && jerk > 0.0
  {
    var jerkTime := maxAccel / jerk;
    assert jerk * jerkTime == maxAccel;
    var halfTime := TimeToHalfDistance(ops, jerk, jerkTime, distance / 2.0);
    var speedTime := TimeToMaxSpeedAccel(jerk, jerkTime, maxSpeed);
    if halfTime <= speedTime then
      AccelNoCoast(jerkTime, halfTime - 2.0 * jerkTime, maxAccel)
    else
      var accelTime := speedTime - 2.0 * jerkTime;
      var accelDistance := HalfDistance(jerk, jerkTime, accelTime);
      var coastDistance := distance - 2.0 * accelDistance;
      AccelCoast(jerkTime, accelTime, coastDistance / maxSpeed, maxAccel)
  }

  /** The test that picks a shape without constant acceleration: the pure-jerk profile
      over the whole distance, or the one that just reaches max_speed, needs no more than
      the time max_accel / jerk to reach its peak acceleration. */
  predicate NoAccelPhase(ops: RealOps, distance: real, maxSpeed: real, maxAccel: real, jerk: real)
    requires jerk != 0.0
  {
    var accelTime := maxAccel / jerk;
    MaxJerkTime(ops, distance, jerk) <= accelTime || TimeToMaxSpeed(ops, jerk, maxSpeed) <= accelTime
  }

  /** The breakpoints of `s_curve_profile`: the single point (0, 0) for no distance;
      otherwise one of the shapes above, starting at (0, 0) and ending at acceleration 0. */
  function Breakpoints(ops: RealOps, distance: real, maxSpeed: real, maxAccel: real, jerk: real): (r: seq<(real, real)>)
    requires distance >= 0.0 && maxSpeed > 0.0 && maxAccel > 0.0 && jerk > 0.0
    ensures |r| > 0 && r[0] == (0.0, 0.0) && r[|r| - 1].1 == 0.0
    ensures distance == 0.0 <==> |r| == 1
  {
    if distance == 0.0 then [(0.0, 0.0)]
    else
      var maxJerkTime := MaxJerkTime(ops, distance, jerk);
      if NoAccelPhase(ops, distance, maxSpeed, maxAccel, jerk) then
        if PeakSpeed(maxJerkTime, jerk) <= maxSpeed then JerkOnly(maxJerkTime, jerk)
        else JerkCoast(ops, distance, maxSpeed, jerk)
      else
        AccelPhase(ops, distance, maxSpeed, maxAccel, jerk)
  }

  function Times(bp: seq<(real, real)>): (r: seq<real>)
    ensures |r| == |bp| && forall i :: 0 <= i < |bp| ==> r[i] == bp[i].0
  {
    seq(|bp|, i requires 0 <= i < |bp| => bp[i].0)
  }

  function Accels(bp: seq<(real, real)>): (r: seq<real>)
    ensures |r| == |bp| && forall i :: 0 <= i < |bp| ==> r[i] == bp[i].1
  {
    seq(|bp|, i requires 0 <= i < |bp| => bp[i].1)
  }

  /** `s_curve_profile(distance, max_speed, max_accel, jerk)`: the acceleration over time,
      piecewise linear through the breakpoints. */
  function Profile(ops: RealOps, distance: real, maxSpeed: real, maxAccel: real, jerk: real): Spline
    requires distance >= 0.0 && maxSpeed > 0.0 && maxAccel > 0.0 && jerk > 0.0
  {
    var bp := Breakpoints(ops, distance, maxSpeed, maxAccel, jerk);
    Interpolation(Times(bp), Accels(bp))
  }

  // ---------------------------------------------------------------------------
  // Algebra over plain variables

  /** Between non-negative numbers, squares keep the order. */
  lemma SquareOrder(a: real, b: real)
    requires 0.0 <= a && 0.0 <= b
    ensures a < b <==> a * a < b * b
  {
    if a < b {
      assert a * (b - a) >= 0.0;
      assert b * (b - a) > 0.0;
    } else {
      assert b * (a - b) >= 0.0;
      assert a * (a - b) >= 0.0;
    }
  }

  /** Between non-negative numbers, cubes keep the order. */
  lemma CubeOrder(a: real, b: real)
    requires 0.0 <= a && 0.0 <= b
    ensures a < b <==> a * a * a < b * b * b
  {
    SquareOrder(a, b);
    if a < b {
      assert a * a * a <= a * a * b;
      assert a * a * b < b * b * b;
    } else {
      assert b * b * b <= b * b * a;
      assert b * b * a <= a * a * a;
    }
  }

  /** The roots of positive numbers are positive. */
  lemma PositiveRoots(ops: RealOps, x: real)
    requires ops.Lawful() && 0.0 < x
    ensures 0.0 < ops.sqrt(x) && ops.sqrt(x) * ops.sqrt(x) == x
    ensures 0.0 < ops.cbrt(x) && ops.cbrt(x) * ops.cbrt(x) * ops.cbrt(x) == x
  {
  }

  /** The bracket of `HalfDistance` at c = (s - 3T) / 2 is (s^2 - T^2) / 8. */
  lemma HalfBracket(t: real, s: real, c: real)
    requires c == 0.5 * (-3.0 * t + s)
    ensures 1.5 * (t * c) + (c * c) / 2.0 + t * t == (s * s - t * t) / 8.0
  {
  }

  // ---------------------------------------------------------------------------
  // The helpers are inverses of each other

  /** The pure-jerk profile of jerk time `MaxJerkTime` covers exactly the distance. */
  lemma MaxJerkTimeCovers(ops: RealOps, distance: real, jerk: real)
    requires ops.Lawful() && distance >= 0.0 && jerk > 0.0
    ensures MaxJerkTime(ops, distance, jerk) >= 0.0
    ensures 2.0 * DistanceDuringJerk(jerk, MaxJerkTime(ops, distance, jerk)) == distance
  {
    var q := distance / (2.0 * jerk);
    var t := ops.cbrt(q);
    assert t * t * t == q;
    Arith.DivMul(distance, 2.0 * jerk);
  }

  /** Jerk held for `TimeToMaxSpeed` then reversed for as long reaches exactly the speed. */
  lemma TimeToMaxSpeedReaches(ops: RealOps, jerk: real, speed: real)
    requires ops.Lawful() && speed >= 0.0 && jerk > 0.0
    ensures TimeToMaxSpeed(ops, jerk, speed) >= 0.0
    ensures PeakSpeed(TimeToMaxSpeed(ops, jerk, speed), jerk) == speed
  {
    var q := speed / jerk;
    assert ops.sqrt(q) * ops.sqrt(q) == q;
    Arith.DivMul(speed, jerk);
  }

  /** `TimeToHalfDistance` minus the two jerk phases is the constant acceleration time at
      which `HalfDistance` is the given half distance. */
  lemma TimeToHalfDistanceReaches(ops: RealOps, jerk: real, jerkTime: real, half: real)
    requires ops.Lawful() && jerk > 0.0 && jerkTime > 0.0 && half >= 0.0
    ensures HalfDistance(jerk, jerkTime, TimeToHalfDistance(ops, jerk, jerkTime, half) - 2.0 * jerkTime) == half
  {
    var jt3 := jerkTime * jerkTime * jerkTime;
    var m := jerk * jerkTime;
    assert m > 0.0;
    var big := (8.0 * half + jerk * (jerkTime * jerkTime * jerkTime)) / (jerk * jerkTime);
    Arith.DivMul(8.0 * half + jerk * jt3, m);
    assert big >= 0.0;
    var s := ops.sqrt(big);
    var c := 0.5 * (-3.0 * jerkTime + s);
    assert TimeToHalfDistance(ops, jerk, jerkTime, half) - 2.0 * jerkTime == c;
    HalfBracket(jerkTime, s, c);
    assert s * s == big;
    calc {
      HalfDistance(jerk, jerkTime, c);
      m * ((big - jerkTime * jerkTime) / 8.0);
      (m * big - m * (jerkTime * jerkTime)) / 8.0;
      (8.0 * half + jerk * jt3 - jerk * jt3) / 8.0;
      half;
    }
  }

  /** Multiplying by a positive factor keeps the order. */
  lemma MulLess(k: real, x: real, y: real)
    requires k > 0.0
    ensures x < y <==> k * x < k * y
    ensures x <= y <==> k * x <= k * y
  {
    if x < y {
      assert k * (y - x) > 0.0;
    } else {
      assert k * (x - y) >= 0.0;
    }
  }

  /** Larger constant acceleration times cover more distance. */
  lemma HalfDistanceGrows(jerk: real, jerkTime: real, c1: real, c2: real)
    requires jerk > 0.0 && jerkTime > 0.0 && 0.0 <= c1 < c2
    ensures HalfDistance(jerk, jerkTime, c1) < HalfDistance(jerk, jerkTime, c2)
  {
    SquareOrder(c1, c2);
    var b1 := 1.5 * (jerkTime * c1) + (c1 * c1) / 2.0 + jerkTime * jerkTime;
    var b2 := 1.5 * (jerkTime * c2) + (c2 * c2) / 2.0 + jerkTime * jerkTime;
    assert jerkTime * c1 < jerkTime * c2;
    assert b1 < b2;
    var m := jerk * jerkTime;
    assert m > 0.0;
    assert m * (b2 - b1) > 0.0;
  }

  // ---------------------------------------------------------------------------
  // The facts the case tree asserts

  /** The two roots the case tree starts from: the jerk time of the pure-jerk profile over
      the whole distance and the jerk time that just reaches max_speed. */
  lemma StartingRoots(ops: RealOps, distance: real, maxSpeed: real, jerk: real)
    requires ops.Lawful() && distance > 0.0 && maxSpeed > 0.0 && jerk > 0.0
    ensures var mjt := MaxJerkTime(ops, distance, jerk);
            0.0 < mjt && 2.0 * (jerk * (mjt * mjt * mjt)) == distance
    ensures var slt := TimeToMaxSpeed(ops, jerk, maxSpeed);
            0.0 < slt && jerk * (slt * slt) == maxSpeed
  {
    PositiveRoots(ops, distance / (2.0 * jerk));
    PositiveRoots(ops, maxSpeed / jerk);
    MaxJerkTimeCovers(ops, distance, jerk);
    TimeToMaxSpeedReaches(ops, jerk, maxSpeed);
  }

  /** `JerkOnlyFits` over plain numbers: mjt and slt are the two starting roots. */
  lemma JerkOnlyAlgebra(maxSpeed: real, maxAccel: real, jerk: real, mjt: real, slt: real)
    requires maxAccel > 0.0 && jerk > 0.0 && 0.0 < mjt && 0.0 < slt
    requires jerk * (slt * slt) == maxSpeed
    requires mjt <= maxAccel / jerk || slt <= maxAccel / jerk
    requires jerk * (mjt * mjt) <= maxSpeed
    ensures mjt * jerk <= maxAccel
  {
    var tca := maxAccel / jerk;
    MulLess(jerk, mjt * mjt, slt * slt);
    SquareOrder(slt, mjt);
    Arith.DivMul(maxAccel, jerk);
    MulLess(jerk, mjt, tca);
  }

  /** Without a constant acceleration phase and below the speed cap, the pure-jerk profile
      peaks at no more than max_accel. */
  lemma JerkOnlyFits(ops: RealOps, distance: real, maxSpeed: real, maxAccel: real, jerk: real)
    requires ops.Lawful() && distance > 0.0 && maxSpeed > 0.0 && maxAccel > 0.0 && jerk > 0.0
    requires NoAccelPhase(ops, distance, maxSpeed, maxAccel, jerk)
    requires PeakSpeed(MaxJerkTime(ops, distance, jerk), jerk) <= maxSpeed
    ensures 0.0 < MaxJerkTime(ops, distance, jerk)
    ensures MaxJerkTime(ops, distance, jerk) * jerk <= maxAccel
  {
    StartingRoots(ops, distance, maxSpeed, jerk);
    JerkOnlyAlgebra(maxSpeed, maxAccel, jerk, MaxJerkTime(ops, distance, jerk), TimeToMaxSpeed(ops, jerk, maxSpeed));
  }

  /** `JerkCoastFits` over plain numbers. */
  lemma JerkCoastAlgebra(distance: real, maxSpeed: real, maxAccel: real, jerk: real, mjt: real, slt: real)
    requires maxAccel > 0.0 && jerk > 0.0 && 0.0 < mjt && 0.0 < slt
    requires 2.0 * (jerk * (mjt * mjt * mjt)) == distance && jerk * (slt * slt) == maxSpeed
    requires mjt <= maxAccel / jerk || slt <= maxAccel / jerk
    requires jerk * (mjt * mjt) > maxSpeed
    ensures slt * jerk <= maxAccel
    ensures distance - jerk * (slt * slt * slt) * 2.0 > 0.0
  {
    var tca := maxAccel / jerk;
    MulLess(jerk, slt * slt, mjt * mjt);
    SquareOrder(slt, mjt);
    Arith.DivMul(maxAccel, jerk);
    MulLess(jerk, slt, tca);
    CubeOrder(slt, mjt);
    MulLess(jerk, slt * slt * slt, mjt * mjt * mjt);
  }

  /** Without a constant acceleration phase and above the speed cap, the profile that just
      reaches max_speed peaks at no more than max_accel, and its two jerk parts leave a
      positive distance to coast (the two assertions of the speed-capped branch). */
  lemma JerkCoastFits(ops: RealOps, distance: real, maxSpeed: real, maxAccel: real, jerk: real)
    requires ops.Lawful() && distance > 0.0 && maxSpeed > 0.0 && maxAccel > 0.0 && jerk > 0.0
    requires NoAccelPhase(ops, distance, maxSpeed, maxAccel, jerk)
    requires PeakSpeed(MaxJerkTime(ops, distance, jerk), jerk) > maxSpeed
    ensures 0.0 < TimeToMaxSpeed(ops, jerk, maxSpeed)
    ensures TimeToMaxSpeed(ops, jerk, maxSpeed) * jerk <= maxAccel
    ensures distance - DistanceDuringJerk(jerk, TimeToMaxSpeed(ops, jerk, maxSpeed)) * 2.0 > 0.0
  {
    StartingRoots(ops, distance, maxSpeed, jerk);
    JerkCoastAlgebra(distance, maxSpeed, maxAccel, jerk, MaxJerkTime(ops, distance, jerk), TimeToMaxSpeed(ops, jerk, maxSpeed));
  }

  /** Below the fraction of the distance the pure-jerk profile covers up to jerk time T,
      the time to half the distance exceeds the two jerk phases. */
  lemma HalfTimeExceeds(ops: RealOps, jerk: real, jerkTime: real, distance: real)
    requires ops.Lawful() && jerk > 0.0 && jerkTime > 0.0
    requires distance > 2.0 * (jerk * (jerkTime * jerkTime * jerkTime))
    ensures jerk * jerkTime != 0.0
    ensures TimeToHalfDistance(ops, jerk, jerkTime, distance / 2.0) > 2.0 * jerkTime
  {
    var m := jerk * jerkTime;
    MulLess(jerk, 0.0, jerkTime);
    var n := 8.0 * (distance / 2.0) + jerk * (jerkTime * jerkTime * jerkTime);
    var big := n / m;
    Arith.DivMul(n, m);
    var nine := 9.0 * (jerkTime * jerkTime);
    Arith.Mul3(jerkTime, jerkTime, jerkTime * jerkTime, jerk * jerkTime);
    assert nine * m == 9.0 * (jerk * (jerkTime * jerkTime * jerkTime));
    MulLess(m, nine, big);
    var s := ops.sqrt(big);
    SquareOrder(3.0 * jerkTime, s);
  }

  /** With a constant acceleration phase the jerk time is max_accel / jerk, and both
      starting roots exceed it. */
  lemma AccelAlgebra(distance: real, maxSpeed: real, maxAccel: real, jerk: real, mjt: real, slt: real)
    requires maxAccel > 0.0 && jerk > 0.0 && 0.0 < mjt && 0.0 < slt
    requires 2.0 * (jerk * (mjt * mjt * mjt)) == distance && jerk * (slt * slt) == maxSpeed
    requires !(mjt <= maxAccel / jerk || slt <= maxAccel / jerk)
    ensures var jt := maxAccel / jerk;
            jt > 0.0 && distance > 2.0 * (jerk * (jt * jt * jt)) && maxSpeed > maxAccel * jt
  {
    var jt := maxAccel / jerk;
    Arith.DivMul(maxAccel, jerk);
    MulLess(jerk, 0.0, jt);
    CubeOrder(jt, mjt);
    MulLess(jerk, jt * jt * jt, mjt * mjt * mjt);
    SquareOrder(jt, slt);
    MulLess(jerk, jt * jt, slt * slt);
    Arith.Mul3(jerk, jt, maxAccel, jt);
  }

  /** With a constant acceleration phase, the time to half the distance exceeds the two
      jerk phases (the assertion of that branch, which holds strictly). */
  lemma AccelHalfTimeFits(ops: RealOps, distance: real, maxSpeed: real, maxAccel: real, jerk: real)
    requires ops.Lawful() && distance > 0.0 && maxSpeed > 0.0 && maxAccel > 0.0 && jerk > 0.0
    requires !NoAccelPhase(ops, distance, maxSpeed, maxAccel, jerk)
    ensures maxAccel / jerk > 0.0
    ensures TimeToHalfDistance(ops, jerk, maxAccel / jerk, distance / 2.0) > 2.0 * (maxAccel / jerk)
  {
    StartingRoots(ops, distance, maxSpeed, jerk);
    AccelAlgebra(distance, maxSpeed, maxAccel, jerk, MaxJerkTime(ops, distance, jerk), TimeToMaxSpeed(ops, jerk, maxSpeed));
    HalfTimeExceeds(ops, jerk, maxAccel / jerk, distance);
  }

  /** `TimeToMaxSpeedAccel` over plain numbers: when the jerk phases alone stay below the
      speed, some constant acceleration time is left. */
  lemma SpeedTimeAlgebra(maxSpeed: real, maxAccel: real, jerk: real, jt: real)
    requires maxAccel > 0.0 && jerk * jt == maxAccel && maxSpeed > maxAccel * jt
    ensures TimeToMaxSpeedAccel(jerk, jt, maxSpeed) > 2.0 * jt
  {
    var q := (maxSpeed - maxAccel * jt) / maxAccel;
    Arith.DivMul(maxSpeed - maxAccel * jt, maxAccel);
    MulLess(maxAccel, 0.0, q);
  }

  /** With a constant acceleration phase, the time to max_speed leaves a positive
      constant acceleration time, and when it comes before the time to half the distance
      the two acceleration parts leave a positive distance to coast. */
  lemma AccelCoastFits(ops: RealOps, distance: real, maxSpeed: real, maxAccel: real, jerk: real)
    requires ops.Lawful() && distance > 0.0 && maxSpeed > 0.0 && maxAccel > 0.0 && jerk > 0.0
    requires !NoAccelPhase(ops, distance, maxSpeed, maxAccel, jerk)
    ensures maxAccel / jerk > 0.0
    ensures TimeToMaxSpeedAccel(jerk, maxAccel / jerk, maxSpeed) > 2.0 * (maxAccel / jerk)
    ensures var jt := maxAccel / jerk;
            var speedTime := TimeToMaxSpeedAccel(jerk, jt, maxSpeed);
            TimeToHalfDistance(ops, jerk, jt, distance / 2.0) > speedTime ==>
              distance - 2.0 * HalfDistance(jerk, jt, speedTime - 2.0 * jt) > 0.0
  {
    var jt := maxAccel / jerk;
    StartingRoots(ops, distance, maxSpeed, jerk);
    AccelAlgebra(distance, maxSpeed, maxAccel, jerk, MaxJerkTime(ops, distance, jerk), TimeToMaxSpeed(ops, jerk, maxSpeed));
    Arith.DivMul(maxAccel, jerk);
    SpeedTimeAlgebra(maxSpeed, maxAccel, jerk, jt);
    var speedTime := TimeToMaxSpeedAccel(jerk, jt, maxSpeed);
    var halfTime := TimeToHalfDistance(ops, jerk, jt, distance / 2.0);
    if halfTime > speedTime {
      TimeToHalfDistanceReaches(ops, jerk, jt, distance / 2.0);
      HalfDistanceGrows(jerk, jt, speedTime - 2.0 * jt, halfTime - 2.0 * jt);
    }
  }

  // ---------------------------------------------------------------------------
  // The shape of the breakpoints

  /** Strictly increasing times, and accelerations within max_accel either way. */
  predicate Shaped(bp: seq<(real, real)>, maxAccel: real) {
    Increasing(Times(bp)) && forall i :: 0 <= i < |bp| ==> -maxAccel <= bp[i].1 <= maxAccel
  }

  /** A sequence whose neighbours increase increases. */
  lemma {:induction false} StepsIncrease(s: seq<real>)
    requires forall i :: 0 < i < |s| ==> s[i - 1] < s[i]
    ensures Increasing(s)
    decreases |s|
  {
    if |s| > 1 {
      var n := |s| - 1;
      StepsIncrease(s[..n]);
      forall i, j | 0 <= i < j < |s|
        ensures s[i] < s[j]
      {
        if j < n {
          assert s[..n][i] < s[..n][j];
        } else if i < n - 1 {
          assert s[..n][i] < s[..n][n - 1];
        }
      }
    }
  }

  lemma JerkOnlyShape(jerkTime: real, jerk: real, maxAccel: real)
    requires 0.0 < jerkTime && 0.0 < jerk && jerkTime * jerk <= maxAccel
    ensures |JerkOnly(jerkTime, jerk)| == 4 && Shaped(JerkOnly(jerkTime, jerk), maxAccel)
  {
    MulLess(jerk, 0.0, jerkTime);
    StepsIncrease(Times(JerkOnly(jerkTime, jerk)));
  }

  lemma JerkCoastShape(ops: RealOps, distance: real, maxSpeed: real, jerk: real, maxAccel: real)
    requires jerk > 0.0 && maxSpeed > 0.0
    requires 0.0 < TimeToMaxSpeed(ops, jerk, maxSpeed) && TimeToMaxSpeed(ops, jerk, maxSpeed) * jerk <= maxAccel
    requires distance - DistanceDuringJerk(jerk, TimeToMaxSpeed(ops, jerk, maxSpeed)) * 2.0 > 0.0
    ensures |JerkCoast(ops, distance, maxSpeed, jerk)| == 6 && Shaped(JerkCoast(ops, distance, maxSpeed, jerk), maxAccel)
  {
    var bp := JerkCoast(ops, distance, maxSpeed, jerk);
    var t := TimeToMaxSpeed(ops, jerk, maxSpeed);
    var p := t * jerk;
    var coastDistance := distance - DistanceDuringJerk(jerk, t) * 2.0;
    var c := coastDistance / maxSpeed;
    assert 0.0 < c by {
      MulLess(maxSpeed, 0.0, c);
      Arith.DivMul(coastDistance, maxSpeed);
    }
    JerkCoastLayout(ops, distance, maxSpeed, jerk);
    ShapeBySteps(bp, maxAccel);
  }

  /** The six breakpoints of the speed-capped pure-jerk shape, one by one. */
  lemma JerkCoastLayout(ops: RealOps, distance: real, maxSpeed: real, jerk: real)
    requires jerk > 0.0 && maxSpeed > 0.0
    ensures var bp := JerkCoast(ops, distance, maxSpeed, jerk);
            var t := TimeToMaxSpeed(ops, jerk, maxSpeed);
            var c := (distance - DistanceDuringJerk(jerk, t) * 2.0) / maxSpeed;
            && |bp| == 6 && bp[0].0 == 0.0 && bp[1].0 == t && bp[2].0 == 2.0 * t
            && bp[3].0 == 2.0 * t + c && bp[4].0 == 3.0 * t + c && bp[5].0 == 4.0 * t + c
            && bp[0].1 == 0.0 && bp[1].1 == t * jerk && bp[2].1 == 0.0
            && bp[3].1 == 0.0 && bp[4].1 == -(t * jerk) && bp[5].1 == 0.0
  {
  }

  /** Breakpoints whose times increase step by step and whose accelerations lie within
      max_accel are shaped. */
  lemma ShapeBySteps(bp: seq<(real, real)>, maxAccel: real)
    requires forall i :: 0 < i < |bp| ==> bp[i - 1].0 < bp[i].0
    requires forall i :: 0 <= i < |bp| ==> -maxAccel <= bp[i].1 <= maxAccel
    ensures Shaped(bp, maxAccel)
  {
    StepsIncrease(Times(bp));
  }

  lemma AccelNoCoastShape(jerkTime: real, accelTime: real, maxAccel: real)
    requires 0.0 < jerkTime && 0.0 < accelTime && 0.0 < maxAccel
    ensures |AccelNoCoast(jerkTime, accelTime, maxAccel)| == 6 && Shaped(AccelNoCoast(jerkTime, accelTime, maxAccel), maxAccel)
  {
    StepsIncrease(Times(AccelNoCoast(jerkTime, accelTime, maxAccel)));
  }

  lemma AccelCoastShape(jerkTime: real, accelTime: real, coastTime: real, maxAccel: real)
    requires 0.0 < jerkTime && 0.0 < accelTime && 0.0 < coastTime && 0.0 < maxAccel
    ensures |AccelCoast(jerkTime, accelTime, coastTime, maxAccel)| == 8
    ensures Shaped(AccelCoast(jerkTime, accelTime, coastTime, maxAccel), maxAccel)
  {
    StepsIncrease(Times(AccelCoast(jerkTime, accelTime, coastTime, maxAccel)));
  }

  /** With a constant acceleration phase, neither degenerate case is ever taken: the
      six-point shape when half the distance comes first, the eight-point one otherwise. */
  lemma AccelPhaseShape(ops: RealOps, distance: real, maxSpeed: real, maxAccel: real, jerk: real)
    requires ops.Lawful() && distance > 0.0 && maxSpeed > 0.0 && maxAccel > 0.0 && jerk > 0.0
    requires !NoAccelPhase(ops, distance, maxSpeed, maxAccel, jerk)
    ensures var jt := maxAccel / jerk;
            var bp := AccelPhase(ops, distance, maxSpeed, maxAccel, jerk);
            Shaped(bp, maxAccel) &&
            |bp| == (if TimeToHalfDistance(ops, jerk, jt, distance / 2.0) <= TimeToMaxSpeedAccel(jerk, jt, maxSpeed) then 6 else 8)
  {
    var jt := maxAccel / jerk;
    if TimeToHalfDistance(ops, jerk, jt, distance / 2.0) <= TimeToMaxSpeedAccel(jerk, jt, maxSpeed) {
      NoCoastBranchShape(ops, distance, maxSpeed, maxAccel, jerk);
    } else {
      CoastBranchShape(ops, distance, maxSpeed, maxAccel, jerk);
    }
  }

  /** The branch that turns back before reaching max_speed. */
  lemma NoCoastBranchShape(ops: RealOps, distance: real, maxSpeed: real, maxAccel: real, jerk: real)
    requires ops.Lawful() && distance > 0.0 && maxSpeed > 0.0 && maxAccel > 0.0 && jerk > 0.0
    requires !NoAccelPhase(ops, distance, maxSpeed, maxAccel, jerk)
    requires TimeToHalfDistance(ops, jerk, maxAccel / jerk, distance / 2.0) <= TimeToMaxSpeedAccel(jerk, maxAccel / jerk, maxSpeed)
    ensures Shaped(AccelPhase(ops, distance, maxSpeed, maxAccel, jerk), maxAccel)
    ensures |AccelPhase(ops, distance, maxSpeed, maxAccel, jerk)| == 6
  {
    var jt := maxAccel / jerk;
    var halfTime := TimeToHalfDistance(ops, jerk, jt, distance / 2.0);
    assert AccelPhase(ops, distance, maxSpeed, maxAccel, jerk) == AccelNoCoast(jt, halfTime - 2.0 * jt, maxAccel);
    assert 0.0 < jt && 0.0 < halfTime - 2.0 * jt by {
      AccelHalfTimeFits(ops, distance, maxSpeed, maxAccel, jerk);
    }
    AccelNoCoastShape(jt, halfTime - 2.0 * jt, maxAccel);
  }

  /** The branch that coasts at max_speed. */
  lemma CoastBranchShape(ops: RealOps, distance: real, maxSpeed: real, maxAccel: real, jerk: real)
    requires ops.Lawful() && distance > 0.0 && maxSpeed > 0.0 && maxAccel > 0.0 && jerk > 0.0
    requires !NoAccelPhase(ops, distance, maxSpeed, maxAccel, jerk)
    requires TimeToHalfDistance(ops, jerk, maxAccel / jerk, distance / 2.0) > TimeToMaxSpeedAccel(jerk, maxAccel / jerk, maxSpeed)
    ensures Shaped(AccelPhase(ops, distance, maxSpeed, maxAccel, jerk), maxAccel)
    ensures |AccelPhase(ops, distance, maxSpeed, maxAccel, jerk)| == 8
  {
    var jt := maxAccel / jerk;
    var speedTime := TimeToMaxSpeedAccel(jerk, jt, maxSpeed);
    var coastDistance := distance - 2.0 * HalfDistance(jerk, jt, speedTime - 2.0 * jt);
    var bp := AccelCoast(jt, speedTime - 2.0 * jt, coastDistance / maxSpeed, maxAccel);
    assert 0.0 < jt && 0.0 < speedTime - 2.0 * jt && 0.0 < coastDistance by {
      AccelCoastFits(ops, distance, maxSpeed, maxAccel, jerk);
    }
    assert 0.0 < coastDistance / maxSpeed by {
      MulLess(maxSpeed, 0.0, coastDistance / maxSpeed);
      Arith.DivMul(coastDistance, maxSpeed);
    }
    AccelCoastShape(jt, speedTime - 2.0 * jt, coastDistance / maxSpeed, maxAccel);
    assert AccelPhase(ops, distance, maxSpeed, maxAccel, jerk) == bp;
  }

  /** For a positive distance every shape has strictly increasing times and accelerations
      within max_accel; the pure-jerk shape has four breakpoints, the others six or eight. */
  lemma BreakpointsShape(ops: RealOps, distance: real, maxSpeed: real, maxAccel: real, jerk: real)
    requires ops.Lawful() && distance > 0.0 && maxSpeed > 0.0 && maxAccel > 0.0 && jerk > 0.0
    ensures var bp := Breakpoints(ops, distance, maxSpeed, maxAccel, jerk);
            Shaped(bp, maxAccel) && (|bp| == 4 || |bp| == 6 || |bp| == 8)
  {
    var mjt := MaxJerkTime(ops, distance, jerk);
    if NoAccelPhase(ops, distance, maxSpeed, maxAccel, jerk) {
      if PeakSpeed(mjt, jerk) <= maxSpeed {
        JerkOnlyFits(ops, distance, maxSpeed, maxAccel, jerk);
        JerkOnlyShape(mjt, jerk, maxAccel);
      } else {
        JerkCoastFits(ops, distance, maxSpeed, maxAccel, jerk);
        JerkCoastShape(ops, distance, maxSpeed, jerk, maxAccel);
      }
    } else {
      AccelPhaseShape(ops, distance, maxSpeed, maxAccel, jerk);
    }
  }

  // ---------------------------------------------------------------------------
  // The profile

  /** The profile passes through every breakpoint. */
  lemma ProfileAtBreakpoints(ops: RealOps, distance: real, maxSpeed: real, maxAccel: real, jerk: real, i: nat)
    requires ops.Lawful() && distance >= 0.0 && maxSpeed > 0.0 && maxAccel > 0.0 && jerk > 0.0
    requires i < |Breakpoints(ops, distance, maxSpeed, maxAccel, jerk)|
    ensures var bp := Breakpoints(ops, distance, maxSpeed, maxAccel, jerk);
            At(Profile(ops, distance, maxSpeed, maxAccel, jerk), bp[i].0) == bp[i].1
  {
    var bp := Breakpoints(ops, distance, maxSpeed, maxAccel, jerk);
    if distance > 0.0 {
      BreakpointsShape(ops, distance, maxSpeed, maxAccel, jerk);
    }
    InterpolationAtKnot(Times(bp), Accels(bp), i);
  }

  /** The acceleration is zero up to time 0 and from the last breakpoint on, and stays
      within max_accel at the breakpoints. */
  lemma ProfileEnds(ops: RealOps, distance: real, maxSpeed: real, maxAccel: real, jerk: real, t: real)
    requires ops.Lawful() && distance >= 0.0 && maxSpeed > 0.0 && maxAccel > 0.0 && jerk > 0.0
    ensures var s := Profile(ops, distance, maxSpeed, maxAccel, jerk);
            (t <= 0.0 ==> At(s, t) == 0.0) && (t >= s.knots[|s.knots| - 1] ==> At(s, t) == 0.0)
  {
    var bp := Breakpoints(ops, distance, maxSpeed, maxAccel, jerk);
    if distance > 0.0 {
      BreakpointsShape(ops, distance, maxSpeed, maxAccel, jerk);
    }
    InterpolationOutside(Times(bp), Accels(bp), t);
    if t == 0.0 {
      InterpolationAtKnot(Times(bp), Accels(bp), 0);
    }
  }

  // ---------------------------------------------------------------------------
  // Kinematics: the speed and the position the acceleration profile leads to

  /** One linear acceleration piece of length h from a0 to a1, entered at speed v and
      position x: the speed and the position at its end. */
  function Step(v: real, x: real, h: real, a0: real, a1: real): (r: (real, real)) {
    (v + h * (a0 + a1) / 2.0, x + v * h + h * h * (2.0 * a0 + a1) / 6.0)
  }

  /** The speed and the position at breakpoint n - 1, starting at rest at position 0. */
  function Motion(bp: seq<(real, real)>, n: nat): (real, real)
    requires 0 < n <= |bp|
  {
    if n == 1 then (0.0, 0.0)
    else
      var m := Motion(bp, n - 1);
      Step(m.0, m.1, bp[n - 1].0 - bp[n - 2].0, bp[n - 2].1, bp[n - 1].1)
  }

  /** Pure jerk: with peak acceleration p reached after time t, the speed climbs to
      t * p / 2 and back to 0 and the position reaches 2 * t^2 * p. */
  lemma JerkOnlySteps(t: real, p: real, m2: (real, real), m3: (real, real), m4: (real, real))
    requires m2 == Step(0.0, 0.0, t, 0.0, p)
    requires m3 == Step(m2.0, m2.1, 2.0 * t, p, -p)
    requires m4 == Step(m3.0, m3.1, t, -p, 0.0)
    ensures m4 == (0.0, 2.0 * (t * t * p))
  {
    var q := t * t * p;
    assert m2.0 == t * p / 2.0;
    assert m2.1 == q / 6.0;
    assert m3.0 == t * p / 2.0;
    assert m3.1 == q / 6.0 + q + 4.0 * q / 6.0;
    assert m4.0 == 0.0;
    assert m4.1 == m3.1 + q / 2.0 - 2.0 * q / 6.0;
    assert m4.1 == 2.0 * (t * t * p);
  }

  /** The breakpoints of that shape, as `Motion` reads them. */
  lemma JerkOnlyKinematics(bp: seq<(real, real)>, t: real, p: real)
    requires |bp| == 4 && bp[0].1 == 0.0 && bp[1].1 == p && bp[2].1 == -p && bp[3].1 == 0.0
    requires bp[1].0 - bp[0].0 == t && bp[2].0 - bp[1].0 == 2.0 * t && bp[3].0 - bp[2].0 == t
    ensures Motion(bp, 4) == (0.0, 2.0 * (t * t * p))
  {
    var m1 := Motion(bp, 1);
    assert m1 == (0.0, 0.0);
    JerkOnlySteps(t, p, Motion(bp, 2), Motion(bp, 3), Motion(bp, 4));
  }

  /** Pure jerk capped at the speed t * p, held for the coast time c: the speed returns to
      0 and the position reaches 2 * t^2 * p + t * p * c. */
  lemma JerkCoastSteps(t: real, p: real, c: real, m2: (real, real), m3: (real, real), m4: (real, real), m5: (real, real), m6: (real, real))
    requires m2 == Step(0.0, 0.0, t, 0.0, p)
    requires m3 == Step(m2.0, m2.1, t, p, 0.0)
    requires m4 == Step(m3.0, m3.1, c, 0.0, 0.0)
    requires m5 == Step(m4.0, m4.1, t, 0.0, -p)
    requires m6 == Step(m5.0, m5.1, t, -p, 0.0)
    ensures m6 == (0.0, 2.0 * (t * t * p) + t * p * c)
  {
    var q := t * t * p;
    var v := t * p;
    assert m2.0 == v / 2.0;
    assert m2.1 == q / 6.0;
    assert m3.0 == v;
    assert m3.1 == q / 6.0 + q / 2.0 + 2.0 * q / 6.0;
    assert m4.0 == v;
    assert m4.1 == q + v * c;
    assert m5.0 == v / 2.0;
    assert m5.1 == m4.1 + q - q / 6.0;
    assert m6.0 == 0.0;
    assert m6.1 == m5.1 + q / 2.0 - 2.0 * q / 6.0;
    assert m6.1 == 2.0 * q + v * c;
    assert m6.1 == 2.0 * (t * t * p) + t * p * c;
  }

  /** The breakpoints of that shape, as `Motion` reads them. */
  lemma JerkCoastKinematics(bp: seq<(real, real)>, t: real, p: real, c: real)
    requires |bp| == 6 && bp[0].1 == 0.0 && bp[1].1 == p && bp[2].1 == 0.0 && bp[3].1 == 0.0
    requires bp[4].1 == -p && bp[5].1 == 0.0
    requires bp[1].0 - bp[0].0 == t && bp[2].0 - bp[1].0 == t && bp[3].0 - bp[2].0 == c
    requires bp[4].0 - bp[3].0 == t && bp[5].0 - bp[4].0 == t
    ensures Motion(bp, 6) == (0.0, 2.0 * (t * t * p) + t * p * c)
  {
    var m1 := Motion(bp, 1);
    assert m1 == (0.0, 0.0);
    JerkCoastSteps(t, p, c, Motion(bp, 2), Motion(bp, 3), Motion(bp, 4), Motion(bp, 5), Motion(bp, 6));
  }

  /** Constant acceleration a for time c between jerk phases of time t, without a coast:
      the speed returns to 0 and the position reaches 2 * t^2 * a + 3 * t * a * c + a * c^2. */
  lemma AccelNoCoastSteps(t: real, a: real, c: real, m2: (real, real), m3: (real, real), m4: (real, real), m5: (real, real), m6: (real, real))
    requires m2 == Step(0.0, 0.0, t, 0.0, a)
    requires m3 == Step(m2.0, m2.1, c, a, a)
    requires m4 == Step(m3.0, m3.1, 2.0 * t, a, -a)
    requires m5 == Step(m4.0, m4.1, c, -a, -a)
    requires m6 == Step(m5.0, m5.1, t, -a, 0.0)
    ensures m6 == (0.0, 2.0 * (t * t * a) + 3.0 * (t * a * c) + a * (c * c))
  {
    var q, r, w := t * t * a, t * a * c, a * (c * c);
    assert m2.0 == t * a / 2.0;
    assert m2.1 == q / 6.0;
    assert m3.0 == t * a / 2.0 + c * a;
    assert m3.1 == q / 6.0 + r / 2.0 + w / 2.0;
    assert m4.0 == m3.0;
    assert m4.1 == m3.1 + q + 2.0 * r + 2.0 * q / 3.0;
    assert m5.0 == t * a / 2.0;
    assert m5.1 == m4.1 + r / 2.0 + w - w / 2.0;
    assert m6.0 == 0.0;
    assert m6.1 == m5.1 + q / 2.0 - q / 3.0;
    assert m6.1 == 2.0 * (t * t * a) + 3.0 * (t * a * c) + a * (c * c);
  }

  /** The breakpoints of that shape, as `Motion` reads them. */
  lemma AccelNoCoastKinematics(bp: seq<(real, real)>, t: real, a: real, c: real)
    requires |bp| == 6 && bp[0].1 == 0.0 && bp[1].1 == a && bp[2].1 == a && bp[3].1 == -a
    requires bp[4].1 == -a && bp[5].1 == 0.0
    requires bp[1].0 - bp[0].0 == t && bp[2].0 - bp[1].0 == c && bp[3].0 - bp[2].0 == 2.0 * t
    requires bp[4].0 - bp[3].0 == c && bp[5].0 - bp[4].0 == t
    ensures Motion(bp, 6) == (0.0, 2.0 * (t * t * a) + 3.0 * (t * a * c) + a * (c * c))
  {
    var m1 := Motion(bp, 1);
    assert m1 == (0.0, 0.0);
    AccelNoCoastSteps(t, a, c, Motion(bp, 2), Motion(bp, 3), Motion(bp, 4), Motion(bp, 5), Motion(bp, 6));
  }

  /** The same with a coast of time s at the top speed t * a + c * a: the position gains
      that speed times s. */
  lemma AccelCoastSteps(t: real, a: real, c: real, s: real, m2: (real, real), m3: (real, real), m4: (real, real), m5: (real, real), m6: (real, real), m7: (real, real), m8: (real, real))
    requires m2 == Step(0.0, 0.0, t, 0.0, a)
    requires m3 == Step(m2.0, m2.1, c, a, a)
    requires m4 == Step(m3.0, m3.1, t, a, 0.0)
    requires m5 == Step(m4.0, m4.1, s, 0.0, 0.0)
    requires m6 == Step(m5.0, m5.1, t, 0.0, -a)
    requires m7 == Step(m6.0, m6.1, c, -a, -a)
    requires m8 == Step(m7.0, m7.1, t, -a, 0.0)
    ensures m8 == (0.0, 2.0 * (t * t * a) + 3.0 * (t * a * c) + a * (c * c) + (t * a + c * a) * s)
  {
    var q, r, w := t * t * a, t * a * c, a * (c * c);
    var top := t * a + c * a;
    assert m2.0 == t * a / 2.0;
    assert m2.1 == q / 6.0;
    assert m3.0 == t * a / 2.0 + c * a;
    assert m3.1 == q / 6.0 + r / 2.0 + w / 2.0;
    assert m4.0 == top;
    assert m4.1 == m3.1 + q / 2.0 + r + q / 3.0;
    assert m5.0 == top;
    assert m5.1 == m4.1 + top * s;
    assert m6.0 == top - t * a / 2.0;
    assert m6.1 == m5.1 + q + r - q / 6.0;
    assert m7.0 == t * a / 2.0;
    assert m7.1 == m6.1 + r / 2.0 + w - w / 2.0;
    assert m8.0 == 0.0;
    assert m8.1 == m7.1 + q / 2.0 - q / 3.0;
    assert m8.1 == 2.0 * q + 3.0 * r + w + top * s;
    assert m8.1 == 2.0 * (t * t * a) + 3.0 * (t * a * c) + a * (c * c) + (t * a + c * a) * s;
  }

  /** The breakpoints of that shape, as `Motion` reads them. */
  lemma AccelCoastKinematics(bp: seq<(real, real)>, t: real, a: real, c: real, s: real)
    requires |bp| == 8 && bp[0].1 == 0.0 && bp[1].1 == a && bp[2].1 == a && bp[3].1 == 0.0
    requires bp[4].1 == 0.0 && bp[5].1 == -a && bp[6].1 == -a && bp[7].1 == 0.0
    requires bp[1].0 - bp[0].0 == t && bp[2].0 - bp[1].0 == c && bp[3].0 - bp[2].0 == t
    requires bp[4].0 - bp[3].0 == s && bp[5].0 - bp[4].0 == t && bp[6].0 - bp[5].0 == c
    requires bp[7].0 - bp[6].0 == t
    ensures Motion(bp, 8) == (0.0, 2.0 * (t * t * a) + 3.0 * (t * a * c) + a * (c * c) + (t * a + c * a) * s)
  {
    var m1 := Motion(bp, 1);
    assert m1 == (0.0, 0.0);
    AccelCoastSteps(t, a, c, s, Motion(bp, 2), Motion(bp, 3), Motion(bp, 4), Motion(bp, 5), Motion(bp, 6), Motion(bp, 7), Motion(bp, 8));
  }

  /** The pure-jerk shape ends at rest after twice the distance of one jerk half. */
  lemma JerkOnlyMotion(jerkTime: real, jerk: real)
    ensures Motion(JerkOnly(jerkTime, jerk), 4) == (0.0, 2.0 * DistanceDuringJerk(jerk, jerkTime))
  {
    var bp := JerkOnly(jerkTime, jerk);
    var t, p := jerkTime, jerkTime * jerk;
    JerkOnlyKinematics(bp, t, p);
    assert t * t * p == jerk * (t * t * t);
    assert Motion(bp, 4).1 == 2.0 * DistanceDuringJerk(jerk, jerkTime);
  }

  /** The speed-capped pure-jerk shape ends at rest after exactly the distance. */
  lemma JerkCoastMotion(ops: RealOps, distance: real, maxSpeed: real, jerk: real)
    requires ops.Lawful() && maxSpeed > 0.0 && jerk > 0.0
    ensures Motion(JerkCoast(ops, distance, maxSpeed, jerk), 6) == (0.0, distance)
  {
    var bp := JerkCoast(ops, distance, maxSpeed, jerk);
    var t := TimeToMaxSpeed(ops, jerk, maxSpeed);
    var p := t * jerk;
    var coastDistance := distance - DistanceDuringJerk(jerk, t) * 2.0;
    var c := coastDistance / maxSpeed;
    JerkCoastKinematics(bp, t, p, c);
    assert t * t * p == DistanceDuringJerk(jerk, t);
    assert t * p * c == coastDistance by {
      TimeToMaxSpeedReaches(ops, jerk, maxSpeed);
      assert t * p == maxSpeed;
      Arith.DivMul(coastDistance, maxSpeed);
    }
    assert Motion(bp, 6).1 == distance;
  }

  /** The shape with constant acceleration time c and no coast ends at rest after
      2 * T^2 * a + 3 * T * a * c + a * c^2. */
  lemma AccelNoCoastMotion(jerkTime: real, accelTime: real, maxAccel: real)
    requires accelTime > 0.0
    ensures var t, c, a := jerkTime, accelTime, maxAccel;
            Motion(AccelNoCoast(t, c, a), 6) == (0.0, 2.0 * (t * t * a) + 3.0 * (t * a * c) + a * (c * c))
  {
    var bp := AccelNoCoast(jerkTime, accelTime, maxAccel);
    var t, c := jerkTime, accelTime;
    AccelNoCoastKinematics(bp, t, maxAccel, c);
  }

  /** The shape with constant acceleration time c and a coast of time s != 0 ends at rest
      after the distance without coast plus the top speed times s. */
  lemma AccelCoastMotion(jerkTime: real, accelTime: real, coastTime: real, maxAccel: real)
    requires coastTime != 0.0
    ensures var t, c, s, a := jerkTime, accelTime, coastTime, maxAccel;
            Motion(AccelCoast(t, c, s, a), 8) ==
              (0.0, 2.0 * (t * t * a) + 3.0 * (t * a * c) + a * (c * c) + (t * a + c * a) * s)
  {
    var bp := AccelCoast(jerkTime, accelTime, coastTime, maxAccel);
    var t, c, s := jerkTime, accelTime, coastTime;
    assert |bp| == 8;
    AccelCoastKinematics(bp, t, maxAccel, c, s);
  }

  /** `HalfDistance` in the terms of the acceleration shapes, with a = jerk * T. */
  lemma HalfDistanceExpanded(jerk: real, t: real, a: real, c: real)
    requires jerk * t == a
    ensures 2.0 * HalfDistance(jerk, t, c) == 2.0 * (t * t * a) + 3.0 * (t * a * c) + a * (c * c)
  {
    assert 2.0 * HalfDistance(jerk, t, c) == a * (3.0 * (t * c) + c * c + 2.0 * (t * t));
  }

  /** Constant acceleration up to the time to half the distance, no coast: the move ends
      at rest after exactly the distance. */
  lemma AccelNoCoastDistance(ops: RealOps, distance: real, maxAccel: real, jerk: real, jt: real)
    requires ops.Lawful() && distance > 0.0 && jerk > 0.0 && jt > 0.0 && jerk * jt == maxAccel
    requires TimeToHalfDistance(ops, jerk, jt, distance / 2.0) - 2.0 * jt > 0.0
    ensures var c := TimeToHalfDistance(ops, jerk, jt, distance / 2.0) - 2.0 * jt;
            Motion(AccelNoCoast(jt, c, maxAccel), 6) == (0.0, distance)
  {
    var c := TimeToHalfDistance(ops, jerk, jt, distance / 2.0) - 2.0 * jt;
    AccelNoCoastMotion(jt, c, maxAccel);
    HalfDistanceExpanded(jerk, jt, maxAccel, c);
    TimeToHalfDistanceReaches(ops, jerk, jt, distance / 2.0);
    assert Motion(AccelNoCoast(jt, c, maxAccel), 6).1 == distance;
  }

  /** Constant acceleration up to max_speed, then a coast over the distance left: the move
      ends at rest after exactly the distance. */
  lemma AccelCoastDistance(distance: real, maxSpeed: real, maxAccel: real, jerk: real, jt: real, c: real, coastTime: real)
    requires maxSpeed > 0.0 && maxAccel > 0.0 && jerk * jt == maxAccel
    requires c == TimeToMaxSpeedAccel(jerk, jt, maxSpeed) - 2.0 * jt
    requires coastTime == (distance - 2.0 * HalfDistance(jerk, jt, c)) / maxSpeed && coastTime != 0.0
    ensures Motion(AccelCoast(jt, c, coastTime, maxAccel), 8) == (0.0, distance)
  {
    var coastDistance := distance - 2.0 * HalfDistance(jerk, jt, c);
    AccelCoastMotion(jt, c, coastTime, maxAccel);
    HalfDistanceExpanded(jerk, jt, maxAccel, c);
    assert jt * maxAccel + c * maxAccel == maxSpeed by {
      Arith.DivMul(maxSpeed - maxAccel * jt, maxAccel);
    }
    assert maxSpeed * coastTime == coastDistance by {
      Arith.DivMul(coastDistance, maxSpeed);
    }
    assert Motion(AccelCoast(jt, c, coastTime, maxAccel), 8).1 == distance;
  }

  /** With a constant acceleration phase the profile ends at rest after exactly the
      distance, with or without a coast. */
  lemma AccelPhaseMotion(ops: RealOps, distance: real, maxSpeed: real, maxAccel: real, jerk: real)
    requires ops.Lawful() && distance > 0.0 && maxSpeed > 0.0 && maxAccel > 0.0 && jerk > 0.0
    requires !NoAccelPhase(ops, distance, maxSpeed, maxAccel, jerk)
    ensures var bp := AccelPhase(ops, distance, maxSpeed, maxAccel, jerk);
            |bp| > 0 && Motion(bp, |bp|) == (0.0, distance)
  {
    var jt := maxAccel / jerk;
    AccelHalfTimeFits(ops, distance, maxSpeed, maxAccel, jerk);
    AccelCoastFits(ops, distance, maxSpeed, maxAccel, jerk);
    Arith.DivMul(maxAccel, jerk);
    var halfTime := TimeToHalfDistance(ops, jerk, jt, distance / 2.0);
    var speedTime := TimeToMaxSpeedAccel(jerk, jt, maxSpeed);
    if halfTime <= speedTime {
      AccelNoCoastDistance(ops, distance, maxAccel, jerk, jt);
    } else {
      var c := speedTime - 2.0 * jt;
      var coastDistance := distance - 2.0 * HalfDistance(jerk, jt, c);
      var coastTime := coastDistance / maxSpeed;
      assert coastTime != 0.0 by {
        MulLess(maxSpeed, 0.0, coastTime);
        Arith.DivMul(coastDistance, maxSpeed);
      }
      AccelCoastDistance(distance, maxSpeed, maxAccel, jerk, jt, c, coastTime);
    }
  }

  /** Whatever the shape, the piecewise linear acceleration through the breakpoints brings
      the move from rest at 0 back to rest at exactly the distance. */
  lemma BreakpointsMotion(ops: RealOps, distance: real, maxSpeed: real, maxAccel: real, jerk: real)
    requires ops.Lawful() && distance >= 0.0 && maxSpeed > 0.0 && maxAccel > 0.0 && jerk > 0.0
    ensures var bp := Breakpoints(ops, distance, maxSpeed, maxAccel, jerk);
            Motion(bp, |bp|) == (0.0, distance)
  {
    if distance > 0.0 {
      var mjt := MaxJerkTime(ops, distance, jerk);
      if NoAccelPhase(ops, distance, maxSpeed, maxAccel, jerk) {
        if PeakSpeed(mjt, jerk) <= maxSpeed {
          JerkOnlyMotion(mjt, jerk);
          MaxJerkTimeCovers(ops, distance, jerk);
        } else {
          JerkCoastMotion(ops, distance, maxSpeed, jerk);
        }
      } else {
        AccelPhaseMotion(ops, distance, maxSpeed, maxAccel, jerk);
      }
    }
  }
}
