# dynamic-motion, exact-arithmetic model

dynamic-motion turns one G-code move into one time-parameterised spline per machine axis.
It works in four steps:

1. It builds a symmetric jerk-limited ("s-curve") acceleration profile over the arc length.
   The profile is a piecewise linear spline through a few breakpoints.
2. It integrates the profile twice, giving speed and position.
3. It corrects each axis for the machine's dynamics: a spring-damper, an asymmetric spring-damper
   (a composition with a kinked line), or extruder pressure advance.
4. It checks per-axis speed, acceleration and jerk limits. When a limit is exceeded it calls
   itself again with throttled maxima. Finally it puts all axis curves on one common knot list.

A discretizer then samples the curves at points where a linear interpolation stays within a
chordal tolerance. A line parser reads G-code words.

This project models that core in Dafny over exact reals:

- the polynomial algebra of `polynomial.py`: evaluation, sum, product, square, power,
  composition, Taylor shift, derivative, antiderivative, real roots up to degree two, and range
  on an interval;
- the piecewise-polynomial curve of `spline.py`: a value datatype `Splines.Spline` and a class
  `Curves.Curve` whose methods update fields in place;
- the s-curve profile of `motion_profiles.py`;
- `generate_move` of `move.py`;
- the discretizer of `discretize.py`;
- `parse` of `gcode_parser.py`.

Every loop of the source is a Dafny method with loop invariants, proved equal to a pure function.
The properties the program relies on are proved as lemmas about those functions. Examples:

- polynomial values are preserved by every operation;
- the composite of two splines is f(g(x));
- the profile's breakpoints are strictly increasing and within the acceleration limit;
- the twice-integrated profile starts at rest at 0 and ends at rest at exactly the distance;
- a generated move is the move of maxima no larger than the requested ones and within every
  axis limit up to eps;
- discretization points are strictly increasing and contain every knot;
- a parsed line maps each letter to its last value.

Square roots and cube roots (`math.sqrt`, `x ** 0.5`, `x ** (1/3)`, `x ** .25`) are a parameter,
`Base.RealOps`. Its ghost predicate `Lawful()` says that the roots are exact. Failures of the
program (AssertionError, ZeroDivisionError, IndexError, ValueError and the parser's Exception)
are values of `Base.Result`.

## Model

| member | source | states |
|---|---|---|
| Base.SortedSet | spline.py:245-250 | `sorted(set(xs))`: a strictly increasing list holding exactly the values of xs |
| Base.InsertSorted | spline.py:245-250 | adding one value to an increasing list keeps it increasing and adds exactly that value |
| Polynomials.Horner | polynomial.py:92-98 | Horner's loop returns the value of the coefficient list at x |
| Polynomials.Constant | polynomial.py:4-7 | a scalar becomes a one-coefficient polynomial whose value is that scalar everywhere |
| Polynomials.Neg | polynomial.py:60-62 | same length, and the value is the negated value at every x |
| Polynomials.Scale | polynomial.py:64-72 | multiplying by a scalar scales every coefficient and the value at every x |
| Polynomials.Sum | polynomial.py:46-55 | as long as the longer operand; coefficient k is the sum of both coefficients k, missing ones counting 0 |
| Polynomials.EvalSum | polynomial.py:46-55 | the value of the sum is the sum of the values |
| Polynomials.Add | polynomial.py:46-55 | the copy-and-add loop yields the coefficient-wise sum, whose value is p(x) + q(x) |
| Polynomials.Sub | polynomial.py:57-58 | as long as the longer operand; its value is p(x) - q(x) |
| Polynomials.LineFromToIs | polynomial.py:26-29 | the line through two points with distinct x has slope (y1-y0)/(x1-x0) and intercept y0 - x0·slope |
| Polynomials.EvalProduct | polynomial.py:64-72 | the value of the product is the product of the values |
| Polynomials.Mul | polynomial.py:64-72 | the double loop returns len(p)+len(q)-1 coefficients whose value is p(x)·q(x) |
| Polynomials.ProductByOne | polynomial.py:64-72 | multiplying [1] by q returns exactly q |
| Polynomials.EvalSquare | polynomial.py:74-80 | the value of `sq(p)` is p(x)² |
| Polynomials.Sq | polynomial.py:74-80 | the triangular loop with doubled off-diagonal terms returns 2n-1 coefficients whose value is p(x)² |
| Polynomials.Derivative | polynomial.py:9-16 | one coefficient fewer, and a single coefficient for a constant |
| Polynomials.Differentiate | polynomial.py:9-16 | the loop computes the derivative list, coefficient i being (i+1)·p[i+1] |
| Polynomials.Integrate | polynomial.py:18-23 | the loop computes the antiderivative list, one coefficient longer than p |
| Polynomials.DerivativeOfAntiderivative | polynomial.py:9-23 | differentiating the antiderivative gives p back, or [0] for an empty list |
| Polynomials.AntiderivativeAtZero | polynomial.py:18-23 | the antiderivative is the one that is 0 at x = 0 |
| Polynomials.DerivativeOfConstant | polynomial.py:11-12 | a constant differentiates to [0] |
| PolyPower.BitLength | polynomial.py:83 | `floor(log2(e)) + 1`: the number of binary digits, 2^(r-1) <= e < 2^r |
| PolyPower.EvalPower | polynomial.py:82-90 | binary exponentiation over the bits of e evaluates to p(x)^e |
| PolyPower.Pow | polynomial.py:82-90 | the square-and-multiply loop returns a polynomial whose value is p(x)^e |
| PolyPower.PowerZero | polynomial.py:82-90 | `pow(p, 0)` is [1] |
| PolyPower.PowerOne | polynomial.py:82-90 | `pow(p, 1)` is exactly p |
| PolyPower.EvalComposition | polynomial.py:180-184 | the sum of f[i]·g^i evaluates to f(g(x)) |
| PolyPower.Composite | polynomial.py:180-184 | the loop returns a polynomial whose value is f(g(x)) |
| PolyShift.DilateEval | polynomial.py:115-120 | multiplying coefficient k by x0^k evaluates p at x0·y |
| PolyShift.ShiftRowEval | polynomial.py:122-125 | row r of the Pascal-style table holds the top r+1 scaled coefficients shifted by one |
| PolyShift.FillShiftTable | polynomial.py:112-125 | the three table loops fill every entry `shift` writes with its table value and leave the others 0 |
| PolyShift.ShiftedEval | polynomial.py:100-135 | the shifted polynomial evaluates to p(x + x0) |
| PolyShift.Shift | polynomial.py:100-135 | `shift(a, x0)` returns a list of the same length whose value at x is p(x + x0); a copy when x0 == 0 |
| PolyRoots.Trimmed | polynomial.py:140-142 | a non-empty prefix of p; the dropped coefficients are below 1e-16 in magnitude, and the kept leading one is not unless it is the only one |
| PolyRoots.Trim | polynomial.py:140-142 | the trimming loop returns that prefix |
| PolyRoots.LinearRootsSpec | polynomial.py:148-150 | the linear case reports x exactly when it solves p0 + p1·x = 0 strictly inside the interval |
| PolyRoots.QuadraticRootsSpec | polynomial.py:151-162 | the quadratic case reports x exactly when it solves the quadratic strictly inside the interval |
| PolyRoots.MonicRootsIncreasing | polynomial.py:155-160 | the double root, or the two roots smaller first |
| PolyRoots.FindMonicRoots | polynomial.py:151-162 | the branch on the discriminant returns the monic roots inside the interval |
| PolyRoots.FindRoots | polynomial.py:138-165 | the method returns what `Roots` specifies |
| PolyRoots.RootsFail | polynomial.py:163-165 | `find_roots` fails exactly when the trimmed list has degree three or more |
| PolyRoots.RootsSpec | polynomial.py:138-165 | every reported value is a root strictly inside the interval; every such root is reported unless the trimmed list is the zero constant; increasing; fewer than the trimmed coefficients |
| PolyRoots.SolveOrdered | polynomial.py:144-162 | the roots come out increasing, at most as many as the degree |
| PolyRoots.SignChange | polynomial.py:138-162 | a list `find_roots` solves that changes sign between a and b has a root strictly between them |
| PolyRoots.Extremes | polynomial.py:171-176 | the loop keeps the running minimum and maximum of the values at the candidates |
| PolyRoots.MinMax | polynomial.py:168-177 | the method returns what `Range` specifies |
| PolyRoots.CandidatesSpec | polynomial.py:169-170 | the candidates are the interior critical points followed by both ends, and include every interior critical point unless the derivative is the zero constant |
| PolyRoots.RangeSpec | polynomial.py:168-177 | fails exactly for a derivative of degree three or more; otherwise low <= high, both ends lie between them, and each bound is attained at a candidate |
| PolyRoots.RangeBoundsCritical | polynomial.py:168-177 | the value at every interior critical point lies between the two bounds |
| Splines.PieceIndex | spline.py:36-42 | the index of the first knot strictly greater than x: every earlier knot is <= x |
| Splines.PieceIndexIs | spline.py:36-42 | those two facts determine the index |
| Splines.PieceRangeSpec | spline.py:126-131 | with sorted knots, piece i evaluates x exactly when x lies in `range(i)` |
| Splines.SegmentEval | spline.py:27-33 | an interior piece passes through its left point, and through its right one when the interval has width |
| Splines.Interpolation | spline.py:23-34 | the interpolating curve is valid and its knots are x |
| Splines.InterpolationAtKnot | spline.py:23-34 | with increasing x the curve passes through every point (x[i], y[i]) |
| Splines.InterpolationOutside | spline.py:23-34 | left of x[0] the curve is y[0]; from the last knot on it is y[-1] |
| Splines.KinkedLineAt | spline.py:202-206 | `kinked_line` is k_neg·x left of 0 and k_pos·x from 0 on |
| Splines.Derived | spline.py:59-63 | differentiating keeps the knots |
| Splines.Integrated | spline.py:65-75 | integrating keeps the knots |
| Splines.IntegralContinuous | spline.py:72-73 | each integral piece meets the piece before it at their common knot |
| Splines.IntegralFirstPiece | spline.py:65-75 | the first integral piece is 0 at x = 0 |
| Splines.IntegratedContinuousAt | spline.py:65-75 | with increasing knots, the integral's value at a knot is the value the piece to its left reaches there |
| Splines.DerivedIntegrated | spline.py:59-75 | differentiating the integral gives the curve back |
| Splines.ShiftedAt | spline.py:77-89 | the shifted curve q satisfies q(x) = p(x + x0) |
| Splines.Scaled | spline.py:91-96 | `curve * factor` keeps the knots and scales the value at every x |
| Splines.PlusConstant | spline.py:114-116 | `curve + c` keeps the knots and adds c to the value at every x |
| Splines.RangeMin | spline.py:120-121 | with sorted knots, the first knot is the smallest |
| Splines.RangeMax | spline.py:123-124 | with sorted knots, the last knot is the largest |
| Splines.JoinedAt | spline.py:186-196 | the combined curve is the first curve left of the second's first knot and the second from there on |
| Splines.JoinedSorted | spline.py:198 | the combined knots are sorted exactly when both curves' knots are |
| SplineKnots.RefinedAt | spline.py:143-175 | a refinement evaluates like the curve it refines at every x |
| SplineKnots.MergeSpec | spline.py:146-171 | the merge loop and its two tails produce a refinement whose knots are exactly the old and the new ones |
| SplineKnots.InsertedSpec | spline.py:143-175 | `insert_knots`: the knots become the strictly increasing union, and the value is unchanged at every x |
| SplineKnots.InsertedIdempotent | spline.py:143-175 | inserting knots the curve already has changes nothing |
| SplineKnots.PlusSpec | spline.py:98-112 | curve addition is pointwise whatever the two knot lists; the sum's knots are their union, increasing |
| SplineKnots.SameKnotsAll | spline.py:242 | equal neighbouring knot lists make all knot lists equal |
| SplineKnots.HarmonizedSpec | spline.py:241-253 | afterwards all curves share one increasing knot list, holding exactly the input knots, and every curve keeps its value at every x |
| SplineRange.FoldSpec | spline.py:134-140 | the loop succeeds exactly when every piece range does; it keeps (inf, -inf) without pieces and otherwise bounds every range and meets some range's low and high |
| SplineRange.SplineMinMaxSucceeds | spline.py:133-141 | `minmax()` succeeds exactly when every bounded piece's range does; (inf, -inf) when there is none |
| SplineRange.SplineMinMaxFails | spline.py:133-141 | it fails exactly when some bounded piece's trimmed derivative has degree three or more |
| SplineRange.SplineMinMaxEncloses | spline.py:133-141 | the bounds enclose every bounded piece's range |
| SplineRange.SplineMinMaxAttained | spline.py:133-141 | each bound is a value that a bounded piece takes at one of its candidate points |
| SplineRange.SplineMinMaxBounds | spline.py:133-141 | the bounds enclose the values at both knots of every bounded piece and at every interior critical point |
| SplineCompose.GatherSound | spline.py:218-219 | every gathered root was found for one of f's knots |
| SplineCompose.GatherComplete | spline.py:218-219 | when gathering succeeds, every knot's roots are gathered |
| SplineCompose.CrossingsSound | spline.py:216-222 | the crossings of piece j of g strictly increase, and each is a point inside the piece where g equals a knot of f |
| SplineCompose.CrossingsComplete | spline.py:216-222 | every such point that the root finder can resolve is among the crossings |
| SplineCompose.Composed | spline.py:209-239 | a successful composite is valid and has at least g's number of knots |
| SplineCompose.ComposedKnots | spline.py:213-238 | the composite's knots strictly increase; they are g's knots and the points where g crosses a knot of f, and every resolvable crossing is among them |
| SplineCompose.ComposedPieces | spline.py:225-236 | piece m of the composite is f's piece at g's value at the probe point of piece m, composed with g's piece there |
| SplineCompose.ComposedUnbounded | spline.py:225-238 | for a g without knots and without crossings, the composite is f's last piece after g's only piece |
| SplineCompose.ComposedAt | spline.py:209-239 | at every x the composite is g(x) put through f's piece chosen at a probe point in the same piece of the result and of g |
| SplineCompose.ComposedIs | spline.py:209-239 | where g(x) is not a knot of f and g's coefficients survive trimming, the composite at x is f(g(x)) |
| SplineCompose.KinkedComposedAt | spline.py:202-239 | composing the kinked line with g gives c·g(x) with c one of the two slopes, namely the slope on g(x)'s side of 0 where g(x) != 0 |
| Curves.SegmentList | spline.py:27-33 | the constructor's loop builds the interior pieces: the line through neighbouring points, or the constant y[i] for an interval without width |
| Curves.Curve.Zero | spline.py:13-16 | `curve()` has no knots and the single piece [0] |
| Curves.Curve.Copy | spline.py:18-21 | `curve(other)` has other's value |
| Curves.Curve.Interpolate | spline.py:23-34 | `curve(x, y)` holds the interpolating curve |
| Curves.Curve.Kinked | spline.py:202-206 | `kinked_line` holds the kinked line |
| Curves.Curve.PolyIndex | spline.py:36-42 | the scanning loop returns `PieceIndex` |
| Curves.Curve.Get | spline.py:45-47 | `curve[x]` is the value of the curve at x |
| Curves.Curve.Differentiate | spline.py:59-63 | a fresh curve, the derivative of this one |
| Curves.Curve.Integrate | spline.py:65-75 | a fresh curve, the integral of this one |
| Curves.Curve.Shift | spline.py:77-89 | a fresh curve q with q(x) = p(x + x0) |
| Curves.Curve.Times | spline.py:91-96 | a fresh curve with every coefficient multiplied |
| Curves.Curve.PlusNumber | spline.py:114-116 | a fresh curve with the number added to every piece |
| Curves.Curve.PlusCurve | spline.py:98-112 | a fresh curve, the pointwise sum; neither operand changes |
| Curves.Curve.MinMax | spline.py:133-141 | the loop returns what `SplineMinMax` specifies |
| Curves.Curve.InsertKnots | spline.py:143-175 | the knot and piece lists are rebuilt in place into the refinement by the new knots |
| CurveOps.Combine | spline.py:180-200 | a fresh curve: a copy of one operand when the other has no knots, otherwise the two joined in knot order |
| CurveOps.PieceCrossings | spline.py:216-222 | the loop returns the crossings of piece j of g with f's knots |
| CurveOps.MiddlePiece | spline.py:229-234 | the piece for one interval: f's piece at g's value in its middle, composed with g's piece |
| CurveOps.EmitPiece | spline.py:225-236 | the inner loop appends the knots and pieces that `Emit` specifies |
| CurveOps.ComposePiece | spline.py:214-236 | one round of the outer loop appends the knots and pieces of piece j |
| CurveOps.ComposePieces | spline.py:214-236 | the outer loop builds what `ComposeAll` specifies |
| CurveOps.Composite | spline.py:209-239 | a fresh curve equal to `Composed(f, g)`, or the same failure |
| CurveOps.SameKnotLists | spline.py:242 | the test is true exactly when neighbouring knot lists are equal |
| CurveOps.UnionKnots | spline.py:245-250 | the collected knots are the sorted union of all knots |
| CurveOps.InsertAll | spline.py:252-253 | every curve in the list is refined by the same knots, in place |
| CurveOps.Harmonize | spline.py:241-253 | the curves' new values are `Harmonized` of their old values |
| MotionProfiles.MaxJerkTimeCovers | motion_profiles.py:5-8 | the pure-jerk profile with jerk time `s_curve_max_jerk_t` covers exactly the distance |
| MotionProfiles.TimeToMaxSpeedReaches | motion_profiles.py:14-18 | jerk held for `constant_jerk_time_to_max_speed` and then reversed reaches exactly the speed |
| MotionProfiles.TimeToHalfDistanceReaches | motion_profiles.py:20-25 | `s_curve_time_to_half_distance` solves `s_curve_half_distance` for the constant-acceleration time |
| MotionProfiles.HalfDistanceGrows | motion_profiles.py:20-21 | more constant-acceleration time covers more distance |
| MotionProfiles.JerkOnlyFits | motion_profiles.py:42-53 | without a constant-acceleration phase and below the speed cap, the peak acceleration is at most max_accel |
| MotionProfiles.JerkCoastFits | motion_profiles.py:54-69 | in the speed-capped branch both assertions hold: peak_accel <= max_accel and a positive coasting distance |
| MotionProfiles.AccelHalfTimeFits | motion_profiles.py:70-76 | in the constant-acceleration branch the assertion half_distance_time >= 2·jerk_time holds, strictly |
| MotionProfiles.AccelCoastFits | motion_profiles.py:78-95 | the time to max speed leaves a positive constant-acceleration time, and the coasting distance is positive |
| MotionProfiles.AccelPhaseShape | motion_profiles.py:70-102 | the constant-acceleration branch gives the six-point or the eight-point shape, never the fallbacks |
| MotionProfiles.Breakpoints | motion_profiles.py:33-102 | the breakpoints start at (0, 0) and end at acceleration 0; there is a single point exactly for distance 0 |
| MotionProfiles.BreakpointsShape | motion_profiles.py:33-102 | for a positive distance the times strictly increase, the accelerations stay within max_accel, and there are 4, 6 or 8 breakpoints |
| MotionProfiles.ProfileAtBreakpoints | motion_profiles.py:104-105 | the profile curve passes through every breakpoint |
| MotionProfiles.ProfileEnds | motion_profiles.py:33-105 | the acceleration is 0 up to time 0 and from the last breakpoint on |
| MotionProfiles.JerkOnlyMotion | motion_profiles.py:47-53 | the pure-jerk shape ends at rest |
| MotionProfiles.JerkCoastMotion | motion_profiles.py:54-69 | the speed-capped shape ends at rest after exactly the distance |
| MotionProfiles.AccelNoCoastDistance | motion_profiles.py:80-88 | the no-coast constant-acceleration shape ends at rest after exactly the distance |
| MotionProfiles.AccelCoastDistance | motion_profiles.py:90-102 | the coasting constant-acceleration shape ends at rest after exactly the distance |
| MotionProfiles.AccelPhaseMotion | motion_profiles.py:70-102 | with a constant-acceleration phase the move ends at rest after exactly the distance |
| MotionProfiles.BreakpointsMotion | motion_profiles.py:33-102 | whatever the shape, the linear acceleration brings the move from rest at 0 to rest at exactly the distance |
| MotionIntegrals.AccelThrough | motion_profiles.py:104-105 | the curve through the breakpoints has their times as knots and a line between neighbouring breakpoints |
| MotionIntegrals.PieceGains | spline.py:65-75 | over a linear piece, the first and second antiderivatives gain what the trapezoid step of speed and position predicts |
| MotionIntegrals.IntegratedStep | spline.py:65-75 | the same for the pieces of the spline integrals |
| MotionIntegrals.IntegralsAtBreakpoints | move.py:47-50 | at every breakpoint the pieces of the speed and the position equal the trapezoid kinematics |
| MotionIntegrals.AtBreakpoint | move.py:47-50 | the speed and position curves at every breakpoint equal the trapezoid kinematics |
| MotionIntegrals.RestBefore | move.py:47-50 | up to time 0 the speed and the position are 0 |
| MotionIntegrals.RestAfter | move.py:47-50 | from the last breakpoint on, the speed is 0 and the position is the final one |
| MotionIntegrals.ProfileSettles | move.py:47-50 | `arc_speed` and `arc_position` are 0 up to time 0; from the last knot on the speed is 0 and the position equals the distance |
| Move.Delta | move.py:37 | `destination - source`, coordinate by coordinate |
| Move.DistanceSpec | move.py:37-44 | the distance is never negative, and it is 0 exactly when source and destination coincide |
| Move.ArcOf | move.py:47-50 | `arc_acceleration` is the s-curve profile; the speed and position are its integrals |
| Move.Corrected | move.py:55-79 | a corrected axis is a valid curve with increasing knots; only the asymmetric model can fail |
| Move.UncorrectedAt | move.py:55-57 | with no correction in force, the axis is k times the arc position |
| Move.SpringDamperAt | move.py:59-65 | with omega = tau·f_n > 0, the axis is k·p + k/omega²·a + 2·zeta·k/omega·v at every x |
| Move.AsymmetricInputAt | move.py:67-73 | the kinked stiffness is fed k·a(x) + k·(b/m)·v(x) |
| Move.CorrectedAsymmetric | move.py:72-74 | with a positive frequency on either side, the asymmetric correction is applied |
| Move.AsymmetricAt | move.py:67-74 | a zero frequency fails with ZeroDivisionError; otherwise the axis adds c·g(x), c being 1/omega² of the side g(x) is on |
| Move.AdvancedAt | move.py:76-79 | with pressure advance, the axis's derivative is k·v + k·K·a at every x |
| Move.AxisPosition | move.py:55-81 | each appended curve is valid with increasing knots; only the asymmetric model can fail |
| Move.CollectSpec | move.py:52-81 | the axis list is collected exactly when every axis succeeds, in order; otherwise the first failure ends it |
| Move.Peak | move.py:96-98 | `max(abs(minmax()))` is never -inf, and never negative |
| Move.RatioSpec | move.py:100-103 | a ratio is >= 0, is 0 only for an unbounded peak, and times a finite peak gives the limit |
| Move.EntryRatios | move.py:91-103 | the ratios of an entry are never negative |
| Move.ThrottledSpec | move.py:84-103 | each factor lies in [0, 1], is at most every ratio seen, and is 1 or one of those ratios; the loop gets through exactly when no ratio fails |
| Move.ThrottledStops | move.py:90-98 | the first entry whose ratios fail ends the loop with that failure |
| Move.RescaledSpec | move.py:105-112 | no factor below 1 - eps leaves the maxima alone; otherwise the jerk strictly drops, nothing grows, and the first binding factor in jerk, accel, speed order fixes which maxima move |
| Move.Synthesized | move.py:36-115 | a successful synthesis gives one valid curve per axis, all on one increasing knot list |
| Move.StageOf | move.py:47-103 | a round gives the axis curves and, when they exist, the throttle factors |
| Move.ContinuedCases | move.py:105-115 | no binding factor gives the harmonized curves; a zero rescaled jerk fails with AssertionError; exhausted fuel fails with NoConvergence |
| Move.ContinuedResumes | move.py:105-115 | when a factor binds, the synthesis restarts from the rescaled maxima and its curves are harmonized again |
| Move.Generated | move.py:36-117 | `generate_move` returns one valid curve per axis, all sharing one increasing knot list |
| Move.GeneratedNone | move.py:37-44 | `generate_move` returns None exactly when source and destination coincide |
| Move.SettledMeans | move.py:84-112 | a settled round's curves are the axis curves for its maxima and pass every axis limit up to eps |
| Move.UnthrottledWithin | move.py:90-112 | when no factor is below 1 - eps, every limited axis is within its limits up to eps |
| MoveLimits.SynthesizedSettles | move.py:84-115 | whatever the number of re-syntheses, the returned curves are those of maxima no larger than the requested ones and pass every axis limit up to eps |
| MoveLimits.SettledCarries | move.py:105-115 | settling at rescaled maxima counts as settling from the original ones, and harmonizing keeps it |
| MoveLimits.GeneratedSettles | move.py:36-117 | a generated move has a positive distance and settles below the requested maxima within every axis limit |
| MoveCurves.ArcCurves | move.py:47-50 | three fresh curves: the profile and its two integrals |
| MoveCurves.SpringDamperAxis | move.py:59-65 | the spring-damper curve operations give `SpringDamped` |
| MoveCurves.AsymmetricAxis | move.py:67-74 | the asymmetric curve operations give `AsymmetricDamped`, or its failure |
| MoveCurves.KinkedPlusCurves | move.py:73-74 | `position + composite(kink, g)` gives `KinkedPlus` |
| MoveCurves.PressureAdvanceAxis | move.py:76-79 | the pressure-advance curve operations give `Advanced` |
| MoveCurves.CorrectAxis | move.py:55-79 | the loop body gives `Corrected` for the axis's model |
| MoveCurves.AxisLoop | move.py:52-81 | the loop returns fresh, distinct curves whose values are the collected axis positions, or the first failure |
| MoveCurves.EntryThrottle | move.py:91-103 | three differentiations and three `minmax` calls give the entry's ratios |
| MoveCurves.ThrottleAxes | move.py:84-103 | the loop returns the running minima `Throttled` specifies |
| MoveCurves.ApplyThrottle | move.py:105-115 | the throttle rule harmonizes in place or re-synthesizes, as `Continued` specifies |
| MoveCurves.Resynthesize | move.py:105-112 | the recursive call with the rescaled maxima, harmonized again |
| MoveCurves.Synthesize | move.py:47-115 | fresh, distinct curves equal to `Synthesized`, or its failure |
| MoveCurves.GenerateMove | move.py:36-117 | fresh, distinct curves equal to `Generated`, None for a zero-length move, or the same failure |
| Discretize.ErrorVanishes | discretize.py:16-19 | the chord error is 0 at both ends of the interval |
| Discretize.ArgMaxSpec | discretize.py:24 | `np.argmax`: the index holds the largest value, and no earlier index holds it |
| Discretize.AxisWorstSpec | discretize.py:14-28 | an axis contributes the worst of the extremes `find_roots` reports for its error's derivative |
| Discretize.WorstOnAxis | discretize.py:15-28 | the loop body returns that axis's worst extreme |
| Discretize.FindSubdivisionPoint | discretize.py:8-33 | the method returns what `SubdivisionPoint` specifies |
| Discretize.SubdivisionPointSpec | discretize.py:8-33 | fails exactly when `find_roots` fails for some axis; a returned point is an interior extreme whose relative error exceeds 1 and is the largest over all axes; None means no axis exceeds its tolerance at an interior extreme |
| Discretize.SplitPointInside | discretize.py:8-33 | a returned point lies strictly inside the interval |
| Discretize.RecursivePointsInside | discretize.py:38-47 | the recursive points for an interval strictly increase and lie strictly inside it |
| Discretize.NoPointsWithinTolerance | discretize.py:38-47 | an interval at least min_dt wide that gets no points is within tolerance at every interior extreme |
| Discretize.Merge | discretize.py:70 | `heapq.merge` keeps exactly the elements of both lists |
| Discretize.MergeIncreasing | discretize.py:70 | merging two increasing lists without common values gives an increasing list |
| Discretize.MergeSpec | discretize.py:62-70 | knots merged with interior points give an increasing list holding every knot and nothing outside the knot range |
| Discretize.FindPointsOnInterval | discretize.py:64-68 | the loop body returns the recursive points of interval i |
| Discretize.GatherIntervals | discretize.py:63-68 | the loop gathers the points of every interval, or the first failure |
| Discretize.FindDiscretizationPoints | discretize.py:50-70 | the method returns what `DiscretizationPoints` specifies |
| Discretize.DiscretizationPointsSpec | discretize.py:50-70 | nothing for no curves; AssertionError for differing knots; otherwise a strictly increasing timeline holding every knot and otherwise only interior points |
| Discretize.Sample | discretize.py:80-84 | row i holds curve i at the points, and the last row holds the points |
| Discretize.LinearInterpolate | discretize.py:76-86 | fails exactly when finding the points fails; otherwise the sampled matrix |
| GcodeParser.Find | gcode_parser.py:3 | `find`: the index of the first occurrence, or -1 exactly when there is none |
| GcodeParser.FindIs | gcode_parser.py:3 | an index holding the first occurrence is what `find` returns |
| GcodeParser.Split | gcode_parser.py:8 | `split(' ')`: separator-free pieces, at least one, that join back to the line |
| GcodeParser.SplitUnique | gcode_parser.py:8 | that splitting is the only one |
| GcodeParser.StripSpec | gcode_parser.py:10 | `strip()`: the part between a white-space prefix and suffix, empty exactly for an all-white-space token |
| GcodeParser.StripIdempotent | gcode_parser.py:10 | stripping twice changes nothing more |
| GcodeParser.WordCases | gcode_parser.py:10-16 | a token is blank, a ParseError when it does not start with 'A'..'Z', a ValueError when its number does not parse, or a letter and a number |
| GcodeParser.Uncommented | gcode_parser.py:3-5 | the line up to its first ';', without any ';' |
| GcodeParser.Parse | gcode_parser.py:2-18 | the token loop returns what `ParseLine` specifies |
| GcodeParser.CommentIgnored | gcode_parser.py:3-5 | whatever follows the first ';' has no effect |
| GcodeParser.BlankLine | gcode_parser.py:2-18 | a blank or comment-only line gives the empty map |
| GcodeParser.CollectSucceeds | gcode_parser.py:9-16 | the tokens are read exactly when each is blank or well formed |
| GcodeParser.CollectFailsAt | gcode_parser.py:9-16 | a failure is that of the first bad token |
| GcodeParser.CollectLastWins | gcode_parser.py:9-16 | each letter maps to the number of its last token |
| GcodeParser.ParsedLine | gcode_parser.py:2-18 | the map holds exactly the letters that begin a token, each mapped to its last value, and all keys are capital letters |
| GcodeParser.LineSucceeds | gcode_parser.py:2-18 | a line parses exactly when every token of its uncommented part is blank or a capital letter followed by a number |

## Left out

- Floating point: the model computes in exact reals. It keeps the constants that decide branches:
  the 1e-16 trimming tolerance of `find_roots`, eps = 1e-4 of the throttle rule, and tau as the
  double 6.283185307179586. Rounding, nan and inf are not modelled, except where a branch depends
  on them:
  - the infinite ranges of `range(i)`;
  - the inf/-inf start of `minmax`;
  - a limit over a zero peak;
  - the nan probe of `composite` for a g without knots.
- Square and cube roots and `** .25` are the parameter `RealOps`. Proofs assume they are exact
  (`Lawful`).
- `float(...)` in `parse` is a parameter, a partial number parser.
- `to_string` (polynomial.py:31-44) and `curve.__repr__` (spline.py:49-57) are left out: they
  only format text.
- The diagnostic prints to stderr in `_find_discretization_points` (discretize.py:55-59) are left
  out.
- process.py, gcode_adjuster.py, config.py, plot_slice.py and debug_plot.py are not part of this
  model.
- Move.Synthesized: the recursion of `generate_move` carries a fuel bound. Running out of fuel is
  a NoConvergence failure, which the source does not have.
- Discretize.RecursivePoints: the recursion of `_recursive_find_points` carries a fuel bound in
  the same way.
- Aliasing: in the source, `insert_knots` (spline.py:160,165) and `harmonize_knots` can leave
  several pieces, or two curves, sharing one coefficient list. A later `__mul__`
  (spline.py:91-95) then scales a shared list in place more than once. The model stores
  coefficient lists as values, so it cannot show this.
- CurveOps.Harmonize: requires the curves of the list to be distinct objects with increasing
  knots. The source accepts a list that names one curve twice.
- Move.MoveInputs: requires `|limits| <= |delta| <= |models|` and `|delta| == |source|`. The
  source raises IndexError or fails to broadcast outside these bounds. It also requires set axis
  limits to be positive.
- Move.Generated: requires positive max_speed, max_accel and max_jerk. The source does not check
  them.
- MoveCurves.GenerateMove: same preconditions as Move.Generated.
- Discretize.Ready: requires positive tolerances and a tolerance for every curve. The source
  would divide by zero, giving inf or nan, or raise IndexError.
- Discretize.Splitter: models `assert b > a` as an AssertionError failure.
- Curves.Curve.InsertKnots: the assertion at spline.py:144 (strictly increasing new knots) is a
  precondition, not a modelled failure.
- SplineKnots.Inserted: same as Curves.Curve.InsertKnots.
- Curves.Curve.PlusCurve: requires equal or strictly increasing knot lists. This is what the
  `insert_knots` assertion needs.
- CurveOps.Combine: the assertion at spline.py:188 (curves that do not overlap) is a
  precondition.
- Splines.Combined: same as CurveOps.Combine.
- Splines.Interpolation: requires `len(x) == len(y) > 0`. The source asserts equal lengths and
  raises IndexError on empty lists.
- Splines.RangeMin: requires at least one knot. The source raises IndexError without one.
- Splines.RangeMax: same as Splines.RangeMin.
- Polynomials.Derivative: requires a non-empty list. numpy fails to allocate a negative length
  for an empty one.
- Curves.Curve.Differentiate and Curves.Curve.MinMax: require every piece to have a coefficient,
  for the same reason.
- PolyShift.Shift: requires a non-empty list unless x0 == 0. The source raises IndexError.
- PolyRoots.MinMax: requires a non-empty list.
- Splines.PlusConstant: `curve + other` adds only a Python `int` or `float` (spline.py:114).
  A numpy scalar falls through and returns an unchanged copy. The model always adds the number.
- SplineCompose.ComposedIs: states f(g(x)) only where g(x) is not a knot of f, and only when g's
  coefficients are exactly zero or at least 1e-16 in magnitude. At a knot of f the source picks
  the piece from a probe point, and `find_roots` drops tiny coefficients.
- SplineCompose.KinkedComposedAt: the side rule holds only where g(x) != 0, under the same
  coefficient condition.
- Move.AsymmetricAt: same limits as SplineCompose.KinkedComposedAt.
- Move.Continued: a zero rescaled jerk comes only from a zero throttle factor, which positive
  limits do not give. It is reported as the AssertionError of motion_profiles.py:59.
