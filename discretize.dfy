/** discretize.py: the adaptive linear discretizer. Every knot-to-knot interval of a
    set of curves sharing their knots is split, recursively, at the interior point where
    the chord of some axis strays furthest from the polynomial relative to that axis's
    tolerance, until no axis strays by more than its tolerance at an interior extremum
    or the interval is narrower than min_dt; the split points are merged with the knots
    and every curve is sampled at the result. The curves are taken as `Spline` values. */
module Discretize {
  import opened Base
  import opened Polynomials
  import opened PolyRoots
  import opened Splines

  // ---------------------------------------------------------------------------
  // The worst chord error on one interval

  /** `p - line_from_to(a, p(a), b, p(b))`: the polynomial minus its chord over [a, b]. */
  function ErrorPoly(p: seq<real>, a: real, b: real): seq<real>
    requires a != b
  {
    Sub(p, LineFromTo(a, Eval(p, a), b, Eval(p, b)))
  }

  /** The chord meets the polynomial at both ends of the interval. */
  lemma ErrorVanishes(p: seq<real>, a: real, b: real)
    requires a != b
    ensures Eval(ErrorPoly(p, a, b), a) == 0.0 && Eval(ErrorPoly(p, a, b), b) == 0.0
  {
  }

  /** The extremes of the error: the roots of its derivative strictly inside (a, b). */
  function Extremes(ops: RealOps, p: seq<real>, a: real, b: real): Result<seq<real>>
    requires a != b
  {
    Roots(ops, Derivative(ErrorPoly(p, a, b)), Fin(a), Fin(b))
  }

  /** How far the chord strays from the polynomial at x. */
  function ChordError(p: seq<real>, a: real, b: real, x: real): real
    requires a != b
  {
    Abs(Eval(ErrorPoly(p, a, b), x))
  }

  /** The error at x relative to the axis's tolerance. */
  function RelError(p: seq<real>, tolerance: real, a: real, b: real, x: real): real
    requires a != b && tolerance != 0.0
  {
    ChordError(p, a, b, x) / tolerance
  }

  /** `[abs(eval(error, e)) for e in extremes]`. */
  function Errors(error: seq<real>, xs: seq<real>): (r: seq<real>)
    ensures |r| == |xs|
  {
    seq(|xs|, k requires 0 <= k < |xs| => Abs(Eval(error, xs[k])))
  }

  /** `np.argmax(s)`, scanning from the back and keeping the earlier index on a tie. */
  function ArgMax(s: seq<real>): (k: nat)
    requires |s| > 0
    ensures k < |s|
  {
    if |s| == 1 then 0
    else
      var k := ArgMax(s[..|s| - 1]);
      if s[|s| - 1] > s[k] then |s| - 1 else k
  }

  /** `np.argmax`: the index holds the largest value, and no earlier index holds it. */
  lemma {:induction false} ArgMaxSpec(s: seq<real>)
    requires |s| > 0
    ensures forall m :: 0 <= m < |s| ==> s[m] <= s[ArgMax(s)]
    ensures forall m :: 0 <= m < ArgMax(s) ==> s[m] < s[ArgMax(s)]
  {
    if |s| > 1 {
      var n := |s| - 1;
      ArgMaxSpec(s[..n]);
      assert forall m :: 0 <= m < n ==> s[..n][m] == s[m];
    }
  }

  /** One axis's worst extreme: its chord error and where it lies, or nothing when the
      error has no interior extreme; a failure of `find_roots` passes through. */
  function AxisWorst(ops: RealOps, p: seq<real>, a: real, b: real): Result<Option<(real, real)>>
    requires a != b
  {
    var error := ErrorPoly(p, a, b);
    var extremes :- Extremes(ops, p, a, b);
    if |extremes| == 0 then Success(None)
    else
      var errors := Errors(error, extremes);
      var worst := ArgMax(errors);
      Success(Some((errors[worst], extremes[worst])))
  }

  /** The worst extremes of every axis. */
  function AxisWorsts(ops: RealOps, polys: seq<seq<real>>, a: real, b: real): (r: seq<Result<Option<(real, real)>>>)
    requires a != b
    ensures |r| == |polys|
  {
    seq(|polys|, j requires 0 <= j < |polys| => AxisWorst(ops, polys[j], a, b))
  }

  /** The running worst relative error and its point after the first n axes, the worst
      error of axis j taken relative to `tolerances[j]`, starting from 1 and no point:
      an axis takes over only with a strictly larger relative error. */
  function Scan(ws: seq<Result<Option<(real, real)>>>, tolerances: seq<real>, n: nat): Result<(real, Option<real>)>
    requires n <= |ws| <= |tolerances|
    requires forall i :: 0 <= i < |tolerances| ==> tolerances[i] > 0.0
  {
    if n == 0 then Success((1.0, None))
    else
      var prev :- Scan(ws, tolerances, n - 1);
      var w :- ws[n - 1];
      if w.Some? && w.value.0 / tolerances[n - 1] > prev.0 then Success((w.value.0 / tolerances[n - 1], Some(w.value.1)))
      else Success(prev)
  }

  /** `_find_subdivision_point(polynomials, tolerances, a, b)` as a value. */
  function SubdivisionPoint(ops: RealOps, polys: seq<seq<real>>, tolerances: seq<real>, a: real, b: real): Result<Option<real>>
    requires b > a && |polys| <= |tolerances|
    requires forall i :: 0 <= i < |tolerances| ==> tolerances[i] > 0.0
  {
    var s :- Scan(AxisWorsts(ops, polys, a, b), tolerances, |polys|);
    Success(if s.0 > 1.0 then s.1 else None)
  }

  /** ws holds the worst extreme of every axis. */
  ghost predicate IsAxisWorsts(ws: seq<Result<Option<(real, real)>>>, ops: RealOps, polys: seq<seq<real>>, a: real, b: real)
    requires a != b
  {
    && |ws| == |polys|
    && forall k {:trigger AxisWorsts(ops, polys, a, b)[k]} :: 0 <= k < |ws| ==> ws[k] == AxisWorsts(ops, polys, a, b)[k]
  }

  /** The body of the loop of `_find_subdivision_point` for axis i: the chord, the error,
      the roots of its derivative inside (a, b), and the largest of the errors there. */
  method WorstOnAxis(ops: RealOps, polynomials: seq<seq<real>>, i: nat, a: real, b: real,
                     ghost ws: seq<Result<Option<(real, real)>>>)
    returns (w: Result<Option<(real, real)>>)
    requires b > a && i < |polynomials| && IsAxisWorsts(ws, ops, polynomials, a, b)
    ensures w == ws[i]
  {
    assert ws[i] == AxisWorsts(ops, polynomials, a, b)[i];
    var polynomial := polynomials[i];
    var ya := Horner(polynomial, a);
    var yb := Horner(polynomial, b);
    var line := LineFromTo(a, ya, b, yb);
    var error := Sub(polynomial, line);
    var slope := Differentiate(error);
    var extremes := FindRoots(ops, slope, Fin(a), Fin(b));
    assert error == ErrorPoly(polynomial, a, b);
    if extremes.Failure? {
      return Failure(extremes.error);
    }
    if |extremes.value| == 0 {
      return Success(None);
    }
    var errors := Errors(error, extremes.value);
    var worstIndex := ArgMax(errors);
    return Success(Some((errors[worstIndex], extremes.value[worstIndex])));
  }

  /** The loop of `_find_subdivision_point` over the axes, keeping the running worst
      relative error and its point; `ws` names the per-axis outcomes it computes. */
  method WorstOverAxes(ops: RealOps, polynomials: seq<seq<real>>, tolerances: seq<real>, a: real, b: real,
                       ghost ws: seq<Result<Option<(real, real)>>>)
    returns (s: Result<(real, Option<real>)>)
    requires b > a && |polynomials| <= |tolerances|
    requires forall i :: 0 <= i < |tolerances| ==> tolerances[i] > 0.0
    requires IsAxisWorsts(ws, ops, polynomials, a, b)
    ensures s == Scan(ws, tolerances, |ws|)
  {
    var worstX: Option<real> := None;
    var worstRe := 1.0;
    for i := 0 to |polynomials|
      invariant Scan(ws, tolerances, i) == Success((worstRe, worstX))
    {
      var w := WorstOnAxis(ops, polynomials, i, a, b, ws);
      if w.Failure? {
        ScanStops(ws, tolerances, i + 1, |ws|);
        return Failure(w.error);
      }
      if w.value.Some? {
        var relative := w.value.value.0 / tolerances[i];
        if relative > worstRe {
          worstRe := relative;
          worstX := Some(w.value.value.1);
        }
      }
    }
    return Success((worstRe, worstX));
  }

  /** `_find_subdivision_point`: the worst point over all axes, reported only when its
      error exceeds the tolerance. */
  method FindSubdivisionPoint(ops: RealOps, polynomials: seq<seq<real>>, tolerances: seq<real>, a: real, b: real)
    returns (r: Result<Option<real>>)
    requires b > a && |polynomials| <= |tolerances|
    requires forall i :: 0 <= i < |tolerances| ==> tolerances[i] > 0.0
    ensures r == SubdivisionPoint(ops, polynomials, tolerances, a, b)
  {
    var s := WorstOverAxes(ops, polynomials, tolerances, a, b, AxisWorsts(ops, polynomials, a, b));
    if s.Failure? {
      return Failure(s.error);
    }
    var (worstRe, worstX) := s.value;
    if worstRe > 1.0 {
      return Success(worstX);
    } else {
      return Success(None);
    }
  }

  /** Once an axis fails, the scan fails with that error. */
  lemma {:induction false} ScanStops(ws: seq<Result<Option<(real, real)>>>, tolerances: seq<real>, i: nat, n: nat)
    requires i <= n <= |ws| <= |tolerances|
    requires forall k :: 0 <= k < |tolerances| ==> tolerances[k] > 0.0
    requires Scan(ws, tolerances, i).Failure?
    ensures Scan(ws, tolerances, n) == Failure(Scan(ws, tolerances, i).error)
    decreases n
  {
    if n > i {
      ScanStops(ws, tolerances, i, n - 1);
    }
  }

  /** Every value `find_roots` reports lies strictly inside its interval. */
  lemma RootsInside(ops: RealOps, p: seq<real>, lo: Ext, hi: Ext)
    ensures Roots(ops, p, lo, hi).Success? ==> forall x :: x in Roots(ops, p, lo, hi).value ==> InRange(lo, hi, x)
  {
  }

  /** Dividing by a positive tolerance keeps the order. */
  lemma DivideOrder(x: real, y: real, t: real)
    requires t > 0.0 && x <= y
    ensures x / t <= y / t
  {
    assert (y - x) / t >= 0.0;
    assert y / t - x / t == (y - x) / t;
  }

  /** w is the worst extreme of the chord error of p over (a, b) given the outcome xs of
      `find_roots`: it fails exactly when xs does; it has a point exactly when there is
      an extreme, and then the point is one of the extremes, strictly inside (a, b), with
      the largest chord error among them. */
  ghost predicate WorstOf(w: Result<Option<(real, real)>>, xs: Result<seq<real>>, p: seq<real>, a: real, b: real)
    requires a != b
  {
    && (w.Success? <==> xs.Success?)
    && (w.Success? ==>
          && (w.value.None? <==> |xs.value| == 0)
          && (w.value.Some? ==> w.value.value.1 in xs.value && a < w.value.value.1 < b)
          && (w.value.Some? ==> w.value.value.0 == ChordError(p, a, b, w.value.value.1))
          && (w.value.Some? ==> forall e :: e in xs.value ==> ChordError(p, a, b, e) <= w.value.value.0))
  }

  /** What one axis contributes is the worst of the extremes `find_roots` reports. */
  lemma AxisWorstSpec(ops: RealOps, p: seq<real>, a: real, b: real)
    requires b > a
    ensures WorstOf(AxisWorst(ops, p, a, b), Extremes(ops, p, a, b), p, a, b)
  {
    RootsInside(ops, Derivative(ErrorPoly(p, a, b)), Fin(a), Fin(b));
    if Extremes(ops, p, a, b).Success? {
      var xs := Extremes(ops, p, a, b).value;
      if |xs| > 0 {
        var errors := Errors(ErrorPoly(p, a, b), xs);
        ArgMaxSpec(errors);
        forall e | e in xs ensures ChordError(p, a, b, e) <= errors[ArgMax(errors)] {
          var m :| 0 <= m < |xs| && xs[m] == e;
        }
      }
    }
  }

  /** The scan over the first n axes fails exactly when one of them failed; otherwise its
      running value is at least 1 and at least every axis's relative worst error, and it
      holds a point exactly when the value exceeds 1, the point of an axis whose relative
      worst error is that value. */
  lemma {:induction false} ScanSpec(ws: seq<Result<Option<(real, real)>>>, tolerances: seq<real>, n: nat)
    requires n <= |ws| <= |tolerances|
    requires forall i :: 0 <= i < |tolerances| ==> tolerances[i] > 0.0
    ensures Scan(ws, tolerances, n).Success? <==> forall j :: 0 <= j < n ==> ws[j].Success?
    ensures Scan(ws, tolerances, n).Success? ==>
      var s := Scan(ws, tolerances, n).value;
      && s.0 >= 1.0 && (s.1.Some? <==> s.0 > 1.0)
      && (forall j :: 0 <= j < n && ws[j].value.Some? ==> ws[j].value.value.0 / tolerances[j] <= s.0)
      && (s.1.Some? ==>
            exists j :: 0 <= j < n && ws[j].value.Some? && ws[j].value.value.1 == s.1.value &&
                        ws[j].value.value.0 / tolerances[j] == s.0)
  {
    if n > 0 {
      ScanSpec(ws, tolerances, n - 1);
      if Scan(ws, tolerances, n - 1).Failure? {
        ScanStops(ws, tolerances, n - 1, n);
      }
    }
  }

  /** The scan over axes whose outcomes are the worst of their extremes `es`: it fails
      exactly when some axis's extremes do; without a point, no extreme of any axis
      strays by more than its tolerance; a point is an extreme of some axis strictly
      inside (a, b) whose relative error exceeds 1 and is the largest over all. */
  lemma {:induction false} ScanPointSpec(ws: seq<Result<Option<(real, real)>>>, es: seq<Result<seq<real>>>,
                                         polys: seq<seq<real>>, tolerances: seq<real>, a: real, b: real)
    requires b > a && |ws| == |es| == |polys| <= |tolerances|
    requires forall i :: 0 <= i < |tolerances| ==> tolerances[i] > 0.0
    requires forall j :: 0 <= j < |ws| ==> WorstOf(ws[j], es[j], polys[j], a, b)
    ensures Scan(ws, tolerances, |ws|).Success? <==> forall j :: 0 <= j < |es| ==> es[j].Success?
    ensures Scan(ws, tolerances, |ws|).Success? ==>
      (Scan(ws, tolerances, |ws|).value.1.Some? <==> Scan(ws, tolerances, |ws|).value.0 > 1.0)
    ensures Scan(ws, tolerances, |ws|).Success? ==>
      forall j, e :: 0 <= j < |es| && e in es[j].value ==>
        RelError(polys[j], tolerances[j], a, b, e) <= Scan(ws, tolerances, |ws|).value.0
    ensures Scan(ws, tolerances, |ws|).Success? && Scan(ws, tolerances, |ws|).value.1.Some? ==>
      var s := Scan(ws, tolerances, |ws|).value;
      a < s.1.value < b && s.0 > 1.0 &&
      exists j :: 0 <= j < |es| && es[j].Success? && s.1.value in es[j].value &&
        RelError(polys[j], tolerances[j], a, b, s.1.value) == s.0
  {
    ScanSpec(ws, tolerances, |ws|);
    if Scan(ws, tolerances, |ws|).Success? {
      var s := Scan(ws, tolerances, |ws|).value;
      forall j, e | 0 <= j < |es| && e in es[j].value
        ensures RelError(polys[j], tolerances[j], a, b, e) <= s.0
      {
        DivideOrder(ChordError(polys[j], a, b, e), ws[j].value.value.0, tolerances[j]);
      }
    }
  }

  /** The extremes of every axis. */
  function AllExtremes(ops: RealOps, polys: seq<seq<real>>, a: real, b: real): (r: seq<Result<seq<real>>>)
    requires a != b
    ensures |r| == |polys|
  {
    seq(|polys|, j requires 0 <= j < |polys| => Extremes(ops, polys[j], a, b))
  }

  /** Every axis's outcome is the worst of its extremes. */
  lemma AxisWorstsSpec(ops: RealOps, polys: seq<seq<real>>, a: real, b: real)
    requires b > a
    ensures forall j :: 0 <= j < |polys| ==>
      WorstOf(AxisWorsts(ops, polys, a, b)[j], AllExtremes(ops, polys, a, b)[j], polys[j], a, b)
  {
    forall j | 0 <= j < |polys|
      ensures WorstOf(AxisWorsts(ops, polys, a, b)[j], AllExtremes(ops, polys, a, b)[j], polys[j], a, b)
    {
      AxisWorstSpec(ops, polys[j], a, b);
    }
  }

  /** `_find_subdivision_point`: it fails exactly when `find_roots` fails for some axis;
      a point it returns is an extreme of some axis's error strictly inside (a, b) whose
      relative error exceeds 1 and is the largest over every extreme of every axis; when
      it returns nothing, no axis's error exceeds its tolerance at any interior
      extreme. */
  lemma SubdivisionPointSpec(ops: RealOps, polys: seq<seq<real>>, tolerances: seq<real>, a: real, b: real)
    requires b > a && |polys| <= |tolerances|
    requires forall i :: 0 <= i < |tolerances| ==> tolerances[i] > 0.0
    ensures SubdivisionPoint(ops, polys, tolerances, a, b).Success? <==>
      forall j :: 0 <= j < |polys| ==> AllExtremes(ops, polys, a, b)[j].Success?
    ensures SubdivisionPoint(ops, polys, tolerances, a, b) == Success(None) ==>
      forall j, e :: 0 <= j < |polys| && e in AllExtremes(ops, polys, a, b)[j].value ==>
        RelError(polys[j], tolerances[j], a, b, e) <= 1.0
    ensures SubdivisionPoint(ops, polys, tolerances, a, b).Success? &&
            SubdivisionPoint(ops, polys, tolerances, a, b).value.Some? ==>
      var x := SubdivisionPoint(ops, polys, tolerances, a, b).value.value;
      a < x < b &&
      exists j :: 0 <= j < |polys| && AllExtremes(ops, polys, a, b)[j].Success? &&
        x in AllExtremes(ops, polys, a, b)[j].value && RelError(polys[j], tolerances[j], a, b, x) > 1.0 &&
        forall j', e :: 0 <= j' < |polys| && e in AllExtremes(ops, polys, a, b)[j'].value ==>
          RelError(polys[j'], tolerances[j'], a, b, e) <= RelError(polys[j], tolerances[j], a, b, x)
  {
    AxisWorstsSpec(ops, polys, a, b);
    ScanPointSpec(AxisWorsts(ops, polys, a, b), AllExtremes(ops, polys, a, b), polys, tolerances, a, b);
  }

  // ---------------------------------------------------------------------------
  // Recursive subdivision

  /** A point `_find_subdivision_point` returns lies strictly inside the interval. */
  lemma SplitPointInside(ops: RealOps, polys: seq<seq<real>>, tolerances: seq<real>, a: real, b: real)
    requires b > a && |polys| <= |tolerances|
    requires forall i :: 0 <= i < |tolerances| ==> tolerances[i] > 0.0
    ensures SubdivisionPoint(ops, polys, tolerances, a, b).Success? &&
            SubdivisionPoint(ops, polys, tolerances, a, b).value.Some? ==>
      a < SubdivisionPoint(ops, polys, tolerances, a, b).value.value < b
  {
    SubdivisionPointSpec(ops, polys, tolerances, a, b);
  }

  /** `_find_subdivision_point` for the given axes as a function of the interval; on an
      empty interval its `assert b > a` fails. */
  function Splitter(ops: RealOps, polys: seq<seq<real>>, tolerances: seq<real>): (real, real) -> Result<Option<real>>
    requires |polys| <= |tolerances|
    requires forall i :: 0 <= i < |tolerances| ==> tolerances[i] > 0.0
  {
    (lo: real, hi: real) => if hi > lo then SubdivisionPoint(ops, polys, tolerances, lo, hi) else Failure(AssertionFailed)
  }

  /** The recursion of `_recursive_find_points` around a split-point finder: its
      `assert b >= a` failing for a reversed interval, nothing for an interval narrower
      than min_dt or one that needs no point, else the points of the left part, the split
      point and the points of the right part. `fuel` bounds the
      depth of the recursion; running out of it is a NoConvergence failure. */
  function Subdivide(split: (real, real) -> Result<Option<real>>, minDt: real, a: real, b: real, fuel: nat): Result<seq<real>>
    decreases fuel
  {
    if b < a then Failure(AssertionFailed)
    else if b - a < minDt then Success([])
    else
      var x :- split(a, b);
      if x.None? then Success([])
      else if fuel == 0 then Failure(NoConvergence)
      else
        var left :- Subdivide(split, minDt, a, x.value, fuel - 1);
        var right :- Subdivide(split, minDt, x.value, b, fuel - 1);
        Success(left + [x.value] + right)
  }

  /** `_recursive_find_points(polynomials, tolerances, min_dt, a, b)`. */
  function RecursivePoints(ops: RealOps, polys: seq<seq<real>>, tolerances: seq<real>, minDt: real, a: real, b: real, fuel: nat): Result<seq<real>>
    requires |polys| <= |tolerances|
    requires forall i :: 0 <= i < |tolerances| ==> tolerances[i] > 0.0
  {
    Subdivide(Splitter(ops, polys, tolerances), minDt, a, b, fuel)
  }

  /** A split-point finder that only ever returns points strictly inside the interval. */
  ghost predicate SplitsInside(split: (real, real) -> Result<Option<real>>) {
    forall lo, hi :: split(lo, hi).Success? && split(lo, hi).value.Some? ==> lo < split(lo, hi).value.value < hi
  }

  /** `_find_subdivision_point` splits inside. */
  lemma SplitterInside(ops: RealOps, polys: seq<seq<real>>, tolerances: seq<real>)
    requires |polys| <= |tolerances|
    requires forall i :: 0 <= i < |tolerances| ==> tolerances[i] > 0.0
    ensures SplitsInside(Splitter(ops, polys, tolerances))
  {
    var split := Splitter(ops, polys, tolerances);
    forall lo, hi | split(lo, hi).Success? && split(lo, hi).value.Some? ensures lo < split(lo, hi).value.value < hi {
      SplitPointInside(ops, polys, tolerances, lo, hi);
    }
  }

  /** With a finder that splits inside, the points found for an interval increase
      strictly and lie strictly inside it. */
  lemma {:induction false} SubdivideInside(split: (real, real) -> Result<Option<real>>, minDt: real, a: real, b: real, fuel: nat)
    requires SplitsInside(split)
    ensures Subdivide(split, minDt, a, b, fuel).Success? ==>
      var ps := Subdivide(split, minDt, a, b, fuel).value;
      Increasing(ps) && forall k :: 0 <= k < |ps| ==> a < ps[k] < b
    decreases fuel
  {
    var r := Subdivide(split, minDt, a, b, fuel);
    if r.Success? && b - a >= minDt && split(a, b).value.Some? && fuel > 0 {
      var m := split(a, b).value.value;
      SubdivideInside(split, minDt, a, m, fuel - 1);
      SubdivideInside(split, minDt, m, b, fuel - 1);
      var left := Subdivide(split, minDt, a, m, fuel - 1).value;
      var right := Subdivide(split, minDt, m, b, fuel - 1).value;
      assert r.value == left + [m] + right;
      SplitIncreasing(left, m, right, a, b);
    }
  }

  /** `_recursive_find_points`: the points found for an interval increase strictly and
      lie strictly inside it. */
  lemma RecursivePointsInside(ops: RealOps, polys: seq<seq<real>>, tolerances: seq<real>, minDt: real, a: real, b: real, fuel: nat)
    requires |polys| <= |tolerances|
    requires forall i :: 0 <= i < |tolerances| ==> tolerances[i] > 0.0
    ensures RecursivePoints(ops, polys, tolerances, minDt, a, b, fuel).Success? ==>
      var ps := RecursivePoints(ops, polys, tolerances, minDt, a, b, fuel).value;
      Increasing(ps) && forall k :: 0 <= k < |ps| ==> a < ps[k] < b
  {
    SplitterInside(ops, polys, tolerances);
    SubdivideInside(Splitter(ops, polys, tolerances), minDt, a, b, fuel);
  }

  /** Points inside (a, m), then m, then points inside (m, b), each part increasing,
      increase and lie inside (a, b). */
  lemma SplitIncreasing(left: seq<real>, m: real, right: seq<real>, a: real, b: real)
    requires a < m < b && Increasing(left) && Increasing(right)
    requires forall k :: 0 <= k < |left| ==> a < left[k] < m
    requires forall k :: 0 <= k < |right| ==> m < right[k] < b
    ensures Increasing(left + [m] + right)
    ensures forall k :: 0 <= k < |left + [m] + right| ==> a < (left + [m] + right)[k] < b
  {
    var s := left + [m] + right;
    forall i, j | 0 <= i < j < |s| ensures s[i] < s[j] {
      if j < |left| {
      } else if i < |left| {
        assert s[i] < m;
      } else if i == |left| {
        assert s[j] == right[j - |left| - 1];
      } else {
        assert s[i] == right[i - |left| - 1] && s[j] == right[j - |left| - 1];
      }
    }
  }

  /** An interval at least min_dt wide for which no point is found needs none: no
      axis's error exceeds its tolerance at an interior extreme. */
  lemma NoPointsWithinTolerance(ops: RealOps, polys: seq<seq<real>>, tolerances: seq<real>, minDt: real, a: real, b: real, fuel: nat)
    requires b > a && b - a >= minDt && |polys| <= |tolerances|
    requires forall i :: 0 <= i < |tolerances| ==> tolerances[i] > 0.0
    requires RecursivePoints(ops, polys, tolerances, minDt, a, b, fuel) == Success([])
    ensures forall j :: 0 <= j < |polys| ==> AllExtremes(ops, polys, a, b)[j].Success?
    ensures forall j, e :: 0 <= j < |polys| && e in AllExtremes(ops, polys, a, b)[j].value ==>
      RelError(polys[j], tolerances[j], a, b, e) <= 1.0
  {
    NoPointsNoSplit(ops, polys, tolerances, minDt, a, b, fuel);
    SubdivisionPointSpec(ops, polys, tolerances, a, b);
  }

  /** An interval at least min_dt wide gets no points only when no split point is found. */
  lemma NoPointsNoSplit(ops: RealOps, polys: seq<seq<real>>, tolerances: seq<real>, minDt: real, a: real, b: real, fuel: nat)
    requires b > a && b - a >= minDt && |polys| <= |tolerances|
    requires forall i :: 0 <= i < |tolerances| ==> tolerances[i] > 0.0
    requires RecursivePoints(ops, polys, tolerances, minDt, a, b, fuel) == Success([])
    ensures SubdivisionPoint(ops, polys, tolerances, a, b) == Success(None)
  {
    SubdivideNone(Splitter(ops, polys, tolerances), minDt, a, b, fuel);
    assert Splitter(ops, polys, tolerances)(a, b) == SubdivisionPoint(ops, polys, tolerances, a, b);
  }

  /** An interval at least min_dt wide gets no points only when the finder finds none. */
  lemma SubdivideNone(split: (real, real) -> Result<Option<real>>, minDt: real, a: real, b: real, fuel: nat)
    requires b - a >= minDt && Subdivide(split, minDt, a, b, fuel) == Success([])
    ensures split(a, b) == Success(None)
  {
  }

  // ---------------------------------------------------------------------------
  // All intervals

  /** `heapq.merge(xs, ys)`: the two lists merged by repeatedly taking the smaller
      head, the head of xs on a tie. */
  function Merge(xs: seq<real>, ys: seq<real>): (r: seq<real>)
    ensures multiset(r) == multiset(xs) + multiset(ys)
    decreases |xs| + |ys|
  {
    if |xs| == 0 then ys
    else if |ys| == 0 then xs
    else if ys[0] < xs[0] then
      assert ys == [ys[0]] + ys[1..];
      [ys[0]] + Merge(xs, ys[1..])
    else
      assert xs == [xs[0]] + xs[1..];
      [xs[0]] + Merge(xs[1..], ys)
  }

  /** A value below everything in two lists, put before an increasing merge of them,
      keeps it increasing. */
  lemma ConsIncreasing(h: real, rest: seq<real>, xs: seq<real>, ys: seq<real>)
    requires Increasing(rest) && multiset(rest) == multiset(xs) + multiset(ys)
    requires forall x :: x in xs ==> h < x
    requires forall y :: y in ys ==> h < y
    ensures Increasing([h] + rest)
  {
    forall k | 0 <= k < |rest| ensures h < rest[k] {
      assert rest[k] in multiset(rest);
      if rest[k] in multiset(xs) {
        assert rest[k] in xs;
      } else {
        assert rest[k] in multiset(ys);
        assert rest[k] in ys;
      }
    }
  }

  /** Merging two increasing lists with no value in common gives an increasing list. */
  lemma {:induction false} MergeIncreasing(xs: seq<real>, ys: seq<real>)
    requires Increasing(xs) && Increasing(ys)
    requires forall x :: x in xs ==> x !in ys
    ensures Increasing(Merge(xs, ys))
    decreases |xs| + |ys|
  {
    if |xs| > 0 && |ys| > 0 {
      if ys[0] < xs[0] {
        MergeIncreasing(xs, ys[1..]);
        assert forall x :: x in xs ==> ys[0] < x;
        ConsIncreasing(ys[0], Merge(xs, ys[1..]), xs, ys[1..]);
      } else {
        assert xs[0] < ys[0] by {
          assert xs[0] in xs;
        }
        MergeIncreasing(xs[1..], ys);
        assert forall y :: y in ys ==> xs[0] < y;
        ConsIncreasing(xs[0], Merge(xs[1..], ys), xs[1..], ys);
      }
    }
  }

  /** The pieces of every curve on interval i (`[curves[j].polys[i+1] for j ...]`). */
  function PiecesAt(curves: seq<Spline>, i: nat): (r: seq<seq<real>>)
    requires forall j :: 0 <= j < |curves| ==> i + 1 < |curves[j].polys|
    ensures |r| == |curves|
  {
    seq(|curves|, j requires 0 <= j < |curves| => curves[j].polys[i + 1])
  }

  /** What `_find_discretization_points` needs of its arguments: valid curves and a
      positive tolerance for every curve. */
  predicate Ready(curves: seq<Spline>, tolerances: seq<real>) {
    && |curves| <= |tolerances|
    && (forall i :: 0 <= i < |tolerances| ==> tolerances[i] > 0.0)
    && (forall j :: 0 <= j < |curves| ==> curves[j].Valid())
  }

  /** Every curve has the knots of the first, which `_find_discretization_points`
      asserts pair by pair. */
  predicate SharedKnots(curves: seq<Spline>) {
    |curves| > 0 && forall j :: 0 <= j < |curves| ==> curves[j].knots == curves[0].knots
  }

  /** The number of knot intervals, `len(knots) - 1` (none without knots). */
  function IntervalCount(knots: seq<real>): (n: nat)
    ensures n < |knots| || n == |knots| == 0
  {
    if |knots| == 0 then 0 else |knots| - 1
  }

  /** What `_recursive_find_points` finds on each knot interval of the curves. */
  function IntervalPoints(ops: RealOps, curves: seq<Spline>, tolerances: seq<real>, minDt: real, fuel: nat): (r: seq<Result<seq<real>>>)
    requires Ready(curves, tolerances) && SharedKnots(curves)
    ensures |r| == IntervalCount(curves[0].knots)
  {
    seq(IntervalCount(curves[0].knots), i requires 0 <= i < IntervalCount(curves[0].knots) =>
      RecursivePoints(ops, PiecesAt(curves, i), tolerances, minDt, curves[0].knots[i], curves[0].knots[i + 1], fuel))
  }

  /** Interval i of the knots gets what `_recursive_find_points` finds there. */
  lemma IntervalPointsAt(ops: RealOps, curves: seq<Spline>, tolerances: seq<real>, minDt: real, fuel: nat, i: nat)
    requires Ready(curves, tolerances) && SharedKnots(curves) && i < IntervalCount(curves[0].knots)
    ensures forall j :: 0 <= j < |curves| ==> i + 1 < |curves[j].polys|
    ensures IntervalPoints(ops, curves, tolerances, minDt, fuel)[i] ==
      RecursivePoints(ops, PiecesAt(curves, i), tolerances, minDt, curves[0].knots[i], curves[0].knots[i + 1], fuel)
  {
  }

  /** The points of the first n intervals, in interval order; the first failure stops it. */
  function Gather(rs: seq<Result<seq<real>>>, n: nat): Result<seq<real>>
    requires n <= |rs|
  {
    if n == 0 then Success([])
    else
      var before :- Gather(rs, n - 1);
      var found :- rs[n - 1];
      Success(before + found)
  }

  /** `_find_discretization_points(curves, tolerances, min_dt)` as a value. */
  function DiscretizationPoints(ops: RealOps, curves: seq<Spline>, tolerances: seq<real>, minDt: real, fuel: nat): Result<seq<real>>
    requires Ready(curves, tolerances)
  {
    if |curves| == 0 then Success([])
    else if !SharedKnots(curves) then Failure(AssertionFailed)
    else
      var additional :- Gather(IntervalPoints(ops, curves, tolerances, minDt, fuel), IntervalCount(curves[0].knots));
      Success(Merge(curves[0].knots, additional))
  }

  /** rs holds what `_recursive_find_points` finds on each knot interval. */
  ghost predicate IsIntervalPoints(rs: seq<Result<seq<real>>>, ops: RealOps, curves: seq<Spline>, tolerances: seq<real>, minDt: real, fuel: nat)
    requires Ready(curves, tolerances) && SharedKnots(curves)
  {
    && |rs| == IntervalCount(curves[0].knots)
    && forall k {:trigger IntervalPoints(ops, curves, tolerances, minDt, fuel)[k]} :: 0 <= k < |rs| ==>
         rs[k] == IntervalPoints(ops, curves, tolerances, minDt, fuel)[k]
  }

  /** The body of the loop of `_find_discretization_points` for knot interval i: the
      pieces of every curve there and `_recursive_find_points` on them. */
  method FindPointsOnInterval(ops: RealOps, curves: seq<Spline>, tolerances: seq<real>, minDt: real, fuel: nat, i: nat,
                              ghost rs: seq<Result<seq<real>>>)
    returns (found: Result<seq<real>>)
    requires Ready(curves, tolerances) && SharedKnots(curves)
    requires IsIntervalPoints(rs, ops, curves, tolerances, minDt, fuel) && i < |rs|
    ensures found == rs[i]
  {
    IntervalPointsAt(ops, curves, tolerances, minDt, fuel, i);
    var points := curves[0].knots;
    var polys := PiecesAt(curves, i);
    found := RecursivePoints(ops, polys, tolerances, minDt, points[i], points[i + 1], fuel);
  }

  /** The loop of `_find_discretization_points` over the knot intervals, extending the
      list of added points by what is found on each; `rs` names those outcomes. */
  method GatherIntervals(ops: RealOps, curves: seq<Spline>, tolerances: seq<real>, minDt: real, fuel: nat,
                         ghost rs: seq<Result<seq<real>>>)
    returns (r: Result<seq<real>>)
    requires Ready(curves, tolerances) && SharedKnots(curves)
    requires IsIntervalPoints(rs, ops, curves, tolerances, minDt, fuel)
    ensures r == Gather(rs, |rs|)
  {
    var additional := [];
    for i := 0 to IntervalCount(curves[0].knots)
      invariant Gather(rs, i) == Success(additional)
    {
      var found := FindPointsOnInterval(ops, curves, tolerances, minDt, fuel, i, rs);
      if found.Failure? {
        GatherStops(rs, i + 1, |rs|);
        return Failure(found.error);
      }
      additional := additional + found.value;
    }
    return Success(additional);
  }

  /** `_find_discretization_points`: nothing for no curves; otherwise the points added
      on every knot interval merged with the knots. */
  method FindDiscretizationPoints(ops: RealOps, curves: seq<Spline>, tolerances: seq<real>, minDt: real, fuel: nat)
    returns (r: Result<seq<real>>)
    requires Ready(curves, tolerances)
    ensures r == DiscretizationPoints(ops, curves, tolerances, minDt, fuel)
  {
    if |curves| == 0 {
      return Success([]);
    }
    for i := 0 to |curves| - 1
      invariant forall j :: 0 <= j <= i ==> curves[j].knots == curves[0].knots
    {
      if curves[i].knots != curves[i + 1].knots {
        return Failure(AssertionFailed);
      }
    }
    var points := curves[0].knots;
    var additional :- GatherIntervals(ops, curves, tolerances, minDt, fuel, IntervalPoints(ops, curves, tolerances, minDt, fuel));
    return Success(Merge(points, additional));
  }

  /** Once an interval fails, the gathering fails with that error. */
  lemma {:induction false} GatherStops(rs: seq<Result<seq<real>>>, i: nat, n: nat)
    requires i <= n <= |rs|
    requires Gather(rs, i).Failure?
    ensures Gather(rs, n) == Failure(Gather(rs, i).error)
    decreases n
  {
    if n > i {
      GatherStops(rs, i, n - 1);
    }
  }

  /** Points found for an interval, if any, increase and lie strictly inside it. */
  predicate FoundInside(r: Result<seq<real>>, lo: real, hi: real) {
    r.Success? ==> Increasing(r.value) && forall k :: 0 <= k < |r.value| ==> lo < r.value[k] < hi
  }

  /** Points found strictly inside each interval of increasing knots, increasing within
      each interval, gather into an increasing list strictly between the first knot and
      the n-th that holds no knot. */
  lemma {:induction false} GatherInside(rs: seq<Result<seq<real>>>, knots: seq<real>, n: nat)
    requires n <= |rs| && |rs| < |knots| && Increasing(knots)
    requires forall i :: 0 <= i < |rs| ==> FoundInside(rs[i], knots[i], knots[i + 1])
    ensures Gather(rs, n).Success? ==>
      var ps := Gather(rs, n).value;
      Increasing(ps) && forall k :: 0 <= k < |ps| ==> knots[0] < ps[k] < knots[n] && ps[k] !in knots
  {
    if n > 0 && Gather(rs, n).Success? {
      GatherInside(rs, knots, n - 1);
      var before := Gather(rs, n - 1).value;
      var found := rs[n - 1].value;
      assert Gather(rs, n).value == before + found;
      assert knots[0] <= knots[n - 1] < knots[n];
      forall k | 0 <= k < |found| ensures found[k] !in knots {
        NotAKnot(knots, n - 1, found[k]);
      }
      Append(before, found, knots[0], knots[n - 1], knots[n]);
    }
  }

  /** A value strictly between two neighbouring increasing knots is no knot. */
  lemma NotAKnot(knots: seq<real>, i: nat, x: real)
    requires i + 1 < |knots| && Increasing(knots) && knots[i] < x < knots[i + 1]
    ensures x !in knots
  {
    forall m | 0 <= m < |knots| ensures knots[m] != x {
      if m < i {
        assert knots[m] < knots[i];
      } else if m > i + 1 {
        assert knots[i + 1] < knots[m];
      }
    }
  }

  /** An increasing list below m followed by an increasing list inside (m, hi) is
      increasing and lies inside (lo, hi). */
  lemma Append(before: seq<real>, found: seq<real>, lo: real, m: real, hi: real)
    requires lo <= m < hi && Increasing(before) && Increasing(found)
    requires forall k :: 0 <= k < |before| ==> lo < before[k] < m
    requires forall k :: 0 <= k < |found| ==> m < found[k] < hi
    ensures Increasing(before + found)
    ensures forall k :: 0 <= k < |before + found| ==> lo < (before + found)[k] < hi
  {
    var s := before + found;
    forall i, j | 0 <= i < j < |s| ensures s[i] < s[j] {
      if j < |before| {
      } else if i < |before| {
        assert s[j] == found[j - |before|];
      } else {
        assert s[i] == found[i - |before|] && s[j] == found[j - |before|];
      }
    }
  }

  /** Knots in increasing order bound the points `_recursive_find_points` finds on
      each interval. */
  lemma IntervalPointsInside(ops: RealOps, curves: seq<Spline>, tolerances: seq<real>, minDt: real, fuel: nat)
    requires Ready(curves, tolerances) && SharedKnots(curves) && Increasing(curves[0].knots)
    ensures forall i :: 0 <= i < IntervalCount(curves[0].knots) ==>
      FoundInside(IntervalPoints(ops, curves, tolerances, minDt, fuel)[i], curves[0].knots[i], curves[0].knots[i + 1])
  {
    var rs := IntervalPoints(ops, curves, tolerances, minDt, fuel);
    var knots := curves[0].knots;
    forall i | 0 <= i < |rs| ensures FoundInside(rs[i], knots[i], knots[i + 1]) {
      IntervalPointsAt(ops, curves, tolerances, minDt, fuel, i);
      RecursivePointsInside(ops, PiecesAt(curves, i), tolerances, minDt, knots[i], knots[i + 1], fuel);
    }
  }

  /** `_find_discretization_points`: nothing for no curves; a failed assertion for curves
      whose knots differ; otherwise, with knots in increasing order, a strictly increasing
      timeline that holds every knot and, besides the knots, only points strictly inside
      the knot range. */
  lemma DiscretizationPointsSpec(ops: RealOps, curves: seq<Spline>, tolerances: seq<real>, minDt: real, fuel: nat)
    requires Ready(curves, tolerances)
    requires |curves| > 0 ==> Increasing(curves[0].knots)
    ensures |curves| == 0 ==> DiscretizationPoints(ops, curves, tolerances, minDt, fuel) == Success([])
    ensures |curves| > 0 && !SharedKnots(curves) ==>
      DiscretizationPoints(ops, curves, tolerances, minDt, fuel) == Failure(AssertionFailed)
    ensures DiscretizationPoints(ops, curves, tolerances, minDt, fuel).Success? && |curves| > 0 ==>
      var pts := DiscretizationPoints(ops, curves, tolerances, minDt, fuel).value;
      var knots := curves[0].knots;
      && Increasing(pts)
      && (forall k :: k in knots ==> k in pts)
      && (forall x :: x in pts && x !in knots ==> 0 < |knots| && knots[0] < x < knots[|knots| - 1])
  {
    if |curves| > 0 && |curves[0].knots| > 0 && DiscretizationPoints(ops, curves, tolerances, minDt, fuel).Success? {
      var knots := curves[0].knots;
      var rs := IntervalPoints(ops, curves, tolerances, minDt, fuel);
      var n := IntervalCount(knots);
      IntervalPointsInside(ops, curves, tolerances, minDt, fuel);
      GatherInside(rs, knots, n);
      var additional := Gather(rs, n).value;
      MergeSpec(knots, additional, n);
    }
  }

  /** The merge of increasing knots with increasing points strictly inside the knot
      range that are no knots: increasing, holding every knot, and nothing else outside
      the range. */
  lemma MergeSpec(knots: seq<real>, additional: seq<real>, n: nat)
    requires |knots| > 0 && n == IntervalCount(knots) && Increasing(knots) && Increasing(additional)
    requires forall k :: 0 <= k < |additional| ==> knots[0] < additional[k] < knots[n] && additional[k] !in knots
    ensures Increasing(Merge(knots, additional))
    ensures forall k :: k in knots ==> k in Merge(knots, additional)
    ensures forall x :: x in Merge(knots, additional) && x !in knots ==> 0 < |knots| && knots[0] < x < knots[|knots| - 1]
  {
    var pts := Merge(knots, additional);
    MergeIncreasing(knots, additional);
    forall x | x in knots ensures x in pts {
      assert x in multiset(pts);
    }
    forall x | x in pts && x !in knots ensures knots[0] < x < knots[|knots| - 1] {
      assert x in multiset(pts);
      assert x in multiset(additional);
      var k :| 0 <= k < |additional| && additional[k] == x;
    }
  }

  // ---------------------------------------------------------------------------
  // Sampling

  /** The sampling part of `linear_interpolate`: a (curves + 1) x points matrix, row i
      the values of curve i at the points, the last row the points themselves. */
  method Sample(curves: seq<Spline>, pts: seq<real>) returns (out: array2<real>)
    requires forall i :: 0 <= i < |curves| ==> curves[i].Valid()
    ensures fresh(out) && out.Length0 == |curves| + 1 && out.Length1 == |pts|
    ensures forall i, j :: 0 <= i < |curves| && 0 <= j < |pts| ==> out[i, j] == At(curves[i], pts[j])
    ensures forall j :: 0 <= j < |pts| ==> out[|curves|, j] == pts[j]
  {
    out := new real[|curves| + 1, |pts|]((i, j) => 0.0);
    for i := 0 to |curves|
      invariant forall i', j :: 0 <= i' < i && 0 <= j < |pts| ==> out[i', j] == At(curves[i'], pts[j])
    {
      for j := 0 to |pts|
        invariant forall i', j' :: 0 <= i' < i && 0 <= j' < |pts| ==> out[i', j'] == At(curves[i'], pts[j'])
        invariant forall j' :: 0 <= j' < j ==> out[i, j'] == At(curves[i], pts[j'])
      {
        out[i, j] := At(curves[i], pts[j]);
      }
    }
    for j := 0 to |pts|
      invariant forall i', j' :: 0 <= i' < |curves| && 0 <= j' < |pts| ==> out[i', j'] == At(curves[i'], pts[j'])
      invariant forall j' :: 0 <= j' < j ==> out[|curves|, j'] == pts[j']
    {
      out[|curves|, j] := pts[j];
    }
  }

  /** `linear_interpolate(curves, tolerances, min_dt)`: the curves sampled at the points
      `_find_discretization_points` gives, which fails when that does. */
  method LinearInterpolate(ops: RealOps, curves: seq<Spline>, tolerances: seq<real>, minDt: real, fuel: nat)
    returns (r: Result<array2<real>>)
    requires Ready(curves, tolerances)
    ensures r.Failure? <==> DiscretizationPoints(ops, curves, tolerances, minDt, fuel).Failure?
    ensures r.Success? ==>
      var pts := DiscretizationPoints(ops, curves, tolerances, minDt, fuel).value;
      var out := r.value;
      && fresh(out) && out.Length0 == |curves| + 1 && out.Length1 == |pts|
      && (forall i, j :: 0 <= i < |curves| && 0 <= j < |pts| ==> out[i, j] == At(curves[i], pts[j]))
      && (forall j :: 0 <= j < |pts| ==> out[|curves|, j] == pts[j])
  {
    var pts :- FindDiscretizationPoints(ops, curves, tolerances, minDt, fuel);
    var out := Sample(curves, pts);
    return Success(out);
  }
}
