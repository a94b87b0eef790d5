/** `find_roots` and `minmax` of polynomial.py: the real roots strictly inside an interval
    of a polynomial of degree at most two (after dropping near-zero leading coefficients),
    and the range of a polynomial over a closed interval taken at its end points and at the
    roots of its derivative. */
module PolyRoots {
  import opened Base
  import Arith
  import opened Polynomials

  // ---------------------------------------------------------------------------
  // Trimming

  /** Leading coefficients of smaller magnitude than this are dropped before solving. */
  const Tolerance: real := 0.0000000000000001

  /** The list without its near-zero leading coefficients; at least one coefficient stays. */
  function Trimmed(p: seq<real>): (r: seq<real>)
    ensures |r| <= |p| && r == p[..|r|]
    ensures |p| > 0 ==> |r| > 0
    ensures |r| > 1 ==> Abs(r[|r| - 1]) >= Tolerance
    ensures forall k :: |r| <= k < |p| ==> Abs(p[k]) < Tolerance
    decreases |p|
  {
    if |p| > 1 && Abs(p[|p| - 1]) < Tolerance then Trimmed(p[..|p| - 1]) else p
  }

  /** A list that `find_roots` has trimmed: a leading coefficient that can be divided by. */
  predicate IsTrimmed(t: seq<real>) {
    |t| > 1 ==> Abs(t[|t| - 1]) >= Tolerance
  }

  /** Dropping coefficients that are exactly zero does not change the value. */
  lemma {:induction false} EvalPrefixZeros(p: seq<real>, n: nat, x: real)
    requires n <= |p|
    requires forall k :: n <= k < |p| ==> p[k] == 0.0
    ensures Eval(p[..n], x) == Eval(p, x)
    decreases |p| - n
  {
    if n == |p| {
      assert p[..n] == p;
    } else {
      EvalPrefixZeros(p, n + 1, x);
      EvalPrefix(p, n, x);
      Arith.MulZero(RPow(x, n), p[n]);
    }
  }

  lemma EvalTrimmed(p: seq<real>, x: real)
    requires forall k :: |Trimmed(p)| <= k < |p| ==> p[k] == 0.0
    ensures Eval(Trimmed(p), x) == Eval(p, x)
  {
    EvalPrefixZeros(p, |Trimmed(p)|, x);
  }

  // ---------------------------------------------------------------------------
  // Roots

  /** lo < x < hi for extended bounds. */
  predicate InRange(lo: Ext, hi: Ext, x: real) {
    Below(lo, x) && Above(hi, x)
  }

  /** The candidates strictly between lo and hi, in their order. */
  function Keep(xs: seq<real>, lo: Ext, hi: Ext): (r: seq<real>)
    ensures forall x :: x in r <==> x in xs && InRange(lo, hi, x)
    ensures |r| <= |xs|
  {
    if |xs| == 0 then []
    else (if InRange(lo, hi, xs[0]) then [xs[0]] else []) + Keep(xs[1..], lo, hi)
  }

  /** Filtering keeps the order. */
  lemma {:induction false} KeepIncreasing(xs: seq<real>, lo: Ext, hi: Ext)
    requires Increasing(xs)
    ensures Increasing(Keep(xs, lo, hi))
    decreases |xs|
  {
    if |xs| > 0 {
      var rest := Keep(xs[1..], lo, hi);
      var head: seq<real> := if InRange(lo, hi, xs[0]) then [xs[0]] else [];
      var r := head + rest;
      KeepIncreasing(xs[1..], lo, hi);
      forall k | 0 <= k < |rest|
        ensures xs[0] < rest[k]
      {
        assert rest[k] in rest;
        assert rest[k] in xs[1..];
        var j :| 0 <= j < |xs[1..]| && xs[1..][j] == rest[k];
        assert xs[j + 1] == rest[k];
      }
      forall i, j | 0 <= i < j < |r|
        ensures r[i] < r[j]
      {
        if i < |head| {
          assert r[j] == rest[j - |head|];
        } else {
          assert r[i] == rest[i - |head|] && r[j] == rest[j - |head|];
        }
      }
      assert Keep(xs, lo, hi) == r;
    }
  }

  /** The root of p0 + p1*x strictly inside the interval, if any. */
  function LinearRoots(p0: real, p1: real, lo: Ext, hi: Ext): (r: seq<real>)
    requires p1 != 0.0
    ensures |r| <= 1
  {
    var x := -p0 / p1;
    if InRange(lo, hi, x) then [x] else []
  }

  lemma LinearRootsSpec(p0: real, p1: real, lo: Ext, hi: Ext, x: real)
    requires p1 != 0.0
    ensures x in LinearRoots(p0, p1, lo, hi) <==> InRange(lo, hi, x) && p0 + p1 * x == 0.0
  {
    Arith.LinearRoot(p0, p1, x);
  }

  /** The roots of the monic quadratic x^2 + b*x + c strictly inside the interval, from
      its discriminant d = b^2 - 4c: the double root when d == 0, both roots when d > 0
      (smaller first), none when d < 0. */
  function MonicRoots(ops: RealOps, b: real, d: real, lo: Ext, hi: Ext): (r: seq<real>)
    ensures |r| <= 2
  {
    if d == 0.0 then
      var x := -b / 2.0;
      if InRange(lo, hi, x) then [x] else []
    else if d > 0.0 then
      var sd := ops.sqrt(d);
      Keep([(-b - sd) / 2.0, (-b + sd) / 2.0], lo, hi)
    else []
  }

  /** x is reported exactly when it lies in the interval and u = 2x + b squares to d. */
  lemma MonicRootsSpec(ops: RealOps, b: real, d: real, lo: Ext, hi: Ext, x: real, u: real)
    requires ops.Lawful() && u == 2.0 * x + b
    ensures x in MonicRoots(ops, b, d, lo, hi) <==> InRange(lo, hi, x) && u * u == d
  {
    var sd := if d == 0.0 then 0.0 else ops.sqrt(d);
    if x in MonicRoots(ops, b, d, lo, hi) {
      Arith.QuadraticRootSquare(b, sd, x, u);
    }
    if InRange(lo, hi, x) && u * u == d {
      Arith.SquareNonNeg(u);
      Arith.SquareRootsOf(b, d, sd, x, u);
    }
  }

  /** The roots are reported in increasing order. */
  lemma MonicRootsIncreasing(ops: RealOps, b: real, d: real, lo: Ext, hi: Ext)
    requires ops.Lawful()
    ensures Increasing(MonicRoots(ops, b, d, lo, hi))
  {
    if d > 0.0 {
      var sd := ops.sqrt(d);
      Arith.OrderedRoots(b, d, sd);
      KeepIncreasing([(-b - sd) / 2.0, (-b + sd) / 2.0], lo, hi);
    }
  }

  /** The discriminant of x^2 + b*x + c. */
  function Discriminant(b: real, c: real): real {
    b * b - 4.0 * c
  }

  /** The roots of p0 + p1*x + p2*x^2 strictly inside the interval, through the monic form
      with b = p1/p2 and c = p0/p2. */
  function QuadraticRoots(ops: RealOps, p0: real, p1: real, p2: real, lo: Ext, hi: Ext): (r: seq<real>)
    requires p2 != 0.0
    ensures |r| <= 2
  {
    MonicRoots(ops, p1 / p2, Discriminant(p1 / p2, p0 / p2), lo, hi)
  }

  /** x is reported exactly when it lies in the interval and solves the quadratic. */
  lemma QuadraticRootsSpec(ops: RealOps, p0: real, p1: real, p2: real, lo: Ext, hi: Ext, x: real)
    requires p2 != 0.0 && ops.Lawful()
    ensures x in QuadraticRoots(ops, p0, p1, p2, lo, hi) <==> InRange(lo, hi, x) && p0 + x * (p1 + x * p2) == 0.0
  {
    var b, c := p1 / p2, p0 / p2;
    var d := Discriminant(b, c);
    var u := 2.0 * x + b;
    Arith.DivMul(p1, p2);
    Arith.DivMul(p0, p2);
    Arith.QuadraticForm(p0, p1, p2, b, c, d, x, u);
    MonicRootsSpec(ops, b, d, lo, hi, x, u);
  }

  /** The roots `find_roots` reports for a trimmed list t: none for a constant, the root
      of a line, the roots of a quadratic, and a failure from degree three on. */
  function Solve(ops: RealOps, t: seq<real>, lo: Ext, hi: Ext): Result<seq<real>>
    requires IsTrimmed(t)
  {
    if |t| <= 1 then Success([])
    else if |t| == 2 then Success(LinearRoots(t[0], t[1], lo, hi))
    else if |t| == 3 then Success(QuadraticRoots(ops, t[0], t[1], t[2], lo, hi))
    else Failure(Unimplemented)
  }

  /** `find_roots(poly, x_min, x_max)`. */
  function Roots(ops: RealOps, p: seq<real>, lo: Ext, hi: Ext): Result<seq<real>> {
    Solve(ops, Trimmed(p), lo, hi)
  }

  method FindRoots(ops: RealOps, poly: seq<real>, lo: Ext, hi: Ext) returns (r: Result<seq<real>>)
    ensures r == Roots(ops, poly, lo, hi)
  {
    var p := Trim(poly);
    if |p| == 0 {
      r := Success([]);
    } else if |p| == 1 {
      r := Success([]);
    } else if |p| == 2 {
      var x := -p[0] / p[1];
      r := Success(if InRange(lo, hi, x) then [x] else []);
    } else if |p| == 3 {
      var b := p[1] / p[2];
      var c := p[0] / p[2];
      var discriminant := Discriminant(b, c);
      var roots := FindMonicRoots(ops, b, discriminant, lo, hi);
      r := Success(roots);
    } else {
      r := Failure(Unimplemented);
    }
  }

  /** The loop of `find_roots` that drops trailing coefficients below the tolerance,
      keeping at least one. */
  method Trim(poly: seq<real>) returns (p: seq<real>)
    ensures p == Trimmed(poly)
  {
    p := poly;
    while |p| > 1 && Abs(p[|p| - 1]) < Tolerance
      invariant Trimmed(p) == Trimmed(poly)
      decreases |p|
    {
      p := p[..|p| - 1];
    }
  }

  /** The quadratic case of `find_roots`, from the monic coefficient b and the
      discriminant. */
  method FindMonicRoots(ops: RealOps, b: real, discriminant: real, lo: Ext, hi: Ext) returns (r: seq<real>)
    ensures r == MonicRoots(ops, b, discriminant, lo, hi)
  {
    if discriminant == 0.0 {
      var x := -b / 2.0;
      r := if InRange(lo, hi, x) then [x] else [];
    } else if discriminant > 0.0 {
      var sd := ops.sqrt(discriminant);
      r := Keep([(-b - sd) / 2.0, (-b + sd) / 2.0], lo, hi);
    } else {
      r := [];
    }
  }

  lemma EvalQuadratic(a: real, b: real, c: real, x: real)
    ensures Eval([a, b, c], x) == a + x * (b + x * c)
  {
    var q := [a, b, c];
    EvalFromStep(q, 0, x);
    EvalFromStep(q, 1, x);
    EvalFromStep(q, 2, x);
    EvalFromStep(q, 3, x);
    Arith.MulZero(x, EvalFrom(q, 3, x));
  }

  /** For a trimmed list of degree at most two that is not the zero constant, x is
      reported exactly when it lies strictly inside the interval and is a root. */
  lemma SolveRoots(ops: RealOps, t: seq<real>, lo: Ext, hi: Ext, x: real)
    requires IsTrimmed(t) && ops.Lawful() && |t| <= 3
    requires |t| >= 2 || (|t| == 1 && t[0] != 0.0)
    ensures Solve(ops, t, lo, hi).Success?
    ensures x in Solve(ops, t, lo, hi).value <==> InRange(lo, hi, x) && Eval(t, x) == 0.0
  {
    if |t| == 1 {
      assert t == [t[0]];
      EvalSingleton(t[0], x);
    } else if |t| == 2 {
      SolveLinear(t, lo, hi, x);
    } else {
      SolveQuadratic(ops, t, lo, hi, x);
    }
  }

  lemma SolveLinear(t: seq<real>, lo: Ext, hi: Ext, x: real)
    requires |t| == 2 && t[1] != 0.0
    ensures x in LinearRoots(t[0], t[1], lo, hi) <==> InRange(lo, hi, x) && Eval(t, x) == 0.0
  {
    assert t == [t[0], t[1]];
    EvalLinear(t[0], t[1], x);
    LinearRootsSpec(t[0], t[1], lo, hi, x);
  }

  lemma SolveQuadratic(ops: RealOps, t: seq<real>, lo: Ext, hi: Ext, x: real)
    requires |t| == 3 && t[2] != 0.0 && ops.Lawful()
    ensures x in QuadraticRoots(ops, t[0], t[1], t[2], lo, hi) <==> InRange(lo, hi, x) && Eval(t, x) == 0.0
  {
    assert t == [t[0], t[1], t[2]];
    EvalQuadratic(t[0], t[1], t[2], x);
    QuadraticRootsSpec(ops, t[0], t[1], t[2], lo, hi, x);
  }

  /** The roots come out in increasing order, at most as many as the degree. */
  lemma SolveOrdered(ops: RealOps, t: seq<real>, lo: Ext, hi: Ext)
    requires IsTrimmed(t) && ops.Lawful()
    ensures Solve(ops, t, lo, hi).Success? ==> Increasing(Solve(ops, t, lo, hi).value)
    ensures Solve(ops, t, lo, hi).Success? && |t| > 0 ==> |Solve(ops, t, lo, hi).value| < |t|
  {
    if |t| == 3 {
      MonicRootsIncreasing(ops, t[1] / t[2], Discriminant(t[1] / t[2], t[0] / t[2]), lo, hi);
    }
  }

  /** `find_roots` fails exactly on lists of degree three or more after trimming. */
  lemma {:induction false} RootsFail(ops: RealOps, p: seq<real>, lo: Ext, hi: Ext)
    ensures Roots(ops, p, lo, hi).Failure? <==> |Trimmed(p)| >= 4
  {
  }

  /** `find_roots` on the caller's list: every reported value is a root of the trimmed
      list strictly inside the interval, and unless the trimmed list is empty or the zero
      constant every such root is reported; the values come in increasing order, fewer than the
      trimmed list has coefficients. */
  lemma RootsSpec(ops: RealOps, p: seq<real>, lo: Ext, hi: Ext)
    requires ops.Lawful()
    ensures Roots(ops, p, lo, hi).Success? ==>
              forall x :: x in Roots(ops, p, lo, hi).value ==> InRange(lo, hi, x) && Eval(Trimmed(p), x) == 0.0
    ensures Roots(ops, p, lo, hi).Success? && |p| > 0 && Trimmed(p) != [0.0] ==>
              forall x :: InRange(lo, hi, x) && Eval(Trimmed(p), x) == 0.0 ==> x in Roots(ops, p, lo, hi).value
    ensures Roots(ops, p, lo, hi).Success? ==> Increasing(Roots(ops, p, lo, hi).value)
    ensures Roots(ops, p, lo, hi).Success? && |p| > 0 ==> |Roots(ops, p, lo, hi).value| < |Trimmed(p)|
  {
    var t := Trimmed(p);
    SolveOrdered(ops, t, lo, hi);
    if Roots(ops, p, lo, hi).Success? && |t| > 0 && t != [0.0] {
      assert |t| >= 2 || (|t| == 1 && t[0] != 0.0);
      forall x ensures x in Roots(ops, p, lo, hi).value <==> InRange(lo, hi, x) && Eval(t, x) == 0.0 {
        SolveRoots(ops, t, lo, hi, x);
      }
    }
  }

  // ---------------------------------------------------------------------------
  // minmax

  /** `min(acc, y)` with `inf` as the empty minimum. */
  function Lower(acc: Ext, y: real): (r: Ext)
    ensures acc.PosInf? ==> r == Fin(y)
    ensures acc.Fin? ==> r == Fin(Min(acc.r, y))
  {
    match acc
    case PosInf => Fin(y)
    case Fin(a) => Fin(Min(a, y))
    case NegInf => NegInf
  }

  /** `max(acc, y)` with `-inf` as the empty maximum. */
  function Upper(acc: Ext, y: real): (r: Ext)
    ensures acc.NegInf? ==> r == Fin(y)
    ensures acc.Fin? ==> r == Fin(Max(acc.r, y))
  {
    match acc
    case NegInf => Fin(y)
    case Fin(a) => Fin(Max(a, y))
    case PosInf => PosInf
  }

  /** The running minimum of `minmax` over the values of p at xs, in their order. */
  function Lowest(p: seq<real>, xs: seq<real>): (r: Ext)
    ensures if |xs| == 0 then r.PosInf? else r.Fin?
    ensures r.Fin? ==> (forall i :: 0 <= i < |xs| ==> r.r <= Eval(p, xs[i])) &&
                       (exists i :: 0 <= i < |xs| && r.r == Eval(p, xs[i]))
    decreases |xs|
  {
    if |xs| == 0 then PosInf
    else
      var n := |xs| - 1;
      var r := Lower(Lowest(p, xs[..n]), Eval(p, xs[n]));
      assert forall i :: 0 <= i < n ==> xs[..n][i] == xs[i];
      r
  }

  /** The running maximum of `minmax` over the values of p at xs, in their order. */
  function Highest(p: seq<real>, xs: seq<real>): (r: Ext)
    ensures if |xs| == 0 then r.NegInf? else r.Fin?
    ensures r.Fin? ==> (forall i :: 0 <= i < |xs| ==> Eval(p, xs[i]) <= r.r) &&
                       (exists i :: 0 <= i < |xs| && r.r == Eval(p, xs[i]))
    decreases |xs|
  {
    if |xs| == 0 then NegInf
    else
      var n := |xs| - 1;
      var r := Upper(Highest(p, xs[..n]), Eval(p, xs[n]));
      assert forall i :: 0 <= i < n ==> xs[..n][i] == xs[i];
      r
  }

  /** The points `minmax` evaluates: the critical points strictly inside, then both ends. */
  function Candidates(ops: RealOps, p: seq<real>, lo: real, hi: real): Result<seq<real>>
    requires |p| > 0
  {
    match Roots(ops, Derivative(p), Fin(lo), Fin(hi))
    case Failure(e) => Failure(e)
    case Success(r) => Success(r + [lo, hi])
  }

  /** `minmax(poly, x_min, x_max)`: the least and greatest value of p over the candidates. */
  function Range(ops: RealOps, p: seq<real>, lo: real, hi: real): Result<(real, real)>
    requires |p| > 0
  {
    match Candidates(ops, p, lo, hi)
    case Failure(e) => Failure(e)
    case Success(xs) =>
      assert |xs| > 0;
      Success((Lowest(p, xs).r, Highest(p, xs).r))
  }

  method MinMax(ops: RealOps, poly: seq<real>, lo: real, hi: real) returns (r: Result<(real, real)>)
    requires |poly| > 0
    ensures r == Range(ops, poly, lo, hi)
  {
    var d := Differentiate(poly);
    var roots := FindRoots(ops, d, Fin(lo), Fin(hi));
    if roots.Failure? {
      return Failure(roots.error);
    }
    var xs := roots.value + [lo, hi];
    var yMin, yMax := Extremes(poly, xs);
    r := Success((yMin.r, yMax.r));
  }

  /** The loop of `minmax`: the running minimum and maximum of p over the candidates. */
  method Extremes(poly: seq<real>, xs: seq<real>) returns (yMin: Ext, yMax: Ext)
    ensures yMin == Lowest(poly, xs) && yMax == Highest(poly, xs)
  {
    yMin, yMax := PosInf, NegInf;
    for i := 0 to |xs|
      invariant yMin == Lowest(poly, xs[..i]) && yMax == Highest(poly, xs[..i])
    {
      var y := Horner(poly, xs[i]);
      assert xs[..i + 1][..i] == xs[..i];
      yMin := Lower(yMin, y);
      yMax := Upper(yMax, y);
    }
    assert xs[..|xs|] == xs;
  }

  /** A point `minmax` looks at: an end of the interval, or a critical point strictly
      inside it (a root of the trimmed derivative). */
  predicate Candidate(p: seq<real>, lo: real, hi: real, x: real)
    requires |p| > 0
  {
    x == lo || x == hi || (lo < x < hi && Eval(Trimmed(Derivative(p)), x) == 0.0)
  }

  /** The candidates of `minmax` are candidate points, end with both ends of the interval,
      and include every critical point strictly inside unless the trimmed derivative is
      the zero constant. */
  lemma CandidatesSpec(ops: RealOps, p: seq<real>, lo: real, hi: real)
    requires |p| > 0 && ops.Lawful()
    ensures Candidates(ops, p, lo, hi).Failure? <==> |Trimmed(Derivative(p))| >= 4
    ensures Candidates(ops, p, lo, hi).Success? ==>
              var xs := Candidates(ops, p, lo, hi).value;
              |xs| >= 2 && xs[|xs| - 2] == lo && xs[|xs| - 1] == hi &&
              forall i :: 0 <= i < |xs| ==> Candidate(p, lo, hi, xs[i])
    ensures Candidates(ops, p, lo, hi).Success? && Trimmed(Derivative(p)) != [0.0] ==>
              forall x :: lo < x < hi && Eval(Trimmed(Derivative(p)), x) == 0.0 ==> x in Candidates(ops, p, lo, hi).value
  {
    var d := Derivative(p);
    RootsSpec(ops, d, Fin(lo), Fin(hi));
    if Candidates(ops, p, lo, hi).Success? {
      var roots := Roots(ops, d, Fin(lo), Fin(hi)).value;
      var xs := roots + [lo, hi];
      assert Candidates(ops, p, lo, hi).value == xs;
      forall i | 0 <= i < |xs|
        ensures Candidate(p, lo, hi, xs[i])
      {
        if i < |roots| {
          assert xs[i] in roots;
        }
      }
    }
  }

  /** `minmax` fails exactly when the trimmed derivative has degree three or more;
      otherwise its low value is at most its high value, both bound the values at the two
      ends and at every candidate, and each is attained at a candidate point. */
  lemma RangeSpec(ops: RealOps, p: seq<real>, lo: real, hi: real)
    requires |p| > 0 && ops.Lawful()
    ensures Range(ops, p, lo, hi).Failure? <==> |Trimmed(Derivative(p))| >= 4
    ensures Range(ops, p, lo, hi).Success? ==>
              var m := Range(ops, p, lo, hi).value;
              m.0 <= m.1 &&
              m.0 <= Eval(p, lo) <= m.1 && m.0 <= Eval(p, hi) <= m.1 &&
              (exists x :: Candidate(p, lo, hi, x) && Eval(p, x) == m.0) &&
              (exists x :: Candidate(p, lo, hi, x) && Eval(p, x) == m.1)
  {
    CandidatesSpec(ops, p, lo, hi);
    if Range(ops, p, lo, hi).Success? {
      var xs := Candidates(ops, p, lo, hi).value;
      var low, high := Lowest(p, xs), Highest(p, xs);
      var n := |xs|;
      assert low.r <= Eval(p, xs[n - 2]) && low.r <= Eval(p, xs[n - 1]);
      assert Eval(p, xs[n - 2]) <= high.r && Eval(p, xs[n - 1]) <= high.r;
      var i :| 0 <= i < n && low.r == Eval(p, xs[i]);
      var j :| 0 <= j < n && high.r == Eval(p, xs[j]);
      assert Candidate(p, lo, hi, xs[i]) && Candidate(p, lo, hi, xs[j]);
    }
  }

  /** Unless the trimmed derivative is the zero constant, the value at every critical point
      strictly inside the interval lies between the two results of `minmax`. */
  lemma RangeBoundsCritical(ops: RealOps, p: seq<real>, lo: real, hi: real, x: real)
    requires |p| > 0 && ops.Lawful()
    requires Range(ops, p, lo, hi).Success? && Trimmed(Derivative(p)) != [0.0]
    requires lo < x < hi && Eval(Trimmed(Derivative(p)), x) == 0.0
    ensures Range(ops, p, lo, hi).value.0 <= Eval(p, x) <= Range(ops, p, lo, hi).value.1
  {
    CandidatesSpec(ops, p, lo, hi);
    var xs := Candidates(ops, p, lo, hi).value;
    var k :| 0 <= k < |xs| && xs[k] == x;
  }
  // ---------------------------------------------------------------------------
  // Intermediate values

  /** Between two points where a list `find_roots` solves (a trimmed list of degree at
      most two) takes values of opposite signs, it has a root. */
  lemma SignChange(ops: RealOps, t: seq<real>, a: real, b: real) returns (z: real)
    requires ops.Lawful() && IsTrimmed(t) && 0 < |t| <= 3 && a < b
    requires Eval(t, a) * Eval(t, b) < 0.0
    ensures a < z < b && Eval(t, z) == 0.0
  {
    if |t| == 1 {
      var c := t[0];
      assert t == [c];
      EvalSingleton(c, a);
      EvalSingleton(c, b);
      assert false;
    } else if |t| == 2 {
      z := LinearSignChange(t, a, b);
    } else {
      z := QuadraticSignChange(ops, t, a, b);
    }
  }

  lemma LinearSignChange(t: seq<real>, a: real, b: real) returns (z: real)
    requires |t| == 2 && t[1] != 0.0 && a < b
    requires Eval(t, a) * Eval(t, b) < 0.0
    ensures a < z < b && Eval(t, z) == 0.0
  {
    var c0, c1 := t[0], t[1];
    assert t == [c0, c1];
    z := -c0 / c1;
    EvalLinear(c0, c1, a);
    EvalLinear(c0, c1, b);
    EvalLinear(c0, c1, z);
    assert c0 + c1 * a == c1 * ((a - z) * 1.0);
    assert c0 + c1 * b == c1 * ((b - z) * 1.0);
    if z <= a || b <= z {
      assert false;
    }
  }

  lemma QuadraticSignChange(ops: RealOps, t: seq<real>, a: real, b: real) returns (z: real)
    requires ops.Lawful() && |t| == 3 && t[2] != 0.0 && a < b
    requires Eval(t, a) * Eval(t, b) < 0.0
    ensures a < z < b && Eval(t, z) == 0.0
  {
    var c0, c1, c2 := t[0], t[1], t[2];
    assert t == [c0, c1, c2];
    EvalQuadratic(c0, c1, c2, a);
    EvalQuadratic(c0, c1, c2, b);
    var qa, qb := Eval(t, a), Eval(t, b);
    var d := c1 * c1 - 4.0 * c2 * c0;
    if d < 0.0 {
      Arith.NoRealRoots(c0, c1, c2, a, b, qa, qb);
      assert false;
    } else {
      var s := ops.sqrt(d);
      var r1, r2 := (-c1 - s) / (2.0 * c2), (-c1 + s) / (2.0 * c2);
      Arith.Factored(c0, c1, c2, s, r1, r2, a);
      Arith.Factored(c0, c1, c2, s, r1, r2, b);
      Arith.RootBetween(c2, qa, qb, a, b, r1, r2);
      z := if a < r1 < b then r1 else r2;
      EvalQuadratic(c0, c1, c2, z);
      Arith.Factored(c0, c1, c2, s, r1, r2, z);
      Arith.FactorZero(c2, z, r1, r2);
    }
  }
}
