/** The piecewise polynomial of spline.py, as a value: n knots and n + 1 pieces. A point
    x is evaluated by the piece whose index is that of the first knot strictly greater
    than x, so piece i is used from knot i - 1 (inclusive) to knot i (exclusive), piece 0
    left of the first knot and the last piece from the last knot on. The class `Curve`
    (module Curves) holds the same two lists as fields and is specified by this module. */
module Splines {
  import opened Base
  import Arith
  import opened Polynomials
  import opened PolyShift

  datatype Spline = Spline(knots: seq<real>, polys: seq<seq<real>>) {
    /** The shape every `curve` of spline.py keeps: one more piece than knots. */
    predicate Valid() {
      |polys| == |knots| + 1
    }
  }

  /** Every piece has at least one coefficient (what `differentiate` and `shift` need). */
  predicate Filled(s: Spline) {
    forall i :: 0 <= i < |s.polys| ==> |s.polys[i]| > 0
  }

  // ---------------------------------------------------------------------------
  // Evaluation

  function PieceFrom(knots: seq<real>, x: real, i: nat): (r: nat)
    requires i <= |knots|
    ensures i <= r <= |knots|
    ensures forall j :: i <= j < r ==> knots[j] <= x
    ensures r < |knots| ==> x < knots[r]
    decreases |knots| - i
  {
    if i == |knots| || x < knots[i] then i else PieceFrom(knots, x, i + 1)
  }

  /** `poly_index`: the index of the first knot strictly greater than x, or the last
      piece when there is none. */
  function PieceIndex(knots: seq<real>, x: real): (r: nat)
    ensures r <= |knots|
    ensures forall j :: 0 <= j < r ==> knots[j] <= x
    ensures r < |knots| ==> x < knots[r]
  {
    PieceFrom(knots, x, 0)
  }

  /** The two facts of `PieceIndex`'s contract determine it. */
  lemma PieceIndexIs(knots: seq<real>, x: real, r: nat)
    requires r <= |knots|
    requires forall j :: 0 <= j < r ==> knots[j] <= x
    requires r < |knots| ==> x < knots[r]
    ensures PieceIndex(knots, x) == r
  {
  }

  /** `range(i)`: the interval of piece i, unbounded at the two ends. */
  function PieceRange(knots: seq<real>, i: nat): (Ext, Ext)
    requires i <= |knots|
  {
    (if i > 0 then Fin(knots[i - 1]) else NegInf, if i < |knots| then Fin(knots[i]) else PosInf)
  }

  /** lo <= x < hi for extended bounds. */
  predicate InPiece(bounds: (Ext, Ext), x: real) {
    (bounds.0.NegInf? || (bounds.0.Fin? && bounds.0.r <= x)) && Above(bounds.1, x)
  }

  /** With sorted knots, x is evaluated by piece i exactly when it lies in `range(i)`. */
  lemma PieceRangeSpec(knots: seq<real>, i: nat, x: real)
    requires Sorted(knots) && i <= |knots|
    ensures PieceIndex(knots, x) == i <==> InPiece(PieceRange(knots, i), x)
  {
    if InPiece(PieceRange(knots, i), x) {
      forall j | 0 <= j < i
        ensures knots[j] <= x
      {
        assert knots[j] <= knots[i - 1];
      }
      PieceIndexIs(knots, x, i);
    }
  }

  /** `s[x]`: the value of the piece that covers x. */
  function At(s: Spline, x: real): real
    requires s.Valid()
  {
    Eval(s.polys[PieceIndex(s.knots, x)], x)
  }

  // ---------------------------------------------------------------------------
  // Construction

  /** One interior piece of the interpolating constructor: the line through the two
      points (slope, then the intercept that puts (x0, y0) on it), or the constant y0 when
      the interval has no width. */
  function Segment(x0: real, y0: real, x1: real, y1: real): seq<real> {
    if x1 > x0 then
      var k := (y1 - y0) / (x1 - x0);
      [y0 - x0 * k, k]
    else [y0]
  }

  /** The piece passes through its left point, and through its right point when the
      interval has width. */
  lemma SegmentEval(x0: real, y0: real, x1: real, y1: real)
    ensures Eval(Segment(x0, y0, x1, y1), x0) == y0
    ensures x1 > x0 ==> Eval(Segment(x0, y0, x1, y1), x1) == y1
  {
    if x1 > x0 {
      LineFromToIs(x0, y0, x1, y1);
      assert Segment(x0, y0, x1, y1) == LineFromTo(x0, y0, x1, y1);
    } else {
      EvalSingleton(y0, x0);
    }
  }

  /** `curve(x, y)`: linear interpolation through the points, constant y[0] to the left
      and y[-1] from the last knot on. `curve(x, y)` fails on empty lists. */
  function Interpolation(x: seq<real>, y: seq<real>): (s: Spline)
    requires |x| == |y| > 0
    ensures s.Valid() && s.knots == x
  {
    Spline(x, [[y[0]]] + Segments(x, y) + [[y[|y| - 1]]])
  }

  /** The interior pieces of the interpolating constructor, one per pair of neighbouring
      points. */
  function Segments(x: seq<real>, y: seq<real>): seq<seq<real>>
    requires |x| == |y| > 0
  {
    seq(|x| - 1, i requires 0 <= i < |x| - 1 => Segment(x[i], y[i], x[i + 1], y[i + 1]))
  }

  /** The interpolating curve passes through every point. */
  lemma InterpolationAtKnot(x: seq<real>, y: seq<real>, i: nat)
    requires |x| == |y| > 0 && Increasing(x) && i < |x|
    ensures At(Interpolation(x, y), x[i]) == y[i]
  {
    var s := Interpolation(x, y);
    PieceIndexIs(x, x[i], i + 1);
    if i + 1 < |x| {
      assert s.polys[i + 1] == Segment(x[i], y[i], x[i + 1], y[i + 1]);
      SegmentEval(x[i], y[i], x[i + 1], y[i + 1]);
    } else {
      EvalSingleton(y[i], x[i]);
    }
  }

  /** Left of the first point the curve is y[0], from the last point on it is y[-1]. */
  lemma InterpolationOutside(x: seq<real>, y: seq<real>, t: real)
    requires |x| == |y| > 0 && Sorted(x)
    ensures t < x[0] ==> At(Interpolation(x, y), t) == y[0]
    ensures t >= x[|x| - 1] ==> At(Interpolation(x, y), t) == y[|y| - 1]
  {
    var n := |x|;
    if t < x[0] {
      PieceIndexIs(x, t, 0);
      EvalSingleton(y[0], t);
    }
    if t >= x[n - 1] {
      forall j | 0 <= j < n
        ensures x[j] <= t
      {
        assert x[j] <= x[n - 1];
      }
      PieceIndexIs(x, t, n);
      EvalSingleton(y[n - 1], t);
    }
  }

  /** `kinked_line(k_neg, k_pos)`: slope k_neg left of 0 and k_pos from 0 on. */
  function KinkedLine(kNeg: real, kPos: real): (s: Spline)
    ensures s.Valid()
  {
    Spline([0.0], [[0.0, kNeg], [0.0, kPos]])
  }

  lemma KinkedLineAt(kNeg: real, kPos: real, x: real)
    ensures At(KinkedLine(kNeg, kPos), x) == if x < 0.0 then kNeg * x else kPos * x
  {
    if x < 0.0 {
      PieceIndexIs([0.0], x, 0);
      EvalLinear(0.0, kNeg, x);
    } else {
      PieceIndexIs([0.0], x, 1);
      EvalLinear(0.0, kPos, x);
    }
  }

  // ---------------------------------------------------------------------------
  // Piecewise operations

  /** `differentiate`: every piece differentiated, the knots kept. */
  function Derived(s: Spline): (r: Spline)
    requires s.Valid() && Filled(s)
    ensures r.Valid() && r.knots == s.knots
  {
    Spline(s.knots, seq(|s.polys|, i requires 0 <= i < |s.polys| => Derivative(s.polys[i])))
  }

  /** Piece i of `integrate`: the antiderivative of piece i, with the constant term chosen
      so that it meets piece i - 1 at knot i - 1; piece 0 keeps the constant 0. */
  function Integral(s: Spline, i: nat): (r: seq<real>)
    requires s.Valid() && i < |s.polys|
    ensures |r| == |s.polys[i]| + 1
    decreases i
  {
    var a := Antiderivative(s.polys[i]);
    if i == 0 then a
    else a[0 := Eval(Integral(s, i - 1), s.knots[i - 1]) - Eval(a, s.knots[i - 1])]
  }

  /** `integrate`. */
  function Integrated(s: Spline): (r: Spline)
    requires s.Valid()
    ensures r.Valid() && r.knots == s.knots
  {
    Spline(s.knots, seq(|s.polys|, i requires 0 <= i < |s.polys| => Integral(s, i)))
  }

  /** Each piece of the integral meets the piece before it at their common knot. */
  lemma IntegralContinuous(s: Spline, i: nat)
    requires s.Valid() && 0 < i < |s.polys|
    ensures Eval(Integral(s, i), s.knots[i - 1]) == Eval(Integral(s, i - 1), s.knots[i - 1])
  {
    var k := s.knots[i - 1];
    var a := Antiderivative(s.polys[i]);
    var c := Eval(Integral(s, i - 1), k) - Eval(a, k);
    EvalUpdate(a, 0, c, 0, k);
    Arith.TimesOne(c - a[0], RPow(k, 0));
  }

  /** The integral curve starts from 0 at x = 0 in its first piece. */
  lemma IntegralFirstPiece(s: Spline)
    requires s.Valid()
    ensures Integral(s, 0)[0] == 0.0 && Eval(Integral(s, 0), 0.0) == 0.0
  {
    AntiderivativeAtZero(s.polys[0]);
  }

  /** With strictly increasing knots the integral is continuous: its value at knot i - 1
      is the value the piece to the left reaches there. */
  lemma IntegratedContinuousAt(s: Spline, i: nat)
    requires s.Valid() && Increasing(s.knots) && 0 < i < |s.polys|
    ensures At(Integrated(s), s.knots[i - 1]) == Eval(Integrated(s).polys[i - 1], s.knots[i - 1])
  {
    PieceIndexIs(s.knots, s.knots[i - 1], i);
    IntegralContinuous(s, i);
  }

  /** Differentiating the integral gives the curve back. */
  lemma DerivedIntegrated(s: Spline)
    requires s.Valid() && Filled(s)
    ensures Filled(Integrated(s)) && Derived(Integrated(s)) == s
  {
    var t := Integrated(s);
    forall i | 0 <= i < |s.polys|
      ensures Derivative(t.polys[i]) == s.polys[i]
    {
      var a := Antiderivative(s.polys[i]);
      DerivativeOfAntiderivative(s.polys[i]);
      if i > 0 {
        DerivativeDropsConstant(a, t.polys[i][0]);
        assert t.polys[i] == a[0 := t.polys[i][0]];
      }
    }
  }

  /** The constant term does not reach the derivative. */
  lemma DerivativeDropsConstant(p: seq<real>, c: real)
    requires |p| > 0
    ensures Derivative(p[0 := c]) == Derivative(p)
  {
    if |p| > 1 {
      var q := p[0 := c];
      forall k | 0 <= k < |p| - 1
        ensures Derivative(q)[k] == Derivative(p)[k]
      {
        assert q[k + 1] == p[k + 1];
      }
    }
  }

  /** `shift(x0)`: q(x) = p(x + x0); a copy when x0 == 0. */
  function ShiftedSpline(s: Spline, x0: real): (r: Spline)
    requires s.Valid() && (x0 == 0.0 || Filled(s))
    ensures r.Valid()
  {
    if x0 == 0.0 then s
    else Spline(seq(|s.knots|, i requires 0 <= i < |s.knots| => s.knots[i] - x0),
                seq(|s.polys|, i requires 0 <= i < |s.polys| => Shifted(s.polys[i], x0)))
  }

  lemma ShiftedAt(s: Spline, x0: real, x: real)
    requires s.Valid() && (x0 == 0.0 || Filled(s))
    ensures At(ShiftedSpline(s, x0), x) == At(s, x + x0)
  {
    if x0 != 0.0 {
      var r := ShiftedSpline(s, x0);
      var i := PieceIndex(s.knots, x + x0);
      PieceIndexIs(r.knots, x, i);
      ShiftedEval(s.polys[i], x0, x);
    }
  }

  /** `curve * factor`: every coefficient scaled. */
  function Scaled(s: Spline, c: real): (r: Spline)
    requires s.Valid()
    ensures r.Valid() && r.knots == s.knots
    ensures forall x :: At(r, x) == c * At(s, x)
  {
    Spline(s.knots, seq(|s.polys|, i requires 0 <= i < |s.polys| => Scale(s.polys[i], c)))
  }

  /** `curve + c` for a number c: c added to every piece. */
  function PlusConstant(s: Spline, c: real): (r: Spline)
    requires s.Valid()
    ensures r.Valid() && r.knots == s.knots
    ensures forall x :: At(r, x) == At(s, x) + c
  {
    var r := Spline(s.knots, seq(|s.polys|, i requires 0 <= i < |s.polys| => Sum(s.polys[i], Constant(c))));
    forall x ensures At(r, x) == At(s, x) + c {
      EvalSum(s.polys[PieceIndex(s.knots, x)], Constant(c), x);
    }
    r
  }

  /** `range_min`: the first knot. */
  function RangeMin(s: Spline): (r: real)
    requires |s.knots| > 0
    ensures Sorted(s.knots) ==> forall i :: 0 <= i < |s.knots| ==> r <= s.knots[i]
  {
    s.knots[0]
  }

  /** `range_max`: the last knot. */
  function RangeMax(s: Spline): (r: real)
    requires |s.knots| > 0
    ensures Sorted(s.knots) ==> forall i :: 0 <= i < |s.knots| ==> s.knots[i] <= r
  {
    s.knots[|s.knots| - 1]
  }

  // ---------------------------------------------------------------------------
  // combine

  function Last(s: seq<real>): real
    requires |s| > 0
  {
    s[|s| - 1]
  }

  /** `combine` once the curves are in order: a's knots, then b's (b's first knot dropped
      when it repeats a's last), a's pieces, then b's pieces after its first (a's last
      piece dropped when the knots meet). */
  function Joined(a: Spline, b: Spline): (r: Spline)
    requires a.Valid() && b.Valid() && |a.knots| > 0 && |b.knots| > 0
    requires Last(a.knots) <= b.knots[0]
    ensures r.Valid()
  {
    if Last(a.knots) == b.knots[0] then
      Spline(a.knots + b.knots[1..], a.polys[..|a.polys| - 1] + b.polys[1..])
    else
      Spline(a.knots + b.knots, a.polys + b.polys[1..])
  }

  /** `combine(spline1, spline2)`: a copy of one when the other has no knots; otherwise
      the two joined in the order of their knots. `combine` requires that the knots do
      not overlap. */
  function Combined(s1: Spline, s2: Spline): (r: Spline)
    requires s1.Valid() && s2.Valid()
    requires |s1.knots| > 0 && |s2.knots| > 0 ==>
               Last(s1.knots) <= s2.knots[0] || Last(s2.knots) <= s1.knots[0]
    ensures r.Valid()
  {
    if |s1.knots| == 0 then s2
    else if |s2.knots| == 0 then s1
    else if Last(s1.knots) > s2.knots[0] then Joined(s2, s1)
    else Joined(s1, s2)
  }

  /** The joined curve is a left of b's first knot and b from there on. */
  lemma JoinedAt(a: Spline, b: Spline, x: real)
    requires a.Valid() && b.Valid() && |a.knots| > 0 && |b.knots| > 0
    requires Last(a.knots) <= b.knots[0] && Sorted(a.knots)
    ensures At(Joined(a, b), x) == if x < b.knots[0] then At(a, x) else At(b, x)
  {
    var r := Joined(a, b);
    var n := |a.knots|;
    var ia, ib := PieceIndex(a.knots, x), PieceIndex(b.knots, x);
    var meet := Last(a.knots) == b.knots[0];
    if x < b.knots[0] {
      if ia < n {
        PieceIndexIs(r.knots, x, ia);
      } else {
        assert !meet;
        PieceIndexIs(r.knots, x, n);
      }
    } else {
      forall j | 0 <= j < n
        ensures a.knots[j] <= x
      {
        assert a.knots[j] <= Last(a.knots);
      }
      assert ib >= 1;
      if meet {
        PieceIndexIs(r.knots, x, n + ib - 1);
        assert r.polys[n + ib - 1] == b.polys[ib];
      } else {
        PieceIndexIs(r.knots, x, n + ib);
        assert r.polys[n + ib] == b.polys[ib];
      }
    }
  }

  /** The joined knots are sorted exactly when both curves' knots are, which is what
      `combine` asserts at its end. */
  lemma JoinedSorted(a: Spline, b: Spline)
    requires a.Valid() && b.Valid() && |a.knots| > 0 && |b.knots| > 0
    requires Last(a.knots) <= b.knots[0]
    ensures Sorted(Joined(a, b).knots) <==> Sorted(a.knots) && Sorted(b.knots)
  {
    var k := Joined(a, b).knots;
    var n := |a.knots|;
    var meet := Last(a.knots) == b.knots[0];
    if Sorted(k) {
      forall i, j | 0 <= i < j < |b.knots|
        ensures b.knots[i] <= b.knots[j]
      {
        if meet && i == 0 {
          assert b.knots[0] == k[n - 1];
          assert b.knots[j] == k[n + j - 1];
        } else if meet {
          assert b.knots[i] == k[n + i - 1] && b.knots[j] == k[n + j - 1];
        } else {
          assert b.knots[i] == k[n + i] && b.knots[j] == k[n + j];
        }
      }
      forall i, j | 0 <= i < j < n
        ensures a.knots[i] <= a.knots[j]
      {
        assert a.knots[i] == k[i] && a.knots[j] == k[j];
      }
    }
    if Sorted(a.knots) && Sorted(b.knots) {
      forall i, j | 0 <= i < j < |k|
        ensures k[i] <= k[j]
      {
        if j < n {
        } else if i < n {
          assert k[i] <= Last(a.knots);
          assert b.knots[0] <= k[j];
        }
      }
    }
  }
}
