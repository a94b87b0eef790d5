/** The class `curve` of spline.py: an object holding the knot list and the piece list,
    whose operations copy it and rebuild the pieces in loops, or (`insert_knots`) rebuild
    both lists in place. Every operation is specified by the function on `Spline` values
    that it computes (modules Splines, SplineKnots, SplineRange, SplineCompose); the
    properties of those functions are proved there. */
module Curves {
  import opened Base
  import opened Polynomials
  import PolyShift
  import PolyPower
  import PolyRoots
  import opened Splines
  import opened SplineKnots
  import opened SplineRange

  /** The loop of the interpolating constructor: for each pair of neighbouring points,
      slope k and intercept b of the line through them, or the constant y0 when the
      interval has no width. */
  method SegmentList(x: seq<real>, y: seq<real>) returns (ps: seq<seq<real>>)
    requires |x| == |y| > 0
    ensures ps == Segments(x, y)
  {
    ps := [];
    for i := 0 to |x| - 1
      invariant |ps| == i
      invariant forall k :: 0 <= k < i ==> ps[k] == Segment(x[k], y[k], x[k + 1], y[k + 1])
    {
      var p;
      if x[i + 1] > x[i] {
        var k := (y[i + 1] - y[i]) / (x[i + 1] - x[i]);
        var b := y[i] - x[i] * k;
        p := [b, k];
        assert p[0] == Segment(x[i], y[i], x[i + 1], y[i + 1])[0];
        assert p[1] == Segment(x[i], y[i], x[i + 1], y[i + 1])[1];
      } else {
        p := [y[i]];
      }
      ps := ps + [p];
    }
  }

  class Curve {
    var knots: seq<real>
    var polys: seq<seq<real>>

    /** The curve as a value. */
    function Value(): Spline
      reads this
    {
      Spline(knots, polys)
    }

    /** `curve()`: no knots and the single piece 0. */
    constructor Zero()
      ensures Value() == Spline([], [[0.0]]) && Value().Valid()
    {
      knots := [];
      polys := [[0.0]];
    }

    /** `curve(other)`: a copy. */
    constructor Copy(other: Curve)
      ensures Value() == other.Value()
    {
      knots := other.knots;
      polys := other.polys;
    }

    /** `curve(x, y)`: linear interpolation through the points (x[i], y[i]). */
    constructor Interpolate(x: seq<real>, y: seq<real>)
      requires |x| == |y| > 0
      ensures Value() == Interpolation(x, y)
    {
      knots := x;
      var ps := SegmentList(x, y);
      polys := [[y[0]]] + ps + [[y[|y| - 1]]];
    }

    /** `kinked_line(k_neg, k_pos)`. */
    constructor Kinked(kNeg: real, kPos: real)
      ensures Value() == KinkedLine(kNeg, kPos)
    {
      knots := [0.0];
      polys := [[0.0, kNeg], [0.0, kPos]];
    }

    /** `poly_index(x)`: the first knot strictly greater than x, or the last piece. */
    method PolyIndex(x: real) returns (i: nat)
      requires Value().Valid()
      ensures i == PieceIndex(knots, x)
    {
      for k := 0 to |knots|
        invariant forall j :: 0 <= j < k ==> knots[j] <= x
      {
        if knots[k] > x {
          PieceIndexIs(knots, x, k);
          return k;
        }
      }
      PieceIndexIs(knots, x, |knots|);
      return |polys| - 1;
    }

    /** `curve[x]`. */
    method Get(x: real) returns (y: real)
      requires Value().Valid()
      ensures y == At(Value(), x)
    {
      var i := PolyIndex(x);
      y := Horner(polys[i], x);
    }

    /** `differentiate()`: a new curve, every piece differentiated. */
    method Differentiate() returns (ret: Curve)
      requires Value().Valid() && Filled(Value())
      ensures fresh(ret) && ret.Value() == Derived(Value())
    {
      ret := new Curve.Copy(this);
      for i := 0 to |polys|
        invariant ret.knots == knots && |ret.polys| == |polys|
        invariant forall k :: 0 <= k < i ==> ret.polys[k] == Derivative(polys[k])
      {
        var d := Polynomials.Differentiate(polys[i]);
        ret.polys := ret.polys[i := d];
      }
    }

    /** `integrate()`: a new curve, every piece integrated, the constant of each piece
        after the first chosen to meet the piece before it at their knot. */
    method Integrate() returns (ret: Curve)
      requires Value().Valid()
      ensures fresh(ret) && ret.Value() == Integrated(Value())
    {
      ret := new Curve.Copy(this);
      for i := 0 to |polys|
        invariant ret.knots == knots && |ret.polys| == |polys|
        invariant forall k :: 0 <= k < i ==> ret.polys[k] == Integral(Value(), k)
      {
        var a := Polynomials.Integrate(polys[i]);
        if i > 0 {
          var before := Horner(ret.polys[i - 1], knots[i - 1]);
          var here := Horner(a, knots[i - 1]);
          a := a[0 := before - here];
        }
        ret.polys := ret.polys[i := a];
      }
    }

    /** `shift(x0)`: a new curve q with q(x) = p(x + x0); a plain copy when x0 == 0. */
    method Shift(x0: real) returns (ret: Curve)
      requires Value().Valid() && (x0 == 0.0 || Filled(Value()))
      ensures fresh(ret) && ret.Value() == ShiftedSpline(Value(), x0)
    {
      ret := new Curve.Copy(this);
      if x0 == 0.0 {
        return;
      }
      for i := 0 to |knots|
        invariant ret.polys == polys && |ret.knots| == |knots|
        invariant forall k :: 0 <= k < i ==> ret.knots[k] == knots[k] - x0
        invariant forall k :: i <= k < |knots| ==> ret.knots[k] == knots[k]
      {
        ret.knots := ret.knots[i := ret.knots[i] - x0];
      }
      for i := 0 to |polys|
        invariant |ret.knots| == |knots| && forall k :: 0 <= k < |knots| ==> ret.knots[k] == knots[k] - x0
        invariant |ret.polys| == |polys|
        invariant forall k :: 0 <= k < i ==> ret.polys[k] == PolyShift.Shifted(polys[k], x0)
        invariant forall k :: i <= k < |polys| ==> ret.polys[k] == polys[k]
      {
        var q := PolyShift.Shift(ret.polys[i], x0);
        ret.polys := ret.polys[i := q];
      }
    }

    /** `curve * factor`: a new curve with every coefficient multiplied. */
    method Times(factor: real) returns (ret: Curve)
      requires Value().Valid()
      ensures fresh(ret) && ret.Value() == Scaled(Value(), factor)
    {
      ret := new Curve.Copy(this);
      for i := 0 to |polys|
        invariant ret.knots == knots && |ret.polys| == |polys|
        invariant forall k :: 0 <= k < i ==> ret.polys[k] == Scale(polys[k], factor)
        invariant forall k :: i <= k < |polys| ==> ret.polys[k] == polys[k]
      {
        var p := ret.polys[i];
        for j := 0 to |p|
          invariant |p| == |polys[i]|
          invariant forall m :: 0 <= m < j ==> p[m] == polys[i][m] * factor
          invariant forall m :: j <= m < |p| ==> p[m] == polys[i][m]
        {
          p := p[j := p[j] * factor];
        }
        ghost var q := Scale(polys[i], factor);
        assert |p| == |q| && forall m :: 0 <= m < |p| ==> p[m] == q[m];
        ret.polys := ret.polys[i := p];
      }
    }

    /** `curve + number`: a new curve with the number added to every piece. */
    method PlusNumber(c: real) returns (ret: Curve)
      requires Value().Valid()
      ensures fresh(ret) && ret.Value() == PlusConstant(Value(), c)
    {
      ret := new Curve.Copy(this);
      for i := 0 to |polys|
        invariant ret.knots == knots && |ret.polys| == |polys|
        invariant forall k :: 0 <= k < i ==> ret.polys[k] == Sum(polys[k], Constant(c))
        invariant forall k :: i <= k < |polys| ==> ret.polys[k] == polys[k]
      {
        var p := Add(ret.polys[i], [c]);
        ret.polys := ret.polys[i := p];
      }
    }

    /** `curve + curve`: a new curve; this one is refined by the other's knots and a copy
        of the other by the result's knots when the knot lists differ, then the pieces are
        added pairwise. Neither operand changes. */
    method PlusCurve(other: Curve) returns (ret: Curve)
      requires Value().Valid() && other.Value().Valid()
      requires knots == other.knots || (Increasing(knots) && Increasing(other.knots))
      ensures fresh(ret) && ret.Value() == Plus(Value(), other.Value())
    {
      ret := new Curve.Copy(this);
      var o := other;
      if knots != other.knots {
        ret.InsertKnots(other.knots);
        InsertedSpec(Value(), other.knots);
      }
      if knots != other.knots {
        o := new Curve.Copy(other);
        o.InsertKnots(ret.knots);
      }
      ghost var f, g := ret.Value(), o.Value();
      if knots != other.knots {
        InsertedSpec(other.Value(), f.knots);
        IncreasingUnique(f.knots, g.knots);
      }
      for i := 0 to |ret.polys|
        invariant ret.knots == f.knots == g.knots && |ret.polys| == |f.polys| && o.Value() == g
        invariant forall k :: 0 <= k < i ==> ret.polys[k] == Sum(f.polys[k], g.polys[k])
        invariant forall k :: i <= k < |ret.polys| ==> ret.polys[k] == f.polys[k]
      {
        var p := Add(ret.polys[i], o.polys[i]);
        ret.polys := ret.polys[i := p];
      }
    }

    /** `minmax()`: the running minimum and maximum of the ranges of the pieces between
        two knots. */
    method MinMax(ops: RealOps) returns (r: Result<(Ext, Ext)>)
      requires Value().Valid() && Filled(Value())
      ensures r == SplineMinMax(ops, Value())
    {
      var ranges := PieceRanges(ops, Value());
      var yMin, yMax := PosInf, NegInf;
      for i := 0 to Interior(Value())
        invariant Fold(ranges, i) == Success((yMin, yMax))
      {
        var m := PolyRoots.MinMax(ops, polys[i + 1], knots[i], knots[i + 1]);
        PieceRangesAt(ops, Value(), i);
        if m.Failure? {
          FoldStops(ranges, i, Interior(Value()));
          return Failure(m.error);
        }
        yMin, yMax := PolyRoots.Lower(yMin, m.value.0), PolyRoots.Upper(yMax, m.value.1);
      }
      r := Success((yMin, yMax));
    }

    /** `insert_knots(new)`: both lists rebuilt in place by merging the new knots into the
        old ones, each new knot repeating the piece in force before it. */
    method InsertKnots(newKnots: seq<real>)
      requires Value().Valid() && Increasing(newKnots)
      modifies this
      ensures Value() == Inserted(old(Value()), newKnots)
    {
      ghost var target := Inserted(Value(), newKnots);
      var nk: seq<real> := [];
      var np := [polys[0]];
      var i, j := 0, 0;
      while i < |knots| && j < |newKnots|
        invariant i <= |knots| && j <= |newKnots| && |np| == |nk| + 1
        invariant Merge(knots, polys, newKnots, i, j, nk, np) == target
        decreases |knots| - i + |newKnots| - j
      {
        if knots[i] <= newKnots[j] {
          nk := nk + [knots[i]];
          np := np + [polys[i + 1]];
          if knots[i] == newKnots[j] {
            j := j + 1;
          }
          i := i + 1;
          continue;
        }
        nk := nk + [newKnots[j]];
        np := np + [np[|np| - 1]];
        j := j + 1;
      }
      while j < |newKnots|
        invariant i <= |knots| && j <= |newKnots| && |np| == |nk| + 1
        invariant i == |knots| || j == |newKnots|
        invariant Merge(knots, polys, newKnots, i, j, nk, np) == target
      {
        nk := nk + [newKnots[j]];
        np := np + [np[|np| - 1]];
        j := j + 1;
      }
      while i < |knots|
        invariant i <= |knots| && j == |newKnots| && |np| == |nk| + 1
        invariant Merge(knots, polys, newKnots, i, j, nk, np) == target
      {
        nk := nk + [knots[i]];
        np := np + [polys[i + 1]];
        i := i + 1;
      }
      knots, polys := nk, np;
    }
  }
}
