/** `curve.minmax` of spline.py: the least and greatest value over the pieces that lie
    between two knots, each found by the polynomial `minmax` on its closed interval. The
    two unbounded end pieces are not looked at. */
module SplineRange {
  import opened Base
  import opened Polynomials
  import opened PolyRoots
  import opened Splines

  /** The number of pieces bounded by two knots. */
  function Interior(s: Spline): nat {
    if |s.knots| > 0 then |s.knots| - 1 else 0
  }

  /** The polynomial `minmax` of the bounded piece i (1 <= i), over its two knots. */
  function PieceMinMax(ops: RealOps, s: Spline, i: nat): Result<(real, real)>
    requires s.Valid() && Filled(s) && 0 < i < |s.knots|
  {
    Range(ops, s.polys[i], s.knots[i - 1], s.knots[i])
  }

  /** The loop of `minmax` over the first n of the given piece ranges: infinities before
      any piece, then the running minimum and maximum; the first range that fails stops it. */
  function Fold(ms: seq<Result<(real, real)>>, n: nat): Result<(Ext, Ext)>
    requires n <= |ms|
  {
    if n == 0 then Success((PosInf, NegInf))
    else
      var acc :- Fold(ms, n - 1);
      var m :- ms[n - 1];
      Success((Lower(acc.0, m.0), Upper(acc.1, m.1)))
  }

  /** Once a range fails, the loop ends with its failure. */
  lemma {:induction false} FoldStops(ms: seq<Result<(real, real)>>, i: nat, n: nat)
    requires i < n <= |ms| && Fold(ms, i).Success? && ms[i].Failure?
    ensures Fold(ms, n) == Failure(ms[i].error)
    decreases n
  {
    if n > i + 1 {
      FoldStops(ms, i, n - 1);
    }
  }

  /** The ranges of the bounded pieces, in order. */
  function PieceRanges(ops: RealOps, s: Spline): (r: seq<Result<(real, real)>>)
    requires s.Valid() && Filled(s)
    ensures |r| == Interior(s)
    ensures forall i :: 0 < i < |s.knots| ==> r[i - 1] == PieceMinMax(ops, s, i)
  {
    seq(Interior(s), i requires 0 <= i < Interior(s) => PieceMinMax(ops, s, i + 1))
  }

  lemma PieceRangesAt(ops: RealOps, s: Spline, i: nat)
    requires s.Valid() && Filled(s) && i < Interior(s)
    ensures PieceRanges(ops, s)[i] == Range(ops, s.polys[i + 1], s.knots[i], s.knots[i + 1])
  {
    assert PieceRanges(ops, s)[i] == PieceMinMax(ops, s, i + 1);
  }

  /** `minmax()`. */
  function SplineMinMax(ops: RealOps, s: Spline): Result<(Ext, Ext)>
    requires s.Valid() && Filled(s)
  {
    Fold(PieceRanges(ops, s), Interior(s))
  }

  /** The loop over the first n ranges succeeds exactly when each of them does; it keeps
      infinities when there is none and otherwise bounds every range and meets the low and
      the high value of some range. */
  lemma {:induction false} FoldSpec(ms: seq<Result<(real, real)>>, n: nat)
    requires n <= |ms|
    ensures Fold(ms, n).Success? <==> forall i :: 0 <= i < n ==> ms[i].Success?
    ensures Fold(ms, n).Success? ==>
              var r := Fold(ms, n).value;
              (n == 0 <==> r.0.PosInf?) && (n == 0 <==> r.1.NegInf?) &&
              (n > 0 ==> r.0.Fin? && r.1.Fin?) &&
              (forall i :: 0 <= i < n ==> r.0.r <= ms[i].value.0 && ms[i].value.1 <= r.1.r) &&
              (n > 0 ==> exists i :: 0 <= i < n && r.0.r == ms[i].value.0) &&
              (n > 0 ==> exists i :: 0 <= i < n && r.1.r == ms[i].value.1)
    decreases n
  {
    if n > 0 {
      FoldSpec(ms, n - 1);
      var prev := Fold(ms, n - 1);
      if prev.Success? && ms[n - 1].Success? {
        var acc := prev.value;
        var m := ms[n - 1].value;
        var r := Fold(ms, n).value;
        assert r == (Lower(acc.0, m.0), Upper(acc.1, m.1));
        if n > 1 {
          var i :| 0 <= i < n - 1 && acc.0.r == ms[i].value.0;
          var k :| 0 <= k < n - 1 && acc.1.r == ms[k].value.1;
          if r.0.r != m.0 {
            assert r.0.r == ms[i].value.0;
          }
          if r.1.r != m.1 {
            assert r.1.r == ms[k].value.1;
          }
        }
      }
    }
  }

  /** `minmax()` succeeds exactly when every bounded piece's range does, and gives
      (inf, -inf) when there is no bounded piece. */
  lemma SplineMinMaxSucceeds(ops: RealOps, s: Spline)
    requires s.Valid() && Filled(s)
    ensures SplineMinMax(ops, s).Success? <==> forall i :: 0 < i < |s.knots| ==> PieceMinMax(ops, s, i).Success?
    ensures SplineMinMax(ops, s).Success? && |s.knots| <= 1 ==> SplineMinMax(ops, s).value == (PosInf, NegInf)
    ensures SplineMinMax(ops, s).Success? && |s.knots| > 1 ==>
              SplineMinMax(ops, s).value.0.Fin? && SplineMinMax(ops, s).value.1.Fin?
  {
    var ms := PieceRanges(ops, s);
    FoldSpec(ms, Interior(s));
    if forall i :: 0 <= i < |ms| ==> ms[i].Success? {
      forall i | 0 < i < |s.knots|
        ensures PieceMinMax(ops, s, i).Success?
      {
        assert ms[i - 1].Success?;
      }
    }
  }

  /** The bounds of a successful `minmax()` enclose every bounded piece's range. */
  lemma SplineMinMaxEncloses(ops: RealOps, s: Spline, i: nat)
    requires s.Valid() && Filled(s) && 0 < i < |s.knots|
    requires SplineMinMax(ops, s).Success?
    ensures PieceMinMax(ops, s, i).Success?
    ensures SplineMinMax(ops, s).value.0.Fin? && SplineMinMax(ops, s).value.1.Fin?
    ensures SplineMinMax(ops, s).value.0.r <= PieceMinMax(ops, s, i).value.0
    ensures PieceMinMax(ops, s, i).value.1 <= SplineMinMax(ops, s).value.1.r
  {
    var ms := PieceRanges(ops, s);
    FoldSpec(ms, Interior(s));
    assert ms[i - 1] == PieceMinMax(ops, s, i);
  }

  /** The bounds of a successful `minmax()` with a bounded piece are the low and the high
      value of some bounded piece. */
  lemma SplineMinMaxAttainedPiece(ops: RealOps, s: Spline)
    requires s.Valid() && Filled(s) && |s.knots| > 1
    requires SplineMinMax(ops, s).Success?
    ensures SplineMinMax(ops, s).value.0.Fin? && SplineMinMax(ops, s).value.1.Fin?
    ensures exists i :: 0 < i < |s.knots| && PieceMinMax(ops, s, i).Success? &&
                        SplineMinMax(ops, s).value.0.r == PieceMinMax(ops, s, i).value.0
    ensures exists i :: 0 < i < |s.knots| && PieceMinMax(ops, s, i).Success? &&
                        SplineMinMax(ops, s).value.1.r == PieceMinMax(ops, s, i).value.1
  {
    var ms := PieceRanges(ops, s);
    FoldSpec(ms, Interior(s));
    var r := SplineMinMax(ops, s).value;
    var i :| 0 <= i < |ms| && r.0.r == ms[i].value.0;
    var k :| 0 <= k < |ms| && r.1.r == ms[k].value.1;
    assert ms[i] == PieceMinMax(ops, s, i + 1);
    assert ms[k] == PieceMinMax(ops, s, k + 1);
  }

  /** The polynomial `minmax` of one bounded piece, in the piece's terms. */
  lemma PieceMinMaxSpec(ops: RealOps, s: Spline, i: nat)
    requires ops.Lawful() && s.Valid() && Filled(s) && 0 < i < |s.knots|
    ensures PieceMinMax(ops, s, i).Failure? <==> |Trimmed(Derivative(s.polys[i]))| >= 4
    ensures PieceMinMax(ops, s, i).Success? ==>
              var m := PieceMinMax(ops, s, i).value;
              m.0 <= m.1 &&
              m.0 <= Eval(s.polys[i], s.knots[i - 1]) <= m.1 && m.0 <= Eval(s.polys[i], s.knots[i]) <= m.1 &&
              (forall x :: (s.knots[i - 1] < x < s.knots[i] && Trimmed(Derivative(s.polys[i])) != [0.0] &&
                           Eval(Trimmed(Derivative(s.polys[i])), x) == 0.0) ==> m.0 <= Eval(s.polys[i], x) <= m.1) &&
              (exists x :: Candidate(s.polys[i], s.knots[i - 1], s.knots[i], x) && Eval(s.polys[i], x) == m.0) &&
              (exists x :: Candidate(s.polys[i], s.knots[i - 1], s.knots[i], x) && Eval(s.polys[i], x) == m.1)
  {
    var p, lo, hi := s.polys[i], s.knots[i - 1], s.knots[i];
    RangeSpec(ops, p, lo, hi);
    forall x | lo < x < hi && Trimmed(Derivative(p)) != [0.0] && Eval(Trimmed(Derivative(p)), x) == 0.0 &&
               Range(ops, p, lo, hi).Success?
      ensures Range(ops, p, lo, hi).value.0 <= Eval(p, x) <= Range(ops, p, lo, hi).value.1
    {
      RangeBoundsCritical(ops, p, lo, hi, x);
    }
  }

  /** `minmax()` fails exactly when the range of some bounded piece fails: its trimmed
      derivative has degree three or more. */
  lemma SplineMinMaxFails(ops: RealOps, s: Spline)
    requires ops.Lawful() && s.Valid() && Filled(s)
    ensures SplineMinMax(ops, s).Failure? <==>
              exists i :: 0 < i < |s.knots| && |Trimmed(Derivative(s.polys[i]))| >= 4
  {
    SplineMinMaxSucceeds(ops, s);
    forall i | 0 < i < |s.knots|
      ensures PieceMinMax(ops, s, i).Failure? <==> |Trimmed(Derivative(s.polys[i]))| >= 4
    {
      PieceMinMaxSpec(ops, s, i);
    }
  }

  /** Each bound of a successful `minmax()` with a bounded piece is a value that a bounded
      piece takes at one of the points it examines. */
  lemma SplineMinMaxAttained(ops: RealOps, s: Spline)
    requires ops.Lawful() && s.Valid() && Filled(s) && |s.knots| > 1
    requires SplineMinMax(ops, s).Success?
    ensures var r := SplineMinMax(ops, s).value;
            r.0.Fin? && r.1.Fin? &&
            (exists i, x :: 0 < i < |s.knots| && Candidate(s.polys[i], s.knots[i - 1], s.knots[i], x) &&
               Eval(s.polys[i], x) == r.0.r) &&
            (exists i, x :: 0 < i < |s.knots| && Candidate(s.polys[i], s.knots[i - 1], s.knots[i], x) &&
               Eval(s.polys[i], x) == r.1.r)
  {
    SplineMinMaxAttainedPiece(ops, s);
    var r := SplineMinMax(ops, s).value;
    var i :| 0 < i < |s.knots| && PieceMinMax(ops, s, i).Success? && r.0.r == PieceMinMax(ops, s, i).value.0;
    var k :| 0 < k < |s.knots| && PieceMinMax(ops, s, k).Success? && r.1.r == PieceMinMax(ops, s, k).value.1;
    PieceMinMaxSpec(ops, s, i);
    PieceMinMaxSpec(ops, s, k);
  }

  /** The bounds of a successful `minmax()` enclose the values at both knots of every
      bounded piece and at every critical point strictly inside one. */
  lemma SplineMinMaxBounds(ops: RealOps, s: Spline)
    requires ops.Lawful() && s.Valid() && Filled(s) && |s.knots| > 1
    requires SplineMinMax(ops, s).Success?
    ensures var r := SplineMinMax(ops, s).value;
            r.0.Fin? && r.1.Fin? &&
            (forall i :: 0 < i < |s.knots| ==>
               r.0.r <= Eval(s.polys[i], s.knots[i - 1]) <= r.1.r &&
               r.0.r <= Eval(s.polys[i], s.knots[i]) <= r.1.r) &&
            (forall i, x :: (0 < i < |s.knots| && s.knots[i - 1] < x < s.knots[i] &&
               Trimmed(Derivative(s.polys[i])) != [0.0] && Eval(Trimmed(Derivative(s.polys[i])), x) == 0.0) ==>
               r.0.r <= Eval(s.polys[i], x) <= r.1.r)
  {
    var r := SplineMinMax(ops, s).value;
    SplineMinMaxEncloses(ops, s, 1);
    forall i | 0 < i < |s.knots|
      ensures r.0.r <= Eval(s.polys[i], s.knots[i - 1]) <= r.1.r
      ensures r.0.r <= Eval(s.polys[i], s.knots[i]) <= r.1.r
      ensures forall x :: (s.knots[i - 1] < x < s.knots[i] && Trimmed(Derivative(s.polys[i])) != [0.0] &&
                           Eval(Trimmed(Derivative(s.polys[i])), x) == 0.0) ==> r.0.r <= Eval(s.polys[i], x) <= r.1.r
    {
      SplineMinMaxEncloses(ops, s, i);
      PieceMinMaxSpec(ops, s, i);
    }
  }
}
