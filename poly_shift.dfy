/** `shift` of polynomial.py: the coefficients of p(x + x0), by the Taylor-shift table.
    With b[k] = a[k]*x0^k the table shifts the polynomial y -> p(x0*y) by one; dividing
    coefficient i of the result by x0^i gives p(x + x0). */
module PolyShift {
  import opened Base
  import Arith
  import opened Polynomials

  // ---------------------------------------------------------------------------
  // Rescaling the variable

  /** Coefficient k times c^k: the coefficients of y -> p(c*y). */
  function Dilate(p: seq<real>, c: real): (r: seq<real>)
    ensures |r| == |p|
  {
    seq(|p|, k requires 0 <= k < |p| => p[k] * RPow(c, k))
  }

  lemma DilateFromStep(p: seq<real>, c: real, y: real, i: nat,
                       ci: real, ci1: real, e: real, sNext: real, sNew: real, pNew: real)
    requires i < |p| && ci == RPow(c, i) && ci1 == RPow(c, i + 1)
    requires e == EvalFrom(p, i + 1, c * y) && sNext == EvalFrom(Dilate(p, c), i + 1, y)
    requires sNew == EvalFrom(Dilate(p, c), i, y) && pNew == EvalFrom(p, i, c * y)
    requires sNext == ci1 * e
    ensures sNew == ci * pNew
  {
    EvalFromStep(Dilate(p, c), i, y);
    EvalFromStep(p, i, c * y);
    RPowStep(c, i + 1);
    Arith.Dilation(p[i], ci, ci1, c, y, e, sNew, sNext, pNew);
  }

  lemma {:induction false} DilateEvalFrom(p: seq<real>, c: real, y: real, i: nat)
    requires i <= |p|
    ensures EvalFrom(Dilate(p, c), i, y) == RPow(c, i) * EvalFrom(p, i, c * y)
    decreases |p| - i
  {
    if i == |p| {
      Arith.MulZero(RPow(c, i), EvalFrom(p, i, c * y));
    } else {
      DilateEvalFrom(p, c, y, i + 1);
      DilateFromStep(p, c, y, i, RPow(c, i), RPow(c, i + 1), EvalFrom(p, i + 1, c * y),
                     EvalFrom(Dilate(p, c), i + 1, y), EvalFrom(Dilate(p, c), i, y), EvalFrom(p, i, c * y));
    }
  }

  /** Scaling coefficient k by c^k evaluates p at c*y. */
  lemma DilateEval(p: seq<real>, c: real, y: real)
    ensures Eval(Dilate(p, c), y) == Eval(p, c * y)
  {
    DilateEvalFrom(p, c, y, 0);
    Arith.OneTimes(RPow(c, 0), EvalFrom(p, 0, c * y), EvalFrom(p, 0, c * y));
  }

  /** Prepending a coefficient moves every other one up by one degree. */
  lemma {:induction false} EvalFromCons(h: real, s: seq<real>, i: nat, z: real)
    ensures EvalFrom([h] + s, i + 1, z) == EvalFrom(s, i, z)
    decreases |s| - i
  {
    if i < |s| {
      EvalFromCons(h, s, i + 1, z);
      EvalFromStep([h] + s, i + 1, z);
      EvalFromStep(s, i, z);
    }
  }

  // ---------------------------------------------------------------------------
  // The table

  /** Entry (r, c) of the table `t` of `shift` for the scaled coefficients b (n = |b| - 1):
      column 0 holds b[n-r-1] (nothing in the last row), the entry right of the diagonal
      holds b[n], and every other entry is the sum of the two entries above it. */
  function ShiftTable(b: seq<real>, r: nat, c: nat): real
    requires r < |b| && c <= r + 1
    decreases r
  {
    var n := |b| - 1;
    if c == 0 then (if r < n then b[n - r - 1] else 0.0)
    else if c == r + 1 then b[n]
    else ShiftTable(b, r - 1, c - 1) + ShiftTable(b, r - 1, c)
  }

  /** Columns 1..r+1 of row r, as a coefficient list. */
  function ShiftRow(b: seq<real>, r: nat): (s: seq<real>)
    requires r < |b|
    ensures |s| == r + 1
  {
    seq(r + 1, c requires 0 <= c <= r => ShiftTable(b, r, c + 1))
  }

  /** Row r is row r - 1 times (z + 1) plus b[n - r]. */
  lemma ShiftRowSplit(b: seq<real>, r: nat)
    requires 0 < r < |b|
    ensures ShiftRow(b, r) == Sum(Sum([b[|b| - 1 - r]], ShiftRow(b, r - 1)), [0.0] + ShiftRow(b, r - 1))
  {
    var prev, row := ShiftRow(b, r - 1), ShiftRow(b, r);
    var s := Sum(Sum([b[|b| - 1 - r]], prev), [0.0] + prev);
    assert |s| == |row|;
    forall c | 0 <= c < |row|
      ensures row[c] == s[c]
    {
      if c == 0 {
        assert prev[0] == ShiftTable(b, r - 1, 1);
        assert ShiftTable(b, r - 1, 0) == b[|b| - 1 - r];
        assert row[c] == ShiftTable(b, r - 1, 0) + ShiftTable(b, r - 1, 1);
      } else if c == r {
        assert row[c] == prev[r - 1];
      } else {
        assert row[c] == prev[c - 1] + prev[c];
      }
    }
  }

  lemma ShiftRowStep(b: seq<real>, r: nat, z: real, e: real)
    requires 0 < r < |b|
    requires e == Eval(ShiftRow(b, r - 1), z) && e == EvalFrom(b, |b| - r, z + 1.0)
    ensures Eval(ShiftRow(b, r), z) == EvalFrom(b, |b| - 1 - r, z + 1.0)
  {
    var prev := ShiftRow(b, r - 1);
    var k: nat := |b| - 1 - r;
    var head, up := Sum([b[k]], prev), [0.0] + prev;
    ShiftRowSplit(b, r);
    EvalSum(head, up, z);
    EvalSum([b[k]], prev, z);
    EvalSingleton(b[k], z);
    EvalFromStep(up, 0, z);
    EvalFromCons(0.0, prev, 0, z);
    EvalFromStep(b, k, z + 1.0);
    Arith.RowShift(b[k], e, z, z * e, Eval(ShiftRow(b, r), z), EvalFrom(b, k, z + 1.0));
  }

  /** Row r of the table holds the top r + 1 scaled coefficients shifted by one. */
  lemma {:induction false} ShiftRowEval(b: seq<real>, r: nat, z: real)
    requires r < |b|
    ensures Eval(ShiftRow(b, r), z) == EvalFrom(b, |b| - 1 - r, z + 1.0)
    decreases r
  {
    var n := |b| - 1;
    if r == 0 {
      assert ShiftRow(b, 0) == [b[n]];
      EvalSingleton(b[n], z);
      EvalFromStep(b, n, z + 1.0);
      Arith.MulZero(z + 1.0, EvalFrom(b, n + 1, z + 1.0));
    } else {
      var q: nat := r - 1;
      ShiftRowEval(b, q, z);
      ShiftRowStep(b, r, z, Eval(ShiftRow(b, q), z));
    }
  }

  // ---------------------------------------------------------------------------
  // shift

  /** v / x0^i, for x0 != 0. */
  function Unscale(v: real, x0: real, i: nat): (r: real)
    requires x0 != 0.0
    ensures r * RPow(x0, i) == v
  {
    RPowNonZero(x0, i);
    Arith.DivMul(v, RPow(x0, i));
    v / RPow(x0, i)
  }

  /** `shift(a, x0)`: a copy when x0 == 0; otherwise coefficient i < n is entry (n, i+1)
      of the table divided by x0^i, and the leading coefficient is kept. `shift` fails
      on an empty list unless x0 == 0. */
  function Shifted(a: seq<real>, x0: real): (r: seq<real>)
    requires x0 == 0.0 || |a| > 0
    ensures |r| == |a|
  {
    if x0 == 0.0 then a
    else
      var n := |a| - 1;
      var top := ShiftRow(Dilate(a, x0), n);
      seq(|a|, i requires 0 <= i < |a| => if i < n then Unscale(top[i], x0, i) else a[n])
  }

  /** Undoing the division by x0^i gives back the last row of the table. */
  lemma ShiftedDilate(a: seq<real>, x0: real)
    requires x0 != 0.0 && |a| > 0
    ensures Dilate(Shifted(a, x0), x0) == ShiftRow(Dilate(a, x0), |a| - 1)
  {
    var n := |a| - 1;
    var q, top := Shifted(a, x0), ShiftRow(Dilate(a, x0), n);
    forall i | 0 <= i < |a|
      ensures Dilate(q, x0)[i] == top[i]
    {
      if i < n {
        assert q[i] == Unscale(top[i], x0, i);
      }
    }
  }

  /** p(x + x0) is what `shift` promises. */
  lemma ShiftedEval(a: seq<real>, x0: real, x: real)
    requires x0 == 0.0 || |a| > 0
    ensures Eval(Shifted(a, x0), x) == Eval(a, x + x0)
  {
    if x0 != 0.0 {
      var n := |a| - 1;
      var b, q := Dilate(a, x0), Shifted(a, x0);
      var y := x / x0;
      var z := y + 1.0;
      Arith.Rescale(x0, x, y, z);
      ShiftedDilate(a, x0);
      DilateEval(q, x0, y);
      ShiftRowEval(b, n, y);
      DilateEval(a, x0, z);
    }
  }

  /** Cell (r, c) of the finished table; 0 where `shift` never writes. */
  function Cell(b: seq<real>, r: nat, c: nat): real
    requires r < |b|
  {
    if c <= r + 1 && !(c == 0 && r == |b| - 1) then ShiftTable(b, r, c) else 0.0
  }

  /** The three loops of `shift` that fill the m x m table t (m = |a|): on return every
      entry `shift` writes holds the table entry for the scaled coefficients a[k]*x0^k,
      and every other entry still holds 0. */
  method FillShiftTable(a: seq<real>, x0: real) returns (t: array2<real>)
    requires |a| > 0
    ensures fresh(t) && t.Length0 == |a| && t.Length1 == |a|
    ensures forall r, c :: 0 <= r < |a| && 0 <= c < |a| ==> t[r, c] == Cell(Dilate(a, x0), r, c)
  {
    var m := |a|;
    var n := m - 1;
    ghost var b := Dilate(a, x0);
    t := new real[m, m]((_, _) => 0.0);
    for i := 0 to n
      invariant forall r, c :: 0 <= r < m && 0 <= c < m ==>
                  t[r, c] == if c == 0 && r < i then b[n - r - 1] else 0.0
    {
      t[i, 0] := a[n - i - 1] * RPow(x0, n - i - 1);
    }
    for i := 0 to n
      invariant forall r, c :: 0 <= r < m && 0 <= c < m ==>
                  t[r, c] == if c == 0 && r < n then b[n - r - 1] else if c == r + 1 && r < i then b[n] else 0.0
    {
      t[i, i + 1] := a[n] * RPow(x0, n);
    }
    for j := 0 to n
      invariant forall r, c :: 0 <= r < m && 0 <= c < m ==>
                  t[r, c] == if 1 <= c <= r && c > j then 0.0 else Cell(b, r, c)
    {
      for i := j + 1 to n + 1
        invariant forall r, c :: 0 <= r < m && 0 <= c < m ==>
                    t[r, c] == if 1 <= c <= r && (c > j + 1 || (c == j + 1 && r >= i)) then 0.0 else Cell(b, r, c)
      {
        t[i, j + 1] := t[i - 1, j] + t[i - 1, j + 1];
      }
    }
  }

  method Shift(a: seq<real>, x0: real) returns (q: seq<real>)
    requires x0 == 0.0 || |a| > 0
    ensures q == Shifted(a, x0)
    ensures forall x :: Eval(q, x) == Eval(a, x + x0)
  {
    if x0 == 0.0 {
      q := a;
    } else {
      var m := |a|;
      var n := m - 1;
      ghost var b := Dilate(a, x0);
      var t := FillShiftTable(a, x0);
      assert forall k :: 0 <= k < n ==> t[n, k + 1] == ShiftRow(b, n)[k];
      var qa := new real[m](_ => 0.0);
      for i := 0 to n
        modifies qa
        invariant forall k :: 0 <= k < i ==> qa[k] == Unscale(t[n, k + 1], x0, k)
      {
        RPowNonZero(x0, i);
        qa[i] := t[n, i + 1] / RPow(x0, i);
      }
      qa[n] := a[n];
      q := qa[..];
      forall k | 0 <= k < m
        ensures q[k] == Shifted(a, x0)[k]
      {
        if k < n {
          assert q[k] == Unscale(ShiftRow(b, n)[k], x0, k);
        }
      }
      assert q == Shifted(a, x0);
    }
    forall x ensures Eval(q, x) == Eval(a, x + x0) {
      ShiftedEval(a, x0, x);
    }
  }
}
