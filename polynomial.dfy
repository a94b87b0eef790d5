/** Polynomial algebra over coefficient lists, lowest degree first (polynomial.py).
    Each looping routine of polynomial.py is a method proved equal to a pure function
    of the same shape; what the result means (its value at every point) is proved
    about that function. */
module Polynomials {
  import opened Base
  import Arith

  // ---------------------------------------------------------------------------
  // Evaluation

  /** p[i] + p[i+1]*x + p[i+2]*x^2 + ...: the value of the coefficients from index i on,
      by Horner's rule. */
  function EvalFrom(p: seq<real>, i: nat, x: real): real
    decreases |p| - i, 1
  {
    if i >= |p| then 0.0 else HornerStep(p, i, x)
  }

  /** The Horner step at index i: p[i] plus x times the value of the coefficients above i.
      It is a separate function so that the solver only expands it where a proof asks
      for it through `EvalFromStep`. */
  function HornerStep(p: seq<real>, i: nat, x: real): real
    requires i < |p|
    decreases |p| - i, 0
  {
    p[i] + x * EvalFrom(p, i + 1, x)
  }

  /** The value of `p` at `x` (0 for no coefficients). */
  function Eval(p: seq<real>, x: real): real {
    EvalFrom(p, 0, x)
  }

  /** Coefficient `i`, or 0 beyond the end of the list. */
  function Coef(p: seq<real>, i: nat): real {
    if i < |p| then p[i] else 0.0
  }

  function Zeros(n: nat): (r: seq<real>)
    ensures |r| == n && forall i :: 0 <= i < n ==> r[i] == 0.0
  {
    seq(n, _ => 0.0)
  }

  lemma EvalFromStep(p: seq<real>, i: nat, x: real)
    ensures EvalFrom(p, i, x) == Coef(p, i) + x * EvalFrom(p, i + 1, x)
  {
    if i < |p| {
      assert HornerStep(p, i, x) == p[i] + x * EvalFrom(p, i + 1, x);
    }
  }

  lemma EvalLinear(a: real, b: real, x: real)
    ensures Eval([a, b], x) == a + b * x
  {
    EvalFromStep([a, b], 0, x);
    EvalFromStep([a, b], 1, x);
    EvalFromStep([a, b], 2, x);
  }

  /** Coefficient lists that agree from index i on have the same value from i on. */
  lemma {:induction false} EvalAgree(p: seq<real>, q: seq<real>, i: nat, x: real)
    requires |p| == |q|
    requires forall k :: i <= k < |p| ==> p[k] == q[k]
    ensures EvalFrom(p, i, x) == EvalFrom(q, i, x)
    decreases |p| - i
  {
    if i < |p| {
      EvalAgree(p, q, i + 1, x);
      EvalFromStep(p, i, x);
      EvalFromStep(q, i, x);
    }
  }

  lemma {:induction false} EvalZeros(s: seq<real>, i: nat, x: real)
    requires forall k :: 0 <= k < |s| ==> s[k] == 0.0
    ensures EvalFrom(s, i, x) == 0.0
    decreases |s| - i
  {
    if i < |s| {
      EvalZeros(s, i + 1, x);
      EvalFromStep(s, i, x);
    }
  }

  /** Appending one coefficient c to p adds c*x^|p|. */
  lemma {:induction false} EvalSnoc(p: seq<real>, q: seq<real>, i: nat, x: real)
    requires |q| == |p| + 1 && i <= |p|
    requires forall k :: 0 <= k < |p| ==> q[k] == p[k]
    ensures EvalFrom(q, i, x) == EvalFrom(p, i, x) + q[|p|] * RPow(x, |p| - i)
    decreases |p| - i
  {
    EvalFromStep(q, i, x);
    if i == |p| {
      assert EvalFrom(q, i + 1, x) == 0.0;
    } else {
      EvalFromStep(p, i, x);
      var eq, ep := EvalFrom(q, i + 1, x), EvalFrom(p, i + 1, x);
      assert eq == ep + q[|p|] * RPow(x, |p| - i - 1) by { EvalSnoc(p, q, i + 1, x); }
      Arith.ShiftIn(p[i], x, ep, q[|p|], RPow(x, |p| - i - 1));
    }
  }

  lemma EvalPrefix(p: seq<real>, n: nat, x: real)
    requires n < |p|
    ensures Eval(p[..n + 1], x) == Eval(p[..n], x) + p[n] * RPow(x, n)
  {
    EvalSnoc(p[..n], p[..n + 1], 0, x);
  }

  /** Changing coefficient k from p[k] to v adds (v - p[k])*x^k. */
  lemma {:induction false} EvalUpdate(p: seq<real>, k: nat, v: real, i: nat, x: real)
    requires i <= k < |p|
    ensures EvalFrom(p[k := v], i, x) == EvalFrom(p, i, x) + (v - p[k]) * RPow(x, k - i)
    decreases k - i
  {
    var u := p[k := v];
    EvalFromStep(u, i, x);
    EvalFromStep(p, i, x);
    if i == k {
      EvalAgree(u, p, k + 1, x);
    } else {
      var eu, ep := EvalFrom(u, i + 1, x), EvalFrom(p, i + 1, x);
      assert eu == ep + (v - p[k]) * RPow(x, k - i - 1) by { EvalUpdate(p, k, v, i + 1, x); }
      Arith.ShiftIn(p[i], x, ep, v - p[k], RPow(x, k - i - 1));
    }
  }

  /** Adding d to coefficient k adds d*x^k. */
  lemma EvalBump(p: seq<real>, k: nat, d: real, x: real, rk: real)
    requires k < |p| && rk == RPow(x, k)
    ensures Eval(p[k := p[k] + d], x) == Eval(p, x) + d * rk
  {
    var v := p[k] + d;
    EvalUpdate(p, k, v, 0, x);
    assert v - p[k] == d;
  }

  /** `eval`: Horner's rule, from the highest coefficient down. */
  method Horner(p: seq<real>, x: real) returns (y: real)
    ensures y == Eval(p, x)
  {
    y := 0.0;
    for j := 0 to |p|
      invariant y == EvalFrom(p, |p| - j, x)
    {
      var i := |p| - j - 1;
      EvalFromStep(p, i, x);
      y := x * y + p[i];
    }
  }

  // ---------------------------------------------------------------------------
  // Scalars, negation, linear interpolation

  /** `_to_poly`: a scalar used where a polynomial is expected. */
  function Constant(c: real): (r: seq<real>)
    ensures |r| == 1 && forall x :: Eval(r, x) == c
  {
    forall x ensures Eval([c], x) == c {
      EvalSingleton(c, x);
    }
    [c]
  }

  lemma EvalSingleton(c: real, x: real)
    ensures Eval([c], x) == c
  {
    EvalFromStep([c], 0, x);
    assert EvalFrom([c], 1, x) == 0.0;
  }

  /** A list whose coefficients are those of p times c takes c times p's value. */
  lemma {:induction false} EvalScaled(p: seq<real>, s: seq<real>, c: real, i: nat, x: real)
    requires |s| == |p|
    requires forall k :: 0 <= k < |p| ==> s[k] == p[k] * c
    ensures EvalFrom(s, i, x) == c * EvalFrom(p, i, x)
    decreases |p| - i
  {
    if i < |p| {
      EvalFromStep(s, i, x);
      EvalFromStep(p, i, x);
      var es, ep := EvalFrom(s, i + 1, x), EvalFrom(p, i + 1, x);
      assert es == c * ep by { EvalScaled(p, s, c, i + 1, x); }
      Arith.Factor(p[i], x, c, ep);
    }
  }

  /** `neg`. */
  function Neg(p: seq<real>): (r: seq<real>)
    ensures |r| == |p|
    ensures forall x :: Eval(r, x) == -Eval(p, x)
  {
    var r := seq(|p|, i requires 0 <= i < |p| => -p[i]);
    forall x ensures Eval(r, x) == -Eval(p, x) {
      EvalScaled(p, r, -1.0, 0, x);
    }
    r
  }

  /** Every coefficient multiplied by `c` (`mul` by a scalar, and the spline's `__mul__`). */
  function Scale(p: seq<real>, c: real): (r: seq<real>)
    ensures |r| == |p| && forall k :: 0 <= k < |p| ==> r[k] == p[k] * c
    ensures forall x :: Eval(r, x) == c * Eval(p, x)
  {
    var r := seq(|p|, i requires 0 <= i < |p| => p[i] * c);
    forall x ensures Eval(r, x) == c * Eval(p, x) {
      EvalScaled(p, r, c, 0, x);
    }
    r
  }

  /** `line_from_to`: the line through (x0, y0) and (x1, y1). */
  function LineFromTo(x0: real, y0: real, x1: real, y1: real): (r: seq<real>)
    requires x1 != x0
    ensures |r| == 2
    ensures Eval(r, x0) == y0 && Eval(r, x1) == y1
  {
    var slope := (y1 - y0) / (x1 - x0);
    var intercept := y0 - slope * x0;
    EvalLinear(intercept, slope, x0);
    EvalLinear(intercept, slope, x1);
    Arith.DivMul(y1 - y0, x1 - x0);
    [intercept, slope]
  }

  /** The coefficients of `LineFromTo`: the slope and the intercept. */
  lemma LineFromToIs(x0: real, y0: real, x1: real, y1: real)
    requires x1 != x0
    ensures var slope := (y1 - y0) / (x1 - x0);
            LineFromTo(x0, y0, x1, y1) == [y0 - x0 * slope, slope]
  {
  }

  // ---------------------------------------------------------------------------
  // Sum and difference

  /** Coefficient-wise sum, as long as the longer operand. */
  function Sum(p: seq<real>, q: seq<real>): (r: seq<real>)
    ensures |r| == if |p| < |q| then |q| else |p|
    ensures forall k :: 0 <= k < |r| ==> r[k] == Coef(p, k) + Coef(q, k)
  {
    seq(if |p| < |q| then |q| else |p|, k requires k >= 0 => Coef(p, k) + Coef(q, k))
  }

  lemma {:induction false} EvalSumFrom(p: seq<real>, q: seq<real>, s: seq<real>, i: nat, x: real)
    requires |p| <= |s| && |q| <= |s|
    requires forall k :: 0 <= k < |s| ==> s[k] == Coef(p, k) + Coef(q, k)
    ensures EvalFrom(s, i, x) == EvalFrom(p, i, x) + EvalFrom(q, i, x)
    decreases |s| - i
  {
    if i < |s| {
      var ep, eq, es := EvalFrom(p, i + 1, x), EvalFrom(q, i + 1, x), EvalFrom(s, i + 1, x);
      assert es == ep + eq by { EvalSumFrom(p, q, s, i + 1, x); }
      assert EvalFrom(p, i, x) == Coef(p, i) + x * ep by { EvalFromStep(p, i, x); }
      assert EvalFrom(q, i, x) == Coef(q, i) + x * eq by { EvalFromStep(q, i, x); }
      assert EvalFrom(s, i, x) == Coef(p, i) + Coef(q, i) + x * es by { EvalFromStep(s, i, x); }
      Arith.SumStep(Coef(p, i), Coef(q, i), x, ep, eq, es, EvalFrom(s, i, x), EvalFrom(p, i, x), EvalFrom(q, i, x));
    }
  }

  lemma EvalSum(p: seq<real>, q: seq<real>, x: real)
    ensures Eval(Sum(p, q), x) == Eval(p, x) + Eval(q, x)
  {
    EvalSumFrom(p, q, Sum(p, q), 0, x);
  }

  /** `add`: copy the longer operand, then add the shorter one into it. */
  method Add(p: seq<real>, q: seq<real>) returns (r: seq<real>)
    ensures r == Sum(p, q)
    ensures forall x :: Eval(r, x) == Eval(p, x) + Eval(q, x)
  {
    var long, short := p, q;
    if |q| > |p| {
      long, short := q, p;
    }
    r := long;
    for i := 0 to |short|
      invariant |r| == |long|
      invariant forall k :: 0 <= k < i ==> r[k] == long[k] + short[k]
      invariant forall k :: i <= k < |r| ==> r[k] == long[k]
    {
      r := r[i := r[i] + short[i]];
    }
    assert r == Sum(p, q);
    forall x ensures Eval(r, x) == Eval(p, x) + Eval(q, x) {
      EvalSum(p, q, x);
    }
  }

  /** `sub`: add(p, neg(q)). */
  function Sub(p: seq<real>, q: seq<real>): (r: seq<real>)
    ensures |r| == if |p| < |q| then |q| else |p|
    ensures forall x :: Eval(r, x) == Eval(p, x) - Eval(q, x)
  {
    forall x ensures Eval(Sum(p, Neg(q)), x) == Eval(p, x) - Eval(q, x) {
      EvalSum(p, Neg(q), x);
    }
    Sum(p, Neg(q))
  }

  // ---------------------------------------------------------------------------
  // Product

  /** Length of `mul`'s output: len(p) + len(q) - 1, or nothing for two empty lists. */
  function ProductLength(p: seq<real>, q: seq<real>): nat {
    if |p| + |q| == 0 then 0 else |p| + |q| - 1
  }

  /** The inner loop of `mul` after `j` steps: c*q[0..j] added into acc from index off. */
  function MulRow(acc: seq<real>, off: nat, c: real, q: seq<real>, j: nat): (r: seq<real>)
    requires j <= |q| && off + |q| <= |acc|
    ensures |r| == |acc|
    decreases j
  {
    if j == 0 then acc
    else
      var prev := MulRow(acc, off, c, q, j - 1);
      prev[off + j - 1 := prev[off + j - 1] + c * q[j - 1]]
  }

  /** The outer loop of `mul` after `i` rows. */
  function MulRows(p: seq<real>, q: seq<real>, i: nat): (r: seq<real>)
    requires i <= |p|
    ensures |r| == ProductLength(p, q)
    decreases i, 1
  {
    if i == 0 then Zeros(ProductLength(p, q)) else MulRowsStep(p, q, i)
  }

  /** Row i - 1 added to the first i - 1 rows; a separate call so that the solver only
      expands a row where a proof asks for it through `MulRowsUnfold`. */
  function MulRowsStep(p: seq<real>, q: seq<real>, i: nat): (r: seq<real>)
    requires 0 < i <= |p|
    ensures |r| == ProductLength(p, q)
    decreases i, 0
  {
    MulRow(MulRows(p, q, i - 1), i - 1, p[i - 1], q, |q|)
  }

  lemma MulRowsUnfold(p: seq<real>, q: seq<real>, i: nat)
    requires i < |p|
    ensures MulRows(p, q, i + 1) == MulRow(MulRows(p, q, i), i, p[i], q, |q|)
  {
    assert MulRows(p, q, i + 1) == MulRowsStep(p, q, i + 1);
  }

  /** `mul`. */
  function Product(p: seq<real>, q: seq<real>): (r: seq<real>)
    ensures |r| == ProductLength(p, q)
  {
    MulRows(p, q, |p|)
  }

  lemma MulRowUnfold(acc: seq<real>, off: nat, c: real, q: seq<real>, j: nat)
    requires j < |q| && off + |q| <= |acc|
    ensures var prev := MulRow(acc, off, c, q, j);
            MulRow(acc, off, c, q, j + 1) == prev[off + j := prev[off + j] + c * q[j]]
  {
  }

  /** One step of the inner loop of `mul` adds c*q[j]*x^(off+j) to the value. */
  lemma MulRowBump(acc: seq<real>, off: nat, c: real, q: seq<real>, j: nat, x: real, ab: real)
    requires j < |q| && off + |q| <= |acc| && ab == RPow(x, off + j)
    ensures Eval(MulRow(acc, off, c, q, j + 1), x) == Eval(MulRow(acc, off, c, q, j), x) + c * q[j] * ab
  {
    var prev := MulRow(acc, off, c, q, j);
    var k: nat, d := off + j, c * q[j];
    assert MulRow(acc, off, c, q, j + 1) == prev[k := prev[k] + d] by { MulRowUnfold(acc, off, c, q, j); }
    EvalBump(prev, k, d, x, ab);
    Arith.Mul3(c, q[j], d, ab);
  }

  /** The inner-loop invariant of `mul` survives one step; the values are passed by name. */
  lemma MulRowEvalStep(acc: seq<real>, off: nat, c: real, q: seq<real>, j: nat, x: real,
                       e0: real, ePrev: real, eNew: real, e: real, eNext: real,
                       a: real, b: real, ab: real)
    requires j < |q| && off + |q| <= |acc|
    requires e0 == Eval(acc, x) && e == Eval(q[..j], x) && eNext == Eval(q[..j + 1], x)
    requires ePrev == Eval(MulRow(acc, off, c, q, j), x)
    requires eNew == Eval(MulRow(acc, off, c, q, j + 1), x)
    requires a == RPow(x, off) && b == RPow(x, j) && ab == RPow(x, off + j)
    requires ePrev == e0 + c * a * e
    ensures eNew == e0 + c * a * eNext
  {
    MulRowBump(acc, off, c, q, j, x, ab);
    RPowAddOf(x, off, j, a, b, ab);
    EvalPrefix(q, j, x);
    Arith.RowStep(e0, c, a, e, q[j], b, ab, ePrev, eNew, eNext);
  }

  lemma {:induction false} MulRowEval(acc: seq<real>, off: nat, c: real, q: seq<real>, j: nat, x: real)
    requires j <= |q| && off + |q| <= |acc|
    ensures Eval(MulRow(acc, off, c, q, j), x) == Eval(acc, x) + c * RPow(x, off) * Eval(q[..j], x)
    decreases j
  {
    if j == 0 {
      var e := Eval(q[..0], x);
      assert e == 0.0;
      Arith.MulZero(c * RPow(x, off), e);
    } else {
      MulRowEval(acc, off, c, q, j - 1, x);
      assert Eval(MulRow(acc, off, c, q, j - 1), x) == Eval(acc, x) + c * RPow(x, off) * Eval(q[..j - 1], x);
      MulRowEvalStep(acc, off, c, q, j - 1, x, Eval(acc, x), Eval(MulRow(acc, off, c, q, j - 1), x),
                     Eval(MulRow(acc, off, c, q, j), x), Eval(q[..j - 1], x), Eval(q[..j], x),
                     RPow(x, off), RPow(x, j - 1), RPow(x, off + (j - 1)));
    }
  }

  /** The outer-loop invariant of `mul` survives one row; the values are passed by name. */
  lemma MulRowsEvalStep(p: seq<real>, q: seq<real>, i: nat, x: real,
                        e: real, eNext: real, a: real, b: real, ePrev: real, eNew: real)
    requires i < |p|
    requires e == Eval(p[..i], x) && eNext == Eval(p[..i + 1], x)
    requires a == RPow(x, i) && b == Eval(q, x)
    requires ePrev == Eval(MulRows(p, q, i), x) && eNew == Eval(MulRows(p, q, i + 1), x)
    requires ePrev == e * b
    ensures eNew == eNext * b
  {
    assert eNew == ePrev + p[i] * a * b by {
      MulRowsUnfold(p, q, i);
      MulRowEval(MulRows(p, q, i), i, p[i], q, |q|, x);
      assert q[..|q|] == q;
    }
    assert eNext == e + p[i] * a by { EvalPrefix(p, i, x); }
    Arith.RowsStep(e, p[i], a, b, ePrev, eNew, eNext);
  }

  lemma {:induction false} MulRowsEval(p: seq<real>, q: seq<real>, i: nat, x: real)
    requires i <= |p|
    ensures Eval(MulRows(p, q, i), x) == Eval(p[..i], x) * Eval(q, x)
    decreases i
  {
    if i == 0 {
      EvalZeros(Zeros(ProductLength(p, q)), 0, x);
      var e := Eval(p[..0], x);
      assert e == 0.0;
      Arith.MulZero(Eval(q, x), e);
    } else {
      MulRowsEval(p, q, i - 1, x);
      MulRowsEvalStep(p, q, i - 1, x, Eval(p[..i - 1], x), Eval(p[..i], x), RPow(x, i - 1), Eval(q, x),
                      Eval(MulRows(p, q, i - 1), x), Eval(MulRows(p, q, i), x));
    }
  }

  lemma EvalProduct(p: seq<real>, q: seq<real>, x: real)
    ensures Eval(Product(p, q), x) == Eval(p, x) * Eval(q, x)
  {
    MulRowsEval(p, q, |p|, x);
    assert p[..|p|] == p;
  }

  /** The product's value from the operands' values. */
  lemma ProductOfValues(p: seq<real>, q: seq<real>, x: real, a: real, b: real)
    requires Eval(p, x) == a && Eval(q, x) == b
    ensures Eval(Product(p, q), x) == a * b
  {
    EvalProduct(p, q, x);
  }

  method Mul(p: seq<real>, q: seq<real>) returns (r: seq<real>)
    ensures r == Product(p, q)
    ensures |r| == ProductLength(p, q)
    ensures forall x :: Eval(r, x) == Eval(p, x) * Eval(q, x)
  {
    r := Zeros(ProductLength(p, q));
    for i := 0 to |p|
      invariant r == MulRows(p, q, i)
    {
      ghost var row := r;
      for j := 0 to |q|
        invariant |r| == |row|
        invariant r == MulRow(row, i, p[i], q, j)
      {
        MulRowUnfold(row, i, p[i], q, j);
        r := r[i + j := r[i + j] + p[i] * q[j]];
      }
      MulRowsUnfold(p, q, i);
    }
    forall x ensures Eval(r, x) == Eval(p, x) * Eval(q, x) {
      EvalProduct(p, q, x);
    }
  }

  lemma {:induction false} MulRowIdentity(q: seq<real>, j: nat)
    requires j <= |q|
    ensures MulRow(Zeros(|q|), 0, 1.0, q, j) == q[..j] + Zeros(|q| - j)
    decreases j
  {
    if j > 0 {
      MulRowIdentity(q, j - 1);
      assert q[..j] + Zeros(|q| - j) == (q[..j - 1] + Zeros(|q| - j + 1))[j - 1 := q[j - 1]];
    }
  }

  /** Multiplying by the constant 1 returns exactly the other operand. */
  lemma ProductByOne(q: seq<real>)
    ensures Product([1.0], q) == q
  {
    var one := [1.0];
    assert ProductLength(one, q) == |q|;
    assert MulRows(one, q, 0) == Zeros(|q|);
    assert Product(one, q) == MulRow(Zeros(|q|), 0, 1.0, q, |q|) by { MulRowsUnfold(one, q, 0); }
    MulRowIdentity(q, |q|);
    assert q[..|q|] + Zeros(0) == q;
  }

  // ---------------------------------------------------------------------------
  // Square

  /** Length of `sq`'s output: [0] * (2n - 1), empty for an empty list. */
  function SquareLength(n: nat): nat {
    if n == 0 then 0 else 2 * n - 1
  }

  /** The amount `sq` adds at index i + j; off-diagonal products occur twice. */
  function SqCoef(p: seq<real>, i: nat, j: nat): real
    requires i < |p| && j < |p|
  {
    p[i] * p[j] * (if i != j then 2.0 else 1.0)
  }

  /** The term p[i]*x^i of the value. */
  function Term(p: seq<real>, i: nat, x: real): real
    requires i < |p|
  {
    p[i] * RPow(x, i)
  }

  /** The inner loop of `sq` for row i after columns i..j-1. */
  function SqRow(acc: seq<real>, i: nat, p: seq<real>, j: nat): (r: seq<real>)
    requires i <= j <= |p| && |acc| == SquareLength(|p|)
    ensures |r| == |acc|
    decreases j
  {
    if j == i then acc
    else
      var prev := SqRow(acc, i, p, j - 1);
      prev[i + j - 1 := prev[i + j - 1] + SqCoef(p, i, j - 1)]
  }

  function SqRows(p: seq<real>, i: nat): (r: seq<real>)
    requires i <= |p|
    ensures |r| == SquareLength(|p|)
    decreases i, 1
  {
    if i == 0 then Zeros(SquareLength(|p|)) else SqRowsStep(p, i)
  }

  /** Row i - 1 of `sq` added to the first i - 1 rows, expanded through `SqRowsUnfold`. */
  function SqRowsStep(p: seq<real>, i: nat): (r: seq<real>)
    requires 0 < i <= |p|
    ensures |r| == SquareLength(|p|)
    decreases i, 0
  {
    SqRow(SqRows(p, i - 1), i - 1, p, |p|)
  }

  lemma SqRowsUnfold(p: seq<real>, i: nat)
    requires i < |p|
    ensures SqRows(p, i + 1) == SqRow(SqRows(p, i), i, p, |p|)
  {
    assert SqRows(p, i + 1) == SqRowsStep(p, i + 1);
  }

  /** `sq`. */
  function Square(p: seq<real>): (r: seq<real>)
    ensures |r| == SquareLength(|p|)
  {
    SqRows(p, |p|)
  }

  lemma SqRowUnfold(acc: seq<real>, i: nat, p: seq<real>, j: nat)
    requires i <= j < |p| && |acc| == SquareLength(|p|)
    ensures var prev := SqRow(acc, i, p, j);
            SqRow(acc, i, p, j + 1) == prev[i + j := prev[i + j] + SqCoef(p, i, j)]
  {
  }

  lemma SqRowBump(acc: seq<real>, i: nat, p: seq<real>, j: nat, x: real, d: real, rk: real)
    requires i <= j < |p| && |acc| == SquareLength(|p|)
    requires d == SqCoef(p, i, j) && rk == RPow(x, i + j)
    ensures Eval(SqRow(acc, i, p, j + 1), x) == Eval(SqRow(acc, i, p, j), x) + d * rk
  {
    var prev := SqRow(acc, i, p, j);
    var k: nat := i + j;
    assert SqRow(acc, i, p, j + 1) == prev[k := prev[k] + d] by { SqRowUnfold(acc, i, p, j); }
    EvalBump(prev, k, d, x, rk);
  }

  /** One step of the inner loop of `sq` adds the product of terms i and j, doubled off the diagonal. */
  lemma SqRowTerm(acc: seq<real>, i: nat, p: seq<real>, j: nat, x: real,
                  ePrev: real, eNew: real, a: real, b: real)
    requires i <= j < |p| && |acc| == SquareLength(|p|)
    requires ePrev == Eval(SqRow(acc, i, p, j), x) && eNew == Eval(SqRow(acc, i, p, j + 1), x)
    requires a == Term(p, i, x) && b == Term(p, j, x)
    ensures eNew == ePrev + a * b * (if i != j then 2.0 else 1.0)
  {
    var rk, d := RPow(x, i + j), SqCoef(p, i, j);
    var ri, rj := RPow(x, i), RPow(x, j);
    SqRowBump(acc, i, p, j, x, d, rk);
    RPowAddOf(x, i, j, ri, rj, rk);
    Arith.SqTerm(p[i], p[j], if i != j then 2.0 else 1.0, d, ri, rj, rk, a, b, ePrev, eNew);
  }

  /** The diagonal step that opens row i. */
  lemma SqRowEvalFirst(acc: seq<real>, i: nat, p: seq<real>, x: real,
                       eAcc: real, eNew: real, ai: real, aj: real, a: real)
    requires i < |p| && |acc| == SquareLength(|p|)
    requires eAcc == Eval(acc, x) && eNew == Eval(SqRow(acc, i, p, i + 1), x)
    requires ai == Eval(p[..i], x) && aj == Eval(p[..i + 1], x) && a == Term(p, i, x)
    ensures eNew == eAcc + a * (2.0 * (aj - ai) - a)
  {
    assert SqRow(acc, i, p, i) == acc;
    SqRowTerm(acc, i, p, i, x, eAcc, eNew, a, a);
    EvalPrefix(p, i, x);
    Arith.SqFirst(a, eAcc, eNew, ai, aj);
  }

  /** An off-diagonal step of row i keeps the inner-loop invariant of `sq`. */
  lemma SqRowEvalNext(acc: seq<real>, i: nat, p: seq<real>, j: nat, x: real,
                      eAcc: real, ePrev: real, eNew: real, ai: real, aPrev: real, aj: real,
                      a: real, b: real)
    requires i < j < |p| && |acc| == SquareLength(|p|)
    requires ePrev == Eval(SqRow(acc, i, p, j), x) && eNew == Eval(SqRow(acc, i, p, j + 1), x)
    requires aPrev == Eval(p[..j], x) && aj == Eval(p[..j + 1], x)
    requires a == Term(p, i, x) && b == Term(p, j, x)
    requires ePrev == eAcc + a * (2.0 * (aPrev - ai) - a)
    ensures eNew == eAcc + a * (2.0 * (aj - ai) - a)
  {
    SqRowTerm(acc, i, p, j, x, ePrev, eNew, a, b);
    EvalPrefix(p, j, x);
    Arith.SqNext(a, aPrev - ai, b, eAcc, ePrev, eNew, aj - ai);
  }

  lemma {:induction false} SqRowEval(acc: seq<real>, i: nat, p: seq<real>, j: nat, x: real)
    requires i < j <= |p| && |acc| == SquareLength(|p|)
    ensures Eval(SqRow(acc, i, p, j), x)
              == Eval(acc, x) + Term(p, i, x) * (2.0 * (Eval(p[..j], x) - Eval(p[..i], x)) - Term(p, i, x))
    decreases j
  {
    if j == i + 1 {
      SqRowEvalFirst(acc, i, p, x, Eval(acc, x), Eval(SqRow(acc, i, p, j), x),
                     Eval(p[..i], x), Eval(p[..j], x), Term(p, i, x));
    } else {
      SqRowEval(acc, i, p, j - 1, x);
      SqRowEvalNext(acc, i, p, j - 1, x, Eval(acc, x), Eval(SqRow(acc, i, p, j - 1), x),
                    Eval(SqRow(acc, i, p, j), x), Eval(p[..i], x), Eval(p[..j - 1], x), Eval(p[..j], x),
                    Term(p, i, x), Term(p, j - 1, x));
    }
  }

  /** The outer-loop invariant of `sq` survives one row; the values are passed by name. */
  lemma SqRowsEvalStep(p: seq<real>, i: nat, x: real,
                       s: real, t: real, tNext: real, a: real, ePrev: real, eNew: real)
    requires i < |p|
    requires s == Eval(p, x) && t == Eval(p[..i], x) && tNext == Eval(p[..i + 1], x)
    requires a == Term(p, i, x)
    requires ePrev == Eval(SqRows(p, i), x) && eNew == Eval(SqRows(p, i + 1), x)
    requires ePrev == 2.0 * s * t - t * t
    ensures eNew == 2.0 * s * tNext - tNext * tNext
  {
    assert eNew == ePrev + a * (2.0 * (s - t) - a) by {
      SqRowsUnfold(p, i);
      SqRowEval(SqRows(p, i), i, p, |p|, x);
      assert p[..|p|] == p;
    }
    assert tNext == t + a by { EvalPrefix(p, i, x); }
    Arith.SqRowsStep(s, t, a, ePrev, eNew, tNext);
  }

  lemma {:induction false} SqRowsEval(p: seq<real>, i: nat, x: real)
    requires i <= |p|
    ensures Eval(SqRows(p, i), x) == 2.0 * Eval(p, x) * Eval(p[..i], x) - Eval(p[..i], x) * Eval(p[..i], x)
    decreases i
  {
    if i == 0 {
      EvalZeros(Zeros(SquareLength(|p|)), 0, x);
      var t := Eval(p[..0], x);
      assert t == 0.0;
      Arith.SqZero(Eval(p, x), t);
    } else {
      SqRowsEval(p, i - 1, x);
      SqRowsEvalStep(p, i - 1, x, Eval(p, x), Eval(p[..i - 1], x), Eval(p[..i], x),
                     Term(p, i - 1, x), Eval(SqRows(p, i - 1), x), Eval(SqRows(p, i), x));
    }
  }

  lemma EvalSquare(p: seq<real>, x: real)
    ensures Eval(Square(p), x) == Eval(p, x) * Eval(p, x)
  {
    SqRowsEval(p, |p|, x);
    assert p[..|p|] == p;
    Arith.SquareOfSum(Eval(p, x), Eval(Square(p), x));
  }

  method Sq(p: seq<real>) returns (r: seq<real>)
    ensures r == Square(p)
    ensures |r| == SquareLength(|p|)
    ensures forall x :: Eval(r, x) == Eval(p, x) * Eval(p, x)
  {
    var n := |p|;
    r := Zeros(SquareLength(n));
    for i := 0 to n
      invariant r == SqRows(p, i)
    {
      ghost var row := r;
      for j := i to n
        invariant |r| == |row|
        invariant r == SqRow(row, i, p, j)
      {
        SqRowUnfold(row, i, p, j);
        r := r[i + j := r[i + j] + p[i] * p[j] * (if i != j then 2.0 else 1.0)];
      }
      SqRowsUnfold(p, i);
    }
    forall x ensures Eval(r, x) == Eval(p, x) * Eval(p, x) {
      EvalSquare(p, x);
    }
  }

  // ---------------------------------------------------------------------------
  // Derivative and antiderivative

  /** `differentiate`: coefficient i of the result is (i+1)*p[i+1]; a constant becomes [0].
      An empty list has no derivative (`differentiate` fails allocating a negative length). */
  function Derivative(p: seq<real>): (r: seq<real>)
    requires |p| > 0
    ensures |r| == if |p| == 1 then 1 else |p| - 1
  {
    if |p| == 1 then [0.0]
    else seq(|p| - 1, i requires 0 <= i < |p| - 1 => p[i + 1] * (i + 1) as real)
  }

  method Differentiate(p: seq<real>) returns (r: seq<real>)
    requires |p| > 0
    ensures r == Derivative(p)
  {
    var order := |p| - 1;
    if order == 0 {
      return [0.0];
    }
    r := Zeros(order);
    for i := 0 to order
      invariant |r| == order
      invariant forall k :: 0 <= k < i ==> r[k] == p[k + 1] * (k + 1) as real
      invariant forall k :: i <= k < order ==> r[k] == 0.0
    {
      r := r[i := p[i + 1] * (i + 1) as real];
    }
    assert forall k :: 0 <= k < order ==> r[k] == Derivative(p)[k];
  }

  /** `integrate`: the antiderivative with constant term 0; coefficient i+1 is p[i]/(i+1). */
  function Antiderivative(p: seq<real>): (r: seq<real>)
    ensures |r| == |p| + 1
  {
    [0.0] + seq(|p|, i requires 0 <= i < |p| => p[i] / (i + 1) as real)
  }

  method Integrate(p: seq<real>) returns (r: seq<real>)
    ensures r == Antiderivative(p)
  {
    r := Zeros(|p| + 1);
    for i := 0 to |p|
      invariant |r| == |p| + 1 && r[0] == 0.0
      invariant forall k :: 0 <= k < i ==> r[k + 1] == p[k] / (k + 1) as real
      invariant forall k :: i < k <= |p| ==> r[k] == 0.0
    {
      r := r[i + 1 := p[i] / (i + 1) as real];
    }
  }

  /** Differentiating the antiderivative gives the list back (an empty list comes back as [0]). */
  lemma DerivativeOfAntiderivative(p: seq<real>)
    ensures Derivative(Antiderivative(p)) == if |p| == 0 then [0.0] else p
  {
    var a := Antiderivative(p);
    if |p| > 0 {
      forall k | 0 <= k < |p|
        ensures Derivative(a)[k] == p[k]
      {
        assert a[k + 1] == p[k] / (k + 1) as real;
        Arith.DivMul(p[k], (k + 1) as real);
      }
    }
  }

  /** The antiderivative is the one that vanishes at 0. */
  lemma AntiderivativeAtZero(p: seq<real>)
    ensures Eval(Antiderivative(p), 0.0) == 0.0
  {
    var a := Antiderivative(p);
    EvalFromStep(a, 0, 0.0);
    Arith.MulZero(EvalFrom(a, 1, 0.0), 0.0);
  }

  /** Differentiating a constant gives the zero polynomial. */
  lemma DerivativeOfConstant(c: real)
    ensures Derivative(Constant(c)) == [0.0]
  {
  }
}
