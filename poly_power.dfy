/** Integer powers and composition of polynomials (`pow` and `composite` of polynomial.py).
    `pow` is binary exponentiation over the bits of the exponent; `composite` sums
    f[i] * g^i. Both are methods proved equal to pure functions whose values are proved. */
module PolyPower {
  import opened Base
  import Arith
  import opened Polynomials

  // ---------------------------------------------------------------------------
  // Bits of the exponent

  function Pow2(n: nat): (r: nat)
    ensures r > 0
  {
    if n == 0 then 1 else 2 * Pow2(n - 1)
  }

  /** `e >> i`. */
  function Shr(e: nat, i: nat): nat
    decreases i
  {
    if i == 0 then e else Shr(e / 2, i - 1)
  }

  /** `e & 2**i != 0`. */
  predicate Bit(e: nat, i: nat) {
    Shr(e, i) % 2 == 1
  }

  /** `floor(log2(e)) + 1` for e > 0, and 0 for e == 0: the number of binary digits of e. */
  function BitLength(e: nat): (r: nat)
    ensures e < Pow2(r)
    ensures e > 0 ==> r > 0 && Pow2(r - 1) <= e
    decreases e
  {
    if e == 0 then 0 else 1 + BitLength(e / 2)
  }

  lemma {:induction false} ShrSucc(e: nat, i: nat)
    ensures Shr(e, i + 1) == Shr(e, i) / 2
    decreases i
  {
    if i > 0 {
      ShrSucc(e / 2, i - 1);
    }
  }

  /** Shifting out all the binary digits leaves nothing. */
  lemma {:induction false} ShrBitLength(e: nat)
    ensures Shr(e, BitLength(e)) == 0
    decreases e
  {
    if e > 0 {
      ShrBitLength(e / 2);
    }
  }

  // ---------------------------------------------------------------------------
  // Power

  /** The loop of `pow` with k rounds left: multiply in the base when the low bit of the
      remaining exponent is set, then square the base. */
  function PowLoop(ret: seq<real>, base: seq<real>, rest: nat, k: nat): seq<real>
    decreases k, 1
  {
    if k == 0 then ret else PowRound(ret, base, rest, k)
  }

  /** One round of the loop and the rounds after it; a separate function so that the
      solver only expands a round where a proof asks for it through `PowLoopUnfold`. */
  function PowRound(ret: seq<real>, base: seq<real>, rest: nat, k: nat): seq<real>
    requires k > 0
    decreases k, 0
  {
    PowLoop(if rest % 2 == 1 then Product(ret, base) else ret, Square(base), rest / 2, k - 1)
  }

  /** `pow`. */
  function Power(p: seq<real>, e: nat): seq<real> {
    PowLoop([1.0], p, e, BitLength(e))
  }

  method Pow(p: seq<real>, exp: nat) returns (r: seq<real>)
    ensures r == Power(p, exp)
    ensures forall x :: Eval(r, x) == RPow(Eval(p, x), exp)
  {
    var n := BitLength(exp);
    var base := p;
    r := [1.0];
    for i := 0 to n
      invariant PowLoop(r, base, Shr(exp, i), n - i) == Power(p, exp)
    {
      ShrSucc(exp, i);
      PowLoopUnfold(r, base, Shr(exp, i), n - i);
      if Bit(exp, i) {
        r := Mul(r, base);
      }
      if i < n {
        base := Sq(base);
      }
    }
    forall x ensures Eval(r, x) == RPow(Eval(p, x), exp) {
      EvalPower(p, exp, x);
    }
  }

  /** (b*b)^m == b^(2m). */
  lemma {:induction false} RPowSquare(b: real, m: nat)
    ensures RPow(b * b, m) == RPow(b, 2 * m)
    decreases m
  {
    if m > 0 {
      RPowSquare(b, m - 1);
      RPowStep(b * b, m);
      RPowStep(b, 2 * m);
      RPowStep(b, 2 * m - 1);
      Arith.Regroup(b, b, RPow(b, 2 * m - 2), RPow(b, 2 * m - 1), RPow(b, 2 * m), b * b);
    }
  }

  /** b^e in terms of the low bit of e and (b*b)^(e/2). */
  lemma RPowHalve(b: real, e: nat)
    ensures e % 2 == 0 ==> RPow(b, e) == RPow(b * b, e / 2)
    ensures e % 2 == 1 ==> RPow(b, e) == b * RPow(b * b, e / 2)
  {
    RPowSquare(b, e / 2);
    if e % 2 == 1 {
      RPowStep(b, e);
    }
  }

  /** A round with the low bit clear keeps acc * base^rest: only the base is squared. */
  lemma PowRoundEven(e: real, b: real, sb: real, rest: nat)
    requires rest % 2 == 0 && sb == b * b
    ensures e * RPow(sb, rest / 2) == e * RPow(b, rest)
  {
    RPowHalve(b, rest);
  }

  /** A round with the low bit set moves one factor of the base into the accumulator. */
  lemma PowRoundOdd(e: real, b: real, eb: real, sb: real, rest: nat)
    requires rest % 2 == 1 && sb == b * b && eb == e * b
    ensures eb * RPow(sb, rest / 2) == e * RPow(b, rest)
  {
    RPowHalve(b, rest);
    Arith.Regroup(e, b, RPow(sb, rest / 2), b * RPow(sb, rest / 2), e * (b * RPow(sb, rest / 2)), eb);
  }

  lemma PowLoopUnfold(ret: seq<real>, base: seq<real>, rest: nat, k: nat)
    requires k > 0
    ensures rest % 2 == 1 ==> PowLoop(ret, base, rest, k) == PowLoop(Product(ret, base), Square(base), rest / 2, k - 1)
    ensures rest % 2 == 0 ==> PowLoop(ret, base, rest, k) == PowLoop(ret, Square(base), rest / 2, k - 1)
  {
    assert PowLoop(ret, base, rest, k) == PowRound(ret, base, rest, k);
  }

  lemma {:induction false} EvalPowLoop(ret: seq<real>, base: seq<real>, rest: nat, k: nat, x: real)
    requires Shr(rest, k) == 0
    ensures Eval(PowLoop(ret, base, rest, k), x) == Eval(ret, x) * RPow(Eval(base, x), rest)
    decreases k
  {
    if k == 0 {
      Arith.TimesOne(Eval(ret, x), RPow(Eval(base, x), rest));
    } else {
      PowLoopUnfold(ret, base, rest, k);
      EvalSquare(base, x);
      if rest % 2 == 1 {
        EvalPowLoop(Product(ret, base), Square(base), rest / 2, k - 1, x);
        EvalProduct(ret, base, x);
        PowRoundOdd(Eval(ret, x), Eval(base, x), Eval(Product(ret, base), x), Eval(Square(base), x), rest);
      } else {
        EvalPowLoop(ret, Square(base), rest / 2, k - 1, x);
        PowRoundEven(Eval(ret, x), Eval(base, x), Eval(Square(base), x), rest);
      }
    }
  }

  lemma EvalPower(p: seq<real>, e: nat, x: real)
    ensures Eval(Power(p, e), x) == RPow(Eval(p, x), e)
  {
    ShrBitLength(e);
    EvalPowLoop([1.0], p, e, BitLength(e), x);
    EvalSingleton(1.0, x);
  }

  /** `pow(p, 0) == [1]`. */
  lemma PowerZero(p: seq<real>)
    ensures Power(p, 0) == [1.0]
  {
  }

  /** `pow(p, 1) == p`. */
  lemma PowerOne(p: seq<real>)
    ensures Power(p, 1) == p
  {
    assert BitLength(1) == 1;
    ProductByOne(p);
  }

  // ---------------------------------------------------------------------------
  // Composition

  /** The loop of `composite` after i terms: [0] + f[0]*g^0 + ... + f[i-1]*g^(i-1). */
  function CompositeUpTo(f: seq<real>, g: seq<real>, i: nat): seq<real>
    requires i <= |f|
    decreases i, 1
  {
    if i == 0 then [0.0] else CompositeAdd(f, g, i)
  }

  /** Term i - 1 added to the first i - 1 terms, expanded through `CompositeUnfold`. */
  function CompositeAdd(f: seq<real>, g: seq<real>, i: nat): seq<real>
    requires 0 < i <= |f|
    decreases i, 0
  {
    Sum(CompositeUpTo(f, g, i - 1), Product(Constant(f[i - 1]), Power(g, i - 1)))
  }

  lemma CompositeUnfold(f: seq<real>, g: seq<real>, j: nat)
    requires j < |f|
    ensures CompositeUpTo(f, g, j + 1) == Sum(CompositeUpTo(f, g, j), Product(Constant(f[j]), Power(g, j)))
  {
    assert CompositeUpTo(f, g, j + 1) == CompositeAdd(f, g, j + 1);
  }

  /** `composite(f, g)`: the polynomial f(g(x)). */
  function Composition(f: seq<real>, g: seq<real>): seq<real> {
    CompositeUpTo(f, g, |f|)
  }

  method Composite(f: seq<real>, g: seq<real>) returns (r: seq<real>)
    ensures r == Composition(f, g)
    ensures forall x :: Eval(r, x) == Eval(f, Eval(g, x))
  {
    r := [0.0];
    for i := 0 to |f|
      invariant r == CompositeUpTo(f, g, i)
    {
      var power := Pow(g, i);
      var term := Mul(Constant(f[i]), power);
      CompositeUnfold(f, g, i);
      r := Add(r, term);
    }
    forall x ensures Eval(r, x) == Eval(f, Eval(g, x)) {
      EvalComposition(f, g, x);
    }
  }

  /** The value of the term f[i]*g^i that `composite` adds, given y = g(x) and b = y^i. */
  lemma EvalTerm(c: real, g: seq<real>, i: nat, x: real, y: real, b: real)
    requires y == Eval(g, x) && b == RPow(y, i)
    ensures Eval(Product(Constant(c), Power(g, i)), x) == c * b
  {
    EvalPower(g, i, x);
    ProductOfValues(Constant(c), Power(g, i), x, c, b);
  }

  /** One more term of `composite` adds one more term of f evaluated at g(x); prev is
      CompositeUpTo(f, g, j), given by its value. */
  lemma CompositeStep(f: seq<real>, g: seq<real>, j: nat, prev: seq<real>, x: real)
    requires j < |f|
    requires Eval(prev, x) == Eval(f[..j], Eval(g, x))
    ensures Eval(Sum(prev, Product(Constant(f[j]), Power(g, j))), x) == Eval(f[..j + 1], Eval(g, x))
  {
    var y := Eval(g, x);
    var b := RPow(y, j);
    var term := Product(Constant(f[j]), Power(g, j));
    EvalTerm(f[j], g, j, x, y, b);
    EvalSum(prev, term, x);
    EvalPrefix(f, j, y);
  }

  lemma {:induction false} EvalCompositeUpTo(f: seq<real>, g: seq<real>, i: nat, x: real)
    requires i <= |f|
    ensures Eval(CompositeUpTo(f, g, i), x) == Eval(f[..i], Eval(g, x))
    decreases i
  {
    if i == 0 {
      EvalSingleton(0.0, x);
      assert f[..0] == [];
      assert Eval([], Eval(g, x)) == 0.0;
    } else {
      var j: nat := i - 1;
      CompositeUnfold(f, g, j);
      EvalCompositeUpTo(f, g, j, x);
      CompositeStep(f, g, j, CompositeUpTo(f, g, j), x);
    }
  }

  lemma EvalComposition(f: seq<real>, g: seq<real>, x: real)
    ensures Eval(Composition(f, g), x) == Eval(f, Eval(g, x))
  {
    EvalCompositeUpTo(f, g, |f|, x);
    assert f[..|f|] == f;
  }
}
