/** Shared vocabulary: optional values, results with the failure kinds of the program,
    the extended reals used for unbounded spline pieces, small real helpers, and
    the radicals (square and cube root) that the program takes from Python's math library. */
module Base {

  import Arith

  datatype Option<T> = None | Some(value: T)

  /** The ways the modelled code can stop instead of returning a value. */
  datatype Error =
    | Unimplemented   // root finding on a polynomial of degree 3 or more
    | ParseError      // a G-code word that does not start with an upper-case letter
    | ValueError      // a G-code word whose number does not parse; numpy refusing an empty piece
    | NoConvergence   // the bounded recursion ran out of fuel
    | ZeroDivision    // Python's ZeroDivisionError: a float divided by, or 0.0 raised to a negative power
    | AssertionFailed // an `assert` of the modelled code failing (AssertionError)

  datatype Result<T> = Success(value: T) | Failure(error: Error) {
    predicate IsFailure() { Failure? }
    function PropagateFailure<U>(): Result<U> requires Failure? { Failure(error) }
    function Extract(): T requires Success? { value }
  }

  /** A real extended with the two infinities (Python's `-inf` / `+inf`). */
  datatype Ext = NegInf | Fin(r: real) | PosInf

  /** `lo < x` for an extended lower bound. */
  predicate Below(lo: Ext, x: real) {
    lo.NegInf? || (lo.Fin? && lo.r < x)
  }

  /** `x < hi` for an extended upper bound. */
  predicate Above(hi: Ext, x: real) {
    hi.PosInf? || (hi.Fin? && x < hi.r)
  }

  /** Strictly increasing: no repeats, smallest first. */
  predicate Increasing(s: seq<real>) {
    forall i, j :: 0 <= i < j < |s| ==> s[i] < s[j]
  }

  /** Non-decreasing. */
  predicate Sorted(s: seq<real>) {
    forall i, j :: 0 <= i < j < |s| ==> s[i] <= s[j]
  }

  /** u with a put in its place, unless it is already there. */
  function InsertSorted(u: seq<real>, a: real): (r: seq<real>)
    requires Increasing(u)
    ensures Increasing(r) && forall x :: x in r <==> x in u || x == a
  {
    if |u| == 0 then [a]
    else if a < u[0] then [a] + u
    else if a == u[0] then u
    else
      var rest := InsertSorted(u[1..], a);
      assert forall i :: 0 <= i < |rest| ==> u[0] < rest[i] by {
        forall i | 0 <= i < |rest| ensures u[0] < rest[i] {
          assert rest[i] in rest;
        }
      }
      assert u == [u[0]] + u[1..];
      [u[0]] + rest
  }

  /** `sorted(set(xs))`: the distinct values of xs, smallest first. */
  function SortedSet(xs: seq<real>): (r: seq<real>)
    ensures Increasing(r) && forall x :: x in r <==> x in xs
  {
    if |xs| == 0 then []
    else
      var n := |xs| - 1;
      assert xs == xs[..n] + [xs[n]];
      InsertSorted(SortedSet(xs[..n]), xs[n])
  }

  function Abs(x: real): (r: real)
    ensures r >= 0.0 && (r == x || r == -x)
  {
    if x < 0.0 then -x else x
  }

  function Min(a: real, b: real): (r: real)
    ensures r <= a && r <= b && (r == a || r == b)
  {
    if b < a then b else a
  }

  function Max(a: real, b: real): (r: real)
    ensures r >= a && r >= b && (r == a || r == b)
  {
    if b > a then b else a
  }

  /** `x ** n` for a natural exponent. */
  function RPow(x: real, n: nat): real
    decreases n, 1
  {
    if n == 0 then 1.0 else PowStep(x, n)
  }

  /** `x * x ** (n - 1)`, kept as a separate call so that the product is only
      exposed to the solver where a proof asks for it through `RPowStep`. */
  function PowStep(x: real, n: nat): real
    requires n > 0
    decreases n, 0
  {
    x * RPow(x, n - 1)
  }

  lemma RPowStep(x: real, n: nat)
    requires n > 0
    ensures RPow(x, n) == x * RPow(x, n - 1)
  {
    assert PowStep(x, n) == x * RPow(x, n - 1);
  }

  lemma {:induction false} RPowAdd(x: real, a: nat, b: nat)
    ensures RPow(x, a + b) == RPow(x, a) * RPow(x, b)
  {
    if a == 0 {
      Arith.OneTimes(RPow(x, a), RPow(x, b), RPow(x, a + b));
    } else {
      RPowAdd(x, a - 1, b);
      RPowStep(x, a);
      RPowStep(x, a + b);
      Arith.Regroup(x, RPow(x, a - 1), RPow(x, b), RPow(x, a - 1 + b), RPow(x, a + b), RPow(x, a));
    }
  }

  /** `RPowAdd` for powers given by their values. */
  lemma RPowAddOf(x: real, a: nat, b: nat, ra: real, rb: real, rab: real)
    requires ra == RPow(x, a) && rb == RPow(x, b) && rab == RPow(x, a + b)
    ensures rab == ra * rb
  {
    RPowAdd(x, a, b);
  }

  lemma {:induction false} RPowNonZero(x: real, n: nat)
    requires x != 0.0
    ensures RPow(x, n) != 0.0
  {
    if n > 0 {
      RPowNonZero(x, n - 1);
      RPowStep(x, n);
    }
  }

  /** The radicals the host language supplies (`math.sqrt`, `x ** 0.5`, `x ** (1/3)`).
      Their rounding is not modelled: a lawful instance returns the exact root. */
  datatype RealOps = RealOps(sqrt: real -> real, cbrt: real -> real) {
    ghost predicate Lawful() {
      (forall x :: 0.0 <= x ==> 0.0 <= sqrt(x) && sqrt(x) * sqrt(x) == x) &&
      (forall x :: 0.0 <= x ==> 0.0 <= cbrt(x) && cbrt(x) * cbrt(x) * cbrt(x) == x)
    }
  }
}
