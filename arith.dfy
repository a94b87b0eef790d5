/** Ring identities over plain real variables, stated once so that the proofs about
    polynomials and profiles can cite them without the solver searching for them. */
module Arith {

  lemma ShiftIn(a: real, x: real, e: real, c: real, r: real)
    ensures a + x * (e + c * r) == a + x * e + c * (x * r)
  {
  }

  lemma Factor(p0: real, x: real, c: real, e: real)
    ensures p0 * c + x * (c * e) == c * (p0 + x * e)
  {
  }

  lemma Distrib(x: real, a: real, b: real)
    ensures x * (a + b) == x * a + x * b
  {
  }

  lemma DivMul(a: real, b: real)
    requires b != 0.0
    ensures (a / b) * b == a
  {
  }

  lemma RowStep(e0: real, c: real, a: real, e: real, qj: real, b: real, ab: real,
                ePrev: real, eNew: real, eNext: real)
    requires ab == a * b
    requires ePrev == e0 + c * a * e
    requires eNew == ePrev + c * qj * ab
    requires eNext == e + qj * b
    ensures eNew == e0 + c * a * eNext
  {
  }

  lemma RowsStep(e: real, pi: real, a: real, b: real, ePrev: real, eNew: real, eNext: real)
    requires ePrev == e * b
    requires eNew == ePrev + pi * a * b
    requires eNext == e + pi * a
    ensures eNew == eNext * b
  {
  }

  lemma SqTerm(pi: real, pj: real, f: real, d: real, ri: real, rj: real, rk: real, a: real, b: real,
               ePrev: real, eNew: real)
    requires rk == ri * rj && a == pi * ri && b == pj * rj && d == pi * pj * f
    requires eNew == ePrev + d * rk
    ensures eNew == ePrev + a * b * f
  {
  }

  lemma SqFirst(a: real, eAcc: real, eNew: real, ai: real, aj: real)
    requires eNew == eAcc + a * a * 1.0
    requires aj == ai + a
    ensures eNew == eAcc + a * (2.0 * (aj - ai) - a)
  {
  }

  lemma SqNext(a: real, d: real, b: real, eAcc: real, ePrev: real, eNew: real, dNext: real)
    requires ePrev == eAcc + a * (2.0 * d - a)
    requires eNew == ePrev + a * b * 2.0
    requires dNext == d + b
    ensures eNew == eAcc + a * (2.0 * dNext - a)
  {
  }

  lemma SqRowsStep(s: real, t: real, a: real, ePrev: real, eNew: real, tNext: real)
    requires ePrev == 2.0 * s * t - t * t
    requires eNew == ePrev + a * (2.0 * (s - t) - a)
    requires tNext == t + a
    ensures eNew == 2.0 * s * tNext - tNext * tNext
  {
  }

  lemma SquareOfSum(s: real, e: real)
    requires e == 2.0 * s * s - s * s
    ensures e == s * s
  {
  }

  lemma SumStep(a: real, b: real, x: real, ep: real, eq: real, es: real,
                eSum: real, eP: real, eQ: real)
    requires es == ep + eq
    requires eSum == a + b + x * es
    requires eP == a + x * ep && eQ == b + x * eq
    ensures eSum == eP + eQ
  {
  }

  lemma MulZero(a: real, b: real)
    requires b == 0.0
    ensures a * b == 0.0 && b * a == 0.0
  {
  }

  lemma Mul3(a: real, b: real, ab: real, c: real)
    requires ab == a * b
    ensures ab * c == a * b * c
  {
  }

  lemma SqZero(s: real, t: real)
    requires t == 0.0
    ensures 0.0 == 2.0 * s * t - t * t
  {
  }

  lemma Regroup(x: real, r: real, s: real, rs: real, lhs: real, xr: real)
    requires rs == r * s && lhs == x * rs && xr == x * r
    ensures lhs == xr * s
  {
  }

  lemma OneTimes(one: real, r: real, lhs: real)
    requires one == 1.0 && lhs == r
    ensures lhs == one * r
  {
  }

  lemma TimesOne(e: real, one: real)
    requires one == 1.0
    ensures e == e * one
  {
  }

  lemma MulCongr(a: real, a': real, b: real, b': real)
    requires a == a' && b == b'
    ensures a * b == a' * b'
  {
  }

  lemma SumLink(total: real, ePrev: real, eTerm: real, fi: real, fPrev: real, m: real)
    requires total == ePrev + eTerm && ePrev == fPrev && eTerm == m && fi == fPrev + m
    ensures total == fi
  {
  }

  lemma Dilation(pi: real, ci: real, ci1: real, c: real, y: real, e: real,
                 sNew: real, sNext: real, pNew: real)
    requires ci1 == c * ci && sNext == ci1 * e
    requires sNew == pi * ci + y * sNext && pNew == pi + (c * y) * e
    ensures sNew == ci * pNew
  {
  }

  lemma RowShift(b: real, e: real, z: real, ze: real, total: real, target: real)
    requires ze == z * e && total == b + e + ze && target == b + (z + 1.0) * e
    ensures total == target
  {
  }

  lemma Rescale(x0: real, x: real, y: real, z: real)
    requires x0 != 0.0 && y == x / x0 && z == y + 1.0
    ensures x0 * y == x && x0 * z == x + x0
  {
  }

  lemma SquareNonNeg(u: real)
    ensures u * u >= 0.0
  {
  }

  /** x solves p0 + p1 x + p2 x^2 = 0 exactly when u = 2x + b squares to the discriminant
      d = b^2 - 4c of the monic form x^2 + b x + c. */
  lemma QuadraticForm(p0: real, p1: real, p2: real, b: real, c: real, d: real, x: real, u: real)
    requires p2 != 0.0 && b * p2 == p1 && c * p2 == p0
    requires d == b * b - 4.0 * c && u == 2.0 * x + b
    ensures p0 + x * (p1 + x * p2) == 0.0 <==> u * u == d
  {
    var m := x * x + b * x + c;
    assert p0 + x * (p1 + x * p2) == p2 * m;
    assert u * u == 4.0 * m + d;
  }

  /** Either root of the monic quadratic makes u = 2x + b equal to plus or minus the
      root sd of the discriminant. */
  lemma QuadraticRootSquare(b: real, sd: real, x: real, u: real)
    requires x == (-b - sd) / 2.0 || x == (-b + sd) / 2.0
    requires u == 2.0 * x + b
    ensures u * u == sd * sd
  {
    assert u == sd || u == -sd;
  }

  /** When u = 2x + b squares to the discriminant d and sd is its non-negative root, x is
      one of the two roots. */
  lemma SquareRootsOf(b: real, d: real, sd: real, x: real, u: real)
    requires u == 2.0 * x + b && u * u == d
    requires sd >= 0.0 && sd * sd == d
    ensures x == (-b - sd) / 2.0 || x == (-b + sd) / 2.0
  {
    assert (u - sd) * (u + sd) == 0.0;
  }

  lemma LinearRoot(p0: real, p1: real, x: real)
    requires p1 != 0.0
    ensures p0 + p1 * x == 0.0 <==> x == -p0 / p1
  {
  }

  /** A positive discriminant gives two distinct roots, the smaller first. */
  lemma OrderedRoots(b: real, d: real, sd: real)
    requires d > 0.0 && sd >= 0.0 && sd * sd == d
    ensures (-b - sd) / 2.0 < (-b + sd) / 2.0
  {
    if sd == 0.0 {
      MulZero(sd, sd);
    }
  }

  /** Completing the square: 4 c2 times c0 + y c1 + y^2 c2 is a square less the
      discriminant. */
  lemma CompleteSquare(c0: real, c1: real, c2: real, y: real)
    ensures 4.0 * c2 * (c0 + y * (c1 + y * c2)) ==
            (2.0 * c2 * y + c1) * (2.0 * c2 * y + c1) - (c1 * c1 - 4.0 * c2 * c0)
  {
  }

  /** A quadratic whose discriminant has the root s is c2 (y - r1) (y - r2). */
  lemma Factored(c0: real, c1: real, c2: real, s: real, r1: real, r2: real, y: real)
    requires c2 != 0.0 && s * s == c1 * c1 - 4.0 * c2 * c0
    requires r1 == (-c1 - s) / (2.0 * c2) && r2 == (-c1 + s) / (2.0 * c2)
    ensures c0 + y * (c1 + y * c2) == c2 * ((y - r1) * (y - r2))
  {
    assert 2.0 * c2 * r1 == -c1 - s && 2.0 * c2 * r2 == -c1 + s;
    assert c2 * (r1 + r2) == -c1;
    assert (2.0 * c2 * r1) * (2.0 * c2 * r2) == 4.0 * c2 * c0;
    assert c2 * (r1 * r2) == c0;
  }

  /** Values of opposite signs have a negative product. */
  lemma OppositeSigns(u: real, v: real)
    requires (u < 0.0 && 0.0 < v) || (v < 0.0 && 0.0 < u)
    ensures u * v < 0.0
  {
  }

  /** Two products built from factors of pairwise equal signs have a positive product. */
  lemma SameSigns(c: real, u1: real, u2: real, v1: real, v2: real)
    requires c != 0.0 && u1 * v1 > 0.0 && u2 * v2 > 0.0
    ensures (c * (u1 * u2)) * (c * (v1 * v2)) > 0.0
  {
    assert (c * (u1 * u2)) * (c * (v1 * v2)) == (c * c) * ((u1 * v1) * (u2 * v2));
    assert c * c > 0.0;
  }

  /** A point outside the closed interval [a, b] is on the same side of both ends. */
  lemma OutsideSide(a: real, b: real, r: real)
    requires a < b && (r < a || b < r)
    ensures (a - r) * (b - r) > 0.0
  {
  }

  /** When c2 (y - r1) (y - r2) changes sign between a and b, one of r1, r2 lies strictly
      between them. */
  lemma RootBetween(c2: real, qa: real, qb: real, a: real, b: real, r1: real, r2: real)
    requires a < b && c2 != 0.0 && qa * qb < 0.0
    requires qa == c2 * ((a - r1) * (a - r2)) && qb == c2 * ((b - r1) * (b - r2))
    ensures a < r1 < b || a < r2 < b
  {
    if !(a < r1 < b) && !(a < r2 < b) {
      assert r1 != a && r1 != b && r2 != a && r2 != b;
      OutsideSide(a, b, r1);
      OutsideSide(a, b, r2);
      SameSigns(c2, a - r1, a - r2, b - r1, b - r2);
      assert false;
    }
  }

  /** A quadratic with a negative discriminant keeps one sign. */
  lemma NoRealRoots(c0: real, c1: real, c2: real, a: real, b: real, qa: real, qb: real)
    requires c1 * c1 - 4.0 * c2 * c0 < 0.0
    requires qa == c0 + a * (c1 + a * c2) && qb == c0 + b * (c1 + b * c2)
    ensures qa * qb > 0.0
  {
    var d := c1 * c1 - 4.0 * c2 * c0;
    CompleteSquare(c0, c1, c2, a);
    CompleteSquare(c0, c1, c2, b);
    SquareNonNeg(2.0 * c2 * a + c1);
    SquareNonNeg(2.0 * c2 * b + c1);
    AboveNegative(c2 * qa, (2.0 * c2 * a + c1) * (2.0 * c2 * a + c1), d);
    AboveNegative(c2 * qb, (2.0 * c2 * b + c1) * (2.0 * c2 * b + c1), d);
    SignOfFactor(c2, qa);
    SignOfFactor(c2, qb);
    SameSignProduct(qa, qb);
  }

  /** Four times k is a square minus a negative number, so k is positive. */
  lemma AboveNegative(k: real, sq: real, d: real)
    requires 4.0 * k == sq - d && sq >= 0.0 && d < 0.0
    ensures k > 0.0
  {
  }

  /** A positive product c q: q has the sign of c. */
  lemma SignOfFactor(c: real, q: real)
    requires c * q > 0.0
    ensures (c > 0.0 ==> q > 0.0) && (c < 0.0 ==> q < 0.0) && c != 0.0
  {
  }

  /** Two numbers of one strict sign have a positive product. */
  lemma SameSignProduct(x: real, y: real)
    requires (x > 0.0 && y > 0.0) || (x < 0.0 && y < 0.0)
    ensures x * y > 0.0
  {
  }

  /** A factored quadratic vanishes at its roots. */
  lemma FactorZero(c2: real, z: real, r1: real, r2: real)
    requires z == r1 || z == r2
    ensures c2 * ((z - r1) * (z - r2)) == 0.0
  {
  }
}
