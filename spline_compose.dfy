/** `composite(f, g)` of spline.py: the curve f(g(x)). Each piece j of g is cut wherever
    it crosses a knot of f (the roots of g's piece minus that knot, inside the piece's
    range); every resulting interval gets f's piece at g's value in its middle, composed
    with g's piece j. */
module SplineCompose {
  import opened Base
  import Arith
  import opened Polynomials
  import opened PolyPower
  import opened PolyRoots
  import opened Splines

  // ---------------------------------------------------------------------------
  // The crossing points of one piece of g

  /** The roots found for each level in ks, concatenated in the order of the levels; the
      first level whose roots cannot be found stops the search. */
  function Gather(cross: real -> Result<seq<real>>, ks: seq<real>): Result<seq<real>>
  {
    if |ks| == 0 then Success([])
    else
      var prev :- Gather(cross, ks[..|ks| - 1]);
      var rs :- cross(ks[|ks| - 1]);
      Success(prev + rs)
  }

  /** Everything gathered was found for one of the levels. */
  lemma {:induction false} GatherSound(cross: real -> Result<seq<real>>, ks: seq<real>, x: real)
    requires Gather(cross, ks).Success? && x in Gather(cross, ks).value
    ensures exists i :: 0 <= i < |ks| && cross(ks[i]).Success? && x in cross(ks[i]).value
  {
    var n := |ks| - 1;
    var prev := Gather(cross, ks[..n]).value;
    if x in prev {
      GatherSound(cross, ks[..n], x);
      var i :| 0 <= i < n && cross(ks[..n][i]).Success? && x in cross(ks[..n][i]).value;
      assert ks[..n][i] == ks[i];
    } else {
      assert cross(ks[n]).Success? && x in cross(ks[n]).value;
    }
  }

  /** When gathering succeeds, every level succeeds and all its roots are gathered. */
  lemma {:induction false} GatherComplete(cross: real -> Result<seq<real>>, ks: seq<real>, i: nat)
    requires Gather(cross, ks).Success? && i < |ks|
    ensures cross(ks[i]).Success?
    ensures forall x :: x in cross(ks[i]).value ==> x in Gather(cross, ks).value
  {
    var n := |ks| - 1;
    if i < n {
      assert ks[..n][i] == ks[i];
      GatherComplete(cross, ks[..n], i);
    }
  }

  /** Where piece j of g crosses the level k, strictly inside the piece's range. */
  function Crossing(ops: RealOps, g: Spline, j: nat, k: real): Result<seq<real>>
    requires g.Valid() && j < |g.polys|
  {
    var b := PieceRange(g.knots, j);
    Roots(ops, Sum(g.polys[j], Constant(-k)), b.0, b.1)
  }

  /** `Crossing` for piece j, as a function of the level. */
  function CrossingOf(ops: RealOps, g: Spline, j: nat): real -> Result<seq<real>>
    requires g.Valid() && j < |g.polys|
  {
    k => Crossing(ops, g, j, k)
  }

  /** `additional_knots` of piece j before its upper end is appended: the crossings with
      every knot of f, sorted, without repeats. */
  function Crossings(ops: RealOps, f: Spline, g: Spline, j: nat): Result<seq<real>>
    requires g.Valid() && j < |g.polys|
  {
    var cs :- Gather(CrossingOf(ops, g, j), f.knots);
    Success(SortedSet(cs))
  }

  /** Piece j of g less the level k, trimmed as `find_roots` trims it; its roots are the
      points where the piece takes the value k (up to the coefficients trimming drops). */
  function Level(g: Spline, j: nat, k: real): seq<real>
    requires g.Valid() && j < |g.polys|
  {
    Trimmed(Sum(g.polys[j], Constant(-k)))
  }

  /** Piece j of g crosses the knots of f at x: x is strictly inside the piece's range and
      a root of the piece less one of f's knots. */
  predicate CrossesAt(f: Spline, g: Spline, j: nat, x: real)
    requires g.Valid() && j < |g.polys|
  {
    InRange(PieceRange(g.knots, j).0, PieceRange(g.knots, j).1, x) &&
    exists i :: 0 <= i < |f.knots| && Eval(Level(g, j, f.knots[i]), x) == 0.0
  }

  /** The level k is one the root finder can resolve on piece j: piece j minus k is not
      the zero polynomial after trimming (otherwise the piece sits on the level and no
      crossing is reported). */
  predicate Visible(g: Spline, j: nat, k: real)
    requires g.Valid() && j < |g.polys|
  {
    Level(g, j, k) != [0.0]
  }

  /** The crossings of piece j increase, and each is a crossing. */
  lemma CrossingsSound(ops: RealOps, f: Spline, g: Spline, j: nat, x: real)
    requires ops.Lawful() && g.Valid() && j < |g.polys|
    requires Crossings(ops, f, g, j).Success?
    ensures Increasing(Crossings(ops, f, g, j).value)
    ensures x in Crossings(ops, f, g, j).value ==> CrossesAt(f, g, j, x)
  {
    var cross := CrossingOf(ops, g, j);
    var b := PieceRange(g.knots, j);
    if x in Crossings(ops, f, g, j).value {
      GatherSound(cross, f.knots, x);
      var i :| 0 <= i < |f.knots| && cross(f.knots[i]).Success? && x in cross(f.knots[i]).value;
      RootsSpec(ops, Sum(g.polys[j], Constant(-f.knots[i])), b.0, b.1);
    }
  }

  /** Each crossing with knot i of f that the root finder can resolve is among the
      crossings of piece j. */
  lemma CrossingsComplete(ops: RealOps, f: Spline, g: Spline, j: nat, i: nat, x: real)
    requires ops.Lawful() && g.Valid() && j < |g.polys| && i < |f.knots|
    requires Crossings(ops, f, g, j).Success?
    requires Visible(g, j, f.knots[i]) && Eval(Level(g, j, f.knots[i]), x) == 0.0
    requires InRange(PieceRange(g.knots, j).0, PieceRange(g.knots, j).1, x)
    ensures x in Crossings(ops, f, g, j).value
  {
    var b := PieceRange(g.knots, j);
    GatherComplete(CrossingOf(ops, g, j), f.knots, i);
    RootsSpec(ops, Sum(g.polys[j], Constant(-f.knots[i])), b.0, b.1);
  }

  // ---------------------------------------------------------------------------
  // The two loops, for any crossings and any choice of polynomial per piece

  /** The inner loop over `additional_knots` of a piece: each right end, an infinite one
      replaced by the left end plus one, closes an interval; its polynomial is the pick at
      the middle of the interval. */
  function Emit(pick: real -> seq<real>, left: real, rights: seq<Ext>, acc: Spline): (r: Spline)
    ensures |r.knots| == |acc.knots| + |rights| && |r.polys| == |acc.polys| + |rights|
    ensures r.knots[..|acc.knots|] == acc.knots
    decreases |rights|
  {
    if |rights| == 0 then acc
    else
      var right := if rights[0].Fin? then rights[0].r else left + 1.0;
      var acc' := Spline(acc.knots + [right], acc.polys + [pick(0.5 * (left + right))]);
      var r := Emit(pick, right, rights[1..], acc');
      assert r.knots[..|acc.knots|] == r.knots[..|acc'.knots|][..|acc.knots|];
      r
  }

  /** Each finite right end becomes a knot. */
  lemma {:induction false} EmitRights(pick: real -> seq<real>, left: real, rights: seq<Ext>, acc: Spline)
    ensures var r := Emit(pick, left, rights, acc);
            forall k :: 0 <= k < |rights| && rights[k].Fin? ==> r.knots[|acc.knots| + k] == rights[k].r
    decreases |rights|
  {
    if |rights| > 0 {
      var right := if rights[0].Fin? then rights[0].r else left + 1.0;
      var acc' := Spline(acc.knots + [right], acc.polys + [pick(0.5 * (left + right))]);
      EmitRights(pick, right, rights[1..], acc');
      assert forall k :: 1 <= k < |rights| ==> rights[1..][k - 1] == rights[k];
    }
  }

  /** The right ends of a piece: its crossings, then the upper end of its range. */
  function Rights(cs: seq<real>, hi: Ext): (r: seq<Ext>)
    ensures |r| == |cs| + 1 && r[|cs|] == hi
    ensures forall k :: 0 <= k < |cs| ==> r[k] == Fin(cs[k])
  {
    seq(|cs|, k requires 0 <= k < |cs| => Fin(cs[k])) + [hi]
  }

  /** `knot_left` when a piece's inner loop starts: the last knot so far, or one less than
      the first right end. An infinite first right end (a curve without knots and without
      crossings) starts from 0 here. */
  function StartLeft(acc: Spline, rights: seq<Ext>): real
    requires |rights| > 0
  {
    if |acc.knots| > 0 then acc.knots[|acc.knots| - 1]
    else if rights[0].Fin? then rights[0].r - 1.0 else 0.0
  }

  /** Piece j's inner loop, run from the curve built so far. */
  function Next(knots: seq<real>, cuts: seq<Result<seq<real>>>, picks: seq<real -> seq<real>>,
                j: nat, acc: Spline): Spline
    requires |cuts| == |picks| == |knots| + 1 && j < |cuts| && cuts[j].Success?
  {
    var rights := Rights(cuts[j].value, PieceRange(knots, j).1);
    Emit(picks[j], StartLeft(acc, rights), rights, acc)
  }

  /** The outer loop over the pieces of g from piece j on, for g's knots, the crossings
      found in each piece (`cuts`) and the inner loop's choice of polynomial in each piece
      (`picks`). */
  function ComposeFrom(knots: seq<real>, cuts: seq<Result<seq<real>>>, picks: seq<real -> seq<real>>,
                       j: nat, acc: Spline): Result<Spline>
    requires |cuts| == |picks| == |knots| + 1 && j <= |cuts|
    decreases |cuts| - j
  {
    if j == |cuts| then Success(acc)
    else
      if cuts[j].Failure? then Failure(cuts[j].error)
      else ComposeFrom(knots, cuts, picks, j + 1, Next(knots, cuts, picks, j, acc))
  }

  /** The knots the outer loop produces from piece j on: each piece's crossings followed
      by its upper knot. */
  function KnotList(knots: seq<real>, cuts: seq<Result<seq<real>>>, j: nat): Result<seq<real>>
    requires |cuts| == |knots| + 1 && j <= |cuts|
    decreases |cuts| - j
  {
    if j == |cuts| then Success([])
    else
      var cs :- cuts[j];
      var rest :- KnotList(knots, cuts, j + 1);
      Success(cs + (if j < |knots| then [knots[j]] else []) + rest)
  }

  /** The knots the inner loop adds: the crossings, then a finite upper end. */
  lemma EmitKnots(pick: real -> seq<real>, left: real, cs: seq<real>, hi: Ext, acc: Spline)
    ensures var r := Emit(pick, left, Rights(cs, hi), acc);
            r.knots[..|acc.knots| + |cs|] == acc.knots + cs &&
            (hi.Fin? ==> r.knots == acc.knots + cs + [hi.r])
  {
    var rights := Rights(cs, hi);
    var r := Emit(pick, left, rights, acc);
    var n := |acc.knots|;
    EmitRights(pick, left, rights, acc);
    forall k | 0 <= k < |cs|
      ensures r.knots[n + k] == cs[k]
    {
      assert rights[k] == Fin(cs[k]);
    }
    assert r.knots[..n + |cs|] == acc.knots + cs;
    if hi.Fin? {
      assert r.knots[n + |cs|] == hi.r;
      assert r.knots == r.knots[..n + |cs|] + [hi.r];
    }
  }

  /** The outer loop fails exactly when some piece's crossings fail; otherwise it adds at
      least one knot per piece, one polynomial per knot, and its knots less the last (the
      stand-in for the unbounded end) are the knot list. */
  lemma {:induction false} ComposeFromKnots(knots: seq<real>, cuts: seq<Result<seq<real>>>,
                                            picks: seq<real -> seq<real>>, j: nat, acc: Spline)
    requires |cuts| == |picks| == |knots| + 1 && j <= |cuts|
    requires |acc.polys| == |acc.knots|
    ensures ComposeFrom(knots, cuts, picks, j, acc).Success? <==> KnotList(knots, cuts, j).Success?
    ensures ComposeFrom(knots, cuts, picks, j, acc).Success? ==>
              var r := ComposeFrom(knots, cuts, picks, j, acc).value;
              |r.polys| == |r.knots| && |r.knots| >= |acc.knots| + |cuts| - j &&
              (j < |cuts| ==> r.knots[..|r.knots| - 1] == acc.knots + KnotList(knots, cuts, j).value)
    decreases |cuts| - j
  {
    if j < |cuts| && cuts[j].Success? {
      var acc' := Next(knots, cuts, picks, j, acc);
      assert ComposeFrom(knots, cuts, picks, j, acc) == ComposeFrom(knots, cuts, picks, j + 1, acc');
      ComposeFromKnots(knots, cuts, picks, j + 1, acc');
      if KnotList(knots, cuts, j + 1).Success? {
        NextKnots(knots, cuts, picks, j, acc);
      }
    }
  }

  /** One piece of `ComposeFromKnots`: the knots of piece j, then those of the later
      pieces. */
  lemma NextKnots(knots: seq<real>, cuts: seq<Result<seq<real>>>, picks: seq<real -> seq<real>>,
                  j: nat, acc: Spline)
    requires |cuts| == |picks| == |knots| + 1 && j < |cuts| && cuts[j].Success?
    requires KnotList(knots, cuts, j + 1).Success?
    requires var acc' := Next(knots, cuts, picks, j, acc);
             ComposeFrom(knots, cuts, picks, j + 1, acc').Success? &&
             (j + 1 < |cuts| ==>
                var r := ComposeFrom(knots, cuts, picks, j + 1, acc').value;
                |r.knots| > 0 && r.knots[..|r.knots| - 1] == acc'.knots + KnotList(knots, cuts, j + 1).value)
    ensures var r := ComposeFrom(knots, cuts, picks, j + 1, Next(knots, cuts, picks, j, acc)).value;
            |r.knots| > 0 && r.knots[..|r.knots| - 1] == acc.knots + KnotList(knots, cuts, j).value
  {
    var cs := cuts[j].value;
    var hi := PieceRange(knots, j).1;
    var acc' := Next(knots, cuts, picks, j, acc);
    EmitKnots(picks[j], StartLeft(acc, Rights(cs, hi)), cs, hi, acc);
    var rest := KnotList(knots, cuts, j + 1).value;
    var r := ComposeFrom(knots, cuts, picks, j + 1, acc').value;
    if j + 1 < |cuts| {
      assert KnotList(knots, cuts, j).value == cs + [knots[j]] + rest;
      JoinKnots(acc.knots, cs + [knots[j]], rest, acc'.knots, r.knots[..|r.knots| - 1]);
    } else {
      assert KnotList(knots, cuts, j).value == cs;
      assert r == acc';
    }
  }

  /** Concatenation regrouped. */
  lemma JoinKnots(a: seq<real>, b: seq<real>, c: seq<real>, ab: seq<real>, abc: seq<real>)
    requires ab == a + b && abc == ab + c
    ensures abc == a + (b + c)
  {
  }

  /** Each piece's crossings, where they succeed, strictly increase and lie strictly inside
      the piece. */
  ghost predicate Inside(knots: seq<real>, cuts: seq<Result<seq<real>>>)
    requires |cuts| == |knots| + 1
  {
    forall t :: 0 <= t < |cuts| && cuts[t].Success? ==>
      Increasing(cuts[t].value) &&
      forall x :: x in cuts[t].value ==> InRange(PieceRange(knots, t).0, PieceRange(knots, t).1, x)
  }

  /** Two increasing lists, the first entirely below the second, join to an increasing
      list. */
  lemma IncreasingJoin(a: seq<real>, b: seq<real>)
    requires Increasing(a) && Increasing(b)
    requires forall x, y :: x in a && y in b ==> x < y
    ensures Increasing(a + b)
  {
    forall s, t | 0 <= s < t < |a + b|
      ensures (a + b)[s] < (a + b)[t]
    {
      if s < |a| && t >= |a| {
        assert a[s] in a && b[t - |a|] in b;
      }
    }
  }

  /** From piece j on, every piece's crossings succeed, and the knot list strictly
      increases and lies above knot j - 1. */
  lemma {:induction false} KnotListOrder(knots: seq<real>, cuts: seq<Result<seq<real>>>, j: nat)
    requires |cuts| == |knots| + 1 && j <= |cuts| && Increasing(knots) && Inside(knots, cuts)
    requires KnotList(knots, cuts, j).Success?
    ensures forall t :: j <= t < |cuts| ==> cuts[t].Success?
    ensures Increasing(KnotList(knots, cuts, j).value)
    ensures j > 0 ==> forall x :: x in KnotList(knots, cuts, j).value ==> knots[j - 1] < x
    decreases |cuts| - j
  {
    if j < |cuts| {
      KnotListOrder(knots, cuts, j + 1);
      var cs := cuts[j].value;
      var rest := KnotList(knots, cuts, j + 1).value;
      var mid := if j < |knots| then [knots[j]] else [];
      var all := cs + mid + rest;
      assert KnotList(knots, cuts, j).value == all;
      forall x | x in cs
        ensures (j > 0 ==> knots[j - 1] < x) && (j < |knots| ==> x < knots[j])
      {
        assert InRange(PieceRange(knots, j).0, PieceRange(knots, j).1, x);
      }
      IncreasingJoin(cs, mid);
      forall x, y | x in cs + mid && y in rest
        ensures x < y
      {
        assert knots[j] < y;
      }
      IncreasingJoin(cs + mid, rest);
      forall x | x in all && j > 0
        ensures knots[j - 1] < x
      {
        if x !in cs {
          assert knots[j - 1] < knots[j];
        }
      }
    }
  }

  /** From piece j on, the knot list holds exactly the later knots and the later pieces'
      crossings. */
  lemma {:induction false} KnotListMembers(knots: seq<real>, cuts: seq<Result<seq<real>>>, j: nat)
    requires |cuts| == |knots| + 1 && j <= |cuts|
    requires KnotList(knots, cuts, j).Success?
    ensures forall t :: j <= t < |knots| ==> knots[t] in KnotList(knots, cuts, j).value
    ensures forall x :: x in KnotList(knots, cuts, j).value ==>
              x in knots || exists t :: j <= t < |cuts| && cuts[t].Success? && x in cuts[t].value
    ensures forall t, x :: (j <= t < |cuts| && cuts[t].Success? && x in cuts[t].value) ==>
                           x in KnotList(knots, cuts, j).value
    decreases |cuts| - j
  {
    if j < |cuts| {
      KnotListMembers(knots, cuts, j + 1);
      var cs := cuts[j].value;
      var rest := KnotList(knots, cuts, j + 1).value;
      var mid := if j < |knots| then [knots[j]] else [];
      assert KnotList(knots, cuts, j).value == cs + mid + rest;
    }
  }

  /** The point the loop evaluates g at for its interval m: the middle between the knot
      to the left (one less than the first knot, for the first interval) and knot m. */
  function LoopProbe(ks: seq<real>, m: nat): real
    requires m < |ks|
  {
    if m == 0 then 0.5 * ((ks[0] - 1.0) + ks[0]) else 0.5 * (ks[m - 1] + ks[m])
  }

  /** Every interval closed so far carries the polynomial `chosen` gives at its loop
      probe. */
  ghost predicate PiecesMatch(chosen: real -> seq<real>, acc: Spline) {
    |acc.polys| == |acc.knots| && Increasing(acc.knots) &&
    forall m :: 0 <= m < |acc.polys| ==> acc.polys[m] == chosen(LoopProbe(acc.knots, m))
  }

  /** Closing one more interval, to the right of the last, with the polynomial `chosen`
      gives at its probe keeps `PiecesMatch`. */
  lemma MatchExtend(chosen: real -> seq<real>, acc: Spline, right: real, poly: seq<real>)
    requires PiecesMatch(chosen, acc)
    requires |acc.knots| > 0 ==> acc.knots[|acc.knots| - 1] < right
    requires poly == chosen(LoopProbe(acc.knots + [right], |acc.knots|))
    ensures PiecesMatch(chosen, Spline(acc.knots + [right], acc.polys + [poly]))
  {
    var ks := acc.knots + [right];
    var n := |acc.knots|;
    forall m | 0 <= m < n
      ensures LoopProbe(ks, m) == LoopProbe(acc.knots, m)
    {
      assert ks[m] == acc.knots[m];
      if m > 0 {
        assert ks[m - 1] == acc.knots[m - 1];
      }
    }
    forall a, b | 0 <= a < b < |ks|
      ensures ks[a] < ks[b]
    {
      if b == n && a < n - 1 {
        assert acc.knots[a] < acc.knots[n - 1];
      }
    }
  }

  /** The right ends still to come each lie beyond the previous one and no further than
      the upper end hi of the piece. */
  predicate Steps(hi: Ext, left: real, rights: seq<Ext>)
    decreases |rights|
  {
    |rights| == 0 ||
    var right := if rights[0].Fin? then rights[0].r else left + 1.0;
    left < right && (hi.PosInf? || (hi.Fin? && right <= hi.r)) && Steps(hi, right, rights[1..])
  }

  /** The middle of an interval that starts at or after lo and ends no further than hi
      lies strictly between them. */
  lemma ProbeBetween(lo: Ext, hi: Ext, left: real, right: real)
    requires lo.NegInf? || (lo.Fin? && lo.r <= left)
    requires left < right && (hi.PosInf? || (hi.Fin? && right <= hi.r))
    ensures Below(lo, 0.5 * (left + right)) && Above(hi, 0.5 * (left + right))
  {
  }

  /** Each probe of the inner loop lies in the piece (lo, hi), where the loop's pick agrees
      with `chosen`, so the inner loop keeps `PiecesMatch`. */
  lemma {:induction false} EmitPieces(pick: real -> seq<real>, chosen: real -> seq<real>, lo: Ext, hi: Ext,
                                      left: real, rights: seq<Ext>, acc: Spline)
    requires PiecesMatch(chosen, acc) && Steps(hi, left, rights)
    requires forall x :: Below(lo, x) && Above(hi, x) ==> pick(x) == chosen(x)
    requires lo.NegInf? || (lo.Fin? && lo.r <= left)
    requires if |acc.knots| > 0 then left == acc.knots[|acc.knots| - 1]
             else |rights| > 0 && (rights[0].Fin? ==> rights[0].r == left + 1.0)
    ensures PiecesMatch(chosen, Emit(pick, left, rights, acc))
    decreases |rights|
  {
    if |rights| > 0 {
      var right, acc' := EmitPiecesStep(pick, chosen, lo, hi, left, rights, acc);
      EmitPieces(pick, chosen, lo, hi, right, rights[1..], acc');
    }
  }

  /** One turn of the inner loop: the interval it closes keeps `PiecesMatch`, and the
      rest of the loop starts from its right end. */
  lemma EmitPiecesStep(pick: real -> seq<real>, chosen: real -> seq<real>, lo: Ext, hi: Ext,
                 left: real, rights: seq<Ext>, acc: Spline) returns (right: real, acc': Spline)
    requires PiecesMatch(chosen, acc) && Steps(hi, left, rights) && |rights| > 0
    requires forall x :: Below(lo, x) && Above(hi, x) ==> pick(x) == chosen(x)
    requires lo.NegInf? || (lo.Fin? && lo.r <= left)
    requires if |acc.knots| > 0 then left == acc.knots[|acc.knots| - 1]
             else rights[0].Fin? ==> rights[0].r == left + 1.0
    ensures Emit(pick, left, rights, acc) == Emit(pick, right, rights[1..], acc')
    ensures PiecesMatch(chosen, acc') && Steps(hi, right, rights[1..])
    ensures lo.NegInf? || (lo.Fin? && lo.r <= right)
    ensures |acc'.knots| > 0 && right == acc'.knots[|acc'.knots| - 1]
  {
    right := if rights[0].Fin? then rights[0].r else left + 1.0;
    var probe := 0.5 * (left + right);
    acc' := Spline(acc.knots + [right], acc.polys + [pick(probe)]);
    EmitUnfold(pick, left, rights, acc, right, acc');
    ProbeMatches(pick, chosen, lo, hi, left, right, acc);
  }

  /** The first turn of the inner loop, unrolled. */
  lemma EmitUnfold(pick: real -> seq<real>, left: real, rights: seq<Ext>, acc: Spline, right: real, acc': Spline)
    requires |rights| > 0 && right == (if rights[0].Fin? then rights[0].r else left + 1.0)
    requires acc' == Spline(acc.knots + [right], acc.polys + [pick(0.5 * (left + right))])
    ensures Emit(pick, left, rights, acc) == Emit(pick, right, rights[1..], acc')
  {
  }

  /** The interval (left, right) closed inside the piece (lo, hi) gets the polynomial
      `chosen` gives at its loop probe. */
  lemma ProbeMatches(pick: real -> seq<real>, chosen: real -> seq<real>, lo: Ext, hi: Ext,
                     left: real, right: real, acc: Spline)
    requires PiecesMatch(chosen, acc) && left < right && (hi.PosInf? || (hi.Fin? && right <= hi.r))
    requires forall x :: Below(lo, x) && Above(hi, x) ==> pick(x) == chosen(x)
    requires lo.NegInf? || (lo.Fin? && lo.r <= left)
    requires if |acc.knots| > 0 then left == acc.knots[|acc.knots| - 1] else right == left + 1.0
    ensures PiecesMatch(chosen, Spline(acc.knots + [right], acc.polys + [pick(0.5 * (left + right))]))
  {
    var probe := 0.5 * (left + right);
    ProbeBetween(lo, hi, left, right);
    assert LoopProbe(acc.knots + [right], |acc.knots|) == probe;
    MatchExtend(chosen, acc, right, pick(probe));
  }

  /** The right ends of a piece form steps: its crossings lie strictly inside its range
      and increase, and its upper end is finite or +inf. */
  lemma {:induction false} RightsSteps(hi: Ext, left: real, cs: seq<real>)
    requires !hi.NegInf? && Increasing(cs) && (hi.Fin? ==> left < hi.r)
    requires forall k :: 0 <= k < |cs| ==> left < cs[k] && Above(hi, cs[k])
    ensures Steps(hi, left, Rights(cs, hi))
    decreases |cs|
  {
    var rights := Rights(cs, hi);
    if |cs| > 0 {
      assert rights[1..] == Rights(cs[1..], hi);
      RightsSteps(hi, cs[0], cs[1..]);
    } else {
      assert rights[1..] == [];
    }
  }

  /** An unbounded last right end is placed one past the knot before it. */
  lemma {:induction false} EmitLast(pick: real -> seq<real>, left: real, rights: seq<Ext>, acc: Spline)
    requires |rights| > 0 && !rights[|rights| - 1].Fin?
    requires |acc.knots| > 0 ==> left == acc.knots[|acc.knots| - 1]
    requires |acc.knots| + |rights| >= 2
    ensures var r := Emit(pick, left, rights, acc);
            r.knots[|r.knots| - 1] == r.knots[|r.knots| - 2] + 1.0
    decreases |rights|
  {
    var right := if rights[0].Fin? then rights[0].r else left + 1.0;
    var acc' := Spline(acc.knots + [right], acc.polys + [pick(0.5 * (left + right))]);
    var r := Emit(pick, right, rights[1..], acc');
    assert Emit(pick, left, rights, acc) == r;
    if |rights| > 1 {
      EmitLast(pick, right, rights[1..], acc');
    } else {
      assert r == acc';
      assert r.knots[|r.knots| - 2] == left;
    }
  }

  /** What the outer loop's proof assumes throughout: one crossing list and one pick per
      piece, increasing knots, crossings inside their pieces, and each piece's pick
      agreeing with `chosen` inside the piece. */
  ghost predicate Setting(knots: seq<real>, cuts: seq<Result<seq<real>>>, picks: seq<real -> seq<real>>,
                          chosen: real -> seq<real>) {
    |cuts| == |picks| == |knots| + 1 && Increasing(knots) && Inside(knots, cuts) &&
    forall t, x :: 0 <= t < |picks| && InPiece(PieceRange(knots, t), x) ==> picks[t](x) == chosen(x)
  }

  /** The curve built before piece j: empty before the first piece, otherwise ending on
      knot j - 1 (on some knot, after the last piece). */
  predicate Entering(knots: seq<real>, j: nat, acc: Spline) {
    (j == 0 ==> acc.knots == []) &&
    (j > 0 ==> |acc.knots| > 0 && (j - 1 < |knots| ==> acc.knots[|acc.knots| - 1] == knots[j - 1]))
  }

  /** The last knot lies one unit past the one before it. */
  predicate EndsPastLast(r: Spline) {
    |r.knots| >= 2 ==> r.knots[|r.knots| - 1] == r.knots[|r.knots| - 2] + 1.0
  }

  /** The right ends of piece j form steps from the loop's starting point. */
  lemma PieceSteps(knots: seq<real>, cuts: seq<Result<seq<real>>>, j: nat, acc: Spline)
    requires |cuts| == |knots| + 1 && j < |cuts| && Increasing(knots) && Inside(knots, cuts)
    requires cuts[j].Success? && Entering(knots, j, acc)
    ensures var rights := Rights(cuts[j].value, PieceRange(knots, j).1);
            Steps(PieceRange(knots, j).1, StartLeft(acc, rights), rights)
  {
    var cs := cuts[j].value;
    var b := PieceRange(knots, j);
    var left := StartLeft(acc, Rights(cs, b.1));
    forall k | 0 <= k < |cs|
      ensures left < cs[k] && Above(b.1, cs[k])
    {
      assert cs[k] in cs;
      if j == 0 {
        assert cs[0] <= cs[k];
      }
    }
    if j > 0 && j < |knots| {
      assert knots[j - 1] < knots[j];
    }
    RightsSteps(b.1, left, cs);
  }

  /** Piece j's inner loop ends on the piece's upper knot, or one unit past the knot
      before for the last piece. */
  lemma PieceKnots(knots: seq<real>, cuts: seq<Result<seq<real>>>, picks: seq<real -> seq<real>>,
                   j: nat, acc: Spline)
    requires |cuts| == |picks| == |knots| + 1 && j < |cuts| && cuts[j].Success?
    requires j > 0 ==> |acc.knots| > 0
    ensures Entering(knots, j + 1, Next(knots, cuts, picks, j, acc))
    ensures j == |knots| ==> EndsPastLast(Next(knots, cuts, picks, j, acc))
  {
    var cs := cuts[j].value;
    var hi := PieceRange(knots, j).1;
    var rights := Rights(cs, hi);
    var left := StartLeft(acc, rights);
    var r := Emit(picks[j], left, rights, acc);
    assert r == Next(knots, cuts, picks, j, acc);
    EmitKnots(picks[j], left, cs, hi, acc);
    if j < |knots| {
      assert hi == Fin(knots[j]);
      assert r.knots == acc.knots + cs + [knots[j]];
    } else if |acc.knots| + |rights| >= 2 {
      EmitLast(picks[j], left, rights, acc);
    }
  }

  /** Piece j's inner loop keeps `PiecesMatch`. */
  lemma PieceStep(knots: seq<real>, cuts: seq<Result<seq<real>>>, picks: seq<real -> seq<real>>,
                  chosen: real -> seq<real>, j: nat, acc: Spline)
    requires Setting(knots, cuts, picks, chosen) && j < |cuts| && cuts[j].Success?
    requires PiecesMatch(chosen, acc) && Entering(knots, j, acc)
    ensures PiecesMatch(chosen, Next(knots, cuts, picks, j, acc))
  {
    var b := PieceRange(knots, j);
    var rights := Rights(cuts[j].value, b.1);
    PieceSteps(knots, cuts, j, acc);
    forall x | Below(b.0, x) && Above(b.1, x)
      ensures picks[j](x) == chosen(x)
    {
      assert InPiece(b, x);
    }
    EmitPieces(picks[j], chosen, b.0, b.1, StartLeft(acc, rights), rights, acc);
  }

  /** The outer loop keeps `PiecesMatch` and ends one unit past its last real knot. */
  lemma {:induction false} ComposeFromPieces(knots: seq<real>, cuts: seq<Result<seq<real>>>,
                                             picks: seq<real -> seq<real>>, chosen: real -> seq<real>,
                                             j: nat, acc: Spline)
    requires Setting(knots, cuts, picks, chosen) && j <= |cuts|
    requires PiecesMatch(chosen, acc) && Entering(knots, j, acc)
    requires ComposeFrom(knots, cuts, picks, j, acc).Success?
    ensures PiecesMatch(chosen, ComposeFrom(knots, cuts, picks, j, acc).value)
    ensures j < |cuts| ==> EndsPastLast(ComposeFrom(knots, cuts, picks, j, acc).value)
    decreases |cuts| - j
  {
    if j < |cuts| {
      var acc' := Next(knots, cuts, picks, j, acc);
      var r := ComposeFrom(knots, cuts, picks, j + 1, acc');
      assert ComposeFrom(knots, cuts, picks, j, acc) == r;
      PieceStep(knots, cuts, picks, chosen, j, acc);
      PieceKnots(knots, cuts, picks, j, acc);
      ComposeFromPieces(knots, cuts, picks, chosen, j + 1, acc');
    } else {
      assert ComposeFrom(knots, cuts, picks, j, acc) == Success(acc);
    }
  }

  // ---------------------------------------------------------------------------
  // `composite`

  /** The piece `composite` picks for the interval around the point x: f's piece at g(x),
      composed with g's piece at x. */
  function Chosen(f: Spline, g: Spline, x: real): seq<real>
    requires f.Valid() && g.Valid()
  {
    Composition(f.polys[PieceIndex(f.knots, At(g, x))], g.polys[PieceIndex(g.knots, x)])
  }

  /** The piece the inner loop of piece j emits for an interval around x: f's piece at
      g's value at x, composed with g's piece j. */
  function PickIn(f: Spline, g: Spline, j: nat): real -> seq<real>
    requires f.Valid() && g.Valid() && j < |g.polys|
  {
    x => Composition(f.polys[PieceIndex(f.knots, At(g, x))], g.polys[j])
  }

  /** Inside piece j of g, the inner loop's choice is `Chosen`. */
  lemma PickAgrees(f: Spline, g: Spline, j: nat, x: real)
    requires f.Valid() && g.Valid() && j < |g.polys| && Sorted(g.knots)
    requires InPiece(PieceRange(g.knots, j), x)
    ensures PickIn(f, g, j)(x) == Chosen(f, g, x)
  {
    PieceRangeSpec(g.knots, j, x);
  }

  /** The crossings of every piece of g with the knots of f. */
  function Cuts(ops: RealOps, f: Spline, g: Spline): (r: seq<Result<seq<real>>>)
    requires g.Valid()
    ensures |r| == |g.polys| && forall j :: 0 <= j < |r| ==> r[j] == Crossings(ops, f, g, j)
  {
    seq(|g.polys|, j requires 0 <= j < |g.polys| => Crossings(ops, f, g, j))
  }

  /** The inner loop's choice of polynomial in every piece of g. */
  function Picks(f: Spline, g: Spline): (r: seq<real -> seq<real>>)
    requires f.Valid() && g.Valid()
    ensures |r| == |g.polys| && forall j :: 0 <= j < |r| ==> r[j] == PickIn(f, g, j)
  {
    seq(|g.polys|, j requires 0 <= j < |g.polys| => PickIn(f, g, j))
  }

  /** The crossings of every piece increase and lie inside the piece. */
  lemma CutsInside(ops: RealOps, f: Spline, g: Spline)
    requires ops.Lawful() && g.Valid()
    ensures Inside(g.knots, Cuts(ops, f, g))
  {
    var cuts := Cuts(ops, f, g);
    forall t | 0 <= t < |cuts| && cuts[t].Success?
      ensures Increasing(cuts[t].value)
      ensures forall x :: x in cuts[t].value ==> InRange(PieceRange(g.knots, t).0, PieceRange(g.knots, t).1, x)
    {
      CrossingsSound(ops, f, g, t, 0.0);
      forall x | x in cuts[t].value
        ensures InRange(PieceRange(g.knots, t).0, PieceRange(g.knots, t).1, x)
      {
        CrossingsSound(ops, f, g, t, x);
      }
    }
  }

  /** `composite(f, g)`: the two loops over the pieces of g, with the crossings of each
      piece with f's knots and f's piece at g's value in each interval. It has a knot for
      each knot of g at least. When g has no knots and crosses no knot of f, the one
      interval runs from inf to inf: g's value at its middle is nan (Horner's scheme
      starts with inf * 0) and `poly_index(nan)` falls through to f's last piece. */
  function Composed(ops: RealOps, f: Spline, g: Spline): (r: Result<Spline>)
    requires f.Valid() && g.Valid()
    ensures r.Success? ==> r.value.Valid() && |r.value.knots| >= |g.knots|
  {
    var all := ComposeAll(g.knots, Cuts(ops, f, g), Picks(f, g));
    if all.Success? && Unbounded(g, all.value) then Success(AtInfinity(f, g)) else all
  }

  /** The loops found no knot at all for a g without knots. */
  predicate Unbounded(g: Spline, r: Spline) {
    |g.knots| == 0 && |r.knots| == 0
  }

  /** f's last piece composed with g's only piece, and no knots. */
  function AtInfinity(f: Spline, g: Spline): (r: Spline)
    requires f.Valid() && g.Valid()
    ensures r.Valid() && r.knots == []
  {
    Spline([], [Composition(f.polys[|f.polys| - 1], g.polys[0])])
  }

  /** Without a crossing, `composite` of a g without knots is f's last piece after g's
      only piece; it has a knot wherever g crosses a knot of f. */
  lemma ComposedUnbounded(ops: RealOps, f: Spline, g: Spline)
    requires ops.Lawful() && f.Valid() && g.Valid() && |g.knots| == 0
    ensures Cuts(ops, f, g)[0] == Success([]) ==> Composed(ops, f, g) == Success(AtInfinity(f, g))
    ensures Cuts(ops, f, g)[0].Success? && |Cuts(ops, f, g)[0].value| > 0 && Composed(ops, f, g).Success? ==>
              Composed(ops, f, g).value.knots == Cuts(ops, f, g)[0].value
  {
    var cuts := Cuts(ops, f, g);
    var all := ComposeAll(g.knots, cuts, Picks(f, g));
    if cuts[0].Success? {
      assert KnotList(g.knots, cuts, 1) == Success([]);
      assert cuts[0].value + [] + [] == cuts[0].value;
      assert KnotList(g.knots, cuts, 0) == Success(cuts[0].value);
    }
  }

  /** The knots of `composite(f, g)` strictly increase; they are g's knots and the points
      inside g's pieces where g takes the value of one of f's knots, and each such point
      the root finder can resolve is among them. */
  lemma ComposedKnots(ops: RealOps, f: Spline, g: Spline)
    requires ops.Lawful() && f.Valid() && g.Valid() && Increasing(g.knots)
    requires Composed(ops, f, g).Success?
    ensures var r := Composed(ops, f, g).value;
            Increasing(r.knots) &&
            (forall t :: 0 <= t < |g.knots| ==> g.knots[t] in r.knots) &&
            (forall x :: x in r.knots ==> x in g.knots || exists t :: 0 <= t < |g.polys| && CrossesAt(f, g, t, x))
    ensures var r := Composed(ops, f, g).value;
            forall t, i, x :: (0 <= t < |g.polys| && 0 <= i < |f.knots| && Visible(g, t, f.knots[i]) &&
                               InRange(PieceRange(g.knots, t).0, PieceRange(g.knots, t).1, x) &&
                               Eval(Level(g, t, f.knots[i]), x) == 0.0) ==> x in r.knots
  {
    var cuts := Cuts(ops, f, g);
    assert Composed(ops, f, g).value.knots == ComposeAll(g.knots, cuts, Picks(f, g)).value.knots;
    CutsInside(ops, f, g);
    KnotListOrder(g.knots, cuts, 0);
    KnotListMembers(g.knots, cuts, 0);
    var r := Composed(ops, f, g).value;
    forall x | x in r.knots && x !in g.knots
      ensures exists t :: 0 <= t < |g.polys| && CrossesAt(f, g, t, x)
    {
      var t :| 0 <= t < |cuts| && cuts[t].Success? && x in cuts[t].value;
      CrossingsSound(ops, f, g, t, x);
    }
    forall t, i, x | 0 <= t < |g.polys| && 0 <= i < |f.knots| && Visible(g, t, f.knots[i]) &&
                     InRange(PieceRange(g.knots, t).0, PieceRange(g.knots, t).1, x) &&
                     Eval(Level(g, t, f.knots[i]), x) == 0.0
      ensures x in r.knots
    {
      CrossingsComplete(ops, f, g, t, i, x);
    }
  }

  /** A point inside piece m of a curve with these knots: the middle of a bounded piece,
      half a unit beyond the end knot for the two unbounded ones. */
  function Probe(knots: seq<real>, m: nat): real
    requires 0 < |knots| && m <= |knots|
  {
    if m == 0 then knots[0] - 0.5
    else if m == |knots| then knots[m - 1] + 0.5
    else 0.5 * (knots[m - 1] + knots[m])
  }

  lemma ProbeInside(knots: seq<real>, m: nat)
    requires 0 < |knots| && m <= |knots| && Increasing(knots)
    ensures PieceIndex(knots, Probe(knots, m)) == m
  {
    var x := Probe(knots, m);
    forall t | 0 <= t < m
      ensures knots[t] <= x
    {
      assert knots[t] <= knots[m - 1];
    }
    PieceIndexIs(knots, x, m);
  }

  /** The whole outer loop from an empty curve, its last knot (a stand-in for the
      unbounded end) removed. It fails exactly when the crossings of some piece fail; its
      knots are the knot list. */
  function ComposeAll(knots: seq<real>, cuts: seq<Result<seq<real>>>, picks: seq<real -> seq<real>>): (r: Result<Spline>)
    requires |cuts| == |picks| == |knots| + 1
    ensures r.Success? <==> KnotList(knots, cuts, 0).Success?
    ensures r.Success? ==> r.value.Valid() && r.value.knots == KnotList(knots, cuts, 0).value &&
                           |r.value.knots| >= |knots|
  {
    ComposeFromKnots(knots, cuts, picks, 0, Spline([], []));
    var acc :- ComposeFrom(knots, cuts, picks, 0, Spline([], []));
    Success(Spline(acc.knots[..|acc.knots| - 1], acc.polys))
  }

  lemma ComposeAllFrom(knots: seq<real>, cuts: seq<Result<seq<real>>>, picks: seq<real -> seq<real>>, acc: Spline)
    requires |cuts| == |picks| == |knots| + 1 && |acc.knots| > 0
    requires ComposeFrom(knots, cuts, picks, 0, Spline([], [])) == Success(acc)
    ensures ComposeAll(knots, cuts, picks) == Success(Spline(acc.knots[..|acc.knots| - 1], acc.polys))
  {
  }

  /** The loop probes of a knot list ending one unit past its last real knot are the
      probes of the real knots. */
  lemma ProbesAgree(ks: seq<real>, m: nat)
    requires |ks| >= 2 && m < |ks| && ks[|ks| - 1] == ks[|ks| - 2] + 1.0
    ensures LoopProbe(ks, m) == Probe(ks[..|ks| - 1], m)
  {
  }

  /** The whole outer loop, from an empty curve, closes each interval with the polynomial
      `chosen` gives at the probe of the corresponding piece of the result. */
  lemma ComposeAllPieces(knots: seq<real>, cuts: seq<Result<seq<real>>>, picks: seq<real -> seq<real>>,
                         chosen: real -> seq<real>)
    requires Setting(knots, cuts, picks, chosen) && |knots| > 0
    requires ComposeAll(knots, cuts, picks).Success?
    ensures var r := ComposeAll(knots, cuts, picks).value;
            forall m :: 0 <= m < |r.polys| ==> r.polys[m] == chosen(Probe(r.knots, m))
  {
    var acc := ComposeFrom(knots, cuts, picks, 0, Spline([], [])).value;
    ComposeFromKnots(knots, cuts, picks, 0, Spline([], []));
    ComposeFromPieces(knots, cuts, picks, chosen, 0, Spline([], []));
    assert ComposeAll(knots, cuts, picks).value == Spline(acc.knots[..|acc.knots| - 1], acc.polys);
    MatchDropLast(chosen, acc);
  }

  /** Once the last knot, one unit past the one before it, is dropped, each loop probe is
      the probe of the same piece of the result. */
  lemma MatchDropLast(chosen: real -> seq<real>, acc: Spline)
    requires PiecesMatch(chosen, acc) && |acc.knots| >= 2 && EndsPastLast(acc)
    ensures forall m :: 0 <= m < |acc.polys| ==> acc.polys[m] == chosen(Probe(acc.knots[..|acc.knots| - 1], m))
  {
    forall m | 0 <= m < |acc.polys|
      ensures acc.polys[m] == chosen(Probe(acc.knots[..|acc.knots| - 1], m))
    {
      assert acc.polys[m] == chosen(LoopProbe(acc.knots, m));
      ProbesAgree(acc.knots, m);
    }
  }

  /** The pieces of `composite(f, g)`: piece m is f's piece at g's value at the probe of
      piece m, composed with g's piece there. */
  lemma ComposedPieces(ops: RealOps, f: Spline, g: Spline)
    requires ops.Lawful() && f.Valid() && g.Valid() && |g.knots| > 0 && Increasing(g.knots)
    requires Composed(ops, f, g).Success?
    ensures var r := Composed(ops, f, g).value;
            forall m :: 0 <= m < |r.polys| ==> r.polys[m] == Chosen(f, g, Probe(r.knots, m))
  {
    var chosen := x => Chosen(f, g, x);
    var cuts := Cuts(ops, f, g);
    var picks := Picks(f, g);
    CutsInside(ops, f, g);
    PicksAgree(f, g);
    assert Setting(g.knots, cuts, picks, chosen);
    ComposeAllPieces(g.knots, cuts, picks, chosen);
  }

  /** In every piece of g, the inner loop's choice is `Chosen`. */
  lemma PicksAgree(f: Spline, g: Spline)
    requires f.Valid() && g.Valid() && Increasing(g.knots)
    ensures forall t, x :: 0 <= t < |g.polys| && InPiece(PieceRange(g.knots, t), x) ==>
                           Picks(f, g)[t](x) == Chosen(f, g, x)
  {
    forall t, x | 0 <= t < |g.polys| && InPiece(PieceRange(g.knots, t), x)
      ensures Picks(f, g)[t](x) == Chosen(f, g, x)
    {
      PickAgrees(f, g, t, x);
    }
  }

  /** Knots shared with a finer, strictly increasing knot list: two points in the same
      fine piece are in the same coarse piece. */
  lemma CoarserPiece(coarse: seq<real>, fine: seq<real>, x: real, y: real)
    requires Increasing(fine) && forall a :: a in coarse ==> a in fine
    requires PieceIndex(fine, x) == PieceIndex(fine, y)
    ensures PieceIndex(coarse, x) == PieceIndex(coarse, y)
  {
    var m := PieceIndex(fine, x);
    forall t | 0 <= t < |coarse|
      ensures coarse[t] <= x <==> coarse[t] <= y
    {
      var c := coarse[t];
      assert c in coarse;
      var u :| 0 <= u < |fine| && fine[u] == c;
      if u >= m {
        assert fine[m] <= fine[u];
      }
    }
    PieceIndexIs(coarse, y, PieceIndex(coarse, x));
  }

  /** `composite(f, g)` at any x: g's value at x put through f's piece at g's value at a
      probe point that lies in the same piece of the result and of g as x. When g does not
      cross a knot of f inside a piece of the result, this is f(g(x)). */
  lemma ComposedAt(ops: RealOps, f: Spline, g: Spline, x: real)
    requires ops.Lawful() && f.Valid() && g.Valid() && |g.knots| > 0 && Increasing(g.knots)
    requires Composed(ops, f, g).Success?
    ensures var r := Composed(ops, f, g).value;
            var p := Probe(r.knots, PieceIndex(r.knots, x));
            PieceIndex(r.knots, p) == PieceIndex(r.knots, x) &&
            PieceIndex(g.knots, p) == PieceIndex(g.knots, x) &&
            At(r, x) == Eval(f.polys[PieceIndex(f.knots, At(g, p))], At(g, x))
  {
    var r := Composed(ops, f, g).value;
    ComposedKnots(ops, f, g);
    ComposedPieces(ops, f, g);
    var m := PieceIndex(r.knots, x);
    var p := Probe(r.knots, m);
    forall a | a in g.knots
      ensures a in r.knots
    {
      var t :| 0 <= t < |g.knots| && g.knots[t] == a;
    }
    ProbeInside(r.knots, m);
    CoarserPiece(g.knots, r.knots, x, p);
    EvalComposition(f.polys[PieceIndex(f.knots, At(g, p))], g.polys[PieceIndex(g.knots, x)], x);
  }

  // ---------------------------------------------------------------------------
  // Single steps of the loops, for the method that runs them

  /** Gathering one more level. */
  lemma GatherStep(cross: real -> Result<seq<real>>, ks: seq<real>, i: nat, cs: seq<real>)
    requires i < |ks| && Gather(cross, ks[..i]) == Success(cs)
    ensures Gather(cross, ks[..i + 1]) ==
              if cross(ks[i]).Failure? then Failure(cross(ks[i]).error) else Success(cs + cross(ks[i]).value)
  {
    assert ks[..i + 1][..i] == ks[..i];
  }

  /** The first level whose roots cannot be found ends the gathering with its failure. */
  lemma {:induction false} GatherStops(cross: real -> Result<seq<real>>, ks: seq<real>, i: nat)
    requires i < |ks| && Gather(cross, ks[..i]).Success? && cross(ks[i]).Failure?
    ensures Gather(cross, ks) == Failure(cross(ks[i]).error)
    decreases |ks|
  {
    var n := |ks| - 1;
    if i < n {
      assert ks[..n][..i] == ks[..i] && ks[..n][i] == ks[i];
      GatherStops(cross, ks[..n], i);
    } else {
      assert ks[..n] == ks[..i];
    }
  }

  /** The level k of piece j, given the piece less k and the piece's range. */
  lemma CrossingIs(ops: RealOps, g: Spline, j: nat, k: real, d: seq<real>, lo: Ext, hi: Ext)
    requires g.Valid() && j < |g.polys|
    requires d == Sum(g.polys[j], [-k]) && (lo, hi) == PieceRange(g.knots, j)
    ensures CrossingOf(ops, g, j)(k) == Roots(ops, d, lo, hi)
  {
  }

  /** One round of the outer loop. */
  lemma ComposeFromStep(knots: seq<real>, cuts: seq<Result<seq<real>>>, picks: seq<real -> seq<real>>,
                        j: nat, acc: Spline)
    requires |cuts| == |picks| == |knots| + 1 && j < |cuts|
    ensures ComposeFrom(knots, cuts, picks, j, acc) ==
              if cuts[j].Failure? then Failure(cuts[j].error)
              else ComposeFrom(knots, cuts, picks, j + 1, Next(knots, cuts, picks, j, acc))
  {
  }

  /** Piece j's inner loop, from its crossings. */
  lemma NextIs(knots: seq<real>, cuts: seq<Result<seq<real>>>, picks: seq<real -> seq<real>>,
               j: nat, acc: Spline, cs: seq<real>, r: Spline)
    requires |cuts| == |picks| == |knots| + 1 && j < |cuts| && cuts[j] == Success(cs)
    requires var rights := Rights(cs, PieceRange(knots, j).1);
             r == Emit(picks[j], StartLeft(acc, rights), rights, acc)
    ensures r == Next(knots, cuts, picks, j, acc)
  {
  }

  /** One round of the inner loop, from its k-th right end. */
  lemma EmitStep(pick: real -> seq<real>, left: real, rights: seq<Ext>, k: nat, acc: Spline, poly: seq<real>)
    requires k < |rights|
    requires poly == pick(0.5 * (left + (if rights[k].Fin? then rights[k].r else left + 1.0)))
    ensures var right := if rights[k].Fin? then rights[k].r else left + 1.0;
            Emit(pick, left, rights[k..], acc) ==
            Emit(pick, right, rights[k + 1..], Spline(acc.knots + [right], acc.polys + [poly]))
  {
    assert rights[k..][1..] == rights[k + 1..];
  }

  /** One round of the inner loop for piece j of g, with the piece of f at g's value in
      the middle of the interval composed with g's piece. */
  lemma EmitPickStep(f: Spline, g: Spline, j: nat, left: real, rights: seq<Ext>, k: nat, acc: Spline,
                     right: real, mid: real, i: nat, poly: seq<real>)
    requires f.Valid() && g.Valid() && j < |g.polys| && k < |rights|
    requires right == (if rights[k].Fin? then rights[k].r else left + 1.0) && mid == 0.5 * (left + right)
    requires i == PieceIndex(f.knots, At(g, mid)) && poly == Composition(f.polys[i], g.polys[j])
    ensures Emit(Picks(f, g)[j], left, rights[k..], acc) ==
            Emit(Picks(f, g)[j], right, rights[k + 1..], Spline(acc.knots + [right], acc.polys + [poly]))
  {
    PickAt(f, g, j, mid);
    EmitStep(Picks(f, g)[j], left, rights, k, acc, poly);
  }

  /** The pick of piece j at x. */
  lemma PickAt(f: Spline, g: Spline, j: nat, x: real)
    requires f.Valid() && g.Valid() && j < |g.polys|
    ensures Picks(f, g)[j](x) == Composition(f.polys[PieceIndex(f.knots, At(g, x))], g.polys[j])
  {
  }

  /** The piece of f that `composite(f, g)` uses at x, applied to g(x). */
  lemma ComposedPiece(ops: RealOps, f: Spline, g: Spline, x: real) returns (j: nat)
    requires ops.Lawful() && f.Valid() && g.Valid() && |g.knots| > 0 && Increasing(g.knots)
    requires Composed(ops, f, g).Success?
    ensures j <= |f.knots| && At(Composed(ops, f, g).value, x) == Eval(f.polys[j], At(g, x))
  {
    var r := Composed(ops, f, g).value;
    ComposedAt(ops, f, g, x);
    var p := Probe(r.knots, PieceIndex(r.knots, x));
    j := PieceIndex(f.knots, At(g, p));
  }

  /** A successful composition of a kinked line (slope cN left of 0, cP from 0 on) with g
      is, at every point, g through a line of one of the two slopes; where g is not zero
      and the root finder sees g's pieces exactly, the slope is the one on g's side of 0. */
  lemma KinkedComposedAt(ops: RealOps, cN: real, cP: real, g: Spline, x: real) returns (c: real)
    requires ops.Lawful() && g.Valid() && |g.knots| > 0 && Increasing(g.knots)
    requires Composed(ops, KinkedLine(cN, cP), g).Success?
    ensures (c == cN || c == cP) && At(Composed(ops, KinkedLine(cN, cP), g).value, x) == Eval([0.0, c], At(g, x))
    ensures Exact(g) && At(g, x) != 0.0 ==> c == if At(g, x) < 0.0 then cN else cP
  {
    var f := KinkedLine(cN, cP);
    var r := Composed(ops, f, g).value;
    ComposedAt(ops, f, g, x);
    var p := Probe(r.knots, PieceIndex(r.knots, x));
    var j := PieceIndex(f.knots, At(g, p));
    c := if j == 0 then cN else cP;
    if Exact(g) && At(g, x) != 0.0 {
      SameLevelPiece(ops, f, g, x);
      if At(g, x) < 0.0 {
        PieceIndexIs(f.knots, At(g, x), 0);
      } else {
        PieceIndexIs(f.knots, At(g, x), 1);
      }
    }
  }

  // ---------------------------------------------------------------------------
  // f(g(x))

  /** Every coefficient of g beyond the constant one is zero or at least the trimming
      tolerance in magnitude: the root finder sees g's pieces as they are. */
  predicate Exact(g: Spline) {
    forall j, m :: 0 <= j < |g.polys| && 1 <= m < |g.polys[j]| ==>
      g.polys[j][m] == 0.0 || Abs(g.polys[j][m]) >= Tolerance
  }

  /** For such a g, the level polynomial is g's piece less the level. */
  lemma LevelAt(g: Spline, j: nat, k: real, y: real)
    requires g.Valid() && j < |g.polys| && Exact(g)
    ensures Eval(Level(g, j, k), y) == Eval(g.polys[j], y) - k
  {
    var p := g.polys[j];
    var q := Sum(p, Constant(-k));
    forall m | |Trimmed(q)| <= m < |q|
      ensures q[m] == 0.0
    {
      assert m >= 1 && q[m] == Coef(p, m);
    }
    EvalTrimmed(q, y);
    EvalSum(p, Constant(-k), y);
  }

  /** A successful outer loop had the crossings of every piece. */
  lemma {:induction false} KnotListCuts(knots: seq<real>, cuts: seq<Result<seq<real>>>, j: nat, t: nat)
    requires |cuts| == |knots| + 1 && j <= t < |cuts| && KnotList(knots, cuts, j).Success?
    ensures cuts[t].Success?
    decreases t - j
  {
    if j < t {
      KnotListCuts(knots, cuts, j + 1, t);
    }
  }

  /** In a successful composition every level polynomial was solved: it is trimmed and of
      degree at most two. */
  lemma LevelSolved(ops: RealOps, f: Spline, g: Spline, j: nat, i: nat)
    requires ops.Lawful() && f.Valid() && g.Valid() && j < |g.polys| && i < |f.knots|
    requires Composed(ops, f, g).Success?
    ensures IsTrimmed(Level(g, j, f.knots[i])) && 0 < |Level(g, j, f.knots[i])| <= 3
  {
    var cuts := Cuts(ops, f, g);
    assert ComposeAll(g.knots, cuts, Picks(f, g)).Success?;
    KnotListCuts(g.knots, cuts, 0, j);
    GatherComplete(CrossingOf(ops, g, j), f.knots, i);
    var b := PieceRange(g.knots, j);
    RootsFail(ops, Sum(g.polys[j], Constant(-f.knots[i])), b.0, b.1);
  }

  /** No knot of an increasing list lies strictly inside piece m. */
  lemma KnotFree(knots: seq<real>, m: nat, z: real)
    requires Increasing(knots) && m <= |knots|
    requires (m > 0 ==> knots[m - 1] < z) && (m < |knots| ==> z < knots[m])
    ensures z !in knots
  {
  }

  /** Two values in different pieces have a knot between them. */
  lemma KnotBetween(knots: seq<real>, y1: real, y2: real) returns (i: nat)
    requires PieceIndex(knots, y1) != PieceIndex(knots, y2)
    ensures i < |knots| && ((y1 < knots[i] <= y2) || (y2 < knots[i] <= y1))
  {
    var a, b := PieceIndex(knots, y1), PieceIndex(knots, y2);
    i := if a < b then a else b;
  }

  /** The probe of piece m lies strictly inside it. */
  lemma ProbeStrict(knots: seq<real>, m: nat)
    requires 0 < |knots| && m <= |knots| && Increasing(knots)
    ensures m > 0 ==> knots[m - 1] < Probe(knots, m)
    ensures m < |knots| ==> Probe(knots, m) < knots[m]
  {
  }

  /** Where g's value is not a knot of f and the root finder sees g's pieces exactly, g's
      value at x lies in the same piece of f as its value at the probe `composite` used:
      otherwise g would cross a knot of f strictly inside a piece of the result. */
  lemma SameLevelPiece(ops: RealOps, f: Spline, g: Spline, x: real)
    requires ops.Lawful() && f.Valid() && g.Valid() && |g.knots| > 0 && Increasing(g.knots) && Exact(g)
    requires Composed(ops, f, g).Success? && At(g, x) !in f.knots
    ensures var r := Composed(ops, f, g).value;
            PieceIndex(f.knots, At(g, Probe(r.knots, PieceIndex(r.knots, x)))) == PieceIndex(f.knots, At(g, x))
  {
    var r := Composed(ops, f, g).value;
    ComposedAt(ops, f, g, x);
    var m := PieceIndex(r.knots, x);
    var p := Probe(r.knots, m);
    if PieceIndex(f.knots, At(g, p)) != PieceIndex(f.knots, At(g, x)) {
      // g crosses a knot of f strictly inside piece m of the result, where the composition
      // would have put a knot.
      var i := KnotBetween(f.knots, At(g, p), At(g, x));
      ComposedKnots(ops, f, g);
      var j := PieceIndex(g.knots, x);
      LevelSolved(ops, f, g, j, i);
      var z := CrossingInPiece(ops, g, f.knots[i], r.knots, x);
      assert false;
    }
  }

  /** `LevelCrossing` stated with g's values: a level k strictly passed between x and the
      probe of x's piece of a finer knot list is reached strictly inside that piece. */
  lemma CrossingInPiece(ops: RealOps, g: Spline, k: real, rk: seq<real>, x: real) returns (z: real)
    requires ops.Lawful() && g.Valid() && Exact(g) && Increasing(g.knots)
    requires 0 < |rk| && Increasing(rk) && forall t :: 0 <= t < |g.knots| ==> g.knots[t] in rk
    requires var p := Probe(rk, PieceIndex(rk, x));
             PieceIndex(rk, p) == PieceIndex(rk, x) && PieceIndex(g.knots, p) == PieceIndex(g.knots, x) &&
             k != At(g, x) && ((At(g, p) < k <= At(g, x)) || (At(g, x) < k <= At(g, p)))
    requires IsTrimmed(Level(g, PieceIndex(g.knots, x), k)) && 0 < |Level(g, PieceIndex(g.knots, x), k)| <= 3
    ensures var j := PieceIndex(g.knots, x);
            Visible(g, j, k) && InRange(PieceRange(g.knots, j).0, PieceRange(g.knots, j).1, z) &&
            Eval(Level(g, j, k), z) == 0.0 && z !in rk
  {
    var j := PieceIndex(g.knots, x);
    z := LevelCrossing(ops, g, j, k, rk, x);
  }

  /** Where g's value is not a knot of f and the root finder sees g's pieces exactly,
      `composite(f, g)` is f(g(x)). */
  lemma ComposedIs(ops: RealOps, f: Spline, g: Spline, x: real)
    requires ops.Lawful() && f.Valid() && g.Valid() && |g.knots| > 0 && Increasing(g.knots) && Exact(g)
    requires Composed(ops, f, g).Success? && At(g, x) !in f.knots
    ensures At(Composed(ops, f, g).value, x) == At(f, At(g, x))
  {
    ComposedAt(ops, f, g, x);
    SameLevelPiece(ops, f, g, x);
  }

  /** Where g, inside its piece j, is on one side of the level k at x and on the other side
      or at k at the probe of x's piece of a finer knot list, the level polynomial has a
      root strictly inside both pieces. */
  lemma LevelCrossing(ops: RealOps, g: Spline, j: nat, k: real, rk: seq<real>, x: real) returns (z: real)
    requires ops.Lawful() && g.Valid() && j < |g.polys| && Exact(g) && Increasing(g.knots)
    requires IsTrimmed(Level(g, j, k)) && 0 < |Level(g, j, k)| <= 3
    requires 0 < |rk| && Increasing(rk) && forall t :: 0 <= t < |g.knots| ==> g.knots[t] in rk
    requires var p := Probe(rk, PieceIndex(rk, x));
             PieceIndex(rk, p) == PieceIndex(rk, x) && PieceIndex(g.knots, p) == j && PieceIndex(g.knots, x) == j &&
             ((Eval(g.polys[j], p) < k < Eval(g.polys[j], x)) || (Eval(g.polys[j], x) < k <= Eval(g.polys[j], p)))
    ensures Visible(g, j, k) && InRange(PieceRange(g.knots, j).0, PieceRange(g.knots, j).1, z)
    ensures Eval(Level(g, j, k), z) == 0.0 && z !in rk
  {
    var m := PieceIndex(rk, x);
    var p := Probe(rk, m);
    var q := Level(g, j, k);
    LevelAt(g, j, k, p);
    LevelAt(g, j, k, x);
    PieceRangeSpec(g.knots, j, p);
    PieceRangeSpec(g.knots, j, x);
    ProbeStrict(rk, m);
    if Eval(g.polys[j], p) == k {
      z := p;
    } else {
      Arith.OppositeSigns(Eval(q, p), Eval(q, x));
      if p < x {
        z := SignChange(ops, q, p, x);
      } else {
        z := SignChange(ops, q, x, p);
      }
    }
    KnotFree(rk, m, z);
    if q == [0.0] {
      EvalSingleton(0.0, x);
    }
    var b := PieceRange(g.knots, j);
    if b.0.Fin? {
      assert g.knots[j - 1] in rk;
    }
  }
}
