/** The module-level functions of spline.py that take `curve` objects: `combine`,
    `composite` (its two loops run as spline.py runs them) and `harmonize_knots`, which
    refines every curve of a list in place. */
module CurveOps {
  import opened Base
  import opened Polynomials
  import PolyPower
  import PolyRoots
  import opened Splines
  import opened SplineKnots
  import opened SplineCompose
  import opened Curves

  /** `combine(spline1, spline2)`: a copy of one curve when the other has no knots,
      otherwise the two joined in the order of their knots. `combine` asserts that the
      curves do not overlap and that the joined knots are sorted. */
  method Combine(s1: Curve, s2: Curve) returns (ret: Curve)
    requires s1.Value().Valid() && s2.Value().Valid()
    requires |s1.knots| > 0 && |s2.knots| > 0 ==>
               (Last(s1.knots) <= s2.knots[0] || Last(s2.knots) <= s1.knots[0]) &&
               Sorted(s1.knots) && Sorted(s2.knots)
    ensures fresh(ret) && ret.Value() == Combined(s1.Value(), s2.Value())
  {
    if |s1.knots| == 0 {
      ret := new Curve.Copy(s2);
      return;
    } else if |s2.knots| == 0 {
      ret := new Curve.Copy(s1);
      return;
    }
    var a, b := s1, s2;
    if a.knots[|a.knots| - 1] > b.knots[0] {
      a, b := s2, s1;
    }
    ret := new Curve.Zero();
    if a.knots[|a.knots| - 1] == b.knots[0] {
      ret.knots := a.knots + b.knots[1..];
      ret.polys := a.polys[..|a.polys| - 1] + b.polys[1..];
    } else {
      ret.knots := a.knots + b.knots;
      ret.polys := a.polys + b.polys[1..];
    }
    JoinedSorted(a.Value(), b.Value());
    assert Sorted(ret.knots);
  }

  /** The crossings of piece j of g with the knots of f (`additional_knots` of
      `composite` before the piece's upper end is appended): the roots of the piece less
      each knot inside the piece's range, gathered knot by knot, then sorted without
      repeats. */
  method PieceCrossings(ops: RealOps, f: Curve, g: Curve, j: nat) returns (r: Result<seq<real>>)
    requires g.Value().Valid() && j < |g.polys|
    ensures r == Crossings(ops, f.Value(), g.Value(), j)
  {
    ghost var F, G := f.Value(), g.Value();
    ghost var cross := CrossingOf(ops, G, j);
    var lo, hi := PieceRange(g.knots, j).0, PieceRange(g.knots, j).1;
    var cs: seq<real> := [];
    for i := 0 to |f.knots|
      invariant Gather(cross, F.knots[..i]) == Success(cs)
    {
      var d := Add(g.polys[j], [-f.knots[i]]);
      var roots := PolyRoots.FindRoots(ops, d, lo, hi);
      CrossingIs(ops, G, j, F.knots[i], d, lo, hi);
      GatherStep(cross, F.knots, i, cs);
      if roots.Failure? {
        GatherStops(cross, F.knots, i);
        return Failure(roots.error);
      }
      cs := cs + roots.value;
    }
    assert F.knots[..|F.knots|] == F.knots;
    return Success(SortedSet(cs));
  }

  /** The piece of `composite` on an interval of g's piece j: f's piece at g's value in
      the middle of the interval, composed with g's piece. */
  method MiddlePiece(f: Curve, g: Curve, j: nat, mid: real) returns (i: nat, p: seq<real>)
    requires f.Value().Valid() && g.Value().Valid() && j < |g.polys|
    ensures i == PieceIndex(f.knots, At(g.Value(), mid)) && i < |f.polys|
    ensures p == PolyPower.Composition(f.polys[i], g.polys[j])
  {
    var y := g.Get(mid);
    i := f.PolyIndex(y);
    p := PolyPower.Composite(f.polys[i], g.polys[j]);
  }

  /** The inner loop of `composite` over the right ends of piece j of g, appending knots
      and pieces to those of the curve being built: each right end (an infinite one
      replaced by the left end plus one) closes an interval, whose piece is f's piece at
      g's value in the middle of the interval, composed with g's piece j. */
  method EmitPiece(f: Curve, g: Curve, j: nat, left0: real, rights: seq<Ext>,
                   knots0: seq<real>, polys0: seq<seq<real>>) returns (knots: seq<real>, polys: seq<seq<real>>)
    requires f.Value().Valid() && g.Value().Valid() && j < |g.polys|
    ensures Spline(knots, polys) == Emit(Picks(f.Value(), g.Value())[j], left0, rights, Spline(knots0, polys0))
  {
    ghost var F, G := f.Value(), g.Value();
    ghost var pick := Picks(F, G)[j];
    var left := left0;
    knots, polys := knots0, polys0;
    for k := 0 to |rights|
      invariant Emit(pick, left0, rights, Spline(knots0, polys0)) == Emit(pick, left, rights[k..], Spline(knots, polys))
    {
      var right := if rights[k].Fin? then rights[k].r else left + 1.0;
      var mid := 0.5 * (left + right);
      var i, p := MiddlePiece(f, g, j, mid);
      EmitPickStep(F, G, j, left, rights, k, Spline(knots, polys), right, mid, i, p);
      knots, polys := knots + [right], polys + [p];
      left := right;
    }
    assert rights[|rights|..] == [];
  }

  /** One round of `composite`'s outer loop: the crossings of piece j of g, then the
      inner loop over the intervals they cut the piece into, which starts from the last
      knot so far, or for the first piece from one less than the first right end. */
  method ComposePiece(ops: RealOps, ret: Curve, f: Curve, g: Curve, j: nat) returns (cs: Result<seq<real>>)
    requires f.Value().Valid() && g.Value().Valid() && j < |g.polys|
    requires ret != f && ret != g
    modifies ret
    ensures cs == Crossings(ops, f.Value(), g.Value(), j)
    ensures cs.Success? ==>
              var rights := Rights(cs.value, PieceRange(g.knots, j).1);
              ret.Value() == Emit(Picks(f.Value(), g.Value())[j], StartLeft(old(ret.Value()), rights), rights, old(ret.Value()))
  {
    cs := PieceCrossings(ops, f, g, j);
    if cs.Failure? {
      return;
    }
    var rights := Rights(cs.value, PieceRange(g.knots, j).1);
    var left := if |ret.knots| > 0 then ret.knots[|ret.knots| - 1]
                else if rights[0].Fin? then rights[0].r - 1.0 else 0.0;
    ret.knots, ret.polys := EmitPiece(f, g, j, left, rights, ret.knots, ret.polys);
  }

  /** `composite(f, g)`: for each piece of g, the points where it crosses a knot of f,
      then the intervals they cut the piece into, each given f's piece at g's value in
      its middle composed with g's piece (f's last piece for an interval from inf to inf,
      where g is nan); the last knot, which stands for the unbounded end, is dropped. Root finding fails on a piece of degree three or more after
      trimming, and then so does `composite`. */
  method Composite(ops: RealOps, f: Curve, g: Curve) returns (r: Result<Curve>)
    requires f.Value().Valid() && g.Value().Valid()
    ensures r.Failure? ==> Composed(ops, f.Value(), g.Value()) == Failure(r.error)
    ensures r.Success? ==> Composed(ops, f.Value(), g.Value()) == Success(r.value.Value()) && fresh(r.value)
  {
    ghost var F, G := f.Value(), g.Value();
    var ret, done := ComposePieces(ops, f, g);
    if done.Failure? {
      return Failure(done.error);
    }
    ghost var acc := ret.Value();
    ComposeAllFrom(G.knots, Cuts(ops, F, G), Picks(F, G), acc);
    if |g.knots| == 0 && |ret.knots| == 1 {
      // The only interval ran from inf to inf: g is nan there, and f.poly_index(nan)
      // is f's last piece.
      var p := PolyPower.Composite(f.polys[|f.polys| - 1], g.polys[0]);
      ret.polys := [p];
    }
    ret.knots := ret.knots[..|ret.knots| - 1];
    assert ret.Value() == if Unbounded(G, Spline(acc.knots[..|acc.knots| - 1], acc.polys)) then AtInfinity(F, G)
                          else Spline(acc.knots[..|acc.knots| - 1], acc.polys);
    return Success(ret);
  }

  /** The outer loop of `composite`, over the pieces of g, up to the removal of the last
      knot. */
  method ComposePieces(ops: RealOps, f: Curve, g: Curve) returns (ret: Curve, done: Result<()>)
    requires f.Value().Valid() && g.Value().Valid()
    ensures fresh(ret) && f.Value() == old(f.Value()) && g.Value() == old(g.Value())
    ensures var all := ComposeFrom(g.knots, Cuts(ops, f.Value(), g.Value()), Picks(f.Value(), g.Value()), 0, Spline([], []));
            if done.Failure? then all == Failure(done.error) else all == Success(ret.Value()) && |ret.knots| > 0
  {
    ghost var F, G := f.Value(), g.Value();
    ghost var cuts, picks := Cuts(ops, F, G), Picks(F, G);
    ret := new Curve.Zero();
    ret.polys := [];
    for j := 0 to |g.polys|
      invariant fresh(ret)
      invariant ComposeFrom(G.knots, cuts, picks, 0, Spline([], [])) == ComposeFrom(G.knots, cuts, picks, j, ret.Value())
      invariant |ret.knots| == |ret.polys| && |ret.knots| >= j
      invariant f.Value() == F && g.Value() == G
    {
      ghost var acc := ret.Value();
      ComposeFromStep(G.knots, cuts, picks, j, acc);
      var cs := ComposePiece(ops, ret, f, g, j);
      if cs.Failure? {
        return ret, Failure(cs.error);
      }
      NextIs(G.knots, cuts, picks, j, acc, cs.value, ret.Value());
    }
    return ret, Success(());
  }

  /** The values of a list of curves. */
  function Values(cs: seq<Curve>): (r: seq<Spline>)
    reads set i | 0 <= i < |cs| :: cs[i]
    ensures |r| == |cs| && forall i :: 0 <= i < |cs| ==> r[i] == cs[i].Value()
  {
    seq(|cs|, i requires 0 <= i < |cs| reads cs => cs[i].Value())
  }

  /** The test `harmonize_knots` starts with: every curve's knot list equals the next
      one's. */
  method SameKnotLists(cs: seq<Curve>) returns (same: bool)
    ensures same == SameKnots(Values(cs))
  {
    ghost var v := Values(cs);
    same := true;
    for i := 0 to if |cs| > 0 then |cs| - 1 else 0
      invariant same <==> forall k :: 0 <= k < i ==> v[k].knots == v[k + 1].knots
    {
      if cs[i].knots != cs[i + 1].knots {
        same := false;
      }
    }
  }

  /** The sorted union of the knots of all curves, collected curve by curve. */
  method UnionKnots(cs: seq<Curve>) returns (u: seq<real>)
    ensures u == SortedSet(AllKnots(Values(cs)))
  {
    ghost var v := Values(cs);
    var all: seq<real> := [];
    for i := 0 to |cs|
      invariant all == AllKnots(v[..i])
    {
      assert v[..i + 1][..i] == v[..i];
      all := all + cs[i].knots;
    }
    assert v[..|cs|] == v;
    u := SortedSet(all);
  }

  /** The last loop of `harmonize_knots`: the same knots inserted into every curve of
      the list in place. */
  method InsertAll(cs: seq<Curve>, u: seq<real>)
    requires forall i :: 0 <= i < |cs| ==> cs[i].Value().Valid()
    requires Increasing(u)
    requires forall i, j :: 0 <= i < j < |cs| ==> cs[i] != cs[j]
    modifies set i | 0 <= i < |cs| :: cs[i]
    ensures forall k :: 0 <= k < |cs| ==> cs[k].Value() == Inserted(old(cs[k].Value()), u)
  {
    for i := 0 to |cs|
      invariant forall k :: 0 <= k < i ==> cs[k].Value() == Inserted(old(cs[k].Value()), u)
      invariant forall k :: i <= k < |cs| ==> cs[k].Value() == old(cs[k].Value())
    {
      cs[i].InsertKnots(u);
    }
  }

  /** `harmonize_knots(splines)`: nothing when all knot lists are already equal; otherwise
      the sorted union of all knots is inserted into every curve in place. The curves of
      the list are distinct objects. */
  method Harmonize(cs: seq<Curve>)
    requires forall i :: 0 <= i < |cs| ==> cs[i].Value().Valid() && Increasing(cs[i].knots)
    requires forall i, j :: 0 <= i < j < |cs| ==> cs[i] != cs[j]
    modifies set i | 0 <= i < |cs| :: cs[i]
    ensures Values(cs) == Harmonized(old(Values(cs)))
  {
    ghost var v := Values(cs);
    var same := SameKnotLists(cs);
    if same {
      return;
    }
    var u := UnionKnots(cs);
    InsertAll(cs, u);
    ghost var w := Values(cs);
    forall k | 0 <= k < |cs|
      ensures w[k] == Harmonized(v)[k]
    {
      assert w[k] == Inserted(v[k], u);
    }
  }
}
