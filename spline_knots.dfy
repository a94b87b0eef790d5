/** Knot refinement of spline.py: `insert_knots`, curve addition over differing knot
    sets, and `harmonize_knots`. A refinement keeps the represented function: every new
    piece is the old piece that was in force at its left knot. */
module SplineKnots {
  import opened Base
  import opened Polynomials
  import opened Splines

  // ---------------------------------------------------------------------------
  // Refinement

  /** r represents s on a knot set that contains s's knots: r's knots strictly increase,
      r's first piece is s's first, and each later piece of r is the piece of s that
      covers r's knot to its left. */
  predicate Refines(s: Spline, r: Spline) {
    s.Valid() && r.Valid() && Increasing(r.knots) &&
    (forall a :: a in s.knots ==> a in r.knots) &&
    r.polys[0] == s.polys[0] &&
    (forall m :: 1 <= m < |r.polys| ==> r.polys[m] == s.polys[PieceIndex(s.knots, r.knots[m - 1])])
  }

  /** Two points with no knot between them (a <= x, none in (a, x]) use the same piece. */
  lemma SamePiece(knots: seq<real>, a: real, x: real)
    requires a <= x
    requires forall j :: 0 <= j < |knots| ==> knots[j] <= a || x < knots[j]
    ensures PieceIndex(knots, a) == PieceIndex(knots, x)
  {
    var r := PieceIndex(knots, a);
    PieceIndexIs(knots, x, r);
  }

  /** A refinement evaluates like the curve it refines, at every point. */
  lemma RefinedAt(s: Spline, r: Spline, x: real)
    requires Refines(s, r)
    ensures At(r, x) == At(s, x)
  {
    var m := PieceIndex(r.knots, x);
    if m == 0 {
      if |s.knots| > 0 {
        assert s.knots[0] in s.knots;
      }
      PieceIndexIs(s.knots, x, 0);
    } else {
      var a := r.knots[m - 1];
      forall j | 0 <= j < |s.knots|
        ensures s.knots[j] <= a || x < s.knots[j]
      {
        assert s.knots[j] in s.knots;
        var t :| 0 <= t < |r.knots| && r.knots[t] == s.knots[j];
        if t >= m {
          assert x < r.knots[m] <= r.knots[t];
        } else {
          assert r.knots[t] <= r.knots[m - 1];
        }
      }
      SamePiece(s.knots, a, x);
    }
  }

  // ---------------------------------------------------------------------------
  // insert_knots

  /** The merge loop of `insert_knots` and its two tail loops, from the state where i old
      knots and j new knots have been consumed into nk / np. A new knot equal to the
      current old knot is skipped; a new knot before it repeats the last piece. */
  function Merge(k: seq<real>, p: seq<seq<real>>, n: seq<real>, i: nat, j: nat,
                 nk: seq<real>, np: seq<seq<real>>): (r: Spline)
    requires |p| == |k| + 1 && i <= |k| && j <= |n| && |np| == |nk| + 1
    ensures r.Valid()
    decreases |k| - i + |n| - j
  {
    if i < |k| && j < |n| then
      if k[i] <= n[j] then
        Merge(k, p, n, i + 1, if k[i] == n[j] then j + 1 else j, nk + [k[i]], np + [p[i + 1]])
      else
        Merge(k, p, n, i, j + 1, nk + [n[j]], np + [np[|np| - 1]])
    else if j < |n| then
      Merge(k, p, n, i, j + 1, nk + [n[j]], np + [np[|np| - 1]])
    else if i < |k| then
      Merge(k, p, n, i + 1, j, nk + [k[i]], np + [p[i + 1]])
    else
      Spline(nk, np)
  }

  /** `s.insert_knots(knots)`: s refined by the given knots. */
  function Inserted(s: Spline, knots: seq<real>): (r: Spline)
    requires s.Valid()
    ensures r.Valid()
  {
    Merge(s.knots, s.polys, knots, 0, 0, [], [s.polys[0]])
  }

  /** What holds of the loop state after i old and j new knots. */
  ghost predicate MergeInv(k: seq<real>, p: seq<seq<real>>, n: seq<real>, i: nat, j: nat,
                     nk: seq<real>, np: seq<seq<real>>) {
    |p| == |k| + 1 && i <= |k| && j <= |n| &&
    |np| == |nk| + 1 && np[0] == p[0] && Increasing(nk) &&
    (forall m :: 1 <= m < |np| ==> np[m] == p[PieceIndex(k, nk[m - 1])]) &&
    (forall a :: a in nk <==> a in k[..i] || a in n[..j]) &&
    (forall a :: a in nk ==> (i < |k| ==> a < k[i]) && (j < |n| ==> a < n[j])) &&
    np[|np| - 1] == p[i]
  }

  /** The step that takes the old knot k[i] (and skips an equal new knot). */
  lemma MergeOld(k: seq<real>, p: seq<seq<real>>, n: seq<real>, i: nat, j: nat,
                 nk: seq<real>, np: seq<seq<real>>)
    requires Increasing(k) && Increasing(n) && MergeInv(k, p, n, i, j, nk, np)
    requires i < |k| && (j < |n| ==> k[i] <= n[j])
    ensures MergeInv(k, p, n, i + 1, if j < |n| && k[i] == n[j] then j + 1 else j,
                     nk + [k[i]], np + [p[i + 1]])
  {
    var j' := if j < |n| && k[i] == n[j] then j + 1 else j;
    var nk', np' := nk + [k[i]], np + [p[i + 1]];
    PieceIndexIs(k, k[i], i + 1);
    forall t | 0 <= t < |nk|
      ensures nk[t] < k[i]
    {
      assert nk[t] in nk;
    }
    forall m | 1 <= m < |np'|
      ensures np'[m] == p[PieceIndex(k, nk'[m - 1])]
    {
      if m < |np| {
        assert np'[m] == np[m] && nk'[m - 1] == nk[m - 1];
      }
    }
    forall a
      ensures a in nk' <==> a in k[..i + 1] || a in n[..j']
    {
      assert k[..i + 1] == k[..i] + [k[i]];
      assert n[..j'] == n[..j] || n[..j'] == n[..j] + [n[j]];
    }
    forall a | a in nk'
      ensures (i + 1 < |k| ==> a < k[i + 1]) && (j' < |n| ==> a < n[j'])
    {
      if j' < |n| && j' > j {
        assert n[j] < n[j'];
      }
    }
  }

  /** The step that takes the new knot n[j], which lies before the next old knot. */
  lemma MergeNew(k: seq<real>, p: seq<seq<real>>, n: seq<real>, i: nat, j: nat,
                 nk: seq<real>, np: seq<seq<real>>)
    requires Increasing(k) && Increasing(n) && MergeInv(k, p, n, i, j, nk, np)
    requires j < |n| && (i < |k| ==> n[j] < k[i])
    ensures MergeInv(k, p, n, i, j + 1, nk + [n[j]], np + [np[|np| - 1]])
  {
    var nk', np' := nk + [n[j]], np + [np[|np| - 1]];
    forall t | 0 <= t < i
      ensures k[t] <= n[j]
    {
      assert k[t] in k[..i];
    }
    PieceIndexIs(k, n[j], i);
    forall t | 0 <= t < |nk|
      ensures nk[t] < n[j]
    {
      assert nk[t] in nk;
    }
    forall m | 1 <= m < |np'|
      ensures np'[m] == p[PieceIndex(k, nk'[m - 1])]
    {
      if m < |np| {
        assert np'[m] == np[m] && nk'[m - 1] == nk[m - 1];
      }
    }
    if |nk| == 0 && i > 0 {
      assert k[0] in k[..i];
    }
    forall a
      ensures a in nk' <==> a in k[..i] || a in n[..j + 1]
    {
      assert n[..j + 1] == n[..j] + [n[j]];
    }
    forall a | a in nk'
      ensures (i < |k| ==> a < k[i]) && (j + 1 < |n| ==> a < n[j + 1])
    {
      if j + 1 < |n| {
        assert n[j] < n[j + 1];
      }
    }
  }

  /** Run to the end, the loop yields a refinement whose knots are exactly both lists'. */
  lemma {:induction false} MergeSpec(k: seq<real>, p: seq<seq<real>>, n: seq<real>, i: nat, j: nat,
                                     nk: seq<real>, np: seq<seq<real>>)
    requires Increasing(k) && Increasing(n) && MergeInv(k, p, n, i, j, nk, np)
    ensures Refines(Spline(k, p), Merge(k, p, n, i, j, nk, np))
    ensures forall a :: a in Merge(k, p, n, i, j, nk, np).knots <==> a in k || a in n
    decreases |k| - i + |n| - j
  {
    if i < |k| && j < |n| {
      if k[i] <= n[j] {
        MergeOld(k, p, n, i, j, nk, np);
        MergeSpec(k, p, n, i + 1, if k[i] == n[j] then j + 1 else j, nk + [k[i]], np + [p[i + 1]]);
      } else {
        MergeNew(k, p, n, i, j, nk, np);
        MergeSpec(k, p, n, i, j + 1, nk + [n[j]], np + [np[|np| - 1]]);
      }
    } else if j < |n| {
      MergeNew(k, p, n, i, j, nk, np);
      MergeSpec(k, p, n, i, j + 1, nk + [n[j]], np + [np[|np| - 1]]);
    } else if i < |k| {
      MergeOld(k, p, n, i, j, nk, np);
      MergeSpec(k, p, n, i + 1, j, nk + [k[i]], np + [p[i + 1]]);
    } else {
      assert k[..i] == k && n[..j] == n;
    }
  }

  /** `insert_knots` on strictly increasing knots: the knots become the sorted union
      without repeats and the curve's value is unchanged at every point. */
  lemma InsertedSpec(s: Spline, knots: seq<real>)
    requires s.Valid() && Increasing(s.knots) && Increasing(knots)
    ensures Refines(s, Inserted(s, knots))
    ensures Increasing(Inserted(s, knots).knots)
    ensures forall a :: a in Inserted(s, knots).knots <==> a in s.knots || a in knots
    ensures forall x :: At(Inserted(s, knots), x) == At(s, x)
  {
    MergeSpec(s.knots, s.polys, knots, 0, 0, [], [s.polys[0]]);
    forall x ensures At(Inserted(s, knots), x) == At(s, x) {
      RefinedAt(s, Inserted(s, knots), x);
    }
  }

  /** Two strictly increasing lists with the same elements are equal. */
  lemma {:induction false} IncreasingUnique(a: seq<real>, b: seq<real>)
    requires Increasing(a) && Increasing(b)
    requires forall x :: x in a <==> x in b
    ensures a == b
    decreases |a|
  {
    BothEmpty(a, b);
    if |a| > 0 {
      assert a[0] in b && b[0] in a;
      var i :| 0 <= i < |b| && b[i] == a[0];
      var j :| 0 <= j < |a| && a[j] == b[0];
      assert a[0] == b[0];
      forall x
        ensures x in a[1..] <==> x in b[1..]
      {
        if x in a[1..] {
          var t :| 1 <= t < |a| && a[t] == x;
          assert x != a[0] && x in b;
          var u :| 0 <= u < |b| && b[u] == x;
          assert u != 0;
          assert b[1..][u - 1] == x;
        }
        if x in b[1..] {
          var t :| 1 <= t < |b| && b[t] == x;
          assert x != b[0] && x in a;
          var u :| 0 <= u < |a| && a[u] == x;
          assert u != 0;
          assert a[1..][u - 1] == x;
        }
      }
      IncreasingUnique(a[1..], b[1..]);
      assert a == [a[0]] + a[1..] && b == [b[0]] + b[1..];
    }
  }

  /** Lists with the same elements are empty together. */
  lemma BothEmpty(a: seq<real>, b: seq<real>)
    requires forall x :: x in a <==> x in b
    ensures |a| == 0 <==> |b| == 0
  {
    if |a| > 0 {
      var x := a[0];
      assert x in a;
    }
    if |b| > 0 {
      var x := b[0];
      assert x in b;
    }
  }

  /** Inserting knots the curve already has changes nothing. */
  lemma InsertedIdempotent(s: Spline, knots: seq<real>)
    requires s.Valid() && Increasing(s.knots) && Increasing(knots)
    requires forall a :: a in knots ==> a in s.knots
    ensures Inserted(s, knots) == s
  {
    var r := Inserted(s, knots);
    InsertedSpec(s, knots);
    IncreasingUnique(r.knots, s.knots);
    forall m | 1 <= m < |r.polys|
      ensures r.polys[m] == s.polys[m]
    {
      PieceIndexIs(s.knots, s.knots[m - 1], m);
    }
  }

  // ---------------------------------------------------------------------------
  // curve + curve, curve + number

  /** `f + g` for two curves: f refined by g's knots, g refined by the result's knots,
      then the pieces added pairwise; no refinement when the knot lists are equal. */
  function Plus(f: Spline, g: Spline): (r: Spline)
    requires f.Valid() && g.Valid()
    requires f.knots == g.knots || (Increasing(f.knots) && Increasing(g.knots))
    ensures r.Valid()
  {
    var f' := if f.knots != g.knots then Inserted(f, g.knots) else f;
    var g' := if f.knots != g.knots then Inserted(g, f'.knots) else g;
    assert f'.knots == g'.knots by {
      if f.knots != g.knots {
        InsertedSpec(f, g.knots);
        InsertedSpec(g, f'.knots);
        IncreasingUnique(f'.knots, g'.knots);
      }
    }
    Spline(f'.knots, seq(|f'.polys|, i requires 0 <= i < |f'.polys| => Sum(f'.polys[i], g'.polys[i])))
  }

  /** Curve addition is pointwise, whatever the two knot sets; the knots of the sum are
      the union of both. */
  lemma PlusSpec(f: Spline, g: Spline)
    requires f.Valid() && g.Valid()
    requires f.knots == g.knots || (Increasing(f.knots) && Increasing(g.knots))
    ensures forall x :: At(Plus(f, g), x) == At(f, x) + At(g, x)
    ensures forall a :: a in Plus(f, g).knots <==> a in f.knots || a in g.knots
    ensures Increasing(f.knots) && Increasing(g.knots) ==> Increasing(Plus(f, g).knots)
  {
    var r := Plus(f, g);
    var f' := if f.knots != g.knots then Inserted(f, g.knots) else f;
    var g' := if f.knots != g.knots then Inserted(g, f'.knots) else g;
    if f.knots != g.knots {
      InsertedSpec(f, g.knots);
      InsertedSpec(g, f'.knots);
      IncreasingUnique(f'.knots, g'.knots);
    }
    forall x ensures At(r, x) == At(f, x) + At(g, x) {
      var m := PieceIndex(r.knots, x);
      EvalSum(f'.polys[m], g'.polys[m], x);
    }
  }

  // ---------------------------------------------------------------------------
  // harmonize_knots

  /** Every curve's knots are those of the next one (the early-return test of `harmonize_knots`). */
  predicate SameKnots(ss: seq<Spline>) {
    forall i :: 0 <= i < |ss| - 1 ==> ss[i].knots == ss[i + 1].knots
  }

  /** All knots of all curves, one list after the other. */
  function AllKnots(ss: seq<Spline>): (r: seq<real>)
    ensures forall a :: a in r <==> exists i :: 0 <= i < |ss| && a in ss[i].knots
  {
    if |ss| == 0 then []
    else
      var n := |ss| - 1;
      var r := AllKnots(ss[..n]) + ss[n].knots;
      assert forall i :: 0 <= i < n ==> ss[..n][i] == ss[i];
      r
  }

  /** `harmonize_knots` on the values of the curves: unchanged when all knot lists are
      already equal, otherwise each refined by the sorted union of all knots. */
  function Harmonized(ss: seq<Spline>): (r: seq<Spline>)
    requires forall i :: 0 <= i < |ss| ==> ss[i].Valid()
    ensures |r| == |ss|
  {
    if SameKnots(ss) then ss
    else
      var u := SortedSet(AllKnots(ss));
      seq(|ss|, i requires 0 <= i < |ss| => Inserted(ss[i], u))
  }

  /** The shape part of `HarmonizedSpec`: one knot list for all, each still valid and
      strictly increasing. */
  lemma HarmonizedShape(ss: seq<Spline>)
    requires forall i :: 0 <= i < |ss| ==> ss[i].Valid() && Increasing(ss[i].knots)
    ensures SameKnots(Harmonized(ss))
    ensures forall i :: 0 <= i < |ss| ==> Harmonized(ss)[i].Valid() && Increasing(Harmonized(ss)[i].knots)
  {
    HarmonizedSpec(ss);
  }

  /** After harmonizing, all curves share one knot list, which holds exactly the knots
      of the inputs, and every curve keeps its values. */
  lemma HarmonizedSpec(ss: seq<Spline>)
    requires forall i :: 0 <= i < |ss| ==> ss[i].Valid() && Increasing(ss[i].knots)
    ensures SameKnots(Harmonized(ss))
    ensures forall i, x :: 0 <= i < |ss| ==> At(Harmonized(ss)[i], x) == At(ss[i], x)
    ensures forall i, a :: 0 <= i < |ss| ==>
              (a in Harmonized(ss)[i].knots <==> exists j :: 0 <= j < |ss| && a in ss[j].knots)
    ensures forall i :: 0 <= i < |ss| ==> Harmonized(ss)[i].Valid() && Increasing(Harmonized(ss)[i].knots)
  {
    var r := Harmonized(ss);
    if SameKnots(ss) {
      forall i, a | 0 <= i < |ss|
        ensures a in ss[i].knots <==> exists j :: 0 <= j < |ss| && a in ss[j].knots
      {
        if j :| 0 <= j < |ss| && a in ss[j].knots {
          SameKnotsAll(ss, i, j);
        }
      }
    } else {
      var u := SortedSet(AllKnots(ss));
      forall i | 0 <= i < |ss|
        ensures r[i].knots == u
        ensures forall x :: At(r[i], x) == At(ss[i], x)
      {
        InsertedSpec(ss[i], u);
        IncreasingUnique(r[i].knots, u);
      }
    }
  }

  /** Equal neighbouring knot lists make all knot lists equal. */
  lemma {:induction false} SameKnotsAll(ss: seq<Spline>, i: nat, j: nat)
    requires SameKnots(ss) && i < |ss| && j < |ss|
    ensures ss[i].knots == ss[j].knots
    decreases if i < j then j - i else i - j
  {
    if i < j {
      SameKnotsAll(ss, i + 1, j);
    } else if j < i {
      SameKnotsAll(ss, i, j + 1);
    }
  }
}
