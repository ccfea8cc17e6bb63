/**
 How far a search gets. Every iteration takes a search one unit further on each diagonal, counting
 the units of both texts; where the texts agree it gains two more. A gain is never lost: some
 diagonal that matters for the meeting of the searches stays ahead from then on.
 */
module BisectProgress {
  import opened Texts
  import opened Bisect
  import opened BisectOverlap

  /** How many units of both texts together lie before column x of diagonal k. */
  function Sum(x: int, k: int): int { 2 * x - k }

  /** Every diagonal of the last iteration got at least as far as one unit for each iteration. */
  ghost predicate Full(g: Grid, a: Side, d: int)
  {
    forall j {:trigger At(a.v, g.MaxD(), j)} :: OfLast(a, d, j) ==> Sum(At(a.v, g.MaxD(), j), j) >= d - 1
  }

  /** Nothing recorded is further than one unit for each iteration. */
  ghost predicate Bounded(g: Grid, v: seq<int>, d: int)
  {
    forall j {:trigger At(v, g.MaxD(), j)} :: At(v, g.MaxD(), j) >= 0 ==> Sum(At(v, g.MaxD(), j), j) <= d - 1
  }

  lemma StartSum(g: Grid, a: Side, d: int, k: int)
    requires g.Valid() && SideInv(g, a, d) && d < g.MaxD() && InRange(a, d, k) && Full(g, a, d)
    ensures Sum(StartX(a.v, g.MaxD(), d, k), k) >= d
  {
    StartIsGood(g, a, d, k);
    if d >= 1 {
      if a.lo <= k - 1 <= a.hi {
        assert OfLast(a, d, k - 1);
      } else {
        assert OfLast(a, d, k + 1);
      }
    }
  }

  lemma StartBounded(g: Grid, a: Side, d: int, k: int)
    requires g.Valid() && SideInv(g, a, d) && d < g.MaxD() && InRange(a, d, k) && Full(g, a, d)
    requires Bounded(g, a.v, d)
    ensures Sum(StartX(a.v, g.MaxD(), d, k), k) <= d
  {
    StartSum(g, a, d, k);
    StartIsGood(g, a, d, k);
  }

  /** The iteration has been completed on all diagonals from its start. */
  ghost predicate Completed(g: Grid, a: Side, w: Walk, d: int)
  {
    g.Valid() && SideInv(g, a, d) && d < g.MaxD() && Walked(g, a, w, d) && w.k > d - w.e
  }

  lemma VisitedSum(g: Grid, a: Side, w: Walk, d: int, k: int)
    requires Completed(g, a, w, d) && Full(g, a, d) && HasVisited(a, w, d, k)
    ensures Sum(At(w.v, g.MaxD(), k), k) >= d
  {
    VisitedIsGood(g, a, w, d, k);
    StartSum(g, a, d, k);
  }

  lemma FullStep(g: Grid, a: Side, w: Walk, d: int)
    requires Completed(g, a, w, d) && Full(g, a, d)
    ensures Full(g, Next(a, w, d), d + 1)
  {
    forall j {:trigger At(w.v, g.MaxD(), j)} | OfLast(Next(a, w, d), d + 1, j)
      ensures Sum(At(w.v, g.MaxD(), j), j) >= d
    {
      VisitedSum(g, a, w, d, j);
    }
  }

  /** Without a gain the bound stays. */
  lemma BoundedStep(g: Grid, a: Side, w: Walk, d: int)
    requires Completed(g, a, w, d) && Bounded(g, a.v, d)
    requires forall k :: HasVisited(a, w, d, k) ==> Sum(At(w.v, g.MaxD(), k), k) <= d
    ensures Bounded(g, w.v, d + 1)
  {
    forall j {:trigger At(w.v, g.MaxD(), j)} | At(w.v, g.MaxD(), j) >= 0
      ensures Sum(At(w.v, g.MaxD(), j), j) <= d
    {
      if !HasVisited(a, w, d, j) {
        assert At(w.v, g.MaxD(), j) == At(a.v, g.MaxD(), j);
      }
    }
  }

  /** A neighbour of a diagonal that is ahead is ahead as well. */
  lemma NextAhead(g: Grid, a: Side, w: Walk, d: int, k: int, j: int)
    requires Completed(g, a, w, d) && HasVisited(a, w, d, j) && (j == k + 1 || j == k - 1)
    requires OfLast(a, d, k) && d >= 1 && Sum(At(a.v, g.MaxD(), k), k) >= d + 1
    ensures Sum(At(w.v, g.MaxD(), j), j) >= d + 2
  {
    VisitedIsGood(g, a, w, d, j);
    StartIsGood(g, a, d, j);
  }

  lemma EvenGain(x: int, k: int, d: int)
    requires Par(k, d) && Sum(x, k) > d
    ensures Sum(x, k) >= d + 2
  {
  }

  /** A gain happens inside the grid. */
  lemma GainInside(g: Grid, a: Side, w: Walk, d: int, k: int)
    requires Completed(g, a, w, d) && Full(g, a, d) && Bounded(g, a.v, d) && HasVisited(a, w, d, k)
    requires Sum(At(w.v, g.MaxD(), k), k) > d
    ensures Sum(At(w.v, g.MaxD(), k), k) >= d + 2 && InGrid(g, At(w.v, g.MaxD(), k), k)
  {
    hide SideInv, Walked, Full, Bounded, Par;
    VisitedIsGood(g, a, w, d, k);
    StartBounded(g, a, d, k);
    EvenGain(At(w.v, g.MaxD(), k), k, d);
  }

  lemma TracedAt(text1: Text, text2: Text, front: bool, g: Grid, v0: seq<int>, v: seq<int>, d: int, lo: int, end: int,
                 k: int)
    requires Traced(text1, text2, front, g, v0, v, d, lo, end) && lo <= k < end && Par(k, d)
    ensures !Agree(text1, text2, front, At(v, g.MaxD(), k), At(v, g.MaxD(), k) - k)
  {
    hide Agree;
    assert Slid(text1, text2, front, g, v0, d, k, At(v, g.MaxD(), k));
  }

  /** The diagonal of a cell where the texts agree gains in the iteration that comes by it. */
  lemma CellGains(text1: Text, text2: Text, front: bool, g: Grid, a: Side, w: Walk, d: int, i: int, j: int)
    requires Completed(g, a, w, d) && Full(g, a, d) && Traced(text1, text2, front, g, a.v, w.v, d, -d + a.s, w.k)
    requires Agree(text1, text2, front, i, j) && i + j == d && HasVisited(a, w, d, i - j)
    ensures Sum(At(w.v, g.MaxD(), i - j), i - j) >= d + 2
  {
    hide Agree, Completed, Full, Traced, At;
    VisitedSum(g, a, w, d, i - j);
    TracedAt(text1, text2, front, g, a.v, w.v, d, -d + a.s, w.k, i - j);
    var x := At(w.v, g.MaxD(), i - j);
    assert x != i;
  }

  // ---------------------------------------------------------------------------------------
  // The old text at least as long as the new one: no diagonal runs off the right of the grid.

  /** The range is trimmed at its lower end as fast as if the texts had nothing in common, ... */
  ghost predicate WideTrims(g: Grid, a: Side, d: int) { a.s >= 2 * d - 2 * g.n2 - 2 }

  /** ... and no faster as long as nothing was gained. */
  ghost predicate WideExact(g: Grid, a: Side, d: int)
  {
    Bounded(g, a.v, d) && a.s <= Max(0, 2 * d - 2 * g.n2 - 2)
  }

  /** Diagonal k of the last iteration is ahead, near enough to the shared ones, and goes on. */
  ghost predicate WideAhead(g: Grid, a: Side, d: int, k: int)
  {
    OfLast(a, d, k) && Sum(At(a.v, g.MaxD(), k), k) >= d + 1 && k >= d + 1 - 2 * g.n2 && k + 1 >= -d + a.s
  }

  ghost predicate WideGained(g: Grid, a: Side, d: int) { exists k :: WideAhead(g, a, d, k) }

  ghost predicate WideProgress(g: Grid, a: Side, d: int)
  {
    Full(g, a, d) && WideTrims(g, a, d) && (WideExact(g, a, d) || (d >= 1 && WideGained(g, a, d)))
  }

  /** No point of the iteration lies to the right of the grid. */
  ghost predicate NoneRight(g: Grid, a: Side, w: Walk, d: int)
  {
    w.e == 0 && w.k == d + 2 && forall k {:trigger At(w.v, g.MaxD(), k)} ::
      HasVisited(a, w, d, k) ==> At(w.v, g.MaxD(), k) <= g.n1
  }

  lemma WideTrimsStep(g: Grid, a: Side, w: Walk, d: int)
    requires Completed(g, a, w, d) && NoneRight(g, a, w, d) && Full(g, a, d) && WideTrims(g, a, d)
    ensures WideTrims(g, Next(a, w, d), d + 1)
  {
    hide SideInv, Full, Visited;
    if a.s == 2 * d - 2 * g.n2 - 2 {
      var k := -d + a.s;
      VisitedSum(g, a, w, d, k);
      assert OffBottom(g, At(w.v, g.MaxD(), k), k);
    }
  }

  /** A gain of this iteration that is near enough stays, on its diagonal or on one that ran off above it. */
  lemma WideStays(g: Grid, a: Side, w: Walk, d: int, k: int)
    requires Completed(g, a, w, d) && HasVisited(a, w, d, k) && k >= d + 2 - 2 * g.n2
    requires Sum(At(w.v, g.MaxD(), k), k) >= d + 2 && k + 1 >= -d - 1 + w.s
    ensures WideAhead(g, Next(a, w, d), d + 1, k)
  {
    hide SideInv, RunOffs, Trims;
  }

  /** A diagonal that cut the next iteration short is ahead of those left out. */
  lemma WideCut(g: Grid, a: Side, w: Walk, d: int, k: int)
    requires Completed(g, a, w, d) && Full(g, a, d) && w.s > a.s
    requires k + 1 < -d - 1 + w.s && k >= d + 2 - 2 * g.n2
    ensures WideAhead(g, Next(a, w, d), d + 1, w.bs)
  {
    hide SideInv, Full, Visited;
    BottomCut(g, a, w, d);
    VisitedSum(g, a, w, d, w.bs);
    BottomSum(g, w, w.bs);
    WideStays(g, a, w, d, w.bs);
  }

  lemma BottomCut(g: Grid, a: Side, w: Walk, d: int)
    requires Walked(g, a, w, d) && w.s > a.s
    ensures HasVisited(a, w, d, w.bs) && OffBottom(g, At(w.v, g.MaxD(), w.bs), w.bs) && w.s <= w.bs + d + 2
  {
  }

  lemma BottomSum(g: Grid, w: Walk, k: int)
    requires OffBottom(g, At(w.v, g.MaxD(), k), k)
    ensures Sum(At(w.v, g.MaxD(), k), k) >= 2 * g.n2 + 2 + k
  {
  }

  lemma WideKeeps(g: Grid, a: Side, w: Walk, d: int, k: int)
    requires Completed(g, a, w, d) && NoneRight(g, a, w, d) && Full(g, a, d) && WideTrims(g, a, d)
    requires HasVisited(a, w, d, k) && Sum(At(w.v, g.MaxD(), k), k) >= d + 2 && k >= d + 2 - 2 * g.n2
    ensures WideGained(g, Next(a, w, d), d + 1)
  {
    hide SideInv, Full, WideAhead, Visited, RunOffs;
    if k + 1 >= -d - 1 + w.s {
      WideStays(g, a, w, d, k);
    } else {
      WideCut(g, a, w, d, k);
    }
  }

  lemma WideExactStep(g: Grid, a: Side, w: Walk, d: int)
    requires Completed(g, a, w, d) && NoneRight(g, a, w, d) && Full(g, a, d) && WideTrims(g, a, d) && WideExact(g, a, d)
    ensures WideExact(g, Next(a, w, d), d + 1) || WideGained(g, Next(a, w, d), d + 1)
  {
    if k :| HasVisited(a, w, d, k) && Sum(At(w.v, g.MaxD(), k), k) > d {
      GainInside(g, a, w, d, k);
      WideKeeps(g, a, w, d, k);
    } else {
      BoundedStep(g, a, w, d);
      if w.s > a.s {
        assert OffBottom(g, At(w.v, g.MaxD(), w.bs), w.bs);
        assert HasVisited(a, w, d, w.bs);
      }
    }
  }

  lemma WideGainedStep(g: Grid, a: Side, w: Walk, d: int)
    requires Completed(g, a, w, d) && NoneRight(g, a, w, d) && Full(g, a, d) && WideTrims(g, a, d)
    requires d >= 1 && WideGained(g, a, d)
    ensures WideGained(g, Next(a, w, d), d + 1)
  {
    var k :| WideAhead(g, a, d, k);
    NextAhead(g, a, w, d, k, k + 1);
    WideKeeps(g, a, w, d, k + 1);
  }

  lemma WideCellInRange(text1: Text, text2: Text, front: bool, g: Grid, a: Side, d: int, i: int, j: int)
    requires g == Grid(|text1|, |text2|) && WideExact(g, a, d) && a.s % 2 == 0
    requires Agree(text1, text2, front, i, j) && i + j == d
    ensures -d + a.s <= i - j <= d && Par(i - j, d) && i - j >= d + 2 - 2 * g.n2
  {
    hide Bounded;
  }

  lemma WideCellStep(text1: Text, text2: Text, front: bool, g: Grid, a: Side, w: Walk, d: int, i: int, j: int)
    requires Completed(g, a, w, d) && NoneRight(g, a, w, d) && WideProgress(g, a, d)
    requires g == Grid(|text1|, |text2|) && Traced(text1, text2, front, g, a.v, w.v, d, -d + a.s, w.k)
    requires Agree(text1, text2, front, i, j) && i + j == d
    ensures WideGained(g, Next(a, w, d), d + 1)
  {
    hide SideInv, Walked, Full, Traced, WideGained, WideExact, WideTrims, Agree, At, Par;
    if d >= 1 && WideGained(g, a, d) {
      WideGainedStep(g, a, w, d);
    } else {
      SideBounds(g, a, d);
      WideCellInRange(text1, text2, front, g, a, d, i, j);
      CellGains(text1, text2, front, g, a, w, d, i, j);
      WideKeeps(g, a, w, d, i - j);
    }
  }

  lemma WideProgressStep(g: Grid, a: Side, w: Walk, d: int)
    requires Completed(g, a, w, d) && NoneRight(g, a, w, d) && WideProgress(g, a, d)
    ensures WideProgress(g, Next(a, w, d), d + 1)
  {
    FullStep(g, a, w, d);
    WideTrimsStep(g, a, w, d);
    if d >= 1 && WideGained(g, a, d) {
      WideGainedStep(g, a, w, d);
    } else {
      WideExactStep(g, a, w, d);
    }
  }

  // ---------------------------------------------------------------------------------------
  // The old text shorter than the new one: no diagonal runs off the bottom of the grid.

  ghost predicate TallTrims(g: Grid, a: Side, d: int) { a.e >= 2 * d - 2 * g.n1 - 2 }

  ghost predicate TallExact(g: Grid, a: Side, d: int)
  {
    Bounded(g, a.v, d) && a.e <= Max(0, 2 * d - 2 * g.n1 - 2)
  }

  ghost predicate TallAhead(g: Grid, a: Side, d: int, k: int)
  {
    OfLast(a, d, k) && Sum(At(a.v, g.MaxD(), k), k) >= d + 1 && k <= 2 * g.n1 - d - 1 && k - 1 <= d - a.e
  }

  ghost predicate TallGained(g: Grid, a: Side, d: int) { exists k :: TallAhead(g, a, d, k) }

  ghost predicate TallProgress(g: Grid, a: Side, d: int)
  {
    Full(g, a, d) && TallTrims(g, a, d) && (TallExact(g, a, d) || (d >= 1 && TallGained(g, a, d)))
  }

  /** No point of the iteration lies below the grid. */
  ghost predicate NoneBelow(g: Grid, a: Side, w: Walk, d: int)
  {
    a.s == 0 && w.s == 0 && forall k {:trigger At(w.v, g.MaxD(), k)} ::
      HasVisited(a, w, d, k) ==> At(w.v, g.MaxD(), k) - k <= g.n2
  }

  lemma TallTrimsStep(g: Grid, a: Side, w: Walk, d: int)
    requires Completed(g, a, w, d) && NoneBelow(g, a, w, d) && Full(g, a, d) && TallTrims(g, a, d)
    ensures TallTrims(g, Next(a, w, d), d + 1)
  {
    if a.e == 2 * d - 2 * g.n1 - 2 {
      var k := d - a.e;
      if HasVisited(a, w, d, k) {
        VisitedSum(g, a, w, d, k);
        assert OffRight(g, At(w.v, g.MaxD(), k), k);
      }
    }
  }

  /** When an iteration was cut short, the diagonal that cut it short is ahead of those left out. */
  lemma TallCut(g: Grid, a: Side, w: Walk, d: int, k: int)
    requires Completed(g, a, w, d) && NoneBelow(g, a, w, d) && Full(g, a, d) && TallTrims(g, a, d)
    requires w.e > a.e && w.be < k <= d - a.e && Par(k, d) && k <= 2 * g.n1 - d - 2
    ensures TallAhead(g, Next(a, w, d), d + 1, w.be)
  {
    VisitedSum(g, a, w, d, w.be);
    assert OffRight(g, At(w.v, g.MaxD(), w.be), w.be);
  }

  lemma TallStays(g: Grid, a: Side, w: Walk, d: int, k: int)
    requires Completed(g, a, w, d) && HasVisited(a, w, d, k) && k <= 2 * g.n1 - d - 2
    requires Sum(At(w.v, g.MaxD(), k), k) >= d + 2 && k - 1 <= d + 1 - w.e
    ensures TallAhead(g, Next(a, w, d), d + 1, k)
  {
    hide SideInv, RunOffs, Trims;
  }

  lemma TallKeeps(g: Grid, a: Side, w: Walk, d: int, k: int)
    requires Completed(g, a, w, d) && NoneBelow(g, a, w, d) && Full(g, a, d) && TallTrims(g, a, d)
    requires k >= -d && k <= d - a.e && Par(k, d) && k <= 2 * g.n1 - d - 2
    requires HasVisited(a, w, d, k) ==> Sum(At(w.v, g.MaxD(), k), k) >= d + 2
    ensures TallGained(g, Next(a, w, d), d + 1)
  {
    hide SideInv, Full;
    if HasVisited(a, w, d, k) && k - 1 <= d + 1 - w.e {
      TallStays(g, a, w, d, k);
    } else {
      TallCut(g, a, w, d, k);
    }
  }

  lemma TallExactStep(g: Grid, a: Side, w: Walk, d: int)
    requires Completed(g, a, w, d) && NoneBelow(g, a, w, d) && Full(g, a, d) && TallTrims(g, a, d) && TallExact(g, a, d)
    ensures TallExact(g, Next(a, w, d), d + 1) || TallGained(g, Next(a, w, d), d + 1)
  {
    if k :| HasVisited(a, w, d, k) && Sum(At(w.v, g.MaxD(), k), k) > d {
      GainInside(g, a, w, d, k);
      VisitedIsGood(g, a, w, d, k);
      TallKeeps(g, a, w, d, k);
    } else {
      BoundedStep(g, a, w, d);
      if w.e > a.e {
        assert OffRight(g, At(w.v, g.MaxD(), w.be), w.be);
        assert HasVisited(a, w, d, w.be);
      }
    }
  }

  lemma TallGainedStep(g: Grid, a: Side, w: Walk, d: int)
    requires Completed(g, a, w, d) && NoneBelow(g, a, w, d) && Full(g, a, d) && TallTrims(g, a, d)
    requires d >= 1 && TallGained(g, a, d)
    ensures TallGained(g, Next(a, w, d), d + 1)
  {
    var k :| TallAhead(g, a, d, k);
    if HasVisited(a, w, d, k - 1) {
      NextAhead(g, a, w, d, k, k - 1);
    }
    TallKeeps(g, a, w, d, k - 1);
  }

  lemma TallCellStep(text1: Text, text2: Text, front: bool, g: Grid, a: Side, w: Walk, d: int, i: int, j: int)
    requires Completed(g, a, w, d) && NoneBelow(g, a, w, d) && TallProgress(g, a, d)
    requires g == Grid(|text1|, |text2|) && Traced(text1, text2, front, g, a.v, w.v, d, -d + a.s, w.k)
    requires Agree(text1, text2, front, i, j) && i + j == d
    ensures TallGained(g, Next(a, w, d), d + 1)
  {
    hide Completed, NoneBelow, Full, Bounded, Traced, TallGained;
    if d >= 1 && TallGained(g, a, d) {
      TallGainedStep(g, a, w, d);
    } else {
      if HasVisited(a, w, d, i - j) {
        CellGains(text1, text2, front, g, a, w, d, i, j);
      }
      TallKeeps(g, a, w, d, i - j);
    }
  }

  lemma TallProgressStep(g: Grid, a: Side, w: Walk, d: int)
    requires Completed(g, a, w, d) && NoneBelow(g, a, w, d) && TallProgress(g, a, d)
    ensures TallProgress(g, Next(a, w, d), d + 1)
  {
    FullStep(g, a, w, d);
    TallTrimsStep(g, a, w, d);
    if d >= 1 && TallGained(g, a, d) {
      TallGainedStep(g, a, w, d);
    } else {
      TallExactStep(g, a, w, d);
    }
  }
}
