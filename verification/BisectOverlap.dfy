/**
 Where a split can fall. Whatever the texts, a split of the search leaves two pairs of texts that
 are both smaller than the one it splits, so the recursion on the halves ends.
 */
module BisectOverlap {
  import opened Bisect

  // ---------------------------------------------------------------------------------------
  // When the lengths differ by an odd number, the front search looks
  // for the overlap, and only points inside the grid are compared.

  /** A split at (x, y), clamped to the texts, leaves two pairs that are both smaller. */
  predicate Splits(g: Grid, x: int, y: int)
  {
    x >= 0 && y >= 0 && x + y > 0 && (x < g.n1 || y < g.n2)
  }

  ghost predicate OddInv(g: Grid, v1: seq<int>, v2: seq<int>, d: int)
  {
    var off := g.MaxD();
    && At(v1, off, g.Delta() - 1) != g.n1 - 1
    && At(v1, off, g.Delta() + 1) != g.n1
    && (d >= 2 ==> At(v2, off, 1) >= 1 && At(v2, off, -1) >= 0)
  }

  /** The last units of the texts differ, so the far corner is only reached from a wall. */
  lemma CornerStart(g: Grid, v: seq<int>, d: int, k: int, x: int)
    requires Stepped(g, v, d, k, x) && x == g.n1 && x - k == g.n2
    ensures At(v, g.MaxD(), k - 1) == g.n1 - 1 || At(v, g.MaxD(), k + 1) == g.n1
  {
  }

  lemma NothingMetAtFirst(g: Grid, v: seq<int>, k: int)
    requires g.Valid() && Entries(g, v, 0)
    ensures !Meets(g, v, k, 0)
  {
    assert Entry(g, At(v, g.MaxD(), g.Delta() - k), 0, g.Delta() - k);
  }

  lemma OddSplit(g: Grid, a: Side, v2: seq<int>, d: int, k: int, x: int)
    requires g.Valid() && SideInv(g, a, d) && d < g.MaxD() && OddInv(g, a.v, v2, d) && Entries(g, v2, d)
    requires InRange(a, d, k) && Stepped(g, a.v, d, k, x) && InGrid(g, x, k) && Meets(g, v2, k, x)
    ensures Splits(g, x, x - k)
  {
    hide SideInv, Entries, Stepped, Meets;
    SteppedIsGood(g, a, d, k, x);
    if x == g.n1 && x - k == g.n2 {
      CornerStart(g, a.v, d, k, x);
    }
    if d == 0 {
      NothingMetAtFirst(g, v2, k);
    }
  }

  lemma OddFront(g: Grid, v0: seq<int>, v1: seq<int>, v2: seq<int>, d: int, lo: int, k: int)
    requires g.Valid() && g.Delta() % 2 != 0 && 0 <= d && OddInv(g, v0, v2, d)
    requires Visited(g, v0, v1, d, lo, k) && Apart(g, v1, v2, d, lo, k)
    ensures OddInv(g, v1, v2, d)
  {
    var off := g.MaxD();
    forall j | j == g.Delta() - 1 || j == g.Delta() + 1
      ensures j == g.Delta() - 1 ==> At(v1, off, j) != g.n1 - 1
      ensures j == g.Delta() + 1 ==> At(v1, off, j) != g.n1
    {
      if lo <= j < k && Par(j, d) {
        assert Stepped(g, v0, d, j, At(v1, off, j));
        assert InGrid(g, At(v1, off, j), j) ==> !Meets(g, v2, j, At(v1, off, j));
      }
    }
  }

  lemma OddReverse(g: Grid, v1: seq<int>, a: Side, w: Walk, d: int)
    requires g.Valid() && SideInv(g, a, d) && d < g.MaxD() && OddInv(g, v1, a.v, d)
    requires Walked(g, a, w, d) && w.k > d - w.e
    ensures OddInv(g, v1, w.v, d + 1)
  {
    var off := g.MaxD();
    if d == 1 {
      NoEarlyTrims(g, a, w, d);
    }
    forall j | d >= 1 && (j == 1 || j == -1)
      ensures At(w.v, off, j) >= 0 && At(w.v, off, j) >= j
    {
      if HasVisited(a, w, d, j) {
        VisitedIsGood(g, a, w, d, j);
      } else {
        assert At(w.v, off, j) == At(a.v, off, j);
      }
    }
  }

  // ---------------------------------------------------------------------------------------
  // Of the two searches one looks for the overlap: the reverse search when the lengths differ by
  // an even number, the front search otherwise. It compares each of its points inside the grid
  // with whatever the other search has recorded, even outside the grid. In what follows `a` is the
  // other search, which goes first, and `c` the one that compares; `m` and `d` count their
  // iterations, `m` being `d` or one less. What rules out a useless split, and makes the search
  // find one, is that on every diagonal both searches have reached, they stay apart and hence
  // inside the grid.

  /** The diagonals that both searches can reach in their iterations m and d. */
  predicate Shared(g: Grid, m: int, d: int, k: int)
  {
    -m <= k <= m && -d <= k - g.Delta() <= d && Par(k, m)
  }

  predicate Interior(g: Grid, x: int, j: int) { 0 <= x < g.n1 && 0 <= x - j < g.n2 }

  /** Two points of one diagonal, both inside the grid, that have not met. */
  predicate Facing(g: Grid, v1: seq<int>, v2: seq<int>, k: int)
  {
    var x, y := At(v1, g.MaxD(), k), At(v2, g.MaxD(), g.Delta() - k);
    Interior(g, x, k) && Interior(g, y, g.Delta() - k) && x + y < g.n1
  }

  /** On the diagonals both searches visited in their last iterations they have not met. */
  ghost predicate KeptApart(g: Grid, v1: seq<int>, v2: seq<int>, m: int, d: int)
  {
    forall k {:trigger Shared(g, m - 1, d - 1, k)} :: Shared(g, m - 1, d - 1, k) ==> Facing(g, v1, v2, k)
  }

  lemma SharedSym(g: Grid, m: int, d: int, k: int)
    requires Shared(g, d, m, k) && Par(g.Delta(), d - m)
    ensures Shared(g, m, d, g.Delta() - k)
  {
  }

  lemma KeptApartSym(g: Grid, v1: seq<int>, v2: seq<int>, m: int, d: int)
    requires KeptApart(g, v1, v2, m, d) && Par(g.Delta(), d - m)
    ensures KeptApart(g, v2, v1, d, m)
  {
    hide Shared, Par;
    forall k | Shared(g, d - 1, m - 1, k)
      ensures Facing(g, v2, v1, k)
    {
      SharedSym(g, m - 1, d - 1, k);
    }
  }

  /** A diagonal whose neighbours were shared stays inside the grid and off its far corner. */
  lemma SharedStart(g: Grid, v: seq<int>, o: seq<int>, m: int, d: int, k: int, x: int)
    requires KeptApart(g, v, o, m, d) && m >= 1 && Stepped(g, v, m, k, x)
    requires k != -m ==> Shared(g, m - 1, d - 1, k - 1)
    requires k != m ==> Shared(g, m - 1, d - 1, k + 1)
    ensures InGrid(g, x, k) && !(x == g.n1 && x - k == g.n2)
  {
  }

  /** When both searches have visited a diagonal without meeting there, both are inside the grid. */
  lemma MissedInterior(g: Grid, v1: seq<int>, v2: seq<int>, k: int)
    requires At(v1, g.MaxD(), k) >= 0 && At(v1, g.MaxD(), k) >= k
    requires At(v2, g.MaxD(), g.Delta() - k) >= 0 && At(v2, g.MaxD(), g.Delta() - k) >= g.Delta() - k
    requires !Meets(g, v1, g.Delta() - k, At(v2, g.MaxD(), g.Delta() - k))
    ensures Facing(g, v1, v2, k)
  {
  }

  lemma Avoided(g: Grid, v: seq<int>, o: seq<int>, d: int, lo: int, k: int, j: int)
    requires Apart(g, v, o, d, lo, k) && lo <= j < k && Par(j, d) && InGrid(g, At(v, g.MaxD(), j), j)
    ensures !Meets(g, o, j, At(v, g.MaxD(), j))
  {
  }

  lemma AvoidedVisited(g: Grid, o: seq<int>, c: Side, w: Walk, d: int, j: int)
    requires Apart(g, w.v, o, d, -d + c.s, w.k) && HasVisited(c, w, d, j) && InGrid(g, At(w.v, g.MaxD(), j), j)
    ensures !Meets(g, o, j, At(w.v, g.MaxD(), j))
  {
  }

  ghost predicate OfLast(c: Side, d: int, k: int) { c.lo <= k <= c.hi && Par(k, d - 1) }

  /** Iterations m and d of two searches: the same one, or that of `a` is the one before. */
  ghost predicate Paired(g: Grid, a: Side, c: Side, m: int, d: int)
  {
    && g.Valid() && 0 <= d - m <= 1 && g.Delta() % 2 == d - m && 1 <= m && d < g.MaxD()
    && SideInv(g, a, m) && SideInv(g, c, d)
  }

  /** Both searches ran to the end of their iterations, and the second one met nothing. */
  ghost predicate Missed(g: Grid, a: Side, c: Side, w1: Walk, w2: Walk, m: int, d: int)
  {
    && Walked(g, a, w1, m) && w1.k > m - w1.e
    && Walked(g, c, w2, d) && w2.k > d - w2.e
    && Apart(g, w2.v, w1.v, d, -d + c.s, w2.k)
  }

  // The old text at least as long as the new one: the searches leave the grid over its top and
  // its bottom, on diagonals far from the shared ones.

  /** Diagonal k of the last iteration went over the top. */
  predicate Over(g: Grid, c: Side, k: int) { At(c.v, g.MaxD(), k) - k > g.n2 }

  /**
   What holds when iterations m and d start: the searches kept apart; the diagonals of `c` that
   went over the top are far from the shared ones; their neighbours have reached the top; and once
   trimming starts it goes on, `b` being over the top.
   */
  ghost predicate WideInv(g: Grid, a: Side, c: Side, m: int, d: int, b: int)
  {
    && a.e == 0 && c.e == 0 && a.s <= g.Delta() - (d - m) && c.s <= g.Delta() + (d - m)
    && KeptApart(g, a.v, c.v, m, d)
    && (forall k {:trigger Over(g, c, k)} :: OfLast(c, d, k) && Over(g, c, k) ==> k <= g.Delta() - m - 3 && k <= d - 3)
    && (forall k {:trigger Over(g, c, k)} :: OfLast(c, d, k) && Over(g, c, k) && k <= c.hi - 2 ==>
          At(c.v, g.MaxD(), k + 2) - (k + 2) >= g.n2)
    && (c.s > 0 ==> OfLast(c, d, b) && Over(g, c, b) && -d + c.s <= b + 1 && c.lo + 1 <= -d + c.s)
  }

  lemma WideTrimmed(g: Grid, a: Side, c: Side, m: int, d: int, b: int)
    requires WideInv(g, a, c, m, d, b)
    ensures a.e == 0 && c.e == 0 && a.s <= g.Delta() - (d - m) && c.s <= g.Delta() + (d - m)
    ensures KeptApart(g, a.v, c.v, m, d)
  {
  }

  ghost predicate WideCase(g: Grid, a: Side, c: Side, m: int, d: int, b: int)
  {
    g.Delta() >= 0 && Paired(g, a, c, m, d) && WideInv(g, a, c, m, d, b)
  }

  lemma WideFirstPoint(g: Grid, a: Side, c: Side, m: int, d: int, b: int, k: int, x: int)
    requires WideCase(g, a, c, m, d, b) && InRange(a, m, k) && Stepped(g, a.v, m, k, x)
    ensures x <= g.n1
    ensures k >= g.Delta() - d + 2 ==> InGrid(g, x, k) && !(x == g.n1 && x - k == g.n2)
  {
    SteppedIsGood(g, a, m, k, x);
    if k >= g.Delta() - d + 2 {
      SharedStart(g, a.v, c.v, m, d, k, x);
    }
  }

  /** On the diagonal next to the shared ones the second search is still inside the grid. */
  lemma WideEdge(g: Grid, a: Side, c: Side, m: int, d: int, b: int, x: int)
    requires WideCase(g, a, c, m, d, b) && g.Delta() > 0
    requires InRange(c, d, g.Delta() - m) && Stepped(g, c.v, d, g.Delta() - m, x)
    ensures InGrid(g, x, g.Delta() - m)
  {
    hide Entries, Fresh;
    var k := g.Delta() - m;
    KeptApartSym(g, a.v, c.v, m, d);
    assert OfLast(c, d, k - 1);
    assert !Over(g, c, k - 1);
    if k != d {
      assert Shared(g, d - 1, m - 1, k + 1);
    }
  }

  lemma WideNeighbours(g: Grid, m: int, d: int, k: int)
    requires g.Delta() >= 0 && 0 <= d - m <= 1 && g.Delta() % 2 == d - m && -d <= k <= d && Par(k, d)
    requires k >= g.Delta() - m + 2 || (k == g.Delta() - m && g.Delta() == 0)
    ensures k != -d ==> Shared(g, d - 1, m - 1, k - 1)
    ensures k != d ==> Shared(g, d - 1, m - 1, k + 1)
  {
  }

  /** A point of the second search on a diagonal whose neighbours were shared. */
  lemma WideSecondShared(g: Grid, a: Side, c: Side, m: int, d: int, b: int, k: int, x: int)
    requires WideCase(g, a, c, m, d, b) && InRange(c, d, k) && Stepped(g, c.v, d, k, x)
    requires k >= g.Delta() - m + 2 || (k == g.Delta() - m && g.Delta() == 0)
    ensures InGrid(g, x, k)
  {
    hide SideInv, Stepped, KeptApart, Shared;
    KeptApartSym(g, a.v, c.v, m, d);
    WideNeighbours(g, m, d, k);
    SharedStart(g, c.v, a.v, d, m, k, x);
  }

  lemma WideSecondPoint(g: Grid, a: Side, c: Side, m: int, d: int, b: int, k: int, x: int)
    requires WideCase(g, a, c, m, d, b) && InRange(c, d, k) && Stepped(g, c.v, d, k, x)
    ensures x <= g.n1
    ensures k >= g.Delta() - m ==> InGrid(g, x, k)
  {
    hide SideInv, Stepped, KeptApart;
    SteppedIsGood(g, c, d, k, x);
    if k >= g.Delta() - m + 2 || (k == g.Delta() - m && g.Delta() == 0) {
      WideSecondShared(g, a, c, m, d, b, k, x);
    } else if k == g.Delta() - m {
      WideEdge(g, a, c, m, d, b, x);
    }
  }

  lemma WideFirstWalk(g: Grid, a: Side, c: Side, w: Walk, m: int, d: int, b: int)
    requires WideCase(g, a, c, m, d, b) && Walked(g, a, w, m) && w.k > m - w.e
    ensures w.e == 0 && w.k == m + 2
  {
    if w.e > a.e {
      VisitedIsGood(g, a, w, m, w.be);
      WideFirstPoint(g, a, c, m, d, b, w.be, At(w.v, g.MaxD(), w.be));
    }
  }

  lemma WideSecondWalk(g: Grid, a: Side, c: Side, w: Walk, m: int, d: int, b: int)
    requires WideCase(g, a, c, m, d, b) && Walked(g, c, w, d) && w.k > d - w.e
    ensures w.e == 0 && w.k == d + 2
  {
    if w.e > c.e {
      VisitedIsGood(g, c, w, d, w.be);
      WideSecondPoint(g, a, c, m, d, b, w.be, At(w.v, g.MaxD(), w.be));
    }
  }

  lemma WideVisits(g: Grid, a: Side, c: Side, w1: Walk, w2: Walk, m: int, d: int, k: int)
    requires Shared(g, m, d, k) && g.Delta() % 2 == d - m && w1.k == m + 2 && w2.k == d + 2
    requires a.s <= g.Delta() - (d - m) && c.s <= g.Delta() + (d - m)
    ensures HasVisited(a, w1, m, k) && HasVisited(c, w2, d, g.Delta() - k)
  {
  }

  lemma WideSharedDiagonal(g: Grid, a: Side, c: Side, w1: Walk, w2: Walk, m: int, d: int, b: int, k: int)
    requires WideCase(g, a, c, m, d, b) && Missed(g, a, c, w1, w2, m, d) && w1.k == m + 2 && w2.k == d + 2
    requires Shared(g, m, d, k)
    ensures Facing(g, w1.v, w2.v, k)
  {
    hide SideInv, KeptApart, Stepped, Walked, Apart, WideInv, Shared, HasVisited;
    WideTrimmed(g, a, c, m, d, b);
    WideVisits(g, a, c, w1, w2, m, d, k);
    var k2 := g.Delta() - k;
    VisitedIsGood(g, a, w1, m, k);
    VisitedIsGood(g, c, w2, d, k2);
    WideSecondPoint(g, a, c, m, d, b, k2, At(w2.v, g.MaxD(), k2));
    AvoidedVisited(g, w1.v, c, w2, d, k2);
    MissedInterior(g, w1.v, w2.v, k);
  }

  lemma WideKeptApart(g: Grid, a: Side, c: Side, w1: Walk, w2: Walk, m: int, d: int, b: int)
    requires WideCase(g, a, c, m, d, b) && Missed(g, a, c, w1, w2, m, d)
    ensures KeptApart(g, w1.v, w2.v, m + 1, d + 1)
  {
    hide WideInv, SideInv, Apart, Facing;
    WideFirstWalk(g, a, c, w1, m, d, b);
    WideSecondWalk(g, a, c, w2, m, d, b);
    forall k | Shared(g, m, d, k)
      ensures Facing(g, w1.v, w2.v, k)
    {
      WideSharedDiagonal(g, a, c, w1, w2, m, d, b, k);
    }
  }

  /** A diagonal goes over the top only next to one that has reached the top. */
  lemma WideWall(g: Grid, a: Side, c: Side, m: int, d: int, b: int, k: int, x: int)
    requires WideCase(g, a, c, m, d, b) && InRange(c, d, k) && Stepped(g, c.v, d, k, x) && x - k > g.n2
    ensures k <= d - 2 && At(c.v, g.MaxD(), k + 1) - (k + 1) >= g.n2
  {
    hide Entries, Fresh, KeptApart;
    var off := g.MaxD();
    assert x == StartX(c.v, off, d, k);
    assert k == d ==> OfLast(c, d, k - 1) && Over(g, c, k - 1);
    if k != d && k != -d && At(c.v, off, k - 1) >= At(c.v, off, k + 1) {
      assert OfLast(c, d, k - 1) && Over(g, c, k - 1);
    }
  }

  lemma WideNextWall(g: Grid, a: Side, c: Side, w: Walk, m: int, d: int, b: int, k: int)
    requires WideCase(g, a, c, m, d, b) && Walked(g, c, w, d) && w.k == d + 2
    requires HasVisited(c, w, d, k) && At(w.v, g.MaxD(), k) - k > g.n2
    ensures k <= d - 2 && At(w.v, g.MaxD(), k + 2) - (k + 2) >= g.n2
  {
    hide SideInv, Walked, WideInv;
    VisitedIsGood(g, c, w, d, k);
    WideWall(g, a, c, m, d, b, k, At(w.v, g.MaxD(), k));
    VisitedIsGood(g, c, w, d, k + 2);
    StartIsGood(g, c, d, k + 2);
  }

  /** What went over the top in iteration d is still far from the shared diagonals. */
  lemma WideFar(g: Grid, a: Side, c: Side, w1: Walk, w2: Walk, m: int, d: int, b: int, k: int)
    requires WideCase(g, a, c, m, d, b) && Missed(g, a, c, w1, w2, m, d) && w1.k == m + 2 && w2.k == d + 2
    requires HasVisited(c, w2, d, k) && At(w2.v, g.MaxD(), k) - k > g.n2
    ensures k <= g.Delta() - m - 4 && k <= d - 2 && At(w2.v, g.MaxD(), k + 2) - (k + 2) >= g.n2
  {
    hide SideInv, Stepped, Walked, Apart, KeptApart, WideInv;
    VisitedIsGood(g, c, w2, d, k);
    WideSecondPoint(g, a, c, m, d, b, k, At(w2.v, g.MaxD(), k));
    WideNextWall(g, a, c, w2, m, d, b, k);
    if k == g.Delta() - m - 2 {
      WideSharedDiagonal(g, a, c, w1, w2, m, d, b, m);
    }
  }

  lemma WideFirstTrim(g: Grid, a: Side, c: Side, w1: Walk, w2: Walk, m: int, d: int, b: int)
    requires WideCase(g, a, c, m, d, b) && Missed(g, a, c, w1, w2, m, d) && w1.k == m + 2 && w2.k == d + 2
    ensures w1.s <= g.Delta() - (d - m)
  {
    hide SideInv, Stepped, Apart, KeptApart, Visited;
    if w1.s > a.s {
      var k := w1.bs;
      VisitedIsGood(g, a, w1, m, k);
      WideFirstPoint(g, a, c, m, d, b, k, At(w1.v, g.MaxD(), k));
      if k == g.Delta() - d {
        WideSharedDiagonal(g, a, c, w1, w2, m, d, b, k);
      }
    }
  }

  /** Once trimming starts, every iteration has a diagonal that goes over the top. */
  lemma WideGoesOn(g: Grid, a: Side, c: Side, w: Walk, m: int, d: int, b: int)
    requires WideCase(g, a, c, m, d, b) && Walked(g, c, w, d) && w.k == d + 2
    ensures c.s > 0 ==> w.s > c.s
  {
    if c.s > 0 {
      var k := b + 1;
      VisitedIsGood(g, c, w, d, k);
      StartIsGood(g, c, d, k);
      WideSecondPoint(g, a, c, m, d, b, k, At(w.v, g.MaxD(), k));
      assert OffBottom(g, At(w.v, g.MaxD(), k), k);
    }
  }

  lemma WideSecondTrim(g: Grid, a: Side, c: Side, w1: Walk, w2: Walk, m: int, d: int, b: int)
    requires WideCase(g, a, c, m, d, b) && Missed(g, a, c, w1, w2, m, d) && w1.k == m + 2 && w2.k == d + 2
    ensures w2.s <= g.Delta() + (d - m)
    ensures w2.s > 0 ==> HasVisited(c, w2, d, w2.bs) && At(w2.v, g.MaxD(), w2.bs) - w2.bs > g.n2
                         && w2.s <= w2.bs + d + 2 && c.s + 2 <= w2.s
  {
    hide SideInv, Stepped, Visited, Apart, KeptApart;
    WideGoesOn(g, a, c, w2, m, d, b);
    if w2.s > c.s {
      WideFar(g, a, c, w1, w2, m, d, b, w2.bs);
    }
  }

  lemma WideAllFar(g: Grid, a: Side, c: Side, w1: Walk, w2: Walk, m: int, d: int, b: int)
    requires WideCase(g, a, c, m, d, b) && Missed(g, a, c, w1, w2, m, d) && w1.k == m + 2 && w2.k == d + 2
    ensures var c' := Next(c, w2, d);
            forall k {:trigger Over(g, c', k)} :: OfLast(c', d + 1, k) && Over(g, c', k) ==>
              k <= g.Delta() - m - 4 && k <= d - 2 && At(c'.v, g.MaxD(), k + 2) - (k + 2) >= g.n2
  {
    hide WideCase, Missed;
    var c' := Next(c, w2, d);
    forall k | OfLast(c', d + 1, k) && Over(g, c', k)
      ensures k <= g.Delta() - m - 4 && k <= d - 2
      ensures At(c'.v, g.MaxD(), k + 2) - (k + 2) >= g.n2
    {
      WideFar(g, a, c, w1, w2, m, d, b, k);
    }
  }

  lemma WideStep(g: Grid, a: Side, c: Side, w1: Walk, w2: Walk, m: int, d: int, b: int)
    requires WideCase(g, a, c, m, d, b) && Missed(g, a, c, w1, w2, m, d)
    ensures WideInv(g, Next(a, w1, m), Next(c, w2, d), m + 1, d + 1, w2.bs)
  {
    hide Walked, SideInv, KeptApart, Apart;
    WideFirstWalk(g, a, c, w1, m, d, b);
    WideSecondWalk(g, a, c, w2, m, d, b);
    WideKeptApart(g, a, c, w1, w2, m, d, b);
    WideFirstTrim(g, a, c, w1, w2, m, d, b);
    WideSecondTrim(g, a, c, w1, w2, m, d, b);
    WideAllFar(g, a, c, w1, w2, m, d, b);
  }

  /** A point the first search recorded, when the second one meets it. */
  lemma MetPoint(g: Grid, a: Side, w1: Walk, d: int, k: int)
    requires g.Valid() && SideInv(g, a, d) && 1 <= d < g.MaxD() && Walked(g, a, w1, d) && w1.k > d - w1.e
    requires At(w1.v, g.MaxD(), k) != -1
    ensures var x := At(w1.v, g.MaxD(), k);
            x >= 0 && x >= k && -d <= k <= d && x <= g.n1 + d - 1 && x - k <= g.n2 + d - 1
  {
    SideStep(g, a, w1, d);
    assert Entry(g, At(w1.v, g.MaxD(), k), d + 1, k);
  }

  lemma WideSplit(g: Grid, a: Side, c: Side, w1: Walk, d: int, b: int, k2: int, x2: int)
    requires WideCase(g, a, c, d, d, b) && Walked(g, a, w1, d) && w1.k > d - w1.e
    requires InRange(c, d, k2) && Stepped(g, c.v, d, k2, x2) && InGrid(g, x2, k2) && Meets(g, w1.v, k2, x2)
    ensures var x := At(w1.v, g.MaxD(), g.Delta() - k2); Splits(g, x, x - (g.Delta() - k2))
  {
    hide SideInv, Stepped, KeptApart, Visited, RunOffs;
    var k := g.Delta() - k2;
    var x := At(w1.v, g.MaxD(), k);
    MetPoint(g, a, w1, d, k);
    WideFirstWalk(g, a, c, w1, d, d, b);
    if k >= g.Delta() - d + 2 || x == x - k == 0 {
      VisitedIsGood(g, a, w1, d, k);
      WideFirstPoint(g, a, c, d, d, b, k, x);
    }
  }

  // The old text shorter than the new one: the searches leave the grid over its left and its
  // right side, and a diagonal that does so ends the walk early.

  /** Diagonal k of the last iteration went over the side. */
  predicate Beyond(g: Grid, c: Side, k: int) { At(c.v, g.MaxD(), k) > g.n1 }

  ghost predicate TallInv(g: Grid, a: Side, c: Side, m: int, d: int, b: int)
  {
    && a.s == 0 && c.s == 0 && a.e <= -g.Delta() - (d - m) && c.e <= -g.Delta() + (d - m)
    && KeptApart(g, a.v, c.v, m, d)
    && (forall k {:trigger Beyond(g, c, k)} ::
          OfLast(c, d, k) && Beyond(g, c, k) ==> k >= g.Delta() + m + 3 && k >= -d + 3)
    && (forall k {:trigger Beyond(g, c, k)} :: OfLast(c, d, k) && Beyond(g, c, k) && k >= c.lo + 2 ==>
          At(c.v, g.MaxD(), k - 2) >= g.n1)
    && (c.e > 0 ==> OfLast(c, d, b) && Beyond(g, c, b) && b <= d - c.e + 1)
  }

  lemma TallTrimmed(g: Grid, a: Side, c: Side, m: int, d: int, b: int)
    requires TallInv(g, a, c, m, d, b)
    ensures a.s == 0 && c.s == 0 && a.e <= -g.Delta() - (d - m) && c.e <= -g.Delta() + (d - m)
    ensures KeptApart(g, a.v, c.v, m, d)
  {
  }

  ghost predicate TallCase(g: Grid, a: Side, c: Side, m: int, d: int, b: int)
  {
    g.Delta() < 0 && Paired(g, a, c, m, d) && TallInv(g, a, c, m, d, b)
  }

  lemma TallFirstPoint(g: Grid, a: Side, c: Side, m: int, d: int, b: int, k: int, x: int)
    requires TallCase(g, a, c, m, d, b) && InRange(a, m, k) && Stepped(g, a.v, m, k, x)
    ensures x - k <= g.n2
    ensures k <= g.Delta() + d - 2 ==> InGrid(g, x, k) && !(x == g.n1 && x - k == g.n2)
  {
    SteppedIsGood(g, a, m, k, x);
    if k <= g.Delta() + d - 2 {
      SharedStart(g, a.v, c.v, m, d, k, x);
    }
  }

  lemma TallEdge(g: Grid, a: Side, c: Side, m: int, d: int, b: int, x: int)
    requires TallCase(g, a, c, m, d, b)
    requires InRange(c, d, g.Delta() + m) && Stepped(g, c.v, d, g.Delta() + m, x)
    ensures InGrid(g, x, g.Delta() + m)
  {
    hide Entries, Fresh;
    var k := g.Delta() + m;
    KeptApartSym(g, a.v, c.v, m, d);
    assert OfLast(c, d, k + 1);
    assert !Beyond(g, c, k + 1);
    if k != -d {
      assert Shared(g, d - 1, m - 1, k - 1);
    }
  }

  lemma TallNeighbours(g: Grid, m: int, d: int, k: int)
    requires g.Delta() < 0 && 0 <= d - m <= 1 && g.Delta() % 2 == d - m && -d <= k <= d && Par(k, d)
    requires k <= g.Delta() + m - 2
    ensures k != -d ==> Shared(g, d - 1, m - 1, k - 1)
    ensures k != d ==> Shared(g, d - 1, m - 1, k + 1)
  {
  }

  lemma TallSecondShared(g: Grid, a: Side, c: Side, m: int, d: int, b: int, k: int, x: int)
    requires TallCase(g, a, c, m, d, b) && InRange(c, d, k) && Stepped(g, c.v, d, k, x)
    requires k <= g.Delta() + m - 2
    ensures InGrid(g, x, k)
  {
    hide SideInv, Stepped, KeptApart, Shared;
    KeptApartSym(g, a.v, c.v, m, d);
    TallNeighbours(g, m, d, k);
    SharedStart(g, c.v, a.v, d, m, k, x);
  }

  lemma TallSecondPoint(g: Grid, a: Side, c: Side, m: int, d: int, b: int, k: int, x: int)
    requires TallCase(g, a, c, m, d, b) && InRange(c, d, k) && Stepped(g, c.v, d, k, x)
    ensures x - k <= g.n2
    ensures k <= g.Delta() + m ==> InGrid(g, x, k)
  {
    hide SideInv, Stepped, KeptApart;
    SteppedIsGood(g, c, d, k, x);
    if k <= g.Delta() + m - 2 {
      TallSecondShared(g, a, c, m, d, b, k, x);
    } else if k == g.Delta() + m {
      TallEdge(g, a, c, m, d, b, x);
    }
  }

  lemma TallFirstWalk(g: Grid, a: Side, c: Side, w: Walk, m: int, d: int, b: int)
    requires TallCase(g, a, c, m, d, b) && Walked(g, a, w, m) && w.k > m - w.e
    ensures w.s == 0 && w.k > g.Delta() + d
  {
    hide SideInv, Stepped, TallInv, Visited;
    TallTrimmed(g, a, c, m, d, b);
    if w.s > a.s {
      VisitedIsGood(g, a, w, m, w.bs);
      TallFirstPoint(g, a, c, m, d, b, w.bs, At(w.v, g.MaxD(), w.bs));
    }
    if w.k <= g.Delta() + d && w.e > a.e {
      VisitedIsGood(g, a, w, m, w.be);
      TallFirstPoint(g, a, c, m, d, b, w.be, At(w.v, g.MaxD(), w.be));
    }
  }

  lemma TallSecondWalk(g: Grid, a: Side, c: Side, w: Walk, m: int, d: int, b: int)
    requires TallCase(g, a, c, m, d, b) && Walked(g, c, w, d) && w.k > d - w.e
    ensures w.s == 0 && w.k > g.Delta() + m && Par(w.k, d)
  {
    hide SideInv, Stepped, KeptApart;
    if w.s > c.s {
      VisitedIsGood(g, c, w, d, w.bs);
      TallSecondPoint(g, a, c, m, d, b, w.bs, At(w.v, g.MaxD(), w.bs));
    }
    if w.k <= g.Delta() + m && w.e > c.e {
      VisitedIsGood(g, c, w, d, w.be);
      TallSecondPoint(g, a, c, m, d, b, w.be, At(w.v, g.MaxD(), w.be));
    }
  }

  lemma TallVisits(g: Grid, a: Side, c: Side, w1: Walk, w2: Walk, m: int, d: int, k: int)
    requires Shared(g, m, d, k) && g.Delta() % 2 == d - m && w1.k > g.Delta() + d && w2.k > g.Delta() + m
    requires a.s == 0 && c.s == 0
    ensures HasVisited(a, w1, m, k) && HasVisited(c, w2, d, g.Delta() - k)
  {
  }

  lemma TallSharedDiagonal(g: Grid, a: Side, c: Side, w1: Walk, w2: Walk, m: int, d: int, b: int, k: int)
    requires TallCase(g, a, c, m, d, b) && Missed(g, a, c, w1, w2, m, d)
    requires w1.k > g.Delta() + d && w2.k > g.Delta() + m && Shared(g, m, d, k)
    ensures Facing(g, w1.v, w2.v, k)
  {
    hide SideInv, KeptApart, Stepped, Walked, Apart, TallInv, HasVisited;
    TallTrimmed(g, a, c, m, d, b);
    TallVisits(g, a, c, w1, w2, m, d, k);
    var k2 := g.Delta() - k;
    VisitedIsGood(g, a, w1, m, k);
    VisitedIsGood(g, c, w2, d, k2);
    TallSecondPoint(g, a, c, m, d, b, k2, At(w2.v, g.MaxD(), k2));
    AvoidedVisited(g, w1.v, c, w2, d, k2);
    MissedInterior(g, w1.v, w2.v, k);
  }

  lemma TallKeptApart(g: Grid, a: Side, c: Side, w1: Walk, w2: Walk, m: int, d: int, b: int)
    requires TallCase(g, a, c, m, d, b) && Missed(g, a, c, w1, w2, m, d)
    ensures KeptApart(g, w1.v, w2.v, m + 1, d + 1)
  {
    hide TallInv, SideInv, Apart, Facing;
    TallFirstWalk(g, a, c, w1, m, d, b);
    TallSecondWalk(g, a, c, w2, m, d, b);
    forall k | Shared(g, m, d, k)
      ensures Facing(g, w1.v, w2.v, k)
    {
      TallSharedDiagonal(g, a, c, w1, w2, m, d, b, k);
    }
  }

  /** A diagonal that runs off the side is the last one but one that the iteration can visit. */
  lemma RunOffEnds(g: Grid, c: Side, w: Walk, d: int, j: int)
    requires Walked(g, c, w, d) && HasVisited(c, w, d, j) && OffRight(g, At(w.v, g.MaxD(), j), j)
    ensures w.e > c.e && (j < w.k - 2 ==> w.k <= d - c.e)
  {
  }

  /** The trimmed diagonal b pushes the one below it over the side too. */
  lemma TallPushed(g: Grid, a: Side, c: Side, w: Walk, m: int, d: int, b: int)
    requires TallCase(g, a, c, m, d, b) && Walked(g, c, w, d) && c.e > 0 && b - 1 < w.k
    ensures HasVisited(c, w, d, b - 1) && w.e > c.e && (b - 1 < w.k - 2 ==> w.k <= d - c.e)
  {
    hide KeptApart, SideInv, Walked;
    VisitedIsGood(g, c, w, d, b - 1);
    StartIsGood(g, c, d, b - 1);
    RunOffEnds(g, c, w, d, b - 1);
  }

  /** The diagonal above a visited one was visited in the last iteration, or is out of reach. */
  lemma TallFresh(g: Grid, a: Side, c: Side, w: Walk, m: int, d: int, b: int, k: int)
    requires TallCase(g, a, c, m, d, b) && Walked(g, c, w, d) && HasVisited(c, w, d, k) && k != d
    ensures k + 1 <= c.hi
  {
    hide Walked, KeptApart, Entries, Fresh;
    VisitedIsGood(g, c, w, d, k);
    if c.e > 0 && b - 1 < w.k {
      TallPushed(g, a, c, w, m, d, b);
    }
  }

  /** A diagonal goes over the side only next to one that has reached it. */
  lemma TallWall(g: Grid, a: Side, c: Side, w: Walk, m: int, d: int, b: int, k: int)
    requires TallCase(g, a, c, m, d, b) && Walked(g, c, w, d)
    requires HasVisited(c, w, d, k) && At(w.v, g.MaxD(), k) > g.n1
    ensures k >= -d + 2 && At(c.v, g.MaxD(), k - 1) >= g.n1
  {
    hide Entries, Fresh, Walked, KeptApart;
    var off := g.MaxD();
    VisitedIsGood(g, c, w, d, k);
    assert At(w.v, off, k) == StartX(c.v, off, d, k);
    assert k == -d ==> OfLast(c, d, k + 1) && Beyond(g, c, k + 1);
    if k != -d && k != d && At(c.v, off, k - 1) < At(c.v, off, k + 1) {
      TallFresh(g, a, c, w, m, d, b, k);
      assert OfLast(c, d, k + 1) && Beyond(g, c, k + 1);
    }
  }

  lemma TallNextWall(g: Grid, a: Side, c: Side, w: Walk, m: int, d: int, b: int, k: int)
    requires TallCase(g, a, c, m, d, b) && Walked(g, c, w, d)
    requires HasVisited(c, w, d, k) && At(w.v, g.MaxD(), k) > g.n1
    ensures k >= -d + 2 && At(w.v, g.MaxD(), k - 2) >= g.n1
  {
    hide SideInv, Walked, TallInv;
    TallTrimmed(g, a, c, m, d, b);
    TallWall(g, a, c, w, m, d, b, k);
    VisitedIsGood(g, c, w, d, k - 2);
    VisitedIsGood(g, c, w, d, k);
    StartIsGood(g, c, d, k - 2);
  }

  lemma TallFar(g: Grid, a: Side, c: Side, w1: Walk, w2: Walk, m: int, d: int, b: int, k: int)
    requires TallCase(g, a, c, m, d, b) && Missed(g, a, c, w1, w2, m, d)
    requires w1.k > g.Delta() + d && w2.k > g.Delta() + m
    requires HasVisited(c, w2, d, k) && At(w2.v, g.MaxD(), k) > g.n1
    ensures k >= g.Delta() + m + 4 && k >= -d + 2 && At(w2.v, g.MaxD(), k - 2) >= g.n1
  {
    hide SideInv, Stepped, Walked, Apart, KeptApart, TallInv;
    VisitedIsGood(g, c, w2, d, k);
    TallSecondPoint(g, a, c, m, d, b, k, At(w2.v, g.MaxD(), k));
    TallNextWall(g, a, c, w2, m, d, b, k);
    if k == g.Delta() + m + 2 {
      TallSharedDiagonal(g, a, c, w1, w2, m, d, b, -m);
    }
  }

  lemma TrimmedRight(g: Grid, a: Side, w: Walk, d: int)
    requires Walked(g, a, w, d) && w.e > a.e
    ensures HasVisited(a, w, d, w.be) && OffRight(g, At(w.v, g.MaxD(), w.be), w.be) && w.e <= d - w.be + 2
  {
  }

  lemma TallFirstTrim(g: Grid, a: Side, c: Side, w1: Walk, w2: Walk, m: int, d: int, b: int)
    requires TallCase(g, a, c, m, d, b) && Missed(g, a, c, w1, w2, m, d)
    requires w1.k > g.Delta() + d && w2.k > g.Delta() + m
    ensures w1.e <= -g.Delta() - (d - m)
  {
    hide SideInv, Stepped, Apart, KeptApart, Walked;
    if w1.e > a.e {
      TrimmedRight(g, a, w1, m);
      var k := w1.be;
      VisitedIsGood(g, a, w1, m, k);
      TallFirstPoint(g, a, c, m, d, b, k, At(w1.v, g.MaxD(), k));
      if k == g.Delta() + d {
        TallSharedDiagonal(g, a, c, w1, w2, m, d, b, k);
      }
    }
  }

  lemma TallGoesOn(g: Grid, a: Side, c: Side, w: Walk, m: int, d: int, b: int)
    requires TallCase(g, a, c, m, d, b) && Walked(g, c, w, d) && w.k > d - w.e
    ensures c.e > 0 ==> w.e > c.e
  {
    if c.e > 0 && b - 1 < w.k {
      TallPushed(g, a, c, w, m, d, b);
    }
  }

  lemma TallSecondTrim(g: Grid, a: Side, c: Side, w1: Walk, w2: Walk, m: int, d: int, b: int)
    requires TallCase(g, a, c, m, d, b) && Missed(g, a, c, w1, w2, m, d)
    requires w1.k > g.Delta() + d && w2.k > g.Delta() + m
    ensures w2.e <= -g.Delta() + (d - m)
    ensures w2.e > 0 ==> HasVisited(c, w2, d, w2.be) && At(w2.v, g.MaxD(), w2.be) > g.n1 && w2.be <= d - w2.e + 2
  {
    TallGoesOn(g, a, c, w2, m, d, b);
    if w2.e > c.e {
      TallFar(g, a, c, w1, w2, m, d, b, w2.be);
    }
  }

  lemma TallAllFar(g: Grid, a: Side, c: Side, w1: Walk, w2: Walk, m: int, d: int, b: int)
    requires TallCase(g, a, c, m, d, b) && Missed(g, a, c, w1, w2, m, d)
    requires w1.k > g.Delta() + d && w2.k > g.Delta() + m
    ensures var c' := Next(c, w2, d);
            forall k {:trigger Beyond(g, c', k)} :: OfLast(c', d + 1, k) && Beyond(g, c', k) ==>
              k >= g.Delta() + m + 4 && k >= -d + 2 && At(c'.v, g.MaxD(), k - 2) >= g.n1
  {
    hide TallCase, Missed;
    var c' := Next(c, w2, d);
    forall k | OfLast(c', d + 1, k) && Beyond(g, c', k)
      ensures k >= g.Delta() + m + 4 && k >= -d + 2 && At(c'.v, g.MaxD(), k - 2) >= g.n1
    {
      TallFar(g, a, c, w1, w2, m, d, b, k);
    }
  }

  lemma TallStep(g: Grid, a: Side, c: Side, w1: Walk, w2: Walk, m: int, d: int, b: int)
    requires TallCase(g, a, c, m, d, b) && Missed(g, a, c, w1, w2, m, d)
    ensures TallInv(g, Next(a, w1, m), Next(c, w2, d), m + 1, d + 1, w2.be)
  {
    hide Walked, SideInv, KeptApart, Apart;
    TallFirstWalk(g, a, c, w1, m, d, b);
    TallSecondWalk(g, a, c, w2, m, d, b);
    TallKeptApart(g, a, c, w1, w2, m, d, b);
    TallFirstTrim(g, a, c, w1, w2, m, d, b);
    TallSecondTrim(g, a, c, w1, w2, m, d, b);
    TallAllFar(g, a, c, w1, w2, m, d, b);
  }

  lemma TallSplit(g: Grid, a: Side, c: Side, w1: Walk, d: int, b: int, k2: int, x2: int)
    requires TallCase(g, a, c, d, d, b) && Walked(g, a, w1, d) && w1.k > d - w1.e
    requires InRange(c, d, k2) && Stepped(g, c.v, d, k2, x2) && InGrid(g, x2, k2) && Meets(g, w1.v, k2, x2)
    ensures var x := At(w1.v, g.MaxD(), g.Delta() - k2); Splits(g, x, x - (g.Delta() - k2))
  {
    hide SideInv, Stepped, KeptApart;
    var k := g.Delta() - k2;
    var x := At(w1.v, g.MaxD(), k);
    MetPoint(g, a, w1, d, k);
    TallFirstWalk(g, a, c, w1, d, d, b);
    if k <= g.Delta() + d - 2 || x == x - k == 0 {
      VisitedIsGood(g, a, w1, d, k);
      TallFirstPoint(g, a, c, d, d, b, k, x);
    }
  }
}
