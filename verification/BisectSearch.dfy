/**
 The two searches together. Whatever the clock does, a point handed on splits the problem into two
 smaller ones; and unless the clock ends it, the search finds a point exactly when the texts have a
 unit in common.
 */
module BisectSearch {
  import opened Wrappers
  import opened Texts
  import opened Bisect
  import opened BisectOverlap
  import opened BisectProgress
  import opened BisectPaths

  /** Some unit of the one text occurs in the other. */
  ghost predicate ShareUnit(text1: Text, text2: Text)
  {
    exists i, j :: Agree(text1, text2, true, i, j)
  }

  /** The reverse search sees the same cells from the other corner. */
  lemma Mirrored(text1: Text, text2: Text, i: int, j: int)
    ensures Agree(text1, text2, true, i, j) <==> Agree(text1, text2, false, |text1| - i - 1, |text2| - j - 1)
  {
  }

  // ---------------------------------------------------------------------------------------
  // One search over its iterations.

  ghost predicate Progress(g: Grid, a: Side, d: int)
  {
    if g.Delta() >= 0 then WideProgress(g, a, d) else TallProgress(g, a, d)
  }

  ghost predicate Gained(g: Grid, a: Side, d: int)
  {
    d >= 1 && if g.Delta() >= 0 then WideGained(g, a, d) else TallGained(g, a, d)
  }

  /** No point of the iteration lies beyond the far side of the longer text. */
  ghost predicate Inside(g: Grid, a: Side, w: Walk, d: int)
  {
    if g.Delta() >= 0 then NoneRight(g, a, w, d) else NoneBelow(g, a, w, d)
  }

  /** The search has gained from every cell it came by where the texts agree. */
  ghost predicate CellsGained(text1: Text, text2: Text, front: bool, g: Grid, a: Side, d: int)
  {
    forall i, j {:trigger Agree(text1, text2, front, i, j)} ::
      Agree(text1, text2, front, i, j) && i + j < d ==> Gained(g, a, d)
  }

  /** What is known of one search when iteration d starts, and of the texts from it. */
  ghost predicate Tracked(text1: Text, text2: Text, front: bool, g: Grid, a: Side, d: int)
  {
    && Progress(g, a, d) && CellsGained(text1, text2, front, g, a, d)
    && Followed(text1, text2, front, g, a.v, d)
  }

  lemma GainedStep(g: Grid, a: Side, w: Walk, d: int)
    requires Completed(g, a, w, d) && Inside(g, a, w, d) && Progress(g, a, d) && Gained(g, a, d)
    ensures Gained(g, Next(a, w, d), d + 1)
  {
    hide Completed, NoneRight, NoneBelow, Full, WideTrims, TallTrims, WideExact, TallExact, WideGained, TallGained;
    if g.Delta() >= 0 {
      WideGainedStep(g, a, w, d);
    } else {
      TallGainedStep(g, a, w, d);
    }
  }

  lemma CellStep(text1: Text, text2: Text, front: bool, g: Grid, a: Side, w: Walk, d: int, i: int, j: int)
    requires Completed(g, a, w, d) && Inside(g, a, w, d) && Progress(g, a, d)
    requires g == Grid(|text1|, |text2|) && Traced(text1, text2, front, g, a.v, w.v, d, -d + a.s, w.k)
    requires Agree(text1, text2, front, i, j) && i + j == d
    ensures Gained(g, Next(a, w, d), d + 1)
  {
    hide Completed, NoneRight, NoneBelow, WideProgress, TallProgress, Traced, WideGained, TallGained;
    if g.Delta() >= 0 {
      WideCellStep(text1, text2, front, g, a, w, d, i, j);
    } else {
      TallCellStep(text1, text2, front, g, a, w, d, i, j);
    }
  }

  lemma ProgressStep(g: Grid, a: Side, w: Walk, d: int)
    requires Completed(g, a, w, d) && Inside(g, a, w, d) && Progress(g, a, d)
    ensures Progress(g, Next(a, w, d), d + 1) && Full(g, a, d)
  {
    hide Completed, NoneRight, NoneBelow, WideGained, TallGained, WideExact, TallExact, WideTrims, TallTrims, Full;
    if g.Delta() >= 0 {
      WideProgressStep(g, a, w, d);
    } else {
      TallProgressStep(g, a, w, d);
    }
  }

  lemma TrackedStep(text1: Text, text2: Text, front: bool, g: Grid, a: Side, w: Walk, d: int)
    requires Completed(g, a, w, d) && Inside(g, a, w, d) && Tracked(text1, text2, front, g, a, d)
    requires g == Grid(|text1|, |text2|) && Traced(text1, text2, front, g, a.v, w.v, d, -d + a.s, w.k)
    ensures Tracked(text1, text2, front, g, Next(a, w, d), d + 1)
  {
    hide Completed, Inside, Progress, Gained, Traced, Followed, Agree, Full;
    ProgressStep(g, a, w, d);
    forall i, j {:trigger Agree(text1, text2, front, i, j)} | Agree(text1, text2, front, i, j) && i + j < d + 1
      ensures Gained(g, Next(a, w, d), d + 1)
    {
      if i + j == d {
        CellStep(text1, text2, front, g, a, w, d, i, j);
      } else {
        GainedStep(g, a, w, d);
      }
    }
    FollowedStep(text1, text2, front, g, a, w, d);
  }

  /** The first two iterations visit every diagonal. */
  lemma FirstWhole(g: Grid, a: Side, w: Walk, d: int)
    requires Completed(g, a, w, d) && d <= 1
    ensures 0 <= d && a.s == a.e == w.s == w.e == 0 && w.k == d + 2
  {
    NoEarlyTrims(g, a, w, d);
  }

  /** The first two iterations stay inside the grid. */
  lemma InsideAtFirst(g: Grid, a: Side, w: Walk, d: int)
    requires Completed(g, a, w, d) && d <= 1
    ensures Inside(g, a, w, d)
  {
    hide SideInv, Walked, Stepped;
    FirstWhole(g, a, w, d);
    forall k {:trigger At(w.v, g.MaxD(), k)} | HasVisited(a, w, d, k) ensures InGrid(g, At(w.v, g.MaxD(), k), k) {
      VisitedIsGood(g, a, w, d, k);
    }
  }

  // ---------------------------------------------------------------------------------------
  // Both searches in step.

  ghost predicate PairInv(g: Grid, a: Side, c: Side, m: int, d: int, b: int)
  {
    if g.Delta() >= 0 then WideInv(g, a, c, m, d, b) else TallInv(g, a, c, m, d, b)
  }

  lemma PairFirstInside(g: Grid, a: Side, c: Side, w: Walk, m: int, d: int, b: int)
    requires Paired(g, a, c, m, d) && PairInv(g, a, c, m, d, b) && Completed(g, a, w, m)
    ensures Inside(g, a, w, m)
  {
    hide SideInv, WideInv, Walked, Stepped, KeptApart;
    if g.Delta() >= 0 {
      WideFirstWalk(g, a, c, w, m, d, b);
      forall k {:trigger At(w.v, g.MaxD(), k)} | HasVisited(a, w, m, k) ensures At(w.v, g.MaxD(), k) <= g.n1 {
        VisitedIsGood(g, a, w, m, k);
        WideFirstPoint(g, a, c, m, d, b, k, At(w.v, g.MaxD(), k));
      }
    } else {
      TallFirstWalk(g, a, c, w, m, d, b);
      forall k {:trigger At(w.v, g.MaxD(), k)} | HasVisited(a, w, m, k) ensures At(w.v, g.MaxD(), k) - k <= g.n2 {
        VisitedIsGood(g, a, w, m, k);
        TallFirstPoint(g, a, c, m, d, b, k, At(w.v, g.MaxD(), k));
      }
    }
  }

  lemma PairSecondInside(g: Grid, a: Side, c: Side, w: Walk, m: int, d: int, b: int)
    requires Paired(g, a, c, m, d) && PairInv(g, a, c, m, d, b) && Completed(g, c, w, d)
    ensures Inside(g, c, w, d)
  {
    hide SideInv, WideInv, Walked, Stepped, KeptApart;
    if g.Delta() >= 0 {
      WideSecondWalk(g, a, c, w, m, d, b);
      forall k {:trigger At(w.v, g.MaxD(), k)} | HasVisited(c, w, d, k) ensures At(w.v, g.MaxD(), k) <= g.n1 {
        VisitedIsGood(g, c, w, d, k);
        WideSecondPoint(g, a, c, m, d, b, k, At(w.v, g.MaxD(), k));
      }
    } else {
      TallSecondWalk(g, a, c, w, m, d, b);
      forall k {:trigger At(w.v, g.MaxD(), k)} | HasVisited(c, w, d, k) ensures At(w.v, g.MaxD(), k) - k <= g.n2 {
        VisitedIsGood(g, c, w, d, k);
        TallSecondPoint(g, a, c, m, d, b, k, At(w.v, g.MaxD(), k));
      }
    }
  }

  lemma PairStep(g: Grid, a: Side, c: Side, w1: Walk, w2: Walk, m: int, d: int, b: int)
    requires Paired(g, a, c, m, d) && PairInv(g, a, c, m, d, b) && Missed(g, a, c, w1, w2, m, d)
    ensures PairInv(g, Next(a, w1, m), Next(c, w2, d), m + 1, d + 1, if g.Delta() >= 0 then w2.bs else w2.be)
  {
    hide Paired, Missed, WideInv, TallInv;
    if g.Delta() >= 0 {
      WideStep(g, a, c, w1, w2, m, d, b);
    } else {
      TallStep(g, a, c, w1, w2, m, d, b);
    }
  }

  /** Two points that have not met count less than all units. */
  lemma FacingSums(g: Grid, v1: seq<int>, v2: seq<int>, m: int, d: int, k: int)
    requires KeptApart(g, v1, v2, m, d) && Shared(g, m - 1, d - 1, k)
    ensures Sum(At(v1, g.MaxD(), k), k) + Sum(At(v2, g.MaxD(), g.Delta() - k), g.Delta() - k) <= g.n1 + g.n2 - 2
  {
  }

  lemma FullAt(g: Grid, a: Side, d: int, k: int)
    requires Full(g, a, d) && OfLast(a, d, k)
    ensures Sum(At(a.v, g.MaxD(), k), k) >= d - 1
  {
  }

  lemma ParMirrored(g: Grid, m: int, d: int)
    requires Par(g.Delta(), d - m)
    ensures Par(g.Delta(), m - d)
  {
  }

  lemma ParFaces(g: Grid, m: int, d: int, k: int)
    requires Par(g.Delta(), d - m) && Par(k, m - 1)
    ensures Par(g.Delta() - k, d - 1)
  {
  }

  /** A diagonal on which a search is ahead belongs to the other search as well. */
  lemma WideFaces(g: Grid, a: Side, c: Side, m: int, d: int, k: int)
    requires g.Delta() >= 0 && m + d == g.n1 + g.n2 && -1 <= d - m <= 1 && Par(g.Delta(), d - m)
    requires Ranges(m, a.s, a.e, a.lo, a.hi) && Ranges(d, c.s, c.e, c.lo, c.hi) && 1 <= m && 1 <= d
    requires c.e == 0 && c.s <= g.Delta() + (d - m)
    requires OfLast(a, m, k) && k >= m + 1 - 2 * g.n2
    ensures OfLast(c, d, g.Delta() - k) && Shared(g, m - 1, d - 1, k) && Shared(g, d - 1, m - 1, g.Delta() - k)
  {
    hide Par;
    ParFaces(g, m, d, k);
  }

  lemma WideMeets(g: Grid, a: Side, c: Side, m: int, d: int, b: int)
    requires g.Valid() && g.Delta() >= 0 && 1 <= m <= d <= m + 1 && m + d == g.n1 + g.n2 && Par(g.Delta(), d - m)
    requires SideInv(g, a, m) && SideInv(g, c, d) && WideInv(g, a, c, m, d, b) && Full(g, a, m) && Full(g, c, d)
    ensures !WideGained(g, a, m) && !WideGained(g, c, d)
  {
    hide Entries, Fresh, KeptApart, Full, Ranges, Shared, Par, WideInv;
    WideTrimmed(g, a, c, m, d, b);
    forall k {:trigger At(a.v, g.MaxD(), k)} | OfLast(a, m, k) && k >= m + 1 - 2 * g.n2 && k + 1 >= -m + a.s
      ensures Sum(At(a.v, g.MaxD(), k), k) <= m
    {
      WideFaces(g, a, c, m, d, k);
      FacingSums(g, a.v, c.v, m, d, k);
      FullAt(g, c, d, g.Delta() - k);
    }
    forall k {:trigger At(c.v, g.MaxD(), k)} | OfLast(c, d, k) && k >= d + 1 - 2 * g.n2 && k + 1 >= -d + c.s
      ensures Sum(At(c.v, g.MaxD(), k), k) <= d
    {
      ParMirrored(g, m, d);
      WideFaces(g, c, a, d, m, k);
      FacingSums(g, a.v, c.v, m, d, g.Delta() - k);
      FullAt(g, a, m, g.Delta() - k);
    }
  }

  /** A diagonal on which a search is ahead belongs to the other search as well. */
  lemma TallFaces(g: Grid, a: Side, c: Side, m: int, d: int, k: int)
    requires g.Delta() < 0 && m + d == g.n1 + g.n2 && -1 <= d - m <= 1 && Par(g.Delta(), d - m)
    requires Ranges(m, a.s, a.e, a.lo, a.hi) && Ranges(d, c.s, c.e, c.lo, c.hi) && 1 <= m && 1 <= d
    requires c.s == 0 && c.e <= -g.Delta() + (d - m)
    requires OfLast(a, m, k) && k <= 2 * g.n1 - m - 1
    ensures OfLast(c, d, g.Delta() - k) && Shared(g, m - 1, d - 1, k) && Shared(g, d - 1, m - 1, g.Delta() - k)
  {
    hide Par;
    ParFaces(g, m, d, k);
  }

  lemma TallMeets(g: Grid, a: Side, c: Side, m: int, d: int, b: int)
    requires g.Valid() && g.Delta() < 0 && 1 <= m <= d <= m + 1 && m + d == g.n1 + g.n2 && Par(g.Delta(), d - m)
    requires SideInv(g, a, m) && SideInv(g, c, d) && TallInv(g, a, c, m, d, b) && Full(g, a, m) && Full(g, c, d)
    ensures !TallGained(g, a, m) && !TallGained(g, c, d)
  {
    hide Entries, Fresh, KeptApart, Full, Ranges, Shared, Par, TallInv;
    TallTrimmed(g, a, c, m, d, b);
    forall k {:trigger At(a.v, g.MaxD(), k)} | OfLast(a, m, k) && k <= 2 * g.n1 - m - 1 && k - 1 <= m - a.e
      ensures Sum(At(a.v, g.MaxD(), k), k) <= m
    {
      TallFaces(g, a, c, m, d, k);
      FacingSums(g, a.v, c.v, m, d, k);
      FullAt(g, c, d, g.Delta() - k);
    }
    forall k {:trigger At(c.v, g.MaxD(), k)} | OfLast(c, d, k) && k <= 2 * g.n1 - d - 1 && k - 1 <= d - c.e
      ensures Sum(At(c.v, g.MaxD(), k), k) <= d
    {
      ParMirrored(g, m, d);
      TallFaces(g, c, a, d, m, k);
      FacingSums(g, a.v, c.v, m, d, g.Delta() - k);
      FullAt(g, a, m, g.Delta() - k);
    }
  }

  /** When their iterations together have counted all units without a meeting, neither search has gained anything. */
  lemma GainsMeet(g: Grid, a: Side, c: Side, m: int, d: int, b: int)
    requires g.Valid() && 1 <= m <= d <= m + 1 && m + d == g.n1 + g.n2 && Par(g.Delta(), d - m)
    requires SideInv(g, a, m) && SideInv(g, c, d) && PairInv(g, a, c, m, d, b) && Progress(g, a, m) && Progress(g, c, d)
    ensures !Gained(g, a, m) && !Gained(g, c, d)
  {
    hide SideInv, WideInv, TallInv, Full, WideExact, TallExact, WideGained, TallGained, WideTrims, TallTrims;
    if g.Delta() >= 0 {
      WideMeets(g, a, c, m, d, b);
    } else {
      TallMeets(g, a, c, m, d, b);
    }
  }

  // ---------------------------------------------------------------------------------------
  // The search as a whole.

  /**
   Both searches when an iteration starts. When the lengths differ by an odd number, the front
   search is compared with what the reverse search knew one iteration before, `past`, and then
   recorded, `walk`.
   */
  datatype Search = Search(front: Side, reverse: Side, past: Side, walk: Walk, b: int)

  function Corners(text1: Text, text2: Text): Grid { Grid(|text1|, |text2|) }

  ghost predicate Tracks(text1: Text, text2: Text, front: bool, a: Side, w: Walk, d: int)
  {
    var g := Corners(text1, text2);
    && Completed(g, a, w, d) && Tracked(text1, text2, front, g, a, d)
    && Traced(text1, text2, front, g, a.v, w.v, d, -d + a.s, w.k)
  }

  ghost predicate EvenInv(text1: Text, text2: Text, st: Search, d: int)
  {
    var g := Corners(text1, text2);
    && Tracked(text1, text2, false, g, st.reverse, d)
    && (d >= 1 ==> PairInv(g, st.front, st.reverse, d, d, st.b))
  }

  ghost predicate UnevenInv(text1: Text, text2: Text, st: Search, d: int)
  {
    var g := Corners(text1, text2);
    && OddInv(g, st.front.v, st.reverse.v, d)
    && (d == 0 ==> Tracked(text1, text2, false, g, st.reverse, 0))
    && (d >= 1 ==> Tracks(text1, text2, false, st.past, st.walk, d - 1) && st.reverse == Next(st.past, st.walk, d - 1))
    && (d >= 2 ==> PairInv(g, st.past, st.front, d - 1, d, st.b))
  }

  /** Both searches are sound, no split they can still find is useless, and no cell they came by is forgotten. */
  ghost predicate SearchInv(text1: Text, text2: Text, st: Search, d: int)
  {
    var g := Corners(text1, text2);
    && g.Valid() && 0 <= d && SideInv(g, st.front, d) && SideInv(g, st.reverse, d)
    && Tracked(text1, text2, true, g, st.front, d)
    && if g.Delta() % 2 == 0 then EvenInv(text1, text2, st, d) else UnevenInv(text1, text2, st, d)
  }

  /** What the next iteration starts from when no meeting was found. */
  function NextSearch(g: Grid, st: Search, w1: Walk, w2: Walk, d: int): Search
  {
    var w := if g.Delta() % 2 == 0 then w2 else w1;
    Search(Next(st.front, w1, d), Next(st.reverse, w2, d), st.reverse, w2,
           if d == 0 || (d == 1 && g.Delta() % 2 != 0) then 0 else if g.Delta() >= 0 then w.bs else w.be)
  }

  lemma FirstWalk(g: Grid, a: Side, w: Walk)
    requires Completed(g, a, w, 0)
    ensures Next(a, w, 0) == Side(w.v, 0, 0, 0, 0) && At(w.v, g.MaxD(), 0) == 0
    ensures forall j :: j != 0 && j != 1 ==> At(w.v, g.MaxD(), j) == -1
  {
    NoEarlyTrims(g, a, w, 0);
    VisitedIsGood(g, a, w, 0, 0);
    SideStep(g, a, w, 0);
    forall j | j != 0 && j != 1
      ensures At(w.v, g.MaxD(), j) == -1
    {
      assert Entry(g, At(w.v, g.MaxD(), j), 1, j);
    }
  }

  lemma FirstEvenStep(g: Grid, a: Side, c: Side, w1: Walk, w2: Walk)
    requires g.Delta() % 2 == 0 && Completed(g, a, w1, 0) && Completed(g, c, w2, 0)
    ensures PairInv(g, Next(a, w1, 0), Next(c, w2, 0), 1, 1, 0)
  {
    FirstWalk(g, a, w1);
    FirstWalk(g, c, w2);
  }

  lemma FirstFacing(g: Grid, a: Side, c: Side, w1: Walk, w2: Walk)
    requires Completed(g, a, w1, 0) && Completed(g, c, w2, 1)
    requires Apart(g, w2.v, w1.v, 1, -1 + c.s, w2.k) && Shared(g, 0, 1, 0) && g.Delta() % 2 != 0
    ensures Facing(g, w1.v, w2.v, 0)
  {
    hide SideInv, Walked, Apart;
    FirstWalk(g, a, w1);
    FirstWhole(g, c, w2, 1);
    VisitedIsGood(g, c, w2, 1, g.Delta());
    Avoided(g, w2.v, w1.v, 1, -1 + c.s, w2.k, g.Delta());
  }

  lemma FirstOddStep(g: Grid, a: Side, c: Side, w1: Walk, w2: Walk)
    requires g.Delta() % 2 != 0 && Completed(g, a, w1, 0) && Completed(g, c, w2, 1)
    requires Apart(g, w2.v, w1.v, 1, -1 + c.s, w2.k)
    ensures PairInv(g, Next(a, w1, 0), Next(c, w2, 1), 1, 2, 0)
  {
    hide SideInv, Walked, Facing, Apart;
    FirstWalk(g, a, w1);
    if Shared(g, 0, 1, 0) {
      FirstFacing(g, a, c, w1, w2);
    }
    FirstWhole(g, c, w2, 1);
    forall k | HasVisited(c, w2, 1, k)
      ensures InGrid(g, At(w2.v, g.MaxD(), k), k)
    {
      VisitedIsGood(g, c, w2, 1, k);
    }
  }

  /** In the first iteration neither search has left its corner. */
  lemma FirstEvenSplit(g: Grid, a: Side, c: Side, w1: Walk, k: int, x: int)
    requires g.Delta() % 2 == 0 && Completed(g, a, w1, 0) && SideInv(g, c, 0)
    requires InRange(c, 0, k) && Stepped(g, c.v, 0, k, x)
    ensures !Meets(g, w1.v, k, x)
  {
    FirstWalk(g, a, w1);
  }

  lemma OddStep(g: Grid, a: Side, c: Side, w1: Walk, w2: Walk, d: int)
    requires Completed(g, a, w1, d) && Completed(g, c, w2, d) && OddInv(g, a.v, c.v, d)
    requires g.Delta() % 2 != 0 && Apart(g, w1.v, c.v, d, -d + a.s, w1.k)
    ensures OddInv(g, w1.v, w2.v, d + 1)
  {
    OddFront(g, a.v, w1.v, c.v, d, -d + a.s, w1.k);
    OddReverse(g, w1.v, c, w2, d);
  }

  lemma EvenStep(text1: Text, text2: Text, st: Search, w1: Walk, w2: Walk, d: int)
    requires var g := Corners(text1, text2);
             && SearchInv(text1, text2, st, d) && g.Delta() % 2 == 0
             && Tracks(text1, text2, true, st.front, w1, d) && Tracks(text1, text2, false, st.reverse, w2, d)
             && Apart(g, w2.v, w1.v, d, -d + st.reverse.s, w2.k)
    ensures SearchInv(text1, text2, NextSearch(Corners(text1, text2), st, w1, w2, d), d + 1)
  {
    hide SideInv, Walked, Tracked, Traced, PairInv, Apart, Inside;
    var g := Corners(text1, text2);
    SideStep(g, st.front, w1, d);
    SideStep(g, st.reverse, w2, d);
    if d == 0 {
      FirstEvenStep(g, st.front, st.reverse, w1, w2);
      InsideAtFirst(g, st.front, w1, d);
      InsideAtFirst(g, st.reverse, w2, d);
    } else {
      PairStep(g, st.front, st.reverse, w1, w2, d, d, st.b);
      PairFirstInside(g, st.front, st.reverse, w1, d, d, st.b);
      PairSecondInside(g, st.front, st.reverse, w2, d, d, st.b);
    }
    TrackedStep(text1, text2, true, g, st.front, w1, d);
    TrackedStep(text1, text2, false, g, st.reverse, w2, d);
  }

  /** The reverse search one iteration behind, and the front search. */
  lemma UnevenPair(text1: Text, text2: Text, st: Search, w1: Walk, w2: Walk, d: int)
    requires var g := Corners(text1, text2);
             && SearchInv(text1, text2, st, d) && g.Delta() % 2 != 0 && d >= 1
             && Completed(g, st.front, w1, d) && Apart(g, w1.v, st.reverse.v, d, -d + st.front.s, w1.k)
    ensures var g := Corners(text1, text2);
            && Inside(g, st.front, w1, d) && Inside(g, st.past, st.walk, d - 1)
            && PairInv(g, st.reverse, Next(st.front, w1, d), d, d + 1, NextSearch(g, st, w1, w2, d).b)
  {
    hide SideInv, Walked, Tracked, Traced, PairInv, Apart, Inside, OddInv;
    var g := Corners(text1, text2);
    if d == 1 {
      FirstOddStep(g, st.past, st.front, st.walk, w1);
      InsideAtFirst(g, st.front, w1, d);
      InsideAtFirst(g, st.past, st.walk, d - 1);
    } else {
      PairStep(g, st.past, st.front, st.walk, w1, d - 1, d, st.b);
      PairFirstInside(g, st.past, st.front, st.walk, d - 1, d, st.b);
      PairSecondInside(g, st.past, st.front, w1, d - 1, d, st.b);
    }
  }

  lemma UnevenStep(text1: Text, text2: Text, st: Search, w1: Walk, w2: Walk, d: int)
    requires var g := Corners(text1, text2);
             && SearchInv(text1, text2, st, d) && g.Delta() % 2 != 0
             && Tracks(text1, text2, true, st.front, w1, d) && Completed(g, st.reverse, w2, d)
             && Traced(text1, text2, false, g, st.reverse.v, w2.v, d, -d + st.reverse.s, w2.k)
             && Apart(g, w1.v, st.reverse.v, d, -d + st.front.s, w1.k)
    ensures SearchInv(text1, text2, NextSearch(Corners(text1, text2), st, w1, w2, d), d + 1)
  {
    hide SideInv, Walked, Tracked, Traced, PairInv, Apart, Inside, OddInv;
    var g := Corners(text1, text2);
    SideStep(g, st.front, w1, d);
    SideStep(g, st.reverse, w2, d);
    OddStep(g, st.front, st.reverse, w1, w2, d);
    if d == 0 {
      InsideAtFirst(g, st.front, w1, d);
    } else {
      UnevenPair(text1, text2, st, w1, w2, d);
      TrackedStep(text1, text2, false, g, st.past, st.walk, d - 1);
    }
    TrackedStep(text1, text2, true, g, st.front, w1, d);
  }

  lemma SearchStep(text1: Text, text2: Text, st: Search, w1: Walk, w2: Walk, d: int)
    requires var g := Corners(text1, text2);
             && SearchInv(text1, text2, st, d)
             && Completed(g, st.front, w1, d) && Completed(g, st.reverse, w2, d)
             && Traced(text1, text2, true, g, st.front.v, w1.v, d, -d + st.front.s, w1.k)
             && Traced(text1, text2, false, g, st.reverse.v, w2.v, d, -d + st.reverse.s, w2.k)
             && if g.Delta() % 2 != 0 then Apart(g, w1.v, st.reverse.v, d, -d + st.front.s, w1.k)
                else Apart(g, w2.v, w1.v, d, -d + st.reverse.s, w2.k)
    ensures SearchInv(text1, text2, NextSearch(Corners(text1, text2), st, w1, w2, d), d + 1)
  {
    hide SideInv, Walked, Tracked, Traced, PairInv, Apart, OddInv;
    if Corners(text1, text2).Delta() % 2 == 0 {
      EvenStep(text1, text2, st, w1, w2, d);
    } else {
      UnevenStep(text1, text2, st, w1, w2, d);
    }
  }

  /** A search that starts has not come by any cell. */
  lemma TrackedAtFirst(text1: Text, text2: Text, front: bool, a: Side)
    requires var g := Corners(text1, text2); g.Valid() && SideInv(g, a, 0) && a.lo == a.hi == 0
    ensures Tracked(text1, text2, front, Corners(text1, text2), a, 0)
  {
    var g := Corners(text1, text2);
    forall j {:trigger At(a.v, g.MaxD(), j)} | At(a.v, g.MaxD(), j) >= 0
      ensures At(a.v, g.MaxD(), j) == 0 && j == 1
    {
      assert Entry(g, At(a.v, g.MaxD(), j), 0, j);
    }
  }

  lemma SearchStarts(text1: Text, text2: Text, v: seq<int>, w: Walk)
    requires var g := Corners(text1, text2); g.Valid() && |v| == 2 * g.MaxD() && v[g.MaxD() + 1] == 0
    requires forall i :: 0 <= i < |v| && i != Corners(text1, text2).MaxD() + 1 ==> v[i] == -1
    ensures var a := Side(v, 0, 0, 0, 0); SearchInv(text1, text2, Search(a, a, a, w, 0), 0)
  {
    hide Tracked;
    var g, a := Corners(text1, text2), Side(v, 0, 0, 0, 0);
    forall j
      ensures Entry(g, At(v, g.MaxD(), j), 0, j)
    {
    }
    TrackedAtFirst(text1, text2, true, a);
    TrackedAtFirst(text1, text2, false, a);
  }

  lemma SearchSides(text1: Text, text2: Text, st: Search, d: int)
    requires SearchInv(text1, text2, st, d)
    ensures SideInv(Corners(text1, text2), st.front, d) && SideInv(Corners(text1, text2), st.reverse, d)
  {
  }

  // ---------------------------------------------------------------------------------------
  // What a meeting means.

  lemma FrontSplit(text1: Text, text2: Text, st: Search, d: int, k: int, x: int)
    requires var g := Corners(text1, text2);
             && SearchInv(text1, text2, st, d) && 0 <= d < g.MaxD() && g.Delta() % 2 != 0
             && InRange(st.front, d, k) && Stepped(g, st.front.v, d, k, x) && InGrid(g, x, k)
             && Meets(g, st.reverse.v, k, x)
    ensures Splits(Corners(text1, text2), x, x - k)
  {
    OddSplit(Corners(text1, text2), st.front, st.reverse.v, d, k, x);
  }

  lemma ReverseSplit(text1: Text, text2: Text, st: Search, w1: Walk, d: int, k2: int, x2: int)
    requires var g := Corners(text1, text2);
             && SearchInv(text1, text2, st, d) && g.Delta() % 2 == 0 && Completed(g, st.front, w1, d)
             && InRange(st.reverse, d, k2) && Stepped(g, st.reverse.v, d, k2, x2) && InGrid(g, x2, k2)
             && Meets(g, w1.v, k2, x2)
    ensures var g := Corners(text1, text2);
            var x := At(w1.v, g.MaxD(), g.Delta() - k2); Splits(g, x, x - (g.Delta() - k2))
  {
    hide SideInv, Walked, WideInv, TallInv, Stepped, Meets, Tracked;
    var g := Corners(text1, text2);
    if d == 0 {
      FirstEvenSplit(g, st.front, st.reverse, w1, k2, x2);
    } else if g.Delta() >= 0 {
      WideSplit(g, st.front, st.reverse, w1, d, st.b, k2, x2);
    } else {
      TallSplit(g, st.front, st.reverse, w1, d, st.b, k2, x2);
    }
  }

  /** Paths of d edits from the one corner and of m edits from the other that meet. */
  lemma PathsMeet(text1: Text, text2: Text, front: bool, o: seq<int>, m: int, d: int, k: int, x: int)
    requires var g := Corners(text1, text2);
             && Reached(text1, text2, front, k, x, d) && Followed(text1, text2, !front, g, o, m + 1)
             && Meets(g, o, k, x) && At(o, g.MaxD(), g.Delta() - k) >= -1 && m + d < g.n1 + g.n2
    ensures var g := Corners(text1, text2); var y := At(o, g.MaxD(), g.Delta() - k);
            if front then SplitShares(text1, text2, x, x - k) else SplitShares(text1, text2, y, y - (g.Delta() - k))
  {
    hide Common, SplitShares;
    var g := Corners(text1, text2);
    var y := At(o, g.MaxD(), g.Delta() - k);
    if front {
      MeetingShares(text1, text2, k, x, y, d, m);
    } else {
      MeetingShares(text1, text2, g.Delta() - k, y, x, m, d);
    }
  }

  lemma FollowedReverse(text1: Text, text2: Text, st: Search, d: int)
    requires SearchInv(text1, text2, st, d) && Corners(text1, text2).Delta() % 2 != 0
    ensures Followed(text1, text2, false, Corners(text1, text2), st.reverse.v, d)
  {
    hide SideInv, Followed, Traced, Progress, CellsGained, Completed, OddInv, PairInv;
    if d >= 1 {
      FollowedStep(text1, text2, false, Corners(text1, text2), st.past, st.walk, d - 1);
    }
  }

  /** Where a front search meets the reverse search, some unit beside the meeting is in both texts. */
  lemma FrontShares(text1: Text, text2: Text, st: Search, d: int, k: int, x: int)
    requires var g := Corners(text1, text2);
             && SearchInv(text1, text2, st, d) && 0 <= d < g.MaxD() && g.Delta() % 2 != 0
             && InRange(st.front, d, k) && Stepped(g, st.front.v, d, k, x)
             && Slid(text1, text2, true, g, st.front.v, d, k, x) && Meets(g, st.reverse.v, k, x)
    ensures SplitShares(text1, text2, x, x - k)
  {
    hide SideInv, Followed, Reached, Progress, CellsGained, Slid, Stepped, UnevenInv, Meets, SplitShares, Grid.MaxD;
    var g := Corners(text1, text2);
    UnitsLeft(g, d);
    FollowedReverse(text1, text2, st, d);
    PointReached(text1, text2, true, g, st.front, d, k, x);
    RecordedAt(g, st.reverse, d, g.Delta() - k);
    PathsMeet(text1, text2, true, st.reverse.v, d - 1, d, k, x);
  }

  /** The edits of both paths do not use up all units before the last iteration. */
  lemma UnitsLeft(g: Grid, d: int)
    requires g.Valid() && d < g.MaxD()
    ensures if g.Delta() % 2 == 0 then 2 * d < g.n1 + g.n2 else 2 * d - 1 < g.n1 + g.n2
  {
  }

  lemma RecordedAt(g: Grid, a: Side, d: int, k: int)
    requires SideInv(g, a, d)
    ensures At(a.v, g.MaxD(), k) >= -1
  {
    assert Entry(g, At(a.v, g.MaxD(), k), d, k);
  }

  lemma ReverseShares(text1: Text, text2: Text, st: Search, w1: Walk, d: int, k: int, x: int)
    requires var g := Corners(text1, text2);
             && SearchInv(text1, text2, st, d) && g.Delta() % 2 == 0 && Completed(g, st.front, w1, d)
             && Traced(text1, text2, true, g, st.front.v, w1.v, d, -d + st.front.s, w1.k)
             && InRange(st.reverse, d, k) && Stepped(g, st.reverse.v, d, k, x)
             && Slid(text1, text2, false, g, st.reverse.v, d, k, x) && Meets(g, w1.v, k, x)
    ensures var g := Corners(text1, text2); var y := At(w1.v, g.MaxD(), g.Delta() - k);
            SplitShares(text1, text2, y, y - (g.Delta() - k))
  {
    hide SideInv, Followed, Reached, Progress, CellsGained, Slid, Stepped, Meets, Traced, Walked, SplitShares, PairInv,
         Grid.MaxD;
    var g := Corners(text1, text2);
    UnitsLeft(g, d);
    FollowedStep(text1, text2, true, g, st.front, w1, d);
    PointReached(text1, text2, false, g, st.reverse, d, k, x);
    SideStep(g, st.front, w1, d);
    RecordedAt(g, Next(st.front, w1, d), d + 1, g.Delta() - k);
    PathsMeet(text1, text2, false, w1.v, d, d, k, x);
  }

  /** One of the two parts of a split shares a unit. */
  ghost predicate HalvesShare(text1: Text, text2: Text, x: int, y: int)
  {
    || ShareUnit(Substring(text1, 0, x), Substring(text2, 0, y))
    || ShareUnit(SubstringFrom(text1, x), SubstringFrom(text2, y))
  }

  lemma AgreeBefore(text1: Text, text2: Text, x: int, y: int, i: int, j: int)
    requires Agree(text1, text2, true, i, j) && i < x && j < y
    ensures ShareUnit(Substring(text1, 0, x), Substring(text2, 0, y))
  {
    var a, b := Substring(text1, 0, x), Substring(text2, 0, y);
    assert a == text1[..Clamp(x, |text1|)] && b == text2[..Clamp(y, |text2|)];
    assert Agree(a, b, true, i, j);
  }

  lemma AgreeBehind(text1: Text, text2: Text, x: int, y: int, i: int, j: int)
    requires Agree(text1, text2, true, i, j) && 0 <= x <= i && 0 <= y <= j
    ensures ShareUnit(SubstringFrom(text1, x), SubstringFrom(text2, y))
  {
    var a, b := SubstringFrom(text1, x), SubstringFrom(text2, y);
    assert a == text1[x..] && b == text2[y..];
    assert a[i - x] == text1[i] && b[j - y] == text2[j];
    assert Agree(a, b, true, i - x, j - y);
  }

  lemma HalfShares(text1: Text, text2: Text, x: int, y: int)
    requires SplitShares(text1, text2, x, y) && x >= 0 && y >= 0
    ensures HalvesShare(text1, text2, x, y) && ShareUnit(text1, text2)
  {
    hide Agree, Substring, SubstringFrom;
    if i, j :| i < x && j < y && Agree(text1, text2, true, i, j) {
      AgreeBefore(text1, text2, x, y, i, j);
      assert Agree(text1, text2, true, i, j);
    } else {
      var i, j :| i < |text1| - x && j < |text2| - y && Agree(text1, text2, false, i, j);
      Mirrored(text1, text2, |text1| - i - 1, |text2| - j - 1);
      AgreeBehind(text1, text2, x, y, |text1| - i - 1, |text2| - j - 1);
    }
  }

  /** What a meeting found by the front search makes of the problem. */
  lemma FrontMeets(text1: Text, text2: Text, st: Search, d: int, k: int, x: int, y: int)
    requires var g := Corners(text1, text2);
             && SearchInv(text1, text2, st, d) && 0 <= d < g.MaxD() && g.Delta() % 2 != 0
             && InRange(st.front, d, k) && Stepped(g, st.front.v, d, k, x) && InGrid(g, x, k) && x - y == k
             && Slid(text1, text2, true, g, st.front.v, d, k, x) && Meets(g, st.reverse.v, k, x)
    ensures Splits(Corners(text1, text2), x, y) && ShareUnit(text1, text2) && HalvesShare(text1, text2, x, y)
  {
    hide SearchInv, Stepped, Slid, Meets, ShareUnit, HalvesShare, SplitShares;
    FrontSplit(text1, text2, st, d, k, x);
    FrontShares(text1, text2, st, d, k, x);
    HalfShares(text1, text2, x, y);
  }

  lemma ReverseMeets(text1: Text, text2: Text, st: Search, w1: Walk, d: int, k: int, x2: int, x: int, y: int)
    requires var g := Corners(text1, text2);
             && SearchInv(text1, text2, st, d) && g.Delta() % 2 == 0 && Completed(g, st.front, w1, d)
             && Traced(text1, text2, true, g, st.front.v, w1.v, d, -d + st.front.s, w1.k)
             && InRange(st.reverse, d, k) && Stepped(g, st.reverse.v, d, k, x2) && InGrid(g, x2, k)
             && Slid(text1, text2, false, g, st.reverse.v, d, k, x2) && Meets(g, w1.v, k, x2)
             && x == At(w1.v, g.MaxD(), g.Delta() - k) && x - y == g.Delta() - k
    ensures Splits(Corners(text1, text2), x, y) && ShareUnit(text1, text2) && HalvesShare(text1, text2, x, y)
  {
    hide SearchInv, Stepped, Slid, Meets, ShareUnit, HalvesShare, SplitShares, Traced, Completed;
    ReverseSplit(text1, text2, st, w1, d, k, x2);
    ReverseShares(text1, text2, st, w1, d, k, x2);
    HalfShares(text1, text2, x, y);
  }

  /** Two searches that gained nothing while counting all units have come by every cell. */
  lemma NoneShared(text1: Text, text2: Text, a: Side, c: Side, m: int, d: int)
    requires var g := Corners(text1, text2);
             && Tracked(text1, text2, true, g, a, m) && Tracked(text1, text2, false, g, c, d)
             && m + d == g.n1 + g.n2 && !Gained(g, a, m) && !Gained(g, c, d)
    ensures !ShareUnit(text1, text2)
  {
    hide Progress, Gained, Followed;
    forall i, j ensures !Agree(text1, text2, true, i, j) {
      Mirrored(text1, text2, i, j);
      assert !Agree(text1, text2, true, i, j) || i + j >= m;
      assert !Agree(text1, text2, false, |text1| - i - 1, |text2| - j - 1) || |text1| - i - 1 + (|text2| - j - 1) >= d;
    }
  }

  lemma AllCounted(g: Grid)
    requires g.Valid()
    ensures g.MaxD() >= 2
    ensures g.Delta() % 2 == 0 ==> 2 * g.MaxD() == g.n1 + g.n2 && Par(g.Delta(), 0)
    ensures g.Delta() % 2 != 0 ==> 2 * g.MaxD() - 1 == g.n1 + g.n2 && Par(g.Delta(), 1)
  {
  }

  /** A search that has run through all its iterations without a meeting: the texts share no unit. */
  lemma SearchEnds(text1: Text, text2: Text, st: Search)
    requires SearchInv(text1, text2, st, Corners(text1, text2).MaxD())
    ensures !ShareUnit(text1, text2)
  {
    hide SideInv, PairInv, Progress, Gained, Followed, ShareUnit, Traced, CellsGained, Par, Grid.MaxD, Walked, OddInv;
    var g := Corners(text1, text2);
    AllCounted(g);
    var d := g.MaxD();
    if g.Delta() % 2 == 0 {
      GainsMeet(g, st.front, st.reverse, d, d, st.b);
      NoneShared(text1, text2, st.front, st.reverse, d, d);
    } else {
      GainsMeet(g, st.past, st.front, d - 1, d, st.b);
      NoneShared(text1, text2, st.front, st.past, d, d - 1);
    }
  }

  /** No diagonal has been visited but the one the first step starts from. */
  method StartPaths(v1: array<int>, v2: array<int>, v_offset: nat)
    requires v1 != v2 && v1.Length == v2.Length && v_offset + 1 < v1.Length
    modifies v1, v2
    ensures v1[..] == v2[..] && v1[..][v_offset + 1] == 0
    ensures forall i :: 0 <= i < v1.Length && i != v_offset + 1 ==> v1[..][i] == -1
  {
    for x := 0 to v1.Length
      invariant forall i :: 0 <= i < x ==> v1[i] == -1 && v2[i] == -1
    {
      v1[x] := -1;
      v2[x] := -1;
    }
    v1[v_offset + 1] := 0;
    v2[v_offset + 1] := 0;
  }

  /**
   Finds where to cut both texts in two. Nothing is found when the texts share no unit, or when the
   deadline passes; the clock is arbitrary, and with an unlimited timeout it is not asked.
   */
  method FindSplit(text1: Text, text2: Text, unlimited: bool) returns (split: Option<(int, int)>)
    requires |text1| >= 2 && |text2| >= 2
    requires text1[0] != text2[0] && text1[|text1| - 1] != text2[|text2| - 1]
    ensures split.Some? ==> Splits(Grid(|text1|, |text2|), split.value.0, split.value.1)
    ensures split.Some? ==> ShareUnit(text1, text2) && HalvesShare(text1, text2, split.value.0, split.value.1)
    ensures unlimited && ShareUnit(text1, text2) ==> split.Some?
  {
    hide SideInv, SearchInv, Walked, Apart, Stepped, Meets, Slid, Traced, ShareUnit, HalvesShare, SplitShares;
    var text1_length, text2_length := |text1|, |text2|;
    var max_d := (text1_length + text2_length + 1) / 2;
    var v_offset := max_d;
    var v_length := 2 * max_d;
    var v1, v2 := new int[v_length], new int[v_length];
    StartPaths(v1, v2, v_offset);
    var delta := text1_length - text2_length;
    // The parity of the length difference decides which side finds the meeting.
    var front := delta % 2 != 0;
    var k1start, k1end, k2start, k2end := 0, 0, 0, 0;
    ghost var g := Corners(text1, text2);
    ghost var a := Side(v1[..], 0, 0, 0, 0);
    ghost var st := Search(a, a, a, Walk(a.v, 0, 0, 0, 0, 0), 0);
    SearchStarts(text1, text2, v1[..], st.walk);
    for d := 0 to max_d
      invariant v1[..] == st.front.v && v2[..] == st.reverse.v && |st.front.v| == |st.reverse.v| == v_length
      invariant st.front.s == k1start && st.front.e == k1end && st.reverse.s == k2start && st.reverse.e == k2end
      invariant SearchInv(text1, text2, st, d)
    {
      if !unlimited {
        var late: bool := *;
        if late {
          return None;
        }
      }
      SearchSides(text1, text2, st, d);
      ghost var w1, w2, x2;
      k1start, k1end, split, w1 := WalkFront(text1, text2, v1, v2, d, k1start, k1end, front, g, st.front);
      if split.Some? {
        FrontMeets(text1, text2, st, d, w1.k, split.value.0, split.value.1);
        return;
      }
      k2start, k2end, split, w2, x2 := WalkReverse(text1, text2, v1, v2, d, k2start, k2end, !front, g, st.reverse);
      if split.Some? {
        ReverseMeets(text1, text2, st, w1, d, w2.k, x2, split.value.0, split.value.1);
        return;
      }
      SearchStep(text1, text2, st, w1, w2, d);
      st := NextSearch(g, st, w1, w2, d);
    }
    SearchEnds(text1, text2, st);
    split := None;
  }
}
