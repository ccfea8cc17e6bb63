/**
 The "middle snake" search: two greedy furthest-reaching searches, one from each end of the
 edit grid, that walk toward each other until they overlap.
 */
module Bisect {
  import opened Wrappers
  import opened Texts

  /** The edit grid: column x counts consumed units of the old text, row y of the new one. */
  datatype Grid = Grid(n1: int, n2: int) {
    /** Both texts hold at least two units: shorter ones never reach the search. */
    ghost predicate Valid() { n1 >= 2 && n2 >= 2 }

    function MaxD(): int { (n1 + n2 + 1) / 2 }

    function Delta(): int { n1 - n2 }
  }

  /** One search when an iteration starts: the trims of its range, and the range just visited. */
  datatype Side = Side(v: seq<int>, s: int, e: int, lo: int, hi: int)

  /**
   One search inside an iteration, about to visit diagonal k. `bs` and `be` are the last
   diagonals that ran off the bottom and off the right of the grid.
   */
  datatype Walk = Walk(v: seq<int>, s: int, e: int, k: int, bs: int, be: int)

  /** The furthest column recorded for diagonal k, or -1 when there is none. */
  function At(v: seq<int>, off: int, k: int): int
  {
    if 0 <= off + k < |v| then v[off + k] else -1
  }

  predicate Par(a: int, b: int) { (a - b) % 2 == 0 }

  predicate OffRight(g: Grid, x: int, j: int) { x > g.n1 }

  predicate OffBottom(g: Grid, x: int, j: int) { x <= g.n1 && x - j > g.n2 }

  /** The column where diagonal k starts in iteration d, one edit away from a neighbour. */
  function StartX(v: seq<int>, off: int, d: int, k: int): int
  {
    if k == -d || (k != d && At(v, off, k - 1) < At(v, off, k + 1)) then At(v, off, k + 1)
    else At(v, off, k - 1) + 1
  }

  /** Bounds on how far outside the grid a recorded point can lie when iteration d starts. */
  function Slack(d: int): int { Max(0, d - 2) }

  /** Every recorded point lies between the axes and not far outside the grid. */
  ghost predicate Entry(g: Grid, x: int, d: int, j: int)
  {
    && x >= -1
    && (x >= 0 ==> x <= g.n1 + Slack(d) && x - j <= g.n2 + Slack(d) && (x >= j || (j == 1 && d <= 1)))
    && ((j >= d || j <= -d) && !(j == 1 && d <= 1) ==> x == -1)
  }

  ghost predicate Entries(g: Grid, v: seq<int>, d: int)
  {
    var off := g.MaxD();
    && |v| == 2 * off
    && 0 <= d <= off
    && (forall j :: Entry(g, At(v, off, j), d, j))
    && (d == 0 ==> At(v, off, 1) == 0)
    && (d == 1 ==> At(v, off, 0) == 0)
  }

  ghost predicate Ranges(d: int, s: int, e: int, lo: int, hi: int)
  {
    && 0 <= s && 0 <= e && s % 2 == 0 && e % 2 == 0 && s + e <= 2 * d
    && (d <= 2 ==> s == 0 && e == 0)
    && (d >= 1 ==>
          && -(d - 1) <= lo <= hi <= d - 1 && Par(lo, d - 1) && Par(hi, d - 1)
          && lo - 1 <= -d + s && (s == 0 ==> lo == -(d - 1)) && d - 1 - e <= hi)
  }

  ghost predicate Fresh(g: Grid, v: seq<int>, d: int, lo: int, hi: int)
  {
    forall j :: lo <= j <= hi && Par(j, d - 1) ==> At(v, g.MaxD(), j) >= 0 && At(v, g.MaxD(), j) >= j
  }

  /** What one search knows when iteration d starts. */
  ghost predicate SideInv(g: Grid, a: Side, d: int)
  {
    Entries(g, a.v, d) && Ranges(d, a.s, a.e, a.lo, a.hi) && (d >= 1 ==> Fresh(g, a.v, d, a.lo, a.hi))
  }

  /** The diagonals that the search may visit in iteration d. */
  ghost predicate InRange(a: Side, d: int, k: int) { -d + a.s <= k <= d - a.e && Par(k, d) }

  /** The diagonal k got its new column x from the neighbours recorded in v0. */
  ghost predicate Stepped(g: Grid, v0: seq<int>, d: int, k: int, x: int)
  {
    var x0 := StartX(v0, g.MaxD(), d, k);
    && x >= x0
    && (x0 >= g.n1 || x0 - k >= g.n2 ==> x == x0)
    && (x0 < g.n1 && x0 - k < g.n2 ==> x <= g.n1 && x - k <= g.n2 && !(x == g.n1 && x - k == g.n2))
    && (d == 0 ==> x == 0)
  }

  /** The diagonals from `lo` up to, not including, k carry the points of iteration d. */
  ghost predicate Visited(g: Grid, v0: seq<int>, v: seq<int>, d: int, lo: int, k: int)
  {
    var off := g.MaxD();
    && |v| == |v0| == 2 * off
    && lo <= k && Par(k, d) && Par(lo, d)
    && (forall j {:trigger Stepped(g, v0, d, j, At(v, off, j))} ::
          lo <= j < k && Par(j, d) ==> Stepped(g, v0, d, j, At(v, off, j)))
    && (forall j {:trigger At(v, off, j)} :: !(lo <= j < k && Par(j, d)) ==> At(v, off, j) == At(v0, off, j))
  }

  ghost predicate Trims(d: int, s0: int, e0: int, w: Walk)
  {
    var lo := -d + s0;
    && w.k <= d - e0 + 2
    && s0 <= w.s && e0 <= w.e && s0 % 2 == 0 && e0 % 2 == 0 && w.s % 2 == 0 && w.e % 2 == 0
    && w.s + w.e <= s0 + e0 + w.k - lo
    && (w.s > s0 ==> lo <= w.bs < w.k && Par(w.bs, d) && w.s <= w.bs + d + 2)
    && (w.e > e0 ==> lo <= w.be < w.k && Par(w.be, d) && w.e <= d - w.be + 2)
  }

  /** The range was trimmed exactly when some diagonal ran off. */
  ghost predicate RunOffs(g: Grid, d: int, s0: int, e0: int, w: Walk)
  {
    var off := g.MaxD();
    var lo := -d + s0;
    && (w.s > s0 ==> OffBottom(g, At(w.v, off, w.bs), w.bs))
    && (w.e > e0 ==> OffRight(g, At(w.v, off, w.be), w.be))
    && (forall j {:trigger OffRight(g, At(w.v, off, j), j)} ::
          lo <= j < w.k && Par(j, d) && OffRight(g, At(w.v, off, j), j) ==> w.e > e0 && (j < w.k - 2 ==> w.k <= d - e0))
    && (forall j {:trigger OffBottom(g, At(w.v, off, j), j)} ::
          lo <= j < w.k && Par(j, d) && OffBottom(g, At(w.v, off, j), j) ==> w.s > s0)
  }

  /** The state of one search inside iteration d, with every diagonal below w.k visited. */
  ghost predicate Walked(g: Grid, a: Side, w: Walk, d: int)
  {
    Visited(g, a.v, w.v, d, -d + a.s, w.k) && Trims(d, a.s, a.e, w) && RunOffs(g, d, a.s, a.e, w)
  }

  function Next(a: Side, w: Walk, d: int): Side { Side(w.v, w.s, w.e, -d + a.s, w.k - 2) }

  ghost predicate HasVisited(a: Side, w: Walk, d: int, j: int) { -d + a.s <= j < w.k && Par(j, d) }

  /** The point (x, x - k) lies on or beyond the other search's point of the same diagonal. */
  predicate Meets(g: Grid, o: seq<int>, k: int, x: int)
  {
    var y := At(o, g.MaxD(), g.Delta() - k);
    y != -1 && x + y >= g.n1
  }

  predicate InGrid(g: Grid, x: int, k: int) { x <= g.n1 && x - k <= g.n2 }

  /** No point of this search inside the grid, on the diagonals from `lo` up to k, meets the other search. */
  ghost predicate Apart(g: Grid, v: seq<int>, o: seq<int>, d: int, lo: int, k: int)
  {
    forall j {:trigger InGrid(g, At(v, g.MaxD(), j), j)} ::
      lo <= j < k && Par(j, d) && InGrid(g, At(v, g.MaxD(), j), j) ==> !Meets(g, o, j, At(v, g.MaxD(), j))
  }

  /** The texts agree x units and y units in, from their beginnings or, for the reverse search, from their ends. */
  ghost predicate Agree(text1: Text, text2: Text, front: bool, x: int, y: int)
  {
    && 0 <= x < |text1| && 0 <= y < |text2|
    && if front then text1[x] == text2[y] else text1[|text1| - x - 1] == text2[|text2| - y - 1]
  }

  /** The texts agree in column i of diagonal k. */
  ghost predicate AgreeOn(text1: Text, text2: Text, front: bool, k: int, i: int)
  {
    Agree(text1, text2, front, i, i - k)
  }

  /** A point x of diagonal k: the texts agree from where it started up to it, and disagree behind it. */
  ghost predicate Slid(text1: Text, text2: Text, front: bool, g: Grid, v0: seq<int>, d: int, k: int, x: int)
  {
    && !Agree(text1, text2, front, x, x - k)
    && forall i :: StartX(v0, g.MaxD(), d, k) <= i < x ==> AgreeOn(text1, text2, front, k, i)
  }

  /** All points of iteration d on the diagonals from `lo` up to k are such points. */
  ghost predicate Traced(text1: Text, text2: Text, front: bool, g: Grid, v0: seq<int>, v: seq<int>, d: int, lo: int,
                         k: int)
  {
    forall j {:trigger At(v, g.MaxD(), j)} :: lo <= j < k && Par(j, d) ==>
      Slid(text1, text2, front, g, v0, d, j, At(v, g.MaxD(), j))
  }

  // ---------------------------------------------------------------------------------------
  // One search on its own.

  lemma StartIsGood(g: Grid, a: Side, d: int, k: int)
    requires g.Valid() && SideInv(g, a, d) && d < g.MaxD() && InRange(a, d, k)
    ensures -d <= k <= d && |a.v| == 2 * g.MaxD()
    ensures var x := StartX(a.v, g.MaxD(), d, k);
            && (d == 0 ==> x == 0)
            && x >= 0 && x >= k
            && (d >= 1 ==> 2 * x - k >= 1)
            && x <= g.n1 + Slack(d + 1) && x - k <= g.n2 + Slack(d + 1)
            && (d <= 1 ==> x <= 1 && x - k <= 1)
            && (k != -d ==> At(a.v, g.MaxD(), k - 1) < x)
            && (k != d ==> At(a.v, g.MaxD(), k + 1) <= x)
  {
    var off := g.MaxD();
    if d >= 1 {
      if k == -d {
        assert a.lo == -(d - 1) == k + 1;
      } else if a.lo <= k - 1 {
        assert k - 1 <= a.hi;
      } else {
        assert k + 1 == a.lo;
      }
    }
  }

  /** A new point lies between the axes, near the grid, and off the origin after the first iteration. */
  lemma SteppedIsGood(g: Grid, a: Side, d: int, k: int, x: int)
    requires g.Valid() && SideInv(g, a, d) && d < g.MaxD() && InRange(a, d, k)
    requires Stepped(g, a.v, d, k, x)
    ensures x >= 0 && x >= k && -d <= k <= d && Entry(g, x, d + 1, k)
    ensures d <= 1 ==> InGrid(g, x, k)
    ensures d >= 1 ==> 2 * x - k >= 1
    ensures d == 0 ==> x == 0 && k == 0
  {
    StartIsGood(g, a, d, k);
  }

  lemma VisitedIsGood(g: Grid, a: Side, w: Walk, d: int, j: int)
    requires g.Valid() && SideInv(g, a, d) && d < g.MaxD() && Walked(g, a, w, d) && HasVisited(a, w, d, j)
    ensures InRange(a, d, j) && Stepped(g, a.v, d, j, At(w.v, g.MaxD(), j))
    ensures var x := At(w.v, g.MaxD(), j);
            && x >= 0 && x >= j && -d <= j <= d && Entry(g, x, d + 1, j)
            && (d <= 1 ==> InGrid(g, x, j))
            && (d >= 1 ==> 2 * x - j >= 1)
  {
    assert Stepped(g, a.v, d, j, At(w.v, g.MaxD(), j));
    SteppedIsGood(g, a, d, j, At(w.v, g.MaxD(), j));
  }

  lemma NoEarlyTrims(g: Grid, a: Side, w: Walk, d: int)
    requires g.Valid() && SideInv(g, a, d) && d <= 1 && d < g.MaxD() && Walked(g, a, w, d)
    ensures w.s == a.s && w.e == a.e
  {
    if w.s > a.s {
      VisitedIsGood(g, a, w, d, w.bs);
    }
    if w.e > a.e {
      VisitedIsGood(g, a, w, d, w.be);
    }
  }

  lemma WalkedRanges(d: int, a: Side, w: Walk)
    requires Ranges(d, a.s, a.e, a.lo, a.hi) && Trims(d, a.s, a.e, w)
    requires d >= 0 && w.k > d - w.e && Par(w.k, d) && (d <= 1 ==> w.s == a.s && w.e == a.e)
    ensures Ranges(d + 1, w.s, w.e, -d + a.s, w.k - 2)
  {
    assert w.k - 2 >= -d + a.s;
    assert w.s + w.e <= a.s + a.e + (d - a.e + 2) - (-d + a.s);
  }

  lemma UnvisitedEntry(g: Grid, x: int, d: int, j: int)
    requires Entry(g, x, d, j) && !(d == 1 && j == 1)
    ensures Entry(g, x, d + 1, j)
  {
  }

  lemma WalkedEntry(g: Grid, a: Side, w: Walk, d: int, j: int)
    requires g.Valid() && SideInv(g, a, d) && d < g.MaxD() && Walked(g, a, w, d)
    requires w.k > d - w.e && (d == 1 ==> w.e == 0 && a.s == 0)
    ensures Entry(g, At(w.v, g.MaxD(), j), d + 1, j)
  {
    if HasVisited(a, w, d, j) {
      VisitedIsGood(g, a, w, d, j);
    } else {
      UnvisitedEntry(g, At(w.v, g.MaxD(), j), d, j);
    }
  }

  lemma WalkedEntries(g: Grid, a: Side, w: Walk, d: int)
    requires g.Valid() && SideInv(g, a, d) && d < g.MaxD() && Walked(g, a, w, d) && w.k > d - w.e
    requires d <= 1 ==> a.s == w.s == 0 && a.e == w.e == 0
    ensures Entries(g, w.v, d + 1)
  {
    hide SideInv, Stepped, RunOffs, Entry;
    SideBounds(g, a, d);
    forall j
      ensures Entry(g, At(w.v, g.MaxD(), j), d + 1, j)
    {
      WalkedEntry(g, a, w, d, j);
    }
    if d == 0 {
      VisitedIsGood(g, a, w, d, 0);
      SteppedIsGood(g, a, d, 0, At(w.v, g.MaxD(), 0));
    }
  }

  lemma SideBounds(g: Grid, a: Side, d: int)
    requires SideInv(g, a, d)
    ensures 0 <= d <= g.MaxD() && |a.v| == 2 * g.MaxD() && a.s % 2 == 0 && a.e % 2 == 0 && a.s + a.e <= 2 * d
    ensures d <= 1 ==> a.s == a.e == 0
  {
  }

  /** Iteration d hands a sound search over to iteration d+1. */
  lemma SideStep(g: Grid, a: Side, w: Walk, d: int)
    requires g.Valid() && SideInv(g, a, d) && d < g.MaxD() && Walked(g, a, w, d) && w.k > d - w.e
    ensures SideInv(g, Next(a, w, d), d + 1)
  {
    hide Entries, Fresh, Ranges, Stepped, RunOffs, Visited, Trims, Par;
    SideBounds(g, a, d);
    if d <= 1 {
      NoEarlyTrims(g, a, w, d);
    }
    WalkedSound(g, a, w, d);
    WalkedRanges(d, a, w);
    WalkedEntries(g, a, w, d);
  }

  lemma WalkedSound(g: Grid, a: Side, w: Walk, d: int)
    requires g.Valid() && SideInv(g, a, d) && d < g.MaxD() && Walked(g, a, w, d)
    ensures 0 <= d && Par(w.k, d) && Fresh(g, w.v, d + 1, -d + a.s, w.k - 2)
  {
    hide SideInv, Stepped, RunOffs, Trims;
    SideBounds(g, a, d);
    forall j | HasVisited(a, w, d, j)
      ensures At(w.v, g.MaxD(), j) >= 0 && At(w.v, g.MaxD(), j) >= j
    {
      VisitedIsGood(g, a, w, d, j);
    }
  }

  lemma AtUpdate(v: seq<int>, off: int, k: int, x: int)
    requires 0 <= off + k < |v|
    ensures forall j {:trigger At(v[off + k := x], off, j)} ::
              At(v[off + k := x], off, j) == if j == k then x else At(v, off, j)
  {
  }

  lemma AdvanceVisited(g: Grid, v0: seq<int>, v: seq<int>, d: int, lo: int, k: int, x: int)
    requires Visited(g, v0, v, d, lo, k) && 0 <= g.MaxD() + k < |v| && Stepped(g, v0, d, k, x)
    ensures Visited(g, v0, v[g.MaxD() + k := x], d, lo, k + 2) && Par(k, d)
  {
    var off := g.MaxD();
    AtUpdate(v, off, k, x);
    var v' := v[off + k := x];
    forall j | lo <= j < k + 2 && Par(j, d)
      ensures Stepped(g, v0, d, j, At(v', off, j))
    {
      assert j != k ==> Stepped(g, v0, d, j, At(v, off, j));
    }
  }

  /** The search after recording x on the diagonal it is about to visit. */
  function Record(g: Grid, w: Walk, x: int): Walk
    requires 0 <= g.MaxD() + w.k < |w.v|
  {
    var v' := w.v[g.MaxD() + w.k := x];
    if OffRight(g, x, w.k) then Walk(v', w.s, w.e + 2, w.k + 2, w.bs, w.k)
    else if OffBottom(g, x, w.k) then Walk(v', w.s + 2, w.e, w.k + 2, w.k, w.be)
    else Walk(v', w.s, w.e, w.k + 2, w.bs, w.be)
  }

  lemma AdvanceRight(g: Grid, d: int, s0: int, e0: int, w: Walk, x: int, j: int)
    requires RunOffs(g, d, s0, e0, w) && Trims(d, s0, e0, w) && Par(w.k, d)
    requires w.k <= d - w.e && 0 <= g.MaxD() + w.k < |w.v|
    requires -d + s0 <= j < w.k + 2 && Par(j, d) && OffRight(g, At(Record(g, w, x).v, g.MaxD(), j), j)
    ensures Record(g, w, x).e > e0 && (j < w.k ==> w.k + 2 <= d - e0)
  {
    AtUpdate(w.v, g.MaxD(), w.k, x);
    hide OffBottom;
    assert j != w.k ==> OffRight(g, At(w.v, g.MaxD(), j), j);
  }

  lemma AdvanceBottom(g: Grid, d: int, s0: int, e0: int, w: Walk, x: int, j: int)
    requires RunOffs(g, d, s0, e0, w) && Trims(d, s0, e0, w) && Par(w.k, d)
    requires w.k <= d - w.e && 0 <= g.MaxD() + w.k < |w.v|
    requires -d + s0 <= j < w.k + 2 && Par(j, d) && OffBottom(g, At(Record(g, w, x).v, g.MaxD(), j), j)
    ensures Record(g, w, x).s > s0
  {
    AtUpdate(w.v, g.MaxD(), w.k, x);
    assert j != w.k ==> OffBottom(g, At(w.v, g.MaxD(), j), j);
  }

  lemma AdvanceRunOffs(g: Grid, d: int, s0: int, e0: int, w: Walk, x: int)
    requires RunOffs(g, d, s0, e0, w) && Trims(d, s0, e0, w) && Par(w.k, d)
    requires w.k <= d - w.e && 0 <= g.MaxD() + w.k < |w.v|
    ensures RunOffs(g, d, s0, e0, Record(g, w, x))
  {
    var off := g.MaxD();
    var w' := Record(g, w, x);
    AtUpdate(w.v, off, w.k, x);
    forall j {:trigger OffRight(g, At(w'.v, off, j), j)}
      | -d + s0 <= j < w'.k && Par(j, d) && OffRight(g, At(w'.v, off, j), j)
      ensures w'.e > e0 && (j < w'.k - 2 ==> w'.k <= d - e0)
    {
      AdvanceRight(g, d, s0, e0, w, x, j);
    }
    forall j {:trigger OffBottom(g, At(w'.v, off, j), j)}
      | -d + s0 <= j < w'.k && Par(j, d) && OffBottom(g, At(w'.v, off, j), j)
      ensures w'.s > s0
    {
      AdvanceBottom(g, d, s0, e0, w, x, j);
    }
  }

  /** Recording the new point of a diagonal, and trimming the range when it ran off the grid. */
  lemma Advance(g: Grid, a: Side, w: Walk, d: int, x: int)
    requires Walked(g, a, w, d) && w.k <= d - w.e && 0 <= g.MaxD() + w.k < |w.v| && Stepped(g, a.v, d, w.k, x)
    ensures Walked(g, a, Record(g, w, x), d)
  {
    hide Visited, RunOffs, Stepped;
    AdvanceVisited(g, a.v, w.v, d, -d + a.s, w.k, x);
    AdvanceRunOffs(g, d, a.s, a.e, w, x);
  }

  lemma ApartUpdate(g: Grid, v: seq<int>, o: seq<int>, d: int, lo: int, k: int, x: int)
    requires Apart(g, v, o, d, lo, k) && 0 <= g.MaxD() + k < |v| && Par(k, d)
    requires InGrid(g, x, k) ==> !Meets(g, o, k, x)
    ensures Apart(g, v[g.MaxD() + k := x], o, d, lo, k + 2)
  {
    var v' := v[g.MaxD() + k := x];
    AtUpdate(v, g.MaxD(), k, x);
    forall j | lo <= j < k + 2 && Par(j, d) && InGrid(g, At(v', g.MaxD(), j), j)
      ensures !Meets(g, o, j, At(v', g.MaxD(), j))
    {
      assert j != k ==> InGrid(g, At(v, g.MaxD(), j), j);
    }
  }

  lemma TracedUpdate(text1: Text, text2: Text, front: bool, g: Grid, v0: seq<int>, v: seq<int>, d: int, lo: int,
                     k: int, x: int)
    requires Traced(text1, text2, front, g, v0, v, d, lo, k) && 0 <= g.MaxD() + k < |v| && Par(k, d)
    requires Slid(text1, text2, front, g, v0, d, k, x)
    ensures Traced(text1, text2, front, g, v0, v[g.MaxD() + k := x], d, lo, k + 2)
  {
    hide Slid;
    AtUpdate(v, g.MaxD(), k, x);
    var v' := v[g.MaxD() + k := x];
    forall j {:trigger At(v', g.MaxD(), j)} | lo <= j < k + 2 && Par(j, d)
      ensures Slid(text1, text2, front, g, v0, d, j, At(v', g.MaxD(), j))
    {
      assert j != k ==> At(v', g.MaxD(), j) == At(v, g.MaxD(), j);
    }
  }

  lemma NothingTraced(text1: Text, text2: Text, front: bool, g: Grid, v: seq<int>, d: int, lo: int)
    ensures Traced(text1, text2, front, g, v, v, d, lo, lo)
  {
  }

  lemma WalkStarts(g: Grid, a: Side, o: seq<int>, d: int)
    requires g.Valid() && SideInv(g, a, d) && d < g.MaxD()
    ensures Walked(g, a, Walk(a.v, a.s, a.e, -d + a.s, 0, 0), d)
    ensures Apart(g, a.v, o, d, -d + a.s, -d + a.s)
    ensures |a.v| == 2 * g.MaxD()
  {
    hide SideInv, Stepped, Meets, InGrid, OffRight, OffBottom;
    SideBounds(g, a, d);
  }

  /** The neighbours of the next diagonal still hold what iteration d-1 left there. */
  lemma NextDiagonal(g: Grid, a: Side, w: Walk, d: int)
    requires g.Valid() && SideInv(g, a, d) && d < g.MaxD() && Walked(g, a, w, d) && w.k <= d - w.e
    ensures At(w.v, g.MaxD(), w.k - 1) == At(a.v, g.MaxD(), w.k - 1)
    ensures At(w.v, g.MaxD(), w.k + 1) == At(a.v, g.MaxD(), w.k + 1)
    ensures InRange(a, d, w.k) && -d <= w.k <= d && 0 <= g.MaxD() + w.k < |w.v|
  {
  }

  lemma StartStepped(g: Grid, v0: seq<int>, d: int, k: int)
    requires g.Valid() && (d == 0 ==> StartX(v0, g.MaxD(), d, k) == 0)
    ensures Stepped(g, v0, d, k, StartX(v0, g.MaxD(), d, k))
  {
  }

  /** A point may go on along the common text: it stays inside the grid and off both corners. */
  lemma SlideStepped(text1: Text, text2: Text, front: bool, g: Grid, v0: seq<int>, d: int, k: int, x: int)
    requires g == Grid(|text1|, |text2|) && g.Valid() && (d == 0 ==> k == 0)
    requires text1[0] != text2[0] && text1[|text1| - 1] != text2[|text2| - 1]
    requires Stepped(g, v0, d, k, x) && Agree(text1, text2, front, x, x - k)
    ensures Stepped(g, v0, d, k, x + 1)
  {
  }

  /** The new point of diagonal k1: one edit away from a neighbour, then along the common text. */
  method FrontPoint(text1: Text, text2: Text, v1: array<int>, d: int, k1: int, ghost g: Grid, ghost a: Side)
    returns (x1: int)
    requires g == Grid(|text1|, |text2|) && g.Valid() && d < g.MaxD() && v1.Length == |a.v|
    requires text1[0] != text2[0] && text1[|text1| - 1] != text2[|text2| - 1]
    requires SideInv(g, a, d) && InRange(a, d, k1)
    requires At(v1[..], g.MaxD(), k1 - 1) == At(a.v, g.MaxD(), k1 - 1)
    requires At(v1[..], g.MaxD(), k1 + 1) == At(a.v, g.MaxD(), k1 + 1)
    ensures Stepped(g, a.v, d, k1, x1) && Slid(text1, text2, true, g, a.v, d, k1, x1)
  {
    hide SideInv, Stepped;
    StartIsGood(g, a, d, k1);
    StartStepped(g, a.v, d, k1);
    var k1_offset := (|text1| + |text2| + 1) / 2 + k1;
    if k1 == -d || (k1 != d && v1[k1_offset - 1] < v1[k1_offset + 1]) {
      x1 := v1[k1_offset + 1];
    } else {
      x1 := v1[k1_offset - 1] + 1;
    }
    ghost var x0 := x1;
    assert x0 == StartX(a.v, g.MaxD(), d, k1);
    var y1 := x1 - k1;
    while x1 < |text1| && y1 < |text2| && text1[x1] == text2[y1]
      invariant x0 <= x1 && y1 == x1 - k1 && Stepped(g, a.v, d, k1, x1)
      invariant forall i :: x0 <= i < x1 ==> AgreeOn(text1, text2, true, k1, i)
      decreases |text1| - x1
    {
      SlideStepped(text1, text2, true, g, a.v, d, k1, x1);
      x1 := x1 + 1;
      y1 := y1 + 1;
    }
  }

  /** The mirror image of FrontPoint: the texts are compared from their ends. */
  method ReversePoint(text1: Text, text2: Text, v2: array<int>, d: int, k2: int, ghost g: Grid, ghost a: Side)
    returns (x2: int)
    requires g == Grid(|text1|, |text2|) && g.Valid() && d < g.MaxD() && v2.Length == |a.v|
    requires text1[0] != text2[0] && text1[|text1| - 1] != text2[|text2| - 1]
    requires SideInv(g, a, d) && InRange(a, d, k2)
    requires At(v2[..], g.MaxD(), k2 - 1) == At(a.v, g.MaxD(), k2 - 1)
    requires At(v2[..], g.MaxD(), k2 + 1) == At(a.v, g.MaxD(), k2 + 1)
    ensures Stepped(g, a.v, d, k2, x2) && Slid(text1, text2, false, g, a.v, d, k2, x2)
  {
    hide SideInv, Stepped;
    StartIsGood(g, a, d, k2);
    StartStepped(g, a.v, d, k2);
    var k2_offset := (|text1| + |text2| + 1) / 2 + k2;
    if k2 == -d || (k2 != d && v2[k2_offset - 1] < v2[k2_offset + 1]) {
      x2 := v2[k2_offset + 1];
    } else {
      x2 := v2[k2_offset - 1] + 1;
    }
    ghost var x0 := x2;
    assert x0 == StartX(a.v, g.MaxD(), d, k2);
    var y2 := x2 - k2;
    while x2 < |text1| && y2 < |text2| && text1[|text1| - x2 - 1] == text2[|text2| - y2 - 1]
      invariant x0 <= x2 && y2 == x2 - k2 && Stepped(g, a.v, d, k2, x2)
      invariant forall i :: x0 <= i < x2 ==> AgreeOn(text1, text2, false, k2, i)
      decreases |text1| - x2
    {
      SlideStepped(text1, text2, false, g, a.v, d, k2, x2);
      x2 := x2 + 1;
      y2 := y2 + 1;
    }
  }

  /** One iteration of the front search; `front` asks it to look for the reverse search's points. */
  method WalkFront(text1: Text, text2: Text, v1: array<int>, v2: array<int>, d: int, k1start: int, k1end: int,
                   front: bool, ghost g: Grid, ghost a: Side)
    returns (s: int, e: int, split: Option<(int, int)>, ghost w: Walk)
    requires g == Grid(|text1|, |text2|) && g.Valid() && v1 != v2 && d < g.MaxD()
    requires text1[0] != text2[0] && text1[|text1| - 1] != text2[|text2| - 1]
    requires SideInv(g, a, d) && a.v == v1[..] && a.s == k1start && a.e == k1end && v2.Length == v1.Length
    modifies v1
    ensures split.None? ==> Walked(g, a, w, d) && w.k > d - w.e && w.v == v1[..] && w.s == s && w.e == e
    ensures split.None? && front ==> Apart(g, v1[..], v2[..], d, -d + k1start, w.k)
    ensures split.None? ==> Traced(text1, text2, true, g, a.v, w.v, d, -d + a.s, w.k)
    ensures split.Some? ==> Slid(text1, text2, true, g, a.v, d, w.k, split.value.0)
    ensures split.Some? ==> front && InRange(a, d, w.k) && split.value.0 - split.value.1 == w.k
    ensures split.Some? ==> Stepped(g, a.v, d, w.k, split.value.0) && InGrid(g, split.value.0, w.k)
    ensures split.Some? ==> Meets(g, v2[..], w.k, split.value.0)
  {
    hide Walked, SideInv, Apart, Stepped, Slid, Traced;
    ghost var o := v2[..];
    WalkStarts(g, a, o, d);
    s, e, split := k1start, k1end, None;
    var k1 := -d + k1start;
    w := Walk(a.v, s, e, k1, 0, 0);
    NothingTraced(text1, text2, true, g, a.v, d, k1);
    while k1 <= d - e
      invariant w.k == k1 && w.s == s && w.e == e && v1[..] == w.v && v2[..] == o
      invariant Walked(g, a, w, d)
      invariant front ==> Apart(g, w.v, o, d, -d + k1start, k1)
      invariant Traced(text1, text2, true, g, a.v, w.v, d, -d + a.s, k1)
      decreases d - k1
    {
      NextDiagonal(g, a, w, d);
      var x1 := FrontPoint(text1, text2, v1, d, k1, g, a);
      var y1 := x1 - k1;
      var k1_offset := v1.Length / 2 + k1;
      v1[k1_offset] := x1;
      Advance(g, a, w, d, x1);
      if x1 > |text1| {
        // The first text is used up.
        e := e + 2;
      } else if y1 > |text2| {
        // The second text is used up.
        s := s + 2;
      } else if front {
        var k2_offset := v1.Length / 2 + (|text1| - |text2|) - k1;
        if k2_offset >= 0 && k2_offset < v2.Length && v2[k2_offset] != -1 {
          var x2 := |text1| - v2[k2_offset];
          if x1 >= x2 {
            return s, e, Some((x1, y1)), w;
          }
        }
      }
      if front {
        ApartUpdate(g, w.v, o, d, -d + k1start, k1, x1);
      }
      TracedUpdate(text1, text2, true, g, a.v, w.v, d, -d + a.s, k1, x1);
      w := Record(g, w, x1);
      k1 := k1 + 2;
    }
  }

  /** One iteration of the reverse search; `back` asks it to look for the front search's points. */
  method WalkReverse(text1: Text, text2: Text, v1: array<int>, v2: array<int>, d: int, k2start: int, k2end: int,
                     back: bool, ghost g: Grid, ghost a: Side)
    returns (s: int, e: int, split: Option<(int, int)>, ghost w: Walk, ghost x: int)
    requires g == Grid(|text1|, |text2|) && g.Valid() && v1 != v2 && d < g.MaxD()
    requires text1[0] != text2[0] && text1[|text1| - 1] != text2[|text2| - 1]
    requires SideInv(g, a, d) && a.v == v2[..] && a.s == k2start && a.e == k2end && v1.Length == v2.Length
    modifies v2
    ensures split.None? ==> Walked(g, a, w, d) && w.k > d - w.e && w.v == v2[..] && w.s == s && w.e == e
    ensures split.None? && back ==> Apart(g, v2[..], v1[..], d, -d + k2start, w.k)
    ensures split.None? ==> Traced(text1, text2, false, g, a.v, w.v, d, -d + a.s, w.k)
    ensures split.Some? ==> Slid(text1, text2, false, g, a.v, d, w.k, x)
    ensures split.Some? ==> back && InRange(a, d, w.k)
    ensures split.Some? ==> Stepped(g, a.v, d, w.k, x) && InGrid(g, x, w.k) && Meets(g, v1[..], w.k, x)
    ensures split.Some? ==>
            split.value.0 == At(v1[..], g.MaxD(), g.Delta() - w.k) && split.value.0 - split.value.1 == g.Delta() - w.k
  {
    hide Walked, SideInv, Apart, Stepped, Slid, Traced;
    ghost var o := v1[..];
    WalkStarts(g, a, o, d);
    s, e, split := k2start, k2end, None;
    x := 0;
    var v_offset := v2.Length / 2;
    var k2 := -d + k2start;
    w := Walk(a.v, s, e, k2, 0, 0);
    NothingTraced(text1, text2, false, g, a.v, d, k2);
    while k2 <= d - e
      invariant w.k == k2 && w.s == s && w.e == e && v2[..] == w.v && v1[..] == o
      invariant Walked(g, a, w, d)
      invariant back ==> Apart(g, w.v, o, d, -d + k2start, k2)
      invariant Traced(text1, text2, false, g, a.v, w.v, d, -d + a.s, k2)
      decreases d - k2
    {
      NextDiagonal(g, a, w, d);
      var x2 := ReversePoint(text1, text2, v2, d, k2, g, a);
      var y2 := x2 - k2;
      v2[v_offset + k2] := x2;
      Advance(g, a, w, d, x2);
      if x2 > |text1| {
        // The first text is used up from its end.
        e := e + 2;
      } else if y2 > |text2| {
        // The second text is used up from its end.
        s := s + 2;
      } else if back {
        var k1_offset := v_offset + (|text1| - |text2|) - k2;
        if k1_offset >= 0 && k1_offset < v1.Length && v1[k1_offset] != -1 {
          var x1 := v1[k1_offset];
          var y1 := v_offset + x1 - k1_offset;
          if x1 >= |text1| - x2 {
            return s, e, Some((x1, y1)), w, x2;
          }
        }
      }
      if back {
        ApartUpdate(g, w.v, o, d, -d + k2start, k2, x2);
      }
      TracedUpdate(text1, text2, false, g, a.v, w.v, d, -d + a.s, k2, x2);
      w := Record(g, w, x2);
      k2 := k2 + 2;
    }
  }
}
