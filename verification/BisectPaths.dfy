/**
 What a recorded point says about the texts. Each search follows paths of single edits and common
 units, so the units of both texts before a point that are not edits are in common.
 */
module BisectPaths {
  import opened Texts
  import opened Bisect
  import opened BisectProgress

  /** How many units the first `i` of the one text and the first `j` of the other have in common, in order. */
  ghost function Common(text1: Text, text2: Text, front: bool, i: int, j: int): nat
    decreases Max(i, 0) + Max(j, 0)
  {
    if i <= 0 || j <= 0 then 0
    else
      var edit := Max(Common(text1, text2, front, i - 1, j), Common(text1, text2, front, i, j - 1));
      if Agree(text1, text2, front, i - 1, j - 1)
      then Max(edit, Common(text1, text2, front, i - 1, j - 1) + 1) else edit
  }

  lemma CommonGrows(text1: Text, text2: Text, front: bool, i: int, j: int)
    ensures Common(text1, text2, front, i, j) <= Common(text1, text2, front, i + 1, j)
    ensures Common(text1, text2, front, i, j) <= Common(text1, text2, front, i, j + 1)
    ensures Agree(text1, text2, front, i, j) ==>
              Common(text1, text2, front, i, j) + 1 <= Common(text1, text2, front, i + 1, j + 1)
  {
    hide Agree;
    if i >= 0 && j >= 0 && Agree(text1, text2, front, i, j) {
    }
    AgreeInside(text1, text2, front, i, j);
  }

  lemma AgreeInside(text1: Text, text2: Text, front: bool, i: int, j: int)
    ensures Agree(text1, text2, front, i, j) ==> 0 <= i < |text1| && 0 <= j < |text2|
  {
  }

  /** One more unit of each text adds one common unit at most. */
  lemma {:induction false} CommonStep(text1: Text, text2: Text, front: bool, i: int, j: int)
    ensures Common(text1, text2, front, i + 1, j + 1) <= Common(text1, text2, front, i, j) + 1
    decreases Max(i, 0) + Max(j, 0)
  {
    hide Agree;
    if i >= 0 && j >= 0 {
      if i > 0 {
        CommonStep(text1, text2, front, i - 1, j);
        CommonGrows(text1, text2, front, i - 1, j);
      }
      if j > 0 {
        CommonStep(text1, text2, front, i, j - 1);
        CommonGrows(text1, text2, front, i, j - 1);
      }
    }
  }

  lemma {:induction false} CommonSteps(text1: Text, text2: Text, front: bool, i: int, j: int, n: nat)
    ensures Common(text1, text2, front, i + n, j + n) <= Common(text1, text2, front, i, j) + n
  {
    if n > 0 {
      CommonSteps(text1, text2, front, i, j, n - 1);
      CommonStep(text1, text2, front, i + n - 1, j + n - 1);
    }
  }

  /** Where something is in common, some unit is. */
  lemma {:induction false} CommonUnit(text1: Text, text2: Text, front: bool, i: int, j: int) returns (a: int, b: int)
    requires Common(text1, text2, front, i, j) > 0
    ensures a < i && b < j && Agree(text1, text2, front, a, b)
    decreases Max(i, 0) + Max(j, 0)
  {
    hide Agree;
    if Agree(text1, text2, front, i - 1, j - 1) {
      a, b := i - 1, j - 1;
    } else if Common(text1, text2, front, i - 1, j) > 0 {
      a, b := CommonUnit(text1, text2, front, i - 1, j);
    } else {
      a, b := CommonUnit(text1, text2, front, i, j - 1);
    }
  }

  /** A path of at most `e` edits leads to column x of diagonal k. */
  ghost predicate Reached(text1: Text, text2: Text, front: bool, k: int, x: int, e: int)
  {
    Sum(x, k) - 2 * Common(text1, text2, front, x, x - k) <= e
  }

  /** Every recorded point was reached by one edit for each iteration. */
  ghost predicate Followed(text1: Text, text2: Text, front: bool, g: Grid, v: seq<int>, d: int)
  {
    forall k {:trigger At(v, g.MaxD(), k)} :: At(v, g.MaxD(), k) >= 0 ==>
      Reached(text1, text2, front, k, At(v, g.MaxD(), k), d - 1)
  }

  lemma {:induction false} SlideReached(text1: Text, text2: Text, front: bool, k: int, x0: int, x: int, e: int)
    requires Reached(text1, text2, front, k, x0, e) && x0 <= x
    requires forall i :: x0 <= i < x ==> AgreeOn(text1, text2, front, k, i)
    ensures Reached(text1, text2, front, k, x, e)
    decreases x - x0
  {
    hide Agree, Common;
    if x0 < x {
      assert AgreeOn(text1, text2, front, k, x0);
      CommonGrows(text1, text2, front, x0, x0 - k);
      SlideReached(text1, text2, front, k, x0 + 1, x, e);
    }
  }

  /** The neighbour that a diagonal starts from has been recorded. */
  lemma StartFrom(g: Grid, a: Side, d: int, k: int)
    requires g.Valid() && SideInv(g, a, d) && d < g.MaxD() && InRange(a, d, k)
    ensures var x := StartX(a.v, g.MaxD(), d, k);
            (x == At(a.v, g.MaxD(), k + 1) && x >= 0)
            || (x == At(a.v, g.MaxD(), k - 1) + 1 && At(a.v, g.MaxD(), k - 1) >= 0)
  {
    StartIsGood(g, a, d, k);
    if d >= 1 && k != -d {
      if a.lo <= k - 1 <= a.hi {
        assert OnLast(a, d, k - 1);
      } else {
        assert OnLast(a, d, k + 1);
      }
    }
  }

  ghost predicate OnLast(a: Side, d: int, k: int) { a.lo <= k <= a.hi && Par(k, d - 1) }

  lemma PointReached(text1: Text, text2: Text, front: bool, g: Grid, a: Side, d: int, k: int, x: int)
    requires g.Valid() && SideInv(g, a, d) && d < g.MaxD() && InRange(a, d, k)
    requires Followed(text1, text2, front, g, a.v, d)
    requires Stepped(g, a.v, d, k, x) && Slid(text1, text2, front, g, a.v, d, k, x)
    ensures Reached(text1, text2, front, k, x, d)
  {
    hide SideInv, Agree, Common, Followed;
    StartFrom(g, a, d, k);
    var x0 := StartX(a.v, g.MaxD(), d, k);
    StartReached(text1, text2, front, g, a.v, d, k);
    SlideReached(text1, text2, front, k, x0, x, d);
  }

  lemma StartReached(text1: Text, text2: Text, front: bool, g: Grid, v: seq<int>, d: int, k: int)
    requires Followed(text1, text2, front, g, v, d)
    requires var x := StartX(v, g.MaxD(), d, k);
             (x == At(v, g.MaxD(), k + 1) && x >= 0) || (x == At(v, g.MaxD(), k - 1) + 1 && At(v, g.MaxD(), k - 1) >= 0)
    ensures Reached(text1, text2, front, k, StartX(v, g.MaxD(), d, k), d)
  {
    hide Agree, Common, StartX, At;
    var x := StartX(v, g.MaxD(), d, k);
    CommonGrows(text1, text2, front, x, x - k - 1);
    CommonGrows(text1, text2, front, x - 1, x - k);
    assert At(v, g.MaxD(), k + 1) >= 0 ==> Reached(text1, text2, front, k + 1, At(v, g.MaxD(), k + 1), d - 1);
    assert At(v, g.MaxD(), k - 1) >= 0 ==> Reached(text1, text2, front, k - 1, At(v, g.MaxD(), k - 1), d - 1);
  }

  lemma FollowedStep(text1: Text, text2: Text, front: bool, g: Grid, a: Side, w: Walk, d: int)
    requires Completed(g, a, w, d) && Followed(text1, text2, front, g, a.v, d)
    requires Traced(text1, text2, front, g, a.v, w.v, d, -d + a.s, w.k)
    ensures Followed(text1, text2, front, g, w.v, d + 1)
  {
    hide SideInv, Stepped, Slid, Common, Trims, RunOffs;
    forall k {:trigger At(w.v, g.MaxD(), k)} | At(w.v, g.MaxD(), k) >= 0
      ensures Reached(text1, text2, front, k, At(w.v, g.MaxD(), k), d)
    {
      if HasVisited(a, w, d, k) {
        VisitedIsGood(g, a, w, d, k);
        PointReached(text1, text2, front, g, a, d, k, At(w.v, g.MaxD(), k));
      } else {
        assert At(w.v, g.MaxD(), k) == At(a.v, g.MaxD(), k);
      }
    }
  }

  /** A point splits the texts into two pairs, one of which shares a unit. */
  ghost predicate SplitShares(text1: Text, text2: Text, x: int, y: int)
  {
    || (exists i, j :: i < x && j < y && Agree(text1, text2, true, i, j))
    || exists i, j :: i < |text1| - x && j < |text2| - y && Agree(text1, text2, false, i, j)
  }

  /** When the searches meet before their edits have used up all units, some unit beside the meeting is in common. */
  lemma MeetingShares(text1: Text, text2: Text, k: int, x: int, y: int, m: int, d: int)
    requires var g := Grid(|text1|, |text2|);
             && Reached(text1, text2, true, k, x, m) && Reached(text1, text2, false, g.Delta() - k, y, d)
             && x + y >= g.n1 && m + d < g.n1 + g.n2
    ensures SplitShares(text1, text2, x, x - k)
  {
    hide Agree, Common;
    var n1, n2 := |text1|, |text2|;
    CommonSteps(text1, text2, false, n1 - x, n2 - (x - k), x + y - n1);
    if Common(text1, text2, true, x, x - k) > 0 {
      var i, j := CommonUnit(text1, text2, true, x, x - k);
    } else {
      var i, j := CommonUnit(text1, text2, false, n1 - x, n2 - (x - k));
    }
  }
}
