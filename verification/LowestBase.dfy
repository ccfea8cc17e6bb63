/** When the base that the search finds is the lowest common ancestor of the two commits, and when it is not. */
module LowestBase {
  import opened Wrappers
  import opened Texts
  import opened Commits
  import opened MergeBase

  /** `id` is the commit or lies above it. */
  ghost predicate IsAncestor(store: map<Id, Commit>, c: Commit, id: Id)
  {
    id == c.id || exists n: nat :: id in Within(store, AsSet(c.parents), n)
  }

  /** A commit that a merge could start from: it can be read, and it is each of the two or lies above it. */
  ghost predicate CommonAncestor(store: map<Id, Commit>, readable: Commit -> bool, c1: Commit, c2: Commit, id: Id)
  {
    IsAncestor(store, c1, id) && IsAncestor(store, c2, id) && id in store && readable(store[id])
  }

  /** All other common ancestors lie above `base`. */
  ghost predicate Lowest(store: map<Id, Commit>, readable: Commit -> bool, c1: Commit, c2: Commit, base: Commit)
  {
    CommonAncestor(store, readable, c1, c2, base.id)
    && forall id :: CommonAncestor(store, readable, c1, c2, id) ==> IsAncestor(store, base, id)
  }

  ghost predicate OneParent(store: map<Id, Commit>)
  {
    forall id :: id in store ==> |store[id].parents| <= 1
  }

  /** `high` lies above `low`, more than one step. */
  ghost predicate FarAbove(store: map<Id, Commit>, high: Commit, low: Commit)
  {
    high.id !in low.parents && IsAncestor(store, low, high.id)
  }

  /** A parent is the lowest common ancestor of itself and its child. */
  lemma ParentIsLowest(store: map<Id, Commit>, readable: Commit -> bool, child: Commit, parent: Commit)
    requires parent.id in child.parents && Stored(store, parent) && readable(parent)
    ensures Lowest(store, readable, child, parent, parent) && Lowest(store, readable, parent, child, parent)
  {
    assert parent.id in Within(store, AsSet(child.parents), 1);
    hide Within;
  }

  lemma NotAboveItself(store: map<Id, Commit>, rank: Id -> int, c: Commit, id: Id)
    requires Ranked(store, rank) && Stored(store, c) && IsAncestor(store, c, id)
    ensures rank(id) <= rank(c.id)
  {
    if id != c.id {
      var n: nat :| id in Within(store, AsSet(c.parents), n);
      AncestorsRankLower(store, rank, c, n, id);
    }
  }

  /** When one of the two commits lies above the other the searched base is not the lowest. */
  lemma TooHigh(store: map<Id, Commit>, readable: Commit -> bool, rank: Id -> int, c1: Commit, c2: Commit, n: nat,
                base: Commit)
    requires Ranked(store, rank) && Stored(store, c1) && Stored(store, c2) && readable(c1) && readable(c2)
    requires Best(store, readable, c1, c2, n, base)
    requires IsAncestor(store, c1, c2.id) || IsAncestor(store, c2, c1.id)
    ensures !Lowest(store, readable, c1, c2, base)
  {
    hide Ranked, Best, IsAncestor;
    NeverEitherSide(store, readable, rank, c1, c2, n, base);
    BestReached(store, readable, c1, c2, n, base);
    IsItself(store, c1);
    IsItself(store, c2);
    var high := if IsAncestor(store, c1, c2.id) then c2 else c1;
    assert CommonAncestor(store, readable, c1, c2, high.id);
    if Lowest(store, readable, c1, c2, base) {
      NotAboveItself(store, rank, base, high.id);
    }
  }

  lemma IsItself(store: map<Id, Commit>, c: Commit)
    ensures IsAncestor(store, c, c.id)
  {
  }

  /**
   Where every commit has one parent at most, of two parent chains from one commit the longer goes
   on from the shorter.
   */
  lemma {:induction false} OneChain(store: map<Id, Commit>, start: seq<Id>, p: seq<Id>, a: Id, q: seq<Id>, b: Id)
    requires OneParent(store) && |start| <= 1 && Leads(store, start, p, a) && Leads(store, start, q, b) && |p| <= |q|
    ensures q[|p| - 1] == a
    decreases |p|
  {
    if |p| > 1 {
      var k := |p| - 2;
      OneChain(store, start, p[..k + 1], p[k], q, b);
      assert p[k + 1] in store[p[k]].parents && q[k + 1] in store[q[k]].parents;
    }
  }

  lemma RestOfChain(store: map<Id, Commit>, start: seq<Id>, q: seq<Id>, b: Id, c: Commit, k: nat)
    requires Leads(store, start, q, b) && k < |q| && q[k] == c.id && Stored(store, c)
    ensures IsAncestor(store, c, b)
  {
    if k < |q| - 1 {
      var rest := q[k + 1..];
      assert rest[0] in store[q[k]].parents;
      assert Leads(store, c.parents, rest, b);
      PathWithin(store, c.parents, rest, b, |rest|);
    }
  }

  /** Of two ids on one chain, the one that is as far or farther lies above the other. */
  lemma AboveOnChain(store: map<Id, Commit>, c: Commit, base: Commit, p: seq<Id>, q: seq<Id>, id: Id)
    requires OneParent(store) && Stored(store, c) && Stored(store, base)
    requires Leads(store, c.parents, p, base.id) && Leads(store, c.parents, q, id) && |p| <= |q|
    ensures IsAncestor(store, base, id)
  {
    hide IsAncestor;
    OneChain(store, c.parents, p, base.id, q, id);
    RestOfChain(store, c.parents, q, id, base, |p| - 1);
  }

  lemma ChainTo(store: map<Id, Commit>, c: Commit, id: Id) returns (p: seq<Id>)
    requires IsAncestor(store, c, id) && id != c.id
    ensures Leads(store, c.parents, p, id)
  {
    var n: nat :| id in Within(store, AsSet(c.parents), n);
    p := WithinHasPath(store, c.parents, n, id);
  }

  /**
   In a history where every commit has one parent at most, and none of the two lies above the
   other, it is the lowest.
   */
  lemma LowestOnChains(store: map<Id, Commit>, readable: Commit -> bool, c1: Commit, c2: Commit, n: nat, base: Commit)
    requires OneParent(store) && Stored(store, c1) && Stored(store, c2)
    requires Best(store, readable, c1, c2, n, base)
    requires !IsAncestor(store, c1, c2.id) && !IsAncestor(store, c2, c1.id)
    ensures Lowest(store, readable, c1, c2, base)
  {
    hide OneParent, Best, Leads;
    var p1, p2 := BaseIsCommon(store, readable, c1, c2, n, base);
    PathWithin(store, c1.parents, p1, base.id, n);
    PathWithin(store, c2.parents, p2, base.id, n);
    hide Within, IsAncestor;
    OnBothSides(store, readable, c1, c2, n, base);
    forall id | CommonAncestor(store, readable, c1, c2, id) ensures IsAncestor(store, base, id) {
      var q1 := ChainTo(store, c1, id);
      var q2 := ChainTo(store, c2, id);
      BaseIsNearest(store, readable, c1, c2, n, base, q1, q2, id);
      if |p1| <= |q1| {
        AboveOnChain(store, c1, base, p1, q1, id);
      } else {
        AboveOnChain(store, c2, base, p2, q2, id);
      }
    }
  }

  lemma OnBothSides(store: map<Id, Commit>, readable: Commit -> bool, c1: Commit, c2: Commit, n: nat, base: Commit)
    requires base.id in Within(store, AsSet(c1.parents), n) && base.id in Within(store, AsSet(c2.parents), n)
    requires base.id in store && store[base.id] == base && readable(base)
    ensures CommonAncestor(store, readable, c1, c2, base.id)
  {
  }

  /** The answer is the lowest common ancestor, or there is none and no common ancestor either. */
  ghost predicate Right(store: map<Id, Commit>, readable: Commit -> bool, c1: Commit, c2: Commit,
                        answer: Option<Commit>)
  {
    match answer
    case Some(base) => Lowest(store, readable, c1, c2, base)
    case None => forall id :: !CommonAncestor(store, readable, c1, c2, id)
  }

  /** `parent` is a parent of `child`, and has no parents itself. */
  ghost predicate RootParent(parent: Commit, child: Commit)
  {
    parent.id in child.parents && parent.parents == []
  }

  /** Without a base, and neither above the other, the two have no common ancestor. */
  lemma NoneRight(store: map<Id, Commit>, readable: Commit -> bool, c1: Commit, c2: Commit)
    requires !Meet(store, readable, c1, c2) && c1.id != c2.id
    requires !IsAncestor(store, c1, c2.id) && !IsAncestor(store, c2, c1.id)
    ensures Right(store, readable, c1, c2, None)
  {
    hide IsAncestor, Leads;
    forall id ensures !CommonAncestor(store, readable, c1, c2, id) {
      if CommonAncestor(store, readable, c1, c2, id) {
        var p1 := ChainTo(store, c1, id);
        var p2 := ChainTo(store, c2, id);
      }
    }
  }

  /** A commit that can be read and is above another one is common to both. */
  lemma AboveIsCommon(store: map<Id, Commit>, readable: Commit -> bool, low: Commit, high: Commit)
    requires Stored(store, high) && readable(high) && IsAncestor(store, low, high.id)
    ensures CommonAncestor(store, readable, low, high, high.id) && CommonAncestor(store, readable, high, low, high.id)
  {
    hide IsAncestor;
    IsItself(store, high);
  }

  lemma NothingAboveRoot(store: map<Id, Commit>, c: Commit, id: Id)
    requires c.parents == [] && id != c.id
    ensures !IsAncestor(store, c, id)
  {
    forall n: nat ensures id !in Within(store, AsSet(c.parents), n) {
      NothingWithin(store, n);
    }
  }

  lemma {:induction false} NothingWithin(store: map<Id, Commit>, n: nat)
    ensures Within(store, AsSet([]), n) == {}
  {
    NoParents(store);
    NoneToAdd();
    if n > 0 {
      NothingWithin(store, n - 1);
    }
  }

  /** When one of the two has no parents there is no answer: right, unless that one lies above the other. */
  lemma RootRight(store: map<Id, Commit>, readable: Commit -> bool, root: Commit, other: Commit)
    requires root.parents == [] && root.id != other.id && Stored(store, root) && readable(root)
    ensures Right(store, readable, root, other, None) <==> !IsAncestor(store, other, root.id)
    ensures Right(store, readable, other, root, None) <==> !IsAncestor(store, other, root.id)
    ensures !IsAncestor(store, root, other.id)
  {
    hide IsAncestor;
    NothingAboveRoot(store, root, other.id);
    if IsAncestor(store, other, root.id) {
      AboveIsCommon(store, readable, other, root);
    }
    forall id | IsAncestor(store, root, id) ensures id == root.id {
      if id != root.id {
        NothingAboveRoot(store, root, id);
      }
    }
  }

  /**
   In a history without cycles and merges the answer for two different readable commits of one key and with different
   contents is right if and only if neither lies more than one step above the other, and neither is a parent of the
   other without parents of its own.
   */
  lemma LowestExactly(store: map<Id, Commit>, readable: Commit -> bool, checksum: Commit -> Text, rank: Id -> int,
                      c1: Commit, c2: Commit, answer: Option<Commit>)
    requires Ranked(store, rank) && OneParent(store) && c1.id != c2.id && c1.key == c2.key
             && checksum(c1) != checksum(c2)
    requires Stored(store, c1) && Stored(store, c2) && readable(c1) && readable(c2)
    requires Answer(store, readable, checksum, c1, c2, answer)
    ensures Right(store, readable, c1, c2, answer) <==>
            && !FarAbove(store, c1, c2) && !FarAbove(store, c2, c1)
            && !RootParent(c1, c2) && !RootParent(c2, c1)
  {
    hide Within, Best, OneParent, Lowest, Meet, CommonAncestor, IsAncestor;
    ParentsAbove(store, c1, c2);
    if c1.parents == [] {
      RootRight(store, readable, c1, c2);
    } else if c2.parents == [] {
      RootRight(store, readable, c2, c1);
    } else if c2.id in c1.parents {
      ParentIsLowest(store, readable, c1, c2);
      NotBothWays(store, rank, c1, c2);
    } else if c1.id in c2.parents {
      ParentIsLowest(store, readable, c2, c1);
      NotBothWays(store, rank, c2, c1);
    } else {
      SearchedExactly(store, readable, rank, c1, c2, answer);
    }
  }

  lemma ParentsAbove(store: map<Id, Commit>, c1: Commit, c2: Commit)
    ensures c2.id in c1.parents ==> IsAncestor(store, c1, c2.id)
    ensures c1.id in c2.parents ==> IsAncestor(store, c2, c1.id)
  {
    assert c2.id in c1.parents ==> c2.id in Within(store, AsSet(c1.parents), 1);
    assert c1.id in c2.parents ==> c1.id in Within(store, AsSet(c2.parents), 1);
  }

  lemma SearchedExactly(store: map<Id, Commit>, readable: Commit -> bool, rank: Id -> int, c1: Commit, c2: Commit,
                        answer: Option<Commit>)
    requires Ranked(store, rank) && OneParent(store) && c1.id != c2.id
    requires Stored(store, c1) && Stored(store, c2) && readable(c1) && readable(c2)
    requires if answer.None? then !Meet(store, readable, c1, c2)
             else exists n: nat :: Best(store, readable, c1, c2, n, answer.value)
    ensures Right(store, readable, c1, c2, answer) <==> !IsAncestor(store, c1, c2.id) && !IsAncestor(store, c2, c1.id)
  {
    hide Within, Best, OneParent, Lowest, Meet, CommonAncestor, IsAncestor;
    if answer.Some? {
      var n: nat :| Best(store, readable, c1, c2, n, answer.value);
      if IsAncestor(store, c1, c2.id) || IsAncestor(store, c2, c1.id) {
        TooHigh(store, readable, rank, c1, c2, n, answer.value);
      } else {
        LowestOnChains(store, readable, c1, c2, n, answer.value);
      }
    } else if IsAncestor(store, c1, c2.id) {
      AboveIsCommon(store, readable, c1, c2);
    } else if IsAncestor(store, c2, c1.id) {
      AboveIsCommon(store, readable, c2, c1);
    } else {
      NoneRight(store, readable, c1, c2);
    }
  }

  lemma NotBothWays(store: map<Id, Commit>, rank: Id -> int, child: Commit, parent: Commit)
    requires Ranked(store, rank) && Stored(store, child) && Stored(store, parent) && parent.id in child.parents
    ensures !IsAncestor(store, parent, child.id)
  {
    hide IsAncestor;
    assert parent.id in store[child.id].parents;
    if IsAncestor(store, parent, child.id) {
      NotAboveItself(store, rank, parent, child.id);
    }
  }

  // ---------------------------------------------------------------------------------------
  // Histories in which the answer is not the lowest common ancestor.

  function Node(id: Id, parents: seq<Id>): Commit
  {
    Commit(id, [], [], None, Full(Record(Scheme([], 0, map[]), map[])), parents, 0, None)
  }

  predicate AnyReadable(c: Commit) { true }

  /** What one commit adds to a set that grows. */
  ghost function Up(store: map<Id, Commit>, id: Id): set<Id>
  {
    if id in store then AsSet(store[id].parents) else {}
  }

  lemma UpAll(store: map<Id, Commit>, a: Id, b: Id, c: Id, d: Id)
    ensures ParentsOf(store, {}) == {} && ParentsOf(store, {a}) == Up(store, a)
    ensures ParentsOf(store, {a, b}) == Up(store, a) + Up(store, b)
    ensures ParentsOf(store, {a, b, c}) == Up(store, a) + Up(store, b) + Up(store, c)
    ensures ParentsOf(store, {a, b, c, d}) == Up(store, a) + Up(store, b) + Up(store, c) + Up(store, d)
  {
    hide ParentsOf, Up;
    NoParents(store);
    assert {} + {a} == {a} && {a} + {b} == {a, b} && {a, b} + {c} == {a, b, c} && {a, b, c} + {d} == {a, b, c, d};
    UpOne(store, {}, a);
    UpOne(store, {a}, b);
    UpOne(store, {a, b}, c);
    UpOne(store, {a, b, c}, d);
  }

  lemma UpOne(store: map<Id, Commit>, ids: set<Id>, id: Id)
    ensures ParentsOf(store, ids + {id}) == ParentsOf(store, ids) + Up(store, id)
  {
    ParentsOne(store, ids, id);
  }

  lemma OneUp(id: Id)
    ensures AsSet([id]) == {id}
  {
  }

  lemma TwoUp(a: Id, b: Id)
    ensures AsSet([a, b]) == {a, b}
  {
    assert [a, b][0] == a && [a, b][1] == b;
  }

  /** The only commit in common in the first round that has one is the answer. */
  lemma OnlyOne(store: map<Id, Commit>, c1: Commit, c2: Commit, k: nat, base: Commit)
    requires k > 0 && Stored(store, base)
    requires Within(store, AsSet(c1.parents), k) * Within(store, AsSet(c2.parents), k) == {base.id}
    requires forall m: nat :: m < k ==> Within(store, AsSet(c1.parents), m) * Within(store, AsSet(c2.parents), m) == {}
    ensures Best(store, AnyReadable, c1, c2, k, base)
  {
    hide Within, AsSet, Newer;
    forall m: nat, id {:trigger Common(store, AnyReadable, c1, c2, m, id)}
      | m <= k && Common(store, AnyReadable, c1, c2, m, id)
      ensures m == k && id == base.id
    {
      assert id in Within(store, AsSet(c1.parents), m) * Within(store, AsSet(c2.parents), m);
    }
    assert base.id in Within(store, AsSet(c1.parents), k) * Within(store, AsSet(c2.parents), k);
  }

  /** Of a root and its child there is no answer, although the root is their lowest common ancestor. */
  lemma RootMissed(r: Id, a: Id, checksum: Commit -> Text, answer: Option<Commit>)
    requires r != a
    requires var h := map[r := Node(r, []), a := Node(a, [r])];
             Answer(h, AnyReadable, checksum, h[a], h[r], answer)
    ensures var h := map[r := Node(r, []), a := Node(a, [r])];
            answer == None && Lowest(h, AnyReadable, h[a], h[r], h[r]) && !FarAbove(h, h[a], h[r])
              && !FarAbove(h, h[r], h[a])
  {
    var h := map[r := Node(r, []), a := Node(a, [r])];
    hide Within, Best, Meet, Lowest;
    ParentIsLowest(h, AnyReadable, h[a], h[r]);
    NothingAboveRoot(h, h[r], a);
  }

  /**
   A line of four commits a, x, b, r, each the child of the next: of a and b the answer is r, although b itself lies
   above a.
   */
  lemma AncestorMissed(a: Id, x: Id, b: Id, r: Id)
    requires a != x && a != b && a != r && x != b && x != r && b != r
    ensures var h := map[a := Node(a, [x]), x := Node(x, [b]), b := Node(b, [r]), r := Node(r, [])];
            && Best(h, AnyReadable, h[a], h[b], 3, h[r])
            && FarAbove(h, h[b], h[a]) && !Lowest(h, AnyReadable, h[a], h[b], h[r])
  {
    var h := map[a := Node(a, [x]), x := Node(x, [b]), b := Node(b, [r]), r := Node(r, [])];
    OneUp(x);
    OneUp(b);
    OneUp(r);
    NoneToAdd();
    UpAll(h, x, b, r, r);
    UpAll(h, r, r, r, r);
    hide ParentsOf, AsSet;
    assert Within(h, {x}, 0) == {} && Within(h, {r}, 0) == {};
    assert Within(h, {x}, 1) == {x} && Within(h, {r}, 1) == {r};
    assert Within(h, {x}, 2) == {x, b} && Within(h, {r}, 2) == {r};
    assert Within(h, {x}, 3) == {x, b, r} && Within(h, {r}, 3) == {r};
    hide Within, Best, Lowest;
    OnlyOne(h, h[a], h[b], 3, h[r]);
    assert b in Within(h, {x}, 2);
    assert IsAncestor(h, h[a], b);
    var rank := (id: Id) => if id == a then 3 else if id == x then 2 else if id == b then 1 else 0;
    TooHigh(h, AnyReadable, rank, h[a], h[b], 3, h[r]);
  }

  /**
   Neither c1 nor c2 lies above the other, c2 being a merge: from c1 one comes to x and then b, from c2 to b at once and
   to x only in three steps. The answer is b, although x is common to both and the child of b.
   */
  lemma MergeHidesLower(c1: Id, c2: Id, x: Id, y: Id, z: Id, b: Id)
    requires c1 != c2 && c1 != x && c1 != y && c1 != z && c1 != b && c2 != x && c2 != y && c2 != z && c2 != b
    requires x != y && x != z && x != b && y != z && y != b && z != b
    ensures var h := map[c1 := Node(c1, [x]), c2 := Node(c2, [b, y]), x := Node(x, [b]), y := Node(y, [z]),
                         z := Node(z, [x]), b := Node(b, [])];
            && Best(h, AnyReadable, h[c1], h[c2], 2, h[b])
            && !IsAncestor(h, h[c1], c2) && !IsAncestor(h, h[c2], c1)
            && !Lowest(h, AnyReadable, h[c1], h[c2], h[b])
  {
    var h := map[c1 := Node(c1, [x]), c2 := Node(c2, [b, y]), x := Node(x, [b]), y := Node(y, [z]), z := Node(z, [x]),
                 b := Node(b, [])];
    OneUp(x);
    OneUp(b);
    OneUp(z);
    TwoUp(b, y);
    NoneToAdd();
    UpAll(h, x, b, b, b);
    UpAll(h, b, y, z, x);
    hide ParentsOf, AsSet;
    assert Within(h, {x}, 0) == {} && Within(h, {b, y}, 0) == {} && Within(h, {}, 0) == {};
    assert Within(h, {x}, 1) == {x} && Within(h, {b, y}, 1) == {b, y} && Within(h, {}, 1) == {};
    assert Within(h, {x}, 2) == {x, b} && Within(h, {b, y}, 2) == {b, y, z} && Within(h, {}, 2) == {};
    assert Within(h, {x}, 3) == {x, b} && Within(h, {b, y}, 3) == {b, y, z, x};
    assert Within(h, {b, y}, 4) == {b, y, z, x} && Within(h, {b, y}, 5) == {b, y, z, x};
    hide Within, Best;
    OnlyOne(h, h[c1], h[c2], 2, h[b]);
    Never(h, h[c1], 2, c2);
    Never(h, h[c2], 4, c1);
    Never(h, h[b], 1, x);
    assert x in Within(h, {x}, 1) && x in Within(h, {b, y}, 3);
    assert CommonAncestor(h, AnyReadable, h[c1], h[c2], x);
  }

  /** What is not reached when the sets stop growing is never reached. */
  lemma Never(store: map<Id, Commit>, c: Commit, n: nat, id: Id)
    requires n > 0 && Within(store, AsSet(c.parents), n + 1) == Within(store, AsSet(c.parents), n)
    requires id != c.id && id !in Within(store, AsSet(c.parents), n)
    ensures !IsAncestor(store, c, id)
  {
    hide Within;
    forall m: nat ensures id !in Within(store, AsSet(c.parents), m) {
      if m <= n {
        WithinMonotone(store, AsSet(c.parents), m, n);
      } else {
        WithinSettles(store, AsSet(c.parents), n, m);
      }
    }
  }
}
