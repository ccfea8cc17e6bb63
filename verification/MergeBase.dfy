/** The search for the commit from which two branches of one key are merged. */
module MergeBase {
  import opened Wrappers
  import opened Texts
  import opened Commits

  ghost predicate RootIn(store: map<Id, Commit>, ids: set<Id>)
  {
    exists id :: id in ids && id in store && store[id].parents == []
  }

  ghost function ParentsOf(store: map<Id, Commit>, ids: set<Id>): set<Id>
  {
    set id, p | id in ids && id in store && p in store[id].parents :: p
  }

  function AsSet(ids: seq<Id>): set<Id>
  {
    set id | id in ids
  }

  /** The ids at most `n` steps up from a commit with parents `start`, through the commits known here. */
  ghost function Within(store: map<Id, Commit>, start: set<Id>, n: nat): set<Id>
  {
    if n == 0 then {} else start + ParentsOf(store, Within(store, start, n - 1))
  }

  /** `p` is a chain of parent links from a commit with parents `start` up to `id`, each but the last a known commit. */
  ghost predicate Leads(store: map<Id, Commit>, start: seq<Id>, p: seq<Id>, id: Id)
  {
    |p| > 0 && p[0] in start && p[|p| - 1] == id
    && forall i :: 0 <= i < |p| - 1 ==> p[i] in store && p[i + 1] in store[p[i]].parents
  }

  /** `id` is a base the search may return in round `n`. */
  ghost predicate Common(store: map<Id, Commit>, readable: Commit -> bool, c1: Commit, c2: Commit, n: nat, id: Id)
  {
    id in Within(store, AsSet(c1.parents), n) && id in Within(store, AsSet(c2.parents), n)
    && id in store && readable(store[id])
  }

  ghost predicate NoneBefore(store: map<Id, Commit>, readable: Commit -> bool, c1: Commit, c2: Commit, n: nat)
  {
    forall m: nat, id :: m < n ==> !Common(store, readable, c1, c2, m, id)
  }

  ghost predicate NoneEver(store: map<Id, Commit>, readable: Commit -> bool, c1: Commit, c2: Commit)
  {
    forall m: nat, id :: !Common(store, readable, c1, c2, m, id)
  }

  /** `base` is the newest of the bases found in round `n`, the first round that finds any. */
  ghost predicate Best(store: map<Id, Commit>, readable: Commit -> bool, c1: Commit, c2: Commit, n: nat, base: Commit)
  {
    n > 0 && base.id in store && store[base.id] == base
    && Common(store, readable, c1, c2, n, base.id)
    && NoneBefore(store, readable, c1, c2, n)
    && forall id :: Common(store, readable, c1, c2, n, id) ==> id == base.id || Newer(base, store[id])
  }

  /** A commit without parents lies at most `n` steps above one of the two. */
  ghost predicate RootWithin(store: map<Id, Commit>, c1: Commit, c2: Commit, n: nat)
  {
    RootIn(store, Within(store, AsSet(c1.parents), n)) || RootIn(store, Within(store, AsSet(c2.parents), n))
  }

  /** The parents of one commit join the set. */
  method AddParents(known: set<Id>, parents: seq<Id>) returns (grown: set<Id>, updated: bool)
    ensures grown == known + AsSet(parents)
    ensures updated <==> grown != known
  {
    grown, updated := known, false;
    for i := 0 to |parents|
      invariant grown == known + AsSet(parents[..i])
      invariant updated <==> grown != known
    {
      assert AsSet(parents[..i + 1]) == AsSet(parents[..i]) + {parents[i]};
      if parents[i] !in grown {
        grown := grown + {parents[i]};
        updated := true;
      }
    }
    assert parents[..|parents|] == parents;
  }

  /** One round: every known commit in the set adds its parents. */
  method Grow(store: map<Id, Commit>, known: set<Id>) returns (grown: set<Id>, updated: bool, reachedRoot: bool)
    ensures grown == known + ParentsOf(store, known)
    ensures updated <==> grown != known
    ensures reachedRoot <==> RootIn(store, known)
  {
    hide ParentsOf, RootIn, AsSet;
    NoParents(store);
    grown, updated, reachedRoot := known, false, false;
    var todo := known;
    assert known - todo == {};
    while todo != {}
      invariant todo <= known
      invariant grown == known + ParentsOf(store, known - todo)
      invariant updated <==> grown != known
      invariant reachedRoot <==> RootIn(store, known - todo)
    {
      var id :| id in todo;
      ParentsOne(store, known - todo, id);
      RootOne(store, known - todo, id);
      assert known - todo + {id} == known - (todo - {id});
      todo := todo - {id};
      if id in store {
        var parents := store[id].parents;
        if |parents| == 0 {
          NoneToAdd();
          reachedRoot := true;
        } else {
          var more, added := AddParents(grown, parents);
          grown, updated := more, updated || added;
        }
      }
    }
    assert known - todo == known;
  }

  lemma NoneToAdd()
    ensures AsSet([]) == {}
  {
  }

  lemma NoParents(store: map<Id, Commit>)
    ensures ParentsOf(store, {}) == {} && !RootIn(store, {})
  {
  }

  lemma ParentsOne(store: map<Id, Commit>, ids: set<Id>, id: Id)
    ensures ParentsOf(store, ids + {id}) == ParentsOf(store, ids) + if id in store then AsSet(store[id].parents) else {}
  {
  }

  lemma RootOne(store: map<Id, Commit>, ids: set<Id>, id: Id)
    ensures RootIn(store, ids + {id}) <==> RootIn(store, ids) || (id in store && store[id].parents == [])
  {
  }

  /** `prioritizedBases.find(hasRecordForCommit)` */
  method FirstReadable(readable: Commit -> bool, bases: seq<Commit>) returns (base: Option<Commit>)
    ensures base.None? ==> forall c :: c in bases ==> !readable(c)
    ensures base.Some? ==> exists i :: 0 <= i < |bases| && bases[i] == base.value && readable(base.value)
                                       && forall k :: 0 <= k < i ==> !readable(bases[k])
  {
    for i := 0 to |bases|
      invariant forall k :: 0 <= k < i ==> !readable(bases[k])
    {
      if readable(bases[i]) {
        return Some(bases[i]);
      }
    }
    return None;
  }

  /** The newest readable commit among `ids`. */
  method PickBase(store: map<Id, Commit>, readable: Commit -> bool, ids: set<Id>) returns (base: Option<Commit>)
    requires ById(store)
    ensures base.None? ==> forall id :: id in ids && id in store ==> !readable(store[id])
    ensures base.Some? ==> base.value.id in ids && base.value.id in store && store[base.value.id] == base.value
    ensures base.Some? ==> readable(base.value)
    ensures base.Some? ==> forall id :: id in ids && id in store && readable(store[id]) ==>
                             id == base.value.id || Newer(base.value, store[id])
    ensures base.Some? ==> forall id :: id in ids && id in store && readable(store[id]) ==>
                             store[id].timestamp <= base.value.timestamp
  {
    hide Newer;
    var bases := Prioritize(store, ids);
    base := FirstReadable(readable, bases);
    if base.Some? {
      var i :| 0 <= i < |bases| && bases[i] == base.value && forall k :: 0 <= k < i ==> !readable(bases[k]);
      assert bases[i] in bases;
      forall id | id in ids && id in store && readable(store[id])
        ensures id == base.value.id || Newer(base.value, store[id])
        ensures store[id].timestamp <= base.value.timestamp
      {
        assert store[id] in bases;
        var j :| 0 <= j < |bases| && bases[j] == store[id];
      }
    } else {
      forall id | id in ids && id in store ensures !readable(store[id]) {
        assert store[id] in bases;
      }
    }
  }

  lemma {:induction false} WithinGrows(store: map<Id, Commit>, start: set<Id>, n: nat)
    ensures Within(store, start, n) <= Within(store, start, n + 1)
    ensures n > 0 ==> Within(store, start, n + 1) == Within(store, start, n) + ParentsOf(store, Within(store, start, n))
  {
    if n > 0 {
      WithinGrows(store, start, n - 1);
      ParentsMonotone(store, Within(store, start, n - 1), Within(store, start, n));
    }
  }

  lemma ParentsMonotone(store: map<Id, Commit>, a: set<Id>, b: set<Id>)
    requires a <= b
    ensures ParentsOf(store, a) <= ParentsOf(store, b)
  {
  }

  lemma {:induction false} WithinMonotone(store: map<Id, Commit>, start: set<Id>, m: nat, n: nat)
    requires m <= n
    ensures Within(store, start, m) <= Within(store, start, n)
    decreases n - m
  {
    if m < n {
      WithinMonotone(store, start, m + 1, n);
      WithinGrows(store, start, m);
    }
  }

  /** Once a round adds nothing, no later round does. */
  lemma {:induction false} WithinSettles(store: map<Id, Commit>, start: set<Id>, n: nat, m: nat)
    requires n > 0 && Within(store, start, n + 1) == Within(store, start, n) && n <= m
    ensures Within(store, start, m) == Within(store, start, n)
    decreases m
  {
    if n < m {
      WithinSettles(store, start, n, m - 1);
    }
  }

  ghost function Universe(store: map<Id, Commit>, start: set<Id>): set<Id>
  {
    start + ParentsOf(store, store.Keys)
  }

  lemma WithinUniverse(store: map<Id, Commit>, start: set<Id>, n: nat)
    ensures Within(store, start, n) <= Universe(store, start)
  {
  }

  lemma Smaller(u: set<Id>, a: set<Id>, b: set<Id>)
    requires a <= b <= u
    ensures |u - b| <= |u - a| && (a != b ==> |u - b| < |u - a|)
  {
    Sizes(u - b, u - a);
    if a != b {
      var x :| x in b && x !in a;
      assert x in u - a && x !in u - b;
    }
  }

  lemma {:induction false} Sizes(a: set<Id>, b: set<Id>)
    requires a <= b
    ensures |a| <= |b| && (a != b ==> |a| < |b|)
  {
    if a != {} {
      var x :| x in a;
      Sizes(a - {x}, b - {x});
    } else if b != {} {
      var x :| x in b;
    }
  }

  lemma RootMonotone(store: map<Id, Commit>, c1: Commit, c2: Commit, n: nat)
    ensures RootWithin(store, c1, c2, n) ==> RootWithin(store, c1, c2, n + 1)
    ensures !RootWithin(store, c1, c2, 0)
  {
    WithinGrows(store, AsSet(c1.parents), n);
    WithinGrows(store, AsSet(c2.parents), n);
  }

  /** When the search stops without growing, no round would find a base. */
  lemma Exhausted(store: map<Id, Commit>, readable: Commit -> bool, c1: Commit, c2: Commit, n: nat)
    requires n > 0 && NoneBefore(store, readable, c1, c2, n + 1)
    requires Within(store, AsSet(c1.parents), n + 1) == Within(store, AsSet(c1.parents), n)
    requires Within(store, AsSet(c2.parents), n + 1) == Within(store, AsSet(c2.parents), n)
    ensures NoneEver(store, readable, c1, c2)
    ensures forall m: nat :: RootWithin(store, c1, c2, m) ==> RootWithin(store, c1, c2, n)
  {
    hide Within, RootIn;
    forall m: nat, id ensures !Common(store, readable, c1, c2, m, id) {
      if m > n {
        WithinSettles(store, AsSet(c1.parents), n, m);
        WithinSettles(store, AsSet(c2.parents), n, m);
        assert !Common(store, readable, c1, c2, n, id);
      }
    }
    forall m: nat | RootWithin(store, c1, c2, m) ensures RootWithin(store, c1, c2, n) {
      RootsSettle(store, c1, c2, n, m);
    }
  }

  lemma RootsSettle(store: map<Id, Commit>, c1: Commit, c2: Commit, n: nat, m: nat)
    requires n > 0 && RootWithin(store, c1, c2, m)
    requires Within(store, AsSet(c1.parents), n + 1) == Within(store, AsSet(c1.parents), n)
    requires Within(store, AsSet(c2.parents), n + 1) == Within(store, AsSet(c2.parents), n)
    ensures RootWithin(store, c1, c2, n)
  {
    hide Within;
    if m <= n {
      WithinMonotone(store, AsSet(c1.parents), m, n);
      WithinMonotone(store, AsSet(c2.parents), m, n);
    } else {
      WithinSettles(store, AsSet(c1.parents), n, m);
      WithinSettles(store, AsSet(c2.parents), n, m);
    }
  }

  lemma RoundFinds(store: map<Id, Commit>, readable: Commit -> bool, c1: Commit, c2: Commit, n: nat, bases: set<Id>)
    requires bases == Within(store, AsSet(c1.parents), n) * Within(store, AsSet(c2.parents), n)
    ensures forall id :: Common(store, readable, c1, c2, n, id) <==> id in bases && id in store && readable(store[id])
  {
  }

  /** The loop of the search; both sides have parents. */
  method Search(store: map<Id, Commit>, readable: Commit -> bool, c1: Commit, c2: Commit)
    returns (base: Option<Commit>, reachedRoot: bool, ghost rounds: nat)
    requires ById(store)
    ensures base.Some? ==> Best(store, readable, c1, c2, rounds, base.value)
    ensures base.Some? ==> (reachedRoot <==> RootWithin(store, c1, c2, rounds - 1))
    ensures base.None? ==> NoneEver(store, readable, c1, c2)
    ensures base.None? ==> (reachedRoot <==> exists m: nat :: RootWithin(store, c1, c2, m))
  {
    hide RootIn, ParentsOf, Common, Newer, ById, Within, NoneBefore, RootWithin, Best, AsSet, Universe;
    var parents1, parents2 := AsSet(c1.parents), AsSet(c2.parents);
    ghost var start1, start2 := parents1, parents2;
    ghost var u1, u2 := Universe(store, start1), Universe(store, start2);
    rounds, reachedRoot := 1, false;
    FirstRound(store, readable, c1, c2);
    while true
      invariant rounds > 0
      invariant parents1 == Within(store, start1, rounds) && parents2 == Within(store, start2, rounds)
      invariant NoneBefore(store, readable, c1, c2, rounds)
      invariant reachedRoot <==> RootWithin(store, c1, c2, rounds - 1)
      decreases |u1 - parents1| + |u2 - parents2|
    {
      var bases := parents1 * parents2;
      RoundFinds(store, readable, c1, c2, rounds, bases);
      if bases != {} {
        base := PickBase(store, readable, bases);
        if base.Some? {
          IsBest(store, readable, c1, c2, rounds, base.value);
          return;
        }
      }
      NextRound(store, readable, c1, c2, rounds);
      var grown1, updated1, root1 := Grow(store, parents1);
      var grown2, updated2, root2 := Grow(store, parents2);
      reachedRoot := reachedRoot || root1 || root2;
      RootMonotone(store, c1, c2, rounds - 1);
      RootSides(store, c1, c2, rounds);
      WithinGrows(store, start1, rounds);
      WithinGrows(store, start2, rounds);
      WithinUniverse(store, start1, rounds + 1);
      WithinUniverse(store, start2, rounds + 1);
      Smaller(u1, parents1, grown1);
      Smaller(u2, parents2, grown2);
      parents1, parents2 := grown1, grown2;
      if !(updated1 || updated2) {
        Exhausted(store, readable, c1, c2, rounds);
        RootsEver(store, c1, c2, rounds);
        base := None;
        return;
      }
      rounds := rounds + 1;
    }
  }

  lemma RootSides(store: map<Id, Commit>, c1: Commit, c2: Commit, n: nat)
    ensures RootWithin(store, c1, c2, n) <==>
            RootIn(store, Within(store, AsSet(c1.parents), n)) || RootIn(store, Within(store, AsSet(c2.parents), n))
  {
  }

  lemma RootsEver(store: map<Id, Commit>, c1: Commit, c2: Commit, n: nat)
    requires forall m: nat :: RootWithin(store, c1, c2, m) ==> RootWithin(store, c1, c2, n)
    ensures RootWithin(store, c1, c2, n) <==> exists m: nat :: RootWithin(store, c1, c2, m)
  {
    hide RootWithin;
  }

  lemma IsBest(store: map<Id, Commit>, readable: Commit -> bool, c1: Commit, c2: Commit, n: nat, base: Commit)
    requires n > 0 && base.id in store && store[base.id] == base && NoneBefore(store, readable, c1, c2, n)
    requires Common(store, readable, c1, c2, n, base.id)
    requires forall id :: Common(store, readable, c1, c2, n, id) ==> id == base.id || Newer(base, store[id])
    ensures Best(store, readable, c1, c2, n, base)
  {
    hide Common, NoneBefore;
  }

  lemma FirstRound(store: map<Id, Commit>, readable: Commit -> bool, c1: Commit, c2: Commit)
    ensures Within(store, AsSet(c1.parents), 1) == AsSet(c1.parents)
    ensures Within(store, AsSet(c2.parents), 1) == AsSet(c2.parents)
    ensures NoneBefore(store, readable, c1, c2, 1)
    ensures !RootWithin(store, c1, c2, 0)
  {
  }

  lemma NextRound(store: map<Id, Commit>, readable: Commit -> bool, c1: Commit, c2: Commit, n: nat)
    requires NoneBefore(store, readable, c1, c2, n) && forall id :: !Common(store, readable, c1, c2, n, id)
    ensures NoneBefore(store, readable, c1, c2, n + 1)
  {
    hide Common;
  }

  /** The answer for two commits: `(base, reachedRoot)`. */
  method FindLCAMergeBase(store: map<Id, Commit>, readable: Commit -> bool, checksum: Commit -> Text, c1: Commit,
                          c2: Commit)
    returns (base: Option<Commit>, reachedRoot: bool, ghost rounds: nat)
    requires ById(store)
    ensures c1.parents == [] || c2.parents == [] ==> base == None && reachedRoot
    ensures base.Some? ==> Comparable(c1, c2)
    ensures !Comparable(c1, c2) && c1.parents != [] && c2.parents != [] ==> base == None && !reachedRoot
    ensures Comparable(c1, c2) && checksum(c1) == checksum(c2) ==> base == Some(c1) && !reachedRoot
    ensures Comparable(c1, c2) && checksum(c1) != checksum(c2) ==>
              if c2.id in c1.parents then base == Some(c2) && !reachedRoot
              else if c1.id in c2.parents then base == Some(c1) && !reachedRoot
              else if base.None? then NoneEver(store, readable, c1, c2)
              else Best(store, readable, c1, c2, rounds, base.value)
    ensures Searched(checksum, c1, c2) ==>
              (reachedRoot <==> if base.Some? then rounds > 0 && RootWithin(store, c1, c2, rounds - 1)
                                else exists m: nat :: RootWithin(store, c1, c2, m))
  {
    hide NoneEver, Best, RootWithin;
    rounds := 0;
    if |c1.parents| == 0 || |c2.parents| == 0 {
      return None, true, 0;
    }
    if c1.key != c2.key {
      return None, false, 0;
    }
    if checksum(c1) == checksum(c2) {
      return Some(c1), false, 0;
    }
    if c2.id in c1.parents {
      return Some(c2), false, 0;
    }
    if c1.id in c2.parents {
      return Some(c1), false, 0;
    }
    base, reachedRoot, rounds := Search(store, readable, c1, c2);
    if base.Some? {
      BestRound(store, readable, c1, c2, rounds, base.value);
    }
  }

  lemma BestRound(store: map<Id, Commit>, readable: Commit -> bool, c1: Commit, c2: Commit, n: nat, base: Commit)
    requires Best(store, readable, c1, c2, n, base)
    ensures n > 0
  {
  }

  predicate Comparable(c1: Commit, c2: Commit)
  {
    c1.parents != [] && c2.parents != [] && c1.key == c2.key
  }

  /** The graph is searched only when no shortcut applies. */
  predicate Searched(checksum: Commit -> Text, c1: Commit, c2: Commit)
  {
    Comparable(c1, c2) && checksum(c1) != checksum(c2) && c2.id !in c1.parents && c1.id !in c2.parents
  }

  /**
   What the search for two commits answers: nothing when one has no parents or their keys differ; the first one when
   the contents are equal; a commit that is the parent of the other; or else the best base, if the two sides meet.
   */
  ghost predicate Answer(store: map<Id, Commit>, readable: Commit -> bool, checksum: Commit -> Text, c1: Commit,
                         c2: Commit, base: Option<Commit>)
  {
    if !Comparable(c1, c2) then base == None
    else if checksum(c1) == checksum(c2) then base == Some(c1)
    else if c2.id in c1.parents then base == Some(c2)
    else if c1.id in c2.parents then base == Some(c1)
    else if base.None? then !Meet(store, readable, c1, c2)
    else exists n: nat :: Best(store, readable, c1, c2, n, base.value)
  }

  /** No base is found for the two, although both can be read. */
  ghost predicate Apart(store: map<Id, Commit>, readable: Commit -> bool, checksum: Commit -> Text, c1: Commit,
                        c2: Commit)
  {
    !Comparable(c1, c2) || (Searched(checksum, c1, c2) && !Meet(store, readable, c1, c2))
  }

  /** A commit without parents was passed: one of the two, or one that the search came by before it ended. */
  ghost predicate PassesRoot(store: map<Id, Commit>, readable: Commit -> bool, checksum: Commit -> Text, c1: Commit,
                             c2: Commit)
  {
    || c1.parents == [] || c2.parents == []
    || (Searched(checksum, c1, c2) && exists n: nat ::
          RootWithin(store, c1, c2, n) && forall m: nat, id :: m <= n ==> !Common(store, readable, c1, c2, m, id))
  }

  lemma AnswerIs(store: map<Id, Commit>, readable: Commit -> bool, checksum: Commit -> Text, c1: Commit, c2: Commit,
                 base: Option<Commit>, rounds: nat)
    requires !Comparable(c1, c2) ==> base == None
    requires Comparable(c1, c2) && checksum(c1) == checksum(c2) ==> base == Some(c1)
    requires Comparable(c1, c2) && checksum(c1) != checksum(c2) ==>
               if c2.id in c1.parents then base == Some(c2)
               else if c1.id in c2.parents then base == Some(c1)
               else if base.None? then NoneEver(store, readable, c1, c2)
               else Best(store, readable, c1, c2, rounds, base.value)
    ensures Answer(store, readable, checksum, c1, c2, base)
    ensures base.None? <==> Apart(store, readable, checksum, c1, c2)
  {
    hide NoneEver, Best, Meet;
    NoBaseNoPaths(store, readable, c1, c2);
    if Searched(checksum, c1, c2) && base.Some? {
      BestMeets(store, readable, c1, c2, rounds, base.value);
    }
  }

  lemma BestMeets(store: map<Id, Commit>, readable: Commit -> bool, c1: Commit, c2: Commit, n: nat, base: Commit)
    requires Best(store, readable, c1, c2, n, base)
    ensures !NoneEver(store, readable, c1, c2)
  {
    hide Common;
  }

  lemma FlagIs(store: map<Id, Commit>, readable: Commit -> bool, checksum: Commit -> Text, c1: Commit, c2: Commit,
               base: Option<Commit>, reachedRoot: bool, rounds: nat)
    requires c1.parents == [] || c2.parents == [] ==> reachedRoot
    requires c1.parents != [] && c2.parents != [] && !Searched(checksum, c1, c2) ==> !reachedRoot
    requires Searched(checksum, c1, c2) ==>
               (if base.Some? then Best(store, readable, c1, c2, rounds, base.value)
                 else NoneEver(store, readable, c1, c2))
    requires Searched(checksum, c1, c2) ==>
               (reachedRoot <==> if base.Some? then rounds > 0 && RootWithin(store, c1, c2, rounds - 1)
                                 else exists m: nat :: RootWithin(store, c1, c2, m))
    ensures reachedRoot <==> PassesRoot(store, readable, checksum, c1, c2)
  {
    hide RootWithin, Common;
    if Searched(checksum, c1, c2) && base.Some? {
      FlagOfBest(store, readable, c1, c2, base.value, rounds);
    }
  }

  lemma FlagOfBest(store: map<Id, Commit>, readable: Commit -> bool, c1: Commit, c2: Commit, base: Commit, rounds: nat)
    requires Best(store, readable, c1, c2, rounds, base)
    ensures rounds > 0
    ensures RootWithin(store, c1, c2, rounds - 1) <==>
            exists n: nat :: RootWithin(store, c1, c2, n)
              && forall m: nat, id :: m <= n ==> !Common(store, readable, c1, c2, m, id)
  {
    hide RootWithin, Common;
    forall n: nat | RootWithin(store, c1, c2, n)
      && forall m: nat, id :: m <= n ==> !Common(store, readable, c1, c2, m, id)
      ensures RootWithin(store, c1, c2, rounds - 1)
    {
      assert n < rounds;
      RootLater(store, c1, c2, n, rounds - 1);
    }
  }

  lemma {:induction false} RootLater(store: map<Id, Commit>, c1: Commit, c2: Commit, n: nat, m: nat)
    requires n <= m && RootWithin(store, c1, c2, n)
    ensures RootWithin(store, c1, c2, m)
    decreases m - n
  {
    hide RootWithin;
    if n < m {
      RootMonotone(store, c1, c2, n);
      RootLater(store, c1, c2, n + 1, m);
    }
  }

  // ---------------------------------------------------------------------------------------

  /** The sets that the search grows hold exactly the ends of short parent chains. */
  lemma WithinIsPaths(store: map<Id, Commit>, start: seq<Id>, n: nat, id: Id)
    ensures id in Within(store, AsSet(start), n) <==> exists p :: Leads(store, start, p, id) && |p| <= n
  {
    hide Leads, Within;
    if id in Within(store, AsSet(start), n) {
      var p := WithinHasPath(store, start, n, id);
    }
    forall p | Leads(store, start, p, id) && |p| <= n ensures id in Within(store, AsSet(start), n) {
      PathWithin(store, start, p, id, n);
    }
  }

  lemma {:induction false} WithinHasPath(store: map<Id, Commit>, start: seq<Id>, n: nat, id: Id) returns (p: seq<Id>)
    requires id in Within(store, AsSet(start), n)
    ensures Leads(store, start, p, id) && |p| <= n
  {
    if id in start {
      p := [id];
    } else {
      var child :| child in Within(store, AsSet(start), n - 1) && child in store && id in store[child].parents;
      var q := WithinHasPath(store, start, n - 1, child);
      p := q + [id];
    }
  }

  lemma {:induction false} PathWithin(store: map<Id, Commit>, start: seq<Id>, p: seq<Id>, id: Id, n: nat)
    requires Leads(store, start, p, id) && |p| <= n
    ensures id in Within(store, AsSet(start), n)
  {
    if |p| > 1 {
      var q := p[..|p| - 1];
      PathWithin(store, start, q, q[|q| - 1], n - 1);
      assert q[|q| - 1] in store && p[|p| - 1] in store[q[|q| - 1]].parents;
    }
  }

  lemma PathsMeet(store: map<Id, Commit>, readable: Commit -> bool, c1: Commit, c2: Commit, p1: seq<Id>, p2: seq<Id>,
                  id: Id)
    requires Leads(store, c1.parents, p1, id) && Leads(store, c2.parents, p2, id) && id in store && readable(store[id])
    ensures Common(store, readable, c1, c2, Max(|p1|, |p2|), id)
  {
    hide Leads, Within;
    PathWithin(store, c1.parents, p1, id, Max(|p1|, |p2|));
    PathWithin(store, c2.parents, p2, id, Max(|p1|, |p2|));
  }

  /** No readable commit that both sides reach lies closer than the base: its farther chain is at least as long. */
  lemma BaseIsNearest(store: map<Id, Commit>, readable: Commit -> bool, c1: Commit, c2: Commit, n: nat, base: Commit,
                      p1: seq<Id>, p2: seq<Id>, id: Id)
    requires Best(store, readable, c1, c2, n, base)
    requires Leads(store, c1.parents, p1, id) && Leads(store, c2.parents, p2, id) && id in store && readable(store[id])
    ensures n <= Max(|p1|, |p2|)
    ensures n == Max(|p1|, |p2|) ==>
              id == base.id || store[id].timestamp < base.timestamp
              || (store[id].timestamp == base.timestamp && Above(base.id, store[id].id))
  {
    hide Newer, Leads, Within, Above;
    PathsMeet(store, readable, c1, c2, p1, p2, id);
    NewerMeans(base, store[id]);
  }

  /** The base is reached from both sides, by chains of which the longer has the length of the round. */
  lemma BaseIsCommon(store: map<Id, Commit>, readable: Commit -> bool, c1: Commit, c2: Commit, n: nat, base: Commit)
    returns (p1: seq<Id>, p2: seq<Id>)
    requires Best(store, readable, c1, c2, n, base)
    ensures Leads(store, c1.parents, p1, base.id) && Leads(store, c2.parents, p2, base.id) && Max(|p1|, |p2|) == n
    ensures base.id in store && store[base.id] == base && readable(base)
  {
    hide Newer, Leads, Within;
    p1 := WithinHasPath(store, c1.parents, n, base.id);
    p2 := WithinHasPath(store, c2.parents, n, base.id);
    BaseIsNearest(store, readable, c1, c2, n, base, p1, p2, base.id);
  }

  /** Nothing is returned exactly when the two sides reach no readable commit in common. */
  lemma NoBaseNoPaths(store: map<Id, Commit>, readable: Commit -> bool, c1: Commit, c2: Commit)
    ensures NoneEver(store, readable, c1, c2) <==> !Meet(store, readable, c1, c2)
  {
    hide Leads, Within;
    if Meet(store, readable, c1, c2) {
      var p1, p2, id :| Leads(store, c1.parents, p1, id) && Leads(store, c2.parents, p2, id)
                        && id in store && readable(store[id]);
      PathsMeet(store, readable, c1, c2, p1, p2, id);
    }
    if !NoneEver(store, readable, c1, c2) {
      var m: nat, id :| Common(store, readable, c1, c2, m, id);
      var p1 := WithinHasPath(store, c1.parents, m, id);
      var p2 := WithinHasPath(store, c2.parents, m, id);
    }
  }

  /** Parent chains of any length lead from both commits to one known, readable commit. */
  ghost predicate Meet(store: map<Id, Commit>, readable: Commit -> bool, c1: Commit, c2: Commit)
  {
    exists p1, p2, id :: Leads(store, c1.parents, p1, id) && Leads(store, c2.parents, p2, id)
                         && id in store && readable(store[id])
  }

  /** Parents come earlier than their children in some ranking: the graph has no cycle. */
  ghost predicate Ranked(store: map<Id, Commit>, rank: Id -> int)
  {
    forall id, p :: id in store && p in store[id].parents ==> rank(p) < rank(id)
  }

  lemma {:induction false} AncestorsRankLower(store: map<Id, Commit>, rank: Id -> int, c: Commit, n: nat, id: Id)
    requires Ranked(store, rank) && c.id in store && store[c.id] == c && id in Within(store, AsSet(c.parents), n)
    ensures rank(id) < rank(c.id)
  {
    if id !in c.parents {
      var child :| child in Within(store, AsSet(c.parents), n - 1) && child in store && id in store[child].parents;
      AncestorsRankLower(store, rank, c, n - 1, child);
    }
  }

  /**
   In a graph without cycles the search never returns one of the two commits, even when it is an ancestor of the
   other: only a direct parent link, which is tested first, makes a commit its own base.
   */
  lemma NeverEitherSide(store: map<Id, Commit>, readable: Commit -> bool, rank: Id -> int, c1: Commit, c2: Commit,
                        n: nat, base: Commit)
    requires Ranked(store, rank) && Best(store, readable, c1, c2, n, base)
    requires c1.id in store && store[c1.id] == c1 && c2.id in store && store[c2.id] == c2
    ensures rank(base.id) < rank(c1.id) && rank(base.id) < rank(c2.id)
  {
    hide Ranked, Within, Newer;
    AncestorsRankLower(store, rank, c1, n, base.id);
    AncestorsRankLower(store, rank, c2, n, base.id);
  }

  // ---------------------------------------------------------------------------------------

  predicate Stored(store: map<Id, Commit>, c: Commit)
  {
    c.id in store && store[c.id] == c
  }

  /** `b` is `a` or one of its ancestors. */
  ghost predicate Reaches(store: map<Id, Commit>, a: Commit, b: Commit)
  {
    a == b || (Stored(store, b) && exists n: nat :: b.id in Within(store, AsSet(a.parents), n))
  }

  /** `base` lies above `c`, or above a stored commit with the same contents. */
  ghost predicate Supports(store: map<Id, Commit>, checksum: Commit -> Text, base: Commit, c: Commit)
  {
    exists x :: Stored(store, x) && checksum(x) == checksum(c) && Reaches(store, x, base)
  }

  lemma StepUp(store: map<Id, Commit>, start: set<Id>, n: nat, child: Id, id: Id)
    requires child in Within(store, start, n) && child in store && id in store[child].parents
    ensures id in Within(store, start, n + 1)
  {
  }

  lemma StepDown(store: map<Id, Commit>, start: set<Id>, n: nat, id: Id) returns (child: Id)
    requires id in Within(store, start, n) && id !in start
    ensures n > 0 && child in Within(store, start, n - 1) && child in store && id in store[child].parents
  {
    child :| child in Within(store, start, n - 1) && child in store && id in store[child].parents;
  }

  lemma {:induction false} WithinChains(store: map<Id, Commit>, a: Commit, b: Commit, n: nat, m: nat, id: Id)
    requires Stored(store, b) && b.id in Within(store, AsSet(a.parents), n) && id in Within(store, AsSet(b.parents), m)
    ensures id in Within(store, AsSet(a.parents), n + m)
  {
    hide Within;
    if id in b.parents {
      StepUp(store, AsSet(a.parents), n, b.id, id);
      FirstStep(store, AsSet(b.parents), m, id);
      WithinMonotone(store, AsSet(a.parents), n + 1, n + m);
    } else {
      var child := StepDown(store, AsSet(b.parents), m, id);
      WithinChains(store, a, b, n, m - 1, child);
      StepUp(store, AsSet(a.parents), n + m - 1, child, id);
    }
  }

  lemma FirstStep(store: map<Id, Commit>, start: set<Id>, n: nat, id: Id)
    requires id in Within(store, start, n)
    ensures n > 0
  {
  }

  lemma ReachesTransitive(store: map<Id, Commit>, a: Commit, b: Commit, c: Commit)
    requires Reaches(store, a, b) && Reaches(store, b, c)
    ensures Reaches(store, a, c)
  {
    hide Within;
    if a != b && b != c {
      var n: nat :| b.id in Within(store, AsSet(a.parents), n);
      var m: nat :| c.id in Within(store, AsSet(b.parents), m);
      WithinChains(store, a, b, n, m, c.id);
    }
  }

  lemma ParentReached(store: map<Id, Commit>, a: Commit, b: Commit)
    requires Stored(store, b) && b.id in a.parents
    ensures Reaches(store, a, b)
  {
    assert b.id in Within(store, AsSet(a.parents), 1);
  }

  lemma BestReached(store: map<Id, Commit>, readable: Commit -> bool, c1: Commit, c2: Commit, n: nat, base: Commit)
    requires Best(store, readable, c1, c2, n, base)
    ensures Reaches(store, c1, base) && Reaches(store, c2, base) && Stored(store, base) && readable(base)
  {
    hide Within, Newer;
  }

  lemma SupportsFurther(store: map<Id, Commit>, checksum: Commit -> Text, base: Commit, next: Commit, c: Commit)
    requires Supports(store, checksum, base, c) && Reaches(store, base, next)
    ensures Supports(store, checksum, next, c)
  {
    hide Reaches;
    var x :| Stored(store, x) && checksum(x) == checksum(c) && Reaches(store, x, base);
    ReachesTransitive(store, x, base, next);
  }

  /** One step of the fold: a new base lies above the previous one and above the commit that joins. */
  method Join(store: map<Id, Commit>, readable: Commit -> bool, checksum: Commit -> Text, result: Commit, c: Commit)
    returns (base: Option<Commit>, foundRoot: bool)
    requires ById(store) && Stored(store, result) && Stored(store, c) && readable(result) && readable(c)
    ensures base.Some? ==> Stored(store, base.value) && readable(base.value) && Reaches(store, result, base.value)
    ensures base.Some? ==> Supports(store, checksum, base.value, c)
    ensures Answer(store, readable, checksum, result, c, base)
    ensures base.None? <==> Apart(store, readable, checksum, result, c)
    ensures foundRoot <==> PassesRoot(store, readable, checksum, result, c)
  {
    hide Within, Best, NoneEver, RootWithin, PassesRoot, Answer, Apart;
    ghost var rounds;
    base, foundRoot, rounds := FindLCAMergeBase(store, readable, checksum, result, c);
    AnswerIs(store, readable, checksum, result, c, base, rounds);
    FlagIs(store, readable, checksum, result, c, base, foundRoot, rounds);
    if base.Some? && checksum(result) != checksum(c) {
      if c.id in result.parents {
        ParentReached(store, result, c);
      } else if result.id in c.parents {
        ParentReached(store, c, result);
      } else {
        BestReached(store, readable, result, c, rounds, base.value);
      }
    }
  }

  /** Whether a commit is included when its turn comes, and what the running base is afterwards. */
  ghost predicate Turn(store: map<Id, Commit>, readable: Commit -> bool, checksum: Commit -> Text,
                       before: Option<Commit>, c: Commit, taken: bool, after: Option<Commit>)
  {
    && (taken <==> readable(c) && (before.None? || !Apart(store, readable, checksum, before.value, c)))
    && if !taken then after == before
       else if before.None? then after == Some(c)
       else after.Some? && Answer(store, readable, checksum, before.value, c, after)
  }

  /** The run of the fold: `bases[i]` is the running base before the turn of the i-th commit. */
  ghost predicate Folded(store: map<Id, Commit>, readable: Commit -> bool, checksum: Commit -> Text,
                         commits: seq<Commit>, taken: seq<bool>, bases: seq<Option<Commit>>)
  {
    && |taken| == |commits| && |bases| == |commits| + 1 && bases[0] == None
    && forall i {:trigger taken[i]} :: 0 <= i < |commits| ==>
         Turn(store, readable, checksum, bases[i], commits[i], taken[i], bases[i + 1])
  }

  /** The commits whose mark is set, in order. */
  ghost function Chosen(commits: seq<Commit>, taken: seq<bool>): seq<Commit>
    requires |commits| == |taken|
  {
    if commits == [] then []
    else
      var n := |commits| - 1;
      Chosen(commits[..n], taken[..n]) + if taken[n] then [commits[n]] else []
  }

  /** Some search of the fold, among the first `n` turns, passed a commit without parents. */
  ghost predicate RootPassed(store: map<Id, Commit>, readable: Commit -> bool, checksum: Commit -> Text,
                             commits: seq<Commit>, bases: seq<Option<Commit>>, n: nat)
    requires n <= |commits| && n <= |bases|
  {
    exists i {:trigger bases[i]} :: 0 <= i < n && bases[i].Some? && readable(commits[i])
                                    && PassesRoot(store, readable, checksum, bases[i].value, commits[i])
  }

  lemma FoldMore(store: map<Id, Commit>, readable: Commit -> bool, checksum: Commit -> Text, commits: seq<Commit>,
                 c: Commit, taken: seq<bool>, bases: seq<Option<Commit>>, take: bool, next: Option<Commit>)
    requires Folded(store, readable, checksum, commits, taken, bases)
    requires Turn(store, readable, checksum, bases[|commits|], c, take, next)
    ensures Folded(store, readable, checksum, commits + [c], taken + [take], bases + [next])
    ensures Chosen(commits + [c], taken + [take]) == Chosen(commits, taken) + if take then [c] else []
  {
    hide Turn;
    assert (commits + [c])[..|commits|] == commits && (taken + [take])[..|commits|] == taken;
  }

  lemma RootMore(store: map<Id, Commit>, readable: Commit -> bool, checksum: Commit -> Text, commits: seq<Commit>,
                 c: Commit, bases: seq<Option<Commit>>, next: Option<Commit>)
    requires |bases| == |commits| + 1
    ensures RootPassed(store, readable, checksum, commits + [c], bases + [next], |commits| + 1) <==>
            RootPassed(store, readable, checksum, commits, bases, |commits|)
            || (bases[|commits|].Some? && readable(c)
                  && PassesRoot(store, readable, checksum, bases[|commits|].value, c))
  {
    hide PassesRoot;
    var all := bases + [next];
    assert forall i {:trigger bases[i]} :: 0 <= i <= |commits| ==> all[i] == bases[i];
    assert forall i {:trigger all[i]} :: 0 <= i <= |commits| ==> all[i] == bases[i];
  }

  lemma FoldStarts(store: map<Id, Commit>, readable: Commit -> bool, checksum: Commit -> Text)
    ensures Folded(store, readable, checksum, [], [], [None]) && Chosen([], []) == []
    ensures !RootPassed(store, readable, checksum, [], [None], 0)
  {
  }

  /** The base for merging many commits; those for which no base is found with the base so far are skipped. */
  method FindMergeBase(store: map<Id, Commit>, readable: Commit -> bool, checksum: Commit -> Text, commits: seq<Commit>)
    returns (included: seq<Commit>, base: Option<Commit>, reachedRoot: bool, ghost taken: seq<bool>,
             ghost bases: seq<Option<Commit>>)
    requires ById(store) && forall c :: c in commits ==> Stored(store, c)
    ensures Folded(store, readable, checksum, commits, taken, bases)
    ensures included == Chosen(commits, taken) && base == bases[|commits|]
    ensures reachedRoot <==> RootPassed(store, readable, checksum, commits, bases, |commits|)
    ensures base.None? <==> forall c :: c in commits ==> !readable(c)
    ensures base.None? ==> included == [] && !reachedRoot
    ensures base.Some? ==> Stored(store, base.value) && readable(base.value)
    ensures forall c :: c in included ==> c in commits && readable(c)
    ensures base.Some? ==> included != [] && Reaches(store, included[0], base.value)
    ensures base.Some? ==> forall c :: c in included ==> Supports(store, checksum, base.value, c)
  {
    hide Reaches, Supports, ById, Stored, Answer, Apart, PassesRoot, Folded, RootPassed, Chosen;
    included, base, reachedRoot := [], None, false;
    taken, bases := [], [None];
    FoldStarts(store, readable, checksum);
    for i := 0 to |commits|
      invariant |taken| == i && |bases| == i + 1 && bases[i] == base
      invariant Folded(store, readable, checksum, commits[..i], taken, bases)
      invariant included == Chosen(commits[..i], taken)
      invariant reachedRoot <==> RootPassed(store, readable, checksum, commits[..i], bases, i)
      invariant base.None? <==> forall c :: c in commits[..i] ==> !readable(c)
      invariant base.None? ==> included == [] && !reachedRoot
      invariant base.Some? ==> Stored(store, base.value) && readable(base.value)
      invariant forall c :: c in included ==> c in commits && readable(c)
      invariant base.Some? ==> included != [] && Reaches(store, included[0], base.value)
      invariant base.Some? ==> forall c :: c in included ==> Supports(store, checksum, base.value, c)
    {
      var c := commits[i];
      assert c in commits && commits[..i + 1] == commits[..i] + [c];
      ghost var take, before := false, base;
      if base.None? {
        if readable(c) {
          base, included, take := Some(c), included + [c], true;
          ReachesSelf(store, checksum, c);
        }
      } else if readable(c) {
        var result := base.value;
        var newBase, foundRoot := Join(store, readable, checksum, result, c);
        reachedRoot := reachedRoot || foundRoot;
        if newBase.Some? {
          base, take := newBase, true;
          ReachesTransitive(store, included[0], result, newBase.value);
          forall x | x in included ensures Supports(store, checksum, newBase.value, x) {
            SupportsFurther(store, checksum, result, newBase.value, x);
          }
          included := included + [c];
        }
      }
      FoldMore(store, readable, checksum, commits[..i], c, taken, bases, take, base);
      RootMore(store, readable, checksum, commits[..i], c, bases, base);
      taken, bases := taken + [take], bases + [base];
    }
    assert commits[..|commits|] == commits;
  }

  lemma ReachesSelf(store: map<Id, Commit>, checksum: Commit -> Text, c: Commit)
    requires Stored(store, c)
    ensures Reaches(store, c, c) && Supports(store, checksum, c, c)
  {
  }

  /** Once the running base has no parents nothing more is included, whatever its ancestry. */
  lemma {:induction false} NothingAfterRoot(store: map<Id, Commit>, readable: Commit -> bool, checksum: Commit -> Text,
                                            commits: seq<Commit>, taken: seq<bool>, bases: seq<Option<Commit>>,
                                            i: nat, j: nat)
    requires Folded(store, readable, checksum, commits, taken, bases) && i <= j < |commits|
    requires bases[i].Some? && bases[i].value.parents == []
    ensures !taken[j] && bases[j + 1] == bases[i]
    decreases j
  {
    hide Answer;
    if i < j {
      NothingAfterRoot(store, readable, checksum, commits, taken, bases, i, j - 1);
    }
    assert Turn(store, readable, checksum, bases[j], commits[j], taken[j], bases[j + 1]);
  }

  /**
   Three commits whose only parent is one readable root: the base of the first two is the root, and the third is
   skipped, although its ancestry is whole.
   */
  lemma ThirdSiblingSkipped(store: map<Id, Commit>, readable: Commit -> bool, checksum: Commit -> Text, root: Commit,
                            s1: Commit, s2: Commit, s3: Commit, taken: seq<bool>, bases: seq<Option<Commit>>)
    requires Stored(store, root) && readable(root) && root.parents == []
    requires s1.parents == s2.parents == s3.parents == [root.id] && s1.key == s2.key == s3.key
    requires readable(s1) && readable(s2) && readable(s3) && checksum(s1) != checksum(s2)
    requires s1.id != root.id && s2.id != root.id
    requires Folded(store, readable, checksum, [s1, s2, s3], taken, bases)
    ensures taken == [true, true, false] && bases[3] == Some(root)
  {
    var commits := [s1, s2, s3];
    hide Answer, Apart;
    assert Turn(store, readable, checksum, bases[0], commits[0], taken[0], bases[1]);
    assert Turn(store, readable, checksum, bases[1], commits[1], taken[1], bases[2]);
    SiblingsMeet(store, readable, checksum, root, s1, s2);
    assert bases[2] == Some(root) by {
      OnlyBase(store, readable, checksum, root, s1, s2, bases[2]);
    }
    NothingAfterRoot(store, readable, checksum, commits, taken, bases, 2, 2);
  }

  lemma SiblingsMeet(store: map<Id, Commit>, readable: Commit -> bool, checksum: Commit -> Text, root: Commit,
                     s1: Commit, s2: Commit)
    requires Stored(store, root) && readable(root)
    requires s1.parents == s2.parents == [root.id] && s1.key == s2.key
    ensures !Apart(store, readable, checksum, s1, s2)
  {
    var p := [root.id];
    assert Leads(store, s1.parents, p, root.id) && Leads(store, s2.parents, p, root.id);
  }

  lemma OnlyBase(store: map<Id, Commit>, readable: Commit -> bool, checksum: Commit -> Text, root: Commit, s1: Commit,
                 s2: Commit, base: Option<Commit>)
    requires Stored(store, root) && readable(root) && root.parents == []
    requires s1.parents == s2.parents == [root.id] && s1.key == s2.key && checksum(s1) != checksum(s2)
    requires s1.id != root.id && s2.id != root.id
    requires base.Some? && Answer(store, readable, checksum, s1, s2, base)
    ensures base == Some(root)
  {
    hide Within;
    var n: nat :| Best(store, readable, s1, s2, n, base.value);
    FirstRound(store, readable, s1, s2);
    OneParentSet(root.id);
    assert Common(store, readable, s1, s2, 1, root.id);
    FirstStep(store, AsSet(s1.parents), n, base.value.id);
    assert n == 1;
  }

  lemma OneParentSet(id: Id)
    ensures AsSet([id]) == {id}
  {
  }
}
