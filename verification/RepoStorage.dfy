/** The in-memory commit store: an append-only set of commits, grouped by record key. */
module RepoStorage {
  import opened Wrappers
  import opened Texts
  import opened Commits
  import opened Sequences

  type Key = Option<Text>

  /** The same id always means the same commit. */
  ghost predicate Consistent(store: map<Id, Commit>, commits: seq<Commit>)
  {
    && (forall c :: c in commits && c.id in store ==> store[c.id] == c)
    && forall c, d :: c in commits && d in commits && c.id == d.id ==> c == d
  }

  /** The store after some commits have arrived. */
  function Arrived(store: map<Id, Commit>, commits: seq<Commit>): map<Id, Commit>
  {
    if commits == [] then store
    else
      var before, c := Arrived(store, commits[..|commits| - 1]), commits[|commits| - 1];
      if c.id in before then before else before[c.id := c]
  }

  /** The commits among them that were not known before, each once, in order. */
  function NewOnes(store: map<Id, Commit>, commits: seq<Commit>): seq<Commit>
  {
    if commits == [] then []
    else
      var before, c := commits[..|commits| - 1], commits[|commits| - 1];
      NewOnes(store, before) + if c.id in Arrived(store, before) then [] else [c]
  }

  /** The ids filed under a key, in order of arrival. */
  function IdsFor(byKey: map<Key, seq<Id>>, key: Key): seq<Id>
  {
    if key in byKey then byKey[key] else []
  }

  /** The per-key lists partition the store: every commit stands once, under its own key. */
  ghost predicate Partition(byId: map<Id, Commit>, byKey: map<Key, seq<Id>>)
  {
    && (forall key, id :: id in IdsFor(byKey, key) <==> id in byId && byId[id].key == key)
    && forall key :: Distinct(IdsFor(byKey, key))
  }

  class MemRepoStorage {
    var commitsById: map<Id, Commit>
    var commitsByRecordKey: map<Key, seq<Id>>

    ghost predicate Valid()
      reads this
    {
      ById(commitsById) && Partition(commitsById, commitsByRecordKey)
    }

    constructor ()
      ensures Valid() && commitsById == map[]
    {
      commitsById, commitsByRecordKey := map[], map[];
    }

    method CommitsForKey(key: Key) returns (commits: seq<Commit>)
      requires Valid()
      ensures |commits| == |IdsFor(commitsByRecordKey, key)|
      ensures forall i :: 0 <= i < |commits| ==>
              commits[i].id in commitsById && commits[i] == commitsById[IdsFor(commitsByRecordKey, key)[i]]
      ensures forall c: Commit :: c in commits <==> c.id in commitsById && commitsById[c.id] == c && c.key == key
    {
      var ids := IdsFor(commitsByRecordKey, key);
      commits := [];
      for i := 0 to |ids|
        invariant |commits| == i
        invariant forall j :: 0 <= j < i ==>
                  ids[j] in commitsById && commits[j] == commitsById[ids[j]] && commits[j].id == ids[j]
      {
        assert ids[i] in ids;
        commits := commits + [commitsById[ids[i]]];
      }
      forall c: Commit | c.id in commitsById && commitsById[c.id] == c && c.key == key ensures c in commits {
        assert c.id in ids;
        var j :| 0 <= j < |ids| && ids[j] == c.id;
        assert commits[j] == c;
      }
      forall c | c in commits ensures c.id in commitsById && commitsById[c.id] == c && c.key == key {
        var j :| 0 <= j < |commits| && commits[j] == c;
        assert ids[j] in ids;
      }
    }

    /** Stores what is new and returns it; known commits are skipped. */
    method PersistCommits(commits: seq<Commit>) returns (persisted: seq<Commit>)
      requires Valid() && Consistent(commitsById, commits)
      modifies this
      ensures Valid()
      ensures commitsById == Arrived(old(commitsById), commits)
      ensures persisted == NewOnes(old(commitsById), commits)
      ensures forall key :: (forall c: Commit :: c in persisted ==> c.key != key) ==>
                IdsFor(commitsByRecordKey, key) == IdsFor(old(commitsByRecordKey), key)
    {
      hide Partition, ById, Consistent;
      persisted := [];
      ghost var start := commitsById;
      for i := 0 to |commits|
        invariant Valid()
        invariant commitsById == Arrived(start, commits[..i]) && persisted == NewOnes(start, commits[..i])
        invariant forall key :: (forall c: Commit :: c in persisted ==> c.key != key) ==>
                    IdsFor(commitsByRecordKey, key) == IdsFor(old(commitsByRecordKey), key)
      {
        assert commits[..i + 1][..i] == commits[..i];
        var c := commits[i];
        if c.id in commitsById {
          KnownIsEqual(start, commits, i);
          assert c == commitsById[c.id];
          continue;
        }
        OneMore(commitsById, commitsByRecordKey, c);
        commitsById := commitsById[c.id := c];
        commitsByRecordKey := commitsByRecordKey[c.key := IdsFor(commitsByRecordKey, c.key) + [c.id]];
        assert (persisted + [c])[|persisted|] == c;
        persisted := persisted + [c];
      }
      assert commits[..|commits|] == commits;
    }
  }

  /** What is stored under an id is what arrived first, and everything that arrives under it is the same. */
  lemma {:induction false} KnownIsEqual(start: map<Id, Commit>, commits: seq<Commit>, n: nat)
    requires n < |commits| && Consistent(start, commits) && commits[n].id in Arrived(start, commits[..n])
    ensures Arrived(start, commits[..n])[commits[n].id] == commits[n]
  {
    ArrivedFrom(start, commits[..n], commits[n].id);
    assert commits[n] in commits;
    assert forall c :: c in commits[..n] ==> c in commits;
  }

  lemma {:induction false} ArrivedFrom(start: map<Id, Commit>, commits: seq<Commit>, id: Id)
    ensures id in Arrived(start, commits) <==> id in start || exists c :: c in commits && c.id == id
    ensures id in start ==> Arrived(start, commits)[id] == start[id]
    ensures id in Arrived(start, commits) && id !in start ==>
            Arrived(start, commits)[id] in commits && Arrived(start, commits)[id].id == id
  {
    if commits != [] {
      var n := |commits| - 1;
      ArrivedFrom(start, commits[..n], id);
      assert commits == commits[..n] + [commits[n]];
      assert commits[n] in commits;
      assert forall c :: c in commits <==> c in commits[..n] || c == commits[n];
    }
  }

  lemma OneMore(byId: map<Id, Commit>, byKey: map<Key, seq<Id>>, c: Commit)
    requires ById(byId) && Partition(byId, byKey) && c.id !in byId
    ensures ById(byId[c.id := c]) && Partition(byId[c.id := c], byKey[c.key := IdsFor(byKey, c.key) + [c.id]])
  {
    var byId', byKey' := byId[c.id := c], byKey[c.key := IdsFor(byKey, c.key) + [c.id]];
    assert c.id !in IdsFor(byKey, c.key);
    forall key ensures Distinct(IdsFor(byKey', key)) {
      assert Distinct(IdsFor(byKey, key));
    }
    forall key, id ensures id in IdsFor(byKey', key) <==> id in byId' && byId'[id].key == key {
      assert id in IdsFor(byKey, key) <==> id in byId && byId[id].key == key;
    }
  }

  /** Order, batching and repetitions of arrivals do not matter: the store ends as the union. */
  lemma ArrivalOrder(start: map<Id, Commit>, a: seq<Commit>, b: seq<Commit>)
    requires Consistent(start, a) && (forall c :: c in a <==> c in b)
    ensures Arrived(start, a) == Arrived(start, b)
  {
    var x, y := Arrived(start, a), Arrived(start, b);
    forall id ensures (id in x <==> id in y) && (id in x ==> x[id] == y[id]) {
      ArrivedFrom(start, a, id);
      ArrivedFrom(start, b, id);
    }
  }

  lemma {:induction false} ArrivedTwice(start: map<Id, Commit>, a: seq<Commit>, b: seq<Commit>)
    ensures Arrived(start, a + b) == Arrived(Arrived(start, a), b)
    ensures NewOnes(start, a + b) == NewOnes(start, a) + NewOnes(Arrived(start, a), b)
  {
    if b == [] {
      assert a + b == a;
    } else {
      var n := |b| - 1;
      assert (a + b)[..|a + b| - 1] == a + b[..n];
      ArrivedTwice(start, a, b[..n]);
    }
  }
}
