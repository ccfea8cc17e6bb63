/** A repository over the commit store: records of commits, heads of keys, and the caches that must agree with them. */
module Repository {
  import opened Wrappers
  import opened Texts
  import opened Commits
  import opened Records
  import opened RepoStorage
  import A = AdjacencyList

  const PARENT: Text := [112, 97, 114, 101, 110, 116]

  /** The record that an edit makes of its base; `None` when a checksum or a field does not fit (a corrupted commit). */
  function Decode(ops: TypeOps, base: Record, edit: Edit): Option<Record>
  {
    if ops.checksum(base) != edit.srcChecksum || !(edit.changes.Keys <= base.scheme.fields.Keys) then None
    else
      var data := Patch(ops, base.scheme.fields, base.data, edit.changes);
      var r := Record(base.scheme, ops.normalize(base.scheme, data));
      if ops.checksum(r) == edit.dstChecksum then Some(r) else None
  }

  /** The record of a commit; `None` when it cannot be read: a base is missing, or corrupted. */
  function RecordIn(ops: TypeOps, store: map<Id, Commit>, c: Commit, seen: set<Id>): Option<Record>
    decreases store.Keys - seen
  {
    match c.contents
    case Full(record) => Some(record)
    case Delta(base, edit) =>
      if base !in store || base in seen then None
      else
        match RecordIn(ops, store, store[base], seen + {base})
        case None => None
        case Some(r) => Decode(ops, r, edit)
  }

  predicate Readable(ops: TypeOps, store: map<Id, Commit>, c: Commit)
  {
    RecordIn(ops, store, c, {}).Some?
  }

  predicate HasChild(store: map<Id, Commit>, id: Id)
  {
    exists c :: c in store && id in store[c].parents
  }

  /** Parents and delta bases belong to the record of their commit. */
  ghost predicate KeyLocal(store: map<Id, Commit>)
  {
    && (forall id, p :: id in store && p in store[id].parents && p in store ==> store[p].key == store[id].key)
    && forall id :: id in store && store[id].contents.Delta? && store[id].contents.base in store ==>
         store[store[id].contents.base].key == store[id].key
  }

  /** `store2` is `store1` and some commits for other keys. */
  ghost predicate OtherKeysOnly(store1: map<Id, Commit>, store2: map<Id, Commit>, key: Key)
  {
    && (forall id :: id in store1 ==> id in store2 && store2[id] == store1[id])
    && forall id :: id in store2 && id !in store1 ==> store2[id].key != key
  }

  /** Commits for other keys change neither what a commit's record is, ... */
  lemma {:induction false} RecordKept(ops: TypeOps, store1: map<Id, Commit>, store2: map<Id, Commit>, key: Key,
                                      c: Commit, seen: set<Id>)
    requires OtherKeysOnly(store1, store2, key) && KeyLocal(store2) && ById(store1)
    requires c.key == key && c.id in store1 && store1[c.id] == c
    ensures RecordIn(ops, store2, c, seen) == RecordIn(ops, store1, c, seen)
    decreases store1.Keys - seen
  {
    if c.contents.Delta? {
      var base := c.contents.base;
      assert store2[c.id] == c;
      if base in store1 && base !in seen {
        RecordKept(ops, store1, store2, key, store1[base], seen + {base});
      }
    }
  }

  /** ... nor whether one is a leaf. */
  lemma ChildKept(store1: map<Id, Commit>, store2: map<Id, Commit>, key: Key, c: Commit)
    requires OtherKeysOnly(store1, store2, key) && KeyLocal(store2)
    requires c.key == key && c.id in store1 && store1[c.id] == c
    ensures HasChild(store2, c.id) <==> HasChild(store1, c.id)
  {
    if HasChild(store2, c.id) {
      var child :| child in store2 && c.id in store2[child].parents;
      assert store2[c.id] == c;
      assert store2[c.id].key == store2[child].key;
      assert child in store1;
    }
    if HasChild(store1, c.id) {
      var child :| child in store1 && c.id in store1[child].parents;
      assert child in store2;
    }
  }

  // ---------------------------------------------------------------------------------------

  /** The commits that can be read and that no known commit names as parent. */
  function Leaves(ops: TypeOps, store: map<Id, Commit>, commits: seq<Commit>): seq<Commit>
  {
    if commits == [] then []
    else
      var n := |commits| - 1;
      Leaves(ops, store, commits[..n])
      + if !HasChild(store, commits[n].id) && Readable(ops, store, commits[n]) then [commits[n]] else []
  }

  function IndexOfConnection(commits: seq<Commit>, connection: Id): (i: nat)
    ensures i <= |commits|
    ensures forall j :: 0 <= j < i ==> commits[j].connection != connection
    ensures i < |commits| ==> commits[i].connection == connection
  {
    if commits == [] || commits[0].connection == connection then 0 else 1 + IndexOfConnection(commits[1..], connection)
  }

  /** A commit takes the place of an older one of the same connection. */
  function Replace(latest: seq<Commit>, c: Commit): seq<Commit>
  {
    var i := IndexOfConnection(latest, c.connection);
    if i == |latest| then latest + [c] else if latest[i].timestamp < c.timestamp then latest[i := c] else latest
  }

  /** The latest commit of every connection, in order of first appearance. */
  function LatestByConnection(commits: seq<Commit>): seq<Commit>
  {
    if commits == [] then [] else Replace(LatestByConnection(commits[..|commits| - 1]), commits[|commits| - 1])
  }

  function SortDesc(commits: seq<Commit>): seq<Commit>
  {
    if commits == [] then [] else Insert(commits[|commits| - 1], SortDesc(commits[..|commits| - 1]))
  }

  function FirstOf(commits: seq<Commit>, p: Commit -> bool): Option<Commit>
  {
    if commits == [] then None else if p(commits[0]) then Some(commits[0]) else FirstOf(commits[1..], p)
  }

  /** Whose commits are preferred: this connection's, then this session's, then anyone's. */
  datatype Client = Client(connection: Id, session: Id)

  function PickBest(client: Client, ops: TypeOps, store: map<Id, Commit>, commits: seq<Commit>): Option<Commit>
  {
    var sorted := SortDesc(commits);
    var own := FirstOf(sorted, (c: Commit) => c.connection == client.connection && Readable(ops, store, c));
    if own.Some? then own
    else
      var same := FirstOf(sorted, (c: Commit) => c.session == client.session && Readable(ops, store, c));
      if same.Some? then same else FirstOf(sorted, (c: Commit) => Readable(ops, store, c))
  }

  /** The head among the commits of one key. */
  function Head(client: Client, ops: TypeOps, store: map<Id, Commit>, commits: seq<Commit>): Option<Commit>
  {
    var leaves := LatestByConnection(Leaves(ops, store, commits));
    if |leaves| == 1 && Readable(ops, store, leaves[0]) then Some(leaves[0])
    else if |leaves| > 1 && PickBest(client, ops, store, leaves).Some? then PickBest(client, ops, store, leaves)
    else PickBest(client, ops, store, commits)
  }

  lemma {:induction false} SortDescHolds(commits: seq<Commit>)
    ensures forall c :: c in SortDesc(commits) <==> c in commits
  {
    if commits != [] {
      var n := |commits| - 1;
      SortDescHolds(commits[..n]);
      InsertKeeps(commits[n], SortDesc(commits[..n]));
      assert commits == commits[..n] + [commits[n]];
    }
  }

  lemma {:induction false} FirstOfFinds(commits: seq<Commit>, p: Commit -> bool)
    ensures FirstOf(commits, p).Some? <==> exists c :: c in commits && p(c)
    ensures FirstOf(commits, p).Some? ==> FirstOf(commits, p).value in commits && p(FirstOf(commits, p).value)
  {
    if commits != [] {
      FirstOfFinds(commits[1..], p);
      assert forall c :: c in commits <==> c == commits[0] || c in commits[1..];
    }
  }

  lemma {:induction false} SortDescOrdered(commits: seq<Commit>)
    ensures NoneNewerBehind(SortDesc(commits))
  {
    if commits != [] {
      SortDescOrdered(commits[..|commits| - 1]);
      InsertOrdered(commits[|commits| - 1], SortDesc(commits[..|commits| - 1]));
    }
  }

  lemma {:induction false} FirstOfNewest(commits: seq<Commit>, p: Commit -> bool, c: Commit)
    requires NoneNewerBehind(commits) && FirstOf(commits, p).Some? && c in commits && p(c)
    ensures !Newer(c, FirstOf(commits, p).value)
  {
    hide Newer;
    NewerTotal(c, c);
    if p(commits[0]) {
      var i :| 0 <= i < |commits| && commits[i] == c;
    } else {
      FirstOfNewest(commits[1..], p, c);
    }
  }

  /** How close a commit is to the client: 0 for its connection, 1 for its session, 2 for all others. */
  function Distance(client: Client, c: Commit): nat
  {
    if c.connection == client.connection then 0 else if c.session == client.session then 1 else 2
  }

  /** `c` is no closer to the client than `best`, and no newer if it is as close. */
  ghost predicate Preferred(client: Client, best: Commit, c: Commit)
  {
    Distance(client, best) < Distance(client, c)
    || (Distance(client, best) == Distance(client, c) && c.timestamp <= best.timestamp && !Newer(c, best))
  }

  /** Of the readable commits none is closer to the client than `best`, and none that is as close is newer. */
  ghost predicate BestFor(client: Client, ops: TypeOps, store: map<Id, Commit>, commits: seq<Commit>, best: Commit)
  {
    && best in commits && Readable(ops, store, best)
    && forall c :: c in commits && Readable(ops, store, c) ==> Preferred(client, best, c)
  }

  ghost predicate OfKey(store: map<Id, Commit>, key: Key, c: Commit)
  {
    c.id in store && store[c.id] == c && c.key == key
  }

  /** A readable commit of the key that no stored commit names as parent. */
  ghost predicate LeafOf(ops: TypeOps, store: map<Id, Commit>, key: Key, c: Commit)
  {
    OfKey(store, key, c) && Readable(ops, store, c) && !HasChild(store, c.id)
  }

  /** One leaf of every connection that has leaves, and none of that connection is later. */
  ghost predicate LatestLeaves(ops: TypeOps, store: map<Id, Commit>, key: Key, latest: seq<Commit>)
  {
    && (forall c :: c in latest ==> LeafOf(ops, store, key, c))
    && OnePerConnection(latest)
    && forall c :: LeafOf(ops, store, key, c) ==> Represented(latest, c)
  }

  /** `best` is a leaf, and preferred to the latest leaf of every connection. */
  ghost predicate BestLeaf(client: Client, ops: TypeOps, store: map<Id, Commit>, key: Key, latest: seq<Commit>,
                           best: Commit)
  {
    LatestLeaves(ops, store, key, latest) && best in latest && forall c :: c in latest ==> Preferred(client, best, c)
  }

  /** What the head of a key is: the best leaf if there is one, else the best commit that can be read. */
  ghost predicate HeadIs(client: Client, ops: TypeOps, store: map<Id, Commit>, key: Key, head: Option<Commit>)
  {
    match head
    case None => forall c :: OfKey(store, key, c) ==> !Readable(ops, store, c)
    case Some(best) =>
      && OfKey(store, key, best) && Readable(ops, store, best)
      && if exists c :: LeafOf(ops, store, key, c) then exists latest :: BestLeaf(client, ops, store, key, latest, best)
         else forall c :: OfKey(store, key, c) && Readable(ops, store, c) ==> Preferred(client, best, c)
  }

  lemma PickBestIsBest(client: Client, ops: TypeOps, store: map<Id, Commit>, commits: seq<Commit>)
    ensures var b := PickBest(client, ops, store, commits);
            if b.None? then forall c :: c in commits ==> !Readable(ops, store, c)
              else BestFor(client, ops, store, commits, b.value)
  {
    hide Readable, SortDesc, FirstOf, Newer, NoneNewerBehind;
    var sorted := SortDesc(commits);
    SortDescHolds(commits);
    SortDescOrdered(commits);
    var own := (c: Commit) => c.connection == client.connection && Readable(ops, store, c);
    var same := (c: Commit) => c.session == client.session && Readable(ops, store, c);
    var any := (c: Commit) => Readable(ops, store, c);
    FirstOfFinds(sorted, own);
    FirstOfFinds(sorted, same);
    FirstOfFinds(sorted, any);
    var b := PickBest(client, ops, store, commits);
    if b.Some? {
      var p := if FirstOf(sorted, own).Some? then own else if FirstOf(sorted, same).Some? then same else any;
      forall c | c in sorted && p(c) ensures !Newer(c, b.value) && c.timestamp <= b.value.timestamp {
        FirstOfNewest(sorted, p, c);
        NewerMeans(c, b.value);
      }
    }
  }

  lemma PickBestReadable(client: Client, ops: TypeOps, store: map<Id, Commit>, commits: seq<Commit>)
    ensures var b := PickBest(client, ops, store, commits);
            && (b.None? <==> forall c :: c in commits ==> !Readable(ops, store, c))
            && (b.Some? ==> b.value in commits && Readable(ops, store, b.value))
  {
    hide Readable, SortDesc, FirstOf;
    SortDescHolds(commits);
    FirstOfFinds(SortDesc(commits), (c: Commit) => c.connection == client.connection && Readable(ops, store, c));
    FirstOfFinds(SortDesc(commits), (c: Commit) => c.session == client.session && Readable(ops, store, c));
    FirstOfFinds(SortDesc(commits), (c: Commit) => Readable(ops, store, c));
  }

  lemma {:induction false} LeavesAre(ops: TypeOps, store: map<Id, Commit>, commits: seq<Commit>)
    ensures forall c :: c in Leaves(ops, store, commits) <==>
            c in commits && !HasChild(store, c.id) && Readable(ops, store, c)
  {
    hide HasChild, Readable;
    if commits != [] {
      var n := |commits| - 1;
      LeavesAre(ops, store, commits[..n]);
      assert commits == commits[..n] + [commits[n]];
    }
  }

  /** `latest` has a commit of the connection of `c` that is as late. */
  ghost predicate Represented(latest: seq<Commit>, c: Commit)
  {
    exists i :: 0 <= i < |latest| && latest[i].connection == c.connection && c.timestamp <= latest[i].timestamp
  }

  ghost predicate OnePerConnection(latest: seq<Commit>)
  {
    forall i, j :: 0 <= i < j < |latest| ==> latest[i].connection != latest[j].connection
  }

  /** At position `k`, a commit no later one of its connection is behind, and none as late before. */
  ghost predicate LatestAt(commits: seq<Commit>, k: nat)
  {
    && k < |commits|
    && forall j :: 0 <= j < |commits| && commits[j].connection == commits[k].connection ==>
         commits[j].timestamp < commits[k].timestamp || (commits[j].timestamp == commits[k].timestamp && k <= j)
  }

  ghost predicate IsLatest(commits: seq<Commit>, c: Commit)
  {
    exists k: nat :: LatestAt(commits, k) && commits[k] == c
  }

  /** The connections stand in the order in which they first appear. */
  ghost predicate ByAppearance(commits: seq<Commit>, latest: seq<Commit>)
  {
    forall i, j :: 0 <= i < j < |latest| ==>
      IndexOfConnection(commits, latest[i].connection) < IndexOfConnection(commits, latest[j].connection)
  }

  /** One commit of every connection: none of that connection is later, and of equally late ones it is the first. */
  ghost predicate LatestOfEach(commits: seq<Commit>, latest: seq<Commit>)
  {
    && (forall c :: c in latest ==> c in commits)
    && OnePerConnection(latest) && ByAppearance(commits, latest)
    && (forall c :: c in commits ==> Represented(latest, c))
    && forall c :: c in latest ==> IsLatest(commits, c)
  }

  lemma IndexStays(commits: seq<Commit>, c: Commit, connection: Id)
    ensures var i := IndexOfConnection(commits, connection);
            IndexOfConnection(commits + [c], connection) ==
            if i < |commits| then i else if c.connection == connection then |commits| else |commits| + 1
  {
    var i, j := IndexOfConnection(commits, connection), IndexOfConnection(commits + [c], connection);
    assert j < |commits| ==> (commits + [c])[j] == commits[j];
    assert i < |commits| ==> (commits + [c])[i] == commits[i];
    assert (commits + [c])[|commits|] == c;
  }

  lemma AppearanceStays(commits: seq<Commit>, latest: seq<Commit>, c: Commit)
    requires ByAppearance(commits, latest) && (forall x :: x in latest ==> x in commits)
    requires forall x :: x in commits ==> Represented(latest, x)
    ensures ByAppearance(commits + [c], Replace(latest, c))
  {
    hide IndexOfConnection;
    var n := |commits|;
    forall x | x in latest
      ensures IndexOfConnection(commits + [c], x.connection) == IndexOfConnection(commits, x.connection) < n
    {
      IndexStays(commits, c, x.connection);
      FoundBefore(commits, x);
    }
    IndexStays(commits, c, c.connection);
    var k := IndexOfConnection(latest, c.connection);
    ReplacedAt(latest, c);
    var next := Replace(latest, c);
    forall i, j | 0 <= i < j < |next|
      ensures IndexOfConnection(commits + [c], next[i].connection)
              < IndexOfConnection(commits + [c], next[j].connection)
    {
      assert i < |latest| ==> latest[i] in latest;
      assert j < |latest| ==> latest[j] in latest;
      if j == |latest| {
        NotFoundBefore(commits, latest, c);
      }
    }
  }

  lemma ReplacedAt(latest: seq<Commit>, c: Commit)
    ensures var next := Replace(latest, c);
            && (forall i :: 0 <= i < |latest| ==> next[i].connection == latest[i].connection)
            && |latest| <= |next| <= |latest| + 1
            && (|next| > |latest| ==> next[|latest|] == c && IndexOfConnection(latest, c.connection) == |latest|)
  {
  }

  lemma FoundBefore(commits: seq<Commit>, x: Commit)
    requires x in commits
    ensures IndexOfConnection(commits, x.connection) < |commits|
  {
    var j :| 0 <= j < |commits| && commits[j] == x;
  }

  lemma NotFoundBefore(commits: seq<Commit>, latest: seq<Commit>, c: Commit)
    requires forall x :: x in commits ==> Represented(latest, x)
    requires IndexOfConnection(latest, c.connection) == |latest|
    ensures IndexOfConnection(commits, c.connection) == |commits|
  {
    var i := IndexOfConnection(commits, c.connection);
    forall j | 0 <= j < |commits| ensures commits[j].connection != c.connection {
      assert commits[j] in commits;
      var k :| 0 <= k < |latest| && latest[k].connection == commits[j].connection
               && commits[j].timestamp <= latest[k].timestamp;
    }
  }

  lemma LatestStays(commits: seq<Commit>, latest: seq<Commit>, c: Commit, x: Commit)
    requires LatestOfEach(commits, latest) && x in Replace(latest, c)
    ensures IsLatest(commits + [c], x)
  {
    hide Replace, ByAppearance, Represented, OnePerConnection;
    ReplaceCases(latest, c, x);
    if x in latest && (x.connection != c.connection || c.timestamp <= x.timestamp) {
      var k: nat :| LatestAt(commits, k) && commits[k] == x;
      LatestBefore(commits, c, k);
    } else {
      forall j | 0 <= j < |commits| && commits[j].connection == c.connection
        ensures commits[j].timestamp < c.timestamp
      {
        assert commits[j] in commits;
        RepresentedBy(latest, commits[j]);
      }
      LatestBehind(commits, c);
    }
  }

  lemma RepresentedBy(latest: seq<Commit>, c: Commit)
    requires Represented(latest, c)
    ensures exists k :: 0 <= k < |latest| && latest[k].connection == c.connection && c.timestamp <= latest[k].timestamp
  {
  }

  lemma LatestBefore(commits: seq<Commit>, c: Commit, k: nat)
    requires LatestAt(commits, k) && (commits[k].connection != c.connection || c.timestamp <= commits[k].timestamp)
    ensures IsLatest(commits + [c], commits[k])
  {
    assert LatestAt(commits + [c], k);
  }

  lemma LatestBehind(commits: seq<Commit>, c: Commit)
    requires forall j :: 0 <= j < |commits| && commits[j].connection == c.connection ==>
               commits[j].timestamp < c.timestamp
    ensures IsLatest(commits + [c], c)
  {
    assert LatestAt(commits + [c], |commits|);
  }

  lemma ReplaceCases(latest: seq<Commit>, c: Commit, x: Commit)
    requires x in Replace(latest, c) && OnePerConnection(latest)
    ensures (x in latest && (x.connection != c.connection || c.timestamp <= x.timestamp))
            || (x == c && forall k :: 0 <= k < |latest| && latest[k].connection == c.connection ==>
                  latest[k].timestamp < c.timestamp)
  {
    var i := IndexOfConnection(latest, c.connection);
    var k :| 0 <= k < |Replace(latest, c)| && Replace(latest, c)[k] == x;
    assert k < |latest| && k != i ==> x == latest[k];
  }

  lemma ReplaceRepresents(latest: seq<Commit>, c: Commit, x: Commit)
    requires x == c || Represented(latest, x)
    ensures Represented(Replace(latest, c), x)
  {
    var k := IndexOfConnection(latest, c.connection);
    var next := Replace(latest, c);
    if x == c {
      assert next[k].connection == c.connection && c.timestamp <= next[k].timestamp;
    } else {
      var i :| 0 <= i < |latest| && latest[i].connection == x.connection && x.timestamp <= latest[i].timestamp;
      assert next[i].connection == x.connection && x.timestamp <= next[i].timestamp;
    }
  }

  lemma ReplaceOne(latest: seq<Commit>, c: Commit)
    requires OnePerConnection(latest)
    ensures OnePerConnection(Replace(latest, c))
    ensures forall x :: x in Replace(latest, c) ==> x == c || x in latest
  {
  }

  lemma ReplaceLatest(commits: seq<Commit>, latest: seq<Commit>, c: Commit)
    requires LatestOfEach(commits, latest)
    ensures LatestOfEach(commits + [c], Replace(latest, c))
  {
    hide Replace, Represented, OnePerConnection, ByAppearance, IsLatest;
    ReplaceOne(latest, c);
    AppearanceStays(commits, latest, c);
    forall x | x in Replace(latest, c) ensures IsLatest(commits + [c], x) {
      LatestStays(commits, latest, c, x);
    }
    forall x | x in commits + [c] ensures Represented(Replace(latest, c), x) {
      ReplaceRepresents(latest, c, x);
    }
  }

  lemma {:induction false} LatestAre(commits: seq<Commit>)
    ensures LatestOfEach(commits, LatestByConnection(commits))
    ensures |LatestByConnection(commits)| == 0 <==> commits == []
  {
    hide LatestOfEach;
    if commits != [] {
      var n := |commits| - 1;
      LatestAre(commits[..n]);
      ReplaceLatest(commits[..n], LatestByConnection(commits[..n]), commits[n]);
      assert commits == commits[..n] + [commits[n]];
    } else {
      NoneLatest();
    }
  }

  lemma NoneLatest()
    ensures LatestOfEach([], [])
  {
  }

  /** A key has a head exactly when one of its commits can be read; the head is such a commit. */
  lemma HeadReadable(client: Client, ops: TypeOps, store: map<Id, Commit>, commits: seq<Commit>)
    ensures var h := Head(client, ops, store, commits);
            && (h.None? <==> forall c :: c in commits ==> !Readable(ops, store, c))
            && (h.Some? ==> h.value in commits && Readable(ops, store, h.value))
  {
    hide Readable, Leaves, LatestByConnection, PickBest;
    LeavesAre(ops, store, commits);
    var leaves := LatestByConnection(Leaves(ops, store, commits));
    LatestAre(Leaves(ops, store, commits));
    PickBestReadable(client, ops, store, leaves);
    PickBestReadable(client, ops, store, commits);
    if |leaves| == 1 {
      assert leaves[0] in leaves;
    }
  }

  /** The head among all commits of a key. */
  lemma HeadIsBest(client: Client, ops: TypeOps, store: map<Id, Commit>, key: Key, commits: seq<Commit>)
    requires forall c :: c in commits <==> OfKey(store, key, c)
    ensures HeadIs(client, ops, store, key, Head(client, ops, store, commits))
  {
    hide Readable, Leaves, LatestByConnection, PickBest, HasChild, Represented, OnePerConnection, Preferred;
    var all := Leaves(ops, store, commits);
    var latest := LatestByConnection(all);
    LeavesAre(ops, store, commits);
    LatestAre(all);
    HeadReadable(client, ops, store, commits);
    PickBestIsBest(client, ops, store, latest);
    PickBestIsBest(client, ops, store, commits);
    assert LatestLeaves(ops, store, key, latest);
    assert all != [] ==> all[0] in all && LeafOf(ops, store, key, all[0]);
    if c :| LeafOf(ops, store, key, c) {
      assert c in all;
      assert latest[0] in latest;
      var best := Head(client, ops, store, commits).value;
      OnlyOne(client, latest[0]);
      assert BestLeaf(client, ops, store, key, latest, best);
    }
  }

  lemma OnlyOne(client: Client, c: Commit)
    ensures Preferred(client, c, c)
  {
    NewerTotal(c, c);
  }

  lemma {:induction false} LeavesKept(ops: TypeOps, store1: map<Id, Commit>, store2: map<Id, Commit>, key: Key,
                                      commits: seq<Commit>)
    requires OtherKeysOnly(store1, store2, key) && KeyLocal(store2) && ById(store1)
    requires forall c :: c in commits ==> c.key == key && c.id in store1 && store1[c.id] == c
    ensures Leaves(ops, store2, commits) == Leaves(ops, store1, commits)
  {
    hide OtherKeysOnly, KeyLocal, ById, HasChild, RecordIn;
    if commits != [] {
      var n := |commits| - 1;
      assert commits[n] in commits;
      LeavesKept(ops, store1, store2, key, commits[..n]);
      RecordKept(ops, store1, store2, key, commits[n], {});
      ChildKept(store1, store2, key, commits[n]);
    }
  }

  lemma {:induction false} FirstOfSame(commits: seq<Commit>, p: Commit -> bool, q: Commit -> bool)
    requires forall c :: c in commits ==> p(c) == q(c)
    ensures FirstOf(commits, p) == FirstOf(commits, q)
  {
    if commits != [] {
      assert commits[0] in commits;
      FirstOfSame(commits[1..], p, q);
    }
  }

  lemma PickBestKept(client: Client, ops: TypeOps, store1: map<Id, Commit>, store2: map<Id, Commit>, key: Key,
                     commits: seq<Commit>)
    requires OtherKeysOnly(store1, store2, key) && KeyLocal(store2) && ById(store1)
    requires forall c :: c in commits ==> c.key == key && c.id in store1 && store1[c.id] == c
    ensures PickBest(client, ops, store2, commits) == PickBest(client, ops, store1, commits)
  {
    hide OtherKeysOnly, KeyLocal, ById, RecordIn, SortDesc, FirstOf;
    SortDescHolds(commits);
    var sorted := SortDesc(commits);
    forall c | c in sorted ensures Readable(ops, store2, c) == Readable(ops, store1, c) {
      RecordKept(ops, store1, store2, key, c, {});
    }
    FirstOfSame(sorted, (c: Commit) => c.connection == client.connection && Readable(ops, store2, c),
                (c: Commit) => c.connection == client.connection && Readable(ops, store1, c));
    FirstOfSame(sorted, (c: Commit) => c.session == client.session && Readable(ops, store2, c),
                (c: Commit) => c.session == client.session && Readable(ops, store1, c));
    FirstOfSame(sorted, (c: Commit) => Readable(ops, store2, c), (c: Commit) => Readable(ops, store1, c));
  }

  /** Commits for other keys do not move the head of a key. */
  lemma HeadKept(client: Client, ops: TypeOps, store1: map<Id, Commit>, store2: map<Id, Commit>, key: Key,
                 commits: seq<Commit>)
    requires OtherKeysOnly(store1, store2, key) && KeyLocal(store2) && ById(store1)
    requires forall c :: c in commits ==> c.key == key && c.id in store1 && store1[c.id] == c
    ensures Head(client, ops, store2, commits) == Head(client, ops, store1, commits)
  {
    hide OtherKeysOnly, KeyLocal, ById, RecordIn, Leaves, LatestByConnection, PickBest;
    LeavesKept(ops, store1, store2, key, commits);
    var leaves := LatestByConnection(Leaves(ops, store1, commits));
    LeavesAre(ops, store1, commits);
    LatestAre(Leaves(ops, store1, commits));
    PickBestKept(client, ops, store1, store2, key, leaves);
    PickBestKept(client, ops, store1, store2, key, commits);
    if |leaves| == 1 {
      assert leaves[0] in leaves;
      RecordKept(ops, store1, store2, key, leaves[0], {});
    }
  }

  // ---------------------------------------------------------------------------------------

  method FilterLatestCommitsByConnection(commits: seq<Commit>) returns (latest: seq<Commit>)
    ensures latest == LatestByConnection(commits) && LatestOfEach(commits, latest)
  {
    hide LatestOfEach;
    LatestAre(commits);
    latest := [];
    for i := 0 to |commits|
      invariant latest == LatestByConnection(commits[..i])
    {
      assert commits[..i + 1][..i] == commits[..i];
      var prev := IndexOfConnection(latest, commits[i].connection);
      if prev == |latest| {
        latest := latest + [commits[i]];
      } else if latest[prev].timestamp < commits[i].timestamp {
        latest := latest[prev := commits[i]];
      }
    }
    assert commits[..|commits|] == commits;
  }

  method FindFirst(commits: seq<Commit>, p: Commit -> bool) returns (c: Option<Commit>)
    ensures c == FirstOf(commits, p)
  {
    var i := 0;
    while i < |commits|
      invariant 0 <= i <= |commits| && FirstOf(commits, p) == FirstOf(commits[i..], p)
    {
      if p(commits[i]) {
        return Some(commits[i]);
      }
      assert commits[i..][1..] == commits[i + 1..];
      i := i + 1;
    }
    return None;
  }

  method PickBestCommitForCurrentClient(client: Client, ops: TypeOps, store: map<Id, Commit>, commits: seq<Commit>)
    returns (best: Option<Commit>)
    ensures best == PickBest(client, ops, store, commits)
    ensures if best.None? then forall c :: c in commits ==> !Readable(ops, store, c)
            else BestFor(client, ops, store, commits, best.value)
  {
    hide FirstOf, Readable, BestFor;
    PickBestIsBest(client, ops, store, commits);
    var sorted := [];
    for i := 0 to |commits|
      invariant sorted == SortDesc(commits[..i])
    {
      assert commits[..i + 1][..i] == commits[..i];
      sorted := Insert(commits[i], sorted);
    }
    assert commits[..|commits|] == commits;
    best := FindFirst(sorted, (c: Commit) => c.connection == client.connection && Readable(ops, store, c));
    if best.Some? {
      return;
    }
    best := FindFirst(sorted, (c: Commit) => c.session == client.session && Readable(ops, store, c));
    if best.Some? {
      return;
    }
    best := FindFirst(sorted, (c: Commit) => Readable(ops, store, c));
  }

  /** The edges of the adjacency list are the parent links of the stored commits. */
  ghost predicate Linked(store: map<Id, Commit>, links: set<A.Link>)
  {
    forall src, dst, f :: A.Link(src, dst, f) in links <==> f == PARENT && src in store && dst in store[src].parents
  }

  function CommitsOf(store: map<Id, Commit>, ids: seq<Id>): seq<Commit>
    requires forall id :: id in ids ==> id in store
  {
    seq(|ids|, i requires 0 <= i < |ids| => assert ids[i] in ids; store[ids[i]])
  }

  /** The head of a key, worked out from the stored commits alone. */
  ghost function HeadIn(client: Client, ops: TypeOps, byId: map<Id, Commit>, byKey: map<Key, seq<Id>>,
                        key: Key): Option<Commit>
    requires ById(byId) && Partition(byId, byKey)
  {
    KeyIds(byId, byKey, key);
    Head(client, ops, byId, CommitsOf(byId, IdsFor(byKey, key)))
  }

  lemma HeadInIs(client: Client, ops: TypeOps, byId: map<Id, Commit>, byKey: map<Key, seq<Id>>, key: Key)
    requires ById(byId) && Partition(byId, byKey)
    ensures HeadIs(client, ops, byId, key, HeadIn(client, ops, byId, byKey, key))
  {
    hide Head, HeadIs;
    KeyIds(byId, byKey, key);
    var ids := IdsFor(byKey, key);
    forall c | OfKey(byId, key, c) ensures c in CommitsOf(byId, ids) {
      assert c.id in ids;
      var i :| 0 <= i < |ids| && ids[i] == c.id;
      assert CommitsOf(byId, ids)[i] == c;
    }
    HeadIsBest(client, ops, byId, key, CommitsOf(byId, ids));
  }

  lemma HeadHasRecord(client: Client, ops: TypeOps, store: map<Id, Commit>, key: Key, head: Option<Commit>)
    requires HeadIs(client, ops, store, key, head)
    ensures head.Some? ==> RecordIn(ops, store, head.value, {}).Some?
  {
  }

  /** The value of a key, worked out from the stored commits alone. */
  ghost function ValueIn(client: Client, ops: TypeOps, byId: map<Id, Commit>, byKey: map<Key, seq<Id>>,
                         key: Key): Record
    requires ById(byId) && Partition(byId, byKey)
  {
    var head := HeadIn(client, ops, byId, byKey, key);
    if head.None? then NULL_RECORD else RecordIn(ops, byId, head.value, {}).GetOr(NULL_RECORD)
  }

  ghost predicate CachesRight(client: Client, ops: TypeOps, byId: map<Id, Commit>, byKey: map<Key, seq<Id>>,
                              heads: map<Key, Commit>, values: map<Key, Record>)
    requires ById(byId) && Partition(byId, byKey)
  {
    && (forall key :: key in heads ==> HeadIn(client, ops, byId, byKey, key) == Some(heads[key]))
    && forall key :: key in values ==> ValueIn(client, ops, byId, byKey, key) == values[key]
  }

  const NULL_RECORD := Record(Scheme([], 0, map[]), map[])

  class Repository {
    const storage: MemRepoStorage
    const adjList: A.SimpleAdjacencyList
    const client: Client
    const ops: TypeOps
    const orgId: Text
    var cachedHeadsByKey: map<Key, Commit>
    var cachedValueForKey: map<Key, Record>

    ghost predicate Sound()
      reads this, storage, adjList
    {
      storage.Valid() && adjList.Valid() && Linked(storage.commitsById, adjList.links)
    }

    /** The value of a key, worked out from the stored commits alone. */
    ghost function ValueOf(key: Key): Record
      requires Sound()
      reads this, storage, adjList
    {
      ValueIn(client, ops, storage.commitsById, storage.commitsByRecordKey, key)
    }

    /** Whatever is cached is what working it out again would give. */
    ghost predicate Valid()
      reads this, storage, adjList
    {
      Sound() && CachesRight(client, ops, storage.commitsById, storage.commitsByRecordKey, cachedHeadsByKey,
        cachedValueForKey)
    }

    constructor (client: Client, ops: TypeOps, orgId: Text)
      ensures Valid() && storage.commitsById == map[] && fresh(storage) && fresh(adjList)
    {
      storage := new MemRepoStorage();
      adjList := new A.SimpleAdjacencyList();
      this.client, this.ops, this.orgId := client, ops, orgId;
      cachedHeadsByKey, cachedValueForKey := map[], map[];
    }

    /** `hasInEdges` holds exactly for the ids that a stored commit names as parent. */
    method HasInEdges(id: Id) returns (has: bool)
      requires Sound()
      ensures has <==> HasChild(storage.commitsById, id)
    {
      has := adjList.HasInEdges(id);
      LinkedChild(storage.commitsById, adjList.links, id);
    }

    method LeavesForKey(key: Key) returns (leaves: seq<Commit>, commits: seq<Commit>)
      requires Sound()
      ensures KeyKnown(storage.commitsById, storage.commitsByRecordKey, key)
      ensures commits == CommitsOf(storage.commitsById, IdsFor(storage.commitsByRecordKey, key))
      ensures leaves == LatestByConnection(Leaves(ops, storage.commitsById, commits))
      ensures LatestOfEach(Leaves(ops, storage.commitsById, commits), leaves)
    {
      hide HasChild, Readable, LatestOfEach;
      KeyIds(storage.commitsById, storage.commitsByRecordKey, key);
      commits := storage.CommitsForKey(key);
      assert commits == CommitsOf(storage.commitsById, IdsFor(storage.commitsByRecordKey, key));
      var result := [];
      for i := 0 to |commits|
        invariant result == Leaves(ops, storage.commitsById, commits[..i])
      {
        assert commits[..i + 1][..i] == commits[..i];
        var hasIn := HasInEdges(commits[i].id);
        if !hasIn && Readable(ops, storage.commitsById, commits[i]) {
          result := result + [commits[i]];
        }
      }
      assert commits[..|commits|] == commits;
      leaves := FilterLatestCommitsByConnection(result);
    }

    /** A cached head counts only for a short while, and only when it was written by this connection. */
    method HeadForKey(key: Key, recent: bool) returns (head: Option<Commit>)
      requires Valid()
      modifies this`cachedHeadsByKey
      ensures Valid()
      ensures head == HeadIn(client, ops, storage.commitsById, storage.commitsByRecordKey, key)
      ensures HeadIs(client, ops, storage.commitsById, key, head)
    {
      hide Linked, ById, Partition, HeadIn, HeadIs;
      HeadInIs(client, ops, storage.commitsById, storage.commitsByRecordKey, key);
      if key in cachedHeadsByKey && cachedHeadsByKey[key].session == client.connection && recent {
        return Some(cachedHeadsByKey[key]);
      }
      head := FindHead(key);
      if head.Some? {
        cachedHeadsByKey := cachedHeadsByKey[key := head.value];
      }
    }

    method FindHead(key: Key) returns (head: Option<Commit>)
      requires Sound()
      ensures head == HeadIn(client, ops, storage.commitsById, storage.commitsByRecordKey, key)
    {
      hide Readable, HasChild, Linked, LatestByConnection, PickBest, Leaves, ById, Partition, LatestOfEach, BestFor;
      var leaves, commits := LeavesForKey(key);
      HeadReadable(client, ops, storage.commitsById, commits);
      if |leaves| == 1 && Readable(ops, storage.commitsById, leaves[0]) {
        head := Some(leaves[0]);
      } else {
        head := None;
        if |leaves| > 1 {
          head := PickBestCommitForCurrentClient(client, ops, storage.commitsById, leaves);
        }
        if head.None? {
          head := PickBestCommitForCurrentClient(client, ops, storage.commitsById, commits);
        }
      }
    }

    /** The value of a key, from the cache or from its head; either way the same. */
    method ValueForKey(key: Key, recent: bool) returns (value: Record)
      requires Valid()
      modifies this`cachedHeadsByKey, this`cachedValueForKey
      ensures Valid() && value == ValueOf(key)
      ensures exists head :: HeadIs(client, ops, storage.commitsById, key, head) &&
                value == match head
                         case None => NULL_RECORD
                         case Some(c) => RecordIn(ops, storage.commitsById, c, {}).value
    {
      hide ById, Partition, HeadIn, Linked, HeadIs;
      HeadInIs(client, ops, storage.commitsById, storage.commitsByRecordKey, key);
      ghost var best := HeadIn(client, ops, storage.commitsById, storage.commitsByRecordKey, key);
      HeadHasRecord(client, ops, storage.commitsById, key, best);
      if key in cachedValueForKey {
        return cachedValueForKey[key];
      }
      var head := HeadForKey(key, recent);
      value := NULL_RECORD;
      if head.Some? {
        value := RecordIn(ops, storage.commitsById, head.value, {}).GetOr(NULL_RECORD);
      }
      cachedValueForKey := cachedValueForKey[key := value];
    }

    /** One batch: commits are stored, then edges added and cached values of the affected keys dropped. */
    method PersistBatch(batch: seq<Commit>) returns (result: seq<Commit>)
      requires Valid() && Consistent(storage.commitsById, batch) && KeyLocal(Arrived(storage.commitsById, batch))
      modifies this, storage, adjList
      ensures Valid() && storage.commitsById == Arrived(old(storage.commitsById), batch)
      ensures result == NewOnes(old(storage.commitsById), batch)
      ensures cachedHeadsByKey.Keys <= old(cachedHeadsByKey).Keys
    {
      hide ById, Partition, Linked, KeyLocal, Consistent, HeadIn, ValueIn, CachesRight, Arrived, NewOnes, IdsFor,
           ParentLinks;
      ghost var byId1, byKey1 := storage.commitsById, storage.commitsByRecordKey;
      ghost var heads1, values1 := cachedHeadsByKey, cachedValueForKey;
      LinkedArrived(byId1, adjList.links, batch);
      result := storage.PersistCommits(batch);
      ForgetHeads(result);
      NewInBatch(byId1, batch);
      AddParentEdges(batch);
      CachesPruned(client, ops, byId1, byKey1, storage.commitsByRecordKey, batch, heads1, values1, cachedHeadsByKey,
        cachedValueForKey);
    }

    /** Commits of other organisations are ignored; the rest is stored in batches of 50. */
    method PersistVerifiedCommits(commits: seq<Commit>, leaf: Commit -> bool) returns (result: seq<Commit>)
      requires Valid()
      requires Consistent(storage.commitsById, Ours(orgId, commits))
      requires KeyLocal(Arrived(storage.commitsById, Ours(orgId, commits)))
      modifies this, storage, adjList
      ensures Valid() && storage.commitsById == Arrived(old(storage.commitsById), Ours(orgId, commits))
      ensures result == NewOnes(old(storage.commitsById), Ours(orgId, commits))
      ensures forall id :: id in storage.commitsById <==>
                id in old(storage.commitsById)
                || exists c :: c in commits && c.id == id && Own(orgId, c)
    {
      hide ById, Partition, Linked, KeyLocal, Consistent, CachesRight, Arrived, NewOnes;
      var ours := Ours(orgId, commits);
      ghost var start := storage.commitsById;
      result := [];
      NothingArrived(start);
      var i: nat := 0;
      while i < |ours|
        invariant i <= |ours| && Valid()
        invariant storage.commitsById == Arrived(start, ours[..i]) && result == NewOnes(start, ours[..i])
      {
        var n := Min(i + 50, |ours|);
        var batch := ours[i..n];
        assert ours[..n] == ours[..i] + batch;
        ArrivedTwice(start, ours[..i], batch);
        assert ours == ours[..n] + ours[n..];
        ArrivedTwice(start, ours[..n], ours[n..]);
        PartConsistent(start, ours, i, n);
        PartKeyLocal(Arrived(start, ours[..n]), ours[n..]);
        var more := PersistBatch(batch);
        result := result + more;
        i := n;
      }
      assert ours[..i] == ours;
      OursArrived(start, orgId, commits);
      ForgetLeaves(result, leaf);
    }

    /** Whatever the repository takes for a leaf has its cached head dropped once more. */
    method ForgetLeaves(result: seq<Commit>, leaf: Commit -> bool)
      requires Valid()
      modifies this`cachedHeadsByKey
      ensures Valid()
    {
      for i := 0 to |result|
        invariant Valid()
      {
        if leaf(result[i]) {
          cachedHeadsByKey := cachedHeadsByKey - {result[i].key};
        }
      }
    }

    method ForgetHeads(persisted: seq<Commit>)
      modifies this`cachedHeadsByKey
      ensures forall key :: key in cachedHeadsByKey ==>
              key in old(cachedHeadsByKey) && cachedHeadsByKey[key] == old(cachedHeadsByKey)[key]
      ensures forall c :: c in persisted ==> c.key !in cachedHeadsByKey
    {
      for i := 0 to |persisted|
        invariant forall key :: key in cachedHeadsByKey ==>
                  key in old(cachedHeadsByKey) && cachedHeadsByKey[key] == old(cachedHeadsByKey)[key]
        invariant forall j :: 0 <= j < i ==> persisted[j].key !in cachedHeadsByKey
      {
        cachedHeadsByKey := cachedHeadsByKey - {persisted[i].key};
      }
    }

    method AddParentEdges(batch: seq<Commit>)
      requires adjList.Valid()
      modifies adjList, this`cachedValueForKey
      ensures adjList.Valid() && adjList.links == old(adjList.links) + ParentLinks(batch)
      ensures cachedValueForKey.Keys <= old(cachedValueForKey).Keys
      ensures forall key :: key in cachedValueForKey ==> cachedValueForKey[key] == old(cachedValueForKey)[key]
      ensures forall c :: c in batch && c.key !in cachedHeadsByKey ==> c.key !in cachedValueForKey
    {
      hide ParentLinks, LinksOf, A.SimpleAdjacencyList.Valid;
      NoLinks();
      for i := 0 to |batch|
        invariant adjList.Valid() && adjList.links == old(adjList.links) + ParentLinks(batch[..i])
        invariant cachedValueForKey.Keys <= old(cachedValueForKey).Keys
        invariant forall key :: key in cachedValueForKey ==> cachedValueForKey[key] == old(cachedValueForKey)[key]
        invariant forall j :: 0 <= j < i && batch[j].key !in cachedHeadsByKey ==> batch[j].key !in cachedValueForKey
      {
        assert batch[..i + 1] == batch[..i] + [batch[i]];
        LinksMore(batch[..i], batch[i]);
        AddEdges(batch[i]);
        if batch[i].key !in cachedHeadsByKey {
          cachedValueForKey := cachedValueForKey - {batch[i].key};
        }
      }
      assert batch[..|batch|] == batch;
    }

    method AddEdges(c: Commit)
      requires adjList.Valid()
      modifies adjList
      ensures adjList.Valid() && adjList.links == old(adjList.links) + LinksOf(c, c.parents)
    {
      hide A.SimpleAdjacencyList.Valid;
      for i := 0 to |c.parents|
        invariant adjList.Valid() && adjList.links == old(adjList.links) + LinksOf(c, c.parents[..i])
      {
        assert c.parents[..i + 1] == c.parents[..i] + [c.parents[i]];
        var _ := adjList.AddEdge(c.id, c.parents[i], PARENT);
      }
      assert c.parents[..|c.parents|] == c.parents;
    }
  }

  /** `c.orgId === undefined || c.orgId === this.orgId` */
  predicate Own(orgId: Text, c: Commit) { c.orgId == None || c.orgId == Some(orgId) }

  function Ours(orgId: Text, commits: seq<Commit>): seq<Commit>
  {
    if commits == [] then []
    else
      var n := |commits| - 1;
      Ours(orgId, commits[..n]) + if Own(orgId, commits[n]) then [commits[n]] else []
  }

  /** `picked` are the own commits, in order: those at the positions `at`. */
  ghost predicate Picked(orgId: Text, commits: seq<Commit>, picked: seq<Commit>, at: seq<nat>)
  {
    && |at| == |picked|
    && (forall i :: 0 <= i < |at| ==> at[i] < |commits| && picked[i] == commits[at[i]])
    && (forall i, j :: 0 <= i < j < |at| ==> at[i] < at[j])
    && forall k: nat :: k in at <==> k < |commits| && Own(orgId, commits[k])
  }

  lemma PickedMore(orgId: Text, commits: seq<Commit>, picked: seq<Commit>, at: seq<nat>, c: Commit)
    requires Picked(orgId, commits, picked, at)
    ensures if Own(orgId, c) then Picked(orgId, commits + [c], picked + [c], at + [|commits|])
            else Picked(orgId, commits + [c], picked, at)
  {
    var all := commits + [c];
    var at' := if Own(orgId, c) then at + [|commits|] else at;
    hide Own;
    forall k: nat ensures k in at' <==> k < |all| && Own(orgId, all[k]) {
      assert k in at' <==> k in at || (Own(orgId, c) && k == |commits|);
      assert k in at <==> k < |commits| && Own(orgId, commits[k]);
    }
  }

  /** Exactly the commits without an organisation or of this one remain, in order. */
  lemma {:induction false} OursAre(orgId: Text, commits: seq<Commit>) returns (at: seq<nat>)
    ensures Picked(orgId, commits, Ours(orgId, commits), at)
  {
    at := [];
    if commits != [] {
      var n := |commits| - 1;
      at := OursAre(orgId, commits[..n]);
      assert commits == commits[..n] + [commits[n]];
      hide Picked, Own;
      PickedMore(orgId, commits[..n], Ours(orgId, commits[..n]), at, commits[n]);
      if Own(orgId, commits[n]) {
        at := at + [n];
      }
    }
  }

  lemma OursHolds(orgId: Text, commits: seq<Commit>)
    ensures forall c :: c in Ours(orgId, commits) <==> c in commits && Own(orgId, c)
  {
    var at := OursAre(orgId, commits);
    forall c | c in commits && Own(orgId, c) ensures c in Ours(orgId, commits) {
      var k: nat :| k < |commits| && commits[k] == c;
      assert k in at;
      var i :| 0 <= i < |at| && at[i] == k;
      assert Ours(orgId, commits)[i] == c;
    }
    forall c | c in Ours(orgId, commits) ensures c in commits && Own(orgId, c) {
      var i :| 0 <= i < |at| && Ours(orgId, commits)[i] == c;
      assert at[i] in at;
    }
  }

  lemma NothingArrived(store: map<Id, Commit>)
    ensures Arrived(store, []) == store && NewOnes(store, []) == []
  {
  }

  lemma OursArrived(store: map<Id, Commit>, orgId: Text, commits: seq<Commit>)
    ensures forall id :: id in Arrived(store, Ours(orgId, commits)) <==>
              id in store || exists c :: c in commits && c.id == id && Own(orgId, c)
  {
    OursHolds(orgId, commits);
    forall id
      ensures id in Arrived(store, Ours(orgId, commits)) <==>
              id in store || exists c :: c in Ours(orgId, commits) && c.id == id
    {
      ArrivedFrom(store, Ours(orgId, commits), id);
    }
  }

  lemma PartConsistent(store: map<Id, Commit>, commits: seq<Commit>, i: nat, n: nat)
    requires i <= n <= |commits| && Consistent(store, commits)
    ensures Consistent(Arrived(store, commits[..i]), commits[i..n])
  {
    forall c | c in commits[i..n] && c.id in Arrived(store, commits[..i])
      ensures Arrived(store, commits[..i])[c.id] == c
    {
      ArrivedFrom(store, commits[..i], c.id);
    }
  }

  /** What holds of all links of a store held of fewer commits, too. */
  lemma PartKeyLocal(store: map<Id, Commit>, more: seq<Commit>)
    requires KeyLocal(Arrived(store, more))
    ensures KeyLocal(store)
  {
    var all := Arrived(store, more);
    forall id ensures id in store ==> id in all && all[id] == store[id] {
      ArrivedFrom(store, more, id);
    }
  }

  /** The adjacency list keeps up with the store. */
  lemma LinkedArrived(store: map<Id, Commit>, links: set<A.Link>, batch: seq<Commit>)
    requires Linked(store, links) && Consistent(store, batch) && ById(store)
    ensures Linked(Arrived(store, batch), links + ParentLinks(batch))
  {
    var next := Arrived(store, batch);
    forall src, dst, f
      ensures A.Link(src, dst, f) in links + ParentLinks(batch) <==>
              f == PARENT && src in next && dst in next[src].parents
    {
      ArrivedFrom(store, batch, src);
      assert A.Link(src, dst, f) in links <==> f == PARENT && src in store && dst in store[src].parents;
    }
  }

  /** Keys of which nothing new arrived keep their head and their value. */
  lemma CachesKept(client: Client, ops: TypeOps, byId1: map<Id, Commit>, byKey1: map<Key, seq<Id>>,
                   byId2: map<Id, Commit>, byKey2: map<Key, seq<Id>>, key: Key)
    requires ById(byId1) && Partition(byId1, byKey1) && ById(byId2) && Partition(byId2, byKey2)
    requires OtherKeysOnly(byId1, byId2, key) && KeyLocal(byId2) && IdsFor(byKey2, key) == IdsFor(byKey1, key)
    ensures HeadIn(client, ops, byId2, byKey2, key) == HeadIn(client, ops, byId1, byKey1, key)
    ensures ValueIn(client, ops, byId2, byKey2, key) == ValueIn(client, ops, byId1, byKey1, key)
  {
    KeyIds(byId1, byKey1, key);
    KeyIds(byId2, byKey2, key);
    var commits := CommitsOf(byId1, IdsFor(byKey1, key));
    SameCommits(byId1, byId2, IdsFor(byKey1, key), key);
    hide Head, RecordIn, ById, Partition, KeyLocal, OtherKeysOnly, CommitsOf;
    HeadKept(client, ops, byId1, byId2, key, commits);
    HeadReadable(client, ops, byId1, commits);
    var head := Head(client, ops, byId1, commits);
    if head.Some? {
      RecordKept(ops, byId1, byId2, key, head.value, {});
    }
  }

  lemma SameCommits(byId1: map<Id, Commit>, byId2: map<Id, Commit>, ids: seq<Id>, key: Key)
    requires OtherKeysOnly(byId1, byId2, key) && forall id :: id in ids ==> id in byId1
    ensures forall id :: id in ids ==> id in byId2
    ensures CommitsOf(byId2, ids) == CommitsOf(byId1, ids)
  {
    forall i | 0 <= i < |ids| ensures ids[i] in byId2 && byId2[ids[i]] == byId1[ids[i]] {
      assert ids[i] in ids;
    }
  }

  lemma ArrivedOtherKeys(store: map<Id, Commit>, batch: seq<Commit>, key: Key)
    requires forall c :: c in NewOnes(store, batch) ==> c.key != key
    ensures OtherKeysOnly(store, Arrived(store, batch), key)
  {
    forall id ensures id in store ==> id in Arrived(store, batch) && Arrived(store, batch)[id] == store[id] {
      ArrivedFrom(store, batch, id);
    }
    forall id | id in Arrived(store, batch) && id !in store ensures Arrived(store, batch)[id].key != key {
      ArrivedNew(store, batch, id);
    }
  }

  lemma {:induction false} ArrivedNew(store: map<Id, Commit>, batch: seq<Commit>, id: Id)
    requires id in Arrived(store, batch) && id !in store
    ensures Arrived(store, batch)[id] in NewOnes(store, batch)
  {
    var n := |batch| - 1;
    if id in Arrived(store, batch[..n]) {
      ArrivedNew(store, batch[..n], id);
    }
  }

  /** The caches after a batch, of which the entries of keys with new commits have been dropped. */
  lemma CachesPruned(client: Client, ops: TypeOps, byId1: map<Id, Commit>, byKey1: map<Key, seq<Id>>,
                     byKey2: map<Key, seq<Id>>, batch: seq<Commit>,
                     heads1: map<Key, Commit>, values1: map<Key, Record>, heads2: map<Key, Commit>,
                     values2: map<Key, Record>)
    requires ById(byId1) && Partition(byId1, byKey1)
    requires ById(Arrived(byId1, batch)) && Partition(Arrived(byId1, batch), byKey2) && KeyLocal(Arrived(byId1, batch))
    requires CachesRight(client, ops, byId1, byKey1, heads1, values1)
    requires forall key :: (forall c: Commit :: c in NewOnes(byId1, batch) ==> c.key != key) ==>
             IdsFor(byKey2, key) == IdsFor(byKey1, key)
    requires forall key :: key in heads2 ==> key in heads1 && heads2[key] == heads1[key]
    requires forall key :: key in values2 ==> key in values1 && values2[key] == values1[key]
    requires forall c :: c in NewOnes(byId1, batch) ==> c.key !in heads2 && c.key !in values2
    ensures CachesRight(client, ops, Arrived(byId1, batch), byKey2, heads2, values2)
  {
    hide HeadIn, ValueIn, ById, Partition, KeyLocal, OtherKeysOnly, NewOnes, Arrived, IdsFor;
    var byId2 := Arrived(byId1, batch);
    forall key | key in heads2 ensures HeadIn(client, ops, byId2, byKey2, key) == Some(heads2[key]) {
      ArrivedOtherKeys(byId1, batch, key);
      CachesKept(client, ops, byId1, byKey1, byId2, byKey2, key);
    }
    forall key | key in values2 ensures ValueIn(client, ops, byId2, byKey2, key) == values2[key] {
      ArrivedOtherKeys(byId1, batch, key);
      CachesKept(client, ops, byId1, byKey1, byId2, byKey2, key);
    }
  }

  function LinksOf(c: Commit, parents: seq<Id>): set<A.Link>
  {
    set p | p in parents :: A.Link(c.id, p, PARENT)
  }

  ghost function ParentLinks(commits: seq<Commit>): set<A.Link>
  {
    set c, p | c in commits && p in c.parents :: A.Link(c.id, p, PARENT)
  }

  lemma NoLinks()
    ensures ParentLinks([]) == {}
  {
  }

  lemma LinksMore(commits: seq<Commit>, c: Commit)
    ensures ParentLinks(commits + [c]) == ParentLinks(commits) + LinksOf(c, c.parents)
  {
  }

  lemma {:induction false} NewInBatch(store: map<Id, Commit>, batch: seq<Commit>)
    ensures forall c :: c in NewOnes(store, batch) ==> c in batch
  {
    if batch != [] {
      NewInBatch(store, batch[..|batch| - 1]);
      assert batch == batch[..|batch| - 1] + [batch[|batch| - 1]];
    }
  }

  lemma LinkedChild(store: map<Id, Commit>, links: set<A.Link>, id: Id)
    requires Linked(store, links)
    ensures (exists src, f :: A.Link(src, id, f) in links) <==> HasChild(store, id)
  {
    if HasChild(store, id) {
      var c :| c in store && id in store[c].parents;
      assert A.Link(c, id, PARENT) in links;
    }
  }

  ghost predicate KeyKnown(byId: map<Id, Commit>, byKey: map<Key, seq<Id>>, key: Key)
  {
    forall id :: id in IdsFor(byKey, key) ==> id in byId
  }

  lemma KeyIds(byId: map<Id, Commit>, byKey: map<Key, seq<Id>>, key: Key)
    requires ById(byId) && Partition(byId, byKey)
    ensures KeyKnown(byId, byKey, key)
    ensures forall c :: c in CommitsOf(byId, IdsFor(byKey, key)) ==> c.key == key && c.id in byId && byId[c.id] == c
  {
    var ids := IdsFor(byKey, key);
    forall c | c in CommitsOf(byId, ids) ensures c.key == key && c.id in byId && byId[c.id] == c {
      var i :| 0 <= i < |ids| && c == CommitsOf(byId, ids)[i];
      assert ids[i] in ids;
    }
  }
}