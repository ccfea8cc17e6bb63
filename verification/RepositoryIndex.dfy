/** A live index: the keys whose head record passes a predicate, kept up to date by events about new commits. */
module RepositoryIndex {
  import opened Wrappers
  import opened Commits
  import opened Records
  import opened Sequences
  import opened RepoStorage
  import opened Repository

  datatype Row = Row(key: Key, record: Record)

  /** The repository as an index sees it: the current head of every key, and the record of every commit. */
  datatype View = View(heads: map<Key, Id>, records: map<Id, Record>)

  ghost predicate SoundView(v: View)
  {
    forall key :: key in v.heads ==> v.heads[key] in v.records
  }

  /** The repository moved on: commits and their records stay, and only the heads of the given keys may have changed. */
  ghost predicate MovesOn(v: View, w: View, keys: set<Key>)
  {
    && SoundView(w)
    && (forall id :: id in v.records ==> id in w.records && w.records[id] == v.records[id])
    && (forall key :: key in v.heads ==> key in w.heads)
    && forall key ::
         key !in keys ==> (key in w.heads <==> key in v.heads) && (key in v.heads ==> w.heads[key] == v.heads[key])
  }

  function HeadRecord(v: View, key: Key): Record
    requires SoundView(v)
  {
    if key in v.heads then v.records[v.heads[key]] else NULL_RECORD
  }

  function RecordAt(ids: map<Key, Id>, v: View, key: Key): Record
  {
    if key in ids && ids[key] in v.records then v.records[ids[key]] else NULL_RECORD
  }

  function Rows(ids: map<Key, Id>, v: View, keys: seq<Key>): seq<Row>
  {
    seq(|keys|, i requires 0 <= i < |keys| => Row(keys[i], RecordAt(ids, v, keys[i])))
  }

  /** The entry of a key is what filtering its head record from scratch would give. */
  ghost predicate UpToDate(passes: (Key, Record) -> bool, ids: map<Key, Id>, included: seq<Key>, v: View, key: Key)
    requires SoundView(v)
  {
    var record := HeadRecord(v, key);
    && RecordAt(ids, v, key) == record
    && (record != NULL_RECORD ==> (key in included <==> passes(key, record)))
  }

  /** Entries name commits of keys that have a head, and exactly those whose record passes are included. */
  ghost predicate Filed(passes: (Key, Record) -> bool, ids: map<Key, Id>, included: seq<Key>, v: View)
  {
    && (forall key :: key in ids ==> ids[key] in v.records && key in v.heads)
    && forall key :: key in included <==> key in ids && passes(key, RecordAt(ids, v, key))
  }

  class RepositoryIndex {
    const passes: (Key, Record) -> bool
    const sort: seq<Row> -> seq<Row>
    var headIdForKey: map<Key, Id>
    /** A set in order of insertion. */
    var includedKeys: seq<Key>
    var cachedValues: Option<seq<Row>>

    /** A cached result is the sorted list of the current rows. */
    ghost predicate Valid(v: View)
      reads this
    {
      && SoundView(v) && Distinct(includedKeys) && Filed(passes, headIdForKey, includedKeys, v)
      && (cachedValues.Some? ==> cachedValues.value == sort(Rows(headIdForKey, v, includedKeys)))
    }

    constructor (passes: (Key, Record) -> bool, sort: seq<Row> -> seq<Row>)
      ensures this.passes == passes && this.sort == sort
      ensures headIdForKey == map[] && includedKeys == [] && cachedValues == None
    {
      this.passes, this.sort := passes, sort;
      headIdForKey, includedKeys, cachedValues := map[], [], None;
    }

    /** Looks at the current head of a key. Nothing is touched when its record equals the one the index has. */
    method OnNewCommit(v: View, key: Key)
      requires Valid(v)
      modifies this
      ensures Valid(v) && UpToDate(passes, headIdForKey, includedKeys, v, key)
      ensures forall k :: k != key && UpToDate(passes, old(headIdForKey), old(includedKeys), v, k) ==>
                UpToDate(passes, headIdForKey, includedKeys, v, k)
      ensures if key in v.heads && RecordAt(old(headIdForKey), v, key) != HeadRecord(v, key) then
                && headIdForKey == old(headIdForKey)[key := v.heads[key]] && cachedValues == None
                && includedKeys == Judged(old(includedKeys), key, passes(key, HeadRecord(v, key)))
              else
                headIdForKey == old(headIdForKey) && includedKeys == old(includedKeys)
                && cachedValues == old(cachedValues)
    {
      hide Distinct, Elements, Without, Filed, UpToDate;
      Looked(passes, headIdForKey, includedKeys, v, key);
      var prevHeadId := if key in headIdForKey then Some(headIdForKey[key]) else None;
      var currentHead := if key in v.heads then Some(v.heads[key]) else None;
      if currentHead.Some? && prevHeadId != currentHead {
        var prevRecord := if prevHeadId.Some? then v.records[prevHeadId.value] else NULL_RECORD;
        var currentRecord := v.records[currentHead.value];
        if prevRecord != currentRecord {
          Filing(passes, headIdForKey, includedKeys, v, key);
          cachedValues := None;
          headIdForKey := headIdForKey[key := currentHead.value];
          if passes(key, currentRecord) {
            if key !in includedKeys {
              includedKeys := includedKeys + [key];
            }
          } else if key in includedKeys {
            includedKeys := Without(includedKeys, key);
          }
        }
      }
    }

    method RecordForKey(v: View, key: Key) returns (record: Record)
      requires Valid(v)
      ensures record == RecordAt(headIdForKey, v, key)
      ensures UpToDate(passes, headIdForKey, includedKeys, v, key) ==> record == HeadRecord(v, key)
    {
      record := if key in headIdForKey then v.records[headIdForKey[key]] else NULL_RECORD;
    }

    /** The cached result is always what sorting the current rows afresh would give. */
    method Values(v: View) returns (rows: seq<Row>)
      requires Valid(v)
      modifies this`cachedValues
      ensures Valid(v) && rows == sort(Rows(headIdForKey, v, includedKeys))
    {
      hide Distinct, Filed, SoundView, RecordAt;
      if cachedValues.Some? {
        return cachedValues.value;
      }
      var result: seq<Row> := [];
      for i := 0 to |includedKeys|
        invariant |result| == i && cachedValues == None
        invariant forall j :: 0 <= j < i ==>
                  result[j] == Row(includedKeys[j], RecordAt(headIdForKey, v, includedKeys[j]))
      {
        var record := RecordForKey(v, includedKeys[i]);
        result := result + [Row(includedKeys[i], record)];
      }
      assert result == Rows(headIdForKey, v, includedKeys);
      rows := sort(result);
      cachedValues := Some(rows);
    }

    /** Scans all keys once; afterwards the index is up to date. */
    method Activate(v: View, keys: seq<Key>)
      requires Valid(v) && headIdForKey == map[] && forall key :: key in v.heads ==> key in keys
      modifies this
      ensures Valid(v) && forall key :: UpToDate(passes, headIdForKey, includedKeys, v, key)
    {
      hide Distinct;
      for i := 0 to |keys|
        invariant Valid(v)
        invariant forall key ::
                  key in keys[..i] || key !in v.heads ==> UpToDate(passes, headIdForKey, includedKeys, v, key)
      {
        assert keys[..i + 1] == keys[..i] + [keys[i]];
        OnNewCommit(v, keys[i]);
      }
      assert keys[..|keys|] == keys;
    }

    /**
     * Any interleaving of changes to the repository and delivered events. A key can be out of date only while an
     * event for it waits; when none does, the whole index agrees with the repository.
     */
    method Run(v: View, events: seq<Event>) returns (w: View)
      requires Valid(v) && Legal(v, events)
      requires forall key :: UpToDate(passes, headIdForKey, includedKeys, v, key)
      modifies this
      ensures w == Latest(v, events) && Valid(w)
      ensures forall key :: key !in Pending(events) ==> UpToDate(passes, headIdForKey, includedKeys, w, key)
    {
      hide Distinct, MovesOn, UpToDate, Filed;
      w := v;
      for i := 0 to |events|
        invariant w == Latest(v, events[..i]) && Valid(w)
        invariant forall key :: key !in Pending(events[..i]) ==> UpToDate(passes, headIdForKey, includedKeys, w, key)
      {
        assert events[..i + 1][..i] == events[..i];
        match events[i]
        case Moves(next, keys) =>
          ViewMoves(passes, headIdForKey, includedKeys, w, next, keys);
          w := next;
        case Deliver(key) =>
          OnNewCommit(w, key);
      }
      assert events[..|events|] == events;
    }
  }

  /** The repository changes, announcing the keys concerned; or one announcement reaches the index. */
  datatype Event = Moves(next: View, keys: set<Key>) | Deliver(key: Key)

  function Latest(v: View, events: seq<Event>): View
  {
    if events == [] then v
    else
      var n := |events| - 1;
      if events[n].Moves? then events[n].next else Latest(v, events[..n])
  }

  /** The keys announced since the index last looked at them. */
  function Pending(events: seq<Event>): set<Key>
  {
    if events == [] then {}
    else
      var n := |events| - 1;
      match events[n]
      case Moves(_, keys) => Pending(events[..n]) + keys
      case Deliver(key) => Pending(events[..n]) - {key}
  }

  ghost predicate Legal(v: View, events: seq<Event>)
  {
    forall i :: 0 <= i < |events| && events[i].Moves? ==>
      MovesOn(Latest(v, events[..i]), events[i].next, events[i].keys)
  }

  /** A change of the repository leaves the rows of the index alone, and unaffected keys up to date. */
  lemma ViewMoves(passes: (Key, Record) -> bool, ids: map<Key, Id>, included: seq<Key>, v: View, w: View,
                  keys: set<Key>)
    requires SoundView(v) && MovesOn(v, w, keys) && Filed(passes, ids, included, v)
    ensures SoundView(w) && Filed(passes, ids, included, w) && Rows(ids, w, included) == Rows(ids, v, included)
    ensures forall key ::
            key !in keys && UpToDate(passes, ids, included, v, key) ==> UpToDate(passes, ids, included, w, key)
  {
    forall key ensures RecordAt(ids, w, key) == RecordAt(ids, v, key) {
    }
  }

  /** When no event waits, the rows are exactly the keys whose current record passes. */
  lemma DrainedRows(passes: (Key, Record) -> bool, ids: map<Key, Id>, included: seq<Key>, v: View, key: Key)
    requires SoundView(v) && Filed(passes, ids, included, v) && UpToDate(passes, ids, included, v, key)
    requires HeadRecord(v, key) != NULL_RECORD
    ensures Row(key, HeadRecord(v, key)) in Rows(ids, v, included) <==> passes(key, HeadRecord(v, key))
    ensures forall row :: row in Rows(ids, v, included) && row.key == key ==> row.record == HeadRecord(v, key)
  {
    var rows := Rows(ids, v, included);
    if key in included {
      var i :| 0 <= i < |included| && included[i] == key;
      assert rows[i] == Row(key, HeadRecord(v, key));
    }
    forall row | row in rows && row.key == key ensures row.record == HeadRecord(v, key) && key in included {
      var i :| 0 <= i < |rows| && rows[i] == row;
      assert included[i] == key;
    }
  }

  /** Without a new record for the key there is nothing to do. */
  lemma Looked(passes: (Key, Record) -> bool, ids: map<Key, Id>, included: seq<Key>, v: View, key: Key)
    requires SoundView(v) && Filed(passes, ids, included, v)
    ensures key in ids ==> ids[key] in v.records
    ensures key in v.heads && RecordAt(ids, v, key) == v.records[v.heads[key]] ==>
            UpToDate(passes, ids, included, v, key)
    ensures key !in v.heads ==> UpToDate(passes, ids, included, v, key)
  {
  }

  /** The included keys once a key has been judged again. */
  function Judged(included: seq<Key>, key: Key, pass: bool): seq<Key>
  {
    if pass then if key in included then included else included + [key]
    else if key in included then Without(included, key) else included
  }

  lemma Filing(passes: (Key, Record) -> bool, ids: map<Key, Id>, included: seq<Key>, v: View, key: Key)
    requires SoundView(v) && Filed(passes, ids, included, v) && Distinct(included) && key in v.heads
    ensures var ids2, included2 :=
              ids[key := v.heads[key]], Judged(included, key, passes(key, v.records[v.heads[key]]));
            && Filed(passes, ids2, included2, v) && Distinct(included2)
            && UpToDate(passes, ids2, included2, v, key)
            && forall k :: k != key && UpToDate(passes, ids, included, v, k) ==> UpToDate(passes, ids2, included2, v, k)
  {
    hide Distinct, Without;
    DroppedKey(included, key);
    if key !in included {
      AddedKey(included, key);
    }
  }

  lemma AddedKey(keys: seq<Key>, key: Key)
    requires Distinct(keys) && key !in keys
    ensures Distinct(keys + [key]) && forall k :: k in keys + [key] <==> k in keys || k == key
  {
  }

  lemma DroppedKey(keys: seq<Key>, key: Key)
    requires Distinct(keys)
    ensures Distinct(Without(keys, key)) && forall k :: k in Without(keys, key) <==> k in keys && k != key
  {
    WithoutKeeps(keys, key);
    forall k ensures k in Without(keys, key) <==> k in keys && k != key {
      assert k in Elements(Without(keys, key)) <==> k in Elements(keys) - {key};
    }
  }

  // ---------------------------------------------------------------------------------------

  /** What a repository with the given commits shows to its indexes. */
  ghost function ViewOf(client: Client, ops: TypeOps, byId: map<Id, Commit>, byKey: map<Key, seq<Id>>): View
    requires ById(byId) && Partition(byId, byKey)
  {
    View(map key | key in byKey && HeadIn(client, ops, byId, byKey, key).Some? ::
           HeadIn(client, ops, byId, byKey, key).value.id,
         map id | id in byId && Readable(ops, byId, byId[id]) :: RecordIn(ops, byId, byId[id], {}).value)
  }

  lemma HeadShown(client: Client, ops: TypeOps, byId: map<Id, Commit>, byKey: map<Key, seq<Id>>, key: Key)
    requires ById(byId) && Partition(byId, byKey)
    ensures key in ViewOf(client, ops, byId, byKey).heads <==> HeadIn(client, ops, byId, byKey, key).Some?
    ensures HeadIn(client, ops, byId, byKey, key).Some? ==>
              var h := HeadIn(client, ops, byId, byKey, key).value;
              h.id in byId && byId[h.id] == h && h.key == key && Readable(ops, byId, h)
    ensures HeadIn(client, ops, byId, byKey, key).Some? <==>
            exists id :: id in byId && byId[id].key == key && Readable(ops, byId, byId[id])
  {
    hide Readable, Head;
    KeyIds(byId, byKey, key);
    var ids := IdsFor(byKey, key);
    var commits := CommitsOf(byId, ids);
    HeadReadable(client, ops, byId, commits);
    forall id | id in byId && byId[id].key == key ensures byId[id] in commits {
      assert id in ids;
      var i :| 0 <= i < |ids| && ids[i] == id;
      assert commits[i] == byId[id];
    }
  }

  lemma ViewIsSound(client: Client, ops: TypeOps, byId: map<Id, Commit>, byKey: map<Key, seq<Id>>)
    requires ById(byId) && Partition(byId, byKey)
    ensures SoundView(ViewOf(client, ops, byId, byKey))
  {
    hide Readable, HeadIn, ById, Partition;
    forall key | key in ViewOf(client, ops, byId, byKey).heads
      ensures ViewOf(client, ops, byId, byKey).heads[key] in ViewOf(client, ops, byId, byKey).records
    {
      HeadShown(client, ops, byId, byKey, key);
    }
  }

  /** A commit that can be read keeps its record, whatever arrives later. */
  lemma {:induction false} ReadableStays(ops: TypeOps, store1: map<Id, Commit>, store2: map<Id, Commit>, c: Commit,
                                         seen: set<Id>)
    requires forall id :: id in store1 ==> id in store2 && store2[id] == store1[id]
    requires RecordIn(ops, store1, c, seen).Some?
    ensures RecordIn(ops, store2, c, seen) == RecordIn(ops, store1, c, seen)
    decreases store1.Keys - seen
  {
    if c.contents.Delta? {
      var base := c.contents.base;
      ReadableStays(ops, store1, store2, store1[base], seen + {base});
    }
  }

  /** Persisting commits moves the heads of their keys only, keeps records, and never loses a head. */
  lemma PersistMovesOn(client: Client, ops: TypeOps, byId1: map<Id, Commit>, byKey1: map<Key, seq<Id>>,
                       byKey2: map<Key, seq<Id>>, batch: seq<Commit>, keys: set<Key>)
    requires ById(byId1) && Partition(byId1, byKey1)
    requires ById(Arrived(byId1, batch)) && Partition(Arrived(byId1, batch), byKey2) && KeyLocal(Arrived(byId1, batch))
    requires forall key :: (forall c: Commit :: c in NewOnes(byId1, batch) ==> c.key != key) ==>
             IdsFor(byKey2, key) == IdsFor(byKey1, key)
    requires forall c :: c in NewOnes(byId1, batch) ==> c.key in keys
    ensures MovesOn(ViewOf(client, ops, byId1, byKey1), ViewOf(client, ops, Arrived(byId1, batch), byKey2), keys)
  {
    hide HeadIn, ById, Partition, KeyLocal, OtherKeysOnly, NewOnes, Arrived, IdsFor, RecordIn, Readable;
    var byId2 := Arrived(byId1, batch);
    var v, w := ViewOf(client, ops, byId1, byKey1), ViewOf(client, ops, byId2, byKey2);
    ViewIsSound(client, ops, byId2, byKey2);
    StoreGrows(byId1, batch);
    forall id | id in v.records ensures id in w.records && w.records[id] == v.records[id] {
      RecordShown(ops, byId1, byId2, id);
    }
    forall key | key in v.heads ensures key in w.heads {
      HeadShown(client, ops, byId1, byKey1, key);
      HeadShown(client, ops, byId2, byKey2, key);
      var id :| id in byId1 && byId1[id].key == key && Readable(ops, byId1, byId1[id]);
      RecordShown(ops, byId1, byId2, id);
    }
    forall key | key !in keys
      ensures (key in w.heads <==> key in v.heads) && (key in v.heads ==> w.heads[key] == v.heads[key])
    {
      ArrivedOtherKeys(byId1, batch, key);
      CachesKept(client, ops, byId1, byKey1, byId2, byKey2, key);
      HeadShown(client, ops, byId1, byKey1, key);
      HeadShown(client, ops, byId2, byKey2, key);
    }
  }

  lemma StoreGrows(store: map<Id, Commit>, batch: seq<Commit>)
    ensures forall id :: id in store ==> id in Arrived(store, batch) && Arrived(store, batch)[id] == store[id]
  {
    forall id | id in store ensures id in Arrived(store, batch) && Arrived(store, batch)[id] == store[id] {
      ArrivedFrom(store, batch, id);
    }
  }

  lemma RecordShown(ops: TypeOps, byId1: map<Id, Commit>, byId2: map<Id, Commit>, id: Id)
    requires forall i :: i in byId1 ==> i in byId2 && byId2[i] == byId1[i]
    requires id in byId1 && Readable(ops, byId1, byId1[id])
    ensures Readable(ops, byId2, byId2[id])
            && RecordIn(ops, byId2, byId2[id], {}) == RecordIn(ops, byId1, byId1[id], {})
  {
    ReadableStays(ops, byId1, byId2, byId1[id], {});
  }
}
