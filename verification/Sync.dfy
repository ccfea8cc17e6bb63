/** Sync messages, and what two peers that exchange them can rely on. */
module Sync {
  import opened Wrappers
  import opened Texts
  import opened Bloom

  type Id = Text

  /** A stored value; its body never changes once its id is in use. */
  datatype Entry = Entry(id: Id, body: Text)

  class SyncMessage {
    const filter: BloomFilter
    const size: nat
    const values: seq<Entry>

    constructor (filter: BloomFilter, size: nat, values: seq<Entry>)
      ensures this.filter == filter && this.size == size && this.values == values
    {
      this.filter, this.size, this.values := filter, size, values;
    }
  }

  /** The entries the peer's filter does not report, in scan order. */
  ghost function Missing(values: seq<Entry>, holds: Id -> bool): seq<Entry>
  {
    if values == [] then []
    else
      var n := |values| - 1;
      Missing(values[..n], holds) + if holds(values[n].id) then [] else [values[n]]
  }

  lemma {:induction false} MissingAre(values: seq<Entry>, holds: Id -> bool)
    ensures forall e :: e in Missing(values, holds) <==> e in values && !holds(e.id)
  {
    if values != [] {
      var n := |values| - 1;
      MissingAre(values[..n], holds);
      assert values == values[..n] + [values[n]];
    }
  }

  /** The answers of a filter, as a function on ids. */
  ghost function Answers(digest: Digest, bytes: seq<bv8>, seeds: seq<nat>): Id -> bool
    requires |bytes| > 0
  {
    id => HasIn(digest, bytes, seeds, id)
  }

  /** Some hash assigns bit `j` to the id of an entry. */
  ghost predicate Assigned(digest: Digest, seeds: seq<nat>, size: nat, entries: seq<Entry>, j: nat)
    requires size > 0
  {
    exists i, k :: 0 <= i < |seeds| && 0 <= k < |entries| && digest(seeds[i], [entries[k].id]) % size == j
  }

  /** Exactly the bits of the entries have been set since the bytes were `start`. */
  ghost predicate Records(digest: Digest, seeds: seq<nat>, start: seq<bv8>, bytes: seq<bv8>, entries: seq<Entry>)
  {
    && |bytes| == |start| > 0
    && forall j :: 0 <= j < 8 * |bytes| ==>
         (Bit(bytes, j) <==> Bit(start, j) || Assigned(digest, seeds, 8 * |bytes|, entries, j))
  }

  lemma RecordsMore(digest: Digest, seeds: seq<nat>, start: seq<bv8>, bytes: seq<bv8>, entries: seq<Entry>, e: Entry)
    requires Records(digest, seeds, start, bytes, entries)
    ensures Records(digest, seeds, start, AddAll(digest, bytes, seeds, [e.id]), entries + [e])
  {
    hide Bit;
    AddAllOne(digest, bytes, seeds, e.id);
    var next, size := AddAll(digest, bytes, seeds, [e.id]), 8 * |bytes|;
    forall j | 0 <= j < size
      ensures Bit(next, j) <==> Bit(start, j) || Assigned(digest, seeds, size, entries + [e], j)
    {
      if i, k :| 0 <= i < |seeds| && 0 <= k < |entries| && digest(seeds[i], [entries[k].id]) % size == j {
        assert (entries + [e])[k] == entries[k];
      }
      if i :| 0 <= i < |seeds| && digest(seeds[i], [e.id]) % size == j {
        assert (entries + [e])[|entries|] == e;
      }
    }
  }

  lemma NothingRecorded(digest: Digest, seeds: seq<nat>, bytes: seq<bv8>)
    requires |bytes| > 0
    ensures Records(digest, seeds, bytes, bytes, [])
  {
  }

  /**
   Scans the local collection. The missing values are collected, and the ids recorded, only when there is a peer
   filter and missing values are asked for; otherwise the filter goes out empty.
   */
  method Build(peerFilter: BloomFilter?, values: seq<Entry>, localSize: nat, includeMissing: bool,
               digest: Digest, m: nat, seeds: seq<nat>)
    returns (message: SyncMessage)
    requires m > 0 && seeds != []
    requires peerFilter != null ==> peerFilter.Valid()
    modifies if peerFilter != null then set h | h in peerFilter.hashes else {}
    ensures fresh(message) && fresh(message.filter) && message.filter.Valid()
    ensures peerFilter != null ==> peerFilter.Valid()
    ensures message.filter.digest == digest && message.filter.Seeds() == seeds
    ensures message.filter.filter.buffer.Length == (m + 7) / 8
    ensures var bytes := message.filter.filter.buffer[..];
            forall j :: 0 <= j < 8 * |bytes| ==>
              (Bit(bytes, j) <==>
                 peerFilter != null && includeMissing && Assigned(digest, seeds, 8 * |bytes|, values, j))
    ensures peerFilter == null || !includeMissing ==>
              message.values == [] && message.size == localSize && forall id :: !message.filter.Holds(id)
    ensures peerFilter != null && includeMissing ==>
              && message.size == |values|
              && (forall e :: e in values ==> message.filter.Holds(e.id))
              && (forall id :: peerFilter.Holds(id) <==> old(peerFilter.Holds(id)))
              && message.values ==
                 Missing(values, old(Answers(peerFilter.digest, peerFilter.filter.buffer[..], peerFilter.Seeds())))
  {
    hide HasIn, Bit, Answers, Assigned;
    var localFilter := new BloomFilter(digest, m, seeds);
    EmptyFilter(localFilter);
    var missingPeerValues: seq<Entry> := [];
    var size := localSize;
    if peerFilter != null && includeMissing {
      size, missingPeerValues := Scan(localFilter, peerFilter, values);
    }
    message := new SyncMessage(localFilter, size, missingPeerValues);
  }

  ghost predicate Apart(a: BloomFilter, b: BloomFilter)
    reads a, b, a.filter, b.filter
  {
    a != b && a.filter != b.filter && a.filter.buffer != b.filter.buffer && forall h :: h in a.hashes ==> h !in b.hashes
  }

  /** One entry of the collection: its id is recorded, and the peer's filter is asked about it. */
  method ScanOne(localFilter: BloomFilter, peerFilter: BloomFilter, id: Id) returns (has: bool)
    requires localFilter.Valid() && peerFilter.Valid() && Apart(localFilter, peerFilter)
    modifies localFilter.filter.buffer, localFilter.hashes, peerFilter.hashes
    ensures localFilter.Valid() && peerFilter.Valid() && localFilter.Holds(id)
    ensures localFilter.filter.buffer[..] ==
            AddAll(localFilter.digest, old(localFilter.filter.buffer[..]), localFilter.Seeds(), [id])
    ensures forall x :: old(localFilter.Holds(x)) ==> localFilter.Holds(x)
    ensures forall x :: peerFilter.Holds(x) <==> old(peerFilter.Holds(x))
    ensures has <==> peerFilter.Holds(id)
  {
    hide HasIn, Bit;
    localFilter.Add([id]);
    has := peerFilter.Has(id);
  }

  /** One pass over the collection: every id is recorded, every entry the peer seems to lack is collected. */
  method Scan(localFilter: BloomFilter, peerFilter: BloomFilter, values: seq<Entry>)
    returns (size: nat, missing: seq<Entry>)
    requires localFilter.Valid() && peerFilter.Valid() && Apart(localFilter, peerFilter)
    modifies localFilter.filter.buffer, localFilter.hashes, peerFilter.hashes
    ensures localFilter.Valid() && peerFilter.Valid()
    ensures size == |values|
    ensures forall e :: e in values ==> localFilter.Holds(e.id)
    ensures Records(localFilter.digest, localFilter.Seeds(), old(localFilter.filter.buffer[..]),
                    localFilter.filter.buffer[..], values)
    ensures forall id :: peerFilter.Holds(id) <==> old(peerFilter.Holds(id))
    ensures missing ==
            Missing(values, old(Answers(peerFilter.digest, peerFilter.filter.buffer[..], peerFilter.Seeds())))
  {
    hide HasIn, Bit, BloomFilter.Holds, BloomFilter.Valid, AddAll, Records;
    ghost var seeds, start := localFilter.Seeds(), localFilter.filter.buffer[..];
    HoldsAre(localFilter);
    NothingRecorded(localFilter.digest, seeds, start);
    missing, size := [], 0;
    HoldsAre(peerFilter);
    ghost var holds := Answers(peerFilter.digest, peerFilter.filter.buffer[..], peerFilter.Seeds());
    for i := 0 to |values|
      invariant peerFilter.Valid() && localFilter.Valid()
      invariant size == i
      invariant forall j :: 0 <= j < i ==> localFilter.Holds(values[j].id)
      invariant localFilter.Seeds() == seeds
      invariant Records(localFilter.digest, seeds, start, localFilter.filter.buffer[..], values[..i])
      invariant forall id :: peerFilter.Holds(id) <==> holds(id)
      invariant missing == Missing(values[..i], holds)
    {
      assert values[..i + 1][..i] == values[..i];
      assert values[..i + 1] == values[..i] + [values[i]];
      RecordsMore(localFilter.digest, seeds, start, localFilter.filter.buffer[..], values[..i], values[i]);
      var has := ScanOne(localFilter, peerFilter, values[i].id);
      size := size + 1;
      if !has {
        missing := missing + [values[i]];
      }
    }
    assert values[..|values|] == values;
  }

  lemma HoldsAre(f: BloomFilter)
    requires f.Valid()
    ensures |f.filter.buffer[..]| > 0
    ensures forall id :: f.Holds(id) <==> Answers(f.digest, f.filter.buffer[..], f.Seeds())(id)
  {
    hide HasIn;
  }

  lemma EmptyFilter(f: BloomFilter)
    requires f.Valid() && f.Seeds() != []
             && forall i :: 0 <= i < 8 * f.filter.buffer.Length ==> !Bit(f.filter.buffer[..], i)
    ensures forall id :: !f.Holds(id)
  {
    forall id ensures !f.Holds(id) {
      var slot := Slot(f.digest, f.Seeds()[0], id, 8 * f.filter.buffer.Length);
      assert !Bit(f.filter.buffer[..], slot);
    }
  }

  // ---------------------------------------------------------------------------------------

  /** Two peers: the collections, and the filter the client keeps from the last response. */
  datatype Peers = Peers(client: map<Id, Entry>, server: map<Id, Entry>, filter: Option<Id -> bool>)

  /**
   What happens next. In a cycle the client sends a request and the server a response, each possibly without values,
   each possibly lost; both filters may err towards yes as they please. Otherwise one side stores a new entry.
   */
  datatype Event =
    | Cycle(clientAsks: bool, clientFilter: Id -> bool, requestArrives: bool,
            serverAsks: bool, serverFilter: Id -> bool, responseArrives: bool)
    | ClientAdds(entry: Entry)
    | ServerAdds(entry: Entry)

  /** What `Build` sends. */
  function Sent(local: map<Id, Entry>, peer: Option<Id -> bool>, includeMissing: bool): map<Id, Entry>
  {
    if peer.Some? && includeMissing then map id | id in local && !peer.value(id) :: local[id] else map[]
  }

  /** What `Build` promises of its filter: every local id is reported, or the filter is empty. */
  ghost predicate LegalFilter(local: map<Id, Entry>, peer: Option<Id -> bool>, includeMissing: bool, filter: Id -> bool)
  {
    if peer.Some? && includeMissing then forall id :: id in local ==> filter(id) else forall id :: !filter(id)
  }

  /** Values already stored stay as they are. */
  function Persist(local: map<Id, Entry>, received: map<Id, Entry>): map<Id, Entry>
  {
    received + local
  }

  function Step(s: Peers, e: Event): Peers
  {
    match e
    case ClientAdds(entry) => s.(client := s.client[entry.id := entry])
    case ServerAdds(entry) => s.(server := s.server[entry.id := entry])
    case Cycle(clientAsks, clientFilter, requestArrives, serverAsks, serverFilter, responseArrives) =>
      if !requestArrives then s
      else
        var server := Persist(s.server, Sent(s.client, s.filter, clientAsks));
        if !responseArrives then s.(server := server)
        else Peers(Persist(s.client, Sent(server, Some(clientFilter), serverAsks)), server, Some(serverFilter))
  }

  ghost predicate Legal(s: Peers, e: Event)
  {
    match e
    case ClientAdds(entry) => entry.id !in s.client && entry.id !in s.server
    case ServerAdds(entry) => entry.id !in s.client && entry.id !in s.server
    case Cycle(clientAsks, clientFilter, _, serverAsks, serverFilter, _) =>
      var server := Persist(s.server, Sent(s.client, s.filter, clientAsks));
      LegalFilter(s.client, s.filter, clientAsks, clientFilter)
      && LegalFilter(server, Some(clientFilter), serverAsks, serverFilter)
  }

  ghost predicate Agree(s: Peers)
  {
    Consistent(s.client, s.server)
  }

  ghost function Union(s: Peers): map<Id, Entry>
  {
    s.client + s.server
  }

  /** The ids that exactly one side has. */
  ghost function Differ(s: Peers): set<Id>
  {
    OneSided(s.client, s.server)
  }

  function Added(e: Event): map<Id, Entry>
  {
    match e
    case ClientAdds(entry) => map[entry.id := entry]
    case ServerAdds(entry) => map[entry.id := entry]
    case _ => map[]
  }

  ghost predicate Extends(a: map<Id, Entry>, b: map<Id, Entry>)
  {
    forall id :: id in a ==> id in b && b[id] == a[id]
  }

  /** Values that reach a peer are copies of what the other has: nothing clashes, and no stored copy changes. */
  lemma GiveSafe(from: map<Id, Entry>, to: map<Id, Entry>, peer: Option<Id -> bool>, includeMissing: bool)
    requires Consistent(from, to)
    ensures var next := Persist(to, Sent(from, peer, includeMissing));
            Consistent(from, next) && Extends(to, next) && from + next == from + to
              && OneSided(from, next) <= OneSided(from, to)
  {
  }

  /** Entries are filed by id, and an id means the same entry in both. */
  ghost predicate Consistent(a: map<Id, Entry>, b: map<Id, Entry>)
  {
    && (forall id :: id in a ==> a[id].id == id)
    && (forall id :: id in b ==> b[id].id == id)
    && forall id :: id in a && id in b ==> a[id] == b[id]
  }

  ghost function OneSided(a: map<Id, Entry>, b: map<Id, Entry>): set<Id>
  {
    (a.Keys - b.Keys) + (b.Keys - a.Keys)
  }

  lemma Swap(a: map<Id, Entry>, b: map<Id, Entry>)
    requires Consistent(a, b)
    ensures Consistent(b, a) && a + b == b + a && OneSided(a, b) == OneSided(b, a)
  {
  }

  lemma CycleSafe(s: Peers, e: Event)
    requires Agree(s) && e.Cycle?
    ensures var t := Step(s, e);
            && Agree(t) && Union(t) == Union(s)
            && Extends(s.client, t.client) && Extends(s.server, t.server)
            && Differ(t) <= Differ(s)
  {
    hide Sent, Persist, Consistent, Extends, OneSided;
    var server := Persist(s.server, Sent(s.client, s.filter, e.clientAsks));
    var client := Persist(s.client, Sent(server, Some(e.clientFilter), e.serverAsks));
    GiveSafe(s.client, s.server, s.filter, e.clientAsks);
    Swap(s.client, server);
    GiveSafe(server, s.client, Some(e.clientFilter), e.serverAsks);
    Swap(server, client);
    Unchanged(s.client);
    Unchanged(s.server);
  }

  lemma Unchanged(a: map<Id, Entry>)
    ensures Extends(a, a)
  {
  }

  lemma AddOne(a: map<Id, Entry>, b: map<Id, Entry>, entry: Entry)
    requires Consistent(a, b) && entry.id !in a && entry.id !in b
    ensures var next := a[entry.id := entry];
            && Consistent(next, b) && Extends(a, next) && next + b == a + b + map[entry.id := entry]
            && OneSided(next, b) <= OneSided(a, b) + {entry.id}
  {
  }

  lemma AddSafe(s: Peers, e: Event)
    requires Agree(s) && Legal(s, e) && !e.Cycle?
    ensures var t := Step(s, e);
            && Agree(t)
            && Union(t) == Union(s) + Added(e)
            && Extends(s.client, t.client) && Extends(s.server, t.server)
            && Differ(t) <= Differ(s) + Added(e).Keys
  {
    hide Consistent, Extends, OneSided;
    Unchanged(s.client);
    Unchanged(s.server);
    if e.ClientAdds? {
      AddOne(s.client, s.server, e.entry);
    } else {
      Swap(s.client, s.server);
      AddOne(s.server, s.client, e.entry);
      Swap(s.server[e.entry.id := e.entry], s.client);
    }
  }

  /** One event conserves the union, loses nothing on either side and lets the difference only shrink. */
  lemma StepSafe(s: Peers, e: Event)
    requires Agree(s) && Legal(s, e)
    ensures var t := Step(s, e);
            && Agree(t)
            && Union(t) == Union(s) + Added(e)
            && Extends(s.client, t.client) && Extends(s.server, t.server)
            && Differ(t) <= Differ(s) + Added(e).Keys
  {
    hide Step, Agree, Union, Extends, Differ, Legal;
    if e.Cycle? {
      CycleSafe(s, e);
      NothingAdded(Union(s));
    } else {
      AddSafe(s, e);
    }
  }

  ghost function RunEvents(s: Peers, events: seq<Event>): Peers
  {
    if events == [] then s else Step(RunEvents(s, events[..|events| - 1]), events[|events| - 1])
  }

  ghost predicate LegalRun(s: Peers, events: seq<Event>)
  {
    forall i :: 0 <= i < |events| ==> Legal(RunEvents(s, events[..i]), events[i])
  }

  ghost function AllAdded(events: seq<Event>): map<Id, Entry>
  {
    if events == [] then map[] else AllAdded(events[..|events| - 1]) + Added(events[|events| - 1])
  }

  /** Over any run the union is what was there at the start and what either side stored since. */
  lemma {:induction false} RunSafe(s: Peers, events: seq<Event>)
    requires Agree(s) && LegalRun(s, events)
    ensures var t := RunEvents(s, events);
            && Agree(t)
            && Union(t) == Union(s) + AllAdded(events)
            && Extends(s.client, t.client) && Extends(s.server, t.server)
            && Differ(t) <= Differ(s) + AllAdded(events).Keys
  {
    hide Step, Legal, Agree, Union, Differ, Added, Extends;
    if events == [] {
      NothingRun(s);
    } else {
      var n := |events| - 1;
      var past := events[..n];
      assert forall i :: 0 <= i < n ==> past[..i] == events[..i];
      RunSafe(s, past);
      var mid := RunEvents(s, past);
      StepSafe(mid, events[n]);
      ExtendsFurther(s.client, mid.client, Step(mid, events[n]).client);
      ExtendsFurther(s.server, mid.server, Step(mid, events[n]).server);
      AddedMore(Union(s), AllAdded(past), Added(events[n]));
    }
  }

  lemma AddedMore(a: map<Id, Entry>, b: map<Id, Entry>, c: map<Id, Entry>)
    ensures a + b + c == a + (b + c) && (b + c).Keys == b.Keys + c.Keys
  {
  }

  lemma NothingRun(s: Peers)
    ensures Union(s) == Union(s) + map[] && Extends(s.client, s.client) && Extends(s.server, s.server)
  {
  }

  lemma ExtendsFurther(a: map<Id, Entry>, b: map<Id, Entry>, c: map<Id, Entry>)
    requires Extends(a, b) && Extends(b, c)
    ensures Extends(a, c)
  {
  }

  /** Nothing that the receiver had recorded in its filter is sent to it. */
  lemma RecordedNotSent(sender: map<Id, Entry>, receiver: map<Id, Entry>, peer: Option<Id -> bool>, asks: bool,
                        filter: Id -> bool, includeMissing: bool)
    requires LegalFilter(receiver, peer, asks, filter)
    ensures peer.Some? && asks ==> Sent(sender, Some(filter), includeMissing).Keys !! receiver.Keys
    ensures peer.None? && includeMissing ==> Sent(sender, Some(filter), includeMissing) == sender
  {
  }

  /** The state machine's view of a scan is what the scan computes. */
  lemma ScanIsSent(values: seq<Entry>, local: map<Id, Entry>, holds: Id -> bool)
    requires forall e :: e in values <==> e.id in local && local[e.id] == e
    requires forall id :: id in local ==> local[id].id == id
    ensures forall e :: e in Missing(values, holds) <==>
              e.id in Sent(local, Some(holds), true) && Sent(local, Some(holds), true)[e.id] == e
  {
    MissingAre(values, holds);
  }

  // ---------------------------------------------------------------------------------------

  /** An endless run of cycles, in which nobody stores anything new. */
  ghost predicate Endless(run: nat -> Peers, events: nat -> Event)
  {
    Agree(run(0)) && forall i: nat ::
      events(i).Cycle? && Legal(run(i), events(i)) && run(i + 1) == Step(run(i), events(i))
  }

  /** A complete cycle in which no filter errs about `id`. */
  ghost predicate Clear(s: Peers, e: Event, id: Id)
  {
    && e.Cycle? && e.clientAsks && e.serverAsks && e.requestArrives && e.responseArrives && s.filter.Some?
    && (id !in s.client ==> !e.clientFilter(id))
    && (id !in s.server ==> !s.filter.value(id))
  }

  /** No id that one side still lacks is a false positive, or hit by a loss, for ever. */
  ghost predicate Fair(run: nat -> Peers, events: nat -> Event)
  {
    forall id, t: nat :: id in Differ(run(t)) ==> ClearAfter(run, events, id, t)
  }

  ghost predicate ClearAfter(run: nat -> Peers, events: nat -> Event, id: Id, t: nat)
  {
    exists u: nat :: t <= u && Clear(run(u), events(u), id)
  }

  lemma ClearDelivers(s: Peers, e: Event, id: Id)
    requires Clear(s, e, id)
    ensures id !in Differ(Step(s, e))
  {
  }

  lemma {:induction false} EndlessAgree(run: nat -> Peers, events: nat -> Event, t: nat)
    requires Endless(run, events)
    ensures Agree(run(t))
  {
    hide Agree, Legal, Step;
    if t > 0 {
      EndlessAgree(run, events, t - 1);
      StepSafe(run(t - 1), events(t - 1));
      assert run(t - 1 + 1) == Step(run(t - 1), events(t - 1));
    }
  }

  lemma {:induction false} DifferShrinks(run: nat -> Peers, events: nat -> Event, t: nat, u: nat)
    requires Endless(run, events) && t <= u
    ensures Differ(run(u)) <= Differ(run(t))
  {
    hide Agree, Legal, Step, Differ;
    if t < u {
      DifferShrinks(run, events, t, u - 1);
      EndlessAgree(run, events, u - 1);
      StepSafe(run(u - 1), events(u - 1));
      assert run(u - 1 + 1) == Step(run(u - 1), events(u - 1));
    }
  }

  lemma {:induction false} DifferEmpties(run: nat -> Peers, events: nat -> Event, t: nat) returns (n: nat)
    requires Endless(run, events) && Fair(run, events)
    ensures Differ(run(n)) == {}
    decreases |Differ(run(t))|
  {
    hide Agree, Legal, Step, Differ, Clear;
    if Differ(run(t)) == {} {
      n := t;
    } else {
      var id :| id in Differ(run(t));
      assert ClearAfter(run, events, id, t);
      var u: nat :| t <= u && Clear(run(u), events(u), id);
      ClearDelivers(run(u), events(u), id);
      assert run(u + 1) == Step(run(u), events(u));
      DifferShrinks(run, events, t, u + 1);
      ProperSubset(Differ(run(u + 1)), Differ(run(t)), id);
      n := DifferEmpties(run, events, u + 1);
    }
  }

  lemma ProperSubset(a: set<Id>, b: set<Id>, id: Id)
    requires a <= b && id in b && id !in a
    ensures |a| < |b|
  {
    SubsetSize(a, b - {id});
  }

  lemma {:induction false} SubsetSize(a: set<Id>, b: set<Id>)
    requires a <= b
    ensures |a| <= |b|
  {
    if a != {} {
      var x :| x in a;
      SubsetSize(a - {x}, b - {x});
    }
  }

  /** As long as every id that one side lacks gets through in the end, both collections become equal and stay so. */
  lemma Converges(run: nat -> Peers, events: nat -> Event) returns (n: nat)
    requires Endless(run, events) && Fair(run, events)
    ensures forall m: nat :: n <= m ==> run(m).client == run(m).server
    ensures forall m: nat :: n <= m ==> run(m).client == Union(run(0))
  {
    hide Step, Clear, Legal;
    n := DifferEmpties(run, events, 0);
    forall m: nat | n <= m ensures run(m).client == run(m).server && run(m).client == Union(run(0)) {
      DifferShrinks(run, events, n, m);
      EndlessAgree(run, events, m);
      UnionKept(run, events, m);
      NoDifference(run(m));
    }
  }

  lemma NoDifference(s: Peers)
    requires Agree(s) && Differ(s) == {}
    ensures s.client == s.server && s.client == Union(s)
  {
    assert s.client.Keys == s.server.Keys;
  }

  lemma {:induction false} UnionKept(run: nat -> Peers, events: nat -> Event, t: nat)
    requires Endless(run, events)
    ensures Union(run(t)) == Union(run(0))
  {
    hide Agree, Legal, Step, Union;
    if t > 0 {
      UnionKept(run, events, t - 1);
      EndlessAgree(run, events, t - 1);
      StepSafe(run(t - 1), events(t - 1));
      assert run(t - 1 + 1) == Step(run(t - 1), events(t - 1));
      NothingAdded(Union(run(0)));
    }
  }

  lemma NothingAdded(m: map<Id, Entry>)
    ensures m + map[] == m
  {
  }
}
