/** A cache that evicts its least recently used entries, on top of the linked ordered map. */
module LruCache {
  import opened Wrappers
  import opened Sequences
  import OM = OrderedMap

  /** The cache as a list ordered by recency; `evicted` is what the eviction handler has been told so far. */
  datatype State<K, V> = State(keys: seq<K>, vals: map<K, Option<V>>, limit: int, evicted: seq<(K, Option<V>)>)

  datatype Op<K, V> = Get(key: K) | Has(key: K) | Set(key: K, value: V) | Delete(key: K) | SetLimit(limit: int)

  function Touch<K(==)>(keys: seq<K>, key: K): seq<K>
  {
    if key in keys then Without(keys, key) + [key] else keys
  }

  ghost predicate WellFormed<K, V>(s: State<K, V>)
  {
    Distinct(s.keys) && s.vals.Keys == Elements(s.keys)
  }

  /** How many entries are over the limit; a limit of 0 means there is none. */
  function Excess<K, V>(s: State<K, V>): nat
  {
    if s.limit > 0 && |s.keys| > s.limit then |s.keys| - s.limit else 0
  }

  function Pairs<K, V>(keys: seq<K>, vals: map<K, Option<V>>): seq<(K, Option<V>)>
    requires forall k :: k in keys ==> k in vals
  {
    if keys == [] then [] else [(keys[0], vals[keys[0]])] + Pairs(keys[1..], vals)
  }

  /** The oldest entries over the limit leave; the handler hears of each with its value. */
  ghost function Evict<K, V>(s: State<K, V>): State<K, V>
    requires WellFormed(s)
  {
    var n := Excess(s);
    assert forall k :: k in s.keys[..n] ==> k in Elements(s.keys);
    State(s.keys[n..], s.vals - Elements(s.keys[..n]), s.limit, s.evicted + Pairs(s.keys[..n], s.vals))
  }

  ghost function Step<K, V>(s: State<K, V>, op: Op<K, V>): State<K, V>
    requires WellFormed(s)
  {
    match op
    case Get(key) => s.(keys := Touch(s.keys, key))
    case Has(key) => s.(keys := Touch(s.keys, key))
    case Set(key, value) =>
      if key in s.keys then s.(keys := Touch(s.keys, key), vals := s.vals[key := Some(value)])
      else
        Added(s, key, value);
        Evict(s.(keys := s.keys + [key], vals := s.vals[key := Some(value)]))
    case Delete(key) => s.(keys := Without(s.keys, key), vals := s.vals - {key})
    case SetLimit(limit) => Evict(s.(limit := if limit < 0 then 0 else limit))
  }

  lemma Added<K, V>(s: State<K, V>, key: K, value: V)
    requires WellFormed(s) && key !in s.keys
    ensures WellFormed(s.(keys := s.keys + [key], vals := s.vals[key := Some(value)]))
  {
    ElementsJoin(s.keys, [key]);
  }

  lemma Dropped<K>(keys: seq<K>, n: nat)
    requires Distinct(keys) && n <= |keys|
    ensures Distinct(keys[n..]) && Elements(keys[n..]) == Elements(keys) - Elements(keys[..n])
  {
    assert keys == keys[..n] + keys[n..];
    ElementsJoin(keys[..n], keys[n..]);
  }

  lemma EvictKeeps<K, V>(s: State<K, V>)
    requires WellFormed(s)
    ensures WellFormed(Evict(s))
  {
    hide Elements;
    Dropped(s.keys, Excess(s));
    assert (s.vals - Elements(s.keys[..Excess(s)])).Keys == s.vals.Keys - Elements(s.keys[..Excess(s)]);
  }

  lemma TouchKeeps<K>(keys: seq<K>, key: K)
    requires Distinct(keys)
    ensures Distinct(Touch(keys, key)) && Elements(Touch(keys, key)) == Elements(keys)
    ensures Distinct(Without(keys, key)) && Elements(Without(keys, key)) == Elements(keys) - {key}
  {
    if key in keys {
      var i := IndexIn(keys, key);
      WithoutAt(keys, i);
      ElementsCut(keys, i);
      ElementsJoin(Without(keys, key), [key]);
      CutDistinct(keys, i);
    } else {
      WithoutNone(keys, key);
    }
  }

  lemma CutDistinct<K>(keys: seq<K>, i: nat)
    requires Distinct(keys) && i < |keys|
    ensures Distinct(keys[..i] + keys[i + 1..]) && Distinct(keys[..i] + keys[i + 1..] + [keys[i]])
  {
  }

  lemma StepKeeps<K, V>(s: State<K, V>, op: Op<K, V>)
    requires WellFormed(s)
    ensures WellFormed(Step(s, op))
  {
    hide Touch, Without, Evict, Elements, Distinct;
    match op
    case Get(key) => TouchKeeps(s.keys, key);
    case Has(key) => TouchKeeps(s.keys, key);
    case Set(key, value) =>
      if key in s.keys {
        TouchKeeps(s.keys, key);
        InElements(s.keys, key);
        assert s.vals[key := Some(value)].Keys == s.vals.Keys;
      } else {
        Added(s, key, value);
        EvictKeeps(s.(keys := s.keys + [key], vals := s.vals[key := Some(value)]));
      }
    case Delete(key) =>
      TouchKeeps(s.keys, key);
      assert (s.vals - {key}).Keys == s.vals.Keys - {key};
    case SetLimit(limit) =>
      EvictKeeps(s.(limit := if limit < 0 then 0 else limit));
  }

  lemma InElements<K>(keys: seq<K>, key: K)
    ensures key in keys <==> key in Elements(keys)
  {
  }

  // ---------------------------------------------------------------------------------------

  ghost function Run<K, V>(limit: int, ops: seq<Op<K, V>>): (s: State<K, V>)
    ensures WellFormed(s)
  {
    if ops == [] then State([], map[], if limit < 0 then 0 else limit, [])
    else
      var before := Run(limit, ops[..|ops| - 1]);
      StepKeeps(before, ops[|ops| - 1]);
      Step(before, ops[|ops| - 1])
  }

  predicate Touches<K(==), V>(op: Op<K, V>, key: K)
  {
    match op
    case Get(k) => k == key
    case Has(k) => k == key
    case Set(k, _) => k == key
    case _ => false
  }

  /** When `key` was last read, tested or written, counting from 1; 0 means never. */
  function LastTouch<K(==), V>(ops: seq<Op<K, V>>, key: K): nat
  {
    if ops == [] then 0
    else if Touches(ops[|ops| - 1], key) then |ops|
    else LastTouch(ops[..|ops| - 1], key)
  }

  /** The keys stand in the order in which they were last touched. */
  ghost predicate ByRecency<K, V>(ops: seq<Op<K, V>>, keys: seq<K>)
  {
    forall i, j :: 0 <= i < j < |keys| ==> LastTouch(ops, keys[i]) < LastTouch(ops, keys[j])
  }

  lemma {:induction false} TouchInPast<K, V>(ops: seq<Op<K, V>>, key: K)
    ensures LastTouch(ops, key) <= |ops|
  {
    if ops != [] {
      TouchInPast(ops[..|ops| - 1], key);
    }
  }

  lemma OneMore<K, V>(ops: seq<Op<K, V>>, op: Op<K, V>, key: K)
    ensures LastTouch(ops + [op], key) == if Touches(op, key) then |ops| + 1 else LastTouch(ops, key)
  {
    assert (ops + [op])[..|ops|] == ops;
  }

  /** Keys that the operation does not touch keep their order. */
  lemma RecencyKept<K, V>(ops: seq<Op<K, V>>, op: Op<K, V>, keys: seq<K>)
    requires ByRecency(ops, keys) && forall k :: k in keys ==> !Touches(op, k)
    ensures ByRecency(ops + [op], keys)
  {
    hide LastTouch, Touches;
    forall i, j | 0 <= i < j < |keys| ensures LastTouch(ops + [op], keys[i]) < LastTouch(ops + [op], keys[j]) {
      OneMore(ops, op, keys[i]);
      OneMore(ops, op, keys[j]);
    }
  }

  /** The touched key becomes the most recent one. */
  lemma RecencyTop<K, V>(ops: seq<Op<K, V>>, op: Op<K, V>, keys: seq<K>, key: K)
    requires ByRecency(ops, keys) && Touches(op, key) && forall k :: k in keys ==> !Touches(op, k)
    ensures ByRecency(ops + [op], keys + [key])
  {
    RecencyKept(ops, op, keys);
    hide LastTouch, Touches;
    OneMore(ops, op, key);
    forall i | 0 <= i < |keys| ensures LastTouch(ops + [op], keys[i]) < LastTouch(ops + [op], key) {
      OneMore(ops, op, keys[i]);
      TouchInPast(ops, keys[i]);
    }
  }

  lemma RecencyCut<K, V>(ops: seq<Op<K, V>>, keys: seq<K>, key: K)
    requires ByRecency(ops, keys) && Distinct(keys)
    ensures ByRecency(ops, Without(keys, key)) && key !in Without(keys, key)
  {
    hide LastTouch;
    if key in keys {
      var i := IndexIn(keys, key);
      WithoutAt(keys, i);
      var left := keys[..i] + keys[i + 1..];
      assert forall j :: 0 <= j < |left| ==> left[j] == keys[if j < i then j else j + 1];
    } else {
      WithoutNone(keys, key);
    }
  }

  lemma RecencyTouched<K, V>(ops: seq<Op<K, V>>, op: Op<K, V>, keys: seq<K>, key: K)
    requires ByRecency(ops, keys) && Distinct(keys) && forall k :: Touches(op, k) <==> k == key
    ensures ByRecency(ops + [op], Touch(keys, key))
  {
    hide ByRecency, Distinct, Without;
    if key in keys {
      RecencyCut(ops, keys, key);
      RecencyTop(ops, op, Without(keys, key), key);
    } else {
      RecencyKept(ops, op, keys);
    }
  }

  lemma RecencyDrop<K, V>(ops: seq<Op<K, V>>, keys: seq<K>, n: nat)
    requires ByRecency(ops, keys) && n <= |keys|
    ensures ByRecency(ops, keys[n..])
    ensures forall i, j :: 0 <= i < n <= j < |keys| ==> LastTouch(ops, keys[i]) < LastTouch(ops, keys[j])
  {
  }

  /** Before eviction: the state an operation reaches, and its order. */
  ghost function Before<K, V>(s: State<K, V>, op: Op<K, V>): (t: State<K, V>)
    requires WellFormed(s)
    ensures WellFormed(t)
  {
    match op
    case Get(key) => TouchKeeps(s.keys, key); s.(keys := Touch(s.keys, key))
    case Has(key) => TouchKeeps(s.keys, key); s.(keys := Touch(s.keys, key))
    case Set(key, value) =>
      if key in s.keys then
        TouchKeeps(s.keys, key);
        InElements(s.keys, key);
        s.(keys := Touch(s.keys, key), vals := s.vals[key := Some(value)])
      else
        Added(s, key, value);
        s.(keys := s.keys + [key], vals := s.vals[key := Some(value)])
    case Delete(key) => TouchKeeps(s.keys, key); s.(keys := Without(s.keys, key), vals := s.vals - {key})
    case SetLimit(limit) => s.(limit := if limit < 0 then 0 else limit)
  }

  lemma EvictNothing<K, V>(s: State<K, V>)
    requires WellFormed(s) && Excess(s) == 0
    ensures Evict(s) == s
  {
    assert s.keys[..0] == [];
    assert s.vals - Elements(s.keys[..0]) == s.vals;
  }

  lemma BeforeFits<K, V>(s: State<K, V>, op: Op<K, V>)
    requires WellFormed(s) && Excess(s) == 0 && !op.SetLimit? && (op.Set? ==> op.key in s.keys)
    ensures Excess(Before(s, op)) == 0
  {
    hide Elements, Distinct;
    if op.Get? || op.Has? || op.Set? || op.Delete? {
      TouchLength(s.keys, op.key);
    }
  }

  lemma TouchLength<K>(keys: seq<K>, key: K)
    ensures |Without(keys, key)| <= |keys| && |Touch(keys, key)| == |keys|
  {
    if key in keys {
      WithoutLength(keys, key);
    } else {
      WithoutNone(keys, key);
    }
  }

  lemma {:induction false} WithoutLength<K>(keys: seq<K>, key: K)
    requires key in keys
    ensures |Without(keys, key)| == |keys| - 1
  {
    if keys[0] != key {
      WithoutLength(keys[1..], key);
    }
  }

  /** Every operation on a cache within its limit is a change followed by the eviction of what is over the limit. */
  lemma StepEvicts<K, V>(s: State<K, V>, op: Op<K, V>)
    requires WellFormed(s) && Excess(s) == 0
    ensures Step(s, op) == Evict(Before(s, op))
  {
    hide Evict, WellFormed;
    if !op.SetLimit? && (op.Set? ==> op.key in s.keys) {
      BeforeFits(s, op);
      EvictNothing(Before(s, op));
    }
  }

  lemma BeforeByRecency<K, V>(s: State<K, V>, ops: seq<Op<K, V>>, op: Op<K, V>)
    requires WellFormed(s) && ByRecency(ops, s.keys)
    ensures ByRecency(ops + [op], Before(s, op).keys)
  {
    hide ByRecency, Elements, Distinct, Without;
    match op
    case Get(key) => RecencyTouched(ops, op, s.keys, key);
    case Has(key) => RecencyTouched(ops, op, s.keys, key);
    case Set(key, value) =>
      if key in s.keys {
        RecencyTouched(ops, op, s.keys, key);
      } else {
        RecencyTop(ops, op, s.keys, key);
      }
    case Delete(key) =>
      RecencyCut(ops, s.keys, key);
      RecencyKept(ops, op, Without(s.keys, key));
    case SetLimit(limit) =>
      RecencyKept(ops, op, s.keys);
  }

  lemma RunMore<K, V>(limit: int, ops: seq<Op<K, V>>, op: Op<K, V>)
    ensures Run(limit, ops + [op]) == Step(Run(limit, ops), op)
  {
    assert (ops + [op])[..|ops|] == ops;
  }

  /** After any run, a positive limit is respected and the keys stand in the order of their last touch. */
  lemma {:induction false} RunByRecency<K, V>(limit: int, ops: seq<Op<K, V>>)
    ensures var s := Run(limit, ops); ByRecency(ops, s.keys) && s.limit >= 0 && (s.limit > 0 ==> |s.keys| <= s.limit)
  {
    hide ByRecency, WellFormed, Before, Step;
    if ops == [] {
      NoRecency<K, V>();
    } else {
      var past, op := ops[..|ops| - 1], ops[|ops| - 1];
      assert ops == past + [op];
      RunByRecency(limit, past);
      var s := Run(limit, past);
      RunMore(limit, past, op);
      StepEvicts(s, op);
      BeforeByRecency(s, past, op);
      RecencyDrop(ops, Before(s, op).keys, Excess(Before(s, op)));
      BeforeLimit(s, op);
    }
  }

  lemma NoRecency<K, V>()
    ensures ByRecency<K, V>([], [])
  {
  }

  lemma BeforeLimit<K, V>(s: State<K, V>, op: Op<K, V>)
    requires WellFormed(s) && s.limit >= 0
    ensures Before(s, op).limit >= 0 && Before(s, op).evicted == s.evicted
  {
  }

  /** What leaves the cache is older than everything that stays, and is reported once, with the value it had. */
  lemma OldestEvicted<K, V>(limit: int, ops: seq<Op<K, V>>, op: Op<K, V>)
    ensures var t := Before(Run(limit, ops), op); var s' := Run(limit, ops + [op]); var n := |t.keys| - |s'.keys|;
            && 0 <= n <= |t.keys| && s'.keys == t.keys[n..] && WellFormed(t)
            && (forall i :: 0 <= i < n ==> t.keys[i] in t.vals)
            && (forall i :: 0 <= i < n ==> t.keys[i] !in s'.vals)
            && s'.evicted == Run(limit, ops).evicted + Pairs(t.keys[..n], t.vals)
            && forall i, k :: 0 <= i < n && k in s'.keys ==> LastTouch(ops + [op], t.keys[i]) < LastTouch(ops + [op], k)
  {
    hide ByRecency, Before, Step, Run;
    var s := Run(limit, ops);
    RunByRecency(limit, ops);
    RunMore(limit, ops, op);
    StepEvicts(s, op);
    BeforeByRecency(s, ops, op);
    BeforeLimit(s, op);
    var t := Before(s, op);
    RecencyDrop(ops + [op], t.keys, Excess(t));
    forall i | 0 <= i < Excess(t) ensures t.keys[i] in t.vals && t.keys[i] in Elements(t.keys[..Excess(t)]) {
      assert t.keys[..Excess(t)][i] == t.keys[i];
      assert t.keys[i] in Elements(t.keys);
    }
  }

  /** The key just set is present, newest of all, with its new value. */
  lemma JustSet<K, V>(limit: int, ops: seq<Op<K, V>>, key: K, value: V)
    ensures var s := Run(limit, ops + [Set(key, value)]);
            s.keys != [] && s.keys[|s.keys| - 1] == key && key in s.vals && s.vals[key] == Some(value)
  {
    hide Run, Distinct, ByRecency;
    var s, op := Run(limit, ops), Op<K, V>.Set(key, value);
    RunByRecency(limit, ops);
    RunMore(limit, ops, op);
    StepEvicts(s, op);
    var t := Before(s, op);
    SetLast(s, key, value);
    EvictKeeps(t);
    assert Evict(t).keys[|Evict(t).keys| - 1] == key;
    InElements(Evict(t).keys, key);
  }

  lemma SetLast<K, V>(s: State<K, V>, key: K, value: V)
    requires WellFormed(s)
    ensures var t := Before(s, Set(key, value));
            t.keys != [] && t.keys[|t.keys| - 1] == key && key in t.vals && t.vals[key] == Some(value)
              && t.limit == s.limit
  {
  }

  // ---------------------------------------------------------------------------------------

  class LRUCache<K(==), V> {
    const entries: OM.OrderedMap<K, V>
    var limit: int
    /** What the eviction handler has been called with. */
    var evicted: seq<(K, Option<V>)>

    ghost predicate Valid()
      reads this, entries, entries.chain
    {
      entries.Valid() && limit >= 0
    }

    ghost function Contents(): State<K, V>
      reads this, entries
    {
      State(entries.keys, entries.vals, limit, evicted)
    }

    lemma ContentsWellFormed()
      requires Valid()
      ensures WellFormed(Contents())
    {
      OM.MatchDistinct(entries.dict, entries.chain, entries.keys);
    }

    constructor (limit: int)
      ensures Valid() && fresh(entries) && fresh(entries.chain) && Contents() == Run(limit, [])
    {
      entries := new OM.OrderedMap();
      this.limit := if limit < 0 then 0 else limit;
      evicted := [];
    }

    method Size() returns (n: nat)
      requires Valid()
      ensures n == |Contents().keys|
    {
      n := entries.Size();
    }

    method SetLimit(limit: int)
      requires Valid()
      modifies this, entries, entries.chain
      ensures Valid() && fresh(set l | l in entries.chain && l !in old(entries.chain))
      ensures WellFormed(old(Contents())) && Contents() == Step(old(Contents()), Op.SetLimit(limit))
    {
      hide OM.Match, OM.Chain, OM.Labels, OM.Between, Evict, WellFormed;
      ContentsWellFormed();
      this.limit := if limit < 0 then 0 else limit;
      EvictValuesIfNeeded();
    }

    method Get(key: K) returns (value: Option<V>)
      requires Valid()
      modifies this, entries, entries.chain
      ensures Valid() && fresh(set l | l in entries.chain && l !in old(entries.chain))
      ensures value == if key in old(Contents()).keys then old(Contents()).vals[key] else None
      ensures WellFormed(old(Contents())) && Contents() == Step(old(Contents()), Op.Get(key))
    {
      hide Without, OM.Match, OM.Chain, OM.Labels, OM.Between;
      ContentsWellFormed();
      entries.MoveToEnd(key);
      value := entries.Get(key);
    }

    /** Testing for a key counts as touching it. */
    method Has(key: K) returns (found: bool)
      requires Valid()
      modifies this, entries, entries.chain
      ensures Valid() && fresh(set l | l in entries.chain && l !in old(entries.chain))
      ensures found <==> key in old(Contents()).keys
      ensures WellFormed(old(Contents())) && Contents() == Step(old(Contents()), Op.Has(key))
    {
      hide Without, OM.Match, OM.Chain, OM.Labels, OM.Between;
      ContentsWellFormed();
      SameKeys(entries.keys, key);
      entries.MoveToEnd(key);
      found := entries.Has(key);
    }

    method Set(key: K, value: V)
      requires Valid()
      modifies this, entries, entries.chain
      ensures Valid() && fresh(set l | l in entries.chain && l !in old(entries.chain))
      ensures WellFormed(old(Contents())) && Contents() == Step(old(Contents()), Op.Set(key, value))
    {
      hide Without, OM.Match, OM.Chain, OM.Labels, OM.Between, Evict;
      ContentsWellFormed();
      var valueExists := entries.Has(key);
      entries.Set(key, value);
      if valueExists {
        entries.MoveToEnd(key);
      } else {
        EvictValuesIfNeeded();
      }
    }

    method Delete(key: K) returns (found: bool)
      requires Valid()
      modifies this, entries, entries.chain
      ensures Valid() && fresh(set l | l in entries.chain && l !in old(entries.chain))
      ensures found <==> key in old(Contents()).keys
      ensures WellFormed(old(Contents())) && Contents() == Step(old(Contents()), Op.Delete(key))
    {
      hide Without, OM.Match, OM.Chain, OM.Labels, OM.Between;
      ContentsWellFormed();
      found := entries.Delete(key);
    }

    /** The loop that drops entries from the front while there are too many. */
    method EvictValuesIfNeeded()
      requires Valid()
      modifies this`evicted, entries, entries.chain
      ensures Valid() && fresh(set l | l in entries.chain && l !in old(entries.chain))
      ensures WellFormed(old(Contents())) && Contents() == Evict(old(Contents()))
    {
      hide Without, OM.Match, OM.Chain, OM.Labels, OM.Between, Elements, Distinct, Pairs, Evict, Evicting, WellFormed;
      ContentsWellFormed();
      ghost var start := Contents();
      ghost var n: nat := 0;
      EvictNone(start);
      while true
        invariant Valid() && fresh(set l | l in entries.chain && l !in old(entries.chain))
        invariant n <= Excess(start) && WellFormed(start)
        invariant Contents() == Evicting(start, n)
        decreases Excess(start) - n
      {
        EvictingSize(start, n);
        var size := entries.Size();
        if !(limit > 0 && size > limit) {
          break;
        }
        EvictFirst(start, n);
        EvictOne();
        n := n + 1;
      }
      EvictAll(start);
    }

    /** The first entry goes, and the handler is told. */
    method EvictOne()
      requires Valid() && entries.keys != []
      modifies this`evicted, entries, entries.chain
      ensures Valid() && forall l :: l in entries.chain ==> l in old(entries.chain)
      ensures var key := old(entries.keys[0]);
              && key in old(entries.vals) && entries.keys == Without(old(entries.keys), key)
              && entries.vals == old(entries.vals) - {key}
              && evicted == old(evicted) + [(key, old(entries.vals)[key])]
    {
      hide Without, OM.Match, OM.Chain, OM.Labels, OM.Between;
      var key := entries.StartKey();
      FirstFiled();
      var value := entries.Get(key.value);
      evicted := evicted + [(key.value, value)];
      key := entries.StartKey();
      var _ := entries.Delete(key.value);
    }

    lemma FirstFiled()
      requires Valid() && entries.keys != []
      ensures entries.keys[0] in entries.vals
    {
      OM.KeysFiled(entries.dict, entries.chain, entries.keys);
      OM.LabelledKeys(entries.dict, entries.chain, entries.vals);
    }
  }

  lemma SameKeys<K>(keys: seq<K>, key: K)
    ensures key in Touch(keys, key) <==> key in keys
  {
  }

  /** The state after the first `n` entries have gone. */
  ghost function Evicting<K, V>(s: State<K, V>, n: nat): State<K, V>
    requires WellFormed(s) && n <= |s.keys|
  {
    assert forall k :: k in s.keys[..n] ==> k in Elements(s.keys);
    State(s.keys[n..], s.vals - Elements(s.keys[..n]), s.limit, s.evicted + Pairs(s.keys[..n], s.vals))
  }

  lemma EvictingSize<K, V>(s: State<K, V>, n: nat)
    requires WellFormed(s) && n <= |s.keys|
    ensures |Evicting(s, n).keys| == |s.keys| - n && Evicting(s, n).limit == s.limit
  {
  }

  lemma EvictAll<K, V>(s: State<K, V>)
    requires WellFormed(s)
    ensures Excess(s) <= |s.keys| && Evict(s) == Evicting(s, Excess(s))
  {
  }

  lemma EvictNone<K, V>(s: State<K, V>)
    requires WellFormed(s)
    ensures Evicting(s, 0) == s
  {
    assert s.keys[..0] == [];
    assert s.vals - Elements(s.keys[..0]) == s.vals;
  }

  lemma EvictFirst<K, V>(s: State<K, V>, n: nat)
    requires WellFormed(s) && n < |s.keys|
    ensures var t, key := Evicting(s, n), s.keys[n];
            && t.keys[0] == key && key in t.vals
            && Evicting(s, n + 1) ==
               State(Without(t.keys, key), t.vals - {key}, s.limit, t.evicted + [(key, t.vals[key])])
  {
    hide Pairs;
    var key, gone := s.keys[n], s.keys[..n];
    assert s.keys[..n + 1] == gone + [key];
    assert forall k :: k in gone ==> k in Elements(s.keys);
    assert key in Elements(s.keys) && key !in gone;
    PairsMore(gone, s.vals, key);
    LeftVals(s.vals, gone, key);
    assert s.keys[n..][1..] == s.keys[n + 1..];
  }

  lemma LeftVals<K, V>(vals: map<K, Option<V>>, gone: seq<K>, key: K)
    ensures vals - Elements(gone + [key]) == vals - Elements(gone) - {key}
    ensures key in vals && key !in gone ==> key in vals - Elements(gone)
  {
    ElementsJoin(gone, [key]);
  }

  lemma {:induction false} PairsMore<K, V>(keys: seq<K>, vals: map<K, Option<V>>, key: K)
    requires key in vals && forall k :: k in keys ==> k in vals
    ensures Pairs(keys + [key], vals) == Pairs(keys, vals) + [(key, vals[key])]
  {
    if keys == [] {
      assert keys + [key] == [key];
      assert [key][1..] == [];
    } else {
      assert (keys + [key])[1..] == keys[1..] + [key];
      PairsMore(keys[1..], vals, key);
    }
  }
}
