/** A dictionary glued to a doubly linked list of its entries. */
module OrderedMap {
  import opened Wrappers
  import opened Sequences

  class Link<K, V> {
    var next: Link?<K, V>
    var prev: Link?<K, V>
    var key: Option<K>
    var value: Option<V>

    constructor ()
      ensures next == null && prev == null && key == None && value == None
    {
      next, prev, key, value := null, null, None, None;
    }

    /** What `_validateLinks` asserts. */
    predicate Linked()
      reads this, next, prev
    {
      (next != null ==> next.prev == this) && (prev != null ==> prev.next == this)
    }

    /** Takes this link, the `i`-th of `chain`, out of it. */
    method Detach(ghost chain: seq<Link<K, V>>, ghost i: nat)
      requires Chain(chain) && i < |chain| && chain[i] == this
      modifies (set l | l in chain)`next, (set l | l in chain)`prev
      ensures Chain(Dropped(chain, i))
      ensures next == null && prev == null
    {
      assert Linked();
      hide Dropped;
      ghost var rest := Dropped(chain, i);
      LeftOverLinks(chain, i);
      if next != null {
        next.prev := prev;
      }
      if prev != null {
        prev.next := next;
      }
      next := null;
      prev := null;
    }

    /** Takes `link` from where it is and places it before this link, the `k`-th of what is left of `chain`. */
    method InsertBefore(link: Link<K, V>, ghost chain: seq<Link<K, V>>, ghost k: nat)
      requires link != this && Movable(chain, link)
      requires k < |Rest(chain, link)| && Rest(chain, link)[k] == this
      modifies ({link} + set l | l in chain)`next, ({link} + set l | l in chain)`prev
      ensures Chain(Spliced(Rest(chain, link), k, link))
    {
      hide Rest, Spliced;
      assert link != this;
      ghost var rest := Rest(chain, link);
      RestInside(chain, link);
      DetachFrom(link, chain);
      link.next := this;
      link.prev := prev;
      if prev != null {
        prev.next := link;
      }
      prev := link;
      assert Linked();
      assert link.Linked();
      assert link.next.Linked();
      SplicedChain(rest, k, link);
    }

    method InsertAfter(link: Link<K, V>, ghost chain: seq<Link<K, V>>, ghost k: nat)
      requires link != this && Movable(chain, link)
      requires k < |Rest(chain, link)| && Rest(chain, link)[k] == this
      modifies ({link} + set l | l in chain)`next, ({link} + set l | l in chain)`prev
      ensures Chain(Spliced(Rest(chain, link), k + 1, link))
    {
      hide Rest, Spliced;
      assert link != this;
      ghost var rest := Rest(chain, link);
      RestInside(chain, link);
      DetachFrom(link, chain);
      link.prev := this;
      link.next := next;
      if next != null {
        next.prev := link;
      }
      next := link;
      assert Linked();
      assert link.Linked();
      assert link.prev.Linked();
      SplicedChain(rest, k + 1, link);
    }
  }

  ghost function Dropped<T>(s: seq<T>, i: nat): seq<T>
    requires i < |s|
  {
    s[..i] + s[i + 1..]
  }

  lemma LeftOver<T>(s: seq<T>, i: nat)
    requires i < |s|
    ensures |Dropped(s, i)| == |s| - 1
    ensures forall j {:trigger Dropped(s, i)[j]} ::
            0 <= j < |s| - 1 ==> Dropped(s, i)[j] == s[if j < i then j else j + 1]
  {
  }

  /** What is left of a chain, but for its links to the one taken out. */
  lemma LeftOverLinks<K, V>(chain: seq<Link<K, V>>, i: nat)
    requires Chain(chain) && i < |chain|
    ensures var rest := Dropped(chain, i);
            && |rest| == |chain| - 1 && chain[i] !in rest && (forall l :: l in rest ==> l in chain)
            && (forall j, k :: 0 <= j < k < |rest| ==> rest[j] != rest[k])
            && chain[i].next == At(rest, i) && chain[i].prev == At(rest, i - 1)
            && (forall j {:trigger rest[j].next} :: 0 <= j < |rest| ==>
                  rest[j].next == if j == i - 1 then chain[i] else At(rest, j + 1))
            && (forall j {:trigger rest[j].prev} :: 0 <= j < |rest| ==>
                  rest[j].prev == if j == i then chain[i] else At(rest, j - 1))
  {
    LeftOver(chain, i);
  }

  /** `link.detach()`, for a link that is in the chain or on its own. */
  method DetachFrom<K, V>(link: Link<K, V>, ghost chain: seq<Link<K, V>>)
    requires Movable(chain, link)
    modifies ({link} + set l | l in chain)`next, ({link} + set l | l in chain)`prev
    ensures Chain(Rest(chain, link)) && link !in Rest(chain, link)
    ensures link.next == null && link.prev == null
  {
    ghost var own := if link in chain then chain else [link];
    link.Detach(own, IndexIn(own, link));
  }

  lemma RestInside<K, V>(chain: seq<Link<K, V>>, link: Link<K, V>)
    ensures forall l :: l in Rest(chain, link) ==> l in chain
  {
  }

  ghost function Spliced<T>(s: seq<T>, k: nat, x: T): seq<T>
    requires k <= |s|
  {
    s[..k] + [x] + s[k..]
  }

  lemma SplicedAt<T>(s: seq<T>, k: nat, x: T)
    requires k <= |s|
    ensures |Spliced(s, k, x)| == |s| + 1
    ensures forall i {:trigger Spliced(s, k, x)[i]} :: 0 <= i <= |s| ==>
              Spliced(s, k, x)[i] == if i < k then s[i] else if i == k then x else s[i - 1]
  {
  }

  /** A link placed between two neighbours of a chain, both of which know it. */
  lemma SplicedChain<K, V>(rest: seq<Link<K, V>>, k: nat, link: Link<K, V>)
    requires k <= |rest| && link !in rest && forall i, j :: 0 <= i < j < |rest| ==> rest[i] != rest[j]
    requires link.next == At(rest, k) && link.prev == At(rest, k - 1)
    requires forall i {:trigger rest[i].next} :: 0 <= i < |rest| ==>
               rest[i].next == if i == k - 1 then link else At(rest, i + 1)
    requires forall i {:trigger rest[i].prev} :: 0 <= i < |rest| ==>
               rest[i].prev == if i == k then link else At(rest, i - 1)
    ensures Chain(Spliced(rest, k, link))
  {
    hide Spliced;
    SplicedAt(rest, k, link);
  }

  /** `link` is in the chain or on its own. */
  ghost predicate Movable<K, V>(chain: seq<Link<K, V>>, link: Link<K, V>)
    reads chain, link
  {
    Chain(chain) && (link !in chain ==> Chain([link]))
  }

  ghost function Rest<L>(chain: seq<L>, link: L): seq<L>
  {
    if link in chain then Dropped(chain, IndexIn(chain, link)) else chain
  }

  /** The links of `c` are distinct and mutually consistent from first to last. */
  ghost predicate Chain<K, V>(c: seq<Link<K, V>>)
    reads (set l | l in c)`next, (set l | l in c)`prev
  {
    && (forall i, j :: 0 <= i < j < |c| ==> c[i] != c[j])
    && (forall i {:trigger c[i].next} :: 0 <= i < |c| ==> c[i].next == At(c, i + 1))
    && (forall i {:trigger c[i].prev} :: 0 <= i < |c| ==> c[i].prev == At(c, i - 1))
  }

  ghost function At<K, V>(c: seq<Link<K, V>>, i: int): Link?<K, V>
  {
    if 0 <= i < |c| then c[i] else null
  }

  // ---------------------------------------------------------------------------------------

  /** The dictionary files exactly `keys`, each under its link; the first and last links are sentinels. */
  ghost predicate Match<K, L>(dict: map<K, L>, chain: seq<L>, keys: seq<K>)
  {
    |chain| == |keys| + 2 && |dict| == |keys| && Distinct(chain) && dict.Keys == Elements(keys)
      && Files(dict, chain, keys)
  }

  ghost predicate Files<K, L>(dict: map<K, L>, chain: seq<L>, keys: seq<K>)
    requires |chain| == |keys| + 2
  {
    forall i {:trigger keys[i]} :: 0 <= i < |keys| ==> keys[i] in dict && dict[keys[i]] == chain[i + 1]
  }

  lemma MatchDistinct<K, L>(dict: map<K, L>, chain: seq<L>, keys: seq<K>)
    requires Match(dict, chain, keys)
    ensures Distinct(keys)
  {
    forall i, j | 0 <= i < j < |keys| ensures keys[i] != keys[j] {
      assert chain[i + 1] != chain[j + 1];
    }
  }

  lemma Cut<L>(chain: seq<L>, i: nat)
    requires i < |chain| && Distinct(chain)
    ensures Distinct(chain[..i] + chain[i + 1..]) && chain[i] !in chain[..i] + chain[i + 1..]
  {
  }

  lemma FilesCut<K, L>(dict: map<K, L>, chain: seq<L>, keys: seq<K>, i: nat)
    requires |chain| == |keys| + 2 && Files(dict, chain, keys) && i < |keys| && Distinct(keys)
    ensures Files(dict - {keys[i]}, chain[..i + 1] + chain[i + 2..], keys[..i] + keys[i + 1..])
  {
    var rest, left := chain[..i + 1] + chain[i + 2..], keys[..i] + keys[i + 1..];
    forall j | 0 <= j < |left| ensures left[j] in dict && left[j] != keys[i] && dict[left[j]] == rest[j + 1] {
      if j < i {
        assert left[j] == keys[j];
      } else {
        assert left[j] == keys[j + 1];
      }
    }
  }

  lemma MatchRemoved<K, L>(dict: map<K, L>, chain: seq<L>, keys: seq<K>, i: nat)
    requires Match(dict, chain, keys) && i < |keys|
    ensures Match(dict - {keys[i]}, chain[..i + 1] + chain[i + 2..], Without(keys, keys[i]))
    ensures chain[i + 1] !in chain[..i + 1] + chain[i + 2..]
  {
    MatchDistinct(dict, chain, keys);
    hide Files, Distinct;
    WithoutAt(keys, i);
    FilesCut(dict, chain, keys, i);
    Cut(chain, i + 1);
    ElementsCut(keys, i);
    Fewer(dict, keys[i]);
  }

  lemma Fewer<K, L>(dict: map<K, L>, key: K)
    requires key in dict
    ensures |dict - {key}| == |dict| - 1 && (dict - {key}).Keys == dict.Keys - {key}
  {
    assert (dict - {key}).Keys == dict.Keys - {key};
  }

  lemma Insertion<L>(chain: seq<L>, k: nat, link: L)
    requires k <= |chain| && Distinct(chain) && link !in chain
    ensures Distinct(Spliced(chain, k, link)) && |Spliced(chain, k, link)| == |chain| + 1
  {
    hide Spliced;
    SplicedAt(chain, k, link);
  }

  lemma MatchAppended<K, L>(dict: map<K, L>, chain: seq<L>, keys: seq<K>, key: K, link: L)
    requires Match(dict, chain, keys) && key !in dict && link !in chain
    ensures Match(dict[key := link], Spliced(chain, |chain| - 1, link), keys + [key])
  {
    hide Spliced, Distinct;
    SplicedAt(chain, |chain| - 1, link);
    Insertion(chain, |chain| - 1, link);
    ElementsJoin(keys, [key]);
    assert dict[key := link].Keys == dict.Keys + {key};
  }

  lemma MatchPrepended<K, L>(dict: map<K, L>, chain: seq<L>, keys: seq<K>, key: K, link: L)
    requires Match(dict, chain, keys) && key !in dict && link !in chain
    ensures Match(dict[key := link], Spliced(chain, 1, link), [key] + keys)
  {
    hide Spliced, Distinct, Files, Elements;
    assert |[key] + keys| == |keys| + 1;
    SplicedAt(chain, 1, link);
    Insertion(chain, 1, link);
    FilesPrepended(dict, chain, keys, key, link);
    ElementsJoin([key], keys);
    OneElement(key);
    assert dict[key := link].Keys == dict.Keys + {key};
  }

  lemma FilesPrepended<K, L>(dict: map<K, L>, chain: seq<L>, keys: seq<K>, key: K, link: L)
    requires |chain| == |keys| + 2 && Files(dict, chain, keys) && key !in dict
    ensures |Spliced(chain, 1, link)| == |chain| + 1
    ensures Files(dict[key := link], Spliced(chain, 1, link), [key] + keys)
  {
    hide Spliced;
    SplicedAt(chain, 1, link);
    forall i {:trigger ([key] + keys)[i]} | 0 <= i < |keys| + 1
      ensures ([key] + keys)[i] in dict[key := link]
      ensures dict[key := link][([key] + keys)[i]] == Spliced(chain, 1, link)[i + 1]
    {
      assert i > 0 ==> ([key] + keys)[i] == keys[i - 1];
    }
  }

  lemma OneElement<K>(key: K)
    ensures Elements([key]) == {key}
  {
  }

  // ---------------------------------------------------------------------------------------

  ghost predicate Between<L>(chain: seq<L>, head: L, tail: L)
  {
    |chain| > 1 && chain[0] == head && chain[|chain| - 1] == tail
  }

  /** Every link carries the key it is filed under, and its value. */
  ghost predicate Labels<K, V>(dict: map<K, Link<K, V>>, chain: seq<Link<K, V>>, vals: map<K, Option<V>>)
    reads (set l | l in chain)`key, (set l | l in chain)`value
  {
    && vals.Keys == dict.Keys
    && forall k {:trigger dict[k]} ::
         k in dict ==> dict[k] in chain && dict[k].key == Some(k) && dict[k].value == vals[k]
  }

  /** Writing the value of one link leaves the others and the chain alone. */
  method SetLabel<K, V>(link: Link<K, V>, key: K, value: V, ghost chain: seq<Link<K, V>>,
                        ghost dict: map<K, Link<K, V>>, ghost vals: map<K, Option<V>>)
    requires link in chain && key in dict && dict[key] == link && Labels(dict, chain, vals)
    modifies link`value
    ensures Labels(dict, chain, vals[key := Some(value)])
  {
    OneKeyPerLink(dict, chain, vals);
    link.value := Some(value);
  }

  /** Detaching a link leaves keys and values alone. */
  method DetachLabelled<K, V>(link: Link<K, V>, ghost chain: seq<Link<K, V>>, ghost dict: map<K, Link<K, V>>,
                              ghost vals: map<K, Option<V>>)
    requires link in chain && Chain(chain) && Labels(dict, chain, vals)
    modifies (set l | l in chain)`next, (set l | l in chain)`prev
    ensures Chain(Rest(chain, link)) && Labels(dict, chain, vals)
  {
    hide Chain;
    DetachFrom(link, chain);
  }

  lemma LabelsAdded<K, V>(dict: map<K, Link<K, V>>, chain: seq<Link<K, V>>, vals: map<K, Option<V>>, key: K,
                          link: Link<K, V>, chain': seq<Link<K, V>>)
    requires Labels(dict, chain, vals) && link.key == Some(key) && link.value == None
    requires link in chain' && forall l :: l in chain ==> l in chain'
    ensures Labels(dict[key := link], chain', vals[key := None])
  {
  }

  lemma Appended<K, L>(dict: map<K, L>, chain: seq<L>, keys: seq<K>, head: L, tail: L, key: K, link: L)
    requires Match(dict, chain, keys) && Between(chain, head, tail) && key !in keys && link !in chain
    ensures |chain| > 1 && chain[|chain| - 1] == tail && tail in chain
    ensures var chain' := Spliced(chain, |chain| - 1, link);
            && Match(dict[key := link], chain', keys + [key]) && Between(chain', head, tail)
            && link in chain'
            && forall l {:trigger l in chain'} {:trigger l in chain} :: l in chain' <==> l == link || l in chain
  {
    hide Spliced, Match;
    KeysFiled(dict, chain, keys);
    MatchAppended(dict, chain, keys, key, link);
    SplicedAt(chain, |chain| - 1, link);
    SplicedHolds(chain, |chain| - 1, link);
  }

  lemma FindLink<K, L>(dict: map<K, L>, chain: seq<L>, keys: seq<K>, head: L, tail: L, key: K) returns (i: nat)
    requires Match(dict, chain, keys) && Between(chain, head, tail) && key in keys
    ensures i < |keys| && keys[i] == key && |chain| == |keys| + 2 && chain[i + 1] == dict[key]
            && IndexIn(chain, dict[key]) == i + 1
    ensures dict[key] != head && dict[key] != tail
  {
    i := IndexIn(keys, key);
    var j := IndexIn(chain, dict[key]);
  }

  lemma BetweenRemoved<L>(chain: seq<L>, i: nat, head: L, tail: L)
    requires Between(chain, head, tail) && 0 < i < |chain| - 1
    ensures Between(chain[..i] + chain[i + 1..], head, tail)
  {
  }

  lemma RemovedKey<K, L>(dict: map<K, L>, chain: seq<L>, keys: seq<K>, i: nat)
    requires Match(dict, chain, keys) && i < |keys|
    ensures keys[i] !in Without(keys, keys[i])
  {
    MatchDistinct(dict, chain, keys);
    WithoutAt(keys, i);
  }

  lemma RemovedElements<L>(chain: seq<L>, i: nat, chain': seq<L>)
    requires i < |chain|
    requires var rest := chain[..i] + chain[i + 1..];
             forall l {:trigger l in chain'} :: l in chain' <==> l == chain[i] || l in rest
    ensures Elements(chain') == Elements(chain)
  {
    assert chain == chain[..i] + [chain[i]] + chain[i + 1..];
  }

  lemma MovedToEnd<K, L>(dict: map<K, L>, chain: seq<L>, keys: seq<K>, head: L, tail: L, key: K)
    requires Match(dict, chain, keys) && Between(chain, head, tail) && key in keys && key in dict
    ensures var link := dict[key]; var rest := Rest(chain, link);
            && link in chain && tail in chain && link != tail && |rest| > 1 && rest[|rest| - 1] == tail
            && Match(dict, Spliced(rest, |rest| - 1, link), Without(keys, key) + [key])
            && Between(Spliced(rest, |rest| - 1, link), head, tail)
            && Elements(Spliced(rest, |rest| - 1, link)) == Elements(chain)
  {
    hide Match, Spliced;
    var i := FindLink(dict, chain, keys, head, tail, key);
    var link, rest := dict[key], chain[..i + 1] + chain[i + 2..];
    assert rest == Rest(chain, link);
    MatchRemoved(dict, chain, keys, i);
    BetweenRemoved(chain, i + 1, head, tail);
    RemovedKey(dict, chain, keys, i);
    Appended(dict - {key}, rest, Without(keys, key), head, tail, key, link);
    assert (dict - {key})[key := link] == dict;
    RemovedElements(chain, i + 1, Spliced(rest, |rest| - 1, link));
  }

  lemma MovedToStart<K, L>(dict: map<K, L>, chain: seq<L>, keys: seq<K>, head: L, tail: L, key: K)
    requires Match(dict, chain, keys) && Between(chain, head, tail) && key in keys && key in dict
    ensures var link := dict[key]; var rest := Rest(chain, link);
            && link in chain && head in chain && link != head && |rest| > 1 && rest[0] == head
            && Match(dict, Spliced(rest, 1, link), [key] + Without(keys, key))
            && Between(Spliced(rest, 1, link), head, tail)
            && Elements(Spliced(rest, 1, link)) == Elements(chain)
  {
    hide Match, Spliced;
    var i := FindLink(dict, chain, keys, head, tail, key);
    var link, rest := dict[key], chain[..i + 1] + chain[i + 2..];
    assert rest == Rest(chain, link);
    MatchRemoved(dict, chain, keys, i);
    BetweenRemoved(chain, i + 1, head, tail);
    MatchPrepended(dict - {key}, rest, Without(keys, key), key, link);
    assert (dict - {key})[key := link] == dict;
    SplicedAt(rest, 1, link);
    SplicedHolds(rest, 1, link);
    RemovedElements(chain, i + 1, Spliced(rest, 1, link));
  }

  lemma Removed<K, L>(dict: map<K, L>, chain: seq<L>, keys: seq<K>, head: L, tail: L, key: K)
    requires Match(dict, chain, keys) && Between(chain, head, tail) && key in keys && key in dict
    ensures var link := dict[key]; var rest := Rest(chain, link);
            && link in chain && link != head && link != tail
            && Match(dict - {key}, rest, Without(keys, key)) && Between(rest, head, tail)
            && Elements(rest) == Elements(chain) - {link}
  {
    var i := FindLink(dict, chain, keys, head, tail, key);
    MatchRemoved(dict, chain, keys, i);
    BetweenRemoved(chain, i + 1, head, tail);
    ElementsCut(chain, i + 1);
  }

  lemma LabelledKeys<K, V>(dict: map<K, Link<K, V>>, chain: seq<Link<K, V>>, vals: map<K, Option<V>>)
    requires Labels(dict, chain, vals)
    ensures vals.Keys == dict.Keys
    ensures forall key :: key !in dict ==> vals - {key} == vals
  {
  }

  lemma LabelledLink<K, V>(dict: map<K, Link<K, V>>, chain: seq<Link<K, V>>, vals: map<K, Option<V>>, key: K)
    requires Labels(dict, chain, vals) && key in dict
    ensures dict[key] in chain && dict[key].key == Some(key)
  {
  }

  lemma LabelsRemoved<K, V>(dict: map<K, Link<K, V>>, chain: seq<Link<K, V>>, vals: map<K, Option<V>>, key: K,
                            chain': seq<Link<K, V>>)
    requires Labels(dict, chain, vals) && key in dict && Elements(chain') == Elements(chain) - {dict[key]}
    ensures Labels(dict - {key}, chain', vals - {key})
  {
    OneKeyPerLink(dict, chain, vals);
    forall k | k in dict - {key} ensures dict[k] in chain' {
      assert dict[k] in Elements(chain');
    }
  }

  lemma OneKeyPerLink<K, V>(dict: map<K, Link<K, V>>, chain: seq<Link<K, V>>, vals: map<K, Option<V>>)
    requires Labels(dict, chain, vals)
    ensures forall j, k :: j in dict && k in dict && j != k ==> dict[j] != dict[k]
  {
  }

  lemma LabelsReordered<K, V>(dict: map<K, Link<K, V>>, chain: seq<Link<K, V>>, chain': seq<Link<K, V>>,
                              vals: map<K, Option<V>>)
    requires Labels(dict, chain, vals) && Elements(chain') >= Elements(chain)
    ensures Labels(dict, chain', vals)
  {
    forall k | k in dict ensures dict[k] in chain' {
      assert dict[k] in Elements(chain);
    }
  }

  lemma SplicedHolds<L>(chain: seq<L>, k: nat, link: L)
    requires k <= |chain|
    ensures link in Spliced(chain, k, link) && forall l :: l in chain ==> l in Spliced(chain, k, link)
    ensures forall l :: l in Spliced(chain, k, link) ==> l == link || l in chain
  {
    assert Spliced(chain, k, link)[k] == link;
    assert chain == chain[..k] + chain[k..];
  }

  class OrderedMap<K(==), V> {
    var dict: map<K, Link<K, V>>
    const head: Link<K, V>
    const tail: Link<K, V>
    var mutationsCount: nat
    /** The sentinels and the links between them, from head to tail. */
    ghost var chain: seq<Link<K, V>>
    /** What the map means: its keys in order, and their values (`None` for undefined). */
    ghost var keys: seq<K>
    ghost var vals: map<K, Option<V>>

    ghost predicate Valid()
      reads this, chain
    {
      && Chain(chain)
      && Match(dict, chain, keys)
      && Between(chain, head, tail)
      && head.key == None && tail.key == None
      && Labels(dict, chain, vals)
    }

    constructor ()
      ensures Valid() && fresh(chain) && keys == [] && vals == map[]
    {
      head := new Link();
      tail := new Link();
      dict, mutationsCount := map[], 0;
      keys, vals := [], map[];
      new;
      head.next := tail;
      tail.prev := head;
      chain := [head, tail];
    }

    method Size() returns (n: nat)
      requires Valid()
      ensures n == |keys|
    {
      n := |dict|;
    }

    method StartKey() returns (key: Option<K>)
      requires Valid()
      ensures key == if keys == [] then None else Some(keys[0])
    {
      key := head.next.key;
    }

    method EndKey() returns (key: Option<K>)
      requires Valid()
      ensures key == if keys == [] then None else Some(keys[|keys| - 1])
    {
      key := tail.prev.key;
    }

    method Has(key: K) returns (found: bool)
      requires Valid()
      ensures found <==> key in keys
    {
      found := key in dict;
    }

    method Get(key: K) returns (value: Option<V>)
      requires Valid()
      ensures value == if key in keys then vals[key] else None
    {
      value := if key in dict then dict[key].value else None;
    }

    /** The key after the given one, if any. */
    method Next(key: K) returns (next: Option<K>)
      requires Valid()
      ensures key !in keys ==> next == None
      ensures forall i :: 0 <= i < |keys| && keys[i] == key ==>
                next == if i + 1 < |keys| then Some(keys[i + 1]) else None
    {
      hide Match;
      KeysFiled(dict, chain, keys);
      if key !in dict {
        return None;
      }
      ghost var i := FindLink(dict, chain, keys, head, tail, key);
      LinkedKeys(dict, chain, keys);
      var link := dict[key];
      next := if link.next != tail then link.next.key else None;
    }

    /** The key before the given one, if any. */
    method Prev(key: K) returns (prev: Option<K>)
      requires Valid()
      ensures key !in keys ==> prev == None
      ensures forall i :: 0 <= i < |keys| && keys[i] == key ==> prev == if i > 0 then Some(keys[i - 1]) else None
    {
      hide Match;
      KeysFiled(dict, chain, keys);
      if key !in dict {
        return None;
      }
      ghost var i := FindLink(dict, chain, keys, head, tail, key);
      LinkedKeys(dict, chain, keys);
      var link := dict[key];
      prev := if link.prev != head then link.prev.key else None;
    }

    /** Following the links from the head, as an uninterrupted iterator does, lists every entry once, in order. */
    method Entries() returns (entries: seq<(K, Option<V>)>)
      requires Valid()
      ensures |entries| == |keys|
      ensures forall i :: 0 <= i < |keys| ==> keys[i] in vals && entries[i] == (keys[i], vals[keys[i]])
    {
      hide Match;
      KeysFiled(dict, chain, keys);
      LinkedKeys(dict, chain, keys);
      LabelledKeys(dict, chain, vals);
      entries := [];
      var nextLink := head;
      while nextLink.next != tail
        invariant |entries| <= |keys| && nextLink == chain[|entries|]
        invariant forall i :: 0 <= i < |entries| ==> keys[i] in vals && entries[i] == (keys[i], vals[keys[i]])
        decreases |keys| - |entries|
      {
        var link := nextLink.next;
        nextLink := link;
        entries := entries + [(link.key.value, dict[link.key.value].value)];
      }
    }

    /** How many links follow from `head`, itself included: the `length` that every operation asserts. */
    method Length() returns (count: nat)
      requires Valid()
      ensures count == |dict| + 2
    {
      count := 1;
      var node := head;
      while node.next != null
        invariant 0 < count <= |chain| && node == chain[count - 1]
        decreases |chain| - count
      {
        node := node.next;
        count := count + 1;
      }
    }

    method AddImpl(key: K) returns (link: Link<K, V>)
      requires Valid()
      modifies this, chain
      ensures Valid() && fresh(set l | l in chain && l !in old(chain))
      ensures keys == if key in old(keys) then old(keys) else old(keys) + [key]
      ensures vals == if key in old(keys) then old(vals) else old(vals)[key := None]
      ensures key in dict && link == dict[key] && link in chain
    {
      hide Spliced, Chain, Match, Between, Labels;
      KeysFiled(dict, chain, keys);
      if key in dict {
        LabelledLink(dict, chain, vals, key);
        return dict[key];
      }
      link := new Link();
      link.key := Some(key);
      Append(key, link);
      LabelledLink(dict, chain, vals, key);
      mutationsCount := mutationsCount + 1;
      var length := Length();
      assert length == |dict| + 2;
    }

    /** The new link goes before the tail and into the dictionary. */
    method Append(key: K, link: Link<K, V>)
      requires Valid() && key !in keys && link !in chain
      requires link.key == Some(key) && link.value == None && link.next == null && link.prev == null
      modifies this, chain, link
      ensures Valid()
      ensures keys == old(keys) + [key] && vals == old(vals)[key := None] && dict == old(dict)[key := link]
      ensures forall l :: l in chain ==> l == link || l in old(chain)
    {
      hide Spliced, Rest, Chain, Match, Between;
      Alone(chain, link);
      Appended(dict, chain, keys, head, tail, key, link);
      tail.InsertBefore(link, chain, |chain| - 1);
      assert Labels(dict, chain, vals);
      LabelsAdded(dict, chain, vals, key, link, Spliced(chain, |chain| - 1, link));
      SplicedHolds(chain, |chain| - 1, link);
      chain := Spliced(chain, |chain| - 1, link);
      dict := dict[key := link];
      keys, vals := keys + [key], vals[key := None];
    }

    method Add(key: K)
      requires Valid()
      modifies this, chain
      ensures Valid() && fresh(set l | l in chain && l !in old(chain))
      ensures keys == if key in old(keys) then old(keys) else old(keys) + [key]
      ensures vals == if key in old(keys) then old(vals) else old(vals)[key := None]
    {
      var _ := AddImpl(key);
    }

    method Set(key: K, value: V)
      requires Valid()
      modifies this, chain
      ensures Valid() && fresh(set l | l in chain && l !in old(chain))
      ensures keys == if key in old(keys) then old(keys) else old(keys) + [key]
      ensures vals == old(vals)[key := Some(value)]
    {
      hide Match, Between, Chain, Labels;
      var link := AddImpl(key);
      SetLabel(link, key, value, chain, dict, vals);
      vals := vals[key := Some(value)];
    }

    /** Moves a key to the start; nothing happens to an unknown key. */
    method MoveToStart(key: K)
      requires Valid()
      modifies this, chain
      ensures Valid()
      ensures forall l :: l in chain ==> l in old(chain)
      ensures keys == if key in old(keys) then [key] + Without(old(keys), key) else old(keys)
      ensures vals == old(vals)
    {
      hide Spliced, Rest, Chain, Match, Between, Elements;
      KeysFiled(dict, chain, keys);
      if key !in dict {
        return;
      }
      var link := dict[key];
      MovedToStart(dict, chain, keys, head, tail, key);
      head.InsertAfter(link, chain, 0);
      LabelsReordered(dict, chain, Spliced(Rest(chain, link), 1, link), vals);
      NoNewLinks(Spliced(Rest(chain, link), 1, link), chain);
      chain := Spliced(Rest(chain, link), 1, link);
      keys := [key] + Without(keys, key);
      mutationsCount := mutationsCount + 1;
      var length := Length();
      assert length == |dict| + 2;
    }

    /** Removes a key and its value; nothing happens to an unknown key. */
    method Delete(key: K) returns (found: bool)
      requires Valid()
      modifies this, chain
      ensures Valid()
      ensures forall l :: l in chain ==> l in old(chain)
      ensures found <==> key in old(keys)
      ensures keys == Without(old(keys), key)
      ensures vals == old(vals) - {key}
    {
      hide Rest, Chain, Match, Between, Elements, Labels;
      KeysFiled(dict, chain, keys);
      if key !in dict {
        WithoutNone(keys, key);
        LabelledKeys(dict, chain, vals);
        return false;
      }
      Drop(key, dict[key]);
      mutationsCount := mutationsCount + 1;
      var length := Length();
      assert length == |dict| + 2;
      return true;
    }

    /** The link of a key leaves the list and the dictionary. */
    method Drop(key: K, link: Link<K, V>)
      requires Valid() && key in keys && key in dict && dict[key] == link
      modifies this, chain
      ensures Valid()
      ensures forall l :: l in chain ==> l in old(chain)
      ensures keys == Without(old(keys), key) && vals == old(vals) - {key}
    {
      hide Rest, Chain, Match, Between, Elements, Labels;
      ghost var links, rest := chain, Rest(chain, link);
      Removed(dict, links, keys, head, tail, key);
      DetachLabelled(link, links, dict, vals);
      LabelsRemoved(dict, links, vals, key, rest);
      NoNewLinks(rest, links);
      chain := rest;
      dict := dict - {key};
      keys, vals := Without(keys, key), vals - {key};
    }

    method Clear()
      requires Valid()
      modifies this, chain
      ensures Valid() && keys == [] && vals == map[] && forall l :: l in chain ==> l in old(chain)
    {
      hide Match, Between, Labels;
      NoKeys<K, Link<K, V>>(head, tail);
      ReadsEnds(dict, chain, keys, head, tail);
      dict := map[];
      head.next := tail;
      tail.prev := head;
      chain, keys, vals := [head, tail], [], map[];
      NoLabels(chain);
    }

    /** Moves a key to the end; nothing happens to an unknown key. */
    method MoveToEnd(key: K)
      requires Valid()
      modifies this, chain
      ensures Valid()
      ensures forall l :: l in chain ==> l in old(chain)
      ensures keys == if key in old(keys) then Without(old(keys), key) + [key] else old(keys)
      ensures vals == old(vals)
    {
      hide Spliced, Rest, Chain, Match, Between, Elements;
      KeysFiled(dict, chain, keys);
      if key !in dict {
        return;
      }
      var link := dict[key];
      MovedToEnd(dict, chain, keys, head, tail, key);
      tail.InsertBefore(link, chain, |Rest(chain, link)| - 1);
      LabelsReordered(dict, chain, Spliced(Rest(chain, link), |Rest(chain, link)| - 1, link), vals);
      NoNewLinks(Spliced(Rest(chain, link), |Rest(chain, link)| - 1, link), chain);
      chain := Spliced(Rest(chain, link), |Rest(chain, link)| - 1, link);
      keys := Without(keys, key) + [key];
      mutationsCount := mutationsCount + 1;
      var length := Length();
      assert length == |dict| + 2;
    }
  }

  lemma ReadsEnds<K, L>(dict: map<K, L>, chain: seq<L>, keys: seq<K>, head: L, tail: L)
    requires Match(dict, chain, keys) && Between(chain, head, tail)
    ensures head != tail && head in chain && tail in chain && |chain| > 1 && chain[0] == head
            && chain[|chain| - 1] == tail
  {
  }

  lemma NoKeys<K, L>(head: L, tail: L)
    ensures head != tail ==> Match<K, L>(map[], [head, tail], []) && Between([head, tail], head, tail)
  {
  }

  lemma NoLabels<K, V>(chain: seq<Link<K, V>>)
    ensures Labels(map[], chain, map[])
  {
  }

  lemma NoNewLinks<L>(a: seq<L>, b: seq<L>)
    requires Elements(a) <= Elements(b)
    ensures forall l :: l in a ==> l in b
  {
    forall l | l in a ensures l in b {
      assert l in Elements(a);
    }
  }

  lemma LinkedKeys<K, L>(dict: map<K, L>, chain: seq<L>, keys: seq<K>)
    requires Match(dict, chain, keys)
    ensures forall i {:trigger chain[i]} :: 0 < i <= |keys| ==> keys[i - 1] in dict && dict[keys[i - 1]] == chain[i]
    ensures forall i, j :: 0 <= i < j < |keys| ==> keys[i] != keys[j]
    ensures forall i, j :: 0 <= i < j < |chain| ==> chain[i] != chain[j]
  {
    MatchDistinct(dict, chain, keys);
  }

  lemma KeysFiled<K, L>(dict: map<K, L>, chain: seq<L>, keys: seq<K>)
    requires Match(dict, chain, keys)
    ensures forall k :: k in dict <==> k in keys
    ensures |chain| == |keys| + 2
  {
  }

  lemma Alone<K, V>(chain: seq<Link<K, V>>, link: Link<K, V>)
    requires link !in chain && link.next == null && link.prev == null
    ensures Chain([link]) && Rest(chain, link) == chain
  {
  }
}
