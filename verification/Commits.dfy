/** Commits, and the order in which they are preferred. */
module Commits {
  import opened Wrappers
  import opened Texts

  type Id = Text

  /** A record: the fields its scheme declares, each with its type, and the values it holds. */
  datatype Scheme = Scheme(namespace: Text, version: nat, fields: map<Text, Text>)

  datatype Record = Record(scheme: Scheme, data: map<Text, Text>)

  datatype Edit = Edit(changes: map<Text, seq<Text>>, srcChecksum: Text, dstChecksum: Text)

  /** Either a whole record, or an edit on top of another commit's record. */
  datatype Contents = Full(record: Record) | Delta(base: Id, edit: Edit)

  datatype Commit = Commit(
    id: Id, session: Id, connection: Id, key: Option<Text>, contents: Contents, parents: seq<Id>, timestamp: int,
    orgId: Option<Text>)

  /** Every commit is filed under its own id. */
  ghost predicate ById(store: map<Id, Commit>)
  {
    forall id :: id in store ==> store[id].id == id
  }

  /** `a < b`, comparing code units. */
  predicate Below(a: Text, b: Text)
  {
    b != [] && (a == [] || a[0] < b[0] || (a[0] == b[0] && Below(a[1..], b[1..])))
  }

  function CompareStrings(a: Text, b: Text): int
  {
    if a == b then 0 else if Below(b, a) then 1 else -1
  }

  function CompareCommitsAsc(c1: Commit, c2: Commit): int
  {
    var dt := c1.timestamp - c2.timestamp;
    if dt == 0 then CompareStrings(c1.id, c2.id) else dt
  }

  function CompareCommitsDesc(c1: Commit, c2: Commit): int
  {
    CompareCommitsAsc(c1, c2) * -1
  }

  /** `c1` comes before `c2` in newest-first order. */
  predicate Newer(c1: Commit, c2: Commit)
  {
    CompareCommitsDesc(c1, c2) < 0
  }

  lemma {:induction false} BelowOneWay(a: Text, b: Text)
    ensures a != b ==> (Below(a, b) <==> !Below(b, a))
    ensures a == b ==> !Below(a, b)
  {
    if a != [] && b != [] && a[0] == b[0] {
      BelowOneWay(a[1..], b[1..]);
      assert a == [a[0]] + a[1..] && b == [b[0]] + b[1..];
    }
  }

  lemma {:induction false} BelowTransitive(a: Text, b: Text, c: Text)
    requires Below(a, b) && Below(b, c)
    ensures Below(a, c)
  {
    if a != [] && a[0] == b[0] && b[0] == c[0] {
      BelowTransitive(a[1..], b[1..], c[1..]);
    }
  }

  /** `b` is a proper prefix of `a`, or the two first differ in a unit that is larger in `a`. */
  ghost predicate Above(a: Text, b: Text)
  {
    exists i {:trigger b[..i]} :: 0 <= i <= |a| && i <= |b| && a[..i] == b[..i] &&
      (if i == |b| then i < |a| else i < |a| && a[i] > b[i])
  }

  lemma AboveAt(a: Text, b: Text, i: nat)
    requires i <= |a| && i <= |b| && a[..i] == b[..i] && (if i == |b| then i < |a| else i < |a| && a[i] > b[i])
    ensures Above(a, b)
  {
  }

  lemma {:induction false} BelowIsAbove(a: Text, b: Text)
    ensures Below(b, a) <==> Above(a, b)
  {
    if a == [] || b == [] || a[0] != b[0] {
      if Below(b, a) {
        AboveAt(a, b, 0);
      }
      if Above(a, b) {
        var i: nat :| i <= |a| && i <= |b| && a[..i] == b[..i]
                      && (if i == |b| then i < |a| else i < |a| && a[i] > b[i]);
        assert i > 0 ==> a[..i][0] == b[..i][0];
      }
    } else {
      BelowIsAbove(a[1..], b[1..]);
      AboveTail(a, b);
    }
  }

  lemma AboveTail(a: Text, b: Text)
    requires a != [] && b != [] && a[0] == b[0]
    ensures Above(a, b) <==> Above(a[1..], b[1..])
  {
    if Above(a, b) {
      var i: nat :| i <= |a| && i <= |b| && a[..i] == b[..i] && (if i == |b| then i < |a| else i < |a| && a[i] > b[i]);
      assert i > 0;
      assert a[1..][..i - 1] == a[..i][1..] && b[1..][..i - 1] == b[..i][1..];
      AboveAt(a[1..], b[1..], i - 1);
    }
    if Above(a[1..], b[1..]) {
      var a', b' := a[1..], b[1..];
      var i: nat :| i <= |a'| && i <= |b'| && a'[..i] == b'[..i]
                    && (if i == |b'| then i < |a'| else i < |a'| && a'[i] > b'[i]);
      assert a[..i + 1] == [a[0]] + a'[..i] && b[..i + 1] == [b[0]] + b'[..i];
      AboveAt(a, b, i + 1);
    }
  }

  /** Newest first is later first; at one time the larger id comes first. */
  lemma NewerMeans(c1: Commit, c2: Commit)
    ensures Newer(c1, c2) <==>
            c1.timestamp > c2.timestamp || (c1.timestamp == c2.timestamp && Above(c1.id, c2.id))
  {
    BelowIsAbove(c1.id, c2.id);
    BelowOneWay(c1.id, c2.id);
  }

  /** Commits with different ids are never tied. */
  lemma NewerTotal(c1: Commit, c2: Commit)
    ensures c1.id != c2.id ==> (Newer(c1, c2) <==> !Newer(c2, c1))
    ensures c1 == c2 ==> !Newer(c1, c2)
  {
    BelowOneWay(c1.id, c2.id);
  }

  lemma NewerTransitive(c1: Commit, c2: Commit, c3: Commit)
    requires Newer(c1, c2) && Newer(c2, c3)
    ensures Newer(c1, c3)
  {
    BelowOneWay(c1.id, c2.id);
    BelowOneWay(c2.id, c3.id);
    BelowOneWay(c1.id, c3.id);
    if Below(c3.id, c2.id) && Below(c2.id, c1.id) {
      BelowTransitive(c3.id, c2.id, c1.id);
    }
  }

  ghost predicate NewestFirst(s: seq<Commit>)
  {
    forall i, j :: 0 <= i < j < |s| ==> Newer(s[i], s[j])
  }

  function Insert(c: Commit, s: seq<Commit>): seq<Commit>
  {
    if s == [] || Newer(c, s[0]) then [c] + s else [s[0]] + Insert(c, s[1..])
  }

  lemma {:induction false} InsertKeeps(c: Commit, s: seq<Commit>)
    ensures forall x :: x in Insert(c, s) <==> x == c || x in s
  {
    if s != [] && !Newer(c, s[0]) {
      InsertKeeps(c, s[1..]);
      assert s == [s[0]] + s[1..];
    }
  }

  lemma {:induction false} InsertSorted(c: Commit, s: seq<Commit>)
    requires NewestFirst(s) && forall x :: x in s ==> x.id != c.id
    ensures NewestFirst(Insert(c, s))
  {
    hide Newer;
    if s == [] {
    } else if Newer(c, s[0]) {
      forall i | 0 <= i < |s| ensures Newer(c, s[i]) {
        if i > 0 { NewerTransitive(c, s[0], s[i]); }
      }
    } else {
      InsertSorted(c, s[1..]);
      InsertKeeps(c, s[1..]);
      NewerTotal(c, s[0]);
      var t := Insert(c, s[1..]);
      forall i | 0 <= i < |t| ensures Newer(s[0], t[i]) {
        assert t[i] in t;
      }
    }
  }

  /** Nothing is newer than what stands before it; commits with one id and one time may stand in any order. */
  ghost predicate NoneNewerBehind(s: seq<Commit>)
  {
    forall i, j :: 0 <= i < j < |s| ==> !Newer(s[j], s[i])
  }

  lemma {:induction false} InsertOrdered(c: Commit, s: seq<Commit>)
    requires NoneNewerBehind(s)
    ensures NoneNewerBehind(Insert(c, s))
  {
    hide Newer;
    if s == [] {
    } else if Newer(c, s[0]) {
      forall i | 0 <= i < |s| ensures !Newer(s[i], c) {
        NewerTotal(s[0], s[0]);
        NotBefore(s[i], c, s[0]);
      }
    } else {
      InsertOrdered(c, s[1..]);
      InsertKeeps(c, s[1..]);
      var t := Insert(c, s[1..]);
      forall i | 0 <= i < |t| ensures !Newer(t[i], s[0]) {
        assert t[i] in t;
      }
    }
  }

  lemma NotBefore(c1: Commit, c2: Commit, c3: Commit)
    requires Newer(c2, c3) && !Newer(c1, c3)
    ensures !Newer(c1, c2)
  {
    hide Newer;
    if Newer(c1, c2) {
      NewerTransitive(c1, c2, c3);
    }
  }

  /** The stored commits with the given ids, newest first: `Array.from(ids).map(...).sort(compareCommitsDesc)`. */
  method Prioritize(store: map<Id, Commit>, ids: set<Id>) returns (s: seq<Commit>)
    requires ById(store)
    ensures NewestFirst(s)
    ensures forall i, j :: 0 <= i < j < |s| ==> s[i].timestamp >= s[j].timestamp
    ensures forall c :: c in s <==> c.id in ids && c.id in store && store[c.id] == c
  {
    hide NewestFirst;
    s := [];
    Nothing();
    var todo := ids;
    while todo != {}
      invariant todo <= ids
      invariant NewestFirst(s)
      invariant forall c :: c in s <==> c.id in ids - todo && c.id in store && store[c.id] == c
    {
      var id :| id in todo;
      todo := todo - {id};
      if id in store {
        InsertKeeps(store[id], s);
        InsertSorted(store[id], s);
        s := Insert(store[id], s);
      }
    }
    LatestFirst(s);
  }

  lemma LatestFirst(s: seq<Commit>)
    requires NewestFirst(s)
    ensures forall i, j :: 0 <= i < j < |s| ==> s[i].timestamp >= s[j].timestamp
  {
    hide Newer;
    forall i, j | 0 <= i < j < |s| ensures s[i].timestamp >= s[j].timestamp {
      NewerMeans(s[i], s[j]);
    }
  }

  lemma Nothing()
    ensures NewestFirst([])
  {
  }
}
