/** Field-wise diff and patch of records; what a single field's type does is left to its operations. */
module Records {
  import opened Wrappers
  import opened Texts
  import opened Commits

  type Data = map<Text, Text>
  type Changes = map<Text, seq<Text>>

  /** The operations of the field types, and the two functions on whole records that come with them. */
  datatype TypeOps = TypeOps(
    added: (Text, Text) -> seq<Text>, removed: (Text, Text) -> seq<Text>, changed: (Text, Text, Text) -> seq<Text>,
    patch: (Text, Option<Text>, seq<Text>) -> Option<Text>,
    normalize: (Scheme, Data) -> Data, checksum: Record -> Text)

  /** A diff is empty only between equal values, and patching with it gives the other value. */
  ghost predicate Lawful(ops: TypeOps)
  {
    && (forall t, v :: ops.added(t, v) != [] && ops.patch(t, None, ops.added(t, v)) == Some(v))
    && (forall t, v :: ops.removed(t, v) != [] && ops.patch(t, Some(v), ops.removed(t, v)) == None)
    && (forall t, v, w ::
          if ops.changed(t, v, w) == [] then v == w else ops.patch(t, Some(v), ops.changed(t, v, w)) == Some(w))
  }

  /** Patching with two lists of changes in a row is patching with their concatenation. */
  ghost predicate Sequential(ops: TypeOps)
  {
    forall t, v, a, b :: ops.patch(t, v, a + b) == ops.patch(t, ops.patch(t, v, a), b)
  }

  function Get(data: Data, field: Text): Option<Text>
  {
    if field in data then Some(data[field]) else None
  }

  function FieldDiff(ops: TypeOps, t: Text, v: Option<Text>, w: Option<Text>): seq<Text>
  {
    match (v, w)
    case (None, None) => []
    case (None, Some(y)) => ops.added(t, y)
    case (Some(x), None) => ops.removed(t, x)
    case (Some(x), Some(y)) => ops.changed(t, x, y)
  }

  /** Only fields with changes are listed. */
  function Diff(ops: TypeOps, fields: map<Text, Text>, from: Data, to: Data): Changes
  {
    map f | f in fields && FieldDiff(ops, fields[f], Get(from, f), Get(to, f)) != [] ::
      FieldDiff(ops, fields[f], Get(from, f), Get(to, f))
  }

  method DiffData(ops: TypeOps, fields: map<Text, Text>, data1: Data, data2: Data) returns (changes: Changes)
    ensures changes == Diff(ops, fields, data1, data2)
  {
    changes := map[];
    var todo := fields.Keys;
    while todo != {}
      invariant todo <= fields.Keys
      invariant forall f :: f in changes <==>
                f in fields && f !in todo && FieldDiff(ops, fields[f], Get(data1, f), Get(data2, f)) != []
      invariant forall f :: f in changes ==> changes[f] == FieldDiff(ops, fields[f], Get(data1, f), Get(data2, f))
    {
      var key :| key in todo;
      todo := todo - {key};
      var value1, value2 := Get(data1, key), Get(data2, key);
      if value1 == None && value2 == None {
        continue;
      }
      var fChanges: seq<Text>;
      if value1 == None {
        fChanges := ops.added(fields[key], value2.value);
      } else if value2 == None {
        fChanges := ops.removed(fields[key], value1.value);
      } else {
        fChanges := ops.changed(fields[key], value1.value, value2.value);
      }
      changes := AddChanges(changes, key, fChanges);
    }
  }

  /** Pushes the changes of one field, one by one; without changes there is no entry. */
  method AddChanges(changes: Changes, field: Text, fChanges: seq<Text>) returns (r: Changes)
    ensures r == if fChanges == [] then changes
            else changes[field := (if field in changes then changes[field] else []) + fChanges]
  {
    r := changes;
    ghost var base := if field in changes then changes[field] else [];
    for i := 0 to |fChanges|
      invariant r == if i == 0 then changes else changes[field := base + fChanges[..i]]
    {
      assert base + fChanges[..i + 1] == base + fChanges[..i] + [fChanges[i]];
      assert i == 0 ==> base + fChanges[..i] == base;
      if field !in r {
        r := r[field := []];
      }
      r := r[field := r[field] + [fChanges[i]]];
    }
    assert fChanges[..|fChanges|] == fChanges;
  }

  function PatchedField(ops: TypeOps, fields: map<Text, Text>, data: Data, changes: Changes, f: Text): Option<Text>
    requires f in changes ==> f in fields
  {
    if f in changes then ops.patch(fields[f], Get(data, f), changes[f]) else Get(data, f)
  }

  function Patch(ops: TypeOps, fields: map<Text, Text>, data: Data, changes: Changes): Data
    requires changes.Keys <= fields.Keys
  {
    map f | f in data.Keys + changes.Keys && PatchedField(ops, fields, data, changes, f).Some? ::
      PatchedField(ops, fields, data, changes, f).value
  }

  /** A field that the scheme does not know has no type operations, which throws. */
  method PatchData(ops: TypeOps, fields: map<Text, Text>, data: Data, changes: Changes) returns (r: Result<Data>)
    ensures r == if changes.Keys <= fields.Keys then Ok(Patch(ops, fields, data, changes)) else Thrown
  {
    var result := data;
    var todo := changes.Keys;
    while todo != {}
      invariant todo <= changes.Keys && changes.Keys - todo <= fields.Keys
      invariant forall f :: Get(result, f) ==
                  if f in todo || f !in changes then Get(data, f) else PatchedField(ops, fields, data, changes, f)
    {
      var field :| field in todo;
      todo := todo - {field};
      if field !in fields {
        return Thrown;
      }
      var newValue := ops.patch(fields[field], Get(result, field), changes[field]);
      if newValue == None {
        result := result - {field};
      } else {
        result := result[field := newValue.value];
      }
    }
    Assembled(ops, fields, data, changes, result);
    return Ok(result);
  }

  lemma Assembled(ops: TypeOps, fields: map<Text, Text>, data: Data, changes: Changes, result: Data)
    requires changes.Keys <= fields.Keys
    requires forall f :: Get(result, f) == PatchedField(ops, fields, data, changes, f)
    ensures result == Patch(ops, fields, data, changes)
  {
    var p := Patch(ops, fields, data, changes);
    forall f ensures Get(p, f) == Get(result, f) {
    }
    SameData(p, result);
  }

  lemma SameData(a: Data, b: Data)
    requires forall f :: Get(a, f) == Get(b, f)
    ensures a == b
  {
    forall f ensures f in a <==> f in b {
      assert Get(a, f) == Get(b, f);
    }
    forall f | f in a ensures a[f] == b[f] {
      assert Get(a, f) == Get(b, f);
    }
  }

  /** A patch, field by field. */
  lemma PatchGet(ops: TypeOps, fields: map<Text, Text>, data: Data, changes: Changes, f: Text)
    requires changes.Keys <= fields.Keys
    ensures Get(Patch(ops, fields, data, changes), f) == PatchedField(ops, fields, data, changes, f)
  {
  }

  /** Patching with a diff gives the record that was compared with. */
  lemma DiffPatch(ops: TypeOps, fields: map<Text, Text>, from: Data, to: Data)
    requires Lawful(ops) && from.Keys <= fields.Keys && to.Keys <= fields.Keys
    ensures Diff(ops, fields, from, to).Keys <= fields.Keys
    ensures Patch(ops, fields, from, Diff(ops, fields, from, to)) == to
  {
    hide Patch;
    var changes := Diff(ops, fields, from, to);
    var p := Patch(ops, fields, from, changes);
    forall f ensures Get(p, f) == Get(to, f) {
      PatchGet(ops, fields, from, changes, f);
    }
    SameData(p, to);
  }

  /** Where equal values have no changes, a diff names exactly the fields that differ. */
  lemma DiffNames(ops: TypeOps, fields: map<Text, Text>, from: Data, to: Data, f: Text)
    requires Lawful(ops) && f in fields && forall t, v :: ops.changed(t, v, v) == []
    ensures f in Diff(ops, fields, from, to) <==> Get(from, f) != Get(to, f)
  {
  }

  function Joined(a: Changes, b: Changes, f: Text): seq<Text>
  {
    (if f in a then a[f] else []) + (if f in b then b[f] else [])
  }

  function Concat(a: Changes, b: Changes): Changes
  {
    map f | f in a.Keys + b.Keys :: Joined(a, b, f)
  }

  method ConcatChanges(changes1: Changes, changes2: Changes) returns (changes: Changes)
    ensures changes == Concat(changes1, changes2)
  {
    changes := AddAll(map[], changes1);
    ConcatNothing(changes1);
    changes := AddAll(changes, changes2);
  }

  method AddAll(into: Changes, from: Changes) returns (changes: Changes)
    ensures changes == Concat(into, from)
  {
    changes := into;
    var todo := from.Keys;
    while todo != {}
      invariant todo <= from.Keys
      invariant forall f :: f in changes <==> f in into || f in from.Keys - todo
      invariant forall f :: f in changes ==>
                  changes[f] == if f in from.Keys - todo then Joined(into, from, f) else into[f]
    {
      var key :| key in todo;
      todo := todo - {key};
      if key !in changes {
        changes := changes[key := []];
      }
      changes := changes[key := changes[key] + from[key]];
    }
    forall f | f in changes ensures changes[f] == Joined(into, from, f) {
      JoinedOne(into, from, f);
    }
    assert changes.Keys == into.Keys + from.Keys;
    assert changes == Concat(into, from);
  }

  lemma JoinedOne(a: Changes, b: Changes, f: Text)
    ensures f in a && f !in b ==> Joined(a, b, f) == a[f]
    ensures f in b && f !in a ==> Joined(a, b, f) == b[f]
  {
  }

  lemma ConcatNothing(c: Changes)
    ensures Concat(map[], c) == c
  {
    forall f | f in c ensures Joined(map[], c, f) == c[f] {
      JoinedOne(map[], c, f);
    }
  }

  /** Concatenated changes have the effect of the two lists one after the other. */
  lemma ConcatPatch(ops: TypeOps, fields: map<Text, Text>, data: Data, a: Changes, b: Changes)
    requires Sequential(ops) && a.Keys <= fields.Keys && b.Keys <= fields.Keys
    ensures Concat(a, b).Keys <= fields.Keys
    ensures Patch(ops, fields, data, Concat(a, b)) == Patch(ops, fields, Patch(ops, fields, data, a), b)
  {
    hide Patch;
    var once := Patch(ops, fields, data, a);
    var both, twice := Patch(ops, fields, data, Concat(a, b)), Patch(ops, fields, once, b);
    forall f ensures Get(both, f) == Get(twice, f) {
      PatchGet(ops, fields, data, Concat(a, b), f);
      PatchGet(ops, fields, data, a, f);
      PatchGet(ops, fields, once, b, f);
      if f in a && f in b {
        assert Concat(a, b)[f] == a[f] + b[f];
      } else if f in a {
        assert Concat(a, b)[f] == a[f];
      } else if f in b {
        assert Concat(a, b)[f] == b[f];
      }
    }
    SameData(both, twice);
  }
}
