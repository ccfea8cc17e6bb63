/** Storing a commit as an edit of an earlier one, and reading the same record back. */
module DeltaCompression {
  import opened Wrappers
  import opened Texts
  import opened Commits
  import opened Records
  import opened Repository

  const SESSIONS: Text := [115, 101, 115, 115, 105, 111, 110, 115]

  /** The newest commit that holds a whole record. */
  method LastRecordCommit(commits: seq<Commit>) returns (last: Option<Commit>)
    ensures last.None? <==> forall c :: c in commits ==> c.contents.Delta?
    ensures last.Some? ==> last.value in commits && last.value.contents.Full?
    ensures last.Some? ==> forall c :: c in commits && c.contents.Full? ==> c.timestamp <= last.value.timestamp
  {
    last := None;
    for i := 0 to |commits|
      invariant last.None? <==> forall c :: c in commits[..i] ==> c.contents.Delta?
      invariant last.Some? ==> last.value in commits && last.value.contents.Full?
      invariant last.Some? ==> forall c :: c in commits[..i] && c.contents.Full? ==> c.timestamp <= last.value.timestamp
    {
      assert commits[..i + 1] == commits[..i] + [commits[i]];
      if commits[i].contents.Full? {
        if last.None? || commits[i].timestamp > last.value.timestamp {
          last := Some(commits[i]);
        }
      }
    }
    assert commits[..|commits|] == commits;
  }

  /** A commit with a whole record that none of the others is later than. */
  ghost predicate NewestFull(commits: seq<Commit>, base: Commit)
  {
    && base in commits && base.contents.Full?
    && forall c :: c in commits && c.contents.Full? ==> c.timestamp <= base.timestamp
  }

  /** The edit that leads from one record to another. */
  function EditBetween(ops: TypeOps, from: Record, to: Record): Edit
  {
    Edit(Diff(ops, to.scheme.fields, from.data, to.data), ops.checksum(from), ops.checksum(to))
  }

  /** `c` is `full` with its record written as an edit of the whole record of `base`. */
  ghost predicate Compressed(ops: TypeOps, full: Commit, base: Commit, c: Commit)
  {
    && full.contents.Full? && base.contents.Full?
    && c.contents == Delta(base.id, EditBetween(ops, base.contents.record, full.contents.record))
    && c.id == full.id && c.key == full.key && c.session == full.session && c.parents == full.parents
  }

  /**
   `commits` are those of the key. `periodic` is the random choice to write a whole record now and then, `small`
   the comparison of the encoded lengths.
   */
  method DeltaCompressIfNeeded(ops: TypeOps, commits: seq<Commit>, full: Commit, periodic: bool, small: bool,
                               now: int, orgId: Text)
    returns (c: Commit)
    requires full.contents.Full?
    ensures if !periodic && small && full.contents.record.scheme.namespace != SESSIONS
               && exists b :: b in commits && b.contents.Full?
            then exists base :: NewestFull(commits, base) && Compressed(ops, full, base, c)
            else c == full
  {
    if periodic || full.contents.record.scheme.namespace == SESSIONS {
      return full;
    }
    var last := LastRecordCommit(commits);
    if last.Some? {
      var baseRecord := last.value.contents.record;
      var changes := DiffData(ops, full.contents.record.scheme.fields, baseRecord.data, full.contents.record.data);
      var edit := Edit(changes, ops.checksum(baseRecord), ops.checksum(full.contents.record));
      if small {
        c := full.(contents := Delta(last.value.id, edit), timestamp := now, orgId := Some(orgId));
        assert NewestFull(commits, last.value) && Compressed(ops, full, last.value, c);
        return;
      }
    }
    return full;
  }

  /** A record whose values all belong to fields of its scheme, in normal form. */
  ghost predicate WellFormed(ops: TypeOps, r: Record)
  {
    r.data.Keys <= r.scheme.fields.Keys && ops.normalize(r.scheme, r.data) == r.data
  }

  /** Decoding an edit gives the record it was made for exactly when both records have one scheme. */
  lemma DecodeEdit(ops: TypeOps, from: Record, to: Record)
    requires Lawful(ops) && WellFormed(ops, from) && WellFormed(ops, to)
    ensures Decode(ops, from, EditBetween(ops, from, to)) == Some(to) <==> from.scheme == to.scheme
  {
    if from.scheme == to.scheme {
      DiffPatch(ops, to.scheme.fields, from.data, to.data);
    }
  }

  /**
   A compressed commit has the record of the full one exactly when the scheme has not changed since its base; under
   another scheme it is unreadable or keeps the old scheme.
   */
  lemma CompressionKeepsRecord(ops: TypeOps, store: map<Id, Commit>, full: Commit, base: Commit, c: Commit)
    requires Lawful(ops) && Compressed(ops, full, base, c) && base.id in store && store[base.id] == base
    requires WellFormed(ops, base.contents.record) && WellFormed(ops, full.contents.record)
    ensures RecordIn(ops, store, full, {}) == Some(full.contents.record)
    ensures RecordIn(ops, store, c, {}) == RecordIn(ops, store, full, {}) <==>
            base.contents.record.scheme == full.contents.record.scheme
  {
    DecodeEdit(ops, base.contents.record, full.contents.record);
    assert RecordIn(ops, store, base, {base.id}) == Some(base.contents.record);
  }
}
