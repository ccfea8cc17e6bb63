/**
 The merge clean-up: runs of edits become at most one deletion and one insertion with nothing
 in common at either end, and single edits are shifted sideways to swallow an equality.
 */
module CleanupMerge {
  import opened Texts
  import opened CommonAffix
  import opened Diffs

  // ---------------------------------------------------------------------------------------
  // What the first pass leaves behind.

  ghost predicate DistinctEnds(a: Text, b: Text)
  {
    a != [] && b != [] && a[0] != b[0] && a[|a| - 1] != b[|b| - 1]
  }

  /** Two neighbours that need no merging. */
  ghost predicate Fits(a: Diff, b: Diff)
  {
    a.op.Equal? || b.op.Equal? || (a.op.Delete? && b.op.Insert? && DistinctEnds(a.text, b.text))
  }

  /** No two neighbours are both deletions, both insertions, or an insertion before a deletion. */
  ghost predicate Settled(ds: seq<Diff>)
  {
    forall i {:trigger ds[i]} :: 0 <= i < |ds| - 1 ==> Fits(ds[i], ds[i + 1])
  }

  /** A run of edits, `cd` deletions holding `td` and `ci` insertions holding `ti`. */
  ghost predicate Run(r: seq<Diff>, cd: nat, ci: nat, td: Text, ti: Text)
  {
    && |r| == cd + ci
    && (forall d :: d in r ==> !d.op.Equal?)
    && Text1(r) == td && Text2(r) == ti && EditSize(r) == |td| + |ti|
    && (cd == 0 ==> td == []) && (ci == 0 ==> ti == [])
    && (cd > 0 <==> Holds(r, Delete)) && (ci > 0 <==> Holds(r, Insert))
  }

  ghost predicate Holds(ds: seq<Diff>, op: Op)
  {
    exists d :: d in ds && d.op == op
  }

  lemma HoldsMore(ds: seq<Diff>, d: Diff, op: Op)
    ensures Holds(ds + [d], op) <==> Holds(ds, op) || d.op == op
  {
    assert d in ds + [d];
    if Holds(ds, op) {
      var x :| x in ds && x.op == op;
      assert x in ds + [d];
    }
  }

  lemma RunGrows(r: seq<Diff>, cd: nat, ci: nat, td: Text, ti: Text, d: Diff)
    requires Run(r, cd, ci, td, ti) && !d.op.Equal?
    ensures d.op.Delete? ==> Run(r + [d], cd + 1, ci, td + d.text, ti)
    ensures d.op.Insert? ==> Run(r + [d], cd, ci + 1, td, ti + d.text)
  {
    hide Holds;
    TextsAppendOne(r, d);
    TextsOne(d);
    HoldsMore(r, d, Delete);
    HoldsMore(r, d, Insert);
  }

  lemma SettledAppend(a: seq<Diff>, b: seq<Diff>)
    requires Settled(a) && Settled(b)
    requires a == [] || b == [] || Fits(a[|a| - 1], b[0])
    ensures Settled(a + b)
  {
  }

  /** The entries that replace a run once its common ends are factored out. */
  function Rebuilt(td: Text, ti: Text): seq<Diff>
  {
    (if td != [] then [Diff(Delete, td)] else []) + (if ti != [] then [Diff(Insert, ti)] else [])
  }

  lemma RebuiltRun(td: Text, ti: Text)
    ensures Text1(Rebuilt(td, ti)) == td && Text2(Rebuilt(td, ti)) == ti
    ensures EditSize(Rebuilt(td, ti)) == |td| + |ti| && |Rebuilt(td, ti)| <= 2
    ensures td == [] || ti == [] || DistinctEnds(td, ti) ==> Settled(Rebuilt(td, ti))
  {
    TextsAppend(if td != [] then [Diff(Delete, td)] else [], if ti != [] then [Diff(Insert, ti)] else []);
    TextsOne(Diff(Delete, td));
    TextsOne(Diff(Insert, ti));
  }

  /** The list before a run, with the run's common prefix moved in front of the run. */
  function WithPrefix(pre: seq<Diff>, c: Text): seq<Diff>
  {
    if c == [] then pre
    else if pre != [] then pre[..|pre| - 1] + [Diff(pre[|pre| - 1].op, pre[|pre| - 1].text + c)]
    else [Diff(Equal, c)]
  }

  lemma LongerLast(init: seq<Diff>, e: Diff, c: Text)
    requires e.op.Equal?
    ensures Text1(init + [Diff(e.op, e.text + c)]) == Text1(init + [e]) + c
    ensures Text2(init + [Diff(e.op, e.text + c)]) == Text2(init + [e]) + c
    ensures EditSize(init + [Diff(e.op, e.text + c)]) == EditSize(init + [e])
  {
    hide Text1, Text2, EditSize;
    TextsAppendOne(init, e);
    TextsAppendOne(init, Diff(e.op, e.text + c));
    TextsOne(e);
    TextsOne(Diff(e.op, e.text + c));
  }

  lemma WithPrefixTexts(pre: seq<Diff>, c: Text)
    requires pre != [] ==> pre[|pre| - 1].op.Equal?
    ensures Text1(WithPrefix(pre, c)) == Text1(pre) + c && Text2(WithPrefix(pre, c)) == Text2(pre) + c
    ensures EditSize(WithPrefix(pre, c)) == EditSize(pre)
  {
    hide Text1, Text2, EditSize, WithPrefix;
    NoEntries();
    if pre == [] {
      NewFirst(c);
    } else {
      LongerPrefix(pre[..|pre| - 1], pre[|pre| - 1], c);
      assert pre == pre[..|pre| - 1] + [pre[|pre| - 1]];
    }
  }

  lemma LongerPrefix(init: seq<Diff>, e: Diff, c: Text)
    requires e.op.Equal?
    ensures var pre := init + [e];
            && Text1(WithPrefix(pre, c)) == Text1(pre) + c && Text2(WithPrefix(pre, c)) == Text2(pre) + c
            && EditSize(WithPrefix(pre, c)) == EditSize(pre)
  {
    hide Text1, Text2, EditSize;
    LongerLast(init, e, c);
    assert (init + [e])[..|init|] == init;
  }

  lemma NewFirst(c: Text)
    ensures var pre := WithPrefix([], c); Text1(pre) == [] + c && Text2(pre) == [] + c && EditSize(pre) == 0
  {
    TextsOne(Diff(Equal, c));
  }

  lemma WithPrefixSettled(pre: seq<Diff>, c: Text)
    requires (pre != [] ==> pre[|pre| - 1].op.Equal?) && Settled(pre)
    ensures Settled(WithPrefix(pre, c))
    ensures WithPrefix(pre, c) != [] ==> WithPrefix(pre, c)[|WithPrefix(pre, c)| - 1].op.Equal?
  {
  }

  /** What stands for a run and the equality after it, `c` and `s` being the run's common ends. */
  function MergedHead(pre: seq<Diff>, c: Text, td: Text, ti: Text, s: Text, e: Diff): seq<Diff>
  {
    WithPrefix(pre, c) + Rebuilt(td, ti) + [Diff(e.op, s + e.text)]
  }

  /** Factoring the common ends out of a run changes neither text and shrinks the edits. */
  lemma MergedHeadTexts(pre: seq<Diff>, r: seq<Diff>, cd: nat, ci: nat, c: Text, td: Text, ti: Text, s: Text, e: Diff)
    requires pre != [] ==> pre[|pre| - 1].op.Equal?
    requires Run(r, cd, ci, c + td + s, c + ti + s) && e.op.Equal?
    ensures SameTexts(MergedHead(pre, c, td, ti, s, e), pre + r + [e])
    ensures EditSize(MergedHead(pre, c, td, ti, s, e)) + 2 * |c| + 2 * |s| == EditSize(pre + r + [e])
  {
    var e' := Diff(e.op, s + e.text);
    WithPrefixTexts(pre, c);
    RebuiltRun(td, ti);
    TextsThree(WithPrefix(pre, c), Rebuilt(td, ti), [e']);
    TextsThree(pre, r, [e]);
    TextsOne(e);
    TextsOne(e');
    hide Text1, Text2, EditSize, WithPrefix, Rebuilt;
    Regroup(Text1(pre), c, td, s, e.text);
    Regroup(Text2(pre), c, ti, s, e.text);
  }

  lemma Regroup(a: Text, c: Text, t: Text, s: Text, e: Text)
    ensures a + c + t + (s + e) == a + (c + t + s) + e
  {
  }

  lemma MergedHeadSettled(pre: seq<Diff>, c: Text, td: Text, ti: Text, s: Text, e: Diff)
    requires Settled(pre) && (pre != [] ==> pre[|pre| - 1].op.Equal?) && e.op.Equal?
    requires td == [] || ti == [] || DistinctEnds(td, ti)
    ensures Settled(MergedHead(pre, c, td, ti, s, e))
  {
    WithPrefixSettled(pre, c);
    RebuiltRun(td, ti);
    SettledAppend(WithPrefix(pre, c), Rebuilt(td, ti));
    SettledAppend(WithPrefix(pre, c) + Rebuilt(td, ti), [Diff(e.op, s + e.text)]);
  }

  lemma NoSharedHead(a: Text, b: Text, n: nat)
    requires CommonPrefixOf(a, b, n) && PrefixAtMost(a, b, n)
    ensures n <= |a| && n <= |b| && a[..n] == b[..n]
    ensures n < |a| && n < |b| ==> a[n] != b[n]
  {
    if n < |a| && n < |b| && a[n] == b[n] {
      PrefixStep(a, b, n, n + 1);
    }
  }

  lemma NoSharedTail(a: Text, b: Text, n: nat)
    requires CommonSuffixOf(a, b, n) && SuffixAtMost(a, b, n)
    ensures n <= |a| && n <= |b| && a[|a| - n..] == b[|b| - n..]
    ensures n < |a| && n < |b| ==> a[|a| - n - 1] != b[|b| - n - 1]
  {
    if n < |a| && n < |b| && a[|a| - n - 1] == b[|b| - n - 1] {
      SuffixStep(a, b, n, n + 1);
    }
  }

  method SplitPrefix(a: Text, b: Text) returns (c: Text, x: Text, y: Text)
    ensures a == c + x && b == c + y
    ensures x == [] || y == [] || x[0] != y[0]
  {
    hide CommonPrefixOf, PrefixAtMost;
    var commonlength := CommonPrefix(a, b);
    NoSharedHead(a, b, commonlength);
    c := a[..commonlength];
    x, y := a[commonlength..], b[commonlength..];
  }

  method SplitSuffix(a: Text, b: Text) returns (x: Text, y: Text, s: Text)
    ensures a == x + s && b == y + s
    ensures x == [] || y == [] || x[|x| - 1] != y[|y| - 1]
  {
    hide CommonSuffixOf, SuffixAtMost;
    var commonlength := CommonSuffix(a, b);
    SuffixBounds(a, b, commonlength);
    s := a[|a| - commonlength..];
    x, y := a[..|a| - commonlength], b[..|b| - commonlength];
    SuffixParts(a, b, commonlength, x, y, s);
  }

  lemma SuffixBounds(a: Text, b: Text, n: nat)
    requires CommonSuffixOf(a, b, n)
    ensures n <= |a| && n <= |b|
  {
  }

  /** Two texts cut before their longest common suffix. */
  lemma SuffixParts(a: Text, b: Text, n: nat, x: Text, y: Text, s: Text)
    requires CommonSuffixOf(a, b, n) && SuffixAtMost(a, b, n)
    requires x == a[..|a| - n] && y == b[..|b| - n] && s == a[|a| - n..]
    ensures a == x + s && b == y + s
    ensures x == [] || y == [] || x[|x| - 1] != y[|y| - 1]
  {
    NoSharedTail(a, b, n);
    hide CommonSuffixOf, SuffixAtMost;
    Rejoin(a, |a| - n);
    Rejoin(b, |b| - n);
  }

  lemma Rejoin(t: Text, n: nat)
    requires n <= |t|
    ensures t == t[..n] + t[n..]
  {
  }

  /** Splits both texts of a run into their longest common prefix, a middle and a common suffix. */
  method FactorEnds(text_delete: Text, text_insert: Text) returns (c: Text, td: Text, ti: Text, s: Text)
    ensures text_delete == c + td + s && text_insert == c + ti + s
    ensures td == [] || ti == [] || DistinctEnds(td, ti)
  {
    var td0, ti0;
    c, ti0, td0 := SplitPrefix(text_insert, text_delete);
    ti, td, s := SplitSuffix(ti0, td0);
  }

  /** Puts the common prefix of a run into the equality before it, or into a new first entry. */
  method PushPrefix(diffs: DiffList, pointer: nat, count: nat, c: Text) returns (p: nat)
    requires count <= pointer < |diffs.items| && c != []
    requires pointer > count ==> diffs.items[pointer - count - 1].op.Equal?
    modifies diffs
    ensures var pre := old(diffs.items)[..pointer - count];
            p == |WithPrefix(pre, c)| + count && diffs.items == WithPrefix(pre, c) + old(diffs.items)[pointer - count..]
  {
    var before := pointer - count - 1;
    if pointer - count > 0 && diffs.items[before].op == Equal {
      diffs.items := diffs.items[before := Diff(Equal, diffs.items[before].text + c)];
      p := pointer;
    } else {
      diffs.items := Splice(diffs.items, 0, 0, [Diff(Equal, c)]);
      p := pointer + 1;
    }
  }

  /** Replaces a run of edits by its merged form. */
  method ReplaceRun(diffs: DiffList, pointer: nat, count: nat, td: Text, ti: Text) returns (p: nat)
    requires count <= pointer < |diffs.items|
    modifies diffs
    ensures var pre := old(diffs.items)[..pointer - count];
            p == |pre + Rebuilt(td, ti)| + 1 && diffs.items == pre + Rebuilt(td, ti) + old(diffs.items)[pointer..]
  {
    p := pointer - count;
    diffs.items := Splice(diffs.items, p, count, []);
    if |td| != 0 {
      diffs.items := Splice(diffs.items, p, 0, [Diff(Delete, td)]);
      p := p + 1;
    }
    if |ti| != 0 {
      diffs.items := Splice(diffs.items, p, 0, [Diff(Insert, ti)]);
      p := p + 1;
    }
    p := p + 1;
  }

  /** Moves the common ends of a run into the equalities around it. */
  method FactorRun(diffs: DiffList, pointer: nat, count: nat, text_delete: Text, text_insert: Text)
    returns (p: nat, c: Text, td: Text, ti: Text, s: Text)
    requires count <= pointer < |diffs.items|
    requires pointer > count ==> diffs.items[pointer - count - 1].op.Equal?
    modifies diffs
    ensures text_delete == c + td + s && text_insert == c + ti + s
    ensures td == [] || ti == [] || DistinctEnds(td, ti)
    ensures var old' := old(diffs.items);
            var e := old'[pointer];
            && p == |WithPrefix(old'[..pointer - count], c)| + count
            && diffs.items ==
               WithPrefix(old'[..pointer - count], c) + old'[pointer - count..][count := Diff(e.op, s + e.text)]
  {
    hide DistinctEnds, WithPrefix;
    p := pointer;
    c, td, ti, s := FactorEnds(text_delete, text_insert);
    NoPrefix(diffs.items[..pointer - count]);
    ghost var pre, rest := diffs.items[..pointer - count], diffs.items[pointer - count..];
    assert diffs.items == pre + rest;
    if |c| != 0 {
      p := PushPrefix(diffs, p, count, c);
    }
    assert diffs.items == WithPrefix(pre, c) + rest;
    SameEntry(rest, count);
    UpdateIn(WithPrefix(pre, c), rest, count, Diff(rest[count].op, s + rest[count].text));
    if |s| != 0 {
      diffs.items := diffs.items[p := Diff(diffs.items[p].op, s + diffs.items[p].text)];
    }
  }

  lemma UpdateIn(w: seq<Diff>, rest: seq<Diff>, count: nat, d: Diff)
    requires count < |rest|
    ensures (w + rest)[|w| + count := d] == w + rest[count := d]
  {
  }

  lemma SameEntry(ds: seq<Diff>, i: nat)
    requires i < |ds|
    ensures ds[i := Diff(ds[i].op, [] + ds[i].text)] == ds
  {
    assert [] + ds[i].text == ds[i].text;
  }

  lemma NoPrefix(pre: seq<Diff>)
    ensures WithPrefix(pre, []) == pre
  {
  }

  /**
   The common ends of a run, which only a run with both kinds of edits can have, move into the
   equalities around it.
   */
  method FactorBoth(diffs: DiffList, pointer: nat, cd: nat, ci: nat, text_delete: Text, text_insert: Text)
    returns (p: nat, c: Text, td: Text, ti: Text, s: Text)
    requires cd + ci <= pointer < |diffs.items|
    requires pointer > cd + ci ==> diffs.items[pointer - cd - ci - 1].op.Equal?
    requires (cd == 0 ==> text_delete == []) && (ci == 0 ==> text_insert == [])
    modifies diffs
    ensures text_delete == c + td + s && text_insert == c + ti + s
    ensures td == [] || ti == [] || DistinctEnds(td, ti)
    ensures p == |WithPrefix(old(diffs.items)[..pointer - cd - ci], c)| + cd + ci
    ensures diffs.items == Factored(old(diffs.items), pointer, cd + ci, c, s)
  {
    hide DistinctEnds, WithPrefix;
    if cd != 0 && ci != 0 {
      p, c, td, ti, s := FactorRun(diffs, pointer, cd + ci, text_delete, text_insert);
    } else {
      OneKind(diffs.items, pointer, cd + ci);
      Unfactored(text_delete);
      Unfactored(text_insert);
      p, c, td, ti, s := pointer, [], text_delete, text_insert, [];
    }
  }

  lemma Unfactored(t: Text)
    ensures t == [] + t + []
  {
  }

  /** The list with the common ends `c` and `s` of the run before `pointer` in the equalities around it. */
  function Factored(ds: seq<Diff>, pointer: nat, count: nat, c: Text, s: Text): seq<Diff>
    requires count <= pointer < |ds|
  {
    WithPrefix(ds[..pointer - count], c) + ds[pointer - count..][count := Diff(ds[pointer].op, s + ds[pointer].text)]
  }

  lemma OneKind(ds: seq<Diff>, pointer: nat, count: nat)
    requires count <= pointer < |ds|
    ensures Factored(ds, pointer, count, [], []) == ds
    ensures WithPrefix(ds[..pointer - count], []) == ds[..pointer - count]
  {
    assert [] + ds[pointer].text == ds[pointer].text;
  }

  /** The equality case of the first pass, for a run of more than one edit. */
  method MergeRun(diffs: DiffList, pointer: nat, cd: nat, ci: nat, text_delete: Text, text_insert: Text)
    returns (p: nat, ghost c: Text, ghost td: Text, ghost ti: Text, ghost s: Text)
    requires 1 < cd + ci <= pointer < |diffs.items|
    requires pointer > cd + ci ==> diffs.items[pointer - cd - ci - 1].op.Equal?
    requires Run(diffs.items[pointer - cd - ci..pointer], cd, ci, text_delete, text_insert)
    modifies diffs
    ensures text_delete == c + td + s && text_insert == c + ti + s
    ensures td == [] || ti == [] || DistinctEnds(td, ti)
    ensures var head := MergedHead(old(diffs.items)[..pointer - cd - ci], c, td, ti, s, old(diffs.items)[pointer]);
            p == |head| && diffs.items == head + old(diffs.items)[pointer + 1..]
  {
    hide DistinctEnds, WithPrefix, Rebuilt, Run, Factored, MergedHead;
    ghost var ds := diffs.items;
    KindsPresent(ds[pointer - cd - ci..pointer], cd, ci, text_delete, text_insert);
    var c', td', ti', s';
    p, c', td', ti', s' := FactorBoth(diffs, pointer, cd, ci, text_delete, text_insert);
    c, td, ti, s := c', td', ti', s';
    FactoredList(ds, pointer, cd + ci, c, td, ti, s, diffs.items, p);
    p := ReplaceRun(diffs, p, cd + ci, td', ti');
  }

  lemma KindsPresent(r: seq<Diff>, cd: nat, ci: nat, td: Text, ti: Text)
    requires Run(r, cd, ci, td, ti)
    ensures (cd == 0 ==> td == []) && (ci == 0 ==> ti == [])
  {
  }

  /** Replacing the run in the factored list gives the merged form. */
  lemma FactoredList(ds: seq<Diff>, pointer: nat, count: nat, c: Text, td: Text, ti: Text, s: Text, ds': seq<Diff>,
                     p: nat)
    requires count <= pointer < |ds| && ds' == Factored(ds, pointer, count, c, s)
    requires p == |WithPrefix(ds[..pointer - count], c)| + count
    ensures count <= p < |ds'|
    ensures var head := MergedHead(ds[..pointer - count], c, td, ti, s, ds[pointer]);
            && |ds'[..p - count] + Rebuilt(td, ti)| + 1 == |head|
            && ds'[..p - count] + Rebuilt(td, ti) + ds'[p..] == head + ds[pointer + 1..]
  {
    hide WithPrefix, Rebuilt;
    var d := Diff(ds[pointer].op, s + ds[pointer].text);
    assert ds'[..p - count] == WithPrefix(ds[..pointer - count], c);
    assert ds'[p..] == [d] + ds[pointer + 1..];
    HeadAndRest(WithPrefix(ds[..pointer - count], c) + Rebuilt(td, ti), d, ds[pointer + 1..]);
  }

  lemma HeadAndRest(a: seq<Diff>, d: Diff, rest: seq<Diff>)
    ensures a + ([d] + rest) == a + [d] + rest
  {
  }

  // ---------------------------------------------------------------------------------------
  // The first pass.

  /** Either the edits shrank, or the list did, or nothing but the entry added at the end is extra. */
  ghost predicate NoLonger(ds: seq<Diff>, size: nat, length: nat, done: bool)
  {
    |ds| > 0 &&
    (EditSize(ds) < size
     || (EditSize(ds) == size && (|ds| < length || (|ds| == length && (done ==> ds[|ds| - 1].text == [])))))
  }

  ghost predicate Cursor(ds: seq<Diff>, p: nat, cd: nat, ci: nat)
  {
    && cd + ci <= p <= |ds| && |ds| > 0
    && ds[|ds| - 1].op.Equal? && (p < |ds| ==> ds[|ds| - 1].text == []) && (p == |ds| ==> cd + ci == 0)
    && (p > cd + ci ==> ds[p - cd - ci - 1].op.Equal?)
  }

  /** The state of the first pass: the entries before the current run are settled. */
  ghost predicate Merging(ds0: seq<Diff>, ds: seq<Diff>, p: nat, cd: nat, ci: nat, td: Text, ti: Text)
  {
    && Cursor(ds, p, cd, ci)
    && Run(ds[p - cd - ci..p], cd, ci, td, ti)
    && Settled(ds[..p - cd - ci])
    && SameTexts(ds, ds0)
    && NoLonger(ds, EditSize(ds0), |ds0|, p == |ds|)
  }

  lemma MergingStarts(ds: seq<Diff>)
    requires |ds| > 0 && ds[|ds| - 1] == Diff(Equal, [])
    ensures Merging(ds, ds, 0, 0, 0, [], [])
  {
  }

  lemma MergingEdit(ds0: seq<Diff>, ds: seq<Diff>, p: nat, cd: nat, ci: nat, td: Text, ti: Text)
    requires Merging(ds0, ds, p, cd, ci, td, ti) && p < |ds| && !ds[p].op.Equal?
    ensures ds[p].op.Insert? ==> Merging(ds0, ds, p + 1, cd, ci + 1, td, ti + ds[p].text)
    ensures ds[p].op.Delete? ==> Merging(ds0, ds, p + 1, cd + 1, ci, td + ds[p].text, ti)
  {
    hide Text1, Text2, EditSize, Run, Settled;
    RunGrows(ds[p - cd - ci..p], cd, ci, td, ti, ds[p]);
    assert ds[p - cd - ci..p] + [ds[p]] == ds[p - cd - ci..p + 1];
  }

  lemma EmptyRun(ds: seq<Diff>, p: nat)
    requires p <= |ds|
    ensures Run(ds[p..p], 0, 0, [], [])
  {
    assert ds[p..p] == [];
  }

  /** The equality case when the run before it holds at most one edit and nothing is merged. */
  lemma MergingSkip(ds0: seq<Diff>, ds: seq<Diff>, p: nat, cd: nat, ci: nat, td: Text, ti: Text)
    requires Merging(ds0, ds, p, cd, ci, td, ti) && p < |ds| && ds[p].op.Equal? && cd + ci <= 1
    ensures Merging(ds0, ds, p + 1, 0, 0, [], [])
  {
    hide Text1, Text2, EditSize, Run, DistinctEnds;
    EmptyRun(ds, p + 1);
    var pre := ds[..p - cd - ci];
    SettledAppend(pre, ds[p - cd - ci..p + 1]);
    assert pre + ds[p - cd - ci..p + 1] == ds[..p + 1];
  }

  lemma JoinedTexts(ds: seq<Diff>, p: nat, ds': seq<Diff>)
    requires 0 < p < |ds| && ds[p].op.Equal? && ds[p - 1].op.Equal?
    requires ds' == ds[..p - 1] + [Diff(Equal, ds[p - 1].text + ds[p].text)] + ds[p + 1..]
    ensures SameTexts(ds', ds) && EditSize(ds') == EditSize(ds)
  {
    hide Text1, Text2, EditSize;
    var joined := [Diff(Equal, ds[p - 1].text + ds[p].text)];
    JoinTexts(ds[p - 1].text, ds[p].text);
    assert ds[p - 1..p + 1] == [Diff(Equal, ds[p - 1].text), Diff(Equal, ds[p].text)];
    SpliceKeeps(ds, p - 1, 2, joined);
    assert ds' == Splice(ds, p - 1, 2, joined);
  }

  lemma JoinedSettled(ds: seq<Diff>, p: nat, ds': seq<Diff>)
    requires 0 < p < |ds| && ds[p].op.Equal? && ds[p - 1].op.Equal? && Settled(ds[..p])
    requires ds' == ds[..p - 1] + [Diff(Equal, ds[p - 1].text + ds[p].text)] + ds[p + 1..]
    ensures Settled(ds'[..p])
  {
    var joined := [Diff(Equal, ds[p - 1].text + ds[p].text)];
    assert ds[..p - 1] == ds[..p][..p - 1];
    SettledPrefix(ds[..p], p - 1);
    SettledAppend(ds[..p - 1], joined);
    assert ds'[..p] == ds[..p - 1] + joined;
  }

  lemma SettledPrefix(ds: seq<Diff>, n: nat)
    requires Settled(ds) && n <= |ds|
    ensures Settled(ds[..n])
  {
    forall i | 0 <= i < n - 1
      ensures Fits(ds[..n][i], ds[..n][i + 1])
    {
      assert Fits(ds[i], ds[i + 1]);
    }
  }

  /** The equality case when it joins the equality before it. */
  lemma MergingJoin(ds0: seq<Diff>, ds: seq<Diff>, p: nat, td: Text, ti: Text, ds': seq<Diff>)
    requires Merging(ds0, ds, p, 0, 0, td, ti) && 0 < p < |ds| && ds[p].op.Equal? && ds[p - 1].op.Equal?
    requires ds' == ds[..p - 1] + [Diff(Equal, ds[p - 1].text + ds[p].text)] + ds[p + 1..]
    ensures Merging(ds0, ds', p, 0, 0, [], [])
  {
    hide Text1, Text2, EditSize, Settled, Run;
    EmptyRun(ds', p);
    JoinedTexts(ds, p, ds');
    JoinedSettled(ds, p, ds');
  }

  lemma JoinTexts(a: Text, b: Text)
    ensures SameTexts([Diff(Equal, a), Diff(Equal, b)], [Diff(Equal, a + b)])
    ensures EditSize([Diff(Equal, a), Diff(Equal, b)]) == 0 == EditSize([Diff(Equal, a + b)])
  {
    assert [Diff(Equal, a), Diff(Equal, b)] == [Diff(Equal, a)] + [Diff(Equal, b)];
    TextsAppendOne([Diff(Equal, a)], Diff(Equal, b));
    TextsOne(Diff(Equal, a));
    TextsOne(Diff(Equal, b));
    TextsOne(Diff(Equal, a + b));
  }

  lemma MergedTexts(ds: seq<Diff>, p: nat, cd: nat, ci: nat, c: Text, td: Text, ti: Text, s: Text, ds': seq<Diff>)
    requires Cursor(ds, p, cd, ci) && p < |ds| && ds[p].op.Equal?
    requires Run(ds[p - cd - ci..p], cd, ci, c + td + s, c + ti + s)
    requires ds' == MergedHead(ds[..p - cd - ci], c, td, ti, s, ds[p]) + ds[p + 1..]
    ensures SameTexts(ds', ds) && EditSize(ds') + 2 * |c| + 2 * |s| == EditSize(ds)
  {
    hide Text1, Text2, EditSize, MergedHead, Run;
    var pre, r, e, rest := ds[..p - cd - ci], ds[p - cd - ci..p], ds[p], ds[p + 1..];
    assert ds == pre + r + [e] + rest;
    MergedHeadTexts(pre, r, cd, ci, c, td, ti, s, e);
    TextsAppend(MergedHead(pre, c, td, ti, s, e), rest);
    TextsAppend(pre + r + [e], rest);
  }

  lemma MergedCursor(ds: seq<Diff>, p: nat, cd: nat, ci: nat, c: Text, td: Text, ti: Text, s: Text, ds': seq<Diff>)
    requires Cursor(ds, p, cd, ci) && p < |ds| && ds[p].op.Equal? && cd + ci > 1
    requires ds' == MergedHead(ds[..p - cd - ci], c, td, ti, s, ds[p]) + ds[p + 1..]
    ensures var n := |MergedHead(ds[..p - cd - ci], c, td, ti, s, ds[p])|;
            && 0 < n && Cursor(ds', n, 0, 0)
            && (c == [] ==> |ds'| <= |ds|)
            && (s == [] && n == |ds'| ==> ds'[|ds'| - 1].text == [])
  {
    hide Rebuilt;
    var head := MergedHead(ds[..p - cd - ci], c, td, ti, s, ds[p]);
    RebuiltRun(td, ti);
    assert [] + ds[p].text == ds[p].text;
    assert head[|head| - 1] == Diff(ds[p].op, s + ds[p].text);
  }

  /** The equality case when a run of several edits before it is merged. */
  lemma MergingRun(ds0: seq<Diff>, ds: seq<Diff>, p: nat, cd: nat, ci: nat, td: Text, ti: Text,
                   c: Text, td': Text, ti': Text, s: Text, ds': seq<Diff>)
    requires Merging(ds0, ds, p, cd, ci, td, ti) && p < |ds| && ds[p].op.Equal? && cd + ci > 1
    requires td == c + td' + s && ti == c + ti' + s && (td' == [] || ti' == [] || DistinctEnds(td', ti'))
    requires ds' == MergedHead(ds[..p - cd - ci], c, td', ti', s, ds[p]) + ds[p + 1..]
    ensures Merging(ds0, ds', |MergedHead(ds[..p - cd - ci], c, td', ti', s, ds[p])|, 0, 0, [], [])
  {
    hide Text1, Text2, EditSize, MergedHead, Run, Settled, DistinctEnds;
    var pre := ds[..p - cd - ci];
    var head := MergedHead(pre, c, td', ti', s, ds[p]);
    MergedTexts(ds, p, cd, ci, c, td', ti', s, ds');
    MergedCursor(ds, p, cd, ci, c, td', ti', s, ds');
    MergedHeadSettled(pre, c, td', ti', s, ds[p]);
    EmptyRun(ds', |head|);
    assert ds'[..|head|] == head;
  }

  /** Joins neighbouring equalities and merges runs of edits. */
  method MergeRuns(diffs: DiffList)
    modifies diffs
    ensures SameTexts(diffs.items, old(diffs.items)) && Settled(diffs.items)
    ensures EditSize(diffs.items) <= EditSize(old(diffs.items))
    ensures EditSize(diffs.items) == EditSize(old(diffs.items)) ==> |diffs.items| <= |old(diffs.items)|
    ensures NoneEmpty(old(diffs.items)) ==> NoneEmpty(diffs.items)
  {
    hide Text1, Text2, EditSize, Run, Settled, DistinctEnds, MergedHead, NoneEmpty, NoneEmptyBefore;
    // An empty equality closes the last run.
    NoneEmptyEnds(diffs.items, Diff(Equal, []));
    diffs.items := diffs.items + [Diff(Equal, [])];
    ghost var ds0 := diffs.items;
    MergingStarts(ds0);
    var pointer: nat, count_delete: nat, count_insert: nat := 0, 0, 0;
    var text_delete: Text, text_insert: Text := [], [];
    while pointer < |diffs.items|
      invariant Merging(ds0, diffs.items, pointer, count_delete, count_insert, text_delete, text_insert)
      invariant NoneEmpty(old(diffs.items)) ==> NoneEmptyBefore(diffs.items)
      decreases |diffs.items| - pointer
    {
      ghost var ds := diffs.items;
      match diffs.items[pointer].op
      case Insert =>
        MergingEdit(ds0, ds, pointer, count_delete, count_insert, text_delete, text_insert);
        count_insert := count_insert + 1;
        text_insert := text_insert + diffs.items[pointer].text;
        pointer := pointer + 1;
      case Delete =>
        MergingEdit(ds0, ds, pointer, count_delete, count_insert, text_delete, text_insert);
        count_delete := count_delete + 1;
        text_delete := text_delete + diffs.items[pointer].text;
        pointer := pointer + 1;
      case Equal =>
        if count_delete + count_insert > 1 {
          var p;
          ghost var c, td, ti, s;
          p, c, td, ti, s := MergeRun(diffs, pointer, count_delete, count_insert, text_delete, text_insert);
          MergingRun(ds0, ds, pointer, count_delete, count_insert, text_delete, text_insert, c, td, ti, s, diffs.items);
          assert |diffs.items| - p == |ds| - pointer - 1;
          MergedNoneEmpty(ds, pointer, count_delete + count_insert, c, td, ti, s);
          pointer := p;
        } else if pointer != 0 && diffs.items[pointer - 1].op == Equal {
          NoRun(ds0, ds, pointer, count_delete, count_insert, text_delete, text_insert);
          diffs.items :=
            diffs.items[pointer - 1 := Diff(Equal, diffs.items[pointer - 1].text + diffs.items[pointer].text)];
          diffs.items := Splice(diffs.items, pointer, 1, []);
          MergingJoin(ds0, ds, pointer, text_delete, text_insert, diffs.items);
          JoinedNoneEmpty(ds, pointer, diffs.items);
        } else {
          MergingSkip(ds0, ds, pointer, count_delete, count_insert, text_delete, text_insert);
          pointer := pointer + 1;
        }
        count_insert, count_delete := 0, 0;
        text_delete, text_insert := [], [];
    }
    MergingEnds(old(diffs.items), diffs.items, text_delete, text_insert);
    WithoutEmpty(diffs.items);
    if diffs.items[|diffs.items| - 1].text == [] {
      diffs.items := diffs.items[..|diffs.items| - 1];
    }
  }

  /** No entry but perhaps the last one is empty. */
  ghost predicate NoneEmptyBefore(ds: seq<Diff>)
  {
    |ds| > 0 && NoneEmpty(ds[..|ds| - 1])
  }

  lemma NoneEmptyEnds(ds: seq<Diff>, d: Diff)
    ensures NoneEmpty(ds) ==> NoneEmptyBefore(ds + [d])
  {
    assert (ds + [d])[..|ds|] == ds;
  }

  lemma WithoutEmpty(ds: seq<Diff>)
    ensures NoneEmptyBefore(ds) ==> NoneEmpty(if ds[|ds| - 1].text == [] then ds[..|ds| - 1] else ds)
  {
    assert forall i :: 0 <= i < |ds| - 1 ==> ds[..|ds| - 1][i] == ds[i];
  }

  /** Only the entry added at the end may be empty. */
  lemma MergedNoneEmpty(ds: seq<Diff>, p: nat, count: nat, c: Text, td: Text, ti: Text, s: Text)
    requires count <= p < |ds|
    ensures NoneEmptyBefore(ds) ==> NoneEmptyBefore(MergedHead(ds[..p - count], c, td, ti, s, ds[p]) + ds[p + 1..])
  {
    hide Rebuilt;
    if NoneEmptyBefore(ds) {
      var pre := ds[..p - count];
      var head := WithPrefix(pre, c) + Rebuilt(td, ti);
      forall i | 0 <= i < p - count ensures pre[i].text != [] {
        assert pre[i] == ds[..|ds| - 1][i];
      }
      RebuiltNoneEmpty(td, ti);
      assert NoneEmpty(head);
      var e := Diff(ds[p].op, s + ds[p].text);
      var ds' := head + [e] + ds[p + 1..];
      forall i | 0 <= i < |ds'| - 1 ensures ds'[i].text != [] {
        if i == |head| {
          assert ds'[i] == e && ds[p] == ds[..|ds| - 1][p];
        } else if i > |head| {
          assert ds'[i] == ds[i - |head| + p] == ds[..|ds| - 1][i - |head| + p];
        }
      }
    }
  }

  lemma RebuiltNoneEmpty(td: Text, ti: Text)
    ensures NoneEmpty(Rebuilt(td, ti))
  {
  }

  lemma JoinedNoneEmpty(ds: seq<Diff>, p: nat, ds': seq<Diff>)
    requires 0 < p < |ds|
    requires ds' == ds[..p - 1] + [Diff(Equal, ds[p - 1].text + ds[p].text)] + ds[p + 1..]
    ensures NoneEmptyBefore(ds) ==> NoneEmptyBefore(ds')
  {
    if NoneEmptyBefore(ds) {
      forall i | 0 <= i < |ds'| - 1 ensures ds'[i].text != [] {
        var k := if i < p then i else i + 1;
        assert ds[..|ds| - 1][k].text != [];
      }
    }
  }

  /** An equality right before the cursor means that no run is open. */
  lemma NoRun(ds0: seq<Diff>, ds: seq<Diff>, p: nat, cd: nat, ci: nat, td: Text, ti: Text)
    requires Merging(ds0, ds, p, cd, ci, td, ti) && p > 0
    ensures cd + ci > 0 ==> !ds[p - 1].op.Equal?
  {
    if cd + ci > 0 {
      assert ds[p - cd - ci..p][cd + ci - 1] == ds[p - 1];
    }
  }

  lemma DropEmpty(a: seq<Diff>, d: Diff)
    requires d.text == []
    ensures SameTexts(a + [d], a) && EditSize(a + [d]) == EditSize(a)
  {
    TextsAppendOne(a, d);
    TextsOne(d);
    assert Text1(a) + [] == Text1(a) && Text2(a) + [] == Text2(a);
  }

  lemma MergingEnds(before: seq<Diff>, ds: seq<Diff>, td: Text, ti: Text)
    requires Merging(before + [Diff(Equal, [])], ds, |ds|, 0, 0, td, ti)
    ensures |ds| > 0
    ensures var r := if ds[|ds| - 1].text == [] then ds[..|ds| - 1] else ds;
            && SameTexts(r, before) && Settled(r) && EditSize(r) <= EditSize(before)
            && (EditSize(r) == EditSize(before) ==> |r| <= |before|)
  {
    hide Text1, Text2, EditSize, Settled, Run;
    var init, last := ds[..|ds| - 1], ds[|ds| - 1];
    assert ds[..|ds|] == ds;
    DropEmpty(before, Diff(Equal, []));
    SettledPrefix(ds, |ds| - 1);
    assert ds == init + [last];
    if last.text == [] {
      DropEmpty(init, last);
    }
  }

  // ---------------------------------------------------------------------------------------
  // The second pass.

  predicate IsSuffix(a: Text, b: Text) { |a| <= |b| && b[|b| - |a|..] == a }

  predicate IsPrefix(a: Text, b: Text) { |a| <= |b| && b[..|a|] == a }

  /** An edit between two equalities that can be shifted sideways to swallow one of them. */
  predicate CanShift(a: Diff, b: Diff, c: Diff)
  {
    a.op.Equal? && c.op.Equal? && (IsSuffix(a.text, b.text) || IsPrefix(c.text, b.text))
  }

  ghost predicate Unshiftable(ds: seq<Diff>, n: int)
  {
    forall i {:trigger ds[i]} :: 0 < i < n && i < |ds| - 1 ==> !CanShift(ds[i - 1], ds[i], ds[i + 1])
  }

  /** What the clean-up leaves: nothing to merge and nothing to shift. */
  ghost predicate Merged(ds: seq<Diff>) { Settled(ds) && Unshiftable(ds, |ds|) }

  lemma TextsTwo(a: Diff, b: Diff)
    ensures Text1([a, b]) == Part1(a) + Part1(b) && Text2([a, b]) == Part2(a) + Part2(b)
    ensures EditSize([a, b]) == EditSize([a]) + EditSize([b])
  {
    assert [a, b] == [a] + [b];
    TextsAppendOne([a], b);
    TextsOne(a);
  }

  lemma TextsOfThree(a: Diff, b: Diff, c: Diff)
    ensures Text1([a, b, c]) == Part1(a) + Part1(b) + Part1(c) && Text2([a, b, c]) == Part2(a) + Part2(b) + Part2(c)
    ensures EditSize([a, b, c]) == EditSize([a]) + EditSize([b]) + EditSize([c])
  {
    assert [a, b, c] == [a, b] + [c];
    TextsAppendOne([a, b], c);
    TextsTwo(a, b);
  }

  lemma TextShiftLeft(a: Text, b: Text, c: Text)
    requires IsSuffix(a, b)
    ensures a + b + c == (a + b[..|b| - |a|]) + (a + c)
    ensures a + [] + c == [] + (a + c)
    ensures |a + b[..|b| - |a|]| == |b|
  {
    assert b == b[..|b| - |a|] + a;
  }

  lemma TextShiftRight(a: Text, b: Text, c: Text)
    requires IsPrefix(c, b)
    ensures a + b + c == (a + c) + (b[|c|..] + c)
    ensures a + [] + c == (a + c) + []
    ensures |b[|c|..] + c| == |b|
  {
    assert b == c + b[|c|..];
  }

  lemma ShiftLeft(a: Diff, b: Diff, c: Diff)
    requires a.op.Equal? && c.op.Equal? && IsSuffix(a.text, b.text)
    ensures var two := [Diff(b.op, a.text + b.text[..|b.text| - |a.text|]), Diff(c.op, a.text + c.text)];
            SameTexts([a, b, c], two) && EditSize(two) == EditSize([a, b, c])
  {
    hide Text1, Text2, EditSize;
    var b', c' := Diff(b.op, a.text + b.text[..|b.text| - |a.text|]), Diff(c.op, a.text + c.text);
    TextShiftLeft(a.text, b.text, c.text);
    SizesOfShift(a, b, c, b', c');
    TextsOfThree(a, b, c);
    TextsTwo(b', c');
  }

  lemma ShiftRight(a: Diff, b: Diff, c: Diff)
    requires a.op.Equal? && c.op.Equal? && IsPrefix(c.text, b.text)
    ensures var two := [Diff(a.op, a.text + c.text), Diff(b.op, b.text[|c.text|..] + c.text)];
            SameTexts([a, b, c], two) && EditSize(two) == EditSize([a, b, c])
  {
    hide Text1, Text2, EditSize;
    var a', b' := Diff(a.op, a.text + c.text), Diff(b.op, b.text[|c.text|..] + c.text);
    TextShiftRight(a.text, b.text, c.text);
    SizesOfShift(a, b, c, b', a');
    TextsOfThree(a, b, c);
    TextsTwo(a', b');
  }

  lemma SizesOfShift(a: Diff, b: Diff, c: Diff, b': Diff, d: Diff)
    requires a.op.Equal? && c.op.Equal? && d.op.Equal? && b'.op == b.op && |b'.text| == |b.text|
    ensures EditSize([a]) + EditSize([b]) + EditSize([c]) == EditSize([b']) + EditSize([d])
  {
    TextsOne(a);
    TextsOne(b);
    TextsOne(c);
    TextsOne(b');
    TextsOne(d);
  }

  /** Replacing three entries by two that describe the same texts. */
  lemma ShiftKeeps(ds: seq<Diff>, p: nat, two: seq<Diff>)
    requires 0 < p < |ds| - 1 && |two| == 2
    requires SameTexts([ds[p - 1], ds[p], ds[p + 1]], two) && EditSize(two) == EditSize([ds[p - 1], ds[p], ds[p + 1]])
    ensures SameTexts(Splice(ds, p - 1, 3, two), ds) && EditSize(Splice(ds, p - 1, 3, two)) == EditSize(ds)
    ensures |Splice(ds, p - 1, 3, two)| == |ds| - 1
  {
    assert ds[p - 1..p - 1 + 3] == [ds[p - 1], ds[p], ds[p + 1]];
    SpliceKeeps(ds, p - 1, 3, two);
  }

  /** `b.substring(b.length - a.length) == a`, whichever of the two is longer. */
  lemma TailTest(a: Text, b: Text)
    ensures SubstringFrom(b, |b| - |a|) == a <==> IsSuffix(a, b)
    ensures Substring(b, 0, |a|) == a <==> IsPrefix(a, b)
  {
  }

  lemma OverLeft(ds: seq<Diff>, p: nat, b: Diff, c: Diff)
    requires 0 < p < |ds| - 1
    ensures Splice(ds[p := b][p + 1 := c], p - 1, 1, []) == Splice(ds, p - 1, 3, [b, c])
  {
  }

  lemma OverRight(ds: seq<Diff>, p: nat, a: Diff, b: Diff)
    requires 0 < p < |ds| - 1
    ensures Splice(ds[p - 1 := a][p := b], p + 1, 1, []) == Splice(ds, p - 1, 3, [a, b])
  {
  }

  lemma ShiftNoneEmpty(ds: seq<Diff>, p: nat, two: seq<Diff>)
    requires 0 < p < |ds| - 1 && |two| == 2
    requires |two[0].text| >= Min(|ds[p - 1].text|, |ds[p].text|)
    requires |two[1].text| >= Min(|ds[p].text|, |ds[p + 1].text|)
    ensures NoneEmpty(ds) ==> NoneEmpty(Splice(ds, p - 1, 3, two))
  {
    if NoneEmpty(ds) {
      var ds' := Splice(ds, p - 1, 3, two);
      forall i | 0 <= i < |ds'| ensures ds'[i].text != [] {
        assert i < p - 1 ==> ds'[i] == ds[i];
        assert i > p ==> ds'[i] == ds[i + 1];
        assert p - 1 <= i <= p ==> ds'[i] == two[i - p + 1];
      }
    }
  }

  /** Shifts the edit at `pointer` over the equality before it, or else over the one after it. */
  method TryShift(diffs: DiffList, pointer: nat) returns (shifted: bool)
    requires 0 < pointer < |diffs.items| - 1
    modifies diffs
    ensures shifted <==> old(CanShift(diffs.items[pointer - 1], diffs.items[pointer], diffs.items[pointer + 1]))
    ensures SameTexts(diffs.items, old(diffs.items)) && EditSize(diffs.items) == EditSize(old(diffs.items))
    ensures if shifted then |diffs.items| == |old(diffs.items)| - 1 else diffs.items == old(diffs.items)
    ensures NoneEmpty(old(diffs.items)) ==> NoneEmpty(diffs.items)
  {
    hide Text1, Text2, EditSize, IsSuffix, IsPrefix, Splice;
    ghost var ds := diffs.items;
    var a, b, c := diffs.items[pointer - 1], diffs.items[pointer], diffs.items[pointer + 1];
    shifted := false;
    if a.op == Equal && c.op == Equal {
      TailTest(a.text, b.text);
      TailTest(c.text, b.text);
      if SubstringFrom(b.text, |b.text| - |a.text|) == a.text {
        SuffixLength(a.text, b.text);
        ghost var two := [Diff(b.op, a.text + b.text[..|b.text| - |a.text|]), Diff(c.op, a.text + c.text)];
        ShiftLeft(a, b, c);
        ShiftKeeps(ds, pointer, two);
        diffs.items := diffs.items[pointer := Diff(b.op, a.text + Substring(b.text, 0, |b.text| - |a.text|))];
        diffs.items := diffs.items[pointer + 1 := Diff(c.op, a.text + c.text)];
        diffs.items := Splice(diffs.items, pointer - 1, 1, []);
        OverLeft(ds, pointer, two[0], two[1]);
        ShiftNoneEmpty(ds, pointer, two);
        shifted := true;
      } else if Substring(b.text, 0, |c.text|) == c.text {
        PrefixLength(c.text, b.text);
        ghost var two := [Diff(a.op, a.text + c.text), Diff(b.op, b.text[|c.text|..] + c.text)];
        ShiftRight(a, b, c);
        ShiftKeeps(ds, pointer, two);
        diffs.items := diffs.items[pointer - 1 := Diff(a.op, a.text + c.text)];
        diffs.items := diffs.items[pointer := Diff(b.op, SubstringFrom(b.text, |c.text|) + c.text)];
        diffs.items := Splice(diffs.items, pointer + 1, 1, []);
        OverRight(ds, pointer, two[0], two[1]);
        ShiftNoneEmpty(ds, pointer, two);
        shifted := true;
      }
    }
  }

  /** Shifts single edits between equalities sideways; `changes` when some were. */
  method ShiftEdits(diffs: DiffList) returns (changes: bool)
    modifies diffs
    ensures SameTexts(diffs.items, old(diffs.items)) && EditSize(diffs.items) == EditSize(old(diffs.items))
    ensures if changes then |diffs.items| < |old(diffs.items)|
            else diffs.items == old(diffs.items) && Unshiftable(diffs.items, |diffs.items|)
    ensures NoneEmpty(old(diffs.items)) ==> NoneEmpty(diffs.items)
  {
    hide Text1, Text2, EditSize, CanShift, Unshiftable;
    changes := false;
    NothingPassed(diffs.items);
    var pointer := 1;
    while pointer < |diffs.items| - 1
      invariant 1 <= pointer
      invariant SameTexts(diffs.items, old(diffs.items)) && EditSize(diffs.items) == EditSize(old(diffs.items))
      invariant if changes then |diffs.items| < |old(diffs.items)|
                else diffs.items == old(diffs.items) && Unshiftable(diffs.items, pointer)
      invariant NoneEmpty(old(diffs.items)) ==> NoneEmpty(diffs.items)
      decreases |diffs.items| - pointer
    {
      OnePassed(diffs.items, pointer);
      var shifted := TryShift(diffs, pointer);
      changes := changes || shifted;
      pointer := pointer + 1;
    }
    AllPassed(diffs.items, pointer);
  }

  lemma NothingPassed(ds: seq<Diff>)
    ensures Unshiftable(ds, 1)
  {
  }

  lemma OnePassed(ds: seq<Diff>, p: nat)
    requires 0 < p < |ds| - 1
    ensures Unshiftable(ds, p) && !CanShift(ds[p - 1], ds[p], ds[p + 1]) ==> Unshiftable(ds, p + 1)
  {
    hide CanShift;
  }

  lemma AllPassed(ds: seq<Diff>, p: nat)
    requires p >= |ds| - 1
    ensures Unshiftable(ds, p) ==> Unshiftable(ds, |ds|)
  {
    hide CanShift;
  }

  lemma SuffixLength(a: Text, b: Text)
    requires IsSuffix(a, b)
    ensures |a| <= |b|
  {
  }

  lemma PrefixLength(a: Text, b: Text)
    requires IsPrefix(a, b)
    ensures |a| <= |b|
  {
  }

  /** Both passes, again and again until nothing can be shifted. */
  method DiffCleanupMerge(diffs: DiffList)
    modifies diffs
    ensures SameTexts(diffs.items, old(diffs.items)) && Merged(diffs.items)
    ensures EditSize(diffs.items) <= EditSize(old(diffs.items))
    ensures NoneEmpty(old(diffs.items)) ==> NoneEmpty(diffs.items)
    decreases EditSize(diffs.items), |diffs.items|
  {
    hide NoneEmpty;
    MergeRuns(diffs);
    var changes := ShiftEdits(diffs);
    if changes {
      DiffCleanupMerge(diffs);
    }
  }
}
