/** Diff lists: what they mean, and how splicing one affects the two texts it describes. */
module Diffs {
  import opened Texts

  datatype Op = Delete | Insert | Equal

  datatype Diff = Diff(op: Op, text: Text)

  /** An array of diffs, which the clean-up passes splice in place. */
  class DiffList {
    var items: seq<Diff>

    constructor (items: seq<Diff>)
      ensures this.items == items
    {
      this.items := items;
    }
  }

  function Part1(d: Diff): Text { if d.op.Insert? then [] else d.text }

  function Part2(d: Diff): Text { if d.op.Delete? then [] else d.text }

  /** What the list starts from: its equalities and deletions, joined. */
  function Text1(ds: seq<Diff>): Text
  {
    if ds == [] then [] else Part1(ds[0]) + Text1(ds[1..])
  }

  /** What it leads to: its equalities and insertions, joined. */
  function Text2(ds: seq<Diff>): Text
  {
    if ds == [] then [] else Part2(ds[0]) + Text2(ds[1..])
  }

  /** The number of code units inside deletions and insertions. */
  function EditSize(ds: seq<Diff>): nat
  {
    if ds == [] then 0 else (if ds[0].op.Equal? then 0 else |ds[0].text|) + EditSize(ds[1..])
  }

  /** The number of code units inside equalities. */
  function EqualSize(ds: seq<Diff>): nat
  {
    if ds == [] then 0 else (if ds[0].op.Equal? then |ds[0].text| else 0) + EqualSize(ds[1..])
  }

  /** Every unit of the two texts is edited or equal. */
  lemma {:induction false} SizesAdd(ds: seq<Diff>)
    ensures EditSize(ds) + 2 * EqualSize(ds) == |Text1(ds)| + |Text2(ds)|
    ensures EditSize(ds) + EqualSize(ds) >= Max(|Text1(ds)|, |Text2(ds)|)
  {
    if ds != [] {
      SizesAdd(ds[1..]);
    }
  }

  /** No diff of two texts has fewer edits than their lengths differ by, or more than both have units. */
  lemma EditBounds(ds: seq<Diff>)
    ensures Max(|Text1(ds)| - |Text2(ds)|, |Text2(ds)| - |Text1(ds)|) <= EditSize(ds) <= |Text1(ds)| + |Text2(ds)|
  {
    SizesAdd(ds);
  }

  /** No entry is empty. */
  ghost predicate NoneEmpty(ds: seq<Diff>)
  {
    forall i {:trigger ds[i]} :: 0 <= i < |ds| ==> ds[i].text != []
  }

  ghost predicate SameTexts(a: seq<Diff>, b: seq<Diff>)
  {
    Text1(a) == Text1(b) && Text2(a) == Text2(b)
  }

  lemma {:induction false} TextsAppend(a: seq<Diff>, b: seq<Diff>)
    ensures Text1(a + b) == Text1(a) + Text1(b)
    ensures Text2(a + b) == Text2(a) + Text2(b)
    ensures EditSize(a + b) == EditSize(a) + EditSize(b)
  {
    hide Text1, Text2, EditSize, Part1, Part2;
    if a == [] {
      NoEntries();
      assert a + b == b;
    } else {
      TextsAppend(a[1..], b);
      FirstEntry(a);
      FirstEntry(a + b);
      assert (a + b)[0] == a[0] && (a + b)[1..] == a[1..] + b;
      Associative(Part1(a[0]), Text1(a[1..]), Text1(b));
      Associative(Part2(a[0]), Text2(a[1..]), Text2(b));
    }
  }

  lemma NoEntries()
    ensures Text1([]) == [] && Text2([]) == [] && EditSize([]) == 0
  {
  }

  /** The texts of a list, its first entry apart. */
  lemma FirstEntry(ds: seq<Diff>)
    requires ds != []
    ensures Text1(ds) == Part1(ds[0]) + Text1(ds[1..]) && Text2(ds) == Part2(ds[0]) + Text2(ds[1..])
    ensures EditSize(ds) == (if ds[0].op.Equal? then 0 else |ds[0].text|) + EditSize(ds[1..])
  {
  }

  lemma Associative(a: Text, b: Text, c: Text)
    ensures a + (b + c) == (a + b) + c
  {
  }

  lemma TextsOne(d: Diff)
    ensures Text1([d]) == Part1(d) && Text2([d]) == Part2(d)
    ensures EditSize([d]) == if d.op.Equal? then 0 else |d.text|
  {
    assert [d][1..] == [];
  }

  lemma TextsAppendOne(a: seq<Diff>, d: Diff)
    ensures Text1(a + [d]) == Text1(a) + Part1(d) && Text2(a + [d]) == Text2(a) + Part2(d)
    ensures EditSize(a + [d]) == EditSize(a) + EditSize([d])
  {
    TextsAppend(a, [d]);
    TextsOne(d);
  }

  lemma TextsThree(a: seq<Diff>, b: seq<Diff>, c: seq<Diff>)
    ensures Text1(a + b + c) == Text1(a) + Text1(b) + Text1(c)
    ensures Text2(a + b + c) == Text2(a) + Text2(b) + Text2(c)
    ensures EditSize(a + b + c) == EditSize(a) + EditSize(b) + EditSize(c)
  {
    TextsAppend(a + b, c);
    TextsAppend(a, b);
  }

  /** `diffs.splice(start, count, ...added)` */
  function Splice(ds: seq<Diff>, start: nat, count: nat, added: seq<Diff>): seq<Diff>
    requires start + count <= |ds|
  {
    ds[..start] + added + ds[start + count..]
  }

  /** Splicing in entries that describe the same pair of texts changes neither text of the list. */
  lemma SpliceKeeps(ds: seq<Diff>, start: nat, count: nat, added: seq<Diff>)
    requires start + count <= |ds|
    ensures SameTexts(ds[start..start + count], added) ==> SameTexts(ds, Splice(ds, start, count, added))
    ensures EditSize(Splice(ds, start, count, added)) + EditSize(ds[start..start + count]) ==
            EditSize(ds) + EditSize(added)
  {
    var mid := ds[start..start + count];
    assert ds == ds[..start] + mid + ds[start + count..];
    TextsThree(ds[..start], mid, ds[start + count..]);
    TextsThree(ds[..start], added, ds[start + count..]);
  }

  method DiffText1(diffs: seq<Diff>) returns (text: Text)
    ensures text == Text1(diffs)
  {
    text := [];
    for x := 0 to |diffs|
      invariant text == Text1(diffs[..x])
    {
      assert diffs[..x + 1] == diffs[..x] + [diffs[x]];
      TextsAppendOne(diffs[..x], diffs[x]);
      if diffs[x].op != Insert {
        text := text + diffs[x].text;
      }
    }
    assert diffs[..|diffs|] == diffs;
  }

  method DiffText2(diffs: seq<Diff>) returns (text: Text)
    ensures text == Text2(diffs)
  {
    text := [];
    for x := 0 to |diffs|
      invariant text == Text2(diffs[..x])
    {
      assert diffs[..x + 1] == diffs[..x] + [diffs[x]];
      TextsAppendOne(diffs[..x], diffs[x]);
      if diffs[x].op != Delete {
        text := text + diffs[x].text;
      }
    }
    assert diffs[..|diffs|] == diffs;
  }
}
