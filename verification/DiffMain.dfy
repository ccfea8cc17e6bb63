/**
 The diff of two texts: a recursive search that trims what the texts share, splits the problem
 where it can, and cleans up what it joins together.

 The clock is arbitrary; `unlimited` is a timeout of zero or less, and `score` the taste by which
 the semantic clean-up places an edit.
 */
module DiffMain {
  import opened Wrappers
  import opened Texts
  import opened CommonAffix
  import opened Diffs
  import opened CleanupMerge
  import opened CleanupSemantic
  import opened LineMode
  import HalfMatch
  import Bisect
  import BisectOverlap
  import BisectSearch

  /** The diffs turn the first text into the second. */
  ghost predicate Describes(ds: seq<Diff>, text1: Text, text2: Text)
  {
    Text1(ds) == text1 && Text2(ds) == text2
  }

  ghost predicate Contains(text: Text, word: Text) { exists i :: OccursAt(word, text, i) }

  /** A line-level diff cannot meet the word that hides the line table's lookup. */
  ghost predicate Harmless(text1: Text, text2: Text, checklines: bool)
  {
    !checklines || |text1| <= 100 || |text2| <= 100 || !Contains(text1, HAS_OWN_PROPERTY)
  }

  lemma OccursInside(word: Text, text: Text, a: nat, b: nat, i: int)
    requires a <= b <= |text| && OccursAt(word, text[a..b], i)
    ensures OccursAt(word, text, a + i)
  {
    var n := |word|;
    assert a + i + n <= |text| && |text[a + i..a + i + n]| == n;
    forall k | 0 <= k < n
      ensures text[a + i..a + i + n][k] == word[k]
    {
      assert text[a..b][i..i + n][k] == text[a..b][i + k] == text[a + i + k];
    }
  }

  lemma HarmlessPart(text1: Text, text2: Text, checklines: bool, a: nat, b: nat, part2: Text)
    requires Harmless(text1, text2, checklines) && a <= b <= |text1| && |part2| <= |text2|
    ensures Harmless(text1[a..b], part2, checklines)
  {
    if Contains(text1[a..b], HAS_OWN_PROPERTY) {
      var i :| OccursAt(HAS_OWN_PROPERTY, text1[a..b], i);
      OccursInside(HAS_OWN_PROPERTY, text1, a, b, i);
    }
  }

  lemma HidingContains(text: Text)
    requires HidesLookup(text)
    ensures Contains(text, HAS_OWN_PROPERTY)
  {
    var n := |text| - |HAS_OWN_PROPERTY|;
    assert text[n..] == text[n..n + |HAS_OWN_PROPERTY|];
    assert OccursAt(HAS_OWN_PROPERTY, text, n);
  }

  // ---------------------------------------------------------------------------------------
  // When a diff throws.

  /** What is left of two texts without their longest common prefix and, then, suffix. */
  function Middle(text1: Text, text2: Text): (m: (Text, Text))
    ensures |m.0| + |m.1| <= |text1| + |text2|
  {
    hide CommonPrefixOf, CommonSuffixOf;
    var p := LongestPrefix(text1, text2);
    var s := LongestSuffix(text1[p..], text2[p..]);
    (text1[p..|text1| - s], text2[p..|text2| - s])
  }

  /** The longer text contains the shorter one. */
  ghost predicate OneInside(text1: Text, text2: Text)
  {
    if |text1| > |text2| then Contains(text1, text2) else Contains(text2, text1)
  }

  /** Two texts that reach line mode, the old one of which hides the lookup. */
  ghost predicate LineModeThrows(text1: Text, text2: Text)
  {
    |text1| > 100 && |text2| > 100 && !OneInside(text1, text2) && HidesLookup(text1)
  }

  /**
   The diff of two trimmed texts throws: line mode does, or, when a half-match splits the problem, the diff of one of
   its two sides.
   */
  ghost predicate MiddleThrows(text1: Text, text2: Text, unlimited: bool)
    decreases |text1| + |text2|, 0
  {
    && text1 != [] && text2 != [] && !OneInside(text1, text2)
    && match HalfMatch.ChosenHalf(text1, text2, unlimited)
       case None => LineModeThrows(text1, text2)
       case Some(h) => Throws(h.text1a, h.text2a, true, unlimited) || Throws(h.text1b, h.text2b, true, unlimited)
  }

  ghost predicate Throws(text1: Text, text2: Text, checklines: bool, unlimited: bool)
    decreases |text1| + |text2|, 1
  {
    checklines && var (mid1, mid2) := Middle(text1, text2); MiddleThrows(mid1, mid2, unlimited)
  }

  /**
   Without a half-match, as always with an unlimited timeout, the diff throws exactly when what is left of the texts
   after trimming is over 100 units each, neither within the other, and the old text's rest hides the lookup.
   */
  lemma ThrowsInLineMode(text1: Text, text2: Text, unlimited: bool)
    requires var (mid1, mid2) := Middle(text1, text2);
             unlimited
             || !(if |mid1| > |mid2| then HalfMatch.ShareHalf(mid1, mid2) else HalfMatch.ShareHalf(mid2, mid1))
    ensures var (mid1, mid2) := Middle(text1, text2);
            Throws(text1, text2, true, unlimited) <==> LineModeThrows(mid1, mid2)
  {
    hide HalfMatch.ShareHalf, OneInside, HidesLookup;
    var (mid1, mid2) := Middle(text1, text2);
    NoneChosen(mid1, mid2, unlimited);
  }

  lemma NoneChosen(text1: Text, text2: Text, unlimited: bool)
    requires unlimited
             || !(if |text1| > |text2| then HalfMatch.ShareHalf(text1, text2) else HalfMatch.ShareHalf(text2, text1))
    ensures HalfMatch.ChosenHalf(text1, text2, unlimited) == None
  {
    hide HalfMatch.ShareHalf;
    var h := HalfMatch.ChosenHalf(text1, text2, unlimited);
    if h.Some? {
      if |text1| > |text2| {
        HalfMatch.HalfShared(h.value, text1, text2);
      } else {
        HalfMatch.HalfShared(h.value.Swapped(), text2, text1);
      }
    }
  }

  /** No diff throws whose old text holds the word nowhere, or one of whose texts is short. */
  lemma {:induction false} HarmlessNeverThrows(text1: Text, text2: Text, checklines: bool, unlimited: bool)
    requires Harmless(text1, text2, checklines)
    ensures !Throws(text1, text2, checklines, unlimited)
    decreases |text1| + |text2|, 1
  {
    hide Harmless, MiddleThrows, LongestPrefix, LongestSuffix;
    if checklines {
      var p := LongestPrefix(text1, text2);
      var s := LongestSuffix(text1[p..], text2[p..]);
      HarmlessPart(text1, text2, true, p, |text1| - s, text2[p..|text2| - s]);
      HarmlessMiddle(text1[p..|text1| - s], text2[p..|text2| - s], unlimited);
    }
  }

  lemma {:induction false} HarmlessMiddle(text1: Text, text2: Text, unlimited: bool)
    requires Harmless(text1, text2, true)
    ensures !MiddleThrows(text1, text2, unlimited)
    decreases |text1| + |text2|, 0
  {
    hide Harmless, OneInside, HidesLookup, Throws, HalfMatch.ChosenHalf;
    var hm := HalfMatch.ChosenHalf(text1, text2, unlimited);
    if hm.None? {
      if LineModeThrows(text1, text2) {
        NotHarmless(text1, text2);
      }
    } else {
      var h := hm.value;
      SideParts(text1, h.text1a, h.common, h.text1b);
      HarmlessPart(text1, text2, true, 0, |h.text1a|, h.text2a);
      HarmlessPart(text1, text2, true, |text1| - |h.text1b|, |text1|, h.text2b);
      HarmlessNeverThrows(h.text1a, h.text2a, true, unlimited);
      HarmlessNeverThrows(h.text1b, h.text2b, true, unlimited);
    }
  }

  lemma SideParts(text: Text, a: Text, c: Text, b: Text)
    requires text == a + c + b
    ensures text[0..|a|] == a && text[|text| - |b|..|text|] == b
  {
  }

  lemma NotHarmless(text1: Text, text2: Text)
    requires |text1| > 100 && |text2| > 100 && HidesLookup(text1)
    ensures !Harmless(text1, text2, true)
  {
    HidingContains(text1);
  }

  /** A text that throws against any text without a unit of its own: a line of `n` units, then the bare word. */
  function LineAndWord(c: CodeUnit, n: nat): Text
  {
    seq(n, _ => c) + [NEWLINE] + HAS_OWN_PROPERTY
  }

  lemma LineAndWordHides(c: CodeUnit, n: nat)
    requires c != NEWLINE
    ensures HidesLookup(LineAndWord(c, n))
  {
    var text := LineAndWord(c, n);
    assert text[n + 1..] == HAS_OWN_PROPERTY;
    assert IsLine(text, 0, n + 1);
    LineSetGrows(text, 0, n + 1);
    assert LineSet(text, 0) == {};
    assert LineSet(text, n + 1) == {text[0..n + 1]};
  }

  /** Texts that share no unit: nothing is trimmed, none is inside the other, and no half is shared. */
  lemma NothingInCommon(text1: Text, text2: Text, d: CodeUnit)
    requires text1 != [] && text2 != [] && d !in text1 && forall i :: 0 <= i < |text2| ==> text2[i] == d
    ensures Middle(text1, text2) == (text1, text2) && !OneInside(text1, text2)
    ensures !HalfMatch.ShareHalf(text1, text2) && !HalfMatch.ShareHalf(text2, text1)
  {
    hide CommonPrefixOf, CommonSuffixOf, PrefixAtMost, SuffixAtMost, HalfMatch.Shared, OccursAt;
    assert text1[0] in text1 && text1[|text1| - 1] in text1;
    PrefixNone(text1, text2);
    assert text1[0..] == text1 && text2[0..] == text2;
    assert text1[0..|text1| - 0] == text1 && text2[0..|text2| - 0] == text2;
    SuffixNone(text1, text2);
    MiddleIs(text1, text2, 0, 0);
    forall i ensures !OccursAt(text1, text2, i) && !OccursAt(text2, text1, i) {
      OccursNowhere(text1, text2, d, i);
    }
    forall a, b, length
      ensures HalfMatch.Shared(text1, text2, a, b, length) || HalfMatch.Shared(text2, text1, b, a, length) ==>
              length == 0
    {
      SharedNowhere(text1, text2, d, a, b, length);
    }
  }

  lemma OccursNowhere(text1: Text, text2: Text, d: CodeUnit, i: int)
    requires text1 != [] && text2 != [] && d !in text1 && forall i :: 0 <= i < |text2| ==> text2[i] == d
    ensures !OccursAt(text1, text2, i) && !OccursAt(text2, text1, i)
  {
    if 0 <= i && i + |text1| <= |text2| {
      assert text2[i..i + |text1|][0] == d != text1[0];
    }
    if 0 <= i && i + |text2| <= |text1| {
      assert text1[i..i + |text2|][0] == text1[i] != d;
    }
  }

  lemma SharedNowhere(text1: Text, text2: Text, d: CodeUnit, a: int, b: int, length: int)
    requires d !in text1 && forall i :: 0 <= i < |text2| ==> text2[i] == d
    ensures HalfMatch.Shared(text1, text2, a, b, length) || HalfMatch.Shared(text2, text1, b, a, length) ==> length == 0
  {
    if 0 <= a && 0 <= b && 0 < length && a + length <= |text1| && b + length <= |text2| {
      assert text1[a..a + length][0] == text1[a] != d == text2[b..b + length][0];
    }
  }

  /** Such a pair, with any timeout: 100 units a, a newline and the word hasOwnProperty against 101 units b. */
  lemma WordAfterLineThrows(unlimited: bool)
    ensures Throws(LineAndWord(97, 100), seq(101, _ => 98), true, unlimited)
  {
    var text1, text2: Text := LineAndWord(97, 100), seq(101, _ => 98);
    hide HalfMatch.ShareHalf, OneInside, Middle, Throws, HidesLookup;
    WordWithoutB();
    NothingInCommon(text1, text2, 98);
    LineAndWordHides(97, 100);
    ThrowsInLineMode(text1, text2, unlimited);
  }

  lemma WordWithoutB()
    ensures 98 !in LineAndWord(97, 100) && |LineAndWord(97, 100)| == 115
  {
  }

  // ---------------------------------------------------------------------------------------
  // What a diff means.

  lemma DescribesAppend(a: seq<Diff>, b: seq<Diff>, a1: Text, a2: Text, b1: Text, b2: Text)
    requires Describes(a, a1, a2) && Describes(b, b1, b2)
    ensures Describes(a + b, a1 + b1, a2 + b2)
  {
    TextsAppend(a, b);
  }

  lemma DescribesOne(op: Op, text: Text)
    ensures Describes([Diff(op, text)], if op.Insert? then [] else text, if op.Delete? then [] else text)
  {
    TextsOne(Diff(op, text));
  }

  lemma DescribesReplacement(text1: Text, text2: Text)
    ensures Describes([Diff(Delete, text1), Diff(Insert, text2)], text1, text2)
  {
    TextsTwo(Diff(Delete, text1), Diff(Insert, text2));
    assert text1 + [] == text1 && [] + text2 == text2;
  }

  lemma Around(long: Text, short: Text, i: nat, a: Text, b: Text)
    requires OccursAt(short, long, i) && a == long[..i] && b == long[i + |short|..]
    ensures a + short + b == long && [] + short + [] == short
  {
    assert long[i..i + |short|] == short;
  }

  lemma DescribesInside(op: Op, text1: Text, text2: Text, long: Text, short: Text, i: nat)
    requires OccursAt(short, long, i) && !op.Equal?
    requires if op.Insert? then text1 == short && text2 == long else text1 == long && text2 == short
    ensures Describes([Diff(op, long[..i]), Diff(Equal, short), Diff(op, long[i + |short|..])], text1, text2)
  {
    hide Text1, Text2;
    var a, b := long[..i], long[i + |short|..];
    TextsOfThree(Diff(op, a), Diff(Equal, short), Diff(op, b));
    Around(long, short, i, a, b);
  }

  /** The texts differ in their first and in their last units. */
  ghost predicate Trimmed(text1: Text, text2: Text)
  {
    text1 == [] || text2 == [] || (text1[0] != text2[0] && text1[|text1| - 1] != text2[|text2| - 1])
  }

  /** What is left of two texts without their longest common prefix and suffix. */
  lemma TrimTexts(text1: Text, text2: Text, p: nat, s: nat)
    requires CommonPrefixOf(text1, text2, p) && PrefixAtMost(text1, text2, p)
    requires CommonSuffixOf(text1[p..], text2[p..], s) && SuffixAtMost(text1[p..], text2[p..], s)
    ensures p + s <= |text1| && p + s <= |text2|
    ensures text1 == text1[..p] + text1[p..|text1| - s] + text1[|text1| - s..]
    ensures text2 == text1[..p] + text2[p..|text2| - s] + text1[|text1| - s..]
    ensures Trimmed(text1[p..|text1| - s], text2[p..|text2| - s])
  {
    hide CommonPrefixOf, CommonSuffixOf, Trimmed;
    NoSharedHead(text1, text2, p);
    NoSharedTail(text1[p..], text2[p..], s);
    SharedTail(text1, text2, p, s);
    TrimmedEnds(text1, text2, p, s);
    Reassemble(text1, p, s);
    Reassemble(text2, p, s);
  }

  lemma Reassemble(text: Text, p: nat, s: nat)
    requires p + s <= |text|
    ensures text == text[..p] + text[p..|text| - s] + text[|text| - s..]
  {
  }

  lemma SharedTail(text1: Text, text2: Text, p: nat, s: nat)
    requires p + s <= |text1| && p + s <= |text2| && CommonSuffixOf(text1[p..], text2[p..], s)
    ensures text1[|text1| - s..] == text2[|text2| - s..]
  {
    assert text1[p..][|text1| - p - s..] == text1[|text1| - s..];
    assert text2[p..][|text2| - p - s..] == text2[|text2| - s..];
  }

  lemma TrimmedEnds(text1: Text, text2: Text, p: nat, s: nat)
    requires p + s <= |text1| && p + s <= |text2|
    requires p < |text1| && p < |text2| ==> text1[p] != text2[p]
    requires p + s < |text1| && p + s < |text2| ==> text1[p..][|text1| - p - s - 1] != text2[p..][|text2| - p - s - 1]
    ensures Trimmed(text1[p..|text1| - s], text2[p..|text2| - s])
  {
  }

  /** The old and new texts of the result are the texts given. */
  method DiffMain(text1: Text, text2: Text, checklines: bool, unlimited: bool, score: (Text, Text) -> int)
    returns (r: Result<seq<Diff>>)
    ensures r.Ok? ==> Describes(r.value, text1, text2) && Merged(r.value)
    ensures r.Thrown? <==> Throws(text1, text2, checklines, unlimited)
    ensures r.Ok? ==>
              var (mid1, mid2) := Middle(text1, text2);
              EditSize(r.value) <= |mid1| + |mid2| && Thrifty(r.value, mid1, mid2, unlimited)
    ensures r.Ok? && unlimited ==> (EditSize(r.value) < |text1| + |text2| <==> BisectSearch.ShareUnit(text1, text2))
    ensures r.Ok? && !checklines ==> NoneEmpty(r.value)
    decreases checklines, |text1| + |text2|, 4
  {
    hide Text1, Text2, CommonPrefixOf, CommonSuffixOf, PrefixAtMost, SuffixAtMost, Trimmed, Merged, Middle,
         MiddleThrows, EditSize, Thrifty, BisectSearch.ShareUnit, NoneEmpty;
    if text1 == text2 {
      DescribesEqual(text1);
      EqualNeverThrows(text1, unlimited);
      ThriftyEqual(text1, unlimited);
      EqualShares(text1);
      return Ok(if text1 != [] then [Diff(Equal, text1)] else []);
    }
    var p := CommonPrefix(text1, text2);
    PrefixLengths(text1, text2, p);
    var s := CommonSuffix(text1[p..], text2[p..]);
    TrimTexts(text1, text2, p, s);
    MiddleIs(text1, text2, p, s);
    var commonprefix, commonsuffix := text1[..p], text1[|text1| - s..];
    var mid1, mid2 := text1[p..|text1| - s], text2[p..|text2| - s];
    var c := DiffCompute(mid1, mid2, checklines, unlimited, score);
    if c.Thrown? {
      return Thrown;
    }
    // What was trimmed goes back around the middle.
    var diffs := new DiffList(WithEnds(commonprefix, c.value, commonsuffix));
    DescribesEnds(commonprefix, c.value, commonsuffix, mid1, mid2);
    EndsSize(commonprefix, c.value, commonsuffix);
    ghost var whole := diffs.items;
    DiffCleanupMerge(diffs);
    MiddleThrifty(text1, text2, p, s, c.value, whole, diffs.items, unlimited);
    r := Ok(diffs.items);
  }

  lemma MiddleThrifty(text1: Text, text2: Text, p: nat, s: nat, ds: seq<Diff>, whole: seq<Diff>, cleaned: seq<Diff>,
                      unlimited: bool)
    requires p + s <= |text1| && p + s <= |text2|
    requires var mid1, mid2 := text1[p..|text1| - s], text2[p..|text2| - s];
             Describes(ds, mid1, mid2) && Thrifty(ds, mid1, mid2, unlimited)
    requires whole == WithEnds(text1[..p], ds, text1[|text1| - s..]) && EditSize(cleaned) <= EditSize(whole)
    requires Describes(cleaned, text1, text2)
    ensures var mid1, mid2 := text1[p..|text1| - s], text2[p..|text2| - s];
            EditSize(cleaned) <= |mid1| + |mid2| && Thrifty(cleaned, mid1, mid2, unlimited)
    ensures unlimited ==> (EditSize(cleaned) < |text1| + |text2| <==> BisectSearch.ShareUnit(text1, text2))
  {
    hide Text1, Text2, EditSize, Thrifty, BisectSearch.ShareUnit;
    var mid1, mid2 := text1[p..|text1| - s], text2[p..|text2| - s];
    EndsSize(text1[..p], ds, text1[|text1| - s..]);
    StillThrifty(ds, mid1, mid2, unlimited, cleaned, text1, text2);
    if unlimited {
      assert p + s == 0 ==> mid1 == text1 && mid2 == text2;
      UnlimitedExact(cleaned, text1, text2, mid1, mid2);
    }
  }

  lemma EndsSize(prefix: Text, ds: seq<Diff>, suffix: Text)
    ensures EditSize(WithEnds(prefix, ds, suffix)) == EditSize(ds)
    ensures NoneEmpty(ds) ==> NoneEmpty(WithEnds(prefix, ds, suffix))
  {
    hide Text1, Text2, EditSize;
    NoEntries();
    TextsThree(if prefix != [] then [Diff(Equal, prefix)] else [], ds,
               if suffix != [] then [Diff(Equal, suffix)] else []);
    TextsOne(Diff(Equal, prefix));
    TextsOne(Diff(Equal, suffix));
  }

  lemma EqualShares(text: Text)
    ensures text != [] <==> BisectSearch.ShareUnit(text, text)
  {
    if text != [] {
      assert Bisect.Agree(text, text, true, 0, 0);
    }
  }

  lemma MiddleIs(text1: Text, text2: Text, p: nat, s: nat)
    requires CommonPrefixOf(text1, text2, p) && PrefixAtMost(text1, text2, p)
    requires CommonSuffixOf(text1[p..], text2[p..], s) && SuffixAtMost(text1[p..], text2[p..], s)
    ensures p + s <= |text1| && p + s <= |text2|
    ensures Middle(text1, text2) == (text1[p..|text1| - s], text2[p..|text2| - s])
  {
    LongestPrefixIs(text1, text2, p);
    LongestSuffixIs(text1[p..], text2[p..], s);
  }

  lemma EqualNeverThrows(text: Text, unlimited: bool)
    ensures Middle(text, text) == ([], []) && !MiddleThrows([], [], unlimited)
  {
    assert CommonPrefixOf(text, text, |text|);
    LongestPrefixIs(text, text, |text|);
    assert text[|text|..] == [];
  }

  function WithEnds(prefix: Text, ds: seq<Diff>, suffix: Text): seq<Diff>
  {
    (if prefix != [] then [Diff(Equal, prefix)] else []) + ds + (if suffix != [] then [Diff(Equal, suffix)] else [])
  }

  lemma DescribesEnds(prefix: Text, ds: seq<Diff>, suffix: Text, mid1: Text, mid2: Text)
    requires Describes(ds, mid1, mid2)
    ensures Describes(WithEnds(prefix, ds, suffix), prefix + mid1 + suffix, prefix + mid2 + suffix)
  {
    TextsThree(if prefix != [] then [Diff(Equal, prefix)] else [], ds,
               if suffix != [] then [Diff(Equal, suffix)] else []);
    MaybeOne(Diff(Equal, prefix));
    MaybeOne(Diff(Equal, suffix));
  }

  lemma DescribesEqual(text: Text)
    ensures var ds := if text != [] then [Diff(Equal, text)] else []; Describes(ds, text, text) && Merged(ds)
  {
    TextsOne(Diff(Equal, text));
  }

  lemma PrefixLengths(a: Text, b: Text, n: nat)
    requires CommonPrefixOf(a, b, n)
    ensures n <= |a| && n <= |b|
  {
  }

  method DiffCompute(text1: Text, text2: Text, checklines: bool, unlimited: bool, score: (Text, Text) -> int)
    returns (r: Result<seq<Diff>>)
    requires Trimmed(text1, text2)
    ensures r.Ok? ==> Describes(r.value, text1, text2) && Thrifty(r.value, text1, text2, unlimited)
    ensures r.Ok? && !checklines && (text1 != [] || text2 != []) ==> NoneEmpty(r.value)
    ensures r.Thrown? <==> checklines && MiddleThrows(text1, text2, unlimited)
    decreases checklines, |text1| + |text2|, 3
  {
    hide Describes, OneInside, HidesLookup, HalfMatch.ShareHalf, EditSize, Thrifty, BisectSearch.ShareUnit,
         LineSteps.Lead, HalfMatch.ChosenHalf, Merged, Middle;
    if text1 == [] {
      // Everything is new.
      DescribesOne(Insert, text2);
      ThriftyOne(Insert, text2, text1, text2, unlimited);
      return Ok([Diff(Insert, text2)]);
    }
    if text2 == [] {
      // Everything is gone.
      DescribesOne(Delete, text1);
      ThriftyOne(Delete, text1, text1, text2, unlimited);
      return Ok([Diff(Delete, text1)]);
    }
    var longtext := if |text1| > |text2| then text1 else text2;
    var shorttext := if |text1| > |text2| then text2 else text1;
    var i := IndexOf(longtext, shorttext, 0);
    Inside(text1, text2, longtext, shorttext, i);
    if i != -1 {
      // The longer text is the shorter one with something around it.
      var op := if |text1| > |text2| then Delete else Insert;
      DescribesInside(op, text1, text2, longtext, shorttext, i);
      ThriftyInside(op, text1, text2, longtext, shorttext, i, unlimited);
      return Ok([Diff(op, longtext[..i]), Diff(Equal, shorttext), Diff(op, longtext[i + |shorttext|..])]);
    }
    if |shorttext| == 1 {
      // A single unit that does not occur in the other text.
      SingleNeverThrows(text1, text2, unlimited);
      ThriftySingle(text1, text2, unlimited);
      DescribesReplacement(text1, text2);
      return Ok([Diff(Delete, text1), Diff(Insert, text2)]);
    }
    var hm := HalfMatch.DiffHalfMatch(text1, text2, unlimited);
    if hm.Some? {
      r := DiffHalves(text1, text2, hm.value, checklines, unlimited, score);
      if r.Ok? {
        ThriftyHalves(r.value, text1, text2, unlimited);
      }
      return;
    }
    if checklines && |text1| > 100 && |text2| > 100 {
      ghost var steps;
      r, steps := DiffLineMode(text1, text2, unlimited, score);
      if r.Ok? {
        ThriftyRest(r.value, text1, text2, unlimited);
      }
      return;
    }
    r := DiffBisect(text1, text2, unlimited, score);
    ThriftyRest(r.value, text1, text2, unlimited);
  }

  lemma Inside(text1: Text, text2: Text, long: Text, short: Text, i: int)
    requires if |text1| > |text2| then long == text1 && short == text2 else long == text2 && short == text1
    requires i == -1 || (i >= 0 && OccursAt(short, long, i))
    requires forall j :: 0 <= j && (i == -1 || j < i) ==> !OccursAt(short, long, j)
    ensures OneInside(text1, text2) <==> i != -1
  {
    if i != -1 {
      assert Contains(long, short);
    }
  }

  lemma SingleNeverThrows(text1: Text, text2: Text, unlimited: bool)
    requires |text1| == 1 || |text2| == 1
    ensures !MiddleThrows(text1, text2, unlimited)
  {
  }

  /**
   How few edits a diff of two trimmed texts has. When one text holds the other, as few as any diff; around a
   half-match all but the match; and with an unlimited timeout, fewer than all units if the texts share one.
   */
  ghost predicate Thrifty(ds: seq<Diff>, text1: Text, text2: Text, unlimited: bool)
  {
    && (OneInside(text1, text2) ==> EditSize(ds) == Max(|text1| - |text2|, |text2| - |text1|))
    && (!OneInside(text1, text2) && HalfMatch.ChosenHalf(text1, text2, unlimited).Some? ==>
          EditSize(ds) + 2 * |HalfMatch.ChosenHalf(text1, text2, unlimited).value.common| <= |text1| + |text2|)
    && (unlimited && BisectSearch.ShareUnit(text1, text2) ==> EditSize(ds) < |text1| + |text2|)
  }

  /** The clean-up after the middle leaves no more edits than there were, and no diff has fewer than Thrifty asks. */
  lemma StillThrifty(ds: seq<Diff>, mid1: Text, mid2: Text, unlimited: bool, cleaned: seq<Diff>, text1: Text,
                     text2: Text)
    requires Describes(ds, mid1, mid2) && Thrifty(ds, mid1, mid2, unlimited) && EditSize(cleaned) <= EditSize(ds)
    requires Describes(cleaned, text1, text2) && |text1| - |text2| == |mid1| - |mid2|
    ensures Thrifty(cleaned, mid1, mid2, unlimited) && EditSize(cleaned) <= |mid1| + |mid2|
  {
    hide Text1, Text2, EditSize, OneInside, HalfMatch.ChosenHalf, BisectSearch.ShareUnit;
    EditBounds(cleaned);
    EditBounds(ds);
  }

  lemma ThriftyEqual(text: Text, unlimited: bool)
    ensures var ds := if text != [] then [Diff(Equal, text)] else [];
            Thrifty(ds, [], [], unlimited) && EditSize(ds) == 0 && NoneEmpty(ds)
  {
    TextsOne(Diff(Equal, text));
  }

  lemma ThriftyOne(op: Op, text: Text, text1: Text, text2: Text, unlimited: bool)
    requires !op.Equal? && (if op.Insert? then text1 == [] && text2 == text else text1 == text && text2 == [])
    ensures Thrifty([Diff(op, text)], text1, text2, unlimited)
  {
    TextsOne(Diff(op, text));
    assert OccursAt([], text, 0);
  }

  lemma ThriftyInside(op: Op, text1: Text, text2: Text, long: Text, short: Text, i: nat, unlimited: bool)
    requires OccursAt(short, long, i) && !op.Equal? && short != []
    requires if op.Insert? then text1 == short && text2 == long else text1 == long && text2 == short
    requires OneInside(text1, text2) && Trimmed(text1, text2)
    ensures var ds := [Diff(op, long[..i]), Diff(Equal, short), Diff(op, long[i + |short|..])];
            Thrifty(ds, text1, text2, unlimited) && NoneEmpty(ds)
  {
    hide OneInside, BisectSearch.ShareUnit, HalfMatch.ChosenHalf, EditSize;
    ThreeSizes(op, long[..i], short, long[i + |short|..]);
    OffEnds(long, short, i);
  }

  lemma ThreeSizes(op: Op, a: Text, short: Text, b: Text)
    requires !op.Equal?
    ensures EditSize([Diff(op, a), Diff(Equal, short), Diff(op, b)]) == |a| + |b|
  {
    TextsOfThree(Diff(op, a), Diff(Equal, short), Diff(op, b));
    TextsOne(Diff(op, a));
    TextsOne(Diff(Equal, short));
    TextsOne(Diff(op, b));
  }

  /** A text inside another one with other ends does not reach its ends. */
  lemma OffEnds(long: Text, short: Text, i: nat)
    requires OccursAt(short, long, i) && short != [] && short[0] != long[0]
    requires short[|short| - 1] != long[|long| - 1]
    ensures long[..i] != [] && long[i + |short|..] != []
  {
    assert long[i..i + |short|][0] == long[i] && long[i..i + |short|][|short| - 1] == long[i + |short| - 1];
  }

  /** A single unit that the other text does not hold is not shared. */
  lemma ThriftySingle(text1: Text, text2: Text, unlimited: bool)
    requires (|text1| == 1 || |text2| == 1) && !OneInside(text1, text2) && text1 != [] && text2 != []
    ensures Thrifty([Diff(Delete, text1), Diff(Insert, text2)], text1, text2, unlimited)
  {
    hide HalfMatch.ChosenHalf, OneInside, BisectSearch.ShareUnit;
    NoHalfOfSingle(text1, text2, unlimited);
    if BisectSearch.ShareUnit(text1, text2) {
      SingleShared(text1, text2);
    }
  }

  lemma SingleShared(text1: Text, text2: Text)
    requires (|text1| == 1 || |text2| == 1) && text1 != [] && text2 != [] && BisectSearch.ShareUnit(text1, text2)
    ensures OneInside(text1, text2)
  {
    if i, j :| Bisect.Agree(text1, text2, true, i, j) {
      if |text1| > |text2| {
        assert OccursAt(text2, text1, i);
      } else {
        assert OccursAt(text1, text2, j);
      }
    }
  }

  lemma ThriftyHalves(ds: seq<Diff>, text1: Text, text2: Text, unlimited: bool)
    requires !OneInside(text1, text2) && HalfMatch.ChosenHalf(text1, text2, unlimited).Some?
    requires var h := HalfMatch.ChosenHalf(text1, text2, unlimited).value;
             |h.common| > 0 && EditSize(ds) + 2 * |h.common| <= |text1| + |text2|
    ensures Thrifty(ds, text1, text2, unlimited)
  {
  }

  lemma ThriftyRest(ds: seq<Diff>, text1: Text, text2: Text, unlimited: bool)
    requires !OneInside(text1, text2) && HalfMatch.ChosenHalf(text1, text2, unlimited) == None
    requires unlimited && BisectSearch.ShareUnit(text1, text2) ==> EditSize(ds) < |text1| + |text2|
    ensures Thrifty(ds, text1, text2, unlimited)
  {
  }

  lemma NoHalfOfSingle(text1: Text, text2: Text, unlimited: bool)
    requires |text1| == 1 || |text2| == 1
    ensures HalfMatch.ChosenHalf(text1, text2, unlimited) == None
  {
  }

  lemma SharesBehind(a: Text, b: Text, text1: Text, text2: Text)
    requires BisectSearch.ShareUnit(text1, text2)
    ensures BisectSearch.ShareUnit(a + text1, b + text2)
  {
    var i, j :| Bisect.Agree(text1, text2, true, i, j);
    assert Bisect.Agree(a + text1, b + text2, true, i + |a|, j + |b|);
  }

  lemma SharesFirst(a: Text, text1: Text, text2: Text)
    requires a != []
    ensures BisectSearch.ShareUnit(a + text1, a + text2)
  {
    assert Bisect.Agree(a + text1, a + text2, true, 0, 0);
  }

  /** Fewer edits than units of both texts: some unit stands in an equality, and in both texts. */
  lemma {:induction false} EqualityShares(ds: seq<Diff>)
    requires EditSize(ds) < |Text1(ds)| + |Text2(ds)|
    ensures BisectSearch.ShareUnit(Text1(ds), Text2(ds))
  {
    hide Text1, Text2, EditSize, BisectSearch.ShareUnit;
    NoEntries();
    FirstEntry(ds);
    if ds[0].op.Equal? && ds[0].text != [] {
      SharesFirst(ds[0].text, Text1(ds[1..]), Text2(ds[1..]));
    } else {
      EqualityShares(ds[1..]);
      SharesBehind(Part1(ds[0]), Part2(ds[0]), Text1(ds[1..]), Text2(ds[1..]));
    }
  }

  /** With an unlimited timeout, exactly the texts that share a unit have a diff with fewer edits than units. */
  lemma UnlimitedExact(ds: seq<Diff>, text1: Text, text2: Text, mid1: Text, mid2: Text)
    requires Describes(ds, text1, text2) && Thrifty(ds, mid1, mid2, true)
    requires (mid1 == text1 && mid2 == text2)
             || (|mid1| + |mid2| < |text1| + |text2| && EditSize(ds) <= |mid1| + |mid2|)
    ensures EditSize(ds) < |text1| + |text2| <==> BisectSearch.ShareUnit(text1, text2)
  {
    hide Text1, Text2, EditSize, BisectSearch.ShareUnit, OneInside, HalfMatch.ChosenHalf;
    if EditSize(ds) < |text1| + |text2| {
      EqualityShares(ds);
    }
  }

  /** The two sides of a half-match are diffed apart. */
  method DiffHalves(text1: Text, text2: Text, h: HalfMatch.Half, checklines: bool, unlimited: bool,
                    score: (Text, Text) -> int)
    returns (r: Result<seq<Diff>>)
    requires h.Of(text1, text2) && |h.common| > 0
    ensures r.Ok? ==> Describes(r.value, text1, text2) && EditSize(r.value) + 2 * |h.common| <= |text1| + |text2|
    ensures r.Ok? && !checklines ==> NoneEmpty(r.value)
    ensures r.Thrown? <==>
            Throws(h.text1a, h.text2a, checklines, unlimited) || Throws(h.text1b, h.text2b, checklines, unlimited)
    decreases checklines, |text1| + |text2|, 0
  {
    hide Describes, Throws, EditSize, Thrifty, BisectSearch.ShareUnit, Middle, Merged, NoneEmpty;
    var diffs_a := DiffMain(h.text1a, h.text2a, checklines, unlimited, score);
    if diffs_a.Thrown? {
      return Thrown;
    }
    var diffs_b := DiffMain(h.text1b, h.text2b, checklines, unlimited, score);
    if diffs_b.Thrown? {
      return Thrown;
    }
    DescribesOne(Equal, h.common);
    MiddleSmaller(h.text1a, h.text2a);
    MiddleSmaller(h.text1b, h.text2b);
    HalvesSize(diffs_a.value, h, diffs_b.value, text1, text2);
    DescribesAppend(diffs_a.value, [Diff(Equal, h.common)], h.text1a, h.text2a, h.common, h.common);
    DescribesAppend(diffs_a.value + [Diff(Equal, h.common)], diffs_b.value,
                    h.text1a + h.common, h.text2a + h.common, h.text1b, h.text2b);
    r := Ok(diffs_a.value + [Diff(Equal, h.common)] + diffs_b.value);
  }

  lemma HalvesSize(a: seq<Diff>, h: HalfMatch.Half, b: seq<Diff>, text1: Text, text2: Text)
    requires h.Of(text1, text2) && |h.common| > 0
    requires EditSize(a) <= |h.text1a| + |h.text2a| && EditSize(b) <= |h.text1b| + |h.text2b|
    ensures EditSize(a + [Diff(Equal, h.common)] + b) + 2 * |h.common| <= |text1| + |text2|
    ensures NoneEmpty(a) && NoneEmpty(b) ==> NoneEmpty(a + [Diff(Equal, h.common)] + b)
  {
    hide EditSize, Text1, Text2;
    TextsThree(a, [Diff(Equal, h.common)], b);
    TextsOne(Diff(Equal, h.common));
  }

  lemma MiddleSmaller(text1: Text, text2: Text)
    ensures var (mid1, mid2) := Middle(text1, text2); |mid1| + |mid2| <= |text1| + |text2|
  {
  }

  /** Where a forward and a reverse path meet the problem falls into two parts, which are diffed apart. */
  method DiffBisect(text1: Text, text2: Text, unlimited: bool, score: (Text, Text) -> int)
    returns (r: Result<seq<Diff>>)
    requires |text1| >= 2 && |text2| >= 2 && Trimmed(text1, text2)
    ensures r.Ok? && Describes(r.value, text1, text2) && NoneEmpty(r.value)
    ensures unlimited && BisectSearch.ShareUnit(text1, text2) ==> EditSize(r.value) < |text1| + |text2|
    ensures !BisectSearch.ShareUnit(text1, text2) ==> r.value == [Diff(Delete, text1), Diff(Insert, text2)]
    decreases false, |text1| + |text2|, 2
  {
    hide Describes, BisectSearch.ShareUnit, BisectSearch.HalvesShare, EditSize;
    var split := BisectSearch.FindSplit(text1, text2, unlimited);
    if split.Some? {
      r := DiffBisectSplit(text1, text2, split.value.0, split.value.1, unlimited, score);
      return;
    }
    // No meeting point: the clock has run out, or the texts share no unit.
    DescribesReplacement(text1, text2);
    r := Ok([Diff(Delete, text1), Diff(Insert, text2)]);
  }

  lemma SplitText(text: Text, x: int)
    ensures Substring(text, 0, x) + SubstringFrom(text, x) == text
    ensures |Substring(text, 0, x)| == Clamp(x, |text|) && |SubstringFrom(text, x)| == |text| - Clamp(x, |text|)
  {
  }

  lemma SplitSize(a: seq<Diff>, b: seq<Diff>)
    ensures EditSize(a + b) == EditSize(a) + EditSize(b)
    ensures NoneEmpty(a) && NoneEmpty(b) ==> NoneEmpty(a + b)
  {
    hide Text1, Text2, EditSize;
    TextsAppend(a, b);
  }

  method DiffBisectSplit(text1: Text, text2: Text, x: int, y: int, unlimited: bool, score: (Text, Text) -> int)
    returns (r: Result<seq<Diff>>)
    requires |text1| >= 2 && |text2| >= 2 && BisectOverlap.Splits(Bisect.Grid(|text1|, |text2|), x, y)
    ensures r.Ok? && Describes(r.value, text1, text2) && NoneEmpty(r.value)
    ensures unlimited && BisectSearch.HalvesShare(text1, text2, x, y) ==> EditSize(r.value) < |text1| + |text2|
    decreases false, |text1| + |text2|, 1
  {
    hide Describes, Substring, SubstringFrom, MiddleThrows, Merged, EditSize, Thrifty, BisectSearch.ShareUnit, Middle,
         NoneEmpty;
    SplitText(text1, x);
    SplitText(text2, y);
    var text1a, text2a := Substring(text1, 0, x), Substring(text2, 0, y);
    var text1b, text2b := SubstringFrom(text1, x), SubstringFrom(text2, y);
    var diffs := DiffMain(text1a, text2a, false, unlimited, score);
    var diffsb := DiffMain(text1b, text2b, false, unlimited, score);
    MiddleSmaller(text1a, text2a);
    MiddleSmaller(text1b, text2b);
    SplitSize(diffs.value, diffsb.value);
    DescribesAppend(diffs.value, diffsb.value, text1a, text2a, text1b, text2b);
    r := Ok(diffs.value + diffsb.value);
  }

  // ---------------------------------------------------------------------------------------
  // Line mode.

  /**
   The steps of line mode: a diff of the line codes, the lines put back, and the list before the last pass with how
   the semantic clean-up came to it.
   */
  datatype LineSteps = LineSteps(
    lineArray: seq<Text>, cuts1: seq<nat>, cuts2: seq<nat>, full: bool, chars: seq<Diff>, lines: seq<Diff>,
    changes: bool, states: seq<seq<Diff>>, at: seq<nat>, merged: seq<Diff>, cleaned: seq<Diff>, pieces: seq<Piece>)
  {
    ghost predicate Lead(text1: Text, text2: Text, unlimited: bool, score: (Text, Text) -> int, result: seq<Diff>)
    {
      && LineByLine(text1, |text1|, Text1(chars), lineArray, cuts1, full)
      && LineByLine(text2, |text2|, Text2(chars), lineArray, cuts2, |lineArray| == MAX_LINES_2 + 1)
      && OneCodeEach(lineArray) && Merged(chars)
      && (var (mid1, mid2) := Middle(Text1(chars), Text2(chars)); Thrifty(chars, mid1, mid2, unlimited))
      && Rehydrated(chars, lines, lineArray) && Cleaned(score, lines, changes, states, at, merged, cleaned)
      && Pieces(pieces, unlimited) && Befores(pieces) == cleaned + [Diff(Equal, [])]
      && Afters(pieces) == result + [Diff(Equal, [])]
    }
  }

  /** What line mode works on: whole lines, ready for a character-level diff of what was replaced. */
  method DiffLineMode(text1: Text, text2: Text, unlimited: bool, score: (Text, Text) -> int)
    returns (r: Result<seq<Diff>>, ghost steps: LineSteps)
    requires text2 != []
    ensures r.Ok? ==> Describes(r.value, text1, text2)
    ensures r.Ok? ==> steps.Lead(text1, text2, unlimited, score, r.value)
    ensures r.Ok? && unlimited && BisectSearch.ShareUnit(text1, text2) ==> EditSize(r.value) < |text1| + |text2|
    ensures r.Thrown? <==> HidesLookup(text1)
    decreases true, |text1| + |text2|, 0
  {
    hide Text1, Text2, Codes, Decode, HidesLookup, NoBlankPair, Merged, EditSize, Thrifty, BisectSearch.ShareUnit,
         NoneEmpty, FullEqualities, Cleaned, LineByLine, OneCodeEach, Middle, Pieces, Befores, Afters;
    var a;
    ghost var cuts1, cuts2, full;
    a, cuts1, cuts2, full := LinesToChars(text1, text2);
    if a.Thrown? {
      steps := LineSteps([], [], [], false, [], [], false, [], [], [], [], []);
      return Thrown, steps;
    }
    var (chars1, chars2, linearray) := a.value;
    var d := DiffMain(chars1, chars2, false, unlimited, score);
    var diffs := new DiffList(d.value);
    // Codes become lines again.
    MergedHasNoBlankPair(diffs.items);
    ghost var ds := diffs.items;
    CharsToLines(diffs, linearray);
    RehydratedTexts(ds, diffs.items, linearray);
    RehydratedNoBlankPair(ds, diffs.items, linearray);
    RehydratedNoneEmpty(ds, diffs.items, linearray);
    NoPairEnds(score, diffs.items, 1);
    ghost var lines := diffs.items;
    var ended;
    ghost var changes, states, at, merged;
    ended, changes, states, at, merged := DiffCleanupSemantic(diffs, score);
    ghost var cleaned := diffs.items;
    ghost var pieces := Rediff(diffs, unlimited, score);
    steps := LineSteps(linearray, cuts1, cuts2, full, ds, lines, changes, states, at, merged, cleaned, pieces);
    LinesThrifty(cleaned, diffs.items, unlimited);
    RediffedTexts(cleaned, diffs.items, text1, text2, unlimited);
    r := Ok(diffs.items);
  }

  lemma RehydratedNoBlankPair(ds: seq<Diff>, lines: seq<Diff>, lineArray: seq<Text>)
    requires Rehydrated(ds, lines, lineArray) && NoBlankPair(ds)
    ensures NoBlankPair(lines)
  {
    forall i | 0 < i < |lines| - 1
      ensures !BlankPair(lines[i - 1], lines[i], lines[i + 1])
    {
      assert !BlankPair(ds[i - 1], ds[i], ds[i + 1]);
      assert lines[i].op == ds[i].op && lines[i - 1].op == ds[i - 1].op && lines[i + 1].op == ds[i + 1].op;
      assert lines[i].text == [] ==> ds[i].text == [];
      assert lines[i + 1].text == [] ==> ds[i + 1].text == [];
    }
  }

  lemma RehydratedNoneEmpty(ds: seq<Diff>, lines: seq<Diff>, lineArray: seq<Text>)
    requires Rehydrated(ds, lines, lineArray) && NoneEmpty(ds)
    ensures NoneEmpty(lines)
  {
    forall i | 0 <= i < |lines| ensures lines[i].text != [] {
      assert ds[i].text != [];
    }
  }

  /** A list without equalities, all of which one run takes in. */
  ghost predicate AllEdits(ds: seq<Diff>)
  {
    forall d :: d in ds ==> !d.op.Equal?
  }

  /** Where the equalities are not empty, either there are none, or they leave fewer edits than units. */
  lemma {:induction false} EditsOnly(ds: seq<Diff>)
    requires FullEqualities(ds)
    ensures AllEdits(ds) || EditSize(ds) < |Text1(ds)| + |Text2(ds)|
  {
    if ds != [] {
      FirstEntry(ds);
      EditsOnly(ds[1..]);
      SizesAdd(ds[1..]);
      assert ds == [ds[0]] + ds[1..];
      assert !(ds[0].op.Equal? && ds[0].text == []);
    }
  }

  /** What the rediff pass of a list without equalities owes at its end. */
  ghost predicate Rediffed(before: seq<Diff>, ds: seq<Diff>, unlimited: bool)
  {
    unlimited && BisectSearch.ShareUnit(Text1(before), Text2(before)) ==>
      EditSize(ds) < |Text1(before)| + |Text2(before)|
  }

  /** The state of the rediff pass of a list without equalities: one run so far, or done. */
  ghost predicate OneRun(before: seq<Diff>, ds: seq<Diff>, p: nat, count: nat, unlimited: bool)
  {
    AllEdits(before) ==>
      if p < |ds| then ds == before + [Diff(Equal, [])] && count == p else Rediffed(before, ds, unlimited)
  }

  lemma OneRunEdit(before: seq<Diff>, ds: seq<Diff>, p: nat, count: nat, unlimited: bool)
    requires OneRun(before, ds, p, count, unlimited) && p < |ds| && !ds[p].op.Equal?
    requires ds[|ds| - 1] == Diff(Equal, [])
    ensures OneRun(before, ds, p + 1, count + 1, unlimited)
  {
  }

  lemma LastEqual(before: seq<Diff>, ds: seq<Diff>, p: nat, cd: nat, ci: nat, td: Text, ti: Text, unlimited: bool)
    requires Rediffing(before, ds, p, cd, ci, td, ti) && OneRun(before, ds, p, cd + ci, unlimited)
    requires p < |ds| && ds[p].op.Equal? && AllEdits(before)
    ensures p == cd + ci == |before| && ds == before + [Diff(Equal, [])] && ds[..p] == before
    ensures td == Text1(before) && ti == Text2(before)
  {
    hide Text1, Text2, EditSize;
    forall k: nat | k < |before| ensures !ds[k].op.Equal? {
      assert before[k] in before;
    }
    assert ds[0..p] == before;
  }

  /** The only run gives way to its own diff. */
  lemma OneRunEnds(before: seq<Diff>, ds: seq<Diff>, p: nat, cd: nat, ci: nat, td: Text, ti: Text, sub: seq<Diff>,
                   unlimited: bool)
    requires Rediffing(before, ds, p, cd, ci, td, ti) && OneRun(before, ds, p, cd + ci, unlimited)
    requires p < |ds| && ds[p].op.Equal?
    requires unlimited ==> (EditSize(sub) < |td| + |ti| <==> BisectSearch.ShareUnit(td, ti))
    ensures OneRun(before, Splice(ds, p - cd - ci, cd + ci, sub), p - cd - ci + |sub| + 1, 0, unlimited)
  {
    hide Text1, Text2, EditSize, BisectSearch.ShareUnit, Splice, Run, AllEdits;
    if AllEdits(before) {
      LastEqual(before, ds, p, cd, ci, td, ti, unlimited);
      OnlyRun(before, ds, sub);
      DropEmpty(sub, Diff(Equal, []));
    }
  }

  lemma OnlyRun(before: seq<Diff>, ds: seq<Diff>, sub: seq<Diff>)
    requires ds == before + [Diff(Equal, [])]
    ensures Splice(ds, 0, |before|, sub) == sub + [Diff(Equal, [])]
  {
  }

  /** One of the texts of the only run is empty: nothing is shared. */
  lemma OneKindEnds(before: seq<Diff>, ds: seq<Diff>, p: nat, cd: nat, ci: nat, td: Text, ti: Text, unlimited: bool)
    requires Rediffing(before, ds, p, cd, ci, td, ti) && OneRun(before, ds, p, cd + ci, unlimited)
    requires p < |ds| && ds[p].op.Equal? && (cd == 0 || ci == 0)
    ensures OneRun(before, ds, p + 1, 0, unlimited)
  {
    hide Text1, Text2, EditSize;
    if AllEdits(before) {
      LastEqual(before, ds, p, cd, ci, td, ti, unlimited);
    }
  }

  lemma OneRunStarts(before: seq<Diff>, unlimited: bool)
    ensures OneRun(before, before + [Diff(Equal, [])], 0, 0, unlimited)
  {
  }

  lemma RunDone(before: seq<Diff>, ds: seq<Diff>, count: nat, unlimited: bool)
    requires ds != [] && ds[|ds| - 1] == Diff(Equal, []) && OneRun(before, ds, |ds|, count, unlimited)
    ensures AllEdits(before) ==> Rediffed(before, ds[..|ds| - 1], unlimited)
  {
    hide Text1, Text2, EditSize, BisectSearch.ShareUnit, AllEdits;
    DropEmpty(ds[..|ds| - 1], Diff(Equal, []));
    assert ds == ds[..|ds| - 1] + [Diff(Equal, [])];
  }

  lemma RediffedTexts(lines: seq<Diff>, ds: seq<Diff>, text1: Text, text2: Text, unlimited: bool)
    requires Rediffed(lines, ds, unlimited) && Text1(lines) == text1 && Text2(lines) == text2
    ensures unlimited && BisectSearch.ShareUnit(text1, text2) ==> EditSize(ds) < |text1| + |text2|
  {
  }

  lemma LinesThrifty(lines: seq<Diff>, ds: seq<Diff>, unlimited: bool)
    requires FullEqualities(lines) && EditSize(ds) <= EditSize(lines)
    requires AllEdits(lines) ==> Rediffed(lines, ds, unlimited)
    ensures Rediffed(lines, ds, unlimited)
  {
    hide Text1, Text2, EditSize, BisectSearch.ShareUnit, AllEdits, FullEqualities;
    EditsOnly(lines);
  }

  /** The state of the rediff pass: a run of edits is open before the cursor. */
  ghost predicate Rediffing(before: seq<Diff>, ds: seq<Diff>, p: nat, cd: nat, ci: nat, td: Text, ti: Text)
  {
    && cd + ci <= p <= |ds| && |ds| > 0 && ds[|ds| - 1] == Diff(Equal, [])
    && Run(ds[p - cd - ci..p], cd, ci, td, ti)
    && SameTexts(ds, before) && EditSize(ds) <= EditSize(before)
  }

  lemma RediffEdit(before: seq<Diff>, ds: seq<Diff>, p: nat, cd: nat, ci: nat, td: Text, ti: Text)
    requires Rediffing(before, ds, p, cd, ci, td, ti) && p < |ds| && !ds[p].op.Equal?
    ensures ds[p].op.Insert? ==> Rediffing(before, ds, p + 1, cd, ci + 1, td, ti + ds[p].text)
    ensures ds[p].op.Delete? ==> Rediffing(before, ds, p + 1, cd + 1, ci, td + ds[p].text, ti)
  {
    hide Text1, Text2, EditSize, Run;
    RunGrows(ds[p - cd - ci..p], cd, ci, td, ti, ds[p]);
    assert ds[p - cd - ci..p] + [ds[p]] == ds[p - cd - ci..p + 1];
  }

  lemma RediffRun(before: seq<Diff>, ds: seq<Diff>, p: nat, cd: nat, ci: nat, td: Text, ti: Text, sub: seq<Diff>)
    requires Rediffing(before, ds, p, cd, ci, td, ti) && p < |ds| && Describes(sub, td, ti)
    ensures var ds' := Splice(ds, p - cd - ci, cd + ci, sub);
            var p' := p - cd - ci + |sub|;
            |ds'| - p' == |ds| - p && Rediffing(before, ds', p' + 1, 0, 0, [], [])
  {
    hide Text1, Text2, EditSize;
    SpliceKeeps(ds, p - cd - ci, cd + ci, sub);
    EditBounds(sub);
    var ds' := Splice(ds, p - cd - ci, cd + ci, sub);
    EmptyRun(ds', p - cd - ci + |sub| + 1);
    assert ds[p - cd - ci..p - cd - ci + (cd + ci)] == ds[p - cd - ci..p];
  }

  // ---------------------------------------------------------------------------------------
  // What becomes of the list in the rediff pass, piece by piece.

  /** An equality, or the edits between two equalities, and what it becomes. */
  datatype Piece = Piece(before: seq<Diff>, after: seq<Diff>) {
    /** Edits of both kinds give way to a diff of their own; all else stays. */
    ghost predicate Right(unlimited: bool)
    {
      if AllEdits(before) && Holds(before, Delete) && Holds(before, Insert) then
        && Describes(after, Text1(before), Text2(before)) && Merged(after)
        && var (mid1, mid2) := Middle(Text1(before), Text2(before)); Thrifty(after, mid1, mid2, unlimited)
      else after == before && (AllEdits(before) || |before| == 1)
    }
  }

  function Befores(pieces: seq<Piece>): seq<Diff>
  {
    if pieces == [] then [] else Befores(pieces[..|pieces| - 1]) + pieces[|pieces| - 1].before
  }

  function Afters(pieces: seq<Piece>): seq<Diff>
  {
    if pieces == [] then [] else Afters(pieces[..|pieces| - 1]) + pieces[|pieces| - 1].after
  }

  /** Runs of edits and equalities take turns. */
  ghost predicate Pieces(pieces: seq<Piece>, unlimited: bool)
  {
    && |pieces| % 2 == 0
    && forall i {:trigger pieces[i]} :: 0 <= i < |pieces| ==>
         pieces[i].Right(unlimited) && (AllEdits(pieces[i].before) <==> i % 2 == 0)
  }

  /** The list so far: the pieces done, the open run of `count` edits, and what is still to come. */
  ghost predicate Pieced(before: seq<Diff>, ds: seq<Diff>, p: nat, count: nat, pieces: seq<Piece>, unlimited: bool)
  {
    && Pieces(pieces, unlimited) && count <= p <= |ds|
    && ds[..p - count] == Afters(pieces) && before == Befores(pieces) + ds[p - count..]
  }

  lemma PiecesStart(before: seq<Diff>, unlimited: bool)
    ensures Pieced(before, before, 0, 0, [], unlimited)
  {
  }

  lemma PiecedEdit(before: seq<Diff>, ds: seq<Diff>, p: nat, count: nat, pieces: seq<Piece>, unlimited: bool)
    requires Pieced(before, ds, p, count, pieces, unlimited) && p < |ds|
    ensures Pieced(before, ds, p + 1, count + 1, pieces, unlimited)
  {
  }

  lemma TwoMore(pieces: seq<Piece>, x: Piece, y: Piece, unlimited: bool)
    requires Pieces(pieces, unlimited) && x.Right(unlimited) && y.Right(unlimited)
    requires AllEdits(x.before) && !AllEdits(y.before)
    ensures Pieces(pieces + [x, y], unlimited)
    ensures Befores(pieces + [x, y]) == Befores(pieces) + x.before + y.before
    ensures Afters(pieces + [x, y]) == Afters(pieces) + x.after + y.after
  {
    hide AllEdits, Piece.Right;
    var next := pieces + [x, y];
    assert next[..|next| - 1] == pieces + [x] && next[..|next| - 1][..|pieces|] == pieces;
  }

  /** The equality at the cursor closes a run, of which `sub` is left. */
  lemma PiecedEqual(before: seq<Diff>, ds: seq<Diff>, p: nat, count: nat, pieces: seq<Piece>, sub: seq<Diff>,
                    unlimited: bool)
    requires Pieced(before, ds, p, count, pieces, unlimited) && p < |ds| && ds[p].op.Equal?
    requires Piece(ds[p - count..p], sub).Right(unlimited) && AllEdits(ds[p - count..p])
    ensures var ds' := Splice(ds, p - count, count, sub);
            Pieced(before, ds', p - count + |sub| + 1, 0,
                   pieces + [Piece(ds[p - count..p], sub), Piece([ds[p]], [ds[p]])], unlimited)
  {
    hide Piece.Right, Pieces, AllEdits, Befores, Afters;
    var run, e := ds[p - count..p], [ds[p]];
    EqualityStays(ds[p], unlimited);
    TwoMore(pieces, Piece(run, sub), Piece(e, e), unlimited);
    CutAtEqual(ds, p, count, sub);
    var rest := ds[p + 1..];
    assert Befores(pieces) + (run + e + rest) == Befores(pieces) + run + e + rest;
  }

  lemma CutAtEqual(ds: seq<Diff>, p: nat, count: nat, sub: seq<Diff>)
    requires count <= p < |ds|
    ensures var ds', p' := Splice(ds, p - count, count, sub), p - count + |sub| + 1;
            p' <= |ds'| && ds'[..p'] == ds[..p - count] + sub + [ds[p]] && ds'[p'..] == ds[p + 1..]
    ensures ds[p - count..] == ds[p - count..p] + [ds[p]] + ds[p + 1..]
  {
  }

  lemma EqualityStays(d: Diff, unlimited: bool)
    requires d.op.Equal?
    ensures Piece([d], [d]).Right(unlimited) && !AllEdits([d])
  {
    assert d in [d];
  }

  lemma SameSplice(ds: seq<Diff>, start: nat, count: nat)
    requires start + count <= |ds|
    ensures Splice(ds, start, count, ds[start..start + count]) == ds
  {
  }

  lemma PiecedEnd(before: seq<Diff>, ds: seq<Diff>, pieces: seq<Piece>, unlimited: bool)
    requires Pieced(before, ds, |ds|, 0, pieces, unlimited)
    ensures Pieces(pieces, unlimited) && Befores(pieces) == before && Afters(pieces) == ds
  {
    assert ds[..|ds|] == ds && ds[|ds|..] == [];
  }

  /** The run before the cursor, as a piece. */
  lemma RunIsPiece(before: seq<Diff>, ds: seq<Diff>, p: nat, cd: nat, ci: nat, td: Text, ti: Text, sub: seq<Diff>,
                   unlimited: bool)
    requires Rediffing(before, ds, p, cd, ci, td, ti)
    requires if cd >= 1 && ci >= 1 then
               && Describes(sub, td, ti) && Merged(sub)
               && var (mid1, mid2) := Middle(td, ti); Thrifty(sub, mid1, mid2, unlimited)
             else sub == ds[p - cd - ci..p]
    ensures AllEdits(ds[p - cd - ci..p]) && Piece(ds[p - cd - ci..p], sub).Right(unlimited)
  {
    hide Text1, Text2, EditSize, Merged, Middle, Thrifty, Holds;
    assert Run(ds[p - cd - ci..p], cd, ci, td, ti);
  }

  /** All that the rediff pass knows at its cursor. */
  ghost predicate Rerunning(before: seq<Diff>, ds: seq<Diff>, p: nat, cd: nat, ci: nat, td: Text, ti: Text,
                            pieces: seq<Piece>, unlimited: bool)
  {
    && Rediffing(before, ds, p, cd, ci, td, ti) && OneRun(before, ds, p, cd + ci, unlimited)
    && Pieced(before + [Diff(Equal, [])], ds, p, cd + ci, pieces, unlimited)
  }

  lemma RerunStarts(before: seq<Diff>, unlimited: bool)
    ensures Rerunning(before, before + [Diff(Equal, [])], 0, 0, 0, [], [], [], unlimited)
  {
    hide Text1, Text2, EditSize, Run;
    DropEmpty(before, Diff(Equal, []));
    EmptyRun(before + [Diff(Equal, [])], 0);
    OneRunStarts(before, unlimited);
    PiecesStart(before + [Diff(Equal, [])], unlimited);
  }

  lemma RerunEdit(before: seq<Diff>, ds: seq<Diff>, p: nat, cd: nat, ci: nat, td: Text, ti: Text,
                  pieces: seq<Piece>, unlimited: bool)
    requires Rerunning(before, ds, p, cd, ci, td, ti, pieces, unlimited) && p < |ds| && !ds[p].op.Equal?
    ensures ds[p].op.Insert? ==>
              Rerunning(before, ds, p + 1, cd, ci + 1, td, ti + ds[p].text, pieces, unlimited)
    ensures ds[p].op.Delete? ==>
              Rerunning(before, ds, p + 1, cd + 1, ci, td + ds[p].text, ti, pieces, unlimited)
  {
    hide Rediffing, OneRun, Pieced;
    RediffingEnds(before, ds, p, cd, ci, td, ti);
    RediffEdit(before, ds, p, cd, ci, td, ti);
    OneRunEdit(before, ds, p, cd + ci, unlimited);
    PiecedEdit(before + [Diff(Equal, [])], ds, p, cd + ci, pieces, unlimited);
  }

  lemma RediffingEnds(before: seq<Diff>, ds: seq<Diff>, p: nat, cd: nat, ci: nat, td: Text, ti: Text)
    requires Rediffing(before, ds, p, cd, ci, td, ti)
    ensures cd + ci <= p <= |ds| && |ds| > 0 && ds[|ds| - 1] == Diff(Equal, [])
  {
  }

  /** The state behind an equality at which no run is open. */
  lemma RediffSkip(before: seq<Diff>, ds: seq<Diff>, p: nat, cd: nat, ci: nat, td: Text, ti: Text)
    requires Rediffing(before, ds, p, cd, ci, td, ti) && p < |ds|
    ensures Rediffing(before, ds, p + 1, 0, 0, [], [])
  {
    hide Text1, Text2, EditSize, Run;
    EmptyRun(ds, p + 1);
  }

  /** A run of both kinds gives way to its own diff. */
  lemma RerunRun(before: seq<Diff>, ds: seq<Diff>, p: nat, cd: nat, ci: nat, td: Text, ti: Text,
                 pieces: seq<Piece>, sub: seq<Diff>, unlimited: bool)
    requires Rerunning(before, ds, p, cd, ci, td, ti, pieces, unlimited) && p < |ds| && ds[p].op.Equal?
    requires cd >= 1 && ci >= 1 && Describes(sub, td, ti) && Merged(sub)
    requires var (mid1, mid2) := Middle(td, ti); Thrifty(sub, mid1, mid2, unlimited)
    requires unlimited ==> (EditSize(sub) < |td| + |ti| <==> BisectSearch.ShareUnit(td, ti))
    ensures cd + ci <= p
    ensures var ds', p' := Splice(ds, p - cd - ci, cd + ci, sub), p - cd - ci + |sub|;
            && |ds'| - p' == |ds| - p
            && Rerunning(before, ds', p' + 1, 0, 0, [], [],
                         pieces + [Piece(ds[p - cd - ci..p], sub), Piece([ds[p]], [ds[p]])], unlimited)
  {
    hide Text1, Text2, EditSize, Run, Merged, Middle, Thrifty, BisectSearch.ShareUnit, Describes, OneRun, Piece.Right,
         Pieced, Rediffing;
    RediffingEnds(before, ds, p, cd, ci, td, ti);
    RediffRun(before, ds, p, cd, ci, td, ti, sub);
    OneRunEnds(before, ds, p, cd, ci, td, ti, sub, unlimited);
    RunIsPiece(before, ds, p, cd, ci, td, ti, sub, unlimited);
    PiecedEqual(before + [Diff(Equal, [])], ds, p, cd + ci, pieces, sub, unlimited);
  }

  /** A run of one kind, or none, stays. */
  lemma RerunSkip(before: seq<Diff>, ds: seq<Diff>, p: nat, cd: nat, ci: nat, td: Text, ti: Text,
                  pieces: seq<Piece>, unlimited: bool)
    requires Rerunning(before, ds, p, cd, ci, td, ti, pieces, unlimited) && p < |ds| && ds[p].op.Equal?
    requires cd == 0 || ci == 0
    ensures cd + ci <= p
    ensures var run := ds[p - cd - ci..p];
            Rerunning(before, ds, p + 1, 0, 0, [], [], pieces + [Piece(run, run), Piece([ds[p]], [ds[p]])], unlimited)
  {
    hide Text1, Text2, EditSize, Rediffing, OneRun, Pieced, Piece.Right, Splice;
    RediffingEnds(before, ds, p, cd, ci, td, ti);
    var run := ds[p - cd - ci..p];
    RediffSkip(before, ds, p, cd, ci, td, ti);
    OneKindEnds(before, ds, p, cd, ci, td, ti, unlimited);
    RunIsPiece(before, ds, p, cd, ci, td, ti, run, unlimited);
    PiecedEqual(before + [Diff(Equal, [])], ds, p, cd + ci, pieces, run, unlimited);
    SameSplice(ds, p - cd - ci, cd + ci);
  }

  lemma RerunEnds(before: seq<Diff>, ds: seq<Diff>, cd: nat, ci: nat, td: Text, ti: Text,
                  pieces: seq<Piece>, unlimited: bool)
    requires Rerunning(before, ds, |ds|, cd, ci, td, ti, pieces, unlimited)
    ensures ds != [] && ds[|ds| - 1] == Diff(Equal, [])
    ensures Pieces(pieces, unlimited) && Befores(pieces) == before + [Diff(Equal, [])] && Afters(pieces) == ds
    ensures var r := ds[..|ds| - 1];
            && ds == r + [Diff(Equal, [])]
            && SameTexts(r, before) && EditSize(r) <= EditSize(before)
            && (AllEdits(before) ==> Rediffed(before, r, unlimited))
  {
    hide Text1, Text2, EditSize, OneRun, Rediffed, AllEdits, Pieces, Pieced;
    LastRunEmpty(before, ds, cd, ci, td, ti);
    PiecedEnd(before + [Diff(Equal, [])], ds, pieces, unlimited);
    RunDone(before, ds, cd + ci, unlimited);
    DropEmpty(ds[..|ds| - 1], Diff(Equal, []));
  }

  /** At the end of the list no run is open: its last entry is an equality. */
  lemma LastRunEmpty(before: seq<Diff>, ds: seq<Diff>, cd: nat, ci: nat, td: Text, ti: Text)
    requires Rediffing(before, ds, |ds|, cd, ci, td, ti)
    ensures cd + ci == 0
  {
    hide Run, Text1, Text2, EditSize;
    var run := ds[|ds| - cd - ci..|ds|];
    assert run == [] || run[|run| - 1] == ds[|ds| - 1];
    EditLast(run, cd, ci, td, ti);
  }

  lemma EditLast(r: seq<Diff>, cd: nat, ci: nat, td: Text, ti: Text)
    requires Run(r, cd, ci, td, ti)
    ensures r != [] ==> !r[|r| - 1].op.Equal?
  {
    assert r != [] ==> r[|r| - 1] in r;
  }

  lemma RerunBounds(before: seq<Diff>, ds: seq<Diff>, p: nat, cd: nat, ci: nat, td: Text, ti: Text,
                    pieces: seq<Piece>, unlimited: bool)
    requires Rerunning(before, ds, p, cd, ci, td, ti, pieces, unlimited)
    ensures cd + ci <= p <= |ds|
  {
  }

  /** Diffs every replacement of lines once more, by characters. */
  method Rediff(diffs: DiffList, unlimited: bool, score: (Text, Text) -> int) returns (ghost pieces: seq<Piece>)
    modifies diffs
    ensures Pieces(pieces, unlimited)
    ensures Befores(pieces) == old(diffs.items) + [Diff(Equal, [])]
    ensures Afters(pieces) == diffs.items + [Diff(Equal, [])]
    ensures SameTexts(diffs.items, old(diffs.items)) && EditSize(diffs.items) <= EditSize(old(diffs.items))
    ensures AllEdits(old(diffs.items)) ==> Rediffed(old(diffs.items), diffs.items, unlimited)
    decreases true, 0, 0
  {
    hide Text1, Text2, EditSize, Merged, AllEdits, Rediffed, Thrifty, BisectSearch.ShareUnit, NoneEmpty, Splice,
         Middle, Pieces, Befores, Afters, Rerunning;
    // An empty equality closes the last run.
    ghost var before := diffs.items;
    diffs.items := diffs.items + [Diff(Equal, [])];
    pieces := [];
    RerunStarts(before, unlimited);
    var pointer: nat, count_delete: nat, count_insert: nat := 0, 0, 0;
    var text_delete: Text, text_insert: Text := [], [];
    while pointer < |diffs.items|
      invariant pointer <= |diffs.items|
      invariant Rerunning(before, diffs.items, pointer, count_delete, count_insert, text_delete, text_insert, pieces,
                          unlimited)
      decreases |diffs.items| - pointer
    {
      ghost var ds := diffs.items;
      RerunBounds(before, ds, pointer, count_delete, count_insert, text_delete, text_insert, pieces, unlimited);
      match diffs.items[pointer].op
      case Insert =>
        RerunEdit(before, ds, pointer, count_delete, count_insert, text_delete, text_insert, pieces, unlimited);
        count_insert := count_insert + 1;
        text_insert := text_insert + diffs.items[pointer].text;
        pointer := pointer + 1;
      case Delete =>
        RerunEdit(before, ds, pointer, count_delete, count_insert, text_delete, text_insert, pieces, unlimited);
        count_delete := count_delete + 1;
        text_delete := text_delete + diffs.items[pointer].text;
        pointer := pointer + 1;
      case Equal =>
        ghost var run := ds[pointer - count_delete - count_insert..pointer];
        if count_delete >= 1 && count_insert >= 1 {
          // The run gives way to its own diff.
          var count := count_delete + count_insert;
          var subDiff := DiffMain(text_delete, text_insert, false, unlimited, score);
          RerunRun(before, ds, pointer, count_delete, count_insert, text_delete, text_insert, pieces, subDiff.value,
                   unlimited);
          diffs.items := Splice(diffs.items, pointer - count, count, subDiff.value);
          pieces := pieces + [Piece(run, subDiff.value), Piece([ds[pointer]], [ds[pointer]])];
          pointer := pointer - count + |subDiff.value|;
        } else {
          RerunSkip(before, ds, pointer, count_delete, count_insert, text_delete, text_insert, pieces, unlimited);
          pieces := pieces + [Piece(run, run), Piece([ds[pointer]], [ds[pointer]])];
        }
        count_insert, count_delete := 0, 0;
        text_delete, text_insert := [], [];
        pointer := pointer + 1;
    }
    RerunEnds(before, diffs.items, count_delete, count_insert, text_delete, text_insert, pieces, unlimited);
    diffs.items := diffs.items[..|diffs.items| - 1];
  }
}
