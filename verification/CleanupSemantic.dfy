/** The semantic clean-ups, which trade small equalities for larger edits and move edits to better places. */
module CleanupSemantic {
  import opened Wrappers
  import opened Texts
  import opened CommonAffix
  import opened Diffs
  import opened CleanupMerge

  // ---------------------------------------------------------------------------------------
  // Moving single edits sideways.

  /** A blank entry between two equalities, the second of them blank as well. */
  predicate BlankPair(a: Diff, b: Diff, c: Diff)
  {
    a.op.Equal? && c.op.Equal? && b.text == [] && c.text == []
  }

  ghost predicate NoBlankPair(ds: seq<Diff>)
  {
    forall i {:trigger ds[i]} :: 0 < i < |ds| - 1 ==> !BlankPair(ds[i - 1], ds[i], ds[i + 1])
  }

  /** Where no shift is possible there is no blank pair: a blank equality can always be swallowed. */
  lemma MergedHasNoBlankPair(ds: seq<Diff>)
    requires Merged(ds)
    ensures NoBlankPair(ds)
  {
    forall i | 0 < i < |ds| - 1
      ensures !BlankPair(ds[i - 1], ds[i], ds[i + 1])
    {
      assert !CanShift(ds[i - 1], ds[i], ds[i + 1]);
    }
  }

  /** Both ways of reading an equality, an edit and an equality stay the same, and so does the edit's size. */
  ghost predicate SameReading(eq1: Text, edit: Text, eq2: Text, eq1': Text, edit': Text, eq2': Text)
  {
    eq1' + edit' + eq2' == eq1 + edit + eq2 && eq1' + eq2' == eq1 + eq2 && |edit'| == |edit|
  }

  lemma ReadingTransitive(a: Text, b: Text, c: Text, a': Text, b': Text, c': Text, a'': Text, b'': Text, c'': Text)
    requires SameReading(a, b, c, a', b', c') && SameReading(a', b', c', a'', b'', c'')
    ensures SameReading(a, b, c, a'', b'', c'')
  {
  }

  lemma ShiftAllLeft(eq1: Text, edit: Text, eq2: Text, n: nat)
    requires CommonSuffixOf(eq1, edit, n)
    ensures var c := edit[|edit| - n..];
            SameReading(eq1, edit, eq2, eq1[..|eq1| - n], c + edit[..|edit| - n], c + eq2)
  {
    var c := edit[|edit| - n..];
    assert eq1 == eq1[..|eq1| - n] + c && edit == edit[..|edit| - n] + c;
  }

  lemma ShiftOneRight(eq1: Text, edit: Text, eq2: Text)
    requires edit != [] && eq2 != [] && edit[0] == eq2[0]
    ensures SameReading(eq1, edit, eq2, eq1 + [edit[0]], edit[1..] + [eq2[0]], eq2[1..])
  {
    assert edit == [edit[0]] + edit[1..] && eq2 == [edit[0]] + eq2[1..];
  }

  /** `s.charAt(0)`: one unit, or the empty string. */
  function CharAt0(s: Text): Text { if s == [] then [] else [s[0]] }

  /**
   A blank edit before a blank equality passes the guard of the stepping loop, and a step of that
   loop leaves both blank: the loop does not end.
   */
  lemma BlankPairNeverEnds(edit: Text, eq2: Text)
    requires edit == [] && eq2 == []
    ensures CharAt0(edit) == CharAt0(eq2)
    ensures SubstringFrom(edit, 1) + CharAt0(eq2) == [] && SubstringFrom(eq2, 1) == []
  {
  }

  function Total(score: (Text, Text) -> int, eq1: Text, edit: Text, eq2: Text): int
  {
    score(eq1, edit) + score(edit, eq2)
  }

  /** The first place scores higher than the second, or as high and does not lie to the left of it. */
  predicate AtLeast(score: (Text, Text) -> int, a: Text, b: Text, c: Text, a': Text, b': Text, c': Text)
  {
    Total(score, a', b', c') < Total(score, a, b, c)
      || (Total(score, a', b', c') == Total(score, a, b, c) && |a'| <= |a|)
  }

  /** The chosen place is the best of those that read the same and lie between the given bounds; ties go right. */
  ghost predicate BestWithin(score: (Text, Text) -> int, eq1: Text, edit: Text, eq2: Text, left: int, right: int,
                             a: Text, b: Text, c: Text)
  {
    && SameReading(eq1, edit, eq2, a, b, c) && left <= |a| <= right
    && forall a', b', c' ::
         SameReading(eq1, edit, eq2, a', b', c') && left <= |a'| <= right ==> AtLeast(score, a, b, c, a', b', c')
  }

  /** A place is known by where the edit starts. */
  lemma OnePlace(eq1: Text, edit: Text, eq2: Text, a: Text, b: Text, c: Text, a': Text, b': Text, c': Text)
    requires SameReading(eq1, edit, eq2, a, b, c) && SameReading(eq1, edit, eq2, a', b', c') && |a| == |a'|
    ensures a == a' && b == b' && c == c'
  {
    var t := eq1 + edit + eq2;
    assert a == t[..|a|] && a' == t[..|a|];
    assert b == t[|a|..|a| + |edit|] && b' == t[|a|..|a| + |edit|];
    assert c == t[|a| + |edit|..] && c' == t[|a| + |edit|..];
  }

  /** To the right of a place there is another one only if the next step is possible. */
  lemma NextPlace(eq1: Text, edit: Text, eq2: Text, a: Text, b: Text, c: Text, a': Text, b': Text, c': Text)
    requires SameReading(eq1, edit, eq2, a, b, c) && SameReading(eq1, edit, eq2, a', b', c') && |a| < |a'| && b != []
    ensures c != [] && b[0] == c[0]
  {
    var n := |a|;
    assert |a'| + |c'| == |a| + |c|;
    assert (a' + b' + c')[n] == a'[n] && (a' + c')[n] == a'[n];
    assert (a + b + c)[n] == b[0] && (a + c)[n] == c[0];
  }

  /** A place up to the edit's own length to the left is a common suffix of the equality and the edit. */
  lemma LeftPlace(eq1: Text, edit: Text, eq2: Text, a: Text, b: Text, c: Text)
    requires SameReading(eq1, edit, eq2, a, b, c) && |eq1| - |edit| <= |a| <= |eq1|
    ensures CommonSuffixOf(eq1, edit, |eq1| - |a|)
  {
    var m := |eq1| - |a|;
    var t, u := eq1 + edit + eq2, eq1 + eq2;
    assert c == (a + b + c)[|a| + |edit|..] == t[|a| + |edit|..];
    assert t[|a| + |edit|..] == edit[|edit| - m..] + eq2;
    assert c == (a + c)[|a|..] == u[|a|..];
    assert u[|a|..] == eq1[|a|..] + eq2;
    assert eq1[|a|..] == c[..m] && edit[|edit| - m..] == c[..m];
  }

  lemma FirstPlace(score: (Text, Text) -> int, eq1: Text, edit: Text, eq2: Text, n: nat, a: Text, b: Text, c: Text)
    requires SameReading(eq1, edit, eq2, a, b, c) && n <= |edit| && n <= |eq1| && |a| == |eq1| - n
    requires SuffixAtMost(eq1, edit, n)
    ensures BestWithin(score, eq1, edit, eq2, |eq1| - |edit|, |a|, a, b, c)
  {
    hide SameReading;
    forall a', b', c' | SameReading(eq1, edit, eq2, a', b', c') && |eq1| - |edit| <= |a'| <= |a|
      ensures AtLeast(score, a, b, c, a', b', c')
    {
      LeftPlace(eq1, edit, eq2, a', b', c');
      OnePlace(eq1, edit, eq2, a, b, c, a', b', c');
    }
  }

  /** One step to the right: the better of the best place so far and the new one. */
  lemma StepPlace(score: (Text, Text) -> int, eq1: Text, edit: Text, eq2: Text, left: int,
                  a: Text, b: Text, c: Text, x: Text, y: Text, z: Text)
    requires SameReading(eq1, edit, eq2, x, y, z) && |x| > 0 && |a| < |x|
    requires BestWithin(score, eq1, edit, eq2, left, |x| - 1, a, b, c)
    ensures if Total(score, x, y, z) >= Total(score, a, b, c) then BestWithin(score, eq1, edit, eq2, left, |x|, x, y, z)
            else BestWithin(score, eq1, edit, eq2, left, |x|, a, b, c)
  {
    hide SameReading, Total;
    forall a', b', c' | SameReading(eq1, edit, eq2, a', b', c') && left <= |a'| <= |x|
      ensures if Total(score, x, y, z) >= Total(score, a, b, c) then AtLeast(score, x, y, z, a', b', c')
              else AtLeast(score, a, b, c, a', b', c')
    {
      if |a'| == |x| {
        OnePlace(eq1, edit, eq2, x, y, z, a', b', c');
      }
    }
  }

  lemma LastPlace(score: (Text, Text) -> int, eq1: Text, edit: Text, eq2: Text, left: int,
                  a: Text, b: Text, c: Text, x: Text, y: Text, z: Text)
    requires SameReading(eq1, edit, eq2, x, y, z) && edit != [] && CharAt0(y) != CharAt0(z)
    requires BestWithin(score, eq1, edit, eq2, left, |x|, a, b, c)
    ensures BestWithin(score, eq1, edit, eq2, left, |eq1| + |eq2|, a, b, c)
  {
    var right := |eq1| + |eq2|;
    forall a', b', c' | SameReading(eq1, edit, eq2, a', b', c') && left <= |a'| <= right
      ensures AtLeast(score, a, b, c, a', b', c')
    {
      if |a'| > |x| {
        NextPlace(eq1, edit, eq2, x, y, z, a', b', c');
      }
    }
  }

  /** To the left of a place there is another one only if a step to the left is possible. */
  lemma PreviousPlace(eq1: Text, edit: Text, eq2: Text, a: Text, b: Text, c: Text, a': Text, b': Text, c': Text)
    requires SameReading(eq1, edit, eq2, a, b, c) && SameReading(eq1, edit, eq2, a', b', c') && |a'| < |a| && b != []
    ensures a[|a| - 1] == b[|b| - 1]
  {
    var n := |a| - 1;
    assert (a + b + c)[n + |b|] == b[|b| - 1] && (a + c)[n] == a[n];
    assert (a' + b' + c')[n + |b|] == c'[n - |a'|] && (a' + c')[n] == c'[n - |a'|];
  }

  lemma StepLeft(eq1: Text, edit: Text, eq2: Text, a: Text, b: Text, c: Text)
    requires SameReading(eq1, edit, eq2, a, b, c) && a != [] && (b == [] || a[|a| - 1] == b[|b| - 1])
    ensures var n := |a| - 1;
            SameReading(eq1, edit, eq2, a[..n], if b == [] then [] else [a[n]] + b[..|b| - 1], [a[n]] + c)
  {
    var n := |a| - 1;
    assert a == a[..n] + [a[n]];
    if b == [] {
      assert a[..n] + [] + ([a[n]] + c) == a + [] + c;
    } else {
      assert b == b[..|b| - 1] + [a[n]];
    }
  }

  /** No place lies to the left of `a`. */
  ghost predicate Farthest(eq1: Text, edit: Text, eq2: Text, a: Text)
  {
    forall a', b', c' :: SameReading(eq1, edit, eq2, a', b', c') ==> |a| <= |a'|
  }

  /**
   The first shift, by the longest common suffix, goes as far left as possible exactly unless that suffix is the whole
   edit and the equality goes on before it with the edit's last unit: then the text repeats further to the left.
   */
  lemma FarthestLeft(eq1: Text, edit: Text, eq2: Text, n: nat)
    requires CommonSuffixOf(eq1, edit, n) && SuffixAtMost(eq1, edit, n)
    ensures n <= |eq1| && n <= |edit|
    ensures Farthest(eq1, edit, eq2, eq1[..|eq1| - n]) <==>
            !(n == |edit| && n < |eq1| && (edit == [] || eq1[|eq1| - n - 1] == edit[|edit| - 1]))
  {
    var a, b, c := eq1[..|eq1| - n], edit[|edit| - n..] + edit[..|edit| - n], edit[|edit| - n..] + eq2;
    ShiftAllLeft(eq1, edit, eq2, n);
    NoSharedTail(eq1, edit, n);
    hide SameReading;
    if n < |eq1| && (b == [] || a[|a| - 1] == b[|b| - 1]) {
      StepLeft(eq1, edit, eq2, a, b, c);
      assert |a[..|a| - 1]| < |a|;
    } else {
      forall a', b', c' | SameReading(eq1, edit, eq2, a', b', c') ensures |a| <= |a'| {
        if |a'| < |a| {
          PreviousPlace(eq1, edit, eq2, a, b, c, a', b', c');
        }
      }
    }
  }

  /** It does not with "aa" before the edit "a": the edit stops behind the first of the two. */
  lemma NotFarthestLeft()
    ensures LongestSuffix([97, 97], [97]) == 1 && !Farthest([97, 97], [97], [], [97, 97][..1])
  {
    var a: Text := [97];
    assert [97, 97][1..] == a[0..];
    LongestSuffixIs([97, 97], a, 1);
    assert [97, 97] + a + [] == [] + a + [97, 97];
    assert SameReading([97, 97], a, [], [], a, [97, 97]);
  }

  /**
   The best place for an edit between two equalities, `score` telling how good a place is. All
   places read the same; those that start up to the edit's own length to the left are considered,
   and all to the right. Ties go to the right.
   */
  method BestPlace(eq1: Text, edit0: Text, eq2: Text, score: (Text, Text) -> int)
    returns (bestEquality1: Text, bestEdit: Text, bestEquality2: Text)
    requires !(edit0 == [] && eq2 == [])
    ensures SameReading(eq1, edit0, eq2, bestEquality1, bestEdit, bestEquality2)
    ensures edit0 == [] ==> bestEquality1 == eq1
    ensures edit0 != [] ==>
              BestWithin(score, eq1, edit0, eq2, |eq1| - |edit0|, |eq1| + |eq2|, bestEquality1, bestEdit, bestEquality2)
  {
    hide SameReading, BestWithin, Total;
    var equality1, edit, equality2 := eq1, edit0, eq2;
    var commonOffset := CommonSuffix(equality1, edit);
    ShiftAllLeft(eq1, edit, eq2, commonOffset);
    if commonOffset != 0 {
      var commonString := edit[|edit| - commonOffset..];
      equality1 := equality1[..|equality1| - commonOffset];
      edit := commonString + edit[..|edit| - commonOffset];
      equality2 := commonString + equality2;
    } else {
      ReadingReflexive(eq1, edit, eq2);
    }
    BlankStays(eq1, edit0, eq2, equality1, edit, equality2);
    FirstPlace(score, eq1, edit0, eq2, commonOffset, equality1, edit, equality2);
    bestEquality1, bestEdit, bestEquality2 := equality1, edit, equality2;
    var bestScore := Total(score, equality1, edit, equality2);
    while CharAt0(edit) == CharAt0(equality2)
      invariant SameReading(eq1, edit0, eq2, equality1, edit, equality2)
      invariant |bestEquality1| <= |equality1| && bestScore == Total(score, bestEquality1, bestEdit, bestEquality2)
      invariant BestWithin(score, eq1, edit0, eq2, |eq1| - |edit0|, |equality1|, bestEquality1, bestEdit, bestEquality2)
      invariant !(edit == [] && equality2 == [])
      invariant edit0 == [] ==> edit == [] && bestEquality1 == eq1
      decreases |equality2|
    {
      ShiftOneRight(equality1, edit, equality2);
      ReadingTransitive(eq1, edit0, eq2, equality1, edit, equality2,
                        equality1 + [edit[0]], edit[1..] + [equality2[0]], equality2[1..]);
      equality1, edit, equality2 := equality1 + CharAt0(edit), edit[1..] + CharAt0(equality2), equality2[1..];
      var score' := Total(score, equality1, edit, equality2);
      StepPlace(score, eq1, edit0, eq2, |eq1| - |edit0|, bestEquality1, bestEdit, bestEquality2,
                equality1, edit, equality2);
      if score' >= bestScore {
        bestScore := score';
        bestEquality1, bestEdit, bestEquality2 := equality1, edit, equality2;
      }
    }
    BestReads(score, eq1, edit0, eq2, |eq1| - |edit0|, |equality1|, bestEquality1, bestEdit, bestEquality2);
    if edit0 != [] {
      LastPlace(score, eq1, edit0, eq2, |eq1| - |edit0|, bestEquality1, bestEdit, bestEquality2,
                equality1, edit, equality2);
    }
  }

  lemma BestReads(score: (Text, Text) -> int, eq1: Text, edit: Text, eq2: Text, left: int, right: int, a: Text,
                  b: Text, c: Text)
    requires BestWithin(score, eq1, edit, eq2, left, right, a, b, c)
    ensures SameReading(eq1, edit, eq2, a, b, c)
  {
  }

  lemma ReadingReflexive(a: Text, b: Text, c: Text)
    ensures SameReading(a, b, c, a, b, c)
  {
  }

  lemma BlankStays(a: Text, b: Text, c: Text, a': Text, b': Text, c': Text)
    requires SameReading(a, b, c, a', b', c') && !(b == [] && c == []) && |c| <= |c'|
    ensures !(b' == [] && c' == [])
  {
  }

  /** There is only one best place. */
  lemma OneBest(score: (Text, Text) -> int, eq1: Text, edit: Text, eq2: Text, left: int, right: int,
                a: Text, b: Text, c: Text, a': Text, b': Text, c': Text)
    requires BestWithin(score, eq1, edit, eq2, left, right, a, b, c)
             && BestWithin(score, eq1, edit, eq2, left, right, a', b', c')
    ensures a == a' && b == b' && c == c'
  {
    hide SameReading, Total;
    assert AtLeast(score, a, b, c, a', b', c') && AtLeast(score, a', b', c', a, b, c);
    OnePlace(eq1, edit, eq2, a, b, c, a', b', c');
  }

  /** Where the pass puts an edit; a blank one stays. */
  ghost function Place(score: (Text, Text) -> int, eq1: Text, edit: Text, eq2: Text): (Text, Text, Text)
  {
    var left, right := |eq1| - |edit|, |eq1| + |eq2|;
    if edit != [] && exists a, b, c :: BestWithin(score, eq1, edit, eq2, left, right, a, b, c) then
      var a, b, c :| BestWithin(score, eq1, edit, eq2, left, right, a, b, c);
      (a, b, c)
    else (eq1, edit, eq2)
  }

  lemma PlaceIs(score: (Text, Text) -> int, eq1: Text, edit: Text, eq2: Text, a: Text, b: Text, c: Text)
    requires edit != [] && BestWithin(score, eq1, edit, eq2, |eq1| - |edit|, |eq1| + |eq2|, a, b, c)
    ensures Place(score, eq1, edit, eq2) == (a, b, c)
  {
    hide BestWithin;
    var (a', b', c') := Place(score, eq1, edit, eq2);
    OneBest(score, eq1, edit, eq2, |eq1| - |edit|, |eq1| + |eq2|, a, b, c, a', b', c');
  }

  lemma PlaceReads(score: (Text, Text) -> int, eq1: Text, edit: Text, eq2: Text)
    ensures var (a, b, c) := Place(score, eq1, edit, eq2);
            SameReading(eq1, edit, eq2, a, b, c) && (a != eq1 ==> b != [] && !(a == [] && c == []))
  {
  }

  /** What a triple becomes: blank equalities are dropped. */
  function Placed(a: Diff, b: Diff, c: Diff, eq1: Text, edit: Text, eq2: Text): seq<Diff>
  {
    (if eq1 != [] then [Diff(a.op, eq1)] else []) + [Diff(b.op, edit)] + (if eq2 != [] then [Diff(c.op, eq2)] else [])
  }

  lemma PlacedTexts(a: Diff, b: Diff, c: Diff, eq1: Text, edit: Text, eq2: Text)
    requires a.op.Equal? && c.op.Equal? && SameReading(a.text, b.text, c.text, eq1, edit, eq2)
    ensures SameTexts([a, b, c], Placed(a, b, c, eq1, edit, eq2))
  {
    hide Text1, Text2, EditSize;
    var a', b', c' := Diff(a.op, eq1), Diff(b.op, edit), Diff(c.op, eq2);
    TextsOfThree(a, b, c);
    var first, last := if eq1 != [] then [a'] else [], if eq2 != [] then [c'] else [];
    TextsThree(first, [b'], last);
    MaybeOne(a');
    MaybeOne(c');
    TextsOne(b');
    ReadingParts(a.text, b, c.text, eq1, b', eq2);
  }

  lemma MaybeOne(d: Diff)
    requires d.op.Equal?
    ensures var ds := if d.text != [] then [d] else []; Text1(ds) == d.text && Text2(ds) == d.text
  {
    TextsOne(d);
  }

  lemma ReadingParts(a: Text, b: Diff, c: Text, a': Text, b': Diff, c': Text)
    requires SameReading(a, b.text, c, a', b'.text, c') && b'.op == b.op
    ensures a + Part1(b) + c == a' + Part1(b') + c'
    ensures a + Part2(b) + c == a' + Part2(b') + c'
  {
    assert a + [] + c == a + c && a' + [] + c' == a' + c';
  }

  /** The list with a triple replaced, entry by entry: `e` is where the edit stands, `r` how many entries are gone. */
  lemma PlacedEntries(ds: seq<Diff>, p: nat, eq1: Text, edit: Text, eq2: Text, ds': seq<Diff>)
    requires 0 < p < |ds| - 1 && !(eq1 == [] && eq2 == [])
    requires ds' == Splice(ds, p - 1, 3, Placed(ds[p - 1], ds[p], ds[p + 1], eq1, edit, eq2))
    ensures var r := |ds| - |ds'|; var e := if eq1 == [] then p - 1 else p;
            && 0 <= r <= 1 && (r == 1 <==> eq1 == [] || eq2 == []) && e < |ds'|
            && (forall k {:trigger ds'[k]} :: 0 <= k < p - 1 ==> ds'[k] == ds[k])
            && ds'[e] == Diff(ds[p].op, edit)
            && (eq1 != [] ==> ds'[p - 1] == Diff(ds[p - 1].op, eq1))
            && (eq2 != [] ==> e + 1 < |ds'| && ds'[e + 1] == Diff(ds[p + 1].op, eq2))
            && (forall k {:trigger ds'[k]} :: p + 2 - r <= k < |ds'| ==> ds'[k] == ds[k + r])
  {
  }

  lemma PlacedTriple(ds: seq<Diff>, p: nat, eq1: Text, edit: Text, eq2: Text, ds': seq<Diff>, i: nat)
    requires 0 < p < |ds| - 1 && ds[p - 1].op.Equal? && ds[p + 1].op.Equal? && NoBlankPair(ds)
    requires edit != [] && !(eq1 == [] && eq2 == [])
    requires ds' == Splice(ds, p - 1, 3, Placed(ds[p - 1], ds[p], ds[p + 1], eq1, edit, eq2)) && 0 < i < |ds'| - 1
    ensures !BlankPair(ds'[i - 1], ds'[i], ds'[i + 1])
  {
    PlacedEntries(ds, p, eq1, edit, eq2, ds');
    hide Splice, Placed, NoBlankPair;
    if i < p - 1 {
      NotBlankAt(ds, i);
    } else if i + |ds| - |ds'| > p {
      NotBlankAt(ds, i + |ds| - |ds'|);
    }
  }

  lemma NotBlankAt(ds: seq<Diff>, p: nat)
    requires 0 < p < |ds| - 1 && NoBlankPair(ds)
    ensures !BlankPair(ds[p - 1], ds[p], ds[p + 1])
  {
  }

  lemma PlacedKeepsNoBlankPair(ds: seq<Diff>, p: nat, eq1: Text, edit: Text, eq2: Text)
    requires 0 < p < |ds| - 1 && ds[p - 1].op.Equal? && ds[p + 1].op.Equal? && NoBlankPair(ds)
    requires edit != [] && !(eq1 == [] && eq2 == [])
    ensures NoBlankPair(Splice(ds, p - 1, 3, Placed(ds[p - 1], ds[p], ds[p + 1], eq1, edit, eq2)))
  {
    hide Splice, Placed, BlankPair;
    var ds' := Splice(ds, p - 1, 3, Placed(ds[p - 1], ds[p], ds[p + 1], eq1, edit, eq2));
    forall i {:trigger ds'[i]} | 0 < i < |ds'| - 1
      ensures !BlankPair(ds'[i - 1], ds'[i], ds'[i + 1])
    {
      PlacedTriple(ds, p, eq1, edit, eq2, ds', i);
    }
  }

  /** The list after the edit at `p` has been moved to its best place. */
  ghost function Shifted(score: (Text, Text) -> int, ds: seq<Diff>, p: nat): seq<Diff>
    requires 0 < p < |ds| - 1
  {
    var (eq1, edit, eq2) := Place(score, ds[p - 1].text, ds[p].text, ds[p + 1].text);
    if eq1 == ds[p - 1].text then ds else Splice(ds, p - 1, 3, Placed(ds[p - 1], ds[p], ds[p + 1], eq1, edit, eq2))
  }

  lemma ShiftedLength(score: (Text, Text) -> int, ds: seq<Diff>, p: nat)
    requires 0 < p < |ds| - 1
    ensures |ds| - 1 <= |Shifted(score, ds, p)| <= |ds|
  {
    hide Place, SameReading;
    PlaceReads(score, ds[p - 1].text, ds[p].text, ds[p + 1].text);
  }

  lemma ShiftedKeeps(score: (Text, Text) -> int, ds: seq<Diff>, p: nat)
    requires 0 < p < |ds| - 1 && ds[p - 1].op.Equal? && ds[p + 1].op.Equal?
    ensures SameTexts(Shifted(score, ds, p), ds)
    ensures NoBlankPair(ds) ==> NoBlankPair(Shifted(score, ds, p))
  {
    hide Text1, Text2, Place, SameReading, NoBlankPair;
    var a, b, c := ds[p - 1], ds[p], ds[p + 1];
    PlaceReads(score, a.text, b.text, c.text);
    var (eq1, edit, eq2) := Place(score, a.text, b.text, c.text);
    if eq1 != a.text {
      PlacedTexts(a, b, c, eq1, edit, eq2);
      PlacedSplice(ds, p, Placed(a, b, c, eq1, edit, eq2));
      if NoBlankPair(ds) {
        PlacedKeepsNoBlankPair(ds, p, eq1, edit, eq2);
      }
    }
  }

  /** Moves the edit at `pointer` to its best place; `p` is where the cursor stands afterwards. */
  method PlaceEdit(diffs: DiffList, pointer: nat, score: (Text, Text) -> int) returns (p: nat)
    requires 0 < pointer < |diffs.items| - 1
    requires diffs.items[pointer - 1].op.Equal? && diffs.items[pointer + 1].op.Equal?
    requires !(diffs.items[pointer].text == [] && diffs.items[pointer + 1].text == [])
    modifies diffs
    ensures diffs.items == Shifted(score, old(diffs.items), pointer)
    ensures p <= pointer && pointer - p == |old(diffs.items)| - |diffs.items| <= 1
  {
    hide SameReading, BestWithin, Place;
    ghost var ds := diffs.items;
    var a, b, c := diffs.items[pointer - 1], diffs.items[pointer], diffs.items[pointer + 1];
    var bestEquality1, bestEdit, bestEquality2 := BestPlace(a.text, b.text, c.text, score);
    Placement(score, a.text, b.text, c.text, bestEquality1, bestEdit, bestEquality2);
    ShiftedLength(score, ds, pointer);
    p := pointer;
    if a.text != bestEquality1 {
      ghost var placed := Placed(a, b, c, bestEquality1, bestEdit, bestEquality2);
      if bestEquality1 != [] {
        diffs.items := diffs.items[p - 1 := Diff(a.op, bestEquality1)];
      } else {
        diffs.items := Splice(diffs.items, p - 1, 1, []);
        p := p - 1;
      }
      diffs.items := diffs.items[p := Diff(b.op, bestEdit)];
      if bestEquality2 != [] {
        diffs.items := diffs.items[p + 1 := Diff(c.op, bestEquality2)];
      } else {
        diffs.items := Splice(diffs.items, p + 1, 1, []);
        p := p - 1;
      }
      assert diffs.items == Splice(ds, pointer - 1, 3, placed);
    }
  }

  /** What `BestPlace` finds is the place. */
  lemma Placement(score: (Text, Text) -> int, eq1: Text, edit: Text, eq2: Text, a: Text, b: Text, c: Text)
    requires edit == [] ==> a == eq1
    requires edit != [] ==> BestWithin(score, eq1, edit, eq2, |eq1| - |edit|, |eq1| + |eq2|, a, b, c)
    ensures var place := Place(score, eq1, edit, eq2);
            place.0 == a && (a != eq1 ==> place == (a, b, c) && b != [] && !(a == [] && c == []))
  {
    hide BestWithin, SameReading;
    PlaceReads(score, eq1, edit, eq2);
    if edit != [] {
      PlaceIs(score, eq1, edit, eq2, a, b, c);
    } else {
      BlankPlace(score, eq1, eq2);
    }
  }

  lemma BlankPlace(score: (Text, Text) -> int, eq1: Text, eq2: Text)
    ensures Place(score, eq1, [], eq2).0 == eq1
  {
  }

  lemma PlacedSplice(ds: seq<Diff>, p: nat, placed: seq<Diff>)
    requires 0 < p < |ds| - 1 && SameTexts([ds[p - 1], ds[p], ds[p + 1]], placed)
    ensures SameTexts(Splice(ds, p - 1, 3, placed), ds)
  {
    assert ds[p - 1..p - 1 + 3] == [ds[p - 1], ds[p], ds[p + 1]];
    SpliceKeeps(ds, p - 1, 3, placed);
  }

  /** An entry between two equalities, which the pass tries to move. */
  predicate Between(ds: seq<Diff>, p: int)
  {
    0 < p < |ds| - 1 && ds[p - 1].op.Equal? && ds[p + 1].op.Equal?
  }

  /** Whether the pass ends from position `p` on: it does unless it comes to a blank pair that is still there. */
  ghost predicate Ends(score: (Text, Text) -> int, ds: seq<Diff>, p: nat)
    requires p > 0
    decreases |ds| - p
  {
    p >= |ds| - 1
    || if !Between(ds, p) then Ends(score, ds, p + 1)
       else
         && !BlankPair(ds[p - 1], ds[p], ds[p + 1])
         && var next := Shifted(score, ds, p);
            ShiftedLength(score, ds, p);
            Ends(score, next, p + 1 + |next| - |ds|)
  }

  /** The list after the pass from position `p` on, or when it comes to a blank pair. */
  ghost function AfterPass(score: (Text, Text) -> int, ds: seq<Diff>, p: nat): seq<Diff>
    requires p > 0
    decreases |ds| - p
  {
    if p >= |ds| - 1 then ds
    else if !Between(ds, p) then AfterPass(score, ds, p + 1)
    else if BlankPair(ds[p - 1], ds[p], ds[p + 1]) then ds
    else
      var next := Shifted(score, ds, p);
      ShiftedLength(score, ds, p);
      AfterPass(score, next, p + 1 + |next| - |ds|)
  }

  /** An edit that alone stands between equalities ends at its best place, and the pass changes nothing else. */
  lemma OneEditPlaced(score: (Text, Text) -> int, pre: seq<Diff>, a: Diff, b: Diff, c: Diff, post: seq<Diff>,
                      eq1: Text, edit: Text, eq2: Text)
    requires a.op.Equal? && c.op.Equal? && b.text != [] && forall d :: d in pre + post ==> !d.op.Equal?
    requires BestWithin(score, a.text, b.text, c.text, |a.text| - |b.text|, |a.text| + |c.text|, eq1, edit, eq2)
    requires eq1 != a.text
    ensures AfterPass(score, pre + [a, b, c] + post, 1) == pre + Placed(a, b, c, eq1, edit, eq2) + post
  {
    var ds := pre + [a, b, c] + post;
    var p := |pre| + 1;
    hide BestWithin, Placed;
    PlaceIs(score, a.text, b.text, c.text, eq1, edit, eq2);
    forall k: nat | k < |ds| && (k < p - 1 || k > p + 1) ensures !ds[k].op.Equal? {
      assert ds[k] == (pre + post)[if k < p then k else k - 3];
    }
    SkipTo(score, ds, 1, p);
    var placed := Placed(a, b, c, eq1, edit, eq2);
    var next := Splice(ds, p - 1, 3, placed);
    assert Shifted(score, ds, p) == next;
    assert next == pre + placed + post;
    PlacedTail(a, b, c, eq1, edit, eq2);
    var q := p + 1 + |next| - |ds|;
    ShiftedLength(score, ds, p);
    assert AfterPass(score, ds, p) == AfterPass(score, next, q);
    forall k: nat | q < k < |next| ensures !next[k].op.Equal? {
      assert k - |pre| - |placed| >= 0;
      assert next[k] == (pre + post)[k - |placed|];
      assert next[k] in pre + post;
    }
    NothingBetween(score, next, q);
  }

  lemma PlacedTail(a: Diff, b: Diff, c: Diff, eq1: Text, edit: Text, eq2: Text)
    ensures 1 <= |Placed(a, b, c, eq1, edit, eq2)| <= 3
  {
  }

  lemma {:induction false} SkipTo(score: (Text, Text) -> int, ds: seq<Diff>, from: nat, p: nat)
    requires 0 < from <= p && forall k :: from <= k < p ==> !Between(ds, k)
    ensures AfterPass(score, ds, from) == AfterPass(score, ds, p)
    decreases p - from
  {
    if from < p {
      SkipTo(score, ds, from + 1, p);
    }
  }

  lemma NothingBetween(score: (Text, Text) -> int, ds: seq<Diff>, p: nat)
    requires p > 0 && forall k :: p <= k ==> !Between(ds, k)
    ensures AfterPass(score, ds, p) == ds
  {
    SkipTo(score, ds, p, Max(p, |ds|));
  }

  lemma ShiftedNoneEmpty(score: (Text, Text) -> int, ds: seq<Diff>, p: nat)
    requires 0 < p < |ds| - 1 && NoneEmpty(ds)
    ensures NoneEmpty(Shifted(score, ds, p))
  {
    hide Place, SameReading, NoneEmpty;
    PlaceReads(score, ds[p - 1].text, ds[p].text, ds[p + 1].text);
    var (eq1, edit, eq2) := Place(score, ds[p - 1].text, ds[p].text, ds[p + 1].text);
    if eq1 != ds[p - 1].text {
      PlacedNoneEmpty(ds, p, Placed(ds[p - 1], ds[p], ds[p + 1], eq1, edit, eq2));
    }
  }

  lemma PlacedNoneEmpty(ds: seq<Diff>, p: nat, placed: seq<Diff>)
    requires 0 < p < |ds| - 1 && NoneEmpty(ds) && forall i :: 0 <= i < |placed| ==> placed[i].text != []
    ensures NoneEmpty(Splice(ds, p - 1, 3, placed))
  {
    var next := Splice(ds, p - 1, 3, placed);
    forall k | 0 <= k < |next| ensures next[k].text != [] {
      assert k < p - 1 ==> next[k] == ds[k];
      assert k >= p - 1 + |placed| ==> next[k] == ds[k - |placed| + 3];
    }
  }

  lemma {:induction false} NoPairEnds(score: (Text, Text) -> int, ds: seq<Diff>, p: nat)
    requires p > 0 && NoBlankPair(ds)
    ensures Ends(score, ds, p)
    decreases |ds| - p
  {
    hide NoBlankPair, Shifted, BlankPair;
    if p < |ds| - 1 {
      if Between(ds, p) {
        ShiftedLength(score, ds, p);
        ShiftedKeeps(score, ds, p);
        NotBlankAt(ds, p);
        NoPairEnds(score, Shifted(score, ds, p), p + 1 + |Shifted(score, ds, p)| - |ds|);
      } else {
        NoPairEnds(score, ds, p + 1);
      }
    }
  }

  /** A blank pair whose first equality follows two edits, one edit that begins the list, or nothing. */
  predicate Undisturbed(ds: seq<Diff>, i: nat)
  {
    && 0 < i < |ds| - 1 && BlankPair(ds[i - 1], ds[i], ds[i + 1])
    && (i >= 2 ==> !ds[i - 2].op.Equal?) && (i >= 3 ==> !ds[i - 3].op.Equal?)
  }

  /** A pair is undisturbed in every list that has the same entries around it. */
  lemma UndisturbedMoved(ds: seq<Diff>, i: nat, next: seq<Diff>, j: nat)
    requires Undisturbed(ds, i) && i >= 4 && 3 <= j && j - i == |next| - |ds|
    requires forall k {:trigger ds[k]} :: i - 3 <= k <= i + 1 ==> k + j - i < |next| && next[k + j - i] == ds[k]
    ensures Undisturbed(next, j)
  {
    hide BlankPair;
    assert ds[i - 3] == next[j - 3] && ds[i - 2] == next[j - 2] && ds[i - 1] == next[j - 1];
    assert ds[i] == next[j] && ds[i + 1] == next[j + 1];
  }

  lemma ShiftedBehind(score: (Text, Text) -> int, ds: seq<Diff>, p: nat, k: nat)
    requires 0 < p < |ds| - 1 && p + 2 <= k < |ds|
    ensures var next := Shifted(score, ds, p);
            var j := k + |next| - |ds|;
            0 <= j < |next| && next[j] == ds[k]
  {
    hide Place;
    ShiftedLength(score, ds, p);
  }

  /** Moving an earlier edit leaves such a pair alone. */
  lemma UndisturbedShifted(score: (Text, Text) -> int, ds: seq<Diff>, i: nat, p: nat)
    requires Undisturbed(ds, i) && Between(ds, p) && p < i
    ensures var next := Shifted(score, ds, p);
            |ds| - 1 <= |next| <= |ds| && p + 1 < i && Undisturbed(next, i + |next| - |ds|)
  {
    hide BlankPair, Shifted;
    ShiftedLength(score, ds, p);
    FarBefore(ds, i, p);
    var next := Shifted(score, ds, p);
    forall k {:trigger ds[k]} | i - 3 <= k <= i + 1
      ensures k + |next| - |ds| < |next| && next[k + |next| - |ds|] == ds[k]
    {
      ShiftedBehind(score, ds, p, k);
    }
    UndisturbedMoved(ds, i, next, i + |next| - |ds|);
  }

  lemma FarBefore(ds: seq<Diff>, i: nat, p: nat)
    requires Undisturbed(ds, i) && Between(ds, p) && p < i
    ensures p + 5 <= i
  {
    assert p != i - 1 && p != i - 2 && p != i - 3 && p != i - 4;
  }

  lemma {:induction false} PairStays(score: (Text, Text) -> int, ds: seq<Diff>, i: nat, p: nat)
    requires Undisturbed(ds, i) && 0 < p <= i
    ensures !Ends(score, ds, p)
    decreases |ds| - p
  {
    hide Shifted;
    if p < i {
      if Between(ds, p) {
        UndisturbedShifted(score, ds, i, p);
        var next := Shifted(score, ds, p);
        PairStays(score, next, i + |next| - |ds|, p + 1 + |next| - |ds|);
      } else {
        PairStays(score, ds, i, p + 1);
      }
    }
  }

  /** Where no blank pair can be reached by moving an earlier edit, the pass ends exactly when there is none. */
  lemma EndsExactly(score: (Text, Text) -> int, ds: seq<Diff>)
    requires forall i {:trigger ds[i]} ::
             0 < i < |ds| - 1 && BlankPair(ds[i - 1], ds[i], ds[i + 1]) ==> Undisturbed(ds, i)
    ensures Ends(score, ds, 1) <==> NoBlankPair(ds)
  {
    hide Ends, BlankPair;
    if NoBlankPair(ds) {
      NoPairEnds(score, ds, 1);
    } else {
      var i :| 0 < i < |ds| - 1 && BlankPair(ds[i - 1], ds[i], ds[i + 1]);
      PairStays(score, ds, i, 1);
    }
  }

  /** What the source's score gives to edges, and inside words. */
  function EdgesOnly(one: Text, two: Text): int { if one == [] || two == [] then 6 else 0 }

  /** A blank pair that an earlier edit swallows: the pass ends although it begins with one. */
  lemma PairSwallowed()
    ensures var ds := [Diff(Equal, [120]), Diff(Insert, [97]), Diff(Equal, [97]), Diff(Insert, []), Diff(Equal, [])];
            !NoBlankPair(ds) && Ends(EdgesOnly, ds, 1)
  {
    var ds := [Diff(Equal, [120]), Diff(Insert, [97]), Diff(Equal, [97]), Diff(Insert, []), Diff(Equal, [])];
    assert BlankPair(ds[2], ds[3], ds[4]);
    EditAtEnd();
    PlaceIs(EdgesOnly, [120], [97], [97], [120, 97], [97], []);
    hide Place;
    var next := [Diff(Equal, [120, 97]), Diff(Insert, [97]), Diff(Insert, []), Diff(Equal, [])];
    assert Shifted(EdgesOnly, ds, 1) == next;
    assert !Between(next, 1) && !Between(next, 2);
    assert Ends(EdgesOnly, next, 3) && Ends(EdgesOnly, next, 2) && Ends(EdgesOnly, next, 1);
  }

  lemma EditAtEnd()
    ensures BestWithin(EdgesOnly, [120], [97], [97], 0, 2, [120, 97], [97], [])
  {
    var x, a: Text := [120], [97];
    assert x + a + a == [120, 97] + a + [] && x + a == [120, 97] + [];
    forall a', b', c' | SameReading(x, a, a, a', b', c') && 0 <= |a'| <= 2
      ensures AtLeast(EdgesOnly, [120, 97], a, [], a', b', c')
    {
      NotAtStart(a', b', c');
    }
  }

  lemma NotAtStart(a: Text, b: Text, c: Text)
    ensures SameReading([120], [97], [97], a, b, c) ==> a != []
  {
    if a == [] && |b| == 1 && |c| == 2 {
      assert (a + b + c)[1] == c[0] == (a + c)[0];
      var x, y: Text := [120], [97];
      assert (x + y + y)[1] == 97 && (x + y)[0] == 120;
    }
  }

  /**
   Tries to move every entry between two equalities to a better place. `ended` is false when the stepping loop of some
   entry never ends; the list is then as it was at that moment.
   */
  method DiffCleanupSemanticLossless(diffs: DiffList, score: (Text, Text) -> int) returns (ended: bool)
    modifies diffs
    ensures ended <==> Ends(score, old(diffs.items), 1)
    ensures SameTexts(diffs.items, old(diffs.items))
    ensures NoBlankPair(old(diffs.items)) ==> ended && NoBlankPair(diffs.items)
    ensures |diffs.items| <= |old(diffs.items)|
    ensures diffs.items == AfterPass(score, old(diffs.items), 1)
    ensures NoneEmpty(old(diffs.items)) ==> NoneEmpty(diffs.items)
  {
    hide NoBlankPair, Text1, Text2, Shifted, NoneEmpty;
    var pointer := 1;
    if NoBlankPair(diffs.items) {
      NoPairEnds(score, diffs.items, 1);
    }
    // The first and the last entry have no neighbours on both sides.
    while pointer < |diffs.items| - 1
      invariant 1 <= pointer && |diffs.items| <= |old(diffs.items)|
      invariant SameTexts(diffs.items, old(diffs.items))
      invariant NoBlankPair(old(diffs.items)) ==> NoBlankPair(diffs.items)
      invariant Ends(score, old(diffs.items), 1) <==> Ends(score, diffs.items, pointer)
      invariant AfterPass(score, old(diffs.items), 1) == AfterPass(score, diffs.items, pointer)
      invariant NoneEmpty(old(diffs.items)) ==> NoneEmpty(diffs.items)
      decreases |diffs.items| - pointer
    {
      if diffs.items[pointer - 1].op == Equal && diffs.items[pointer + 1].op == Equal {
        if diffs.items[pointer].text == [] && diffs.items[pointer + 1].text == [] {
          // BlankPairNeverEnds: the stepping loop goes on for ever.
          return false;
        }
        ShiftedKeeps(score, diffs.items, pointer);
        if NoneEmpty(diffs.items) {
          ShiftedNoneEmpty(score, diffs.items, pointer);
        }
        pointer := PlaceEdit(diffs, pointer, score);
      }
      pointer := pointer + 1;
    }
    ended := true;
  }

  // ---------------------------------------------------------------------------------------
  // Eliminating equalities that are no larger than the edits around them.

  function Equalities(ds: seq<Diff>): nat
  {
    if ds == [] then 0 else (if ds[0].op.Equal? then 1 else 0) + Equalities(ds[1..])
  }

  lemma {:induction false} EqualitiesAppend(a: seq<Diff>, b: seq<Diff>)
    ensures Equalities(a + b) == Equalities(a) + Equalities(b)
  {
    if a == [] {
      assert a + b == b;
    } else {
      assert (a + b)[1..] == a[1..] + b;
      EqualitiesAppend(a[1..], b);
    }
  }

  /** An equality rewritten as a deletion and an insertion of its text. */
  function Eliminated(ds: seq<Diff>, i: nat): seq<Diff>
    requires i < |ds|
  {
    Splice(ds, i, 1, [Diff(Delete, ds[i].text), Diff(Insert, ds[i].text)])
  }

  lemma EliminatedTexts(ds: seq<Diff>, i: nat)
    requires i < |ds| && ds[i].op.Equal?
    ensures SameTexts(Eliminated(ds, i), ds) && Equalities(Eliminated(ds, i)) < Equalities(ds)
  {
    hide Text1, Text2, EditSize, Equalities;
    var two := [Diff(Delete, ds[i].text), Diff(Insert, ds[i].text)];
    assert ds[i..i + 1] == [ds[i]];
    TextsOne(ds[i]);
    TextsTwo(two[0], two[1]);
    assert [] + ds[i].text == ds[i].text == ds[i].text + [];
    SpliceKeeps(ds, i, 1, two);
    EqualitiesSplit(ds[..i], ds[i], two, ds[i + 1..]);
    assert ds == ds[..i] + [ds[i]] + ds[i + 1..];
  }

  lemma EqualitiesSplit(pre: seq<Diff>, e: Diff, two: seq<Diff>, post: seq<Diff>)
    requires e.op.Equal? && |two| == 2 && !two[0].op.Equal? && !two[1].op.Equal?
    ensures Equalities(pre + two + post) + 1 == Equalities(pre + [e] + post)
  {
    EqualitiesAppend(pre, [e]);
    EqualitiesAppend(pre + [e], post);
    EqualitiesAppend(pre, two);
    EqualitiesAppend(pre + two, post);
    assert two[1..] == [two[1]] && two[1..][1..] == [] && [e][1..] == [];
  }

  /**
   The stack of equalities: its entries point at live equalities before the cursor, in order, and
   its top at the equality last seen. The source's length counter can drop below zero; pushes then
   land at negative indices, which a map keeps just as a JavaScript array does.
   */
  ghost predicate StackLive(ds: seq<Diff>, equalities: map<int, nat>, length: int, pointer: int)
  {
    && (forall i {:trigger i in equalities} {:trigger equalities[i]} :: 0 <= i < length ==>
          i in equalities && equalities[i] < pointer <= |ds| && ds[equalities[i]].op.Equal?)
    && (forall i, j {:trigger equalities[i], equalities[j]} ::
          0 <= i < j < length && i in equalities && j in equalities ==>
          equalities[i] < equalities[j])
  }

  ghost predicate TopIs(ds: seq<Diff>, equalities: map<int, nat>, length: int, pointer: int, last: Option<Text>)
  {
    last.Some? ==> length - 1 in equalities && equalities[length - 1] < pointer <= |ds|
                   && ds[equalities[length - 1]] == Diff(Equal, last.value)
  }

  lemma StackPush(ds: seq<Diff>, equalities: map<int, nat>, length: int, pointer: nat)
    requires StackLive(ds, equalities, length, pointer) && pointer < |ds| && ds[pointer].op.Equal?
    ensures StackLive(ds, equalities[length := pointer], length + 1, pointer + 1)
    ensures TopIs(ds, equalities[length := pointer], length + 1, pointer + 1, Some(ds[pointer].text))
  {
  }

  /** After an elimination two entries are popped, and the cursor goes back to the new top. */
  lemma StackPop(ds: seq<Diff>, equalities: map<int, nat>, length: int, pointer: nat, last: Text)
    requires StackLive(ds, equalities, length, pointer) && TopIs(ds, equalities, length, pointer, Some(last))
    ensures var back := if length - 2 > 0 then equalities[length - 3] + 1 else 0;
            back <= pointer && StackLive(Eliminated(ds, equalities[length - 1]), equalities, length - 2, back)
  {
  }

  function Inserted(ds: seq<Diff>): nat
  {
    if ds == [] then 0
    else Inserted(ds[..|ds| - 1]) + if ds[|ds| - 1].op.Insert? then |ds[|ds| - 1].text| else 0
  }

  function Deleted(ds: seq<Diff>): nat
  {
    if ds == [] then 0
    else Deleted(ds[..|ds| - 1]) + if ds[|ds| - 1].op.Delete? then |ds[|ds| - 1].text| else 0
  }

  /** Where the run of edits that ends before `i` starts, ... */
  function RunStart(ds: seq<Diff>, i: nat): (r: nat)
    requires i <= |ds|
    ensures r <= i && (r == 0 || ds[r - 1].op.Equal?)
    ensures forall k :: r <= k < i ==> !ds[k].op.Equal?
  {
    if i == 0 || ds[i - 1].op.Equal? then i else RunStart(ds, i - 1)
  }

  /** ... and where the run that starts at `i` ends. */
  function RunEnd(ds: seq<Diff>, i: nat): (r: nat)
    requires i <= |ds|
    ensures i <= r <= |ds| && (r == |ds| || ds[r].op.Equal?)
    ensures forall k :: i <= k < r ==> !ds[k].op.Equal?
    decreases |ds| - i
  {
    if i == |ds| || ds[i].op.Equal? then i else RunEnd(ds, i + 1)
  }

  /** The larger of what a run of edits inserts and deletes. */
  function Size(ds: seq<Diff>): int { Max(Inserted(ds), Deleted(ds)) }

  /** An equality no larger than the edits on either side of it. */
  predicate Trivial(ds: seq<Diff>, i: nat)
  {
    && i < |ds| && ds[i].op.Equal? && ds[i].text != []
    && |ds[i].text| <= Size(ds[RunStart(ds, i)..i])
    && |ds[i].text| <= Size(ds[i + 1..RunEnd(ds, i + 1)])
  }

  /** Of the equalities before `n`, none is trivial. */
  ghost predicate NoneTrivial(ds: seq<Diff>, n: nat)
  {
    forall i: nat :: i < n ==> !Trivial(ds, i)
  }

  lemma {:induction false} SameStart(ds: seq<Diff>, ds': seq<Diff>, i: nat)
    requires i <= |ds| && i <= |ds'| && forall k :: 0 <= k < i ==> ds'[k] == ds[k]
    ensures RunStart(ds', i) == RunStart(ds, i)
  {
    if i > 0 {
      SameStart(ds, ds', i - 1);
    }
  }

  lemma {:induction false} SameEnd(ds: seq<Diff>, ds': seq<Diff>, i: nat, e: nat)
    requires i <= e < |ds| && e < |ds'| && ds[e].op.Equal? && forall k :: i <= k <= e ==> ds'[k] == ds[k]
    ensures RunEnd(ds', i) == RunEnd(ds, i) <= e
    decreases e - i
  {
    if i < e && !ds[i].op.Equal? {
      SameEnd(ds, ds', i + 1, e);
    }
  }

  /** Whether an equality is trivial depends on the list only up to the next equality. */
  lemma TrivialLocal(ds: seq<Diff>, ds': seq<Diff>, i: nat, e: nat)
    requires i < e < |ds| && e < |ds'| && ds[e].op.Equal? && forall k :: 0 <= k <= e ==> ds'[k] == ds[k]
    ensures Trivial(ds', i) == Trivial(ds, i)
  {
    hide RunStart, RunEnd, Size;
    SameStart(ds, ds', i);
    SameEnd(ds, ds', i + 1, e);
    assert ds'[RunStart(ds, i)..i] == ds[RunStart(ds, i)..i];
    assert ds'[i + 1..RunEnd(ds, i + 1)] == ds[i + 1..RunEnd(ds, i + 1)];
  }

  lemma RunEndIs(ds: seq<Diff>, i: nat, e: nat)
    requires i <= e <= |ds| && (forall k :: i <= k < e ==> !ds[k].op.Equal?) && (e == |ds| || ds[e].op.Equal?)
    ensures RunEnd(ds, i) == e
  {
  }

  /**
   What the scan knows at the cursor: the size of the run of edits before it, the size of the run before the last
   equality, and that no equality passed so far is trivial, the last one as far as its run has been seen.
   */
  ghost predicate Scanned(ds: seq<Diff>, p: nat, ins1: nat, del1: nat, ins2: nat, del2: nat, last: Option<Text>)
  {
    && p <= |ds|
    && var r := RunStart(ds, p);
       && ins2 == Inserted(ds[r..p]) && del2 == Deleted(ds[r..p])
       && (last.None? ==> NoneTrivial(ds, r))
       && (last.Some? ==>
             && r > 0 && ds[r - 1] == Diff(Equal, last.value) && NoneTrivial(ds, r - 1)
             && ins1 == Inserted(ds[RunStart(ds, r - 1)..r - 1]) && del1 == Deleted(ds[RunStart(ds, r - 1)..r - 1])
             && !(last.value != [] && |last.value| <= Max(ins1, del1) && |last.value| <= Max(ins2, del2)))
  }

  /** A run that is complete settles the equality before it. */
  lemma RunCompletes(ds: seq<Diff>, p: nat, ins1: nat, del1: nat, ins2: nat, del2: nat, last: Option<Text>)
    requires Scanned(ds, p, ins1, del1, ins2, del2, last) && (p == |ds| || ds[p].op.Equal?)
    ensures NoneTrivial(ds, p)
  {
    var r := RunStart(ds, p);
    if last.Some? {
      RunEndIs(ds, r, p);
      assert !Trivial(ds, r - 1);
    }
    forall i: nat | i < p ensures !Trivial(ds, i) {
    }
  }

  lemma ScanEquality(ds: seq<Diff>, p: nat, ins1: nat, del1: nat, ins2: nat, del2: nat, last: Option<Text>)
    requires Scanned(ds, p, ins1, del1, ins2, del2, last) && p < |ds| && ds[p].op.Equal?
    ensures Scanned(ds, p + 1, ins2, del2, 0, 0, Some(ds[p].text))
  {
    RunCompletes(ds, p, ins1, del1, ins2, del2, last);
    assert ds[p + 1..p + 1] == [];
  }

  lemma OneMore(ds: seq<Diff>, r: nat, p: nat)
    requires r <= p < |ds|
    ensures Inserted(ds[r..p + 1]) == Inserted(ds[r..p]) + if ds[p].op.Insert? then |ds[p].text| else 0
    ensures Deleted(ds[r..p + 1]) == Deleted(ds[r..p]) + if ds[p].op.Delete? then |ds[p].text| else 0
  {
    assert ds[r..p + 1][..p - r] == ds[r..p];
  }

  /** One more edit, unless it makes the last equality trivial. */
  lemma ScanEdit(ds: seq<Diff>, p: nat, ins1: nat, del1: nat, ins2: nat, del2: nat, last: Option<Text>, ins: nat,
                 del: nat)
    requires Scanned(ds, p, ins1, del1, ins2, del2, last) && p < |ds| && !ds[p].op.Equal?
    requires ins == ins2 + if ds[p].op.Insert? then |ds[p].text| else 0
    requires del == del2 + if ds[p].op.Delete? then |ds[p].text| else 0
    requires !(last.Some? && last.value != [] && |last.value| <= Max(ins1, del1) && |last.value| <= Max(ins, del))
    ensures Scanned(ds, p + 1, ins1, del1, ins, del, last)
  {
    var r := RunStart(ds, p);
    OneMore(ds, r, p);
    hide Inserted, Deleted, NoneTrivial;
  }

  /** After an elimination the scan starts again behind an equality that is settled, or at the beginning. */
  lemma ScanBack(ds: seq<Diff>, p: nat, ins1: nat, del1: nat, ins2: nat, del2: nat, last: Text,
                 equalities: map<int, nat>, length: int, ds': seq<Diff>, back: nat)
    requires Scanned(ds, p, ins1, del1, ins2, del2, Some(last))
    requires StackLive(ds, equalities, length, p) && TopIs(ds, equalities, length, p, Some(last))
    requires equalities[length - 1] == RunStart(ds, p) - 1
    requires ds' == Eliminated(ds, equalities[length - 1])
    requires back == if length - 2 > 0 then equalities[length - 3] + 1 else 0
    ensures Scanned(ds', back, 0, 0, 0, 0, None)
  {
    assert ds'[back..back] == [];
    if length - 2 > 0 {
      var e0, e1, top := equalities[length - 3], equalities[length - 2], equalities[length - 1];
      assert ds'[e0] == ds[e0];
      assert RunStart(ds', back) == back;
      forall i: nat | i < back ensures !Trivial(ds', i) {
        TrivialLocal(ds, ds', i, e1);
      }
    }
  }

  lemma {:induction false} RunSizeGrows(ds: seq<Diff>, r: nat, p: nat, e: nat)
    requires r <= p <= e <= |ds|
    ensures Inserted(ds[r..p]) <= Inserted(ds[r..e]) && Deleted(ds[r..p]) <= Deleted(ds[r..e])
    decreases e - p
  {
    if p < e {
      RunSizeGrows(ds, r, p, e - 1);
      assert ds[r..e][..e - 1 - r] == ds[r..e - 1];
    }
  }

  lemma RunEndFrom(ds: seq<Diff>, i: nat, p: nat)
    requires i <= p <= |ds| && forall k :: i <= k < p ==> !ds[k].op.Equal?
    ensures p <= RunEnd(ds, i)
  {
  }

  /** A run so far is no larger than it will be. */
  lemma RunSoFar(ds: seq<Diff>, r: nat, p: nat, ins2: nat, del2: nat, ins: nat, del: nat)
    requires r <= p < |ds| && ins2 == Inserted(ds[r..p]) && del2 == Deleted(ds[r..p])
    requires forall k :: r <= k <= p ==> !ds[k].op.Equal?
    requires ins == ins2 + if ds[p].op.Insert? then |ds[p].text| else 0
    requires del == del2 + if ds[p].op.Delete? then |ds[p].text| else 0
    ensures ins <= Inserted(ds[r..RunEnd(ds, r)]) && del <= Deleted(ds[r..RunEnd(ds, r)])
  {
    OneMore(ds, r, p);
    hide RunEnd, Inserted, Deleted;
    RunEndFrom(ds, r, p + 1);
    RunSizeGrows(ds, r, p + 1, RunEnd(ds, r));
  }

  /** What the scan knows of the runs on both sides of the last equality. */
  lemma LastScanned(ds: seq<Diff>, p: nat, ins1: nat, del1: nat, ins2: nat, del2: nat, last: Text)
    requires Scanned(ds, p, ins1, del1, ins2, del2, Some(last))
    ensures p <= |ds|
    ensures var r := RunStart(ds, p);
            && 0 < r <= p && ds[r - 1] == Diff(Equal, last) && (forall k :: r <= k < p ==> !ds[k].op.Equal?)
            && ins2 == Inserted(ds[r..p]) && del2 == Deleted(ds[r..p])
            && ins1 == Inserted(ds[RunStart(ds, r - 1)..r - 1]) && del1 == Deleted(ds[RunStart(ds, r - 1)..r - 1])
  {
    hide Inserted, Deleted, NoneTrivial;
  }

  /** What is eliminated is a trivial equality. */
  lemma Eliminates(ds: seq<Diff>, p: nat, ins1: nat, del1: nat, ins2: nat, del2: nat, last: Text, ins: nat, del: nat)
    requires Scanned(ds, p, ins1, del1, ins2, del2, Some(last)) && p < |ds| && !ds[p].op.Equal?
    requires ins == ins2 + if ds[p].op.Insert? then |ds[p].text| else 0
    requires del == del2 + if ds[p].op.Delete? then |ds[p].text| else 0
    requires last != [] && |last| <= Max(ins1, del1) && |last| <= Max(ins, del)
    ensures RunStart(ds, p) > 0 && Trivial(ds, RunStart(ds, p) - 1)
  {
    hide Inserted, Deleted, RunEnd, Scanned;
    LastScanned(ds, p, ins1, del1, ins2, del2, last);
    var r := RunStart(ds, p);
    hide RunStart;
    RunSoFar(ds, r, p, ins2, del2, ins, del);
  }

  lemma SomeTrivial(ds: seq<Diff>, i: nat)
    requires Trivial(ds, i)
    ensures !NoneTrivial(ds, |ds|)
  {
  }

  /** The state of the scan, its stack included. */
  ghost predicate Scanning(ds: seq<Diff>, p: nat, equalities: map<int, nat>, length: int,
                           ins1: nat, del1: nat, ins2: nat, del2: nat, last: Option<Text>)
  {
    && p <= |ds| && StackLive(ds, equalities, length, p) && TopIs(ds, equalities, length, p, last)
    && (last.Some? ==> equalities[length - 1] == RunStart(ds, p) - 1)
    && Scanned(ds, p, ins1, del1, ins2, del2, last)
  }

  lemma ScanningStarts(ds: seq<Diff>)
    ensures Scanning(ds, 0, map[], 0, 0, 0, 0, 0, None)
  {
    assert ds[0..0] == [];
  }

  lemma ScanningEquality(ds: seq<Diff>, p: nat, equalities: map<int, nat>, length: int,
                         ins1: nat, del1: nat, ins2: nat, del2: nat, last: Option<Text>)
    requires Scanning(ds, p, equalities, length, ins1, del1, ins2, del2, last) && p < |ds| && ds[p].op.Equal?
    ensures Scanning(ds, p + 1, equalities[length := p], length + 1, ins2, del2, 0, 0, Some(ds[p].text))
  {
    hide StackLive, TopIs, Scanned;
    StackPush(ds, equalities, length, p);
    ScanEquality(ds, p, ins1, del1, ins2, del2, last);
  }

  lemma ScanningEdit(ds: seq<Diff>, p: nat, equalities: map<int, nat>, length: int,
                     ins1: nat, del1: nat, ins2: nat, del2: nat, last: Option<Text>, ins: nat, del: nat)
    requires Scanning(ds, p, equalities, length, ins1, del1, ins2, del2, last) && p < |ds| && !ds[p].op.Equal?
    requires ins == ins2 + if ds[p].op.Insert? then |ds[p].text| else 0
    requires del == del2 + if ds[p].op.Delete? then |ds[p].text| else 0
    requires !(last.Some? && last.value != [] && |last.value| <= Max(ins1, del1) && |last.value| <= Max(ins, del))
    ensures Scanning(ds, p + 1, equalities, length, ins1, del1, ins, del, last)
  {
    hide Scanned;
    ScanEdit(ds, p, ins1, del1, ins2, del2, last, ins, del);
  }

  /** Where the cursor goes after an elimination: behind the new top of the stack. */
  function Rewound(equalities: map<int, nat>, length: int): nat
    requires length - 2 > 0 ==> length - 3 in equalities
  {
    if length - 2 > 0 then equalities[length - 3] + 1 else 0
  }

  lemma ScanningBack(ds: seq<Diff>, p: nat, equalities: map<int, nat>, length: int,
                     ins1: nat, del1: nat, ins2: nat, del2: nat, last: Text, ins: nat, del: nat)
    requires Scanning(ds, p, equalities, length, ins1, del1, ins2, del2, Some(last)) && p < |ds| && !ds[p].op.Equal?
    requires ins == ins2 + if ds[p].op.Insert? then |ds[p].text| else 0
    requires del == del2 + if ds[p].op.Delete? then |ds[p].text| else 0
    requires last != [] && |last| <= Max(ins1, del1) && |last| <= Max(ins, del)
    ensures length - 1 in equalities && equalities[length - 1] < |ds| && ds[equalities[length - 1]] == Diff(Equal, last)
    ensures length - 2 > 0 ==> length - 3 in equalities
    ensures var next := Eliminated(ds, equalities[length - 1]);
            && Rewound(equalities, length) <= |next|
            && Scanning(next, Rewound(equalities, length), equalities, length - 2, 0, 0, 0, 0, None)
            && SameTexts(next, ds) && Equalities(next) < Equalities(ds)
    ensures !NoneTrivial(ds, |ds|) && Trivial(ds, equalities[length - 1])
  {
    hide Text1, Text2, Equalities, Scanned, RunStart, NoneTrivial, Trivial;
    Eliminates(ds, p, ins1, del1, ins2, del2, last, ins, del);
    var top := equalities[length - 1];
    SomeTrivial(ds, top);
    StackPop(ds, equalities, length, p, last);
    EliminatedTexts(ds, top);
    ScanBack(ds, p, ins1, del1, ins2, del2, last, equalities, length, Eliminated(ds, top), Rewound(equalities, length));
  }

  lemma ScanningEnds(ds: seq<Diff>, equalities: map<int, nat>, length: int,
                     ins1: nat, del1: nat, ins2: nat, del2: nat, last: Option<Text>)
    requires Scanning(ds, |ds|, equalities, length, ins1, del1, ins2, del2, last)
    ensures NoneTrivial(ds, |ds|)
  {
    hide Scanned;
    RunCompletes(ds, |ds|, ins1, del1, ins2, del2, last);
  }

  /** One after the other, equalities that are trivial at their turn are eliminated. */
  ghost predicate Eliminations(states: seq<seq<Diff>>, at: seq<nat>)
  {
    && |states| == |at| + 1
    && forall i {:trigger at[i]} :: 0 <= i < |at| ==>
         Trivial(states[i], at[i]) && states[i + 1] == Eliminated(states[i], at[i])
  }

  lemma EliminationsMore(states: seq<seq<Diff>>, at: seq<nat>, i: nat)
    requires Eliminations(states, at) && Trivial(states[|at|], i)
    ensures Eliminations(states + [Eliminated(states[|at|], i)], at + [i])
  {
    hide RunStart, RunEnd, Size, Eliminated;
    var states', at' := states + [Eliminated(states[|at|], i)], at + [i];
    forall k | 0 <= k < |at'| ensures Trivial(states'[k], at'[k]) && states'[k + 1] == Eliminated(states'[k], at'[k]) {
      if k < |at| {
        assert at'[k] == at[k] && states'[k] == states[k] && states'[k + 1] == states[k + 1];
      }
    }
  }

  lemma NoEliminations(ds: seq<Diff>)
    ensures Eliminations([ds], [])
  {
  }

  lemma EliminatedNoneEmpty(ds: seq<Diff>, i: nat)
    requires i < |ds|
    ensures NoneEmpty(ds) ==> NoneEmpty(Eliminated(ds, i))
  {
    if NoneEmpty(ds) {
      var next := Eliminated(ds, i);
      forall k | 0 <= k < |next| ensures next[k].text != [] {
        assert next[k].text == ds[if k <= i then k else k - 1].text;
      }
    }
  }

  method EliminateAt(diffs: DiffList, top: nat, lastEquality: Text)
    requires top < |diffs.items| && diffs.items[top] == Diff(Equal, lastEquality)
    modifies diffs
    ensures diffs.items == Eliminated(old(diffs.items), top)
  {
    diffs.items := Splice(diffs.items, top, 0, [Diff(Delete, lastEquality)]);
    diffs.items := diffs.items[top + 1 := Diff(Insert, diffs.items[top + 1].text)];
  }

  /** Turns trivial equalities into edits until none is left. */
  method EliminateEqualities(diffs: DiffList)
    returns (changes: bool, ghost states: seq<seq<Diff>>, ghost at: seq<nat>)
    modifies diffs
    ensures Eliminations(states, at) && states[0] == old(diffs.items) && states[|at|] == diffs.items
    ensures NoneEmpty(old(diffs.items)) ==> NoneEmpty(diffs.items)
    ensures SameTexts(diffs.items, old(diffs.items))
    ensures changes <==> !NoneTrivial(old(diffs.items), |old(diffs.items)|)
    ensures !changes ==> diffs.items == old(diffs.items)
    ensures NoneTrivial(diffs.items, |diffs.items|)
  {
    hide Text1, Text2, Equalities, Scanning, NoneTrivial, Eliminated, Eliminations, NoneEmpty, Trivial;
    changes := false;
    states, at := [diffs.items], [];
    NoEliminations(diffs.items);
    var equalities: map<int, nat> := map[];
    var equalitiesLength: int := 0;
    var lastEquality: Option<Text> := None;
    var pointer: nat := 0;
    // Sizes of the runs of edits before and after the last equality.
    var length_insertions1: nat, length_deletions1: nat, length_insertions2: nat, length_deletions2: nat := 0, 0, 0, 0;
    ScanningStarts(diffs.items);
    while pointer < |diffs.items|
      invariant pointer <= |diffs.items| && SameTexts(diffs.items, old(diffs.items))
      invariant |states| == |at| + 1 && Eliminations(states, at)
      invariant states[0] == old(diffs.items) && states[|at|] == diffs.items
      invariant NoneEmpty(old(diffs.items)) ==> NoneEmpty(diffs.items)
      invariant if changes then !NoneTrivial(old(diffs.items), |old(diffs.items)|) else diffs.items == old(diffs.items)
      invariant Scanning(diffs.items, pointer, equalities, equalitiesLength,
                         length_insertions1, length_deletions1, length_insertions2, length_deletions2, lastEquality)
      decreases Equalities(diffs.items), |diffs.items| - pointer
    {
      ghost var ds := diffs.items;
      if diffs.items[pointer].op == Equal {
        ScanningEquality(ds, pointer, equalities, equalitiesLength,
                         length_insertions1, length_deletions1, length_insertions2, length_deletions2, lastEquality);
        equalities := equalities[equalitiesLength := pointer];
        equalitiesLength := equalitiesLength + 1;
        length_insertions1, length_deletions1 := length_insertions2, length_deletions2;
        length_insertions2, length_deletions2 := 0, 0;
        lastEquality := Some(diffs.items[pointer].text);
        pointer := pointer + 1;
      } else {
        ghost var ins, del := length_insertions2, length_deletions2;
        if diffs.items[pointer].op == Insert {
          length_insertions2 := length_insertions2 + |diffs.items[pointer].text|;
        } else {
          length_deletions2 := length_deletions2 + |diffs.items[pointer].text|;
        }
        if lastEquality.Some? && lastEquality.value != []
           && |lastEquality.value| <= Max(length_insertions1, length_deletions1)
           && |lastEquality.value| <= Max(length_insertions2, length_deletions2)
        {
          ScanningBack(ds, pointer, equalities, equalitiesLength, length_insertions1, length_deletions1, ins, del,
                       lastEquality.value, length_insertions2, length_deletions2);
          EliminationsMore(states, at, equalities[equalitiesLength - 1]);
          EliminatedNoneEmpty(ds, equalities[equalitiesLength - 1]);
          EliminateAt(diffs, equalities[equalitiesLength - 1], lastEquality.value);
          states, at := states + [diffs.items], at + [equalities[equalitiesLength - 1]];
          // The equality before the eliminated one has to be looked at again.
          equalitiesLength := equalitiesLength - 2;
          pointer := if equalitiesLength > 0 then equalities[equalitiesLength - 1] + 1 else 0;
          length_insertions1, length_deletions1, length_insertions2, length_deletions2 := 0, 0, 0, 0;
          lastEquality := None;
          changes := true;
        } else {
          ScanningEdit(ds, pointer, equalities, equalitiesLength, length_insertions1, length_deletions1, ins, del,
                       lastEquality, length_insertions2, length_deletions2);
          pointer := pointer + 1;
        }
      }
    }
    ScanningEnds(diffs.items, equalities, equalitiesLength,
                 length_insertions1, length_deletions1, length_insertions2, length_deletions2, lastEquality);
  }

  /**
   The counter of the stack can drop below zero: the only stacked equality is eliminated, and two
   entries are popped.
   */
  lemma CounterBelowZero()
    ensures var ds, stack := [Diff(Insert, [97]), Diff(Equal, [120]), Diff(Insert, [98])], map[0 := 1];
            && Scanning(ds, 2, stack, 1, 1, 0, 0, 0, Some([120]))
            && Scanning(Eliminated(ds, 1), 0, stack, -1, 0, 0, 0, 0, None)
  {
    var ds := [Diff(Insert, [97]), Diff(Equal, [120]), Diff(Insert, [98])];
    hide Scanning, Eliminated, NoneTrivial;
    ScanningStarts(ds);
    ScanningEdit(ds, 0, map[], 0, 0, 0, 0, 0, None, 1, 0);
    ScanningEquality(ds, 1, map[], 0, 0, 0, 1, 0, None);
    ScanningBack(ds, 2, map[0 := 1], 1, 1, 0, 0, 0, [120], 1, 0);
  }

  // ---------------------------------------------------------------------------------------
  // Finding overlaps between deletions and insertions.

  lemma OverlapTexts(deletion: Text, insertion: Text, n: nat)
    requires OverlapOf(deletion, insertion, n)
    ensures SameTexts([Diff(Delete, deletion), Diff(Insert, insertion)],
                      [Diff(Delete, deletion[..|deletion| - n]), Diff(Equal, insertion[..n]),
                       Diff(Insert, insertion[n..])])
  {
    var d, e, i := Diff(Delete, deletion[..|deletion| - n]), Diff(Equal, insertion[..n]), Diff(Insert, insertion[n..]);
    TextsOfThree(d, e, i);
    TextsTwo(Diff(Delete, deletion), Diff(Insert, insertion));
    assert deletion == deletion[..|deletion| - n] + deletion[|deletion| - n..];
    assert insertion == insertion[..n] + insertion[n..];
  }

  lemma ReverseOverlapTexts(deletion: Text, insertion: Text, n: nat)
    requires OverlapOf(insertion, deletion, n)
    ensures SameTexts([Diff(Delete, deletion), Diff(Insert, insertion)],
                      [Diff(Insert, insertion[..|insertion| - n]), Diff(Equal, deletion[..n]),
                       Diff(Delete, deletion[n..])])
  {
    var i, e, d := Diff(Insert, insertion[..|insertion| - n]), Diff(Equal, deletion[..n]), Diff(Delete, deletion[n..]);
    TextsOfThree(i, e, d);
    TextsTwo(Diff(Delete, deletion), Diff(Insert, insertion));
    assert insertion == insertion[..|insertion| - n] + insertion[|insertion| - n..];
    assert deletion == deletion[..n] + deletion[n..];
  }

  lemma OverlapSplice(ds: seq<Diff>, p: nat, three: seq<Diff>)
    requires 0 < p < |ds| && SameTexts([ds[p - 1], ds[p]], three)
    ensures SameTexts(Splice(ds, p - 1, 2, three), ds)
  {
    assert ds[p - 1..p - 1 + 2] == [ds[p - 1], ds[p]];
    SpliceKeeps(ds, p - 1, 2, three);
  }

  ghost predicate LongestOverlap(a: Text, b: Text, n: nat)
  {
    OverlapOf(a, b, n) && forall m :: OverlapOf(a, b, m) ==> m <= n
  }

  /** A deletion and an insertion with the longer of their two overlaps taken out, if it is half of either. */
  function Extracted(deletion: Text, insertion: Text, n1: nat, n2: nat): seq<Diff>
    requires n1 <= |deletion| && n1 <= |insertion| && n2 <= |deletion| && n2 <= |insertion|
  {
    if n1 >= n2 then
      if 2 * n1 >= |deletion| || 2 * n1 >= |insertion| then
        [Diff(Delete, deletion[..|deletion| - n1]), Diff(Equal, insertion[..n1]), Diff(Insert, insertion[n1..])]
      else [Diff(Delete, deletion), Diff(Insert, insertion)]
    else if 2 * n2 >= |deletion| || 2 * n2 >= |insertion| then
      [Diff(Insert, insertion[..|insertion| - n2]), Diff(Equal, deletion[..n2]), Diff(Delete, deletion[n2..])]
    else [Diff(Delete, deletion), Diff(Insert, insertion)]
  }

  /** The largest of at most `n` units that end the one text and begin the other. */
  function OverlapUpTo(a: Text, b: Text, n: nat): (r: nat)
    requires n <= |a| && n <= |b|
    ensures r <= n && OverlapOf(a, b, r)
  {
    if n == 0 || OverlapOf(a, b, n) then n else OverlapUpTo(a, b, n - 1)
  }

  lemma {:induction false} OverlapUpToIs(a: Text, b: Text, n: nat, k: nat)
    requires k <= n <= |a| && n <= |b| && LongestOverlap(a, b, k)
    ensures OverlapUpTo(a, b, n) == k
  {
    if n > k {
      OverlapUpToIs(a, b, n - 1, k);
    }
  }

  /** A deletion and an insertion, with the longer of their longest overlaps taken out. */
  function Parted(deletion: Text, insertion: Text): seq<Diff>
  {
    var n := Min(|deletion|, |insertion|);
    Extracted(deletion, insertion, OverlapUpTo(deletion, insertion, n), OverlapUpTo(insertion, deletion, n))
  }

  lemma PartedIs(deletion: Text, insertion: Text, n1: nat, n2: nat)
    requires LongestOverlap(deletion, insertion, n1) && LongestOverlap(insertion, deletion, n2)
    ensures Parted(deletion, insertion) == Extracted(deletion, insertion, n1, n2)
  {
    OverlapUpToIs(deletion, insertion, Min(|deletion|, |insertion|), n1);
    OverlapUpToIs(insertion, deletion, Min(|deletion|, |insertion|), n2);
  }

  /** Every deletion that is followed by an insertion is parted from it. */
  function Overlaps(ds: seq<Diff>): seq<Diff>
  {
    if |ds| < 2 then ds
    else if ds[0].op.Delete? && ds[1].op.Insert? then Parted(ds[0].text, ds[1].text) + Overlaps(ds[2..])
    else [ds[0]] + Overlaps(ds[1..])
  }

  ghost predicate FullEqualities(ds: seq<Diff>)
  {
    forall i {:trigger ds[i]} :: 0 <= i < |ds| ==> !(ds[i].op.Equal? && ds[i].text == [])
  }

  lemma PartedFull(deletion: Text, insertion: Text)
    requires deletion != [] && insertion != []
    ensures FullEqualities(Parted(deletion, insertion))
  {
    hide OverlapUpTo;
    var n := Min(|deletion|, |insertion|);
    ExtractedFull(deletion, insertion, OverlapUpTo(deletion, insertion, n), OverlapUpTo(insertion, deletion, n));
  }

  lemma ExtractedFull(deletion: Text, insertion: Text, n1: nat, n2: nat)
    requires deletion != [] && insertion != []
    requires n1 <= |deletion| && n1 <= |insertion| && n2 <= |deletion| && n2 <= |insertion|
    ensures FullEqualities(Extracted(deletion, insertion, n1, n2))
  {
  }

  lemma {:induction false} OverlapsFull(ds: seq<Diff>)
    requires NoneEmpty(ds)
    ensures FullEqualities(Overlaps(ds))
  {
    hide Parted;
    if |ds| >= 2 {
      if ds[0].op.Delete? && ds[1].op.Insert? {
        PartedFull(ds[0].text, ds[1].text);
        OverlapsFull(ds[2..]);
      } else {
        OverlapsFull(ds[1..]);
      }
    }
  }

  /** Extracts the overlap of the deletion before `pointer` and the insertion at it, if it is large. */
  method ExtractOverlap(diffs: DiffList, pointer: nat) returns (p: nat, ghost n1: nat, ghost n2: nat)
    requires 0 < pointer < |diffs.items| && diffs.items[pointer - 1].op.Delete? && diffs.items[pointer].op.Insert?
    modifies diffs
    ensures SameTexts(diffs.items, old(diffs.items))
    ensures p - pointer == |diffs.items| - |old(diffs.items)| && p >= pointer
    ensures var deletion, insertion := old(diffs.items[pointer - 1].text), old(diffs.items[pointer].text);
            && LongestOverlap(deletion, insertion, n1) && LongestOverlap(insertion, deletion, n2)
            && diffs.items == Splice(old(diffs.items), pointer - 1, 2, Extracted(deletion, insertion, n1, n2))
  {
    hide Text1, Text2;
    ghost var ds := diffs.items;
    p := pointer;
    var deletion, insertion := diffs.items[pointer - 1].text, diffs.items[pointer].text;
    var overlap_length1 := CommonOverlap(deletion, insertion);
    var overlap_length2 := CommonOverlap(insertion, deletion);
    n1, n2 := overlap_length1, overlap_length2;
    if overlap_length1 >= overlap_length2 {
      if 2 * overlap_length1 >= |deletion| || 2 * overlap_length1 >= |insertion| {
        OverlapTexts(deletion, insertion, overlap_length1);
        diffs.items := Splice(diffs.items, pointer, 0, [Diff(Equal, insertion[..overlap_length1])]);
        diffs.items := diffs.items[pointer - 1 := Diff(Delete, deletion[..|deletion| - overlap_length1])];
        diffs.items := diffs.items[pointer + 1 := Diff(Insert, insertion[overlap_length1..])];
        p := p + 1;
      }
    } else if 2 * overlap_length2 >= |deletion| || 2 * overlap_length2 >= |insertion| {
      ReverseOverlapTexts(deletion, insertion, overlap_length2);
      diffs.items := Splice(diffs.items, pointer, 0, [Diff(Equal, deletion[..overlap_length2])]);
      diffs.items := diffs.items[pointer - 1 := Diff(Insert, insertion[..|insertion| - overlap_length2])];
      diffs.items := diffs.items[pointer + 1 := Diff(Delete, deletion[overlap_length2..])];
      p := p + 1;
    }
    if p > pointer {
      ghost var three := [diffs.items[pointer - 1], diffs.items[pointer], diffs.items[pointer + 1]];
      assert [ds[pointer - 1], ds[pointer]] == [Diff(Delete, deletion), Diff(Insert, insertion)];
      OverlapSplice(ds, pointer, three);
      assert diffs.items == Splice(ds, pointer - 1, 2, three);
    }
  }

  /**
   An overlap taken out of a deletion and an insertion that stand alone is itself trivial if it is
   half of the shorter.
   */
  lemma OverlapLeavesTrivial(deletion: Text, insertion: Text, n1: nat, n2: nat)
    requires n2 <= n1 <= |deletion| && n1 <= |insertion| && (2 * n1 >= |deletion| || 2 * n1 >= |insertion|)
    ensures Trivial(Extracted(deletion, insertion, n1, n2), 1) <==> 0 < n1 && 2 * n1 == Min(|deletion|, |insertion|)
  {
    var ds := Extracted(deletion, insertion, n1, n2);
    assert RunStart(ds, 1) == 0 && RunEnd(ds, 2) == 3;
    OneEdit(ds[0..1]);
    OneEdit(ds[2..3]);
    assert |ds[0].text| == |deletion| - n1 && |ds[1].text| == n1 && |ds[2].text| == |insertion| - n1;
    assert Size(ds[0..1]) == |deletion| - n1;
    assert Size(ds[2..3]) == |insertion| - n1;
    assert Trivial(ds, 1) <==> n1 > 0 && n1 <= |deletion| - n1 && n1 <= |insertion| - n1;
  }

  lemma OneEdit(ds: seq<Diff>)
    requires |ds| == 1 && !ds[0].op.Equal?
    ensures Size(ds) == |ds[0].text|
  {
    assert ds[..|ds| - 1] == [];
    assert Inserted(ds[..|ds| - 1]) == 0 && Deleted(ds[..|ds| - 1]) == 0;
  }

  /** What the clean-up makes of a list, step by step. */
  ghost predicate Cleaned(score: (Text, Text) -> int, before: seq<Diff>, changes: bool, states: seq<seq<Diff>>,
                          at: seq<nat>, merged: seq<Diff>, after: seq<Diff>)
  {
    && Eliminations(states, at) && states[0] == before && NoneTrivial(states[|at|], |states[|at|]|)
    && (changes <==> !NoneTrivial(before, |before|))
    && (if changes then Merged(merged) && SameTexts(merged, before) && EditSize(merged) <= EditSize(states[|at|])
        else merged == before && at == [])
    && after == if Ends(score, merged, 1) then Overlaps(AfterPass(score, merged, 1)) else AfterPass(score, merged, 1)
  }

  lemma OverlapsNext(ds: seq<Diff>, p: nat)
    requires 0 < p < |ds| && !(ds[p - 1].op.Delete? && ds[p].op.Insert?)
    ensures ds[..p - 1] + Overlaps(ds[p - 1..]) == ds[..p] + Overlaps(ds[p..])
  {
    hide Overlaps;
    OverlapsOne(ds[p - 1..]);
    assert ds[p - 1..][1..] == ds[p..];
    assert ds[..p] == ds[..p - 1] + [ds[p - 1]];
  }

  lemma OverlapsOne(ds: seq<Diff>)
    requires |ds| >= 2 && !(ds[0].op.Delete? && ds[1].op.Insert?)
    ensures Overlaps(ds) == [ds[0]] + Overlaps(ds[1..])
  {
  }

  lemma OverlapsPair(ds: seq<Diff>, p: nat, parted: seq<Diff>)
    requires 0 < p < |ds| && ds[p - 1].op.Delete? && ds[p].op.Insert? && parted == Parted(ds[p - 1].text, ds[p].text)
    ensures var next := Splice(ds, p - 1, 2, parted);
            var q := p - 1 + |parted|;
            |next| == |ds| - 2 + |parted| && ds[..p - 1] + Overlaps(ds[p - 1..]) == next[..q] + Overlaps(next[q..])
  {
    hide Overlaps, Parted;
    OverlapsTwo(ds[p - 1..]);
    assert ds[p - 1..][2..] == ds[p + 1..];
    var next, q := Splice(ds, p - 1, 2, parted), p - 1 + |parted|;
    assert next[..q] == ds[..p - 1] + parted && next[q..] == ds[p + 1..];
  }

  lemma OverlapsTwo(ds: seq<Diff>)
    requires |ds| >= 2 && ds[0].op.Delete? && ds[1].op.Insert?
    ensures Overlaps(ds) == Parted(ds[0].text, ds[1].text) + Overlaps(ds[2..])
  {
  }

  /**
   Eliminates, merges, moves edits to better places, and takes overlaps out. `ended` is false when the moving does not
   end; a list in which something was eliminated has been merged by then and cannot hold a blank pair.
   */
  method DiffCleanupSemantic(diffs: DiffList, score: (Text, Text) -> int)
    returns (ended: bool, ghost changes: bool, ghost states: seq<seq<Diff>>, ghost at: seq<nat>,
             ghost merged: seq<Diff>)
    modifies diffs
    ensures SameTexts(diffs.items, old(diffs.items))
    ensures ended <==> !NoneTrivial(old(diffs.items), |old(diffs.items)|) || Ends(score, old(diffs.items), 1)
    ensures ended <==> Ends(score, merged, 1)
    ensures Cleaned(score, old(diffs.items), changes, states, at, merged, diffs.items)
    ensures ended && NoneEmpty(old(diffs.items)) ==> FullEqualities(diffs.items)
  {
    hide Text1, Text2, NoBlankPair, Merged, Ends, NoneTrivial, NoneEmpty, FullEqualities, Eliminations, AfterPass,
         Overlaps, EditSize;
    ghost var before := diffs.items;
    var changed;
    changed, states, at := EliminateEqualities(diffs);
    changes := changed;
    if !changed {
      NothingEliminated(states, at);
    }
    if changed {
      DiffCleanupMerge(diffs);
      MergedHasNoBlankPair(diffs.items);
      NoPairEnds(score, diffs.items, 1);
    }
    merged := diffs.items;
    ended := DiffCleanupSemanticLossless(diffs, score);
    if !ended {
      return;
    }
    ghost var placed := diffs.items;
    if NoneEmpty(placed) {
      OverlapsFull(placed);
    }
    OverlapsStart(placed);
    var pointer: nat := 1;
    while pointer < |diffs.items|
      invariant 1 <= pointer && SameTexts(diffs.items, before)
      invariant pointer - 1 <= |diffs.items|
      invariant Overlaps(placed) == diffs.items[..pointer - 1] + Overlaps(diffs.items[pointer - 1..])
      decreases |diffs.items| - pointer
    {
      ghost var ds := diffs.items;
      if diffs.items[pointer - 1].op == Delete && diffs.items[pointer].op == Insert {
        ghost var n1, n2;
        ghost var at := pointer;
        pointer, n1, n2 := ExtractOverlap(diffs, pointer);
        PartedIs(ds[at - 1].text, ds[at].text, n1, n2);
        OverlapsPair(ds, at, Extracted(ds[at - 1].text, ds[at].text, n1, n2));
        pointer := pointer + 1;
      } else {
        OverlapsNext(ds, pointer);
      }
      pointer := pointer + 1;
    }
    OverlapsEnd(diffs.items, pointer);
  }

  lemma NothingEliminated(states: seq<seq<Diff>>, at: seq<nat>)
    requires Eliminations(states, at) && NoneTrivial(states[0], |states[0]|)
    ensures at == []
  {
    assert at != [] ==> Trivial(states[0], at[0]);
  }

  lemma OverlapsStart(ds: seq<Diff>)
    ensures ds[..0] + Overlaps(ds[0..]) == Overlaps(ds)
  {
    assert ds[0..] == ds;
  }

  lemma OverlapsEnd(ds: seq<Diff>, p: nat)
    requires 1 <= p && |ds| <= p && p - 1 <= |ds|
    ensures ds[..p - 1] + Overlaps(ds[p - 1..]) == ds
  {
  }
}
