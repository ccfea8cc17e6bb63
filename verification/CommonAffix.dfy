/** Common prefixes, suffixes and overlaps of two texts. */
module CommonAffix {
  import opened Texts

  predicate CommonPrefixOf(a: Text, b: Text, n: int) { 0 <= n <= |a| && n <= |b| && a[..n] == b[..n] }

  predicate CommonSuffixOf(a: Text, b: Text, n: int) { 0 <= n <= |a| && n <= |b| && a[|a| - n..] == b[|b| - n..] }

  /** The last n units of `a` are the first n units of `b`. */
  predicate OverlapOf(a: Text, b: Text, n: int) { 0 <= n <= |a| && n <= |b| && a[|a| - n..] == b[..n] }

  /** The longest common prefix of at most `n` units. */
  function PrefixUpTo(a: Text, b: Text, n: nat): (r: nat)
    requires n <= |a| && n <= |b|
    ensures r <= n && CommonPrefixOf(a, b, r)
  {
    if n == 0 || CommonPrefixOf(a, b, n) then n else PrefixUpTo(a, b, n - 1)
  }

  function SuffixUpTo(a: Text, b: Text, n: nat): (r: nat)
    requires n <= |a| && n <= |b|
    ensures r <= n && CommonSuffixOf(a, b, r)
  {
    if n == 0 || CommonSuffixOf(a, b, n) then n else SuffixUpTo(a, b, n - 1)
  }

  function LongestPrefix(a: Text, b: Text): (r: nat)
    ensures r <= |a| && r <= |b| && CommonPrefixOf(a, b, r)
  {
    PrefixUpTo(a, b, Min(|a|, |b|))
  }

  function LongestSuffix(a: Text, b: Text): (r: nat)
    ensures r <= |a| && r <= |b| && CommonSuffixOf(a, b, r)
  {
    SuffixUpTo(a, b, Min(|a|, |b|))
  }

  ghost predicate PrefixAtMost(a: Text, b: Text, p: int)
  {
    forall m :: CommonPrefixOf(a, b, m) ==> m <= p
  }

  ghost predicate SuffixAtMost(a: Text, b: Text, s: int)
  {
    forall m :: CommonSuffixOf(a, b, m) ==> m <= s
  }

  lemma {:induction false} PrefixUpToIs(a: Text, b: Text, n: nat, k: nat)
    requires k <= n <= |a| && n <= |b| && CommonPrefixOf(a, b, k) && PrefixAtMost(a, b, k)
    ensures PrefixUpTo(a, b, n) == k
  {
    if n > k {
      PrefixUpToIs(a, b, n - 1, k);
    }
  }

  lemma {:induction false} SuffixUpToIs(a: Text, b: Text, n: nat, k: nat)
    requires k <= n <= |a| && n <= |b| && CommonSuffixOf(a, b, k) && SuffixAtMost(a, b, k)
    ensures SuffixUpTo(a, b, n) == k
  {
    if n > k {
      SuffixUpToIs(a, b, n - 1, k);
    }
  }

  lemma LongestPrefixIs(a: Text, b: Text, n: nat)
    requires CommonPrefixOf(a, b, n) && PrefixAtMost(a, b, n)
    ensures LongestPrefix(a, b) == n
  {
    PrefixUpToIs(a, b, Min(|a|, |b|), n);
  }

  lemma LongestSuffixIs(a: Text, b: Text, n: nat)
    requires CommonSuffixOf(a, b, n) && SuffixAtMost(a, b, n)
    ensures LongestSuffix(a, b) == n
  {
    SuffixUpToIs(a, b, Min(|a|, |b|), n);
  }

  lemma ShorterPrefix(a: Text, b: Text, n: int, m: int)
    requires CommonPrefixOf(a, b, n) && 0 <= m <= n
    ensures CommonPrefixOf(a, b, m)
  {
    assert a[..m] == a[..n][..m] && b[..m] == b[..n][..m];
  }

  lemma ShorterSuffix(a: Text, b: Text, n: int, m: int)
    requires CommonSuffixOf(a, b, n) && 0 <= m <= n
    ensures CommonSuffixOf(a, b, m)
  {
    assert a[|a| - m..] == a[|a| - n..][n - m..] && b[|b| - m..] == b[|b| - n..][n - m..];
  }

  lemma PrefixHead(a: Text, b: Text, m: int)
    requires CommonPrefixOf(a, b, m) && m >= 1
    ensures a != [] && b != [] && a[0] == b[0]
  {
    assert a[0] == a[..m][0] && b[0] == b[..m][0];
  }

  lemma SuffixLast(a: Text, b: Text, m: int)
    requires CommonSuffixOf(a, b, m) && m >= 1
    ensures a != [] && b != [] && a[|a| - 1] == b[|b| - 1]
  {
    assert a[|a| - 1] == a[|a| - m..][m - 1] && b[|b| - 1] == b[|b| - m..][m - 1];
  }

  /** Comparing only what lies past a known common prefix decides the longer prefix. */
  lemma PrefixStep(a: Text, b: Text, n: int, m: int)
    requires CommonPrefixOf(a, b, n) && n <= m <= |a| && m <= |b|
    ensures CommonPrefixOf(a, b, m) <==> a[n..m] == b[n..m]
  {
    assert a[..m] == a[..n] + a[n..m] && b[..m] == b[..n] + b[n..m];
    assert a[n..m] == a[..m][n..] && b[n..m] == b[..m][n..];
  }

  lemma SuffixStep(a: Text, b: Text, n: int, m: int)
    requires CommonSuffixOf(a, b, n) && n <= m <= |a| && m <= |b|
    ensures CommonSuffixOf(a, b, m) <==> a[|a| - m..|a| - n] == b[|b| - m..|b| - n]
  {
    assert a[|a| - m..] == a[|a| - m..|a| - n] + a[|a| - n..];
    assert b[|b| - m..] == b[|b| - m..|b| - n] + b[|b| - n..];
    assert a[|a| - m..|a| - n] == a[|a| - m..][..m - n];
    assert b[|b| - m..|b| - n] == b[|b| - m..][..m - n];
  }

  lemma FullOverlap(a: Text, b: Text)
    requires |a| == |b| && OverlapOf(a, b, |a|)
    ensures a == b
  {
    assert a[0..] == a && b[..|b|] == b;
  }

  lemma PrefixNone(a: Text, b: Text)
    requires a == [] || b == [] || a[0] != b[0]
    ensures CommonPrefixOf(a, b, 0) && PrefixAtMost(a, b, 0)
  {
    forall m | CommonPrefixOf(a, b, m)
      ensures m <= 0
    {
      if m > 0 {
        PrefixHead(a, b, m);
      }
    }
  }

  /** A common prefix that cannot be one unit longer is the longest. */
  lemma PrefixEnds(a: Text, b: Text, n: nat)
    requires n == Min(|a|, |b|) || !CommonPrefixOf(a, b, n + 1)
    ensures PrefixAtMost(a, b, n)
  {
    forall m | CommonPrefixOf(a, b, m)
      ensures m <= n
    {
      if m > n {
        ShorterPrefix(a, b, m, n + 1);
      }
    }
  }

  /** The binary search: `min` units are known to be shared, `max` are not unless they are all there is. */
  ghost predicate PrefixSearch(a: Text, b: Text, min: nat, mid: nat, max: nat)
  {
    && min <= mid <= max <= Min(|a|, |b|)
    && CommonPrefixOf(a, b, min)
    && (max == Min(|a|, |b|) || !CommonPrefixOf(a, b, max))
    && (mid == max || (mid == (max - min) / 2 + min && !CommonPrefixOf(a, b, max)))
  }

  lemma PrefixNext(a: Text, b: Text, min: nat, mid: nat, max: nat)
    requires PrefixSearch(a, b, min, mid, max) && min < mid
    ensures if a[min..mid] == b[min..mid] then PrefixSearch(a, b, mid, (max - mid) / 2 + mid, max)
            else PrefixSearch(a, b, min, (mid - min) / 2 + min, mid)
  {
    PrefixStep(a, b, min, mid);
    hide CommonPrefixOf;
  }

  lemma PrefixFound(a: Text, b: Text, min: nat, mid: nat, max: nat)
    requires PrefixSearch(a, b, min, mid, max) && min == mid
    ensures CommonPrefixOf(a, b, mid) && PrefixAtMost(a, b, mid)
  {
    hide CommonPrefixOf;
    PrefixEnds(a, b, mid);
  }

  /** The length of the longest common prefix, by binary search. */
  method CommonPrefix(text1: Text, text2: Text) returns (n: nat)
    ensures CommonPrefixOf(text1, text2, n)
    ensures PrefixAtMost(text1, text2, n)
  {
    if text1 == [] || text2 == [] || text1[0] != text2[0] {
      PrefixNone(text1, text2);
      return 0;
    }
    var pointermin, pointermax := 0, Min(|text1|, |text2|);
    var pointermid, pointerstart := pointermax, 0;
    hide CommonPrefixOf, PrefixAtMost, PrefixSearch;
    PrefixSearchStarts(text1, text2);
    while pointermin < pointermid
      invariant pointerstart == pointermin && 0 <= pointermin <= pointermid <= pointermax <= |text1|
                && pointermax <= |text2|
      invariant PrefixSearch(text1, text2, pointermin, pointermid, pointermax)
      decreases pointermax - pointermin, pointermid
    {
      PrefixNext(text1, text2, pointermin, pointermid, pointermax);
      if text1[pointerstart..pointermid] == text2[pointerstart..pointermid] {
        pointermin := pointermid;
        pointerstart := pointermin;
      } else {
        pointermax := pointermid;
      }
      pointermid := (pointermax - pointermin) / 2 + pointermin;
    }
    n := pointermid;
    PrefixFound(text1, text2, pointermin, pointermid, pointermax);
  }

  lemma PrefixSearchStarts(a: Text, b: Text)
    ensures PrefixSearch(a, b, 0, Min(|a|, |b|), Min(|a|, |b|))
  {
  }

  lemma SuffixNone(a: Text, b: Text)
    requires a == [] || b == [] || a[|a| - 1] != b[|b| - 1]
    ensures CommonSuffixOf(a, b, 0) && SuffixAtMost(a, b, 0)
  {
    forall m | CommonSuffixOf(a, b, m)
      ensures m <= 0
    {
      if m > 0 {
        SuffixLast(a, b, m);
      }
    }
  }

  /** A common suffix that cannot be one unit longer is the longest. */
  lemma SuffixEnds(a: Text, b: Text, n: nat)
    requires n == Min(|a|, |b|) || !CommonSuffixOf(a, b, n + 1)
    ensures SuffixAtMost(a, b, n)
  {
    forall m | CommonSuffixOf(a, b, m)
      ensures m <= n
    {
      if m > n {
        ShorterSuffix(a, b, m, n + 1);
      }
    }
  }

  /** The binary search: `min` units are known to be shared, `max` are not unless they are all there is. */
  ghost predicate SuffixSearch(a: Text, b: Text, min: nat, mid: nat, max: nat)
  {
    && min <= mid <= max <= Min(|a|, |b|)
    && CommonSuffixOf(a, b, min)
    && (max == Min(|a|, |b|) || !CommonSuffixOf(a, b, max))
    && (mid == max || (mid == (max - min) / 2 + min && !CommonSuffixOf(a, b, max)))
  }

  lemma SuffixNext(a: Text, b: Text, min: nat, mid: nat, max: nat)
    requires SuffixSearch(a, b, min, mid, max) && min < mid
    ensures if a[|a| - mid..|a| - min] == b[|b| - mid..|b| - min] then
            SuffixSearch(a, b, mid, (max - mid) / 2 + mid, max)
            else SuffixSearch(a, b, min, (mid - min) / 2 + min, mid)
  {
    SuffixStep(a, b, min, mid);
    hide CommonSuffixOf;
  }

  lemma SuffixFound(a: Text, b: Text, min: nat, mid: nat, max: nat)
    requires SuffixSearch(a, b, min, mid, max) && min == mid
    ensures CommonSuffixOf(a, b, mid) && SuffixAtMost(a, b, mid)
  {
    hide CommonSuffixOf;
    SuffixEnds(a, b, mid);
  }

  /** The length of the longest common suffix, by binary search. */
  method CommonSuffix(text1: Text, text2: Text) returns (n: nat)
    ensures CommonSuffixOf(text1, text2, n)
    ensures SuffixAtMost(text1, text2, n)
  {
    var n1, n2 := |text1|, |text2|;
    if text1 == [] || text2 == [] || text1[n1 - 1] != text2[n2 - 1] {
      SuffixNone(text1, text2);
      return 0;
    }
    var pointermin, pointermax := 0, Min(n1, n2);
    var pointermid, pointerend := pointermax, 0;
    hide CommonSuffixOf, SuffixAtMost, SuffixSearch;
    SuffixSearchStarts(text1, text2);
    while pointermin < pointermid
      invariant pointerend == pointermin && 0 <= pointermin <= pointermid <= pointermax <= n1 && pointermax <= n2
      invariant SuffixSearch(text1, text2, pointermin, pointermid, pointermax)
      decreases pointermax - pointermin, pointermid
    {
      SuffixNext(text1, text2, pointermin, pointermid, pointermax);
      if text1[n1 - pointermid..n1 - pointerend] == text2[n2 - pointermid..n2 - pointerend] {
        pointermin := pointermid;
        pointerend := pointermin;
      } else {
        pointermax := pointermid;
      }
      pointermid := (pointermax - pointermin) / 2 + pointermin;
    }
    n := pointermid;
    SuffixFound(text1, text2, pointermin, pointermid, pointermax);
  }

  lemma SuffixSearchStarts(a: Text, b: Text)
    ensures SuffixSearch(a, b, 0, Min(|a|, |b|), Min(|a|, |b|))
  {
  }

  /**
   An overlap at least as long as `length` puts the last `length` units of `a` somewhere in `b`,
   so it is at least `length` plus the first place where they occur.
   */
  lemma OverlapOccurs(a: Text, b: Text, n: int, length: int)
    requires |a| == |b| && OverlapOf(a, b, n) && 0 <= length <= n
    ensures OccursAt(a[|a| - length..], b, n - length)
  {
    assert a[|a| - length..] == a[|a| - n..][n - length..];
    assert b[n - length..n] == b[..n][n - length..];
  }

  /**
   Looks for an overlap of one unit and lengthens the pattern: by where it occurs when that is
   not at the start, and by one after each overlap found.
   */
  method GrowOverlap(text1: Text, text2: Text) returns (best: nat)
    requires |text1| == |text2| && text1 != text2
    ensures OverlapOf(text1, text2, best)
    ensures forall m :: OverlapOf(text1, text2, m) ==> m <= best
  {
    var text_length := |text1|;
    best := 0;
    var length := 1;
    while true
      invariant 1 <= length <= text_length && best < length && OverlapOf(text1, text2, best)
      invariant forall m :: OverlapOf(text1, text2, m) && m > best ==> m >= length
      decreases text_length - length, length - best
    {
      var pattern := text1[text_length - length..];
      var found := IndexOf(text2, pattern, 0);
      forall m | OverlapOf(text1, text2, m) && m > best
        ensures found != -1 && m >= length + found
      {
        OverlapOccurs(text1, text2, m, length);
      }
      if found == -1 {
        return;
      }
      length := length + found;
      if found == 0 || text1[text_length - length..] == text2[..length] {
        best := length;
        if length == text_length {
          FullOverlap(text1, text2);
        }
        length := length + 1;
      }
    }
  }

  /** The length of the longest suffix of the first text that is a prefix of the second. */
  method CommonOverlap(text1: Text, text2: Text) returns (best: nat)
    ensures OverlapOf(text1, text2, best)
    ensures forall m :: OverlapOf(text1, text2, m) ==> m <= best
  {
    if |text1| == 0 || |text2| == 0 {
      return 0;
    }
    var a, b := text1, text2;
    if |text1| > |text2| {
      a := text1[|text1| - |text2|..];
    } else if |text1| < |text2| {
      b := text2[..|text1|];
    }
    forall m
      ensures OverlapOf(text1, text2, m) <==> OverlapOf(a, b, m)
    {
      TruncatedOverlap(text1, text2, a, b, m);
    }
    if a == b {
      return Min(|text1|, |text2|);
    }
    best := GrowOverlap(a, b);
  }

  lemma TruncatedOverlap(text1: Text, text2: Text, a: Text, b: Text, m: int)
    requires a == if |text1| > |text2| then text1[|text1| - |text2|..] else text1
    requires b == if |text1| < |text2| then text2[..|text1|] else text2
    ensures OverlapOf(text1, text2, m) <==> OverlapOf(a, b, m)
  {
    if 0 <= m <= |text1| && m <= |text2| {
      assert a[|a| - m..] == text1[|text1| - m..];
      assert b[..m] == text2[..m];
    }
  }
}
