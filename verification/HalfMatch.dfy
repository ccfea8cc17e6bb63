/** A common substring at least half as long as the longer text splits the problem in two. */
module HalfMatch {
  import opened Wrappers
  import opened Texts
  import opened CommonAffix

  /** Two texts around a common middle. */
  datatype Half = Half(text1a: Text, text1b: Text, text2a: Text, text2b: Text, common: Text) {
    ghost predicate Of(text1: Text, text2: Text)
    {
      text1 == text1a + common + text1b && text2 == text2a + common + text2b
    }

    function Swapped(): Half { Half(text2a, text2b, text1a, text1b, common) }
  }

  /** A common prefix after, and a common suffix before, positions i and j form a common middle. */
  lemma AroundSeed(long: Text, short: Text, i: nat, j: nat, p: nat, s: nat)
    requires i <= |long| && j <= |short|
    requires CommonPrefixOf(long[i..], short[j..], p) && CommonSuffixOf(long[..i], short[..j], s)
    ensures s <= i && s <= j && i + p <= |long| && j + p <= |short|
    ensures Half(long[..i - s], long[i + p..], short[..j - s], short[j + p..],
                 short[j - s..j] + short[j..j + p]).Of(long, short)
  {
    SeedSlices(long, i, p, s);
    SeedSlices(short, j, p, s);
  }

  /** The parts of a text around position i. */
  lemma SeedSlices(text: Text, i: nat, p: nat, s: nat)
    requires s <= i && i + p <= |text|
    ensures text[i..][..p] == text[i..i + p] && text[..i][i - s..] == text[i - s..i]
    ensures text == text[..i - s] + (text[i - s..i] + text[i..i + p]) + text[i + p..]
  {
  }

  /** `length` units from `a` in the one text are those from `b` in the other. */
  predicate Shared(long: Text, short: Text, a: int, b: int, length: int)
  {
    0 <= a && 0 <= b && 0 <= length && a + length <= |long| && b + length <= |short|
    && long[a..a + length] == short[b..b + length]
  }

  /** A shared substring that covers the seed shows up as an occurrence of the seed ... */
  lemma SeedInside(long: Text, short: Text, i: nat, q: nat, a: int, b: int, length: int)
    requires Shared(long, short, a, b, length) && a <= i && i + q <= a + length
    ensures OccursAt(long[i..i + q], short, b + (i - a))
  {
    Slice(long, a, a + length, i - a, q);
    Slice(short, b, b + length, i - a, q);
  }

  lemma Slice(s: Text, lo: int, hi: int, k: int, q: int)
    requires 0 <= lo && 0 <= k && 0 <= q && lo + k + q <= hi <= |s|
    ensures s[lo..hi][k..k + q] == s[lo + k..lo + k + q]
  {
    var x, y := s[lo..hi][k..k + q], s[lo + k..lo + k + q];
    assert |x| == |y| && forall t :: 0 <= t < |x| ==> x[t] == y[t];
  }

  /** ... around which the longest common prefix and suffix cover it. */
  lemma SeedExtends(long: Text, short: Text, i: nat, a: int, b: int, length: int, p: nat, s: nat)
    requires Shared(long, short, a, b, length) && a <= i <= a + length
    requires PrefixAtMost(long[i..], short[b + (i - a)..], p) && SuffixAtMost(long[..i], short[..b + (i - a)], s)
    ensures length <= s + p
  {
    var j := b + (i - a);
    assert long[i..][..a + length - i] == long[a..a + length][i - a..];
    assert short[j..][..a + length - i] == short[b..b + length][i - a..];
    assert CommonPrefixOf(long[i..], short[j..], a + length - i);
    assert long[..i][a..] == long[a..a + length][..i - a];
    assert short[..j][b..] == short[b..b + length][..i - a];
    assert CommonSuffixOf(long[..i], short[..j], i - a);
  }

  /** Shared substrings that cover the seed and meet it before position `end` are no longer than `n`. */
  ghost predicate NoLonger(long: Text, short: Text, i: nat, q: nat, end: int, n: nat)
  {
    forall a, b, length ::
      Shared(long, short, a, b, length) && a <= i && i + q <= a + length && b + (i - a) < end ==> length <= n
  }

  lemma NextSeed(long: Text, short: Text, i: nat, q: nat, seed: Text, from: int, next: int, n: nat)
    requires NoLonger(long, short, i, q, from, n) && i + q <= |long| && seed == long[i..i + q]
    requires forall k :: from <= k < next ==> !OccursAt(seed, short, k)
    ensures NoLonger(long, short, i, q, next, n)
  {
    forall a, b, length | Shared(long, short, a, b, length) && a <= i && i + q <= a + length && b + (i - a) < next
      ensures length <= n
    {
      SeedInside(long, short, i, q, a, b, length);
    }
  }

  lemma SeedTried(long: Text, short: Text, i: nat, q: nat, j: nat, p: nat, s: nat, n: nat)
    requires NoLonger(long, short, i, q, j, n) && i <= |long| && j <= |short|
    requires PrefixAtMost(long[i..], short[j..], p) && SuffixAtMost(long[..i], short[..j], s)
    ensures NoLonger(long, short, i, q, j + 1, Max(n, s + p))
  {
    forall a, b, length | Shared(long, short, a, b, length) && a <= i && i + q <= a + length && b + (i - a) < j + 1
      ensures length <= Max(n, s + p)
    {
      if b + (i - a) == j {
        SeedExtends(long, short, i, a, b, length, p, s);
      }
    }
  }

  /** The shared substring around the seed at `i` and its occurrence at `j`, as long as it gets. */
  function AroundAt(long: Text, short: Text, i: nat, j: nat): (h: Half)
    requires i <= |long| && j <= |short|
    ensures h.Of(long, short)
  {
    var p, s := LongestPrefix(long[i..], short[j..]), LongestSuffix(long[..i], short[..j]);
    AroundSeed(long, short, i, j, p, s);
    Half(long[..i - s], long[i + p..], short[..j - s], short[j + p..], short[j - s..j] + short[j..j + p])
  }

  /** The longest of those around occurrences before `end`, the first of them if several are as long. */
  function BestAround(long: Text, short: Text, i: nat, end: nat): (h: Half)
    requires i + |long| / 4 <= |long| && end <= |short| + 1
    ensures h.Of(long, short)
  {
    if end == 0 then Half([], long, [], short, [])
    else
      var best, h := BestAround(long, short, i, end - 1), AroundAt(long, short, i, end - 1);
      if OccursAt(long[i..i + |long| / 4], short, end - 1) && |best.common| < |h.common| then h else best
  }

  lemma {:induction false} BestSkips(long: Text, short: Text, i: nat, seed: Text, from: nat, next: nat)
    requires i + |long| / 4 <= |long| && seed == long[i..i + |long| / 4] && from <= next <= |short| + 1
    requires forall k :: from <= k < next ==> !OccursAt(seed, short, k)
    ensures BestAround(long, short, i, next) == BestAround(long, short, i, from)
    decreases next
  {
    hide OccursAt, AroundAt;
    if from < next {
      BestSkips(long, short, i, seed, from, next - 1);
    }
  }

  lemma AroundIs(long: Text, short: Text, i: nat, j: nat, p: nat, s: nat)
    requires i <= |long| && j <= |short|
    requires CommonPrefixOf(long[i..], short[j..], p) && CommonSuffixOf(long[..i], short[..j], s)
    requires PrefixAtMost(long[i..], short[j..], p) && SuffixAtMost(long[..i], short[..j], s)
    ensures s <= i && s <= j && i + p <= |long| && j + p <= |short|
    ensures AroundAt(long, short, i, j) ==
            Half(long[..i - s], long[i + p..], short[..j - s], short[j + p..], short[j - s..j] + short[j..j + p])
  {
    LongestPrefixIs(long[i..], short[j..], p);
    LongestSuffixIs(long[..i], short[..j], s);
  }

  function AtLeastHalf(h: Half, long: Text): Option<Half>
  {
    if 2 * |h.common| >= |long| then Some(h) else None
  }

  /** Extends one occurrence of the seed to both sides, and keeps the longer match. */
  method TryOccurrence(longtext: Text, shorttext: Text, i: nat, j: nat, best: Half) returns (better: Half)
    requires i + |longtext| / 4 <= |longtext| && j <= |shorttext|
    requires NoLonger(longtext, shorttext, i, |longtext| / 4, j, |best.common|)
    ensures var h := AroundAt(longtext, shorttext, i, j); better == if |best.common| < |h.common| then h else best
    ensures NoLonger(longtext, shorttext, i, |longtext| / 4, j + 1, |better.common|)
  {
    hide NoLonger, AroundAt, CommonPrefixOf, CommonSuffixOf, PrefixAtMost, SuffixAtMost;
    better := best;
    var prefixLength := CommonPrefix(longtext[i..], shorttext[j..]);
    var suffixLength := CommonSuffix(longtext[..i], shorttext[..j]);
    AroundIs(longtext, shorttext, i, j, prefixLength, suffixLength);
    SeedTried(longtext, shorttext, i, |longtext| / 4, j, prefixLength, suffixLength, |best.common|);
    if |best.common| < suffixLength + prefixLength {
      better := Half(longtext[..i - suffixLength], longtext[i + prefixLength..],
                     shorttext[..j - suffixLength], shorttext[j + prefixLength..],
                     shorttext[j - suffixLength..j] + shorttext[j..j + prefixLength]);
    }
  }

  /**
   Looks for a shared substring at least half as long as `longtext` that covers its quarter at `i`,
   the longest such.
   */
  method HalfMatchI(longtext: Text, shorttext: Text, i: nat) returns (r: Option<Half>)
    requires |longtext| >= 4 && i <= |longtext| / 2 + 1
    ensures r.Some? ==> r.value.Of(longtext, shorttext) && 2 * |r.value.common| >= |longtext|
    ensures r.Some? ==> NoLonger(longtext, shorttext, i, |longtext| / 4, |shorttext| + 1, |r.value.common|)
    ensures r.None? ==> NoLonger(longtext, shorttext, i, |longtext| / 4, |shorttext| + 1, (|longtext| - 1) / 2)
    ensures r == AtLeastHalf(BestAround(longtext, shorttext, i, |shorttext| + 1), longtext)
  {
    hide NoLonger, BestAround, AroundAt, CommonPrefixOf, CommonSuffixOf, PrefixAtMost, SuffixAtMost;
    ghost var q := |longtext| / 4;
    var seed := Substring(longtext, i, i + |longtext| / 4);
    assert seed == longtext[i..i + q];
    var best := Half([], longtext, [], shorttext, []);
    BestAtStart(longtext, shorttext, i);
    NoneBeforeStart(longtext, shorttext, i, q);
    var j := IndexOf(shorttext, seed, 0);
    BestSkips(longtext, shorttext, i, seed, 0, if j == -1 then |shorttext| + 1 else j);
    NextSeed(longtext, shorttext, i, q, seed, 0, if j == -1 then |shorttext| + 1 else j, 0);
    while j != -1
      invariant j == -1 || (0 <= j && OccursAt(seed, shorttext, j))
      invariant best == BestAround(longtext, shorttext, i, if j == -1 then |shorttext| + 1 else j)
      invariant NoLonger(longtext, shorttext, i, q, if j == -1 then |shorttext| + 1 else j, |best.common|)
      decreases if j == -1 then 0 else |shorttext| - j + 1
    {
      BestStep(longtext, shorttext, i, j);
      best := TryOccurrence(longtext, shorttext, i, j, best);
      var from := j + 1;
      j := IndexOf(shorttext, seed, from);
      BestSkips(longtext, shorttext, i, seed, from, if j == -1 then |shorttext| + 1 else j);
      NextSeed(longtext, shorttext, i, q, seed, from, if j == -1 then |shorttext| + 1 else j, |best.common|);
    }
    if 2 * |best.common| >= |longtext| {
      return Some(best);
    }
    Shorter(longtext, shorttext, i, q, |shorttext| + 1, |best.common|, (|longtext| - 1) / 2);
    r := None;
  }

  lemma BestAtStart(long: Text, short: Text, i: nat)
    requires i + |long| / 4 <= |long|
    ensures BestAround(long, short, i, 0) == Half([], long, [], short, [])
  {
  }

  lemma BestStep(long: Text, short: Text, i: nat, j: nat)
    requires i + |long| / 4 <= |long| && j <= |short| && OccursAt(long[i..i + |long| / 4], short, j)
    ensures var best, h := BestAround(long, short, i, j), AroundAt(long, short, i, j);
            BestAround(long, short, i, j + 1) == if |best.common| < |h.common| then h else best
  {
  }

  lemma NoneBeforeStart(long: Text, short: Text, i: nat, q: nat)
    ensures NoLonger(long, short, i, q, 0, 0)
  {
  }

  lemma Shorter(long: Text, short: Text, i: nat, q: nat, end: int, n: nat, m: nat)
    requires NoLonger(long, short, i, q, end, n) && n <= m
    ensures NoLonger(long, short, i, q, end, m)
  {
  }

  /** The texts share a substring of at least half the length of the longer. */
  ghost predicate ShareHalf(long: Text, short: Text)
  {
    exists a, b, length :: Shared(long, short, a, b, length) && 2 * length >= |long|
  }

  /** Every substring of half the length covers the second or the third quarter. */
  lemma QuartersSuffice(long: Text, short: Text)
    requires |long| >= 4
    requires NoLonger(long, short, (|long| + 3) / 4, |long| / 4, |short| + 1, (|long| - 1) / 2)
    requires NoLonger(long, short, (|long| + 1) / 2, |long| / 4, |short| + 1, (|long| - 1) / 2)
    ensures !ShareHalf(long, short)
  {
    forall a, b, length | Shared(long, short, a, b, length) ensures 2 * length < |long| {
      Quarters(|long|, a, length);
    }
  }

  lemma Quarters(n: nat, a: int, length: int)
    requires n >= 4 && 0 <= a && a + length <= n
    ensures 2 * length >= n && a <= (n + 3) / 4 ==> (n + 3) / 4 + n / 4 <= a + length
    ensures 2 * length >= n && a > (n + 3) / 4 ==> a <= (n + 1) / 2 && (n + 1) / 2 + n / 4 <= a + length
  {
  }

  lemma HalfShared(h: Half, long: Text, short: Text)
    requires h.Of(long, short) && 2 * |h.common| >= |long|
    ensures ShareHalf(long, short)
  {
    assert long[|h.text1a|..|h.text1a| + |h.common|] == h.common;
    assert short[|h.text2a|..|h.text2a| + |h.common|] == h.common;
    assert Shared(long, short, |h.text1a|, |h.text2a|, |h.common|);
  }

  /** The longer of two half-matches, the second if both are as long. */
  function Longer(h1: Option<Half>, h2: Option<Half>): Option<Half>
  {
    if h2.None? then h1 else if h1.None? then h2 else if |h1.value.common| > |h2.value.common| then h1 else h2
  }

  /** The half-match that is chosen: the longest around the second or around the third quarter of the longer text. */
  function ChosenAround(long: Text, short: Text): (h: Option<Half>)
    requires |long| >= 4
    ensures h.Some? ==> h.value.Of(long, short) && 2 * |h.value.common| >= |long|
  {
    Longer(AtLeastHalf(BestAround(long, short, (|long| + 3) / 4, |short| + 1), long),
           AtLeastHalf(BestAround(long, short, (|long| + 1) / 2, |short| + 1), long))
  }

  function ChosenHalf(text1: Text, text2: Text, unlimited: bool): (h: Option<Half>)
    ensures h.Some? ==> h.value.Of(text1, text2) && 2 * |h.value.common| >= Max(|text1|, |text2|) >= 4
  {
    var (long, short) := if |text1| > |text2| then (text1, text2) else (text2, text1);
    if unlimited || |long| < 4 || |short| * 2 < |long| then None
    else
      var h := ChosenAround(long, short);
      if h.None? || |text1| > |text2| then h else Some(h.value.Swapped())
  }

  method HalfMatchOf(longtext: Text, shorttext: Text) returns (hm: Option<Half>)
    requires |longtext| >= 4
    ensures hm == ChosenAround(longtext, shorttext)
    ensures hm.Some? <==> ShareHalf(longtext, shorttext)
  {
    hide NoLonger, ShareHalf, BestAround;
    var hm1 := HalfMatchI(longtext, shorttext, (|longtext| + 3) / 4);
    var hm2 := HalfMatchI(longtext, shorttext, (|longtext| + 1) / 2);
    if hm1.None? && hm2.None? {
      QuartersSuffice(longtext, shorttext);
      return None;
    } else if hm2.None? {
      hm := hm1;
    } else if hm1.None? {
      hm := hm2;
    } else {
      hm := if |hm1.value.common| > |hm2.value.common| then hm1 else hm2;
    }
    HalfShared(hm.value, longtext, shorttext);
  }

  /**
   Is half of the longer text to be found in the other one in one piece, and which piece is taken? The
   answer is exact for texts of four units and more. With an unlimited timeout the question is not asked.
   */
  method DiffHalfMatch(text1: Text, text2: Text, unlimited: bool) returns (r: Option<Half>)
    ensures r.Some? ==> r.value.Of(text1, text2) && 2 * |r.value.common| >= Max(|text1|, |text2|)
    ensures r.Some? <==> !unlimited && Max(|text1|, |text2|) >= 4
                         && if |text1| > |text2| then ShareHalf(text1, text2) else ShareHalf(text2, text1)
    ensures r == ChosenHalf(text1, text2, unlimited)
  {
    hide ShareHalf, ChosenAround;
    if unlimited {
      return None;
    }
    var longtext := if |text1| > |text2| then text1 else text2;
    var shorttext := if |text1| > |text2| then text2 else text1;
    if |longtext| < 4 || |shorttext| * 2 < |longtext| {
      TooShort(longtext, shorttext);
      return None;
    }
    var hm := HalfMatchOf(longtext, shorttext);
    r := if hm.None? || |text1| > |text2| then hm else Some(hm.value.Swapped());
  }

  lemma TooShort(long: Text, short: Text)
    ensures |short| * 2 < |long| ==> !ShareHalf(long, short)
  {
  }
}
