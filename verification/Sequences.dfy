/** Taking one element out of a sequence without repetitions. */
module Sequences {
  ghost predicate Distinct<T>(s: seq<T>)
  {
    forall i, j :: 0 <= i < j < |s| ==> s[i] != s[j]
  }

  /** `s` without the first occurrence of `x`. */
  function Without<T(==)>(s: seq<T>, x: T): seq<T>
  {
    if s == [] then [] else if s[0] == x then s[1..] else [s[0]] + Without(s[1..], x)
  }

  ghost function IndexIn<T>(s: seq<T>, x: T): (i: nat)
    requires x in s
    ensures i < |s| && s[i] == x
  {
    var i :| 0 <= i < |s| && s[i] == x; i
  }

  lemma {:induction false} WithoutAt<T>(s: seq<T>, i: nat)
    requires i < |s| && Distinct(s)
    ensures Without(s, s[i]) == s[..i] + s[i + 1..]
  {
    if i > 0 {
      WithoutAt(s[1..], i - 1);
      assert s[..i] == [s[0]] + s[1..][..i - 1];
      assert s[1..][i..] == s[i + 1..];
    }
  }

  lemma {:induction false} WithoutNone<T>(s: seq<T>, x: T)
    requires x !in s
    ensures Without(s, x) == s
  {
    if s != [] {
      WithoutNone(s[1..], x);
    }
  }

  ghost function Elements<T>(s: seq<T>): set<T>
  {
    set x | x in s
  }

  lemma ElementsJoin<T>(a: seq<T>, b: seq<T>)
    ensures Elements(a + b) == Elements(a) + Elements(b)
    ensures |a| == 1 ==> Elements(a) == {a[0]}
    ensures |b| == 1 ==> Elements(b) == {b[0]}
  {
  }

  lemma ElementsCut<T>(s: seq<T>, i: nat)
    requires i < |s| && Distinct(s)
    ensures Elements(s[..i] + s[i + 1..]) == Elements(s) - {s[i]}
  {
    ElementsJoin(s[..i], s[i + 1..]);
    assert s == s[..i] + [s[i]] + s[i + 1..];
    ElementsJoin(s[..i] + [s[i]], s[i + 1..]);
    ElementsJoin(s[..i], [s[i]]);
  }

  lemma WithoutKeeps<T>(s: seq<T>, x: T)
    requires Distinct(s)
    ensures Distinct(Without(s, x)) && Elements(Without(s, x)) == Elements(s) - {x}
  {
    if x in s {
      var i := IndexIn(s, x);
      WithoutAt(s, i);
      ElementsCut(s, i);
    } else {
      WithoutNone(s, x);
    }
  }
}
