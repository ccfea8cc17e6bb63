/** JavaScript strings, as the diff engine uses them: sequences of 16-bit code units. */
module Texts {
  newtype CodeUnit = x: int | 0 <= x < 0x10000

  type Text = seq<CodeUnit>

  const NEWLINE: CodeUnit := 10

  function Max(a: int, b: int): int { if a < b then b else a }

  function Min(a: int, b: int): int { if a < b then a else b }

  function Clamp(i: int, n: nat): nat { if i < 0 then 0 else if i > n then n else i }

  /** `s.substring(i, j)`: both ends are clamped, and swapped when out of order. */
  function Substring(s: Text, i: int, j: int): Text
  {
    var a, b := Clamp(i, |s|), Clamp(j, |s|);
    if a <= b then s[a..b] else s[b..a]
  }

  /** `s.substring(i)` */
  function SubstringFrom(s: Text, i: int): Text
  {
    s[Clamp(i, |s|)..]
  }

  /** `pat` occurs in `s` at position `i`. */
  predicate OccursAt(pat: Text, s: Text, i: int)
  {
    0 <= i && i + |pat| <= |s| && s[i..i + |pat|] == pat
  }

  /** `s.indexOf(pat, from)`: the first occurrence at or after `from`, or -1. */
  method IndexOf(s: Text, pat: Text, from: int) returns (i: int)
    ensures i == -1 || (Clamp(from, |s|) <= i && OccursAt(pat, s, i))
    ensures forall j :: Clamp(from, |s|) <= j && (i == -1 || j < i) ==> !OccursAt(pat, s, j)
  {
    i := Clamp(from, |s|);
    while i + |pat| <= |s|
      invariant Clamp(from, |s|) <= i
      invariant forall j :: Clamp(from, |s|) <= j < i ==> !OccursAt(pat, s, j)
      decreases |s| - i
    {
      if s[i..i + |pat|] == pat {
        return;
      }
      i := i + 1;
    }
    i := -1;
  }
}
