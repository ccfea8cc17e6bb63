/** Encoding texts line by line, one code unit per distinct line, and back. */
module LineMode {
  import opened Wrappers
  import opened Texts
  import opened Diffs

  const HAS_OWN_PROPERTY: Text := [104, 97, 115, 79, 119, 110, 80, 114, 111, 112, 101, 114, 116, 121]
  const PROTO: Text := [95, 95, 112, 114, 111, 116, 111, 95, 95]
  const MAX_LINES_1: nat := 40000
  const MAX_LINES_2: nat := 65535

  /** `text[a..b]` is a line of the text, with its newline if it has one. */
  ghost predicate IsLine(text: Text, a: int, b: int)
  {
    && 0 <= a < b <= |text|
    && (a == 0 || text[a - 1] == NEWLINE)
    && (forall i :: a <= i < b - 1 ==> text[i] != NEWLINE)
    && (text[b - 1] == NEWLINE || b == |text|)
  }

  /** The distinct lines among the first `end` units of the text. */
  ghost function LineSet(text: Text, end: nat): set<Text>
    requires end <= |text|
  {
    set a, b | 0 <= a < b <= end && IsLine(text, a, b) :: text[a..b]
  }

  ghost predicate AtLineStart(text: Text, i: int)
  {
    0 <= i <= |text| && (i == 0 || text[i - 1] == NEWLINE)
  }

  lemma LineSetGrows(text: Text, start: nat, end: nat)
    requires AtLineStart(text, start) && IsLine(text, start, end)
    ensures LineSet(text, end) == LineSet(text, start) + {text[start..end]}
  {
    forall a, b | 0 <= a < b <= end && IsLine(text, a, b)
      ensures b <= start || (a == start && b == end)
    {
      OneLine(text, start, end, a, b);
    }
  }

  lemma OneLine(text: Text, start: nat, end: nat, a: int, b: int)
    requires AtLineStart(text, start) && IsLine(text, start, end) && IsLine(text, a, b) && b <= end
    ensures b <= start || (a == start && b == end)
  {
    assert forall i :: a <= i < b - 1 ==> text[i] != NEWLINE;
    assert forall i :: start <= i < end - 1 ==> text[i] != NEWLINE;
  }

  lemma LineSetMonotone(text: Text, start: nat, end: nat)
    requires start <= end <= |text|
    ensures LineSet(text, start) <= LineSet(text, end)
  {
  }

  /**
   The text's last line is the bare word hasOwnProperty, and the line table has room left when it
   is reached. Storing that word hides the method that the table's lookups call.
   */
  ghost predicate HidesLookup(text: Text)
  {
    && |text| >= |HAS_OWN_PROPERTY|
    && var n := |text| - |HAS_OWN_PROPERTY|;
       text[n..] == HAS_OWN_PROPERTY && AtLineStart(text, n) && |LineSet(text, n)| < MAX_LINES_1
  }

  /** Where a text whose table is not yet full hides the lookup: only in its bare last line. */
  lemma HidesOnlyAtEnd(text: Text, start: nat)
    requires AtLineStart(text, start) && start < |text|
    requires forall i :: start <= i < |text| - 1 ==> text[i] != NEWLINE
    requires |LineSet(text, start)| < MAX_LINES_1
    ensures HidesLookup(text) <==> text[start..] == HAS_OWN_PROPERTY
  {
    var n := |text| - |HAS_OWN_PROPERTY|;
    if 0 <= n && text[n..] == HAS_OWN_PROPERTY && AtLineStart(text, n) {
      BareTail(text, n);
      assert n <= start;
      assert start <= n;
    }
  }

  /** The word hasOwnProperty holds no newline. */
  lemma BareTail(text: Text, n: nat)
    requires n <= |text| && text[n..] == HAS_OWN_PROPERTY
    ensures forall i :: n <= i < |text| ==> text[i] != NEWLINE
  {
    forall i | n <= i < |text|
      ensures text[i] != NEWLINE
    {
      assert text[i] == HAS_OWN_PROPERTY[i - n];
    }
  }

  /** A later line start lies behind the line, and the table has learnt it by then. */
  lemma LaterStart(text: Text, start: nat, end: nat, n: nat)
    requires AtLineStart(text, start) && IsLine(text, start, end) && AtLineStart(text, n) && start < n
    requires text[start..end] !in LineSet(text, start)
    ensures |LineSet(text, start)| + 1 <= |LineSet(text, n)|
  {
    LineSetGrows(text, start, end);
    assert end <= n;
    LineSetMonotone(text, end, n);
    hide LineSet, IsLine, AtLineStart;
    SubsetSize(LineSet(text, end), LineSet(text, n));
  }

  /** Before a bare last word there is no line start behind the word's own. */
  lemma WordAtEnd(text: Text, start: nat, n: nat)
    requires AtLineStart(text, start) && start < |text| && n <= |text| && text[n..] == HAS_OWN_PROPERTY
    ensures start <= n
  {
    BareTail(text, n);
  }

  /** A full table that meets a new line hides the lookup only if that line is the bare word. */
  lemma HidesWhenFull(text: Text, start: nat, end: nat)
    requires AtLineStart(text, start) && IsLine(text, start, end)
    requires |LineSet(text, start)| == MAX_LINES_1 - 1 && text[start..end] !in LineSet(text, start)
    ensures HidesLookup(text) <==> text[start..] == HAS_OWN_PROPERTY
  {
    assert start < |text|;
    hide LineSet, IsLine, AtLineStart;
    var n := |text| - |HAS_OWN_PROPERTY|;
    if 0 <= n && text[n..] == HAS_OWN_PROPERTY && AtLineStart(text, n) {
      WordAtEnd(text, start, n);
      if n > start {
        LaterStart(text, start, end, n);
      }
    }
  }

  lemma SubsetSize(a: set<Text>, b: set<Text>)
    requires a <= b
    ensures |a| <= |b|
  {
    assert b == a + (b - a);
  }

  /** Every code names a non-empty line. */
  predicate Codes(chars: Text, lineArray: seq<Text>)
  {
    forall i {:trigger chars[i]} ::
      0 <= i < |chars| ==> 0 < (chars[i] as int) < |lineArray| && lineArray[chars[i] as int] != []
  }

  /** The text that a string of line codes stands for. */
  function Decode(chars: Text, lineArray: seq<Text>): Text
    requires Codes(chars, lineArray)
  {
    if chars == [] then [] else lineArray[chars[0] as int] + Decode(chars[1..], lineArray)
  }

  lemma {:induction false} DecodeAppend(a: Text, b: Text, lineArray: seq<Text>)
    requires Codes(a, lineArray) && Codes(b, lineArray)
    ensures Codes(a + b, lineArray)
    ensures Decode(a + b, lineArray) == Decode(a, lineArray) + Decode(b, lineArray)
  {
    if a == [] {
      assert a + b == b;
    } else {
      assert (a + b)[1..] == a[1..] + b;
      DecodeAppend(a[1..], b, lineArray);
    }
  }

  lemma {:induction false} DecodeExtended(chars: Text, lineArray: seq<Text>, longer: seq<Text>)
    requires Codes(chars, lineArray) && lineArray <= longer
    ensures Codes(chars, longer) && Decode(chars, longer) == Decode(chars, lineArray)
  {
    if chars != [] {
      DecodeExtended(chars[1..], lineArray, longer);
    }
  }

  lemma DecodeOne(c: CodeUnit, lineArray: seq<Text>)
    requires 0 < (c as int) < |lineArray| && lineArray[c as int] != []
    ensures Codes([c], lineArray) && Decode([c], lineArray) == lineArray[c as int]
  {
    assert [c][1..] == [];
  }

  /** What assigning to the key `line` of a JavaScript object adds to its own keys. */
  function Kept(line: Text): set<Text> { if line == PROTO then {} else {line} }

  /** A line found by its newline is a line, and the table learns it. */
  lemma LineStored(text: Text, start: nat, end: nat)
    requires AtLineStart(text, start) && start < end <= |text| && (text[end - 1] == NEWLINE || end == |text|)
    requires forall i :: start <= i < end - 1 ==> text[i] != NEWLINE
    ensures IsLine(text, start, end) && LineSet(text, end) == LineSet(text, start) + {text[start..end]}
    ensures end < |text| ==> AtLineStart(text, end)
    ensures text[end - 1] == NEWLINE ==> text[start..end] != HAS_OWN_PROPERTY && text[start..end] != PROTO
    ensures HAS_OWN_PROPERTY != PROTO
  {
    assert |HAS_OWN_PROPERTY| != |PROTO|;
    LineSetGrows(text, start, end);
    if text[end - 1] == NEWLINE {
      assert text[start..end][end - start - 1] == NEWLINE;
    }
  }

  /** What a first text's table learns from one more line, in each case of the lookup. */
  lemma Learns(text: Text, start: nat, end: nat)
    requires AtLineStart(text, start) && IsLine(text, start, end)
    requires |LineSet(text, start)| < MAX_LINES_1 && HAS_OWN_PROPERTY !in LineSet(text, start)
    ensures var keys, line := LineSet(text, start), text[start..end];
            && (line in keys ==> LineSet(text, end) == keys && (end == |text| ==> !HidesLookup(text)))
            && (line !in keys ==> LineSet(text, end) == keys + {line} && |LineSet(text, end)| == |keys| + 1)
            && (line !in keys && end == |text| ==> (line == HAS_OWN_PROPERTY <==> HidesLookup(text)))
            && (line !in keys && |keys| == MAX_LINES_1 - 1 ==>
                  (text[start..] == HAS_OWN_PROPERTY <==> HidesLookup(text)))
  {
    LineSetGrows(text, start, end);
    if end == |text| {
      assert text[start..end] == text[start..];
      HidesOnlyAtEnd(text, start);
    }
    if text[start..end] !in LineSet(text, start) && |LineSet(text, start)| == MAX_LINES_1 - 1 {
      HidesWhenFull(text, start, end);
    }
  }

  /** Only the end of the text can store the bare word. */
  lemma NotHidden(text: Text, start: nat, end: nat, keys: set<Text>, full: bool, keys': set<Text>)
    requires AtLineStart(text, start) && IsLine(text, start, end) && HAS_OWN_PROPERTY !in keys
    requires keys' == Stored(keys, text[start..end], text[start..], full)
    ensures !full && end < |text| ==> HAS_OWN_PROPERTY !in keys'
  {
    LineStored(text, start, end);
  }

  /** What the table of a first text holds: the lines so far, and at the end perhaps the bare word. */
  ghost predicate FirstKnows(text: Text, pos: nat, keys: set<Text>, n: nat)
  {
    pos <= |text| &&
    if pos < |text| then keys == LineSet(text, pos) && n == 1 + |keys|
    else HAS_OWN_PROPERTY in keys <==> HidesLookup(text)
  }

  lemma Learned(text: Text, start: nat, end: nat, keys: set<Text>, n: nat, full: bool, keys': set<Text>, n': nat)
    requires AtLineStart(text, start) && IsLine(text, start, end)
    requires FirstKnows(text, start, keys, n) && n <= MAX_LINES_1 && HAS_OWN_PROPERTY !in keys
    requires full <==> text[start..end] !in keys && n == MAX_LINES_1
    requires n' == n + (if text[start..end] in keys then 0 else 1)
    requires keys' == Stored(keys, text[start..end], text[start..], full)
    ensures FirstKnows(text, if full then |text| else end, keys', n')
  {
    hide LineSet, HidesLookup;
    Learns(text, start, end);
    LineStored(text, start, end);
    assert HAS_OWN_PROPERTY in Kept(text[start..end]) <==> HAS_OWN_PROPERTY == text[start..end];
    assert HAS_OWN_PROPERTY in Kept(text[start..]) <==> HAS_OWN_PROPERTY == text[start..];
  }

  /** The codes so far stand for the text before `pos`. */
  ghost predicate Encoded(text: Text, pos: nat, chars: Text, lineArray: seq<Text>)
  {
    pos <= |text| && Codes(chars, lineArray) && Decode(chars, lineArray) == text[..pos]
  }

  lemma NothingEncoded(text: Text, lineArray: seq<Text>)
    ensures Encoded(text, 0, [], lineArray) && AtLineStart(text, 0) && FirstKnows(text, 0, {}, 1)
  {
  }

  lemma AllEncoded(text: Text, chars: Text, lineArray: seq<Text>)
    requires Encoded(text, |text|, chars, lineArray)
    ensures Codes(chars, lineArray) && Decode(chars, lineArray) == text
  {
  }

  lemma AllKnown(text: Text, keys: set<Text>, n: nat)
    ensures FirstKnows(text, |text|, keys, n) ==> (HAS_OWN_PROPERTY in keys <==> HidesLookup(text))
  {
  }

  lemma EncodedMore(text: Text, pos: nat, chars: Text, la: seq<Text>, c: CodeUnit, la': seq<Text>, next: nat)
    requires Encoded(text, pos, chars, la) && la <= la' && pos < next <= |text|
    requires 0 < (c as int) < |la'| && la'[c as int] == text[pos..next]
    ensures Encoded(text, next, chars + [c], la')
  {
    DecodeExtended(chars, la, la');
    DecodeOne(c, la');
    DecodeAppend(chars, [c], la');
  }

  method IndexOfNewline(text: Text, from: nat) returns (i: int)
    requires from < |text|
    ensures i == -1 || (from <= i < |text| && text[i] == NEWLINE)
    ensures forall j :: from <= j < (if i == -1 then |text| else i) ==> text[j] != NEWLINE
  {
    i := IndexOf(text, [NEWLINE], from);
    forall j | from <= j < (if i == -1 then |text| else i)
      ensures text[j] != NEWLINE
    {
      assert !OccursAt([NEWLINE], text, j);
      assert text[j..j + 1] == [text[j]];
    }
  }

  /** Code `i` stands for what the text holds between two cuts: a line, or all the rest if the table is `full`. */
  ghost predicate LineAt(text: Text, chars: Text, lineArray: seq<Text>, cuts: seq<nat>, full: bool, i: nat)
    requires i < |chars| && |cuts| == |chars| + 1
  {
    && cuts[i] < cuts[i + 1] <= |text|
    && 0 < chars[i] as int < |lineArray| && lineArray[chars[i] as int] == text[cuts[i]..cuts[i + 1]]
    && (IsLine(text, cuts[i], cuts[i + 1]) || (full && i == |chars| - 1 && cuts[i + 1] == |text|))
  }

  /** The codes stand for the lines of the text one by one; only the last may stand for several. */
  ghost predicate LineByLine(text: Text, pos: nat, chars: Text, lineArray: seq<Text>, cuts: seq<nat>, full: bool)
  {
    && |cuts| == |chars| + 1 && cuts[0] == 0 && cuts[|chars|] == pos
    && forall i: nat :: i < |chars| ==> LineAt(text, chars, lineArray, cuts, full, i)
  }

  lemma LineByLineMore(text: Text, pos: nat, chars: Text, la: seq<Text>, cuts: seq<nat>, c: CodeUnit, la': seq<Text>,
                       next: nat, full: bool)
    requires LineByLine(text, pos, chars, la, cuts, false) && la <= la' && pos < next <= |text|
    requires 0 < c as int < |la'| && la'[c as int] == text[pos..next]
    requires IsLine(text, pos, next) || (full && next == |text|)
    ensures LineByLine(text, next, chars + [c], la', cuts + [next], full)
  {
    hide IsLine;
    var chars', cuts' := chars + [c], cuts + [next];
    forall i: nat | i < |chars'| ensures LineAt(text, chars', la', cuts', full, i) {
      if i < |chars| {
        assert LineAt(text, chars, la, cuts, false, i);
      }
    }
  }

  lemma NotFullYet(text: Text, pos: nat, chars: Text, la: seq<Text>, cuts: seq<nat>, full: bool)
    requires LineByLine(text, pos, chars, la, cuts, full) && (pos < |text| || !full)
    ensures LineByLine(text, pos, chars, la, cuts, false)
  {
    hide IsLine;
    forall i: nat | i < |chars| ensures LineAt(text, chars, la, cuts, false, i) {
      assert LineAt(text, chars, la, cuts, full, i);
    }
  }

  lemma LineByLineLonger(text: Text, pos: nat, chars: Text, la: seq<Text>, cuts: seq<nat>, full: bool, la': seq<Text>)
    requires LineByLine(text, pos, chars, la, cuts, full) && la <= la'
    ensures LineByLine(text, pos, chars, la', cuts, full)
  {
    hide IsLine;
    forall i: nat | i < |chars| ensures LineAt(text, chars, la', cuts, full, i) {
      assert LineAt(text, chars, la, cuts, full, i);
    }
  }

  lemma NothingCut(text: Text, la: seq<Text>)
    ensures LineByLine(text, 0, [], la, [0], false)
  {
  }

  /** No line has two codes, unless it is the name __proto__; the last code of all may repeat an entry. */
  ghost predicate OneCodeEach(lineArray: seq<Text>)
  {
    forall i, j {:trigger lineArray[i], lineArray[j]} ::
      0 < i < j < |lineArray| && j < MAX_LINES_2 && lineArray[i] == lineArray[j] ==> lineArray[i] == PROTO
  }

  lemma OneEntry(lineArray: seq<Text>)
    requires |lineArray| == 1
    ensures OneCodeEach(lineArray)
  {
  }

  lemma OneCodeMore(lineArray: seq<Text>, line: Text)
    requires OneCodeEach(lineArray) && |lineArray| > 0
    requires |lineArray| >= MAX_LINES_2 || line == PROTO || line !in lineArray[1..]
    ensures OneCodeEach(lineArray + [line])
  {
    var next := lineArray + [line];
    forall i, j {:trigger next[i], next[j]} | 0 < i < j < |next| && j < MAX_LINES_2 && next[i] == next[j]
      ensures next[i] == PROTO
    {
      if j == |lineArray| {
        assert lineArray[1..][i - 1] == next[i];
      }
    }
  }

  /** If the rest of a text came before as a line, it is a single line. */
  lemma RestIsLine(text: Text, pos: nat, end: nat)
    requires AtLineStart(text, pos) && IsLine(text, pos, end) && text[pos..] in LineSet(text, pos)
    ensures text[pos..end] in LineSet(text, pos)
  {
    var a, b :| 0 <= a < b <= pos && IsLine(text, a, b) && text[a..b] == text[pos..];
    forall i | pos <= i < |text| - 1 ensures text[i] != NEWLINE {
      assert text[pos..][i - pos] == text[a..b][i - pos];
    }
    assert end == |text|;
    assert text[pos..end] == text[pos..];
  }

  /** The keys after looking a line up, and storing it, or the rest of a text when the table is full. */
  function Stored(keys: set<Text>, line: Text, rest: Text, full: bool): set<Text>
  {
    if line in keys then keys else keys + Kept(if full then rest else line)
  }

  /** The table of distinct lines that both texts share. */
  class LineTable {
    var lineArray: seq<Text>
    var lineHash: map<Text, CodeUnit>

    ghost predicate Valid()
      reads this
    {
      && 1 <= |lineArray| <= 0x10000
      && (forall line :: line in lineHash ==>
            0 < lineHash[line] as int < |lineArray| && lineArray[lineHash[line] as int] == line && line != [])
      && (forall i {:trigger lineArray[i]} :: 0 < i < |lineArray| && lineArray[i] != PROTO ==> lineArray[i] in lineHash)
    }

    constructor ()
      ensures Valid() && lineArray == [[]] && lineHash == map[]
    {
      // Entry 0 stands for nothing: code 0 is never given out.
      lineArray := [[]];
      lineHash := map[];
    }

    /** Gives a line that the table does not know the next free code. */
    method Add(line: Text) returns (c: CodeUnit)
      requires Valid() && line != [] && |lineArray| < 0x10000
      modifies this
      ensures Valid() && lineArray == old(lineArray) + [line] && c as int == |old(lineArray)|
      ensures lineHash.Keys == old(lineHash.Keys) + Kept(line)
    {
      c := |lineArray| as CodeUnit;
      // Assigning a number to the key __proto__ of an object stores nothing.
      if line != PROTO {
        lineHash := lineHash[line := c];
      }
      lineArray := lineArray + [line];
    }

    /** The code of a line; a full table gives its last code to all the rest of the text. */
    method LookUpOrAdd(line: Text, rest: Text, maxLines: nat) returns (c: CodeUnit, full: bool)
      requires Valid() && |lineArray| <= maxLines <= MAX_LINES_2 && line != [] && rest != []
      modifies this
      ensures Valid() && old(lineArray) <= lineArray && 0 < (c as int) < |lineArray| <= maxLines + 1
      ensures full <==> line !in old(lineHash.Keys) && |old(lineArray)| == maxLines
      ensures lineArray[c as int] == if full then rest else line
      ensures |lineArray| == |old(lineArray)| + (if line in old(lineHash.Keys) then 0 else 1)
      ensures lineHash.Keys == Stored(old(lineHash.Keys), line, rest, full)
      ensures OneCodeEach(old(lineArray)) && (maxLines == MAX_LINES_2 || (full ==> rest !in old(lineHash.Keys))) ==>
                OneCodeEach(lineArray)
    {
      full := false;
      if line in lineHash {
        c := lineHash[line];
      } else {
        var stored := line;
        if |lineArray| == maxLines {
          // No code is left but one: all the rest becomes a single line.
          stored, full := rest, true;
        }
        if OneCodeEach(lineArray) && (|lineArray| >= MAX_LINES_2 || stored !in lineHash) {
          if stored !in lineHash && stored != PROTO {
            NewLine(stored);
          }
          OneCodeMore(lineArray, stored);
        }
        c := Add(stored);
      }
    }

    lemma NewLine(line: Text)
      requires Valid() && line !in lineHash && line != PROTO
      ensures line !in lineArray[1..]
    {
      forall i | 0 <= i < |lineArray[1..]| ensures lineArray[1..][i] != line {
        assert lineArray[1..][i] == lineArray[i + 1];
      }
    }

    /** Encodes the line that starts at `pos`, or all the rest of the text when the table is full. */
    method EncodeLine(text: Text, pos: nat, chars: Text, maxLines: nat, ghost first: bool)
      returns (chars': Text, next: nat, ghost c: CodeUnit)
      requires Valid() && |lineArray| <= maxLines <= MAX_LINES_2 && HAS_OWN_PROPERTY !in lineHash.Keys
      requires pos < |text| && AtLineStart(text, pos) && Encoded(text, pos, chars, lineArray)
      requires first ==> maxLines == MAX_LINES_1 && FirstKnows(text, pos, lineHash.Keys, |lineArray|)
      modifies this
      ensures Valid() && old(lineArray) <= lineArray && |lineArray| <= maxLines + 1
      ensures pos < next <= |text| && Encoded(text, next, chars', lineArray)
      ensures next < |text| ==> |lineArray| <= maxLines && AtLineStart(text, next) && HAS_OWN_PROPERTY !in lineHash.Keys
      ensures first ==> FirstKnows(text, next, lineHash.Keys, |lineArray|)
      ensures chars' == chars + [c] && 0 < c as int < |lineArray| && lineArray[c as int] == text[pos..next]
      ensures IsLine(text, pos, next) || (next == |text| && |lineArray| == maxLines + 1)
      ensures OneCodeEach(old(lineArray)) && (first || maxLines == MAX_LINES_2) ==> OneCodeEach(lineArray)
    {
      hide HidesLookup, AtLineStart, IsLine, Codes, Stored, Valid, Encoded, FirstKnows, LineSet, OneCodeEach;
      var lineEnd := IndexOfNewline(text, pos);
      if lineEnd == -1 {
        lineEnd := |text| - 1;
      }
      ghost var la, keys := lineArray, lineHash.Keys;
      LineStored(text, pos, lineEnd + 1);
      if first {
        FirstRest(text, pos, lineEnd + 1, keys, |la|);
      }
      var line, rest := text[pos..lineEnd + 1], text[pos..];
      var code, full := LookUpOrAdd(line, rest, maxLines);
      c := code;
      next := if full then |text| else lineEnd + 1;
      chars' := chars + [code];
      LineEncoded(text, pos, lineEnd + 1, chars, la, keys, c, full, next, lineArray, lineHash.Keys, maxLines, first);
    }

    /** What looking one line up has encoded and learnt. */
    lemma LineEncoded(text: Text, pos: nat, end: nat, chars: Text, la: seq<Text>, keys: set<Text>, c: CodeUnit,
                      full: bool, next: nat, la': seq<Text>, keys': set<Text>, maxLines: nat, first: bool)
      requires AtLineStart(text, pos) && IsLine(text, pos, end) && pos < end <= |text|
      requires end < |text| ==> AtLineStart(text, end)
      requires Encoded(text, pos, chars, la) && HAS_OWN_PROPERTY !in keys && |la| <= maxLines
      requires first ==> maxLines == MAX_LINES_1 && FirstKnows(text, pos, keys, |la|)
      requires la <= la' && 0 < c as int < |la'|
      requires la'[c as int] == if full then text[pos..] else text[pos..end]
      requires full <==> text[pos..end] !in keys && |la| == maxLines
      requires |la'| == |la| + (if text[pos..end] in keys then 0 else 1)
      requires keys' == Stored(keys, text[pos..end], text[pos..], full)
      requires next == if full then |text| else end
      ensures Encoded(text, next, chars + [c], la') && la'[c as int] == text[pos..next]
      ensures next < |text| ==> |la'| <= maxLines && AtLineStart(text, next) && HAS_OWN_PROPERTY !in keys'
      ensures first ==> FirstKnows(text, next, keys', |la'|)
      ensures IsLine(text, pos, next) || (next == |text| && |la'| == maxLines + 1)
    {
      hide HidesLookup, AtLineStart, IsLine, Codes, Stored, Encoded, FirstKnows, LineSet;
      assert text[pos..|text|] == text[pos..];
      EncodedMore(text, pos, chars, la, c, la', next);
      NotHidden(text, pos, end, keys, full, keys');
      if first {
        Learned(text, pos, end, keys, |la|, full, keys', |la'|);
      }
    }

    lemma FirstRest(text: Text, pos: nat, end: nat, keys: set<Text>, n: nat)
      requires AtLineStart(text, pos) && IsLine(text, pos, end) && FirstKnows(text, pos, keys, n)
      requires pos < |text|
      ensures text[pos..end] !in keys ==> text[pos..] !in keys
    {
      if text[pos..] in keys {
        RestIsLine(text, pos, end);
      }
    }

    /** Encodes one text; a lookup after the word hasOwnProperty was stored throws. */
    method Munge(text: Text, maxLines: nat) returns (r: Result<Text>, ghost cuts: seq<nat>)
      requires Valid() && |lineArray| <= maxLines <= MAX_LINES_2
      modifies this
      ensures Valid() && old(lineArray) <= lineArray && |lineArray| <= maxLines + 1
      ensures r.Ok? ==> Codes(r.value, lineArray) && Decode(r.value, lineArray) == text
      ensures r.Ok? ==> LineByLine(text, |text|, r.value, lineArray, cuts, |lineArray| == maxLines + 1)
      ensures OneCodeEach(old(lineArray)) && maxLines == MAX_LINES_2 ==> OneCodeEach(lineArray)
      ensures old(lineHash.Keys) == {} && old(|lineArray|) == 1 && maxLines == MAX_LINES_1 ==> OneCodeEach(lineArray)
      ensures r.Thrown? <==> text != [] && HAS_OWN_PROPERTY in old(lineHash.Keys)
      ensures old(lineHash.Keys) == {} && old(|lineArray|) == 1 && maxLines == MAX_LINES_1 ==>
                (HAS_OWN_PROPERTY in lineHash.Keys <==> HidesLookup(text))
    {
      hide HidesLookup, AtLineStart, Codes, Valid, Encoded, FirstKnows, LineByLine, OneCodeEach, IsLine;
      var chars: Text := [];
      var lineStart: nat := 0;
      ghost var first := lineHash.Keys == {} && |lineArray| == 1 && maxLines == MAX_LINES_1;
      NothingEncoded(text, lineArray);
      cuts := [0];
      NothingCut(text, lineArray);
      if first {
        OneEntry(lineArray);
      }
      while lineStart < |text|
        invariant Valid() && old(lineArray) <= lineArray && |lineArray| <= maxLines + 1 && lineStart <= |text|
        invariant lineStart < |text| ==> |lineArray| <= maxLines && AtLineStart(text, lineStart)
        invariant Encoded(text, lineStart, chars, lineArray)
        invariant LineByLine(text, lineStart, chars, lineArray, cuts, |lineArray| == maxLines + 1)
        invariant first || (OneCodeEach(old(lineArray)) && maxLines == MAX_LINES_2) ==> OneCodeEach(lineArray)
        invariant lineStart == 0 ==> lineHash.Keys == old(lineHash.Keys)
        invariant lineStart > 0 ==> HAS_OWN_PROPERTY !in old(lineHash.Keys)
        invariant 0 < lineStart < |text| ==> HAS_OWN_PROPERTY !in lineHash.Keys
        invariant first ==> FirstKnows(text, lineStart, lineHash.Keys, |lineArray|)
      {
        if HAS_OWN_PROPERTY in lineHash.Keys {
          return Thrown, cuts;
        }
        ghost var la, start, before := lineArray, lineStart, chars;
        ghost var c;
        chars, lineStart, c := EncodeLine(text, lineStart, chars, maxLines, first);
        NotFullYet(text, start, before, la, cuts, |la| == maxLines + 1);
        LineByLineMore(text, start, before, la, cuts, c, lineArray, lineStart, |lineArray| == maxLines + 1);
        cuts := cuts + [lineStart];
      }
      AllEncoded(text, chars, lineArray);
      AllKnown(text, lineHash.Keys, |lineArray|);
      r := Ok(chars);
    }
  }

  /**
   Reduces two texts to strings of line codes over one table. Throws exactly when the first text
   ends by storing the word that hides the lookup and the second text looks anything up.
   */
  method LinesToChars(text1: Text, text2: Text)
    returns (r: Result<(Text, Text, seq<Text>)>, ghost cuts1: seq<nat>, ghost cuts2: seq<nat>, ghost full: bool)
    ensures r.Thrown? <==> text2 != [] && HidesLookup(text1)
    ensures r.Ok? ==> var (chars1, chars2, lineArray) := r.value;
              && Codes(chars1, lineArray) && Decode(chars1, lineArray) == text1
              && Codes(chars2, lineArray) && Decode(chars2, lineArray) == text2
              && LineByLine(text1, |text1|, chars1, lineArray, cuts1, full) && (full ==> |lineArray| > MAX_LINES_1)
              && LineByLine(text2, |text2|, chars2, lineArray, cuts2, |lineArray| == MAX_LINES_2 + 1)
              && OneCodeEach(lineArray)
  {
    hide Codes, Decode, HidesLookup, LineByLine;
    cuts2 := [];
    var table := new LineTable();
    var r1, r2;
    r1, cuts1 := table.Munge(text1, MAX_LINES_1);
    var lineArray1 := table.lineArray;
    full := |lineArray1| == MAX_LINES_1 + 1;
    r2, cuts2 := table.Munge(text2, MAX_LINES_2);
    if r2.Thrown? {
      return Thrown, cuts1, cuts2, full;
    }
    LineByLineLonger(text1, |text1|, r1.value, lineArray1, cuts1, full, table.lineArray);
    DecodeExtended(r1.value, lineArray1, table.lineArray);
    r := Ok((r1.value, r2.value, table.lineArray));
  }

  /** Rehydrated entries: the text that each entry's codes stand for. */
  ghost predicate Rehydrated(ds: seq<Diff>, lines: seq<Diff>, lineArray: seq<Text>)
  {
    |ds| == |lines| &&
    forall i {:trigger ds[i]} {:trigger lines[i]} :: 0 <= i < |ds| ==>
      Codes(ds[i].text, lineArray) && lines[i] == Diff(ds[i].op, Decode(ds[i].text, lineArray))
  }

  lemma {:induction false} EntriesHaveCodes(ds: seq<Diff>, lineArray: seq<Text>, i: nat)
    requires Codes(Text1(ds), lineArray) && Codes(Text2(ds), lineArray) && i < |ds|
    ensures Codes(ds[i].text, lineArray)
  {
    hide Codes, Text1, Text2, EditSize;
    FirstEntry(ds);
    CodesSplit(Part1(ds[0]), Text1(ds[1..]), lineArray);
    CodesSplit(Part2(ds[0]), Text2(ds[1..]), lineArray);
    if i > 0 {
      EntriesHaveCodes(ds[1..], lineArray, i - 1);
      assert ds[1..][i - 1] == ds[i];
    }
  }

  lemma CodesSplit(a: Text, b: Text, lineArray: seq<Text>)
    requires Codes(a + b, lineArray)
    ensures Codes(a, lineArray) && Codes(b, lineArray)
  {
    forall i | 0 <= i < |a|
      ensures 0 < (a[i] as int) < |lineArray| && lineArray[a[i] as int] != []
    {
      assert (a + b)[i] == a[i];
    }
    forall i | 0 <= i < |b|
      ensures 0 < (b[i] as int) < |lineArray| && lineArray[b[i] as int] != []
    {
      assert (a + b)[|a| + i] == b[i];
    }
  }

  /** Rehydrating the entries rehydrates both texts. */
  lemma {:induction false} RehydratedTexts(ds: seq<Diff>, lines: seq<Diff>, lineArray: seq<Text>)
    requires Rehydrated(ds, lines, lineArray)
    ensures Codes(Text1(ds), lineArray) && Text1(lines) == Decode(Text1(ds), lineArray)
    ensures Codes(Text2(ds), lineArray) && Text2(lines) == Decode(Text2(ds), lineArray)
  {
    if ds != [] {
      RehydratedTexts(ds[1..], lines[1..], lineArray);
      assert Codes(ds[0].text, lineArray) && lines[0].text == Decode(ds[0].text, lineArray);
      DecodeAppend(Part1(ds[0]), Text1(ds[1..]), lineArray);
      DecodeAppend(Part2(ds[0]), Text2(ds[1..]), lineArray);
    }
  }

  /** Puts the lines back that the codes of every entry stand for. */
  method CharsToLines(diffs: DiffList, lineArray: seq<Text>)
    requires Codes(Text1(diffs.items), lineArray) && Codes(Text2(diffs.items), lineArray)
    modifies diffs
    ensures Rehydrated(old(diffs.items), diffs.items, lineArray)
  {
    hide Codes, Decode, Text1, Text2;
    ghost var ds := diffs.items;
    for i := 0 to |diffs.items|
      invariant |diffs.items| == |ds| && diffs.items[i..] == ds[i..]
      invariant Rehydrated(ds[..i], diffs.items[..i], lineArray)
    {
      assert diffs.items[i] == ds[i];
      EntriesHaveCodes(ds, lineArray, i);
      var text := JoinLines(diffs.items[i].text, lineArray);
      diffs.items := diffs.items[i := Diff(diffs.items[i].op, text)];
    }
    assert diffs.items[..|ds|] == diffs.items && ds[..|ds|] == ds;
  }

  method JoinLines(chars: Text, lineArray: seq<Text>) returns (text: Text)
    requires Codes(chars, lineArray)
    ensures text == Decode(chars, lineArray)
  {
    text := [];
    for j := 0 to |chars|
      invariant Codes(chars[..j], lineArray) && text == Decode(chars[..j], lineArray)
    {
      DecodeOne(chars[j], lineArray);
      DecodeAppend(chars[..j], [chars[j]], lineArray);
      assert chars[..j + 1] == chars[..j] + [chars[j]];
      text := text + lineArray[chars[j] as int];
    }
    assert chars[..|chars|] == chars;
  }
}
