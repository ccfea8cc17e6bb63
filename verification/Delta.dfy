/** The compact text form of a diff list, and reading it back. */
module Delta {
  import opened Wrappers
  import opened Texts
  import opened Diffs
  import opened Uri

  const TAB: CodeUnit := 9
  const PLUS: CodeUnit := 43
  const MINUS: CodeUnit := 45
  const EQUALS: CodeUnit := 61

  predicate Digit(u: CodeUnit) { 48 <= u <= 57 }

  /** The white space and line terminators that parseInt skips. */
  predicate Blank(u: CodeUnit)
  {
    9 <= u <= 13 || u in [32, 160, 0x1680, 0x2028, 0x2029, 0x202F, 0x205F, 0x3000, 0xFEFF] || 0x2000 <= u <= 0x200A
  }

  /** A natural number in decimal. */
  function Decimal(n: nat): Text
  {
    if n < 10 then [(48 + n) as CodeUnit] else Decimal(n / 10) + [(48 + n % 10) as CodeUnit]
  }

  function DigitsValue(s: Text): nat
    requires forall u :: u in s ==> Digit(u)
  {
    if s == [] then 0
    else
      assert Digit(s[|s| - 1]);
      DigitsValue(s[..|s| - 1]) * 10 + (s[|s| - 1] as int - 48)
  }

  function SkipBlanks(s: Text): Text
  {
    if s != [] && Blank(s[0]) then SkipBlanks(s[1..]) else s
  }

  function DigitRun(s: Text): (r: Text)
    ensures forall u :: u in r ==> Digit(u)
  {
    if s != [] && Digit(s[0]) then [s[0]] + DigitRun(s[1..]) else []
  }

  /** `parseInt(s, 10)`; `None` stands for NaN. */
  function ParseInt(s: Text): Option<int>
  {
    var t := SkipBlanks(s);
    var signed := t != [] && (t[0] == MINUS || t[0] == PLUS);
    var run := DigitRun(if signed then t[1..] else t);
    if run == [] then None
    else
      var n: int := DigitsValue(run);
      Some(if signed && t[0] == MINUS then -n else n)
  }

  /** `tokens.join('\t')` */
  function Join(tokens: seq<Text>): Text
  {
    if tokens == [] then []
    else if |tokens| == 1 then tokens[0]
    else tokens[0] + [TAB] + Join(tokens[1..])
  }

  /** `s.split(/\t/g)` */
  function Split(s: Text): (tokens: seq<Text>)
    ensures |tokens| > 0
  {
    if s == [] then [[]]
    else
      var rest := Split(s[1..]);
      if s[0] == TAB then [[]] + rest else [[s[0]] + rest[0]] + rest[1..]
  }

  /** An insertion can be written only when it does not cut a surrogate pair. */
  predicate Encodable(d: Diff) { d.op.Insert? ==> WellFormed(d.text) }

  function Token(d: Diff, keepSpace: bool): Text
    requires Encodable(d)
  {
    match d.op
    case Insert => EncodeThrows(d.text, keepSpace); [PLUS] + Encode(d.text, keepSpace).value
    case Delete => [MINUS] + Decimal(|d.text|)
    case Equal => [EQUALS] + Decimal(|d.text|)
  }

  function Tokens(ds: seq<Diff>, keepSpace: bool): (ts: seq<Text>)
    requires forall d :: d in ds ==> Encodable(d)
    ensures |ts| == |ds|
  {
    if ds == [] then [] else [Token(ds[0], keepSpace)] + Tokens(ds[1..], keepSpace)
  }

  function ToDelta(ds: seq<Diff>): Result<Text>
  {
    if forall d :: d in ds ==> Encodable(d) then Ok(PlainSpaces(Join(Tokens(ds, false)))) else Thrown
  }

  method DiffToDelta(diffs: seq<Diff>) returns (delta: Result<Text>)
    ensures delta == ToDelta(diffs)
  {
    hide Encode, WellFormed, PlainSpaces, Decimal;
    var text: seq<Text> := [];
    for x := 0 to |diffs|
      invariant forall d :: d in diffs[..x] ==> Encodable(d)
      invariant text == Tokens(diffs[..x], false)
    {
      assert diffs[x] in diffs;
      assert diffs[..x + 1] == diffs[..x] + [diffs[x]];
      match diffs[x].op {
        case Insert =>
          EncodeThrows(diffs[x].text, false);
          var encoded := Encode(diffs[x].text, false);
          if encoded.Thrown? {
            return Thrown;
          }
          text := text + [[PLUS] + encoded.value];
        case Delete =>
          text := text + [[MINUS] + Decimal(|diffs[x].text|)];
        case Equal =>
          text := text + [[EQUALS] + Decimal(|diffs[x].text|)];
      }
      TokensAppend(diffs[..x], diffs[x], false);
    }
    assert diffs[..|diffs|] == diffs;
    return Ok(PlainSpaces(Join(text)));
  }

  lemma {:induction false} TokensAppend(ds: seq<Diff>, d: Diff, keepSpace: bool)
    requires Encodable(d) && forall e :: e in ds ==> Encodable(e)
    ensures forall e :: e in ds + [d] ==> Encodable(e)
    ensures Tokens(ds + [d], keepSpace) == Tokens(ds, keepSpace) + [Token(d, keepSpace)]
  {
    if ds == [] {
      assert ds + [d] == [d] && [d][1..] == [];
    } else {
      assert (ds + [d])[1..] == ds[1..] + [d];
      TokensAppend(ds[1..], d, keepSpace);
    }
  }

  /** What one token adds to the list, and where it leaves the pointer. */
  datatype Step = Step(added: seq<Diff>, pointer: nat)

  function ReadToken(text1: Text, pointer: nat, token: Text): Result<Step>
  {
    if token == [] then Ok(Step([], pointer))
    else if token[0] == PLUS then
      var r := Decode(token[1..]);
      if r.Thrown? then Thrown else Ok(Step([Diff(Insert, r.value)], pointer))
    else if token[0] == MINUS || token[0] == EQUALS then
      var n := ParseInt(token[1..]);
      if n.None? || n.value < 0 then Thrown
      else
        var op := if token[0] == EQUALS then Equal else Delete;
        Ok(Step([Diff(op, Substring(text1, pointer, pointer + n.value))], pointer + n.value))
    else Thrown
  }

  function ReadTokens(text1: Text, pointer: nat, tokens: seq<Text>): Result<seq<Diff>>
    decreases |tokens|
  {
    if tokens == [] then if pointer == |text1| then Ok([]) else Thrown
    else
      var step := ReadToken(text1, pointer, tokens[0]);
      if step.Thrown? then Thrown
      else
        var rest := ReadTokens(text1, step.value.pointer, tokens[1..]);
        if rest.Thrown? then Thrown else Ok(step.value.added + rest.value)
  }

  function FromDelta(text1: Text, delta: Text): Result<seq<Diff>>
  {
    ReadTokens(text1, 0, Split(delta))
  }

  predicate Continues(diffs: seq<Diff>, rest: Result<seq<Diff>>, whole: Result<seq<Diff>>)
  {
    if rest.Thrown? then whole.Thrown? else whole == Ok(diffs + rest.value)
  }

  lemma Advance(diffs: seq<Diff>, text1: Text, pointer: nat, tokens: seq<Text>, whole: Result<seq<Diff>>)
    requires tokens != [] && Continues(diffs, ReadTokens(text1, pointer, tokens), whole)
    ensures var step := ReadToken(text1, pointer, tokens[0]);
            if step.Thrown? then whole.Thrown?
            else Continues(diffs + step.value.added, ReadTokens(text1, step.value.pointer, tokens[1..]), whole)
  {
    hide ReadToken;
    var step := ReadToken(text1, pointer, tokens[0]);
    if step.Ok? {
      var rest := ReadTokens(text1, step.value.pointer, tokens[1..]);
      if rest.Ok? {
        assert diffs + (step.value.added + rest.value) == (diffs + step.value.added) + rest.value;
      }
    }
  }

  lemma Finish(diffs: seq<Diff>, text1: Text, pointer: nat, whole: Result<seq<Diff>>)
    requires Continues(diffs, ReadTokens(text1, pointer, []), whole)
    ensures whole == if pointer == |text1| then Ok(diffs) else Thrown
  {
    assert diffs + [] == diffs;
  }

  lemma Start(whole: Result<seq<Diff>>)
    ensures Continues([], whole, whole)
  {
    if whole.Ok? {
      assert [] + whole.value == whole.value;
    }
  }

  method DiffFromDelta(text1: Text, delta: Text) returns (r: Result<seq<Diff>>)
    ensures r == FromDelta(text1, delta)
  {
    hide Decode, ParseInt, Split, ReadTokens, Continues;
    var diffs: seq<Diff> := [];
    var pointer: nat := 0;
    var tokens := Split(delta);
    var x: nat := 0;
    Start(FromDelta(text1, delta));
    assert tokens[0..] == tokens;
    while x < |tokens|
      invariant x <= |tokens|
      invariant Continues(diffs, ReadTokens(text1, pointer, tokens[x..]), FromDelta(text1, delta))
    {
      assert tokens[x..][0] == tokens[x] && tokens[x..][1..] == tokens[x + 1..];
      var token := tokens[x];
      Advance(diffs, text1, pointer, tokens[x..], FromDelta(text1, delta));
      if token == [] {
        assert diffs + [] == diffs;
      } else if token[0] == PLUS {
        var decoded := Decode(token[1..]);
        if decoded.Thrown? {
          return Thrown;
        }
        diffs := diffs + [Diff(Insert, decoded.value)];
      } else if token[0] == MINUS || token[0] == EQUALS {
        var n := ParseInt(token[1..]);
        if n.None? || n.value < 0 {
          return Thrown;
        }
        var text := Substring(text1, pointer, pointer + n.value);
        pointer := pointer + n.value;
        diffs := diffs + [Diff(if token[0] == EQUALS then Equal else Delete, text)];
      } else {
        return Thrown;
      }
      x := x + 1;
    }
    assert tokens[x..] == [];
    Finish(diffs, text1, pointer, FromDelta(text1, delta));
    if pointer != |text1| {
      return Thrown;
    }
    return Ok(diffs);
  }

  // ---------------------------------------------------------------------------------------

  /** Writing a delta throws exactly when some insertion holds half of a surrogate pair. */
  lemma ToDeltaThrows(ds: seq<Diff>)
    ensures ToDelta(ds).Thrown? <==> exists d :: d in ds && d.op.Insert? && !WellFormed(d.text)
  {
  }

  /** Keep three units, delete two, insert "ing": "=3", "-2" and "+ing" with tabs between. */
  lemma DeltaForm(a: Text, b: Text)
    requires |a| == 3 && |b| == 2
    ensures ToDelta([Diff(Equal, a), Diff(Delete, b), Diff(Insert, [105, 110, 103])]) ==
            Ok([EQUALS, 51, TAB, MINUS, 50, TAB, PLUS, 105, 110, 103])
  {
    hide Encode, WellFormed, PlainSpaces;
    var ing: Text := [105, 110, 103];
    EncodePlain(ing, false);
    var d1, d2, d3 := Diff(Equal, a), Diff(Delete, b), Diff(Insert, ing);
    var ds := [d1, d2, d3];
    assert Decimal(3) == [51] && Decimal(2) == [50];
    assert Token(d1, false) == [EQUALS, 51] && Token(d2, false) == [MINUS, 50] && Token(d3, false) == [PLUS] + ing;
    TokensOne(d1, false);
    TokensAppend([d1], d2, false);
    TokensAppend([d1] + [d2], d3, false);
    assert ds == [d1] + [d2] + [d3];
    assert Tokens(ds, false) == [[EQUALS, 51], [MINUS, 50], [PLUS] + ing];
    JoinThree([EQUALS, 51], [MINUS, 50], [PLUS] + ing);
    var delta: Text := [EQUALS, 51, TAB, MINUS, 50, TAB, PLUS, 105, 110, 103];
    assert Join(Tokens(ds, false)) == delta;
    NoPercentPlain(delta);
    assert forall d :: d in ds ==> Encodable(d);
  }

  lemma TokensOne(d: Diff, keepSpace: bool)
    requires Encodable(d)
    ensures Tokens([d], keepSpace) == [Token(d, keepSpace)]
  {
    assert [d][1..] == [];
  }

  lemma JoinThree(a: Text, b: Text, c: Text)
    ensures Join([a, b, c]) == a + [TAB] + (b + [TAB] + c)
  {
    assert [a, b, c][1..] == [b, c] && [b, c][1..] == [c];
    assert Join([b, c]) == b + [TAB] + c;
  }

  lemma {:induction false} NoPercentPlain(s: Text)
    requires PERCENT !in s
    ensures PlainSpaces(s) == s
  {
    if s != [] {
      assert s == [s[0]] + s[1..];
      NoPercentPlain(s[1..]);
    }
  }

  /** Replacing one emoji by its neighbour, with the shared high surrogate kept as an equality, cannot be written. */
  lemma CutPairThrows()
    ensures ToDelta([Diff(Equal, [0xD83D]), Diff(Delete, [0xDE00]), Diff(Insert, [0xDE01])]).Thrown?
  {
    var d := Diff(Insert, [0xDE01]);
    assert !WellFormed(d.text);
    var ds := [Diff(Equal, [0xD83D]), Diff(Delete, [0xDE00]), d];
    assert ds[2] == d && d in ds;
    ToDeltaThrows(ds);
  }

  lemma {:induction false} DecimalDigits(n: nat)
    ensures Decimal(n) != [] && (forall u :: u in Decimal(n) ==> Digit(u)) && DigitsValue(Decimal(n)) == n
  {
    if n >= 10 {
      DecimalDigits(n / 10);
      var d := Decimal(n);
      assert d[..|d| - 1] == Decimal(n / 10);
    }
  }

  lemma {:induction false} WholeRun(s: Text)
    requires forall u :: u in s ==> Digit(u)
    ensures DigitRun(s) == s
  {
    if s != [] {
      WholeRun(s[1..]);
    }
  }

  /** parseInt reads back what string conversion wrote. */
  lemma ParseDecimal(n: nat)
    ensures ParseInt(Decimal(n)) == Some(n)
  {
    hide DigitRun, DigitsValue, Decimal;
    DecimalDigits(n);
    var d := Decimal(n);
    WholeRun(d);
    assert Digit(d[0]);
    assert !Blank(d[0]) && d[0] != MINUS && d[0] != PLUS;
    assert SkipBlanks(d) == d;
  }

  lemma {:induction false} NoSpacesToRestore(s: Text)
    requires PERCENT !in s
    ensures PlainSpaces(s) == s
  {
    if s != [] {
      NoSpacesToRestore(s[1..]);
      assert |s| >= 3 ==> s[..3][0] == s[0];
    }
  }

  lemma {:induction false} SpacesAcrossTab(a: Text, b: Text)
    ensures PlainSpaces(a + [TAB] + b) == PlainSpaces(a) + [TAB] + PlainSpaces(b)
  {
    hide PlainSpaces;
    if a == [] {
      assert a + [TAB] + b == [TAB] + b;
      SpaceStep(TAB, b);
      NoSpaces();
    } else if |a| >= 3 && a[..3] == [PERCENT, 50, 48] {
      SpacesAcrossTab(a[3..], b);
      SpaceRestored(a[3..]);
      SpaceRestored(a[3..] + [TAB] + b);
      assert a == [PERCENT, 50, 48] + a[3..];
      assert a + [TAB] + b == [PERCENT, 50, 48] + (a[3..] + [TAB] + b);
    } else {
      SpacesAcrossTab(a[1..], b);
      TabStopsSpace(a, b);
      UnitKept(a);
      UnitKept(a + [TAB] + b);
      assert (a + [TAB] + b)[1..] == a[1..] + [TAB] + b;
    }
  }

  lemma SpaceRestored(rest: Text)
    ensures PlainSpaces([PERCENT, 50, 48] + rest) == [SPACE] + PlainSpaces(rest)
  {
    assert ([PERCENT, 50, 48] + rest)[..3] == [PERCENT, 50, 48] && ([PERCENT, 50, 48] + rest)[3..] == rest;
  }

  lemma UnitKept(s: Text)
    requires s != [] && !(|s| >= 3 && s[..3] == [PERCENT, 50, 48])
    ensures PlainSpaces(s) == [s[0]] + PlainSpaces(s[1..])
  {
  }

  lemma TabStopsSpace(a: Text, b: Text)
    requires a != [] && !(|a| >= 3 && a[..3] == [PERCENT, 50, 48])
    ensures var s := a + [TAB] + b; !(|s| >= 3 && s[..3] == [PERCENT, 50, 48])
  {
    var s := a + [TAB] + b;
    if |a| >= 3 {
      assert s[..3] == a[..3];
    } else {
      assert |s| >= 3 ==> s[..3][|a|] == TAB;
    }
  }

  lemma TokenSpaces(d: Diff)
    requires Encodable(d)
    ensures PlainSpaces(Token(d, false)) == Token(d, true)
  {
    hide PlainSpaces, Encode, Decimal;
    match d.op
    case Insert =>
      EncodeThrows(d.text, false);
      SpacesCopied(d.text);
      SpaceStep(PLUS, Encode(d.text, false).value);
    case Delete =>
      DecimalDigits(|d.text|);
      NoPercent(MINUS, Decimal(|d.text|));
    case Equal =>
      DecimalDigits(|d.text|);
      NoPercent(EQUALS, Decimal(|d.text|));
  }

  lemma NoPercent(u: CodeUnit, digits: Text)
    requires u != PERCENT && forall v :: v in digits ==> Digit(v)
    ensures PlainSpaces([u] + digits) == [u] + digits
  {
    NoSpacesToRestore([u] + digits);
  }

  /** Restoring spaces over the joined text restores them token by token. */
  lemma {:induction false} JoinSpaces(ds: seq<Diff>)
    requires forall d :: d in ds ==> Encodable(d)
    ensures PlainSpaces(Join(Tokens(ds, false))) == Join(Tokens(ds, true))
  {
    hide PlainSpaces, Token;
    if ds == [] {
      NoSpaces();
    } else {
      TokenSpaces(ds[0]);
      JoinSpaces(ds[1..]);
      if |ds| > 1 {
        SpacesAcrossTab(Token(ds[0], false), Join(Tokens(ds[1..], false)));
      }
    }
  }

  lemma NoTab(d: Diff)
    requires Encodable(d)
    ensures TAB !in Token(d, true) && Token(d, true) != []
  {
    hide Encode, Decimal;
    match d.op
    case Insert => EncodeThrows(d.text, true); EncodedUnits(d.text, true);
    case Delete => DecimalDigits(|d.text|);
    case Equal => DecimalDigits(|d.text|);
  }

  lemma {:induction false} SplitFirst(a: Text, b: Text)
    requires TAB !in a
    ensures Split(a + [TAB] + b) == [a] + Split(b)
  {
    var s := a + [TAB] + b;
    if a == [] {
      assert s[1..] == b;
    } else {
      assert s[1..] == a[1..] + [TAB] + b;
      SplitFirst(a[1..], b);
      assert a == [a[0]] + a[1..];
    }
  }

  lemma {:induction false} SplitNone(a: Text)
    requires TAB !in a
    ensures Split(a) == [a]
  {
    if a != [] {
      SplitNone(a[1..]);
      assert a == [a[0]] + a[1..];
    }
  }

  lemma {:induction false} SplitJoin(ds: seq<Diff>)
    requires ds != [] && forall d :: d in ds ==> Encodable(d)
    ensures Split(Join(Tokens(ds, true))) == Tokens(ds, true)
  {
    hide Split, Token;
    NoTab(ds[0]);
    var t := Token(ds[0], true);
    if |ds| == 1 {
      SplitNone(t);
    } else {
      SplitJoin(ds[1..]);
      SplitFirst(t, Join(Tokens(ds[1..], true)));
    }
  }

  lemma TokenRoundTrip(text1: Text, pointer: nat, d: Diff)
    requires Encodable(d)
    requires pointer + |Part1(d)| <= |text1| && text1[pointer..pointer + |Part1(d)|] == Part1(d)
    ensures ReadToken(text1, pointer, Token(d, true)) == Ok(Step([d], pointer + |Part1(d)|))
  {
    hide Encode, Decode, ParseInt, Decimal;
    match d.op
    case Insert =>
      EncodeThrows(d.text, true);
      RoundTrip(d.text);
      assert Token(d, true)[1..] == Encode(d.text, true).value;
    case Delete =>
      ParseDecimal(|d.text|);
      assert Token(d, true)[1..] == Decimal(|d.text|);
    case Equal =>
      ParseDecimal(|d.text|);
      assert Token(d, true)[1..] == Decimal(|d.text|);
  }

  lemma TextAhead(text1: Text, pointer: nat, ds: seq<Diff>)
    requires ds != [] && pointer <= |text1| && text1[pointer..] == Text1(ds)
    ensures var n := |Part1(ds[0])|;
            pointer + n <= |text1| && text1[pointer..pointer + n] == Part1(ds[0])
              && text1[pointer + n..] == Text1(ds[1..])
  {
    hide Part1;
    var n, rest := |Part1(ds[0])|, text1[pointer..];
    assert rest == Part1(ds[0]) + Text1(ds[1..]);
    assert rest[..n] == Part1(ds[0]) && rest[n..] == Text1(ds[1..]);
    assert text1[pointer..pointer + n] == rest[..n] && text1[pointer + n..] == rest[n..];
  }

  lemma {:induction false} TokensRoundTrip(text1: Text, pointer: nat, ds: seq<Diff>)
    requires forall d :: d in ds ==> Encodable(d)
    requires pointer <= |text1| && text1[pointer..] == Text1(ds)
    ensures ReadTokens(text1, pointer, Tokens(ds, true)) == Ok(ds)
    decreases |ds|
  {
    hide Token, ReadToken, Part1, Text1;
    if ds == [] {
      NoText();
    } else {
      var n := |Part1(ds[0])|;
      TextAhead(text1, pointer, ds);
      TokenRoundTrip(text1, pointer, ds[0]);
      TokensRoundTrip(text1, pointer + n, ds[1..]);
      assert ds == [ds[0]] + ds[1..];
    }
  }

  /** Whatever can be written is read back unchanged, empty list and empty entries included. */
  lemma DeltaRoundTrip(ds: seq<Diff>)
    requires ToDelta(ds).Ok?
    ensures FromDelta(Text1(ds), ToDelta(ds).value) == Ok(ds)
  {
    hide PlainSpaces, Token, ReadToken;
    JoinSpaces(ds);
    if ds == [] {
      assert ToDelta(ds) == Ok([]);
      ReadNothing();
    } else {
      SplitJoin(ds);
      assert Text1(ds)[0..] == Text1(ds);
      TokensRoundTrip(Text1(ds), 0, ds);
    }
  }

  lemma ReadNothing()
    ensures FromDelta([], []) == Ok([])
  {
    var blank: Text := [];
    assert Split(blank) == [blank];
    assert [blank][1..] == [];
    var none: seq<Diff> := [];
    assert ReadTokens(blank, 0, [blank][1..]) == Ok(none);
    assert ReadToken(blank, 0, blank) == Ok(Step(none, 0));
    assert none + none == none;
    assert ReadTokens(blank, 0, [blank]) == Ok(none);
  }

  lemma {:induction false} ReadStaysInside(text1: Text, pointer: nat, tokens: seq<Text>)
    requires ReadTokens(text1, pointer, tokens).Ok?
    ensures pointer <= |text1| && Text1(ReadTokens(text1, pointer, tokens).value) == text1[pointer..]
    decreases |tokens|
  {
    hide ReadToken, Text1, Text2, EditSize;
    if tokens == [] {
      NoText();
    } else {
      var step := ReadToken(text1, pointer, tokens[0]).value;
      ReadStaysInside(text1, step.pointer, tokens[1..]);
      TextsAppend(step.added, ReadTokens(text1, step.pointer, tokens[1..]).value);
      StepText(text1, pointer, tokens[0]);
      assert text1[pointer..] == text1[pointer..step.pointer] + text1[step.pointer..];
    }
  }

  lemma NoText()
    ensures Text1([]) == []
  {
  }

  lemma StepText(text1: Text, pointer: nat, token: Text)
    requires ReadToken(text1, pointer, token).Ok? && ReadToken(text1, pointer, token).value.pointer <= |text1|
    ensures var step := ReadToken(text1, pointer, token).value;
            pointer <= step.pointer && Text1(step.added) == text1[pointer..step.pointer]
  {
    hide Decode, ParseInt;
    var step := ReadToken(text1, pointer, token).value;
    if step.added != [] {
      TextsOne(step.added[0]);
    }
  }

  /** Every delta that is accepted describes an edit of exactly the given text. */
  lemma AcceptedDelta(text1: Text, delta: Text)
    requires FromDelta(text1, delta).Ok?
    ensures Text1(FromDelta(text1, delta).value) == text1
  {
    ReadStaysInside(text1, 0, Split(delta));
    assert text1[0..] == text1;
  }
}
