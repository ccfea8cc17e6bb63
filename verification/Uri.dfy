/** encodeURI and decodeURI on 16-bit code units (ECMA-262, section 19.2.6), and why they are inverse. */
module Uri {
  import opened Wrappers
  import opened Texts

  const PERCENT: CodeUnit := 37
  const SPACE: CodeUnit := 32

  type Byte = x: int | 0 <= x < 256

  predicate High(u: CodeUnit) { 0xD800 <= u < 0xDC00 }

  predicate Low(u: CodeUnit) { 0xDC00 <= u < 0xE000 }

  predicate Alphanumeric(u: CodeUnit) { 48 <= u <= 57 || 65 <= u <= 90 || 97 <= u <= 122 }

  /** The characters ; / ? : @ & = + $ , and #, which decodeURI leaves escaped. */
  predicate Reserved(u: CodeUnit) { u in [59, 47, 63, 58, 64, 38, 61, 43, 36, 44, 35] }

  /** What encodeURI copies: letters, digits, the reserved characters and - _ . ! ~ * ' ( ). */
  predicate Unescaped(u: CodeUnit)
  {
    Alphanumeric(u) || Reserved(u) || u in [45, 95, 46, 33, 126, 42, 39, 40, 41]
  }

  /** Every surrogate is half of a pair. */
  predicate WellFormed(s: Text)
  {
    s == []
    || (!High(s[0]) && !Low(s[0]) && WellFormed(s[1..]))
    || (High(s[0]) && |s| >= 2 && Low(s[1]) && WellFormed(s[2..]))
  }

  function Hex(n: int): CodeUnit
    requires 0 <= n < 16
  {
    if n < 10 then (48 + n) as CodeUnit else (55 + n) as CodeUnit
  }

  function UnHex(u: CodeUnit): Option<int>
  {
    if 48 <= u <= 57 then Some(u as int - 48)
    else if 65 <= u <= 70 then Some(u as int - 55)
    else if 97 <= u <= 102 then Some(u as int - 87)
    else None
  }

  function Escape(b: Byte): Text
  {
    [PERCENT, Hex(b / 16), Hex(b % 16)]
  }

  /** The bytes of a code point in UTF-8 (RFC 3629, section 3). */
  function Utf8(v: int): seq<Byte>
    requires 0 <= v < 0x110000
  {
    if v < 0x80 then [v]
    else if v < 0x800 then [0xC0 + v / 64, 0x80 + v % 64]
    else if v < 0x10000 then [0xE0 + v / 4096, 0x80 + v / 64 % 64, 0x80 + v % 64]
    else [0xF0 + v / 262144, 0x80 + v / 4096 % 64, 0x80 + v / 64 % 64, 0x80 + v % 64]
  }

  function Escapes(bytes: seq<Byte>): Text
  {
    if bytes == [] then [] else Escape(bytes[0]) + Escapes(bytes[1..])
  }

  function FromPair(h: CodeUnit, l: CodeUnit): (v: int)
    requires High(h) && Low(l)
    ensures 0x10000 <= v < 0x110000
  {
    (h as int - 0xD800) * 0x400 + (l as int - 0xDC00) + 0x10000
  }

  /** The code units of a code point. */
  function Units(v: int): Text
    requires 0 <= v < 0x110000
  {
    if v < 0x10000 then [v as CodeUnit]
    else [((v - 0x10000) / 0x400 + 0xD800) as CodeUnit, ((v - 0x10000) % 0x400 + 0xDC00) as CodeUnit]
  }

  /** `encodeURI(s)`; with `keepSpace`, a space is copied as well. A lone surrogate throws. */
  function Encode(s: Text, keepSpace: bool): Result<Text>
  {
    if s == [] then Ok([])
    else if Unescaped(s[0]) || (keepSpace && s[0] == SPACE) then
      var r := Encode(s[1..], keepSpace);
      if r.Thrown? then Thrown else Ok([s[0]] + r.value)
    else if Low(s[0]) || (High(s[0]) && (|s| == 1 || !Low(s[1]))) then Thrown
    else if High(s[0]) then
      var r := Encode(s[2..], keepSpace);
      if r.Thrown? then Thrown else Ok(Escapes(Utf8(FromPair(s[0], s[1]))) + r.value)
    else
      var r := Encode(s[1..], keepSpace);
      if r.Thrown? then Thrown else Ok(Escapes(Utf8(s[0] as int)) + r.value)
  }

  /** The byte that an escape at the start of `s` stands for. */
  function ByteAt(s: Text): Option<int>
  {
    if |s| < 3 || s[0] != PERCENT || UnHex(s[1]).None? || UnHex(s[2]).None? then None
    else Some(UnHex(s[1]).value * 16 + UnHex(s[2]).value)
  }

  function Continuation(s: Text): Option<int>
  {
    var b := ByteAt(s);
    if b.Some? && 0x80 <= b.value < 0xC0 then Some(b.value - 0x80) else None
  }

  predicate Scalar(v: int) { 0 <= v < 0x110000 && !(0xD800 <= v < 0xE000) }

  /** The code point whose escaped UTF-8 form opens `s`, and how many units that form takes. */
  function DecodePoint(s: Text): Option<(int, nat)>
  {
    var b := ByteAt(s);
    if b.None? then None
    else if b.value < 0x80 then Some((b.value, 3))
    else if b.value < 0xC0 || b.value >= 0xF8 then None
    else if b.value < 0xE0 then
      var c := Continuation(s[3..]);
      if c.None? then None
      else var v := (b.value - 0xC0) * 64 + c.value; if v < 0x80 then None else Some((v, 6))
    else if b.value < 0xF0 then
      var c := Continuation(s[3..]);
      if c.None? then None else
      var d := Continuation(s[6..]);
      if d.None? then None
      else
        var v := (b.value - 0xE0) * 4096 + c.value * 64 + d.value;
        if v < 0x800 || !Scalar(v) then None else Some((v, 9))
    else
      var c := Continuation(s[3..]);
      if c.None? then None else
      var d := Continuation(s[6..]);
      if d.None? then None else
      var e := Continuation(s[9..]);
      if e.None? then None
      else
        var v := (b.value - 0xF0) * 262144 + c.value * 4096 + d.value * 64 + e.value;
        if v < 0x10000 || !Scalar(v) then None else Some((v, 12))
  }

  lemma DecodedPoint(s: Text)
    ensures DecodePoint(s).Some? ==> 0 <= DecodePoint(s).value.0 < 0x110000 && 3 <= DecodePoint(s).value.1 <= |s|
  {
  }

  /** `decodeURI(s)`; malformed escapes throw, and escapes of reserved characters stay. */
  function Decode(s: Text): Result<Text>
  {
    if s == [] then Ok([])
    else if s[0] != PERCENT then
      var r := Decode(s[1..]);
      if r.Thrown? then Thrown else Ok([s[0]] + r.value)
    else
      var p := DecodePoint(s);
      if p.None? then Thrown
      else
        DecodedPoint(s);
        var r := Decode(s[p.value.1..]);
        if r.Thrown? then Thrown
        else if p.value.0 < 0x80 && Reserved(p.value.0 as CodeUnit) then Ok(s[..3] + r.value)
        else Ok(Units(p.value.0) + r.value)
  }

  /** `s.replace(/%20/g, ' ')` */
  function PlainSpaces(s: Text): Text
  {
    if s == [] then []
    else if |s| >= 3 && s[..3] == [PERCENT, 50, 48] then [SPACE] + PlainSpaces(s[3..])
    else [s[0]] + PlainSpaces(s[1..])
  }

  // ---------------------------------------------------------------------------------------

  /** Characters that need no escape stay as they are. */
  lemma {:induction false} EncodePlain(s: Text, keepSpace: bool)
    requires forall u :: u in s ==> Unescaped(u)
    ensures Encode(s, keepSpace) == Ok(s) && WellFormed(s)
  {
    if s != [] {
      assert s[0] in s && s == [s[0]] + s[1..];
      EncodePlain(s[1..], keepSpace);
    }
  }

  /** Encoding throws exactly on a lone surrogate. */
  lemma {:induction false} EncodeThrows(s: Text, keepSpace: bool)
    ensures Encode(s, keepSpace).Ok? <==> WellFormed(s)
  {
    if s != [] {
      if High(s[0]) && |s| >= 2 && Low(s[1]) {
        EncodeThrows(s[2..], keepSpace);
      } else {
        EncodeThrows(s[1..], keepSpace);
      }
    }
  }

  lemma HexInverse(n: int)
    requires 0 <= n < 16
    ensures UnHex(Hex(n)) == Some(n) && Hex(n) != PERCENT
  {
  }

  lemma EscapeRead(b: Byte, rest: Text)
    ensures ByteAt(Escape(b) + rest) == Some(b) && (Escape(b) + rest)[3..] == rest
    ensures |Escape(b)| == 3 && Escape(b)[0] == PERCENT
  {
    HexInverse(b / 16);
    HexInverse(b % 16);
  }

  lemma ContinuationRead(n: int, rest: Text)
    requires 0 <= n < 64
    ensures Continuation(Escape(0x80 + n) + rest) == Some(n) && (Escape(0x80 + n) + rest)[3..] == rest
    ensures |Escape(0x80 + n)| == 3
  {
    EscapeRead(0x80 + n, rest);
  }

  lemma EscapesOne(a: Byte)
    ensures Escapes([a]) == Escape(a)
  {
    assert [a][1..] == [];
  }

  lemma EscapesMore(a: Byte, bytes: seq<Byte>)
    ensures Escapes([a] + bytes) == Escape(a) + Escapes(bytes)
  {
    assert ([a] + bytes)[1..] == bytes;
  }

  lemma Escapes2(a: Byte, b: Byte)
    ensures Escapes([a, b]) == Escape(a) + Escape(b)
  {
    EscapesMore(a, [b]);
    EscapesOne(b);
    assert [a, b] == [a] + [b];
  }

  lemma Escapes3(a: Byte, b: Byte, c: Byte)
    ensures Escapes([a, b, c]) == Escape(a) + Escape(b) + Escape(c)
  {
    hide Escape, Escapes;
    EscapesMore(a, [b, c]);
    Escapes2(b, c);
    assert [a, b, c] == [a] + [b, c];
  }

  lemma Escapes4(a: Byte, b: Byte, c: Byte, d: Byte)
    ensures Escapes([a, b, c, d]) == Escape(a) + Escape(b) + Escape(c) + Escape(d)
  {
    hide Escape, Escapes;
    EscapesMore(a, [b, c, d]);
    Escapes3(b, c, d);
    assert [a, b, c, d] == [a] + [b, c, d];
  }

  /** Reading an escaped code point gives it back. */
  lemma PointInverse(v: int, rest: Text)
    requires Scalar(v)
    ensures var e := Escapes(Utf8(v)); |e| > 0 && e[0] == PERCENT && DecodePoint(e + rest) == Some((v, |e|))
  {
    if v < 0x80 {
      EscapesOne(v);
      EscapeRead(v, rest);
    } else if v < 0x800 {
      PointInverse2(v, rest);
    } else if v < 0x10000 {
      PointInverse3(v, rest);
    } else {
      PointInverse4(v, rest);
    }
  }

  lemma PointInverse2(v: int, rest: Text)
    requires 0x80 <= v < 0x800
    ensures var e := Escapes(Utf8(v)); |e| == 6 && e[0] == PERCENT && DecodePoint(e + rest) == Some((v, 6))
  {
    hide Escape, Escapes, ByteAt, Continuation;
    var a, n := 0xC0 + v / 64, v % 64;
    Escapes2(a, 0x80 + n);
    var s1 := Escape(0x80 + n) + rest;
    EscapeRead(a, s1);
    ContinuationRead(n, rest);
    assert Escapes(Utf8(v)) + rest == Escape(a) + s1;
  }

  lemma Digits3(v: int) returns (a: int, m: int, n: int)
    requires 0x800 <= v < 0x10000
    ensures 0xE0 <= a < 0xF0 && 0 <= m < 64 && 0 <= n < 64
    ensures v == (a - 0xE0) * 4096 + m * 64 + n
    ensures Utf8(v) == [a, 0x80 + m, 0x80 + n]
  {
    a, m, n := 0xE0 + v / 4096, v / 64 % 64, v % 64;
  }

  lemma PointInverse3(v: int, rest: Text)
    requires 0x800 <= v < 0x10000 && Scalar(v)
    ensures var e := Escapes(Utf8(v)); |e| == 9 && e[0] == PERCENT && DecodePoint(e + rest) == Some((v, 9))
  {
    hide Escape, Escapes, ByteAt, Continuation, Utf8;
    var a, m, n := Digits3(v);
    Escapes3(a, 0x80 + m, 0x80 + n);
    var s2 := Escape(0x80 + n) + rest;
    var s1 := Escape(0x80 + m) + s2;
    var s := Escape(a) + s1;
    EscapeRead(a, s1);
    ContinuationRead(m, s2);
    ContinuationRead(n, rest);
    assert s[6..] == s[3..][3..];
    assert Escapes(Utf8(v)) + rest == s;
  }

  /** A code point beyond the basic plane in base 64, as UTF-8 spreads it over four bytes. */
  lemma Digits4(v: int) returns (a: int, l: int, m: int, n: int)
    requires 0x10000 <= v < 0x110000
    ensures 0xF0 <= a < 0xF8 && 0 <= l < 64 && 0 <= m < 64 && 0 <= n < 64
    ensures v == (a - 0xF0) * 262144 + l * 4096 + m * 64 + n
    ensures Utf8(v) == [a, 0x80 + l, 0x80 + m, 0x80 + n]
  {
    hide Utf8;
    a, l, m, n := 0xF0 + v / 262144, v / 4096 % 64, v / 64 % 64, v % 64;
    DigitsSum4(v);
    Utf8Of4(v);
  }

  lemma DigitsSum4(v: int)
    requires 0x10000 <= v < 0x110000
    ensures v / 262144 < 8 && v == v / 262144 * 262144 + v / 4096 % 64 * 4096 + v / 64 % 64 * 64 + v % 64
  {
    var q := v / 64;
    assert q / 64 == v / 4096 && v == q * 64 + v % 64;
    assert v / 4096 / 64 == v / 262144;
  }

  lemma Utf8Of4(v: int)
    requires 0x10000 <= v < 0x110000
    ensures Utf8(v) == [0xF0 + v / 262144, 0x80 + v / 4096 % 64, 0x80 + v / 64 % 64, 0x80 + v % 64]
  {
  }

  lemma PointInverse4(v: int, rest: Text)
    requires 0x10000 <= v < 0x110000
    ensures var e := Escapes(Utf8(v)); |e| == 12 && e[0] == PERCENT && DecodePoint(e + rest) == Some((v, 12))
  {
    hide Escape, Escapes, ByteAt, Continuation, Utf8;
    var a, l, m, n := Digits4(v);
    Escapes4(a, 0x80 + l, 0x80 + m, 0x80 + n);
    var s3 := Escape(0x80 + n) + rest;
    var s2 := Escape(0x80 + m) + s3;
    var s1 := Escape(0x80 + l) + s2;
    var s := Escape(a) + s1;
    EscapeRead(a, s1);
    ContinuationRead(l, s2);
    ContinuationRead(m, s3);
    ContinuationRead(n, rest);
    assert s[6..] == s[3..][3..] && s[9..] == s[6..][3..];
    assert Escapes(Utf8(v)) + rest == s;
  }

  lemma PairInverse(h: CodeUnit, l: CodeUnit)
    requires High(h) && Low(l)
    ensures Units(FromPair(h, l)) == [h, l]
  {
  }

  lemma PointRoundTrip(v: int, rest: Text, s: Text)
    requires Scalar(v) && (v < 0x80 ==> !Reserved(v as CodeUnit)) && Decode(rest) == Ok(s)
    ensures Decode(Escapes(Utf8(v)) + rest) == Ok(Units(v) + s)
  {
    PointInverse(v, rest);
    var e := Escapes(Utf8(v));
    assert (e + rest)[|e|..] == rest;
  }

  lemma PlainRoundTrip(u: CodeUnit, rest: Text, s: Text)
    requires u != PERCENT && Decode(rest) == Ok(s)
    ensures Decode([u] + rest) == Ok([u] + s)
  {
    assert ([u] + rest)[1..] == rest;
  }

  /** What encodeURI writes, decodeURI reads back. */
  lemma {:induction false} RoundTrip(s: Text)
    requires WellFormed(s)
    ensures Encode(s, true).Ok? && Decode(Encode(s, true).value) == Ok(s)
  {
    hide Decode, Escapes, Utf8, FromPair, Units;
    if s == [] {
      DecodeNothing();
    } else if Unescaped(s[0]) || s[0] == SPACE {
      RoundTrip(s[1..]);
      PlainRoundTrip(s[0], Encode(s[1..], true).value, s[1..]);
      assert s == [s[0]] + s[1..];
    } else if High(s[0]) {
      RoundTrip(s[2..]);
      PointRoundTrip(FromPair(s[0], s[1]), Encode(s[2..], true).value, s[2..]);
      PairInverse(s[0], s[1]);
      assert s == [s[0], s[1]] + s[2..];
    } else {
      RoundTrip(s[1..]);
      PointRoundTrip(s[0] as int, Encode(s[1..], true).value, s[1..]);
      OneUnit(s[0]);
      assert s == [s[0]] + s[1..];
    }
  }

  lemma DecodeNothing()
    ensures Decode([]) == Ok([])
  {
  }

  lemma OneUnit(u: CodeUnit)
    ensures Units(u as int) == [u]
  {
  }

  // ---------------------------------------------------------------------------------------

  /** No unit is a percent sign followed by 20. */
  lemma SpaceStep(u: CodeUnit, rest: Text)
    requires u != PERCENT
    ensures PlainSpaces([u] + rest) == [u] + PlainSpaces(rest)
  {
    assert ([u] + rest)[1..] == rest;
    assert |rest| >= 2 ==> ([u] + rest)[..3][0] == u;
  }

  lemma NotSpaceEscape(b: Byte)
    requires b != 32
    ensures Escape(b) != [PERCENT, 50, 48]
  {
    EscapeRead(b, []);
    assert Escape(b) + [] == Escape(b);
  }

  /** An escape is replaced exactly when it stands for a space. */
  lemma EscapeStep(b: Byte, rest: Text)
    ensures PlainSpaces(Escape(b) + rest) == (if b == 32 then [SPACE] else Escape(b)) + PlainSpaces(rest)
  {
    if b == 32 {
      var s := Escape(b) + rest;
      assert s[..3] == [PERCENT, 50, 48] && s[3..] == rest;
    } else {
      OtherEscapeStep(b, rest);
    }
  }

  lemma OtherEscapeStep(b: Byte, rest: Text)
    requires b != 32
    ensures PlainSpaces(Escape(b) + rest) == Escape(b) + PlainSpaces(rest)
  {
    var s := Escape(b) + rest;
    NotSpaceEscape(b);
    HexInverse(b / 16);
    HexInverse(b % 16);
    assert s[..3] == Escape(b);
    assert s[1..] == [Hex(b / 16)] + ([Hex(b % 16)] + rest);
    SpaceStep(Hex(b / 16), [Hex(b % 16)] + rest);
    SpaceStep(Hex(b % 16), rest);
    assert PlainSpaces(s) == [s[0]] + PlainSpaces(s[1..]);
  }

  lemma {:induction false} EscapesStep(bytes: seq<Byte>, rest: Text)
    requires 32 !in bytes
    ensures PlainSpaces(Escapes(bytes) + rest) == Escapes(bytes) + PlainSpaces(rest)
  {
    hide PlainSpaces, Escape;
    if bytes == [] {
      assert Escapes(bytes) + rest == rest;
    } else {
      EscapesStep(bytes[1..], rest);
      EscapeStep(bytes[0], Escapes(bytes[1..]) + rest);
      assert Escapes(bytes) + rest == Escape(bytes[0]) + (Escapes(bytes[1..]) + rest);
    }
  }

  lemma NoSpaceByte(v: int)
    requires 0 <= v < 0x110000 && v != 32
    ensures 32 !in Utf8(v)
  {
  }

  /** Replacing %20 afterwards is the same as copying spaces in the first place. */
  lemma {:induction false} SpacesCopied(s: Text)
    requires WellFormed(s)
    ensures Encode(s, false).Ok? && Encode(s, true).Ok?
    ensures PlainSpaces(Encode(s, false).value) == Encode(s, true).value
  {
    hide PlainSpaces, Utf8, Escapes, FromPair;
    if s == [] {
      NoSpaces();
    } else if Unescaped(s[0]) {
      SpacesCopied(s[1..]);
      SpaceStep(s[0], Encode(s[1..], false).value);
    } else if s[0] == SPACE {
      SpacesCopied(s[1..]);
      SpaceEscape();
      EscapeStep(32, Encode(s[1..], false).value);
    } else if High(s[0]) {
      SpacesCopied(s[2..]);
      NoSpaceByte(FromPair(s[0], s[1]));
      EscapesStep(Utf8(FromPair(s[0], s[1])), Encode(s[2..], false).value);
    } else {
      SpacesCopied(s[1..]);
      NoSpaceByte(s[0] as int);
      EscapesStep(Utf8(s[0] as int), Encode(s[1..], false).value);
    }
  }

  lemma NoSpaces()
    ensures PlainSpaces([]) == []
  {
  }

  lemma SpaceEscape()
    ensures Escapes(Utf8(32)) == Escape(32)
  {
    EscapesOne(32);
  }

  lemma EscapesPlain(bytes: seq<Byte>)
    ensures forall u :: u in Escapes(bytes) ==> u == PERCENT || Alphanumeric(u)
  {
  }

  /** The encoded form holds no control character, in particular no tab. */
  lemma {:induction false} EncodedUnits(s: Text, keepSpace: bool)
    requires Encode(s, keepSpace).Ok?
    ensures forall u :: u in Encode(s, keepSpace).value ==> u == PERCENT || Unescaped(u) || u == SPACE
  {
    hide Utf8, Escapes, FromPair;
    if s == [] {
    } else if Unescaped(s[0]) || (keepSpace && s[0] == SPACE) {
      EncodedUnits(s[1..], keepSpace);
    } else if High(s[0]) {
      EncodedUnits(s[2..], keepSpace);
      EscapesPlain(Utf8(FromPair(s[0], s[1])));
    } else {
      EncodedUnits(s[1..], keepSpace);
      EscapesPlain(Utf8(s[0] as int));
    }
  }
}
