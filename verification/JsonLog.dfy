/** A newline-delimited log: writing batches of records, and scanning them back through a fixed read buffer. */
module JsonLog {
  import opened Wrappers

  newtype Byte = x: int | 0 <= x < 256

  const LINE_DELIMITER_BYTE: Byte := 10
  const FILE_READ_BUF_SIZE_BYTES: nat := 1024 * 8
  const PAGE_SIZE: nat := 4 * 1024

  /** The records found so far, and the bytes since the last delimiter. */
  datatype Lines = Lines(records: seq<seq<Byte>>, rest: seq<Byte>)

  function Feed(s: Lines, b: Byte): Lines
  {
    if b != LINE_DELIMITER_BYTE then Lines(s.records, s.rest + [b])
    else if s.rest == [] then s
    else Lines(s.records + [s.rest], [])
  }

  /** Delimiters end records; empty records are skipped. */
  function FeedAll(s: Lines, bytes: seq<Byte>): Lines
    decreases |bytes|
  {
    if bytes == [] then s else FeedAll(Feed(s, bytes[0]), bytes[1..])
  }

  function LinesOf(bytes: seq<Byte>): Lines
  {
    FeedAll(Lines([], []), bytes)
  }

  lemma {:induction false} FeedTwo(s: Lines, a: seq<Byte>, b: seq<Byte>)
    ensures FeedAll(s, a + b) == FeedAll(FeedAll(s, a), b)
    decreases |a|
  {
    if a == [] {
      assert a + b == b;
    } else {
      assert (a + b)[1..] == a[1..] + b;
      FeedTwo(Feed(s, a[0]), a[1..], b);
    }
  }

  /** Bytes without a delimiter only lengthen the rest. */
  lemma {:induction false} FeedPlain(s: Lines, bytes: seq<Byte>)
    requires LINE_DELIMITER_BYTE !in bytes
    ensures FeedAll(s, bytes) == Lines(s.records, s.rest + bytes)
    decreases |bytes|
  {
    if bytes == [] {
      assert s.rest + bytes == s.rest;
    } else {
      FeedPlain(Feed(s, bytes[0]), bytes[1..]);
      assert s.rest + [bytes[0]] + bytes[1..] == s.rest + bytes;
    }
  }

  lemma FeedEnd(s: Lines)
    ensures FeedAll(s, [LINE_DELIMITER_BYTE]) == Feed(s, LINE_DELIMITER_BYTE)
  {
    assert [LINE_DELIMITER_BYTE][1..] == [];
  }

  // ---------------------------------------------------------------------------------------

  /** A record has at least one byte and no delimiter, as JSON text does. */
  predicate Record(bytes: seq<Byte>)
  {
    bytes != [] && LINE_DELIMITER_BYTE !in bytes
  }

  function JoinRecords(records: seq<seq<Byte>>): seq<Byte>
  {
    if records == [] then []
    else if |records| == 1 then records[0]
    else records[0] + [LINE_DELIMITER_BYTE] + JoinRecords(records[1..])
  }

  /** What one call of `append` writes. */
  function Batch(records: seq<seq<Byte>>): seq<Byte>
  {
    [LINE_DELIMITER_BYTE] + JoinRecords(records) + [LINE_DELIMITER_BYTE]
  }

  function Log(batches: seq<seq<seq<Byte>>>): seq<Byte>
  {
    if batches == [] then [] else Log(batches[..|batches| - 1]) + Batch(batches[|batches| - 1])
  }

  function AllRecords(batches: seq<seq<seq<Byte>>>): seq<seq<Byte>>
  {
    if batches == [] then [] else AllRecords(batches[..|batches| - 1]) + batches[|batches| - 1]
  }

  lemma {:induction false} JoinedLines(s: Lines, records: seq<seq<Byte>>)
    requires s.rest == [] && forall r :: r in records ==> Record(r)
    ensures FeedAll(s, JoinRecords(records) + [LINE_DELIMITER_BYTE]) == Lines(s.records + records, [])
    decreases |records|
  {
    if records == [] {
      assert JoinRecords(records) + [LINE_DELIMITER_BYTE] == [LINE_DELIMITER_BYTE];
      FeedEnd(s);
      assert s.records + records == s.records;
    } else {
      var r := records[0];
      assert Record(r);
      OneRecord(s, r);
      if |records| == 1 {
        assert s.records + records == s.records + [r];
      } else {
        var rest := JoinRecords(records[1..]) + [LINE_DELIMITER_BYTE];
        JoinFirst(records);
        FeedTwo(s, r + [LINE_DELIMITER_BYTE], rest);
        JoinedLines(Lines(s.records + [r], []), records[1..]);
        AppendRest(s.records, records);
      }
    }
  }

  lemma JoinFirst(records: seq<seq<Byte>>)
    requires |records| > 1
    ensures JoinRecords(records) + [LINE_DELIMITER_BYTE] ==
            records[0] + [LINE_DELIMITER_BYTE] + (JoinRecords(records[1..]) + [LINE_DELIMITER_BYTE])
  {
  }

  lemma AppendRest<T>(s: seq<T>, t: seq<T>)
    requires t != []
    ensures s + [t[0]] + t[1..] == s + t
  {
  }

  lemma OneRecord(s: Lines, r: seq<Byte>)
    requires s.rest == [] && Record(r)
    ensures FeedAll(s, r + [LINE_DELIMITER_BYTE]) == Lines(s.records + [r], [])
  {
    FeedTwo(s, r, [LINE_DELIMITER_BYTE]);
    FeedPlain(s, r);
    assert s.rest + r == r;
    FeedEnd(Lines(s.records, r));
  }

  /** The records of a log are those of its batches, in order, whatever the sizes of the batches. */
  lemma {:induction false} LogLines(batches: seq<seq<seq<Byte>>>)
    requires forall b, r :: b in batches && r in b ==> Record(r)
    ensures LinesOf(Log(batches)) == Lines(AllRecords(batches), [])
  {
    if batches != [] {
      var past, last := batches[..|batches| - 1], batches[|batches| - 1];
      LogLines(past);
      assert last in batches;
      BatchLines(Lines(AllRecords(past), []), last);
      FeedTwo(Lines([], []), Log(past), Batch(last));
    }
  }

  lemma BatchLines(s: Lines, records: seq<seq<Byte>>)
    requires s.rest == [] && forall r :: r in records ==> Record(r)
    ensures FeedAll(s, Batch(records)) == Lines(s.records + records, [])
  {
    var body := JoinRecords(records) + [LINE_DELIMITER_BYTE];
    assert Batch(records) == [LINE_DELIMITER_BYTE] + body;
    FeedTwo(s, [LINE_DELIMITER_BYTE], body);
    FeedEnd(s);
    JoinedLines(s, records);
  }

  // ---------------------------------------------------------------------------------------

  /** Successive reads take the whole file, none more than the buffer holds; any of them may be short. */
  predicate Covers(file: seq<Byte>, sizes: seq<nat>, capacity: nat)
    decreases |sizes|
  {
    if sizes == [] then file == []
    else sizes[0] <= capacity && sizes[0] <= |file| && Covers(file[sizes[0]..], sizes[1..], capacity)
  }

  /** A read fills the front of the buffer; behind it stays what earlier reads left there. */
  function Overwritten(buf: seq<Byte>, chunk: seq<Byte>): (r: seq<Byte>)
    requires |chunk| <= |buf|
    ensures |r| == |buf|
  {
    chunk + buf[|chunk|..]
  }

  /** The byte behind a short read is looked at as if it had been read, and may be a delimiter. */
  predicate Stale(buf: seq<Byte>, n: nat)
  {
    0 < n < |buf| && buf[n] == LINE_DELIMITER_BYTE
  }

  function Seen(buf: seq<Byte>, n: nat): seq<Byte>
    requires n <= |buf|
  {
    buf[..n] + if Stale(buf, n) then [LINE_DELIMITER_BYTE] else []
  }

  /** The bytes as the scanner takes them: the file, with a delimiter slipped in after some reads. */
  function Virtual(file: seq<Byte>, sizes: seq<nat>, buf: seq<Byte>): seq<Byte>
    requires Covers(file, sizes, |buf|)
    decreases |sizes|
  {
    if sizes == [] then []
    else
      var next := Overwritten(buf, file[..sizes[0]]);
      Seen(next, sizes[0]) + Virtual(file[sizes[0]..], sizes[1..], next)
  }

  /** A read that stops inside a record, with a delimiter left behind it in the buffer. */
  predicate Cuts(file: seq<Byte>, n: nat, buf: seq<Byte>)
    requires n <= |file|
  {
    Stale(buf, n) && file[n - 1] != LINE_DELIMITER_BYTE && (n == |file| || file[n] != LINE_DELIMITER_BYTE)
  }

  /** How many reads cut a record. */
  function CutCount(file: seq<Byte>, sizes: seq<nat>, buf: seq<Byte>): nat
    requires Covers(file, sizes, |buf|)
    decreases |sizes|
  {
    if sizes == [] then 0
    else
      var next := Overwritten(buf, file[..sizes[0]]);
      (if Cuts(file, sizes[0], next) then 1 else 0) + CutCount(file[sizes[0]..], sizes[1..], next)
  }

  lemma {:induction false} RestAfter(s: Lines, bytes: seq<Byte>)
    requires bytes != []
    ensures FeedAll(s, bytes).rest == [] <==> bytes[|bytes| - 1] == LINE_DELIMITER_BYTE
    decreases |bytes|
  {
    if |bytes| == 1 {
      assert bytes[1..] == [];
    } else {
      RestAfter(Feed(s, bytes[0]), bytes[1..]);
    }
  }

  /** The scanner has been handed a record that the file has not ended yet. */
  predicate Early(a: Lines, b: Lines)
  {
    a.rest != [] && b == Lines(a.records + [a.rest], [])
  }

  /** A record handed over early does no harm when its delimiter comes next. */
  lemma EarlyEnds(a: Lines, b: Lines, bytes: seq<Byte>)
    requires b == a || (Early(a, b) && bytes != [] && bytes[0] == LINE_DELIMITER_BYTE)
    ensures FeedAll(b, bytes) == FeedAll(a, bytes)
  {
    if b != a {
      assert Feed(a, bytes[0]) == b && Feed(b, bytes[0]) == b;
    }
  }

  lemma FeedSeen(s: Lines, buf: seq<Byte>, n: nat)
    requires n <= |buf|
    ensures FeedAll(s, Seen(buf, n)) ==
            if Stale(buf, n) then Feed(FeedAll(s, buf[..n]), LINE_DELIMITER_BYTE) else FeedAll(s, buf[..n])
  {
    hide FeedAll, Feed;
    if Stale(buf, n) {
      FeedTwo(s, buf[..n], [LINE_DELIMITER_BYTE]);
      FeedEnd(FeedAll(s, buf[..n]));
    } else {
      assert Seen(buf, n) == buf[..n];
    }
  }

  /** One read, when it cuts nothing. */
  lemma ReadWhole(file: seq<Byte>, n: nat, next: seq<Byte>, a: Lines, b: Lines)
    requires n <= |file| && n <= |next| && next[..n] == file[..n] && !Cuts(file, n, next)
    requires b == a || (Early(a, b) && file != [] && file[0] == LINE_DELIMITER_BYTE)
    ensures var a1, b1 := FeedAll(a, file[..n]), FeedAll(b, Seen(next, n));
            b1 == a1 || (Early(a1, b1) && file[n..] != [] && file[n..][0] == LINE_DELIMITER_BYTE)
  {
    hide FeedAll, Seen;
    FeedSeen(b, next, n);
    if n == 0 {
      FeedNothing(a);
      FeedNothing(b);
    } else {
      EarlyEnds(a, b, file[..n]);
      RestAfter(a, file[..n]);
    }
  }

  lemma FeedNothing(s: Lines)
    ensures FeedAll(s, []) == s
  {
  }

  lemma OverwrittenFront(buf: seq<Byte>, chunk: seq<Byte>)
    requires |chunk| <= |buf|
    ensures Overwritten(buf, chunk)[..|chunk|] == chunk
  {
  }

  /** Without cuts the scanner sees the records of the file. */
  lemma {:induction false} NoCuts(file: seq<Byte>, sizes: seq<nat>, buf: seq<Byte>, a: Lines, b: Lines)
    requires Covers(file, sizes, |buf|) && CutCount(file, sizes, buf) == 0
    requires b == a || (Early(a, b) && file != [] && file[0] == LINE_DELIMITER_BYTE)
    ensures FeedAll(b, Virtual(file, sizes, buf)) == FeedAll(a, file)
    decreases |sizes|
  {
    hide FeedAll, Seen, Early, Cuts, Overwritten;
    if sizes == [] {
      FeedNothing(a);
    } else {
      var n := sizes[0];
      var next := Overwritten(buf, file[..n]);
      OverwrittenFront(buf, file[..n]);
      ReadWhole(file, n, next, a, b);
      NoCuts(file[n..], sizes[1..], next, FeedAll(a, file[..n]), FeedAll(b, Seen(next, n)));
      assert file == file[..n] + file[n..];
      FeedTwo(a, file[..n], file[n..]);
      FeedTwo(b, Seen(next, n), Virtual(file[n..], sizes[1..], next));
    }
  }

  /** The file is inside a record, but the scanner has just handed one over. */
  predicate Pending(a: Lines, b: Lines) { a.rest != [] && b.rest == [] }

  predicate Behind(a: Lines, b: Lines) { a.rest == [] ==> b.rest == [] }

  lemma {:induction false} FeedBoth(a: Lines, b: Lines, bytes: seq<Byte>)
    requires Behind(a, b) && !Pending(a, b)
    ensures var a1, b1 := FeedAll(a, bytes), FeedAll(b, bytes);
            Behind(a1, b1) && !Pending(a1, b1) && |b1.records| - |a1.records| == |b.records| - |a.records|
    decreases |bytes|
  {
    if bytes != [] {
      FeedBoth(Feed(a, bytes[0]), Feed(b, bytes[0]), bytes[1..]);
    }
  }

  /** The first byte settles whether a record handed over early was whole. */
  lemma FeedPending(a: Lines, b: Lines, bytes: seq<Byte>)
    requires Behind(a, b) && bytes != []
    ensures var a1, b1 := FeedAll(a, bytes), FeedAll(b, bytes);
            && Behind(a1, b1) && !Pending(a1, b1)
            && |b1.records| - |a1.records| ==
               |b.records| - |a.records| - if Pending(a, b) && bytes[0] == LINE_DELIMITER_BYTE then 1 else 0
  {
    FeedBoth(Feed(a, bytes[0]), Feed(b, bytes[0]), bytes[1..]);
  }

  predicate Resolved(file: seq<Byte>)
  {
    file != [] && file[0] == LINE_DELIMITER_BYTE
  }

  /** Records that the scanner has over the file's, counting one handed over early as surplus unless it was whole. */
  function Surplus(a: Lines, b: Lines, file: seq<Byte>): int
  {
    |b.records| - |a.records| - if Pending(a, b) && Resolved(file) then 1 else 0
  }

  lemma ReadCounts(file: seq<Byte>, n: nat, next: seq<Byte>, a: Lines, b: Lines)
    requires n <= |file| && n <= |next| && next[..n] == file[..n] && Behind(a, b)
    ensures var a1, b1 := FeedAll(a, file[..n]), FeedAll(b, Seen(next, n));
            Behind(a1, b1) && Surplus(a1, b1, file[n..]) == Surplus(a, b, file) + if Cuts(file, n, next) then 1 else 0
  {
    hide FeedAll, Seen;
    FeedSeen(b, next, n);
    if n == 0 {
      FeedNothing(a);
      FeedNothing(b);
      assert file[n..] == file;
    } else {
      FeedPending(a, b, file[..n]);
      RestAfter(a, file[..n]);
    }
  }

  /** Every cut makes one record too many. */
  lemma {:induction false} CutsCount(file: seq<Byte>, sizes: seq<nat>, buf: seq<Byte>, a: Lines, b: Lines)
    requires Covers(file, sizes, |buf|) && Behind(a, b)
    ensures |FeedAll(b, Virtual(file, sizes, buf)).records| - |FeedAll(a, file).records| ==
            Surplus(a, b, file) + CutCount(file, sizes, buf)
    decreases |sizes|
  {
    hide FeedAll, Seen, Cuts, Overwritten, Surplus, Behind;
    if sizes == [] {
      FeedNothing(a);
      FeedNothing(b);
      NothingLeft(a, b);
    } else {
      var n := sizes[0];
      var next := Overwritten(buf, file[..n]);
      OverwrittenFront(buf, file[..n]);
      ReadCounts(file, n, next, a, b);
      CutsCount(file[n..], sizes[1..], next, FeedAll(a, file[..n]), FeedAll(b, Seen(next, n)));
      assert file == file[..n] + file[n..];
      FeedTwo(a, file[..n], file[n..]);
      FeedTwo(b, Seen(next, n), Virtual(file[n..], sizes[1..], next));
    }
  }

  lemma NothingLeft(a: Lines, b: Lines)
    ensures Surplus(a, b, []) == |b.records| - |a.records|
  {
  }

  /** The scanner finds the records of the file exactly when no read cuts one. */
  lemma ScanFindsRecords(file: seq<Byte>, sizes: seq<nat>, buf: seq<Byte>)
    requires Covers(file, sizes, |buf|)
    ensures LinesOf(Virtual(file, sizes, buf)) == LinesOf(file) <==> CutCount(file, sizes, buf) == 0
  {
    var start := Lines([], []);
    CutsCount(file, sizes, buf, start, start);
    if CutCount(file, sizes, buf) == 0 {
      NoCuts(file, sizes, buf, start, start);
    }
  }

  /** Every read but the last fills the buffer. */
  predicate FullReads(sizes: seq<nat>, capacity: nat)
  {
    forall i :: 0 <= i < |sizes| - 1 ==> sizes[i] == capacity
  }

  /** Full reads never cut a record of a file that ends with a delimiter. */
  lemma {:induction false} FullReadsCutNothing(file: seq<Byte>, sizes: seq<nat>, buf: seq<Byte>)
    requires Covers(file, sizes, |buf|) && FullReads(sizes, |buf|)
    requires file != [] ==> file[|file| - 1] == LINE_DELIMITER_BYTE
    ensures CutCount(file, sizes, buf) == 0
    decreases |sizes|
  {
    if sizes != [] {
      var n := sizes[0];
      var next := Overwritten(buf, file[..n]);
      if |sizes| == 1 {
        assert file[n..] == [];
      }
      FullReadsCutNothing(file[n..], sizes[1..], next);
    }
  }

  /** The read that takes the last byte of the file leaves a delimiter behind it in the buffer. */
  predicate EndsStale(file: seq<Byte>, sizes: seq<nat>, buf: seq<Byte>)
    requires Covers(file, sizes, |buf|)
    decreases |sizes|
  {
    sizes != []
    && var next := Overwritten(buf, file[..sizes[0]]);
       if file != [] && sizes[0] == |file| then Stale(next, |file|) else EndsStale(file[sizes[0]..], sizes[1..], next)
  }

  /** No read cuts a record, but for the one that takes the last byte of a file that ends inside a record. */
  predicate CutsAtEndOnly(file: seq<Byte>, sizes: seq<nat>, buf: seq<Byte>)
    requires Covers(file, sizes, |buf|)
  {
    CutCount(file, sizes, buf) == if EndsStale(file, sizes, buf) then 1 else 0
  }

  lemma {:induction false} EndCounts(file: seq<Byte>, sizes: seq<nat>, buf: seq<Byte>)
    requires Covers(file, sizes, |buf|) && file != [] && file[|file| - 1] != LINE_DELIMITER_BYTE
    ensures EndsStale(file, sizes, buf) ==> CutCount(file, sizes, buf) > 0
    decreases |sizes|
  {
    if sizes != [] && sizes[0] < |file| {
      EndCounts(file[sizes[0]..], sizes[1..], Overwritten(buf, file[..sizes[0]]));
    }
  }

  lemma {:induction false} NothingSeen(sizes: seq<nat>, buf: seq<Byte>)
    requires Covers([], sizes, |buf|)
    ensures Virtual([], sizes, buf) == []
    decreases |sizes|
  {
    if sizes != [] {
      var none: seq<Byte> := [];
      assert none[0..] == none;
      NothingSeen(sizes[1..], Overwritten(buf, []));
    }
  }

  /** The read that takes the last byte, of a file that ends inside a record. */
  lemma LastRead(file: seq<Byte>, sizes: seq<nat>, buf: seq<Byte>, a: Lines, b: Lines)
    requires Covers(file, sizes, |buf|) && file != [] && sizes != [] && sizes[0] == |file|
    requires b == a || (Early(a, b) && file[0] == LINE_DELIMITER_BYTE)
    ensures FeedAll(b, Virtual(file, sizes, buf)) ==
            if EndsStale(file, sizes, buf) then Feed(FeedAll(a, file), LINE_DELIMITER_BYTE) else FeedAll(a, file)
  {
    hide FeedAll, Feed, Early, Seen;
    var n := |file|;
    var next := Overwritten(buf, file[..n]);
    OverwrittenFront(buf, file[..n]);
    assert file[..n] == file && file[n..] == [];
    NothingSeen(sizes[1..], next);
    assert Seen(next, n) + [] == Seen(next, n);
    EarlyEnds(a, b, file);
    FeedSeen(b, next, n);
  }

  /** When only the end is cut, the scanner sees the records of the file, and a stale delimiter ends the last one. */
  lemma {:induction false} SeenToTheEnd(file: seq<Byte>, sizes: seq<nat>, buf: seq<Byte>, a: Lines, b: Lines)
    requires Covers(file, sizes, |buf|) && file != [] && file[|file| - 1] != LINE_DELIMITER_BYTE
    requires CutsAtEndOnly(file, sizes, buf)
    requires b == a || (Early(a, b) && file[0] == LINE_DELIMITER_BYTE)
    ensures FeedAll(b, Virtual(file, sizes, buf)) ==
            if EndsStale(file, sizes, buf) then Feed(FeedAll(a, file), LINE_DELIMITER_BYTE) else FeedAll(a, file)
    decreases |sizes|
  {
    hide FeedAll, Feed, Seen, Early, Cuts, Overwritten, Stale;
    var n := sizes[0];
    if n == |file| {
      LastRead(file, sizes, buf, a, b);
    } else {
      var next := Overwritten(buf, file[..n]);
      OverwrittenFront(buf, file[..n]);
      EndCounts(file[n..], sizes[1..], next);
      ReadWhole(file, n, next, a, b);
      SeenToTheEnd(file[n..], sizes[1..], next, FeedAll(a, file[..n]), FeedAll(b, Seen(next, n)));
      assert file == file[..n] + file[n..];
      FeedTwo(a, file[..n], file[n..]);
      FeedTwo(b, Seen(next, n), Virtual(file[n..], sizes[1..], next));
    }
  }

  /**
   With full reads nothing else is cut, and the end is exactly when the file does not fill the last read and a
   delimiter stands one buffer before its end.
   */
  lemma {:induction false} FullReadsEnd(file: seq<Byte>, sizes: seq<nat>, buf: seq<Byte>)
    requires Covers(file, sizes, |buf|) && FullReads(sizes, |buf|) && |buf| == FILE_READ_BUF_SIZE_BYTES
    requires file != [] ==> file[|file| - 1] != LINE_DELIMITER_BYTE
    ensures CutsAtEndOnly(file, sizes, buf)
    ensures EndsStale(file, sizes, buf) <==> LeftBehind(buf, file)
    decreases |sizes|
  {
    hide LeftBehind, Stale;
    if |sizes| == 1 {
      OneRead(file, sizes, buf);
    } else if |sizes| > 1 {
      var next := Overwritten(buf, file[..|buf|]);
      assert next == file[..|buf|];
      NoFullCut(file, next);
      FullReadsEnd(file[|buf|..], sizes[1..], next);
      LaterBehind(buf, file);
      if |file| == |buf| {
        assert file[|buf|..] == [];
        NothingStale(sizes[1..], next);
      }
    } else {
      NoneBehind(buf, file);
    }
  }

  /**
   What a buffer that holds `buf` is left with behind the last of many full reads: the unit one
   buffer before the end.
   */
  predicate LeftBehind(buf: seq<Byte>, file: seq<Byte>)
  {
    |file| % FILE_READ_BUF_SIZE_BYTES != 0 && |buf| > 0 && (buf + file)[|file|] == LINE_DELIMITER_BYTE
  }

  lemma OneRead(file: seq<Byte>, sizes: seq<nat>, buf: seq<Byte>)
    requires Covers(file, sizes, |buf|) && |sizes| == 1 && |buf| == FILE_READ_BUF_SIZE_BYTES
    requires file != [] ==> file[|file| - 1] != LINE_DELIMITER_BYTE
    ensures CutsAtEndOnly(file, sizes, buf) && (EndsStale(file, sizes, buf) <==> LeftBehind(buf, file))
  {
    hide Overwritten, Stale;
    var none: seq<Byte> := [];
    assert file[sizes[0]..] == none && sizes[1..] == [];
    var next := Overwritten(buf, file);
    assert file[..sizes[0]] == file;
    assert CutCount(none, [], next) == 0 && !EndsStale(none, [], next);
    StaleOnce(file, buf);
    NoneBehind(buf, none);
  }

  lemma StaleOnce(file: seq<Byte>, buf: seq<Byte>)
    requires |file| <= |buf| == FILE_READ_BUF_SIZE_BYTES
    ensures Stale(Overwritten(buf, file), |file|) <==> LeftBehind(buf, file)
  {
  }

  lemma NoFullCut(file: seq<Byte>, next: seq<Byte>)
    requires |next| <= |file|
    ensures !Cuts(file, |next|, next) && !Stale(next, |next|)
  {
  }

  lemma LaterBehind(buf: seq<Byte>, file: seq<Byte>)
    requires |buf| == FILE_READ_BUF_SIZE_BYTES <= |file|
    ensures LeftBehind(file[..|buf|], file[|buf|..]) <==> LeftBehind(buf, file)
  {
    assert file[..|buf|] + file[|buf|..] == file;
  }

  lemma NoneBehind(buf: seq<Byte>, file: seq<Byte>)
    requires |file| == 0 || |file| == FILE_READ_BUF_SIZE_BYTES
    ensures !LeftBehind(buf, file)
  {
  }

  lemma {:induction false} NothingStale(sizes: seq<nat>, buf: seq<Byte>)
    requires Covers([], sizes, |buf|)
    ensures !EndsStale([], sizes, buf)
    decreases |sizes|
  {
    if sizes != [] {
      var none: seq<Byte> := [];
      assert none[0..] == none;
      NothingStale(sizes[1..], Overwritten(buf, none));
    }
  }

  // ---------------------------------------------------------------------------------------

  /** What scanning a list of records yields: parsing stops at the first record that does not parse. */
  datatype Delivery<T> = Delivery(objects: seq<T>, failed: bool, goodOffset: nat)

  function Deliver<T>(parse: seq<Byte> -> Option<T>, records: seq<seq<Byte>>): Delivery<T>
  {
    if records == [] then Delivery([], false, 0)
    else
      var d, last := Deliver(parse, records[..|records| - 1]), records[|records| - 1];
      if d.failed then d
      else match parse(last)
        case None => d.(failed := true)
        case Some(value) => Delivery(d.objects + [value], false, d.goodOffset + |last| + 2)
  }

  lemma {:induction false} DeliverStops<T>(parse: seq<Byte> -> Option<T>, a: seq<seq<Byte>>, b: seq<seq<Byte>>)
    requires Deliver(parse, a).failed
    ensures Deliver(parse, a + b) == Deliver(parse, a)
  {
    if b == [] {
      assert a + b == a;
    } else {
      assert (a + b)[..|a + b| - 1] == a + b[..|b| - 1];
      DeliverStops(parse, a, b[..|b| - 1]);
    }
  }

  lemma DeliverOne<T>(parse: seq<Byte> -> Option<T>, records: seq<seq<Byte>>, r: seq<Byte>)
    requires !Deliver(parse, records).failed
    ensures Deliver(parse, records + [r]) ==
            match parse(r)
            case None => Deliver(parse, records).(failed := true)
            case Some(value) =>
              Delivery(Deliver(parse, records).objects + [value], false, Deliver(parse, records).goodOffset + |r| + 2)
  {
    assert (records + [r])[..|records|] == records;
  }

  lemma {:induction false} FeedKeepsRecords(s: Lines, bytes: seq<Byte>)
    ensures s.records <= FeedAll(s, bytes).records
    decreases |bytes|
  {
    if bytes != [] {
      FeedKeepsRecords(Feed(s, bytes[0]), bytes[1..]);
    }
  }

  /** When all records parse, each yields its object. */
  lemma {:induction false} DeliverAll<T>(parse: seq<Byte> -> Option<T>, records: seq<seq<Byte>>)
    requires forall r :: r in records ==> parse(r).Some?
    ensures var d := Deliver(parse, records);
            !d.failed && |d.objects| == |records|
            && forall i :: 0 <= i < |records| ==> parse(records[i]) == Some(d.objects[i])
  {
    if records != [] {
      assert records[|records| - 1] in records;
      DeliverAll(parse, records[..|records| - 1]);
    }
  }

  /** `appendBytes`: grows the destination to a whole number of pages, twice what is needed, when it is too small. */
  method AppendBytes(src: array<Byte>, srcOffset: nat, srcLen: nat, dst: array<Byte>, dstOffset: nat)
    returns (r: array<Byte>)
    requires src != dst && srcOffset + srcLen <= src.Length && dstOffset <= dst.Length
    modifies dst
    ensures r == dst || fresh(r)
    ensures dstOffset + srcLen <= r.Length
    ensures r[..dstOffset + srcLen] == old(dst[..dstOffset]) + src[srcOffset..srcOffset + srcLen]
  {
    r := dst;
    if dstOffset + srcLen > dst.Length {
      var newDst := new Byte[((dstOffset + srcLen) * 2 + PAGE_SIZE - 1) / PAGE_SIZE * PAGE_SIZE](_ => 0);
      Room((dstOffset + srcLen) * 2);
      forall i | 0 <= i < dst.Length {
        newDst[i] := dst[i];
      }
      r := newDst;
    }
    assert r[..dstOffset] == dst[..dstOffset];
    forall i | 0 <= i < srcLen {
      r[dstOffset + i] := src[srcOffset + i];
    }
    Halves(r[..], dstOffset, srcLen, old(dst[..dstOffset]), src[srcOffset..srcOffset + srcLen]);
  }

  lemma Halves(s: seq<Byte>, n: nat, m: nat, a: seq<Byte>, b: seq<Byte>)
    requires n + m <= |s| && |a| == n && |b| == m
    requires (forall i :: 0 <= i < n ==> s[i] == a[i]) && forall i :: 0 <= i < m ==> s[n + i] == b[i]
    ensures s[..n + m] == a + b
  {
  }

  lemma Room(n: nat)
    ensures (n + PAGE_SIZE - 1) / PAGE_SIZE * PAGE_SIZE >= n
  {
  }

  method ReadSync(file: seq<Byte>, n: nat, readBuf: array<Byte>)
    requires n <= |file| && n <= readBuf.Length
    modifies readBuf
    ensures readBuf[..] == Overwritten(old(readBuf[..]), file[..n])
  {
    forall i | 0 <= i < n {
      readBuf[i] := file[i];
    }
  }

  /** The end of the segment that starts at `start`: a delimiter or the end of what was read. */
  method FindEnd(readBuf: array<Byte>, start: nat, bytesRead: nat) returns (end: nat)
    requires start < bytesRead <= readBuf.Length
    ensures start <= end <= bytesRead
    ensures LINE_DELIMITER_BYTE !in readBuf[start..end]
    ensures end < bytesRead ==> readBuf[end] == LINE_DELIMITER_BYTE
  {
    end := start;
    while end < bytesRead && readBuf[end] != LINE_DELIMITER_BYTE
      invariant start <= end <= bytesRead
      invariant LINE_DELIMITER_BYTE !in readBuf[start..end]
    {
      assert readBuf[start..end + 1] == readBuf[start..end] + [readBuf[end]];
      end := end + 1;
    }
  }

  function Left(seen: seq<Byte>, k: nat): seq<Byte>
  {
    if k <= |seen| then seen[k..] else []
  }

  /** The state after the segment that ends at `end`, and after the delimiter found there, if any. */
  function AfterSegment(s: Lines, b: seq<Byte>, start: nat, end: nat): Lines
    requires start <= end <= |b|
  {
    var longer := Lines(s.records, s.rest + b[start..end]);
    if end < |b| && b[end] == LINE_DELIMITER_BYTE then Feed(longer, LINE_DELIMITER_BYTE) else longer
  }

  lemma SegmentStep(b: seq<Byte>, n: nat, start: nat, end: nat, s: Lines)
    requires start < n <= |b| && start <= end <= n
    requires LINE_DELIMITER_BYTE !in b[start..end] && (end < n ==> b[end] == LINE_DELIMITER_BYTE)
    ensures FeedAll(s, Left(Seen(b, n), start)) == FeedAll(AfterSegment(s, b, start, end), Left(Seen(b, n), end + 1))
  {
    hide FeedAll, Feed;
    var seen, segment := Seen(b, n), b[start..end];
    var longer := Lines(s.records, s.rest + segment);
    FeedPlain(s, segment);
    if end < |b| && b[end] == LINE_DELIMITER_BYTE {
      var tail := [LINE_DELIMITER_BYTE] + Left(seen, end + 1);
      assert Left(seen, start) == segment + tail;
      FeedTwo(s, segment, tail);
      FeedTwo(longer, [LINE_DELIMITER_BYTE], Left(seen, end + 1));
      FeedEnd(longer);
    } else {
      assert Left(seen, start) == segment + Left(seen, end + 1);
      FeedTwo(s, segment, Left(seen, end + 1));
    }
  }

  lemma ReadDone(b: seq<Byte>, n: nat, k: nat, s: Lines)
    requires n <= |b| && n <= k <= n + 1 && (k == n ==> s.rest == [])
    ensures FeedAll(s, Left(Seen(b, n), k)) == s
  {
    var left := Left(Seen(b, n), k);
    if left != [] {
      assert left == [LINE_DELIMITER_BYTE];
      FeedEnd(s);
    }
  }

  /** One read of the scan: the records it completes are parsed, what is left over waits in `objectBuf`. */
  method ScanRead<T>(readBuf: array<Byte>, bytesRead: nat, parse: seq<Byte> -> Option<T>,
                     objectBuf: array<Byte>, objectBufOffset: nat, found: Delivery<T>, ghost start: Lines)
    returns (buf: array<Byte>, offset: nat, more: Delivery<T>)
    requires 0 < bytesRead <= readBuf.Length && readBuf != objectBuf && objectBufOffset <= objectBuf.Length
    requires start.rest == objectBuf[..objectBufOffset]
    requires !found.failed && found == Deliver(parse, start.records)
    modifies objectBuf
    ensures buf == objectBuf || fresh(buf)
    ensures offset <= buf.Length
    ensures more == Deliver(parse, FeedAll(start, Seen(readBuf[..], bytesRead)).records)
    ensures !more.failed ==> buf[..offset] == FeedAll(start, Seen(readBuf[..], bytesRead)).rest
  {
    hide FeedAll, Feed, Seen, Left, Deliver;
    buf, offset, more := objectBuf, objectBufOffset, found;
    ghost var b, state := readBuf[..], start;
    ghost var end := FeedAll(start, Seen(b, bytesRead));
    var readBufStart: nat := 0;
    AllLeft(Seen(b, bytesRead));
    while readBufStart < bytesRead
      invariant readBufStart <= bytesRead + 1 && (readBufStart == bytesRead ==> offset == 0)
      invariant readBuf[..] == b && (buf == objectBuf || fresh(buf)) && offset <= buf.Length
      invariant FeedAll(state, Left(Seen(b, bytesRead), readBufStart)) == end
      invariant buf[..offset] == state.rest && !more.failed && more == Deliver(parse, state.records)
    {
      var readBufEnd := FindEnd(readBuf, readBufStart, bytesRead);
      assert b[readBufStart..readBufEnd] == readBuf[readBufStart..readBufEnd];
      SegmentStep(b, bytesRead, readBufStart, readBufEnd, state);
      ghost var after := AfterSegment(state, b, readBufStart, readBufEnd);
      var readLen := readBufEnd - readBufStart;
      if readLen > 0 {
        buf := AppendBytes(readBuf, readBufStart, readLen, buf, offset);
        offset := offset + readLen;
      }
      assert buf[..offset] == state.rest + b[readBufStart..readBufEnd];
      FedRecord(state, b, readBufStart, readBufEnd);
      readBufStart := readBufEnd + 1;
      if readBufEnd < readBuf.Length && readBuf[readBufEnd] == LINE_DELIMITER_BYTE && offset > 0 {
        var text := buf[..offset];
        DeliverOne(parse, state.records, text);
        match parse(text) {
          case None =>
            more := more.(failed := true);
            StoppedHere(parse, after, Left(Seen(b, bytesRead), readBufStart));
            return;
          case Some(value) =>
            more := Delivery(more.objects + [value], false, more.goodOffset + offset + 2);
            offset := 0;
        }
      }
      state := after;
    }
    ReadDone(b, bytesRead, readBufStart, state);
  }

  lemma AllLeft(seen: seq<Byte>)
    ensures Left(seen, 0) == seen
  {
  }

  lemma FedRecord(s: Lines, b: seq<Byte>, start: nat, end: nat)
    requires start <= end <= |b|
    ensures var rest, t := s.rest + b[start..end], AfterSegment(s, b, start, end);
            if end < |b| && b[end] == LINE_DELIMITER_BYTE && rest != [] then t == Lines(s.records + [rest], [])
            else t == Lines(s.records, rest)
  {
  }

  lemma StoppedHere<T>(parse: seq<Byte> -> Option<T>, s: Lines, bytes: seq<Byte>)
    requires Deliver(parse, s.records).failed
    ensures Deliver(parse, FeedAll(s, bytes).records) == Deliver(parse, s.records)
  {
    FeedKeepsRecords(s, bytes);
    var all := FeedAll(s, bytes).records;
    assert all == s.records + all[|s.records|..];
    DeliverStops(parse, s.records, all[|s.records|..]);
  }

  class JSONLogFile {
    const write: bool
    var didScan: bool
    var content: seq<Byte>

    constructor (write: bool, content: seq<Byte>)
      ensures this.write == write && this.content == content && !didScan
    {
      this.write, this.content, didScan := write, content, false;
    }

    /** Appends one batch; the k-th call of the operating system's `write` takes `accept(k, n)` of `n` bytes. */
    method Append(entries: seq<seq<Byte>>, accept: (nat, nat) -> nat)
      requires write && didScan
      requires forall k: nat, n: nat :: n > 0 ==> 0 < accept(k, n) <= n
      modifies this`content
      ensures content == old(content) + Batch(entries)
    {
      hide Batch;
      var encodedBuf := Batch(entries);
      var bytesWritten: nat := 0;
      var k: nat := 0;
      while bytesWritten < |encodedBuf|
        invariant bytesWritten <= |encodedBuf|
        invariant content == old(content) + encodedBuf[..bytesWritten]
        decreases |encodedBuf| - bytesWritten
      {
        var arr := encodedBuf[bytesWritten..];
        var n := accept(k, |arr|);
        content := content + arr[..n];
        assert encodedBuf[..bytesWritten + n] == encodedBuf[..bytesWritten] + arr[..n];
        bytesWritten, k := bytesWritten + n, k + 1;
      }
      assert encodedBuf[..bytesWritten] == encodedBuf;
    }

    /**
     * Scans the whole file; the operating system splits it into reads of the given sizes. When a record does not parse,
     * or the file ends inside one, a writable file is truncated behind what is taken for the last good record.
     */
    method Scan<T>(sizes: seq<nat>, parse: seq<Byte> -> Option<T>) returns (objects: seq<T>, truncated: Option<nat>)
      requires Covers(content, sizes, FILE_READ_BUF_SIZE_BYTES)
      modifies this
      ensures didScan
      ensures Scanned(old(content), sizes, parse, write, objects, truncated)
      ensures content == if truncated.Some? then SetLength(old(content), truncated.value) else old(content)
    {
      hide FeedAll, Feed, Seen, Deliver, Virtual, Overwritten, Scanned;
      var readBuf := new Byte[FILE_READ_BUF_SIZE_BYTES](_ => 0);
      ghost var start, zeros := Lines([], []), readBuf[..];
      Zeroed(zeros);
      var objectBuf := new Byte[PAGE_SIZE](_ => 0);
      var objectBufOffset: nat := 0;
      var fileOffset: nat := 0;
      var found: Delivery<T> := Delivery([], false, 0);
      ghost var state := start;
      ghost var all := FeedAll(start, Virtual(content, sizes, zeros));
      NothingYet(parse);
      for i := 0 to |sizes|
        invariant fileOffset <= |content| && content == old(content)
        invariant fresh(readBuf) && fresh(objectBuf) && readBuf != objectBuf
        invariant readBuf.Length == FILE_READ_BUF_SIZE_BYTES && objectBufOffset <= objectBuf.Length
        invariant Covers(content[fileOffset..], sizes[i..], FILE_READ_BUF_SIZE_BYTES)
        invariant FeedAll(state, Virtual(content[fileOffset..], sizes[i..], readBuf[..])) == all
        invariant state.rest == objectBuf[..objectBufOffset]
        invariant !found.failed && found == Deliver(parse, state.records)
      {
        var bytesRead := sizes[i];
        NextRead(state, content[fileOffset..], sizes[i..], readBuf[..]);
        ReadSync(content[fileOffset..], bytesRead, readBuf);
        assert content[fileOffset..][bytesRead..] == content[fileOffset + bytesRead..];
        assert sizes[i..][1..] == sizes[i + 1..];
        fileOffset := fileOffset + bytesRead;
        if bytesRead == 0 {
          SeenNothing(state, readBuf[..]);
          continue;
        }
        ghost var after := FeedAll(state, Seen(readBuf[..], bytesRead));
        objectBuf, objectBufOffset, found :=
          ScanRead(readBuf, bytesRead, parse, objectBuf, objectBufOffset, found, state);
        state := after;
        if found.failed {
          StoppedHere(parse, state, Virtual(content[fileOffset..], sizes[i + 1..], readBuf[..]));
          objects := found.objects;
          truncated := if write then Some(found.goodOffset) else None;
          if write {
            content := SetLength(content, found.goodOffset);
          }
          didScan := true;
          ScanEnds(old(content), sizes, parse, write, zeros, all, found);
          return;
        }
      }
      AllRead(state, content[fileOffset..], sizes[|sizes|..], readBuf[..]);
      truncated := if objectBufOffset > 0 && write then Some(found.goodOffset) else None;
      if objectBufOffset > 0 && write {
        content := SetLength(content, found.goodOffset);
      }
      didScan := true;
      objects := found.objects;
      ScanEnds(old(content), sizes, parse, write, zeros, all, found);
    }
  }

  function Zeros(n: nat): (r: seq<Byte>)
    ensures |r| == n
  {
    seq(n, _ => 0)
  }

  /** `file.truncate(n)`: a file that is too short is filled up with zeros. */
  function SetLength(file: seq<Byte>, n: nat): seq<Byte>
  {
    if n <= |file| then file[..n] else file + Zeros(n - |file|)
  }

  /** The outcome of a scan, in terms of the records the scanner sees. */
  ghost predicate Scanned<T>(file: seq<Byte>, sizes: seq<nat>, parse: seq<Byte> -> Option<T>, write: bool,
                             objects: seq<T>, truncated: Option<nat>)
  {
    Covers(file, sizes, FILE_READ_BUF_SIZE_BYTES)
    && var lines := LinesOf(Virtual(file, sizes, Zeros(FILE_READ_BUF_SIZE_BYTES)));
       var d := Deliver(parse, lines.records);
       && objects == d.objects
       && truncated == if write && (d.failed || lines.rest != []) then Some(d.goodOffset) else None
  }

  lemma Zeroed(zeros: seq<Byte>)
    requires |zeros| == FILE_READ_BUF_SIZE_BYTES && forall i :: 0 <= i < |zeros| ==> zeros[i] == 0
    ensures zeros == Zeros(FILE_READ_BUF_SIZE_BYTES)
  {
  }

  lemma NothingYet<T>(parse: seq<Byte> -> Option<T>)
    ensures Deliver(parse, []) == Delivery([], false, 0)
  {
  }

  lemma NextRead(s: Lines, file: seq<Byte>, sizes: seq<nat>, buf: seq<Byte>)
    requires sizes != [] && Covers(file, sizes, |buf|)
    ensures sizes[0] <= |file| && sizes[0] <= |buf| && Covers(file[sizes[0]..], sizes[1..], |buf|)
    ensures var next := Overwritten(buf, file[..sizes[0]]);
            FeedAll(s, Virtual(file, sizes, buf)) ==
              FeedAll(FeedAll(s, Seen(next, sizes[0])), Virtual(file[sizes[0]..], sizes[1..], next))
  {
    hide FeedAll, Seen, Overwritten;
    var next := Overwritten(buf, file[..sizes[0]]);
    FeedTwo(s, Seen(next, sizes[0]), Virtual(file[sizes[0]..], sizes[1..], next));
  }

  lemma SeenNothing(s: Lines, buf: seq<Byte>)
    ensures FeedAll(s, Seen(buf, 0)) == s
  {
    assert Seen(buf, 0) == [];
  }

  lemma AllRead(s: Lines, file: seq<Byte>, sizes: seq<nat>, buf: seq<Byte>)
    requires sizes == [] && Covers(file, sizes, |buf|)
    ensures FeedAll(s, Virtual(file, sizes, buf)) == s
  {
  }

  lemma ScanEnds<T>(file: seq<Byte>, sizes: seq<nat>, parse: seq<Byte> -> Option<T>, write: bool, zeros: seq<Byte>,
                    all: Lines, found: Delivery<T>)
    requires zeros == Zeros(FILE_READ_BUF_SIZE_BYTES) && Covers(file, sizes, |zeros|)
    requires all == FeedAll(Lines([], []), Virtual(file, sizes, zeros)) && found == Deliver(parse, all.records)
    ensures Scanned(file, sizes, parse, write, found.objects,
                    if write && (found.failed || all.rest != []) then Some(found.goodOffset) else None)
  {
    hide FeedAll, Virtual, Deliver;
  }

  // ---------------------------------------------------------------------------------------

  lemma LogEndsLine(batches: seq<seq<seq<Byte>>>)
    ensures Log(batches) != [] ==> Log(batches)[|Log(batches)| - 1] == LINE_DELIMITER_BYTE
  {
  }

  /** What was appended is read back: every record once, in order, and the file stays as it is. */
  lemma AppendedComesBack<T>(batches: seq<seq<seq<Byte>>>, sizes: seq<nat>, parse: seq<Byte> -> Option<T>, write: bool,
                             objects: seq<T>, truncated: Option<nat>)
    requires forall b, r :: b in batches && r in b ==> Record(r)
    requires forall r :: r in AllRecords(batches) ==> parse(r).Some?
    requires Scanned(Log(batches), sizes, parse, write, objects, truncated)
    requires CutCount(Log(batches), sizes, Zeros(FILE_READ_BUF_SIZE_BYTES)) == 0
    ensures truncated == None
    ensures |objects| == |AllRecords(batches)|
    ensures forall i :: 0 <= i < |objects| ==> parse(AllRecords(batches)[i]) == Some(objects[i])
  {
    hide LinesOf, Virtual, CutCount;
    ScanFindsRecords(Log(batches), sizes, Zeros(FILE_READ_BUF_SIZE_BYTES));
    LogLines(batches);
    DeliverAll(parse, AllRecords(batches));
  }

  /** In particular when every read but the last fills the buffer, wherever the reads divide the records. */
  lemma FullReadsComeBack(batches: seq<seq<seq<Byte>>>, sizes: seq<nat>)
    requires Covers(Log(batches), sizes, FILE_READ_BUF_SIZE_BYTES) && FullReads(sizes, FILE_READ_BUF_SIZE_BYTES)
    ensures CutCount(Log(batches), sizes, Zeros(FILE_READ_BUF_SIZE_BYTES)) == 0
  {
    LogEndsLine(batches);
    FullReadsCutNothing(Log(batches), sizes, Zeros(FILE_READ_BUF_SIZE_BYTES));
  }

  // ---------------------------------------------------------------------------------------

  lemma {:induction false} BatchSize(records: seq<seq<Byte>>)
    requires records != []
    ensures |Batch(records)| == TotalSize(records) + |records| + 1
  {
    if |records| > 1 {
      BatchSize(records[1..]);
      TotalSizeFirst(records);
    } else {
      assert records[..0] == [];
    }
  }

  function TotalSize(records: seq<seq<Byte>>): nat
  {
    if records == [] then 0 else TotalSize(records[..|records| - 1]) + |records[|records| - 1]|
  }

  lemma {:induction false} TotalSizeTwo(a: seq<seq<Byte>>, b: seq<seq<Byte>>)
    ensures TotalSize(a + b) == TotalSize(a) + TotalSize(b)
  {
    if b == [] {
      assert a + b == a;
    } else {
      assert (a + b)[..|a + b| - 1] == a + b[..|b| - 1];
      TotalSizeTwo(a, b[..|b| - 1]);
    }
  }

  lemma TotalSizeFirst(records: seq<seq<Byte>>)
    requires records != []
    ensures TotalSize(records) == |records[0]| + TotalSize(records[1..])
  {
    assert records == [records[0]] + records[1..];
    TotalSizeTwo([records[0]], records[1..]);
    assert [records[0]][..0] == [];
  }

  /** The scanner counts two delimiters per record, ... */
  lemma {:induction false} GoodOffset<T>(parse: seq<Byte> -> Option<T>, records: seq<seq<Byte>>)
    requires forall r :: r in records ==> parse(r).Some?
    ensures !Deliver(parse, records).failed && Deliver(parse, records).goodOffset == TotalSize(records) + 2 * |records|
  {
    if records != [] {
      assert records[|records| - 1] in records;
      GoodOffset(parse, records[..|records| - 1]);
    }
  }

  /** The delimiters that `append` writes around one batch after another. */
  function Delimiters(batches: seq<seq<seq<Byte>>>): nat
  {
    if batches == [] then 0
    else
      var last := batches[|batches| - 1];
      Delimiters(batches[..|batches| - 1]) + if last == [] then 2 else |last| + 1
  }

  /** ... where the log holds one more than there are records in each batch, and two for an empty one. */
  lemma {:induction false} LogSize(batches: seq<seq<seq<Byte>>>)
    ensures |Log(batches)| == TotalSize(AllRecords(batches)) + Delimiters(batches)
  {
    if batches != [] {
      var past, last := batches[..|batches| - 1], batches[|batches| - 1];
      LogSize(past);
      if last != [] {
        BatchSize(last);
      }
      TotalSizeTwo(AllRecords(past), last);
    }
  }

  /** Without empty batches the count is right for batches of one record only, and too high otherwise. */
  lemma {:induction false} TwoPerRecord(batches: seq<seq<seq<Byte>>>)
    requires forall b :: b in batches ==> b != []
    ensures Delimiters(batches) <= 2 * |AllRecords(batches)|
    ensures Delimiters(batches) == 2 * |AllRecords(batches)| <==> forall b :: b in batches ==> |b| == 1
  {
    if batches != [] {
      var past, last := batches[..|batches| - 1], batches[|batches| - 1];
      assert last in batches && batches == past + [last];
      assert forall b :: b in past ==> b in batches;
      TwoPerRecord(past);
    }
  }

  /** A log and, behind it, what a crash left of one more batch: the beginning of a record. */
  ghost predicate Torn(batches: seq<seq<seq<Byte>>>, torn: seq<Byte>, file: seq<Byte>)
  {
    && (forall b, r :: b in batches && r in b ==> Record(r)) && Record(torn)
    && (file == Log(batches) + [LINE_DELIMITER_BYTE] + torn || file == Log(batches) + torn)
  }

  lemma TornLines(batches: seq<seq<seq<Byte>>>, torn: seq<Byte>, file: seq<Byte>)
    requires Torn(batches, torn, file)
    ensures LinesOf(file) == Lines(AllRecords(batches), torn)
    ensures file != [] && file[|file| - 1] != LINE_DELIMITER_BYTE
  {
    hide FeedAll, AllRecords, Log;
    var start, good := Lines([], []), Lines(AllRecords(batches), []);
    LogLines(batches);
    FeedPlain(good, torn);
    assert [] + torn == torn;
    if file == Log(batches) + torn {
      FeedTwo(start, Log(batches), torn);
    } else {
      assert file == Log(batches) + ([LINE_DELIMITER_BYTE] + torn);
      FeedTwo(start, Log(batches), [LINE_DELIMITER_BYTE] + torn);
      FeedTwo(good, [LINE_DELIMITER_BYTE], torn);
      FeedEnd(good);
    }
  }

  /** What a scan makes of the records of the log, all of which parse, and of a record behind them. */
  lemma DeliverTorn<T>(parse: seq<Byte> -> Option<T>, batches: seq<seq<seq<Byte>>>, torn: seq<Byte>)
    requires forall r :: r in AllRecords(batches) ==> parse(r).Some?
    ensures var d := Deliver(parse, AllRecords(batches));
            !d.failed && |d.objects| == |AllRecords(batches)|
            && (d.goodOffset == |Log(batches)| <==> Delimiters(batches) == 2 * |AllRecords(batches)|)
    ensures var d, e := Deliver(parse, AllRecords(batches)), Deliver(parse, AllRecords(batches) + [torn]);
            if parse(torn).Some? then !e.failed && e.objects == d.objects + [parse(torn).value]
            else e.failed && e.objects == d.objects && e.goodOffset == d.goodOffset
  {
    hide Deliver, AllRecords;
    DeliverAll(parse, AllRecords(batches));
    GoodOffset(parse, AllRecords(batches));
    LogSize(batches);
    DeliverOne(parse, AllRecords(batches), torn);
  }

  /**
   What a scan does about a tail that a crash cut short, no read of the log itself having cut a record. It is removed
   exactly, and nothing else, if and only if the log holds two delimiters per record and the scanner is not handed the
   torn text as a whole record that parses, ended by a delimiter left over in the buffer. In that case the tail stays
   in the file and is delivered.
   */
  lemma TornTail<T>(batches: seq<seq<seq<Byte>>>, torn: seq<Byte>, file: seq<Byte>, sizes: seq<nat>,
                    parse: seq<Byte> -> Option<T>, objects: seq<T>, truncated: Option<nat>)
    requires Torn(batches, torn, file) && forall r :: r in AllRecords(batches) ==> parse(r).Some?
    requires Scanned(file, sizes, parse, true, objects, truncated)
    requires CutsAtEndOnly(file, sizes, Zeros(FILE_READ_BUF_SIZE_BYTES))
    ensures var ended := EndsStale(file, sizes, Zeros(FILE_READ_BUF_SIZE_BYTES)) && parse(torn).Some?;
            && (truncated == Some(|Log(batches)|) <==> Delimiters(batches) == 2 * |AllRecords(batches)| && !ended)
            && (truncated == None <==> ended)
            && |objects| == |AllRecords(batches)| + (if ended then 1 else 0)
            && (ended ==> objects[|objects| - 1] == parse(torn).value)
  {
    hide FeedAll, Virtual, CutCount, EndsStale, Deliver, AllRecords, Log, Delimiters;
    var zeros, start := Zeros(FILE_READ_BUF_SIZE_BYTES), Lines([], []);
    TornLines(batches, torn, file);
    SeenToTheEnd(file, sizes, zeros, start, start);
    DeliverTorn(parse, batches, torn);
  }

  /** The same for full reads, when only the last one is short, and batches that are not empty. */
  lemma TornTailFullReads<T>(batches: seq<seq<seq<Byte>>>, torn: seq<Byte>, file: seq<Byte>, sizes: seq<nat>,
                             parse: seq<Byte> -> Option<T>, objects: seq<T>, truncated: Option<nat>)
    requires Torn(batches, torn, file) && forall r :: r in AllRecords(batches) ==> parse(r).Some?
    requires forall b :: b in batches ==> b != []
    requires Scanned(file, sizes, parse, true, objects, truncated) && FullReads(sizes, FILE_READ_BUF_SIZE_BYTES)
    ensures truncated == Some(|Log(batches)|) <==>
            && (forall b :: b in batches ==> |b| == 1)
            && !(|file| > FILE_READ_BUF_SIZE_BYTES && |file| % FILE_READ_BUF_SIZE_BYTES != 0
                 && file[|file| - FILE_READ_BUF_SIZE_BYTES] == LINE_DELIMITER_BYTE && parse(torn).Some?)
  {
    hide FeedAll, Virtual, CutCount, EndsStale, Deliver, AllRecords, Log, Delimiters, LinesOf;
    var zeros := Zeros(FILE_READ_BUF_SIZE_BYTES);
    TornLines(batches, torn, file);
    FullReadsEnd(file, sizes, zeros);
    StaleOrZero(file, zeros);
    TornTail(batches, torn, file, sizes, parse, objects, truncated);
    TwoPerRecord(batches);
  }

  lemma StaleOrZero(file: seq<Byte>, zeros: seq<Byte>)
    requires zeros == Zeros(FILE_READ_BUF_SIZE_BYTES)
    ensures LeftBehind(zeros, file) <==>
            && |file| > FILE_READ_BUF_SIZE_BYTES && |file| % FILE_READ_BUF_SIZE_BYTES != 0
            && file[|file| - FILE_READ_BUF_SIZE_BYTES] == LINE_DELIMITER_BYTE
  {
  }

  /**
   The delimiter of a record that fills the first read is left behind when the same record follows and its own last
   delimiter is lost: the second copy is delivered as well, and nothing is truncated.
   */
  lemma LostNewline<T>(record: seq<Byte>, sizes: seq<nat>, parse: seq<Byte> -> Option<T>, objects: seq<T>,
                       truncated: Option<nat>)
    requires Record(record) && |record| == FILE_READ_BUF_SIZE_BYTES - 2 && parse(record).Some?
    requires sizes == [FILE_READ_BUF_SIZE_BYTES, FILE_READ_BUF_SIZE_BYTES - 1]
    requires Scanned(Log([[record]]) + [LINE_DELIMITER_BYTE] + record, sizes, parse, true, objects, truncated)
    ensures truncated == None && |objects| == 2 && objects[1] == parse(record).value
  {
    var batches, file := [[record]], Log([[record]]) + [LINE_DELIMITER_BYTE] + record;
    OneRecordLog(record);
    hide FeedAll, Virtual, CutCount, EndsStale, Deliver, AllRecords, Log, Scanned;
    var zeros := Zeros(FILE_READ_BUF_SIZE_BYTES);
    ScanCovers(file, sizes, parse, true, objects, truncated);
    TornLines(batches, record, file);
    FullReadsEnd(file, sizes, zeros);
    StaleOrZero(file, zeros);
    TornTail(batches, record, file, sizes, parse, objects, truncated);
  }

  lemma ScanCovers<T>(file: seq<Byte>, sizes: seq<nat>, parse: seq<Byte> -> Option<T>, write: bool, objects: seq<T>,
                      truncated: Option<nat>)
    requires Scanned(file, sizes, parse, write, objects, truncated)
    ensures Covers(file, sizes, FILE_READ_BUF_SIZE_BYTES)
  {
  }

  lemma OneRecordLog(record: seq<Byte>)
    ensures Log([[record]]) == [LINE_DELIMITER_BYTE] + record + [LINE_DELIMITER_BYTE]
    ensures AllRecords([[record]]) == [record]
  {
    assert [[record]][..0] == [];
    assert [] + Batch([record]) == Batch([record]);
  }
}
