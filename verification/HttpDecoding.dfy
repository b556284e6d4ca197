/** What the body phase decodes: section 4.4 (message length) and section 3.6.1 (chunked transfer
    coding) of RFC 2616, and the length arithmetic behind both. */
module HttpDecoding {
  import opened Bytes
  import opened HttpBody
  import opened HttpParser
  import opened Options

  // ---- Digits ----

  const LOWER: string := "0123456789abcdef"
  const UPPER: string := "0123456789ABCDEF"

  /** The last position of a character in a row, or -1. */
  function IndexOf(row: string, ch: byte): int {
    if row == "" then -1
    else if row[|row| - 1] as int == ch then |row| - 1
    else IndexOf(row[..|row| - 1], ch)
  }

  /** The value of a hexadecimal digit: its position in one of the two rows of digits; -1 for any other byte. */
  function HexDigit(ch: byte): int {
    if IndexOf(LOWER, ch) >= 0 then IndexOf(LOWER, ch) else IndexOf(UPPER, ch)
  }

  predicate IsHex(ch: byte) { HexDigit(ch) >= 0 }

  predicate IsDigit(ch: byte) { 0 <= HexDigit(ch) < 10 }

  lemma {:induction false} IndexOfMeaning(row: string, ch: byte)
    ensures -1 <= IndexOf(row, ch) < |row|
    ensures IndexOf(row, ch) >= 0 ==> row[IndexOf(row, ch)] as int == ch
    ensures IndexOf(row, ch) == -1 ==> forall k :: 0 <= k < |row| ==> row[k] as int != ch
    decreases |row|
  {
    if row != "" {
      IndexOfMeaning(row[..|row| - 1], ch);
    }
  }

  lemma RowsOfDigits()
    ensures |LOWER| == |UPPER| == 16
    ensures forall v: nat | v < 16 :: LOWER[v] as int == if v < 10 then 48 + v else 87 + v
    ensures forall v: nat | v < 16 :: UPPER[v] as int == if v < 10 then 48 + v else 55 + v
  {
  }

  /** The parser's table gives the digits their values, and every other byte -1. */
  lemma UnhexIsDigit(ch: byte)
    ensures Unhex(ch) == HexDigit(ch)
  {
    RowsOfDigits();
    IndexOfMeaning(LOWER, ch);
    IndexOfMeaning(UPPER, ch);
    if Unhex(ch) >= 0 {
      assert LOWER[Unhex(ch)] as int == ch || UPPER[Unhex(ch)] as int == ch;
    }
  }

  /** IS_NUM */
  predicate IsNum(ch: byte) { 48 <= ch <= 57 }

  lemma NumIsDigit(ch: byte)
    ensures IsNum(ch) <==> IsDigit(ch)
    ensures IsNum(ch) ==> HexDigit(ch) == ch - 48
  {
    UnhexIsDigit(ch);
  }

  // ---- Content-Length ----

  function DigitValue(ch: byte): nat
    requires IsDigit(ch)
  {
    HexDigit(ch)
  }

  function DecimalValue(digits: seq<byte>): nat
    requires forall i :: 0 <= i < |digits| ==> IsDigit(digits[i])
  {
    if digits == [] then 0 else 10 * DecimalValue(digits[..|digits| - 1]) + DigitValue(digits[|digits| - 1])
  }

  /** Digits, then spaces. */
  ghost predicate IsLengthField(value: seq<byte>, n: nat) {
    && 0 < n <= |value|
    && (forall i :: 0 <= i < n ==> IsDigit(value[i]))
    && (forall i :: n <= i < |value| ==> value[i] == 32)
  }

  /** Largest accepted value: the guard compares before the multiplication. */
  const LENGTH_LIMIT: nat := 10 * ((ULLONG_MAX - 10) / 10) + 10

  lemma {:induction false} DecimalMonotone(digits: seq<byte>, k: nat)
    requires forall i :: 0 <= i < |digits| ==> IsDigit(digits[i])
    requires k <= |digits|
    ensures DecimalValue(digits[..k]) <= DecimalValue(digits)
    decreases |digits|
  {
    if k < |digits| {
      var d := digits[..|digits| - 1];
      DecimalMonotone(d, k);
      assert d[..k] == digits[..k];
    } else {
      assert digits[..k] == digits;
    }
  }

  /** The value of a Content-Length header, up to its end of line: h_content_length on the first
      byte, then h_content_length_num and h_content_length_ws. The result is the decimal value of the
      digits exactly when the field is digits followed by spaces and the value passes the guard;
      then it fits 64 bits and is not the all-ones sentinel. */
  method ParseContentLength(value: seq<byte>) returns (r: Option<nat>)
    requires value != []
    ensures r.Some? <==> exists n: nat :: IsLengthField(value, n) && DecimalValue(value[..n]) < LENGTH_LIMIT
    ensures r.Some? ==> r.value < ULLONG_MAX &&
                        exists n: nat :: IsLengthField(value, n) && r.value == DecimalValue(value[..n])
  {
    NumIsDigit(value[0]);
    if !IsNum(value[0]) {
      assert forall n: nat :: !IsLengthField(value, n);
      return None;
    }
    var length: nat := value[0] - 48;
    var inSpaces := false;
    ghost var n: nat := 1;
    assert value[..1][..0] == [];
    for i := 1 to |value|
      invariant 0 < n <= i && (inSpaces || n == i)
      invariant forall j :: 0 <= j < n ==> IsDigit(value[j])
      invariant forall j :: n <= j < i ==> value[j] == 32
      invariant length == DecimalValue(value[..n]) < LENGTH_LIMIT
      invariant inSpaces ==> n < i
    {
      if value[i] == 32 {
        inSpaces := true;
      } else {
        NumIsDigit(value[i]);
        if inSpaces || !IsNum(value[i]) {
          NotAField(value, n, i, inSpaces);
          return None;
        }
        assert value[..i + 1][..i] == value[..i];
        if (ULLONG_MAX - 10) / 10 < length {
          forall m: nat | IsLengthField(value, m) ensures DecimalValue(value[..m]) >= LENGTH_LIMIT {
            assert m > i;
            DecimalMonotone(value[..m], i + 1);
            assert value[..m][..i + 1] == value[..i + 1];
          }
          return None;
        }
        length := 10 * length + (value[i] - 48);
        n := i + 1;
      }
    }
    assert IsLengthField(value, n);
    return Some(length);
  }

  lemma NotAField(value: seq<byte>, n: nat, i: nat, inSpaces: bool)
    requires 0 < n <= i < |value| && value[i] != 32
    requires if inSpaces then n < i && value[n] == 32 else !IsDigit(value[i])
    ensures forall m: nat :: !IsLengthField(value, m)
  {
    NumIsDigit(32);
  }

  /** With Content-Length n the first n bytes after the header are the body, whatever they are, and
      the message completes with the n-th and not before. */
  lemma IdentityBody(p: Parser, d: seq<byte>)
    requires HandedOver(p.c) && p.c.head.lengthGiven && !p.c.head.chunked && !p.c.head.skipBody
    requires p.c.nread < MAX_HEADER_SIZE && 0 < |d| <= p.c.length
    ensures var r := Feed(p, [LF] + d);
            && r.body == p.body + d && r.c.errno == Fine
            && r.c.completed == p.c.completed + (if |d| == p.c.length then 1 else 0)
            && (r.c.status == BodyIdentity <==> |d| < p.c.length)
  {
    var q := Byte(p, LF);
    FeedOne(p, LF);
    FeedConcat(p, [LF], d);
    assert q == Parser(p.c.(nread := 0, status := BodyIdentity), p.body);
    BulkFeed(q, d);
  }

  /** With Content-Length 0 the message completes with the header. */
  lemma EmptyIdentityBody(p: Parser)
    requires HandedOver(p.c) && p.c.head.lengthGiven && !p.c.head.chunked && !p.c.head.skipBody
    requires p.c.nread < MAX_HEADER_SIZE && p.c.length == 0
    ensures var r := Feed(p, [LF]);
            r.body == p.body && r.c.errno == Fine && r.c.completed == p.c.completed + 1
  {
    FeedOne(p, LF);
  }

  /** RFC 2616 section 4.4: responses that have no body whatever their header says. */
  predicate HasNoBody(h: Head) {
    100 <= h.statusCode < 200 || h.statusCode == 204 || h.statusCode == 304 || h.skipBody
  }

  /** Without a length and without chunks the body of a response goes on to the end of the connection: all bytes are
      handed over, and the message completes then and not before. */
  lemma EofBody(p: Parser, d: seq<byte>)
    requires HandedOver(p.c) && !p.c.head.lengthGiven && !p.c.head.chunked
    requires !p.c.head.request && !HasNoBody(p.c.head) && p.c.nread < MAX_HEADER_SIZE
    ensures var r := Feed(p, [LF] + d);
            && r.body == p.body + d && r.c.errno == Fine && r.c.completed == p.c.completed
            && AtEof(r.c) == r.c.(completed := p.c.completed + 1)
  {
    var q := Byte(p, LF);
    FeedOne(p, LF);
    FeedConcat(p, [LF], d);
    assert q == Parser(p.c.(nread := 0, status := BodyIdentityEof), p.body);
    if d == [] {
      assert q.body + d == q.body;
    } else {
      BulkFeed(q, d);
    }
  }

  /** Requests, and responses that have no body, complete with the header when it gives no length and no chunks. */
  lemma NoBody(p: Parser)
    requires HandedOver(p.c) && !p.c.head.lengthGiven && !p.c.head.chunked
    requires (p.c.head.request || HasNoBody(p.c.head)) && p.c.nread < MAX_HEADER_SIZE
    ensures var r := Feed(p, [LF]);
            r.body == p.body && r.c.errno == Fine && r.c.completed == p.c.completed + 1
  {
    FeedOne(p, LF);
  }

  /** The end of the connection is an error in the middle of a message, and changes nothing after one. */
  lemma EofElsewhere(c: Core)
    requires c.errno == Fine && c.status != BodyIdentityEof
    ensures if c.status == NewMessage || c.status == Dead then AtEof(c) == c
            else AtEof(c).errno == InvalidEofState && AtEof(c).completed == c.completed
  {
  }

  /** Section 8.1 of RFC 2616: after a message whose end its length or its chunks tell, another one may follow from
      HTTP/1.1 on unless the header says close, and in HTTP/1.0 only if it says keep-alive. */
  lemma WhatFollows(c: Core)
    requires c.head.chunked || c.length < ULLONG_MAX
    ensures c.head.major == 1 && c.head.minor == 1 ==> (Complete(c).status == NewMessage <==> !c.head.close)
    ensures c.head.major == 1 && c.head.minor == 0 ==> (Complete(c).status == NewMessage <==> c.head.keepAlive)
    ensures Complete(c).status == NewMessage || Complete(c).status == Dead
  {
  }

  /** The answer to a HEAD request has no body, although its header may give a length or announce chunks. */
  lemma SkippedBody(p: Parser)
    requires HandedOver(p.c) && p.c.head.skipBody && !(p.c.head.chunked && p.c.head.lengthGiven)
    requires p.c.nread < MAX_HEADER_SIZE
    ensures var r := Feed(p, [LF]);
            r.body == p.body && r.c.errno == Fine && r.c.completed == p.c.completed + 1
  {
    FeedOne(p, LF);
  }

  /** What is refused, state by state, with the error reported. */
  lemma WrongBytesRefused(c: Core, ch: byte)
    requires c.errno == Fine && c.nread < 80 * 1024
    ensures c.status == ChunkSizeStart && !IsHex(ch) ==> CoreByte(c, ch).errno == InvalidChunkSize
    ensures c.status == ChunkSize && !IsHex(ch) && ch != 13 && ch != ';' as int && ch != ' ' as int ==>
              CoreByte(c, ch).errno == InvalidChunkSize
    ensures c.status == HeadersAlmostDone && ch != 10 ==> CoreByte(c, ch).errno == Strict
    ensures c.status == ChunkSizeAlmostDone && ch != 10 ==> CoreByte(c, ch).errno == Strict
    ensures c.status == ChunkDataDone && ch != 10 ==> CoreByte(c, ch).errno == Strict
    ensures c.status == ChunkDataAlmostDone && ch != 13 ==> CoreByte(c, ch).errno == Strict
    ensures c.status == HeadersAlmostDone && ch == 10 && !c.trailing && c.head.chunked && c.head.lengthGiven ==>
              CoreByte(c, ch).errno == UnexpectedContentLength
  {
    UnhexIsDigit(ch);
  }

  /** A trailer without fields may end with a bare line feed. */
  lemma BareLineFeed(p: Parser)
    requires p.c.errno == Fine && p.c.status == TrailerStart && p.c.nread < 80 * 1024
    ensures var r := Feed(p, [10]);
            r.body == p.body && r.c.errno == Fine && r.c.completed == p.c.completed + 1
  {
    FeedOne(p, 10);
  }

  /** Header bytes are counted, and more than 80 KiB of them in a row are refused. */
  lemma HeadersAreBounded(c: Core, ch: byte)
    requires c.errno == Fine && CountsAsHeader(c.status) && !IsPayload(c)
    ensures c.nread >= 80 * 1024 ==> CoreByte(c, ch).errno == HeaderOverflow
    ensures CoreByte(c, ch).nread == c.nread + 1 || CoreByte(c, ch).nread == 0
  {
  }

  /** After a message that the end of the connection ends, or that says close, only line ends are let pass. */
  lemma DeadTakesLineEnds(c: Core, ch: byte)
    requires c.status == Dead && c.errno == Fine && c.nread < MAX_HEADER_SIZE
    ensures CoreByte(c, ch).errno == Fine <==> ch == 13 || ch == 10
    ensures CoreByte(c, ch).errno != Fine ==> CoreByte(c, ch).errno == ClosedConnection
    ensures CoreByte(c, ch).completed == c.completed && CoreByte(c, ch).status == Dead
  {
  }

  /** A run of payload, fed. */
  lemma BulkFeed(p: Parser, d: seq<byte>)
    requires IsPayload(p.c) && d != [] && (p.c.status != BodyIdentityEof ==> |d| <= p.c.length)
    ensures Feed(p, d) == RunOn(p, d)
  {
    var trace := Trace(p, d);
    TraceRun(trace, p, d, 0, |d|);
    assert d[0..0 + |d|] == d;
  }

  // ---- Chunked transfer coding ----

  function HexValue(digits: seq<byte>): nat
    requires forall i :: 0 <= i < |digits| ==> IsHex(digits[i])
  {
    if digits == [] then 0
    else assert IsHex(digits[|digits| - 1]);
         16 * HexValue(digits[..|digits| - 1]) + HexDigit(digits[|digits| - 1])
  }

  /** Largest accepted chunk size: the guard compares before the multiplication. */
  const CHUNK_LIMIT: nat := 16 * ((ULLONG_MAX - 16) / 16) + 16

  /** A parser at the start of a chunk. */
  predicate AtChunk(c: Core) {
    c.status == ChunkSizeStart && c.errno == Fine && c.nread == 0 && c.head.chunked && !c.trailing
  }

  /** Hexadecimal digits accumulate to exactly their value or, from the limit on, to an error; an
      accepted size fits 64 bits and is not the all-ones sentinel. */
  lemma {:induction false} ChunkSizeDigits(p: Parser, digits: seq<byte>)
    requires AtChunk(p.c) && 0 < |digits| <= MAX_HEADER_SIZE
    requires forall i :: 0 <= i < |digits| ==> IsHex(digits[i])
    ensures Feed(p, digits).c.errno == Fine <==> HexValue(digits) < CHUNK_LIMIT
    ensures HexValue(digits) < CHUNK_LIMIT ==>
              HexValue(digits) < ULLONG_MAX &&
              Feed(p, digits)
              == Parser(p.c.(status := ChunkSize, length := HexValue(digits), nread := |digits|), p.body)
    ensures HexValue(digits) >= CHUNK_LIMIT ==> Feed(p, digits).c.errno == InvalidContentLength
    decreases |digits|
  {
    var d, ch := digits[..|digits| - 1], digits[|digits| - 1];
    UnhexIsDigit(ch);
    if d == [] {
      assert Feed(p, d) == p;
    } else {
      ChunkSizeDigits(p, d);
      DigitStep(Feed(p, d).c, ch);
    }
  }

  lemma DigitStep(c: Core, ch: byte)
    requires IsHex(ch)
    ensures c.errno != Fine ==> CoreByte(c, ch) == c
    ensures c.errno == Fine && c.status == ChunkSize && c.nread < MAX_HEADER_SIZE ==>
              CoreByte(c, ch) == if 16 * c.length + HexDigit(ch) < CHUNK_LIMIT
                                 then c.(length := 16 * c.length + HexDigit(ch), nread := c.nread + 1)
                                 else c.(errno := InvalidContentLength, nread := c.nread + 1)
  {
    UnhexIsDigit(ch);
    assert ch != CR;
    assert (ULLONG_MAX - 16) / 16 < c.length <==> 16 * c.length + Unhex(ch) >= CHUNK_LIMIT;
  }

  /** chunk-size, chunk extension and line end. */
  datatype Line = Line(digits: seq<byte>, ext: seq<byte>)

  ghost predicate IsLine(l: Line) {
    && 0 < |l.digits| && |l.digits| + |l.ext| + 2 <= MAX_HEADER_SIZE
    && (forall i :: 0 <= i < |l.digits| ==> IsHex(l.digits[i]))
    && HexValue(l.digits) < CHUNK_LIMIT
    && (l.ext != [] ==> l.ext[0] == 59 || l.ext[0] == 32)
    && CR !in l.ext
  }

  function EncodeLine(l: Line): seq<byte> { l.digits + l.ext + [CR] + [LF] }

  lemma {:induction false} Extension(p: Parser, ext: seq<byte>)
    requires p.c.errno == Fine && p.c.status == ChunkSize && p.c.nread + |ext| <= MAX_HEADER_SIZE
    requires ext != [] && (ext[0] == 59 || ext[0] == 32) && CR !in ext
    ensures Feed(p, ext) == Parser(p.c.(status := ChunkParameters, nread := p.c.nread + |ext|), p.body)
    decreases |ext|
  {
    var d, ch := ext[..|ext| - 1], ext[|ext| - 1];
    if d == [] {
      assert Feed(p, d) == p && ch == ext[0];
    } else {
      assert d[0] == ext[0];
      Extension(p, d);
      assert ch in ext;
    }
  }

  /** A line end outside the body only moves the parser's fields. */
  lemma CrLf(p: Parser, mid: Core, end: Core)
    requires !IsPayload(p.c) && mid == CoreByte(p.c, CR) && !IsPayload(mid) && end == CoreByte(mid, LF)
    ensures Feed(Feed(p, [CR]), [LF]) == Parser(end, p.body)
  {
    FeedOne(p, CR);
    FeedOne(Parser(mid, p.body), LF);
  }

  lemma LineEnd(p: Parser)
    requires p.c.errno == Fine && (p.c.status == ChunkSize || p.c.status == ChunkParameters)
    requires p.c.nread + 2 <= MAX_HEADER_SIZE
    ensures Feed(Feed(p, [CR]), [LF]) ==
            Parser(if p.c.length == 0 then p.c.(nread := 0, trailing := true, status := TrailerStart)
                   else p.c.(nread := 0, status := ChunkData, got := 0), p.body)
  {
    var mid := p.c.(nread := p.c.nread + 1, status := ChunkSizeAlmostDone);
    CrLf(p, mid, CoreByte(mid, LF));
  }

  lemma SizeLineFed(p: Parser, l: Line)
    requires AtChunk(p.c) && IsLine(l)
    ensures Feed(p, EncodeLine(l)) ==
            var n := HexValue(l.digits);
            Parser(if n == 0 then p.c.(length := 0, trailing := true, status := TrailerStart)
                   else p.c.(length := n, status := ChunkData, got := 0), p.body)
  {
    FeedConcat(p, l.digits + l.ext + [CR], [LF]);
    FeedConcat(p, l.digits + l.ext, [CR]);
    FeedConcat(p, l.digits, l.ext);
    ChunkSizeDigits(p, l.digits);
    var q := Feed(p, l.digits);
    if l.ext == [] {
      assert Feed(q, l.ext) == q;
    } else {
      Extension(q, l.ext);
    }
    LineEnd(Feed(q, l.ext));
  }

  datatype Chunk = Chunk(line: Line, data: seq<byte>)

  ghost predicate IsChunk(k: Chunk) {
    IsLine(k.line) && k.data != [] && HexValue(k.line.digits) == |k.data|
  }

  function EncodeChunk(k: Chunk): seq<byte> { EncodeLine(k.line) + k.data + [CR] + [LF] }

  lemma DataEnd(p: Parser)
    requires p.c.errno == Fine && p.c.status == ChunkDataAlmostDone
    ensures Feed(Feed(p, [CR]), [LF]) == Parser(p.c.(nread := 0, status := ChunkSizeStart), p.body)
  {
    var mid := p.c.(status := ChunkDataDone);
    CrLf(p, mid, CoreByte(mid, LF));
  }

  lemma DataFed(p: Parser, k: Chunk)
    requires AtChunk(p.c) && IsChunk(k)
    ensures Feed(p, EncodeLine(k.line) + k.data) ==
            Parser(p.c.(length := 0, status := ChunkDataAlmostDone, got := |k.data|), p.body + k.data)
  {
    FeedConcat(p, EncodeLine(k.line), k.data);
    SizeLineFed(p, k.line);
    BulkFeed(Feed(p, EncodeLine(k.line)), k.data);
  }

  /** One chunk adds its data to the body and leaves the parser ready for the next. */
  lemma OneChunk(p: Parser, k: Chunk)
    requires AtChunk(p.c) && IsChunk(k)
    ensures Feed(p, EncodeChunk(k)) == Parser(p.c.(length := 0, got := |k.data|), p.body + k.data)
  {
    FeedConcat(p, EncodeLine(k.line) + k.data + [CR], [LF]);
    FeedConcat(p, EncodeLine(k.line) + k.data, [CR]);
    DataFed(p, k);
    DataEnd(Feed(p, EncodeLine(k.line) + k.data));
  }

  function EncodeChunks(ks: seq<Chunk>): seq<byte> {
    if ks == [] then [] else EncodeChunks(ks[..|ks| - 1]) + EncodeChunk(ks[|ks| - 1])
  }

  function Payloads(ks: seq<Chunk>): seq<byte> {
    if ks == [] then [] else Payloads(ks[..|ks| - 1]) + ks[|ks| - 1].data
  }

  /** Chunks so far: their data is in the body, and the parser is where it was. */
  ghost predicate After(p: Parser, r: Parser, data: seq<byte>) {
    r.body == p.body + data && r.c == p.c.(length := r.c.length, got := r.c.got)
  }

  lemma NextChunk(p: Parser, q: Parser, data: seq<byte>, k: Chunk)
    requires AtChunk(p.c) && After(p, q, data) && IsChunk(k)
    ensures After(p, Feed(q, EncodeChunk(k)), data + k.data)
  {
    OneChunk(q, k);
    assert p.body + data + k.data == p.body + (data + k.data);
  }

  lemma {:induction false} ManyChunks(p: Parser, ks: seq<Chunk>)
    requires AtChunk(p.c) && forall i :: 0 <= i < |ks| ==> IsChunk(ks[i])
    ensures After(p, Feed(p, EncodeChunks(ks)), Payloads(ks))
    decreases |ks|
  {
    if ks == [] {
      assert p.body + [] == p.body;
    } else {
      var ks', k := ks[..|ks| - 1], ks[|ks| - 1];
      ManyChunks(p, ks');
      FeedConcat(p, EncodeChunks(ks'), EncodeChunk(k));
      NextChunk(p, Feed(p, EncodeChunks(ks')), Payloads(ks'), k);
    }
  }

  lemma TrailerEnd(p: Parser)
    requires p.c.errno == Fine && p.c.status == TrailerStart && p.c.trailing && p.c.nread == 0
    ensures Feed(Feed(p, [CR]), [LF]).body == p.body
    ensures var r := Feed(Feed(p, [CR]), [LF]).c;
            r.errno == Fine && r.completed == p.c.completed + 1 && (r.status == NewMessage || r.status == Dead)
  {
    var mid := p.c.(nread := 1, status := HeadersAlmostDone);
    CrLf(p, mid, CoreByte(mid, LF));
  }

  /** Chunks, a last chunk and an empty trailer, from where a chunk is expected. */
  lemma ChunksToEnd(p: Parser, ks: seq<Chunk>, last: Line)
    requires AtChunk(p.c) && (forall i :: 0 <= i < |ks| ==> IsChunk(ks[i]))
    requires IsLine(last) && HexValue(last.digits) == 0
    ensures var r := Feed(p, EncodeChunks(ks) + EncodeLine(last) + [CR] + [LF]);
            && r.body == p.body + Payloads(ks)
            && r.c.errno == Fine && r.c.completed == p.c.completed + 1
            && (r.c.status == NewMessage || r.c.status == Dead)
  {
    var a := EncodeChunks(ks);
    FeedConcat(p, a + EncodeLine(last) + [CR], [LF]);
    FeedConcat(p, a + EncodeLine(last), [CR]);
    FeedConcat(p, a, EncodeLine(last));
    ManyChunks(p, ks);
    var q := Feed(p, a);
    SizeLineFed(q, last);
    TrailerEnd(Feed(q, EncodeLine(last)));
  }

  /** The chunked coding decodes: any chunks after the header, in any spelling of their sizes and with any extensions,
      followed by a last chunk and an empty trailer, leave exactly the concatenated chunk data in the body and complete
      the message exactly once. */
  lemma ChunkedBody(p: Parser, ks: seq<Chunk>, last: Line)
    requires HandedOver(p.c) && p.c.head.chunked && !p.c.head.lengthGiven && !p.c.head.skipBody
    requires p.c.nread < MAX_HEADER_SIZE && (forall i :: 0 <= i < |ks| ==> IsChunk(ks[i]))
    requires IsLine(last) && HexValue(last.digits) == 0
    ensures var r := Feed(p, [LF] + (EncodeChunks(ks) + EncodeLine(last) + [CR] + [LF]));
            && r.body == p.body + Payloads(ks)
            && r.c.errno == Fine && r.c.completed == p.c.completed + 1
            && (r.c.status == NewMessage || r.c.status == Dead)
  {
    FeedOne(p, LF);
    FeedConcat(p, [LF], EncodeChunks(ks) + EncodeLine(last) + [CR] + [LF]);
    assert Byte(p, LF) == Parser(p.c.(nread := 0, status := ChunkSizeStart), p.body);
    ChunksToEnd(Byte(p, LF), ks, last);
  }

  // ---- A broken delimiter ----

  /** No error before an error-free point. */
  lemma FineBefore(p: Parser, b: seq<byte>, c: seq<byte>)
    ensures Feed(p, b + c).c.errno == Fine ==> Feed(p, b).c.errno == Fine
  {
    FeedConcat(p, b, c);
    var q := Feed(p, b);
    if q.c.errno != Fine {
      FeedError(q, c);
    }
  }

  lemma ErrorIsLast(p: Parser, a: seq<byte>, x: byte, consumed: nat)
    requires Feed(p, a).c.errno == Fine && consumed <= |a|
    requires Feed(p, (a + [x])[..consumed + 1]).c.errno != Fine
    ensures consumed == |a|
  {
    if consumed < |a| {
      assert (a + [x])[..consumed + 1] == a[..consumed + 1];
      assert a[..consumed + 1] + a[consumed + 1..] == a;
      FineBefore(p, a[..consumed + 1], a[consumed + 1..]);
    }
  }

  /** Where splitting does matter: if the byte after a chunk's data is not a carriage return, a single
      call hands over nothing of that chunk, while single bytes have handed over all of it. */
  lemma BrokenDelimiter(p: Parser, k: Chunk, x: byte, now: Parser, consumed: nat)
    requires AtChunk(p.c) && IsChunk(k) && x != CR
    requires Refines(now, p, EncodeLine(k.line) + k.data + [x], consumed)
    ensures now.body == p.body
    ensures Feed(p, EncodeLine(k.line) + k.data + [x]).body == p.body + k.data
    ensures LostDelimiter(now.c)
  {
    var a := EncodeLine(k.line) + k.data;
    FeedConcat(p, a, [x]);
    DataFed(p, k);
    WrongByte(Feed(p, a), x);
    ErrorIsLast(p, a, x, consumed);
  }

  lemma WrongByte(r: Parser, x: byte)
    requires r.c.status == ChunkDataAlmostDone && r.c.errno == Fine && x != CR
    ensures Feed(r, [x]) == Parser(r.c.(errno := Strict), r.body)
  {
    FeedOne(r, x);
  }
}
