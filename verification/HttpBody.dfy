/** The body phase of the HTTP parser, read one byte at a time: the reference the parser is held to. */
module HttpBody {
  import opened Bytes

  const ULLONG_MAX: nat := 0xFFFF_FFFF_FFFF_FFFF
  const MAX_HEADER_SIZE: nat := 80 * 1024
  const CR: byte := 13
  const LF: byte := 10

  datatype Status =
    | HeadersAlmostDone | BodyIdentity | BodyIdentityEof
    | ChunkSizeStart | ChunkSize | ChunkParameters | ChunkSizeAlmostDone
    | ChunkData | ChunkDataAlmostDone | ChunkDataDone
    | TrailerStart          // s_header_field_start after the last chunk
    | NewMessage            // ready for the next message, which is not part of this phase
    | Dead
    | Beyond                // a trailer field, which is not part of this phase

  datatype Errno =
    | Fine | HeaderOverflow | ClosedConnection | InvalidContentLength | UnexpectedContentLength
    | InvalidChunkSize | Strict | InvalidEofState

  /** What the header phase found out; it does not change any more. */
  datatype Head = Head(
    request: bool, statusCode: nat, major: nat, minor: nat,
    chunked: bool, lengthGiven: bool, close: bool, keepAlive: bool, skipBody: bool)

  /** The parser's fields. */
  datatype Core = Core(
    head: Head,
    status: Status,
    length: nat,            // content_length
    nread: nat,
    trailing: bool,
    errno: Errno,
    completed: nat,         // calls of the message-complete callback
    got: nat)               // bytes of the current chunk so far

  /** The parser and the bytes it has handed to the body callback. */
  datatype Parser = Parser(c: Core, body: seq<byte>)

  predicate CountsAsHeader(s: Status) {
    s.HeadersAlmostDone? || s.ChunkSizeStart? || s.ChunkSize? || s.ChunkParameters? || s.ChunkSizeAlmostDone? ||
    s.TrailerStart? || s.Dead?
  }

  /** States that copy payload in bulk. */
  predicate Copies(s: Status) { s.BodyIdentity? || s.ChunkData? || s.BodyIdentityEof? }

  predicate NeedsEof(c: Core) {
    && !c.head.request
    && !(c.head.statusCode / 100 == 1 || c.head.statusCode == 204 || c.head.statusCode == 304 || c.head.skipBody)
    && !c.head.chunked && c.length == ULLONG_MAX
  }

  predicate ShouldKeepAlive(c: Core) {
    && (if c.head.major > 0 && c.head.minor > 0 then !c.head.close else c.head.keepAlive)
    && !NeedsEof(c)
  }

  function Complete(c: Core): Core {
    c.(status := if ShouldKeepAlive(c) then NewMessage else Dead, completed := c.completed + 1)
  }

  function Unhex(ch: byte): int {
    if 48 <= ch <= 57 then ch - 48
    else if 65 <= ch <= 70 then ch - 55
    else if 97 <= ch <= 102 then ch - 87
    else -1
  }

  /** s_headers_done, executed on the line feed that ends the header. */
  function HeadersDone(c: Core): Core {
    var q := c.(nread := 0);
    if c.head.skipBody then Complete(q)
    else if c.head.chunked then q.(status := ChunkSizeStart)
    else if c.length == 0 then Complete(q)
    else if c.length != ULLONG_MAX then q.(status := BodyIdentity)
    else if NeedsEof(c) then q.(status := BodyIdentityEof)
    else Complete(q)
  }

  /** One byte in any state that is not a bulk copy. */
  function Control(c: Core, ch: byte): Core {
    match c.status
    case HeadersAlmostDone =>
      if ch != LF then c.(errno := Strict)
      else if c.trailing then Complete(c)
      else if c.head.chunked && c.head.lengthGiven then c.(errno := UnexpectedContentLength)
      else HeadersDone(c)
    case ChunkSizeStart =>
      if Unhex(ch) == -1 then c.(errno := InvalidChunkSize)
      else c.(length := Unhex(ch), status := ChunkSize)
    case ChunkSize =>
      if ch == CR then c.(status := ChunkSizeAlmostDone)
      else if Unhex(ch) == -1 then
        if ch == 59 || ch == 32 then c.(status := ChunkParameters)      // ';' or ' '
        else c.(errno := InvalidChunkSize)
      else if (ULLONG_MAX - 16) / 16 < c.length then c.(errno := InvalidContentLength)
      else c.(length := 16 * c.length + Unhex(ch))
    case ChunkParameters => if ch == CR then c.(status := ChunkSizeAlmostDone) else c
    case ChunkSizeAlmostDone =>
      if ch != LF then c.(errno := Strict)
      else if c.length == 0 then c.(nread := 0, trailing := true, status := TrailerStart)
      else c.(nread := 0, status := ChunkData, got := 0)
    case ChunkDataAlmostDone => if ch != CR then c.(errno := Strict) else c.(status := ChunkDataDone)
    case ChunkDataDone => if ch != LF then c.(errno := Strict) else c.(nread := 0, status := ChunkSizeStart)
    case TrailerStart =>
      if ch == CR then c.(status := HeadersAlmostDone)
      else if ch == LF then Complete(c.(status := HeadersAlmostDone))   // a bare line feed ends the trailer
      else c.(status := Beyond)
    case Dead => if ch == CR || ch == LF then c else c.(errno := ClosedConnection)
    case _ => c
  }

  /** This byte belongs to the body. */
  predicate IsPayload(c: Core) {
    c.errno == Fine &&
    (((c.status == BodyIdentity || c.status == ChunkData) && c.length > 0) || c.status == BodyIdentityEof)
  }

  /** Bookkeeping for one byte of the body. */
  function Payload(c: Core): Core
    requires IsPayload(c)
  {
    match c.status
    case BodyIdentity => if c.length == 1 then Complete(c.(length := 0)) else c.(length := c.length - 1)
    case ChunkData =>
      c.(length := c.length - 1, got := c.got + 1, status := if c.length == 1 then ChunkDataAlmostDone else ChunkData)
    case _ => c
  }

  function CoreByte(c: Core, ch: byte): Core {
    if c.errno != Fine then c
    else if IsPayload(c) then Payload(c)
    else if CountsAsHeader(c.status) then
      if c.nread + 1 > MAX_HEADER_SIZE then c.(nread := c.nread + 1, errno := HeaderOverflow)
      else Control(c.(nread := c.nread + 1), ch)
    else Control(c, ch)
  }

  /** One call of the parser with one byte. */
  function Byte(p: Parser, ch: byte): Parser {
    Parser(CoreByte(p.c, ch), if IsPayload(p.c) then p.body + [ch] else p.body)
  }

  function Feed(p: Parser, data: seq<byte>): Parser {
    if data == [] then p else Byte(Feed(p, data[..|data| - 1]), data[|data| - 1])
  }

  lemma {:induction false} FeedConcat(p: Parser, a: seq<byte>, b: seq<byte>)
    ensures Feed(p, a + b) == Feed(Feed(p, a), b)
    decreases |b|
  {
    if b == [] {
      assert a + b == a;
    } else {
      var b' := b[..|b| - 1];
      assert (a + b)[..|a + b| - 1] == a + b' && (a + b)[|a + b| - 1] == b[|b| - 1];
      FeedConcat(p, a, b');
    }
  }

  lemma FeedOne(p: Parser, ch: byte)
    ensures Feed(p, [ch]) == Byte(p, ch)
  {
    assert [ch][..0] == [];
  }

  lemma {:induction false} FeedError(p: Parser, data: seq<byte>)
    requires p.c.errno != Fine
    ensures Feed(p, data) == p
    decreases |data|
  {
    if data != [] {
      FeedError(p, data[..|data| - 1]);
    }
  }

  // ---- The parser's own asserts ----

  predicate SizeLine(s: Status) { s.ChunkSize? || s.ChunkParameters? || s.ChunkSizeAlmostDone? }

  predicate ChunkState(s: Status) {
    SizeLine(s) || s.ChunkSizeStart? || s.ChunkData? || s.ChunkDataAlmostDone? || s.ChunkDataDone?
  }

  /** The length is one that fits, and no sentinel where the header gave it. */
  predicate FairLength(c: Core) {
    c.length <= ULLONG_MAX && (c.head.lengthGiven && !c.head.chunked ==> c.length < ULLONG_MAX)
  }

  /** What the asserts in the body states say of the parser's fields, but for the count of header bytes. */
  predicate FairFields(c: Core) {
    && FairLength(c)
    && (ChunkState(c.status) ==> c.head.chunked)
    && (c.status == BodyIdentity || c.status == ChunkData ==> 0 < c.length < ULLONG_MAX)
    && (c.status == ChunkDataAlmostDone ==> c.length == 0)
    && (SizeLine(c.status) ==> c.length < ULLONG_MAX)
  }

  /** What the asserts in the body states say of the parser's fields. */
  predicate Sane(c: Core) {
    FairFields(c) && (c.status == ChunkSizeStart ==> c.nread == 0 || c.errno != Fine)
  }

  /** A state in which the header phase hands over. */
  predicate HandedOver(c: Core) {
    && c.status == HeadersAlmostDone && c.errno == Fine && !c.trailing
    && (if c.head.lengthGiven then c.length < ULLONG_MAX else c.length == ULLONG_MAX)
  }

  lemma CompleteIsSane(c: Core)
    requires FairLength(c)
    ensures Sane(Complete(c))
  {
  }

  lemma HeadersDoneIsSane(c: Core)
    requires FairLength(c)
    ensures Sane(HeadersDone(c))
  {
    CompleteIsSane(c.(nread := 0));
  }

  lemma SizeDigitIsSane(c: Core, ch: byte)
    requires FairFields(c) && c.errno == Fine && (c.status == ChunkSizeStart || c.status == ChunkSize)
    ensures Sane(Control(c, ch))
  {
    assert 0 <= Unhex(ch) < 16 || Unhex(ch) == -1;
  }

  lemma ControlIsSane(c: Core, ch: byte)
    requires FairFields(c) && c.errno == Fine
    ensures Sane(Control(c, ch))
  {
    match c.status {
      case HeadersAlmostDone =>
        CompleteIsSane(c);
        HeadersDoneIsSane(c);
      case ChunkSizeStart => SizeDigitIsSane(c, ch);
      case ChunkSize => SizeDigitIsSane(c, ch);
      case TrailerStart => CompleteIsSane(c.(status := HeadersAlmostDone));
      case _ =>
    }
  }

  lemma PayloadIsSane(c: Core)
    requires Sane(c) && IsPayload(c)
    ensures Sane(Payload(c))
  {
    CompleteIsSane(c.(length := 0));
  }

  lemma ByteKeepsSane(c: Core, ch: byte)
    requires Sane(c)
    ensures Sane(CoreByte(c, ch))
  {
    if c.errno == Fine {
      if IsPayload(c) {
        PayloadIsSane(c);
        assert CoreByte(c, ch) == Payload(c);
      } else if !CountsAsHeader(c.status) {
        ControlIsSane(c, ch);
        assert CoreByte(c, ch) == Control(c, ch);
      } else if c.nread + 1 <= MAX_HEADER_SIZE {
        ControlIsSane(c.(nread := c.nread + 1), ch);
        assert CoreByte(c, ch) == Control(c.(nread := c.nread + 1), ch);
      } else {
        assert CoreByte(c, ch) == c.(nread := c.nread + 1, errno := HeaderOverflow);
      }
    }
  }

  lemma {:induction false} FeedKeepsSane(p: Parser, data: seq<byte>)
    requires Sane(p.c)
    ensures Sane(Feed(p, data).c)
    decreases |data|
  {
    if data != [] {
      FeedKeepsSane(p, data[..|data| - 1]);
      ByteKeepsSane(Feed(p, data[..|data| - 1]).c, data[|data| - 1]);
    }
  }

  /** Every assert of the body states holds whatever bytes arrive, and no length ever equals the
      all-ones sentinel once a body state is entered. */
  lemma AssertsHold(p: Parser, data: seq<byte>)
    requires HandedOver(p.c)
    ensures Sane(Feed(p, data).c)
  {
    FeedKeepsSane(p, data);
  }
}
