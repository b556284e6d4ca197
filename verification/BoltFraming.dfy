/** Bolt frames: checkHeader, and what the reader loop makes of a stream of them. */
module BoltFraming {
  import opened Bytes
  import opened Framing
  import opened BoundedReads

  const HEADER: nat := 20
  const MAX_BODY: nat := 64 * 1024 * 1024
  const WORD: nat := 0x1_0000_0000

  function RequestId(b: seq<byte>): nat
    requires |b| >= HEADER
  {
    Get32(b, 5)
  }

  /** The three lengths in the header, added up without overflow. */
  function TrueBody(b: seq<byte>): nat
    requires |b| >= HEADER
  {
    Get16(b, 12) + Get16(b, 14) + Get32(b, 16)
  }

  /** checkHeader; the sum of the lengths is taken in 32 bits. */
  function CheckHeader(b: seq<byte>): (c: Check)
    ensures c.Whole? ==> HEADER <= c.size <= |b|
  {
    if |b| < HEADER then NotEnough
    else
      var body := TrueBody(b) % WORD;
      if body > MAX_BODY then Bad
      else if body + HEADER > |b| then NotEnough
      else Whole(RequestId(b), body + HEADER)
  }

  /** The 32-bit sum: too long a body is refused exactly while the sum does not wrap. */
  lemma RefusedUnlessWrapped(b: seq<byte>)
    requires |b| >= HEADER
    ensures CheckHeader(b).Bad? <==> MAX_BODY < TrueBody(b) < WORD
    ensures TrueBody(b) >= WORD ==> TrueBody(b) % WORD < 0x2_0000
  {
    if TrueBody(b) >= WORD {
      assert TrueBody(b) % WORD == TrueBody(b) - WORD;
    }
  }

  /** A header that announces 1 and 4294967295 bytes, which add up to 0 in 32 bits. */
  const WRAPPING: seq<byte> := seq(12, _ => 0) + [0, 1, 0, 0, 255, 255, 255, 255]

  /** It is taken for a whole frame. */
  lemma WrappingIsAccepted()
    ensures |WRAPPING| == HEADER && TrueBody(WRAPPING) == WORD && CheckHeader(WRAPPING) == Whole(0, HEADER)
  {
  }

  lemma CheckHeaderIsProper()
    ensures Sized(CheckHeader) && Stable(CheckHeader) && Prompt(CheckHeader)
  {
    forall b | CheckHeader(b).Whole? ensures CheckHeader(b[..CheckHeader(b).size]) == CheckHeader(b) {
      var n := CheckHeader(b).size;
      assert b[..n] + b[n..] == b;
      HeaderStable(b[..n], b[n..]);
    }
    forall b: seq<byte>, c: seq<byte> | !CheckHeader(b).NotEnough? ensures CheckHeader(b + c) == CheckHeader(b) {
      HeaderStable(b, c);
    }
  }

  lemma HeaderStable(b: seq<byte>, c: seq<byte>)
    requires |b| >= HEADER
    ensures RequestId(b + c) == RequestId(b) && TrueBody(b + c) == TrueBody(b)
  {
  }

  // ---- The header, field by field ----

  /** The fields of the packed header, in their order. */
  datatype Fields = Fields(
    proto: byte, kind: byte, command: nat, version: byte, id: nat, codec: byte,
    status: nat, classLen: nat, headerLen: nat, contentLen: nat)

  predicate FieldsFit(h: Fields) {
    && h.command < 0x1_0000 && h.id < WORD && h.status < 0x1_0000
    && h.classLen < 0x1_0000 && h.headerLen < 0x1_0000 && h.contentLen < WORD
  }

  function Header(h: Fields): (b: seq<byte>)
    ensures |b| == 20
  {
    [h.proto, h.kind] + InNetworkOrder(h.command, 2) + [h.version] + InNetworkOrder(h.id, 4) + [h.codec]
    + InNetworkOrder(h.status, 2) + InNetworkOrder(h.classLen, 2) + InNetworkOrder(h.headerLen, 2)
    + InNetworkOrder(h.contentLen, 4)
  }

  function Lengths(h: Fields): nat {
    h.classLen + h.headerLen + h.contentLen
  }

  lemma FieldsAreRead(h: Fields)
    requires FieldsFit(h)
    ensures RequestId(Header(h)) == h.id && TrueBody(Header(h)) == Lengths(h)
  {
    var b := Header(h);
    assert b[5..9] == InNetworkOrder(h.id, 4);
    ReadBack32(h.id, b, 5);
    assert b[12..14] == InNetworkOrder(h.classLen, 2);
    ReadBack16(h.classLen, b, 12);
    assert b[14..16] == InNetworkOrder(h.headerLen, 2);
    ReadBack16(h.headerLen, b, 14);
    assert b[16..20] == InNetworkOrder(h.contentLen, 4);
    ReadBack32(h.contentLen, b, 16);
  }

  /** The verdict on a header with these fields and any bytes behind it; 64 MiB are 67108864 bytes. */
  lemma HeaderVerdict(h: Fields, rest: seq<byte>)
    requires FieldsFit(h)
    ensures var n := (h.classLen + h.headerLen + h.contentLen) % 0x1_0000_0000;
            CheckHeader(Header(h) + rest) == if n > 67108864 then Bad
                                             else if |rest| < n then NotEnough
                                             else Whole(h.id, 20 + n)
  {
    FieldsAreRead(h);
    HeaderStable(Header(h), rest);
  }

  /** A frame as the protocol defines it: a header with these fields, and a body as long as they say. */
  ghost predicate IsFrameOf(f: Frame, h: Fields) {
    && FieldsFit(h) && |f.bytes| == 20 + Lengths(h) && Lengths(h) <= MAX_BODY
    && f.bytes[..20] == Header(h) && f.id == h.id
  }

  ghost predicate IsFrame(f: Frame) {
    exists h :: IsFrameOf(f, h)
  }

  lemma FrameIsRead(f: Frame)
    requires IsFrame(f)
    ensures |f.bytes| >= HEADER && f.id == RequestId(f.bytes)
    ensures TrueBody(f.bytes) <= MAX_BODY && |f.bytes| == HEADER + TrueBody(f.bytes)
  {
    var h :| IsFrameOf(f, h);
    FieldsAreRead(h);
    assert f.bytes == f.bytes[..20] + f.bytes[20..];
    HeaderStable(Header(h), f.bytes[20..]);
  }

  function FieldsOf(b: seq<byte>): Fields
    requires |b| >= 20
  {
    Fields(b[0], b[1], Get16(b, 2), b[4], Get32(b, 5), b[9], Get16(b, 10), Get16(b, 12), Get16(b, 14), Get32(b, 16))
  }

  /** Every twenty bytes are a header with some fields. */
  lemma EveryHeader(b: seq<byte>)
    requires |b| >= 20
    ensures b[..20] == Header(FieldsOf(b))
  {
    Get16IsNetwork(b, 2);
    Get32IsNetwork(b, 5);
    Get16IsNetwork(b, 10);
    Get16IsNetwork(b, 12);
    Get16IsNetwork(b, 14);
    Get32IsNetwork(b, 16);
    Pieces(b);
    Joined(FieldsOf(b), b[2..4], b[5..9], b[10..12], b[12..14], b[14..16], b[16..20]);
  }

  lemma Joined(h: Fields, command: seq<byte>, id: seq<byte>, status: seq<byte>, classLen: seq<byte>,
      headerLen: seq<byte>, contentLen: seq<byte>)
    requires InNetworkOrder(h.command, 2) == command && InNetworkOrder(h.id, 4) == id
    requires InNetworkOrder(h.status, 2) == status && InNetworkOrder(h.classLen, 2) == classLen
    requires InNetworkOrder(h.headerLen, 2) == headerLen && InNetworkOrder(h.contentLen, 4) == contentLen
    ensures Header(h) == [h.proto, h.kind] + command + [h.version] + id + [h.codec]
                         + status + classLen + headerLen + contentLen
  {
  }

  lemma Pieces(b: seq<byte>)
    requires |b| >= 20
    ensures b[..20] == [b[0], b[1]] + b[2..4] + [b[4]] + b[5..9] + [b[9]]
                       + b[10..12] + b[12..14] + b[14..16] + b[16..20]
  {
    assert b[..5] == [b[0], b[1]] + b[2..4] + [b[4]];
    assert b[..10] == b[..5] + b[5..9] + [b[9]];
    assert b[..14] == b[..10] + b[10..12] + b[12..14];
    assert b[..20] == b[..14] + b[14..16] + b[16..20];
  }

  /** What is found is a frame, unless its lengths wrap. */
  lemma FoundIsFrame(b: seq<byte>)
    requires CheckHeader(b).Whole? && TrueBody(b) < WORD
    ensures IsFrame(Frame(CheckHeader(b).id, b[..CheckHeader(b).size]))
  {
    EveryHeader(b);
    var n := CheckHeader(b).size;
    assert b[..n][..20] == b[..20];
    assert IsFrameOf(Frame(CheckHeader(b).id, b[..n]), FieldsOf(b));
  }

  /** The start of a frame that has not arrived completely. */
  predicate IsPartial(b: seq<byte>) {
    |b| < HEADER || (TrueBody(b) <= MAX_BODY && |b| < HEADER + TrueBody(b))
  }

  ghost predicate AreFrames(fs: seq<Frame>) {
    forall i :: 0 <= i < |fs| ==> IsFrame(fs[i])
  }

  lemma FrameIsRecognised(f: Frame)
    requires IsFrame(f)
    ensures Recognised(CheckHeader, f)
  {
    forall more ensures CheckHeader(f.bytes + more) == Whole(f.id, |f.bytes|) {
      FrameIsRead(f);
      HeaderStable(f.bytes, more);
      SmallBody(TrueBody(f.bytes));
    }
  }

  lemma SmallBody(n: nat)
    requires n <= MAX_BODY
    ensures n % WORD == n
  {
  }

  /** A stream of Bolt frames is cut back into those frames. */
  lemma StreamIsCut(fs: seq<Frame>, t: seq<byte>)
    requires AreFrames(fs) && IsPartial(t) && Sized(CheckHeader)
    ensures Cut(CheckHeader, Concat(fs) + t) == Cutting(fs, t, false)
  {
    forall i | 0 <= i < |fs| ensures Recognised(CheckHeader, fs[i]) {
      FrameIsRecognised(fs[i]);
    }
    FramesAreCut(CheckHeader, fs, t);
  }

  /** Only the last frame, if any, has request id 0. */
  predicate ZeroOnlyLast(fs: seq<Frame>) {
    forall i :: 0 <= i < |fs| && fs[i].id == 0 ==> i == |fs| - 1
  }

  /** The reader cuts exactly these frames and keeps exactly this rest, in this split. */
  ghost predicate CutsExactly(fs: seq<Frame>, t: seq<byte>, chunks: seq<seq<byte>>)
    requires Sized(CheckHeader)
  {
    Join(chunks) == Concat(fs) + t ==> FeedAll(CheckHeader, START, chunks) == Reader(t, true, fs)
  }

  /**
   * For every stream of Bolt frames and start of another: every split of it into reads yields exactly these frames in
   * order and leaves the start unread, if and only if no frame but the last has request id 0.
   */
  lemma FramesSurviveChunking(fs: seq<Frame>, t: seq<byte>)
    requires AreFrames(fs) && IsPartial(t)
    ensures Sized(CheckHeader) && Stable(CheckHeader)
    ensures (forall chunks :: CutsExactly(fs, t, chunks)) <==> ZeroOnlyLast(fs)
  {
    CheckHeaderIsProper();
    var b := Concat(fs) + t;
    StreamIsCut(fs, t);
    ChunkingDoesNotMatter(CheckHeader, b);
    forall chunks ensures CutsExactly(fs, t, chunks) <==> SplitAgrees(CheckHeader, b, chunks) {
      ExactlyIsAgreeing(fs, t, chunks);
    }
    assert ZeroOnlyLast(fs) <==> Clean(Cutting(fs, t, false));
  }

  /**
   * The same when a read takes at most `max` bytes, which gives the loop another chance at each of them: if and only if
   * for every j fewer than j frames with request id 0, not counting the last frame, have fewer than j times `max` bytes
   * behind them.
   */
  lemma FramesSurviveReads(fs: seq<Frame>, t: seq<byte>, max: nat)
    requires AreFrames(fs) && IsPartial(t) && max > 0
    ensures Sized(CheckHeader) && Stable(CheckHeader)
    ensures (forall chunks :: Within(chunks, max) ==> CutsExactly(fs, t, chunks)) <==> Paced(Cutting(fs, t, false), max)
  {
    CheckHeaderIsProper();
    StreamIsCut(fs, t);
    BoundedChunking(CheckHeader, Concat(fs) + t, max);
    forall chunks ensures CutsExactly(fs, t, chunks) <==> SplitAgrees(CheckHeader, Concat(fs) + t, chunks) {
      ExactlyIsAgreeing(fs, t, chunks);
    }
  }

  lemma ExactlyIsAgreeing(fs: seq<Frame>, t: seq<byte>, chunks: seq<seq<byte>>)
    requires Sized(CheckHeader) && Cut(CheckHeader, Concat(fs) + t) == Cutting(fs, t, false)
    ensures CutsExactly(fs, t, chunks) <==> SplitAgrees(CheckHeader, Concat(fs) + t, chunks)
  {
    assert [] + fs == fs;
  }

  lemma CountOfTwo(f: Frame, g: Frame, t: seq<byte>, limit: int)
    ensures Count(Cutting([f, g], t, false), limit) <= if |g.bytes| < limit then 1 else 0
  {
    var c := Cutting([f, g], t, false);
    assert Tail(c) == Cutting([g], t, false) && Tail(Tail(c)) == Cutting([], t, false);
    assert Concat([g]) == g.bytes + Concat([g][1..]);
    assert Count(Tail(Tail(c)), limit) == 0 && Final(Tail(Tail(c)));
  }

  /** So request id 0 does no harm when a read's worth of bytes follows it. */
  lemma ZeroBeforeLargeFrame(f: Frame, g: Frame, t: seq<byte>, max: nat)
    requires f.id == 0 && max <= |g.bytes|
    ensures !ZeroOnlyLast([f, g]) && Paced(Cutting([f, g], t, false), max)
  {
    var c := Cutting([f, g], t, false);
    assert c.frames[0].id == 0;
    forall j: nat ensures PacedAt(c, max, j) {
      CountIsCardinality(c, max * j);
      CountOfTwo(f, g, t, max * j);
    }
  }

  // ---- Request id 0 ----

  /** A response with request id 0 and nothing behind its header. */
  const EMPTY: seq<byte> := seq(HEADER, _ => 0)

  /** Two such frames in one read: the loop cuts one and stops, so the other stays unread. */
  lemma ZeroIdStalls()
    ensures Sized(CheckHeader) && IsFrame(Frame(0, EMPTY))
    ensures FeedAll(CheckHeader, START, [EMPTY + EMPTY]) == Reader(EMPTY, true, [Frame(0, EMPTY)])
  {
    CheckHeaderIsProper();
    FeedZero([], EMPTY);
    FeedAllFirst(CheckHeader, START, EMPTY + EMPTY, []);
    assert [EMPTY + EMPTY] + [] == [EMPTY + EMPTY];
  }

  lemma EmptyIsFrame()
    ensures IsFrame(Frame(0, EMPTY))
  {
    assert CheckHeader(EMPTY) == Whole(0, HEADER) && TrueBody(EMPTY) == 0 && EMPTY[..HEADER] == EMPTY;
    FoundIsFrame(EMPTY);
  }

  lemma FeedZero(frames: seq<Frame>, more: seq<byte>)
    requires Sized(CheckHeader)
    ensures IsFrame(Frame(0, EMPTY))
    ensures Feed(CheckHeader, Reader([], true, frames), EMPTY + more) == Reader(more, true, frames + [Frame(0, EMPTY)])
  {
    EmptyIsFrame();
    FrameIsRecognised(Frame(0, EMPTY));
    var b := EMPTY + more;
    assert b[..HEADER] == EMPTY && b[HEADER..] == more && [] + b == b;
  }
}
