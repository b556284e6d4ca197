/** The reader loop of a socket, for any protocol that finds its frames from the front of the unread bytes. */
module Framing {
  import opened Bytes

  /** What a protocol's parse function says about the unread bytes. */
  datatype Check = NotEnough | Bad | Whole(id: nat, size: nat)

  type Parse = seq<byte> -> Check

  /** Nothing is found in no bytes; a frame has a size, and lies inside the bytes. */
  ghost predicate Sized(parse: Parse) {
    && parse([]).NotEnough?
    && forall b :: parse(b).Whole? ==> 0 < parse(b).size <= |b|
  }

  /** More bytes behind do not change a verdict. */
  ghost predicate Stable(parse: Parse) {
    forall b, c :: !parse(b).NotEnough? ==> parse(b + c) == parse(b)
  }

  datatype Frame = Frame(id: nat, bytes: seq<byte>)

  function Concat(fs: seq<Frame>): seq<byte> {
    if fs == [] then [] else fs[0].bytes + Concat(fs[1..])
  }

  function Join(chunks: seq<seq<byte>>): seq<byte> {
    if chunks == [] then [] else chunks[0] + Join(chunks[1..])
  }

  // ---- Cutting ----

  datatype Cutting = Cutting(frames: seq<Frame>, rest: seq<byte>, bad: bool)

  function Prepend(f: Frame, c: Cutting): Cutting {
    Cutting([f] + c.frames, c.rest, c.bad)
  }

  function Chain(x: Cutting, y: Cutting): Cutting {
    Cutting(x.frames + y.frames, y.rest, y.bad)
  }

  /** Every frame there is. */
  ghost function Cut(parse: Parse, b: seq<byte>): Cutting
    requires Sized(parse)
    decreases |b|
  {
    match parse(b)
    case NotEnough => Cutting([], b, false)
    case Bad => Cutting([], b, true)
    case Whole(id, n) => Prepend(Frame(id, b[..n]), Cut(parse, b[n..]))
  }

  /** The inner loop of onRead: it also ends when the frame it cut has request id 0. */
  ghost function Drain(parse: Parse, b: seq<byte>): Cutting
    requires Sized(parse)
    decreases |b|
  {
    match parse(b)
    case NotEnough => Cutting([], b, false)
    case Bad => Cutting([], b, true)
    case Whole(id, n) =>
      if id == 0 then Cutting([Frame(id, b[..n])], b[n..], false)
      else Prepend(Frame(id, b[..n]), Drain(parse, b[n..]))
  }

  /** The read side of a socket: unread bytes, whether it still reads, the frames cut so far. */
  datatype Reader = Reader(pending: seq<byte>, active: bool, frames: seq<Frame>)

  const START: Reader := Reader([], true, [])

  /** One read and the inner loop after it. */
  ghost function Feed(parse: Parse, r: Reader, chunk: seq<byte>): Reader
    requires Sized(parse)
  {
    if r.active then Finish(parse, r.(pending := r.pending + chunk)) else r
  }

  /** The inner loop as a step on readers: what one call of cutIntoMessage does. */
  ghost function CutStep(parse: Parse, r: Reader): Reader
    requires Sized(parse)
  {
    match parse(r.pending)
    case NotEnough => r
    case Bad => r.(active := false)
    case Whole(id, n) => Reader(r.pending[n..], r.active, r.frames + [Frame(id, r.pending[..n])])
  }

  /** What the inner loop still has to do. */
  ghost function Finish(parse: Parse, r: Reader): Reader
    requires Sized(parse)
  {
    var c := Drain(parse, r.pending);
    Reader(c.rest, r.active && !c.bad, r.frames + c.frames)
  }

  lemma FinishStep(parse: Parse, r: Reader)
    requires Sized(parse)
    ensures var h := parse(r.pending);
            Finish(parse, r) == if h.Whole? && h.id != 0 then Finish(parse, CutStep(parse, r)) else CutStep(parse, r)
  {
    var h := parse(r.pending);
    if h.Whole? {
      var f, d := Frame(h.id, r.pending[..h.size]), Drain(parse, r.pending[h.size..]);
      assert r.frames + ([f] + d.frames) == r.frames + [f] + d.frames;
    } else {
      assert r.frames + [] == r.frames;
    }
  }

  ghost function FeedAll(parse: Parse, r: Reader, chunks: seq<seq<byte>>): Reader
    requires Sized(parse)
    decreases |chunks|
  {
    if chunks == [] then r else FeedAll(parse, Feed(parse, r, chunks[0]), chunks[1..])
  }

  lemma FeedAllFirst(parse: Parse, r: Reader, chunk: seq<byte>, chunks: seq<seq<byte>>)
    requires Sized(parse)
    ensures FeedAll(parse, r, [chunk] + chunks) == FeedAll(parse, Feed(parse, r, chunk), chunks)
  {
    assert ([chunk] + chunks)[1..] == chunks;
  }

  // ---- What cutting keeps ----

  lemma PrependConcat(f: Frame, c: Cutting)
    ensures Concat(Prepend(f, c).frames) == f.bytes + Concat(c.frames)
  {
    assert Prepend(f, c).frames[1..] == c.frames;
  }

  lemma CutOne(parse: Parse, f: Frame, more: seq<byte>)
    requires Sized(parse) && parse(f.bytes + more) == Whole(f.id, |f.bytes|)
    ensures Cut(parse, f.bytes + more) == Prepend(f, Cut(parse, more))
  {
    var b := f.bytes + more;
    assert b[..|f.bytes|] == f.bytes && b[|f.bytes|..] == more;
  }

  lemma Rejoin(f: Frame, c: Cutting, b: seq<byte>)
    requires f.bytes <= b && Concat(c.frames) + c.rest == b[|f.bytes|..]
    ensures Concat(Prepend(f, c).frames) + Prepend(f, c).rest == b
  {
    PrependConcat(f, c);
    assert b == f.bytes + (Concat(c.frames) + c.rest);
  }

  lemma ChainPrepend(f: Frame, x: Cutting, y: Cutting)
    ensures Chain(Prepend(f, x), y) == Prepend(f, Chain(x, y))
  {
  }

  /** Cutting in two goes: what the first go leaves is what the second starts from. */
  lemma {:induction false} CutExtend(parse: Parse, b: seq<byte>, c: seq<byte>)
    requires Sized(parse) && Stable(parse)
    ensures Cut(parse, b).bad ==> Cut(parse, b + c).frames == Cut(parse, b).frames && Cut(parse, b + c).bad
    ensures !Cut(parse, b).bad ==> Cut(parse, b + c) == Chain(Cut(parse, b), Cut(parse, Cut(parse, b).rest + c))
    decreases |b|
  {
    var h := parse(b);
    if h.Whole? {
      var f, t := Frame(h.id, b[..h.size]), b[h.size..];
      CutExtend(parse, t, c);
      assert (b + c)[h.size..] == t + c && (b + c)[..h.size] == b[..h.size];
      var x := Cut(parse, t);
      ChainPrepend(f, x, Cut(parse, x.rest + c));
    } else {
      assert [] + Cut(parse, b + c).frames == Cut(parse, b + c).frames;
    }
  }

  /** Cutting loses nothing. */
  lemma {:induction false} CutConserves(parse: Parse, b: seq<byte>)
    requires Sized(parse)
    ensures Concat(Cut(parse, b).frames) + Cut(parse, b).rest == b
    decreases |b|
  {
    var h := parse(b);
    if h.Whole? {
      CutConserves(parse, b[h.size..]);
      Rejoin(Frame(h.id, b[..h.size]), Cut(parse, b[h.size..]), b);
    }
  }

  /** Cutting leaves less than a frame. */
  lemma {:induction false} CutLeaves(parse: Parse, b: seq<byte>)
    requires Sized(parse)
    ensures !Cut(parse, b).bad ==> parse(Cut(parse, b).rest).NotEnough?
    decreases |b|
  {
    var h := parse(b);
    if h.Whole? {
      CutLeaves(parse, b[h.size..]);
    }
  }

  lemma {:induction false} DrainConserves(parse: Parse, b: seq<byte>)
    requires Sized(parse)
    ensures Concat(Drain(parse, b).frames) + Drain(parse, b).rest == b
    decreases |b|
  {
    var h := parse(b);
    if h.Whole? {
      var f := Frame(h.id, b[..h.size]);
      if h.id == 0 {
        Rejoin(f, Cutting([], b[h.size..], false), b);
      } else {
        DrainConserves(parse, b[h.size..]);
        Rejoin(f, Drain(parse, b[h.size..]), b);
      }
    }
  }

  /** Whatever follows it, the parse function finds this frame. */
  ghost predicate Recognised(parse: Parse, f: Frame) {
    forall more :: parse(f.bytes + more) == Whole(f.id, |f.bytes|)
  }

  /** A stream of frames is cut back into those frames. */
  lemma {:induction false} FramesAreCut(parse: Parse, fs: seq<Frame>, t: seq<byte>)
    requires Sized(parse) && parse(t).NotEnough?
    requires forall i :: 0 <= i < |fs| ==> Recognised(parse, fs[i])
    ensures Cut(parse, Concat(fs) + t) == Cutting(fs, t, false)
  {
    if fs == [] {
      assert Concat(fs) + t == t;
    } else {
      Associate(fs[0].bytes, Concat(fs[1..]), t);
      CutOne(parse, fs[0], Concat(fs[1..]) + t);
      FramesAreCut(parse, fs[1..], t);
      assert [fs[0]] + fs[1..] == fs;
    }
  }

  // ---- The loop against the cutting, for every way the bytes arrive ----

  /** No frame but the last has request id 0, and none at all if bad bytes follow. */
  predicate Clean(c: Cutting) {
    forall i :: 0 <= i < |c.frames| && c.frames[i].id == 0 ==> i == |c.frames| - 1 && !c.bad
  }

  lemma CleanPrepend(f: Frame, c: Cutting)
    ensures Clean(Prepend(f, c)) <==> Clean(c) && (f.id == 0 ==> c.frames == [] && !c.bad)
  {
    var d := Prepend(f, c);
    assert d.frames[0] == f && forall i :: 0 <= i < |c.frames| ==> d.frames[i + 1] == c.frames[i];
    if Clean(d) {
      forall i | 0 <= i < |c.frames| && c.frames[i].id == 0 ensures i == |c.frames| - 1 && !c.bad {
        assert d.frames[i + 1].id == 0;
      }
    }
  }

  /** The inner loop cuts every frame there is exactly when the request ids let it. */
  lemma {:induction false} DrainIsCut(parse: Parse, b: seq<byte>)
    requires Sized(parse)
    ensures Drain(parse, b) == Cut(parse, b) <==> Clean(Cut(parse, b))
    decreases |b|
  {
    var h := parse(b);
    if h.Whole? {
      var f, t := Frame(h.id, b[..h.size]), b[h.size..];
      DrainIsCut(parse, t);
      CleanPrepend(f, Cut(parse, t));
      assert Prepend(f, Drain(parse, t)).frames[1..] == Drain(parse, t).frames;
      assert Prepend(f, Cut(parse, t)).frames[1..] == Cut(parse, t).frames;
    }
  }

  lemma CleanParts(x: Cutting, y: Cutting)
    requires Clean(Chain(x, y)) && !x.bad
    ensures Clean(x) && Clean(y)
  {
    var z := Chain(x, y);
    forall i | 0 <= i < |x.frames| && x.frames[i].id == 0 ensures i == |x.frames| - 1 && !x.bad {
      assert z.frames[i].id == 0;
    }
    forall i | 0 <= i < |y.frames| && y.frames[i].id == 0 ensures i == |y.frames| - 1 && !y.bad {
      assert z.frames[|x.frames| + i].id == 0;
    }
  }

  /** The reader has cut these frames, and still holds the rest unless it met bad bytes. */
  ghost predicate Agrees(r: Reader, frames: seq<Frame>, c: Cutting) {
    r.frames == frames + c.frames && r.active == !c.bad && (r.active ==> r.pending == c.rest)
  }

  lemma AgreesChain(r: Reader, frames: seq<Frame>, x: Cutting, y: Cutting)
    requires Agrees(r, frames + x.frames, y)
    ensures Agrees(r, frames, Chain(x, y))
  {
  }

  lemma JoinFirst(pending: seq<byte>, chunks: seq<seq<byte>>)
    requires chunks != []
    ensures pending + Join(chunks) == pending + chunks[0] + Join(chunks[1..])
  {
  }

  lemma {:induction false} FeedAllAgrees(parse: Parse, r: Reader, chunks: seq<seq<byte>>)
    requires Sized(parse) && Stable(parse) && r.active && parse(r.pending).NotEnough?
    requires Clean(Cut(parse, r.pending + Join(chunks)))
    ensures Agrees(FeedAll(parse, r, chunks), r.frames, Cut(parse, r.pending + Join(chunks)))
    decreases |chunks|
  {
    if chunks == [] {
      assert r.pending + Join(chunks) == r.pending;
    } else {
      JoinFirst(r.pending, chunks);
      FeedFirst(parse, r, chunks[0], Join(chunks[1..]));
      var x := Cut(parse, r.pending + chunks[0]);
      var r' := Feed(parse, r, chunks[0]);
      if x.bad {
        FeedStopped(parse, r', chunks[1..]);
      } else {
        FeedAllAgrees(parse, r', chunks[1..]);
        AgreesChain(FeedAll(parse, r', chunks[1..]), r.frames, x, Cut(parse, x.rest + Join(chunks[1..])));
      }
    }
  }

  /** The first read of several: it cuts its part of the frames, and leaves a clean rest. */
  lemma FeedFirst(parse: Parse, r: Reader, chunk: seq<byte>, more: seq<byte>)
    requires Sized(parse) && Stable(parse) && r.active
    requires Clean(Cut(parse, r.pending + chunk + more))
    ensures var x := Cut(parse, r.pending + chunk);
            && Feed(parse, r, chunk) == Reader(x.rest, !x.bad, r.frames + x.frames)
            && (x.bad ==>
                  && Cut(parse, r.pending + chunk + more).bad
                  && Cut(parse, r.pending + chunk + more).frames == x.frames)
            && (!x.bad ==>
                  && parse(x.rest).NotEnough? && Clean(Cut(parse, x.rest + more))
                  && Cut(parse, r.pending + chunk + more) == Chain(x, Cut(parse, x.rest + more)))
  {
    var b := r.pending + chunk;
    var x := Cut(parse, b);
    CutExtend(parse, b, more);
    DrainIsCut(parse, b);
    if !x.bad {
      CleanParts(x, Cut(parse, x.rest + more));
      CutLeaves(parse, b);
    }
  }

  lemma {:induction false} FeedStopped(parse: Parse, r: Reader, chunks: seq<seq<byte>>)
    requires Sized(parse) && !r.active
    ensures FeedAll(parse, r, chunks) == r
    decreases |chunks|
  {
    if chunks != [] {
      FeedStopped(parse, r, chunks[1..]);
    }
  }

  ghost predicate SplitAgrees(parse: Parse, b: seq<byte>, chunks: seq<seq<byte>>)
    requires Sized(parse)
  {
    Join(chunks) == b ==> Agrees(FeedAll(parse, START, chunks), [], Cut(parse, b))
  }

  /**
   * However the bytes of a stream arrive, the reader cuts the same frames, namely all of them, and keeps the same
   * rest, exactly when no frame but the last has request id 0 and none has if bad bytes follow.
   */
  lemma ChunkingDoesNotMatter(parse: Parse, b: seq<byte>)
    requires Sized(parse) && Stable(parse)
    ensures (forall chunks :: SplitAgrees(parse, b, chunks)) <==> Clean(Cut(parse, b))
  {
    assert [] + b == b;
    if Clean(Cut(parse, b)) {
      forall chunks ensures SplitAgrees(parse, b, chunks) {
        if Join(chunks) == b {
          FeedAllAgrees(parse, START, chunks);
        }
      }
    }
    if forall chunks :: SplitAgrees(parse, b, chunks) {
      OneChunk(parse, b);
    }
  }

  /** In one chunk the reader does what the inner loop does. */
  lemma OneChunk(parse: Parse, b: seq<byte>)
    requires Sized(parse) && SplitAgrees(parse, b, [b])
    ensures Clean(Cut(parse, b))
  {
    assert Join([b]) == b + Join([]) && [] + b == b;
    var d, c := Drain(parse, b), Cut(parse, b);
    assert FeedAll(parse, START, [b]) == Feed(parse, START, b);
    assert [] + d.frames == d.frames && [] + c.frames == c.frames;
    DrainConserves(parse, b);
    CutConserves(parse, b);
    SameRest(Concat(c.frames), d.rest, c.rest);
    DrainIsCut(parse, b);
  }

  lemma SameRest(f: seq<byte>, a: seq<byte>, b: seq<byte>)
    requires f + a == f + b
    ensures a == b
  {
    assert (f + a)[|f|..] == a && (f + b)[|f|..] == b;
  }

  // ---- Conservation, whatever the request ids ----

  lemma {:induction false} ConcatConcat(a: seq<Frame>, b: seq<Frame>)
    ensures Concat(a + b) == Concat(a) + Concat(b)
  {
    if a == [] {
      assert a + b == b;
    } else {
      assert (a + b)[1..] == a[1..] + b;
      ConcatConcat(a[1..], b);
    }
  }

  lemma FeedConserves(parse: Parse, r: Reader, chunk: seq<byte>)
    requires Sized(parse) && r.active
    ensures var r' := Feed(parse, r, chunk);
            Concat(r'.frames) + r'.pending == Concat(r.frames) + r.pending + chunk
  {
    var c := Drain(parse, r.pending + chunk);
    DrainConserves(parse, r.pending + chunk);
    ConcatConcat(r.frames, c.frames);
    Associate(Concat(r.frames), Concat(c.frames), c.rest);
    Associate(Concat(r.frames), r.pending, chunk);
  }

  /** No byte is lost or invented: the frames and the unread bytes are what was read, all of it while the socket is
      fine. */
  lemma {:induction false} BytesConserved(parse: Parse, r: Reader, chunks: seq<seq<byte>>)
    requires Sized(parse)
    ensures var r', fed := FeedAll(parse, r, chunks), Concat(r.frames) + r.pending + Join(chunks);
            && Concat(r'.frames) + r'.pending <= fed
            && (r'.active ==> r.active && Concat(r'.frames) + r'.pending == fed)
    decreases |chunks|
  {
    var before := Concat(r.frames) + r.pending;
    if !r.active {
      FeedStopped(parse, r, chunks);
    } else if chunks == [] {
      assert before + Join(chunks) == before;
    } else {
      FeedConserves(parse, r, chunks[0]);
      BytesConserved(parse, Feed(parse, r, chunks[0]), chunks[1..]);
      JoinFirst(before, chunks);
    }
  }
}
