/** The reader loop when one read takes at most so many bytes: exactly which streams survive every split. */
module BoundedReads {
  import opened Bytes
  import opened Framing

  /** A frame is found as soon as it is complete. */
  ghost predicate Prompt(parse: Parse) {
    forall b :: parse(b).Whole? && parse(b).size <= |b| ==> parse(b[..parse(b).size]) == parse(b)
  }

  /** Reads that bring something, and no more than the limit. */
  predicate Within(chunks: seq<seq<byte>>, max: nat) {
    forall i :: 0 <= i < |chunks| ==> 0 < |chunks[i]| <= max
  }

  function Size(c: Cutting): nat {
    |Concat(c.frames)| + |c.rest|
  }

  /** Nothing is left to be found. */
  predicate Final(c: Cutting) {
    c.frames == [] && !c.bad
  }

  /** The frames with request id 0 behind which something is left to be found, and fewer than `limit` bytes. */
  ghost function Stalling(c: Cutting, limit: int): set<nat> {
    set i | 0 <= i < |c.frames| && StallsAt(c, limit, i)
  }

  predicate StallsAt(c: Cutting, limit: int, i: nat)
    requires i < |c.frames|
  {
    && c.frames[i].id == 0 && (i + 1 < |c.frames| || c.bad)
    && Size(c) - |Concat(c.frames[..i + 1])| < limit
  }

  /** Each read cuts at most one such frame: so the last j reads meet fewer than j, whatever they bring. */
  ghost predicate Paced(c: Cutting, max: nat) {
    forall j: nat :: PacedAt(c, max, j)
  }

  ghost predicate PacedAt(c: Cutting, max: nat, j: nat) {
    j > 0 ==> |Stalling(c, max * j)| < j
  }

  // ---- The same, counted from the front ----

  function Tail(c: Cutting): Cutting
    requires c.frames != []
  {
    Cutting(c.frames[1..], c.rest, c.bad)
  }

  /** The first frame stalls the loop. */
  predicate Stalls(c: Cutting)
    requires c.frames != []
  {
    c.frames[0].id == 0 && !Final(Tail(c))
  }

  function Count(c: Cutting, limit: int): nat
    decreases |c.frames|
  {
    if c.frames == [] then 0
    else (if Stalls(c) && Size(Tail(c)) < limit then 1 else 0) + Count(Tail(c), limit)
  }

  /** All frames that stall the loop. */
  function CountAll(c: Cutting): nat
    decreases |c.frames|
  {
    if c.frames == [] then 0 else (if Stalls(c) then 1 else 0) + CountAll(Tail(c))
  }

  ghost function Shift(s: set<nat>): set<nat> {
    set i | i in s :: i + 1
  }

  lemma {:induction false} Shifted(s: set<nat>)
    ensures |Shift(s)| == |s|
    decreases s
  {
    if s == {} {
      assert Shift(s) == {};
    } else {
      var x :| x in s;
      Shifted(s - {x});
      ShiftOne(s, x);
    }
  }

  lemma ShiftOne(s: set<nat>, x: nat)
    requires x in s
    ensures Shift(s) == Shift(s - {x}) + {x + 1} && x + 1 !in Shift(s - {x})
  {
    forall y | y in Shift(s) && y != x + 1 ensures y in Shift(s - {x}) {
      var i :| i in s && i + 1 == y;
      assert i in s - {x};
    }
  }

  lemma StallsAtTail(c: Cutting, limit: int, i: nat)
    requires c.frames != [] && i < |Tail(c).frames|
    ensures StallsAt(c, limit, i + 1) <==> StallsAt(Tail(c), limit, i)
  {
    var fs := c.frames[..i + 2];
    assert fs[1..] == c.frames[1..][..i + 1] && fs[0] == c.frames[0];
  }

  lemma StallsAtFront(c: Cutting, limit: int)
    requires c.frames != []
    ensures StallsAt(c, limit, 0) <==> Stalls(c) && Size(Tail(c)) < limit
  {
    assert c.frames[..1][1..] == [] && Concat(c.frames[..1]) == c.frames[0].bytes + Concat([]);
  }

  lemma {:induction false} CountIsCardinality(c: Cutting, limit: int)
    ensures Count(c, limit) == |Stalling(c, limit)|
    decreases |c.frames|
  {
    if c.frames != [] {
      var d := Tail(c);
      CountIsCardinality(d, limit);
      Shifted(Stalling(d, limit));
      StallsAtFront(c, limit);
      StallingTail(c, limit);
    }
  }

  lemma StallingTail(c: Cutting, limit: int)
    requires c.frames != []
    ensures var later := Shift(Stalling(Tail(c), limit));
            0 !in later && Stalling(c, limit) == later + if StallsAt(c, limit, 0) then {0} else {}
  {
    var d := Tail(c);
    forall i | i in Stalling(c, limit) && i > 0 ensures i in Shift(Stalling(d, limit)) {
      StallsAtTail(c, limit, i - 1);
      assert i - 1 in Stalling(d, limit);
    }
    forall i | i in Shift(Stalling(d, limit)) ensures i in Stalling(c, limit) {
      StallsAtTail(c, limit, i - 1);
    }
  }

  lemma {:induction false} CountSome(c: Cutting, limit: int)
    ensures Count(c, limit) <= CountAll(c)
    ensures c.frames != [] && Size(Tail(c)) < limit ==> Count(c, limit) == CountAll(c)
    decreases |c.frames|
  {
    if c.frames != [] {
      CountSome(Tail(c), limit);
    }
  }

  // ---- One read ----

  /** The cutting with frames in front. */
  function Before(fs: seq<Frame>, c: Cutting): Cutting {
    c.(frames := fs + c.frames)
  }

  /** What is left to be cut after a read, seen from before it. */
  ghost predicate Continues(frames: seq<Frame>, c: Cutting, frames': seq<Frame>, c': Cutting) {
    frames + c.frames == frames' + c'.frames && c.rest == c'.rest && c.bad == c'.bad
  }

  /** A read cuts all it can find, or stops behind one frame that stalls it. */
  ghost predicate OneStall(c: Cutting, c': Cutting, found: bool) {
    (CountAll(c) == CountAll(c') && !found) || (CountAll(c) == CountAll(c') + 1 && !Final(c'))
  }

  lemma TailOf(f: Frame, c: Cutting)
    ensures Prepend(f, c).frames != [] && Tail(Prepend(f, c)) == c && Prepend(f, c).frames[0] == f
    ensures Size(Prepend(f, c)) == |f.bytes| + Size(c)
  {
    assert Prepend(f, c).frames[1..] == c.frames;
  }

  /** The inner loop over the first part of the bytes: what it cuts, and what stalls it. */
  ghost predicate DrainsPart(parse: Parse, d: Cutting, c: Cutting, more: seq<byte>)
    requires Sized(parse)
  {
    && (d.bad ==> c.bad && c.frames == d.frames && CountAll(c) == 0)
    && (!d.bad ==>
          var c' := Cut(parse, d.rest + more);
          c == Before(d.frames, c') && OneStall(c, c', !parse(d.rest).NotEnough?))
  }

  lemma DrainsZero(parse: Parse, f: Frame, t: seq<byte>, more: seq<byte>)
    requires Sized(parse) && Stable(parse) && f.id == 0
    ensures DrainsPart(parse, Cutting([f], t, false), Prepend(f, Cut(parse, t + more)), more)
  {
    var c' := Cut(parse, t + more);
    TailOf(f, c');
    if Final(c') {
      assert parse(t).NotEnough?;
    }
  }

  lemma CountOn(f: Frame, c: Cutting)
    requires f.id != 0
    ensures CountAll(Prepend(f, c)) == CountAll(c)
  {
    TailOf(f, c);
  }

  lemma BeforeOn(f: Frame, fs: seq<Frame>, c: Cutting)
    ensures Prepend(f, Before(fs, c)) == Before([f] + fs, c)
  {
    assert [f] + (fs + c.frames) == [f] + fs + c.frames;
  }

  lemma DrainsOn(parse: Parse, f: Frame, d: Cutting, c: Cutting, more: seq<byte>)
    requires Sized(parse) && f.id != 0 && DrainsPart(parse, d, c, more)
    ensures DrainsPart(parse, Prepend(f, d), Prepend(f, c), more)
  {
    CountOn(f, c);
    if !d.bad {
      BeforeOn(f, d.frames, Cut(parse, d.rest + more));
    }
  }

  lemma DrainsNothing(parse: Parse, b: seq<byte>, more: seq<byte>)
    requires Sized(parse)
    ensures DrainsPart(parse, Cutting([], b, true), Cutting([], b + more, true), more)
    ensures parse(b).NotEnough? ==> DrainsPart(parse, Cutting([], b, false), Cut(parse, b + more), more)
  {
    assert [] + Cut(parse, b + more).frames == Cut(parse, b + more).frames;
  }

  lemma {:induction false} DrainPart(parse: Parse, b: seq<byte>, more: seq<byte>)
    requires Sized(parse) && Stable(parse)
    ensures DrainsPart(parse, Drain(parse, b), Cut(parse, b + more), more)
    decreases |b|
  {
    var h := parse(b);
    DrainsNothing(parse, b, more);
    if h.Whole? {
      var n := h.size;
      var f, t := Frame(h.id, b[..n]), b[n..];
      assert parse(b + more) == h;
      assert (b + more)[n..] == t + more && (b + more)[..n] == b[..n];
      if h.id == 0 {
        DrainsZero(parse, f, t, more);
      } else {
        DrainPart(parse, t, more);
        DrainsOn(parse, f, Drain(parse, t), Cut(parse, t + more), more);
      }
    }
  }

  /** One read and the inner loop after it. */
  ghost predicate ReadStalls(parse: Parse, r: Reader, c: Cutting, r': Reader, more: seq<byte>)
    requires Sized(parse)
  {
    && (!r'.active ==> c.bad && r'.frames == r.frames + c.frames && CountAll(c) == 0)
    && (r'.active ==>
          var c' := Cut(parse, r'.pending + more);
          && r.frames <= r'.frames && Continues(r.frames, c, r'.frames, c')
          && OneStall(c, c', !parse(r'.pending).NotEnough?))
  }

  lemma ContinuesFrom(frames: seq<Frame>, c: Cutting, fs: seq<Frame>, c': Cutting)
    requires c == Before(fs, c')
    ensures frames <= frames + fs && Continues(frames, c, frames + fs, c')
  {
    assert frames + (fs + c'.frames) == frames + fs + c'.frames;
  }

  lemma DrainStalls(parse: Parse, r: Reader, d: Cutting, c: Cutting, more: seq<byte>)
    requires Sized(parse) && DrainsPart(parse, d, c, more)
    ensures ReadStalls(parse, r, c, Reader(d.rest, !d.bad, r.frames + d.frames), more)
  {
    if !d.bad {
      ContinuesFrom(r.frames, c, d.frames, Cut(parse, d.rest + more));
    }
  }

  lemma ReadOnce(parse: Parse, r: Reader, chunk: seq<byte>, more: seq<byte>)
    requires Sized(parse) && Stable(parse) && r.active
    ensures ReadStalls(parse, r, Cut(parse, r.pending + chunk + more), Feed(parse, r, chunk), more)
  {
    var b := r.pending + chunk;
    DrainPart(parse, b, more);
    DrainStalls(parse, r, Drain(parse, b), Cut(parse, b + more), more);
  }

  /** Frames in front only add to the count, and nothing if as much as the limit follows them. */
  lemma {:induction false} CountBefore(fs: seq<Frame>, c: Cutting, limit: int)
    ensures Count(c, limit) <= Count(Before(fs, c), limit)
    ensures limit <= Size(c) ==> Count(c, limit) == Count(Before(fs, c), limit)
    ensures Size(c) <= Size(Before(fs, c))
    decreases |fs|
  {
    if fs == [] {
      assert fs + c.frames == c.frames;
    } else {
      assert (fs + c.frames)[1..] == fs[1..] + c.frames;
      CountBefore(fs[1..], c, limit);
    }
  }

  lemma CutSize(parse: Parse, b: seq<byte>)
    requires Sized(parse)
    ensures Size(Cut(parse, b)) == |b|
  {
    CutConserves(parse, b);
  }

  lemma ContinuesBefore(frames: seq<Frame>, c: Cutting, frames': seq<Frame>, c': Cutting)
    requires Continues(frames, c, frames', c') && frames <= frames'
    ensures c == Before(frames'[|frames|..], c')
  {
    var fs := frames'[|frames|..];
    assert frames' == frames + fs;
    assert (frames + c.frames)[|frames|..] == c.frames;
    assert (frames + fs + c'.frames)[|frames|..] == fs + c'.frames;
  }

  /** A reader that meets no bad bytes reads on. */
  lemma {:induction false} StaysActive(parse: Parse, r: Reader, chunks: seq<seq<byte>>)
    requires Sized(parse) && Stable(parse) && r.active && !Cut(parse, r.pending + Join(chunks)).bad
    ensures FeedAll(parse, r, chunks).active
    decreases |chunks|
  {
    if chunks != [] {
      JoinFirst(r.pending, chunks);
      ReadOnce(parse, r, chunks[0], Join(chunks[1..]));
      StaysActive(parse, Feed(parse, r, chunks[0]), chunks[1..]);
    }
  }

  // ---- Enough reads ----

  lemma {:induction false} JoinBound(chunks: seq<seq<byte>>, max: nat)
    requires forall i :: 0 <= i < |chunks| ==> |chunks[i]| <= max
    ensures |Join(chunks)| <= max * |chunks|
    decreases |chunks|
  {
    if chunks != [] {
      JoinBound(chunks[1..], max);
      OneLess(max, |chunks|);
    }
  }

  lemma PacedCount(c: Cutting, max: nat, j: nat)
    requires Paced(c, max) && j > 0
    ensures Count(c, max * j) < j
  {
    assert PacedAt(c, max, j);
    CountIsCardinality(c, max * j);
  }

  lemma PacedLater(fs: seq<Frame>, c: Cutting, max: nat)
    requires Paced(Before(fs, c), max)
    ensures Paced(c, max)
  {
    forall j: nat ensures PacedAt(c, max, j) {
      if j > 0 {
        PacedCount(Before(fs, c), max, j);
        CountBefore(fs, c, max * j);
        CountIsCardinality(c, max * j);
      }
    }
  }

  /** Before a read that finds no frame in the bytes it has, fewer frames stall the loop than there are reads. */
  lemma FewerThanReads(parse: Parse, p: seq<byte>, more: seq<byte>, max: nat, j: nat)
    requires Sized(parse) && Stable(parse) && Prompt(parse) && parse(p).NotEnough?
    requires Paced(Cut(parse, p + more), max) && |more| <= max * j && j > 0
    ensures CountAll(Cut(parse, p + more)) < j
  {
    var b := p + more;
    var c, h := Cut(parse, b), parse(b);
    PacedCount(c, max, j);
    CountSome(c, max * j);
    if h.Whole? {
      if h.size <= |p| {
        assert b[..h.size] == p[..h.size] && p == p[..h.size] + p[h.size..];
        assert parse(p) == h;
      }
      CutSize(parse, b[h.size..]);
      TailOf(Frame(h.id, b[..h.size]), Cut(parse, b[h.size..]));
    }
  }

  lemma {:induction false} FeedAllPaced(parse: Parse, r: Reader, chunks: seq<seq<byte>>, max: nat)
    requires Sized(parse) && Stable(parse) && Prompt(parse) && r.active
    requires forall i :: 0 <= i < |chunks| ==> |chunks[i]| <= max
    requires Paced(Cut(parse, r.pending + Join(chunks)), max)
    requires parse(r.pending).NotEnough? || CountAll(Cut(parse, r.pending + Join(chunks))) < |chunks|
    ensures Agrees(FeedAll(parse, r, chunks), r.frames, Cut(parse, r.pending + Join(chunks)))
    decreases |chunks|
  {
    if chunks == [] {
      assert r.pending + Join(chunks) == r.pending;
    } else {
      var more := Join(chunks[1..]);
      var c, r' := Cut(parse, r.pending + Join(chunks)), Feed(parse, r, chunks[0]);
      JoinBound(chunks, max);
      if parse(r.pending).NotEnough? {
        FewerThanReads(parse, r.pending, Join(chunks), max, |chunks|);
      }
      JoinFirst(r.pending, chunks);
      ReadOnce(parse, r, chunks[0], more);
      if r'.active {
        var c' := Cut(parse, r'.pending + more);
        ContinuesBefore(r.frames, c, r'.frames, c');
        PacedLater(r'.frames[|r.frames|..], c', max);
        FeedAllPaced(parse, r', chunks[1..], max);
      } else {
        FeedStopped(parse, r', chunks[1..]);
      }
    }
  }

  // ---- Too few reads ----

  /** Reads that are no more than the frames that stall the loop do not cut everything. */
  lemma {:induction false} Starved(parse: Parse, r: Reader, chunks: seq<seq<byte>>)
    requires Sized(parse) && Stable(parse) && r.active && chunks != []
    requires |chunks| <= CountAll(Cut(parse, r.pending + Join(chunks)))
    ensures !Agrees(FeedAll(parse, r, chunks), r.frames, Cut(parse, r.pending + Join(chunks)))
    decreases |chunks|
  {
    var more := Join(chunks[1..]);
    var r' := Feed(parse, r, chunks[0]);
    JoinFirst(r.pending, chunks);
    ReadOnce(parse, r, chunks[0], more);
    if |chunks| == 1 {
      assert chunks[1..] == [] && r'.pending + more == r'.pending;
    } else {
      Starved(parse, r', chunks[1..]);
    }
  }

  lemma {:induction false} FeedAllConcat(parse: Parse, r: Reader, x: seq<seq<byte>>, y: seq<seq<byte>>)
    requires Sized(parse)
    ensures FeedAll(parse, r, x + y) == FeedAll(parse, FeedAll(parse, r, x), y)
    ensures Join(x + y) == Join(x) + Join(y)
    decreases |x|
  {
    if x == [] {
      assert x + y == y;
    } else {
      assert (x + y)[1..] == x[1..] + y && (x + y)[0] == x[0];
      FeedAllConcat(parse, Feed(parse, r, x[0]), x[1..], y);
      Associate(x[0], Join(x[1..]), Join(y));
    }
  }

  /** Reads do not touch the frames that end behind them. */
  lemma {:induction false} LateFramesWait(parse: Parse, r: Reader, chunks: seq<seq<byte>>, more: seq<byte>, limit: int)
    requires Sized(parse) && Stable(parse) && r.active && limit <= |more|
    ensures var r', c := FeedAll(parse, r, chunks), Cut(parse, r.pending + Join(chunks) + more);
            && (!r'.active ==> Count(c, limit) == 0)
            && (r'.active ==>
                  var c' := Cut(parse, r'.pending + more);
                  Continues(r.frames, c, r'.frames, c') && Count(c, limit) == Count(c', limit))
    decreases |chunks|
  {
    if chunks == [] {
      assert r.pending + Join(chunks) == r.pending;
    } else {
      var rest := Join(chunks[1..]) + more;
      var c, r' := Cut(parse, r.pending + chunks[0] + rest), Feed(parse, r, chunks[0]);
      JoinFirst(r.pending, chunks);
      Associate(r.pending + chunks[0], Join(chunks[1..]), more);
      ReadOnce(parse, r, chunks[0], rest);
      CountSome(c, limit);
      if r'.active {
        var c' := Cut(parse, r'.pending + rest);
        ContinuesBefore(r.frames, c, r'.frames, c');
        CutSize(parse, r'.pending + rest);
        CountBefore(r'.frames[|r.frames|..], c', limit);
        Associate(r'.pending, Join(chunks[1..]), more);
        LateFramesWait(parse, r', chunks[1..], more, limit);
      } else {
        FeedStopped(parse, r', chunks[1..]);
      }
    }
  }

  /** As few reads as there can be. */
  function Chop(b: seq<byte>, max: nat): seq<seq<byte>>
    requires max > 0
    decreases |b|
  {
    if b == [] then [] else [b[..Min(max, |b|)]] + Chop(b[Min(max, |b|)..], max)
  }

  lemma {:induction false} ChopFits(b: seq<byte>, max: nat)
    requires max > 0
    ensures Within(Chop(b, max), max) && Join(Chop(b, max)) == b
    ensures b != [] ==> Chop(b, max) != []
    decreases |b|
  {
    if b != [] {
      var n := Min(max, |b|);
      ChopFits(b[n..], max);
      var rest := Chop(b[n..], max);
      assert ([b[..n]] + rest)[1..] == rest && b[..n] + b[n..] == b;
    }
  }

  lemma OneLess(max: nat, j: nat)
    requires j > 0
    ensures max * j == max + max * (j - 1)
  {
  }

  lemma {:induction false} ChopCount(b: seq<byte>, max: nat, j: nat, limit: nat)
    requires max > 0 && limit == max * j && |b| <= limit
    ensures |Chop(b, max)| <= j
    decreases |b|
  {
    if b != [] {
      OneLess(max, j);
      ChopCount(b[Min(max, |b|)..], max, j - 1, limit - max);
    }
  }

  /** The last j reads cannot cut more than j frames that end in them. */
  lemma LastReadsFail(parse: Parse, b: seq<byte>, first: seq<seq<byte>>, last: seq<seq<byte>>, limit: int)
    requires Sized(parse) && Stable(parse) && last != [] && (first == [] || limit <= |Join(last)|)
    requires b == Join(first) + Join(last) && |last| <= Count(Cut(parse, b), limit)
    ensures !SplitAgrees(parse, b, first + last)
  {
    var r, more := FeedAll(parse, START, first), Join(last);
    FeedAllConcat(parse, START, first, last);
    FirstReads(parse, first, more, limit);
    CountSome(Cut(parse, r.pending + more), limit);
    Starved(parse, r, last);
  }

  /** What the reads before them leave. */
  lemma FirstReads(parse: Parse, first: seq<seq<byte>>, more: seq<byte>, limit: int)
    requires Sized(parse) && Stable(parse) && (first == [] || limit <= |more|)
    requires 0 < Count(Cut(parse, Join(first) + more), limit)
    ensures var r, c := FeedAll(parse, START, first), Cut(parse, Join(first) + more);
            && r.active && Count(Cut(parse, r.pending + more), limit) == Count(c, limit)
            && Continues([], c, r.frames, Cut(parse, r.pending + more))
  {
    if first == [] {
      assert Join(first) + more == more && START.pending + more == more;
    } else {
      assert [] + Join(first) == Join(first);
      LateFramesWait(parse, START, first, more, limit);
    }
  }

  /** The last bytes, up to the limit, in as few reads as there can be, after the other bytes. */
  lemma TwoParts(b: seq<byte>, max: nat, limit: nat) returns (first: seq<seq<byte>>, last: seq<seq<byte>>)
    requires max > 0 && limit > 0 && b != []
    ensures b == Join(first) + Join(last) && Within(first, max) && Within(last, max)
    ensures last != [] && last == Chop(Join(last), max) && |Join(last)| <= limit
    ensures first == [] || limit <= |Join(last)|
  {
    var n := if limit < |b| then |b| - limit else 0;
    first, last := Chop(b[..n], max), Chop(b[n..], max);
    ChopFits(b[..n], max);
    ChopFits(b[n..], max);
  }

  lemma SomethingToCount(parse: Parse, b: seq<byte>, limit: int)
    requires Sized(parse) && Count(Cut(parse, b), limit) > 0
    ensures b != []
  {
  }

  /** A split that fails. */
  lemma TooFewReads(parse: Parse, b: seq<byte>, max: nat, j: nat, limit: nat) returns (chunks: seq<seq<byte>>)
    requires Sized(parse) && Stable(parse) && max > 0 && limit == max * j && 0 < j <= Count(Cut(parse, b), limit)
    ensures Within(chunks, max) && !SplitAgrees(parse, b, chunks)
  {
    SomethingToCount(parse, b, limit);
    OneLess(max, j);
    var first, last := TwoParts(b, max, limit);
    ChopCount(Join(last), max, j, limit);
    LastReadsFail(parse, b, first, last, limit);
    chunks := first + last;
  }

  lemma UnpacedCount(c: Cutting, max: nat, j: nat)
    requires !PacedAt(c, max, j)
    ensures 0 < j <= Count(c, max * j)
  {
    CountIsCardinality(c, max * j);
  }

  lemma Unpaced(parse: Parse, b: seq<byte>, max: nat, j: nat) returns (chunks: seq<seq<byte>>)
    requires Sized(parse) && Stable(parse) && max > 0 && !PacedAt(Cut(parse, b), max, j)
    ensures Within(chunks, max) && !SplitAgrees(parse, b, chunks)
  {
    UnpacedCount(Cut(parse, b), max, j);
    chunks := TooFewReads(parse, b, max, j, max * j);
  }

  lemma PacedAgrees(parse: Parse, b: seq<byte>, max: nat, chunks: seq<seq<byte>>)
    requires Sized(parse) && Stable(parse) && Prompt(parse) && Paced(Cut(parse, b), max)
    requires forall i :: 0 <= i < |chunks| ==> |chunks[i]| <= max
    ensures SplitAgrees(parse, b, chunks)
  {
    if Join(chunks) == b {
      assert [] + b == b;
      FeedAllPaced(parse, START, chunks, max);
    }
  }

  /**
   * When a read takes at most `max` bytes: however the bytes arrive, the reader cuts every frame there is and keeps
   * the same rest, if and only if for every j fewer than j of the frames that stall the loop have fewer than j times
   * `max` bytes behind them.
   */
  lemma BoundedChunking(parse: Parse, b: seq<byte>, max: nat)
    requires Sized(parse) && Stable(parse) && Prompt(parse) && max > 0
    ensures (forall chunks :: Within(chunks, max) ==> SplitAgrees(parse, b, chunks)) <==> Paced(Cut(parse, b), max)
  {
    if Paced(Cut(parse, b), max) {
      forall chunks | Within(chunks, max) ensures SplitAgrees(parse, b, chunks) {
        PacedAgrees(parse, b, max, chunks);
      }
    } else {
      var j: nat :| !PacedAt(Cut(parse, b), max, j);
      var chunks := Unpaced(parse, b, max, j);
    }
  }
}
