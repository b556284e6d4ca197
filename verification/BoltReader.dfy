/** The read side of a socket that speaks Bolt: onRead and cutIntoMessage over an IOBuffer. */
module BoltReader {
  import opened Bytes
  import opened IOBlocks
  import opened IOBuffer
  import opened DescriptorAppend
  import opened Framing
  import opened BoltFraming
  import opened BoundedReads

  const MIN_ONCE_READ: nat := 4096

  /** Sized(CheckHeader), which the contracts below mention, always holds: see CheckHeaderIsProper. */
  class BoltReader {
    const readBuf: IOBuffer
    const sessions: map<nat, IOBuffer>       // the read_buf of each waiting session, by request id
    var active: bool
    ghost const owner: map<IOBuffer, nat>    // the request id of the session that has a buffer
    ghost var frames: seq<Frame>
    ghost const base: map<nat, seq<byte>>    // the bytes in those buffers at first
    ghost var held: map<nat, seq<byte>>      // the bytes in them now

    constructor (sessions: map<nat, IOBuffer>, ghost mem: Memory)
      requires forall a, b :: a in sessions && b in sessions && a != b ==> sessions[a] != sessions[b]
      requires forall id :: id in sessions ==> sessions[id].Valid(mem)
      ensures this.sessions == sessions && fresh(readBuf) && Sound(mem)
      ensures readBuf.refs == [] && readBuf.refOffset == 0 && active && frames == []
    {
      readBuf := new IOBuffer();
      this.sessions := sessions;
      owner := map id | id in sessions :: sessions[id] := id;
      active := true;
      frames := [];
      var all := map id | id in sessions :: sessions[id].Bytes(mem);
      base, held := all, all;
    }

    /** The buffers are different ones, and the sessions' hold these bytes. */
    ghost predicate Hold(want: map<nat, seq<byte>>, mem: Memory)
      reads readBuf, owner.Keys
    {
      && readBuf.Valid(mem) && Separate(sessions, owner) && readBuf !in owner
      && (forall id :: id in want ==> id in sessions)
      && (forall id :: id in sessions ==> id in want && Holds(sessions[id], want[id], mem))
    }

    /** Each session's buffer holds what it held and what was cut for it. */
    ghost predicate Sound(mem: Memory)
      reads this`held, this`frames, readBuf, owner.Keys
    {
      held == CreditAll(base, frames) && Hold(held, mem)
    }

    ghost predicate Valid(arena: Arena)
      reads this`held, this`frames, readBuf, owner.Keys, arena, arena.mem.Keys
    {
      arena.Valid() && Sound(arena.mem)
    }

    /** The read side as a value. */
    ghost function State(mem: Memory): Reader
      requires readBuf.Valid(mem)
      reads this, readBuf
    {
      Reader(readBuf.Bytes(mem), active, frames)
    }

    /** checkHeader on the unread bytes. */
    method Check(arena: Arena) returns (c: Check)
      requires Valid(arena)
      ensures c == CheckHeader(readBuf.Bytes(arena.mem))
    {
      ghost var all := readBuf.Bytes(arena.mem);
      var header := new byte[HEADER];
      var n := readBuf.CopyTo(arena, header, HEADER);
      if n < HEADER {
        return NotEnough;
      }
      assert header[..] == all[..HEADER];
      var h := header[..];
      assert h + all[HEADER..] == all;
      HeaderStable(h, all[HEADER..]);
      var body := TrueBody(h) % WORD;
      if body > MAX_BODY {
        return Bad;
      }
      var size := readBuf.Length(arena.mem);
      if body + HEADER > size {
        return NotEnough;
      }
      return Whole(RequestId(h), body + HEADER);
    }

    /** Move the first n bytes to the end of a session's buffer. */
    method MoveTo(arena: Arena, out: IOBuffer, ghost id: nat, n: nat, ghost want: map<nat, seq<byte>>)
      requires arena.Valid() && Hold(want, arena.mem) && n <= |readBuf.Bytes(arena.mem)|
      requires id in sessions && out == sessions[id]
      modifies readBuf, out
      ensures arena.Valid() && readBuf.Valid(arena.mem)
      ensures Holds(out, want[id] + old(readBuf.Bytes(arena.mem))[..n], arena.mem)
      ensures readBuf.Bytes(arena.mem) == old(readBuf.Bytes(arena.mem))[n..]
    {
      assert Holds(out, want[id], arena.mem);
      var k := readBuf.CutBuffer(out, n, arena.mem);
      assert k == n;
    }

    /** Move the first n bytes to the end of the buffer of the session that waits for them. */
    method Move(arena: Arena, id: nat, n: nat, ghost want: map<nat, seq<byte>>)
      requires arena.Valid() && Hold(want, arena.mem) && n <= |readBuf.Bytes(arena.mem)| && id in sessions
      modifies readBuf, owner.Keys
      ensures arena.Valid() && Hold(Credit(want, Frame(id, old(readBuf.Bytes(arena.mem))[..n])), arena.mem)
      ensures readBuf.Bytes(arena.mem) == old(readBuf.Bytes(arena.mem))[n..]
    {
      MoveTo(arena, sessions[id], id, n, want);
      forall x | x in sessions && x != id ensures Holds(sessions[x], want[x], arena.mem) {
        assert old(Holds(sessions[x], want[x], arena.mem));
      }
    }

    /** Drop the first n bytes, which no session waits for. */
    method Discard(arena: Arena, id: nat, n: nat, ghost want: map<nat, seq<byte>>)
      requires arena.Valid() && Hold(want, arena.mem) && n <= |readBuf.Bytes(arena.mem)| && id !in sessions
      modifies readBuf
      ensures arena.Valid() && Hold(want, arena.mem)
      ensures readBuf.Bytes(arena.mem) == old(readBuf.Bytes(arena.mem))[n..]
    {
      var k := readBuf.PopFront(n, arena.mem);
    }

    /** The first n bytes go to the session that waits for them, if there is one. */
    method Cut(arena: Arena, id: nat, n: nat, ghost want: map<nat, seq<byte>>)
      requires arena.Valid() && Hold(want, arena.mem) && n <= |readBuf.Bytes(arena.mem)|
      modifies readBuf, owner.Keys
      ensures arena.Valid() && Hold(Credit(want, Frame(id, old(readBuf.Bytes(arena.mem))[..n])), arena.mem)
      ensures readBuf.Bytes(arena.mem) == old(readBuf.Bytes(arena.mem))[n..]
    {
      if id in sessions {
        Move(arena, id, n, want);
      } else {
        Discard(arena, id, n, want);
      }
    }

    /** Credit a frame that was cut. */
    method Record(ghost mem: Memory, ghost f: Frame)
      requires held == CreditAll(base, frames) && Hold(Credit(held, f), mem)
      modifies this`held, this`frames
      ensures Sound(mem) && frames == old(frames) + [f]
    {
      CreditNext(base, frames, f);
      held, frames := Credit(held, f), frames + [f];
    }

    /** The frame leaves the buffer, and is credited. */
    method Deliver(arena: Arena, id: nat, n: nat)
      requires Valid(arena) && n <= |readBuf.Bytes(arena.mem)|
      modifies this`held, this`frames, readBuf, owner.Keys
      ensures Valid(arena)
      ensures var b := old(readBuf.Bytes(arena.mem));
              State(arena.mem) == Reader(b[n..], active, old(frames) + [Frame(id, b[..n])])
    {
      ghost var bytes := readBuf.Bytes(arena.mem)[..n];
      Cut(arena, id, n, held);
      Record(arena.mem, Frame(id, bytes));
    }

    /** setStatus to an error: the socket reads no more. */
    method Close(arena: Arena)
      requires Valid(arena)
      modifies this`active
      ensures Valid(arena) && State(arena.mem) == old(State(arena.mem)).(active := false)
    {
      active := false;
    }

    /** cutIntoMessage */
    method CutIntoMessage(arena: Arena) returns (id: int)
      requires Valid(arena) && Sized(CheckHeader)
      modifies this, readBuf, owner.Keys
      ensures Valid(arena)
      ensures var h := CheckHeader(old(readBuf.Bytes(arena.mem)));
              id == if h.NotEnough? then 0 else if h.Bad? then -1 else h.id
      ensures State(arena.mem) == CutStep(CheckHeader, old(State(arena.mem)))
    {
      var length := readBuf.Length(arena.mem);
      if length == 0 {
        return 0;
      }
      var c := Check(arena);
      match c {
        case NotEnough =>
          return 0;
        case Bad =>
          Close(arena);
          return -1;
        case Whole(i, n) =>
          Deliver(arena, i, n);
          return i;
      }
    }

    /** The inner loop of onRead. */
    method InnerLoop(arena: Arena)
      requires Valid(arena) && Sized(CheckHeader)
      modifies this, readBuf, owner.Keys
      ensures Valid(arena) && State(arena.mem) == Finish(CheckHeader, old(State(arena.mem)))
    {
      ghost var target := Finish(CheckHeader, State(arena.mem));
      var more := true;
      while more
        invariant Valid(arena)
        invariant (if more then Finish(CheckHeader, State(arena.mem)) else State(arena.mem)) == target
        decreases if more then 1 + |readBuf.Bytes(arena.mem)| else 0
      {
        FinishStep(CheckHeader, State(arena.mem));
        var id := CutIntoMessage(arena);
        more := id > 0;
      }
    }

    /** Append what the descriptor gives; the sessions' buffers keep their bytes. */
    method Append(arena: Arena, source: Source) returns (nr: int)
      requires Valid(arena) && source.Available?
      modifies readBuf, arena, arena.mem.Keys
      ensures Valid(arena) && fresh(arena.mem.Keys - old(arena.mem.Keys)) && nr == |Taken(source.bytes)|
      ensures readBuf.Bytes(arena.mem) == old(readBuf.Bytes(arena.mem)) + Taken(source.bytes)
    {
      ghost var mem := arena.mem;
      nr := AppendFromDescriptor(readBuf, arena, source, MIN_ONCE_READ);
      assert (if nr > 0 then source.bytes[..nr] else []) == Taken(source.bytes);
      forall id | id in sessions ensures Holds(sessions[id], held[id], arena.mem) {
        assert old(Holds(sessions[id], held[id], arena.mem));
        Isolation(sessions[id].refs, sessions[id].refOffset, mem, arena.mem);
      }
    }

    /** A read, and the inner loop after it. */
    method ReadOnce(arena: Arena, source: Source) returns (nr: int)
      requires Valid(arena) && Sized(CheckHeader) && active && source.Available?
      modifies this, readBuf, owner.Keys, arena, arena.mem.Keys
      ensures Valid(arena) && fresh(arena.mem.Keys - old(arena.mem.Keys))
      ensures nr == |Taken(source.bytes)|
      ensures State(arena.mem) == Feed(CheckHeader, old(State(arena.mem)), Taken(source.bytes))
    {
      nr := Append(arena, source);
      InnerLoop(arena);
    }

    /** One round of the outer loop. */
    method Handle(arena: Arena, e: Event) returns (eof: bool)
      requires Valid(arena) && Sized(CheckHeader) && active
      modifies this, readBuf, owner.Keys, arena, arena.mem.Keys
      ensures Valid(arena) && fresh(arena.mem.Keys - old(arena.mem.Keys))
      ensures State(arena.mem) == OneEvent(old(State(arena.mem)), e)
      ensures eof <==> e.Again? || !active
    {
      eof := false;
      match e {
        case Interrupted =>
        case Again =>
          eof := true;
        case Failed =>
          Close(arena);
          eof := true;
        case Data(bytes) =>
          var nr := ReadOnce(arena, Available(bytes));
          if nr == 0 {
            Close(arena);
          }
          eof := !active;
      }
    }

    /**
     * onRead: one event after another until there is nothing more to read. What it reads is fed to the reader chunk
     * by chunk; the end of the stream and read errors close the read side as well.
     */
    method OnRead(arena: Arena, events: seq<Event>)
      requires Valid(arena) && Sized(CheckHeader)
      modifies this, readBuf, owner.Keys, arena, arena.mem.Keys
      ensures Valid(arena) && State(arena.mem) == Events(old(State(arena.mem)), events)
    {
      var i, eof := 0, !active;
      ghost var target := Events(State(arena.mem), events);
      assert events[0..] == events;
      while !eof && i < |events|
        invariant 0 <= i <= |events| && Valid(arena) && fresh(arena.mem.Keys - old(arena.mem.Keys))
        invariant (if eof then State(arena.mem) else Events(State(arena.mem), events[i..])) == target
        invariant !eof ==> active
      {
        EventStep(State(arena.mem), events, i);
        eof := Handle(arena, events[i]);
        i := i + 1;
      }
    }
  }

  /** No two sessions share a buffer. */
  ghost predicate Separate(sessions: map<nat, IOBuffer>, owner: map<IOBuffer, nat>) {
    && (forall id :: id in sessions ==> sessions[id] in owner && owner[sessions[id]] == id)
    && (forall buf :: buf in owner ==> owner[buf] in sessions && sessions[owner[buf]] == buf)
  }

  /** What the sessions hold after a frame: the one it is for gets its bytes. */
  function Credit(held: map<nat, seq<byte>>, f: Frame): map<nat, seq<byte>> {
    if f.id in held then held[f.id := held[f.id] + f.bytes] else held
  }

  function CreditAll(held: map<nat, seq<byte>>, fs: seq<Frame>): map<nat, seq<byte>>
    decreases |fs|
  {
    if fs == [] then held else Credit(CreditAll(held, fs[..|fs| - 1]), fs[|fs| - 1])
  }

  lemma CreditNext(held: map<nat, seq<byte>>, fs: seq<Frame>, f: Frame)
    ensures CreditAll(held, fs + [f]) == Credit(CreditAll(held, fs), f)
  {
    assert (fs + [f])[..|fs|] == fs;
  }

  /** The frames for one request id. */
  function For(id: nat, fs: seq<Frame>): seq<Frame>
    decreases |fs|
  {
    if fs == [] then []
    else For(id, fs[..|fs| - 1]) + if fs[|fs| - 1].id == id then [fs[|fs| - 1]] else []
  }

  /** Each session holds what it held and then the bytes of the frames for its request id, in order. */
  lemma {:induction false} SessionsGetTheirFrames(held: map<nat, seq<byte>>, fs: seq<Frame>, id: nat)
    ensures CreditAll(held, fs).Keys == held.Keys
    ensures id in held ==> CreditAll(held, fs)[id] == held[id] + Concat(For(id, fs))
    decreases |fs|
  {
    if fs != [] {
      var n := |fs| - 1;
      SessionsGetTheirFrames(held, fs[..n], id);
      var mine := For(id, fs[..n]);
      if fs[n].id == id {
        ConcatConcat(mine, [fs[n]]);
        assert [fs[n]][1..] == [] && Concat([fs[n]]) == fs[n].bytes;
        Associate(if id in held then held[id] else [], Concat(mine), fs[n].bytes);
      } else {
        assert mine + [] == mine;
      }
    }
  }

  ghost predicate Holds(buf: IOBuffer, bytes: seq<byte>, mem: Memory)
    reads buf
  {
    buf.Valid(mem) && buf.Bytes(mem) == bytes
  }

  /** What a read of the descriptor does: it is interrupted, would block, fails, or gives bytes; none at the end. */
  datatype Event = Interrupted | Again | Failed | Data(bytes: seq<byte>)

  /** One read takes at most 4096 bytes. */
  function Taken(bytes: seq<byte>): seq<byte> {
    bytes[..Min(|bytes|, MIN_ONCE_READ)]
  }

  /** What one event does to the read side. */
  ghost function OneEvent(r: Reader, e: Event): Reader
    requires Sized(CheckHeader)
  {
    match e
    case Interrupted => r
    case Again => r
    case Failed => r.(active := false)
    case Data(bytes) =>
      var r' := Feed(CheckHeader, r, Taken(bytes));
      if Taken(bytes) == [] then r'.(active := false) else r'
  }

  ghost function Events(r: Reader, events: seq<Event>): Reader
    requires Sized(CheckHeader)
    decreases |events|
  {
    if events == [] || !r.active then r
    else if events[0].Again? then r
    else Events(OneEvent(r, events[0]), events[1..])
  }

  lemma EventStep(r: Reader, events: seq<Event>, i: nat)
    requires Sized(CheckHeader) && i < |events| && r.active
    ensures var r' := OneEvent(r, events[i]);
            Events(r, events[i..]) == if events[i].Again? || !r'.active then r' else Events(r', events[i + 1..])
  {
    assert events[i..][0] == events[i] && events[i..][1..] == events[i + 1..];
  }

  /** The chunks that reach the buffer. */
  function Chunks(events: seq<Event>): seq<seq<byte>>
    decreases |events|
  {
    if events == [] || events[0].Again? || events[0].Failed? then []
    else if events[0].Interrupted? then Chunks(events[1..])
    else if Taken(events[0].bytes) == [] then [[]]
    else [Taken(events[0].bytes)] + Chunks(events[1..])
  }

  /** Whatever happens on the descriptor, the frames cut and the bytes left are those of feeding the chunks. */
  lemma {:induction false} EventsFeedChunks(r: Reader, events: seq<Event>)
    requires Sized(CheckHeader)
    ensures var r' := FeedAll(CheckHeader, r, Chunks(events));
            Events(r, events).frames == r'.frames && Events(r, events).pending == r'.pending
            && (Events(r, events).active ==> r'.active)
    decreases |events|
  {
    if !r.active {
      FeedStopped(CheckHeader, r, Chunks(events));
    } else if events != [] {
      match events[0] {
        case Interrupted => EventsFeedChunks(r, events[1..]);
        case Again =>
        case Failed =>
        case Data(bytes) =>
          var c := Taken(bytes);
          if c == [] {
            FeedAllFirst(CheckHeader, r, [], []);
            assert [c] + [] == [c];
          } else {
            FeedAllFirst(CheckHeader, r, c, Chunks(events[1..]));
            EventsFeedChunks(Feed(CheckHeader, r, c), events[1..]);
          }
      }
    }
  }

  /** The stream ends or a read fails, before there is nothing more to read. */
  function Breaks(events: seq<Event>): bool
    decreases |events|
  {
    if events == [] || events[0].Again? then false
    else events[0].Failed? || (events[0].Data? && events[0].bytes == []) || Breaks(events[1..])
  }

  /** The read side stays open exactly as long as no bad bytes, no failed read and no end of the stream are met. */
  lemma {:induction false} StaysOpen(r: Reader, events: seq<Event>)
    requires Sized(CheckHeader) && r.active
    ensures Events(r, events).active <==> FeedAll(CheckHeader, r, Chunks(events)).active && !Breaks(events)
    decreases |events|
  {
    if events != [] {
      match events[0] {
        case Interrupted => StaysOpen(r, events[1..]);
        case Again =>
        case Failed =>
        case Data(bytes) =>
          var c := Taken(bytes);
          if c == [] {
            FeedAllFirst(CheckHeader, r, [], []);
            assert [c] + [] == [c] && bytes == [];
          } else {
            var r' := Feed(CheckHeader, r, c);
            FeedAllFirst(CheckHeader, r, c, Chunks(events[1..]));
            if r'.active {
              StaysOpen(r', events[1..]);
            } else {
              FeedStopped(CheckHeader, r', Chunks(events[1..]));
            }
          }
      }
    }
  }

  // ---- Whole streams, as the descriptor gives them ----

  /** If the chunks read make up this stream, its frames are cut and its rest is kept. */
  ghost predicate Delivers(fs: seq<Frame>, t: seq<byte>, events: seq<Event>)
    requires Sized(CheckHeader)
  {
    Join(Chunks(events)) == Concat(fs) + t ==>
      var r := Events(START, events);
      r.frames == fs && r.pending == t
  }

  lemma {:induction false} ChunksBounded(events: seq<Event>)
    ensures forall i :: 0 <= i < |Chunks(events)| ==> |Chunks(events)[i]| <= MIN_ONCE_READ
    decreases |events|
  {
    if events != [] {
      ChunksBounded(events[1..]);
    }
  }

  /** Events that bring these chunks. */
  function Bring(chunks: seq<seq<byte>>): seq<Event>
    decreases |chunks|
  {
    if chunks == [] then [] else [Data(chunks[0])] + Bring(chunks[1..])
  }

  lemma {:induction false} BringChunks(chunks: seq<seq<byte>>)
    requires Within(chunks, MIN_ONCE_READ)
    ensures Chunks(Bring(chunks)) == chunks
    decreases |chunks|
  {
    if chunks != [] {
      assert Bring(chunks)[1..] == Bring(chunks[1..]);
      assert Taken(chunks[0]) == chunks[0] != [];
      BringChunks(chunks[1..]);
    }
  }

  lemma DeliversIfPaced(fs: seq<Frame>, t: seq<byte>, events: seq<Event>)
    requires AreFrames(fs) && IsPartial(t) && Sized(CheckHeader) && Stable(CheckHeader) && Prompt(CheckHeader)
    requires Paced(Cutting(fs, t, false), MIN_ONCE_READ)
    ensures Delivers(fs, t, events)
  {
    StreamIsCut(fs, t);
    ChunksBounded(events);
    PacedAgrees(CheckHeader, Concat(fs) + t, MIN_ONCE_READ, Chunks(events));
    ExactlyIsAgreeing(fs, t, Chunks(events));
    EventsFeedChunks(START, events);
  }

  lemma CutsIfDelivers(fs: seq<Frame>, t: seq<byte>, chunks: seq<seq<byte>>)
    requires AreFrames(fs) && IsPartial(t) && Sized(CheckHeader) && Stable(CheckHeader)
    requires Within(chunks, MIN_ONCE_READ) && Delivers(fs, t, Bring(chunks))
    ensures CutsExactly(fs, t, chunks)
  {
    BringChunks(chunks);
    EventsFeedChunks(START, Bring(chunks));
    if Join(chunks) == Concat(fs) + t {
      StreamIsCut(fs, t);
      assert [] + Join(chunks) == Join(chunks);
      StaysActive(CheckHeader, START, chunks);
    }
  }

  /**
   * Whatever the descriptor does while it gives a stream of Bolt frames: onRead cuts exactly these frames and keeps the
   * rest, if and only if the frames with request id 0 are paced for reads of 4096 bytes.
   */
  lemma StreamSurvivesReading(fs: seq<Frame>, t: seq<byte>)
    requires AreFrames(fs) && IsPartial(t)
    ensures Sized(CheckHeader)
    ensures (forall events :: Delivers(fs, t, events)) <==> Paced(Cutting(fs, t, false), 4096)
  {
    CheckHeaderIsProper();
    FramesSurviveReads(fs, t, MIN_ONCE_READ);
    if Paced(Cutting(fs, t, false), MIN_ONCE_READ) {
      forall events ensures Delivers(fs, t, events) {
        DeliversIfPaced(fs, t, events);
      }
    }
    if forall events :: Delivers(fs, t, events) {
      forall chunks | Within(chunks, MIN_ONCE_READ) ensures CutsExactly(fs, t, chunks) {
        CutsIfDelivers(fs, t, chunks);
      }
    }
  }
}
