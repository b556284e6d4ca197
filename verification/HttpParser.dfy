/** http_parser_execute in the body phase: bulk copies, marks and early exits. */
module HttpParser {
  import opened Bytes
  import opened HttpBody

  /** The delimiter after a chunk's data was wrong; bytes marked in that call are not handed over. */
  predicate LostDelimiter(c: Core) { c.status == ChunkDataAlmostDone && c.errno == Strict }

  /** Bookkeeping for n bytes of the body at once. */
  function PayloadRun(c: Core, n: nat): Core
    requires IsPayload(c) && (c.status != BodyIdentityEof ==> 0 < n <= c.length)
  {
    match c.status
    case BodyIdentity => if c.length == n then Complete(c.(length := 0)) else c.(length := c.length - n)
    case ChunkData =>
      c.(length := c.length - n, got := c.got + n, status := if c.length == n then ChunkDataAlmostDone else ChunkData)
    case _ => c
  }

  /** What one call with non-empty data leaves behind, in terms of the byte-at-a-time reference: at a
      wrong chunk delimiter the chunk bytes of this call are dropped, otherwise nothing differs. The
      call stops at the first byte that is an error. */
  ghost predicate Refines(now: Parser, was: Parser, data: seq<byte>, consumed: nat) {
    var r := Feed(was, data);
    && consumed <= |data|
    && Matches(now, r, if was.c.errno == Fine then consumed else 0)
    && (r.c.errno == Fine ==> consumed == |data|)
    && (was.c.errno != Fine ==> consumed == 0)
    && (was.c.errno == Fine && r.c.errno != Fine ==>
        && consumed < |data|
        && Feed(was, data[..consumed]).c.errno == Fine && Feed(was, data[..consumed + 1]).c.errno != Fine)
  }

  /** Same fields, and the same body but for the bytes lost at a wrong chunk delimiter. */
  ghost predicate Matches(now: Parser, r: Parser, consumed: nat) {
    && now.c == r.c
    && now.body <= r.body
    && |r.body| - |now.body| == if LostDelimiter(r.c) then Min(r.c.got, consumed) else 0
  }

  class HttpParser {
    const head: Head
    var status: Status
    var length: nat
    var nread: nat
    var trailing: bool
    var errno: Errno
    var body: seq<byte>
    var completed: nat
    ghost var got: nat

    constructor (p: Parser)
      ensures Value() == p
    {
      head := p.c.head;
      status, length, nread, trailing, errno := p.c.status, p.c.length, p.c.nread, p.c.trailing, p.c.errno;
      body, completed, got := p.body, p.c.completed, p.c.got;
    }

    ghost function Fields(): Core
      reads this
    {
      Core(head, status, length, nread, trailing, errno, completed, got)
    }

    ghost function Value(): Parser
      reads this
    {
      Parser(Fields(), body)
    }

    /** http_message_needs_eof */
    method MessageNeedsEof() returns (b: bool)
      ensures b == NeedsEof(Fields())
    {
      b := !head.request
        && !(head.statusCode / 100 == 1 || head.statusCode == 204 || head.statusCode == 304 || head.skipBody)
        && !head.chunked && length == ULLONG_MAX;
    }

    /** NEW_MESSAGE and the message-complete callback. */
    method Finish()
      modifies this
      ensures Fields() == Complete(old(Fields())) && body == old(body)
    {
      var needsEof := MessageNeedsEof();
      var alive := if head.major > 0 && head.minor > 0 then !head.close else head.keepAlive;
      status := if alive && !needsEof then NewMessage else Dead;
      completed := completed + 1;
    }

    method FinishHeaders()
      modifies this
      ensures Fields() == HeadersDone(old(Fields())) && body == old(body)
    {
      var needsEof := MessageNeedsEof();
      nread := 0;
      if head.skipBody {
        Finish();
      } else if head.chunked {
        status := ChunkSizeStart;
      } else if length == 0 {
        Finish();
      } else if length != ULLONG_MAX {
        status := BodyIdentity;
      } else if needsEof {
        status := BodyIdentityEof;
      } else {
        Finish();
      }
    }

    /** The states that look at one byte. */
    method Dispatch(ch: byte)
      modifies this
      ensures Fields() == Control(old(Fields()), ch) && body == old(body)
    {
      match status {
        case HeadersAlmostDone =>
          if ch != LF { errno := Strict; }
          else if trailing { Finish(); }
          else if head.chunked && head.lengthGiven { errno := UnexpectedContentLength; }
          else { FinishHeaders(); }
        case ChunkSizeStart =>
          if Unhex(ch) == -1 { errno := InvalidChunkSize; }
          else { length := Unhex(ch); status := ChunkSize; }
        case ChunkSize =>
          if ch == CR { status := ChunkSizeAlmostDone; }
          else if Unhex(ch) == -1 {
            if ch == 59 || ch == 32 { status := ChunkParameters; } else { errno := InvalidChunkSize; }
          } else if (ULLONG_MAX - 16) / 16 < length { errno := InvalidContentLength; }
          else { length := 16 * length + Unhex(ch); }
        case ChunkParameters =>
          if ch == CR { status := ChunkSizeAlmostDone; }
        case ChunkSizeAlmostDone =>
          if ch != LF { errno := Strict; }
          else {
            nread := 0;
            if length == 0 { trailing := true; status := TrailerStart; }
            else { status := ChunkData; got := 0; }
          }
        case ChunkDataAlmostDone =>
          if ch != CR { errno := Strict; } else { status := ChunkDataDone; }
        case ChunkDataDone =>
          if ch != LF { errno := Strict; } else { nread := 0; status := ChunkSizeStart; }
        case TrailerStart =>
          if ch == CR { status := HeadersAlmostDone; }
          else if ch == LF { status := HeadersAlmostDone; Finish(); }
          else { status := Beyond; }
        case Dead =>
          if ch != CR && ch != LF { errno := ClosedConnection; }
        case _ =>
      }
    }

    /** One byte outside the bulk states, counted if it belongs to a header. */
    method Single(ch: byte)
      requires errno == Fine && !Copies(status)
      modifies this
      ensures Fields() == CoreByte(old(Fields()), ch) && body == old(body)
    {
      if CountsAsHeader(status) {
        nread := nread + 1;
        if nread > MAX_HEADER_SIZE {
          errno := HeaderOverflow;
          return;
        }
      }
      Dispatch(ch);
    }

    /** The body callback for the marked bytes. */
    method HandOver(bytes: seq<byte>)
      modifies this`body
      ensures body == old(body) + bytes
    {
      body := body + bytes;
    }

    /** s_body_identity and s_chunk_data: take as much as there is, at most what is due. The message
        is completed by the caller, after the body callback. */
    method Bulk(available: nat) returns (run: nat)
      requires Sane(Fields()) && errno == Fine && (status == BodyIdentity || status == ChunkData) && available > 0
      modifies this
      ensures run == Min(old(length), available) && body == old(body)
      ensures length == old(length) - run
      ensures PayloadRun(old(Fields()), run) ==
              if status == BodyIdentity && length == 0 then Complete(Fields()) else Fields()
      ensures status == BodyIdentity <==> old(status) == BodyIdentity
    {
      run := if length < available then length else available;
      length := length - run;
      if status == ChunkData {
        got := got + run;
        if length == 0 {
          status := ChunkDataAlmostDone;
        }
      }
    }

    /** One turn of the loop in a bulk state: mark the bytes that are there, and hand them over at
        once if they complete the message. */
    method CopyRun(ghost ref: Parser, data: seq<byte>, p: nat) returns (run: nat, marked: bool)
      requires p < |data| && InStep(Value(), ref, data, p, false, 0) && IsPayload(Fields())
      modifies this
      ensures 0 < run <= |data| - p && (ref.c.status != BodyIdentityEof ==> run <= ref.c.length)
      ensures InStep(Value(), RunOn(ref, data[p..p + run]), data, p + run, marked, p)
    {
      ghost var before := Value();
      marked := true;
      if status == BodyIdentityEof {
        run := |data| - p;
      } else {
        run := Bulk(|data| - p);
      }
      if status == BodyIdentity && length == 0 {
        HandOver(data[p..p + run]);
        marked := false;
        Finish();
      }
      AfterBulk(before, ref, data, p, run, Fields());
    }

    /** One turn of the loop in any other state; the byte after a chunk hands the chunk over. */
    method TakeByte(ghost ref: Parser, data: seq<byte>, p: nat, marked: bool, mark: nat) returns (ok: bool)
      requires mark <= p < |data| && InStep(Value(), ref, data, p, marked, mark) && !IsPayload(Fields())
      modifies this
      ensures ok <==> Byte(ref, data[p]).c.errno == Fine
      ensures ok ==> InStep(Value(), Byte(ref, data[p]), data, p + 1, false, mark)
      ensures !ok ==> Matches(Value(), Byte(ref, data[p]), p) && Sane(Fields())
    {
      ghost var before := Value();
      Single(data[p]);
      ok := errno == Fine;
      AfterSingle(before, ref, data, p, marked, mark, Fields());
      if ok && marked {
        HandOver(data[mark..p]);
      } else {
        assert !marked ==> body + [] == body;
      }
    }

    /** One turn of the loop of http_parser_execute. */
    method Turn(ghost trace: seq<Parser>, ghost was: Parser, data: seq<byte>, p: nat, marked: bool, mark: nat)
      returns (ok: bool, p': nat, marked': bool, mark': nat)
      requires IsTrace(trace, was, data) && mark <= p < |data| && InStep(Value(), trace[p], data, p, marked, mark)
      modifies this
      ensures ok ==> mark' <= p' <= |data| && p < p' && InStep(Value(), trace[p'], data, p', marked', mark')
      ensures !ok ==> p' == p && trace[p + 1].c.errno != Fine && Matches(Value(), trace[p + 1], p) && Sane(Fields())
    {
      if Copies(status) {
        var run;
        run, marked' := CopyRun(trace[p], data, p);
        TraceRun(trace, was, data, p, run);
        ok, p', mark' := true, p + run, p;
      } else {
        ok := TakeByte(trace[p], data, p, marked, mark);
        p', marked', mark' := if ok then p + 1 else p, false, mark;
      }
    }

    /** The loop of http_parser_execute, with the callback for leftover marks. */
    method Loop(ghost trace: seq<Parser>, ghost was: Parser, data: seq<byte>) returns (consumed: nat)
      requires IsTrace(trace, was, data) && InStep(Value(), was, data, 0, false, 0)
      modifies this
      ensures consumed <= |data| && Sane(Fields()) && Matches(Value(), trace[|data|], consumed)
      ensures trace[|data|].c.errno == Fine ==> consumed == |data|
      ensures trace[|data|].c.errno != Fine ==>
                consumed < |data| && trace[consumed].c.errno == Fine && trace[consumed + 1].c.errno != Fine
    {
      var p: nat, marked, mark: nat := 0, false, 0;
      while p < |data|
        invariant mark <= p <= |data| && InStep(Value(), trace[p], data, p, marked, mark)
      {
        var ok;
        ok, p, marked, mark := Turn(trace, was, data, p, marked, mark);
        if !ok {
          TraceStuck(trace, was, data, p + 1, |data|);
          return p;
        }
      }
      if marked {
        HandOver(data[mark..p]);
      } else {
        assert body + [] == body;
      }
      return |data|;
    }

    /** http_parser_execute; empty data means the connection is at its end. */
    method Execute(data: seq<byte>) returns (consumed: nat)
      requires Sane(Fields())
      modifies this
      ensures data != [] ==> Refines(Value(), old(Value()), data, consumed) && Sane(Fields())
      ensures data == [] ==> Fields() == AtEof(old(Fields())) && body == old(body)
    {
      if errno != Fine {
        FeedError(Value(), data);
        return 0;
      }
      if data == [] {
        if status == BodyIdentityEof {
          completed := completed + 1;
          return 0;
        } else if status == Dead || status == NewMessage {
          return 0;
        } else {
          errno := InvalidEofState;
          return 1;
        }
      }
      ghost var was := Value();
      ghost var trace := Trace(was, data);
      assert body + [] == body;
      consumed := Loop(trace, was, data);
      TraceIsFeed(trace, was, data, consumed);
      if consumed < |data| {
        TraceIsFeed(trace, was, data, consumed + 1);
      }
    }
  }

  /** The end of the connection completes a body that is read until then, and is an error anywhere
      else inside a message. */
  function AtEof(c: Core): Core {
    if c.errno != Fine || c.status == Dead || c.status == NewMessage then c
    else if c.status == BodyIdentityEof then c.(completed := c.completed + 1)
    else c.(errno := InvalidEofState)
  }

  /** The states single bytes lead through. */
  ghost predicate IsTrace(trace: seq<Parser>, was: Parser, data: seq<byte>) {
    && |trace| == |data| + 1 && trace[0] == was
    && forall i {:trigger data[i]} :: 0 <= i < |data| ==> trace[i + 1] == Byte(trace[i], data[i])
  }

  lemma {:induction false} Trace(was: Parser, data: seq<byte>) returns (trace: seq<Parser>)
    ensures IsTrace(trace, was, data) && trace[|data|] == Feed(was, data)
    decreases |data|
  {
    if data == [] {
      trace := [was];
    } else {
      var d := data[..|data| - 1];
      var t := Trace(was, d);
      trace := t + [Feed(was, data)];
      forall i | 0 <= i < |data| ensures trace[i + 1] == Byte(trace[i], data[i]) {
        if i < |d| {
          assert d[i] == data[i];
        }
      }
    }
  }

  lemma {:induction false} TraceIsFeed(trace: seq<Parser>, was: Parser, data: seq<byte>, k: nat)
    requires IsTrace(trace, was, data) && k <= |data|
    ensures trace[k] == Feed(was, data[..k])
    decreases k
  {
    if k > 0 {
      TraceIsFeed(trace, was, data, k - 1);
      assert trace[k - 1 + 1] == Byte(trace[k - 1], data[k - 1]);
      assert data[..k][..k - 1] == data[..k - 1];
    }
  }

  lemma {:induction false} TraceRun(trace: seq<Parser>, was: Parser, data: seq<byte>, p: nat, run: nat)
    requires IsTrace(trace, was, data) && 0 < run && p + run <= |data| && IsPayload(trace[p].c)
    requires trace[p].c.status != BodyIdentityEof ==> run <= trace[p].c.length
    ensures trace[p + run] == RunOn(trace[p], data[p..p + run])
    decreases run
  {
    if run == 1 {
      assert trace[p + 1] == Byte(trace[p], data[p]);
      assert data[p..p + 1] == [data[p]];
    } else {
      TraceRun(trace, was, data, p, run - 1);
      var d := data[p..p + run - 1];
      assert trace[p + run - 1 + 1] == Byte(trace[p + run - 1], data[p + run - 1]);
      assert data[p..p + run] == d + [data[p + run - 1]];
      assert trace[p].body + d + [data[p + run - 1]] == trace[p].body + data[p..p + run];
    }
  }

  lemma {:induction false} TraceStuck(trace: seq<Parser>, was: Parser, data: seq<byte>, p: nat, q: nat)
    requires IsTrace(trace, was, data) && p <= q <= |data| && trace[p].c.errno != Fine
    ensures trace[q] == trace[p]
    decreases q - p
  {
    if p < q {
      TraceStuck(trace, was, data, p, q - 1);
      assert trace[q - 1 + 1] == Byte(trace[q - 1], data[q - 1]);
    }
  }

  // ---- The loop of Execute, on values ----

  /** The marked bytes, still to be handed over. */
  function Pending(data: seq<byte>, marked: bool, mark: nat, p: nat): seq<byte>
    requires mark <= p <= |data|
  {
    if marked then data[mark..p] else []
  }

  /** Before each byte: the parser's fields, plus the marked bytes, are what single bytes would have
      produced (`ref`); marked bytes are the ones of the current chunk that came in this call. */
  ghost predicate InStep(now: Parser, ref: Parser, data: seq<byte>, p: nat, marked: bool, mark: nat)
    requires mark <= p <= |data|
  {
    && now.c.errno == Fine && Sane(now.c)
    && ref == Parser(now.c, now.body + Pending(data, marked, mark, p))
    && (marked ==> Copies(now.c.status) || now.c.status.ChunkDataAlmostDone?)
    && (marked && now.c.status != ChunkDataAlmostDone ==> p == |data|)
    && (now.c.status.ChunkData? || now.c.status.ChunkDataAlmostDone? ==>
          |Pending(data, marked, mark, p)| == Min(now.c.got, p))
  }

  /** The reference after a run of payload. */
  function RunOn(p: Parser, d: seq<byte>): Parser
    requires IsPayload(p.c) && d != [] && (p.c.status != BodyIdentityEof ==> |d| <= p.c.length)
  {
    Parser(PayloadRun(p.c, |d|), p.body + d)
  }

  lemma AfterBulk(now: Parser, ref: Parser, data: seq<byte>, p: nat, run: nat, c: Core)
    requires p < |data| && InStep(now, ref, data, p, false, 0) && IsPayload(now.c)
    requires run == if now.c.status == BodyIdentityEof then |data| - p else Min(now.c.length, |data| - p)
    requires c == PayloadRun(now.c, run)
    ensures if now.c.status == BodyIdentity && run == now.c.length
            then InStep(Parser(c, now.body + data[p..p + run]), RunOn(ref, data[p..p + run]), data, p + run, false, p)
            else InStep(Parser(c, now.body), RunOn(ref, data[p..p + run]), data, p + run, true, p)
  {
    assert now.body + [] == now.body;
    RunIsSane(now.c, run);
    var done := now.body + data[p..p + run];
    assert done + [] == done;
  }

  lemma RunIsSane(c: Core, n: nat)
    requires Sane(c) && IsPayload(c) && (c.status != BodyIdentityEof ==> 0 < n <= c.length)
    ensures Sane(PayloadRun(c, n)) && PayloadRun(c, n).errno == Fine
    ensures c.status == BodyIdentity && n == c.length ==>
              !Copies(PayloadRun(c, n).status) && !PayloadRun(c, n).status.ChunkDataAlmostDone?
    ensures PayloadRun(c, n).status.ChunkData? || PayloadRun(c, n).status.ChunkDataAlmostDone? ==>
              PayloadRun(c, n).got == c.got + n && c.status == ChunkData
    ensures PayloadRun(c, n).status == ChunkData ==> n < c.length
    ensures !(c.status == BodyIdentity && n == c.length) ==>
              PayloadRun(c, n).status == c.status || PayloadRun(c, n).status == ChunkDataAlmostDone
  {}

  lemma AfterSingle(now: Parser, ref: Parser, data: seq<byte>, p: nat, marked: bool, mark: nat, c: Core)
    requires mark <= p < |data| && InStep(now, ref, data, p, marked, mark) && !IsPayload(now.c)
    requires c == CoreByte(now.c, data[p])
    ensures Byte(ref, data[p]) == Parser(c, ref.body)
    ensures if c.errno != Fine then Matches(Parser(c, now.body), Byte(ref, data[p]), p) && Sane(c)
            else
              InStep(Parser(c, now.body + Pending(data, marked, mark, p)), Byte(ref, data[p]), data, p + 1, false, mark)
  {
    ControlGot(now.c, data[p]);
    ByteKeepsSane(now.c, data[p]);
    AfterStep(now, ref, data, p, marked, mark, c);
  }

  lemma AfterStep(now: Parser, ref: Parser, data: seq<byte>, p: nat, marked: bool, mark: nat, c: Core)
    requires mark <= p < |data| && InStep(now, ref, data, p, marked, mark) && Sane(c)
    requires !Copies(now.c.status) && Tidy(now.c, c)
    ensures if c.errno != Fine then Matches(Parser(c, now.body), Parser(c, ref.body), p)
            else InStep(Parser(c, ref.body), Parser(c, ref.body), data, p + 1, false, mark)
  {
    assert ref.body + [] == ref.body;
  }

  /** How a byte outside the body may change the count of chunk bytes. */
  predicate Tidy(c: Core, r: Core) {
    && r.got == (if r.status == ChunkData then 0 else c.got)
    && (r.status == ChunkDataAlmostDone ==> c.status == ChunkDataAlmostDone && r.errno != Fine)
    && (r.errno != Fine ==> r.status == c.status && (r.status == ChunkDataAlmostDone ==> r.errno == Strict))
  }

  lemma ControlGot(c: Core, ch: byte)
    requires Sane(c) && c.errno == Fine && !IsPayload(c)
    ensures Tidy(c, CoreByte(c, ch))
  {}

  // ---- Splitting the input ----

  function Concat(pieces: seq<seq<byte>>): seq<byte> {
    if pieces == [] then [] else Concat(pieces[..|pieces| - 1]) + pieces[|pieces| - 1]
  }

  /** One call per piece, each leaving what Execute promises. */
  ghost predicate Calls(states: seq<Parser>, pieces: seq<seq<byte>>, consumed: seq<nat>) {
    && |states| == |pieces| + 1 && |consumed| == |pieces|
    && forall i {:trigger pieces[i]} :: 0 <= i < |pieces| ==>
         pieces[i] != [] && Refines(states[i + 1], states[i], pieces[i], consumed[i])
  }

  /** However the input is cut into non-empty pieces, the parser ends in the same state as single
      bytes would leave it in, with the same body unless it stopped at a wrong chunk delimiter, where
      bytes of the broken chunk may be missing from the end. */
  lemma {:induction false} SplitIndependence(states: seq<Parser>, pieces: seq<seq<byte>>, consumed: seq<nat>)
    requires Calls(states, pieces, consumed)
    ensures var r := Feed(states[0], Concat(pieces));
            && states[|pieces|].c == r.c
            && states[|pieces|].body <= r.body
            && (!LostDelimiter(r.c) || states[0].c.errno != Fine ==> states[|pieces|].body == r.body)
    decreases |pieces|
  {
    if pieces != [] {
      var k := |pieces| - 1;
      var states', pieces', consumed' := states[..k + 1], pieces[..k], consumed[..k];
      assert forall i :: 0 <= i < k ==> pieces'[i] == pieces[i];
      SplitIndependence(states', pieces', consumed');
      SplitStep(states[0], states[k], states[k + 1], Concat(pieces'), pieces[k], consumed[k]);
    }
  }

  /** `f` and `now` after some pieces, `g` and `next` after one more; `r` is the reference from `now`. */
  lemma SplitValues(f: Parser, g: Parser, now: Parser, r: Parser, next: Parser, consumed: nat, fine: bool)
    requires now.c == f.c && now.body <= f.body && (!LostDelimiter(f.c) || !fine ==> now.body == f.body)
    requires now == f ==> r == g
    requires now.c.errno != Fine ==> r == now && g == f
    requires Matches(next, r, if now.c.errno == Fine then consumed else 0)
    requires !fine ==> now.c.errno != Fine
    ensures next.c == g.c && next.body <= g.body && (!LostDelimiter(g.c) || !fine ==> next.body == g.body)
  {}

  lemma SplitStep(first: Parser, now: Parser, next: Parser, before: seq<byte>, piece: seq<byte>, consumed: nat)
    requires Refines(next, now, piece, consumed)
    requires now.c == Feed(first, before).c && now.body <= Feed(first, before).body
    requires !LostDelimiter(now.c) || first.c.errno != Fine ==> now.body == Feed(first, before).body
    ensures var r := Feed(first, before + piece);
            && next.c == r.c && next.body <= r.body
            && (!LostDelimiter(r.c) || first.c.errno != Fine ==> next.body == r.body)
  {
    var f := Feed(first, before);
    FeedConcat(first, before, piece);
    StuckBoth(first, before, now, piece);
    SplitValues(f, Feed(f, piece), now, Feed(now, piece), next, consumed, first.c.errno == Fine);
  }

  lemma StuckBoth(first: Parser, before: seq<byte>, now: Parser, piece: seq<byte>)
    ensures first.c.errno != Fine ==> Feed(first, before) == first
    ensures now.c.errno != Fine ==> Feed(now, piece) == now
    ensures Feed(first, before).c.errno != Fine ==> Feed(Feed(first, before), piece) == Feed(first, before)
  {
    if first.c.errno != Fine { FeedError(first, before); }
    if now.c.errno != Fine { FeedError(now, piece); }
    if Feed(first, before).c.errno != Fine { FeedError(Feed(first, before), piece); }
  }
}
