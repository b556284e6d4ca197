/** Exactly when the body handed over does not depend on how the input is cut. */
module HttpSplitting {
  import opened Bytes
  import opened HttpBody
  import opened HttpParser

  predicate InChunk(c: Core) { c.status == ChunkData || c.status == ChunkDataAlmostDone }

  /** The byte at k is compared with a carriage return after a chunk's data, and is not one. */
  ghost predicate BreaksAt(p: Parser, data: seq<byte>, k: nat) {
    && k < |data|
    && Feed(p, data[..k]).c.status == ChunkDataAlmostDone && Feed(p, data[..k]).c.errno == Fine && data[k] != CR
  }

  // ---- What a wrong delimiter leaves ----

  lemma FeedNext(p: Parser, data: seq<byte>, k: nat)
    requires k < |data|
    ensures Feed(p, data[..k + 1]) == Byte(Feed(p, data[..k]), data[k])
  {
    assert data[..k + 1][..k] == data[..k];
  }

  lemma FeedRest(p: Parser, data: seq<byte>, k: nat)
    requires k <= |data| && Feed(p, data[..k]).c.errno != Fine
    ensures Feed(p, data) == Feed(p, data[..k])
  {
    assert data == data[..k] + data[k..];
    FeedConcat(p, data[..k], data[k..]);
    FeedError(Feed(p, data[..k]), data[k..]);
  }

  /** After a wrong delimiter nothing happens any more. */
  lemma Broken(p: Parser, data: seq<byte>, k: nat)
    requires BreaksAt(p, data, k)
    ensures Feed(p, data) == Parser(Feed(p, data[..k]).c.(errno := Strict), Feed(p, data[..k]).body)
    ensures Feed(p, data[..k + 1]).c.errno != Fine
  {
    FeedNext(p, data, k);
    FeedRest(p, data, k + 1);
  }

  /** The parser stops at a wrong delimiter only where there is one. */
  lemma {:induction false} FindBreak(p: Parser, data: seq<byte>) returns (k: nat)
    requires p.c.errno == Fine && LostDelimiter(Feed(p, data).c)
    ensures BreaksAt(p, data, k)
    decreases |data|
  {
    var d := data[..|data| - 1];
    var q := Feed(p, d);
    if q.c.errno != Fine {
      k := FindBreak(p, d);
      assert d[..k] == data[..k] && d[k] == data[k];
    } else {
      k := |data| - 1;
      StrictOnlyThere(q.c, data[k]);
    }
  }

  lemma StrictOnlyThere(c: Core, ch: byte)
    requires c.errno == Fine && LostDelimiter(CoreByte(c, ch))
    ensures c.status == ChunkDataAlmostDone && ch != CR
  {
  }

  /** A chunk state is entered with nothing, or continued by a byte of the body. */
  lemma EntersChunk(c: Core, ch: byte)
    requires Sane(c) && CoreByte(c, ch).errno == Fine && InChunk(CoreByte(c, ch))
    ensures c.errno == Fine
    ensures if IsPayload(c) then c.status == ChunkData && CoreByte(c, ch).got == c.got + 1
            else CoreByte(c, ch).got == 0 && CoreByte(c, ch).status == ChunkData
  {
  }

  /** The bytes of the current chunk that came with this data are in the body. */
  lemma {:induction false} ChunkBytesCounted(p: Parser, data: seq<byte>)
    requires Sane(p.c) && Feed(p, data).c.errno == Fine && InChunk(Feed(p, data).c)
    ensures |Feed(p, data).body| >= Min(Feed(p, data).c.got, |data|)
    ensures data != [] && Feed(p, data).c.status == ChunkDataAlmostDone ==> Feed(p, data).c.got > 0
    decreases |data|
  {
    if data != [] {
      var d, ch := data[..|data| - 1], data[|data| - 1];
      FeedKeepsSane(p, d);
      EntersChunk(Feed(p, d).c, ch);
      if IsPayload(Feed(p, d).c) {
        ChunkBytesCounted(p, d);
      }
    }
  }

  /** A single call that meets a wrong delimiter at k loses the bytes of that chunk it was given. */
  lemma SingleCall(p: Parser, data: seq<byte>, k: nat) returns (now: Parser)
    requires Sane(p.c) && p.c.errno == Fine && BreaksAt(p, data, k)
    ensures Refines(now, p, data, k)
    ensures |now.body| == |Feed(p, data).body| - Min(Feed(p, data).c.got, k)
    ensures k > 0 ==> now.body != Feed(p, data).body
  {
    Broken(p, data, k);
    ChunkBytesCounted(p, data[..k]);
    var r := Feed(p, data);
    now := Parser(r.c, r.body[..|r.body| - Min(r.c.got, k)]);
  }

  // ---- Every cut ----

  /** These calls, if they are calls on a cut of the data, hand over what single bytes do. */
  ghost predicate CutAgrees(p: Parser, data: seq<byte>, states: seq<Parser>, pieces: seq<seq<byte>>,
      consumed: seq<nat>)
  {
    Calls(states, pieces, consumed) && states[0] == p && Concat(pieces) == data ==>
      states[|pieces|].body == Feed(p, data).body
  }

  lemma OnePiece(p: Parser, data: seq<byte>, now: Parser, k: nat)
    requires data != [] && Refines(now, p, data, k)
    ensures Calls([p, now], [data], [k]) && Concat([data]) == data
  {
    var pieces := [data];
    assert pieces[..0] == [] && Concat(pieces) == Concat(pieces[..0]) + data;
  }

  lemma OneCall(p: Parser, data: seq<byte>, k: nat)
    requires Sane(p.c) && p.c.errno == Fine && BreaksAt(p, data, k) && k > 0
    ensures exists states, pieces, consumed :: !CutAgrees(p, data, states, pieces, consumed)
  {
    var now := SingleCall(p, data, k);
    OnePiece(p, data, now, k);
    assert !CutAgrees(p, data, [p, now], [data], [k]);
  }

  lemma {:induction false} ConcatFirst(pieces: seq<seq<byte>>)
    requires pieces != [] && pieces[0] != []
    ensures Concat(pieces) != [] && Concat(pieces)[0] == pieces[0][0]
    decreases |pieces|
  {
    if |pieces| == 1 {
      assert Concat(pieces) == Concat([]) + pieces[0];
    } else {
      ConcatFirst(pieces[..|pieces| - 1]);
    }
  }

  /** A call whose first byte is the wrong delimiter loses nothing. */
  lemma BreaksAtOnce(p: Parser, piece: seq<byte>, next: Parser, consumed: nat)
    requires p.c.errno == Fine && BreaksAt(p, piece, 0) && Refines(next, p, piece, consumed)
    ensures next.body == p.body && next.c.errno != Fine
  {
    Broken(p, piece, 0);
    assert piece[..0] == [];
    if consumed > 0 {
      assert piece[..consumed][..1] == piece[..1];
      FeedRest(p, piece[..consumed], 1);
    }
  }

  /** A call on a parser that has stopped changes nothing. */
  lemma StoppedCall(p: Parser, piece: seq<byte>, next: Parser, consumed: nat)
    requires p.c.errno != Fine && Refines(next, p, piece, consumed)
    ensures next == p
  {
    FeedError(p, piece);
  }

  lemma {:induction false} FirstByteBreaks(states: seq<Parser>, pieces: seq<seq<byte>>, consumed: seq<nat>, m: nat)
    requires Calls(states, pieces, consumed) && m < |pieces|
    requires states[0].c.errno == Fine && BreaksAt(states[0], pieces[0], 0)
    ensures states[m + 1].body == states[0].body && states[m + 1].c.errno != Fine
    decreases m
  {
    assert pieces[m] != [] && Refines(states[m + 1], states[m], pieces[m], consumed[m]);
    if m == 0 {
      BreaksAtOnce(states[0], pieces[0], states[1], consumed[0]);
    } else {
      FirstByteBreaks(states, pieces, consumed, m - 1);
      StoppedCall(states[m], pieces[m], states[m + 1], consumed[m]);
    }
  }

  lemma EveryCutAgrees(p: Parser, data: seq<byte>, states: seq<Parser>, pieces: seq<seq<byte>>, consumed: seq<nat>)
    requires p.c.errno == Fine && forall k | 0 < k < |data| :: !BreaksAt(p, data, k)
    ensures CutAgrees(p, data, states, pieces, consumed)
  {
    if Calls(states, pieces, consumed) && states[0] == p && Concat(pieces) == data {
      SplitIndependence(states, pieces, consumed);
      if LostDelimiter(Feed(p, data).c) {
        var k := FindBreak(p, data);
        assert pieces[0] != [] by {
          assert data != [] && pieces != [];
        }
        ConcatFirst(pieces);
        assert data[..0] == [] && pieces[0][..0] == [];
        FirstByteBreaks(states, pieces, consumed, |pieces| - 1);
        Broken(p, data, 0);
      }
    }
  }

  /** The body handed over is the same for every cut of the data into non-empty pieces, and then the one single bytes
      give, if and only if no byte but possibly the first is a wrong delimiter after a chunk's data. */
  lemma BodyIndependentOfCuts(p: Parser, data: seq<byte>)
    requires Sane(p.c) && p.c.errno == Fine
    ensures (forall states, pieces, consumed :: CutAgrees(p, data, states, pieces, consumed))
       <==> forall k | 0 < k < |data| :: !BreaksAt(p, data, k)
  {
    if k: nat :| 0 < k < |data| && BreaksAt(p, data, k) {
      OneCall(p, data, k);
    } else {
      forall states, pieces, consumed ensures CutAgrees(p, data, states, pieces, consumed) {
        EveryCutAgrees(p, data, states, pieces, consumed);
      }
    }
  }
}
