/** The IOBuffer: a list of slices over shared blocks, refining one sequence of bytes. */
module IOBuffer {
  import opened Bytes
  import opened IOBlocks

  // ---- What the changes to a slice list do to its bytes ----

  lemma PieceLength(r: Slice, mem: Memory)
    requires Fits(r, mem)
    ensures |Piece(r, mem)| == r.length
  {
  }

  function Front(r: Slice, k: nat): Slice
    requires k <= r.length
  {
    r.(length := k)
  }

  function Rest(r: Slice, k: nat): Slice
    requires k <= r.length
  {
    r.(offset := r.offset + k, length := r.length - k)
  }

  lemma SplitPiece(r: Slice, k: nat, mem: Memory)
    requires Fits(r, mem) && k <= r.length
    ensures Fits(Front(r, k), mem) && Fits(Rest(r, k), mem)
    ensures Piece(r, mem) == Piece(Front(r, k), mem) + Piece(Rest(r, k), mem)
  {
    var m := mem[r.block];
    var o, l := r.offset, r.length;
    assert m[o..o + l] == m[o..o + k] + m[o + k..o + l];
  }

  lemma CutFront(f: seq<byte>, t: seq<byte>)
    ensures (f + t)[|f|..] == t && (f + t)[..|f|] == f
  {
  }

  lemma CutBack(f: seq<byte>, t: seq<byte>)
    ensures (f + t)[..|f + t| - |t|] == f
  {
  }

  /** Stepping over a slice drops its bytes. */
  lemma StepOver(refs: seq<Slice>, i: nat, mem: Memory)
    requires InRange(refs, mem) && i < |refs|
    ensures refs[i].length <= |Denote(refs, i, mem)|
    ensures Denote(refs, i + 1, mem) == Denote(refs, i, mem)[refs[i].length..]
    ensures Denote(refs, i, mem)[..refs[i].length] == Piece(refs[i], mem)
  {
    PieceLength(refs[i], mem);
    CutFront(Piece(refs[i], mem), Denote(refs, i + 1, mem));
  }

  /** Moving the start of a slice drops bytes in front. */
  lemma TrimFirst(refs: seq<Slice>, i: nat, k: nat, mem: Memory)
    requires InRange(refs, mem) && i < |refs| && k <= refs[i].length
    ensures var refs' := refs[i := Rest(refs[i], k)];
            && InRange(refs', mem) && k <= |Denote(refs, i, mem)|
            && Denote(refs', i, mem) == Denote(refs, i, mem)[k..]
    ensures Fits(Front(refs[i], k), mem)
    ensures Denote(refs, i, mem)[..k] == Piece(Front(refs[i], k), mem)
  {
    var refs' := refs[i := Rest(refs[i], k)];
    SplitPiece(refs[i], k, mem);
    PieceLength(Front(refs[i], k), mem);
    assert refs'[i + 1..] == refs[i + 1..];
    DenoteLocal(refs, i + 1, refs', i + 1, mem);
    var f, r, t := Piece(Front(refs[i], k), mem), Piece(Rest(refs[i], k), mem), Denote(refs, i + 1, mem);
    assert f + r + t == f + (r + t);
    CutFront(f, r + t);
  }

  /** The bytes of the live slices end with those of the last one. */
  lemma SplitLast(refs: seq<Slice>, i: nat, mem: Memory)
    requires InRange(refs, mem) && i < |refs|
    ensures var n := |refs| - 1;
            InRange(refs[..n], mem) && Denote(refs, i, mem) == Denote(refs[..n], i, mem) + Piece(refs[n], mem)
  {
    var n := |refs| - 1;
    assert refs == refs[..n] + [refs[n]];
    DenoteSnoc(refs[..n], i, refs[n], mem);
  }

  /** Dropping the last slice drops its bytes. */
  lemma DropLast(refs: seq<Slice>, i: nat, mem: Memory)
    requires InRange(refs, mem) && i < |refs|
    ensures var n := |refs| - 1;
            && InRange(refs[..n], mem) && refs[n].length <= |Denote(refs, i, mem)|
            && Denote(refs[..n], i, mem) == Denote(refs, i, mem)[..|Denote(refs, i, mem)| - refs[n].length]
  {
    var n := |refs| - 1;
    SplitLast(refs, i, mem);
    PieceLength(refs[n], mem);
    CutBack(Denote(refs[..n], i, mem), Piece(refs[n], mem));
  }

  /** Shortening the last slice drops bytes at the back. */
  lemma TrimLast(refs: seq<Slice>, i: nat, k: nat, mem: Memory)
    requires InRange(refs, mem) && i < |refs| && k <= refs[|refs| - 1].length
    ensures var r := refs[|refs| - 1];
            var refs' := refs[|refs| - 1 := Front(r, r.length - k)];
            && InRange(refs', mem) && k <= |Denote(refs, i, mem)|
            && Denote(refs', i, mem) == Denote(refs, i, mem)[..|Denote(refs, i, mem)| - k]
  {
    var n := |refs| - 1;
    var r := refs[n];
    var s, t := Front(r, r.length - k), Rest(r, r.length - k);
    SplitPiece(r, r.length - k, mem);
    ReplaceLast(refs[n := s], i, r, Piece(t, mem), mem);
    assert refs[n := s][n := r] == refs;
    PieceLength(t, mem);
    CutBack(Denote(refs[n := s], i, mem), Piece(t, mem));
  }

  lemma ReplaceLast(refs: seq<Slice>, i: nat, s: Slice, bytes: seq<byte>, mem: Memory)
    requires InRange(refs, mem) && i < |refs| && Fits(s, mem)
    requires Piece(s, mem) == Piece(refs[|refs| - 1], mem) + bytes
    ensures var refs' := refs[|refs| - 1 := s];
            InRange(refs', mem) && Denote(refs', i, mem) == Denote(refs, i, mem) + bytes
  {
    var n := |refs| - 1;
    var refs' := refs[n := s];
    SplitLast(refs, i, mem);
    assert refs'[..n] == refs[..n];
    SplitLast(refs', i, mem);
    var d, p := Denote(refs[..n], i, mem), Piece(refs[n], mem);
    assert d + (p + bytes) == d + p + bytes;
  }

  /** A new slice over what was just written adds those bytes. */
  lemma AddSlice(refs: seq<Slice>, i: nat, b: Block, bytes: seq<byte>, mem: Memory, mem': Memory)
    requires InRange(refs, mem) && i <= |refs| && b in mem && mem' == mem[b := mem[b] + bytes]
    ensures var refs' := refs + [Slice(b, |mem[b]|, |bytes|)];
            InRange(refs', mem') && Denote(refs', i, mem') == Denote(refs, i, mem) + bytes
    ensures Extends(mem, mem')
  {
    var r := Slice(b, |mem[b]|, |bytes|);
    assert Extends(mem, mem');
    Isolation(refs, i, mem, mem');
    assert Fits(r, mem') && Piece(r, mem') == bytes;
    DenoteSnoc(refs, i, r, mem');
  }

  /** Lengthening the last slice over what was just written behind it adds those bytes. */
  lemma GrowLast(refs: seq<Slice>, i: nat, bytes: seq<byte>, mem: Memory, mem': Memory)
    requires InRange(refs, mem) && i < |refs|
    requires var r := refs[|refs| - 1];
             r.offset + r.length == |mem[r.block]| && mem' == mem[r.block := mem[r.block] + bytes]
    ensures var r := refs[|refs| - 1];
            var refs' := refs[|refs| - 1 := r.(length := r.length + |bytes|)];
            InRange(refs', mem') && Denote(refs', i, mem') == Denote(refs, i, mem) + bytes
  {
    var r := refs[|refs| - 1];
    var s := r.(length := r.length + |bytes|);
    assert Extends(mem, mem');
    Isolation(refs, i, mem, mem');
    GrowPiece(r, bytes, mem, mem');
    ReplaceLast(refs, i, s, bytes, mem');
  }

  lemma GrowPiece(r: Slice, bytes: seq<byte>, mem: Memory, mem': Memory)
    requires Fits(r, mem) && r.offset + r.length == |mem[r.block]| && mem' == mem[r.block := mem[r.block] + bytes]
    ensures var s := r.(length := r.length + |bytes|);
            Fits(r, mem') && Fits(s, mem') && Piece(s, mem') == Piece(r, mem') + bytes
  {
    var s := r.(length := r.length + |bytes|);
    SplitPiece(s, r.length, mem');
    assert Front(s, r.length) == r;
    assert Piece(Rest(s, r.length), mem') == bytes;
  }

  /** Bytes written one run after another over the front of an array. */
  lemma Overlay(all: seq<byte>, was: seq<byte>, k: nat, size: nat)
    requires k + size <= |all| && k + size <= |was|
    ensures var now := all[..k] + was[k..];
            now[..k] + all[k..][..size] + now[k + size..] == all[..k + size] + was[k + size..]
  {
    var now := all[..k] + was[k..];
    assert now[..k] == all[..k];
    assert now[k + size..] == was[k + size..];
    assert all[..k] + all[k..][..size] == all[..k + size];
  }

  // ---- The class ----

  const DEFAULT_REFS: nat := 4

  class IOBuffer {
    var refs: seq<Slice>
    var refOffset: nat

    constructor ()
      ensures refs == [] && refOffset == 0
    {
      refs := [];
      refOffset := 0;
    }

    ghost predicate Valid(mem: Memory)
      reads this
    {
      refOffset <= |refs| && InRange(refs, mem)
    }

    ghost function Bytes(mem: Memory): seq<byte>
      requires Valid(mem)
      reads this
    {
      Denote(refs, refOffset, mem)
    }

    /** length */
    method Length(ghost mem: Memory) returns (n: nat)
      requires Valid(mem)
      ensures n == |Bytes(mem)|
    {
      n := 0;
      var i := refOffset;
      while i < |refs|
        invariant refOffset <= i <= |refs|
        invariant n + |Denote(refs, i, mem)| == |Bytes(mem)|
      {
        StepOver(refs, i, mem);
        n := n + refs[i].length;
        i := i + 1;
      }
    }

    /** tryReleaseBlock: the live slices move to the front of the vector, in place. */
    method TryReleaseBlock()
      requires refOffset <= |refs|
      modifies this
      ensures refOffset <= |refs| && refs[refOffset..] == old(refs[refOffset..])
      ensures refOffset <= DEFAULT_REFS
      ensures if old(refOffset) <= DEFAULT_REFS then refs == old(refs) && refOffset == old(refOffset)
              else refOffset == 0
    {
      if refOffset > DEFAULT_REFS {
        if |refs| == refOffset {
          refs := [];
          refOffset := 0;
          return;
        }
        ghost var was := refs;
        var to, i := 0, refOffset;
        while i < |refs|
          invariant 0 <= to && i == refOffset + to <= |refs| && refOffset == old(refOffset)
          invariant |refs| == |was| && forall k :: i <= k < |refs| ==> refs[k] == was[k]
          invariant forall k :: 0 <= k < to ==> refs[k] == was[refOffset + k]
        {
          refs := refs[to := refs[i]];
          to, i := to + 1, i + 1;
        }
        refs := refs[..to];
        refOffset := 0;
        assert refs[0..] == was[old(refOffset)..];
      }
    }

    /** Compaction leaves the denoted bytes unchanged. */
    method Compact(ghost mem: Memory)
      requires Valid(mem)
      modifies this
      ensures Valid(mem) && Bytes(mem) == old(Bytes(mem)) && refOffset <= DEFAULT_REFS
      ensures old(refOffset) <= DEFAULT_REFS ==> refs == old(refs) && refOffset == old(refOffset)
    {
      ghost var was, from := refs, refOffset;
      TryReleaseBlock();
      forall i | 0 <= i < |refs| ensures Fits(refs[i], mem) {
        if refs != was {
          assert refs[i] == was[from..][i];
        }
      }
      DenoteLocal(was, from, refs, refOffset, mem);
    }

    /** Move the start of the first slice, or step over it. */
    method Advance(size: nat, ghost mem: Memory)
      requires Valid(mem) && refOffset < |refs| && size <= refs[refOffset].length
      modifies this
      ensures Valid(mem) && size <= |old(Bytes(mem))| && Bytes(mem) == old(Bytes(mem))[size..]
      ensures |refs| == |old(refs)|
      ensures if size < old(refs[refOffset].length) then refOffset == old(refOffset)
              else refOffset == old(refOffset) + 1 && refs == old(refs)
    {
      if size < refs[refOffset].length {
        TrimFirst(refs, refOffset, size, mem);
        refs := refs[refOffset := Rest(refs[refOffset], size)];
      } else {
        StepOver(refs, refOffset, mem);
        refOffset := refOffset + 1;
      }
    }

    /** Of all the bytes, the first k' are gone instead of the first k. */
    method PopTo(k: nat, k': nat, ghost all: seq<byte>, ghost mem: Memory)
      requires Valid(mem) && k <= |all| && Bytes(mem) == all[k..]
      requires refOffset < |refs| && k <= k' <= k + refs[refOffset].length
      modifies this
      ensures Valid(mem) && k' <= |all| && Bytes(mem) == all[k'..] && |refs| == |old(refs)|
      ensures k' < k + old(refs[refOffset].length) || (refOffset == old(refOffset) + 1 && refs == old(refs))
    {
      Advance(k' - k, mem);
    }

    /** pop_front removes the first min(n, length) bytes. */
    method PopFront(n: nat, ghost mem: Memory) returns (k: nat)
      requires Valid(mem)
      modifies this
      ensures Valid(mem) && k == Min(n, |old(Bytes(mem))|)
      ensures Bytes(mem) == old(Bytes(mem))[k..]
      ensures old(|refs| == 1 && refOffset == 0 && 0 < refs[0].length <= n) ==> refs == old(refs) && refOffset == 1
    {
      k := 0;
      ghost var all, was := Bytes(mem), refs;
      ghost var single := |refs| == 1 && refOffset == 0 && 0 < refs[0].length <= n;
      while k < n
        invariant Valid(mem) && k <= n && k <= |all| && Bytes(mem) == all[k..]
        invariant single ==> refs == was && refOffset == if k > 0 then 1 else 0
        decreases n - k, |refs| - refOffset
      {
        if refOffset >= |refs| {
          break;
        }
        var k' := Min(n, k + refs[refOffset].length);
        PopTo(k, k', all, mem);
        k := k';
      }
      Compact(mem);
    }

    /** Shorten the last slice, or drop it. */
    method Retreat(size: nat, ghost mem: Memory)
      requires Valid(mem) && refOffset < |refs| && size <= refs[|refs| - 1].length
      modifies this
      ensures Valid(mem) && size <= |old(Bytes(mem))| && Bytes(mem) == old(Bytes(mem))[..|old(Bytes(mem))| - size]
      ensures |refs| == |old(refs)| - if size < old(refs[|refs| - 1].length) then 0 else 1
    {
      var i := |refs| - 1;
      if size < refs[i].length {
        TrimLast(refs, refOffset, size, mem);
        refs := refs[i := Front(refs[i], refs[i].length - size)];
      } else {
        DropLast(refs, refOffset, mem);
        refs := refs[..i];
      }
    }

    /** pop_back removes the last min(n, length) bytes. */
    method PopBack(n: nat, ghost mem: Memory) returns (k: nat)
      requires Valid(mem)
      modifies this
      ensures Valid(mem) && k == Min(n, |old(Bytes(mem))|)
      ensures Bytes(mem) == old(Bytes(mem))[..|old(Bytes(mem))| - k]
    {
      k := 0;
      ghost var all := Bytes(mem);
      while k < n
        invariant Valid(mem)
        invariant k <= n && k <= |all| && Bytes(mem) == all[..|all| - k]
        decreases n - k, |refs|
      {
        if |refs| <= refOffset {
          break;
        }
        var size := Min(n - k, refs[|refs| - 1].length);
        Retreat(size, mem);
        k := k + size;
      }
    }

    /** emplace_back of a slice. */
    method Push(r: Slice, ghost mem: Memory)
      requires Valid(mem) && Fits(r, mem)
      modifies this
      ensures refs == old(refs) + [r] && refOffset == old(refOffset) && Valid(mem)
      ensures Bytes(mem) == old(Bytes(mem)) + Piece(r, mem)
    {
      DenoteSnoc(refs, refOffset, r, mem);
      refs := refs + [r];
    }

    /** One round of cut: move the first slice, or its first `limit` bytes. */
    method MoveSlice(out: IOBuffer, limit: nat, ghost mem: Memory) returns (size: nat)
      requires Valid(mem) && out.Valid(mem) && out != this && refOffset < |refs| && limit > 0
      modifies this, out
      ensures Valid(mem) && out.Valid(mem) && size <= limit && size <= |old(Bytes(mem))|
      ensures out.Bytes(mem) == old(out.Bytes(mem)) + old(Bytes(mem))[..size]
      ensures Bytes(mem) == old(Bytes(mem))[size..]
      ensures |refs| == |old(refs)| && (size == limit || refOffset == old(refOffset) + 1)
      ensures size > 0 || refOffset == old(refOffset) + 1
    {
      var r := refs[refOffset];
      if limit < r.length {
        size := limit;
        TrimFirst(refs, refOffset, size, mem);
        out.Push(Front(r, size), mem);
        refs := refs[refOffset := Rest(r, size)];
      } else {
        size := r.length;
        StepOver(refs, refOffset, mem);
        out.Push(r, mem);
        refOffset := refOffset + 1;
      }
    }

    /** One round of cut: of all the bytes, the first k' have moved instead of the first k. */
    method CutRound(out: IOBuffer, n: nat, k: nat, ghost all: seq<byte>, ghost before: seq<byte>, ghost mem: Memory)
      returns (k': nat)
      requires Valid(mem) && out.Valid(mem) && out != this && refOffset < |refs| && k < n && k <= |all|
      requires Bytes(mem) == all[k..] && out.Bytes(mem) == before + all[..k]
      modifies this, out
      ensures Valid(mem) && out.Valid(mem) && k <= k' <= n && k' <= |all|
      ensures Bytes(mem) == all[k'..] && out.Bytes(mem) == before + all[..k']
      ensures |refs| == |old(refs)| && (k' == n || refOffset == old(refOffset) + 1)
      ensures k' > k || refOffset == old(refOffset) + 1
    {
      var size := MoveSlice(out, n - k, mem);
      k' := k + size;
      assert all[..k'] == all[..k] + all[k..][..size];
      Associate(before, all[..k], all[k..][..size]);
    }

    /** cut into another buffer moves the first min(n, length) bytes to its end. */
    method CutBuffer(out: IOBuffer, n: nat, ghost mem: Memory) returns (k: nat)
      requires Valid(mem) && out.Valid(mem) && out != this
      modifies this, out
      ensures Valid(mem) && out.Valid(mem) && k == Min(n, |old(Bytes(mem))|)
      ensures out.Bytes(mem) == old(out.Bytes(mem)) + old(Bytes(mem))[..k]
      ensures Bytes(mem) == old(Bytes(mem))[k..]
    {
      k := 0;
      ghost var all, before := Bytes(mem), out.Bytes(mem);
      while k < n
        invariant Valid(mem) && out.Valid(mem)
        invariant k <= n && k <= |all| && Bytes(mem) == all[k..]
        invariant out.Bytes(mem) == before + all[..k]
        decreases n - k, |refs| - refOffset
      {
        if refOffset >= |refs| {
          break;
        }
        k := CutRound(out, n, k, all, before, mem);
      }
      Compact(mem);
    }

    /** memmove of the first bytes of a slice to a place in the caller's array. */
    method CopySlice(arena: Arena, r: Slice, size: nat, out: array<byte>, at: nat)
      requires arena.Valid() && Fits(r, arena.mem) && size <= r.length
      requires at + size <= out.Length
      modifies out
      ensures arena.Valid() && arena.mem == old(arena.mem)
      ensures out[..] == old(out[..at]) + Piece(Front(r, size), arena.mem) + old(out[at + size..])
    {
      ghost var piece := Piece(Front(r, size), arena.mem);
      assert piece == r.block.data[r.offset..r.offset + size];
      forall i | 0 <= i < size {
        out[at + i] := r.block.data[r.offset + i];
      }
      assert out[..] == old(out[..at]) + piece + old(out[at + size..]);
    }

    /** One round of copy_to and of cut into memory: the bytes from the i-th slice on follow those copied so far. */
    method CopyRound(arena: Arena, i: nat, limit: nat, out: array<byte>, at: nat,
        ghost all: seq<byte>, ghost was: seq<byte>)
      returns (at': nat)
      requires arena.Valid() && Valid(arena.mem) && i < |refs| && at <= |all| && Denote(refs, i, arena.mem) == all[at..]
      requires at <= limit <= out.Length == |was| && out[..] == all[..at] + was[at..]
      modifies out
      ensures arena.Valid() && arena.mem == old(arena.mem) && Valid(arena.mem)
      ensures at' == Min(limit, at + refs[i].length) && at' <= |all|
      ensures out[..] == all[..at'] + was[at'..]
    {
      var size := Min(limit - at, refs[i].length);
      TrimFirst(refs, i, size, arena.mem);
      Overlay(all, was, at, size);
      CopySlice(arena, refs[i], size, out, at);
      at' := at + size;
    }

    /** copy_to returns the first min(n, length) bytes and leaves the buffer alone. */
    method CopyTo(arena: Arena, out: array<byte>, n: nat) returns (k: nat)
      requires arena.Valid() && Valid(arena.mem)
      requires n <= out.Length
      modifies out
      ensures arena.Valid() && arena.mem == old(arena.mem)
      ensures k == Min(n, |Bytes(arena.mem)|)
      ensures out[..] == Bytes(arena.mem)[..k] + old(out[k..])
    {
      ghost var mem := arena.mem;
      ghost var all, was := Bytes(mem), out[..];
      var i := refOffset;
      k := 0;
      while k < n
        invariant refOffset <= i <= |refs| && k <= n && k <= |all|
        invariant arena.Valid() && arena.mem == mem
        invariant k < n ==> Denote(refs, i, mem) == all[k..]
        invariant out[..] == all[..k] + was[k..]
        decreases n - k, |refs| - i
      {
        if i >= |refs| {
          break;
        }
        StepOver(refs, i, mem);
        var k' := CopyRound(arena, i, n, out, k, all, was);
        if k' == k + refs[i].length {
          i := i + 1;
        }
        k := k';
      }
    }

    /** cut into memory moves the first min(n, length) bytes there. */
    method CutArray(arena: Arena, out: array<byte>, n: nat) returns (k: nat)
      requires arena.Valid() && Valid(arena.mem)
      requires n <= out.Length
      modifies this, out
      ensures arena.Valid() && arena.mem == old(arena.mem) && Valid(arena.mem)
      ensures k == Min(n, |old(Bytes(arena.mem))|)
      ensures out[..] == old(Bytes(arena.mem))[..k] + old(out[k..])
      ensures Bytes(arena.mem) == old(Bytes(arena.mem))[k..]
    {
      ghost var mem := arena.mem;
      ghost var all, was := Bytes(mem), out[..];
      k := 0;
      while k < n
        invariant k <= n && k <= |all| && arena.Valid() && arena.mem == mem && Valid(mem)
        invariant Bytes(mem) == all[k..] && out[..] == all[..k] + was[k..]
        decreases n - k, |refs| - refOffset
      {
        if refOffset >= |refs| {
          break;
        }
        var k' := CopyRound(arena, refOffset, n, out, k, all, was);
        PopTo(k, k', all, mem);
        k := k';
      }
      Compact(mem);
    }

    /** cut into a string appends the first min(n, length) bytes to it. */
    method CutString(arena: Arena, out: seq<byte>, n: nat) returns (k: nat, out': seq<byte>)
      requires arena.Valid() && Valid(arena.mem)
      modifies this
      ensures arena.Valid() && arena.mem == old(arena.mem) && Valid(arena.mem)
      ensures k == Min(n, |old(Bytes(arena.mem))|)
      ensures out' == out + old(Bytes(arena.mem))[..k]
      ensures Bytes(arena.mem) == old(Bytes(arena.mem))[k..]
    {
      if n == 0 {
        return 0, out;
      }
      var length := Length(arena.mem);
      var size := Min(n, length);
      var room := new byte[size];
      k := CutArray(arena, room, size);
      out' := out + room[..];
    }

    /** emplace_back of a slice over bytes just written behind a block's used part. */
    method Refer(b: Block, at: nat, n: nat, ghost bytes: seq<byte>, ghost mem: Memory)
      requires Valid(mem) && b in mem && |mem[b]| == at && |bytes| == n
      modifies this
      ensures refs == old(refs) + [Slice(b, at, n)] && refOffset == old(refOffset)
      ensures var mem' := mem[b := mem[b] + bytes];
              && Valid(mem') && Extends(mem, mem')
              && Bytes(mem') == old(Bytes(mem)) + bytes
    {
      AddSlice(refs, refOffset, b, bytes, mem, mem[b := mem[b] + bytes]);
      refs := refs + [Slice(b, at, n)];
    }

    /** Refer to bytes just written behind a block's used part, joined to the last slice if adjacent. */
    method Attach(b: Block, at: nat, n: nat, ghost bytes: seq<byte>, ghost mem: Memory)
      requires Valid(mem) && b in mem && |mem[b]| == at && |bytes| == n
      modifies this
      ensures var mem' := mem[b := mem[b] + bytes];
              && Valid(mem')
              && Bytes(mem') == old(Bytes(mem)) + bytes
      ensures old(refs) == [] ==> refs == [Slice(b, at, n)] && refOffset == old(refOffset)
    {
      ghost var mem' := mem[b := mem[b] + bytes];
      if |refs| > refOffset && refs[|refs| - 1].block == b && refs[|refs| - 1].offset + refs[|refs| - 1].length == at {
        GrowLast(refs, refOffset, bytes, mem, mem');
        refs := refs[|refs| - 1 := refs[|refs| - 1].(length := refs[|refs| - 1].length + n)];
      } else {
        Refer(b, at, n, bytes, mem);
      }
    }

    /** The buffer got these bytes at its end, and no byte any other buffer refers to changed. */
    twostate predicate Appended(arena: Arena, data: seq<byte>)
      requires old(arena.Valid()) && old(Valid(arena.mem))
      reads this, arena, arena.mem.Keys
    {
      && Valid(arena.mem)
      && Bytes(arena.mem) == old(Bytes(arena.mem)) + data
      && Extends(old(arena.mem), arena.mem)
      && fresh(arena.mem.Keys - old(arena.mem.Keys))
    }

    /** Write as much as fits in the shared block; what the buffer refers to stays where it is. */
    method Place(arena: Arena, data: seq<byte>) returns (b: Block, at: nat, n: nat, ghost mem: Memory)
      requires arena.Valid() && Valid(arena.mem) && data != []
      modifies arena, arena.mem.Keys
      ensures arena.Valid() && 0 < n <= |data| && (b in old(arena.mem) || fresh(b))
      ensures Valid(mem) && b in mem && |mem[b]| == at && Bytes(mem) == old(Bytes(arena.mem))
      ensures mem == With(old(arena.mem), b) && arena.mem == mem[b := mem[b] + data[..n]]
      ensures Extends(old(arena.mem), arena.mem)
    {
      ghost var mem0 := arena.mem;
      b, at, n := arena.Store(data);
      mem := With(mem0, b);
      Isolation(refs, refOffset, mem0, mem);
      assert Extends(mem, arena.mem);
      ExtendsTransitive(mem0, mem, arena.mem);
    }

    /** One round of append: as much as fits in the shared block. */
    method AppendSome(arena: Arena, data: seq<byte>) returns (n: nat)
      requires arena.Valid() && Valid(arena.mem) && data != []
      modifies this, arena, arena.mem.Keys
      ensures arena.Valid() && 0 < n <= |data| && Appended(arena, data[..n])
      ensures old(refs) == [] ==> |refs| == 1 && refs[0].length == n && refOffset == old(refOffset)
    {
      var b, at;
      ghost var mem;
      b, at, n, mem := Place(arena, data);
      Attach(b, at, n, data[..n], mem);
    }

    /** These bytes, and the blocks only grew. */
    ghost predicate Grown(mem0: Memory, mem: Memory, bytes: seq<byte>)
      reads this
    {
      Extends(mem0, mem) && Valid(mem) && Bytes(mem) == bytes
    }

    /** One round of append, seen from the bytes appended so far. */
    method AppendRound(arena: Arena, data: seq<byte>, k: nat, ghost mem0: Memory, ghost before: seq<byte>)
      returns (k': nat)
      requires arena.Valid() && k < |data| && Grown(mem0, arena.mem, before + data[..k])
      modifies this, arena, arena.mem.Keys
      ensures arena.Valid() && k < k' <= |data| && Grown(mem0, arena.mem, before + data[..k'])
      ensures fresh(arena.mem.Keys - old(arena.mem.Keys))
    {
      ghost var mem1 := arena.mem;
      var n := AppendSome(arena, data[k..]);
      k' := k + n;
      ExtendsTransitive(mem0, mem1, arena.mem);
      assert data[..k'] == data[..k] + data[k..][..n];
      Associate(before, data[..k], data[k..][..n]);
    }

    /** append of bytes */
    method Append(arena: Arena, data: seq<byte>)
      requires arena.Valid() && Valid(arena.mem)
      modifies this, arena, arena.mem.Keys
      ensures arena.Valid() && Appended(arena, data)
    {
      ghost var mem0, before := arena.mem, Bytes(arena.mem);
      var k := 0;
      while k < |data|
        invariant 0 <= k <= |data| && arena.Valid() && Grown(mem0, arena.mem, before + data[..k])
        invariant fresh(arena.mem.Keys - mem0.Keys)
      {
        k := AppendRound(arena, data, k, mem0, before);
      }
      assert data[..k] == data;
    }

    /** append of one character */
    method AppendChar(arena: Arena, c: byte)
      requires arena.Valid() && Valid(arena.mem)
      modifies this, arena, arena.mem.Keys
      ensures arena.Valid() && Appended(arena, [c])
      ensures old(refs) == [] ==> |refs| == 1 && refs[0].length == 1 && refOffset == old(refOffset)
    {
      var n := AppendSome(arena, [c]);
      assert [c][..n] == [c];
    }

    /** append of another buffer copies all its slices, the consumed ones too. */
    method AppendBuffer(other: IOBuffer, ghost mem: Memory)
      requires Valid(mem) && other.Valid(mem) && other != this
      modifies this
      ensures Valid(mem) && refs == old(refs) + other.refs && refOffset == old(refOffset)
      ensures Bytes(mem) == old(Bytes(mem)) + Denote(other.refs, 0, mem)
    {
      ghost var before := Bytes(mem);
      var i := 0;
      while i < |other.refs|
        invariant 0 <= i <= |other.refs| && Valid(mem) && refOffset == old(refOffset)
        invariant refs == old(refs) + other.refs[..i]
        invariant Bytes(mem) + Denote(other.refs, i, mem) == before + Denote(other.refs, 0, mem)
      {
        Push(other.refs[i], mem);
        i := i + 1;
      }
    }
  }

  ghost predicate AllEmpty(refs: seq<Slice>, i: nat, k: nat)
    requires k <= |refs|
  {
    forall j :: i <= j < k ==> refs[j].length == 0
  }

  /** All slices stand for the same bytes as the live ones exactly when every consumed slice is empty. */
  lemma {:induction false} ConsumedSlices(refs: seq<Slice>, i: nat, k: nat, mem: Memory)
    requires i <= k <= |refs| && InRange(refs, mem)
    ensures |Denote(refs, i, mem)| >= |Denote(refs, k, mem)|
    ensures Denote(refs, i, mem) == Denote(refs, k, mem) <==> AllEmpty(refs, i, k)
    decreases k - i
  {
    if i < k {
      ConsumedSlices(refs, i + 1, k, mem);
      PieceLength(refs[i], mem);
      EmptyInFront(Piece(refs[i], mem), Denote(refs, i + 1, mem), Denote(refs, k, mem));
      assert AllEmpty(refs, i, k) <==> refs[i].length == 0 && AllEmpty(refs, i + 1, k);
    }
  }

  lemma EmptyInFront(p: seq<byte>, d: seq<byte>, e: seq<byte>)
    requires |d| >= |e|
    ensures p + d == e <==> |p| == 0 && d == e
  {
    if |p| == 0 {
      assert p + d == d;
    }
  }

  /** append of a buffer is concatenation exactly when the appended buffer has no consumed byte left. */
  lemma AppendBufferConcatenates(refs: seq<Slice>, refOffset: nat, bytes: seq<byte>, mem: Memory)
    requires refOffset <= |refs| && InRange(refs, mem)
    ensures bytes + Denote(refs, 0, mem) == bytes + Denote(refs, refOffset, mem)
       <==> AllEmpty(refs, 0, refOffset)
  {
    ConsumedSlices(refs, 0, refOffset, mem);
    var a, b := Denote(refs, 0, mem), Denote(refs, refOffset, mem);
    if bytes + a == bytes + b {
      assert (bytes + a)[|bytes|..] == a && (bytes + b)[|bytes|..] == b;
    }
  }

  /** A byte appended and consumed again comes back when its buffer is appended to another. */
  method ConsumedByteComesBack(arena: Arena, x: byte) returns (a: IOBuffer, b: IOBuffer)
    requires arena.Valid()
    modifies arena, arena.mem.Keys
    ensures arena.Valid() && a.Valid(arena.mem) && b.Valid(arena.mem)
    ensures a.refOffset == 1 && |a.refs| == 1 && a.refs[0].length == 1
    ensures a.Bytes(arena.mem) == [] && b.Bytes(arena.mem) == [x]
  {
    a := new IOBuffer();
    a.AppendChar(arena, x);
    assert Denote(a.refs, 0, arena.mem) == [x];
    var k := a.PopFront(1, arena.mem);
    b := new IOBuffer();
    b.AppendBuffer(a, arena.mem);
  }
}
