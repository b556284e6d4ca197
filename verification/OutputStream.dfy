/** The zero-copy output stream: hand out a block's free space, take back what was not used. */
module OutputStream {
  import opened Bytes
  import opened IOBlocks
  import opened IOBuffer
  import opened Options

  class OutputStream {
    const buf: IOBuffer
    var byteCount: int

    constructor (buf: IOBuffer)
      ensures this.buf == buf && byteCount == 0
    {
      this.buf := buf;
      byteCount := 0;
    }

    /** Next: all the free space of the shared block, counted as used. */
    method Next(arena: Arena) returns (b: Block, at: nat, size: nat)
      requires arena.Valid() && buf.Valid(arena.mem)
      modifies this, buf, arena, arena.mem.Keys
      ensures arena.Valid() && size == CAPACITY - at > 0 && byteCount == old(byteCount) + size
      ensures |With(old(arena.mem), b)[b]| == at && |b.data| == at + size
      ensures arena.mem == Grown(old(arena.mem), b, b.data[at..at + size])
      ensures buf.refs == old(buf.refs) + [Slice(b, at, size)] && buf.refOffset == old(buf.refOffset)
      ensures b in old(arena.mem) || fresh(b)
    {
      b := arena.ShareBlock();
      at := b.size;
      size := CAPACITY - b.size;
      byteCount := byteCount + size;
      buf.refs := buf.refs + [Slice(b, b.size, size)];
      arena.Publish(b, size);
    }

    /** One round of BackUp: shorten the last slice, or drop it. */
    method GiveBack(arena: Arena, left: nat) returns (n: nat)
      requires arena.Valid() && left > 0 && buf.refs != [] && CanGive(buf.refs[|buf.refs| - 1], left, arena.mem)
      modifies this, buf, arena`mem, buf.refs[|buf.refs| - 1].block`size
      ensures arena.Valid() && byteCount == old(byteCount) - n && buf.refOffset == old(buf.refOffset)
      ensures n == Min(left, old(buf.refs[|buf.refs| - 1].length))
      ensures arena.mem == Shrunk(old(arena.mem), old(buf.refs[|buf.refs| - 1].block), n)
      ensures buf.refs == if n == old(buf.refs[|buf.refs| - 1].length) then old(buf.refs[..|buf.refs| - 1])
                          else Shorter(old(buf.refs), n)
    {
      var last := |buf.refs| - 1;
      var slice := buf.refs[last];
      if slice.length > left {
        n := left;
        buf.refs := buf.refs[last := Front(slice, slice.length - left)];
      } else {
        n := slice.length;
        buf.refs := buf.refs[..last];
      }
      byteCount := byteCount - n;
      arena.Retract(slice.block, n);
    }

    /** BackUp: the last bytes of the buffer go back to their blocks, slice by slice, unless a block has too few. */
    method BackUp(arena: Arena, count: nat)
      requires arena.Valid() && Back(buf.refs, arena.mem, count).Some?
      modifies this, buf, arena`mem, arena.mem.Keys`size
      ensures arena.Valid() && buf.refOffset == old(buf.refOffset)
      ensures var r := Back(old(buf.refs), old(arena.mem), count).value;
              buf.refs == r.refs && arena.mem == r.mem && byteCount == old(byteCount) - (count - r.left)
    {
      var left := count;
      ghost var target, keys := Back(buf.refs, arena.mem, count), arena.mem.Keys;
      while buf.refs != []
        invariant arena.Valid() && arena.mem.Keys == keys && buf.refOffset == old(buf.refOffset)
        invariant Back(buf.refs, arena.mem, left) == target && byteCount == old(byteCount) - (count - left)
        decreases left, |buf.refs|
      {
        if left == 0 {
          return;
        }
        var n := GiveBack(arena, left);
        left := left - n;
      }
    }

    /** BackUp as the stream's protocol has it: of the last slice only. */
    method BackUpWithin(arena: Arena, count: nat)
      requires arena.Valid() && buf.refs != [] && EndsBlock(buf.refs[|buf.refs| - 1], arena.mem)
      requires count <= buf.refs[|buf.refs| - 1].length
      modifies this, buf, arena`mem, arena.mem.Keys`size
      ensures arena.Valid() && byteCount == old(byteCount) - count && buf.refOffset == old(buf.refOffset)
      ensures arena.mem == Shortened(old(arena.mem), old(buf.refs[|buf.refs| - 1]), count)
      ensures buf.refs == Trimmed(old(buf.refs), count)
    {
      BackWithin(buf.refs, arena.mem, count);
      BackUp(arena, count);
    }

    /** Next, and a client that writes into the space. */
    method Fill(arena: Arena, bytes: seq<byte>) returns (b: Block, size: nat, k: nat, ghost rest: seq<byte>)
      requires arena.Valid() && buf.Valid(arena.mem)
      modifies this, buf, arena, arena.mem.Keys
      ensures arena.Valid() && k == Min(|bytes|, size) && size > 0 && byteCount == old(byteCount) + size
      ensures b in old(arena.mem) || fresh(b)
      ensures k + |rest| == size && arena.mem == Grown(old(arena.mem), b, bytes[..k] + rest)
      ensures buf.refs == old(buf.refs) + [Slice(b, |With(old(arena.mem), b)[b]|, size)]
      ensures buf.refOffset == old(buf.refOffset)
    {
      ghost var mem := arena.mem;
      var at;
      b, at, size := Next(arena);
      k := Min(|bytes|, size);
      ghost var mem1 := arena.mem;
      rest := mem1[b][at + k..];
      arena.Overwrite(b, at, bytes[..k]);
      assert mem1[b][..at] == With(mem, b)[b];
      assert With(mem, b)[b] + bytes[..k] + rest == With(mem, b)[b] + (bytes[..k] + rest);
    }

    /** BackUp after Fill leaves what was written. */
    method TakeBack(arena: Arena, count: nat, ghost refs: seq<Slice>, ghost b: Block, ghost bytes: seq<byte>,
        ghost rest: seq<byte>, ghost mem: Memory)
      requires arena.Valid() && count == |rest| && |bytes| + |rest| > 0 && arena.mem == Grown(mem, b, bytes + rest)
      requires buf.refs == refs + [Slice(b, |With(mem, b)[b]|, |bytes| + |rest|)]
      modifies this, buf, arena`mem, arena.mem.Keys`size
      ensures arena.Valid() && byteCount == old(byteCount) - count && buf.refOffset == old(buf.refOffset)
      ensures arena.mem == Grown(mem, b, bytes) && buf.refs == Listed(refs, b, bytes, mem)
    {
      NetEffect(refs, b, bytes, rest, mem);
      BackUpWithin(arena, count);
    }

    /** Fill, then BackUp what was not needed. */
    method UseSpace(arena: Arena, bytes: seq<byte>) returns (b: Block, k: nat)
      requires arena.Valid() && buf.Valid(arena.mem)
      modifies this, buf, arena, arena.mem.Keys
      ensures arena.Valid() && k <= |bytes| && (k == 0 ==> bytes == []) && byteCount == old(byteCount) + k
      ensures b in old(arena.mem) || fresh(b)
      ensures arena.mem == Grown(old(arena.mem), b, bytes[..k])
      ensures buf.refs == Listed(old(buf.refs), b, bytes[..k], old(arena.mem)) && buf.refOffset == old(buf.refOffset)
    {
      ghost var mem, refs := arena.mem, buf.refs;
      var size;
      ghost var rest;
      b, size, k, rest := Fill(arena, bytes);
      TakeBack(arena, size - k, refs, b, bytes[..k], rest, mem);
    }

    /** A client's use of the stream appends what it wrote, and changes no byte of any other buffer. */
    method WriteSome(arena: Arena, bytes: seq<byte>) returns (k: nat)
      requires arena.Valid() && buf.Valid(arena.mem)
      modifies this, buf, arena, arena.mem.Keys
      ensures arena.Valid() && k <= |bytes| && (k == 0 ==> bytes == []) && byteCount == old(byteCount) + k
      ensures buf.Appended(arena, bytes[..k])
    {
      ghost var mem, refs := arena.mem, buf.refs;
      var b;
      b, k := UseSpace(arena, bytes);
      Written(refs, buf.refOffset, b, bytes[..k], mem);
    }
  }

  /** The memory after bytes were written behind a block's used part. */
  ghost function Grown(mem: Memory, b: Block, bytes: seq<byte>): Memory {
    With(mem, b)[b := With(mem, b)[b] + bytes]
  }

  /** The slices after those bytes were added to the list. */
  ghost function Listed(refs: seq<Slice>, b: Block, bytes: seq<byte>, mem: Memory): seq<Slice> {
    if bytes == [] then refs else refs + [Slice(b, |With(mem, b)[b]|, |bytes|)]
  }

  /** Giving back the rest of the space leaves what was written. */
  lemma NetEffect(refs: seq<Slice>, b: Block, bytes: seq<byte>, rest: seq<byte>, mem: Memory)
    requires |bytes| + |rest| > 0
    ensures var r := Slice(b, |With(mem, b)[b]|, |bytes| + |rest|);
            && EndsBlock(r, Grown(mem, b, bytes + rest))
            && Shortened(Grown(mem, b, bytes + rest), r, |rest|) == Grown(mem, b, bytes)
            && Trimmed(refs + [r], |rest|) == Listed(refs, b, bytes, mem)
  {
    var used := With(mem, b)[b];
    assert (used + (bytes + rest))[..|used| + |bytes|] == used + bytes;
  }

  /** Whether or not a slice is left, the buffer's bytes are the old ones and the new ones. */
  lemma Written(refs: seq<Slice>, i: nat, b: Block, bytes: seq<byte>, mem: Memory)
    requires InRange(refs, mem) && i <= |refs|
    ensures var mem', refs' := Grown(mem, b, bytes), Listed(refs, b, bytes, mem);
            && Extends(mem, mem') && InRange(refs', mem')
            && Denote(refs', i, mem') == Denote(refs, i, mem) + bytes
  {
    var base := With(mem, b);
    Isolation(refs, i, mem, base);
    AddSlice(refs, i, b, bytes, base, Grown(mem, b, bytes));
    ExtendsTransitive(mem, base, Grown(mem, b, bytes));
    Isolation(refs, i, mem, Grown(mem, b, bytes));
  }

  /** The slice lies at the end of its block's used part. */
  ghost predicate EndsBlock(r: Slice, mem: Memory) {
    r.block in mem && r.offset + r.length == |mem[r.block]|
  }

  ghost function Shortened(mem: Memory, r: Slice, count: nat): Memory
    requires EndsBlock(r, mem) && count <= r.length
  {
    Shrunk(mem, r.block, count)
  }

  ghost function Trimmed(refs: seq<Slice>, count: nat): seq<Slice>
    requires refs != [] && count <= refs[|refs| - 1].length
  {
    if 0 < count == refs[|refs| - 1].length then refs[..|refs| - 1] else Shorter(refs, count)
  }

  // ---- Any number of bytes given back ----

  ghost function Shrunk(mem: Memory, b: Block, n: nat): Memory
    requires b in mem && n <= |mem[b]|
  {
    mem[b := mem[b][..|mem[b]| - n]]
  }

  function Shorter(refs: seq<Slice>, n: nat): seq<Slice>
    requires refs != [] && n <= refs[|refs| - 1].length
  {
    refs[|refs| - 1 := Front(refs[|refs| - 1], refs[|refs| - 1].length - n)]
  }

  /** The block's size stays a size when so much of the slice is given back. */
  ghost predicate CanGive(r: Slice, count: nat, mem: Memory) {
    r.block in mem && Min(count, r.length) <= |mem[r.block]|
  }

  /** What giving back leaves: slices, used bytes, and the part of the count there were no slices for. */
  datatype Backed = Backed(refs: seq<Slice>, mem: Memory, left: nat)

  /** Bytes given back from the last slice on; nothing if that takes more from a block than it has. */
  ghost function Back(refs: seq<Slice>, mem: Memory, count: nat): Option<Backed>
    decreases |refs|
  {
    if count == 0 || refs == [] then Some(Backed(refs, mem, count))
    else
      var r := refs[|refs| - 1];
      if !CanGive(r, count, mem) then None
      else if count < r.length then Some(Backed(Shorter(refs, count), Shrunk(mem, r.block, count), 0))
      else Back(refs[..|refs| - 1], Shrunk(mem, r.block, r.length), count - r.length)
  }

  lemma BackWithin(refs: seq<Slice>, mem: Memory, count: nat)
    requires refs != [] && EndsBlock(refs[|refs| - 1], mem) && count <= refs[|refs| - 1].length
    ensures Back(refs, mem, count) == Some(Backed(Trimmed(refs, count), Shortened(mem, refs[|refs| - 1], count), 0))
  {
    var r := refs[|refs| - 1];
    if count == 0 {
      assert Front(r, r.length) == r && refs[|refs| - 1 := r] == refs;
      assert mem[r.block][..|mem[r.block]|] == mem[r.block] && mem[r.block := mem[r.block]] == mem;
    }
  }

  /** The slices from the i-th on were handed out one after another, over memory that grew from `base`. */
  ghost predicate Stacked(refs: seq<Slice>, i: nat, mem: Memory, base: Memory)
    decreases |refs|
  {
    && i <= |refs|
    && if |refs| == i then Extends(base, mem)
       else
         var r := refs[|refs| - 1];
         EndsBlock(r, mem) && Stacked(refs[..|refs| - 1], i, Shrunk(mem, r.block, r.length), base)
  }

  lemma {:induction false} StackedWith(refs: seq<Slice>, i: nat, mem: Memory, base: Memory, b: Block)
    requires Stacked(refs, i, mem, base)
    ensures Stacked(refs, i, With(mem, b), base)
    decreases |refs|
  {
    if |refs| == i {
      ExtendsTransitive(base, mem, With(mem, b));
    } else {
      var r := refs[|refs| - 1];
      StackedWith(refs[..|refs| - 1], i, Shrunk(mem, r.block, r.length), base, b);
      ShrunkWith(mem, r, b);
    }
  }

  lemma ShrunkWith(mem: Memory, r: Slice, b: Block)
    requires EndsBlock(r, mem)
    ensures EndsBlock(r, With(mem, b))
    ensures Shrunk(With(mem, b), r.block, r.length) == With(Shrunk(mem, r.block, r.length), b)
  {
  }

  lemma StackOne(refs: seq<Slice>, i: nat, r: Slice, mem: Memory, base: Memory)
    requires EndsBlock(r, mem) && Stacked(refs, i, Shrunk(mem, r.block, r.length), base)
    ensures Stacked(refs + [r], i, mem, base)
  {
    assert (refs + [r])[..|refs|] == refs;
  }

  lemma GrownUndone(mem: Memory, b: Block, bytes: seq<byte>)
    ensures EndsBlock(Slice(b, |With(mem, b)[b]|, |bytes|), Grown(mem, b, bytes))
    ensures Shrunk(Grown(mem, b, bytes), b, |bytes|) == With(mem, b)
  {
    assert (With(mem, b)[b] + bytes)[..|With(mem, b)[b]|] == With(mem, b)[b];
  }

  /** Next stacks another slice. */
  lemma NextStacks(refs: seq<Slice>, i: nat, mem: Memory, base: Memory, b: Block, bytes: seq<byte>)
    requires Stacked(refs, i, mem, base)
    ensures Stacked(refs + [Slice(b, |With(mem, b)[b]|, |bytes|)], i, Grown(mem, b, bytes), base)
  {
    StackedWith(refs, i, mem, base, b);
    GrownUndone(mem, b, bytes);
    StackOne(refs, i, Slice(b, |With(mem, b)[b]|, |bytes|), Grown(mem, b, bytes), base);
  }

  lemma ShrunkExtends(mem: Memory, b: Block, m: nat, n: nat)
    requires b in mem && m <= n <= |mem[b]|
    ensures Extends(Shrunk(mem, b, n), Shrunk(mem, b, m)) && Extends(Shrunk(mem, b, m), mem)
  {
  }

  lemma {:induction false} StackedInRange(refs: seq<Slice>, i: nat, mem: Memory, base: Memory)
    requires Stacked(refs, i, mem, base) && InRange(refs[..i], base)
    ensures InRange(refs, mem) && Extends(base, mem)
    decreases |refs|
  {
    if |refs| == i {
      assert refs[..i] == refs;
      Isolation(refs, i, base, mem);
    } else {
      var n := |refs| - 1;
      var mem' := Shrunk(mem, refs[n].block, refs[n].length);
      assert refs[..n][..i] == refs[..i];
      StackedInRange(refs[..n], i, mem', base);
      ShrunkExtends(mem, refs[n].block, 0, refs[n].length);
      ExtendsTransitive(base, mem', mem);
      Isolation(refs[..n], n, mem', mem);
      assert refs == refs[..n] + [refs[n]];
    }
  }

  /** Part of the last slice given back. */
  lemma BackPart(refs: seq<Slice>, o: nat, mem: Memory, count: nat)
    requires o < |refs| && EndsBlock(refs[|refs| - 1], mem) && count <= refs[|refs| - 1].length && InRange(refs, mem)
    requires var r := refs[|refs| - 1]; InRange(refs[..|refs| - 1], Shrunk(mem, r.block, r.length))
    ensures var refs', mem' := Shorter(refs, count), Shrunk(mem, refs[|refs| - 1].block, count);
            && InRange(refs', mem') && Extends(mem', mem) && count <= |Denote(refs, o, mem)|
            && Denote(refs', o, mem') == Denote(refs, o, mem)[..|Denote(refs, o, mem)| - count]
  {
    var n := |refs| - 1;
    var r := refs[n];
    var refs', mem' := Shorter(refs, count), Shrunk(mem, r.block, count);
    TrimLast(refs, o, count, mem);
    ShrunkExtends(mem, r.block, count, r.length);
    Isolation(refs[..n], n, Shrunk(mem, r.block, r.length), mem');
    assert forall k :: 0 <= k < n ==> refs'[k] == refs[..n][k];
    Isolation(refs', o, mem', mem);
  }

  /** The whole last slice given back. */
  lemma BackWhole(refs: seq<Slice>, o: nat, mem: Memory)
    requires o < |refs| && EndsBlock(refs[|refs| - 1], mem) && InRange(refs, mem)
    requires var r := refs[|refs| - 1]; InRange(refs[..|refs| - 1], Shrunk(mem, r.block, r.length))
    ensures var n := |refs| - 1;
            var mem' := Shrunk(mem, refs[n].block, refs[n].length);
            && refs[n].length <= |Denote(refs, o, mem)|
            && Denote(refs[..n], o, mem') == Denote(refs, o, mem)[..|Denote(refs, o, mem)| - refs[n].length]
  {
    var r := refs[|refs| - 1];
    DropLast(refs, o, mem);
    ShrunkExtends(mem, r.block, 0, r.length);
    Isolation(refs[..|refs| - 1], o, Shrunk(mem, r.block, r.length), mem);
  }

  /** Exactly the last bytes are gone, and nothing from before the memory grew from `base`. */
  ghost predicate DropsLast(refs: seq<Slice>, o: nat, i: nat, mem: Memory, base: Memory, count: nat, r: Backed)
    requires InRange(refs, mem) && o <= i <= |refs|
  {
    && r.left == 0 && i <= |r.refs| && InRange(r.refs, r.mem) && Extends(base, r.mem)
    && count <= |Denote(refs, o, mem)|
    && Denote(r.refs, o, r.mem) == Denote(refs, o, mem)[..|Denote(refs, o, mem)| - count]
  }

  lemma DropsPart(refs: seq<Slice>, o: nat, i: nat, mem: Memory, base: Memory, count: nat) returns (r: Backed)
    requires o <= i < |refs| && EndsBlock(refs[|refs| - 1], mem) && InRange(refs, mem)
    requires var s := refs[|refs| - 1];
             var mem' := Shrunk(mem, s.block, s.length);
             InRange(refs[..|refs| - 1], mem') && Extends(base, mem') && 0 < count < s.length
    ensures Back(refs, mem, count) == Some(r) && DropsLast(refs, o, i, mem, base, count, r)
  {
    var s := refs[|refs| - 1];
    BackPart(refs, o, mem, count);
    ShrunkExtends(mem, s.block, count, s.length);
    ExtendsTransitive(base, Shrunk(mem, s.block, s.length), Shrunk(mem, s.block, count));
    r := Backed(Shorter(refs, count), Shrunk(mem, s.block, count), 0);
  }

  lemma DropsMore(refs: seq<Slice>, o: nat, i: nat, mem: Memory, base: Memory, count: nat, c: nat, r: Backed)
    requires o <= i < |refs| && EndsBlock(refs[|refs| - 1], mem) && InRange(refs, mem)
    requires count > 0 && c == count - refs[|refs| - 1].length
    requires var n := |refs| - 1;
             var mem' := Shrunk(mem, refs[n].block, refs[n].length);
             && InRange(refs[..n], mem') && Back(refs[..n], mem', c) == Some(r)
             && DropsLast(refs[..n], o, i, mem', base, c, r)
    ensures Back(refs, mem, count) == Some(r) && DropsLast(refs, o, i, mem, base, count, r)
  {
    BackWhole(refs, o, mem);
    TakeTwice(Denote(refs, o, mem), refs[|refs| - 1].length, count);
  }

  lemma TakeTwice(s: seq<byte>, a: nat, b: nat)
    requires a <= b <= |s|
    ensures |s[..|s| - a]| == |s| - a && s[..|s| - a][..|s| - a - (b - a)] == s[..|s| - b]
  {
  }

  /**
   * BackUp after any number of calls of Next: up to all the bytes they handed out, exactly the last ones go, and no
   * byte from before those calls does, of this buffer or of any other.
   */
  lemma {:induction false} BackDropsLast(refs: seq<Slice>, o: nat, i: nat, mem: Memory, base: Memory, count: nat)
    returns (r: Backed)
    requires Stacked(refs, i, mem, base) && InRange(refs[..i], base) && o <= i && InRange(refs, mem)
    requires count <= |Denote(refs, i, mem)|
    ensures Back(refs, mem, count) == Some(r) && DropsLast(refs, o, i, mem, base, count, r)
    decreases |refs|
  {
    if count == 0 {
      StackedInRange(refs, i, mem, base);
      r := Backed(refs, mem, 0);
    } else {
      StackedTop(refs, i, mem, base);
      var n := |refs| - 1;
      if count < refs[n].length {
        r := DropsPart(refs, o, i, mem, base, count);
      } else {
        BackWhole(refs, i, mem);
        var c := count - refs[n].length;
        r := BackDropsLast(refs[..n], o, i, Shrunk(mem, refs[n].block, refs[n].length), base, c);
        DropsMore(refs, o, i, mem, base, count, c, r);
      }
    }
  }

  /** What is under the last slice. */
  lemma StackedTop(refs: seq<Slice>, i: nat, mem: Memory, base: Memory)
    requires Stacked(refs, i, mem, base) && InRange(refs[..i], base) && i < |refs|
    ensures var n := |refs| - 1;
            && EndsBlock(refs[n], mem)
            && var mem' := Shrunk(mem, refs[n].block, refs[n].length);
               && Stacked(refs[..n], i, mem', base) && refs[..n][..i] == refs[..i]
               && InRange(refs[..n], mem') && Extends(base, mem')
  {
    var n := |refs| - 1;
    assert refs[..n][..i] == refs[..i];
    StackedInRange(refs[..n], i, Shrunk(mem, refs[n].block, refs[n].length), base);
  }
}
