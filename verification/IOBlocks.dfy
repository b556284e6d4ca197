/** Blocks of bytes, the thread-local chain that hands them out, and slices of them. */
module IOBlocks {
  import opened Bytes

  /** A block is allocated with 8192 bytes, 24 of them for its own fields. */
  const CAPACITY: nat := 8192 - 24

  /** The block's bytes lie inside it; those from `size` on are not in use yet. */
  class Block {
    var data: seq<byte>
    var size: nat
    var next: Block?

    constructor ()
      ensures |data| == CAPACITY && size == 0 && next == null
    {
      data := seq(CAPACITY, _ => 0);
      size := 0;
      next := null;
    }
  }

  // ---- Slices, on values ----

  datatype Slice = Slice(block: Block, offset: nat, length: nat)

  /** The used bytes of every block. */
  type Memory = map<Block, seq<byte>>

  /** The slice lies inside its block's used bytes. */
  ghost predicate Fits(r: Slice, mem: Memory) {
    r.block in mem && r.offset + r.length <= |mem[r.block]|
  }

  ghost predicate InRange(refs: seq<Slice>, mem: Memory) {
    forall i :: 0 <= i < |refs| ==> Fits(refs[i], mem)
  }

  /** The bytes one slice stands for. */
  ghost function Piece(r: Slice, mem: Memory): seq<byte>
    requires Fits(r, mem)
  {
    mem[r.block][r.offset..r.offset + r.length]
  }

  /** The bytes the slices from the i-th on stand for. */
  ghost function Denote(refs: seq<Slice>, i: nat, mem: Memory): (b: seq<byte>)
    requires i <= |refs| && InRange(refs, mem)
    decreases |refs| - i
  {
    if i == |refs| then [] else Piece(refs[i], mem) + Denote(refs, i + 1, mem)
  }

  /** Only the slices from the i-th on matter. */
  lemma {:induction false} DenoteLocal(refs: seq<Slice>, i: nat, refs': seq<Slice>, i': nat, mem: Memory)
    requires i <= |refs| && i' <= |refs'| && refs[i..] == refs'[i'..]
    requires InRange(refs, mem) && InRange(refs', mem)
    ensures Denote(refs, i, mem) == Denote(refs', i', mem)
    decreases |refs| - i
  {
    assert |refs[i..]| == |refs'[i'..]|;
    if i < |refs| {
      assert refs[i] == refs[i..][0] && refs'[i'] == refs'[i'..][0];
      assert refs[i..][1..] == refs[i + 1..] && refs'[i'..][1..] == refs'[i' + 1..];
      DenoteLocal(refs, i + 1, refs', i' + 1, mem);
    }
  }

  lemma {:induction false} DenoteSnoc(refs: seq<Slice>, i: nat, r: Slice, mem: Memory)
    requires i <= |refs| && InRange(refs, mem) && Fits(r, mem)
    ensures InRange(refs + [r], mem)
    ensures Denote(refs + [r], i, mem) == Denote(refs, i, mem) + Piece(r, mem)
    decreases |refs| - i
  {
    if i < |refs| {
      DenoteSnoc(refs, i + 1, r, mem);
    }
  }

  /** Blocks only grow at their ends. */
  ghost predicate Extends(mem: Memory, mem': Memory) {
    forall b :: b in mem ==> b in mem' && mem[b] <= mem'[b]
  }

  /** The memory once the block is known to it; a new block has no used bytes. */
  ghost function With(mem: Memory, b: Block): (mem': Memory)
    ensures b in mem' && Extends(mem, mem')
  {
    if b in mem then mem else mem[b := []]
  }

  lemma ExtendsTransitive(a: Memory, b: Memory, c: Memory)
    requires Extends(a, b) && Extends(b, c)
    ensures Extends(a, c)
  {
    forall x | x in a ensures x in c && a[x] <= c[x] {
      assert a[x] <= b[x] && b[x] <= c[x];
    }
  }

  lemma PieceKept(r: Slice, mem: Memory, mem': Memory)
    requires Fits(r, mem) && Extends(mem, mem')
    ensures Fits(r, mem') && Piece(r, mem') == Piece(r, mem)
  {
    var a, b := mem[r.block], mem'[r.block];
    assert a == b[..|a|];
  }

  /** Isolation: while blocks only grow at their ends, every slice list keeps its bytes. */
  lemma {:induction false} Isolation(refs: seq<Slice>, i: nat, mem: Memory, mem': Memory)
    requires i <= |refs| && InRange(refs, mem) && Extends(mem, mem')
    ensures InRange(refs, mem') && Denote(refs, i, mem') == Denote(refs, i, mem)
    decreases |refs| - i
  {
    forall k | 0 <= k < |refs| ensures Fits(refs[k], mem') {
      PieceKept(refs[k], mem, mem');
    }
    if i < |refs| {
      PieceKept(refs[i], mem, mem');
      Isolation(refs, i + 1, mem, mem');
    }
  }

  // ---- The thread-local chain ----

  class Arena {
    var head: Block?          // s_tls_block_chain
    ghost var mem: Memory     // every block handed out so far, with its used bytes

    ghost predicate Sound()
      reads this`mem, mem.Keys`size, mem.Keys`data
    {
      forall b :: b in mem ==> b.size <= CAPACITY == |b.data| && mem[b] == b.data[..b.size]
    }

    /** The chain holds at most one block. */
    ghost predicate Valid()
      reads this, mem.Keys
    {
      && Sound()
      && (head != null ==> head in mem && head.next == null)
    }

    constructor ()
      ensures Valid() && mem == map[] && head == null
    {
      head := null;
      mem := map[];
    }

    method CreateBlock() returns (b: Block)
      requires Valid()
      modifies this`mem
      ensures Valid() && fresh(b) && b.next == null
      ensures b !in old(mem) && mem == old(mem)[b := []]
    {
      b := new Block();
      mem := mem[b := []];
    }

    /** shareBlockFromTLSChain: the block at the head of the chain that has room, or a new one. */
    method ShareBlock() returns (b: Block)
      requires Valid()
      modifies this
      ensures Valid() && head == b && b in mem && b.size < CAPACITY
      ensures b in old(mem) || fresh(b)
      ensures mem == With(old(mem), b)
    {
      while head != null
        invariant Valid() && mem == old(mem)
        decreases if head == null then 0 else 1
      {
        if head.size < |head.data| {
          return head;
        }
        head := head.next;
      }
      head := CreateBlock();
      b := head;
    }

    /** acquireBlockFromTLSChain: take that block out of the chain, which is empty afterwards. */
    method AcquireBlock() returns (b: Block)
      requires Valid()
      modifies this, mem.Keys`next
      ensures Valid() && head == null && b in mem && b.size < CAPACITY && b.next == null
      ensures b in old(mem) || fresh(b)
      ensures b in old(mem) ==> b == old(head)
      ensures mem == With(old(mem), b)
      ensures forall c :: c in old(mem) && c != b ==> c.next == old(c.next)
    {
      while head != null
        invariant Valid() && mem == old(mem)
        invariant head != null ==> head == old(head)
        invariant forall c :: c in mem ==> c.next == old(c.next)
        decreases if head == null then 0 else 1
      {
        if head.size < |head.data| {
          b := head;
          head := b.next;
          b.next := null;
          return;
        }
        head := head.next;
      }
      b := CreateBlock();
    }

    /** releaseBlockToTLSChain */
    method ReleaseBlock(b: Block)
      requires Valid() && b in mem && head == null
      modifies this`head, b`next
      ensures Valid()
      ensures if b.size == CAPACITY then head == null && b.next == old(b.next) else head == b && b.next == null
    {
      if b.size < |b.data| {
        b.next := head;
        head := b;
      }
    }

    /** memmove to the end of a block's used part, and count the bytes. */
    method Write(b: Block, bytes: seq<byte>)
      requires Valid() && b in mem && b.size + |bytes| <= CAPACITY
      modifies b`size, b`data, this`mem
      ensures Valid() && mem == old(mem)[b := old(mem)[b] + bytes]
    {
      b.data := b.data[..b.size] + bytes + b.data[b.size + |bytes|..];
      assert b.data[..b.size + |bytes|] == mem[b] + bytes;
      b.size := b.size + |bytes|;
      mem := mem[b := mem[b] + bytes];
    }

    /** As many of the bytes as the shared block has room for, written there. */
    method Store(data: seq<byte>) returns (b: Block, at: nat, n: nat)
      requires Valid() && data != []
      modifies this, mem.Keys
      ensures Valid() && 0 < n <= |data| && (n == |data| || at + n == CAPACITY)
      ensures b in old(mem) || fresh(b)
      ensures var was := With(old(mem), b);
              |was[b]| == at && mem == was[b := was[b] + data[..n]]
    {
      b := ShareBlock();
      at := b.size;
      n := if |data| < CAPACITY - b.size then |data| else CAPACITY - b.size;
      Write(b, data[..n]);
    }

    /** Count bytes that already lie behind a block's used part. */
    method Publish(b: Block, n: nat)
      requires Valid() && b in mem && b.size + n <= CAPACITY
      modifies b`size, this`mem
      ensures Valid() && mem == old(mem)[b := old(mem)[b] + b.data[old(b.size)..old(b.size) + n]]
    {
      assert b.data[..b.size + n] == b.data[..b.size] + b.data[b.size..b.size + n];
      mem := mem[b := mem[b] + b.data[b.size..b.size + n]];
      b.size := b.size + n;
    }

    /** Give back the last bytes of a block's used part. */
    method Retract(b: Block, n: nat)
      requires Valid() && b in mem && n <= b.size
      modifies b`size, this`mem
      ensures Valid() && mem == old(mem)[b := old(mem)[b][..old(b.size) - n]]
    {
      assert b.data[..b.size][..b.size - n] == b.data[..b.size - n];
      b.size := b.size - n;
      mem := mem[b := mem[b][..b.size]];
    }

    /** Bytes written at a place inside a block's used part. */
    method Overwrite(b: Block, at: nat, bytes: seq<byte>)
      requires Valid() && b in mem && at + |bytes| <= b.size
      modifies b`data, this`mem
      ensures Valid()
      ensures mem == old(mem)[b := old(mem)[b][..at] + bytes + old(mem)[b][at + |bytes|..]]
    {
      ghost var now := mem[b][..at] + bytes + mem[b][at + |bytes|..];
      b.data := b.data[..at] + bytes + b.data[at + |bytes|..];
      assert b.data[..b.size] == now;
      mem := mem[b := now];
    }
  }
}
