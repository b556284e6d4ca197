/** append_from_file_descriptor: scatter a read over acquired blocks, then refer to what arrived. */
module DescriptorAppend {
  import opened Bytes
  import opened IOBlocks
  import opened IOBuffer

  const MAX_APPEND_IOVEC: nat := 64

  /** One entry of the I/O vector: room in a block, for the bytes from `start` on. */
  datatype Entry = Entry(block: Block, base: nat, length: nat, start: nat)

  /** An entry lies at the start of its block's free space. */
  ghost predicate Fresh(e: Entry, mem: Memory) {
    && e.block in mem && e.base == |mem[e.block]| < CAPACITY && e.length <= CAPACITY - e.base
  }

  /** The entry takes all its block's free space. */
  ghost predicate Full(e: Entry) {
    e.base <= CAPACITY && e.length == CAPACITY - e.base
  }

  /** The entries from the j-th on are fresh. The ranks show that their blocks differ. */
  ghost predicate FreshFrom(vec: seq<Entry>, j: nat, rank: map<Block, nat>, mem: Memory) {
    forall i :: j <= i < |vec| ==> Fresh(vec[i], mem) && vec[i].block in rank && rank[vec[i].block] == i
  }

  /** An entry's block is linked to that of the next, which takes the bytes that follow. */
  ghost predicate Adjacent(vec: seq<Entry>, i: nat)
    requires i < |vec|
    reads vec[i].block`next
  {
    if i + 1 < |vec| then
      && vec[i].block.next == vec[i + 1].block
      && Full(vec[i]) && vec[i + 1].start == vec[i].start + vec[i].length
    else
      vec[i].block.next == null
  }

  /** The vector covers free space in order; only its last entry may stop short of it. */
  ghost predicate Chained(vec: seq<Entry>)
    reads set i | 0 <= i < |vec| :: vec[i].block
  {
    && vec != [] && vec[0].start == 0
    && (forall i :: 0 <= i < |vec| ==> Adjacent(vec, i))
  }

  ghost function Space(vec: seq<Entry>): nat
    requires vec != []
  {
    vec[|vec| - 1].start + vec[|vec| - 1].length
  }

  // ---- The first loop ----

  method FirstBlock(arena: Arena, want: nat) returns (vec: seq<Entry>, ghost rank: map<Block, nat>)
    requires arena.Valid()
    modifies arena, arena.mem.Keys`next
    ensures arena.Valid() && arena.head == null && |vec| == 1
    ensures vec[0].block in old(arena.mem) || fresh(vec[0].block)
    ensures arena.mem == With(old(arena.mem), vec[0].block)
    ensures vec[0].length <= want && (vec[0].length == want || Full(vec[0]))
    ensures FreshFrom(vec, 0, rank, arena.mem) && Chained(vec)
  {
    var b := arena.AcquireBlock();
    vec := [Entry(b, b.size, Min(CAPACITY - b.size, want), 0)];
    rank := map[b := 0];
  }

  /** Link the last block to that of a new entry. */
  method Link(arena: Arena, vec: seq<Entry>, ghost rank: map<Block, nat>, e: Entry)
    requires arena.Valid() && arena.head == null && e.block.next == null
    requires FreshFrom(vec + [e], 0, rank, arena.mem) && Chained(vec) && Full(vec[|vec| - 1]) && e.start == Space(vec)
    modifies vec[|vec| - 1].block`next
    ensures arena.Valid() && Chained(vec + [e])
  {
    ghost var vec' := vec + [e];
    assert forall i :: 0 <= i < |vec| ==> vec'[i] == vec[i] && rank[vec[i].block] == i;
    assert rank[vec'[|vec|].block] == |vec|;
    vec[|vec| - 1].block.next := e.block;
    forall i | 0 <= i < |vec'| ensures Adjacent(vec', i) {
      if i + 1 < |vec| {
        assert old(Adjacent(vec, i));
      }
    }
  }

  method NextBlock(arena: Arena, vec: seq<Entry>, ghost rank: map<Block, nat>, want: nat)
    returns (e: Entry, ghost rank': map<Block, nat>)
    requires arena.Valid() && arena.head == null
    requires FreshFrom(vec, 0, rank, arena.mem) && Chained(vec) && Full(vec[|vec| - 1])
    modifies arena, arena.mem.Keys`next
    ensures arena.Valid() && arena.head == null && fresh(e.block) && arena.mem == With(old(arena.mem), e.block)
    ensures e.length <= want && (e.length == want || e.length == CAPACITY) && e.start == Space(vec)
    ensures FreshFrom(vec + [e], 0, rank', arena.mem) && Chained(vec + [e])
  {
    var block := arena.AcquireBlock();
    assert block !in old(arena.mem);
    e := Entry(block, block.size, Min(CAPACITY - block.size, want), vec[|vec| - 1].start + vec[|vec| - 1].length);
    rank' := rank[block := |vec|];
    assert forall i :: 0 <= i < |vec| ==> Adjacent(vec, i);
    Link(arena, vec, rank', e);
  }

  /** Between two rounds of the first loop: the entries so far, and the room in them. */
  ghost predicate Gathered(arena: Arena, mem: Memory, vec: seq<Entry>, rank: map<Block, nat>, space: nat, maxSize: nat)
    reads arena`mem, set i | 0 <= i < |vec| :: vec[i].block
  {
    && FreshFrom(vec, 0, rank, arena.mem) && Chained(vec) && |vec| <= MAX_APPEND_IOVEC && Extends(mem, arena.mem)
    && space == Space(vec) <= maxSize
    && (space < maxSize ==> Full(vec[|vec| - 1]) && space > (|vec| - 1) * CAPACITY)
  }

  /** One round of the first loop. */
  method AddBlock(arena: Arena, vec: seq<Entry>, ghost rank: map<Block, nat>, space: nat, maxSize: nat,
      ghost mem: Memory)
    returns (vec': seq<Entry>, ghost rank': map<Block, nat>, space': nat)
    requires arena.Valid() && arena.head == null && Gathered(arena, mem, vec, rank, space, maxSize)
    requires space < maxSize && |vec| < MAX_APPEND_IOVEC
    modifies arena, arena.mem.Keys`next
    ensures arena.Valid() && arena.head == null && Gathered(arena, mem, vec', rank', space', maxSize)
    ensures |vec'| == |vec| + 1 && fresh(arena.mem.Keys - old(arena.mem.Keys))
  {
    ghost var mem1 := arena.mem;
    var e;
    e, rank' := NextBlock(arena, vec, rank, maxSize - space);
    ExtendsTransitive(mem, mem1, arena.mem);
    vec' := vec + [e];
    space' := space + e.length;
  }

  method MoreBlocks(arena: Arena, first: seq<Entry>, ghost rank0: map<Block, nat>, maxSize: nat)
    returns (vec: seq<Entry>, ghost rank: map<Block, nat>)
    requires arena.Valid() && arena.head == null && |first| == 1
    requires FreshFrom(first, 0, rank0, arena.mem) && Chained(first)
    requires first[0].length <= maxSize && (first[0].length == maxSize || Full(first[0]))
    modifies arena, arena.mem.Keys`next
    ensures arena.Valid() && arena.head == null && |vec| <= MAX_APPEND_IOVEC
    ensures FreshFrom(vec, 0, rank, arena.mem) && Chained(vec) && Space(vec) <= maxSize
    ensures Space(vec) == maxSize || Space(vec) > (MAX_APPEND_IOVEC - 1) * CAPACITY
    ensures Extends(old(arena.mem), arena.mem) && fresh(arena.mem.Keys - old(arena.mem.Keys))
  {
    ghost var mem := arena.mem;
    vec, rank := first, rank0;
    var space: nat := first[0].length;
    while space < maxSize && |vec| < MAX_APPEND_IOVEC
      invariant arena.Valid() && arena.head == null && Gathered(arena, mem, vec, rank, space, maxSize)
      invariant fresh(arena.mem.Keys - mem.Keys)
      decreases MAX_APPEND_IOVEC - |vec|
    {
      vec, rank, space := AddBlock(arena, vec, rank, space, maxSize, mem);
    }
  }

  /** Acquire blocks until there is room for maxSize bytes or the vector is full. */
  method AcquireVector(arena: Arena, maxSize: nat) returns (vec: seq<Entry>, ghost rank: map<Block, nat>)
    requires arena.Valid()
    modifies arena, arena.mem.Keys`next
    ensures arena.Valid() && arena.head == null && |vec| <= MAX_APPEND_IOVEC
    ensures FreshFrom(vec, 0, rank, arena.mem) && Chained(vec) && Space(vec) <= maxSize
    ensures Space(vec) == maxSize || Space(vec) > (MAX_APPEND_IOVEC - 1) * CAPACITY
    ensures Extends(old(arena.mem), arena.mem) && fresh(arena.mem.Keys - old(arena.mem.Keys))
  {
    vec, rank := FirstBlock(arena, maxSize);
    ghost var mem1 := arena.mem;
    vec, rank := MoreBlocks(arena, vec, rank, maxSize);
    ExtendsTransitive(old(arena.mem), mem1, arena.mem);
  }

  // ---- readv ----

  /** The part of the bytes read that falls to the entry is where the entry says. */
  ghost predicate Placed(e: Entry, bytes: seq<byte>)
    reads e.block`data
  {
    e.start <= |bytes| ==>
      var n := Min(e.length, |bytes| - e.start);
      e.base + n <= |e.block.data| && e.block.data[e.base..e.base + n] == bytes[e.start..e.start + n]
  }

  /** Bytes written behind a block's used part. */
  method Fill(arena: Arena, e: Entry, bytes: seq<byte>)
    requires arena.Valid() && Fresh(e, arena.mem)
    modifies e.block`data
    ensures arena.Valid() && Placed(e, bytes)
  {
    if e.start <= |bytes| {
      var b := e.block;
      var n := Min(e.length, |bytes| - e.start);
      ghost var was := b.data[..b.size];
      b.data := b.data[..b.size] + bytes[e.start..e.start + n] + b.data[b.size + n..];
      assert b.data[..b.size] == was;
    }
  }

  /** readv fills the entries in order. */
  method ReadInto(arena: Arena, vec: seq<Entry>, ghost rank: map<Block, nat>, bytes: seq<byte>)
    requires arena.Valid() && FreshFrom(vec, 0, rank, arena.mem) && Chained(vec)
    modifies arena.mem.Keys`data
    ensures arena.Valid() && forall i :: 0 <= i < |vec| ==> Placed(vec[i], bytes)
  {
    var i := 0;
    while i < |vec|
      invariant 0 <= i <= |vec| && arena.Valid()
      invariant forall k :: 0 <= k < i ==> Placed(vec[k], bytes)
    {
      Fill(arena, vec[i], bytes);
      i := i + 1;
    }
  }

  // ---- The second loop ----

  /** What a round finds: the bytes readv put there, although it looks at free space and not at the entry. */
  lemma Arrived(vec: seq<Entry>, j: nat, bytes: seq<byte>, n: nat)
    requires j < |vec| && Adjacent(vec, j) && Placed(vec[j], bytes)
    requires vec[j].base < CAPACITY == |vec[j].block.data| && vec[j].length <= CAPACITY - vec[j].base
    requires vec[j].start < |bytes| <= Space(vec)
    requires n == Min(|bytes| - vec[j].start, CAPACITY - vec[j].base)
    ensures n > 0
    ensures vec[j].block.data[vec[j].base..vec[j].base + n] == bytes[vec[j].start..vec[j].start + n]
    ensures vec[j].start + n < |bytes| ==>
              n == CAPACITY - vec[j].base && j + 1 < |vec| && vec[j + 1].start == vec[j].start + n
  {
  }

  /** One round: refer to the bytes that arrived in a block. */
  method PublishBlock(buf: IOBuffer, arena: Arena, block: Block, n: nat, ghost part: seq<byte>)
    requires arena.Valid() && buf.Valid(arena.mem) && block in arena.mem && block.size + n <= CAPACITY
    requires part == block.data[block.size..block.size + n]
    modifies buf, arena`mem, block`size
    ensures arena.Valid() && buf.Valid(arena.mem)
    ensures arena.mem == old(arena.mem)[block := old(arena.mem)[block] + part] && Extends(old(arena.mem), arena.mem)
    ensures buf.Bytes(arena.mem) == old(buf.Bytes(arena.mem)) + part
  {
    buf.Refer(block, block.size, n, part, arena.mem);
    arena.Publish(block, n);
  }

  /** Where the second loop stands: the j-th block takes the bytes from `done` on, and none behind it is touched. */
  ghost predicate At(vec: seq<Entry>, j: nat, rank: map<Block, nat>, block: Block?, done: nat, mem: Memory) {
    j < |vec| && block == vec[j].block && vec[j].start == done && FreshFrom(vec, j, rank, mem)
  }

  lemma StillFresh(vec: seq<Entry>, j: nat, rank: map<Block, nat>, mem: Memory, part: seq<byte>)
    requires j < |vec| && FreshFrom(vec, j, rank, mem)
    ensures FreshFrom(vec, j + 1, rank, mem[vec[j].block := mem[vec[j].block] + part])
  {
    assert rank[vec[j].block] == j;
  }

  /** Refer to what arrived in the block at hand. */
  method PublishHere(buf: IOBuffer, arena: Arena, block: Block, left: nat, ghost vec: seq<Entry>,
      ghost rank: map<Block, nat>, ghost bytes: seq<byte>, ghost j: nat, ghost done: nat)
    returns (n: nat, ghost done': nat)
    requires arena.Valid() && buf.Valid(arena.mem) && At(vec, j, rank, block, done, arena.mem) && Adjacent(vec, j)
    requires 0 < left == |bytes| - done && |bytes| <= Space(vec) && Placed(vec[j], bytes)
    modifies buf, arena`mem, block`size
    ensures arena.Valid() && buf.Valid(arena.mem) && 0 < n <= left && done' == done + n
    ensures Extends(old(arena.mem), arena.mem) && arena.mem.Keys == old(arena.mem.Keys)
    ensures buf.Bytes(arena.mem) == old(buf.Bytes(arena.mem)) + bytes[done..done']
    ensures FreshFrom(vec, j + 1, rank, arena.mem)
    ensures done' < |bytes| ==> block.size == CAPACITY && j + 1 < |vec| && vec[j + 1].start == done'
  {
    n := Min(left, CAPACITY - block.size);
    done' := done + n;
    Arrived(vec, j, bytes, n);
    StillFresh(vec, j, rank, arena.mem, bytes[done..done']);
    PublishBlock(buf, arena, block, n, bytes[done..done']);
  }

  /** The step to the next block when this one is full. */
  method Step(arena: Arena, block: Block, ghost vec: seq<Entry>, ghost rank: map<Block, nat>, ghost j: nat,
      ghost done: nat, ghost total: nat) returns (block': Block?, ghost j': nat)
    requires arena.Valid() && j < |vec| && block == vec[j].block && block in arena.mem
    requires Adjacent(vec, j) && FreshFrom(vec, j + 1, rank, arena.mem)
    requires done < total ==> block.size == CAPACITY && j + 1 < |vec| && vec[j + 1].start == done
    ensures block' != null ==> block' in arena.mem && block'.size < CAPACITY
    ensures done < total ==> At(vec, j', rank, block', done, arena.mem)
  {
    block', j' := block, j;
    if block.size == CAPACITY {
      block', j' := block.next, j + 1;
      assert block.next != null ==> Fresh(vec[j + 1], arena.mem);
    }
  }

  lemma JoinRuns(before: seq<byte>, bytes: seq<byte>, done: nat, done': nat)
    requires done <= done' <= |bytes|
    ensures before + bytes[..done] + bytes[done..done'] == before + bytes[..done']
  {
    assert bytes[..done] + bytes[done..done'] == bytes[..done'];
  }

  /** What the second loop has done so far. */
  ghost predicate Done(buf: IOBuffer, arena: Arena, mem: Memory, bytes: seq<byte>)
    reads buf, arena`mem
  {
    Extends(mem, arena.mem) && arena.mem.Keys == mem.Keys && buf.Valid(arena.mem) && buf.Bytes(arena.mem) == bytes
  }

  /** The links and the bytes that arrived, which the second loop does not change. */
  ghost predicate Laid(vec: seq<Entry>, bytes: seq<byte>)
    reads (set e | e in vec :: e.block)`next, (set e | e in vec :: e.block)`data
  {
    forall i :: 0 <= i < |vec| ==> Adjacent(vec, i) && Placed(vec[i], bytes)
  }

  /** Between two rounds: so many bytes are referred to, and the block at hand takes the next one, if there is one. */
  ghost predicate Between(buf: IOBuffer, arena: Arena, mem: Memory, before: seq<byte>, bytes: seq<byte>, done: nat,
      vec: seq<Entry>, rank: map<Block, nat>, j: nat, block: Block?)
    reads buf, arena`mem, block
  {
    && done <= |bytes| && Done(buf, arena, mem, before + bytes[..done])
    && (block != null ==> block in arena.mem && block.size < CAPACITY)
    && (done < |bytes| ==> At(vec, j, rank, block, done, arena.mem))
  }

  /** One round of the second loop: the bytes in a block, and the step to the next. */
  method PublishRound(buf: IOBuffer, arena: Arena, block: Block, left: nat, ghost vec: seq<Entry>,
      ghost rank: map<Block, nat>, ghost bytes: seq<byte>, ghost j: nat, ghost done: nat, ghost mem: Memory,
      ghost before: seq<byte>)
    returns (left': nat, block': Block?, ghost j': nat, ghost done': nat)
    requires arena.Valid() && Between(buf, arena, mem, before, bytes, done, vec, rank, j, block)
    requires vec != [] && 0 < left == |bytes| - done && |bytes| <= Space(vec) && Laid(vec, bytes)
    modifies buf, arena`mem, block`size
    ensures arena.Valid() && left' == |bytes| - done' < left
    ensures Between(buf, arena, mem, before, bytes, done', vec, rank, j', block')
  {
    ghost var mem1 := arena.mem;
    var n;
    n, done' := PublishHere(buf, arena, block, left, vec, rank, bytes, j, done);
    ExtendsTransitive(mem, mem1, arena.mem);
    JoinRuns(before, bytes, done, done');
    left' := left - n;
    block', j' := Step(arena, block, vec, rank, j, done', |bytes|);
  }

  /** The second loop. */
  method PublishRest(buf: IOBuffer, arena: Arena, first: Block, total: nat, ghost vec: seq<Entry>,
      ghost rank: map<Block, nat>, ghost bytes: seq<byte>, ghost mem: Memory, ghost before: seq<byte>)
    returns (block: Block?)
    requires arena.Valid() && mem == arena.mem && Between(buf, arena, mem, before, bytes, 0, vec, rank, 0, first)
    requires vec != [] && 0 < total == |bytes| <= Space(vec) && Laid(vec, bytes)
    modifies buf, arena`mem, arena.mem.Keys`size
    ensures arena.Valid() && Done(buf, arena, mem, before + bytes)
    ensures block != null ==> block in arena.mem && block.size < CAPACITY
  {
    block := first;
    var left := total;
    ghost var j: nat, done: nat := 0, 0;
    while left > 0
      invariant left == |bytes| - done && arena.Valid() && Laid(vec, bytes)
      invariant Between(buf, arena, mem, before, bytes, done, vec, rank, j, block)
    {
      left, block, j, done := PublishRound(buf, arena, block, left, vec, rank, bytes, j, done, mem, before);
    }
    assert bytes[..done] == bytes;
  }

  /** Follow the links and refer to everything that arrived; the block returned still has room. */
  method PublishAll(buf: IOBuffer, arena: Arena, first: Block, total: nat,
      ghost vec: seq<Entry>, ghost rank: map<Block, nat>, ghost bytes: seq<byte>) returns (block: Block?)
    requires arena.Valid() && buf.Valid(arena.mem)
    requires FreshFrom(vec, 0, rank, arena.mem) && Chained(vec) && first == vec[0].block
    requires 0 < total == |bytes| <= Space(vec) && forall i :: 0 <= i < |vec| ==> Placed(vec[i], bytes)
    modifies buf, arena`mem, arena.mem.Keys`size
    ensures arena.Valid() && Done(buf, arena, old(arena.mem), old(buf.Bytes(arena.mem)) + bytes)
    ensures block != null ==> block in arena.mem && block.size < CAPACITY
  {
    ghost var before := buf.Bytes(arena.mem);
    assert before + bytes[..0] == before;
    block := PublishRest(buf, arena, first, total, vec, rank, bytes, arena.mem, before);
  }

  // ---- The whole call ----

  /** The release loop: it runs at most once, because the chain was empty. */
  method Release(arena: Arena, first: Block?)
    requires arena.Valid() && arena.head == null
    requires first != null ==> first in arena.mem && first.size < CAPACITY
    modifies arena`head, arena.mem.Keys`next
    ensures arena.Valid() && arena.head == first
  {
    var block := first;
    while block != null
      invariant arena.Valid() && arena.mem == old(arena.mem)
      invariant block != null ==> block == first && arena.head == null
      invariant block == null ==> arena.head == first
      decreases if block == null then 0 else 1
    {
      arena.ReleaseBlock(block);
      block := block.next;
    }
  }

  /** What readv reports: a failure, or bytes the descriptor had, of which it takes what there is room for. */
  datatype Source = Failure | Available(bytes: seq<byte>)

  /** What happens once the vector is there and some bytes arrived. */
  method Deliver(buf: IOBuffer, arena: Arena, vec: seq<Entry>, ghost rank: map<Block, nat>, bytes: seq<byte>)
    returns (block: Block?)
    requires arena.Valid() && buf.Valid(arena.mem) && FreshFrom(vec, 0, rank, arena.mem) && Chained(vec)
    requires 0 < |bytes| <= Space(vec)
    modifies buf, arena`mem, arena.mem.Keys`size, arena.mem.Keys`data
    ensures arena.Valid() && Done(buf, arena, old(arena.mem), old(buf.Bytes(arena.mem)) + bytes)
    ensures block != null ==> block in arena.mem && block.size < CAPACITY
  {
    ReadInto(arena, vec, rank, bytes);
    block := PublishAll(buf, arena, vec[0].block, |bytes|, vec, rank, bytes);
  }

  /** readv, and the second loop if it brought anything. */
  method Receive(buf: IOBuffer, arena: Arena, vec: seq<Entry>, ghost rank: map<Block, nat>, source: Source)
    returns (nr: int, block: Block?)
    requires arena.Valid() && buf.Valid(arena.mem) && FreshFrom(vec, 0, rank, arena.mem) && Chained(vec)
    modifies buf, arena`mem, arena.mem.Keys`size, arena.mem.Keys`data
    ensures arena.Valid() && nr == if source.Failure? then -1 else Min(|source.bytes|, Space(vec))
    ensures Done(buf, arena, old(arena.mem), old(buf.Bytes(arena.mem)) + if nr > 0 then source.bytes[..nr] else [])
    ensures block != null ==> block in arena.mem && block.size < CAPACITY
  {
    block := vec[0].block;
    nr := if source.Failure? then -1 else Min(|source.bytes|, vec[|vec| - 1].start + vec[|vec| - 1].length);
    if nr > 0 {
      block := Deliver(buf, arena, vec, rank, source.bytes[..nr]);
    }
  }

  /** append_from_file_descriptor */
  method AppendFromDescriptor(buf: IOBuffer, arena: Arena, source: Source, maxSize: nat) returns (nr: int)
    requires arena.Valid() && buf.Valid(arena.mem)
    modifies buf, arena, arena.mem.Keys
    ensures arena.Valid() && if source.Failure? then nr == -1 else 0 <= nr <= Min(|source.bytes|, maxSize)
    ensures source.Available? ==> nr == Min(|source.bytes|, maxSize) || nr > (MAX_APPEND_IOVEC - 1) * CAPACITY
    ensures buf.Appended(arena, if nr > 0 then source.bytes[..nr] else [])
  {
    ghost var mem := arena.mem;
    var vec, rank := AcquireVector(arena, maxSize);
    ghost var mem1 := arena.mem;
    Isolation(buf.refs, buf.refOffset, mem, mem1);
    var block;
    nr, block := Receive(buf, arena, vec, rank, source);
    ExtendsTransitive(mem, mem1, arena.mem);
    Release(arena, block);
  }
}
