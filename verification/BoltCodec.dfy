/** appendBoltHeaderKV and the key/value loop of deserialize, over an IOBuffer. */
module BoltCodec {
  import opened Bytes
  import opened IOBlocks
  import opened IOBuffer
  import BoltHeaders

  /** appendBoltHeaderKV */
  method AppendHeaderKV(buf: IOBuffer, arena: Arena, key: seq<byte>, value: seq<byte>) returns (size: nat)
    requires arena.Valid() && buf.Valid(arena.mem) && |key| < BoltHeaders.WORD && |value| < BoltHeaders.WORD
    modifies buf, arena, arena.mem.Keys
    ensures arena.Valid() && buf.Appended(arena, BoltHeaders.EncodePair(BoltHeaders.Pair(key, value)))
    ensures size == |BoltHeaders.EncodePair(BoltHeaders.Pair(key, value))| % BoltHeaders.WORD
  {
    AppendCounted(buf, arena, key);
    ghost var mem := arena.mem;
    AppendCounted(buf, arena, value);
    ExtendsTransitive(old(arena.mem), mem, arena.mem);
    Associate(old(buf.Bytes(arena.mem)), BoltHeaders.EncodeString(key), BoltHeaders.EncodeString(value));
    size := (8 + |key| + |value|) % BoltHeaders.WORD;
  }

  /** A length in network order, and the bytes. */
  method AppendCounted(buf: IOBuffer, arena: Arena, s: seq<byte>)
    requires arena.Valid() && buf.Valid(arena.mem)
    modifies buf, arena, arena.mem.Keys
    ensures arena.Valid() && buf.Appended(arena, BoltHeaders.EncodeString(s))
  {
    buf.Append(arena, Put32(|s|));
    ghost var mem := arena.mem;
    buf.Append(arena, s);
    ExtendsTransitive(old(arena.mem), mem, arena.mem);
    Associate(old(buf.Bytes(arena.mem)), Put32(|s|), s);
  }

  /** A length in network order. */
  method CutLength(buf: IOBuffer, arena: Arena) returns (ok: bool, n: nat)
    requires arena.Valid() && buf.Valid(arena.mem)
    modifies buf
    ensures arena.Valid() && buf.Valid(arena.mem)
    ensures var b := old(buf.Bytes(arena.mem));
            (ok <==> 4 <= |b|) && (ok ==> n == Get32(b, 0) && buf.Bytes(arena.mem) == b[4..])
  {
    ghost var b := buf.Bytes(arena.mem);
    var word := new byte[4];
    var cn := buf.CutArray(arena, word, 4);
    ok, n := cn == 4, 0;
    if ok {
      assert word[..] == b[..4];
      n := Get32(word[..], 0);
    }
  }

  /** That many bytes, if they are there. */
  method CutBytes(buf: IOBuffer, arena: Arena, n: nat) returns (ok: bool, s: seq<byte>)
    requires arena.Valid() && buf.Valid(arena.mem)
    modifies buf
    ensures arena.Valid() && buf.Valid(arena.mem)
    ensures var b := old(buf.Bytes(arena.mem));
            (ok <==> n <= |b|) && (ok ==> s == b[..n] && buf.Bytes(arena.mem) == b[n..])
  {
    ok, s := true, [];
    if n > 0 {
      var k;
      k, s := buf.CutString(arena, [], n);
      ok := k == n;
    }
  }

  /** One length and its bytes, counted off in 16 bits. */
  method CutCounted(buf: IOBuffer, arena: Arena, left: nat) returns (ok: bool, s: seq<byte>, left': nat)
    requires arena.Valid() && buf.Valid(arena.mem) && left < BoltHeaders.HALF
    modifies buf
    ensures arena.Valid() && buf.Valid(arena.mem)
    ensures var b := old(buf.Bytes(arena.mem));
            var r := BoltHeaders.DecodeString(b);
            && (ok <==> r.Ok?)
            && (ok ==> s == r.value && buf.Bytes(arena.mem) == r.rest)
            && (ok ==> left' == (left - (|b| - |buf.Bytes(arena.mem)|)) % BoltHeaders.HALF)
  {
    ghost var b := buf.Bytes(arena.mem);
    var n;
    s, left' := [], left;
    ok, n := CutLength(buf, arena);
    if ok {
      ok, s := CutBytes(buf, arena, n);
      var mid := (left - 4) % BoltHeaders.HALF;
      left' := (mid - n) % BoltHeaders.HALF;
      CountTwice(left, 4, mid, n, left');
    }
  }

  /** Counting off a and then b is counting off both. */
  lemma CountTwice(left: int, a: int, mid: int, b: int, left': int)
    requires mid == (left - a) % BoltHeaders.HALF && left' == (mid - b) % BoltHeaders.HALF
    ensures left' == (left - (a + b)) % BoltHeaders.HALF
  {
    var q := (left - a) / BoltHeaders.HALF;
    assert left - (a + b) == mid - b + BoltHeaders.HALF * q;
    BoltHeaders.MultipleOfHalf(mid - b, q);
  }

  /** A key and a value, counted off. */
  method CutPair(buf: IOBuffer, arena: Arena, left: nat) returns (ok: bool, p: BoltHeaders.Pair, left': nat)
    requires arena.Valid() && buf.Valid(arena.mem) && left < BoltHeaders.HALF
    modifies buf
    ensures arena.Valid() && buf.Valid(arena.mem)
    ensures var b := old(buf.Bytes(arena.mem));
            var r := BoltHeaders.DecodePair(b);
            && (ok <==> r.Ok?)
            && (ok ==> p == r.value && buf.Bytes(arena.mem) == r.rest)
            && (ok ==> left' == (left - (|b| - |buf.Bytes(arena.mem)|)) % BoltHeaders.HALF)
  {
    var key, value;
    p := BoltHeaders.Pair([], []);
    ghost var b := buf.Bytes(arena.mem);
    ok, key, left' := CutCounted(buf, arena, left);
    if !ok {
      return;
    }
    ghost var b1 := buf.Bytes(arena.mem);
    var mid := left';
    ok, value, left' := CutCounted(buf, arena, mid);
    if ok {
      p := BoltHeaders.Pair(key, value);
      CountTwice(left, |b| - |b1|, mid, |b1| - |buf.Bytes(arena.mem)|, left');
    }
  }

  /** One round of the key/value loop; what is left to decode stays the same. */
  method DecodeRound(buf: IOBuffer, arena: Arena, left: nat, m: BoltHeaders.Headers)
    returns (ok: bool, left': nat, m': BoltHeaders.Headers)
    requires arena.Valid() && buf.Valid(arena.mem) && 0 < left < BoltHeaders.HALF
    modifies buf
    ensures arena.Valid() && buf.Valid(arena.mem)
    ensures ok ==> left' < BoltHeaders.HALF && |buf.Bytes(arena.mem)| < |old(buf.Bytes(arena.mem))|
    ensures var r := BoltHeaders.Decode(old(buf.Bytes(arena.mem)), left, m);
            if ok then r == BoltHeaders.Decode(buf.Bytes(arena.mem), left', m') else r == BoltHeaders.Short
  {
    ghost var b := buf.Bytes(arena.mem);
    BoltHeaders.Small16(left);
    var p;
    ok, p, left' := CutPair(buf, arena, left);
    if ok {
      m' := BoltHeaders.Emplace(m, p);
      BoltHeaders.DecodeRound(b, left, m, p, buf.Bytes(arena.mem), left');
    } else {
      m' := m;
      BoltHeaders.DecodeEnds(b, left, m);
    }
  }

  /** The key/value loop of deserialize. */
  method DecodeHeaders(buf: IOBuffer, arena: Arena, headerLen: nat) returns (ok: bool, m: BoltHeaders.Headers)
    requires arena.Valid() && buf.Valid(arena.mem) && headerLen < BoltHeaders.HALF
    modifies buf
    ensures arena.Valid() && buf.Valid(arena.mem)
    ensures var r := BoltHeaders.Decode(old(buf.Bytes(arena.mem)), headerLen, map[]);
            && (ok <==> r.Ok?)
            && (ok ==> m == r.value && buf.Bytes(arena.mem) == r.rest)
  {
    ghost var target := BoltHeaders.Decode(buf.Bytes(arena.mem), headerLen, map[]);
    var left: nat := headerLen;
    m := map[];
    while left > 0
      invariant left < BoltHeaders.HALF && arena.Valid() && buf.Valid(arena.mem)
      invariant BoltHeaders.Decode(buf.Bytes(arena.mem), left, m) == target
      decreases |buf.Bytes(arena.mem)|
    {
      ok, left, m := DecodeRound(buf, arena, left, m);
      if !ok {
        return;
      }
    }
    BoltHeaders.Small16(left);
    BoltHeaders.DecodeEnds(buf.Bytes(arena.mem), left, m);
    ok := true;
  }
}
