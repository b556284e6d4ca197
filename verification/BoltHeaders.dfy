/** The key/value section of a Bolt message: how requests write it and responses read it. */
module BoltHeaders {
  import opened Bytes

  const HALF: nat := 0x1_0000
  const WORD: nat := 0x1_0000_0000

  datatype Pair = Pair(key: seq<byte>, value: seq<byte>)

  predicate Fits(ps: seq<Pair>) {
    forall i :: 0 <= i < |ps| ==> |ps[i].key| < WORD && |ps[i].value| < WORD
  }

  /** A string with its 32-bit length in front. */
  function EncodeString(s: seq<byte>): (b: seq<byte>)
    ensures |b| == 4 + |s|
  {
    Put32(|s|) + s
  }

  function EncodePair(p: Pair): (b: seq<byte>)
    ensures |b| == 8 + |p.key| + |p.value|
  {
    EncodeString(p.key) + EncodeString(p.value)
  }

  function Encode(ps: seq<Pair>): seq<byte> {
    if ps == [] then [] else EncodePair(ps[0]) + Encode(ps[1..])
  }

  /** A pair on the wire: key and value, in this order, each behind its length in four bytes in network order. */
  lemma PairOnTheWire(p: Pair)
    ensures EncodePair(p) == InNetworkOrder(|p.key|, 4) + p.key + InNetworkOrder(|p.value|, 4) + p.value
  {
    Put32IsNetwork(|p.key|);
    Put32IsNetwork(|p.value|);
    Associate(EncodeString(p.key), InNetworkOrder(|p.value|, 4), p.value);
  }

  /** The pairs of a list follow each other. */
  lemma {:induction false} ListOnTheWire(ps: seq<Pair>, i: nat)
    requires i < |ps|
    ensures Encode(ps) == Encode(ps[..i]) + EncodePair(ps[i]) + Encode(ps[i + 1..])
    decreases i
  {
    if i == 0 {
      assert ps[..0] == [] && [] + EncodePair(ps[0]) == EncodePair(ps[0]);
    } else {
      ListOnTheWire(ps[1..], i - 1);
      assert ps[1..][..i - 1] == ps[..i][1..] && ps[1..][i..] == ps[i + 1..] && ps[..i][0] == ps[0];
      Associate(EncodePair(ps[0]), Encode(ps[..i][1..]), EncodePair(ps[i]));
      Associate(EncodePair(ps[0]), Encode(ps[..i][1..]) + EncodePair(ps[i]), Encode(ps[i + 1..]));
    }
  }

  type Headers = map<seq<byte>, seq<byte>>

  /** emplace keeps the value that is there. */
  function Emplace(m: Headers, p: Pair): Headers {
    if p.key in m then m else m[p.key := p.value]
  }

  /** The map of a list of pairs: the first value per key. */
  function FirstValues(m: Headers, ps: seq<Pair>): Headers
    decreases |ps|
  {
    if ps == [] then m else FirstValues(Emplace(m, ps[0]), ps[1..])
  }

  datatype Result<T> = Short | Ok(value: T, rest: seq<byte>)

  /** Read a length and that many bytes. */
  function DecodeString(b: seq<byte>): (r: Result<seq<byte>>)
    ensures r.Ok? ==> |r.rest| + 4 <= |b|
  {
    if |b| < 4 || |b| - 4 < Get32(b, 0) then Short
    else Ok(b[4..4 + Get32(b, 0)], b[4 + Get32(b, 0)..])
  }

  function DecodePair(b: seq<byte>): (r: Result<Pair>)
    ensures r.Ok? ==> |r.rest| < |b|
  {
    var k := DecodeString(b);
    if k.Short? then Short
    else
      var v := DecodeString(k.rest);
      if v.Short? then Short else Ok(Pair(k.value, v.value), v.rest)
  }

  type Item = seq<byte> -> Result<Pair>

  ghost predicate Shrinks(item: Item) {
    forall b :: item(b).Ok? ==> |item(b).rest| < |b|
  }

  /**
   * The loop of deserialize: items until nothing is left. It ends because each round takes bytes, whatever the count
   * of the bytes left does.
   */
  ghost function Loop(item: Item, stop: int -> bool, b: seq<byte>, left: int, m: Headers): Result<Headers>
    requires Shrinks(item)
    decreases |b|
  {
    if stop(left) then Ok(m, b)
    else
      var p := item(b);
      if p.Short? then Short else Loop(item, stop, p.rest, left - (|b| - |p.rest|), Emplace(m, p.value))
  }

  /** The counter of the bytes left has 16 bits. */
  predicate Zero16(left: int) {
    left % HALF == 0
  }

  lemma Small16(left: nat)
    requires left < HALF
    ensures Zero16(left) <==> left == 0
  {
  }

  lemma PairsShrink()
    ensures Shrinks(DecodePair)
  {
  }

  ghost function Decode(b: seq<byte>, left: int, m: Headers): Result<Headers> {
    PairsShrink();
    Loop(DecodePair, Zero16, b, left, m)
  }

  // ---- Only 16 bits of the count matter ----

  /** The loop cannot tell counts apart that differ by this much. */
  ghost predicate Alike(stop: int -> bool, d: int) {
    forall x, y :: x - y == d ==> stop(x) == stop(y)
  }

  lemma {:induction false} AlikeLoop(item: Item, stop: int -> bool, b: seq<byte>, x: int, y: int, m: Headers)
    requires Shrinks(item) && Alike(stop, x - y)
    ensures Loop(item, stop, b, x, m) == Loop(item, stop, b, y, m)
    decreases |b|
  {
    assert stop(x) == stop(y);
    var p := item(b);
    if !stop(x) && p.Ok? {
      var n := |b| - |p.rest|;
      AlikeLoop(item, stop, p.rest, x - n, y - n, Emplace(m, p.value));
    }
  }

  lemma MultipleOfHalf(x: int, q: int)
    ensures (x + HALF * q) % HALF == x % HALF
  {
  }

  lemma Alike16(q: int)
    ensures Alike(Zero16, HALF * q)
  {
    forall x, y | x - y == HALF * q ensures Zero16(x) == Zero16(y) {
      MultipleOfHalf(y, q);
    }
  }

  lemma LoopOne(item: Item, stop: int -> bool, b: seq<byte>, left: int, m: Headers, p: Pair, rest: seq<byte>, mid: int)
    requires Shrinks(item) && !stop(left) && item(b) == Ok(p, rest) && mid == left - (|b| - |rest|)
    ensures Loop(item, stop, b, left, m) == Loop(item, stop, rest, mid, Emplace(m, p))
  {
  }

  lemma LoopEnds(item: Item, stop: int -> bool, b: seq<byte>, left: int, m: Headers)
    requires Shrinks(item) && (stop(left) || item(b).Short?)
    ensures Loop(item, stop, b, left, m) == if stop(left) then Ok(m, b) else Short
  {
  }

  /** The ways the loop ends. */
  lemma DecodeEnds(b: seq<byte>, left: int, m: Headers)
    requires Zero16(left) || DecodePair(b).Short?
    ensures Decode(b, left, m) == if Zero16(left) then Ok(m, b) else Short
  {
    PairsShrink();
    LoopEnds(DecodePair, Zero16, b, left, m);
  }

  /** The count may as well be kept in 16 bits. */
  lemma DecodeLow(b: seq<byte>, left: int, low: int, m: Headers)
    requires low == left % HALF
    ensures Decode(b, left, m) == Decode(b, low, m)
  {
    PairsShrink();
    Alike16(left / HALF);
    AlikeLoop(DecodePair, Zero16, b, left, low, m);
  }

  lemma DecodeNext(b: seq<byte>, left: int, m: Headers, p: Pair, rest: seq<byte>, mid: int)
    requires !Zero16(left) && DecodePair(b) == Ok(p, rest) && mid == left - (|b| - |rest|)
    ensures Decode(b, left, m) == Decode(rest, mid, Emplace(m, p))
  {
    PairsShrink();
    LoopOne(DecodePair, Zero16, b, left, m, p, rest, mid);
  }

  /** One round of the loop. */
  lemma DecodeRound(b: seq<byte>, left: int, m: Headers, p: Pair, rest: seq<byte>, left': int)
    requires !Zero16(left) && DecodePair(b) == Ok(p, rest) && left' == (left - (|b| - |rest|)) % HALF
    ensures Decode(b, left, m) == Decode(rest, left', Emplace(m, p))
  {
    var mid := left - (|b| - |rest|);
    DecodeNext(b, left, m, p, rest, mid);
    DecodeLow(rest, mid, left', Emplace(m, p));
  }

  // ---- Round trip ----

  lemma StringRoundTrip(s: seq<byte>, more: seq<byte>)
    requires |s| < WORD
    ensures DecodeString(EncodeString(s) + more) == Ok(s, more)
  {
    var b := EncodeString(s) + more;
    Get32Put32(|s|);
    assert b[..4] == Put32(|s|);
    assert Get32(b, 0) == |s|;
    assert b[4..4 + |s|] == s && b[4 + |s|..] == more;
  }

  lemma PairRoundTrip(p: Pair, more: seq<byte>)
    requires |p.key| < WORD && |p.value| < WORD
    ensures DecodePair(EncodePair(p) + more) == Ok(p, more)
  {
    Associate(EncodeString(p.key), EncodeString(p.value), more);
    StringRoundTrip(p.key, EncodeString(p.value) + more);
    StringRoundTrip(p.value, more);
  }

  /** No end of the list starting at a pair is a multiple of 65536 bytes long. */
  predicate NoAliasedSuffix(ps: seq<Pair>) {
    forall j :: 0 <= j < |ps| ==> |Encode(ps[j..])| % HALF != 0
  }

  lemma NoAliasedSuffixFirst(ps: seq<Pair>)
    requires ps != []
    ensures NoAliasedSuffix(ps) <==> |Encode(ps)| % HALF != 0 && NoAliasedSuffix(ps[1..])
  {
    assert ps[0..] == ps;
    if NoAliasedSuffix(ps) {
      forall j | 0 <= j < |ps[1..]| ensures |Encode(ps[1..][j..])| % HALF != 0 {
        assert ps[1..][j..] == ps[j + 1..];
      }
    }
    if |Encode(ps)| % HALF != 0 && NoAliasedSuffix(ps[1..]) {
      forall j | 0 <= j < |ps| ensures |Encode(ps[j..])| % HALF != 0 {
        if j > 0 {
          assert ps[j..] == ps[1..][j - 1..];
        }
      }
    }
  }

  /** What decoding comes to: all of it, or a stop before something that is left over. */
  ghost predicate ComesTo(r: Result<Headers>, m: Headers, ps: seq<Pair>, more: seq<byte>) {
    && r.Ok?
    && (NoAliasedSuffix(ps) ==> r.rest == more && r.value == FirstValues(m, ps))
    && (!NoAliasedSuffix(ps) ==> |r.rest| > |more|)
  }

  lemma DecodeOne(p: Pair, t: seq<byte>, more: seq<byte>, m: Headers)
    requires |p.key| < WORD && |p.value| < WORD
    requires (|EncodePair(p)| + |t|) % HALF != 0
    ensures Decode(EncodePair(p) + t + more, |EncodePair(p)| + |t|, m) == Decode(t + more, |t|, Emplace(m, p))
  {
    Associate(EncodePair(p), t, more);
    PairRoundTrip(p, t + more);
    LoopOne(DecodePair, Zero16, EncodePair(p) + t + more, |EncodePair(p)| + |t|, m, p, t + more, |t|);
  }

  lemma {:induction false} DecodeEncoded(ps: seq<Pair>, more: seq<byte>, m: Headers)
    requires Fits(ps)
    ensures ComesTo(Decode(Encode(ps) + more, |Encode(ps)|, m), m, ps, more)
    decreases |ps|
  {
    if ps == [] {
      assert Encode(ps) + more == more;
    } else {
      NoAliasedSuffixFirst(ps);
      if |Encode(ps)| % HALF != 0 {
        DecodeOne(ps[0], Encode(ps[1..]), more, m);
        DecodeEncoded(ps[1..], more, Emplace(m, ps[0]));
      }
    }
  }

  /**
   * Decoding an encoded list, given its length in 16 bits, yields the first value per key and consumes exactly the
   * encoding, if and only if no suffix of the list encodes to a multiple of 65536 bytes.
   */
  lemma RoundTrip(ps: seq<Pair>, more: seq<byte>)
    requires Fits(ps)
    ensures var r := Decode(Encode(ps) + more, |Encode(ps)| % HALF, map[]);
            r == Ok(FirstValues(map[], ps), more) <==> NoAliasedSuffix(ps)
  {
    DecodeLow(Encode(ps) + more, |Encode(ps)|, |Encode(ps)| % HALF, map[]);
    DecodeEncoded(ps, more, map[]);
  }

  /** The encoding of one pair with 65528 bytes of value is 65536 bytes long: nothing of it is decoded. */
  lemma AliasedList(v: seq<byte>, more: seq<byte>)
    requires |v| == HALF - 8
    ensures var ps := [Pair([], v)];
            var b := Encode(ps) + more;
            && |Encode(ps)| == HALF
            && Decode(b, |Encode(ps)| % HALF, map[]) == Ok(map[], b) && b != more
  {
    var ps := [Pair([], v)];
    assert ps[1..] == [] && Encode(ps) == EncodePair(ps[0]) + Encode(ps[1..]);
    DecodeEnds(Encode(ps) + more, 0, map[]);
  }

  lemma {:induction false} SuffixShorter(ps: seq<Pair>, j: nat)
    requires j < |ps|
    ensures 0 < |Encode(ps[j..])| <= |Encode(ps)|
    decreases |ps|
  {
    if j == 0 {
      assert ps[0..] == ps;
    } else {
      SuffixShorter(ps[1..], j - 1);
      assert ps[1..][j - 1..] == ps[j..];
    }
  }

  /** In particular every list that encodes to fewer than 65536 bytes comes back. */
  lemma ShortListsDoNotAlias(ps: seq<Pair>)
    requires |Encode(ps)| < HALF
    ensures NoAliasedSuffix(ps)
  {
    forall j | 0 <= j < |ps| ensures |Encode(ps[j..])| % HALF != 0 {
      SuffixShorter(ps, j);
      Small16(|Encode(ps[j..])|);
    }
  }

  /** The map of a list is the list's first value for each of its keys, and nothing else. */
  lemma {:induction false} FirstValuesMeaning(m: Headers, ps: seq<Pair>, key: seq<byte>)
    ensures key in FirstValues(m, ps) <==> key in m || exists i :: 0 <= i < |ps| && ps[i].key == key
    ensures key in m ==> FirstValues(m, ps)[key] == m[key]
    ensures forall i ::
              0 <= i < |ps| && ps[i].key == key && key !in m && (forall j :: 0 <= j < i ==> ps[j].key != key) ==>
              FirstValues(m, ps)[key] == ps[i].value
    decreases |ps|
  {
    if ps != [] {
      var m', t := Emplace(m, ps[0]), ps[1..];
      FirstValuesMeaning(m', t, key);
      assert forall i :: 0 <= i < |t| ==> t[i] == ps[i + 1];
      assert forall i :: 1 <= i < |ps| ==> ps[i] == t[i - 1];
    }
  }
}
