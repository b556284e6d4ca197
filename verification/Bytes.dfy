/** Bytes, and numbers in network order. */
module Bytes {
  type byte = x: int | 0 <= x < 256

  function Min(a: nat, b: nat): nat {
    if a < b then a else b
  }

  /** The number that bytes stand for in network order: the most significant byte comes first. */
  function NetworkValue(b: seq<byte>): nat {
    if b == [] then 0 else 256 * NetworkValue(b[..|b| - 1]) + b[|b| - 1]
  }

  /** A number in so many bytes, in network order. */
  function InNetworkOrder(n: nat, width: nat): (b: seq<byte>)
    ensures |b| == width
  {
    if width == 0 then [] else InNetworkOrder(n / 256, width - 1) + [n % 256]
  }

  /** ntohs of the two bytes at a position. */
  function Get16(b: seq<byte>, at: nat): (n: nat)
    requires at + 2 <= |b|
    ensures n < 0x1_0000
  {
    256 * (b[at] as int) + b[at + 1]
  }

  /** ntohl of the four bytes at a position. */
  function Get32(b: seq<byte>, at: nat): (n: nat)
    requires at + 4 <= |b|
    ensures n < 0x1_0000_0000
  {
    0x100_0000 * (b[at] as int) + 0x1_0000 * (b[at + 1] as int) + 256 * (b[at + 2] as int) + b[at + 3]
  }

  /** htonl; a larger number loses its upper part. */
  function Put32(n: nat): (b: seq<byte>)
    ensures |b| == 4
  {
    [n / 256 / 256 / 256 % 256, n / 256 / 256 % 256, n / 256 % 256, n % 256]
  }

  lemma NetworkNext(b: seq<byte>, x: byte)
    ensures NetworkValue(b + [x]) == 256 * NetworkValue(b) + x
  {
    assert (b + [x])[..|b|] == b;
  }

  lemma Value2(x: byte, y: byte)
    ensures NetworkValue([x, y]) == 256 * x + y
  {
    NetworkNext([], x);
    NetworkNext([x], y);
    assert [] + [x] == [x] && [x] + [y] == [x, y];
  }

  lemma Value4(x: byte, y: byte, z: byte, w: byte)
    ensures NetworkValue([x, y, z, w]) == 0x100_0000 * x + 0x1_0000 * y + 256 * z + w
  {
    Value2(x, y);
    NetworkNext([x, y], z);
    NetworkNext([x, y, z], w);
    assert [x, y] + [z] == [x, y, z] && [x, y, z] + [w] == [x, y, z, w];
  }

  lemma Order2(n: nat)
    ensures InNetworkOrder(n, 2) == [n / 256 % 256, n % 256]
  {
    assert InNetworkOrder(n / 256, 1) == InNetworkOrder(n / 256 / 256, 0) + [n / 256 % 256];
  }

  lemma Put32IsNetwork(n: nat)
    ensures Put32(n) == InNetworkOrder(n, 4)
  {
    Order2(n / 256 / 256);
    assert InNetworkOrder(n / 256, 3) == InNetworkOrder(n / 256 / 256, 2) + [n / 256 % 256];
  }

  /** Reading is the value in network order, and writing that value gives the bytes back. */
  lemma Get16IsNetwork(b: seq<byte>, at: nat)
    requires at + 2 <= |b|
    ensures Get16(b, at) == NetworkValue(b[at..at + 2]) && InNetworkOrder(Get16(b, at), 2) == b[at..at + 2]
  {
    assert b[at..at + 2] == [b[at], b[at + 1]];
    Value2(b[at], b[at + 1]);
    Order2(Get16(b, at));
  }

  lemma Get32IsNetwork(b: seq<byte>, at: nat)
    requires at + 4 <= |b|
    ensures Get32(b, at) == NetworkValue(b[at..at + 4]) && InNetworkOrder(Get32(b, at), 4) == b[at..at + 4]
  {
    assert b[at..at + 4] == [b[at], b[at + 1], b[at + 2], b[at + 3]];
    Value4(b[at], b[at + 1], b[at + 2], b[at + 3]);
    var n := Get32(b, at);
    assert n / 256 == 0x1_0000 * (b[at] as int) + 256 * (b[at + 1] as int) + b[at + 2];
    assert n / 256 / 256 == 256 * (b[at] as int) + b[at + 1];
    Put32IsNetwork(n);
  }

  /** The number in network order is read back. */
  lemma ReadBack16(n: nat, b: seq<byte>, at: nat)
    requires n < 0x1_0000 && at + 2 <= |b| && b[at..at + 2] == InNetworkOrder(n, 2)
    ensures Get16(b, at) == n
  {
    Order2(n);
    assert b[at..at + 2][0] == n / 256 % 256 && b[at..at + 2][1] == n % 256;
  }

  lemma ReadBack32(n: nat, b: seq<byte>, at: nat)
    requires n < 0x1_0000_0000 && at + 4 <= |b| && b[at..at + 4] == InNetworkOrder(n, 4)
    ensures Get32(b, at) == n
  {
    Put32IsNetwork(n);
    Get32Put32(n);
    var s := b[at..at + 4];
    assert s[0] == b[at] && s[1] == b[at + 1] && s[2] == b[at + 2] && s[3] == b[at + 3];
  }

  lemma Get32Put32(n: nat)
    ensures Get32(Put32(n), 0) == n % 0x1_0000_0000
  {
    var a := n / 256;
    var b := a / 256;
    var c := b / 256;
    Remainder(n, c / 256, Get32(Put32(n), 0));
  }

  lemma Remainder(n: nat, q: nat, r: nat)
    requires n == 0x1_0000_0000 * q + r && r < 0x1_0000_0000
    ensures n % 0x1_0000_0000 == r
  {
  }

  lemma Associate(a: seq<byte>, b: seq<byte>, c: seq<byte>)
    ensures a + (b + c) == a + b + c
  {
  }
}
