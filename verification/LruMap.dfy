/** The hash chains of the cache: bucket selection and the chain operations, used by one thread. */
module LruMap {
  import opened LruList
  import opened LruTypes

  ghost predicate LinkAt(c: seq<Node>, j: nat)
    requires j < |c|
    reads c`hashNext
  {
    c[j].hashNext == if j + 1 < |c| then c[j + 1] else null
  }

  /** The chain from a slot on is this sequence. */
  ghost predicate Chained(first: Node?, c: seq<Node>)
    reads c`hashNext
  {
    && first == (if c == [] then null else c[0])
    && forall j :: 0 <= j < |c| ==> LinkAt(c, j)
  }

  class HashMap {
    const buckets: array<Node?>
    const index: Key -> nat             // get_bucket_idx: the hash of a key modulo the number of buckets
    var elements: nat
    ghost var chains: seq<seq<Node>>
    ghost var content: map<Key, Node>
    ghost var nodes: set<Node>          // every entry put so far

    /** The entries of a chain are those of the content under their keys, which belong to its bucket. */
    ghost predicate Housed(c: seq<Node>, i: nat, m: map<Key, Node>) {
      && Distinct(c)
      && forall j :: 0 <= j < |c| ==> c[j].key in m && m[c[j].key] == c[j] && index(c[j].key) == i
    }

    /** The chains hold exactly the content. */
    ghost predicate Consistent(cs: seq<seq<Node>>, m: map<Key, Node>, all: set<Node>) {
      && |cs| == buckets.Length && (forall k :: index(k) < buckets.Length)
      && (forall i, j :: 0 <= i < |cs| && 0 <= j < |cs[i]| ==> cs[i][j] in all)
      && (forall i :: 0 <= i < |cs| ==> Housed(cs[i], i, m))
      && (forall k :: k in m ==> m[k].key == k && m[k] in cs[index(k)])
    }

    ghost predicate Valid()
      reads this, buckets, nodes`hashNext
    {
      && Consistent(chains, content, nodes)
      && (forall i :: 0 <= i < |chains| ==> Chained(buckets[i], chains[i]))
      && elements == |content|
    }

    lemma Added(cs: seq<seq<Node>>, m: map<Key, Node>, all: set<Node>, val: Node)
      requires Consistent(cs, m, all) && val.key !in m
      ensures Consistent(cs[index(val.key) := cs[index(val.key)] + [val]], m[val.key := val], all + {val})
    {
      var i := index(val.key);
      var cs', m' := cs[i := cs[i] + [val]], m[val.key := val];
      forall k | 0 <= k < |cs'| ensures Housed(cs'[k], k, m') {
        assert Housed(cs[k], k, m);
      }
      forall k | k in m' ensures m'[k].key == k && m'[k] in cs'[index(k)] {
        if k == val.key {
          assert cs'[i][|cs[i]|] == val;
        }
      }
    }

    lemma Removed(cs: seq<seq<Node>>, m: map<Key, Node>, all: set<Node>, i: nat, j: nat)
      requires Consistent(cs, m, all) && i < |cs| && j < |cs[i]|
      ensures cs[i][j].key in m && index(cs[i][j].key) == i
      ensures Consistent(cs[i := Without(cs[i], j)], m - {cs[i][j].key}, all)
    {
      assert Housed(cs[i], i, m);
      var c, val := cs[i], cs[i][j];
      var cs', m' := cs[i := Without(c, j)], m - {val.key};
      forall k | 0 <= k < |cs'| ensures Housed(cs'[k], k, m') {
        assert Housed(cs[k], k, m);
      }
      forall k | k in m' ensures m'[k].key == k && m'[k] in cs'[index(k)] {
        if index(k) == i {
          var x :| 0 <= x < |c| && c[x] == m[k];
          assert x != j;
          assert cs'[i][if x < j then x else x - 1] == m[k];
        }
      }
    }

    constructor (size: nat, hash: Key -> nat)
      requires size > 0
      ensures Valid() && content == map[] && nodes == {} && fresh(buckets) && buckets.Length == size
      ensures forall key :: index(key) == hash(key) % size
    {
      index := key => hash(key) % size;
      buckets := new Node?[size](_ => null);
      elements := 0;
      chains := seq(size, _ => []);
      content := map[];
      nodes := {};
    }

    /**
     * The walk all chain operations make: along the links to the entry with the key, or to the end. It returns the
     * entry and the one before it, which stand for the slot that holds it.
     */
    method Find(key: Key) returns (before: Node?, p: Node?, ghost j: nat)
      requires Valid()
      ensures var c := chains[index(key)];
              && j <= |c| && before == (if j == 0 then null else c[j - 1])
              && p == (if j < |c| then c[j] else null)
      ensures p != null ==> key in content && content[key] == p
      ensures p == null ==> key !in content
    {
      var i := index(key);
      ghost var c := chains[i];
      assert Chained(buckets[i], c) && Housed(c, i, content);
      before, p, j := null, buckets[i], 0;
      while p != null
        invariant j <= |c| && before == (if j == 0 then null else c[j - 1])
        invariant p == (if j < |c| then c[j] else null)
        invariant forall k :: 0 <= k < j ==> c[k].key != key
        decreases |c| - j
      {
        if p.key == key {
          return;
        }
        assert LinkAt(c, j);
        before, p, j := p, p.hashNext, j + 1;
      }
    }

    /** The slot of the chain's end takes the entry. */
    method Link(i: nat, before: Node?, val: Node)
      requires Valid() && i < buckets.Length && val !in nodes && val.hashNext == null
      requires var c := chains[i]; before == (if c == [] then null else c[|c| - 1])
      modifies buckets, nodes`hashNext
      ensures Chained(buckets[i], chains[i] + [val])
      ensures forall k :: 0 <= k < |chains| && k != i ==> Chained(buckets[k], chains[k])
    {
      ghost var c := chains[i];
      assert Chained(buckets[i], c) && Housed(c, i, content);
      if before == null {
        buckets[i] := val;
      } else {
        before.hashNext := val;
      }
      forall k | 0 <= k < |c + [val]| ensures LinkAt(c + [val], k) {
        if k < |c| {
          assert old(LinkAt(c, k));
        }
      }
      forall k | 0 <= k < |chains| && k != i ensures Chained(buckets[k], chains[k]) {
        assert old(Chained(buckets[k], chains[k])) && Housed(chains[k], k, content);
        forall j | 0 <= j < |chains[k]| ensures LinkAt(chains[k], j) {
          assert old(LinkAt(chains[k], j));
        }
      }
    }

    /** The chains are as linked now. */
    method Adopt(size: nat, ghost cs: seq<seq<Node>>, ghost m: map<Key, Node>, ghost all: set<Node>)
      requires size == |m| && Consistent(cs, m, all) && forall i :: 0 <= i < |cs| ==> Chained(buckets[i], cs[i])
      modifies this
      ensures Valid() && chains == cs && content == m && nodes == all
    {
      elements := size;
      chains, content, nodes := cs, m, all;
    }

    /** intrusive_put_nolock: to the end of the chain, unless the key is there. */
    method Put(val: Node) returns (ok: bool)
      requires Valid() && val !in nodes && val.hashNext == null
      modifies this, buckets, nodes`hashNext
      ensures Valid() && (ok <==> val.key !in old(content))
      ensures content == if ok then old(content)[val.key := val] else old(content)
      ensures nodes == if ok then old(nodes) + {val} else old(nodes)
    {
      var before, p, j := Find(val.key);
      if p != null {
        return false;
      }
      var i := index(val.key);
      Link(i, before, val);
      Added(chains, content, nodes, val);
      Adopt(elements + 1, chains[i := chains[i] + [val]], content[val.key := val], nodes + {val});
      ok := true;
    }

    /** The slot of an entry takes the link behind it. */
    method Unlink(i: nat, before: Node?, p: Node, ghost j: nat)
      requires Valid() && i < buckets.Length && j < |chains[i]| && p == chains[i][j]
      requires before == (if j == 0 then null else chains[i][j - 1])
      modifies buckets, nodes`hashNext
      ensures Chained(buckets[i], Without(chains[i], j))
      ensures forall k :: 0 <= k < |chains| && k != i ==> Chained(buckets[k], chains[k])
    {
      ghost var c := chains[i];
      assert Chained(buckets[i], c) && Housed(c, i, content);
      assert LinkAt(c, j);
      if before == null {
        buckets[i] := p.hashNext;
      } else {
        before.hashNext := p.hashNext;
      }
      ghost var c' := Without(c, j);
      forall k | 0 <= k < |c'| ensures LinkAt(c', k) {
        assert old(LinkAt(c, if k < j then k else k + 1));
      }
      forall k | 0 <= k < |chains| && k != i ensures Chained(buckets[k], chains[k]) {
        assert old(Chained(buckets[k], chains[k])) && Housed(chains[k], k, content);
        forall x | 0 <= x < |chains[k]| ensures LinkAt(chains[k], x) {
          assert old(LinkAt(chains[k], x));
        }
      }
    }

    /** erase_nolock and intrusive_erase_nolock: take the entry with the key out of its chain. */
    method Erase(key: Key) returns (p: Node?)
      requires Valid()
      modifies this, buckets, nodes`hashNext
      ensures Valid() && content == old(content) - {key} && nodes == old(nodes)
      ensures p == if key in old(content) then old(content)[key] else null
    {
      var before;
      ghost var j;
      before, p, j := Find(key);
      if p == null {
        return;
      }
      var i := index(key);
      Removed(chains, content, nodes, i, j);
      Unlink(i, before, p, j);
      Adopt(elements - 1, chains[i := Without(chains[i], j)], content - {key}, nodes);
    }

    /** intrusive_get_nolock */
    method Get(key: Key) returns (p: Node?)
      requires Valid()
      ensures p == if key in content then content[key] else null
    {
      var before;
      ghost var j;
      before, p, j := Find(key);
    }
  }
}
