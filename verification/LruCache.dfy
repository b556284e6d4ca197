/** The LRU cache: hash chains, recency list and memory counter kept together. */
module LruCache {
  import opened LruList
  import opened LruMap
  import opened LruTypes
  import S = LruSpec

  function EntryOf(n: Node): S.Entry {
    S.Entry(n.key, n.value, n.used)
  }

  ghost function Entries(order: seq<Node>): seq<S.Entry> {
    seq(|order|, i requires 0 <= i < |order| => EntryOf(order[i]))
  }

  /** The recency order and the content hold the same entries. */
  ghost predicate Agree(order: seq<Node>, m: map<Key, Node>) {
    && Distinct(order)
    && (forall i :: 0 <= i < |order| ==> order[i].key in m && m[order[i].key] == order[i])
    && (forall k :: k in m ==> m[k].key == k && m[k] in order)
  }

  /** The order without an entry, or the same order if the entry is not in it. */
  ghost predicate TakenOut(order: seq<Node>, order': seq<Node>, p: Node, k: nat) {
    if p in order then k < |order| && order[k] == p && order' == Without(order, k) else order' == order
  }

  lemma AgreeWithout(order: seq<Node>, m: map<Key, Node>, i: nat)
    requires Agree(order, m) && i < |order|
    ensures Agree(Without(order, i), m - {order[i].key})
  {
    var order', m' := Without(order, i), m - {order[i].key};
    forall k | k in m' ensures m'[k].key == k && m'[k] in order' {
      var x :| 0 <= x < |order| && order[x] == m[k];
      assert order'[if x < i then x else x - 1] == m[k];
    }
  }

  lemma AgreeFront(order: seq<Node>, m: map<Key, Node>, n: Node)
    requires Agree(order, m) && n.key !in m
    ensures Agree([n] + order, m[n.key := n])
  {
    var order', m' := [n] + order, m[n.key := n];
    forall i, j | 0 <= i < j < |order'| ensures order'[i] != order'[j] {
      assert order'[j] == order[j - 1];
      if i > 0 {
        assert order'[i] == order[i - 1];
      }
    }
    forall k | k in m' ensures m'[k].key == k && m'[k] in order' {
      if k != n.key {
        var x :| 0 <= x < |order| && order[x] == m[k];
        assert order'[x + 1] == m[k];
      }
    }
  }

  /** The key is in the content exactly when an entry of the order has it, and then that one is found. */
  lemma AgreeHas(order: seq<Node>, m: map<Key, Node>, key: Key)
    requires Agree(order, m)
    ensures S.Has(Entries(order), key) <==> key in m
    ensures key in m ==> order[S.Find(Entries(order), key)] == m[key]
  {
    if key in m {
      var x :| 0 <= x < |order| && order[x] == m[key];
      assert Entries(order)[x].key == key;
    }
  }

  lemma EntriesWithout(order: seq<Node>, i: nat)
    requires i < |order|
    ensures Entries(Without(order, i)) == Without(Entries(order), i)
  {
  }

  lemma EntriesFront(n: Node, order: seq<Node>)
    ensures Entries([n] + order) == [EntryOf(n)] + Entries(order)
  {
  }

  /** An entry moved to the front: the same content, and what get does to the order. */
  lemma Moved(order: seq<Node>, m: map<Key, Node>, p: Node, k: nat, used: nat)
    requires Agree(order, m) && k < |order| && order[k] == p
    ensures Agree([p] + Without(order, k), m)
    ensures S.State(Entries([p] + Without(order, k)), used) == S.Get(S.State(Entries(order), used), p.key)
  {
    MovedAgree(order, m, p, k);
    FoundAt(order, m, p, k);
    EntriesWithout(order, k);
    EntriesFront(p, Without(order, k));
  }

  lemma MovedAgree(order: seq<Node>, m: map<Key, Node>, p: Node, k: nat)
    requires Agree(order, m) && k < |order| && order[k] == p
    ensures Agree([p] + Without(order, k), m)
  {
    AgreeWithout(order, m, k);
    AgreeFront(Without(order, k), m - {p.key}, p);
    assert (m - {p.key})[p.key := p] == m;
  }

  /** An entry of the order is found by its key. */
  lemma FoundAt(order: seq<Node>, m: map<Key, Node>, p: Node, k: nat)
    requires Agree(order, m) && k < |order| && order[k] == p
    ensures S.Has(Entries(order), p.key) && S.Find(Entries(order), p.key) == k
  {
    AgreeHas(order, m, p.key);
  }

  /** An entry taken out: the content without its key, and what erase does to the order. */
  lemma Erased(order: seq<Node>, m: map<Key, Node>, p: Node, k: nat, used: nat)
    requires Agree(order, m) && k < |order| && order[k] == p
    ensures Agree(Without(order, k), m - {p.key})
    ensures S.State(Entries(Without(order, k)), S.Sub64(used, p.used)) == S.Erase(S.State(Entries(order), used), p.key)
  {
    FoundAt(order, m, p, k);
    AgreeWithout(order, m, k);
    EntriesWithout(order, k);
  }

  class LRUCache {
    const table: HashMap
    const list: RecencyList
    const limit: nat
    var memUsed: nat
    var hits: nat
    var queries: nat

    /** What holds at every point between list and map operations. */
    ghost predicate Sound()
      reads table, table.buckets, table.nodes`hashNext, list, list.repr`next, list.repr`prev
    {
      && table.Valid() && list.Valid() && limit < S.WORD
      && list.header !in table.nodes && list.tail !in table.nodes
    }

    ghost predicate Valid()
      reads table, table.buckets, table.nodes`hashNext, list, list.repr`next, list.repr`prev
    {
      Sound() && Agree(list.Order(), table.content)
    }

    ghost function State(): S.State
      requires |list.ring| >= 2
      reads this`memUsed, list
    {
      S.State(Entries(list.Order()), memUsed)
    }

    constructor (buckets: nat, hash: Key -> nat, limit: nat)
      requires buckets > 0 && limit < S.WORD
      ensures Valid() && State() == S.EMPTY && this.limit == limit
      ensures forall key :: table.index(key) == hash(key) % buckets
      ensures fresh(table) && fresh(table.buckets) && fresh(list) && fresh(list.repr) && table.nodes == {}
    {
      table := new HashMap(buckets, hash);
      list := new RecencyList();
      this.limit := limit;
      memUsed, hits, queries := 0, 0, 0;
    }

    /** Take the lock of a bucket, which would never come if this thread held it. */
    method Lock(i: nat, held: set<nat>) returns (held': set<nat>)
      requires i !in held
      ensures held' == held + {i}
    {
      held' := held + {i};
    }

    /** get: the entry moves to the front. */
    method Get(key: Key) returns (found: bool, value: Value)
      requires Valid()
      modifies this, list, list.repr`prev, list.repr`next
      ensures Valid() && State() == S.Get(old(State()), key)
      ensures found <==> S.Has(old(State()).order, key)
      ensures found ==> value == old(State()).order[S.Find(old(State()).order, key)].value
      ensures queries == old(queries) + 1 && hits == old(hits) + if found then 1 else 0
    {
      queries := queries + 1;
      var held := Lock(table.index(key), {});
      var p := table.Get(key);
      GetHook(key, p);
      found, value := p != null, if p == null then 0 else p.value;
    }

    /** What get does with the entry found. */
    method GetHook(key: Key, p: Node?)
      requires Sound() && Agree(list.Order(), table.content)
      requires p == if key in table.content then table.content[key] else null
      modifies this`hits, list, list.repr`prev, list.repr`next
      ensures Sound() && Agree(list.Order(), table.content) && State() == S.Get(old(State()), key)
      ensures hits == old(hits) + if p != null then 1 else 0
      ensures p != null <==> S.Has(old(State()).order, key)
      ensures p != null ==> p.value == old(State()).order[S.Find(old(State()).order, key)].value
    {
      AgreeHas(list.Order(), table.content, key);
      if p != null {
        hits := hits + 1;
        MoveToFront(p);
      }
    }

    /** The entry leaves the list. */
    method Unlink(p: Node) returns (ok: bool, ghost k: nat)
      requires Sound() && p in list.Order()
      modifies list, list.repr`prev, list.repr`next
      ensures Sound() && ok && p.prev == null && p in list.repr && list.repr == old(list.repr)
      ensures k < |old(list.Order())| && old(list.Order())[k] == p && list.Order() == Without(old(list.Order()), k)
    {
      ok, k := list.Remove(p);
    }

    /** The entry comes to the front of the list. */
    method Relink(p: Node)
      requires Sound() && p in table.nodes && p in list.repr && p.prev == null
      modifies list, list.repr`prev, list.repr`next
      ensures Sound() && list.Order() == [p] + old(list.Order())
    {
      list.PushFront(p);
    }

    method MoveToFront(p: Node)
      requires Sound() && Agree(list.Order(), table.content) && p.key in table.content && table.content[p.key] == p
      modifies list, list.repr`prev, list.repr`next
      ensures Sound() && Agree(list.Order(), table.content) && State() == S.Get(old(State()), p.key)
    {
      ghost var order := list.Order();
      var ok, k := Unlink(p);
      Moved(order, table.content, p, k, memUsed);
      if ok {
        Relink(p);
      }
    }

    /** What erase does with an entry taken from its chain: out of the list, unless it has left it already. */
    method EraseHook(p: Node) returns (ghost k: nat)
      requires Sound() && (p in list.Order() || p.prev == null)
      modifies this`memUsed, list, list.repr`prev, list.repr`next
      ensures Sound() && memUsed == S.Sub64(old(memUsed), p.used) && list.repr == old(list.repr)
      ensures TakenOut(old(list.Order()), list.Order(), p, k) && p.prev == null
    {
      var ok;
      ok, k := list.Remove(p);
      memUsed := S.Sub64(memUsed, p.used);
    }

    /** The part of intrusive_erase under the lock. */
    method EraseLocked(key: Key) returns (ghost k: nat)
      requires Sound()
      requires key in table.content ==> table.content[key] in list.Order() || table.content[key].prev == null
      modifies this`memUsed, table, table.buckets, table.nodes`hashNext, list, list.repr`prev, list.repr`next
      ensures Sound() && list.repr == old(list.repr) && table.nodes == old(table.nodes)
      ensures table.content == old(table.content) - {key}
      ensures key !in old(table.content) ==> list.Order() == old(list.Order()) && memUsed == old(memUsed)
      ensures key in old(table.content) ==> TakenOut(old(list.Order()), list.Order(), old(table.content)[key], k)
      ensures key in old(table.content) ==> memUsed == S.Sub64(old(memUsed), old(table.content)[key].used)
      ensures key in old(table.content) ==> old(table.content)[key].prev == null
    {
      k := 0;
      var p := table.Erase(key);
      if p != null {
        k := EraseHook(p);
      }
    }

    /** intrusive_erase, which takes the lock of the key's bucket. */
    method IntrusiveErase(key: Key, held: set<nat>) returns (ghost k: nat)
      requires Sound() && table.index(key) !in held
      requires key in table.content ==> table.content[key] in list.Order() || table.content[key].prev == null
      modifies this`memUsed, table, table.buckets, table.nodes`hashNext, list, list.repr`prev, list.repr`next
      ensures Sound() && list.repr == old(list.repr) && table.nodes == old(table.nodes)
      ensures table.content == old(table.content) - {key}
      ensures key !in old(table.content) ==> list.Order() == old(list.Order()) && memUsed == old(memUsed)
      ensures key in old(table.content) ==> TakenOut(old(list.Order()), list.Order(), old(table.content)[key], k)
      ensures key in old(table.content) ==> memUsed == S.Sub64(old(memUsed), old(table.content)[key].used)
      ensures key in old(table.content) ==> old(table.content)[key].prev == null
    {
      var held' := Lock(table.index(key), held);
      k := EraseLocked(key);
    }

    /** erase */
    method Erase(key: Key)
      requires Valid()
      modifies this`memUsed, table, table.buckets, table.nodes`hashNext, list, list.repr`prev, list.repr`next
      ensures Valid() && State() == S.Erase(old(State()), key) && table.content == old(table.content) - {key}
    {
      ghost var order, m, used := list.Order(), table.content, memUsed;
      AgreeHas(order, m, key);
      ghost var k := IntrusiveErase(key, {});
      if key in m {
        Erased(order, m, m[key], k, used);
      }
    }

    /** Between the put of an entry in its chain and its push to the list, everything else agrees. */
    ghost predicate Putting(val: Node)
      reads table, table.buckets, table.nodes`hashNext, list, list.repr`next, list.repr`prev
    {
      && Sound() && val.key in table.content && table.content[val.key] == val && val !in list.repr
      && Agree(list.Order(), table.content - {val.key})
    }

    /** The entry's bucket is locked already: out of its chain, and the counter goes down. */
    method DropHere(p: Node)
      requires Sound() && p.key in table.content && table.content[p.key] == p
      modifies this`memUsed, table, table.buckets, table.nodes`hashNext
      ensures Sound() && table.nodes == old(table.nodes) && table.content == old(table.content) - {p.key}
      ensures memUsed == S.Sub64(old(memUsed), p.used)
    {
      var q := table.Erase(p.key);
      memUsed := S.Sub64(memUsed, p.used);
    }

    /** Take an entry that has left the list out of its chain: without the lock if its bucket's is held already. */
    method DropEntry(p: Node, val: Node)
      requires Sound() && p.key in table.content && table.content[p.key] == p && p.prev == null && p !in list.Order()
      modifies this`memUsed, table, table.buckets, table.nodes`hashNext, list, list.repr`prev, list.repr`next
      ensures Sound() && list.repr == old(list.repr) && table.nodes == old(table.nodes)
      ensures table.content == old(table.content) - {p.key} && list.Order() == old(list.Order())
      ensures memUsed == S.Sub64(old(memUsed), p.used)
    {
      if table.index(val.key) == table.index(p.key) {
        DropHere(p);
      } else {
        ghost var k := IntrusiveErase(p.key, {table.index(val.key)});
        var ok, k' := list.Remove(p);
      }
    }

    /** One round of release_nodes: the least recent entry goes. */
    method EvictOne(val: Node) returns (p: Node?)
      requires Putting(val)
      modifies this`memUsed, table, table.buckets, table.nodes`hashNext, list, list.repr`prev, list.repr`next
      ensures Putting(val) && list.repr == old(list.repr) && table.nodes == old(table.nodes)
      ensures p == null <==> old(list.Order()) == []
      ensures p == null ==> State() == old(State())
      ensures p != null ==> old(list.Order()) == list.Order() + [p] && memUsed == S.Sub64(old(memUsed), p.used)
    {
      ghost var order, m := list.Order(), table.content - {val.key};
      p := list.PopBack();
      if p == null {
        return;
      }
      ghost var n := |order| - 1;
      assert order[n] == p;
      AgreeWithout(order, m, n);
      assert Without(order, n) == list.Order();
      DropEntry(p, val);
      assert m - {p.key} == table.content - {val.key};
    }

    /** release_nodes: `mem` counts down in 64 bits, and wraps when a larger entry goes. */
    method ReleaseNodes(mem: nat, val: Node)
      requires Putting(val)
      modifies this`memUsed, table, table.buckets, table.nodes`hashNext, list, list.repr`prev, list.repr`next
      ensures Putting(val) && list.repr == old(list.repr) && table.nodes == old(table.nodes)
      ensures State() == S.Evict(old(State()), mem)
    {
      var left := mem;
      ghost var target := S.Evict(State(), mem);
      while left > 0
        invariant Putting(val) && list.repr == old(list.repr) && table.nodes == old(table.nodes)
        invariant S.Evict(State(), left) == target
        decreases |list.Order()|
      {
        ghost var s := State();
        var p := EvictOne(val);
        if p == null {
          break;
        }
        EvictRound(s, list.Order(), p, left);
        left := S.Sub64(left, p.used);
      }
    }

    /** Make room if the sum, which has 64 bits, is over the limit. */
    method MakeRoom(val: Node)
      requires Putting(val)
      modifies this`memUsed, table, table.buckets, table.nodes`hashNext, list, list.repr`prev, list.repr`next
      ensures Putting(val) && list.repr == old(list.repr) && table.nodes == old(table.nodes)
      ensures State() == S.MakeRoom(limit, old(State()), val.used)
    {
      if S.Add64(val.used, memUsed) > limit {
        ReleaseNodes(val.used, val);
      }
    }

    /** The put hook: make room, then count the entry, again in 64 bits. */
    method PutHook(val: Node)
      requires Putting(val)
      modifies this`memUsed, table, table.buckets, table.nodes`hashNext, list, list.repr`prev, list.repr`next
      ensures Putting(val) && list.repr == old(list.repr) && table.nodes == old(table.nodes)
      ensures var s := S.MakeRoom(limit, old(State()), val.used);
              Entries(list.Order()) == s.order && memUsed == S.Add64(s.used, val.used)
    {
      MakeRoom(val);
      memUsed := S.Add64(memUsed, val.used);
    }

    /** The entry goes to the end of its chain, unless its key is there. */
    method PutInChain(val: Node) returns (ok: bool)
      requires Valid() && val !in table.nodes && val !in list.repr && val.hashNext == null
      modifies table, table.buckets, table.nodes`hashNext
      ensures ok == !S.Has(Entries(list.Order()), val.key) && table.nodes <= old(table.nodes) + {val}
      ensures if ok then Putting(val) else Valid()
    {
      ghost var m := table.content;
      AgreeHas(list.Order(), m, val.key);
      ok := table.Put(val);
      assert ok ==> table.content - {val.key} == m;
    }

    /** intrusive_put, under the lock of the key's bucket. */
    method IntrusivePut(val: Node) returns (ok: bool)
      requires Valid() && val !in table.nodes && val !in list.repr && val.hashNext == null
      modifies this`memUsed, table, table.buckets, table.nodes`hashNext, val`hashNext
      modifies list, list.repr`prev, list.repr`next
      ensures list.repr == old(list.repr) && table.nodes <= old(table.nodes) + {val}
      ensures ok == S.Accepts(limit, old(State()), EntryOf(val))
      ensures !ok ==> Valid() && State() == old(State())
      ensures ok ==> Putting(val)
      ensures ok ==> var s := S.MakeRoom(limit, old(State()), val.used);
                     Entries(list.Order()) == s.order && memUsed == S.Add64(s.used, val.used)
    {
      var held := Lock(table.index(val.key), {});
      if val.used > limit {
        return false;
      }
      ok := PutInChain(val);
      if ok {
        PutHook(val);
      }
    }

    /** push_front of an entry just put. */
    method PushEntry(val: Node)
      requires Putting(val) && val.prev == null
      modifies list, val`prev, val`next, list.repr`prev, list.repr`next
      ensures Valid() && Entries(list.Order()) == [EntryOf(val)] + Entries(old(list.Order()))
      ensures list.repr == old(list.repr) + {val}
    {
      ghost var m := table.content - {val.key};
      AgreeFront(list.Order(), m, val);
      assert m[val.key := val] == table.content;
      EntriesFront(val, list.Order());
      list.PushFront(val);
    }

    /** put: refused when the entry is larger than the cache or the key is there, else the entry comes to the front. */
    method Put(key: Key, mem: nat, value: Value) returns (ok: bool)
      requires Valid()
      modifies this, table, table.buckets, table.nodes`hashNext, list, list.repr`prev, list.repr`next
      ensures Valid() && State() == S.Put(limit, old(State()), S.Entry(key, value, mem))
      ensures ok == S.Accepts(limit, old(State()), S.Entry(key, value, mem))
      ensures fresh(table.nodes - old(table.nodes)) && fresh(list.repr - old(list.repr))
    {
      var p := new Node(key, mem, value);
      ok := IntrusivePut(p);
      if ok {
        PushEntry(p);
      }
    }
  }

  lemma EvictRound(s: S.State, order: seq<Node>, p: Node, left: nat)
    requires left > 0 && s.order == Entries(order + [p])
    ensures S.Evict(s, left) == S.Evict(S.State(Entries(order), S.Sub64(s.used, p.used)), S.Sub64(left, p.used))
  {
    var n := |order|;
    assert s.order[..n] == Entries(order) && s.order[n] == EntryOf(p);
  }
}
