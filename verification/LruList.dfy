/** Cache entries and the recency list, an intrusive doubly linked list with two sentinels, used by one thread. */
module LruList {
  import opened LruTypes

  class Node {
    const key: Key
    const value: Value
    const used: nat
    var prev: Node?
    var next: Node?
    var hashNext: Node?

    constructor (key: Key, used: nat, value: Value)
      ensures this.key == key && this.used == used && this.value == value
      ensures prev == null && next == null && hashNext == null
    {
      this.key := key;
      this.used := used;
      this.value := value;
      prev, next, hashNext := null, null, null;
    }
  }

  ghost predicate Distinct(s: seq<Node>) {
    forall i, j :: 0 <= i < j < |s| ==> s[i] != s[j]
  }

  /** Neighbours point at each other. */
  ghost predicate JoinAt(ring: seq<Node>, i: nat)
    requires i + 1 < |ring|
    reads ring`next, ring`prev
  {
    ring[i].next == ring[i + 1] && ring[i + 1].prev == ring[i]
  }

  ghost predicate Joined(ring: seq<Node>)
    reads ring`next, ring`prev
  {
    forall i :: 0 <= i < |ring| - 1 ==> JoinAt(ring, i)
  }

  function Inner(ring: seq<Node>): seq<Node>
    requires |ring| >= 2
  {
    ring[1..|ring| - 1]
  }

  lemma InnerWithout(ring: seq<Node>, k: nat)
    requires |ring| >= 3 && k < |ring| - 2
    ensures Inner(ring[..k + 1] + ring[k + 2..]) == Inner(ring)[..k] + Inner(ring)[k + 1..]
  {
    var a, b := Inner(ring[..k + 1] + ring[k + 2..]), Inner(ring)[..k] + Inner(ring)[k + 1..];
    assert |a| == |b|;
    assert forall i :: 0 <= i < |a| ==> a[i] == b[i];
  }

  lemma InnerFront(ring: seq<Node>, cur: Node)
    requires |ring| >= 2
    ensures Inner([ring[0], cur] + ring[1..]) == [cur] + Inner(ring)
  {
    var a, b := Inner([ring[0], cur] + ring[1..]), [cur] + Inner(ring);
    assert |a| == |b|;
    assert forall i :: 0 <= i < |a| ==> a[i] == b[i];
  }

  class RecencyList {
    const header: Node
    const tail: Node
    var size: nat
    ghost var ring: seq<Node>   // the header, the entries from the most recent on, the tail
    ghost var repr: set<Node>   // every node that was ever in the list

    ghost predicate Valid()
      reads this, repr`next, repr`prev
    {
      && (forall i :: 0 <= i < |ring| ==> ring[i] in repr)
      && |ring| >= 2 && ring[0] == header && ring[|ring| - 1] == tail
      && Distinct(ring) && Joined(ring) && header.prev == null && tail.next == null
      && size == |ring| - 2
    }

    ghost function Order(): seq<Node>
      requires |ring| >= 2
      reads this
    {
      Inner(ring)
    }

    constructor ()
      ensures Valid() && Order() == [] && fresh(repr)
    {
      var h := new Node(0, 0, 0);
      var t := new Node(0, 0, 0);
      header, tail, size, ring, repr := h, t, 0, [h, t], {h, t};
      new;
      header.next := tail;
      tail.prev := header;
    }

    /** push_front with insert_once, which meets no other thread. A node that is in a list already is left alone. */
    method PushFront(cur: Node)
      requires Valid() && cur != header && cur != tail
      modifies this, cur`prev, cur`next, repr`prev, repr`next
      ensures Valid()
      ensures old(cur.prev) != null ==> ring == old(ring) && repr == old(repr)
      ensures old(cur.prev) == null ==> cur !in old(ring) && ring == [header, cur] + old(ring)[1..]
      ensures old(cur.prev) == null ==> repr == old(repr) + {cur}
      ensures old(cur.prev) == null ==> Order() == [cur] + old(Order())
    {
      if cur.prev != null {
        return;
      }
      forall k | 1 <= k < |ring| ensures ring[k].prev != null {
        assert JoinAt(ring, k - 1);
      }
      var next := header.next;
      assert JoinAt(ring, 0);
      cur.prev := header;
      cur.next := next;
      header.next := cur;
      next.prev := cur;
      size := size + 1;
      InnerFront(ring, cur);
      ring, repr := [header, cur] + ring[1..], repr + {cur};
      forall i | 0 <= i < |ring| - 1 ensures JoinAt(ring, i) {
        if i >= 2 {
          assert old(JoinAt(ring, i - 1));
        }
      }
    }

    /** remove_once: it meets no other thread, so each of its compare-and-swaps succeeds. */
    method RemoveOnce(prev: Node, next: Node, cur: Node, ghost k: nat)
      requires Valid() && 1 <= k < |ring| - 1 && ring[k - 1] == prev && ring[k] == cur && ring[k + 1] == next
      modifies this, repr`prev, repr`next
      ensures Valid() && ring == old(ring)[..k] + old(ring)[k + 1..] && repr == old(repr)
      ensures cur.prev == null && cur.next == null
    {
      assert JoinAt(ring, k - 1) && JoinAt(ring, k);
      cur.prev := null;
      cur.next := null;
      prev.next := next;
      next.prev := prev;
      size := size - 1;
      ghost var was := ring;
      ring := ring[..k] + ring[k + 1..];
      forall i | 0 <= i < |ring| - 1 ensures JoinAt(ring, i) {
        assert old(JoinAt(ring, if i < k then i else i + 1));
      }
    }

    /** remove: an entry that is in no list is left alone. */
    method Remove(p: Node) returns (ok: bool, ghost k: nat)
      requires Valid() && (p in Order() || p.prev == null)
      modifies this, repr`prev, repr`next
      ensures Valid() && repr == old(repr) && (ok <==> old(p in Order()))
      ensures !ok ==> ring == old(ring)
      ensures p.prev == null && (ok ==> p.next == null && p in repr)
      ensures ok ==> k < |old(Order())| && old(Order())[k] == p
      ensures ok ==> Order() == old(Order())[..k] + old(Order())[k + 1..]
    {
      ok, k := false, 0;
      var prev, next := p.prev, p.next;
      if p in Order() {
        k :| 0 <= k < |Order()| && Order()[k] == p;
        assert JoinAt(ring, k) && JoinAt(ring, k + 1);
      }
      if prev == null || next == null {
        return;
      }
      InnerWithout(ring, k);
      RemoveOnce(prev, next, p, k + 1);
      ok := true;
    }

    /** pop_back takes the least recently used entry. */
    method PopBack() returns (p: Node?)
      requires Valid()
      modifies this, repr`prev, repr`next
      ensures Valid() && repr == old(repr) && (p == null <==> old(Order()) == [])
      ensures p == null ==> ring == old(ring)
      ensures p != null ==> old(Order()) == Order() + [p] && p.prev == null && p.next == null
    {
      assert JoinAt(ring, |ring| - 2);
      var cur := tail.prev;
      if cur == header {
        return null;
      }
      assert JoinAt(ring, |ring| - 3);
      ghost var order := Order();
      InnerWithout(ring, |ring| - 3);
      RemoveOnce(cur.prev, tail, cur, |ring| - 2);
      assert order == Order() + [cur];
      p := cur;
    }
  }
}
