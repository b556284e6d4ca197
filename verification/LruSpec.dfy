/** What the cache maps. */
module LruTypes {
  type Key = int
  type Value = int

  /** The sequence without the element at a position. */
  function Without<T>(s: seq<T>, i: nat): seq<T>
    requires i < |s|
  {
    s[..i] + s[i + 1..]
  }
}

/** What the cache does, on values: the recency order, most recent first, and the memory counter, which has 64 bits. */
module LruSpec {
  import opened LruTypes
  import opened Options

  const WORD: nat := 0x1_0000_0000_0000_0000

  datatype Entry = Entry(key: Key, value: Value, used: nat)

  datatype State = State(order: seq<Entry>, used: nat)

  const EMPTY: State := State([], 0)

  function Sum(s: seq<Entry>): nat {
    if s == [] then 0 else Sum(s[..|s| - 1]) + s[|s| - 1].used
  }

  function Add64(a: nat, b: nat): nat {
    (a + b) % WORD
  }

  function Sub64(a: nat, b: nat): nat {
    (a - b) % WORD
  }

  predicate Has(order: seq<Entry>, key: Key) {
    exists i :: 0 <= i < |order| && order[i].key == key
  }

  function Find(order: seq<Entry>, key: Key): (i: nat)
    requires Has(order, key)
    ensures i < |order| && order[i].key == key && forall j :: 0 <= j < i ==> order[j].key != key
  {
    if order[0].key == key then 0
    else
      assert Has(order[1..], key) by {
        var i :| 0 <= i < |order| && order[i].key == key;
        assert order[1..][i - 1].key == key;
      }
      1 + Find(order[1..], key)
  }

  // ---- The operations ----

  /** release_nodes: drop entries from the back until exactly `left` is made up; that number wraps when it is passed. */
  function Evict(s: State, left: nat): State
    decreases |s.order|
  {
    if left == 0 || s.order == [] then s
    else
      var n := |s.order| - 1;
      Evict(State(s.order[..n], Sub64(s.used, s.order[n].used)), Sub64(left, s.order[n].used))
  }

  /** Room for an entry, if the sum of its size and the counter, in 64 bits, is over the limit. */
  function MakeRoom(limit: nat, s: State, used: nat): State {
    if Add64(used, s.used) > limit then Evict(s, used) else s
  }

  predicate Accepts(limit: nat, s: State, e: Entry) {
    e.used <= limit && !Has(s.order, e.key)
  }

  function Put(limit: nat, s: State, e: Entry): State {
    if !Accepts(limit, s, e) then s
    else
      var s' := MakeRoom(limit, s, e.used);
      State([e] + s'.order, Add64(s'.used, e.used))
  }

  function Get(s: State, key: Key): State {
    if !Has(s.order, key) then s
    else
      var i := Find(s.order, key);
      s.(order := [s.order[i]] + Without(s.order, i))
  }

  function Erase(s: State, key: Key): State {
    if !Has(s.order, key) then s
    else
      var i := Find(s.order, key);
      State(Without(s.order, i), Sub64(s.used, s.order[i].used))
  }

  // ---- The counter is the sum of the sizes and stays within the limit ----

  predicate Fine(limit: nat, s: State) {
    s.used == Sum(s.order) <= limit
  }

  lemma {:induction false} SumConcat(a: seq<Entry>, b: seq<Entry>)
    ensures Sum(a + b) == Sum(a) + Sum(b)
    decreases |b|
  {
    if b == [] {
      assert a + b == a;
    } else {
      var n := |b| - 1;
      assert (a + b)[..|a| + n] == a + b[..n];
      SumConcat(a, b[..n]);
    }
  }

  lemma SumOne(e: Entry)
    ensures Sum([e]) == e.used
  {
    assert [e][..0] == [];
  }

  lemma SumFront(e: Entry, order: seq<Entry>)
    ensures Sum([e] + order) == e.used + Sum(order)
  {
    SumConcat([e], order);
    SumOne(e);
  }

  lemma SumAround(a: seq<Entry>, e: Entry, b: seq<Entry>)
    ensures Sum(a + ([e] + b)) == Sum(a + b) + e.used
  {
    SumConcat(a, [e] + b);
    SumFront(e, b);
    SumConcat(a, b);
  }

  lemma SumWithout(s: seq<Entry>, i: nat)
    requires i < |s|
    ensures Sum(s) == Sum(Without(s, i)) + s[i].used
  {
    SplitAt(s, i);
    SumAround(s[..i], s[i], s[i + 1..]);
  }

  lemma SplitAt(s: seq<Entry>, i: nat)
    requires i < |s|
    ensures s == s[..i] + ([s[i]] + s[i + 1..])
  {
  }

  lemma Exact64(a: nat, b: nat)
    requires a < WORD
    ensures b <= a ==> Sub64(a, b) == a - b
    ensures a < b < WORD ==> Sub64(a, b) == a - b + WORD
  {
  }

  /** Whatever the counter says, eviction keeps a front of the order. */
  lemma {:induction false} EvictKeepsOrder(s: State, left: nat)
    ensures var k := |Evict(s, left).order|;
            k <= |s.order| && Evict(s, left).order == s.order[..k]
    decreases |s.order|
  {
    if left != 0 && s.order != [] {
      var n := |s.order| - 1;
      var t, left' := State(s.order[..n], Sub64(s.used, s.order[n].used)), Sub64(left, s.order[n].used);
      EvictKeepsOrder(t, left');
      assert s.order[..n][..|Evict(t, left').order|] == s.order[..|Evict(t, left').order|];
    } else {
      assert s.order[..|s.order|] == s.order;
    }
  }

  /** The counter goes down by the sizes of the entries dropped. */
  lemma {:induction false} EvictCounts(s: State, left: nat)
    requires s.used == Sum(s.order) < WORD
    ensures var s' := Evict(s, left); s'.used == Sum(s'.order) <= s.used
    decreases |s.order|
  {
    if left != 0 && s.order != [] {
      var n := |s.order| - 1;
      Exact64(s.used, s.order[n].used);
      EvictCounts(State(s.order[..n], Sub64(s.used, s.order[n].used)), Sub64(left, s.order[n].used));
    }
  }

  lemma Sub64Twice(a: nat, b: nat, c: nat)
    ensures Sub64(Sub64(a, b), c) == Sub64(a, b + c)
  {
    var q, r := (a - b) / WORD, Sub64(a, b);
    assert a - (b + c) == r - c + WORD * q;
    WholeWords(r - c, q);
  }

  lemma WholeWords(x: int, q: int)
    ensures (x + WORD * q) % WORD == x % WORD
  {
  }

  /** What dropping all but the first k entries makes up. */
  function Dropped(order: seq<Entry>, k: nat): nat
    requires k <= |order|
    decreases |order|
  {
    if k == |order| then 0 else order[|order| - 1].used + Dropped(order[..|order| - 1], k)
  }

  lemma {:induction false} DroppedIsSum(order: seq<Entry>, k: nat)
    requires k <= |order|
    ensures Sum(order) == Sum(order[..k]) + Dropped(order, k)
    decreases |order|
  {
    if k == |order| {
      assert order[..k] == order;
    } else {
      var n := |order| - 1;
      DroppedIsSum(order[..n], k);
      assert order[..n][..k] == order[..k];
    }
  }

  /** Eviction stops where the sizes dropped make up `left` for the first time, however often the number wraps. */
  lemma {:induction false} EvictStops(s: State, left: nat)
    requires left < WORD
    ensures var k := |Evict(s, left).order|;
            && k <= |s.order|
            && (k > 0 ==> Sub64(left, Dropped(s.order, k)) == 0)
            && forall j :: k < j <= |s.order| ==> Sub64(left, Dropped(s.order, j)) != 0
    decreases |s.order|
  {
    if left != 0 && s.order != [] {
      var n := |s.order| - 1;
      var u := s.order[n].used;
      var t, left' := State(s.order[..n], Sub64(s.used, u)), Sub64(left, u);
      EvictStops(t, left');
      forall j | 0 <= j <= n ensures Sub64(left, Dropped(s.order, j)) == Sub64(left', Dropped(t.order, j)) {
        Sub64Twice(left, u, Dropped(t.order, j));
      }
    }
  }

  lemma MadeUp(left: nat, d: nat)
    requires left < WORD && d < WORD
    ensures Sub64(left, d) == 0 <==> d == left
  {
    Exact64(left, d);
  }

  /**
   * Making room for an entry: the most recent entries stay, and the counter is at most the limit with the entry added,
   * because what was dropped makes up exactly its size or nothing is left.
   */
  lemma EvictMakesRoom(limit: nat, s: State, used: nat)
    requires Fine(limit, s) && used <= limit < WORD
    ensures var s' := Evict(s, used);
            && s'.used == Sum(s'.order) && s'.used + used <= limit
            && |s'.order| <= |s.order| && s'.order == s.order[..|s'.order|]
  {
    EvictKeepsOrder(s, used);
    EvictCounts(s, used);
    EvictStops(s, used);
    var k := |Evict(s, used).order|;
    DroppedIsSum(s.order, k);
    MadeUp(used, Dropped(s.order, k));
  }

  lemma Add64Exact(a: nat, b: nat)
    requires a < WORD && b < WORD
    ensures Add64(a, b) == if a + b < WORD then a + b else a + b - WORD
  {
  }

  /** Without overflow, room is made so that the entry fits. */
  lemma RoomIsMade(limit: nat, s: State, used: nat)
    requires Fine(limit, s) && used <= limit < WORD && s.used + used < WORD
    ensures var s' := MakeRoom(limit, s, used); s'.used == Sum(s'.order) && s'.used + used <= limit
  {
    Add64Exact(used, s.used);
    EvictMakesRoom(limit, s, used);
  }

  /** put keeps the counter right exactly when adding the size to it does not overflow. */
  lemma PutFine(limit: nat, s: State, e: Entry)
    requires Fine(limit, s) && limit < WORD && Accepts(limit, s, e)
    ensures Fine(limit, Put(limit, s, e)) <==> s.used + e.used < WORD
  {
    var s' := MakeRoom(limit, s, e.used);
    SumFront(e, s'.order);
    if s.used + e.used < WORD {
      RoomIsMade(limit, s, e.used);
      Add64Exact(s'.used, e.used);
    } else {
      Add64Exact(e.used, s.used);
    }
  }

  /** put puts the entry in front of the most recent entries and drops only a tail of the others, also when the counter
      has gone wrong. */
  lemma PutOrder(limit: nat, s: State, e: Entry)
    requires Accepts(limit, s, e)
    ensures var order := Put(limit, s, e).order;
            && 0 < |order| <= 1 + |s.order| && order == [e] + s.order[..|order| - 1]
  {
    EvictKeepsOrder(s, e.used);
    assert s.order[..|s.order|] == s.order;
  }

  lemma DroppedIsTail(order: seq<Entry>, k: nat)
    requires k <= |order|
    ensures Dropped(order, k) == Sum(order[k..])
  {
    DroppedIsSum(order, k);
    SumConcat(order[..k], order[k..]);
    assert order[..k] + order[k..] == order;
  }

  /** The shortest tail whose sizes make up this much exactly goes, or everything if there is none. */
  predicate ShortestTail(order: seq<Entry>, k: nat, used: nat)
    requires k <= |order|
  {
    && (k > 0 ==> Sum(order[k..]) == used)
    && forall j :: k < j <= |order| ==> Sum(order[j..]) != used
  }

  lemma EvictsShortestTail(limit: nat, s: State, used: nat)
    requires Fine(limit, s) && used <= limit < WORD
    ensures var k := |Evict(s, used).order|;
            k <= |s.order| && Evict(s, used).order == s.order[..k] && ShortestTail(s.order, k, used)
  {
    EvictKeepsOrder(s, used);
    EvictStops(s, used);
    var k := |Evict(s, used).order|;
    forall j | k <= j <= |s.order| ensures Sub64(used, Dropped(s.order, j)) == 0 <==> Sum(s.order[j..]) == used {
      DroppedIsTail(s.order, j);
      DroppedIsSum(s.order, j);
      MadeUp(used, Dropped(s.order, j));
    }
  }

  /**
   * When an entry goes: put drops nothing if the entry fits, nor if the sum is so large that it wraps; otherwise the
   * shortest tail that makes up its size exactly goes, or everything.
   */
  lemma PutEvicts(limit: nat, s: State, e: Entry)
    requires Fine(limit, s) && limit < WORD && Accepts(limit, s, e)
    ensures var sum, order := Sum(s.order) + e.used, Put(limit, s, e).order;
            if limit < sum < WORD then
              0 < |order| <= 1 + |s.order| && order == [e] + s.order[..|order| - 1]
              && ShortestTail(s.order, |order| - 1, e.used)
            else order == [e] + s.order
  {
    Add64Exact(e.used, s.used);
    EvictsShortestTail(limit, s, e.used);
  }

  lemma GetFine(limit: nat, s: State, key: Key)
    requires Fine(limit, s)
    ensures Fine(limit, Get(s, key))
  {
    if Has(s.order, key) {
      var i := Find(s.order, key);
      SumWithout(s.order, i);
      SumFront(s.order[i], Without(s.order, i));
    }
  }

  lemma EraseFine(limit: nat, s: State, key: Key)
    requires Fine(limit, s) && limit < WORD
    ensures Fine(limit, Erase(s, key))
  {
    if Has(s.order, key) {
      var i := Find(s.order, key);
      SumWithout(s.order, i);
      Exact64(s.used, s.order[i].used);
    }
  }

  // ---- Whole runs ----

  datatype Call = CallPut(e: Entry) | CallGet(key: Key) | CallErase(key: Key)

  function Step(limit: nat, s: State, c: Call): State {
    match c
    case CallPut(e) => Put(limit, s, e)
    case CallGet(key) => Get(s, key)
    case CallErase(key) => Erase(s, key)
  }

  function Run(limit: nat, s: State, calls: seq<Call>): State
    decreases |calls|
  {
    if calls == [] then s else Run(limit, Step(limit, s, calls[0]), calls[1..])
  }

  lemma {:induction false} RunFine(limit: nat, s: State, calls: seq<Call>)
    requires Fine(limit, s) && 2 * limit < WORD
    ensures Fine(limit, Run(limit, s, calls))
    decreases |calls|
  {
    if calls != [] {
      match calls[0] {
        case CallPut(e) =>
          if Accepts(limit, s, e) {
            PutFine(limit, s, e);
          }
        case CallGet(key) => GetFine(limit, s, key);
        case CallErase(key) => EraseFine(limit, s, key);
      }
      RunFine(limit, Step(limit, s, calls[0]), calls[1..]);
    }
  }

  /** Two entries as large as the limit allows, when twice the limit does not fit in 64 bits. */
  lemma TwoLargeEntries(limit: nat)
    requires limit < WORD <= 2 * limit
    ensures !Fine(limit, Run(limit, EMPTY, [CallPut(Entry(0, 0, limit)), CallPut(Entry(1, 0, limit))]))
  {
    var a, b := Entry(0, 0, limit), Entry(1, 0, limit);
    var calls := [CallPut(a), CallPut(b)];
    PutFine(limit, EMPTY, a);
    var s := Put(limit, EMPTY, a);
    SumOne(a);
    assert [a] + [] == [a];
    assert Accepts(limit, s, b);
    PutFine(limit, s, b);
    assert calls[1..] == [CallPut(b)] && calls[1..][1..] == [];
    assert Run(limit, EMPTY, calls) == Run(limit, s, calls[1..]) == Put(limit, s, b);
  }

  /**
   * Over every run of put, get and erase from the empty cache the counter is the sum of the sizes and at most the
   * limit, if and only if twice the limit fits in 64 bits.
   */
  lemma CounterIsRight(limit: nat)
    requires limit < WORD
    ensures (forall calls :: Fine(limit, Run(limit, EMPTY, calls))) <==> 2 * limit < WORD
  {
    if 2 * limit < WORD {
      forall calls ensures Fine(limit, Run(limit, EMPTY, calls)) {
        RunFine(limit, EMPTY, calls);
      }
    } else {
      TwoLargeEntries(limit);
    }
  }

  // ---- Least recently used ----

  /** When each key was used last: put and found by get count, by the number of the call. */
  type Stamps = map<Key, nat>

  function Stamp(limit: nat, s: State, c: Call, n: nat, used: Stamps): Stamps {
    match c
    case CallPut(e) => if Accepts(limit, s, e) then used[e.key := n] else used
    case CallGet(key) => if Has(s.order, key) then used[key := n] else used
    case CallErase(_) => used
  }

  /** The order is by last use, the latest first; so no key is there twice. */
  predicate Recent(order: seq<Entry>, used: Stamps, n: nat) {
    && (forall i :: 0 <= i < |order| ==> order[i].key in used && used[order[i].key] < n)
    && forall i, j :: 0 <= i < j < |order| ==> used[order[i].key] > used[order[j].key]
  }

  lemma RecentFront(e: Entry, order: seq<Entry>, used: Stamps, n: nat)
    requires Recent(order, used, n) && !Has(order, e.key)
    ensures Recent([e] + order, used[e.key := n], n + 1)
  {
    var order', used' := [e] + order, used[e.key := n];
    forall i | 0 <= i < |order| ensures order'[i + 1] == order[i] && used'[order[i].key] == used[order[i].key] {
      assert order[i].key != e.key;
    }
    forall i | 0 <= i < |order'| ensures order'[i].key in used' && used'[order'[i].key] < n + 1 {
      assert i > 0 ==> order'[i] == order[i - 1];
    }
    forall i, j | 0 <= i < j < |order'| ensures used'[order'[i].key] > used'[order'[j].key] {
      assert order'[j] == order[j - 1] && (i > 0 ==> order'[i] == order[i - 1]);
    }
  }

  lemma RecentPrefix(order: seq<Entry>, k: nat, used: Stamps, n: nat)
    requires Recent(order, used, n) && k <= |order|
    ensures Recent(order[..k], used, n)
  {
  }

  lemma RecentWithout(order: seq<Entry>, i: nat, used: Stamps, n: nat)
    requires Recent(order, used, n) && i < |order|
    ensures Recent(Without(order, i), used, n) && !Has(Without(order, i), order[i].key)
  {
    var order' := Without(order, i);
    assert forall k :: 0 <= k < |order'| ==> order'[k] == order[if k < i then k else k + 1];
  }

  lemma StepRecent(limit: nat, s: State, c: Call, n: nat, used: Stamps)
    requires Recent(s.order, used, n)
    ensures Recent(Step(limit, s, c).order, Stamp(limit, s, c, n, used), n + 1)
  {
    match c {
      case CallPut(e) =>
        if Accepts(limit, s, e) {
          PutOrder(limit, s, e);
          var k := |Put(limit, s, e).order| - 1;
          RecentPrefix(s.order, k, used, n);
          RecentFront(e, s.order[..k], used, n);
        }
      case CallGet(key) =>
        if Has(s.order, key) {
          var i := Find(s.order, key);
          RecentWithout(s.order, i, used, n);
          RecentFront(s.order[i], Without(s.order, i), used, n);
        }
      case CallErase(key) =>
        if Has(s.order, key) {
          RecentWithout(s.order, Find(s.order, key), used, n);
        }
    }
  }

  /** The stamps after a sequence of calls, the first of which has number n. */
  function StampAll(limit: nat, s: State, calls: seq<Call>, n: nat, used: Stamps): Stamps
    decreases |calls|
  {
    if calls == [] then used
    else StampAll(limit, Step(limit, s, calls[0]), calls[1..], n + 1, Stamp(limit, s, calls[0], n, used))
  }

  lemma {:induction false} RunRecent(limit: nat, s: State, calls: seq<Call>, n: nat, used: Stamps)
    requires Recent(s.order, used, n)
    ensures Recent(Run(limit, s, calls).order, StampAll(limit, s, calls, n, used), n + |calls|)
    decreases |calls|
  {
    if calls != [] {
      StepRecent(limit, s, calls[0], n, used);
      RunRecent(limit, Step(limit, s, calls[0]), calls[1..], n + 1, Stamp(limit, s, calls[0], n, used));
    }
  }

  /** Over every run of put, get and erase the order is that of last use, the latest first. */
  lemma OrderIsByLastUse(limit: nat, calls: seq<Call>)
    ensures Recent(Run(limit, EMPTY, calls).order, StampAll(limit, EMPTY, calls, 0, map[]), |calls|)
  {
    RunRecent(limit, EMPTY, calls, 0, map[]);
  }

  /** The entry with a key, if there is one. */
  function Lookup(order: seq<Entry>, key: Key): Option<Entry> {
    if Has(order, key) then Some(order[Find(order, key)]) else None
  }

  lemma Found(order: seq<Entry>, i: nat, used: Stamps, n: nat)
    requires Recent(order, used, n) && i < |order|
    ensures Lookup(order, order[i].key) == Some(order[i])
  {
    assert Find(order, order[i].key) == i;
  }

  lemma FoundWithout(order: seq<Entry>, i: nat, key: Key, used: Stamps, n: nat)
    requires Recent(order, used, n) && i < |order| && order[i].key != key
    ensures Lookup(Without(order, i), key) == Lookup(order, key)
  {
    var order' := Without(order, i);
    RecentWithout(order, i, used, n);
    if k :| 0 <= k < |order| && order[k].key == key {
      var k' := if k < i then k else k - 1;
      assert order'[k'] == order[k];
      Found(order, k, used, n);
      Found(order', k', used, n);
    } else {
      assert forall k :: 0 <= k < |order'| ==> order'[k] == order[if k < i then k else k + 1];
    }
  }

  lemma FoundFront(e: Entry, order: seq<Entry>, key: Key)
    ensures Lookup([e] + order, key) == if e.key == key then Some(e) else Lookup(order, key)
  {
    var order' := [e] + order;
    assert order'[0] == e && order'[1..] == order;
    if e.key != key && Has(order, key) {
      assert order'[Find(order, key) + 1].key == key;
    }
  }

  /** In every state of a run: get changes no entry, erase takes away exactly the entry with the key, and put adds
      exactly its entry, apart from the tail it drops. */
  lemma CallsChangeOneEntry(limit: nat, s: State, key: Key, e: Entry, other: Key, used: Stamps, n: nat)
    requires Recent(s.order, used, n)
    ensures Lookup(Get(s, key).order, other) == Lookup(s.order, other)
    ensures Lookup(Erase(s, key).order, other) == if other == key then None else Lookup(s.order, other)
    ensures Accepts(limit, s, e) ==> Lookup(Put(limit, s, e).order, e.key) == Some(e)
    ensures !Accepts(limit, s, e) ==> Put(limit, s, e) == s
  {
    if Has(s.order, key) {
      var i := Find(s.order, key);
      RecentWithout(s.order, i, used, n);
      Found(s.order, i, used, n);
      FoundFront(s.order[i], Without(s.order, i), other);
      if other != key {
        FoundWithout(s.order, i, other, used, n);
      }
    }
    if Accepts(limit, s, e) {
      PutOrder(limit, s, e);
      FoundFront(e, s.order[..|Put(limit, s, e).order| - 1], e.key);
    }
  }
}
