/** The single-producer, multiple-consumer ring buffer: one step per atomic operation or slot access. */
module SpmcQueue {
  import opened Options
  import opened Runs

  datatype Producer<V> =
    | Idle
    | Start(v: V)                              // before loading the write index
    | GotWrite(v: V, w: nat)                   // before loading the read index
    | GotRead(v: V, w: nat, r: nat, wasFull: bool)   // wasFull: the queue was full when r was loaded
    | Stored(w: nat)                           // slot filled, write index still to be stored

  datatype Consumer<V> =
    | Out
    | Have(r: nat)                             // read index in hand, before loading the write index
    | Nonempty(r: nat)                         // before copying the slot
    | Copied(r: nat, v: V)                     // before the compare-and-swap

  datatype State<V> = State(
    capacity: nat,
    slot: seq<Option<V>>,                      // uninitialised slots hold None
    read: nat,
    write: nat,
    producer: Producer<V>,
    consumer: map<nat, Consumer<V>>,
    pushed: seq<V>,                            // values in the order they were pushed
    popped: seq<(nat, V)>)                     // (consumer, value) in the order of the index swaps

  predicate Init<V(!new)>(s: State<V>) {
    && s.capacity > 0 && |s.slot| == s.capacity
    && s.read == s.write == 0 && s.producer == Idle && s.pushed == [] && s.popped == []
    && forall c :: c in s.consumer ==> s.consumer[c] == Out
  }

  // ---- Producer ----

  predicate CanPush<V>(s: State<V>) {
    !s.producer.Idle? && s.capacity > 0 && |s.slot| == s.capacity
  }

  function Call<V>(s: State<V>, v: V): State<V> { s.(producer := Start(v)) }

  function PushDo<V>(s: State<V>): State<V>
    requires CanPush(s)
  {
    match s.producer
    case Start(v) => s.(producer := GotWrite(v, s.write))
    case GotWrite(v, w) => s.(producer := GotRead(v, w, s.read, s.write - s.read == s.capacity))
    case GotRead(v, w, r, _) =>
      if w >= r + s.capacity then s.(producer := Idle)      // answers "full"
      else s.(slot := s.slot[w % s.capacity := Some(v)], producer := Stored(w), pushed := s.pushed + [v])
    case Stored(w) => s.(write := w + 1, producer := Idle)
  }

  // ---- Consumers ----

  predicate CanPop<V>(s: State<V>, c: nat) {
    && c in s.consumer && s.capacity > 0 && |s.slot| == s.capacity
    && (s.consumer[c].Nonempty? ==> s.slot[s.consumer[c].r % s.capacity].Some?)
  }

  function PopDo<V>(s: State<V>, c: nat): State<V>
    requires CanPop(s, c)
  {
    match s.consumer[c]
    case Out => s.(consumer := s.consumer[c := Have(s.read)])
    case Have(r) =>
      if r == s.write then s.(consumer := s.consumer[c := Out])       // answers "empty"
      else s.(consumer := s.consumer[c := Nonempty(r)])
    case Nonempty(r) => s.(consumer := s.consumer[c := Copied(r, s.slot[r % s.capacity].value)])
    case Copied(r, v) =>
      if s.read == r
      then s.(read := r + 1, consumer := s.consumer[c := Out], popped := s.popped + [(c, v)])
      else s.(consumer := s.consumer[c := Have(s.read)])
  }

  ghost predicate Next<V(!new)>(s: State<V>, s': State<V>) {
    || (s.producer.Idle? && exists v :: s' == Call(s, v))
    || (CanPush(s) && s' == PushDo(s))
    || (exists c :: CanPop(s, c) && s' == PopDo(s, c))
  }

  // ---- Invariant ----

  /** Values pushed but not yet visible: one while the producer sits between slot and index. */
  function Visible<V>(s: State<V>): nat { if s.producer.Stored? then s.write + 1 else s.write }

  ghost predicate ProducerInv<V>(s: State<V>) {
    match s.producer
    case Idle => true
    case Start(_) => true
    case GotWrite(_, w) => w == s.write
    case GotRead(_, w, r, wasFull) => w == s.write && r <= s.read && (w >= r + s.capacity ==> wasFull)
    case Stored(w) => w == s.write && w < s.read + s.capacity
  }

  /** Slots between the indices hold the pushed values. */
  ghost predicate RingInv<V>(s: State<V>) {
    && s.capacity > 0 && |s.slot| == s.capacity
    && s.read <= s.write <= s.read + s.capacity
    && |s.pushed| == Visible(s) <= s.read + s.capacity
    && (forall i :: s.read <= i < Visible(s) ==> s.slot[i % s.capacity] == Some(s.pushed[i]))
    && (forall i :: 0 <= i < Visible(s) ==> s.slot[i % s.capacity].Some?)
  }

  /** A consumer whose index is still current has seen a real element and copied it. */
  ghost predicate ConsumerInv<V>(s: State<V>, at: Consumer<V>) {
    match at
    case Out => true
    case Have(r) => r <= s.read
    case Nonempty(r) => r <= s.read && r < s.write
    case Copied(r, v) => r <= s.read && r < s.write && (r == s.read ==> r < |s.pushed| && v == s.pushed[r])
  }

  ghost predicate Values<V>(popped: seq<(nat, V)>, pushed: seq<V>) {
    |popped| <= |pushed| && forall i :: 0 <= i < |popped| ==> popped[i].1 == pushed[i]
  }

  ghost predicate Inv<V>(s: State<V>) {
    && RingInv(s) && ProducerInv(s)
    && (forall c :: c in s.consumer ==> ConsumerInv(s, s.consumer[c]))
    && |s.popped| == s.read && Values(s.popped, s.pushed)
  }

  /** Two indices less than a capacity apart use different slots. */
  lemma SlotsDiffer(i: nat, j: nat, n: nat)
    requires n > 0 && i < j < i + n
    ensures i % n != j % n
  {
    if i % n == j % n {
      assert j - i == n * (j / n - i / n);
      MultipleIsNotBetween(j / n - i / n, n);
    }
  }

  lemma MultipleIsNotBetween(k: int, n: nat)
    requires n > 0
    ensures !(0 < n * k < n)
  {
    if k >= 1 {
      assert n * k >= n;
    } else {
      assert n * k <= 0;
    }
  }

  lemma PushInv<V(!new)>(s: State<V>)
    requires Inv(s) && CanPush(s)
    ensures Inv(PushDo(s))
  {
    var s' := PushDo(s);
    if s.producer.GotRead? && s.producer.w < s.producer.r + s.capacity {
      var w := s.producer.w;
      forall i | s.read <= i < w ensures s'.slot[i % s.capacity] == Some(s'.pushed[i]) {
        SlotsDiffer(i, w, s.capacity);
      }
    }
    forall c | c in s.consumer ensures ConsumerInv(s', s.consumer[c]) {
      assert ConsumerInv(s, s.consumer[c]);
    }
  }

  lemma PopInv<V(!new)>(s: State<V>, c: nat)
    requires Inv(s) && CanPop(s, c)
    ensures Inv(PopDo(s, c))
  {
    var s' := PopDo(s, c);
    assert ConsumerInv(s, s.consumer[c]);
    forall d | d in s.consumer && d != c ensures ConsumerInv(s', s'.consumer[d]) {
      assert ConsumerInv(s, s.consumer[d]) && s'.consumer[d] == s.consumer[d];
    }
    assert ConsumerInv(s', s'.consumer[c]);
  }

  lemma ReachableInv<V(!new)>(s: State<V>)
    requires Reachable(Init<V>, Next<V>, s)
    ensures Inv(s)
  {
    forall s: State<V>, s' | Inv(s) && Next(s, s') ensures Inv(s') {
      if s.producer.Idle? && exists v :: s' == Call(s, v) {
        forall c | c in s.consumer ensures ConsumerInv(s', s.consumer[c]) {
          assert ConsumerInv(s, s.consumer[c]);
        }
      } else if CanPush(s) && s' == PushDo(s) {
        PushInv(s);
      } else {
        var c :| CanPop(s, c) && s' == PopDo(s, c);
        PopInv(s, c);
      }
    }
    ReachableInvariant(Init<V>, Next<V>, Inv<V>, s);
  }

  /** Exactly-once FIFO: the values of successful pops, in the order of their index swaps, are a prefix
      of the values pushed, one per index. */
  lemma FifoPrefix<V(!new)>(s: State<V>)
    requires Reachable(Init<V>, Next<V>, s)
    ensures |s.popped| == s.read <= |s.pushed|
    ensures forall i :: 0 <= i < |s.popped| ==> s.popped[i].1 == s.pushed[i]
    ensures s.write <= |s.pushed| <= s.write + 1 && |s.pushed| <= s.read + s.capacity
  {
    ReachableInv(s);
  }

  /** The copy made before the swap is the element itself whenever the swap succeeds, and no consumer
      ever copies a slot that was not filled yet. */
  lemma CopyIsGenuine<V(!new)>(s: State<V>, c: nat)
    requires Reachable(Init<V>, Next<V>, s) && c in s.consumer
    ensures s.consumer[c].Copied? && s.consumer[c].r == s.read ==>
              s.read < s.write <= |s.pushed| && s.consumer[c].v == s.pushed[s.read]
    ensures CanPop(s, c)
  {
    ReachableInv(s);
    assert ConsumerInv(s, s.consumer[c]);
  }

  /** "Empty" is answered exactly by a load of the write index at which the queue is empty, unless the read index has
      moved on; any other return of pop has an element; and "full" is answered only if the queue was full when the read
      index was loaded. */
  lemma AnswersWereTrue<V(!new)>(s: State<V>, c: nat)
    requires Reachable(Init<V>, Next<V>, s)
    ensures c in s.consumer && s.consumer[c].Have? && CanPop(s, c) ==>
              && (PopDo(s, c).consumer[c].Out? ==> s.read == s.write)
              && (s.read == s.write && s.consumer[c].r == s.read ==> PopDo(s, c).consumer[c].Out?)
    ensures CanPush(s) && s.producer.GotRead? && PushDo(s).producer.Idle? ==> s.producer.wasFull
    ensures c in s.consumer && s.consumer[c].Copied? && CanPop(s, c) && PopDo(s, c).consumer[c].Out? ==>
              s.read < |s.pushed| && PopDo(s, c).popped == s.popped + [(c, s.pushed[s.read])]
    ensures c in s.consumer && s.consumer[c].Nonempty? && CanPop(s, c) ==> !PopDo(s, c).consumer[c].Out?
  {
    ReachableInv(s);
    if c in s.consumer {
      assert ConsumerInv(s, s.consumer[c]);
    }
  }

  // ---- Calls that run alone ----

  /** A pop that nothing interrupts takes the oldest value there is; if there is none, it answers "empty". */
  lemma LonePop<V(!new)>(s: State<V>, c: nat) returns (s': State<V>)
    requires Reachable(Init<V>, Next<V>, s) && c in s.consumer && s.consumer[c].Out?
    ensures s'.consumer == s.consumer && s'.pushed == s.pushed && s'.write == s.write
    ensures s.read < s.write ==>
              |s.popped| < |s.pushed| && s'.popped == s.popped + [(c, s.pushed[|s.popped|])]
    ensures s.read == s.write ==> s'.popped == s.popped
    ensures Reachable(Init<V>, Next<V>, s')
  {
    ReachableInv(s);
    s' := PopGo(s, c);
    s' := PopGo(s', c);
    if s.read < s.write {
      s' := PopGo(s', c);
      s' := PopGo(s', c);
    }
    assert s'.consumer == s.consumer;
  }

  lemma PopGo<V(!new)>(s: State<V>, c: nat) returns (s': State<V>)
    requires Reachable(Init<V>, Next<V>, s) && c in s.consumer
    ensures CanPop(s, c) && s' == PopDo(s, c) && Reachable(Init<V>, Next<V>, s')
  {
    CopyIsGenuine(s, c);
    s' := PopDo(s, c);
    ReachableStep(Init<V>, Next<V>, s, s');
  }

  /** A push that nothing interrupts adds its value behind the others, unless the queue is full. */
  lemma LonePush<V(!new)>(s: State<V>, v: V) returns (s': State<V>)
    requires Reachable(Init<V>, Next<V>, s) && s.producer.Idle?
    ensures s'.producer.Idle? && s'.popped == s.popped && s'.consumer == s.consumer
    ensures if s.write - s.read < s.capacity then s'.pushed == s.pushed + [v] && s'.write == s.write + 1
            else s'.pushed == s.pushed && s'.write == s.write
    ensures Reachable(Init<V>, Next<V>, s')
  {
    ReachableInv(s);
    s' := Call(s, v);
    ReachableStep(Init<V>, Next<V>, s, s');
    s' := PushGo(s');
    s' := PushGo(s');
    s' := PushGo(s');
    if s.write - s.read < s.capacity {
      s' := PushGo(s');
    }
  }

  lemma PushGo<V(!new)>(s: State<V>) returns (s': State<V>)
    requires Reachable(Init<V>, Next<V>, s) && !s.producer.Idle?
    ensures CanPush(s) && s' == PushDo(s) && Reachable(Init<V>, Next<V>, s')
  {
    ReachableInv(s);
    s' := PushDo(s);
    ReachableStep(Init<V>, Next<V>, s, s');
  }
}
