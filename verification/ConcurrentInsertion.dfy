/** Concurrent push_front and push_back on the intrusive list, one step per atomic operation. */
module ConcurrentInsertion {
  import opened Runs

  const NULL: nat := 0
  const HEADER: nat := 1
  const TAIL: nat := 2

  /** A thread inside push_front or push_back of node c, between neighbours a and b. */
  datatype Pc =
    | Idle
    | Start(c: nat, front: bool)                          // before testing c.prev
    | Read(c: nat, front: bool)                           // before reading the end of the list
    | Is1(c: nat, front: bool, a: nat, b: nat)            // before testing b.prev
    | Claim(c: nat, front: bool, a: nat, b: nat)          // before the swap of c.prev
    | SetNext(c: nat, front: bool, a: nat, b: nat)        // before storing c.next
    | Is2(c: nat, front: bool, a: nat, b: nat)            // before the swap of a.next
    | Undo1(c: nat, front: bool, a: nat, b: nat)          // before resetting c.next
    | Undo2(c: nat, front: bool, a: nat, b: nat)          // before resetting c.prev
    | Is3(c: nat, front: bool, a: nat, b: nat)            // before the swap of b.prev
    | Bump(c: nat)                                        // before counting the node

  datatype State = State(
    prev: seq<nat>,
    next: seq<nat>,
    size: int,
    pc: map<nat, Pc>,
    chain: seq<nat>,        // header to tail along next; kept as history
    asked: set<nat>)        // nodes some call was made for

  predicate Init(s: State) {
    && |s.prev| == |s.next| >= 3
    && (forall n :: 0 <= n < |s.prev| ==> s.prev[n] == (if n == TAIL then HEADER else NULL))
    && (forall n :: 0 <= n < |s.next| ==> s.next[n] == (if n == HEADER then TAIL else NULL))
    && s.size == 0 && s.chain == [HEADER, TAIL] && s.asked == {}
    && forall t :: t in s.pc ==> s.pc[t] == Idle
  }

  predicate User(s: State, c: nat) { TAIL < c < |s.prev| }

  predicate CanCall(s: State, t: nat, c: nat) {
    t in s.pc && s.pc[t] == Idle && User(s, c)
  }

  function CallDo(s: State, t: nat, c: nat, front: bool): State {
    s.(pc := s.pc[t := Start(c, front)], asked := s.asked + {c})
  }

  /** The pointers a thread is about to use are real nodes. */
  predicate InRange(s: State, at: Pc) {
    && |s.prev| == |s.next| >= 3
    && (!at.Idle? ==> at.c < |s.prev|)
    && (at.Is1? || at.Claim? || at.SetNext? || at.Is2? || at.Undo1? || at.Undo2? || at.Is3? ==>
        at.a < |s.prev| && at.b < |s.prev|)
  }

  predicate CanStep(s: State, t: nat) {
    t in s.pc && !s.pc[t].Idle? && InRange(s, s.pc[t]) && |s.chain| >= 2
  }

  function StepDo(s: State, t: nat): State
    requires CanStep(s, t)
  {
    match s.pc[t]
    case Start(c, front) => s.(pc := s.pc[t := if s.prev[c] != NULL then Idle else Read(c, front)])
    case Read(c, front) =>
      s.(pc := s.pc[t := if front then Is1(c, front, HEADER, s.next[HEADER]) else Is1(c, front, s.prev[TAIL], TAIL)])
    case Is1(c, front, a, b) =>
      s.(pc := s.pc[t := if s.prev[b] != a then Start(c, front) else Claim(c, front, a, b)])
    case Claim(c, front, a, b) =>
      if s.prev[c] != NULL then s.(pc := s.pc[t := Start(c, front)])
      else s.(prev := s.prev[c := a], pc := s.pc[t := SetNext(c, front, a, b)])
    case SetNext(c, front, a, b) => s.(next := s.next[c := b], pc := s.pc[t := Is2(c, front, a, b)])
    case Is2(c, front, a, b) =>
      if s.next[a] != b then s.(pc := s.pc[t := Undo1(c, front, a, b)])
      else s.(next := s.next[a := c], pc := s.pc[t := Is3(c, front, a, b)], chain := Insert(s.chain, c, front))
    case Undo1(c, front, a, b) =>
      s.(next := if s.next[c] == b then s.next[c := NULL] else s.next, pc := s.pc[t := Undo2(c, front, a, b)])
    case Undo2(c, front, a, b) =>
      s.(prev := if s.prev[c] == a then s.prev[c := NULL] else s.prev, pc := s.pc[t := Start(c, front)])
    case Is3(c, front, a, b) =>
      if s.prev[b] != a then s           // tries again
      else s.(prev := s.prev[b := c], pc := s.pc[t := Bump(c)])
    case Bump(c) => s.(size := s.size + 1, pc := s.pc[t := Idle])
  }

  /** What a push does to an ordinary sequence between two sentinels. */
  function Insert(chain: seq<nat>, c: nat, front: bool): seq<nat>
    requires |chain| >= 2
  {
    if front then [chain[0], c] + chain[1..] else chain[..|chain| - 1] + [c, chain[|chain| - 1]]
  }

  ghost predicate Next(s: State, s': State) {
    || (exists t, c, front :: CanCall(s, t, c) && s' == CallDo(s, t, c, front))
    || (exists t :: CanStep(s, t) && s' == StepDo(s, t))
  }

  // ---- Invariant ----

  /** c is claimed by this thread and not in the list. */
  predicate Owns(at: Pc) { at.SetNext? || at.Is2? || at.Undo1? || at.Undo2? }

  /** The forward chain runs from header to tail, through distinct nodes. */
  ghost predicate ChainInv(s: State) {
    && |s.prev| == |s.next| >= 3 && |s.chain| >= 2
    && s.chain[0] == HEADER && s.chain[|s.chain| - 1] == TAIL
    && (forall i :: 0 <= i < |s.chain| ==> NULL < s.chain[i] < |s.prev|)
    && Follows(s.chain, s.next)
  }

  /** The forward pointer of the i-th node leads to the next one. */
  ghost predicate Forward(chain: seq<nat>, next: seq<nat>, i: nat)
    requires i + 1 < |chain|
  {
    chain[i] < |next| && next[chain[i]] == chain[i + 1]
  }

  /** A chain that the forward pointers follow, through distinct nodes. */
  ghost predicate Follows(chain: seq<nat>, next: seq<nat>) {
    && (forall i, j :: 0 <= i < j < |chain| ==> chain[i] != chain[j])
    && (forall i :: 0 <= i < |chain| - 1 ==> Forward(chain, next, i))
  }

  /** a and b were the ends of the list's first or last edge when they were read. */
  ghost predicate Ends(s: State, front: bool, a: nat, b: nat) {
    && a in s.chain && b in s.chain && a != TAIL && b != HEADER
    && (if front then a == HEADER else b == TAIL)
  }

  /** If the edge a→b is still there, its back pointer is set. */
  ghost predicate Settled(s: State, a: nat, b: nat)
    requires |s.prev| == |s.next|
  {
    a < |s.next| && b < |s.prev| && (s.next[a] == b ==> s.prev[b] == a)
  }

  ghost predicate ThreadInv(s: State, at: Pc)
    requires |s.prev| == |s.next|
  {
    at.Idle? ||
    (User(s, at.c) &&
     match at
     case Idle => true
     case Start(_, _) => true
     case Read(_, _) => true
     case Is1(_, f, a, b) => Ends(s, f, a, b)
     case Claim(_, f, a, b) => Ends(s, f, a, b) && Settled(s, a, b)
     case SetNext(c, f, a, b) => Ends(s, f, a, b) && Settled(s, a, b) && c !in s.chain && s.prev[c] == a
     case Is2(c, f, a, b) => Ends(s, f, a, b) && Settled(s, a, b) && c !in s.chain && s.prev[c] == a && s.next[c] == b
     case Undo1(c, f, a, b) => Ends(s, f, a, b) && c !in s.chain && s.prev[c] == a && s.next[c] == b
     case Undo2(c, f, a, b) => Ends(s, f, a, b) && c !in s.chain && s.prev[c] == a
     case Is3(c, _, a, b) =>
       && c in s.chain && a in s.chain && b in s.chain && a != c && b != HEADER
       && b < |s.prev| && s.next[c] == b && s.prev[b] == a
     case Bump(c) => c in s.chain)
  }

  ghost predicate ThreadsInv(s: State) {
    && |s.prev| == |s.next|
    && (forall t :: t in s.pc ==> ThreadInv(s, s.pc[t]))
    && (forall t, u :: t in s.pc && u in s.pc && Owns(s.pc[t]) && Owns(s.pc[u]) && s.pc[t].c == s.pc[u].c ==> t == u)
    && (forall t, u :: t in s.pc && u in s.pc && s.pc[t].Is3? && s.pc[u].Is3? && s.pc[t].c == s.pc[u].c ==> t == u)
  }

  /** Some thread is between linking a→b forward and setting b's back pointer. */
  ghost predicate PendingEdge(s: State, a: nat, b: nat) {
    exists t :: t in s.pc && s.pc[t].Is3? && s.pc[t].c == a && s.pc[t].b == b
  }

  /** The back pointer of the i-th node: to its predecessor, or pending; always into the list. */
  ghost predicate EdgeOk(s: State, i: nat)
    requires 0 < i < |s.chain|
  {
    var a, b := s.chain[i - 1], s.chain[i];
    b < |s.prev| && (s.prev[b] == a || PendingEdge(s, a, b)) && s.prev[b] in s.chain && s.prev[b] != TAIL
  }

  ghost predicate EdgesInv(s: State) {
    forall i :: 0 < i < |s.chain| ==> EdgeOk(s, i)
  }

  ghost predicate Owned(s: State, n: nat) {
    exists t :: t in s.pc && Owns(s.pc[t]) && s.pc[t].c == n
  }

  ghost predicate WorkedOn(s: State, n: nat) {
    exists t :: t in s.pc && !s.pc[t].Idle? && s.pc[t].c == n
  }

  /** A node with a back pointer is in the list or claimed; a node asked for is in the list or still
      being worked on. */
  ghost predicate AskedInv(s: State) {
    && (forall n: nat :: User(s, n) && s.prev[n] != NULL ==> n in s.chain || Owned(s, n))
    && (forall n :: n in s.asked ==> User(s, n) && (n in s.chain || WorkedOn(s, n)))
    && (forall n :: n in s.chain && n != HEADER && n != TAIL ==> n in s.asked)
    && (forall t :: t in s.pc && !s.pc[t].Idle? ==> s.pc[t].c in s.asked)
  }

  /** In the list but not counted yet. */
  ghost function Uncounted(s: State): set<nat> {
    set t | t in s.pc && (s.pc[t].Is3? || s.pc[t].Bump?)
  }

  ghost predicate SizeInv(s: State) { s.size + |Uncounted(s)| == |s.chain| - 2 }

  ghost predicate Inv(s: State) {
    ChainInv(s) && ThreadsInv(s) && EdgesInv(s) && AskedInv(s) && SizeInv(s)
  }

  // ---- The chain ----

  lemma NextInChain(s: State, a: nat)
    requires ChainInv(s) && a in s.chain && a != TAIL
    ensures s.next[a] in s.chain && s.next[a] != HEADER
  {
    var i :| 0 <= i < |s.chain| && s.chain[i] == a;
    assert Forward(s.chain, s.next, i);
  }

  /** Two list nodes with the same successor are the same node. */
  lemma OnePredecessor(s: State, x: nat, y: nat)
    requires ChainInv(s) && x in s.chain && y in s.chain && x != TAIL && y != TAIL && s.next[x] == s.next[y]
    ensures x == y
  {
    var i :| 0 <= i < |s.chain| && s.chain[i] == x;
    var j :| 0 <= j < |s.chain| && s.chain[j] == y;
    assert Forward(s.chain, s.next, i) && Forward(s.chain, s.next, j);
  }

  /** Where the edge to be split is. */
  lemma SplitPoint(s: State, front: bool, a: nat, b: nat)
    requires ChainInv(s) && Ends(s, front, a, b) && s.next[a] == b
    ensures if front then a == s.chain[0] && b == s.chain[1]
            else a == s.chain[|s.chain| - 2] && b == s.chain[|s.chain| - 1]
  {
    var i :| 0 <= i < |s.chain| && s.chain[i] == a;
    assert Forward(s.chain, s.next, i);
    assert Forward(s.chain, s.next, 0);
  }

  lemma InsertShape(chain: seq<nat>, c: nat, front: bool)
    requires |chain| >= 2
    ensures |Insert(chain, c, front)| == |chain| + 1
    ensures var k := if front then 1 else |chain| - 1;
            forall i :: 0 <= i <= |chain| ==>
              Insert(chain, c, front)[i] == if i < k then chain[i] else if i == k then c else chain[i - 1]
    ensures forall n :: n in Insert(chain, c, front) <==> n in chain || n == c
  {
    var chain' := Insert(chain, c, front);
    var k := if front then 1 else |chain| - 1;
    forall n | n in chain ensures n in chain' {
      var i :| 0 <= i < |chain| && chain[i] == n;
      assert chain'[if i < k then i else i + 1] == n;
    }
    assert chain'[k] == c;
  }

  lemma InsertDistinct(chain: seq<nat>, c: nat, front: bool, i: nat, j: nat)
    requires |chain| >= 2 && c !in chain && i < j <= |chain|
    requires forall i, j :: 0 <= i < j < |chain| ==> chain[i] != chain[j]
    ensures Insert(chain, c, front)[i] != Insert(chain, c, front)[j]
  {
    InsertShape(chain, c, front);
  }

  /** Where the new edges of a chain come from. */
  lemma InsertForward(chain: seq<nat>, next: seq<nat>, c: nat, front: bool, i: nat)
    requires |chain| >= 2 && Follows(chain, next) && c < |next| && c !in chain && i < |chain|
    requires next[c] == chain[if front then 1 else |chain| - 1]
    ensures var k := if front then 1 else |chain| - 1;
            chain[k - 1] < |next| && Forward(Insert(chain, c, front), next[chain[k - 1] := c], i)
  {
    InsertShape(chain, c, front);
    var k := if front then 1 else |chain| - 1;
    assert Forward(chain, next, k - 1);
    if i < k - 1 {
      assert Forward(chain, next, i);
    } else if i > k {
      assert Forward(chain, next, i - 1);
    }
  }

  lemma InsertFollows(chain: seq<nat>, next: seq<nat>, c: nat, front: bool)
    requires |chain| >= 2 && Follows(chain, next) && c < |next| && c !in chain
    requires next[c] == chain[if front then 1 else |chain| - 1]
    ensures var k := if front then 1 else |chain| - 1;
            chain[k - 1] < |next| && Follows(Insert(chain, c, front), next[chain[k - 1] := c])
  {
    var k := if front then 1 else |chain| - 1;
    InsertForward(chain, next, c, front, 0);
    var chain', next' := Insert(chain, c, front), next[chain[k - 1] := c];
    forall i, j | 0 <= i < j < |chain'| ensures chain'[i] != chain'[j] {
      InsertDistinct(chain, c, front, i, j);
    }
    forall i | 0 <= i < |chain'| - 1 ensures Forward(chain', next', i) {
      InsertForward(chain, next, c, front, i);
    }
  }

  // ---- Steps that move no pointer of the list ----

  /** Pending back pointers stay pending and set ones stay set, wherever the edge is now. */
  lemma EdgeKept(s: State, i: nat, s': State, j: nat)
    requires 0 < i < |s.chain| && 0 < j < |s'.chain| && EdgeOk(s, i)
    requires s'.chain[j] == s.chain[i] && s'.chain[j - 1] == s.chain[i - 1] && |s'.prev| == |s.prev|
    requires s'.prev[s.chain[i]] == s.prev[s.chain[i]] && s.prev[s.chain[i]] in s'.chain
    requires forall u :: u in s.pc && s.pc[u].Is3? ==> u in s'.pc && s'.pc[u] == s.pc[u]
    ensures EdgeOk(s', j)
  {
    var a, b := s.chain[i - 1], s.chain[i];
    if PendingEdge(s, a, b) {
      var u :| u in s.pc && s.pc[u].Is3? && s.pc[u].c == a && s.pc[u].b == b;
      assert s'.pc[u] == s.pc[u];
    }
  }

  lemma EdgesKept(s: State, s': State)
    requires EdgesInv(s) && s'.chain == s.chain && |s'.prev| == |s.prev|
    requires forall n :: n in s.chain && n < |s.prev| ==> s'.prev[n] == s.prev[n]
    requires forall u :: u in s.pc && s.pc[u].Is3? ==> u in s'.pc && s'.pc[u] == s.pc[u]
    ensures EdgesInv(s')
  {
    forall i | 0 < i < |s.chain| ensures EdgeOk(s', i) {
      assert EdgeOk(s, i);
      EdgeKept(s, i, s', i);
    }
  }

  /** Only thread t's position changes, and it neither gains nor loses a node. */
  ghost predicate Quiet(s: State, s': State, t: nat) {
    && t in s.pc && t in s'.pc
    && s' == s.(pc := s.pc[t := s'.pc[t]], asked := s'.asked)
    && Owns(s.pc[t]) == Owns(s'.pc[t]) && !s.pc[t].Is3? && !s'.pc[t].Is3? && !s.pc[t].Bump? && !s'.pc[t].Bump?
    && (Owns(s.pc[t]) ==> s'.pc[t].c == s.pc[t].c)
  }

  lemma QuietThreads(s: State, s': State, t: nat)
    requires ThreadsInv(s) && Quiet(s, s', t) && ThreadInv(s', s'.pc[t])
    ensures ThreadsInv(s')
  {
    forall u | u in s.pc && u != t ensures ThreadInv(s', s'.pc[u]) {
      assert ThreadInv(s, s.pc[u]);
    }
  }

  lemma QuietInv(s: State, s': State, t: nat)
    requires Inv(s) && Quiet(s, s', t) && ThreadInv(s', s'.pc[t])
    ensures ChainInv(s') && ThreadsInv(s') && EdgesInv(s') && SizeInv(s')
  {
    assert Uncounted(s') == Uncounted(s);
    QuietThreads(s, s', t);
    EdgesKept(s, s');
  }

  /** Threads other than t still own and work on what they did, and t still works on c. */
  lemma WorkKept(s: State, s': State, t: nat, n: nat)
    requires t in s.pc && s'.pc.Keys == s.pc.Keys
    requires forall u :: u in s.pc && u != t ==> s'.pc[u] == s.pc[u]
    ensures Owned(s, n) && !(Owns(s.pc[t]) && s.pc[t].c == n) ==> Owned(s', n)
    ensures WorkedOn(s, n) && !(!s.pc[t].Idle? && s.pc[t].c == n) ==> WorkedOn(s', n)
    ensures Owns(s'.pc[t]) && s'.pc[t].c == n ==> Owned(s', n)
    ensures !s'.pc[t].Idle? && s'.pc[t].c == n ==> WorkedOn(s', n)
    ensures Owned(s, n) ==> WorkedOn(s, n)
  {
    if Owned(s, n) && !(Owns(s.pc[t]) && s.pc[t].c == n) {
      var u :| u in s.pc && Owns(s.pc[u]) && s.pc[u].c == n;
      assert s'.pc[u] == s.pc[u];
    }
    if WorkedOn(s, n) && !(!s.pc[t].Idle? && s.pc[t].c == n) {
      var u :| u in s.pc && !s.pc[u].Idle? && s.pc[u].c == n;
      assert s'.pc[u] == s.pc[u];
    }
  }

  lemma CallInv(s: State, t: nat, c: nat, front: bool)
    requires Inv(s) && CanCall(s, t, c)
    ensures Inv(CallDo(s, t, c, front))
  {
    var s' := CallDo(s, t, c, front);
    QuietInv(s, s', t);
    forall n: nat ensures Owned(s, n) ==> Owned(s', n) { WorkKept(s, s', t, n); }
    forall n: nat ensures WorkedOn(s, n) || n == c ==> WorkedOn(s', n) { WorkKept(s, s', t, n); }
  }

  predicate IsQuietStep(s: State, t: nat)
    requires CanStep(s, t)
  {
    var at := s.pc[t];
    at.Start? || at.Read? || at.Is1? || (at.Claim? && s.prev[at.c] != NULL) || (at.Is2? && s.next[at.a] != at.b)
  }

  lemma ReadEnds(s: State, front: bool)
    requires ChainInv(s) && EdgesInv(s)
    ensures if front then Ends(s, front, HEADER, s.next[HEADER]) else Ends(s, front, s.prev[TAIL], TAIL)
  {
    assert s.chain[0] == HEADER && s.chain[|s.chain| - 1] == TAIL;
    if front {
      NextInChain(s, HEADER);
    } else {
      assert EdgeOk(s, |s.chain| - 1);
    }
  }

  /** A call that returns without linking leaves a node that has a back pointer already. */
  ghost predicate ReturnsEarly(s: State, s': State, t: nat) {
    && t in s.pc && t in s'.pc && !s.pc[t].Idle? && s.pc[t].c < |s.prev|
    && if s'.pc[t].Idle? then s.prev[s.pc[t].c] != NULL else s'.pc[t].c == s.pc[t].c
  }

  lemma QuietStep(s: State, t: nat)
    requires Inv(s) && CanStep(s, t) && IsQuietStep(s, t)
    ensures ThreadInv(StepDo(s, t), StepDo(s, t).pc[t]) && Quiet(s, StepDo(s, t), t)
    ensures ReturnsEarly(s, StepDo(s, t), t) && StepDo(s, t).asked == s.asked
  {
    assert ThreadInv(s, s.pc[t]);
    if s.pc[t].Read? {
      ReadEnds(s, s.pc[t].front);
    }
  }

  /** A call that returns early leaves its node in the list or in the hands of another thread. */
  lemma QuietAsked(s: State, s': State, t: nat)
    requires AskedInv(s) && |s.prev| == |s.next| && Quiet(s, s', t) && ReturnsEarly(s, s', t) && s'.asked == s.asked
    ensures AskedInv(s')
  {
    var c := s.pc[t].c;
    forall n: nat ensures Owned(s, n) ==> Owned(s', n) { WorkKept(s, s', t, n); }
    forall n: nat ensures WorkedOn(s, n) && n != c ==> WorkedOn(s', n) { WorkKept(s, s', t, n); }
    WorkKept(s, s', t, c);
    WorkKept(s', s', t, c);
  }

  // ---- Claiming and releasing a node outside the list ----

  /** Only the node c changes, which is not in the list, and no other thread works on its pointers. */
  ghost predicate Outside(s: State, s': State, t: nat, c: nat) {
    && t in s.pc && t in s'.pc
    && User(s, c) && c !in s.chain && |s.prev| == |s.next| == |s'.prev| == |s'.next|
    && s' == s.(prev := s.prev[c := s'.prev[c]], next := s.next[c := s'.next[c]], pc := s.pc[t := s'.pc[t]])
    && !s.pc[t].Is3? && !s'.pc[t].Is3? && !s.pc[t].Bump? && !s'.pc[t].Bump?
    && (forall u :: u in s.pc && u != t && Owns(s.pc[u]) ==> s.pc[u].c != c)
  }

  lemma OutsideThread(s: State, s': State, t: nat, c: nat, u: nat)
    requires ChainInv(s) && ThreadsInv(s) && Outside(s, s', t, c) && u in s.pc && u != t
    ensures ThreadInv(s', s'.pc[u])
  {
    assert ThreadInv(s, s.pc[u]);
  }

  lemma OutsideThreads(s: State, s': State, t: nat, c: nat)
    requires ChainInv(s) && ThreadsInv(s) && Outside(s, s', t, c)
    requires ThreadInv(s', s'.pc[t]) && (Owns(s'.pc[t]) ==> s'.pc[t].c == c)
    ensures ThreadsInv(s')
  {
    forall u | u in s.pc && u != t ensures ThreadInv(s', s'.pc[u]) {
      OutsideThread(s, s', t, c, u);
    }
  }

  lemma OutsideChain(s: State, s': State, t: nat, c: nat)
    requires ChainInv(s) && Outside(s, s', t, c)
    ensures ChainInv(s')
  {
    forall i | 0 <= i < |s'.chain| - 1 ensures Forward(s'.chain, s'.next, i) {
      assert Forward(s.chain, s.next, i);
    }
  }

  lemma OutsideInv(s: State, s': State, t: nat, c: nat)
    requires Inv(s) && Outside(s, s', t, c) && ThreadInv(s', s'.pc[t]) && (Owns(s'.pc[t]) ==> s'.pc[t].c == c)
    ensures ChainInv(s') && ThreadsInv(s') && EdgesInv(s') && SizeInv(s')
  {
    assert Uncounted(s') == Uncounted(s);
    OutsideChain(s, s', t, c);
    OutsideThreads(s, s', t, c);
    EdgesKept(s, s');
  }

  predicate IsOutsideStep(s: State, t: nat)
    requires CanStep(s, t)
  {
    var at := s.pc[t];
    (at.Claim? && s.prev[at.c] == NULL) || at.SetNext? || at.Undo1? || at.Undo2?
  }

  /** A list node has a back pointer, so a node without one is not in the list. */
  lemma NullMeansOutside(s: State, c: nat)
    requires Inv(s) && User(s, c) && s.prev[c] == NULL
    ensures c !in s.chain
    ensures forall u :: u in s.pc && Owns(s.pc[u]) ==> s.pc[u].c != c
  {
    forall i | 0 < i < |s.chain| ensures s.chain[i] != c {
      assert EdgeOk(s, i);
    }
    forall u | u in s.pc && Owns(s.pc[u]) ensures s.pc[u].c != c {
      assert ThreadInv(s, s.pc[u]);
    }
  }

  lemma OutsideStep(s: State, t: nat)
    requires Inv(s) && CanStep(s, t) && IsOutsideStep(s, t)
    ensures Outside(s, StepDo(s, t), t, s.pc[t].c) && ThreadInv(StepDo(s, t), StepDo(s, t).pc[t])
  {
    assert ThreadInv(s, s.pc[t]);
    if s.pc[t].Claim? {
      NullMeansOutside(s, s.pc[t].c);
    }
  }

  lemma OutsideStepAsked(s: State, t: nat)
    requires Inv(s) && CanStep(s, t) && IsOutsideStep(s, t) && Outside(s, StepDo(s, t), t, s.pc[t].c)
    ensures AskedInv(StepDo(s, t))
  {
    var s' := StepDo(s, t);
    var c := s.pc[t].c;
    assert ThreadInv(s, s.pc[t]);
    forall n: nat ensures Owned(s, n) && n != c ==> Owned(s', n) { WorkKept(s, s', t, n); }
    forall n: nat ensures WorkedOn(s, n) ==> WorkedOn(s', n) { WorkKept(s, s', t, n); }
    WorkKept(s, s', t, c);
  }

  // ---- Linking into the list ----

  predicate IsLinkStep(s: State, t: nat)
    requires CanStep(s, t)
  {
    s.pc[t].Is2? && s.next[s.pc[t].a] == s.pc[t].b
  }

  /** What thread t finds and does at IS2 when the edge is still there. */
  ghost predicate Links(s: State, s': State, t: nat, c: nat, front: bool, a: nat, b: nat) {
    && |s.chain| >= 2 && |s.prev| == |s.next| && User(s, c) && t in s.pc && s.pc[t] == Is2(c, front, a, b)
    && Ends(s, front, a, b) && a < |s.next| && b < |s.prev| && s.next[a] == b && s.prev[b] == a
    && c !in s.chain && s.prev[c] == a && s.next[c] == b
    && s' == s.(next := s.next[a := c], pc := s.pc[t := Is3(c, front, a, b)], chain := Insert(s.chain, c, front))
  }

  lemma LinkStep(s: State, t: nat)
    requires ThreadsInv(s) && CanStep(s, t) && IsLinkStep(s, t)
    ensures var at := s.pc[t];
            Links(s, StepDo(s, t), t, at.c, at.front, at.a, at.b)
  {
    assert ThreadInv(s, s.pc[t]);
  }

  lemma LinkFollows(s: State, s': State, t: nat, c: nat, front: bool, a: nat, b: nat)
    requires ChainInv(s) && Links(s, s', t, c, front, a, b)
    ensures Follows(s'.chain, s'.next)
  {
    SplitPoint(s, front, a, b);
    InsertFollows(s.chain, s.next, c, front);
  }

  lemma InsertBounds(chain: seq<nat>, c: nat, front: bool, n: nat)
    requires |chain| >= 2 && NULL < c < n && forall i :: 0 <= i < |chain| ==> NULL < chain[i] < n
    ensures var chain' := Insert(chain, c, front);
            && |chain'| == |chain| + 1 && chain'[0] == chain[0] && chain'[|chain|] == chain[|chain| - 1]
            && forall i :: 0 <= i < |chain'| ==> NULL < chain'[i] < n
  {
  }

  lemma LinkChain(s: State, s': State, t: nat, c: nat, front: bool, a: nat, b: nat)
    requires ChainInv(s) && Links(s, s', t, c, front, a, b)
    ensures ChainInv(s')
  {
    InsertBounds(s.chain, c, front, |s.prev|);
    LinkFollows(s, s', t, c, front, a, b);
  }

  lemma LinkThread(s: State, s': State, t: nat, c: nat, front: bool, a: nat, b: nat, u: nat)
    requires ThreadsInv(s) && Links(s, s', t, c, front, a, b) && u in s.pc && u != t
    ensures ThreadInv(s', s.pc[u]) && (s.pc[u].Is3? ==> s.pc[u].c != c)
  {
    assert ThreadInv(s, s.pc[u]);
    InsertShape(s.chain, c, front);
    if s.pc[u].Is3? && s.pc[u].c == a {
      // that thread's edge a→b has no back pointer yet, but this thread has seen one
      assert false;
    }
  }

  lemma LinkThreads(s: State, s': State, t: nat, c: nat, front: bool, a: nat, b: nat)
    requires ThreadsInv(s) && Links(s, s', t, c, front, a, b)
    ensures ThreadsInv(s')
  {
    InsertShape(s.chain, c, front);
    forall u | u in s.pc && u != t ensures ThreadInv(s', s'.pc[u]) && (s.pc[u].Is3? ==> s.pc[u].c != c) {
      LinkThread(s, s', t, c, front, a, b, u);
    }
    assert ThreadInv(s', s'.pc[t]);
  }

  lemma LinkEdge(s: State, s': State, t: nat, c: nat, front: bool, a: nat, b: nat, i: nat)
    requires ChainInv(s) && EdgesInv(s) && Links(s, s', t, c, front, a, b) && 0 < i < |s'.chain|
    ensures EdgeOk(s', i)
  {
    SplitPoint(s, front, a, b);
    InsertShape(s.chain, c, front);
    var k := if front then 1 else |s.chain| - 1;
    if i == k + 1 {
      assert s'.pc[t].Is3?;
      assert PendingEdge(s', c, b);
    } else if i != k {
      var j := if i < k then i else i - 1;
      assert EdgeOk(s, j);
      EdgeKept(s, j, s', i);
    }
  }

  lemma LinkEdges(s: State, s': State, t: nat, c: nat, front: bool, a: nat, b: nat)
    requires ChainInv(s) && EdgesInv(s) && Links(s, s', t, c, front, a, b)
    ensures EdgesInv(s')
  {
    forall i | 0 < i < |s'.chain| ensures EdgeOk(s', i) {
      LinkEdge(s, s', t, c, front, a, b, i);
    }
  }

  lemma LinkSize(s: State, s': State, t: nat, c: nat, front: bool, a: nat, b: nat)
    requires SizeInv(s) && Links(s, s', t, c, front, a, b)
    ensures SizeInv(s')
  {
    InsertShape(s.chain, c, front);
    assert Uncounted(s') == Uncounted(s) + {t};
  }

  lemma LinkAsked(s: State, s': State, t: nat, c: nat, front: bool, a: nat, b: nat)
    requires AskedInv(s) && Links(s, s', t, c, front, a, b)
    ensures AskedInv(s')
  {
    InsertShape(s.chain, c, front);
    forall n: nat ensures Owned(s, n) && n != c ==> Owned(s', n) { WorkKept(s, s', t, n); }
    forall n: nat ensures WorkedOn(s, n) ==> WorkedOn(s', n) { WorkKept(s, s', t, n); }
  }

  lemma LinkInv(s: State, s': State, t: nat, c: nat, front: bool, a: nat, b: nat)
    requires Inv(s) && Links(s, s', t, c, front, a, b)
    ensures Inv(s')
  {
    LinkChain(s, s', t, c, front, a, b);
    LinkThreads(s, s', t, c, front, a, b);
    LinkEdges(s, s', t, c, front, a, b);
    LinkAsked(s, s', t, c, front, a, b);
    LinkSize(s, s', t, c, front, a, b);
  }

  // ---- Setting the back pointer, counting ----

  /** The swap at IS3 finds what it expects the first time. */
  lemma Is3Succeeds(s: State, t: nat)
    requires Inv(s) && CanStep(s, t) && s.pc[t].Is3?
    ensures StepDo(s, t).pc[t] == Bump(s.pc[t].c)
  {
    assert ThreadInv(s, s.pc[t]);
  }

  /** What thread t finds and does at IS3. */
  ghost predicate Backs(s: State, s': State, t: nat, c: nat, a: nat, b: nat) {
    && |s.prev| == |s.next| && User(s, c) && t in s.pc && s.pc[t].Is3? && s.pc[t].c == c && s.pc[t].b == b
    && c in s.chain && a in s.chain && b in s.chain && a != c && b != HEADER
    && b < |s.prev| && s.next[c] == b && s.prev[b] == a
    && s' == s.(prev := s.prev[b := c], pc := s.pc[t := Bump(c)])
  }

  lemma BackStep(s: State, t: nat)
    requires ThreadsInv(s) && CanStep(s, t) && s.pc[t].Is3?
    ensures Backs(s, StepDo(s, t), t, s.pc[t].c, s.pc[t].a, s.pc[t].b)
  {
    assert ThreadInv(s, s.pc[t]);
  }

  lemma BackThread(s: State, s': State, t: nat, c: nat, a: nat, b: nat, u: nat)
    requires ChainInv(s) && ThreadsInv(s) && Backs(s, s', t, c, a, b) && u in s.pc && u != t
    ensures ThreadInv(s', s.pc[u])
  {
    assert ThreadInv(s, s.pc[u]);
    var at := s.pc[u];
    if (at.Claim? || at.SetNext? || at.Is2?) && at.b == b && s.next[at.a] == b {
      OnePredecessor(s, at.a, c);
    } else if at.Is3? && at.b == b {
      OnePredecessor(s, at.c, c);
      assert false;
    }
  }

  lemma BackThreads(s: State, s': State, t: nat, c: nat, a: nat, b: nat)
    requires ChainInv(s) && ThreadsInv(s) && Backs(s, s', t, c, a, b)
    ensures ThreadsInv(s')
  {
    forall u | u in s.pc && u != t ensures ThreadInv(s', s'.pc[u]) {
      BackThread(s, s', t, c, a, b, u);
    }
  }

  lemma BackEdge(s: State, s': State, t: nat, c: nat, a: nat, b: nat, i: nat)
    requires ChainInv(s) && EdgesInv(s) && Backs(s, s', t, c, a, b) && 0 < i < |s.chain|
    ensures EdgeOk(s', i)
  {
    assert EdgeOk(s, i);
    assert Forward(s.chain, s.next, i - 1);
    var x, y := s.chain[i - 1], s.chain[i];
    if y == b {
      OnePredecessor(s, x, c);
    } else if PendingEdge(s, x, y) {
      var u :| u in s.pc && s.pc[u].Is3? && s.pc[u].c == x && s.pc[u].b == y;
      assert s'.pc[u] == s.pc[u];
    }
  }

  lemma BackEdges(s: State, s': State, t: nat, c: nat, a: nat, b: nat)
    requires ChainInv(s) && EdgesInv(s) && Backs(s, s', t, c, a, b)
    ensures EdgesInv(s')
  {
    forall i | 0 < i < |s'.chain| ensures EdgeOk(s', i) {
      BackEdge(s, s', t, c, a, b, i);
    }
  }

  lemma BackSize(s: State, s': State, t: nat, c: nat, a: nat, b: nat)
    requires SizeInv(s) && Backs(s, s', t, c, a, b)
    ensures SizeInv(s')
  {
    assert Uncounted(s') == Uncounted(s);
  }

  lemma BackAsked(s: State, s': State, t: nat, c: nat, a: nat, b: nat)
    requires AskedInv(s) && Backs(s, s', t, c, a, b)
    ensures AskedInv(s')
  {
    forall n: nat ensures Owned(s, n) ==> Owned(s', n) { WorkKept(s, s', t, n); }
    forall n: nat ensures WorkedOn(s, n) ==> WorkedOn(s', n) { WorkKept(s, s', t, n); }
  }

  lemma BackInv(s: State, s': State, t: nat, c: nat, a: nat, b: nat)
    requires Inv(s) && Backs(s, s', t, c, a, b)
    ensures Inv(s')
  {
    BackThreads(s, s', t, c, a, b);
    BackEdges(s, s', t, c, a, b);
    BackAsked(s, s', t, c, a, b);
    BackSize(s, s', t, c, a, b);
  }

  lemma BumpThreads(s: State, t: nat)
    requires ThreadsInv(s) && CanStep(s, t) && s.pc[t].Bump?
    ensures ThreadsInv(StepDo(s, t))
  {
    var s' := StepDo(s, t);
    forall u | u in s.pc && u != t ensures ThreadInv(s', s'.pc[u]) {
      assert ThreadInv(s, s.pc[u]);
    }
  }

  lemma BumpInv(s: State, t: nat)
    requires Inv(s) && CanStep(s, t) && s.pc[t].Bump?
    ensures ChainInv(StepDo(s, t)) && ThreadsInv(StepDo(s, t)) && EdgesInv(StepDo(s, t)) && SizeInv(StepDo(s, t))
  {
    EdgesKept(s, StepDo(s, t));
    BumpThreads(s, t);
    assert Uncounted(StepDo(s, t)) == Uncounted(s) - {t};
  }

  lemma BumpAsked(s: State, t: nat)
    requires Inv(s) && CanStep(s, t) && s.pc[t].Bump?
    ensures AskedInv(StepDo(s, t))
  {
    var s' := StepDo(s, t);
    assert ThreadInv(s, s.pc[t]);
    forall n: nat ensures Owned(s, n) ==> Owned(s', n) { WorkKept(s, s', t, n); }
    forall n: nat ensures WorkedOn(s, n) && n != s.pc[t].c ==> WorkedOn(s', n) { WorkKept(s, s', t, n); }
  }

  lemma StepInv(s: State, t: nat)
    requires Inv(s) && CanStep(s, t)
    ensures Inv(StepDo(s, t))
  {
    var at, s' := s.pc[t], StepDo(s, t);
    if IsQuietStep(s, t) {
      QuietStep(s, t);
      QuietInv(s, s', t);
      QuietAsked(s, s', t);
    } else if IsOutsideStep(s, t) {
      OutsideStep(s, t);
      OutsideInv(s, s', t, at.c);
      OutsideStepAsked(s, t);
    } else if IsLinkStep(s, t) {
      LinkStep(s, t);
      LinkInv(s, s', t, at.c, at.front, at.a, at.b);
    } else if at.Is3? {
      BackStep(s, t);
      BackInv(s, s', t, at.c, at.a, at.b);
    } else {
      BumpInv(s, t);
      BumpAsked(s, t);
    }
  }

  lemma InitInv(s: State)
    requires Init(s)
    ensures Inv(s)
  {
    assert Uncounted(s) == {};
    assert EdgeOk(s, 1);
  }

  lemma ReachableInv(s: State)
    requires Reachable(Init, Next, s)
    ensures Inv(s)
  {
    forall s | Init(s) ensures Inv(s) { InitInv(s); }
    forall s, s' | Inv(s) && Next(s, s') ensures Inv(s') {
      if t, c, front :| CanCall(s, t, c) && s' == CallDo(s, t, c, front) {
        CallInv(s, t, c, front);
      } else {
        var t :| CanStep(s, t) && s' == StepDo(s, t);
        StepInv(s, t);
      }
    }
    ReachableInvariant(Init, Next, Inv, s);
  }

  // ---- Results ----

  /** In every reachable state the forward chain is a simple path from header to tail, every edge has
      its back pointer or exactly one thread about to set it, and no claimed node is in the list. */
  lemma ListIsSound(s: State)
    requires Reachable(Init, Next, s)
    ensures ChainInv(s)
    ensures forall i :: 0 < i < |s.chain| ==>
              s.prev[s.chain[i]] == s.chain[i - 1] || PendingEdge(s, s.chain[i - 1], s.chain[i])
    ensures forall t, u :: t in s.pc && u in s.pc && s.pc[t].Is3? && s.pc[u].Is3? && s.pc[t].c == s.pc[u].c ==> t == u
    ensures forall t :: t in s.pc && Owns(s.pc[t]) ==> s.pc[t].c !in s.chain
    ensures s.size + |Uncounted(s)| == |s.chain| - 2
  {
    ReachableInv(s);
    forall i | 0 < i < |s.chain|
      ensures s.prev[s.chain[i]] == s.chain[i - 1] || PendingEdge(s, s.chain[i - 1], s.chain[i])
    {
      assert EdgeOk(s, i);
    }
    forall t | t in s.pc && Owns(s.pc[t]) ensures s.pc[t].c !in s.chain {
      assert ThreadInv(s, s.pc[t]);
    }
  }

  /** Each step leaves the chain alone or does to it what push_front or push_back does to a plain
      sequence; no thread ever spins at IS3. */
  lemma StepsLinearize(s: State, t: nat)
    requires Reachable(Init, Next, s) && t in s.pc && !s.pc[t].Idle?
    ensures CanStep(s, t)
    ensures StepDo(s, t).chain == s.chain ||
            (s.pc[t].Is2? && s.pc[t].c !in s.chain && StepDo(s, t).chain == Insert(s.chain, s.pc[t].c, s.pc[t].front))
    ensures s.pc[t].Is3? ==> StepDo(s, t).pc[t] == Bump(s.pc[t].c)
  {
    ReachableInv(s);
    assert ThreadInv(s, s.pc[t]);
    if s.pc[t].Is3? {
      Is3Succeeds(s, t);
    }
  }

  lemma QuietEdge(s: State, i: nat)
    requires ChainInv(s) && EdgesInv(s) && 0 < i < |s.chain| && forall t :: t in s.pc ==> s.pc[t].Idle?
    ensures s.next[s.chain[i - 1]] == s.chain[i] && s.prev[s.chain[i]] == s.chain[i - 1]
  {
    assert EdgeOk(s, i);
    assert Forward(s.chain, s.next, i - 1);
  }

  lemma QuietContents(s: State, n: nat)
    requires ChainInv(s) && AskedInv(s) && forall t :: t in s.pc ==> s.pc[t].Idle?
    ensures n in s.asked <==> n in s.chain[1..|s.chain| - 1]
  {
    var inner := s.chain[1..|s.chain| - 1];
    if n in s.asked {
      var i :| 0 <= i < |s.chain| && s.chain[i] == n;
      assert inner[i - 1] == n;
    }
    if n in inner {
      var i :| 0 <= i < |inner| && inner[i] == n;
      assert s.chain[i + 1] == n;
    }
  }

  /** Once every call has returned the list is doubly linked, holds exactly the nodes pushed, each
      once, and its size is their number, however often and by whom each node was pushed. */
  lemma Quiescent(s: State)
    requires Reachable(Init, Next, s)
    requires forall t :: t in s.pc ==> s.pc[t].Idle?
    ensures ChainInv(s)
    ensures forall i :: 0 < i < |s.chain| ==>
              s.next[s.chain[i - 1]] == s.chain[i] && s.prev[s.chain[i]] == s.chain[i - 1]
    ensures forall n: nat :: n in s.asked <==> n in s.chain[1..|s.chain| - 1]
    ensures s.size == |s.chain| - 2
  {
    ReachableInv(s);
    assert Uncounted(s) == {};
    forall i | 0 < i < |s.chain|
      ensures s.next[s.chain[i - 1]] == s.chain[i] && s.prev[s.chain[i]] == s.chain[i - 1]
    {
      QuietEdge(s, i);
    }
    forall n: nat ensures n in s.asked <==> n in s.chain[1..|s.chain| - 1] {
      QuietContents(s, n);
    }
  }

  // ---- A call that runs alone ----

  lemma Go(s: State, t: nat) returns (s': State)
    requires Reachable(Init, Next, s) && t in s.pc && !s.pc[t].Idle?
    ensures CanStep(s, t) && s' == StepDo(s, t) && Reachable(Init, Next, s')
  {
    StepsLinearize(s, t);
    s' := StepDo(s, t);
    assert Next(s, s');
    ReachableStep(Init, Next, s, s');
  }

  /** At rest a node has a back pointer exactly if it is in the list. */
  lemma AtRest(s: State, c: nat, front: bool)
    requires Reachable(Init, Next, s) && User(s, c) && forall t :: t in s.pc ==> s.pc[t].Idle?
    ensures ChainInv(s) && (s.prev[c] != NULL <==> c in s.chain)
    ensures if front then s.next[HEADER] in s.chain && s.prev[s.next[HEADER]] == HEADER
            else s.prev[TAIL] in s.chain && s.next[s.prev[TAIL]] == TAIL
  {
    ReachableInv(s);
    Quiescent(s);
    if c in s.chain {
      var i :| 0 <= i < |s.chain| && s.chain[i] == c;
      assert EdgeOk(s, i);
    }
    assert s.next[s.chain[0]] == s.chain[1] && s.prev[s.chain[1]] == s.chain[0];
    var n := |s.chain| - 1;
    assert s.next[s.chain[n - 1]] == s.chain[n] && s.prev[s.chain[n]] == s.chain[n - 1];
  }

  /** From the test of the back pointer to the claim, and the node's own pointers. */
  lemma LoneClaim(s: State, t: nat, c: nat, front: bool, a: nat, b: nat) returns (s': State)
    requires Reachable(Init, Next, s) && t in s.pc && s.pc[t] == Is1(c, front, a, b)
    requires c < |s.prev| == |s.next| && b < |s.prev| && s.prev[c] == NULL && s.prev[b] == a && c != b
    ensures Reachable(Init, Next, s')
    ensures s' == s.(prev := s.prev[c := a], next := s.next[c := b], pc := s.pc[t := Is2(c, front, a, b)])
  {
    s' := Go(s, t);
    assert s' == s.(pc := s.pc[t := Claim(c, front, a, b)]);
    s' := Go(s', t);
    assert s' == s.(prev := s.prev[c := a], pc := s.pc[t := SetNext(c, front, a, b)]);
    s' := Go(s', t);
  }

  /** The two swaps that link the node, and the count. */
  lemma LoneSwaps(s: State, t: nat, c: nat, front: bool, a: nat, b: nat) returns (s': State)
    requires Reachable(Init, Next, s) && t in s.pc && s.pc[t] == Is2(c, front, a, b) && |s.chain| >= 2
    requires a < |s.next| && b < |s.prev| && s.next[a] == b && s.prev[b] == a
    ensures Reachable(Init, Next, s')
    ensures s' == s.(prev := s.prev[b := c], next := s.next[a := c], size := s.size + 1, pc := s.pc[t := Idle],
                     chain := Insert(s.chain, c, front))
  {
    s' := Go(s, t);
    assert s' == s.(next := s.next[a := c], pc := s.pc[t := Is3(c, front, a, b)], chain := Insert(s.chain, c, front));
    s' := Go(s', t);
    assert s' == s.(prev := s.prev[b := c], next := s.next[a := c], pc := s.pc[t := Bump(c)],
                    chain := Insert(s.chain, c, front));
    s' := Go(s', t);
  }

  /** Up to the reading of the end of the list. */
  lemma LoneRead(s: State, t: nat, c: nat, front: bool) returns (s': State)
    requires Reachable(Init, Next, s) && CanCall(s, t, c) && |s.prev| == |s.next| >= 3
    ensures Reachable(Init, Next, s')
    ensures s' == s.(asked := s.asked + {c},
                     pc := s.pc[t := if s.prev[c] != NULL then Idle
                                     else if front then Is1(c, front, HEADER, s.next[HEADER])
                                     else Is1(c, front, s.prev[TAIL], TAIL)])
  {
    s' := CallDo(s, t, c, front);
    assert Next(s, s');
    ReachableStep(Init, Next, s, s');
    s' := Go(s', t);
    if s.prev[c] == NULL {
      s' := Go(s', t);
    }
  }

  /** A push that nothing interrupts puts the node at its end of the list, unless it is in the list already. */
  lemma LonePush(s: State, t: nat, c: nat, front: bool) returns (s': State)
    requires Reachable(Init, Next, s) && CanCall(s, t, c) && forall u :: u in s.pc ==> s.pc[u].Idle?
    ensures Reachable(Init, Next, s') && (forall u :: u in s'.pc ==> s'.pc[u].Idle?) && |s.chain| >= 2
    ensures s'.chain == if c in s.chain then s.chain else Insert(s.chain, c, front)
    ensures s'.size == s.size + if c in s.chain then 0 else 1
  {
    AtRest(s, c, front);
    s' := LoneRead(s, t, c, front);
    if c !in s.chain {
      var a, b := if front then HEADER else s.prev[TAIL], if front then s.next[HEADER] else TAIL;
      assert s.chain[0] == HEADER && s.chain[|s.chain| - 1] == TAIL;
      s' := LoneClaim(s', t, c, front, a, b);
      s' := LoneSwaps(s', t, c, front, a, b);
    }
  }
}
