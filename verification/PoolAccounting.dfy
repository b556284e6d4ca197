/** getSubSocketInternal: threads share the sub-channels of a connection pool and count themselves on them. */
module PoolAccounting {
  import opened Runs

  /** The candidate of a scan: a sub-channel and the count read from it. */
  datatype Best = None | Some(index: nat, count: int)

  datatype Pc =
    | Idle                            // not in a call
    | Own                             // asks its own sub-channel for a socket
    | OwnFailed                       // about to mark it inactive
    | OwnDrop                         // about to count itself off
    | Scan(i: nat, best: Best)        // about to look whether the i-th is active
    | Read(i: nat, best: Best)        // about to read the count of the i-th
    | Pick                            // none is active, about to take a random one
    | Claim(count: int)               // about to count itself on by compare-and-swap
    | Try                             // asks the sub-channel it counted itself on
    | Activate                        // about to mark it active
    | TryFailed                       // about to mark it inactive
    | Drop                            // about to count itself off
    | Exited

  datatype Thread = Thread(pc: Pc, idx: int)

  datatype Pool = Pool(shared: seq<int>, active: seq<bool>)

  datatype State = State(pool: Pool, threads: map<nat, Thread>)

  /** What the environment decides: whether a socket is got, which number is drawn, whether an idle thread exits. */
  datatype Choice = Go(ok: bool, random: nat) | Exit

  predicate Init(s: State) {
    && |s.pool.shared| == |s.pool.active| > 0
    && (forall i :: 0 <= i < |s.pool.shared| ==> s.pool.shared[i] == 0)
    && (forall t :: t in s.threads ==> s.threads[t] == Thread(Idle, -1))
  }

  /** A thread counts on the i-th sub-channel: it has counted itself on and not yet off. */
  predicate Counts(th: Thread, i: int) {
    && th.idx == i >= 0
    && (th.pc.Idle? || th.pc.Own? || th.pc.OwnFailed? || th.pc.OwnDrop?
        || th.pc.Try? || th.pc.Activate? || th.pc.TryFailed? || th.pc.Drop?)
  }

  /** The indices a thread uses are those of the pool. */
  predicate InPool(th: Thread, n: nat) {
    && -1 <= th.idx < n
    && (match th.pc
        case Scan(i, best) => i <= n && (best.Some? ==> best.index < n)
        case Read(i, best) => i < n && (best.Some? ==> best.index < n)
        case Own | OwnFailed | OwnDrop | Claim(_) | Try | Activate | TryFailed | Drop => th.idx >= 0
        case _ => true)
  }

  function Mark(p: Pool, i: int, on: bool): Pool
    requires 0 <= i < |p.active|
  {
    p.(active := p.active[i := on])
  }

  function Add(p: Pool, i: int, n: int): Pool
    requires 0 <= i < |p.shared|
  {
    p.(shared := p.shared[i := p.shared[i] + n])
  }

  predicate Enabled(p: Pool, th: Thread, c: Choice) {
    && |p.shared| == |p.active| > 0 && InPool(th, |p.shared|)
    && if c.Exit? then th.pc.Idle? else !th.pc.Exited? && c.random < |p.shared|
  }

  /** One step of a thread: at most one access to the pool. */
  function Step(p: Pool, th: Thread, c: Choice): (Pool, Thread)
    requires Enabled(p, th, c)
  {
    var n := |p.shared|;
    var i := th.idx;
    if c.Exit? then (if i >= 0 then Add(p, i, -1) else p, th.(pc := Exited))
    else match th.pc
      case Idle => (p, th.(pc := if i >= 0 then Own else Scan(0, None)))
      case Own => (p, th.(pc := if c.ok then Idle else OwnFailed))
      case OwnFailed => (Mark(p, i, false), th.(pc := OwnDrop))
      case OwnDrop => (Add(p, i, -1), th.(pc := Scan(0, None)))
      case Scan(k, best) =>
        if k < n then (p, th.(pc := if i == k || !p.active[k] then Scan(k + 1, best) else Read(k, best)))
        else if best.None? then (p, th.(pc := Pick))
        else (p, Thread(Claim(best.count), best.index))
      case Read(k, best) =>
        var v := p.shared[k];
        (p, th.(pc := Scan(k + 1, if best.None? || v < best.count then Some(k, v) else best)))
      case Pick => (p, Thread(Claim(p.shared[c.random]), c.random))
      case Claim(v) => if p.shared[i] == v then (Add(p, i, 1), th.(pc := Try)) else (p, th.(pc := Scan(0, None)))
      case Try => (p, th.(pc := if c.ok then Activate else TryFailed))
      case Activate => (Mark(p, i, true), th.(pc := Idle))
      case TryFailed => (Mark(p, i, false), th.(pc := Drop))
      case Drop => (Add(p, i, -1), Thread(Idle, -1))
      case Exited => (p, th)
  }

  ghost predicate NextBy(s: State, s': State, t: nat, c: Choice) {
    && t in s.threads && Enabled(s.pool, s.threads[t], c)
    && var (p, th) := Step(s.pool, s.threads[t], c);
       s' == State(p, s.threads[t := th])
  }

  ghost predicate Next(s: State, s': State) {
    exists t, c :: NextBy(s, s', t, c)
  }

  // ---- The counts ----

  function Holders(s: State, i: int): set<nat> {
    set t | t in s.threads && Counts(s.threads[t], i)
  }

  ghost predicate Ranges(s: State) {
    && |s.pool.shared| == |s.pool.active| > 0
    && forall t :: t in s.threads ==> InPool(s.threads[t], |s.pool.shared|)
  }

  ghost predicate Counted(s: State) {
    forall i :: 0 <= i < |s.pool.shared| ==> s.pool.shared[i] == |Holders(s, i)|
  }

  ghost predicate Inv(s: State) {
    Ranges(s) && Counted(s)
  }

  function One(b: bool): int {
    if b then 1 else 0
  }

  /** A step changes a count exactly as it changes whether the thread counts there. */
  lemma StepCounts(p: Pool, th: Thread, c: Choice, i: nat)
    requires Enabled(p, th, c) && i < |p.shared|
    ensures var (p', th') := Step(p, th, c);
            && |p'.shared| == |p'.active| == |p.shared| && InPool(th', |p.shared|)
            && p'.shared[i] - p.shared[i] == One(Counts(th', i)) - One(Counts(th, i))
  {
  }

  lemma HoldersStep(s: State, t: nat, th: Thread, p: Pool, i: int)
    requires t in s.threads
    ensures var s' := State(p, s.threads[t := th]);
            |Holders(s', i)| == |Holders(s, i)| + One(Counts(th, i)) - One(Counts(s.threads[t], i))
  {
    var s' := State(p, s.threads[t := th]);
    var others := Holders(s, i) - {t};
    assert Holders(s, i) == if Counts(s.threads[t], i) then others + {t} else others;
    assert Holders(s', i) == if Counts(th, i) then others + {t} else others;
  }

  lemma StepInv(s: State, s': State, t: nat, c: Choice)
    requires Inv(s) && NextBy(s, s', t, c)
    ensures Inv(s')
  {
    var (p, th) := Step(s.pool, s.threads[t], c);
    StepCounts(s.pool, s.threads[t], c, 0);
    forall i | 0 <= i < |p.shared| ensures s'.pool.shared[i] == |Holders(s', i)| {
      StepCounts(s.pool, s.threads[t], c, i);
      HoldersStep(s, t, th, p, i);
    }
  }

  lemma InitInv(s: State)
    requires Init(s)
    ensures Inv(s)
  {
    forall i | 0 <= i < |s.pool.shared| ensures s.pool.shared[i] == |Holders(s, i)| {
      assert Holders(s, i) == {};
    }
  }

  /**
   * In every run of any number of threads that acquire, fail over and exit, each sub-channel's count is the number of
   * threads that count on it, and so never below zero.
   */
  lemma SharedIsHolders(s: State, i: nat)
    requires Reachable(Init, Next, s) && i < |s.pool.shared|
    ensures s.pool.shared[i] == |Holders(s, i)| >= 0
  {
    ReachableInv(s);
  }

  lemma ReachableInv(s: State)
    requires Reachable(Init, Next, s)
    ensures Inv(s)
  {
    forall s | Init(s) ensures Inv(s) {
      InitInv(s);
    }
    forall s, s' | Inv(s) && Next(s, s') ensures Inv(s') {
      var t, c :| NextBy(s, s', t, c);
      StepInv(s, s', t, c);
    }
    ReachableInvariant(Init, Next, Inv, s);
  }

  /** The index checks in the steps shut nothing out: a thread that has not exited can always go on. */
  lemma AlwaysEnabled(s: State, t: nat, ok: bool, random: nat)
    requires Reachable(Init, Next, s) && t in s.threads && !s.threads[t].pc.Exited? && random < |s.pool.shared|
    ensures Enabled(s.pool, s.threads[t], Go(ok, random))
  {
    ReachableInv(s);
  }

  /** A thread whose last call succeeded is counted on its sub-channel, and on no other. */
  lemma ServedThreadIsCounted(s: State, t: nat)
    requires Reachable(Init, Next, s) && t in s.threads && s.threads[t].pc.Idle? && s.threads[t].idx >= 0
    ensures var i := s.threads[t].idx;
            && i < |s.pool.shared| && s.pool.shared[i] >= 1 && t in Holders(s, i)
            && forall j :: j != i ==> t !in Holders(s, j)
  {
    ReachableInv(s);
    var i := s.threads[t].idx;
    assert t in Holders(s, i);
    assert Holders(s, i) == (Holders(s, i) - {t}) + {t};
  }

  /** When all threads have exited nothing is counted any more. */
  lemma AllExited(s: State, i: nat)
    requires Reachable(Init, Next, s) && i < |s.pool.shared|
    requires forall t :: t in s.threads ==> s.threads[t].pc.Exited?
    ensures s.pool.shared[i] == 0
  {
    ReachableInv(s);
    assert Holders(s, i) == {};
  }

  // ---- Which sub-channel a thread takes ----

  /** The first of the active sub-channels below k, other than its own, with the least count; or none. */
  ghost predicate LeastBelow(p: Pool, own: int, k: nat, best: Best)
    requires k <= |p.shared| == |p.active|
  {
    match best
    case None => forall j :: 0 <= j < k ==> !Candidate(p, own, j)
    case Some(i, v) =>
      && i < k && Candidate(p, own, i) && v == p.shared[i]
      && forall j :: 0 <= j < k && Candidate(p, own, j) ==> v <= p.shared[j] && (j < i ==> v < p.shared[j])
  }

  predicate Candidate(p: Pool, own: int, j: int) {
    0 <= j < |p.active| && j != own && p.active[j]
  }

  /** A thread that makes so many steps alone. */
  ghost function Alone(p: Pool, th: Thread, c: Choice, m: nat): (Pool, Thread)
    decreases m
  {
    if m == 0 || !Enabled(p, th, c) then (p, th)
    else
      var (p', th') := Step(p, th, c);
      Alone(p', th', c, m - 1)
  }

  lemma {:induction false} ScanAlone(p: Pool, th: Thread, c: Choice, k: nat, best: Best) returns (m: nat, b: Best)
    requires c.Go? && Enabled(p, th, c) && th.pc == Scan(k, best) && LeastBelow(p, th.idx, k, best)
    ensures LeastBelow(p, th.idx, |p.shared|, b)
    ensures Alone(p, th, c, m) == (p, if b.None? then th.(pc := Pick) else Thread(Claim(b.count), b.index))
    decreases |p.shared| - k
  {
    var (p1, th1) := Step(p, th, c);
    if k == |p.shared| {
      m, b := 1, best;
      assert Alone(p1, th1, c, 0) == (p1, th1);
    } else if th1.pc.Scan? {
      m, b := ScanAlone(p, th1, c, k + 1, best);
      m := m + 1;
    } else {
      var (p2, th2) := Step(p1, th1, c);
      m, b := ScanAlone(p, th2, c, k + 1, th2.pc.best);
      assert Alone(p1, th1, c, m + 1) == Alone(p2, th2, c, m);
      m := m + 2;
    }
  }

  /** A thread that looks for a sub-channel, while nobody else changes the pool, goes for the first of the active ones
      other than its own with the least count; for a random one only if none is active. */
  lemma ClaimsTheMostIdle(p: Pool, th: Thread, c: Choice) returns (m: nat, th': Thread)
    requires c.Go? && Enabled(p, th, c) && th.pc == Scan(0, None)
    ensures Alone(p, th, c, m) == (p, th')
    ensures if exists j :: Candidate(p, th.idx, j) then
              && th'.pc.Claim? && Candidate(p, th.idx, th'.idx) && th'.pc.count == p.shared[th'.idx]
              && forall j :: Candidate(p, th.idx, j) ==>
                   p.shared[th'.idx] <= p.shared[j] && (j < th'.idx ==> p.shared[th'.idx] < p.shared[j])
            else th'.pc == Pick && th'.idx == th.idx
  {
    var b;
    m, b := ScanAlone(p, th, c, 0, None);
    th' := Alone(p, th, c, m).1;
  }

  /** A failed attempt leaves the sub-channel marked inactive, a successful one marked active; no step marks another. */
  lemma MarksItsOwn(p: Pool, th: Thread, c: Choice, j: nat)
    requires Enabled(p, th, c) && j < |p.active|
    ensures var p' := Step(p, th, c).0;
            && |p'.active| == |p.active|
            && (th.pc.OwnFailed? || th.pc.TryFailed? ==> p'.active[j] == (p.active[j] && j != th.idx))
            && (th.pc.Activate? && c.Go? ==> p'.active[j] == (p.active[j] || j == th.idx))
            && (!th.pc.OwnFailed? && !th.pc.TryFailed? && !th.pc.Activate? ==> p'.active == p.active)
  {
  }

  /** A thread stays on its sub-channel while that gives it sockets; when it does not, the thread counts itself off and
      looks for another, and after a failed attempt there it is on none. */
  lemma AttemptsDecide(p: Pool, th: Thread, c: Choice)
    requires c.Go? && Enabled(p, th, c)
    ensures th.pc.Idle? ==> Step(p, th, c) == (p, th.(pc := if th.idx >= 0 then Own else Scan(0, None)))
    ensures th.pc.Own? && c.ok ==> Alone(p, th, c, 1) == (p, th.(pc := Idle))
    ensures th.pc.Own? && !c.ok ==>
              Alone(p, th, c, 3) == (Add(Mark(p, th.idx, false), th.idx, -1), th.(pc := Scan(0, None)))
    ensures th.pc.Try? && c.ok ==> Alone(p, th, c, 2) == (Mark(p, th.idx, true), th.(pc := Idle))
    ensures th.pc.Try? && !c.ok ==> Alone(p, th, c, 3) == (Add(Mark(p, th.idx, false), th.idx, -1), Thread(Idle, -1))
    ensures th.pc.Pick? ==> Step(p, th, c) == (p, Thread(Claim(p.shared[c.random]), c.random))
    ensures th.pc.Claim? && p.shared[th.idx] != th.pc.count ==> Step(p, th, c) == (p, th.(pc := Scan(0, None)))
  {
    if th.pc.Own? || th.pc.Try? {
      var (p1, th1) := Step(p, th, c);
      if !c.ok || th.pc.Try? {
        var (p2, th2) := Step(p1, th1, c);
        assert Alone(p1, th1, c, 1) == (p2, th2);
        if !c.ok {
          var (p3, th3) := Step(p2, th2, c);
          assert Alone(p2, th2, c, 1) == (p3, th3);
        }
      }
    }
  }
}
