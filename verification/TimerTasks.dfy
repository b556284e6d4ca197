/** Where every accepted timer task is, at every moment of every run. */
module TimerTasks {
  import opened Runs
  import opened TimerModel

  // ---- Queues ----

  /** Ids of the tasks still in a container. */
  ghost function Queued(q: seq<seq<Task>>): set<nat> {
    set p, j | 0 <= p < |q| && 0 <= j < |q[p]| :: q[p][j].id
  }

  ghost predicate Distinct(q: seq<seq<Task>>) {
    forall p, j, p', j' | 0 <= p < |q| && 0 <= j < |q[p]| && 0 <= p' < |q| && 0 <= j' < |q[p']| ::
      q[p][j].id == q[p'][j'].id ==> p == p' && j == j'
  }

  lemma QueuedPush(q: seq<seq<Task>>, p: nat, t: Task)
    requires p < |q| && Distinct(q) && t.id !in Queued(q)
    ensures Queued(q[p := q[p] + [t]]) == Queued(q) + {t.id}
    ensures Distinct(q[p := q[p] + [t]])
  {
    var q': seq<seq<Task>> := q[p := q[p] + [t]];
    forall a, j | 0 <= a < |q'| && 0 <= j < |q'[a]|
      ensures q'[a][j].id in Queued(q) + {t.id}
      ensures q'[a][j].id == t.id ==> a == p && j == |q[p]|
    {
      if a != p || j < |q[p]| {
        assert q[a][j].id in Queued(q);
      }
    }
    forall a, j | 0 <= a < |q| && 0 <= j < |q[a]| ensures q[a][j].id in Queued(q') {
      assert q'[a][j] == q[a][j];
    }
    assert q'[p][|q[p]|].id in Queued(q');
  }

  lemma QueuedPop(q: seq<seq<Task>>, p: nat)
    requires p < |q| && q[p] != [] && Distinct(q)
    ensures Queued(q[p := q[p][1..]]) == Queued(q) - {q[p][0].id}
    ensures Distinct(q[p := q[p][1..]])
    ensures q[p][0].id in Queued(q)
  {
    var q': seq<seq<Task>> := q[p := q[p][1..]];
    var id := q[p][0].id;
    forall a, j | 0 <= a < |q'| && 0 <= j < |q'[a]|
      ensures q'[a][j].id in Queued(q) - {id}
    {
      var k := if a == p then j + 1 else j;
      assert q'[a][j] == q[a][k] && q[a][k].id in Queued(q);
    }
    forall a, j | 0 <= a < |q| && 0 <= j < |q[a]| && q[a][j].id != id ensures q[a][j].id in Queued(q') {
      var k := if a == p then j - 1 else j;
      assert q'[a][k] == q[a][j];
    }
    forall a, j, b, l | 0 <= a < |q'| && 0 <= j < |q'[a]| && 0 <= b < |q'| && 0 <= l < |q'[b]| &&
                        q'[a][j].id == q'[b][l].id
      ensures a == b && j == l
    {
      assert q'[a][j] == q[a][if a == p then j + 1 else j];
      assert q'[b][l] == q[b][if b == p then l + 1 else l];
    }
  }

  // ---- The four places ----

  ghost function FiredIds(s: State): set<nat> {
    set i | 0 <= i < |s.hist.fired| :: s.hist.fired[i].task.id
  }

  /** The popped task in the timer thread's hands, if any. */
  ghost function Hand(pc: TimerPc): set<Task> {
    if pc.Sweep? || pc.SweepPop? || pc.Decide? then {pc.task} else {}
  }

  ghost function Ids(ts: set<Task>): set<nat> { set t | t in ts :: t.id }

  /** Every accepted id is in exactly one of queued, active, cancelled and fired. */
  ghost predicate Partition(s: State) {
    var q, f := Queued(s.queue), FiredIds(s);
    && s.hist.accepted.Keys == q + s.active + s.hist.cancelled + f
    && q !! s.active && q !! s.hist.cancelled && q !! f
    && s.active !! s.hist.cancelled && s.active !! f && s.hist.cancelled !! f
  }

  /** Tasks in containers, heap and hand carry their accepted deadlines. */
  ghost predicate Known(s: State, t: Task) {
    t.id in s.hist.accepted && s.hist.accepted[t.id] == t.deadline
  }

  ghost predicate PlacesInv(s: State) {
    && Shape(s)
    && Distinct(s.queue)
    && (forall p, j :: 0 <= p < |s.queue| && 0 <= j < |s.queue[p]| ==> Known(s, s.queue[p][j]))
    && (forall t :: t in s.heap ==> Known(s, t) && t.id !in Queued(s.queue))
    && (forall t :: t in Hand(s.timer) ==> Known(s, t) && t.id !in Queued(s.queue) && t !in s.heap)
    && s.active <= Ids(s.heap + Hand(s.timer))
    && (s.timer.Peeked? ==> IsTop(s.heap, s.timer.task) && s.timer.task.deadline <= s.now)
  }

  ghost predicate FiredInv(s: State) {
    && (forall i, j :: 0 <= i < j < |s.hist.fired| ==> s.hist.fired[i].task.id != s.hist.fired[j].task.id)
    && (forall i :: 0 <= i < |s.hist.fired| ==> Known(s, s.hist.fired[i].task))
    && (forall i :: 0 <= i < |s.hist.fired| && s.hist.fired[i].inLoop ==>
          s.hist.fired[i].task.deadline <= s.hist.fired[i].at)
    && (forall t :: t in Hand(s.timer) ==> t.deadline <= s.now)
  }

  /** Ids are drawn once: a numbered task is not accepted yet and no two producers hold one id. */
  ghost predicate NumberInv(s: State) {
    && (forall id :: id in s.hist.accepted ==> id < s.hist.nextId)
    && (forall p :: 0 <= p < |s.producer| && s.producer[p].Numbered? ==>
        s.producer[p].task.id < s.hist.nextId && s.producer[p].task.id !in s.hist.accepted)
    && (forall p, r | 0 <= p < |s.producer| && 0 <= r < |s.producer| && p != r ::
        s.producer[p].Numbered? && s.producer[r].Numbered? ==> s.producer[p].task.id != s.producer[r].task.id)
  }

  ghost predicate CoreInv(s: State) { PlacesInv(s) && Partition(s) && FiredInv(s) }

  ghost predicate TaskInv(s: State) { CoreInv(s) && NumberInv(s) }

  /** Steps that touch neither tasks nor ids. */
  ghost predicate SameTasks(s: State, s': State) {
    && s'.queue == s.queue && s'.heap == s.heap && s'.active == s.active && s'.hist.accepted == s.hist.accepted
    && s'.hist.cancelled == s.hist.cancelled && s'.hist.fired == s.hist.fired && Hand(s'.timer) == Hand(s.timer)
    && s.now <= s'.now && Shape(s') && (s'.timer.Peeked? ==> s'.timer == s.timer)
  }

  lemma SameTasksInv(s: State, s': State)
    requires CoreInv(s) && SameTasks(s, s')
    ensures CoreInv(s')
  {
    assert FiredIds(s') == FiredIds(s);
  }

  lemma PushInv(s: State, p: nat)
    requires TaskInv(s) && CanAct(s, p, Push) && |s.queue[p]| < TASK_QUEUE_SIZE
    ensures var s' := ProducerDo(s, p, Push); CoreInv(s')
  {
    var s' := ProducerDo(s, p, Push);
    var t := s.producer[p].task;
    assert t.id !in Queued(s.queue);
    QueuedPush(s.queue, p, t);
    PushPlaces(s, s', p, t);
    assert FiredIds(s') == FiredIds(s);
  }

  lemma PushPlaces(s: State, s': State, p: nat, t: Task)
    requires PlacesInv(s) && p < |s.queue| && t.id !in s.hist.accepted && Shape(s')
    requires Distinct(s'.queue) && Queued(s'.queue) == Queued(s.queue) + {t.id}
    requires s'.queue == s.queue[p := s.queue[p] + [t]] && s'.heap == s.heap && s'.active == s.active
    requires s'.hist.accepted == s.hist.accepted[t.id := t.deadline] && s'.timer == s.timer && s'.now == s.now
    ensures PlacesInv(s')
  {
    assert forall u: Task :: Known(s, u) ==> Known(s', u);
    forall a, j | 0 <= a < |s'.queue| && 0 <= j < |s'.queue[a]| ensures Known(s', s'.queue[a][j]) {
      assert s'.queue[a][j] == t || s'.queue[a][j] == s.queue[a][j];
    }
  }

  lemma TakeInv(s: State, i: nat, pc: TimerPc)
    requires CoreInv(s)
    requires i < |s.queue| && s.queue[i] != []
    requires Hand(s.timer) == Hand(pc) == {} && !pc.Peeked?
    ensures var s' := TakeTask(s, i).(timer := pc); CoreInv(s')
  {
    var s' := TakeTask(s, i).(timer := pc);
    var t := s.queue[i][0];
    QueuedPop(s.queue, i);
    assert FiredIds(s') == FiredIds(s);
    forall a, j | 0 <= a < |s'.queue| && 0 <= j < |s'.queue[a]| ensures Known(s', s'.queue[a][j]) {
      assert s'.queue[a][j] == s.queue[a][if a == i then j + 1 else j];
    }
    assert Ids(s'.heap) == Ids(s.heap) + {t.id};
    assert s.heap + Hand(s.timer) == s.heap && s'.heap + Hand(s'.timer) == s'.heap;
  }

  lemma ConsumeInv(s: State, i: nat, pc: TimerPc)
    requires CoreInv(s)
    requires i < |s.cancelQ| && s.cancelQ[i] != []
    requires Hand(s.timer) == Hand(pc) && !pc.Peeked?
    ensures var s' := Consume(s, i).(timer := pc); CoreInv(s')
  {
    var s' := Consume(s, i).(timer := pc);
    var kept := s.(cancelQ := s'.cancelQ, timer := pc);
    SameTasksInv(s, kept);
    if s.cancelQ[i][0] in s.active {
      ConsumePartition(s, s', s.cancelQ[i][0]);
      FewerActive(kept, s');
    } else {
      assert s' == kept;
    }
  }

  lemma FewerActive(s: State, s': State)
    requires PlacesInv(s) && FiredInv(s)
    requires s' == s.(active := s'.active, hist := s.hist.(cancelled := s'.hist.cancelled)) && s'.active <= s.active
    ensures PlacesInv(s') && FiredInv(s')
  {}

  lemma ConsumePartition(s: State, s': State, id: nat)
    requires Partition(s) && id in s.active
    requires s'.queue == s.queue && s'.hist.fired == s.hist.fired && s'.hist.accepted == s.hist.accepted
    requires s'.active == s.active - {id} && s'.hist.cancelled == s.hist.cancelled + {id}
    ensures Partition(s')
  {
    assert FiredIds(s') == FiredIds(s);
  }

  lemma PopInv(s: State)
    requires CoreInv(s) && s.timer.Peeked? && s.timer.task.deadline <= s.nearest
    ensures var s' := FireDo(s, s.timer.task); CoreInv(s')
  {
    var s' := FireDo(s, s.timer.task);
    assert s'.heap + Hand(s'.timer) == s.heap + Hand(s.timer);
    assert FiredIds(s') == FiredIds(s);
  }

  ghost predicate FireStep(s: State, t: Task, inLoop: bool, s': State) {
    && Known(s, t) && t in s.heap + Hand(s.timer) && (inLoop ==> t.deadline <= s.now)
    && s' == FireIfActive(s, t, inLoop).(timer := s'.timer, heap := s.heap - {t})
    && Hand(s'.timer) == {} && Hand(s.timer) <= {t} && !s'.timer.Peeked?
  }

  lemma FirePlaces(s: State, t: Task, inLoop: bool, s': State)
    requires PlacesInv(s) && FireStep(s, t, inLoop, s')
    ensures PlacesInv(s')
  {
    var all, all' := s.heap + Hand(s.timer), s'.heap + Hand(s'.timer);
    assert all' == all - {t};
    forall id | id in s'.active ensures id in Ids(all') {
      var u :| u in all && u.id == id;
      assert u != t;        // its id has just left the active ids, or was not among them
    }
  }

  lemma FirePartition(s: State, t: Task, inLoop: bool, s': State)
    requires Partition(s) && FireStep(s, t, inLoop, s')
    ensures Partition(s')
  {
    if t.id in s.active {
      FiredOneMore(s, s', t);
    } else {
      assert FiredIds(s') == FiredIds(s);
    }
  }

  lemma FireFired(s: State, t: Task, inLoop: bool, s': State)
    requires FiredInv(s) && (t.id in s.active ==> t.id !in FiredIds(s)) && FireStep(s, t, inLoop, s')
    ensures FiredInv(s')
  {
    assert forall i :: 0 <= i < |s.hist.fired| ==> s.hist.fired[i].task.id in FiredIds(s);
  }

  lemma FireInv(s: State, t: Task, inLoop: bool, s': State)
    requires CoreInv(s) && FireStep(s, t, inLoop, s')
    ensures CoreInv(s')
  {
    FirePlaces(s, t, inLoop, s');
    FirePartition(s, t, inLoop, s');
    FireFired(s, t, inLoop, s');
  }

  lemma FiredOneMore(s: State, s': State, t: Task)
    requires |s'.hist.fired| == |s.hist.fired| + 1 && s'.hist.fired[..|s.hist.fired|] == s.hist.fired
    requires s'.hist.fired[|s.hist.fired|].task == t
    ensures FiredIds(s') == FiredIds(s) + {t.id}
  {
    forall i | 0 <= i < |s'.hist.fired| ensures s'.hist.fired[i].task.id in FiredIds(s) + {t.id} {
      if i < |s.hist.fired| {
        assert s'.hist.fired[i] == s.hist.fired[i];
      }
    }
    forall id | id in FiredIds(s) ensures id in FiredIds(s') {
      var i :| 0 <= i < |s.hist.fired| && s.hist.fired[i].task.id == id;
      assert s'.hist.fired[i] == s.hist.fired[i];
    }
  }

  // ---- Every step keeps the four places apart ----

  /** The timer pops a task from container i. */
  predicate Takes(s: State) {
    && (s.timer.Drain? || s.timer.DestroyDrain?)
    && (s.timer.Drain? ==> s.timer.m > 0)
    && s.timer.i < |s.queue| && s.queue[s.timer.i] != []
  }

  /** The timer pops a cancel record from container i. */
  predicate Consumes(s: State) {
    && (s.timer.Cancels? || s.timer.SweepPop? || s.timer.DestroyCancels?)
    && (!s.timer.DestroyCancels? ==> s.timer.m > 0)
    && s.timer.i < |s.cancelQ| && s.cancelQ[s.timer.i] != []
  }

  lemma CollectSame(s: State)
    requires Shape(s) && Collecting(s.timer) && !Takes(s) && !Consumes(s)
    ensures SameTasks(s, CollectDo(s))
  {
    match s.timer {
      case Begin =>
      case Loaded(_) =>
      case _ =>
    }
  }

  lemma CollectTasks(s: State)
    requires CoreInv(s) && Collecting(s.timer)
    ensures CoreInv(CollectDo(s))
  {
    var s' := CollectDo(s);
    if Takes(s) {
      TakeInv(s, s.timer.i, s'.timer);
    } else if Consumes(s) {
      ConsumeInv(s, s.timer.i, s'.timer);
    } else {
      CollectSame(s);
      SameTasksInv(s, s');
    }
  }

  /** A step of the firing loop that only looks. */
  lemma FireSame(s: State, pick: Task)
    requires CanFire(s, pick) && !Consumes(s) && !s.timer.Decide? && !FireDo(s, pick).timer.Peeked?
    requires s.timer.Peeked? ==> s.timer.task.deadline > s.nearest
    ensures SameTasks(s, FireDo(s, pick))
  {
    match s.timer {
      case Fire =>
      case Sweep(_, _, _) =>
      case _ =>
    }
  }

  lemma FireTasks(s: State, pick: Task)
    requires CoreInv(s) && CanFire(s, pick)
    ensures CoreInv(FireDo(s, pick))
  {
    var s' := FireDo(s, pick);
    if Consumes(s) {
      ConsumeInv(s, s.timer.i, s'.timer);
    } else if s.timer.Decide? {
      DecideInv(s, pick);
    } else if s.timer.Peeked? && s.timer.task.deadline <= s.nearest {
      PopInv(s);
    } else if s'.timer.Peeked? {
      PeekInv(s, pick);
    } else {
      FireSame(s, pick);
      SameTasksInv(s, s');
    }
  }

  lemma DecideInv(s: State, pick: Task)
    requires CoreInv(s) && s.timer.Decide?
    ensures CoreInv(FireDo(s, pick))
  {
    assert s.heap - {s.timer.task} == s.heap;
    FireInv(s, s.timer.task, true, FireDo(s, pick));
  }

  lemma PeekInv(s: State, pick: Task)
    requires CoreInv(s) && CanFire(s, pick) && s.timer.Fire? && s.heap != {} && pick.deadline <= s.now
    ensures CoreInv(FireDo(s, pick))
  {
    assert FiredIds(FireDo(s, pick)) == FiredIds(s);
  }

  lemma WaitSame(s: State)
    requires CanWait(s)
    ensures SameTasks(s, WaitDo(s))
  {
    var s' := WaitDo(s);
    assert s' == s.(nearest := s'.nearest, timer := s'.timer, signalled := s'.signalled);
    assert Hand(s'.timer) == {} && !s'.timer.Peeked?;
  }

  lemma WaitTasks(s: State)
    requires CoreInv(s) && CanWait(s)
    ensures CoreInv(WaitDo(s))
  {
    WaitSame(s);
    SameTasksInv(s, WaitDo(s));
  }

  lemma DestroySame(s: State, pick: Task)
    requires CanDestroy(s, pick) && !Takes(s) && !Consumes(s) && (s.timer.DestroyFire? ==> s.heap == {})
    ensures SameTasks(s, DestroyDo(s, pick))
  {
  }

  lemma DestroyFires(s: State, pick: Task)
    requires CoreInv(s) && CanDestroy(s, pick) && s.timer.DestroyFire? && s.heap != {}
    ensures CoreInv(DestroyDo(s, pick))
  {
    FireInv(s, pick, false, DestroyDo(s, pick));
  }

  lemma DestroyTasks(s: State, pick: Task)
    requires CoreInv(s) && CanDestroy(s, pick)
    ensures CoreInv(DestroyDo(s, pick))
  {
    var s' := DestroyDo(s, pick);
    if Takes(s) {
      TakeInv(s, s.timer.i, s'.timer);
    } else if Consumes(s) {
      ConsumeInv(s, s.timer.i, s'.timer);
    } else if s.timer.DestroyFire? && s.heap != {} {
      DestroyFires(s, pick);
    } else {
      DestroySame(s, pick);
      SameTasksInv(s, s');
    }
  }

  lemma ProducerSame(s: State, p: nat, act: Act)
    requires CanAct(s, p, act) && (act.Push? ==> |s.queue[p]| >= TASK_QUEUE_SIZE)
    ensures SameTasks(s, ProducerDo(s, p, act))
  {
  }

  lemma ProducerTasks(s: State, p: nat, act: Act)
    requires TaskInv(s) && CanAct(s, p, act)
    ensures CoreInv(ProducerDo(s, p, act))
  {
    if act.Push? && |s.queue[p]| < TASK_QUEUE_SIZE {
      PushInv(s, p);
    } else {
      ProducerSame(s, p, act);
      SameTasksInv(s, ProducerDo(s, p, act));
    }
  }

  lemma WorldTasks(s: State, e: Event)
    requires CoreInv(s) && CanHappen(s, e)
    ensures CoreInv(WorldDo(s, e))
  {
    if e.NewContainer? {
      ContainerInv(s, e.n);
    } else {
      SameTasksInv(s, WorldDo(s, e));
    }
  }

  // ---- Ids are drawn once ----

  ghost predicate SameNumbers(s: State, s': State) {
    s'.producer == s.producer && s'.hist.nextId == s.hist.nextId && s'.hist.accepted == s.hist.accepted
  }

  lemma CollectNumbers(s: State)
    requires CanCollect(s)
    ensures SameNumbers(s, CollectDo(s))
  {}

  lemma FireNumbers(s: State, pick: Task)
    requires CanFire(s, pick)
    ensures SameNumbers(s, FireDo(s, pick))
  {}

  lemma WaitNumbers(s: State)
    requires CanWait(s)
    ensures SameNumbers(s, WaitDo(s))
  {}

  lemma DestroyNumbers(s: State, pick: Task)
    requires CanDestroy(s, pick)
    ensures SameNumbers(s, DestroyDo(s, pick))
  {}

  /** A producer that changes neither the ids drawn nor the ids accepted, and takes none. */
  lemma NumbersKept(s: State, s': State, p: nat)
    requires NumberInv(s) && p < |s.producer| == |s'.producer| && !s'.producer[p].Numbered?
    requires s'.hist.accepted == s.hist.accepted && s'.hist.nextId == s.hist.nextId
    requires forall r :: 0 <= r < |s.producer| && r != p ==> s'.producer[r] == s.producer[r]
    ensures NumberInv(s')
  {
  }

  lemma ProducerNumbers(s: State, p: nat, act: Act)
    requires NumberInv(s) && CanAct(s, p, act)
    ensures NumberInv(ProducerDo(s, p, act))
  {
    var s' := ProducerDo(s, p, act);
    assert s'.producer == s.producer[p := s'.producer[p]];
    if !act.Number? && !act.Push? {
      NumbersKept(s, s', p);
    }
  }

  lemma WorldNumbers(s: State, e: Event)
    requires NumberInv(s) && CanHappen(s, e)
    ensures NumberInv(WorldDo(s, e))
  {}

  lemma ContainerInv(s: State, n: Newcomer)
    requires CoreInv(s) && CanHappen(s, NewContainer(n))
    ensures var s' := WorldDo(s, NewContainer(n)); CoreInv(s')
  {
    var s' := WorldDo(s, NewContainer(n));
    assert FiredIds(s') == FiredIds(s);
    assert forall p :: 0 <= p < |s'.queue| ==> s'.queue[p] == if p < |s.queue| then s.queue[p] else [];
    assert Queued(s'.queue) == Queued(s.queue) by {
      forall p, j | 0 <= p < |s.queue| && 0 <= j < |s.queue[p]| ensures s.queue[p][j].id in Queued(s'.queue) {
        assert s'.queue[p][j] == s.queue[p][j];
      }
    }
  }

  lemma StepTasks(s: State, s': State)
    requires TaskInv(s) && Next(s, s')
    ensures TaskInv(s')
  {
    if p, act :| CanAct(s, p, act) && s' == ProducerDo(s, p, act) {
      ProducerTasks(s, p, act);
      ProducerNumbers(s, p, act);
    } else if e :| CanHappen(s, e) && s' == WorldDo(s, e) {
      WorldTasks(s, e);
      WorldNumbers(s, e);
    } else if CanCollect(s) && s' == CollectDo(s) {
      CollectTasks(s);
      CollectNumbers(s);
    } else if pick :| CanFire(s, pick) && s' == FireDo(s, pick) {
      FireTasks(s, pick);
      FireNumbers(s, pick);
    } else if CanWait(s) && s' == WaitDo(s) {
      WaitTasks(s);
      WaitNumbers(s);
    } else {
      var pick :| CanDestroy(s, pick) && s' == DestroyDo(s, pick);
      DestroyTasks(s, pick);
      DestroyNumbers(s, pick);
    }
  }

  lemma InitTasks(s: State)
    requires Init(s)
    ensures TaskInv(s)
  {
    assert Queued(s.queue) == {} && FiredIds(s) == {};
  }

  lemma ReachableTasks(s: State)
    requires Reachable(Init, Next, s)
    ensures TaskInv(s)
  {
    forall s | Init(s) ensures TaskInv(s) {
      InitTasks(s);
    }
    forall s, s' | TaskInv(s) && Next(s, s') ensures TaskInv(s') {
      StepTasks(s, s');
    }
    ReachableInvariant(Init, Next, TaskInv, s);
  }

  /** A further property that every step keeps, given where the tasks are. */
  lemma ReachableAlong(inv: State -> bool, s: State)
    requires Reachable(Init, Next, s)
    requires forall s :: Init(s) ==> inv(s)
    requires forall s, s' :: TaskInv(s) && inv(s) && Next(s, s') ==> inv(s')
    ensures TaskInv(s) && inv(s)
  {
    ReachableTasks(s);
    var both := (s: State) => TaskInv(s) && inv(s);
    forall s | Init(s) ensures both(s) {
      InitTasks(s);
    }
    forall s, s' | both(s) && Next(s, s') ensures both(s') {
      StepTasks(s, s');
    }
    ReachableInvariant(Init, Next, both, s);
  }

  /** Conservation: in every reachable state an accepted id is in exactly one of queued, in the heap
      (or the timer's hand) and active, cancelled while active, or fired; nothing else fires; each
      fires at most once, and in the loop never before its deadline. */
  lemma Conservation(s: State)
    requires Reachable(Init, Next, s)
    ensures s.hist.accepted.Keys == Queued(s.queue) + s.active + s.hist.cancelled + FiredIds(s)
    ensures Queued(s.queue) !! s.active !! s.hist.cancelled !! FiredIds(s)
    ensures s.active <= Ids(s.heap + Hand(s.timer))
    ensures forall i, j :: 0 <= i < j < |s.hist.fired| ==> s.hist.fired[i].task.id != s.hist.fired[j].task.id
    ensures forall i :: 0 <= i < |s.hist.fired| && s.hist.fired[i].inLoop ==>
              s.hist.fired[i].task.deadline <= s.hist.fired[i].at && Known(s, s.hist.fired[i].task)
  {
    ReachableTasks(s);
  }
}
