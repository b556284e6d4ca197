/** The timer thread and its producers as a transition system: one step per atomic operation. */
module TimerModel {

  const MAX_TIME: nat := 0xFFFF_FFFF_FFFF_FFFF   // numeric_limits<size_t>::max()
  const TASK_QUEUE_SIZE: nat := 4096
  const MAX_WAIT: nat := 3600 * 1000 * 1000      // microseconds

  datatype Task = Task(deadline: nat, id: nat)

  /** A thread with a task container of its own, inside scheduleAbs or unschedule. */
  datatype Producer =
    | Resting
    | Cancelling(id: nat)              // in unschedule: found _exit unset
    | Admitted(deadline: nat)          // in scheduleAbs: found _exit unset
    | Numbered(task: Task)             // drew its task id
    | Pushed(task: Task)               // task is in the container
    | Seen(task: Task, nearest: nat)   // loaded _nearest_run_time
    | Lowered(task: Task)              // lowered it, still to notify

  /** A thread inside getLocalTaskContainer that found _exit unset and has no container yet. */
  datatype Newcomer = ToSchedule(deadline: nat) | ToCancel(id: nat)

  /** How long to wait, as computed from one reading of the clock. */
  datatype Plan = Plan(nr: nat, read: nat, length: nat)

  /** A call of wait_for: its length counts from the time of the call. */
  datatype Wait = Wait(plan: Plan, call: nat)

  function Until(w: Wait): nat { w.call + w.plan.length }

  /** The timer thread inside loopOnce, and afterwards the thread that runs destroy. */
  datatype TimerPc =
    | Begin
    | Loaded(nearest: nat)                            // before the compare-and-swap to MAX_TIME
    | Count                                           // before reading the number of containers
    | Collect(i: nat, k: nat)                         // before container i of k
    | Drain(i: nat, k: nat, m: nat)                   // m tasks of container i to pop
    | Cancels(i: nat, k: nat, m: nat)                 // m cancel records of container i to pop
    | Fire                                            // head of the firing loop
    | Peeked(task: Task)                              // due task on top of the heap
    | Sweep(task: Task, i: nat, k: nat)               // task popped; cancel records of container i next
    | SweepPop(task: Task, i: nat, k: nat, m: nat)
    | Decide(task: Task)
    | Rearm(next: nat)
    | Lower(nr: nat, next: nat)
    | Armed(nr: nat)
    | Enter(plan: Plan)                               // before taking _wake_mtx
    | Locked(plan: Plan)                              // holds _wake_mtx, before the call of wait_for
    | Holding(wait: Wait)                             // holds _wake_mtx, before the wait predicate
    | Checked(wait: Wait)                             // holds _wake_mtx, predicate was false
    | Blocked(wait: Wait)                             // waits on the condition variable
    | DestroyNext(i: nat, k: nat)                     // container i of k next; the end was fixed at the start
    | DestroyDrain(i: nat, k: nat)                    // holds _tasks_mtx, tasks of container i to pop
    | DestroyCancels(i: nat, k: nat)                  // holds _tasks_mtx, cancel records to pop
    | DestroyFire
    | Done

  datatype Destroyer = Absent | ExitSet | Told

  /** One call of a task's function: in which pass of the loop, and at what time. */
  datatype Firing = Firing(task: Task, at: nat, inLoop: bool, pass: nat)

  datatype State = State(
    nearest: nat,                      // _nearest_run_time
    exit: bool,
    now: nat,
    producer: seq<Producer>,
    queue: seq<seq<Task>>,
    cancelQ: seq<seq<nat>>,
    joining: multiset<Newcomer>,
    timer: TimerPc,
    heap: set<Task>,
    active: set<nat>,                  // _active_ids
    signalled: bool,                   // a notify reached the waiting timer
    destroyer: Destroyer,
    hist: History)

  /** Auxiliary record of the run; no step depends on it, apart from the source of fresh ids. */
  datatype History = History(
    nextId: nat,                       // _timer_id
    accepted: map<nat, nat>,           // id of every pushed task, with its deadline
    cancelled: set<nat>,               // ids whose cancel record was consumed while active
    fired: seq<Firing>,
    pass: nat,
    late: set<nat>,                    // ids pushed to a container that destroy does not drain any more
    quiet: bool)                       // no producer was inside scheduleAbs when destroy took over

  /** destroy has found container p empty and deletes it, or the container came too late for its loop. */
  predicate PastDestroy(pc: TimerPc, p: nat) {
    match pc
    case DestroyNext(i, k) => p < i || k <= p
    case DestroyDrain(i, k) => p < i || k <= p
    case DestroyCancels(i, k) => p <= i || k <= p
    case DestroyFire => true
    case Done => true
    case _ => false
  }

  /** What a producer does next. */
  datatype Act =
    | Admit(deadline: nat) | Number | Push | Load | Update | Notify
    | RequestCancel(id: nat) | PushCancel

  datatype Event =
    | Arrive(n: Newcomer)         // a thread without a container finds _exit unset
    | NewContainer(n: Newcomer)   // and gets one, under _tasks_mtx
    | Nudge              // any other notify, or a spurious wake-up
    | Tick(to: nat)
    | SetExit            // destroy: _exit set
    | TellExit           // destroy: timer notified

  predicate Init(s: State) {
    && s.nearest == MAX_TIME && !s.exit
    && s.producer == [] && s.queue == [] && s.cancelQ == [] && s.joining == multiset{}
    && s.timer == Begin && s.heap == {} && s.active == {} && !s.signalled && s.destroyer == Absent
    && s.hist.nextId == 1 && s.hist.accepted == map[] && s.hist.cancelled == {} && s.hist.fired == []
    && s.hist.late == {}
  }

  predicate HoldsMutex(pc: TimerPc) { pc.Locked? || pc.Holding? || pc.Checked? }

  /** _tasks_mtx is held for longer than one step. */
  predicate HoldsTasksMutex(pc: TimerPc) { pc.Sweep? || pc.SweepPop? || pc.DestroyDrain? || pc.DestroyCancels? }

  /** No call of scheduleAbs is under way. */
  predicate NobodySchedules(s: State) {
    && (forall p :: 0 <= p < |s.producer| ==> s.producer[p].Resting? || s.producer[p].Cancelling?)
    && (forall n :: n in s.joining ==> n.ToCancel?)
  }

  ghost predicate IsTop(heap: set<Task>, t: Task) {
    t in heap && forall u :: u in heap ==> t.deadline <= u.deadline
  }

  predicate Shape(s: State) {
    |s.queue| == |s.cancelQ| == |s.producer|
  }

  ghost predicate CanAct(s: State, p: nat, act: Act) {
    && Shape(s) && p < |s.producer|
    && var at := s.producer[p];
       match act
       case Admit(d) => at == Resting && d <= MAX_TIME && !s.exit
       case Number => at.Admitted?
       case Push => at.Numbered?
       case Load => at.Pushed?
       case Update => at.Seen?
       case Notify => at.Lowered? && !HoldsMutex(s.timer)
       case RequestCancel(_) => at == Resting && !s.exit
       case PushCancel => at.Cancelling?
  }

  function SetProducer(s: State, p: nat, to: Producer): State
    requires p < |s.producer|
  {
    s.(producer := s.producer[p := to])
  }

  /** Effect of popping one cancel record. */
  function Consume(s: State, i: nat): State
    requires i < |s.cancelQ| && s.cancelQ[i] != []
  {
    var id := s.cancelQ[i][0];
    var popped := s.(cancelQ := s.cancelQ[i := s.cancelQ[i][1..]]);
    if id in s.active
    then popped.(active := s.active - {id}, hist := s.hist.(cancelled := s.hist.cancelled + {id}))
    else popped
  }

  /** Effect of moving one task from its container to the heap. */
  function TakeTask(s: State, i: nat): State
    requires i < |s.queue| && s.queue[i] != []
  {
    var t := s.queue[i][0];
    s.(queue := s.queue[i := s.queue[i][1..]], heap := s.heap + {t}, active := s.active + {t.id})
  }

  /** Run the task's function if its id is still active. */
  function FireIfActive(s: State, t: Task, inLoop: bool): State {
    if t.id in s.active
    then s.(active := s.active - {t.id},
             hist := s.hist.(fired := s.hist.fired + [Firing(t, s.now, inLoop, s.hist.pass)]))
    else s
  }

  predicate Collecting(pc: TimerPc) {
    pc.Begin? || pc.Loaded? || pc.Count? || pc.Collect? || pc.Drain? || pc.Cancels?
  }

  /** From the head of the loop to the end of the collection of tasks and cancel records. */
  function CollectDo(s: State): State
    requires Shape(s) && Collecting(s.timer)
  {
    match s.timer
    case Begin =>
      if s.exit
      then s.(timer := DestroyNext(0, |s.queue|), hist := s.hist.(quiet := NobodySchedules(s)))
      else s.(timer := Loaded(s.nearest))
    case Loaded(n) =>
      if s.nearest == n then s.(nearest := MAX_TIME, timer := Count, hist := s.hist.(pass := s.hist.pass + 1))
      else s.(timer := Begin)
    case Count => s.(timer := Collect(0, |s.queue|))
    case Collect(i, k) =>
      if i < k && i < |s.queue| then s.(timer := Drain(i, k, |s.queue[i]|)) else s.(timer := Fire)
    case Drain(i, k, m) =>
      if m > 0 && i < |s.queue| && s.queue[i] != [] then TakeTask(s, i).(timer := Drain(i, k, m - 1))
      else s.(timer := Cancels(i, k, if i < |s.cancelQ| then |s.cancelQ[i]| else 0))
    case Cancels(i, k, m) =>
      if m > 0 && i < |s.cancelQ| && s.cancelQ[i] != [] then Consume(s, i).(timer := Cancels(i, k, m - 1))
      else s.(timer := Collect(i + 1, k))
  }

  predicate InFiring(pc: TimerPc) {
    pc.Fire? || pc.Peeked? || pc.Sweep? || pc.SweepPop? || pc.Decide?
  }

  /** The firing loop; `pick` is the task on top of the heap. */
  function FireDo(s: State, pick: Task): State
    requires Shape(s) && InFiring(s.timer)
  {
    match s.timer
    case Fire =>
      if s.heap == {} then s.(timer := Rearm(MAX_TIME))
      else if pick.deadline > s.now then s.(timer := Rearm(pick.deadline))
      else s.(timer := Peeked(pick))
    case Peeked(t) =>
      if t.deadline > s.nearest then s.(timer := Begin)
      else s.(heap := s.heap - {t}, timer := Sweep(t, 0, |s.queue|))
    case Sweep(t, i, k) =>
      if i < k && i < |s.cancelQ| then s.(timer := SweepPop(t, i, k, |s.cancelQ[i]|)) else s.(timer := Decide(t))
    case SweepPop(t, i, k, m) =>
      if m > 0 && i < |s.cancelQ| && s.cancelQ[i] != [] then Consume(s, i).(timer := SweepPop(t, i, k, m - 1))
      else s.(timer := Sweep(t, i + 1, k))
    case Decide(t) => FireIfActive(s, t, true).(timer := Fire)
  }

  predicate InWaiting(pc: TimerPc) {
    pc.Rearm? || pc.Lower? || pc.Armed? || pc.Enter? || pc.Locked? || pc.Holding? || pc.Checked? || pc.Blocked?
  }

  /** Lowering the nearest run time and waiting for it; the clock is read at Armed and again by wait_for, at Locked. */
  function WaitDo(s: State): State
    requires InWaiting(s.timer)
  {
    match s.timer
    case Rearm(next) => s.(timer := Lower(s.nearest, next))
    case Lower(nr, next) =>
      if nr <= next then s.(timer := Armed(nr))
      else if s.nearest == nr then s.(nearest := next, timer := Lower(next, next))
      else s.(timer := Lower(s.nearest, next))
    case Armed(nr) =>
      if nr <= s.now then s.(timer := Begin)
      else s.(timer := Enter(Plan(nr, s.now, if nr - s.now > MAX_WAIT then MAX_WAIT else nr - s.now)))
    case Enter(plan) => s.(timer := Locked(plan))
    case Locked(plan) => s.(timer := Holding(Wait(plan, s.now)))
    case Holding(wait) =>
      if s.exit || s.nearest != wait.plan.nr then s.(timer := Begin) else s.(timer := Checked(wait))
    case Checked(wait) => s.(timer := Blocked(wait), signalled := false)
    case Blocked(wait) => if s.signalled then s.(timer := Holding(wait)) else s.(timer := Begin)
  }

  predicate Destroying(pc: TimerPc) {
    pc.DestroyNext? || pc.DestroyDrain? || pc.DestroyCancels? || pc.DestroyFire?
  }

  /** destroy, after the timer thread was joined; `pick` is the next task of the vector. */
  function DestroyDo(s: State, pick: Task): State
    requires Shape(s) && Destroying(s.timer)
  {
    match s.timer
    case DestroyNext(i, k) => if i < k then s.(timer := DestroyDrain(i, k)) else s.(timer := DestroyFire)
    case DestroyDrain(i, k) =>
      if i < |s.queue| && s.queue[i] != [] then TakeTask(s, i) else s.(timer := DestroyCancels(i, k))
    case DestroyCancels(i, k) =>
      if i < |s.cancelQ| && s.cancelQ[i] != [] then Consume(s, i) else s.(timer := DestroyNext(i + 1, k))
    case DestroyFire =>
      if s.heap == {} then s.(timer := Done)
      else FireIfActive(s, pick, false).(heap := s.heap - {pick})
  }

  /** A step of scheduleAbs or unschedule by producer p. */
  function ProducerDo(s: State, p: nat, act: Act): State
    requires CanAct(s, p, act)
  {
    match act
    case Admit(d) => SetProducer(s, p, Admitted(d))
    case Number =>
      SetProducer(s, p, Numbered(Task(s.producer[p].deadline, s.hist.nextId)))
      .(hist := s.hist.(nextId := s.hist.nextId + 1))
    case Push =>
      var t := s.producer[p].task;
      if |s.queue[p]| >= TASK_QUEUE_SIZE then SetProducer(s, p, Resting)       // full: schedule returns 0
      else
        var late := if PastDestroy(s.timer, p) then s.hist.late + {t.id} else s.hist.late;
        SetProducer(s, p, Pushed(t))
        .(queue := s.queue[p := s.queue[p] + [t]],
          hist := s.hist.(accepted := s.hist.accepted[t.id := t.deadline], late := late))
    case Load => SetProducer(s, p, Seen(s.producer[p].task, s.nearest))
    case Update =>
      var Seen(t, n) := s.producer[p];
      if t.deadline >= n then SetProducer(s, p, Resting)
      else if s.nearest == n then SetProducer(s, p, Lowered(t)).(nearest := t.deadline)
      else SetProducer(s, p, Seen(t, s.nearest))
    case Notify => SetProducer(s, p, Resting).(signalled := s.signalled || s.timer.Blocked?)
    case RequestCancel(id) => SetProducer(s, p, Cancelling(id))
    case PushCancel =>
      if |s.cancelQ[p]| >= TASK_QUEUE_SIZE then SetProducer(s, p, Resting)     // full: unschedule returns false
      else SetProducer(s, p, Resting).(cancelQ := s.cancelQ[p := s.cancelQ[p] + [s.producer[p].id]])
  }

  predicate CanHappen(s: State, e: Event) {
    && Shape(s)
    && match e
       case Arrive(n) => !s.exit && (n.ToSchedule? ==> n.deadline <= MAX_TIME)
       case NewContainer(n) => n in s.joining && !HoldsTasksMutex(s.timer)
       case Nudge => true
       case Tick(to) => s.now <= to
       case SetExit => s.destroyer == Absent
       case TellExit => s.destroyer == ExitSet && !HoldsMutex(s.timer)
  }

  /** The environment, and the thread that calls destroy. */
  function WorldDo(s: State, e: Event): State {
    match e
    case Arrive(n) => s.(joining := s.joining + multiset{n})
    case NewContainer(n) =>
      var at := if n.ToSchedule? then Admitted(n.deadline) else Cancelling(n.id);
      s.(producer := s.producer + [at], queue := s.queue + [[]], cancelQ := s.cancelQ + [[]],
         joining := s.joining - multiset{n})
    case Nudge => s.(signalled := s.signalled || s.timer.Blocked?)
    case Tick(to) => s.(now := to)
    case SetExit => s.(exit := true, destroyer := ExitSet)
    case TellExit => s.(destroyer := Told, signalled := s.signalled || s.timer.Blocked?)
  }

  ghost predicate CanCollect(s: State) {
    Shape(s) && Collecting(s.timer) && (s.timer.Begin? && s.exit ==> s.destroyer == Told)
  }

  ghost predicate CanFire(s: State, pick: Task) {
    Shape(s) && InFiring(s.timer) && (s.timer.Fire? && s.heap != {} ==> IsTop(s.heap, pick))
  }

  ghost predicate CanWait(s: State) {
    Shape(s) && InWaiting(s.timer) && (s.timer.Blocked? ==> s.signalled || Until(s.timer.wait) <= s.now)
  }

  ghost predicate CanDestroy(s: State, pick: Task) {
    Shape(s) && Destroying(s.timer) && (s.timer.DestroyFire? && s.heap != {} ==> pick in s.heap)
  }

  ghost predicate Next(s: State, s': State) {
    || (exists p, act :: CanAct(s, p, act) && s' == ProducerDo(s, p, act))
    || (exists e :: CanHappen(s, e) && s' == WorldDo(s, e))
    || (CanCollect(s) && s' == CollectDo(s))
    || (exists pick :: CanFire(s, pick) && s' == FireDo(s, pick))
    || (CanWait(s) && s' == WaitDo(s))
    || (exists pick :: CanDestroy(s, pick) && s' == DestroyDo(s, pick))
  }
}
