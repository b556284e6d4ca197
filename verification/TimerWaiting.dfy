/** The timer thread never oversleeps and no wake-up is lost. */
module TimerWaiting {
  import opened Runs
  import opened TimerModel
  import opened TimerTasks

  // ---- Tasks still in containers ----

  /** The pass under way will still collect the j-th task of container p. */
  predicate ToCollect(pc: TimerPc, p: nat, j: nat) {
    match pc
    case Count => true
    case Collect(i, k) => i <= p < k
    case Drain(i, k, m) => i < p < k || (p == i && j < m)
    case Cancels(i, k, _) => i < p < k
    case _ => false
  }

  /** The producer has pushed t and will still compare it with the nearest run time. */
  predicate Updating(at: Producer, t: Task) {
    at == Pushed(t) || (at.Seen? && at.task == t && at.nearest > t.deadline)
  }

  predicate Covered(s: State, p: nat, j: nat)
    requires Shape(s) && p < |s.queue| && j < |s.queue[p]|
  {
    var t := s.queue[p][j];
    s.nearest <= t.deadline || ToCollect(s.timer, p, j) || Updating(s.producer[p], t)
  }

  ghost predicate QueueInv(s: State) {
    Shape(s) && forall p, j | 0 <= p < |s.queue| && 0 <= j < |s.queue[p]| :: Covered(s, p, j)
  }

  lemma DrainQueue(s: State)
    requires QueueInv(s) && Takes(s) && s.timer.Drain?
    ensures QueueInv(CollectDo(s))
  {
    var s' := CollectDo(s);
    forall p, j | 0 <= p < |s'.queue| && 0 <= j < |s'.queue[p]| ensures Covered(s', p, j) {
      assert Covered(s, p, if p == s.timer.i then j + 1 else j);
    }
  }

  lemma CollectQueue(s: State)
    requires QueueInv(s) && CanCollect(s)
    ensures QueueInv(CollectDo(s))
  {
    if Takes(s) {
      DrainQueue(s);
    } else {
      var s' := CollectDo(s);
      assert s'.queue == s.queue && s'.producer == s.producer;
      forall p, j | 0 <= p < |s.queue| && 0 <= j < |s.queue[p]| ensures Covered(s', p, j) {
        assert Covered(s, p, j);
      }
    }
  }

  /** The nearest run time only goes down and the queues only lose tasks. */
  lemma StillCovered(s: State, s': State)
    requires QueueInv(s) && Shape(s') && s'.nearest <= s.nearest && s'.producer == s.producer
    requires !Collecting(s.timer)
    requires |s'.queue| == |s.queue|
    requires forall p, j | 0 <= p < |s'.queue| && 0 <= j < |s'.queue[p]| :: s'.queue[p][j] in s.queue[p]
    ensures QueueInv(s')
  {
    forall p, j | 0 <= p < |s'.queue| && 0 <= j < |s'.queue[p]| ensures Covered(s', p, j) {
      var k :| 0 <= k < |s.queue[p]| && s.queue[p][k] == s'.queue[p][j];
      assert Covered(s, p, k);
    }
  }

  lemma FireQueue(s: State, pick: Task)
    requires QueueInv(s) && CanFire(s, pick)
    ensures QueueInv(FireDo(s, pick))
  {
    StillCovered(s, FireDo(s, pick));
  }

  lemma WaitQueue(s: State)
    requires QueueInv(s) && CanWait(s)
    ensures QueueInv(WaitDo(s))
  {
    StillCovered(s, WaitDo(s));
  }

  lemma DestroyQueue(s: State, pick: Task)
    requires QueueInv(s) && CanDestroy(s, pick)
    ensures QueueInv(DestroyDo(s, pick))
  {
    StillCovered(s, DestroyDo(s, pick));
  }

  lemma ProducerQueue(s: State, p: nat, act: Act)
    requires QueueInv(s) && CanAct(s, p, act)
    ensures QueueInv(ProducerDo(s, p, act))
  {
    var s' := ProducerDo(s, p, act);
    forall q, j | 0 <= q < |s'.queue| && 0 <= j < |s'.queue[q]| ensures Covered(s', q, j) {
      if j < |s.queue[q]| {
        assert s'.queue[q][j] == s.queue[q][j];
        assert Covered(s, q, j);
      }
    }
  }

  lemma WorldQueue(s: State, e: Event)
    requires QueueInv(s) && CanHappen(s, e)
    ensures QueueInv(WorldDo(s, e))
  {
    var s' := WorldDo(s, e);
    forall p, j | 0 <= p < |s'.queue| && 0 <= j < |s'.queue[p]| ensures Covered(s', p, j) {
      assert Covered(s, p, j);
    }
  }

  // ---- Tasks in the heap, and the wake-up ----

  ghost predicate NoEarlier(heap: set<Task>, time: nat) { forall t :: t in heap ==> time <= t.deadline }

  ghost predicate SomeLowered(s: State) {
    exists p :: 0 <= p < |s.producer| && s.producer[p].Lowered?
  }

  /** A change the wait predicate would see is about to be announced. */
  ghost predicate Announced(s: State) { SomeLowered(s) || s.destroyer == ExitSet }

  /** The plan was made at an earlier time, for a run time that no task in the heap precedes. */
  ghost predicate Sleeping(s: State, plan: Plan, call: nat) {
    && NoEarlier(s.heap, plan.nr) && s.nearest <= plan.nr && plan.read <= call && plan.read < plan.nr
    && plan.length == (if plan.nr - plan.read > MAX_WAIT then MAX_WAIT else plan.nr - plan.read)
  }

  ghost predicate WaitInv(s: State) {
    && (s.exit <==> s.destroyer != Absent)
    && match s.timer
       case Rearm(next) => NoEarlier(s.heap, next)
       case Lower(nr, next) => NoEarlier(s.heap, next) && s.nearest <= nr
       case Armed(nr) => NoEarlier(s.heap, nr) && s.nearest <= nr
       case Enter(plan) => Sleeping(s, plan, s.now)
       case Locked(plan) => Sleeping(s, plan, s.now)
       case Holding(wait) => Sleeping(s, wait.plan, wait.call)
       case Checked(wait) =>
         && Sleeping(s, wait.plan, wait.call)
         && (s.nearest != wait.plan.nr ==> SomeLowered(s)) && (s.exit ==> s.destroyer == ExitSet)
       case Blocked(wait) =>
         && Sleeping(s, wait.plan, wait.call)
         && (s.nearest != wait.plan.nr ==> s.signalled || SomeLowered(s))
         && (s.exit ==> s.signalled || s.destroyer == ExitSet)
       case _ => true
  }

  lemma CollectWait(s: State)
    requires WaitInv(s) && CanCollect(s)
    ensures WaitInv(CollectDo(s))
  {}

  lemma FireWait(s: State, pick: Task)
    requires WaitInv(s) && CanFire(s, pick)
    ensures WaitInv(FireDo(s, pick))
  {}

  lemma PlanWait(s: State)
    requires WaitInv(s) && CanWait(s) && (s.timer.Rearm? || s.timer.Lower? || s.timer.Armed?)
    ensures WaitInv(WaitDo(s))
  {
  }

  lemma SleepWait(s: State)
    requires WaitInv(s) && CanWait(s) && !(s.timer.Rearm? || s.timer.Lower? || s.timer.Armed?)
    ensures WaitInv(WaitDo(s))
  {
  }

  lemma WaitWait(s: State)
    requires WaitInv(s) && CanWait(s)
    ensures WaitInv(WaitDo(s))
  {
    if s.timer.Rearm? || s.timer.Lower? || s.timer.Armed? {
      PlanWait(s);
    } else {
      SleepWait(s);
    }
  }

  lemma DestroyWait(s: State, pick: Task)
    requires WaitInv(s) && CanDestroy(s, pick)
    ensures WaitInv(DestroyDo(s, pick))
  {}

  /** A producer may lower the nearest run time if it announces that; an announcement ends only by a
      notify, which needs the mutex. */
  lemma WaitKept(s: State, s': State)
    requires WaitInv(s)
    requires s'.timer == s.timer && s'.heap == s.heap && s'.exit == s.exit && s'.destroyer == s.destroyer
    requires s.now <= s'.now && s'.nearest <= s.nearest && (s'.nearest < s.nearest ==> SomeLowered(s'))
    requires s.signalled ==> s'.signalled
    requires SomeLowered(s) ==> SomeLowered(s') || (!HoldsMutex(s.timer) && (s.timer.Blocked? ==> s'.signalled))
    ensures WaitInv(s')
  {}

  /** A producer that lowers the nearest run time is about to announce it, and only a notify ends that. */
  lemma ProducerAnnounces(s: State, p: nat, act: Act)
    requires CanAct(s, p, act)
    ensures var s' := ProducerDo(s, p, act);
            && s'.nearest <= s.nearest && (s'.nearest < s.nearest ==> SomeLowered(s'))
            && (SomeLowered(s) && !act.Notify? ==> SomeLowered(s'))
  {
    var s' := ProducerDo(s, p, act);
    if SomeLowered(s) && !act.Notify? {
      var q :| 0 <= q < |s.producer| && s.producer[q].Lowered?;
      assert s'.producer[q].Lowered?;
    }
    if act.Update? && s'.nearest != s.nearest {
      assert s'.producer[p].Lowered?;
    }
  }

  lemma ProducerWait(s: State, p: nat, act: Act)
    requires WaitInv(s) && CanAct(s, p, act)
    ensures WaitInv(ProducerDo(s, p, act))
  {
    ProducerAnnounces(s, p, act);
    WaitKept(s, ProducerDo(s, p, act));
  }

  lemma WorldAnnounces(s: State, e: Event)
    requires CanHappen(s, e) && SomeLowered(s)
    ensures SomeLowered(WorldDo(s, e))
  {
    var q :| 0 <= q < |s.producer| && s.producer[q].Lowered?;
    assert WorldDo(s, e).producer[q].Lowered?;
  }

  lemma ExitWait(s: State, e: Event)
    requires WaitInv(s) && CanHappen(s, e) && (e.SetExit? || e.TellExit?)
    requires SomeLowered(s) ==> SomeLowered(WorldDo(s, e))
    ensures WaitInv(WorldDo(s, e))
  {
  }

  lemma WorldWait(s: State, e: Event)
    requires WaitInv(s) && CanHappen(s, e)
    ensures WaitInv(WorldDo(s, e))
  {
    if SomeLowered(s) {
      WorldAnnounces(s, e);
    }
    if e.SetExit? || e.TellExit? {
      ExitWait(s, e);
    } else {
      WaitKept(s, WorldDo(s, e));
    }
  }

  lemma StepWait(s: State, s': State)
    requires QueueInv(s) && WaitInv(s) && Next(s, s')
    ensures QueueInv(s') && WaitInv(s')
  {
    if p, act :| CanAct(s, p, act) && s' == ProducerDo(s, p, act) {
      ProducerQueue(s, p, act);
      ProducerWait(s, p, act);
    } else if e :| CanHappen(s, e) && s' == WorldDo(s, e) {
      WorldQueue(s, e);
      WorldWait(s, e);
    } else if CanCollect(s) && s' == CollectDo(s) {
      CollectQueue(s);
      CollectWait(s);
    } else if pick :| CanFire(s, pick) && s' == FireDo(s, pick) {
      FireQueue(s, pick);
      FireWait(s, pick);
    } else if CanWait(s) && s' == WaitDo(s) {
      WaitQueue(s);
      WaitWait(s);
    } else {
      var pick :| CanDestroy(s, pick) && s' == DestroyDo(s, pick);
      DestroyQueue(s, pick);
      DestroyWait(s, pick);
    }
  }

  lemma ReachableWait(s: State)
    requires Reachable(Init, Next, s)
    ensures TaskInv(s) && QueueInv(s) && WaitInv(s)
  {
    var inv := (s: State) => QueueInv(s) && WaitInv(s);
    forall s, s' | TaskInv(s) && inv(s) && Next(s, s') ensures inv(s') {
      StepWait(s, s');
    }
    ReachableAlong(inv, s);
  }

  /** A producer has pushed the task with this id and has still to compare it with the nearest run
      time; the comparison ends the wait if the task is earlier. */
  ghost predicate StillUpdating(s: State, id: nat) {
    exists p :: 0 <= p < |s.producer| &&
      ((s.producer[p].Pushed? && s.producer[p].task.id == id) ||
       (s.producer[p].Seen? && s.producer[p].task.id == id && s.producer[p].nearest > s.producer[p].task.deadline))
  }

  lemma ActiveIsLater(s: State, id: nat, time: nat)
    requires PlacesInv(s) && Hand(s.timer) == {} && NoEarlier(s.heap, time) && id in s.active
    ensures id in s.hist.accepted && time <= s.hist.accepted[id]
  {
    assert s.heap + {} == s.heap;
    var t :| t in s.heap && t.id == id;
    assert Known(s, t);
  }

  lemma QueuedIsCovered(s: State, id: nat)
    requires PlacesInv(s) && QueueInv(s) && !Collecting(s.timer) && id in Queued(s.queue)
    ensures id in s.hist.accepted && (s.nearest <= s.hist.accepted[id] || StillUpdating(s, id))
  {
    var p, j :| 0 <= p < |s.queue| && 0 <= j < |s.queue[p]| && s.queue[p][j].id == id;
    assert Covered(s, p, j) && Known(s, s.queue[p][j]);
    if Updating(s.producer[p], s.queue[p][j]) {
      assert StillUpdating(s, id);
    }
  }

  /** Whenever the timer thread is blocked, the run time it waits for is no later than the deadline of any accepted
      task that is neither fired nor cancelled, unless the task's producer has yet to finish its update, or the wait is
      already being ended. */
  lemma NeverOversleeps(s: State, id: nat)
    requires Reachable(Init, Next, s) && s.timer.Blocked?
    requires id in s.hist.accepted && id !in s.hist.cancelled && id !in FiredIds(s)
    ensures || s.timer.wait.plan.nr <= s.hist.accepted[id]
            || StillUpdating(s, id)
            || (s.nearest < s.timer.wait.plan.nr && (s.signalled || SomeLowered(s)))
  {
    ReachableWait(s);
    if id in s.active {
      ActiveIsLater(s, id, s.timer.wait.plan.nr);
    } else {
      QueuedIsCovered(s, id);
    }
  }

  /** The wait ends after the run time it is for by no more than the time between the reading of the clock and the
      call of wait_for. It ends in time if and only if no time passed there, or an hour from the call is still early
      enough. */
  lemma WaitEnds(s: State)
    requires Reachable(Init, Next, s) && s.timer.Blocked?
    ensures var w := s.timer.wait;
            && w.plan.read <= w.call && Until(w) <= w.plan.nr + (w.call - w.plan.read)
            && (Until(w) <= w.plan.nr <==> w.call == w.plan.read || w.call + MAX_WAIT <= w.plan.nr)
  {
    ReachableWait(s);
  }

  /** No wake-up is lost: if the timer is blocked although its wait predicate holds, a notify has
      reached it or is about to. */
  lemma NoLostWakeUp(s: State)
    requires Reachable(Init, Next, s) && s.timer.Blocked?
    requires s.exit || s.nearest != s.timer.wait.plan.nr
    ensures s.signalled || Announced(s)
  {
    ReachableWait(s);
  }
}
