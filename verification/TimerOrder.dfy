/** The order in which one pass fires its tasks, and what destroy leaves behind. */
module TimerOrder {
  import opened Runs
  import opened TimerModel
  import opened TimerTasks

  // ---- Firing order ----

  /** The firing happened in the loop, in the pass now under way. */
  predicate Current(s: State, f: Firing) { f.inLoop && f.pass == s.hist.pass }

  ghost predicate Sorted(fired: seq<Firing>) {
    forall i, j | 0 <= i < j < |fired| ::
      fired[i].inLoop && fired[j].inLoop && fired[i].pass == fired[j].pass ==>
        fired[i].task.deadline <= fired[j].task.deadline
  }

  predicate Gathering(pc: TimerPc) { pc.Count? || pc.Collect? || pc.Drain? || pc.Cancels? }

  /** Every firing of the current pass is no later than any of these tasks. */
  ghost predicate AllAfter(s: State, ts: set<Task>) {
    forall i, t | 0 <= i < |s.hist.fired| && t in ts ::
      Current(s, s.hist.fired[i]) ==> s.hist.fired[i].task.deadline <= t.deadline
  }

  ghost predicate NoneYet(s: State) {
    forall i :: 0 <= i < |s.hist.fired| ==> !Current(s, s.hist.fired[i])
  }

  ghost predicate HandFirst(s: State) {
    forall h, t :: h in Hand(s.timer) && t in s.heap ==> h.deadline <= t.deadline
  }

  /** No firing of the current pass is later than any task still to fire. */
  ghost predicate OrderInv(s: State) {
    && Sorted(s.hist.fired)
    && (forall i :: 0 <= i < |s.hist.fired| ==> s.hist.fired[i].pass <= s.hist.pass)
    && (Gathering(s.timer) ==> NoneYet(s))
    && (InFiring(s.timer) ==> AllAfter(s, s.heap + Hand(s.timer)) && HandFirst(s))
  }

  /** Steps that fire nothing. */
  lemma NothingFired(s: State, s': State)
    requires OrderInv(s) && s'.hist.fired == s.hist.fired
    requires s'.hist.pass == s.hist.pass || (s'.hist.pass == s.hist.pass + 1 && s'.timer.Count?)
    requires Gathering(s'.timer) ==> Gathering(s.timer) || s'.hist.pass > s.hist.pass
    requires InFiring(s'.timer) ==>
               || s.timer.Collect?
               || (InFiring(s.timer) && s'.heap + Hand(s'.timer) <= s.heap + Hand(s.timer))
    requires InFiring(s'.timer) ==> HandFirst(s')
    ensures OrderInv(s')
  {}

  lemma CollectOrder(s: State)
    requires OrderInv(s) && CanCollect(s)
    ensures OrderInv(CollectDo(s))
  {
    var s' := CollectDo(s);
    assert s'.hist.fired == s.hist.fired;
    NothingFired(s, s');
  }

  /** Nothing is fired, and the tasks to fire stay, with the earliest in hand. */
  ghost predicate FiresNothing(s: State, s': State) {
    && s'.hist.fired == s.hist.fired && s'.hist.pass == s.hist.pass
    && s'.heap + Hand(s'.timer) <= s.heap + Hand(s.timer) && HandFirst(s')
    && !Gathering(s'.timer)
  }

  lemma PeekedKept(s: State, pick: Task)
    requires Shape(s) && s.timer.Peeked? && IsTop(s.heap, s.timer.task)
    ensures FiresNothing(s, FireDo(s, pick))
  {
  }

  /** A firing step that fires nothing leaves the heap alone, unless it pops the task it peeked at. */
  lemma HandKept(s: State, pick: Task)
    requires HandFirst(s) && CanFire(s, pick) && !s.timer.Peeked?
    requires !(s.timer.Decide? && s.timer.task.id in s.active)
    ensures FiresNothing(s, FireDo(s, pick))
  {
    var s' := FireDo(s, pick);
    assert s'.heap == s.heap && s'.hist.fired == s.hist.fired && s'.hist.pass == s.hist.pass;
    assert Hand(s'.timer) <= Hand(s.timer);
  }

  lemma FireOrder(s: State, pick: Task)
    requires PlacesInv(s) && OrderInv(s) && CanFire(s, pick)
    ensures OrderInv(FireDo(s, pick))
  {
    if s.timer.Decide? && s.timer.task.id in s.active {
      FiredOne(s, FireDo(s, pick), true);
    } else {
      if s.timer.Peeked? {
        PeekedKept(s, pick);
      } else {
        HandKept(s, pick);
      }
      NothingFired(s, FireDo(s, pick));
    }
  }

  /** Appending one firing, in the loop only of the task in hand. */
  lemma FiredOne(s: State, s': State, inLoop: bool)
    requires OrderInv(s) && s'.hist.pass == s.hist.pass
    requires |s'.hist.fired| == |s.hist.fired| + 1 && s'.hist.fired[..|s.hist.fired|] == s.hist.fired
    requires s'.hist.fired[|s.hist.fired|].inLoop == inLoop && s'.hist.fired[|s.hist.fired|].pass == s.hist.pass
    requires inLoop ==> InFiring(s.timer) && s'.timer.Fire? && s'.heap == s.heap &&
                        s'.hist.fired[|s.hist.fired|].task in Hand(s.timer)
    requires !inLoop ==> !InFiring(s'.timer) && !Gathering(s'.timer)
    ensures OrderInv(s')
  {
    var n := |s.hist.fired|;
    assert forall i :: 0 <= i < n ==> s'.hist.fired[i] == s.hist.fired[i];
    if inLoop {
      assert s'.hist.fired[n].task in s.heap + Hand(s.timer);
    }
  }

  lemma DestroyOrder(s: State, pick: Task)
    requires OrderInv(s) && CanDestroy(s, pick)
    ensures OrderInv(DestroyDo(s, pick))
  {
    var s' := DestroyDo(s, pick);
    if s.timer.DestroyFire? && s.heap != {} && pick.id in s.active {
      FiredOne(s, s', false);
    } else {
      NothingFired(s, s');
    }
  }

  lemma WaitOrder(s: State)
    requires OrderInv(s) && CanWait(s)
    ensures OrderInv(WaitDo(s))
  {
    NothingFired(s, WaitDo(s));
  }

  lemma ProducerOrder(s: State, p: nat, act: Act)
    requires OrderInv(s) && CanAct(s, p, act)
    ensures OrderInv(ProducerDo(s, p, act))
  {
    var s' := ProducerDo(s, p, act);
    assert s'.heap == s.heap && s'.timer == s.timer && s'.hist.fired == s.hist.fired && s'.hist.pass == s.hist.pass;
  }

  lemma WorldOrder(s: State, e: Event)
    requires OrderInv(s) && CanHappen(s, e)
    ensures OrderInv(WorldDo(s, e))
  {
    var s' := WorldDo(s, e);
    assert s'.heap == s.heap && s'.timer == s.timer && s'.hist == s.hist;
  }

  // ---- destroy ----

  predicate InDestroy(pc: TimerPc) { Destroying(pc) || pc.Done? }

  /** Ids of the tasks in containers that destroy does not drain any more. */
  ghost function Stranded(s: State): set<nat> {
    set p, j | 0 <= p < |s.queue| && 0 <= j < |s.queue[p]| && PastDestroy(s.timer, p) :: s.queue[p][j].id
  }

  ghost predicate LateInv(s: State) {
    && (InDestroy(s.timer) ==> s.exit) && (s.timer.Done? ==> s.heap == {})
    && (s.timer.DestroyDrain? ==> s.timer.i < s.timer.k)
    && s.hist.late == Stranded(s)
    && (InDestroy(s.timer) && s.hist.quiet ==>
          s.hist.late == {} && NobodySchedules(s))
  }

  lemma NoneStranded(s: State)
    requires !InDestroy(s.timer)
    ensures Stranded(s) == {}
  {
  }

  lemma SameStranded(s: State, s': State)
    requires |s'.queue| == |s.queue|
    requires forall p :: 0 <= p < |s.queue| && PastDestroy(s.timer, p) ==>
               PastDestroy(s'.timer, p) && s'.queue[p] == s.queue[p]
    requires forall p :: 0 <= p < |s.queue| && PastDestroy(s'.timer, p) && !PastDestroy(s.timer, p) ==>
               s'.queue[p] == []
    ensures Stranded(s') == Stranded(s)
  {
  }

  lemma CollectLate(s: State)
    requires LateInv(s) && CanCollect(s)
    ensures LateInv(CollectDo(s))
  {
    NoneStranded(s);
    assert Stranded(CollectDo(s)) == {};
  }

  lemma FireLate(s: State, pick: Task)
    requires LateInv(s) && CanFire(s, pick)
    ensures LateInv(FireDo(s, pick))
  {
    NoneStranded(s);
    NoneStranded(FireDo(s, pick));
  }

  lemma WaitLate(s: State)
    requires LateInv(s) && CanWait(s)
    ensures LateInv(WaitDo(s))
  {
    NoneStranded(s);
    NoneStranded(WaitDo(s));
  }

  lemma DestroyFrame(s: State, pick: Task)
    requires CanDestroy(s, pick)
    ensures var s' := DestroyDo(s, pick);
            && s'.exit == s.exit && s'.producer == s.producer && s'.joining == s.joining && s'.hist.late == s.hist.late
            && s'.hist.quiet == s.hist.quiet && InDestroy(s'.timer) && (s'.timer.Done? ==> s'.heap == {})
            && (s'.timer.DestroyDrain? && !s.timer.DestroyDrain? ==> s'.timer.i < s'.timer.k)
            && (s'.timer.DestroyDrain? && s.timer.DestroyDrain? ==> s'.timer == s.timer)
  {
  }

  lemma DestroyStranded(s: State, pick: Task)
    requires CanDestroy(s, pick) && (s.timer.DestroyDrain? ==> s.timer.i < s.timer.k)
    ensures Stranded(DestroyDo(s, pick)) == Stranded(s)
  {
    SameStranded(s, DestroyDo(s, pick));
  }

  lemma DestroyLate(s: State, pick: Task)
    requires LateInv(s) && CanDestroy(s, pick)
    ensures LateInv(DestroyDo(s, pick))
  {
    DestroyFrame(s, pick);
    DestroyStranded(s, pick);
  }

  /** A push to a container that destroy does not drain any more strands its task; any other push strands nothing. */
  lemma PushStrands(s: State, s': State, p: nat, t: Task)
    requires p < |s.queue| && s'.queue == s.queue[p := s.queue[p] + [t]] && s'.timer == s.timer
    ensures Stranded(s') == if PastDestroy(s.timer, p) then Stranded(s) + {t.id} else Stranded(s)
  {
    forall q, j | 0 <= q < |s.queue| && 0 <= j < |s.queue[q]| && PastDestroy(s.timer, q)
      ensures s.queue[q][j].id in Stranded(s')
    {
      assert s'.queue[q][j] == s.queue[q][j];
    }
    forall q, j | 0 <= q < |s'.queue| && 0 <= j < |s'.queue[q]| && PastDestroy(s.timer, q)
      ensures s'.queue[q][j].id in Stranded(s) || (q == p && s'.queue[q][j] == t)
    {
      if q != p || j < |s.queue[q]| {
        assert s'.queue[q][j] == s.queue[q][j];
      }
    }
    assert s'.queue[p][|s.queue[p]|] == t;
  }

  lemma ProducerLate(s: State, p: nat, act: Act)
    requires LateInv(s) && CanAct(s, p, act)
    ensures LateInv(ProducerDo(s, p, act))
  {
    var s' := ProducerDo(s, p, act);
    if act.Push? && |s.queue[p]| < TASK_QUEUE_SIZE {
      PushStrands(s, s', p, s.producer[p].task);
    } else {
      SameStranded(s, s');
    }
  }

  /** A container that comes too late for destroy is empty at first. */
  lemma ContainerLate(s: State, n: Newcomer)
    requires LateInv(s) && CanHappen(s, NewContainer(n))
    ensures LateInv(WorldDo(s, NewContainer(n)))
  {
    var s' := WorldDo(s, NewContainer(n));
    assert forall p :: 0 <= p < |s'.queue| ==> s'.queue[p] == if p < |s.queue| then s.queue[p] else [];
    forall id | id in Stranded(s) ensures id in Stranded(s') {
      var p, j :| 0 <= p < |s.queue| && 0 <= j < |s.queue[p]| && PastDestroy(s.timer, p) && s.queue[p][j].id == id;
      assert s'.queue[p][j] == s.queue[p][j];
    }
  }

  lemma WorldLate(s: State, e: Event)
    requires LateInv(s) && CanHappen(s, e)
    ensures LateInv(WorldDo(s, e))
  {
    if e.NewContainer? {
      ContainerLate(s, e.n);
    } else {
      SameStranded(s, WorldDo(s, e));
    }
  }

  lemma StepOrder(s: State, s': State)
    requires TaskInv(s) && OrderInv(s) && LateInv(s) && Next(s, s')
    ensures OrderInv(s') && LateInv(s')
  {
    if p, act :| CanAct(s, p, act) && s' == ProducerDo(s, p, act) {
      ProducerOrder(s, p, act);
      ProducerLate(s, p, act);
    } else if e :| CanHappen(s, e) && s' == WorldDo(s, e) {
      WorldOrder(s, e);
      WorldLate(s, e);
    } else if CanCollect(s) && s' == CollectDo(s) {
      CollectOrder(s);
      CollectLate(s);
    } else if pick :| CanFire(s, pick) && s' == FireDo(s, pick) {
      FireOrder(s, pick);
      FireLate(s, pick);
    } else if CanWait(s) && s' == WaitDo(s) {
      WaitOrder(s);
      WaitLate(s);
    } else {
      var pick :| CanDestroy(s, pick) && s' == DestroyDo(s, pick);
      DestroyOrder(s, pick);
      DestroyLate(s, pick);
    }
  }

  lemma ReachableOrder(s: State)
    requires Reachable(Init, Next, s)
    ensures TaskInv(s) && OrderInv(s) && LateInv(s)
  {
    var inv := (s: State) => OrderInv(s) && LateInv(s);
    forall s, s' | TaskInv(s) && inv(s) && Next(s, s') ensures inv(s') {
      StepOrder(s, s');
    }
    ReachableAlong(inv, s);
  }

  /** Within one pass of the loop tasks fire in order of their deadlines. */
  lemma FiresInOrder(s: State, i: nat, j: nat)
    requires Reachable(Init, Next, s) && i < j < |s.hist.fired|
    requires s.hist.fired[i].inLoop && s.hist.fired[j].inLoop && s.hist.fired[i].pass == s.hist.fired[j].pass
    ensures s.hist.fired[i].task.deadline <= s.hist.fired[j].task.deadline
  {
    ReachableOrder(s);
  }

  /** After destroy an accepted task has fired or was cancelled if and only if it was not pushed to a container that
      destroy had drained, and deletes, or that was made too late for its loop; no task was, if no thread was inside
      scheduleAbs when destroy took over. */
  lemma DestroySettlesAll(s: State, id: nat)
    requires Reachable(Init, Next, s) && s.timer.Done? && id in s.hist.accepted
    ensures id in FiredIds(s) || id in s.hist.cancelled <==> id !in s.hist.late
    ensures s.hist.quiet ==> s.hist.late == {}
  {
    ReachableOrder(s);
    assert s.heap + Hand(s.timer) == {} && Ids({}) == {};
    assert Stranded(s) == Queued(s.queue);
  }
}
