/** What cancelling a timer task does, and which task the firing loop takes. */
module TimerCancel {
  import opened Runs
  import opened TimerModel
  import opened TimerTasks
  import opened TimerWaiting

  // ---- Cancelling ----

  /** A step takes the first cancel record of container i. */
  ghost predicate TakesRecord(s: State, s': State, i: nat) {
    && i < |s.cancelQ| && i < |s'.cancelQ| && |s'.cancelQ[i]| < |s.cancelQ[i]|
  }

  /** What a step does to cancel records and to the ids they name. */
  ghost predicate CancelStep(s: State, s': State) {
    && (forall i :: 0 <= i < |s.cancelQ| && TakesRecord(s, s', i) ==>
          && s'.cancelQ[i] == s.cancelQ[i][1..]
          && (s.cancelQ[i][0] in s.active ==> s'.active == s.active - {s.cancelQ[i][0]})
          && (s.cancelQ[i][0] !in s.active ==> s'.active == s.active)
          && s'.hist.cancelled == s.hist.cancelled + ({s.cancelQ[i][0]} * s.active)
          && s'.hist.fired == s.hist.fired)
    && ((forall i :: 0 <= i < |s.cancelQ| ==> !TakesRecord(s, s', i)) ==> s'.hist.cancelled == s.hist.cancelled)
    && s.hist.cancelled <= s'.hist.cancelled
  }

  lemma ConsumeCancels(s: State, s': State, i: nat)
    requires i < |s.cancelQ| && s.cancelQ[i] != [] && s' == Consume(s, i).(timer := s'.timer)
    ensures CancelStep(s, s')
  {
    assert TakesRecord(s, s', i);
    forall k | 0 <= k < |s.cancelQ| && TakesRecord(s, s', k) ensures k == i {
    }
  }

  lemma OthersCancelNothing(s: State, s': State)
    requires |s.cancelQ| <= |s'.cancelQ| && s'.hist.cancelled == s.hist.cancelled
    requires forall i :: 0 <= i < |s.cancelQ| ==> |s.cancelQ[i]| <= |s'.cancelQ[i]|
    ensures CancelStep(s, s')
  {
  }

  lemma CollectCancels(s: State)
    requires CanCollect(s)
    ensures CancelStep(s, CollectDo(s))
  {
    if Consumes(s) {
      ConsumeCancels(s, CollectDo(s), s.timer.i);
    } else {
      OthersCancelNothing(s, CollectDo(s));
    }
  }

  lemma FireCancels(s: State, pick: Task)
    requires CanFire(s, pick)
    ensures CancelStep(s, FireDo(s, pick))
  {
    if Consumes(s) {
      ConsumeCancels(s, FireDo(s, pick), s.timer.i);
    } else {
      OthersCancelNothing(s, FireDo(s, pick));
    }
  }

  lemma DestroyCancelsThem(s: State, pick: Task)
    requires CanDestroy(s, pick)
    ensures CancelStep(s, DestroyDo(s, pick))
  {
    if Consumes(s) {
      ConsumeCancels(s, DestroyDo(s, pick), s.timer.i);
    } else {
      OthersCancelNothing(s, DestroyDo(s, pick));
    }
  }

  lemma ProducerCancels(s: State, p: nat, act: Act)
    requires CanAct(s, p, act)
    ensures CancelStep(s, ProducerDo(s, p, act))
  {
    OthersCancelNothing(s, ProducerDo(s, p, act));
  }

  lemma WorldCancels(s: State, e: Event)
    requires CanHappen(s, e)
    ensures CancelStep(s, WorldDo(s, e))
  {
    OthersCancelNothing(s, WorldDo(s, e));
  }

  lemma WaitCancels(s: State)
    requires CanWait(s)
    ensures CancelStep(s, WaitDo(s))
  {
    assert WaitDo(s).cancelQ == s.cancelQ && WaitDo(s).hist == s.hist;
  }

  /** A step that takes a cancel record takes its id from the active ones, and nothing else cancels. */
  lemma StepCancels(s: State, s': State)
    requires Next(s, s')
    ensures CancelStep(s, s')
  {
    if p, act :| CanAct(s, p, act) && s' == ProducerDo(s, p, act) {
      ProducerCancels(s, p, act);
    } else if e :| CanHappen(s, e) && s' == WorldDo(s, e) {
      WorldCancels(s, e);
    } else if CanCollect(s) && s' == CollectDo(s) {
      CollectCancels(s);
    } else if pick :| CanFire(s, pick) && s' == FireDo(s, pick) {
      FireCancels(s, pick);
    } else if CanWait(s) && s' == WaitDo(s) {
      WaitCancels(s);
    } else {
      var pick :| CanDestroy(s, pick) && s' == DestroyDo(s, pick);
      DestroyCancelsThem(s, pick);
    }
  }

  lemma RunTasks(run: seq<State>, k: nat)
    requires IsRun(Init, Next, run) && k < |run|
    ensures TaskInv(run[k])
  {
    forall s | Init(s) ensures TaskInv(s) {
      InitTasks(s);
    }
    forall s, s' | TaskInv(s) && Next(s, s') ensures TaskInv(s') {
      StepTasks(s, s');
    }
    Throughout(Init, Next, TaskInv, run, k);
  }

  lemma StaysCancelled(run: seq<State>, k: nat, m: nat, id: nat)
    requires IsRun(Init, Next, run) && k <= m < |run| && id in run[k].hist.cancelled
    ensures id in run[m].hist.cancelled
  {
    var inv := (s: State) => id in s.hist.cancelled;
    forall s, s' | inv(s) && Next(s, s') ensures inv(s') {
      StepCancels(s, s');
    }
    Onwards(Init, Next, s => true, inv, run, k, m);
  }

  /** Cancelling works: once a cancel record has been taken while its id was active, in the loop, in a sweep before a
      task fires, or in destroy, the task never fires, in any continuation of the run. */
  lemma CancelledNeverFires(run: seq<State>, k: nat, i: nat, m: nat)
    requires IsRun(Init, Next, run) && k < m < |run| && TakesRecord(run[k], run[k + 1], i)
    requires run[k].cancelQ[i][0] in run[k].active
    ensures run[k].cancelQ[i][0] !in run[m].active && run[k].cancelQ[i][0] !in FiredIds(run[m])
  {
    var id := run[k].cancelQ[i][0];
    assert Next(run[k], run[k + 1]);
    StepCancels(run[k], run[k + 1]);
    StaysCancelled(run, k + 1, m, id);
    RunTasks(run, m);
  }

  /** And nothing else takes a task away: an id counts as cancelled only by such a record. */
  lemma OnlyRecordsCancel(s: State, s': State, id: nat) returns (i: nat)
    requires Next(s, s') && id in s'.hist.cancelled && id !in s.hist.cancelled
    ensures TakesRecord(s, s', i) && s.cancelQ[i][0] == id && id in s.active
  {
    StepCancels(s, s');
    i :| 0 <= i < |s.cancelQ| && TakesRecord(s, s', i);
  }

  // ---- The sweep before a task fires ----

  predicate InSweep(pc: TimerPc) { pc.Sweep? || pc.SweepPop? || pc.Decide? }

  /** The records that container p had when the task was popped are still ahead of the sweep, one for this id among
      them. */
  ghost predicate Ahead(s: State, had: seq<nat>, p: nat, id: nat)
    requires p < |s.cancelQ|
  {
    match s.timer
    case Sweep(_, i, k) => i <= p < k && had <= s.cancelQ[p]
    case SweepPop(_, i, k, m) =>
      || (i < p < k && had <= s.cancelQ[p])
      || (i == p && m <= |s.cancelQ[p]| && id in s.cancelQ[p][..m])
    case _ => false
  }

  ghost predicate SweptOrAhead(s: State, had: seq<nat>, p: nat, id: nat) {
    Shape(s) && p < |s.cancelQ| && (id !in s.active || Ahead(s, had, p, id))
  }

  lemma PrefixHas(had: seq<nat>, q: seq<nat>, id: nat)
    requires had <= q && id in had
    ensures id in q
  {
    var x :| 0 <= x < |had| && had[x] == id;
    assert q[x] == id;
  }

  lemma SweepStarts(s: State, pick: Task, p: nat, id: nat)
    requires CanFire(s, pick) && s.timer.Peeked? && InSweep(FireDo(s, pick).timer)
    requires p < |s.cancelQ| && id in s.cancelQ[p]
    ensures SweptOrAhead(FireDo(s, pick), s.cancelQ[p], p, id)
  {
  }

  /** The head of the records is taken: the id is not active any more, or its record is still to come. */
  lemma NextRecord(q: seq<nat>, m: nat, id: nat)
    requires 0 < m <= |q| && id in q[..m]
    ensures q[0] == id || id in q[1..][..m - 1]
  {
    var x :| 0 <= x < m && q[x] == id;
    if x > 0 {
      assert q[1..][x - 1] == id;
    }
  }

  lemma SweepFire(s: State, pick: Task, had: seq<nat>, p: nat, id: nat)
    requires CanFire(s, pick) && SweptOrAhead(s, had, p, id) && id in had
    requires InSweep(s.timer) && InSweep(FireDo(s, pick).timer)
    ensures SweptOrAhead(FireDo(s, pick), had, p, id)
  {
    if s.timer.Sweep? && s.timer.i == p && id in s.active {
      PrefixHas(had, s.cancelQ[p], id);
      assert s.cancelQ[p][..|s.cancelQ[p]|] == s.cancelQ[p];
    } else if Consumes(s) && s.timer.i == p && id in s.active {
      NextRecord(s.cancelQ[p], s.timer.m, id);
    }
  }

  lemma SweepProducer(s: State, q: nat, act: Act, had: seq<nat>, p: nat, id: nat)
    requires CanAct(s, q, act) && SweptOrAhead(s, had, p, id)
    ensures SweptOrAhead(ProducerDo(s, q, act), had, p, id)
  {
    var s' := ProducerDo(s, q, act);
    assert s.cancelQ[p] <= s'.cancelQ[p] && s'.active == s.active && s'.timer == s.timer;
    if s.timer.SweepPop? && s.timer.m <= |s.cancelQ[p]| {
      assert s'.cancelQ[p][..s.timer.m] == s.cancelQ[p][..s.timer.m];
    }
  }

  lemma SweepWorld(s: State, e: Event, had: seq<nat>, p: nat, id: nat)
    requires CanHappen(s, e) && SweptOrAhead(s, had, p, id)
    ensures SweptOrAhead(WorldDo(s, e), had, p, id)
  {
    var s' := WorldDo(s, e);
    assert s'.cancelQ[p] == s.cancelQ[p] && s'.active == s.active && s'.timer == s.timer;
  }

  lemma SweepStep(s: State, s': State, had: seq<nat>, p: nat, id: nat)
    requires Next(s, s') && SweptOrAhead(s, had, p, id) && id in had && InSweep(s.timer) && InSweep(s'.timer)
    ensures SweptOrAhead(s', had, p, id)
  {
    if q, act :| CanAct(s, q, act) && s' == ProducerDo(s, q, act) {
      SweepProducer(s, q, act, had, p, id);
    } else if e :| CanHappen(s, e) && s' == WorldDo(s, e) {
      SweepWorld(s, e, had, p, id);
    } else {
      var pick :| CanFire(s, pick) && s' == FireDo(s, pick);
      SweepFire(s, pick, had, p, id);
    }
  }

  lemma SweepRun(run: seq<State>, k: nat, m: nat, had: seq<nat>, p: nat, id: nat)
    requires IsRun(Init, Next, run) && k <= m < |run| && SweptOrAhead(run[k], had, p, id) && id in had
    requires forall x :: k <= x <= m ==> InSweep(run[x].timer)
    ensures SweptOrAhead(run[m], had, p, id)
  {
    var inside := (s: State) => InSweep(s.timer);
    var inv := (s: State) => InSweep(s.timer) && SweptOrAhead(s, had, p, id);
    forall s, s' | inv(s) && Next(s, s') && inside(s') ensures inv(s') {
      SweepStep(s, s', had, p, id);
    }
    Onwards(Init, Next, inside, inv, run, k, m);
  }

  /** A cancel that comes before the task is popped comes in time: if any container has a record for the task then, the
      task does not fire, whatever producers do during the sweep. */
  lemma SweepComesFirst(run: seq<State>, k: nat, m: nat, pick: Task, p: nat)
    requires IsRun(Init, Next, run) && k < m < |run| && run[k].timer.Peeked?
    requires CanFire(run[k], pick) && run[k + 1] == FireDo(run[k], pick)
    requires (forall x :: k < x <= m ==> InSweep(run[x].timer)) && run[m].timer.Decide?
    requires p < |run[k].cancelQ| && run[k].timer.task.id in run[k].cancelQ[p]
    ensures run[k].timer.task.id !in run[m].active
  {
    var had, id := run[k].cancelQ[p], run[k].timer.task.id;
    SweepStarts(run[k], pick, p, id);
    SweepRun(run, k + 1, m, had, p, id);
  }

  /** destroy leaves a container when it has found no task and then no cancel record in it. */
  lemma DestroyEmptiesContainers(s: State, pick: Task)
    requires CanDestroy(s, pick)
    ensures var s' := DestroyDo(s, pick);
            && (s'.timer.DestroyNext? && s' != s ==>
                  && s.timer.DestroyCancels? && s'.timer.i == s.timer.i + 1
                  && (s.timer.i < |s.cancelQ| ==> s.cancelQ[s.timer.i] == []))
            && (s'.timer.DestroyCancels? && !s.timer.DestroyCancels? ==>
                  && s.timer.DestroyDrain? && s'.timer.i == s.timer.i
                  && (s.timer.i < |s.queue| ==> s.queue[s.timer.i] == []))
            && (s'.timer.DestroyFire? && !s.timer.DestroyFire? ==> s.timer.DestroyNext? && s.timer.k <= s.timer.i)
  {
  }

  /** A pass comes to the next container when it has taken the tasks, and then the cancel records, that it counted in
      this one; it fires when it has come to the last. */
  lemma PassTakesWhatItCounted(s: State)
    requires CanCollect(s)
    ensures var s' := CollectDo(s);
            && (s'.timer.Collect? && s.timer.Count? ==> s'.timer == Collect(0, |s.queue|))
            && (s'.timer.Collect? && !s.timer.Count? ==>
                  && s.timer.Cancels? && s'.timer == Collect(s.timer.i + 1, s.timer.k)
                  && (s.timer.m == 0 || s.timer.i >= |s.cancelQ| || s.cancelQ[s.timer.i] == []))
            && (s'.timer.Cancels? && !s.timer.Cancels? ==>
                  && s.timer.Drain? && (s.timer.m == 0 || s.timer.i >= |s.queue| || s.queue[s.timer.i] == [])
                  && s'.timer.i == s.timer.i && s'.timer.k == s.timer.k
                  && (s.timer.i < |s.queue| ==> s'.timer.m == |s.cancelQ[s.timer.i]|))
            && (s'.timer.Drain? && !s.timer.Drain? ==>
                  && s.timer.Collect? && s.timer.i < |s.queue|
                  && s'.timer == Drain(s.timer.i, s.timer.k, |s.queue[s.timer.i]|))
            && (s'.timer.Fire? ==> s.timer.Collect? && (s.timer.k <= s.timer.i || |s.queue| <= s.timer.i))
            && (s'.timer.DestroyNext? ==> s.exit && s.timer.Begin? && s'.timer == DestroyNext(0, |s.queue|))
  {
  }

  // ---- The firing loop ----

  /** When the loop stops for lack of due tasks, no task in the heap is due, and the time it will wait for is the
      earliest of them. */
  lemma NothingDueIsLeft(s: State, pick: Task)
    requires CanFire(s, pick) && s.timer.Fire? && FireDo(s, pick).timer.Rearm?
    ensures forall t :: t in s.heap ==> s.now < t.deadline && FireDo(s, pick).timer.next <= t.deadline
    ensures if s.heap == {} then FireDo(s, pick).timer.next == MAX_TIME
            else exists t :: t in s.heap && t.deadline == FireDo(s, pick).timer.next
  {
    if s.heap != {} {
      assert pick in s.heap;
    }
  }

  /** The task the loop takes is due, and no task in the heap or in a container is earlier, apart from tasks whose
      producers have still to compare them with the nearest run time. */
  lemma TakesTheEarliest(s: State, pick: Task, u: Task)
    requires Reachable(Init, Next, s) && CanFire(s, pick) && s.timer.Peeked? && FireDo(s, pick).timer.Sweep?
    ensures s.timer.task in s.heap && FireDo(s, pick).timer.task == s.timer.task && s.timer.task.deadline <= s.now
    ensures u in s.heap ==> s.timer.task.deadline <= u.deadline
    ensures forall p, j :: 0 <= p < |s.queue| && 0 <= j < |s.queue[p]| && s.queue[p][j] == u ==>
              s.timer.task.deadline <= u.deadline || StillUpdating(s, u.id)
  {
    ReachableWait(s);
    forall p, j | 0 <= p < |s.queue| && 0 <= j < |s.queue[p]| && s.queue[p][j] == u
      ensures s.timer.task.deadline <= u.deadline || StillUpdating(s, u.id)
    {
      assert Covered(s, p, j);
      if Updating(s.producer[p], u) {
        assert StillUpdating(s, u.id);
      }
    }
  }

  /** The task in hand fires, in this pass and now, if and only if its id is still active. */
  lemma FiresIfActive(s: State, pick: Task)
    requires CanFire(s, pick) && s.timer.Decide?
    ensures var t, fired := s.timer.task, FireDo(s, pick).hist.fired;
            if t.id in s.active then fired == s.hist.fired + [Firing(t, s.now, true, s.hist.pass)]
            else fired == s.hist.fired
  {
  }

  // ---- The containers are bounded ----

  ghost predicate Bounded(s: State) {
    && Shape(s)
    && forall p :: 0 <= p < |s.queue| ==> |s.queue[p]| <= 4096 && |s.cancelQ[p]| <= 4096
  }

  lemma StillBounded(s: State, s': State)
    requires Bounded(s) && Shape(s') && |s'.queue| == |s.queue|
    requires forall p :: 0 <= p < |s.queue| ==> |s'.queue[p]| <= |s.queue[p]| && |s'.cancelQ[p]| <= |s.cancelQ[p]|
    ensures Bounded(s')
  {
  }

  lemma ProducerBounded(s: State, p: nat, act: Act)
    requires Bounded(s) && CanAct(s, p, act)
    ensures Bounded(ProducerDo(s, p, act))
  {
  }

  lemma WorldBounded(s: State, e: Event)
    requires Bounded(s) && CanHappen(s, e)
    ensures Bounded(WorldDo(s, e))
  {
  }

  lemma CollectBounded(s: State)
    requires Bounded(s) && CanCollect(s)
    ensures Bounded(CollectDo(s))
  {
    if Takes(s) || Consumes(s) {
      StillBounded(s, CollectDo(s));
    } else {
      assert CollectDo(s).queue == s.queue && CollectDo(s).cancelQ == s.cancelQ;
    }
  }

  lemma FireBounded(s: State, pick: Task)
    requires Bounded(s) && CanFire(s, pick)
    ensures Bounded(FireDo(s, pick))
  {
    StillBounded(s, FireDo(s, pick));
  }

  lemma DestroyBounded(s: State, pick: Task)
    requires Bounded(s) && CanDestroy(s, pick)
    ensures Bounded(DestroyDo(s, pick))
  {
    StillBounded(s, DestroyDo(s, pick));
  }

  lemma WaitBounded(s: State)
    requires Bounded(s) && CanWait(s)
    ensures Bounded(WaitDo(s))
  {
    WaitSame(s);
    assert WaitDo(s).cancelQ == s.cancelQ;
  }

  lemma StepBounded(s: State, s': State)
    requires Bounded(s) && Next(s, s')
    ensures Bounded(s')
  {
    if p, act :| CanAct(s, p, act) && s' == ProducerDo(s, p, act) {
      ProducerBounded(s, p, act);
    } else if e :| CanHappen(s, e) && s' == WorldDo(s, e) {
      WorldBounded(s, e);
    } else if CanCollect(s) && s' == CollectDo(s) {
      CollectBounded(s);
    } else if pick :| CanFire(s, pick) && s' == FireDo(s, pick) {
      FireBounded(s, pick);
    } else if CanWait(s) && s' == WaitDo(s) {
      WaitBounded(s);
    } else {
      var pick :| CanDestroy(s, pick) && s' == DestroyDo(s, pick);
      DestroyBounded(s, pick);
    }
  }

  /** No container ever holds more than 4096 tasks or cancel records; and a push is refused only by a full one. */
  lemma ContainersAreBounded(s: State, p: nat)
    requires Reachable(Init, Next, s) && p < |s.producer|
    ensures Shape(s) && |s.queue[p]| <= 4096 && |s.cancelQ[p]| <= 4096
    ensures CanAct(s, p, Push) ==>
              var s' := ProducerDo(s, p, Push);
              if |s.queue[p]| == 4096 then s'.queue == s.queue && s'.hist == s.hist && s'.producer[p] == Resting
              else s'.queue[p] == s.queue[p] + [s.producer[p].task] && s.producer[p].task.id in s'.hist.accepted
    ensures CanAct(s, p, PushCancel) ==>
              var s' := ProducerDo(s, p, PushCancel);
              s'.cancelQ[p] == if |s.cancelQ[p]| == 4096 then s.cancelQ[p] else s.cancelQ[p] + [s.producer[p].id]
  {
    forall s, s' | Bounded(s) && Next(s, s') ensures Bounded(s') {
      StepBounded(s, s');
    }
    ReachableInvariant(Init, Next, Bounded, s);
  }
}
