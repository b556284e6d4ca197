/** Runs of the timer: a wait that ends late, and two in which destroy loses a task. */
module TimerRuns {
  import opened Runs
  import opened TimerModel
  import opened TimerTasks

  lemma Go(s: State, s': State)
    requires Reachable(Init, Next, s) && Next(s, s')
    ensures Reachable(Init, Next, s')
  {
    ReachableStep(Init, Next, s, s');
  }

  lemma Act(s: State, p: nat, act: Act) returns (s': State)
    requires Reachable(Init, Next, s) && CanAct(s, p, act)
    ensures s' == ProducerDo(s, p, act) && Reachable(Init, Next, s')
  {
    s' := ProducerDo(s, p, act);
    Go(s, s');
  }

  lemma Happen(s: State, e: Event) returns (s': State)
    requires Reachable(Init, Next, s) && CanHappen(s, e)
    ensures s' == WorldDo(s, e) && Reachable(Init, Next, s')
  {
    s' := WorldDo(s, e);
    Go(s, s');
  }

  lemma Collect(s: State) returns (s': State)
    requires Reachable(Init, Next, s) && CanCollect(s)
    ensures s' == CollectDo(s) && Reachable(Init, Next, s')
  {
    s' := CollectDo(s);
    Go(s, s');
  }

  lemma Wait(s: State) returns (s': State)
    requires Reachable(Init, Next, s) && CanWait(s)
    ensures s' == WaitDo(s) && Reachable(Init, Next, s')
  {
    s' := WaitDo(s);
    Go(s, s');
  }

  lemma Destroy(s: State) returns (s': State)
    requires Reachable(Init, Next, s) && CanDestroy(s, Task(0, 0))
    ensures s' == DestroyDo(s, Task(0, 0)) && Reachable(Init, Next, s')
  {
    s' := DestroyDo(s, Task(0, 0));
    Go(s, s');
  }

  const TASK: Task := Task(10, 1)

  const START: State := State(MAX_TIME, false, 0, [], [], [], multiset{}, Begin, {}, {}, false, Absent,
    History(1, map[], {}, [], 0, {}, false))

  /** A producer that has been admitted to scheduleAbs. */
  const ADMITTED: State := START.(producer := [Admitted(10)], queue := [[]], cancelQ := [[]])

  lemma ReachAdmitted()
    ensures Reachable(Init, Next, ADMITTED)
  {
    ReachableInit(Init, Next, START);
    var s := Happen(START, Arrive(ToSchedule(10)));
    s := Happen(s, NewContainer(ToSchedule(10)));
    assert s.joining == multiset{};
  }

  // ---- A late wait ----

  /** The task is pushed and the nearest run time lowered to it. */
  const PUSHED: State := ADMITTED.(nearest := 10, producer := [Resting], queue := [[TASK]],
    hist := History(2, map[1 := 10], {}, [], 0, {}, false))

  lemma ReachPushed()
    ensures Reachable(Init, Next, PUSHED)
  {
    ReachAdmitted();
    var s := Act(ADMITTED, 0, Number);
    s := Act(s, 0, Push);
    assert s.queue[0] == [TASK];
    assert s.queue == [[TASK]] && s.producer == [Pushed(TASK)];
    s := Act(s, 0, Load);
    s := Act(s, 0, Update);
    s := Act(s, 0, Notify);
    assert s == PUSHED by {
      assert s.producer == [Resting] && s.hist == PUSHED.hist;
    }
  }

  /** The timer is about to empty the container. */
  const DRAINING: State := PUSHED.(nearest := MAX_TIME, timer := Drain(0, 1, 1), hist := PUSHED.hist.(pass := 1))

  lemma ReachDraining()
    ensures Reachable(Init, Next, DRAINING)
  {
    ReachPushed();
    var s := Collect(PUSHED);
    s := Collect(s);
    s := Collect(s);
    s := Collect(s);
    assert s == DRAINING;
  }

  /** The timer has collected the task. */
  const COLLECTED: State := DRAINING.(queue := [[]], timer := Fire, heap := {TASK}, active := {1})

  lemma ReachCollected()
    ensures Reachable(Init, Next, COLLECTED)
  {
    ReachDraining();
    var s := Collect(DRAINING);
    assert s.queue[0] == [] && s.queue == [[]];
    assert s == COLLECTED.(timer := Drain(0, 1, 0));
    s := Collect(s);
    s := Collect(s);
    s := Collect(s);
    assert s == COLLECTED;
  }

  /** The nearest run time is that of the task, and it is not due. */
  const ARMED: State := COLLECTED.(nearest := 10, timer := Armed(10))

  lemma ReachArmed()
    ensures Reachable(Init, Next, ARMED)
  {
    ReachCollected();
    var s := FireDo(COLLECTED, TASK);
    assert CanFire(COLLECTED, TASK);
    Go(COLLECTED, s);
    s := Wait(s);
    s := Wait(s);
    s := Wait(s);
    assert s == ARMED;
  }

  const PLAN: Plan := Plan(10, 0, 10)

  /** The clock moves on by 5 between its reading and the call of wait_for: the timer is blocked until 15, although the
      task is due at 10 and nobody will end the wait. */
  lemma WaitMayEndLate() returns (s: State)
    ensures Reachable(Init, Next, s) && s.timer.Blocked?
    ensures 1 in s.hist.accepted && 1 !in s.hist.cancelled && 1 !in FiredIds(s) && s.hist.accepted[1] == 10
    ensures Until(s.timer.wait) == 15 && !s.signalled && s.producer == [Resting] && s.destroyer == Absent
  {
    ReachArmed();
    s := Wait(ARMED);
    s := Happen(s, Tick(5));
    assert s == ARMED.(now := 5, timer := Enter(PLAN));
    s := Wait(s);
    s := Wait(s);
    s := Wait(s);
    s := Wait(s);
  }

  // ---- Two lost tasks ----

  /** destroy goes through its one container, which is empty. */
  lemma DestroyEmpty(s: State) returns (s': State)
    requires Reachable(Init, Next, s) && Shape(s) && s.timer == DestroyNext(0, 1) && s.heap == {}
    requires |s.queue| > 0 && s.queue[0] == [] && s.cancelQ[0] == []
    ensures s' == s.(timer := Done) && Reachable(Init, Next, s')
  {
    s' := Destroy(s);
    s' := Destroy(s');
    s' := Destroy(s');
    s' := Destroy(s');
    s' := Destroy(s');
  }

  /** destroy is done while a producer is still inside scheduleAbs. */
  const DESTROYED: State := ADMITTED.(exit := true, timer := Done, destroyer := Told)

  lemma ReachDestroyed()
    ensures Reachable(Init, Next, DESTROYED)
  {
    ReachAdmitted();
    var s := Happen(ADMITTED, SetExit);
    s := Happen(s, TellExit);
    assert s.producer[0] != Resting;
    s := Collect(s);
    s := DestroyEmpty(s);
    assert s == DESTROYED;
  }

  /** A producer that was admitted before destroy pushes its task when the container is drained: it never fires. */
  lemma DestroyMayLoseATask() returns (s: State)
    ensures Reachable(Init, Next, s) && s.timer.Done?
    ensures s.hist.late == {1} && 1 in s.hist.accepted && 1 !in s.hist.cancelled && 1 !in FiredIds(s)
  {
    ReachDestroyed();
    s := Act(DESTROYED, 0, Number);
    s := Act(s, 0, Push);
  }

  /** destroy is about to go through one container, and a thread found _exit unset before it had a container. */
  const DESTROYING: State := ADMITTED.(exit := true, joining := multiset{ToSchedule(20)}, timer := DestroyNext(0, 1),
    destroyer := Told)

  lemma ReachDestroying()
    ensures Reachable(Init, Next, DESTROYING)
  {
    ReachAdmitted();
    var s := Happen(ADMITTED, Arrive(ToSchedule(20)));
    assert s.joining == multiset{ToSchedule(20)};
    s := Happen(s, SetExit);
    s := Happen(s, TellExit);
    assert s.producer[0] == Admitted(10);
    s := Collect(s);
    assert s == DESTROYING;
  }

  const LATECOMER: State := DESTROYING.(producer := [Admitted(10), Admitted(20)], queue := [[], []],
    cancelQ := [[], []], joining := multiset{})

  lemma ReachLatecomer()
    ensures Reachable(Init, Next, LATECOMER)
  {
    ReachDestroying();
    var s := Happen(DESTROYING, NewContainer(ToSchedule(20)));
    assert s.joining == multiset{};
    assert s == LATECOMER;
  }

  /** That thread gets its container after destroy has fixed the end of its loop, and pushes while no container is
      drained yet: destroy never comes to it. */
  lemma DestroyMayMissAContainer() returns (s: State)
    ensures Reachable(Init, Next, s) && s.timer.Done? && s.queue == [[], [Task(20, 1)]]
    ensures s.hist.late == {1} && 1 in s.hist.accepted && 1 !in s.hist.cancelled && 1 !in FiredIds(s)
  {
    ReachLatecomer();
    s := Act(LATECOMER, 1, Number);
    assert s.producer[1] == Numbered(Task(20, 1));
    s := Act(s, 1, Push);
    assert s.queue[0] == [] && s.queue[1] == [Task(20, 1)];
    s := DestroyEmpty(s);
  }
}
