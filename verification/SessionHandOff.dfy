/** One read session shared by the sending worker, the reader thread and the timer thread. */
module SessionHandOff {
  import opened Options
  import opened Runs
  import W = LifeCycleLock

  /** The two error codes `notify` is called with. */
  datatype Outcome = SessionOk | ReadTimeout

  /** Where a thread is inside `notify`. */
  datatype Notify =
    | Entered                 // before tryShared's fetch_add
    | BackOut                 // refused: share still to be taken back
    | Shared                  // before tryUpgradeNonReEntrant
    | Won                     // upgraded: result still to be delivered
    | GiveBack(won: bool)     // before the releaseShared that ends notify

  datatype Worker =
    | Fresh                   // session object just created
    | Prepared                // shared once on behalf of the timer
    | Enqueued                // handed to the socket
    | TimerBusy               // no timer task: about to release
    | Scheduled               // timer task registered, about to write
    | WriteFailed             // about to cancel the timer task
    | Cancelling              // cancel record queued, about to release
    | Written                 // about to look at the callback
    | Waiting                 // blocked on the promise
    | Collected(result: Outcome)   // about to post-process and release
    | Left(released: bool)    // finished with the object

  datatype Timer = Unscheduled | Pending | Notifying(at: Notify) | Releasing | Fired | Cancelled

  datatype Reader = Idle | Notifying(at: Notify)

  datatype Place = Nowhere | Queued | Mapped | Erased

  datatype State = State(
    async: bool,              // a callback was given
    word: int,                // owners
    worker: Worker,
    timer: Timer,
    reader: Reader,
    place: Place,             // where the socket keeps the session
    delivered: seq<Outcome>,  // promise settings or callback calls so far
    cancelled: bool,          // a cancel record for the timer task is queued
    freed: bool)

  datatype Step =
    | Share | Enqueue(ok: bool) | Schedule(ok: bool) | Write(ok: bool) | Cancel | LookAtCallback
    | TakeResult | WorkerRelease
    | TimerStart | TimerNotify | TimerRelease | TimerCancelled
    | ReaderPop | ReaderStart | ReaderNotify | ReaderScan

  /** Outcome of one step of `notify`: new word, new position (None: returned), new deliveries. */
  datatype Effect = Effect(word: int, at: Option<Notify>, delivered: seq<Outcome>)

  function NotifyStep(s: State, at: Notify, err: Outcome): Effect {
    match at
    case Entered =>
      Effect(s.word + W.SHARED, Some(if W.IsFree(s.word) then Shared else BackOut), s.delivered)
    case BackOut => Effect(s.word - W.SHARED, None, s.delivered)
    case Shared =>
      Effect(W.OrUpgraded(s.word), Some(if W.IsFree(s.word) then Won else GiveBack(false)), s.delivered)
    case Won =>
      // with a callback: run it and give the share back; otherwise set the promise and keep the
      // share for the worker
      Effect(s.word, if s.async then Some(GiveBack(true)) else None, s.delivered + [err])
    case GiveBack(_) => Effect(s.word - W.SHARED, None, s.delivered)
  }

  predicate Init(s: State) {
    s.word == 0 && s.worker == Fresh && s.timer == Unscheduled && s.reader == Idle &&
    s.place == Nowhere && s.delivered == [] && !s.cancelled && !s.freed
  }

  predicate Enabled(s: State, step: Step) {
    match step
    case Share => s.worker == Fresh
    case Enqueue(_) => s.worker == Prepared
    case Schedule(_) => s.worker == Enqueued
    case Write(_) => s.worker == Scheduled
    case Cancel => s.worker == WriteFailed
    case LookAtCallback => s.worker == Written
    case TakeResult => s.worker == Waiting && s.delivered != []
    case WorkerRelease => s.worker == TimerBusy || s.worker == Cancelling || s.worker.Collected?
    case TimerStart => s.timer == Pending
    case TimerNotify => s.timer.Notifying?
    case TimerRelease => s.timer == Releasing
    case TimerCancelled => s.timer == Pending && s.cancelled
    case ReaderPop => s.place == Queued && s.reader == Idle
    case ReaderStart => s.place == Mapped && s.reader == Idle
    case ReaderNotify => s.reader.Notifying?
    case ReaderScan => s.place == Mapped && s.reader == Idle
  }

  function Do(s: State, step: Step): State
    requires Enabled(s, step)
  {
    match step
    case Share => s.(word := s.word + W.SHARED, worker := Prepared)
    case Enqueue(ok) =>
      if ok then s.(worker := Enqueued, place := Queued)
      else s.(worker := Left(false), freed := true)         // deleted by the worker itself
    case Schedule(ok) =>
      if ok then s.(worker := Scheduled, timer := Pending) else s.(worker := TimerBusy)
    case Write(ok) => s.(worker := if ok then Written else WriteFailed)
    case Cancel => s.(worker := Cancelling, cancelled := true)
    case LookAtCallback => s.(worker := if s.async then Left(false) else Waiting)
    case TakeResult => s.(worker := Collected(s.delivered[0]))
    case WorkerRelease => s.(word := s.word - W.SHARED, worker := Left(true))
    case TimerStart => s.(timer := Timer.Notifying(Entered))
    case TimerNotify =>
      var e := NotifyStep(s, s.timer.at, ReadTimeout);
      s.(word := e.word, delivered := e.delivered,
         timer := if e.at.Some? then Timer.Notifying(e.at.value) else Releasing)
    case TimerRelease => s.(word := s.word - W.SHARED, timer := Fired)
    case TimerCancelled => s.(timer := Cancelled)
    case ReaderPop => s.(place := Mapped)
    case ReaderStart => s.(reader := Reader.Notifying(Entered))
    case ReaderNotify =>
      var e := NotifyStep(s, s.reader.at, SessionOk);
      s.(word := e.word, delivered := e.delivered,
         reader := if e.at.Some? then Reader.Notifying(e.at.value) else Idle)
    case ReaderScan =>
      if s.word == W.UPGRADED then s.(word := W.EXCLUSIVE, place := Erased, freed := true) else s
  }

  ghost predicate Next(s: State, s': State) {
    exists step :: Enabled(s, step) && s' == Do(s, step)
  }

  /** Steps that read or write the session object itself: all but dropping the cancelled timer task. */
  predicate Touches(step: Step) { !step.TimerCancelled? }

  // ---- Delivery ----

  function IsWon(at: Notify): nat { if at == Won then 1 else 0 }

  /** Threads between winning the upgrade and delivering. */
  function Winners(s: State): nat {
    (if s.timer.Notifying? then IsWon(s.timer.at) else 0) +
    (if s.reader.Notifying? then IsWon(s.reader.at) else 0)
  }

  predicate Decided(s: State) { !W.IsFree(s.word) }

  /** A flag bit is set exactly when one thread has won; it has delivered or is about to. */
  predicate DeliveryInv(s: State) {
    && (s.worker == Fresh || s.worker == Prepared || s.worker == Enqueued || s.worker == TimerBusy ==>
          s.timer == Unscheduled)
    && |s.delivered| + Winners(s) == (if Decided(s) then 1 else 0)
    && (s.timer.Notifying? && (s.timer.at == BackOut || s.timer.at.GiveBack?) ==> Decided(s))
    && (s.timer == Releasing || s.timer == Fired ==> Decided(s))
    && (s.worker.Collected? ==> s.delivered == [s.worker.result])
  }

  /** The upgrade attempt sets a flag; no other step of `notify` moves one. */
  lemma NotifyDecides(s: State, at: Notify, err: Outcome)
    ensures W.IsFree(NotifyStep(s, at, err).word) <==> W.IsFree(s.word) && at != Shared
  {
    W.WordFields(s.word, 1);
    W.WordFields(s.word, -1);
  }

  lemma TimerDelivery(s: State)
    requires DeliveryInv(s) && Enabled(s, TimerNotify)
    ensures DeliveryInv(Do(s, TimerNotify))
  {
    NotifyDecides(s, s.timer.at, ReadTimeout);
  }

  lemma ReaderDelivery(s: State)
    requires DeliveryInv(s) && Enabled(s, ReaderNotify)
    ensures DeliveryInv(Do(s, ReaderNotify))
  {
    NotifyDecides(s, s.reader.at, SessionOk);
  }

  lemma ShareDelivery(s: State, step: Step)
    requires DeliveryInv(s) && Enabled(s, step) && (step.Share? || step.WorkerRelease? || step.TimerRelease?)
    ensures DeliveryInv(Do(s, step))
  {
    W.WordFields(s.word, 1);
    W.WordFields(s.word, -1);
  }

  lemma OtherDelivery(s: State, step: Step)
    requires DeliveryInv(s) && Enabled(s, step) && !step.TimerNotify? && !step.ReaderNotify?
    requires !step.Share? && !step.WorkerRelease? && !step.TimerRelease?
    ensures DeliveryInv(Do(s, step))
  {
    var s' := Do(s, step);
    assert s'.word == s.word || (s.word == W.UPGRADED && s'.word == W.EXCLUSIVE);
  }

  lemma StepDelivery(s: State, step: Step)
    requires DeliveryInv(s) && Enabled(s, step)
    ensures DeliveryInv(Do(s, step))
  {
    match step {
      case TimerNotify => TimerDelivery(s);
      case ReaderNotify => ReaderDelivery(s);
      case Share => ShareDelivery(s, step);
      case WorkerRelease => ShareDelivery(s, step);
      case TimerRelease => ShareDelivery(s, step);
      case _ => OtherDelivery(s, step);
    }
  }

  lemma ReachableDelivery(s: State)
    requires Reachable(Init, Next, s)
    ensures DeliveryInv(s)
  {
    forall s, s' | DeliveryInv(s) && Next(s, s') ensures DeliveryInv(s') {
      var step :| Enabled(s, step) && s' == Do(s, step);
      StepDelivery(s, step);
    }
    ReachableInvariant(Init, Next, DeliveryInv, s);
  }

  /** In every interleaving at most one `notify` wins and at most one result is delivered; once the
      timer callback is past its `notify` exactly one thread has won, and unless that is the reader
      still on its way to deliver, exactly one result has been delivered. */
  lemma ExactlyOnce(s: State)
    requires Reachable(Init, Next, s)
    ensures |s.delivered| + Winners(s) <= 1
    ensures s.timer == Releasing || s.timer == Fired ==>
              |s.delivered| + Winners(s) == 1 && (s.reader != Reader.Notifying(Won) ==> |s.delivered| == 1)
    ensures s.worker.Collected? ==> s.delivered == [s.worker.result]
  {
    ReachableDelivery(s);
  }

  // ---- Which result is delivered ----

  /** The timer is not in its callback, and has not been. */
  predicate TimerUnused(s: State) { s.timer == Unscheduled || s.timer == Pending || s.timer == Cancelled }

  /** The reader has not found the session yet. */
  predicate ReaderUnused(s: State) { s.place == Nowhere || s.place == Queued }

  predicate OutcomeInv(s: State) {
    && (TimerUnused(s) ==> s.delivered == [] || s.delivered == [SessionOk])
    && (ReaderUnused(s) ==> s.delivered == [] || s.delivered == [ReadTimeout])
    && (s.reader.Notifying? ==> !ReaderUnused(s))
    && (s.worker == Fresh || s.worker == Prepared ==> s.place == Nowhere)
  }

  lemma StepOutcome(s: State, step: Step)
    requires DeliveryInv(s) && OutcomeInv(s) && Enabled(s, step)
    ensures OutcomeInv(Do(s, step))
    ensures step.ReaderNotify? && Do(s, step).delivered != s.delivered ==> Do(s, step).delivered == [SessionOk]
    ensures step.TimerNotify? && Do(s, step).delivered != s.delivered ==> Do(s, step).delivered == [ReadTimeout]
    ensures !step.ReaderNotify? && !step.TimerNotify? ==> Do(s, step).delivered == s.delivered
  {
    if !step.ReaderNotify? && !step.TimerNotify? {
      QuietOutcome(s, step);
    }
  }

  lemma QuietOutcome(s: State, step: Step)
    requires DeliveryInv(s) && OutcomeInv(s) && Enabled(s, step) && !step.ReaderNotify? && !step.TimerNotify?
    ensures OutcomeInv(Do(s, step)) && Do(s, step).delivered == s.delivered
  {
  }

  lemma ReachableOutcome(s: State)
    requires Reachable(Init, Next, s)
    ensures DeliveryInv(s) && OutcomeInv(s)
  {
    var inv := (s: State) => DeliveryInv(s) && OutcomeInv(s);
    forall s, s' | inv(s) && Next(s, s') ensures inv(s') {
      var step :| Enabled(s, step) && s' == Do(s, step);
      StepDelivery(s, step);
      StepOutcome(s, step);
    }
    ReachableInvariant(Init, Next, inv, s);
  }

  /** In every interleaving, with a callback or without: a response is delivered as a response and a timeout as a
      timeout. While the timer callback has not started nothing but the response can be delivered, and while the reader
      has not found the session nothing but the timeout. */
  lemma RightResult(s: State, step: Step)
    requires Reachable(Init, Next, s)
    ensures s.timer == Unscheduled || s.timer == Pending || s.timer == Cancelled ==>
              s.delivered == [] || s.delivered == [SessionOk]
    ensures s.place == Nowhere || s.place == Queued ==> s.delivered == [] || s.delivered == [ReadTimeout]
    ensures s.worker.Collected? ==>
              && (TimerUnused(s) ==> s.worker.result == SessionOk)
              && (ReaderUnused(s) ==> s.worker.result == ReadTimeout)
    ensures Enabled(s, step) && Do(s, step).delivered != s.delivered ==>
              if step.ReaderNotify? then Do(s, step).delivered == [SessionOk]
              else step.TimerNotify? && Do(s, step).delivered == [ReadTimeout]
  {
    ReachableOutcome(s);
    if Enabled(s, step) {
      StepOutcome(s, step);
    }
  }

  // ---- Reclamation of synchronous sessions ----

  /** Shares held by a `notify` in flight, other than the winner's. */
  function InFlight(at: Notify): nat {
    if at == BackOut || at == Shared || at.GiveBack? then 1 else 0
  }

  /** The share the worker took for the timer, until the timer callback gives it back. */
  function TimerShare(s: State): int {
    if s.worker == Fresh || s.timer == Fired then 0 else 1
  }

  function Shares(s: State): int {
    TimerShare(s)
    + (if W.IsUpgraded(s.word) then 1 else 0)          // kept by the winner for the worker
    - (if s.worker == Left(true) then 1 else 0)        // given back by the worker
    + (if s.timer.Notifying? then InFlight(s.timer.at) else 0)
    + (if s.reader.Notifying? then InFlight(s.reader.at) else 0)
  }

  /** Where a synchronous session's threads can be. */
  predicate PlacesInv(s: State) {
    && !s.async
    && (s.worker == Fresh || s.worker == Prepared ==> s.place == Nowhere && s.word == W.SHARED * TimerShare(s))
    && (s.worker == Left(false) ==> s.freed && s.place == Nowhere && s.timer == Unscheduled)
    && (s.timer == Cancelled ==> s.cancelled) && (s.cancelled ==> s.worker == Cancelling || s.worker == Left(true))
    && (s.timer.Notifying? ==> s.timer.at != GiveBack(true))
    && (s.reader.Notifying? ==> s.place == Mapped && s.reader.at != GiveBack(true))
    && (s.freed ==> s.worker.Left? && (s.timer == Unscheduled || s.timer == Fired) && s.reader == Idle)
    && (s.freed ==> s.place == Nowhere || s.place == Erased)
    && (!s.freed ==> s.place != Erased)
  }

  /** Until the object is freed its word counts exactly the shares still to be given back. */
  predicate WordInv(s: State) {
    !s.freed ==> s.word == W.SHARED * Shares(s) + (if W.IsUpgraded(s.word) then W.UPGRADED else 0)
  }

  predicate SyncInv(s: State) { DeliveryInv(s) && PlacesInv(s) && WordInv(s) }

  lemma StepPlaces(s: State, step: Step)
    requires SyncInv(s) && Enabled(s, step)
    ensures PlacesInv(Do(s, step))
  {
  }

  function Up(w: int): int { if W.IsUpgraded(w) then 1 else 0 }

  /** Each step of a synchronous `notify` changes the word by exactly the shares and the flag it
      takes, keeps or gives back. */
  lemma NotifyKeepsBalance(s: State, at: Notify, err: Outcome)
    requires !s.async && at != GiveBack(true) && !W.IsExclusive(s.word)
    ensures var e := NotifyStep(s, at, err);
            e.word - s.word ==
            W.SHARED * (if e.at.Some? then InFlight(e.at.value) else 0) - W.SHARED * InFlight(at)
            + (W.SHARED + W.UPGRADED) * (Up(e.word) - Up(s.word))
  {
    W.WordFields(s.word, 1);
    W.WordFields(s.word, -1);
  }

  lemma StepWordTimer(s: State)
    requires SyncInv(s) && Enabled(s, TimerNotify)
    ensures WordInv(Do(s, TimerNotify))
  {
    NotifyKeepsBalance(s, s.timer.at, ReadTimeout);
  }

  lemma StepWordReader(s: State)
    requires SyncInv(s) && Enabled(s, ReaderNotify)
    ensures WordInv(Do(s, ReaderNotify))
  {
    NotifyKeepsBalance(s, s.reader.at, SessionOk);
  }

  lemma StepWordOther(s: State, step: Step)
    requires SyncInv(s) && Enabled(s, step) && !step.TimerNotify? && !step.ReaderNotify?
    ensures WordInv(Do(s, step))
  {
    if step.Share? || step.WorkerRelease? || step.TimerRelease? {
      StepWordShare(s, step);
    } else {
      var s' := Do(s, step);
      assert s'.word == s.word || s'.freed;
    }
  }

  lemma StepWordShare(s: State, step: Step)
    requires SyncInv(s) && Enabled(s, step) && (step.Share? || step.WorkerRelease? || step.TimerRelease?)
    ensures WordInv(Do(s, step))
  {
    W.WordFields(s.word, 1);
    W.WordFields(s.word, -1);
  }

  predicate SyncInit(s: State) { Init(s) && !s.async }

  lemma StepSync(s: State, step: Step)
    requires SyncInv(s) && Enabled(s, step)
    ensures SyncInv(Do(s, step))
  {
    StepDelivery(s, step);
    StepPlaces(s, step);
    if step.TimerNotify? {
      StepWordTimer(s);
    } else if step.ReaderNotify? {
      StepWordReader(s);
    } else {
      StepWordOther(s, step);
    }
  }

  lemma ReachableSync(s: State)
    requires Reachable(SyncInit, Next, s)
    ensures SyncInv(s)
  {
    forall s, s' | SyncInv(s) && Next(s, s') ensures SyncInv(s') {
      var step :| Enabled(s, step) && s' == Do(s, step);
      StepSync(s, step);
    }
    ReachableInvariant(SyncInit, Next, SyncInv, s);
  }

  /** A scan frees a synchronous session only when worker, timer callback and every notifier have
      made their last access, and from then on no thread has any step left on the object. */
  lemma SafeReclamation(s: State)
    requires Reachable(SyncInit, Next, s)
    ensures Enabled(s, ReaderScan) && Do(s, ReaderScan).freed ==>
              s.worker == Left(true) && s.timer == Fired && s.reader == Idle && |s.delivered| == 1
    ensures s.freed ==> forall step :: !Enabled(s, step)
  {
    ReachableSync(s);
  }

  /** Once the worker has released and no `notify` is in flight the word is exactly UPGRADED if and
      only if the timer callback has finished; the next scan then frees the session. */
  lemma CompleteReclamation(s: State)
    requires Reachable(SyncInit, Next, s)
    requires s.worker == Left(true) && s.reader == Idle && !s.timer.Notifying? && !s.freed
    ensures s.word == W.UPGRADED <==> s.timer == Fired
    ensures s.timer == Fired && s.place == Mapped ==> Do(s, ReaderScan).freed
  {
    ReachableSync(s);
  }

  // ---- Asynchronous sessions ----

  predicate AsyncInit(s: State) { Init(s) && s.async }

  /** Shares held by a `notify` in flight; with a callback the winner gives its own back as well. */
  function Held(at: Notify): nat { if at == Entered then 0 else 1 }

  function HeldInFlight(s: State): nat {
    (if s.timer.Notifying? then Held(s.timer.at) else 0) + (if s.reader.Notifying? then Held(s.reader.at) else 0)
  }

  /** The share taken for the timer; both the timer callback and a worker that fails give it back. */
  function AsyncShares(s: State): int {
    (if s.worker == Fresh then 0 else 1) + HeldInFlight(s)
    - (if s.timer == Fired then 1 else 0) - (if s.worker == Left(true) then 1 else 0)
  }

  predicate Flagged(s: State) { |s.delivered| + Winners(s) == 1 }

  predicate AsyncWord(s: State) {
    !s.freed ==> s.word == W.SHARED * AsyncShares(s) + (if Flagged(s) then W.UPGRADED else 0)
  }

  /** Where an asynchronous session's threads can be, and what its word counts until it is freed. */
  predicate AsyncInv(s: State) {
    && s.async && DeliveryInv(s)
    && !s.worker.Waiting? && !s.worker.Collected?
    && (s.worker == Fresh || s.worker == Prepared ==> s.place == Nowhere)
    && (s.reader.Notifying? ==> s.place == Mapped)
    && (s.place == Erased ==> s.freed)
    && (s.freed ==> s.place == Nowhere || s.place == Erased)
    && (s.freed && s.place == Nowhere ==> s.worker == Left(false) && s.timer == Unscheduled)
    && AsyncWord(s)
  }

  /** Each step of an asynchronous `notify` changes the word by exactly the share and the flag it takes or
      gives back. */
  lemma AsyncNotifyBalance(s: State, at: Notify, err: Outcome)
    requires s.async && !W.IsExclusive(s.word)
    ensures var e := NotifyStep(s, at, err);
            e.word - s.word ==
            W.SHARED * ((if e.at.Some? then Held(e.at.value) else 0) - Held(at))
            + (if at == Shared && W.IsFree(s.word) then W.UPGRADED else 0)
  {
  }

  lemma FlagBit(shares: int, flagged: bool)
    ensures var w := W.SHARED * shares + if flagged then W.UPGRADED else 0;
            !W.IsExclusive(w) && (W.IsFree(w) <==> !flagged)
  {
    W.WordFields(if flagged then W.UPGRADED else 0, shares);
  }

  lemma AsyncTimerWord(s: State)
    requires AsyncInv(s) && Enabled(s, TimerNotify) && !s.freed
    ensures AsyncWord(Do(s, TimerNotify))
  {
    FlagBit(AsyncShares(s), Flagged(s));
    AsyncNotifyBalance(s, s.timer.at, ReadTimeout);
  }

  lemma AsyncReaderWord(s: State)
    requires AsyncInv(s) && Enabled(s, ReaderNotify) && !s.freed
    ensures AsyncWord(Do(s, ReaderNotify))
  {
    FlagBit(AsyncShares(s), Flagged(s));
    AsyncNotifyBalance(s, s.reader.at, SessionOk);
  }

  lemma AsyncTimer(s: State)
    requires AsyncInv(s) && Enabled(s, TimerNotify)
    ensures AsyncInv(Do(s, TimerNotify))
  {
    TimerDelivery(s);
    if !s.freed {
      AsyncTimerWord(s);
    }
  }

  lemma AsyncReader(s: State)
    requires AsyncInv(s) && Enabled(s, ReaderNotify)
    ensures AsyncInv(Do(s, ReaderNotify))
  {
    ReaderDelivery(s);
    if !s.freed {
      AsyncReaderWord(s);
    }
  }

  lemma AsyncShare(s: State, step: Step)
    requires AsyncInv(s) && Enabled(s, step) && (step.Share? || step.WorkerRelease? || step.TimerRelease?)
    ensures AsyncInv(Do(s, step))
  {
    ShareDelivery(s, step);
  }

  predicate WorkerMoves(step: Step) {
    step.Enqueue? || step.Schedule? || step.Write? || step.Cancel? || step.LookAtCallback? || step.TakeResult?
  }

  lemma AsyncWorker(s: State, step: Step)
    requires AsyncInv(s) && Enabled(s, step) && WorkerMoves(step)
    ensures AsyncInv(Do(s, step))
  {
    OtherDelivery(s, step);
  }

  lemma AsyncStart(s: State, step: Step)
    requires AsyncInv(s) && Enabled(s, step)
    requires step.TimerStart? || step.TimerCancelled? || step.ReaderPop? || step.ReaderStart? || step.ReaderScan?
    ensures AsyncInv(Do(s, step))
  {
    OtherDelivery(s, step);
  }

  lemma AsyncOther(s: State, step: Step)
    requires AsyncInv(s) && Enabled(s, step) && !step.TimerNotify? && !step.ReaderNotify?
    ensures AsyncInv(Do(s, step))
  {
    if step.Share? || step.WorkerRelease? || step.TimerRelease? {
      AsyncShare(s, step);
    } else if WorkerMoves(step) {
      AsyncWorker(s, step);
    } else {
      AsyncStart(s, step);
    }
  }

  lemma AsyncStep(s: State, step: Step)
    requires AsyncInv(s) && Enabled(s, step)
    ensures AsyncInv(Do(s, step))
  {
    match step {
      case TimerNotify => AsyncTimer(s);
      case ReaderNotify => AsyncReader(s);
      case _ => AsyncOther(s, step);
    }
  }

  lemma ReachableAsync(s: State)
    requires Reachable(AsyncInit, Next, s)
    ensures AsyncInv(s)
  {
    forall s, s' | AsyncInv(s) && Next(s, s') ensures AsyncInv(s') {
      var step :| Enabled(s, step) && s' == Do(s, step);
      AsyncStep(s, step);
    }
    ReachableInvariant(AsyncInit, Next, AsyncInv, s);
  }

  /** Worker and timer have made their last access. */
  predicate Settled(s: State) {
    s.worker.Left? && (s.timer == Unscheduled || s.timer == Fired || s.timer == Cancelled)
  }

  ghost predicate Quiet(s: State) { forall step :: Enabled(s, step) ==> !Touches(step) }

  /** A step that some thread still has to take on the object, if worker or timer is not done. */
  lemma LateStep(s: State) returns (step: Step)
    requires AsyncInv(s) && s.place == Erased && !Settled(s)
    ensures Enabled(s, step) && Touches(step)
  {
    match s.worker {
      case Fresh => step := Share;
      case Prepared => step := Enqueue(true);
      case Enqueued => step := Schedule(true);
      case TimerBusy => step := WorkerRelease;
      case Scheduled => step := Write(true);
      case WriteFailed => step := Cancel;
      case Cancelling => step := WorkerRelease;
      case Written => step := LookAtCallback;
      case Left(_) =>
        step := if s.timer == Pending then TimerStart else if s.timer == Releasing then TimerRelease else TimerNotify;
    }
  }

  /** The scan frees an asynchronous session when no `notify` is in flight and exactly one of timer callback and worker
      has given the timer's share back. Nothing touches the object afterwards if and only if worker and timer are both
      done by then. */
  lemma AsyncReclamation(s: State)
    requires Reachable(AsyncInit, Next, s)
    requires Enabled(s, ReaderScan) && s.word == W.UPGRADED
    ensures Do(s, ReaderScan).freed && HeldInFlight(s) == 0 && |s.delivered| == 1
    ensures s.timer == Fired <==> s.worker != Left(true)
    ensures Quiet(Do(s, ReaderScan)) <==> Settled(s)
    ensures Settled(s) ==> forall step :: !Enabled(Do(s, ReaderScan), step)
  {
    ReachableAsync(s);
    AsyncOther(s, ReaderScan);
    W.WordFields(0, 0);
    if !Settled(s) {
      var step := LateStep(Do(s, ReaderScan));
    }
  }

  // ---- A discipline that makes asynchronous sessions safe ----

  /** Writes succeed, and the timer does not fire before the sender has left. */
  predicate Careful(s: State, step: Step) {
    step != Write(false) && (step == TimerStart ==> s.worker.Left?)
  }

  ghost predicate CarefulNext(s: State, s': State) {
    exists step :: Enabled(s, step) && Careful(s, step) && s' == Do(s, step)
  }

  predicate CarefulInv(s: State) {
    && s.worker != WriteFailed && s.worker != Cancelling && !s.cancelled && s.timer != Cancelled
    && (s.timer.Notifying? || s.timer == Releasing || s.timer == Fired ==> s.worker.Left?)
    && (s.worker == Left(true) ==> s.timer == Unscheduled)
    && (s.freed ==> Settled(s) && s.reader == Idle)
  }

  lemma CarefulStep(s: State, step: Step)
    requires AsyncInv(s) && CarefulInv(s) && Enabled(s, step) && Careful(s, step)
    ensures CarefulInv(Do(s, step))
  {
  }

  /** Under that discipline no thread has a step left on a freed object, in any run. */
  lemma CarefulIsSafe(s: State)
    requires Reachable(AsyncInit, CarefulNext, s)
    ensures s.freed ==> forall step :: !Enabled(s, step)
  {
    var inv := (s: State) => AsyncInv(s) && CarefulInv(s);
    forall s, s' | inv(s) && CarefulNext(s, s') ensures inv(s') {
      var step :| Enabled(s, step) && Careful(s, step) && s' == Do(s, step);
      AsyncStep(s, step);
      CarefulStep(s, step);
    }
    ReachableInvariant(AsyncInit, CarefulNext, inv, s);
  }

  // ---- Without it: two runs ----

  lemma Go(s: State, step: Step) returns (s': State)
    requires Reachable(AsyncInit, Next, s) && Enabled(s, step)
    ensures s' == Do(s, step) && Reachable(AsyncInit, Next, s')
  {
    s' := Do(s, step);
    assert Next(s, s');
    ReachableStep(AsyncInit, Next, s, s');
  }

  lemma ReadyToWrite() returns (s: State)
    ensures Reachable(AsyncInit, Next, s)
    ensures s == State(true, W.SHARED, Worker.Scheduled, Pending, Idle, Mapped, [], false, false)
  {
    s := State(true, 0, Fresh, Unscheduled, Idle, Nowhere, [], false, false);
    ReachableInit(AsyncInit, Next, s);
    s := Go(s, Share);
    s := Go(s, Enqueue(true));
    s := Go(s, Schedule(true));
    s := Go(s, ReaderPop);
  }

  /** The timer enters `notify` and wins. */
  lemma TimerWins(s: State) returns (s': State)
    requires Reachable(AsyncInit, Next, s) && s.async && s.timer == Pending && s.word == W.SHARED
    ensures Reachable(AsyncInit, Next, s')
    ensures s' == s.(word := 2 * W.SHARED + W.UPGRADED, timer := Timer.Notifying(Won))
  {
    s' := Go(s, TimerStart);
    s' := Go(s', TimerNotify);
    s' := Go(s', TimerNotify);
  }

  /** It calls the callback and gives the share of its `notify` back. */
  lemma TimerReturns(s: State) returns (s': State)
    requires Reachable(AsyncInit, Next, s) && s.async && s.timer == Timer.Notifying(Won)
    ensures Reachable(AsyncInit, Next, s')
    ensures s' == s.(word := s.word - W.SHARED, timer := Releasing, delivered := s.delivered + [ReadTimeout])
  {
    s' := Go(s, TimerNotify);
    s' := Go(s', TimerNotify);
  }

  /** The sender's look at the session is not covered by a share: the object is freed while it is still to come. */
  lemma AsyncSenderMayBeLate() returns (s: State)
    ensures Reachable(AsyncInit, Next, s)
    ensures s.freed && Enabled(s, LookAtCallback) && Touches(LookAtCallback)
  {
    s := ReadyToWrite();
    s := Go(s, Write(true));
    s := TimerWins(s);
    s := TimerReturns(s);
    s := Go(s, TimerRelease);
    s := Go(s, ReaderScan);
  }

  /** When the write fails the worker gives the timer's share back although the timer may be at work: the object is
      freed while the timer callback has still to release it. */
  lemma AsyncTimerMayBeLate() returns (s: State)
    ensures Reachable(AsyncInit, Next, s)
    ensures s.freed && Enabled(s, TimerRelease) && Touches(TimerRelease)
  {
    s := ReadyToWrite();
    s := Go(s, Write(false));
    s := Go(s, Cancel);
    s := TimerWins(s);
    s := Go(s, WorkerRelease);
    s := TimerReturns(s);
    s := Go(s, ReaderScan);
  }

  // ---- What the calls of the sender come to ----

  /** prepareRead hands the session over or the sender deletes it; a timer task is there exactly if it was added; and
      only a failed write has it cancelled. */
  lemma SenderSteps(s: State, step: Step)
    requires Enabled(s, step)
    ensures step.Enqueue? ==>
              && (Do(s, step).place == Queued <==> step.ok || s.place == Queued)
              && (Do(s, step).freed <==> !step.ok || s.freed)
    ensures step.Schedule? ==> (Do(s, step).timer == Pending <==> step.ok || s.timer == Pending)
    ensures step.Write? ==>
              && (Do(s, step).worker == Written <==> step.ok)
              && (Do(s, step).worker == WriteFailed <==> !step.ok)
    ensures step.Cancel? ==> Do(s, step).cancelled && (s.timer == Pending ==> Enabled(Do(s, step), TimerCancelled))
  {
  }

  /** A notify that comes after the decision backs out, and one that comes before it tries for the upgrade. */
  lemma LateNotifyBacksOut(s: State, err: Outcome)
    ensures NotifyStep(s, Entered, err).at == Some(Shared) <==> s.word % 4 == 0
    ensures NotifyStep(s, Entered, err).at == Some(BackOut) <==> s.word % 4 != 0
  {
  }
}
