/** getSocketInternal: any number of threads share a channel, one of them replaces a dead socket. */
module ChannelReconnect {
  import opened Options
  import opened Runs
  import L = LifeCycleLock

  datatype Pc =
    | Idle
    | Refused          // tryShared failed, share still to be taken back
    | InGuard          // holds a share, about to look at the socket
    | Served(socket: nat)   // copied this active socket, about to leave the guard
    | SawInactive      // about to try the upgrade
    | Lost             // someone else reconnects, about to leave the guard
    | Won              // upgraded, about to leave the guard
    | Waiting          // spinning in exclusive()
    | Owning           // about to surrender the old socket
    | Connecting       // about to replace the socket
    | Finished(got: Option<nat>)   // has the new socket, if there is one; about to release the channel

  datatype State = State(
    word: int,
    pc: map<nat, Pc>,
    socket: Option<nat>,        // sockets are numbered in creation order
    active: bool,
    created: nat,
    surrendered: seq<nat>)      // releaseExclusive calls on sockets, in order

  datatype Step =
    | Enter(t: nat) | Refuse(t: nat) | Look(t: nat) | Leave(t: nat) | TryUpgrade(t: nat)
    | Take(t: nat) | Surrender(t: nat) | Connect(t: nat, ok: bool) | Release(t: nat)
    | Deactivate

  predicate Init(s: State) {
    && s.word == 0 && s.surrendered == []
    && (forall t :: t in s.pc ==> s.pc[t] == Idle)
    && s.socket == Some(0) && s.created == 1
  }

  predicate Enabled(s: State, step: Step) {
    if step.Deactivate? then true
    else
      && step.t in s.pc
      && var at := s.pc[step.t];
         match step
         case Enter(_) => at == Idle
         case Refuse(_) => at == Refused
         case Look(_) => at == InGuard
         case Leave(_) => at.Served? || at == Lost || at == Won
         case TryUpgrade(_) => at == SawInactive
         case Take(_) => at == Waiting && s.word == L.UPGRADED
         case Surrender(_) => at == Owning
         case Connect(_, _) => at == Connecting
         case Release(_) => at.Finished?
         case Deactivate => true
  }

  function Do(s: State, step: Step): State
    requires Enabled(s, step)
  {
    match step
    case Enter(t) =>
      s.(word := s.word + L.SHARED, pc := s.pc[t := if L.IsFree(s.word) then InGuard else Refused])
    case Refuse(t) => s.(word := s.word - L.SHARED, pc := s.pc[t := Idle])
    case Look(t) => s.(pc := s.pc[t := if s.socket.Some? && s.active then Served(s.socket.value) else SawInactive])
    case Leave(t) =>
      s.(word := s.word - L.SHARED, pc := s.pc[t := if s.pc[t] == Won then Waiting else Idle])
    case TryUpgrade(t) =>
      s.(word := L.OrUpgraded(s.word), pc := s.pc[t := if L.IsFree(s.word) then Won else Lost])
    case Take(t) => s.(word := L.EXCLUSIVE, pc := s.pc[t := Owning])
    case Surrender(t) =>
      s.(surrendered := if s.socket.Some? then s.surrendered + [s.socket.value] else s.surrendered,
         pc := s.pc[t := Connecting])
    case Connect(t, ok) =>
      // a failed connect gives its own socket up at once
      s.(socket := if ok then Some(s.created) else None, active := ok, created := s.created + 1,
         surrendered := if ok then s.surrendered else s.surrendered + [s.created],
         pc := s.pc[t := Finished(if ok then Some(s.created) else None)])
    case Release(t) => s.(word := L.ClearFlags(s.word), pc := s.pc[t := Idle])
    case Deactivate => s.(active := false)
  }

  ghost predicate Next(s: State, s': State) {
    exists step :: Enabled(s, step) && s' == Do(s, step)
  }

  // ---- Refinement of the lock ----

  function RoleOf(at: Pc): L.Role {
    match at
    case Idle => L.Outside
    case Waiting => L.Outside
    case Refused => L.BackingOut
    case InGuard => L.Sharing
    case Served(_) => L.Sharing
    case SawInactive => L.Sharing
    case Lost => L.Sharing
    case Won => L.Sharing
    case Owning => L.Owning
    case Connecting => L.Owning
    case Finished(_) => L.Owning
  }

  function Abs(s: State): L.State {
    L.State(s.word, map t | t in s.pc :: RoleOf(s.pc[t]))
  }

  function LockStep(s: State, step: Step): Option<L.Step> {
    match step
    case Enter(t) => Some(L.AddShare(t))
    case Refuse(t) => Some(L.BackOut(t))
    case Leave(t) => Some(L.DropShare(t))
    case TryUpgrade(t) => Some(L.SetUpgraded(t))
    case Take(t) => Some(L.TakeExclusive(t))
    case Release(t) => Some(L.DropExclusive(t))
    case _ => None
  }

  /** Every step of the channel is one step of the lock or leaves the lock alone. */
  lemma RefinesLock(s: State, step: Step)
    requires Enabled(s, step)
    ensures match LockStep(s, step)
            case Some(l) => L.Enabled(Abs(s), l) && Abs(Do(s, step)) == L.Do(Abs(s), l)
            case None => Abs(Do(s, step)) == Abs(s)
  {
    var s' := Do(s, step);
    if !step.Deactivate? {
      MovesOne(s, step);
      RoleMoves(s, s', step.t);
    }
    if LockStep(s, step).Some? {
      assert L.Enabled(Abs(s), LockStep(s, step).value);
    }
  }

  lemma RoleMoves(s: State, s': State, t: nat)
    requires t in s.pc && t in s'.pc && s'.pc == s.pc[t := s'.pc[t]]
    ensures Abs(s').role == Abs(s).role[t := RoleOf(s'.pc[t])]
    ensures RoleOf(s'.pc[t]) == RoleOf(s.pc[t]) ==> Abs(s').role == Abs(s).role
  {
  }

  // ---- One thread at a time reconnects ----

  predicate Chosen(at: Pc) { at == Won || at == Waiting }

  predicate Replacing(at: Pc) { at == Owning || at == Connecting || at.Finished? }

  predicate Elected(at: Pc) { Chosen(at) || Replacing(at) }

  ghost predicate UpgradedInv(s: State) {
    L.IsUpgraded(s.word) <==> exists t :: t in s.pc && Chosen(s.pc[t])
  }

  ghost predicate UniqueInv(s: State) {
    forall t, u :: t in s.pc && u in s.pc && Elected(s.pc[t]) && Elected(s.pc[u]) ==> t == u
  }

  ghost predicate SomeoneConnecting(s: State) { exists t :: t in s.pc && s.pc[t] == Connecting }

  /** Every socket ever created, except the current one, has been surrendered exactly once; the
      current one has not, apart from the moment before it is replaced. */
  ghost predicate SocketInv(s: State) {
    && (forall i :: 0 <= i < |s.surrendered| ==> s.surrendered[i] < s.created)
    && (forall i, j :: 0 <= i < j < |s.surrendered| ==> s.surrendered[i] != s.surrendered[j])
    && (s.socket.Some? ==> s.socket.value < s.created)
    && (forall n: nat :: n < s.created ==> n in s.surrendered || s.socket == Some(n))
    && (s.socket.Some? ==>
        (s.socket.value in s.surrendered <==> SomeoneConnecting(s)))
  }

  /** The socket handed to a thread is the channel's, as long as the thread is inside. */
  ghost predicate ServedInv(s: State) {
    forall t :: t in s.pc ==>
      && (s.pc[t].Served? ==> s.socket == Some(s.pc[t].socket))
      && (s.pc[t].Finished? ==> s.socket == s.pc[t].got)
  }

  ghost predicate Inv(s: State) {
    L.Inv(Abs(s)) && UpgradedInv(s) && UniqueInv(s) && SocketInv(s) && ServedInv(s)
  }

  lemma StepLockInv(s: State, step: Step)
    requires L.Inv(Abs(s)) && Enabled(s, step)
    ensures L.Inv(Abs(Do(s, step)))
  {
    RefinesLock(s, step);
    if LockStep(s, step).Some? {
      L.StepCountInv(Abs(s), LockStep(s, step).value);
      L.StepOwnerInv(Abs(s), LockStep(s, step).value);
    }
  }

  /** The lock's facts, said of the channel's program points. */
  ghost predicate LockView(s: State) {
    && (L.IsExclusive(s.word) <==> exists t :: t in s.pc && Replacing(s.pc[t]))
    && forall t, u :: t in s.pc && u in s.pc && t != u && Replacing(s.pc[t]) ==>
        s.pc[u] == Idle || s.pc[u] == Waiting || s.pc[u] == Refused
  }

  lemma LockFacts(s: State)
    requires L.Inv(Abs(s))
    ensures LockView(s)
  {
    var a := Abs(s);
    assert forall t :: t in s.pc ==> (Replacing(s.pc[t]) <==> a.role[t] == L.Owning);
    if L.IsExclusive(s.word) {
      var t :| t in a.role && a.role[t] == L.Owning;
      assert Replacing(s.pc[t]);
    }
  }

  /** A step moves one thread; only an upgrade of the free word elects it. */
  lemma MovesOne(s: State, step: Step)
    requires Enabled(s, step) && !step.Deactivate?
    ensures Do(s, step).pc == s.pc[step.t := Do(s, step).pc[step.t]]
    ensures Elected(Do(s, step).pc[step.t]) ==> Elected(s.pc[step.t]) || (step.TryUpgrade? && L.IsFree(s.word))
  {
  }

  lemma NobodyElected(s: State)
    requires LockView(s) && UpgradedInv(s) && L.IsFree(s.word)
    ensures forall t :: t in s.pc ==> !Elected(s.pc[t])
  {
  }

  lemma StepUnique(s: State, step: Step)
    requires LockView(s) && UpgradedInv(s) && UniqueInv(s) && Enabled(s, step)
    ensures UniqueInv(Do(s, step))
  {
    if !step.Deactivate? {
      MovesOne(s, step);
      if L.IsFree(s.word) {
        NobodyElected(s);
      }
      UniqueAfterMove(s, Do(s, step), step.t);
    }
  }

  lemma UniqueAfterMove(s: State, s': State, t: nat)
    requires UniqueInv(s) && t in s.pc && t in s'.pc && s'.pc == s.pc[t := s'.pc[t]]
    requires Elected(s'.pc[t]) ==> Elected(s.pc[t]) || forall u :: u in s.pc ==> !Elected(s.pc[u])
    ensures UniqueInv(s')
  {
  }

  /** Steps that move no flag choose nobody and dismiss nobody. */
  lemma PlainStep(s: State, step: Step)
    requires Enabled(s, step) && !step.TryUpgrade? && !step.Take? && !step.Release?
    ensures L.IsUpgraded(Do(s, step).word) == L.IsUpgraded(s.word)
    ensures forall u :: u in s.pc ==> Chosen(Do(s, step).pc[u]) == Chosen(s.pc[u])
    ensures Do(s, step).pc.Keys == s.pc.Keys
  {
    L.WordFields(s.word, 1);
    L.WordFields(s.word, -1);
  }

  lemma UpgradeStep(s: State, step: Step)
    requires LockView(s) && UpgradedInv(s) && Enabled(s, step) && step.TryUpgrade?
    ensures UpgradedInv(Do(s, step))
  {
    var s' := Do(s, step);
    L.WordFields(s.word, 0);
    if L.IsFree(s.word) {
      assert Chosen(s'.pc[step.t]);
    } else {
      // somebody else is elected, and it is not replacing: that would exclude this sharer
      var c :| c in s.pc && Chosen(s.pc[c]);
      assert Chosen(s'.pc[c]);
    }
  }

  lemma HandOverStep(s: State, step: Step)
    requires UpgradedInv(s) && UniqueInv(s) && Enabled(s, step) && (step.Take? || step.Release?)
    ensures UpgradedInv(Do(s, step))
  {
    L.WordFields(s.word, 0);
    MovesOne(s, step);
    assert Elected(s.pc[step.t]);
    assert forall u :: u in s.pc && u != step.t ==> !Elected(s.pc[u]);
  }

  lemma StepUpgraded(s: State, step: Step)
    requires LockView(s) && UpgradedInv(s) && UniqueInv(s) && Enabled(s, step)
    ensures UpgradedInv(Do(s, step))
  {
    if step.TryUpgrade? {
      UpgradeStep(s, step);
    } else if step.Take? || step.Release? {
      HandOverStep(s, step);
    } else {
      PlainStep(s, step);
    }
  }

  lemma WhoConnects(s: State, step: Step)
    requires UniqueInv(s) && Enabled(s, step)
    ensures step.Surrender? ==> !SomeoneConnecting(s) && SomeoneConnecting(Do(s, step))
    ensures step.Connect? ==> SomeoneConnecting(s) && !SomeoneConnecting(Do(s, step))
    ensures !step.Surrender? && !step.Connect? ==> (SomeoneConnecting(s) <==> SomeoneConnecting(Do(s, step)))
  {
    var s' := Do(s, step);
    if step.Surrender? {
      assert s'.pc[step.t] == Connecting && Elected(s.pc[step.t]);
    } else if step.Connect? {
      assert s.pc[step.t] == Connecting && Elected(s.pc[step.t]);
      assert forall u :: u in s.pc && u != step.t ==> s'.pc[u] == s.pc[u];
    } else {
      assert forall u :: u in s.pc ==> (s'.pc[u] == Connecting <==> s.pc[u] == Connecting);
    }
  }

  lemma StepSocket(s: State, step: Step)
    requires SocketInv(s) && UniqueInv(s) && Enabled(s, step)
    ensures SocketInv(Do(s, step))
  {
    WhoConnects(s, step);
  }

  lemma StepServed(s: State, step: Step)
    requires LockView(s) && UniqueInv(s) && ServedInv(s) && Enabled(s, step)
    ensures ServedInv(Do(s, step))
  {
    var s' := Do(s, step);
    if step.Connect? {
      assert Replacing(s.pc[step.t]) && Elected(s.pc[step.t]);
      forall u | u in s.pc && u != step.t ensures !s'.pc[u].Served? && !s'.pc[u].Finished? {
        assert s'.pc[u] == s.pc[u];
      }
    }
  }

  lemma ReachableInv(s: State)
    requires Reachable(Init, Next, s)
    ensures Inv(s)
  {
    forall s | Init(s) ensures Inv(s) {
      L.InitInv(Abs(s));
    }
    forall s, s' | Inv(s) && Next(s, s') ensures Inv(s') {
      var step :| Enabled(s, step) && s' == Do(s, step);
      StepLockInv(s, step);
      LockFacts(s);
      StepUnique(s, step);
      StepUpgraded(s, step);
      StepSocket(s, step);
      StepServed(s, step);
    }
    ReachableInvariant(Init, Next, Inv, s);
  }

  /** While a thread replaces the socket no other thread is inside the guard, waits for the lock or
      replaces it too. */
  lemma SingleReconnect(s: State, t: nat, u: nat)
    requires Reachable(Init, Next, s)
    requires t in s.pc && u in s.pc && t != u && Replacing(s.pc[t])
    ensures s.pc[u] == Idle || s.pc[u] == Refused
  {
    ReachableInv(s);
    LockFacts(s);
    assert Elected(s.pc[t]);
  }

  /** Threads whose share the waiting winner still has to outlast. */
  ghost function Guarded(s: State): set<nat> {
    set t | t in s.pc && (RoleOf(s.pc[t]) == L.Sharing || s.pc[t] == Refused)
  }

  /** The waiting winner sees UPGRADED plus the shares still counted, so its compare-and-swap
      succeeds as soon as no thread is in the guard or backing out of it. */
  lemma WinnerGetsIn(s: State, t: nat)
    requires Reachable(Init, Next, s)
    requires t in s.pc && s.pc[t] == Waiting
    ensures s.word == L.UPGRADED + L.SHARED * |Guarded(s)|
    ensures Enabled(s, Take(t)) <==> Guarded(s) == {}
  {
    ReachableInv(s);
    LockFacts(s);
    assert Chosen(s.pc[t]) && Elected(s.pc[t]);
    assert Guarded(s) == L.Counted(Abs(s));
    UpgradedWord(s.word, |Guarded(s)|);
  }

  lemma UpgradedWord(word: int, shares: nat)
    requires L.IsUpgraded(word) && !L.IsExclusive(word) && L.SHARED * shares <= word < L.SHARED * shares + L.SHARED
    ensures word == L.UPGRADED + L.SHARED * shares
  {
    L.WordFields(word - L.SHARED * shares, shares);
  }

  /** No socket leaks and none is given up twice. */
  lemma SurrenderedOnce(s: State, n: nat)
    requires Reachable(Init, Next, s) && n < s.created
    ensures forall i, j :: 0 <= i < j < |s.surrendered| ==> s.surrendered[i] != s.surrendered[j]
    ensures s.socket != Some(n) ==> n in s.surrendered
    ensures s.socket == Some(n) && n in s.surrendered ==> SomeoneConnecting(s)
  {
    ReachableInv(s);
  }

  /** A thread that looks gets the channel's socket exactly if there is one and it is active. */
  lemma LooksAtTheSocket(s: State, t: nat, n: nat)
    requires Enabled(s, Look(t))
    ensures Do(s, Look(t)).pc[t] == Served(n) <==> s.socket == Some(n) && s.active
    ensures Do(s, Look(t)).pc[t] == SawInactive <==> s.socket == None || !s.active
  {
  }

  /** The socket a thread got, by looking or by connecting, is the channel's own and not surrendered until the thread
      has left the guard or released the channel. */
  lemma ServedSocketIsHeld(s: State, t: nat, n: nat)
    requires Reachable(Init, Next, s) && t in s.pc && (s.pc[t] == Served(n) || s.pc[t] == Finished(Some(n)))
    ensures s.socket == Some(n) && n !in s.surrendered
  {
    ReachableInv(s);
    LockFacts(s);
    forall u | u in s.pc ensures s.pc[u] != Connecting {
      if Replacing(s.pc[u]) && u != t {
        assert Elected(s.pc[u]) && !Elected(s.pc[t]);
      }
    }
  }

  /** A connect that succeeds gives the channel a socket it never had, which is active and goes to the thread; one that
      fails leaves it without. */
  lemma ConnectReplaces(s: State, t: nat, ok: bool)
    requires Reachable(Init, Next, s) && Enabled(s, Connect(t, ok))
    ensures var s' := Do(s, Connect(t, ok));
            if ok then s'.socket.Some? && s'.active && s'.pc[t] == Finished(s'.socket)
                       && s'.socket != s.socket && s'.socket.value !in s'.surrendered
            else s'.socket == None && s'.pc[t] == Finished(None)
  {
    ReachableInv(s);
  }
}
