/** The life-cycle lock: one word that packs a share count and two flag bits. */
module LifeCycleLock {
  import opened Runs

  const SHARED := 4
  const UPGRADED := 2
  const EXCLUSIVE := 1

  predicate IsUpgraded(w: int) { w / UPGRADED % 2 == 1 }

  predicate IsExclusive(w: int) { w % 2 == 1 }

  predicate IsFree(w: int) { !IsUpgraded(w) && !IsExclusive(w) }

  /** fetch_or(UPGRADED) */
  function OrUpgraded(w: int): int { if IsUpgraded(w) then w else w + UPGRADED }

  /** fetch_and(~(EXCLUSIVE | UPGRADED)) */
  function ClearFlags(w: int): int { w - w % SHARED }

  /** Adding or removing shares leaves the flags alone; the two flag operations leave the count alone. */
  lemma WordFields(w: int, k: int)
    ensures IsUpgraded(w + SHARED * k) == IsUpgraded(w) && IsExclusive(w + SHARED * k) == IsExclusive(w)
    ensures IsUpgraded(OrUpgraded(w)) && IsExclusive(OrUpgraded(w)) == IsExclusive(w)
    ensures OrUpgraded(w) / SHARED == w / SHARED
    ensures IsFree(ClearFlags(w)) && ClearFlags(w) / SHARED == w / SHARED
    ensures (w + SHARED * k) / SHARED == w / SHARED + k
  {
    assert (w + SHARED * k) / 2 == w / 2 + 2 * k;
  }

  // ---- Any number of threads, one step per atomic operation ----

  /** What a thread currently has: nothing, a share it must give back at once, a share, or the lock. */
  datatype Role = Outside | BackingOut | Sharing | Owning

  datatype State = State(word: int, role: map<nat, Role>)

  datatype Step =
    | AddShare(t: nat)          // fetch_add(SHARED) of tryShared
    | BackOut(t: nat)           // fetch_add(-SHARED) after a refused tryShared
    | DropShare(t: nat)         // releaseShared
    | SetUpgraded(t: nat)       // fetch_or of tryUpgrade and tryUpgradeNonReEntrant
    | TakeExclusive(t: nat)     // successful compare-and-swap of tryExclusive
    | DropExclusive(t: nat)     // releaseExclusive

  ghost predicate Init(s: State) {
    s.word == 0 && forall t :: t in s.role ==> s.role[t] == Outside
  }

  predicate Enabled(s: State, step: Step) {
    && step.t in s.role
    && match step
       case AddShare(t) => s.role[t] == Outside
       case BackOut(t) => s.role[t] == BackingOut
       case DropShare(t) => s.role[t] == Sharing
       case SetUpgraded(t) => s.role[t] == Outside || s.role[t] == Sharing
       case TakeExclusive(t) => s.role[t] == Outside && s.word == UPGRADED
       case DropExclusive(t) => s.role[t] == Owning
  }

  function Do(s: State, step: Step): State
    requires Enabled(s, step)
  {
    match step
    case AddShare(t) =>
      State(s.word + SHARED, s.role[t := if IsFree(s.word) then Sharing else BackingOut])
    case BackOut(t) => State(s.word - SHARED, s.role[t := Outside])
    case DropShare(t) => State(s.word - SHARED, s.role[t := Outside])
    case SetUpgraded(t) => s.(word := OrUpgraded(s.word))
    case TakeExclusive(t) => State(EXCLUSIVE, s.role[t := Owning])
    case DropExclusive(t) => State(ClearFlags(s.word), s.role[t := Outside])
  }

  ghost predicate Next(s: State, s': State) {
    exists step :: Enabled(s, step) && s' == Do(s, step)
  }

  /** Threads whose share is counted in the word. */
  ghost function Counted(s: State): set<nat> {
    set t | t in s.role && (s.role[t] == Sharing || s.role[t] == BackingOut)
  }

  /** The word's upper bits count the shares. */
  ghost predicate CountInv(s: State) {
    SHARED * |Counted(s)| <= s.word < SHARED * |Counted(s)| + SHARED
  }

  /** EXCLUSIVE stands for one owner, who excludes everyone but refused attempts. */
  ghost predicate OwnerInv(s: State) {
    && (IsExclusive(s.word) <==> exists t :: t in s.role && s.role[t] == Owning)
    && (forall t, u :: t in s.role && u in s.role && s.role[t] == Owning ==>
        u == t || s.role[u] == Outside || s.role[u] == BackingOut)
  }

  ghost predicate Inv(s: State) { CountInv(s) && OwnerInv(s) }

  lemma InitInv(s: State)
    requires Init(s)
    ensures Inv(s)
  {
    assert Counted(s) == {};
  }

  lemma CountedAfter(s: State, t: nat, r: Role, w: int)
    requires t in s.role
    ensures Counted(State(w, s.role[t := r])) ==
            if r == Sharing || r == BackingOut then Counted(s) + {t} else Counted(s) - {t}
  {}

  /** The flag operations stay within the four words of one count. */
  lemma FlagsKeepCount(w: int, count: int)
    requires SHARED * count <= w < SHARED * count + SHARED
    ensures SHARED * count <= OrUpgraded(w) < SHARED * count + SHARED && ClearFlags(w) == SHARED * count
  {
    WordFields(w - SHARED * count, count);
  }

  lemma StepCountInv(s: State, step: Step)
    requires CountInv(s) && Enabled(s, step)
    ensures CountInv(Do(s, step))
  {
    var s' := Do(s, step);
    FlagsKeepCount(s.word, |Counted(s)|);
    if step.SetUpgraded? {
      assert Counted(s') == Counted(s);
    } else {
      CountedAfter(s, step.t, s'.role[step.t], s'.word);
      assert s' == State(s'.word, s.role[step.t := s'.role[step.t]]);
    }
  }

  /** No compare-and-swap succeeds while a share is counted. */
  lemma UpgradedMeansUnshared(s: State, t: nat)
    requires CountInv(s) && s.word == UPGRADED && t in s.role
    ensures s.role[t] == Outside || s.role[t] == Owning
  {
    assert |Counted(s)| == 0;
    assert t !in Counted(s);
  }

  lemma StepOwnerInv(s: State, step: Step)
    requires Inv(s) && Enabled(s, step)
    ensures OwnerInv(Do(s, step))
  {
    var s' := Do(s, step);
    var t := step.t;
    assert forall u :: u in s.role && u != t ==> s'.role[u] == s.role[u];
    WordFields(s.word, 1);
    WordFields(s.word, -1);
    if step.TakeExclusive? {
      forall u | u in s.role ensures s.role[u] == Outside || s.role[u] == Owning {
        UpgradedMeansUnshared(s, u);
      }
      assert s'.role[t] == Owning;
    } else if IsExclusive(s.word) {
      var o :| o in s.role && s.role[o] == Owning;
      assert step.DropExclusive? ==> o == t;
      assert !step.DropExclusive? ==> s'.role[o] == Owning;
    }
  }

  lemma ReachableInv(s: State)
    requires Reachable(Init, Next, s)
    ensures Inv(s)
  {
    forall s | Init(s) ensures Inv(s) { InitInv(s); }
    forall s, s' | Inv(s) && Next(s, s') ensures Inv(s') {
      var step :| Enabled(s, step) && s' == Do(s, step);
      StepCountInv(s, step);
      StepOwnerInv(s, step);
    }
    ReachableInvariant(Init, Next, Inv, s);
  }

  /** In every reachable state the word equals four times its sharers and backing-out attempts plus
      its flags, and an owner excludes every sharer and every other owner. */
  lemma Exclusion(s: State)
    requires Reachable(Init, Next, s)
    ensures s.word == SHARED * |Counted(s)| +
                      (if IsUpgraded(s.word) then UPGRADED else 0) + (if IsExclusive(s.word) then EXCLUSIVE else 0)
    ensures forall t, u :: t in s.role && u in s.role && t != u && s.role[t] == Owning ==>
              s.role[u] != Sharing && s.role[u] != Owning
    ensures (exists t :: t in s.role && s.role[t] == Owning) <==> IsExclusive(s.word)
  {
    ReachableInv(s);
  }

  // ---- A flag closes the lock ----

  ghost function Sharers(s: State): set<nat> {
    set t | t in s.role && s.role[t] == Sharing
  }

  /** A share is granted exactly when the word has no flag: when it is a multiple of four. */
  lemma SharesWhenFree(s: State, t: nat)
    requires Enabled(s, AddShare(t))
    ensures Do(s, AddShare(t)).role[t] == Sharing <==> s.word % 4 == 0
    ensures Do(s, AddShare(t)).role[t] == BackingOut <==> s.word % 4 != 0
  {
  }

  /** Once a flag is set no share is granted until it is cleared: the sharers only become fewer, so whoever set it can
      wait for them. */
  lemma FlagKeepsOut(s: State, s': State)
    requires Next(s, s') && !IsFree(s.word)
    ensures Sharers(s') <= Sharers(s)
    ensures IsFree(s'.word) ==> exists t :: t in s.role && s.role[t] == Owning && s'.role[t] == Outside
  {
    var step :| Enabled(s, step) && s' == Do(s, step);
    WordFields(s.word, 1);
    WordFields(s.word, -1);
    if IsFree(s'.word) {
      FlagsLeft(s, step);
      assert s.role[step.t] == Owning && s'.role[step.t] == Outside;
    }
  }

  lemma FlagsLeft(s: State, step: Step)
    requires Enabled(s, step) && !IsFree(s.word) && IsFree(Do(s, step).word)
    ensures step.DropExclusive?
  {
    WordFields(s.word, 1);
    WordFields(s.word, -1);
  }
}
