/** Any number of database instances on one path, in any number of processes, interleaved step by
    step: checking and joining the process's set of active writers, taking the lock, publishing and
    clearing the marker, and recovering on open are all separate steps, and a process may die
    between any two of them. An instance at rest may also write its cached header without the lock,
    as a SELECT on an empty table does. */
module SingleWriter {
  import opened Values

  type Id = nat

  type Process = nat

  datatype Phase =
    // opening
    | ReadHeader(sawMarker: bool)   // the header has been read, the live-writer check is next
    | AwaitingRecovery              // saw a marker of no writer of its own process
    | Rereading                     // holds the lock, must read the header again
    | Restoring(undone: Id)         // holds the lock, the header read under it has this marker
    | Recovered                     // holds the lock, nothing left to restore
    // at rest
    | Idle
    // beginning
    | Checked                       // saw no active writer in its process
    | Registered                    // joined the active writers, waits for the lock
    | TimedOut                      // did not get the lock
    | Locked
    | Snapshotted
    // in a transaction
    | InTransaction
    // ending, or a begin that failed after taking the lock
    | Finishing
    | Unregistered

  datatype Instance = Instance(process: Process, phase: Phase, snapshot: bool)

  /** `marker` is the instance whose pending transaction the file shows; `foreign` says that since a
      transaction was last published another marker has been written from outside it. */
  datatype System = System(instances: map<Id, Instance>, nextId: Id, active: set<Process>, holder: Option<Id>,
                           marker: Option<Id>, foreign: bool)

  /** `back` is the marker in the bytes that an action puts into the file. */
  datatype Action =
    | Open(process: Process)
    | RejectOpen(id: Id) | OpenClean(id: Id) | OpenDirty(id: Id)
    | LockForRecovery(id: Id) | RecoveryTimeout(id: Id) | Reread(id: Id)
    | Restore(id: Id, back: Option<Id>) | RestoreFails(id: Id) | EndRecovery(id: Id)
    | Check(id: Id) | Register(id: Id) | Lock(id: Id) | Timeout(id: Id) | GiveUp(id: Id)
    | Snapshot(id: Id) | Publish(id: Id) | BeginFails(id: Id)
    | InsideWrite(id: Id, back: Option<Id>) | OutsideWrite(id: Id, back: Option<Id>)
    | Commit(id: Id, written: bool) | Rollback(id: Id, back: Option<Id>) | Unregister(id: Id) | Release(id: Id)
    | Die(process: Process)

  function Initial(): System {
    System(map[], 0, {}, None, None, false)
  }

  ghost predicate At(s: System, id: Id, phase: Phase) {
    id in s.instances && s.instances[id].phase == phase
  }

  ghost predicate IsRestoring(s: System, id: Id) {
    id in s.instances && s.instances[id].phase.Restoring?
  }

  function Moved(s: System, id: Id, phase: Phase, snapshot: bool): System
    requires id in s.instances
  {
    s.(instances := s.instances[id := s.instances[id].(phase := phase, snapshot := snapshot)])
  }

  /** Leaving the active writers removes the entry of the whole process, whoever made it. */
  function Left(s: System, id: Id): System
    requires id in s.instances
  {
    s.(active := s.active - {s.instances[id].process})
  }

  /** A marker that some instance may have written. */
  predicate Known(s: System, back: Option<Id>) {
    back.Some? ==> back.value < s.nextId
  }

  /** A new instance, with the header it has read. */
  function OpenedBy(s: System, p: Process): System {
    var instance := Instance(p, ReadHeader(s.marker.Some?), false);
    s.(instances := s.instances[s.nextId := instance], nextId := s.nextId + 1)
  }

  ghost predicate Step(s: System, a: Action, t: System) {
    match a
    case Open(p) =>
      t == OpenedBy(s, p)
    case RejectOpen(i) =>
      At(s, i, ReadHeader(true)) && s.instances[i].process in s.active && t == s.(instances := s.instances - {i})
    case OpenClean(i) => At(s, i, ReadHeader(false)) && t == Moved(s, i, Idle, false)
    case OpenDirty(i) =>
      At(s, i, ReadHeader(true)) && s.instances[i].process !in s.active && t == Moved(s, i, AwaitingRecovery, false)
    case LockForRecovery(i) =>
      At(s, i, AwaitingRecovery) && s.holder.None? && t == Moved(s, i, Rereading, false).(holder := Some(i))
    case RecoveryTimeout(i) => At(s, i, AwaitingRecovery) && t == s.(instances := s.instances - {i})
    case Reread(i) =>
      At(s, i, Rereading) && t == Moved(s, i, if s.marker.Some? then Restoring(s.marker.value) else Recovered, false)
    case Restore(i, back) =>
      IsRestoring(s, i) && Known(s, back) && t == Moved(s, i, Recovered, false).(marker := back)
    case RestoreFails(i) => IsRestoring(s, i) && t == s.(instances := s.instances - {i}, holder := None)
    case EndRecovery(i) => At(s, i, Recovered) && t == Moved(s, i, Idle, false).(holder := None)
    case Check(i) => At(s, i, Idle) && s.instances[i].process !in s.active && t == Moved(s, i, Checked, false)
    case Register(i) =>
      At(s, i, Checked) && t == Moved(s, i, Registered, false).(active := s.active + {s.instances[i].process})
    case Lock(i) => At(s, i, Registered) && s.holder.None? && t == Moved(s, i, Locked, false).(holder := Some(i))
    case Timeout(i) => At(s, i, Registered) && t == Moved(s, i, TimedOut, false)
    case GiveUp(i) => At(s, i, TimedOut) && t == Left(Moved(s, i, Idle, false), i)
    case Snapshot(i) => At(s, i, Locked) && t == Moved(s, i, Snapshotted, true)
    case Publish(i) =>
      At(s, i, Snapshotted) && t == Moved(s, i, InTransaction, true).(marker := Some(i), foreign := false)
    case BeginFails(i) => (At(s, i, Locked) || At(s, i, Snapshotted)) && t == Moved(s, i, Finishing, false)
    case Commit(i, written) =>
      At(s, i, InTransaction) && t == Moved(s, i, Finishing, false).(marker := if written then None else s.marker)
    case Rollback(i, back) =>
      At(s, i, InTransaction) && Known(s, back) && t == Moved(s, i, Finishing, false).(marker := back)
    case InsideWrite(i, back) =>
      // The cached header holds the own marker unless a savepoint has read back another one.
      At(s, i, InTransaction) && Known(s, back) && (back == Some(i) || s.foreign) && t == s.(marker := back)
    case OutsideWrite(i, back) =>
      At(s, i, Idle) && Known(s, back) && t == s.(marker := back, foreign := s.foreign || back != s.marker)
    case Unregister(i) => At(s, i, Finishing) && t == Left(Moved(s, i, Unregistered, false), i)
    case Release(i) => At(s, i, Unregistered) && t == Moved(s, i, Idle, false).(holder := None)
    case Die(p) => t == Died(s, p)
  }

  /** The operating system frees the lock of a dead process. */
  function Died(s: System, p: Process): System {
    s.(instances := map i | i in s.instances && s.instances[i].process != p :: s.instances[i],
       active := s.active - {p},
       holder := if s.holder.Some? && IsOf(s, s.holder.value, p) then None else s.holder)
  }

  predicate IsOf(s: System, id: Id, p: Process) {
    id in s.instances && s.instances[id].process == p
  }

  /** `states` is a run taking `actions`. */
  ghost predicate Run(states: seq<System>, actions: seq<Action>) {
    && |states| == |actions| + 1
    && states[0] == Initial()
    && forall k :: 0 <= k < |actions| ==> Step(states[k], actions[k], states[k + 1])
  }

  // ---------------------------------------------------------------- the invariant

  predicate HoldsLock(phase: Phase) {
    || phase.Rereading? || phase.Restoring? || phase.Recovered?
    || phase.Locked? || phase.Snapshotted? || phase.InTransaction? || phase.Finishing? || phase.Unregistered?
  }

  predicate HasSnapshot(phase: Phase) {
    phase.Snapshotted? || phase.InTransaction?
  }

  ghost predicate Inv(s: System) {
    && (forall i :: i in s.instances ==> i < s.nextId)
    && (s.marker.Some? ==> s.marker.value < s.nextId)
    && (s.holder.Some? ==> s.holder.value in s.instances)
    && (forall i :: i in s.instances ==> (s.holder == Some(i) <==> HoldsLock(s.instances[i].phase)))
    && (forall i :: i in s.instances ==> (s.instances[i].snapshot <==> HasSnapshot(s.instances[i].phase)))
    && (forall i :: i in s.instances && s.instances[i].phase == InTransaction ==> s.foreign || s.marker == Some(i))
  }

  /** One instance moves on or writes: it may take a free lock, keep it or give it up. What it does to
      the marker is left open, except that publishing makes it its own. */
  ghost predicate LegalMove(s: System, t: System, i: Id, phase: Phase) {
    && i in s.instances && t.nextId == s.nextId
    && t.instances == Moved(s, i, phase, HasSnapshot(phase)).instances
    && t.holder == (if HoldsLock(phase) then Some(i) else if HoldsLock(s.instances[i].phase) then None else s.holder)
    && (!HoldsLock(s.instances[i].phase) && HoldsLock(phase) ==> s.holder.None?)
    && Known(s, t.marker)
    && (phase == InTransaction ==> t.foreign || t.marker == Some(i))
    && (s.foreign && !t.foreign ==> phase == InTransaction)
    && (!HoldsLock(s.instances[i].phase) ==> t.foreign || t.marker == s.marker)
  }

  ghost predicate Moves(a: Action) {
    !a.Open? && !a.Die? && !a.RejectOpen? && !a.RecoveryTimeout? && !a.RestoreFails?
  }

  lemma MoveIsLegal(s: System, a: Action, t: System)
    requires Inv(s) && Step(s, a, t) && Moves(a)
    ensures a.id in t.instances && LegalMove(s, t, a.id, t.instances[a.id].phase)
  {
    if a.OpenClean? || a.OpenDirty? || a.LockForRecovery? || a.Reread? || a.Restore? || a.EndRecovery? {
      OpeningIsLegal(s, a, t);
    } else if a.Check? || a.Register? || a.Lock? || a.Timeout? || a.GiveUp? {
      AcquiringIsLegal(s, a, t);
    } else if a.InsideWrite? || a.OutsideWrite? {
      HeaderWriteIsLegal(s, a, t);
    } else {
      WritingIsLegal(s, a, t);
    }
  }

  lemma HeaderWriteIsLegal(s: System, a: Action, t: System)
    requires Inv(s) && Step(s, a, t) && (a.InsideWrite? || a.OutsideWrite?)
    ensures a.id in t.instances && LegalMove(s, t, a.id, t.instances[a.id].phase)
  {
    var i := s.instances[a.id];
    assert s.holder == Some(a.id) <==> HoldsLock(i.phase);
    assert Moved(s, a.id, i.phase, HasSnapshot(i.phase)).instances == s.instances;
  }

  lemma OpeningIsLegal(s: System, a: Action, t: System)
    requires Inv(s) && Step(s, a, t)
    requires a.OpenClean? || a.OpenDirty? || a.LockForRecovery? || a.Reread? || a.Restore? || a.EndRecovery?
    ensures a.id in t.instances && LegalMove(s, t, a.id, t.instances[a.id].phase)
  {
    assert s.holder == Some(a.id) <==> HoldsLock(s.instances[a.id].phase);
  }

  lemma AcquiringIsLegal(s: System, a: Action, t: System)
    requires Inv(s) && Step(s, a, t)
    requires a.Check? || a.Register? || a.Lock? || a.Timeout? || a.GiveUp?
    ensures a.id in t.instances && LegalMove(s, t, a.id, t.instances[a.id].phase)
  {
    assert s.holder == Some(a.id) <==> HoldsLock(s.instances[a.id].phase);
  }

  lemma WritingIsLegal(s: System, a: Action, t: System)
    requires Inv(s) && Step(s, a, t)
    requires a.Snapshot? || a.Publish? || a.BeginFails? || a.Commit? || a.Rollback? || a.Unregister? || a.Release?
    ensures a.id in t.instances && LegalMove(s, t, a.id, t.instances[a.id].phase)
  {
    assert s.holder == Some(a.id) <==> HoldsLock(s.instances[a.id].phase);
  }

  lemma MoveKeepsInv(s: System, t: System, i: Id, phase: Phase)
    requires Inv(s) && LegalMove(s, t, i, phase)
    ensures Inv(t)
  {
    forall j | j in t.instances && j != i ensures t.instances[j] == s.instances[j] {
    }
  }

  lemma LeaveKeepsInv(s: System, t: System, i: Id)
    requires Inv(s) && i in s.instances
    requires t == s.(instances := s.instances - {i},
                     holder := if HoldsLock(s.instances[i].phase) then None else s.holder)
    ensures Inv(t)
  {
    forall j | j in t.instances ensures t.instances[j] == s.instances[j] {
    }
  }

  lemma DieKeepsInv(s: System, p: Process)
    requires Inv(s)
    ensures Inv(Died(s, p))
  {
    var t := Died(s, p);
    forall i | i in t.instances ensures i in s.instances && t.instances[i] == s.instances[i] {
    }
  }

  lemma OpenKeepsInv(s: System, p: Process)
    requires Inv(s)
    ensures Inv(OpenedBy(s, p))
  {
  }

  lemma StepKeepsInv(s: System, a: Action, t: System)
    requires Inv(s) && Step(s, a, t)
    ensures Inv(t)
  {
    if Moves(a) {
      MoverKeepsInv(s, a, t);
    } else if a.Open? {
      OpenKeepsInv(s, a.process);
    } else if a.Die? {
      DieKeepsInv(s, a.process);
    } else {
      LeaveKeepsInv(s, t, a.id);
    }
  }

  lemma MoverKeepsInv(s: System, a: Action, t: System)
    requires Inv(s) && Step(s, a, t) && Moves(a)
    ensures Inv(t)
  {
    MoveIsLegal(s, a, t);
    MoveKeepsInv(s, t, a.id, t.instances[a.id].phase);
  }

  lemma {:induction false} RunKeepsInv(states: seq<System>, actions: seq<Action>, k: nat)
    requires Run(states, actions) && k < |states|
    ensures Inv(states[k])
  {
    if k > 0 {
      RunKeepsInv(states, actions, k - 1);
      StepKeepsInv(states[k - 1], actions[k - 1], states[k]);
    }
  }

  // ---------------------------------------------------------------- what holds of every run

  /** At any moment at most one instance of all processes is in a transaction; it holds the lock and
      has its snapshot. */
  lemma AtMostOneTransaction(states: seq<System>, actions: seq<Action>, k: nat, i: Id, j: Id)
    requires Run(states, actions) && k < |states|
    requires At(states[k], i, InTransaction)
    ensures states[k].holder == Some(i) && states[k].instances[i].snapshot
    ensures At(states[k], j, InTransaction) ==> i == j
  {
    RunKeepsInv(states, actions, k);
  }

  /** Recovery restores only while no other instance holds the lock, so nobody is in a transaction and
      none is about to publish: the marker it undoes belongs to a dead or finished writer. */
  lemma RestoreDisturbsNobody(states: seq<System>, actions: seq<Action>, k: nat, i: Id, back: Option<Id>, j: Id)
    requires Run(states, actions) && k < |actions| && actions[k] == Restore(i, back)
    ensures j in states[k].instances && j != i ==> !HoldsLock(states[k].instances[j].phase)
    ensures !At(states[k], j, InTransaction)
  {
    RunKeepsInv(states, actions, k);
    assert Step(states[k], actions[k], states[k + 1]);
  }

  /** An instance at rest (after commit, rollback, close, a failed begin or a recovery) neither holds
      the lock nor a snapshot. */
  lemma RestHoldsNothing(states: seq<System>, actions: seq<Action>, k: nat, i: Id)
    requires Run(states, actions) && k < |states| && At(states[k], i, Idle)
    ensures states[k].holder != Some(i) && !states[k].instances[i].snapshot
  {
    RunKeepsInv(states, actions, k);
  }

  /** Only its own commit or rollback or the death of its process ends a transaction. */
  lemma TransactionEndsItself(states: seq<System>, actions: seq<Action>, k: nat, i: Id)
    requires Run(states, actions) && k < |actions| && At(states[k], i, InTransaction)
    ensures At(states[k + 1], i, InTransaction)
         || (exists written :: actions[k] == Commit(i, written)) || (exists back :: actions[k] == Rollback(i, back))
         || actions[k] == Die(states[k].instances[i].process)
  {
    RunKeepsInv(states, actions, k);
    assert Step(states[k], actions[k], states[k + 1]);
    if actions[k].Commit? && actions[k].id == i {
      assert actions[k] == Commit(i, actions[k].written);
    }
    if actions[k].Rollback? && actions[k].id == i {
      assert actions[k] == Rollback(i, actions[k].back);
    }
  }

  // ---------------------------------------------------------------- whose marker the file shows

  /** An outside header write that puts another marker than `i`'s. */
  predicate Spoils(a: Action, i: Id) {
    a.OutsideWrite? && a.back != Some(i)
  }

  ghost predicate InTransactionFrom(states: seq<System>, p: nat, k: nat, i: Id) {
    p < k < |states| && forall l :: p < l <= k ==> At(states[l], i, InTransaction)
  }

  /** From its publication on the file shows a transaction's own marker, exactly as long as nobody
      outside it writes a header without that marker. */
  lemma {:induction false} MarkerStaysIff(states: seq<System>, actions: seq<Action>, p: nat, k: nat, i: Id)
    requires Run(states, actions) && p < |actions| && actions[p] == Publish(i) && InTransactionFrom(states, p, k, i)
    ensures (forall l :: p < l <= k ==> states[l].marker == Some(i)) <==>
      (forall l :: p < l < k ==> !Spoils(actions[l], i))
  {
    if forall l :: p < l < k ==> !Spoils(actions[l], i) {
      forall l | p < l <= k ensures states[l].marker == Some(i) {
        MarkerStays(states, actions, p, l, i);
      }
    } else {
      var l :| p < l < k && Spoils(actions[l], i);
      assert Step(states[l], actions[l], states[l + 1]);
      assert states[l + 1].marker != Some(i);
    }
  }

  lemma {:induction false} MarkerStays(states: seq<System>, actions: seq<Action>, p: nat, k: nat, i: Id)
    requires Run(states, actions) && p < |actions| && actions[p] == Publish(i) && InTransactionFrom(states, p, k, i)
    requires forall l :: p < l < k ==> !Spoils(actions[l], i)
    ensures states[k].marker == Some(i) && !states[k].foreign
    decreases k
  {
    assert Step(states[k - 1], actions[k - 1], states[k]);
    RunKeepsInv(states, actions, k);
    if k > p + 1 {
      MarkerStays(states, actions, p, k - 1, i);
      RunKeepsInv(states, actions, k - 1);
      assert !Spoils(actions[k - 1], i);
    }
  }

  /** A SELECT of another instance on an empty table, in the midst of a transaction, can take the
      transaction's marker out of the file. */
  lemma OutsideReadErasesMarker() returns (states: seq<System>, actions: seq<Action>)
    ensures Run(states, actions)
    ensures var s := states[|states| - 1]; At(s, 0, InTransaction) && s.marker.None?
  {
    states, actions := BothIdle();
    MovedTwo(Idle, Idle, {}, None, None, Checked);
    states, actions := Extend(states, actions, Check(0), Two(Checked, Idle, {}, None, None));
    MovedTwo(Checked, Idle, {}, None, None, Registered);
    states, actions := Extend(states, actions, Register(0), Two(Registered, Idle, {7}, None, None));
    states, actions := FirstPublishes(states, actions, Idle);
    var last := Two(InTransaction, Idle, {7}, Some(0), Some(0));
    states, actions := Extend(states, actions, OutsideWrite(1, None), last.(marker := None, foreign := true));
  }

  // ---------------------------------------------------------------- when the registry is exact

  /** From joining the active writers to leaving them. */
  predicate Joined(phase: Phase) {
    || phase.Registered? || phase.TimedOut? || phase.Locked? || phase.Snapshotted? || phase.InTransaction?
    || phase.Finishing?
  }

  ghost predicate JoinedIn(s: System, i: Id, p: Process) {
    i in s.instances && s.instances[i].process == p && Joined(s.instances[i].phase)
  }

  /** The active writers are the processes of the joined instances, one of each. */
  ghost predicate RegistryExact(s: System) {
    && (forall i, p :: JoinedIn(s, i, p) ==> p in s.active)
    && (forall p :: p in s.active ==> exists i :: JoinedIn(s, i, p))
    && (forall i, j, p :: JoinedIn(s, i, p) && JoinedIn(s, j, p) ==> i == j)
  }

  /** Every join finds the process not yet active, as when checking and joining were one step. */
  ghost predicate ChecksHold(states: seq<System>, actions: seq<Action>) {
    |states| == |actions| + 1
    && forall k :: 0 <= k < |actions| ==> JoinsFreely(states[k], actions[k])
  }

  ghost predicate JoinsFreely(s: System, a: Action) {
    a.Register? && a.id in s.instances ==> s.instances[a.id].process !in s.active
  }

  ghost predicate Joins(s: System, a: Action, p: Process) {
    a.Register? && a.id in s.instances && s.instances[a.id].process == p
  }

  ghost predicate Leaves(s: System, a: Action, p: Process) {
    (a.GiveUp? || a.Unregister?) && a.id in s.instances && s.instances[a.id].process == p
  }

  lemma ActiveStep(s: System, a: Action, t: System, p: Process)
    requires Step(s, a, t)
    ensures p in t.active <==> Joins(s, a, p) || (p in s.active && !Leaves(s, a, p) && a != Die(p))
  {
  }

  /** A joined instance has just joined or was joined before, and has not just left. */
  lemma JoinedBefore(s: System, a: Action, t: System, i: Id, p: Process)
    requires Inv(s) && Step(s, a, t) && JoinedIn(t, i, p)
    ensures a != GiveUp(i) && a != Unregister(i) && a != Die(p)
    ensures JoinedIn(s, i, p) || (a == Register(i) && Joins(s, a, p))
  {
    if !(Moves(a) && a.id == i) {
      OthersStay(s, a, t, i);
    }
  }

  /** Only its own step, its process's death or its opening changes an instance. */
  lemma OthersStay(s: System, a: Action, t: System, i: Id)
    requires Inv(s) && Step(s, a, t) && !(Moves(a) && a.id == i)
    ensures i in t.instances ==> Unmoved(s, t, i) || t.instances[i].phase.ReadHeader?
    ensures i in s.instances ==> Unmoved(s, t, i) || a == Die(s.instances[i].process) || !Joined(s.instances[i].phase)
  {
    if Moves(a) {
      MoveIsLegal(s, a, t);
    }
  }

  ghost predicate Unmoved(s: System, t: System, i: Id) {
    i in s.instances && i in t.instances && t.instances[i] == s.instances[i]
  }

  /** It stays joined until it leaves or its process dies. */
  lemma JoinedAfter(s: System, a: Action, t: System, i: Id, p: Process)
    requires Inv(s) && Step(s, a, t) && a != GiveUp(i) && a != Unregister(i) && a != Die(p)
    requires JoinedIn(s, i, p) || (a == Register(i) && Joins(s, a, p))
    ensures JoinedIn(t, i, p)
  {
    if !(Moves(a) && a.id == i) {
      OthersStay(s, a, t, i);
    }
  }

  lemma RegistryStep(s: System, a: Action, t: System)
    requires Inv(s) && RegistryExact(s) && Step(s, a, t) && JoinsFreely(s, a)
    ensures RegistryExact(t)
  {
    forall i, p | JoinedIn(t, i, p) ensures p in t.active {
      StaysActive(s, a, t, i, p);
    }
    forall p | p in t.active ensures exists i :: JoinedIn(t, i, p) {
      HasJoined(s, a, t, p);
    }
    forall i, j, p | JoinedIn(t, i, p) && JoinedIn(t, j, p) ensures i == j {
      JoinedBefore(s, a, t, i, p);
      JoinedBefore(s, a, t, j, p);
    }
  }

  lemma StaysActive(s: System, a: Action, t: System, i: Id, p: Process)
    requires Inv(s) && RegistryExact(s) && Step(s, a, t) && JoinedIn(t, i, p)
    ensures p in t.active
  {
    JoinedBefore(s, a, t, i, p);
    ActiveStep(s, a, t, p);
    assert Leaves(s, a, p) ==> JoinedIn(s, a.id, p);
  }

  lemma HasJoined(s: System, a: Action, t: System, p: Process)
    requires Inv(s) && RegistryExact(s) && Step(s, a, t) && p in t.active
    ensures exists i :: JoinedIn(t, i, p)
  {
    ActiveStep(s, a, t, p);
    if Joins(s, a, p) {
      JoinedAfter(s, a, t, a.id, p);
    } else {
      var i :| JoinedIn(s, i, p);
      JoinedAfter(s, a, t, i, p);
    }
  }

  /** With such joins the registry is exact in every reachable state. */
  lemma {:induction false} CheckedJoinsAreExact(states: seq<System>, actions: seq<Action>, k: nat)
    requires Run(states, actions) && ChecksHold(states, actions) && k < |states|
    ensures RegistryExact(states[k])
  {
    if k > 0 {
      CheckedJoinsAreExact(states, actions, k - 1);
      RunKeepsInv(states, actions, k - 1);
      assert JoinsFreely(states[k - 1], actions[k - 1]);
      RegistryStep(states[k - 1], actions[k - 1], states[k]);
    }
  }

  // ---------------------------------------------------------------- and when it misses a writer

  ghost predicate JoinsAt(states: seq<System>, actions: seq<Action>, k: nat, p: Process) {
    k < |actions| && k < |states| && Joins(states[k], actions[k], p)
  }

  ghost predicate LeavesAt(states: seq<System>, actions: seq<Action>, k: nat, p: Process) {
    k < |actions| && k < |states| && Leaves(states[k], actions[k], p)
  }

  /** `r` is the last join of the process before step `k`. */
  ghost predicate LastJoin(states: seq<System>, actions: seq<Action>, k: nat, p: Process, r: nat) {
    r < k && JoinsAt(states, actions, r, p) && forall x: nat :: r < x < k ==> !JoinsAt(states, actions, x, p)
  }

  /** The process has joined at step `r` and neither left nor died since. */
  ghost predicate StaysFrom(states: seq<System>, actions: seq<Action>, k: nat, p: Process, r: nat) {
    r < k <= |actions| && JoinsAt(states, actions, r, p)
    && forall l: nat :: r < l < k ==> !LeavesAt(states, actions, l, p) && actions[l] != Die(p)
  }

  ghost predicate HasStayed(states: seq<System>, actions: seq<Action>, k: nat, p: Process) {
    exists r: nat :: StaysFrom(states, actions, k, p, r)
  }

  lemma StaysStep(states: seq<System>, actions: seq<Action>, k: nat, p: Process)
    requires k < |actions| && |states| == |actions| + 1
    ensures HasStayed(states, actions, k + 1, p) <==>
      JoinsAt(states, actions, k, p)
      || (HasStayed(states, actions, k, p) && !LeavesAt(states, actions, k, p) && actions[k] != Die(p))
  {
    if JoinsAt(states, actions, k, p) {
      assert StaysFrom(states, actions, k + 1, p, k);
    } else if HasStayed(states, actions, k + 1, p) {
      var r: nat :| StaysFrom(states, actions, k + 1, p, r);
      assert StaysFrom(states, actions, k, p, r);
    } else if r: nat :| StaysFrom(states, actions, k, p, r) {
      assert LeavesAt(states, actions, k, p) || actions[k] == Die(p) || StaysFrom(states, actions, k + 1, p, r);
    }
  }

  /** A process is active exactly if it has joined and neither left nor died since. */
  lemma {:induction false} ActiveIff(states: seq<System>, actions: seq<Action>, k: nat, p: Process)
    requires Run(states, actions) && k < |states|
    ensures p in states[k].active <==> HasStayed(states, actions, k, p)
  {
    if k > 0 {
      ActiveIff(states, actions, k - 1, p);
      assert Step(states[k - 1], actions[k - 1], states[k]);
      ActiveStep(states[k - 1], actions[k - 1], states[k], p);
      StaysStep(states, actions, k - 1, p);
    }
  }

  /** An instance of `p` that is joined has joined at some step and, since then, neither left nor
      seen its process die. */
  lemma {:induction false} JoinedSince(states: seq<System>, actions: seq<Action>, k: nat, i: Id, p: Process)
    returns (r: nat)
    requires Run(states, actions) && k < |states| && JoinedIn(states[k], i, p)
    ensures r < k && JoinsAt(states, actions, r, p)
    ensures forall l :: r < l < k ==> actions[l] != GiveUp(i) && actions[l] != Unregister(i) && actions[l] != Die(p)
  {
    assert k > 0;
    var s, a, t := states[k - 1], actions[k - 1], states[k];
    RunKeepsInv(states, actions, k - 1);
    assert Step(s, a, t);
    JoinedBefore(s, a, t, i, p);
    if a == Register(i) {
      r := k - 1;
    } else {
      r := JoinedSince(states, actions, k - 1, i, p);
    }
  }

  /** The process of a live transaction is missing from the active writers exactly if, since the last
      join of that process, another of its instances has given up or unregistered. */
  lemma RegistryMissesIff(states: seq<System>, actions: seq<Action>, k: nat, i: Id, p: Process)
    requires Run(states, actions) && k < |states| && At(states[k], i, InTransaction)
    requires p == states[k].instances[i].process
    ensures p !in states[k].active <==>
      exists r: nat, l: nat :: LastJoin(states, actions, k, p, r) && r < l < k
                            && LeavesAt(states, actions, l, p) && actions[l].id != i
  {
    ActiveIff(states, actions, k, p);
    var own := JoinedSince(states, actions, k, i, p);
    var last := LastOf(states, actions, k, p, own);
    if p !in states[k].active {
      assert !StaysFrom(states, actions, k, p, last);
      var l: nat :| last < l < k && (LeavesAt(states, actions, l, p) || actions[l] == Die(p));
      assert LastJoin(states, actions, k, p, last) && LeavesAt(states, actions, l, p) && actions[l].id != i;
    }
    if r: nat, l: nat :| LastJoin(states, actions, k, p, r) && r < l < k && LeavesAt(states, actions, l, p) {
      forall q: nat | q < k && JoinsAt(states, actions, q, p) ensures !StaysFrom(states, actions, k, p, q) {
        assert q <= r < l;
      }
    }
  }

  lemma {:induction false} LastOf(states: seq<System>, actions: seq<Action>, k: nat, p: Process, r: nat)
    returns (last: nat)
    requires r < k && JoinsAt(states, actions, r, p)
    ensures r <= last && LastJoin(states, actions, k, p, last)
    decreases k - r
  {
    if x: nat :| r < x < k && JoinsAt(states, actions, x, p) {
      last := LastOf(states, actions, k, p, x);
    } else {
      last := r;
    }
  }

  // ---------------------------------------------------------------- what the registry alone does not give

  /** Because checking and joining are separate steps, the set of active writers does not by itself
      keep a second writer of the same process out, and its entry can vanish under a live one: here
      instance 0 is in a transaction while its process counts as having no active writer. The lock is
      what keeps transactions apart. */
  lemma RegistryCanMissLiveWriter() returns (states: seq<System>, actions: seq<Action>)
    ensures Run(states, actions)
    ensures var s := states[|states| - 1]; At(s, 0, InTransaction) && s.instances[0].process !in s.active
  {
    states, actions := FirstInTransaction();
    states, actions := SecondMoves(states, actions, Timeout(1), TimedOut, {7});
    states, actions := SecondMoves(states, actions, GiveUp(1), Idle, {});
  }

  /** Two instances of process 7. */
  function Two(first: Phase, second: Phase, active: set<Process>, holder: Option<Id>, marker: Option<Id>): System {
    var instances := map[0 := Instance(7, first, HasSnapshot(first)), 1 := Instance(7, second, HasSnapshot(second))];
    System(instances, 2, active, holder, marker, false)
  }

  lemma MovedTwo(first: Phase, second: Phase, active: set<Process>, holder: Option<Id>, marker: Option<Id>, next: Phase)
    ensures Moved(Two(first, second, active, holder, marker), 0, next, HasSnapshot(next))
         == Two(next, second, active, holder, marker)
    ensures Moved(Two(first, second, active, holder, marker), 1, next, HasSnapshot(next))
         == Two(first, next, active, holder, marker)
  {
    var s := Two(first, second, active, holder, marker);
    var moved := Instance(7, next, HasSnapshot(next));
    assert s.instances[0 := moved] == Two(next, second, active, holder, marker).instances;
    assert s.instances[1 := moved] == Two(first, next, active, holder, marker).instances;
  }

  ghost predicate EndsIn(states: seq<System>, actions: seq<Action>, first: Phase, second: Phase, active: set<Process>,
                         holder: Option<Id>, marker: Option<Id>)
  {
    Run(states, actions) && states[|states| - 1] == Two(first, second, active, holder, marker)
  }

  lemma SecondMoves(states: seq<System>, actions: seq<Action>, a: Action, next: Phase, active: set<Process>)
    returns (states': seq<System>, actions': seq<Action>)
    requires (a == Timeout(1) && next == TimedOut && active == {7}) || (a == GiveUp(1) && next == Idle && active == {})
    requires var second := if a.GiveUp? then TimedOut else Registered;
      EndsIn(states, actions, InTransaction, second, {7}, Some(0), Some(0))
    ensures EndsIn(states', actions', InTransaction, next, active, Some(0), Some(0))
  {
    MovedTwo(InTransaction, if a.GiveUp? then TimedOut else Registered, {7}, Some(0), Some(0), next);
    states', actions' := Extend(states, actions, a, Two(InTransaction, next, active, Some(0), Some(0)));
  }

  lemma FirstInTransaction() returns (states: seq<System>, actions: seq<Action>)
    ensures EndsIn(states, actions, InTransaction, Registered, {7}, Some(0), Some(0))
  {
    states, actions := BothRegistered();
    states, actions := FirstPublishes(states, actions, Registered);
  }

  lemma FirstPublishes(before: seq<System>, taken: seq<Action>, second: Phase)
    returns (states: seq<System>, actions: seq<Action>)
    requires (second == Registered || second == Idle) && EndsIn(before, taken, Registered, second, {7}, None, None)
    ensures EndsIn(states, actions, InTransaction, second, {7}, Some(0), Some(0))
  {
    MovedTwo(Registered, second, {7}, None, None, Locked);
    states, actions := Extend(before, taken, Lock(0), Two(Locked, second, {7}, Some(0), None));
    MovedTwo(Locked, second, {7}, Some(0), None, Snapshotted);
    states, actions := Extend(states, actions, Snapshot(0), Two(Snapshotted, second, {7}, Some(0), None));
    MovedTwo(Snapshotted, second, {7}, Some(0), None, InTransaction);
    states, actions := Extend(states, actions, Publish(0), Two(InTransaction, second, {7}, Some(0), Some(0)));
  }

  /** Both check before either joins. */
  lemma BothRegistered() returns (states: seq<System>, actions: seq<Action>)
    ensures EndsIn(states, actions, Registered, Registered, {7}, None, None)
  {
    states, actions := BothIdle();
    MovedTwo(Idle, Idle, {}, None, None, Checked);
    states, actions := Extend(states, actions, Check(0), Two(Checked, Idle, {}, None, None));
    MovedTwo(Checked, Idle, {}, None, None, Checked);
    states, actions := Extend(states, actions, Check(1), Two(Checked, Checked, {}, None, None));
    MovedTwo(Checked, Checked, {}, None, None, Registered);
    states, actions := Extend(states, actions, Register(0), Two(Registered, Checked, {7}, None, None));
    MovedTwo(Registered, Checked, {7}, None, None, Registered);
    states, actions := Extend(states, actions, Register(1), Two(Registered, Registered, {7}, None, None));
  }

  lemma BothIdle() returns (states: seq<System>, actions: seq<Action>)
    ensures EndsIn(states, actions, Idle, Idle, {}, None, None)
  {
    var opening := ReadHeader(false);
    var one := System(map[0 := Instance(7, opening, false)], 1, {}, None, None, false);
    states, actions := [Initial()], [];
    states, actions := Extend(states, actions, Open(7), one);
    assert one.instances[1 := Instance(7, opening, false)] == Two(opening, opening, {}, None, None).instances;
    states, actions := Extend(states, actions, Open(7), Two(opening, opening, {}, None, None));
    MovedTwo(opening, opening, {}, None, None, Idle);
    states, actions := Extend(states, actions, OpenClean(0), Two(Idle, opening, {}, None, None));
    MovedTwo(Idle, opening, {}, None, None, Idle);
    states, actions := Extend(states, actions, OpenClean(1), Two(Idle, Idle, {}, None, None));
  }

  lemma Extend(states: seq<System>, actions: seq<Action>, a: Action, t: System)
    returns (states': seq<System>, actions': seq<Action>)
    requires Run(states, actions) && Step(states[|states| - 1], a, t)
    ensures Run(states', actions') && states'[|states'| - 1] == t
  {
    states', actions' := states + [t], actions + [a];
    forall k | 0 <= k < |actions'| ensures Step(states'[k], actions'[k], states'[k + 1]) {
      if k < |actions| {
        assert states'[k] == states[k] && states'[k + 1] == states[k + 1] && actions'[k] == actions[k];
      }
    }
  }
}
