/** The hand-off of accepted sockets from the master thread to the worker threads, as a
    step relation with one step for every access to shared state. The accepted sockets
    are numbered in the order in which they are accepted. */
module HandOff {
  import opened Wrappers

  datatype Slot = Slot(sock: nat, inUse: nat)

  /** Where the master is. While it carries a socket, its first argument is the socket. */
  datatype Master =
    | Accepting
    | Polling
    | Testing(sock: nat)
    | Scanning(sock: nat, i: nat)
    | Locking(sock: nat, i: nat)
    | Rechecking(sock: nat, i: nat)
    | RecheckingStop(sock: nat, i: nat)
    | Storing(sock: nat, i: nat)
    | Filling(sock: nat, i: nat)
    | Unlocking(sock: nat, i: nat)
    | Releasing(i: nat)
    | Signalling(i: nat)
    | Closing(sock: nat)
    | SignallingStop(i: nat)
    | Joining(i: nat)
    | Done

  /** Where a worker is; `sp` is its copy of the slot. */
  datatype Worker =
    | Starting
    | Entering
    | Marking
    | Marked
    | Waiting
    | Woken
    | Copying
    | Copied(sp: Slot)
    | StopUnlocking(sp: Slot)
    | StopChecking(sp: Slot)
    | GoUnlocking(sp: Slot)
    | GoChecking(sp: Slot)
    | Processing(sock: nat)
    | MustNotReachHere
    | Exited

  datatype Owner = MasterOwner | WorkerOwner(i: nat)

  datatype State = State(
    master: Master,
    workers: seq<Worker>,
    slots: seq<Slot>,
    events: seq<nat>,
    mutex: Option<Owner>,
    stop: nat,
    accepted: nat,
    delivered: seq<nat>,
    closed: seq<nat>)
  {
    predicate Shaped() {
      |workers| == |slots| == |events|
    }
  }

  /* ---- Steps ---- */

  predicate Init(s: State) {
    && s.Shaped() && s.master == Accepting && s.mutex == None && s.stop == 0
    && s.accepted == 0 && s.delivered == [] && s.closed == []
    && (forall i :: 0 <= i < |s.workers| ==> s.workers[i] == Starting)
    && (forall i :: 0 <= i < |s.slots| ==> s.slots[i].inUse == 0)
    && (forall i :: 0 <= i < |s.events| ==> s.events[i] == 0)
  }

  /** The master's next step, if it can take one. */
  function MasterNext(s: State): Option<State>
    requires s.Shaped()
  {
    var n := |s.workers|;
    match s.master
    case Accepting => Some(s.(master := if s.stop == 0 then Polling else SignallingStop(0)))
    case Polling => Some(s.(master := Testing(s.accepted), accepted := s.accepted + 1))
    case Testing(k) => Some(s.(master := if s.stop == 0 then Scanning(k, 0) else Closing(k)))
    case Scanning(k, i) =>
      Some(s.(master :=
        if i >= n then Testing(k) else if s.slots[i].inUse == 2 then Locking(k, i) else Scanning(k, i + 1)))
    case Locking(k, i) =>
      if s.mutex == None then Some(s.(master := Rechecking(k, i), mutex := Some(MasterOwner))) else None
    case Rechecking(k, i) =>
      if i >= n then None
      else Some(s.(master := if s.slots[i].inUse == 2 then RecheckingStop(k, i) else Unlocking(k, i)))
    case RecheckingStop(k, i) => Some(s.(master := if s.stop == 0 then Storing(k, i) else Unlocking(k, i)))
    case Storing(k, i) =>
      if i < n then Some(s.(master := Filling(k, i), slots := s.slots[i := Slot(k, 0)])) else None
    case Filling(k, i) =>
      if i < n then Some(s.(master := Releasing(i), slots := s.slots[i := s.slots[i].(inUse := 1)])) else None
    case Unlocking(k, i) => Some(s.(master := Scanning(k, i + 1), mutex := None))
    case Releasing(i) => Some(s.(master := Signalling(i), mutex := None))
    case Signalling(i) =>
      if i < n then Some(s.(master := Accepting, events := s.events[i := s.events[i] + 1])) else None
    case Closing(k) => Some(s.(master := Accepting, closed := s.closed + [k]))
    case SignallingStop(i) =>
      if i < n then Some(s.(master := SignallingStop(i + 1), events := s.events[i := s.events[i] + 1]))
      else Some(s.(master := Joining(0)))
    case Joining(i) =>
      if i >= n then Some(s.(master := Done, stop := 2))
      else if s.workers[i] == Exited then Some(s.(master := Joining(i + 1)))
      else None
    case Done => None
  }

  /** Polling may also find nothing to accept. */
  predicate MasterStep(s: State, t: State)
    requires s.Shaped()
  {
    MasterNext(s) == Some(t) || (s.master == Polling && t == s.(master := Accepting))
  }

  /** A worker's next step, if it can take one. */
  function WorkerNext(s: State, i: nat): Option<State>
    requires s.Shaped() && i < |s.workers|
  {
    var ws := s.workers;
    match ws[i]
    case Starting => Some(s.(workers := ws[i := Entering]))
    case Entering =>
      if s.mutex == None then Some(s.(workers := ws[i := Marking], mutex := Some(WorkerOwner(i)))) else None
    case Marking => Some(s.(workers := ws[i := Marked], slots := s.slots[i := s.slots[i].(inUse := 2)]))
    case Marked => Some(s.(workers := ws[i := Waiting], mutex := None))
    case Waiting =>
      if s.events[i] > 0 then Some(s.(workers := ws[i := Woken], events := s.events[i := 0])) else None
    case Woken =>
      if s.mutex == None then Some(s.(workers := ws[i := Copying], mutex := Some(WorkerOwner(i)))) else None
    case Copying => Some(s.(workers := ws[i := Copied(s.slots[i])]))
    case Copied(sp) => Some(s.(workers := ws[i := if s.stop != 0 then StopUnlocking(sp) else GoUnlocking(sp)]))
    case StopUnlocking(sp) => Some(s.(workers := ws[i := StopChecking(sp)], mutex := None))
    case StopChecking(sp) =>
      Some(s.(workers := ws[i := Exited], closed := if sp.inUse == 1 then s.closed + [sp.sock] else s.closed))
    case GoUnlocking(sp) => Some(s.(workers := ws[i := GoChecking(sp)], mutex := None))
    case GoChecking(sp) =>
      if sp.inUse == 1 then Some(s.(workers := ws[i := Processing(sp.sock)], delivered := s.delivered + [sp.sock]))
      else Some(s.(workers := ws[i := MustNotReachHere]))
    case Processing(k) => Some(s.(workers := ws[i := Entering]))
    case MustNotReachHere => Some(s.(workers := ws[i := Exited]))
    case Exited => None
  }

  /** A worker that cannot get its memory or its mutex leaves at once. */
  predicate WorkerStep(s: State, t: State, i: nat)
    requires s.Shaped() && i < |s.workers|
  {
    WorkerNext(s, i) == Some(t) || (s.workers[i] == Starting && t == s.(workers := s.workers[i := Exited]))
  }

  /** Some thread calls `mg_stop`. */
  predicate StopStep(s: State, t: State) {
    s.stop == 0 && t == s.(stop := 1)
  }

  datatype Thread = MasterThread | WorkerThread(i: nat) | StopThread

  predicate Step(s: State, t: State, who: Thread)
    requires s.Shaped()
  {
    match who
    case MasterThread => MasterStep(s, t)
    case WorkerThread(i) => i < |s.workers| && WorkerStep(s, t, i)
    case StopThread => StopStep(s, t)
  }

  /* ---- The invariant ---- */

  /** How far the master is in filling slot `i`. */
  datatype Stage = Away | Found | Cleared | Filled

  function StageOf(m: Master, i: nat): Stage {
    match m
    case RecheckingStop(_, j) => if i == j then Found else Away
    case Storing(_, j) => if i == j then Found else Away
    case Filling(_, j) => if i == j then Cleared else Away
    case Releasing(j) => if i == j then Filled else Away
    case Signalling(j) => if i == j then Filled else Away
    case _ => Away
  }

  /** The master has already signalled the stop to worker `i`. */
  predicate Signalled(m: Master, i: nat) {
    match m
    case SignallingStop(j) => i < j
    case Joining(_) => true
    case Done => true
    case _ => false
  }

  predicate WorkerHasMutex(w: Worker) {
    w.Marking? || w.Marked? || w.Copying? || w.Copied? || w.StopUnlocking? || w.GoUnlocking?
  }

  predicate MasterHasMutex(m: Master) {
    m.Rechecking? || m.RecheckingStop? || m.Storing? || m.Filling? || m.Unlocking? || m.Releasing?
  }

  /** What is known about one worker, its slot and its event. */
  predicate WorkerOk(w: Worker, slot: Slot, event: nat, stop: nat, signalled: bool, stage: Stage) {
    && (signalled ==> stop != 0 && stage == Away)
    && (stage != Away ==>
      w == Waiting && event == 0 && slot.inUse == (if stage == Found then 2 else if stage == Cleared then 0 else 1))
    && (event > 0 ==> signalled || (w == Waiting && slot.inUse == 1))
    && (signalled ==>
      event > 0 || w.Woken? || w.Copying? || w.Copied? || w.StopUnlocking? || w.StopChecking? || w.Exited?)
    && match w
       case Starting => slot.inUse == 0
       case Entering => slot.inUse != 2
       case Marking => slot.inUse != 2
       case Marked => slot.inUse == 2
       case Waiting => stage == Away ==> slot.inUse == 2 || (slot.inUse == 1 && event > 0)
       case Woken => slot.inUse == 1 || (slot.inUse == 2 && signalled)
       case Copying => slot.inUse == 1 || (slot.inUse == 2 && signalled)
       case Copied(sp) => sp == slot && (slot.inUse == 1 || (slot.inUse == 2 && signalled))
       case StopUnlocking(sp) => stop != 0 && sp == slot && (slot.inUse == 1 || (slot.inUse == 2 && signalled))
       case StopChecking(sp) => stop != 0 && sp == slot && (slot.inUse == 1 || (slot.inUse == 2 && signalled))
       case GoUnlocking(sp) => sp == slot && slot.inUse == 1
       case GoChecking(sp) => sp == slot && slot.inUse == 1
       case Processing(k) => slot == Slot(k, 1)
       case MustNotReachHere => false
       case Exited => slot.inUse != 2 || signalled
  }

  predicate WorkerOkAt(s: State, i: nat)
    requires s.Shaped() && i < |s.workers|
  {
    WorkerOk(s.workers[i], s.slots[i], s.events[i], s.stop, Signalled(s.master, i), StageOf(s.master, i))
  }

  predicate MasterOk(s: State) {
    match s.master
    case Locking(_, i) => i < |s.workers|
    case Rechecking(_, i) => i < |s.workers|
    case RecheckingStop(_, i) => i < |s.workers|
    case Storing(_, i) => i < |s.workers|
    case Filling(k, i) => i < |s.workers| && i < |s.slots| && s.slots[i].sock == k
    case Unlocking(_, i) => i < |s.workers|
    case Releasing(i) => i < |s.workers|
    case Signalling(i) => i < |s.workers|
    case SignallingStop(_) => s.stop != 0
    case Joining(j) => s.stop != 0 && j <= |s.workers| && forall i :: 0 <= i < j ==> s.workers[i] == Exited
    case Done => s.stop != 0 && forall i :: 0 <= i < |s.workers| ==> s.workers[i] == Exited
    case _ => true
  }

  predicate MutexOk(s: State) {
    && (s.mutex == Some(MasterOwner) <==> MasterHasMutex(s.master))
    && (forall i :: 0 <= i < |s.workers| ==> (s.mutex == Some(WorkerOwner(i)) <==> WorkerHasMutex(s.workers[i])))
    && (s.mutex.Some? && s.mutex.value.WorkerOwner? ==> s.mutex.value.i < |s.workers|)
  }

  /** The socket in the master's hands. */
  function MasterCarries(m: Master): Option<nat> {
    match m
    case Testing(k) => Some(k)
    case Scanning(k, _) => Some(k)
    case Locking(k, _) => Some(k)
    case Rechecking(k, _) => Some(k)
    case RecheckingStop(k, _) => Some(k)
    case Storing(k, _) => Some(k)
    case Filling(k, _) => Some(k)
    case Unlocking(k, _) => Some(k)
    case Closing(k) => Some(k)
    case _ => None
  }

  function InUse(slot: Slot): Option<nat> {
    if slot.inUse == 1 then Some(slot.sock) else None
  }

  /** The socket on its way to one worker, in the slot or in the worker's copy of it. */
  function WorkerCarries(w: Worker, slot: Slot): Option<nat> {
    match w
    case Waiting => InUse(slot)
    case Woken => InUse(slot)
    case Copying => InUse(slot)
    case Copied(sp) => InUse(sp)
    case StopUnlocking(sp) => InUse(sp)
    case StopChecking(sp) => InUse(sp)
    case GoUnlocking(sp) => InUse(sp)
    case GoChecking(sp) => InUse(sp)
    case _ => None
  }

  function Is(place: Option<nat>, k: nat): nat {
    if place == Some(k) then 1 else 0
  }

  /** On its way to how many workers socket `k` is. */
  function OnTheWay(workers: seq<Worker>, slots: seq<Slot>, k: nat): nat
    requires |workers| == |slots|
  {
    if workers == [] then 0
    else
      var n := |workers| - 1;
      OnTheWay(workers[..n], slots[..n], k) + Is(WorkerCarries(workers[n], slots[n]), k)
  }

  /** How often socket `k` has been delivered to a worker or closed. */
  function History(s: State, k: nat): nat {
    multiset(s.delivered)[k] + multiset(s.closed)[k]
  }

  /** In how many places socket `k` is. */
  function Places(s: State, k: nat): nat
    requires s.Shaped()
  {
    Is(MasterCarries(s.master), k) + OnTheWay(s.workers, s.slots, k) + History(s, k)
  }

  /** Every accepted socket is in exactly one place. */
  ghost predicate Conserved(s: State)
    requires s.Shaped()
  {
    forall k: nat :: Places(s, k) == if k < s.accepted then 1 else 0
  }

  ghost predicate Inv(s: State) {
    && s.Shaped() && MasterOk(s) && MutexOk(s) && Conserved(s)
    && forall i :: 0 <= i < |s.workers| ==> WorkerOkAt(s, i)
  }

  lemma {:induction false} OnTheWayAt(workers: seq<Worker>, slots: seq<Slot>, i: nat, w: Worker, slot: Slot, k: nat)
    requires |workers| == |slots| && i < |workers|
    ensures OnTheWay(workers[i := w], slots[i := slot], k) + Is(WorkerCarries(workers[i], slots[i]), k) ==
      OnTheWay(workers, slots, k) + Is(WorkerCarries(w, slot), k)
  {
    hide WorkerCarries, Is;
    var n := |workers| - 1;
    if i < n {
      OnTheWayAt(workers[..n], slots[..n], i, w, slot, k);
      assert workers[i := w][..n] == workers[..n][i := w] && slots[i := slot][..n] == slots[..n][i := slot];
    } else {
      assert workers[i := w][..n] == workers[..n] && slots[i := slot][..n] == slots[..n];
    }
  }

  lemma {:induction false} NothingOnTheWay(workers: seq<Worker>, slots: seq<Slot>, k: nat)
    requires |workers| == |slots|
    requires forall i :: 0 <= i < |workers| ==> WorkerCarries(workers[i], slots[i]) == None
    ensures OnTheWay(workers, slots, k) == 0
  {
    if workers == [] {
    } else {
      NothingOnTheWay(workers[..|workers| - 1], slots[..|slots| - 1], k);
    }
  }

  lemma InitInv(s: State)
    requires Init(s)
    ensures Inv(s)
  {
    forall k: nat ensures Places(s, k) == 0 {
      NothingOnTheWay(s.workers, s.slots, k);
    }
  }

  lemma WorkerStepItself(s: State, t: State, i: nat)
    requires Inv(s) && i < |s.workers| && WorkerStep(s, t, i)
    ensures t.Shaped() && WorkerOkAt(t, i)
  {
    hide Conserved, MasterOk;
    assert WorkerOkAt(s, i);
  }

  lemma WorkerStepOthers(s: State, t: State, i: nat, k: nat)
    requires Inv(s) && i < |s.workers| && WorkerStep(s, t, i) && k < |s.workers| && k != i
    ensures t.Shaped() && WorkerOkAt(t, k)
  {
    hide Conserved, MasterOk;
    assert WorkerOkAt(s, k);
  }

  lemma WorkerStepWorkers(s: State, t: State, i: nat, k: nat)
    requires Inv(s) && i < |s.workers| && WorkerStep(s, t, i) && k < |s.workers|
    ensures t.Shaped() && WorkerOkAt(t, k)
  {
    hide *;
    if k == i {
      WorkerStepItself(s, t, i);
    } else {
      WorkerStepOthers(s, t, i, k);
    }
  }

  lemma WorkerStepMutex(s: State, t: State, i: nat)
    requires Inv(s) && i < |s.workers| && WorkerStep(s, t, i)
    ensures MutexOk(t)
  {
    hide Conserved, WorkerOk, MasterOk;
  }

  lemma WorkerStepMaster(s: State, t: State, i: nat)
    requires Inv(s) && i < |s.workers| && WorkerStep(s, t, i)
    ensures MasterOk(t)
  {
    hide Conserved, MutexOk;
    assert WorkerOkAt(s, i);
  }

  lemma WorkerStepShape(s: State, t: State, i: nat)
    requires s.Shaped() && i < |s.workers| && WorkerStep(s, t, i)
    ensures t.Shaped() && t.workers == s.workers[i := t.workers[i]] && t.slots == s.slots[i := t.slots[i]]
    ensures t.accepted == s.accepted && t.master == s.master
    ensures t.delivered == s.delivered || t.closed == s.closed
  {
  }

  lemma CountAppend(a: seq<nat>, x: nat, k: nat)
    ensures multiset(a + [x])[k] == multiset(a)[k] + Is(Some(x), k)
  {
  }

  /** The socket that a worker is about to enter in one of the histories. */
  function Entered(w: Worker): Option<nat> {
    match w
    case GoChecking(sp) => InUse(sp)
    case StopChecking(sp) => InUse(sp)
    case _ => None
  }

  lemma WorkerStepHistory(s: State, t: State, i: nat, k: nat)
    requires s.Shaped() && i < |s.workers| && WorkerStep(s, t, i)
    ensures History(t, k) == History(s, k) + Is(Entered(s.workers[i]), k)
  {
    match s.workers[i] {
      case GoChecking(sp) => CountAppend(s.delivered, sp.sock, k);
      case StopChecking(sp) => CountAppend(s.closed, sp.sock, k);
      case _ =>
    }
  }

  /** A worker's step moves its socket from the slot to the copy, and from the copy to
      exactly one of the histories. */
  lemma WorkerStepCarries(s: State, t: State, i: nat, k: nat)
    requires Inv(s) && i < |s.workers| && WorkerStep(s, t, i)
    ensures t.Shaped()
    ensures History(t, k) + Is(WorkerCarries(t.workers[i], t.slots[i]), k) ==
      History(s, k) + Is(WorkerCarries(s.workers[i], s.slots[i]), k)
  {
    hide Conserved, MutexOk, MasterOk, History, Signalled, StageOf;
    assert WorkerOkAt(s, i);
    WorkerStepHistory(s, t, i, k);
  }

  lemma WorkerStepInv(s: State, t: State, i: nat)
    requires Inv(s) && i < |s.workers| && WorkerStep(s, t, i)
    ensures Inv(t)
  {
    hide WorkerStep, WorkerOkAt, MutexOk, MasterOk, OnTheWay, WorkerCarries, History, Is;
    WorkerStepMutex(s, t, i);
    WorkerStepMaster(s, t, i);
    forall k: nat ensures t.Shaped() && Places(t, k) == if k < t.accepted then 1 else 0 {
      WorkerStepShape(s, t, i);
      WorkerStepCarries(s, t, i, k);
      OnTheWayAt(s.workers, s.slots, i, t.workers[i], t.slots[i], k);
      assert Places(s, k) == if k < s.accepted then 1 else 0;
    }
    WorkerStepShape(s, t, i);
    forall k | 0 <= k < |t.workers| ensures WorkerOkAt(t, k) {
      WorkerStepWorkers(s, t, i, k);
    }
  }

  lemma MasterStepWorkers(s: State, t: State, k: nat)
    requires Inv(s) && MasterStep(s, t) && k < |s.workers|
    ensures t.Shaped() && WorkerOkAt(t, k)
  {
    hide Conserved;
    assert WorkerOkAt(s, k);
    assert s.master.Joining? && s.master.i < |s.workers| ==> WorkerOkAt(s, s.master.i);
  }

  lemma MasterStepMutex(s: State, t: State)
    requires Inv(s) && MasterStep(s, t)
    ensures MutexOk(t) && MasterOk(t)
  {
    hide Conserved, WorkerOk;
  }

  /** The master fills the slot of a worker. */
  predicate FillsSlot(s: State) {
    (s.master.Storing? || s.master.Filling?) && s.master.i < |s.workers|
  }

  lemma MasterStepFills(s: State, t: State, k: nat)
    requires Inv(s) && MasterStep(s, t) && FillsSlot(s)
    ensures t.Shaped() && t.workers == s.workers && t.accepted == s.accepted
    ensures
      var i := s.master.i;
      && t.slots == s.slots[i := t.slots[i]]
      && Is(MasterCarries(t.master), k) + Is(WorkerCarries(t.workers[i], t.slots[i]), k) + History(t, k) ==
        Is(MasterCarries(s.master), k) + Is(WorkerCarries(s.workers[i], s.slots[i]), k) + History(s, k)
  {
    hide Conserved, MutexOk, OnTheWay;
    assert WorkerOkAt(s, s.master.i);
  }

  lemma MasterStepShape(s: State, t: State)
    requires s.Shaped() && MasterStep(s, t) && !FillsSlot(s)
    ensures t.Shaped() && t.workers == s.workers && t.slots == s.slots
  {
  }

  lemma MasterStepMoves(s: State, t: State, k: nat)
    requires s.Shaped() && MasterStep(s, t) && !FillsSlot(s)
    ensures
      var accepts := if s.master.Polling? && t.master.Testing? && k == s.accepted then 1 else 0;
      && (k < t.accepted <==> k < s.accepted || accepts == 1) && (accepts == 1 ==> k >= s.accepted)
      && Is(MasterCarries(t.master), k) + History(t, k) ==
        Is(MasterCarries(s.master), k) + History(s, k) + accepts
  {
    match s.master
    case Closing(sock) => CountAppend(s.closed, sock, k);
    case _ =>
  }

  /** The master's step takes a new socket, moves its socket into the slot it fills, or
      closes it. */
  lemma MasterStepCarries(s: State, t: State, k: nat)
    requires Inv(s) && MasterStep(s, t)
    ensures t.Shaped() && t.workers == s.workers
    ensures
      var accepts := if s.master.Polling? && t.master.Testing? && k == s.accepted then 1 else 0;
      && (k < t.accepted <==> k < s.accepted || accepts == 1) && (accepts == 1 ==> k >= s.accepted)
      && if (s.master.Storing? || s.master.Filling?) && s.master.i < |s.workers| then
           var i := s.master.i;
           && t.slots == s.slots[i := t.slots[i]]
           && Is(MasterCarries(t.master), k) + Is(WorkerCarries(t.workers[i], t.slots[i]), k) + History(t, k) ==
             Is(MasterCarries(s.master), k) + Is(WorkerCarries(s.workers[i], s.slots[i]), k) + History(s, k)
         else
           && t.slots == s.slots
           && Is(MasterCarries(t.master), k) + History(t, k) ==
             Is(MasterCarries(s.master), k) + History(s, k) + accepts
  {
    assert s.Shaped();
    hide Inv, MasterStep, Is, MasterCarries, WorkerCarries, History;
    if FillsSlot(s) {
      MasterStepFills(s, t, k);
    } else {
      MasterStepShape(s, t);
      MasterStepMoves(s, t, k);
    }
  }

  lemma MasterStepPlaces(s: State, t: State, k: nat)
    requires Inv(s) && MasterStep(s, t)
    ensures t.Shaped() && Places(t, k) == if k < t.accepted then 1 else 0
  {
    hide MasterStep, MutexOk, MasterOk, OnTheWay, WorkerCarries, MasterCarries, Is, History, WorkerOkAt;
    MasterStepCarries(s, t, k);
    assert Places(s, k) == if k < s.accepted then 1 else 0;
    if (s.master.Storing? || s.master.Filling?) && s.master.i < |s.workers| {
      var i := s.master.i;
      OnTheWayAt(s.workers, s.slots, i, t.workers[i], t.slots[i], k);
      assert t.workers == s.workers[i := t.workers[i]];
    }
  }

  lemma MasterStepInv(s: State, t: State)
    requires Inv(s) && MasterStep(s, t)
    ensures Inv(t)
  {
    hide MasterStep, MutexOk, MasterOk, Places, WorkerOkAt;
    MasterStepMutex(s, t);
    forall k: nat ensures t.Shaped() && Places(t, k) == if k < t.accepted then 1 else 0 {
      MasterStepPlaces(s, t, k);
    }
    MasterStepPlaces(s, t, 0);
    MasterStepCarries(s, t, 0);
    forall k | 0 <= k < |t.workers| ensures WorkerOkAt(t, k) {
      MasterStepWorkers(s, t, k);
    }
  }

  lemma StepInv(s: State, t: State, who: Thread)
    requires Inv(s) && Step(s, t, who)
    ensures Inv(t)
  {
    match who
    case MasterThread => MasterStepInv(s, t);
    case WorkerThread(i) => WorkerStepInv(s, t, i);
    case StopThread =>
      forall k | 0 <= k < |t.workers| ensures WorkerOkAt(t, k) {
        assert WorkerOkAt(s, k);
      }
      forall k: nat ensures Places(t, k) == Places(s, k) {
      }
  }

  /* ---- Runs ---- */

  ghost predicate SomeStep(s: State, t: State) {
    s.Shaped() && exists who :: Step(s, t, who)
  }

  ghost predicate Run(run: seq<State>) {
    && |run| > 0 && Init(run[0])
    && forall n :: 0 < n < |run| ==> SomeStep(run[n - 1], run[n])
  }

  lemma {:induction false} RunInv(run: seq<State>, n: nat)
    requires Run(run) && n < |run|
    ensures Inv(run[n])
  {
    if n == 0 {
      InitInv(run[0]);
    } else {
      RunInv(run, n - 1);
      var who :| Step(run[n - 1], run[n], who);
      StepInv(run[n - 1], run[n], who);
    }
  }

  lemma StopStays(s: State, t: State, who: Thread)
    requires s.Shaped() && Step(s, t, who) && t.stop == 0
    ensures s.stop == 0
  {
  }

  lemma OpenStaysOpen(s: State, t: State, who: Thread)
    requires Inv(s) && Step(s, t, who) && s.closed == [] && !s.master.Closing?
    ensures t.stop == 0 ==> t.closed == [] && !t.master.Closing?
  {
    hide Conserved, MutexOk, MasterOk;
    if who.WorkerThread? {
      assert WorkerOkAt(s, who.i);
    }
  }

  /** Without a stop nothing is closed, and the master does not set about it. */
  lemma {:induction false} NothingClosed(run: seq<State>, n: nat)
    requires Run(run) && n < |run| && run[n].stop == 0
    ensures run[n].closed == [] && !run[n].master.Closing?
  {
    hide Inv, Step;
    if n == 0 {
    } else {
      RunInv(run, n - 1);
      assert SomeStep(run[n - 1], run[n]);
      var who :| Step(run[n - 1], run[n], who);
      StopStays(run[n - 1], run[n], who);
      NothingClosed(run, n - 1);
      OpenStaysOpen(run[n - 1], run[n], who);
    }
  }

  /** Under every interleaving no socket is delivered twice, closed twice, or delivered
      and closed, and no worker gets to the point it must not reach; none is closed before
      the stop flag is set; once the master is done, every socket it accepted has been
      delivered or closed. */
  lemma ExactlyOnce(run: seq<State>, n: nat, k: nat)
    requires Run(run) && n < |run|
    ensures multiset(run[n].delivered)[k] + multiset(run[n].closed)[k] <= 1
    ensures run[n].stop == 0 ==> run[n].closed == []
    ensures run[n].master == Done && k < run[n].accepted ==>
      multiset(run[n].delivered)[k] + multiset(run[n].closed)[k] == 1
    ensures MustNotReachHere !in run[n].workers
  {
    RunInv(run, n);
    var s := run[n];
    assert Places(s, k) == if k < s.accepted then 1 else 0;
    forall i | 0 <= i < |s.workers| ensures s.workers[i] != MustNotReachHere {
      assert WorkerOkAt(s, i);
    }
    if s.master == Done {
      NothingOnTheWay(s.workers, s.slots, k);
    }
    if s.stop == 0 {
      NothingClosed(run, n);
    }
  }

  /** A stopped master that carries a socket and is not about to fill a slot. */
  predicate GivesUp(s: State, k: nat) {
    s.stop != 0 && MasterCarries(s.master) == Some(k) && !s.master.Storing? && !s.master.Filling?
  }

  lemma StillGivesUp(s: State, t: State, who: Thread, k: nat)
    requires s.Shaped() && Step(s, t, who) && GivesUp(s, k)
    ensures GivesUp(t, k) || k in t.closed
  {
  }

  lemma StaysClosed(s: State, t: State, who: Thread, k: nat)
    requires s.Shaped() && Step(s, t, who) && k in s.closed
    ensures k in t.closed
  {
  }

  lemma {:induction false} CarriedIsClosed(run: seq<State>, m: nat, n: nat, k: nat)
    requires Run(run) && m <= n < |run| && GivesUp(run[m], k)
    ensures GivesUp(run[n], k) || k in run[n].closed
  {
    hide Step, GivesUp;
    if n == m {
    } else {
      CarriedIsClosed(run, m, n - 1, k);
      assert SomeStep(run[n - 1], run[n]);
      var who :| Step(run[n - 1], run[n], who);
      if GivesUp(run[n - 1], k) {
        StillGivesUp(run[n - 1], run[n], who, k);
      } else {
        StaysClosed(run[n - 1], run[n], who, k);
      }
    }
  }

  /** Once the stop flag is set, a socket that no slot is being filled with is not handed
      over any more: it is closed. */
  lemma NotAfterStop(run: seq<State>, m: nat, n: nat, k: nat)
    requires Run(run) && m <= n < |run| && GivesUp(run[m], k)
    ensures k !in run[n].delivered && (run[n].master == Done ==> k in run[n].closed)
  {
    CarriedIsClosed(run, m, n, k);
    RunInv(run, n);
    assert Places(run[n], k) <= 1;
  }

  predicate Serving(s: State, i: nat) {
    i < |s.workers| && s.workers[i] != Starting && s.workers[i] != Exited
  }

  lemma KeepsServing(s: State, t: State, who: Thread, i: nat)
    requires Inv(s) && Step(s, t, who) && t.stop == 0 && Serving(s, i)
    ensures Serving(t, i)
  {
    hide Conserved, MutexOk, MasterOk;
    assert WorkerOkAt(s, i);
    if who.WorkerThread? {
      WorkerStepShape(s, t, who.i);
    }
  }

  /** Without a stop no worker that has come as far as taking sockets leaves. */
  lemma {:induction false} WorkersStay(run: seq<State>, m: nat, n: nat, i: nat)
    requires Run(run) && m <= n < |run| && run[n].stop == 0 && Serving(run[m], i)
    ensures Serving(run[n], i)
  {
    hide Inv, Step, Serving;
    if n == m {
    } else {
      RunInv(run, n - 1);
      assert SomeStep(run[n - 1], run[n]);
      var who :| Step(run[n - 1], run[n], who);
      StopStays(run[n - 1], run[n], who);
      WorkersStay(run, m, n - 1, i);
      KeepsServing(run[n - 1], run[n], who, i);
    }
  }

  /* ---- What a thread does when it is left alone ---- */

  /** The state after `n` steps of the master alone, unless it has to wait before. */
  function MasterAlone(s: State, n: nat): Option<State>
    decreases n
  {
    if n == 0 then Some(s)
    else if !s.Shaped() || MasterNext(s).None? then None
    else MasterAlone(MasterNext(s).value, n - 1)
  }

  function WorkerAlone(s: State, i: nat, n: nat): Option<State>
    decreases n
  {
    if n == 0 then Some(s)
    else if !s.Shaped() || i >= |s.workers| || WorkerNext(s, i).None? then None
    else WorkerAlone(WorkerNext(s, i).value, i, n - 1)
  }

  lemma MasterGoes(s: State, t: State, n: nat)
    requires s.Shaped() && MasterNext(s) == Some(t)
    ensures MasterAlone(s, n + 1) == MasterAlone(t, n)
  {
  }

  lemma WorkerGoes(s: State, t: State, i: nat, n: nat)
    requires s.Shaped() && i < |s.workers| && WorkerNext(s, i) == Some(t)
    ensures WorkerAlone(s, i, n + 1) == WorkerAlone(t, i, n)
  {
  }

  lemma Scan(s: State, k: nat, i: nat, n: nat)
    requires s.Shaped() && s.master == Scanning(k, i) && i < |s.workers| && s.slots[i].inUse != 2
    ensures MasterAlone(s, n + 1) == MasterAlone(s.(master := Scanning(k, i + 1)), n)
  {
    MasterGoes(s, s.(master := Scanning(k, i + 1)), n);
  }

  lemma {:induction false} Scans(s: State, k: nat, i: nat, j: nat, n: nat)
    requires s.Shaped() && s.master == Scanning(k, i) && i <= j <= |s.workers|
    requires forall m :: i <= m < j ==> s.slots[m].inUse != 2
    ensures MasterAlone(s, j - i + n) == MasterAlone(s.(master := Scanning(k, j)), n)
    decreases j - i
  {
    hide MasterAlone;
    if i == j {
    } else {
      Scan(s, k, i, j - i - 1 + n);
      Scans(s.(master := Scanning(k, i + 1)), k, i + 1, j, n);
    }
  }

  /** The state with the socket in the slot and the event signalled. */
  function HandedOver(s: State, k: nat, i: nat): State
    requires s.Shaped() && i < |s.workers|
  {
    s.(master := Accepting, slots := s.slots[i := Slot(k, 1)], events := s.events[i := s.events[i] + 1])
  }

  /** From where a free slot is found to where it is filled, with the mutex. */
  lemma Locks(s: State, k: nat, i: nat, n: nat)
    requires s.Shaped() && s.stop == 0 && s.mutex == None && s.master == Scanning(k, i)
    requires i < |s.workers| && s.slots[i].inUse == 2
    ensures MasterAlone(s, n + 4) == MasterAlone(s.(master := Storing(k, i), mutex := Some(MasterOwner)), n)
  {
    var locked := s.(mutex := Some(MasterOwner));
    MasterGoes(s, s.(master := Locking(k, i)), n + 3);
    MasterGoes(s.(master := Locking(k, i)), locked.(master := Rechecking(k, i)), n + 2);
    MasterGoes(locked.(master := Rechecking(k, i)), locked.(master := RecheckingStop(k, i)), n + 1);
    MasterGoes(locked.(master := RecheckingStop(k, i)), locked.(master := Storing(k, i)), n);
  }

  /** From there to where the worker has been signalled. */
  lemma Fills(s: State, k: nat, i: nat)
    requires s.Shaped() && s.mutex == Some(MasterOwner) && s.master == Storing(k, i) && i < |s.workers|
    ensures MasterAlone(s, 4) == Some(HandedOver(s.(mutex := None), k, i))
  {
    var clear, filled := s.slots[i := Slot(k, 0)], s.slots[i := Slot(k, 1)];
    assert clear[i := Slot(k, 1)] == filled;
    MasterGoes(s, s.(master := Filling(k, i), slots := clear), 3);
    MasterGoes(s.(master := Filling(k, i), slots := clear), s.(master := Releasing(i), slots := filled), 2);
    MasterGoes(s.(master := Releasing(i), slots := filled),
               s.(master := Signalling(i), slots := filled, mutex := None), 1);
    MasterGoes(s.(master := Signalling(i), slots := filled, mutex := None), HandedOver(s.(mutex := None), k, i), 0);
  }

  /** The state in which the master looks at slot `i` for its socket. */
  lemma Looks(s: State, k: nat, i: nat)
    requires s.Shaped() && s.stop == 0 && s.master == Testing(k) && i <= |s.workers|
    ensures MasterNext(s) == Some(s.(master := Scanning(k, 0))) && s.(master := Scanning(k, i)).Shaped()
    ensures s.(master := Storing(k, i), mutex := Some(MasterOwner)).Shaped()
  {
  }

  /** With the mutex free and no stop, the master puts its socket into the slot of the first
      worker that is free, signals that worker and goes on accepting. */
  lemma HandsOver(s: State, k: nat, i: nat)
    requires s.Shaped() && s.stop == 0 && s.mutex == None && s.master == Testing(k)
    requires i < |s.workers| && s.slots[i].inUse == 2 && forall m :: 0 <= m < i ==> s.slots[m].inUse != 2
    ensures MasterAlone(s, i + 9) ==
      Some(s.(master := Accepting, slots := s.slots[i := Slot(k, 1)], events := s.events[i := s.events[i] + 1]))
  {
    hide MasterNext, MasterAlone;
    var scanning := s.(master := Scanning(k, 0));
    Looks(s, k, 0);
    Looks(s, k, i);
    MasterGoes(s, scanning, i + 8);
    Scans(scanning, k, 0, i, 8);
    Locks(scanning.(master := Scanning(k, i)), k, i, 4);
    Fills(s.(master := Storing(k, i), mutex := Some(MasterOwner)), k, i);
  }

  /** As long as no worker is free, it keeps the socket and looks again. */
  lemma KeepsLooking(s: State, k: nat)
    requires s.Shaped() && s.stop == 0 && s.master == Testing(k)
    requires forall m :: 0 <= m < |s.slots| ==> s.slots[m].inUse != 2
    ensures MasterAlone(s, |s.workers| + 2) == Some(s)
  {
    var n, scanning := |s.workers|, s.(master := Scanning(k, 0));
    MasterGoes(s, scanning, n + 1);
    Scans(scanning, k, 0, n, 1);
    MasterGoes(scanning.(master := Scanning(k, n)), s, 0);
  }

  lemma UpdatedTwice(ws: seq<Worker>, i: nat, w: Worker, w': Worker)
    requires i < |ws|
    ensures ws[i := w][i := w'] == ws[i := w'] && ws[i := w][i] == w && |ws[i := w]| == |ws|
  {
  }

  /** A worker that is woken copies the socket out of its slot, with the mutex. */
  lemma Copies(s: State, i: nat, n: nat)
    requires s.Shaped() && s.mutex == None && i < |s.workers| && s.workers[i] == Waiting && s.events[i] > 0
    ensures WorkerAlone(s, i, n + 3) == WorkerAlone(
      s.(workers := s.workers[i := Copied(s.slots[i])], events := s.events[i := 0], mutex := Some(WorkerOwner(i))),
      i, n)
  {
    var (ws, sp, woken) := (s.workers, s.slots[i], s.(events := s.events[i := 0]));
    var locked := woken.(mutex := Some(WorkerOwner(i)));
    UpdatedTwice(ws, i, Woken, Copying);
    UpdatedTwice(ws, i, Copying, Copied(sp));
    WorkerGoes(s, woken.(workers := ws[i := Woken]), i, n + 2);
    WorkerGoes(woken.(workers := ws[i := Woken]), locked.(workers := ws[i := Copying]), i, n + 1);
    WorkerGoes(locked.(workers := ws[i := Copying]), locked.(workers := ws[i := Copied(sp)]), i, n);
  }

  /** It gives the mutex back and is given the socket. */
  lemma Leaves(s: State, i: nat, k: nat)
    requires s.Shaped() && s.stop == 0 && s.mutex == Some(WorkerOwner(i)) && i < |s.workers|
    requires s.workers[i] == Copied(Slot(k, 1))
    ensures WorkerAlone(s, i, 3) ==
      Some(s.(workers := s.workers[i := Processing(k)], mutex := None, delivered := s.delivered + [k]))
  {
    var (ws, sp, free) := (s.workers, Slot(k, 1), s.(mutex := None));
    UpdatedTwice(ws, i, GoUnlocking(sp), GoChecking(sp));
    UpdatedTwice(ws, i, GoChecking(sp), Processing(k));
    WorkerGoes(s, s.(workers := ws[i := GoUnlocking(sp)]), i, 2);
    WorkerGoes(s.(workers := ws[i := GoUnlocking(sp)]), free.(workers := ws[i := GoChecking(sp)]), i, 1);
    WorkerGoes(free.(workers := ws[i := GoChecking(sp)]),
               free.(workers := ws[i := Processing(k)], delivered := s.delivered + [k]), i, 0);
  }

  lemma StaysShaped(s: State, t: State)
    requires s.Shaped() && |t.workers| == |s.workers| && |t.events| == |s.events| && t.slots == s.slots
    ensures t.Shaped()
  {
  }

  /** With the mutex free and no stop, a worker with a socket in its slot and its event
      pending is given this socket. */
  lemma TakesOver(s: State, i: nat, k: nat)
    requires s.Shaped() && s.stop == 0 && s.mutex == None && i < |s.workers|
    requires s.workers[i] == Waiting && s.slots[i] == Slot(k, 1) && s.events[i] > 0
    ensures WorkerAlone(s, i, 6) == Some(
      s.(workers := s.workers[i := Processing(k)], events := s.events[i := 0], delivered := s.delivered + [k]))
  {
    hide WorkerNext, WorkerAlone;
    var copied := s.workers[i := Copied(s.slots[i])];
    var t := s.(workers := copied, events := s.events[i := 0], mutex := Some(WorkerOwner(i)));
    Copies(s, i, 3);
    UpdatedTwice(s.workers, i, Copied(s.slots[i]), Processing(k));
    StaysShaped(s, t);
    Leaves(t, i, k);
  }

  /** And when it is through with it, it is free again. */
  lemma FreeAgain(s: State, i: nat, k: nat)
    requires s.Shaped() && s.mutex == None && i < |s.workers| && s.workers[i] == Processing(k)
    ensures WorkerAlone(s, i, 4) ==
      Some(s.(workers := s.workers[i := Waiting], slots := s.slots[i := s.slots[i].(inUse := 2)]))
  {
    var ws := s.workers;
    assert forall w, w' {:trigger ws[i := w][i := w']} :: ws[i := w][i := w'] == ws[i := w'];
    var free := s.slots[i := s.slots[i].(inUse := 2)];
    var s1, s2 := s.(workers := ws[i := Entering]), s.(workers := ws[i := Marking], mutex := Some(WorkerOwner(i)));
    var s3 := s.(workers := ws[i := Marked], mutex := Some(WorkerOwner(i)), slots := free);
    WorkerGoes(s, s1, i, 3);
    WorkerGoes(s1, s2, i, 2);
    WorkerGoes(s2, s3, i, 1);
    WorkerGoes(s3, s.(workers := ws[i := Waiting], slots := free), i, 0);
  }

  lemma StepKeepsSlot(s: State, t: State, who: Thread, i: nat)
    requires Inv(s) && Step(s, t, who) && i < |s.workers|
    requires s.workers[i] in {Waiting, Woken, Copying} && s.slots[i].inUse == 1
    ensures t.Shaped() && |t.workers| == |s.workers| && t.slots[i] == s.slots[i]
  {
    hide Conserved, MutexOk;
    assert WorkerOkAt(s, i);
    match who {
      case MasterThread =>
      case WorkerThread(k) => WorkerStepShape(s, t, k);
      case StopThread =>
    }
  }

  /** As long as a socket stands in a slot and its worker has not copied it, no step of
      any thread writes the slot. */
  lemma NoOverwrite(run: seq<State>, n: nat, i: nat)
    requires Run(run) && 0 < n < |run| && run[n - 1].Shaped() && i < |run[n - 1].workers|
    requires run[n - 1].workers[i] in {Waiting, Woken, Copying} && run[n - 1].slots[i].inUse == 1
    ensures run[n].Shaped() && i < |run[n].workers| && run[n].slots[i] == run[n - 1].slots[i]
  {
    hide Inv, Step;
    RunInv(run, n - 1);
    assert SomeStep(run[n - 1], run[n]);
    var who :| Step(run[n - 1], run[n], who);
    StepKeepsSlot(run[n - 1], run[n], who, i);
  }

  /** In every reachable state some thread can take a step, until the master is done. */
  lemma NeverStuck(run: seq<State>, n: nat)
    requires Run(run) && n < |run| && run[n].master != Done
    ensures run[n].Shaped()
    ensures MasterNext(run[n]).Some? ||
      exists i :: 0 <= i < |run[n].workers| && WorkerNext(run[n], i).Some?
  {
    RunInv(run, n);
    var s := run[n];
    if s.mutex.Some? && s.mutex.value.WorkerOwner? {
      assert WorkerNext(s, s.mutex.value.i).Some?;
    } else if MasterNext(s).None? {
      // the master has to wait only for a worker that it has woken up
      assert WorkerOkAt(s, s.master.i);
      assert WorkerNext(s, s.master.i).Some?;
    }
  }

  /** No wake-up is lost: a worker waits with a socket in its slot only as long as its
      event is pending or the master is about to signal it; and a worker that the master
      has told to stop has an event pending until it wakes up. */
  lemma NoLostWakeUp(run: seq<State>, n: nat, i: nat)
    requires Run(run) && n < |run| && run[n].Shaped() && i < |run[n].workers| && run[n].workers[i] == Waiting
    ensures run[n].slots[i].inUse == 1 && StageOf(run[n].master, i) != Filled ==> run[n].events[i] > 0
    ensures Signalled(run[n].master, i) ==> run[n].events[i] > 0
  {
    RunInv(run, n);
    assert WorkerOkAt(run[n], i);
  }

  /* ---- The shutdown comes to an end ---- */

  function Left(n: nat, i: nat): nat {
    if i < n then n - i else 0
  }

  /** How many more steps the master can take once the stop flag is set, with `n` workers. */
  function MasterRank(m: Master, n: nat): nat {
    match m
    case Scanning(_, i) => 2 * n + 7 + 5 * Left(n, i)
    case Locking(_, i) => 2 * n + 6 + 5 * Left(n, i)
    case Rechecking(_, i) => 2 * n + 5 + 5 * Left(n, i)
    case RecheckingStop(_, i) => 2 * n + 4 + 5 * Left(n, i)
    case Unlocking(_, i) => 2 * n + 3 + 5 * Left(n, i)
    case Storing(_, _) => 2 * n + 7
    case Filling(_, _) => 2 * n + 6
    case Polling => 2 * n + 6
    case Testing(_) => 2 * n + 5
    case Releasing(_) => 2 * n + 5
    case Closing(_) => 2 * n + 4
    case Signalling(_) => 2 * n + 4
    case Accepting => 2 * n + 3
    case SignallingStop(i) => n + 2 + Left(n, i)
    case Joining(i) => 1 + Left(n, i)
    case Done => 0
  }

  function WorkerRank(w: Worker): nat {
    match w
    case Starting => 13
    case GoUnlocking(_) => 13
    case GoChecking(_) => 12
    case Processing(_) => 11
    case Entering => 10
    case Marking => 9
    case Marked => 8
    case Waiting => 7
    case Woken => 6
    case Copying => 5
    case Copied(_) => 4
    case StopUnlocking(_) => 3
    case StopChecking(_) => 2
    case MustNotReachHere => 1
    case Exited => 0
  }

  function WorkerRanks(workers: seq<Worker>): nat {
    if workers == [] then 0
    else WorkerRanks(workers[..|workers| - 1]) + WorkerRank(workers[|workers| - 1])
  }

  function Remaining(s: State): nat {
    MasterRank(s.master, |s.workers|) + WorkerRanks(s.workers)
  }

  lemma {:induction false} RanksUpdate(workers: seq<Worker>, i: nat, w: Worker)
    requires i < |workers|
    ensures WorkerRanks(workers[i := w]) + WorkerRank(workers[i]) == WorkerRanks(workers) + WorkerRank(w)
  {
    hide WorkerRank;
    var n := |workers| - 1;
    if i == n {
      assert workers[i := w][..n] == workers[..n];
    } else {
      RanksUpdate(workers[..n], i, w);
      assert workers[i := w][..n] == workers[..n][i := w];
    }
  }

  lemma MasterStepLowers(s: State, t: State)
    requires s.Shaped() && MasterOk(s) && s.stop != 0 && MasterStep(s, t)
    ensures t.stop != 0 && t.workers == s.workers
    ensures MasterRank(t.master, |s.workers|) < MasterRank(s.master, |s.workers|)
  {
  }

  lemma WorkerMoves(s: State, t: State, i: nat)
    requires s.Shaped() && s.stop != 0 && i < |s.workers| && WorkerStep(s, t, i)
    requires WorkerOkAt(s, i)
    ensures t.stop == s.stop && t.master == s.master && |t.workers| == |s.workers|
    ensures t.workers == s.workers[i := t.workers[i]] && WorkerRank(t.workers[i]) < WorkerRank(s.workers[i])
  {
  }

  lemma WorkerStepLowers(s: State, t: State, i: nat)
    requires s.Shaped() && s.stop != 0 && i < |s.workers| && WorkerStep(s, t, i)
    requires WorkerOkAt(s, i)
    ensures t.stop != 0 && t.master == s.master && |t.workers| == |s.workers|
    ensures WorkerRanks(t.workers) < WorkerRanks(s.workers)
  {
    WorkerMoves(s, t, i);
    RanksUpdate(s.workers, i, t.workers[i]);
  }

  /** Once the stop flag is set, it stays set, and every step of any thread leaves fewer
      steps to take. */
  lemma StepLowers(s: State, t: State, who: Thread)
    requires Inv(s) && s.stop != 0 && Step(s, t, who)
    ensures t.stop != 0 && |t.workers| == |s.workers| && Remaining(t) < Remaining(s)
  {
    match who {
      case MasterThread => MasterStepLowers(s, t);
      case WorkerThread(i) => WorkerStepLowers(s, t, i);
      case StopThread =>
    }
  }

  /** So a run has at most so many more steps from where it is stopped. */
  lemma {:induction false} ShutdownIsFinite(run: seq<State>, m: nat, n: nat)
    requires Run(run) && m <= n < |run| && run[m].stop != 0
    ensures run[n].stop != 0 && Remaining(run[n]) + (n - m) <= Remaining(run[m])
  {
    hide Inv, Step, Remaining;
    if n == m {
    } else {
      ShutdownIsFinite(run, m, n - 1);
      RunInv(run, n - 1);
      assert SomeStep(run[n - 1], run[n]);
      var who :| Step(run[n - 1], run[n], who);
      StepLowers(run[n - 1], run[n], who);
    }
  }

  ghost predicate CanGoOn(s: State) {
    s.Shaped() && exists t, who :: Step(s, t, who)
  }

  lemma NotDoneGoesOn(run: seq<State>, n: nat)
    requires Run(run) && n < |run| && run[n].master != Done
    ensures CanGoOn(run[n])
  {
    NeverStuck(run, n);
    var s := run[n];
    if MasterNext(s).Some? {
      assert Step(s, MasterNext(s).value, MasterThread);
    } else {
      var i :| 0 <= i < |s.workers| && WorkerNext(s, i).Some?;
      assert Step(s, WorkerNext(s, i).value, WorkerThread(i));
    }
  }

  /** What `mg_stop` waits for: a stopped run that cannot go on has come to its end, with
      all workers gone and every accepted socket delivered or closed exactly once. */
  lemma ShutdownEnds(run: seq<State>, k: nat)
    requires Run(run) && run[|run| - 1].stop != 0 && !CanGoOn(run[|run| - 1])
    ensures
      var s := run[|run| - 1];
      && s.master == Done && (forall i :: 0 <= i < |s.workers| ==> s.workers[i] == Exited)
      && (k < s.accepted ==> multiset(s.delivered)[k] + multiset(s.closed)[k] == 1)
  {
    hide CanGoOn;
    var n := |run| - 1;
    RunInv(run, n);
    if run[n].master != Done {
      NotDoneGoesOn(run, n);
    }
    ExactlyOnce(run, n, k);
  }
}
