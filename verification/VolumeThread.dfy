/**
 One volume's life as a step system: the starter that creates the worker and waits for its
 event, the worker that opens the volume and serves queued requests, the producers that queue
 them, and the stopper that asks the worker to quit and deletes the device. Each step reads or
 writes one shared thing; every interleaving of steps is a run.
 */
module VolumeThread {
  import opened Bytes
  import opened HostVolume

  datatype CreateStatus = Pending | Success | Failure(code: int)

  /** `tc_start_volume_thread` and the rest of `mount_device`. */
  datatype Starter =
    | SCreate
    | SWait
    | SReference
    | SRead
    | SFree(result: CreateStatus)
    | SDecide(result: CreateStatus)
    | SFailed(result: CreateStatus)
    | SMounted(result: CreateStatus)

  /** `volume_thread_proc`. */
  datatype Worker =
    | WAbsent
    | WOpen
    | WStore(status: CreateStatus)
    | WStart
    | WCloseUnstarted(status: CreateStatus)
    | WStoreAgain(status: CreateStatus)
    | WFields
    | WSignal(status: CreateStatus)
    | WWait
    | WCheck
    | WDrain
    | WServe(irp: int)
    | WRecheck
    | WClose
    | WExit
    | WDone

  /** `unmount_device` and `tc_stop_volume_thread`. */
  datatype Stopper = UIdle | UQuit | URelease | UJoin | UDelete | UDone

  /** What starter, worker and stopper share: the thread block, the event, the thread reference
      and the device. */
  datatype Shared = Shared(
    blockStatus: CreateStatus,
    blockFreed: bool,
    event: bool,
    outcome: Option<CreateStatus>,
    threadReferenced: bool,
    referenceFailed: bool,
    published: bool,
    deviceDeleted: bool,
    quit: bool)

  /** The request list and its semaphore, with the requests queued and served so far. */
  datatype Line = Line(permits: nat, unreleased: nat, queue: seq<int>, inserted: seq<int>, served: seq<int>)

  /** A mount request and what the system answers on the way. */
  datatype Opening = Opening(request: MountRequest, answers: Answers)

  /** What the worker was asked to open, and what it holds. */
  datatype Assets = Assets(opening: Option<Opening>, held: Held)

  datatype State = State(starter: Starter, worker: Worker, stopper: Stopper, shared: Shared, line: Line, assets: Assets)

  /** The device has just been created and the thread block allocated. */
  const INITIAL := State(SCreate, WAbsent, UIdle,
                         Shared(Pending, false, false, None, false, false, false, false, false),
                         Line(0, 0, [], [], []),
                         Assets(None, NOTHING_HELD))

  datatype Action =
    | CreateThread(createFailure: Option<int>)
    | AwaitEvent
    | ReferenceThread(ok: bool)
    | ReadStatus
    | FreeBlock
    | Decide
    | WorkerOpens(opening: Opening)
    | WorkerStarts(startFailure: Option<int>)
    | WorkerSteps
    | BeginUnmount
    | StopperSteps
    | Insert(irp: int)
    | Release

  /** The steps the worker takes by itself, without a choice of the system's. */
  predicate WorkerPlain(w: Worker) {
    !(w.WAbsent? || w.WOpen? || w.WStart? || w.WDone?)
  }

  predicate Enabled(s: State, a: Action) {
    match a
    case CreateThread(_) => s.starter.SCreate?
    case AwaitEvent => s.starter.SWait? && s.shared.event
    case ReferenceThread(_) => s.starter.SReference?
    case ReadStatus => s.starter.SRead?
    case FreeBlock => s.starter.SFree?
    case Decide => s.starter.SDecide?
    case WorkerOpens(_) => s.worker.WOpen?
    case WorkerStarts(_) => s.worker.WStart?
    case WorkerSteps => WorkerPlain(s.worker) && (s.worker.WWait? ==> s.line.permits > 0)
    case BeginUnmount => s.shared.published && s.stopper.UIdle?
    case StopperSteps =>
      && !s.stopper.UIdle? && !s.stopper.UDone?
      && (s.stopper.UJoin? && s.shared.threadReferenced ==> s.worker.WDone?)
    case Insert(_) => !s.shared.deviceDeleted
    case Release => s.line.unreleased > 0
  }

  function Next(s: State, a: Action): State
    requires Enabled(s, a)
  {
    match a
    case CreateThread(failure) => AfterCreating(s, failure)
    case AwaitEvent => s.(shared := s.shared.(event := false), starter := SReference)
    case ReferenceThread(ok) =>
      s.(shared := s.shared.(threadReferenced := ok, referenceFailed := !ok), starter := SRead)
    case ReadStatus => s.(starter := SFree(s.shared.blockStatus))
    case FreeBlock => s.(shared := s.shared.(blockFreed := true), starter := SDecide(s.starter.result))
    case Decide => AfterDeciding(s)
    case WorkerOpens(o) =>
      s.(worker := WStore(OpenStatus(o)),
         assets := Assets(Some(o), AfterOpening(s.assets.held, o.request, o.answers)))
    case WorkerStarts(failure) =>
      s.(worker := if failure.Some? then WCloseUnstarted(Failure(failure.value)) else WFields)
    case WorkerSteps => AfterWorker(s)
    case BeginUnmount => s.(shared := s.shared.(published := false), stopper := UQuit)
    case StopperSteps => AfterStopper(s)
    case Insert(irp) =>
      s.(line := s.line.(queue := s.line.queue + [irp], inserted := s.line.inserted + [irp],
                         unreleased := s.line.unreleased + 1))
    case Release => s.(line := s.line.(permits := s.line.permits + 1, unreleased := s.line.unreleased - 1))
  }

  function AfterCreating(s: State, failure: Option<int>): State {
    if failure.Some? then s.(starter := SFree(Failure(failure.value))) else s.(starter := SWait, worker := WOpen)
  }

  function AfterDeciding(s: State): State
    requires s.starter.SDecide?
  {
    if s.starter.result.Success? then s.(shared := s.shared.(published := true), starter := SMounted(s.starter.result))
    else s.(shared := s.shared.(deviceDeleted := true), starter := SFailed(s.starter.result))
  }

  /** What the worker stores is whether the request was accepted. */
  function OpenStatus(o: Opening): CreateStatus {
    if Accepts(o.request, o.answers) then Success else Failure(RefusalCode(o.request, o.answers))
  }

  /** `tc_close_and_cleanup`. */
  function Closed(x: Assets): Assets {
    x.(held := AfterClosing(x.held))
  }

  function AfterWorker(s: State): State
    requires Enabled(s, WorkerSteps)
  {
    match s.worker
    case WStore(status) =>
      s.(shared := s.shared.(blockStatus := status), worker := if status.Success? then WStart else WSignal(status))
    case WCloseUnstarted(status) => s.(assets := Closed(s.assets), worker := WStoreAgain(status))
    case WStoreAgain(status) => s.(shared := s.shared.(blockStatus := status), worker := WSignal(status))
    case WFields => s.(worker := WSignal(Success))
    case WSignal(status) =>
      s.(shared := s.shared.(event := true, outcome := Some(status)),
         worker := if status.Success? then WWait else WExit)
    case WWait => s.(line := s.line.(permits := s.line.permits - 1), worker := WCheck)
    case WCheck => s.(worker := if s.shared.quit then WClose else WDrain)
    case WDrain =>
      if s.line.queue == [] then s.(worker := WRecheck)
      else s.(line := s.line.(queue := s.line.queue[1..]), worker := WServe(s.line.queue[0]))
    case WServe(irp) => s.(line := s.line.(served := s.line.served + [irp]), worker := WDrain)
    case WRecheck => s.(worker := if s.shared.quit then WClose else WWait)
    case WClose => s.(assets := Closed(s.assets), worker := WExit)
    case WExit => s.(worker := WDone)
  }

  function AfterStopper(s: State): State
    requires Enabled(s, StopperSteps)
  {
    match s.stopper
    case UQuit => s.(shared := s.shared.(quit := true), stopper := URelease)
    case URelease => s.(line := s.line.(permits := s.line.permits + 1), stopper := UJoin)
    case UJoin => s.(shared := s.shared.(threadReferenced := false), stopper := UDelete)
    case UDelete => s.(shared := s.shared.(deviceDeleted := true), stopper := UDone)
  }

  // ------------------------------------------------------------------ runs

  /** The state a sequence of steps leads to from the initial one, if every step was enabled. */
  function Run(actions: seq<Action>): Option<State> {
    if actions == [] then Some(INITIAL) else
      match Run(actions[..|actions| - 1])
      case None => None
      case Some(s) => if Enabled(s, actions[|actions| - 1]) then Some(Next(s, actions[|actions| - 1])) else None
  }

  // ------------------------------------------------------------------ the invariant

  predicate BeforeSignal(w: Worker) {
    w.WAbsent? || w.WOpen? || w.WStore? || w.WStart? || w.WCloseUnstarted? || w.WStoreAgain? || w.WFields? || w.WSignal?
  }

  predicate Leaving(w: Worker) {
    w.WClose? || w.WExit? || w.WDone?
  }

  predicate InLoop(w: Worker) {
    w.WWait? || w.WCheck? || w.WDrain? || w.WServe? || w.WRecheck?
  }

  /** The worker has taken a permit and is yet to find the queue empty. */
  predicate Draining(w: Worker) {
    w.WCheck? || w.WDrain? || w.WServe?
  }

  /** Starter and worker: who has signalled, and what the block then holds. */
  predicate Handshake(t: Starter, w: Worker, h: Shared) {
    && (h.outcome.None? <==> BeforeSignal(w))
    && (h.outcome.Some? ==> h.blockStatus == h.outcome.value && !h.outcome.value.Pending?)
    && (h.outcome.Some? && !h.outcome.value.Success? ==> w.WExit? || w.WDone?)
    && (InLoop(w) || w.WClose? ==> h.outcome == Some(Success))
    && (h.event ==> h.outcome.Some? && t.SWait?)
    && (t.SWait? && h.outcome.Some? ==> h.event)
    && (t.SCreate? ==> w.WAbsent?)
    && (t.SWait? ==> !w.WAbsent?)
    && (t.SReference? || t.SRead? ==> h.outcome.Some?)
  }

  /** What the worker has stored in the block on the way to its signal. */
  predicate Storing(w: Worker, h: Shared) {
    && (w.WStore? ==> !w.status.Pending?)
    && (w.WStart? || w.WFields? ==> h.blockStatus.Success?)
    && (w.WCloseUnstarted? || w.WStoreAgain? ==> w.status.Failure?)
    && (w.WSignal? ==> h.blockStatus == w.status && !w.status.Pending?)
  }

  /** What the starter holds in hand, once it has it, is what the worker finally stored. */
  predicate ResultRight(w: Worker, h: Shared, result: CreateStatus) {
    if w.WAbsent? then result.Failure? else h.outcome == Some(result)
  }

  predicate Starting(t: Starter, w: Worker, h: Shared) {
    && (t.SFree? ==> ResultRight(w, h, t.result))
    && (t.SDecide? ==> ResultRight(w, h, t.result))
    && (t.SFailed? ==> ResultRight(w, h, t.result) && !t.result.Success?)
    && (t.SMounted? ==> ResultRight(w, h, t.result) && t.result.Success?)
    && (h.blockFreed <==> t.SDecide? || t.SFailed? || t.SMounted?)
  }

  /** The reference to the thread, from when it is taken to when the stopper gives it back. */
  predicate Referencing(t: Starter, w: Worker, u: Stopper, h: Shared) {
    && (t.SCreate? || t.SWait? || t.SReference? || h.threadReferenced ==> !h.referenceFailed)
    && (t.SRead? && !h.referenceFailed ==> h.threadReferenced)
    && ((t.SFree? || t.SDecide?) && !w.WAbsent? && !h.referenceFailed ==> h.threadReferenced)
    && (t.SMounted? && !h.referenceFailed && !u.UDelete? && !u.UDone? ==> h.threadReferenced)
    && (t.SFailed? && !w.WAbsent? && !h.referenceFailed ==> h.threadReferenced)
    && (w.WAbsent? || u.UDelete? || u.UDone? ==> !h.threadReferenced)
  }

  predicate Stopping(t: Starter, w: Worker, u: Stopper, h: Shared, permits: nat) {
    && (h.published <==> t.SMounted? && u.UIdle?)
    && (!u.UIdle? ==> t.SMounted?)
    && (h.quit <==> !u.UIdle? && !u.UQuit?)
    && (w.WClose? ==> h.quit)
    && (u.UJoin? && w.WWait? ==> permits > 0)
    && (h.deviceDeleted <==> t.SFailed? || u.UDone?)
    && ((u.UDelete? || u.UDone?) && !h.referenceFailed ==> w.WDone?)
  }

  /** Requests come out in the order they went in, and no wakeup is lost. */
  predicate Queueing(w: Worker, x: Line) {
    && x.inserted == x.served + (if w.WServe? then [w.irp] else []) + x.queue
    && (!Leaving(w) ==> x.permits + x.unreleased + (if Draining(w) then 1 else 0) >= |x.queue|)
  }

  /** The worker has the volume open. */
  predicate Holding(w: Worker) {
    || w.WStart? || w.WCloseUnstarted? || w.WFields? || InLoop(w) || w.WClose?
    || w == WStore(Success) || w == WSignal(Success)
  }

  predicate AtMostOnce(x: Held) {
    && x.handle.acquired <= 1 && x.cipher.acquired <= 1 && x.fileObject.acquired <= 1
    && x.pathBuffer.acquired <= 1 && !x.pathBuffer.isSet
  }

  predicate Resources(w: Worker, x: Assets) {
    && AllBalanced(x.held) && AtMostOnce(x.held)
    && (x.opening.None? <==> w.WAbsent? || w.WOpen?)
    && (x.opening.None? ==> x.held == NOTHING_HELD)
    && (Holding(w) ==> x.opening.Some? && Accepts(x.opening.value.request, x.opening.value.answers))
    && (x.held.handle.isSet <==> Holding(w))
    && (x.held.cipher.isSet <==> Holding(w))
    && (x.opening.Some? && !Holding(w) ==>
        (x.held.fileObject.isSet <==> Leaks(x.opening.value.request, x.opening.value.answers)))
  }

  predicate Invariant(s: State) {
    && Handshake(s.starter, s.worker, s.shared)
    && Storing(s.worker, s.shared)
    && Starting(s.starter, s.worker, s.shared)
    && Referencing(s.starter, s.worker, s.stopper, s.shared)
    && Stopping(s.starter, s.worker, s.stopper, s.shared, s.line.permits)
    && Queueing(s.worker, s.line)
    && Resources(s.worker, s.assets)
  }

  lemma InitialInvariant()
    ensures Invariant(INITIAL)
  {
  }

  lemma StarterKeeps(s: State, a: Action)
    requires Invariant(s) && Enabled(s, a)
    requires a.CreateThread? || a.AwaitEvent? || a.ReferenceThread? || a.ReadStatus? || a.FreeBlock? || a.Decide?
    ensures Invariant(Next(s, a))
  {
    hide AllBalanced, Leaks, Accepts;
  }

  lemma OpeningKeeps(s: State, a: Action)
    requires Invariant(s) && Enabled(s, a) && (a.WorkerOpens? || a.WorkerStarts?)
    ensures Invariant(Next(s, a))
  {
    hide Accepts, Leaks, AllBalanced, AfterOpening, HostOpens;
    if a.WorkerOpens? {
      OpeningHolds(a.opening.request, a.opening.answers);
      OpenedOnce(a.opening.request, a.opening.answers);
      LeakIsRefusal(a.opening.request, a.opening.answers);
    }
  }

  lemma OpenedOnce(q: MountRequest, a: Answers)
    ensures AtMostOnce(AfterOpening(NOTHING_HELD, q, a))
  {
    hide Accepts, HostOpens;
  }

  lemma ClosingKeeps(x: Held, q: MountRequest, a: Answers)
    requires AllBalanced(x) && AtMostOnce(x) && Accepts(q, a)
    ensures AllBalanced(AfterClosing(x)) && AtMostOnce(AfterClosing(x)) && !Leaks(q, a)
    ensures !AfterClosing(x).handle.isSet && !AfterClosing(x).cipher.isSet && !AfterClosing(x).fileObject.isSet
  {
    hide Accepts, Leaks;
    LeakIsRefusal(q, a);
  }

  lemma WorkerKeeps(s: State)
    requires Invariant(s) && Enabled(s, WorkerSteps)
    ensures Invariant(AfterWorker(s))
  {
    hide Invariant, AfterWorker;
    if BeforeSignal(s.worker) {
      MountingKeeps(s);
    } else if InLoop(s.worker) {
      ServingKeeps(s);
    } else {
      LeavingKeeps(s);
    }
  }

  lemma MountingKeeps(s: State)
    requires Invariant(s) && Enabled(s, WorkerSteps) && BeforeSignal(s.worker)
    ensures Invariant(AfterWorker(s))
  {
    hide Accepts, Leaks, AllBalanced, AfterClosing, AtMostOnce;
    if s.worker.WCloseUnstarted? {
      ClosingKeeps(s.assets.held, s.assets.opening.value.request, s.assets.opening.value.answers);
    }
  }

  lemma ServingKeeps(s: State)
    requires Invariant(s) && Enabled(s, WorkerSteps) && InLoop(s.worker)
    ensures Invariant(AfterWorker(s))
  {
    ServingKeepsOrder(s);
    hide Accepts, Leaks, AllBalanced, AtMostOnce, Queueing;
  }

  lemma ServingKeepsOrder(s: State)
    requires Invariant(s) && Enabled(s, WorkerSteps) && InLoop(s.worker)
    ensures Queueing(AfterWorker(s).worker, AfterWorker(s).line)
  {
    hide Handshake, Storing, Starting, Referencing, Stopping, Resources;
  }

  lemma LeavingKeeps(s: State)
    requires Invariant(s) && Enabled(s, WorkerSteps) && Leaving(s.worker)
    ensures Invariant(AfterWorker(s))
  {
    hide Accepts, Leaks, AllBalanced, AfterClosing, AtMostOnce;
    if s.worker.WClose? {
      ClosingKeeps(s.assets.held, s.assets.opening.value.request, s.assets.opening.value.answers);
    }
  }

  lemma StopperKeeps(s: State, a: Action)
    requires Invariant(s) && Enabled(s, a) && (a.BeginUnmount? || a.StopperSteps?)
    ensures Invariant(Next(s, a))
  {
    hide Resources;
  }

  lemma ProducerKeeps(s: State, a: Action)
    requires Invariant(s) && Enabled(s, a) && (a.Insert? || a.Release?)
    ensures Invariant(Next(s, a))
  {
    hide Resources, Storing, Handshake, Starting, Referencing;
  }

  lemma {:induction false} InvariantAlways(actions: seq<Action>)
    requires Run(actions).Some?
    ensures Invariant(Run(actions).value)
  {
    hide Enabled, Next, Invariant, AfterWorker;
    if actions == [] {
      InitialInvariant();
    } else {
      var before, last := actions[..|actions| - 1], actions[|actions| - 1];
      InvariantAlways(before);
      StepKeeps(Run(before).value, last);
    }
  }

  lemma StepKeeps(s: State, a: Action)
    requires Invariant(s) && Enabled(s, a)
    ensures Invariant(Next(s, a))
  {
    hide Enabled, Invariant, AfterWorker;
    match a
    case WorkerOpens(_) => OpeningKeeps(s, a);
    case WorkerStarts(_) => OpeningKeeps(s, a);
    case WorkerSteps => WorkerKeeps(s);
    case BeginUnmount => StopperKeeps(s, a);
    case StopperSteps => StopperKeeps(s, a);
    case Insert(_) => ProducerKeeps(s, a);
    case Release => ProducerKeeps(s, a);
    case _ => StarterKeeps(s, a);
  }

  // ------------------------------------------------------------------ what holds over every run

  /** No wakeup is lost: a worker that waits with no permit there and none on its way has nothing
      to serve, and until it leaves, permits cover the queue. */
  lemma NoLostWakeup(actions: seq<Action>)
    requires Run(actions).Some?
    ensures var s := Run(actions).value;
            && (!Leaving(s.worker) ==>
                s.line.permits + s.line.unreleased + (if Draining(s.worker) then 1 else 0) >= |s.line.queue|)
            && (s.worker.WWait? && s.line.permits == 0 && s.line.unreleased == 0 ==>
                s.line.queue == [] && s.line.served == s.line.inserted)
  {
    hide Run;
    InvariantAlways(actions);
  }

  /** How often a worker has waited and been let through in a run. */
  function Waits(actions: seq<Action>): nat {
    if actions == [] then 0 else
      var before, last := actions[..|actions| - 1], actions[|actions| - 1];
      Waits(before)
      + (if last.WorkerSteps? && Run(before).Some? && Run(before).value.worker.WWait? then 1 else 0)
  }

  /** Permits are neither lost nor made up: each request brings one, the stopper brings one, and each wait
      takes one. */
  lemma {:induction false} PermitsConserved(actions: seq<Action>)
    requires Run(actions).Some?
    ensures var s := Run(actions).value;
            s.line.permits + s.line.unreleased + Waits(actions)
            == |s.line.inserted| + (if s.stopper.UJoin? || s.stopper.UDelete? || s.stopper.UDone? then 1 else 0)
    decreases |actions|
  {
    if actions != [] {
      var before, last := actions[..|actions| - 1], actions[|actions| - 1];
      PermitsConserved(before);
    }
  }

  /** Requests are served in the order they were queued, each at most once. */
  lemma ServedInOrder(actions: seq<Action>)
    requires Run(actions).Some?
    ensures var x := Run(actions).value.line;
            && x.served <= x.inserted
            && |x.served| + |x.queue| <= |x.inserted| <= |x.served| + |x.queue| + 1
            && x.inserted[|x.inserted| - |x.queue|..] == x.queue
  {
    hide Run;
    InvariantAlways(actions);
  }

  /** The starter is given what the worker finally stored, never the placeholder; a thread that
      could not be created is a failure. */
  lemma StarterGetsFinalStatus(actions: seq<Action>)
    requires Run(actions).Some?
    ensures var s := Run(actions).value;
            s.starter.SFree? || s.starter.SDecide? || s.starter.SFailed? || s.starter.SMounted? ==>
              && !s.starter.result.Pending?
              && (if s.worker.WAbsent? then s.starter.result.Failure? else s.shared.outcome == Some(s.starter.result))
  {
    hide Run;
    InvariantAlways(actions);
  }

  /** The worker steps that read or write the thread block. */
  predicate TouchesBlock(w: Worker) {
    w.WOpen? || w.WStore? || w.WStoreAgain?
  }

  /** The worker touches the thread block only before it signals, and so never after it is freed. */
  lemma BlockAliveWhenTouched(actions: seq<Action>)
    requires Run(actions).Some? && TouchesBlock(Run(actions).value.worker)
    ensures var h := Run(actions).value.shared;
            h.outcome.None? && !h.event && !h.blockFreed
  {
    hide Run;
    InvariantAlways(actions);
  }

  /** The worker steps that read or write the device extension. */
  predicate TouchesExtension(w: Worker) {
    !(w.WAbsent? || w.WStore? || w.WStoreAgain? || w.WExit? || w.WDone?)
  }

  predicate ExtensionSafe(s: State) {
    TouchesExtension(s.worker) ==> !s.shared.deviceDeleted
  }

  lemma SafeWhenReferenced(actions: seq<Action>)
    requires Run(actions).Some? && !Run(actions).value.shared.referenceFailed
    ensures ExtensionSafe(Run(actions).value)
  {
    hide Run;
    InvariantAlways(actions);
  }

  lemma Extend(actions: seq<Action>, s: State, a: Action)
    requires Run(actions) == Some(s) && Enabled(s, a)
    ensures Run(actions + [a]) == Some(Next(s, a))
  {
    assert (actions + [a])[..|actions|] == actions;
  }

  /** A run that mounts a volume, its thread reference having failed. */
  lemma MountUnreferenced() returns (actions: seq<Action>, s: State)
    ensures Run(actions) == Some(s)
    ensures s.starter == SMounted(Success) && s.worker.WWait? && s.stopper.UIdle?
    ensures s.shared.published && s.shared.referenceFailed && !s.shared.threadReferenced
  {
    hide Run;
    actions, s := MountUntilSignal();
    Extend(actions, s, AwaitEvent);
    actions, s := actions + [AwaitEvent], Next(s, AwaitEvent);
    Extend(actions, s, ReferenceThread(false));
    actions, s := actions + [ReferenceThread(false)], Next(s, ReferenceThread(false));
    Extend(actions, s, ReadStatus);
    actions, s := actions + [ReadStatus], Next(s, ReadStatus);
    Extend(actions, s, FreeBlock);
    actions, s := actions + [FreeBlock], Next(s, FreeBlock);
    Extend(actions, s, Decide);
    actions, s := actions + [Decide], Next(s, Decide);
  }

  const GOOD_MOUNT := Opening(MountRequest(512, MIN_VOLUME_SIZE, 0, 1, Zeros(MASTER_KEY_MAX_SIZE), 4, false, false),
                              Answers(true, 0, 0, 0, 0))

  lemma MountUntilSignal() returns (actions: seq<Action>, s: State)
    ensures Run(actions) == Some(s)
    ensures s.starter.SWait? && s.worker.WWait? && s.stopper.UIdle?
    ensures s.shared.event && s.shared.blockStatus.Success?
  {
    hide Run;
    actions, s := [], INITIAL;
    NoSteps();
    Extend(actions, s, CreateThread(None));
    actions, s := actions + [CreateThread(None)], Next(s, CreateThread(None));
    Extend(actions, s, WorkerOpens(GOOD_MOUNT));
    actions, s := actions + [WorkerOpens(GOOD_MOUNT)], Next(s, WorkerOpens(GOOD_MOUNT));
    Extend(actions, s, WorkerSteps);
    actions, s := actions + [WorkerSteps], Next(s, WorkerSteps);
    Extend(actions, s, WorkerStarts(None));
    actions, s := actions + [WorkerStarts(None)], Next(s, WorkerStarts(None));
    Extend(actions, s, WorkerSteps);
    actions, s := actions + [WorkerSteps], Next(s, WorkerSteps);
    Extend(actions, s, WorkerSteps);
    actions, s := actions + [WorkerSteps], Next(s, WorkerSteps);
  }

  lemma NoSteps()
    ensures Run([]) == Some(INITIAL)
  {
  }

  /** Without the reference the stopper does not wait, and deletes the device under the worker. */
  lemma DeletedUnderWorker() returns (actions: seq<Action>)
    ensures Run(actions).Some? && Run(actions).value.shared.referenceFailed && !ExtensionSafe(Run(actions).value)
  {
    hide Run;
    var s: State;
    actions, s := MountUnreferenced();
    Extend(actions, s, BeginUnmount);
    actions, s := actions + [BeginUnmount], Next(s, BeginUnmount);
    Extend(actions, s, StopperSteps);
    actions, s := actions + [StopperSteps], Next(s, StopperSteps);
    Extend(actions, s, StopperSteps);
    actions, s := actions + [StopperSteps], Next(s, StopperSteps);
    Extend(actions, s, StopperSteps);
    actions, s := actions + [StopperSteps], Next(s, StopperSteps);
    Extend(actions, s, StopperSteps);
    actions, s := actions + [StopperSteps], Next(s, StopperSteps);
  }

  /** The starter knows whether it has the reference. */
  predicate ReferenceSettled(t: Starter) {
    !(t.SCreate? || t.SWait? || t.SReference?)
  }

  /** The volume is mounted, its worker has not left, and nobody holds the reference to it. */
  predicate Unheld(s: State) {
    s.shared.referenceFailed && s.shared.outcome == Some(Success) && !s.worker.WExit? && !s.worker.WDone?
  }

  lemma HeldStays(s: State, a: Action)
    requires Invariant(s) && Enabled(s, a) && ReferenceSettled(s.starter) && !Unheld(s)
    ensures ReferenceSettled(Next(s, a).starter) && !Unheld(Next(s, a))
  {
    hide Resources, Queueing, AfterClosing, AfterOpening, Accepts;
  }

  lemma HeldIsSafe(s: State)
    requires Invariant(s) && ReferenceSettled(s.starter) && !Unheld(s)
    ensures ExtensionSafe(s)
  {
    hide Resources, Queueing;
  }

  lemma {:induction false} HeldIsSafeFrom(s: State, more: seq<Action>)
    requires Invariant(s) && ReferenceSettled(s.starter) && !Unheld(s) && RunFrom(s, more).Some?
    ensures ExtensionSafe(RunFrom(s, more).value)
    decreases |more|
  {
    hide Invariant, Enabled, Next, Unheld;
    if more == [] {
      HeldIsSafe(s);
    } else {
      HeldStays(s, more[0]);
      StepKeeps(s, more[0]);
      HeldIsSafeFrom(Next(s, more[0]), more[1..]);
    }
  }

  /** What starter and stopper have yet to do. */
  function StepsToDeletion(t: Starter, u: Stopper): nat {
    (match t
     case SRead => 3
     case SFree(_) => 2
     case SDecide(_) => 1
     case _ => 0)
    + (match u
       case UIdle => 5
       case UQuit => 4
       case URelease => 3
       case UJoin => 2
       case UDelete => 1
       case UDone => 0)
  }

  /** The next step of starter or stopper, which nothing holds up. */
  function NextToDeletion(s: State): Action {
    match s.starter
    case SRead => ReadStatus
    case SFree(_) => FreeBlock
    case SDecide(_) => Decide
    case _ => if s.stopper.UIdle? then BeginUnmount else StopperSteps
  }

  lemma NearerToDeletion(s: State)
    requires Invariant(s) && ReferenceSettled(s.starter) && Unheld(s) && !s.shared.deviceDeleted
    ensures var a := NextToDeletion(s);
            && Enabled(s, a) && ReferenceSettled(Next(s, a).starter) && Unheld(Next(s, a))
            && StepsToDeletion(Next(s, a).starter, Next(s, a).stopper) < StepsToDeletion(s.starter, s.stopper)
  {
    hide Resources, Queueing;
  }

  /** An unheld volume can be unmounted under its worker. */
  lemma {:induction false} UnheldIsLost(s: State) returns (more: seq<Action>)
    requires Invariant(s) && ReferenceSettled(s.starter) && Unheld(s)
    ensures RunFrom(s, more).Some? && !ExtensionSafe(RunFrom(s, more).value)
    decreases StepsToDeletion(s.starter, s.stopper)
  {
    if s.shared.deviceDeleted {
      more := [];
      assert s.worker.WClose? || InLoop(s.worker) by {
        hide Resources, Queueing, Starting, Stopping;
      }
    } else {
      hide Invariant, Enabled, Next, Unheld, ExtensionSafe;
      var a := NextToDeletion(s);
      NearerToDeletion(s);
      StepKeeps(s, a);
      var rest := UnheldIsLost(Next(s, a));
      more := [a] + rest;
      assert more[0] == a && more[1..] == rest;
    }
  }

  /** Once the starter knows whether it has the reference: however the run goes on, the worker never
      touches the extension of a deleted device, exactly when the reference was taken, or the
      volume is not mounted, or its worker has already left. */
  lemma ExtensionSafeIffHeld(actions: seq<Action>)
    requires Run(actions).Some? && ReferenceSettled(Run(actions).value.starter)
    ensures var s := Run(actions).value;
            (forall more :: RunFrom(s, more).Some? ==> ExtensionSafe(RunFrom(s, more).value)) <==> !Unheld(s)
  {
    hide Run, Invariant, ExtensionSafe, Unheld;
    InvariantAlways(actions);
    var s := Run(actions).value;
    if Unheld(s) {
      var more := UnheldIsLost(s);
      assert !ExtensionSafe(RunFrom(s, more).value);
    } else {
      forall more | RunFrom(s, more).Some?
        ensures ExtensionSafe(RunFrom(s, more).value)
      {
        HeldIsSafeFrom(s, more);
      }
    }
  }

  /** Handle, cipher, file object reference and path buffer are acquired and released at most once,
      and when the worker is done all of them have been released and cleared, except that the
      reference is never given back exactly when the host file had been opened and referenced
      and the disk length was then out of range or the algorithm unknown. */
  lemma EverythingReleased(actions: seq<Action>)
    requires Run(actions).Some?
    ensures var w, x := Run(actions).value.worker, Run(actions).value.assets;
            && AllBalanced(x.held) && AtMostOnce(x.held)
            && (w.WExit? || w.WDone? ==>
                && x.opening.Some?
                && !x.held.handle.isSet && x.held.handle.released == x.held.handle.acquired
                && !x.held.cipher.isSet && x.held.cipher.released == x.held.cipher.acquired
                && !x.held.pathBuffer.isSet && x.held.pathBuffer.released == x.held.pathBuffer.acquired
                && (x.held.fileObject.released < x.held.fileObject.acquired
                    <==> Leaks(x.opening.value.request, x.opening.value.answers)))
  {
    hide Run;
    InvariantAlways(actions);
  }

  lemma ReferenceStays(s: State, a: Action)
    requires Invariant(s) && Enabled(s, a) && s.shared.deviceDeleted
    ensures Next(s, a).shared.deviceDeleted && Next(s, a).shared.threadReferenced == s.shared.threadReferenced
  {
    hide Resources, Queueing, AfterClosing, AfterOpening, Accepts;
  }

  lemma {:induction false} ReferenceStaysFrom(s: State, more: seq<Action>)
    requires Invariant(s) && s.shared.deviceDeleted && RunFrom(s, more).Some?
    ensures RunFrom(s, more).value.shared.threadReferenced == s.shared.threadReferenced
    decreases |more|
  {
    hide Invariant, Enabled, Next;
    if more != [] {
      ReferenceStays(s, more[0]);
      StepKeeps(s, more[0]);
      ReferenceStaysFrom(Next(s, more[0]), more[1..]);
    }
  }

  /** Once the device is deleted, the reference to the worker's thread is still held, and is never
      given back however the run goes on, exactly when the mount failed after the thread had been
      created and referenced. */
  lemma ThreadReferenceLeaks(actions: seq<Action>)
    requires Run(actions).Some? && Run(actions).value.shared.deviceDeleted
    ensures var s := Run(actions).value;
            && (s.shared.threadReferenced
                <==> s.starter.SFailed? && !s.worker.WAbsent? && !s.shared.referenceFailed)
            && forall more :: RunFrom(s, more).Some? ==>
                 RunFrom(s, more).value.shared.threadReferenced == s.shared.threadReferenced
  {
    hide Run, RunFrom;
    InvariantAlways(actions);
    var s := Run(actions).value;
    forall more | RunFrom(s, more).Some?
      ensures RunFrom(s, more).value.shared.threadReferenced == s.shared.threadReferenced
    {
      ReferenceStaysFrom(s, more);
    }
  }

  // ------------------------------------------------------------------ progress

  predicate OfWorker(a: Action) {
    a.WorkerOpens? || a.WorkerStarts? || a.WorkerSteps?
  }

  function Rank(w: Worker): nat {
    match w
    case WAbsent => 13
    case WOpen => 12
    case WStore(_) => 11
    case WStart => 10
    case WCloseUnstarted(_) => 9
    case WStoreAgain(_) => 8
    case WFields => 8
    case WSignal(_) => 7
    case WCheck => 6
    case WServe(_) => 6
    case WDrain => 5
    case WRecheck => 4
    case WWait => 3
    case WClose => 2
    case WExit => 1
    case WDone => 0
  }

  /** A bound on the steps the worker can take before it needs another permit or is done. */
  function WorkLeft(s: State): nat {
    4 * s.line.permits + 4 * |s.line.queue| + Rank(s.worker)
  }

  lemma WorkerStepCounts(s: State, a: Action)
    requires Enabled(s, a) && OfWorker(a)
    ensures WorkLeft(Next(s, a)) < WorkLeft(s)
  {
  }

  /** A worker that cannot step is done, or waits for a permit. */
  lemma WhenWorkerStops(s: State)
    requires !s.worker.WAbsent? && forall a :: OfWorker(a) ==> !Enabled(s, a)
    ensures s.worker.WDone? || (s.worker.WWait? && s.line.permits == 0)
  {
    assert !Enabled(s, WorkerSteps) && !Enabled(s, WorkerOpens(GOOD_MOUNT)) && !Enabled(s, WorkerStarts(None));
  }

  function RunFrom(s: State, actions: seq<Action>): Option<State>
    decreases |actions|
  {
    if actions == [] then Some(s)
    else if Enabled(s, actions[0]) then RunFrom(Next(s, actions[0]), actions[1..])
    else None
  }

  lemma {:induction false} RunExtends(before: seq<Action>, s: State, after: seq<Action>)
    requires Run(before) == Some(s) && RunFrom(s, after).Some?
    ensures Run(before + after) == RunFrom(s, after)
    decreases |after|
  {
    hide Run, Enabled, Next;
    if after == [] {
      assert before + after == before;
    } else {
      Extend(before, s, after[0]);
      RunExtends(before + [after[0]], Next(s, after[0]), after[1..]);
      assert before + [after[0]] + after[1..] == before + after;
    }
  }

  lemma {:induction false} WorkBounds(s: State, work: seq<Action>)
    requires RunFrom(s, work).Some? && forall a :: a in work ==> OfWorker(a)
    ensures |work| + WorkLeft(RunFrom(s, work).value) <= WorkLeft(s)
    decreases |work|
  {
    hide Enabled, Next, WorkLeft;
    if work != [] {
      WorkerStepCounts(s, work[0]);
      WorkBounds(Next(s, work[0]), work[1..]);
    }
  }

  /** Left to itself, a worker that has been created takes no more than `WorkLeft` steps; and when
      it can take no more, with every release made, it has served everything that was queued,
      or it is done because it was asked to quit or failed to mount. */
  lemma EverythingIsServed(before: seq<Action>, work: seq<Action>)
    requires Run(before).Some? && RunFrom(Run(before).value, work).Some? && forall a :: a in work ==> OfWorker(a)
    ensures |work| <= WorkLeft(Run(before).value)
    ensures var s := RunFrom(Run(before).value, work).value;
            (forall a :: OfWorker(a) ==> !Enabled(s, a)) && !s.worker.WAbsent? && s.line.unreleased == 0 ==>
              s.worker.WDone? || (s.line.queue == [] && s.line.served == s.line.inserted)
  {
    hide Run, Enabled, Next;
    var s := RunFrom(Run(before).value, work).value;
    WorkBounds(Run(before).value, work);
    RunExtends(before, Run(before).value, work);
    NoLostWakeup(before + work);
    if (forall a :: OfWorker(a) ==> !Enabled(s, a)) && !s.worker.WAbsent? {
      WhenWorkerStops(s);
    }
  }

  /** The worker waits, looks or leaves, and has been asked to quit. */
  predicate Quitting(s: State) {
    && s.shared.quit && !s.starter.SCreate?
    && (s.worker.WWait? || s.worker.WCheck? || s.worker.WRecheck? || Leaving(s.worker))
  }

  lemma QuittingStays(s: State, a: Action)
    requires Quitting(s) && Enabled(s, a)
    ensures Quitting(Next(s, a)) && Next(s, a).line.served == s.line.served
    ensures s.line.queue <= Next(s, a).line.queue
    ensures s.worker.WCheck? && OfWorker(a) ==> Next(s, a).worker.WClose?
  {
  }

  /** From then on, however the run goes on, it serves nothing more and takes nothing from the queue. */
  lemma {:induction false} NothingServedOnceQuitting(s: State, more: seq<Action>)
    requires Quitting(s) && RunFrom(s, more).Some?
    ensures RunFrom(s, more).value.line.served == s.line.served
    ensures s.line.queue <= RunFrom(s, more).value.line.queue
    decreases |more|
  {
    hide Enabled, Next, Quitting;
    if more != [] {
      QuittingStays(s, more[0]);
      NothingServedOnceQuitting(Next(s, more[0]), more[1..]);
    }
  }

  /** A stopper that waits for the worker never waits for one that is itself stuck. */
  lemma StopperIsNotStuck(actions: seq<Action>)
    requires Run(actions).Some?
    ensures var s := Run(actions).value;
            s.stopper.UJoin? ==> Enabled(s, StopperSteps) || exists a :: OfWorker(a) && Enabled(s, a)
  {
    hide Run;
    InvariantAlways(actions);
    var s := Run(actions).value;
    if s.stopper.UJoin? && !Enabled(s, StopperSteps) {
      assert Enabled(s, WorkerSteps);
    }
  }
}
