/**
 Callers and workers interleaving over the slots of the task pool, for any number of slots. A step
 is one critical section or one private move of a thread; every reachable state satisfies `Inv`.
 */
module TaskProtocol {
  import opened Common
  import opened TaskPool

  // ---------------------------------------------------------------- threads

  /** The thread that called task_run: before the worker exists, with the handle, without it. */
  datatype Caller = NoCaller | Spawning | Holding | Gone

  /** Where the worker thread of a reservation stands in inner_thread_function. */
  datatype Worker =
    | NoWorker
    | Created
    | InFunction
    | Returned(result: TaskResult)
    | HasPublished(captured: Option<Continuation>)
    | HasContinued
    | Finished

  /** What is observable of one reservation, in order. */
  datatype Event =
    | Accepted(continuation: Continuation)
    | Refused(continuation: Continuation)
    | CancelSeen
    | FunctionReturned(result: TaskResult)
    | Completed(status: Status, result: TaskResult)
    | Invoked(continuation: Continuation)
    | WorkerLeft

  /** One reservation of a slot. */
  datatype Use = Use(generation: nat, caller: Caller, worker: Worker, events: seq<Event>)

  datatype State = State(slots: seq<Slot>, uses: seq<Use>, past: seq<Use>)

  function Start(size: nat): State {
    State(seq(size, _ => FREE_SLOT), seq(size, _ => Use(0, NoCaller, NoWorker, [])), [])
  }

  /** Whether the caller's reference is out. */
  predicate CallerHolds(u: Use) {
    u.caller == Spawning || u.caller == Holding
  }

  predicate WorkerRuns(u: Use) {
    u.worker != NoWorker && u.worker != Finished
  }

  /** Whether the worker's reference is out: it is reserved before the thread exists. */
  predicate WorkerHolds(u: Use) {
    u.caller == Spawning || WorkerRuns(u)
  }

  function References(u: Use): nat {
    (if CallerHolds(u) then 1 else 0) + (if WorkerHolds(u) then 1 else 0)
  }

  /** Who may pass the handle to the pool's functions: a caller, or the worker in its function or continuation. */
  predicate MayUse(u: Use) {
    u.caller == Holding || WorkerRuns(u)
  }

  // ---------------------------------------------------------------- steps

  datatype Action =
    | Reserve
    | Spawn(i: nat)
    | SpawnFails(i: nat)
    | Begin(i: nat)
    | Return(i: nat, result: TaskResult)
    | Publish(i: nat)
    | Continue(i: nat)
    | Leave(i: nat)
    | Release(i: nat)
    | Cancel(i: nat)
    | Register(i: nat, continuation: Continuation)

  /** The slot an action works on. */
  function Target(s: State, a: Action): nat {
    if a == Reserve then FirstFree(s.slots) else a.i
  }

  /** Whether the thread concerned stands where it takes this step; a handle is released at most once. */
  predicate Ready(s: Slot, u: Use, a: Action) {
    match a
    case Reserve => !s.inUse
    case Spawn(_) => u.caller == Spawning
    case SpawnFails(_) => u.caller == Spawning
    case Begin(_) => u.worker == Created
    case Return(_, _) => u.worker == InFunction
    case Publish(_) => u.worker.Returned?
    case Continue(_) => u.worker.HasPublished?
    case Leave(_) => u.worker == HasContinued
    case Release(_) => u.caller == Holding
    case Cancel(_) => MayUse(u)
    case Register(_, _) => MayUse(u)
  }

  predicate Enabled(s: State, a: Action)
    requires |s.slots| == |s.uses|
  {
    var i := Target(s, a);
    i < |s.uses| && Ready(s.slots[i], s.uses[i], a)
  }

  function NextSlot(s: Slot, u: Use, a: Action): Slot
    requires a.Publish? ==> u.worker.Returned?
  {
    match a
    case Reserve => Reserved()
    case SpawnFails(_) => Unreserved(s)
    case Begin(_) => Started(s)
    case Publish(_) => Published(s, u.worker.result)
    case Leave(_) => Dropped(s)
    case Release(_) => Dropped(s)
    case Cancel(_) => CancelAsked(s)
    case Register(_, c) => Continued(s, c)
    case _ => s
  }

  function NextUse(s: Slot, u: Use, a: Action): Use
    requires a.Publish? ==> u.worker.Returned?
    requires a.Continue? ==> u.worker.HasPublished?
  {
    match a
    case Reserve => Use(u.generation + 1, Spawning, NoWorker, [])
    case Spawn(_) => u.(caller := Holding, worker := Created)
    case SpawnFails(_) => u.(caller := NoCaller)
    case Begin(_) => u.(worker := InFunction)
    case Return(_, r) => u.(worker := Returned(r), events := u.events + [FunctionReturned(r)])
    case Publish(_) =>
      var p := Published(s, u.worker.result);
      u.(worker := HasPublished(s.continuation), events := u.events + [Completed(p.status, p.result)])
    case Continue(_) =>
      var c := u.worker.captured;
      u.(worker := HasContinued, events := if c.Some? then u.events + [Invoked(c.value)] else u.events)
    case Leave(_) => u.(worker := Finished, events := u.events + [WorkerLeft])
    case Release(_) => u.(caller := Gone)
    case Cancel(_) => u.(events := u.events + [CancelSeen])
    case Register(_, c) => u.(events := u.events + [if Accepts(s) then Accepted(c) else Refused(c)])
  }

  function Step(s: State, a: Action): State
    requires |s.slots| == |s.uses| && Enabled(s, a)
  {
    var i := Target(s, a);
    State(s.slots[i := NextSlot(s.slots[i], s.uses[i], a)],
          s.uses[i := NextUse(s.slots[i], s.uses[i], a)],
          if a == Reserve then s.past + [s.uses[i]] else s.past)
  }

  /** A run: the actions that are not enabled when their turn comes do not happen. */
  function Run(s: State, actions: seq<Action>): (r: State)
    requires |s.slots| == |s.uses|
    ensures |r.slots| == |r.uses| == |s.uses|
    decreases |actions|
  {
    if actions == [] then s
    else Run(if Enabled(s, actions[0]) then Step(s, actions[0]) else s, actions[1..])
  }

  // ---------------------------------------------------------------- what a reservation may show

  /** Open, completed, continuation called, worker gone; each with the continuation accepted. */
  datatype Phase =
    | Open(accepted: Option<Continuation>)
    | Done(accepted: Option<Continuation>)
    | Called(accepted: Option<Continuation>)
    | Left(accepted: Option<Continuation>)
    | Wrong

  /**
   The protocol a reservation keeps: while it is open the first continuation offered is accepted and
   every other refused; it completes once; then the accepted continuation, if any, is called
   once; then the worker leaves.
   */
  function Follow(p: Phase, e: Event): Phase {
    match e
    case CancelSeen => p
    case Accepted(c) => if p == Open(None) then Open(Some(c)) else Wrong
    case Refused(c) => if p == Open(None) then Wrong else p
    case FunctionReturned(_) => if p.Open? then p else Wrong
    case Completed(status, _) => if p.Open? && IsTerminal(status) then Done(p.accepted) else Wrong
    case Invoked(c) => if p == Done(Some(c)) then Called(Some(c)) else Wrong
    case WorkerLeft => if p == Done(None) || p.Called? then Left(p.accepted) else Wrong
  }

  function PhaseOf(events: seq<Event>): Phase
    decreases |events|
  {
    if events == [] then Open(None) else Follow(PhaseOf(events[..|events| - 1]), events[|events| - 1])
  }

  lemma {:induction false} PhaseNext(events: seq<Event>, e: Event)
    ensures PhaseOf(events + [e]) == Follow(PhaseOf(events), e)
  {
    assert (events + [e])[..|events|] == events;
  }

  /** What the task function has returned. */
  function ReturnsOf(events: seq<Event>): seq<TaskResult>
    decreases |events|
  {
    if events == [] then []
    else
      var e := events[|events| - 1];
      ReturnsOf(events[..|events| - 1]) + if e.FunctionReturned? then [e.result] else []
  }

  /**
   The status and the result published: the result is the one that the function has returned, once; the status
   is canceled exactly when that is cancelled or a cancel request came before; otherwise it is
   faulted exactly when that is an error.
   */
  predicate RightStatus(before: seq<Event>, status: Status, result: TaskResult) {
    ReturnsOf(before) == [result]
    && (status == Canceled <==> result == Cancelled || CancelSeen in before)
    && (status == Faulted <==> status != Canceled && result.Failure?)
    && IsTerminal(status)
  }

  predicate RightlyCompleted(events: seq<Event>) {
    forall k :: 0 <= k < |events| && events[k].Completed? ==>
      RightStatus(events[..k], events[k].status, events[k].result)
  }

  /** The events agree with what the threads have done. */
  predicate EventsFit(s: Slot, u: Use) {
    var p := PhaseOf(u.events);
    match u.worker
    case HasPublished(c) => p == Done(c) && s.continuation == c
    case HasContinued => (p.Called? || p == Done(None)) && s.continuation == p.accepted
    case Finished => p.Left? && s.continuation == p.accepted
    case _ => p.Open? && s.continuation == p.accepted
  }

  predicate HasCompleted(u: Use) {
    u.worker.HasPublished? || u.worker == HasContinued || u.worker == Finished
  }

  /** What the worker has from the function: nothing yet, the result in its hands, or the one in the slot. */
  function ResultSoFar(s: Slot, u: Use): seq<TaskResult> {
    if u.worker.Returned? then [u.worker.result] else if HasCompleted(u) then [s.result] else []
  }

  /** The status a slot shows is where its reservation stands. */
  predicate StatusFits(s: Slot, u: Use) {
    ReturnsOf(u.events) == ResultSoFar(s, u)
    && (u.caller == NoCaller ==> s.status == Idle)
    && (u.caller == Spawning || u.worker == Created ==> s.status == Pending)
    && (u.worker == InFunction || u.worker.Returned? ==> s.status == Running)
    && (HasCompleted(u) ==> IsTerminal(s.status) && Completed(s.status, s.result) in u.events)
    && (!HasCompleted(u) && References(u) > 0 ==>
          s.cancelRequested == (CancelSeen in u.events) && forall k :: 0 <= k < |u.events| ==> !u.events[k].Completed?)
  }

  predicate SlotInv(s: Slot, u: Use) {
    s.refCount == References(u)
    && s.inUse == (References(u) > 0)
    && (u.caller == Spawning || u.caller == NoCaller ==> u.worker == NoWorker)
    && (u.caller == Spawning || u.caller == NoCaller ==> u.events == [])
    && (u.caller == Holding || u.caller == Gone ==> u.worker != NoWorker)
    && EventsFit(s, u)
    && StatusFits(s, u)
    && RightlyCompleted(u.events)
  }

  /** A reservation that is over: nobody holds it, and if it ever ran the worker left last as the protocol asks. */
  predicate IsOver(u: Use) {
    References(u) == 0
    && (u.caller == Gone ==> PhaseOf(u.events).Left?)
    && (u.caller == NoCaller ==> u.worker == NoWorker && u.events == [])
    && RightlyCompleted(u.events)
  }

  predicate Inv(s: State) {
    |s.slots| == |s.uses|
    && (forall i :: 0 <= i < |s.uses| ==> SlotInv(s.slots[i], s.uses[i]))
    && (forall k :: 0 <= k < |s.past| ==> IsOver(s.past[k]))
  }

  // ---------------------------------------------------------------- the invariant

  lemma {:induction false} AppendEvent(events: seq<Event>, e: Event)
    requires RightlyCompleted(events)
    requires e.Completed? ==> RightStatus(events, e.status, e.result)
    ensures RightlyCompleted(events + [e])
    ensures PhaseOf(events + [e]) == Follow(PhaseOf(events), e)
    ensures ReturnsOf(events + [e]) == ReturnsOf(events) + if e.FunctionReturned? then [e.result] else []
  {
    PhaseNext(events, e);
    assert (events + [e])[..|events|] == events;
    var es := events + [e];
    forall k | 0 <= k < |es| && es[k].Completed? ensures RightStatus(es[..k], es[k].status, es[k].result) {
      if k < |events| {
        assert es[..k] == events[..k] && es[k] == events[k];
      } else {
        assert es[..k] == events;
      }
    }
  }

  lemma {:induction false} ReturnKeeps(s: Slot, u: Use, r: TaskResult)
    requires SlotInv(s, u) && u.worker == InFunction
    ensures SlotInv(NextSlot(s, u, Return(0, r)), NextUse(s, u, Return(0, r)))
  {
    hide PhaseOf, RightlyCompleted, ReturnsOf;
    AppendEvent(u.events, FunctionReturned(r));
  }

  lemma {:induction false} PublishKeeps(s: Slot, u: Use)
    requires SlotInv(s, u) && u.worker.Returned?
    ensures SlotInv(NextSlot(s, u, Publish(0)), NextUse(s, u, Publish(0)))
  {
    hide PhaseOf, RightlyCompleted, ReturnsOf;
    var p := Published(s, u.worker.result);
    AppendEvent(u.events, Completed(p.status, p.result));
  }

  lemma {:induction false} ContinueKeeps(s: Slot, u: Use)
    requires SlotInv(s, u) && u.worker.HasPublished?
    ensures SlotInv(NextSlot(s, u, Continue(0)), NextUse(s, u, Continue(0)))
  {
    hide PhaseOf, RightlyCompleted, ReturnsOf;
    if u.worker.captured.Some? {
      AppendEvent(u.events, Invoked(u.worker.captured.value));
    }
  }

  lemma {:induction false} LeaveKeeps(s: Slot, u: Use)
    requires SlotInv(s, u) && u.worker == HasContinued
    ensures SlotInv(NextSlot(s, u, Leave(0)), NextUse(s, u, Leave(0)))
  {
    hide PhaseOf, RightlyCompleted, ReturnsOf;
    AppendEvent(u.events, WorkerLeft);
  }

  lemma {:induction false} CancelKeeps(s: Slot, u: Use)
    requires SlotInv(s, u) && MayUse(u)
    ensures SlotInv(NextSlot(s, u, Cancel(0)), NextUse(s, u, Cancel(0)))
  {
    hide PhaseOf, RightlyCompleted, ReturnsOf;
    AppendEvent(u.events, CancelSeen);
  }

  lemma {:induction false} RegisterKeeps(s: Slot, u: Use, c: Continuation)
    requires SlotInv(s, u) && MayUse(u)
    ensures SlotInv(NextSlot(s, u, Register(0, c)), NextUse(s, u, Register(0, c)))
  {
    hide PhaseOf, RightlyCompleted, ReturnsOf;
    AppendEvent(u.events, if Accepts(s) then Accepted(c) else Refused(c));
  }

  /** Every step of every thread keeps the invariant of its slot. */
  lemma {:induction false} SlotStep(s: Slot, u: Use, a: Action)
    requires SlotInv(s, u) && Ready(s, u, a)
    ensures SlotInv(NextSlot(s, u, a), NextUse(s, u, a))
  {
    match a
    case Return(_, r) => ReturnKeeps(s, u, r);
    case Publish(_) => PublishKeeps(s, u);
    case Continue(_) => ContinueKeeps(s, u);
    case Leave(_) => LeaveKeeps(s, u);
    case Cancel(_) => CancelKeeps(s, u);
    case Register(_, c) => RegisterKeeps(s, u, c);
    case _ => MoveKeeps(s, u, a);
  }

  /** The steps that show nothing. */
  lemma {:induction false} MoveKeeps(s: Slot, u: Use, a: Action)
    requires SlotInv(s, u) && Ready(s, u, a)
    requires a == Reserve || a.Spawn? || a.SpawnFails? || a.Begin? || a.Release?
    ensures SlotInv(NextSlot(s, u, a), NextUse(s, u, a))
  {
    hide Follow;
  }

  lemma {:induction false} StartInv(size: nat)
    ensures Inv(Start(size))
  {
  }

  lemma {:induction false} StepInv(s: State, a: Action)
    requires Inv(s) && Enabled(s, a)
    ensures Inv(Step(s, a))
  {
    hide SlotInv, NextSlot, NextUse;
    var i := Target(s, a);
    SlotStep(s.slots[i], s.uses[i], a);
    if a == Reserve {
      assert IsOver(s.uses[i]) by { FreeIsOver(s.slots[i], s.uses[i]); }
    }
  }

  lemma {:induction false} FreeIsOver(s: Slot, u: Use)
    requires SlotInv(s, u) && !s.inUse
    ensures IsOver(u)
  {
  }

  /** The invariant holds in every reachable interleaving. */
  lemma {:induction false} RunInv(s: State, actions: seq<Action>)
    requires Inv(s)
    ensures Inv(Run(s, actions))
    decreases |actions|
  {
    hide Inv;
    assert |s.slots| == |s.uses| by { InvSizes(s); }
    if actions != [] {
      if Enabled(s, actions[0]) {
        StepInv(s, actions[0]);
        RunInv(Step(s, actions[0]), actions[1..]);
      } else {
        RunInv(s, actions[1..]);
      }
    }
  }

  lemma {:induction false} InvSizes(s: State)
    requires Inv(s)
    ensures |s.slots| == |s.uses|
  {
  }

  // ---------------------------------------------------------------- what callers may rely on

  /**
   In every reachable interleaving ref_count is the number of holders, and a slot is in use exactly
   while it has one.
   */
  lemma {:induction false} ReferencesExact(size: nat, actions: seq<Action>, i: nat)
    requires i < size
    ensures var r := Run(Start(size), actions);
            && |r.slots| == |r.uses| == size
            && r.slots[i].refCount == References(r.uses[i])
            && r.slots[i].inUse == (CallerHolds(r.uses[i]) || WorkerHolds(r.uses[i]))
  {
    hide Run, StatusFits, EventsFit, RightlyCompleted;
    StartInv(size);
    RunInv(Start(size), actions);
  }

  /** The slot reserve_task hands out has no holder of its earlier use, and it finds one whenever there is one. */
  lemma {:induction false} ReserveIsSafe(size: nat, actions: seq<Action>)
    ensures var r := Run(Start(size), actions);
            && |r.slots| == |r.uses| == size
            && (Enabled(r, Reserve) ==> References(r.uses[Target(r, Reserve)]) == 0)
            && (Enabled(r, Reserve) <==> exists i :: 0 <= i < size && References(r.uses[i]) == 0)
  {
    hide Run, StatusFits, EventsFit, RightlyCompleted;
    StartInv(size);
    RunInv(Start(size), actions);
  }

  // ---- the story of a reservation

  /** The events other than cancel requests, refused continuations and the function's return. */
  function Core(events: seq<Event>): seq<Event>
    decreases |events|
  {
    if events == [] then []
    else
      var e := events[|events| - 1];
      var before := Core(events[..|events| - 1]);
      if e == CancelSeen || e.Refused? || e.FunctionReturned? then before else before + [e]
  }

  /** A reservation from its start until its worker leaves. */
  predicate WholeStory(core: seq<Event>) {
    if |core| == 2 then core[0].Completed? && core[1] == WorkerLeft
    else |core| == 4 && core[0].Accepted? && core[1].Completed? && core[2] == Invoked(core[0].continuation)
         && core[3] == WorkerLeft
  }

  predicate StorySoFar(core: seq<Event>) {
    |core| <= 4
    && (|core| > 0 ==> core[0].Accepted? || core[0].Completed?)
    && (|core| > 1 ==> if core[0].Accepted? then core[1].Completed? else core[1] == WorkerLeft)
    && (|core| > 2 ==> core[0].Accepted? && core[2] == Invoked(core[0].continuation))
    && (|core| > 3 ==> core[3] == WorkerLeft)
  }

  /** A continuation is accepted exactly when none was accepted before and the task has not completed. */
  predicate FirstOfferWins(events: seq<Event>) {
    forall k :: 0 <= k < |events| ==>
      (events[k].Accepted? ==> Core(events[..k]) == []) && (events[k].Refused? ==> Core(events[..k]) != [])
  }

  predicate Fits(p: Phase, core: seq<Event>) {
    StorySoFar(core)
    && match p
       case Open(None) => core == []
       case Open(Some(c)) => core == [Accepted(c)]
       case Done(None) => |core| == 1 && core[0].Completed?
       case Done(Some(c)) => |core| == 2 && core[0] == Accepted(c)
       case Called(None) => false
       case Called(Some(c)) => |core| == 3 && core[0] == Accepted(c)
       case Left(_) => WholeStory(core)
       case Wrong => false
  }

  lemma {:induction false} FollowFits(p: Phase, core: seq<Event>, e: Event)
    requires Fits(p, core) && Follow(p, e) != Wrong
    ensures Fits(Follow(p, e), if e == CancelSeen || e.Refused? || e.FunctionReturned? then core else core + [e])
    ensures (e.Accepted? ==> core == []) && (e.Refused? ==> core != [])
  {
  }

  lemma {:induction false} PhaseTellsStory(events: seq<Event>)
    requires PhaseOf(events) != Wrong
    ensures Fits(PhaseOf(events), Core(events)) && FirstOfferWins(events)
    decreases |events|
  {
    hide Fits, Follow;
    if events == [] {
      assert Fits(Open(None), []) by { FitsAtFirst(); }
    } else {
      var before, e := events[..|events| - 1], events[|events| - 1];
      assert PhaseOf(before) != Wrong by { WrongStays(PhaseOf(before), e); }
      PhaseTellsStory(before);
      FollowFits(PhaseOf(before), Core(before), e);
      forall k | 0 <= k < |events|
        ensures (events[k].Accepted? ==> Core(events[..k]) == []) && (events[k].Refused? ==> Core(events[..k]) != [])
      {
        if k < |before| {
          assert events[..k] == before[..k] && events[k] == before[k];
        }
      }
    }
  }

  lemma {:induction false} FitsAtFirst()
    ensures Fits(Open(None), [])
  {
  }

  lemma {:induction false} WrongStays(p: Phase, e: Event)
    ensures p == Wrong ==> Follow(p, e) == Wrong
  {
  }

  /**
   Every reservation, present or past, of every reachable interleaving: its story is a beginning of
   "a continuation accepted or not; completion with the right status; that continuation called;
   the worker gone"; the whole of it once the worker has finished.
   */
  predicate TellsStory(u: Use) {
    StorySoFar(Core(u.events))
    && FirstOfferWins(u.events)
    && RightlyCompleted(u.events)
    && (u.worker == Finished ==> WholeStory(Core(u.events)))
  }

  lemma {:induction false} UseTellsStory(u: Use)
    requires PhaseOf(u.events) != Wrong && RightlyCompleted(u.events)
    requires u.worker == Finished ==> PhaseOf(u.events).Left?
    ensures TellsStory(u)
  {
    hide PhaseOf, Core, WholeStory, StorySoFar, FirstOfferWins, RightlyCompleted;
    PhaseTellsStory(u.events);
  }

  lemma {:induction false} ReservationsTellStories(size: nat, actions: seq<Action>)
    ensures var r := Run(Start(size), actions);
            forall u :: u in r.uses || u in r.past ==> TellsStory(u)
  {
    hide Run, TellsStory, RightlyCompleted, PhaseOf, StatusFits;
    StartInv(size);
    var r := Run(Start(size), actions);
    RunInv(Start(size), actions);
    forall u | u in r.uses ensures TellsStory(u) {
      var i :| 0 <= i < |r.uses| && r.uses[i] == u;
      UseTellsStory(u);
    }
    forall u | u in r.past ensures TellsStory(u) {
      var k :| 0 <= k < |r.past| && r.past[k] == u;
      OverTellsStory(u);
    }
  }

  lemma {:induction false} OverTellsStory(u: Use)
    requires IsOver(u)
    ensures TellsStory(u)
  {
    hide Core, WholeStory, StorySoFar, FirstOfferWins, RightlyCompleted;
    UseTellsStory(u);
  }

  // ---- the status and the result a handle shows

  /**
   From publication until the slot is reserved again it shows the result that the function of its own
   reservation returned, with the status published.
   */
  lemma {:induction false} ShowsWhatWasReturned(size: nat, actions: seq<Action>, i: nat)
    requires i < size
    ensures var r := Run(Start(size), actions);
            |r.slots| == |r.uses| == size
            && (HasCompleted(r.uses[i]) ==>
                  ReturnsOf(r.uses[i].events) == [r.slots[i].result]
                  && Completed(r.slots[i].status, r.slots[i].result) in r.uses[i].events)
            && (r.uses[i].caller == NoCaller ==> r.slots[i].status == Idle)
  {
    hide Run, EventsFit, RightlyCompleted, ReturnsOf;
    StartInv(size);
    RunInv(Start(size), actions);
  }

  function Rank(s: Status): int {
    if s == Pending then 0 else if s == Running then 1 else if IsTerminal(s) then 2 else -1
  }

  /** A slot seen later in the same reservation: further on, or the same; a terminal status and its result stay. */
  predicate Advanced(s: Slot, later: Slot) {
    Rank(s.status) < Rank(later.status)
    || (s.status == later.status && (IsTerminal(s.status) ==> s.result == later.result))
  }

  lemma {:induction false} StepAdvances(s: State, a: Action, i: nat)
    requires Inv(s) && Enabled(s, a) && i < |s.uses| && s.uses[i].worker != NoWorker
    ensures var r := Step(s, a);
            && r.uses[i].generation >= s.uses[i].generation
            && (r.uses[i].generation == s.uses[i].generation ==>
                  r.uses[i].worker != NoWorker && s.uses[i].events <= r.uses[i].events
                  && Advanced(s.slots[i], r.slots[i]))
  {
    hide EventsFit, RightlyCompleted;
    assert SlotInv(s.slots[i], s.uses[i]);
  }

  /**
   Whatever the threads do next, while a slot stays in the same reservation its status only goes
   pending, running, terminal; a terminal status and the result with it never change.
   */
  lemma {:induction false} RunAdvances(s: State, actions: seq<Action>, i: nat)
    requires Inv(s) && i < |s.uses| && s.uses[i].worker != NoWorker
    ensures var r := Run(s, actions);
            && r.uses[i].generation >= s.uses[i].generation
            && (r.uses[i].generation == s.uses[i].generation ==>
                  r.uses[i].worker != NoWorker && s.uses[i].events <= r.uses[i].events
                  && Advanced(s.slots[i], r.slots[i]))
    decreases |actions|
  {
    if actions != [] {
      var rest := actions[1..];
      if Enabled(s, actions[0]) {
        var t := Step(s, actions[0]);
        assert Run(s, actions) == Run(t, rest);
        hide *;
        StepInv(s, actions[0]);
        InvSizes(s);
        InvSizes(t);
        StepAdvances(s, actions[0], i);
        if t.uses[i].generation == s.uses[i].generation {
          RunAdvances(t, rest, i);
          AdvancedThrough(s.slots[i], t.slots[i], Run(t, rest).slots[i]);
        } else {
          GenerationsGrow(t, rest, i);
        }
      } else {
        RunAdvances(s, rest, i);
      }
    }
  }

  lemma {:induction false} AdvancedThrough(s: Slot, t: Slot, r: Slot)
    requires Advanced(s, t)
    ensures Advanced(t, r) ==> Advanced(s, r)
  {
  }

  lemma {:induction false} GenerationsGrow(s: State, actions: seq<Action>, i: nat)
    requires |s.slots| == |s.uses| && i < |s.uses|
    ensures Run(s, actions).uses[i].generation >= s.uses[i].generation
    decreases |actions|
  {
    if actions != [] {
      GenerationsGrow(if Enabled(s, actions[0]) then Step(s, actions[0]) else s, actions[1..], i);
    }
  }

  // ---- nothing leaks

  /** The steps left before a reservation is over, if no function blocks for ever and the caller releases. */
  function StepsLeft(u: Use): nat {
    (match u.worker
     case NoWorker => if u.caller == Spawning then 6 else 0
     case Created => 5
     case InFunction => 4
     case Returned(_) => 3
     case HasPublished(_) => 2
     case HasContinued => 1
     case Finished => 0)
    + (if CallerHolds(u) then 1 else 0)
  }

  /** The next step of the reservation: the worker's, or the release when the worker is done. */
  function NextAction(u: Use, i: nat): Action
    requires StepsLeft(u) > 0
  {
    match u.worker
    case NoWorker => if u.caller == Spawning then Spawn(i) else Release(i)
    case Created => Begin(i)
    case InFunction => Return(i, Success(0))
    case Returned(_) => Publish(i)
    case HasPublished(_) => Continue(i)
    case HasContinued => Leave(i)
    case Finished => Release(i)
  }

  lemma {:induction false} NextActionHelps(s: State, i: nat)
    requires Inv(s) && i < |s.uses| && StepsLeft(s.uses[i]) > 0
    ensures Enabled(s, NextAction(s.uses[i], i))
    ensures StepsLeft(Step(s, NextAction(s.uses[i], i)).uses[i]) < StepsLeft(s.uses[i])
  {
    hide StatusFits, EventsFit, RightlyCompleted;
    assert SlotInv(s.slots[i], s.uses[i]);
  }

  /** A step of the threads of the reservation in slot `i`: its caller's or its worker's. */
  predicate OwnStep(a: Action, i: nat) {
    (a.Spawn? || a.Begin? || a.Return? || a.Publish? || a.Continue? || a.Leave? || a.Release?) && a.i == i
  }

  /** From every reachable state a slot in use can be brought back to the pool by its own threads. */
  lemma {:induction false} SlotComesBack(s: State, i: nat) returns (actions: seq<Action>)
    requires Inv(s) && i < |s.uses|
    ensures |Run(s, actions).slots| == |s.slots| && !Run(s, actions).slots[i].inUse
    ensures |actions| <= StepsLeft(s.uses[i]) <= 7
    ensures forall a :: a in actions ==> OwnStep(a, i)
    decreases StepsLeft(s.uses[i])
  {
    if StepsLeft(s.uses[i]) == 0 {
      actions := [];
      assert SlotInv(s.slots[i], s.uses[i]);
    } else {
      var a := NextAction(s.uses[i], i);
      NextActionHelps(s, i);
      StepInv(s, a);
      var rest := SlotComesBack(Step(s, a), i);
      actions := [a] + rest;
      assert actions[1..] == rest;
    }
  }
}
