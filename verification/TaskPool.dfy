/**
 The task pool of src/task.c: fixed slots shared by callers and workers. Each critical section is a
 function on the slot it changes; TaskProtocol lets them interleave.
 */
module TaskPool {
  import opened Common

  /** What a task function returns: `is_error` splits success from failure, `cancelled` is told apart. */
  datatype TaskResult = Success(code: nat) | Cancelled | Failure(code: nat)

  datatype Status = Idle | Pending | Running | RanToCompletion | Canceled | Faulted

  predicate IsTerminal(s: Status) {
    s == RanToCompletion || s == Canceled || s == Faulted
  }

  /** A continuation and its state, by name. */
  type Continuation = nat

  datatype Slot = Slot(
    inUse: bool,
    refCount: int,
    status: Status,
    cancelRequested: bool,
    result: TaskResult,
    continuation: Option<Continuation>)

  const FREE_SLOT := Slot(false, 0, Idle, false, Success(0), None)

  // ---------------------------------------------------------------- critical sections

  /** reserve_task, on the slot it takes: one reference for the caller, one for the worker. */
  function Reserved(): Slot {
    Slot(true, 2, Pending, false, Success(0), None)
  }

  /** release_reservation, when no worker thread could be started. */
  function Unreserved(s: Slot): Slot {
    s.(inUse := false, refCount := 0, status := Idle)
  }

  /** task_decrement_ref */
  function Dropped(s: Slot): Slot {
    s.(refCount := s.refCount - 1, inUse := s.inUse && s.refCount - 1 > 0)
  }

  /** The worker's first critical section. */
  function Started(s: Slot): Slot {
    s.(status := Running)
  }

  function FinalStatus(s: Slot, r: TaskResult): Status {
    if r == Cancelled || s.cancelRequested then Canceled else if r.Failure? then Faulted else RanToCompletion
  }

  /** The worker's second critical section: the result and the terminal status become visible together. */
  function Published(s: Slot, r: TaskResult): Slot {
    s.(result := r, status := FinalStatus(s, r))
  }

  /** task_request_cancel */
  function CancelAsked(s: Slot): Slot {
    s.(cancelRequested := true)
  }

  predicate Accepts(s: Slot) {
    s.continuation == None && !IsTerminal(s.status)
  }

  /** task_continue_with */
  function Continued(s: Slot, c: Continuation): Slot {
    if Accepts(s) then s.(continuation := Some(c)) else s
  }

  /** The slot reserve_task takes: the first that is not in use. */
  function FirstFree(slots: seq<Slot>): (i: nat)
    ensures i <= |slots|
    ensures forall k :: 0 <= k < i ==> slots[k].inUse
    ensures i < |slots| ==> !slots[i].inUse
  {
    if slots == [] || !slots[0].inUse then 0 else 1 + FirstFree(slots[1..])
  }

  /** The slots as the functions of src/task.c change them, each method one critical section. */
  class Pool {
    const tasks: array<Slot>

    constructor (size: nat)
      ensures fresh(tasks) && tasks[..] == seq(size, _ => FREE_SLOT)
    {
      tasks := new Slot[size](_ => FREE_SLOT);
    }

    method ReserveTask() returns (task: Option<nat>)
      modifies tasks
      ensures var before := old(tasks[..]);
              var i := FirstFree(before);
              if i == |before| then task == None && tasks[..] == before
              else task == Some(i) && tasks[..] == before[i := Reserved()]
    {
      for i := 0 to tasks.Length
        invariant forall k :: 0 <= k < i ==> tasks[k].inUse
        invariant tasks[..] == old(tasks[..])
      {
        if !tasks[i].inUse {
          FirstFreeIs(tasks[..], i);
          tasks[i] := Slot(true, 2, Pending, false, Success(0), None);
          return Some(i);
        }
      }
      FirstFreeIs(tasks[..], tasks.Length);
      return None;
    }

    static lemma {:induction false} FirstFreeIs(slots: seq<Slot>, i: nat)
      requires i <= |slots| && (forall k :: 0 <= k < i ==> slots[k].inUse) && (i < |slots| ==> !slots[i].inUse)
      ensures FirstFree(slots) == i
    {
      if i > 0 {
        FirstFreeIs(slots[1..], i - 1);
      }
    }

    method ReleaseReservation(i: nat)
      requires i < tasks.Length
      modifies tasks
      ensures tasks[..] == old(tasks[..])[i := Unreserved(old(tasks[i]))]
    {
      tasks[i] := tasks[i].(inUse := false);
      tasks[i] := tasks[i].(refCount := 0);
      tasks[i] := tasks[i].(status := Idle);
    }

    method DecrementRef(i: nat)
      requires i < tasks.Length
      modifies tasks
      ensures tasks[..] == old(tasks[..])[i := Dropped(old(tasks[i]))]
    {
      tasks[i] := tasks[i].(refCount := tasks[i].refCount - 1);
      if tasks[i].refCount <= 0 {
        tasks[i] := tasks[i].(inUse := false);
      }
    }

    method StartRunning(i: nat)
      requires i < tasks.Length
      modifies tasks
      ensures tasks[..] == old(tasks[..])[i := Started(old(tasks[i]))]
    {
      tasks[i] := tasks[i].(status := Running);
    }

    method Publish(i: nat, r: TaskResult) returns (continuation: Option<Continuation>)
      requires i < tasks.Length
      modifies tasks
      ensures tasks[..] == old(tasks[..])[i := Published(old(tasks[i]), r)]
      ensures continuation == old(tasks[i]).continuation
    {
      tasks[i] := tasks[i].(result := r);
      if r == Cancelled || tasks[i].cancelRequested {
        tasks[i] := tasks[i].(status := Canceled);
      } else if r.Failure? {
        tasks[i] := tasks[i].(status := Faulted);
      } else {
        tasks[i] := tasks[i].(status := RanToCompletion);
      }
      continuation := tasks[i].continuation;
    }

    method RequestCancel(i: nat)
      requires i < tasks.Length
      modifies tasks
      ensures tasks[..] == old(tasks[..])[i := CancelAsked(old(tasks[i]))]
    {
      tasks[i] := tasks[i].(cancelRequested := true);
    }

    method ContinueWith(i: nat, c: Continuation) returns (r: Result)
      requires i < tasks.Length
      modifies tasks
      ensures tasks[..] == old(tasks[..])[i := Continued(old(tasks[i]), c)]
      ensures r == if Accepts(old(tasks[i])) then Ok else InvalidArgument
    {
      if tasks[i].continuation != None || IsTerminal(tasks[i].status) {
        return InvalidArgument;
      }
      tasks[i] := tasks[i].(continuation := Some(c));
      return Ok;
    }
  }

  // ---------------------------------------------------------------- completion source

  datatype Source = Source(completed: bool, result: TaskResult)

  /** What a run of set_result calls, in the order the lock lets them in, leaves and returns. */
  function SetAll(s: Source, results: seq<TaskResult>): (Source, seq<bool>)
    decreases |results|
  {
    if results == [] then (s, [])
    else
      var (last, won) := SetAll(if s.completed then s else Source(true, results[0]), results[1..]);
      (last, [!s.completed] + won)
  }

  /** However many threads complete a source, the first one wins, only it, and its result is what every waiter reads. */
  lemma {:induction false} FirstResultWins(s: Source, results: seq<TaskResult>)
    ensures var (last, won) := SetAll(s, results);
            && |won| == |results|
            && (forall k :: 0 <= k < |won| ==> (won[k] <==> k == 0 && !s.completed))
            && last == if s.completed || results == [] then s else Source(true, results[0])
    decreases |results|
  {
    if results != [] {
      FirstResultWins(if s.completed then s else Source(true, results[0]), results[1..]);
    }
  }

  /** task_completion_source_t. */
  class CompletionSource {
    var completed: bool
    var result: TaskResult

    ghost function Value(): Source
      reads this
    {
      Source(completed, result)
    }

    constructor ()
      ensures Value() == Source(false, Success(0))
    {
      completed, result := false, Success(0);
    }

    method SetResult(r: TaskResult) returns (won: bool)
      modifies this
      ensures Value() == SetAll(old(Value()), [r]).0 && [won] == SetAll(old(Value()), [r]).1
    {
      won := false;
      if !completed {
        result := r;
        completed := true;
        won := true;
      }
      FirstResultWins(old(Value()), [r]);
    }
  }
}
