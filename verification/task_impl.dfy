/** `TaskImpl`: a task that completes once — with a result, with an
    exception (possibly null) or by cancellation — and completes its queued
    listeners when it does. Listeners added after completion are completed
    at once. Transitions return the new task together with the listeners
    whose `onComplete` ran, in order. */
module TaskImpl {
  import opened Outcomes
  import ERQ = ExecuteResultQueue

  /** The execute-result classes a listener is wrapped in. */
  datatype ListenerKind =
    | OnCanceled | OnComplete | OnFailure | OnSuccess
    | Continuation | ContinuationWithTask

  /** A registered listener: its kind and an identity. */
  datatype Listener = Listener(kind: ListenerKind, id: nat)

  /** `_completed`, `_canceled`, `_result` and `_exception` (null is `None`)
      and the queue of listeners. */
  datatype Task<T, X> = Task(
    completed: bool,
    canceled: bool,
    result: Option<T>,
    exception: Option<X>,
    queue: ERQ.Queue<Listener>)

  /** What holds between calls: only a completed task is canceled or holds
      an outcome, and a completed task has no listener waiting. */
  predicate Valid<T, X>(t: Task<T, X>) {
    && (t.canceled ==> t.completed)
    && (!t.completed ==> t.result.None? && t.exception.None?)
    && (t.canceled ==> t.result.None? && t.exception.None?)
    && (t.completed ==> |t.queue.results| == 0)
    && !t.queue.dispatched
  }

  function New<T, X>(): (t: Task<T, X>)
    ensures Valid(t) && !t.completed && |t.queue.results| == 0
  {
    Task(false, false, None, None, ERQ.Empty())
  }

  predicate IsSuccessful<T, X>(t: Task<T, X>) {
    t.completed && !t.canceled && t.exception.None?
  }

  /** What the `result` getter throws. */
  datatype TaskError<X> = Failed(fault: Fault) | RuntimeExecution(cause: X)

  /** The `result` getter: a state error before completion, a cancellation
      error after cancellation, the stored exception wrapped in a
      `RuntimeExecutionException`, or else the (possibly null) result. */
  function GetResult<T, X>(t: Task<T, X>): (r: Result<Option<T>, TaskError<X>>)
    ensures r.Ok? <==> IsSuccessful(t)
    ensures r.Ok? ==> r.value == t.result
    ensures !t.completed ==> r == Err(Failed(IllegalState("Task is not yet completed.")))
    ensures t.completed && t.canceled ==> r == Err(Failed(Cancellation("Task is already canceled.")))
    ensures t.completed && !t.canceled && t.exception.Some? ==> r == Err(RuntimeExecution(t.exception.value))
  {
    if !t.completed then Err(Failed(IllegalState("Task is not yet completed.")))
    else if t.canceled then Err(Failed(Cancellation("Task is already canceled.")))
    else match t.exception
      case Some(e) => Err(RuntimeExecution(e))
      case None => Ok(t.result)
  }

  /** What the runnable a success listener schedules does on a successful
      task: it passes the result through `checkNotNull(task.result, "Result
      is null.")` to `onSuccess`. `None` when `onComplete` schedules
      nothing, because the task is not successful. */
  function SuccessCallback<T, X>(t: Task<T, X>): (r: Option<Result<T, Fault>>)
    ensures r.None? <==> !IsSuccessful(t)
    ensures r.Some? ==> (r.value.Err? <==> t.result.None?)
    ensures r.Some? && r.value.Err? ==> r.value.error == NullPointer("Result is null.")
    ensures r.Some? && r.value.Ok? ==> t.result == Some(r.value.value)
  {
    if !IsSuccessful(t) then None
    else match GetResult(t)
      case Ok(v) => Some(if v.Some? then Ok(v.value) else Err(NullPointer("Result is null.")))
      case Err(_) => assert false; None
  }

  /** Whether a listener of this kind reaches its callback once its
      `onComplete` runs on the task: success listeners on a success with a
      non-null result, failure listeners on a failure that is not a
      cancellation, cancellation listeners on cancellation, and the others
      always. */
  predicate CallsBack<T, X>(kind: ListenerKind, t: Task<T, X>) {
    match kind
    case OnSuccess => SuccessCallback(t).Some? && SuccessCallback(t).value.Ok?
    case OnFailure => !IsSuccessful(t) && !t.canceled
    case OnCanceled => t.canceled
    case _ => true
  }

  /** Of the success, failure and cancellation listeners at most one kind
      calls back on a completed task, and exactly one unless the task
      succeeded with a null result: then the success runnable fails with
      "Result is null." and no kind calls back. */
  lemma OneOutcomeKindCallsBack<T, X>(t: Task<T, X>)
    requires Valid(t) && t.completed
    ensures CallsBack(OnSuccess, t) <==> IsSuccessful(t) && t.result.Some?
    ensures CallsBack(OnFailure, t) <==> t.exception.Some?
    ensures CallsBack(OnCanceled, t) <==> t.canceled
    ensures !(CallsBack(OnSuccess, t) && CallsBack(OnFailure, t))
    ensures !(CallsBack(OnSuccess, t) && CallsBack(OnCanceled, t))
    ensures !(CallsBack(OnFailure, t) && CallsBack(OnCanceled, t))
    ensures !(IsSuccessful(t) && t.result.None?) ==>
              CallsBack(OnSuccess, t) || CallsBack(OnFailure, t) || CallsBack(OnCanceled, t)
    ensures IsSuccessful(t) && t.result.None? ==>
              && !CallsBack(OnSuccess, t) && !CallsBack(OnFailure, t) && !CallsBack(OnCanceled, t)
              && SuccessCallback(t) == Some(Err(NullPointer("Result is null.")))
  {
  }

  /** The outcome of a transition: whether it was accepted, the task after
      it, and the listeners whose `onComplete` ran, in order. */
  datatype Step<T, X> = Step(accepted: bool, task: Task<T, X>, calls: seq<Listener>)

  /** Marks the task completed and dispatches its queue. */
  function Settle<T, X>(t: Task<T, X>): (r: Step<T, X>)
    requires !t.queue.dispatched
    ensures r.accepted && |r.task.queue.results| == 0 && !r.task.queue.dispatched
    ensures r.task == t.(queue := r.task.queue)
    ensures |r.calls| == |t.queue.results|
    ensures forall i :: 0 <= i < |r.calls| ==> r.calls[i] == t.queue.results[|t.queue.results| - 1 - i]
  {
    var d := ERQ.DispatchAll(t.queue);
    Step(true, t.(queue := d.1), d.0)
  }

  /** `trySetResult`: refused on a completed task, which stays as it was. */
  function TrySetResult<T, X>(t: Task<T, X>, value: Option<T>): (r: Step<T, X>)
    requires Valid(t)
    ensures t.completed ==> r == Step(false, t, [])
    ensures !t.completed ==> r.accepted && IsSuccessful(r.task) && r.task.result == value
    ensures !t.completed ==> r.calls == ERQ.Drain(t.queue.results)
    ensures Valid(r.task)
  {
    if t.completed then Step(false, t, [])
    else Settle(t.(completed := true, result := value))
  }

  /** `trySetException`: refused on a completed task; a null exception
      completes the task successfully with a null result. */
  function TrySetException<T, X>(t: Task<T, X>, exception: Option<X>): (r: Step<T, X>)
    requires Valid(t)
    ensures t.completed ==> r == Step(false, t, [])
    ensures !t.completed ==> r.accepted && r.task.completed && !r.task.canceled
    ensures !t.completed ==> r.task.exception == exception && r.task.result.None?
    ensures !t.completed ==> r.calls == ERQ.Drain(t.queue.results)
    ensures Valid(r.task)
  {
    if t.completed then Step(false, t, [])
    else Settle(t.(completed := true, exception := exception))
  }

  /** `trySetCanceled`: refused on a completed task. */
  function TrySetCanceled<T, X>(t: Task<T, X>): (r: Step<T, X>)
    requires Valid(t)
    ensures t.completed ==> r == Step(false, t, [])
    ensures !t.completed ==> r.accepted && r.task.completed && r.task.canceled
    ensures !t.completed ==> r.calls == ERQ.Drain(t.queue.results)
    ensures Valid(r.task)
  {
    if t.completed then Step(false, t, [])
    else Settle(t.(completed := true, canceled := true))
  }

  /** `setResult`: `trySetResult`, with a state error when it is refused. */
  function SetResult<T, X>(t: Task<T, X>, value: Option<T>): (r: Result<Step<T, X>, Fault>)
    requires Valid(t)
    ensures r.Err? <==> t.completed
    ensures r.Err? ==> r.error == IllegalState("Cannot set the result.")
    ensures r.Ok? ==> r.value.accepted && GetResult(r.value.task) == Ok(value)
  {
    var s := TrySetResult(t, value);
    if s.accepted then Ok(s) else Err(IllegalState("Cannot set the result."))
  }

  /** `setException`: `trySetException`, with a state error when it is
      refused. */
  function SetException<T, X>(t: Task<T, X>, exception: Option<X>): (r: Result<Step<T, X>, Fault>)
    requires Valid(t)
    ensures r.Err? <==> t.completed
    ensures r.Err? ==> r.error == IllegalState("Cannot set the exception")
    ensures r.Ok? ==> r.value.accepted && r.value.task.exception == exception
  {
    var s := TrySetException(t, exception);
    if s.accepted then Ok(s) else Err(IllegalState("Cannot set the exception"))
  }

  /** The `addOn…Listener`, `continueWith` and `continueWithTask` calls:
      enqueue the listener, then dispatch if the task is complete. */
  function AddListener<T, X>(t: Task<T, X>, listener: Listener): (r: Step<T, X>)
    requires Valid(t)
    ensures r.accepted && Valid(r.task)
    ensures t.completed ==> r.task == t && r.calls == [listener]
    ensures !t.completed ==> r.calls == [] && r.task == t.(queue := ERQ.Enqueue(t.queue, listener))
  {
    var q := ERQ.Enqueue(t.queue, listener);
    if t.completed then
      var d := ERQ.DispatchAll(q);
      Step(true, t.(queue := d.1), d.0)
    else Step(true, t.(queue := q), [])
  }

  /** What the `result` getter reports after each way of completing a
      pending task. */
  lemma CompletionOutcomes<T, X>(t: Task<T, X>, value: Option<T>, e: X)
    requires Valid(t) && !t.completed
    ensures GetResult(TrySetResult(t, value).task) == Ok(value)
    ensures GetResult(TrySetException(t, Some(e)).task) == Err(RuntimeExecution(e))
    ensures GetResult(TrySetException(t, None).task) == Ok(None)
    ensures GetResult(TrySetCanceled(t).task) == Err(Failed(Cancellation("Task is already canceled.")))
    ensures !IsSuccessful(TrySetCanceled(t).task)
  {
  }

  // ---------------------------------------------------------------------
  // Sequences of calls
  // ---------------------------------------------------------------------

  datatype Op<T, X> =
    | SetResultOp(value: Option<T>)
    | SetExceptionOp(exception: Option<X>)
    | SetCanceledOp
    | Listen(listener: Listener)

  function Apply<T, X>(t: Task<T, X>, op: Op<T, X>): (r: Step<T, X>)
    requires Valid(t)
    ensures Valid(r.task)
  {
    match op
    case SetResultOp(v) => TrySetResult(t, v)
    case SetExceptionOp(e) => TrySetException(t, e)
    case SetCanceledOp => TrySetCanceled(t)
    case Listen(l) => AddListener(t, l)
  }

  /** The task after a sequence of calls and every `onComplete` call they
      made, in order. */
  function Run<T, X>(t: Task<T, X>, ops: seq<Op<T, X>>): (r: (Task<T, X>, seq<Listener>))
    requires Valid(t)
    ensures Valid(r.0)
    decreases |ops|
  {
    if |ops| == 0 then (t, [])
    else
      var s := Apply(t, ops[0]);
      var rest := Run(s.task, ops[1..]);
      (rest.0, s.calls + rest.1)
  }

  predicate Completes<T, X>(op: Op<T, X>) {
    !op.Listen?
  }

  /** The listeners added in a sequence of calls, in order. */
  function Listeners<T, X>(ops: seq<Op<T, X>>): seq<Listener> {
    if |ops| == 0 then []
    else (if ops[0].Listen? then [ops[0].listener] else []) + Listeners(ops[1..])
  }

  /** The listeners added before the first completing call. */
  function Before<T, X>(ops: seq<Op<T, X>>): seq<Listener> {
    if |ops| == 0 || Completes(ops[0]) then []
    else [ops[0].listener] + Before(ops[1..])
  }

  /** The listeners added after the first completing call. */
  function After<T, X>(ops: seq<Op<T, X>>): seq<Listener> {
    if |ops| == 0 then []
    else if Completes(ops[0]) then Listeners(ops[1..])
    else After(ops[1..])
  }

  predicate AnyCompletes<T, X>(ops: seq<Op<T, X>>) {
    exists i :: 0 <= i < |ops| && Completes(ops[i])
  }

  /** Once a task is complete nothing changes its outcome, and every
      listener added later is completed at once, in the order added. */
  lemma {:induction false} CompletedTaskIsFinal<T, X>(t: Task<T, X>, ops: seq<Op<T, X>>)
    requires Valid(t) && t.completed
    ensures Run(t, ops).0 == t
    ensures Run(t, ops).1 == Listeners(ops)
    decreases |ops|
  {
    if |ops| > 0 {
      var s := Apply(t, ops[0]);
      assert s.task == t;
      assert s.calls == (if ops[0].Listen? then [ops[0].listener] else []);
      CompletedTaskIsFinal(t, ops[1..]);
    }
  }

  /** Listeners added to a pending task wait until the first completing
      call, which completes them youngest first, together with those
      already queued; listeners added afterwards are completed at once.
      So every listener's `onComplete` runs exactly once if the task
      completes, and none runs if it does not. */
  predicate ListenerLaw<T, X>(t: Task<T, X>, ops: seq<Op<T, X>>)
    requires Valid(t)
  {
    && (AnyCompletes(ops) ==> Run(t, ops).1 == ERQ.Drain(t.queue.results + Before(ops)) + After(ops))
    && (!AnyCompletes(ops) ==> Run(t, ops).1 == [] && Run(t, ops).0.queue.results == t.queue.results + Listeners(ops))
  }

  lemma {:induction false} EveryListenerCompletedOnce<T, X>(t: Task<T, X>, ops: seq<Op<T, X>>)
    requires Valid(t) && !t.completed
    ensures ListenerLaw(t, ops)
    decreases |ops|
  {
    if |ops| == 0 {
    } else if Completes(ops[0]) {
      CompletingHeadLaw(t, ops);
    } else {
      var t1 := t.(queue := ERQ.Enqueue(t.queue, ops[0].listener));
      EveryListenerCompletedOnce(t1, ops[1..]);
      ListeningHeadLaw(t, ops);
    }
  }

  lemma CompletingHeadLaw<T, X>(t: Task<T, X>, ops: seq<Op<T, X>>)
    requires Valid(t) && !t.completed && |ops| > 0 && Completes(ops[0])
    ensures ListenerLaw(t, ops)
  {
    RunCompletingHead(t, ops);
    assert Before(ops) == [] && After(ops) == Listeners(ops[1..]);
    assert t.queue.results + Before(ops) == t.queue.results;
    assert AnyCompletes(ops) by { assert Completes(ops[0]); }
  }

  lemma ListeningHeadLaw<T, X>(t: Task<T, X>, ops: seq<Op<T, X>>)
    requires Valid(t) && !t.completed && |ops| > 0 && ops[0].Listen?
    requires ListenerLaw(t.(queue := ERQ.Enqueue(t.queue, ops[0].listener)), ops[1..])
    ensures ListenerLaw(t, ops)
  {
    var l := ops[0].listener;
    var t1 := t.(queue := ERQ.Enqueue(t.queue, l));
    var q, q1 := t.queue.results, t1.queue.results;
    assert q1 == q + [l];
    RunListeningHead(t, ops);
    AnyCompletesSkipsListen(ops);
    if AnyCompletes(ops) {
      var b := Before(ops[1..]);
      assert Before(ops) == [l] + b;
      assert After(ops) == After(ops[1..]);
      assert q + ([l] + b) == q1 + b;
    } else {
      var ls := Listeners(ops[1..]);
      assert Listeners(ops) == [l] + ls;
      assert q + ([l] + ls) == q1 + ls;
    }
  }

  /** A first call that completes a pending task completes its queue; the
      rest are calls on a completed task. */
  lemma RunCompletingHead<T, X>(t: Task<T, X>, ops: seq<Op<T, X>>)
    requires Valid(t) && !t.completed && |ops| > 0 && Completes(ops[0])
    ensures Run(t, ops).1 == ERQ.Drain(t.queue.results) + Listeners(ops[1..])
  {
    var s := Apply(t, ops[0]);
    assert s.calls == ERQ.Drain(t.queue.results);
    CompletedTaskIsFinal(s.task, ops[1..]);
  }

  /** A first call that adds a listener to a pending task only queues it. */
  lemma RunListeningHead<T, X>(t: Task<T, X>, ops: seq<Op<T, X>>)
    requires Valid(t) && !t.completed && |ops| > 0 && ops[0].Listen?
    ensures Run(t, ops) == Run(t.(queue := ERQ.Enqueue(t.queue, ops[0].listener)), ops[1..])
  {
    var s := Apply(t, ops[0]);
    assert s.calls == [];
    assert s.calls + Run(s.task, ops[1..]).1 == Run(s.task, ops[1..]).1;
  }

  lemma AnyCompletesSkipsListen<T, X>(ops: seq<Op<T, X>>)
    requires |ops| > 0 && !Completes(ops[0])
    ensures AnyCompletes(ops) <==> AnyCompletes(ops[1..])
  {
    if AnyCompletes(ops) {
      var i :| 0 <= i < |ops| && Completes(ops[i]);
      assert i > 0 && Completes(ops[1..][i - 1]);
    }
    if AnyCompletes(ops[1..]) {
      var i :| 0 <= i < |ops[1..]| && Completes(ops[1..][i]);
      assert Completes(ops[i + 1]);
    }
  }

  /** With a completing call, the listeners split into those added before
      it and those added after it. */
  lemma {:induction false} ListenersSplitAtCompletion<T, X>(ops: seq<Op<T, X>>)
    requires AnyCompletes(ops)
    ensures Listeners(ops) == Before(ops) + After(ops)
    decreases |ops|
  {
    var rest := ops[1..];
    if Completes(ops[0]) {
      assert Listeners(ops) == [] + Listeners(rest);
    } else {
      var l := ops[0].listener;
      AnyCompletesSkipsListen(ops);
      ListenersSplitAtCompletion(rest);
      assert Listeners(ops) == [l] + Listeners(rest);
      assert Before(ops) == [l] + Before(rest);
      assert [l] + (Before(rest) + After(rest)) == ([l] + Before(rest)) + After(rest);
    }
  }

  /** From a new task, every added listener is completed exactly as many
      times as it was added if some call completes the task, and never
      otherwise. */
  lemma NewTaskCompletesEachListenerOnce<T, X>(ops: seq<Op<T, X>>)
    ensures AnyCompletes(ops) ==> multiset(Run(New<T, X>(), ops).1) == multiset(Listeners(ops))
    ensures !AnyCompletes(ops) ==> Run(New<T, X>(), ops).1 == []
  {
    var t := New<T, X>();
    EveryListenerCompletedOnce(t, ops);
    if AnyCompletes(ops) {
      ListenersSplitAtCompletion(ops);
      assert t.queue.results + Before(ops) == Before(ops);
      ERQ.DrainIsPermutation(Before(ops));
    }
  }
}
