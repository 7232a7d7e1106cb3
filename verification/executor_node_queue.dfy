/** `ExecutorNodeQueue`: nodes wait in `pending` and move to `running`, the
    most recently enqueued first, while fewer than `maxConcurrent` run. Each
    node moved is handed to the executor, which is abstract here: a function
    saying how `execute` ends for a node, and another saying whether the
    node reports itself completed. */
module ExecutorNodeQueue {
  import opened Outcomes
  import Validate

  /** `IO_MAX_CONCURRENT`, the limit of `IO_QUEUE`. */
  const IoMaxConcurrent: int := 64
  /** `Int.MAX_VALUE`, the limit of `IMMEDIATE_QUEUE`. */
  const ImmediateMaxConcurrent: int := 0x7FFF_FFFF

  datatype NodeQueue<N> = NodeQueue(maxConcurrent: int, pending: seq<N>, running: seq<N>)

  function New<N>(maxConcurrent: int): (q: NodeQueue<N>)
    ensures q.maxConcurrent == maxConcurrent && |q.pending| == 0 && |q.running| == 0
  {
    NodeQueue(maxConcurrent, [], [])
  }

  /** No more nodes run than the limit allows. */
  predicate Bounded<N>(q: NodeQueue<N>) {
    |q.running| <= q.maxConcurrent || |q.running| == 0
  }

  /** The `while` loop of `dispatchExecutorNode`: the nodes taken from the
      tail of `pending`, in the order taken, and the queue after. */
  function Move<N>(q: NodeQueue<N>): (r: (seq<N>, NodeQueue<N>))
    ensures r.1.maxConcurrent == q.maxConcurrent
    ensures |r.0| <= |q.pending|
    ensures r.1.pending == q.pending[..|q.pending| - |r.0|]
    ensures r.1.running == q.running + r.0
    ensures forall i :: 0 <= i < |r.0| ==> r.0[i] == q.pending[|q.pending| - 1 - i]
    decreases |q.pending|
  {
    if |q.running| < q.maxConcurrent && |q.pending| > 0 then
      var n := |q.pending|;
      var node := q.pending[n - 1];
      var q0 := q.(pending := q.pending[..n - 1], running := q.running + [node]);
      var next := Move(q0);
      var moved := [node] + next.0;
      assert q0.pending[..|q0.pending| - |next.0|] == q.pending[..n - |moved|];
      assert q0.running + next.0 == q.running + moved;
      assert forall i :: 1 <= i < |moved| ==> moved[i] == next.0[i - 1];
      (moved, next.1)
    else ([], q)
  }

  /** The loop stops once the limit is reached or nothing is pending, and
      it never fills `running` beyond the limit. */
  lemma {:induction false} MoveStopsAtLimit<N>(q: NodeQueue<N>)
    ensures |Move(q).1.running| >= q.maxConcurrent || |Move(q).1.pending| == 0
    ensures |q.running| < q.maxConcurrent ==> |Move(q).1.running| <= q.maxConcurrent
    ensures |q.running| >= q.maxConcurrent ==> |Move(q).0| == 0
    decreases |q.pending|
  {
    if |q.running| < q.maxConcurrent && |q.pending| > 0 {
      var n := |q.pending|;
      var q0 := q.(pending := q.pending[..n - 1], running := q.running + [q.pending[n - 1]]);
      MoveStopsAtLimit(q0);
    }
  }

  /** Moving neither loses nor duplicates a node. */
  lemma MoveKeepsNodes<N>(q: NodeQueue<N>)
    ensures multiset(Move(q).1.pending) + multiset(Move(q).1.running)
            == multiset(q.pending) + multiset(q.running)
  {
    var r := Move(q);
    var k := |q.pending| - |r.0|;
    assert q.pending == r.1.pending + q.pending[k..];
    ReversedTail(q.pending, r.0, k);
  }

  /** A reversed tail of a sequence holds the same elements as the tail. */
  lemma {:induction false} ReversedTail<N>(s: seq<N>, moved: seq<N>, k: nat)
    requires k + |moved| == |s|
    requires forall i :: 0 <= i < |moved| ==> moved[i] == s[|s| - 1 - i]
    ensures multiset(s[k..]) == multiset(moved)
    decreases |moved|
  {
    if |moved| > 0 {
      var n := |s|;
      var s1 := s[..n - 1];
      assert forall i :: 0 <= i < |moved| - 1 ==> moved[1..][i] == s1[|s1| - 1 - i];
      ReversedTail(s1, moved[1..], k);
      assert s[k..] == s1[k..] + [s[n - 1]];
      assert moved == [moved[0]] + moved[1..];
    }
  }

  /** How `executor.execute` ends for a node. */
  datatype Execution = Accepted | Rejected | Threw(error: string)

  /** The message of the state error raised for a node that already ran. */
  const AlreadyExecutedMessage: string :=
    "Cannot execute executor node: the executor node has already been executed. " +
    "(a executor node can be executed only once)"

  /** The exception a node's `handleError` receives: an interruption for a
      rejection, or a runtime error around the exception that was caught. */
  datatype ScheduleError =
    | Interrupted(message: string)
    | ScheduleFailed(message: string, cause: ScheduleCause)

  datatype ScheduleCause = AlreadyExecuted(fault: Fault) | ExecutorError(error: string)

  /** What happened to one node taken from `pending`. */
  datatype Scheduled<N> = Executed(node: N) | HandledError(node: N, error: ScheduleError)

  /** The `try` block for one node: a completed node is refused with a state
      error, which the generic handler wraps; otherwise the executor's
      outcome decides. */
  function Schedule<N>(node: N, isCompleted: N -> bool, execute: N -> Execution): (r: Scheduled<N>)
    ensures r.node == node
    ensures r.Executed? <==> !isCompleted(node) && execute(node).Accepted?
    ensures isCompleted(node) ==>
              r == HandledError(node, ScheduleFailed("ExecutorService: schedule failed.",
                                                     AlreadyExecuted(IllegalState(AlreadyExecutedMessage))))
    ensures !isCompleted(node) && execute(node).Rejected? ==>
              r == HandledError(node, Interrupted("Executor rejected."))
  {
    if isCompleted(node) then
      HandledError(node, ScheduleFailed("ExecutorService: schedule failed.",
                                        AlreadyExecuted(IllegalState(AlreadyExecutedMessage))))
    else match execute(node)
      case Accepted => Executed(node)
      case Rejected => HandledError(node, Interrupted("Executor rejected."))
      case Threw(e) => HandledError(node, ScheduleFailed("ExecutorService: schedule failed.", ExecutorError(e)))
  }

  function ScheduleAll<N>(nodes: seq<N>, isCompleted: N -> bool, execute: N -> Execution): (r: seq<Scheduled<N>>)
    ensures |r| == |nodes|
    ensures forall i :: 0 <= i < |nodes| ==> r[i] == Schedule(nodes[i], isCompleted, execute)
  {
    if |nodes| == 0 then []
    else [Schedule(nodes[0], isCompleted, execute)] + ScheduleAll(nodes[1..], isCompleted, execute)
  }

  /** `dispatchExecutorNode`: move what the limit allows, then schedule
      each moved node in the order moved. */
  function Dispatch<N>(q: NodeQueue<N>, isCompleted: N -> bool, execute: N -> Execution)
    : (r: (NodeQueue<N>, seq<Scheduled<N>>))
    ensures r.0 == Move(q).1
    ensures |r.1| == |Move(q).0|
    ensures forall i :: 0 <= i < |r.1| ==> r.1[i].node == q.pending[|q.pending| - 1 - i]
    ensures Bounded(q) ==> Bounded(r.0)
    ensures |r.0.running| >= q.maxConcurrent || |r.0.pending| == 0
  {
    MoveStopsAtLimit(q);
    var (moved, q1) := Move(q);
    (q1, ScheduleAll(moved, isCompleted, execute))
  }

  /** `enqueue(executorNode)`. */
  function Enqueue<N>(q: NodeQueue<N>, node: N, isCompleted: N -> bool, execute: N -> Execution)
    : (r: (NodeQueue<N>, seq<Scheduled<N>>))
    ensures r == Dispatch(q.(pending := q.pending + [node]), isCompleted, execute)
    ensures Bounded(q) ==> Bounded(r.0)
    ensures |q.running| < q.maxConcurrent ==> |r.1| >= 1 && r.1[0].node == node
  {
    Dispatch(q.(pending := q.pending + [node]), isCompleted, execute)
  }

  /** `enqueue(executorNodes)`: an empty collection is refused before
      anything is queued. The parameter's Kotlin type is non-null, so the
      null branch of `checkCollectionNotEmpty` cannot be reached from here. */
  function EnqueueAll<N>(q: NodeQueue<N>, nodes: seq<N>, isCompleted: N -> bool, execute: N -> Execution)
    : (r: Result<(NodeQueue<N>, seq<Scheduled<N>>), Fault>)
    ensures |nodes| == 0 ==> r == Err(IllegalArgument(Validate.IsEmptyMessage("executorNodes")))
    ensures |nodes| > 0 ==> r == Ok(Dispatch(q.(pending := q.pending + nodes), isCompleted, execute))
    ensures r.Ok? && Bounded(q) ==> Bounded(r.value.0)
  {
    var checked :- Validate.CheckCollectionNotEmpty(Some(nodes), "executorNodes");
    Ok(Dispatch(q.(pending := q.pending + checked), isCompleted, execute))
  }

  /** `ArrayDeque.remove`: drops the first occurrence. */
  function RemoveFirst<N(==)>(s: seq<N>, x: N): (r: seq<N>)
    requires x in s
    ensures |r| == |s| - 1
    ensures multiset(r) == multiset(s)[x := multiset(s)[x] - 1]
  {
    assert s == [s[0]] + s[1..];
    if s[0] == x then s[1..]
    else [s[0]] + RemoveFirst(s[1..], x)
  }

  /** The loop of `remove`: drop the first occurrence while there is one. */
  function RemoveEvery<N(==)>(s: seq<N>, x: N): (r: seq<N>)
    ensures x !in r
    ensures |r| <= |s|
    decreases |s|
  {
    if x in s then RemoveEvery(RemoveFirst(s, x), x) else s
  }

  /** The other elements, in order: the meaning of `RemoveEvery`. */
  function Without<N(==)>(s: seq<N>, x: N): (r: seq<N>)
    ensures x !in r
    ensures multiset(r) == multiset(s)[x := 0]
  {
    if |s| == 0 then []
    else
      assert s == [s[0]] + s[1..];
      (if s[0] == x then [] else [s[0]]) + Without(s[1..], x)
  }

  lemma {:induction false} WithoutRemoveFirst<N>(s: seq<N>, x: N)
    requires x in s
    ensures Without(RemoveFirst(s, x), x) == Without(s, x)
  {
    if s[0] != x {
      WithoutRemoveFirst(s[1..], x);
      assert ([s[0]] + RemoveFirst(s[1..], x))[1..] == RemoveFirst(s[1..], x);
    }
  }

  /** Removing occurrences one by one keeps the other nodes in order. */
  lemma {:induction false} RemoveEveryIsWithout<N>(s: seq<N>, x: N)
    ensures RemoveEvery(s, x) == Without(s, x)
    decreases |s|
  {
    if x in s {
      RemoveEveryIsWithout(RemoveFirst(s, x), x);
      WithoutRemoveFirst(s, x);
    } else {
      WithoutAbsent(s, x);
    }
  }

  lemma {:induction false} WithoutAbsent<N>(s: seq<N>, x: N)
    requires x !in s
    ensures Without(s, x) == s
  {
    if |s| > 0 {
      assert x !in s[1..];
      WithoutAbsent(s[1..], x);
    }
  }

  /** `remove(executorNode)`: every occurrence leaves `running`, then the
      queue dispatches again. */
  function Remove<N(==)>(q: NodeQueue<N>, node: N, isCompleted: N -> bool, execute: N -> Execution)
    : (r: (NodeQueue<N>, seq<Scheduled<N>>))
    ensures r == Dispatch(q.(running := Without(q.running, node)), isCompleted, execute)
    ensures Bounded(q) ==> Bounded(r.0)
  {
    var q1 := q.(running := RemoveEvery(q.running, node));
    RemoveEveryIsWithout(q.running, node);
    Dispatch(q1, isCompleted, execute)
  }

  /** With a free slot, a newly enqueued node is the one scheduled. */
  lemma EnqueueOnFreeSlotSchedulesNode<N>(q: NodeQueue<N>, node: N, isCompleted: N -> bool, execute: N -> Execution)
    requires |q.running| < q.maxConcurrent
    ensures var (q1, log) := Enqueue(q, node, isCompleted, execute);
      && log[0] == Schedule(node, isCompleted, execute)
      && node in q1.running
  {
    var (moved, q1) := Move(q.(pending := q.pending + [node]));
    assert moved[0] == node;
    assert q1.running[|q.running|] == node;
  }

  /** A completed node is handed to `handleError`, never to the executor. */
  lemma CompletedNodeIsNotExecuted<N>(q: NodeQueue<N>, isCompleted: N -> bool, execute: N -> Execution, i: nat)
    requires i < |Dispatch(q, isCompleted, execute).1|
    requires isCompleted(Dispatch(q, isCompleted, execute).1[i].node)
    ensures Dispatch(q, isCompleted, execute).1[i].HandledError?
  {
  }
}
