/** `ExecuteResultQueue`: the listeners (execute results) waiting on a task.
    `dispatchAll` polls them from the tail, so the most recently enqueued one
    is completed first, until the queue is empty. What a listener does when
    it is completed belongs to the task; here the queue only reports the
    order of the `onComplete` calls. */
module ExecuteResultQueue {

  datatype Queue<R> = Queue(results: seq<R>, dispatched: bool)

  function Empty<R>(): (q: Queue<R>)
    ensures |q.results| == 0 && !q.dispatched
  {
    Queue([], false)
  }

  /** `enqueue`: the result goes to the tail. */
  function Enqueue<R>(q: Queue<R>, result: R): (r: Queue<R>)
    ensures |r.results| == |q.results| + 1
    ensures r.results[|q.results|] == result && r.results[..|q.results|] == q.results
    ensures r.dispatched == q.dispatched
  {
    q.(results := q.results + [result])
  }

  /** The `removeLastOrNull` loop: every result, the youngest first. */
  function Drain<R>(results: seq<R>): (order: seq<R>)
    ensures |order| == |results|
    ensures forall i :: 0 <= i < |results| ==> order[i] == results[|results| - 1 - i]
  {
    if |results| == 0 then []
    else [results[|results| - 1]] + Drain(results[..|results| - 1])
  }

  /** `dispatchAll`: the `onComplete` calls, in order, and the queue after.
      Nothing happens when the queue is empty or a dispatch is already
      under way; otherwise every result is polled and the flag is cleared
      again when the queue runs dry. */
  function DispatchAll<R>(q: Queue<R>): (r: (seq<R>, Queue<R>))
    ensures |q.results| == 0 || q.dispatched ==> r == ([], q)
    ensures |q.results| > 0 && !q.dispatched ==>
              && r.1 == Queue([], false)
              && |r.0| == |q.results|
              && (forall i :: 0 <= i < |r.0| ==> r.0[i] == q.results[|q.results| - 1 - i])
  {
    if |q.results| > 0 && !q.dispatched then (Drain(q.results), Queue([], false))
    else ([], q)
  }

  /** Every queued result is completed exactly as often as it was queued. */
  lemma {:induction false} DrainIsPermutation<R>(results: seq<R>)
    ensures multiset(Drain(results)) == multiset(results)
  {
    if |results| > 0 {
      var n := |results|;
      DrainIsPermutation(results[..n - 1]);
      assert results == results[..n - 1] + [results[n - 1]];
    }
  }

  /** LIFO: the result enqueued last is the first one completed. */
  lemma LastEnqueuedRunsFirst<R>(q: Queue<R>, result: R)
    requires !q.dispatched
    ensures DispatchAll(Enqueue(q, result)).0[0] == result
    ensures DispatchAll(Enqueue(q, result)).0[1..] == DispatchAll(q).0
  {
    var q1 := Enqueue(q, result);
    var calls := DispatchAll(q1).0;
    if |q.results| > 0 {
      forall i | 0 <= i < |q.results| ensures calls[1..][i] == DispatchAll(q).0[i] {
        assert q1.results[|q1.results| - 1 - (i + 1)] == q.results[|q.results| - 1 - i];
      }
    }
  }
}
