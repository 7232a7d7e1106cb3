/** `CancellationTokenSource` and its token: listeners registered before
    `cancel` are kept and called when it happens; once cancellation has been
    requested a new listener is called at once instead of being kept.
    Transitions return the source after the call and the listeners whose
    `onCanceled` ran, in order. */
module CancellationTokenSource {

  datatype Source<L> = Source(registrations: seq<L>, cancellationRequested: bool)

  function New<L>(): (s: Source<L>)
    ensures !IsCancellationRequested(s) && |s.registrations| == 0
  {
    Source([], false)
  }

  predicate IsCancellationRequested<L>(s: Source<L>) {
    s.cancellationRequested
  }

  /** The token's `onCanceledRequested`. */
  function OnCanceledRequested<L>(s: Source<L>, listener: L): (r: (Source<L>, seq<L>))
    ensures IsCancellationRequested(r.0) == IsCancellationRequested(s)
    ensures IsCancellationRequested(s) ==> r == (s, [listener])
    ensures !IsCancellationRequested(s) ==> r.1 == [] && r.0.registrations == s.registrations + [listener]
  {
    if s.cancellationRequested then (s, [listener])
    else (s.(registrations := s.registrations + [listener]), [])
  }

  /** `cancel`: the first call requests cancellation and calls every
      registered listener in registration order (the list is kept); later
      calls do nothing. */
  function Cancel<L>(s: Source<L>): (r: (Source<L>, seq<L>))
    ensures IsCancellationRequested(r.0)
    ensures r.0.registrations == s.registrations
    ensures IsCancellationRequested(s) ==> r == (s, [])
    ensures !IsCancellationRequested(s) ==> r.1 == s.registrations
  {
    if !s.cancellationRequested then (s.(cancellationRequested := true), s.registrations)
    else (s, [])
  }

  /** `cancel` twice is `cancel` once. */
  lemma CancelIsIdempotent<L>(s: Source<L>)
    ensures Cancel(Cancel(s).0) == (Cancel(s).0, [])
  {
  }

  datatype Op<L> = Register(listener: L) | CancelOp

  /** The source after a sequence of calls and every `onCanceled` call they
      made, in order. */
  function Run<L>(s: Source<L>, ops: seq<Op<L>>): (r: (Source<L>, seq<L>))
    decreases |ops|
  {
    if |ops| == 0 then (s, [])
    else
      var step := match ops[0]
        case Register(l) => OnCanceledRequested(s, l)
        case CancelOp => Cancel(s);
      var rest := Run(step.0, ops[1..]);
      (rest.0, step.1 + rest.1)
  }

  /** The listeners registered in a sequence of calls, in order. */
  function Registered<L>(ops: seq<Op<L>>): seq<L> {
    if |ops| == 0 then []
    else (if ops[0].Register? then [ops[0].listener] else []) + Registered(ops[1..])
  }

  predicate AnyCancel<L>(ops: seq<Op<L>>) {
    exists i :: 0 <= i < |ops| && ops[i].CancelOp?
  }

  /** What a sequence of calls does from any source: once cancellation is
      requested every new listener is called at once; before that nothing
      is called until the first `cancel`, which calls the listeners
      registered so far. Either way each listener ends up called once, in
      registration order, if and only if some `cancel` happens. */
  ghost predicate CancelLaw<L>(s: Source<L>, ops: seq<Op<L>>) {
    && (IsCancellationRequested(Run(s, ops).0) <==> IsCancellationRequested(s) || AnyCancel(ops))
    && (IsCancellationRequested(s) ==> Run(s, ops).1 == Registered(ops))
    && (!IsCancellationRequested(s) && AnyCancel(ops) ==> Run(s, ops).1 == s.registrations + Registered(ops))
    && (!IsCancellationRequested(s) && !AnyCancel(ops) ==>
          Run(s, ops).1 == [] && Run(s, ops).0.registrations == s.registrations + Registered(ops))
  }

  lemma {:induction false} EveryListenerCalledOnce<L>(s: Source<L>, ops: seq<Op<L>>)
    ensures CancelLaw(s, ops)
    decreases |ops|
  {
    if |ops| > 0 {
      var rest := ops[1..];
      assert AnyCancel(ops) <==> ops[0].CancelOp? || AnyCancel(rest) by {
        if AnyCancel(ops) && !ops[0].CancelOp? {
          var i :| 0 <= i < |ops| && ops[i].CancelOp?;
          assert rest[i - 1].CancelOp?;
        }
        if AnyCancel(rest) {
          var i :| 0 <= i < |rest| && rest[i].CancelOp?;
          assert ops[i + 1].CancelOp?;
        }
      }
      match ops[0]
      case Register(l) =>
        var s1 := OnCanceledRequested(s, l).0;
        EveryListenerCalledOnce(s1, rest);
        assert Registered(ops) == [l] + Registered(rest);
        if !IsCancellationRequested(s) {
          assert s.registrations + Registered(ops) == s1.registrations + Registered(rest);
        }
      case CancelOp =>
        var s1 := Cancel(s).0;
        EveryListenerCalledOnce(s1, rest);
        assert Registered(ops) == Registered(rest);
    }
  }

  /** From a new source: nothing is called without a `cancel`; with one,
      every registered listener is called exactly once, in registration
      order, and the token then reports cancellation. */
  lemma NewSourceCallsEachListenerOnce<L>(ops: seq<Op<L>>)
    ensures AnyCancel(ops) ==> Run(New<L>(), ops).1 == Registered(ops)
    ensures !AnyCancel(ops) ==> Run(New<L>(), ops).1 == []
    ensures IsCancellationRequested(Run(New<L>(), ops).0) <==> AnyCancel(ops)
  {
    EveryListenerCalledOnce(New<L>(), ops);
    assert New<L>().registrations + Registered(ops) == Registered(ops);
  }
}
