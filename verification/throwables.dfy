/** The parts of `java.lang.Throwable` the modelled code looks at: the
    class (and the classes it extends), the message, the stack trace and the
    cause. A cause chain here is finite and acyclic by construction; Java's
    `getCause()` reports a throwable that is its own cause as having none. */
module Throwables {
  import opened Outcomes
  import Text

  /** A `StackTraceElement`, by the class and method it names. */
  datatype Frame = Frame(className: string, methodName: string)

  datatype Throwable = Throwable(
    className: string,
    superclasses: seq<string>,
    message: Option<string>,
    stackTrace: seq<Frame>,
    cause: Option<Throwable>)

  /** `th is C`: the class itself or one it extends. */
  predicate IsInstance(th: Throwable, cls: string) {
    th.className == cls || cls in th.superclasses
  }

  const ExceptionClass: string := "java.lang.Exception"

  /** `Throwable.toString()`: the class name, then `": "` and the message
      when there is one. */
  function ToString(th: Throwable): (s: string)
    ensures Text.StartsWith(s, th.className)
    ensures th.message.None? ==> s == th.className
  {
    th.className + (match th.message case Some(m) => ": " + m case None => "")
  }

  /** The throwable followed by its causes, nearest first. */
  function Chain(th: Throwable): (c: seq<Throwable>)
    ensures |c| >= 1 && c[0] == th
  {
    [th] + match th.cause case Some(c) => Chain(c) case None => []
  }

  /** The walk down the causes, `while (th != null) { ...; th = th.cause }`:
      whether some throwable on the chain satisfies `p`. */
  function AnyOnChain(th: Throwable, p: Throwable -> bool): bool {
    p(th) || match th.cause case Some(c) => AnyOnChain(c, p) case None => false
  }

  /** Some throwable on the chain satisfies `p`. */
  ghost predicate SomeOnChain(th: Throwable, p: Throwable -> bool) {
    exists i :: 0 <= i < |Chain(th)| && p(Chain(th)[i])
  }

  /** The walk finds exactly the throwables of `Chain`. */
  lemma {:induction false} AnyOnChainIff(th: Throwable, p: Throwable -> bool)
    ensures AnyOnChain(th, p) <==> SomeOnChain(th, p)
  {
    var c := Chain(th);
    match th.cause
    case None =>
      assert c == [th];
      if SomeOnChain(th, p) {
        var i :| 0 <= i < |c| && p(c[i]);
        assert c[i] == th;
      }
      if AnyOnChain(th, p) {
        assert p(c[0]);
      }
    case Some(next) =>
      AnyOnChainIff(next, p);
      var cn := Chain(next);
      assert c == [th] + cn;
      if AnyOnChain(th, p) {
        if p(th) {
          assert p(c[0]);
        } else {
          assert SomeOnChain(next, p);
          var j :| 0 <= j < |cn| && p(cn[j]);
          assert c[j + 1] == cn[j];
        }
      }
      if SomeOnChain(th, p) {
        var i :| 0 <= i < |c| && p(c[i]);
        if i > 0 {
          assert c[i] == cn[i - 1];
          assert SomeOnChain(next, p);
        } else {
          assert c[i] == th;
        }
      }
  }
}
