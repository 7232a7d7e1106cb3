/** `ExceptionUtils.unwrapException`: an exception whose class is exactly one
    of the given classes is replaced by its cause, provided that cause is an
    `Exception`; any other exception is returned as it is. */
module ExceptionUtils {
  import opened Outcomes
  import opened Throwables

  /** `unwrapClasses.find { e.javaClass == it }`: the first class equal to
      the exception's own class. */
  function Find(unwrapClasses: seq<string>, className: string): (r: Option<nat>)
    ensures r.None? <==> className !in unwrapClasses
    ensures r.Some? ==> r.value < |unwrapClasses| && unwrapClasses[r.value] == className
    ensures r.Some? ==> forall i :: 0 <= i < r.value ==> unwrapClasses[i] != className
  {
    if |unwrapClasses| == 0 then None
    else if unwrapClasses[0] == className then Some(0)
    else match Find(unwrapClasses[1..], className)
      case None => None
      case Some(i) => Some(i + 1)
  }

  function UnwrapException(e: Throwable, unwrapClasses: seq<string>): (r: Throwable)
    requires IsInstance(e, ExceptionClass)
    ensures IsInstance(r, ExceptionClass)
    ensures r == e || (e.cause.Some? && r == e.cause.value)
  {
    match Find(unwrapClasses, e.className)
    case None => e
    case Some(_) =>
      match e.cause
      case Some(c) => if IsInstance(c, ExceptionClass) then c else e
      case None => e
  }

  /** The three outcomes: unchanged without an exact class match; the cause
      on a match whose cause is an `Exception`; unchanged on a match whose
      cause is missing or not an `Exception`. */
  lemma UnwrapOutcomes(e: Throwable, unwrapClasses: seq<string>)
    requires IsInstance(e, ExceptionClass)
    ensures e.className !in unwrapClasses ==> UnwrapException(e, unwrapClasses) == e
    ensures e.className in unwrapClasses && e.cause.Some? && IsInstance(e.cause.value, ExceptionClass) ==>
              UnwrapException(e, unwrapClasses) == e.cause.value
    ensures e.className in unwrapClasses && (e.cause.None? || !IsInstance(e.cause.value, ExceptionClass)) ==>
              UnwrapException(e, unwrapClasses) == e
  {
  }

  /** Listing only a superclass of the exception does not unwrap it: the
      match is on the exact class. */
  lemma SuperclassDoesNotMatch(e: Throwable, superclass: string)
    requires IsInstance(e, ExceptionClass) && superclass in e.superclasses && superclass != e.className
    ensures UnwrapException(e, [superclass]) == e
  {
  }
}
