/** The helpers in `CrashEventCommon.kt`: whether a crash involves the SDK,
    judged by the package of the classes on its stack traces, and the text
    of a throwable's cause. */
module CrashEventCommon {
  import opened Outcomes
  import opened Throwables
  import Text

  /** `SDK_EXAMPLE_BASE_PACKAGES`. */
  const SdkBasePackage: string := "com.example.sdk."

  predicate IsSdkFrame(f: Frame) {
    Text.StartsWith(f.className, SdkBasePackage)
  }

  /** The inner `for` loop: some frame of the trace is in the SDK package. */
  function HasSdkFrame(trace: seq<Frame>): bool {
    if |trace| == 0 then false
    else IsSdkFrame(trace[0]) || HasSdkFrame(trace[1..])
  }

  lemma {:induction false} HasSdkFrameIffSomeFrame(trace: seq<Frame>)
    ensures HasSdkFrame(trace) <==> exists i :: 0 <= i < |trace| && IsSdkFrame(trace[i])
  {
    if |trace| > 0 {
      HasSdkFrameIffSomeFrame(trace[1..]);
      assert forall i :: 1 <= i < |trace| ==> trace[i] == trace[1..][i - 1];
      if exists i :: 0 <= i < |trace[1..]| && IsSdkFrame(trace[1..][i]) {
        var i :| 0 <= i < |trace[1..]| && IsSdkFrame(trace[1..][i]);
        assert IsSdkFrame(trace[i + 1]);
      }
    }
  }

  /** The stack trace of the throwable has a frame in the SDK package. */
  predicate ThrownInSdk(th: Throwable) {
    HasSdkFrame(th.stackTrace)
  }

  /** `Throwable?.isSdkRelated`: false for null, otherwise whether the walk
      down the causes meets a trace with an SDK frame. */
  function IsSdkRelated(th: Option<Throwable>): (r: bool)
    ensures th.None? ==> !r
  {
    match th
    case None => false
    case Some(t) => AnyOnChain(t, ThrownInSdk)
  }

  /** A throwable is SDK-related exactly when some throwable on its cause
      chain has a frame in the SDK package. */
  lemma SdkRelatedIffSomeCauseHasSdkFrame(th: Throwable)
    ensures IsSdkRelated(Some(th)) <==>
              exists i, k :: 0 <= i < |Chain(th)| && 0 <= k < |Chain(th)[i].stackTrace|
                               && IsSdkFrame(Chain(th)[i].stackTrace[k])
  {
    AnyOnChainIff(th, ThrownInSdk);
    var c := Chain(th);
    if IsSdkRelated(Some(th)) {
      var i :| 0 <= i < |c| && ThrownInSdk(c[i]);
      HasSdkFrameIffSomeFrame(c[i].stackTrace);
    }
    forall i | 0 <= i < |c| && exists k :: 0 <= k < |c[i].stackTrace| && IsSdkFrame(c[i].stackTrace[k])
      ensures ThrownInSdk(c[i])
    {
      HasSdkFrameIffSomeFrame(c[i].stackTrace);
    }
  }

  /** `Thread?.isSdkRelated`: false for a null thread or a null trace. */
  function ThreadIsSdkRelated(stackTrace: Option<seq<Frame>>): (r: bool)
    ensures r <==> stackTrace.Some? && exists i :: 0 <= i < |stackTrace.value| && IsSdkFrame(stackTrace.value[i])
  {
    match stackTrace
    case None => false
    case Some(trace) => HasSdkFrameIffSomeFrame(trace); HasSdkFrame(trace)
  }

  /** `getStringCause`: the cause's `toString()`, or null without a cause. */
  function GetStringCause(th: Throwable): (r: Option<string>)
    ensures r.None? <==> th.cause.None?
    ensures r.Some? ==> Text.StartsWith(r.value, th.cause.value.className)
  {
    match th.cause
    case None => None
    case Some(c) => Some(ToString(c))
  }
}
