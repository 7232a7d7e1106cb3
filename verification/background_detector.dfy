/** `BackgroundDetector`: the application is visible while the screen is on
    and some activity is visible; every change of that is reported to the
    callbacks as a background flag. Transitions return the detector after
    the call and the flag passed to `onBackgroundStateChanged`, if it was
    called. */
module BackgroundDetector {
  import opened Outcomes

  datatype Detector = Detector(
    startedActivityCount: int,
    hasVisibleActivities: bool,
    screenOn: bool,
    lastVisible: bool)

  /** The state the object starts in: no activity, screen on, not visible. */
  function Initial(): (d: Detector)
    ensures Valid(d) && IsInBackground(d)
  {
    Detector(0, false, true, false)
  }

  /** What holds between calls: the counter is never negative and the last
      reported visibility is the current one. */
  predicate Valid(d: Detector) {
    d.startedActivityCount >= 0 && d.lastVisible == (d.screenOn && d.hasVisibleActivities)
  }

  predicate IsInBackground(d: Detector) {
    !d.lastVisible
  }

  /** `updateVisible`: records the visibility and reports a change as the
      new background flag. */
  function UpdateVisible(d: Detector): (r: (Detector, Option<bool>))
    ensures r.0.lastVisible == (d.screenOn && d.hasVisibleActivities)
    ensures r.0 == d.(lastVisible := r.0.lastVisible)
    ensures r.1.Some? <==> IsInBackground(r.0) != IsInBackground(d)
    ensures r.1.Some? ==> r.1.value == IsInBackground(r.0)
  {
    var visible := d.screenOn && d.hasVisibleActivities;
    if visible != d.lastVisible then (d.(lastVisible := visible), Some(!visible))
    else (d, None)
  }

  /** `onActivityStarted`: the first started activity makes activities
      visible. */
  function OnActivityStarted(d: Detector): (r: (Detector, Option<bool>))
    requires Valid(d)
    ensures Valid(r.0)
    ensures r.0.startedActivityCount == d.startedActivityCount + 1
    ensures r.0.hasVisibleActivities == (d.hasVisibleActivities || d.startedActivityCount == 0)
    ensures r.0.screenOn == d.screenOn
    ensures r.1.Some? <==> IsInBackground(r.0) != IsInBackground(d)
    ensures r.1.Some? ==> r.1.value == IsInBackground(r.0)
  {
    var d1 := d.(startedActivityCount := d.startedActivityCount + 1);
    if !d1.hasVisibleActivities && d1.startedActivityCount == 1 then
      UpdateVisible(d1.(hasVisibleActivities := true))
    else (d1, None)
  }

  /** `onScreenOnOffChanged`. */
  function OnScreenOnOffChanged(d: Detector, screenOn: bool): (r: (Detector, Option<bool>))
    requires Valid(d)
    ensures Valid(r.0)
    ensures r.0.screenOn == screenOn
    ensures r.0.startedActivityCount == d.startedActivityCount
    ensures r.0.hasVisibleActivities == d.hasVisibleActivities
    ensures r.1.Some? <==> IsInBackground(r.0) != IsInBackground(d)
    ensures r.1.Some? ==> r.1.value == IsInBackground(r.0)
  {
    UpdateVisible(d.(screenOn := screenOn))
  }

  /** `onActivityStopped`: the counter stops at zero; the last stop hides
      the activities unless the activity is only changing configuration. */
  function OnActivityStopped(d: Detector, isChangingConfigurations: bool): (r: (Detector, Option<bool>))
    requires Valid(d)
    ensures Valid(r.0)
    ensures r.0.startedActivityCount == if d.startedActivityCount > 0 then d.startedActivityCount - 1 else 0
    ensures r.0.screenOn == d.screenOn
    ensures r.0.hasVisibleActivities ==
              (d.hasVisibleActivities && (r.0.startedActivityCount > 0 || isChangingConfigurations))
    ensures r.1.Some? <==> IsInBackground(r.0) != IsInBackground(d)
    ensures r.1.Some? ==> r.1.value == IsInBackground(r.0)
  {
    var count := if d.startedActivityCount > 0 then d.startedActivityCount - 1 else d.startedActivityCount;
    var d1 := d.(startedActivityCount := count);
    if d1.hasVisibleActivities && count == 0 && !isChangingConfigurations then
      UpdateVisible(d1.(hasVisibleActivities := false))
    else (d1, None)
  }

  datatype Event = ActivityStarted | ActivityStopped(isChangingConfigurations: bool) | ScreenOnOff(on: bool)

  function Apply(d: Detector, e: Event): (r: (Detector, Option<bool>))
    requires Valid(d)
    ensures Valid(r.0)
    ensures r.1.Some? <==> IsInBackground(r.0) != IsInBackground(d)
    ensures r.1.Some? ==> r.1.value == IsInBackground(r.0)
  {
    match e
    case ActivityStarted => OnActivityStarted(d)
    case ActivityStopped(c) => OnActivityStopped(d, c)
    case ScreenOnOff(on) => OnScreenOnOffChanged(d, on)
  }

  /** The detector after a sequence of events and the background flags
      reported on the way, in order. */
  function Run(d: Detector, events: seq<Event>): (r: (Detector, seq<bool>))
    requires Valid(d)
    ensures Valid(r.0)
    decreases |events|
  {
    if |events| == 0 then (d, [])
    else
      var step := Apply(d, events[0]);
      var rest := Run(step.0, events[1..]);
      (rest.0, (if step.1.Some? then [step.1.value] else []) + rest.1)
  }

  /** Reports alternate: the first one flips the state the run started
      in, each later one flips the previous one, and the last one is the
      state the run ends in. So callbacks only ever hear of a change. */
  ghost predicate Alternates(start: bool, flags: seq<bool>, end: bool) {
    && (|flags| == 0 ==> end == start)
    && (|flags| > 0 ==> flags[0] == !start && flags[|flags| - 1] == end)
    && (forall i :: 0 < i < |flags| ==> flags[i] == !flags[i - 1])
  }

  lemma {:induction false} ReportsAlternate(d: Detector, events: seq<Event>)
    requires Valid(d)
    ensures Alternates(IsInBackground(d), Run(d, events).1, IsInBackground(Run(d, events).0))
    decreases |events|
  {
    if |events| > 0 {
      var step := Apply(d, events[0]);
      var rest := Run(step.0, events[1..]);
      ReportsAlternate(step.0, events[1..]);
      if step.1.Some? {
        var flags := [step.1.value] + rest.1;
        assert forall i :: 0 < i < |flags| ==> flags[i] == rest.1[i - 1];
      }
    }
  }

  /** Opening one activity with the screen on brings the application to the
      foreground and reports it; closing it for good sends it back. */
  lemma StartThenStop()
    ensures var (d1, f1) := OnActivityStarted(Initial());
      && f1 == Some(false) && !IsInBackground(d1)
      && OnActivityStopped(d1, false) == (Initial(), Some(true))
      && OnActivityStopped(d1, true).1.None?
  {
  }
}
