/** `VisibilityObserverContext`: the state every visibility condition
    shares — whether it has fired, the time of the previous visible check
    and the entry of the previous check — and the `check`, `fire` and
    `reset` steps built on it. */
module VisibilityObserverContext {
  import opened Outcomes

  /** `Rect`: the intersecting area, when there is one. */
  datatype Rect = Rect(left: int, top: int, right: int, bottom: int)

  /** `VisibilityObserverEntry`: how much of the target view intersects its
      root view; the ratio is a `Double`, taken here as an exact real. */
  datatype Entry = Entry(
    intersectingRect: Option<Rect>,
    intersectingRatio: real,
    intersectingPx: int,
    inBackground: bool)

  /** The entry a context starts from and returns to on `reset`. */
  const ZeroEntry: Entry := Entry(None, 0.0, 0, false)

  /** `Long.MIN_VALUE`: no previous visible check. */
  const LongMin: int := -0x8000_0000_0000_0000

  datatype Context = Context(
    allowMultiple: bool,
    fired: bool,
    previousTimeMillis: int,
    oldEntry: Entry)

  function New(allowMultiple: bool): (c: Context)
    ensures c.allowMultiple == allowMultiple && !c.fired
    ensures c.previousTimeMillis == LongMin && c.oldEntry == ZeroEntry
  {
    Context(allowMultiple, false, LongMin, ZeroEntry)
  }

  /** What `onFulfilled` receives: the previous entry and the new one. */
  datatype Fulfilled = Fulfilled(oldEntry: Entry, entry: Entry)

  /** `fire`: marks the context fired and hands the previous and the new
      entry to the callback. */
  function Fire(c: Context, entry: Entry): (r: (Context, Fulfilled))
    ensures r.0 == c.(fired := true)
    ensures r.1 == Fulfilled(c.oldEntry, entry)
  {
    (c.(fired := true), Fulfilled(c.oldEntry, entry))
  }

  /** The part of `check` after `internalCheck`: the entry becomes the
      previous one. */
  function Remember(c: Context, entry: Entry): (r: Context)
    ensures r == c.(oldEntry := entry)
  {
    c.(oldEntry := entry)
  }

  /** `reset`: back to no previous visible check and the zero entry;
      `fired` stays as it was. */
  function Reset(c: Context): (r: Context)
    ensures r.previousTimeMillis == LongMin && r.oldEntry == ZeroEntry
    ensures r.fired == c.fired && r.allowMultiple == c.allowMultiple
  {
    c.(previousTimeMillis := LongMin, oldEntry := ZeroEntry)
  }
}

/** `ViewableImpressionContext`: fires once the view has been visible
    enough — by ratio or by pixels — for the minimum view time. Time is a
    parameter: the value `SystemClock.uptimeMillis()` gives at the check. */
module ViewableImpressionContext {
  import opened Outcomes
  import V = VisibilityObserverContext

  /** `Int.MIN_VALUE`: the pixel threshold of a context that works by ratio. */
  const IntMin: int := -0x8000_0000

  /** `Double.MIN_VALUE`, the smallest positive double, which the pixel
      constructor stores as the (unused) ratio threshold: 2 to the -1074. */
  function DoubleMinValue(): (r: real)
    ensures r > 0.0
  {
    HalfPower(1074)
  }

  function HalfPower(k: nat): (r: real)
    ensures r > 0.0
  {
    if k == 0 then 1.0 else HalfPower(k - 1) / 2.0
  }

  datatype Viewable = Viewable(
    base: V.Context,
    visibilityRatio: real,
    visibilityPx: int,
    minimumViewTimeMillis: int,
    totalVisibleTimeMillis: int,
    wasVisible: bool)

  /** The ratio constructor. */
  function WithRatio(visibilityRatio: real, minimumViewTimeMillis: int): (c: Viewable)
    ensures UsesRatio(c) && c.visibilityRatio == visibilityRatio
    ensures Fresh(c) && c.minimumViewTimeMillis == minimumViewTimeMillis
  {
    Viewable(V.New(false), visibilityRatio, IntMin, minimumViewTimeMillis, 0, false)
  }

  /** The pixel constructor. */
  function WithPixels(visibilityPx: int, minimumViewTimeMillis: int): (c: Viewable)
    ensures c.visibilityPx == visibilityPx && c.visibilityRatio == DoubleMinValue()
    ensures Fresh(c) && c.minimumViewTimeMillis == minimumViewTimeMillis
  {
    Viewable(V.New(false), DoubleMinValue(), visibilityPx, minimumViewTimeMillis, 0, false)
  }

  /** Nothing accumulated, no previous visible check, nothing fired. */
  predicate Fresh(c: Viewable) {
    && !c.base.allowMultiple && !c.base.fired
    && c.base.previousTimeMillis == V.LongMin && c.base.oldEntry == V.ZeroEntry
    && c.totalVisibleTimeMillis == 0 && !c.wasVisible
  }

  predicate UsesRatio(c: Viewable) {
    c.visibilityPx == IntMin
  }

  /** Whether an entry counts as visible: by ratio when the pixel threshold
      is `Int.MIN_VALUE`, otherwise by pixels. */
  predicate IsVisible(c: Viewable, entry: V.Entry) {
    if c.visibilityPx == IntMin then entry.intersectingRatio >= c.visibilityRatio
    else entry.intersectingPx >= c.visibilityPx
  }

  /** `internalCheck` at time `now`. */
  function InternalCheck(c: Viewable, entry: V.Entry, now: int): (r: (Viewable, Option<V.Fulfilled>))
    ensures r.0.wasVisible == IsVisible(c, entry)
    ensures r.0.visibilityRatio == c.visibilityRatio && r.0.visibilityPx == c.visibilityPx
    ensures r.0.minimumViewTimeMillis == c.minimumViewTimeMillis
    ensures r.0.base.oldEntry == c.base.oldEntry && r.0.base.allowMultiple == c.base.allowMultiple
    ensures r.0.base.fired == (c.base.fired || r.1.Some?)
    ensures r.1.Some? ==> r.1.value == V.Fulfilled(c.base.oldEntry, entry)
    ensures !((c.wasVisible || c.minimumViewTimeMillis == 0) && IsVisible(c, entry)) ==>
              && r.0.totalVisibleTimeMillis == 0 && r.0.base.previousTimeMillis == V.LongMin
              && r.1.None?
    ensures (c.wasVisible || c.minimumViewTimeMillis == 0) && IsVisible(c, entry) ==>
              && r.0.totalVisibleTimeMillis ==
                   c.totalVisibleTimeMillis + (if c.base.previousTimeMillis != V.LongMin then now - c.base.previousTimeMillis else 0)
              && r.0.base.previousTimeMillis == now
              && (r.1.Some? <==> r.0.totalVisibleTimeMillis >= c.minimumViewTimeMillis)
  {
    var isVisible := IsVisible(c, entry);
    if (c.wasVisible || c.minimumViewTimeMillis == 0) && isVisible then
      var total :=
        if c.base.previousTimeMillis != V.LongMin
        then c.totalVisibleTimeMillis + (now - c.base.previousTimeMillis)
        else c.totalVisibleTimeMillis;
      var (base, fulfilled) :=
        if total >= c.minimumViewTimeMillis then
          var f := V.Fire(c.base, entry); (f.0, Some(f.1))
        else (c.base, None);
      (c.(base := base.(previousTimeMillis := now), totalVisibleTimeMillis := total, wasVisible := isVisible),
       fulfilled)
    else
      (c.(base := c.base.(previousTimeMillis := V.LongMin), totalVisibleTimeMillis := 0, wasVisible := isVisible),
       None)
  }

  /** `check`: `internalCheck`, then the entry becomes the previous one. */
  function Check(c: Viewable, entry: V.Entry, now: int): (r: (Viewable, Option<V.Fulfilled>))
    ensures r.0.base.oldEntry == entry
    ensures c.base.fired ==> r.0.base.fired
    ensures r.0.base.fired == (c.base.fired || r.1.Some?)
    ensures r.1.Some? ==> r.1.value == V.Fulfilled(c.base.oldEntry, entry)
  {
    var (c1, fulfilled) := InternalCheck(c, entry, now);
    (c1.(base := V.Remember(c1.base, entry)), fulfilled)
  }

  /** `reset`: clears the accumulated time, the previous visible check and
      the visibility of the last check; `fired` stays. */
  function Reset(c: Viewable): (r: Viewable)
    ensures r.totalVisibleTimeMillis == 0 && !r.wasVisible
    ensures r.base.previousTimeMillis == V.LongMin && r.base.oldEntry == V.ZeroEntry
    ensures r.base.fired == c.base.fired
    ensures r.minimumViewTimeMillis == c.minimumViewTimeMillis && r.visibilityPx == c.visibilityPx
  {
    c.(base := V.Reset(c.base), totalVisibleTimeMillis := 0, wasVisible := false)
  }

  /** Without a minimum view time, the first visible check fires. */
  lemma NoMinimumFiresAtOnce(c: Viewable, entry: V.Entry, now: int)
    requires Fresh(c) && c.minimumViewTimeMillis == 0 && IsVisible(c, entry)
    ensures Check(c, entry, now).1 == Some(V.Fulfilled(V.ZeroEntry, entry))
  {
  }

  /** With a minimum view time, the clock starts at the second visible
      check in a row: the first only records that the view was visible. */
  lemma ClockStartsAtSecondVisibleCheck(c: Viewable, e1: V.Entry, t1: int, e2: V.Entry, t2: int)
    requires Fresh(c) && c.minimumViewTimeMillis > 0 && IsVisible(c, e1) && IsVisible(c, e2)
    ensures var (c1, f1) := Check(c, e1, t1);
      && f1.None? && c1.wasVisible && c1.base.previousTimeMillis == V.LongMin
      && var (c2, f2) := Check(c1, e2, t2);
      f2.None? && c2.totalVisibleTimeMillis == 0 && c2.base.previousTimeMillis == t2
  {
  }

  /** Along consecutive visible checks, once the clock runs, the
      accumulated time grows by exactly the time elapsed. */
  lemma {:induction false} VisibleTimeAccumulates(c: Viewable, entries: seq<V.Entry>, times: seq<int>)
    requires |entries| == |times| > 0
    requires c.wasVisible && c.base.previousTimeMillis != V.LongMin
    requires forall i :: 0 <= i < |entries| ==> IsVisible(c, entries[i])
    requires forall i :: 0 <= i < |times| ==> times[i] != V.LongMin
    ensures var c1 := Checks(c, entries, times).0;
      && c1.totalVisibleTimeMillis == c.totalVisibleTimeMillis + (times[|times| - 1] - c.base.previousTimeMillis)
      && c1.base.previousTimeMillis == times[|times| - 1]
    decreases |entries|
  {
    var c0 := Check(c, entries[0], times[0]).0;
    if |entries| > 1 {
      assert forall i :: 0 <= i < |entries| - 1 ==> IsVisible(c0, entries[1..][i]) by {
        assert forall i :: 0 <= i < |entries| - 1 ==> entries[1..][i] == entries[i + 1];
      }
      VisibleTimeAccumulates(c0, entries[1..], times[1..]);
    }
  }

  /** A sequence of checks, and how many of them fired. */
  function Checks(c: Viewable, entries: seq<V.Entry>, times: seq<int>): (r: (Viewable, nat))
    requires |entries| == |times|
    ensures r.0.visibilityPx == c.visibilityPx && r.0.visibilityRatio == c.visibilityRatio
    ensures r.0.minimumViewTimeMillis == c.minimumViewTimeMillis
    ensures c.base.fired ==> r.0.base.fired
    ensures r.1 > 0 ==> r.0.base.fired
    decreases |entries|
  {
    if |entries| == 0 then (c, 0)
    else
      var (c1, f) := Check(c, entries[0], times[0]);
      var rest := Checks(c1, entries[1..], times[1..]);
      (rest.0, (if f.Some? then 1 else 0) + rest.1)
  }
}

/** `ExposureChangeContext`: fires on every check whose entry differs from
    the previous one. */
module ExposureChangeContext {
  import opened Outcomes
  import V = VisibilityObserverContext

  function New(): (c: V.Context)
    ensures c.allowMultiple && !c.fired && c.oldEntry == V.ZeroEntry
  {
    V.New(true)
  }

  /** `internalCheck` followed by the rest of `check`. */
  function Check(c: V.Context, entry: V.Entry): (r: (V.Context, Option<V.Fulfilled>))
    ensures r.1.Some? <==> entry != c.oldEntry
    ensures r.1.Some? ==> r.1.value == V.Fulfilled(c.oldEntry, entry)
    ensures r.0.oldEntry == entry
    ensures r.0.fired == (c.fired || entry != c.oldEntry)
  {
    if entry != c.oldEntry then
      var (c1, f) := V.Fire(c, entry);
      (V.Remember(c1, entry), Some(f))
    else (V.Remember(c, entry), None)
  }

  /** The same entry twice in a row fires at most once. */
  lemma RepeatedEntryFiresAtMostOnce(c: V.Context, entry: V.Entry)
    ensures Check(Check(c, entry).0, entry).1.None?
  {
  }

  /** After `reset`, any entry other than the zero entry fires. */
  lemma ResetThenChangeFires(c: V.Context, entry: V.Entry)
    requires entry != V.ZeroEntry
    ensures Check(V.Reset(c), entry).1 == Some(V.Fulfilled(V.ZeroEntry, entry))
  {
  }
}
