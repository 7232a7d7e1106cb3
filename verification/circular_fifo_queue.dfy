/** `CircularFifoQueue`: a first-in first-out queue of fixed capacity kept in
    a ring buffer that overwrites its oldest element when it is full.

    The queue object is modelled as an immutable value: the storage array
    as a sequence of nullable slots, plus the `start`, `end` and `full`
    fields. Every operation returns the new value. `Contents` reads the
    logical queue, oldest first, off the ring. */
module CircularFifoQueue {
  import opened Outcomes
  import Validate
  import Text

  const DefaultSize: int := 32
  const SizeMustBePositive := "The size must be greater than 0."
  const ElementIsNull := "element is null."
  const QueueIsEmpty := "queue is empty"

  datatype Fifo<E> = Fifo(elements: seq<Option<E>>, start: int, end: int, full: bool)

  /** `maxSize()`: the capacity, which is the length of the storage array. */
  function MaxSize<E>(q: Fifo<E>): int {
    |q.elements|
  }

  /** The bounds every queue keeps on its indices. */
  predicate Shape<E>(q: Fifo<E>) {
    && |q.elements| > 0
    && 0 <= q.start < |q.elements|
    && 0 <= q.end < |q.elements|
    && (q.full ==> q.start == q.end)
  }

  /** The array index of the `i`-th oldest position of a ring that starts at
      `start`: `(start + i) % max`, for `i` up to one full turn. */
  function Slot(start: int, i: int, max: int): (s: int)
    requires 0 <= start < max && 0 <= i <= max
    ensures 0 <= s < max
  {
    if start + i < max then start + i else start + i - max
  }

  /** The `size` getter: how many slots lie between `start` and `end`, a
      full turn when `full` is set. */
  function Size<E>(q: Fifo<E>): (n: int)
    ensures Shape(q) ==> 0 <= n <= MaxSize(q)
    ensures Shape(q) ==> Slot(q.start, n, MaxSize(q)) == q.end
    ensures Shape(q) ==> (n == MaxSize(q) <==> q.full)
  {
    if q.end < q.start then |q.elements| - q.start + q.end
    else if q.end == q.start then (if q.full then |q.elements| else 0)
    else q.end - q.start
  }

  /** The size is the one count in `[0, max]` that leads from `start` to
      `end` and that is a full turn exactly when `full` is set. */
  lemma SizeIsUnique<E>(q: Fifo<E>, n: int)
    requires Shape(q) && 0 <= n <= MaxSize(q)
    requires Slot(q.start, n, MaxSize(q)) == q.end
    requires n == MaxSize(q) <==> q.full
    ensures Size(q) == n
  {
  }

  /** The representation invariant: the logical positions below the size
      hold elements and every other slot is cleared. */
  predicate Valid<E>(q: Fifo<E>) {
    && Shape(q)
    && (forall i :: 0 <= i < Size(q) ==> q.elements[Slot(q.start, i, |q.elements|)].Some?)
    && (forall i :: Size(q) <= i < |q.elements| ==> q.elements[Slot(q.start, i, |q.elements|)].None?)
  }

  /** The logical queue, oldest element first. */
  function Contents<E>(q: Fifo<E>): (c: seq<E>)
    requires Valid(q)
    ensures |c| == Size(q)
  {
    seq(Size(q), i requires 0 <= i < Size(q) => q.elements[Slot(q.start, i, |q.elements|)].value)
  }

  lemma ModIsSlot(start: int, i: int, max: int)
    requires 0 <= start < max && 0 <= i < max
    ensures (start + i) % max == Slot(start, i, max)
  {
    if start + i >= max {
      assert start + i == (start + i - max) + max * 1;
    }
  }

  // ---------------------------------------------------------------------
  // Construction
  // ---------------------------------------------------------------------

  /** The primary constructor: a capacity that is not positive is refused
      by `Validate.checkGreaterThan`. */
  function New<E>(size: int): (r: Result<Fifo<E>, Fault>)
    ensures r.Ok? <==> size > 0
    ensures r.Err? ==> r.error == IllegalArgument(SizeMustBePositive)
    ensures r.Ok? ==> Valid(r.value) && MaxSize(r.value) == size && Contents(r.value) == []
  {
    var _ :- Validate.CheckGreaterThan(size, 0, SizeMustBePositive);
    var q := Fifo(seq(size, _ => None), 0, 0, false);
    assert Size(q) == 0;
    Ok(q)
  }

  /** The no-argument constructor uses the default capacity of 32. */
  function NewDefault<E>(): (r: Result<Fifo<E>, Fault>)
    ensures r.Ok? && Valid(r.value) && MaxSize(r.value) == 32 && Contents(r.value) == []
  {
    New(DefaultSize)
  }

  // ---------------------------------------------------------------------
  // Queries
  // ---------------------------------------------------------------------

  function IsEmpty<E>(q: Fifo<E>): (b: bool)
    requires Valid(q)
    ensures b <==> Contents(q) == []
  {
    Size(q) == 0
  }

  /** A circular queue never refuses an element, so it is never "full" in
      the sense of the bounded-collection interface. */
  function IsFull<E>(q: Fifo<E>): (b: bool)
    ensures !b
  {
    false
  }

  function IsAtFullCapacity<E>(q: Fifo<E>): (b: bool)
    requires Valid(q)
    ensures b <==> |Contents(q)| == MaxSize(q)
    ensures b <==> q.full
  {
    Size(q) == MaxSize(q)
  }

  /** `get(index)`: the `index`-th oldest element; an index outside
      `[0, size)` throws `NoSuchElementException`. */
  function Get<E>(q: Fifo<E>, index: int): (r: Result<Option<E>, Fault>)
    requires Valid(q)
    ensures r.Ok? <==> 0 <= index < |Contents(q)|
    ensures r.Ok? ==> r.value == Some(Contents(q)[index])
    ensures r.Err? ==> r.error.NoSuchElement?
  {
    if index < 0 || index >= Size(q) then
      Err(NoSuchElement("The specified index " + Text.IntToDecimal(index)
                        + " is outside the available range [0, " + Text.IntToDecimal(Size(q)) + ")"))
    else
      ModIsSlot(q.start, index, MaxSize(q));
      Ok(q.elements[(q.start + index) % MaxSize(q)])
  }

  /** `peek()`: the oldest element, or null on an empty queue. */
  function Peek<E>(q: Fifo<E>): (r: Option<E>)
    requires Valid(q)
    ensures |Contents(q)| == 0 ==> r.None?
    ensures |Contents(q)| > 0 ==> r == Some(Contents(q)[0])
  {
    if IsEmpty(q) then None else q.elements[q.start]
  }

  /** `element()`: like `peek()`, but an empty queue throws. */
  function Element<E>(q: Fifo<E>): (r: Result<Option<E>, Fault>)
    requires Valid(q)
    ensures |Contents(q)| == 0 ==> r == Err(NoSuchElement(QueueIsEmpty))
    ensures |Contents(q)| > 0 ==> r == Ok(Some(Contents(q)[0]))
  {
    if IsEmpty(q) then Err(NoSuchElement(QueueIsEmpty)) else Ok(Peek(q))
  }

  // ---------------------------------------------------------------------
  // Removal
  // ---------------------------------------------------------------------

  /** The body of `remove()` past its emptiness check: clear the slot at
      `start` and advance `start` by one, wrapping at the capacity. */
  function Dequeue<E>(q: Fifo<E>): (res: (Option<E>, Fifo<E>))
    requires Valid(q) && Size(q) > 0
    ensures res.0 == Some(Contents(q)[0])
    ensures Valid(res.1) && MaxSize(res.1) == MaxSize(q)
    ensures Contents(res.1) == Contents(q)[1..]
  {
    var start1 := if q.start + 1 >= MaxSize(q) then 0 else q.start + 1;
    ClearingStartDropsOldest(q);
    (q.elements[q.start], Fifo(q.elements[q.start := None], start1, q.end, false))
  }

  lemma ClearingStartDropsOldest<E>(q: Fifo<E>)
    requires Valid(q) && Size(q) > 0
    ensures q.elements[q.start] == Some(Contents(q)[0])
    ensures var start1 := if q.start + 1 >= MaxSize(q) then 0 else q.start + 1;
            var q1 := Fifo(q.elements[q.start := None], start1, q.end, false);
            Valid(q1) && Contents(q1) == Contents(q)[1..]
  {
    var max := MaxSize(q);
    assert q.elements[q.start] == q.elements[Slot(q.start, 0, max)];
    var start1 := if q.start + 1 >= max then 0 else q.start + 1;
    var q1 := Fifo(q.elements[q.start := None], start1, q.end, false);
    ClearingStartIsValid(q);
    var c := Contents(q);
    var c1 := Contents(q1);
    forall i | 0 <= i < |c1| ensures c1[i] == c[1..][i] {
      ShiftedSlot(q.start, i, max);
    }
  }

  /** Logical position `i` of the ring starting one slot later is
      position `i + 1` of the original ring, never the old `start`. */
  lemma ShiftedSlot(start: int, i: int, max: int)
    requires 0 <= start < max && 0 <= i < max - 1
    ensures var start1 := if start + 1 >= max then 0 else start + 1;
            Slot(start1, i, max) == Slot(start, i + 1, max) != start
  {
  }

  lemma ClearingStartIsValid<E>(q: Fifo<E>)
    requires Valid(q) && Size(q) > 0
    ensures var start1 := if q.start + 1 >= MaxSize(q) then 0 else q.start + 1;
            var q1 := Fifo(q.elements[q.start := None], start1, q.end, false);
            Valid(q1) && Size(q1) == Size(q) - 1
  {
    var max := MaxSize(q);
    var n := Size(q);
    var start1 := if q.start + 1 >= max then 0 else q.start + 1;
    var q1 := Fifo(q.elements[q.start := None], start1, q.end, false);
    SlotAfterAdvance(q.start, max);
    SizeIsUnique(q1, n - 1);
    ClearingStartKeepsYounger(q);
    ClearingStartFreesRest(q);
  }

  lemma ClearingStartKeepsYounger<E>(q: Fifo<E>)
    requires Valid(q) && Size(q) > 0
    ensures var start1 := if q.start + 1 >= MaxSize(q) then 0 else q.start + 1;
            var e1 := q.elements[q.start := None];
            forall i :: 0 <= i < Size(q) - 1 ==> e1[Slot(start1, i, |e1|)].Some?
  {
    var max := MaxSize(q);
    var start1 := if q.start + 1 >= max then 0 else q.start + 1;
    var e1 := q.elements[q.start := None];
    forall i | 0 <= i < Size(q) - 1
      ensures e1[Slot(start1, i, max)].Some?
    {
      ShiftedSlot(q.start, i, max);
    }
  }

  lemma ClearingStartFreesRest<E>(q: Fifo<E>)
    requires Valid(q) && Size(q) > 0
    ensures var start1 := if q.start + 1 >= MaxSize(q) then 0 else q.start + 1;
            var e1 := q.elements[q.start := None];
            forall i :: Size(q) - 1 <= i < |e1| ==> e1[Slot(start1, i, |e1|)].None?
  {
    var max := MaxSize(q);
    var start1 := if q.start + 1 >= max then 0 else q.start + 1;
    var e1 := q.elements[q.start := None];
    forall i | Size(q) - 1 <= i < max
      ensures e1[Slot(start1, i, max)].None?
    {
      if i == max - 1 {
        assert Slot(start1, i, max) == q.start;
      } else {
        ShiftedSlot(q.start, i, max);
      }
    }
  }

  /** Advancing `start` by one slot shifts every logical position by one. */
  lemma SlotAfterAdvance(start: int, max: int)
    requires 0 <= start < max
    ensures var start1 := if start + 1 >= max then 0 else start + 1;
            forall i :: 0 <= i < max ==> Slot(start1, i, max) == Slot(start, i + 1, max)
  {
  }

  /** `remove()`: an empty queue throws; otherwise the oldest element is
      returned and taken off the queue. */
  function Remove<E>(q: Fifo<E>): (r: Result<(Option<E>, Fifo<E>), Fault>)
    requires Valid(q)
    ensures |Contents(q)| == 0 <==> r.Err?
    ensures r.Err? ==> r.error == NoSuchElement(QueueIsEmpty)
    ensures r.Ok? ==> r.value.0 == Some(Contents(q)[0])
    ensures r.Ok? ==> Valid(r.value.1) && MaxSize(r.value.1) == MaxSize(q)
    ensures r.Ok? ==> Contents(r.value.1) == Contents(q)[1..]
    ensures r.Ok? ==> |Contents(r.value.1)| == |Contents(q)| - 1
  {
    if IsEmpty(q) then Err(NoSuchElement(QueueIsEmpty)) else Ok(Dequeue(q))
  }

  /** `poll()`: like `remove()`, but an empty queue yields null and is left
      as it is. */
  function Poll<E>(q: Fifo<E>): (res: (Option<E>, Fifo<E>))
    requires Valid(q)
    ensures |Contents(q)| == 0 ==> res == (None, q)
    ensures Valid(res.1) && MaxSize(res.1) == MaxSize(q)
    ensures |Contents(q)| > 0 ==> res.0 == Some(Contents(q)[0]) && Contents(res.1) == Contents(q)[1..]
  {
    if IsEmpty(q) then (None, q) else Dequeue(q)
  }

  /** `clear()`: every slot nulled and the indices reset. */
  function Clear<E>(q: Fifo<E>): (r: Fifo<E>)
    requires Valid(q)
    ensures Valid(r) && MaxSize(r) == MaxSize(q) && Contents(r) == []
  {
    var r := Fifo(seq(|q.elements|, _ => None), 0, 0, false);
    assert Size(r) == 0;
    r
  }

  // ---------------------------------------------------------------------
  // Insertion
  // ---------------------------------------------------------------------

  /** The last `m` elements of `s` (all of `s` when it is shorter). */
  function LastAtMost<T>(s: seq<T>, m: nat): (r: seq<T>)
    ensures |r| <= m && |r| <= |s|
  {
    if |s| <= m then s else s[|s| - m..]
  }

  /** The write half of `add`: store the element at `end` and advance
      `end`, wrapping at the capacity; the queue is full again when `end`
      catches up with `start`. */
  function Store<E>(q: Fifo<E>, v: E): Fifo<E>
    requires Shape(q)
  {
    var end1 := if q.end + 1 >= MaxSize(q) then 0 else q.end + 1;
    Fifo(q.elements[q.end := Some(v)], q.start, end1, if end1 == q.start then true else q.full)
  }

  lemma StoreAppends<E>(q: Fifo<E>, v: E)
    requires Valid(q) && Size(q) < MaxSize(q)
    ensures Valid(Store(q, v)) && MaxSize(Store(q, v)) == MaxSize(q)
    ensures Contents(Store(q, v)) == Contents(q) + [v]
  {
    var max := MaxSize(q);
    var n := Size(q);
    var r := Store(q, v);
    assert q.end == Slot(q.start, n, max);
    assert r.end == Slot(q.start, n + 1, max);
    SizeIsUnique(r, n + 1);
    forall i | 0 <= i < max && i != n
      ensures r.elements[Slot(q.start, i, max)] == q.elements[Slot(q.start, i, max)]
    {
      assert Slot(q.start, i, max) != q.end;
    }
    assert Valid(r);
    var c := Contents(q);
    var c1 := Contents(r);
    assert |c1| == |c + [v]|;
    forall i | 0 <= i < |c1| ensures c1[i] == (c + [v])[i] {
    }
  }

  /** `add(element)` (and `offer`): a null element throws; a queue at full
      capacity first drops its oldest element; the new element then
      becomes the newest one. */
  function Add<E>(q: Fifo<E>, e: Option<E>): (r: Result<Fifo<E>, Fault>)
    requires Valid(q)
    ensures r.Ok? <==> e.Some?
    ensures r.Err? ==> r.error == NullPointer(ElementIsNull)
    ensures r.Ok? ==> Valid(r.value) && MaxSize(r.value) == MaxSize(q)
    ensures r.Ok? && |Contents(q)| < MaxSize(q) ==> Contents(r.value) == Contents(q) + [e.value]
    ensures r.Ok? && |Contents(q)| == MaxSize(q) ==> Contents(r.value) == Contents(q)[1..] + [e.value]
  {
    var v :- Validate.CheckNotNull(e, ElementIsNull);
    var q1 := if IsAtFullCapacity(q) then Dequeue(q).1 else q;
    StoreAppends(q1, v);
    Ok(Store(q1, v))
  }

  /** `offer(e)` is `add(e)`. */
  function Offer<E>(q: Fifo<E>, e: Option<E>): (r: Result<Fifo<E>, Fault>)
    requires Valid(q)
    ensures r.Ok? <==> e.Some?
    ensures r.Ok? ==> Valid(r.value) && Contents(r.value) == LastAtMost(Contents(q) + [e.value], MaxSize(q))
  {
    if e.Some? then
      AddKeepsNewest(q, e);
      Add(q, e)
    else
      Add(q, e)
  }

  /** Adding keeps exactly the newest `maxSize` elements ever offered. */
  lemma AddKeepsNewest<E>(q: Fifo<E>, e: Option<E>)
    requires Valid(q) && e.Some?
    ensures Add(q, e).Ok?
    ensures Contents(Add(q, e).value) == LastAtMost(Contents(q) + [e.value], MaxSize(q))
  {
    var c := Contents(q);
    var s := c + [e.value];
    if |c| == MaxSize(q) {
      assert s[|s| - MaxSize(q)..] == c[1..] + [e.value];
    }
  }

  /** What `addAll` leaves behind: the queue as it stands when the call
      returns or throws, and the call's outcome. */
  datatype AddAllOutcome<E> = AddAllOutcome(queue: Fifo<E>, status: Result<bool, Fault>)

  /** How many elements of the collection come before its first null. */
  function NullFreePrefix<E>(xs: seq<Option<E>>): (k: nat)
    ensures k <= |xs|
    ensures forall i :: 0 <= i < k ==> xs[i].Some?
    ensures k < |xs| ==> xs[k].None?
  {
    if |xs| == 0 || xs[0].None? then 0 else 1 + NullFreePrefix(xs[1..])
  }

  /** `addAll(coll)`, inherited from `AbstractCollection`: `add` each
      element in iteration order and answer whether any call changed the
      queue. `add` always answers true, so the answer is whether the
      collection was non-empty. A null element throws from `add`, and the
      elements added before it stay in the queue. */
  function AddAll<E>(q: Fifo<E>, xs: seq<Option<E>>): (r: AddAllOutcome<E>)
    requires Valid(q)
    ensures Valid(r.queue) && MaxSize(r.queue) == MaxSize(q)
    ensures r.status.Ok? <==> Validate.NoNulls(xs)
    ensures r.status.Err? ==> r.status.error == NullPointer(ElementIsNull)
    ensures r.status.Ok? ==> (r.status.value <==> |xs| > 0)
    decreases |xs|
  {
    if |xs| == 0 then AddAllOutcome(q, Ok(false))
    else
      assert Validate.NoNulls(xs) <==> xs[0].Some? && Validate.NoNulls(xs[1..]) by {
        if xs[0].Some? && Validate.NoNulls(xs[1..]) {
          forall j | 0 <= j < |xs| ensures xs[j].Some? {
            if j > 0 { assert xs[j] == xs[1..][j - 1]; }
          }
        }
      }
      var added := Add(q, xs[0]);
      if added.Err? then AddAllOutcome(q, Err(added.error))
      else
        var rest := AddAll(added.value, xs[1..]);
        AddAllOutcome(rest.queue, if rest.status.Ok? then Ok(true) else rest.status)
  }

  /** The payloads of a collection that holds no null. */
  function Values<E>(xs: seq<Option<E>>): (vs: seq<E>)
    requires Validate.NoNulls(xs)
    ensures |vs| == |xs|
    ensures forall i :: 0 <= i < |xs| ==> xs[i] == Some(vs[i])
  {
    seq(|xs|, i requires 0 <= i < |xs| => xs[i].value)
  }

  lemma LastAtMostAppend<T>(s: seq<T>, v: T, m: nat)
    requires m > 0
    ensures LastAtMost(LastAtMost(s, m) + [v], m) == LastAtMost(s + [v], m)
  {
  }

  /** After `addAll`, the queue holds the newest `maxSize` elements of its
      old contents followed by the elements added before the first null
      (all of them when there is none). */
  lemma {:induction false} AddAllKeepsNewest<E>(q: Fifo<E>, xs: seq<Option<E>>)
    requires Valid(q)
    ensures Contents(AddAll(q, xs).queue) ==
              LastAtMost(Contents(q) + Values(xs[..NullFreePrefix(xs)]), MaxSize(q))
    decreases |xs|
  {
    var c := Contents(q);
    if |xs| == 0 || xs[0].None? {
      AddAllStopsAtNull(q, xs);
      assert c + Values(xs[..NullFreePrefix(xs)]) == c;
    } else {
      var k := NullFreePrefix(xs);
      var q1 := Add(q, xs[0]).value;
      AddKeepsNewest(q, xs[0]);
      AddAllStep(q, xs);
      AddAllKeepsNewest(q1, xs[1..]);
      PrefixValuesCons(xs);
      LastAtMostStep(c, xs[0].value, Values(xs[1..][..k - 1]), MaxSize(q));
    }
  }

  /** An empty collection, or one starting with null, leaves the queue as
      it was. */
  lemma AddAllStopsAtNull<E>(q: Fifo<E>, xs: seq<Option<E>>)
    requires Valid(q) && (|xs| == 0 || xs[0].None?)
    ensures AddAll(q, xs).queue == q && NullFreePrefix(xs) == 0
  {
  }

  /** A first element that is not null is added before the rest. */
  lemma AddAllStep<E>(q: Fifo<E>, xs: seq<Option<E>>)
    requires Valid(q) && |xs| > 0 && xs[0].Some?
    ensures Add(q, xs[0]).Ok?
    ensures AddAll(q, xs).queue == AddAll(Add(q, xs[0]).value, xs[1..]).queue
  {
  }

  /** The null-free prefix of a collection that starts with an element is
      that element followed by the null-free prefix of the rest. */
  lemma PrefixValuesCons<E>(xs: seq<Option<E>>)
    requires |xs| > 0 && xs[0].Some?
    ensures NullFreePrefix(xs) == 1 + NullFreePrefix(xs[1..])
    ensures Values(xs[..NullFreePrefix(xs)]) == [xs[0].value] + Values(xs[1..][..NullFreePrefix(xs[1..])])
  {
    var k := NullFreePrefix(xs);
    assert xs[..k][1..] == xs[1..][..k - 1];
    ValuesCons(xs[..k]);
  }

  lemma LastAtMostStep<T>(c: seq<T>, v: T, vs: seq<T>, m: nat)
    requires m > 0
    ensures LastAtMost(LastAtMost(c + [v], m) + vs, m) == LastAtMost(c + ([v] + vs), m)
  {
    LastAtMostConcat(c + [v], vs, m);
    assert c + [v] + vs == c + ([v] + vs);
  }

  lemma ValuesCons<E>(xs: seq<Option<E>>)
    requires |xs| > 0 && Validate.NoNulls(xs)
    ensures Validate.NoNulls(xs[1..])
    ensures Values(xs) == [xs[0].value] + Values(xs[1..])
  {
    var a := Values(xs);
    var b := [xs[0].value] + Values(xs[1..]);
    assert |a| == |b|;
    forall i | 0 <= i < |a| ensures a[i] == b[i] {
      if i > 0 {
        assert xs[1..][i - 1] == xs[i];
      }
    }
  }

  lemma {:induction false} LastAtMostConcat<T>(s: seq<T>, t: seq<T>, m: nat)
    requires m > 0
    ensures LastAtMost(LastAtMost(s, m) + t, m) == LastAtMost(s + t, m)
    decreases |t|
  {
    if |t| == 0 {
      assert LastAtMost(s, m) + t == LastAtMost(s, m);
      assert s + t == s;
    } else {
      var t0 := t[..|t| - 1];
      var v := t[|t| - 1];
      assert t == t0 + [v];
      LastAtMostConcat(s, t0, m);
      LastAtMostAppend(LastAtMost(s, m) + t0, v, m);
      LastAtMostAppend(s + t0, v, m);
      assert LastAtMost(s, m) + t == (LastAtMost(s, m) + t0) + [v];
      assert s + t == (s + t0) + [v];
    }
  }

  /** The copy constructor: capacity `coll.size`, then `addAll(coll)`. An
      empty collection is refused for its capacity, a null element by
      `add`; otherwise the queue holds the collection in order. */
  function FromCollection<E>(coll: seq<Option<E>>): (r: Result<Fifo<E>, Fault>)
    ensures r.Ok? <==> |coll| > 0 && Validate.NoNulls(coll)
    ensures |coll| == 0 ==> r == Err(IllegalArgument(SizeMustBePositive))
    ensures r.Ok? ==> Valid(r.value) && MaxSize(r.value) == |coll| && Contents(r.value) == Values(coll)
  {
    var q :- New(|coll|);
    var added := AddAll(q, coll);
    AddAllKeepsNewest(q, coll);
    assert Validate.NoNulls(coll) ==> coll[..NullFreePrefix(coll)] == coll;
    if added.status.Ok? then Ok(added.queue) else Err(added.status.error)
  }
}
