/** The iterator of `CircularFifoQueue`: it walks the ring from `start` to
    `end` and supports `remove()` of the element it returned last, which
    closes the gap by shifting the younger elements one slot back.

    `At(q, it, k)` says that `it` is an iterator over `q` that has returned
    the `k` oldest elements; every lemma and method below is stated in
    terms of it. */
module CircularFifoIterator {
  import opened Outcomes
  import opened CircularFifoQueue

  /** The iterator's three fields: the next slot to read, the slot read
      last (-1 when there is none to remove) and whether a full queue has
      not been entered yet. */
  datatype Iter = Iter(index: int, lastReturnedIndex: int, isFirst: bool)

  /** `increment(index)` of the queue: the next slot, wrapping to 0. */
  function Increment(max: int, index: int): int {
    if index + 1 < max then index + 1 else 0
  }

  /** `decrement(index)` of the queue: the previous slot, wrapping to the
      last one. */
  function Decrement(max: int, index: int): int {
    if index - 1 >= 0 then index - 1 else max - 1
  }

  /** `iterator()`: positioned at `start`; on a full queue `start == end`,
      so `isFirst` records that the walk has not begun. */
  function Iterator<E>(q: Fifo<E>): Iter {
    Iter(q.start, -1, q.full)
  }

  predicate At<E>(q: Fifo<E>, it: Iter, k: int) {
    && Valid(q)
    && 0 <= k <= Size(q)
    && it.index == Slot(q.start, k, MaxSize(q))
    && it.isFirst == (q.full && k == 0)
    && (it.lastReturnedIndex == -1 || (1 <= k && it.lastReturnedIndex == Slot(q.start, k - 1, MaxSize(q))))
  }

  lemma IteratorStartsAtOldest<E>(q: Fifo<E>)
    requires Valid(q)
    ensures At(q, Iterator(q), 0)
    ensures Iterator(q).lastReturnedIndex == -1
  {
  }

  function HasNext<E>(q: Fifo<E>, it: Iter): bool {
    it.isFirst || it.index != q.end
  }

  /** `hasNext()` holds exactly while elements remain to be returned. */
  lemma HasNextIffElementsRemain<E>(q: Fifo<E>, it: Iter, k: int)
    requires At(q, it, k)
    ensures HasNext(q, it) <==> k < |Contents(q)|
  {
  }

  /** `next()`: throws `NoSuchElementException` (without a message) past
      the last element; otherwise returns the slot at `index` and steps. */
  function Next<E>(q: Fifo<E>, it: Iter): (r: Result<(Option<E>, Iter), Fault>)
    requires Shape(q) && 0 <= it.index < MaxSize(q)
    ensures r.Ok? ==> r.value.1.lastReturnedIndex == it.index && !r.value.1.isFirst
  {
    if !HasNext(q, it) then Err(NoSuchElement(""))
    else Ok((q.elements[it.index], Iter(Increment(MaxSize(q), it.index), it.index, false)))
  }

  /** The iterator returns the elements oldest first, which is the order
      `remove()` takes them off the queue. */
  lemma NextReturnsInQueueOrder<E>(q: Fifo<E>, it: Iter, k: int)
    requires At(q, it, k)
    ensures k < |Contents(q)| ==> (Next(q, it).Ok? && Next(q, it).value.0 == Some(Contents(q)[k])
                                   && At(q, Next(q, it).value.1, k + 1))
    ensures k == |Contents(q)| ==> Next(q, it) == Err(NoSuchElement(""))
  {
  }

  // ---------------------------------------------------------------------
  // Iterator.remove()
  // ---------------------------------------------------------------------

  /** `cur` is the storage `e` with the logical positions `p .. j-2` each
      holding the element of the next position, position `j-1` in any
      state, and every position outside `p .. j-1` untouched. */
  ghost predicate ShiftedDown<E>(e: seq<Option<E>>, cur: seq<Option<E>>, start: int, p: int, j: int)
    requires 0 <= start < |e| && 0 <= p < j <= |e|
  {
    && |cur| == |e|
    && (forall i :: p <= i < j - 1 ==> cur[Slot(start, i, |e|)] == e[Slot(start, i + 1, |e|)])
    && (forall i :: 0 <= i < |e| && !(p <= i < j) ==> cur[Slot(start, i, |e|)] == e[Slot(start, i, |e|)])
  }

  /** The `System.arraycopy` branch: when the younger elements do not wrap
      around the end of the array, shifting them is one block copy. */
  lemma BlockCopyShiftsDown<E>(q: Fifo<E>, p: int)
    requires Shape(q) && 1 <= p < Size(q)
    requires q.start < Slot(q.start, p, MaxSize(q)) && Slot(q.start, p, MaxSize(q)) + 1 < q.end
    ensures var L := Slot(q.start, p, MaxSize(q));
            ShiftedDown(q.elements, q.elements[..L] + q.elements[L + 1..q.end] + q.elements[q.end - 1..],
                        q.start, p, Size(q))
  {
    var e := q.elements;
    var L := Slot(q.start, p, MaxSize(q));
    BlockCopyIndices(e, L, q.end);
    BlockCopyMovesYounger(q, p);
    BlockCopyKeepsOthers(q, p);
  }

  lemma BlockCopyMovesYounger<E>(q: Fifo<E>, p: int)
    requires Shape(q) && 1 <= p < Size(q)
    requires q.start < Slot(q.start, p, MaxSize(q)) && Slot(q.start, p, MaxSize(q)) + 1 < q.end
    ensures var e := q.elements;
            var L := Slot(q.start, p, MaxSize(q));
            var cur := e[..L] + e[L + 1..q.end] + e[q.end - 1..];
            forall i :: p <= i < Size(q) - 1 ==> cur[Slot(q.start, i, |e|)] == e[Slot(q.start, i + 1, |e|)]
  {
    var e := q.elements;
    var max := |e|;
    var L := Slot(q.start, p, max);
    var cur := e[..L] + e[L + 1..q.end] + e[q.end - 1..];
    BlockCopyIndices(e, L, q.end);
    forall i | p <= i < Size(q) - 1
      ensures cur[Slot(q.start, i, max)] == e[Slot(q.start, i + 1, max)]
    {
      assert Slot(q.start, i, max) == q.start + i;
    }
  }

  lemma BlockCopyKeepsOthers<E>(q: Fifo<E>, p: int)
    requires Shape(q) && 1 <= p < Size(q)
    requires q.start < Slot(q.start, p, MaxSize(q)) && Slot(q.start, p, MaxSize(q)) + 1 < q.end
    ensures var e := q.elements;
            var L := Slot(q.start, p, MaxSize(q));
            var cur := e[..L] + e[L + 1..q.end] + e[q.end - 1..];
            forall i :: 0 <= i < |e| && !(p <= i < Size(q)) ==> cur[Slot(q.start, i, |e|)] == e[Slot(q.start, i, |e|)]
  {
    var e := q.elements;
    var max := |e|;
    var L := Slot(q.start, p, max);
    var cur := e[..L] + e[L + 1..q.end] + e[q.end - 1..];
    BlockCopyIndices(e, L, q.end);
    forall i | 0 <= i < max && !(p <= i < Size(q))
      ensures cur[Slot(q.start, i, max)] == e[Slot(q.start, i, max)]
    {
      var s := Slot(q.start, i, max);
      if i < p {
        assert s < L;
      } else {
        assert s >= q.end || s < q.start;
      }
    }
  }

  /** `System.arraycopy(elements, L + 1, elements, L, end - L - 1)` in
      terms of indices: the block `L + 1 .. end - 1` moves down by one and
      the rest of the array stays. */
  lemma BlockCopyIndices<T>(e: seq<T>, L: int, end: int)
    requires 0 <= L < end <= |e|
    ensures var cur := e[..L] + e[L + 1..end] + e[end - 1..];
            && |cur| == |e|
            && (forall k :: 0 <= k < L ==> cur[k] == e[k])
            && (forall k :: L <= k < end - 1 ==> cur[k] == e[k + 1])
            && (forall k :: end - 1 <= k < |e| ==> cur[k] == e[k])
  {
  }

  /** One step of the walk: copying position `j` into position `j - 1`
      extends the shifted block by one. */
  lemma ShiftStep<E>(e: seq<Option<E>>, cur: seq<Option<E>>, start: int, p: int, j: int)
    requires 0 <= start < |e| && 0 <= p < j < |e|
    requires ShiftedDown(e, cur, start, p, j)
    ensures cur[Slot(start, j, |e|)] == e[Slot(start, j, |e|)]
    ensures ShiftedDown(e, cur[Slot(start, j - 1, |e|) := cur[Slot(start, j, |e|)]], start, p, j + 1)
  {
    var max := |e|;
    var cur1 := cur[Slot(start, j - 1, max) := cur[Slot(start, j, max)]];
    forall i | 0 <= i < max && i != j - 1
      ensures cur1[Slot(start, i, max)] == cur[Slot(start, i, max)]
    {
      assert Slot(start, i, max) != Slot(start, j - 1, max);
    }
  }

  /** Writing into the free position `j - 1` keeps the shifted block. */
  lemma ShiftFreeWrite<E>(e: seq<Option<E>>, cur: seq<Option<E>>, start: int, p: int, j: int, v: Option<E>)
    requires 0 <= start < |e| && 0 <= p < j <= |e|
    requires ShiftedDown(e, cur, start, p, j)
    ensures ShiftedDown(e, cur[Slot(start, j - 1, |e|) := v], start, p, j)
  {
    var max := |e|;
    var cur1 := cur[Slot(start, j - 1, max) := v];
    forall i | 0 <= i < max && i != j - 1
      ensures cur1[Slot(start, i, max)] == cur[Slot(start, i, max)]
    {
      assert Slot(start, i, max) != Slot(start, j - 1, max);
    }
  }

  /** `decrement` and `increment` move one logical position back and
      forward. */
  lemma SlotNeighbours(start: int, j: int, max: int)
    requires 0 <= start < max && 1 <= j < max
    ensures Decrement(max, Slot(start, j, max)) == Slot(start, j - 1, max)
    ensures Slot(start, j, max) + 1 < max ==> Increment(max, Slot(start, j, max)) == Slot(start, j + 1, max)
    ensures Slot(start, j, max) + 1 == max ==> Slot(start, j + 1, max) == 0 || j + 1 == max
  {
  }

  /** Closing the gap at logical position `p` and clearing the slot before
      `end` leaves the queue without its `p`-th element. */
  lemma ShiftedDownRemovesOne<E>(q: Fifo<E>, cur: seq<Option<E>>, p: int)
    requires Valid(q) && 0 <= p < Size(q)
    requires ShiftedDown(q.elements, cur, q.start, p, Size(q))
    ensures var max := MaxSize(q);
            var end1 := Slot(q.start, Size(q) - 1, max);
            var q1 := Fifo(cur[end1 := None], q.start, end1, false);
            Valid(q1) && MaxSize(q1) == max
            && Contents(q1) == Contents(q)[..p] + Contents(q)[p + 1..]
  {
    var max := MaxSize(q);
    var n := Size(q);
    var end1 := Slot(q.start, n - 1, max);
    var q1 := Fifo(cur[end1 := None], q.start, end1, false);
    ClearedShiftIsValid(q, cur, p);
    var c := Contents(q);
    var c1 := Contents(q1);
    var want := c[..p] + c[p + 1..];
    assert |c1| == |want|;
    forall i | 0 <= i < |c1| ensures c1[i] == want[i] {
      assert Slot(q.start, i, max) != end1;
      if i < p {
        assert cur[Slot(q.start, i, max)] == q.elements[Slot(q.start, i, max)];
      } else {
        assert cur[Slot(q.start, i, max)] == q.elements[Slot(q.start, i + 1, max)];
      }
    }
  }

  /** The shifted storage with the slot before `end` cleared is a valid
      queue of one element fewer. */
  lemma ClearedShiftIsValid<E>(q: Fifo<E>, cur: seq<Option<E>>, p: int)
    requires Valid(q) && 0 <= p < Size(q)
    requires ShiftedDown(q.elements, cur, q.start, p, Size(q))
    ensures var end1 := Slot(q.start, Size(q) - 1, MaxSize(q));
            var q1 := Fifo(cur[end1 := None], q.start, end1, false);
            Valid(q1) && Size(q1) == Size(q) - 1
  {
    var max := MaxSize(q);
    var n := Size(q);
    var end1 := Slot(q.start, n - 1, max);
    var q1 := Fifo(cur[end1 := None], q.start, end1, false);
    SizeIsUnique(q1, n - 1);
    forall i | 0 <= i < n - 1 ensures q1.elements[Slot(q.start, i, max)].Some? {
      assert Slot(q.start, i, max) != end1;
      if i < p {
        assert cur[Slot(q.start, i, max)] == q.elements[Slot(q.start, i, max)];
      } else {
        assert cur[Slot(q.start, i, max)] == q.elements[Slot(q.start, i + 1, max)];
      }
    }
    forall i | n - 1 <= i < max ensures q1.elements[Slot(q.start, i, max)].None? {
      if i >= n {
        assert Slot(q.start, i, max) != end1;
        assert cur[Slot(q.start, i, max)] == q.elements[Slot(q.start, i, max)];
      }
    }
  }

  /** The shifting part of the iterator's `remove()` for a slot `L` other
      than `start`: one block copy when the younger elements do not wrap
      around the array, otherwise a slot-by-slot walk. */
  method ShiftDown<E>(q: Fifo<E>, L: int, ghost p: int) returns (elements: seq<Option<E>>)
    requires Valid(q) && 1 <= p < Size(q) && L == Slot(q.start, p, MaxSize(q))
    ensures ShiftedDown(q.elements, elements, q.start, p, Size(q))
  {
    var pos := L + 1;
    if q.start < L && pos < q.end {
      // shift in one part
      BlockCopyShiftsDown(q, p);
      elements := q.elements[..L] + q.elements[pos..q.end] + q.elements[q.end - 1..];
    } else {
      elements := WalkDown(q, L, p);
    }
  }

  /** The state of the walk: `pos` is the array slot of logical position
      `j` (or `max`, just before wrapping, while `j` is the first position
      after the gap and lies at slot 0), and the positions from the gap at
      `p` up to `j - 1` are shifted. */
  ghost predicate Walking<E>(e: seq<Option<E>>, cur: seq<Option<E>>, start: int, n: int, p: int, pos: int, j: int) {
    && 0 <= start < |e| && 0 <= p && p + 1 <= j <= n <= |e|
    && 0 <= pos <= |e|
    && (pos == |e| ==> j == p + 1 && Slot(start, j, |e|) == 0)
    && (pos < |e| ==> pos == Slot(start, j, |e|))
    && ShiftedDown(e, cur, start, p, j)
  }

  /** The wrapping step: the element at slot 0 moves to the last slot. */
  lemma WalkWraps<E>(e: seq<Option<E>>, cur: seq<Option<E>>, start: int, n: int, p: int, pos: int, j: int)
    requires Walking(e, cur, start, n, p, pos, j) && pos >= |e|
    ensures Walking(e, cur[pos - 1 := cur[0]], start, n, p, 0, j)
  {
    ShiftFreeWrite(e, cur, start, p, j, cur[0]);
  }

  /** The ordinary step: the element at `pos` moves to the slot before it
      and `pos` advances, wrapping at the capacity. */
  lemma WalkShifts<E>(e: seq<Option<E>>, cur: seq<Option<E>>, start: int, n: int, p: int, pos: int, j: int)
    requires Walking(e, cur, start, n, p, pos, j) && pos < |e| && j < n
    ensures var max := |e|;
            Walking(e, cur[Decrement(max, pos) := cur[pos]], start, n, p, Increment(max, pos), j + 1)
  {
    SlotNeighbours(start, j, |e|);
    ShiftStep(e, cur, start, p, j);
  }

  /** The walk from `L + 1` to `end` that moves each slot's element into
      the slot before it, wrapping from the last slot of the array to the
      first. */
  method WalkDown<E>(q: Fifo<E>, L: int, ghost p: int) returns (elements: seq<Option<E>>)
    requires Shape(q) && 1 <= p < Size(q) && L == Slot(q.start, p, MaxSize(q))
    ensures ShiftedDown(q.elements, elements, q.start, p, Size(q))
  {
    var max := MaxSize(q);
    ghost var n := Size(q);
    elements := q.elements;
    var pos := L + 1;
    ghost var j := p + 1;
    while pos != q.end
      invariant Walking(q.elements, elements, q.start, n, p, pos, j)
      decreases n - j + (if pos == max then 1 else 0)
    {
      if pos >= max {
        WalkWraps(q.elements, elements, q.start, n, p, pos, j);
        elements := elements[pos - 1 := elements[0]];
        pos := 0;
      } else {
        assert j < n;
        WalkShifts(q.elements, elements, q.start, n, p, pos, j);
        elements := elements[Decrement(max, pos) := elements[pos]];
        pos := Increment(max, pos);
        j := j + 1;
      }
    }
    assert j == n;
  }

  /** `remove()` of the iterator. Without an element returned since the
      last removal it throws `IllegalStateException` (without a message).
      Removing the oldest element delegates to the queue's `remove()`;
      any other element is overwritten by shifting the younger ones one
      slot towards `start`; then `end` steps back over a cleared slot and
      the iterator steps back with it. */
  method IteratorRemove<E>(q: Fifo<E>, it: Iter, ghost k: int) returns (r: Result<(Fifo<E>, Iter), Fault>)
    requires At(q, it, k)
    ensures r.Err? <==> it.lastReturnedIndex == -1
    ensures r.Err? ==> r.error == IllegalState("")
    ensures r.Ok? ==> Valid(r.value.0) && MaxSize(r.value.0) == MaxSize(q)
    ensures r.Ok? ==> Contents(r.value.0) == Contents(q)[..k - 1] + Contents(q)[k..]
    ensures r.Ok? ==> At(r.value.0, r.value.1, k - 1) && r.value.1.lastReturnedIndex == -1
  {
    if it.lastReturnedIndex == -1 {
      return Err(IllegalState(""));
    }
    // First element can be removed quickly
    if it.lastReturnedIndex == q.start {
      var q1, it1 := RemoveOldest(q, it, k);
      return Ok((q1, it1));
    }
    var q1, it1 := RemoveYounger(q, it, k);
    return Ok((q1, it1));
  }

  /** The iterator's `remove()` when the element returned last is the
      oldest one: the queue's own `remove()`. */
  method RemoveOldest<E>(q: Fifo<E>, it: Iter, ghost k: int) returns (q1: Fifo<E>, it1: Iter)
    requires At(q, it, k) && it.lastReturnedIndex == q.start
    ensures Valid(q1) && MaxSize(q1) == MaxSize(q)
    ensures Contents(q1) == Contents(q)[..k - 1] + Contents(q)[k..]
    ensures At(q1, it1, k - 1) && it1.lastReturnedIndex == -1
  {
    assert k == 1;
    q1 := Dequeue(q).1;
    assert Contents(q)[..0] + Contents(q)[1..] == Contents(q)[1..];
    it1 := Iter(it.index, -1, it.isFirst);
  }

  /** The iterator's `remove()` for any element but the oldest: shift the
      younger ones down, step `end` back over the cleared slot and step
      the iterator back with it. */
  method RemoveYounger<E>(q: Fifo<E>, it: Iter, ghost k: int) returns (q1: Fifo<E>, it1: Iter)
    requires At(q, it, k) && it.lastReturnedIndex != -1 && it.lastReturnedIndex != q.start
    ensures Valid(q1) && MaxSize(q1) == MaxSize(q)
    ensures Contents(q1) == Contents(q)[..k - 1] + Contents(q)[k..]
    ensures At(q1, it1, k - 1) && it1.lastReturnedIndex == -1
  {
    var max := MaxSize(q);
    ghost var n := Size(q);
    ghost var p := k - 1;
    var L := it.lastReturnedIndex;
    assert 1 <= p < n;
    var elements := ShiftDown(q, L, p);
    ShiftedDownRemovesOne(q, elements, p);
    var end1 := Decrement(max, q.end);
    assert end1 == Slot(q.start, n - 1, max);
    elements := elements[end1 := None];
    q1 := Fifo(elements, q.start, end1, false);
    it1 := Iter(Decrement(max, it.index), -1, it.isFirst);
    assert it1.index == Slot(q.start, p, max);
  }
}
