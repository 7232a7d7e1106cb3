# A verified model of the Android SDK's sequential core

This project models the self-contained, sequential parts of the example
Android advertising SDK (`com.example.sdk.internal`) in Dafny, and proves
what those parts promise. The parts are:

- the bounded ring buffer `CircularFifoQueue`, including its iterator and the
  iterator's `remove()`;
- the precondition checks of `Validate`;
- the ISO 8601 timestamp writer `CalendarUtils.format`/`padInt`, starting from
  calendar fields that are already split out;
- the HTTP header collection `HttpHeaders` and the header `HttpHeader`;
- the task machinery:
  - the complete-once `TaskImpl`;
  - the LIFO listener queue `ExecuteResultQueue`;
  - the cancel-once `CancellationTokenSource`;
- the bounded dispatcher `ExecutorNodeQueue`;
- the foreground/background state machine `BackgroundDetector`;
- the visibility contexts of the `visibilitytracker` package;
- the flag read/write policy of `Flags`;
- the small parsers and helpers:
  - `SdkLogger`, with its levels, message accumulation, tag prefixing and
    throwable rendering;
  - `MraidCommand`, `MraidOrientation` and `MraidOrientationProperties`;
  - `ExceptionUtils.unwrapException`;
  - the SDK check in `CrashEventCommon`.

The source's mutable objects are immutable Dafny values here. Every
operation returns the new state together with what the source would hand to
the outside world:
- callback invocations are returned as a list, in order;
- log lines are returned as values;
- a thrown exception becomes an `Err` carrying a `Fault` with the source's
  message (`Outcomes`).

A null reference is `None`. Clocks, random UUIDs, executors, `String.format`
and `Log.getStackTraceString` are not computed here; they are parameters.

One module per source class:

| file | module(s) |
|---|---|
| `outcomes.dfy` | `Outcomes`: `Option`, `Result`, `Fault` |
| `text.dfy` | `Text`: ASCII case folding, `split`/`joinToString`, decimal rendering, JVM whitespace |
| `enums.dfy` | `Enums`: `values().find { … }` over an enum's constants |
| `throwables.dfy` | `Throwables`: the parts of `java.lang.Throwable` that are read, and the cause chain |
| `circular_fifo_queue.dfy` | `CircularFifoQueue` |
| `fifo_iterator.dfy` | `CircularFifoIterator`: the queue's iterator and its `remove()` |
| `validate.dfy` | `Validate` |
| `calendar_utils.dfy` | `CalendarUtils` |
| `http_header.dfy`, `http_headers.dfy` | `HttpHeader`, `HttpHeaders` |
| `execute_result_queue.dfy`, `task_impl.dfy` | `ExecuteResultQueue`, `TaskImpl` |
| `cancellation_token_source.dfy` | `CancellationTokenSource` |
| `executor_node_queue.dfy` | `ExecutorNodeQueue` |
| `background_detector.dfy` | `BackgroundDetector` |
| `visibility_contexts.dfy` | `VisibilityObserverContext`, `ViewableImpressionContext`, `ExposureChangeContext` |
| `flags.dfy` | `Flags` |
| `sdk_logger.dfy` | `SdkLogger` |
| `mraid.dfy` | `MraidCommand`, `MraidOrientation`, `MraidOrientationProperties` |
| `exception_utils.dfy` | `ExceptionUtils` |
| `crash_event_common.dfy` | `CrashEventCommon` |

The ring buffer is modelled as follows:
- **Storage.** The storage array is a sequence of nullable slots, next to the
  `start`, `end` and `full` fields.
- **Abstraction.** `Contents` reads the logical queue off the ring, oldest
  first. Every operation's contract is stated against it.
- **Iterator removal.** The iterator's `remove()` is written as methods:
  - its slot-by-slot shifting loop has loop invariants;
  - its `System.arraycopy` branch is a block copy.
- **The queue invariant.** Every mutating operation keeps `Valid`, which
  says:
  - the indices are in range;
  - `full` implies `start == end`;
  - exactly the first `size` positions from `start` hold an element.

## Model

Source paths are relative to the repository root.

| member | source | states |
|---|---|---|
| CircularFifoQueue.New | sdk/src/main/java/com/example/sdk/internal/common/collection/CircularFifoQueue.kt:28-33 | A queue exists exactly when the size is positive; otherwise `IllegalArgumentException("The size must be greater than 0.")`. A new queue is empty and its capacity is the size. |
| CircularFifoQueue.NewDefault | sdk/src/main/java/com/example/sdk/internal/common/collection/CircularFifoQueue.kt:28-33 | The no-argument constructor gives an empty queue of capacity 32. |
| CircularFifoQueue.FromCollection | sdk/src/main/java/com/example/sdk/internal/common/collection/CircularFifoQueue.kt:35-37 | The collection constructor has capacity equal to the collection's size. It fails on an empty collection (size not positive) and on a null element. Otherwise it holds the elements in iteration order. |
| CircularFifoQueue.Size | sdk/src/main/java/com/example/sdk/internal/common/collection/CircularFifoQueue.kt:106-122 | The three-case size formula lies between 0 and the capacity. It is the distance from `start` to `end` around the ring. It equals the capacity exactly when `full` is set. |
| CircularFifoQueue.SizeIsUnique | sdk/src/main/java/com/example/sdk/internal/common/collection/CircularFifoQueue.kt:106-122 | Only one count meets those three conditions, so the formula is the ring distance and nothing else. |
| CircularFifoQueue.IsEmpty | sdk/src/main/java/com/example/sdk/internal/common/collection/CircularFifoQueue.kt:129-131 | `isEmpty()` holds exactly when the queue holds no element. |
| CircularFifoQueue.IsFull | sdk/src/main/java/com/example/sdk/internal/common/collection/CircularFifoQueue.kt:138-140 | `isFull()` is always false: the queue never refuses an element. |
| CircularFifoQueue.IsAtFullCapacity | sdk/src/main/java/com/example/sdk/internal/common/collection/CircularFifoQueue.kt:148-150 | Holds exactly when the number of elements equals the capacity, which is exactly when `full` is set. |
| CircularFifoQueue.Get | sdk/src/main/java/com/example/sdk/internal/common/collection/CircularFifoQueue.kt:204-211 | `get(i)` is the i-th oldest element for i in `[0, size)`. Any other index throws `NoSuchElementException`. |
| CircularFifoQueue.Peek | sdk/src/main/java/com/example/sdk/internal/common/collection/CircularFifoQueue.kt:240-246 | Null on an empty queue, otherwise the oldest element. |
| CircularFifoQueue.Element | sdk/src/main/java/com/example/sdk/internal/common/collection/CircularFifoQueue.kt:233-238 | Throws "queue is empty" on an empty queue, otherwise the oldest element. |
| CircularFifoQueue.Dequeue | sdk/src/main/java/com/example/sdk/internal/common/collection/CircularFifoQueue.kt:253-262 | Clearing the `start` slot and advancing `start` returns the oldest element. The rest of the queue stays in order and the capacity is kept. |
| CircularFifoQueue.ClearingStartDropsOldest | sdk/src/main/java/com/example/sdk/internal/common/collection/CircularFifoQueue.kt:253-261 | The `start` slot holds the oldest element. Clearing it and advancing `start` (wrapping at the capacity) keeps the queue valid, minus that oldest element. |
| CircularFifoQueue.Remove | sdk/src/main/java/com/example/sdk/internal/common/collection/CircularFifoQueue.kt:248-263 | `remove()` fails exactly on an empty queue, with "queue is empty". Otherwise it returns the oldest element and keeps the others in order, so the size drops by one. |
| CircularFifoQueue.Poll | sdk/src/main/java/com/example/sdk/internal/common/collection/CircularFifoQueue.kt:225-231 | On an empty queue `poll()` returns null and leaves the queue as it was. Otherwise it behaves like `remove()`. |
| CircularFifoQueue.Clear | sdk/src/main/java/com/example/sdk/internal/common/collection/CircularFifoQueue.kt:164-169 | `clear()` leaves a valid, empty queue of the same capacity. |
| CircularFifoQueue.StoreAppends | sdk/src/main/java/com/example/sdk/internal/common/collection/CircularFifoQueue.kt:186-193 | Writing at `end` and advancing it (setting `full` when it meets `start`) appends the element to a queue that is not full. |
| CircularFifoQueue.Add | sdk/src/main/java/com/example/sdk/internal/common/collection/CircularFifoQueue.kt:179-195 | A null element throws "element is null.". Below capacity the element is appended. At capacity the oldest element is evicted first and the new one becomes the youngest. |
| CircularFifoQueue.AddKeepsNewest | sdk/src/main/java/com/example/sdk/internal/common/collection/CircularFifoQueue.kt:179-195 | After `add(e)` the queue holds the newest `maxSize` elements of the old contents followed by `e`. |
| CircularFifoQueue.Offer | sdk/src/main/java/com/example/sdk/internal/common/collection/CircularFifoQueue.kt:221-223 | `offer` is `add`: it fails only on null and keeps the newest `maxSize` elements. |
| CircularFifoQueue.AddAll | sdk/src/main/java/com/example/sdk/internal/common/collection/CircularFifoQueue.kt:26-37 | `addAll`, inherited through `AbstractMutableCollection` and used by the collection constructor, adds each element in order. It returns true exactly for a non-empty collection. It throws "element is null." exactly when some element is null, and the elements before that null stay in the queue. |
| CircularFifoQueue.AddAllKeepsNewest | sdk/src/main/java/com/example/sdk/internal/common/collection/CircularFifoQueue.kt:26-37 | After `addAll`, the queue holds the newest `maxSize` elements of its old contents followed by the elements added, which stop at the first null, thrown or not. |
| CircularFifoIterator.IteratorStartsAtOldest | sdk/src/main/java/com/example/sdk/internal/common/collection/CircularFifoQueue.kt:299-303 | A new iterator stands before the oldest element and has returned nothing. `isFirst` covers the full queue, where `start == end`. |
| CircularFifoIterator.HasNextIffElementsRemain | sdk/src/main/java/com/example/sdk/internal/common/collection/CircularFifoQueue.kt:305-307 | `hasNext()` holds exactly while elements remain to be returned, on a full queue too. |
| CircularFifoIterator.NextReturnsInQueueOrder | sdk/src/main/java/com/example/sdk/internal/common/collection/CircularFifoQueue.kt:309-317 | The k-th `next()` returns the k-th oldest element and records its slot. Past the last element it throws `NoSuchElementException`. |
| CircularFifoIterator.Next | sdk/src/main/java/com/example/sdk/internal/common/collection/CircularFifoQueue.kt:309-317 | A successful `next()` records the slot it returned as `lastReturnedIndex` and clears `isFirst`. |
| CircularFifoIterator.SlotNeighbours | sdk/src/main/java/com/example/sdk/internal/common/collection/CircularFifoQueue.kt:271-291 | `decrement` and `increment` move one logical position back and forward around the ring. |
| CircularFifoIterator.BlockCopyShiftsDown | sdk/src/main/java/com/example/sdk/internal/common/collection/CircularFifoQueue.kt:331-334 | When the younger elements do not wrap around, the single `System.arraycopy` shifts each of them one position towards `start` and leaves the older ones alone. |
| CircularFifoIterator.WalkDown | sdk/src/main/java/com/example/sdk/internal/common/collection/CircularFifoQueue.kt:337-345 | The wrapping walk from the removed slot to `end` shifts every younger element one position down, including across the end of the array. |
| CircularFifoIterator.ShiftDown | sdk/src/main/java/com/example/sdk/internal/common/collection/CircularFifoQueue.kt:331-346 | Either branch closes the gap at the removed position and keeps every older element where it was. |
| CircularFifoIterator.ShiftedDownRemovesOne | sdk/src/main/java/com/example/sdk/internal/common/collection/CircularFifoQueue.kt:348-351 | Once the gap is closed, moving `end` back and clearing its slot leaves the queue without exactly the removed element. |
| CircularFifoIterator.RemoveOldest | sdk/src/main/java/com/example/sdk/internal/common/collection/CircularFifoQueue.kt:325-329 | Removing the element returned last when it is the oldest one uses the queue's own `remove()`, which deletes exactly that element. |
| CircularFifoIterator.RemoveYounger | sdk/src/main/java/com/example/sdk/internal/common/collection/CircularFifoQueue.kt:331-352 | Removing any younger element deletes exactly it and keeps the others in order. The iterator steps back so that it still stands before the same next element. |
| CircularFifoIterator.IteratorRemove | sdk/src/main/java/com/example/sdk/internal/common/collection/CircularFifoQueue.kt:319-353 | `remove()` throws `IllegalStateException` when nothing has been returned since the last removal. Otherwise it deletes exactly the element returned last, keeps the order of the rest, and the iteration continues with the same next element. |
| Validate.CheckArgument | sdk/src/main/java/com/example/sdk/internal/Validate.kt:23-27 | Throws `IllegalArgumentException(errorMessage)` exactly when the expression is false. |
| Validate.CheckState | sdk/src/main/java/com/example/sdk/internal/Validate.kt:39-43 | Throws `IllegalStateException(errorMessage)` exactly when the expression is false. |
| Validate.CheckNotNull | sdk/src/main/java/com/example/sdk/internal/Validate.kt:55-60 | Returns a non-null reference unchanged and throws `NullPointerException(errorMessage)` on null. |
| Validate.CheckGreaterThan | sdk/src/main/java/com/example/sdk/internal/Validate.kt:75-84 | Throws exactly when value ≤ bound, otherwise returns the value. |
| Validate.CheckGreaterThanOrEqualTo | sdk/src/main/java/com/example/sdk/internal/Validate.kt:98-107 | Throws exactly when value < bound, otherwise returns the value. |
| Validate.CheckLessThan | sdk/src/main/java/com/example/sdk/internal/Validate.kt:122-131 | Throws exactly when value ≥ bound, otherwise returns the value. |
| Validate.CheckLessThanOrEqualTo | sdk/src/main/java/com/example/sdk/internal/Validate.kt:145-154 | Throws exactly when value > bound, otherwise returns the value. |
| Validate.CheckCollectionElementsNotNull | sdk/src/main/java/com/example/sdk/internal/Validate.kt:166-175 | A null collection throws "name must not be null.". A collection with a null element throws "name[k] must not be null." for the first null's index k. Otherwise the collection is returned. |
| Validate.CheckCollectionNotEmpty | sdk/src/main/java/com/example/sdk/internal/Validate.kt:187-194 | A null collection gives the null-pointer error and an empty one "name is empty.". Otherwise the collection is returned. |
| Validate.CheckMapNotEmpty | sdk/src/main/java/com/example/sdk/internal/Validate.kt:206-213 | The same for maps: null, then empty, then the map itself. |
| Validate.CheckStringNotBlank | sdk/src/main/java/com/example/sdk/internal/Validate.kt:225-233 | Throws exactly for null or blank strings. A string that passes is returned unchanged and has a non-whitespace character. |
| Validate.StringCheckExamples | sdk/src/main/java/com/example/sdk/internal/Validate.kt:225-233 | Worked example, not a general property: the empty string and a string of spaces, tab and newline are refused; " a " passes unchanged. |
| CalendarUtils.PadInt | sdk/src/main/java/com/example/sdk/internal/common/CalendarUtils.kt:106-112 | The padded number is at least `length` characters long and never empty. |
| CalendarUtils.PadIntShape | sdk/src/main/java/com/example/sdk/internal/common/CalendarUtils.kt:106-112 | `padInt` writes max(length, digits) characters: only zeros, then the decimal form unchanged. |
| CalendarUtils.PadIntReadsBack | sdk/src/main/java/com/example/sdk/internal/common/CalendarUtils.kt:106-112 | A value that fits in `length` digits becomes exactly `length` digits that read back as the value. |
| CalendarUtils.PadIntKeepsLongNumbers | sdk/src/main/java/com/example/sdk/internal/common/CalendarUtils.kt:106-112 | A number that already has `length` characters or more is written unpadded. |
| CalendarUtils.PadIntExamples | sdk/src/main/java/com/example/sdk/internal/common/CalendarUtils.kt:106-112 | Worked example, not a general property: 3 pads to "03", 7 to "007", and 789 fills three digits by itself. |
| CalendarUtils.OffsetIsWholeMinutesOfAbsolute | sdk/src/main/java/com/example/sdk/internal/common/CalendarUtils.kt:84-91 | With the JVM's truncating `/` and `%`, the printed hours and minutes are the absolute offset in whole minutes, split at 60. They are the same for `+` and `-`. |
| CalendarUtils.DatePartSpelled | sdk/src/main/java/com/example/sdk/internal/common/CalendarUtils.kt:68-78 | The date and time part is the source's sequence of `padInt` calls and separators, with the month counted from 1. |
| CalendarUtils.ZoneSpelled | sdk/src/main/java/com/example/sdk/internal/common/CalendarUtils.kt:89-91 | The offset part is `padInt(hours, 2)`, `:`, `padInt(minutes, 2)`. |
| CalendarUtils.Format | sdk/src/main/java/com/example/sdk/internal/common/CalendarUtils.kt:49-97 | The formatted string ends in `Z` exactly when the offset is zero. |
| CalendarUtils.ZonePartEnds | sdk/src/main/java/com/example/sdk/internal/common/CalendarUtils.kt:84-94 | The zone designator is `Z` for a zero offset. Otherwise it is a sign and `hh:mm`, which never ends in `Z`. |
| CalendarUtils.ReadWrite | sdk/src/main/java/com/example/sdk/internal/common/CalendarUtils.kt:68-91 | A layout of zero-padded numbers and separators is read back exactly, with the text after it left untouched, when every number fits its width. |
| CalendarUtils.DateFits | sdk/src/main/java/com/example/sdk/internal/common/CalendarUtils.kt:68-78 | Calendar fields in range fit the widths of `yyyy-MM-ddThh:mm:ss`. |
| CalendarUtils.DatePartReads | sdk/src/main/java/com/example/sdk/internal/common/CalendarUtils.kt:68-78 | The date and time part reads back as year, month + 1, day, hour, minute and second. |
| CalendarUtils.ZonePartDecodes | sdk/src/main/java/com/example/sdk/internal/common/CalendarUtils.kt:84-94 | The zone designator reads back as UTC, or as the sign and the whole-minute offset. |
| CalendarUtils.RestReads | sdk/src/main/java/com/example/sdk/internal/common/CalendarUtils.kt:79-94 | After the seconds, a `.sss` fraction is present exactly when millisecond precision was asked for, and it is followed by the zone. |
| CalendarUtils.FormatDecodes | sdk/src/main/java/com/example/sdk/internal/common/CalendarUtils.kt:49-97 | `format` loses nothing it prints. Reading its output back gives the date fields, the milliseconds exactly when asked for, and `Z` or the signed offset. |
| CalendarUtils.FormatExample | sdk/src/main/java/com/example/sdk/internal/common/CalendarUtils.kt:68-94 | Worked example, not a general property: 3 October 2019 23:21:30.789 GMT formats as "2019-10-03T23:21:30Z", or "2019-10-03T23:21:30.789Z" with milliseconds. |
| CalendarUtils.ZoneExamples | sdk/src/main/java/com/example/sdk/internal/common/CalendarUtils.kt:84-94 | Worked example, not a general property: offsets of 0, +2 h and −2 h print as "Z", "+02:00" and "-02:00". |
| Text.Split | sdk/src/main/java/com/example/sdk/internal/http/raw/HttpHeader.kt:18 | Kotlin's `split(",")` always gives at least one part and no part contains the delimiter. |
| Text.JoinSplit | sdk/src/main/java/com/example/sdk/internal/http/raw/HttpHeader.kt:18 | Joining the parts of a split with the delimiter gives back the original string; nothing is trimmed or dropped. |
| Text.SplitJoin | sdk/src/main/java/com/example/sdk/internal/http/raw/HttpHeader.kt:18 | Parts free of the delimiter, once joined, split back into exactly those parts, empty parts included. |
| Text.LowerStr | sdk/src/main/java/com/example/sdk/internal/http/raw/HttpHeaders.kt:91 | `formatName` keeps the length and lower-cases each letter in place. |
| Text.EqualsIgnoreCaseIsLowerEquality | sdk/src/main/java/com/example/sdk/internal/http/raw/HttpHeaders.kt:71-91 | Two names are equal ignoring case exactly when their `formatName` keys are equal, so a lower-cased key finds every case variant. |
| HttpHeader.GetValues | sdk/src/main/java/com/example/sdk/internal/http/raw/HttpHeader.kt:16-20 | Null exactly when the value is null. Otherwise the parts contain no comma and, joined by commas, give back the value: an untrimmed split that keeps empty parts. |
| HttpHeader.AddValue | sdk/src/main/java/com/example/sdk/internal/http/raw/HttpHeader.kt:27-35 | A null value is a no-op. A value becomes the header's value when it had none, and is appended after a comma otherwise. The name never changes. |
| HttpHeader.AddedValueIsLast | sdk/src/main/java/com/example/sdk/internal/http/raw/HttpHeader.kt:16-35 | After adding a value without a comma, `getValues()` is the previous values followed by that value. |
| HttpHeaders.MapPut | sdk/src/main/java/com/example/sdk/internal/http/raw/HttpHeaders.kt:50-53 | The insertion-ordered map's `set`: an existing key keeps its place and takes the new header, a new key goes last. The map stays well formed. |
| HttpHeaders.MapRemove | sdk/src/main/java/com/example/sdk/internal/http/raw/HttpHeaders.kt:68 | The map's `remove` returns the header that was there and drops only that key, keeping the order of the others. |
| HttpHeaders.Empty | sdk/src/main/java/com/example/sdk/internal/http/raw/HttpHeaders.kt:25 | The no-argument constructor is an empty collection. |
| HttpHeaders.FromList | sdk/src/main/java/com/example/sdk/internal/http/raw/HttpHeaders.kt:32-34 | The list constructor (`associateBy { it.name }`) keys each header by its name as given, with a key for exactly the names in the list. Each key holds the LAST header of that name, and the keys are in the order of each name's first appearance. |
| HttpHeaders.Put | sdk/src/main/java/com/example/sdk/internal/http/raw/HttpHeaders.kt:50-65 | Both `put` forms keep the collection well formed. |
| HttpHeaders.PutThenGet | sdk/src/main/java/com/example/sdk/internal/http/raw/HttpHeaders.kt:50-71 | After `put(name, v)`, every case variant of `name` finds the new header, spelled as in the put. Every other name finds what it found before. |
| HttpHeaders.PutSize | sdk/src/main/java/com/example/sdk/internal/http/raw/HttpHeaders.kt:41-53 | `put` grows the collection exactly when no case variant of the name is present. |
| HttpHeaders.PutCaseVariantReplaces | sdk/src/main/java/com/example/sdk/internal/http/raw/HttpHeaders.kt:41-65 | A second `put` under a case variant replaces the header, taking the new spelling, and keeps the size. |
| HttpHeaders.GetIgnoresCase | sdk/src/main/java/com/example/sdk/internal/http/raw/HttpHeaders.kt:71 | Names that differ only in case find the same header. |
| HttpHeaders.Remove | sdk/src/main/java/com/example/sdk/internal/http/raw/HttpHeaders.kt:68 | `remove` returns what `get` finds and shrinks the collection by one exactly when it finds something. |
| HttpHeaders.RemoveThenGet | sdk/src/main/java/com/example/sdk/internal/http/raw/HttpHeaders.kt:68-71 | After `remove(name)`, no case variant of the name is found and every other name is unaffected. |
| HttpHeaders.GetValue | sdk/src/main/java/com/example/sdk/internal/http/raw/HttpHeaders.kt:74 | Non-null exactly when a header of that name exists and has a value, and then it is that value. |
| HttpHeaders.GetValuesOf | sdk/src/main/java/com/example/sdk/internal/http/raw/HttpHeaders.kt:77 | Non-null exactly when `getValue` is, and the parts join back to it. |
| HttpHeaders.Values | sdk/src/main/java/com/example/sdk/internal/http/raw/HttpHeaders.kt:93 | Iteration yields one header per entry, in insertion order. |
| HttpHeaders.ToMap | sdk/src/main/java/com/example/sdk/internal/http/raw/HttpHeaders.kt:83-89 | A name is in `toMap()` exactly when some header of that name has a value; headers with a null value are left out. |
| HttpHeaders.ToMapTakesLastValue | sdk/src/main/java/com/example/sdk/internal/http/raw/HttpHeaders.kt:83-89 | A name maps to the value of the last header of that name that has one. |
| HttpHeaders.FromListMissesUpperCase | sdk/src/main/java/com/example/sdk/internal/http/raw/HttpHeaders.kt:32-34 | The list constructor does not lower-case names. A header whose name has a capital letter is held, but `get` of that same name misses it. |
| HttpHeaders.ToTextExample | sdk/src/main/java/com/example/sdk/internal/http/raw/HttpHeaders.kt:99-103 | Worked example, not a general property: `toString()` prints `name=value` per header, joined by ", ", with a missing value printed as `null`. |
| ExecuteResultQueue.Empty | sdk/src/main/java/com/example/sdk/internal/concurrent/tasks/ExecuteResultQueue.kt:8-12 | A new queue is empty and not dispatching. |
| ExecuteResultQueue.Enqueue | sdk/src/main/java/com/example/sdk/internal/concurrent/tasks/ExecuteResultQueue.kt:14-22 | `enqueue` puts the result at the tail and changes nothing else. |
| ExecuteResultQueue.Drain | sdk/src/main/java/com/example/sdk/internal/concurrent/tasks/ExecuteResultQueue.kt:29-38 | The `removeLastOrNull` loop completes every queued result, youngest first. |
| ExecuteResultQueue.DispatchAll | sdk/src/main/java/com/example/sdk/internal/concurrent/tasks/ExecuteResultQueue.kt:24-41 | An empty or already dispatching queue is a no-op. Otherwise every result is completed youngest first, and the queue ends empty with `dispatched` cleared. |
| ExecuteResultQueue.DrainIsPermutation | sdk/src/main/java/com/example/sdk/internal/concurrent/tasks/ExecuteResultQueue.kt:24-41 | Every queued result is completed exactly as often as it was queued. |
| ExecuteResultQueue.LastEnqueuedRunsFirst | sdk/src/main/java/com/example/sdk/internal/concurrent/tasks/ExecuteResultQueue.kt:31 | LIFO: the result enqueued last is completed first, then the others as before. |
| TaskImpl.New | sdk/src/main/java/com/example/sdk/internal/concurrent/tasks/TaskImpl.kt:12-24 | A new task is pending, holds no outcome and has no listener. |
| TaskImpl.GetResult | sdk/src/main/java/com/example/sdk/internal/concurrent/tasks/TaskImpl.kt:51-61 | The `result` getter succeeds exactly on a successful task and then returns the stored (possibly null) result. Otherwise it throws, in this order: "Task is not yet completed."; "Task is already canceled."; the stored exception wrapped in `RuntimeExecutionException`. |
| TaskImpl.SuccessCallback | sdk/src/main/java/com/example/sdk/internal/concurrent/tasks/SuccessExecuteResult.kt:14-26 | A success listener's runnable is scheduled exactly on a successful task. It hands `onSuccess` the result, and on a null result it fails with `NullPointerException("Result is null.")` instead. |
| TaskImpl.OneOutcomeKindCallsBack | sdk/src/main/java/com/example/sdk/internal/concurrent/tasks/SuccessExecuteResult.kt:15-20 | On a completed task at most one of the success, failure and cancellation listener kinds reaches its callback. Exactly one does, except on a success with a null result, where the success runnable fails with "Result is null." and none does. Failure listeners are reached exactly when an exception is stored, and cancellation listeners exactly on cancellation. |
| TaskImpl.Settle | sdk/src/main/java/com/example/sdk/internal/concurrent/tasks/TaskImpl.kt:182-185 | Completing a task dispatches its queue: each waiting listener's `onComplete` runs once, youngest first, and none is left waiting. |
| TaskImpl.TrySetResult | sdk/src/main/java/com/example/sdk/internal/concurrent/tasks/TaskImpl.kt:177-187 | Refused, with no change, on a completed task. Otherwise the task becomes successful with that result and its listeners are completed youngest first. |
| TaskImpl.TrySetException | sdk/src/main/java/com/example/sdk/internal/concurrent/tasks/TaskImpl.kt:193-203 | Refused on a completed task. Otherwise the task is completed, not canceled, and holds the exception. |
| TaskImpl.TrySetCanceled | sdk/src/main/java/com/example/sdk/internal/concurrent/tasks/TaskImpl.kt:205-215 | Refused on a completed task. Otherwise the task is completed and canceled, so a canceled task is always complete. |
| TaskImpl.SetResult | sdk/src/main/java/com/example/sdk/internal/concurrent/tasks/TaskImpl.kt:173-175 | Throws `IllegalStateException("Cannot set the result.")` exactly when the task is already complete. Afterwards `result` returns the value. |
| TaskImpl.SetException | sdk/src/main/java/com/example/sdk/internal/concurrent/tasks/TaskImpl.kt:189-191 | Throws `IllegalStateException("Cannot set the exception")` exactly when the task is already complete. |
| TaskImpl.CompletionOutcomes | sdk/src/main/java/com/example/sdk/internal/concurrent/tasks/TaskImpl.kt:30-61 | What `result` reports after each way of completing a task. `setException(null)` counts as a success with a null result, and a canceled task is not successful. |
| TaskImpl.AddListener | sdk/src/main/java/com/example/sdk/internal/concurrent/tasks/TaskImpl.kt:63-151 | Adding a listener to a pending task only queues it. On a completed task the listener is completed at once and the task is unchanged. |
| TaskImpl.Apply | sdk/src/main/java/com/example/sdk/internal/concurrent/tasks/TaskImpl.kt:14-24 | Every call keeps the task's invariant: canceled implies complete, there is no outcome before completion, and no listener waits after it. |
| TaskImpl.CompletedTaskIsFinal | sdk/src/main/java/com/example/sdk/internal/concurrent/tasks/TaskImpl.kt:177-215 | A completed task never changes again, and every listener added later is completed at once, in the order added. |
| TaskImpl.EveryListenerCompletedOnce | sdk/src/main/java/com/example/sdk/internal/concurrent/tasks/TaskImpl.kt:165-215 | On a pending task, listeners wait until the first completing call, which completes them youngest first; later listeners are completed at once. Without a completing call nothing is completed. |
| TaskImpl.ListenersSplitAtCompletion | sdk/src/main/java/com/example/sdk/internal/concurrent/tasks/TaskImpl.kt:165-215 | When some call completes the task, the added listeners split into those waiting for the completion and those added after it. |
| TaskImpl.NewTaskCompletesEachListenerOnce | sdk/src/main/java/com/example/sdk/internal/concurrent/tasks/TaskImpl.kt:165-215 | From a new task, each added listener is completed exactly once if some call completes the task, and never otherwise. |
| CancellationTokenSource.New | sdk/src/main/java/com/example/sdk/internal/concurrent/tasks/CancellationTokenSource.kt:14-16 | A new source has no cancellation request and no registrations. |
| CancellationTokenSource.OnCanceledRequested | sdk/src/main/java/com/example/sdk/internal/concurrent/tasks/CancellationTokenSource.kt:24-32 | After cancellation, a new listener is called at once and not stored. Before it, the listener is stored at the end and not called. |
| CancellationTokenSource.Cancel | sdk/src/main/java/com/example/sdk/internal/concurrent/tasks/CancellationTokenSource.kt:47-54 | The first `cancel` requests cancellation and calls every registered listener in registration order. Later calls do nothing. |
| CancellationTokenSource.CancelIsIdempotent | sdk/src/main/java/com/example/sdk/internal/concurrent/tasks/CancellationTokenSource.kt:47-54 | Cancelling twice is cancelling once: the second call changes nothing and calls no one. |
| CancellationTokenSource.EveryListenerCalledOnce | sdk/src/main/java/com/example/sdk/internal/concurrent/tasks/CancellationTokenSource.kt:19-54 | Over any sequence of calls, every listener is called exactly once, in registration order, if and only if some `cancel` happens. Listeners registered after it are called at once. |
| CancellationTokenSource.NewSourceCallsEachListenerOnce | sdk/src/main/java/com/example/sdk/internal/concurrent/tasks/CancellationTokenSource.kt:19-54 | From a new source: without `cancel` nobody is called; with it, every registered listener is called once in order. The token reports cancellation exactly when `cancel` was called. |
| ExecutorNodeQueue.New | sdk/src/main/java/com/example/sdk/internal/concurrent/ExecutorNodeQueue.kt:12-17 | A new queue has its limit and no pending or running node. |
| ExecutorNodeQueue.Move | sdk/src/main/java/com/example/sdk/internal/concurrent/ExecutorNodeQueue.kt:55-60 | The loop takes nodes from the tail of `pending` (newest first) and appends them to `running`, in the order taken. |
| ExecutorNodeQueue.MoveStopsAtLimit | sdk/src/main/java/com/example/sdk/internal/concurrent/ExecutorNodeQueue.kt:55 | The loop stops only when the limit is reached or nothing is pending, and it never fills `running` beyond the limit. |
| ExecutorNodeQueue.MoveKeepsNodes | sdk/src/main/java/com/example/sdk/internal/concurrent/ExecutorNodeQueue.kt:56-59 | Moving neither loses nor duplicates a node: the multiset of pending plus running nodes is preserved. |
| ExecutorNodeQueue.Schedule | sdk/src/main/java/com/example/sdk/internal/concurrent/ExecutorNodeQueue.kt:63-76 | A node goes to the executor exactly when it is not completed and the executor accepts it. A completed node gets the "already been executed" state error. A rejection gets "Executor rejected.", and any other failure gets "ExecutorService: schedule failed.". |
| ExecutorNodeQueue.ScheduleAll | sdk/src/main/java/com/example/sdk/internal/concurrent/ExecutorNodeQueue.kt:63-77 | Each moved node is scheduled on its own, in the order moved. |
| ExecutorNodeQueue.Dispatch | sdk/src/main/java/com/example/sdk/internal/concurrent/ExecutorNodeQueue.kt:52-78 | `dispatchExecutorNode` schedules exactly the moved nodes, newest pending first. It keeps `running` within the limit and stops only at the limit or with nothing pending. |
| ExecutorNodeQueue.Enqueue | sdk/src/main/java/com/example/sdk/internal/concurrent/ExecutorNodeQueue.kt:20-25 | `enqueue(node)` adds the node to `pending`, then dispatches. With a free slot the new node is the first one scheduled. |
| ExecutorNodeQueue.EnqueueAll | sdk/src/main/java/com/example/sdk/internal/concurrent/ExecutorNodeQueue.kt:27-35 | An empty collection throws `IllegalArgumentException("executorNodes is empty.")` before anything is queued. Otherwise the nodes are added to `pending` in order, then dispatched. The parameter is non-null in Kotlin, so there is no null case. |
| ExecutorNodeQueue.RemoveFirst | sdk/src/main/java/com/example/sdk/internal/concurrent/ExecutorNodeQueue.kt:41 | `ArrayDeque.remove` drops one occurrence of the node. |
| ExecutorNodeQueue.RemoveEvery | sdk/src/main/java/com/example/sdk/internal/concurrent/ExecutorNodeQueue.kt:39-45 | The `while` loop ends with the node nowhere in `running`. |
| ExecutorNodeQueue.RemoveEveryIsWithout | sdk/src/main/java/com/example/sdk/internal/concurrent/ExecutorNodeQueue.kt:37-46 | Removing occurrences one at a time leaves exactly the other nodes, in their order. |
| ExecutorNodeQueue.Remove | sdk/src/main/java/com/example/sdk/internal/concurrent/ExecutorNodeQueue.kt:37-50 | `remove(node)` drops every occurrence from `running`, then dispatches again, keeping `running` within the limit. |
| ExecutorNodeQueue.EnqueueOnFreeSlotSchedulesNode | sdk/src/main/java/com/example/sdk/internal/concurrent/ExecutorNodeQueue.kt:20-25 | With a free slot, a newly enqueued node is scheduled and ends up running. |
| ExecutorNodeQueue.CompletedNodeIsNotExecuted | sdk/src/main/java/com/example/sdk/internal/concurrent/ExecutorNodeQueue.kt:65-70 | A completed node is handed to `handleError`, never to the executor. |
| BackgroundDetector.Initial | sdk/src/main/java/com/example/sdk/internal/common/BackgroundDetector.kt:14-17 | The detector starts valid and in the background. |
| BackgroundDetector.UpdateVisible | sdk/src/main/java/com/example/sdk/internal/common/BackgroundDetector.kt:70-76 | Visibility is "screen on and visible activities". A callback fires exactly when it changes, carrying the new background flag `!visible`. Nothing else changes. |
| BackgroundDetector.OnActivityStarted | sdk/src/main/java/com/example/sdk/internal/common/BackgroundDetector.kt:45-51 | The count goes up by one, and the first started activity makes activities visible. A callback fires only on a change. |
| BackgroundDetector.OnScreenOnOffChanged | sdk/src/main/java/com/example/sdk/internal/common/BackgroundDetector.kt:53-56 | The screen flag is recorded and a change of visibility is reported. |
| BackgroundDetector.OnActivityStopped | sdk/src/main/java/com/example/sdk/internal/common/BackgroundDetector.kt:58-68 | The count stops at zero. The stop that brings it to zero hides the activities, unless the activity is only changing configuration. |
| BackgroundDetector.Apply | sdk/src/main/java/com/example/sdk/internal/common/BackgroundDetector.kt:45-76 | Every event keeps the count non-negative and reports a background flag exactly when the state flips. |
| BackgroundDetector.Run | sdk/src/main/java/com/example/sdk/internal/common/BackgroundDetector.kt:61-63 | Over any sequence of events the count never goes negative and the recorded visibility stays current. |
| BackgroundDetector.ReportsAlternate | sdk/src/main/java/com/example/sdk/internal/common/BackgroundDetector.kt:70-76 | Over any sequence of events the reported flags alternate. The first one flips the starting state and the last one is the final state, so callbacks only ever hear of a change. |
| BackgroundDetector.StartThenStop | sdk/src/main/java/com/example/sdk/internal/common/BackgroundDetector.kt:45-68 | Worked example, not a general property: starting one activity brings the application to the foreground and reports it. Stopping it for good sends it back and reports that. |
| VisibilityObserverContext.New | sdk/src/main/java/com/example/sdk/internal/visibilitytracker/VisibilityObserverContext.kt:5-19 | A new context has not fired. It has no previous visible check (`Long.MIN_VALUE`) and the zero entry. |
| VisibilityObserverContext.Fire | sdk/src/main/java/com/example/sdk/internal/visibilitytracker/VisibilityObserverContext.kt:33-36 | `fire` sets `fired` and hands the callback the previous entry and the new one. |
| VisibilityObserverContext.Remember | sdk/src/main/java/com/example/sdk/internal/visibilitytracker/VisibilityObserverContext.kt:21-24 | After `check(e)` the previous entry is `e`. |
| VisibilityObserverContext.Reset | sdk/src/main/java/com/example/sdk/internal/visibilitytracker/VisibilityObserverContext.kt:39-47 | `reset` restores `Long.MIN_VALUE` and the zero entry and leaves `fired` as it was. |
| ViewableImpressionContext.WithRatio | sdk/src/main/java/com/example/sdk/internal/visibilitytracker/ViewableImpressionContext.kt:14-22 | The ratio constructor stores `Int.MIN_VALUE` as the pixel threshold, so the context judges by ratio. |
| ViewableImpressionContext.WithPixels | sdk/src/main/java/com/example/sdk/internal/visibilitytracker/ViewableImpressionContext.kt:24-32 | The pixel constructor stores the pixel threshold and `Double.MIN_VALUE` as the unused ratio. |
| ViewableImpressionContext.InternalCheck | sdk/src/main/java/com/example/sdk/internal/visibilitytracker/ViewableImpressionContext.kt:34-57 | A check that does not continue a visible streak clears the accumulated time and the clock. A visible continuation adds the elapsed time once the clock runs, and fires when the total reaches the minimum. Either way the visibility is remembered. |
| ViewableImpressionContext.Check | sdk/src/main/java/com/example/sdk/internal/visibilitytracker/ViewableImpressionContext.kt:34-57 | `check` fires at most with the (previous, new) entries, then remembers the entry. `fired` only ever becomes true. |
| ViewableImpressionContext.Reset | sdk/src/main/java/com/example/sdk/internal/visibilitytracker/ViewableImpressionContext.kt:59-64 | `reset` clears the accumulated time, the clock and the last visibility. It keeps `fired` and the thresholds. |
| ViewableImpressionContext.NoMinimumFiresAtOnce | sdk/src/main/java/com/example/sdk/internal/visibilitytracker/ViewableImpressionContext.kt:43-50 | Without a minimum view time the first visible check fires, with the zero entry as the previous one. |
| ViewableImpressionContext.ClockStartsAtSecondVisibleCheck | sdk/src/main/java/com/example/sdk/internal/visibilitytracker/ViewableImpressionContext.kt:43-56 | With a minimum, the first visible check only records visibility, and the clock starts at the second one. |
| ViewableImpressionContext.VisibleTimeAccumulates | sdk/src/main/java/com/example/sdk/internal/visibilitytracker/ViewableImpressionContext.kt:43-51 | Along consecutive visible checks the accumulated time grows by exactly the time elapsed. |
| ViewableImpressionContext.Checks | sdk/src/main/java/com/example/sdk/internal/visibilitytracker/VisibilityObserverContext.kt:33-36 | Along any sequence of checks `fired` never goes back to false, and any firing leaves it set. |
| ExposureChangeContext.New | sdk/src/main/java/com/example/sdk/internal/visibilitytracker/ExposureChangeContext.kt:3-5 | The exposure context allows multiple firings and starts unfired with the zero entry. |
| ExposureChangeContext.Check | sdk/src/main/java/com/example/sdk/internal/visibilitytracker/ExposureChangeContext.kt:6-10 | It fires exactly when the entry differs from the previous one, passing both, and then remembers the entry. |
| ExposureChangeContext.RepeatedEntryFiresAtMostOnce | sdk/src/main/java/com/example/sdk/internal/visibilitytracker/ExposureChangeContext.kt:7-9 | The same entry checked twice in a row does not fire the second time. |
| ExposureChangeContext.ResetThenChangeFires | sdk/src/main/java/com/example/sdk/internal/visibilitytracker/ExposureChangeContext.kt:7-9 | After `reset`, any entry other than the zero entry fires. |
| Flags.Uninitialized | sdk/src/main/java/com/example/sdk/internal/persistence/Flags.kt:37-39 | The flag store starts uninitialized. |
| Flags.Initialize | sdk/src/main/java/com/example/sdk/internal/persistence/Flags.kt:47-66 | An initialized store is left alone. Otherwise a failed metadata load throws `IllegalStateException("Failed to load metadata.")`, and a successful one records the metadata (an empty bundle for none) and the preferences. |
| Flags.InitializeOnce | sdk/src/main/java/com/example/sdk/internal/persistence/Flags.kt:50 | Once initialized, initializing again changes nothing. |
| Flags.GetTypeBits | sdk/src/main/java/com/example/sdk/internal/persistence/Flags.kt:201-203 | `hasGetType` of `FROM_METADATA` or `FROM_SHARED_PREFERENCES` tests bit 0 or bit 1, and of both together tests both bits. |
| Flags.HasGetTypeBit | sdk/src/main/java/com/example/sdk/internal/persistence/Flags.kt:201-203 | `hasGetType(mask)` is a subset test: every bit of the mask is set in the flag's get type. |
| Flags.GetViaMetadata | sdk/src/main/java/com/example/sdk/internal/persistence/Flags.kt:237-241 | A metadata value exists exactly when the key is in the metadata. |
| Flags.GetViaSharedPreferences | sdk/src/main/java/com/example/sdk/internal/persistence/Flags.kt:244-248 | A preferences value exists exactly when the key is in the preferences. |
| Flags.Lookup | sdk/src/main/java/com/example/sdk/internal/persistence/Flags.kt:181-187 | A value is found exactly when an allowed source holds the key. |
| Flags.LookupPriority | sdk/src/main/java/com/example/sdk/internal/persistence/Flags.kt:182-186 | Metadata, when allowed and present, wins over preferences. Preferences are read only when they are allowed and metadata gave nothing. |
| Flags.PutValueIfNotExists | sdk/src/main/java/com/example/sdk/internal/persistence/Flags.kt:223-227 | Writes the value exactly when the key is absent. |
| Flags.PutValue | sdk/src/main/java/com/example/sdk/internal/persistence/Flags.kt:230-234 | After `putValue` the stored value reads as the given one, and at most that key was written. |
| Flags.PutIfPossibleAndGetValue | sdk/src/main/java/com/example/sdk/internal/persistence/Flags.kt:206-220 | Returns the found value, or the default when nothing was found. |
| Flags.GetValue | sdk/src/main/java/com/example/sdk/internal/persistence/Flags.kt:177-189 | Throws "Flags is not initialized." exactly on an uninitialized store. Otherwise it returns the found value or the default, and writes at most the flag's own preference key. |
| Flags.PutPolicies | sdk/src/main/java/com/example/sdk/internal/persistence/Flags.kt:206-234 | The write policy table: `DEFAULT_VALUE_ONLY_ONCE_IF_NOT_EXISTS` writes the default only when nothing was found and the key is absent. `CHANGED_VALUE_ONLY_ONCE_IF_NOT_EXISTS` writes a found value only when the key is absent. `CHANGED_VALUE_ALWAYS` writes a found value only when it differs. `DO_NOT_PUT` never writes. |
| Flags.GetValueIsStable | sdk/src/main/java/com/example/sdk/internal/persistence/Flags.kt:177-234 | Reading a flag twice gives the same value, and the second read writes nothing. |
| Flags.AppCodeReadsManifestOnly | sdk/src/main/java/com/example/sdk/internal/persistence/Flags.kt:22-27 | `APP_CODE` reads the manifest metadata or falls back to "", and never writes. |
| Flags.UserIdIsKeptAcrossRuns | sdk/src/main/java/com/example/sdk/internal/persistence/Flags.kt:28-33 | `USER_ID` stores the first random UUID it falls back to, and every later read returns that UUID, whatever new UUID is drawn. |
| SdkLogger.Parse | sdk/src/main/java/com/example/sdk/internal/SdkLogger.kt:39-46 | `LogLevel.parse` returns only a level whose code is the one given. |
| SdkLogger.CodesAreConsecutive | sdk/src/main/java/com/example/sdk/internal/SdkLogger.kt:16-34 | The codes run 2, 3, …, 7 from `VERBOSE` to `NONE`, strictly increasing. |
| SdkLogger.ParseCode | sdk/src/main/java/com/example/sdk/internal/SdkLogger.kt:39-46 | Every level is parsed back from its code. |
| SdkLogger.ParseKnownCodes | sdk/src/main/java/com/example/sdk/internal/SdkLogger.kt:39-46 | `parse` returns null exactly for codes outside 2..7. |
| SdkLogger.CausedByUnknownHostIff | sdk/src/main/java/com/example/sdk/internal/SdkLogger.kt:217-226 | The walk reports an `UnknownHostException` exactly when some throwable on the cause chain is one, subclasses included. |
| SdkLogger.Trim | sdk/src/main/java/com/example/sdk/internal/SdkLogger.kt:213 | `trim()` removes exactly the leading and trailing whitespace: what remains starts and ends with non-whitespace, and what was cut is whitespace. |
| SdkLogger.ReplaceTabs | sdk/src/main/java/com/example/sdk/internal/SdkLogger.kt:213 | `replace("\t", "    ")` leaves no tab, changes nothing in a tab-free string, and never shortens it. |
| SdkLogger.TrimEmptyIffBlank | sdk/src/main/java/com/example/sdk/internal/SdkLogger.kt:213 | `trim()` gives the empty string exactly for a blank string. |
| SdkLogger.ReplaceTabsAppend | sdk/src/main/java/com/example/sdk/internal/SdkLogger.kt:213 | The tab replacement works piece by piece: replacing in a concatenation is concatenating the replacements. |
| SdkLogger.ThrowableString | sdk/src/main/java/com/example/sdk/internal/SdkLogger.kt:202-215 | A throwable caused by an unknown host renders as "UnknownHostException (no network)". Any rendering is tab-free. |
| SdkLogger.FinalTag | sdk/src/main/java/com/example/sdk/internal/SdkLogger.kt:170-173 | The final tag always starts with "SDK.". A tag that already does is kept as is, and any other gets the prefix once. |
| SdkLogger.FinalTagIdempotent | sdk/src/main/java/com/example/sdk/internal/SdkLogger.kt:170-173 | Prefixing twice is prefixing once, and it adds at most the prefix's length. |
| SdkLogger.RenderArg | sdk/src/main/java/com/example/sdk/internal/SdkLogger.kt:177-179 | A throwable argument is replaced by its rendering and any other argument is passed unchanged. |
| SdkLogger.RenderArgs | sdk/src/main/java/com/example/sdk/internal/SdkLogger.kt:177-179 | Arguments are rendered one by one, in order. |
| SdkLogger.PrintLog | sdk/src/main/java/com/example/sdk/internal/SdkLogger.kt:164-191 | A null message logs nothing. Otherwise exactly one line is logged, at the level's code and under the prefixed tag. Its text is the formatted message, or the template itself when formatting throws. |
| SdkLogger.NewLogger | sdk/src/main/java/com/example/sdk/internal/SdkLogger.kt:50-54 | A logger's tag is "SDK." plus its name, its message is empty and its priority is `DEBUG`. |
| SdkLogger.Append | sdk/src/main/java/com/example/sdk/internal/SdkLogger.kt:74-81 | `append` adds the text at the end of the message and changes nothing else. |
| SdkLogger.AppendFormat | sdk/src/main/java/com/example/sdk/internal/SdkLogger.kt:84-86 | `append(format, args)` appends the formatted text, and propagates the formatter's exception. |
| SdkLogger.AppendWithKeyValue | sdk/src/main/java/com/example/sdk/internal/SdkLogger.kt:89-91 | `appendWithKeyValue` appends "key\tvalue\n". |
| SdkLogger.PrintMessage | sdk/src/main/java/com/example/sdk/internal/SdkLogger.kt:69-71 | The instance `printLog` always logs one line at the logger's priority. |
| SdkLogger.Flush | sdk/src/main/java/com/example/sdk/internal/SdkLogger.kt:61-66 | Taking the message returns everything accumulated and leaves the message empty. |
| SdkLogger.Log | sdk/src/main/java/com/example/sdk/internal/SdkLogger.kt:61-66 | `log()` prints one line at the logger's priority, with the accumulated message when formatting it fails, and empties the message. |
| SdkLogger.LoggerTagPrefixedOnce | sdk/src/main/java/com/example/sdk/internal/SdkLogger.kt:50 | A logger's line is tagged "SDK." followed by the name given to the constructor, for every name. The constructor prefixes unconditionally (a name "SDK.X" logs under "SDK.SDK.X"), and the static call does not prefix a second time. |
| SdkLogger.RunWithoutLog | sdk/src/main/java/com/example/sdk/internal/SdkLogger.kt:74-91 | Appends without a `log()` extend the message by exactly the appended texts and print nothing. |
| SdkLogger.MessageIsAppendsSinceLastLog | sdk/src/main/java/com/example/sdk/internal/SdkLogger.kt:57-81 | After any sequence of calls, the message is the concatenation of the appends since the last `log()`. |
| SdkLogger.NewLoggerMessageIsAllAppends | sdk/src/main/java/com/example/sdk/internal/SdkLogger.kt:50-91 | For a new logger that has never logged, the message is all the appends. |
| Enums.FindFirst | sdk/src/main/java/com/example/sdk/internal/webview/mraid/MraidCommand.kt:18 | `values().find { … }` is null exactly when no constant matches, and otherwise returns a matching constant. |
| Enums.FindFirstSamePredicate | sdk/src/main/java/com/example/sdk/internal/webview/mraid/MraidCommand.kt:18 | The search depends only on which constants match. |
| MraidCommand.Parse | sdk/src/main/java/com/example/sdk/internal/webview/mraid/MraidCommand.kt:17-19 | A null key gives `NOT_SUPPORTED_OR_UNKNOWN`. Any other result has a key equal to the input ignoring case. |
| MraidCommand.KeysDistinctIgnoringCase | sdk/src/main/java/com/example/sdk/internal/webview/mraid/MraidCommand.kt:4-12 | No two command keys are equal, even ignoring case. |
| MraidCommand.ParseMatchingKey | sdk/src/main/java/com/example/sdk/internal/webview/mraid/MraidCommand.kt:17-19 | A string equal to a command's key ignoring case parses as that command. |
| MraidCommand.ParseIff | sdk/src/main/java/com/example/sdk/internal/webview/mraid/MraidCommand.kt:17-19 | A command is parsed from exactly the strings equal to its key ignoring case. `NOT_SUPPORTED_OR_UNKNOWN` also takes every string no key matches. |
| MraidCommand.ParseKey | sdk/src/main/java/com/example/sdk/internal/webview/mraid/MraidCommand.kt:4-18 | Every command round-trips through its key. |
| MraidCommand.ParseIgnoresCase | sdk/src/main/java/com/example/sdk/internal/webview/mraid/MraidCommand.kt:17-19 | Strings that differ only in case parse alike. |
| MraidOrientation.Parse | sdk/src/main/java/com/example/sdk/internal/webview/mraid/MraidOrientation.kt:54-56 | A null key gives `NONE`. Any other result has a key equal to the input ignoring case. |
| MraidOrientation.ParseIff | sdk/src/main/java/com/example/sdk/internal/webview/mraid/MraidOrientation.kt:54-56 | Each orientation is parsed from exactly its key in any case. A string matching no key gives `NONE`. |
| MraidOrientationProperties.Create | sdk/src/main/java/com/example/sdk/internal/webview/mraid/MraidOrientationProperties.kt:9-14 | Defined for every parameter map. A missing `allowOrientationChange` allows changes, and a present one allows them exactly when it is "true" in any case. A missing `forceOrientation` forces nothing. |
| MraidOrientationProperties.CreateForcesNamedOrientation | sdk/src/main/java/com/example/sdk/internal/webview/mraid/MraidOrientationProperties.kt:11 | The forced orientation is the one `forceOrientation` names, ignoring case. |
| ExceptionUtils.Find | sdk/src/main/java/com/example/sdk/internal/common/ExceptionUtils.kt:11-13 | The search finds the first listed class equal to the exception's own class, and finds nothing exactly when none is. |
| ExceptionUtils.UnwrapException | sdk/src/main/java/com/example/sdk/internal/common/ExceptionUtils.kt:7-16 | The result is always an `Exception`: either the exception itself or its cause. |
| ExceptionUtils.UnwrapOutcomes | sdk/src/main/java/com/example/sdk/internal/common/ExceptionUtils.kt:11-16 | Without an exact class match the exception is returned. On a match its cause is returned when that cause is an `Exception`; otherwise the exception itself is returned. |
| ExceptionUtils.SuperclassDoesNotMatch | sdk/src/main/java/com/example/sdk/internal/common/ExceptionUtils.kt:12 | Listing only a superclass does not unwrap: the match is on the exact class. |
| Throwables.AnyOnChainIff | sdk/src/main/java/com/example/sdk/internal/inspector/crashevent/CrashEventCommon.kt:39-48 | The walk `th = th.cause` meets exactly the throwables of the cause chain. |
| CrashEventCommon.HasSdkFrameIffSomeFrame | sdk/src/main/java/com/example/sdk/internal/inspector/crashevent/CrashEventCommon.kt:41-45 | The frame loop succeeds exactly when some frame's class starts with "com.example.sdk.". |
| CrashEventCommon.IsSdkRelated | sdk/src/main/java/com/example/sdk/internal/inspector/crashevent/CrashEventCommon.kt:36-51 | A null throwable is not SDK-related. |
| CrashEventCommon.SdkRelatedIffSomeCauseHasSdkFrame | sdk/src/main/java/com/example/sdk/internal/inspector/crashevent/CrashEventCommon.kt:36-51 | A throwable is SDK-related exactly when some frame of some throwable on its cause chain is in the SDK package. |
| CrashEventCommon.ThreadIsSdkRelated | sdk/src/main/java/com/example/sdk/internal/inspector/crashevent/CrashEventCommon.kt:58-65 | A thread is SDK-related exactly when it has a stack trace with a frame in the SDK package. A null thread or trace is not. |
| CrashEventCommon.GetStringCause | sdk/src/main/java/com/example/sdk/internal/inspector/crashevent/CrashEventCommon.kt:26-28 | Null exactly when there is no cause. Otherwise it is the cause's `toString()`, which starts with the cause's class name. |

## Left out

- **Platform output and services.** These are not computed; they are
  parameters or returned values:
  - Android logging: `Log.println` becomes a returned `LogLine`;
  - `Log.getStackTraceString` and `String.format` are caller-supplied
    functions;
  - clocks (`SystemClock.uptimeMillis`, the instants behind
    `CalendarUtils.format`) and `UUID.randomUUID()` are parameters;
  - executors are an abstract outcome function per node.

  Their own behaviour is outside the model.
- **Concurrency.** Locks, `synchronized`, `@GuardedBy` and the thread
  hand-off of listener and node execution are left out. The model is the
  sequential behaviour under the lock. Re-entrant calls from inside a
  callback are not modelled: a listener that enqueues into a queue while it
  is being dispatched, or a token listener that registers during `cancel`.
- **Continuations and listener bodies.** `continueWith` and
  `continueWithTask` are represented only by the listener they enqueue; the
  new task they create is not followed. The executor hand-off in each
  `onComplete` is left out, as is `ExecuteResult.cancel()`. Only the
  success runnable's own check is modelled (`TaskImpl.SuccessCallback`).
- **Callback lists.** `BackgroundDetector.addCallback`/`removeCallback`
  and the `CopyOnWriteArrayList` are left out. The model returns the
  background flag that is delivered to every registered callback.
- **Unicode case folding.** Case folding (`equals(…, ignoreCase = true)`,
  `lowercase(Locale.ROOT)`) is modelled for the ASCII letters only; Kotlin
  folds every Unicode letter. Whitespace (`isWhitespace`, used by `trim()`
  and `isBlank()`) follows the JVM's full set: Java's `isWhitespace` or
  `isSpaceChar`, Unicode space separators included.
- **Fixed-width integers.** JVM `Int`/`Long` overflow is not modelled for:
  - `startedActivityCount`;
  - `totalVisibleTimeMillis` and the clock difference;
  - the `Int` arithmetic in `CalendarUtils`.

  The model's integers are unbounded.
- **Doubles.** `Double` ratios are exact reals, so NaN and −0.0 are not
  modelled.
- CalendarUtils.FormatDecodes: the round trip is proved for calendar
  fields in `GregorianCalendar` range with years up to 9999, and for offsets
  under 100 hours. A five-digit year or a three-digit hour offset still
  prints, but no longer reads back field by field.
- The conversion from an epoch instant to calendar fields and
  `TimeZone.getOffset`: these are library calls, so `format` starts from
  the fields and the offset. `getCurrentDate` reads the clock and is left
  out.
- **Serialization.** These have no sequential content beyond the state they
  copy, so they are left out:
  - `writeObject`/`readObject` of `CircularFifoQueue`;
  - `@Parcelize` and `toJSONObject` of the header classes;
  - `getStringStackTrace` of `CrashEventCommon`.
- **`CircularFifoQueue` collection operations.** The members inherited from
  `AbstractMutableCollection` (`contains`, `removeAll` and so on) are left
  out, apart from `addAll`. Iterator misuse after a concurrent modification
  is left out too.
- CircularFifoQueue.AddAll: the per-element loop is that of the JVM's
  `AbstractCollection.addAll`, modelled from its documented behaviour,
  since its code is not part of the repository.
- ExecutorNodeQueue.EnqueueAll: a Java caller passing a null collection
  fails in Kotlin's own non-null parameter check before the method body
  runs. That check is not modelled, so the model takes a collection.
- Throwable cause cycles: a Dafny `Throwable` is a finite tree, so no cause
  chain can loop. Java's `getCause()` already reports a throwable that is
  its own cause as having none. So the self-cause stop in `isSdkRelated`
  (`currThrowable != prevThrowable`) never changes the outcome here. A
  longer cycle would make the source's walk loop forever; such cycles are
  not representable.
- **Flags storage.** The Android `Bundle` and `SharedPreferences` are
  maps from key to one value type `T` per store. Consequences:
  - the typed `internalGet…` and `internalPutValue` of `BooleanFlag`,
    `IntFlag` and `StringFlag` become plain map reads and writes;
  - a value stored under the wrong type is not modelled;
  - the three `Flags.of` factories are not modelled separately;
  - the `SdkLogger.e` call on a failed metadata load is not modelled.
- Flags.HasGetTypeBit: the model states the subset test bit by bit, one
  direction per bit, and through `GetTypeBits` for the two defined bits.
  A single statement of the subset test as an iff over all 32 bits is not
  part of the model.
- **`SdkLogger` wrappers.** `v`/`d`/`i`/`w`/`e` are `PrintLog` with a fixed
  level. `append(StringBuilder)` is `append(String)`.
- `MraidOrientation.allowForceOrientation`: it reads Android activity
  info, so it is left out. `MraidOrientation.parse` is modelled because
  `MraidOrientationProperties.create` uses it.
- `Validate.checkNotMainThread` and `Validate.hasPermission`: Android
  looper and permission services, left out.
- **Comparison checks.** `Validate`'s checks are modelled on `int`, the
  `Comparable` their callers use here. The default messages are given as
  functions; the checks take the message as a parameter.
- **Exception classes.** `ExceptionUtils` identifies classes by name. The
  superclass list of a modelled throwable stands in for `is Exception`.
