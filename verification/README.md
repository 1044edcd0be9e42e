# Method usage recorder — a Dafny model

This project models the usage-recording aspect `MethodUsageAspect`. The
aspect intercepts method calls and keeps two static registries:

- `COUNTS`: the number of calls per method key (`declaring type#name`).
- `CALLS`: a fixed-capacity ring buffer per key, holding the last 200 call
  lines. Each line has the form `[timestamp] key(args)`.

At shutdown, `printSummary` writes three things:

- a header line;
- one block per method, ordered by descending call count, with the count and
  key followed by the retained lines, oldest first;
- a footer rule.

The repository holds the aspect twice:

- `tests/MethodUsageAspect.java` intercepts the methods of the
  `org.csa.facets` packages.
- `tests/testMerhod.java` intercepts the methods of every woven class.

Both pointcuts leave out methods whose names start with `get` or `set`, and
the aspect's own methods.

The two files share the same ring buffer, the same `onEnter` update and the
same sort and emission. They differ in their pointcut and their banner lines.
The model is one engine with a `Variant` (`Facets` or `CatchAll`) that selects
the header and footer.

The model has three files:

- **`ring_buffer.dfy`** (module `RingBuffers`): the nested class
  `RingBuffer`, written as a Dafny class over an `array<string>` with the
  cursor `i` and the count `n`.
  - A ghost field `Added` holds every line ever added. The object invariant
    says that the array, walked from the logical start with wraparound, holds
    exactly the last `min(|Added|, capacity)` of them.
  - Java's truncating `%` is written out as `JavaRem`.
- **`ranking.dfy`** (module `Ranking`): the stream sort of `printSummary`,
  written as a pure insertion sort by descending count. It is proved to
  rearrange its input and to leave counts non-increasing. Keys with equal
  counts may come out in any order.
- **`method_usage.dfy`** (module `MethodUsage`): the aspect's static state,
  written as a `Recorder` class.
  - The class has the maps `counts` and `calls`, a ghost log of every call
    recorded, and `OnEnter` and `PrintSummary`.
  - `Replay` folds the pure step `Record` over the log. The object invariant
    says that the registries equal `Replay(Log)`.
  - `ReplayTracks` proves that every count is the number of calls with that
    key, and that every buffer's history is the lines of those calls, in
    order.
  - `PrintSummary` is proved to produce exactly `SummaryOf(sections, Log)`.
    This describes the sections through the entries they were printed for,
    with the same ordering and distinctness predicates as the sort:
    - counts are non-increasing;
    - each key that was called appears once, and no other key appears;
    - each section holds the right count and the last 200 lines of its
      key's calls.

## Model

| member | source | states |
|---|---|---|
| `RingBuffers.JavaRem` | tests/MethodUsageAspect.java:87 | Java's `%` for a positive divisor: in `[0, b)` for a non-negative dividend and in `(-b, 0]` for a negative one; equal to the dividend below `b`, and one `b` less between `b` and `2b` |
| `RingBuffers.ClampCapacity` | tests/MethodUsageAspect.java:84 | `Math.max(1, capacity)` is at least 1 and at least the requested capacity, and equals one of the two, so every later `% buf.length` has a positive divisor |
| `RingBuffers.Start` | tests/MethodUsageAspect.java:91 | the start index of `forEach` is in `[0, len)` whenever `0 <= i < len` and `0 <= n <= len`; it is `i - n`, or `i - n + len` when that is negative |
| `RingBuffers.Slot` | tests/MethodUsageAspect.java:92 | the slot of the `k`-th visited line is in range, and it is the cursor exactly when the buffer is full and `k` is the oldest position |
| `RingBuffers.Recent` | tests/MethodUsageAspect.java:90-93 | the retained window has `min(|s|, cap)` elements and ends with the newest element |
| `RingBuffers.RecentAppend` | tests/MethodUsageAspect.java:85-89 | one more add grows the window by the new line below capacity; at capacity it evicts exactly the oldest line and appends the new one |
| `RingBuffers.SlotBeforeWrap` | tests/MethodUsageAspect.java:91-92 | until the buffer first wraps, the `k`-th retained line is in slot `k` |
| `RingBuffers.SlotAfterFullAdd` | tests/MethodUsageAspect.java:87 | once full, advancing the cursor by one moves every window position one slot on, and the newest position lands on the slot just written |
| `RingBuffers.RecentIsSuffix` | tests/MethodUsageAspect.java:90-93 | the retained window is the trailing part of the history |
| `RingBuffers.SlotsDistinct` | tests/testMerhod.java:67-70 | the walk of `forEach` visits no slot twice |
| `RingBuffers.SlotsConsecutive` | tests/MethodUsageAspect.java:92 | consecutive window positions sit in consecutive slots modulo the length, so the walk leaves no gap |
| `RingBuffers.AddKeepsWindow` | tests/MethodUsageAspect.java:86-88 | writing the cursor slot, advancing the cursor modulo the length and counting up to the capacity keeps the slots holding the last `min(N, C)` lines of the history extended by the new line |
| `RingBuffers.RingBuffer.constructor` | tests/testMerhod.java:65 | a new buffer is valid and empty, over a fresh array of `Math.max(1, capacity)` slots, with `i = n = 0` |
| `RingBuffers.RingBuffer.Add` | tests/MethodUsageAspect.java:85-89 | `buf[old i]` becomes the line and no other slot changes; `i` becomes `(old i + 1) % buf.length`; `n` grows by one until it reaches the capacity; the history gains the line; the invariant `0 <= i < len`, `0 <= n <= len`, "the slots hold the last `min(N, C)` lines" is kept |
| `RingBuffers.RingBuffer.ForEach` | tests/MethodUsageAspect.java:90-93 | the lines handed to the consumer, in order, are exactly the last `min(N, C)` lines added, oldest first |
| `Ranking.Insert` | tests/MethodUsageAspect.java:63 | inserting a row adds exactly that row to the multiset, and keeps a non-increasing sequence non-increasing |
| `Ranking.SortByCount` | tests/MethodUsageAspect.java:62-64 | the sorted rows are a permutation of the entries, with counts non-increasing |
| `Ranking.RearrangedDistinct` | tests/MethodUsageAspect.java:62-64 | any permutation of rows with distinct keys has distinct keys |
| `Ranking.SortKeepsKeys` | tests/testMerhod.java:49-51 | the sort drops, repeats and alters no entry: it yields the same rows, the same key set, and each key once |
| `MethodUsage.Header` | tests/MethodUsageAspect.java:60 | the first line of the summary is the title, starting "Method Usage Summary", between `===== ` and ` =====`; `tests/testMerhod.java:48` is the `CatchAll` title |
| `MethodUsage.Footer` | tests/testMerhod.java:48-59 | the footer rule is all `=` and exactly as wide as the header, in both variants (49 and 32 characters) |
| `MethodUsage.LineParts` | tests/MethodUsageAspect.java:54 | the history line `LineOf` builds is `[`, the timestamp, `] `, the key, `(`, the arguments and `)`: each part sits at a fixed place and the length is the parts' total plus 5 (the same line as `tests/testMerhod.java:44`) |
| `MethodUsage.LinesFor` | tests/MethodUsageAspect.java:54-56 | a key's full history has one line per call made with that key |
| `MethodUsage.CountedIffCalled` | tests/MethodUsageAspect.java:50 | a key's count is positive exactly when some call was made with it |
| `MethodUsage.CountSplit` | tests/MethodUsageAspect.java:50 | counts over two consecutive stretches of calls add up |
| `MethodUsage.CountIgnoresOrder` | tests/MethodUsageAspect.java:50 | a key's count depends only on the multiset of calls made, not on the order in which they arrived |
| `MethodUsage.ListedIffCalled` | tests/MethodUsageAspect.java:66-75 | a method appears in the summary exactly when it was called at least once |
| `MethodUsage.MoreCalledFirst` | tests/MethodUsageAspect.java:63 | a method called more often than another is listed before it |
| `MethodUsage.SectionHistory` | tests/MethodUsageAspect.java:71-74 | a listed method shows `min(count, 200)` history lines, the last being the line of its latest call |
| `MethodUsage.CountOrZeroTracks` | tests/MethodUsageAspect.java:50 | on registries that track the call log, the counter `computeIfAbsent(key, k -> new LongAdder())` hands over holds the key's number of earlier calls (0 on its first call), and the key's history holds exactly those calls' lines |
| `MethodUsage.FirstCallStartsFresh` | tests/testMerhod.java:39-44 | on a key's first call, `Record` (the step of `onEnter`) creates the counter at zero and raises it to one, and creates an empty buffer that receives exactly the call's line; `HistoryOrEmpty` is the empty history of that new buffer |
| `MethodUsage.RecordTracks` | tests/MethodUsageAspect.java:47-57 | one `onEnter` step on registries that track a call log gives registries that track the log extended by that call |
| `MethodUsage.RecordTouchesOnlyKey` | tests/testMerhod.java:36-45 | `onEnter` raises the called key's count by exactly one and appends `"[" + ts + "] " + key + "(" + args + ")"` to that key's history; every other key keeps its count and history, or stays absent |
| `MethodUsage.ReplayTracks` | tests/MethodUsageAspect.java:29-31 | after any sequence of calls, each key called has a count equal to its number of calls and a history equal to its calls' lines in order, and no other key has either |
| `MethodUsage.EntryRows` | tests/MethodUsageAspect.java:62 | the entry stream yields exactly one row per key of the counts map, with that key's count |
| `MethodUsage.SectionFor` | tests/MethodUsageAspect.java:67-74 | the block printed for a row has the row's count and key and at most 200 lines (the retained part of the key's history) |
| `MethodUsage.SectionsKeepOrder` | tests/MethodUsageAspect.java:66-69 | emitting one section per sorted row gives sections whose keys and counts are exactly those rows, so they keep the non-increasing order, the distinct keys and the key set |
| `MethodUsage.SectionsShowLog` | tests/MethodUsageAspect.java:67-74 | each emitted section shows its key's call count and the retained part of that key's lines |
| `MethodUsage.SortedRowsSummarise` | tests/MethodUsageAspect.java:59-77 | sorted rows of tracking registries, emitted section by section, form the summary of the call log |
| `MethodUsage.Recorder.constructor` | tests/MethodUsageAspect.java:29-31 | the registries start empty and track the empty log |
| `MethodUsage.Recorder.BufferFor` | tests/MethodUsageAspect.java:56 | `computeIfAbsent` on `CALLS` returns the key's existing buffer and leaves the histories alone, or, when the key had none, registers a freshly allocated buffer with an empty history; every other key keeps its buffer and the counts are untouched |
| `MethodUsage.Recorder.AddBuffer` | tests/testMerhod.java:43 | the buffer created on a key's first call is fresh, empty, of capacity 200, and filed under that key only |
| `MethodUsage.Recorder.Register` | tests/MethodUsageAspect.java:56 | filing an empty buffer of capacity 200 under a new key keeps every buffer owned by exactly one key |
| `MethodUsage.Recorder.AppendTo` | tests/MethodUsageAspect.java:56 | `add(line)` on a present key's buffer appends the line to that key's history only; the map and every other buffer are unchanged |
| `MethodUsage.Recorder.Push` | tests/testMerhod.java:43-44 | after get-or-create and `add`, the key's history is its old history (or none) plus the line; a key that already had a buffer keeps that same buffer object, and every other key keeps its history and its buffer object |
| `MethodUsage.Recorder.Tally` | tests/testMerhod.java:39 | the key's counter is created at zero if absent and incremented by one; no other count changes |
| `MethodUsage.Recorder.OnEnter` | tests/MethodUsageAspect.java:47-57 | one intercepted call changes the registries exactly as `Record` does, which `RecordTouchesOnlyKey` describes, and keeps them tracking the call log; the key then has a buffer, the same buffer object if it already had one, and every other key keeps the buffer object it had |
| `MethodUsage.Recorder.SectionsFor` | tests/MethodUsageAspect.java:66-75 | for each sorted row, in order, the section holds the row's count and key and the lines its buffer's `forEach` hands out; a key without a buffer gets none |
| `MethodUsage.Recorder.PrintSummary` | tests/MethodUsageAspect.java:59-77 | the report has the variant's header and footer, and its sections summarise the call log: counts non-increasing, each called key once, no other key, and each with its count and last 200 lines; it modifies nothing |

## Left out

- AspectJ interception: the `@Before` pointcuts and the `JoinPoint` signature
  lookup are framework calls. The method key is an input string, so the two
  variants differ only in `Header`/`Footer`.
- Time and argument rendering: `Instant.now()`, the ISO timestamp format and
  `Arrays.toString` are library-defined. The timestamp and the argument text
  are input strings of `OnEnter`.
- The shutdown hook that runs `printSummary` once at exit is process
  lifecycle.
- Concurrency: `ConcurrentHashMap`, `LongAdder` and `synchronized` only make
  the operations atomic. Each operation is modelled as one sequential step,
  and the non-atomic snapshot that `printSummary` takes across keys is not
  modelled.
- Output formatting: the `printf("%8d  %s%n")` width and the ten-space
  indentation of history lines are I/O. The report is a `Report` value made
  of a header, `(count, key, lines)` sections and a footer.
- The `Consumer` passed to `forEach` is modelled by returning the sequence of
  lines that it would receive, in order.
- `MethodUsage.Recorder.OnEnter`: the counter increment comes after the
  buffer update in the model, and before it in the source. When rendering
  the timestamp and the arguments returns normally, the two steps touch
  disjoint state and the final state is the same.
- `MethodUsage.Recorder.OnEnter`: the path on which rendering throws is not
  modelled. `Arrays.toString` calls each argument's `toString()`, which may
  throw. The source then has already incremented the key's count, appends no
  line, and lets the exception escape into the intercepted method. The model
  takes the timestamp and the argument text as given strings, so every
  counted call also has its line. The proved equality between a key's count
  and the number of lines in its full history holds only for that total
  rendering.
- The `long` wrap-around of a `LongAdder` sum (after 2^63 calls) and the
  `int` overflow of the cursor are not modelled. The cursor stays below 200,
  so it cannot overflow.
- `Ranking.SortByCount`: it is an insertion sort, not the library's stable
  merge sort. Only what the comparator determines is stated (a permutation
  with non-increasing counts). The comparator
  (`tests/MethodUsageAspect.java:63`) compares counts alone, so no order is
  promised for keys with equal counts.
