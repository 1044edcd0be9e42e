/**
 * The usage-recording aspect (`MethodUsageAspect`): the static registry of
 * per-method call counts (`COUNTS`) and per-method history buffers
 * (`CALLS`), the `onEnter` advice that updates both for one intercepted call,
 * and the shutdown-time `printSummary` that reports them by descending count.
 *
 * The registry is modelled as a `Recorder` object whose maps are updated in
 * place.  Its ghost field `Log` is every call recorded so far, oldest first;
 * the object invariant ties each count to the number of calls with that key
 * and each buffer's history to the lines of those calls.
 */
module MethodUsage {
  import opened RingBuffers
  import opened Ranking

  /** `MAX_LINES_PER_METHOD`: how many recent calls each method's buffer keeps. */
  const MaxLinesPerMethod: int := 200

  /** The two builds of the aspect.  They share the engine and differ in the
      calls they intercept and in the banner lines of the summary. */
  datatype Variant = Facets | CatchAll

  /** The first line of the summary: a title naming the method usage
      summary, between two runs of five `=`. */
  function Header(v: Variant): (h: string)
    ensures |h| >= 32 && h[..6] == "===== " && h[|h| - 6..] == " ====="
    ensures h[6..26] == "Method Usage Summary"
  {
    var title := match v
      case Facets => "Method Usage Summary (org.csa.facets)"
      case CatchAll => "Method Usage Summary";
    "===== " + title + " ====="
  }

  /** The last line of the summary: a rule of `=` exactly as wide as the
      header. */
  function Footer(v: Variant): (f: string)
    ensures |f| == |Header(v)|
    ensures forall c :: c in f ==> c == '='
  {
    match v
    case Facets => "================================================="
    case CatchAll => "================================"
  }

  /** One intercepted call: the method key (`declaring type#name`), the
      formatted timestamp and the rendered argument list. */
  datatype Call = Call(key: string, ts: string, args: string)

  /** The history line `onEnter` builds for a call: the timestamp in
      brackets, a space, the key, and the arguments in parentheses. */
  function LineOf(c: Call): string
  {
    "[" + c.ts + "] " + c.key + "(" + c.args + ")"
  }

  /** Each part of a call can be read back from its line at a fixed place:
      the timestamp after the opening bracket, the key after `"] "`, and the
      arguments between the parentheses that close the line. */
  lemma LineParts(c: Call)
    ensures |LineOf(c)| == |c.ts| + |c.key| + |c.args| + 5
    ensures LineOf(c)[0] == '[' && LineOf(c)[|c.ts| + 1..|c.ts| + 3] == "] "
    ensures LineOf(c)[1..|c.ts| + 1] == c.ts
    ensures LineOf(c)[|c.ts| + 3..|c.ts| + 3 + |c.key|] == c.key
    ensures LineOf(c)[|c.ts| + 3 + |c.key|] == '(' && LineOf(c)[|LineOf(c)| - 1] == ')'
    ensures LineOf(c)[|c.ts| + 4 + |c.key|..|LineOf(c)| - 1] == c.args
  {
  }

  /** The number of calls in `log` made with `key`. */
  function CountIn(log: seq<Call>, key: string): nat
  {
    if log == [] then 0
    else CountIn(log[..|log| - 1], key) + (if log[|log| - 1].key == key then 1 else 0)
  }

  /** The lines of the calls in `log` made with `key`, oldest first: one
      line per counted call. */
  function LinesFor(log: seq<Call>, key: string): (lines: seq<string>)
    ensures |lines| == CountIn(log, key)
  {
    if log == [] then []
    else
      var last := log[|log| - 1];
      var earlier := LinesFor(log[..|log| - 1], key);
      earlier + (if last.key == key then [LineOf(last)] else [])
  }

  /** The keys of the calls in `log`. */
  ghost function KeysIn(log: seq<Call>): set<string>
  {
    set c | c in log :: c.key
  }

  lemma KeysInAppend(log: seq<Call>, c: Call)
    ensures KeysIn(log + [c]) == KeysIn(log) + {c.key}
  {
    assert forall d :: d in log + [c] <==> d in log || d == c;
  }

  /** A key has been counted exactly when some call was made with it. */
  lemma {:induction false} CountedIffCalled(log: seq<Call>, key: string)
    ensures CountIn(log, key) > 0 <==> key in KeysIn(log)
  {
    if log != [] {
      var init := log[..|log| - 1];
      CountedIffCalled(init, key);
      assert log == init + [log[|log| - 1]];
      KeysInAppend(init, log[|log| - 1]);
    }
  }

  /** Counts over two consecutive stretches of calls add up: no call is lost
      or counted twice wherever the stream is cut. */
  lemma {:induction false} CountSplit(a: seq<Call>, b: seq<Call>, key: string)
    ensures CountIn(a + b, key) == CountIn(a, key) + CountIn(b, key)
  {
    if b != [] {
      var init := b[..|b| - 1];
      CountSplit(a, init, key);
      assert (a + b)[..|a + b| - 1] == a + init;
      assert (a + b)[|a + b| - 1] == b[|b| - 1];
    } else {
      assert a + b == a;
    }
  }

  /** Taking one call out of a stretch of calls takes it out of the count
      of its key and out of the stretch's multiset, and nothing else. */
  lemma RemoveOne(s: seq<Call>, j: int, key: string)
    requires 0 <= j < |s|
    ensures CountIn(s, key) == CountIn(s[..j] + s[j + 1..], key) + (if s[j].key == key then 1 else 0)
    ensures multiset(s[..j] + s[j + 1..]) == multiset(s) - multiset{s[j]}
  {
    var s1, s2 := s[..j], s[j + 1..];
    assert s == s1 + [s[j]] + s2;
    CountSplit(s1 + [s[j]], s2, key);
    CountSplit(s1, [s[j]], key);
    CountSplit(s1, s2, key);
    assert [s[j]][..0] == [];
  }

  /** The count of a key depends only on which calls were made, not on the
      order in which they reached the registry: any interleaving of the same
      calls gives the same counts. */
  lemma {:induction false} CountIgnoresOrder(a: seq<Call>, b: seq<Call>, key: string)
    requires multiset(a) == multiset(b)
    ensures CountIn(a, key) == CountIn(b, key)
    decreases |a|
  {
    if a != [] {
      var x := a[|a| - 1];
      assert x in multiset(b);
      var j :| 0 <= j < |b| && b[j] == x;
      var rest := a[..|a| - 1];
      assert a == rest + [x];
      RemoveOne(b, j, key);
      CountIgnoresOrder(rest, b[..j] + b[j + 1..], key);
    }
  }

  /** One block of the summary: a method's count and key, then its retained
      history lines. */
  datatype Section = Section(count: nat, key: string, lines: seq<string>)

  /** What `printSummary` writes: a header, one section per method, a footer. */
  datatype Report = Report(header: string, sections: seq<Section>, footer: string)

  /** The entry each section was printed for: its key and its count. */
  ghost function RowsOf(sections: seq<Section>): seq<Row>
  {
    seq(|sections|, t requires 0 <= t < |sections| => Row(sections[t].key, sections[t].count))
  }

  /** The sections summarise the calls in `log`: one section per key that was
      called, each with its count and the last `MaxLinesPerMethod` lines of its
      calls, oldest first, ordered by non-increasing count.  The order of
      sections with equal counts is left open. */
  ghost predicate SummaryOf(sections: seq<Section>, log: seq<Call>)
  {
    && NonIncreasing(RowsOf(sections))
    && DistinctKeys(RowsOf(sections))
    && KeysOf(RowsOf(sections)) == KeysIn(log)
    && forall s :: s in sections ==>
         s.count == CountIn(log, s.key) && s.lines == Recent(LinesFor(log, s.key), MaxLinesPerMethod)
  }

  /** A method appears in the summary exactly when it was called at least
      once; a method never called does not appear at all. */
  lemma ListedIffCalled(sections: seq<Section>, log: seq<Call>, key: string)
    requires SummaryOf(sections, log)
    ensures (exists s :: s in sections && s.key == key) <==> CountIn(log, key) > 0
  {
    CountedIffCalled(log, key);
    var rows := RowsOf(sections);
    if key in KeysIn(log) {
      var r :| r in rows && r.key == key;
      var t :| 0 <= t < |rows| && rows[t] == r;
      assert sections[t] in sections;
    }
    if s :| s in sections && s.key == key {
      var t :| 0 <= t < |sections| && sections[t] == s;
      assert rows[t] in rows;
    }
  }

  /** A method called more often than another is listed before it. */
  lemma MoreCalledFirst(sections: seq<Section>, log: seq<Call>, p: int, q: int)
    requires SummaryOf(sections, log)
    requires 0 <= p < |sections| && 0 <= q < |sections|
    requires CountIn(log, sections[p].key) > CountIn(log, sections[q].key)
    ensures p < q
  {
    var rows := RowsOf(sections);
    assert sections[p] in sections && sections[q] in sections;
    assert rows[p].count == sections[p].count && rows[q].count == sections[q].count;
  }

  /** A section's history holds `min(count, MaxLinesPerMethod)` lines, and
      the newest of them is the line of the method's latest call. */
  lemma SectionHistory(sections: seq<Section>, log: seq<Call>, s: Section)
    requires SummaryOf(sections, log) && s in sections
    ensures |s.lines| == if s.count < MaxLinesPerMethod then s.count else MaxLinesPerMethod
    ensures s.lines != [] && s.lines[|s.lines| - 1] == LinesFor(log, s.key)[s.count - 1]
  {
    var t :| 0 <= t < |sections| && sections[t] == s;
    assert RowsOf(sections)[t] in RowsOf(sections);
    CountedIffCalled(log, s.key);
  }

  /** `computeIfAbsent` on the counts: the key's counter, or a fresh one at 0. */
  function CountOrZero(counts: map<string, nat>, key: string): nat
  {
    if key in counts then counts[key] else 0
  }

  /** `computeIfAbsent` on the histories: the key's history, or a fresh empty one. */
  function HistoryOrEmpty(hist: map<string, seq<string>>, key: string): seq<string>
  {
    if key in hist then hist[key] else []
  }

  /** The counts and the full per-key histories are those the call log
      determines: an entry exactly for each key called, holding the number of
      its calls and the lines of its calls in order. */
  ghost predicate Tracks(counts: map<string, nat>, hist: map<string, seq<string>>, log: seq<Call>)
  {
    && counts.Keys == hist.Keys == KeysIn(log)
    && (forall k :: k in counts ==> counts[k] == CountIn(log, k))
    && (forall k :: k in hist ==> hist[k] == LinesFor(log, k))
  }

  /** What `computeIfAbsent` hands `onEnter` for a key, on registries that
      track `log`: a counter holding the key's number of earlier calls (0 on
      its first call) and a history holding those calls' lines. */
  lemma CountOrZeroTracks(counts: map<string, nat>, hist: map<string, seq<string>>, log: seq<Call>, key: string)
    requires Tracks(counts, hist, log)
    ensures CountOrZero(counts, key) == CountIn(log, key)
    ensures HistoryOrEmpty(hist, key) == LinesFor(log, key)
  {
    CountedIffCalled(log, key);
  }

  /** One `onEnter` step — get or create the key's counter and increment it,
      get or create the key's history and append the call's line — keeps the
      registry tracking the call log extended by that call. */
  lemma RecordTracks(counts: map<string, nat>, hist: map<string, seq<string>>, log: seq<Call>, c: Call)
    requires Tracks(counts, hist, log)
    ensures Tracks(counts[c.key := CountOrZero(counts, c.key) + 1],
                   hist[c.key := HistoryOrEmpty(hist, c.key) + [LineOf(c)]],
                   log + [c])
  {
    var log' := log + [c];
    var counts' := counts[c.key := CountOrZero(counts, c.key) + 1];
    var hist' := hist[c.key := HistoryOrEmpty(hist, c.key) + [LineOf(c)]];
    assert log'[..|log'| - 1] == log;
    KeysInAppend(log, c);
    CountedIffCalled(log, c.key);
    assert counts'.Keys == hist'.Keys == KeysIn(log');
    forall k | k in counts'
      ensures counts'[k] == CountIn(log', k)
    {
    }
    forall k | k in hist'
      ensures hist'[k] == LinesFor(log', k)
    {
      if k == c.key && c.key !in hist {
        assert |LinesFor(log, c.key)| == 0;
      }
    }
  }

  /** A second update of the same key overrides the first. */
  lemma UpdateTwice<K, V>(m: map<K, V>, k: K, a: V, b: V)
    ensures m[k := a][k := b] == m[k := b]
  {
  }

  /** The two registries as values: `COUNTS` and, for each key, every line
      its buffer was ever given. */
  datatype Registry = Registry(counts: map<string, nat>, hist: map<string, seq<string>>)

  /** The registries before any call. */
  const Empty := Registry(map[], map[])

  /** The effect of one `onEnter` on the registries. */
  function Record(r: Registry, c: Call): Registry
  {
    Registry(r.counts[c.key := CountOrZero(r.counts, c.key) + 1],
             r.hist[c.key := HistoryOrEmpty(r.hist, c.key) + [LineOf(c)]])
  }

  /** One `onEnter` raises the called key's count by exactly one and puts
      the call's line at the end of its history; every other key keeps its
      count and its history, or stays absent. */
  lemma RecordTouchesOnlyKey(r: Registry, c: Call)
    ensures c.key in Record(r, c).counts && Record(r, c).counts[c.key] == CountOrZero(r.counts, c.key) + 1
    ensures c.key in Record(r, c).hist && Record(r, c).hist[c.key] == HistoryOrEmpty(r.hist, c.key) + [LineOf(c)]
    ensures forall k :: k != c.key ==>
              (k in Record(r, c).counts <==> k in r.counts) && (k in Record(r, c).hist <==> k in r.hist)
    ensures forall k :: k != c.key && k in r.counts ==> Record(r, c).counts[k] == r.counts[k]
    ensures forall k :: k != c.key && k in r.hist ==> Record(r, c).hist[k] == r.hist[k]
  {
  }

  /** The first call of a key creates its counter at zero and increments it
      to one, and creates its buffer empty and gives it the call's line. */
  lemma FirstCallStartsFresh(r: Registry, c: Call)
    requires c.key !in r.counts && c.key !in r.hist
    ensures c.key in Record(r, c).counts && Record(r, c).counts[c.key] == 1
    ensures c.key in Record(r, c).hist && Record(r, c).hist[c.key] == [LineOf(c)]
  {
  }

  /** The registries after the calls of `log`, in order, starting empty. */
  function Replay(log: seq<Call>): Registry
  {
    if log == [] then Empty
    else Record(Replay(log[..|log| - 1]), log[|log| - 1])
  }

  /** Replaying one more call is one more `Record` step. */
  lemma ReplayStep(log: seq<Call>, c: Call)
    ensures Replay(log + [c]) == Record(Replay(log), c)
  {
    assert (log + [c])[..|log|] == log;
  }

  /** Whatever the sequence of calls, the registries track it: each key
      called has a counter holding its number of calls and a history holding
      their lines in order, and no other key has either. */
  lemma {:induction false} ReplayTracks(log: seq<Call>)
    ensures Tracks(Replay(log).counts, Replay(log).hist, log)
  {
    if log == [] {
      assert KeysIn(log) == {};
    } else {
      var init := log[..|log| - 1];
      ReplayTracks(init);
      assert log == init + [log[|log| - 1]];
      RecordTracks(Replay(init).counts, Replay(init).hist, init, log[|log| - 1]);
    }
  }

  /** `COUNTS.entrySet().stream()`: the entries of the counts map, one row
      per key, in the map's own iteration order (any order may come out). */
  method EntryRows(counts: map<string, nat>) returns (rows: seq<Row>)
    ensures DistinctKeys(rows)
    ensures KeysOf(rows) == counts.Keys
    ensures forall r :: r in rows ==> r.key in counts && r.count == counts[r.key]
  {
    rows := [];
    var pending := counts.Keys;
    while pending != {}
      invariant pending <= counts.Keys
      invariant DistinctKeys(rows)
      invariant KeysOf(rows) + pending == counts.Keys
      invariant KeysOf(rows) !! pending
      invariant forall r :: r in rows ==> r.key in counts && r.count == counts[r.key]
      decreases |pending|
    {
      var key :| key in pending;
      var row := Row(key, counts[key]);
      AppendNewKey(rows, row);
      rows := rows + [row];
      pending := pending - {key};
    }
  }

  /** The section printed for a row: its count and key, then the retained
      part of the key's history. */
  function SectionFor(r: Row, hist: map<string, seq<string>>): (s: Section)
    ensures s.count == r.count && s.key == r.key
    ensures |s.lines| <= MaxLinesPerMethod
  {
    Section(r.count, r.key, Recent(HistoryOrEmpty(hist, r.key), MaxLinesPerMethod))
  }

  /** Section `t` is the one printed for row `t`. */
  ghost predicate SectionsOf(rows: seq<Row>, sections: seq<Section>, hist: map<string, seq<string>>)
  {
    && |sections| == |rows|
    && forall t :: 0 <= t < |rows| ==> sections[t] == SectionFor(rows[t], hist)
  }

  /** Sections follow their rows' order, so they inherit its properties. */
  lemma SectionsKeepOrder(rows: seq<Row>, sections: seq<Section>, hist: map<string, seq<string>>)
    requires SectionsOf(rows, sections, hist)
    ensures RowsOf(sections) == rows
  {
    forall t | 0 <= t < |rows|
      ensures RowsOf(sections)[t] == rows[t]
    {
      assert sections[t] == SectionFor(rows[t], hist);
    }
  }

  /** Each section shows its key's count and the retained part of its
      history, as the tracked log determines them. */
  lemma SectionsShowLog(rows: seq<Row>, sections: seq<Section>,
                        counts: map<string, nat>, hist: map<string, seq<string>>, log: seq<Call>)
    requires Tracks(counts, hist, log)
    requires SectionsOf(rows, sections, hist)
    requires forall r :: r in rows ==> r.key in counts && r.count == counts[r.key]
    ensures forall s :: s in sections ==>
              s.count == CountIn(log, s.key) && s.lines == Recent(LinesFor(log, s.key), MaxLinesPerMethod)
  {
    forall s | s in sections
      ensures s.count == CountIn(log, s.key) && s.lines == Recent(LinesFor(log, s.key), MaxLinesPerMethod)
    {
      var t :| 0 <= t < |sections| && sections[t] == s;
      assert rows[t] in rows;
    }
  }

  /** Rows sorted by count, one per counted key, each followed by the
      retained part of its key's history, summarise the call log the
      registries track. */
  lemma SortedRowsSummarise(sorted: seq<Row>, sections: seq<Section>,
                            counts: map<string, nat>, hist: map<string, seq<string>>, log: seq<Call>)
    requires Tracks(counts, hist, log)
    requires NonIncreasing(sorted) && DistinctKeys(sorted) && KeysOf(sorted) == counts.Keys
    requires forall r :: r in sorted ==> r.key in counts && r.count == counts[r.key]
    requires SectionsOf(sorted, sections, hist)
    ensures SummaryOf(sections, log)
  {
    SectionsKeepOrder(sorted, sections, hist);
    SectionsShowLog(sorted, sections, counts, hist, log);
  }

  /** The aspect's static state: the two registries, filled lazily per key. */
  class Recorder {
    const variant: Variant
    /** `COUNTS`: the call count of each method key seen so far. */
    var counts: map<string, nat>
    /** `CALLS`: the history buffer of each method key seen so far. */
    var calls: map<string, RingBuffer>
    /** Every call recorded so far, oldest first. */
    ghost var Log: seq<Call>

    /** Every line each key's buffer was ever given, oldest first. */
    ghost var Hist: map<string, seq<string>>
    /** The key whose buffer holds each array. */
    ghost var Owner: map<array<string>, string>
    ghost var Repr: set<object>

    /** The buffers are well formed, each has the summary's capacity and
        holds the retained part of its key's history, and each key owns its
        own buffer and array. */
    ghost predicate HeapValid()
      reads this`Repr, this`calls, this`Hist, this`Owner, Repr - {this}
    {
      && this in Repr
      && Hist.Keys == calls.Keys
      && (forall k :: k in calls ==> calls[k] in Repr && calls[k].buf in Repr)
      && (forall k :: k in calls ==>
            calls[k].Valid() && calls[k].buf.Length == MaxLinesPerMethod && calls[k].Added == Hist[k])
      // each array records its owning key, so no two keys share one
      && (forall k :: k in calls ==> calls[k].buf in Owner && Owner[calls[k].buf] == k)
    }

    ghost predicate Valid()
      reads this, Repr
    {
      HeapValid() && Registry(counts, Hist) == Replay(Log)
    }

    /** The registries as the class initialiser leaves them: empty. */
    constructor (variant: Variant)
      ensures Valid() && fresh(Repr)
      ensures this.variant == variant
      ensures counts == map[] && calls == map[] && Log == []
    {
      this.variant := variant;
      counts, calls := map[], map[];
      Log, Hist, Owner := [], map[], map[];
      Repr := {this};
    }

    /** `CALLS.computeIfAbsent(key, k -> new RingBuffer(MAX_LINES_PER_METHOD))`:
        the key's buffer, created empty on the key's first call. */
    method BufferFor(key: string) returns (rb: RingBuffer)
      requires HeapValid()
      modifies this
      ensures HeapValid() && fresh(Repr - old(Repr))
      ensures unchanged(`counts, `Log)
      ensures calls == old(calls)[key := rb]
      ensures key in old(calls) ==> rb == old(calls[key]) && Hist == old(Hist)
      ensures key !in old(calls) ==> fresh(rb) && Hist == old(Hist)[key := []]
    {
      if key in calls {
        rb := calls[key];
        assert calls == calls[key := rb];
      } else {
        rb := AddBuffer(key);
      }
    }

    /** The absent branch of `computeIfAbsent`: a fresh, empty buffer of the
        summary's capacity is registered under a key that had none. */
    method AddBuffer(key: string) returns (rb: RingBuffer)
      requires HeapValid() && key !in calls
      modifies this
      ensures HeapValid() && fresh(Repr - old(Repr)) && fresh(rb)
      ensures unchanged(`counts, `Log)
      ensures calls == old(calls)[key := rb]
      ensures Hist == old(Hist)[key := []]
    {
      rb := new RingBuffer(MaxLinesPerMethod);
      Register(key, rb);
    }

    /** Files an empty buffer, allocated outside the registry, under a key
        that had none. */
    method Register(key: string, rb: RingBuffer)
      requires HeapValid() && key !in calls
      requires rb !in Repr && rb.buf !in Repr
      requires rb.Valid() && rb.buf.Length == MaxLinesPerMethod && rb.Added == []
      modifies this`calls, this`Hist, this`Owner, this`Repr
      ensures HeapValid() && Repr == old(Repr) + {rb, rb.buf}
      ensures calls == old(calls)[key := rb]
      ensures Hist == old(Hist)[key := []]
    {
      ghost var bufs := calls;
      calls := calls[key := rb];
      Hist := Hist[key := []];
      Owner := Owner[rb.buf := key];
      Repr := Repr + {rb, rb.buf};
      forall k | k in calls
        ensures calls[k].Valid() && calls[k].buf.Length == MaxLinesPerMethod && calls[k].Added == Hist[k]
      {
        if k != key {
          assert calls[k] == bufs[k];
        }
      }
    }

    /** `add(line)` on the buffer of a key already present: only that key's
        history grows. */
    method AppendTo(key: string, line: string)
      requires HeapValid() && key in calls
      modifies this, calls[key], calls[key].buf
      ensures HeapValid()
      ensures unchanged(`counts, `calls, `Log, `Repr)
      ensures Hist == old(Hist)[key := old(Hist)[key] + [line]]
      ensures forall k :: k in calls && k != key ==> unchanged(calls[k], calls[k].buf)
    {
      var rb := calls[key];
      ghost var bufs := calls;
      assert forall k :: k in bufs && k != key ==> bufs[k].buf != rb.buf && bufs[k] != rb;
      rb.Add(line);
      Hist := Hist[key := Hist[key] + [line]];
      assert bufs == calls;
      forall k | k in bufs
        ensures bufs[k].Valid() && bufs[k].buf.Length == MaxLinesPerMethod && bufs[k].Added == Hist[k]
      {
        if k != key {
          assert unchanged(bufs[k], bufs[k].buf);
        }
      }
    }

    /** `CALLS.computeIfAbsent(key, ...).add(line)`: append the line to the
        key's buffer, creating the buffer on the key's first call.  The
        history of every other key stays as it was. */
    method Push(key: string, line: string)
      requires HeapValid()
      modifies this, Repr
      ensures HeapValid() && fresh(Repr - old(Repr))
      ensures unchanged(`counts, `Log)
      ensures Hist == old(Hist)[key := HistoryOrEmpty(old(Hist), key) + [line]]
      ensures key in calls && calls == old(calls)[key := calls[key]]
      ensures key in old(calls) ==> calls[key] == old(calls[key])
    {
      ghost var hist0 := Hist;
      if key !in calls {
        UpdateTwice(hist0, key, [], [] + [line]);
      }
      var rb := BufferFor(key);
      AppendTo(key, line);
    }

    /** `COUNTS.computeIfAbsent(key, ...).increment()`: one more call of the
        key, counted from zero on its first call; the ghost log records it. */
    method Tally(c: Call)
      modifies this`counts, this`Log
      ensures counts == old(counts)[c.key := CountOrZero(old(counts), c.key) + 1]
      ensures Log == old(Log) + [c]
    {
      counts := counts[c.key := CountOrZero(counts, c.key) + 1];
      Log := Log + [c];
    }

    /** `onEnter`: count one call of `key` and append its line to that key's
        buffer, creating the counter and the buffer on the key's first call.
        The registries change exactly as `Record` says. */
    method OnEnter(key: string, ts: string, args: string)
      requires Valid()
      modifies Repr
      ensures Valid() && fresh(Repr - old(Repr))
      ensures Log == old(Log) + [Call(key, ts, args)]
      ensures Registry(counts, Hist) == Record(old(Registry(counts, Hist)), Call(key, ts, args))
      ensures key in calls && calls == old(calls)[key := calls[key]]
      ensures key in old(calls) ==> calls[key] == old(calls[key])
    {
      var c := Call(key, ts, args);
      ghost var next := Record(Registry(counts, Hist), c);
      ReplayStep(Log, c);
      var line := LineOf(c);
      Push(key, line);
      assert Hist == next.hist;
      // COUNTS.computeIfAbsent(key, ...).increment(); it touches no buffer,
      // so doing it after the buffer update changes nothing
      Tally(c);
      assert counts == next.counts;
      assert HeapValid();
      assert Registry(counts, Hist) == next;
    }

    /** The per-method part of `printSummary`: for each row, in order, its
        count and key and the lines its buffer hands to `forEach` (none when
        the key has no buffer). */
    method SectionsFor(rows: seq<Row>) returns (sections: seq<Section>)
      requires HeapValid()
      ensures SectionsOf(rows, sections, Hist)
    {
      ghost var hist := Hist;
      sections := [];
      for p := 0 to |rows|
        invariant |sections| == p
        invariant forall t :: 0 <= t < p ==> sections[t] == SectionFor(rows[t], hist)
      {
        var key := rows[p].key;
        var lines: seq<string> := [];
        // CALLS.get(method), skipped when absent
        if key in calls {
          var rb := calls[key];
          assert rb.Valid() && rb.buf.Length == MaxLinesPerMethod && rb.Added == hist[key];
          lines := rb.ForEach();
        }
        assert lines == Recent(HistoryOrEmpty(hist, key), MaxLinesPerMethod);
        assert Section(rows[p].count, key, lines) == SectionFor(rows[p], hist);
        sections := sections + [Section(rows[p].count, key, lines)];
      }
    }

    /** `printSummary`: the report written at shutdown.  It only reads the
        registries. */
    method PrintSummary() returns (report: Report)
      requires Valid()
      ensures report.header == Header(variant) && report.footer == Footer(variant)
      ensures SummaryOf(report.sections, Log)
    {
      var rows := EntryRows(counts);
      // .sorted((a, b) -> Long.compare(b.count, a.count))
      var sorted := SortByCount(rows);
      SortKeepsKeys(rows);
      var sections := SectionsFor(sorted);
      ReplayTracks(Log);
      SortedRowsSummarise(sorted, sections, counts, Hist, Log);
      report := Report(Header(variant), sections, Footer(variant));
    }
  }
}
