/**
 * The per-method history buffer of the usage recorder: a fixed-capacity
 * circular buffer of call lines (`RingBuffer`, nested in `MethodUsageAspect`).
 *
 * The array, the write cursor `i` and the count `n` of valid entries are the
 * source's own state.  The ghost field `Added` is every line ever added, oldest
 * first; the object invariant `Valid()` says that the array, read from the
 * logical start with wraparound, holds exactly the last `min(|Added|, capacity)`
 * of them.
 */
module RingBuffers {

  /** Java's `%` on `int` for a positive divisor: it truncates toward zero,
      so the remainder takes the sign of the dividend (Dafny's own `%` is
      Euclidean).  Defined by repeated subtraction of the divisor toward zero.
      The contract pins the value on the dividends the buffer produces,
      `0 <= a < 2 * b`, and bounds it elsewhere. */
  function JavaRem(a: int, b: int): (r: int)
    requires b > 0
    ensures a >= 0 ==> 0 <= r < b
    ensures a < 0 ==> -b < r <= 0
    ensures 0 <= a < b ==> r == a
    ensures b <= a < 2 * b ==> r == a - b
    decreases if a >= 0 then a else -a
  {
    if 0 <= a < b || -b < a < 0 then a
    else if a >= b then JavaRem(a - b, b)
    else JavaRem(a + b, b)
  }

  /** `Math.max(1, capacity)`: the length of the array the constructor
      allocates, so that no later `% buf.length` divides by zero. */
  function ClampCapacity(capacity: int): (len: int)
    ensures len >= 1 && len >= capacity
    ensures len == 1 || len == capacity
  {
    if 1 >= capacity then 1 else capacity
  }

  /** The index at which the walk of `forEach` starts: `(i - n + len) % len`.
      It is in range because `n <= len` keeps the dividend non-negative. */
  function Start(i: int, n: int, len: int): (s: int)
    requires 0 <= i < len && 0 <= n <= len
    ensures 0 <= s < len
    ensures s == if n <= i then i - n else i - n + len
  {
    JavaRem(i - n + len, len)
  }

  /** The array slot that holds the `k`-th retained line, oldest first:
      `(start + k) % len`.  A retained line sits at the cursor (the slot the
      next `add` overwrites) only when the buffer is full, and then it is the
      oldest one. */
  function Slot(i: int, n: int, len: int, k: int): (j: int)
    requires 0 <= i < len && 0 <= n <= len && 0 <= k < n
    ensures 0 <= j < len
    ensures j == i <==> n == len && k == 0
  {
    JavaRem(Start(i, n, len) + k, len)
  }

  /** The last `min(|s|, cap)` elements of `s`, in their original order. */
  function Recent<T>(s: seq<T>, cap: nat): (r: seq<T>)
    ensures |r| == if |s| < cap then |s| else cap
    ensures cap > 0 && |s| > 0 ==> r[|r| - 1] == s[|s| - 1]
  {
    if |s| <= cap then s else s[|s| - cap..]
  }

  /** Adding one element to a history keeps the retained window in order:
      below capacity the window grows by the new element; at capacity the
      single oldest element is evicted and the new one appended. */
  lemma RecentAppend<T>(s: seq<T>, x: T, cap: nat)
    requires cap >= 1
    ensures Recent(s + [x], cap) ==
              if |s| < cap then Recent(s, cap) + [x] else Recent(s, cap)[1..] + [x]
  {
    if |s| >= cap {
      var t := s + [x];
      calc {
        Recent(t, cap);
        t[|t| - cap..];
        { assert t[|t| - cap..] == s[|s| - cap + 1..] + [x]; }
        s[|s| - cap + 1..] + [x];
        { assert s[|s| - cap..][1..] == s[|s| - cap + 1..]; }
        Recent(s, cap)[1..] + [x];
      }
    }
  }

  /** Until the buffer has wrapped (the cursor is the count, or 0 at the
      moment it fills up), the window starts at slot 0 and its `k`-th line is
      in slot `k`. */
  lemma SlotBeforeWrap(n: int, len: int, k: int)
    requires 0 <= n <= len && 0 <= k < n
    ensures Slot(if n < len then n else 0, n, len, k) == k
  {
  }

  /** Once full, the window starts at the cursor; advancing the cursor by one
      moves every position of the window one slot on, and the newest position
      lands on the slot that was just written. */
  lemma SlotAfterFullAdd(i: int, len: int, k: int)
    requires 0 <= i < len && 0 <= k < len
    ensures Slot(JavaRem(i + 1, len), len, len, k) ==
              if k < len - 1 then Slot(i, len, len, k + 1) else i
  {
    assert Start(i, len, len) == i;
  }

  /** The retained window is exactly the trailing part of the history. */
  lemma RecentIsSuffix<T>(s: seq<T>, cap: nat)
    ensures Recent(s, cap) == s[|s| - |Recent(s, cap)|..]
  {
  }

  /** Two distinct positions of the window never share a slot: the walk of
      `forEach` visits no slot twice. */
  lemma SlotsDistinct(i: int, n: int, len: int, k1: int, k2: int)
    requires 0 <= i < len && 0 <= n <= len
    requires 0 <= k1 < n && 0 <= k2 < n && k1 != k2
    ensures Slot(i, n, len, k1) != Slot(i, n, len, k2)
  {
    var s := Start(i, n, len);
    assert 0 <= s + k1 < 2 * len && 0 <= s + k2 < 2 * len;
  }

  /** Consecutive positions of the window sit in consecutive slots, wrapping
      from the last slot to the first: the walk of `forEach` leaves no gap. */
  lemma SlotsConsecutive(i: int, n: int, len: int, k: int)
    requires 0 <= i < len && 0 <= n <= len && 0 <= k && k + 1 < n
    ensures Slot(i, n, len, k + 1) == JavaRem(Slot(i, n, len, k) + 1, len)
  {
    var s := Start(i, n, len);
    assert 0 <= s + k + 1 < 2 * len;
  }

  /** The slots `b`, with write cursor `i` and `n` valid entries, hold the
      retained window of the history `added`: its last `min(|added|, |b|)`
      lines, the oldest at the logical start and the rest following it with
      wraparound. */
  ghost predicate Represents<T>(b: seq<T>, i: int, n: int, added: seq<T>)
  {
    && 1 <= |b|
    && 0 <= i < |b|
    && n == (if |added| < |b| then |added| else |b|)
    // until the buffer first fills up, the cursor and the count move together
    && (n < |b| ==> i == n)
    && forall k {:trigger Slot(i, n, |b|, k)} :: 0 <= k < n ==> b[Slot(i, n, |b|, k)] == added[|added| - n + k]
  }

  /** One `add` — write the slot at the cursor, advance the cursor modulo the
      length, count one more entry until full — keeps the slots representing
      the history extended by the added line. */
  lemma {:induction false} AddKeepsWindow<T>(b: seq<T>, i: int, n: int, added: seq<T>, x: T)
    requires Represents(b, i, n, added)
    ensures Represents(b[i := x], JavaRem(i + 1, |b|), if n < |b| then n + 1 else n, added + [x])
  {
    var len := |b|;
    var b', i', n' := b[i := x], JavaRem(i + 1, len), if n < len then n + 1 else n;
    var added' := added + [x];
    forall k | 0 <= k < n'
      ensures b'[Slot(i', n', len, k)] == added'[|added'| - n' + k]
    {
      if n < len {
        SlotBeforeWrap(n', len, k);
        if k < n {
          SlotBeforeWrap(n, len, k);
        }
      } else {
        SlotAfterFullAdd(i, len, k);
        if k < len - 1 {
          assert Slot(i, n, len, k + 1) != i;
        }
      }
    }
  }

  /** Position `t` of the retained window is position `|s| - |window| + t`
      of the history. */
  lemma RecentAt<T>(s: seq<T>, cap: nat, t: int)
    requires 0 <= t < |Recent(s, cap)|
    ensures Recent(s, cap)[t] == s[|s| - |Recent(s, cap)| + t]
  {
  }

  class RingBuffer {
    const buf: array<string>
    var i: int
    var n: int
    /** Every line ever added, oldest first. */
    ghost var Added: seq<string>

    ghost predicate Valid()
      reads this, buf
    {
      Represents(buf[..], i, n, Added)
    }

    /** `RingBuffer(int capacity)`: an empty buffer over an array of
        `Math.max(1, capacity)` slots. */
    constructor (capacity: int)
      ensures Valid() && fresh(buf)
      ensures buf.Length == ClampCapacity(capacity)
      ensures i == 0 && n == 0 && Added == []
    {
      buf := new string[ClampCapacity(capacity)];
      i, n := 0, 0;
      Added := [];
    }

    /** `add(s)`: overwrite the slot at the cursor, advance the cursor
        modulo the capacity, and count one more valid entry until full. */
    method Add(s: string)
      requires Valid()
      modifies this, buf
      ensures Valid()
      ensures buf[old(i)] == s
      ensures forall j :: 0 <= j < buf.Length && j != old(i) ==> buf[j] == old(buf[j])
      ensures i == JavaRem(old(i) + 1, buf.Length)
      ensures n == if old(n) < buf.Length then old(n) + 1 else old(n)
      ensures Added == old(Added) + [s]
    {
      ghost var b0, i0, n0, a0 := buf[..], i, n, Added;
      buf[i] := s;
      assert buf[..] == b0[i0 := s];
      i := JavaRem(i + 1, buf.Length);
      if n < buf.Length {
        n := n + 1;
      }
      Added := Added + [s];
      AddKeepsWindow(b0, i0, n0, a0, s);
    }

    /** `forEach(c)`: the lines the consumer is handed, in the order it is
        handed them — the retained window, oldest first. */
    method ForEach() returns (lines: seq<string>)
      requires Valid()
      ensures lines == Recent(Added, buf.Length)
    {
      var start := JavaRem(i - n + buf.Length, buf.Length);
      lines := [];
      for k := 0 to n
        invariant |lines| == k
        invariant forall t :: 0 <= t < k ==> lines[t] == Added[|Added| - n + t]
      {
        assert JavaRem(start + k, buf.Length) == Slot(i, n, buf.Length, k);
        lines := lines + [buf[JavaRem(start + k, buf.Length)]];
      }
      forall t | 0 <= t < n
        ensures lines[t] == Recent(Added, buf.Length)[t]
      {
        RecentAt(Added, buf.Length, t);
      }
    }
  }

}
