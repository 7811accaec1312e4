/**
  The abstract behaviour shared by the two fixed-capacity circular buffers
  (ObservableDeque and Deque): what one AddLast does to the logical contents,
  what a run of them does, the notifications they raise, and the modular
  arithmetic that maps logical indices to array slots.
 */
module RingSpec {

  /** One change notification, in the order the buffer raises it. */
  datatype Notification<T> =
    | PropertyChanged(name: string)
    | ItemAdded(item: T, index: int)
    | ItemRemoved(item: T, index: int)
    | Reset

  const CountProperty: string := "Count"
  const IndexerProperty: string := "Item[]"

  function Min(a: int, b: int): (m: int)
    ensures m <= a && m <= b && (m == a || m == b)
  {
    if a <= b then a else b
  }

  /** The contents after appending `x` to a buffer of the given capacity:
      below capacity the buffer grows, at capacity the oldest element goes. */
  function PushBack<T>(s: seq<T>, x: T, capacity: nat): (r: seq<T>)
    requires 0 < capacity && |s| <= capacity
    ensures |r| == Min(|s| + 1, capacity)
    ensures r[|r| - 1] == x
  {
    if |s| < capacity then s + [x] else s[1..] + [x]
  }

  /** The contents after appending every element of `xs`, first to last. */
  function PushAll<T>(s: seq<T>, xs: seq<T>, capacity: nat): (r: seq<T>)
    requires 0 < capacity && |s| <= capacity
    ensures |r| == Min(|s| + |xs|, capacity)
    decreases |xs|
  {
    if xs == [] then s
    else PushBack(PushAll(s, xs[..|xs| - 1], capacity), xs[|xs| - 1], capacity)
  }

  /** The last `n` elements of `s` (all of them when there are fewer). */
  function LastN<T>(s: seq<T>, n: nat): (r: seq<T>)
    ensures |r| == Min(|s|, n)
  {
    if |s| <= n then s else s[|s| - n..]
  }

  /** The notifications of one AddLast on a buffer holding `s`: at capacity the
      oldest element is reported removed at index 0, below capacity Count
      changes; then the indexer changes and `x` is reported added last. */
  function AddLastNotifications<T>(s: seq<T>, x: T, capacity: nat): (r: seq<Notification<T>>)
    requires 0 < capacity && |s| <= capacity
    ensures |r| == 3 && r[2] == ItemAdded(x, Min(|s| + 1, capacity) - 1)
  {
    (if |s| == capacity then [ItemRemoved(s[0], 0)] else [PropertyChanged(CountProperty)])
    + [PropertyChanged(IndexerProperty), ItemAdded(x, Min(|s| + 1, capacity) - 1)]
  }

  /** The notifications of a Clear: none when already empty. */
  function ClearNotifications<T>(count: nat): (r: seq<Notification<T>>)
    ensures count == 0 <==> r == []
  {
    if count > 0 then [PropertyChanged(CountProperty), PropertyChanged(IndexerProperty), Reset] else []
  }

  /** The notifications of a CopyFrom: always a full refresh. */
  function CopyFromNotifications<T>(): (r: seq<Notification<T>>)
    ensures |r| == 3 && r[2] == Reset
  {
    [PropertyChanged(CountProperty), PropertyChanged(IndexerProperty), Reset]
  }

  /** A true prepend: the new element becomes the oldest, and at capacity the
      newest element goes. */
  function PushFront<T>(s: seq<T>, x: T, capacity: nat): (r: seq<T>)
    requires 0 < capacity && |s| <= capacity
    ensures |r| == Min(|s| + 1, capacity) && r[0] == x
  {
    if |s| < capacity then [x] + s else [x] + s[..|s| - 1]
  }

  // ---------------------------------------------------------------------
  // Properties of runs of appends

  lemma PushBackLastN<T>(u: seq<T>, x: T, capacity: nat)
    requires 0 < capacity
    ensures PushBack(LastN(u, capacity), x, capacity) == LastN(u + [x], capacity)
  {
    var v := u + [x];
    if |u| < capacity {
      assert LastN(u, capacity) == u;
    } else {
      assert LastN(u, capacity)[1..] + [x] == v[|v| - capacity..];
    }
  }

  /** After appending `xs` to a buffer holding `s`, the buffer holds the last
      `capacity` elements of `s + xs`, oldest first. */
  lemma {:induction false} PushAllIsLastN<T>(s: seq<T>, xs: seq<T>, capacity: nat)
    requires 0 < capacity && |s| <= capacity
    ensures PushAll(s, xs, capacity) == LastN(s + xs, capacity)
    decreases |xs|
  {
    if xs == [] {
      assert s + xs == s;
    } else {
      var init, x := xs[..|xs| - 1], xs[|xs| - 1];
      assert xs == init + [x];
      calc {
        PushAll(s, xs, capacity);
        PushBack(PushAll(s, init, capacity), x, capacity);
        { PushAllIsLastN(s, init, capacity); }
        PushBack(LastN(s + init, capacity), x, capacity);
        { PushBackLastN(s + init, x, capacity); }
        LastN(s + init + [x], capacity);
        { assert s + init + [x] == s + xs; }
        LastN(s + xs, capacity);
      }
    }
  }

  /** From an empty buffer, k appends leave exactly the last min(k, capacity)
      items pushed, oldest first. */
  lemma PushAllFromEmpty<T>(xs: seq<T>, capacity: nat)
    requires 0 < capacity
    ensures PushAll([], xs, capacity) == xs[|xs| - Min(|xs|, capacity)..]
  {
    var empty: seq<T> := [];
    PushAllIsLastN(empty, xs, capacity);
    EmptyConcat(xs);
    LastNIsSuffix(xs, capacity);
  }

  lemma EmptyConcat<T>(xs: seq<T>)
    ensures [] + xs == xs
  {
  }

  lemma LastNIsSuffix<T>(s: seq<T>, n: nat)
    ensures LastN(s, n) == s[|s| - Min(|s|, n)..]
  {
    if |s| <= n {
      assert s[0..] == s;
    }
  }

  /** A window of consecutive lines `lines[a..p]` extended by `lines[p..q]`
      is again a window of consecutive lines, ending at `q`. */
  lemma WindowAdvance<T>(lines: seq<T>, a: nat, p: nat, q: nat, capacity: nat)
    requires 0 < capacity && a <= p <= q <= |lines| && p - a <= capacity
    ensures PushAll(lines[a..p], lines[p..q], capacity) == lines[q - Min(q - a, capacity)..q]
  {
    PushAllIsLastN(lines[a..p], lines[p..q], capacity);
    assert lines[a..p] + lines[p..q] == lines[a..q];
  }

  /** The n elements of `lines` just before index `end`, oldest first. */
  ghost function LastLines<T>(lines: seq<T>, end: nat, n: nat): (r: seq<T>)
    requires n <= end <= |lines|
    ensures |r| == n
  {
    if n == 0 then [] else LastLines(lines, end - 1, n - 1) + [lines[end - 1]]
  }

  lemma {:induction false} LastLinesIsSlice<T>(lines: seq<T>, end: nat, n: nat)
    requires n <= end <= |lines|
    ensures LastLines(lines, end, n) == lines[end - n..end]
  {
    if n > 0 {
      LastLinesIsSlice(lines, end - 1, n - 1);
      assert lines[end - n..end] == lines[end - n..end - 1] + [lines[end - 1]];
    }
  }

  /** Appending the next line to a window of the last `c` lines before `p`
      gives the window of the last Min(c + 1, capacity) lines before p + 1. */
  lemma WindowStep<T>(lines: seq<T>, p: nat, c: nat, capacity: nat)
    requires 0 < capacity && c <= capacity && c <= p < |lines|
    ensures PushBack(lines[p - c..p], lines[p], capacity) == lines[p + 1 - Min(c + 1, capacity)..p + 1]
  {
    var r := PushBack(lines[p - c..p], lines[p], capacity);
    var w := lines[p + 1 - Min(c + 1, capacity)..p + 1];
    assert |r| == |w|;
    forall i | 0 <= i < |r|
      ensures r[i] == w[i]
    {
      if i < |r| - 1 {
        assert r[i] == lines[p - c..p][i + c + 1 - |r|];
      }
    }
  }

  // ---------------------------------------------------------------------
  // Slot arithmetic: logical index i lives in slot (i + offset) % n

  /** The array slot of logical index i. */
  function Slot(i: int, offset: int, capacity: nat): (r: int)
    requires capacity > 0
    ensures 0 <= r < capacity
  {
    (i + offset) % capacity
  }

  lemma MulBounds(k: int, n: int)
    requires n > 0
    ensures k >= 1 ==> k * n >= n
    ensures k <= -1 ==> k * n <= -n
  {
  }

  /** Quotient and remainder are unique. */
  lemma DivModUnique(x: int, n: int, q: int, r: int)
    requires n > 0 && x == q * n + r && 0 <= r < n
    ensures x / n == q && x % n == r
  {
    var q', r' := x / n, x % n;
    assert (q - q') * n == r' - r;
    MulBounds(q - q', n);
  }

  lemma SlotOfSmallIndex(i: int, n: int)
    requires 0 <= i < n
    ensures i % n == i
  {
    DivModUnique(i, n, 0, i);
  }

  /** Adding the capacity does not change the slot. */
  lemma SlotWrap(x: int, n: int)
    requires n > 0
    ensures (x + n) % n == x % n
  {
    DivModUnique(x + n, n, x / n + 1, x % n);
  }

  /** Moving the offset back by one slot (wrapping below zero) moves every
      logical index below n - 1 up by one, clear of the slot of index n - 1. */
  lemma SlotShiftBack(offset: int, start: int, n: int, i: int)
    requires 0 <= offset && start == (if offset == 0 then n - 1 else offset - 1)
    requires 0 <= i < n - 1
    ensures Slot(i + 1, start, n) == Slot(i, offset, n)
    ensures Slot(i, offset, n) != Slot(n - 1, offset, n)
  {
    if offset == 0 {
      assert i + 1 + start == i + n;
      SlotWrap(i, n);
    }
    SlotsDistinct(i, n - 1, offset, n);
  }

  /** Distinct logical indices below the capacity live in distinct slots. */
  lemma SlotsDistinct(a: int, b: int, offset: int, n: int)
    requires 0 <= a < b < n
    ensures (a + offset) % n != (b + offset) % n
  {
    var qa, qb := (a + offset) / n, (b + offset) / n;
    if (a + offset) % n == (b + offset) % n {
      assert (qb - qa) * n == b - a;
      MulBounds(qb - qa, n);
    }
  }
}
