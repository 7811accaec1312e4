/**
  ObservableDeque: the fixed-capacity circular buffer that holds the window of
  lines. Logical index i (0 = oldest) lives in slot (i + offset) % capacity;
  `offset` is unbounded, never reduced modulo the capacity: AddLast increments
  it at capacity, AddFirst decrements it at capacity, Clear resets it to 0,
  and CopyFrom adopts another buffer's. Every change is
  reported through a notification; the ghost field Events records them in order.
 */
module ObservableDeques {
  import opened RingSpec

  class ObservableDeque<T(==,0)> {
    var items: array<T>
    var offset: nat
    var Count: nat

    /** The logical contents, oldest first. */
    ghost var Contents: seq<T>
    /** Every notification raised so far, oldest first. */
    ghost var Events: seq<Notification<T>>

    ghost predicate Valid()
      reads this, items
    {
      && Count <= items.Length
      && |Contents| == Count
      && forall i {:trigger Slot(i, offset, items.Length)} ::
           0 <= i < Count ==> Contents[i] == items[Slot(i, offset, items.Length)]
    }

    constructor (maxCount: nat)
      ensures Valid() && fresh(items)
      ensures items.Length == maxCount && offset == 0 && Contents == [] && Events == []
    {
      items := new T[maxCount];
      offset, Count := 0, 0;
      Contents, Events := [], [];
    }

    /** The indexer: the element at logical position `index`. */
    method Item(index: nat) returns (r: T)
      requires Valid() && index < Count
      ensures r == Contents[index]
    {
      r := items[Slot(index, offset, items.Length)];
    }

    /** The enumerator: yields the elements oldest first. */
    method Enumerate() returns (s: seq<T>)
      requires Valid()
      ensures s == Contents
    {
      s := [];
      var i := 0;
      while i < Count
        invariant 0 <= i <= Count
        invariant s == Contents[..i]
      {
        var x := Item(i);
        s := s + [x];
        i := i + 1;
      }
    }

    method AddLast(item: T)
      requires Valid() && items.Length > 0
      modifies this, items
      ensures Valid() && items == old(items)
      ensures Contents == PushBack(old(Contents), item, items.Length)
      ensures Count == if old(Count) < items.Length then old(Count) + 1 else old(Count)
      ensures offset == if old(Count) < items.Length then old(offset) else old(offset) + 1
      ensures Events == old(Events) + AddLastNotifications(old(Contents), item, items.Length)
    {
      var n := items.Length;
      var slot := Slot(Count, offset, n);
      if Count == n {
        // at capacity the new element goes into the oldest element's slot
        SlotWrap(offset, n);
        assert slot == Slot(0, offset, n);
      }
      var removed := items[slot];
      items[slot] := item;
      if Count == n {
        offset := offset + 1;
        Contents := Contents[1..] + [item];
        Events := Events + [ItemRemoved(removed, 0)];
        forall i | 0 <= i < Count
          ensures Contents[i] == items[Slot(i, offset, n)]
        {
          if i < Count - 1 {
            SlotsDistinct(0, i + 1, offset - 1, n);
            assert Slot(i, offset, n) == Slot(i + 1, offset - 1, n);
          } else {
            assert Slot(i, offset, n) == Slot(n, offset - 1, n);
          }
        }
      } else {
        Count := Count + 1;
        Contents := Contents + [item];
        Events := Events + [PropertyChanged(CountProperty)];
        forall i | 0 <= i < Count
          ensures Contents[i] == items[Slot(i, offset, n)]
        {
          if i < Count - 1 {
            SlotsDistinct(i, Count - 1, offset, n);
          }
        }
      }
      Events := Events + [PropertyChanged(IndexerProperty), ItemAdded(item, Count - 1)];
    }

    /** AddFirst as written in C#: `item` always goes into the slot just
        before `offset`. At capacity `offset` steps back onto that slot, so this
        is a prepend that evicts the newest element (C# lets `offset`
        go negative here, so the model asks for offset >= 1). Below capacity
        `offset` stays put: Count grows, the new last index shows whatever its
        slot holds, and for capacity >= 2 `item` is never at index 0: it shows
        up only when this call fills the buffer, as the newest element (with
        capacity 1 the newest element is also index 0)
        (AddFirstMisplacesItem). */
    method AddFirst(item: T)
      requires Valid() && items.Length > 0
      requires Count == items.Length ==> offset >= 1
      modifies this, items
      ensures Valid() && items == old(items)
      ensures (offset, Count) == AddFirstFields(old(offset), old(Count), items.Length)
      ensures items[Slot(items.Length - 1, old(offset), items.Length)] == item
      ensures old(Count) == items.Length ==>
        Count == old(Count) && offset == old(offset) - 1 &&
        Contents == [item] + old(Contents)[..old(Count) - 1] &&
        Events == old(Events) + [ItemRemoved(old(Contents)[old(Count) - 1], old(Count) - 1),
                                 PropertyChanged(IndexerProperty), ItemAdded(item, 0)]
      ensures old(Count) < items.Length ==>
        Count == old(Count) + 1 && offset == old(offset) &&
        Contents == old(Contents) + [items[Slot(old(Count), offset, items.Length)]] &&
        Events == old(Events) + [PropertyChanged(CountProperty),
                                 PropertyChanged(IndexerProperty), ItemAdded(item, 0)]
    {
      var n := items.Length;
      var slot := Slot(n - 1, offset, n);
      var removed := items[slot];
      items[slot] := item;
      ghost var before := Contents;
      if Count == n {
        offset := offset - 1;
        Contents := [item] + Contents[..Count - 1];
        Events := Events + [ItemRemoved(removed, Count - 1)];
        assert removed == before[n - 1];
        forall i | 0 <= i < Count
          ensures Contents[i] == items[Slot(i, offset, n)]
        {
          if i == 0 {
            SlotWrap(offset, n);
            assert Slot(0, offset, n) == slot;
          } else {
            SlotsDistinct(i - 1, n - 1, offset + 1, n);
            assert Slot(i, offset, n) == Slot(i - 1, offset + 1, n);
          }
        }
      } else {
        Count := Count + 1;
        Contents := Contents + [items[Slot(Count - 1, offset, n)]];
        Events := Events + [PropertyChanged(CountProperty)];
        forall i | 0 <= i < Count - 1
          ensures Contents[i] == items[Slot(i, offset, n)]
        {
          SlotsDistinct(i, n - 1, offset, n);
        }
      }
      Events := Events + [PropertyChanged(IndexerProperty), ItemAdded(item, 0)];
    }

    /** The prepend AddFirst evidently intends: `offset` steps back one slot
        (wrapping), `item` goes into the slot that becomes index 0, and at
        capacity that slot is the newest element's, which is evicted. */
    method AddFirstCorrected(item: T)
      requires Valid() && items.Length > 0
      modifies this, items
      ensures Valid() && items == old(items)
      ensures Contents == PushFront(old(Contents), item, items.Length)
      ensures Contents[0] == item
      ensures Events == old(Events) +
        (if old(Count) == items.Length
         then [ItemRemoved(old(Contents)[old(Count) - 1], old(Count) - 1)]
         else [PropertyChanged(CountProperty)])
        + [PropertyChanged(IndexerProperty), ItemAdded(item, 0)]
    {
      var n := items.Length;
      var start := if offset == 0 then n - 1 else offset - 1;
      // the slot of old logical index n - 1, which is index 0 once offset is `start`
      assert Slot(0, start, n) == Slot(n - 1, offset, n) by {
        if offset == 0 { } else { SlotWrap(offset - 1, n); assert n - 1 + offset == (offset - 1) + n; }
      }
      var slot := Slot(0, start, n);
      var removed := items[slot];
      items[slot] := item;
      ghost var before := Contents;
      offset := start;
      if Count == n {
        Contents := [item] + Contents[..Count - 1];
        Events := Events + [ItemRemoved(removed, Count - 1)];
        assert removed == before[n - 1];
      } else {
        Count := Count + 1;
        Contents := [item] + Contents;
        Events := Events + [PropertyChanged(CountProperty)];
      }
      forall i | 0 <= i < Count
        ensures Contents[i] == items[Slot(i, offset, n)]
      {
        // index i > 0 now lives where old index i - 1 lived
        if i > 0 {
          SlotShiftBack(old(offset), offset, n, i - 1);
        }
      }
      Events := Events + [PropertyChanged(IndexerProperty), ItemAdded(item, 0)];
    }

    method Clear()
      requires Valid()
      modifies this, items
      ensures Valid() && items == old(items)
      ensures Count == 0 && offset == 0 && Contents == []
      ensures forall j :: 0 <= j < items.Length ==> items[j] == items[0]
      ensures Events == old(Events) + ClearNotifications(old(Count))
    {
      // Array.Clear writes default(T) into every slot; the model does not
      // pin that value down, only that every slot receives the same one
      var blank: T := *;
      forall j | 0 <= j < items.Length {
        items[j] := blank;
      }
      offset := 0;
      if Count > 0 {
        Events := Events + ClearNotifications(Count);
        Count := 0;
        Contents := [];
      }
    }

    /** A compacted copy in fresh storage: same capacity and contents, laid out
        from slot 0. */
    method Clone() returns (c: ObservableDeque<T>)
      requires Valid()
      ensures fresh(c) && fresh(c.items) && c.Valid()
      ensures c.items.Length == items.Length && c.offset == 0 && c.Count == Count
      ensures c.Contents == Contents && c.Events == []
    {
      c := new ObservableDeque<T>(items.Length);
      var copy := c.items;
      var i := 0;
      while i < Count
        invariant 0 <= i <= Count
        invariant copy[..i] == Contents[..i]
        modifies copy
      {
        copy[i] := Item(i);
        i := i + 1;
      }
      c.Count := Count;
      c.Contents := Contents;
      forall j | 0 <= j < Count
        ensures c.Contents[j] == copy[Slot(j, c.offset, copy.Length)]
      {
        SlotOfSmallIndex(j, copy.Length);
        assert copy[..i][j] == Contents[..i][j];
      }
    }

    /** Adopts another buffer's storage: the array itself is shared, not copied. */
    method CopyFrom(src: ObservableDeque<T>)
      requires src.Valid()
      modifies this
      ensures Valid()
      ensures items == src.items && offset == src.offset && Count == src.Count
      ensures Contents == src.Contents
      ensures Events == old(Events) + CopyFromNotifications()
    {
      items := src.items;
      offset := src.offset;
      Count := src.Count;
      Contents := src.Contents;
      Events := Events + CopyFromNotifications();
    }

    /** ICollection.Contains: a linear search with the default equality. */
    method Contains(item: T) returns (found: bool)
      requires Valid()
      ensures found <==> item in Contents
    {
      var i := 0;
      while i < Count
        invariant 0 <= i <= Count
        invariant item !in Contents[..i]
      {
        var x := Item(i);
        if x == item {
          return true;
        }
        i := i + 1;
      }
      return false;
    }

    /** ICollection.CopyTo: writes the elements, oldest first, from `arrayIndex` on. */
    method CopyTo(a: array<T>, arrayIndex: nat)
      requires Valid() && a != items && arrayIndex + Count <= a.Length
      modifies a
      ensures a[arrayIndex..arrayIndex + Count] == Contents
      ensures a[..arrayIndex] == old(a[..arrayIndex])
      ensures a[arrayIndex + Count..] == old(a[arrayIndex + Count..])
    {
      var i := 0;
      while i < Count
        invariant 0 <= i <= Count
        invariant a[arrayIndex..arrayIndex + i] == Contents[..i]
        invariant a[..arrayIndex] == old(a[..arrayIndex])
        invariant a[arrayIndex + Count..] == old(a[arrayIndex + Count..])
      {
        a[arrayIndex + i] := Item(i);
        i := i + 1;
      }
    }

    /** ICollection.Add is AddLast. */
    method Add(item: T)
      requires Valid() && items.Length > 0
      modifies this, items
      ensures Valid() && items == old(items)
      ensures Contents == PushBack(old(Contents), item, items.Length)
      ensures Count == if old(Count) < items.Length then old(Count) + 1 else old(Count)
      ensures offset == if old(Count) < items.Length then old(offset) else old(offset) + 1
      ensures Events == old(Events) + AddLastNotifications(old(Contents), item, items.Length)
    {
      AddLast(item);
    }

    /** ICollection.Remove is not supported: it reports failure and changes nothing. */
    method Remove(item: T) returns (removed: bool)
      requires Valid()
      ensures !removed
    {
      removed := false;
    }
  }

  /** The indexer's slot as C# computes `(index + offset) % items.Length`:
      `%` truncates toward zero, so a negative left operand gives a slot at
      or below zero. For a non-negative sum it is the model's Slot. */
  function CSharpSlot(index: int, offset: int, capacity: nat): (r: int)
    requires capacity > 0
    ensures index + offset >= 0 ==> r == Slot(index, offset, capacity) && 0 <= r < capacity
    ensures index + offset < 0 ==> r <= 0 && r + capacity > 0
  {
    if index + offset >= 0 then (index + offset) % capacity
    else -((-(index + offset)) % capacity)
  }

  /** The new (offset, Count) of AddFirst as written in C#, on an int offset:
      at capacity the offset is decremented with no wrap, below it Count grows. */
  function AddFirstFields(offset: int, count: nat, capacity: nat): (r: (int, nat))
    requires count <= capacity
    ensures r.1 <= capacity && r.0 <= offset
    ensures count == capacity <==> r.0 == offset - 1
  {
    if count == capacity then (offset - 1, count) else (offset, count + 1)
  }

  /** AddFirst on a full buffer of capacity n >= 2 that has never evicted
      (offset 0) leaves offset -1, and the indexer then computes slot -1 for
      index 0, outside the array. AddFirstCorrected's offset gives index 0 the
      last slot instead. */
  lemma AddFirstOffsetGoesNegative(n: nat)
    requires n >= 2
    ensures AddFirstFields(0, n, n) == (-1, n)
    ensures CSharpSlot(0, AddFirstFields(0, n, n).0, n) == -1
    ensures Slot(0, n - 1, n) == n - 1
  {
    SlotOfSmallIndex(1, n);
    SlotOfSmallIndex(n - 1, n);
  }

  /** The start state of AddFirstOffsetGoesNegative is reachable: on a buffer
      of capacity 2, AddLast("a") and AddLast("b") fill it without evicting, so
      offset is still 0, and the as-written AddFirst would then take offset
      to -1. */
  method FullWithOffsetZeroReachable() returns (offset: int, count: nat)
    ensures offset == 0 && count == 2
    ensures AddFirstFields(offset, count, 2) == (-1, 2)
  {
    var d := new ObservableDeque<string>(2);
    d.AddLast("a");
    d.AddLast("b");
    offset, count := d.offset, d.Count;
  }

  /** Below capacity, AddFirst leaves the old oldest element at index 0:
      a buffer of capacity 3 holding "p" still shows "p" first after AddFirst("x"). */
  method AddFirstMisplacesItem() returns (first: string, count: nat)
    ensures count == 2 && first == "p"
  {
    var d := new ObservableDeque<string>(3);
    d.AddLast("p");
    d.AddFirst("x");
    first := d.Item(0);
    count := d.Count;
  }

  /** With the corrected prepend, the same calls show "x" first. */
  method AddFirstCorrectedPrepends() returns (first: string, count: nat)
    ensures count == 2 && first == "x"
  {
    var d := new ObservableDeque<string>(3);
    d.AddLast("p");
    d.AddFirstCorrected("x");
    first := d.Item(0);
    count := d.Count;
  }
}
