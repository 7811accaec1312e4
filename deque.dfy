/**
  Deque: the same fixed-capacity circular buffer as ObservableDeque, keeping
  the element count in a private field `count` behind the read-only Count.
  Logical index i (0 = oldest) lives in slot (i + offset) % capacity; `offset`
  is unbounded, never reduced modulo the capacity: AddLast increments it at
  capacity, AddFirst decrements it at capacity, Clear resets it to 0, and
  CopyFrom adopts another buffer's. The ghost field Events records the
  notifications.
 */
module Deques {
  import opened RingSpec

  class Deque<T(==,0)> {
    var items: array<T>
    var offset: nat
    var count: nat

    /** The logical contents, oldest first. */
    ghost var Contents: seq<T>
    /** Every notification raised so far, oldest first. */
    ghost var Events: seq<Notification<T>>

    ghost predicate Valid()
      reads this, items
    {
      && count <= items.Length
      && |Contents| == count
      && forall i {:trigger Slot(i, offset, items.Length)} ::
           0 <= i < count ==> Contents[i] == items[Slot(i, offset, items.Length)]
    }

    function Count(): (r: nat)
      reads this, items
      requires Valid()
      ensures r == |Contents|
    {
      count
    }

    constructor (maxCount: nat)
      ensures Valid() && fresh(items)
      ensures items.Length == maxCount && offset == 0 && Contents == [] && Events == []
    {
      items := new T[maxCount];
      offset, count := 0, 0;
      Contents, Events := [], [];
    }

    /** The indexer: the element at logical position `index`. */
    method Item(index: nat) returns (r: T)
      requires Valid() && index < count
      ensures r == Contents[index]
    {
      r := items[Slot(index, offset, items.Length)];
    }

    /** The enumerator: yields the elements oldest first. */
    method Enumerate() returns (s: seq<T>)
      requires Valid()
      ensures s == Contents
    {
      s := [];
      var i := 0;
      while i < count
        invariant 0 <= i <= count
        invariant s == Contents[..i]
      {
        var x := Item(i);
        s := s + [x];
        i := i + 1;
      }
    }

    method AddLast(item: T)
      requires Valid() && items.Length > 0
      modifies this, items
      ensures Valid() && items == old(items)
      ensures Contents == PushBack(old(Contents), item, items.Length)
      ensures count == if old(count) < items.Length then old(count) + 1 else old(count)
      ensures offset == if old(count) < items.Length then old(offset) else old(offset) + 1
      ensures Events == old(Events) + AddLastNotifications(old(Contents), item, items.Length)
    {
      var n := items.Length;
      var slot := Slot(count, offset, n);
      if count == n {
        // at capacity the new element goes into the oldest element's slot
        SlotWrap(offset, n);
        assert slot == Slot(0, offset, n);
      }
      var removed := items[slot];
      items[slot] := item;
      if count == n {
        offset := offset + 1;
        Contents := Contents[1..] + [item];
        Events := Events + [ItemRemoved(removed, 0)];
        forall i | 0 <= i < count
          ensures Contents[i] == items[Slot(i, offset, n)]
        {
          if i < count - 1 {
            SlotsDistinct(0, i + 1, offset - 1, n);
            assert Slot(i, offset, n) == Slot(i + 1, offset - 1, n);
          } else {
            assert Slot(i, offset, n) == Slot(n, offset - 1, n);
          }
        }
      } else {
        count := count + 1;
        Contents := Contents + [item];
        Events := Events + [PropertyChanged(CountProperty)];
        forall i | 0 <= i < count
          ensures Contents[i] == items[Slot(i, offset, n)]
        {
          if i < count - 1 {
            SlotsDistinct(i, count - 1, offset, n);
          }
        }
      }
      Events := Events + [PropertyChanged(IndexerProperty), ItemAdded(item, count - 1)];
    }

    /** AddFirst as written in C#: `item` always goes into the slot just
        before `offset`. At capacity `offset` steps back onto that slot, so this
        is a prepend that evicts the newest element (C# lets `offset`
        go negative here, so the model asks for offset >= 1). Below capacity
        `offset` stays put: count grows, the new last index shows whatever its
        slot holds, and for capacity >= 2 `item` is never at index 0: it shows
        up only when this call fills the buffer, as the newest element (with
        capacity 1 the newest element is also index 0)
        (as for ObservableDeque.AddFirst). */
    method AddFirst(item: T)
      requires Valid() && items.Length > 0
      requires count == items.Length ==> offset >= 1
      modifies this, items
      ensures Valid() && items == old(items)
      ensures items[Slot(items.Length - 1, old(offset), items.Length)] == item
      ensures old(count) == items.Length ==>
        count == old(count) && offset == old(offset) - 1 &&
        Contents == [item] + old(Contents)[..old(count) - 1] &&
        Events == old(Events) + [ItemRemoved(old(Contents)[old(count) - 1], old(count) - 1),
                                 PropertyChanged(IndexerProperty), ItemAdded(item, 0)]
      ensures old(count) < items.Length ==>
        count == old(count) + 1 && offset == old(offset) &&
        Contents == old(Contents) + [items[Slot(old(count), offset, items.Length)]] &&
        Events == old(Events) + [PropertyChanged(CountProperty),
                                 PropertyChanged(IndexerProperty), ItemAdded(item, 0)]
    {
      var n := items.Length;
      var slot := Slot(n - 1, offset, n);
      var removed := items[slot];
      items[slot] := item;
      ghost var before := Contents;
      if count == n {
        offset := offset - 1;
        Contents := [item] + Contents[..count - 1];
        Events := Events + [ItemRemoved(removed, count - 1)];
        assert removed == before[n - 1];
        forall i | 0 <= i < count
          ensures Contents[i] == items[Slot(i, offset, n)]
        {
          if i == 0 {
            SlotWrap(offset, n);
            assert Slot(0, offset, n) == slot;
          } else {
            SlotsDistinct(i - 1, n - 1, offset + 1, n);
            assert Slot(i, offset, n) == Slot(i - 1, offset + 1, n);
          }
        }
      } else {
        count := count + 1;
        Contents := Contents + [items[Slot(count - 1, offset, n)]];
        Events := Events + [PropertyChanged(CountProperty)];
        forall i | 0 <= i < count - 1
          ensures Contents[i] == items[Slot(i, offset, n)]
        {
          SlotsDistinct(i, n - 1, offset, n);
        }
      }
      Events := Events + [PropertyChanged(IndexerProperty), ItemAdded(item, 0)];
    }

    method Clear()
      requires Valid()
      modifies this, items
      ensures Valid() && items == old(items)
      ensures count == 0 && offset == 0 && Contents == []
      ensures forall j :: 0 <= j < items.Length ==> items[j] == items[0]
      ensures Events == old(Events) + ClearNotifications(old(count))
    {
      // Array.Clear writes default(T) into every slot; the model does not
      // pin that value down, only that every slot receives the same one
      var blank: T := *;
      forall j | 0 <= j < items.Length {
        items[j] := blank;
      }
      offset := 0;
      if count > 0 {
        Events := Events + ClearNotifications(count);
        count := 0;
        Contents := [];
      }
    }

    /** A compacted copy in fresh storage: same capacity and contents, laid out
        from slot 0. */
    method Clone() returns (c: Deque<T>)
      requires Valid()
      ensures fresh(c) && fresh(c.items) && c.Valid()
      ensures c.items.Length == items.Length && c.offset == 0 && c.count == count
      ensures c.Contents == Contents && c.Events == []
    {
      c := new Deque<T>(items.Length);
      var copy := c.items;
      var i := 0;
      while i < count
        invariant 0 <= i <= count
        invariant copy[..i] == Contents[..i]
        modifies copy
      {
        copy[i] := Item(i);
        i := i + 1;
      }
      c.count := count;
      c.Contents := Contents;
      forall j | 0 <= j < count
        ensures c.Contents[j] == copy[Slot(j, c.offset, copy.Length)]
      {
        SlotOfSmallIndex(j, copy.Length);
        assert copy[..i][j] == Contents[..i][j];
      }
    }

    /** Adopts another buffer's storage: the array itself is shared, not copied. */
    method CopyFrom(src: Deque<T>)
      requires src.Valid()
      modifies this
      ensures Valid()
      ensures items == src.items && offset == src.offset && count == src.count
      ensures Contents == src.Contents
      ensures Events == old(Events) + CopyFromNotifications()
    {
      items := src.items;
      offset := src.offset;
      count := src.count;
      Contents := src.Contents;
      Events := Events + CopyFromNotifications();
    }

    /** ICollection.Contains: a linear search with the default equality. */
    method Contains(item: T) returns (found: bool)
      requires Valid()
      ensures found <==> item in Contents
    {
      var i := 0;
      while i < count
        invariant 0 <= i <= count
        invariant item !in Contents[..i]
      {
        var x := Item(i);
        if x == item {
          return true;
        }
        i := i + 1;
      }
      return false;
    }

    /** ICollection.CopyTo: writes the elements, oldest first, from `arrayIndex` on. */
    method CopyTo(a: array<T>, arrayIndex: nat)
      requires Valid() && a != items && arrayIndex + count <= a.Length
      modifies a
      ensures a[arrayIndex..arrayIndex + count] == Contents
      ensures a[..arrayIndex] == old(a[..arrayIndex])
      ensures a[arrayIndex + count..] == old(a[arrayIndex + count..])
    {
      var i := 0;
      while i < count
        invariant 0 <= i <= count
        invariant a[arrayIndex..arrayIndex + i] == Contents[..i]
        invariant a[..arrayIndex] == old(a[..arrayIndex])
        invariant a[arrayIndex + count..] == old(a[arrayIndex + count..])
      {
        a[arrayIndex + i] := Item(i);
        i := i + 1;
      }
    }

    /** ICollection.Add is AddLast. */
    method Add(item: T)
      requires Valid() && items.Length > 0
      modifies this, items
      ensures Valid() && items == old(items)
      ensures Contents == PushBack(old(Contents), item, items.Length)
      ensures count == if old(count) < items.Length then old(count) + 1 else old(count)
      ensures offset == if old(count) < items.Length then old(offset) else old(offset) + 1
      ensures Events == old(Events) + AddLastNotifications(old(Contents), item, items.Length)
    {
      AddLast(item);
    }

    /** ICollection.Remove is not supported: it reports failure and changes nothing. */
    method Remove(item: T) returns (removed: bool)
      requires Valid()
      ensures !removed
    {
      removed := false;
    }
  }
}
