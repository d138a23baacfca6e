/**
 * The fixed-capacity min-heap object: a backing array of `capacity` entries
 * of which the first `size` are live. `Insert` and `RemoveMin` update the
 * array and the size in place; `UpdateKey`, `UpdateValue`, `Swap`, `BubbleUp`
 * and `BubbleDown` change only the array; `FindKeyIndex`, `FindKey` and
 * `Size` change nothing. Each operation is proved against the value-level
 * definitions of module HeapSpec; heap order of the live prefix is part of the object
 * invariant `Valid()`.
 */
module Heap {
  import opened HeapSpec

  class MinHeap {
    /** Number of slots in the backing array, fixed at creation. */
    const capacity: nat
    /** The backing array; slots `[0, size)` are live. */
    const data: array<Entry>
    /** Number of live entries. */
    var size: nat

    /** The layout invariant: the array has `capacity` slots and `size` fits. */
    ghost predicate Shape()
      reads this
    {
      data.Length == capacity && size <= capacity
    }

    /** The object invariant: layout plus heap order of the live entries. */
    ghost predicate Valid()
      reads this, data
    {
      Shape() && HeapOrdered(data[..size])
    }

    /** The live entries, in storage order. */
    ghost function Contents(): seq<Entry>
      reads this, data
      requires Shape()
    {
      data[..size]
    }

    /** Creation: an empty heap whose array holds exactly `capacity` entries.
        A non-positive capacity is a caller error. */
    constructor (capacity: nat)
      requires capacity > 0
      ensures Valid() && fresh(data)
      ensures this.capacity == capacity && size == 0 && Contents() == []
    {
      this.capacity := capacity;
      data := new Entry[capacity];
      size := 0;
    }

    /** The number of live entries. */
    function Size(): (n: nat)
      reads this, data
      requires Valid()
      ensures n == |Contents()| && n <= capacity
    {
      size
    }

    /** Exchanges the entries in slots `i` and `j`. */
    method Swap(i: nat, j: nat)
      requires i < data.Length && j < data.Length
      modifies data
      ensures data[..] == Swapped(old(data[..]), i, j)
    {
      var temp := data[i];
      data[i] := data[j];
      data[j] := temp;
    }

    /** Moves the entry at `index` towards the root while its parent's key is
        strictly greater. The entries are only permuted; when the live prefix
        satisfied `UpReady` at `index` (ordered except between `index` and
        its parent, with that parent no larger than `index`'s children), it
        ends in a heap. */
    method BubbleUp(index: nat)
      requires Shape() && index < size
      modifies data
      ensures Contents() == SiftUp(old(Contents()), index)
      ensures multiset(Contents()) == old(multiset(Contents()))
      ensures data[size..] == old(data[size..])
      ensures UpReady(old(Contents()), index) ==> Valid()
    {
      if UpReady(Contents(), index) {
        SiftUpOrders(Contents(), index);
      }
      var k: nat := index;
      while k > 0 && data[Parent(k)].key > data[k].key
        invariant k < size
        invariant SiftUp(data[..size], k) == SiftUp(old(data[..size]), index)
        invariant data[size..] == old(data[size..])
        decreases k
      {
        var parent := Parent(k);
        ghost var before := data[..];
        Swap(parent, k);
        SwappedPrefix(before, size, parent, k);
        k := parent;
      }
    }

    /** Moves the entry at `index` towards the leaves, each time swapping it
        with the smaller live child when that child's key is strictly smaller
        (the left child on a tie). The entries are only permuted; when the live
        prefix satisfied `DownReady` at `index` (ordered except between
        `index` and its children, with `index`'s parent no larger than those
        children), it ends in a heap. */
    method BubbleDown(index: nat)
      requires Shape()
      modifies data
      ensures Contents() == SiftDown(old(Contents()), index)
      ensures multiset(Contents()) == old(multiset(Contents()))
      ensures data[size..] == old(data[size..])
      ensures DownReady(old(Contents()), index) ==> Valid()
    {
      if DownReady(Contents(), index) {
        SiftDownOrders(Contents(), index);
      }
      var k: nat := index;
      while true
        invariant SiftDown(data[..size], k) == SiftDown(old(data[..size]), index)
        invariant data[size..] == old(data[size..])
        decreases size - k
      {
        var minIndex := k;
        var left, right := Left(k), Right(k);
        if left < size && data[left].key < data[minIndex].key {
          minIndex := left;
        }
        if right < size && data[right].key < data[minIndex].key {
          minIndex := right;
        }
        assert minIndex == MinIndex(data[..size], k);
        if minIndex == k {
          break;
        }
        ghost var before := data[..];
        Swap(k, minIndex);
        SwappedPrefix(before, size, k, minIndex);
        k := minIndex;
      }
    }

    /** Adds `(key, value)`. A full heap silently drops the entry and is left
        unchanged; otherwise the entry is placed after the last live one and
        bubbled up. */
    method Insert(key: int, value: int)
      requires Valid()
      modifies this`size, data
      ensures Valid()
      ensures old(size) == capacity ==> size == old(size) && data[..] == old(data[..])
      ensures old(size) < capacity ==> size == old(size) + 1
      ensures old(size) < capacity ==>
                Contents() == SiftUp(old(Contents()) + [Entry(key, value)], old(size))
      ensures multiset(Contents()) ==
                if old(size) == capacity then old(multiset(Contents()))
                else old(multiset(Contents())) + multiset{Entry(key, value)}
      ensures data[size..] == old(data[..])[size..]
    {
      if size == capacity {
        return;
      }
      data[size] := Entry(key, value);
      size := size + 1;
      assert data[..size] == old(Contents()) + [Entry(key, value)];
      AppendUpReady(old(Contents()), Entry(key, value));
      BubbleUp(size - 1);
    }

    /** Removes an entry with the smallest key and returns its value, or
        returns `KeyNotPresent` and changes nothing when the heap is empty.
        The last live entry moves to the root and is bubbled down. */
    method RemoveMin() returns (min: int)
      requires Valid()
      modifies this`size, data
      ensures Valid()
      ensures old(size) == 0 ==> min == KeyNotPresent && size == 0 && data[..] == old(data[..])
      ensures old(size) > 0 ==> min == old(data[0]).value && size == old(size) - 1
      ensures old(size) > 0 ==> forall e :: e in old(Contents()) ==> old(data[0]).key <= e.key
      ensures old(size) > 0 ==>
                multiset(Contents()) == old(multiset(Contents())) - multiset{old(data[0])}
      ensures old(size) > 0 ==> forall e :: e in Contents() ==> old(data[0]).key <= e.key
      ensures old(size) > 0 ==> Contents() == SiftDown(DropRoot(old(Contents())), 0)
      ensures data[size..] == old(data[..])[size..]
    {
      if size == 0 {
        return KeyNotPresent;
      }
      ghost var s, a := Contents(), data[..];
      ExtractionStep(s);
      min := data[0].value;
      size := size - 1;
      data[0] := data[size];
      assert data[..] == a[0 := a[size]];
      DropRootPrefix(a, size + 1);
      BubbleDown(0);
    }

    /** The first live slot, in storage order, whose key is `aKey`, or
        `KeyNotPresent`. Changes nothing. */
    method FindKeyIndex(aKey: int) returns (ix: int)
      requires Valid()
      ensures ix == FirstMatch(Contents(), aKey)
    {
      for i := 0 to size
        invariant forall j :: 0 <= j < i ==> data[j].key != aKey
      {
        if data[i].key == aKey {
          return i;
        }
      }
      return KeyNotPresent;
    }

    /** The value of the first live entry, in storage order, whose key is
        `aKey`, or `KeyNotPresent`. Changes nothing.
        Only the scan path is modelled, not the process-wide key cache. In
        the C code a key present in the cache is answered from it without a
        scan; insertion caches every key in [0, 1000) with the inserted
        value, so that answer is the value written last for the key, which
        with duplicate keys or after an extraction or a key update can differ
        from the first match returned here. The lookup by index stores the
        slot index, not the value, into that cache. */
    method FindKey(aKey: int) returns (value: int)
      requires Valid()
      ensures var ix := FirstMatch(Contents(), aKey);
              value == if ix == KeyNotPresent then KeyNotPresent else Contents()[ix].value
    {
      var index := FindKeyIndex(aKey);
      if index == KeyNotPresent {
        return KeyNotPresent;
      }
      return data[index].value;
    }

    /** Gives the first live entry (storage order) with key `oldKey` the key
        `newKey`, keeping its value, and repairs heap order: bubbling down when
        the key grew, bubbling up otherwise (also when it is unchanged).
        Nothing changes when no live entry has key `oldKey`. */
    method UpdateKey(oldKey: int, newKey: int)
      requires Valid()
      modifies data
      ensures Valid()
      ensures FirstMatch(old(Contents()), oldKey) == KeyNotPresent ==> data[..] == old(data[..])
      ensures var ix := FirstMatch(old(Contents()), oldKey);
              ix != KeyNotPresent ==>
                Contents() == if newKey > oldKey
                              then SiftDown(Rekeyed(old(Contents()), ix, newKey), ix)
                              else SiftUp(Rekeyed(old(Contents()), ix, newKey), ix)
      ensures var ix := FirstMatch(old(Contents()), oldKey);
              ix != KeyNotPresent ==>
                multiset(Contents()) == old(multiset(Contents())) - multiset{old(Contents())[ix]}
                                        + multiset{Entry(newKey, old(Contents())[ix].value)}
      ensures data[size..] == old(data[size..])
    {
      ghost var s0 := data[..];
      for i := 0 to size
        invariant forall j :: 0 <= j < i ==> data[j].key != oldKey
        invariant data[..] == old(data[..])
      {
        if data[i].key == oldKey {
          ghost var s := data[..size];
          assert FirstMatch(s, oldKey) == i;
          data[i] := data[i].(key := newKey);
          assert data[..size] == Rekeyed(s, i, newKey);
          assert data[size..] == s0[size..];
          if newKey > oldKey {
            RaiseKeyDownReady(s, i, newKey);
            BubbleDown(i);
          } else {
            LowerKeyUpReady(s, i, newKey);
            BubbleUp(i);
          }
          return;
        }
      }
      assert FirstMatch(data[..size], oldKey) == KeyNotPresent;
    }

    /** Replaces the value of the first live entry (storage order) with key
        `key`; keys, positions and size stay as they are. Nothing changes when
        no live entry has that key. */
    method UpdateValue(key: int, newValue: int)
      requires Valid()
      modifies data
      ensures Valid()
      ensures var ix := FirstMatch(old(Contents()), key);
              data[..] == if ix == KeyNotPresent then old(data[..])
                           else old(data[..])[ix := Entry(key, newValue)]
    {
      for i := 0 to size
        invariant forall j :: 0 <= j < i ==> data[j].key != key
        invariant data[..] == old(data[..])
      {
        if data[i].key == key {
          RevaluedOrdered(data[..size], i, newValue);
          data[i] := data[i].(value := newValue);
          assert data[..size] == old(data[..size])[i := Entry(key, newValue)];
          return;
        }
      }
    }
  }
}
