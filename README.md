# Fixed-capacity binary min-heap of (key, value) entries

This project models the C min-heap in `heap.c` / `heap.h`: a heap object
(`heap_t`) owning an array of `capacity` entries (`heap_node_t`, a signed
64-bit key with a signed 64-bit value) of which the first `size` are live,
arranged as an implicit binary tree (`parent(i) = (i-1)/2`,
`left(i) = 2i+1`, `right(i) = 2i+2`) in min-heap order. The public
operations are insertion (silently dropped when full), extraction of the
minimum (returning the sentinel `KEY_NOT_PRESENT = -1` when empty), lookup of
the first entry with a key in storage order, and in-place key or value updates
of that entry followed by a one-directional repair.

Layout:

- `heapspec.dfy`, module `HeapSpec`: the `Entry` datatype, the sentinel, the
  index arithmetic, and the repair routines, the extraction step and the
  first-match lookup as functions on the live prefix (`seq<Entry>`). It also
  holds the lemmas that sift-up and sift-down turn the "almost heap" states
  (`UpReady`, `DownReady`) into heaps (`HeapOrdered`), that the root is a
  minimum, and that extracting everything yields the entries sorted by key.
- `heap.dfy`, module `Heap`: class `MinHeap` with `capacity`, the backing
  `data: array<Entry>` and the mutable `size`. `Valid()` is layout plus heap
  order of `data[..size]`. `Insert` and `RemoveMin` change the array and
  `size` in place; `UpdateKey`, `UpdateValue`, `Swap`, `BubbleUp` and
  `BubbleDown` change only the array; `FindKeyIndex`, `FindKey` and `Size`
  change nothing. Each method is proved against the `HeapSpec` functions, and the heap-order and
  multiset lemmas are applied inside it. The two recursive repair routines
  are tail recursive in C; here they are `while` loops.
- `scenarios.dfy`, module `Scenarios`: clients that use only the public
  operations and pin down exact outcomes: an extraction sequence, a
  duplicate-key lookup, and a key raise at the root.

Inserting (10,100), (5,50), (20,200), (1,10), (15,150) into a heap of
capacity 5 and extracting repeatedly yields the values 10, 50, 100, 150, 200
(keys 1, 5, 10, 15, 20); `Scenarios.ExtractionOrder` proves that sequence.

## Model

| member | source | states |
|---|---|---|
| `HeapSpec.Parent` | heap.c:60-62 | for every non-root index `i`, the parent is smaller than `i` and `i` is its left (`2p+1`) or right (`2p+2`) child |
| `HeapSpec.Left` | heap.c:64-66 | the left child is larger than `i`, is odd, and its parent is `i` |
| `HeapSpec.Right` | heap.c:68-70 | the right child is larger than `i`, is even, differs from the left child, and its parent is `i` |
| `HeapSpec.Swapped` | heap.c:84-88 | exchanging two slots puts each entry in the other's slot, leaves every other slot alone, and keeps the multiset of entries |
| `HeapSpec.SiftUp` | heap.c:90-99 | sift-up (stop at the root or when the parent key is not strictly greater) keeps the length and the multiset of entries |
| `HeapSpec.MinIndex` | heap.c:101-114 | the chosen slot is `i`, or a live child with a strictly smaller key; it is no larger than either live child; the right child is chosen only when strictly smaller than the left (left wins ties) |
| `HeapSpec.SiftDown` | heap.c:101-120 | sift-down keeps the length and the multiset of entries |
| `HeapSpec.DropRoot` | heap.c:143-145 | moving the last live entry to the root and shrinking by one loses exactly the former root entry |
| `HeapSpec.DropRootLosesRoot` | heap.c:143-145 | the multiset fact behind `DropRoot`: the result's multiset is the old one minus the root entry |
| `HeapSpec.Rekeyed` | heap.c:195-196 | the slot gets the new key and keeps its value, every other slot is unchanged; the multiset loses the old entry and gains the rekeyed one |
| `HeapSpec.FirstMatch` | heap.c:162-169 | the result is `KEY_NOT_PRESENT` exactly when no live key equals the target; otherwise it is a live index holding the key and no earlier index holds it |
| `HeapSpec.RootIsMin` | heap.c:143 | in a heap the root key is `<=` every live key |
| `HeapSpec.SiftUpOrders` | heap.c:90-99 | sift-up from `k` turns a sequence ordered everywhere except between `k` and its parent (with `k`'s parent no larger than `k`'s children) into a heap |
| `HeapSpec.SiftDownOrders` | heap.c:101-120 | sift-down from `k` turns a sequence ordered everywhere except between `k` and its children (with `k`'s parent no larger than `k`'s children) into a heap |
| `HeapSpec.AppendUpReady` | heap.c:130-136 | a heap with one entry appended is ready for sift-up at the new slot |
| `HeapSpec.DropRootDownReady` | heap.c:143-146 | a heap whose last entry moved to the root is ready for sift-down at the root |
| `HeapSpec.LowerKeyUpReady` | heap.c:196-203 | lowering or keeping a key in a heap leaves it ready for sift-up at that slot |
| `HeapSpec.RaiseKeyDownReady` | heap.c:196-201 | raising a key in a heap leaves it ready for sift-down at that slot |
| `HeapSpec.RevaluedOrdered` | heap.c:215-216 | changing only a value keeps heap order |
| `HeapSpec.ExtractionStep` | heap.c:139-149 | one extraction from a heap: the removed root key is `<=` every old key and every remaining key, and what remains is again a heap |
| `HeapSpec.ExtractionsNonDecreasing` | heap.c:139-149 | after one extraction the new root key is `>=` the extracted key |
| `HeapSpec.Drained` | heap.c:139-149 | extracting until empty yields every entry exactly once (same length and multiset) |
| `HeapSpec.PrependSorted` | heap.c:139-149 | an entry no larger than every entry of a key-sorted sequence can be put in front of it and the result stays sorted |
| `HeapSpec.DrainedSorted` | heap.c:139-149 | extracting every entry of a heap yields them in non-decreasing key order |
| `Heap.MinHeap.constructor` | heap.c:43-49 | for `capacity > 0`: a fresh array of exactly `capacity` entries, `size = 0`, the empty heap |
| `Heap.MinHeap.Size` | heap.c:56-58 | the number of live entries, at most the capacity |
| `Heap.MinHeap.Swap` | heap.c:84-88 | the array afterwards is the old array with the two slots exchanged |
| `Heap.MinHeap.BubbleUp` | heap.c:90-99 | the live prefix becomes `SiftUp` of the old one: the same multiset, the same size, the dead slots untouched; it is a heap when the old prefix satisfied `UpReady(·, index)`: ordered except between `index` and its parent, with that parent no larger than `index`'s children |
| `Heap.MinHeap.BubbleDown` | heap.c:101-120 | the live prefix becomes `SiftDown` of the old one: the same multiset, the same size, the dead slots untouched; it is a heap when the old prefix satisfied `DownReady(·, index)`: ordered except between `index` and its children, with `index`'s parent no larger than those children |
| `Heap.MinHeap.Insert` | heap.c:122-137 | when full, nothing changes. Otherwise `size` grows by one, the multiset gains exactly `(key, value)`, the new prefix is the old one with the entry appended and sifted up, and heap order holds |
| `Heap.MinHeap.RemoveMin` | heap.c:139-149 | when empty, it returns `KEY_NOT_PRESENT` and nothing changes. Otherwise it returns the old root's value, whose key is `<=` every old and every remaining key; `size` shrinks by one, the multiset loses exactly the old root entry, and heap order holds |
| `Heap.MinHeap.FindKeyIndex` | heap.c:151-170 | returns the first live index, in storage order, whose key is the target, or `KEY_NOT_PRESENT`; changes nothing |
| `Heap.MinHeap.FindKey` | heap.c:172-187 | returns the value at that first matching index, or `KEY_NOT_PRESENT`; changes nothing |
| `Heap.MinHeap.UpdateKey` | heap.c:189-207 | with no live `oldKey` the array is unchanged. Otherwise the first match gets `newKey` and keeps its value (the multiset changes by exactly that entry). The result is the rekeyed prefix sifted down if `newKey > oldKey` and sifted up otherwise. `size` and heap order are kept |
| `Heap.MinHeap.UpdateValue` | heap.c:209-222 | the array is unchanged when the key is absent; otherwise exactly the first matching slot gets the new value with the same key; heap order is kept |
| `Scenarios.ExtractionOrder` | heap.c:122-149 | inserting keys 10, 5, 20, 1, 15 into a heap of capacity 5 and extracting six times yields 10, 50, 100, 150, 200, then `KEY_NOT_PRESENT` |
| `Scenarios.DuplicateKeyLookup` | heap.c:151-187 | after inserting keys 5, 3, 8, 3, the scan-path lookup of 3 returns the value of the first 3 in storage order, and the lookup of 999 returns `KEY_NOT_PRESENT` (the C cache path answers differently, see Left out) |
| `Scenarios.RaiseRootKey` | heap.c:189-207 | after inserting keys 10, 20, 30, 40, 50, raising 10 to 45 and extracting yields the value stored with key 20 |

## Left out

- The process-wide key cache (`value_cache`, `is_computed`, `current_result`, `is_present`, `get_value_from_cache`, `insert_value_to_cache`, `cached_operation`, heap.c:7-41) and the `Provider` function-pointer record (heap.h:11-19), with every call into them. This is global mutable state reached through function pointers, and it does not track the heap's contents.
- Heap.MinHeap.FindKey: only the scan path (heap.c:180-186) is modelled; the model always returns the value of the first live entry in storage order with that key. The C function answers from the key cache whenever the key is in it (heap.c:177-178), and `heap_insert` puts every inserted key in [0, 1000) into that cache with the inserted value (heap.c:132-133), so for such keys the scan is never reached. The cached answer is then the value written last for that key: with duplicate keys it need not be the first match (after inserting keys 5, 3, 8, 3 with values 50, 30, 80, 31 the C function returns 31 where the model returns 30), and after an extraction or a key update it can belong to an entry no longer in the heap. Also, `heap_find_key_index` stores a slot index, not a value, into the cache (heap.c:164).
- Heap.MinHeap.FindKeyIndex: the cached branch at heap.c:156-159 performs the same first-match scan as the uncached one, so only one scan is modelled.
- `heap_level` and `heap_print` (heap.c:72-82): floating-point `log2` and console output.
- `heap_free` (heap.c:51-54) and allocation failure in `heap_create`: deallocation and `malloc` returning null are not modelled. Creation requires a positive capacity (the C code does not check it).
- `02-minheap.c`: a demo driver with random keys, printing and `exit`, which only calls the public operations.
- C integer widths: `size`, `capacity` and indices are unbounded `nat`s, and keys and values are unbounded `int`s. No arithmetic is done on keys or values. Unsigned wrap-around of index arithmetic is not modelled; `heap_parent(0)` is never reached because heap.c:91 guards it. `heap_find_key_index` returns `KEY_NOT_PRESENT` through an `unsigned int`; the model returns the `int` -1, which is how `heap_find_key` reads it back (heap.c:180-181).
- Heap.MinHeap.BubbleUp: called with `index < size`, as every C caller does. The C routine is tail recursive; the model is the equivalent loop.
