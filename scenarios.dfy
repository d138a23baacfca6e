/**
 * Client scenarios that drive the heap only through its public operations and
 * pin down the exact outcomes the contracts of module Heap imply.
 */
module Scenarios {
  import opened HeapSpec
  import opened Heap

  /** The heap of capacity 5 after inserting the keys 10, 5, 20, 1, 15 (each
      with ten times its key as value) in that order. */
  method BuildExample() returns (h: MinHeap)
    ensures fresh(h) && fresh(h.data) && h.Valid() && h.capacity == 5
    ensures h.Contents() == [Entry(1, 10), Entry(5, 50), Entry(20, 200), Entry(10, 100), Entry(15, 150)]
  {
    h := new MinHeap(5);
    h.Insert(10, 100);
    assert h.Contents() == [Entry(10, 100)];
    h.Insert(5, 50);
    assert h.Contents() == [Entry(5, 50), Entry(10, 100)];
    h.Insert(20, 200);
    AddLastTwo(h);
  }

  /** The last two insertions of `BuildExample`. */
  method AddLastTwo(h: MinHeap)
    requires h.Valid() && h.capacity == 5
    requires h.Contents() == [Entry(5, 50), Entry(10, 100), Entry(20, 200)]
    modifies h`size, h.data
    ensures h.Valid()
    ensures h.Contents() == [Entry(1, 10), Entry(5, 50), Entry(20, 200), Entry(10, 100), Entry(15, 150)]
  {
    FourthInsertion(h.Contents() + [Entry(1, 10)]);
    h.Insert(1, 10);
    assert h.Contents() == [Entry(1, 10), Entry(5, 50), Entry(20, 200), Entry(10, 100)];
    h.Insert(15, 150);
  }

  /** The sift-up of the fourth insertion in `BuildExample`: key 1 climbs two levels. */
  lemma FourthInsertion(s: seq<Entry>)
    requires s == [Entry(5, 50), Entry(10, 100), Entry(20, 200), Entry(1, 10)]
    ensures SiftUp(s, 3) == [Entry(1, 10), Entry(5, 50), Entry(20, 200), Entry(10, 100)]
  {
    var t := Swapped(s, 1, 3);
    assert t == [Entry(5, 50), Entry(1, 10), Entry(20, 200), Entry(10, 100)];
    var u := Swapped(t, 0, 1);
    assert u == [Entry(1, 10), Entry(5, 50), Entry(20, 200), Entry(10, 100)];
    assert SiftUp(t, 1) == SiftUp(u, 0) == u;
  }

  /** Five insertions into a heap of capacity 5, then six extractions: the
      values come out in key order 1, 5, 10, 15, 20, and the sixth extraction
      finds the heap empty. */
  method ExtractionOrder() returns (values: seq<int>)
    ensures values == [10, 50, 100, 150, 200, KeyNotPresent]
  {
    var h := BuildExample();
    FirstExtraction(h.Contents());
    var v1 := h.RemoveMin();
    assert v1 == 10;
    SecondExtraction(h.Contents());
    var v2 := h.RemoveMin();
    assert v2 == 50;
    ThirdExtraction(h.Contents());
    var v3 := h.RemoveMin();
    assert v3 == 100;
    LastExtractions(h.Contents());
    var v4 := h.RemoveMin();
    assert v4 == 150;
    var v5 := h.RemoveMin();
    assert v5 == 200;
    var v6 := h.RemoveMin();
    values := [v1, v2, v3, v4, v5, v6];
  }

  /** The sift-down of each extraction in `ExtractionOrder`, one swap at a time. */
  lemma FirstExtraction(h: seq<Entry>)
    requires h == [Entry(1, 10), Entry(5, 50), Entry(20, 200), Entry(10, 100), Entry(15, 150)]
    ensures SiftDown(DropRoot(h), 0) == [Entry(5, 50), Entry(10, 100), Entry(20, 200), Entry(15, 150)]
  {
    var s := DropRoot(h);
    assert s == [Entry(15, 150), Entry(5, 50), Entry(20, 200), Entry(10, 100)];
    assert MinIndex(s, 0) == 1;
    FirstExtractionTail(Swapped(s, 0, 1));
  }

  lemma FirstExtractionTail(t: seq<Entry>)
    requires t == [Entry(5, 50), Entry(15, 150), Entry(20, 200), Entry(10, 100)]
    ensures SiftDown(t, 1) == [Entry(5, 50), Entry(10, 100), Entry(20, 200), Entry(15, 150)]
  {
    assert MinIndex(t, 1) == 3;
    var u := Swapped(t, 1, 3);
    assert u == [Entry(5, 50), Entry(10, 100), Entry(20, 200), Entry(15, 150)];
    assert MinIndex(u, 3) == 3;
  }

  lemma SecondExtraction(h: seq<Entry>)
    requires h == [Entry(5, 50), Entry(10, 100), Entry(20, 200), Entry(15, 150)]
    ensures SiftDown(DropRoot(h), 0) == [Entry(10, 100), Entry(15, 150), Entry(20, 200)]
  {
    var s := DropRoot(h);
    assert s == [Entry(15, 150), Entry(10, 100), Entry(20, 200)];
    assert MinIndex(s, 0) == 1;
    var t := Swapped(s, 0, 1);
    assert t == [Entry(10, 100), Entry(15, 150), Entry(20, 200)];
    assert MinIndex(t, 1) == 1;
  }

  lemma ThirdExtraction(h: seq<Entry>)
    requires h == [Entry(10, 100), Entry(15, 150), Entry(20, 200)]
    ensures SiftDown(DropRoot(h), 0) == [Entry(15, 150), Entry(20, 200)]
  {
    var s := DropRoot(h);
    assert s == [Entry(20, 200), Entry(15, 150)];
    assert MinIndex(s, 0) == 1;
    var t := Swapped(s, 0, 1);
    assert t == [Entry(15, 150), Entry(20, 200)];
    assert MinIndex(t, 1) == 1;
  }

  lemma LastExtractions(h: seq<Entry>)
    requires h == [Entry(15, 150), Entry(20, 200)]
    ensures SiftDown(DropRoot(h), 0) == [Entry(20, 200)]
    ensures SiftDown(DropRoot(DropRoot(h)), 0) == []
  {
    assert DropRoot(h) == [Entry(20, 200)];
    assert MinIndex(DropRoot(h), 0) == 0;
    assert DropRoot(DropRoot(h)) == [];
    assert MinIndex([], 0) == 0;
  }

  /** Keys 5, 3, 8, 3 inserted in that order: the second 3 stops below the
      first (equal keys do not swap), so the scan-path lookup of 3 answers
      with the value stored with the first 3, and an absent key gives
      `KeyNotPresent`. This pins the scan, not the C lookup's output: there
      the key cache answers 3 with 31, the value inserted last. */
  method DuplicateKeyLookup() returns (first: int, absent: int)
    ensures first == 30 && absent == KeyNotPresent
  {
    var h := BuildDuplicateExample();
    SecondThreeInsertion(h.Contents() + [Entry(3, 31)]);
    h.Insert(3, 31);
    assert h.Contents() == [Entry(3, 30), Entry(3, 31), Entry(8, 80), Entry(5, 50)];
    first := h.FindKey(3);
    absent := h.FindKey(999);
  }

  /** The heap of capacity 4 after inserting the keys 5, 3, 8. */
  method BuildDuplicateExample() returns (h: MinHeap)
    ensures fresh(h) && fresh(h.data) && h.Valid() && h.capacity == 4
    ensures h.Contents() == [Entry(3, 30), Entry(5, 50), Entry(8, 80)]
  {
    h := new MinHeap(4);
    h.Insert(5, 50);
    assert h.Contents() == [Entry(5, 50)];
    h.Insert(3, 30);
    assert h.Contents() == [Entry(3, 30), Entry(5, 50)];
    h.Insert(8, 80);
  }

  /** The sift-up of the second key 3 in `DuplicateKeyLookup`: one swap, then
      it stops under the equal key at the root. */
  lemma SecondThreeInsertion(s: seq<Entry>)
    requires s == [Entry(3, 30), Entry(5, 50), Entry(8, 80), Entry(3, 31)]
    ensures SiftUp(s, 3) == [Entry(3, 30), Entry(3, 31), Entry(8, 80), Entry(5, 50)]
  {
    var t := Swapped(s, 1, 3);
    assert t == [Entry(3, 30), Entry(3, 31), Entry(8, 80), Entry(5, 50)];
    assert SiftUp(t, 1) == t;
  }

  /** Keys 10, 20, 30, 40, 50 inserted in order, then key 10 raised to 45: the
      raised entry sinks two levels and the next extraction yields the value
      stored with key 20, the new smallest key. */
  method RaiseRootKey() returns (min: int)
    ensures min == 200
  {
    var h := BuildAscendingExample();
    RaisedRootSinks(h.Contents());
    h.UpdateKey(10, 45);
    assert h.Contents() == [Entry(20, 200), Entry(40, 400), Entry(30, 300), Entry(45, 100), Entry(50, 500)];
    min := h.RemoveMin();
  }

  /** The heap of capacity 5 after inserting the keys 10, 20, 30, 40, 50 in
      that order; no insertion moves anything. */
  method BuildAscendingExample() returns (h: MinHeap)
    ensures fresh(h) && fresh(h.data) && h.Valid() && h.capacity == 5
    ensures h.Contents() == [Entry(10, 100), Entry(20, 200), Entry(30, 300), Entry(40, 400), Entry(50, 500)]
  {
    h := new MinHeap(5);
    h.Insert(10, 100);
    assert h.Contents() == [Entry(10, 100)];
    h.Insert(20, 200);
    assert h.Contents() == [Entry(10, 100), Entry(20, 200)];
    h.Insert(30, 300);
    AddAscendingTail(h);
  }

  /** The last two insertions of `BuildAscendingExample`. */
  method AddAscendingTail(h: MinHeap)
    requires h.Valid() && h.capacity == 5
    requires h.Contents() == [Entry(10, 100), Entry(20, 200), Entry(30, 300)]
    modifies h`size, h.data
    ensures h.Valid()
    ensures h.Contents() == [Entry(10, 100), Entry(20, 200), Entry(30, 300), Entry(40, 400), Entry(50, 500)]
  {
    h.Insert(40, 400);
    assert h.Contents() == [Entry(10, 100), Entry(20, 200), Entry(30, 300), Entry(40, 400)];
    h.Insert(50, 500);
  }

  /** The sift-down after raising the root key 10 to 45 in `RaiseRootKey`. */
  lemma RaisedRootSinks(h: seq<Entry>)
    requires h == [Entry(10, 100), Entry(20, 200), Entry(30, 300), Entry(40, 400), Entry(50, 500)]
    ensures SiftDown(Rekeyed(h, 0, 45), 0)
         == [Entry(20, 200), Entry(40, 400), Entry(30, 300), Entry(45, 100), Entry(50, 500)]
  {
    var s := Rekeyed(h, 0, 45);
    assert s == [Entry(45, 100), Entry(20, 200), Entry(30, 300), Entry(40, 400), Entry(50, 500)];
    RaisedRootSinksFrom(s);
  }

  lemma RaisedRootSinksFrom(s: seq<Entry>)
    requires s == [Entry(45, 100), Entry(20, 200), Entry(30, 300), Entry(40, 400), Entry(50, 500)]
    ensures SiftDown(s, 0) == [Entry(20, 200), Entry(40, 400), Entry(30, 300), Entry(45, 100), Entry(50, 500)]
  {
    assert MinIndex(s, 0) == 1;
    RaisedRootSinksTail(Swapped(s, 0, 1));
  }

  lemma RaisedRootSinksTail(t: seq<Entry>)
    requires t == [Entry(20, 200), Entry(45, 100), Entry(30, 300), Entry(40, 400), Entry(50, 500)]
    ensures SiftDown(t, 1) == [Entry(20, 200), Entry(40, 400), Entry(30, 300), Entry(45, 100), Entry(50, 500)]
  {
    assert MinIndex(t, 1) == 3;
    var u := Swapped(t, 1, 3);
    assert u == [Entry(20, 200), Entry(40, 400), Entry(30, 300), Entry(45, 100), Entry(50, 500)];
    assert MinIndex(u, 3) == 3;
  }
}
