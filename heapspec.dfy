/**
 * Value-level specification of the array-backed binary min-heap: the entry
 * type, the implicit-tree index arithmetic, the two repair routines as
 * functions on the live prefix of the array, the first-match lookup, and the
 * lemmas that say what these functions guarantee. The class in module Heap
 * is proved against these definitions.
 */
module HeapSpec {

  /** One heap slot: a signed 64-bit key with a signed 64-bit payload.
      No arithmetic is done on either, so they are kept as unbounded ints. */
  datatype Entry = Entry(key: int, value: int)

  /** Sentinel returned for "no such key" and for extraction from an empty heap. */
  const KeyNotPresent: int := -1

  // ---------------------------------------------------------------------------
  // Index arithmetic of the implicit binary tree
  // ---------------------------------------------------------------------------

  /** The parent of a non-root slot; `i` is one of its two children. */
  function Parent(i: nat): (p: nat)
    requires i > 0
    ensures p < i
    ensures i == 2 * p + 1 || i == 2 * p + 2
  {
    (i - 1) / 2
  }

  /** The left child of slot `i`: a non-root slot whose parent is `i`. */
  function Left(i: nat): (c: nat)
    ensures c > i && Parent(c) == i
    ensures c % 2 == 1
  {
    2 * i + 1
  }

  /** The right child of slot `i`: the sibling just after `Left(i)`. */
  function Right(i: nat): (c: nat)
    ensures c > i && Parent(c) == i
    ensures c % 2 == 0 && c != Left(i)
  {
    2 * i + 2
  }

  // ---------------------------------------------------------------------------
  // Heap order and the two "almost a heap" states the repair routines accept
  // ---------------------------------------------------------------------------

  /** Every non-root live slot has a key no smaller than its parent's. */
  ghost predicate HeapOrdered(s: seq<Entry>)
  {
    forall c :: 0 < c < |s| ==> s[Parent(c)].key <= s[c].key
  }

  /** Heap order holds everywhere except possibly between `k` and its parent,
      and `k`'s parent is no larger than `k`'s children (the state after a key
      at `k` has been lowered, or a new leaf appended at `k`). */
  ghost predicate UpReady(s: seq<Entry>, k: nat)
  {
    && k < |s|
    && (forall c :: 0 < c < |s| && c != k ==> s[Parent(c)].key <= s[c].key)
    && (forall c :: 0 < c < |s| && k > 0 && Parent(c) == k ==> s[Parent(k)].key <= s[c].key)
  }

  /** Heap order holds everywhere except possibly between `k` and its
      children, and `k`'s parent is no larger than `k`'s children (the state
      after a key at `k` has been raised, or the root replaced). */
  ghost predicate DownReady(s: seq<Entry>, k: nat)
  {
    && (forall c :: 0 < c < |s| && Parent(c) != k ==> s[Parent(c)].key <= s[c].key)
    && (forall c :: 0 < c < |s| && k > 0 && Parent(c) == k ==> s[Parent(k)].key <= s[c].key)
  }

  // ---------------------------------------------------------------------------
  // Operations on the live prefix, as values
  // ---------------------------------------------------------------------------

  /** `s` with the entries at `i` and `j` exchanged. */
  function Swapped(s: seq<Entry>, i: nat, j: nat): (r: seq<Entry>)
    requires i < |s| && j < |s|
    ensures |r| == |s| && r[i] == s[j] && r[j] == s[i]
    ensures forall k :: 0 <= k < |s| && k != i && k != j ==> r[k] == s[k]
    ensures multiset(r) == multiset(s)
  {
    s[i := s[j]][j := s[i]]
  }

  /** Swapping inside a prefix of length `n` commutes with taking that prefix
      and leaves the rest alone. */
  lemma SwappedPrefix(a: seq<Entry>, n: nat, i: nat, j: nat)
    requires i < n && j < n && n <= |a|
    ensures Swapped(a, i, j)[..n] == Swapped(a[..n], i, j)
    ensures Swapped(a, i, j)[n..] == a[n..]
  {
  }

  /** Sift-up from `i`: while `i` is not the root and its parent's key is
      strictly greater, swap the two and continue from the parent. */
  function SiftUp(s: seq<Entry>, i: nat): (r: seq<Entry>)
    requires i < |s|
    ensures |r| == |s| && multiset(r) == multiset(s)
    decreases i
  {
    if i == 0 then s
    else if s[Parent(i)].key > s[i].key then SiftUp(Swapped(s, Parent(i), i), Parent(i))
    else s
  }

  /** The slot sift-down moves `i`'s entry to: the smaller live child when it
      is strictly smaller than `i`, otherwise `i` itself. On equal child keys
      the left child is chosen, because the right child is taken only when
      strictly smaller than the best so far. */
  function MinIndex(s: seq<Entry>, i: nat): (m: nat)
    ensures m == i || ((m == Left(i) || m == Right(i)) && m < |s| && s[m].key < s[i].key)
    ensures i < |s| && Left(i) < |s| ==> s[m].key <= s[Left(i)].key
    ensures i < |s| && Right(i) < |s| ==> s[m].key <= s[Right(i)].key
    ensures m == Right(i) ==> s[Right(i)].key < s[Left(i)].key
  {
    var l, r := Left(i), Right(i);
    var m := if l < |s| && s[l].key < s[i].key then l else i;
    if r < |s| && s[r].key < s[m].key then r else m
  }

  /** Sift-down from `i`: swap with `MinIndex` and continue from there until
      `i` is no larger than its live children. */
  function SiftDown(s: seq<Entry>, i: nat): (r: seq<Entry>)
    ensures |r| == |s| && multiset(r) == multiset(s)
    decreases |s| - i
  {
    var m := MinIndex(s, i);
    if m == i then s else SiftDown(Swapped(s, i, m), m)
  }

  /** The live prefix after extraction: the last entry moved to the root and
      the prefix shortened by one. */
  function DropRoot(s: seq<Entry>): (r: seq<Entry>)
    requires |s| > 0
    ensures |r| == |s| - 1
    ensures multiset(r) == multiset(s) - multiset{s[0]}
  {
    DropRootLosesRoot(s);
    s[0 := s[|s| - 1]][..|s| - 1]
  }

  /** Moving the last entry to the root and shortening by one loses exactly
      the former root entry. */
  lemma DropRootLosesRoot(s: seq<Entry>)
    requires |s| > 0
    ensures multiset(s[0 := s[|s| - 1]][..|s| - 1]) == multiset(s) - multiset{s[0]}
  {
    if |s| > 1 {
      var mid := s[1..|s| - 1];
      assert s[0 := s[|s| - 1]][..|s| - 1] == [s[|s| - 1]] + mid;
      assert s == [s[0]] + mid + [s[|s| - 1]];
      assert multiset(s) == multiset{s[0]} + multiset(mid) + multiset{s[|s| - 1]};
    }
  }

  /** Moving slot `n - 1` into slot 0 of a longer sequence drops the root of
      its length-`n` prefix and leaves everything from `n - 1` on alone. */
  lemma DropRootPrefix(a: seq<Entry>, n: nat)
    requires 0 < n <= |a|
    ensures a[0 := a[n - 1]][..n - 1] == DropRoot(a[..n])
    ensures a[0 := a[n - 1]][n - 1..] == a[n - 1..]
  {
  }

  /** `s` with the key at `i` replaced and its value kept. */
  function Rekeyed(s: seq<Entry>, i: nat, newKey: int): (r: seq<Entry>)
    requires i < |s|
    ensures |r| == |s| && r[i] == Entry(newKey, s[i].value)
    ensures forall k :: 0 <= k < |s| && k != i ==> r[k] == s[k]
    ensures multiset(r) == multiset(s) - multiset{s[i]} + multiset{Entry(newKey, s[i].value)}
  {
    s[i := Entry(newKey, s[i].value)]
  }

  /** The first slot in storage order whose key is `k`, or `KeyNotPresent`. */
  function FirstMatch(s: seq<Entry>, k: int): (r: int)
    ensures r == KeyNotPresent <==> forall j :: 0 <= j < |s| ==> s[j].key != k
    ensures r != KeyNotPresent ==> 0 <= r < |s| && s[r].key == k
    ensures r != KeyNotPresent ==> forall j :: 0 <= j < r ==> s[j].key != k
  {
    if |s| == 0 then KeyNotPresent
    else if s[0].key == k then 0
    else
      var r := FirstMatch(s[1..], k);
      if r == KeyNotPresent then KeyNotPresent else r + 1
  }

  // ---------------------------------------------------------------------------
  // What the repair routines guarantee
  // ---------------------------------------------------------------------------

  /** In a heap the root holds a smallest key. */
  lemma {:induction false} RootIsMin(s: seq<Entry>, j: nat)
    requires HeapOrdered(s) && j < |s|
    ensures s[0].key <= s[j].key
    decreases j
  {
    if j > 0 {
      RootIsMin(s, Parent(j));
    }
  }

  /** Sift-up turns an `UpReady` state at `k` (ordered except between `k` and
      its parent, with that parent no larger than `k`'s children) into a heap. */
  lemma {:induction false} SiftUpOrders(s: seq<Entry>, k: nat)
    requires UpReady(s, k)
    ensures HeapOrdered(SiftUp(s, k))
    decreases k
  {
    if k > 0 && s[Parent(k)].key > s[k].key {
      var p := Parent(k);
      var t := Swapped(s, p, k);
      forall c | 0 < c < |t| && c != p
        ensures t[Parent(c)].key <= t[c].key
      {
        if c == k {
        } else if Parent(c) == k {
          assert t[c] == s[c] && t[k] == s[p];
        } else if Parent(c) == p {
          assert s[p].key <= s[c].key;
        } else {
          assert t[c] == s[c] && t[Parent(c)] == s[Parent(c)];
        }
      }
      if p > 0 {
        forall c | 0 < c < |t| && Parent(c) == p
          ensures t[Parent(p)].key <= t[c].key
        {
          assert t[Parent(p)] == s[Parent(p)];
          assert s[Parent(p)].key <= s[p].key;
          if c != k {
            assert s[p].key <= s[c].key;
          }
        }
      }
      SiftUpOrders(t, p);
    }
  }

  /** Sift-down turns a `DownReady` state at `k` (ordered except between `k`
      and its children, with `k`'s parent no larger than those children) into
      a heap. */
  lemma {:induction false} SiftDownOrders(s: seq<Entry>, k: nat)
    requires DownReady(s, k)
    ensures HeapOrdered(SiftDown(s, k))
    decreases |s| - k
  {
    var m := MinIndex(s, k);
    if m == k {
      forall c | 0 < c < |s|
        ensures s[Parent(c)].key <= s[c].key
      {
        if Parent(c) == k {
          assert c == Left(k) || c == Right(k);
        }
      }
    } else {
      var t := Swapped(s, k, m);
      forall c | 0 < c < |t| && Parent(c) != m
        ensures t[Parent(c)].key <= t[c].key
      {
        if c == m {
        } else if Parent(c) == k {
          assert c == Left(k) || c == Right(k);
          assert t[c] == s[c];
        } else if c == k {
          assert t[Parent(k)] == s[Parent(k)];
        } else {
          assert t[c] == s[c] && t[Parent(c)] == s[Parent(c)];
        }
      }
      forall c | 0 < c < |t| && Parent(c) == m
        ensures t[Parent(m)].key <= t[c].key
      {
        assert t[c] == s[c];
      }
      SiftDownOrders(t, m);
    }
  }

  /** Appending a leaf to a heap gives a state sift-up accepts at the leaf. */
  lemma AppendUpReady(s: seq<Entry>, e: Entry)
    requires HeapOrdered(s)
    ensures UpReady(s + [e], |s|)
  {
  }

  /** Moving the last entry of a heap to the root gives a state sift-down
      accepts at the root. */
  lemma DropRootDownReady(s: seq<Entry>)
    requires HeapOrdered(s) && |s| > 0
    ensures DownReady(DropRoot(s), 0)
  {
  }

  /** Lowering (or keeping) the key at `i` of a heap leaves a state sift-up
      accepts at `i`. */
  lemma LowerKeyUpReady(s: seq<Entry>, i: nat, newKey: int)
    requires HeapOrdered(s) && i < |s| && newKey <= s[i].key
    ensures UpReady(Rekeyed(s, i, newKey), i)
  {
  }

  /** Raising the key at `i` of a heap leaves a state sift-down accepts at `i`. */
  lemma RaiseKeyDownReady(s: seq<Entry>, i: nat, newKey: int)
    requires HeapOrdered(s) && i < |s| && newKey > s[i].key
    ensures DownReady(Rekeyed(s, i, newKey), i)
  {
  }

  /** Changing only the value of one entry keeps heap order. */
  lemma RevaluedOrdered(s: seq<Entry>, i: nat, newValue: int)
    requires HeapOrdered(s) && i < |s|
    ensures HeapOrdered(s[i := Entry(s[i].key, newValue)])
  {
  }

  /** One extraction step on a heap: the root key bounds every entry before
      and after, and what remains after the sift-down is again a heap. */
  lemma ExtractionStep(s: seq<Entry>)
    requires HeapOrdered(s) && |s| > 0
    ensures forall e :: e in s ==> s[0].key <= e.key
    ensures forall e :: e in SiftDown(DropRoot(s), 0) ==> s[0].key <= e.key
    ensures HeapOrdered(SiftDown(DropRoot(s), 0))
  {
    forall j | 0 <= j < |s|
      ensures s[0].key <= s[j].key
    {
      RootIsMin(s, j);
    }
    var r := SiftDown(DropRoot(s), 0);
    forall i | 0 <= i < |r|
      ensures s[0].key <= r[i].key
    {
      assert r[i] in multiset(r);
      assert r[i] in multiset(s);
      var j :| 0 <= j < |s| && s[j] == r[i];
    }
    DropRootDownReady(s);
    SiftDownOrders(DropRoot(s), 0);
  }

  /** Consecutive extractions come out in non-decreasing key order: the root
      after an extraction is no smaller than the root that was extracted. */
  lemma {:induction false} ExtractionsNonDecreasing(s: seq<Entry>)
    requires HeapOrdered(s) && |s| >= 2
    ensures s[0].key <= SiftDown(DropRoot(s), 0)[0].key
  {
    ExtractionStep(s);
  }

  // ---------------------------------------------------------------------------
  // Extracting until empty
  // ---------------------------------------------------------------------------

  /** The entries in the order repeated extraction removes them: the root,
      then the extraction order of what remains after the root is dropped and
      the moved entry sifted down. */
  function Drained(s: seq<Entry>): (r: seq<Entry>)
    ensures |r| == |s| && multiset(r) == multiset(s)
    decreases |s|
  {
    if |s| == 0 then []
    else [s[0]] + Drained(SiftDown(DropRoot(s), 0))
  }

  /** Keys never decrease from left to right. */
  ghost predicate KeySorted(r: seq<Entry>)
  {
    forall i, j :: 0 <= i < j < |r| ==> r[i].key <= r[j].key
  }

  /** An entry no larger than every entry of a key-sorted sequence can go in front. */
  lemma PrependSorted(x: Entry, d: seq<Entry>)
    requires KeySorted(d)
    requires forall i :: 0 <= i < |d| ==> x.key <= d[i].key
    ensures KeySorted([x] + d)
  {
  }

  /** Extracting every entry of a heap yields them sorted by key. */
  lemma {:induction false} DrainedSorted(s: seq<Entry>)
    requires HeapOrdered(s)
    ensures KeySorted(Drained(s))
    decreases |s|
  {
    if |s| > 0 {
      var t := SiftDown(DropRoot(s), 0);
      DropRootDownReady(s);
      SiftDownOrders(DropRoot(s), 0);
      DrainedSorted(t);
      var d := Drained(t);
      assert forall i :: 0 <= i < |d| ==> s[0].key <= d[i].key by {
        forall i | 0 <= i < |d|
          ensures s[0].key <= d[i].key
        {
          assert d[i] in multiset(t);
          assert d[i] in multiset(s);
          var j :| 0 <= j < |s| && s[j] == d[i];
          RootIsMin(s, j);
        }
      }
      PrependSorted(s[0], d);
      assert Drained(s) == [s[0]] + d;
    }
  }
}
