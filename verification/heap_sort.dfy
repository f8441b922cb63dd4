/**
 * Heapsort (02-heapsort.py).
 *
 * `heap_sort` works in place on a 0-based list but numbers the children of
 * index i as 2i and 2i + 1, so index 0 has the single proper child 1 and the
 * parent of every j >= 1 is j / 2. `build_max_heap` calls `max_heapify` for
 * i = len / 2 - 1 down to 0; the extraction loop then swaps the root with the
 * last cell of the shrinking heap and restores the heap at the root.
 *
 * With this numbering the last internal index is (len - 1) / 2, which equals
 * len / 2 - 1 only for even lengths. For odd lengths the build skips index
 * len / 2, so the array is not always a heap and the result is not always
 * sorted (`[1, 0, 5]` comes out as `[0, 5, 1]`).
 *
 * The in-place methods are proved against the functions `Heapify`,
 * `BuildFrom` and `Extract` on sequences; the properties are lemmas about
 * those functions.
 */
module HeapSort {
  import opened Lib

  /** `left_index`. */
  function LeftIndex(i: nat): nat { 2 * i }

  /** `right_index`. */
  function RightIndex(i: nat): nat { 2 * i + 1 }

  /** `parent_index` (Python 2 integer division). */
  function ParentIndex(i: nat): nat { i / 2 }

  /**
   * Every index is the parent of its two children, and every index j >= 1 is a
   * child of its parent. Index 0 is its own left child, so its only proper
   * child is 1.
   */
  lemma ChildParent(i: nat, j: nat)
    ensures ParentIndex(LeftIndex(i)) == i && ParentIndex(RightIndex(i)) == i
    ensures j >= 1 ==> j == LeftIndex(ParentIndex(j)) || j == RightIndex(ParentIndex(j))
    ensures j >= 1 ==> ParentIndex(j) < j
    ensures LeftIndex(0) == 0 && RightIndex(0) == 1
  {
  }

  /** Exchanges two cells. */
  function Swap(s: seq<int>, i: nat, j: nat): (r: seq<int>)
    requires i < |s| && j < |s|
    ensures |r| == |s|
  {
    s[i := s[j]][j := s[i]]
  }

  /** A swap permutes. */
  lemma SwapPermutes(s: seq<int>, i: nat, j: nat)
    requires i < |s| && j < |s|
    ensures multiset(Swap(s, i, j)) == multiset(s)
  {
    var t := s[i := s[j]];
    assert multiset(t) == multiset(s) - multiset{s[i]} + multiset{s[j]};
    assert multiset(t[j := s[i]]) == multiset(t) - multiset{t[j]} + multiset{s[i]};
  }

  /** Node j of the heap s[..n] is at least as large as its children. */
  ghost predicate HeapAt(s: seq<int>, n: nat, j: nat)
    requires n <= |s|
  {
    && (LeftIndex(j) < n ==> s[LeftIndex(j)] <= s[j])
    && (RightIndex(j) < n ==> s[RightIndex(j)] <= s[j])
  }

  /** s[..n] is a max-heap under the child relation of the code. */
  ghost predicate IsHeap(s: seq<int>, n: nat)
    requires n <= |s|
  {
    forall j :: 0 <= j < n ==> HeapAt(s, n, j)
  }

  /** The index `max_heapify` picks: i or the larger child, preferring i, then the left child, on ties. */
  function Largest(s: seq<int>, n: nat, i: nat): (l: nat)
    requires n <= |s| && i < n
    ensures l < n && (l == i || l == LeftIndex(i) || l == RightIndex(i))
    ensures s[l] >= s[i]
    ensures LeftIndex(i) < n ==> s[l] >= s[LeftIndex(i)]
    ensures RightIndex(i) < n ==> s[l] >= s[RightIndex(i)]
    ensures l != i ==> i < l
  {
    var left := LeftIndex(i);
    var right := RightIndex(i);
    var first := if left < n && s[left] > s[i] then left else i;
    if right < n && s[right] > s[first] then right else first
  }

  /**
   * `max_heapify(heap, n, i)`: lets s[i] float down in the heap s[..n]. Only
   * cells i .. n - 1 can change, and s[i] ends up as the largest of itself and
   * its children.
   */
  function Heapify(s: seq<int>, n: nat, i: nat): (r: seq<int>)
    requires n <= |s| && i < n
    ensures |r| == |s|
    decreases n - i
  {
    var largest := Largest(s, n, i);
    if largest != i then Heapify(Swap(s, i, largest), n, largest) else s
  }

  /**
   * `max_heapify` only swaps cells of i .. n - 1, and the cell at i ends up
   * the largest of itself and its children.
   */
  lemma {:induction false} HeapifyFrame(s: seq<int>, n: nat, i: nat)
    requires n <= |s| && i < n
    ensures var r := Heapify(s, n, i);
      && multiset(r) == multiset(s)
      && r[..i] == s[..i] && r[n..] == s[n..]
      && r[i] == s[Largest(s, n, i)]
    decreases n - i
  {
    var largest := Largest(s, n, i);
    if largest != i {
      var t := Swap(s, i, largest);
      SwapPermutes(s, i, largest);
      HeapifyFrame(t, n, largest);
      var r := Heapify(t, n, largest);
      assert r[..largest] == t[..largest];
      assert t[..i] == s[..i];
      assert r[..i] == r[..largest][..i] == t[..largest][..i] == t[..i];
      assert t[n..] == s[n..];
      assert r[i] == r[..largest][i] == t[i] == s[largest];
    }
  }

  /** `build_max_heap` from index k down to 0. */
  function BuildFrom(s: seq<int>, k: int): (r: seq<int>)
    requires k < |s|
    ensures |r| == |s|
    decreases k + 1
  {
    if k < 0 then s else BuildFrom(Heapify(s, |s|, k), k - 1)
  }

  /** The extraction loop for heap sizes i + 1 down to 2. */
  function Extract(s: seq<int>, i: int): (r: seq<int>)
    requires i < |s|
    ensures |r| == |s|
    decreases i
  {
    if i <= 0 then s else Extract(Heapify(Swap(s, 0, i), i, 0), i - 1)
  }

  /** `heap_sort` as written: the build starts at len / 2 - 1. */
  function HeapSortAsWritten(s: seq<int>): (r: seq<int>)
    ensures |r| == |s|
  {
    Extract(BuildFrom(s, |s| / 2 - 1), |s| - 1)
  }

  /** The build starting at the last internal index, (len - 1) / 2. */
  function HeapSortFixed(s: seq<int>): (r: seq<int>)
    ensures |r| == |s|
  {
    Extract(BuildFrom(s, (|s| - 1) / 2), |s| - 1)
  }

  lemma {:induction false} BuildPermutes(s: seq<int>, k: int)
    requires k < |s|
    ensures multiset(BuildFrom(s, k)) == multiset(s)
    decreases k + 1
  {
    if k >= 0 {
      HeapifyFrame(s, |s|, k);
      BuildPermutes(Heapify(s, |s|, k), k - 1);
    }
  }

  lemma {:induction false} ExtractPermutes(s: seq<int>, i: int)
    requires i < |s|
    ensures multiset(Extract(s, i)) == multiset(s)
    decreases i
  {
    if i > 0 {
      SwapPermutes(s, 0, i);
      HeapifyFrame(Swap(s, 0, i), i, 0);
      ExtractPermutes(Heapify(Swap(s, 0, i), i, 0), i - 1);
    }
  }

  /** Only swaps are performed: the result is a permutation of the input. */
  lemma HeapSortPermutes(s: seq<int>)
    ensures multiset(HeapSortAsWritten(s)) == multiset(s)
    ensures multiset(HeapSortFixed(s)) == multiset(s)
  {
    BuildPermutes(s, |s| / 2 - 1);
    ExtractPermutes(BuildFrom(s, |s| / 2 - 1), |s| - 1);
    BuildPermutes(s, (|s| - 1) / 2);
    ExtractPermutes(BuildFrom(s, (|s| - 1) / 2), |s| - 1);
  }

  // ---------------------------------------------------------------------------
  // The heap property

  /** Every node outside i in lo .. n - 1 is a heap node. */
  ghost predicate HeapExcept(s: seq<int>, n: nat, lo: nat, i: nat)
    requires n <= |s|
  {
    forall j :: lo <= j < n && j != i ==> HeapAt(s, n, j)
  }

  /** When i is not the top node lo, its parent dominates i's children. */
  ghost predicate ParentCovers(s: seq<int>, n: nat, lo: nat, i: nat)
    requires n <= |s| && i < n
  {
    i != lo ==>
      && lo <= ParentIndex(i)
      && (LeftIndex(i) < n ==> s[LeftIndex(i)] <= s[ParentIndex(i)])
      && (RightIndex(i) < n ==> s[RightIndex(i)] <= s[ParentIndex(i)])
  }

  /** The swap in `max_heapify` hands the repair down to `largest`. */
  lemma SwapKeepsHeap(s: seq<int>, n: nat, lo: nat, i: nat, largest: nat)
    requires n <= |s| && lo <= i < largest < n
    requires largest == LeftIndex(i) || largest == RightIndex(i)
    requires s[largest] >= s[i]
    requires LeftIndex(i) < n ==> s[largest] >= s[LeftIndex(i)]
    requires RightIndex(i) < n ==> s[largest] >= s[RightIndex(i)]
    requires HeapExcept(s, n, lo, i) && ParentCovers(s, n, lo, i)
    ensures HeapExcept(Swap(s, i, largest), n, lo, largest)
    ensures ParentCovers(Swap(s, i, largest), n, lo, largest)
  {
    var t := Swap(s, i, largest);
    assert ParentIndex(largest) == i;
    assert HeapAt(s, n, largest);
    forall j | lo <= j < n && j != largest
      ensures HeapAt(t, n, j)
    {
      if j == i {
      } else if i != lo && j == ParentIndex(i) {
        assert HeapAt(s, n, j);
        assert LeftIndex(j) == i || RightIndex(j) == i;
      } else {
        assert HeapAt(s, n, j);
        assert LeftIndex(j) != i && RightIndex(j) != i;
      }
    }
  }

  /**
   * If every node of lo .. n - 1 other than i is a heap node (and i's parent
   * dominates i's children when i is not lo), `max_heapify` at i makes the
   * whole range heap nodes. With lo == i this is the textbook statement: the
   * nodes after i are heaps, and afterwards the node at i is one as well.
   */
  lemma {:induction false} HeapifyRestores(s: seq<int>, n: nat, lo: nat, i: nat)
    requires n <= |s| && lo <= i < n
    requires HeapExcept(s, n, lo, i) && ParentCovers(s, n, lo, i)
    ensures forall j :: lo <= j < n ==> HeapAt(Heapify(s, n, i), n, j)
    decreases n - i
  {
    var largest := Largest(s, n, i);
    if largest != i {
      SwapKeepsHeap(s, n, lo, i, largest);
      HeapifyRestores(Swap(s, i, largest), n, lo, largest);
    } else {
      assert HeapAt(s, n, i);
    }
  }

  /** In a heap, every node is at most the root (follow the parents up). */
  lemma {:induction false} RootIsMax(s: seq<int>, n: nat, k: nat)
    requires n <= |s| && IsHeap(s, n) && k < n
    ensures s[k] <= s[0]
  {
    if k > 0 {
      var p := ParentIndex(k);
      ChildParent(0, k);
      RootIsMax(s, n, p);
      assert HeapAt(s, n, p);
    }
  }

  /** Nodes k + 1 .. n - 1 that have no child inside the heap are heap nodes. */
  lemma LeavesAreHeaps(s: seq<int>, k: int)
    requires (|s| - 1) / 2 <= k < |s|
    ensures forall j :: k < j < |s| ==> HeapAt(s, |s|, j)
  {
  }

  /**
   * `build_max_heap` from index k: if the nodes after k are heap nodes, the
   * whole array ends up a heap.
   */
  lemma {:induction false} BuildMakesHeap(s: seq<int>, k: int)
    requires -1 <= k < |s|
    requires forall j :: k < j < |s| ==> HeapAt(s, |s|, j)
    ensures IsHeap(BuildFrom(s, k), |s|)
    decreases k + 1
  {
    if k >= 0 {
      HeapifyRestores(s, |s|, k, k);
      BuildMakesHeap(Heapify(s, |s|, k), k - 1);
    }
  }

  /** A heap on fewer cells, when the cells in between are not children. */
  lemma ShrinkHeap(s: seq<int>, t: seq<int>, n: nat)
    requires n + 1 <= |s| == |t| && IsHeap(s, n + 1)
    requires forall k :: 1 <= k < n ==> t[k] == s[k]
    ensures forall j :: 1 <= j < n ==> HeapAt(t, n, j)
  {
    forall j | 1 <= j < n
      ensures HeapAt(t, n, j)
    {
      assert HeapAt(s, n + 1, j);
    }
  }

  /** `max_heapify` cannot raise any cell of the heap above a common bound. */
  lemma {:induction false} HeapifyBounded(s: seq<int>, n: nat, i: nat, b: int)
    requires n <= |s| && i < n
    requires forall k :: 0 <= k < n ==> s[k] <= b
    ensures forall k :: 0 <= k < n ==> Heapify(s, n, i)[k] <= b
    decreases n - i
  {
    var largest := Largest(s, n, i);
    if largest != i {
      HeapifyBounded(Swap(s, i, largest), n, largest, b);
    }
  }

  /**
   * The state at the start of each round of the extraction loop: s[..i + 1] is
   * a heap, s[i + 1..] is sorted, and no cell of the heap exceeds a cell after it.
   */
  ghost predicate ExtractionState(s: seq<int>, i: int)
  {
    && 0 <= i < |s| && IsHeap(s, i + 1) && Sorted(s[i + 1..])
    && forall p, q :: 0 <= p <= i < q < |s| ==> s[p] <= s[q]
  }

  /** One round (swap the root to position i, heapify s[..i]) keeps the state. */
  lemma ExtractStep(s: seq<int>, i: int)
    requires ExtractionState(s, i) && i > 0
    ensures ExtractionState(Heapify(Swap(s, 0, i), i, 0), i - 1)
  {
    var t := Swap(s, 0, i);
    var u := Heapify(t, i, 0);
    forall k | 0 <= k <= i
      ensures s[k] <= s[0]
    {
      RootIsMax(s, i + 1, k);
    }
    HeapifyBounded(t, i, 0, s[0]);
    ShrinkHeap(s, t, i);
    HeapifyRestores(t, i, 0, 0);
    HeapifyFrame(t, i, 0);
    assert t[i] == s[0] && t[i + 1..] == s[i + 1..];
    assert t[i..] == [t[i]] + t[i + 1..];
    assert u[i..] == t[i..] == [s[0]] + s[i + 1..];
    assert forall q :: i < q < |s| ==> s[0] <= s[q];
    assert forall p :: 0 <= p < i ==> u[p] <= s[0];
  }

  /** The extraction loop sorts from any state it can start a round in. */
  lemma {:induction false} ExtractSorts(s: seq<int>, i: int)
    requires ExtractionState(s, i)
    ensures Sorted(Extract(s, i))
    decreases i
  {
    if i == 0 {
      assert s == [s[0]] + s[1..];
    } else {
      ExtractStep(s, i);
      ExtractSorts(Heapify(Swap(s, 0, i), i, 0), i - 1);
    }
  }

  /** The fixed build makes a heap of any array, so the result is sorted. */
  lemma HeapSortFixedSorts(s: seq<int>)
    ensures Sorted(HeapSortFixed(s)) && multiset(HeapSortFixed(s)) == multiset(s)
  {
    HeapSortPermutes(s);
    if |s| > 0 {
      LeavesAreHeaps(s, (|s| - 1) / 2);
      BuildMakesHeap(s, (|s| - 1) / 2);
      ExtractSorts(BuildFrom(s, (|s| - 1) / 2), |s| - 1);
    }
  }

  /** For even lengths len / 2 - 1 is the last internal index, and the code sorts. */
  lemma HeapSortSortsEvenLengths(s: seq<int>)
    requires |s| % 2 == 0
    ensures Sorted(HeapSortAsWritten(s))
    ensures HeapSortAsWritten(s) == HeapSortFixed(s)
  {
    assert |s| / 2 - 1 == (|s| - 1) / 2;
    HeapSortFixedSorts(s);
  }

  /** For odd lengths the build skips index len / 2, and `[1, 0, 5]` stays unsorted. */
  lemma HeapSortOddCounterexample()
    ensures HeapSortAsWritten([1, 0, 5]) == [0, 5, 1]
    ensures !Sorted(HeapSortAsWritten([1, 0, 5]))
  {
    var s := [1, 0, 5];
    assert BuildFrom(s, -1) == s;
    var t := Swap(s, 0, 2);
    assert t == [5, 0, 1];
    assert Heapify(t, 2, 0) == t;
    var u := Swap(t, 0, 1);
    assert u == [0, 5, 1];
    assert Heapify(u, 1, 0) == u;
    assert Extract(u, 0) == u;
    assert u[1] > u[2];
  }

  /** For an even length the code returns the sorted rearrangement of its input. */
  lemma HeapSortEvenResult(s: seq<int>, t: seq<int>)
    requires |s| % 2 == 0 && Sorted(t) && multiset(s) == multiset(t)
    ensures HeapSortAsWritten(s) == t
  {
    HeapSortSortsEvenLengths(s);
    HeapSortPermutes(s);
    SortedUnique(HeapSortAsWritten(s), t);
  }

  /** The demo input and the expected output hold the same elements. */
  lemma DemoPermutation()
    ensures multiset([31, 41, 59, 26, 41, 58]) == multiset([26, 31, 41, 41, 58, 59])
  {
    var s := [31, 41, 59, 26, 41, 58];
    var s1 := Swap(s, 0, 3);
    assert s1 == [26, 41, 59, 31, 41, 58];
    var s2 := Swap(s1, 1, 3);
    assert s2 == [26, 31, 59, 41, 41, 58];
    var s3 := Swap(s2, 2, 3);
    assert s3 == [26, 31, 41, 59, 41, 58];
    var s4 := Swap(s3, 3, 4);
    assert s4 == [26, 31, 41, 41, 59, 58];
    var s5 := Swap(s4, 4, 5);
    assert s5 == [26, 31, 41, 41, 58, 59];
    SwapPermutes(s, 0, 3);
    SwapPermutes(s1, 1, 3);
    SwapPermutes(s2, 2, 3);
    SwapPermutes(s3, 3, 4);
    SwapPermutes(s4, 4, 5);
  }

  /** The demo of the file: six elements, an even length. */
  lemma HeapSortDemo()
    ensures HeapSortAsWritten([31, 41, 59, 26, 41, 58]) == [26, 31, 41, 41, 58, 59]
  {
    DemoPermutation();
    HeapSortEvenResult([31, 41, 59, 26, 41, 58], [26, 31, 41, 41, 58, 59]);
  }

  // ---------------------------------------------------------------------------
  // The in-place code

  /** `max_heapify`, recursive and in place. */
  method MaxHeapify(heap: array<int>, n: nat, i: nat)
    requires n <= heap.Length && i < n
    modifies heap
    ensures heap[..] == Heapify(old(heap[..]), n, i)
    decreases n - i
  {
    var left := LeftIndex(i);
    var right := RightIndex(i);
    var largest;
    if left < n && heap[left] > heap[i] {
      largest := left;
    } else {
      largest := i;
    }
    if right < n && heap[right] > heap[largest] {
      largest := right;
    }
    if largest != i {
      heap[i], heap[largest] := heap[largest], heap[i];
      MaxHeapify(heap, n, largest);
    }
  }

  /** `build_max_heap`: the loop over i = len / 2 - 1 down to 0. */
  method BuildMaxHeap(data: array<int>)
    modifies data
    ensures data[..] == BuildFrom(old(data[..]), data.Length / 2 - 1)
  {
    ghost var goal := BuildFrom(data[..], data.Length / 2 - 1);
    var i := data.Length / 2 - 1;
    while i >= 0
      invariant -1 <= i < data.Length
      invariant BuildFrom(data[..], i) == goal
    {
      MaxHeapify(data, data.Length, i);
      i := i - 1;
    }
  }

  /** `heap_sort`: sorts `data` in place and returns the same array. */
  method HeapSortInPlace(data: array<int>) returns (r: array<int>)
    modifies data
    ensures r == data
    ensures data[..] == HeapSortAsWritten(old(data[..]))
  {
    BuildMaxHeap(data);
    ghost var goal := Extract(data[..], data.Length - 1);
    var i := data.Length - 1;
    while i > 0
      invariant -1 <= i < data.Length
      invariant Extract(data[..], i) == goal
    {
      ghost var before := data[..];
      data[0], data[i] := data[i], data[0];
      assert data[..] == Swap(before, 0, i);
      MaxHeapify(data, i, 0);
      i := i - 1;
    }
    r := data;
  }
}
