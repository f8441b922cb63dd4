/**
 * Insertion sort over a caller-supplied comparison function (00-insertion-sort.py).
 *
 * `insertion_sort(data, compare_func)` copies `data` into a fresh list and,
 * for j = 1 .. n-1, moves `array[j]` to the left past every element that
 * compares greater than it. The comparison returns a negative, zero or
 * positive number for less, equal or greater.
 *
 * The in-place method is proved against `Sort`, a function on sequences that
 * performs the same insertions; `Sort` is then shown to return a sorted
 * permutation of its input that keeps equal elements in their input order.
 */
module InsertionSort {

  /** The properties of a three-way comparison that the sort relies on. */
  ghost predicate IsComparator<T(!new)>(cmp: (T, T) -> int)
  {
    && (forall a, b :: cmp(a, b) > 0 <==> cmp(b, a) < 0)
    && (forall a, b, c :: cmp(a, b) <= 0 && cmp(b, c) <= 0 ==> cmp(a, c) <= 0)
  }

  /** Consecutive elements compare less than or equal. */
  ghost predicate SortedBy<T>(s: seq<T>, cmp: (T, T) -> int)
  {
    forall i :: 0 < i < |s| ==> cmp(s[i - 1], s[i]) <= 0
  }

  /** The comparison function of the demo: -1, 1 or 0 for less, greater or equal. */
  function Compare(a: int, b: int): (r: int)
    ensures r < 0 <==> a < b
    ensures r > 0 <==> a > b
    ensures r in {-1, 0, 1}
  {
    if a < b then -1
    else if a > b then 1
    else 0
  }

  /** `Compare` is a comparison in the sense the sort needs. */
  lemma CompareIsComparator()
    ensures IsComparator(Compare)
  {
  }

  /**
   * One pass of the inner loop: `key` moves left past every element at the end
   * of `s` that compares greater than it.
   */
  function Insert<T>(s: seq<T>, key: T, cmp: (T, T) -> int): (r: seq<T>)
    ensures |r| == |s| + 1
  {
    if s == [] then [key]
    else if cmp(s[|s| - 1], key) > 0 then Insert(s[..|s| - 1], key, cmp) + [s[|s| - 1]]
    else s + [key]
  }

  /** The outer loop: insert each element, left to right, into the sorted prefix. */
  function Sort<T>(s: seq<T>, cmp: (T, T) -> int): (r: seq<T>)
    ensures |r| == |s|
  {
    if s == [] then [] else Insert(Sort(s[..|s| - 1], cmp), s[|s| - 1], cmp)
  }

  /** The elements of `s` that compare equal to `x`, in their order in `s`. */
  function Equivalents<T>(s: seq<T>, x: T, cmp: (T, T) -> int): seq<T>
  {
    if s == [] then []
    else Equivalents(s[..|s| - 1], x, cmp) + (if cmp(s[|s| - 1], x) == 0 then [s[|s| - 1]] else [])
  }

  lemma {:induction false} InsertPermutes<T>(s: seq<T>, key: T, cmp: (T, T) -> int)
    ensures multiset(Insert(s, key, cmp)) == multiset(s) + multiset{key}
  {
    if s != [] && cmp(s[|s| - 1], key) > 0 {
      InsertPermutes(s[..|s| - 1], key, cmp);
      assert s == s[..|s| - 1] + [s[|s| - 1]];
    }
  }

  /** The output is a permutation of the input. */
  lemma {:induction false} SortPermutes<T>(s: seq<T>, cmp: (T, T) -> int)
    ensures multiset(Sort(s, cmp)) == multiset(s)
  {
    if s != [] {
      var p, x := s[..|s| - 1], s[|s| - 1];
      var q := Sort(p, cmp);
      assert Sort(s, cmp) == Insert(q, x, cmp);
      SortPermutes(p, cmp);
      InsertPermutes(q, x, cmp);
      assert multiset(s) == multiset(p) + multiset{x} by {
        assert s == p + [x];
      }
    }
  }

  /** The last element after an insertion is the key or the old last element. */
  lemma {:induction false} InsertLast<T>(s: seq<T>, key: T, cmp: (T, T) -> int)
    ensures |Insert(s, key, cmp)| == |s| + 1
    ensures var r := Insert(s, key, cmp);
      r[|r| - 1] == key || (s != [] && r[|r| - 1] == s[|s| - 1])
  {
    if s != [] && cmp(s[|s| - 1], key) > 0 {
      InsertLast(s[..|s| - 1], key, cmp);
    }
  }

  /** The half of `IsComparator` that insertion needs: "greater" flips to "less". */
  ghost predicate Flips<T(!new)>(cmp: (T, T) -> int)
  {
    forall a, b :: cmp(a, b) > 0 ==> cmp(b, a) < 0
  }

  lemma {:induction false} InsertSorted<T(!new)>(s: seq<T>, key: T, cmp: (T, T) -> int)
    requires Flips(cmp) && SortedBy(s, cmp)
    ensures SortedBy(Insert(s, key, cmp), cmp)
  {
    if s != [] && cmp(s[|s| - 1], key) > 0 {
      var init := s[..|s| - 1];
      var last := s[|s| - 1];
      InsertSorted(init, key, cmp);
      InsertLast(init, key, cmp);
      var r := Insert(init, key, cmp);
      if init != [] && r[|r| - 1] == init[|init| - 1] {
        assert cmp(s[|s| - 2], last) <= 0;
      } else {
        assert cmp(key, last) < 0;
      }
      assert Insert(s, key, cmp) == r + [last];
    }
  }

  /** With a proper comparison, consecutive output elements compare at most 0. */
  lemma {:induction false} SortSorted<T(!new)>(s: seq<T>, cmp: (T, T) -> int)
    requires IsComparator(cmp)
    ensures SortedBy(Sort(s, cmp), cmp)
  {
    if s != [] {
      SortSorted(s[..|s| - 1], cmp);
      assert Flips(cmp);
      InsertSorted(Sort(s[..|s| - 1], cmp), s[|s| - 1], cmp);
    }
  }

  lemma {:induction false} EquivalentsAppend<T>(a: seq<T>, b: seq<T>, x: T, cmp: (T, T) -> int)
    ensures Equivalents(a + b, x, cmp) == Equivalents(a, x, cmp) + Equivalents(b, x, cmp)
  {
    if b != [] {
      EquivalentsAppend(a, b[..|b| - 1], x, cmp);
      assert (a + b)[..|a + b| - 1] == a + b[..|b| - 1];
    } else {
      assert a + b == a;
    }
  }

  /**
   * For a fixed `x`: an element that compares greater than another cannot
   * compare equal to `x` when the other one does.
   */
  ghost predicate EquivalenceSeparates<T(!new)>(x: T, cmp: (T, T) -> int)
  {
    forall y, key :: cmp(y, key) > 0 ==> !(cmp(y, x) == 0 && cmp(key, x) == 0)
  }

  lemma ComparatorSeparates<T(!new)>(x: T, cmp: (T, T) -> int)
    requires IsComparator(cmp)
    ensures EquivalenceSeparates(x, cmp)
  {
    forall y, key | cmp(y, key) > 0 && cmp(key, x) == 0
      ensures cmp(y, x) != 0
    {
      assert cmp(x, key) <= 0;
    }
  }

  lemma EquivalentsSingleton<T>(y: T, x: T, cmp: (T, T) -> int)
    ensures Equivalents([y], x, cmp) == if cmp(y, x) == 0 then [y] else []
  {
    assert [y][..0] == [];
  }

  lemma {:induction false} InsertKeepsEquivalents<T(!new)>(s: seq<T>, key: T, x: T, cmp: (T, T) -> int)
    requires EquivalenceSeparates(x, cmp)
    ensures Equivalents(Insert(s, key, cmp), x, cmp)
         == Equivalents(s, x, cmp) + Equivalents([key], x, cmp)
  {
    if s == [] {
      assert Insert(s, key, cmp) == [key];
    } else if cmp(s[|s| - 1], key) > 0 {
      var init, last := s[..|s| - 1], s[|s| - 1];
      assert s == init + [last];
      assert Insert(s, key, cmp) == Insert(init, key, cmp) + [last];
      InsertKeepsEquivalents(init, key, x, cmp);
      EquivalentsAppend(Insert(init, key, cmp), [last], x, cmp);
      EquivalentsAppend(init, [last], x, cmp);
      EquivalentsSingleton(last, x, cmp);
      EquivalentsSingleton(key, x, cmp);
      assert Equivalents([key], x, cmp) == [] || Equivalents([last], x, cmp) == [];
    } else {
      assert Insert(s, key, cmp) == s + [key];
      EquivalentsAppend(s, [key], x, cmp);
    }
  }

  lemma {:induction false} SortKeepsEquivalents<T(!new)>(s: seq<T>, x: T, cmp: (T, T) -> int)
    requires EquivalenceSeparates(x, cmp)
    ensures Equivalents(Sort(s, cmp), x, cmp) == Equivalents(s, x, cmp)
  {
    if s != [] {
      SortKeepsEquivalents(s[..|s| - 1], x, cmp);
      InsertKeepsEquivalents(Sort(s[..|s| - 1], cmp), s[|s| - 1], x, cmp);
    }
  }

  /**
   * Stability: for every `x`, the elements equal to `x` appear in the output in
   * the order they had in the input.
   */
  lemma SortIsStable<T(!new)>(s: seq<T>, x: T, cmp: (T, T) -> int)
    requires IsComparator(cmp)
    ensures Equivalents(Sort(s, cmp), x, cmp) == Equivalents(s, x, cmp)
  {
    ComparatorSeparates(x, cmp);
    SortKeepsEquivalents(s, x, cmp);
  }

  /** The input of the demo sorts to the list it asserts. */
  lemma DemoSort()
    ensures Sort([31, 41, 59, 26, 41, 58], Compare) == [26, 31, 41, 41, 58, 59]
  {
    var s := [31, 41, 59, 26, 41, 58];
    assert s[..1] == [31];
    assert Sort(s[..1], Compare) == [31];
    assert s[..2][..1] == s[..1];
    assert Sort(s[..2], Compare) == [31, 41];
    assert s[..3][..2] == s[..2];
    assert Insert([31, 41], 59, Compare) == [31, 41, 59];
    assert Sort(s[..3], Compare) == [31, 41, 59];
    assert s[..4][..3] == s[..3];
    assert Insert([31], 26, Compare) == [26, 31];
    assert Insert([31, 41], 26, Compare) == [26, 31, 41];
    assert Insert([31, 41, 59], 26, Compare) == [26, 31, 41, 59];
    assert Sort(s[..4], Compare) == [26, 31, 41, 59];
    assert s[..5][..4] == s[..4];
    assert Insert([26, 31, 41], 41, Compare) == [26, 31, 41, 41];
    assert Insert([26, 31, 41, 59], 41, Compare) == [26, 31, 41, 41, 59];
    assert Sort(s[..5], Compare) == [26, 31, 41, 41, 59];
    assert s[..6][..5] == s[..5];
    assert Insert([26, 31, 41, 41], 58, Compare) == [26, 31, 41, 41, 58];
    assert Insert([26, 31, 41, 41, 59], 58, Compare) == [26, 31, 41, 41, 58, 59];
    assert s[..6] == s;
  }

  /** The outer loop's step: the sorted prefix grows by one insertion. */
  lemma SortPrefix<T>(s: seq<T>, j: nat, cmp: (T, T) -> int)
    requires j < |s|
    ensures Sort(s[..j + 1], cmp) == Insert(Sort(s[..j], cmp), s[j], cmp)
  {
    assert s[..j + 1][..j] == s[..j];
  }

  /** One step of the inner loop, stated on the sequence it reads. */
  lemma InsertStep<T>(pre: seq<T>, i: nat, j: nat, key: T, cmp: (T, T) -> int)
    requires i < j <= |pre| && cmp(pre[i], key) > 0
    requires Insert(pre[..j], key, cmp) == Insert(pre[..i + 1], key, cmp) + pre[i + 1..j]
    ensures Insert(pre[..j], key, cmp) == Insert(pre[..i], key, cmp) + pre[i..j]
  {
    assert pre[..i + 1][..i] == pre[..i];
    assert pre[i..j] == [pre[i]] + pre[i + 1..j];
  }

  /**
   * The state of the inner loop: cells up to i are untouched, the key sits at
   * i + 1, the cells i + 1 .. j - 1 of `pre` have moved one place right, and
   * the cells after j are untouched.
   */
  ghost predicate Shifted<T>(cur: seq<T>, pre: seq<T>, i: int, j: int, key: T)
  {
    && -1 <= i < j < |pre| == |cur|
    && (forall k :: 0 <= k <= i ==> cur[k] == pre[k])
    && cur[i + 1] == key
    && (forall k :: i + 2 <= k <= j ==> cur[k] == pre[k - 1])
    && (forall k :: j < k < |cur| ==> cur[k] == pre[k])
  }

  /** One shift of the inner loop keeps `Shifted`. */
  lemma ShiftStep<T>(cur: seq<T>, pre: seq<T>, i: int, j: int, key: T)
    requires Shifted(cur, pre, i, j, key) && 0 <= i
    ensures Shifted(cur[i + 1 := cur[i]][i := key], pre, i - 1, j, key)
  {
  }

  /** Where the inner loop stops, the first j + 1 cells hold the insertion. */
  lemma InsertLoopExit<T>(pre: seq<T>, cur: seq<T>, i: int, j: nat, key: T, cmp: (T, T) -> int)
    requires Shifted(cur, pre, i, j, key)
    requires i < 0 || cmp(pre[i], key) <= 0
    requires Insert(pre[..j], key, cmp) == Insert(pre[..i + 1], key, cmp) + pre[i + 1..j]
    ensures cur[..j + 1] == Insert(pre[..j], key, cmp)
    ensures cur[j + 1..] == pre[j + 1..]
  {
    var inserted := pre[..i + 1] + [key] + pre[i + 1..j];
    assert Insert(pre[..i + 1], key, cmp) == pre[..i + 1] + [key];
    forall k | 0 <= k <= j
      ensures cur[k] == inserted[k]
    {
    }
    assert cur[..j + 1] == inserted;
  }

  /** One pass of the outer loop: shifts the larger elements of the sorted
      prefix a[..j] right by one and drops a[j] into the gap. */
  method InsertKey<T>(a: array<T>, j: int, cmp: (T, T) -> int)
    requires 0 <= j < a.Length
    modifies a
    ensures a[..j + 1] == Insert(old(a[..j]), old(a[j]), cmp)
    ensures a[j + 1..] == old(a[j + 1..])
  {
    var key := a[j];
    ghost var pre := a[..];
    var i := j - 1;
    while i >= 0 && cmp(a[i], key) > 0
      invariant Shifted(a[..], pre, i, j, key)
      invariant Insert(pre[..j], key, cmp) == Insert(pre[..i + 1], key, cmp) + pre[i + 1..j]
    {
      ghost var cur := a[..];
      assert a[i] == pre[i];
      InsertStep(pre, i, j, key, cmp);
      ShiftStep(cur, pre, i, j, key);
      a[i + 1] := a[i];
      i := i - 1;
      a[i + 1] := key;
      assert a[..] == cur[i + 2 := cur[i + 1]][i + 1 := key];
    }
    InsertLoopExit(pre, a[..], i, j, key, cmp);
  }

  /**
   * `insertion_sort`: copies `data` and sorts the copy in place; `data` itself is
   * only read.
   */
  method InsertionSort<T>(data: array<T>, cmp: (T, T) -> int) returns (a: array<T>)
    ensures fresh(a)
    ensures a[..] == Sort(data[..], cmp)
  {
    a := new T[data.Length](i reads data requires 0 <= i < data.Length => data[i]);
    ghost var input := a[..];
    assert input == data[..];
    if a.Length == 0 {
      return;
    }
    assert a[..1] == Sort(input[..1], cmp);
    var j := 1;
    while j < a.Length
      invariant 1 <= j <= a.Length
      invariant a[..j] == Sort(input[..j], cmp)
      invariant a[j..] == input[j..]
    {
      ghost var pre := a[..];
      assert pre[j] == input[j];
      InsertKey(a, j, cmp);
      SortPrefix(input, j, cmp);
      assert a[j + 1..] == pre[j + 1..] == input[j + 1..];
      j := j + 1;
    }
    assert input[..a.Length] == input;
  }
}
