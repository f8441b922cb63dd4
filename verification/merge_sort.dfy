/**
 * Merge sort (01-merge-sort.py).
 *
 * `merge_sort` splits its list at `len / 2`, sorts both halves recursively and
 * merges them. The nested `merge` appends the smaller head of the two lists
 * (the left one on ties) while both are non-empty. Once one list is empty it
 * copies the other with `for i in xs: result.append(i); xs.pop(0)`, a loop
 * that removes items from the list it is iterating over. Python's list
 * iterator advances a position counter while the list shrinks from the front,
 * so one pass appends the items at positions 0, 2, 4, ... and leaves the last
 * `len / 2` items behind for the next round of the outer loop. The tails are
 * therefore copied faithfully only when they hold at most two items.
 *
 * `MergeAsWritten` and `MergeSortAsWritten` are what the code computes;
 * `MergeFixed` and `MergeSortFixed` copy the tail whole, as evidently
 * intended, and are proved to sort.
 */
module MergeSort {
  import opened Lib

  /**
   * What one pass of the tail loop appends: the items at positions 0, 2, 4, ...
   */
  function EvenPositions(s: seq<int>): (r: seq<int>)
    ensures |r| == (|s| + 1) / 2
  {
    if |s| <= 1 then s else [s[0]] + EvenPositions(s[2..])
  }

  lemma {:induction false} EvenPositionsAt(s: seq<int>, i: nat)
    requires i < (|s| + 1) / 2
    ensures EvenPositions(s)[i] == s[2 * i]
  {
    if i > 0 {
      EvenPositionsAt(s[2..], i - 1);
    }
  }

  /**
   * The result of `merge` as written, tail loops included. Every append is
   * matched by a pop, so no length is lost or gained.
   */
  function MergeAsWritten(left: seq<int>, right: seq<int>): (r: seq<int>)
    ensures |r| == |left| + |right|
    decreases |left| + |right|
  {
    if |left| > 0 && |right| > 0 then
      if left[0] > right[0] then [right[0]] + MergeAsWritten(left, right[1..])
      else [left[0]] + MergeAsWritten(left[1..], right)
    else if |right| > 0 then
      EvenPositions(right) + MergeAsWritten(left, right[(|right| + 1) / 2..])
    else if |left| > 0 then
      EvenPositions(left) + MergeAsWritten(left[(|left| + 1) / 2..], right)
    else
      []
  }

  /** `merge_sort` as written: as long as its input, but not always sorted. */
  function MergeSortAsWritten(data: seq<int>): (r: seq<int>)
    ensures |r| == |data|
    decreases |data|
  {
    if |data| <= 1 then data
    else
      var middle := |data| / 2;
      MergeAsWritten(MergeSortAsWritten(data[..middle]), MergeSortAsWritten(data[middle..]))
  }

  /**
   * One run of `for i in xs: result.append(i); xs.pop(0)`: the iterator's
   * position advances while the list loses its first item, so the items at
   * even positions are appended and the last `|xs| / 2` items are left.
   */
  method TailPass(result0: seq<int>, xs0: seq<int>) returns (result: seq<int>, xs: seq<int>)
    ensures result == result0 + EvenPositions(xs0)
    ensures xs == xs0[(|xs0| + 1) / 2..]
  {
    result, xs := result0, xs0;
    var k := 0;
    while k < |xs|
      invariant 0 <= k && 2 * k <= |xs0| + 1
      invariant xs == xs0[k..]
      invariant result == result0 + EvenPositions(xs0)[..k]
    {
      var i := xs[k];
      k := k + 1;
      result := result + [i];
      xs := xs[1..];
      EvenPositionsAt(xs0, k - 1);
      assert EvenPositions(xs0)[..k] == EvenPositions(xs0)[..k - 1] + [xs0[2 * (k - 1)]];
    }
    assert EvenPositions(xs0)[..k] == EvenPositions(xs0);
  }

  /** The outer loop's invariant survives one tail pass. */
  lemma TailPassKeeps(before: seq<int>, left: seq<int>, right: seq<int>, goal: seq<int>)
    requires before + MergeAsWritten(left, right) == goal
    requires (|left| == 0 && |right| > 0) || (|left| > 0 && |right| == 0)
    ensures |left| == 0 ==>
      before + EvenPositions(right) + MergeAsWritten(left, right[(|right| + 1) / 2..]) == goal
    ensures |right| == 0 ==>
      before + EvenPositions(left) + MergeAsWritten(left[(|left| + 1) / 2..], right) == goal
  {
  }

  /** The outer loop's invariant survives one comparison of the two heads. */
  lemma HeadStepKeeps(before: seq<int>, left: seq<int>, right: seq<int>, goal: seq<int>)
    requires before + MergeAsWritten(left, right) == goal
    requires |left| > 0 && |right| > 0
    ensures left[0] > right[0] ==> before + [right[0]] + MergeAsWritten(left, right[1..]) == goal
    ensures left[0] <= right[0] ==> before + [left[0]] + MergeAsWritten(left[1..], right) == goal
  {
  }

  /**
   * `merge`: appends to `result` and pops from the front of `left` and `right`
   * until both are empty.
   */
  method Merge(left0: seq<int>, right0: seq<int>) returns (result: seq<int>)
    ensures result == MergeAsWritten(left0, right0)
  {
    var left, right := left0, right0;
    result := [];
    ghost var goal := MergeAsWritten(left0, right0);
    while |left| > 0 || |right| > 0
      invariant result + MergeAsWritten(left, right) == goal
      decreases |left| + |right|
    {
      if |left| > 0 && |right| > 0 {
        HeadStepKeeps(result, left, right, goal);
        if left[0] > right[0] {
          result := result + [right[0]];
          right := right[1..];
        } else {
          result := result + [left[0]];
          left := left[1..];
        }
      } else if |right| > 0 {
        TailPassKeeps(result, left, right, goal);
        result, right := TailPass(result, right);
      } else {
        TailPassKeeps(result, left, right, goal);
        result, left := TailPass(result, left);
      }
    }
  }

  /** A tail of at most two items is copied as it is. */
  lemma ShortTailCopied(s: seq<int>)
    requires |s| <= 2
    ensures MergeAsWritten([], s) == s
    ensures MergeAsWritten(s, []) == s
  {
    if |s| == 2 {
      assert MergeAsWritten([], s[1..]) == s[1..];
      assert MergeAsWritten(s[1..], []) == s[1..];
    }
  }

  /** A tail of three or more items has its third item where its second belongs. */
  lemma LongTailScrambled(s: seq<int>)
    requires |s| >= 3
    ensures |MergeAsWritten([], s)| == |s| && MergeAsWritten([], s)[1] == s[2]
    ensures |MergeAsWritten(s, [])| == |s| && MergeAsWritten(s, [])[1] == s[2]
  {
    EvenPositionsAt(s, 1);
  }

  /** The hand-traced merge: 3 is lost and 4 is appended twice. */
  lemma MergeCounterexample()
    ensures MergeAsWritten([1], [2, 3, 4]) == [1, 2, 4, 4]
  {
    assert MergeAsWritten([], [4]) == [4];
    assert EvenPositions([2, 3, 4]) == [2, 4];
    assert MergeAsWritten([], [2, 3, 4]) == [2, 4, 4];
  }

  lemma SortsTwo(x: int, y: int)
    requires x <= y
    ensures MergeSortAsWritten([x, y]) == [x, y]
  {
    assert [x, y][..1] == [x] && [x, y][1..] == [y];
    assert MergeAsWritten([], [y]) == [y];
  }

  lemma SortsThree()
    ensures MergeSortAsWritten([3, 4, 5]) == [3, 4, 5]
  {
    assert [3, 4, 5][..1] == [3] && [3, 4, 5][1..] == [4, 5];
    SortsTwo(4, 5);
    ShortTailCopied([4, 5]);
  }

  lemma MergesFinalHalves()
    ensures MergeAsWritten([1, 2], [3, 4, 5]) == [1, 2, 3, 5, 5]
  {
    assert EvenPositions([3, 4, 5]) == [3, 5];
    assert MergeAsWritten([], [5]) == [5];
    assert MergeAsWritten([], [3, 4, 5]) == [3, 5, 5];
    assert MergeAsWritten([2], [3, 4, 5]) == [2, 3, 5, 5];
  }

  /** The hand-traced sort: 4 is lost and 5 is returned twice. */
  lemma MergeSortCounterexample()
    ensures MergeSortAsWritten([1, 2, 3, 4, 5]) == [1, 2, 3, 5, 5]
    ensures 4 !in MergeSortAsWritten([1, 2, 3, 4, 5])
  {
    var s := [1, 2, 3, 4, 5];
    assert MergeSortAsWritten(s) == [1, 2, 3, 5, 5] by {
      assert s[..2] == [1, 2] && s[2..] == [3, 4, 5];
      SortsTwo(1, 2);
      SortsThree();
      MergesFinalHalves();
    }
  }

  /** `merge` with the tail copied whole. */
  function MergeFixed(left: seq<int>, right: seq<int>): seq<int>
    decreases |left| + |right|
  {
    if left == [] then right
    else if right == [] then left
    else if left[0] > right[0] then [right[0]] + MergeFixed(left, right[1..])
    else [left[0]] + MergeFixed(left[1..], right)
  }

  /** `merge_sort` over the fixed merge. */
  function MergeSortFixed(data: seq<int>): seq<int>
    decreases |data|
  {
    if |data| <= 1 then data
    else
      var middle := |data| / 2;
      MergeFixed(MergeSortFixed(data[..middle]), MergeSortFixed(data[middle..]))
  }

  /** The as-written merge agrees with the fixed one when no tail is longer than two. */
  lemma {:induction false} MergeAgreesOnShortLists(left: seq<int>, right: seq<int>)
    requires |left| <= 2 && |right| <= 2
    ensures MergeAsWritten(left, right) == MergeFixed(left, right)
    decreases |left| + |right|
  {
    if |left| > 0 && |right| > 0 {
      if left[0] > right[0] {
        MergeAgreesOnShortLists(left, right[1..]);
      } else {
        MergeAgreesOnShortLists(left[1..], right);
      }
    } else {
      ShortTailCopied(left);
      ShortTailCopied(right);
    }
  }

  lemma {:induction false} MergeFixedPermutes(left: seq<int>, right: seq<int>)
    ensures multiset(MergeFixed(left, right)) == multiset(left) + multiset(right)
    decreases |left| + |right|
  {
    if left != [] && right != [] {
      if left[0] > right[0] {
        var rest := MergeFixed(left, right[1..]);
        assert MergeFixed(left, right) == [right[0]] + rest;
        MergeFixedPermutes(left, right[1..]);
        assert right == [right[0]] + right[1..];
        assert multiset(right) == multiset{right[0]} + multiset(right[1..]);
      } else {
        var rest := MergeFixed(left[1..], right);
        assert MergeFixed(left, right) == [left[0]] + rest;
        MergeFixedPermutes(left[1..], right);
        assert left == [left[0]] + left[1..];
        assert multiset(left) == multiset{left[0]} + multiset(left[1..]);
      }
    }
  }

  /** Merging two sorted lists gives a sorted list that starts with one of their heads. */
  lemma {:induction false} MergeFixedSorted(left: seq<int>, right: seq<int>)
    requires Sorted(left) && Sorted(right)
    ensures Sorted(MergeFixed(left, right))
    ensures |MergeFixed(left, right)| == |left| + |right|
    ensures MergeFixed(left, right) != [] ==>
      (left != [] && MergeFixed(left, right)[0] == left[0]) ||
      (right != [] && MergeFixed(left, right)[0] == right[0])
    decreases |left| + |right|
  {
    if left != [] && right != [] {
      if left[0] > right[0] {
        MergeFixedSorted(left, right[1..]);
      } else {
        MergeFixedSorted(left[1..], right);
      }
    }
  }

  /** The fixed merge sort returns a sorted permutation of its input. */
  lemma {:induction false} MergeSortFixedSorts(data: seq<int>)
    ensures Sorted(MergeSortFixed(data))
    ensures multiset(MergeSortFixed(data)) == multiset(data)
    decreases |data|
  {
    if |data| > 1 {
      var middle := |data| / 2;
      var front, back := data[..middle], data[middle..];
      MergeSortFixedSorts(front);
      MergeSortFixedSorts(back);
      var sortedFront, sortedBack := MergeSortFixed(front), MergeSortFixed(back);
      MergeFixedSorted(sortedFront, sortedBack);
      MergeFixedPermutes(sortedFront, sortedBack);
      SplitMultiset(data, middle);
      assert MergeSortFixed(data) == MergeFixed(sortedFront, sortedBack);
    }
  }

  lemma SplitMultiset(s: seq<int>, i: nat)
    requires i <= |s|
    ensures multiset(s) == multiset(s[..i]) + multiset(s[i..])
  {
    assert s == s[..i] + s[i..];
  }

}
