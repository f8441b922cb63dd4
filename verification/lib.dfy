/**
 * The sortedness oracle of the benchmarking helpers (lib.py).
 *
 * `array_is_sorted` walks the indices of its argument and returns True when it
 * reaches the last index, False at the first descent, and falls off the end of
 * the function (returning None) on an empty array. The three outcomes are
 * modelled as `Some(true)`, `Some(false)` and `None`.
 */
module Lib {
  import opened Wrappers

  /** Every element is at least as large as the one before it. */
  predicate Sorted(s: seq<int>)
  {
    forall i :: 0 < i < |s| ==> s[i - 1] <= s[i]
  }

  /** Adjacent order gives the order of every pair. */
  lemma {:induction false} SortedPairs(s: seq<int>, i: int, j: int)
    requires Sorted(s) && 0 <= i <= j < |s|
    ensures s[i] <= s[j]
  {
    if i < j {
      SortedPairs(s, i, j - 1);
    }
  }

  /** Two sorted sequences with the same elements start with the same element. */
  lemma SameFirst(a: seq<int>, b: seq<int>)
    requires Sorted(a) && Sorted(b) && multiset(a) == multiset(b) && a != []
    ensures b != [] && a[0] == b[0]
  {
    assert a[0] in multiset(b);
    var k :| 0 <= k < |b| && b[k] == a[0];
    assert b[0] in multiset(a);
    var m :| 0 <= m < |a| && a[m] == b[0];
    SortedPairs(b, 0, k);
    SortedPairs(a, 0, m);
  }

  /** Removing the same first element keeps the multisets equal. */
  lemma SameRest(a: seq<int>, b: seq<int>)
    requires a != [] && b != [] && a[0] == b[0] && multiset(a) == multiset(b)
    ensures multiset(a[1..]) == multiset(b[1..])
  {
    assert a == [a[0]] + a[1..];
    assert b == [b[0]] + b[1..];
    assert multiset(a) == multiset{a[0]} + multiset(a[1..]);
    assert multiset(b) == multiset{b[0]} + multiset(b[1..]);
    forall x
      ensures multiset(a[1..])[x] == multiset(b[1..])[x]
    {
      assert multiset(a)[x] == multiset(b)[x];
    }
  }

  /** A sorted sequence is determined by its multiset of elements. */
  lemma {:induction false} SortedUnique(a: seq<int>, b: seq<int>)
    requires Sorted(a) && Sorted(b) && multiset(a) == multiset(b)
    ensures a == b
    decreases |a|
  {
    if a == [] {
      assert |b| == |multiset(b)| == 0;
    } else {
      SameFirst(a, b);
      SameRest(a, b);
      var a', b' := a[1..], b[1..];
      assert Sorted(a') && Sorted(b');
      SortedUnique(a', b');
      assert a == [a[0]] + a' && b == [b[0]] + b';
    }
  }

  /** The loop of `array_is_sorted`; the array is only read. */
  method ArrayIsSorted(a: seq<int>) returns (r: Option<bool>)
    ensures r == None <==> |a| == 0
    ensures r == Some(true) <==> |a| > 0 && Sorted(a)
    ensures r == Some(false) <==> exists i :: 0 < i < |a| && a[i] < a[i - 1]
  {
    var index := 0;
    while index < |a|
      invariant 0 <= index <= |a|
      invariant |a| > 0 ==> index < |a|
      invariant forall i :: 0 < i <= index && i < |a| ==> a[i - 1] <= a[i]
    {
      var next := index + 1;
      if next == |a| {
        return Some(true);
      } else if a[next] < a[index] {
        return Some(false);
      }
      index := index + 1;
    }
    return None;
  }
}
