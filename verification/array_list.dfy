/**
 * The dynamic array of 07-array-list.py: a fixed-size Python list that is
 * replaced by one twice as long when it is full.
 *
 * A slot never written holds Python's `None`, so the slots are `Option`s
 * and a stored `x` is `Some(x)`. Python raises `IndexError` when `append`
 * writes past the end, which happens exactly when the starting capacity is
 * below 1; `Append` then answers `false`.
 */
module ArrayLists {
  import opened Wrappers
  import opened PythonLists

  /** 2 to the power k. */
  function Pow2(k: nat): (r: nat)
    ensures r >= 1
  {
    if k == 0 then 1 else 2 * Pow2(k - 1)
  }

  /** Doubling a capacity of the form start * 2^k gives start * 2^(k + 1). */
  lemma Doubled(start: int, k: nat)
    ensures 2 * (start * Pow2(k)) == start * Pow2(k + 1)
  {
  }

  /** A capacity of the form start * 2^k is at least 1 exactly when start is. */
  lemma PositiveCapacity(start: int, k: nat)
    ensures start * Pow2(k) >= 1 <==> start >= 1
  {
    if start >= 1 {
      assert start * Pow2(k) >= Pow2(k);
    } else {
      assert start * Pow2(k) <= 0;
    }
  }

  class ArrayList<T> {
    var list: array<Option<T>>
    var size: nat
    var capacity: int
    /** The starting capacity, and how many times it has been doubled. */
    ghost var start: int
    ghost var doublings: nat

    /**
     * The list is as long as the capacity says, the elements fill a prefix
     * of it, and the capacity is the starting one doubled some number of
     * times.
     */
    ghost predicate Valid()
      reads this
    {
      && list.Length == Repeats(capacity)
      && size <= list.Length
      && capacity == start * Pow2(doublings)
    }

    /** The elements, first appended first. */
    ghost function Elements(): seq<Option<T>>
      reads this, list
      requires Valid()
    {
      list[..size]
    }

    /** `ArrayList(starting_capacity)`: an empty list of that capacity. */
    constructor (startingCapacity: int := 1)
      ensures Valid() && fresh(list) && size == 0 && capacity == startingCapacity
      ensures start == startingCapacity && doublings == 0
    {
      list := new Option<T>[Repeats(startingCapacity)](_ => None);
      size := 0;
      capacity := startingCapacity;
      start, doublings := startingCapacity, 0;
    }

    /**
     * `append(x)`: a full list is first copied into one of twice the
     * capacity; x is stored after the elements. The write fails, and
     * nothing is stored, exactly when the starting capacity is below 1.
     */
    method Append(x: T) returns (ok: bool)
      requires Valid()
      modifies this, list
      ensures Valid() && start == old(start) && (list == old(list) || fresh(list))
      ensures ok <==> start >= 1
      ensures capacity == if old(size) == old(capacity) then 2 * old(capacity) else old(capacity)
      ensures doublings == if old(size) == old(capacity) then old(doublings) + 1 else old(doublings)
      ensures ok ==> size == old(size) + 1 && Elements() == old(Elements()) + [Some(x)]
      ensures !ok ==> size == old(size) && Elements() == old(Elements())
    {
      PositiveCapacity(start, doublings);
      if size == capacity {
        var newCapacity := capacity * 2;
        var newList := new Option<T>[Repeats(newCapacity)](_ => None);
        for i := 0 to size
          modifies newList
          invariant newList[..i] == list[..i]
        {
          newList[i] := list[i];
        }
        Doubled(start, doublings);
        list := newList;
        capacity := newCapacity;
        doublings := doublings + 1;
      }
      if size == list.Length {
        return false;
      }
      list[size] := Some(x);
      size := size + 1;
      return true;
    }

    /**
     * `get(index)`, as written: the element at index when `0 < index <
     * size`, `None` otherwise, so the first element is never returned.
     */
    method Get(index: int) returns (r: Option<T>)
      requires Valid()
      ensures 0 < index < size ==> r == Elements()[index]
      ensures index <= 0 || size <= index ==> r == None
    {
      if index > 0 && index < size {
        return list[index];
      }
      return None;
    }

    /** `get(index)` with the bound `0 <= index`: every element can be read back. */
    method GetFixed(index: int) returns (r: Option<T>)
      requires Valid()
      ensures 0 <= index < size ==> r == Elements()[index]
      ensures index < 0 || size <= index ==> r == None
    {
      if index >= 0 && index < size {
        return list[index];
      }
      return None;
    }
  }

  /**
   * The loop of the module's main block: appending 0, 1, ..., n - 1 to a
   * list of starting capacity 1 stores them in order, with a capacity that
   * is a power of 2.
   */
  method AppendRange(n: nat) returns (a: ArrayList<int>)
    ensures a.Valid() && a.size == n && a.Elements() == seq(n, i => Some(i))
    ensures a.capacity == Pow2(a.doublings) && n <= a.capacity
  {
    a := new ArrayList<int>(1);
    for i := 0 to n
      invariant a.Valid() && fresh(a) && fresh(a.list) && a.start == 1
      invariant a.size == i && a.Elements() == seq(i, j => Some(j))
    {
      var ok := a.Append(i);
      assert seq(i + 1, j => Some(j)) == seq(i, j => Some(j)) + [Some(i)];
    }
  }

  /** After appending 7 to an empty list, `get(0)` answers `None`, not 7. */
  method FirstElementUnreachable() returns (stored: Option<int>, got: Option<int>)
    ensures stored == Some(7) && got == None
  {
    var a := new ArrayList<int>(1);
    var ok := a.Append(7);
    stored := a.list[0];
    got := a.Get(0);
  }

  /** With the corrected bound, `get(0)` answers the element appended first. */
  method FirstElementFixed() returns (got: Option<int>)
    ensures got == Some(7)
  {
    var a := new ArrayList<int>(1);
    var ok := a.Append(7);
    got := a.GetFixed(0);
  }
}
