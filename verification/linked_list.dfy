/**
 * The unsorted singly and doubly linked lists of 06-linked-list.py, in place.
 *
 * Every `Element` object is a cell of an arena: element `e` is `elems[e]`,
 * and its `next` and `prev` attributes are indices of other cells (`None`
 * for Python's `None`). The ghost field `order` lists the elements reachable
 * from `head`, first to last; `Valid` ties the links to it, so every method
 * is specified by what it does to `order` and to the sequence of keys.
 *
 * Both classes walk their lists with the same loops (get, search, minimum
 * and maximum are word for word the same in the source); those loops are
 * written once below, over the cells, the head and the order.
 */
module LinkedLists {
  import opened Wrappers

  /** An `Element` object: its key and its two links. */
  datatype Element = Element(key: int, prev: Option<nat>, next: Option<nat>)

  /** Position i of s, or `None` when there is no such position. */
  function At(s: seq<nat>, i: int): (r: Option<nat>)
    ensures r.Some? <==> 0 <= i < |s|
  {
    if 0 <= i < |s| then Some(s[i]) else None
  }

  /** The first position of x in s, or |s| when x does not occur. */
  function IndexOf<T(==)>(s: seq<T>, x: T): (r: nat)
    ensures r <= |s| && (r < |s| <==> x in s)
    ensures r < |s| ==> s[r] == x
  {
    if s == [] then 0 else if s[0] == x then 0 else 1 + IndexOf(s[1..], x)
  }

  /** Nothing before `IndexOf` is x: it finds the first occurrence. */
  lemma {:induction false} IndexOfFirst<T>(s: seq<T>, x: T)
    ensures forall j :: 0 <= j < IndexOf(s, x) ==> s[j] != x
  {
    if s != [] && s[0] != x {
      IndexOfFirst(s[1..], x);
      assert s == [s[0]] + s[1..];
    }
  }

  /** A position before which x does not occur, and which holds x or is the end, is `IndexOf`. */
  lemma {:induction false} IndexOfAt<T>(s: seq<T>, x: T, k: nat)
    requires k <= |s| && (k == |s| || s[k] == x)
    requires forall j :: 0 <= j < k ==> s[j] != x
    ensures IndexOf(s, x) == k
  {
    if k > 0 {
      IndexOfAt(s[1..], x, k - 1);
    }
  }

  /** s with position i taken out. */
  function Without<T>(s: seq<T>, i: nat): (r: seq<T>)
    requires i < |s|
    ensures |r| == |s| - 1
    ensures forall j :: 0 <= j < |r| ==> r[j] == if j < i then s[j] else s[j + 1]
  {
    s[..i] + s[i + 1..]
  }

  /** No element occurs twice. */
  ghost predicate Distinct(s: seq<nat>)
  {
    forall i, j :: 0 <= i < j < |s| ==> s[i] != s[j]
  }

  /**
   * Following `next` from `head` visits the elements of `order` one by one
   * and then stops.
   */
  ghost predicate Threaded(elems: seq<Element>, head: Option<nat>, order: seq<nat>)
  {
    && (forall i :: 0 <= i < |order| ==> order[i] < |elems|)
    && head == At(order, 0)
    && (forall i {:trigger elems[order[i]]} :: 0 <= i < |order| ==> elems[order[i]].next == At(order, i + 1))
  }

  /** The singly linked list invariant: the walk from `head` visits each element once. */
  ghost predicate Chained(elems: seq<Element>, head: Option<nat>, order: seq<nat>)
  {
    Threaded(elems, head, order) && Distinct(order)
  }

  /** Every `prev` names the element before: the extra invariant of the doubly linked list. */
  ghost predicate BackLinked(elems: seq<Element>, order: seq<nat>)
    requires forall i :: 0 <= i < |order| ==> order[i] < |elems|
  {
    forall i {:trigger elems[order[i]]} :: 0 <= i < |order| ==> elems[order[i]].prev == At(order, i - 1)
  }

  /** The keys of the elements in `order`, first to last. */
  function KeysOf(elems: seq<Element>, order: seq<nat>): (r: seq<int>)
    requires forall i :: 0 <= i < |order| ==> order[i] < |elems|
    ensures |r| == |order|
  {
    if order == [] then [] else [elems[order[0]].key] + KeysOf(elems, order[1..])
  }

  lemma {:induction false} KeysAt(elems: seq<Element>, order: seq<nat>)
    requires forall i :: 0 <= i < |order| ==> order[i] < |elems|
    ensures forall i :: 0 <= i < |order| ==> KeysOf(elems, order)[i] == elems[order[i]].key
  {
    if order != [] {
      KeysAt(elems, order[1..]);
    }
  }

  /** Cells that agree on the keys of the listed elements give the same key sequence. */
  lemma SameKeys(c: seq<Element>, d: seq<Element>, order: seq<nat>)
    requires forall i :: 0 <= i < |order| ==> order[i] < |c| && order[i] < |d| && c[order[i]].key == d[order[i]].key
    ensures KeysOf(c, order) == KeysOf(d, order)
  {
    KeysAt(c, order);
    KeysAt(d, order);
  }

  /** The key sequence of a list with x in front. */
  lemma KeysCons(elems: seq<Element>, x: nat, order: seq<nat>)
    requires x < |elems| && forall i :: 0 <= i < |order| ==> order[i] < |elems|
    ensures forall i :: 0 <= i < |[x] + order| ==> ([x] + order)[i] < |elems|
    ensures KeysOf(elems, [x] + order) == [elems[x].key] + KeysOf(elems, order)
  {
    assert ([x] + order)[1..] == order;
  }

  /** The key sequence of a list with position i taken out. */
  lemma KeysRemove(elems: seq<Element>, order: seq<nat>, i: nat)
    requires i < |order| && forall j :: 0 <= j < |order| ==> order[j] < |elems|
    ensures forall j :: 0 <= j < |order| - 1 ==> Without(order, i)[j] < |elems|
    ensures KeysOf(elems, Without(order, i)) == Without(KeysOf(elems, order), i)
  {
    KeysAt(elems, order);
    KeysAt(elems, Without(order, i));
  }

  /** The earliest position of a least key among the first n of s; 0 when n is 0. */
  function ArgMin(s: seq<int>, n: nat): (r: nat)
    requires n <= |s|
    ensures n > 0 ==> r < n
  {
    if n <= 1 then 0
    else
      var m := ArgMin(s, n - 1);
      if s[n - 1] < s[m] then n - 1 else m
  }

  /** The earliest position of a greatest key among the first n of s; 0 when n is 0. */
  function ArgMax(s: seq<int>, n: nat): (r: nat)
    requires n <= |s|
    ensures n > 0 ==> r < n
  {
    if n <= 1 then 0
    else
      var m := ArgMax(s, n - 1);
      if s[n - 1] > s[m] then n - 1 else m
  }

  /** `ArgMin` is a least key, and every key before it is greater. */
  lemma {:induction false} ArgMinIsLeast(s: seq<int>, n: nat)
    requires 0 < n <= |s|
    ensures forall j :: 0 <= j < n ==> s[ArgMin(s, n)] <= s[j]
    ensures forall j :: 0 <= j < ArgMin(s, n) ==> s[j] > s[ArgMin(s, n)]
  {
    if n > 1 {
      ArgMinIsLeast(s, n - 1);
    }
  }

  /** `ArgMax` is a greatest key, and every key before it is smaller. */
  lemma {:induction false} ArgMaxIsGreatest(s: seq<int>, n: nat)
    requires 0 < n <= |s|
    ensures forall j :: 0 <= j < n ==> s[ArgMax(s, n)] >= s[j]
    ensures forall j :: 0 <= j < ArgMax(s, n) ==> s[j] < s[ArgMax(s, n)]
  {
    if n > 1 {
      ArgMaxIsGreatest(s, n - 1);
    }
  }

  // ---------------------------------------------------------------------------
  // Relinking, on the cells

  /** A new, unlinked cell does not disturb the list. */
  lemma ChainedGrow(elems: seq<Element>, head: Option<nat>, order: seq<nat>, e: Element)
    requires Chained(elems, head, order)
    ensures Chained(elems + [e], head, order)
    ensures BackLinked(elems, order) ==> BackLinked(elems + [e], order)
  {
    assert forall i :: 0 <= i < |order| ==> (elems + [e])[order[i]] == elems[order[i]];
  }

  /** Pointing x at the head and making x the head puts x in front. */
  lemma ChainedInsert(elems: seq<Element>, head: Option<nat>, order: seq<nat>, x: nat)
    requires Chained(elems, head, order) && x < |elems| && x !in order
    ensures Chained(elems[x := elems[x].(next := head)], Some(x), [x] + order)
  {
    var d, o := elems[x := elems[x].(next := head)], [x] + order;
    assert forall i :: 0 < i < |o| ==> o[i] == order[i - 1];
    assert forall i :: 0 <= i < |order| ==> d[order[i]] == elems[order[i]];
  }

  /**
   * Pointing the element before position i (or the head, for i = 0) past
   * it takes position i out of the list.
   */
  lemma ChainedRemove(elems: seq<Element>, head: Option<nat>, order: seq<nat>, i: nat)
    requires Chained(elems, head, order) && i < |order|
    ensures Chained(Unlink(elems, order, i), if i == 0 then elems[order[i]].next else head, Without(order, i))
  {
    DistinctWithout(order, i);
    ThreadedRemove(elems, head, order, i);
  }

  /** Taking an entry out of a sequence without repeats leaves none. */
  lemma DistinctWithout(s: seq<nat>, i: nat)
    requires Distinct(s) && i < |s|
    ensures Distinct(Without(s, i))
  {
    var w := Without(s, i);
    forall a, b | 0 <= a < b < |w| ensures w[a] != w[b] {
      assert w[a] == s[if a < i then a else a + 1];
      assert w[b] == s[if b < i then b else b + 1];
    }
  }

  /** The threading half of `ChainedRemove`. */
  lemma ThreadedRemove(elems: seq<Element>, head: Option<nat>, order: seq<nat>, i: nat)
    requires Chained(elems, head, order) && i < |order|
    ensures Threaded(Unlink(elems, order, i), if i == 0 then elems[order[i]].next else head, Without(order, i))
  {
    var d, o := Unlink(elems, order, i), Without(order, i);
    forall j | 0 <= j < |o|
      ensures d[o[j]].next == At(o, j + 1)
    {
      if j + 1 == i {
        assert d[o[j]].next == elems[order[i]].next == At(order, i + 1);
      } else if j < i {
        assert o[j] != order[i - 1];
        assert d[o[j]] == elems[order[j]];
      } else {
        assert o[j] == order[j + 1];
        assert i == 0 || o[j] != order[i - 1];
        assert d[o[j]] == elems[order[j + 1]];
      }
    }
  }

  /** The cells after the element before position i is pointed past it. */
  function Unlink(elems: seq<Element>, order: seq<nat>, i: nat): seq<Element>
    requires i < |order| && forall j :: 0 <= j < |order| ==> order[j] < |elems|
  {
    if i == 0 then elems
    else elems[order[i - 1] := elems[order[i - 1]].(next := elems[order[i]].next)]
  }

  /** Setting the `prev` link of any cell leaves the `next` links, and so the list, alone. */
  lemma ChainedSetPrev(elems: seq<Element>, head: Option<nat>, order: seq<nat>, e: nat, p: Option<nat>)
    requires Chained(elems, head, order) && e < |elems|
    ensures Chained(elems[e := elems[e].(prev := p)], head, order)
  {
    var d := elems[e := elems[e].(prev := p)];
    assert forall i :: 0 <= i < |order| ==> d[order[i]].next == elems[order[i]].next;
  }

  /**
   * The doubly linked insert: x, pointed at the head and back at nothing,
   * with the old head pointed back at x, is the new front of the list.
   */
  lemma BackLinkedInsert(elems: seq<Element>, head: Option<nat>, order: seq<nat>, x: nat)
    requires Chained(elems, head, order) && BackLinked(elems, order) && x < |elems| && x !in order
    ensures var d := elems[x := elems[x].(next := head, prev := None)];
      var d' := if head.Some? then d[head.value := d[head.value].(prev := Some(x))] else d;
      Chained(d', Some(x), [x] + order) && BackLinked(d', [x] + order)
  {
    var d := elems[x := elems[x].(next := head, prev := None)];
    var d' := if head.Some? then d[head.value := d[head.value].(prev := Some(x))] else d;
    var o := [x] + order;
    ChainedInsert(elems, head, order, x);
    assert elems[x := elems[x].(next := head)][x := d[x]] == d;
    ChainedSetPrev(elems[x := elems[x].(next := head)], Some(x), o, x, None);
    if head.Some? {
      ChainedSetPrev(d, Some(x), o, head.value, Some(x));
    }
    forall j | 0 <= j < |o| ensures d'[o[j]].prev == At(o, j - 1) {
      if j > 1 {
        assert o[j] == order[j - 1] && order[j - 1] != x && order[j - 1] != order[0];
      }
    }
  }

  /**
   * The cells after the doubly linked delete of position i: the element
   * before it is pointed past it (`Unlink`) and the element after it back
   * past it.
   */
  function UnlinkBoth(elems: seq<Element>, order: seq<nat>, i: nat): seq<Element>
    requires i < |order| && forall j :: 0 <= j < |order| ==> order[j] < |elems|
  {
    var d := Unlink(elems, order, i);
    if i + 1 < |order| then d[order[i + 1] := d[order[i + 1]].(prev := elems[order[i]].prev)] else d
  }

  /** The doubly linked delete takes position i out and keeps every `prev` link right. */
  lemma BackLinkedRemove(elems: seq<Element>, head: Option<nat>, order: seq<nat>, i: nat)
    requires Chained(elems, head, order) && BackLinked(elems, order) && i < |order|
    ensures Chained(UnlinkBoth(elems, order, i), if i == 0 then elems[order[i]].next else head, Without(order, i))
    ensures BackLinked(UnlinkBoth(elems, order, i), Without(order, i))
  {
    var d, o := UnlinkBoth(elems, order, i), Without(order, i);
    var h := if i == 0 then elems[order[i]].next else head;
    ChainedRemove(elems, head, order, i);
    if i + 1 < |order| {
      ChainedSetPrev(Unlink(elems, order, i), h, o, order[i + 1], elems[order[i]].prev);
    }
    forall j | 0 <= j < |o| ensures d[o[j]].prev == At(o, j - 1) {
      if j < i {
        assert o[j] == order[j];
        if i + 1 < |order| {
          assert o[j] != order[i + 1];
        }
      } else if j > i {
        assert o[j] == order[j + 1] && o[j] != order[i + 1];
      }
    }
  }

  // ---------------------------------------------------------------------------
  // The shared walks

  /** `get(index)`: the element at position index, or `None` past the end or for a negative index. */
  method GetIn(elems: seq<Element>, head: Option<nat>, ghost order: seq<nat>, index: int) returns (r: Option<nat>)
    requires Threaded(elems, head, order)
    ensures r == At(order, index)
  {
    var i := 0;
    r := head;
    while r.Some? && i != index
      invariant 0 <= i <= |order| && r == At(order, i)
      invariant 0 <= index ==> i <= index
      decreases |order| - i
    {
      r := elems[r.value].next;
      i := i + 1;
    }
  }

  /** `search(key)`: the first element holding key, or `None` when no element does. */
  method SearchIn(elems: seq<Element>, head: Option<nat>, ghost order: seq<nat>, key: int) returns (r: Option<nat>)
    requires Threaded(elems, head, order)
    ensures r == At(order, IndexOf(KeysOf(elems, order), key))
  {
    ghost var keys := KeysOf(elems, order);
    KeysAt(elems, order);
    ghost var k := 0;
    r := head;
    while r.Some? && elems[r.value].key != key
      invariant 0 <= k <= |order| && r == At(order, k)
      invariant forall j :: 0 <= j < k ==> keys[j] != key
      decreases |order| - k
    {
      r := elems[r.value].next;
      k := k + 1;
    }
    IndexOfAt(keys, key, k);
  }

  /**
   * The walk of the singly linked `predecessor(x)`: the element before x, or
   * `None` for the head. When x is not in the list the walk runs to the end
   * and answers the last element.
   */
  method PredecessorIn(elems: seq<Element>, head: Option<nat>, ghost order: seq<nat>, x: nat) returns (r: Option<nat>)
    requires Threaded(elems, head, order)
    ensures r == At(order, IndexOf(order, x) - 1)
  {
    ghost var k := 0;
    var y := head;
    r := None;
    while y.Some? && y != Some(x)
      invariant 0 <= k <= |order| && y == At(order, k) && r == At(order, k - 1)
      invariant forall j :: 0 <= j < k ==> order[j] != x
      decreases |order| - k
    {
      r := y;
      y := elems[y.value].next;
      k := k + 1;
    }
    IndexOfAt(order, x, k);
  }

  /** `minimum()`: the earliest element with the least key, or `None` for the empty list. */
  method MinimumIn(elems: seq<Element>, head: Option<nat>, ghost order: seq<nat>) returns (r: Option<nat>)
    requires Threaded(elems, head, order)
    ensures r == At(order, ArgMin(KeysOf(elems, order), |order|))
  {
    ghost var keys := KeysOf(elems, order);
    KeysAt(elems, order);
    ghost var k, m := 0, 0;
    r := head;
    var x := head;
    while x.Some?
      invariant 0 <= k <= |order| && x == At(order, k)
      invariant m == ArgMin(keys, k) && r == At(order, m)
      decreases |order| - k
    {
      if elems[x.value].key < elems[r.value].key {
        r, m := x, k;
      }
      x := elems[x.value].next;
      k := k + 1;
    }
  }

  /** `maximum()`: the earliest element with the greatest key, or `None` for the empty list. */
  method MaximumIn(elems: seq<Element>, head: Option<nat>, ghost order: seq<nat>) returns (r: Option<nat>)
    requires Threaded(elems, head, order)
    ensures r == At(order, ArgMax(KeysOf(elems, order), |order|))
  {
    ghost var keys := KeysOf(elems, order);
    KeysAt(elems, order);
    ghost var k, m := 0, 0;
    r := head;
    var x := head;
    while x.Some?
      invariant 0 <= k <= |order| && x == At(order, k)
      invariant m == ArgMax(keys, k) && r == At(order, m)
      decreases |order| - k
    {
      assert elems[x.value].key == keys[k] && (k > 0 ==> elems[r.value].key == keys[m]);
      if elems[x.value].key > elems[r.value].key {
        r, m := x, k;
      }
      x := elems[x.value].next;
      k := k + 1;
    }
  }

  /**
   * The relinking of the doubly linked `insert(x)`: x is pointed at the head
   * and back at nothing, and the old head, if any, back at x.
   */
  method LinkFrontIn(elems: seq<Element>, head: Option<nat>, ghost order: seq<nat>, x: nat)
    returns (cells: seq<Element>)
    requires Chained(elems, head, order) && BackLinked(elems, order) && x < |elems| && x !in order
    ensures Chained(cells, Some(x), [x] + order) && BackLinked(cells, [x] + order)
    ensures KeysOf(cells, [x] + order) == [elems[x].key] + KeysOf(elems, order)
    ensures |cells| == |elems| && cells[x] == elems[x].(next := head, prev := None)
    ensures head.Some? ==> cells[head.value] == elems[head.value].(prev := Some(x))
    ensures forall e :: 0 <= e < |cells| && e != x && Some(e) != head ==> cells[e] == elems[e]
  {
    BackLinkedInsert(elems, head, order, x);
    KeysCons(elems, x, order);
    cells := elems[x := elems[x].(next := head)];
    cells := cells[x := cells[x].(prev := None)];
    if head.Some? {
      cells := cells[head.value := cells[head.value].(prev := Some(x))];
    }
    SameKeys(elems, cells, [x] + order);
  }

  /**
   * The relinking of the doubly linked `delete(x)`, x being at position i:
   * the element before x (or the head) is pointed past x, then the element
   * after x back past it.
   */
  method DetachIn(elems: seq<Element>, head: Option<nat>, ghost order: seq<nat>, x: nat, ghost i: nat)
    returns (cells: seq<Element>, first: Option<nat>)
    requires Chained(elems, head, order) && BackLinked(elems, order) && i < |order| && order[i] == x
    ensures cells == UnlinkBoth(elems, order, i)
    ensures first == if i == 0 then elems[x].next else head
    ensures Chained(cells, first, Without(order, i)) && BackLinked(cells, Without(order, i))
    ensures KeysOf(cells, Without(order, i)) == Without(KeysOf(elems, order), i)
  {
    BackLinkedRemove(elems, head, order, i);
    KeysRemove(elems, order, i);
    SameKeys(elems, UnlinkBoth(elems, order, i), Without(order, i));
    cells, first := elems, head;
    var p, n := elems[x].prev, elems[x].next;
    if p.Some? {
      cells := cells[p.value := cells[p.value].(next := n)];
    } else {
      first := n;
    }
    if n.Some? {
      cells := cells[n.value := cells[n.value].(prev := p)];
    }
  }

  // ---------------------------------------------------------------------------
  // The two lists

  /**
   * `SinglyLinkedList`. `elems` holds every `Element` object created so far;
   * the list is the walk from `head`, recorded in the ghost `order`.
   */
  class SinglyLinkedList {
    var elems: seq<Element>
    var head: Option<nat>
    ghost var order: seq<nat>

    ghost predicate Valid()
      reads this
    {
      Chained(elems, head, order)
    }

    /** The keys of the list, first to last. */
    ghost function Keys(): seq<int>
      reads this
      requires Valid()
    {
      KeysOf(elems, order)
    }

    constructor ()
      ensures Valid() && elems == [] && head == None && order == []
    {
      elems, head, order := [], None, [];
    }

    /** `Element(key)`: a new element with no links, not yet in the list. */
    method NewElement(key: int) returns (x: nat)
      requires Valid()
      modifies this
      ensures Valid() && x == |old(elems)| && elems == old(elems) + [Element(key, None, None)]
      ensures head == old(head) && order == old(order) && Keys() == old(Keys())
    {
      ChainedGrow(elems, head, order, Element(key, None, None));
      SameKeys(elems, elems + [Element(key, None, None)], order);
      x := |elems|;
      elems := elems + [Element(key, None, None)];
    }

    /** `insert(x)`: x becomes the head, in front of the old list. */
    method Insert(x: nat)
      requires Valid() && x < |elems| && x !in order
      modifies this
      ensures Valid() && order == [x] + old(order) && Keys() == [old(elems[x].key)] + old(Keys())
      ensures head == Some(x) && elems == old(elems)[x := old(elems[x]).(next := old(head))]
    {
      ChainedInsert(elems, head, order, x);
      KeysCons(elems, x, order);
      SameKeys(elems, elems[x := elems[x].(next := head)], [x] + order);
      elems := elems[x := elems[x].(next := head)];
      head := Some(x);
      order := [x] + order;
    }

    /**
     * `delete(x)`: the predecessor of x, or the head when x is first, is
     * pointed past x; the rest of the list keeps its order.
     */
    method Delete(x: nat)
      requires Valid() && x in order
      modifies this
      ensures var i := IndexOf(old(order), x);
        && Valid() && order == Without(old(order), i) && Keys() == Without(old(Keys()), i)
        && elems == Unlink(old(elems), old(order), i)
        && head == if i == 0 then old(elems[x].next) else old(head)
    {
      ghost var i := IndexOf(order, x);
      var prev := PredecessorIn(elems, head, order, x);
      ghost var d, o := Unlink(elems, order, i), Without(order, i);
      ChainedRemove(elems, head, order, i);
      KeysRemove(elems, order, i);
      SameKeys(elems, d, o);
      if prev.Some? {
        elems := elems[prev.value := elems[prev.value].(next := elems[x].next)];
      } else {
        head := elems[x].next;
      }
      assert elems == d;
      order := o;
    }

    /** `get(index)`: the element at position index, or `None` when there is none. */
    method Get(index: int) returns (r: Option<nat>)
      requires Valid()
      ensures r == At(order, index)
    {
      r := GetIn(elems, head, order, index);
    }

    /** `search(key)`: the first element holding key, or `None` when no element does. */
    method Search(key: int) returns (r: Option<nat>)
      requires Valid()
      ensures r == At(order, IndexOf(Keys(), key))
      ensures r.None? <==> key !in Keys()
      ensures r.Some? ==> r.value in order && elems[r.value].key == key
    {
      r := SearchIn(elems, head, order, key);
      KeysAt(elems, order);
    }

    /** `successor(x)`: the `next` link of x, which is the element after x in the list. */
    function Successor(x: nat): (r: Option<nat>)
      reads this
      requires Valid() && x < |elems|
      ensures x in order ==> r == At(order, IndexOf(order, x) + 1)
    {
      elems[x].next
    }

    /** `predecessor(x)`: the element before x, or `None` when x is the head. */
    method Predecessor(x: nat) returns (r: Option<nat>)
      requires Valid()
      ensures r == At(order, IndexOf(order, x) - 1)
      ensures x in order ==> (r.None? <==> head == Some(x))
    {
      r := PredecessorIn(elems, head, order, x);
    }

    /** `minimum()`: the earliest element with the least key, or `None` for the empty list. */
    method Minimum() returns (r: Option<nat>)
      requires Valid()
      ensures r == At(order, ArgMin(Keys(), |order|))
      ensures r.None? <==> order == []
      ensures r.Some? ==> r.value in order && forall k :: k in Keys() ==> elems[r.value].key <= k
    {
      r := MinimumIn(elems, head, order);
      if order != [] {
        ArgMinIsLeast(Keys(), |order|);
        KeysAt(elems, order);
      }
    }

    /** `maximum()`: the earliest element with the greatest key, or `None` for the empty list. */
    method Maximum() returns (r: Option<nat>)
      requires Valid()
      ensures r == At(order, ArgMax(Keys(), |order|))
      ensures r.None? <==> order == []
      ensures r.Some? ==> r.value in order && forall k :: k in Keys() ==> elems[r.value].key >= k
    {
      r := MaximumIn(elems, head, order);
      if order != [] {
        ArgMaxIsGreatest(Keys(), |order|);
        KeysAt(elems, order);
      }
    }
  }

  /**
   * `DoublyLinkedList`: the same arena and walk, with every `prev` link
   * naming the element before.
   */
  class DoublyLinkedList {
    var elems: seq<Element>
    var head: Option<nat>
    ghost var order: seq<nat>

    ghost predicate Valid()
      reads this
    {
      Chained(elems, head, order) && BackLinked(elems, order)
    }

    /** The keys of the list, first to last. */
    ghost function Keys(): seq<int>
      reads this
      requires Valid()
    {
      KeysOf(elems, order)
    }

    constructor ()
      ensures Valid() && elems == [] && head == None && order == []
    {
      elems, head, order := [], None, [];
    }

    /** `Element(key)`: a new element with no links, not yet in the list. */
    method NewElement(key: int) returns (x: nat)
      requires Valid()
      modifies this
      ensures Valid() && x == |old(elems)| && elems == old(elems) + [Element(key, None, None)]
      ensures head == old(head) && order == old(order) && Keys() == old(Keys())
    {
      ChainedGrow(elems, head, order, Element(key, None, None));
      SameKeys(elems, elems + [Element(key, None, None)], order);
      x := |elems|;
      elems := elems + [Element(key, None, None)];
    }

    /** `insert(x)`: x becomes the head; the old head, if any, points back at it. */
    method Insert(x: nat)
      requires Valid() && x < |elems| && x !in order
      modifies this
      ensures Valid() && order == [x] + old(order) && Keys() == [old(elems[x].key)] + old(Keys())
      ensures head == Some(x) && |elems| == |old(elems)|
      ensures elems[x] == old(elems[x]).(next := old(head), prev := None)
      ensures old(head).Some? ==> elems[old(head).value] == old(elems)[old(head).value].(prev := Some(x))
      ensures forall e :: 0 <= e < |elems| && e != x && Some(e) != old(head) ==> elems[e] == old(elems[e])
    {
      elems := LinkFrontIn(elems, head, order, x);
      head := Some(x);
      order := [x] + order;
    }

    /**
     * `delete(x)`: the element before x (or the head) is pointed past x,
     * and the element after x back past it.
     */
    method Delete(x: nat)
      requires Valid() && x in order
      modifies this
      ensures var i := IndexOf(old(order), x);
        && Valid() && order == Without(old(order), i) && Keys() == Without(old(Keys()), i)
        && elems == UnlinkBoth(old(elems), old(order), i)
        && head == if i == 0 then old(elems[x].next) else old(head)
    {
      ghost var i := IndexOf(order, x);
      elems, head := DetachIn(elems, head, order, x, i);
      order := Without(order, i);
    }

    /** `get(index)`: the element at position index, or `None` when there is none. */
    method Get(index: int) returns (r: Option<nat>)
      requires Valid()
      ensures r == At(order, index)
    {
      r := GetIn(elems, head, order, index);
    }

    /** `search(key)`: the first element holding key, or `None` when no element does. */
    method Search(key: int) returns (r: Option<nat>)
      requires Valid()
      ensures r == At(order, IndexOf(Keys(), key))
      ensures r.None? <==> key !in Keys()
      ensures r.Some? ==> r.value in order && elems[r.value].key == key
    {
      r := SearchIn(elems, head, order, key);
      KeysAt(elems, order);
    }

    /** `successor(x)`: the `next` link of x, which is the element after x in the list. */
    function Successor(x: nat): (r: Option<nat>)
      reads this
      requires Valid() && x < |elems|
      ensures x in order ==> r == At(order, IndexOf(order, x) + 1)
    {
      elems[x].next
    }

    /**
     * `predecessor(x)`: the `prev` link of x, with no walk; for an element
     * of the list it is the element before x, the answer of the singly
     * linked walk.
     */
    function Predecessor(x: nat): (r: Option<nat>)
      reads this
      requires Valid() && x < |elems|
      ensures x in order ==> r == At(order, IndexOf(order, x) - 1)
    {
      elems[x].prev
    }

    /** `minimum()`: the earliest element with the least key, or `None` for the empty list. */
    method Minimum() returns (r: Option<nat>)
      requires Valid()
      ensures r == At(order, ArgMin(Keys(), |order|))
      ensures r.None? <==> order == []
      ensures r.Some? ==> r.value in order && forall k :: k in Keys() ==> elems[r.value].key <= k
    {
      r := MinimumIn(elems, head, order);
      if order != [] {
        ArgMinIsLeast(Keys(), |order|);
        KeysAt(elems, order);
      }
    }

    /** `maximum()`: the earliest element with the greatest key, or `None` for the empty list. */
    method Maximum() returns (r: Option<nat>)
      requires Valid()
      ensures r == At(order, ArgMax(Keys(), |order|))
      ensures r.None? <==> order == []
      ensures r.Some? ==> r.value in order && forall k :: k in Keys() ==> elems[r.value].key >= k
    {
      r := MaximumIn(elems, head, order);
      if order != [] {
        ArgMaxIsGreatest(Keys(), |order|);
        KeysAt(elems, order);
      }
    }
  }
}
