/**
 * The value view of the binary search tree (04-binary-search-tree.py).
 *
 * A `Tree` is the shape the `left`/`right` links of the nodes describe; each
 * node carries its identity (`id`, an index into the node arena of
 * `BstArena`) and its key. The recursive, read-only `Node` methods (`search`,
 * `minimum`, `maximum`, `successor` and the three walks) are functions on this
 * view; insertion and CLRS deletion are functions too, so that the in-place
 * code in `BstArena` can be proved to carry them out.
 */
module SearchTree {
  import opened Wrappers
  import opened Lib

  datatype Tree = Leaf | Node(left: Tree, id: nat, key: int, right: Tree)

  /** The node a link points to: `None` for an empty tree. */
  function Top(t: Tree): Option<nat>
  {
    if t.Leaf? then None else Some(t.id)
  }

  ghost function Ids(t: Tree): set<nat>
  {
    match t
    case Leaf => {}
    case Node(l, i, _, r) => Ids(l) + {i} + Ids(r)
  }

  function Keys(t: Tree): multiset<int>
  {
    match t
    case Leaf => multiset{}
    case Node(l, _, k, r) => Keys(l) + multiset{k} + Keys(r)
  }

  /** No node occurs twice. */
  ghost predicate Distinct(t: Tree)
  {
    match t
    case Leaf => true
    case Node(l, i, _, r) =>
      Distinct(l) && Distinct(r) && i !in Ids(l) && i !in Ids(r) && Ids(l) !! Ids(r)
  }

  /**
   * The binary-search-tree property: keys in the left subtree are at most the
   * node's key, keys in the right subtree at least.
   */
  ghost predicate IsBst(t: Tree)
  {
    match t
    case Leaf => true
    case Node(l, _, k, r) =>
      && IsBst(l) && IsBst(r)
      && (forall x :: x in Keys(l) ==> x <= k)
      && (forall x :: x in Keys(r) ==> k <= x)
  }

  /** The subtree rooted at node x (`Leaf` when x is not in t). */
  ghost function Sub(t: Tree, x: nat): (s: Tree)
    ensures x in Ids(t) ==> s.Node? && s.id == x
    ensures x !in Ids(t) ==> s == Leaf
    ensures Ids(s) <= Ids(t)
  {
    match t
    case Leaf => Leaf
    case Node(l, i, _, r) =>
      if x == i then t else if x in Ids(l) then Sub(l, x) else Sub(r, x)
  }

  // ---------------------------------------------------------------------------
  // Insertion

  /**
   * `insert`: descends left when the new key is smaller than the node's key and
   * right otherwise, and hangs the new node where it falls off the tree.
   */
  function InsertT(t: Tree, n: nat, k: int): (r: Tree)
    ensures r.Node?
  {
    match t
    case Leaf => Node(Leaf, n, k, Leaf)
    case Node(l, i, key, rt) =>
      if k < key then Node(InsertT(l, n, k), i, key, rt)
      else Node(l, i, key, InsertT(rt, n, k))
  }

  /**
   * The last node the descent of `insert` visits, that is, the parent the new
   * node gets; `par` when t is empty.
   */
  function InsertParent(t: Tree, k: int, par: Option<nat>): (y: Option<nat>)
    ensures t.Node? ==> y.Some? && y.value in Ids(t)
  {
    match t
    case Leaf => par
    case Node(l, i, key, r) =>
      if k < key then InsertParent(l, k, Some(i)) else InsertParent(r, k, Some(i))
  }

  /** Insertion adds exactly one occurrence of the new key. */
  lemma {:induction false} InsertKeys(t: Tree, n: nat, k: int)
    ensures Keys(InsertT(t, n, k)) == Keys(t) + multiset{k}
  {
    match t
    case Leaf =>
    case Node(l, i, key, r) =>
      if k < key {
        InsertKeys(l, n, k);
        AddedLast(Keys(l), multiset{key}, Keys(r), multiset{k});
      } else {
        InsertKeys(r, n, k);
        AddedLast(Keys(l), multiset{key}, Keys(r), multiset{k});
      }
  }

  /** Where a key is added in a union of three does not matter. */
  lemma AddedLast(a: multiset<int>, b: multiset<int>, c: multiset<int>, m: multiset<int>)
    ensures (a + m) + b + c == a + b + c + m
    ensures a + b + (c + m) == a + b + c + m
  {
  }

  /** Insertion adds exactly the new node and keeps the root of a non-empty tree. */
  lemma {:induction false} InsertIds(t: Tree, n: nat, k: int)
    ensures Ids(InsertT(t, n, k)) == Ids(t) + {n}
    ensures t.Node? ==> Top(InsertT(t, n, k)) == Top(t)
  {
    match t
    case Leaf =>
    case Node(l, i, key, r) =>
      if k < key {
        InsertIds(l, n, k);
      } else {
        InsertIds(r, n, k);
      }
  }

  /** Insertion keeps the binary-search-tree property. */
  lemma {:induction false} InsertKeepsBst(t: Tree, n: nat, k: int)
    requires IsBst(t)
    ensures IsBst(InsertT(t, n, k))
  {
    match t
    case Leaf =>
    case Node(l, i, key, r) =>
      if k < key {
        assert InsertT(t, n, k) == Node(InsertT(l, n, k), i, key, r);
        InsertKeys(l, n, k);
        InsertKeepsBst(l, n, k);
        forall x | x in Keys(InsertT(l, n, k))
          ensures x <= key
        {
          assert x in Keys(l) || x == k;
        }
      } else {
        assert InsertT(t, n, k) == Node(l, i, key, InsertT(r, n, k));
        InsertKeys(r, n, k);
        InsertKeepsBst(r, n, k);
        forall x | x in Keys(InsertT(r, n, k))
          ensures key <= x
        {
          assert x in Keys(r) || x == k;
        }
      }
  }

  /** Inserting a node not yet in the tree keeps node identities distinct. */
  lemma {:induction false} InsertKeepsDistinct(t: Tree, n: nat, k: int)
    requires Distinct(t) && n !in Ids(t)
    ensures Distinct(InsertT(t, n, k))
  {
    match t
    case Leaf =>
    case Node(l, i, key, r) =>
      if k < key {
        InsertIds(l, n, k);
        InsertKeepsDistinct(l, n, k);
      } else {
        InsertIds(r, n, k);
        InsertKeepsDistinct(r, n, k);
      }
  }

  /** The new node is a leaf. */
  lemma {:induction false} InsertedIsLeaf(t: Tree, n: nat, k: int)
    requires Distinct(t) && n !in Ids(t)
    ensures Sub(InsertT(t, n, k), n) == Node(Leaf, n, k, Leaf)
  {
    InsertIds(t, n, k);
    match t
    case Leaf =>
    case Node(l, i, key, r) =>
      InsertIds(l, n, k);
      InsertIds(r, n, k);
      if k < key {
        InsertedIsLeaf(l, n, k);
      } else {
        InsertedIsLeaf(r, n, k);
      }
  }

  /** Subtrees of a tree with distinct nodes have distinct nodes. */
  lemma {:induction false} SubDistinct(t: Tree, x: nat)
    requires Distinct(t)
    ensures Distinct(Sub(t, x))
  {
    match t
    case Leaf =>
    case Node(l, i, _, r) =>
      if x != i {
        if x in Ids(l) {
          SubDistinct(l, x);
        } else {
          SubDistinct(r, x);
        }
      }
  }

  /** Inside a tree with distinct nodes, the subtree at a child of x is that child's subtree. */
  lemma {:induction false} SubChild(t: Tree, x: nat)
    requires Distinct(t) && x in Ids(t)
    ensures Sub(t, x).left.Node? ==> Sub(t, Sub(t, x).left.id) == Sub(t, x).left
    ensures Sub(t, x).right.Node? ==> Sub(t, Sub(t, x).right.id) == Sub(t, x).right
  {
    match t
    case Leaf =>
    case Node(l, i, _, r) =>
      if x != i {
        if x in Ids(l) {
          SubChild(l, x);
        } else {
          SubChild(r, x);
        }
      }
  }

  // ---------------------------------------------------------------------------
  // Search, minimum, maximum

  /**
   * `search`: the node holding `key`, found by descending left for smaller and
   * right for larger keys; `None` stands for the null node `Node(None)`.
   */
  function Search(t: Tree, key: int): (r: Option<nat>)
    ensures r.Some? ==> r.value in Ids(t)
  {
    match t
    case Leaf => None
    case Node(l, i, k, r) =>
      if key == k then Some(i)
      else if key < k then Search(l, key)
      else Search(r, key)
  }

  /** In a search tree, `search` finds a node exactly when the key is present. */
  lemma {:induction false} SearchFinds(t: Tree, key: int)
    requires IsBst(t)
    ensures Search(t, key).Some? <==> key in Keys(t)
  {
    match t
    case Leaf =>
    case Node(l, i, k, r) =>
      SearchFinds(l, key);
      SearchFinds(r, key);
  }

  /** What `search` returns is a node of the tree holding the key. */
  lemma {:induction false} SearchFound(t: Tree, key: int)
    requires Distinct(t) && Search(t, key).Some?
    ensures Search(t, key).value in Ids(t) && Sub(t, Search(t, key).value).key == key
  {
    match t
    case Leaf =>
    case Node(l, i, k, r) =>
      if key < k {
        SearchFound(l, key);
      } else if key > k {
        SearchFound(r, key);
      }
  }

  /** `minimum`: follow left links to the end; the node reached has no left child. */
  function Minimum(t: Tree): (m: Tree)
    requires t.Node?
    ensures m.Node? && m.left.Leaf? && m.id in Ids(t)
  {
    if t.left.Leaf? then t else Minimum(t.left)
  }

  /** `maximum`: follow right links to the end; the node reached has no right child. */
  function Maximum(t: Tree): (m: Tree)
    requires t.Node?
    ensures m.Node? && m.right.Leaf?
  {
    if t.right.Leaf? then t else Maximum(t.right)
  }

  /** In a search tree the minimum's key is at most every key. */
  lemma {:induction false} MinimumIsLeast(t: Tree)
    requires t.Node? && IsBst(t)
    ensures Minimum(t).key in Keys(t)
    ensures forall x :: x in Keys(t) ==> Minimum(t).key <= x
  {
    if t.left.Node? {
      MinimumIsLeast(t.left);
    }
  }

  /** In a search tree the maximum's key is at least every key. */
  lemma {:induction false} MaximumIsGreatest(t: Tree)
    requires t.Node? && IsBst(t)
    ensures Maximum(t).key in Keys(t)
    ensures forall x :: x in Keys(t) ==> x <= Maximum(t).key
  {
    if t.right.Node? {
      MaximumIsGreatest(t.right);
    }
  }

  /** The minimum is a node of the tree, and the subtree found at its id. */
  lemma {:induction false} MinimumInTree(t: Tree)
    requires t.Node? && Distinct(t)
    ensures Minimum(t).id in Ids(t) && Sub(t, Minimum(t).id) == Minimum(t)
  {
    if t.left.Node? {
      MinimumInTree(t.left);
    }
  }

  /** The maximum is a node of the tree, and the subtree found at its id. */
  lemma {:induction false} MaximumInTree(t: Tree)
    requires t.Node? && Distinct(t)
    ensures Maximum(t).id in Ids(t) && Sub(t, Maximum(t).id) == Maximum(t)
  {
    if t.right.Node? {
      MaximumInTree(t.right);
    }
  }

  // ---------------------------------------------------------------------------
  // Successor

  /** The parent of node x (`None` for the root and for nodes not in t). */
  ghost function ParentOf(t: Tree, x: nat): (q: Option<nat>)
    ensures q.Some? ==> q.value in Ids(t) && x in Ids(t)
  {
    match t
    case Leaf => None
    case Node(l, i, _, r) =>
      if x == i then None
      else if x in Ids(l) then (if l.id == x then Some(i) else ParentOf(l, x))
      else if x in Ids(r) then (if r.id == x then Some(i) else ParentOf(r, x))
      else None
  }

  /** The number of links from the root down to node x. */
  ghost function Depth(t: Tree, x: nat): nat
  {
    match t
    case Leaf => 0
    case Node(l, i, _, r) =>
      if x == i then 0 else if x in Ids(l) then 1 + Depth(l, x) else 1 + Depth(r, x)
  }

  /** The nearest ancestor of x that has x in its left subtree. */
  ghost function Up(t: Tree, x: nat): (u: Option<nat>)
    ensures u.Some? ==> u.value in Ids(t) && x in Ids(t)
  {
    match t
    case Leaf => None
    case Node(l, i, _, r) =>
      if x == i then None
      else if x in Ids(l) then (var u := Up(l, x); if u.None? then Some(i) else u)
      else if x in Ids(r) then Up(r, x)
      else None
  }

  /**
   * `tree_successor`: the minimum of x's right subtree when there is one;
   * otherwise the first ancestor reached from a left child while climbing.
   */
  ghost function Successor(t: Tree, x: nat): (s: Option<nat>)
    ensures s.Some? ==> s.value in Ids(t) && x in Ids(t)
  {
    var n := Sub(t, x);
    if n.Leaf? then None
    else if n.right.Node? then Some(Minimum(n.right).id)
    else Up(t, x)
  }

  /**
   * `Node.successor` as written. Without a right subtree it asks the parent
   * for its successor when x is the parent's right child; the parent has a
   * right subtree (x's), so the answer is the minimum of x's own subtree.
   */
  ghost function NodeSuccessorAsWritten(t: Tree, x: nat): (s: Option<nat>)
    ensures s.Some? ==> s.value in Ids(t) && x in Ids(t)
  {
    var n := Sub(t, x);
    if n.Leaf? then None
    else if n.right.Node? then Some(Minimum(n.right).id)
    else match ParentOf(t, x)
      case None => None
      case Some(q) => if Sub(t, q).Node? && Top(Sub(t, q).right) == Some(x) then Some(Minimum(n).id) else Some(q)
  }

  /** The minimum comes first in inorder. */
  lemma {:induction false} MinimumFirst(t: Tree)
    requires t.Node?
    ensures |InorderIds(t)| > 0 && InorderIds(t)[0] == Minimum(t).id
  {
    if t.left.Node? {
      MinimumFirst(t.left);
    }
  }

  /** `tree_successor` returns the node that follows x in inorder, or `None` after the last. */
  lemma {:induction false} SuccessorIsInorderNext(t: Tree, x: nat, k: nat)
    requires Distinct(t) && k < |InorderIds(t)| && InorderIds(t)[k] == x
    ensures Successor(t, x) ==
      if k + 1 < |InorderIds(t)| then Some(InorderIds(t)[k + 1]) else None
  {
    match t
    case Leaf =>
    case Node(l, i, _, r) =>
      var il, ir := InorderIds(l), InorderIds(r);
      assert InorderIds(t) == il + [i] + ir;
      InorderIdsAreIds(l);
      InorderIdsAreIds(r);
      if k < |il| {
        assert x == il[k] && x in Ids(l);
        assert Sub(t, x) == Sub(l, x);
        SuccessorIsInorderNext(l, x, k);
        if k + 1 < |il| {
          assert InorderIds(t)[k + 1] == il[k + 1];
        }
      } else if k == |il| {
        assert x == i;
        if r.Node? {
          MinimumFirst(r);
          assert InorderIds(t)[k + 1] == ir[0];
        }
      } else {
        assert x == ir[k - |il| - 1] && x in Ids(r);
        assert Sub(t, x) == Sub(r, x);
        SuccessorIsInorderNext(r, x, k - |il| - 1);
        if k + 1 < |InorderIds(t)| {
          assert InorderIds(t)[k + 1] == ir[k - |il|];
        }
      }
  }

  /**
   * Climbing one link from x: the parent q is one level higher, and the
   * nearest left ancestor of x is q itself when x is q's left child and that
   * of q when x is q's right child.
   */
  lemma {:induction false} UpStep(t: Tree, x: nat)
    requires Distinct(t) && x in Ids(t) && x != t.id
    ensures ParentOf(t, x).Some?
    ensures var q := ParentOf(t, x).value;
      && q in Ids(t) && Depth(t, q) < Depth(t, x)
      && (Top(Sub(t, q).right) == Some(x) ==> Up(t, x) == Up(t, q))
      && (Top(Sub(t, q).right) != Some(x) ==> Up(t, x) == Some(q) && Top(Sub(t, q).left) == Some(x))
  {
    var l, i, r := t.left, t.id, t.right;
    if x in Ids(l) {
      if l.id != x {
        UpStep(l, x);
      }
    } else {
      if r.id != x {
        UpStep(r, x);
      }
    }
  }

  /** A node's parent lies outside the node's own subtree. */
  lemma {:induction false} ParentOutside(t: Tree, x: nat)
    requires Distinct(t) && x in Ids(t) && x != t.id
    ensures ParentOf(t, x).Some? && ParentOf(t, x).value in Ids(t)
    ensures ParentOf(t, x).value !in Ids(Sub(t, x))
  {
    var l, i, r := t.left, t.id, t.right;
    if x in Ids(l) {
      if l.id != x {
        ParentOutside(l, x);
      }
    } else {
      if r.id != x {
        ParentOutside(r, x);
      }
    }
  }

  /** `Node.successor` agrees with `tree_successor` unless x is a right child without a right subtree. */
  lemma NodeSuccessorAgrees(t: Tree, x: nat)
    requires Distinct(t) && x in Ids(t)
    requires Sub(t, x).right.Node? || ParentOf(t, x).None? ||
      Sub(t, ParentOf(t, x).value).Leaf? || Top(Sub(t, ParentOf(t, x).value).right) != Some(x)
    ensures NodeSuccessorAsWritten(t, x) == Successor(t, x)
  {
    if Sub(t, x).right.Leaf? {
      if x == t.id {
        assert ParentOf(t, x).None?;
      } else {
        UpStep(t, x);
      }
    }
  }

  // ---------------------------------------------------------------------------
  // Deletion

  /** t without its minimum node, whose right subtree takes its place. */
  function RemoveMin(t: Tree): Tree
    requires t.Node?
  {
    if t.left.Leaf? then t.right else Node(RemoveMin(t.left), t.id, t.key, t.right)
  }

  /**
   * `delete` applied to the root of t: a missing child lets the other one
   * take its place; otherwise the minimum of the right subtree replaces it.
   */
  function DeleteRoot(t: Tree): Tree
    requires t.Node?
  {
    if t.left.Leaf? then t.right
    else if t.right.Leaf? then t.left
    else
      var m := Minimum(t.right);
      Node(t.left, m.id, m.key, RemoveMin(t.right))
  }

  /** `delete(z)`: `DeleteRoot` applied to the subtree rooted at z. */
  ghost function DeleteT(t: Tree, z: nat): (r: Tree)
    ensures z !in Ids(t) ==> r == t
  {
    match t
    case Leaf => Leaf
    case Node(l, i, k, r) =>
      if z == i then DeleteRoot(t)
      else if z in Ids(l) then Node(DeleteT(l, z), i, k, r)
      else Node(l, i, k, DeleteT(r, z))
  }

  /** t with the subtree rooted at z replaced by s. */
  ghost function ReplaceAt(t: Tree, z: nat, s: Tree): Tree
  {
    match t
    case Leaf => Leaf
    case Node(l, i, k, r) =>
      if z == i then s
      else if z in Ids(l) then Node(ReplaceAt(l, z, s), i, k, r)
      else Node(l, i, k, ReplaceAt(r, z, s))
  }

  lemma {:induction false} RemoveMinKeys(t: Tree)
    requires t.Node?
    ensures Keys(RemoveMin(t)) + multiset{Minimum(t).key} == Keys(t)
  {
    if t.left.Node? {
      RemoveMinKeys(t.left);
    }
  }

  lemma {:induction false} RemoveMinIds(t: Tree)
    requires t.Node? && Distinct(t)
    ensures Ids(RemoveMin(t)) == Ids(t) - {Minimum(t).id}
    ensures Distinct(RemoveMin(t))
  {
    if t.left.Node? {
      MinimumInTree(t.left);
      RemoveMinIds(t.left);
    }
  }

  lemma {:induction false} RemoveMinBst(t: Tree)
    requires t.Node? && IsBst(t)
    ensures IsBst(RemoveMin(t))
  {
    if t.left.Node? {
      RemoveMinBst(t.left);
      RemoveMinKeys(t.left);
      forall x | x in Keys(RemoveMin(t.left))
        ensures x <= t.key
      {
        assert x in Keys(t.left);
      }
    }
  }

  /** Removing the minimum is replacing it by its right subtree. */
  lemma {:induction false} RemoveMinIsReplace(t: Tree)
    requires t.Node? && Distinct(t)
    ensures RemoveMin(t) == ReplaceAt(t, Minimum(t).id, Minimum(t).right)
  {
    if t.left.Node? {
      MinimumInTree(t.left);
      RemoveMinIsReplace(t.left);
    }
  }

  /** Deleting at z is replacing the subtree at z by its `DeleteRoot`. */
  lemma {:induction false} DeleteIsReplace(t: Tree, z: nat)
    requires z in Ids(t)
    ensures DeleteT(t, z) == ReplaceAt(t, z, DeleteRoot(Sub(t, z)))
  {
    match t
    case Leaf =>
    case Node(l, i, _, r) =>
      if z != i {
        if z in Ids(l) {
          DeleteIsReplace(l, z);
        } else {
          DeleteIsReplace(r, z);
        }
      }
  }

  lemma DeleteRootKeys(t: Tree)
    requires t.Node?
    ensures Keys(DeleteRoot(t)) + multiset{t.key} == Keys(t)
  {
    if t.left.Node? && t.right.Node? {
      RemoveMinKeys(t.right);
    }
  }

  lemma DeleteRootIds(t: Tree)
    requires t.Node? && Distinct(t)
    ensures Ids(DeleteRoot(t)) == Ids(t) - {t.id}
    ensures Distinct(DeleteRoot(t))
  {
    if t.left.Node? && t.right.Node? {
      RemoveMinIds(t.right);
      MinimumInTree(t.right);
    }
  }

  lemma DeleteRootBst(t: Tree)
    requires t.Node? && IsBst(t)
    ensures IsBst(DeleteRoot(t))
  {
    if t.left.Node? && t.right.Node? {
      var m := Minimum(t.right);
      RemoveMinBst(t.right);
      RemoveMinKeys(t.right);
      MinimumIsLeast(t.right);
      forall x | x in Keys(t.left)
        ensures x <= m.key
      {
      }
      forall x | x in Keys(RemoveMin(t.right))
        ensures m.key <= x
      {
        assert x in Keys(t.right);
      }
    }
  }

  /** `delete(z)` removes one occurrence of z's key and nothing else. */
  lemma {:induction false} DeleteKeys(t: Tree, z: nat)
    requires z in Ids(t)
    ensures Keys(DeleteT(t, z)) + multiset{Sub(t, z).key} == Keys(t)
  {
    match t
    case Leaf =>
    case Node(l, i, _, r) =>
      if z == i {
        DeleteRootKeys(t);
      } else if z in Ids(l) {
        DeleteKeys(l, z);
        assert DeleteT(t, z) == Node(DeleteT(l, z), i, t.key, r) && Sub(t, z) == Sub(l, z);
      } else {
        DeleteKeys(r, z);
        assert DeleteT(t, z) == Node(l, i, t.key, DeleteT(r, z)) && Sub(t, z) == Sub(r, z);
      }
  }

  /** `delete(z)` removes exactly node z. */
  lemma {:induction false} DeleteIds(t: Tree, z: nat)
    requires Distinct(t) && z in Ids(t)
    ensures Ids(DeleteT(t, z)) == Ids(t) - {z}
    ensures Distinct(DeleteT(t, z))
  {
    match t
    case Leaf =>
    case Node(l, i, _, r) =>
      if z == i {
        DeleteRootIds(t);
      } else if z in Ids(l) {
        DeleteIds(l, z);
      } else {
        DeleteIds(r, z);
      }
  }

  /** `delete(z)` keeps the binary-search-tree property. */
  lemma {:induction false} DeleteKeepsBst(t: Tree, z: nat)
    requires IsBst(t) && z in Ids(t)
    ensures IsBst(DeleteT(t, z))
  {
    match t
    case Leaf =>
    case Node(l, i, k, r) =>
      if z == i {
        DeleteRootBst(t);
      } else if z in Ids(l) {
        DeleteKeepsBst(l, z);
        DeleteKeys(l, z);
        assert DeleteT(t, z) == Node(DeleteT(l, z), i, k, r);
        DeleteBelow(l, z, k);
      } else {
        DeleteKeepsBst(r, z);
        DeleteKeys(r, z);
        assert DeleteT(t, z) == Node(l, i, k, DeleteT(r, z));
        DeleteAbove(r, z, k);
      }
  }

  lemma DeleteBelow(l: Tree, z: nat, k: int)
    requires z in Ids(l) && Keys(DeleteT(l, z)) + multiset{Sub(l, z).key} == Keys(l)
    requires forall x :: x in Keys(l) ==> x <= k
    ensures forall x :: x in Keys(DeleteT(l, z)) ==> x <= k
  {
    forall x | x in Keys(DeleteT(l, z))
      ensures x <= k
    {
      assert x in Keys(l);
    }
  }

  lemma DeleteAbove(r: Tree, z: nat, k: int)
    requires z in Ids(r) && Keys(DeleteT(r, z)) + multiset{Sub(r, z).key} == Keys(r)
    requires forall x :: x in Keys(r) ==> k <= x
    ensures forall x :: x in Keys(DeleteT(r, z)) ==> k <= x
  {
    forall x | x in Keys(DeleteT(r, z))
      ensures k <= x
    {
      assert x in Keys(r);
    }
  }

  // ---------------------------------------------------------------------------
  // Walks

  /** `inorder_tree_walk`: the keys printed, in order. */
  function Inorder(t: Tree): seq<int>
  {
    match t
    case Leaf => []
    case Node(l, _, k, r) => Inorder(l) + [k] + Inorder(r)
  }

  /** The node identities in inorder. */
  function InorderIds(t: Tree): seq<nat>
  {
    match t
    case Leaf => []
    case Node(l, i, _, r) => InorderIds(l) + [i] + InorderIds(r)
  }

  /** `preorder_tree_walk`: the node's key, then the left and the right subtree. */
  function Preorder(t: Tree): seq<int>
  {
    match t
    case Leaf => []
    case Node(l, _, k, r) => [k] + Preorder(l) + Preorder(r)
  }

  /**
   * `postorder_tree_walk` as written: it walks the two subtrees with
   * `preorder_tree_walk` and prints the node's key last.
   */
  function PostorderAsWritten(t: Tree): seq<int>
  {
    match t
    case Leaf => []
    case Node(l, _, k, r) => Preorder(l) + Preorder(r) + [k]
  }

  /** A postorder walk: both subtrees in postorder, then the node's key. */
  function Postorder(t: Tree): seq<int>
  {
    match t
    case Leaf => []
    case Node(l, _, k, r) => Postorder(l) + Postorder(r) + [k]
  }

  /** The tree reflected left to right. */
  function Mirror(t: Tree): Tree
  {
    match t
    case Leaf => Leaf
    case Node(l, i, k, r) => Node(Mirror(r), i, k, Mirror(l))
  }

  function Reverse(s: seq<int>): (r: seq<int>)
    ensures |r| == |s|
  {
    if s == [] then [] else Reverse(s[1..]) + [s[0]]
  }

  lemma {:induction false} ReverseAppend(a: seq<int>, b: seq<int>)
    ensures Reverse(a + b) == Reverse(b) + Reverse(a)
  {
    if a == [] {
      assert a + b == b;
    } else {
      ReverseAppend(a[1..], b);
      assert (a + b)[1..] == a[1..] + b;
      assert (a + b)[0] == a[0];
      calc {
        Reverse(a + b);
        Reverse(a[1..] + b) + [a[0]];
        Reverse(b) + Reverse(a[1..]) + [a[0]];
      }
    }
  }

  /**
   * Postorder is preorder of the mirrored tree, reversed: the root comes last
   * and each subtree's keys come before it.
   */
  lemma {:induction false} PostorderIsReversedMirrorPreorder(t: Tree)
    ensures Postorder(t) == Reverse(Preorder(Mirror(t)))
  {
    match t
    case Leaf =>
    case Node(l, i, k, r) =>
      PostorderIsReversedMirrorPreorder(l);
      PostorderIsReversedMirrorPreorder(r);
      var pl, pr := Preorder(Mirror(l)), Preorder(Mirror(r));
      calc {
        Reverse(Preorder(Mirror(t)));
        Reverse([k] + pr + pl);
        { ReverseAppend([k] + pr, pl); }
        Reverse(pl) + Reverse([k] + pr);
        { ReverseAppend([k], pr); }
        Reverse(pl) + (Reverse(pr) + Reverse([k]));
        { assert Reverse([k]) == [k] by { assert [k][1..] == []; } }
        Postorder(t);
      }
  }

  /** The inorder walk emits each key of the tree once. */
  lemma {:induction false} InorderKeys(t: Tree)
    ensures multiset(Inorder(t)) == Keys(t)
  {
    match t
    case Leaf =>
    case Node(l, _, k, r) =>
      InorderKeys(l);
      InorderKeys(r);
  }

  /** The preorder walk emits each key of the tree once. */
  lemma {:induction false} PreorderKeys(t: Tree)
    ensures multiset(Preorder(t)) == Keys(t)
  {
    match t
    case Leaf =>
    case Node(l, _, k, r) =>
      PreorderKeys(l);
      PreorderKeys(r);
  }

  /** `postorder_tree_walk` as written still emits each key of the tree once, only in another order. */
  lemma PostorderAsWrittenKeys(t: Tree)
    ensures multiset(PostorderAsWritten(t)) == Keys(t)
  {
    if t.Node? {
      PreorderKeys(t.left);
      PreorderKeys(t.right);
    }
  }

  /** The postorder walk also emits each key of the tree once. */
  lemma {:induction false} PostorderKeys(t: Tree)
    ensures multiset(Postorder(t)) == Keys(t)
  {
    match t
    case Leaf =>
    case Node(l, _, k, r) =>
      PostorderKeys(l);
      PostorderKeys(r);
  }

  /** Two sorted runs around a pivot that separates them form a sorted sequence. */
  lemma SortedAround(a: seq<int>, k: int, b: seq<int>)
    requires Sorted(a) && Sorted(b)
    requires forall x :: x in a ==> x <= k
    requires forall x :: x in b ==> k <= x
    ensures Sorted(a + [k] + b)
  {
    var s := a + [k] + b;
    forall j | 0 < j < |s|
      ensures s[j - 1] <= s[j]
    {
      if j < |a| {
        assert s[j - 1] == a[j - 1] && s[j] == a[j];
      } else if j == |a| {
        assert s[j - 1] == a[j - 1] && a[j - 1] in a && s[j] == k;
      } else if j == |a| + 1 {
        assert s[j - 1] == k && s[j] == b[0] && b[0] in b;
      } else {
        assert s[j - 1] == b[j - |a| - 2] && s[j] == b[j - |a| - 1];
      }
    }
  }

  /** In a search tree the inorder walk emits the keys in non-decreasing order. */
  lemma {:induction false} InorderSorted(t: Tree)
    requires IsBst(t)
    ensures Sorted(Inorder(t))
  {
    match t
    case Leaf =>
    case Node(l, _, k, r) =>
      InorderSorted(l);
      InorderSorted(r);
      InorderKeys(l);
      InorderKeys(r);
      forall x | x in Inorder(l)
        ensures x <= k
      {
        assert x in multiset(Inorder(l));
      }
      forall x | x in Inorder(r)
        ensures k <= x
      {
        assert x in multiset(Inorder(r));
      }
      SortedAround(Inorder(l), k, Inorder(r));
  }

  /** The inorder identities are the tree's nodes. */
  lemma {:induction false} InorderIdsAreIds(t: Tree)
    ensures forall x :: x in InorderIds(t) <==> x in Ids(t)
  {
    match t
    case Leaf =>
    case Node(l, _, _, r) =>
      InorderIdsAreIds(l);
      InorderIdsAreIds(r);
  }

  // ---------------------------------------------------------------------------
  // The demonstration tree

  /** The keys of the demonstration, inserted in this order; node i holds key i. */
  function DemoTree(): Tree
  {
    var t := InsertT(InsertT(InsertT(InsertT(Node(Leaf, 0, 3, Leaf), 1, 1), 2, 2), 3, 5), 4, 12);
    InsertT(InsertT(InsertT(InsertT(t, 5, 9), 6, 12), 7, 12), 8, 6)
  }

  /** The shape the insertions give, and the answers of the demonstration's searches. */
  lemma DemoShape()
    ensures DemoTree() ==
      Node(Node(Leaf, 1, 1, Node(Leaf, 2, 2, Leaf)), 0, 3,
        Node(Leaf, 3, 5,
          Node(Node(Node(Leaf, 8, 6, Leaf), 5, 9, Leaf), 4, 12,
            Node(Leaf, 6, 12, Node(Leaf, 7, 12, Leaf)))))
    ensures Inorder(DemoTree()) == [1, 2, 3, 5, 6, 9, 12, 12, 12]
    ensures Search(DemoTree(), 6) == Some(8) && Search(DemoTree(), 7) == None
  {
  }

  /**
   * Node 2 (key 2) is the right child of node 1 and has no right subtree:
   * `Node.successor` answers node 2 itself, `tree_successor` node 0 (key 3).
   */
  lemma NodeSuccessorCounterexample()
    ensures NodeSuccessorAsWritten(DemoTree(), 2) == Some(2)
    ensures Successor(DemoTree(), 2) == Some(0)
  {
    DemoShape();
    var t := DemoTree();
    var l := t.left;
    assert Ids(l) == {1, 2};
    assert Sub(t, 2) == Node(Leaf, 2, 2, Leaf);
    assert ParentOf(t, 2) == Some(1);
    assert Sub(t, 1) == l;
    assert Up(l, 2) == None;
  }

  /**
   * Inserting keys 1, 3 and 2 gives a root whose right child has a left
   * child. `postorder_tree_walk` prints that right subtree in preorder (3
   * before 2), where a postorder walk prints it bottom-up.
   */
  lemma PostorderCounterexample()
    ensures var t := InsertT(InsertT(Node(Leaf, 0, 1, Leaf), 1, 3), 2, 2);
      && IsBst(t)
      && PostorderAsWritten(t) == [3, 2, 1]
      && Postorder(t) == [2, 3, 1]
  {
    var t := InsertT(InsertT(Node(Leaf, 0, 1, Leaf), 1, 3), 2, 2);
    assert t == Node(Leaf, 0, 1, Node(Node(Leaf, 2, 2, Leaf), 1, 3, Leaf));
  }
}
