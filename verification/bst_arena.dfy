/**
 * The linked binary search tree of 04-binary-search-tree.py, in place.
 *
 * Every `Node` object is a cell of an arena: node `i` is `cells[i]`, and its
 * `left`, `right` and `p` attributes are indices of other cells (`None` for
 * Python's `None`). The ghost field `shape` is the `SearchTree.Tree` that the
 * links describe; `Valid` ties the two together, so every method that walks
 * or relinks cells is specified by what it does to `shape`.
 */
module BstArena {
  import opened Wrappers
  import opened SearchTree

  /** A `Node` object: its key and its three links. */
  datatype Cell = Cell(key: int, left: Option<nat>, right: Option<nat>, p: Option<nat>)

  /**
   * The cells hold tree t with parent link `par` at its root: each node's
   * cell carries its key, the roots of its subtrees and its parent.
   */
  ghost predicate Linked(cells: seq<Cell>, t: Tree, par: Option<nat>)
  {
    match t
    case Leaf => true
    case Node(l, i, k, r) =>
      && i < |cells| && cells[i] == Cell(k, Top(l), Top(r), par)
      && Linked(cells, l, Some(i)) && Linked(cells, r, Some(i))
  }

  /** Every link of every cell names a cell. */
  ghost predicate Closed(cells: seq<Cell>)
  {
    forall j :: 0 <= j < |cells| ==>
      && (cells[j].left.Some? ==> cells[j].left.value < |cells|)
      && (cells[j].right.Some? ==> cells[j].right.value < |cells|)
      && (cells[j].p.Some? ==> cells[j].p.value < |cells|)
  }

  /** c and d hold the same cells for the nodes in s. */
  ghost predicate Agree(c: seq<Cell>, d: seq<Cell>, s: set<nat>)
  {
    forall x :: x in s ==> x < |c| && x < |d| && d[x] == c[x]
  }

  /** d is c with, at most, the cells of the nodes in s changed. */
  ghost predicate Within(c: seq<Cell>, d: seq<Cell>, s: set<nat>)
  {
    |d| == |c| && forall j :: 0 <= j < |c| && j !in s ==> d[j] == c[j]
  }

  lemma WithinChain(a: seq<Cell>, b: seq<Cell>, d: seq<Cell>, s: set<nat>, s2: set<nat>)
    requires Within(a, b, s) && Within(b, d, s2)
    ensures Within(a, d, s + s2)
  {
  }

  lemma WithinWider(c: seq<Cell>, d: seq<Cell>, s: set<nat>, s2: set<nat>)
    requires Within(c, d, s) && s <= s2
    ensures Within(c, d, s2)
  {
  }

  lemma WithinTransplant(c: seq<Cell>, u: nat, v: Option<nat>, s: set<nat>)
    requires Closed(c) && u < |c| && (v.Some? ==> v.value < |c|)
    requires c[u].p.Some? ==> c[u].p.value in s
    requires v.Some? ==> v.value in s
    ensures Within(c, TransplantCells(c, u, v), s)
  {
  }

  /** Cells outside the tree do not matter. */
  lemma {:induction false} LinkedFrame(c: seq<Cell>, d: seq<Cell>, t: Tree, par: Option<nat>)
    requires Linked(c, t, par) && Agree(c, d, Ids(t))
    ensures Linked(d, t, par)
  {
    match t
    case Leaf =>
    case Node(l, i, _, r) =>
      LinkedFrame(c, d, l, Some(i));
      LinkedFrame(c, d, r, Some(i));
  }

  /** Changing the parent link of the root cell gives the tree a new parent. */
  lemma Reparent(c: seq<Cell>, t: Tree, par: Option<nat>, q: Option<nat>)
    requires Linked(c, t, par) && Distinct(t) && t.Node?
    ensures Linked(c[t.id := c[t.id].(p := q)], t, q)
  {
    var d := c[t.id := c[t.id].(p := q)];
    LinkedInRange(c, t, par);
    assert Ids(t) == Ids(t.left) + {t.id} + Ids(t.right);
    LinkedFrame(c, d, t.left, Some(t.id));
    LinkedFrame(c, d, t.right, Some(t.id));
  }

  /** The cell of node x reflects x's subtree and its parent, and that subtree is linked. */
  lemma {:induction false} LinkedFind(cells: seq<Cell>, t: Tree, par: Option<nat>, x: nat)
    requires Linked(cells, t, par) && Distinct(t) && x in Ids(t)
    ensures x < |cells|
    ensures cells[x] == Cell(Sub(t, x).key, Top(Sub(t, x).left), Top(Sub(t, x).right),
      if x == t.id then par else ParentOf(t, x))
    ensures Linked(cells, Sub(t, x), cells[x].p)
  {
    match t
    case Leaf =>
    case Node(l, i, _, r) =>
      if x != i {
        if x in Ids(l) {
          LinkedFind(cells, l, Some(i), x);
        } else {
          LinkedFind(cells, r, Some(i), x);
        }
      }
  }

  /** Every node of a linked tree has a cell. */
  lemma LinkedInRange(cells: seq<Cell>, t: Tree, par: Option<nat>)
    requires Linked(cells, t, par) && Distinct(t)
    ensures forall x :: x in Ids(t) ==> x < |cells|
  {
    forall x | x in Ids(t)
      ensures x < |cells|
    {
      LinkedFind(cells, t, par, x);
    }
  }

  /** `y.left = x; x.p = y` (or the same on the right): x becomes y's child. */
  function Adopt(cells: seq<Cell>, y: nat, x: nat, toLeft: bool): (d: seq<Cell>)
    requires y < |cells| && x < |cells| && y != x
    ensures |d| == |cells| && d[x] == cells[x].(p := Some(y))
    ensures d[y] == if toLeft then cells[y].(left := Some(x)) else cells[y].(right := Some(x))
    ensures forall j :: 0 <= j < |cells| && j != y && j != x ==> d[j] == cells[j]
    ensures Closed(cells) ==> Closed(d)
  {
    var c := if toLeft then cells[y := cells[y].(left := Some(x))] else cells[y := cells[y].(right := Some(x))];
    c[x := c[x].(p := Some(y))]
  }

  /** Node n hung below node y by `insert`: on the left when n's key is smaller than y's. */
  function Link(cells: seq<Cell>, y: nat, n: nat): (d: seq<Cell>)
    requires y < |cells| && n < |cells| && y != n
  {
    Adopt(cells, y, n, cells[n].key < cells[y].key)
  }

  /** The cell of u's parent with its link to u (`u == u.p.left` decides which) redirected to v. */
  function ChildSwap(c: Cell, u: nat, v: Option<nat>): Cell
  {
    if c.left == Some(u) then c.(left := v) else c.(right := v)
  }

  /**
   * `tree_transplant(tree, u, v)` on the cells: u's parent adopts v in u's
   * place and v's parent becomes u's parent. When u has no parent the source
   * only rebinds a local variable, so no cell changes for that half, and v's
   * parent becomes the null node.
   */
  function TransplantCells(cells: seq<Cell>, u: nat, v: Option<nat>): (d: seq<Cell>)
    requires Closed(cells) && u < |cells| && (v.Some? ==> v.value < |cells|)
    ensures |d| == |cells|
    ensures forall j :: 0 <= j < |cells| && Some(j) != cells[u].p && Some(j) != v ==> d[j] == cells[j]
    ensures cells[u].p.Some? && cells[u].p != v ==>
      d[cells[u].p.value] == ChildSwap(cells[cells[u].p.value], u, v)
    ensures v.Some? && cells[u].p != v ==> d[v.value] == cells[v.value].(p := cells[u].p)
    ensures Closed(d)
  {
    var pu := cells[u].p;
    var c := if pu.None? then cells else cells[pu.value := ChildSwap(cells[pu.value], u, v)];
    if v.Some? then c[v.value := c[v.value].(p := pu)] else c
  }

  /**
   * Hanging a detached node n below the node where the descent of `insert`
   * ends links exactly the tree `InsertT` describes.
   */
  lemma {:induction false} InsertLinked(cells: seq<Cell>, t: Tree, par: Option<nat>, n: nat)
    requires Linked(cells, t, par) && Distinct(t) && t.Node?
    requires n < |cells| && n !in Ids(t) && cells[n].left.None? && cells[n].right.None?
    ensures var y := InsertParent(t, cells[n].key, par).value;
      && y in Ids(t) && y < |cells| && y != n
      && Linked(Link(cells, y, n), InsertT(t, n, cells[n].key), par)
  {
    var k := cells[n].key;
    var l, i, r := t.left, t.id, t.right;
    LinkedInRange(cells, t, par);
    assert Ids(t) == Ids(l) + {i} + Ids(r);
    if k < t.key {
      if l.Node? {
        InsertLinked(cells, l, Some(i), n);
      }
      HangLeft(cells, t, par, n);
    } else {
      if r.Node? {
        InsertLinked(cells, r, Some(i), n);
      }
      HangRight(cells, t, par, n);
    }
  }

  /** One level of `InsertLinked`, when the descent goes left. */
  lemma HangLeft(cells: seq<Cell>, t: Tree, par: Option<nat>, n: nat)
    requires Linked(cells, t, par) && Distinct(t) && t.Node?
    requires n < |cells| && n !in Ids(t) && cells[n].left.None? && cells[n].right.None?
    requires cells[n].key < t.key
    requires t.left.Node? ==>
      var y := InsertParent(t.left, cells[n].key, Some(t.id)).value;
      y < |cells| && Linked(Link(cells, y, n), InsertT(t.left, n, cells[n].key), Some(t.id))
    ensures var y := InsertParent(t, cells[n].key, par).value;
      && y in Ids(t) && y < |cells| && y != n
      && Linked(Link(cells, y, n), InsertT(t, n, cells[n].key), par)
  {
    var k := cells[n].key;
    var l, i, key, r := t.left, t.id, t.key, t.right;
    LinkedInRange(cells, t, par);
    assert Ids(t) == Ids(l) + {i} + Ids(r);
    var y := InsertParent(l, k, Some(i)).value;
    assert y in Ids(t);
    var d := Link(cells, y, n);
    var tl := InsertT(l, n, k);
    assert InsertT(t, n, k) == Node(tl, i, key, r);
    assert y !in Ids(r) && n !in Ids(r);
    LinkedFrame(cells, d, r, Some(i));
    if l.Leaf? {
      assert tl == Node(Leaf, n, k, Leaf);
      assert Linked(d, tl, Some(i));
      assert d[i] == Cell(key, Top(tl), Top(r), par);
    } else {
      InsertIds(l, n, k);
      assert d[i] == Cell(key, Top(tl), Top(r), par);
    }
  }

  /** One level of `InsertLinked`, when the descent goes right. */
  lemma HangRight(cells: seq<Cell>, t: Tree, par: Option<nat>, n: nat)
    requires Linked(cells, t, par) && Distinct(t) && t.Node?
    requires n < |cells| && n !in Ids(t) && cells[n].left.None? && cells[n].right.None?
    requires t.key <= cells[n].key
    requires t.right.Node? ==>
      var y := InsertParent(t.right, cells[n].key, Some(t.id)).value;
      y < |cells| && Linked(Link(cells, y, n), InsertT(t.right, n, cells[n].key), Some(t.id))
    ensures var y := InsertParent(t, cells[n].key, par).value;
      && y in Ids(t) && y < |cells| && y != n
      && Linked(Link(cells, y, n), InsertT(t, n, cells[n].key), par)
  {
    var k := cells[n].key;
    var l, i, key, r := t.left, t.id, t.key, t.right;
    LinkedInRange(cells, t, par);
    assert Ids(t) == Ids(l) + {i} + Ids(r);
    var y := InsertParent(r, k, Some(i)).value;
    assert y in Ids(t);
    var d := Link(cells, y, n);
    var tr := InsertT(r, n, k);
    assert InsertT(t, n, k) == Node(l, i, key, tr);
    assert y !in Ids(l) && n !in Ids(l);
    LinkedFrame(cells, d, l, Some(i));
    if r.Leaf? {
      assert tr == Node(Leaf, n, k, Leaf);
      assert Linked(d, tr, Some(i));
      assert d[i] == Cell(key, Top(l), Top(tr), par);
    } else {
      InsertIds(r, n, k);
      assert d[i] == Cell(key, Top(l), Top(tr), par);
    }
  }

  // ---------------------------------------------------------------------------
  // Replacing a subtree

  /** The nodes of t that are neither in the subtree at z nor z's parent. */
  ghost function Rest(t: Tree, z: nat): set<nat>
  {
    var q := ParentOf(t, z);
    Ids(t) - Ids(Sub(t, z)) - (if q.Some? then {q.value} else {})
  }

  /**
   * d is c with the subtree at z replaced by s: the rest of t keeps its cells,
   * and z's parent now points to s where it pointed to z.
   */
  ghost predicate Swapped(c: seq<Cell>, d: seq<Cell>, t: Tree, z: nat, s: Tree)
  {
    && Agree(c, d, Rest(t, z))
    && (ParentOf(t, z).Some? ==>
         var q := ParentOf(t, z).value;
         q < |c| && q < |d| && d[q] == ChildSwap(c[q], z, Top(s)))
  }

  /** Replacing the subtree at z by a linked tree s links the tree `ReplaceAt` describes. */
  lemma {:induction false} ReplaceLinked(c: seq<Cell>, d: seq<Cell>, t: Tree, par: Option<nat>, z: nat, s: Tree)
    requires Linked(c, t, par) && Distinct(t) && z in Ids(t)
    requires Linked(d, s, if z == t.id then par else ParentOf(t, z))
    requires Swapped(c, d, t, z, s)
    ensures Linked(d, ReplaceAt(t, z, s), par)
  {
    var l, i, r := t.left, t.id, t.right;
    if z != i {
      if z in Ids(l) {
        if l.id != z {
          ParentOutside(l, z);
          assert Rest(l, z) <= Rest(t, z);
          ReplaceLinked(c, d, l, Some(i), z, s);
        }
        ReplaceLeft(c, d, t, par, z, s);
      } else {
        if r.id != z {
          ParentOutside(r, z);
          assert Rest(r, z) <= Rest(t, z);
          ReplaceLinked(c, d, r, Some(i), z, s);
        }
        ReplaceRight(c, d, t, par, z, s);
      }
    }
  }

  /** One level of `ReplaceLinked`, when z lies in the left subtree. */
  lemma ReplaceLeft(c: seq<Cell>, d: seq<Cell>, t: Tree, par: Option<nat>, z: nat, s: Tree)
    requires Linked(c, t, par) && Distinct(t) && z in Ids(t) && z != t.id && z in Ids(t.left)
    requires Linked(d, s, ParentOf(t, z)) && Swapped(c, d, t, z, s)
    requires t.left.id != z ==> Linked(d, ReplaceAt(t.left, z, s), Some(t.id))
    ensures Linked(d, ReplaceAt(t, z, s), par)
  {
    var l, i, k, r := t.left, t.id, t.key, t.right;
    assert ReplaceAt(t, z, s) == Node(ReplaceAt(l, z, s), i, k, r);
    assert Sub(t, z) == Sub(l, z);
    if l.id != z {
      ParentOutside(l, z);
    }
    assert ParentOf(t, z).value in Ids(l) + {i};
    assert Ids(r) <= Rest(t, z);
    LinkedFrame(c, d, r, Some(i));
    if l.id == z {
      assert d[i] == Cell(k, Top(s), Top(r), par);
    } else {
      ParentOutside(l, z);
      assert i in Rest(t, z);
      assert d[i] == Cell(k, Top(ReplaceAt(l, z, s)), Top(r), par);
    }
  }

  /** One level of `ReplaceLinked`, when z lies in the right subtree. */
  lemma ReplaceRight(c: seq<Cell>, d: seq<Cell>, t: Tree, par: Option<nat>, z: nat, s: Tree)
    requires Linked(c, t, par) && Distinct(t) && z in Ids(t) && z != t.id && z !in Ids(t.left)
    requires Linked(d, s, ParentOf(t, z)) && Swapped(c, d, t, z, s)
    requires t.right.id != z ==> Linked(d, ReplaceAt(t.right, z, s), Some(t.id))
    ensures Linked(d, ReplaceAt(t, z, s), par)
  {
    var l, i, k, r := t.left, t.id, t.key, t.right;
    assert z in Ids(r);
    assert ReplaceAt(t, z, s) == Node(l, i, k, ReplaceAt(r, z, s));
    assert Sub(t, z) == Sub(r, z);
    if r.id != z {
      ParentOutside(r, z);
    }
    assert ParentOf(t, z).value in Ids(r) + {i};
    assert Ids(l) <= Rest(t, z);
    LinkedFrame(c, d, l, Some(i));
    if r.id == z {
      assert c[i].left != Some(z);
      assert d[i] == Cell(k, Top(l), Top(s), par);
    } else {
      ParentOutside(r, z);
      assert i in Rest(t, z);
      assert d[i] == Cell(k, Top(l), Top(ReplaceAt(r, z, s)), par);
    }
  }

  // ---------------------------------------------------------------------------
  // Deletion

  /**
   * `transplant(z, s)` where s is one of z's subtrees: the cells then link t
   * with the subtree at z replaced by s.
   */
  lemma TransplantLinked(c: seq<Cell>, t: Tree, par: Option<nat>, z: nat, s: Tree)
    requires Linked(c, t, par) && Distinct(t) && z in Ids(t) && Closed(c)
    requires par.Some? ==> par.value !in Ids(t)
    requires s == Sub(t, z).left || s == Sub(t, z).right
    ensures z < |c| && c[z].p == (if z == t.id then par else ParentOf(t, z))
    ensures s.Node? ==> s.id < |c|
    ensures Linked(TransplantCells(c, z, Top(s)), ReplaceAt(t, z, s), par)
  {
    var sz := Sub(t, z);
    LinkedFind(c, t, par, z);
    SubDistinct(t, z);
    LinkedInRange(c, t, par);
    var pz := c[z].p;
    if z != t.id {
      ParentOutside(t, z);
    }
    assert Ids(s) <= Ids(sz) && Ids(sz) <= Ids(t);
    var d := TransplantCells(c, z, Top(s));
    if s.Node? {
      assert Linked(c, s, Some(z)) && Distinct(s);
      AdoptedByParent(c, s, z);
    }
    AgreeTransplant(c, z, Top(s), Rest(t, z));
    assert Swapped(c, d, t, z, s);
    ReplaceLinked(c, d, t, par, z, s);
  }

  /** `transplant(z, s)` in a whole tree changes only cells of nodes other than z. */
  lemma TransplantWithin(c: seq<Cell>, t: Tree, z: nat, s: Tree)
    requires Distinct(t) && z in Ids(t) && Closed(c)
    requires s == Sub(t, z).left || s == Sub(t, z).right
    requires z < |c| && c[z].p == (if z == t.id then None else ParentOf(t, z))
    requires s.Node? ==> s.id < |c|
    ensures Within(c, TransplantCells(c, z, Top(s)), Ids(t) - {z})
  {
    var sz := Sub(t, z);
    SubDistinct(t, z);
    if z != t.id {
      ParentOutside(t, z);
    }
    assert Ids(s) <= Ids(sz) && Ids(sz) <= Ids(t) && z !in Ids(s);
    assert s.Node? ==> s.id in Ids(s);
    WithinTransplant(c, z, Top(s), Ids(t) - {z});
  }

  /** The splice of the first half of the two-children case of `delete(z)` stays inside z's right subtree. */
  lemma SpliceWithin(c: seq<Cell>, c1: seq<Cell>, c2: seq<Cell>, t: Tree, z: nat, y: nat)
    requires Linked(c, t, None) && Distinct(t) && z in Ids(t) && Closed(c)
    requires Sub(t, z).right.Node? && y == Minimum(Sub(t, z).right).id
    requires y < |c| && c1 == TransplantCells(c, y, c[y].right)
    requires Sub(t, z).right.id < |c| && y != Sub(t, z).right.id
    requires c2 == Adopt(c1, y, Sub(t, z).right.id, false)
    ensures Within(c, c2, Ids(Sub(t, z).right))
  {
    var sr := Sub(t, z).right;
    LinkedFind(c, t, None, z);
    SubDistinct(t, z);
    MinimumInTree(sr);
    LinkedFind(c, sr, Some(z), y);
    ParentOutside(sr, y);
    var sy := Sub(sr, y);
    assert sy.right.Node? ==> sy.right.id in Ids(sy);
    WithinTransplant(c, y, c[y].right, Ids(sr));
    assert sr.id in Ids(sr);
  }

  /** After `transplant(z, s)`, the subtree s hangs below z's former parent. */
  lemma AdoptedByParent(c: seq<Cell>, s: Tree, z: nat)
    requires Linked(c, s, Some(z)) && Distinct(s) && s.Node? && Closed(c) && z < |c|
    requires c[z].p.Some? ==> c[z].p.value !in Ids(s)
    ensures Linked(TransplantCells(c, z, Top(s)), s, c[z].p)
  {
    var pz := c[z].p;
    Reparent(c, s, Some(z), pz);
    LinkedInRange(c, s, Some(z));
    var e := c[s.id := c[s.id].(p := pz)];
    var d := TransplantCells(c, z, Top(s));
    assert Agree(e, d, Ids(s));
    LinkedFrame(e, d, s, pz);
  }

  /**
   * The first half of `delete` when the minimum y of z's right subtree is not
   * z's child: `transplant(y, y.right)`, then y adopts z's right subtree.
   * The subtree without its minimum then hangs below y, and nothing outside
   * z's right subtree has changed.
   */
  lemma SpliceLinked(c: seq<Cell>, c1: seq<Cell>, c2: seq<Cell>, t: Tree, z: nat, y: nat)
    requires Linked(c, t, None) && Distinct(t) && z in Ids(t) && Closed(c)
    requires Sub(t, z).right.Node? && y == Minimum(Sub(t, z).right).id
    requires y < |c| && c1 == TransplantCells(c, y, c[y].right)
    requires Sub(t, z).right.id < |c| && y != Sub(t, z).right.id
    requires c2 == Adopt(c1, y, Sub(t, z).right.id, false)
    ensures Linked(c2, RemoveMin(Sub(t, z).right), Some(y))
    ensures Agree(c, c2, Ids(t) - Ids(Sub(t, z).right))
    ensures c2[y] == c[y].(right := Top(RemoveMin(Sub(t, z).right)))
  {
    var sz := Sub(t, z);
    var sr := sz.right;
    var zr := sr.id;
    LinkedFind(c, t, None, z);
    LinkedInRange(c, t, None);
    SubDistinct(t, z);
    assert Linked(c, sr, Some(z)) && Distinct(sr) && z !in Ids(sr);
    MinimumInTree(sr);
    var m := Minimum(sr);
    LinkedFind(c, sr, Some(z), y);
    assert c[y].right == Top(m.right);
    TransplantLinked(c, sr, Some(z), y, m.right);
    RemoveMinIsReplace(sr);
    RemoveMinIds(sr);
    var rm := RemoveMin(sr);
    AdoptLinked(c1, rm, Some(z), y, false);
    // nothing outside z's right subtree changes
    ParentOutside(sr, y);
    assert Ids(sz) <= Ids(t) && Ids(sr) <= Ids(sz);
    var out := Ids(t) - Ids(sr);
    AgreeTransplant(c, y, c[y].right, out);
    AgreeAdopt(c1, y, zr, false, out);
    AgreeChain(c, c1, c2, out);
  }

  /** When the minimum y of z's right subtree is z's right child, nothing needs splicing. */
  lemma AdjacentLinked(c: seq<Cell>, t: Tree, z: nat, y: nat)
    requires Linked(c, t, None) && Distinct(t) && z in Ids(t)
    requires Sub(t, z).right.Node? && y == Minimum(Sub(t, z).right).id
    requires y == Sub(t, z).right.id
    ensures y < |c|
    ensures Linked(c, RemoveMin(Sub(t, z).right), Some(y))
    ensures Agree(c, c, Ids(t) - Ids(Sub(t, z).right))
    ensures c[y] == c[y].(right := Top(RemoveMin(Sub(t, z).right)))
  {
    LinkedFind(c, t, None, z);
    LinkedInRange(c, t, None);
    SubDistinct(t, z);
  }

  /** Transplanting keeps the cells of nodes other than u's parent and v. */
  lemma AgreeTransplant(c: seq<Cell>, u: nat, v: Option<nat>, s: set<nat>)
    requires Closed(c) && u < |c| && (v.Some? ==> v.value < |c|)
    requires forall x :: x in s ==> x < |c| && Some(x) != c[u].p && Some(x) != v
    ensures Agree(c, TransplantCells(c, u, v), s)
  {
  }

  /** Adoption keeps the cells of nodes other than the two it links. */
  lemma AgreeAdopt(c: seq<Cell>, y: nat, x: nat, toLeft: bool, s: set<nat>)
    requires y < |c| && x < |c| && y != x
    requires forall j :: j in s ==> j < |c| && j != y && j != x
    ensures Agree(c, Adopt(c, y, x, toLeft), s)
  {
  }

  lemma AgreeChain(a: seq<Cell>, b: seq<Cell>, d: seq<Cell>, s: set<nat>)
    requires Agree(a, b, s) && Agree(b, d, s)
    ensures Agree(a, d, s)
  {
  }

  /** A linked subtree adopted by a node outside it is linked below that node. */
  lemma AdoptLinked(c: seq<Cell>, s: Tree, q: Option<nat>, y: nat, toLeft: bool)
    requires Linked(c, s, q) && Distinct(s) && s.Node? && y < |c| && y !in Ids(s)
    ensures Linked(Adopt(c, y, s.id, toLeft), s, Some(y))
  {
    Reparent(c, s, q, Some(y));
    LinkedInRange(c, s, q);
    var e := c[s.id := c[s.id].(p := Some(y))];
    var d := Adopt(c, y, s.id, toLeft);
    assert Agree(e, d, Ids(s));
    LinkedFrame(e, d, s, Some(y));
  }

  /** The shape facts the two-children case of `delete` relies on. */
  lemma TwoChildrenShape(c: seq<Cell>, t: Tree, z: nat)
    requires Linked(c, t, None) && Distinct(t) && z in Ids(t)
    requires Sub(t, z).left.Node? && Sub(t, z).right.Node?
    ensures var sz := Sub(t, z);
      && z < |c| && c[z] == Cell(sz.key, Some(sz.left.id), Some(sz.right.id), ParentOf(t, z))
      && (ParentOf(t, z).Some? ==> ParentOf(t, z).value in Ids(t) - Ids(sz))
      && Linked(c, sz.left, Some(z)) && Linked(c, sz.right, Some(z))
      && Distinct(sz) && Distinct(sz.left)
      && Ids(sz.left) !! Ids(sz.right) && z !in Ids(sz.left) && z !in Ids(sz.right)
      && Ids(sz.left) <= Ids(t) - Ids(sz.right)
      && Ids(t) - Ids(sz) <= Ids(t) - Ids(sz.right)
      && Ids(sz.right) <= Ids(sz)
    ensures forall x :: x in Ids(t) ==> x < |c|
    ensures var sr := Sub(t, z).right; var m := Minimum(sr);
      && m.id in Ids(sr) && m.id < |c| && c[m.id].key == m.key && c[m.id].left.None?
      && Ids(RemoveMin(sr)) == Ids(sr) - {m.id} && Distinct(RemoveMin(sr))
      && DeleteT(t, z) == ReplaceAt(t, z, Node(Sub(t, z).left, m.id, m.key, RemoveMin(sr)))
      && Top(DeleteT(t, z)) == (if c[z].p.None? then Some(m.id) else Top(t))
  {
    var sz := Sub(t, z);
    var sr := sz.right;
    LinkedFind(c, t, None, z);
    LinkedInRange(c, t, None);
    SubDistinct(t, z);
    if z != t.id {
      ParentOutside(t, z);
    }
    MinimumInTree(sr);
    LinkedFind(c, sr, Some(z), Minimum(sr).id);
    RemoveMinIds(sr);
    DeleteIsReplace(t, z);
  }

  /**
   * c2 is c after the first half of the two-children case of `delete(z)`:
   * z's right subtree without its minimum y hangs below y, and no cell outside
   * that subtree has changed.
   */
  ghost predicate Spliced(c: seq<Cell>, c2: seq<Cell>, t: Tree, z: nat, y: nat)
  {
    && z in Ids(t) && Sub(t, z).right.Node? && y < |c| && |c2| == |c| && Closed(c2)
    && Linked(c2, RemoveMin(Sub(t, z).right), Some(y))
    && Agree(c, c2, Ids(t) - Ids(Sub(t, z).right))
    && c2[y] == c[y].(right := Top(RemoveMin(Sub(t, z).right)))
  }

  /**
   * The two-children case of `delete(z)` changes only cells of nodes that
   * stay in the tree: z's own cell is left as it was.
   */
  lemma TwoChildrenWithin(c: seq<Cell>, c2: seq<Cell>, c3: seq<Cell>, c4: seq<Cell>, t: Tree, z: nat, y: nat)
    requires Linked(c, t, None) && Distinct(t) && z in Ids(t) && Closed(c)
    requires Sub(t, z).left.Node? && Sub(t, z).right.Node?
    requires y == Minimum(Sub(t, z).right).id
    requires Spliced(c, c2, t, z, y) && Within(c, c2, Ids(Sub(t, z).right)) && z < |c|
    requires c3 == TransplantCells(c2, z, Some(y))
    requires Sub(t, z).left.id < |c| && y != Sub(t, z).left.id
    requires c4 == Adopt(c3, y, Sub(t, z).left.id, true)
    ensures Within(c, c4, Ids(t) - {z})
  {
    var sz := Sub(t, z);
    var rest := Ids(t) - {z};
    TwoChildrenShape(c, t, z);
    TwoChildrenFacts(c, c2, t, z, y);
    assert Ids(sz.right) <= rest;
    WithinWider(c, c2, Ids(sz.right), rest);
    assert Within(c2, c3, rest);
    assert sz.left.id in Ids(sz.left);
    assert Within(c3, c4, rest);
    WithinChain(c, c2, c3, rest, rest);
    WithinChain(c, c3, c4, rest, rest);
    assert rest + rest == rest;
  }

  /** What the second half of the two-children case of `delete(z)` reads from the spliced cells. */
  lemma TwoChildrenFacts(c: seq<Cell>, c2: seq<Cell>, t: Tree, z: nat, y: nat)
    requires Linked(c, t, None) && Distinct(t) && z in Ids(t)
    requires Sub(t, z).left.Node? && Sub(t, z).right.Node?
    requires y == Minimum(Sub(t, z).right).id
    requires Spliced(c, c2, t, z, y)
    ensures z < |c| && c2[z] == c[z] && c[z].left == Some(Sub(t, z).left.id)
    ensures Sub(t, z).left.id < |c| && y != Sub(t, z).left.id && y != z
    ensures c[z].p != Some(z) && c[z].p != Some(y)
    ensures Top(DeleteT(t, z)) == (if c[z].p.None? then Some(y) else Top(t))
  {
    TwoChildrenShape(c, t, z);
  }

  /**
   * The second half of `delete` when z has two children: `transplant(z, y)`,
   * then y adopts z's left subtree. With z's right subtree already spliced
   * (c2), the cells link `DeleteT(t, z)`.
   */
  lemma TwoChildrenLinked(c: seq<Cell>, c2: seq<Cell>, c3: seq<Cell>, c4: seq<Cell>, t: Tree, z: nat, y: nat)
    requires Linked(c, t, None) && Distinct(t) && z in Ids(t) && Closed(c)
    requires Sub(t, z).left.Node? && Sub(t, z).right.Node?
    requires y == Minimum(Sub(t, z).right).id
    requires Spliced(c, c2, t, z, y) && z < |c|
    requires c3 == TransplantCells(c2, z, Some(y))
    requires Sub(t, z).left.id < |c| && y != Sub(t, z).left.id
    requires c4 == Adopt(c3, y, Sub(t, z).left.id, true)
    ensures Linked(c4, DeleteT(t, z), None)
  {
    var sz := Sub(t, z);
    var zl, sr := sz.left, sz.right;
    var rm := RemoveMin(sr);
    TwoChildrenShape(c, t, z);
    var pz := c[z].p;
    var key := Minimum(sr).key;
    var s := Node(zl, y, key, rm);
    assert c2[z] == c[z];
    // the spliced right subtree
    AgreeTransplant(c2, z, Some(y), Ids(rm));
    AgreeAdopt(c3, y, zl.id, true, Ids(rm));
    AgreeChain(c2, c3, c4, Ids(rm));
    LinkedFrame(c2, c4, rm, Some(y));
    // the left subtree
    AgreeTransplant(c2, z, Some(y), Ids(zl));
    AgreeChain(c, c2, c3, Ids(zl));
    LinkedFrame(c, c3, zl, Some(z));
    AdoptLinked(c3, zl, Some(z), y, true);
    // y itself
    assert c4[y] == Cell(key, Top(zl), Top(rm), pz);
    assert Linked(c4, s, pz);
    // the rest of t
    var rest := Rest(t, z);
    AgreeTransplant(c2, z, Some(y), rest);
    AgreeAdopt(c3, y, zl.id, true, rest);
    AgreeChain(c, c2, c3, rest);
    AgreeChain(c, c3, c4, rest);
    assert Swapped(c, c4, t, z, s);
    ReplaceLinked(c, c4, t, None, z, s);
  }

  /**
   * The objects of one tree: the arena of cells, the root (the object the
   * source's `tree` variable names), and the tree the links describe.
   */
  class BinarySearchTree {
    var cells: seq<Cell>
    var root: Option<nat>
    ghost var shape: Tree

    /** The links describe `shape`, a search tree whose root is `root`. */
    ghost predicate Valid()
      reads this
    {
      && Linked(cells, shape, None) && Distinct(shape) && IsBst(shape)
      && root == Top(shape) && Closed(cells)
    }

    /** An empty tree with no objects. */
    constructor ()
      ensures Valid() && shape == Leaf && cells == []
    {
      cells := [];
      root := None;
      shape := Leaf;
    }

    /** `Node(key)`: a new object with no links, not yet in the tree. */
    method NewNode(key: int) returns (n: nat)
      requires Valid()
      modifies this
      ensures Valid() && shape == old(shape) && root == old(root)
      ensures n == old(|cells|) && cells == old(cells) + [Cell(key, None, None, None)]
    {
      LinkedInRange(cells, shape, None);
      n := |cells|;
      cells := cells + [Cell(key, None, None, None)];
      LinkedFrame(old(cells), cells, shape, None);
    }

    /** `x.insert(n)` (recursive): hangs node n below the last node of the descent from x. */
    method NodeInsert(x: nat, n: nat, ghost sub: Tree, ghost par: Option<nat>)
      requires Linked(cells, sub, par) && Distinct(sub) && sub.Node? && sub.id == x
      requires n < |cells| && n !in Ids(sub)
      modifies this
      ensures root == old(root) && shape == old(shape)
      ensures InsertParent(sub, old(cells[n].key), par).value < old(|cells|)
      ensures cells == Link(old(cells), InsertParent(sub, old(cells[n].key), par).value, n)
      decreases sub
    {
      if cells[n].key < cells[x].key {
        if cells[x].left.Some? {
          NodeInsert(cells[x].left.value, n, sub.left, Some(x));
        } else {
          cells := cells[x := cells[x].(left := Some(n))];
          cells := cells[n := cells[n].(p := Some(x))];
          assert cells == Link(old(cells), x, n);
        }
      } else {
        if cells[x].right.Some? {
          NodeInsert(cells[x].right.value, n, sub.right, Some(x));
        } else {
          cells := cells[x := cells[x].(right := Some(n))];
          cells := cells[n := cells[n].(p := Some(x))];
          assert cells == Link(old(cells), x, n);
        }
      }
    }

    /** `tree.insert(n)`: inserts the detached node n into a non-empty tree. */
    method Insert(n: nat)
      requires Valid() && root.Some?
      requires n < |cells| && n !in Ids(shape) && cells[n].left.None? && cells[n].right.None?
      modifies this
      ensures Valid() && |cells| == old(|cells|)
      ensures shape == InsertT(old(shape), n, old(cells[n].key))
      ensures Within(old(cells), cells, Ids(shape))
    {
      ghost var k := cells[n].key;
      InsertLinked(cells, shape, None, n);
      NodeInsert(root.value, n, shape, None);
      InsertKeepsBst(shape, n, k);
      InsertKeepsDistinct(shape, n, k);
      InsertIds(shape, n, k);
      shape := InsertT(shape, n, k);
    }

    /**
     * `tree_insert(tree, n)`: the same insertion, descending in a loop. On an
     * empty tree, `tree = n` only rebinds the local name: n's parent is set
     * to the null node and the tree stays empty.
     */
    method TreeInsert(n: nat)
      requires Valid()
      requires n < |cells| && n !in Ids(shape) && cells[n].left.None? && cells[n].right.None?
      modifies this
      ensures Valid() && |cells| == old(|cells|)
      ensures shape == if old(shape).Leaf? then Leaf else InsertT(old(shape), n, old(cells[n].key))
      ensures old(shape).Leaf? ==> cells[n] == old(cells[n]).(p := None)
      ensures Within(old(cells), cells, Ids(shape) + {n})
    {
      var k := cells[n].key;
      var y: Option<nat> := None;
      var x := root;
      ghost var sub := shape;
      ghost var goal := InsertParent(shape, k, None);
      LinkedInRange(cells, shape, None);
      while x.Some?
        invariant Linked(cells, sub, y) && Distinct(sub) && x == Top(sub) && Ids(sub) <= Ids(shape)
        invariant y.Some? ==> y.value in Ids(shape)
        invariant InsertParent(sub, k, y) == goal
        decreases sub
      {
        y := x;
        if k < cells[x.value].key {
          x := cells[x.value].left;
          sub := sub.left;
        } else {
          x := cells[x.value].right;
          sub := sub.right;
        }
      }
      InsertKeepsBst(shape, n, k);
      InsertKeepsDistinct(shape, n, k);
      InsertIds(shape, n, k);
      ghost var c0 := cells;
      cells := cells[n := cells[n].(p := y)];
      if y.None? {
        assert shape == Leaf;
      } else {
        InsertLinked(c0, shape, None, n);
        if k < cells[y.value].key {
          cells := cells[y.value := cells[y.value].(left := Some(n))];
        } else {
          cells := cells[y.value := cells[y.value].(right := Some(n))];
        }
        assert cells == Link(c0, y.value, n);
        shape := InsertT(shape, n, k);
      }
    }

    /** `tree_search(x, key)`: the node below x holding `key`, or `None` for the null node. */
    method TreeSearch(x: nat, key: int) returns (r: Option<nat>)
      requires Valid() && x in Ids(shape)
      ensures r == Search(Sub(shape, x), key)
    {
      LinkedFind(cells, shape, None, x);
      var node := x;
      ghost var sub := Sub(shape, x);
      while key != cells[node].key
        invariant node < |cells| && sub.Node? && sub.id == node
        invariant Linked(cells, sub, cells[node].p)
        invariant Search(sub, key) == Search(Sub(shape, x), key)
        decreases sub
      {
        if key < cells[node].key {
          if cells[node].left.None? {
            return None;
          }
          node := cells[node].left.value;
          sub := sub.left;
        } else {
          if cells[node].right.None? {
            return None;
          }
          node := cells[node].right.value;
          sub := sub.right;
        }
      }
      return Some(node);
    }

    /** `tree_minimum(x)`: follows left links from x to the end. */
    method TreeMinimum(x: nat) returns (m: nat)
      requires Valid() && x in Ids(shape)
      ensures m == Minimum(Sub(shape, x)).id
    {
      LinkedFind(cells, shape, None, x);
      m := x;
      ghost var sub := Sub(shape, x);
      while cells[m].left.Some?
        invariant m < |cells| && Linked(cells, sub, cells[m].p) && sub.Node? && sub.id == m
        invariant Minimum(sub) == Minimum(Sub(shape, x))
        decreases sub
      {
        m := cells[m].left.value;
        sub := sub.left;
      }
    }

    /** `tree_maximum(x)`: follows right links from x to the end. */
    method TreeMaximum(x: nat) returns (m: nat)
      requires Valid() && x in Ids(shape)
      ensures m == Maximum(Sub(shape, x)).id
    {
      LinkedFind(cells, shape, None, x);
      m := x;
      ghost var sub := Sub(shape, x);
      while cells[m].right.Some?
        invariant m < |cells| && Linked(cells, sub, cells[m].p) && sub.Node? && sub.id == m
        invariant Maximum(sub) == Maximum(Sub(shape, x))
        decreases sub
      {
        m := cells[m].right.value;
        sub := sub.right;
      }
    }

    /**
     * `tree_successor(x)`: the minimum of the right subtree, or else the
     * parent reached after climbing out of right subtrees.
     */
    method TreeSuccessor(x: nat) returns (s: Option<nat>)
      requires Valid() && x in Ids(shape)
      ensures s == Successor(shape, x)
    {
      LinkedFind(cells, shape, None, x);
      LinkedInRange(cells, shape, None);
      if cells[x].right.Some? {
        SubChild(shape, x);
        var m := TreeMinimum(cells[x].right.value);
        return Some(m);
      }
      var node := x;
      var parent := cells[x].p;
      if node != shape.id {
        UpStep(shape, node);
      }
      while parent.Some? && cells[parent.value].right == Some(node)
        invariant node in Ids(shape) && parent == ParentOf(shape, node)
        invariant parent.Some? ==> parent.value in Ids(shape) && node != shape.id
        invariant Up(shape, node) == Up(shape, x)
        decreases Depth(shape, node)
      {
        UpStep(shape, node);
        LinkedFind(cells, shape, None, parent.value);
        node := parent.value;
        parent := cells[node].p;
        if node != shape.id {
          UpStep(shape, node);
        }
      }
      if node != shape.id {
        UpStep(shape, node);
      }
      if parent.Some? {
        LinkedFind(cells, shape, None, parent.value);
      }
      return parent;
    }

    /**
     * `tree_transplant(tree, u, v)`: u's parent takes v in u's place and v
     * takes u's parent; when u is the root, v becomes the root. (The method
     * `u._transplant(v)` differs only when u is the root: v then keeps u as
     * its parent.)
     */
    method Transplant(u: nat, v: Option<nat>)
      requires u < |cells| && Closed(cells) && (v.Some? ==> v.value < |cells|)
      modifies this
      ensures cells == TransplantCells(old(cells), u, v)
      ensures root == (if old(cells[u].p).None? then v else old(root))
      ensures shape == old(shape)
    {
      var pu := cells[u].p;
      if pu.None? {
        root := v;
      } else if cells[pu.value].left == Some(u) {
        cells := cells[pu.value := cells[pu.value].(left := v)];
      } else {
        cells := cells[pu.value := cells[pu.value].(right := v)];
      }
      if v.Some? {
        cells := cells[v.value := cells[v.value].(p := pu)];
      }
    }

    /**
     * `tree_delete(tree, z)` (and `delete(z)`): z's place goes to its only
     * child, or, when it has two, to the minimum of its right subtree.
     */
    method Delete(z: nat)
      requires Valid() && z in Ids(shape)
      modifies this
      ensures Valid() && |cells| == old(|cells|)
      ensures shape == DeleteT(old(shape), z)
      ensures Within(old(cells), cells, Ids(shape))
    {
      ghost var t := shape;
      LinkedFind(cells, t, None, z);
      if z != t.id {
        ParentOutside(t, z);
      }
      DeleteIds(t, z);
      DeleteKeepsBst(t, z);
      DeleteIsReplace(t, z);
      if cells[z].left.None? {
        TransplantLinked(cells, t, None, z, Sub(t, z).right);
        TransplantWithin(cells, t, z, Sub(t, z).right);
        Transplant(z, cells[z].right);
      } else if cells[z].right.None? {
        TransplantLinked(cells, t, None, z, Sub(t, z).left);
        TransplantWithin(cells, t, z, Sub(t, z).left);
        Transplant(z, cells[z].left);
      } else {
        DeleteTwoChildren(z);
      }
      shape := DeleteT(t, z);
    }

    /**
     * The two-children case of `delete(z)`: the minimum y of z's right
     * subtree is spliced out of it (unless it is z's child), takes over z's
     * right subtree, replaces z, and takes over z's left subtree.
     */
    method DeleteTwoChildren(z: nat)
      requires Valid() && z in Ids(shape)
      requires Sub(shape, z).left.Node? && Sub(shape, z).right.Node?
      modifies this
      ensures shape == old(shape) && |cells| == old(|cells|) && Closed(cells)
      ensures Linked(cells, DeleteT(shape, z), None) && root == Top(DeleteT(shape, z))
      ensures Within(old(cells), cells, Ids(shape) - {z})
    {
      ghost var t := shape;
      ghost var c := cells;
      ghost var sr := Sub(t, z).right;
      LinkedFind(c, t, None, z);
      LinkedInRange(c, t, None);
      SubChild(t, z);
      SubDistinct(t, z);
      MinimumInTree(sr);
      var y := TreeMinimum(cells[z].right.value);
      SpliceMinimum(z, y);
      ghost var c2 := cells;
      TwoChildrenFacts(c, c2, t, z, y);
      Transplant(z, Some(y));
      ghost var c3 := cells;
      cells := cells[y := cells[y].(left := cells[z].left)];
      cells := cells[cells[y].left.value := cells[cells[y].left.value].(p := Some(y))];
      TwoChildrenLinked(c, c2, c3, cells, t, z, y);
      TwoChildrenWithin(c, c2, c3, cells, t, z, y);
    }

    /**
     * The first half of the two-children case of `delete(z)`: unless it is
     * z's child, the minimum y of z's right subtree gives its place to its
     * right subtree and takes over z's right subtree.
     */
    method SpliceMinimum(z: nat, y: nat)
      requires Valid() && z in Ids(shape) && Sub(shape, z).right.Node?
      requires y == Minimum(Sub(shape, z).right).id && y < |cells|
      modifies this
      ensures shape == old(shape) && root == old(root)
      ensures Spliced(old(cells), cells, shape, z, y)
      ensures Within(old(cells), cells, Ids(Sub(shape, z).right))
    {
      ghost var t := shape;
      ghost var c := cells;
      ghost var sr := Sub(t, z).right;
      LinkedFind(c, t, None, z);
      LinkedInRange(c, t, None);
      SubDistinct(t, z);
      assert Linked(c, sr, Some(z)) && Distinct(sr) && z !in Ids(sr);
      MinimumInTree(sr);
      LinkedFind(c, sr, Some(z), y);
      if y != sr.id {
        ParentOutside(sr, y);
      }
      if cells[y].p != Some(z) {
        Transplant(y, cells[y].right);
        ghost var c1 := cells;
        cells := cells[y := cells[y].(right := cells[z].right)];
        cells := cells[cells[y].right.value := cells[cells[y].right.value].(p := Some(y))];
        assert cells == Adopt(c1, y, sr.id, false);
        SpliceLinked(c, c1, cells, t, z, y);
        SpliceWithin(c, c1, cells, t, z, y);
      } else {
        AdjacentLinked(c, t, z, y);
      }
    }
  }
}
