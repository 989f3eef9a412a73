/**
 * The four search trees of Tree/BST.py, Tree/AVL.py, Tree/SizeBST.py and
 * BST/SizeAVL.py as one class over the shared `Node`: two constant flags
 * say whether the tree keeps its heights balanced (`avl`) and whether its
 * nodes keep subtree sizes (`sized`).
 *
 *   avl  sized   source class
 *   no   no      BST        (Tree/BST.py)
 *   yes  no      AVL        (Tree/AVL.py)
 *   no   yes     SizeBST    (Tree/SizeBST.py)
 *   yes  yes     SizeAVL    (BST/SizeAVL.py)
 */
module SearchTree {
  import opened Wrappers
  import opened TreeShape
  import opened BstNode
  import opened AvlShape
  import opened TreeQueries
  import opened SortedKeys

  /** Rotations leave every node with the key it had. */
  lemma {:induction false} FixKeysOk(t: Shape)
    requires t.Br?
    ensures KeysOk(Fix(t, false)) <==> KeysOk(t)
  {
    var hl: int, hr: int := Height(t.l), Height(t.r);
    if hr - hl >= 2 {
      HeightPositive(t.r);
      if Height(t.r.r) < Height(t.r.l) {
        HeightPositive(t.r.l);
        assert KeysOk(RotateRight(t.r)) <==> KeysOk(t.r);
      }
    } else if hl - hr >= 2 {
      HeightPositive(t.l);
      if Height(t.l.l) < Height(t.l.r) {
        HeightPositive(t.l.r);
        assert KeysOk(RotateLeft(t.l)) <==> KeysOk(t.l);
      }
    }
  }

  /** Replacing a subtree by its repaired form keeps the whole tree's keys,
      nodes, distinctness and key fields. */
  lemma FixPlug(c: Ctx, t: Shape)
    requires t.Br?
    ensures var u := Fix(t, false);
      Keys(Plug(c, u)) == Keys(Plug(c, t)) && Nodes(Plug(c, u)) == Nodes(Plug(c, t)) &&
      (Distinct(Plug(c, u)) <==> Distinct(Plug(c, t))) && (KeysOk(Plug(c, u)) <==> KeysOk(Plug(c, t))) &&
      InOrder(Plug(c, u)) == InOrder(Plug(c, t))
  {
    var u := Fix(t, false);
    PlugInOrder(c, u); PlugInOrder(c, t);
    PlugKeys(c, u); PlugKeys(c, t);
    PlugNodes(c, u); PlugNodes(c, t);
    PlugDistinct(c, u); PlugDistinct(c, t);
    PlugKeysOk(c, u); PlugKeysOk(c, t);
    FixOrder(t, false);
    FixNodes(t, false);
    FixKeysOk(t);
  }

  /** Climbing one level after a pass that did not rotate: the parent
      becomes the node to repair, with the repaired subtree and its sibling
      as children, and its own height field as the old height of its
      subtree. */
  lemma MoveUp(cc: Ctx, u: Shape, h: int, sized: bool)
    requires cc != Root && u.Br?
    requires Linked(u, cc.n) && CtxLinked(cc, Top(u))
    requires HeightsOk(u) && Balanced(u) && h - 1 <= Height(u) <= h + 1
    requires CtxHeightsOk(cc, h) && CtxBalanced(cc, h)
    requires sized ==> SizesOk(u) && CtxSiblingsSized(cc)
    ensures var ss := Up(cc, u);
      Linked(ss, ParentOf(cc.up)) && CtxLinked(cc.up, cc.n) &&
      HeightsOk(ss.l) && HeightsOk(ss.r) && Balanced(ss.l) && Balanced(ss.r) &&
      Repairable(Height(ss.l), Height(ss.r), cc.n.height) &&
      CtxHeightsOk(cc.up, cc.n.height) && CtxBalanced(cc.up, cc.n.height) &&
      (sized ==> SizesOk(ss.l) && SizesOk(ss.r) && CtxSiblingsSized(cc.up))
  {
    match cc
    case InL(up, p, k, r) => RepairUp(Height(u), h, Height(r));
    case InR(l, p, k, up) => RepairUp(Height(u), h, Height(l));
  }

  /** The position of a subtree's top in the whole tree's key order, and
      what follows it. */
  lemma PlaceIndex(c: Ctx, t: Shape)
    requires t.Br?
    ensures var w, i, rest := InOrder(Plug(c, t)), |Before(c)| + |InOrder(t.l)|, InOrder(t.r) + After(c);
      i < |w| && w[i] == t.n && (i + 1 < |w| <==> rest != []) && (rest != [] ==> w[i + 1] == rest[0])
  {
    PlugInOrder(c, t);
    var b, l, r, a := Before(c), InOrder(t.l), InOrder(t.r), After(c);
    var m := l + [t.n];
    assert InOrder(t) == m + r;
    var w, i := InOrder(Plug(c, t)), |b| + |l|;
    assert w == (b + (m + r)) + a;
    assert w[i] == (m + r)[|l|] == m[|l|] == t.n;
    if r != [] {
      assert w[i + 1] == (m + r)[|l| + 1] == r[0];
    } else if a != [] {
      assert w[i + 1] == a[0];
    }
  }

  /** Hanging a leaf holding `k` at its insertion place inserts `k` into
      the sorted keys. */
  lemma InsertKeys(s: Shape, k: int, n: Node)
    requires Sorted(Keys(s))
    ensures var d := InsertPath(s, k, Root);
      Keys(Plug(d, Br(Nil, n, k, Nil))) == InsertSorted(Keys(s), k) && Sorted(InsertSorted(Keys(s), k))
  {
    var d := InsertPath(s, k, Root);
    assert KeysBefore(Root) + Keys(s) + KeysAfter(Root) == Keys(s);
    InsertPathSplit(s, k, Root);
    var a, b := KeysBefore(d), KeysAfter(d);
    assert a + b == Keys(s);
    assert forall i :: 0 <= i < |a| ==> a[i] <= k by {
      forall i | 0 <= i < |a| ensures a[i] <= k { assert a[i] in a; }
    }
    assert forall j :: 0 <= j < |b| ==> k < b[j] by {
      forall j | 0 <= j < |b| ensures k < b[j] { assert b[j] in b; }
    }
    InsertSortedSplit(a, b, k);
    PlugKeys(d, Br(Nil, n, k, Nil));
    assert Keys(Br(Nil, n, k, Nil)) == [k];
    InsertSortedSorted(Keys(s), k);
  }

  /** Removing the node of `s` from a sorted tree removes one occurrence of
      its key from the keys. */
  lemma RemovedKeys(c: Ctx, s: Shape, t: Shape)
    requires s.Br? && Sorted(Keys(Plug(c, s))) && Keys(t) == Keys(s.l) + Keys(s.r)
    ensures Keys(Plug(c, t)) == RemoveOne(Keys(Plug(c, s)), s.k) && Sorted(Keys(Plug(c, t)))
  {
    PlugKeys(c, s);
    PlugKeys(c, t);
    var p, q, r, z := KeysBefore(c), Keys(s.l), Keys(s.r), KeysAfter(c);
    var a, b := p + q, r + z;
    assert Keys(s) == q + [s.k] + r;
    Regroup5(p, q, s.k, r, z);
    Regroup4(p, q, r, z);
    RemoveAnyOccurrence(a, s.k, b);
    SortedRemove(a, s.k, b);
  }

  lemma Regroup4(p: seq<int>, q: seq<int>, r: seq<int>, z: seq<int>)
    ensures p + (q + r) + z == (p + q) + (r + z)
  {
  }

  lemma Regroup5(p: seq<int>, q: seq<int>, k: int, r: seq<int>, z: seq<int>)
    ensures p + (q + [k] + r) + z == (p + q) + [k] + (r + z)
  {
  }

  /** The node `r` sat in `w0` above the lone subtree `x` at the place `g0`;
      `x` now sits at `g1`, the same place. */
  ghost predicate Lone(w0: Shape, r: Node, rk: int, g0: Ctx, g1: Ctx, x: Shape)
  {
    SameCtx(g0, g1) && (w0 == Plug(g0, Br(Nil, r, rk, x)) || w0 == Plug(g0, Br(x, r, rk, Nil)))
  }

  /** The tree left behind holds the same nodes less `r`, each once. */
  lemma LoneRemoved(w0: Shape, r: Node, rk: int, g0: Ctx, g1: Ctx, x: Shape)
    requires Distinct(w0) && Lone(w0, r, rk, g0, g1, x)
    ensures Distinct(Plug(g1, x)) && r in Nodes(w0) && Nodes(Plug(g1, x)) == Nodes(w0) - {r}
  {
    var lone := if w0 == Plug(g0, Br(Nil, r, rk, x)) then Br(Nil, r, rk, x) else Br(x, r, rk, Nil);
    PlugNodes(g0, lone);
    PlugDistinct(g0, lone);
    SameCtxFacts(g0, g1);
    PlugNodes(g1, x);
    PlugDistinct(g1, x);
  }

  /** The heights around the hole `r` left: the parent still records its
      old height, and its children are within reach of `_rebalance`. */
  lemma HeightsAround(w0: Shape, r: Node, rk: int, g0: Ctx, g1: Ctx, x: Shape)
    requires HeightsOk(w0) && Balanced(w0) && Lone(w0, r, rk, g0, g1, x) && g1 != Root
    ensures var u := Up(g1, x);
      HeightsOk(u.l) && HeightsOk(u.r) && Balanced(u.l) && Balanced(u.r) &&
      Repairable(Height(u.l), Height(u.r), g1.n.height) &&
      CtxHeightsOk(g1.up, g1.n.height) && CtxBalanced(g1.up, g1.n.height)
  {
    var lone := if w0 == Plug(g0, Br(Nil, r, rk, x)) then Br(Nil, r, rk, x) else Br(x, r, rk, Nil);
    LoneHeights(w0, g0, lone, x);
    SameCtxHeights(g0, g1, 1 + Height(x));
    HoleHeights(g1, x);
  }

  /** Around a node with one child `x`, heights and balance are right. */
  lemma LoneHeights(w0: Shape, g0: Ctx, lone: Shape, x: Shape)
    requires lone.Br? && (lone == Br(Nil, lone.n, lone.k, x) || lone == Br(x, lone.n, lone.k, Nil))
    requires w0 == Plug(g0, lone) && HeightsOk(w0) && Balanced(w0)
    ensures HeightsOk(x) && Balanced(x) && CtxHeightsOk(g0, 1 + Height(x)) && CtxBalanced(g0, 1 + Height(x))
  {
    PlugHeights(g0, lone);
    PlugBalanced(g0, lone);
    assert Height(lone) == 1 + Height(x);
  }

  /** Contexts that differ only in the hole's subtree agree on heights. */
  lemma SameCtxHeights(g0: Ctx, g1: Ctx, h: int)
    requires SameCtx(g0, g1) && CtxHeightsOk(g0, h) && CtxBalanced(g0, h)
    ensures CtxHeightsOk(g1, h) && CtxBalanced(g1, h)
  {
    SameCtxFacts(g0, g1);
  }

  /** Where the lone child `x` took its parent's place, the parent's
      children can be repaired by `_rebalance`. */
  lemma HoleHeights(g1: Ctx, x: Shape)
    requires g1 != Root && HeightsOk(x) && Balanced(x)
    requires CtxHeightsOk(g1, 1 + Height(x)) && CtxBalanced(g1, 1 + Height(x))
    ensures var u := Up(g1, x);
      HeightsOk(u.l) && HeightsOk(u.r) && Balanced(u.l) && Balanced(u.r) &&
      Repairable(Height(u.l), Height(u.r), g1.n.height) &&
      CtxHeightsOk(g1.up, g1.n.height) && CtxBalanced(g1.up, g1.n.height)
  {
    match g1
    case InL(_, _, _, sib) => RepairUp(Height(x), 1 + Height(x), Height(sib));
    case InR(sib, _, _, _) => RepairUp(Height(x), 1 + Height(x), Height(sib));
  }

  lemma SizesAround(w0: Shape, r: Node, rk: int, g0: Ctx, g1: Ctx, x: Shape)
    requires SizesOk(w0) && Lone(w0, r, rk, g0, g1, x)
    ensures SizesOk(x) && CtxSiblingsSized(g1)
  {
    var lone := if w0 == Plug(g0, Br(Nil, r, rk, x)) then Br(Nil, r, rk, x) else Br(x, r, rk, Nil);
    PlugSizes(g0, lone);
    CtxSizesSiblings(g0, Count(lone));
    SameCtxFacts(g0, g1);
  }

  class Tree {
    var root: Node?
    /** The nodes of the tree in tree form. */
    ghost var shape: Shape
    /** Whether the tree rebalances itself (AVL, SizeAVL). */
    const avl: bool
    /** Whether the nodes keep subtree sizes (SizeBST, SizeAVL). */
    const sized: bool

    /** The representation invariant: the links spell out `shape`, the keys
        are in order, and the heights and sizes the variant keeps are right. */
    ghost predicate Valid()
      reads this, Nodes(shape)
    {
      root == Top(shape) && Linked(shape, null) && Distinct(shape) && KeysOk(shape) &&
      Sorted(Keys(shape)) &&
      (avl ==> HeightsOk(shape) && Balanced(shape)) &&
      (sized ==> SizesOk(shape))
    }

    /** The fields this variant keeps are right throughout `t`. */
    ghost predicate FieldsOk(t: Shape)
      reads Nodes(t)`height, Nodes(t)`size
    {
      HeightsOk(t) && (sized ==> SizesOk(t))
    }

    lemma FieldsDown(t: Shape)
      requires t.Br? && FieldsOk(t)
      ensures FieldsOk(t.l) && FieldsOk(t.r)
    {
    }

    /** An empty tree. */
    constructor (avl: bool, sized: bool)
      ensures Valid() && shape == Nil && this.avl == avl && this.sized == sized
    {
      root := null;
      shape := Nil;
      this.avl, this.sized := avl, sized;
    }

    /** `_update_info` of AVLNode (the height) and of SizeAVLNode (the height
        and the size): one node's fields from its children's. */
    method UpdateInfo(n: Node, ghost t: Shape)
      requires t.Br? && t.n == n && n.left == Top(t.l) && n.right == Top(t.r)
      requires FieldsOk(t.l) && FieldsOk(t.r)
      requires n !in Nodes(t.l) && n !in Nodes(t.r)
      modifies n`height, n`size
      ensures FieldsOk(t)
      ensures !sized ==> n.size == old(n.size)
    {
      FieldsMeaning(t.l);
      FieldsMeaning(t.r);
      n.height := Max(HeightOf(n.left), HeightOf(n.right)) + 1;
      if sized {
        n.size := 1 + SizeOf(n.left) + SizeOf(n.right);
      }
    }

    /** The last two lines of both rotations: the node that went down has
        its fields recomputed first, then the node that came up. */
    method UpdatePair(lower: Node, upper: Node, ghost u: Shape, ghost low: Shape)
      requires u.Br? && u.n == upper && low.Br? && low.n == lower
      requires (u.l == low || u.r == low) && Distinct(u) && Shaped(u)
      requires FieldsOk(low.l) && FieldsOk(low.r) && FieldsOk(if u.l == low then u.r else u.l)
      modifies lower`height, lower`size, upper`height, upper`size
      ensures FieldsOk(u)
    {
      NodesAllocated(u);
      ghost var sib := if u.l == low then u.r else u.l;
      NodesAllocated(sib);
      assert lower in Nodes(low) && Nodes(low) !! Nodes(sib);
      assert upper.left == Top(u.l) && upper.right == Top(u.r) && Shaped(low);
      assert upper !in Nodes(u.l) && upper !in Nodes(u.r);
      assert lower !in Nodes(low.l) + Nodes(low.r) + Nodes(sib) && upper !in Nodes(low);
      UpdateInfo(lower, low);
      assert FieldsOk(sib);
      UpdateInfo(upper, u);
    }

    /** The first half of both rotations: `y` takes `x`'s place under
        `x`'s parent, or becomes the root. */
    method Hoist(x: Node, y: Node, ghost c: Ctx)
      requires CtxLinked(c, x) && x.parent == ParentOf(c) && (c.Root? ==> root == x)
      requires CtxDistinct(c) && x !in CtxNodes(c) && y !in CtxNodes(c) && x != y
      modifies this`root, y`parent, Opt(ParentOf(c))`left, Opt(ParentOf(c))`right
      ensures CtxLinked(c, y) && y.parent == ParentOf(c)
      ensures root == (if c.Root? then y else old(root))
    {
      CtxNodesAllocated(c);
      y.parent := x.parent;
      if y.parent == null {
        root := y;
      } else if y.parent.right == x {
        y.parent.right := y;
      } else if y.parent.left == x {
        y.parent.left := y;
      }
    }

    /** The second half of `_left_rotate(x)`: `x` becomes the left child of
        its right child `y`, and `y`'s old left subtree becomes `x`'s right
        subtree. */
    method PivotLeft(x: Node, y: Node, ghost s: Shape)
      requires s.Br? && s.n == x && s.r.Br? && s.r.n == y
      requires x.left == Top(s.l) && x.right == y && y.left == Top(s.r.l) && y.right == Top(s.r.r)
      requires Linked(s.l, x) && Linked(s.r.l, y) && Linked(s.r.r, y) && Distinct(s)
      modifies x`right, x`parent, y`left, Opt(Top(s.r.l))`parent
      ensures Linked(Br(s.l, x, s.k, s.r.l), y) && y.left == x && y.right == Top(s.r.r)
      ensures Linked(s.r.r, y)
    {
      NodesAllocated(s);
      ghost var b := s.r.l;
      assert Distinct(s.r) && Linked(b, y);
      if b.Br? {
        assert Distinct(b);
        assert Linked(b.l, b.n) && Linked(b.r, b.n) && b.n !in Nodes(b.l) + Nodes(b.r);
      }
      x.right := y.left;
      if x.right != null {
        x.right.parent := x;
      }
      x.parent := y;
      y.left := x;
    }

    /** The second half of `_right_rotate(x)`, the mirror image. */
    method PivotRight(x: Node, y: Node, ghost s: Shape)
      requires s.Br? && s.n == x && s.l.Br? && s.l.n == y
      requires x.right == Top(s.r) && x.left == y && y.right == Top(s.l.r) && y.left == Top(s.l.l)
      requires Linked(s.r, x) && Linked(s.l.r, y) && Linked(s.l.l, y) && Distinct(s)
      modifies x`left, x`parent, y`right, Opt(Top(s.l.r))`parent
      ensures Linked(Br(s.l.r, x, s.k, s.r), y) && y.right == x && y.left == Top(s.l.l)
      ensures Linked(s.l.l, y)
    {
      NodesAllocated(s);
      ghost var b := s.l.r;
      assert Distinct(s.l) && Linked(b, y);
      if b.Br? {
        assert Distinct(b);
        assert Linked(b.l, b.n) && Linked(b.r, b.n) && b.n !in Nodes(b.l) + Nodes(b.r);
      }
      x.left := y.right;
      if x.left != null {
        x.left.parent := x;
      }
      y.right := x;
      x.parent := y;
    }

    /** The pointer updates of `_left_rotate(x)`: the links become those
        of `RotateLeft(s)` in the same place, and the tree's root moves when
        `x` was the root. */
    method RelinkLeft(x: Node, ghost c: Ctx, ghost s: Shape) returns (y: Node)
      requires s.Br? && s.n == x && s.r.Br?
      requires Linked(s, ParentOf(c)) && CtxLinked(c, x) && (c.Root? ==> root == x)
      requires Distinct(s) && CtxDistinct(c) && CtxNodes(c) !! Nodes(s)
      modifies this`root, x`right, x`parent, s.r.n`left, s.r.n`parent
      modifies Opt(ParentOf(c))`left, Opt(ParentOf(c))`right, Opt(Top(s.r.l))`parent
      ensures y == s.r.n && Linked(RotateLeft(s), ParentOf(c)) && CtxLinked(c, y)
      ensures root == (if c.Root? then y else old(root))
    {
      NodesAllocated(s);
      CtxNodesAllocated(c);
      y := x.right;
      Hoist(x, y, c);
      PivotLeft(x, y, s);
    }

    /** The pointer updates of `_right_rotate(x)`, the mirror image. */
    method RelinkRight(x: Node, ghost c: Ctx, ghost s: Shape) returns (y: Node)
      requires s.Br? && s.n == x && s.l.Br?
      requires Linked(s, ParentOf(c)) && CtxLinked(c, x) && (c.Root? ==> root == x)
      requires Distinct(s) && CtxDistinct(c) && CtxNodes(c) !! Nodes(s)
      modifies this`root, x`left, x`parent, s.l.n`right, s.l.n`parent
      modifies Opt(ParentOf(c))`left, Opt(ParentOf(c))`right, Opt(Top(s.l.r))`parent
      ensures y == s.l.n && Linked(RotateRight(s), ParentOf(c)) && CtxLinked(c, y)
      ensures root == (if c.Root? then y else old(root))
    {
      NodesAllocated(s);
      CtxNodesAllocated(c);
      y := x.left;
      Hoist(x, y, c);
      PivotRight(x, y, s);
    }

    /** `_left_rotate(x)`: the links and fields become those of
        `RotateLeft(s)` in the same place; the tree's root moves when `x`
        was the root. */
    method LeftRotate(x: Node, ghost c: Ctx, ghost s: Shape)
      requires s.Br? && s.n == x && s.r.Br?
      requires Placed(c, s) && (c.Root? ==> root == x)
      requires FieldsOk(s.l) && FieldsOk(s.r.l) && FieldsOk(s.r.r)
      modifies this`root, x`right, x`parent, x`height, x`size
      modifies s.r.n`left, s.r.n`parent, s.r.n`height, s.r.n`size
      modifies Opt(ParentOf(c))`left, Opt(ParentOf(c))`right, Opt(Top(s.r.l))`parent
      ensures Placed(c, RotateLeft(s)) && FieldsOk(RotateLeft(s))
      ensures root == (if c.Root? then s.r.n else old(root))
    {
      NodesAllocated(s);
      CtxNodesAllocated(c);
      ghost var u, low := RotateLeft(s), Br(s.l, x, s.k, s.r.l);
      assert u.l == low && u.r == s.r.r;
      RotateLeftNodes(s);
      var y := RelinkLeft(x, c, s);
      LinkedShaped(u, ParentOf(c));
      UpdatePair(x, y, u, low);
    }

    /** `_right_rotate(x)`, the mirror image. */
    method RightRotate(x: Node, ghost c: Ctx, ghost s: Shape)
      requires s.Br? && s.n == x && s.l.Br?
      requires Placed(c, s) && (c.Root? ==> root == x)
      requires FieldsOk(s.l.l) && FieldsOk(s.l.r) && FieldsOk(s.r)
      modifies this`root, x`left, x`parent, x`height, x`size
      modifies s.l.n`right, s.l.n`parent, s.l.n`height, s.l.n`size
      modifies Opt(ParentOf(c))`left, Opt(ParentOf(c))`right, Opt(Top(s.l.r))`parent
      ensures Placed(c, RotateRight(s)) && FieldsOk(RotateRight(s))
      ensures root == (if c.Root? then s.l.n else old(root))
    {
      NodesAllocated(s);
      CtxNodesAllocated(c);
      ghost var u, low := RotateRight(s), Br(s.l.r, x, s.k, s.r);
      assert u.r == low && u.l == s.l.l;
      RotateRightNodes(s);
      var y := RelinkRight(x, c, s);
      LinkedShaped(u, ParentOf(c));
      UpdatePair(x, y, u, low);
    }

    /** Tree/AVL.py:77, the first half of the double rotation: the right
        child of `node` is rotated right in its place. */
    method RotateChildRight(node: Node, ghost cc: Ctx, ghost ss: Shape)
      requires ss.Br? && ss.n == node && ss.r.Br? && ss.r.l.Br?
      requires Placed(cc, ss) && FieldsOk(ss.l) && FieldsOk(ss.r)
      modifies this`root, Nodes(ss.r)`left, Nodes(ss.r)`right, Nodes(ss.r)`parent
      modifies Nodes(ss.r)`height, Nodes(ss.r)`size, node`left, node`right
      ensures var t := Br(ss.l, node, ss.k, RotateRight(ss.r));
        Placed(cc, t) && FieldsOk(t.l) && FieldsOk(t.r.l) && FieldsOk(t.r.r) && root == old(root)
    {
      NodesAllocated(ss);
      CtxNodesAllocated(cc);
      ghost var r := ss.r;
      assert Nodes(r.l) + Opt(Top(r.l.r)) <= Nodes(r);
      RotateRightNodes(r);
      PlacedDown(cc, ss);
      FieldsDown(r);
      FieldsDown(r.l);
      assert r.n !in Nodes(ss.l) && r.l.n !in Nodes(ss.l);
      RightRotate(node.right, InR(ss.l, node, ss.k, cc), r);
      assert FieldsOk(ss.l);
      FieldsDown(RotateRight(r));
      PlacedDown(cc, Br(ss.l, node, ss.k, RotateRight(r)));
    }

    /** Tree/AVL.py:83, the mirror image. */
    method RotateChildLeft(node: Node, ghost cc: Ctx, ghost ss: Shape)
      requires ss.Br? && ss.n == node && ss.l.Br? && ss.l.r.Br?
      requires Placed(cc, ss) && FieldsOk(ss.l) && FieldsOk(ss.r)
      modifies this`root, Nodes(ss.l)`left, Nodes(ss.l)`right, Nodes(ss.l)`parent
      modifies Nodes(ss.l)`height, Nodes(ss.l)`size, node`left, node`right
      ensures var t := Br(RotateLeft(ss.l), node, ss.k, ss.r);
        Placed(cc, t) && FieldsOk(t.r) && FieldsOk(t.l.l) && FieldsOk(t.l.r) && root == old(root)
    {
      NodesAllocated(ss);
      CtxNodesAllocated(cc);
      ghost var l := ss.l;
      assert Nodes(l.r) + Opt(Top(l.r.l)) <= Nodes(l);
      RotateLeftNodes(l);
      PlacedDown(cc, ss);
      FieldsDown(l);
      FieldsDown(l.r);
      assert l.n !in Nodes(ss.r) && l.r.n !in Nodes(ss.r);
      LeftRotate(node.left, InL(cc, node, ss.k, ss.r), l);
      assert FieldsOk(ss.r);
      FieldsDown(RotateLeft(l));
      PlacedDown(cc, Br(RotateLeft(l), node, ss.k, ss.r));
    }

    /** The double rotation of Tree/AVL.py:77-78: the right child is
        rotated right, then the node is rotated left. */
    method DoubleLeft(node: Node, ghost cc: Ctx, ghost ss: Shape)
      requires ss.Br? && ss.n == node && ss.r.Br? && ss.r.l.Br?
      requires Placed(cc, ss) && (cc.Root? ==> root == node)
      requires FieldsOk(ss.l) && FieldsOk(ss.r)
      modifies this`root, Nodes(ss)`left, Nodes(ss)`right, Nodes(ss)`parent, Nodes(ss)`height, Nodes(ss)`size
      modifies Opt(ParentOf(cc))`left, Opt(ParentOf(cc))`right
      ensures var u := RotateLeft(Br(ss.l, node, ss.k, RotateRight(ss.r)));
        Placed(cc, u) && FieldsOk(u) && root == (if cc.Root? then u.n else old(root))
    {
      NodesAllocated(ss);
      CtxNodesAllocated(cc);
      RotateRightNodes(ss.r);
      ghost var t := Br(ss.l, node, ss.k, RotateRight(ss.r));
      assert Nodes(t) == Nodes(ss) && Opt(Top(t.r.l)) <= Nodes(ss);
      RotateChildRight(node, cc, ss);
      LeftRotate(node, cc, t);
    }

    /** The double rotation of Tree/AVL.py:83-84, the mirror image. */
    method DoubleRight(node: Node, ghost cc: Ctx, ghost ss: Shape)
      requires ss.Br? && ss.n == node && ss.l.Br? && ss.l.r.Br?
      requires Placed(cc, ss) && (cc.Root? ==> root == node)
      requires FieldsOk(ss.l) && FieldsOk(ss.r)
      modifies this`root, Nodes(ss)`left, Nodes(ss)`right, Nodes(ss)`parent, Nodes(ss)`height, Nodes(ss)`size
      modifies Opt(ParentOf(cc))`left, Opt(ParentOf(cc))`right
      ensures var u := RotateRight(Br(RotateLeft(ss.l), node, ss.k, ss.r));
        Placed(cc, u) && FieldsOk(u) && root == (if cc.Root? then u.n else old(root))
    {
      NodesAllocated(ss);
      CtxNodesAllocated(cc);
      RotateLeftNodes(ss.l);
      ghost var t := Br(RotateLeft(ss.l), node, ss.k, ss.r);
      assert Nodes(t) == Nodes(ss) && Opt(Top(t.l.r)) <= Nodes(ss);
      RotateChildLeft(node, cc, ss);
      RightRotate(node, cc, t);
    }

    /** The rotations of one `_rebalance` pass (Tree/AVL.py:73-84): the
        subtree becomes `Fix(ss, strict)`. With `strict` the heavy child
        leans outwards only when its outer subtree is strictly higher, as
        the source tests it; without it, ties lean outwards too. */
    method Rotations(node: Node, ghost cc: Ctx, ghost ss: Shape, strict: bool)
      requires ss.Br? && ss.n == node
      requires Placed(cc, ss) && (cc.Root? ==> root == node) && FieldsOk(ss)
      modifies this`root, Nodes(ss)`left, Nodes(ss)`right, Nodes(ss)`parent, Nodes(ss)`height, Nodes(ss)`size
      modifies Opt(ParentOf(cc))`left, Opt(ParentOf(cc))`right
      ensures var u := Fix(ss, strict);
        Placed(cc, u) && FieldsOk(u) && root == (if cc.Root? then u.n else old(root))
      ensures var u := Fix(ss, strict);
        node.parent == if u.n == node then ParentOf(cc) else u.n
    {
      NodesAllocated(ss);
      FieldsDown(ss);
      FieldsMeaning(ss.l);
      FieldsMeaning(ss.r);
      assert node.left == Top(ss.l) && node.right == Top(ss.r);
      if HeightOf(node.right) - HeightOf(node.left) >= 2 {
        LeanLeft(node, cc, ss, strict);
      } else if HeightOf(node.left) - HeightOf(node.right) >= 2 {
        LeanRight(node, cc, ss, strict);
      }
    }

    /** The rotations when the right child is the heavy one
        (Tree/AVL.py:73-78). */
    method LeanLeft(node: Node, ghost cc: Ctx, ghost ss: Shape, strict: bool)
      requires ss.Br? && ss.n == node && Height(ss.r) - Height(ss.l) >= 2
      requires Placed(cc, ss) && (cc.Root? ==> root == node) && FieldsOk(ss)
      modifies this`root, Nodes(ss)`left, Nodes(ss)`right, Nodes(ss)`parent, Nodes(ss)`height, Nodes(ss)`size
      modifies Opt(ParentOf(cc))`left, Opt(ParentOf(cc))`right
      ensures var u := Fix(ss, strict);
        Placed(cc, u) && FieldsOk(u) && root == (if cc.Root? then u.n else old(root))
      ensures var u := Fix(ss, strict);
        node.parent == if u.n == node then ParentOf(cc) else u.n
    {
      NodesAllocated(ss);
      FieldsDown(ss);
      HeightPositive(ss.r);
      FieldsDown(ss.r);
      FieldsMeaning(ss.r.l);
      FieldsMeaning(ss.r.r);
      assert Linked(ss.r, node);
      assert node.right.left == Top(ss.r.l) && node.right.right == Top(ss.r.r);
      var outer, inner := HeightOf(node.right.right), HeightOf(node.right.left);
      if outer > inner || (!strict && outer == inner) {
        TopIn(ss.r.l);
        assert Nodes(ss.r.l) <= Nodes(ss.r) <= Nodes(ss);
        LeftRotate(node, cc, ss);
        assert Linked(RotateLeft(ss).l, ss.r.n);
      } else {
        HeightPositive(ss.r.l);
        DoubleLeft(node, cc, ss);
        assert Linked(Fix(ss, strict).l, Fix(ss, strict).n);
      }
    }

    /** The rotations when the left child is the heavy one
        (Tree/AVL.py:79-84). */
    method LeanRight(node: Node, ghost cc: Ctx, ghost ss: Shape, strict: bool)
      requires ss.Br? && ss.n == node && Height(ss.l) - Height(ss.r) >= 2
      requires Placed(cc, ss) && (cc.Root? ==> root == node) && FieldsOk(ss)
      modifies this`root, Nodes(ss)`left, Nodes(ss)`right, Nodes(ss)`parent, Nodes(ss)`height, Nodes(ss)`size
      modifies Opt(ParentOf(cc))`left, Opt(ParentOf(cc))`right
      ensures var u := Fix(ss, strict);
        Placed(cc, u) && FieldsOk(u) && root == (if cc.Root? then u.n else old(root))
      ensures var u := Fix(ss, strict);
        node.parent == if u.n == node then ParentOf(cc) else u.n
    {
      NodesAllocated(ss);
      FieldsDown(ss);
      HeightPositive(ss.l);
      FieldsDown(ss.l);
      FieldsMeaning(ss.l.l);
      FieldsMeaning(ss.l.r);
      assert Linked(ss.l, node);
      assert node.left.left == Top(ss.l.l) && node.left.right == Top(ss.l.r);
      var outer, inner := HeightOf(node.left.left), HeightOf(node.left.right);
      if outer > inner || (!strict && outer == inner) {
        TopIn(ss.l.r);
        assert Nodes(ss.l.r) <= Nodes(ss.l) <= Nodes(ss);
        RightRotate(node, cc, ss);
        assert Linked(RotateRight(ss).r, ss.l.n);
      } else {
        HeightPositive(ss.l.r);
        DoubleRight(node, cc, ss);
        assert Linked(Fix(ss, strict).r, Fix(ss, strict).n);
      }
    }

    /** One pass of the `_rebalance` loop (Tree/AVL.py:72-84): the node's
        fields are refreshed from its children, then the rotations. */
    method RepairAt(node: Node, ghost cc: Ctx, ghost ss: Shape, strict: bool)
      requires ss.Br? && ss.n == node
      requires Placed(cc, ss) && (cc.Root? ==> root == node) && FieldsOk(ss.l) && FieldsOk(ss.r)
      modifies this`root, Nodes(ss)`left, Nodes(ss)`right, Nodes(ss)`parent, Nodes(ss)`height, Nodes(ss)`size
      modifies Opt(ParentOf(cc))`left, Opt(ParentOf(cc))`right
      ensures var u := Fix(ss, strict);
        Placed(cc, u) && FieldsOk(u) && root == (if cc.Root? then u.n else old(root))
      ensures var u := Fix(ss, strict);
        node.parent == if u.n == node then ParentOf(cc) else u.n
    {
      NodesAllocated(ss);
      CtxNodesAllocated(cc);
      assert node.left == Top(ss.l) && node.right == Top(ss.r) && node !in Nodes(ss.l) + Nodes(ss.r);
      UpdateInfo(node, ss);
      assert Placed(cc, ss);
      assert FieldsOk(ss);
      Rotations(node, cc, ss, strict);
    }

    /** The ancestors' fields are right, and their balance holds, for a hole
        of height `h`. */
    ghost predicate CtxOk(cc: Ctx, h: int)
      reads CtxNodes(cc)`height, CtxNodes(cc)`size
    {
      CtxHeightsOk(cc, h) && CtxBalanced(cc, h) && (sized ==> CtxSiblingsSized(cc))
    }

    /** The walk is at `ss`: its children are balanced and their fields
        right, their heights are within reach of the height `h` recorded for
        `ss` by the ancestors, and the ancestors are right for that height. */
    ghost predicate Pending(cc: Ctx, ss: Shape, h: int)
      requires ss.Br?
      reads Nodes(ss)`height, Nodes(ss)`size, CtxNodes(cc)`height, CtxNodes(cc)`size
    {
      FieldsOk(ss.l) && FieldsOk(ss.r) && Ready(ss, h) && CtxOk(cc, h)
    }

    /** The children of `ss` are balanced and within reach of height `h`. */
    ghost predicate Ready(ss: Shape, h: int)
      requires ss.Br?
    {
      Balanced(ss.l) && Balanced(ss.r) && Repairable(Height(ss.l), Height(ss.r), h)
    }

    /** After a pass that rotated, the new top is visited again: it is
        balanced, so that visit is the last one at this level. */
    lemma Revisit(cc: Ctx, ss: Shape, h: int)
      requires ss.Br? && Ready(ss, h) && FieldsOk(Fix(ss, false)) && CtxOk(cc, h)
      ensures var u := Fix(ss, false); Pending(cc, u, h) && -1 <= Height(u.l) - Height(u.r) <= 1
    {
      var u := Fix(ss, false);
      RepairStep(ss, h);
      FixBalanced(ss);
      FieldsDown(u);
    }

    /** After a pass that did not rotate, the walk climbs to the parent. */
    lemma Ascend(cc: Ctx, ss: Shape, h: int)
      requires cc != Root && ss.Br? && Ready(ss, h)
      requires var u := Fix(ss, false); Placed(cc, u) && FieldsOk(u) && CtxOk(cc, h)
      ensures var u := Up(cc, Fix(ss, false)); Placed(cc.up, u) && Pending(cc.up, u, cc.n.height)
    {
      var u := Fix(ss, false);
      RepairStep(ss, h);
      FixBalanced(ss);
      MoveUp(cc, u, h, sized);
      match cc
      case InL(up, n, k, r) => PlacedDown(up, Up(cc, u));
      case InR(l, n, k, up) => PlacedDown(up, Up(cc, u));
    }

    /** Where the walk goes after the pass at `ss`: to the new top when the
        pass rotated, else to the parent, or out when `ss` is the root. A
        walk after an insertion stays one. */
    lemma Advance(cc: Ctx, ss: Shape, h: int, next: Node?, insertion: bool) returns (ccNext: Ctx, ssNext: Shape, hNext: int)
      requires ss.Br? && Ready(ss, h) && (insertion ==> InsertWalk(ss, h))
      requires var u := Fix(ss, false);
        Placed(cc, u) && FieldsOk(u) && CtxOk(cc, h) &&
        next == if u.n == ss.n then ParentOf(cc) else u.n
      ensures ssNext.Br? && Placed(ccNext, ssNext) && Plug(ccNext, ssNext) == Plug(cc, Fix(ss, false))
      ensures next != null ==> ssNext.n == next && Pending(ccNext, ssNext, hNext)
      ensures next == null ==> ccNext.Root? && FieldsOk(ssNext) && Balanced(ssNext)
      ensures Progress(next, ccNext, ssNext) < Progress(ss.n, cc, ss)
      ensures insertion && next != null ==> InsertWalk(ssNext, hNext)
    {
      var u := Fix(ss, false);
      if u.n != ss.n || cc.Root? {
        Revisit(cc, ss, h);
        FixBalanced(ss);
        if insertion { RisingStep(ss, h); }
        ccNext, ssNext, hNext := cc, u, h;
      } else {
        Ascend(cc, ss, h);
        if insertion {
          RisingStep(ss, h);
          RisingUp(cc, u, h);
        }
        ccNext, ssNext, hNext := cc.up, Up(cc, u), cc.n.height;
      }
    }

    /** One iteration of the `_rebalance` loop, with the step to the parent
        (Tree/AVL.py:72-85): the repaired subtree either has a new top, which
        is visited once more, or the walk climbs to the parent. The walk
        after an insertion takes the rotation as the source chooses it
        (`strict`), which there agrees with the tie-inclusive one. */
    method Climb(node: Node, ghost cc: Ctx, ghost ss: Shape, ghost h: int, strict: bool)
      returns (next: Node?, ghost ccNext: Ctx, ghost ssNext: Shape, ghost hNext: int)
      requires ss.Br? && ss.n == node && Placed(cc, ss) && root == Top(Plug(cc, ss)) && Pending(cc, ss, h)
      requires strict ==> InsertWalk(ss, h)
      requires KeysOk(Plug(cc, ss))
      modifies this`root, Nodes(ss)`left, Nodes(ss)`right, Nodes(ss)`parent, Nodes(ss)`height, Nodes(ss)`size
      modifies Opt(ParentOf(cc))`left, Opt(ParentOf(cc))`right
      ensures ssNext.Br? && Placed(ccNext, ssNext) && root == Top(Plug(ccNext, ssNext))
      ensures Nodes(Plug(ccNext, ssNext)) == Nodes(Plug(cc, ss)) && InOrder(Plug(ccNext, ssNext)) == InOrder(Plug(cc, ss))
      ensures Keys(Plug(ccNext, ssNext)) == Keys(Plug(cc, ss)) && KeysOk(Plug(ccNext, ssNext))
      ensures next != null ==> ssNext.n == next && Pending(ccNext, ssNext, hNext)
      ensures next == null ==> ccNext.Root? && FieldsOk(ssNext) && Balanced(ssNext)
      ensures Progress(next, ccNext, ssNext) < Progress(node, cc, ss)
      ensures strict && next != null ==> InsertWalk(ssNext, hNext)
    {
      NodesAllocated(ss);
      CtxNodesAllocated(cc);
      PlugNodes(cc, ss);
      assert Ready(ss, h) && CtxOk(cc, h) && FieldsOk(ss.l) && FieldsOk(ss.r);
      if strict { UntiedFix(ss); }
      RepairAt(node, cc, ss, strict);
      ghost var u := Fix(ss, false);
      assert CtxOk(cc, h);
      assert KeysOk(Plug(cc, ss));
      FixPlug(cc, ss);
      if cc != Root { PlugTop(cc, ss, u); }
      next := node.parent;
      ccNext, ssNext, hNext := Advance(cc, ss, h, next, strict);
    }

    /** A measure that each iteration lowers: twice the depth, plus one while
        the node is still to be visited and one more while it is out of
        balance. */
    ghost function Progress(node: Node?, cc: Ctx, ss: Shape): nat
    {
      2 * Depth(cc) + (if node == null || !ss.Br? then 0 else if -1 <= Height(ss.l) - Height(ss.r) <= 1 then 1 else 2)
    }

    /** `_rebalance(node)` (Tree/AVL.py:70-85): the walk from `node` up to
        the root repairs every subtree on the way. It starts below a change
        that left the subtree at `node` with balanced children whose heights
        the ancestors, which still record height `h0` for it, can absorb; it
        ends with the whole tree balanced and its heights (and sizes) right,
        holding the same nodes in the same order. With `strict` the rotation
        is chosen by the strict tests of Tree/AVL.py:74 and :80, and the walk
        starts from an insertion; without it ties lean outwards, which also
        repairs the walk after a removal. */
    method Rebalance(node0: Node, ghost cc0: Ctx, ghost ss0: Shape, ghost h0: int, strict: bool) returns (ghost t: Shape)
      requires ss0.Br? && ss0.n == node0 && Placed(cc0, ss0) && root == Top(Plug(cc0, ss0)) && Pending(cc0, ss0, h0)
      requires strict ==> InsertWalk(ss0, h0)
      requires KeysOk(Plug(cc0, ss0))
      modifies this`root, Nodes(Plug(cc0, ss0))`left, Nodes(Plug(cc0, ss0))`right, Nodes(Plug(cc0, ss0))`parent
      modifies Nodes(Plug(cc0, ss0))`height, Nodes(Plug(cc0, ss0))`size
      ensures Linked(t, null) && Distinct(t) && root == Top(t)
      ensures FieldsOk(t) && Balanced(t)
      ensures Nodes(t) == Nodes(Plug(cc0, ss0)) && InOrder(t) == InOrder(Plug(cc0, ss0))
      ensures Keys(t) == Keys(Plug(cc0, ss0)) && KeysOk(t)
    {
      ghost var whole := Plug(cc0, ss0);
      var node: Node? := node0;
      ghost var cc, ss, h := cc0, ss0, h0;
      while node != null
        invariant ss.Br? && Placed(cc, ss) && root == Top(Plug(cc, ss))
        invariant Nodes(Plug(cc, ss)) == Nodes(whole) && InOrder(Plug(cc, ss)) == InOrder(whole)
        invariant Keys(Plug(cc, ss)) == Keys(whole) && KeysOk(Plug(cc, ss))
        invariant node != null ==> ss.n == node && Pending(cc, ss, h)
        invariant node == null ==> cc.Root? && FieldsOk(ss) && Balanced(ss)
        invariant strict && node != null ==> InsertWalk(ss, h)
        decreases Progress(node, cc, ss)
      {
        PlugNodes(cc, ss);
        node, cc, ss, h := Climb(node, cc, ss, h, strict);
      }
      t := ss;
    }

    // -------------------------------------------------------------------
    // Queries (Tree/BST.py, Tree/SizeBST.py, BST/SizeAVL.py, Tree/AVL.py)
    // -------------------------------------------------------------------

    /** BST.find: the node the descent from the root stops at, or null when
        no node holds `k`. The root is dereferenced, so the tree is not
        empty. */
    function Find(k: int): (r: Node?)
      requires Valid() && root != null
      reads this, Nodes(shape)
      ensures r != null ==> r in Nodes(shape) && r.key == k
      ensures r == null <==> k !in Keys(shape)
    {
      LinkedShaped(shape, null);
      BstNode.Find(root, k, shape)
    }

    /** BST.find_min: the least key, or nothing for an empty tree. */
    function FindMin(): (r: Option<int>)
      requires Valid()
      reads this, Nodes(shape)
      ensures r.None? <==> Keys(shape) == []
      ensures r.Some? ==> r.value in Keys(shape) && forall x :: x in Keys(shape) ==> r.value <= x
    {
      LinkedShaped(shape, null);
      if root == null then None else Some(BstNode.FindMin(root, shape).key)
    }

    /** BST.find_max: the greatest key, or nothing for an empty tree. */
    function FindMax(): (r: Option<int>)
      requires Valid()
      reads this, Nodes(shape)
      ensures r.None? <==> Keys(shape) == []
      ensures r.Some? ==> r.value in Keys(shape) && forall x :: x in Keys(shape) ==> x <= r.value
    {
      LinkedShaped(shape, null);
      if root == null then None else Some(BstNode.FindMax(root, shape).key)
    }

    /** SizeBST.rank and SizeAVL.rank: how many keys are at most `k` (the
        source's comment says "less than", the code counts equal keys too). */
    function Rank(k: int): (r: int)
      requires Valid() && sized
      reads this, Nodes(shape)
      ensures r == CountAtMost(Keys(shape), k)
    {
      LinkedShaped(shape, null);
      if root == null then 0
      else
        RankMeaning(root, k, shape);
        TreeQueries.Rank(root, k, shape)
    }

    /** SizeBST.range and SizeAVL.range: how many keys lie in (k1, k2]; with
        the bounds reversed, minus the number of keys in (k2, k1]. */
    function Range(k1: int, k2: int): (r: int)
      requires Valid() && sized
      reads this, Nodes(shape)
      ensures k1 <= k2 ==> r == CountIn(Keys(shape), k1, k2)
      ensures k2 < k1 ==> r == -(CountIn(Keys(shape), k2, k1) as int)
    {
      LinkedShaped(shape, null);
      if root == null then 0
      else
        RankMeaning(root, k1, shape);
        RankMeaning(root, k2, shape);
        if k1 <= k2 then RangeMeaning(Keys(shape), k1, k2); TreeQueries.Rank(root, k2, shape) - TreeQueries.Rank(root, k1, shape)
        else RangeMeaning(Keys(shape), k2, k1); TreeQueries.Rank(root, k2, shape) - TreeQueries.Rank(root, k1, shape)
    }

    /** AVL.list with the bounds check the node version evidently intends:
        the keys strictly between `k1` and `k2`, in key order, appended to
        `acc`. */
    function List(k1: int, k2: int, acc: seq<int>): (r: seq<int>)
      requires Valid()
      reads this, Nodes(shape)
      ensures r == acc + Between(Keys(shape), k1, k2)
    {
      LinkedShaped(shape, null);
      if root == null then acc
      else
        ListMeaning(root, k1, k2, acc, shape);
        TreeQueries.List(root, k1, k2, acc, shape)
    }

    /** AVL.list (Tree/AVL.py:157-161) as written, with the result list
        passed explicitly: nothing is added for an empty tree, otherwise the
        node listing runs from the root. Whatever it appends is a key of the
        tree strictly between `k1` and `k2`; when neither bound is a key it
        appends all of them, each once, in the order it visits them. */
    function ListAsWritten(k1: int, k2: int, acc: seq<int>): (r: seq<int>)
      requires Valid()
      reads this, Nodes(shape)
      ensures |acc| <= |r| && r[..|acc|] == acc
      ensures forall i :: |acc| <= i < |r| ==> k1 < r[i] < k2 && r[i] in Keys(shape)
      ensures k1 !in Keys(shape) && k2 !in Keys(shape) ==>
        multiset(r) == multiset(acc) + multiset(Between(Keys(shape), k1, k2))
    {
      LinkedShaped(shape, null);
      if root == null then acc
      else
        ListAsWrittenComplete(root, k1, k2, acc, shape);
        TreeQueries.ListAsWritten(root, k1, k2, acc, shape)
    }

    /** BST.check_ri and its overrides: the root has no parent and the node
        check passes below it. `rule` is the balance clause of the variant. */
    function CheckRi(rule: BalanceRule): (ok: bool)
      requires root == Top(shape) && Shaped(shape) && KeysOk(shape)
      reads this, Nodes(shape)
      ensures ok <==> (Linked(shape, null) && LocallyOrdered(shape) &&
                       (rule == Corrected ==> FieldsBalanced(shape)) && (sized ==> SizesOk(shape)))
    {
      root == null || (root.parent == null && TreeQueries.CheckRi(root, shape, rule, sized))
    }

    /** A valid tree passes the check of its variant, the AVL ones with the
        balance clause they evidently intend. */
    lemma ValidPassesCheck()
      requires Valid()
      ensures root == Top(shape) && Shaped(shape) && CheckRi(if avl then Corrected else NoBalance)
    {
      LinkedShaped(shape, null);
      SortedLocallyOrdered(shape);
      if avl { FieldsBalancedMeaning(shape); }
    }

    /** BST.next_larger: the node after the one `find` returns, in key
        order; null when `k` is absent or its node comes last. */
    method NextLarger(k: int) returns (r: Node?, ghost i: int)
      requires Valid() && root != null
      ensures Valid() && root != null
      ensures k !in Keys(shape) ==> r == null
      ensures k in Keys(shape) ==>
        0 <= i < |InOrder(shape)| && InOrder(shape)[i] == Find(k) &&
        r == (if i + 1 < |InOrder(shape)| then InOrder(shape)[i + 1] else null)
    {
      var node := Find(k);
      if node == null {
        return null, 0;
      }
      ghost var c, t := Located(k);
      NodesAllocated(shape);
      r := BstNode.NextLarger(node, c, t);
      i := NextIndex(k, c, t, r);
    }

    /** The place of the node `find` returns, with what BSTNode.next_larger
        asks of it. */
    lemma Located(k: int) returns (c: Ctx, t: Shape)
      requires Valid() && root != null && Find(k) != null
      ensures t.Br? && t.n == Find(k) && Plug(c, t) == shape && KeysOk(t)
      ensures Linked(t, ParentOf(c)) && CtxLinked(c, t.n)
      ensures Distinct(t) && CtxDistinct(c) && CtxNodes(c) !! Nodes(t)
    {
      LinkedShaped(shape, null);
      FindAtSpec(shape, k, Root);
      c, t := FindAt(shape, k, Root).0, FindAt(shape, k, Root).1;
      PlugLinked(c, t);
      PlugDistinct(c, t);
      PlugKeysOk(c, t);
    }

    /** The node after the one at `c` is the next one in key order. */
    lemma NextIndex(k: int, c: Ctx, t: Shape, r: Node?) returns (i: int)
      requires Valid() && root != null && t.Br? && t.n == Find(k) && Plug(c, t) == shape
      requires var rest := InOrder(t.r) + After(c); if rest == [] then r == null else r == rest[0]
      ensures 0 <= i < |InOrder(shape)| && InOrder(shape)[i] == Find(k)
      ensures r == (if i + 1 < |InOrder(shape)| then InOrder(shape)[i + 1] else null)
    {
      PlaceIndex(c, t);
      i := |Before(c)| + |InOrder(t.l)|;
    }

    /** Read through the keys: the next node holds a key at least `k`, and
        there is one whenever some key exceeds `k`. */
    lemma NextLargerMeaning(k: int, i: int, r: Node?)
      requires Valid() && root != null && 0 <= i < |InOrder(shape)| && InOrder(shape)[i] == Find(k)
      requires r == if i + 1 < |InOrder(shape)| then InOrder(shape)[i + 1] else null
      ensures r != null ==> r in Nodes(shape) && k <= r.key
      ensures (exists x :: x in Keys(shape) && k < x) ==> r != null
    {
      KeysInOrder(shape);
      InOrderNodes(shape);
      var ks := Keys(shape);
      if exists x :: x in ks && k < x {
        var x :| x in ks && k < x;
        var j :| 0 <= j < |ks| && ks[j] == x;
        assert j > i;
      }
    }

    // -------------------------------------------------------------------
    // Insertion (Tree/BST.py, Tree/AVL.py, Tree/SizeBST.py)
    // -------------------------------------------------------------------

    /** The subtree `s` hangs in its place `c`, and all sizes are right but
        those on the path from its top up. */
    ghost predicate Recountable(c: Ctx, s: Shape)
      reads CtxNodes(c), Nodes(s)
    {
      s.Br? && Placed(c, s) && SizesOk(s.l) && SizesOk(s.r) && CtxSiblingsSized(c)
    }

    /** SizeBSTNode._update_info (Tree/SizeBST.py:31-34): the node's size is
        recomputed from its children, then its parent's, up to the root. */
    method UpdateSizes(n: Node, ghost c: Ctx, ghost s: Shape)
      requires s.Br? && s.n == n && Recountable(c, s)
      modifies n`size, CtxNodes(c)`size
      ensures SizesOk(Plug(c, s))
      decreases Depth(c)
    {
      NodesAllocated(s);
      CtxNodesAllocated(c);
      FieldsMeaning(s.l);
      FieldsMeaning(s.r);
      assert n.left == Top(s.l) && n.right == Top(s.r) && n.parent == ParentOf(c);
      assert n !in Nodes(s.l) + Nodes(s.r) + CtxNodes(c);
      n.size := 1 + SizeOf(n.left) + SizeOf(n.right);
      assert SizesOk(s);
      if n.parent != null {
        PlacedDown(c.up, Up(c, s));
        assert Placed(c.up, Up(c, s)) by {
          match c
          case InL(up, p, k, r) =>
          case InR(l, p, k, up) =>
        }
        assert Recountable(c.up, Up(c, s));
        UpdateSizes(n.parent, c.up, Up(c, s));
      }
    }

    /** Around an empty slot of a tree whose fields are right, the fields on
        the path are right for a hole of height 0 holding nothing. */
    lemma EmptySlot(d: Ctx)
      requires avl ==> HeightsOk(Plug(d, Nil)) && Balanced(Plug(d, Nil))
      requires sized ==> SizesOk(Plug(d, Nil))
      ensures sized ==> CtxSiblingsSized(d)
      ensures avl ==> CtxOk(d, 0)
    {
      if avl {
        PlugHeights(d, Nil);
        PlugBalanced(d, Nil);
      }
      if sized {
        PlugSizes(d, Nil);
        CtxSizesSiblings(d, 0);
      }
    }

    /** What an empty slot of a valid tree brings to the leaf hung there:
        the keys, heights and sizes recorded on the path around it. */
    ghost predicate SlotReady(d: Ctx)
      reads CtxNodes(d)`key, CtxNodes(d)`height, CtxNodes(d)`size
    {
      CtxKeysOk(d) && (sized ==> CtxSiblingsSized(d)) && (avl ==> CtxOk(d, 0))
    }

    lemma InsertSlot(k: int)
      requires Valid()
      ensures var d := InsertPath(shape, k, Root);
        Plug(d, Nil) == shape && SlotReady(d) && Sorted(InsertSorted(Keys(shape), k))
    {
      var d := InsertPath(shape, k, Root);
      InsertPathPlug(shape, k, Root);
      PlugKeysOk(d, Nil);
      EmptySlot(d);
      InsertSortedSorted(Keys(shape), k);
    }

    /** A fresh leaf holding `k` hangs at `d`, with all a leaf's fields
        right, in the place an empty slot of a valid tree left for it. */
    ghost predicate Hung(node: Node, d: Ctx, k: int)
      reads this, Nodes(Br(Nil, node, k, Nil)), CtxNodes(d)
    {
      Placed(d, Br(Nil, node, k, Nil)) && root == Top(Plug(d, Br(Nil, node, k, Nil))) &&
      node.key == k && node.height == 1 && node.size == 1 && SlotReady(d)
    }

    /** BST.insert (Tree/BST.py:245-263) up to its return: a fresh leaf
        holding `k` becomes the root of an empty tree or is hung below the
        root by BSTNode.insert. `shape` is left for the caller to update. */
    method Attach(k: int) returns (node: Node, ghost d: Ctx)
      requires Valid()
      modifies this`root, Nodes(shape)`left, Nodes(shape)`right
      ensures fresh(node) && d == InsertPath(shape, k, Root) && Hung(node, d, k)
      ensures Nodes(Plug(d, Br(Nil, node, k, Nil))) == Nodes(shape) + {node}
      ensures Sorted(InsertSorted(Keys(shape), k))
    {
      InsertSlot(k);
      NodesAllocated(shape);
      CtxNodesAllocated(InsertPath(shape, k, Root));
      node := new Node(k, null);
      if root == null {
        root := node;
        d := Root;
      } else {
        d := InsertUnder(root, node, Root, shape);
      }
      ghost var leaf := Br(Nil, node, k, Nil);
      InsertPathPlug(shape, k, Root);
      LeafDistinct(d, node);
      PlugLinked(d, leaf);
      PlugDistinct(d, leaf);
      if d != Root { PlugTop(d, Nil, leaf); }
    }

    /** What AVL.insert and SizeBST.insert do after BST.insert: an AVL
        rebalances from the new leaf up (Tree/AVL.py:137), a SizeBST
        recounts the sizes from it up (Tree/SizeBST.py:128). */
    method Settle(node: Node, ghost d: Ctx, ghost k: int)
      requires Hung(node, d, k) && Sorted(Keys(Plug(d, Br(Nil, node, k, Nil))))
      modifies this`root, this`shape, Nodes(Plug(d, Br(Nil, node, k, Nil)))`left
      modifies Nodes(Plug(d, Br(Nil, node, k, Nil)))`right, Nodes(Plug(d, Br(Nil, node, k, Nil)))`parent
      modifies Nodes(Plug(d, Br(Nil, node, k, Nil)))`height, Nodes(Plug(d, Br(Nil, node, k, Nil)))`size
      ensures Valid() && node.key == k
      ensures Keys(shape) == Keys(Plug(d, Br(Nil, node, k, Nil))) && Nodes(shape) == Nodes(Plug(d, Br(Nil, node, k, Nil)))
    {
      if avl {
        SettleBalanced(node, d, k);
      } else {
        SettleCounted(node, d, k);
      }
    }

    /** Settle in an AVL tree: the rebalancing walk from the new leaf. */
    method SettleBalanced(node: Node, ghost d: Ctx, ghost k: int)
      requires avl && Hung(node, d, k) && Sorted(Keys(Plug(d, Br(Nil, node, k, Nil))))
      modifies this`root, this`shape, Nodes(Plug(d, Br(Nil, node, k, Nil)))`left
      modifies Nodes(Plug(d, Br(Nil, node, k, Nil)))`right, Nodes(Plug(d, Br(Nil, node, k, Nil)))`parent
      modifies Nodes(Plug(d, Br(Nil, node, k, Nil)))`height, Nodes(Plug(d, Br(Nil, node, k, Nil)))`size
      ensures Valid() && node.key == k
      ensures Keys(shape) == Keys(Plug(d, Br(Nil, node, k, Nil))) && Nodes(shape) == Nodes(Plug(d, Br(Nil, node, k, Nil)))
    {
      ghost var leaf := Br(Nil, node, k, Nil);
      PlugNodes(d, leaf);
      PlugKeysOk(d, leaf);
      assert Pending(d, leaf, 0) && InsertWalk(leaf, 0);
      shape := Rebalance(node, d, leaf, 0, true);
    }

    /** Settle in a tree without heights: a SizeBST recounts from the new
        leaf up, a plain BST has nothing to do. */
    method SettleCounted(node: Node, ghost d: Ctx, ghost k: int)
      requires !avl && Hung(node, d, k) && Sorted(Keys(Plug(d, Br(Nil, node, k, Nil))))
      modifies this`shape, Nodes(Plug(d, Br(Nil, node, k, Nil)))`size
      ensures Valid() && node.key == k && shape == Plug(d, Br(Nil, node, k, Nil))
    {
      ghost var leaf := Br(Nil, node, k, Nil);
      PlugNodes(d, leaf);
      PlugKeysOk(d, leaf);
      PlugLinked(d, leaf);
      PlugDistinct(d, leaf);
      shape := Plug(d, leaf);
      if sized {
        NodesAllocated(shape);
        UpdateSizes(node, d, leaf);
      }
    }

    /** BST.insert, AVL.insert and SizeBST.insert (Tree/BST.py:245-263,
        Tree/AVL.py:123-138, Tree/SizeBST.py:114-129): the leaf is attached,
        then an AVL repairs the path above it and a SizeBST recounts it. The
        key goes in after every key not greater than it. */
    method Insert(k: int) returns (node: Node)
      requires Valid()
      modifies this, Nodes(shape)`left, Nodes(shape)`right, Nodes(shape)`parent
      modifies Nodes(shape)`height, Nodes(shape)`size
      ensures Valid() && fresh(node) && node.key == k
      ensures Keys(shape) == InsertSorted(old(Keys(shape)), k)
      ensures Nodes(shape) == old(Nodes(shape)) + {node}
    {
      ghost var s0 := shape;
      ghost var d;
      node, d := Attach(k);
      InsertKeys(s0, k, node);
      Settle(node, d, k);
    }

    // -------------------------------------------------------------------
    // remove (Tree/BST.py:113-145 and 265-292, Tree/AVL.py:140-155,
    // Tree/SizeBST.py:131-146)
    // -------------------------------------------------------------------

    /** Everything `Valid` asks of `t` but the heights and sizes. */
    ghost predicate Wired(t: Shape)
      reads this`root, Nodes(t)`left, Nodes(t)`right, Nodes(t)`parent, Nodes(t)`key
    {
      root == Top(t) && Linked(t, null) && Distinct(t) && KeysOk(t) && Sorted(Keys(t))
    }

    /** The links after BST.remove: the node `r` is out, the lone subtree `x`
        it had sits at `g1`, and `r` still points up to the node it hung
        from, which is the pseudoroot when `r` was the root itself. */
    ghost predicate Unlinked(w0: Shape, r: Node, rk: int, g0: Ctx, g1: Ctx, x: Shape, pseudo: Node?)
      reads this, r, Opt(pseudo), Nodes(Plug(g1, x))
    {
      Wired(Plug(g1, x)) && Distinct(w0) && Lone(w0, r, rk, g0, g1, x) &&
      (pseudo != null ==> pseudo !in Nodes(Plug(g1, x)) && pseudo != r) &&
      if g1.Root? then pseudo != null && r.parent == pseudo && pseudo.left == Top(x) && pseudo.right == null
      else r.parent == g1.n
    }

    /** The first lines of BST.remove for the root: a pseudoroot holding
        0 gets the root as its left child. */
    method Hang() returns (pseudo: Node)
      requires Valid() && root != null
      modifies root`parent
      ensures fresh(pseudo) && pseudo.key == 0
      ensures Linked(shape, pseudo) && CtxLinked(InL(Root, pseudo, 0, Nil), root)
    {
      ghost var l, r := shape.l, shape.r;
      assert Linked(l, root) && Linked(r, root) && root !in Nodes(l) + Nodes(r);
      NodesAllocated(l);
      NodesAllocated(r);
      pseudo := new Node(0, null);
      pseudo.left := root;
      root.parent := pseudo;
    }

    /** The last lines of BST.remove for the root: whatever hangs below the
        pseudoroot becomes the root, and loses its parent. */
    method Lift(pseudo: Node, ghost t: Shape)
      requires Linked(t, pseudo) && Distinct(t) && pseudo.left == Top(t)
      modifies this`root, Opt(Top(t))`parent
      ensures root == Top(t) && Linked(t, null)
    {
      if t.Br? {
        assert Linked(t.l, t.n) && Linked(t.r, t.n) && t.n !in Nodes(t.l) + Nodes(t.r);
      }
      root := pseudo.left;
      if root != null {
        root.parent := null;
      }
    }

    /** What BSTNode.remove leaves below the pseudoroot. */
    lemma BelowPseudo(w0: Shape, pseudo: Node, r: Node, rk: int, g0: Ctx, g1: Ctx, x: Shape, t: Shape)
      requires Distinct(w0) && Lone(w0, r, rk, g0, g1, x) && pseudo !in Nodes(w0) && Plug(g1, x) == t
      requires r.parent == ParentOf(Graft(g1, InL(Root, pseudo, 0, Nil)))
      requires Linked(x, ParentOf(Graft(g1, InL(Root, pseudo, 0, Nil))))
      requires CtxLinked(Graft(g1, InL(Root, pseudo, 0, Nil)), Top(x))
      ensures Linked(t, pseudo) && Distinct(t) && pseudo.left == Top(t)
      ensures r !in Nodes(t) && Nodes(t) == Nodes(w0) - {r} && pseudo !in Nodes(t) && pseudo != r
      ensures if g1.Root? then r.parent == pseudo && pseudo.left == Top(x) && pseudo.right == null
        else r.parent == g1.n
    {
      BelowPseudoShapes(w0, pseudo, r, rk, g0, g1, x, t);
      LinkedUnder(Graft(g1, InL(Root, pseudo, 0, Nil)), x, t, pseudo);
    }

    /** The subtree under a pseudoroot with no other child is linked to it
        when the whole is. */
    static lemma LinkedUnder(g: Ctx, x: Shape, t: Shape, pseudo: Node)
      requires Plug(g, x) == Br(t, pseudo, 0, Nil)
      requires Linked(x, ParentOf(g)) && CtxLinked(g, Top(x))
      ensures Linked(t, pseudo) && pseudo.left == Top(t) && pseudo.right == null
    {
      PlugLinked(g, x);
    }

    /** The shape half of `BelowPseudo`: no link is read. */
    static lemma BelowPseudoShapes(w0: Shape, pseudo: Node, r: Node, rk: int, g0: Ctx, g1: Ctx, x: Shape, t: Shape)
      requires Distinct(w0) && Lone(w0, r, rk, g0, g1, x) && pseudo !in Nodes(w0) && Plug(g1, x) == t
      ensures Plug(Graft(g1, InL(Root, pseudo, 0, Nil)), x) == Br(t, pseudo, 0, Nil)
      ensures Distinct(t) && r !in Nodes(t) && Nodes(t) == Nodes(w0) - {r} && pseudo !in Nodes(t) && pseudo != r
      ensures ParentOf(Graft(g1, InL(Root, pseudo, 0, Nil))) == if g1.Root? then pseudo else g1.n
    {
      ghost var cp := InL(Root, pseudo, 0, Nil);
      LoneRemoved(w0, r, rk, g0, g1, x);
      GraftPlug(g1, cp, x);
      GraftDepth(g1, cp);
    }

    /** BST.remove when the root holds the key: a pseudoroot is put above
        the root so that BSTNode.remove always has a parent to work on, and
        whatever hangs below the pseudoroot afterwards is the new root. */
    method UnlinkRoot() returns (r: Node, pseudo: Node, ghost rk: int, ghost g0: Ctx, ghost g1: Ctx, ghost x: Shape)
      requires Valid() && root != null
      modifies this`root, Nodes(shape)`key, Nodes(shape)`left, Nodes(shape)`right, Nodes(shape)`parent
      ensures fresh(pseudo) && r.key == shape.k
      ensures Unlinked(shape, r, rk, g0, g1, x, pseudo)
      ensures Keys(Plug(g1, x)) == RemoveOne(Keys(shape), shape.k)
    {
      NodesAllocated(shape);
      pseudo := Hang();
      ghost var t;
      r, rk, g0, g1, x, t := BstNode.Remove(root, InL(Root, pseudo, 0, Nil), shape);
      BelowPseudo(shape, pseudo, r, rk, g0, g1, x, t);
      assert KeysOk(t) && r.key == shape.k;
      Lift(pseudo, t);
      RemovedKeys(Root, shape, t);
      assert Wired(Plug(g1, x));
    }

    /** What BSTNode.remove leaves in the tree when the node sat below the
        root, at `c`. */
    lemma BelowNode(w0: Shape, c: Ctx, s: Shape, r: Node, rk: int, dd0: Ctx, dd: Ctx, x: Shape, t: Shape)
      requires w0 == Plug(c, s) && c != Root && s.Br? && root == Top(w0) && Distinct(w0) && Sorted(Keys(w0))
      requires s == Plug(dd0, Br(Nil, r, rk, x)) || s == Plug(dd0, Br(x, r, rk, Nil))
      requires SameCtx(dd0, dd) && r.parent == ParentOf(Graft(dd, c)) && Plug(dd, x) == t
      requires Keys(t) == Keys(s.l) + Keys(s.r) && KeysOk(t) && CtxKeysOk(c)
      requires Linked(x, ParentOf(Graft(dd, c))) && CtxLinked(Graft(dd, c), Top(x))
      ensures Unlinked(w0, r, rk, Graft(dd0, c), Graft(dd, c), x, null)
      ensures Keys(Plug(Graft(dd, c), x)) == RemoveOne(Keys(w0), s.k)
    {
      BelowNodeShapes(w0, c, s, r, rk, dd0, dd, x, t);
      BelowNodeWired(w0, c, s, dd, x, t);
    }

    /** The link half of `BelowNode`. */
    lemma BelowNodeWired(w0: Shape, c: Ctx, s: Shape, dd: Ctx, x: Shape, t: Shape)
      requires w0 == Plug(c, s) && c != Root && s.Br? && root == Top(w0) && Sorted(Keys(w0))
      requires Plug(Graft(dd, c), x) == Plug(c, t) && Distinct(Plug(c, t))
      requires Keys(t) == Keys(s.l) + Keys(s.r) && KeysOk(t) && CtxKeysOk(c)
      requires Linked(x, ParentOf(Graft(dd, c))) && CtxLinked(Graft(dd, c), Top(x))
      ensures Wired(Plug(c, t)) && Keys(Plug(c, t)) == RemoveOne(Keys(w0), s.k)
    {
      PlugLinked(Graft(dd, c), x);
      PlugKeysOk(c, t);
      PlugTop(c, s, t);
      RemovedKeys(c, s, t);
    }

    /** The shape half of `BelowNode`: no link is read. */
    static lemma BelowNodeShapes(w0: Shape, c: Ctx, s: Shape, r: Node, rk: int, dd0: Ctx, dd: Ctx, x: Shape, t: Shape)
      requires w0 == Plug(c, s) && c != Root && s.Br? && Distinct(w0)
      requires s == Plug(dd0, Br(Nil, r, rk, x)) || s == Plug(dd0, Br(x, r, rk, Nil))
      requires SameCtx(dd0, dd) && Plug(dd, x) == t
      ensures Lone(w0, r, rk, Graft(dd0, c), Graft(dd, c), x)
      ensures Distinct(Plug(Graft(dd, c), x)) && r in Nodes(w0) && Nodes(Plug(Graft(dd, c), x)) == Nodes(w0) - {r}
      ensures Plug(Graft(dd, c), x) == Plug(c, t) && Graft(dd, c) != Root
    {
      var g0, g1 := Graft(dd0, c), Graft(dd, c);
      SameGraft(dd0, dd, c);
      GraftPlug(dd0, c, Br(Nil, r, rk, x));
      GraftPlug(dd0, c, Br(x, r, rk, Nil));
      LoneRemoved(w0, r, rk, g0, g1, x);
      GraftPlug(dd, c, x);
      GraftDepth(dd, c);
    }

    /** BST.remove when the key sits below the root: BSTNode.remove on the
        node `find` returned, which sits at `c`. */
    method UnlinkBelow(node: Node, ghost c: Ctx, ghost s: Shape)
      returns (r: Node, ghost rk: int, ghost g0: Ctx, ghost g1: Ctx, ghost x: Shape)
      requires Valid() && c != Root && s.Br? && s.n == node && shape == Plug(c, s)
      modifies Nodes(shape)`key, Nodes(shape)`left, Nodes(shape)`right, Nodes(shape)`parent
      ensures r.key == s.k && Unlinked(shape, r, rk, g0, g1, x, null)
      ensures Keys(Plug(g1, x)) == RemoveOne(Keys(shape), s.k)
    {
      NodesAllocated(shape);
      CtxNodesAllocated(c);
      PlugNodes(c, s);
      PlugLinked(c, s);
      PlugDistinct(c, s);
      PlugKeysOk(c, s);
      assert CtxKeysOk(c);
      ghost var dd0, dd, t;
      r, rk, dd0, dd, x, t := BstNode.Remove(node, c, s);
      BelowNode(shape, c, s, r, rk, dd0, dd, x, t);
      g0, g1 := Graft(dd0, c), Graft(dd, c);
    }

    /** BST.remove: the node `find` returns is unlinked, through a
        pseudoroot when it is the root. The key must be present: `find`
        returns None otherwise and BSTNode.remove fails on it. */
    method Unlink(k: int) returns (r: Node, pseudo: Node?, ghost rk: int, ghost g0: Ctx, ghost g1: Ctx, ghost x: Shape)
      requires Valid() && k in Keys(shape)
      modifies this`root, Nodes(shape)`key, Nodes(shape)`left, Nodes(shape)`right, Nodes(shape)`parent
      ensures pseudo != null ==> fresh(pseudo)
      ensures r.key == k && Unlinked(shape, r, rk, g0, g1, x, pseudo)
      ensures Keys(Plug(g1, x)) == RemoveOne(Keys(shape), k)
      ensures r in Nodes(shape) && Nodes(Plug(g1, x)) == Nodes(shape) - {r}
    {
      var node := Find(k);
      ghost var c, s := FindAt(shape, k, Root).0, FindAt(shape, k, Root).1;
      LinkedShaped(shape, null);
      FindAtSpec(shape, k, Root);
      assert node == Top(s) && s.Br? && shape == Plug(c, s);
      if node == root {
        var p;
        r, p, rk, g0, g1, x := UnlinkRoot();
        pseudo := p;
      } else {
        r, rk, g0, g1, x := UnlinkBelow(node, c, s);
        pseudo := null;
      }
      LoneRemoved(shape, r, rk, g0, g1, x);
    }

    /** Where the recount of the sizes starts after a removal: at the node
        above the hole, whose children have the right sizes. */
    lemma ClimbStart(g1: Ctx, x: Shape)
      requires g1 != Root && Wired(Plug(g1, x)) && SizesOk(x) && CtxSiblingsSized(g1)
      ensures Recountable(g1.up, Up(g1, x)) && CtxNodes(g1.up) + Nodes(Up(g1, x)) == Nodes(Plug(g1, x))
    {
      PlugNodes(g1.up, Up(g1, x));
      PlugLinked(g1.up, Up(g1, x));
      PlugDistinct(g1.up, Up(g1, x));
    }

    /** SizeBST.remove's `node._update_info()` on the removed node: it
        recounts its own size from the children it still points to, then
        the count is redone from the node it hung from up to the root. When
        that node is the pseudoroot, its parent is None and the recursion
        ends there. */
    method Recount(r: Node, pseudo: Node?, ghost w0: Shape, ghost rk: int, ghost g0: Ctx, ghost g1: Ctx, ghost x: Shape)
      requires sized && !avl && Unlinked(w0, r, rk, g0, g1, x, pseudo) && Kept(w0)
      modifies this`shape, r`size, Opt(pseudo)`size, Nodes(Plug(g1, x))`size
      ensures Valid() && shape == Plug(g1, x)
    {
      LoneRemoved(w0, r, rk, g0, g1, x);
      SizesAround(w0, r, rk, g0, g1, x);
      PlugNodes(g1, x);
      if r.parent == pseudo {
        RecountTop(r, pseudo, x);
      } else {
        RecountBelow(r, g1, x);
      }
    }

    /** Recount when the removed node hung from the pseudoroot. */
    method RecountTop(r: Node, pseudo: Node, ghost x: Shape)
      requires sized && !avl && Wired(x) && SizesOk(x) && r != pseudo && r !in Nodes(x) && pseudo !in Nodes(x)
      requires r.parent == pseudo && pseudo.left == Top(x) && pseudo.right == null
      modifies this`shape, r`size, pseudo`size
      ensures Valid() && shape == x
    {
      NodesAllocated(x);
      r.size := 1 + SizeOf(r.left) + SizeOf(r.right);
      var p := r.parent;
      p.size := 1 + SizeOf(p.left) + SizeOf(p.right);
      shape := x;
    }

    /** Recount when the removed node hung from a node of the tree, at `g1`. */
    method RecountBelow(r: Node, ghost g1: Ctx, ghost x: Shape)
      requires sized && !avl && g1 != Root && Wired(Plug(g1, x)) && SizesOk(x) && CtxSiblingsSized(g1)
      requires r.parent == g1.n && r !in Nodes(Plug(g1, x))
      modifies this`shape, r`size, Nodes(Plug(g1, x))`size
      ensures Valid() && shape == Plug(g1, x)
    {
      ClimbStart(g1, x);
      NodesAllocated(Plug(g1, x));
      r.size := 1 + SizeOf(r.left) + SizeOf(r.right);
      UpdateSizes(r.parent, g1.up, Up(g1, x));
      assert Wired(Plug(g1, x));
      shape := Plug(g1, x);
    }

    /** AVL.remove's `self._rebalance(node.parent)`, from the node the
        removed node hung from. At the pseudoroot the pass only refreshes its
        fields: its one child is at most one level tall, so neither rotation
        applies, and its parent is None. */
    method Retrace(r: Node, pseudo: Node?, ghost w0: Shape, ghost rk: int, ghost g0: Ctx, ghost g1: Ctx, ghost x: Shape)
      requires avl && Unlinked(w0, r, rk, g0, g1, x, pseudo) && Kept(w0)
      modifies this`root, this`shape, Opt(pseudo)`height, Opt(pseudo)`size
      modifies Nodes(Plug(g1, x))`left, Nodes(Plug(g1, x))`right, Nodes(Plug(g1, x))`parent
      modifies Nodes(Plug(g1, x))`height, Nodes(Plug(g1, x))`size
      ensures Valid() && Keys(shape) == Keys(Plug(g1, x)) && Nodes(shape) == Nodes(Plug(g1, x))
    {
      LoneRemoved(w0, r, rk, g0, g1, x);
      PlugNodes(g1, x);
      if r.parent == pseudo {
        assert g0.Root?;
        assert HeightsOk(x) && Balanced(x) && Height(x) <= 1 && (sized ==> SizesOk(x));
        RetraceTop(pseudo, x);
      } else {
        RetraceStart(w0, r, rk, g0, g1, x);
        RetraceBelow(r.parent, g1, x);
      }
    }

    /** The removed node hung from the pseudoroot: what remains is `x`, at
        most one level tall. */
    method RetraceTop(pseudo: Node, ghost x: Shape)
      requires avl && Wired(x) && HeightsOk(x) && Balanced(x) && Height(x) <= 1 && (sized ==> SizesOk(x))
      requires pseudo !in Nodes(x) && pseudo.left == Top(x) && pseudo.right == null
      modifies this`shape, pseudo`height, pseudo`size
      ensures Valid() && shape == x
    {
      NodesAllocated(x);
      FieldsMeaning(x);
      UpdateInfo(pseudo, Br(x, pseudo, 0, Nil));
      assert HeightOf(pseudo.right) - HeightOf(pseudo.left) < 2 && HeightOf(pseudo.left) - HeightOf(pseudo.right) < 2;
      shape := x;
    }

    /** Where the rebalancing walk starts after a removal below the root. */
    lemma RetraceStart(w0: Shape, r: Node, rk: int, g0: Ctx, g1: Ctx, x: Shape)
      requires avl && g1 != Root && Wired(Plug(g1, x)) && Kept(w0) && Lone(w0, r, rk, g0, g1, x)
      ensures Placed(g1.up, Up(g1, x)) && Pending(g1.up, Up(g1, x), g1.n.height)
    {
      HeightsAround(w0, r, rk, g0, g1, x);
      if sized {
        SizesAround(w0, r, rk, g0, g1, x);
      }
      PlugLinked(g1.up, Up(g1, x));
      PlugDistinct(g1.up, Up(g1, x));
    }

    /** The rebalancing walk from the node the removed node hung from. */
    method RetraceBelow(p: Node, ghost g1: Ctx, ghost x: Shape)
      requires avl && g1 != Root && p == g1.n && Wired(Plug(g1, x))
      requires Placed(g1.up, Up(g1, x)) && Pending(g1.up, Up(g1, x), g1.n.height)
      modifies this`root, this`shape
      modifies Nodes(Plug(g1, x))`left, Nodes(Plug(g1, x))`right, Nodes(Plug(g1, x))`parent
      modifies Nodes(Plug(g1, x))`height, Nodes(Plug(g1, x))`size
      ensures Valid() && Keys(shape) == Keys(Plug(g1, x)) && Nodes(shape) == Nodes(Plug(g1, x))
    {
      shape := Rebalance(p, g1.up, Up(g1, x), p.height, false);
    }

    /** The heights and sizes the variant keeps are right in `w0`. */
    ghost predicate Kept(w0: Shape)
      reads Nodes(w0)`height, Nodes(w0)`size
    {
      (avl ==> HeightsOk(w0) && Balanced(w0)) && (sized ==> SizesOk(w0))
    }

    /** What AVL.remove and SizeBST.remove do after BST.remove. */
    method Restore(r: Node, pseudo: Node?, ghost w0: Shape, ghost rk: int, ghost g0: Ctx, ghost g1: Ctx, ghost x: Shape)
      requires Unlinked(w0, r, rk, g0, g1, x, pseudo) && Kept(w0)
      modifies this`root, this`shape, r`size, Opt(pseudo)`height, Opt(pseudo)`size
      modifies Nodes(Plug(g1, x))`left, Nodes(Plug(g1, x))`right, Nodes(Plug(g1, x))`parent
      modifies Nodes(Plug(g1, x))`height, Nodes(Plug(g1, x))`size
      ensures Valid() && Keys(shape) == Keys(Plug(g1, x)) && Nodes(shape) == Nodes(w0) - {r}
    {
      LoneRemoved(w0, r, rk, g0, g1, x);
      if avl {
        Retrace(r, pseudo, w0, rk, g0, g1, x);
      } else if sized {
        Recount(r, pseudo, w0, rk, g0, g1, x);
      } else {
        shape := Plug(g1, x);
      }
    }

    /** BST.remove, AVL.remove and SizeBST.remove: the node holding `k` is
        unlinked, then an AVL rebalances and a SizeBST recounts the path it
        left. One occurrence of `k` leaves the keys. */
    method Remove(k: int) returns (r: Node)
      requires Valid() && k in Keys(shape)
      modifies this, Nodes(shape)`key, Nodes(shape)`left, Nodes(shape)`right, Nodes(shape)`parent
      modifies Nodes(shape)`height, Nodes(shape)`size
      ensures Valid() && r.key == k && r in old(Nodes(shape))
      ensures Keys(shape) == RemoveOne(old(Keys(shape)), k)
      ensures Nodes(shape) == old(Nodes(shape)) - {r}
    {
      ghost var w0 := shape;
      NodesAllocated(w0);
      assert Kept(w0);
      var pseudo;
      ghost var rk, g0, g1, x;
      r, pseudo, rk, g0, g1, x := Unlink(k);
      Restore(r, pseudo, w0, rk, g0, g1, x);
    }
  }
}
