/**
 * The node and the ghost views shared by every binary search tree of the
 * repository (Tree/BST.py, Tree/AVL.py, Tree/SizeBST.py, BST/SizeAVL.py,
 * BST/SizeBST.py, BST/AVLTree.py).
 *
 * A tree is a set of `Node` objects linked by `left`, `right` and `parent`.
 * A ghost `Shape` names the nodes in tree form; a ghost `Ctx` (a zipper)
 * names the path from a subtree up to the root, together with the subtrees
 * hanging off that path. `Plug(c, s)` puts a subtree back in its place.
 */
module TreeShape {

  /** One node type for all the tree variants: the source spreads these fields
      over BSTNode, AVLNode, SizeBSTNode and SizeAVLNode. */
  class Node {
    var key: int
    var left: Node?
    var right: Node?
    var parent: Node?
    var height: int
    var size: int

    /** A fresh leaf: no children, height 1 and size 1. */
    constructor (k: int, p: Node?)
      ensures key == k && parent == p && left == null && right == null
      ensures height == 1 && size == 1
    {
      key, parent, left, right := k, p, null, null;
      height, size := 1, 1;
    }
  }

  /** `Br(l, n, k, r)`: node `n` with subtrees `l` and `r`; `k` is the key the
      shape records for `n`, which `KeysOk` ties to the node's `key` field. */
  datatype Shape = Nil | Br(l: Shape, n: Node, k: int, r: Shape)

  /** `InL(up, n, k, r)`: the hole is the left child of `n`, whose right subtree
      is `r` and whose own place is `up`; `InR` is the mirror. */
  datatype Ctx = Root | InL(up: Ctx, n: Node, k: int, r: Shape) | InR(l: Shape, n: Node, k: int, up: Ctx)

  function Max(a: int, b: int): int { if a < b then b else a }

  function Top(t: Shape): Node? { if t.Nil? then null else t.n }

  /** The node whose child the hole is; null for the whole tree. */
  function ParentOf(c: Ctx): Node? { if c.Root? then null else c.n }

  function Plug(c: Ctx, s: Shape): Shape
    decreases c
  {
    match c
    case Root => s
    case InL(up, n, k, r) => Plug(up, Br(s, n, k, r))
    case InR(l, n, k, up) => Plug(up, Br(l, n, k, s))
  }

  /** The subtree one level up: the hole's parent with `s` in the hole. */
  function Up(c: Ctx, s: Shape): (u: Shape)
    requires c != Root
    ensures u.Br? && u.n == c.n && Plug(c.up, u) == Plug(c, s)
  {
    match c
    case InL(_, n, k, r) => Br(s, n, k, r)
    case InR(l, n, k, _) => Br(l, n, k, s)
  }

  /** The node, as a set of at most one element (for frames). */
  function Opt(n: Node?): set<Node>
  {
    if n == null then {} else {n}
  }

  /** `d` placed inside `c`: `Plug(Graft(d, c), s) == Plug(c, Plug(d, s))`. */
  function Graft(d: Ctx, c: Ctx): Ctx
  {
    match d
    case Root => c
    case InL(up, n, k, r) => InL(Graft(up, c), n, k, r)
    case InR(l, n, k, up) => InR(l, n, k, Graft(up, c))
  }

  function Depth(c: Ctx): nat
  {
    match c
    case Root => 0
    case InL(up, _, _, _) => 1 + Depth(up)
    case InR(_, _, _, up) => 1 + Depth(up)
  }

  function Height(t: Shape): nat
  {
    match t
    case Nil => 0
    case Br(l, _, _, r) => 1 + Max(Height(l), Height(r))
  }

  function Count(t: Shape): nat
  {
    match t
    case Nil => 0
    case Br(l, _, _, r) => Count(l) + 1 + Count(r)
  }

  /** Every node's children differ in height by at most one. */
  predicate Balanced(t: Shape)
  {
    match t
    case Nil => true
    case Br(l, _, _, r) => -1 <= Height(r) - Height(l) <= 1 && Balanced(l) && Balanced(r)
  }

  /** The nodes in key order. */
  function InOrder(t: Shape): seq<Node>
  {
    match t
    case Nil => []
    case Br(l, n, k, r) => InOrder(l) + [n] + InOrder(r)
  }

  /** The nodes of the context that come before / after the hole in key order. */
  function Before(c: Ctx): seq<Node>
  {
    match c
    case Root => []
    case InL(up, _, _, _) => Before(up)
    case InR(l, n, k, up) => Before(up) + InOrder(l) + [n]
  }

  function After(c: Ctx): seq<Node>
  {
    match c
    case Root => []
    case InL(up, n, k, r) => [n] + InOrder(r) + After(up)
    case InR(_, _, _, up) => After(up)
  }

  ghost function Nodes(t: Shape): set<Node>
  {
    match t
    case Nil => {}
    case Br(l, n, k, r) => Nodes(l) + {n} + Nodes(r)
  }

  ghost function CtxNodes(c: Ctx): set<Node>
  {
    match c
    case Root => {}
    case InL(up, n, k, r) => CtxNodes(up) + {n} + Nodes(r)
    case InR(l, n, k, up) => CtxNodes(up) + {n} + Nodes(l)
  }

  /** No node occurs twice. */
  ghost predicate Distinct(t: Shape)
  {
    match t
    case Nil => true
    case Br(l, n, k, r) =>
      Distinct(l) && Distinct(r) && n !in Nodes(l) && n !in Nodes(r) && Nodes(l) !! Nodes(r)
  }

  ghost predicate CtxDistinct(c: Ctx)
  {
    match c
    case Root => true
    case InL(up, n, k, r) =>
      CtxDistinct(up) && Distinct(r) && n !in Nodes(r) && n !in CtxNodes(up) && Nodes(r) !! CtxNodes(up)
    case InR(l, n, k, up) =>
      CtxDistinct(up) && Distinct(l) && n !in Nodes(l) && n !in CtxNodes(up) && Nodes(l) !! CtxNodes(up)
  }

  /** The child pointers spell out `t`. */
  ghost predicate Shaped(t: Shape)
    reads Nodes(t)`left, Nodes(t)`right
  {
    match t
    case Nil => true
    case Br(l, n, k, r) => n.left == Top(l) && n.right == Top(r) && Shaped(l) && Shaped(r)
  }

  /** The child pointers spell out `t`, every parent pointer points back, and
      the top of `t` has parent `p`. */
  ghost predicate Linked(t: Shape, p: Node?)
    reads Nodes(t)`left, Nodes(t)`right, Nodes(t)`parent
  {
    match t
    case Nil => true
    case Br(l, n, k, r) =>
      n.parent == p && n.left == Top(l) && n.right == Top(r) && Linked(l, n) && Linked(r, n)
  }

  /** The context's own pointers: the hole's parent points down to `child`,
      and everything else on the path and beside it is linked; the top of
      the context has no parent. */
  ghost predicate CtxLinked(c: Ctx, child: Node?)
    reads CtxNodes(c)`left, CtxNodes(c)`right, CtxNodes(c)`parent
  {
    match c
    case Root => true
    case InL(up, n, k, r) =>
      n.left == child && n.right == Top(r) && n.parent == ParentOf(up) && Linked(r, n) && CtxLinked(up, n)
    case InR(l, n, k, up) =>
      n.left == Top(l) && n.right == child && n.parent == ParentOf(up) && Linked(l, n) && CtxLinked(up, n)
  }

  /** `s` hangs in its place `c`: linked both ways, and no node occurs
      twice in the whole tree. */
  ghost predicate Placed(c: Ctx, s: Shape)
    reads CtxNodes(c)`left, CtxNodes(c)`right, CtxNodes(c)`parent
    reads Nodes(s)`left, Nodes(s)`right, Nodes(s)`parent
  {
    Linked(s, ParentOf(c)) && CtxLinked(c, Top(s)) &&
    Distinct(s) && CtxDistinct(c) && CtxNodes(c) !! Nodes(s)
  }

  /** The keys in order, as the shape records them. */
  function Keys(t: Shape): seq<int>
  {
    match t
    case Nil => []
    case Br(l, _, k, r) => Keys(l) + [k] + Keys(r)
  }

  /** The keys of the context that come before / after the hole. */
  function KeysBefore(c: Ctx): seq<int>
  {
    match c
    case Root => []
    case InL(up, _, _, _) => KeysBefore(up)
    case InR(l, _, k, up) => KeysBefore(up) + Keys(l) + [k]
  }

  function KeysAfter(c: Ctx): seq<int>
  {
    match c
    case Root => []
    case InL(up, _, k, r) => [k] + Keys(r) + KeysAfter(up)
    case InR(_, _, _, up) => KeysAfter(up)
  }

  /** Every node's key field is the key the shape records for it. */
  ghost predicate KeysOk(t: Shape)
    reads Nodes(t)`key
  {
    match t
    case Nil => true
    case Br(l, n, k, r) => n.key == k && KeysOk(l) && KeysOk(r)
  }

  ghost predicate CtxKeysOk(c: Ctx)
    reads CtxNodes(c)`key
  {
    match c
    case Root => true
    case InL(up, n, k, r) => n.key == k && KeysOk(r) && CtxKeysOk(up)
    case InR(l, n, k, up) => n.key == k && KeysOk(l) && CtxKeysOk(up)
  }

  /** The height field of every node is the height of its subtree. */
  ghost predicate HeightsOk(t: Shape)
    reads Nodes(t)`height
  {
    match t
    case Nil => true
    case Br(l, n, k, r) => n.height == Height(t) && HeightsOk(l) && HeightsOk(r)
  }

  /** The context's height fields are right for a hole of height `h`. */
  ghost predicate CtxHeightsOk(c: Ctx, h: int)
    reads CtxNodes(c)`height
  {
    match c
    case Root => true
    case InL(up, n, k, r) =>
      n.height == 1 + Max(h, Height(r)) && HeightsOk(r) && CtxHeightsOk(up, 1 + Max(h, Height(r)))
    case InR(l, n, k, up) =>
      n.height == 1 + Max(Height(l), h) && HeightsOk(l) && CtxHeightsOk(up, 1 + Max(Height(l), h))
  }

  /** The context would be balanced around a hole of height `h`. */
  ghost predicate CtxBalanced(c: Ctx, h: int)
  {
    match c
    case Root => true
    case InL(up, _, _, r) =>
      -1 <= Height(r) - h <= 1 && Balanced(r) && CtxBalanced(up, 1 + Max(h, Height(r)))
    case InR(l, _, _, up) =>
      -1 <= h - Height(l) <= 1 && Balanced(l) && CtxBalanced(up, 1 + Max(Height(l), h))
  }

  /** The size field of every node is the number of nodes of its subtree. */
  ghost predicate SizesOk(t: Shape)
    reads Nodes(t)`size
  {
    match t
    case Nil => true
    case Br(l, n, k, r) => n.size == Count(t) && SizesOk(l) && SizesOk(r)
  }

  /** The context's size fields are right for a hole holding `m` nodes. */
  ghost predicate CtxSizesOk(c: Ctx, m: int)
    reads CtxNodes(c)`size
  {
    match c
    case Root => true
    case InL(up, n, k, r) => n.size == 1 + m + Count(r) && SizesOk(r) && CtxSizesOk(up, 1 + m + Count(r))
    case InR(l, n, k, up) => n.size == 1 + Count(l) + m && SizesOk(l) && CtxSizesOk(up, 1 + Count(l) + m)
  }

  /** Only the subtrees hanging off the path have right sizes. */
  ghost predicate CtxSiblingsSized(c: Ctx)
    reads CtxNodes(c)`size
  {
    match c
    case Root => true
    case InL(up, _, _, r) => SizesOk(r) && CtxSiblingsSized(up)
    case InR(l, _, _, up) => SizesOk(l) && CtxSiblingsSized(up)
  }

  /** Non-decreasing: the tree variants under Tree/ accept duplicate keys. */
  predicate Sorted(s: seq<int>)
  {
    forall i, j :: 0 <= i < j < |s| ==> s[i] <= s[j]
  }

  /** Strictly increasing: the variant under BST/ rejects duplicates. */
  predicate StrictlySorted(s: seq<int>)
  {
    forall i, j :: 0 <= i < j < |s| ==> s[i] < s[j]
  }

  // ---------------------------------------------------------------------
  // Plugging a subtree into its context
  // ---------------------------------------------------------------------

  /** Every node a shape or a context mentions is allocated; this lets facts
      about them survive calls to methods that allocate. */
  lemma {:induction false} NodesAllocated(t: Shape)
    ensures forall o :: o in Nodes(t) ==> allocated(o)
  {
    match t
    case Nil =>
    case Br(l, _, _, r) => NodesAllocated(l); NodesAllocated(r);
  }

  lemma {:induction false} CtxNodesAllocated(c: Ctx)
    ensures forall o :: o in CtxNodes(c) ==> allocated(o)
  {
    match c
    case Root =>
    case InL(up, _, _, r) => CtxNodesAllocated(up); NodesAllocated(r);
    case InR(l, _, _, up) => CtxNodesAllocated(up); NodesAllocated(l);
  }

  lemma {:induction false} GraftPlug(d: Ctx, c: Ctx, s: Shape)
    ensures Plug(Graft(d, c), s) == Plug(c, Plug(d, s))
    decreases d
  {
    match d
    case Root =>
    case InL(up, n, k, r) => GraftPlug(up, c, Br(s, n, k, r));
    case InR(l, n, k, up) => GraftPlug(up, c, Br(l, n, k, s));
  }

  lemma {:induction false} GraftAssoc(a: Ctx, b: Ctx, c: Ctx)
    ensures Graft(Graft(a, b), c) == Graft(a, Graft(b, c))
  {
    match a
    case Root =>
    case InL(up, _, _, _) => GraftAssoc(up, b, c);
    case InR(_, _, _, up) => GraftAssoc(up, b, c);
  }

  /** Below the top of a context, what fills the hole does not change the top. */
  lemma {:induction false} PlugTop(c: Ctx, s1: Shape, s2: Shape)
    requires c != Root
    ensures Top(Plug(c, s1)) == Top(Plug(c, s2)) != null
  {
    match c
    case InL(up, n, k, r) => if up != Root { PlugTop(up, Br(s1, n, k, r), Br(s2, n, k, r)); }
    case InR(l, n, k, up) => if up != Root { PlugTop(up, Br(l, n, k, s1), Br(l, n, k, s2)); }
  }

  lemma {:induction false} GraftRoot(d: Ctx)
    ensures Graft(d, Root) == d
  {
    match d
    case Root =>
    case InL(up, _, _, _) => GraftRoot(up);
    case InR(_, _, _, up) => GraftRoot(up);
  }

  lemma {:induction false} GraftDepth(d: Ctx, c: Ctx)
    ensures Depth(Graft(d, c)) == Depth(d) + Depth(c)
    ensures ParentOf(Graft(d, c)) == if d.Root? then ParentOf(c) else ParentOf(d)
  {
    match d
    case Root =>
    case InL(up, _, _, _) => GraftDepth(up, c);
    case InR(_, _, _, up) => GraftDepth(up, c);
  }

  lemma {:induction false} GraftNodes(d: Ctx, c: Ctx)
    ensures CtxNodes(Graft(d, c)) == CtxNodes(d) + CtxNodes(c)
  {
    match d
    case Root =>
    case InL(up, _, _, _) => GraftNodes(up, c);
    case InR(_, _, _, up) => GraftNodes(up, c);
  }

  lemma {:induction false} GraftKeys(d: Ctx, c: Ctx)
    ensures KeysBefore(Graft(d, c)) == KeysBefore(c) + KeysBefore(d)
    ensures KeysAfter(Graft(d, c)) == KeysAfter(d) + KeysAfter(c)
  {
    match d
    case Root =>
    case InL(up, _, _, _) => GraftKeys(up, c);
    case InR(_, _, _, up) => GraftKeys(up, c);
  }

  lemma {:induction false} GraftInOrder(d: Ctx, c: Ctx)
    ensures Before(Graft(d, c)) == Before(c) + Before(d)
    ensures After(Graft(d, c)) == After(d) + After(c)
  {
    match d
    case Root =>
    case InL(up, _, _, _) => GraftInOrder(up, c);
    case InR(_, _, _, up) => GraftInOrder(up, c);
  }

  lemma {:induction false} PlugNodes(c: Ctx, s: Shape)
    ensures Nodes(Plug(c, s)) == CtxNodes(c) + Nodes(s)
    decreases c
  {
    match c
    case Root =>
    case InL(up, n, k, r) => PlugNodes(up, Br(s, n, k, r));
    case InR(l, n, k, up) => PlugNodes(up, Br(l, n, k, s));
  }

  lemma {:induction false} PlugCount(c: Ctx, s: Shape, sNew: Shape)
    ensures Count(Plug(c, sNew)) == Count(Plug(c, s)) - Count(s) + Count(sNew)
    decreases c
  {
    match c
    case Root =>
    case InL(up, n, k, r) => PlugCount(up, Br(s, n, k, r), Br(sNew, n, k, r));
    case InR(l, n, k, up) => PlugCount(up, Br(l, n, k, s), Br(l, n, k, sNew));
  }

  lemma {:induction false} PlugDistinct(c: Ctx, s: Shape)
    ensures Distinct(Plug(c, s)) <==> CtxDistinct(c) && Distinct(s) && CtxNodes(c) !! Nodes(s)
    decreases c
  {
    match c
    case Root =>
    case InL(up, n, k, r) => PlugDistinct(up, Br(s, n, k, r));
    case InR(l, n, k, up) => PlugDistinct(up, Br(l, n, k, s));
  }

  /** Replacing a subtree by one made of some of its nodes keeps the tree free
      of repeated nodes. */
  lemma ReplaceDistinct(c: Ctx, s: Shape, sNew: Shape)
    requires Distinct(Plug(c, s)) && Distinct(sNew) && Nodes(sNew) <= Nodes(s)
    ensures Distinct(Plug(c, sNew))
    ensures Nodes(Plug(c, sNew)) == CtxNodes(c) + Nodes(sNew)
  {
    PlugDistinct(c, s);
    PlugDistinct(c, sNew);
    PlugNodes(c, sNew);
  }

  lemma {:induction false} PlugInOrder(c: Ctx, s: Shape)
    ensures InOrder(Plug(c, s)) == Before(c) + InOrder(s) + After(c)
    decreases c
  {
    match c
    case Root =>
    case InL(up, n, k, r) => PlugInOrder(up, Br(s, n, k, r));
    case InR(l, n, k, up) => PlugInOrder(up, Br(l, n, k, s));
  }

  lemma {:induction false} PlugLinked(c: Ctx, s: Shape)
    ensures Linked(Plug(c, s), null) <==> Linked(s, ParentOf(c)) && CtxLinked(c, Top(s))
    decreases c
  {
    match c
    case Root =>
    case InL(up, n, k, r) => PlugLinked(up, Br(s, n, k, r));
    case InR(l, n, k, up) => PlugLinked(up, Br(l, n, k, s));
  }

  /** A subtree hangs in its place exactly when its parent's subtree hangs
      in the parent's place. */
  lemma PlacedDown(c: Ctx, s: Shape)
    requires s.Br?
    ensures Placed(c, s) <==> Placed(InL(c, s.n, s.k, s.r), s.l)
    ensures Placed(c, s) <==> Placed(InR(s.l, s.n, s.k, c), s.r)
  {
  }

  lemma {:induction false} LinkedShaped(t: Shape, p: Node?)
    requires Linked(t, p)
    ensures Shaped(t)
  {
    match t
    case Nil =>
    case Br(l, n, k, r) => LinkedShaped(l, n); LinkedShaped(r, n);
  }

  lemma {:induction false} PlugKeys(c: Ctx, s: Shape)
    ensures Keys(Plug(c, s)) == KeysBefore(c) + Keys(s) + KeysAfter(c)
    decreases c
  {
    match c
    case Root =>
    case InL(up, n, k, r) => PlugKeys(up, Br(s, n, k, r));
    case InR(l, n, k, up) => PlugKeys(up, Br(l, n, k, s));
  }

  lemma {:induction false} PlugKeysOk(c: Ctx, s: Shape)
    ensures KeysOk(Plug(c, s)) <==> KeysOk(s) && CtxKeysOk(c)
    decreases c
  {
    match c
    case Root =>
    case InL(up, n, k, r) => PlugKeysOk(up, Br(s, n, k, r));
    case InR(l, n, k, up) => PlugKeysOk(up, Br(l, n, k, s));
  }

  lemma {:induction false} PlugHeights(c: Ctx, s: Shape)
    ensures HeightsOk(Plug(c, s)) <==> HeightsOk(s) && CtxHeightsOk(c, Height(s))
    decreases c
  {
    match c
    case Root =>
    case InL(up, n, k, r) => PlugHeights(up, Br(s, n, k, r));
    case InR(l, n, k, up) => PlugHeights(up, Br(l, n, k, s));
  }

  lemma {:induction false} PlugBalanced(c: Ctx, s: Shape)
    ensures Balanced(Plug(c, s)) <==> Balanced(s) && CtxBalanced(c, Height(s))
    decreases c
  {
    match c
    case Root =>
    case InL(up, n, k, r) => PlugBalanced(up, Br(s, n, k, r));
    case InR(l, n, k, up) => PlugBalanced(up, Br(l, n, k, s));
  }

  lemma {:induction false} PlugSizes(c: Ctx, s: Shape)
    ensures SizesOk(Plug(c, s)) <==> SizesOk(s) && CtxSizesOk(c, Count(s))
    decreases c
  {
    match c
    case Root =>
    case InL(up, n, k, r) => PlugSizes(up, Br(s, n, k, r));
    case InR(l, n, k, up) => PlugSizes(up, Br(l, n, k, s));
  }

  lemma {:induction false} CtxSizesSiblings(c: Ctx, m: int)
    requires CtxSizesOk(c, m)
    ensures CtxSiblingsSized(c)
    decreases c
  {
    match c
    case Root =>
    case InL(up, n, k, r) => CtxSizesSiblings(up, 1 + m + Count(r));
    case InR(l, n, k, up) => CtxSizesSiblings(up, 1 + Count(l) + m);
  }

  /** Where the key fields agree with the shape, the keys are read off the
      nodes in key order. */
  lemma {:induction false} KeysInOrder(t: Shape)
    requires KeysOk(t)
    ensures |Keys(t)| == |InOrder(t)| == Count(t)
    ensures forall i :: 0 <= i < |Keys(t)| ==> Keys(t)[i] == InOrder(t)[i].key
  {
    match t
    case Nil =>
    case Br(l, n, k, r) => KeysInOrder(l); KeysInOrder(r);
  }

  lemma {:induction false} InOrderNodes(t: Shape)
    ensures forall m :: m in InOrder(t) <==> m in Nodes(t)
  {
    match t
    case Nil =>
    case Br(l, n, k, r) => InOrderNodes(l); InOrderNodes(r);
  }

  lemma {:induction false} CtxInOrderNodes(c: Ctx)
    ensures forall m :: m in Before(c) || m in After(c) <==> m in CtxNodes(c)
  {
    match c
    case Root =>
    case InL(up, n, k, r) => CtxInOrderNodes(up); InOrderNodes(r);
    case InR(l, n, k, up) => CtxInOrderNodes(up); InOrderNodes(l);
  }

  // ---------------------------------------------------------------------
  // Contexts that differ only in their recorded keys
  // ---------------------------------------------------------------------

  /** The same path through the same nodes with the same subtrees beside it;
      only the keys recorded for the path nodes may differ. */
  predicate SameCtx(c1: Ctx, c2: Ctx)
  {
    match c1
    case Root => c2.Root?
    case InL(up, n, _, r) => c2.InL? && c2.n == n && c2.r == r && SameCtx(up, c2.up)
    case InR(l, n, _, up) => c2.InR? && c2.n == n && c2.l == l && SameCtx(up, c2.up)
  }

  lemma {:induction false} GraftSame(e: Ctx, c1: Ctx, c2: Ctx)
    requires SameCtx(c1, c2)
    ensures SameCtx(Graft(e, c1), Graft(e, c2))
  {
    match e
    case Root =>
    case InL(up, _, _, _) => GraftSame(up, c1, c2);
    case InR(_, _, _, up) => GraftSame(up, c1, c2);
  }

  lemma {:induction false} SameGraft(d1: Ctx, d2: Ctx, c: Ctx)
    requires SameCtx(d1, d2)
    ensures SameCtx(Graft(d1, c), Graft(d2, c))
  {
    match d1
    case Root => SameCtxRefl(c);
    case InL(up, _, _, _) => SameGraft(up, d2.up, c);
    case InR(_, _, _, up) => SameGraft(up, d2.up, c);
  }

  lemma {:induction false} SameCtxRefl(c: Ctx)
    ensures SameCtx(c, c)
  {
    match c
    case Root =>
    case InL(up, _, _, _) => SameCtxRefl(up);
    case InR(_, _, _, up) => SameCtxRefl(up);
  }

  /** Nothing but the keys depends on the recorded keys. */
  lemma {:induction false} SameCtxFacts(c1: Ctx, c2: Ctx)
    requires SameCtx(c1, c2)
    ensures CtxNodes(c1) == CtxNodes(c2) && ParentOf(c1) == ParentOf(c2) && Depth(c1) == Depth(c2)
    ensures CtxDistinct(c1) == CtxDistinct(c2) && CtxSiblingsSized(c1) == CtxSiblingsSized(c2)
    ensures forall h :: CtxHeightsOk(c1, h) == CtxHeightsOk(c2, h)
    ensures forall h :: CtxBalanced(c1, h) == CtxBalanced(c2, h)
    ensures forall m :: CtxSizesOk(c1, m) == CtxSizesOk(c2, m)
    ensures forall ch :: CtxLinked(c1, ch) == CtxLinked(c2, ch)
  {
    match c1
    case Root =>
    case InL(up, _, _, _) => SameCtxFacts(up, c2.up);
    case InR(_, _, _, up) => SameCtxFacts(up, c2.up);
  }

  // ---------------------------------------------------------------------
  // Sorted sequences
  // ---------------------------------------------------------------------

  lemma SortedSplit(a: seq<int>, x: int, b: seq<int>)
    ensures Sorted(a + [x] + b) <==>
      Sorted(a) && Sorted(b) &&
      (forall i :: 0 <= i < |a| ==> a[i] <= x) && (forall j :: 0 <= j < |b| ==> x <= b[j])
  {
    var s := a + [x] + b;
    if Sorted(a) && Sorted(b) && (forall i :: 0 <= i < |a| ==> a[i] <= x) && (forall j :: 0 <= j < |b| ==> x <= b[j]) {
      forall i, j | 0 <= i < j < |s| ensures s[i] <= s[j] {
        if j < |a| {
        } else if i < |a| {
          if j > |a| { assert s[j] == b[j - |a| - 1]; }
        } else if i > |a| {
          assert s[i] == b[i - |a| - 1] && s[j] == b[j - |a| - 1];
        }
      }
    }
    if Sorted(s) {
      forall i, j | 0 <= i < j < |b| ensures b[i] <= b[j] {
        assert b[i] == s[|a| + 1 + i] && b[j] == s[|a| + 1 + j];
      }
      assert s[|a|] == x;
      forall j | 0 <= j < |b| ensures x <= b[j] {
        assert b[j] == s[|a| + 1 + j];
      }
      forall i | 0 <= i < |a| ensures a[i] <= x {
        assert a[i] == s[i];
      }
      assert a == s[..|a|];
    }
  }

  lemma SortedSub(s: seq<int>, lo: int, hi: int)
    requires Sorted(s) && 0 <= lo <= hi <= |s|
    ensures Sorted(s[lo..hi])
  {
  }

  /** Removing one element keeps a sequence sorted. */
  lemma SortedRemove(a: seq<int>, x: int, b: seq<int>)
    requires Sorted(a + [x] + b)
    ensures Sorted(a + b)
  {
    SortedSplit(a, x, b);
  }
}
