/**
 * The node operations of the earlier size-augmented tree BST/SizeBST.py,
 * on the shared `Node`. Its keys are distinct: `insert` refuses a key it
 * meets on the way down and adds one to every size on the path as the
 * recursion returns; `remove` subtracts one from every ancestor by
 * climbing the parent pointers; `rank` takes a flag saying whether a node
 * equal to the key is counted. BST/AVLTree.py repeats the bodies of
 * `insert`, `remove` and `rank` line for line, so these members stand for
 * both files; what that file lacks around them (a `size` field set by its
 * constructor) is noted beside the model.
 */
module CountedTree {
  import opened TreeShape
  import opened SortedKeys
  import opened TreeQueries
  import BstNode

  // ---------------------------------------------------------------------
  // Sizes off by a constant along a path
  // ---------------------------------------------------------------------

  /** Every node on the path of `c` records `d` more than the number of
      nodes below it, for a hole holding `m` nodes, and the subtrees beside
      the path have right sizes. With `d == 0` this is `CtxSizesOk`. */
  ghost predicate CtxSizesOff(c: Ctx, m: int, d: int)
    reads CtxNodes(c)`size
  {
    match c
    case Root => true
    case InL(up, n, k, r) => n.size == 1 + m + Count(r) + d && SizesOk(r) && CtxSizesOff(up, 1 + m + Count(r), d)
    case InR(l, n, k, up) => n.size == 1 + Count(l) + m + d && SizesOk(l) && CtxSizesOff(up, 1 + Count(l) + m, d)
  }

  /** The number of nodes a context holds, on its path and beside it. */
  function Gain(c: Ctx): nat
  {
    match c
    case Root => 0
    case InL(up, _, _, r) => Gain(up) + 1 + Count(r)
    case InR(l, _, _, up) => Gain(up) + 1 + Count(l)
  }

  lemma {:induction false} OffZero(c: Ctx, m: int)
    ensures CtxSizesOff(c, m, 0) == CtxSizesOk(c, m)
    decreases c
  {
    match c
    case Root =>
    case InL(up, n, k, r) => OffZero(up, 1 + m + Count(r));
    case InR(l, n, k, up) => OffZero(up, 1 + Count(l) + m);
  }

  /** One node more in the hole is one less of excess on the path. */
  lemma {:induction false} OffShift(c: Ctx, m: int, d: int)
    ensures CtxSizesOff(c, m + 1, d) == CtxSizesOff(c, m, d + 1)
    decreases c
  {
    match c
    case Root =>
    case InL(up, n, k, r) => OffShift(up, 1 + m + Count(r), d);
    case InR(l, n, k, up) => OffShift(up, 1 + Count(l) + m, d);
  }

  /** A path cut in two: the lower part sees the hole, the upper part sees
      the hole together with everything the lower part holds. */
  lemma {:induction false} GraftOff(lo: Ctx, hi: Ctx, m: int, d: int)
    ensures CtxSizesOff(Graft(lo, hi), m, d) == (CtxSizesOff(lo, m, d) && CtxSizesOff(hi, m + Gain(lo), d))
    decreases lo
  {
    match lo
    case Root =>
    case InL(up, n, k, r) => GraftOff(up, hi, 1 + m + Count(r), d);
    case InR(l, n, k, up) => GraftOff(up, hi, 1 + Count(l) + m, d);
  }

  lemma {:induction false} GainGraft(a: Ctx, b: Ctx)
    ensures Gain(Graft(a, b)) == Gain(a) + Gain(b)
    decreases a
  {
    match a
    case Root =>
    case InL(up, _, _, _) => GainGraft(up, b);
    case InR(_, _, _, up) => GainGraft(up, b);
  }

  /** Contexts that differ only in the keys they record agree on sizes. */
  lemma {:induction false} SameOff(c1: Ctx, c2: Ctx, m: int, d: int)
    requires SameCtx(c1, c2)
    ensures CtxSizesOff(c1, m, d) == CtxSizesOff(c2, m, d)
    decreases c1
  {
    match c1
    case Root =>
    case InL(up, n, k, r) => SameOff(up, c2.up, 1 + m + Count(r), d);
    case InR(l, n, k, up) => SameOff(up, c2.up, 1 + Count(l) + m, d);
  }

  /** Sizes that are off somewhere on the path are not right: the whole
      tree fails `check_ri`'s size test. */
  lemma OffNotOk(c: Ctx, s: Shape, d: int)
    requires c != Root && d != 0 && CtxSizesOff(c, Count(s), d)
    ensures !SizesOk(Plug(c, s))
  {
    PlugSizes(c, s);
  }

  // ---------------------------------------------------------------------
  // The size-update loop of remove
  // ---------------------------------------------------------------------

  /** The parent pointers along the path of `c` climb it. */
  ghost predicate Chain(c: Ctx)
    reads CtxNodes(c)`parent
  {
    match c
    case Root => true
    case InL(up, n, _, _) => n.parent == ParentOf(up) && Chain(up)
    case InR(_, n, _, up) => n.parent == ParentOf(up) && Chain(up)
  }

  lemma {:induction false} ChainOf(c: Ctx, child: Node?)
    requires CtxLinked(c, child)
    ensures Chain(c)
    decreases c
  {
    match c
    case Root =>
    case InL(up, n, _, _) => ChainOf(up, n);
    case InR(_, n, _, up) => ChainOf(up, n);
  }

  /** The subtree beside the hole's parent. */
  function Beside(c: Ctx): Shape
    requires c != Root
  {
    if c.InL? then c.r else c.l
  }

  /** The hole's parent alone, as a context of one level. */
  function One(c: Ctx): Ctx
    requires c != Root
  {
    match c
    case InL(_, n, k, r) => InL(Root, n, k, r)
    case InR(l, n, k, _) => InR(l, n, k, Root)
  }

  /** The loop has walked the lower part `lo` of the path of `c`, whose
      excess is down to `d - 1`; the upper part `hi` still has excess `d`. */
  ghost predicate Walked(c: Ctx, lo: Ctx, hi: Ctx, m: int, d: int)
    reads CtxNodes(c)`size, CtxNodes(c)`parent
  {
    c == Graft(lo, hi) && CtxNodes(lo) + CtxNodes(hi) == CtxNodes(c) && CtxNodes(lo) !! CtxNodes(hi) &&
    CtxDistinct(hi) && Chain(hi) && CtxSizesOff(lo, m, d - 1) && CtxSizesOff(hi, m + Gain(lo), d)
  }

  /** What `Walked` says apart from the size of the next node to visit. */
  ghost predicate Aside(c: Ctx, lo: Ctx, hi: Ctx, m: int, d: int)
    requires hi != Root
    reads CtxNodes(lo)`size, Nodes(Beside(hi))`size, CtxNodes(hi.up)`size, CtxNodes(hi.up)`parent
  {
    c == Graft(lo, hi) && CtxNodes(lo) + CtxNodes(hi) == CtxNodes(c) && CtxNodes(lo) !! CtxNodes(hi) &&
    CtxDistinct(hi) && Chain(hi.up) && CtxSizesOff(lo, m, d - 1) && SizesOk(Beside(hi)) &&
    CtxSizesOff(hi.up, m + Gain(lo) + 1 + Count(Beside(hi)), d)
  }

  lemma Split(c: Ctx, lo: Ctx, hi: Ctx, m: int, d: int)
    requires hi != Root && Walked(c, lo, hi, m, d)
    ensures Aside(c, lo, hi, m, d) && hi.n in CtxNodes(c) && hi.n.parent == ParentOf(hi.up)
    ensures hi.n !in CtxNodes(lo) + Nodes(Beside(hi)) + CtxNodes(hi.up)
    ensures hi.n.size == 1 + m + Gain(lo) + Count(Beside(hi)) + d
  {
  }

  lemma OneFacts(hi: Ctx)
    requires hi != Root
    ensures CtxNodes(One(hi)) == {hi.n} + Nodes(Beside(hi)) && Gain(One(hi)) == 1 + Count(Beside(hi))
    ensures Graft(One(hi), hi.up) == hi && CtxNodes(hi) == CtxNodes(One(hi)) + CtxNodes(hi.up)
  {
  }

  /** The walked part grown by one level still splits the path. */
  lemma AdvanceNodes(c: Ctx, lo: Ctx, hi: Ctx)
    requires hi != Root && c == Graft(lo, hi) && CtxNodes(lo) + CtxNodes(hi) == CtxNodes(c)
    requires CtxNodes(lo) !! CtxNodes(hi) && CtxDistinct(hi)
    ensures c == Graft(Graft(lo, One(hi)), hi.up) && CtxDistinct(hi.up)
    ensures CtxNodes(Graft(lo, One(hi))) + CtxNodes(hi.up) == CtxNodes(c)
    ensures CtxNodes(Graft(lo, One(hi))) !! CtxNodes(hi.up)
    ensures Gain(Graft(lo, One(hi))) == Gain(lo) + 1 + Count(Beside(hi))
  {
    var o := One(hi);
    OneFacts(hi);
    GraftNodes(lo, o);
    GainGraft(lo, o);
    GraftAssoc(lo, o, hi.up);
  }

  /** The sizes of the walked part grown by one level. */
  lemma AdvanceSizes(lo: Ctx, hi: Ctx, m: int, d: int)
    requires hi != Root && CtxSizesOff(lo, m, d - 1) && SizesOk(Beside(hi))
    requires hi.n.size == 1 + m + Gain(lo) + Count(Beside(hi)) + d - 1
    ensures CtxSizesOff(Graft(lo, One(hi)), m, d - 1)
  {
    var o := One(hi);
    assert CtxSizesOff(o, m + Gain(lo), d - 1);
    GraftOff(lo, o, m, d - 1);
  }

  /** After the visit of `hi.n` the walked part takes it in. */
  lemma Advance(c: Ctx, lo: Ctx, hi: Ctx, m: int, d: int)
    requires hi != Root && Aside(c, lo, hi, m, d)
    requires hi.n !in CtxNodes(lo) + Nodes(Beside(hi)) + CtxNodes(hi.up)
    requires hi.n.parent == ParentOf(hi.up) && hi.n.size == 1 + m + Gain(lo) + Count(Beside(hi)) + d - 1
    ensures Walked(c, Graft(lo, One(hi)), hi.up, m, d)
  {
    AdvanceNodes(c, lo, hi);
    AdvanceSizes(lo, hi, m, d);
  }

  /** What the size-update loop needs of the path `c`. */
  ghost predicate Climbable(c: Ctx, m: int, d: int)
    reads CtxNodes(c)`size, CtxNodes(c)`parent
  {
    Chain(c) && CtxDistinct(c) && CtxSizesOff(c, m, d)
  }

  /** The `while parent` loop of SizeBSTNode.remove: one is subtracted from
      the size of `p` and of every node above it, so the excess along the
      path drops by one. */
  method DecrementAncestors(p: Node?, ghost c: Ctx, ghost m: int, ghost d: int)
    requires p == ParentOf(c) && Climbable(c, m, d)
    modifies CtxNodes(c)`size
    ensures CtxSizesOff(c, m, d - 1)
  {
    var parent := p;
    ghost var lo, hi := Root, c;
    while parent != null
      invariant parent == ParentOf(hi) && Walked(c, lo, hi, m, d)
      decreases Depth(hi)
    {
      Split(c, lo, hi, m, d);
      parent.size := parent.size - 1;
      parent := parent.parent;
      Advance(c, lo, hi, m, d);
      lo, hi := Graft(lo, One(hi)), hi.up;
    }
    GraftRoot(lo);
  }

  // ---------------------------------------------------------------------
  // remove
  // ---------------------------------------------------------------------

  /** The subtree `x` hangs below the path `c`, with its sizes right. */
  ghost predicate Hooked(c: Ctx, x: Shape)
    requires c != Root
    reads Nodes(x)`left, Nodes(x)`right, Nodes(x)`parent, Nodes(x)`size
    reads CtxNodes(c)`left, CtxNodes(c)`right, CtxNodes(c)`parent
  {
    Linked(x, c.n) && CtxLinked(c, Top(x)) && SizesOk(x)
  }

  /** What splicing out `self`, the top of `s` below the path `c`, needs:
      `self` has at most one child and everything is linked and distinct. */
  ghost predicate Detachable(self: Node, c: Ctx, s: Shape)
    reads Nodes(s)`left, Nodes(s)`right, Nodes(s)`parent, Nodes(s)`size
    reads CtxNodes(c)`left, CtxNodes(c)`right, CtxNodes(c)`parent
  {
    s.Br? && s.n == self && (s.l.Nil? || s.r.Nil?) && c != Root &&
    Linked(s, c.n) && CtxLinked(c, self) &&
    Distinct(s) && CtxDistinct(c) && CtxNodes(c) !! Nodes(s) && SizesOk(s)
  }

  /** The relinking half of the one-child case: `self` is spliced out as in
      the plain tree; no size changes yet. */
  method Detach(self: Node, ghost c: Ctx, ghost s: Shape) returns (ghost x: Shape)
    requires Detachable(self, c, s)
    modifies c.n`left, c.n`right, (Nodes(s.l) + Nodes(s.r))`parent
    ensures x == (if s.l.Nil? then s.r else s.l)
    ensures Hooked(c, x) && self.parent == c.n
  {
    NodesAllocated(s);
    x := BstNode.Splice(self, c, s);
  }

  /** The one-child case of SizeBSTNode.remove: `self` is spliced out as in
      the plain tree, then every node above it loses one from its size. An
      excess `d` already on the path stays as it was. */
  method SpliceOut(self: Node, ghost c: Ctx, ghost s: Shape, ghost d: int) returns (ghost x: Shape)
    requires Detachable(self, c, s) && CtxSizesOff(c, Count(s), d)
    modifies c.n`left, c.n`right, (Nodes(s.l) + Nodes(s.r))`parent, CtxNodes(c)`size
    ensures x == (if s.l.Nil? then s.r else s.l)
    ensures Hooked(c, x) && self.parent == c.n && CtxSizesOff(c, Count(x), d)
  {
    CtxNodesAllocated(c);
    assert Climbable(c, Count(s) - 1, d + 1) by {
      OffShift(c, Count(s) - 1, d);
      ChainOf(c, self);
    }
    x := Detach(self, c, s);
    NodesAllocated(x);
    assert Count(x) == Count(s) - 1;
    DecrementAncestors(self.parent, c, Count(x), d + 1);
  }

  /** `self`, the top of `s`, hangs below the path `c` in a tree whose
      links, keys and sizes are right. */
  ghost predicate Hangs(self: Node, c: Ctx, s: Shape)
    reads Nodes(s)`left, Nodes(s)`right, Nodes(s)`parent, Nodes(s)`size, Nodes(s)`key
    reads CtxNodes(c)`left, CtxNodes(c)`right, CtxNodes(c)`parent, CtxNodes(c)`size
  {
    s.Br? && s.n == self && c != Root &&
    Linked(s, c.n) && CtxLinked(c, self) && KeysOk(s) &&
    Distinct(s) && CtxDistinct(c) && CtxNodes(c) !! Nodes(s) && SizesOk(s) && CtxSizesOk(c, Count(s))
  }

  /** Where the successor sits, and what holds there before the keys are
      traded. */
  lemma SuccessorFacts(self: Node, c: Ctx, s: Shape, e: Ctx, m: Shape, d: Ctx)
    requires Hangs(self, c, s) && s.l.Br? && s.r.Br?
    requires e == BstNode.LeftmostPath(s.r, Root) && m == BstNode.Leftmost(s.r)
    requires d == Graft(e, InR(s.l, self, m.k, c))
    ensures Detachable(m.n, d, m) && Climbable(d, Count(m), 0) && CtxNodes(d) !! Nodes(m)
    ensures Swappable(self, s.l, e, m, d) && m.n.key == m.k
    ensures Nodes(m) <= Nodes(s) && CtxNodes(d) <= CtxNodes(c) + Nodes(s) && d != Root && d.n in Nodes(s)
  {
    PlugSizes(c, s);
    BstNode.SuccessorPlace(self, c, s, e, m, d, m.k);
    ghost var d0 := Graft(e, InR(s.l, self, s.k, c));
    PlugSizes(d0, m);
    OffZero(d0, Count(m));
    SameOff(d0, d, Count(m), 0);
    ChainOf(d, m.n);
    PlugKeysOk(e, m);
    PlugDistinct(e, m);
    SameCtxFacts(d0, d);
    PlugNodes(d0, m);
    PlugNodes(c, s);
  }

  /** What the key exchange needs: the successor `m.n` hangs below `d`, and
      neither it nor `self` is in the parts whose keys must stay right. */
  ghost predicate Swappable(self: Node, l: Shape, e: Ctx, m: Shape, d: Ctx)
    reads Nodes(m)`left, Nodes(m)`right, Nodes(m)`parent, Nodes(m)`key
    reads CtxNodes(d)`left, CtxNodes(d)`right, CtxNodes(d)`parent
    reads Nodes(l)`key, CtxNodes(e)`key
  {
    d != Root && m.Br? && Linked(m, d.n) && CtxLinked(d, m.n) &&
    KeysOk(l) && CtxKeysOk(e) && KeysOk(m.r) &&
    self !in Nodes(l) + CtxNodes(e) + Nodes(m.r) && m.n !in Nodes(l) + CtxNodes(e) + Nodes(m.r)
  }

  /** The key exchange of the two-child case, which leaves the successor
      ready to be spliced out. */
  method Trade(self: Node, succ: Node, ghost l: Shape, ghost e: Ctx, ghost m: Shape, ghost d: Ctx)
    requires m.Br? && succ == m.n && Swappable(self, l, e, m, d) && Detachable(succ, d, m)
    requires Climbable(d, Count(m), 0) && CtxNodes(d) !! Nodes(m)
    modifies self`key, succ`key
    ensures self.key == old(succ.key) && succ.key == old(self.key)
    ensures Detachable(succ, d, m) && Climbable(d, Count(m), 0) && CtxNodes(d) !! Nodes(m)
    ensures KeysOk(l) && CtxKeysOk(e) && KeysOk(m.r)
  {
    NodesAllocated(m);
    CtxNodesAllocated(d);
    BstNode.SwapKeys(self, succ, l, e, m, d);
  }

  /** The keys that stay where they are in the two-child case are right,
      and `self` holds the successor's key. */
  ghost predicate KeysKept(self: Node, l: Shape, e: Ctx, m: Shape)
    requires m.Br?
    reads self`key, Nodes(l)`key, CtxNodes(e)`key, Nodes(m.r)`key
  {
    KeysOk(l) && CtxKeysOk(e) && KeysOk(m.r) && self.key == m.k
  }

  /** The state between the key exchange of the two-child case and the
      splice: `succ`, the successor, carries the key of `self` and sits at
      the top of `m`, ready to be spliced out from below the path `d`. */
  ghost predicate Promoted(self: Node, succ: Node, c: Ctx, s: Shape, e: Ctx, m: Shape, d: Ctx)
    reads self`key, succ`key, Nodes(s)`key, CtxNodes(e)`key
    reads Nodes(m)`left, Nodes(m)`right, Nodes(m)`parent, Nodes(m)`size, Nodes(m)`key
    reads CtxNodes(d)`left, CtxNodes(d)`right, CtxNodes(d)`parent
  {
    s.Br? && s.n == self && s.r.Br? && c != Root &&
    e == BstNode.LeftmostPath(s.r, Root) && m == BstNode.Leftmost(s.r) && succ == m.n &&
    d == Graft(e, InR(s.l, self, m.k, c)) && succ.key == s.k &&
    Detachable(succ, d, m) && KeysKept(self, s.l, e, m)
  }

  /** The first half of the two-child case of SizeBSTNode.remove: `self`
      trades keys with its successor `succ`, the top of the subtree `m` at
      the end of the left spine `e` of the right subtree. Below the path `d`
      (relabelled with the successor's key for `self`) the successor can be
      spliced out, and all sizes are still right. */
  method Promote(self: Node, ghost c: Ctx, ghost s: Shape)
    returns (succ: Node, ghost e: Ctx, ghost m: Shape, ghost d: Ctx)
    requires Hangs(self, c, s) && s.l.Br? && s.r.Br?
    modifies Nodes(s)`key
    ensures Promoted(self, succ, c, s, e, m, d) && Climbable(d, Count(m), 0) && CtxNodes(d) !! Nodes(m)
    ensures Nodes(m) <= Nodes(s) && CtxNodes(d) <= CtxNodes(c) + Nodes(s) && d != Root && d.n in Nodes(s)
    ensures succ.parent == d.n
  {
    NodesAllocated(s);
    CtxNodesAllocated(c);
    succ := BstNode.NextLarger(self, c, s);
    e, m := BstNode.LeftmostPath(s.r, Root), BstNode.Leftmost(s.r);
    d := Graft(e, InR(s.l, self, m.k, c));
    assert succ == m.n by { BstNode.LeftmostSpec(s.r, Root); }
    SuccessorFacts(self, c, s, e, m, d);
    Trade(self, succ, s.l, e, m, d);
  }

  /** The pieces of the two-child case put back together: `t` is the subtree
      left at `self` once the successor `m.n` is gone, below the context `dd`
      inside `t` (and `d` in the whole tree); `dd0` is where the successor
      sat inside `s`. */
  lemma Reassembled(s: Shape, c: Ctx, e: Ctx, m: Shape, d: Ctx, x: Shape, t: Shape)
    requires s.Br? && s.r.Br? && e == BstNode.LeftmostPath(s.r, Root) && m == BstNode.Leftmost(s.r)
    requires d == Graft(e, InR(s.l, s.n, m.k, c)) && x == m.r && t == Br(s.l, s.n, m.k, Plug(e, x))
    ensures var dd0, dd := Graft(e, InR(s.l, s.n, s.k, Root)), Graft(e, InR(s.l, s.n, m.k, Root));
      s == Plug(dd0, Br(Nil, m.n, m.k, x)) && SameCtx(dd0, dd) && Graft(dd, c) == d &&
      Plug(dd, x) == t && Plug(d, x) == Plug(c, t) && Keys(t) == Keys(s.l) + Keys(s.r)
  {
    BstNode.RemoveContexts(s, e, m, c);
    BstNode.RemoveKeys(s, e, m);
    GraftPlug(Graft(e, InR(s.l, s.n, m.k, Root)), c, x);
  }

  /** What the two-child case leaves behind, from what its steps ensure:
      the successor's subtree `x` hangs in its place below `d`, the keys
      that stayed put are right, and the sizes on `d` are off by `excess`. */
  lemma ViaSuccessorDone(self: Node, c: Ctx, s: Shape, e: Ctx, m: Shape, d: Ctx, x: Shape,
                         dd0: Ctx, dd: Ctx, t: Shape, excess: int)
    requires s.Br? && s.n == self && s.r.Br? && c != Root
    requires e == BstNode.LeftmostPath(s.r, Root) && m == BstNode.Leftmost(s.r)
    requires d == Graft(e, InR(s.l, self, m.k, c)) && x == m.r && t == Br(s.l, self, m.k, Plug(e, x))
    requires dd0 == Graft(e, InR(s.l, self, s.k, Root)) && dd == Graft(e, InR(s.l, self, m.k, Root))
    requires Hooked(d, x) && KeysKept(self, s.l, e, m) && CtxSizesOff(d, Count(x), excess)
    ensures s == Plug(dd0, Br(Nil, m.n, m.k, x)) && SameCtx(dd0, dd) && Plug(dd, x) == t
    ensures Keys(t) == Keys(s.l) + Keys(s.r) && KeysOk(t)
    ensures Linked(x, ParentOf(Graft(dd, c))) && CtxLinked(Graft(dd, c), Top(x))
    ensures excess == 0 ==> SizesOk(Plug(c, t))
    ensures excess != 0 ==> CtxSizesOff(Graft(dd, c), Count(x), excess) && !SizesOk(Plug(c, t))
  {
    Reassembled(s, c, e, m, d, x, t);
    PlugKeysOk(e, x);
    if excess == 0 {
      OffZero(d, Count(x));
      PlugSizes(d, x);
    } else {
      OffNotOk(d, x, excess);
    }
  }

  /** The second half of the two-child case: the successor is spliced out
      and the sizes above it lose one, or, with `doubled` set as in the code
      as written, two. */
  method SpliceSuccessor(self: Node, succ: Node, ghost c: Ctx, ghost s: Shape, ghost e: Ctx, ghost m: Shape,
                         ghost d: Ctx, doubled: bool)
    returns (ghost rk: int, ghost dd0: Ctx, ghost dd: Ctx, ghost x: Shape, ghost t: Shape)
    requires Promoted(self, succ, c, s, e, m, d) && Climbable(d, Count(m), 0) && CtxNodes(d) !! Nodes(m)
    requires succ.parent == d.n
    modifies d.n`left, d.n`right, (Nodes(m.l) + Nodes(m.r))`parent, CtxNodes(d)`size
    ensures succ.key == s.k
    ensures s == Plug(dd0, Br(Nil, succ, rk, x))
    ensures SameCtx(dd0, dd) && succ.parent == ParentOf(Graft(dd, c))
    ensures Plug(dd, x) == t
    ensures Keys(t) == Keys(s.l) + Keys(s.r) && KeysOk(t)
    ensures Linked(x, ParentOf(Graft(dd, c))) && CtxLinked(Graft(dd, c), Top(x))
    ensures !doubled ==> SizesOk(Plug(c, t))
    ensures doubled ==> CtxSizesOff(Graft(dd, c), Count(x), -1) && !SizesOk(Plug(c, t))
  {
    NodesAllocated(m);
    CtxNodesAllocated(d);
    NodesAllocated(s.l);
    CtxNodesAllocated(e);
    ghost var excess := if doubled then -1 else 0;
    if doubled {
      DecrementAncestors(succ.parent, d, Count(m), 0);
    }
    x := SpliceOut(succ, d, m, excess);
    t := Br(s.l, self, m.k, Plug(e, x));
    rk := m.k;
    dd0, dd := Graft(e, InR(s.l, self, s.k, Root)), Graft(e, InR(s.l, self, m.k, Root));
    ViaSuccessorDone(self, c, s, e, m, d, x, dd0, dd, t, excess);
  }

  /** The two-child case of SizeBSTNode.remove. With `doubled` set it is
      the code as written, which runs the size-update loop from the
      successor's parent before the recursive call runs it again, so every
      node above the successor ends up one short; without it the loop runs
      once and every size is right. */
  method RemoveViaSuccessor(self: Node, ghost c: Ctx, ghost s: Shape, doubled: bool)
    returns (r: Node, ghost rk: int, ghost dd0: Ctx, ghost dd: Ctx, ghost x: Shape, ghost t: Shape)
    requires Hangs(self, c, s) && s.l.Br? && s.r.Br?
    modifies Nodes(s)`key, Nodes(s)`left, Nodes(s)`right, Nodes(s)`parent, Nodes(s)`size, CtxNodes(c)`size
    ensures r in Nodes(s) && r.key == s.k
    ensures s == Plug(dd0, Br(Nil, r, rk, x))
    ensures SameCtx(dd0, dd) && r.parent == ParentOf(Graft(dd, c))
    ensures Plug(dd, x) == t
    ensures Keys(t) == Keys(s.l) + Keys(s.r) && KeysOk(t)
    ensures Linked(x, ParentOf(Graft(dd, c))) && CtxLinked(Graft(dd, c), Top(x))
    ensures !doubled ==> SizesOk(Plug(c, t))
    ensures doubled ==> CtxSizesOff(Graft(dd, c), Count(x), -1) && !SizesOk(Plug(c, t))
  {
    var succ;
    ghost var e, m, d;
    succ, e, m, d := Promote(self, c, s);
    rk, dd0, dd, x, t := SpliceSuccessor(self, succ, c, s, e, m, d, doubled);
    r := succ;
  }

  /** The one-child case of SizeBSTNode.remove as a whole. */
  method RemoveSpliced(self: Node, ghost c: Ctx, ghost s: Shape)
    returns (r: Node, ghost rk: int, ghost dd0: Ctx, ghost dd: Ctx, ghost x: Shape, ghost t: Shape)
    requires Hangs(self, c, s) && (s.l.Nil? || s.r.Nil?)
    modifies c.n`left, c.n`right, (Nodes(s.l) + Nodes(s.r))`parent, CtxNodes(c)`size
    ensures r in Nodes(s) && r.key == s.k
    ensures s == Plug(dd0, Br(Nil, r, rk, x)) || s == Plug(dd0, Br(x, r, rk, Nil))
    ensures SameCtx(dd0, dd) && r.parent == ParentOf(Graft(dd, c))
    ensures Plug(dd, x) == t
    ensures Keys(t) == Keys(s.l) + Keys(s.r) && KeysOk(t)
    ensures Linked(x, ParentOf(Graft(dd, c))) && CtxLinked(Graft(dd, c), Top(x))
    ensures SizesOk(Plug(c, t))
  {
    NodesAllocated(s);
    CtxNodesAllocated(c);
    assert Detachable(self, c, s) && CtxSizesOff(c, Count(s), 0) by {
      OffZero(c, Count(s));
    }
    x := SpliceOut(self, c, s, 0);
    r, rk, dd0, dd, t := self, s.k, Root, Root, x;
    SameCtxRefl(Root);
    OffZero(c, Count(x));
    PlugSizes(c, x);
  }

  /** SizeBSTNode.remove as written: right in the one-child case; in the
      two-child case every node above the successor, up to the root, ends
      up with a size one short of its subtree, so the tree fails the size
      test of check_ri. Links and keys come out as in BSTNode.remove. */
  method RemoveAsWritten(self: Node, ghost c: Ctx, ghost s: Shape)
    returns (r: Node, ghost rk: int, ghost dd0: Ctx, ghost dd: Ctx, ghost x: Shape, ghost t: Shape)
    requires Hangs(self, c, s)
    modifies Nodes(s)`key, Nodes(s)`left, Nodes(s)`right, Nodes(s)`parent, Nodes(s)`size
    modifies c.n`left, c.n`right, CtxNodes(c)`size
    ensures r in Nodes(s) && r.key == s.k
    ensures s == Plug(dd0, Br(Nil, r, rk, x)) || s == Plug(dd0, Br(x, r, rk, Nil))
    ensures SameCtx(dd0, dd) && r.parent == ParentOf(Graft(dd, c))
    ensures Plug(dd, x) == t
    ensures Keys(t) == Keys(s.l) + Keys(s.r) && KeysOk(t)
    ensures Linked(x, ParentOf(Graft(dd, c))) && CtxLinked(Graft(dd, c), Top(x))
    ensures s.l.Nil? || s.r.Nil? ==> SizesOk(Plug(c, t))
    ensures s.l.Br? && s.r.Br? ==> CtxSizesOff(Graft(dd, c), Count(x), -1) && !SizesOk(Plug(c, t))
  {
    if self.left == null || self.right == null {
      r, rk, dd0, dd, x, t := RemoveSpliced(self, c, s);
    } else {
      r, rk, dd0, dd, x, t := RemoveViaSuccessor(self, c, s, true);
    }
  }

  /** SizeBSTNode.remove with the size-update loop of the two-child case run
      once: the node with key `s.k` leaves the tree, as in BSTNode.remove,
      and every size in the whole tree is right afterwards. */
  method Remove(self: Node, ghost c: Ctx, ghost s: Shape)
    returns (r: Node, ghost rk: int, ghost dd0: Ctx, ghost dd: Ctx, ghost x: Shape, ghost t: Shape)
    requires Hangs(self, c, s)
    modifies Nodes(s)`key, Nodes(s)`left, Nodes(s)`right, Nodes(s)`parent, Nodes(s)`size
    modifies c.n`left, c.n`right, CtxNodes(c)`size
    ensures r in Nodes(s) && r.key == s.k
    ensures s == Plug(dd0, Br(Nil, r, rk, x)) || s == Plug(dd0, Br(x, r, rk, Nil))
    ensures SameCtx(dd0, dd) && r.parent == ParentOf(Graft(dd, c))
    ensures Plug(dd, x) == t
    ensures Keys(t) == Keys(s.l) + Keys(s.r) && KeysOk(t)
    ensures Linked(x, ParentOf(Graft(dd, c))) && CtxLinked(Graft(dd, c), Top(x))
    ensures SizesOk(Plug(c, t))
  {
    if self.left == null || self.right == null {
      r, rk, dd0, dd, x, t := RemoveSpliced(self, c, s);
    } else {
      r, rk, dd0, dd, x, t := RemoveViaSuccessor(self, c, s, false);
    }
  }

  // ---------------------------------------------------------------------
  // insert
  // ---------------------------------------------------------------------

  lemma StrictSplit(a: seq<int>, x: int, b: seq<int>)
    requires StrictlySorted(a + [x] + b)
    ensures StrictlySorted(a) && StrictlySorted(b)
    ensures (forall y :: y in a ==> y < x) && (forall y :: y in b ==> x < y)
  {
    var s := a + [x] + b;
    assert s[|a|] == x;
    forall i, j | 0 <= i < j < |b| ensures b[i] < b[j] {
      assert b[i] == s[|a| + 1 + i] && b[j] == s[|a| + 1 + j];
    }
    forall y | y in b ensures x < y {
      var j :| 0 <= j < |b| && b[j] == y;
      assert b[j] == s[|a| + 1 + j];
    }
    forall y | y in a ensures y < x {
      var i :| 0 <= i < |a| && a[i] == y;
      assert a[i] == s[i];
    }
    assert a == s[..|a|];
  }

  /** The insertion place below `c` is the one below the root, moved into `c`. */
  lemma {:induction false} InsertPathGraft(s: Shape, k: int, c: Ctx)
    ensures BstNode.InsertPath(s, k, c) == Graft(BstNode.InsertPath(s, k, Root), c)
    decreases s
  {
    match s
    case Nil =>
    case Br(l, n, j, r) =>
      if k < j {
        InsertPathGraft(l, k, InL(c, n, j, r));
        InsertPathGraft(l, k, InL(Root, n, j, r));
        GraftAssoc(BstNode.InsertPath(l, k, Root), InL(Root, n, j, r), c);
      } else {
        InsertPathGraft(r, k, InR(l, n, j, c));
        InsertPathGraft(r, k, InR(l, n, j, Root));
        GraftAssoc(BstNode.InsertPath(r, k, Root), InR(l, n, j, Root), c);
      }
  }

  /** The subtree `s` once the leaf `leaf` is hung at the insertion place of
      `k`: one node more, grown on the side the comparison with the top key
      chose. */
  function Grown(s: Shape, k: int, leaf: Shape): Shape
  {
    Plug(BstNode.InsertPath(s, k, Root), leaf)
  }

  lemma GrownFacts(s: Shape, k: int, leaf: Shape)
    requires s.Br? && leaf.Br? && leaf.l.Nil? && leaf.r.Nil?
    ensures k < s.k ==> Grown(s, k, leaf) == Br(Grown(s.l, k, leaf), s.n, s.k, s.r)
    ensures s.k <= k ==> Grown(s, k, leaf) == Br(s.l, s.n, s.k, Grown(s.r, k, leaf))
    ensures Count(Grown(s, k, leaf)) == Count(s) + 1
    ensures Nodes(Grown(s, k, leaf)) == Nodes(s) + {leaf.n}
  {
    var d := BstNode.InsertPath(s, k, Root);
    if k < s.k {
      InsertPathGraft(s.l, k, InL(Root, s.n, s.k, s.r));
      GraftPlug(BstNode.InsertPath(s.l, k, Root), InL(Root, s.n, s.k, s.r), leaf);
    } else {
      InsertPathGraft(s.r, k, InR(s.l, s.n, s.k, Root));
      GraftPlug(BstNode.InsertPath(s.r, k, Root), InR(s.l, s.n, s.k, Root), leaf);
    }
    BstNode.InsertPathPlug(s, k, Root);
    PlugCount(d, Nil, leaf);
    PlugNodes(d, Nil);
    PlugNodes(d, leaf);
  }

  lemma PlaceNodes(s: Shape, k: int, c: Ctx, leaf: Shape)
    ensures Nodes(Plug(c, s)) == CtxNodes(c) + Nodes(s)
    ensures Nodes(Plug(BstNode.InsertPath(s, k, c), leaf)) == CtxNodes(c) + Nodes(s) + Nodes(leaf)
    ensures Nodes(Grown(s, k, leaf)) == Nodes(s) + Nodes(leaf)
  {
    var d := BstNode.InsertPath(s, k, c);
    var d0 := BstNode.InsertPath(s, k, Root);
    PlugNodes(c, s);
    BstNode.InsertPathPlug(s, k, c);
    BstNode.InsertPathPlug(s, k, Root);
    PlugNodes(d, Nil);
    PlugNodes(d, leaf);
    PlugNodes(d0, Nil);
    PlugNodes(d0, leaf);
  }

  /** What an insertion below `self` needs: `s` hangs in a linked tree with
      no repeated node, its keys are right and distinct and its sizes are
      right, and `node` is a detached leaf of size one outside the tree. */
  ghost predicate Insertable(self: Node, node: Node, c: Ctx, s: Shape)
    reads Nodes(s), CtxNodes(c), node
  {
    PlugNodes(c, s);
    s.Br? && s.n == self && KeysOk(s) && StrictlySorted(Keys(s)) && SizesOk(s) &&
    Linked(Plug(c, s), null) && Distinct(Plug(c, s)) &&
    node !in Nodes(Plug(c, s)) && node.left == null && node.right == null && node.size == 1
  }

  /** What an insertion below `self` ensures: with `ok` the leaf hangs at the
      insertion place of its key and the sizes of the grown subtree are
      right; without it the tree is as it was. */
  ghost predicate Inserted(ok: bool, node: Node, c: Ctx, s: Shape)
    reads Nodes(s), CtxNodes(c), node
  {
    PlaceNodes(s, node.key, c, Br(Nil, node, node.key, Nil));
    (ok ==> Linked(Plug(BstNode.InsertPath(s, node.key, c), Br(Nil, node, node.key, Nil)), null) &&
            SizesOk(Grown(s, node.key, Br(Nil, node, node.key, Nil)))) &&
    (!ok ==> Linked(Plug(c, s), null) && SizesOk(s) && node.parent == null)
  }

  /** SizeBSTNode.insert: a key already on the comparison path refuses the
      detached leaf `node`; otherwise the leaf is hung at the end of the path
      and, as the recursion returns, every node on the path counts one more.
      In a subtree with distinct keys the key is met exactly when it is
      there. */
  method Insert(self: Node, node: Node, ghost c: Ctx, ghost s: Shape) returns (ok: bool)
    requires Insertable(self, node, c, s) && node.parent == null
    modifies Nodes(s)`left, Nodes(s)`right, Nodes(s)`size, node`parent
    ensures (ok <==> node.key !in Keys(s)) && Inserted(ok, node, c, s)
    decreases s, 1
  {
    if node.key == self.key {
      ok := false;
    } else if node.key < self.key {
      ok := InsertLeft(self, node, c, s);
    } else {
      ok := InsertRight(self, node, c, s);
    }
  }

  /** Descending into a non-empty child keeps what an insertion needs. */
  lemma EnterLeft(self: Node, node: Node, c: Ctx, s: Shape)
    requires Insertable(self, node, c, s) && node.key < s.k && self.left != null
    ensures s.l.Br? && Insertable(s.l.n, node, InL(c, self, s.k, s.r), s.l) && self.left == s.l.n
    ensures node.key in Keys(s) <==> node.key in Keys(s.l)
    ensures SizesOk(s.r) && self.size == Count(s) && Nodes(s.r) !! Nodes(s.l) + {node}
    ensures self !in Nodes(s.l) + Nodes(s.r) + {node}
  {
    PlugLinked(c, s);
    PlugDistinct(c, s);
    PlugNodes(c, s);
    StrictSplit(Keys(s.l), s.k, Keys(s.r));
  }

  lemma EnterRight(self: Node, node: Node, c: Ctx, s: Shape)
    requires Insertable(self, node, c, s) && s.k < node.key && self.right != null
    ensures s.r.Br? && Insertable(s.r.n, node, InR(s.l, self, s.k, c), s.r) && self.right == s.r.n
    ensures node.key in Keys(s) <==> node.key in Keys(s.r)
    ensures SizesOk(s.l) && self.size == Count(s) && Nodes(s.l) !! Nodes(s.r) + {node}
    ensures self !in Nodes(s.l) + Nodes(s.r) + {node}
  {
    PlugLinked(c, s);
    PlugDistinct(c, s);
    PlugNodes(c, s);
    StrictSplit(Keys(s.l), s.k, Keys(s.r));
  }

  /** Back from the recursive call into the left child: the outcome below
      is the outcome here. */
  lemma LeaveLeft(ok: bool, self: Node, node: Node, c: Ctx, s: Shape)
    requires s.Br? && s.n == self && node.key < s.k
    requires Inserted(ok, node, InL(c, self, s.k, s.r), s.l)
    requires ok ==> SizesOk(Grown(s, node.key, Br(Nil, node, node.key, Nil)))
    requires !ok ==> SizesOk(s.r) && self.size == Count(s)
    ensures Inserted(ok, node, c, s)
  {
    PlaceNodes(s, node.key, c, Br(Nil, node, node.key, Nil));
    assert Plug(InL(c, self, s.k, s.r), s.l) == Plug(c, s);
  }

  lemma LeaveRight(ok: bool, self: Node, node: Node, c: Ctx, s: Shape)
    requires s.Br? && s.n == self && s.k < node.key
    requires Inserted(ok, node, InR(s.l, self, s.k, c), s.r)
    requires ok ==> SizesOk(Grown(s, node.key, Br(Nil, node, node.key, Nil)))
    requires !ok ==> SizesOk(s.l) && self.size == Count(s)
    ensures Inserted(ok, node, c, s)
  {
    PlaceNodes(s, node.key, c, Br(Nil, node, node.key, Nil));
    assert Plug(InR(s.l, self, s.k, c), s.r) == Plug(c, s);
  }

  /** A subtree whose left child grew by one counts one more. */
  lemma GrownLeft(self: Node, s: Shape, leaf: Shape)
    requires s.Br? && s.n == self && s.l.Br? && leaf.Br? && leaf.l.Nil? && leaf.r.Nil? && leaf.k < s.k
    requires SizesOk(Grown(s.l, leaf.k, leaf)) && SizesOk(s.r) && self.size == Count(s) + 1
    ensures SizesOk(Grown(s, leaf.k, leaf))
  {
    GrownFacts(s, leaf.k, leaf);
  }

  lemma GrownRight(self: Node, s: Shape, leaf: Shape)
    requires s.Br? && s.n == self && s.r.Br? && leaf.Br? && leaf.l.Nil? && leaf.r.Nil? && s.k <= leaf.k
    requires SizesOk(Grown(s.r, leaf.k, leaf)) && SizesOk(s.l) && self.size == Count(s) + 1
    ensures SizesOk(Grown(s, leaf.k, leaf))
  {
    GrownFacts(s, leaf.k, leaf);
  }

  /** The `node.key < self.key` branch of SizeBSTNode.insert. */
  method InsertLeft(self: Node, node: Node, ghost c: Ctx, ghost s: Shape) returns (ok: bool)
    requires Insertable(self, node, c, s) && node.parent == null && node.key < s.k
    modifies Nodes(s)`left, Nodes(s)`right, Nodes(s)`size, node`parent
    ensures (ok <==> node.key !in Keys(s)) && Inserted(ok, node, c, s)
    decreases s, 0
  {
    if self.left == null {
      ok := HangLeft(self, node, c, s);
    } else {
      ghost var leaf := Br(Nil, node, node.key, Nil);
      EnterLeft(self, node, c, s);
      NodesAllocated(s);
      ok := Insert(self.left, node, InL(c, self, s.k, s.r), s.l);
      if ok {
        PlaceNodes(s.l, node.key, Root, leaf);
        self.size := self.size + 1;
        GrownLeft(self, s, leaf);
      }
      LeaveLeft(ok, self, node, c, s);
    }
  }

  /** The `node.key > self.key` branch of SizeBSTNode.insert. */
  method InsertRight(self: Node, node: Node, ghost c: Ctx, ghost s: Shape) returns (ok: bool)
    requires Insertable(self, node, c, s) && node.parent == null && s.k < node.key
    modifies Nodes(s)`left, Nodes(s)`right, Nodes(s)`size, node`parent
    ensures (ok <==> node.key !in Keys(s)) && Inserted(ok, node, c, s)
    decreases s, 0
  {
    if self.right == null {
      ok := HangRight(self, node, c, s);
    } else {
      ghost var leaf := Br(Nil, node, node.key, Nil);
      EnterRight(self, node, c, s);
      NodesAllocated(s);
      ok := Insert(self.right, node, InR(s.l, self, s.k, c), s.r);
      if ok {
        PlaceNodes(s.r, node.key, Root, leaf);
        self.size := self.size + 1;
        GrownRight(self, s, leaf);
      }
      LeaveRight(ok, self, node, c, s);
    }
  }

  /** The leaf `node` becomes the missing left child of `self`. */
  method HangLeft(self: Node, node: Node, ghost c: Ctx, ghost s: Shape) returns (ok: bool)
    requires Insertable(self, node, c, s) && node.parent == null && node.key < s.k && self.left == null
    modifies self`left, self`size, node`parent
    ensures ok && node.key !in Keys(s) && Inserted(ok, node, c, s)
  {
    ghost var leaf := Br(Nil, node, node.key, Nil);
    PlugLinked(c, s);
    PlugDistinct(c, s);
    PlugNodes(c, s);
    GrownFacts(s, node.key, leaf);
    StrictSplit(Keys(s.l), s.k, Keys(s.r));
    NodesAllocated(s);
    CtxNodesAllocated(c);
    node.parent := self;
    self.left := node;
    self.size := self.size + 1;
    ok := true;
    PlugLinked(InL(c, self, s.k, s.r), leaf);
  }

  /** The leaf `node` becomes the missing right child of `self`. */
  method HangRight(self: Node, node: Node, ghost c: Ctx, ghost s: Shape) returns (ok: bool)
    requires Insertable(self, node, c, s) && node.parent == null && s.k < node.key && self.right == null
    modifies self`right, self`size, node`parent
    ensures ok && node.key !in Keys(s) && Inserted(ok, node, c, s)
  {
    ghost var leaf := Br(Nil, node, node.key, Nil);
    PlugLinked(c, s);
    PlugDistinct(c, s);
    PlugNodes(c, s);
    GrownFacts(s, node.key, leaf);
    StrictSplit(Keys(s.l), s.k, Keys(s.r));
    NodesAllocated(s);
    CtxNodesAllocated(c);
    node.parent := self;
    self.right := node;
    self.size := self.size + 1;
    ok := true;
    PlugLinked(InR(s.l, self, s.k, c), leaf);
  }
}
