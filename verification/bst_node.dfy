/**
 * The node operations of Tree/BST.py (class BSTNode): find, find_min,
 * find_max, next_larger, insert and remove, on the shared `Node` (check_ri
 * is modelled in the TreeQueries module).
 * Each takes a ghost `Shape` (and, where it walks parent pointers or
 * rewrites links, the ghost `Ctx` of that subtree in the whole tree).
 */
module BstNode {
  import opened TreeShape

  // ---------------------------------------------------------------------
  // Read-only descents
  // ---------------------------------------------------------------------

  /** BSTNode.find: compare and go left or right. */
  function Find(n: Node, k: int, ghost t: Shape): (r: Node?)
    requires t.Br? && t.n == n && Shaped(t) && KeysOk(t)
    reads Nodes(t)`left, Nodes(t)`right, Nodes(t)`key
    ensures r != null ==> r in Nodes(t) && r.key == k
    ensures Sorted(Keys(t)) ==> (r == null <==> k !in Keys(t))
    decreases t
  {
    SortedSplit(Keys(t.l), t.k, Keys(t.r));
    if k == n.key then n
    else if k < n.key then
      if n.left == null then null else Find(n.left, k, t.l)
    else
      if n.right == null then null else Find(n.right, k, t.r)
  }

  /** Where the descent of `find` stops inside `t` (below the context `c`):
      the subtree topped by the node it returns, or the empty slot it falls
      into, with the context of that place. */
  ghost function FindAt(t: Shape, k: int, c: Ctx): (p: (Ctx, Shape))
    decreases t
  {
    match t
    case Nil => (c, Nil)
    case Br(l, n, j, r) =>
      if k == j then (c, t)
      else if k < j then FindAt(l, k, InL(c, n, j, r))
      else FindAt(r, k, InR(l, n, j, c))
  }

  /** The place is in the tree, and `find` returns its top. */
  lemma {:induction false} FindAtSpec(t: Shape, k: int, c: Ctx)
    requires Shaped(t) && KeysOk(t)
    ensures var p := FindAt(t, k, c); Plug(p.0, p.1) == Plug(c, t)
    ensures var p := FindAt(t, k, c); p.1.Br? ==> p.1.k == k
    ensures t.Br? ==> Find(t.n, k, t) == Top(FindAt(t, k, c).1)
    decreases t
  {
    match t
    case Nil =>
    case Br(l, n, j, r) =>
      if k < j { FindAtSpec(l, k, InL(c, n, j, r)); }
      else if k > j { FindAtSpec(r, k, InR(l, n, j, c)); }
  }

  /** BSTNode.find_min: the leftmost node, first in key order. */
  function FindMin(n: Node, ghost t: Shape): (r: Node)
    requires t.Br? && t.n == n && Shaped(t) && KeysOk(t)
    reads Nodes(t)`left, Nodes(t)`right, Nodes(t)`key
    ensures r in Nodes(t) && r.left == null
    ensures r == InOrder(t)[0] && r.key == Keys(t)[0]
    ensures Sorted(Keys(t)) ==> forall x :: x in Keys(t) ==> r.key <= x
    decreases t
  {
    if n.left == null then n else FindMin(n.left, t.l)
  }

  /** BSTNode.find_max: the rightmost node, last in key order. */
  function FindMax(n: Node, ghost t: Shape): (r: Node)
    requires t.Br? && t.n == n && Shaped(t) && KeysOk(t)
    reads Nodes(t)`left, Nodes(t)`right, Nodes(t)`key
    ensures r in Nodes(t) && r.right == null
    ensures r == InOrder(t)[|InOrder(t)| - 1] && r.key == Keys(t)[|Keys(t)| - 1]
    ensures Sorted(Keys(t)) ==> forall x :: x in Keys(t) ==> x <= r.key
    decreases t
  {
    if n.right == null then n else FindMax(n.right, t.r)
  }

  /** The subtree at the end of the left spine and the path down to it. */
  ghost function Leftmost(t: Shape): (m: Shape)
    requires t.Br?
    ensures m.Br? && m.l.Nil?
  {
    if t.l.Nil? then t else Leftmost(t.l)
  }

  ghost function LeftmostPath(t: Shape, c: Ctx): Ctx
    requires t.Br?
  {
    if t.l.Nil? then c else LeftmostPath(t.l, InL(c, t.n, t.k, t.r))
  }

  lemma {:induction false} LeftmostSpec(t: Shape, c: Ctx)
    requires t.Br?
    ensures Leftmost(t).Br? && Leftmost(t).l.Nil?
    ensures Plug(LeftmostPath(t, c), Leftmost(t)) == Plug(c, t)
    ensures Leftmost(t).n == InOrder(t)[0]
    ensures Before(LeftmostPath(t, c)) == Before(c)
    ensures KeysBefore(LeftmostPath(t, c)) == KeysBefore(c)
    ensures Depth(LeftmostPath(t, c)) >= Depth(c)
    ensures c.Root? && t.l.Br? ==> ParentOf(LeftmostPath(t, c)) in CtxNodes(LeftmostPath(t, c))
  {
    if t.l.Br? {
      LeftmostSpec(t.l, InL(c, t.n, t.k, t.r));
      if c.Root? {
        LeftmostParent(t.l, InL(c, t.n, t.k, t.r));
      }
    }
  }

  lemma {:induction false} LeftmostParent(t: Shape, c: Ctx)
    requires t.Br? && !c.Root?
    ensures ParentOf(LeftmostPath(t, c)) in CtxNodes(LeftmostPath(t, c))
  {
    if t.l.Br? {
      LeftmostParent(t.l, InL(c, t.n, t.k, t.r));
    }
  }

  // ---------------------------------------------------------------------
  // next_larger: climb parent pointers
  // ---------------------------------------------------------------------

  /** BSTNode.next_larger: the node after `self` in key order, or null when
      `self` is the last one. */
  method NextLarger(self: Node, ghost c: Ctx, ghost s: Shape) returns (r: Node?)
    requires s.Br? && s.n == self && KeysOk(s)
    requires Linked(s, ParentOf(c)) && CtxLinked(c, self)
    requires Distinct(s) && CtxDistinct(c) && CtxNodes(c) !! Nodes(s)
    ensures var rest := InOrder(s.r) + After(c); if rest == [] then r == null else r == rest[0]
  {
    PlugLinked(c, s);
    PlugDistinct(c, s);
    if self.right == null {
      var current := self;
      ghost var cc, ss := c, s;
      while current.parent != null && current.parent.right == current
        invariant ss.Br? && ss.n == current && Plug(cc, ss) == Plug(c, s)
        invariant Linked(ss, ParentOf(cc)) && CtxLinked(cc, current)
        invariant After(cc) == InOrder(s.r) + After(c)
        decreases Depth(cc)
      {
        PlugDistinct(cc, ss);
        assert cc.InR?;
        current := current.parent;
        ss, cc := Br(cc.l, cc.n, cc.k, ss), cc.up;
      }
      r := current.parent;
    } else {
      LinkedShaped(s, ParentOf(c));
      r := FindMin(self.right, s.r);
    }
  }

  // ---------------------------------------------------------------------
  // insert: attach a leaf at the end of the comparison path
  // ---------------------------------------------------------------------

  /** The place where `insert` puts a key: smaller keys go left, the others
      (equal ones included) go right. */
  function InsertPath(s: Shape, k: int, c: Ctx): Ctx
  {
    match s
    case Nil => c
    case Br(l, n, j, r) => if k < j then InsertPath(l, k, InL(c, n, j, r)) else InsertPath(r, k, InR(l, n, j, c))
  }

  lemma {:induction false} InsertPathPlug(s: Shape, k: int, c: Ctx)
    ensures Plug(InsertPath(s, k, c), Nil) == Plug(c, s)
  {
    match s
    case Nil =>
    case Br(l, n, j, r) =>
      if k < j { InsertPathPlug(l, k, InL(c, n, j, r)); } else { InsertPathPlug(r, k, InR(l, n, j, c)); }
  }

  /** In a sorted tree the insertion place splits the keys into those at most
      `k` and those greater than `k`. */
  lemma {:induction false} InsertPathSplit(s: Shape, k: int, c: Ctx)
    requires Sorted(KeysBefore(c) + Keys(s) + KeysAfter(c))
    requires forall x :: x in KeysBefore(c) ==> x <= k
    requires forall x :: x in KeysAfter(c) ==> k < x
    ensures var d := InsertPath(s, k, c);
      KeysBefore(d) + KeysAfter(d) == KeysBefore(c) + Keys(s) + KeysAfter(c) &&
      (forall x :: x in KeysBefore(d) ==> x <= k) && (forall x :: x in KeysAfter(d) ==> k < x)
  {
    match s
    case Nil =>
    case Br(l, n, j, r) =>
      if k < j {
        var cNext := InL(c, n, j, r);
        SplitGoLeft(KeysBefore(c), Keys(l), j, Keys(r), KeysAfter(c), k);
        InsertPathSplit(l, k, cNext);
      } else {
        var cNext := InR(l, n, j, c);
        SplitGoRight(KeysBefore(c), Keys(l), j, Keys(r), KeysAfter(c), k);
        InsertPathSplit(r, k, cNext);
      }
  }

  lemma SplitGoLeft(a: seq<int>, l: seq<int>, x: int, r: seq<int>, b: seq<int>, k: int)
    requires Sorted(a + (l + [x] + r) + b) && k < x
    requires forall y :: y in b ==> k < y
    ensures a + (l + [x] + r) + b == a + l + ([x] + r + b)
    ensures forall y :: y in [x] + r + b ==> k < y
  {
    assert a + (l + [x] + r) + b == (a + l) + [x] + (r + b);
    SortedSplit(a + l, x, r + b);
    forall y | y in [x] + r + b ensures k < y {
      if y in r {
        var j :| 0 <= j < |r| && r[j] == y;
        assert (r + b)[j] == y;
      }
    }
  }

  lemma SplitGoRight(a: seq<int>, l: seq<int>, x: int, r: seq<int>, b: seq<int>, k: int)
    requires Sorted(a + (l + [x] + r) + b) && x <= k
    requires forall y :: y in a ==> y <= k
    ensures a + (l + [x] + r) + b == (a + l + [x]) + r + b
    ensures forall y :: y in a + l + [x] ==> y <= k
  {
    assert a + (l + [x] + r) + b == (a + l) + [x] + (r + b);
    SortedSplit(a + l, x, r + b);
    forall y | y in a + l + [x] ensures y <= k {
      if y in l {
        var j :| 0 <= j < |l| && l[j] == y;
        assert (a + l)[|a| + j] == y;
      }
    }
  }

  /** A fresh leaf hung in the hole keeps the tree free of repeated nodes. */
  lemma LeafDistinct(d: Ctx, node: Node)
    requires Distinct(Plug(d, Nil)) && node !in Nodes(Plug(d, Nil))
    ensures Distinct(Plug(d, Br(Nil, node, node.key, Nil)))
    ensures Nodes(Plug(d, Br(Nil, node, node.key, Nil))) == Nodes(Plug(d, Nil)) + {node}
  {
    PlugDistinct(d, Nil);
    PlugNodes(d, Nil);
    PlugDistinct(d, Br(Nil, node, node.key, Nil));
    PlugNodes(d, Br(Nil, node, node.key, Nil));
  }

  /** BSTNode.insert: hang the detached leaf `node` in the first empty slot on
      its comparison path below `self`, and link it to its new parent. */
  method InsertUnder(self: Node, node: Node, ghost c: Ctx, ghost s: Shape) returns (ghost d: Ctx)
    requires s.Br? && s.n == self && KeysOk(s)
    requires Linked(Plug(c, s), null) && Distinct(Plug(c, s))
    requires node !in Nodes(Plug(c, s)) && node.left == null && node.right == null
    modifies Nodes(s)`left, Nodes(s)`right, node`parent
    ensures d == InsertPath(s, node.key, c) && Plug(d, Nil) == Plug(c, s)
    ensures Linked(Plug(d, Br(Nil, node, node.key, Nil)), null)
    decreases s
  {
    PlugLinked(c, s);
    PlugDistinct(c, s);
    PlugNodes(c, s);
    if node.key < self.key {
      if self.left == null {
        node.parent := self;
        self.left := node;
        d := InL(c, self, s.k, s.r);
        PlugLinked(d, Br(Nil, node, node.key, Nil));
      } else {
        d := InsertUnder(self.left, node, InL(c, self, s.k, s.r), s.l);
      }
    } else {
      if self.right == null {
        node.parent := self;
        self.right := node;
        d := InR(s.l, self, s.k, c);
        PlugLinked(d, Br(Nil, node, node.key, Nil));
      } else {
        d := InsertUnder(self.right, node, InR(s.l, self, s.k, c), s.r);
      }
    }
  }

  // ---------------------------------------------------------------------
  // remove: splice out a node with at most one child
  // ---------------------------------------------------------------------

  /** The one-child case of BSTNode.remove: the only child of `self`, or
      null, takes `self`'s place under its parent, and its parent pointer is
      turned to that parent. `self` keeps its own pointers. */
  method Splice(self: Node, ghost c: Ctx, ghost s: Shape) returns (ghost x: Shape)
    requires s.Br? && s.n == self && (s.l.Nil? || s.r.Nil?) && c != Root
    requires Linked(s, c.n) && CtxLinked(c, self)
    requires Distinct(s) && CtxDistinct(c) && CtxNodes(c) !! Nodes(s)
    modifies c.n`left, c.n`right, (Nodes(s.l) + Nodes(s.r))`parent
    ensures x == (if s.l.Nil? then s.r else s.l)
    ensures Linked(x, c.n) && CtxLinked(c, Top(x))
    ensures self.parent == c.n && self.left == Top(s.l) && self.right == Top(s.r)
    ensures forall o: Node | old(allocated(o)) :: o.key == old(o.key)
  {
    x := if s.l.Nil? then s.r else s.l;
    var p := self.parent;
    var child := if self.left != null then self.left else self.right;
    if self == p.left {
      p.left := child;
      if p.left != null {
        p.left.parent := p;
      }
    } else {
      p.right := child;
      if p.right != null {
        p.right.parent := p;
      }
    }
  }

  /** Where the successor of a node with two children sits: at the end of
      the left spine of its right subtree, below the context `d0`. */
  lemma SuccessorPlace0(self: Node, c: Ctx, s: Shape, e: Ctx, m: Shape, d0: Ctx)
    requires s.Br? && s.n == self && s.r.Br? && c != Root
    requires e == LeftmostPath(s.r, Root) && m == Leftmost(s.r) && d0 == Graft(e, InR(s.l, self, s.k, c))
    requires Linked(s, c.n) && CtxLinked(c, self)
    requires Distinct(s) && CtxDistinct(c) && CtxNodes(c) !! Nodes(s)
    ensures s.r == Plug(e, m) && Nodes(s.r) == CtxNodes(e) + Nodes(m)
    ensures Plug(c, s) == Plug(d0, m)
    ensures d0 != Root && d0.n in Nodes(s) && m.n in Nodes(s) && m.n != self
    ensures Linked(m, d0.n) && CtxLinked(d0, m.n)
    ensures Distinct(m) && CtxDistinct(d0) && CtxNodes(d0) !! Nodes(m)
  {
    var up0 := InR(s.l, self, s.k, c);
    LeftmostSpec(s.r, Root);
    GraftPlug(e, up0, m);
    PlugLinked(c, s);
    PlugDistinct(c, s);
    PlugLinked(d0, m);
    PlugDistinct(d0, m);
    PlugNodes(e, m);
    GraftDepth(e, up0);
  }

  /** The same place below the context `d`, which records the key `k` for
      `self` instead of its own. */
  lemma SuccessorPlace(self: Node, c: Ctx, s: Shape, e: Ctx, m: Shape, d: Ctx, k: int)
    requires s.Br? && s.n == self && s.r.Br? && c != Root
    requires e == LeftmostPath(s.r, Root) && m == Leftmost(s.r) && d == Graft(e, InR(s.l, self, k, c))
    requires Linked(s, c.n) && CtxLinked(c, self)
    requires Distinct(s) && CtxDistinct(c) && CtxNodes(c) !! Nodes(s)
    ensures s.r == Plug(e, m) && Nodes(s.r) == CtxNodes(e) + Nodes(m)
    ensures Plug(c, s) == Plug(Graft(e, InR(s.l, self, s.k, c)), m)
    ensures SameCtx(Graft(e, InR(s.l, self, s.k, c)), d)
    ensures d != Root && d.n in Nodes(s) && m.n in Nodes(s) && m.n != self
    ensures Linked(m, d.n) && CtxLinked(d, m.n)
    ensures Distinct(m) && CtxDistinct(d) && CtxNodes(d) !! Nodes(m)
  {
    var d0 := Graft(e, InR(s.l, self, s.k, c));
    SuccessorPlace0(self, c, s, e, m, d0);
    SameCtxRefl(c);
    GraftSame(e, InR(s.l, self, s.k, c), InR(s.l, self, k, c));
    SameCtxFacts(d0, d);
  }

  /** The key exchange of the two-child case; the keys of the subtrees `l`
      and `m.r` and of the context `e`, which stay in place, are not touched,
      and neither are any links. */
  method SwapKeys(self: Node, succ: Node, ghost l: Shape, ghost e: Ctx, ghost m: Shape, ghost d: Ctx)
    requires d != Root && m.Br? && Linked(m, d.n) && CtxLinked(d, succ)
    requires KeysOk(l) && CtxKeysOk(e) && KeysOk(m.r)
    requires self !in Nodes(l) + CtxNodes(e) + Nodes(m.r) && succ !in Nodes(l) + CtxNodes(e) + Nodes(m.r)
    modifies self`key, succ`key
    ensures self.key == old(succ.key) && succ.key == old(self.key)
    ensures Linked(m, d.n) && CtxLinked(d, succ)
    ensures KeysOk(l) && CtxKeysOk(e) && KeysOk(m.r)
  {
    self.key, succ.key := succ.key, self.key;
  }

  /** BSTNode.remove: a node with at most one child is spliced out; a node
      with two children trades keys with its successor, which is then spliced
      out. The returned node `r` carries the removed key. Inside `s`, it sat
      with the single subtree `x` below the context `dd0`; the new subtree
      `t` has `x` in its place below `dd`, which differs from `dd0` at most in
      the key recorded for `self`; and `t` holds the keys of `s` less the
      removed one. */
  method Remove(self: Node, ghost c: Ctx, ghost s: Shape)
    returns (r: Node, ghost rk: int, ghost dd0: Ctx, ghost dd: Ctx, ghost x: Shape, ghost t: Shape)
    requires s.Br? && s.n == self && c != Root
    requires Linked(s, c.n) && CtxLinked(c, self) && KeysOk(s)
    requires Distinct(s) && CtxDistinct(c) && CtxNodes(c) !! Nodes(s)
    modifies Nodes(s)`key, Nodes(s)`left, Nodes(s)`right, Nodes(s)`parent, c.n`left, c.n`right
    ensures r in Nodes(s) && r.key == s.k
    ensures s == Plug(dd0, Br(Nil, r, rk, x)) || s == Plug(dd0, Br(x, r, rk, Nil))
    ensures SameCtx(dd0, dd) && r.parent == ParentOf(Graft(dd, c))
    ensures Plug(dd, x) == t
    ensures Keys(t) == Keys(s.l) + Keys(s.r) && KeysOk(t)
    ensures Linked(x, ParentOf(Graft(dd, c))) && CtxLinked(Graft(dd, c), Top(x))
  {
    if self.left == null || self.right == null {
      NodesAllocated(s);
      x := Splice(self, c, s);
      r, rk, dd0, dd, t := self, s.k, Root, Root, x;
      SameCtxRefl(Root);
    } else {
      r, rk, dd0, dd, x, t := RemoveViaSuccessor(self, c, s);
    }
  }

  /** The two-child case of BSTNode.remove. */
  method RemoveViaSuccessor(self: Node, ghost c: Ctx, ghost s: Shape)
    returns (r: Node, ghost rk: int, ghost dd0: Ctx, ghost dd: Ctx, ghost x: Shape, ghost t: Shape)
    requires s.Br? && s.n == self && s.l.Br? && s.r.Br? && c != Root
    requires Linked(s, c.n) && CtxLinked(c, self) && KeysOk(s)
    requires Distinct(s) && CtxDistinct(c) && CtxNodes(c) !! Nodes(s)
    modifies Nodes(s)`key, Nodes(s)`left, Nodes(s)`right, Nodes(s)`parent
    ensures r in Nodes(s) && r.key == s.k
    ensures s == Plug(dd0, Br(Nil, r, rk, x))
    ensures SameCtx(dd0, dd) && r.parent == ParentOf(Graft(dd, c))
    ensures Plug(dd, x) == t
    ensures Keys(t) == Keys(s.l) + Keys(s.r) && KeysOk(t)
    ensures Linked(x, ParentOf(Graft(dd, c))) && CtxLinked(Graft(dd, c), Top(x))
  {
    NodesAllocated(s);
    CtxNodesAllocated(c);
    var succ := NextLarger(self, c, s);
    ghost var e, m := LeftmostPath(s.r, Root), Leftmost(s.r);
    assert succ == m.n by { LeftmostSpec(s.r, Root); }
    ghost var d := Graft(e, InR(s.l, self, m.k, c));
    SuccessorPlace(self, c, s, e, m, d, m.k);
    assert KeysOk(s.l) && KeysOk(m.r) && CtxKeysOk(e) && succ.key == m.k by {
      PlugKeysOk(e, m);
    }
    assert self !in Nodes(s.l) + CtxNodes(e) + Nodes(m.r) && succ !in Nodes(s.l) + CtxNodes(e) + Nodes(m.r) by {
      PlugDistinct(e, m);
    }
    SwapKeys(self, succ, s.l, e, m, d);
    x := Splice(succ, d, m);
    t := Br(s.l, self, m.k, Plug(e, x));
    assert KeysOk(t) by { PlugKeysOk(e, x); }
    r, rk := succ, m.k;
    dd0, dd := Graft(e, InR(s.l, self, s.k, Root)), Graft(e, InR(s.l, self, m.k, Root));
    RemoveContexts(s, e, m, c);
    RemoveKeys(s, e, m);
  }

  /** The contexts of the two-child case, inside `s` and in the whole tree. */
  lemma RemoveContexts(s: Shape, e: Ctx, m: Shape, c: Ctx)
    requires s.Br? && s.r.Br? && e == LeftmostPath(s.r, Root) && m == Leftmost(s.r)
    ensures var dd0, dd := Graft(e, InR(s.l, s.n, s.k, Root)), Graft(e, InR(s.l, s.n, m.k, Root));
      s == Plug(dd0, m) && SameCtx(dd0, dd) &&
      Graft(dd, c) == Graft(e, InR(s.l, s.n, m.k, c)) &&
      Plug(dd, m.r) == Br(s.l, s.n, m.k, Plug(e, m.r))
  {
    LeftmostSpec(s.r, Root);
    GraftPlug(e, InR(s.l, s.n, s.k, Root), m);
    GraftPlug(e, InR(s.l, s.n, m.k, Root), m.r);
    GraftAssoc(e, InR(s.l, s.n, m.k, Root), c);
    GraftSame(e, InR(s.l, s.n, s.k, Root), InR(s.l, s.n, m.k, Root));
  }

  lemma RemoveKeys(s: Shape, e: Ctx, m: Shape)
    requires s.Br? && s.r.Br? && e == LeftmostPath(s.r, Root) && m == Leftmost(s.r)
    ensures Keys(Br(s.l, s.n, m.k, Plug(e, m.r))) == Keys(s.l) + Keys(s.r)
  {
    LeftmostSpec(s.r, Root);
    PlugKeys(e, m.r);
    PlugKeys(e, m);
    var a := KeysAfter(e);
    assert KeysBefore(e) == [] && Keys(m) == [m.k] + Keys(m.r);
    assert Keys(s.r) == [m.k] + Keys(m.r) + a;
    assert Keys(Plug(e, m.r)) == Keys(m.r) + a;
  }
}
