/**
 * The tree of BST/SizeBST.py seen from outside: the tree object with its
 * root, insertion of a key, `rank` with its `count_k` flag, `range` and
 * `check_ri`; and the two height helpers of BST/AVLTree.py, which that file
 * defines beside its copies of the node operations but never calls. Keys
 * are distinct in this variant, since `insert` refuses a key it meets on
 * its path.
 */
module SizedTree {
  import opened Wrappers
  import opened TreeShape
  import opened TreeQueries
  import opened SortedKeys
  import BstNode
  import CountedTree

  // ---------------------------------------------------------------------
  // rank and range
  // ---------------------------------------------------------------------

  /** The bound `rank` compares against: with `count_k` the keys at most `k`,
      without it the keys below `k`, which for integer keys are the keys at
      most `k - 1`. */
  function Bound(k: int, countK: bool): int
  {
    if countK then k else k - 1
  }

  /** How the keys of a node with distinct keys split around its own key. */
  lemma StrictRankSplit(t: Shape, k: int)
    requires t.Br?
    ensures StrictlySorted(Keys(t)) ==>
      StrictlySorted(Keys(t.l)) && StrictlySorted(Keys(t.r)) &&
      (k < t.k ==> CountAtMost(Keys(t), k) == CountAtMost(Keys(t.l), k)) &&
      (t.k <= k ==> CountAtMost(Keys(t), k) == Count(t.l) + 1 + CountAtMost(Keys(t.r), k)) &&
      CountAtMost(Keys(t.l), t.k - 1) == Count(t.l) && CountAtMost(Keys(t.r), t.k) == 0
  {
    if StrictlySorted(Keys(t)) {
      StrictRankSplitSorted(t, k);
    }
  }

  lemma StrictRankSplitSorted(t: Shape, k: int)
    requires t.Br? && StrictlySorted(Keys(t))
    ensures StrictlySorted(Keys(t.l)) && StrictlySorted(Keys(t.r))
    ensures k < t.k ==> CountAtMost(Keys(t), k) == CountAtMost(Keys(t.l), k)
    ensures t.k <= k ==> CountAtMost(Keys(t), k) == Count(t.l) + 1 + CountAtMost(Keys(t.r), k)
    ensures CountAtMost(Keys(t.l), t.k - 1) == Count(t.l) && CountAtMost(Keys(t.r), t.k) == 0
  {
    var a, b := Keys(t.l), Keys(t.r);
    CountedTree.StrictSplit(a, t.k, b);
    RankSplit(t, k);
    KeysCount(t.l);
    assert forall i :: 0 <= i < |a| ==> a[i] <= t.k - 1 by {
      forall i | 0 <= i < |a| ensures a[i] <= t.k - 1 { assert a[i] in a; }
    }
    assert forall j :: 0 <= j < |b| ==> t.k < b[j] by {
      forall j | 0 <= j < |b| ensures t.k < b[j] { assert b[j] in b; }
    }
    CountAtMostAll(a, t.k - 1);
    CountAtMostAll(b, t.k);
  }

  /** `SizeBSTNode.rank(k, count_k)` with the missing check added: where the
      code reads the size of an absent left child, an absent child counts
      zero. In a subtree with distinct keys it counts the keys below `k`,
      and `k` itself as well when `count_k` is set. */
  function RankCounted(n: Node, k: int, countK: bool, ghost t: Shape): (r: int)
    requires t.Br? && t.n == n && Shaped(t) && KeysOk(t) && SizesOk(t)
    reads Nodes(t)`left, Nodes(t)`right, Nodes(t)`key, Nodes(t)`size
    ensures StrictlySorted(Keys(t)) ==> r == CountAtMost(Keys(t), Bound(k, countK))
    decreases t
  {
    FieldsMeaning(t.l);
    TopIn(t.l);
    StrictRankSplit(t, Bound(k, countK));
    if k == n.key then
      (if countK then 1 else 0) + SizeOf(n.left)
    else if k < n.key then
      if n.left == null then 0 else RankCounted(n.left, k, countK, t.l)
    else if n.right == null then
      assert n.size == Count(t);
      n.size
    else 1 + SizeOf(n.left) + RankCounted(n.right, k, countK, t.r)
  }

  /** `SizeBSTNode.rank(k, count_k)` as written: `None` stands for the
      failure of reading `size` from an absent left child on the branch for
      keys greater than the node's. */
  function NodeRankAsWritten(n: Node, k: int, countK: bool, ghost t: Shape): Option<int>
    requires t.Br? && t.n == n && Shaped(t) && KeysOk(t) && SizesOk(t)
    reads Nodes(t)`left, Nodes(t)`right, Nodes(t)`key, Nodes(t)`size
    decreases t
  {
    TopIn(t.l);
    TopIn(t.r);
    if k == n.key then
      Some((if countK then 1 else 0) + SizeOf(n.left))
    else if k < n.key then
      if n.left == null then Some(0) else NodeRankAsWritten(n.left, k, countK, t.l)
    else if n.right == null then
      Some(n.size)
    else if n.left == null then
      None
    else
      match NodeRankAsWritten(n.right, k, countK, t.r)
      case None => None
      case Some(v) => Some(1 + n.left.size + v)
  }

  /** Wherever the rank as written answers, it answers what `RankCounted`
      does; it fails at a node with a right child and no left child when
      `k` is greater than the node's key. */
  lemma {:induction false} NodeRankAsWrittenSound(n: Node, k: int, countK: bool, t: Shape)
    requires t.Br? && t.n == n && Shaped(t) && KeysOk(t) && SizesOk(t)
    ensures var r := NodeRankAsWritten(n, k, countK, t);
      r.Some? ==> r.value == RankCounted(n, k, countK, t)
    ensures n.key < k && n.right != null && n.left == null ==> NodeRankAsWritten(n, k, countK, t).None?
    decreases t
  {
    TopIn(t.l);
    TopIn(t.r);
    if k < n.key && n.left != null {
      NodeRankAsWrittenSound(n.left, k, countK, t.l);
    } else if n.key < k && n.right != null && n.left != null {
      NodeRankAsWrittenSound(n.right, k, countK, t.r);
    }
  }

  /** The demonstration of the failure: root 1 with only a right child 2.
      Ranking 3 fails as written, while the corrected rank counts both keys. */
  lemma RankAsWrittenFails(a: Node, b: Node)
    requires a != b && a.key == 1 && a.left == null && a.right == b && a.size == 2
    requires b.key == 2 && b.left == null && b.right == null && b.size == 1
    ensures var t := Br(Nil, a, 1, Br(Nil, b, 2, Nil));
      Shaped(t) && KeysOk(t) && SizesOk(t) && StrictlySorted(Keys(t)) &&
      NodeRankAsWritten(a, 3, true, t).None? && RankCounted(a, 3, true, t) == 2
  {
    var t := Br(Nil, a, 1, Br(Nil, b, 2, Nil));
    assert Keys(t) == [1, 2];
    assert CountAtMost([2], 3) == 1;
  }

  /** `SizeBST.range(k1, k2)`: rank(k2, True) - rank(k1, False). For
      `k1 <= k2 + 1` it is the number of keys in the closed interval
      [k1, k2]; for `k1 > k2 + 1`, minus the number of keys in
      [k2 + 1, k1 - 1]. */
  function RangeCounted(n: Node, k1: int, k2: int, ghost t: Shape): (r: int)
    requires t.Br? && t.n == n && Shaped(t) && KeysOk(t) && SizesOk(t)
    reads Nodes(t)`left, Nodes(t)`right, Nodes(t)`key, Nodes(t)`size
    ensures StrictlySorted(Keys(t)) ==> r == CountAtMost(Keys(t), k2) - CountAtMost(Keys(t), k1 - 1)
    ensures StrictlySorted(Keys(t)) && k1 <= k2 + 1 ==> r == CountIn(Keys(t), k1 - 1, k2)
    ensures StrictlySorted(Keys(t)) && k2 + 1 < k1 ==> r == -(CountIn(Keys(t), k2, k1 - 1) as int)
  {
    ClosedRange(Keys(t), k1, k2);
    RankCounted(n, k2, true, t) - RankCounted(n, k1, false, t)
  }

  lemma ClosedRange(s: seq<int>, k1: int, k2: int)
    ensures k1 <= k2 + 1 ==> CountAtMost(s, k2) - CountAtMost(s, k1 - 1) == CountIn(s, k1 - 1, k2)
    ensures k2 + 1 < k1 ==> CountAtMost(s, k2) - CountAtMost(s, k1 - 1) == -(CountIn(s, k2, k1 - 1) as int)
  {
    if k1 <= k2 + 1 {
      RangeMeaning(s, k1 - 1, k2);
    } else {
      RangeMeaning(s, k2, k1 - 1);
    }
  }

  // ---------------------------------------------------------------------
  // Growing a tree with distinct keys
  // ---------------------------------------------------------------------

  /** A key strictly between the two halves of a strictly sorted sequence
      keeps it strictly sorted. */
  lemma StrictInsert(a: seq<int>, b: seq<int>, k: int)
    requires StrictlySorted(a + b)
    requires forall x :: x in a ==> x < k
    requires forall x :: x in b ==> k < x
    ensures StrictlySorted(a + [k] + b)
  {
    var s, w := a + b, a + [k] + b;
    forall i, j | 0 <= i < j < |w| ensures w[i] < w[j] {
      if j < |a| {
        assert w[i] == s[i] && w[j] == s[j];
      } else if j == |a| {
        assert w[i] == a[i] && a[i] in a && w[j] == k;
      } else if i < |a| {
        assert w[i] == s[i] && w[j] == s[j - 1];
      } else if i == |a| {
        assert w[i] == k && w[j] == b[j - |a| - 1] && b[j - |a| - 1] in b;
      } else {
        assert w[i] == s[i - 1] && w[j] == s[j - 1];
      }
    }
  }

  /** Hanging a fresh leaf with a new key at its insertion place keeps the
      nodes distinct and the keys right, and puts the key into the sorted
      keys. */
  lemma GrownKeys(s: Shape, k: int, node: Node)
    requires Distinct(s) && KeysOk(s) && StrictlySorted(Keys(s)) && k !in Keys(s)
    requires node !in Nodes(s) && node.key == k
    ensures var g := CountedTree.Grown(s, k, Br(Nil, node, k, Nil));
      Distinct(g) && KeysOk(g) && Keys(g) == InsertSorted(Keys(s), k) && StrictlySorted(Keys(g))
  {
    GrownShape(s, k, node);
    GrownOrder(s, k);
  }

  /** Hanging the leaf keeps the nodes distinct and the keys right, and puts
      `k` between the keys before and after the insertion place. */
  lemma GrownShape(s: Shape, k: int, node: Node)
    requires Distinct(s) && KeysOk(s) && node !in Nodes(s) && node.key == k
    ensures var d := BstNode.InsertPath(s, k, Root);
      var g := CountedTree.Grown(s, k, Br(Nil, node, k, Nil));
      Distinct(g) && KeysOk(g) && Keys(g) == KeysBefore(d) + [k] + KeysAfter(d)
  {
    var leaf := Br(Nil, node, k, Nil);
    var d := BstNode.InsertPath(s, k, Root);
    BstNode.InsertPathPlug(s, k, Root);
    PlugDistinct(d, Nil);
    PlugDistinct(d, leaf);
    PlugNodes(d, Nil);
    PlugKeysOk(d, Nil);
    PlugKeysOk(d, leaf);
    PlugKeys(d, leaf);
    assert Keys(leaf) == [k];
  }

  /** In a strictly sorted tree without `k`, the keys before and after the
      insertion place of `k` with `k` between them are the sorted insertion,
      and are strictly sorted. */
  lemma GrownOrder(s: Shape, k: int)
    requires StrictlySorted(Keys(s)) && k !in Keys(s)
    ensures var d := BstNode.InsertPath(s, k, Root);
      var w := KeysBefore(d) + [k] + KeysAfter(d);
      w == InsertSorted(Keys(s), k) && StrictlySorted(w)
  {
    var d := BstNode.InsertPath(s, k, Root);
    assert KeysBefore(Root) + Keys(s) + KeysAfter(Root) == Keys(s);
    assert Sorted(Keys(s));
    BstNode.InsertPathSplit(s, k, Root);
    var a, b := KeysBefore(d), KeysAfter(d);
    assert a + b == Keys(s);
    forall x | x in a ensures x < k {
      assert x <= k && x in Keys(s);
    }
    StrictInsert(a, b, k);
    assert forall i :: 0 <= i < |a| ==> a[i] <= k by {
      forall i | 0 <= i < |a| ensures a[i] <= k { assert a[i] in a; }
    }
    assert forall j :: 0 <= j < |b| ==> k < b[j] by {
      forall j | 0 <= j < |b| ensures k < b[j] { assert b[j] in b; }
    }
    InsertSortedSplit(a, b, k);
  }

  // ---------------------------------------------------------------------
  // The tree object
  // ---------------------------------------------------------------------

  /** A whole tree of this variant: linked with no parent above the root,
      no node twice, keys right and strictly increasing, sizes right. */
  ghost predicate Sound(s: Shape)
    reads Nodes(s)
  {
    Linked(s, null) && Distinct(s) && KeysOk(s) && StrictlySorted(Keys(s)) && SizesOk(s)
  }

  /** `SizeBST`: a root, possibly absent, over nodes with distinct keys and
      right sizes. */
  class SizeTree {
    var root: Node?
    /** The nodes of the tree in tree form. */
    ghost var shape: Shape

    ghost predicate Valid()
      reads this, Nodes(shape)
    {
      root == Top(shape) && Sound(shape)
    }

    /** An empty tree. */
    constructor ()
      ensures Valid() && shape == Nil
    {
      root := null;
      shape := Nil;
    }

    /** `SizeBST.insert(k)`: an empty tree gets a root of size one; otherwise
        a fresh leaf goes down from the root, and is dropped when the key is
        already there. The keys gain `k` exactly when it was absent. */
    method Insert(k: int)
      requires Valid()
      modifies this, Nodes(shape)`left, Nodes(shape)`right, Nodes(shape)`size
      ensures Valid()
      ensures Keys(shape) == if k in old(Keys(shape)) then old(Keys(shape)) else InsertSorted(old(Keys(shape)), k)
    {
      if root == null {
        var n := new Node(k, null);
        LeafSound(n, k);
        root := n;
        shape := Br(Nil, n, k, Nil);
      } else {
        ghost var g;
        var ok;
        ok, g := Add(root, k, shape);
        shape := g;
      }
    }

    /** The non-empty case of `SizeBST.insert(k)`: a fresh leaf goes down
        from the root. */
    static method Add(root: Node, k: int, ghost s: Shape) returns (ok: bool, ghost g: Shape)
      requires s.Br? && s.n == root && Sound(s)
      modifies Nodes(s)`left, Nodes(s)`right, Nodes(s)`size
      ensures Top(g) == root && Sound(g)
      ensures ok <==> k !in Keys(s)
      ensures Keys(g) == if ok then InsertSorted(Keys(s), k) else Keys(s)
    {
      NodesAllocated(s);
      var node := new Node(k, null);
      ReadyToInsert(root, node, s);
      ok := CountedTree.Insert(root, node, Root, s);
      AfterInsert(ok, node, s);
      g := if ok then CountedTree.Grown(s, k, Br(Nil, node, k, Nil)) else s;
    }

    /** A lone fresh node is a whole tree. */
    static lemma LeafSound(n: Node, k: int)
      requires n.key == k && n.left == null && n.right == null && n.parent == null && n.size == 1
      ensures Sound(Br(Nil, n, k, Nil)) && Keys(Br(Nil, n, k, Nil)) == InsertSorted([], k)
    {
      assert Count(Br(Nil, n, k, Nil)) == 1;
    }

    /** A valid non-empty tree takes a fresh leaf below its root. */
    static lemma ReadyToInsert(root: Node, node: Node, s: Shape)
      requires s.Br? && s.n == root && Sound(s) && node !in Nodes(s)
      requires node.left == null && node.right == null && node.size == 1
      ensures CountedTree.Insertable(root, node, Root, s)
    {
    }

    /** What the node insertion leaves, in terms of the tree. */
    static lemma AfterInsert(ok: bool, node: Node, s: Shape)
      requires s.Br? && Distinct(s) && KeysOk(s) && StrictlySorted(Keys(s)) && node !in Nodes(s)
      requires (ok <==> node.key !in Keys(s)) && CountedTree.Inserted(ok, node, Root, s)
      ensures var g := CountedTree.Grown(s, node.key, Br(Nil, node, node.key, Nil));
        ok ==> Top(g) == s.n && Sound(g) && Keys(g) == InsertSorted(Keys(s), node.key)
      ensures !ok ==> Sound(s)
    {
      if ok {
        GrownKeys(s, node.key, node);
        CountedTree.GrownFacts(s, node.key, Br(Nil, node, node.key, Nil));
      }
    }

    /** `SizeBST.rank(k, count_k)` on a non-empty tree, with the corrected
        node rank: the number of keys below `k`, and `k` as well with
        `count_k`. */
    function Rank(k: int, countK: bool): (r: int)
      requires Valid() && root != null
      reads this, Nodes(shape)
      ensures r == CountAtMost(Keys(shape), Bound(k, countK))
    {
      LinkedShaped(shape, null);
      RankCounted(root, k, countK, shape)
    }

    /** `SizeBST.rank(k, count_k)` as written, on a non-empty tree: `None`
        where the node rank reads the size of an absent left child. Whenever
        it answers, it answers the number of keys below `k` (and `k` itself
        with `count_k`); it fails already at the root when the root has only
        a right child and `k` is greater than the root's key. */
    function RankAsWritten(k: int, countK: bool): (r: Option<int>)
      requires Valid() && root != null
      reads this, Nodes(shape)
      ensures r.Some? ==> r.value == CountAtMost(Keys(shape), Bound(k, countK))
      ensures root.key < k && root.right != null && root.left == null ==> r.None?
    {
      LinkedShaped(shape, null);
      NodeRankAsWrittenSound(root, k, countK, shape);
      NodeRankAsWritten(root, k, countK, shape)
    }

    /** `SizeBST.range(k1, k2)` as written: the difference of the two ranks
        as written, failing when either fails. */
    function RangeAsWritten(k1: int, k2: int): (r: Option<int>)
      requires Valid() && root != null
      reads this, Nodes(shape)
      ensures r.Some? ==> r.value == CountAtMost(Keys(shape), k2) - CountAtMost(Keys(shape), k1 - 1)
      ensures r.Some? && k1 <= k2 + 1 ==> r.value == CountIn(Keys(shape), k1 - 1, k2)
      ensures r.Some? && k2 + 1 < k1 ==> r.value == -(CountIn(Keys(shape), k2, k1 - 1) as int)
      ensures r.Some? <==> RankAsWritten(k2, true).Some? && RankAsWritten(k1, false).Some?
    {
      ClosedRange(Keys(shape), k1, k2);
      match (RankAsWritten(k2, true), RankAsWritten(k1, false))
      case (Some(hi), Some(lo)) => Some(hi - lo)
      case _ => None
    }

    /** `SizeBST.range(k1, k2)` on a non-empty tree: the number of keys in
        [k1, k2] whenever `k1 <= k2 + 1`, and minus the number of keys in
        [k2 + 1, k1 - 1] otherwise. */
    function Range(k1: int, k2: int): (r: int)
      requires Valid() && root != null
      reads this, Nodes(shape)
      ensures r == CountAtMost(Keys(shape), k2) - CountAtMost(Keys(shape), k1 - 1)
      ensures k1 <= k2 + 1 ==> r == CountIn(Keys(shape), k1 - 1, k2)
      ensures k2 + 1 < k1 ==> r == -(CountIn(Keys(shape), k2, k1 - 1) as int)
    {
      LinkedShaped(shape, null);
      RangeCounted(root, k1, k2, shape)
    }

    /** `SizeBST.check_ri`: the root has no parent, and the node check with
        sizes holds below it. It passes exactly on linked, locally ordered
        trees with right sizes. */
    predicate CheckRi()
      requires root == Top(shape) && Shaped(shape) && KeysOk(shape)
      reads this, Nodes(shape)
      ensures CheckRi() <==> Linked(shape, null) && LocallyOrdered(shape) && SizesOk(shape)
    {
      root == null || (root.parent == null && TreeQueries.CheckRi(root, shape, NoBalance, true))
    }

    /** Every valid tree passes its check. */
    lemma ValidPassesCheck()
      requires Valid()
      ensures Shaped(shape) && CheckRi()
    {
      LinkedShaped(shape, null);
      SortedLocallyOrdered(shape);
    }
  }

  // ---------------------------------------------------------------------
  // The height helpers of BST/AVLTree.py
  // ---------------------------------------------------------------------

  /** `height(node)` of BST/AVLTree.py: -1 for an absent node. */
  function EdgeHeight(n: Node?): int
    reads (if n == null then {} else {n})`height
  {
    if n == null then -1 else n.height
  }

  /** Heights counted in edges, the convention `height` and `update_height`
      follow: a leaf has height 0. */
  ghost predicate EdgeHeightsOk(t: Shape)
    reads Nodes(t)`height
  {
    match t
    case Nil => true
    case Br(l, n, _, r) => n.height == Height(t) - 1 && EdgeHeightsOk(l) && EdgeHeightsOk(r)
  }

  /** With right fields, `height` reads the height of the subtree in edges. */
  lemma EdgeHeightMeaning(t: Shape)
    requires EdgeHeightsOk(t)
    ensures EdgeHeight(Top(t)) == Height(t) - 1
  {
  }

  /** `update_height(node)`: one node's height from its children's. */
  method UpdateHeight(n: Node, ghost t: Shape)
    requires t.Br? && t.n == n && n.left == Top(t.l) && n.right == Top(t.r)
    requires EdgeHeightsOk(t.l) && EdgeHeightsOk(t.r) && n !in Nodes(t.l) + Nodes(t.r)
    modifies n`height
    ensures EdgeHeightsOk(t)
  {
    EdgeHeightMeaning(t.l);
    EdgeHeightMeaning(t.r);
    TopIn(t.l);
    TopIn(t.r);
    n.height := Max(EdgeHeight(n.left), EdgeHeight(n.right)) + 1;
  }

  /** `AVLNode.__init__` gives a new node height 1, where the convention of
      `height` gives a leaf 0: a fresh leaf's field is already off by one. */
  lemma FreshLeafHeight(n: Node, k: int)
    requires n.left == null && n.right == null && n.height == 1
    ensures !EdgeHeightsOk(Br(Nil, n, k, Nil)) && Height(Br(Nil, n, k, Nil)) - 1 == 0
  {
  }
}
