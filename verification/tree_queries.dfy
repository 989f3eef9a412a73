/**
 * The read-only walks of the tree variants: the `rank` of SizeBSTNode and
 * SizeAVLNode, the `list` of AVLNode and the `check_ri` of every node class,
 * each read straight off the node fields, together with the reference
 * definitions they are proved against.
 */
module TreeQueries {
  import opened TreeShape

  /** `AVL._height`: 0 for an absent child. */
  function HeightOf(n: Node?): int
    reads (if n == null then {} else {n})`height
  {
    if n == null then 0 else n.height
  }

  /** `size` of Tree/SizeBST.py and `SizeAVL._size`: 0 for an absent child. */
  function SizeOf(n: Node?): int
    reads (if n == null then {} else {n})`size
  {
    if n == null then 0 else n.size
  }

  /** In a tree whose fields are right, the helpers read the subtree's height
      and node count. */
  lemma FieldsMeaning(t: Shape)
    ensures HeightsOk(t) ==> HeightOf(Top(t)) == Height(t)
    ensures SizesOk(t) ==> SizeOf(Top(t)) == Count(t)
  {
  }

  lemma TopIn(t: Shape)
    ensures t.Br? ==> t.n in Nodes(t)
  {
  }

  lemma {:induction false} KeysCount(t: Shape)
    ensures |Keys(t)| == Count(t)
  {
    match t
    case Nil =>
    case Br(l, _, _, r) => KeysCount(l); KeysCount(r);
  }

  // ---------------------------------------------------------------------
  // Counting keys
  // ---------------------------------------------------------------------

  /** How many of the keys are at most `k`. */
  function CountAtMost(s: seq<int>, k: int): nat
  {
    if s == [] then 0 else (if s[0] <= k then 1 else 0) + CountAtMost(s[1..], k)
  }

  /** How many of the keys lie in the half-open interval (lo, hi]. */
  function CountIn(s: seq<int>, lo: int, hi: int): nat
  {
    if s == [] then 0 else (if lo < s[0] <= hi then 1 else 0) + CountIn(s[1..], lo, hi)
  }

  lemma {:induction false} CountAtMostConcat(a: seq<int>, b: seq<int>, k: int)
    ensures CountAtMost(a + b, k) == CountAtMost(a, k) + CountAtMost(b, k)
  {
    if a != [] {
      assert (a + b)[0] == a[0] && (a + b)[1..] == a[1..] + b;
      CountAtMostConcat(a[1..], b, k);
    } else {
      assert a + b == b;
    }
  }

  lemma {:induction false} CountAtMostAll(s: seq<int>, k: int)
    ensures (forall i :: 0 <= i < |s| ==> s[i] <= k) ==> CountAtMost(s, k) == |s|
    ensures (forall i :: 0 <= i < |s| ==> k < s[i]) ==> CountAtMost(s, k) == 0
  {
    if s != [] {
      CountAtMostAll(s[1..], k);
    }
  }

  /** The difference of two counts is the count of the interval between them:
      what `range` returns is the number of keys in (k1, k2]. */
  lemma {:induction false} RangeMeaning(s: seq<int>, k1: int, k2: int)
    requires k1 <= k2
    ensures CountAtMost(s, k2) - CountAtMost(s, k1) == CountIn(s, k1, k2)
  {
    if s != [] {
      RangeMeaning(s[1..], k1, k2);
    }
  }

  /** The split `rank` relies on at a node with key `t.k`. */
  lemma {:induction false} RankSplit(t: Shape, k: int)
    requires t.Br?
    ensures Sorted(Keys(t)) ==> Sorted(Keys(t.l)) && Sorted(Keys(t.r))
    ensures Sorted(Keys(t)) && k < t.k ==> CountAtMost(Keys(t), k) == CountAtMost(Keys(t.l), k)
    ensures Sorted(Keys(t)) && t.k <= k ==>
      CountAtMost(Keys(t), k) == Count(t.l) + 1 + CountAtMost(Keys(t.r), k)
  {
    var a, b := Keys(t.l), Keys(t.r);
    SortedSplit(a, t.k, b);
    assert Keys(t) == a + ([t.k] + b);
    CountAtMostConcat(a, [t.k] + b, k);
    CountAtMostConcat([t.k], b, k);
    KeysCount(t.l);
    CountAtMostAll(a, k);
    CountAtMostAll(b, k);
  }

  /** `rank(k)` of SizeBSTNode and SizeAVLNode: one path down the subtree,
      adding up the sizes of the parts at most `k`. */
  function Rank(n: Node, k: int, ghost t: Shape): int
    requires t.Br? && t.n == n && Shaped(t) && KeysOk(t) && SizesOk(t)
    reads Nodes(t)`left, Nodes(t)`right, Nodes(t)`key, Nodes(t)`size
    decreases t
  {
    TopIn(t.l);
    TopIn(t.r);
    if k < n.key then
      if n.left == null then 0 else Rank(n.left, k, t.l)
    else if n.right == null then
      n.size
    else 1 + SizeOf(n.left) + Rank(n.right, k, t.r)
  }

  /** In a sorted subtree, `rank(k)` is the number of keys at most `k`. */
  lemma {:induction false} RankMeaning(n: Node, k: int, t: Shape)
    requires t.Br? && t.n == n && Shaped(t) && KeysOk(t) && SizesOk(t)
    ensures Sorted(Keys(t)) ==> Rank(n, k, t) == CountAtMost(Keys(t), k)
    decreases t
  {
    RankSplit(t, k);
    FieldsMeaning(t.l);
    TopIn(t.l);
    TopIn(t.r);
    if k < n.key {
      if n.left != null {
        RankMeaning(n.left, k, t.l);
      }
    } else if n.right == null {
      assert t.r == Nil && CountAtMost(Keys(t.r), k) == 0;
      assert n.size == Count(t);
    } else {
      RankMeaning(n.right, k, t.r);
    }
  }

  // ---------------------------------------------------------------------
  // Listing the keys of an interval
  // ---------------------------------------------------------------------

  /** The keys strictly between `k1` and `k2`, in their order. */
  function Between(s: seq<int>, k1: int, k2: int): seq<int>
  {
    if s == [] then [] else (if k1 < s[0] < k2 then [s[0]] else []) + Between(s[1..], k1, k2)
  }

  lemma {:induction false} BetweenConcat(a: seq<int>, b: seq<int>, k1: int, k2: int)
    ensures Between(a + b, k1, k2) == Between(a, k1, k2) + Between(b, k1, k2)
  {
    if a != [] {
      assert (a + b)[0] == a[0] && (a + b)[1..] == a[1..] + b;
      BetweenConcat(a[1..], b, k1, k2);
    } else {
      assert a + b == b;
    }
  }

  lemma {:induction false} BetweenNone(s: seq<int>, k1: int, k2: int)
    requires (forall i :: 0 <= i < |s| ==> s[i] <= k1) || (forall i :: 0 <= i < |s| ==> k2 <= s[i])
    ensures Between(s, k1, k2) == []
  {
    if s != [] {
      BetweenNone(s[1..], k1, k2);
    }
  }

  /** `AVLNode.list` as Tree/AVL.py:27-37 writes it, with the result list
      passed explicitly: a node inside the interval adds its key and visits
      both children, but a node outside it visits only the child towards the
      interval, and only when that child exists. Everything it adds is a key
      of the subtree strictly between `k1` and `k2`. */
  function ListAsWritten(n: Node, k1: int, k2: int, acc: seq<int>, ghost t: Shape): (r: seq<int>)
    requires t.Br? && t.n == n && Shaped(t) && KeysOk(t)
    reads Nodes(t)`left, Nodes(t)`right, Nodes(t)`key
    ensures |acc| <= |r| && r[..|acc|] == acc
    ensures forall i :: |acc| <= i < |r| ==> k1 < r[i] < k2 && r[i] in Keys(t)
    decreases t
  {
    if n.key < k2 && n.key > k1 then
      var withKey := acc + [n.key];
      var afterLeft := if n.left != null then ListAsWritten(n.left, k1, k2, withKey, t.l) else withKey;
      if n.right != null then ListAsWritten(n.right, k1, k2, afterLeft, t.r) else afterLeft
    else if n.key > k2 && n.left != null then ListAsWritten(n.left, k1, k2, acc, t.l)
    else if n.key < k1 && n.right != null then ListAsWritten(n.right, k1, k2, acc, t.r)
    else acc
  }

  /** The listing as intended: a node inside the interval visits its left
      child, adds its key, then visits its right child; a node at or beyond
      a bound visits only the child towards the interval. */
  function List(n: Node, k1: int, k2: int, acc: seq<int>, ghost t: Shape): seq<int>
    requires t.Br? && t.n == n && Shaped(t) && KeysOk(t)
    reads Nodes(t)`left, Nodes(t)`right, Nodes(t)`key
    decreases t
  {
    if k1 < n.key < k2 then
      var afterLeft := if n.left != null then List(n.left, k1, k2, acc, t.l) else acc;
      var withKey := afterLeft + [n.key];
      if n.right != null then List(n.right, k1, k2, withKey, t.r) else withKey
    else if k2 <= n.key then
      if n.left != null then List(n.left, k1, k2, acc, t.l) else acc
    else
      if n.right != null then List(n.right, k1, k2, acc, t.r) else acc
  }

  /** In a search tree the listing appends exactly the keys strictly between
      `k1` and `k2`, in sorted order. */
  lemma {:induction false} ListMeaning(n: Node, k1: int, k2: int, acc: seq<int>, t: Shape)
    requires t.Br? && t.n == n && Shaped(t) && KeysOk(t) && Sorted(Keys(t))
    ensures List(n, k1, k2, acc, t) == acc + Between(Keys(t), k1, k2)
    decreases t, 1
  {
    if k1 < n.key < k2 {
      ListInside(n, k1, k2, acc, t);
    } else {
      ListOutside(n, k1, k2, acc, t);
    }
  }

  lemma {:induction false} ListInside(n: Node, k1: int, k2: int, acc: seq<int>, t: Shape)
    requires t.Br? && t.n == n && Shaped(t) && KeysOk(t) && Sorted(Keys(t)) && k1 < n.key < k2
    ensures List(n, k1, k2, acc, t) == acc + Between(Keys(t), k1, k2)
    decreases t, 0
  {
    ListSplit(t, k1, k2);
    var bl, br := Between(Keys(t.l), k1, k2), Between(Keys(t.r), k1, k2);
    var afterLeft := if n.left != null then List(n.left, k1, k2, acc, t.l) else acc;
    if n.left != null {
      ListMeaning(n.left, k1, k2, acc, t.l);
    } else {
      assert bl == [];
    }
    var withKey := afterLeft + [n.key];
    if n.right != null {
      ListMeaning(n.right, k1, k2, withKey, t.r);
    } else {
      assert br == [];
    }
    Regroup(acc, bl, n.key, br);
  }

  lemma {:induction false} ListOutside(n: Node, k1: int, k2: int, acc: seq<int>, t: Shape)
    requires t.Br? && t.n == n && Shaped(t) && KeysOk(t) && Sorted(Keys(t)) && !(k1 < n.key < k2)
    ensures List(n, k1, k2, acc, t) == acc + Between(Keys(t), k1, k2)
    decreases t, 0
  {
    ListSplit(t, k1, k2);
    if k2 <= n.key {
      assert List(n, k1, k2, acc, t) == if n.left != null then List(n.left, k1, k2, acc, t.l) else acc;
      if n.left != null {
        ListMeaning(n.left, k1, k2, acc, t.l);
      } else {
        assert t.l == Nil;
      }
    } else {
      assert List(n, k1, k2, acc, t) == if n.right != null then List(n.right, k1, k2, acc, t.r) else acc;
      if n.right != null {
        ListMeaning(n.right, k1, k2, acc, t.r);
      } else {
        assert t.r == Nil;
      }
    }
  }

  lemma Regroup3(a: seq<int>, x: int, b: seq<int>, c: seq<int>)
    ensures a + ([x] + b + c) == a + [x] + b + c
  {
  }

  lemma Regroup(a: seq<int>, b: seq<int>, x: int, c: seq<int>)
    ensures a + (b + [x] + c) == a + b + [x] + c
  {
  }

  lemma {:induction false} ListSplit(t: Shape, k1: int, k2: int)
    requires t.Br?
    ensures Sorted(Keys(t)) ==> Sorted(Keys(t.l)) && Sorted(Keys(t.r))
    ensures Sorted(Keys(t)) && k1 < t.k < k2 ==>
      Between(Keys(t), k1, k2) == Between(Keys(t.l), k1, k2) + [t.k] + Between(Keys(t.r), k1, k2)
    ensures Sorted(Keys(t)) && k2 <= t.k ==> Between(Keys(t), k1, k2) == Between(Keys(t.l), k1, k2)
    ensures Sorted(Keys(t)) && t.k <= k1 ==> Between(Keys(t), k1, k2) == Between(Keys(t.r), k1, k2)
  {
    var a, b := Keys(t.l), Keys(t.r);
    if Sorted(Keys(t)) {
      SortedSplit(a, t.k, b);
      assert Keys(t) == a + [t.k] + b;
      BetweenConcat(a + [t.k], b, k1, k2);
      BetweenConcat(a, [t.k], k1, k2);
      assert Between([t.k], k1, k2) == (if k1 < t.k < k2 then [t.k] else []) by {
        assert [t.k][1..] == [];
      }
      if t.k <= k1 {
        BetweenNone(a, k1, k2);
        assert Between(a + [t.k], k1, k2) == [];
      }
      if k2 <= t.k {
        BetweenNone(b, k1, k2);
        assert Between(Keys(t), k1, k2) == Between(a, k1, k2) + [] + [];
      }
    }
  }

  /** The listing as written misses keys: in the tree 1 -> (right) 2, the
      keys strictly between 1 and 3 are [2], but the root holds the lower
      bound itself, is neither inside nor below the interval, and the walk
      stops there. */
  lemma ListAsWrittenMissesKeys(a: Node, b: Node)
    requires a.key == 1 && a.left == null && a.right == b
    requires b.key == 2 && b.left == null && b.right == null
    ensures var t := Br(Nil, a, 1, Br(Nil, b, 2, Nil));
      Shaped(t) && KeysOk(t) && Sorted(Keys(t)) &&
      ListAsWritten(a, 1, 3, [], t) == [] && List(a, 1, 3, [], t) == [2]
  {
    var t := Br(Nil, a, 1, Br(Nil, b, 2, Nil));
    assert Keys(t) == [1, 2];
    assert Between([2], 1, 3) == [2];
  }

  /** The keys the listing as written appends, read off the shape: a key
      inside the interval, then the left subtree's, then the right
      subtree's; outside it, only the subtree towards the interval. */
  function PreOrder(t: Shape, k1: int, k2: int): seq<int>
  {
    match t
    case Nil => []
    case Br(l, _, k, r) =>
      if k1 < k < k2 then [k] + PreOrder(l, k1, k2) + PreOrder(r, k1, k2)
      else if k > k2 && l.Br? then PreOrder(l, k1, k2)
      else if k < k1 then PreOrder(r, k1, k2)
      else []
  }

  /** The node listing as written appends `PreOrder` to the list it is
      given. */
  lemma {:induction false} ListAsWrittenPreOrder(n: Node, k1: int, k2: int, acc: seq<int>, t: Shape)
    requires t.Br? && t.n == n && Shaped(t) && KeysOk(t)
    ensures ListAsWritten(n, k1, k2, acc, t) == acc + PreOrder(t, k1, k2)
    decreases t
  {
    var pl, pr := PreOrder(t.l, k1, k2), PreOrder(t.r, k1, k2);
    if k1 < n.key < k2 {
      var withKey := acc + [n.key];
      var afterLeft := if n.left != null then ListAsWritten(n.left, k1, k2, withKey, t.l) else withKey;
      if n.left != null {
        ListAsWrittenPreOrder(n.left, k1, k2, withKey, t.l);
      }
      assert afterLeft == withKey + pl;
      if n.right != null {
        ListAsWrittenPreOrder(n.right, k1, k2, afterLeft, t.r);
      }
      assert PreOrder(t, k1, k2) == [n.key] + pl + pr;
      Regroup3(acc, n.key, pl, pr);
    } else if n.key > k2 && n.left != null {
      ListAsWrittenPreOrder(n.left, k1, k2, acc, t.l);
    } else if n.key < k1 && n.right != null {
      ListAsWrittenPreOrder(n.right, k1, k2, acc, t.r);
    }
  }

  /** When neither bound is a key, `PreOrder` holds the keys strictly
      between the bounds, each once. */
  lemma {:induction false} PreOrderComplete(t: Shape, k1: int, k2: int)
    requires Sorted(Keys(t)) && k1 < k2 && k1 !in Keys(t) && k2 !in Keys(t)
    ensures multiset(PreOrder(t, k1, k2)) == multiset(Between(Keys(t), k1, k2))
    decreases t, 1
  {
    if t.Br? {
      var a, b := Keys(t.l), Keys(t.r);
      assert Keys(t) == a + [t.k] + b;
      assert k1 !in a && k2 !in a && k1 !in b && k2 !in b;
      assert Keys(t)[|a|] == t.k;
      ListSplit(t, k1, k2);
      if k1 < t.k < k2 {
        PreOrderInside(t, k1, k2);
      } else if t.k > k2 {
        PreOrderComplete(t.l, k1, k2);
        assert PreOrder(t, k1, k2) == PreOrder(t.l, k1, k2);
      } else {
        assert t.k < k1;
        PreOrderComplete(t.r, k1, k2);
        assert PreOrder(t, k1, k2) == PreOrder(t.r, k1, k2);
      }
    }
  }

  lemma {:induction false} PreOrderInside(t: Shape, k1: int, k2: int)
    requires t.Br? && k1 < t.k < k2
    requires Sorted(Keys(t.l)) && k1 !in Keys(t.l) && k2 !in Keys(t.l)
    requires Sorted(Keys(t.r)) && k1 !in Keys(t.r) && k2 !in Keys(t.r)
    requires Between(Keys(t), k1, k2) == Between(Keys(t.l), k1, k2) + [t.k] + Between(Keys(t.r), k1, k2)
    ensures multiset(PreOrder(t, k1, k2)) == multiset(Between(Keys(t), k1, k2))
    decreases t, 0
  {
    var bl, br := Between(Keys(t.l), k1, k2), Between(Keys(t.r), k1, k2);
    var pl, pr := PreOrder(t.l, k1, k2), PreOrder(t.r, k1, k2);
    PreOrderComplete(t.l, k1, k2);
    PreOrderComplete(t.r, k1, k2);
    assert PreOrder(t, k1, k2) == [t.k] + pl + pr;
    assert multiset([t.k] + pl + pr) == multiset{t.k} + multiset(pl) + multiset(pr);
    assert multiset(bl + [t.k] + br) == multiset(bl) + multiset{t.k} + multiset(br);
  }

  /** When neither bound is a key of the tree, the listing as written
      misses nothing: it appends the keys strictly between `k1` and `k2`,
      each once, though in the order it visits them (node before children)
      rather than in key order. */
  lemma ListAsWrittenComplete(n: Node, k1: int, k2: int, acc: seq<int>, t: Shape)
    requires t.Br? && t.n == n && Shaped(t) && KeysOk(t) && Sorted(Keys(t))
    ensures k1 !in Keys(t) && k2 !in Keys(t) ==>
      multiset(ListAsWritten(n, k1, k2, acc, t)) == multiset(acc) + multiset(Between(Keys(t), k1, k2))
  {
    ListAsWrittenPreOrder(n, k1, k2, acc, t);
    if k2 <= k1 {
      PreOrderEmpty(t, k1, k2);
      BetweenEmpty(Keys(t), k1, k2);
    } else if k1 !in Keys(t) && k2 !in Keys(t) {
      PreOrderComplete(t, k1, k2);
    }
  }

  lemma {:induction false} PreOrderEmpty(t: Shape, k1: int, k2: int)
    requires k2 <= k1
    ensures PreOrder(t, k1, k2) == []
  {
    if t.Br? {
      PreOrderEmpty(t.l, k1, k2);
      PreOrderEmpty(t.r, k1, k2);
    }
  }

  /** An empty interval holds no keys. */
  lemma {:induction false} BetweenEmpty(s: seq<int>, k1: int, k2: int)
    requires k2 <= k1
    ensures Between(s, k1, k2) == []
  {
    if s != [] {
      BetweenEmpty(s[1..], k1, k2);
    }
  }

  // ---------------------------------------------------------------------
  // The representation check
  // ---------------------------------------------------------------------

  /** Which clause on the heights of the two children a `check_ri` has: none
      (BSTNode, SizeBSTNode), the one Tree/AVL.py:48-49 and
      BST/SizeAVL.py:67-68 write, or the one they evidently intend. */
  datatype BalanceRule = NoBalance | AsWritten | Corrected

  predicate BalanceClause(rule: BalanceRule, hl: int, hr: int)
  {
    match rule
    case NoBalance => true
    case AsWritten => hr - hl < 2 || hr - hl > -2
    case Corrected => hr - hl < 2 && hr - hl > -2
  }

  /** The clause as written holds for all heights: it checks nothing. */
  lemma AsWrittenClauseVacuous(hl: int, hr: int)
    ensures BalanceClause(AsWritten, hl, hr) == BalanceClause(NoBalance, hl, hr)
  {
  }

  /** Each child's key is on the proper side of its parent's key. */
  ghost predicate LocallyOrdered(t: Shape)
  {
    match t
    case Nil => true
    case Br(l, _, k, r) =>
      (l.Br? ==> l.k <= k) && (r.Br? ==> k <= r.k) && LocallyOrdered(l) && LocallyOrdered(r)
  }

  /** At every node the height fields of the two children differ by at most one. */
  ghost predicate FieldsBalanced(t: Shape)
    reads Nodes(t)`height
  {
    match t
    case Nil => true
    case Br(l, _, _, r) =>
      TopIn(l); TopIn(r);
      -1 <= HeightOf(Top(r)) - HeightOf(Top(l)) <= 1 && FieldsBalanced(l) && FieldsBalanced(r)
  }

  /** `check_ri` of the node classes, as a value: true exactly when none of
      its assertions would fail. It checks the parent pointers, each child's
      key against its parent's, the balance clause chosen by `rule` and, for
      the sized variants, that every size is one more than its children's. */
  function CheckRi(n: Node, ghost t: Shape, rule: BalanceRule, sized: bool): (ok: bool)
    requires t.Br? && t.n == n && Shaped(t) && KeysOk(t)
    reads Nodes(t)`left, Nodes(t)`right, Nodes(t)`key, Nodes(t)`parent, Nodes(t)`height, Nodes(t)`size
    ensures ok ==> Linked(t, n.parent) && LocallyOrdered(t)
    ensures ok ==> (rule == Corrected ==> FieldsBalanced(t)) && (sized ==> SizesOk(t))
    ensures (Linked(t, n.parent) && LocallyOrdered(t) &&
      (rule == Corrected ==> FieldsBalanced(t)) && (sized ==> SizesOk(t))) ==> ok
    decreases t
  {
    TopIn(t.l); TopIn(t.r);
    FieldsMeaning(t.l); FieldsMeaning(t.r);
    ChildFields(t);
    BalanceClause(rule, HeightOf(n.left), HeightOf(n.right)) &&
    (n.left != null ==> n.left.key <= n.key && n.left.parent == n && CheckRi(n.left, t.l, rule, sized)) &&
    (n.right != null ==> n.right.key >= n.key && n.right.parent == n && CheckRi(n.right, t.r, rule, sized)) &&
    (sized ==> n.size == 1 + SizeOf(n.left) + SizeOf(n.right))
  }

  lemma ChildFields(t: Shape)
    requires t.Br? && Shaped(t) && KeysOk(t)
    ensures t.l.Br? ==> t.n.left == t.l.n && t.l.n.key == t.l.k && (Linked(t.l, t.n) <==> Linked(t.l, t.l.n.parent) && t.l.n.parent == t.n)
    ensures t.r.Br? ==> t.n.right == t.r.n && t.r.n.key == t.r.k && (Linked(t.r, t.n) <==> Linked(t.r, t.r.n.parent) && t.r.n.parent == t.n)
    ensures t.l.Nil? <==> t.n.left == null
    ensures t.r.Nil? <==> t.n.right == null
  {
  }

  /** The check only compares neighbours: 2 with left child 1 whose right
      child is 3 passes it, although 3 sits left of 2. */
  lemma LocalOrderIsWeaker(a: Node, b: Node, c: Node)
    ensures var t := Br(Br(Nil, a, 1, Br(Nil, c, 3, Nil)), b, 2, Nil);
      LocallyOrdered(t) && !Sorted(Keys(t))
  {
    var t := Br(Br(Nil, a, 1, Br(Nil, c, 3, Nil)), b, 2, Nil);
    assert Keys(t.l) == [1, 3];
    assert Keys(t) == [1, 3, 2];
    assert Keys(t)[1] > Keys(t)[2];
  }

  /** A sorted tree passes the key comparisons of the check. */
  lemma {:induction false} SortedLocallyOrdered(t: Shape)
    requires Sorted(Keys(t))
    ensures LocallyOrdered(t)
  {
    match t
    case Nil =>
    case Br(l, _, k, r) =>
      SortedSplit(Keys(l), k, Keys(r));
      SortedLocallyOrdered(l);
      SortedLocallyOrdered(r);
      if l.Br? { KeysLast(l); }
      if r.Br? { KeysFirst(r); }
  }

  lemma KeysLast(t: Shape)
    requires t.Br?
    ensures t.k in Keys(t)
  {
  }

  lemma KeysFirst(t: Shape)
    requires t.Br?
    ensures t.k in Keys(t)
  {
  }

  /** With right height fields, the corrected clause is the balance of the
      tree itself. */
  lemma {:induction false} FieldsBalancedMeaning(t: Shape)
    requires HeightsOk(t)
    ensures FieldsBalanced(t) <==> Balanced(t)
  {
    match t
    case Nil =>
    case Br(l, _, _, r) =>
      FieldsMeaning(l); FieldsMeaning(r);
      FieldsBalancedMeaning(l);
      FieldsBalancedMeaning(r);
  }

  /** The check as written passes an unbalanced chain 1 -> 2 -> 3 whose
      height fields are right; the corrected clause rejects it. */
  lemma AsWrittenCheckPassesChain(a: Node, b: Node, c: Node)
    requires a.key == 1 && a.left == null && a.right == b && a.height == 3
    requires b.key == 2 && b.left == null && b.right == c && b.parent == a && b.height == 2
    requires c.key == 3 && c.left == null && c.right == null && c.parent == b && c.height == 1
    ensures var t := Br(Nil, a, 1, Br(Nil, b, 2, Br(Nil, c, 3, Nil)));
      Shaped(t) && KeysOk(t) && HeightsOk(t) && !Balanced(t) &&
      CheckRi(a, t, AsWritten, false) && !CheckRi(a, t, Corrected, false)
  {
    var t := Br(Nil, a, 1, Br(Nil, b, 2, Br(Nil, c, 3, Nil)));
    assert Keys(t.r) == [2, 3];
    assert Keys(t) == [1, 2, 3];
    assert Height(t.r) == 2;
  }
}
