// The operations of Tree/vEB.py on the tree of module VebTree.

module VanEmdeBoas {
  import opened Wrappers
  import opened VebTree

  // ---------------------------------------------------------------------
  // Construction and queries
  // ---------------------------------------------------------------------

  /** `VEB(u)` for u = 2^k (Tree/vEB.py:19-36): no keys, a summary of
      universe `root_u_ceil` and `root_u_ceil` clusters of universe
      `root_u_floor` when u > 2. */
  function Blank(k: nat): (t: Veb)
    requires k >= 1
    ensures Valid(t, k) && Elems(t) == {}
    decreases k
  {
    if k == 1 then Leaf(None, None)
    else
      Universe(k);
      var s := Blank(UpperBits(k));
      var cs := seq(Ceil(k), _ => Blank(LowerBits(k)));
      EmptyTree(k, s, cs);
      Tree(k, None, None, s, cs)
  }

  /** A tree whose summary and clusters are all empty holds no key. */
  lemma EmptyTree(k: nat, s: Veb, cs: seq<Veb>)
    requires k >= 2 && |cs| == Ceil(k) && Valid(s, UpperBits(k)) && Elems(s) == {}
    requires forall h :: 0 <= h < |cs| ==> Valid(cs[h], LowerBits(k)) && Elems(cs[h]) == {}
    ensures Valid(Tree(k, None, None, s, cs), k) && Elems(Tree(k, None, None, s, cs)) == {}
  {
    assert AllValid(cs, LowerBits(k));
    assert Filed(k, cs) == {};
  }

  /** `minimum()` (Tree/vEB.py:75-82): the least key, `None` on the empty
      set. */
  function Minimum(t: Veb, k: nat): (r: Option<int>)
    requires Valid(t, k)
    ensures r.None? <==> Elems(t) == {}
    ensures r.Some? ==> r.value in Elems(t) && forall y :: y in Elems(t) ==> r.value <= y
  {
    Extremes(t, k);
    t.min
  }

  /** `maximum()` (Tree/vEB.py:84-91): the greatest key, `None` on the
      empty set. */
  function Maximum(t: Veb, k: nat): (r: Option<int>)
    requires Valid(t, k)
    ensures r.None? <==> Elems(t) == {}
    ensures r.Some? ==> r.value in Elems(t) && forall y :: y in Elems(t) ==> y <= r.value
  {
    Extremes(t, k);
    t.max
  }

  /** `is_member(key)` (Tree/vEB.py:93-105): the key is the minimum or the
      maximum, or, above universe 2, its place is in its cluster. */
  function IsMember(t: Veb, k: nat, key: int): (r: bool)
    requires Valid(t, k) && 0 <= key < Pow2(k)
    ensures r <==> key in Elems(t)
    decreases t
  {
    if t.min == Some(key) || t.max == Some(key) then
      Extremes(t, k);
      true
    else if t.Leaf? then
      false
    else
      ClusterOf(t, k, key);
      FiledMem(t.k, t.clusters, key);
      IsMember(t.clusters[High(t.k, key)], LowerBits(k), Low(t.k, key))
  }

  // ---------------------------------------------------------------------
  // successor and predecessor (Tree/vEB.py:107-166)
  // ---------------------------------------------------------------------

  /** `successor(key)`: the least key above `key`, `None` when there is
      none. Universe 2 answers directly; a key below the minimum has the
      minimum; otherwise the answer is in the key's own cluster when that
      cluster's maximum is above the key's place, and else at the minimum
      of the next cluster the summary records. */
  function Successor(t: Veb, k: nat, key: int): (r: Option<int>)
    requires Valid(t, k) && 0 <= key < Pow2(k)
    ensures r.Some? ==> r.value in Elems(t) && key < r.value
    ensures forall y :: y in Elems(t) && key < y ==> r.Some? && r.value <= y
    decreases t
  {
    Extremes(t, k);
    if t.Leaf? then
      assert Pow2(1) == 2;
      if key == 0 && t.max == Some(1) then Some(1) else None
    else if t.min.Some? && key < t.min.value then
      Some(t.min.value)
    else
      ClusterOf(t, k, key);
      var h, l := High(t.k, key), Low(t.k, key);
      var maxlow := t.clusters[h].max;
      if maxlow.Some? && l < maxlow.value then
        var offset := Successor(t.clusters[h], LowerBits(k), l);
        SuccessorHere(t, k, key, offset.value);
        Some(Index(t.k, h, offset.value))
      else
        var next := Successor(t.summary, UpperBits(k), h);
        SuccessorNext(t, k, key, next);
        if next.None? then None
        else Some(Index(t.k, next.value, t.clusters[next.value].min.value))
  }

  /** What the queries need before they look in the key's cluster and the
      summary: both are valid, the key's cluster index and place are in
      their universes, and the cluster's ends are among its keys. */
  lemma ClusterOf(t: Veb, k: nat, key: int)
    requires t.Tree? && Valid(t, k) && 0 <= key < Pow2(k)
    ensures var h := High(t.k, key);
      0 <= h < |t.clusters| && 0 <= h < Pow2(UpperBits(k)) && 0 <= Low(t.k, key) < Pow2(LowerBits(k)) &&
      Valid(t.summary, UpperBits(k)) && Valid(t.clusters[h], LowerBits(k)) &&
      (t.clusters[h].min.Some? ==> t.clusters[h].min.value in Elems(t.clusters[h])) &&
      (t.clusters[h].max.Some? ==> t.clusters[h].max.value in Elems(t.clusters[h]))
  {
    FiledMem(t.k, t.clusters, key);
    assert Valid(t.clusters[High(t.k, key)], LowerBits(k));
    Extremes(t.clusters[High(t.k, key)], LowerBits(k));
  }

  /** The successor of the key's place in its own cluster, put back
      together with the cluster, is the successor of the key. */
  lemma SuccessorHere(t: Veb, k: nat, key: int, o: int)
    requires t.Tree? && Valid(t, k) && 0 <= key < Pow2(k) && (t.min.Some? ==> t.min.value <= key)
    requires 0 <= High(t.k, key) < |t.clusters|
    requires o in Elems(t.clusters[High(t.k, key)]) && Low(t.k, key) < o
    requires forall z :: z in Elems(t.clusters[High(t.k, key)]) && Low(t.k, key) < z ==> o <= z
    ensures var x := Index(t.k, High(t.k, key), o);
      x in Elems(t) && key < x && forall y :: y in Elems(t) && key < y ==> x <= y
  {
    var kk, cs, h := t.k, t.clusters, High(t.k, key);
    var x := Index(kk, h, o);
    FiledMem(kk, cs, key);
    assert Valid(cs[h], LowerBits(k));
    FiledOf(kk, cs, h, o);
    ClusterCompare(kk, key, x);
    forall y | y in Elems(t) && key < y
      ensures x <= y
    {
      assert y in Filed(kk, cs);
      FiledMem(kk, cs, y);
      ClusterCompare(kk, key, y);
      ClusterCompare(kk, y, x);
    }
  }

  /** When the key's cluster holds nothing above the key's place, the
      successor is the minimum of the next cluster the summary records, or
      there is none. */
  lemma SuccessorNext(t: Veb, k: nat, key: int, next: Option<int>)
    requires t.Tree? && Valid(t, k) && 0 <= key < Pow2(k) && (t.min.Some? ==> t.min.value <= key)
    requires 0 <= High(t.k, key) < |t.clusters|
    requires var c := t.clusters[High(t.k, key)]; c.max.None? || Low(t.k, key) >= c.max.value
    requires next.Some? ==> next.value in Elems(t.summary) && High(t.k, key) < next.value
    requires forall z :: z in Elems(t.summary) && High(t.k, key) < z ==> next.Some? && next.value <= z
    ensures next.None? ==> forall y :: y in Elems(t) ==> y <= key
    ensures next.Some? ==> 0 <= next.value < |t.clusters| && t.clusters[next.value].min.Some?
    ensures next.Some? ==>
      var x := Index(t.k, next.value, t.clusters[next.value].min.value);
      x in Elems(t) && key < x && forall y :: y in Elems(t) && key < y ==> x <= y
  {
    var kk, s, cs, h := t.k, t.summary, t.clusters, High(t.k, key);
    FiledMem(kk, cs, key);
    assert Valid(cs[h], LowerBits(k));
    Extremes(cs[h], LowerBits(k));
    forall y | y in Elems(t) && key < y
      ensures h < High(kk, y) && High(kk, y) in Elems(s)
    {
      InSummary(kk, s, cs, y);
      ClusterCompare(kk, key, y);
    }
    if next.Some? {
      var n := next.value;
      InUniverse(s, UpperBits(k));
      assert Elems(cs[n]) != {} && Valid(cs[n], LowerBits(k));
      Extremes(cs[n], LowerBits(k));
      var x := Index(kk, n, cs[n].min.value);
      FiledOf(kk, cs, n, cs[n].min.value);
      ClusterCompare(kk, key, x);
      forall y | y in Elems(t) && key < y
        ensures x <= y
      {
        InSummary(kk, s, cs, y);
        ClusterCompare(kk, y, x);
      }
    }
  }

  /** `predecessor(key)`: the greatest key below `key`, `None` when there
      is none. It mirrors `successor`, except that when no cluster below
      holds a key the answer is the minimum, which no cluster holds. */
  function Predecessor(t: Veb, k: nat, key: int): (r: Option<int>)
    requires Valid(t, k) && 0 <= key < Pow2(k)
    ensures r.Some? ==> r.value in Elems(t) && r.value < key
    ensures forall y :: y in Elems(t) && y < key ==> r.Some? && y <= r.value
    decreases t
  {
    Extremes(t, k);
    if t.Leaf? then
      assert Pow2(1) == 2;
      if key == 1 && t.min == Some(0) then Some(0) else None
    else if t.max.Some? && key > t.max.value then
      Some(t.max.value)
    else
      ClusterOf(t, k, key);
      var h, l := High(t.k, key), Low(t.k, key);
      var minlow := t.clusters[h].min;
      if minlow.Some? && l > minlow.value then
        var offset := Predecessor(t.clusters[h], LowerBits(k), l);
        PredecessorHere(t, k, key, offset.value);
        Some(Index(t.k, h, offset.value))
      else
        var prev := Predecessor(t.summary, UpperBits(k), h);
        PredecessorNext(t, k, key, prev);
        if prev.None? then
          if t.min.Some? && key > t.min.value then Some(t.min.value) else None
        else Some(Index(t.k, prev.value, t.clusters[prev.value].max.value))
  }

  /** The predecessor of the key's place in its own cluster, put back
      together with the cluster, is the predecessor of the key. */
  lemma PredecessorHere(t: Veb, k: nat, key: int, o: int)
    requires t.Tree? && Valid(t, k) && 0 <= key < Pow2(k)
    requires 0 <= High(t.k, key) < |t.clusters|
    requires o in Elems(t.clusters[High(t.k, key)]) && o < Low(t.k, key)
    requires forall z :: z in Elems(t.clusters[High(t.k, key)]) && z < Low(t.k, key) ==> z <= o
    ensures var x := Index(t.k, High(t.k, key), o);
      x in Elems(t) && x < key && forall y :: y in Elems(t) && y < key ==> y <= x
  {
    var kk, cs, h := t.k, t.clusters, High(t.k, key);
    var x := Index(kk, h, o);
    FiledMem(kk, cs, key);
    assert Valid(cs[h], LowerBits(k));
    FiledOf(kk, cs, h, o);
    ClusterCompare(kk, x, key);
    forall y | y in Filed(kk, cs) && y < key
      ensures y <= x
    {
      FiledMem(kk, cs, y);
      ClusterCompare(kk, y, key);
      ClusterCompare(kk, x, y);
    }
  }

  /** When the key's cluster holds nothing below the key's place, the
      predecessor is the maximum of the previous cluster the summary
      records, or else only the minimum can lie below the key. */
  lemma PredecessorNext(t: Veb, k: nat, key: int, prev: Option<int>)
    requires t.Tree? && Valid(t, k) && 0 <= key < Pow2(k)
    requires 0 <= High(t.k, key) < |t.clusters|
    requires var c := t.clusters[High(t.k, key)]; c.min.None? || Low(t.k, key) <= c.min.value
    requires prev.Some? ==> prev.value in Elems(t.summary) && prev.value < High(t.k, key)
    requires forall z :: z in Elems(t.summary) && z < High(t.k, key) ==> prev.Some? && z <= prev.value
    ensures prev.None? ==> forall y :: y in Elems(t) && y < key ==> t.min == Some(y)
    ensures prev.Some? ==> 0 <= prev.value < |t.clusters| && t.clusters[prev.value].max.Some?
    ensures prev.Some? ==>
      var x := Index(t.k, prev.value, t.clusters[prev.value].max.value);
      x in Elems(t) && x < key && forall y :: y in Elems(t) && y < key ==> y <= x
  {
    var kk, s, cs, h := t.k, t.summary, t.clusters, High(t.k, key);
    FiledMem(kk, cs, key);
    assert Valid(cs[h], LowerBits(k));
    Extremes(cs[h], LowerBits(k));
    forall y | y in Filed(kk, cs) && y < key
      ensures High(kk, y) < h && High(kk, y) in Elems(s)
    {
      InSummary(kk, s, cs, y);
      ClusterCompare(kk, y, key);
    }
    if prev.Some? {
      var p := prev.value;
      InUniverse(s, UpperBits(k));
      assert Elems(cs[p]) != {} && Valid(cs[p], LowerBits(k));
      Extremes(cs[p], LowerBits(k));
      var x := Index(kk, p, cs[p].max.value);
      FiledOf(kk, cs, p, cs[p].max.value);
      ClusterCompare(kk, x, key);
      forall y | y in Filed(kk, cs) && y < key
        ensures y <= x
      {
        InSummary(kk, s, cs, y);
        ClusterCompare(kk, x, y);
      }
    }
  }

  // ---------------------------------------------------------------------
  // insert (Tree/vEB.py:168-199)
  // ---------------------------------------------------------------------

  /** `__insert_empty(key)`: an empty tree gets `key` as both minimum and
      maximum. */
  function InsertEmpty(t: Veb, k: nat, key: int): (r: Veb)
    requires Valid(t, k) && Elems(t) == {} && 0 <= key < Pow2(k)
    ensures Valid(r, k) && Elems(r) == {key}
  {
    Extremes(t, k);
    match t
    case Leaf(_, _) =>
      assert Pow2(1) == 2;
      Leaf(Some(key), Some(key))
    case Tree(_, _, _, _, _) =>
      t.(min := Some(key), max := Some(key))
  }

  /** `insert` swaps a key below the minimum with the minimum: the
      minimum it keeps and the key it files. */
  function KeptMin(mn: int, key: int): int { if key < mn then key else mn }

  function Filing(mn: int, key: int): int { if key < mn then mn else key }

  /** The new maximum after filing `x`. */
  function Raise(mx: int, x: int): int { if x > mx then x else mx }

  /** `insert(key)` of a key not in the set: the set gains the key. An
      empty tree takes it as minimum and maximum; otherwise the smaller of
      the key and the old minimum becomes the minimum, and the other one is
      filed in its cluster, which an empty cluster gets through
      `__insert_empty` after the summary records it. */
  function Insert(t: Veb, k: nat, key: int): (r: Veb)
    requires Valid(t, k) && 0 <= key < Pow2(k) && key !in Elems(t)
    ensures Valid(r, k) && Elems(r) == Elems(t) + {key}
    decreases t
  {
    if t.min.None? then
      Extremes(t, k);
      InsertEmpty(t, k, key)
    else
      var m, x := KeptMin(t.min.value, key), Filing(t.min.value, key);
      match t
      case Leaf(_, mx) =>
        LeafInserted(t, k, key);
        Leaf(Some(m), Some(Raise(mx.value, x)))
      case Tree(_, _, mx, s, cs) =>
        FileInto(t, k, key);
        var h, l := High(t.k, x), Low(t.k, x);
        if cs[h].min.None? then
          var s2 := Insert(s, UpperBits(k), h);
          var c2 := InsertEmpty(cs[h], LowerBits(k), l);
          InsertedTree(t, k, key, s2, c2);
          Tree(t.k, Some(m), Some(Raise(mx.value, x)), s2, cs[h := c2])
        else
          var c2 := Insert(cs[h], LowerBits(k), l);
          InsertedTree(t, k, key, s, c2);
          Tree(t.k, Some(m), Some(Raise(mx.value, x)), s, cs[h := c2])
  }

  /** On a tree of universe 2 the kept minimum and the raised maximum hold
      the old key and the new one. */
  lemma LeafInserted(t: Veb, k: nat, key: int)
    requires t.Leaf? && Valid(t, k) && t.min.Some? && 0 <= key < Pow2(k) && key !in Elems(t)
    ensures var r := Leaf(Some(KeptMin(t.min.value, key)), Some(Raise(t.max.value, Filing(t.min.value, key))));
      Valid(r, k) && Elems(r) == Elems(t) + {key}
  {
    assert Pow2(1) == 2;
  }

  /** What `insert` needs to file the larger of the key and the minimum:
      its cluster and place are in range, the place is not yet in the
      cluster, and the summary records the cluster unless it is empty. */
  lemma FileInto(t: Veb, k: nat, key: int)
    requires t.Tree? && Valid(t, k) && t.min.Some? && 0 <= key < Pow2(k) && key !in Elems(t)
    ensures var x := Filing(t.min.value, key);
      var h, l := High(t.k, x), Low(t.k, x);
      0 <= h < |t.clusters| && 0 <= h < Pow2(UpperBits(k)) && 0 <= l < Pow2(LowerBits(k)) &&
      Valid(t.summary, UpperBits(k)) && Valid(t.clusters[h], LowerBits(k)) &&
      l !in Elems(t.clusters[h]) &&
      (t.clusters[h].min.None? <==> h !in Elems(t.summary)) &&
      (t.clusters[h].min.None? ==> Elems(t.clusters[h]) == {})
  {
    var x := Filing(t.min.value, key);
    var h := High(t.k, x);
    FiledMem(t.k, t.clusters, x);
    assert Valid(t.clusters[h], LowerBits(k));
    Extremes(t.clusters[h], LowerBits(k));
  }

  /** The top level of `insert` on a tree with clusters, given the summary
      and the cluster of the filed key after they were updated. */
  lemma InsertedTree(t: Veb, k: nat, key: int, s2: Veb, c2: Veb)
    requires t.Tree? && Valid(t, k) && t.min.Some? && 0 <= key < Pow2(k) && key !in Elems(t)
    requires var x := Filing(t.min.value, key);
      var h := High(t.k, x);
      0 <= h < |t.clusters| &&
      Valid(s2, UpperBits(k)) && Elems(s2) == Elems(t.summary) + {h} &&
      Valid(c2, LowerBits(k)) && Elems(c2) == Elems(t.clusters[h]) + {Low(t.k, x)}
    ensures var x := Filing(t.min.value, key);
      var r := Tree(t.k, Some(KeptMin(t.min.value, key)), Some(Raise(t.max.value, x)), s2, t.clusters[High(t.k, x) := c2]);
      Valid(r, k) && Elems(r) == Elems(t) + {key}
  {
    var mn, mx, cs := t.min.value, t.max.value, t.clusters;
    var x := Filing(mn, key);
    var h := High(k, x);
    FiledAdd(k, cs, x, c2);
    Resummarized(t.summary, cs, h, c2, s2);
    AllValidUpdate(cs, LowerBits(k), h, c2);
    EndsAdd(mn, mx, Filed(k, cs), Pow2(k), key);
  }

  /** Filing the larger of a new key and the minimum keeps the ends
      right. */
  lemma EndsAdd(mn: int, mx: int, filed: set<int>, u: int, key: int)
    requires Ends(Some(mn), Some(mx), filed, u) && 0 <= key < u && key != mn && key !in filed
    ensures Ends(Some(KeptMin(mn, key)), Some(Raise(mx, Filing(mn, key))), filed + {Filing(mn, key)}, u)
  {
  }

  /** After `insert(key)`, `is_member` answers yes for the key and as
      before for every other key. */
  lemma InsertMember(t: Veb, k: nat, key: int, y: int)
    requires Valid(t, k) && 0 <= key < Pow2(k) && key !in Elems(t) && 0 <= y < Pow2(k)
    ensures IsMember(Insert(t, k, key), k, y) <==> y == key || IsMember(t, k, y)
  {
  }

  // ---------------------------------------------------------------------
  // delete (Tree/vEB.py:201-234)
  // ---------------------------------------------------------------------

  /** `delete(key)` of a key in the set: the set loses the key. A tree of
      one key becomes empty; a tree of universe 2 keeps the other bit;
      otherwise a deleted minimum is replaced by the least filed key, the
      filed key is taken out of its cluster, the summary forgets the
      cluster if that empties it, and the maximum moves down when it was
      the key taken out. */
  function Delete(t: Veb, k: nat, key: int): (r: Veb)
    requires Valid(t, k) && key in Elems(t)
    ensures Valid(r, k) && Elems(r) == Elems(t) - {key}
    decreases t
  {
    Extremes(t, k);
    if t.min == t.max then
      DeleteOnly(t, k, key);
      t.(min := None, max := None)
    else if t.Leaf? then
      LeafDeleted(t, k, key);
      var m := if key == 0 then 1 else 0;
      Leaf(Some(m), Some(m))
    else
      var x := Unfiled(t, k, key);
      var m := if key == t.min.value then x else t.min.value;
      FileOut(t, k, x);
      var h, l := High(t.k, x), Low(t.k, x);
      var c2 := Delete(t.clusters[h], LowerBits(k), l);
      var cs2 := t.clusters[h := c2];
      if c2.min.None? then
        var s2 := Delete(t.summary, UpperBits(k), h);
        EmptiedCluster(t, k, x, c2, s2);
        var mx :=
          if x != t.max.value then t.max.value
          else if s2.max.None? then m
          else Index(t.k, s2.max.value, cs2[s2.max.value].max.value);
        DeletedTree(t, k, key, x, s2, c2, mx);
        Tree(t.k, Some(m), Some(mx), s2, cs2)
      else
        KeptCluster(t, k, x, c2);
        var mx := if x == t.max.value then Index(t.k, h, c2.max.value) else t.max.value;
        DeletedTree(t, k, key, x, t.summary, c2, mx);
        Tree(t.k, Some(m), Some(mx), t.summary, cs2)
  }

  /** The key `delete` takes out of the clusters (Tree/vEB.py:218-221): the
      key itself, or, when the key is the minimum, the least filed key,
      which becomes the new minimum. */
  function Unfiled(t: Veb, k: nat, key: int): (x: int)
    requires t.Tree? && Valid(t, k) && key in Elems(t) && t.min != t.max
    ensures x in Filed(t.k, t.clusters)
    ensures key == t.min.value ==> forall y :: y in Filed(t.k, t.clusters) ==> x <= y
    ensures key != t.min.value ==> x == key
  {
    Extremes(t, k);
    if key == t.min.value then
      LeastFiled(t.k, t.summary, t.clusters);
      Index(t.k, t.summary.min.value, t.clusters[t.summary.min.value].min.value)
    else
      key
  }

  /** A tree whose minimum is its maximum holds only the deleted key. */
  lemma DeleteOnly(t: Veb, k: nat, key: int)
    requires Valid(t, k) && key in Elems(t) && t.min == t.max
    ensures var r := t.(min := None, max := None);
      Valid(r, k) && Elems(r) == Elems(t) - {key}
  {
    Extremes(t, k);
    if t.Tree? {
      assert Filed(t.k, t.clusters) == {};
    }
  }

  /** A tree of universe 2 with both keys keeps the other one. */
  lemma LeafDeleted(t: Veb, k: nat, key: int)
    requires t.Leaf? && Valid(t, k) && key in Elems(t) && t.min != t.max
    ensures var m := if key == 0 then 1 else 0;
      Valid(Leaf(Some(m), Some(m)), k) && Elems(Leaf(Some(m), Some(m))) == Elems(t) - {key}
  {
  }

  /** What `delete` needs to take a filed key out of its cluster. */
  lemma FileOut(t: Veb, k: nat, x: int)
    requires t.Tree? && Valid(t, k) && x in Filed(t.k, t.clusters)
    ensures var h, l := High(t.k, x), Low(t.k, x);
      0 <= h < |t.clusters| && 0 <= h < Pow2(UpperBits(k)) && h in Elems(t.summary) &&
      Valid(t.summary, UpperBits(k)) && Valid(t.clusters[h], LowerBits(k)) && l in Elems(t.clusters[h])
  {
    InSummary(t.k, t.summary, t.clusters, x);
    assert Valid(t.clusters[High(t.k, x)], LowerBits(k));
  }

  /** Once the cluster of `x` empties and the summary forgets it, the
      greatest key still filed is at the maximum of the summary's last
      cluster, and nothing is filed when the summary is empty. */
  lemma EmptiedCluster(t: Veb, k: nat, x: int, c2: Veb, s2: Veb)
    requires t.Tree? && Valid(t, k) && x in Filed(t.k, t.clusters)
    requires 0 <= High(t.k, x) < |t.clusters|
    requires Valid(c2, LowerBits(k)) && c2.min.None? && Elems(c2) == Elems(t.clusters[High(t.k, x)]) - {Low(t.k, x)}
    requires Valid(s2, UpperBits(k)) && Elems(s2) == Elems(t.summary) - {High(t.k, x)}
    ensures Elems(c2) == {}
    ensures var cs2 := t.clusters[High(t.k, x) := c2];
      var rest := Filed(t.k, t.clusters) - {x};
      (s2.max.None? ==> rest == {}) &&
      (s2.max.Some? ==>
        0 <= s2.max.value < |cs2| && cs2[s2.max.value].max.Some? &&
        Index(t.k, s2.max.value, cs2[s2.max.value].max.value) in rest &&
        forall y :: y in rest ==> y <= Index(t.k, s2.max.value, cs2[s2.max.value].max.value))
  {
    var kk, s, cs, h := t.k, t.summary, t.clusters, High(t.k, x);
    var cs2 := cs[h := c2];
    Extremes(c2, LowerBits(k));
    FiledMem(kk, cs, x);
    FiledRemove(kk, cs, x, c2);
    Resummarized(s, cs, h, c2, s2);
    AllValidUpdate(cs, LowerBits(k), h, c2);
    FiledNone(kk, s2, cs2);
    Extremes(s2, UpperBits(k));
    if s2.max.Some? {
      GreatestFiled(kk, s2, cs2);
    }
  }

  /** When the cluster of `x` keeps keys and `x` was the maximum, the new
      maximum is that cluster's maximum put back together with its
      index. */
  lemma KeptCluster(t: Veb, k: nat, x: int, c2: Veb)
    requires t.Tree? && Valid(t, k) && x in Filed(t.k, t.clusters)
    requires 0 <= High(t.k, x) < |t.clusters|
    requires Valid(c2, LowerBits(k)) && c2.min.Some? && Elems(c2) == Elems(t.clusters[High(t.k, x)]) - {Low(t.k, x)}
    ensures Elems(c2) != {} && c2.max.Some?
    ensures t.max.Some? && x == t.max.value ==>
      var top := Index(t.k, High(t.k, x), c2.max.value);
      top in Filed(t.k, t.clusters) - {x} && forall y :: y in Filed(t.k, t.clusters) - {x} ==> y <= top
  {
    var kk, cs, h := t.k, t.clusters, High(t.k, x);
    var cs2 := cs[h := c2];
    Extremes(c2, LowerBits(k));
    if t.max.Some? && x == t.max.value {
      FiledMem(kk, cs, x);
      FiledRemove(kk, cs, x, c2);
      forall y | y in Filed(kk, cs2)
        ensures High(kk, y) <= h
      {
        FiledMem(kk, cs, y);
        ClusterCompare(kk, y, x);
      }
      TopOfFiled(kk, cs2, h);
    }
  }

  /** The top level of `delete` on a tree with at least two keys, given the
      filed key `x` it takes out, the summary and cluster after the
      recursive deletes, and the maximum it chose. */
  lemma DeletedTree(t: Veb, k: nat, key: int, x: int, s2: Veb, c2: Veb, mx: int)
    requires t.Tree? && Valid(t, k) && key in Elems(t) && t.min != t.max
    requires x in Filed(t.k, t.clusters)
    requires key == t.min.value ==> forall y :: y in Filed(t.k, t.clusters) ==> x <= y
    requires key != t.min.value ==> x == key
    requires 0 <= High(t.k, x) < |t.clusters|
    requires Valid(c2, LowerBits(k)) && Elems(c2) == Elems(t.clusters[High(t.k, x)]) - {Low(t.k, x)}
    requires Valid(s2, UpperBits(k))
    requires Elems(s2) == if Elems(c2) == {} then Elems(t.summary) - {High(t.k, x)} else Elems(t.summary)
    requires var rest := Filed(t.k, t.clusters) - {x};
      var m := if key == t.min.value then x else t.min.value;
      (x != t.max.value ==> mx == t.max.value) &&
      (x == t.max.value && rest == {} ==> mx == m) &&
      (x == t.max.value && rest != {} ==> mx in rest && forall y :: y in rest ==> y <= mx)
    ensures var m := if key == t.min.value then x else t.min.value;
      var r := Tree(t.k, Some(m), Some(mx), s2, t.clusters[High(t.k, x) := c2]);
      Valid(r, k) && Elems(r) == Elems(t) - {key}
  {
    var s, cs, h := t.summary, t.clusters, High(k, x);
    Extremes(t, k);
    FiledMem(k, cs, x);
    FiledRemove(k, cs, x, c2);
    InSummary(k, s, cs, x);
    if Elems(c2) != {} {
      assert Elems(s2) == Elems(s) + {h};
    }
    Resummarized(s, cs, h, c2, s2);
    AllValidUpdate(cs, LowerBits(k), h, c2);
    EndsRemove(t.min.value, t.max.value, Filed(k, cs), Pow2(k), key, x, mx);
  }

  /** Taking `x` out of the filed keys, with `x` as the new minimum when the
      key was the minimum, keeps the ends right and removes the key from
      the set. */
  lemma EndsRemove(mn: int, mx: int, filed: set<int>, u: int, key: int, x: int, mx2: int)
    requires Ends(Some(mn), Some(mx), filed, u) && mn != mx && key in {mn} + filed
    requires x in filed
    requires key == mn ==> forall y :: y in filed ==> x <= y
    requires key != mn ==> x == key
    requires var rest := filed - {x};
      var m := if key == mn then x else mn;
      (x != mx ==> mx2 == mx) &&
      (x == mx && rest == {} ==> mx2 == m) &&
      (x == mx && rest != {} ==> mx2 in rest && forall y :: y in rest ==> y <= mx2)
    ensures var m := if key == mn then x else mn;
      Ends(Some(m), Some(mx2), filed - {x}, u) && {m} + (filed - {x}) == ({mn} + filed) - {key}
  {
  }
  // ---------------------------------------------------------------------
  // insert and delete as written, and the guarded forms
  // ---------------------------------------------------------------------

  /** `insert(key)` as Tree/vEB.py:178-199 writes it, for any key of the
      universe: nothing checks whether the key is already in the set. On a
      key that is not, it is `Insert`. */
  function InsertAsWritten(t: Veb, k: nat, key: int): (r: Veb)
    requires Valid(t, k) && 0 <= key < Pow2(k)
    ensures key !in Elems(t) ==> r == Insert(t, k, key)
    decreases t
  {
    Extremes(t, k);
    InUniverse(t, k);
    if t.min.None? then
      InsertEmpty(t, k, key)
    else
      var m, x := KeptMin(t.min.value, key), Filing(t.min.value, key);
      match t
      case Leaf(_, mx) =>
        Leaf(Some(m), Some(Raise(mx.value, x)))
      case Tree(_, _, mx, s, cs) =>
        ClusterOf(t, k, x);
        var h, l := High(t.k, x), Low(t.k, x);
        Extremes(cs[h], LowerBits(k));
        assert key !in Elems(t) ==> l !in Elems(cs[h]) by {
          if key !in Elems(t) {
            FileInto(t, k, key);
          }
        }
        if cs[h].min.None? then
          var s2 := InsertAsWritten(s, UpperBits(k), h);
          var c2 := InsertEmpty(cs[h], LowerBits(k), l);
          Tree(t.k, Some(m), Some(Raise(mx.value, x)), s2, cs[h := c2])
        else
          var c2 := InsertAsWritten(cs[h], LowerBits(k), l);
          Tree(t.k, Some(m), Some(Raise(mx.value, x)), s, cs[h := c2])
  }

  /** `delete(key)` as Tree/vEB.py:201-234 writes it, for any key of the
      universe: nothing checks whether the key is in the set. On a key that
      is, it is `Delete`. The branches that read a cluster's maximum are
      reached only when the key taken out is the maximum, hence in the
      set, so they never meet an empty cluster. */
  function DeleteAsWritten(t: Veb, k: nat, key: int): (r: Veb)
    requires Valid(t, k) && 0 <= key < Pow2(k)
    ensures key in Elems(t) ==> r == Delete(t, k, key)
    decreases t
  {
    Extremes(t, k);
    if t.min == t.max then
      t.(min := None, max := None)
    else if t.Leaf? then
      var m := if key == 0 then 1 else 0;
      Leaf(Some(m), Some(m))
    else
      var x := if key == t.min.value then Unfiled(t, k, key) else key;
      var m := if key == t.min.value then x else t.min.value;
      ClusterOf(t, k, x);
      var h, l := High(t.k, x), Low(t.k, x);
      assert x == t.max.value ==> key in Elems(t);
      assert key in Elems(t) ==> l in Elems(t.clusters[h]) && h in Elems(t.summary) by {
        if key in Elems(t) {
          FileOut(t, k, x);
        }
      }
      var c2 := DeleteAsWritten(t.clusters[h], LowerBits(k), l);
      var cs2 := t.clusters[h := c2];
      if c2.min.None? then
        var s2 := DeleteAsWritten(t.summary, UpperBits(k), h);
        assert x == t.max.value && s2.max.Some? ==>
          0 <= s2.max.value < |cs2| && cs2[s2.max.value].max.Some? by {
          if x == t.max.value {
            EmptiedCluster(t, k, x, c2, s2);
          }
        }
        var mx :=
          if x != t.max.value then t.max.value
          else if s2.max.None? then m
          else Index(t.k, s2.max.value, cs2[s2.max.value].max.value);
        Tree(t.k, Some(m), Some(mx), s2, cs2)
      else
        assert x == t.max.value ==> c2.max.Some? by {
          if x == t.max.value {
            KeptCluster(t, k, x, c2);
          }
        }
        var mx := if x == t.max.value then Index(t.k, h, c2.max.value) else t.max.value;
        Tree(t.k, Some(m), Some(mx), t.summary, cs2)
  }

  /** A second `insert(1)` into {1} of universe 4 files the minimum in
      cluster 0 as well, which the invariant forbids; a later `delete(1)`
      then clears only the minimum and the maximum and leaves 1 filed. */
  lemma InsertTwiceCorrupts()
    ensures var t := Insert(Blank(2), 2, 1);
      var r := InsertAsWritten(t, 2, 1);
      Elems(t) == {1} && r.Tree? && r.min == r.max == Some(1) &&
      1 in Filed(2, r.clusters) && !Valid(r, 2)
  {
    var t := Insert(Blank(2), 2, 1);
    assert Pow2(1) == 2 && Floor(2) == 2;
    assert High(2, 1) == 0 && Low(2, 1) == 1;
    var r := InsertAsWritten(t, 2, 1);
    assert r.clusters[0] == Leaf(Some(1), Some(1));
    assert 1 in Filed(2, r.clusters);
  }

  /** `delete(0)` on {2} of universe 4: 0 is not in the set, but the tree
      holds a single key, so `delete` empties it. */
  lemma DeleteAbsentEmpties()
    ensures var t := Insert(Blank(2), 2, 2);
      Elems(t) == {2} && 0 !in Elems(t) && Elems(DeleteAsWritten(t, 2, 0)) == {}
  {
    var t := Insert(Blank(2), 2, 2);
    assert t.min == t.max == Some(2);
    assert Elems(DeleteAsWritten(t, 2, 0)) == Filed(2, t.clusters) == {};
  }

  /** `insert` with the membership guard the set interface needs: a key
      already in the set leaves the tree as it is. */
  function Add(t: Veb, k: nat, key: int): (r: Veb)
    requires Valid(t, k) && 0 <= key < Pow2(k)
    ensures Valid(r, k) && Elems(r) == Elems(t) + {key}
  {
    if IsMember(t, k, key) then t else Insert(t, k, key)
  }

  /** `delete` with the membership guard: a key not in the set leaves the
      tree as it is. */
  function Discard(t: Veb, k: nat, key: int): (r: Veb)
    requires Valid(t, k) && 0 <= key < Pow2(k)
    ensures Valid(r, k) && Elems(r) == Elems(t) - {key}
  {
    if IsMember(t, k, key) then Delete(t, k, key) else t
  }
}
