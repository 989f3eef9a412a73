// The skip list of LinkList/SkipList.py.
//
// A level is the chain of nodes from its head `Node(-1)` along `next`; the
// model keeps it as the sequence of its nodes in that order, so `next` is the
// following position and `prev` the one before. Each node is a `Cell`: its
// key and the identity of its tower. The nodes of one tower are the nodes
// tied together by `bottom`, so a node's `bottom` is the node of the same
// tower on the level below, and the heads of all levels form tower 0.

module SkipLevels {

  /** A node: its `key`, and `id`, the tower the node belongs to. */
  datatype Cell = Cell(key: int, id: nat)

  /** The head `Node(-1)` that starts every level. */
  const Head := Cell(-1, 0)

  function Max(a: int, b: int): int
  {
    if a < b then b else a
  }

  /** Keys never decrease along `next`. */
  predicate Sorted(level: seq<Cell>)
  {
    forall a, b :: 0 <= a < b < |level| ==> level[a].key <= level[b].key
  }

  /** A well-formed level: the head first, then nodes in key order, with
      keys of at least 0, with towers numbered below `n`, and no tower twice. */
  ghost predicate LevelOk(level: seq<Cell>, n: nat)
  {
    |level| >= 1 && level[0] == Head && Sorted(level) &&
    (forall m :: 1 <= m < |level| ==> level[m].key >= 0 && 1 <= level[m].id < n) &&
    (forall a, b :: 0 <= a < b < |level| ==> level[a].id != level[b].id)
  }

  /** Every node of a level reaches by `bottom` the node of its tower on each
      level below: towers have no gaps. */
  ghost predicate Towers(levels: seq<seq<Cell>>)
  {
    forall k, k2, d {:trigger d in levels[k], d in levels[k2]} :: 0 <= k2 <= k < |levels| && d in levels[k] ==> d in levels[k2]
  }

  /** `startList`, bottom level first, is well-formed. */
  ghost predicate LevelsOk(levels: seq<seq<Cell>>, n: nat)
  {
    |levels| >= 1 && (forall k {:trigger levels[k]} :: 0 <= k < |levels| ==> LevelOk(levels[k], n)) && Towers(levels)
  }

  /** The keys of some nodes. */
  function Keys(cells: seq<Cell>): multiset<int>
  {
    if cells == [] then multiset{} else multiset{cells[0].key} + Keys(cells[1..])
  }

  lemma {:induction false} KeysConcat(a: seq<Cell>, b: seq<Cell>)
    ensures Keys(a + b) == Keys(a) + Keys(b)
  {
    if a != [] {
      assert (a + b)[0] == a[0] && (a + b)[1..] == a[1..] + b;
      KeysConcat(a[1..], b);
      calc {
        Keys(a + b);
        multiset{a[0].key} + Keys(a[1..] + b);
        multiset{a[0].key} + Keys(a[1..]) + Keys(b);
      }
    } else {
      assert a + b == b;
    }
  }

  /** A key is among the keys exactly when some node holds it. */
  lemma {:induction false} KeysIn(cells: seq<Cell>, x: int)
    ensures x in Keys(cells) <==> exists m :: 0 <= m < |cells| && cells[m].key == x
  {
    if cells != [] {
      KeysIn(cells[1..], x);
      if x in Keys(cells[1..]) {
        var m :| 0 <= m < |cells[1..]| && cells[1..][m].key == x;
        assert cells[m + 1].key == x;
      }
      if exists m :: 0 <= m < |cells| && cells[m].key == x {
        var m :| 0 <= m < |cells| && cells[m].key == x;
        if m > 0 {
          assert cells[1..][m - 1].key == x;
        }
      }
    }
  }

  /** `Node.find(target)` from the node at `j`: follows `next` while the next
      key is at most `target`, and stops at the last such node. */
  function Find(level: seq<Cell>, j: nat, target: int): (r: nat)
    requires j < |level| && level[j].key <= target
    ensures j <= r < |level| && level[r].key <= target
    ensures r + 1 < |level| ==> level[r + 1].key > target
    decreases |level| - j
  {
    if j + 1 < |level| && level[j + 1].key <= target then Find(level, j + 1, target) else j
  }

  /** On a sorted level, `find` stops on `target` exactly when the level
      holds `target`. */
  lemma FindReaches(level: seq<Cell>, j: nat, target: int)
    requires Sorted(level) && j < |level| && level[j].key <= target
    ensures level[Find(level, j, target)].key == target <==>
      exists m :: 0 <= m < |level| && level[m].key == target
  {
    var r := Find(level, j, target);
    if exists m :: 0 <= m < |level| && level[m].key == target {
      var m :| 0 <= m < |level| && level[m].key == target;
      if m > r {
        assert level[r + 1].key <= level[m].key;
      } else {
        assert level[m].key <= level[r].key;
      }
    }
  }

  /** `Node.append(target)` on the node at `j`: the new node `c` comes
      directly after it, and the rest of the level keeps its order. */
  function Append(level: seq<Cell>, j: nat, c: Cell): (r: seq<Cell>)
    requires j < |level|
    ensures |r| == |level| + 1 && r[j + 1] == c
    ensures forall m :: 0 <= m <= j ==> r[m] == level[m]
    ensures forall m :: j < m < |level| ==> r[m + 1] == level[m]
    ensures multiset(r) == multiset(level) + multiset{c}
  {
    assert level == level[..j + 1] + level[j + 1..];
    level[..j + 1] + [c] + level[j + 1..]
  }

  /** `Node.delete()` on the node at `m`, which has a `prev`: the nodes on
      either side become neighbours. */
  function Delete(level: seq<Cell>, m: nat): (r: seq<Cell>)
    requires 1 <= m < |level|
    ensures |r| == |level| - 1
    ensures forall a :: 0 <= a < m ==> r[a] == level[a]
    ensures forall a :: m < a < |level| ==> r[a - 1] == level[a]
    ensures multiset(r) == multiset(level) - multiset{level[m]}
  {
    assert level == level[..m] + [level[m]] + level[m + 1..];
    level[..m] + level[m + 1..]
  }

  /** Deleting the node just appended gives back the level. */
  lemma DeleteAppended(level: seq<Cell>, j: nat, c: Cell)
    requires j < |level|
    ensures Delete(Append(level, j, c), j + 1) == level
  {
  }

  /** Appending a deleted node again after its `prev` gives back the level. */
  lemma AppendDeleted(level: seq<Cell>, m: nat)
    requires 1 <= m < |level|
    ensures Append(Delete(level, m), m - 1, level[m]) == level
  {
  }

  /** The position of node `c` on a level that holds it: `bottom` leads to
      this node of the level below. */
  function Locate(level: seq<Cell>, c: Cell): (r: nat)
    requires c in level
    ensures r < |level| && level[r] == c
  {
    if level[0] == c then 0 else 1 + Locate(level[1..], c)
  }

  /** The node at `j` is where `x` goes in: its key is at most `x`, and the
      next one, if any, is at least `x`. */
  predicate Slot(level: seq<Cell>, j: nat, x: int)
  {
    j < |level| && level[j].key <= x && (j + 1 < |level| ==> x <= level[j + 1].key)
  }

  /** A node of a new tower, appended at its slot, keeps the level
      well-formed. */
  lemma AppendOk(level: seq<Cell>, j: nat, c: Cell)
    requires LevelOk(level, c.id) && Slot(level, j, c.key) && c.key >= 0 && c.id >= 1
    ensures LevelOk(Append(level, j, c), c.id + 1)
  {
    AppendSorted(level, j, c);
  }

  /** Appending at a slot keeps the level sorted. */
  lemma AppendSorted(level: seq<Cell>, j: nat, c: Cell)
    requires Sorted(level) && Slot(level, j, c.key)
    ensures Sorted(Append(level, j, c))
  {
    var r := Append(level, j, c);
    forall a, b | 0 <= a < b < |r|
      ensures r[a].key <= r[b].key
    {
      if a <= j && b > j + 1 {
        assert r[a].key <= level[j].key <= c.key <= level[j + 1].key <= r[b].key;
      }
    }
  }

  /** `append` adds its key to the keys after the head. */
  lemma AppendKeys(level: seq<Cell>, j: nat, c: Cell)
    requires j < |level|
    ensures Keys(Append(level, j, c)[1..]) == Keys(level[1..]) + multiset{c.key}
  {
    var r := Append(level, j, c);
    assert r[1..] == level[1..j + 1] + ([c] + level[j + 1..]);
    assert level[1..] == level[1..j + 1] + level[j + 1..];
    KeysConcat(level[1..j + 1], [c] + level[j + 1..]);
    KeysConcat([c], level[j + 1..]);
    KeysConcat(level[1..j + 1], level[j + 1..]);
    assert Keys([c]) == multiset{c.key} by {
      assert [c][1..] == [];
    }
  }

  /** Deleting a node keeps the level well-formed and leaves no node of its
      tower on it. */
  lemma DeleteOk(level: seq<Cell>, m: nat, n: nat)
    requires LevelOk(level, n) && 1 <= m < |level|
    ensures LevelOk(Delete(level, m), n) && level[m] !in Delete(level, m)
  {
    var r := Delete(level, m);
    forall a | 0 <= a < |r|
      ensures r[a] != level[m]
    {
      if a >= m {
        assert r[a] == level[a + 1];
      }
    }
  }

  /** `delete` takes its key from the keys after the head. */
  lemma DeleteKeys(level: seq<Cell>, m: nat)
    requires 1 <= m < |level|
    ensures Keys(Delete(level, m)[1..]) == Keys(level[1..]) - multiset{level[m].key}
  {
    var r := Delete(level, m);
    assert r[1..] == level[1..m] + level[m + 1..];
    assert level[1..] == level[1..m] + ([level[m]] + level[m + 1..]);
    KeysConcat(level[1..m], level[m + 1..]);
    KeysConcat(level[1..m], [level[m]] + level[m + 1..]);
    KeysConcat([level[m]], level[m + 1..]);
    assert Keys([level[m]]) == multiset{level[m].key} by {
      assert [level[m]][1..] == [];
    }
  }

  /** A node of tower `c.id` cannot be on a level whose towers are all
      numbered below `c.id`. */
  lemma Fresh(level: seq<Cell>, c: Cell)
    requires LevelOk(level, c.id) && c.id >= 1
    ensures c !in level
  {
  }

  /** A node on some level is on the bottom level too, and its key is one
      of the keys there. */
  lemma Present(levels: seq<seq<Cell>>, n: nat, k: nat, d: Cell)
    requires LevelsOk(levels, n) && k < |levels| && d in levels[k] && d.key >= 0
    ensures d.key in Keys(levels[0][1..])
  {
    assert d in levels[0];
    var m :| 0 <= m < |levels[0]| && levels[0][m] == d;
    assert levels[0][1..][m - 1].key == d.key;
    KeysIn(levels[0][1..], d.key);
  }

  /** A key held by no node after the head is not among the keys. */
  lemma Absent(level: seq<Cell>, x: int)
    requires |level| >= 1 && forall m :: 1 <= m < |level| ==> level[m].key != x
    ensures x !in Keys(level[1..])
  {
    KeysIn(level[1..], x);
  }

  /** `bottom` of the node at `j` on level `i`: the position of the node
      of the same tower on level `i - 1`. */
  function Bottom(levels: seq<seq<Cell>>, i: nat, j: nat): (r: nat)
    requires Towers(levels) && 1 <= i < |levels| && j < |levels[i]|
    ensures r < |levels[i - 1]| && levels[i - 1][r] == levels[i][j]
  {
    assert levels[i][j] in levels[i];
    Locate(levels[i - 1], levels[i][j])
  }

  /** The stack `s` of `add`: from the top level down, the node of each
      level after which the new key `x` goes. */
  ghost predicate Slots(levels: seq<seq<Cell>>, s: seq<nat>, x: int)
  {
    |s| <= |levels| && forall t :: 0 <= t < |s| ==> Slot(levels[|levels| - 1 - t], s[t], x)
  }

  /** `s.append(j)` on the next level down, at a slot of `x` there. */
  lemma SlotsPush(levels: seq<seq<Cell>>, s: seq<nat>, x: int, j: nat)
    requires Slots(levels, s, x) && |s| < |levels| && Slot(levels[|levels| - 1 - |s|], j, x)
    ensures Slots(levels, s + [j], x)
  {
  }

  /** The slot on top of the stack is that of level `h`. */
  lemma SlotsTop(levels: seq<seq<Cell>>, s: seq<nat>, x: int, h: nat)
    requires Slots(levels, s, x) && |s| > 0 && |s| + h == |levels|
    ensures Slot(levels[h], s[|s| - 1], x)
  {
    assert |levels| - 1 - (|s| - 1) == h;
  }

  /** Popping the slot of level `h` and appending there leaves the slots of
      the levels above as they were. */
  lemma SlotsPop(levels: seq<seq<Cell>>, s: seq<nat>, x: int, h: nat, a: seq<Cell>)
    requires Slots(levels, s, x) && |s| > 0 && |s| + h == |levels|
    ensures Slots(levels[h := a], s[..|s| - 1], x)
  {
  }

  /** The levels as `startList` had them, with a new level being only its
      head. */
  function Before(levels0: seq<seq<Cell>>, k: nat): seq<Cell>
  {
    if k < |levels0| then levels0[k] else [Head]
  }

  /** The state of `add` once the new tower `c` stands on the `h` lowest
      levels: those levels each gained `c`, any level above is as it was,
      and the levels are well-formed. */
  ghost predicate Raised(levels0: seq<seq<Cell>>, levels: seq<seq<Cell>>, c: Cell, h: nat)
  {
    1 <= h && |levels| == Max(|levels0|, h) && LevelsOk(levels, c.id + 1) &&
    (forall k :: 0 <= k < |levels| ==> (c in levels[k] <==> k < h)) &&
    (forall k :: h <= k < |levels| ==> k < |levels0| && levels[k] == levels0[k]) &&
    (forall k :: 0 <= k < |levels| ==>
      multiset(levels[k]) == multiset(Before(levels0, k)) + if k < h then multiset{c} else multiset{})
  }

  /** Replacing level `h` by `a`, which holds the same nodes except perhaps
      `c`, keeps the towers without gaps, provided `c` is on no level above
      `h` and, when `a` holds it, on every level below. */
  lemma TowersReplace(levels: seq<seq<Cell>>, h: nat, a: seq<Cell>, c: Cell)
    requires Towers(levels) && h < |levels|
    requires forall d :: d in a && d != c ==> d in levels[h]
    requires forall d :: d in levels[h] && d != c ==> d in a
    requires forall k :: h < k < |levels| ==> c !in levels[k]
    requires c in a ==> forall k :: 0 <= k < h ==> c in levels[k]
    ensures Towers(levels[h := a])
  {
    var levels2 := levels[h := a];
    forall k, k2, d | 0 <= k2 <= k < |levels2| && d in levels2[k]
      ensures d in levels2[k2]
    {
      if d == c && k == h {
        if k2 < h {
          assert c in levels[k2];
        }
      } else {
        assert d in levels[k];
        assert d in levels[k2];
      }
    }
  }

  /** A level that gained node `c` holds every node it held before, and no
      other node but `c`. */
  lemma Gained(a: seq<Cell>, b: seq<Cell>, c: Cell)
    requires multiset(a) == multiset(b) + multiset{c}
    ensures forall d :: d in b ==> d in a
    ensures forall d :: d in a && d != c ==> d in b
  {
    forall d | d in b
      ensures d in a
    {
      assert d in multiset(a);
    }
    forall d | d in a && d != c
      ensures d in b
    {
      assert multiset(a)[d] > 0 && multiset(b)[d] == multiset(a)[d];
    }
  }

  /** A level that lost node `c` holds no other node than before, and every
      node it held but `c`. */
  lemma Lost(a: seq<Cell>, b: seq<Cell>, c: Cell)
    requires multiset(a) == multiset(b) - multiset{c}
    ensures forall d :: d in a ==> d in b
    ensures forall d :: d in b && d != c ==> d in a
  {
    forall d | d in a
      ensures d in b
    {
      assert multiset(a)[d] > 0 && multiset(b)[d] >= multiset(a)[d];
    }
    forall d | d in b && d != c
      ensures d in a
    {
      assert d in multiset(a);
    }
  }

  /** The first `append` of `add`, on the bottom level. */
  lemma RaiseStart(levels0: seq<seq<Cell>>, c: Cell, j: nat)
    requires LevelsOk(levels0, c.id) && Slot(levels0[0], j, c.key) && c.key >= 0 && c.id >= 1
    ensures Raised(levels0, levels0[0 := Append(levels0[0], j, c)], c, 1)
  {
    var a := Append(levels0[0], j, c);
    var levels := levels0[0 := a];
    AppendOk(levels0[0], j, c);
    forall k | 0 <= k < |levels0|
      ensures c !in levels0[k]
    {
      Fresh(levels0[k], c);
    }
    Gained(a, levels0[0], c);
    TowersReplace(levels0, 0, a, c);
  }

  /** A later `append` of `add`, on level `h`, at the slot saved there. */
  lemma RaiseStep(levels0: seq<seq<Cell>>, levels: seq<seq<Cell>>, c: Cell, h: nat, j: nat)
    requires LevelsOk(levels0, c.id) && Raised(levels0, levels, c, h) && h < |levels|
    requires Slot(levels[h], j, c.key) && c.key >= 0 && c.id >= 1
    ensures Raised(levels0, levels[h := Append(levels[h], j, c)], c, h + 1)
  {
    var a := Append(levels[h], j, c);
    AppendOk(levels[h], j, c);
    Gained(a, levels[h], c);
    TowersReplace(levels, h, a, c);
  }

  /** A new top level holding a head and a node on every level below keeps
      the towers without gaps. */
  lemma TowersTop(levels: seq<seq<Cell>>, c: Cell)
    requires Towers(levels) && forall k :: 0 <= k < |levels| ==> |levels[k]| >= 1 && levels[k][0] == Head && c in levels[k]
    ensures Towers(levels + [[Head, c]])
  {
    var levels2 := levels + [[Head, c]];
    forall k, k2, d | 0 <= k2 <= k < |levels2| && d in levels2[k]
      ensures d in levels2[k2]
    {
      if k == |levels| {
        if k2 < k && d == Head {
          assert levels[k2][0] == Head;
        }
      } else {
        assert d in levels[k] && d in levels[k2];
      }
    }
  }

  /** `add` out of saved slots: a new top level with its head and `c`. */
  lemma RaiseTop(levels0: seq<seq<Cell>>, levels: seq<seq<Cell>>, c: Cell, h: nat)
    requires Raised(levels0, levels, c, h) && h == |levels| && c.key >= 0 && c.id >= 1
    ensures Raised(levels0, levels + [[Head, c]], c, h + 1)
  {
    assert LevelOk([Head, c], c.id + 1);
    TowersTop(levels, c);
    assert multiset([Head, c]) == multiset(Before(levels0, h)) + multiset{c};
  }

  /** The state of the loop of `add` over the coins: the tower `c` stands
      on the `h` lowest levels, `s` holds the slots of the levels above, and
      the bottom level gained `c`'s key. */
  ghost predicate Building(levels0: seq<seq<Cell>>, levels: seq<seq<Cell>>, s: seq<nat>, c: Cell, h: nat)
  {
    LevelsOk(levels0, c.id) && Raised(levels0, levels, c, h) && |s| + h == |levels| && Slots(levels, s, c.key) &&
    Keys(levels[0][1..]) == Keys(levels0[0][1..]) + multiset{c.key}
  }

  /** The first `append` of `add`, at the last slot saved, on the bottom
      level. */
  lemma BuildStart(levels0: seq<seq<Cell>>, s: seq<nat>, c: Cell)
    requires LevelsOk(levels0, c.id) && |s| == |levels0| && Slots(levels0, s, c.key)
    requires c.key >= 0 && c.id >= 1
    ensures s[|s| - 1] < |levels0[0]|
    ensures Building(levels0, levels0[0 := Append(levels0[0], s[|s| - 1], c)], s[..|s| - 1], c, 1)
  {
    var p := s[|s| - 1];
    SlotsTop(levels0, s, c.key, 0);
    SlotsPop(levels0, s, c.key, 0, Append(levels0[0], p, c));
    RaiseStart(levels0, c, p);
    AppendKeys(levels0[0], p, c);
  }

  /** A later `append` of `add`, at the slot popped from `s`, on level `h`. */
  lemma BuildStep(levels0: seq<seq<Cell>>, levels: seq<seq<Cell>>, s: seq<nat>, c: Cell, h: nat)
    requires Building(levels0, levels, s, c, h) && |s| > 0
    requires c.key >= 0 && c.id >= 1
    ensures s[|s| - 1] < |levels[h]|
    ensures Building(levels0, levels[h := Append(levels[h], s[|s| - 1], c)], s[..|s| - 1], c, h + 1)
  {
    var q := s[|s| - 1];
    SlotsTop(levels, s, c.key, h);
    SlotsPop(levels, s, c.key, h, Append(levels[h], q, c));
    RaiseStep(levels0, levels, c, h, q);
  }

  /** `add` out of saved slots: a new top level. */
  lemma BuildTop(levels0: seq<seq<Cell>>, levels: seq<seq<Cell>>, s: seq<nat>, c: Cell, h: nat)
    requires Building(levels0, levels, s, c, h) && |s| == 0 && c.key >= 0 && c.id >= 1
    ensures Building(levels0, levels + [[Head, c]], s, c, h + 1)
  {
    RaiseTop(levels0, levels, c, h);
  }

  /** The state of `erase` while it deletes tower `c` from the top down:
      the levels above `k` lost `c`, and level `k` and those below are as
      they were. */
  ghost predicate Lowered(levels0: seq<seq<Cell>>, levels: seq<seq<Cell>>, c: Cell, k: int, n: nat)
  {
    -1 <= k < |levels| && |levels| == |levels0| && LevelsOk(levels, n) &&
    (forall k2 :: 0 <= k2 <= k ==> levels[k2] == levels0[k2]) &&
    (forall k2 :: 0 <= k2 < |levels| ==> (c in levels[k2] <==> k2 <= k)) &&
    (forall k2 :: k < k2 < |levels| ==> multiset(levels[k2]) == multiset(levels0[k2]) - multiset{c})
  }

  /** `erase` finds `c` on level `i`, and no node with its key above. */
  lemma LowerStart(levels0: seq<seq<Cell>>, c: Cell, i: nat, n: nat)
    requires LevelsOk(levels0, n) && i < |levels0| && c in levels0[i]
    requires forall k2 :: i < k2 < |levels0| ==> c !in levels0[k2]
    ensures Lowered(levels0, levels0, c, i, n)
  {
    forall k2 | 0 <= k2 <= i
      ensures c in levels0[k2]
    {
      assert c in levels0[i] && c in levels0[k2];
    }
  }

  /** One `delete` of `erase`, on level `k`. */
  lemma LowerStep(levels0: seq<seq<Cell>>, levels: seq<seq<Cell>>, c: Cell, k: nat, m: nat, n: nat)
    requires Lowered(levels0, levels, c, k, n) && 1 <= m < |levels[k]| && levels[k][m] == c
    ensures Lowered(levels0, levels[k := Delete(levels[k], m)], c, k - 1, n)
  {
    var a := Delete(levels[k], m);
    DeleteOk(levels[k], m, n);
    Lost(a, levels[k], c);
    TowersReplace(levels, k, a, c);
  }
}

// The `Skiplist` class itself.
module SkipList {
  import opened SkipLevels

  /** The number of `True` results of `random.choice([True, False])` that
      come before the first `False` (an exhausted sequence counts as
      `False`). */
  function Heads(coins: seq<bool>): nat
  {
    if |coins| > 0 && coins[0] then 1 + Heads(coins[1..]) else 0
  }

  /** The loop of `add` over the coins: for each `True` before the first
      `False`, `append` the tower `c` one level up, at the slot popped from
      `s`, or on a new top level once the slots run out. `c` ends up on the
      `1 + Heads(coins)` lowest levels. */
  method Raise(ghost levels0: seq<seq<Cell>>, levels: seq<seq<Cell>>, s: seq<nat>, c: Cell, coins: seq<bool>)
    returns (r: seq<seq<Cell>>)
    requires Building(levels0, levels, s, c, 1) && c.key >= 0 && c.id >= 1
    ensures Raised(levels0, r, c, 1 + Heads(coins)) && |r| == Max(|levels0|, 1 + Heads(coins))
    ensures Keys(r[0][1..]) == Keys(levels0[0][1..]) + multiset{c.key}
  {
    r := levels;
    var rest := s;
    var h := 1;
    var flips := coins;
    while |flips| > 0 && flips[0]
      invariant Building(levels0, r, rest, c, h)
      invariant h + Heads(flips) == 1 + Heads(coins)
    {
      if |rest| > 0 {
        BuildStep(levels0, r, rest, c, h);
        var p := rest[|rest| - 1];
        rest := rest[..|rest| - 1];
        r := r[h := Append(r[h], p, c)];
      } else {
        BuildTop(levels0, r, rest, c, h);
        r := r + [[Head, c]];
      }
      h := h + 1;
      flips := flips[1..];
    }
  }

  /** The walk down of `erase`: from the top head, `find` on each level and
      go down by `bottom`, stopping at the first node that holds `num`.
      Gives its level and position, which is the top of its tower, or `-1`
      when `num` is not held. */
  method Seek(levels: seq<seq<Cell>>, ghost n: nat, num: int) returns (i: int, j: nat)
    requires LevelsOk(levels, n)
    ensures -1 <= i < |levels|
    ensures i < 0 ==> num !in Keys(levels[0][1..])
    ensures i >= 0 ==> 1 <= j < |levels[i]| && levels[i][j].key == num
    ensures i >= 0 ==> forall k :: i < k < |levels| ==> levels[i][j] !in levels[k]
  {
    i := |levels| - 1;
    j := 0;
    while i >= 0 && levels[i][j].key < num
      invariant -1 <= i < |levels|
      invariant i >= 0 ==> j < |levels[i]| && (levels[i][j].key < num || num < 0)
      invariant i < 0 ==> num !in Keys(levels[0][1..])
      invariant forall k, m :: i < k < |levels| && 0 <= m < |levels[k]| ==> levels[k][m].key != num
      decreases i
    {
      j := Find(levels[i], j, num);
      FindReaches(levels[i], j, num);
      if levels[i][j].key == num {
        return;
      }
      if i == 0 {
        Absent(levels[0], num);
        i := -1;
      } else {
        j := Bottom(levels, i, j);
        i := i - 1;
      }
    }
    if i >= 0 {
      Absent(levels[0], num);
      i := -1;
    }
  }

  /** The loop of `erase` over a found tower: from the node at `j` on level
      `i` down, take each node's `bottom` and `delete` the node. The tower
      leaves every level and nothing else changes. */
  method Unlink(levels: seq<seq<Cell>>, i: nat, j: nat, ghost n: nat) returns (r: seq<seq<Cell>>)
    requires LevelsOk(levels, n) && i < |levels| && 1 <= j < |levels[i]|
    requires forall k :: i < k < |levels| ==> levels[i][j] !in levels[k]
    ensures LevelsOk(r, n) && |r| == |levels|
    ensures forall k :: 0 <= k < |r| ==> multiset(r[k]) == multiset(levels[k]) - multiset{levels[i][j]}
    ensures Keys(r[0][1..]) == Keys(levels[0][1..]) - multiset{levels[i][j].key}
  {
    var c := levels[i][j];
    LowerStart(levels, c, i, n);
    r := levels;
    var k: int := i;
    var m: nat := j;
    while k >= 0
      invariant Lowered(levels, r, c, k, n)
      invariant k >= 0 ==> 1 <= m < |r[k]| && r[k][m] == c
      invariant k < 0 ==> Keys(r[0][1..]) == Keys(levels[0][1..]) - multiset{c.key}
    {
      var q := m;
      if k > 0 {
        m := Bottom(r, k, m);
      }
      if k == 0 {
        DeleteKeys(r[0], q);
      }
      LowerStep(levels, r, c, k, q, n);
      r := r[k := Delete(r[k], q)];
      k := k - 1;
    }
  }

  /** `Skiplist` (LinkList/SkipList.py:88-193). */
  class Skiplist {
    /** `startList`, bottom level first: `levels[k]` is the level whose
        head is `startList[k]`, in `next` order. */
    var levels: seq<seq<Cell>>
    /** The tower the next `add` builds. */
    var nextId: nat

    ghost predicate Valid()
      reads this
    {
      nextId >= 1 && LevelsOk(levels, nextId)
    }

    /** The keys held: those of the bottom level after its head. */
    function Elements(): multiset<int>
      reads this
      requires Valid()
    {
      Keys(levels[0][1..])
    }

    /** `Skiplist()`: one level, holding only its head. */
    constructor ()
      ensures Valid() && Elements() == multiset{} && levels == [[Head]]
    {
      levels := [[Head]];
      nextId := 1;
    }

    /** `search(target)`: from the top head, `find` on each level and go
        down by `bottom`; whether `target` is held. */
    method Search(target: int) returns (r: bool)
      requires Valid()
      ensures r <==> target in Elements()
    {
      var i := |levels| - 1;
      var j: nat := 0;
      while i >= 0 && levels[i][j].key < target
        invariant -1 <= i < |levels|
        invariant i >= 0 ==> j < |levels[i]| && (levels[i][j].key < target || target < 0)
        invariant i < 0 ==> target !in Elements()
        decreases i
      {
        j := Find(levels[i], j, target);
        if levels[i][j].key == target {
          Present(levels, nextId, i, levels[i][j]);
          return true;
        }
        if i == 0 {
          FindReaches(levels[0], j, target);
          Absent(levels[0], target);
          i := -1;
        } else {
          j := Bottom(levels, i, j);
          i := i - 1;
        }
      }
      if i >= 0 {
        Absent(levels[0], target);
      }
      return false;
    }

    /** The walk down of `add`: from the top head, `find` on each level and
        save the node reached; once a node holding `num` is reached, save it
        and the rest of its tower instead. Gives, from the top level down,
        the node of each level after which `num` goes. */
    method Path(num: int) returns (s: seq<nat>)
      requires Valid() && num >= 0
      ensures |s| == |levels| && Slots(levels, s, num)
    {
      var i := |levels| - 1;
      var j: nat := 0;
      s := [];
      while i >= 0 && levels[i][j].key < num
        invariant -1 <= i < |levels| && |s| == |levels| - 1 - i
        invariant i >= 0 ==> j < |levels[i]| && levels[i][j].key < num
        invariant Slots(levels, s, num)
        decreases i
      {
        j := Find(levels[i], j, num);
        SlotsPush(levels, s, num, j);
        s := s + [j];
        if levels[i][j].key == num {
          // `num` is held: save the nodes of its tower from here down.
          s := s[..|s| - 1];
          var k := i;
          var m: nat := j;
          while k >= 0
            invariant -1 <= k <= i && |s| == |levels| - 1 - k
            invariant k >= 0 ==> m < |levels[k]| && levels[k][m].key == num
            invariant Slots(levels, s, num)
          {
            SlotsPush(levels, s, num, m);
            s := s + [m];
            if k > 0 {
              m := Bottom(levels, k, m);
            }
            k := k - 1;
          }
          return;
        }
        if i == 0 {
          i := -1;
        } else {
          j := Bottom(levels, i, j);
          i := i - 1;
        }
      }
    }

    /** `add(num)`, with the outcomes of `random.choice` as `coins`: `num`
        goes in at its place on the bottom level, and on one more level for
        each `True` before the first `False`, with new levels on top when
        the levels run out. */
    method Add(num: int, coins: seq<bool>)
      requires Valid() && num >= 0
      modifies this
      ensures Valid() && nextId == old(nextId) + 1
      ensures Elements() == old(Elements()) + multiset{num}
      ensures |levels| == Max(|old(levels)|, 1 + Heads(coins))
      ensures forall k :: 0 <= k < |levels| ==>
        multiset(levels[k]) == multiset(Before(old(levels), k)) +
          if k < 1 + Heads(coins) then multiset{Cell(num, old(nextId))} else multiset{}
    {
      var s := Path(num);
      var c := Cell(num, nextId);
      BuildStart(levels, s, c);
      var p := s[|s| - 1];
      var r := Raise(levels, levels[0 := Append(levels[0], p, c)], s[..|s| - 1], c, coins);
      levels, nextId := r, nextId + 1;
    }

    /** `erase(num)`: searches as `search` does; when `num` is found, deletes
        that node's whole tower, from the top down, and reports success. */
    method Erase(num: int) returns (r: bool)
      requires Valid()
      modifies this
      ensures Valid() && nextId == old(nextId) && |levels| == |old(levels)|
      ensures r <==> num in old(Elements())
      ensures r ==> Elements() == old(Elements()) - multiset{num}
      ensures r ==>
        exists c: Cell :: c.key == num && c in old(levels)[0] &&
          forall k :: 0 <= k < |levels| ==> multiset(levels[k]) == multiset(old(levels)[k]) - multiset{c}
      ensures !r ==> levels == old(levels)
    {
      var i, j := Seek(levels, nextId, num);
      if i < 0 {
        return false;
      }
      var c := levels[i][j];
      Present(levels, nextId, i, c);
      assert c in levels[0] by {
        assert c in levels[i];
      }
      levels := Unlink(levels, i, j, nextId);
      return true;
    }
  }
}
