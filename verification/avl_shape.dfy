/**
 * The shape-level meaning of the AVL repair in Tree/AVL.py: the two
 * rotations, the choice `_rebalance` makes at one node, and the bounds on
 * heights that the upward walk keeps.
 */
module AvlShape {
  import opened TreeShape

  /** `_left_rotate(x)`: the right child `y` of `x` takes its place, `x`
      becomes `y`'s left child and `y`'s old left subtree becomes `x`'s
      right subtree. */
  function RotateLeft(t: Shape): (u: Shape)
    requires t.Br? && t.r.Br?
    ensures u.Br? && u.n == t.r.n && u.l.Br? && u.l.n == t.n
  {
    Br(Br(t.l, t.n, t.k, t.r.l), t.r.n, t.r.k, t.r.r)
  }

  /** `_right_rotate(x)`, the mirror image. */
  function RotateRight(t: Shape): (u: Shape)
    requires t.Br? && t.l.Br?
    ensures u.Br? && u.n == t.l.n && u.r.Br? && u.r.n == t.n
  {
    Br(t.l.l, t.l.n, t.l.k, Br(t.l.r, t.n, t.k, t.r))
  }

  /** Both rotations keep the nodes and their keys in the same order. */
  lemma {:induction false} RotateLeftOrder(t: Shape)
    requires t.Br? && t.r.Br?
    ensures Keys(RotateLeft(t)) == Keys(t) && InOrder(RotateLeft(t)) == InOrder(t)
    ensures Count(RotateLeft(t)) == Count(t)
  {
    var a, b, c := t.l, t.r.l, t.r.r;
    assert Keys(t) == Keys(a) + [t.k] + (Keys(b) + [t.r.k] + Keys(c));
    assert Keys(RotateLeft(t)) == (Keys(a) + [t.k] + Keys(b)) + [t.r.k] + Keys(c);
    assert InOrder(t) == InOrder(a) + [t.n] + (InOrder(b) + [t.r.n] + InOrder(c));
    assert InOrder(RotateLeft(t)) == (InOrder(a) + [t.n] + InOrder(b)) + [t.r.n] + InOrder(c);
  }

  lemma {:induction false} RotateRightOrder(t: Shape)
    requires t.Br? && t.l.Br?
    ensures Keys(RotateRight(t)) == Keys(t) && InOrder(RotateRight(t)) == InOrder(t)
    ensures Count(RotateRight(t)) == Count(t)
  {
    var a, b, c := t.l.l, t.l.r, t.r;
    assert Keys(t) == (Keys(a) + [t.l.k] + Keys(b)) + [t.k] + Keys(c);
    assert Keys(RotateRight(t)) == Keys(a) + [t.l.k] + (Keys(b) + [t.k] + Keys(c));
    assert InOrder(t) == (InOrder(a) + [t.l.n] + InOrder(b)) + [t.n] + InOrder(c);
    assert InOrder(RotateRight(t)) == InOrder(a) + [t.l.n] + (InOrder(b) + [t.n] + InOrder(c));
  }

  lemma {:induction false} RotateLeftNodes(t: Shape)
    requires t.Br? && t.r.Br?
    ensures Nodes(RotateLeft(t)) == Nodes(t) && (Distinct(RotateLeft(t)) <==> Distinct(t))
  {
    var a, x, y, b, c := t.l, t.n, t.r.n, t.r.l, t.r.r;
    assert Nodes(t) == Nodes(a) + {x} + (Nodes(b) + {y} + Nodes(c));
    assert Nodes(RotateLeft(t)) == (Nodes(a) + {x} + Nodes(b)) + {y} + Nodes(c);
  }

  lemma {:induction false} RotateRightNodes(t: Shape)
    requires t.Br? && t.l.Br?
    ensures Nodes(RotateRight(t)) == Nodes(t) && (Distinct(RotateRight(t)) <==> Distinct(t))
  {
    var a, y, x, b, c := t.l.l, t.l.n, t.n, t.l.r, t.r;
    assert Nodes(t) == (Nodes(a) + {y} + Nodes(b)) + {x} + Nodes(c);
    assert Nodes(RotateRight(t)) == Nodes(a) + {y} + (Nodes(b) + {x} + Nodes(c));
  }

  lemma {:induction false} HeightPositive(t: Shape)
    ensures Height(t) > 0 <==> t.Br?
  {
  }

  /** What one pass of the `_rebalance` loop does to the subtree at the node
      it visits: nothing when the children's heights differ by less than 2;
      otherwise one rotation towards the light side when the heavy child
      leans outwards, and a double rotation when it does not. With `strict`
      the heavy child leans outwards only when its outer subtree is strictly
      higher, as Tree/AVL.py:74 and :80 are written; without it, equal
      heights count as leaning outwards. */
  function Fix(t: Shape, strict: bool): (u: Shape)
    requires t.Br?
    ensures u.Br?
  {
    var hl, hr := Height(t.l), Height(t.r);
    if hr - hl >= 2 then
      var outer, inner := Height(t.r.r), Height(t.r.l);
      if outer > inner || (!strict && outer == inner) then RotateLeft(t)
      else RotateLeft(Br(t.l, t.n, t.k, RotateRight(t.r)))
    else if hl - hr >= 2 then
      var outer, inner := Height(t.l.l), Height(t.l.r);
      if outer > inner || (!strict && outer == inner) then RotateRight(t)
      else RotateRight(Br(RotateLeft(t.l), t.n, t.k, t.r))
    else t
  }

  /** The pass keeps the nodes and their keys in the same order. */
  lemma {:induction false} FixOrder(t: Shape, strict: bool)
    requires t.Br?
    ensures var u := Fix(t, strict); Keys(u) == Keys(t) && InOrder(u) == InOrder(t) && Count(u) == Count(t)
  {
    var hl: int, hr: int := Height(t.l), Height(t.r);
    if hr - hl >= 2 {
      HeightPositive(t.r);
      if Height(t.r.r) > Height(t.r.l) || (!strict && Height(t.r.r) == Height(t.r.l)) {
        RotateLeftOrder(t);
      } else {
        HeightPositive(t.r.l);
        var tNext := Br(t.l, t.n, t.k, RotateRight(t.r));
        RotateRightOrder(t.r);
        RotateLeftOrder(tNext);
      }
    } else if hl - hr >= 2 {
      HeightPositive(t.l);
      if Height(t.l.l) > Height(t.l.r) || (!strict && Height(t.l.l) == Height(t.l.r)) {
        RotateRightOrder(t);
      } else {
        HeightPositive(t.l.r);
        var tNext := Br(RotateLeft(t.l), t.n, t.k, t.r);
        RotateLeftOrder(t.l);
        RotateRightOrder(tNext);
      }
    }
  }

  lemma {:induction false} FixNodes(t: Shape, strict: bool)
    requires t.Br?
    ensures Nodes(Fix(t, strict)) == Nodes(t)
    ensures Distinct(Fix(t, strict)) <==> Distinct(t)
  {
    var hl: int, hr: int := Height(t.l), Height(t.r);
    if hr - hl >= 2 {
      if Height(t.r.r) > Height(t.r.l) || (!strict && Height(t.r.r) == Height(t.r.l)) {
        RotateLeftNodes(t);
      } else {
        HeightPositive(t.r.l);
        var tNext := Br(t.l, t.n, t.k, RotateRight(t.r));
        RotateRightNodes(t.r);
        RotateLeftNodes(tNext);
      }
    } else if hl - hr >= 2 {
      if Height(t.l.l) > Height(t.l.r) || (!strict && Height(t.l.l) == Height(t.l.r)) {
        RotateRightNodes(t);
      } else {
        HeightPositive(t.l.r);
        var tNext := Br(RotateLeft(t.l), t.n, t.k, t.r);
        RotateLeftNodes(t.l);
        RotateRightNodes(tNext);
      }
    }
  }

  /** With ties counted as leaning outwards, one pass leaves a subtree whose
      children were balanced and differed in height by at most 2 balanced,
      at its old height or one less when it rotated, and unchanged when it
      was balanced already. */
  lemma {:induction false} FixBalanced(t: Shape)
    requires t.Br? && Balanced(t.l) && Balanced(t.r)
    requires -2 <= Height(t.l) - Height(t.r) <= 2
    ensures Balanced(Fix(t, false))
    ensures Max(Height(t.l), Height(t.r)) <= Height(Fix(t, false)) <= Max(Height(t.l), Height(t.r)) + 1
    ensures -1 <= Height(t.l) - Height(t.r) <= 1 ==> Fix(t, false) == t
  {
    var hl: int, hr: int := Height(t.l), Height(t.r);
    if hr - hl >= 2 {
      HeightPositive(t.r);
      if Height(t.r.r) >= Height(t.r.l) {
        SingleLeftBalanced(t);
      } else {
        HeightPositive(t.r.l);
        DoubleLeftBalanced(t);
      }
    } else if hl - hr >= 2 {
      HeightPositive(t.l);
      if Height(t.l.l) >= Height(t.l.r) {
        SingleRightBalanced(t);
      } else {
        HeightPositive(t.l.r);
        DoubleRightBalanced(t);
      }
    }
  }

  lemma SingleLeftBalanced(t: Shape)
    requires t.Br? && t.r.Br? && Balanced(t.l) && Balanced(t.r)
    requires Height(t.r) == Height(t.l) + 2 && Height(t.r.r) >= Height(t.r.l)
    ensures Balanced(RotateLeft(t))
    ensures Height(t.r) <= Height(RotateLeft(t)) <= Height(t.r) + 1
  {
  }

  lemma DoubleLeftBalanced(t: Shape)
    requires t.Br? && t.r.Br? && t.r.l.Br? && Balanced(t.l) && Balanced(t.r)
    requires Height(t.r) == Height(t.l) + 2 && Height(t.r.r) < Height(t.r.l)
    ensures Balanced(RotateLeft(Br(t.l, t.n, t.k, RotateRight(t.r))))
    ensures Height(RotateLeft(Br(t.l, t.n, t.k, RotateRight(t.r)))) == Height(t.r)
  {
  }

  lemma SingleRightBalanced(t: Shape)
    requires t.Br? && t.l.Br? && Balanced(t.l) && Balanced(t.r)
    requires Height(t.l) == Height(t.r) + 2 && Height(t.l.l) >= Height(t.l.r)
    ensures Balanced(RotateRight(t))
    ensures Height(t.l) <= Height(RotateRight(t)) <= Height(t.l) + 1
  {
  }

  lemma DoubleRightBalanced(t: Shape)
    requires t.Br? && t.l.Br? && t.l.r.Br? && Balanced(t.l) && Balanced(t.r)
    requires Height(t.l) == Height(t.r) + 2 && Height(t.l.l) < Height(t.l.r)
    ensures Balanced(RotateRight(Br(RotateLeft(t.l), t.n, t.k, t.r)))
    ensures Height(RotateRight(Br(RotateLeft(t.l), t.n, t.k, t.r))) == Height(t.l)
  {
  }

  /** The same pass as Tree/AVL.py is written, on a subtree where the
      deletion of key 1 left node 3 with a left subtree of height 1 and a
      right subtree of height 3 whose children are equally high: the double
      rotation leaves node 6 with children of heights 0 and 2. The
      corrected pass balances the same subtree. */
  lemma StrictTieBreakUnbalances(n2: Node, n3: Node, n4: Node, n5: Node, n6: Node, n7: Node, n8: Node)
    ensures var t := Br(Br(Nil, n2, 2, Nil), n3, 3,
                        Br(Br(Br(Nil, n4, 4, Nil), n5, 5, Nil), n6, 6, Br(Nil, n7, 7, Br(Nil, n8, 8, Nil))));
      Balanced(t.l) && Balanced(t.r) && Height(t.r) - Height(t.l) == 2 &&
      !Balanced(Fix(t, true)) && Balanced(Fix(t, false))
  {
    var t := Br(Br(Nil, n2, 2, Nil), n3, 3,
                Br(Br(Br(Nil, n4, 4, Nil), n5, 5, Nil), n6, 6, Br(Nil, n7, 7, Br(Nil, n8, 8, Nil))));
    assert Height(t.l) == 1 && Height(t.r.l) == 2 && Height(t.r.r) == 2 && Height(t.r) == 3;
    var u := Fix(t, true);
    assert u == Br(Br(Br(Nil, n2, 2, Nil), n3, 3, Br(Nil, n4, 4, Nil)), n5, 5,
                   Br(Nil, n6, 6, Br(Nil, n7, 7, Br(Nil, n8, 8, Nil))));
    assert !Balanced(u.r);
    FixBalanced(t);
  }

  // ---------------------------------------------------------------------
  // The upward walk
  // ---------------------------------------------------------------------

  /** The state of `_rebalance` at a node whose children have heights `hl`
      and `hr`, where the ancestors still record the subtree's old height
      `h`: after the pass at this node, the subtree will be within one of
      `h` again. */
  predicate Repairable(hl: int, hr: int, h: int)
  {
    -2 <= hl - hr <= 2 &&
    if hl - hr == 2 || hr - hl == 2 then h - 1 <= Max(hl, hr) <= h else h - 2 <= Max(hl, hr) <= h
  }

  /** After the pass, the subtree's height is within one of its old height,
      so the parent can be repaired in turn; and a balanced result can be
      visited again without harm. */
  lemma RepairStep(t: Shape, h: int)
    requires t.Br? && Balanced(t.l) && Balanced(t.r) && Repairable(Height(t.l), Height(t.r), h)
    ensures var u := Fix(t, false); h - 1 <= Height(u) <= h + 1 && Repairable(Height(u.l), Height(u.r), h)
  {
    FixBalanced(t);
  }

  // ---------------------------------------------------------------------
  // The walk after an insertion
  // ---------------------------------------------------------------------

  /** The state of `_rebalance` after an insertion, at a node whose
      children have heights `hl` and `hr` and whose subtree the ancestors
      record at height `h`: the subtree has grown by at most one, and when a
      child reached `h` the other stayed below it (the fresh leaf, at
      `h == 0`, aside). */
  predicate Rising(hl: int, hr: int, h: int)
  {
    h - 1 <= Max(hl, hr) <= h && h - 2 <= hl && h - 2 <= hr && (Max(hl, hr) == h && h > 0 ==> hl != hr)
  }

  /** When the node is out of balance, the heavy child's subtrees are not
      equally high, so the strict test of Tree/AVL.py:74 and :80 and the
      tie-inclusive one choose the same rotation. */
  predicate Untied(t: Shape)
    requires t.Br?
  {
    (Height(t.r) - Height(t.l) >= 2 ==> t.r.Br? && Height(t.r.r) != Height(t.r.l)) &&
    (Height(t.l) - Height(t.r) >= 2 ==> t.l.Br? && Height(t.l.l) != Height(t.l.r))
  }

  /** The insertion walk's state at the subtree `t`. */
  predicate InsertWalk(t: Shape, h: int)
    requires t.Br?
  {
    Rising(Height(t.l), Height(t.r), h) && Untied(t)
  }

  /** Where the heavy child is untied, the pass as written is the pass
      with ties counted as leaning outwards. */
  lemma UntiedFix(t: Shape)
    requires t.Br? && Untied(t)
    ensures Fix(t, true) == Fix(t, false)
  {
  }

  /** A pass of the insertion walk: the subtree ends at its old height or
      one above, and one above only when its children differ (the fresh leaf
      aside); when the pass rotated, the new top is again in the state of
      the walk, and balanced. */
  lemma RisingStep(t: Shape, h: int)
    requires t.Br? && Balanced(t.l) && Balanced(t.r) && InsertWalk(t, h)
    ensures var u := Fix(t, false);
      u.Br? && h <= Height(u) <= h + 1 && (Height(u) == h + 1 && h > 0 ==> Height(u.l) != Height(u.r))
    ensures var u := Fix(t, false); u != t ==> InsertWalk(u, h)
  {
    FixBalanced(t);
    var hl: int, hr: int := Height(t.l), Height(t.r);
    if hr - hl >= 2 {
      if Height(t.r.r) > Height(t.r.l) {
        RisingSingleLeft(t, h);
      } else {
        RisingDoubleLeft(t, h);
      }
    } else if hl - hr >= 2 {
      if Height(t.l.l) > Height(t.l.r) {
        RisingSingleRight(t, h);
      } else {
        RisingDoubleRight(t, h);
      }
    }
  }

  /** The four rotations of the insertion walk each bring the subtree back
      to its old height `h`, with both children at `h - 1`. */
  lemma RisingSingleLeft(t: Shape, h: int)
    requires t.Br? && t.r.Br? && Height(t.r) == Height(t.l) + 2 == h && Height(t.r.r) == h - 1 > Height(t.r.l)
    requires Height(t.r.l) >= h - 2
    ensures var u := RotateLeft(t); Height(u) == h && Height(u.l) == h - 1 && Height(u.r) == h - 1
  {
    assert Height(Br(t.l, t.n, t.k, t.r.l)) == h - 1;
  }

  lemma RisingDoubleLeft(t: Shape, h: int)
    requires t.Br? && t.r.Br? && t.r.l.Br? && Height(t.r) == Height(t.l) + 2 == h && Balanced(t.r.l)
    requires Height(t.r.l) == h - 1 && h - 2 <= Height(t.r.r) < h - 1
    ensures var u := RotateLeft(Br(t.l, t.n, t.k, RotateRight(t.r)));
      Height(u) == h && Height(u.l) == h - 1 && Height(u.r) == h - 1
  {
    var b := t.r.l;
    assert Height(Br(t.l, t.n, t.k, b.l)) == h - 1;
    assert Height(Br(b.r, t.r.n, t.r.k, t.r.r)) == h - 1;
  }

  lemma RisingSingleRight(t: Shape, h: int)
    requires t.Br? && t.l.Br? && Height(t.l) == Height(t.r) + 2 == h && Height(t.l.l) == h - 1 > Height(t.l.r)
    requires Height(t.l.r) >= h - 2
    ensures var u := RotateRight(t); Height(u) == h && Height(u.l) == h - 1 && Height(u.r) == h - 1
  {
    assert Height(Br(t.l.r, t.n, t.k, t.r)) == h - 1;
  }

  lemma RisingDoubleRight(t: Shape, h: int)
    requires t.Br? && t.l.Br? && t.l.r.Br? && Height(t.l) == Height(t.r) + 2 == h && Balanced(t.l.r)
    requires Height(t.l.r) == h - 1 && h - 2 <= Height(t.l.l) < h - 1
    ensures var u := RotateRight(Br(RotateLeft(t.l), t.n, t.k, t.r));
      Height(u) == h && Height(u.l) == h - 1 && Height(u.r) == h - 1
  {
    var b := t.l.r;
    assert Height(Br(t.l.l, t.l.n, t.l.k, b.l)) == h - 1;
    assert Height(Br(b.r, t.n, t.k, t.r)) == h - 1;
  }

  /** Climbing one level of the insertion walk: the parent, with the
      subtree that grew by at most one and its sibling as children, is in
      the state of the walk for its own recorded height. */
  lemma RisingUp(cc: Ctx, u: Shape, h: int)
    requires cc != Root && u.Br? && h <= Height(u) <= h + 1
    requires Height(u) == h + 1 && h > 0 ==> Height(u.l) != Height(u.r)
    requires CtxHeightsOk(cc, h) && CtxBalanced(cc, h)
    ensures InsertWalk(Up(cc, u), cc.n.height)
  {
  }

  /** Moving up: the parent's children are the repaired subtree (height
      `hNext`, within one of its old height `h`) and a sibling that was
      balanced against `h`; the parent's old height is 1 + max(h, hs). */
  lemma RepairUp(hNext: int, h: int, hs: int)
    requires h - 1 <= hNext <= h + 1 && -1 <= h - hs <= 1
    ensures Repairable(hNext, hs, 1 + Max(h, hs)) && Repairable(hs, hNext, 1 + Max(h, hs))
  {
  }
}
