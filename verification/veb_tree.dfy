// The van Emde Boas set of Tree/vEB.py over the universe {0, ..., u - 1},
// u = 2^k with k >= 1. A tree of universe u > 2 keeps its minimum apart,
// files every other key x in cluster high(x) under low(x), and keeps in its
// summary the indices of the clusters that are not empty; a tree of universe
// 2 keeps only its minimum and maximum.

module VebTree {
  import opened Wrappers

  // ---------------------------------------------------------------------
  // Universe sizes and key arithmetic (Tree/vEB.py:29-32 and 38-73)
  // ---------------------------------------------------------------------

  function Pow2(n: nat): (r: nat)
    ensures r >= 1
  {
    if n == 0 then 1 else 2 * Pow2(n - 1)
  }

  /** The exponents of `root_u_floor` and `root_u_ceil` for u = 2^k. */
  function LowerBits(k: nat): nat { k / 2 }

  function UpperBits(k: nat): nat { k - k / 2 }

  /** `root_u_floor`: the universe of each cluster. */
  function Floor(k: nat): nat { Pow2(LowerBits(k)) }

  /** `root_u_ceil`: the number of clusters and the summary's universe. */
  function Ceil(k: nat): nat { Pow2(UpperBits(k)) }

  /** Floor division of `x` by `f`, as repeated subtraction; it agrees
      with `x // f` on the keys (`QuotIsDiv`). */
  function Quot(x: int, f: int): int
    requires f > 0
    decreases x
  {
    if x < f then 0 else 1 + Quot(x - f, f)
  }

  /** The remainder that goes with `Quot`. */
  function Rem(x: int, f: int): int
    requires f > 0
    decreases x
  {
    if x < f then x else Rem(x - f, f)
  }

  /** `__high(x)`: the cluster of `x`. */
  function High(k: nat, x: int): int { Quot(x, Floor(k)) }

  /** `__low(x)`: the place of `x` in its cluster. */
  function Low(k: nat, x: int): int { Rem(x, Floor(k)) }

  /** `__index(x, y)`: the key filed in cluster `x` under `y`. */
  function Index(k: nat, x: int, y: int): int { x * Floor(k) + y }

  lemma {:induction false} PowAdd(a: nat, b: nat)
    ensures Pow2(a + b) == Pow2(a) * Pow2(b)
    decreases a
  {
    if a > 0 {
      PowAdd(a - 1, b);
    }
  }

  /** The universe is the number of clusters times their universe, and
      both are smaller than the universe itself. */
  lemma Universe(k: nat)
    requires k >= 2
    ensures Pow2(k) == Floor(k) * Ceil(k)
    ensures 2 <= Floor(k) && 2 <= Ceil(k) && 1 <= LowerBits(k) < k && 1 <= UpperBits(k) < k
  {
    PowAdd(LowerBits(k), UpperBits(k));
    assert LowerBits(k) + UpperBits(k) == k;
    assert Pow2(1) == 2;
    PowMono(1, LowerBits(k));
    PowMono(1, UpperBits(k));
  }

  lemma {:induction false} PowMono(a: nat, b: nat)
    requires a <= b
    ensures Pow2(a) <= Pow2(b)
    decreases b
  {
    if a < b {
      PowMono(a, b - 1);
    }
  }

  lemma MulLess(a: int, b: int, f: int)
    requires a < b && f > 0
    ensures a * f + f <= b * f
  {
    assert (b - a) * f >= f by {
      assert b - a >= 1;
    }
    assert (b - a) * f == b * f - a * f;
  }

  /** Quotient and remainder by `f` of a number below `f * c`. */
  lemma DivMod(x: int, f: int, c: int)
    requires f > 0 && c > 0 && 0 <= x < f * c
    ensures 0 <= x / f < c && 0 <= x % f < f && (x / f) * f + x % f == x
  {
    var h, l := x / f, x % f;
    assert x == f * h + l;
    assert f * h == h * f;
    if h >= c {
      MulLess(c - 1, h, f);
      assert false;
    }
  }

  lemma SplitArith(x: int, f: int, c: int, u: int)
    requires u == f * c && f > 0 && c > 0 && 0 <= x < u
    ensures 0 <= x / f < c && 0 <= x % f < f && (x / f) * f + x % f == x
  {
    DivMod(x, f, c);
  }

  /** The quotient and remainder of `h * f + l` are `h` and `l`. */
  lemma DivModOf(h: int, l: int, f: int)
    requires f > 0 && 0 <= h && 0 <= l < f
    ensures 0 <= h * f + l && (h * f + l) / f == h && (h * f + l) % f == l
  {
    var x := h * f + l;
    assert 0 <= h * f;
    var q, r := x / f, x % f;
    assert x == f * q + r && f * q == q * f;
    if q < h {
      MulLess(q, h, f);
      assert false;
    } else if h < q {
      MulLess(h, q, f);
      assert false;
    }
  }

  lemma {:induction false} QuotRem(x: int, f: int)
    requires 0 <= x && f > 0
    ensures Quot(x, f) >= 0 && 0 <= Rem(x, f) < f && Quot(x, f) * f + Rem(x, f) == x
    decreases x
  {
    if x >= f {
      QuotRem(x - f, f);
      var q := Quot(x - f, f);
      assert (1 + q) * f == q * f + f;
    }
  }

  /** On a key, `Quot` and `Rem` are Python's `//` and `%`. */
  lemma QuotIsDiv(x: int, f: int)
    requires 0 <= x && f > 0
    ensures Quot(x, f) == x / f && Rem(x, f) == x % f
  {
    QuotRem(x, f);
    DivModOf(Quot(x, f), Rem(x, f), f);
  }

  /** A key of the universe splits into a cluster and a place that
      `__index` puts back together. */
  lemma SplitKey(k: nat, x: int)
    requires k >= 2 && 0 <= x < Pow2(k)
    ensures 0 <= High(k, x) < Ceil(k) && 0 <= Low(k, x) < Floor(k)
    ensures Index(k, High(k, x), Low(k, x)) == x
  {
    Universe(k);
    QuotIsDiv(x, Floor(k));
    SplitArith(x, Floor(k), Ceil(k), Pow2(k));
  }

  /** A cluster and a place in it make a key of the universe, which
      `__high` and `__low` take apart again. */
  lemma Join(k: nat, h: int, l: int)
    requires k >= 2 && 0 <= h < Ceil(k) && 0 <= l < Floor(k)
    ensures 0 <= Index(k, h, l) < Pow2(k)
    ensures High(k, Index(k, h, l)) == h && Low(k, Index(k, h, l)) == l
  {
    Universe(k);
    JoinArith(h, l, Floor(k), Ceil(k), Pow2(k));
  }

  lemma JoinArith(h: int, l: int, f: int, c: int, u: int)
    requires u == f * c && 0 <= h < c && 0 <= l < f
    ensures 0 <= h * f + l < u && Quot(h * f + l, f) == h && Rem(h * f + l, f) == l
  {
    DivModOf(h, l, f);
    IndexBound(h, l, f, c);
    QuotIsDiv(h * f + l, f);
  }

  lemma IndexBound(h: int, l: int, f: int, c: int)
    requires 0 <= h < c && 0 <= l < f
    ensures h * f + l < f * c
  {
    MulLess(h, c, f);
    assert c * f == f * c;
  }

  /** Keys compare as their (cluster, place) pairs. */
  lemma ClusterCompare(k: nat, x: int, y: int)
    requires k >= 2 && 0 <= x < Pow2(k) && 0 <= y < Pow2(k)
    ensures x < y <==> High(k, x) < High(k, y) || (High(k, x) == High(k, y) && Low(k, x) < Low(k, y))
  {
    SplitKey(k, x);
    SplitKey(k, y);
    var f := Floor(k);
    if High(k, x) < High(k, y) {
      MulLess(High(k, x), High(k, y), f);
    } else if High(k, y) < High(k, x) {
      MulLess(High(k, y), High(k, x), f);
    }
  }

  // ---------------------------------------------------------------------
  // The tree and the set it holds
  // ---------------------------------------------------------------------

  /** A `VEB` object as a value: `Leaf` for universe 2, which keeps only
      `_min` and `_max`; `Tree` for u = 2^k > 2 with its summary and its
      `root_u_ceil` clusters. */
  datatype Veb =
    | Leaf(min: Option<int>, max: Option<int>)
    | Tree(k: nat, min: Option<int>, max: Option<int>, summary: Veb, clusters: seq<Veb>)

  function OptSet(o: Option<int>): set<int>
  {
    if o.Some? then {o.value} else {}
  }

  /** The keys of the set: the minimum, the maximum of a leaf, and the keys
      filed in the clusters. */
  ghost function Elems(t: Veb): set<int>
    decreases t, 1
  {
    match t
    case Leaf(mn, mx) => OptSet(mn) + OptSet(mx)
    case Tree(k, mn, _, _, cs) => OptSet(mn) + Filed(k, cs)
  }

  /** The keys filed in the clusters `cs` of a tree of universe 2^k: `x` is
      filed when `low(x)` is in cluster `high(x)`. */
  ghost function Filed(k: nat, cs: seq<Veb>): set<int>
    decreases cs, 0
  {
    set x | 0 <= x < Pow2(k) && 0 <= High(k, x) < |cs| && Low(k, x) in Elems(cs[High(k, x)])
  }

  /** Minimum and maximum of a tree with clusters: both or neither present;
      when present the minimum is below every filed key (so it is never
      filed itself), and the maximum is the largest filed key or equals the
      minimum. */
  ghost predicate Ends(mn: Option<int>, mx: Option<int>, filed: set<int>, u: int)
  {
    (mn.None? <==> mx.None?) &&
    (mn.None? ==> filed == {}) &&
    (mn.Some? ==>
      0 <= mn.value <= mx.value < u &&
      (forall y :: y in filed ==> mn.value < y <= mx.value) &&
      (mx.value == mn.value || mx.value in filed))
  }

  /** The summary holds exactly the indices of the clusters that are not
      empty. */
  ghost predicate Summarized(s: Veb, cs: seq<Veb>)
  {
    forall h {:trigger Elems(cs[h])} :: 0 <= h < |cs| ==> (h in Elems(s) <==> Elems(cs[h]) != {})
  }

  /** The representation invariant of a tree of universe 2^k. */
  ghost predicate Valid(t: Veb, k: nat)
    decreases t, 1
  {
    match t
    case Leaf(mn, mx) =>
      k == 1 && (mn.None? <==> mx.None?) && (mn.Some? ==> 0 <= mn.value <= mx.value < 2)
    case Tree(kt, mn, mx, s, cs) =>
      kt == k && k >= 2 && |cs| == Ceil(k) && Valid(s, UpperBits(k)) && AllValid(cs, LowerBits(k)) &&
      Summarized(s, cs) && Ends(mn, mx, Filed(k, cs), Pow2(k))
  }

  /** Every cluster is a valid tree of universe 2^d. */
  ghost predicate AllValid(cs: seq<Veb>, d: nat)
    decreases cs, 0
  {
    forall h {:trigger Valid(cs[h], d)} :: 0 <= h < |cs| ==> Valid(cs[h], d)
  }

  /** Every key lies in the universe. */
  lemma InUniverse(t: Veb, k: nat)
    requires Valid(t, k)
    ensures forall y :: y in Elems(t) ==> 0 <= y < Pow2(k)
  {
    if t.Leaf? {
      assert Pow2(1) == 2;
    }
  }

  /** The minimum and maximum fields hold the least and the greatest key,
      and are missing exactly on the empty set. */
  lemma Extremes(t: Veb, k: nat)
    requires Valid(t, k)
    ensures t.min.None? <==> Elems(t) == {}
    ensures t.min.None? <==> t.max.None?
    ensures t.min.Some? ==> t.min.value in Elems(t) && t.max.value in Elems(t)
    ensures t.min.Some? ==> forall y :: y in Elems(t) ==> t.min.value <= y <= t.max.value
  {
  }

  /** A key is filed exactly when its place is in its cluster. */
  lemma FiledMem(k: nat, cs: seq<Veb>, x: int)
    requires k >= 2 && |cs| == Ceil(k) && 0 <= x < Pow2(k)
    ensures 0 <= High(k, x) < |cs| && 0 <= Low(k, x) < Floor(k)
    ensures x in Filed(k, cs) <==> Low(k, x) in Elems(cs[High(k, x)])
  {
    SplitKey(k, x);
  }

  /** A key of cluster `h` is filed under its index. */
  lemma FiledOf(k: nat, cs: seq<Veb>, h: int, l: int)
    requires k >= 2 && |cs| == Ceil(k) && 0 <= h < |cs|
    requires Valid(cs[h], LowerBits(k)) && l in Elems(cs[h])
    ensures Index(k, h, l) in Filed(k, cs)
    ensures High(k, Index(k, h, l)) == h && Low(k, Index(k, h, l)) == l
  {
    InUniverse(cs[h], LowerBits(k));
    Join(k, h, l);
  }

  /** A filed key has a cluster that the summary records. */
  lemma InSummary(k: nat, s: Veb, cs: seq<Veb>, y: int)
    requires k >= 2 && |cs| == Ceil(k) && Summarized(s, cs) && y in Filed(k, cs)
    ensures 0 <= y < Pow2(k) && 0 <= High(k, y) < |cs| && High(k, y) in Elems(s)
    ensures Low(k, y) in Elems(cs[High(k, y)])
  {
    FiledMem(k, cs, y);
  }

  /** Nothing is filed exactly when the summary is empty. */
  lemma FiledNone(k: nat, s: Veb, cs: seq<Veb>)
    requires k >= 2 && |cs| == Ceil(k) && Valid(s, UpperBits(k)) && AllValid(cs, LowerBits(k)) && Summarized(s, cs)
    ensures Filed(k, cs) == {} <==> Elems(s) == {}
  {
    if y :| y in Filed(k, cs) {
      InSummary(k, s, cs, y);
    }
    if h :| h in Elems(s) {
      InUniverse(s, UpperBits(k));
      assert Elems(cs[h]) != {} && Valid(cs[h], LowerBits(k));
      Extremes(cs[h], LowerBits(k));
      FiledOf(k, cs, h, cs[h].min.value);
    }
  }

  /** The minimum of a cluster `h` below which no key is filed is the least
      filed key. */
  lemma BottomOfFiled(k: nat, cs: seq<Veb>, h: int)
    requires k >= 2 && |cs| == Ceil(k) && 0 <= h < |cs| && Valid(cs[h], LowerBits(k)) && Elems(cs[h]) != {}
    requires forall y :: y in Filed(k, cs) ==> h <= High(k, y)
    ensures cs[h].min.Some?
    ensures Index(k, h, cs[h].min.value) in Filed(k, cs)
    ensures forall y :: y in Filed(k, cs) ==> Index(k, h, cs[h].min.value) <= y
  {
    Extremes(cs[h], LowerBits(k));
    var x := Index(k, h, cs[h].min.value);
    FiledOf(k, cs, h, cs[h].min.value);
    forall y | y in Filed(k, cs)
      ensures x <= y
    {
      FiledMem(k, cs, y);
      ClusterCompare(k, y, x);
    }
  }

  /** The maximum of a cluster `h` above which no key is filed is the
      greatest filed key. */
  lemma TopOfFiled(k: nat, cs: seq<Veb>, h: int)
    requires k >= 2 && |cs| == Ceil(k) && 0 <= h < |cs| && Valid(cs[h], LowerBits(k)) && Elems(cs[h]) != {}
    requires forall y :: y in Filed(k, cs) ==> High(k, y) <= h
    ensures cs[h].max.Some?
    ensures Index(k, h, cs[h].max.value) in Filed(k, cs)
    ensures forall y :: y in Filed(k, cs) ==> y <= Index(k, h, cs[h].max.value)
  {
    Extremes(cs[h], LowerBits(k));
    var x := Index(k, h, cs[h].max.value);
    FiledOf(k, cs, h, cs[h].max.value);
    forall y | y in Filed(k, cs)
      ensures y <= x
    {
      FiledMem(k, cs, y);
      ClusterCompare(k, x, y);
    }
  }

  /** The least filed key is in the summary's minimum cluster, at that
      cluster's minimum. */
  lemma LeastFiled(k: nat, s: Veb, cs: seq<Veb>)
    requires k >= 2 && |cs| == Ceil(k) && Valid(s, UpperBits(k)) && AllValid(cs, LowerBits(k)) && Summarized(s, cs)
    requires Filed(k, cs) != {}
    ensures s.min.Some? && 0 <= s.min.value < |cs| && cs[s.min.value].min.Some?
    ensures Index(k, s.min.value, cs[s.min.value].min.value) in Filed(k, cs)
    ensures forall y :: y in Filed(k, cs) ==> Index(k, s.min.value, cs[s.min.value].min.value) <= y
  {
    FiledNone(k, s, cs);
    Extremes(s, UpperBits(k));
    InUniverse(s, UpperBits(k));
    var h := s.min.value;
    assert Valid(cs[h], LowerBits(k));
    forall y | y in Filed(k, cs)
      ensures h <= High(k, y)
    {
      InSummary(k, s, cs, y);
    }
    BottomOfFiled(k, cs, h);
  }

  /** The greatest filed key is in the summary's maximum cluster, at that
      cluster's maximum. */
  lemma GreatestFiled(k: nat, s: Veb, cs: seq<Veb>)
    requires k >= 2 && |cs| == Ceil(k) && Valid(s, UpperBits(k)) && AllValid(cs, LowerBits(k)) && Summarized(s, cs)
    requires Filed(k, cs) != {}
    ensures s.max.Some? && 0 <= s.max.value < |cs| && cs[s.max.value].max.Some?
    ensures Index(k, s.max.value, cs[s.max.value].max.value) in Filed(k, cs)
    ensures forall y :: y in Filed(k, cs) ==> y <= Index(k, s.max.value, cs[s.max.value].max.value)
  {
    FiledNone(k, s, cs);
    Extremes(s, UpperBits(k));
    InUniverse(s, UpperBits(k));
    var h := s.max.value;
    assert Valid(cs[h], LowerBits(k));
    forall y | y in Filed(k, cs)
      ensures High(k, y) <= h
    {
      InSummary(k, s, cs, y);
    }
    TopOfFiled(k, cs, h);
  }

  // ---------------------------------------------------------------------
  // Filing a key in a cluster
  // ---------------------------------------------------------------------

  /** Replacing cluster `h` changes only the keys filed under `h`. */
  lemma FiledUpdate(k: nat, cs: seq<Veb>, h: int, c: Veb, y: int)
    requires k >= 2 && |cs| == Ceil(k) && 0 <= h < |cs|
    ensures y in Filed(k, cs[h := c]) <==>
      (y in Filed(k, cs) && High(k, y) != h) ||
      (0 <= y < Pow2(k) && High(k, y) == h && Low(k, y) in Elems(c))
  {
    if 0 <= y < Pow2(k) {
      FiledMem(k, cs, y);
      FiledMem(k, cs[h := c], y);
    }
  }

  /** Adding the place of `x` to its cluster files `x`. */
  lemma FiledAdd(k: nat, cs: seq<Veb>, x: int, c: Veb)
    requires k >= 2 && |cs| == Ceil(k) && 0 <= x < Pow2(k) && 0 <= High(k, x) < |cs|
    requires Elems(c) == Elems(cs[High(k, x)]) + {Low(k, x)}
    ensures Filed(k, cs[High(k, x) := c]) == Filed(k, cs) + {x}
  {
    var h := High(k, x);
    SplitKey(k, x);
    forall y ensures y in Filed(k, cs[h := c]) <==> y in Filed(k, cs) || y == x {
      FiledUpdate(k, cs, h, c, y);
      if 0 <= y < Pow2(k) {
        FiledMem(k, cs, y);
        SplitKey(k, y);
      }
    }
  }

  /** Removing the place of `x` from its cluster unfiles `x`. */
  lemma FiledRemove(k: nat, cs: seq<Veb>, x: int, c: Veb)
    requires k >= 2 && |cs| == Ceil(k) && 0 <= x < Pow2(k) && 0 <= High(k, x) < |cs|
    requires Elems(c) == Elems(cs[High(k, x)]) - {Low(k, x)}
    ensures Filed(k, cs[High(k, x) := c]) == Filed(k, cs) - {x}
  {
    var h := High(k, x);
    SplitKey(k, x);
    forall y ensures y in Filed(k, cs[h := c]) <==> y in Filed(k, cs) && y != x {
      FiledUpdate(k, cs, h, c, y);
      if 0 <= y < Pow2(k) {
        FiledMem(k, cs, y);
        SplitKey(k, y);
      }
    }
  }

  /** The summary stays right when one cluster changes and the summary
      changes with it. */
  lemma Resummarized(s: Veb, cs: seq<Veb>, h: int, c: Veb, s2: Veb)
    requires Summarized(s, cs) && 0 <= h < |cs|
    requires Elems(s2) == (if Elems(c) == {} then Elems(s) - {h} else Elems(s) + {h})
    ensures Summarized(s2, cs[h := c])
  {
    var cs2 := cs[h := c];
    forall j | 0 <= j < |cs2|
      ensures j in Elems(s2) <==> Elems(cs2[j]) != {}
    {
      if j != h {
        assert Elems(cs2[j]) == Elems(cs[j]);
      }
    }
  }

  /** Replacing a cluster by a valid one keeps every cluster valid. */
  lemma AllValidUpdate(cs: seq<Veb>, d: nat, h: int, c: Veb)
    requires AllValid(cs, d) && 0 <= h < |cs| && Valid(c, d)
    ensures AllValid(cs[h := c], d)
  {
    var cs2 := cs[h := c];
    forall j | 0 <= j < |cs2|
      ensures Valid(cs2[j], d)
    {
      if j != h {
        assert Valid(cs[j], d);
      }
    }
  }
}
