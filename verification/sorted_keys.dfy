/**
 * What insert and remove do to the keys of a search tree, read in key
 * order: a key goes in after every key not greater than it (equal keys go
 * right in Tree/BST.py:100-111), and one occurrence of a key comes out.
 */
module SortedKeys {
  import opened TreeShape

  /** `s` with `k` put in after the leading run of elements not greater
      than `k`. */
  function InsertSorted(s: seq<int>, k: int): seq<int>
  {
    if s == [] then [k]
    else if k < s[0] then [k] + s
    else [s[0]] + InsertSorted(s[1..], k)
  }

  /** `s` less its first occurrence of `k`; `s` itself when `k` is absent. */
  function RemoveOne(s: seq<int>, k: int): seq<int>
  {
    if s == [] then []
    else if s[0] == k then s[1..]
    else [s[0]] + RemoveOne(s[1..], k)
  }

  /** Inserting adds exactly one occurrence of `k`. */
  lemma {:induction false} InsertSortedCount(s: seq<int>, k: int)
    ensures |InsertSorted(s, k)| == |s| + 1
    ensures multiset(InsertSorted(s, k)) == multiset(s) + multiset{k}
  {
    if s != [] {
      assert s == [s[0]] + s[1..];
      if k >= s[0] {
        InsertSortedCount(s[1..], k);
      }
    }
  }

  /** Removing takes out exactly one occurrence of a key that is there, and
      nothing otherwise. */
  lemma {:induction false} RemoveOneCount(s: seq<int>, k: int)
    ensures k in s ==> |RemoveOne(s, k)| == |s| - 1 && multiset(RemoveOne(s, k)) == multiset(s) - multiset{k}
    ensures k !in s ==> RemoveOne(s, k) == s
  {
    if s != [] {
      assert s == [s[0]] + s[1..];
      if s[0] != k {
        RemoveOneCount(s[1..], k);
      }
    }
  }

  /** Inserting into a sorted sequence keeps it sorted. */
  lemma {:induction false} InsertSortedSorted(s: seq<int>, k: int)
    requires Sorted(s)
    ensures Sorted(InsertSorted(s, k))
  {
    if s != [] && k >= s[0] {
      var t := s[1..];
      InsertSortedSorted(t, k);
      InsertSortedCount(t, k);
      var r := InsertSorted(t, k);
      assert multiset(r) == multiset(t) + multiset{k};
      forall j | 0 <= j < |r| ensures s[0] <= r[j] {
        assert r[j] in multiset(r);
        if r[j] != k {
          assert r[j] in multiset(t);
          var i :| 0 <= i < |t| && t[i] == r[j];
          assert t[i] == s[i + 1];
        }
      }
      assert InsertSorted(s, k) == [s[0]] + r;
      SortedSplit([], s[0], r);
    }
  }

  /** Where every element of `a` is at most `k` and every element of `b`
      is greater, `k` goes in between them. */
  lemma {:induction false} InsertSortedSplit(a: seq<int>, b: seq<int>, k: int)
    requires forall i :: 0 <= i < |a| ==> a[i] <= k
    requires forall j :: 0 <= j < |b| ==> k < b[j]
    ensures InsertSorted(a + b, k) == a + [k] + b
  {
    if a == [] {
      assert a + b == b;
      if b != [] {
        assert k < b[0];
      }
    } else {
      var t := a[1..];
      forall i | 0 <= i < |t| ensures t[i] <= k {
        assert t[i] == a[i + 1];
      }
      InsertSortedSplit(t, b, k);
      var s := a + b;
      assert s[0] == a[0] <= k && s[1..] == t + b;
      calc {
        InsertSorted(s, k);
        [a[0]] + InsertSorted(t + b, k);
        [a[0]] + (t + [k] + b);
        { assert a == [a[0]] + t; }
        a + [k] + b;
      }
    }
  }

  /** In a sorted sequence all occurrences of a key are alike: removing the
      first one is removing any one. */
  lemma {:induction false} RemoveAnyOccurrence(a: seq<int>, k: int, b: seq<int>)
    requires Sorted(a + [k] + b)
    ensures RemoveOne(a + [k] + b, k) == a + b
  {
    var s := a + [k] + b;
    if a == [] {
      assert s == [k] + b;
    } else if a[0] == k {
      RunOfKey(a, k, b);
      assert s[0] == k && s[1..] == (a[1..] + [k]) + b;
    } else {
      assert s[0] == a[0] && s[1..] == a[1..] + [k] + b;
      SortedSub(s, 1, |s|);
      RemoveAnyOccurrence(a[1..], k, b);
      assert a == [a[0]] + a[1..];
    }
  }

  /** A sorted run that starts and ends with `k` holds nothing but `k`. */
  lemma RunOfKey(a: seq<int>, k: int, b: seq<int>)
    requires Sorted(a + [k] + b) && a != [] && a[0] == k
    ensures a[1..] + [k] == a
  {
    var s := a + [k] + b;
    forall i | 0 <= i < |a| ensures a[i] == k {
      assert s[0] <= s[i] <= s[|a|] && s[i] == a[i];
    }
    forall i | 0 <= i < |a| ensures (a[1..] + [k])[i] == a[i] {
      if i < |a| - 1 { assert (a[1..] + [k])[i] == a[i + 1]; }
    }
  }
}
