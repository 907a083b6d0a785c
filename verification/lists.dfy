/** Sequence helpers shared by the queries: order-preserving filtering (a
    `WHERE` clause over rows in insertion order, or a list comprehension with an
    `if`), and stable ordering by a numeric key, largest first (what
    `ORDER BY k DESC` yields over rows in insertion order, and what Python's
    `list.sort(key=k, reverse=True)` does: ties keep their original order). */
module Lists {

  /** The elements of `s` satisfying `p`, in their order in `s`. */
  function Filter<T(!new)>(s: seq<T>, p: T -> bool): (r: seq<T>)
    ensures |r| <= |s|
    ensures forall x :: x in r <==> x in s && p(x)
  {
    if s == [] then []
    else
      var rest := Filter(s[1..], p);
      assert forall x :: x in s <==> x == s[0] || x in s[1..];
      if p(s[0]) then [s[0]] + rest else rest
  }

  predicate SortedDesc<T>(s: seq<T>, key: T -> int) {
    forall i, j :: 0 <= i < j < |s| ==> key(s[i]) >= key(s[j])
  }

  /** Puts `x` in front of the first element whose key is not larger than its own. */
  function InsertDesc<T>(x: T, s: seq<T>, key: T -> int): (r: seq<T>)
    requires SortedDesc(s, key)
    ensures SortedDesc(r, key)
    ensures multiset(r) == multiset(s) + multiset{x}
    ensures |r| == |s| + 1
  {
    if s == [] || key(x) >= key(s[0]) then [x] + s
    else
      SortedTail(s, key);
      var t := InsertDesc(x, s[1..], key);
      assert s == [s[0]] + s[1..];
      BoundedByMultiset(t, s[1..], x, key, key(s[0]));
      SortedCons(s[0], t, key);
      [s[0]] + t
  }

  lemma SortedTail<T>(s: seq<T>, key: T -> int)
    requires SortedDesc(s, key) && s != []
    ensures SortedDesc(s[1..], key)
    ensures forall j :: 0 <= j < |s[1..]| ==> key(s[1..][j]) <= key(s[0])
  {
  }

  lemma SortedCons<T>(h: T, t: seq<T>, key: T -> int)
    requires SortedDesc(t, key) && forall i :: 0 <= i < |t| ==> key(t[i]) <= key(h)
    ensures SortedDesc([h] + t, key)
  {
  }

  /** A bound on every key of `u` and on `x` bounds every key of a
      rearrangement of `u` with `x` added. */
  lemma BoundedByMultiset<T>(t: seq<T>, u: seq<T>, x: T, key: T -> int, k: int)
    requires multiset(t) == multiset(u) + multiset{x}
    requires key(x) <= k && forall j :: 0 <= j < |u| ==> key(u[j]) <= k
    ensures forall i :: 0 <= i < |t| ==> key(t[i]) <= k
  {
    forall i | 0 <= i < |t| ensures key(t[i]) <= k {
      assert t[i] in multiset(t);
      if t[i] != x {
        assert t[i] in multiset(u);
        var j :| 0 <= j < |u| && u[j] == t[i];
      }
    }
  }

  /** The elements of `s`, largest key first; equal keys keep their order in `s`. */
  function SortDesc<T>(s: seq<T>, key: T -> int): (r: seq<T>)
    ensures SortedDesc(r, key)
    ensures multiset(r) == multiset(s)
    ensures |r| == |s|
  {
    if s == [] then []
    else
      assert s == [s[0]] + s[1..];
      InsertDesc(s[0], SortDesc(s[1..], key), key)
  }

  /** Sorting keeps exactly the elements it was given. */
  lemma SortDescMembers<T>(s: seq<T>, key: T -> int, x: T)
    ensures x in SortDesc(s, key) <==> x in s
  {
    var r := SortDesc(s, key);
    assert x in r <==> x in multiset(r);
    assert x in s <==> x in multiset(s);
  }

  /** No two positions of `s` share a key. */
  predicate KeysDistinct<T, K(==)>(s: seq<T>, key: T -> K) {
    forall i, j :: 0 <= i < |s| && 0 <= j < |s| && key(s[i]) == key(s[j]) ==> i == j
  }

  /** Filtering keeps a key that was unique unique. */
  lemma {:induction false} FilterKeepsDistinct<T(!new), K>(s: seq<T>, p: T -> bool, key: T -> K)
    requires KeysDistinct(s, key)
    ensures KeysDistinct(Filter(s, p), key)
  {
    if s != [] {
      var rest := Filter(s[1..], p);
      assert KeysDistinct(s[1..], key) by {
        forall i, j | 0 <= i < |s[1..]| && 0 <= j < |s[1..]| && key(s[1..][i]) == key(s[1..][j]) ensures i == j {
          assert s[1..][i] == s[i + 1] && s[1..][j] == s[j + 1];
        }
      }
      FilterKeepsDistinct(s[1..], p, key);
      if p(s[0]) {
        var r := [s[0]] + rest;
        forall x | x in rest ensures key(x) != key(s[0]) {
          var k :| 0 <= k < |s[1..]| && s[1..][k] == x;
          assert s[k + 1] == x;
        }
        forall i | 0 < i < |r| ensures key(r[i]) != key(r[0]) {
          assert r[i] == rest[i - 1];
        }
        forall i, j | 0 < i < |r| && 0 < j < |r| ensures key(r[i]) == key(r[j]) ==> i == j {
          assert r[i] == rest[i - 1] && r[j] == rest[j - 1];
        }
      }
    }
  }

  /** An element at a position whose key no other position shares occurs
      once. */
  lemma {:induction false} OccursOnce<T, K>(s: seq<T>, key: T -> K, p: int)
    requires KeysDistinct(s, key) && 0 <= p < |s|
    ensures multiset(s)[s[p]] == 1
  {
    if |s| > 1 {
      var last := |s| - 1;
      var init := s[..last];
      assert s == init + [s[last]];
      if p == last {
        forall i | 0 <= i < |init| ensures init[i] != s[p] {
          assert key(s[i]) != key(s[p]);
        }
        assert s[p] !in multiset(init);
      } else {
        assert KeysDistinct(init, key) by {
          forall a, b | 0 <= a < |init| && 0 <= b < |init| && key(init[a]) == key(init[b]) ensures a == b {
            assert key(s[a]) == key(s[b]);
          }
        }
        OccursOnce(init, key, p);
        assert key(s[last]) != key(s[p]);
        assert init[p] == s[p];
      }
    }
  }

  /** Two positions holding the same element make it occur at least twice. */
  lemma {:induction false} OccursTwice<T>(s: seq<T>, i: int, j: int)
    requires 0 <= i < j < |s| && s[i] == s[j]
    ensures multiset(s)[s[i]] >= 2
  {
    var a, b, c := s[..i], s[i + 1..j], s[j + 1..];
    assert s == a + [s[i]] + b + [s[j]] + c;
  }

  /** A reordering keeps distinct keys distinct. */
  lemma ReorderKeepsDistinct<T, K>(a: seq<T>, b: seq<T>, key: T -> K)
    requires multiset(a) == multiset(b) && KeysDistinct(a, key)
    ensures KeysDistinct(b, key)
  {
    forall i, j | 0 <= i < |b| && 0 <= j < |b| && key(b[i]) == key(b[j]) ensures i == j {
      assert b[i] in multiset(a) && b[j] in multiset(a);
      var p :| 0 <= p < |a| && a[p] == b[i];
      var q :| 0 <= q < |a| && a[q] == b[j];
      assert p == q;
      if i != j {
        OccursOnce(a, key, p);
        if i < j { OccursTwice(b, i, j); } else { OccursTwice(b, j, i); }
      }
    }
  }
}
