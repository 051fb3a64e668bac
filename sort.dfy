/**
 * `Array.prototype.sort` with a comparator derived from a string key, as the
 * result merger of GithubListing.tsx uses it. Since the 2019 edition of
 * ECMA-262 the sort is stable.
 *
 * SortBy is the specification: a stable insertion sort written as a function.
 * SortInPlace sorts an array in place and is proved to produce exactly SortBy;
 * StableSortUnique shows that every stable sort under the same comparator
 * produces the same list, so the choice of algorithm does not matter.
 */
module StableSort {
  import opened Strings

  /** The comparator: -1, 1 or 0 as the key of a is `<`, `>` or neither of the key of b. */
  function CompareBy<T>(key: T -> string, a: T, b: T): (r: int)
    ensures r == -1 || r == 0 || r == 1
    ensures r < 0 <==> Lt(key(a), key(b))
    ensures r > 0 <==> Lt(key(b), key(a))
    ensures r == 0 <==> key(a) == key(b)
  {
    var ka := key(a);
    var kb := key(b);
    LtIrreflexive(ka);
    LtTotal(ka, kb);
    LtAsymmetric(ka, kb);
    if Lt(ka, kb) then -1
    else if Lt(kb, ka) then 1
    else 0
  }

  /** The comparator is consistent: swapping the arguments negates it. */
  lemma CompareAntisymmetric<T>(key: T -> string, a: T, b: T)
    ensures CompareBy(key, a, b) == -CompareBy(key, b, a)
  {
  }

  /** The comparator is consistent: "not after" is transitive. */
  lemma CompareTransitive<T>(key: T -> string, a: T, b: T, c: T)
    requires CompareBy(key, a, b) <= 0 && CompareBy(key, b, c) <= 0
    ensures CompareBy(key, a, c) <= 0
  {
    var ka, kb, kc := key(a), key(b), key(c);
    LtTotal(ka, kb);
    if Lt(kc, ka) && Lt(ka, kb) {
      LtTransitive(kc, ka, kb);
    }
  }

  /** Every element of s is ordered no later than every element after it. */
  predicate SortedBy<T>(key: T -> string, s: seq<T>) {
    forall i, j :: 0 <= i < j < |s| ==> CompareBy(key, s[i], s[j]) <= 0
  }

  /**
   * Inserts x into t from the back: x moves in front of each trailing element
   * that the comparator puts strictly after it, and stops at the first that it does not.
   */
  function InsertBy<T>(key: T -> string, t: seq<T>, x: T): (r: seq<T>)
    ensures |r| == |t| + 1
    decreases |t|
  {
    if t == [] || CompareBy(key, t[|t| - 1], x) <= 0 then t + [x]
    else InsertBy(key, t[..|t| - 1], x) + [t[|t| - 1]]
  }

  /** Stable insertion sort. */
  function SortBy<T>(key: T -> string, s: seq<T>): (r: seq<T>)
    ensures |r| == |s|
  {
    if s == [] then []
    else InsertBy(key, SortBy(key, s[..|s| - 1]), s[|s| - 1])
  }

  /** The elements of s whose key is k, in their order in s. */
  function WithKey<T>(key: T -> string, s: seq<T>, k: string): (r: seq<T>)
    ensures |r| <= |s|
    ensures forall i :: 0 <= i < |r| ==> key(r[i]) == k && r[i] in s
  {
    if s == [] then []
    else WithKey(key, s[..|s| - 1], k) + (if key(s[|s| - 1]) == k then [s[|s| - 1]] else [])
  }

  /** r is a stable sort of s: ordered, and each group of equal keys keeps its order from s. */
  ghost predicate IsStableSortOf<T>(key: T -> string, r: seq<T>, s: seq<T>) {
    SortedBy(key, r) && forall k :: WithKey(key, r, k) == WithKey(key, s, k)
  }

  /** Insertion adds x and loses nothing. */
  lemma {:induction false} InsertPermutes<T>(key: T -> string, t: seq<T>, x: T)
    ensures multiset(InsertBy(key, t, x)) == multiset(t) + multiset{x}
    decreases |t|
  {
    if t != [] && CompareBy(key, t[|t| - 1], x) > 0 {
      assert t == t[..|t| - 1] + [t[|t| - 1]];
      InsertPermutes(key, t[..|t| - 1], x);
    }
  }

  /** Sorting is a permutation of its input. */
  lemma {:induction false} SortByPermutes<T>(key: T -> string, s: seq<T>)
    ensures multiset(SortBy(key, s)) == multiset(s)
  {
    if s != [] {
      assert s == s[..|s| - 1] + [s[|s| - 1]];
      SortByPermutes(key, s[..|s| - 1]);
      InsertPermutes(key, SortBy(key, s[..|s| - 1]), s[|s| - 1]);
    }
  }

  lemma {:induction false} InsertSorted<T>(key: T -> string, t: seq<T>, x: T)
    requires SortedBy(key, t)
    ensures SortedBy(key, InsertBy(key, t, x))
    decreases |t|
  {
    if t == [] {
    } else if CompareBy(key, t[|t| - 1], x) <= 0 {
      var r := t + [x];
      forall i, j | 0 <= i < j < |r| ensures CompareBy(key, r[i], r[j]) <= 0 {
        if j == |t| && i < |t| - 1 {
          CompareTransitive(key, t[i], t[|t| - 1], x);
        }
      }
    } else {
      var init, last := t[..|t| - 1], t[|t| - 1];
      InsertSorted(key, init, x);
      var ins := InsertBy(key, init, x);
      InsertPermutes(key, init, x);
      forall e | e in ins ensures CompareBy(key, e, last) <= 0 {
        assert e in multiset(ins);
        if e == x {
          CompareAntisymmetric(key, last, x);
        } else {
          assert e in multiset(init);
          var k :| 0 <= k < |init| && init[k] == e;
          assert t[k] == e;
        }
      }
      var r := ins + [last];
      forall i, j | 0 <= i < j < |r| ensures CompareBy(key, r[i], r[j]) <= 0 {
        if j == |ins| {
          assert r[i] in ins;
        } else {
          assert r[i] == ins[i] && r[j] == ins[j];
        }
      }
    }
  }

  lemma {:induction false} WithKeyAppend<T>(key: T -> string, a: seq<T>, b: seq<T>, k: string)
    ensures WithKey(key, a + b, k) == WithKey(key, a, k) + WithKey(key, b, k)
    decreases |b|
  {
    if b == [] {
      assert a + b == a;
    } else {
      var b' := b[..|b| - 1];
      assert (a + b)[..|a + b| - 1] == a + b';
      WithKeyAppend(key, a, b', k);
    }
  }

  lemma WithKeySingleton<T>(key: T -> string, x: T, k: string)
    ensures WithKey(key, [x], k) == if key(x) == k then [x] else []
  {
    assert [x][..0] == [];
  }

  /** Inserting x keeps every other key group as it was and appends x to its own group. */
  lemma {:induction false} InsertStable<T>(key: T -> string, t: seq<T>, x: T, k: string)
    ensures WithKey(key, InsertBy(key, t, x), k) == WithKey(key, t, k) + WithKey(key, [x], k)
    decreases |t|
  {
    if t == [] || CompareBy(key, t[|t| - 1], x) <= 0 {
      WithKeyAppend(key, t, [x], k);
    } else {
      var init, last := t[..|t| - 1], t[|t| - 1];
      var ins := InsertBy(key, init, x);
      var wi, wx, wl := WithKey(key, init, k), WithKey(key, [x], k), WithKey(key, [last], k);
      assert WithKey(key, InsertBy(key, t, x), k) == (wi + wx) + wl by {
        assert InsertBy(key, t, x) == ins + [last];
        InsertStable(key, init, x, k);
        WithKeyAppend(key, ins, [last], k);
      }
      assert WithKey(key, t, k) == wi + wl by {
        WithKeySingleton(key, last, k);
      }
      // last has a strictly greater key than x, so at most one of them has key k
      assert wx == [] || wl == [] by {
        WithKeySingleton(key, x, k);
        WithKeySingleton(key, last, k);
      }
      if wx == [] {
        assert (wi + wx) + wl == wi + wl;
      } else {
        assert (wi + wl) + wx == wi + wx;
      }
    }
  }

  /** The sorted list is ordered by the comparator. */
  lemma {:induction false} SortBySorted<T>(key: T -> string, s: seq<T>)
    ensures SortedBy(key, SortBy(key, s))
  {
    if s != [] {
      SortBySorted(key, s[..|s| - 1]);
      InsertSorted(key, SortBy(key, s[..|s| - 1]), s[|s| - 1]);
    }
  }

  /** Elements with equal keys keep their input order. */
  lemma {:induction false} SortByStable<T>(key: T -> string, s: seq<T>, k: string)
    ensures WithKey(key, SortBy(key, s), k) == WithKey(key, s, k)
  {
    if s != [] {
      var init, last := s[..|s| - 1], s[|s| - 1];
      assert s == init + [last];
      SortByStable(key, init, k);
      InsertStable(key, SortBy(key, init), last, k);
      WithKeyAppend(key, init, [last], k);
    }
  }

  lemma SortByIsStableSort<T>(key: T -> string, s: seq<T>)
    ensures IsStableSortOf(key, SortBy(key, s), s)
  {
    SortBySorted(key, s);
    forall k ensures WithKey(key, SortBy(key, s), k) == WithKey(key, s, k) {
      SortByStable(key, s, k);
    }
  }

  /** In an ordered list no element comes after the last one. */
  lemma LastIsGreatest<T>(key: T -> string, r: seq<T>, e: T)
    requires SortedBy(key, r) && e in r
    ensures CompareBy(key, e, r[|r| - 1]) <= 0
  {
    var j :| 0 <= j < |r| && r[j] == e;
    if j == |r| - 1 {
      assert CompareBy(key, e, e) == 0;
    }
  }

  /** Two ordered lists with the same key groups are the same list. */
  lemma {:induction false} SortedSameGroupsEqual<T>(key: T -> string, r1: seq<T>, r2: seq<T>)
    requires SortedBy(key, r1) && SortedBy(key, r2)
    requires forall k :: WithKey(key, r1, k) == WithKey(key, r2, k)
    ensures r1 == r2
    decreases |r1|
  {
    // a non-empty list has a non-empty group, so both lists are empty or neither is
    if r1 != [] { assert WithKey(key, r1, key(r1[|r1| - 1])) != []; }
    if r2 != [] { assert WithKey(key, r2, key(r2[|r2| - 1])) != []; }
    if r1 == [] || r2 == [] {
    } else {
      var init1, m1 := r1[..|r1| - 1], r1[|r1| - 1];
      var init2, m2 := r2[..|r2| - 1], r2[|r2| - 1];
      // the last elements have the greatest key of their list, so their keys agree
      assert CompareBy(key, m1, m2) <= 0 by {
        var w := WithKey(key, r2, key(m1));
        assert w == WithKey(key, r1, key(m1));
        assert w[|w| - 1] in r2;
        LastIsGreatest(key, r2, w[|w| - 1]);
      }
      assert CompareBy(key, m2, m1) <= 0 by {
        var w := WithKey(key, r1, key(m2));
        assert w == WithKey(key, r2, key(m2));
        assert w[|w| - 1] in r1;
        LastIsGreatest(key, r1, w[|w| - 1]);
      }
      var k := key(m1);
      assert key(m2) == k;
      // both last elements close the group of k, so they coincide
      var g1, g2 := WithKey(key, init1, k), WithKey(key, init2, k);
      assert g1 + [m1] == g2 + [m2];
      assert m1 == m2 && g1 == g2 by {
        assert (g1 + [m1])[|g1|] == m1 && (g2 + [m2])[|g2|] == m2;
        assert (g1 + [m1])[..|g1|] == g1 && (g2 + [m2])[..|g2|] == g2;
      }
      forall k' ensures WithKey(key, init1, k') == WithKey(key, init2, k') {
        if k' != k {
          assert WithKey(key, r1, k') == WithKey(key, init1, k');
          assert WithKey(key, r2, k') == WithKey(key, init2, k');
        }
      }
      SortedSameGroupsEqual(key, init1, init2);
      assert r1 == init1 + [m1] && r2 == init2 + [m2];
    }
  }

  /** Every stable sort under this comparator gives the same list as SortBy. */
  lemma StableSortUnique<T>(key: T -> string, r: seq<T>, s: seq<T>)
    requires IsStableSortOf(key, r, s)
    ensures r == SortBy(key, s)
  {
    SortByIsStableSort(key, s);
    SortedSameGroupsEqual(key, r, SortBy(key, s));
  }

  /** Moving x in front of t[j - 1], which the comparator puts strictly after x. */
  lemma InsertPassesOne<T>(key: T -> string, t: seq<T>, x: T, j: nat)
    requires 0 < j <= |t| && CompareBy(key, t[j - 1], x) > 0
    ensures InsertBy(key, t[..j], x) + t[j..] == InsertBy(key, t[..j - 1], x) + t[j - 1..]
  {
    assert t[..j][..j - 1] == t[..j - 1];
    assert t[j - 1..] == [t[j - 1]] + t[j..];
  }

  /** x stops behind t[j - 1] when the comparator does not put t[j - 1] after it. */
  lemma InsertStops<T>(key: T -> string, t: seq<T>, x: T, j: nat)
    requires j <= |t| && (j == 0 || CompareBy(key, t[j - 1], x) <= 0)
    ensures InsertBy(key, t[..j], x) == t[..j] + [x]
  {
  }

  /** Sorting an already sorted list again changes nothing. */
  lemma SortByIdempotent<T>(key: T -> string, s: seq<T>)
    ensures SortBy(key, SortBy(key, s)) == SortBy(key, s)
  {
    SortBySorted(key, s);
    StableSortUnique(key, SortBy(key, s), SortBy(key, s));
  }

  /** One insertion-sort step: moves a[i] backwards into the ordered prefix a[..i]. */
  method InsertLast<T>(key: T -> string, a: array<T>, i: nat)
    requires i < a.Length
    modifies a
    ensures a[..i + 1] == InsertBy(key, old(a[..i]), old(a[i]))
    ensures a[i + 1..] == old(a[i + 1..])
  {
    ghost var t := a[..i];
    var x := a[i];
    var j := i;
    assert t[..j] == t && t[j..] == [];
    while j > 0 && CompareBy(key, a[j - 1], x) > 0
      invariant 0 <= j <= i
      invariant forall m :: 0 <= m < j ==> a[m] == t[m]
      invariant forall m :: j < m <= i ==> a[m] == t[m - 1]
      invariant forall m :: i < m < a.Length ==> a[m] == old(a[m])
      invariant InsertBy(key, t, x) == InsertBy(key, t[..j], x) + t[j..]
    {
      InsertPassesOne(key, t, x, j);
      a[j] := a[j - 1];
      j := j - 1;
    }
    a[j] := x;
    InsertStops(key, t, x, j);
    assert a[..i + 1] == t[..j] + [x] + t[j..] by {
      forall m | 0 <= m <= i ensures a[m] == (t[..j] + [x] + t[j..])[m] {
      }
    }
  }

  /** Sorts the array in place; the result is exactly the stable sort SortBy. */
  method SortInPlace<T>(key: T -> string, a: array<T>)
    modifies a
    ensures a[..] == SortBy(key, old(a[..]))
  {
    ghost var s := a[..];
    for i := 0 to a.Length
      invariant a[..i] == SortBy(key, s[..i])
      invariant a[i..] == s[i..]
    {
      assert a[i] == s[i];
      InsertLast(key, a, i);
      assert s[..i + 1][..i] == s[..i];
    }
    assert s[..a.Length] == s;
  }
}
