/** A stable sort by a numeric key, as a two-column `sort_values` orders a
    table: rows with smaller keys first, rows with equal keys in their input
    order. */
module Sorting {

  predicate SortedBy<T>(key: T -> nat, s: seq<T>) {
    forall i, j :: 0 <= i < j < |s| ==> key(s[i]) <= key(s[j])
  }

  /** Inserts `x` after every element whose key is no larger. */
  function InsertBy<T>(key: T -> nat, x: T, s: seq<T>): seq<T>
    decreases |s|
  {
    if s == [] then [x]
    else if key(x) < key(s[0]) then [x] + s
    else [s[0]] + InsertBy(key, x, s[1..])
  }

  /** Each element goes after all earlier elements with no larger key. */
  function SortBy<T>(key: T -> nat, s: seq<T>): seq<T>
    decreases |s|
  {
    if s == [] then [] else InsertBy(key, s[|s| - 1], SortBy(key, s[..|s| - 1]))
  }

  /** The elements with key `k`, in order. */
  function WithKey<T>(key: T -> nat, s: seq<T>, k: nat): seq<T>
    decreases |s|
  {
    if s == [] then [] else (if key(s[0]) == k then [s[0]] else []) + WithKey(key, s[1..], k)
  }

  /** Inserting adds exactly the one element. */
  lemma {:induction false} InsertPermutation<T>(key: T -> nat, x: T, s: seq<T>)
    ensures multiset(InsertBy(key, x, s)) == multiset(s) + multiset{x}
    decreases |s|
  {
    if s != [] && key(x) >= key(s[0]) {
      InsertPermutation(key, x, s[1..]);
      assert s == [s[0]] + s[1..];
    }
  }

  /** An element no larger than every element of a sorted sequence can go
      in front of it. */
  lemma SortedCons<T>(key: T -> nat, y: T, t: seq<T>)
    requires SortedBy(key, t)
    requires forall m :: 0 <= m < |t| ==> key(y) <= key(t[m])
    ensures SortedBy(key, [y] + t)
  {
    var r := [y] + t;
    forall i, j | 0 <= i < j < |r|
      ensures key(r[i]) <= key(r[j])
    {
      assert r[j] == t[j - 1];
      if i > 0 {
        assert r[i] == t[i - 1];
      }
    }
  }

  lemma {:induction false} InsertSorted<T>(key: T -> nat, x: T, s: seq<T>)
    requires SortedBy(key, s)
    ensures SortedBy(key, InsertBy(key, x, s))
    decreases |s|
  {
    if s != [] {
      if key(x) < key(s[0]) {
        SortedCons(key, x, s);
      } else {
        var t := InsertBy(key, x, s[1..]);
        InsertSorted(key, x, s[1..]);
        InsertPermutation(key, x, s[1..]);
        forall m | 0 <= m < |t|
          ensures key(s[0]) <= key(t[m])
        {
          assert t[m] in multiset(s[1..]) + multiset{x};
          if t[m] != x {
            var n :| 0 <= n < |s[1..]| && s[1..][n] == t[m];
            assert s[n + 1] == t[m];
          }
        }
        SortedCons(key, s[0], t);
      }
    }
  }

  /** The output is in key order. */
  lemma {:induction false} SortSorted<T>(key: T -> nat, s: seq<T>)
    ensures SortedBy(key, SortBy(key, s))
    decreases |s|
  {
    if s != [] {
      SortSorted(key, s[..|s| - 1]);
      InsertSorted(key, s[|s| - 1], SortBy(key, s[..|s| - 1]));
    }
  }

  /** The output is a permutation of the input. */
  lemma {:induction false} SortPermutation<T>(key: T -> nat, s: seq<T>)
    ensures multiset(SortBy(key, s)) == multiset(s)
    decreases |s|
  {
    if s != [] {
      var init := s[..|s| - 1];
      SortPermutation(key, init);
      InsertPermutation(key, s[|s| - 1], SortBy(key, init));
      assert s == init + [s[|s| - 1]];
    }
  }

  lemma {:induction false} WithKeyAppend<T>(key: T -> nat, a: seq<T>, b: seq<T>, k: nat)
    ensures WithKey(key, a + b, k) == WithKey(key, a, k) + WithKey(key, b, k)
    decreases |a|
  {
    if a == [] {
      assert a + b == b;
    } else {
      var c := a + b;
      var h := if key(a[0]) == k then [a[0]] else [];
      assert c[0] == a[0] && c[1..] == a[1..] + b;
      assert WithKey(key, c, k) == h + WithKey(key, c[1..], k);
      WithKeyAppend(key, a[1..], b, k);
    }
  }

  lemma {:induction false} WithKeyNone<T>(key: T -> nat, s: seq<T>, k: nat)
    requires forall i :: 0 <= i < |s| ==> key(s[i]) > k
    ensures WithKey(key, s, k) == []
    decreases |s|
  {
    if s != [] {
      WithKeyNone(key, s[1..], k);
    }
  }

  /** Inserting into a sorted sequence puts `x` after the elements with its
      key. */
  lemma {:induction false} InsertWithKey<T>(key: T -> nat, x: T, s: seq<T>, k: nat)
    requires SortedBy(key, s)
    ensures WithKey(key, InsertBy(key, x, s), k) == WithKey(key, s, k) + (if key(x) == k then [x] else [])
    decreases |s|
  {
    if s == [] {
      assert WithKey(key, [x], k) == (if key(x) == k then [x] else []) + WithKey(key, [x][1..], k);
    } else if key(x) < key(s[0]) {
      assert ([x] + s)[1..] == s;
      if key(x) == k {
        WithKeyNone(key, s, k);
      }
    } else {
      InsertWithKey(key, x, s[1..], k);
      assert ([s[0]] + InsertBy(key, x, s[1..]))[1..] == InsertBy(key, x, s[1..]);
    }
  }

  /** The sort is stable: for every key, the elements with that key keep
      their input order. */
  lemma {:induction false} SortStable<T>(key: T -> nat, s: seq<T>, k: nat)
    ensures WithKey(key, SortBy(key, s), k) == WithKey(key, s, k)
    decreases |s|
  {
    if s != [] {
      var init := s[..|s| - 1];
      var x := s[|s| - 1];
      var sortedInit := SortBy(key, init);
      var only := if key(x) == k then [x] else [];
      assert SortBy(key, s) == InsertBy(key, x, sortedInit);
      SortSorted(key, init);
      InsertWithKey(key, x, sortedInit, k);
      SortStable(key, init, k);
      assert WithKey(key, [x], k) == only by {
        assert [x][1..] == [];
      }
      WithKeyAppend(key, init, [x], k);
      assert s == init + [x];
    }
  }
}
