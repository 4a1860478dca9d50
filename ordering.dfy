/** `ORDER BY <key> DESC` and `LIMIT n` over query results. MySQL leaves the order of rows with
    equal keys unspecified; the sort below is one admissible order, and its contracts promise only
    what ORDER BY promises: the same rows, with non-increasing keys. */
module Ordering {

  ghost predicate NonIncreasing<T>(s: seq<T>, key: T -> int)
  {
    forall i, j :: 0 <= i < j < |s| ==> key(s[i]) >= key(s[j])
  }

  ghost predicate Distinct<T>(s: seq<T>)
  {
    forall i, j :: 0 <= i < j < |s| ==> s[i] != s[j]
  }

  /** Inserts x into a list ordered by descending key, before the first row whose key is smaller. */
  function InsertDesc<T>(x: T, s: seq<T>, key: T -> int): (r: seq<T>)
    ensures |r| == |s| + 1
  {
    if s == [] then [x]
    else if key(x) >= key(s[0]) then [x] + s
    else [s[0]] + InsertDesc(x, s[1..], key)
  }

  lemma {:induction false} InsertDescRows<T>(x: T, s: seq<T>, key: T -> int)
    ensures multiset(InsertDesc(x, s, key)) == multiset(s) + multiset{x}
  {
    if s != [] && key(x) < key(s[0]) {
      InsertDescRows(x, s[1..], key);
      assert s == [s[0]] + s[1..];
    }
  }

  lemma {:induction false} InsertDescOrdered<T>(x: T, s: seq<T>, key: T -> int)
    requires NonIncreasing(s, key)
    ensures NonIncreasing(InsertDesc(x, s, key), key)
  {
    if s != [] && key(x) < key(s[0]) {
      var rest := InsertDesc(x, s[1..], key);
      InsertDescOrdered(x, s[1..], key);
      InsertDescRows(x, s[1..], key);
      forall k | 0 <= k < |rest|
        ensures key(s[0]) >= key(rest[k])
      {
        assert rest[k] in multiset(rest);
        assert rest[k] == x || rest[k] in s[1..];
      }
    }
  }

  lemma {:induction false} InsertDescDistinct<T>(x: T, s: seq<T>, key: T -> int)
    requires Distinct(s) && x !in s
    ensures Distinct(InsertDesc(x, s, key))
  {
    if s != [] && key(x) < key(s[0]) {
      var rest := InsertDesc(x, s[1..], key);
      InsertDescDistinct(x, s[1..], key);
      InsertDescRows(x, s[1..], key);
      forall k | 0 <= k < |rest|
        ensures rest[k] != s[0]
      {
        assert rest[k] in multiset(rest);
        assert rest[k] == x || rest[k] in s[1..];
      }
    }
  }

  /** `ORDER BY key DESC`: the rows of s, each as often as in s, with non-increasing keys. */
  function SortDesc<T>(s: seq<T>, key: T -> int): (r: seq<T>)
    ensures |r| == |s|
    ensures multiset(r) == multiset(s)
    ensures NonIncreasing(r, key)
  {
    if s == [] then []
    else
      var rest := SortDesc(s[1..], key);
      assert s == [s[0]] + s[1..];
      InsertDescRows(s[0], rest, key);
      InsertDescOrdered(s[0], rest, key);
      InsertDesc(s[0], rest, key)
  }

  /** Sorting keeps rows distinct when they were. */
  lemma {:induction false} SortDescDistinct<T>(s: seq<T>, key: T -> int)
    requires Distinct(s)
    ensures Distinct(SortDesc(s, key))
  {
    if s != [] {
      var rest := SortDesc(s[1..], key);
      assert Distinct(s[1..]) by {
        assert forall i :: 0 <= i < |s[1..]| ==> s[1..][i] == s[i + 1];
      }
      SortDescDistinct(s[1..], key);
      assert s[0] !in s[1..];
      assert s[0] !in multiset(rest);
      InsertDescDistinct(s[0], rest, key);
    }
  }

  /** Rows that are a permutation of each other are the same rows. */
  lemma SameMembers<T>(a: seq<T>, b: seq<T>)
    requires multiset(a) == multiset(b)
    ensures forall x :: x in a <==> x in b
  {
    forall x ensures x in a <==> x in b {
      assert x in a <==> x in multiset(a);
      assert x in b <==> x in multiset(b);
    }
  }

  /** `LIMIT n`: the rows are taken one at a time from the front while fewer than n are taken;
      the result is the prefix of length min(n, |s|). */
  function Limit<T>(s: seq<T>, n: nat): (r: seq<T>)
    ensures |r| == if |s| <= n then |s| else n
    ensures r == s[..|r|]
    ensures multiset(r) <= multiset(s)
  {
    if n == 0 || s == [] then []
    else
      var rest := Limit(s[1..], n - 1);
      assert s[..|rest| + 1] == [s[0]] + s[1..][..|rest|];
      assert s == [s[0]] + s[1..];
      [s[0]] + rest
  }

  /** The first n rows of a list in descending order are its n largest: every row left out has a
      key no greater than the last row kept, and when at most n rows exist none is left out. */
  lemma TopRows<T>(s: seq<T>, key: T -> int, n: nat)
    requires NonIncreasing(s, key) && n > 0
    ensures var r := Limit(s, n);
      && NonIncreasing(r, key)
      && (|s| <= n ==> r == s)
      && (forall i :: |r| <= i < |s| ==> 0 < |r| && key(s[i]) <= key(r[|r| - 1]))
  {
    var r := Limit(s, n);
    forall i | |r| <= i < |s|
      ensures 0 < |r| && key(s[i]) <= key(r[|r| - 1])
    {
      assert r[|r| - 1] == s[n - 1];
    }
  }

  /** An element the limit drops: the limit is full and its last element ranks at least as high. */
  lemma LimitDropsOnlyLower<T>(s: seq<T>, key: T -> int, n: nat, x: T)
    requires NonIncreasing(s, key) && n > 0 && x in s
    ensures var r := Limit(s, n);
      x !in r ==> |r| == n && key(x) <= key(r[n - 1])
  {
    var r := Limit(s, n);
    var i :| 0 <= i < |s| && s[i] == x;
    if i < |r| {
      assert r[i] == x;
    } else {
      TopRows(s, key, n);
    }
  }
}
