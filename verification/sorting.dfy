/**
  Stable insertion sort on sequences, ordered by an integer key.

  Python's `list.sort` and the database's `ORDER BY` are both modelled with
  `SortBy`: an element is inserted in front of the first element whose key is
  not smaller, so elements with equal keys keep the order they had in the input.
 */
module Sorting {

  /** `s` is non-decreasing in `key`. */
  predicate SortedBy<T>(s: seq<T>, key: T -> int) {
    forall i, j :: 0 <= i < j < |s| ==> key(s[i]) <= key(s[j])
  }

  /** `a` comes no later than `b` in the lexicographic order on (`k1`, `k2`). */
  predicate LexLe<T>(a: T, b: T, k1: T -> int, k2: T -> int) {
    k1(a) < k1(b) || (k1(a) == k1(b) && k2(a) <= k2(b))
  }

  /** `s` is non-decreasing in the lexicographic order on (`k1`, `k2`). */
  predicate LexSorted<T>(s: seq<T>, k1: T -> int, k2: T -> int) {
    forall i, j :: 0 <= i < j < |s| ==> LexLe(s[i], s[j], k1, k2)
  }

  /** Inserts `x` in front of the first element of `s` whose key is at least `key(x)`. */
  function Insert<T>(x: T, s: seq<T>, key: T -> int): (r: seq<T>)
    ensures multiset(r) == multiset(s) + multiset{x}
    ensures |r| == |s| + 1
  {
    if |s| == 0 then [x]
    else if key(x) <= key(s[0]) then [x] + s
    else
      assert s == [s[0]] + s[1..];
      [s[0]] + Insert(x, s[1..], key)
  }

  /** Stable insertion sort of `s` by `key`. */
  function SortBy<T>(s: seq<T>, key: T -> int): (r: seq<T>)
    ensures multiset(r) == multiset(s)
    ensures |r| == |s|
  {
    if |s| == 0 then []
    else
      assert s == [s[0]] + s[1..];
      Insert(s[0], SortBy(s[1..], key), key)
  }

  lemma {:induction false} InsertSorted<T>(x: T, s: seq<T>, key: T -> int)
    requires SortedBy(s, key)
    ensures SortedBy(Insert(x, s, key), key)
  {
    if |s| == 0 || key(x) <= key(s[0]) {
    } else {
      var t := Insert(x, s[1..], key);
      InsertSorted(x, s[1..], key);
      forall j | 0 <= j < |t|
        ensures key(s[0]) <= key(t[j])
      {
        assert t[j] in multiset(t);
        assert t[j] == x || t[j] in multiset(s[1..]);
        if t[j] != x {
          var k :| 0 <= k < |s[1..]| && s[1..][k] == t[j];
          assert s[k + 1] == t[j];
        }
      }
    }
  }

  /** The result of `SortBy` is sorted by its key. */
  lemma {:induction false} SortBySorted<T>(s: seq<T>, key: T -> int)
    ensures SortedBy(SortBy(s, key), key)
  {
    if |s| > 0 {
      SortBySorted(s[1..], key);
      InsertSorted(s[0], SortBy(s[1..], key), key);
    }
  }

  /** Dropping the first element keeps a sequence sorted. */
  lemma SortedTail<T>(s: seq<T>, key: T -> int)
    requires SortedBy(s, key) && |s| > 0
    ensures SortedBy(s[1..], key)
  {
    forall i, j | 0 <= i < j < |s[1..]|
      ensures key(s[1..][i]) <= key(s[1..][j])
    {
      assert s[1..][i] == s[i + 1] && s[1..][j] == s[j + 1];
    }
  }

  /** Sorting a sequence that is already sorted changes nothing. */
  lemma {:induction false} SortByIdentity<T>(s: seq<T>, key: T -> int)
    requires SortedBy(s, key)
    ensures SortBy(s, key) == s
  {
    if |s| > 0 {
      SortedTail(s, key);
      SortByIdentity(s[1..], key);
      assert s == [s[0]] + s[1..];
      if |s| > 1 {
        assert key(s[0]) <= key(s[1..][0]);
      }
      assert Insert(s[0], s[1..], key) == s;
    }
  }

  lemma {:induction false} InsertLex<T>(x: T, s: seq<T>, k1: T -> int, k2: T -> int)
    requires LexSorted(s, k1, k2)
    requires forall i :: 0 <= i < |s| ==> k2(x) <= k2(s[i])
    ensures LexSorted(Insert(x, s, k1), k1, k2)
  {
    if |s| == 0 {
    } else if k1(x) <= k1(s[0]) {
      var r := [x] + s;
      forall i, j | 0 <= i < j < |r|
        ensures LexLe(r[i], r[j], k1, k2)
      {
        if i == 0 {
          assert r[j] == s[j - 1];
          if j - 1 > 0 {
            assert LexLe(s[0], s[j - 1], k1, k2);
          }
        } else {
          assert r[i] == s[i - 1] && r[j] == s[j - 1];
        }
      }
    } else {
      var tail := s[1..];
      assert LexSorted(tail, k1, k2) by {
        forall i, j | 0 <= i < j < |tail|
          ensures LexLe(tail[i], tail[j], k1, k2)
        {
          assert tail[i] == s[i + 1] && tail[j] == s[j + 1];
        }
      }
      assert forall i :: 0 <= i < |tail| ==> k2(x) <= k2(tail[i]) by {
        forall i | 0 <= i < |tail|
          ensures k2(x) <= k2(tail[i])
        {
          assert tail[i] == s[i + 1];
        }
      }
      InsertLex(x, tail, k1, k2);
      var t := Insert(x, tail, k1);
      var r := [s[0]] + t;
      forall i, j | 0 <= i < j < |r|
        ensures LexLe(r[i], r[j], k1, k2)
      {
        if i == 0 {
          var y := t[j - 1];
          assert y in multiset(t);
          if y != x {
            assert y in multiset(tail);
            var k :| 0 <= k < |tail| && tail[k] == y;
            assert s[k + 1] == y;
          }
        } else {
          assert r[i] == t[i - 1] && r[j] == t[j - 1];
        }
      }
    }
  }

  /**
    Sorting by `k1` a sequence already sorted by `k2` yields the lexicographic
    order on (`k1`, `k2`): this is how a stable sort breaks ties.
   */
  lemma {:induction false} SortByLexicographic<T>(s: seq<T>, k1: T -> int, k2: T -> int)
    requires SortedBy(s, k2)
    ensures LexSorted(SortBy(s, k1), k1, k2)
  {
    if |s| > 0 {
      var tail := s[1..];
      SortedTail(s, k2);
      SortByLexicographic(tail, k1, k2);
      var t := SortBy(tail, k1);
      forall i | 0 <= i < |t|
        ensures k2(s[0]) <= k2(t[i])
      {
        assert t[i] in multiset(t);
        assert t[i] in multiset(tail);
        var k :| 0 <= k < |tail| && tail[k] == t[i];
        assert s[k + 1] == t[i];
      }
      InsertLex(s[0], t, k1, k2);
    }
  }
}
