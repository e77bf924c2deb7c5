/** The feed order of both apps: `posts.slice().sort((a, b) => b.createdAt
    - a.createdAt)`, newest first. `Array.prototype.sort` is stable, so
    posts created at the same instant keep their order in the list. */
module Sorting {
  import opened Lists

  /** Keys never increase from left to right. */
  predicate NewestFirst<T>(s: seq<T>, key: T -> int)
  {
    forall i, j :: 0 <= i < j < |s| ==> key(s[i]) >= key(s[j])
  }

  /** The selector of the elements whose key is `t`. */
  function HasKey<T>(key: T -> int, t: int): T -> bool
  {
    x => key(x) == t
  }

  /** Places `x` in front of the first element that is not newer than it. */
  function Insert<T(!new)>(x: T, s: seq<T>, key: T -> int): (r: seq<T>)
    ensures multiset(r) == multiset(s) + multiset{x}
  {
    if s == [] || key(s[0]) <= key(x) then [x] + s
    else
      assert s == [s[0]] + s[1..];
      [s[0]] + Insert(x, s[1..], key)
  }

  /** Inserting into a sorted sequence keeps it sorted. */
  lemma {:induction false} InsertNewestFirst<T(!new)>(x: T, s: seq<T>, key: T -> int)
    requires NewestFirst(s, key)
    ensures NewestFirst(Insert(x, s, key), key)
  {
    if s == [] || key(s[0]) <= key(x) {
      PrependNewestFirst(x, s, key);
    } else {
      var t := s[1..];
      assert NewestFirst(t, key) by {
        forall i, j | 0 <= i < j < |t| ensures key(t[i]) >= key(t[j]) {
          assert t[i] == s[i + 1] && t[j] == s[j + 1];
        }
      }
      InsertNewestFirst(x, t, key);
      var rest := Insert(x, t, key);
      forall y | y in rest ensures key(s[0]) >= key(y) {
        assert y in multiset(rest);
        if y != x {
          assert y in multiset(t);
          var m :| 0 <= m < |t| && t[m] == y;
          assert s[m + 1] == y;
        }
      }
      PrependNewestFirst(s[0], rest, key);
    }
  }

  /** The sorted copy that `slice().sort(...)` returns: an insertion sort by
      descending key, stable like the library sort. */
  function SortNewestFirst<T(!new)>(s: seq<T>, key: T -> int): (r: seq<T>)
    ensures multiset(r) == multiset(s)
    ensures NewestFirst(r, key)
  {
    if s == [] then []
    else
      assert s == [s[0]] + s[1..];
      var t := SortNewestFirst(s[1..], key);
      InsertNewestFirst(s[0], t, key);
      Insert(s[0], t, key)
  }

  /** `x` is placed before every element with its own key. */
  lemma {:induction false} InsertStable<T(!new)>(x: T, s: seq<T>, key: T -> int, t: int)
    ensures Filter(Insert(x, s, key), HasKey(key, t)) == Filter([x] + s, HasKey(key, t))
  {
    if !(s == [] || key(s[0]) <= key(x)) {
      var f := HasKey(key, t);
      var rest := Insert(x, s[1..], key);
      var fx := if f(x) then [x] else [];
      var fs := if f(s[0]) then [s[0]] else [];
      var tail := Filter(s[1..], f);
      assert Insert(x, s, key) == [s[0]] + rest;
      assert s == [s[0]] + s[1..];
      InsertStable(x, s[1..], key, t);
      FilterCons(s[0], rest, f);
      FilterCons(x, s[1..], f);
      FilterCons(s[0], s[1..], f);
      FilterCons(x, s, f);
      // At most one of `x` and `s[0]` has key `t`, so their order does not matter.
      SwapEmpty(fx, fs, tail);
    }
  }

  lemma SwapEmpty<T>(a: seq<T>, b: seq<T>, rest: seq<T>)
    requires a == [] || b == []
    ensures b + (a + rest) == a + (b + rest)
  {
    if a == [] {
      assert a + rest == rest && a + (b + rest) == b + rest;
    } else {
      assert b + (a + rest) == a + rest && b + rest == rest;
    }
  }

  /** Sorting is stable: the elements that share a key appear in the
      sorted copy in the same order as in the input. */
  lemma {:induction false} SortNewestFirstStable<T(!new)>(s: seq<T>, key: T -> int, t: int)
    ensures Filter(SortNewestFirst(s, key), HasKey(key, t)) == Filter(s, HasKey(key, t))
  {
    if s != [] {
      var f := HasKey(key, t);
      var rest := SortNewestFirst(s[1..], key);
      SortNewestFirstStable(s[1..], key, t);
      InsertStable(s[0], rest, key, t);
      assert ([s[0]] + rest)[1..] == rest;
      assert s == [s[0]] + s[1..];
    }
  }

  /** Putting an element no older than the rest in front keeps the order. */
  lemma PrependNewestFirst<T>(x: T, s: seq<T>, key: T -> int)
    requires NewestFirst(s, key)
    requires forall y :: y in s ==> key(x) >= key(y)
    ensures NewestFirst([x] + s, key)
  {
    var r := [x] + s;
    forall i, j | 0 <= i < j < |r| ensures key(r[i]) >= key(r[j]) {
      assert r[j] == s[j - 1];
      if 0 < i { assert r[i] == s[i - 1]; }
    }
  }

  /** Filtering a sorted sequence leaves it sorted. */
  lemma {:induction false} FilterNewestFirst<T(!new)>(s: seq<T>, f: T -> bool, key: T -> int)
    requires NewestFirst(s, key)
    ensures NewestFirst(Filter(s, f), key)
  {
    if s != [] {
      var t := s[1..];
      assert NewestFirst(t, key) by {
        forall i, j | 0 <= i < j < |t| ensures key(t[i]) >= key(t[j]) {
          assert t[i] == s[i + 1] && t[j] == s[j + 1];
        }
      }
      FilterNewestFirst(t, f, key);
      var rt := Filter(t, f);
      if f(s[0]) {
        forall y | y in rt ensures key(s[0]) >= key(y) {
          var m :| 0 <= m < |t| && t[m] == y;
          assert s[m + 1] == t[m];
        }
        PrependNewestFirst(s[0], rt, key);
      }
    }
  }
}
