/** Sequence operations that both apps take from JavaScript's arrays:
    `find` (and `some`, which is `find` asked only whether it found
    something), `filter`, `indexOf` and `splice(i, 1)`. */
module Lists {

  datatype Option<T> = None | Some(value: T)

  /** The index of the first element that satisfies `f`, the position
      `Array.prototype.find` stops at. */
  function FindIndex<T>(s: seq<T>, f: T -> bool): (r: Option<nat>)
    ensures r.Some? ==> r.value < |s| && f(s[r.value])
    ensures r.Some? ==> forall j :: 0 <= j < r.value ==> !f(s[j])
    ensures r.None? ==> forall j :: 0 <= j < |s| ==> !f(s[j])
  {
    if s == [] then None
    else if f(s[0]) then Some(0)
    else match FindIndex(s[1..], f)
      case None => None
      case Some(k) => Some(k + 1)
  }

  /** `Array.prototype.some`. */
  function Any<T>(s: seq<T>, f: T -> bool): (r: bool)
    ensures r <==> exists i :: 0 <= i < |s| && f(s[i])
  {
    FindIndex(s, f).Some?
  }

  /** `a` can be obtained from `b` by deleting elements: the elements of `a`
      occur in `b` in the same order. */
  predicate IsSubsequence<T(==)>(a: seq<T>, b: seq<T>)
  {
    a == [] || (b != [] && ((a[0] == b[0] && IsSubsequence(a[1..], b[1..])) || IsSubsequence(a, b[1..])))
  }

  /** `Array.prototype.filter`: the elements that satisfy `f`, in their
      original order, each as often as it occurs. */
  function Filter<T(==, !new)>(s: seq<T>, f: T -> bool): (r: seq<T>)
    ensures |r| <= |s|
    ensures forall x :: x in r <==> x in s && f(x)
  {
    if s == [] then []
    else
      assert s == [s[0]] + s[1..];
      if f(s[0]) then [s[0]] + Filter(s[1..], f) else Filter(s[1..], f)
  }

  /** `Array.prototype.indexOf`: the first index of `x`, or -1. */
  function IndexOf<T(==)>(s: seq<T>, x: T): (i: int)
    ensures -1 <= i < |s|
    ensures i == -1 <==> x !in s
    ensures 0 <= i ==> s[i] == x && x !in s[..i]
  {
    match FindIndex(s, y => y == x)
    case None => -1
    case Some(k) => k
  }

  /** `s.splice(i, 1)`: the sequence without its element at index `i`. */
  function RemoveAt<T>(s: seq<T>, i: nat): (r: seq<T>)
    requires i < |s|
    ensures |r| == |s| - 1
    ensures forall k :: 0 <= k < i ==> r[k] == s[k]
    ensures forall k :: i <= k < |r| ==> r[k] == s[k + 1]
  {
    s[..i] + s[i + 1..]
  }

  predicate NoDuplicates<T(==)>(s: seq<T>)
  {
    forall i, j :: 0 <= i < j < |s| ==> s[i] != s[j]
  }

  /** Appending a new element keeps a sequence duplicate-free. */
  lemma AppendNoDuplicates<T>(s: seq<T>, x: T)
    requires NoDuplicates(s) && x !in s
    ensures NoDuplicates(s + [x])
  {
    var r := s + [x];
    forall a, b | 0 <= a < b < |r| ensures r[a] != r[b] {
      assert r[a] == s[a];
      if b < |s| { assert r[b] == s[b]; }
    }
  }

  /** Splicing one element out of a duplicate-free sequence removes that
      value and nothing else, and keeps it duplicate-free. */
  lemma RemoveAtNoDuplicates<T>(s: seq<T>, i: nat)
    requires i < |s| && NoDuplicates(s)
    ensures var r := RemoveAt(s, i);
            && NoDuplicates(r)
            && s[i] !in r
            && forall v :: v != s[i] ==> (v in r <==> v in s)
  {
    var r := RemoveAt(s, i);
    forall a, b | 0 <= a < b < |r| ensures r[a] != r[b] {
      var a', b' := if a < i then a else a + 1, if b < i then b else b + 1;
      assert a' < b' && r[a] == s[a'] && r[b] == s[b'];
    }
    forall k | 0 <= k < |r| ensures r[k] != s[i] {
      var k' := if k < i then k else k + 1;
      assert r[k] == s[k'] && k' != i;
    }
    forall v | v != s[i] && v in s ensures v in r {
      var m :| 0 <= m < |s| && s[m] == v;
      assert m != i;
      assert r[if m < i then m else m - 1] == v;
    }
  }

  /** No two elements of `s` share a key. */
  predicate DistinctBy<T, K(==)>(s: seq<T>, key: T -> K)
  {
    forall i, j :: 0 <= i < j < |s| ==> key(s[i]) != key(s[j])
  }

  /** `filter` keeps every matching element as often as it occurs and drops
      the rest. */
  lemma {:induction false} FilterCounts<T(!new)>(s: seq<T>, f: T -> bool)
    ensures forall x :: multiset(Filter(s, f))[x] == if f(x) then multiset(s)[x] else 0
  {
    if s != [] {
      FilterCounts(s[1..], f);
      assert s == [s[0]] + s[1..];
    }
  }

  /** `filter` keeps the original order: its result is a subsequence. */
  lemma {:induction false} FilterIsSubsequence<T(!new)>(s: seq<T>, f: T -> bool)
    ensures IsSubsequence(Filter(s, f), s)
  {
    if s != [] {
      FilterIsSubsequence(s[1..], f);
      var r := Filter(s[1..], f);
      if f(s[0]) {
        assert ([s[0]] + r)[1..] == r;
      }
    }
  }

  /** `filter` looks at the head, then at the rest. */
  lemma FilterCons<T(!new)>(x: T, s: seq<T>, f: T -> bool)
    ensures Filter([x] + s, f) == (if f(x) then [x] else []) + Filter(s, f)
  {
    assert ([x] + s)[0] == x && ([x] + s)[1..] == s;
  }

  /** Filtering two arrangements of the same elements keeps the same
      elements. */
  lemma FilterSameMultiset<T(!new)>(a: seq<T>, b: seq<T>, f: T -> bool)
    requires multiset(a) == multiset(b)
    ensures multiset(Filter(a, f)) == multiset(Filter(b, f))
  {
    var ra, rb := Filter(a, f), Filter(b, f);
    FilterCounts(a, f);
    FilterCounts(b, f);
    forall x ensures multiset(ra)[x] == multiset(rb)[x] {
      assert multiset(a)[x] == multiset(b)[x];
    }
  }

  lemma {:induction false} FilterAll<T(!new)>(s: seq<T>, f: T -> bool)
    requires forall x :: x in s ==> f(x)
    ensures Filter(s, f) == s
  {
    if s != [] {
      FilterAll(s[1..], f);
    }
  }

  lemma {:induction false} FilterKeepsDistinct<T(!new), K>(s: seq<T>, f: T -> bool, key: T -> K)
    requires DistinctBy(s, key)
    ensures DistinctBy(Filter(s, f), key)
  {
    if s != [] {
      var t := s[1..];
      assert DistinctBy(t, key) by {
        forall i, j | 0 <= i < j < |t| ensures key(t[i]) != key(t[j]) {
          assert t[i] == s[i + 1] && t[j] == s[j + 1];
        }
      }
      FilterKeepsDistinct(t, f, key);
      if f(s[0]) {
        var r := Filter(s, f);
        var rt := Filter(t, f);
        assert r == [s[0]] + rt;
        forall i, j | 0 <= i < j < |r| ensures key(r[i]) != key(r[j]) {
          if i == 0 {
            assert r[j] == rt[j - 1];
            assert rt[j - 1] in t;
            var m :| 0 <= m < |t| && t[m] == rt[j - 1];
            assert s[m + 1] == t[m];
          } else {
            assert r[i] == rt[i - 1] && r[j] == rt[j - 1];
          }
        }
      }
    }
  }

  /** Appending an element whose key is new keeps the keys distinct. */
  lemma DistinctByAppend<T, K>(s: seq<T>, x: T, key: T -> K)
    requires DistinctBy(s, key)
    requires forall y :: y in s ==> key(y) != key(x)
    ensures DistinctBy(s + [x], key) && DistinctBy([x] + s, key)
  {
    var a, b := s + [x], [x] + s;
    forall i, j | 0 <= i < j < |a| ensures key(a[i]) != key(a[j]) {
      assert a[i] == s[i];
      if j < |s| { assert a[j] == s[j]; }
    }
    forall i, j | 0 <= i < j < |b| ensures key(b[i]) != key(b[j]) {
      assert b[j] == s[j - 1];
      if 0 < i { assert b[i] == s[i - 1]; }
    }
  }

  /** Elements of a sequence with distinct keys are told apart by their keys. */
  lemma DistinctByUnique<T, K>(s: seq<T>, key: T -> K, a: T, b: T)
    requires DistinctBy(s, key)
    requires a in s && b in s && key(a) == key(b)
    ensures a == b
  {
    var i :| 0 <= i < |s| && s[i] == a;
    var j :| 0 <= j < |s| && s[j] == b;
    assert !(i < j) && !(j < i);
  }

  /** Replacing an element by one with the same key keeps the keys distinct. */
  lemma DistinctByUpdate<T, K>(s: seq<T>, k: nat, x: T, key: T -> K)
    requires k < |s| && key(x) == key(s[k])
    requires DistinctBy(s, key)
    ensures DistinctBy(s[k := x], key)
  {
  }
}
