/**
 * The array operations the holiday views are built from (`filter`, a stable
 * `sort` by a numeric key, `slice(0, n)`, key de-duplication) and the facts
 * about them that the views rely on.
 */
module Sequences {

  /** The elements of s that satisfy p, in their original order. */
  function Filter<T>(s: seq<T>, p: T -> bool): (r: seq<T>)
    ensures |r| <= |s|
    ensures forall x :: x in r ==> x in s && p(x)
  {
    if s == [] then [] else
      var init := s[..|s| - 1];
      assert forall x :: x in init ==> x in s;
      Filter(init, p) + (if p(s[|s| - 1]) then [s[|s| - 1]] else [])
  }

  lemma {:induction false} FilterAppend<T>(a: seq<T>, b: seq<T>, p: T -> bool)
    ensures Filter(a + b, p) == Filter(a, p) + Filter(b, p)
    decreases |b|
  {
    if b == [] {
      assert a + b == a;
    } else {
      var b' := b[..|b| - 1];
      assert (a + b)[..|a + b| - 1] == a + b';
      FilterAppend(a, b', p);
    }
  }

  /** Filter keeps every copy of an element that satisfies p and no copy of one that does not. */
  lemma {:induction false} FilterCounts<T>(s: seq<T>, p: T -> bool, x: T)
    ensures multiset(Filter(s, p))[x] == if p(x) then multiset(s)[x] else 0
  {
    if s != [] {
      var init := s[..|s| - 1];
      FilterCounts(init, p, x);
      assert s == init + [s[|s| - 1]];
    }
  }

  lemma {:induction false} FilterNone<T>(s: seq<T>, p: T -> bool)
    requires forall x :: x in s ==> !p(x)
    ensures Filter(s, p) == []
  {
    if s != [] {
      assert forall x :: x in s[..|s| - 1] ==> x in s;
      FilterNone(s[..|s| - 1], p);
    }
  }

  /** a can be obtained from b by deleting elements. */
  predicate IsSubsequence<T(==)>(a: seq<T>, b: seq<T>)
    decreases |b|
  {
    || a == []
    || (&& b != []
        && (|| (a[|a| - 1] == b[|b| - 1] && IsSubsequence(a[..|a| - 1], b[..|b| - 1]))
            || IsSubsequence(a, b[..|b| - 1])))
  }

  lemma {:induction false} FilterIsSubsequence<T>(s: seq<T>, p: T -> bool)
    ensures IsSubsequence(Filter(s, p), s)
  {
    if s != [] {
      var init := s[..|s| - 1];
      FilterIsSubsequence(init, p);
      var r := Filter(s, p);
      if p(s[|s| - 1]) {
        assert r == Filter(init, p) + [s[|s| - 1]];
        assert r[..|r| - 1] == Filter(init, p);
        assert r[|r| - 1] == s[|s| - 1];
      } else {
        assert r == Filter(init, p);
      }
    }
  }

  /** Filtering twice, the second time by a stronger condition, is filtering once by it. */
  lemma {:induction false} FilterOfFilter<T>(s: seq<T>, p: T -> bool, q: T -> bool)
    requires forall x :: q(x) ==> p(x)
    ensures Filter(Filter(s, p), q) == Filter(s, q)
  {
    if s != [] {
      var init := s[..|s| - 1];
      var x := s[|s| - 1];
      FilterOfFilter(init, p, q);
      FilterAppend(Filter(init, p), if p(x) then [x] else [], q);
      assert Filter([x], q) == if q(x) then [x] else [] by {
        assert [x][..0] == [];
      }
    }
  }

  /** key(x) == k, as a predicate on x. */
  function HasKey<T>(key: T -> int, k: int): T -> bool {
    x => key(x) == k
  }

  predicate SortedBy<T>(s: seq<T>, key: T -> int) {
    forall i, j :: 0 <= i < j < |s| ==> key(s[i]) <= key(s[j])
  }

  /** Insert x into sorted s before the first element whose key is not smaller than x's. */
  function InsertByKey<T>(x: T, s: seq<T>, key: T -> int): (r: seq<T>)
    requires SortedBy(s, key)
    ensures SortedBy(r, key)
    ensures multiset(r) == multiset(s) + multiset{x}
  {
    if s == [] then [x]
    else if key(x) <= key(s[0]) then [x] + s
    else
      var rest := InsertByKey(x, s[1..], key);
      assert s == [s[0]] + s[1..];
      InsertedAfter(s[0], x, s[1..], rest, key);
      [s[0]] + rest
  }

  /** a can go in front of rest when rest holds x and tail, no key of which is below a's. */
  lemma InsertedAfter<T>(a: T, x: T, tail: seq<T>, rest: seq<T>, key: T -> int)
    requires key(a) <= key(x)
    requires SortedBy([a] + tail, key)
    requires SortedBy(rest, key)
    requires multiset(rest) == multiset(tail) + multiset{x}
    ensures SortedBy([a] + rest, key)
  {
    forall i | 0 <= i < |rest| ensures key(a) <= key(rest[i]) {
      assert rest[i] in multiset(rest);
      if rest[i] != x {
        assert rest[i] in multiset(tail);
        assert rest[i] in tail;
        var j :| 0 <= j < |tail| && tail[j] == rest[i];
        assert ([a] + tail)[0] == a && ([a] + tail)[j + 1] == rest[i];
      }
    }
  }

  /** Insertion sort by key; stable, so equal keys keep their input order (see SortStable). */
  function SortByKey<T>(s: seq<T>, key: T -> int): (r: seq<T>)
    ensures SortedBy(r, key)
    ensures multiset(r) == multiset(s)
    ensures |r| == |s|
  {
    if s == [] then []
    else
      assert s == [s[0]] + s[1..];
      InsertByKey(s[0], SortByKey(s[1..], key), key)
  }

  lemma FilterSingleton<T>(x: T, p: T -> bool)
    ensures Filter([x], p) == if p(x) then [x] else []
  {
    assert [x][..0] == [];
  }

  lemma {:induction false} InsertStable<T>(x: T, s: seq<T>, key: T -> int, k: int)
    requires SortedBy(s, key)
    ensures Filter(InsertByKey(x, s, key), HasKey(key, k)) == Filter([x], HasKey(key, k)) + Filter(s, HasKey(key, k))
  {
    var p := HasKey(key, k);
    if s == [] {
      assert [x] + s == [x];
    } else if key(x) <= key(s[0]) {
      FilterAppend([x], s, p);
    } else {
      var rest := InsertByKey(x, s[1..], key);
      assert InsertByKey(x, s, key) == [s[0]] + rest;
      InsertStable(x, s[1..], key, k);
      FilterSingleton(x, p);
      FilterSingleton(s[0], p);
      // x's key exceeds s[0]'s, so at most one of the two survives the filter
      assert p(x) == (key(x) == k) && p(s[0]) == (key(s[0]) == k);
      MovePast(s[0], x, rest, s[1..], p);
      assert [s[0]] + s[1..] == s;
    }
  }

  lemma MovePast<T>(a: T, x: T, rest: seq<T>, tail: seq<T>, p: T -> bool)
    requires Filter([a], p) == [] || Filter([x], p) == []
    requires Filter(rest, p) == Filter([x], p) + Filter(tail, p)
    ensures Filter([a] + rest, p) == Filter([x], p) + Filter([a] + tail, p)
  {
    FilterAppend([a], rest, p);
    FilterAppend([a], tail, p);
  }

  /** Sorting keeps the relative order of the elements that share a key. */
  lemma {:induction false} SortStable<T>(s: seq<T>, key: T -> int, k: int)
    ensures Filter(SortByKey(s, key), HasKey(key, k)) == Filter(s, HasKey(key, k))
  {
    if s != [] {
      SortStable(s[1..], key, k);
      InsertStable(s[0], SortByKey(s[1..], key), key, k);
      FilterAppend([s[0]], s[1..], HasKey(key, k));
      assert s == [s[0]] + s[1..];
    }
  }

  function Min(a: int, b: int): int { if a <= b then a else b }

  function Max(a: int, b: int): int { if a >= b then a else b }

  /** s.slice(0, end) as JavaScript defines it: a negative end counts back from the last element. */
  function SliceTo<T>(s: seq<T>, end: int): (r: seq<T>)
    ensures |r| == if end >= 0 then Min(end, |s|) else Max(0, |s| + end)
    ensures r == s[..|r|]
  {
    if end >= 0 then s[..Min(end, |s|)] else s[..Max(0, |s| + end)]
  }

  predicate NoDuplicates<T(==)>(s: seq<T>) {
    forall i, j :: 0 <= i < j < |s| ==> s[i] != s[j]
  }

  /** The distinct elements of s in order of first appearance. */
  function Distinct<T(==)>(s: seq<T>): (r: seq<T>)
    ensures forall x :: x in r ==> x in s
    ensures forall x :: x in s ==> x in r
    ensures NoDuplicates(r)
  {
    if s == [] then [] else
      var init := s[..|s| - 1];
      var p := Distinct(init);
      assert forall x :: x in init ==> x in s;
      assert s == init + [s[|s| - 1]];
      if s[|s| - 1] in p then p else p + [s[|s| - 1]]
  }

  /** Repeat(x, n) is n copies of x. */
  function Repeat<T>(x: T, n: nat): (r: seq<T>)
    ensures |r| == n && forall y :: y in r ==> y == x
  {
    seq(n, _ => x)
  }

  lemma RepeatSnoc<T>(x: T, n: nat)
    ensures Repeat(x, n + 1) == Repeat(x, n) + [x]
  {
    var a, b := Repeat(x, n + 1), Repeat(x, n) + [x];
    assert |a| == |b|;
    forall i | 0 <= i < |a| ensures a[i] == b[i] {
    }
  }

  /** How many elements of s are equal to some key, counting each key once. */
  function SumCounts<T(==)>(keys: seq<T>, s: seq<T>): nat {
    if keys == [] then 0 else multiset(s)[keys[0]] + SumCounts(keys[1..], s)
  }

  lemma {:induction false} SumCountsSnoc<T>(keys: seq<T>, s: seq<T>, x: T)
    ensures SumCounts(keys, s + [x]) == SumCounts(keys, s) + multiset(keys)[x]
  {
    if keys != [] {
      SumCountsSnoc(keys[1..], s, x);
      assert keys == [keys[0]] + keys[1..];
    }
  }

  lemma {:induction false} SumCountsOfEmpty<T>(keys: seq<T>)
    ensures SumCounts(keys, []) == 0
  {
    if keys != [] {
      SumCountsOfEmpty(keys[1..]);
    }
  }

  lemma {:induction false} CountInNoDuplicates<T>(keys: seq<T>, x: T)
    requires NoDuplicates(keys)
    ensures multiset(keys)[x] == if x in keys then 1 else 0
  {
    if keys != [] {
      CountInNoDuplicates(keys[1..], x);
      assert keys == [keys[0]] + keys[1..];
    }
  }

  /** When every element of s is one of the distinct keys, the counts per key add up to |s|. */
  lemma {:induction false} SumCountsCovering<T>(keys: seq<T>, s: seq<T>)
    requires NoDuplicates(keys)
    requires forall x :: x in s ==> x in keys
    ensures SumCounts(keys, s) == |s|
  {
    if s != [] {
      var init := s[..|s| - 1];
      var x := s[|s| - 1];
      assert s == init + [x];
      assert forall y :: y in init ==> y in s;
      assert x in keys;
      SumCountsCovering(keys, init);
      SumCountsSnoc(keys, init, x);
      CountInNoDuplicates(keys, x);
      assert SumCounts(keys, s) == SumCounts(keys, init) + 1;
    } else {
      SumCountsOfEmpty(keys);
    }
  }
}
