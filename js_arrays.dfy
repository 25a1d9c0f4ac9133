/** The parts of JavaScript's Array behaviour the server relies on:
    `filter`, `slice(0, end)` and the order they keep. */
module JsArrays {

  /** `s.filter(p)`: the elements that satisfy `p`, in their original order. */
  function Filter<T>(s: seq<T>, p: T -> bool): seq<T>
  {
    if s == [] then [] else (if p(s[0]) then [s[0]] else []) + Filter(s[1..], p)
  }

  /** `a` can be obtained from `b` by deleting elements (order is kept). */
  predicate IsSubsequence<T(==)>(a: seq<T>, b: seq<T>)
    decreases |b|
  {
    if a == [] then true
    else if b == [] then false
    else (a[0] == b[0] && IsSubsequence(a[1..], b[1..])) || IsSubsequence(a, b[1..])
  }

  /** The end index that `slice(0, end)` uses on an array of length `n`:
      a negative end counts from the back, a large one is clamped. */
  function SliceEnd(n: nat, end: int): (k: nat)
    ensures k <= n
  {
    if end < 0 then (if n + end < 0 then 0 else n + end)
    else if end < n then end else n
  }

  /** `s.slice(0, end)`. */
  function SliceTo<T>(s: seq<T>, end: int): (r: seq<T>)
    ensures r <= s && |r| == SliceEnd(|s|, end)
    ensures 0 <= end ==> |r| == if end < |s| then end else |s|
    ensures end < 0 ==> |r| == if |s| + end < 0 then 0 else |s| + end
  {
    s[..SliceEnd(|s|, end)]
  }

  /** Filtering keeps exactly the occurrences that satisfy the predicate. */
  lemma {:induction false} FilterCount<T>(s: seq<T>, p: T -> bool)
    ensures forall x :: multiset(Filter(s, p))[x] == if p(x) then multiset(s)[x] else 0
  {
    if s != [] {
      FilterCount(s[1..], p);
      assert s == [s[0]] + s[1..];
      assert multiset(s) == multiset{s[0]} + multiset(s[1..]);
    }
  }

  /** An element is kept if and only if it occurs and satisfies the predicate. */
  lemma FilterMembers<T>(s: seq<T>, p: T -> bool)
    ensures forall x :: x in Filter(s, p) <==> x in s && p(x)
  {
    FilterCount(s, p);
    forall x ensures x in Filter(s, p) <==> x in s && p(x) {
      assert x in Filter(s, p) <==> multiset(Filter(s, p))[x] > 0;
      assert x in s <==> multiset(s)[x] > 0;
    }
  }

  /** Filtering keeps the original order and never lengthens. */
  lemma {:induction false} FilterOrder<T>(s: seq<T>, p: T -> bool)
    ensures IsSubsequence(Filter(s, p), s)
    ensures |Filter(s, p)| <= |s|
  {
    if s != [] {
      FilterOrder(s[1..], p);
      var r := Filter(s, p);
      if p(s[0]) {
        assert r != [] && r[0] == s[0] && r[1..] == Filter(s[1..], p);
      } else {
        assert r == Filter(s[1..], p);
      }
    }
  }

  /** Filtering with a predicate that holds everywhere changes nothing. */
  lemma {:induction false} FilterAll<T>(s: seq<T>, p: T -> bool)
    requires forall i :: 0 <= i < |s| ==> p(s[i])
    ensures Filter(s, p) == s
  {
    if s != [] {
      FilterAll(s[1..], p);
      assert s == [s[0]] + s[1..];
    }
  }

  /** Filtering a concatenation filters each part. */
  lemma {:induction false} FilterConcat<T>(a: seq<T>, b: seq<T>, p: T -> bool)
    ensures Filter(a + b, p) == Filter(a, p) + Filter(b, p)
  {
    if a == [] {
      assert a + b == b;
    } else {
      FilterConcat(a[1..], b, p);
      var h := if p(a[0]) then [a[0]] else [];
      var x, y := Filter(a[1..], p), Filter(b, p);
      assert (a + b)[0] == a[0] && (a + b)[1..] == a[1..] + b;
      assert Filter(a + b, p) == h + (x + y);
      assert Filter(a, p) == h + x;
      assert h + (x + y) == (h + x) + y;
    }
  }

  /** `s.findIndex(p)`: the first position whose element satisfies `p`, or -1. */
  function FindIndex<T>(s: seq<T>, p: T -> bool): (i: int)
    ensures -1 <= i < |s|
    ensures 0 <= i ==> p(s[i]) && forall j :: 0 <= j < i ==> !p(s[j])
    ensures i == -1 ==> forall j :: 0 <= j < |s| ==> !p(s[j])
  {
    if s == [] then -1
    else if p(s[0]) then 0
    else
      var k := FindIndex(s[1..], p);
      if k == -1 then -1 else k + 1
  }

  /** The first matching position is the one `FindIndex` reports. */
  lemma {:induction false} FindIndexIs<T>(s: seq<T>, p: T -> bool, i: int)
    requires 0 <= i < |s| && p(s[i])
    requires forall j :: 0 <= j < i ==> !p(s[j])
    ensures FindIndex(s, p) == i
  {
    if i > 0 {
      FindIndexIs(s[1..], p, i - 1);
    }
  }

  /** A prefix filters to a prefix. */
  lemma FilterPrefix<T>(a: seq<T>, b: seq<T>, p: T -> bool)
    requires a <= b
    ensures Filter(a, p) <= Filter(b, p)
  {
    assert b == a + b[|a|..];
    FilterConcat(a, b[|a|..], p);
  }

  // ----- a stable sort, highest key first -----

  function KeyIs<T>(key: T -> real, v: real): T -> bool
  {
    x => key(x) == v
  }

  predicate DescendingBy<T>(s: seq<T>, key: T -> real)
  {
    forall i, j :: 0 <= i < j < |s| ==> key(s[i]) >= key(s[j])
  }

  /** Places `x`, which came before every element of `t`, after the elements
      with a strictly higher key. */
  function InsertDescendingBy<T>(x: T, t: seq<T>, key: T -> real): (r: seq<T>)
    ensures |r| == |t| + 1
  {
    if t == [] || key(x) >= key(t[0]) then [x] + t
    else [t[0]] + InsertDescendingBy(x, t[1..], key)
  }

  /** `s.sort((a, b) => key(b) - key(a))`: JavaScript's sort is stable. */
  function SortDescendingBy<T>(s: seq<T>, key: T -> real): (r: seq<T>)
    ensures |r| == |s|
  {
    if s == [] then [] else InsertDescendingBy(s[0], SortDescendingBy(s[1..], key), key)
  }

  lemma {:induction false} InsertDescendingByCount<T>(x: T, t: seq<T>, key: T -> real)
    ensures multiset(InsertDescendingBy(x, t, key)) == multiset{x} + multiset(t)
    ensures InsertDescendingBy(x, t, key)[0] == x || (t != [] && InsertDescendingBy(x, t, key)[0] == t[0])
  {
    if t != [] && key(x) < key(t[0]) {
      InsertDescendingByCount(x, t[1..], key);
      assert t == [t[0]] + t[1..];
    }
  }

  lemma {:induction false} InsertDescendingByOrder<T>(x: T, t: seq<T>, key: T -> real)
    requires DescendingBy(t, key)
    ensures DescendingBy(InsertDescendingBy(x, t, key), key)
  {
    if t != [] && key(x) < key(t[0]) {
      var tail := t[1..];
      assert DescendingBy(tail, key) by {
        forall i, j | 0 <= i < j < |tail| ensures key(tail[i]) >= key(tail[j]) {
          assert tail[i] == t[i + 1] && tail[j] == t[j + 1];
        }
      }
      InsertDescendingByOrder(x, tail, key);
      InsertDescendingByCount(x, tail, key);
      var rest := InsertDescendingBy(x, tail, key);
      forall y | y in rest ensures key(t[0]) >= key(y) {
        assert y in multiset(rest);
        if y != x {
          assert y in multiset(tail);
          var m :| 0 <= m < |tail| && tail[m] == y;
          assert tail[m] == t[m + 1];
        }
      }
      DescendingCons(t[0], rest, key);
    }
  }

  /** A head at least as high as every element of an ordered tail keeps the
      sequence ordered. */
  lemma DescendingCons<T>(h: T, rest: seq<T>, key: T -> real)
    requires DescendingBy(rest, key)
    requires forall y :: y in rest ==> key(h) >= key(y)
    ensures DescendingBy([h] + rest, key)
  {
    var r := [h] + rest;
    forall i, j | 0 <= i < j < |r| ensures key(r[i]) >= key(r[j]) {
      assert r[j] == rest[j - 1];
      if i > 0 {
        assert r[i] == rest[i - 1];
      }
    }
  }

  /** Inserting keeps the elements of each key in their original order. */
  lemma {:induction false} InsertDescendingByStable<T>(x: T, t: seq<T>, key: T -> real, v: real)
    requires DescendingBy(t, key)
    ensures Filter(InsertDescendingBy(x, t, key), KeyIs(key, v)) ==
            Filter([x], KeyIs(key, v)) + Filter(t, KeyIs(key, v))
  {
    FilterConcat([x], t, KeyIs(key, v));
    if t != [] && key(x) < key(t[0]) {
      assert DescendingBy(t[1..], key);
      InsertDescendingByStable(x, t[1..], key, v);
      FilterConcat([t[0]], InsertDescendingBy(x, t[1..], key), KeyIs(key, v));
      FilterConcat([t[0]], t[1..], KeyIs(key, v));
      assert t == [t[0]] + t[1..];
      assert Filter([x], KeyIs(key, v)) == [] || Filter([t[0]], KeyIs(key, v)) == [];
    }
  }

  /** The sort is ordered by key, a permutation, and stable: the elements of
      each key keep their original order. */
  lemma {:induction false} SortDescendingBySpec<T>(s: seq<T>, key: T -> real)
    ensures DescendingBy(SortDescendingBy(s, key), key)
    ensures multiset(SortDescendingBy(s, key)) == multiset(s)
    ensures forall v :: Filter(SortDescendingBy(s, key), KeyIs(key, v)) == Filter(s, KeyIs(key, v))
  {
    if s != [] {
      var rest := SortDescendingBy(s[1..], key);
      SortDescendingBySpec(s[1..], key);
      InsertDescendingByOrder(s[0], rest, key);
      InsertDescendingByCount(s[0], rest, key);
      assert s == [s[0]] + s[1..];
      forall v ensures Filter(SortDescendingBy(s, key), KeyIs(key, v)) == Filter(s, KeyIs(key, v)) {
        InsertDescendingByStable(s[0], rest, key, v);
        FilterConcat([s[0]], s[1..], KeyIs(key, v));
      }
    }
  }

  /** Two tests that agree everywhere filter alike. */
  lemma {:induction false} FilterSameTest<T>(s: seq<T>, p: T -> bool, q: T -> bool)
    requires forall x :: p(x) == q(x)
    ensures Filter(s, p) == Filter(s, q)
  {
    if s != [] {
      FilterSameTest(s[1..], p, q);
    }
  }

  /** A prefix of a sequence ordered by key, with the same elements as `s`
      and each key's elements in their order in `s`, is ordered, drawn from
      `s`, and keeps each key's elements in their original order. */
  lemma PrefixOfSorted<T>(s: seq<T>, sorted: seq<T>, key: T -> real, k: nat)
    requires DescendingBy(sorted, key) && multiset(sorted) == multiset(s) && k <= |sorted|
    requires forall v :: Filter(sorted, KeyIs(key, v)) == Filter(s, KeyIs(key, v))
    ensures DescendingBy(sorted[..k], key)
    ensures multiset(sorted[..k]) <= multiset(s)
    ensures forall v :: Filter(sorted[..k], KeyIs(key, v)) <= Filter(s, KeyIs(key, v))
  {
    var r := sorted[..k];
    assert sorted == r + sorted[k..];
    assert multiset(sorted) == multiset(r) + multiset(sorted[k..]);
    forall v ensures Filter(r, KeyIs(key, v)) <= Filter(s, KeyIs(key, v)) {
      FilterPrefix(r, sorted, KeyIs(key, v));
    }
  }

  /** The first `k` elements of the sorted sequence are ordered, drawn from
      `s`, and keep each key's elements in their original order. */
  lemma TopOfSortedDescendingBy<T>(s: seq<T>, key: T -> real, k: nat)
    requires k <= |s|
    ensures DescendingBy(SortDescendingBy(s, key)[..k], key)
    ensures multiset(SortDescendingBy(s, key)[..k]) <= multiset(s)
    ensures forall v :: Filter(SortDescendingBy(s, key)[..k], KeyIs(key, v)) <= Filter(s, KeyIs(key, v))
  {
    SortDescendingBySpec(s, key);
    PrefixOfSorted(s, SortDescendingBy(s, key), key, k);
  }

  /** In a sequence ordered by key, with the same elements as `s`, no element
      left out of the first `k` has a higher key than one kept. */
  lemma PrefixIsHighest<T>(s: seq<T>, sorted: seq<T>, key: T -> real, k: nat)
    requires DescendingBy(sorted, key) && multiset(sorted) == multiset(s) && k <= |sorted|
    ensures forall x :: multiset(sorted[..k])[x] < multiset(s)[x] ==>
              forall i :: 0 <= i < k ==> key(sorted[i]) >= key(x)
  {
    var r := sorted[..k];
    assert sorted == r + sorted[k..];
    assert multiset(sorted) == multiset(r) + multiset(sorted[k..]);
    forall x | multiset(r)[x] < multiset(s)[x]
      ensures forall i :: 0 <= i < k ==> key(sorted[i]) >= key(x)
    {
      assert multiset(sorted[k..])[x] > 0;
      assert x in sorted[k..];
      var j :| 0 <= j < |sorted[k..]| && sorted[k..][j] == x;
      assert sorted[k + j] == x;
      forall i | 0 <= i < k ensures key(sorted[i]) >= key(x) {
        assert i < k + j;
      }
    }
  }

  /** No element left out of the first `k` has a higher key than one kept. */
  lemma TopOfSortedIsHighest<T>(s: seq<T>, key: T -> real, k: nat)
    requires k <= |s|
    ensures forall x :: multiset(SortDescendingBy(s, key)[..k])[x] < multiset(s)[x] ==>
              forall i :: 0 <= i < k ==> key(SortDescendingBy(s, key)[i]) >= key(x)
  {
    SortDescendingBySpec(s, key);
    PrefixIsHighest(s, SortDescendingBy(s, key), key, k);
  }
}
