/** The collection steps the pipeline builds on: `Array.prototype.sort`
    with a string key (a stable sort since ECMAScript 2019), the
    first-occurrence de-duplication `[...new Set(xs)]`, and the sub-sequence
    of elements that share one key. */
module Sorting {
  import opened Strings

  predicate SortedBy<T>(s: seq<T>, key: T -> string)
  {
    forall i, j :: 0 <= i < j < |s| ==> Le(key(s[i]), key(s[j]))
  }

  /** Sorted with no key repeated. */
  predicate StrictlySortedBy<T>(s: seq<T>, key: T -> string)
  {
    forall i, j :: 0 <= i < j < |s| ==> Le(key(s[i]), key(s[j])) && key(s[i]) != key(s[j])
  }

  predicate DistinctKeys<T>(s: seq<T>, key: T -> string)
  {
    forall i, j :: 0 <= i < j < |s| ==> key(s[i]) != key(s[j])
  }

  predicate NoDuplicates<T(==)>(s: seq<T>)
  {
    forall i, j :: 0 <= i < j < |s| ==> s[i] != s[j]
  }

  /** The elements of `s` whose key is `k`, in their order in `s`. */
  function KeyFilter<T>(s: seq<T>, key: T -> string, k: string): seq<T>
  {
    if s == [] then []
    else (if key(s[0]) == k then [s[0]] else []) + KeyFilter(s[1..], key, k)
  }

  /** Puts `x` in front of the first element whose key is not below `x`'s,
      so that `x` stays ahead of the elements with an equal key. */
  function Insert<T>(x: T, s: seq<T>, key: T -> string): (r: seq<T>)
    ensures multiset(r) == multiset{x} + multiset(s)
  {
    if s == [] || Le(key(x), key(s[0])) then [x] + s
    else
      assert s == [s[0]] + s[1..];
      [s[0]] + Insert(x, s[1..], key)
  }

  /** `s.sort((a, b) => compare(key(a), key(b)))`: a stable insertion sort. */
  function SortBy<T>(s: seq<T>, key: T -> string): (r: seq<T>)
    ensures multiset(r) == multiset(s)
  {
    if s == [] then []
    else
      assert s == [s[0]] + s[1..];
      Insert(s[0], SortBy(s[1..], key), key)
  }

  lemma {:induction false} InsertSorted<T>(x: T, s: seq<T>, key: T -> string)
    requires SortedBy(s, key)
    ensures SortedBy(Insert(x, s, key), key)
  {
    var r := Insert(x, s, key);
    if s == [] {
    } else if Le(key(x), key(s[0])) {
      forall j | 0 < j < |r| ensures Le(key(x), key(r[j])) {
        LeReflexive(key(s[0]));
        assert r[j] == s[j - 1];
        LeTransitive(key(x), key(s[0]), key(r[j]));
      }
    } else {
      var t := Insert(x, s[1..], key);
      InsertSorted(x, s[1..], key);
      LeTotal(key(x), key(s[0]));
      forall j | 0 <= j < |t| ensures Le(key(s[0]), key(t[j])) {
        assert t[j] in multiset(t);
        if t[j] != x {
          assert t[j] in s[1..];
        }
      }
    }
  }

  lemma {:induction false} SortBySorted<T>(s: seq<T>, key: T -> string)
    ensures SortedBy(SortBy(s, key), key)
  {
    if s != [] {
      SortBySorted(s[1..], key);
      InsertSorted(s[0], SortBy(s[1..], key), key);
    }
  }

  lemma {:induction false} InsertKeyFilter<T>(x: T, s: seq<T>, key: T -> string, k: string)
    ensures KeyFilter(Insert(x, s, key), key, k) ==
            (if key(x) == k then [x] else []) + KeyFilter(s, key, k)
  {
    if s == [] || Le(key(x), key(s[0])) {
      assert Insert(x, s, key)[1..] == s;
    } else {
      var t := Insert(x, s[1..], key);
      InsertKeyFilter(x, s[1..], key, k);
      assert Insert(x, s, key)[1..] == t;
      if key(x) == k {
        LeReflexive(k);
        assert key(s[0]) != k;
      }
    }
  }

  /** The sort is stable: among elements with one key, the sorted sequence
      keeps their original order. */
  lemma {:induction false} SortByStable<T>(s: seq<T>, key: T -> string, k: string)
    ensures KeyFilter(SortBy(s, key), key, k) == KeyFilter(s, key, k)
  {
    if s != [] {
      SortByStable(s[1..], key, k);
      InsertKeyFilter(s[0], SortBy(s[1..], key), key, k);
    }
  }

  lemma {:induction false} InsertStrict<T>(x: T, s: seq<T>, key: T -> string)
    requires StrictlySortedBy(s, key)
    requires forall y :: y in s ==> key(y) != key(x)
    ensures StrictlySortedBy(Insert(x, s, key), key)
  {
    var r := Insert(x, s, key);
    if s == [] {
    } else if Le(key(x), key(s[0])) {
      forall j | 0 < j < |r| ensures Le(key(x), key(r[j])) && key(x) != key(r[j]) {
        LeReflexive(key(s[0]));
        assert r[j] == s[j - 1];
        assert r[j] in s;
        LeTransitive(key(x), key(s[0]), key(r[j]));
      }
    } else {
      var t := Insert(x, s[1..], key);
      InsertStrict(x, s[1..], key);
      LeTotal(key(x), key(s[0]));
      forall j | 0 <= j < |t| ensures Le(key(s[0]), key(t[j])) && key(s[0]) != key(t[j]) {
        assert t[j] in multiset(t);
        if t[j] != x {
          assert t[j] in s[1..];
        }
      }
    }
  }

  /** Sorting elements whose keys are all different gives a sequence whose
      keys strictly increase. */
  lemma {:induction false} SortByStrict<T>(s: seq<T>, key: T -> string)
    requires DistinctKeys(s, key)
    ensures StrictlySortedBy(SortBy(s, key), key)
  {
    if s != [] {
      SortByStrict(s[1..], key);
      forall y | y in SortBy(s[1..], key) ensures key(y) != key(s[0]) {
        assert y in multiset(SortBy(s[1..], key));
        var j :| 0 <= j < |s[1..]| && s[1..][j] == y;
        assert s[j + 1] == y;
      }
      InsertStrict(s[0], SortBy(s[1..], key), key);
    }
  }

  /** `s.filter(p)`: the elements satisfying `p`, in their order in `s`. */
  function Filter<T>(s: seq<T>, p: T -> bool): (r: seq<T>)
    ensures |r| <= |s|
  {
    if s == [] then [] else (if p(s[0]) then [s[0]] else []) + Filter(s[1..], p)
  }

  /** An element survives `filter` exactly when it is in the input and
      satisfies the predicate. */
  lemma {:induction false} FilterHas<T>(s: seq<T>, p: T -> bool, x: T)
    ensures x in Filter(s, p) <==> x in s && p(x)
  {
    if s != [] {
      FilterHas(s[1..], p, x);
      assert s == [s[0]] + s[1..];
    }
  }

  /** A filtered sorted sequence is still sorted. */
  lemma {:induction false} FilterSorted<T>(s: seq<T>, p: T -> bool, key: T -> string)
    requires SortedBy(s, key)
    ensures SortedBy(Filter(s, p), key)
  {
    if s != [] {
      FilterSorted(s[1..], p, key);
      var t := Filter(s[1..], p);
      if p(s[0]) {
        forall j | 0 <= j < |t| ensures Le(key(s[0]), key(t[j])) {
          FilterHas(s[1..], p, t[j]);
          var i :| 0 <= i < |s[1..]| && s[1..][i] == t[j];
          assert s[i + 1] == t[j];
        }
      }
    }
  }

  /** Filtering by a predicate and by a key commute. */
  lemma {:induction false} FilterKeyFilter<T>(s: seq<T>, p: T -> bool, key: T -> string, k: string)
    ensures Filter(KeyFilter(s, key, k), p) == KeyFilter(Filter(s, p), key, k)
  {
    if s != [] {
      FilterKeyFilter(s[1..], p, key, k);
      var a := if key(s[0]) == k then [s[0]] else [];
      var b := if p(s[0]) then [s[0]] else [];
      FilterAppend(a, KeyFilter(s[1..], key, k), p);
      KeyFilterAppend(b, Filter(s[1..], p), key, k);
    }
  }

  lemma {:induction false} FilterAppend<T>(a: seq<T>, b: seq<T>, p: T -> bool)
    ensures Filter(a + b, p) == Filter(a, p) + Filter(b, p)
  {
    if a != [] {
      FilterAppend(a[1..], b, p);
      assert (a + b)[1..] == a[1..] + b;
    } else {
      assert a + b == b;
    }
  }

  lemma {:induction false} KeyFilterAppend<T>(a: seq<T>, b: seq<T>, key: T -> string, k: string)
    ensures KeyFilter(a + b, key, k) == KeyFilter(a, key, k) + KeyFilter(b, key, k)
  {
    if a != [] {
      KeyFilterAppend(a[1..], b, key, k);
      assert (a + b)[1..] == a[1..] + b;
    } else {
      assert a + b == b;
    }
  }

  /** The last element is also the last of the elements sharing its key. */
  lemma {:induction false} KeyFilterLast<T>(s: seq<T>, key: T -> string)
    requires s != []
    ensures KeyFilter(s, key, key(Last(s))) != []
    ensures Last(KeyFilter(s, key, key(Last(s)))) == Last(s)
  {
    if |s| > 1 {
      assert Last(s[1..]) == Last(s);
      KeyFilterLast(s[1..], key);
    }
  }

  /** The first element of a sorted sequence has the least key. */
  lemma SortedFirstLeast<T>(s: seq<T>, key: T -> string, x: T)
    requires SortedBy(s, key) && x in s
    ensures Le(key(s[0]), key(x))
  {
    var i :| 0 <= i < |s| && s[i] == x;
    if i == 0 {
      LeReflexive(key(x));
    }
  }

  /** The last element of a sorted sequence has the greatest key. */
  lemma SortedLastGreatest<T>(s: seq<T>, key: T -> string, x: T)
    requires SortedBy(s, key) && x in s
    ensures Le(key(x), key(Last(s)))
  {
    var i :| 0 <= i < |s| && s[i] == x;
    if i == |s| - 1 {
      LeReflexive(key(x));
    }
  }

  /** `[...new Set(s)]`: each element of `s` exactly once. */
  function Distinct<T(==)>(s: seq<T>): (r: seq<T>)
    ensures forall i :: 0 <= i < |r| ==> r[i] in s
    ensures forall i :: 0 <= i < |s| ==> s[i] in r
    ensures NoDuplicates(r)
  {
    if s == [] then []
    else
      var d := Distinct(s[..|s| - 1]);
      assert forall i :: 0 <= i < |s| - 1 ==> s[i] == s[..|s| - 1][i];
      if s[|s| - 1] in d then d else d + [s[|s| - 1]]
  }

  /** De-duplication keeps every value of the input and adds none. */
  lemma DistinctHas<T>(s: seq<T>, x: T)
    ensures x in Distinct(s) <==> x in s
  {
    var r := Distinct(s);
    if x in r {
      var i :| 0 <= i < |r| && r[i] == x;
    }
    if x in s {
      var i :| 0 <= i < |s| && s[i] == x;
    }
  }

  /** `ys` is `xs.map(f)`. */
  predicate Mapped<A, B(==)>(ys: seq<B>, xs: seq<A>, f: A -> B)
  {
    |ys| == |xs| && forall j :: 0 <= j < |xs| ==> ys[j] == f(xs[j])
  }

  lemma MappedSnoc<A, B>(ys: seq<B>, xs: seq<A>, f: A -> B, x: A)
    requires Mapped(ys, xs, f)
    ensures Mapped(ys + [f(x)], xs + [x], f)
  {
    assert forall j :: 0 <= j < |xs| ==> (ys + [f(x)])[j] == ys[j] && (xs + [x])[j] == xs[j];
  }

  function Last<T>(s: seq<T>): T
    requires s != []
  {
    s[|s| - 1]
  }
}
