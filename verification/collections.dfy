/**
 * The sequence operations the pandas pipelines in app.py stand for: `unique()`
 * (first occurrences, in order), a stable sort under a comparison, counting and
 * summing.
 */
module Collections {

  predicate Distinct<T(==)>(s: seq<T>)
  {
    forall i, j :: 0 <= i < j < |s| ==> s[i] != s[j]
  }

  /** No two elements of `s` have the same key. */
  predicate DistinctBy<T, K(==)>(s: seq<T>, key: T -> K)
  {
    forall i, j :: 0 <= i < j < |s| ==> key(s[i]) != key(s[j])
  }

  /** Growing a prefix of `s` by one element. */
  lemma PrefixSnoc<T>(s: seq<T>, k: nat)
    requires k < |s|
    ensures s[..k + 1] == s[..k] + [s[k]]
  {
  }

  /** pandas `unique()`: each value once, in order of first appearance. */
  function Unique<T(==,!new)>(s: seq<T>): (r: seq<T>)
    ensures Distinct(r)
    ensures forall x :: x in r <==> x in s
    ensures |r| <= |s|
  {
    if s == [] then []
    else
      var u := Unique(s[..|s| - 1]);
      assert s == s[..|s| - 1] + [s[|s| - 1]];
      if s[|s| - 1] in u then u else u + [s[|s| - 1]]
  }

  lemma UniqueSnoc<T(!new)>(s: seq<T>, x: T)
    ensures Unique(s + [x]) == if x in s then Unique(s) else Unique(s) + [x]
  {
    assert (s + [x])[..|s|] == s;
  }

  /** The position of the first occurrence of `x` in `s`. */
  function FirstIndex<T(==)>(s: seq<T>, x: T): (i: nat)
    requires x in s
    ensures i < |s| && s[i] == x
    ensures forall j :: 0 <= j < i ==> s[j] != x
  {
    if s[0] == x then 0 else 1 + FirstIndex(s[1..], x)
  }

  /** Appending an element does not move the first occurrence of a value already present. */
  lemma FirstIndexSnoc<T>(p: seq<T>, x: T, y: T)
    requires y in p
    ensures FirstIndex(p + [x], y) == FirstIndex(p, y)
  {
    var k, k' := FirstIndex(p, y), FirstIndex(p + [x], y);
    assert (p + [x])[k] == y;
  }

  /** `unique()` lists the values in the order of their first appearance in `s`. */
  lemma {:induction false} UniqueOrder<T(!new)>(s: seq<T>)
    ensures forall i, j :: 0 <= i < j < |Unique(s)| ==>
      FirstIndex(s, Unique(s)[i]) < FirstIndex(s, Unique(s)[j])
  {
    if s != [] {
      var p, x := s[..|s| - 1], s[|s| - 1];
      assert s == p + [x];
      UniqueOrder(p);
      var u, r := Unique(p), Unique(s);
      forall y | y in p ensures FirstIndex(s, y) == FirstIndex(p, y) {
        FirstIndexSnoc(p, x, y);
      }
      if x !in p {
        assert r == u + [x];
        assert FirstIndex(s, x) == |p|;
      }
    }
  }

  /** `le` orders every pair and is transitive: what a sort key comparison gives. */
  ghost predicate IsTotalPreorder<T(!new)>(le: (T, T) -> bool)
  {
    (forall a, b :: le(a, b) || le(b, a)) &&
    (forall a, b, c :: le(a, b) && le(b, c) ==> le(a, c))
  }

  predicate SortedBy<T>(s: seq<T>, le: (T, T) -> bool)
  {
    forall i, j :: 0 <= i < j < |s| ==> le(s[i], s[j])
  }

  /** Inserts `x` after every element that may precede it, which keeps equal elements in arrival order. */
  function Insert<T(!new)>(s: seq<T>, x: T, le: (T, T) -> bool): (r: seq<T>)
    requires IsTotalPreorder(le) && SortedBy(s, le)
    ensures SortedBy(r, le)
    ensures multiset(r) == multiset(s) + multiset{x}
  {
    if s == [] then [x]
    else if le(s[0], x) then
      var rest := Insert(s[1..], x, le);
      assert s == [s[0]] + s[1..];
      assert forall j :: 0 <= j < |rest| ==> le(s[0], rest[j]) by {
        forall j | 0 <= j < |rest| ensures le(s[0], rest[j]) {
          assert rest[j] in multiset(rest);
          if rest[j] != x {
            assert rest[j] in multiset(s[1..]);
            var k :| 0 <= k < |s[1..]| && s[1..][k] == rest[j];
            assert s[k + 1] == rest[j];
          }
        }
      }
      [s[0]] + rest
    else
      [x] + s
  }

  /** Sorting keeps exactly the elements it was given. */
  lemma SortByMembers<T(!new)>(s: seq<T>, le: (T, T) -> bool)
    requires IsTotalPreorder(le)
    ensures forall x :: x in SortBy(s, le) <==> x in s
  {
    assert forall x :: x in SortBy(s, le) <==> x in multiset(s);
  }

  /** Sorting a duplicate-free sequence gives a duplicate-free sequence with the same elements. */
  lemma SortByDistinct<T(!new)>(s: seq<T>, le: (T, T) -> bool)
    requires IsTotalPreorder(le) && Distinct(s)
    ensures Distinct(SortBy(s, le))
    ensures forall x :: x in SortBy(s, le) <==> x in s
  {
    var same := (x: T) => x;
    SortByDistinctBy(s, le, same);
    assert forall x :: x in SortBy(s, le) <==> x in multiset(s);
  }

  /** A stable insertion sort: Python's `sorted`/`list.sort` with a key, pandas `sort_values`. */
  function SortBy<T(!new)>(s: seq<T>, le: (T, T) -> bool): (r: seq<T>)
    requires IsTotalPreorder(le)
    ensures SortedBy(r, le)
    ensures multiset(r) == multiset(s)
  {
    if s == [] then []
    else
      assert s == s[..|s| - 1] + [s[|s| - 1]];
      Insert(SortBy(s[..|s| - 1], le), s[|s| - 1], le)
  }

  lemma {:induction false} InsertDistinctBy<T(!new), K>(s: seq<T>, x: T, le: (T, T) -> bool, key: T -> K)
    requires IsTotalPreorder(le) && SortedBy(s, le)
    requires DistinctBy(s, key)
    requires forall y :: y in s ==> key(y) != key(x)
    ensures DistinctBy(Insert(s, x, le), key)
  {
    if s != [] && le(s[0], x) {
      InsertDistinctBy(s[1..], x, le, key);
      var rest := Insert(s[1..], x, le);
      assert s == [s[0]] + s[1..];
      forall y | y in rest ensures key(y) != key(s[0]) {
        assert y in multiset(rest);
        if y != x {
          var j :| 0 <= j < |s[1..]| && s[1..][j] == y;
          assert s[j + 1] == y;
        }
      }
    }
  }

  /** Sorting never brings two elements with the same key together: keys stay distinct. */
  lemma {:induction false} SortByDistinctBy<T(!new), K>(s: seq<T>, le: (T, T) -> bool, key: T -> K)
    requires IsTotalPreorder(le)
    requires DistinctBy(s, key)
    ensures DistinctBy(SortBy(s, le), key)
  {
    if s != [] {
      var p, x := s[..|s| - 1], s[|s| - 1];
      SortByDistinctBy(p, le, key);
      forall y | y in SortBy(p, le) ensures key(y) != key(x) {
        assert y in multiset(SortBy(p, le));
        var j :| 0 <= j < |p| && p[j] == y;
      }
      InsertDistinctBy(SortBy(p, le), x, le, key);
    }
  }

  /** The elements of `s` that satisfy `keep`, in their original order (a pandas boolean mask). */
  function Filter<T>(s: seq<T>, keep: T -> bool): seq<T>
  {
    if s == [] then [] else (if keep(s[0]) then [s[0]] else []) + Filter(s[1..], keep)
  }

  /** Each element that passes occurs as often as before; each that fails is gone. */
  lemma {:induction false} FilterCounts<T>(s: seq<T>, keep: T -> bool)
    ensures forall x :: multiset(Filter(s, keep))[x] == if keep(x) then multiset(s)[x] else 0
  {
    if s != [] {
      FilterCounts(s[1..], keep);
      assert s == [s[0]] + s[1..];
    }
  }

  lemma FilterMembers<T>(s: seq<T>, keep: T -> bool)
    ensures forall x :: x in Filter(s, keep) <==> x in s && keep(x)
  {
    FilterCounts(s, keep);
  }

  /** Filtering works piecewise, which is what keeps the survivors in their original order. */
  lemma {:induction false} FilterConcat<T>(a: seq<T>, b: seq<T>, keep: T -> bool)
    ensures Filter(a + b, keep) == Filter(a, keep) + Filter(b, keep)
  {
    if a == [] {
      assert a + b == b;
    } else {
      var head := if keep(a[0]) then [a[0]] else [];
      assert (a + b)[1..] == a[1..] + b;
      FilterConcat(a[1..], b, keep);
      calc {
        Filter(a + b, keep);
        head + Filter(a[1..] + b, keep);
        head + (Filter(a[1..], keep) + Filter(b, keep));
        (head + Filter(a[1..], keep)) + Filter(b, keep);
      }
    }
  }

  /** When every element passes, filtering changes nothing. */
  lemma {:induction false} FilterAll<T>(s: seq<T>, keep: T -> bool)
    requires forall i :: 0 <= i < |s| ==> keep(s[i])
    ensures Filter(s, keep) == s
  {
    if s != [] {
      FilterAll(s[1..], keep);
    }
  }

  /**
   * Filtering from position `lo` on is the same as filtering from `b` on when the
   * elements between `lo` and `b` all pass.
   */
  lemma FilterFrom<T>(s: seq<T>, keep: T -> bool, lo: nat, b: nat)
    requires lo <= b <= |s|
    requires forall q :: lo <= q < b ==> keep(s[q])
    ensures s[..b] + Filter(s[b..], keep) == s[..lo] + Filter(s[lo..], keep)
  {
    var m, rest := s[lo..b], s[b..];
    FilterAll(m, keep);
    FilterConcat(m, rest, keep);
    assert s[lo..] == m + rest;
    assert s[..b] == s[..lo] + m;
    calc {
      s[..lo] + Filter(s[lo..], keep);
      s[..lo] + (Filter(m, keep) + Filter(rest, keep));
      s[..lo] + (m + Filter(rest, keep));
      (s[..lo] + m) + Filter(rest, keep);
      s[..b] + Filter(rest, keep);
    }
  }

  /**
   * Removing one failing element: when the elements from `b` on are already
   * filtered, element `p` fails and the ones between pass, removing element `p`
   * leaves everything from `p` on filtered.
   */
  lemma FilterDropStep<T>(s: seq<T>, keep: T -> bool, p: nat, b: nat)
    requires p < b <= |s|
    requires !keep(s[p])
    requires forall q :: p < q < b ==> keep(s[q])
    ensures var w := s[..b] + Filter(s[b..], keep);
      p < |w| && w[..p] + w[p + 1..] == s[..p] + Filter(s[p..], keep)
  {
    var w := s[..b] + Filter(s[b..], keep);
    FilterFrom(s, keep, p + 1, b);
    FilterConcat([s[p]], s[p + 1..], keep);
    assert s[p..] == [s[p]] + s[p + 1..];
    assert w[..p] == s[..p];
    assert w[p + 1..] == s[p + 1..b] + Filter(s[b..], keep);
    assert s[..b] == s[..p + 1] + s[p + 1..b];
  }

  function SumOf<T>(s: seq<T>, f: T -> int): int
  {
    if s == [] then 0 else f(s[0]) + SumOf(s[1..], f)
  }

  lemma {:induction false} SumOfConcat<T>(a: seq<T>, b: seq<T>, f: T -> int)
    ensures SumOf(a + b, f) == SumOf(a, f) + SumOf(b, f)
  {
    if a != [] {
      SumOfConcat(a[1..], b, f);
      assert (a + b)[0] == a[0];
      assert (a + b)[1..] == a[1..] + b;
    } else {
      assert a + b == b;
    }
  }

  lemma {:induction false} InsertSum<T(!new)>(s: seq<T>, x: T, le: (T, T) -> bool, f: T -> int)
    requires IsTotalPreorder(le) && SortedBy(s, le)
    ensures SumOf(Insert(s, x, le), f) == SumOf(s, f) + f(x)
  {
    if s != [] && le(s[0], x) {
      InsertSum(s[1..], x, le, f);
      assert ([s[0]] + Insert(s[1..], x, le))[1..] == Insert(s[1..], x, le);
    }
  }

  /** Sorting does not change a total. */
  lemma {:induction false} SortBySum<T(!new)>(s: seq<T>, le: (T, T) -> bool, f: T -> int)
    requires IsTotalPreorder(le)
    ensures SumOf(SortBy(s, le), f) == SumOf(s, f)
  {
    if s != [] {
      var p, x := s[..|s| - 1], s[|s| - 1];
      assert s == p + [x];
      SortBySum(p, le, f);
      InsertSum(SortBy(p, le), x, le, f);
      SumOfConcat(p, [x], f);
      calc {
        SumOf(SortBy(s, le), f);
        SumOf(Insert(SortBy(p, le), x, le), f);
        SumOf(SortBy(p, le), f) + f(x);
        SumOf(p, f) + SumOf([x], f);
        SumOf(s, f);
      }
    }
  }

  /** The sum, over the values listed in `keys`, of how often each occurs in `s`. */
  function CountSum<T(==)>(keys: seq<T>, s: seq<T>): nat
  {
    if keys == [] then 0 else multiset(s)[keys[0]] + CountSum(keys[1..], s)
  }

  lemma {:induction false} CountSumSnoc<T>(keys: seq<T>, s: seq<T>, x: T)
    requires Distinct(keys)
    ensures CountSum(keys, s + [x]) == CountSum(keys, s) + (if x in keys then 1 else 0)
  {
    if keys != [] {
      CountSumSnoc(keys[1..], s, x);
      assert multiset(s + [x]) == multiset(s) + multiset{x};
      assert x in keys ==> (x == keys[0]) != (x in keys[1..]);
    }
  }

  lemma {:induction false} CountSumAppendKey<T>(keys: seq<T>, y: T, s: seq<T>)
    ensures CountSum(keys + [y], s) == CountSum(keys, s) + multiset(s)[y]
  {
    if keys != [] {
      CountSumAppendKey(keys[1..], y, s);
      assert (keys + [y])[1..] == keys[1..] + [y];
    }
  }

  /** Counting every distinct value of `s` accounts for every element of `s` exactly once. */
  lemma {:induction false} CountSumUnique<T(!new)>(s: seq<T>)
    ensures CountSum(Unique(s), s) == |s|
  {
    if s != [] {
      var p, x := s[..|s| - 1], s[|s| - 1];
      assert s == p + [x];
      CountSumUnique(p);
      UniqueSnoc(p, x);
      CountSumSnoc(Unique(p), p, x);
      if x !in p {
        CountSumAppendKey(Unique(p), x, s);
        assert multiset(s)[x] == multiset(p)[x] + 1;
      }
    }
  }

  /** Summing per-key counts, one entry of `t` per key, gives CountSum. */
  lemma {:induction false} SumOfCounts<T, U>(t: seq<U>, f: U -> int, keys: seq<T>, s: seq<T>)
    requires |t| == |keys|
    requires forall i :: 0 <= i < |t| ==> f(t[i]) == multiset(s)[keys[i]]
    ensures SumOf(t, f) == CountSum(keys, s)
  {
    if t != [] {
      SumOfCounts(t[1..], f, keys[1..], s);
    }
  }
}
