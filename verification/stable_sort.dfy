/**
 Stable sorting by an integer key, and "top N" as a prefix of the sorted order.

 Python's `sorted(xs, key=k)` is guaranteed stable, and so is
 `sorted(xs, key=k, reverse=True)`: elements with equal keys keep their
 original relative order in both. A descending stable sort by `k` is therefore
 the ascending stable sort by `-k`, which is how the collection queries use
 this module.

 Stability is stated per key class: for every key value `k`, the elements whose
 key is `k` appear in the output in exactly the order (and multiplicity) they
 have in the input. Together with sortedness this determines the output, so
 `SortBy` is THE stable sort, whatever algorithm produced it.
 */
module StableSort {
  import opened Seqs

  /** The selector for the elements whose key is `k`. */
  function HasKey<T>(key: T -> int, k: int): T -> bool {
    x => key(x) == k
  }

  ghost predicate SortedBy<T>(t: seq<T>, key: T -> int) {
    forall i, j :: 0 <= i < j < |t| ==> key(t[i]) <= key(t[j])
  }

  /** `t` is a stable sort of `s` by `key`. */
  ghost predicate IsStableSortOf<T>(t: seq<T>, s: seq<T>, key: T -> int) {
    && SortedBy(t, key)
    && forall k :: Filter(t, HasKey(key, k)) == Filter(s, HasKey(key, k))
  }

  /** Inserts `x` before the first element whose key is not smaller than its own. */
  function Insert<T>(x: T, t: seq<T>, key: T -> int): (r: seq<T>)
    ensures multiset(r) == multiset(t) + multiset{x}
    ensures SortedBy(t, key) ==> SortedBy(r, key)
    decreases |t|
  {
    if |t| == 0 || key(x) <= key(t[0]) then [x] + t
    else
      var rest := Insert(x, t[1..], key);
      assert t == [t[0]] + t[1..];
      ConsSorted(t[0], x, t[1..], rest, key);
      [t[0]] + rest
  }

  /** Putting `h` in front of a sorted insertion into `t'` keeps it sorted. */
  lemma ConsSorted<T>(h: T, x: T, t': seq<T>, rest: seq<T>, key: T -> int)
    requires key(h) < key(x)
    requires multiset(rest) == multiset(t') + multiset{x}
    ensures SortedBy([h] + t', key) && SortedBy(rest, key) ==> SortedBy([h] + rest, key)
  {
    if !(SortedBy([h] + t', key) && SortedBy(rest, key)) {
      return;
    }
    forall i | 0 <= i < |rest|
      ensures key(h) <= key(rest[i])
    {
      assert rest[i] in multiset(rest);
      assert ([h] + t')[0] == h;
      if rest[i] != x {
        assert rest[i] in multiset(t');
        var j :| 0 <= j < |t'| && t'[j] == rest[i];
        assert ([h] + t')[j + 1] == rest[i];
      }
    }
    forall i, j | 0 <= i < j < |[h] + rest|
      ensures key(([h] + rest)[i]) <= key(([h] + rest)[j])
    {
      if i > 0 {
        assert ([h] + rest)[i] == rest[i - 1];
      }
      assert ([h] + rest)[j] == rest[j - 1];
    }
  }

  /** Insertion sort: each element goes in front of the equal keys that came after it. */
  function SortBy<T>(s: seq<T>, key: T -> int): (t: seq<T>)
    ensures multiset(t) == multiset(s)
    ensures SortedBy(t, key)
    decreases |s|
  {
    if |s| == 0 then []
    else
      assert s == [s[0]] + s[1..];
      Insert(s[0], SortBy(s[1..], key), key)
  }

  lemma {:induction false} InsertStable<T>(x: T, t: seq<T>, key: T -> int, k: int)
    requires SortedBy(t, key)
    ensures Filter(Insert(x, t, key), HasKey(key, k)) == Filter([x] + t, HasKey(key, k))
    decreases |t|
  {
    var p := HasKey(key, k);
    if |t| == 0 || key(x) <= key(t[0]) {
    } else {
      var t' := t[1..];
      assert t == [t[0]] + t';
      InsertStable(x, t', key, k);
      FilterConcat([t[0]], Insert(x, t', key), p);
      FilterConcat([x], t', p);
      FilterConcat([x], t, p);
      FilterConcat([t[0]], t', p);
      assert [x] + t == [x] + ([t[0]] + t');
    }
  }

  lemma {:induction false} SortByStable<T>(s: seq<T>, key: T -> int, k: int)
    ensures Filter(SortBy(s, key), HasKey(key, k)) == Filter(s, HasKey(key, k))
    decreases |s|
  {
    if |s| > 0 {
      var p := HasKey(key, k);
      var rest := SortBy(s[1..], key);
      assert s == [s[0]] + s[1..];
      calc {
        Filter(SortBy(s, key), p);
        Filter(Insert(s[0], rest, key), p);
        { InsertStable(s[0], rest, key, k); }
        Filter([s[0]] + rest, p);
        { FilterConcat([s[0]], rest, p); }
        Filter([s[0]], p) + Filter(rest, p);
        { SortByStable(s[1..], key, k); }
        Filter([s[0]], p) + Filter(s[1..], p);
        { FilterConcat([s[0]], s[1..], p); }
        Filter(s, p);
      }
    }
  }

  /** Two sorted sequences with the same key classes are equal. */
  lemma {:induction false} SameClassesEqual<T>(t: seq<T>, u: seq<T>, key: T -> int)
    requires SortedBy(t, key) && SortedBy(u, key)
    requires forall k :: Filter(t, HasKey(key, k)) == Filter(u, HasKey(key, k))
    ensures t == u
    decreases |t| + |u|
  {
    if |t| > 0 && |u| == 0 {
      HeadClassNonEmpty(t, key);
      assert false;
    } else if |t| == 0 && |u| > 0 {
      HeadClassNonEmpty(u, key);
      assert false;
    } else if |t| > 0 && |u| > 0 {
      var m := key(t[0]);
      var m' := key(u[0]);
      MinimumKeyShared(t, u, key);
      MinimumKeyShared(u, t, key);
      assert m == m';
      var pm := HasKey(key, m);
      assert pm(t[0]) && pm(u[0]);
      assert Filter(t, pm) == Filter(u, pm);
      assert Filter(t, pm) == [t[0]] + Filter(t[1..], pm);
      assert Filter(u, pm) == [u[0]] + Filter(u[1..], pm);
      assert Filter(t, pm)[0] == t[0];
      assert t[0] == u[0];
      forall k
        ensures Filter(t[1..], HasKey(key, k)) == Filter(u[1..], HasKey(key, k))
      {
        var p := HasKey(key, k);
        assert Filter(t, p) == Filter(u, p);
        if k == m {
          assert [t[0]] + Filter(t[1..], p) == [u[0]] + Filter(u[1..], p);
          assert Filter(t[1..], p) == ([t[0]] + Filter(t[1..], p))[1..];
          assert Filter(u[1..], p) == ([u[0]] + Filter(u[1..], p))[1..];
        } else {
          assert !p(t[0]) && !p(u[0]);
          assert Filter(t, p) == Filter(t[1..], p);
          assert Filter(u, p) == Filter(u[1..], p);
        }
      }
      SameClassesEqual(t[1..], u[1..], key);
      assert t == [t[0]] + t[1..];
      assert u == [u[0]] + u[1..];
    }
  }

  lemma HeadClassNonEmpty<T>(t: seq<T>, key: T -> int)
    requires |t| > 0
    ensures Filter(t, HasKey(key, key(t[0]))) != []
  {
    assert HasKey(key, key(t[0]))(t[0]);
  }

  /** The first key of a sorted sequence is at least the first key of another with the same classes. */
  lemma SameClassesFirstKey<T>(t: seq<T>, u: seq<T>, key: T -> int)
    requires SortedBy(u, key) && |t| > 0 && |u| > 0
    requires Filter(t, HasKey(key, key(t[0]))) == Filter(u, HasKey(key, key(t[0])))
    ensures key(u[0]) <= key(t[0])
  {
    var p := HasKey(key, key(t[0]));
    FilterIsSelection(u, p);
    var f := Filter(t, p);
    assert f == [t[0]] + Filter(t[1..], p);
    assert f[0] in multiset(Filter(u, p));
    SubseqMultiset(Filter(u, p), u);
    assert f[0] in multiset(u);
    var j :| 0 <= j < |u| && u[j] == f[0];
    assert key(u[0]) <= key(u[j]);
  }

  lemma MinimumKeyShared<T>(t: seq<T>, u: seq<T>, key: T -> int)
    requires SortedBy(u, key) && |t| > 0 && |u| > 0
    requires forall k :: Filter(t, HasKey(key, k)) == Filter(u, HasKey(key, k))
    ensures key(u[0]) <= key(t[0])
  {
    assert Filter(t, HasKey(key, key(t[0]))) == Filter(u, HasKey(key, key(t[0])));
    SameClassesFirstKey(t, u, key);
  }

  /** `SortBy` is a stable sort, and every stable sort of `s` coincides with it. */
  lemma SortByIsTheStableSort<T>(s: seq<T>, key: T -> int)
    ensures IsStableSortOf(SortBy(s, key), s, key)
    ensures forall t :: IsStableSortOf(t, s, key) ==> t == SortBy(s, key)
  {
    forall k
      ensures Filter(SortBy(s, key), HasKey(key, k)) == Filter(s, HasKey(key, k))
    {
      SortByStable(s, key, k);
    }
    forall t | IsStableSortOf(t, s, key)
      ensures t == SortBy(s, key)
    {
      SameClassesEqual(t, SortBy(s, key), key);
    }
  }

  /**
   The first `n` (in Python slice terms) elements of the stable sort of `s`:
   every stable sort of `s` starts with the result, the result is sorted, and
   each element left out has a key no smaller than every element kept.
   */
  function TopBy<T(!new)>(s: seq<T>, key: T -> int, n: int): (r: seq<T>)
    ensures forall t :: IsStableSortOf(t, s, key) ==> r == SliceTo(t, n)
    ensures 0 <= n ==> |r| == Min(n, |s|)
    ensures SortedBy(r, key)
    ensures multiset(r) <= multiset(s)
    ensures forall x, i :: 0 <= i < |r| && multiset(r)[x] < multiset(s)[x] ==> key(r[i]) <= key(x)
  {
    SortByIsTheStableSort(s, key);
    TopIsSmallest(SortBy(s, key), key, n);
    SliceTo(SortBy(s, key), n)
  }

  lemma TopIsSmallest<T>(t: seq<T>, key: T -> int, n: int)
    requires SortedBy(t, key)
    ensures multiset(SliceTo(t, n)) <= multiset(t)
    ensures forall x, i :: 0 <= i < |SliceTo(t, n)| && multiset(SliceTo(t, n))[x] < multiset(t)[x]
              ==> key(SliceTo(t, n)[i]) <= key(x)
  {
    var r := SliceTo(t, n);
    var m := |r|;
    assert t == r + t[m..];
    assert multiset(t) == multiset(r) + multiset(t[m..]);
    forall x, i | 0 <= i < m && multiset(r)[x] < multiset(t)[x]
      ensures key(r[i]) <= key(x)
    {
      assert x in multiset(t[m..]);
      var j :| 0 <= j < |t[m..]| && t[m..][j] == x;
      assert t[m + j] == x;
      assert r[i] == t[i];
    }
  }
}
