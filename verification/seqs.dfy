/**
 Order-preserving selection over sequences, and Python's `s[:n]` slice.

 `Filter` is the reference for every list comprehension and append-loop of the
 collection queries; `IsSelection` is an independent description of its result
 (an in-order subsequence that keeps exactly the elements satisfying the
 predicate, with their multiplicities), and the two are proved to coincide.
 */
module Seqs {

  function Min(a: int, b: int): int { if a <= b then a else b }

  function Max(a: int, b: int): int { if a >= b then a else b }

  /** The elements of `s` satisfying `p`, in their original order. */
  function Filter<T>(s: seq<T>, p: T -> bool): (r: seq<T>)
    ensures |r| <= |s|
  {
    if |s| == 0 then []
    else (if p(s[0]) then [s[0]] else []) + Filter(s[1..], p)
  }

  /** `r` can be obtained from `s` by deleting elements (order is kept). */
  ghost predicate Subseq<T>(r: seq<T>, s: seq<T>)
    decreases |s|
  {
    |r| == 0 ||
    (|s| > 0 && ((r[0] == s[0] && Subseq(r[1..], s[1..])) || Subseq(r, s[1..])))
  }

  /**
   `r` is exactly the selection of `p` from `s`: an in-order subsequence of `s`
   whose elements all satisfy `p`, containing every element that satisfies `p`
   as many times as `s` does.
   */
  ghost predicate IsSelection<T>(r: seq<T>, s: seq<T>, p: T -> bool) {
    && Subseq(r, s)
    && (forall i :: 0 <= i < |r| ==> p(r[i]))
    && (forall i :: 0 <= i < |s| && p(s[i]) ==> multiset(r)[s[i]] == multiset(s)[s[i]])
  }

  lemma {:induction false} FilterConcat<T>(a: seq<T>, b: seq<T>, p: T -> bool)
    ensures Filter(a + b, p) == Filter(a, p) + Filter(b, p)
    decreases |a|
  {
    if |a| == 0 {
      assert a + b == b;
    } else {
      var head := if p(a[0]) then [a[0]] else [];
      assert (a + b)[0] == a[0];
      assert (a + b)[1..] == a[1..] + b;
      calc {
        Filter(a + b, p);
        head + Filter(a[1..] + b, p);
        { FilterConcat(a[1..], b, p); }
        head + (Filter(a[1..], p) + Filter(b, p));
        (head + Filter(a[1..], p)) + Filter(b, p);
      }
    }
  }

  lemma {:induction false} SubseqMultiset<T>(r: seq<T>, s: seq<T>)
    requires Subseq(r, s)
    ensures multiset(r) <= multiset(s)
    decreases |s|
  {
    if |r| == 0 {
    } else if r[0] == s[0] && Subseq(r[1..], s[1..]) {
      SubseqMultiset(r[1..], s[1..]);
      assert r == [r[0]] + r[1..];
      assert s == [s[0]] + s[1..];
    } else {
      SubseqMultiset(r, s[1..]);
      assert s == [s[0]] + s[1..];
    }
  }

  /** `Filter` meets the independent description of a selection. */
  lemma {:induction false} FilterIsSelection<T>(s: seq<T>, p: T -> bool)
    ensures IsSelection(Filter(s, p), s, p)
    decreases |s|
  {
    if |s| > 0 {
      FilterIsSelection(s[1..], p);
      var r := Filter(s, p);
      var t := Filter(s[1..], p);
      assert s == [s[0]] + s[1..];
      if p(s[0]) {
        assert r == [s[0]] + t;
        assert r[1..] == t;
      } else {
        assert r == t;
      }
      forall i | 0 <= i < |s| && p(s[i])
        ensures multiset(r)[s[i]] == multiset(s)[s[i]]
      {
        var x := s[i];
        assert multiset(s) == multiset{s[0]} + multiset(s[1..]);
        SubseqMultiset(t, s[1..]);
        if x in s[1..] {
          var j :| 0 <= j < |s[1..]| && s[1..][j] == x;
          assert multiset(t)[x] == multiset(s[1..])[x];
        } else {
          assert multiset(t)[x] == 0;
        }
      }
    }
  }

  /** A selection is unique: anything meeting the description is `Filter`'s result. */
  lemma {:induction false} SelectionIsFilter<T>(r: seq<T>, s: seq<T>, p: T -> bool)
    requires IsSelection(r, s, p)
    ensures r == Filter(s, p)
    decreases |s|
  {
    if |s| == 0 {
      assert |r| == 0;
    } else {
      var a := s[0];
      assert s == [a] + s[1..];
      if p(a) {
        assert p(s[0]);
        assert multiset(r)[a] == multiset(s)[a] == multiset(s[1..])[a] + 1;
        assert |r| > 0;
        if !(r[0] == a && Subseq(r[1..], s[1..])) {
          assert Subseq(r, s[1..]);
          SubseqMultiset(r, s[1..]);
          assert false;
        }
        assert r == [a] + r[1..];
        forall i | 0 <= i < |s[1..]| && p(s[1..][i])
          ensures multiset(r[1..])[s[1..][i]] == multiset(s[1..])[s[1..][i]]
        {
          assert s[1..][i] == s[i + 1];
          assert multiset(r) == multiset{a} + multiset(r[1..]);
        }
        SelectionIsFilter(r[1..], s[1..], p);
      } else {
        if |r| > 0 && r[0] == a {
          assert false;
        }
        assert Subseq(r, s[1..]);
        forall i | 0 <= i < |s[1..]| && p(s[1..][i])
          ensures multiset(r)[s[1..][i]] == multiset(s[1..])[s[1..][i]]
        {
          assert s[1..][i] == s[i + 1];
          assert multiset(s) == multiset{a} + multiset(s[1..]);
        }
        SelectionIsFilter(r, s[1..], p);
      }
    }
  }

  /**
   Python's `s[:n]`: the first `n` elements, the whole sequence when `n`
   exceeds its length, and for negative `n` everything but the last `-n`.
   */
  function SliceTo<T>(s: seq<T>, n: int): (r: seq<T>)
    ensures r <= s
    ensures 0 <= n ==> |r| == Min(n, |s|)
    ensures n < 0 ==> |r| == Max(0, |s| + n)
  {
    if n >= 0 then (if n <= |s| then s[..n] else s)
    else if |s| + n >= 0 then s[..|s| + n]
    else []
  }
}
