/**
 * Facts about finite sequences used by the encoder's proofs: ordering,
 * sorted insertion, distinct elements and counting.
 */
module Seqs {

  /** n zeros: an empty count or length per entry. */
  function Zeros(n: nat): (r: seq<nat>)
    ensures |r| == n && forall i :: 0 <= i < n ==> r[i] == 0
  {
    seq(n, _ => 0)
  }

  /** n marks -1: no entry marked. */
  function NoMarks(n: nat): (r: seq<int>)
    ensures |r| == n && forall i :: 0 <= i < n ==> r[i] == -1
  {
    seq(n, _ => -1)
  }

  /** n flags false: no entry flagged. */
  function NoFlags(n: nat): (r: seq<bool>)
    ensures |r| == n && forall i :: 0 <= i < n ==> !r[i]
  {
    seq(n, _ => false)
  }

  /** Non-decreasing. */
  predicate Sorted(s: seq<int>)
  {
    forall i, j :: 0 <= i < j < |s| ==> s[i] <= s[j]
  }

  /** Strictly increasing. */
  predicate Increasing(s: seq<int>)
  {
    forall i, j :: 0 <= i < j < |s| ==> s[i] < s[j]
  }

  /** No element twice. */
  predicate Distinct(s: seq<int>)
  {
    forall i, j :: 0 <= i < j < |s| ==> s[i] != s[j]
  }

  /**
   * Insertion of v by bubbling it down from the end of s for as long as it
   * is smaller than its left neighbour.
   */
  function InsertSorted(s: seq<int>, v: int): (r: seq<int>)
    ensures |r| == |s| + 1
  {
    if |s| == 0 || s[|s| - 1] <= v then s + [v]
    else InsertSorted(s[..|s| - 1], v) + [s[|s| - 1]]
  }

  /** One bubbling step: v passes w[i - 1] when it is smaller. */
  lemma InsertSortedStep(w: seq<int>, i: nat, v: int)
    requires 0 < i <= |w| && v < w[i - 1]
    ensures InsertSorted(w[..i], v) + w[i..] == InsertSorted(w[..i - 1], v) + w[i - 1..]
  {
    assert w[..i][..i - 1] == w[..i - 1];
    assert w[i - 1..] == [w[i - 1]] + w[i..];
  }

  /** Bubbling stops at the front or at an element not above v. */
  lemma InsertSortedStop(w: seq<int>, i: nat, v: int)
    requires i <= |w| && (i == 0 || w[i - 1] <= v)
    ensures InsertSorted(w[..i], v) == w[..i] + [v]
  {
  }

  /** The insertion is a permutation of s plus v. */
  lemma {:induction false} InsertSortedPerm(s: seq<int>, v: int)
    ensures multiset(InsertSorted(s, v)) == multiset(s) + multiset{v}
  {
    if |s| == 0 || s[|s| - 1] <= v {
    } else {
      var init, last := s[..|s| - 1], s[|s| - 1];
      InsertSortedPerm(init, v);
      assert s == init + [last];
    }
  }

  lemma InsertSortedMembers(s: seq<int>, v: int, x: int)
    ensures x in InsertSorted(s, v) <==> x in s || x == v
  {
    InsertSortedPerm(s, v);
    assert x in InsertSorted(s, v) <==> x in multiset(InsertSorted(s, v));
    assert x in s <==> x in multiset(s);
  }

  /** Every element of the insertion is an element of s or v. */
  lemma InsertSortedElements(s: seq<int>, v: int)
    ensures forall i :: 0 <= i < |s| + 1 ==>
              InsertSorted(s, v)[i] in s || InsertSorted(s, v)[i] == v
  {
    forall i | 0 <= i < |s| + 1
      ensures InsertSorted(s, v)[i] in s || InsertSorted(s, v)[i] == v
    {
      InsertSortedMembers(s, v, InsertSorted(s, v)[i]);
    }
  }

  /** Inserting into a sorted sequence keeps it sorted. */
  lemma {:induction false} InsertSortedSorted(s: seq<int>, v: int)
    requires Sorted(s)
    ensures Sorted(InsertSorted(s, v))
  {
    if |s| == 0 || s[|s| - 1] <= v {
    } else {
      var init, last := s[..|s| - 1], s[|s| - 1];
      InsertSortedSorted(init, v);
      InsertSortedElements(init, v);
      var r := InsertSorted(init, v);
      forall i | 0 <= i < |r|
        ensures r[i] <= last
      {
        if r[i] != v {
          var j :| 0 <= j < |init| && init[j] == r[i];
        }
      }
    }
  }

  /** Into an increasing sequence that lacks v, the insertion is increasing. */
  lemma InsertSortedIncreasing(s: seq<int>, v: int)
    requires Increasing(s) && v !in s
    ensures Increasing(InsertSorted(s, v))
  {
    InsertSortedSorted(s, v);
    var r := InsertSorted(s, v);
    InsertSortedPerm(s, v);
    forall i, j | 0 <= i < j < |r|
      ensures r[i] < r[j]
    {
      if r[i] == r[j] {
        DuplicateInMultiset(r, i, j);
        if r[i] != v {
          IncreasingCountOne(s, r[i]);
        }
        assert false;
      }
    }
  }

  /** Two places holding x count twice. */
  lemma DuplicateInMultiset(r: seq<int>, i: nat, j: nat)
    requires i < j < |r| && r[i] == r[j]
    ensures multiset(r)[r[i]] >= 2
  {
    var x := r[i];
    assert r == r[..i] + [x] + r[i + 1..j] + [x] + r[j + 1..];
  }

  /** In an increasing sequence every value occurs at most once. */
  lemma {:induction false} IncreasingCountOne(s: seq<int>, x: int)
    requires Increasing(s)
    ensures multiset(s)[x] <= 1
  {
    if |s| > 0 {
      var init := s[..|s| - 1];
      assert s == init + [s[|s| - 1]];
      IncreasingCountOne(init, x);
      if s[|s| - 1] == x {
        assert x !in init;
        assert x !in multiset(init);
      }
    }
  }

  /**
   * Pigeonhole: a sequence of distinct values, all in [0, n), has at most n
   * elements.
   */
  lemma {:induction false} DistinctBound(s: seq<int>, n: nat)
    requires Distinct(s)
    requires forall i :: 0 <= i < |s| ==> 0 <= s[i] < n
    ensures |s| <= n
    decreases n
  {
    if |s| > 0 {
      assert 0 <= s[0] < n;
      var t := Without(s, n - 1);
      WithoutFacts(s, n - 1);
      DistinctBound(t, n - 1);
    }
  }

  /** s with every occurrence of x removed. */
  function Without(s: seq<int>, x: int): seq<int>
  {
    if |s| == 0 then []
    else Without(s[..|s| - 1], x) + (if s[|s| - 1] == x then [] else [s[|s| - 1]])
  }

  lemma {:induction false} WithoutFacts(s: seq<int>, x: int)
    requires Distinct(s)
    requires forall i :: 0 <= i < |s| ==> 0 <= s[i] <= x
    ensures |Without(s, x)| >= |s| - 1
    ensures x in s ==> |Without(s, x)| == |s| - 1
    ensures x !in s ==> |Without(s, x)| == |s|
    ensures Distinct(Without(s, x))
    ensures forall i :: 0 <= i < |Without(s, x)| ==> 0 <= Without(s, x)[i] < x
    ensures forall y :: y in Without(s, x) ==> y in s
  {
    if |s| > 0 {
      var init, last := s[..|s| - 1], s[|s| - 1];
      WithoutFacts(init, x);
      if last == x {
        assert x !in init;
      }
      var w := Without(init, x);
      if last != x {
        assert last !in init;
        assert last !in w;
        assert Without(s, x) == w + [last];
      }
    }
  }

  /** A slice inside a prefix reads the same as in the whole sequence. */
  lemma SliceOfPrefix<T>(s: seq<T>, n: nat, a: nat, b: nat)
    requires a <= b <= n <= |s|
    ensures s[..n][a..b] == s[a..b]
  {
    forall i | 0 <= i < b - a
      ensures s[..n][a..b][i] == s[a..b][i]
    {
      assert s[..n][a..b][i] == s[..n][a + i] == s[a + i];
    }
  }

  /** The image of [lo, hi) under a sequence with no repeat there has hi - lo elements. */
  lemma {:induction false} InjectiveImage(s: seq<int>, lo: nat, hi: nat)
    requires lo <= hi <= |s|
    requires forall i, j :: lo <= i < j < hi ==> s[i] != s[j]
    ensures |set i | lo <= i < hi :: s[i]| == hi - lo
    decreases hi - lo
  {
    if lo < hi {
      InjectiveImage(s, lo, hi - 1);
      var A := set i | lo <= i < hi - 1 :: s[i];
      assert (set i | lo <= i < hi :: s[i]) == A + {s[hi - 1]};
      assert s[hi - 1] !in A;
    }
  }
}
