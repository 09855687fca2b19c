/**
 * The last loop of `collectDistrib`: the group ids not marked redundant are
 * renumbered 0, 1, ... in order, their clause lengths are packed to the
 * front of `shiftedSizeClause` and counted into the length histogram
 * `distribDiffSize`; a redundant id is sent to the sentinel `sizeDistrib`.
 */
module Compact {

  /** The entries of ss at the ids below n not marked redundant, in order. */
  function Survivors(ss: seq<nat>, red: seq<bool>, n: nat): (r: seq<nat>)
    requires n <= |ss| && n <= |red|
    ensures |r| <= n
  {
    if n == 0 then [] else Survivors(ss, red, n - 1) + (if red[n - 1] then [] else [ss[n - 1]])
  }

  /** The number of ids below i not marked redundant: the new index of id i when it survives. */
  function Rank(red: seq<bool>, i: nat): (r: nat)
    requires i <= |red|
    ensures r <= i
  {
    if i == 0 then 0 else Rank(red, i - 1) + (if red[i - 1] then 0 else 1)
  }

  /** The total of the first n entries of a histogram. */
  function SumTo(s: seq<nat>, n: nat): nat
    requires n <= |s|
  {
    if n == 0 then 0 else SumTo(s, n - 1) + s[n - 1]
  }

  /** The total of a histogram. */
  function Sum(s: seq<nat>): nat
  {
    SumTo(s, |s|)
  }

  lemma {:induction false} SurvivorsLength(ss: seq<nat>, red: seq<bool>, n: nat)
    requires n <= |ss| && n <= |red|
    ensures |Survivors(ss, red, n)| == Rank(red, n)
  {
    if n > 0 {
      SurvivorsLength(ss, red, n - 1);
    }
  }

  /** The rank of i reads only the marks below i. */
  lemma {:induction false} RankPrefix(a: seq<bool>, b: seq<bool>, i: nat)
    requires i <= |a| && i <= |b| && a[..i] == b[..i]
    ensures Rank(a, i) == Rank(b, i)
  {
    if i > 0 {
      assert a[..i - 1] == a[..i][..i - 1] && b[..i - 1] == b[..i][..i - 1];
      assert a[i - 1] == a[..i][i - 1] && b[i - 1] == b[..i][i - 1];
      RankPrefix(a, b, i - 1);
    }
  }

  /** Surviving ids keep their order: a survivor i ranks below every id after it. */
  lemma {:induction false} RankOrder(red: seq<bool>, i: nat, j: nat)
    requires i < j <= |red| && !red[i]
    ensures Rank(red, i) < Rank(red, j)
    decreases j
  {
    if j > i + 1 {
      RankOrder(red, i, j - 1);
    }
  }

  /** Every index below the number of survivors is the rank of one survivor. */
  lemma {:induction false} RankOnto(red: seq<bool>, n: nat, x: nat)
    requires n <= |red| && x < Rank(red, n)
    ensures exists i :: 0 <= i < n && !red[i] && Rank(red, i) == x
  {
    if x < Rank(red, n - 1) {
      RankOnto(red, n - 1, x);
    } else {
      assert !red[n - 1] && Rank(red, n - 1) == x;
    }
  }

  /** A survivor i below n is found at its rank among the survivors. */
  lemma {:induction false} SurvivorAt(ss: seq<nat>, red: seq<bool>, n: nat, i: nat)
    requires i < n <= |ss| && n <= |red| && !red[i]
    ensures Rank(red, i) < |Survivors(ss, red, n)| && Survivors(ss, red, n)[Rank(red, i)] == ss[i]
  {
    SurvivorsLength(ss, red, n);
    SurvivorsLength(ss, red, i);
    RankOrder(red, i, n);
    if i < n - 1 {
      SurvivorAt(ss, red, n - 1, i);
    }
  }

  lemma {:induction false} SumToUpdate(s: seq<nat>, x: nat, v: nat, n: nat)
    requires x < |s| && n <= |s|
    ensures SumTo(s[x := v], n) + (if x < n then s[x] else 0) == SumTo(s, n) + (if x < n then v else 0)
  {
    if n > 0 {
      SumToUpdate(s, x, v, n - 1);
    }
  }

  /** Adding one to an entry of a histogram adds one to its total. */
  lemma SumIncrement(s: seq<nat>, x: nat)
    requires x < |s|
    ensures Sum(s[x := s[x] + 1]) == Sum(s) + 1
  {
    SumToUpdate(s, x, s[x] + 1, |s|);
  }

  /** The first i ids are packed: the k survivors' entries lead ss, the rest of ss is untouched. */
  predicate Packed(ss0: seq<nat>, red0: seq<bool>, i: nat, k: nat, ss: seq<nat>)
    requires i <= |ss0| && i <= |red0|
  {
    k == Rank(red0, i) == |Survivors(ss0, red0, i)| && |ss| == |ss0|
    && (forall j :: 0 <= j < k ==> ss[j] == Survivors(ss0, red0, i)[j])
    && (forall j :: k <= j < |ss| ==> ss[j] == ss0[j])
  }

  /** The first i ids have their new index in si, or the sentinel when redundant. */
  predicate Indexed(red0: seq<bool>, si0: seq<nat>, i: nat, sentinel: nat, si: seq<nat>)
    requires i <= |red0|
  {
    |si| == |si0|
    && forall j :: 0 <= j < |si| ==>
         si[j] == if j >= i then si0[j] else if red0[j] then sentinel else Rank(red0, j)
  }

  /** The first i redundancy marks are reset. */
  predicate Cleared(red0: seq<bool>, i: nat, red: seq<bool>)
  {
    |red| == |red0| && forall j :: 0 <= j < |red| ==> red[j] == (j >= i && red0[j])
  }

  /** The histogram has counted the lengths of the survivors among the first i ids. */
  predicate Counted(ss0: seq<nat>, red0: seq<bool>, i: nat, diff0: seq<nat>, diff: seq<nat>)
    requires i <= |ss0| && i <= |red0|
  {
    |diff| == |diff0|
    && (forall x :: 0 <= x < |diff| ==> diff[x] == diff0[x] + multiset(Survivors(ss0, red0, i))[x])
    && Sum(diff) == Sum(diff0) + Rank(red0, i)
  }

  lemma PackedStep(ss0: seq<nat>, red0: seq<bool>, i: nat, k: nat, ss: seq<nat>)
    requires i < |ss0| && i < |red0| && Packed(ss0, red0, i, k, ss)
    ensures k <= i && ss[i] == ss0[i]
  {
  }

  lemma PackedKeep(ss0: seq<nat>, red0: seq<bool>, i: nat, k: nat, ss: seq<nat>)
    requires i < |ss0| && i < |red0| && !red0[i] && Packed(ss0, red0, i, k, ss)
    ensures k < |ss| && Packed(ss0, red0, i + 1, k + 1, ss[k := ss0[i]])
  {
    SurvivorsLength(ss0, red0, i + 1);
  }

  lemma PackedDrop(ss0: seq<nat>, red0: seq<bool>, i: nat, k: nat, ss: seq<nat>)
    requires i < |ss0| && i < |red0| && red0[i] && Packed(ss0, red0, i, k, ss)
    ensures Packed(ss0, red0, i + 1, k, ss)
  {
  }

  lemma IndexedStep(red0: seq<bool>, si0: seq<nat>, i: nat, sentinel: nat, si: seq<nat>, v: nat)
    requires i < |red0| && i < |si0| && Indexed(red0, si0, i, sentinel, si)
    requires v == if red0[i] then sentinel else Rank(red0, i)
    ensures Indexed(red0, si0, i + 1, sentinel, si[i := v])
  {
  }

  lemma ClearedStep(red0: seq<bool>, i: nat, red: seq<bool>)
    requires i < |red0| && Cleared(red0, i, red)
    ensures red[i] == red0[i] && Cleared(red0, i + 1, red[i := false])
  {
  }

  lemma CountedKeep(ss0: seq<nat>, red0: seq<bool>, i: nat, diff0: seq<nat>, diff: seq<nat>, v: nat, diff': seq<nat>)
    requires i < |ss0| && i < |red0| && !red0[i] && Counted(ss0, red0, i, diff0, diff)
    requires v == ss0[i] && v < |diff| && diff' == diff[v := diff[v] + 1]
    ensures Counted(ss0, red0, i + 1, diff0, diff')
  {
    var S, S1 := Survivors(ss0, red0, i), Survivors(ss0, red0, i + 1);
    assert S1 == S + [v];
    HistogramAdd(diff0, diff, S, v, diff', S1);
    SumIncrement(diff, v);
  }

  /** Counting one more length v in a histogram of the lengths S. */
  lemma HistogramAdd(diff0: seq<nat>, diff: seq<nat>, S: seq<nat>, v: nat, diff': seq<nat>, S1: seq<nat>)
    requires |diff| == |diff0| && forall x :: 0 <= x < |diff| ==> diff[x] == diff0[x] + multiset(S)[x]
    requires v < |diff| && diff' == diff[v := diff[v] + 1] && S1 == S + [v]
    ensures |diff'| == |diff0| && forall x :: 0 <= x < |diff'| ==> diff'[x] == diff0[x] + multiset(S1)[x]
  {
    assert multiset(S1) == multiset(S) + multiset{v};
  }

  lemma CountedDrop(ss0: seq<nat>, red0: seq<bool>, i: nat, diff0: seq<nat>, diff: seq<nat>)
    requires i < |ss0| && i < |red0| && red0[i] && Counted(ss0, red0, i, diff0, diff)
    ensures Counted(ss0, red0, i + 1, diff0, diff)
  {
    assert Survivors(ss0, red0, i + 1) == Survivors(ss0, red0, i);
  }

  /** A surviving id i moves to slot k1, counts in the histogram and gets index k1. */
  lemma KeepStep(ss0: seq<nat>, red0: seq<bool>, si0: seq<nat>, diff0: seq<nat>, sentinel: nat, i: nat,
                 ss1: seq<nat>, si1: seq<nat>, diff1: seq<nat>, k1: nat,
                 v: nat, ss: seq<nat>, si: seq<nat>, diff: seq<nat>, k: nat)
    requires i < |ss0| && i < |red0| && i < |si0| && !red0[i] && ss0[i] < |diff0|
    requires Packed(ss0, red0, i, k1, ss1) && Indexed(red0, si0, i, sentinel, si1)
    requires Counted(ss0, red0, i, diff0, diff1)
    requires v == ss1[i] && k1 < |ss1| && v < |diff1|
    requires ss == ss1[k1 := v] && si == si1[i := k1] && diff == diff1[v := diff1[v] + 1] && k == k1 + 1
    ensures Packed(ss0, red0, i + 1, k, ss) && Indexed(red0, si0, i + 1, sentinel, si)
    ensures Counted(ss0, red0, i + 1, diff0, diff)
  {
    PackedStep(ss0, red0, i, k1, ss1);
    PackedKeep(ss0, red0, i, k1, ss1);
    CountedKeep(ss0, red0, i, diff0, diff1, v, diff);
    IndexedStep(red0, si0, i, sentinel, si1, k1);
  }

  /** One pass of the compaction loop, for id i. */
  method CompactOne(ss0: seq<nat>, red0: seq<bool>, si0: seq<nat>, diff0: seq<nat>, sentinel: nat, i: nat,
                    ss1: seq<nat>, red1: seq<bool>, si1: seq<nat>, diff1: seq<nat>, k1: nat)
    returns (ss: seq<nat>, red: seq<bool>, si: seq<nat>, diff: seq<nat>, k: nat)
    requires i < |ss0| && i < |red0| && i < |si0| && (!red0[i] ==> ss0[i] < |diff0|)
    requires Packed(ss0, red0, i, k1, ss1) && Indexed(red0, si0, i, sentinel, si1)
    requires Cleared(red0, i, red1) && Counted(ss0, red0, i, diff0, diff1)
    ensures Packed(ss0, red0, i + 1, k, ss) && Indexed(red0, si0, i + 1, sentinel, si)
    ensures Cleared(red0, i + 1, red) && Counted(ss0, red0, i + 1, diff0, diff)
  {
    PackedStep(ss0, red0, i, k1, ss1);
    ClearedStep(red0, i, red1);
    ss, red, si, diff, k := ss1, red1, si1, diff1, k1;
    if !red[i] {
      var v := ss[i];
      diff := diff[v := diff[v] + 1];
      ss := ss[k := v];
      si := si[i := k];
      k := k + 1;
      KeepStep(ss0, red0, si0, diff0, sentinel, i, ss1, si1, diff1, k1, v, ss, si, diff, k);
    } else {
      PackedDrop(ss0, red0, i, k1, ss1);
      CountedDrop(ss0, red0, i, diff0, diff1);
      IndexedStep(red0, si0, i, sentinel, si1, sentinel);
      si := si[i := sentinel];
    }
    red := red[i := false];
  }

  /**
   * The compaction loop of `collectDistrib` over the n ids in use, on
   * values: `shiftedSizeClause` (ss), `markedAsRedundant` (red),
   * `shiftedIndexClause` (si) and `distribDiffSize` (diff). It returns the
   * number k of surviving ids, the new `nbClauseInDistrib`.
   */
  method CompactIds(ss0: seq<nat>, red0: seq<bool>, si0: seq<nat>, diff0: seq<nat>, n: nat, sentinel: nat)
    returns (ss: seq<nat>, red: seq<bool>, si: seq<nat>, diff: seq<nat>, k: nat)
    requires n <= |ss0| && n <= |red0| && n <= |si0|
    requires forall i :: 0 <= i < n && !red0[i] ==> ss0[i] < |diff0|
    ensures k == Rank(red0, n) && k <= n
    ensures |ss| == |ss0| && ss[..k] == Survivors(ss0, red0, n) && ss[k..] == ss0[k..]
    ensures |si| == |si0|
    ensures forall i :: 0 <= i < |si| ==>
              si[i] == if i >= n then si0[i] else if red0[i] then sentinel else Rank(red0, i)
    ensures |red| == |red0| && forall i :: 0 <= i < |red| ==> red[i] == (i >= n && red0[i])
    ensures |diff| == |diff0|
    ensures forall x :: 0 <= x < |diff| ==> diff[x] == diff0[x] + multiset(Survivors(ss0, red0, n))[x]
    ensures Sum(diff) == Sum(diff0) + k
  {
    ss, red, si, diff, k := ss0, red0, si0, diff0, 0;
    for i := 0 to n
      invariant Packed(ss0, red0, i, k, ss) && Indexed(red0, si0, i, sentinel, si)
      invariant Cleared(red0, i, red) && Counted(ss0, red0, i, diff0, diff)
    {
      ss, red, si, diff, k := CompactOne(ss0, red0, si0, diff0, sentinel, i, ss, red, si, diff, k);
    }
    PackedEnd(ss0, red0, n, k, ss);
  }

  lemma PackedEnd(ss0: seq<nat>, red0: seq<bool>, n: nat, k: nat, ss: seq<nat>)
    requires n <= |ss0| && n <= |red0| && Packed(ss0, red0, n, k, ss)
    ensures k <= |ss| && ss[..k] == Survivors(ss0, red0, n) && ss[k..] == ss0[k..]
  {
    assert ss[..k] == Survivors(ss0, red0, n);
    assert ss[k..] == ss0[k..];
  }
}
