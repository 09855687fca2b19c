/**
 * What `storeFormula` hands from `collectDistrib` to `storeClauses`: the
 * renumbered lengths form the histogram `distribDiffSize`, every length is
 * small enough for a token, the records of distrib name variables of the
 * component only, every id of a record has an index, and the entries whose
 * index is k are exactly as many as the k-th surviving clause is long.
 */
module KeyLink {
  import opened Arith
  import opened Cnf
  import opened Seqs
  import opened Partition
  import opened Compact
  import opened Collect
  import opened SizePlan
  import opened ClauseSegment
  import opened ClauseWalk
  import opened ClauseStore
  import KeyStore

  /** A clause holds at most two literals of each variable of vars. */
  lemma {:induction false} SizeOverAtMost(idx: OccurrenceIndex, c: int, vars: seq<int>)
    requires idx.Covers(vars)
    ensures idx.SizeOver(c, vars) <= 2 * |vars|
  {
    if |vars| > 0 {
      SizeOverAtMost(idx, c, vars[..|vars| - 1]);
    }
  }

  /** A length counted among the first k entries is one of them. */
  lemma {:induction false} CountedIsPresent(ss: seq<nat>, k: nat, x: nat)
    requires k <= |ss| && Count(ss, k, x) > 0
    ensures exists i :: 0 <= i < k && ss[i] == x
  {
    if ss[k - 1] != x {
      CountedIsPresent(ss, k - 1, x);
    }
  }

  /** The first n entries counted for k depend only on those entries. */
  lemma {:induction false} CountForPrefix(si: seq<nat>, E: seq<Entry>, E': seq<Entry>, n: nat, k: nat)
    requires n <= |E| && n <= |E'| && E[..n] == E'[..n]
    ensures CountFor(si, E, n, k) == CountFor(si, E', n, k)
  {
    if n > 0 {
      assert E[n - 1] == E[..n][n - 1] && E'[n - 1] == E'[..n][n - 1];
      assert E[..n - 1] == E[..n][..n - 1] && E'[..n - 1] == E'[..n][..n - 1];
      CountForPrefix(si, E, E', n - 1, k);
    }
  }

  /** Counting over A and then m entries of B. */
  lemma {:induction false} CountForConcat(si: seq<nat>, A: seq<Entry>, B: seq<Entry>, m: nat, k: nat)
    requires m <= |B|
    ensures CountFor(si, A + B, |A| + m, k) == CountFor(si, A, |A|, k) + CountFor(si, B, m, k)
  {
    if m == 0 {
      assert (A + B)[..|A|] == A[..|A|];
      CountForPrefix(si, A + B, A, |A|, k);
    } else {
      CountForConcat(si, A, B, m - 1, k);
      assert (A + B)[|A| + m - 1] == B[m - 1];
    }
  }

  /** In range, id has index k exactly when it is id j. */
  ghost predicate Picks(si: seq<nat>, N: nat, k: nat, j: nat)
  {
    j < N <= |si| && forall id :: 0 <= id < N ==> (si[id] == k <==> id == j)
  }

  /**
   * Among entries with increasing ids below N, the ones whose index is k
   * are the one with id j, if any.
   */
  lemma {:induction false} CountForIncreasing(si: seq<nat>, E: seq<Entry>, n: nat, N: nat, k: nat, j: nat)
    requires n <= |E| && Picks(si, N, k, j)
    requires forall e :: 0 <= e < n ==> E[e].id < N
    requires forall e, e' :: 0 <= e < e' < n ==> E[e].id < E[e'].id
    ensures CountFor(si, E, n, k) == if exists e :: 0 <= e < n && E[e].id == j then 1 else 0
  {
    if n > 0 {
      CountForIncreasing(si, E, n - 1, N, k, j);
      if E[n - 1].id == j {
        assert !exists e :: 0 <= e < n - 1 && E[e].id == j;
      }
    }
  }

  /** The entries of one record count 1 for k when the record holds id j, else 0. */
  lemma RecordCount(si: seq<nat>, D: seq<nat>, rc: Rec, N: nat, k: nat, j: nat)
    requires rc.pos + 1 < |D| && RecEnd(D, rc) <= |D| && Picks(si, N, k, j)
    requires Increasing(Window(D, rc)) && forall i :: 0 <= i < |Window(D, rc)| ==> Window(D, rc)[i] < N
    ensures CountFor(si, RecEntries(D, rc), |RecEntries(D, rc)|, k) == if j in Window(D, rc) then 1 else 0
  {
    var E, W := RecEntries(D, rc), Window(D, rc);
    assert forall e :: 0 <= e < |E| ==> E[e].id == W[e];
    CountForIncreasing(si, E, |E|, N, k, j);
    if j in W {
      var i :| 0 <= i < |W| && W[i] == j;
      assert E[i].id == j;
    }
  }

  /** What each record of R says about the ids below N and the clause c. */
  ghost predicate RecordsOf(idx: OccurrenceIndex, D: seq<nat>, R: seq<Rec>, N: nat, j: nat, c: int)
    requires Framed(D, R)
  {
    forall r :: 0 <= r < |R| ==>
      Increasing(Window(D, R[r])) && (forall i :: 0 <= i < |Window(D, R[r])| ==> Window(D, R[r])[i] < N)
      && (j in Window(D, R[r]) <==> Contains(idx, R[r].lit, c))
  }

  /**
   * When id j is in a record exactly when clause c holds its literal, the
   * entries of index k number the records of the literals of c.
   */
  lemma {:induction false} RecordsCount(idx: OccurrenceIndex, si: seq<nat>, D: seq<nat>, R: seq<Rec>, N: nat,
                                        k: nat, j: nat, c: int)
    requires Framed(D, R) && Picks(si, N, k, j) && RecordsOf(idx, D, R, N, j, c)
    ensures CountFor(si, Entries(D, R), |Entries(D, R)|, k) == CountRecs(idx, R, c)
  {
    if |R| > 0 {
      var R', last := R[..|R| - 1], R[|R| - 1];
      assert forall r :: 0 <= r < |R'| ==> R'[r] == R[r];
      RecordsCount(idx, si, D, R', N, k, j, c);
      var A, B, E := Entries(D, R'), RecEntries(D, last), Entries(D, R);
      assert E == A + B;
      var n := |E|;
      assert n == |A| + |B|;
      CountForConcat(si, A, B, |B|, k);
      assert CountFor(si, E, n, k) == CountFor(si, A, |A|, k) + CountFor(si, B, |B|, k);
      RecordCount(si, D, last, N, k, j);
      assert j in Window(D, last) <==> Contains(idx, last.lit, c);
      assert CountRecs(idx, R, c) == CountRecs(idx, R', c) + if Contains(idx, last.lit, c) then 1 else 0;
    }
  }

  /** The records of a laid-out distrib lie inside it. */
  lemma LaidFramed(D: seq<nat>, R: seq<Rec>, sd: nat)
    requires Laid(D, R, sd)
    ensures Framed(D, R)
  {}

  /** The entries of records whose ids lie below N and whose variables lie in vars do too. */
  lemma {:induction false} EntriesBounded(D: seq<nat>, R: seq<Rec>, N: nat, vars: seq<int>)
    requires Framed(D, R)
    requires forall r :: 0 <= r < |R| ==> D[R[r].pos] / 2 in vars
    requires forall r, i :: 0 <= r < |R| && 0 <= i < |Window(D, R[r])| ==> Window(D, R[r])[i] < N
    ensures forall e :: 0 <= e < |Entries(D, R)| ==> Entries(D, R)[e].id < N && Entries(D, R)[e].lit / 2 in vars
  {
    if |R| > 0 {
      var R' := R[..|R| - 1];
      assert forall r :: 0 <= r < |R'| ==> R'[r] == R[r];
      EntriesBounded(D, R', N, vars);
      var W := Window(D, R[|R| - 1]);
      assert forall j :: 0 <= j < |W| ==> RecEntries(D, R[|R| - 1])[j].id == W[j];
    }
  }

  /** The ids of every record of a table with matching records are in use. */
  lemma WindowsInUse(idx: OccurrenceIndex, t: Table)
    requires Shapes(idx, t) && RecordsMatch(idx, t)
    ensures Framed(t.D, t.R)
    ensures forall r, i :: 0 <= r < |t.R| && 0 <= i < |Window(t.D, t.R[r])| ==> Window(t.D, t.R[r])[i] < t.N
  {
    LaidFramed(t.D, t.R, t.SD);
    forall r, i | 0 <= r < |t.R| && 0 <= i < |Window(t.D, t.R[r])|
      ensures Window(t.D, t.R[r])[i] < t.N
    {
      assert Window(t.D, t.R[r])[i] == t.D[t.R[r].pos + 2 + i];
    }
  }

  /** Each id in use is in a record exactly when its clause holds the record's literal, once per record. */
  lemma OwnersRecorded(idx: OccurrenceIndex, t: Table)
    requires Shapes(idx, t) && Bijection(t) && RecordsMatch(idx, t) && SizesMatch(idx, t)
    ensures Framed(t.D, t.R) && |t.O| == t.N
    ensures forall j :: 0 <= j < t.N ==>
              RecordsOf(idx, t.D, t.R, t.N, j, t.O[j]) && OwnerSize(t, j) == CountRecs(idx, t.R, t.O[j])
  {
    WindowsInUse(idx, t);
  }

  /** The records of a stable table name the variables of vars when their literals do. */
  lemma RecordsOver(idx: OccurrenceIndex, t: Table, vars: seq<int>)
    requires Shapes(idx, t) && RecordsMatch(idx, t) && forall r :: 0 <= r < |t.R| ==> t.R[r].lit / 2 in vars
    ensures Framed(t.D, t.R)
    ensures forall r :: 0 <= r < |t.R| ==> t.D[t.R[r].pos] / 2 in vars
    ensures forall e :: 0 <= e < |Entries(t.D, t.R)| ==> Entries(t.D, t.R)[e].id < t.N && Entries(t.D, t.R)[e].lit / 2 in vars
  {
    WindowsInUse(idx, t);
    EntriesBounded(t.D, t.R, t.N, vars);
  }

  /** At most one surviving id has a given rank, and no redundant one. */
  lemma RankPicks(t: Table, SD: nat, K: nat, ss: seq<nat>, si0: seq<nat>, si: seq<nat>, diff0: seq<nat>,
                  diff: seq<nat>, j: nat)
    requires Renumbered(t, SD, K, ss, si0, si, diff0, diff) && t.N <= |si|
    requires j < t.N && !Redundant(t, j)
    ensures Picks(si, t.N, Rank(RedundantMarks(t, t.N), j), j)
  {
    var red := RedundantMarks(t, t.N);
    var k := Rank(red, j);
    forall id | 0 <= id < t.N
      ensures si[id] == k <==> id == j
    {
      if id != j && !Redundant(t, id) {
        if id < j { RankOrder(red, id, j); } else { RankOrder(red, j, id); }
      }
    }
  }

  /** Every surviving index is the rank of one surviving id. */
  lemma SurvivorOf(t: Table, SD: nat, K: nat, ss: seq<nat>, si0: seq<nat>, si: seq<nat>, diff0: seq<nat>,
                   diff: seq<nat>, k: nat)
    requires Renumbered(t, SD, K, ss, si0, si, diff0, diff) && k < K
    ensures exists j :: 0 <= j < t.N && !Redundant(t, j) && Rank(RedundantMarks(t, t.N), j) == k
  {
    RankOnto(RedundantMarks(t, t.N), t.N, k);
  }

  /** The ids of index k number the k-th surviving clause's length. */
  lemma GroupsFill(idx: OccurrenceIndex, t: Table, K: nat, ss: seq<nat>, si0: seq<nat>, si: seq<nat>,
                   diff0: seq<nat>, diff: seq<nat>, k: nat)
    requires Framed(t.D, t.R) && Renumbered(t, t.SD, K, ss, si0, si, diff0, diff) && t.N <= |si| && k < K
    requires |t.O| == t.N
    requires forall j :: 0 <= j < t.N ==>
               RecordsOf(idx, t.D, t.R, t.N, j, t.O[j]) && OwnerSize(t, j) == CountRecs(idx, t.R, t.O[j])
    ensures CountFor(si, Entries(t.D, t.R), |Entries(t.D, t.R)|, k) == ss[k]
  {
    SurvivorOf(t, t.SD, K, ss, si0, si, diff0, diff, k);
    var j :| 0 <= j < t.N && !Redundant(t, j) && Rank(RedundantMarks(t, t.N), j) == k;
    RankPicks(t, t.SD, K, ss, si0, si, diff0, diff, j);
    RecordsCount(idx, si, t.D, t.R, t.N, k, j, t.O[j]);
  }

  /** The renumbered lengths of a stable table and their histogram, from a zero histogram. */
  lemma LengthsCounted(t: Table, K: nat, ss: seq<nat>, si0: seq<nat>, si: seq<nat>, diff: seq<nat>)
    requires Renumbered(t, t.SD, K, ss, si0, si, Zeros(|diff|), diff)
    requires forall j :: 0 <= j < t.N && !Redundant(t, j) ==> OwnerSize(t, j) < |diff|
    ensures Histogram(ss, K, diff)
  {
    forall k | 0 <= k < K
      ensures ss[k] < |diff|
    {
      SurvivorOf(t, t.SD, K, ss, si0, si, Zeros(|diff|), diff, k);
    }
    forall x | 0 <= x < |diff|
      ensures diff[x] == Count(ss, K, x)
    {
      CountMultiset(ss, K, x);
    }
  }

  /** Every length of the histogram is that of a clause, so at most its record count. */
  lemma LengthsSmall(t: Table, K: nat, ss: seq<nat>, si0: seq<nat>, si: seq<nat>,
                     diff: seq<nat>, vars: seq<int>)
    requires Renumbered(t, t.SD, K, ss, si0, si, Zeros(|diff|), diff)
    requires Histogram(ss, K, diff)
    requires forall j :: 0 <= j < t.N ==> OwnerSize(t, j) <= 2 * |vars|
    ensures forall x :: 0 <= x < |diff| && diff[x] != 0 ==> x <= 2 * |vars|
  {
    forall x | 0 <= x < |diff| && diff[x] != 0
      ensures x <= 2 * |vars|
    {
      CountedIsPresent(ss, K, x);
      var k :| 0 <= k < K && ss[k] == x;
      SurvivorOf(t, t.SD, K, ss, si0, si, Zeros(|diff|), diff, k);
    }
  }

  /**
   * The parts of the table the refinement of an empty table t0 by the
   * component leaves that the clause store reads.
   */
  lemma Refined(idx: OccurrenceIndex, t0: Table, component: seq<int>, m: nat)
    requires Stable(idx, t0) && t0.R == [] && idx.Covers(component) && Ascending(component)
    requires t0.SD + Need(idx, component) <= |t0.D| && idx.maxSizeClause <= m
    ensures t0.U >= -1
    ensures var t := RefineVars(idx, t0, component);
            Shapes(idx, t) && Bijection(t) && RecordsMatch(idx, t) && SizesMatch(idx, t)
            && t.N <= |idx.kept| && (forall r :: 0 <= r < |t.R| ==> t.R[r].lit / 2 in component)
            && (forall c :: CountRecs(idx, t.R, c) <= idx.SizeOver(c, component))
            && (forall j :: 0 <= j < t.N && !Redundant(t, j) ==> OwnerSize(t, j) <= m)
  {
    RefineVarsStable(idx, t0, component);
    RefineVarsRecords(idx, t0, component);
    CollectReady(idx, t0, component, m);
    IdsBound(idx, RefineVars(idx, t0, component));
  }

  /**
   * What `storeClauses` may rely on after `collectDistrib`: t is the table
   * the refinement of an empty table t0 by the component leaves, and ss, si
   * and diff the lengths, indices and histogram the compaction leaves from
   * a zero histogram of `maxSizeClause + 1` or more entries.
   */
  lemma CollectedClauses(idx: OccurrenceIndex, t0: Table, component: seq<int>, t: Table, K: nat,
                         ss: seq<nat>, si0: seq<nat>, si: seq<nat>, diff: seq<nat>)
    requires Stable(idx, t0) && t0.R == [] && idx.Covers(component) && Ascending(component)
    requires t0.SD + Need(idx, component) <= |t0.D| && idx.maxSizeClause < |diff|
    requires t == RefineVars(idx, t0, component) && |si0| == |idx.kept|
    requires Renumbered(t, t.SD, K, ss, si0, si, Zeros(|diff|), diff)
    ensures Histogram(ss, K, diff)
    ensures forall x :: 0 <= x < |diff| && diff[x] != 0 ==> x <= 2 * |component|
    ensures Laid(t.D, t.R, t.SD) && Framed(t.D, t.R)
    ensures forall r :: 0 <= r < |t.R| ==> t.D[t.R[r].pos] / 2 in component
    ensures EntriesOver(Entries(t.D, t.R), si, component)
    ensures forall k :: 0 <= k < K ==> CountFor(si, Entries(t.D, t.R), |Entries(t.D, t.R)|, k) == ss[k]
  {
    Refined(idx, t0, component, |diff| - 1);
    LengthsCounted(t, K, ss, si0, si, diff);
    OwnersRecorded(idx, t);
    RecordsOver(idx, t, component);
    forall j | 0 <= j < t.N
      ensures OwnerSize(t, j) <= 2 * |component|
    {
      SizeOverAtMost(idx, t.O[j], component);
    }
    LengthsSmall(t, K, ss, si0, si, diff, component);
    forall k | 0 <= k < K
      ensures CountFor(si, Entries(t.D, t.R), |Entries(t.D, t.R)|, k) == ss[k]
    {
      GroupsFill(idx, t, K, ss, si0, si, Zeros(|diff|), diff, k);
    }
  }

  /**
   * `collectDistrib` from the table `initSortBucket` leaves: what the
   * formula segment needs, and one mark, one group id and one size per
   * kept clause.
   */
  lemma CollectedFromStart(idx: OccurrenceIndex, G: seq<int>, D: seq<nat>, SC: seq<nat>, component: seq<int>,
                           t0: Table, t: Table, K: nat, ss: seq<nat>, si0: seq<nat>, si: seq<nat>,
                           diff0: seq<nat>, diff: seq<nat>)
    requires idx.Valid() && |G| == |idx.kept| && |SC| == |idx.kept| && |si0| == |idx.kept|
    requires idx.Covers(component) && Ascending(component) && Need(idx, component) <= |D|
    requires t0 == StartTable(idx, G, D, SC) && t == RefineVars(idx, t0, component)
    requires idx.maxSizeClause < |diff0| && diff0 == Zeros(|diff0|)
    requires Renumbered(t, t.SD, K, ss, si0, si, diff0, diff)
    ensures KeyStore.Collected(t.D, t.R, t.SD, ss, K, si, diff, component)
    ensures |t.M| == |idx.kept| && |t.G| == |idx.kept| && |t.SC| == |idx.kept|
  {
    EmptyStable(idx, G, SC, D);
    CollectedClauses(idx, t0, component, t, K, ss, si0, si, diff);
    RefineVarsSizes(idx, t0, component);
  }
}
