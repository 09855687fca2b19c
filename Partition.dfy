/**
 * The partition of clauses into buckets that `createDistribWrTLit` refines
 * literal by literal, and the invariant it keeps between two literals.
 *
 * A bucket is a range [start, end) of group ids. Every marked clause c has
 * a ghost group id G[c] inside the range of its bucket, and O is the inverse
 * of G: the clause owning each id. The literal records written into
 * `distrib` list, per literal, the group ids of the clauses holding it.
 */
module Partition {
  import opened Cnf
  import opened Seqs

  /** `BucketSortInfo`: a range of group ids, a split counter and the bucket split off. */
  datatype BucketSortInfo = BucketSortInfo(start: nat, end: nat, counter: nat, redirected: nat)

  /** `BucketSortInfo(n)`: the empty range at n. */
  function NewBucket(n: nat): BucketSortInfo
  {
    BucketSortInfo(n, n, 0, 0)
  }

  /** A default-constructed bucket (what `resize` appends). */
  const DefaultBucket: BucketSortInfo := BucketSortInfo(0, 0, 0, 0)

  /** `reset(s, e)`: the range [s, e) with a zero counter. */
  function Reset(b: BucketSortInfo, s: nat, e: nat): BucketSortInfo
  {
    b.(start := s, end := e, counter := 0)
  }

  /** Id `id` lies in the range of bucket b. */
  predicate InRange(B: seq<BucketSortInfo>, b: int, id: int)
  {
    0 <= b < |B| && B[b].start <= id < B[b].end
  }

  /** A literal record of `distrib`: the literal at `pos`, its id count at `pos + 1`. */
  datatype Rec = Rec(lit: nat, pos: nat)

  /** Clause c is kept and holds literal l. */
  predicate Contains(idx: OccurrenceIndex, l: nat, c: int)
  {
    0 <= c < |idx.kept| && idx.kept[c] && idx.Holds(l, c)
  }

  /** c and c' agree on every recorded literal. */
  predicate SameSig(idx: OccurrenceIndex, R: seq<Rec>, c: int, c': int)
  {
    forall r :: 0 <= r < |R| ==> (Contains(idx, R[r].lit, c) <==> Contains(idx, R[r].lit, c'))
  }

  /** Appending a record refines SameSig by that record's literal. */
  lemma SameSigAppend(idx: OccurrenceIndex, R: seq<Rec>, rc: Rec, c: int, c': int)
    ensures SameSig(idx, R + [rc], c, c') <==>
            SameSig(idx, R, c, c') && (Contains(idx, rc.lit, c) <==> Contains(idx, rc.lit, c'))
  {
    var R' := R + [rc];
    assert forall r :: 0 <= r < |R| ==> R'[r] == R[r];
    assert R'[|R|] == rc;
  }

  /** Number of records whose literal clause c holds. */
  function CountRecs(idx: OccurrenceIndex, R: seq<Rec>, c: int): nat
  {
    if |R| == 0 then 0
    else CountRecs(idx, R[..|R| - 1], c) + (if Contains(idx, R[|R| - 1].lit, c) then 1 else 0)
  }

  lemma CountRecsAppend(idx: OccurrenceIndex, R: seq<Rec>, rc: Rec, c: int)
    ensures CountRecs(idx, R + [rc], c) == CountRecs(idx, R, c) + if Contains(idx, rc.lit, c) then 1 else 0
  {
    assert (R + [rc])[..|R|] == R;
  }

  /** A clause holding no recorded literal counts zero. */
  lemma {:induction false} CountRecsZero(idx: OccurrenceIndex, R: seq<Rec>, c: int)
    requires forall r :: 0 <= r < |R| ==> !Contains(idx, R[r].lit, c)
    ensures CountRecs(idx, R, c) == 0
  {
    if |R| > 0 {
      CountRecsZero(idx, R[..|R| - 1], c);
    }
  }

  /** End of a record: after the literal, the count and the ids. */
  function RecEnd(D: seq<nat>, rc: Rec): nat
    requires rc.pos + 1 < |D|
  {
    rc.pos + 2 + D[rc.pos + 1]
  }

  /** The ids of a record. */
  function Window(D: seq<nat>, rc: Rec): seq<nat>
    requires rc.pos + 1 < |D| && RecEnd(D, rc) <= |D|
  {
    D[rc.pos + 2 .. RecEnd(D, rc)]
  }

  /** The records lie one after the other and fill distrib[0..sd). */
  ghost predicate Laid(D: seq<nat>, R: seq<Rec>, sd: nat)
  {
    sd <= |D|
    && (forall r :: 0 <= r < |R| ==> R[r].pos + 2 <= sd && RecEnd(D, R[r]) <= sd)
    && (|R| == 0 ==> sd == 0)
    && (|R| > 0 ==> R[0].pos == 0 && RecEnd(D, R[|R| - 1]) == sd)
    && (forall r :: 0 <= r < |R| - 1 ==> RecEnd(D, R[r]) == R[r + 1].pos)
  }

  /**
   * The state of the refinement between two literals: bucket table B, the
   * unused bucket U, marks M (`m_markIdx`), the marked list MU
   * (`m_mustUnMark`), N ids in use (`nbClauseInDistrib`), the ghost id
   * G and owner O maps, the records R in distrib D[0..SD), and the
   * per-clause counts SC (`sizeClauses`).
   */
  datatype Table = Table(
    B: seq<BucketSortInfo>, U: int, M: seq<int>, MU: seq<int>, N: nat,
    G: seq<int>, O: seq<int>, R: seq<Rec>, D: seq<nat>, SD: nat, SC: seq<nat>)

  ghost predicate Shapes(idx: OccurrenceIndex, t: Table)
  {
    |t.M| == |idx.kept| && |t.G| == |t.M| && |t.SC| == |t.M|
    && |t.O| == t.N && |t.MU| == t.N && t.N <= t.SD
    && Laid(t.D, t.R, t.SD)
    && (forall c :: 0 <= c < |t.M| ==> -1 <= t.M[c] < |t.B|)
    && (forall b :: 0 <= b < |t.B| ==> t.B[b].start <= t.B[b].end && t.B[b].counter == 0)
  }

  /** G and O are inverse bijections between the marked clauses and [0, N). */
  ghost predicate Bijection(t: Table)
    requires |t.G| == |t.M| && |t.O| == t.N
  {
    (forall c :: 0 <= c < |t.M| && t.M[c] >= 0 ==> 0 <= t.G[c] < t.N && t.O[t.G[c]] == c)
    && (forall id :: 0 <= id < t.N ==> 0 <= t.O[id] < |t.M| && t.M[t.O[id]] >= 0 && t.G[t.O[id]] == id)
  }

  /** The id of a marked clause lies in its bucket's range; each id in a range belongs to that bucket. */
  ghost predicate RangesMatch(idx: OccurrenceIndex, t: Table)
    requires Shapes(idx, t)
  {
    (forall c :: 0 <= c < |t.M| && t.M[c] >= 0 ==> t.B[t.M[c]].start <= t.G[c] < t.B[t.M[c]].end)
    && (forall b, id :: InRange(t.B, b, id) ==> id < t.N && 0 <= t.O[id] < |t.M| && t.M[t.O[id]] == b)
  }

  /** The bucket kept for reuse has an empty range and holds no clause. */
  ghost predicate UnusedFree(t: Table)
  {
    t.U == -1
    || (0 <= t.U < |t.B| && t.B[t.U].start == t.B[t.U].end
        && forall c :: 0 <= c < |t.M| ==> t.M[c] != t.U)
  }

  /** `m_mustUnMark` lists the marked clauses, each once. */
  ghost predicate MarkList(t: Table)
  {
    Distinct(t.MU)
    && (forall j :: 0 <= j < |t.MU| ==> 0 <= t.MU[j] < |t.M| && t.M[t.MU[j]] >= 0)
    && (forall c :: 0 <= c < |t.M| && t.M[c] >= 0 ==> c in t.MU)
  }

  /**
   * Every record holds its literal, a positive count and strictly increasing
   * ids; an id belongs to a record exactly when its owner holds the literal.
   */
  ghost predicate RecordsMatch(idx: OccurrenceIndex, t: Table)
    requires Shapes(idx, t)
  {
    (forall r :: 0 <= r < |t.R| ==>
       t.D[t.R[r].pos] == t.R[r].lit && t.R[r].lit < |idx.occ| && t.D[t.R[r].pos + 1] >= 1
       && Increasing(Window(t.D, t.R[r])))
    && (forall r, j :: 0 <= r < |t.R| && t.R[r].pos + 2 <= j < RecEnd(t.D, t.R[r]) ==> t.D[j] < t.N)
    && (forall r, id :: 0 <= r < |t.R| && 0 <= id < t.N ==>
          (id in Window(t.D, t.R[r]) <==> Contains(idx, t.R[r].lit, t.O[id])))
  }

  /** Two marked clauses share a bucket exactly when they agree on every recorded literal. */
  ghost predicate SigMatch(idx: OccurrenceIndex, t: Table)
  {
    forall c, c' {:trigger SameSig(idx, t.R, c, c')} ::
      0 <= c < |t.M| && 0 <= c' < |t.M| && t.M[c] >= 0 && t.M[c'] >= 0 ==>
        (t.M[c] == t.M[c'] <==> SameSig(idx, t.R, c, c'))
  }

  /** The marked clauses are exactly those holding some recorded literal. */
  ghost predicate Covered(idx: OccurrenceIndex, t: Table)
  {
    (forall c :: 0 <= c < |t.M| && t.M[c] >= 0 ==>
       exists r :: 0 <= r < |t.R| && Contains(idx, t.R[r].lit, c))
    && (forall r, c {:trigger Contains(idx, t.R[r].lit, c)} ::
          0 <= r < |t.R| && Contains(idx, t.R[r].lit, c) ==> 0 <= c < |t.M| && t.M[c] >= 0)
  }

  /** `sizeClauses[c]` counts the records whose literal c holds. */
  ghost predicate SizesMatch(idx: OccurrenceIndex, t: Table)
    requires |t.SC| == |t.M|
  {
    forall c :: 0 <= c < |t.M| && t.M[c] >= 0 ==> t.SC[c] == CountRecs(idx, t.R, c)
  }

  /** The invariant of the refinement between two literals. */
  ghost predicate Stable(idx: OccurrenceIndex, t: Table)
  {
    idx.Valid() && Shapes(idx, t) && Bijection(t) && RangesMatch(idx, t) && UnusedFree(t)
    && MarkList(t) && RecordsMatch(idx, t) && SigMatch(idx, t) && Covered(idx, t)
    && SizesMatch(idx, t)
  }

  /** The marked clause c has its id in the range of its bucket. */
  lemma MarkedInRange(idx: OccurrenceIndex, t: Table, c: int)
    requires Shapes(idx, t) && RangesMatch(idx, t) && 0 <= c < |t.M| && t.M[c] >= 0
    ensures InRange(t.B, t.M[c], t.G[c])
  {}

  /** An id in the range of bucket b belongs to a clause marked to b. */
  lemma RangeOwner(idx: OccurrenceIndex, t: Table, b: int, id: int)
    requires Shapes(idx, t) && RangesMatch(idx, t) && InRange(t.B, b, id)
    ensures id < t.N && 0 <= t.O[id] < |t.M| && t.M[t.O[id]] == b
  {}

  /** RangesMatch from its two halves. */
  lemma RangesFrom(idx: OccurrenceIndex, t: Table)
    requires Shapes(idx, t)
    requires forall c :: 0 <= c < |t.M| && t.M[c] >= 0 ==> InRange(t.B, t.M[c], t.G[c])
    requires forall b, id :: InRange(t.B, b, id) ==> id < t.N && 0 <= t.O[id] < |t.M| && t.M[t.O[id]] == b
    ensures RangesMatch(idx, t)
  {
    forall c | 0 <= c < |t.M| && t.M[c] >= 0
      ensures t.B[t.M[c]].start <= t.G[c] < t.B[t.M[c]].end
    {
      assert InRange(t.B, t.M[c], t.G[c]);
    }
    forall b, id | 0 <= b < |t.B| && t.B[b].start <= id < t.B[b].end
      ensures id < t.N && 0 <= t.O[id] < |t.M| && t.M[t.O[id]] == b
    {
      assert InRange(t.B, b, id);
    }
  }

  /** Covered from its two halves. */
  lemma CoveredFrom(idx: OccurrenceIndex, t: Table)
    requires forall c :: 0 <= c < |t.M| && t.M[c] >= 0 ==>
               exists r :: 0 <= r < |t.R| && Contains(idx, t.R[r].lit, c)
    requires forall r, c {:trigger Contains(idx, t.R[r].lit, c)} ::
               0 <= r < |t.R| && Contains(idx, t.R[r].lit, c) ==> 0 <= c < |t.M| && t.M[c] >= 0
    ensures Covered(idx, t)
  {}

  /** t' agrees with t on everything but the bucket table and the unused bucket. */
  predicate SameContent(t: Table, t': Table)
  {
    t'.M == t.M && t'.G == t.G && t'.O == t.O && t'.R == t.R && t'.D == t.D
    && t'.N == t.N && t'.SD == t.SD && t'.SC == t.SC && t'.MU == t.MU
  }

  lemma BijectionFrame(idx: OccurrenceIndex, t: Table, t': Table)
    requires Shapes(idx, t) && Bijection(t) && SameContent(t, t') && Shapes(idx, t')
    ensures Bijection(t')
  {
  }

  lemma MarkListFrame(idx: OccurrenceIndex, t: Table, t': Table)
    requires Shapes(idx, t) && MarkList(t) && SameContent(t, t') && Shapes(idx, t')
    ensures MarkList(t')
  {
  }

  lemma RecordsFrame(idx: OccurrenceIndex, t: Table, t': Table)
    requires Shapes(idx, t) && RecordsMatch(idx, t) && SameContent(t, t') && Shapes(idx, t')
    ensures RecordsMatch(idx, t')
  {
  }

  lemma SigFrame(idx: OccurrenceIndex, t: Table, t': Table)
    requires SigMatch(idx, t) && SameContent(t, t')
    ensures SigMatch(idx, t')
  {
  }

  lemma CoveredFrame(idx: OccurrenceIndex, t: Table, t': Table)
    requires Covered(idx, t) && SameContent(t, t')
    ensures Covered(idx, t')
  {
  }

  lemma SizesFrame(idx: OccurrenceIndex, t: Table, t': Table)
    requires Shapes(idx, t) && SizesMatch(idx, t) && SameContent(t, t') && Shapes(idx, t')
    ensures SizesMatch(idx, t')
  {
  }

  /** Stability of a table that only differs in its bucket part. */
  lemma StableFrame(idx: OccurrenceIndex, t: Table, t': Table)
    requires Stable(idx, t) && SameContent(t, t')
    requires Shapes(idx, t') && RangesMatch(idx, t') && UnusedFree(t')
    ensures Stable(idx, t')
  {
    BijectionFrame(idx, t, t');
    MarkListFrame(idx, t, t');
    RecordsFrame(idx, t, t');
    SigFrame(idx, t, t');
    CoveredFrame(idx, t, t');
    SizesFrame(idx, t, t');
  }

  /**
   * The state `initSortBucket` leaves: no bucket, no mark, no record; the
   * per-clause counts and the ghost ids may hold anything.
   */
  lemma EmptyStable(idx: OccurrenceIndex, G: seq<int>, SC: seq<nat>, D: seq<nat>)
    requires idx.Valid() && |G| == |idx.kept| && |SC| == |idx.kept|
    ensures Stable(idx, StartTable(idx, G, D, SC))
  {}

  /** The table `initSortBucket` leaves: no bucket, no clause marked, no id, no record. */
  ghost function StartTable(idx: OccurrenceIndex, G: seq<int>, D: seq<nat>, SC: seq<nat>): Table
  {
    Table([], -1, NoMarks(|idx.kept|), [], 0, G, [], [], D, 0, SC)
  }

  /**
   * The ranges of the buckets partition the group ids [0, N): every id lies
   * in the range of the bucket of its owner, and in no other range.
   */
  lemma RangesPartition(idx: OccurrenceIndex, t: Table)
    requires Stable(idx, t)
    ensures forall id :: 0 <= id < t.N ==> 0 <= t.O[id] < |t.M| && InRange(t.B, t.M[t.O[id]], id)
    ensures forall b, id :: InRange(t.B, b, id) ==> 0 <= id < t.N
    ensures forall b, b', id :: InRange(t.B, b, id) && InRange(t.B, b', id) ==> b == b'
  {
    forall id | 0 <= id < t.N
      ensures 0 <= t.O[id] < |t.M| && InRange(t.B, t.M[t.O[id]], id)
    {
      MarkedInRange(idx, t, t.O[id]);
    }
    forall b, id | InRange(t.B, b, id)
      ensures 0 <= id < t.N
    {
      RangeOwner(idx, t, b, id);
    }
  }

  /** The range of bucket b holds as many ids as there are clauses marked to b. */
  lemma RangeSize(idx: OccurrenceIndex, t: Table, b: int)
    requires Shapes(idx, t) && Bijection(t) && RangesMatch(idx, t) && 0 <= b < |t.B|
    ensures t.B[b].end - t.B[b].start == |set c | 0 <= c < |t.M| && t.M[c] == b|
  {
    var lo, hi := t.B[b].start, t.B[b].end;
    forall id | lo <= id < hi
      ensures id < t.N && 0 <= t.O[id] < |t.M| && t.M[t.O[id]] == b
    {
      assert InRange(t.B, b, id);
      RangeOwner(idx, t, b, id);
    }
    var S := set c | 0 <= c < |t.M| && t.M[c] == b;
    forall c | c in S
      ensures lo <= t.G[c] < hi && t.O[t.G[c]] == c
    {
      MarkedInRange(idx, t, c);
    }
    if lo < hi {
      assert InRange(t.B, b, hi - 1);
      RangeOwner(idx, t, b, hi - 1);
      assert forall i, j :: lo <= i < j < hi ==> t.G[t.O[i]] != t.G[t.O[j]];
      InjectiveImage(t.O, lo, hi);
      assert S == set id | lo <= id < hi :: t.O[id];
    } else {
      assert S == {};
    }
  }

  /**
   * The ids recorded for a literal are the union of the ranges of the
   * clauses holding it.
   */
  lemma RecordIsUnion(idx: OccurrenceIndex, t: Table, r: int, id: int)
    requires Stable(idx, t) && 0 <= r < |t.R|
    ensures id in Window(t.D, t.R[r])
            <==> exists c :: Contains(idx, t.R[r].lit, c) && 0 <= c < |t.M| && InRange(t.B, t.M[c], id)
  {
    var l := t.R[r].lit;
    if id in Window(t.D, t.R[r]) {
      var w := Window(t.D, t.R[r]);
      var j :| 0 <= j < |w| && w[j] == id;
      assert t.D[t.R[r].pos + 2 + j] == id;
      MarkedInRange(idx, t, t.O[id]);
    }
    forall c | Contains(idx, l, c) && 0 <= c < |t.M| && InRange(t.B, t.M[c], id)
      ensures id in Window(t.D, t.R[r])
    {
      RangeOwner(idx, t, t.M[c], id);
      assert t.M[c] == t.M[t.O[id]];
      assert SameSig(idx, t.R, c, t.O[id]);
    }
  }

  /** Clauses that agree on every record hold the same number of them. */
  lemma {:induction false} SameSigCount(idx: OccurrenceIndex, R: seq<Rec>, c: int, c': int)
    requires SameSig(idx, R, c, c')
    ensures CountRecs(idx, R, c) == CountRecs(idx, R, c')
  {
    if |R| > 0 {
      var init := R[..|R| - 1];
      assert R == init + [R[|R| - 1]];
      SameSigAppend(idx, init, R[|R| - 1], c, c');
      SameSigCount(idx, init, c, c');
    }
  }

  /** Two clauses of one bucket have the same `sizeClauses`. */
  lemma SameBucketSize(idx: OccurrenceIndex, t: Table, c: int, c': int)
    requires Shapes(idx, t) && SigMatch(idx, t) && SizesMatch(idx, t) && 0 <= c < |t.M| && 0 <= c' < |t.M| && t.M[c] >= 0 && t.M[c] == t.M[c']
    ensures t.SC[c] == t.SC[c']
  {
    assert SameSig(idx, t.R, c, c');
    SameSigCount(idx, t.R, c, c');
  }

  /** At most one group id per clause. */
  lemma IdsBound(idx: OccurrenceIndex, t: Table)
    requires Shapes(idx, t) && Bijection(t)
    ensures t.N <= |t.M|
  {
    assert Distinct(t.O) by {
      assert forall i, j :: 0 <= i < j < |t.O| ==> t.G[t.O[i]] != t.G[t.O[j]];
    }
    DistinctBound(t.O, |t.M|);
  }
}
