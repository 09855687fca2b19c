/**
 * The end of `createDistribWrTLit`: every bucket that received moved
 * members is split (the moved members take the prefix of its range), the
 * own bucket gets the new clauses or is kept for reuse, and the literal's
 * record is closed or retracted. The resulting table is stable again.
 */
module Finish {
  import opened Cnf
  import opened Seqs
  import opened Partition
  import opened Refine

  /** `b.start += b.counter; b.counter = 0`: the part of a split bucket that stays. */
  function Kept(b: BucketSortInfo): BucketSortInfo
  {
    b.(start := b.start + b.counter, counter := 0)
  }

  /** `reset(b.start, b.start + b.counter)` on a fresh bucket: the part split off. */
  function SplitOff(b: BucketSortInfo): BucketSortInfo
  {
    Reset(DefaultBucket, b.start, b.start + b.counter)
  }

  /** Entry i of the bucket table after the split loop. */
  function SplitEntry(B: seq<BucketSortInfo>, I: seq<int>, i: int): BucketSortInfo
  {
    if 0 <= i < |B| then (if B[i].counter > 0 then Kept(B[i]) else B[i])
    else if |B| <= i < |B| + |I| && 0 <= I[i - |B|] < |B| then SplitOff(B[I[i - |B|]])
    else DefaultBucket
  }

  /** The bucket table after `resize` and the split loop over `m_idInVecBucket`. */
  function SplitBuckets(B: seq<BucketSortInfo>, I: seq<int>): (r: seq<BucketSortInfo>)
    ensures |r| == |B| + |I|
  {
    seq(|B| + |I|, i => SplitEntry(B, I, i))
  }

  /** The table left by `createDistribWrTLit(l)` once its scan ended in s. */
  function FinishTable(t0: Table, ob: nat, l: nat, s: Scan): Table
    requires ob < |s.B| && t0.SD + 2 + s.nbElt <= |s.D|
  {
    var B1 := SplitBuckets(s.B, s.I);
    var B2 := if s.counter == 0 then B1 else B1[ob := Reset(B1[ob], t0.N, t0.N + s.counter)];
    var U := if s.counter == 0 then ob else -1;
    if s.nbElt == 0 then
      Table(B2, U, s.M, s.MU, t0.N + s.counter, s.G, s.O, t0.R, s.D, t0.SD, s.SC)
    else
      Table(B2, U, s.M, s.MU, t0.N + s.counter, s.G, s.O, t0.R + [Rec(l, t0.SD)],
            s.D[t0.SD := l][t0.SD + 1 := s.nbElt], t0.SD + 2 + s.nbElt, s.SC)
  }

  /** What holds once the whole list of l is scanned: H is the set of kept clauses holding l. */
  ghost predicate EndCtx(idx: OccurrenceIndex, t0: Table, ob: nat, l: nat, H: set<int>, s: Scan)
  {
    ScanCtx(idx, t0, ob, l) && Core(t0, ob, H, s) && s.counter <= s.nbElt
    && (forall c :: c in H <==> Contains(idx, l, c))
  }

  lemma ScanEnd(idx: OccurrenceIndex, t0: Table, ob: nat, l: nat, s: Scan)
    requires l < |idx.occ| && ScanInv(idx, t0, ob, l, |idx.occ[l]|, s)
    ensures EndCtx(idx, t0, ob, l, Hits(idx, l, |idx.occ[l]|), s)
  {
    assert idx.occ[l][..|idx.occ[l]|] == idx.occ[l];
  }

  /** The split target of a bucket that received moved members, and back. */
  lemma RedIndex(t0: Table, ob: nat, s: Scan, b: int)
    requires Dims(t0, ob, s) && Buckets(t0, ob, s)
    requires 0 <= b < |t0.B| && s.B[b].counter > 0
    ensures |t0.B| <= s.B[b].redirected < |t0.B| + |s.I|
    ensures s.I[s.B[b].redirected - |t0.B|] == b
  {
    var j :| 0 <= j < |s.I| && s.I[j] == b;
  }

  /** Entries of the final bucket table. */
  lemma FinalBuckets(t0: Table, ob: nat, l: nat, s: Scan, i: int)
    requires Dims(t0, ob, s) && Buckets(t0, ob, s)
    requires 0 <= i < |t0.B| + |s.I|
    ensures i < |t0.B| && i != ob ==>
              FinishTable(t0, ob, l, s).B[i] == if s.B[i].counter > 0 then Kept(s.B[i]) else s.B[i]
    ensures i == ob && s.counter == 0 ==> FinishTable(t0, ob, l, s).B[i] == s.B[ob]
    ensures i == ob && s.counter > 0 ==>
              FinishTable(t0, ob, l, s).B[i] == Reset(s.B[ob], t0.N, t0.N + s.counter)
    ensures |t0.B| <= i ==> FinishTable(t0, ob, l, s).B[i] == SplitOff(s.B[s.I[i - |t0.B|]])
    ensures |FinishTable(t0, ob, l, s).B| == |t0.B| + |s.I|
  {
  }

  /** In a distrib that agrees with t0's up to SD, record r of t0 reads as before. */
  lemma OldRecordAt(t0: Table, D: seq<nat>, r: int)
    requires Laid(t0.D, t0.R, t0.SD) && t0.SD <= |D| && D[..t0.SD] == t0.D[..t0.SD] && 0 <= r < |t0.R|
    ensures D[t0.R[r].pos] == t0.D[t0.R[r].pos] && D[t0.R[r].pos + 1] == t0.D[t0.R[r].pos + 1]
    ensures RecEnd(D, t0.R[r]) == RecEnd(t0.D, t0.R[r]) <= t0.SD
    ensures Window(D, t0.R[r]) == Window(t0.D, t0.R[r])
  {
    var rc := t0.R[r];
    assert rc.pos + 2 <= t0.SD && RecEnd(t0.D, rc) <= t0.SD;
    assert D[rc.pos] == D[..t0.SD][rc.pos] == t0.D[..t0.SD][rc.pos] == t0.D[rc.pos];
    assert D[rc.pos + 1] == D[..t0.SD][rc.pos + 1] == t0.D[..t0.SD][rc.pos + 1] == t0.D[rc.pos + 1];
    assert RecEnd(D, rc) == RecEnd(t0.D, rc);
    SliceOfPrefix(D, t0.SD, rc.pos + 2, RecEnd(D, rc));
    SliceOfPrefix(t0.D, t0.SD, rc.pos + 2, RecEnd(D, rc));
  }

  /** In the new distrib the records of t0 read as before. */
  lemma OldRecords(idx: OccurrenceIndex, t0: Table, D: seq<nat>)
    requires Shapes(idx, t0) && t0.SD <= |D| && D[..t0.SD] == t0.D[..t0.SD]
    ensures forall r :: 0 <= r < |t0.R| ==>
              D[t0.R[r].pos] == t0.D[t0.R[r].pos] && D[t0.R[r].pos + 1] == t0.D[t0.R[r].pos + 1]
              && RecEnd(D, t0.R[r]) == RecEnd(t0.D, t0.R[r]) <= t0.SD
              && Window(D, t0.R[r]) == Window(t0.D, t0.R[r])
  {
    forall r | 0 <= r < |t0.R|
      ensures D[t0.R[r].pos] == t0.D[t0.R[r].pos] && D[t0.R[r].pos + 1] == t0.D[t0.R[r].pos + 1]
      ensures RecEnd(D, t0.R[r]) == RecEnd(t0.D, t0.R[r]) <= t0.SD
      ensures Window(D, t0.R[r]) == Window(t0.D, t0.R[r])
    {
      OldRecordAt(t0, D, r);
    }
  }

  /** The new distrib agrees with t0's on its records. */
  lemma FinalPrefix(idx: OccurrenceIndex, t0: Table, ob: nat, l: nat, H: set<int>, s: Scan)
    requires EndCtx(idx, t0, ob, l, H, s)
    ensures var t := FinishTable(t0, ob, l, s);
              t0.SD <= |t.D| && t.D[..t0.SD] == t0.D[..t0.SD]
  {
    var t := FinishTable(t0, ob, l, s);
    assert s.D[..t0.SD + 2] == t0.D[..t0.SD + 2];
    assert t.D[..t0.SD] == s.D[..t0.SD + 2][..t0.SD];
  }

  /** No kept clause holds l when nothing was written for it. */
  lemma NoHitsWhenEmpty(idx: OccurrenceIndex, t0: Table, ob: nat, l: nat, H: set<int>, s: Scan, c: int)
    requires EndCtx(idx, t0, ob, l, H, s) && s.nbElt == 0
    ensures c !in H && !Contains(idx, l, c)
  {
  }

  lemma FinishLaid(idx: OccurrenceIndex, t0: Table, ob: nat, l: nat, H: set<int>, s: Scan)
    requires EndCtx(idx, t0, ob, l, H, s)
    ensures Laid(FinishTable(t0, ob, l, s).D, FinishTable(t0, ob, l, s).R, FinishTable(t0, ob, l, s).SD)
  {
    var t := FinishTable(t0, ob, l, s);
    FinalPrefix(idx, t0, ob, l, H, s);
    OldRecords(idx, t0, t.D);
    if s.nbElt > 0 {
      var rc := Rec(l, t0.SD);
      assert t.R == t0.R + [rc];
      assert RecEnd(t.D, rc) == t.SD;
      forall r | 0 <= r < |t.R| - 1
        ensures RecEnd(t.D, t.R[r]) == t.R[r + 1].pos
      {
        if r + 1 < |t0.R| {
          assert t.R[r] == t0.R[r] && t.R[r + 1] == t0.R[r + 1];
        }
      }
    }
  }

  lemma FinishShapes(idx: OccurrenceIndex, t0: Table, ob: nat, l: nat, H: set<int>, s: Scan)
    requires EndCtx(idx, t0, ob, l, H, s)
    ensures Shapes(idx, FinishTable(t0, ob, l, s))
  {
    var t := FinishTable(t0, ob, l, s);
    FinishLaid(idx, t0, ob, l, H, s);
    forall i | 0 <= i < |t.B|
      ensures t.B[i].start <= t.B[i].end && t.B[i].counter == 0
    {
      FinalBuckets(t0, ob, l, s, i);
      if |t0.B| <= i {
        assert s.I[i - |t0.B|] < |t0.B|;
      }
    }
  }

  lemma FinishBijection(idx: OccurrenceIndex, t0: Table, ob: nat, l: nat, H: set<int>, s: Scan)
    requires EndCtx(idx, t0, ob, l, H, s)
    ensures Shapes(idx, FinishTable(t0, ob, l, s))
    ensures Bijection(FinishTable(t0, ob, l, s)) && MarkList(FinishTable(t0, ob, l, s))
  {
    FinishShapes(idx, t0, ob, l, H, s);
  }

  lemma FinishUnused(idx: OccurrenceIndex, t0: Table, ob: nat, l: nat, H: set<int>, s: Scan)
    requires EndCtx(idx, t0, ob, l, H, s)
    ensures UnusedFree(FinishTable(t0, ob, l, s))
  {
    var t := FinishTable(t0, ob, l, s);
    if s.counter == 0 {
      FinalBuckets(t0, ob, l, s, ob);
      forall c | 0 <= c < |t.M|
        ensures t.M[c] != ob
      {
        if t0.M[c] >= 0 && c in H {
          RedIndex(t0, ob, s, t0.M[c]);
        }
      }
    }
  }

  /** A marked clause's id lies in the final range of its bucket. */
  lemma RangeOfMarked(t0: Table, ob: nat, l: nat, H: set<int>, s: Scan, c: int)
    requires Dims(t0, ob, s) && Buckets(t0, ob, s) && Members(t0, ob, H, s)
    requires 0 <= c < |s.M| && s.M[c] >= 0
    ensures InRange(FinishTable(t0, ob, l, s).B, s.M[c], s.G[c])
  {
    var b := t0.M[c];
    if b >= 0 && c in H {
      RedIndex(t0, ob, s, b);
      FinalBuckets(t0, ob, l, s, s.B[b].redirected);
    } else if b >= 0 {
      FinalBuckets(t0, ob, l, s, b);
    } else {
      FinalBuckets(t0, ob, l, s, ob);
    }
  }

  /** An id in a final range belongs to a clause of that bucket. */
  lemma OwnerOfRange(t0: Table, ob: nat, l: nat, H: set<int>, s: Scan, b: int, id: int)
    requires Dims(t0, ob, s) && Buckets(t0, ob, s) && Members(t0, ob, H, s) && Owners(t0, ob, s)
    requires t0.B[ob].start == t0.B[ob].end
    requires InRange(FinishTable(t0, ob, l, s).B, b, id)
    ensures id < t0.N + s.counter && 0 <= s.O[id] < |s.M| && s.M[s.O[id]] == b
  {
    var nB := |t0.B|;
    FinalBuckets(t0, ob, l, s, b);
    if b < nB && b != ob {
      assert InRange(s.B, b, id);
      var x := s.O[id];
      assert s.G[x] == id;
    } else if b == ob {
      if s.counter == 0 {
        assert false;
      }
    } else {
      var bb := s.I[b - nB];
      assert InRange(s.B, bb, id);
      var x := s.O[id];
      assert s.G[x] == id;
    }
  }

  lemma FinishRanges(idx: OccurrenceIndex, t0: Table, ob: nat, l: nat, H: set<int>, s: Scan)
    requires EndCtx(idx, t0, ob, l, H, s)
    ensures Shapes(idx, FinishTable(t0, ob, l, s))
    ensures RangesMatch(idx, FinishTable(t0, ob, l, s))
  {
    FinishShapes(idx, t0, ob, l, H, s);
    var t := FinishTable(t0, ob, l, s);
    forall c | 0 <= c < |t.M| && t.M[c] >= 0
      ensures InRange(t.B, t.M[c], t.G[c])
    {
      RangeOfMarked(t0, ob, l, H, s, c);
    }
    forall b, id | InRange(t.B, b, id)
      ensures id < t.N && 0 <= t.O[id] < |t.M| && t.M[t.O[id]] == b
    {
      OwnerOfRange(t0, ob, l, H, s, b, id);
    }
    RangesFrom(idx, t);
  }

  /**
   * The owner of an old id now is a clause of the same t0 bucket as its
   * owner in t0, so both agree on every old record.
   */
  lemma OwnerSameSig(idx: OccurrenceIndex, t0: Table, ob: nat, l: nat, H: set<int>, s: Scan, id: int)
    requires EndCtx(idx, t0, ob, l, H, s) && 0 <= id < t0.N
    ensures 0 <= s.O[id] < |s.M| && t0.M[s.O[id]] >= 0
    ensures SameSig(idx, t0.R, s.O[id], t0.O[id])
  {
    var x0 := t0.O[id];
    var b := t0.M[x0];
    assert InRange(t0.B, b, id);
    assert InRange(s.B, b, id);
    var x := s.O[id];
    assert t0.M[x] == b;
    assert SameSig(idx, t0.R, x, x0);
  }

  /** An id handed out in this refinement is in no old record. */
  lemma FreshIdOutside(idx: OccurrenceIndex, t0: Table, ob: nat, l: nat, H: set<int>, s: Scan, r: int, id: int)
    requires EndCtx(idx, t0, ob, l, H, s)
    requires 0 <= r < |t0.R| && t0.N <= id < t0.N + s.counter
    ensures id !in Window(t0.D, t0.R[r]) && !Contains(idx, t0.R[r].lit, s.O[id])
  {
    assert t0.M[s.O[id]] == -1;
  }

  /** An id t0 had already handed out keeps its membership in every old record. */
  lemma OldIdInside(idx: OccurrenceIndex, t0: Table, ob: nat, l: nat, H: set<int>, s: Scan, r: int, id: int)
    requires EndCtx(idx, t0, ob, l, H, s)
    requires 0 <= r < |t0.R| && 0 <= id < t0.N
    ensures id in Window(t0.D, t0.R[r]) <==> Contains(idx, t0.R[r].lit, s.O[id])
  {
    OwnerSameSig(idx, t0, ob, l, H, s, id);
    assert id in Window(t0.D, t0.R[r]) <==> Contains(idx, t0.R[r].lit, t0.O[id]);
    assert Contains(idx, t0.R[r].lit, s.O[id]) <==> Contains(idx, t0.R[r].lit, t0.O[id]);
  }

  lemma RecordOld(idx: OccurrenceIndex, t0: Table, ob: nat, l: nat, H: set<int>, s: Scan, r: int, id: int)
    requires EndCtx(idx, t0, ob, l, H, s)
    requires 0 <= r < |t0.R| && 0 <= id < t0.N + s.counter
    ensures id in Window(t0.D, t0.R[r]) <==> Contains(idx, t0.R[r].lit, s.O[id])
  {
    if id < t0.N {
      OldIdInside(idx, t0, ob, l, H, s, r, id);
    } else {
      FreshIdOutside(idx, t0, ob, l, H, s, r, id);
    }
  }

  /** The record written for l holds exactly the ids written during the scan. */
  lemma ClosedWindow(t0: Table, ob: nat, l: nat, s: Scan)
    requires ob < |s.B| && t0.SD + 2 + s.nbElt <= |s.D| && s.nbElt > 0
    ensures Window(FinishTable(t0, ob, l, s).D, Rec(l, t0.SD)) == Written(t0, s)
  {
  }

  lemma RecordNew(idx: OccurrenceIndex, t0: Table, ob: nat, l: nat, H: set<int>, s: Scan, id: int)
    requires Dims(t0, ob, s) && Owners(t0, ob, s) && WindowOk(t0, ob, H, s)
    requires forall c :: c in H <==> Contains(idx, l, c)
    requires 0 <= id < t0.N + s.counter
    ensures id in Written(t0, s) <==> Contains(idx, l, s.O[id])
  {
    var W := Written(t0, s);
    if id in W {
      var j :| 0 <= j < |W| && W[j] == id;
      assert s.O[W[j]] in H;
    }
    if Contains(idx, l, s.O[id]) {
      assert s.O[id] in H;
    }
  }

  /** Record r of t satisfies the three clauses of `RecordsMatch`. */
  ghost predicate RecordOk(idx: OccurrenceIndex, t: Table, r: int)
    requires Laid(t.D, t.R, t.SD) && |t.O| == t.N && 0 <= r < |t.R|
  {
    t.D[t.R[r].pos] == t.R[r].lit && t.R[r].lit < |idx.occ| && t.D[t.R[r].pos + 1] >= 1
    && Increasing(Window(t.D, t.R[r]))
    && (forall j :: t.R[r].pos + 2 <= j < RecEnd(t.D, t.R[r]) ==> t.D[j] < t.N)
    && (forall id :: 0 <= id < t.N ==> (id in Window(t.D, t.R[r]) <==> Contains(idx, t.R[r].lit, t.O[id])))
  }

  /** Every id in use after the pass is in an old record exactly when its owner holds the literal. */
  lemma OldRecordIds(idx: OccurrenceIndex, t0: Table, ob: nat, l: nat, H: set<int>, s: Scan, r: int)
    requires EndCtx(idx, t0, ob, l, H, s) && 0 <= r < |t0.R|
    ensures forall id :: 0 <= id < t0.N + s.counter ==>
              (id in Window(t0.D, t0.R[r]) <==> Contains(idx, t0.R[r].lit, s.O[id]))
  {
    forall id | 0 <= id < t0.N + s.counter
      ensures id in Window(t0.D, t0.R[r]) <==> Contains(idx, t0.R[r].lit, s.O[id])
    {
      RecordOld(idx, t0, ob, l, H, s, r, id);
    }
  }

  /** A record of t0 stays valid in a table t that keeps t0's records and ids and agrees on their membership. */
  lemma KeptRecordOk(idx: OccurrenceIndex, t0: Table, t: Table, r: int)
    requires Laid(t0.D, t0.R, t0.SD) && |t0.O| == t0.N && 0 <= r < |t0.R| && RecordOk(idx, t0, r)
    requires Laid(t.D, t.R, t.SD) && |t.O| == t.N && t0.N <= t.N
    requires r < |t.R| && t.R[r] == t0.R[r]
    requires t0.SD <= |t.D| && t.D[..t0.SD] == t0.D[..t0.SD]
    requires forall id :: 0 <= id < t.N ==>
               (id in Window(t0.D, t0.R[r]) <==> Contains(idx, t0.R[r].lit, t.O[id]))
    ensures RecordOk(idx, t, r)
  {
    OldRecordAt(t0, t.D, r);
    var rc := t0.R[r];
    var W := Window(t.D, rc);
    assert W == Window(t0.D, rc);
    forall j | rc.pos + 2 <= j < RecEnd(t.D, rc)
      ensures t.D[j] < t.N
    {
      assert t.D[j] == W[j - rc.pos - 2];
      assert t0.D[j] == Window(t0.D, rc)[j - rc.pos - 2];
    }
  }

  lemma FinalOldRecord(idx: OccurrenceIndex, t0: Table, ob: nat, l: nat, H: set<int>, s: Scan, r: int)
    requires EndCtx(idx, t0, ob, l, H, s) && 0 <= r < |t0.R|
    requires Laid(FinishTable(t0, ob, l, s).D, FinishTable(t0, ob, l, s).R, FinishTable(t0, ob, l, s).SD)
    ensures RecordOk(idx, FinishTable(t0, ob, l, s), r)
  {
    var t := FinishTable(t0, ob, l, s);
    FinalPrefix(idx, t0, ob, l, H, s);
    OldRecordIds(idx, t0, ob, l, H, s, r);
    assert t.R[r] == t0.R[r];
    assert RecordOk(idx, t0, r);
    KeptRecordOk(idx, t0, t, r);
  }

  lemma FinalNewRecord(idx: OccurrenceIndex, t0: Table, ob: nat, l: nat, H: set<int>, s: Scan)
    requires l < |idx.occ| && s.nbElt > 0
    requires Dims(t0, ob, s) && Owners(t0, ob, s) && WindowOk(t0, ob, H, s)
    requires forall c :: c in H <==> Contains(idx, l, c)
    requires Laid(FinishTable(t0, ob, l, s).D, FinishTable(t0, ob, l, s).R, FinishTable(t0, ob, l, s).SD)
    ensures RecordOk(idx, FinishTable(t0, ob, l, s), |t0.R|)
  {
    var t := FinishTable(t0, ob, l, s);
    var W := Written(t0, s);
    NewRecordShape(t0, ob, l, s, t);
    forall id | 0 <= id < t.N
      ensures id in W <==> Contains(idx, l, t.O[id])
    {
      RecordNew(idx, t0, ob, l, H, s, id);
    }
    NewRecordOk(idx, t, |t0.R|, l, W);
  }

  /** The record the pass appends: literal l, its count, and the ids written. */
  lemma NewRecordShape(t0: Table, ob: nat, l: nat, s: Scan, t: Table)
    requires ob < |s.B| && t0.SD + 2 + s.nbElt <= |s.D| && s.nbElt > 0
    requires t == FinishTable(t0, ob, l, s)
    ensures |t.R| == |t0.R| + 1 && t.R[|t0.R|] == Rec(l, t0.SD)
    ensures t0.SD + 1 < |t.D| && t.D[t0.SD] == l && t.D[t0.SD + 1] == s.nbElt
    ensures t.N == t0.N + s.counter && t.O == s.O
    ensures RecEnd(t.D, t.R[|t0.R|]) <= |t.D| && Window(t.D, t.R[|t0.R|]) == Written(t0, s)
  {
    ClosedWindow(t0, ob, l, s);
  }

  /** A record with literal l whose window W is increasing and holds exactly the ids of l's clauses. */
  lemma NewRecordOk(idx: OccurrenceIndex, t: Table, r: nat, l: nat, W: seq<nat>)
    requires Laid(t.D, t.R, t.SD) && |t.O| == t.N && r < |t.R|
    requires t.R[r].lit == l && t.D[t.R[r].pos] == l && l < |idx.occ| && t.D[t.R[r].pos + 1] >= 1
    requires Window(t.D, t.R[r]) == W && Increasing(W)
    requires forall j :: 0 <= j < |W| ==> W[j] < t.N
    requires forall id :: 0 <= id < t.N ==> (id in W <==> Contains(idx, l, t.O[id]))
    ensures RecordOk(idx, t, r)
  {
    forall j | t.R[r].pos + 2 <= j < RecEnd(t.D, t.R[r])
      ensures t.D[j] < t.N
    {
      assert t.D[j] == W[j - t.R[r].pos - 2];
    }
  }

  lemma RecordsFromOk(idx: OccurrenceIndex, t: Table)
    requires Shapes(idx, t) && forall r :: 0 <= r < |t.R| ==> RecordOk(idx, t, r)
    ensures RecordsMatch(idx, t)
  {
    forall r | 0 <= r < |t.R|
      ensures t.D[t.R[r].pos] == t.R[r].lit && t.R[r].lit < |idx.occ| && t.D[t.R[r].pos + 1] >= 1
      ensures Increasing(Window(t.D, t.R[r]))
    {
      assert RecordOk(idx, t, r);
    }
    forall r, j | 0 <= r < |t.R| && t.R[r].pos + 2 <= j < RecEnd(t.D, t.R[r])
      ensures t.D[j] < t.N
    {
      assert RecordOk(idx, t, r);
    }
    forall r, id | 0 <= r < |t.R| && 0 <= id < t.N
      ensures id in Window(t.D, t.R[r]) <==> Contains(idx, t.R[r].lit, t.O[id])
    {
      assert RecordOk(idx, t, r);
    }
  }

  lemma FinishRecords(idx: OccurrenceIndex, t0: Table, ob: nat, l: nat, H: set<int>, s: Scan)
    requires EndCtx(idx, t0, ob, l, H, s)
    ensures Shapes(idx, FinishTable(t0, ob, l, s)) && RecordsMatch(idx, FinishTable(t0, ob, l, s))
  {
    var t := FinishTable(t0, ob, l, s);
    FinishShapes(idx, t0, ob, l, H, s);
    forall r | 0 <= r < |t.R|
      ensures RecordOk(idx, t, r)
    {
      if r < |t0.R| {
        FinalOldRecord(idx, t0, ob, l, H, s, r);
      } else {
        FinalNewRecord(idx, t0, ob, l, H, s);
      }
    }
    RecordsFromOk(idx, t);
  }

  /** A clause first marked in this pass holds no literal recorded before. */
  lemma NoOldLiteral(idx: OccurrenceIndex, t0: Table, ob: nat, l: nat, H: set<int>, s: Scan, c: int, r: int)
    requires EndCtx(idx, t0, ob, l, H, s) && 0 <= c < |s.M| && t0.M[c] == -1 && 0 <= r < |t0.R|
    ensures !Contains(idx, t0.R[r].lit, c)
  {
  }

  /** A clause marked at t0 holds some recorded literal. */
  lemma SomeOldLiteral(idx: OccurrenceIndex, t0: Table, ob: nat, l: nat, H: set<int>, s: Scan, c: int)
    returns (r: int)
    requires EndCtx(idx, t0, ob, l, H, s) && 0 <= c < |s.M| && t0.M[c] >= 0
    ensures 0 <= r < |t0.R| && Contains(idx, t0.R[r].lit, c)
  {
    r :| 0 <= r < |t0.R| && Contains(idx, t0.R[r].lit, c);
  }

  /** Two clauses marked after the scan share a bucket iff they agreed before and agree on l. */
  lemma SigPair(idx: OccurrenceIndex, t0: Table, ob: nat, l: nat, H: set<int>, s: Scan, c: int, c': int)
    requires EndCtx(idx, t0, ob, l, H, s)
    requires 0 <= c < |s.M| && 0 <= c' < |s.M| && s.M[c] >= 0 && s.M[c'] >= 0
    ensures s.M[c] == s.M[c'] <==> SameSig(idx, t0.R, c, c') && (c in H <==> c' in H)
  {
    if t0.M[c] >= 0 && t0.M[c'] >= 0 {
      OldPair(idx, t0, ob, l, H, s, c, c');
    } else if t0.M[c] == -1 && t0.M[c'] == -1 {
      NewPair(idx, t0, ob, l, H, s, c, c');
    } else if t0.M[c] == -1 {
      OldAgainstNew(idx, t0, ob, l, H, s, c', c);
    } else {
      OldAgainstNew(idx, t0, ob, l, H, s, c, c');
    }
  }

  /** Two clauses marked at t0: same final bucket iff same bucket at t0 and same answer for l. */
  lemma OldPair(idx: OccurrenceIndex, t0: Table, ob: nat, l: nat, H: set<int>, s: Scan, c: int, c': int)
    requires EndCtx(idx, t0, ob, l, H, s)
    requires 0 <= c < |s.M| && 0 <= c' < |s.M| && t0.M[c] >= 0 && t0.M[c'] >= 0
    ensures s.M[c] == s.M[c'] <==> SameSig(idx, t0.R, c, c') && (c in H <==> c' in H)
  {
    assert t0.M[c] == t0.M[c'] <==> SameSig(idx, t0.R, c, c');
    OldMoves(t0, ob, H, s, c, c');
  }

  /** Where two clauses marked at t0 end: hit members of one bucket together, apart from the rest. */
  lemma OldMoves(t0: Table, ob: nat, H: set<int>, s: Scan, c: int, c': int)
    requires Dims(t0, ob, s) && Buckets(t0, ob, s) && Members(t0, ob, H, s)
    requires 0 <= c < |s.M| && 0 <= c' < |s.M| && t0.M[c] >= 0 && t0.M[c'] >= 0
    ensures s.M[c] == s.M[c'] <==> t0.M[c] == t0.M[c'] && (c in H <==> c' in H)
  {
    if c in H {
      RedIndex(t0, ob, s, t0.M[c]);
    }
    if c' in H {
      RedIndex(t0, ob, s, t0.M[c']);
    }
  }

  /** Two clauses first marked in this pass share the own bucket and agree on all old records. */
  lemma NewPair(idx: OccurrenceIndex, t0: Table, ob: nat, l: nat, H: set<int>, s: Scan, c: int, c': int)
    requires EndCtx(idx, t0, ob, l, H, s)
    requires 0 <= c < |s.M| && 0 <= c' < |s.M| && s.M[c] >= 0 && s.M[c'] >= 0
    requires t0.M[c] == -1 && t0.M[c'] == -1
    ensures s.M[c] == s.M[c'] && SameSig(idx, t0.R, c, c') && c in H && c' in H
  {
    forall r | 0 <= r < |t0.R|
      ensures Contains(idx, t0.R[r].lit, c) <==> Contains(idx, t0.R[r].lit, c')
    {
      NoOldLiteral(idx, t0, ob, l, H, s, c, r);
      NoOldLiteral(idx, t0, ob, l, H, s, c', r);
    }
  }

  /** A clause marked at t0 and one first marked now end in different buckets and differ on a record. */
  lemma OldAgainstNew(idx: OccurrenceIndex, t0: Table, ob: nat, l: nat, H: set<int>, s: Scan, c: int, c': int)
    requires EndCtx(idx, t0, ob, l, H, s)
    requires 0 <= c < |s.M| && 0 <= c' < |s.M| && s.M[c'] >= 0
    requires t0.M[c] >= 0 && t0.M[c'] == -1
    ensures s.M[c] != s.M[c'] && s.M[c'] != s.M[c]
    ensures !SameSig(idx, t0.R, c, c') && !SameSig(idx, t0.R, c', c)
  {
    if c in H {
      RedIndex(t0, ob, s, t0.M[c]);
    }
    var r := SomeOldLiteral(idx, t0, ob, l, H, s, c);
    NoOldLiteral(idx, t0, ob, l, H, s, c', r);
  }

  lemma FinishSig(idx: OccurrenceIndex, t0: Table, ob: nat, l: nat, H: set<int>, s: Scan)
    requires EndCtx(idx, t0, ob, l, H, s)
    ensures SigMatch(idx, FinishTable(t0, ob, l, s))
  {
    var t := FinishTable(t0, ob, l, s);
    forall c, c' | 0 <= c < |t.M| && 0 <= c' < |t.M| && t.M[c] >= 0 && t.M[c'] >= 0
      ensures t.M[c] == t.M[c'] <==> SameSig(idx, t.R, c, c')
    {
      SigPair(idx, t0, ob, l, H, s, c, c');
      if s.nbElt == 0 {
        NoHitsWhenEmpty(idx, t0, ob, l, H, s, c);
        NoHitsWhenEmpty(idx, t0, ob, l, H, s, c');
      } else {
        SameSigAppend(idx, t0.R, Rec(l, t0.SD), c, c');
      }
    }
  }

  /** A clause that holds a literal of the final records is marked after the scan. */
  lemma MarkedAfter(idx: OccurrenceIndex, t0: Table, ob: nat, l: nat, H: set<int>, s: Scan, c: int)
    requires EndCtx(idx, t0, ob, l, H, s) && 0 <= c < |s.M|
    requires t0.M[c] >= 0 || c in H
    ensures s.M[c] >= 0
  {
    if t0.M[c] >= 0 && c in H {
      RedIndex(t0, ob, s, t0.M[c]);
    }
  }

  lemma CoverOne(idx: OccurrenceIndex, t0: Table, ob: nat, l: nat, H: set<int>, s: Scan, c: int)
    returns (r: int)
    requires EndCtx(idx, t0, ob, l, H, s) && 0 <= c < |s.M| && s.M[c] >= 0
    ensures 0 <= r < |FinishTable(t0, ob, l, s).R|
    ensures Contains(idx, FinishTable(t0, ob, l, s).R[r].lit, c)
  {
    var t := FinishTable(t0, ob, l, s);
    if t0.M[c] >= 0 {
      r := SomeOldLiteral(idx, t0, ob, l, H, s, c);
      assert t.R[r] == t0.R[r];
    } else {
      assert c in H;
      if s.nbElt == 0 {
        NoHitsWhenEmpty(idx, t0, ob, l, H, s, c);
      }
      r := |t0.R|;
      assert t.R[r] == Rec(l, t0.SD);
    }
  }

  lemma FinishCovered(idx: OccurrenceIndex, t0: Table, ob: nat, l: nat, H: set<int>, s: Scan)
    requires EndCtx(idx, t0, ob, l, H, s)
    ensures Covered(idx, FinishTable(t0, ob, l, s))
  {
    var t := FinishTable(t0, ob, l, s);
    forall c | 0 <= c < |t.M| && t.M[c] >= 0
      ensures exists r :: 0 <= r < |t.R| && Contains(idx, t.R[r].lit, c)
    {
      var r := CoverOne(idx, t0, ob, l, H, s, c);
    }
    forall r, c | 0 <= r < |t.R| && Contains(idx, t.R[r].lit, c)
      ensures 0 <= c < |t.M| && t.M[c] >= 0
    {
      if r < |t0.R| {
        assert t.R[r] == t0.R[r];
      } else {
        assert t.R[r] == Rec(l, t0.SD);
      }
      MarkedAfter(idx, t0, ob, l, H, s, c);
    }
    CoveredFrom(idx, t);
  }

  lemma SizeOne(idx: OccurrenceIndex, t0: Table, ob: nat, l: nat, H: set<int>, s: Scan, c: int)
    requires EndCtx(idx, t0, ob, l, H, s) && 0 <= c < |s.M| && s.M[c] >= 0
    ensures s.SC[c] == CountRecs(idx, FinishTable(t0, ob, l, s).R, c)
  {
    var t := FinishTable(t0, ob, l, s);
    if t0.M[c] == -1 {
      forall r | 0 <= r < |t0.R|
        ensures !Contains(idx, t0.R[r].lit, c)
      {
        NoOldLiteral(idx, t0, ob, l, H, s, c, r);
      }
      CountRecsZero(idx, t0.R, c);
    }
    if s.nbElt == 0 {
      NoHitsWhenEmpty(idx, t0, ob, l, H, s, c);
    } else {
      CountRecsAppend(idx, t0.R, Rec(l, t0.SD), c);
    }
  }

  lemma FinishSizes(idx: OccurrenceIndex, t0: Table, ob: nat, l: nat, H: set<int>, s: Scan)
    requires EndCtx(idx, t0, ob, l, H, s)
    ensures |FinishTable(t0, ob, l, s).SC| == |FinishTable(t0, ob, l, s).M|
    ensures SizesMatch(idx, FinishTable(t0, ob, l, s))
  {
    var t := FinishTable(t0, ob, l, s);
    forall c | 0 <= c < |t.M| && t.M[c] >= 0
      ensures t.SC[c] == CountRecs(idx, t.R, c)
    {
      SizeOne(idx, t0, ob, l, H, s, c);
    }
  }

  /**
   * One refinement step keeps the invariant: after scanning the whole
   * occurrence list of l and closing the pass, the table is stable again,
   * with one more record exactly when a kept clause holds l.
   */
  lemma FinishStable(idx: OccurrenceIndex, t0: Table, ob: nat, l: nat, s: Scan)
    requires l < |idx.occ| && ScanInv(idx, t0, ob, l, |idx.occ[l]|, s)
    ensures Stable(idx, FinishTable(t0, ob, l, s))
    ensures s.nbElt == idx.KeptCount(l, |idx.occ[l]|)
    ensures FinishTable(t0, ob, l, s).R ==
            if s.nbElt == 0 then t0.R else t0.R + [Rec(l, t0.SD)]
    ensures s.counter == 0 ==> FinishTable(t0, ob, l, s).U == ob
  {
    var H := Hits(idx, l, |idx.occ[l]|);
    ScanEnd(idx, t0, ob, l, s);
    FinishBijection(idx, t0, ob, l, H, s);
    FinishRanges(idx, t0, ob, l, H, s);
    FinishUnused(idx, t0, ob, l, H, s);
    FinishRecords(idx, t0, ob, l, H, s);
    FinishSig(idx, t0, ob, l, H, s);
    FinishCovered(idx, t0, ob, l, H, s);
    FinishSizes(idx, t0, ob, l, H, s);
  }

  /** `getIdxBucketSortInfo`: the bucket a pass takes as its own, and the table once it is taken. */
  function ReservedIdx(t: Table): nat
    requires t.U >= -1
  {
    if t.U == -1 then |t.B| else t.U
  }

  function Reserved(t: Table): Table
  {
    if t.U == -1 then t.(B := t.B + [NewBucket(t.N)]) else t.(U := -1)
  }

  /** A new empty bucket at N keeps a table with no unused bucket stable. */
  lemma AppendBucketStable(idx: OccurrenceIndex, t: Table)
    requires Stable(idx, t) && t.U == -1
    ensures Stable(idx, t.(B := t.B + [NewBucket(t.N)]))
    ensures forall c :: 0 <= c < |t.M| ==> t.M[c] != |t.B|
  {
    var t' := t.(B := t.B + [NewBucket(t.N)]);
    assert Shapes(idx, t');
    forall c | 0 <= c < |t'.M| && t'.M[c] >= 0
      ensures t'.B[t'.M[c]].start <= t'.G[c] < t'.B[t'.M[c]].end
    {
      MarkedInRange(idx, t, c);
      assert t'.B[t.M[c]] == t.B[t.M[c]];
    }
    forall b, id | 0 <= b < |t'.B| && t'.B[b].start <= id < t'.B[b].end
      ensures id < t'.N && 0 <= t'.O[id] < |t'.M| && t'.M[t'.O[id]] == b
    {
      assert b < |t.B|;
      assert t'.B[b] == t.B[b];
      RangeOwner(idx, t, b, id);
    }
    assert RangesMatch(idx, t');
    StableFrame(idx, t, t');
  }

  /** Taking the unused bucket keeps the table stable. */
  lemma ReuseBucketStable(idx: OccurrenceIndex, t: Table)
    requires Stable(idx, t) && t.U != -1
    ensures Stable(idx, t.(U := -1))
  {
    var t' := t.(U := -1);
    assert t'.B == t.B && SameContent(t, t');
    assert Shapes(idx, t');
    forall c | 0 <= c < |t'.M| && t'.M[c] >= 0
      ensures t'.B[t'.M[c]].start <= t'.G[c] < t'.B[t'.M[c]].end
    {
      MarkedInRange(idx, t, c);
    }
    forall b, id | 0 <= b < |t'.B| && t'.B[b].start <= id < t'.B[b].end
      ensures id < t'.N && 0 <= t'.O[id] < |t'.M| && t'.M[t'.O[id]] == b
    {
      RangeOwner(idx, t, b, id);
    }
    assert RangesMatch(idx, t');
    StableFrame(idx, t, t');
  }

  /**
   * Taking the own bucket keeps the table stable and gives the scan its
   * context: an empty range no clause is marked to.
   */
  lemma ReserveCtx(idx: OccurrenceIndex, t: Table, l: nat)
    requires Stable(idx, t) && l < |idx.occ| && t.SD + 2 + |idx.occ[l]| <= |t.D|
    ensures ScanCtx(idx, Reserved(t), ReservedIdx(t), l)
  {
    if t.U == -1 {
      AppendBucketStable(idx, t);
    } else {
      ReuseBucketStable(idx, t);
    }
  }

  /** Every bucket listed in I received moved members, and I[j] is split into bucket |B| + j. */
  ghost predicate SplitTargets(B: seq<BucketSortInfo>, I: seq<int>)
  {
    forall j :: 0 <= j < |I| ==> 0 <= I[j] < |B| && B[I[j]].counter > 0 && B[I[j]].redirected == |B| + j
  }

  /** The bucket table once the split loop has handled the first j entries of I. */
  function PartialSplit(B: seq<BucketSortInfo>, I: seq<int>, j: nat): (r: seq<BucketSortInfo>)
    requires j <= |I|
    ensures |r| == |B| + |I|
  {
    seq(|B| + |I|, i =>
      if 0 <= i < |B| then (if i in I[..j] then Kept(B[i]) else B[i])
      else if |B| <= i && i - |B| < j && 0 <= I[i - |B|] < |B| then SplitOff(B[I[i - |B|]])
      else DefaultBucket)
  }

  /** Entry i after one round of the split loop. */
  lemma SplitStepAt(B: seq<BucketSortInfo>, I: seq<int>, j: nat, i: int)
    requires SplitTargets(B, I) && j < |I| && 0 <= i < |B| + |I|
    ensures PartialSplit(B, I, j)[|B| + j := SplitOff(B[I[j]])][I[j] := Kept(B[I[j]])][i]
            == PartialSplit(B, I, j + 1)[i]
  {
    var V, P1 := PartialSplit(B, I, j), PartialSplit(B, I, j + 1);
    var Q := V[|B| + j := SplitOff(B[I[j]])][I[j] := Kept(B[I[j]])];
    assert I[..j + 1] == I[..j] + [I[j]];
    if i == I[j] {
      assert Q[i] == Kept(B[i]) && i in I[..j + 1];
    } else if i < |B| {
      assert Q[i] == V[i];
      assert i in I[..j + 1] <==> i in I[..j];
    } else if i == |B| + j {
      assert Q[i] == SplitOff(B[I[j]]);
    } else {
      assert Q[i] == V[i];
    }
  }

  /** One round of the split loop: bucket I[j] keeps the suffix, bucket |B| + j receives the prefix. */
  lemma SplitStep(B: seq<BucketSortInfo>, I: seq<int>, j: nat, V: seq<BucketSortInfo>)
    requires SplitTargets(B, I) && j < |I| && V == PartialSplit(B, I, j)
    ensures 0 <= I[j] < |V| && V[I[j]].redirected == |B| + j < |V|
    ensures V[V[I[j]].redirected := Reset(V[V[I[j]].redirected], V[I[j]].start, V[I[j]].start + V[I[j]].counter)]
             [I[j] := Kept(V[I[j]])]
            == PartialSplit(B, I, j + 1)
  {
    SplitStepEntries(B, I, j, V);
    var b := B[I[j]];
    assert Reset(DefaultBucket, b.start, b.start + b.counter) == SplitOff(b);
    SplitStepExt(B, I, j, V, V[|B| + j := SplitOff(b)][I[j] := Kept(b)]);
  }

  /** Before round j, bucket I[j] is untouched and bucket |B| + j is fresh. */
  lemma SplitStepEntries(B: seq<BucketSortInfo>, I: seq<int>, j: nat, V: seq<BucketSortInfo>)
    requires SplitTargets(B, I) && j < |I| && V == PartialSplit(B, I, j)
    ensures 0 <= I[j] < |B| && |B| + j < |V| && V[I[j]] == B[I[j]] && B[I[j]].redirected == |B| + j
    ensures V[|B| + j] == DefaultBucket
  {
    assert forall j' :: 0 <= j' < j ==> I[j'] != I[j];
    assert I[j] !in I[..j];
  }

  /** Round j turns the table after j rounds into the one after j + 1 rounds. */
  lemma SplitStepExt(B: seq<BucketSortInfo>, I: seq<int>, j: nat, V: seq<BucketSortInfo>, Q: seq<BucketSortInfo>)
    requires SplitTargets(B, I) && j < |I| && V == PartialSplit(B, I, j)
    requires 0 <= I[j] < |B| && Q == V[|B| + j := SplitOff(B[I[j]])][I[j] := Kept(B[I[j]])]
    ensures Q == PartialSplit(B, I, j + 1)
  {
    var P1 := PartialSplit(B, I, j + 1);
    forall i | 0 <= i < |Q|
      ensures Q[i] == P1[i]
    {
      SplitStepAt(B, I, j, i);
    }
    assert Q == P1;
  }

  /** At the end of a scan the buckets listed in I are exactly those that received moved members. */
  lemma EndSplit(idx: OccurrenceIndex, t0: Table, ob: nat, l: nat, s: Scan)
    requires l < |idx.occ| && ScanInv(idx, t0, ob, l, |idx.occ[l]|, s)
    ensures SplitTargets(s.B, s.I)
    ensures forall b :: 0 <= b < |s.B| && s.B[b].counter > 0 ==> b in s.I
  {
  }

  /** After the last round the table is `SplitBuckets`. */
  lemma SplitDone(B: seq<BucketSortInfo>, I: seq<int>)
    requires SplitTargets(B, I)
    requires forall b :: 0 <= b < |B| && B[b].counter > 0 ==> b in I
    ensures PartialSplit(B, I, |I|) == SplitBuckets(B, I)
  {
    var P, S := PartialSplit(B, I, |I|), SplitBuckets(B, I);
    assert I[..|I|] == I;
    forall i | 0 <= i < |P|
      ensures P[i] == S[i]
    {
      assert S[i] == SplitEntry(B, I, i);
      if i < |B| {
        assert B[i].counter > 0 <==> i in I;
      }
    }
  }

  /**
   * What the code of a pass reads of the state the scan goes through: each
   * step has what it reads, and the end state fits the split loop and the
   * record.
   */
  ghost predicate PassReady(idx: OccurrenceIndex, t0: Table, ob: nat, l: nat)
    requires l < |idx.occ|
  {
    (forall k :: 0 <= k < |idx.occ[l]| ==> StepBounds(idx, t0, ob, l, k))
    && var s := ScanFrom(idx, t0, ob, l, |idx.occ[l]|);
       ob < |s.B| && |s.B| == |t0.B| && |s.D| == |t0.D| && t0.SD + 2 + s.nbElt <= |s.D|
       && SplitTargets(s.B, s.I)
       && (forall b :: 0 <= b < |s.B| && s.B[b].counter > 0 ==> b in s.I)
  }

  /** The table `createDistribWrTLit(l)` leaves, from the table t it starts from. */
  function PassTable(idx: OccurrenceIndex, t: Table, l: nat): (t': Table)
    requires l < |idx.occ| && t.U >= -1
    ensures t'.U >= -1
  {
    var t0, ob := Reserved(t), ReservedIdx(t);
    var s := ScanFrom(idx, t0, ob, l, |idx.occ[l]|);
    if ob < |s.B| && t0.SD + 2 + s.nbElt <= |s.D| then FinishTable(t0, ob, l, s) else t
  }

  /** From a stable table, the code of a pass has what it reads, and `PassTable` is the closed scan. */
  lemma PassReadyFrom(idx: OccurrenceIndex, t: Table, l: nat)
    requires Stable(idx, t) && l < |idx.occ| && t.SD + 2 + |idx.occ[l]| <= |t.D|
    ensures t.U >= -1 && PassReady(idx, Reserved(t), ReservedIdx(t), l)
    ensures PassTable(idx, t, l)
            == FinishTable(Reserved(t), ReservedIdx(t), l,
                           ScanFrom(idx, Reserved(t), ReservedIdx(t), l, |idx.occ[l]|))
  {
    ReserveCtx(idx, t, l);
    PassReadyEnd(idx, Reserved(t), ReservedIdx(t), l);
  }

  /**
   * One refinement step keeps the table stable: it adds one record of K
   * ids for l when K > 0 kept clauses hold l and none otherwise, leaves
   * the older records alone, and keeps the own bucket for reuse exactly
   * when no clause was new.
   */
  lemma PassStable(idx: OccurrenceIndex, t: Table, l: nat)
    requires Stable(idx, t) && l < |idx.occ| && t.SD + 2 + |idx.occ[l]| <= |t.D|
    ensures t.U >= -1 && PassReady(idx, Reserved(t), ReservedIdx(t), l)
    ensures var t', K := PassTable(idx, t, l), idx.KeptCount(l, |idx.occ[l]|);
            Stable(idx, t')
            && t'.R == t.R + (if K == 0 then [] else [Rec(l, t.SD)])
            && t'.SD == t.SD + (if K == 0 then 0 else 2 + K)
            && |t'.D| == |t.D| && t'.D[..t.SD] == t.D[..t.SD]
            && (t'.N == t.N <==> t'.U != -1)
            && (t'.U != -1 ==> t'.U == ReservedIdx(t))
  {
    ReserveCtx(idx, t, l);
    PassEnd(idx, Reserved(t), ReservedIdx(t), l);
  }

  /** `PassStable` on the table once the own bucket is taken. */
  lemma PassEnd(idx: OccurrenceIndex, t0: Table, ob: nat, l: nat)
    requires ScanCtx(idx, t0, ob, l)
    ensures PassReady(idx, t0, ob, l)
    ensures var s := ScanFrom(idx, t0, ob, l, |idx.occ[l]|);
            var t', K := FinishTable(t0, ob, l, s), idx.KeptCount(l, |idx.occ[l]|);
            Stable(idx, t')
            && t'.R == t0.R + (if K == 0 then [] else [Rec(l, t0.SD)])
            && t'.SD == t0.SD + (if K == 0 then 0 else 2 + K)
            && |t'.D| == |t0.D| && t'.D[..t0.SD] == t0.D[..t0.SD]
            && (t'.N == t0.N <==> t'.U != -1)
            && (t'.U != -1 ==> t'.U == ob)
  {
    PassReadyEnd(idx, t0, ob, l);
    var s := ScanFrom(idx, t0, ob, l, |idx.occ[l]|);
    ScanFromInv(idx, t0, ob, l, |idx.occ[l]|);
    FinishFacts(idx, t0, ob, l, s);
    FinishShape(t0, ob, l, s);
  }

  lemma PassReadyEnd(idx: OccurrenceIndex, t0: Table, ob: nat, l: nat)
    requires ScanCtx(idx, t0, ob, l)
    ensures PassReady(idx, t0, ob, l)
  {
    AllStepBounds(idx, t0, ob, l);
    ScanFromInv(idx, t0, ob, l, |idx.occ[l]|);
    EndSplit(idx, t0, ob, l, ScanFrom(idx, t0, ob, l, |idx.occ[l]|));
  }

  /** The table a pass leaves once its scan ended in s is stable, and keeps the old records. */
  lemma FinishFacts(idx: OccurrenceIndex, t0: Table, ob: nat, l: nat, s: Scan)
    requires l < |idx.occ| && ScanInv(idx, t0, ob, l, |idx.occ[l]|, s)
    ensures ob < |s.B| && t0.SD + 2 + s.nbElt <= |s.D| && |s.D| == |t0.D|
    ensures s.nbElt == idx.KeptCount(l, |idx.occ[l]|)
    ensures Stable(idx, FinishTable(t0, ob, l, s))
    ensures FinishTable(t0, ob, l, s).D[..t0.SD] == t0.D[..t0.SD]
  {
    FinishStable(idx, t0, ob, l, s);
    ScanEnd(idx, t0, ob, l, s);
    FinalPrefix(idx, t0, ob, l, Hits(idx, l, |idx.occ[l]|), s);
  }

  /** What closing a pass does to the records, the number of group ids and the unused bucket. */
  lemma FinishShape(t0: Table, ob: nat, l: nat, s: Scan)
    requires ob < |s.B| && t0.SD + 2 + s.nbElt <= |s.D|
    ensures var t' := FinishTable(t0, ob, l, s);
            t'.R == t0.R + (if s.nbElt == 0 then [] else [Rec(l, t0.SD)])
            && t'.SD == t0.SD + (if s.nbElt == 0 then 0 else 2 + s.nbElt)
            && |t'.D| == |s.D|
            && (t'.N == t0.N <==> t'.U != -1)
            && (t'.U != -1 ==> t'.U == ob)
  {
  }
}
