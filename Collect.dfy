/**
 * `collectDistrib`: the refinement over every literal of the component's
 * unassigned variables, then the removal of identical clauses. Once all
 * literals are recorded, two clauses share a bucket exactly when they hold
 * the same literals of the component; every id of a bucket after its first
 * is redundant. The surviving ids are renumbered in order and counted per
 * clause length.
 */
module Collect {
  import opened Arith
  import opened Cnf
  import opened Seqs
  import opened Partition
  import opened Finish
  import opened Compact

  /** The distrib slots the two passes of variable v may take: two headers and one id per occurrence. */
  function NeedOne(idx: OccurrenceIndex, v: int): nat
    requires 0 <= v && 2 * v + 1 < |idx.occ|
  {
    4 + |idx.occ[2 * v + 1]| + |idx.occ[2 * v]|
  }

  /** The distrib slots the passes over the unassigned variables of `vars` may take. */
  function Need(idx: OccurrenceIndex, vars: seq<int>): nat
    requires idx.Valid() && idx.Covers(vars)
  {
    if |vars| == 0 then 0
    else Need(idx, vars[..|vars| - 1])
         + (if idx.isAssigned[vars[|vars| - 1]] then 0 else NeedOne(idx, vars[|vars| - 1]))
  }

  /**
   * The table the first loop of `collectDistrib` leaves: for each unassigned
   * variable v of `vars` in order, one pass for the literal `makeLitFalse(v)`
   * then one for `makeLitTrue(v)`.
   */
  function RefineVars(idx: OccurrenceIndex, t: Table, vars: seq<int>): (t': Table)
    requires idx.Valid() && idx.Covers(vars) && t.U >= -1
    ensures t'.U >= -1
  {
    if |vars| == 0 then t
    else
      var t1 := RefineVars(idx, t, vars[..|vars| - 1]);
      var v := vars[|vars| - 1];
      if idx.isAssigned[v] then t1
      else PassTable(idx, PassTable(idx, t1, MakeLitFalse(v)), MakeLitTrue(v))
  }

  /** A prefix of the variables needs no more room than all of them. */
  lemma {:induction false} NeedPrefix(idx: OccurrenceIndex, vars: seq<int>, i: nat)
    requires idx.Valid() && idx.Covers(vars) && i <= |vars|
    ensures Need(idx, vars[..i]) <= Need(idx, vars)
    decreases |vars| - i
  {
    if i < |vars| {
      var init := vars[..|vars| - 1];
      assert init[..i] == vars[..i];
      NeedPrefix(idx, init, i);
    } else {
      assert vars[..i] == vars;
    }
  }

  /** R' is R or R with one more record, of literal l. */
  predicate AddsAtMost(R: seq<Rec>, R': seq<Rec>, l: nat)
  {
    R' == R || (|R'| == |R| + 1 && R'[..|R|] == R && R'[|R|].lit == l)
  }

  /** Clause c counts the record of l when it holds l. */
  lemma CountRecsStep(idx: OccurrenceIndex, R: seq<Rec>, R': seq<Rec>, l: nat, c: int)
    requires AddsAtMost(R, R', l)
    ensures CountRecs(idx, R', c) <= CountRecs(idx, R, c) + (if idx.Holds(l, c) then 1 else 0)
  {
    if R' != R {
      assert R' == R + [R'[|R|]];
      CountRecsAppend(idx, R, R'[|R|], c);
    }
  }

  /** The records R' extend R by records of literals of the variables of vars only. */
  predicate ExtendsBy(R: seq<Rec>, R': seq<Rec>, vars: seq<int>)
  {
    |R| <= |R'| && R'[..|R|] == R && forall r :: |R| <= r < |R'| ==> R'[r].lit / 2 in vars
  }

  /**
   * The two passes of one unassigned variable v keep the table stable and
   * stay within the room of v.
   */
  lemma VarPasses(idx: OccurrenceIndex, t: Table, v: int)
    requires Stable(idx, t) && 0 <= v && 2 * v + 1 < |idx.occ| && t.SD + NeedOne(idx, v) <= |t.D|
    ensures t.U >= -1 && Stable(idx, PassTable(idx, t, MakeLitFalse(v)))
    ensures var t1 := PassTable(idx, t, MakeLitFalse(v));
            t1.SD + 2 + |idx.occ[MakeLitTrue(v)]| <= |t1.D|
    ensures var t2 := PassTable(idx, PassTable(idx, t, MakeLitFalse(v)), MakeLitTrue(v));
            Stable(idx, t2) && t2.SD <= t.SD + NeedOne(idx, v) && |t2.D| == |t.D|
  {
    PassStable(idx, t, MakeLitFalse(v));
    PassStable(idx, PassTable(idx, t, MakeLitFalse(v)), MakeLitTrue(v));
  }

  /** A pass adds at most one record, for its own literal, whatever the table. */
  lemma PassAddsRecord(idx: OccurrenceIndex, t: Table, l: nat)
    requires l < |idx.occ| && t.U >= -1
    ensures AddsAtMost(t.R, PassTable(idx, t, l).R, l)
  {
    var t' := PassTable(idx, t, l);
    if t'.R != t.R {
      assert t'.R == t.R + [Rec(l, t.SD)];
    }
  }

  /** The records of the two passes of v, on the records alone. */
  lemma PassRecords(idx: OccurrenceIndex, R: seq<Rec>, R1: seq<Rec>, R2: seq<Rec>, v: int)
    requires v >= 0
    requires AddsAtMost(R, R1, MakeLitFalse(v)) && AddsAtMost(R1, R2, MakeLitTrue(v))
    ensures ExtendsBy(R, R2, [v])
    ensures forall c :: CountRecs(idx, R2, c)
                        <= CountRecs(idx, R, c) + (if idx.Holds(2 * v, c) then 1 else 0)
                           + (if idx.Holds(2 * v + 1, c) then 1 else 0)
  {
    assert R2[..|R1|] == R1;
    assert R2[..|R|] == R by {
      assert R1[..|R|] == R;
      assert R2[..|R|] == R2[..|R1|][..|R|];
    }
    forall r | |R| <= r < |R2|
      ensures R2[r].lit / 2 in [v]
    {
      if r < |R1| {
        assert R2[r] == R1[r];
      }
    }
    forall c
      ensures CountRecs(idx, R2, c)
              <= CountRecs(idx, R, c) + (if idx.Holds(2 * v, c) then 1 else 0)
                 + (if idx.Holds(2 * v + 1, c) then 1 else 0)
    {
      CountRecsStep(idx, R, R1, MakeLitFalse(v), c);
      CountRecsStep(idx, R1, R2, MakeLitTrue(v), c);
    }
  }

  /** Composing the record facts of a prefix of the variables with those of the next one. */
  lemma RecordsCompose(idx: OccurrenceIndex, R: seq<Rec>, R1: seq<Rec>, R2: seq<Rec>, vars: seq<int>)
    requires |vars| > 0 && idx.Covers(vars)
    requires ExtendsBy(R, R1, vars[..|vars| - 1]) && ExtendsBy(R1, R2, [vars[|vars| - 1]])
    requires forall c :: CountRecs(idx, R1, c) <= CountRecs(idx, R, c) + idx.SizeOver(c, vars[..|vars| - 1])
    requires var v := vars[|vars| - 1];
             forall c :: CountRecs(idx, R2, c)
                         <= CountRecs(idx, R1, c) + (if idx.Holds(2 * v, c) then 1 else 0)
                            + (if idx.Holds(2 * v + 1, c) then 1 else 0)
    ensures ExtendsBy(R, R2, vars)
    ensures forall c :: CountRecs(idx, R2, c) <= CountRecs(idx, R, c) + idx.SizeOver(c, vars)
  {
    assert R2[..|R|] == R2[..|R1|][..|R|];
    forall r | |R| <= r < |R2|
      ensures R2[r].lit / 2 in vars
    {
      if r < |R1| {
        assert R2[r] == R1[r];
        assert R1[r].lit / 2 in vars[..|vars| - 1];
      } else {
        assert R2[r].lit / 2 in [vars[|vars| - 1]];
      }
    }
  }

  /** The first loop of `collectDistrib` keeps the table stable within the room of `vars`. */
  lemma {:induction false} RefineVarsStable(idx: OccurrenceIndex, t: Table, vars: seq<int>)
    requires Stable(idx, t) && idx.Covers(vars) && t.SD + Need(idx, vars) <= |t.D|
    ensures t.U >= -1
    ensures var t' := RefineVars(idx, t, vars);
            Stable(idx, t') && t'.SD <= t.SD + Need(idx, vars) && |t'.D| == |t.D|
  {
    if |vars| > 0 {
      var init, v := vars[..|vars| - 1], vars[|vars| - 1];
      RefineVarsStable(idx, t, init);
      if !idx.isAssigned[v] {
        VarPasses(idx, RefineVars(idx, t, init), v);
      }
    }
  }

  /** The first loop of `collectDistrib` keeps one mark, one group id and one size per kept clause. */
  lemma RefineVarsSizes(idx: OccurrenceIndex, t: Table, vars: seq<int>)
    requires Stable(idx, t) && idx.Covers(vars) && t.SD + Need(idx, vars) <= |t.D|
    ensures t.U >= -1
    ensures |RefineVars(idx, t, vars).M| == |idx.kept| && |RefineVars(idx, t, vars).G| == |idx.kept|
    ensures |RefineVars(idx, t, vars).SC| == |idx.kept|
  {
    RefineVarsStable(idx, t, vars);
  }

  /** The pass of `makeLitFalse(v)` keeps t stable and leaves room for the pass of `makeLitTrue(v)`. */
  lemma FalsePassStable(idx: OccurrenceIndex, t: Table, v: int)
    requires Stable(idx, t) && 0 <= v && 2 * v + 1 < |idx.occ| && t.SD + NeedOne(idx, v) <= |t.D|
    ensures t.U >= -1 && MakeLitFalse(v) == 2 * v + 1
    ensures Stable(idx, PassTable(idx, t, MakeLitFalse(v)))
    ensures PassTable(idx, t, MakeLitFalse(v)).SD + 2 + |idx.occ[MakeLitTrue(v)]|
            <= |PassTable(idx, t, MakeLitFalse(v)).D|
  {
    PassStable(idx, t, MakeLitFalse(v));
  }

  /** The table after a prefix of `vars` is stable, with room for the passes of the next variable. */
  lemma RefinePrefixStable(idx: OccurrenceIndex, t0: Table, vars: seq<int>, i: nat)
    requires Stable(idx, t0) && idx.Covers(vars) && i < |vars| && t0.SD + Need(idx, vars) <= |t0.D|
    ensures t0.U >= -1 && Stable(idx, RefineVars(idx, t0, vars[..i]))
    ensures !idx.isAssigned[vars[i]] ==>
              RefineVars(idx, t0, vars[..i]).SD + NeedOne(idx, vars[i]) <= |RefineVars(idx, t0, vars[..i]).D|
  {
    NeedSnoc(idx, vars, i);
    NeedPrefix(idx, vars, i + 1);
    RefineVarsStable(idx, t0, vars[..i]);
  }

  /** The table and the room of one more variable. */
  lemma RefineVarsSnoc(idx: OccurrenceIndex, t0: Table, vars: seq<int>, i: nat)
    requires idx.Valid() && idx.Covers(vars) && i < |vars| && t0.U >= -1
    ensures var v := vars[i];
            RefineVars(idx, t0, vars[..i + 1])
              == (if idx.isAssigned[v] then RefineVars(idx, t0, vars[..i])
                  else PassTable(idx, PassTable(idx, RefineVars(idx, t0, vars[..i]), MakeLitFalse(v)), MakeLitTrue(v)))
  {
    assert vars[..i + 1][..i] == vars[..i];
  }

  /** The room of a prefix of the variables and one more. */
  lemma NeedSnoc(idx: OccurrenceIndex, vars: seq<int>, i: nat)
    requires idx.Valid() && idx.Covers(vars) && i < |vars|
    ensures Need(idx, vars[..i + 1])
            == Need(idx, vars[..i]) + (if idx.isAssigned[vars[i]] then 0 else NeedOne(idx, vars[i]))
  {
    assert vars[..i + 1][..i] == vars[..i];
  }

  /**
   * The records the first loop of `collectDistrib` adds are records of the
   * literals of `vars`, and each clause is counted at most once per literal
   * of `vars` it holds.
   */
  lemma {:induction false} RefineVarsRecords(idx: OccurrenceIndex, t: Table, vars: seq<int>)
    requires idx.Valid() && idx.Covers(vars) && t.U >= -1
    ensures var t' := RefineVars(idx, t, vars);
            ExtendsBy(t.R, t'.R, vars)
            && (forall c :: CountRecs(idx, t'.R, c) <= CountRecs(idx, t.R, c) + idx.SizeOver(c, vars))
  {
    if |vars| > 0 {
      var init, v := vars[..|vars| - 1], vars[|vars| - 1];
      RefineVarsRecords(idx, t, init);
      var t1 := RefineVars(idx, t, init);
      if !idx.isAssigned[v] {
        var t2 := PassTable(idx, t1, MakeLitFalse(v));
        PassAddsRecord(idx, t1, MakeLitFalse(v));
        PassAddsRecord(idx, t2, MakeLitTrue(v));
        PassRecords(idx, t1.R, t2.R, PassTable(idx, t2, MakeLitTrue(v)).R, v);
        RecordsCompose(idx, t.R, t1.R, RefineVars(idx, t, vars).R, vars);
      } else {
        PassRecords(idx, t1.R, t1.R, t1.R, v);
        RecordsCompose(idx, t.R, t1.R, t1.R, vars);
      }
    } else {
      assert t.R[..|t.R|] == t.R;
    }
  }

  /** `b.end = b.start + 1`: a bucket cut down to its first id. */
  function Trim(b: BucketSortInfo): BucketSortInfo
  {
    b.(end := b.start + 1)
  }

  /** Id `id` is in use and not the first of its bucket's range. */
  ghost predicate Redundant(t: Table, id: int)
  {
    0 <= id < t.N && id < |t.O| && 0 <= t.O[id] < |t.M| && 0 <= t.M[t.O[id]] < |t.B|
    && t.B[t.M[t.O[id]]].start < id
  }

  /** Id `id` is the first of the range of a bucket of `done`. */
  ghost predicate Leads(t: Table, done: set<int>, id: int)
  {
    0 <= id < t.N && id < |t.O| && 0 <= t.O[id] < |t.M| && 0 <= t.M[t.O[id]] < |t.B|
    && t.M[t.O[id]] in done && t.B[t.M[t.O[id]]].start == id
  }

  /** The buckets of the first k clauses of `m_mustUnMark`. */
  ghost function Done(t: Table, k: nat): set<int>
  {
    set j | 0 <= j < k && j < |t.MU| && 0 <= t.MU[j] < |t.M| :: t.M[t.MU[j]]
  }

  lemma DoneStep(t: Table, k: nat)
    requires k < |t.MU| && 0 <= t.MU[k] < |t.M|
    ensures Done(t, k + 1) == Done(t, k) + {t.M[t.MU[k]]}
  {
    assert t.M[t.MU[k]] in Done(t, k + 1);
  }

  /** The marked clauses listed in `m_mustUnMark`, with their sizes `cs`. */
  ghost predicate MarksOk(t: Table, cs: seq<nat>)
  {
    forall j :: 0 <= j < |t.MU| ==> 0 <= t.MU[j] < |t.M| && t.MU[j] < |cs| && 0 <= t.M[t.MU[j]] < |t.B|
  }

  /**
   * What `realSizeDistrib` loses over the first k clauses of `m_mustUnMark`:
   * the first clause met of each bucket takes off `getCurrentSize` once per
   * id of its bucket after the first.
   */
  ghost function Removed(t: Table, cs: seq<nat>, k: nat): int
    requires k <= |t.MU| && MarksOk(t, cs)
  {
    if k == 0 then 0
    else
      var c := t.MU[k - 1];
      var b := t.B[t.M[c]];
      Removed(t, cs, k - 1) + (if t.M[c] in Done(t, k - 1) then 0 else Loss(b, cs[c]))
  }

  /** What cutting bucket b to its first id takes off `realSizeDistrib`, for clauses of size `size`. */
  function Loss(b: BucketSortInfo, size: nat): int
  {
    (b.end - b.start - 1) * size
  }

  /** `realSizeDistrib` after the first k clauses of `m_mustUnMark`, kept to 32 bits. */
  ghost function SizeAfter(t: Table, cs: seq<nat>, realSize0: int, k: nat): int
    requires k <= |t.MU| && MarksOk(t, cs)
  {
    (realSize0 - Removed(t, cs, k)) % TWO_POW_32
  }

  /** The loop `for j in [start + 1, end) markedAsRedundant[j] = true`. */
  method MarkRedundant(red0: seq<bool>, lo: nat, hi: nat) returns (red: seq<bool>)
    requires lo <= hi <= |red0|
    ensures |red| == |red0| && forall j :: 0 <= j < |red| ==> red[j] == (red0[j] || lo <= j < hi)
  {
    red := red0;
    for j := lo to hi
      invariant |red| == |red0| && forall i :: 0 <= i < |red| ==> red[i] == (red0[i] || lo <= i < j)
    {
      red := red[j := true];
    }
  }

  /** The bucket table once the buckets of `done` are cut to their first id. */
  ghost predicate TrimmedBy(t: Table, done: set<int>, B: seq<BucketSortInfo>)
  {
    |B| == |t.B| && forall b :: 0 <= b < |B| ==> B[b] == if b in done then Trim(t.B[b]) else t.B[b]
  }

  /** The marks once the first k clauses of `m_mustUnMark` are unmarked. */
  ghost predicate UnmarkedTo(t: Table, k: nat, M: seq<int>)
    requires k <= |t.MU|
  {
    |M| == |t.M| && forall c :: 0 <= c < |M| ==> M[c] == if c in t.MU[..k] then -1 else t.M[c]
  }

  /** `shiftedSizeClause` once the first id of each bucket of `done` holds its size. */
  ghost predicate SizesLed(t: Table, done: set<int>, ss0: seq<nat>, ss: seq<nat>)
    requires |t.SC| == |t.M|
  {
    |ss| == |ss0| && forall j :: 0 <= j < |ss| ==> ss[j] == if Leads(t, done, j) then t.SC[t.O[j]] else ss0[j]
  }

  /** `markedAsRedundant` once the ids of each bucket of `done` after the first are marked. */
  ghost predicate MarkedBy(t: Table, done: set<int>, red0: seq<bool>, red: seq<bool>)
  {
    |red| == |red0| && forall j :: 0 <= j < |red| ==> red[j] == (red0[j] || (Redundant(t, j) && t.M[t.O[j]] in done))
  }

  /** The unmark loop of `collectDistrib` after the first k clauses of `m_mustUnMark`. */
  ghost predicate UnmarkInv(t: Table, cs: seq<nat>, ss0: seq<nat>, red0: seq<bool>, realSize0: int, k: nat,
                            B: seq<BucketSortInfo>, M: seq<int>, ss: seq<nat>, red: seq<bool>, realSize: int)
    requires k <= |t.MU| && MarksOk(t, cs) && |t.SC| == |t.M|
  {
    TrimmedBy(t, Done(t, k), B) && UnmarkedTo(t, k, M) && SizesLed(t, Done(t, k), ss0, ss)
    && MarkedBy(t, Done(t, k), red0, red) && realSize == SizeAfter(t, cs, realSize0, k)
  }

  /** What the unmark loop reads of the stable table about the k-th clause of `m_mustUnMark`. */
  lemma UnmarkClause(idx: OccurrenceIndex, t: Table, k: nat)
    requires Shapes(idx, t) && Bijection(t) && RangesMatch(idx, t) && MarkList(t) && k < |t.MU|
    ensures var c := t.MU[k];
            0 <= c < |t.M| && c !in t.MU[..k] && 0 <= t.M[c] < |t.B|
            && t.B[t.M[c]].start < t.B[t.M[c]].end <= t.N
    ensures var bi := t.M[t.MU[k]];
            forall j :: Redundant(t, j) && t.M[t.O[j]] == bi <==> t.B[bi].start < j < t.B[bi].end
  {
    var c := t.MU[k];
    var bi := t.M[c];
    assert c !in t.MU[..k];
    MarkedInRange(idx, t, c);
    assert InRange(t.B, bi, t.B[bi].end - 1);
    RangeOwner(idx, t, bi, t.B[bi].end - 1);
    forall j | t.B[bi].start < j < t.B[bi].end
      ensures Redundant(t, j) && t.M[t.O[j]] == bi
    {
      assert InRange(t.B, bi, j);
      RangeOwner(idx, t, bi, j);
    }
    forall j | Redundant(t, j) && t.M[t.O[j]] == bi
      ensures t.B[bi].start < j < t.B[bi].end
    {
      MarkedInRange(idx, t, t.O[j]);
    }
  }

  /** The first id of the bucket of the k-th clause of `m_mustUnMark` leads it, with that clause's size. */
  lemma UnmarkLeader(idx: OccurrenceIndex, t: Table, k: nat)
    requires Shapes(idx, t) && RangesMatch(idx, t) && SigMatch(idx, t) && SizesMatch(idx, t)
    requires k < |t.MU| && 0 <= t.MU[k] < |t.M| && 0 <= t.M[t.MU[k]] < |t.B|
    requires t.B[t.M[t.MU[k]]].start < t.B[t.M[t.MU[k]]].end
    ensures var c, bi := t.MU[k], t.M[t.MU[k]];
            var id := t.B[bi].start;
            Leads(t, {bi}, id) && t.SC[t.O[id]] == t.SC[c]
  {
    var c := t.MU[k];
    var bi := t.M[c];
    var id := t.B[bi].start;
    assert InRange(t.B, bi, id);
    RangeOwner(idx, t, bi, id);
    SameBucketSize(idx, t, c, t.O[id]);
  }

  /** What the unmark loop knows of the k-th clause c of `m_mustUnMark` and its bucket bi. */
  ghost predicate UnmarkFacts(t: Table, k: nat, nbId: nat)
    requires k < |t.MU|
  {
    var c := t.MU[k];
    |t.SC| == |t.M| && 0 <= c < |t.M| && c !in t.MU[..k] && 0 <= t.M[c] < |t.B|
    && var bi := t.M[c];
       t.B[bi].start < t.B[bi].end <= nbId
       && (forall j :: Redundant(t, j) && t.M[t.O[j]] == bi <==> t.B[bi].start < j < t.B[bi].end)
       && Leads(t, {bi}, t.B[bi].start) && t.SC[t.O[t.B[bi].start]] == t.SC[c]
  }

  lemma UnmarkStepSizes(t: Table, k: nat, done: set<int>, bi: int, ss0: seq<nat>, ss: seq<nat>, c: int, start: int)
    requires |t.SC| == |t.M| && 0 <= c < |t.M|
    requires Leads(t, {bi}, start) && t.SC[t.O[start]] == t.SC[c]
    requires SizesLed(t, done, ss0, ss) && 0 <= start < |ss|
    ensures SizesLed(t, done + {bi}, ss0, ss[start := t.SC[c]])
  {
    var ss' := ss[start := t.SC[c]];
    forall j | 0 <= j < |ss'|
      ensures ss'[j] == if Leads(t, done + {bi}, j) then t.SC[t.O[j]] else ss0[j]
    {
      if j != start {
        assert Leads(t, done + {bi}, j) == Leads(t, done, j);
      }
    }
  }

  lemma UnmarkStepMarks(t: Table, done: set<int>, bi: int, red0: seq<bool>, red: seq<bool>, red': seq<bool>,
                        lo: int, hi: int, cut: bool)
    requires forall j :: Redundant(t, j) && t.M[t.O[j]] == bi <==> lo < j < hi
    requires MarkedBy(t, done, red0, red)
    requires cut ==> bi !in done && |red'| == |red| && forall j :: 0 <= j < |red| ==> red'[j] == (red[j] || lo + 1 <= j < hi)
    requires !cut ==> red' == red && (bi in done || hi == lo + 1)
    ensures MarkedBy(t, done + {bi}, red0, red')
  {
  }

  lemma UnmarkStepSize(t: Table, cs: seq<nat>, k: nat, realSize0: int, rs: int, rs': int, b: BucketSortInfo, cut: bool)
    requires k < |t.MU| && MarksOk(t, cs) && rs == SizeAfter(t, cs, realSize0, k)
    requires cut ==> b == t.B[t.M[t.MU[k]]] && t.M[t.MU[k]] !in Done(t, k)
                     && rs' == (rs - Loss(b, cs[t.MU[k]])) % TWO_POW_32
    requires !cut ==> rs' == rs && (t.M[t.MU[k]] in Done(t, k) || t.B[t.M[t.MU[k]]].end == t.B[t.M[t.MU[k]]].start + 1)
    ensures rs' == SizeAfter(t, cs, realSize0, k + 1)
  {
    if cut {
      ModSub(realSize0 - Removed(t, cs, k), Loss(b, cs[t.MU[k]]), TWO_POW_32);
    }
  }

  /** On a stable table, the unmark loop has what it reads for every clause it visits. */
  lemma UnmarkReady(idx: OccurrenceIndex, t: Table)
    requires Shapes(idx, t) && Bijection(t) && RangesMatch(idx, t) && MarkList(t)
    requires SigMatch(idx, t) && SizesMatch(idx, t)
    ensures |t.SC| == |t.M| && forall k :: 0 <= k < |t.MU| ==> UnmarkFacts(t, k, t.N)
  {
    forall k | 0 <= k < |t.MU|
      ensures UnmarkFacts(t, k, t.N)
    {
      UnmarkClause(idx, t, k);
      UnmarkLeader(idx, t, k);
    }
  }

  /** One pass of the unmark loop of `collectDistrib`, for the k-th clause of `m_mustUnMark`. */
  method UnmarkOne(ghost t: Table, k: nat, c: int, SC: seq<nat>, cs: seq<nat>, ss0: seq<nat>, red0: seq<bool>, realSize0: nat,
                   B0: seq<BucketSortInfo>, M0: seq<int>, ss1: seq<nat>, red1: seq<bool>, rs1: nat)
    returns (B: seq<BucketSortInfo>, M: seq<int>, ss: seq<nat>, red: seq<bool>, realSize: nat)
    requires k < |t.MU| && c == t.MU[k] && SC == t.SC && UnmarkFacts(t, k, t.N)
    requires MarksOk(t, cs) && t.N <= |ss0| && t.N <= |red0|
    requires UnmarkInv(t, cs, ss0, red0, realSize0, k, B0, M0, ss1, red1, rs1)
    ensures UnmarkInv(t, cs, ss0, red0, realSize0, k + 1, B, M, ss, red, realSize)
  {
    ghost var done := Done(t, k);
    var bi := M0[c];
    var b := B0[bi];
    DoneStep(t, k);
    UnmarkStepMarks0(t, k, M0, c);
    UnmarkStepTrim0(t, done, B0, bi);
    ghost var cut := b.end != b.start + 1;
    UnmarkStepSizes(t, k, done, bi, ss0, ss1, c, b.start);
    B, M, ss, red, realSize := B0, M0[c := -1], ss1[b.start := SC[c]], red1, rs1;
    if b.end != b.start + 1 {
      realSize := (rs1 - Loss(b, cs[c])) % TWO_POW_32;
      red := MarkRedundant(red1, b.start + 1, b.end);
      B := B0[bi := Trim(b)];
    }
    UnmarkStepTrim(t, done, B0, B, bi, cut);
    UnmarkStepMarks(t, done, bi, red0, red1, red, t.B[bi].start, t.B[bi].end, cut);
    UnmarkStepSize(t, cs, k, realSize0, rs1, realSize, b, cut);
  }

  lemma UnmarkStepMarks0(t: Table, k: nat, M0: seq<int>, c: int)
    requires k < |t.MU| && c == t.MU[k] && 0 <= c < |M0| && UnmarkedTo(t, k, M0) && c !in t.MU[..k]
    ensures M0[c] == t.M[c] && UnmarkedTo(t, k + 1, M0[c := -1])
  {
    assert t.MU[..k + 1] == t.MU[..k] + [c];
  }

  lemma UnmarkStepTrim0(t: Table, done: set<int>, B0: seq<BucketSortInfo>, bi: int)
    requires TrimmedBy(t, done, B0) && 0 <= bi < |B0|
    ensures B0[bi].start == t.B[bi].start
    ensures B0[bi].end != B0[bi].start + 1 ==> bi !in done && B0[bi] == t.B[bi]
    ensures B0[bi].end == B0[bi].start + 1 ==> bi in done || t.B[bi].end == t.B[bi].start + 1
  {
  }

  lemma UnmarkStepTrim(t: Table, done: set<int>, B0: seq<BucketSortInfo>, B: seq<BucketSortInfo>, bi: int, cut: bool)
    requires TrimmedBy(t, done, B0) && 0 <= bi < |B0|
    requires cut ==> bi !in done && B == B0[bi := Trim(t.B[bi])]
    requires !cut ==> B == B0 && (bi in done || t.B[bi].end == t.B[bi].start + 1)
    ensures TrimmedBy(t, done + {bi}, B)
  {
  }

  /**
   * The unmark loop of `collectDistrib` over `m_mustUnMark`: every clause is
   * unmarked; the first id of its bucket gets its `sizeClauses`; a bucket
   * wider than one id is cut to its first id, its other ids are marked
   * redundant, and `realSizeDistrib` loses `getCurrentSize` (cs) of the
   * clause once per such id.
   */
  method UnmarkLoop(ghost t: Table, MU: seq<int>, B0: seq<BucketSortInfo>,
                    M0: seq<int>, SC: seq<nat>, cs: seq<nat>, ss0: seq<nat>, red0: seq<bool>, realSize0: nat)
    returns (B: seq<BucketSortInfo>, M: seq<int>, ss: seq<nat>, red: seq<bool>, realSize: nat)
    requires |t.SC| == |t.M| && forall k :: 0 <= k < |t.MU| ==> UnmarkFacts(t, k, t.N)
    requires MU == t.MU && B0 == t.B && M0 == t.M && SC == t.SC
    requires MarksOk(t, cs) && t.N <= |ss0| && t.N <= |red0|
    ensures UnmarkInv(t, cs, ss0, red0, realSize0, |t.MU|, B, M, ss, red, realSize)
  {
    B, M, ss, red, realSize := B0, M0, ss0, red0, realSize0 % TWO_POW_32;
    assert Done(t, 0) == {};
    for k := 0 to |MU|
      invariant UnmarkInv(t, cs, ss0, red0, realSize0, k, B, M, ss, red, realSize)
    {
      B, M, ss, red, realSize := UnmarkOne(t, k, MU[k], SC, cs, ss0, red0, realSize0, B, M, ss, red, realSize);
    }
  }

  /** Every id in use belongs to a bucket of the marked list; it leads it exactly when it is not redundant. */
  lemma UnmarkEndId(idx: OccurrenceIndex, t: Table, j: int)
    requires Shapes(idx, t) && Bijection(t) && RangesMatch(idx, t) && MarkList(t) && 0 <= j < t.N
    ensures 0 <= t.O[j] < |t.M| && t.M[t.O[j]] in Done(t, |t.MU|)
    ensures Leads(t, Done(t, |t.MU|), j) <==> !Redundant(t, j)
  {
    var c := t.O[j];
    assert c in t.MU;
    var k :| 0 <= k < |t.MU| && t.MU[k] == c;
    assert t.M[t.MU[k]] in Done(t, |t.MU|);
    MarkedInRange(idx, t, c);
  }

  /** The buckets of the marked list are exactly those with a non-empty range. */
  lemma UnmarkEndBucket(idx: OccurrenceIndex, t: Table, b: int)
    requires Shapes(idx, t) && Bijection(t) && RangesMatch(idx, t) && MarkList(t) && 0 <= b < |t.B|
    ensures b in Done(t, |t.MU|) <==> t.B[b].start < t.B[b].end
  {
    if b in Done(t, |t.MU|) {
      var k :| 0 <= k < |t.MU| && 0 <= t.MU[k] < |t.M| && t.M[t.MU[k]] == b;
      MarkedInRange(idx, t, t.MU[k]);
    }
    if t.B[b].start < t.B[b].end {
      assert InRange(t.B, b, t.B[b].start);
      RangeOwner(idx, t, b, t.B[b].start);
      UnmarkEndId(idx, t, t.B[b].start);
    }
  }

  /** `getCurrentSize` of clause c, or 0 out of range. */
  function CurrentSize(idx: OccurrenceIndex, c: int): nat
  {
    if 0 <= c < |idx.currentSize| then idx.currentSize[c] else 0
  }

  /** The `sizeClauses` of the clause owning id j, or 0 out of range. */
  ghost function OwnerSize(t: Table, j: int): nat
  {
    if 0 <= j < |t.O| && 0 <= t.O[j] < |t.SC| then t.SC[t.O[j]] else 0
  }

  /**
   * What the removal of identical clauses reads of the table the
   * refinement left: the facts of each pass of the unmark loop; the
   * buckets of the marked list are the non-empty ones; each id in use
   * belongs to one of them and leads it unless redundant; an unlisted
   * clause is unmarked; the ids in use number at most the clauses and the
   * distrib size; a surviving id's clause length is at most m.
   */
  ghost predicate DedupFacts(idx: OccurrenceIndex, t: Table, m: nat)
  {
    |t.SC| == |t.M| == |idx.kept| == |idx.currentSize| && t.N <= |t.M| && t.N <= t.SD && |t.O| == t.N
    && MarksOk(t, idx.currentSize)
    && (forall k :: 0 <= k < |t.MU| ==> UnmarkFacts(t, k, t.N))
    && (forall b :: 0 <= b < |t.B| ==> (b in Done(t, |t.MU|) <==> t.B[b].start < t.B[b].end))
    && (forall j :: 0 <= j < t.N ==>
          0 <= t.O[j] < |t.M| && t.M[t.O[j]] in Done(t, |t.MU|)
          && (Leads(t, Done(t, |t.MU|), j) <==> !Redundant(t, j)))
    && (forall c :: 0 <= c < |t.M| && c !in t.MU ==> t.M[c] == -1)
    && (forall j :: 0 <= j < t.N && !Redundant(t, j) ==> OwnerSize(t, j) <= m)
  }

  /** The buckets the unmark loop visits and the ids that lead them. */
  lemma DoneFacts(idx: OccurrenceIndex, t: Table)
    requires Shapes(idx, t) && Bijection(t) && RangesMatch(idx, t) && MarkList(t)
    ensures forall b :: 0 <= b < |t.B| ==> (b in Done(t, |t.MU|) <==> t.B[b].start < t.B[b].end)
    ensures forall j :: 0 <= j < t.N ==>
              0 <= t.O[j] < |t.M| && t.M[t.O[j]] in Done(t, |t.MU|)
              && (Leads(t, Done(t, |t.MU|), j) <==> !Redundant(t, j))
  {
    forall b | 0 <= b < |t.B|
      ensures b in Done(t, |t.MU|) <==> t.B[b].start < t.B[b].end
    {
      UnmarkEndBucket(idx, t, b);
    }
    forall j | 0 <= j < t.N
      ensures 0 <= t.O[j] < |t.M| && t.M[t.O[j]] in Done(t, |t.MU|)
      ensures Leads(t, Done(t, |t.MU|), j) <==> !Redundant(t, j)
    {
      UnmarkEndId(idx, t, j);
    }
  }

  /** The facts the removal of identical clauses starts from. */
  lemma DedupReady(idx: OccurrenceIndex, t: Table, m: nat)
    requires idx.Valid() && Shapes(idx, t) && Bijection(t) && RangesMatch(idx, t) && MarkList(t)
    requires SigMatch(idx, t) && SizesMatch(idx, t)
    requires forall c :: 0 <= c < |t.M| && t.M[c] >= 0 ==> t.SC[c] <= m
    ensures DedupFacts(idx, t, m)
  {
    IdsBound(idx, t);
    UnmarkReady(idx, t);
    MarksOkFrom(idx, t);
    DoneFacts(idx, t);
  }

  /** No clause is marked and every non-empty bucket is cut to its first id. */
  ghost predicate Unmarked(t: Table, B: seq<BucketSortInfo>, M: seq<int>)
  {
    |M| == |t.M| && (forall c :: 0 <= c < |M| ==> M[c] == -1)
    && |B| == |t.B| && forall b :: 0 <= b < |B| ==>
         B[b] == if t.B[b].start < t.B[b].end then Trim(t.B[b]) else t.B[b]
  }

  /** After the unmark loop every mark is -1 again. */
  lemma UnmarkedClear(t: Table, B: seq<BucketSortInfo>, M: seq<int>)
    requires Unmarked(t, B, M)
    ensures M == NoMarks(|t.M|)
  {}

  /** Exactly the redundant ids are marked. */
  ghost predicate RedundancyMarked(t: Table, red: seq<bool>)
  {
    forall j :: 0 <= j < |red| ==> red[j] == Redundant(t, j)
  }

  /** The first id of every bucket holds the `sizeClauses` of its clauses; other entries are untouched. */
  ghost predicate LeadersSized(t: Table, ss0: seq<nat>, ss: seq<nat>)
  {
    |ss| == |ss0| && forall j :: 0 <= j < |ss| ==>
      ss[j] == if j < t.N && !Redundant(t, j) then OwnerSize(t, j) else ss0[j]
  }

  /** After the unmark loop of `collectDistrib`, from unmarked redundancy flags. */
  lemma UnmarkEnd(idx: OccurrenceIndex, t: Table, m: nat, ss0: seq<nat>, red0: seq<bool>, realSize0: int,
                  B: seq<BucketSortInfo>, M: seq<int>, ss: seq<nat>, red: seq<bool>, realSize: int)
    requires DedupFacts(idx, t, m) && red0 == NoFlags(|red0|)
    requires UnmarkInv(t, idx.currentSize, ss0, red0, realSize0, |t.MU|, B, M, ss, red, realSize)
    ensures Unmarked(t, B, M) && RedundancyMarked(t, red) && |red| == |red0| && LeadersSized(t, ss0, ss)
  {
    assert t.MU[..|t.MU|] == t.MU;
  }

  /** An id in use is redundant exactly when an earlier id belongs to a clause agreeing with its clause on every record. */
  lemma RedundantIsDuplicate(idx: OccurrenceIndex, t: Table, j: int)
    requires Shapes(idx, t) && Bijection(t) && RangesMatch(idx, t) && SigMatch(idx, t) && 0 <= j < t.N
    ensures Redundant(t, j) <==> exists j' :: 0 <= j' < j && SameSig(idx, t.R, t.O[j'], t.O[j])
  {
    var c := t.O[j];
    MarkedInRange(idx, t, c);
    var b := t.M[c];
    if Redundant(t, j) {
      var s := t.B[b].start;
      assert InRange(t.B, b, s);
      RangeOwner(idx, t, b, s);
      assert SameSig(idx, t.R, t.O[s], c);
    }
    if exists j' :: 0 <= j' < j && SameSig(idx, t.R, t.O[j'], t.O[j]) {
      var j' :| 0 <= j' < j && SameSig(idx, t.R, t.O[j'], t.O[j]);
      MarkedInRange(idx, t, t.O[j']);
    }
  }

  /** Each clause is counted in at most as many records as it has literals over the component. */
  lemma SizesBound(idx: OccurrenceIndex, t0: Table, component: seq<int>)
    requires idx.Valid() && idx.Covers(component) && Ascending(component) && t0.U >= -1 && t0.R == []
    ensures forall c :: 0 <= c < |idx.kept| ==>
              CountRecs(idx, RefineVars(idx, t0, component).R, c) <= idx.maxSizeClause
  {
    RefineVarsRecords(idx, t0, component);
    forall c | 0 <= c < |idx.kept|
      ensures CountRecs(idx, RefineVars(idx, t0, component).R, c) <= idx.maxSizeClause
    {
      idx.SizeOverBound(c, component, |idx.isAssigned|);
    }
  }

  /**
   * What the removal of identical clauses starts from once the first loop
   * of `collectDistrib` has refined the table t0 by the whole component:
   * every clause then has at most `maxSizeClause` records, so at most m.
   */
  lemma CollectReady(idx: OccurrenceIndex, t0: Table, component: seq<int>, m: nat)
    requires Stable(idx, t0) && t0.R == [] && idx.Covers(component) && Ascending(component)
    requires t0.SD + Need(idx, component) <= |t0.D| && idx.maxSizeClause <= m
    ensures t0.U >= -1 && DedupFacts(idx, RefineVars(idx, t0, component), m)
  {
    RefineVarsStable(idx, t0, component);
    var t := RefineVars(idx, t0, component);
    SizesBound(idx, t0, component);
    assert forall c :: 0 <= c < |t.M| && t.M[c] >= 0 ==> t.SC[c] <= m;
    DedupReady(idx, t, m);
  }

  /** The redundancy marks of the ids below n. */
  ghost function RedundantMarks(t: Table, n: nat): (r: seq<bool>)
    ensures |r| == n && forall j :: 0 <= j < n ==> r[j] == Redundant(t, j)
  {
    seq(n, j => Redundant(t, j))
  }

  /** The marked list of a stable table names marked clauses of valid buckets. */
  lemma MarksOkFrom(idx: OccurrenceIndex, t: Table)
    requires idx.Valid() && Shapes(idx, t) && MarkList(t)
    ensures MarksOk(t, idx.currentSize)
  {
  }

  /**
   * The renumbering the compaction of `collectDistrib` leaves, from the
   * table t: K, the new `nbClauseInDistrib`, counts the ids that are not
   * redundant; the surviving id j gets index `Rank(j)` < K, in order, and
   * its clause length at that index of `shiftedSizeClause`; a redundant
   * id gets the sentinel SD, which is at least N and so at least K; the
   * histogram counts the K packed lengths.
   */
  ghost predicate Renumbered(t: Table, SD: nat, K: nat, ss: seq<nat>, si0: seq<nat>, si: seq<nat>,
                             diff0: seq<nat>, diff: seq<nat>)
  {
    K == Rank(RedundantMarks(t, t.N), t.N) && K <= t.N <= SD && t.N <= |ss|
    && (forall j :: 0 <= j < t.N && !Redundant(t, j) ==>
          Rank(RedundantMarks(t, t.N), j) < K && ss[Rank(RedundantMarks(t, t.N), j)] == OwnerSize(t, j))
    && |si| == |si0|
    && (forall i :: 0 <= i < |si| ==>
          si[i] == if i >= t.N then si0[i] else if Redundant(t, i) then SD else Rank(RedundantMarks(t, t.N), i))
    && |diff| == |diff0| && (forall x :: 0 <= x < |diff| ==> diff[x] == diff0[x] + multiset(ss[..K])[x])
    && Sum(diff) == Sum(diff0) + K
  }

  /**
   * The removal of identical clauses in `collectDistrib`, from the table t
   * the refinement left, on the values it changes: the unmark loop then
   * the compaction. It leaves no clause marked, cuts each non-empty bucket
   * to its first id, renumbers the surviving ids and resets every
   * redundancy mark; it returns `realSizeDistrib`.
   */
  method RemoveDuplicates(idx: OccurrenceIndex, ghost t: Table, MU: seq<int>, B0: seq<BucketSortInfo>,
                          M0: seq<int>, SC: seq<nat>, ss0: seq<nat>, red0: seq<bool>, si0: seq<nat>,
                          diff0: seq<nat>, N: nat, SD: nat)
    returns (B: seq<BucketSortInfo>, M: seq<int>, ss: seq<nat>, red: seq<bool>, si: seq<nat>,
             diff: seq<nat>, K: nat, realSize: nat)
    requires |diff0| > 0 && DedupFacts(idx, t, |diff0| - 1)
    requires MU == t.MU && B0 == t.B && M0 == t.M && SC == t.SC && N == t.N && SD == t.SD
    requires |ss0| == |idx.kept| && |si0| == |idx.kept| && red0 == NoFlags(|idx.kept|)
    ensures Unmarked(t, B, M) && red == red0 && |ss| == |ss0|
    ensures Renumbered(t, SD, K, ss, si0, si, diff0, diff)
    ensures realSize == SizeAfter(t, idx.currentSize, SD, |t.MU|)
  {
    var ssU, redU;
    B, M, ssU, redU, realSize := UnmarkLoop(t, MU, B0, M0, SC, idx.currentSize, ss0, red0, SD);
    UnmarkEnd(idx, t, |diff0| - 1, ss0, red0, SD, B, M, ssU, redU, realSize);
    ss, red, si, diff, K := CompactIds(ssU, redU, si0, diff0, N, SD);
    RenumberedFrom(t, ss0, ssU, redU, SD, ss, red, si0, si, diff0, diff, K);
  }

  /** The compaction of the unmarked values renumbers the surviving ids of t. */
  lemma RenumberedFrom(t: Table, ss0: seq<nat>, ssU: seq<nat>, redU: seq<bool>, SD: nat, ss: seq<nat>, red: seq<bool>,
                       si0: seq<nat>, si: seq<nat>, diff0: seq<nat>, diff: seq<nat>, K: nat)
    requires t.N <= SD && t.N <= |ssU| && t.N <= |redU| && t.N <= |si0|
    requires RedundancyMarked(t, redU) && LeadersSized(t, ss0, ssU)
    requires K == Rank(redU, t.N) && K <= t.N
    requires |ss| == |ssU| && ss[..K] == Survivors(ssU, redU, t.N)
    requires |si| == |si0| && forall i :: 0 <= i < |si| ==>
               si[i] == if i >= t.N then si0[i] else if redU[i] then SD else Rank(redU, i)
    requires |diff| == |diff0|
    requires forall x :: 0 <= x < |diff| ==> diff[x] == diff0[x] + multiset(Survivors(ssU, redU, t.N))[x]
    requires Sum(diff) == Sum(diff0) + K
    ensures Renumbered(t, SD, K, ss, si0, si, diff0, diff)
  {
    var N := t.N;
    var RM := RedundantMarks(t, N);
    forall i | 0 <= i <= N
      ensures Rank(redU, i) == Rank(RM, i)
    {
      assert redU[..i] == RM[..i];
      RankPrefix(redU, RM, i);
    }
    forall j | 0 <= j < N && !Redundant(t, j)
      ensures Rank(RM, j) < K && ss[Rank(RM, j)] == OwnerSize(t, j)
    {
      SurvivorAt(ssU, redU, N, j);
      assert ss[Rank(RM, j)] == ss[..K][Rank(RM, j)];
    }
  }
}
