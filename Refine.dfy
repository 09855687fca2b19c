/**
 * One pass of `createDistribWrTLit`: the scan of the occurrence list of
 * one literal l, and the invariant that holds after its first k entries.
 *
 * The core of the invariant is stated over the set H of clauses hit so
 * far (kept clauses among the first k entries) and needs of the starting
 * table t0 only its dimensions; the link to k and to the stable table is
 * made once, in `ScanInv`.
 */
module Refine {
  import opened Cnf
  import opened Seqs
  import opened Partition

  /** The kept clauses among the first k entries of the list of l. */
  function Hits(idx: OccurrenceIndex, l: nat, k: nat): set<int>
    requires l < |idx.occ| && k <= |idx.occ[l]|
  {
    set c | 0 <= c < |idx.kept| && idx.kept[c] && c in idx.occ[l][..k]
  }

  /**
   * The mutable state of a pass: buckets, marks, ghost ids and owners,
   * `sizeClauses`, `m_mustUnMark`, distrib, `nbElt`, `counter` and
   * `m_idInVecBucket`.
   */
  datatype Scan = Scan(
    B: seq<BucketSortInfo>, M: seq<int>, G: seq<int>, O: seq<int>, SC: seq<nat>,
    MU: seq<int>, D: seq<nat>, nbElt: nat, counter: nat, I: seq<int>)

  /**
   * The state a pass starts from: a stable table whose unused bucket has just
   * been taken as own bucket `ob` (an empty range no clause is marked to),
   * and room in distrib for the two bookkeeping slots and one id per entry.
   */
  ghost predicate ScanCtx(idx: OccurrenceIndex, t0: Table, ob: nat, l: nat)
  {
    Stable(idx, t0) && t0.U == -1 && ob < |t0.B|
    && (forall c :: 0 <= c < |t0.M| ==> t0.M[c] != ob)
    && t0.B[ob].start == t0.B[ob].end
    && l < |idx.occ| && t0.SD + 2 + |idx.occ[l]| <= |t0.D|
  }

  /** Lengths, and the marks of t0 in range and off the own bucket. */
  ghost predicate Dims(t0: Table, ob: nat, s: Scan)
  {
    ob < |t0.B|
    && |s.B| == |t0.B| && |s.M| == |t0.M| && |s.G| == |t0.M| && |s.SC| == |t0.M|
    && |t0.SC| == |t0.M| && |s.O| == t0.N + s.counter && |s.D| == |t0.D|
    && t0.SD + 2 + s.nbElt <= |s.D|
    && (forall c :: 0 <= c < |t0.M| ==> -1 <= t0.M[c] < |t0.B| && t0.M[c] != ob)
  }

  /** Ranges do not move during the scan; counters record how many members moved. */
  ghost predicate Buckets(t0: Table, ob: nat, s: Scan)
    requires Dims(t0, ob, s)
  {
    var nB := |t0.B|;
    (forall b :: 0 <= b < nB ==>
       s.B[b].start == t0.B[b].start && s.B[b].end == t0.B[b].end
       && s.B[b].start + s.B[b].counter <= s.B[b].end)
    && s.B[ob].counter == 0
    && (forall b :: 0 <= b < nB && s.B[b].counter > 0 ==> b in s.I)
    && (forall j :: 0 <= j < |s.I| ==>
          0 <= s.I[j] < nB && s.B[s.I[j]].counter > 0 && s.B[s.I[j]].redirected == nB + j)
    && (forall c :: 0 <= c < |s.M| ==> -1 <= s.M[c] < nB + |s.I|)
  }

  /**
   * A member of bucket b that the scan has hit moved to b's split and took
   * an id in [start, start + counter); the others stay, with ids above.
   * A clause first seen in this pass is in the own bucket, with a new id.
   */
  ghost predicate Members(t0: Table, ob: nat, H: set<int>, s: Scan)
    requires Dims(t0, ob, s)
  {
    (forall c :: 0 <= c < |s.M| && t0.M[c] >= 0 ==>
       (c in H ==>
          s.M[c] == s.B[t0.M[c]].redirected && s.B[t0.M[c]].counter > 0
          && s.B[t0.M[c]].start <= s.G[c] < s.B[t0.M[c]].start + s.B[t0.M[c]].counter)
       && (c !in H ==>
          s.M[c] == t0.M[c]
          && s.B[t0.M[c]].start + s.B[t0.M[c]].counter <= s.G[c] < s.B[t0.M[c]].end))
    && (forall c :: 0 <= c < |s.M| && t0.M[c] == -1 ==>
          (c in H ==> s.M[c] == ob && t0.N <= s.G[c] < t0.N + s.counter)
          && (c !in H ==> s.M[c] == -1))
  }

  /** O inverts G on the ids in use, old ids stay in their bucket's range, new ids are new clauses'. */
  ghost predicate Owners(t0: Table, ob: nat, s: Scan)
    requires Dims(t0, ob, s)
  {
    (forall id :: 0 <= id < t0.N + s.counter ==>
       0 <= s.O[id] < |s.M| && s.M[s.O[id]] >= 0 && s.G[s.O[id]] == id)
    && (forall c :: 0 <= c < |s.M| && s.M[c] >= 0 ==> 0 <= s.G[c] < t0.N + s.counter && s.O[s.G[c]] == c)
    && (forall b, id :: InRange(s.B, b, id) ==> id < t0.N && t0.M[s.O[id]] == b)
    && (forall id :: t0.N <= id < t0.N + s.counter ==> t0.M[s.O[id]] == -1)
  }

  /** The ids written so far for l. */
  function Written(t0: Table, s: Scan): seq<nat>
    requires t0.SD + 2 + s.nbElt <= |s.D|
  {
    s.D[t0.SD + 2 .. t0.SD + 2 + s.nbElt]
  }

  /** The records of t0 are kept; the ids written so far are increasing and exactly the ids of the clauses hit. */
  ghost predicate WindowOk(t0: Table, ob: nat, H: set<int>, s: Scan)
    requires Dims(t0, ob, s)
  {
    var W := Written(t0, s);
    s.D[..t0.SD + 2] == t0.D[..t0.SD + 2]
    && Increasing(W)
    && (forall j :: 0 <= j < |W| ==> W[j] < t0.N + s.counter && s.O[W[j]] in H)
    && (forall c :: c in H ==> 0 <= c < |s.G| && s.G[c] in W)
  }

  /** Each hit adds one to `sizeClauses` (or sets it to 1 for a new clause); `m_mustUnMark` lists the marked. */
  ghost predicate Counts(t0: Table, ob: nat, H: set<int>, s: Scan)
    requires Dims(t0, ob, s)
  {
    (forall c :: 0 <= c < |s.M| ==>
       s.SC[c] == if c in H then (if t0.M[c] >= 0 then t0.SC[c] + 1 else 1) else t0.SC[c])
    && Distinct(s.MU) && |s.MU| == t0.N + s.counter
    && (forall j :: 0 <= j < |s.MU| ==> 0 <= s.MU[j] < |s.M| && s.M[s.MU[j]] >= 0)
    && (forall c :: 0 <= c < |s.M| && s.M[c] >= 0 ==> c in s.MU)
  }

  ghost predicate Core(t0: Table, ob: nat, H: set<int>, s: Scan)
  {
    Dims(t0, ob, s) && Buckets(t0, ob, s) && Members(t0, ob, H, s)
    && Owners(t0, ob, s) && WindowOk(t0, ob, H, s) && Counts(t0, ob, H, s)
  }

  /** The invariant of the scan after the first k entries of the list of l. */
  ghost predicate ScanInv(idx: OccurrenceIndex, t0: Table, ob: nat, l: nat, k: nat, s: Scan)
  {
    ScanCtx(idx, t0, ob, l) && k <= |idx.occ[l]|
    && s.nbElt == idx.KeptCount(l, k) && s.counter <= s.nbElt <= k
    && Core(t0, ob, Hits(idx, l, k), s)
  }

  /** The scan state before the first entry. */
  function StartScan(t0: Table): Scan
  {
    Scan(t0.B, t0.M, t0.G, t0.O, t0.SC, t0.MU, t0.D, 0, 0, [])
  }

  lemma StartCore(idx: OccurrenceIndex, t0: Table, ob: nat)
    requires Shapes(idx, t0) && Bijection(t0) && RangesMatch(idx, t0) && MarkList(t0)
    requires ob < |t0.B| && forall c :: 0 <= c < |t0.M| ==> t0.M[c] != ob
    requires t0.SD + 2 <= |t0.D|
    ensures Core(t0, ob, {}, StartScan(t0))
  {
    var s := StartScan(t0);
    assert Dims(t0, ob, s);
    forall b | 0 <= b < |t0.B|
      ensures s.B[b].counter == 0 && s.B[b].start <= s.B[b].end
    {
    }
    assert Buckets(t0, ob, s);
    assert Members(t0, ob, {}, s);
    forall b, id | InRange(s.B, b, id)
      ensures id < t0.N && t0.M[s.O[id]] == b
    {
      assert t0.B[b].start <= id < t0.B[b].end;
    }
    assert Owners(t0, ob, s);
    assert WindowOk(t0, ob, {}, s);
    assert Counts(t0, ob, {}, s);
  }

  lemma ScanStart(idx: OccurrenceIndex, t0: Table, ob: nat, l: nat, k: nat, s: Scan)
    requires ScanCtx(idx, t0, ob, l) && k == 0 && s == StartScan(t0)
    ensures ScanInv(idx, t0, ob, l, k, s)
  {
    assert Hits(idx, l, 0) == {} by {
      assert idx.occ[l][..0] == [];
    }
    StartCore(idx, t0, ob);
  }

  /** Entry k adds its clause to the hits when it is kept, and that clause was not hit before. */
  lemma HitsStep(idx: OccurrenceIndex, l: nat, k: nat)
    requires idx.Valid() && l < |idx.occ| && k < |idx.occ[l]|
    ensures idx.kept[idx.occ[l][k]] ==> Hits(idx, l, k + 1) == Hits(idx, l, k) + {idx.occ[l][k]}
    ensures !idx.kept[idx.occ[l][k]] ==> Hits(idx, l, k + 1) == Hits(idx, l, k)
    ensures idx.occ[l][k] !in Hits(idx, l, k)
    ensures idx.KeptCount(l, k + 1) == idx.KeptCount(l, k) + (if idx.kept[idx.occ[l][k]] then 1 else 0)
  {
    assert idx.occ[l][..k + 1] == idx.occ[l][..k] + [idx.occ[l][k]];
    assert forall j :: 0 <= j < k ==> idx.occ[l][j] != idx.occ[l][k];
  }

  /** An entry whose clause is not kept changes nothing. */
  lemma ScanSkip(idx: OccurrenceIndex, t0: Table, ob: nat, l: nat, k: nat, s: Scan)
    requires ScanInv(idx, t0, ob, l, k, s) && k < |idx.occ[l]|
    requires !idx.kept[idx.occ[l][k]]
    ensures ScanInv(idx, t0, ob, l, k + 1, s)
  {
    HitsStep(idx, l, k);
  }

  /** distrib after `pushSorted(tab, n, v)` with tab at `base`: v inserted into the n ids there. */
  predicate Pushed(D: seq<nat>, D': seq<nat>, base: nat, n: nat, v: int)
  {
    |D'| == |D| && base + n < |D|
    && D'[..base] == D[..base]
    && D'[base .. base + n + 1] == InsertSorted(D[base .. base + n], v)
    && D'[base + n + 1 ..] == D[base + n + 1 ..]
  }

  /** The state after a kept, unmarked clause c: marked to the own bucket with the next new id. */
  function NewStep(t0: Table, ob: nat, s: Scan, c: int, D': seq<nat>): Scan
    requires 0 <= c < |s.M| && |s.G| == |s.M| && |s.SC| == |s.M|
  {
    s.(M := s.M[c := ob], G := s.G[c := t0.N + s.counter], O := s.O + [c],
       SC := s.SC[c := 1], MU := s.MU + [c], D := D',
       nbElt := s.nbElt + 1, counter := s.counter + 1)
  }

  ghost predicate NewPre(t0: Table, ob: nat, H: set<int>, s: Scan, c: int, D': seq<nat>)
  {
    Core(t0, ob, H, s) && 0 <= c < |s.M| && c !in H && s.M[c] == -1
    && Pushed(s.D, D', t0.SD + 2, s.nbElt, t0.N + s.counter)
  }

  /** An unmarked clause not hit yet was unmarked in t0 and owns no id. */
  lemma NewFacts(t0: Table, ob: nat, H: set<int>, s: Scan, c: int)
    requires Dims(t0, ob, s) && Members(t0, ob, H, s) && Owners(t0, ob, s)
    requires 0 <= c < |s.M| && c !in H && s.M[c] == -1
    ensures t0.M[c] == -1
    ensures forall id :: 0 <= id < t0.N + s.counter ==> s.O[id] != c
  {
  }

  lemma NewBuckets(t0: Table, ob: nat, s: Scan, c: int, D': seq<nat>)
    requires Dims(t0, ob, s) && Buckets(t0, ob, s) && 0 <= c < |s.M|
    requires Pushed(s.D, D', t0.SD + 2, s.nbElt, t0.N + s.counter)
    ensures Dims(t0, ob, NewStep(t0, ob, s, c, D'))
    ensures Buckets(t0, ob, NewStep(t0, ob, s, c, D'))
  {
    NewWritten(t0, ob, s, c, D');
    var s' := NewStep(t0, ob, s, c, D');
    assert s'.B == s.B && s'.I == s.I;
    forall c' | 0 <= c' < |s'.M|
      ensures -1 <= s'.M[c'] < |t0.B| + |s'.I|
    {
    }
  }

  lemma NewMembers(t0: Table, ob: nat, H: set<int>, s: Scan, c: int, D': seq<nat>)
    requires Dims(t0, ob, s) && Members(t0, ob, H, s)
    requires 0 <= c < |s.M| && c !in H && s.M[c] == -1 && t0.M[c] == -1
    requires Pushed(s.D, D', t0.SD + 2, s.nbElt, t0.N + s.counter)
    ensures Dims(t0, ob, NewStep(t0, ob, s, c, D'))
    ensures Members(t0, ob, H + {c}, NewStep(t0, ob, s, c, D'))
  {
    NewWritten(t0, ob, s, c, D');
    var s' := NewStep(t0, ob, s, c, D');
    forall c' | 0 <= c' < |s'.M| && t0.M[c'] >= 0
      ensures c' != c && s'.M[c'] == s.M[c'] && s'.G[c'] == s.G[c'] && (c' in H + {c} <==> c' in H)
    {
    }
    forall c' | 0 <= c' < |s'.M| && t0.M[c'] == -1
      ensures (c' in H + {c} ==> s'.M[c'] == ob && t0.N <= s'.G[c'] < t0.N + s'.counter)
              && (c' !in H + {c} ==> s'.M[c'] == -1)
    {
    }
  }

  lemma NewOwners(t0: Table, ob: nat, s: Scan, c: int, D': seq<nat>)
    requires Dims(t0, ob, s) && Owners(t0, ob, s)
    requires 0 <= c < |s.M| && s.M[c] == -1 && t0.M[c] == -1
    requires forall id :: 0 <= id < t0.N + s.counter ==> s.O[id] != c
    requires Pushed(s.D, D', t0.SD + 2, s.nbElt, t0.N + s.counter)
    ensures Dims(t0, ob, NewStep(t0, ob, s, c, D'))
    ensures Owners(t0, ob, NewStep(t0, ob, s, c, D'))
  {
    NewWritten(t0, ob, s, c, D');
    var s' := NewStep(t0, ob, s, c, D');
    forall b, id | InRange(s'.B, b, id)
      ensures id < t0.N && t0.M[s'.O[id]] == b
    {
      assert InRange(s.B, b, id);
      assert s'.O[id] == s.O[id];
    }
  }

  /** The new clause's id is inserted into the written ids. */
  lemma NewWritten(t0: Table, ob: nat, s: Scan, c: int, D': seq<nat>)
    requires Dims(t0, ob, s) && 0 <= c < |s.M|
    requires Pushed(s.D, D', t0.SD + 2, s.nbElt, t0.N + s.counter)
    ensures Dims(t0, ob, NewStep(t0, ob, s, c, D'))
    ensures Written(t0, NewStep(t0, ob, s, c, D')) == InsertSorted(Written(t0, s), t0.N + s.counter)
  {
  }

  lemma NewWindow(t0: Table, ob: nat, H: set<int>, s: Scan, c: int, D': seq<nat>)
    requires Dims(t0, ob, s) && WindowOk(t0, ob, H, s) && 0 <= c < |s.M| && c !in H
    requires Pushed(s.D, D', t0.SD + 2, s.nbElt, t0.N + s.counter)
    ensures Dims(t0, ob, NewStep(t0, ob, s, c, D'))
    ensures WindowOk(t0, ob, H + {c}, NewStep(t0, ob, s, c, D'))
  {
    NewWritten(t0, ob, s, c, D');
    var s' := NewStep(t0, ob, s, c, D');
    var W, v := Written(t0, s), t0.N + s.counter;
    InsertSortedIncreasing(W, v);
    forall j | 0 <= j < |Written(t0, s')|
      ensures Written(t0, s')[j] < t0.N + s'.counter && s'.O[Written(t0, s')[j]] in H + {c}
    {
      InsertSortedMembers(W, v, Written(t0, s')[j]);
    }
    forall c' | c' in H + {c}
      ensures 0 <= c' < |s'.G| && s'.G[c'] in Written(t0, s')
    {
      InsertSortedMembers(W, v, s'.G[c']);
    }
  }

  lemma NewCounts(t0: Table, ob: nat, H: set<int>, s: Scan, c: int, D': seq<nat>)
    requires Dims(t0, ob, s) && Counts(t0, ob, H, s)
    requires 0 <= c < |s.M| && c !in H && s.M[c] == -1 && t0.M[c] == -1
    requires Pushed(s.D, D', t0.SD + 2, s.nbElt, t0.N + s.counter)
    ensures Dims(t0, ob, NewStep(t0, ob, s, c, D'))
    ensures Counts(t0, ob, H + {c}, NewStep(t0, ob, s, c, D'))
  {
    NewWritten(t0, ob, s, c, D');
    var s' := NewStep(t0, ob, s, c, D');
    assert c !in s.MU;
    assert Distinct(s'.MU);
  }

  lemma CoreNew(t0: Table, ob: nat, H: set<int>, s: Scan, c: int, D': seq<nat>)
    requires NewPre(t0, ob, H, s, c, D')
    ensures Core(t0, ob, H + {c}, NewStep(t0, ob, s, c, D'))
  {
    NewFacts(t0, ob, H, s, c);
    NewBuckets(t0, ob, s, c, D');
    NewMembers(t0, ob, H, s, c, D');
    NewOwners(t0, ob, s, c, D');
    NewWindow(t0, ob, H, s, c, D');
    NewCounts(t0, ob, H, s, c, D');
  }

  /** The first id of bucket b not yet taken by a moved member. */
  function NextId(s: Scan, b: nat): nat
    requires b < |s.B|
  {
    s.B[b].start + s.B[b].counter
  }

  /**
   * The state after a kept clause c marked to bucket b = M[c]: the bucket
   * gets a split target the first time, c moves there, takes the id
   * `start + counter` (a ghost swap with the member that held it) and the
   * counter grows.
   */
  function MarkedStep(s: Scan, c: int, D': seq<nat>): Scan
    requires 0 <= c < |s.M| && 0 <= s.M[c] < |s.B| && |s.G| == |s.M| && |s.SC| == |s.M|
    requires NextId(s, s.M[c]) < |s.O| && 0 <= s.G[c] < |s.O|
    requires 0 <= s.O[NextId(s, s.M[c])] < |s.G|
  {
    var b := s.M[c];
    var bk := s.B[b];
    var id0 := NextId(s, b);
    var g := s.G[c];
    var c' := s.O[id0];
    var red := if bk.counter == 0 then |s.B| + |s.I| else bk.redirected;
    s.(B := s.B[b := bk.(counter := bk.counter + 1, redirected := red)],
       I := if bk.counter == 0 then s.I + [b] else s.I,
       M := s.M[c := red],
       G := s.G[c' := g][c := id0],
       O := s.O[g := c'][id0 := c],
       SC := s.SC[c := s.SC[c] + 1],
       D := D', nbElt := s.nbElt + 1)
  }

  /**
   * What holds of a kept clause c, not hit yet and marked: it is still in
   * its t0 bucket b, its id g is at or after the next id id0 of b, the
   * owner c' of id0 is an unhit member of b, and neither id is written.
   */
  ghost predicate MarkedLocal(t0: Table, H: set<int>, s: Scan, c: int, D': seq<nat>)
  {
    0 <= c < |s.M| && |s.G| == |s.M| && |s.SC| == |s.M| && |t0.M| == |s.M|
    && c !in H && 0 <= s.M[c] < |s.B| && t0.M[c] == s.M[c]
    && t0.SD + 2 + s.nbElt <= |s.D|
    && NextId(s, s.M[c]) <= s.G[c] < s.B[s.M[c]].end
    && NextId(s, s.M[c]) < t0.N && s.G[c] < t0.N && t0.N <= |s.O|
    && 0 <= s.O[NextId(s, s.M[c])] < |s.M|
    && t0.M[s.O[NextId(s, s.M[c])]] == s.M[c]
    && s.G[s.O[NextId(s, s.M[c])]] == NextId(s, s.M[c])
    && s.O[NextId(s, s.M[c])] !in H
    && s.M[s.O[NextId(s, s.M[c])]] == s.M[c]
    && s.O[s.G[c]] == c
    && (s.O[NextId(s, s.M[c])] == c <==> s.G[c] == NextId(s, s.M[c]))
  }

  /** Neither id of `MarkedLocal` is written yet, and distrib gets the next id inserted. */
  ghost predicate MarkedWrite(t0: Table, s: Scan, c: int, D': seq<nat>)
    requires 0 <= c < |s.M| && 0 <= s.M[c] < |s.B| && |s.G| == |s.M|
    requires t0.SD + 2 + s.nbElt <= |s.D|
  {
    NextId(s, s.M[c]) !in Written(t0, s) && s.G[c] !in Written(t0, s)
    && Pushed(s.D, D', t0.SD + 2, s.nbElt, NextId(s, s.M[c]))
  }

  /** A marked clause not hit yet is still marked to its bucket of t0. */
  lemma MarkedBucket(t0: Table, ob: nat, H: set<int>, s: Scan, c: int)
    requires Core(t0, ob, H, s) && 0 <= c < |s.M| && c !in H && s.M[c] >= 0
    ensures s.M[c] == t0.M[c] < |s.B| && s.M[c] != ob
  {
  }

  lemma MarkedFacts(t0: Table, ob: nat, H: set<int>, s: Scan, c: int, D': seq<nat>)
    requires Core(t0, ob, H, s) && 0 <= c < |s.M| && c !in H && 0 <= s.M[c] < |s.B|
    requires Pushed(s.D, D', t0.SD + 2, s.nbElt, NextId(s, s.M[c]))
    ensures s.M[c] != ob && MarkedLocal(t0, H, s, c, D') && MarkedWrite(t0, s, c, D')
  {
    var b := t0.M[c];
    var id0 := NextId(s, b);
    var c' := s.O[id0];
    assert InRange(s.B, b, id0);
    assert t0.M[c'] == b;
  }


  /** The fields of `MarkedStep`, named. */
  lemma MarkedFields(s: Scan, c: int, D': seq<nat>, b: int, id0: nat, g: int, c': int, red: nat)
    requires 0 <= c < |s.M| && 0 <= s.M[c] < |s.B| && |s.G| == |s.M| && |s.SC| == |s.M|
    requires NextId(s, s.M[c]) < |s.O| && 0 <= s.G[c] < |s.O|
    requires 0 <= s.O[NextId(s, s.M[c])] < |s.G|
    requires b == s.M[c] && id0 == NextId(s, b) && g == s.G[c] && c' == s.O[id0]
    requires red == if s.B[b].counter == 0 then |s.B| + |s.I| else s.B[b].redirected
    ensures MarkedStep(s, c, D').B == s.B[b := s.B[b].(counter := s.B[b].counter + 1, redirected := red)]
    ensures MarkedStep(s, c, D').I == if s.B[b].counter == 0 then s.I + [b] else s.I
    ensures MarkedStep(s, c, D').M == s.M[c := red]
    ensures MarkedStep(s, c, D').G == s.G[c' := g][c := id0]
    ensures MarkedStep(s, c, D').O == s.O[g := c'][id0 := c]
    ensures MarkedStep(s, c, D').SC == s.SC[c := s.SC[c] + 1]
    ensures MarkedStep(s, c, D').MU == s.MU && MarkedStep(s, c, D').D == D'
    ensures MarkedStep(s, c, D').nbElt == s.nbElt + 1 && MarkedStep(s, c, D').counter == s.counter
  {
  }

  lemma MarkedDims(t0: Table, ob: nat, H: set<int>, s: Scan, c: int, D': seq<nat>)
    requires Dims(t0, ob, s) && MarkedLocal(t0, H, s, c, D') && MarkedWrite(t0, s, c, D')
    ensures Dims(t0, ob, MarkedStep(s, c, D'))
    ensures Written(t0, MarkedStep(s, c, D')) == InsertSorted(Written(t0, s), NextId(s, s.M[c]))
  {
  }

  /** The split targets after the marked step: the list of buckets with moved members and their targets. */
  lemma MarkedTargets(t0: Table, ob: nat, s: Scan, c: int, D': seq<nat>)
    requires MarkedArgs(s, c) && Dims(t0, ob, s) && Buckets(t0, ob, s)
    ensures var s' := MarkedStep(s, c, D');
              (forall b'' :: 0 <= b'' < |t0.B| && s'.B[b''].counter > 0 ==> b'' in s'.I)
              && (forall j :: 0 <= j < |s'.I| ==>
                    0 <= s'.I[j] < |t0.B| && s'.B[s'.I[j]].counter > 0 && s'.B[s'.I[j]].redirected == |t0.B| + j)
  {
    var b := s.M[c];
    var id0, g := NextId(s, b), s.G[c];
    var c', s' := s.O[id0], MarkedStep(s, c, D');
    var red := if s.B[b].counter == 0 then |s.B| + |s.I| else s.B[b].redirected;
    MarkedFields(s, c, D', b, id0, g, c', red);
    var nB := |t0.B|;
    forall b'' | 0 <= b'' < nB && s'.B[b''].counter > 0
      ensures b'' in s'.I
    {
      if b'' != b {
        assert s.B[b''].counter > 0;
      }
    }
    forall j | 0 <= j < |s'.I|
      ensures 0 <= s'.I[j] < nB && s'.B[s'.I[j]].counter > 0 && s'.B[s'.I[j]].redirected == nB + j
    {
      if j < |s.I| {
        assert s'.I[j] == s.I[j];
      }
    }
  }

  lemma MarkedBuckets(t0: Table, ob: nat, s: Scan, c: int, D': seq<nat>)
    requires MarkedArgs(s, c) && NextId(s, s.M[c]) < s.B[s.M[c]].end
    requires Dims(t0, ob, MarkedStep(s, c, D'))
    requires Dims(t0, ob, s) && Buckets(t0, ob, s) && s.M[c] != ob
    ensures Buckets(t0, ob, MarkedStep(s, c, D'))
  {
    var b := s.M[c];
    var id0, g := NextId(s, b), s.G[c];
    var c', s' := s.O[id0], MarkedStep(s, c, D');
    var red := if s.B[b].counter == 0 then |s.B| + |s.I| else s.B[b].redirected;
    MarkedFields(s, c, D', b, id0, g, c', red);
    MarkedTargets(t0, ob, s, c, D');
    var nB := |t0.B|;
    forall b'' | 0 <= b'' < nB
      ensures s'.B[b''].start == t0.B[b''].start && s'.B[b''].end == t0.B[b''].end
      ensures s'.B[b''].start + s'.B[b''].counter <= s'.B[b''].end
    {
    }
    forall x | 0 <= x < |s'.M|
      ensures -1 <= s'.M[x] < nB + |s'.I|
    {
    }
  }

  /** One clause x of a t0 bucket after the marked step. */
  lemma MarkedMemberOld(t0: Table, ob: nat, H: set<int>, s: Scan, c: int, D': seq<nat>, x: int)
    requires MarkedLocal(t0, H, s, c, D')
    requires Dims(t0, ob, MarkedStep(s, c, D'))
    requires Dims(t0, ob, s) && Members(t0, ob, H, s) && Owners(t0, ob, s)
    requires 0 <= x < |s.M| && t0.M[x] >= 0
    ensures x in H + {c} ==>
              MarkedStep(s, c, D').M[x] == MarkedStep(s, c, D').B[t0.M[x]].redirected && MarkedStep(s, c, D').B[t0.M[x]].counter > 0
              && MarkedStep(s, c, D').B[t0.M[x]].start <= MarkedStep(s, c, D').G[x] < MarkedStep(s, c, D').B[t0.M[x]].start + MarkedStep(s, c, D').B[t0.M[x]].counter
    ensures x !in H + {c} ==>
              MarkedStep(s, c, D').M[x] == t0.M[x]
              && MarkedStep(s, c, D').B[t0.M[x]].start + MarkedStep(s, c, D').B[t0.M[x]].counter <= MarkedStep(s, c, D').G[x] < MarkedStep(s, c, D').B[t0.M[x]].end
  {
    var b := s.M[c];
    var id0, g := NextId(s, b), s.G[c];
    var c', s' := s.O[id0], MarkedStep(s, c, D');
    var red := if s.B[b].counter == 0 then |s.B| + |s.I| else s.B[b].redirected;
    MarkedFields(s, c, D', b, id0, g, c', red);
    if x == c {
    } else if x == c' {
      assert s'.G[x] == g && g != id0;
    } else if x in H {
      assert s'.G[x] == s.G[x];
    } else {
      assert s'.G[x] == s.G[x];
      assert s.O[s.G[x]] == x;
    }
  }

  lemma MarkedMembers(t0: Table, ob: nat, H: set<int>, s: Scan, c: int, D': seq<nat>)
    requires MarkedLocal(t0, H, s, c, D')
    requires Dims(t0, ob, MarkedStep(s, c, D'))
    requires Dims(t0, ob, s) && Members(t0, ob, H, s) && Owners(t0, ob, s)
    ensures Members(t0, ob, H + {c}, MarkedStep(s, c, D'))
  {
    var b := s.M[c];
    var id0, g := NextId(s, b), s.G[c];
    var c', s' := s.O[id0], MarkedStep(s, c, D');
    var red := if s.B[b].counter == 0 then |s.B| + |s.I| else s.B[b].redirected;
    MarkedFields(s, c, D', b, id0, g, c', red);
    forall x | 0 <= x < |s'.M| && t0.M[x] >= 0
      ensures x in H + {c} ==>
                s'.M[x] == s'.B[t0.M[x]].redirected && s'.B[t0.M[x]].counter > 0
                && s'.B[t0.M[x]].start <= s'.G[x] < s'.B[t0.M[x]].start + s'.B[t0.M[x]].counter
      ensures x !in H + {c} ==>
                s'.M[x] == t0.M[x]
                && s'.B[t0.M[x]].start + s'.B[t0.M[x]].counter <= s'.G[x] < s'.B[t0.M[x]].end
    {
      MarkedMemberOld(t0, ob, H, s, c, D', x);
    }
    forall x | 0 <= x < |s'.M| && t0.M[x] == -1
      ensures (x in H + {c} ==> s'.M[x] == ob && t0.N <= s'.G[x] < t0.N + s'.counter)
              && (x !in H + {c} ==> s'.M[x] == -1)
    {
      assert x != c && x != c';
    }
  }

  lemma MarkedRange(t0: Table, ob: nat, H: set<int>, s: Scan, c: int, D': seq<nat>, b'': int, id: int)
    requires MarkedLocal(t0, H, s, c, D')
    requires Dims(t0, ob, MarkedStep(s, c, D'))
    requires Dims(t0, ob, s) && Owners(t0, ob, s)
    requires InRange(MarkedStep(s, c, D').B, b'', id)
    ensures id < t0.N && t0.M[MarkedStep(s, c, D').O[id]] == b''
  {
    var b := s.M[c];
    var id0, g := NextId(s, b), s.G[c];
    var c', s' := s.O[id0], MarkedStep(s, c, D');
    var red := if s.B[b].counter == 0 then |s.B| + |s.I| else s.B[b].redirected;
    MarkedFields(s, c, D', b, id0, g, c', red);
    assert InRange(s.B, b'', id);
    assert id < t0.N && t0.M[s.O[id]] == b'';
    if id == id0 || id == g {
      assert InRange(s.B, b, id);
      assert t0.M[s.O[id]] == b;
      assert s'.O[id] == c || s'.O[id] == c';
    } else {
      assert s'.O[id] == s.O[id];
    }
  }

  lemma MarkedOwners(t0: Table, ob: nat, H: set<int>, s: Scan, c: int, D': seq<nat>)
    requires MarkedLocal(t0, H, s, c, D')
    requires Dims(t0, ob, MarkedStep(s, c, D'))
    requires Dims(t0, ob, s) && Owners(t0, ob, s)
    ensures Owners(t0, ob, MarkedStep(s, c, D'))
  {
    var b := s.M[c];
    var id0, g := NextId(s, b), s.G[c];
    var c', s' := s.O[id0], MarkedStep(s, c, D');
    var red := if s.B[b].counter == 0 then |s.B| + |s.I| else s.B[b].redirected;
    MarkedFields(s, c, D', b, id0, g, c', red);
    forall id | 0 <= id < t0.N + s'.counter
      ensures 0 <= s'.O[id] < |s'.M| && s'.M[s'.O[id]] >= 0 && s'.G[s'.O[id]] == id
    {
      if id != id0 && id != g {
        assert s'.O[id] == s.O[id];
        assert s.O[id] != c && s.O[id] != c';
      }
    }
    forall x | 0 <= x < |s'.M| && s'.M[x] >= 0
      ensures 0 <= s'.G[x] < t0.N + s'.counter && s'.O[s'.G[x]] == x
    {
      if x == c {
        assert s'.G[x] == id0 && s'.O[id0] == c;
      } else if x == c' {
        assert g != id0;
        assert s'.G[x] == g && s'.O[g] == c';
      } else {
        assert s'.M[x] == s.M[x];
        assert s'.G[x] == s.G[x];
        assert s.G[x] != g && s.G[x] != id0;
      }
    }
    forall b'', id | InRange(s'.B, b'', id)
      ensures id < t0.N && t0.M[s'.O[id]] == b''
    {
      MarkedRange(t0, ob, H, s, c, D', b'', id);
    }
    forall id | t0.N <= id < t0.N + s'.counter
      ensures t0.M[s'.O[id]] == -1
    {
      assert id != id0 && id != g;
    }
  }

  /** An entry of the written ids after the marked step has a hit owner. */
  lemma MarkedWindowEntry(t0: Table, ob: nat, H: set<int>, s: Scan, c: int, D': seq<nat>, j: int)
    requires MarkedLocal(t0, H, s, c, D') && MarkedWrite(t0, s, c, D')
    requires Dims(t0, ob, s) && WindowOk(t0, ob, H, s)
    requires 0 <= j < |Written(t0, MarkedStep(s, c, D'))|
    ensures Written(t0, MarkedStep(s, c, D'))[j] < t0.N + MarkedStep(s, c, D').counter
    ensures MarkedStep(s, c, D').O[Written(t0, MarkedStep(s, c, D'))[j]] in H + {c}
  {
    var b := s.M[c];
    var id0, g := NextId(s, b), s.G[c];
    var c', s' := s.O[id0], MarkedStep(s, c, D');
    var red := if s.B[b].counter == 0 then |s.B| + |s.I| else s.B[b].redirected;
    MarkedFields(s, c, D', b, id0, g, c', red);
    MarkedDims(t0, ob, H, s, c, D');
    var W, W' := Written(t0, s), Written(t0, s');
    InsertSortedMembers(W, id0, W'[j]);
    if W'[j] != id0 {
      var j0 :| 0 <= j0 < |W| && W[j0] == W'[j];
      assert W'[j] != g;
      assert s'.O[W'[j]] == s.O[W[j0]];
    }
  }

  /** A clause hit after the marked step has its id written. */
  lemma MarkedWindowHit(t0: Table, ob: nat, H: set<int>, s: Scan, c: int, D': seq<nat>, x: int)
    requires MarkedLocal(t0, H, s, c, D') && MarkedWrite(t0, s, c, D')
    requires Dims(t0, ob, s) && WindowOk(t0, ob, H, s)
    requires x in H + {c}
    ensures 0 <= x < |MarkedStep(s, c, D').G| && MarkedStep(s, c, D').G[x] in Written(t0, MarkedStep(s, c, D'))
  {
    var b := s.M[c];
    var id0, g := NextId(s, b), s.G[c];
    var c', s' := s.O[id0], MarkedStep(s, c, D');
    var red := if s.B[b].counter == 0 then |s.B| + |s.I| else s.B[b].redirected;
    MarkedFields(s, c, D', b, id0, g, c', red);
    MarkedDims(t0, ob, H, s, c, D');
    var W := Written(t0, s);
    if x != c {
      assert x != c';
      assert s'.G[x] == s.G[x];
      InsertSortedMembers(W, id0, s.G[x]);
    } else {
      InsertSortedMembers(W, id0, id0);
    }
  }

  lemma MarkedWindow(t0: Table, ob: nat, H: set<int>, s: Scan, c: int, D': seq<nat>)
    requires MarkedLocal(t0, H, s, c, D') && MarkedWrite(t0, s, c, D')
    requires Dims(t0, ob, s) && WindowOk(t0, ob, H, s)
    ensures Dims(t0, ob, MarkedStep(s, c, D'))
    ensures WindowOk(t0, ob, H + {c}, MarkedStep(s, c, D'))
  {
    var b := s.M[c];
    var id0, g := NextId(s, b), s.G[c];
    var c', s' := s.O[id0], MarkedStep(s, c, D');
    var red := if s.B[b].counter == 0 then |s.B| + |s.I| else s.B[b].redirected;
    MarkedFields(s, c, D', b, id0, g, c', red);
    MarkedDims(t0, ob, H, s, c, D');
    var W, W' := Written(t0, s), Written(t0, s');
    assert s'.D[..t0.SD + 2] == s.D[..t0.SD + 2];
    InsertSortedIncreasing(W, id0);
    forall j | 0 <= j < |W'|
      ensures W'[j] < t0.N + s'.counter && s'.O[W'[j]] in H + {c}
    {
      MarkedWindowEntry(t0, ob, H, s, c, D', j);
    }
    forall x | x in H + {c}
      ensures 0 <= x < |s'.G| && s'.G[x] in W'
    {
      MarkedWindowHit(t0, ob, H, s, c, D', x);
    }
  }

  lemma MarkedCounts(t0: Table, ob: nat, H: set<int>, s: Scan, c: int, D': seq<nat>)
    requires MarkedLocal(t0, H, s, c, D')
    requires Dims(t0, ob, MarkedStep(s, c, D'))
    requires Dims(t0, ob, s) && Counts(t0, ob, H, s)
    ensures Counts(t0, ob, H + {c}, MarkedStep(s, c, D'))
  {
    var b := s.M[c];
    var id0, g := NextId(s, b), s.G[c];
    var c', s' := s.O[id0], MarkedStep(s, c, D');
    var red := if s.B[b].counter == 0 then |s.B| + |s.I| else s.B[b].redirected;
    MarkedFields(s, c, D', b, id0, g, c', red);
  }

  lemma CoreMarked(t0: Table, ob: nat, H: set<int>, s: Scan, c: int, D': seq<nat>)
    requires Core(t0, ob, H, s) && 0 <= c < |s.M| && c !in H && 0 <= s.M[c] < |s.B|
    requires Pushed(s.D, D', t0.SD + 2, s.nbElt, NextId(s, s.M[c]))
    ensures MarkedLocal(t0, H, s, c, D')
    ensures Core(t0, ob, H + {c}, MarkedStep(s, c, D'))
  {
    MarkedFacts(t0, ob, H, s, c, D');
    MarkedDims(t0, ob, H, s, c, D');
    assert MarkedArgs(s, c);
    MarkedBuckets(t0, ob, s, c, D');
    MarkedMembers(t0, ob, H, s, c, D');
    MarkedOwners(t0, ob, H, s, c, D');
    MarkedWindow(t0, ob, H, s, c, D');
    MarkedCounts(t0, ob, H, s, c, D');
  }

  /** A kept clause seen for the first time in the whole refinement. */
  lemma ScanNew(idx: OccurrenceIndex, t0: Table, ob: nat, l: nat, k: nat, s: Scan, D': seq<nat>)
    requires ScanInv(idx, t0, ob, l, k, s) && k < |idx.occ[l]|
    requires idx.kept[idx.occ[l][k]] && s.M[idx.occ[l][k]] == -1
    requires Pushed(s.D, D', t0.SD + 2, s.nbElt, t0.N + s.counter)
    ensures ScanInv(idx, t0, ob, l, k + 1, NewStep(t0, ob, s, idx.occ[l][k], D'))
  {
    HitsStep(idx, l, k);
    CoreNew(t0, ob, Hits(idx, l, k), s, idx.occ[l][k], D');
  }

  /** A kept clause already marked: the bucket it is in and the room left for one more id. */
  lemma ScanMarkedBucket(idx: OccurrenceIndex, t0: Table, ob: nat, l: nat, k: nat, s: Scan)
    requires ScanInv(idx, t0, ob, l, k, s) && k < |idx.occ[l]|
    requires idx.kept[idx.occ[l][k]] && s.M[idx.occ[l][k]] >= 0
    ensures s.M[idx.occ[l][k]] < |s.B| && t0.SD + 2 + s.nbElt < |s.D|
  {
    HitsStep(idx, l, k);
    MarkedBucket(t0, ob, Hits(idx, l, k), s, idx.occ[l][k]);
  }

  /** A kept clause already marked: it moves to its bucket's split. */
  lemma ScanMarked(idx: OccurrenceIndex, t0: Table, ob: nat, l: nat, k: nat, s: Scan, D': seq<nat>)
    requires ScanInv(idx, t0, ob, l, k, s) && k < |idx.occ[l]|
    requires idx.kept[idx.occ[l][k]] && 0 <= s.M[idx.occ[l][k]] < |s.B|
    requires Pushed(s.D, D', t0.SD + 2, s.nbElt, NextId(s, s.M[idx.occ[l][k]]))
    ensures MarkedLocal(t0, Hits(idx, l, k), s, idx.occ[l][k], D')
    ensures ScanInv(idx, t0, ob, l, k + 1, MarkedStep(s, idx.occ[l][k], D'))
  {
    HitsStep(idx, l, k);
    CoreMarked(t0, ob, Hits(idx, l, k), s, idx.occ[l][k], D');
  }

  /** distrib once `pushSorted` put v among the n ids at base (unchanged when there is no room). */
  function PushInto(D: seq<nat>, base: nat, n: nat, v: nat): (D': seq<nat>)
    ensures base + n < |D| ==> Pushed(D, D', base, n, v)
  {
    if base + n < |D| then
      var w := D[base .. base + n];
      InsertSortedElements(w, v);
      var ins: seq<nat> := InsertSorted(w, v);
      var D' := D[..base] + ins + D[base + n + 1 ..];
      assert D'[..base] == D[..base];
      assert D'[base .. base + n + 1] == ins;
      assert D'[base + n + 1 ..] == D[base + n + 1 ..];
      D'
    else D
  }

  /** `pushSorted` keeps a sorted window sorted, and adds exactly v to it. */
  lemma PushIntoWindow(D: seq<nat>, base: nat, n: nat, v: nat)
    requires base + n < |D|
    ensures Sorted(D[base .. base + n]) ==> Sorted(PushInto(D, base, n, v)[base .. base + n + 1])
    ensures multiset(PushInto(D, base, n, v)[base .. base + n + 1]) == multiset(D[base .. base + n]) + multiset{v}
    ensures |PushInto(D, base, n, v)| == |D|
  {
    if Sorted(D[base .. base + n]) {
      InsertSortedSorted(D[base .. base + n], v);
    }
    InsertSortedPerm(D[base .. base + n], v);
  }

  /** What `MarkedStep` needs of the scan state to move clause c. */
  predicate MarkedArgs(s: Scan, c: int)
  {
    0 <= c < |s.M| && 0 <= s.M[c] < |s.B| && |s.G| == |s.M| && |s.SC| == |s.M|
    && NextId(s, s.M[c]) < |s.O| && 0 <= s.G[c] < |s.O| && 0 <= s.O[NextId(s, s.M[c])] < |s.G|
  }

  /**
   * One iteration of the loop of `createDistribWrTLit` on the entry c of the
   * list: a clause that is not kept is skipped, an unmarked one is new, a
   * marked one moves. The state is left alone where it lacks what a step
   * needs, which `ScanInv` rules out.
   */
  function ScanStep(idx: OccurrenceIndex, t0: Table, ob: nat, c: int, s: Scan): Scan
  {
    if !(0 <= c < |idx.kept| && idx.kept[c]) then s
    else if !(c < |s.M| && |s.G| == |s.M| && |s.SC| == |s.M| && t0.SD + 2 + s.nbElt < |s.D|) then s
    else if s.M[c] == -1 then NewStep(t0, ob, s, c, PushInto(s.D, t0.SD + 2, s.nbElt, t0.N + s.counter))
    else if MarkedArgs(s, c) then MarkedStep(s, c, PushInto(s.D, t0.SD + 2, s.nbElt, NextId(s, s.M[c])))
    else s
  }

  /** The scan state after the first k entries of the list of l. */
  function ScanFrom(idx: OccurrenceIndex, t0: Table, ob: nat, l: nat, k: nat): Scan
    requires l < |idx.occ| && k <= |idx.occ[l]|
  {
    if k == 0 then StartScan(t0)
    else ScanStep(idx, t0, ob, idx.occ[l][k - 1], ScanFrom(idx, t0, ob, l, k - 1))
  }

  /** The guards a kept entry c meets in a state of the scan. */
  predicate Room(t0: Table, s: Scan, c: int)
  {
    0 <= c < |s.M| && |s.G| == |s.M| && |s.SC| == |s.M| && t0.SD + 2 + s.nbElt < |s.D|
    && (s.M[c] != -1 ==> MarkedArgs(s, c))
  }

  /** What a step reads of the state: the entry is a clause, and a kept one has room and, when marked, its bucket. */
  lemma StepGuards(idx: OccurrenceIndex, t0: Table, ob: nat, l: nat, k: nat, s: Scan)
    requires ScanInv(idx, t0, ob, l, k, s) && k < |idx.occ[l]|
    ensures 0 <= idx.occ[l][k] < |idx.kept| && |s.B| == |t0.B| && |s.D| == |t0.D|
    ensures idx.kept[idx.occ[l][k]] ==> Room(t0, s, idx.occ[l][k])
  {
    var c := idx.occ[l][k];
    if idx.kept[c] && s.M[c] != -1 {
      assert -1 <= s.M[c];
      ScanMarkedBucket(idx, t0, ob, l, k, s);
      ScanMarked(idx, t0, ob, l, k, s, PushInto(s.D, t0.SD + 2, s.nbElt, NextId(s, s.M[c])));
    }
  }

  lemma StepSkips(idx: OccurrenceIndex, t0: Table, ob: nat, c: int, s: Scan)
    requires 0 <= c < |idx.kept| && !idx.kept[c]
    ensures ScanStep(idx, t0, ob, c, s) == s
  {
  }

  lemma StepIsNew(idx: OccurrenceIndex, t0: Table, ob: nat, c: int, s: Scan)
    requires 0 <= c < |idx.kept| && idx.kept[c] && Room(t0, s, c) && s.M[c] == -1
    ensures ScanStep(idx, t0, ob, c, s) == NewStep(t0, ob, s, c, PushInto(s.D, t0.SD + 2, s.nbElt, t0.N + s.counter))
  {
  }

  lemma StepIsMarked(idx: OccurrenceIndex, t0: Table, ob: nat, c: int, s: Scan)
    requires 0 <= c < |idx.kept| && idx.kept[c] && Room(t0, s, c) && s.M[c] != -1
    ensures MarkedArgs(s, c)
    ensures ScanStep(idx, t0, ob, c, s) == MarkedStep(s, c, PushInto(s.D, t0.SD + 2, s.nbElt, NextId(s, s.M[c])))
  {
  }

  /** One step keeps the scan invariant. */
  lemma StepInv(idx: OccurrenceIndex, t0: Table, ob: nat, l: nat, k: nat, s: Scan)
    requires ScanInv(idx, t0, ob, l, k, s) && k < |idx.occ[l]|
    ensures ScanInv(idx, t0, ob, l, k + 1, ScanStep(idx, t0, ob, idx.occ[l][k], s))
  {
    var c := idx.occ[l][k];
    StepGuards(idx, t0, ob, l, k, s);
    if !idx.kept[c] {
      StepSkips(idx, t0, ob, c, s);
      ScanSkip(idx, t0, ob, l, k, s);
    } else if s.M[c] == -1 {
      StepIsNew(idx, t0, ob, c, s);
      ScanNew(idx, t0, ob, l, k, s, PushInto(s.D, t0.SD + 2, s.nbElt, t0.N + s.counter));
    } else {
      StepIsMarked(idx, t0, ob, c, s);
      ScanMarked(idx, t0, ob, l, k, s, PushInto(s.D, t0.SD + 2, s.nbElt, NextId(s, s.M[c])));
    }
  }

  /** The scan invariant holds after every prefix of the list. */
  lemma {:induction false} ScanFromInv(idx: OccurrenceIndex, t0: Table, ob: nat, l: nat, k: nat)
    requires ScanCtx(idx, t0, ob, l) && k <= |idx.occ[l]|
    ensures ScanInv(idx, t0, ob, l, k, ScanFrom(idx, t0, ob, l, k))
    decreases k, 1
  {
    if k == 0 {
      ScanStart(idx, t0, ob, l, k, ScanFrom(idx, t0, ob, l, k));
    } else {
      ScanFromNext(idx, t0, ob, l, k - 1, k);
    }
  }

  /** The invariant after k entries gives the invariant after k' = k + 1. */
  lemma {:induction false} ScanFromNext(idx: OccurrenceIndex, t0: Table, ob: nat, l: nat, k: nat, k': nat)
    requires ScanCtx(idx, t0, ob, l) && k < |idx.occ[l]| && k' == k + 1
    ensures ScanInv(idx, t0, ob, l, k', ScanFrom(idx, t0, ob, l, k'))
    decreases k', 0
  {
    var s := ScanFrom(idx, t0, ob, l, k);
    ScanFromInv(idx, t0, ob, l, k);
    assert ScanFrom(idx, t0, ob, l, k') == ScanStep(idx, t0, ob, idx.occ[l][k], s);
    StepInvAt(idx, t0, ob, l, k, k', s, ScanFrom(idx, t0, ob, l, k'));
  }

  /** StepInv for a step from entry k to k' = k + 1 reaching the state s'. */
  lemma StepInvAt(idx: OccurrenceIndex, t0: Table, ob: nat, l: nat, k: nat, k': nat, s: Scan, s': Scan)
    requires ScanInv(idx, t0, ob, l, k, s) && k < |idx.occ[l]|
    requires k' == k + 1 && s' == ScanStep(idx, t0, ob, idx.occ[l][k], s)
    ensures ScanInv(idx, t0, ob, l, k', s')
  {
    StepInv(idx, t0, ob, l, k, s);
  }

  /** What the loop body reads of the state: the entry is a clause, and a kept one has room and its bucket. */
  lemma ScanFromFacts(idx: OccurrenceIndex, t0: Table, ob: nat, l: nat, k: nat)
    requires ScanCtx(idx, t0, ob, l) && k < |idx.occ[l]|
    ensures 0 <= idx.occ[l][k] < |idx.kept|
    ensures |ScanFrom(idx, t0, ob, l, k).B| == |t0.B| && |ScanFrom(idx, t0, ob, l, k).D| == |t0.D|
    ensures idx.kept[idx.occ[l][k]] ==> Room(t0, ScanFrom(idx, t0, ob, l, k), idx.occ[l][k])
  {
    ScanFromInv(idx, t0, ob, l, k);
    StepGuards(idx, t0, ob, l, k, ScanFrom(idx, t0, ob, l, k));
  }

  /** What the step on entry k reads of the state before it: the entry is a clause, and a kept one has room. */
  predicate StepBounds(idx: OccurrenceIndex, t0: Table, ob: nat, l: nat, k: nat)
    requires l < |idx.occ| && k < |idx.occ[l]|
  {
    0 <= idx.occ[l][k] < |idx.kept|
    && (idx.kept[idx.occ[l][k]] ==> Room(t0, ScanFrom(idx, t0, ob, l, k), idx.occ[l][k]))
  }

  /** Every step of a pass from a proper start has what it reads. */
  lemma AllStepBounds(idx: OccurrenceIndex, t0: Table, ob: nat, l: nat)
    requires ScanCtx(idx, t0, ob, l)
    ensures forall k :: 0 <= k < |idx.occ[l]| ==> StepBounds(idx, t0, ob, l, k)
  {
    forall k | 0 <= k < |idx.occ[l]|
      ensures StepBounds(idx, t0, ob, l, k)
    {
      ScanFromFacts(idx, t0, ob, l, k);
    }
  }

  /** The bounds the loop body of `createDistribWrTLit` needs, on the state the scan reached after k entries. */
  lemma ScanBounds(idx: OccurrenceIndex, t0: Table, ob: nat, l: nat, k: nat,
                   B: seq<BucketSortInfo>, M: seq<int>, G: seq<int>, O: seq<int>, SC: seq<nat>,
                   MU: seq<int>, D: seq<nat>, nbElt: nat, counter: nat, I: seq<int>)
    requires l < |idx.occ| && k < |idx.occ[l]| && StepBounds(idx, t0, ob, l, k)
    requires Scan(B, M, G, O, SC, MU, D, nbElt, counter, I) == ScanFrom(idx, t0, ob, l, k)
    ensures 0 <= idx.occ[l][k] < |idx.kept|
    ensures idx.kept[idx.occ[l][k]] ==>
              0 <= idx.occ[l][k] < |M| && |G| == |M| && |SC| == |M| && t0.SD + 2 + nbElt < |D|
    ensures idx.kept[idx.occ[l][k]] && M[idx.occ[l][k]] != -1 ==>
              0 <= M[idx.occ[l][k]] < |B|
              && B[M[idx.occ[l][k]]].start + B[M[idx.occ[l][k]]].counter < |O|
              && 0 <= G[idx.occ[l][k]] < |O|
              && 0 <= O[B[M[idx.occ[l][k]]].start + B[M[idx.occ[l][k]]].counter] < |G|
  {
  }

  /** A clause no longer kept is skipped. */
  lemma ScanSkipNext(idx: OccurrenceIndex, t0: Table, ob: nat, l: nat, k: nat, s: Scan)
    requires l < |idx.occ| && k < |idx.occ[l]| && s == ScanFrom(idx, t0, ob, l, k)
    requires 0 <= idx.occ[l][k] < |idx.kept| && !idx.kept[idx.occ[l][k]]
    ensures s == ScanFrom(idx, t0, ob, l, k + 1)
  {
    StepSkips(idx, t0, ob, idx.occ[l][k], s);
  }

  /**
   * A kept clause not marked yet joins the own bucket with the next new id.
   * The state is passed field by field, as the loop holds it.
   */
  lemma ScanNewNext(idx: OccurrenceIndex, t0: Table, ob: nat, l: nat, k: nat, c: int,
                    B: seq<BucketSortInfo>, M: seq<int>, G: seq<int>, O: seq<int>, SC: seq<nat>,
                    MU: seq<int>, D: seq<nat>, nbElt: nat, counter: nat, I: seq<int>,
                    base: nat, nbClause: nat, D': seq<nat>)
    requires l < |idx.occ| && k < |idx.occ[l]| && c == idx.occ[l][k]
    requires Scan(B, M, G, O, SC, MU, D, nbElt, counter, I) == ScanFrom(idx, t0, ob, l, k)
    requires 0 <= c < |idx.kept| && idx.kept[c]
    requires 0 <= c < |M| && |G| == |M| && |SC| == |M| && t0.SD + 2 + nbElt < |D|
    requires M[c] == -1 && base == t0.SD + 2 && nbClause == t0.N
    requires D' == PushInto(D, base, nbElt, nbClause + counter)
    ensures Scan(B, M[c := ob], G[c := nbClause + counter], O + [c], SC[c := 1], MU + [c], D',
                 nbElt + 1, counter + 1, I)
            == ScanFrom(idx, t0, ob, l, k + 1)
  {
    StepIsNew(idx, t0, ob, c, Scan(B, M, G, O, SC, MU, D, nbElt, counter, I));
  }

  /** A kept clause already marked moves to the split of its bucket and takes the bucket's next id. */
  lemma ScanMarkedNext(idx: OccurrenceIndex, t0: Table, ob: nat, l: nat, k: nat, c: int,
                       B: seq<BucketSortInfo>, M: seq<int>, G: seq<int>, O: seq<int>, SC: seq<nat>,
                       MU: seq<int>, D: seq<nat>, nbElt: nat, counter: nat, I: seq<int>,
                       base: nat, b: nat, red: nat, id0: nat, D': seq<nat>)
    requires l < |idx.occ| && k < |idx.occ[l]| && c == idx.occ[l][k]
    requires Scan(B, M, G, O, SC, MU, D, nbElt, counter, I) == ScanFrom(idx, t0, ob, l, k)
    requires 0 <= c < |idx.kept| && idx.kept[c]
    requires 0 <= c < |M| && |G| == |M| && |SC| == |M| && t0.SD + 2 + nbElt < |D|
    requires M[c] == b < |B| && id0 == B[b].start + B[b].counter
    requires id0 < |O| && 0 <= G[c] < |O| && 0 <= O[id0] < |G|
    requires red == if B[b].counter == 0 then |B| + |I| else B[b].redirected
    requires base == t0.SD + 2 && D' == PushInto(D, base, nbElt, id0)
    ensures Scan(B[b := B[b].(counter := B[b].counter + 1, redirected := red)], M[c := red],
                 G[O[id0] := G[c]][c := id0], O[G[c] := O[id0]][id0 := c], SC[c := SC[c] + 1], MU, D',
                 nbElt + 1, counter, if B[b].counter == 0 then I + [b] else I)
            == ScanFrom(idx, t0, ob, l, k + 1)
  {
    var s := Scan(B, M, G, O, SC, MU, D, nbElt, counter, I);
    assert ScanFrom(idx, t0, ob, l, k + 1) == ScanStep(idx, t0, ob, c, s);
    assert Room(t0, s, c);
    StepIsMarked(idx, t0, ob, c, s);
    MarkedFields(s, c, D', b, id0, G[c], O[id0], red);
  }
}
