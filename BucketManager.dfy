/**
 * The encoder object `BucketManagerCnfCl` and the scratch state of a key
 * under construction, `BucketInConstruction`: the partition refinement
 * over the occurrence lists of the component's literals, the removal of
 * identical clauses, and the writing of the key.
 *
 * The ghost fields G, O and R carry the proof state of the refinement: the
 * group id of each marked clause, the clause owning each group id, and the
 * literal records written so far into `distrib`.
 */
module BucketManager {
  import opened Cnf
  import opened Seqs
  import opened Partition
  import opened Refine
  import opened Finish
  import opened Collect
  import Bits
  import SizePlan
  import VariableSegment
  import ClauseWalk
  import ClauseStore
  import KeyLink
  import KeyStore

  /**
   * `pushSorted(tab + base, pos, val)`: val is put at base + pos and bubbled
   * down while it is smaller than its left neighbour.
   */
  method PushSorted(tab: array<nat>, base: nat, pos: nat, val: nat)
    requires base + pos < tab.Length
    modifies tab
    ensures tab[..] == PushInto(old(tab[..]), base, pos, val)
  {
    ghost var D0 := tab[..];
    ghost var w0 := tab[base .. base + pos];
    assert |w0| == pos && w0[..pos] == w0 && w0[pos..] == [];
    tab[base + pos] := val;
    assert tab[..] == Spliced(D0, base, pos, w0[..pos] + [val] + w0[pos..]);
    var i: nat := pos;
    while i > 0 && tab[base + i] < tab[base + i - 1]
      invariant i <= pos == |w0| && base + pos < |D0| == tab.Length
      invariant tab[..] == Spliced(D0, base, pos, w0[..i] + [val] + w0[i..])
      invariant InsertSorted(w0, val) == InsertSorted(w0[..i], val) + w0[i..]
      decreases i
    {
      SplicedAt(D0, base, pos, w0, i, val);
      SplicedSwap(D0, base, pos, w0, i, val);
      InsertSortedStep(w0, i, val);
      tab[base + i], tab[base + i - 1] := tab[base + i - 1], tab[base + i];
      i := i - 1;
    }
    SplicedAt(D0, base, pos, w0, i, val);
    InsertSortedStop(w0, i, val);
  }

  /** distrib with the n + 1 entries from base replaced by seg. */
  ghost function Spliced(D: seq<nat>, base: nat, n: nat, seg: seq<nat>): seq<nat>
    requires base + n < |D|
  {
    D[..base] + seg + D[base + n + 1 ..]
  }

  /** The two entries the bubbling step compares. */
  lemma SplicedAt(D: seq<nat>, base: nat, n: nat, w: seq<nat>, i: nat, v: nat)
    requires base + n < |D| && i <= n == |w|
    ensures Spliced(D, base, n, w[..i] + [v] + w[i..])[base + i] == v
    ensures i > 0 ==> Spliced(D, base, n, w[..i] + [v] + w[i..])[base + i - 1] == w[i - 1]
    ensures w == D[base .. base + n] && InsertSorted(w, v) == w[..i] + [v] + w[i..] ==>
              Spliced(D, base, n, w[..i] + [v] + w[i..]) == PushInto(D, base, n, v)
  {
    var seg: seq<nat> := w[..i] + [v] + w[i..];
    assert seg[i] == v;
    assert i > 0 ==> seg[i - 1] == w[i - 1];
  }

  /** Swapping the two entries moves v one place down. */
  lemma SplicedSwap(D: seq<nat>, base: nat, n: nat, w: seq<nat>, i: nat, v: nat)
    requires base + n < |D| && 0 < i <= n == |w|
    ensures Spliced(D, base, n, w[..i] + [v] + w[i..])[base + i := w[i - 1]][base + i - 1 := v]
              == Spliced(D, base, n, w[..i - 1] + [v] + w[i - 1..])
  {
    var seg: seq<nat> := w[..i] + [v] + w[i..];
    var seg': seq<nat> := w[..i - 1] + [v] + w[i - 1..];
    assert seg[i := w[i - 1]][i - 1 := v] == seg' by {
      forall x | 0 <= x < n + 1
        ensures seg[i := w[i - 1]][i - 1 := v][x] == seg'[x]
      {
      }
    }
    var S: seq<nat> := Spliced(D, base, n, seg);
    var S': seq<nat> := S[base + i := w[i - 1]][base + i - 1 := v];
    assert S' == Spliced(D, base, n, seg') by {
      forall x | 0 <= x < |D|
        ensures S'[x] == Spliced(D, base, n, seg')[x]
      {
      }
    }
  }

  /**
   * The loop of `createDistribWrTLit(l)` over the occurrence list of l, on
   * local copies of the bucket table, the marks, `m_mustUnMark`,
   * `sizeClauses` and `m_idInVecBucket`: a new clause joins the own bucket
   * with a new id, a marked one moves to the split of its bucket; each
   * pushes its id into the record at base. The result is the state
   * `ScanFrom` reaches after the whole list.
   */
  method ScanOccurrences(idx: OccurrenceIndex, ghost t0: Table, ob: nat, ghost l: nat,
                         list: seq<int>, distrib: array<nat>, base: nat, nbClause: nat,
                         vec0: seq<BucketSortInfo>, mark0: seq<int>, mu0: seq<int>, sc0: seq<nat>)
    returns (vec: seq<BucketSortInfo>, mark: seq<int>, mu: seq<int>, sc: seq<nat>, ids: seq<int>,
             nbElt: nat, counter: nat, ghost g: seq<int>, ghost o: seq<int>)
    requires l < |idx.occ| && list == idx.occ[l] && distrib[..] == t0.D
    requires forall k :: 0 <= k < |list| ==> StepBounds(idx, t0, ob, l, k)
    requires base == t0.SD + 2 && nbClause == t0.N
    requires vec0 == t0.B && mark0 == t0.M && mu0 == t0.MU && sc0 == t0.SC
    modifies distrib
    ensures Scan(vec, mark, g, o, sc, mu, distrib[..], nbElt, counter, ids) == ScanFrom(idx, t0, ob, l, |list|)
  {
    vec, mark, mu, sc, ids := vec0, mark0, mu0, sc0, [];
    g, o := t0.G, t0.O;
    nbElt, counter := 0, 0;
    var nextBucket := |vec|;
    for k := 0 to |list|
      invariant Scan(vec, mark, g, o, sc, mu, distrib[..], nbElt, counter, ids) == ScanFrom(idx, t0, ob, l, k)
      invariant nextBucket == |vec| + |ids|
    {
      ghost var s := Scan(vec, mark, g, o, sc, mu, distrib[..], nbElt, counter, ids);
      ScanBounds(idx, t0, ob, l, k, vec, mark, g, o, sc, mu, distrib[..], nbElt, counter, ids);
      var c := list[k];
      if !idx.kept[c] {
        ScanSkipNext(idx, t0, ob, l, k, s);
      } else if mark[c] == -1 {
        ghost var D := distrib[..];
        PushSorted(distrib, base, nbElt, nbClause + counter);
        ScanNewNext(idx, t0, ob, l, k, c, vec, mark, g, o, sc, mu, D, nbElt, counter, ids,
                    base, nbClause, distrib[..]);
        sc := sc[c := 1];
        mu := mu + [c];
        mark := mark[c := ob];
        nbElt := nbElt + 1;
        g, o := g[c := nbClause + counter], o + [c];
        counter := counter + 1;
      } else {
        var bi := mark[c];
        var b := vec[bi];
        var red := b.redirected;
        if b.counter == 0 {
          red := nextBucket;
        }
        ghost var D := distrib[..];
        PushSorted(distrib, base, nbElt, b.start + b.counter);
        ScanMarkedNext(idx, t0, ob, l, k, c, vec, mark, g, o, sc, mu, D, nbElt, counter, ids,
                       base, bi, red, b.start + b.counter, distrib[..]);
        if b.counter == 0 {
          nextBucket := nextBucket + 1;
          ids := ids + [bi];
        }
        sc := sc[c := sc[c] + 1];
        mark := mark[c := red];
        nbElt := nbElt + 1;
        vec := vec[bi := b.(counter := b.counter + 1, redirected := red)];
        // ghost: c takes the next id of its bucket, swapping ids with the clause that held it
        ghost var id0, gc := b.start + b.counter, g[c];
        g, o := g[o[id0] := gc][c := id0], o[gc := o[id0]][id0 := c];
      }
    }
  }

  /** The loop over `m_idInVecBucket`: each listed bucket hands the prefix of its range to its split target. */
  method SplitMovedBuckets(B: seq<BucketSortInfo>, I: seq<int>) returns (V: seq<BucketSortInfo>)
    requires SplitTargets(B, I)
    requires forall b :: 0 <= b < |B| && B[b].counter > 0 ==> b in I
    ensures V == SplitBuckets(B, I)
  {
    V := B + seq(|I|, _ => DefaultBucket);
    assert PartialSplit(B, I, 0) == V;
    for j := 0 to |I|
      invariant V == PartialSplit(B, I, j)
    {
      SplitStep(B, I, j, V);
      var bid := I[j];
      var b := V[bid];
      // the split target takes the moved prefix, b keeps the rest
      V := V[b.redirected := Reset(V[b.redirected], b.start, b.start + b.counter)][bid := Kept(b)];
    }
    SplitDone(B, I);
  }

  /** `getIdxBucketSortInfo` on values: the unused bucket if there is one, else a new empty bucket at N. */
  method TakeBucket(B: seq<BucketSortInfo>, U: int, N: nat) returns (ret: nat, B': seq<BucketSortInfo>)
    requires U >= -1
    ensures U == -1 ==> ret == |B| && B' == B + [NewBucket(N)]
    ensures U != -1 ==> ret == U && B' == B
  {
    if U == -1 {
      ret, B' := |B|, B + [NewBucket(N)];
    } else {
      ret, B' := U, B;
    }
  }

  /**
   * The body of `createDistribWrTLit(l)` on the fields it changes, from a
   * stable table t: the own bucket is taken, the list of l is scanned, the
   * moved buckets are split, the own bucket is closed and the record of l
   * written. The result is the table `PassTable` gives.
   */
  method DistribWrTLit(idx: OccurrenceIndex, ghost t: Table, l: nat, distrib: array<nat>,
                       B: seq<BucketSortInfo>, U: int, M: seq<int>, MU: seq<int>, N: nat, SD: nat,
                       SC: seq<nat>, ghost G: seq<int>, ghost O: seq<int>, ghost R: seq<Rec>)
    returns (B': seq<BucketSortInfo>, U': int, M': seq<int>, MU': seq<int>, N': nat, SD': nat,
             SC': seq<nat>, I': seq<int>, ghost G': seq<int>, ghost O': seq<int>, ghost R': seq<Rec>)
    requires Stable(idx, t) && l < |idx.occ| && SD + 2 + |idx.occ[l]| <= distrib.Length
    requires t == Table(B, U, M, MU, N, G, O, R, distrib[..], SD, SC)
    modifies distrib
    ensures t.U >= -1
    ensures Table(B', U', M', MU', N', G', O', R', distrib[..], SD', SC') == PassTable(idx, t, l)
  {
    PassReadyFrom(idx, t, l);
    var ob, B0 := TakeBucket(B, U, N);
    ghost var t0 := Reserved(t);
    assert t0 == Table(B0, -1, M, MU, N, G, O, R, distrib[..], SD, SC) && ob == ReservedIdx(t);
    var vec, nbElt, counter;
    vec, M', MU', SC', I', nbElt, counter, G', O' :=
      ScanOccurrences(idx, t0, ob, l, idx.occ[l], distrib, SD + 2, N, B0, M, MU, SC);
    B', U', N', SD', R' := ClosePass(t0, ob, l, N, SD, distrib, vec, M', G', O', SC', MU', nbElt, counter, I');
  }

  /**
   * The end of `createDistribWrTLit(l)` once the scan ended in state s:
   * the split loop, the own bucket taking the new clauses or going back to
   * the unused slot, and the record of l written or retracted.
   */
  method ClosePass(ghost t0: Table, ob: nat, l: nat, N: nat, currentPos: nat, distrib: array<nat>,
                   vec: seq<BucketSortInfo>,
                   ghost M: seq<int>, ghost G: seq<int>, ghost O: seq<int>, ghost SC: seq<nat>,
                   ghost MU: seq<int>, nbElt: nat, counter: nat, I: seq<int>)
    returns (B': seq<BucketSortInfo>, U': int, N': nat, SD': nat, ghost R': seq<Rec>)
    requires N == t0.N && currentPos == t0.SD && ob < |vec| && currentPos + 2 + nbElt <= distrib.Length
    requires SplitTargets(vec, I) && forall b :: 0 <= b < |vec| && vec[b].counter > 0 ==> b in I
    modifies distrib
    ensures var s := Scan(vec, M, G, O, SC, MU, old(distrib[..]), nbElt, counter, I);
            Table(B', U', M, MU, N', G, O, R', distrib[..], SD', SC) == FinishTable(t0, ob, l, s)
  {
    B' := SplitMovedBuckets(vec, I);
    if counter == 0 {
      U', N' := ob, N;
    } else {
      B' := B'[ob := Reset(B'[ob], N, N + counter)];
      U', N' := -1, N + counter;
    }
    SD' := currentPos + 2 + nbElt;
    R' := t0.R;
    if currentPos == SD' - 2 {
      SD' := SD' - 2;
    } else {
      distrib[currentPos] := l;
      distrib[currentPos + 1] := SD' - currentPos - 2;
      R' := t0.R + [Rec(l, currentPos)];
    }
  }


  /** `BucketInConstruction`: the buffers one key is assembled in. */
  class BucketInConstruction {
    /** The literal records; its length is `capacityDistrib`. */
    const distrib: array<nat>
    var sizeDistrib: nat
    var nbClauseInDistrib: nat
    /** Per clause: the number of literal records it appears in. */
    var sizeClauses: seq<nat>
    /** Per group id: the length of the clause owning it, then compacted. */
    var shiftedSizeClause: seq<nat>
    /** Per group id: its index among the surviving clauses, or the sentinel. */
    var shiftedIndexClause: seq<nat>
    var markedAsRedundant: seq<bool>
    /** Per clause length: the number of surviving clauses of that length. */
    var distribDiffSize: seq<nat>
    const maxSizeClause: nat

    /** Fresh buffers for nbClause clauses, clauses up to maxSize literals and capacity slots of distrib. */
    constructor (nbClause: nat, maxSize: nat, capacity: nat)
      ensures fresh(distrib) && distrib.Length == capacity
      ensures sizeDistrib == 0 && nbClauseInDistrib == 0 && maxSizeClause == maxSize
      ensures |sizeClauses| == nbClause && |shiftedSizeClause| == nbClause
      ensures |shiftedIndexClause| == nbClause
      ensures markedAsRedundant == NoFlags(nbClause)
      ensures distribDiffSize == Zeros(maxSize + 1)
    {
      distrib := new nat[capacity](_ => 0);
      sizeDistrib, nbClauseInDistrib, maxSizeClause := 0, 0, maxSize;
      sizeClauses := Zeros(nbClause);
      shiftedSizeClause := Zeros(nbClause);
      shiftedIndexClause := Zeros(nbClause);
      markedAsRedundant := NoFlags(nbClause);
      distribDiffSize := Zeros(maxSize + 1);
    }

    /** `reinit`: empty distrib, no group id in use, a zero length histogram. */
    method Reinit()
      modifies this`sizeDistrib, this`nbClauseInDistrib, this`distribDiffSize
      ensures sizeDistrib == 0 && nbClauseInDistrib == 0
      ensures distribDiffSize == Zeros(maxSizeClause + 1)
    {
      sizeDistrib, nbClauseInDistrib := 0, 0;
      distribDiffSize := Zeros(maxSizeClause + 1);
    }

    /**
     * Assigns the buffer fields `createDistribWrTLit` updates, in one step;
     * it stands for no operation of the encoder.
     */
    method SetRefined(N: nat, SD: nat, SC: seq<nat>)
      modifies this`nbClauseInDistrib, this`sizeDistrib, this`sizeClauses
      ensures nbClauseInDistrib == N && sizeDistrib == SD && sizeClauses == SC
    {
      nbClauseInDistrib, sizeDistrib, sizeClauses := N, SD, SC;
    }

    /**
     * Assigns the buffer fields the compaction loop of `collectDistrib`
     * updates, in one step; it stands for no operation of the encoder.
     */
    method SetRenumbered(ss: seq<nat>, red: seq<bool>, si: seq<nat>, diff: seq<nat>, K: nat)
      modifies this`shiftedSizeClause, this`markedAsRedundant, this`shiftedIndexClause
      modifies this`distribDiffSize, this`nbClauseInDistrib
      ensures shiftedSizeClause == ss && markedAsRedundant == red && shiftedIndexClause == si
      ensures distribDiffSize == diff && nbClauseInDistrib == K
    {
      shiftedSizeClause, markedAsRedundant, shiftedIndexClause := ss, red, si;
      distribDiffSize, nbClauseInDistrib := diff, K;
    }
  }

  class BucketManagerCnfCl {
    var vecBucketSortInfo: seq<BucketSortInfo>
    var unusedBucket: int
    /** Per variable: its 1-based position in the component being stored. */
    var mapVar: seq<nat>
    var mustUnMark: seq<int>
    var markIdx: seq<int>
    var idInVecBucket: seq<int>
    const memoryPosWrtClauseSize: array<nat>
    const offsetClauses: array<nat>
    const inConstruction: BucketInConstruction
    ghost var G: seq<int>
    ghost var O: seq<int>
    ghost var R: seq<Rec>

    /**
     * The manager for a formula with nbVar variables and the clauses of idx,
     * of at most maxSize literals each, with capacity slots of distrib.
     */
    constructor (idx: OccurrenceIndex, nbVar: nat, maxSize: nat, capacity: nat)
      ensures fresh(inConstruction) && fresh(inConstruction.distrib)
      ensures inConstruction.distrib.Length == capacity && inConstruction.maxSizeClause == maxSize
      ensures |inConstruction.sizeClauses| == |idx.kept|
      ensures |inConstruction.shiftedSizeClause| == |idx.kept|
      ensures |inConstruction.shiftedIndexClause| == |idx.kept|
      ensures inConstruction.markedAsRedundant == NoFlags(|idx.kept|)
      ensures |inConstruction.distribDiffSize| == maxSize + 1
      ensures mapVar == Zeros(nbVar + 1) && markIdx == NoMarks(|idx.kept|)
      ensures fresh(memoryPosWrtClauseSize) && memoryPosWrtClauseSize.Length == maxSize + 1
      ensures fresh(offsetClauses) && offsetClauses.Length == |idx.kept| + 1
      ensures vecBucketSortInfo == [] && unusedBucket == -1 && mustUnMark == []
      ensures |G| == |idx.kept|
    {
      vecBucketSortInfo, unusedBucket := [], -1;
      mapVar := Zeros(nbVar + 1);
      mustUnMark, idInVecBucket := [], [];
      markIdx := NoMarks(|idx.kept|);
      memoryPosWrtClauseSize := new nat[maxSize + 1](_ => 0);
      offsetClauses := new nat[|idx.kept| + 1](_ => 0);
      inConstruction := new BucketInConstruction(|idx.kept|, maxSize, capacity);
      G, O, R := NoMarks(|idx.kept|), [], [];
    }

    /**
     * Assigns the partition fields `createDistribWrTLit` updates (and the
     * ghost proof state), in one step; it stands for no operation of the encoder.
     */
    method SetPartition(B: seq<BucketSortInfo>, U: int, M: seq<int>, MU: seq<int>, I: seq<int>,
                        ghost G': seq<int>, ghost O': seq<int>, ghost R': seq<Rec>)
      modifies this`vecBucketSortInfo, this`unusedBucket, this`markIdx, this`mustUnMark
      modifies this`idInVecBucket, this`G, this`O, this`R
      ensures vecBucketSortInfo == B && unusedBucket == U && markIdx == M && mustUnMark == MU
      ensures idInVecBucket == I && G == G' && O == O' && R == R'
    {
      vecBucketSortInfo, unusedBucket, markIdx, mustUnMark, idInVecBucket := B, U, M, MU, I;
      G, O, R := G', O', R';
    }

    /**
     * Assigns the bucket fields `initSortBucket` resets (and the ghost proof
     * state), in one step; it stands for no operation of the encoder.
     */
    method SetBuckets(B: seq<BucketSortInfo>, U: int, ghost O': seq<int>, ghost R': seq<Rec>)
      modifies this`vecBucketSortInfo, this`unusedBucket, this`O, this`R
      ensures vecBucketSortInfo == B && unusedBucket == U && O == O' && R == R'
    {
      vecBucketSortInfo, unusedBucket, O, R := B, U, O', R';
    }

    /**
     * Assigns `m_mapVar` and `shiftedSizeClause` as `storeClauses` leaves
     * them, in one step; it stands for no operation of the encoder.
     */
    method SetStored(mv: seq<nat>, ss: seq<nat>)
      modifies this`mapVar, inConstruction`shiftedSizeClause
      ensures mapVar == mv && inConstruction.shiftedSizeClause == ss
    {
      mapVar, inConstruction.shiftedSizeClause := mv, ss;
    }

    /**
     * Assigns the buckets and marks the unmark loop of `collectDistrib`
     * leaves and empties `m_mustUnMark`, in one step; it stands for no
     * operation of the encoder.
     */
    method SetMarks(B: seq<BucketSortInfo>, M: seq<int>)
      modifies this`vecBucketSortInfo, this`markIdx, this`mustUnMark
      ensures vecBucketSortInfo == B && markIdx == M && mustUnMark == []
    {
      vecBucketSortInfo, markIdx, mustUnMark := B, M, [];
    }

    /** The refinement state of this manager and ic, as a table. */
    ghost function Tab(ic: BucketInConstruction): Table
      reads this, ic, ic.distrib
    {
      Table(vecBucketSortInfo, unusedBucket, markIdx, mustUnMark, ic.nbClauseInDistrib,
            G, O, R, ic.distrib[..], ic.sizeDistrib, ic.sizeClauses)
    }

    /**
     * What holds between two keys: no clause marked, nothing left to unmark,
     * no clause flagged redundant, and the buffers sized for the clauses of idx.
     */
    ghost predicate Idle(idx: OccurrenceIndex)
      reads this, inConstruction
    {
      markIdx == NoMarks(|idx.kept|) && mustUnMark == [] && |G| == |idx.kept|
      && |inConstruction.sizeClauses| == |idx.kept| && |inConstruction.shiftedSizeClause| == |idx.kept|
      && |inConstruction.shiftedIndexClause| == |idx.kept|
      && inConstruction.markedAsRedundant == NoFlags(|idx.kept|)
      && idx.maxSizeClause <= inConstruction.maxSizeClause
      && memoryPosWrtClauseSize.Length == inConstruction.maxSizeClause + 1
      && offsetClauses.Length == |idx.kept| + 1
      && memoryPosWrtClauseSize != offsetClauses && offsetClauses != inConstruction.distrib
      && memoryPosWrtClauseSize != inConstruction.distrib
    }

    /**
     * `initSortBucket`: the buffers are reset, no bucket exists and none is
     * unused; the refinement starts from the stable table with no clause
     * marked and no record (the ghost proof state is reset with it).
     */
    method InitSortBucket(idx: OccurrenceIndex, ic: BucketInConstruction)
      requires markIdx == NoMarks(|idx.kept|) && mustUnMark == []
      modifies this`unusedBucket, this`vecBucketSortInfo, this`O, this`R
      modifies ic`sizeDistrib, ic`nbClauseInDistrib, ic`distribDiffSize
      ensures vecBucketSortInfo == [] && unusedBucket == -1 && O == [] && R == []
      ensures ic.sizeDistrib == 0 && ic.nbClauseInDistrib == 0
      ensures ic.distribDiffSize == Zeros(ic.maxSizeClause + 1)
      ensures Tab(ic) == StartTable(idx, G, ic.distrib[..], ic.sizeClauses)
      ensures G == old(G) && ic.distrib[..] == old(ic.distrib[..]) && ic.sizeClauses == old(ic.sizeClauses)
    {
      ic.Reinit();
      SetBuckets([], -1, [], []);
    }

    /**
     * `storeFormula(component, b)`: the key of the residual formula over
     * component. From the table t the refinement reaches, with the
     * surviving clauses renumbered (their lengths ss, their count K), the
     * result is a new array of the planned size: the variable segment holds
     * the component, the formula segment is empty exactly when K == 0, and
     * otherwise holds the length tokens, the separator and the local
     * literals of every surviving clause in its slot. `m_mapVar` names the
     * component's variables 1, 2, ... when K > 0, the lengths of the
     * surviving ids are reset, and the manager is idle again.
     */
    method StoreFormula(idx: OccurrenceIndex, component: seq<int>, ic: BucketInConstruction)
      returns (data: array<Bits.byte>, di: KeyStore.DataInfo, info: SizePlan.AllocSizeInfo,
               ghost t: Table, ghost K: nat, ghost ss: seq<nat>, ghost si: seq<nat>, ghost diff: seq<nat>,
               ghost g: ClauseWalk.Layout)
      requires ic == inConstruction && idx.Valid() && Idle(idx)
      requires ValidComponent(component) && |component| < 0x8000_0000 - 1
      requires idx.Covers(component) && Need(idx, component) <= ic.distrib.Length
      requires forall i :: 0 <= i < |component| ==> component[i] < |mapVar|
      modifies this`vecBucketSortInfo, this`unusedBucket, this`markIdx, this`mustUnMark, this`mapVar
      modifies this`idInVecBucket, this`G, this`O, this`R
      modifies ic`sizeDistrib, ic`nbClauseInDistrib, ic`sizeClauses
      modifies ic`shiftedSizeClause, ic`shiftedIndexClause
      modifies ic`markedAsRedundant, ic`distribDiffSize
      modifies ic.distrib, memoryPosWrtClauseSize, offsetClauses
      ensures Idle(idx)
      ensures ic.nbClauseInDistrib == K && ic.shiftedIndexClause == si
      ensures ic.distribDiffSize == diff && ic.distrib[..] == t.D
      ensures t == RefineVars(idx, StartTable(idx, old(G), old(ic.distrib[..]),
                                               old(ic.sizeClauses)), component)
      ensures Renumbered(t, t.SD, K, ss, old(ic.shiftedIndexClause), si, Zeros(ic.maxSizeClause + 1), diff)
      ensures fresh(data) && data.Length == info.totalByte
      ensures info == SizePlan.ComputeNeededBytesCorrected(component, diff)
      ensures di == KeyStore.DataInfo(info.totalByte, |component|, info.nbBitEltVar, info.nbBitStoreLit)
      ensures VariableSegment.VarsHold(data[..], info, component)
      ensures K == 0 <==> info.nbByteStoreFormula == 0
      ensures K > 0 ==>
                ClauseWalk.Framed(t.D, t.R) && g.K == K && g.ss == ss && g.si == si && g.mapVar == mapVar
                && ClauseStore.Names(mapVar, component)
                && KeyStore.FormulaHolds(data[..], info.nbByteStoreVar, info.nbBitStoreLit, diff, g,
                                         ClauseWalk.Entries(t.D, t.R))
      ensures K == 0 ==> mapVar == old(mapVar)
      ensures |mapVar| == old(|mapVar|)
      ensures forall v :: 0 <= v < |mapVar| && v !in component ==> mapVar[v] == old(mapVar[v])
      ensures |ic.shiftedSizeClause| == |ss| && forall k :: 0 <= k < |ss| ==>
                ic.shiftedSizeClause[k] == if k < K then 0 else ss[k]
    {
      t := CollectForKey(idx, component, ic);
      K, ss, si, diff := ic.nbClauseInDistrib, ic.shiftedSizeClause,
                         ic.shiftedIndexClause, ic.distribDiffSize;
      data, di, info, g := WriteKey(idx, component, ic, t.R);
    }

    /**
     * The rest of `storeFormula`, once the distribution is collected: the
     * plan, the new array, `storeVariables` and, when a clause survived,
     * `storeClauses`; the manager stays idle.
     */
    method WriteKey(idx: OccurrenceIndex, component: seq<int>, ic: BucketInConstruction, ghost R0: seq<Rec>)
      returns (data: array<Bits.byte>, di: KeyStore.DataInfo, info: SizePlan.AllocSizeInfo, ghost g: ClauseWalk.Layout)
      requires ic == inConstruction && Idle(idx) && ValidComponent(component) && |component| < 0x8000_0000 - 1
      requires forall i :: 0 <= i < |component| ==> component[i] < |mapVar|
      requires |ic.distribDiffSize| == ic.maxSizeClause + 1
      requires KeyStore.Collected(ic.distrib[..], R0, ic.sizeDistrib, ic.shiftedSizeClause, ic.nbClauseInDistrib,
                                  ic.shiftedIndexClause, ic.distribDiffSize, component)
      modifies this`mapVar, ic`shiftedSizeClause, memoryPosWrtClauseSize, offsetClauses
      ensures Idle(idx) && ic.distrib[..] == old(ic.distrib[..])
      ensures ic.nbClauseInDistrib == old(ic.nbClauseInDistrib) && ic.shiftedIndexClause == old(ic.shiftedIndexClause)
      ensures ic.distribDiffSize == old(ic.distribDiffSize)
      ensures fresh(data) && data.Length == info.totalByte
      ensures info == SizePlan.ComputeNeededBytesCorrected(component, old(ic.distribDiffSize))
      ensures di == KeyStore.DataInfo(info.totalByte, |component|, info.nbBitEltVar, info.nbBitStoreLit)
      ensures VariableSegment.VarsHold(data[..], info, component)
      ensures old(ic.nbClauseInDistrib) == 0 <==> info.nbByteStoreFormula == 0
      ensures old(ic.nbClauseInDistrib) > 0 ==>
                g.K == old(ic.nbClauseInDistrib) && g.ss == old(ic.shiftedSizeClause)
                && g.si == old(ic.shiftedIndexClause) && g.mapVar == mapVar && ClauseStore.Names(mapVar, component)
                && KeyStore.FormulaHolds(data[..], info.nbByteStoreVar, info.nbBitStoreLit, old(ic.distribDiffSize), g,
                                         ClauseWalk.Entries(old(ic.distrib[..]), R0))
      ensures old(ic.nbClauseInDistrib) == 0 ==> mapVar == old(mapVar)
      ensures |mapVar| == old(|mapVar|)
      ensures forall v :: 0 <= v < |mapVar| && v !in component ==> mapVar[v] == old(mapVar[v])
      ensures |ic.shiftedSizeClause| == old(|ic.shiftedSizeClause|)
      ensures forall k :: 0 <= k < |ic.shiftedSizeClause| ==>
                ic.shiftedSizeClause[k] == if k < old(ic.nbClauseInDistrib) then 0 else old(ic.shiftedSizeClause[k])
    {
      var ss0, si0, distrib, memPos, offs := ic.shiftedSizeClause, ic.shiftedIndexClause, ic.distrib,
                                             memoryPosWrtClauseSize, offsetClauses;
      var mv, ss';
      data, info, di, mv, ss', g :=
        KeyStore.StoreKey(component, mapVar, ic.distribDiffSize, ss0, si0, ic.nbClauseInDistrib, distrib,
                          ic.sizeDistrib, R0, memPos, offs);
      SetStored(mv, ss');
    }

    /**
     * The first two calls of `storeFormula`: `initSortBucket` then
     * `collectDistrib`, with what the formula segment needs of their result.
     */
    method CollectForKey(idx: OccurrenceIndex, component: seq<int>, ic: BucketInConstruction)
      returns (ghost t: Table)
      requires ic == inConstruction && idx.Valid() && Idle(idx) && ValidComponent(component)
      requires idx.Covers(component) && Need(idx, component) <= ic.distrib.Length
      modifies this`vecBucketSortInfo, this`unusedBucket, this`markIdx, this`mustUnMark
      modifies this`idInVecBucket, this`G, this`O, this`R
      modifies ic`sizeDistrib, ic`nbClauseInDistrib, ic`sizeClauses, ic.distrib
      modifies ic`shiftedSizeClause, ic`shiftedIndexClause, ic`markedAsRedundant, ic`distribDiffSize
      ensures Idle(idx) && |ic.distribDiffSize| == ic.maxSizeClause + 1 && ic.distrib[..] == t.D
      ensures t == RefineVars(idx, StartTable(idx, old(G), old(ic.distrib[..]), old(ic.sizeClauses)), component)
      ensures Renumbered(t, t.SD, ic.nbClauseInDistrib, ic.shiftedSizeClause, old(ic.shiftedIndexClause),
                         ic.shiftedIndexClause, Zeros(ic.maxSizeClause + 1), ic.distribDiffSize)
      ensures KeyStore.Collected(ic.distrib[..], t.R, ic.sizeDistrib, ic.shiftedSizeClause, ic.nbClauseInDistrib,
                                 ic.shiftedIndexClause, ic.distribDiffSize, component)
    {
      InitSortBucket(idx, ic);
      ghost var t0, si0, diff0 := Tab(ic), ic.shiftedIndexClause, ic.distribDiffSize;
      var realSize;
      realSize, t := CollectDistrib(idx, component, ic);
      KeyLink.CollectedFromStart(idx, old(G), old(ic.distrib[..]), old(ic.sizeClauses), component, t0, t,
                                 ic.nbClauseInDistrib, ic.shiftedSizeClause, si0, ic.shiftedIndexClause,
                                 diff0, ic.distribDiffSize);
      UnmarkedClear(t, vecBucketSortInfo, markIdx);
    }

    /** `getIdxBucketSortInfo`: the unused bucket if there is one, else a new empty bucket at N. */
    method GetIdxBucketSortInfo(ic: BucketInConstruction) returns (ret: int)
      requires unusedBucket >= -1
      modifies this`vecBucketSortInfo, this`unusedBucket
      ensures old(unusedBucket) == -1 ==>
                ret == |old(vecBucketSortInfo)|
                && vecBucketSortInfo == old(vecBucketSortInfo) + [NewBucket(ic.nbClauseInDistrib)]
      ensures old(unusedBucket) != -1 ==>
                ret == old(unusedBucket) && vecBucketSortInfo == old(vecBucketSortInfo)
      ensures unusedBucket == -1
    {
      var B;
      ret, B := TakeBucket(vecBucketSortInfo, unusedBucket, ic.nbClauseInDistrib);
      vecBucketSortInfo, unusedBucket := B, -1;
    }

    /**
     * `createDistribWrTLit(l)`: refines the partition by the kept clauses
     * holding l and appends l's record of their group ids to distrib. The
     * table stays stable; one record of K ids is added when K > 0 kept
     * clauses hold l, none otherwise; the own bucket is left unused when no
     * clause was new.
     */
    method CreateDistribWrTLit(idx: OccurrenceIndex, l: nat, ic: BucketInConstruction, ghost t: Table)
      requires t == Tab(ic) && Stable(idx, t)
      requires l < |idx.occ| && t.SD + 2 + |idx.occ[l]| <= |t.D|
      modifies this`vecBucketSortInfo, this`unusedBucket, this`markIdx, this`mustUnMark
      modifies this`idInVecBucket, this`G, this`O, this`R
      modifies ic`sizeDistrib, ic`nbClauseInDistrib, ic`sizeClauses, ic.distrib
      ensures t.U >= -1 && Tab(ic) == PassTable(idx, t, l)
    {
      var B, U, M, MU, N, SD, SC, I, G', O', R' :=
        DistribWrTLit(idx, t, l, ic.distrib, vecBucketSortInfo, unusedBucket, markIdx, mustUnMark,
                      ic.nbClauseInDistrib, ic.sizeDistrib, ic.sizeClauses, G, O, R);
      ic.SetRefined(N, SD, SC);
      SetPartition(B, U, M, MU, I, G', O', R');
    }

    /**
     * The first loop of `collectDistrib`: both passes, false literal first,
     * of every unassigned variable of the component, in order.
     */
    method RefineComponent(idx: OccurrenceIndex, component: seq<int>, ic: BucketInConstruction)
      requires Stable(idx, Tab(ic)) && idx.Covers(component)
      requires ic.sizeDistrib + Need(idx, component) <= ic.distrib.Length
      modifies this`vecBucketSortInfo, this`unusedBucket, this`markIdx, this`mustUnMark
      modifies this`idInVecBucket, this`G, this`O, this`R
      modifies ic`sizeDistrib, ic`nbClauseInDistrib, ic`sizeClauses, ic.distrib
      ensures old(Tab(ic)).U >= -1 && Tab(ic) == RefineVars(idx, old(Tab(ic)), component)
    {
      ghost var t0 := Tab(ic);
      assert component[..0] == [];
      for i := 0 to |component|
        invariant Tab(ic) == RefineVars(idx, t0, component[..i])
      {
        RefineVarStep(idx, component, i, ic, t0);
      }
      assert component[..|component|] == component;
    }

    /** One iteration of the first loop of `collectDistrib`: the passes of `component[i]`. */
    method RefineVarStep(idx: OccurrenceIndex, component: seq<int>, i: nat, ic: BucketInConstruction, ghost t0: Table)
      requires Stable(idx, t0) && idx.Covers(component) && i < |component|
      requires t0.SD + Need(idx, component) <= |t0.D|
      requires Tab(ic) == RefineVars(idx, t0, component[..i])
      modifies this`vecBucketSortInfo, this`unusedBucket, this`markIdx, this`mustUnMark
      modifies this`idInVecBucket, this`G, this`O, this`R
      modifies ic`sizeDistrib, ic`nbClauseInDistrib, ic`sizeClauses, ic.distrib
      ensures Tab(ic) == RefineVars(idx, t0, component[..i + 1])
    {
      RefinePrefixStable(idx, t0, component, i);
      RefineVarsSnoc(idx, t0, component, i);
      VarStep(idx, component[i], ic);
    }

    /** The body of the first loop of `collectDistrib` for variable v: nothing when v is assigned. */
    method VarStep(idx: OccurrenceIndex, v: int, ic: BucketInConstruction)
      requires Stable(idx, Tab(ic)) && 0 <= v && 2 * v + 1 < |idx.occ|
      requires !idx.isAssigned[v] ==> ic.sizeDistrib + NeedOne(idx, v) <= ic.distrib.Length
      modifies this`vecBucketSortInfo, this`unusedBucket, this`markIdx, this`mustUnMark
      modifies this`idInVecBucket, this`G, this`O, this`R
      modifies ic`sizeDistrib, ic`nbClauseInDistrib, ic`sizeClauses, ic.distrib
      ensures old(Tab(ic)).U >= -1
      ensures Tab(ic) == if idx.isAssigned[v] then old(Tab(ic))
                         else PassTable(idx, PassTable(idx, old(Tab(ic)), MakeLitFalse(v)), MakeLitTrue(v))
    {
      if !idx.isAssigned[v] {
        ghost var t := Tab(ic);
        assert MakeLitFalse(v) == 2 * v + 1;
        CreateDistribWrTLit(idx, MakeLitFalse(v), ic, t);
        TruePass(idx, v, ic, t);
      }
    }

    /** The pass of `makeLitTrue(v)`, after the pass of `makeLitFalse(v)` from t. */
    method TruePass(idx: OccurrenceIndex, v: int, ic: BucketInConstruction, ghost t: Table)
      requires Stable(idx, t) && 0 <= v && 2 * v + 1 < |idx.occ| && t.SD + NeedOne(idx, v) <= |t.D|
      requires t.U >= -1 && Tab(ic) == PassTable(idx, t, MakeLitFalse(v))
      modifies this`vecBucketSortInfo, this`unusedBucket, this`markIdx, this`mustUnMark
      modifies this`idInVecBucket, this`G, this`O, this`R
      modifies ic`sizeDistrib, ic`nbClauseInDistrib, ic`sizeClauses, ic.distrib
      ensures Tab(ic) == PassTable(idx, PassTable(idx, t, MakeLitFalse(v)), MakeLitTrue(v))
    {
      FalsePassStable(idx, t, v);
      CreateDistribWrTLit(idx, MakeLitTrue(v), ic, PassTable(idx, t, MakeLitFalse(v)));
    }

    /**
     * `collectDistrib(component)`: refines the partition by both literals of
     * every unassigned variable of the component, then keeps one clause per
     * group of identical clauses. In terms of the table t the refinement
     * leaves: no clause stays marked, no bucket keeps more than its first
     * id, the surviving ids are renumbered in order with their lengths and
     * histogram, every redundancy mark is reset, and the result is
     * `realSizeDistrib`, the size of distrib less what the removed clauses
     * took, in 32 bits.
     */
    method CollectDistrib(idx: OccurrenceIndex, component: seq<int>, ic: BucketInConstruction)
      returns (realSize: nat, ghost t: Table)
      requires idx.Valid() && |G| == |idx.kept| && |ic.sizeClauses| == |idx.kept|
      requires Tab(ic) == StartTable(idx, G, ic.distrib[..], ic.sizeClauses)
      requires idx.Covers(component) && Ascending(component) && Need(idx, component) <= ic.distrib.Length
      requires |ic.shiftedSizeClause| == |idx.kept| && |ic.shiftedIndexClause| == |idx.kept|
      requires ic.markedAsRedundant == NoFlags(|idx.kept|)
      requires idx.maxSizeClause < |ic.distribDiffSize|
      modifies this`vecBucketSortInfo, this`unusedBucket, this`markIdx, this`mustUnMark
      modifies this`idInVecBucket, this`G, this`O, this`R
      modifies ic`sizeDistrib, ic`nbClauseInDistrib, ic`sizeClauses, ic.distrib
      modifies ic`shiftedSizeClause, ic`shiftedIndexClause, ic`markedAsRedundant, ic`distribDiffSize
      ensures old(Tab(ic)).U >= -1 && t == RefineVars(idx, old(Tab(ic)), component)
      ensures ic.distrib[..] == t.D && ic.sizeDistrib == t.SD && ic.sizeClauses == t.SC && G == t.G
      ensures mustUnMark == [] && Unmarked(t, vecBucketSortInfo, markIdx)
      ensures ic.markedAsRedundant == old(ic.markedAsRedundant) && |ic.shiftedSizeClause| == |idx.kept|
      ensures Renumbered(t, t.SD, ic.nbClauseInDistrib, ic.shiftedSizeClause, old(ic.shiftedIndexClause),
                         ic.shiftedIndexClause, old(ic.distribDiffSize), ic.distribDiffSize)
      ensures MarksOk(t, idx.currentSize) && realSize == SizeAfter(t, idx.currentSize, t.SD, |t.MU|)
    {
      ghost var t0 := Tab(ic);
      EmptyStable(idx, G, ic.sizeClauses, ic.distrib[..]);
      CollectReady(idx, t0, component, |ic.distribDiffSize| - 1);
      t := RefineVars(idx, t0, component);
      RefineComponent(idx, component, ic);
      realSize := RemoveDuplicateClauses(idx, ic, t);
    }

    /**
     * The end of `collectDistrib`, from the table t the refinement left: the
     * unmark loop, the reset of `m_mustUnMark` and the compaction of the ids.
     */
    method RemoveDuplicateClauses(idx: OccurrenceIndex, ic: BucketInConstruction, ghost t: Table)
      returns (realSize: nat)
      requires mustUnMark == t.MU && vecBucketSortInfo == t.B && markIdx == t.M && ic.sizeClauses == t.SC
      requires ic.nbClauseInDistrib == t.N && ic.sizeDistrib == t.SD && ic.distrib[..] == t.D && G == t.G
      requires |ic.distribDiffSize| > 0 && DedupFacts(idx, t, |ic.distribDiffSize| - 1)
      requires |ic.shiftedSizeClause| == |idx.kept| && |ic.shiftedIndexClause| == |idx.kept|
      requires ic.markedAsRedundant == NoFlags(|idx.kept|)
      modifies this`markIdx, this`mustUnMark, this`vecBucketSortInfo
      modifies ic`shiftedSizeClause, ic`shiftedIndexClause, ic`markedAsRedundant, ic`distribDiffSize
      modifies ic`nbClauseInDistrib
      ensures ic.sizeDistrib == t.SD && ic.sizeClauses == t.SC && ic.distrib[..] == t.D && G == t.G
      ensures mustUnMark == [] && Unmarked(t, vecBucketSortInfo, markIdx)
      ensures ic.markedAsRedundant == old(ic.markedAsRedundant) && |ic.shiftedSizeClause| == |idx.kept|
      ensures Renumbered(t, t.SD, ic.nbClauseInDistrib, ic.shiftedSizeClause, old(ic.shiftedIndexClause),
                         ic.shiftedIndexClause, old(ic.distribDiffSize), ic.distribDiffSize)
      ensures MarksOk(t, idx.currentSize) && realSize == SizeAfter(t, idx.currentSize, t.SD, |t.MU|)
    {
      var B, M, ss, red, si, diff, K, rs :=
        RemoveDuplicates(idx, t, mustUnMark, vecBucketSortInfo, markIdx, ic.sizeClauses, ic.shiftedSizeClause,
                         ic.markedAsRedundant, ic.shiftedIndexClause, ic.distribDiffSize, ic.nbClauseInDistrib,
                         ic.sizeDistrib);
      ic.SetRenumbered(ss, red, si, diff, K);
      SetMarks(B, M);
      realSize := rs;
    }
  }
}
