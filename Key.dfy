/**
 * The body of `storeFormula` once the distribution is collected: sizing the
 * key, writing the variable segment, then the formula segment when a clause
 * survived, and the `DataInfo` the bucket records beside the bytes.
 */
module KeyStore {
  import opened Arith
  import opened Bits
  import opened Cnf
  import opened Partition
  import opened Collect
  import opened SizePlan
  import opened ClauseSegment
  import opened ClauseWalk
  import opened ClauseStore
  import VariableSegment

  /** `DataInfo`: the size of a key and the widths needed to read it back. */
  datatype DataInfo = DataInfo(size: nat, nbVar: nat, nbBitVar: nat, nbBitFormula: nat)

  /**
   * The formula segment at byte base: one lit-bit token per present clause
   * length, a lit-bit zero separator, and the slot of every surviving
   * clause holding its local literals.
   */
  ghost predicate FormulaHolds(s: seq<byte>, base: nat, lit: nat, diff: seq<nat>, g: Layout, E: seq<Entry>)
  {
    g.lit == lit && Histogram(g.ss, g.K, diff) && EntriesOk(g, E) && LayoutOk(g) && Full(g, E)
    && 8 * base + TokenBits(lit, diff) + lit <= 8 * |s|
    && TokensHold(s, 8 * base, lit, Present(diff, |diff|))
    && WindowClear(s, 8 * base + TokenBits(lit, diff), lit)
    && ClausesHold(s, base, diff, g, E)
  }

  /** Some length is present exactly when some clause survived. */
  lemma ClausesPresent(ss: seq<nat>, K: nat, diff: seq<nat>)
    requires Histogram(ss, K, diff)
    ensures K > 0 <==> CountPresent(diff, |diff|) >= 1
  {
    CountPresentZero(diff, |diff|);
    if K > 0 {
      CountMonotone(ss, 1, K, ss[0]);
      assert diff[ss[0]] != 0;
    } else {
      forall x | 0 <= x < |diff|
        ensures diff[x] == 0
      {
        assert diff[x] == Count(ss, 0, x);
      }
    }
  }

  /**
   * What `collectDistrib` leaves for the formula segment: the histogram of
   * the surviving lengths, lengths of at most 2 |component|, the records of
   * distrib over the component's literals, and as many record entries per
   * surviving clause as its length.
   */
  ghost predicate Collected(D: seq<nat>, R: seq<Rec>, SD: nat, ss: seq<nat>, K: nat, si: seq<nat>,
                            diff: seq<nat>, component: seq<int>)
  {
    Histogram(ss, K, diff)
    && (forall x :: 0 <= x < |diff| && diff[x] != 0 ==> x <= 2 * |component|)
    && Laid(D, R, SD) && Framed(D, R)
    && (forall r :: 0 <= r < |R| ==> D[R[r].pos] / 2 in component)
    && EntriesOver(Entries(D, R), si, component)
    && forall k :: 0 <= k < K ==> CountFor(si, Entries(D, R), |Entries(D, R)|, k) == ss[k]
  }

  /**
   * Everything `storeFormula` does after `collectDistrib`: the plan, a new
   * array of `totalByte` bytes, the variable segment, and, when K > 0
   * clauses survived, the formula segment after it.
   */
  method StoreKey(component: seq<int>, mapVar0: seq<nat>, diff: seq<nat>, ss0: seq<nat>, si: seq<nat>, K: nat,
                  distrib: array<nat>, sizeDistrib: nat, ghost R: seq<Rec>, memPos: array<nat>, offs: array<nat>)
    returns (data: array<byte>, info: AllocSizeInfo, di: DataInfo, mapVar: seq<nat>, ss: seq<nat>,
             ghost g: Layout)
    requires ValidComponent(component) && |component| < 0x8000_0000 - 1
    requires forall i :: 0 <= i < |component| ==> component[i] < |mapVar0|
    requires Collected(distrib[..], R, sizeDistrib, ss0, K, si, diff, component)
    requires memPos != offs && offs != distrib && memPos != distrib
    requires memPos.Length == |diff| && |ss0| < offs.Length
    modifies memPos, offs
    ensures fresh(data) && info == ComputeNeededBytesCorrected(component, diff)
    ensures data.Length == info.totalByte
    ensures di == DataInfo(info.totalByte, |component|, info.nbBitEltVar, info.nbBitStoreLit)
    ensures VariableSegment.VarsHold(data[..], info, component)
    ensures K == 0 <==> info.nbByteStoreFormula == 0
    ensures K == 0 ==> mapVar == mapVar0
    ensures K > 0 ==>
              g.K == K && g.ss == ss0 && g.si == si && g.mapVar == mapVar && Names(mapVar, component)
              && FormulaHolds(data[..], info.nbByteStoreVar, info.nbBitStoreLit, diff, g, Entries(distrib[..], R))
    ensures |mapVar| == |mapVar0| && forall v :: 0 <= v < |mapVar| && v !in component ==> mapVar[v] == mapVar0[v]
    ensures |ss| == |ss0| && forall k :: 0 <= k < |ss| ==> ss[k] == if k < K then 0 else ss0[k]
  {
    info := ComputeNeededBytesCorrected(component, diff);
    data := new byte[info.totalByte](_ => 0);
    CorrectedPlanFits(component, diff);
    var next := VariableSegment.StoreVariables(info, data, component);
    ghost var sv := data[..];
    assert VariableSegment.VarsHold(sv, info, component);
    ClausesPresent(ss0, K, diff);
    mapVar, ss := mapVar0, ss0;
    g := Layout(0, 0, 0, [], 0, [], 0, [], []);
    if K > 0 {
      mapVar, ss, g := FormulaSegment(data, next, info.nbByteStoreFormula, info.nbBitStoreLit, component,
                                      mapVar0, diff, ss0, si, K, distrib, sizeDistrib, R, memPos, offs);
      VariableSegment.VarsKept(sv, data[..], info, component);
    }
    di := DataInfo(info.totalByte, |component|, info.nbBitEltVar, info.nbBitStoreLit);
  }

  /** The `storeClauses` call of `storeFormula`, on the nbF bytes after the variable segment. */
  method FormulaSegment(data: array<byte>, base: nat, nbF: nat, lit: nat, component: seq<int>,
                        mapVar0: seq<nat>, diff: seq<nat>, ss0: seq<nat>, si: seq<nat>, K: nat,
                        distrib: array<nat>, sizeDistrib: nat, ghost R: seq<Rec>, memPos: array<nat>, offs: array<nat>)
    returns (mapVar: seq<nat>, ss: seq<nat>, ghost g: Layout)
    requires ValidComponent(component) && |component| < 0x8000_0000 - 1
    requires lit == LitWidth(component) && ReservedFormulaBits(lit, diff) < 8 * nbF
    requires base + nbF <= data.Length && K > 0
    requires forall i :: 0 <= i < |component| ==> component[i] < |mapVar0|
    requires Collected(distrib[..], R, sizeDistrib, ss0, K, si, diff, component)
    requires memPos != offs && offs != distrib && memPos != distrib
    requires memPos.Length == |diff| && |ss0| < offs.Length
    modifies data, memPos, offs
    ensures data[..base] == old(data[..base])
    ensures g.K == K && g.ss == ss0 && g.si == si && g.mapVar == mapVar && Names(mapVar, component)
    ensures FormulaHolds(data[..], base, lit, diff, g, Entries(distrib[..], R))
    ensures |mapVar| == |mapVar0| && forall v :: 0 <= v < |mapVar| && v !in component ==> mapVar[v] == mapVar0[v]
    ensures |ss| == |ss0| && forall k :: 0 <= k < |ss| ==> ss[k] == if k < K then 0 else ss0[k]
  {
    WidthsFit(component, lit, diff, nbF, ss0, K);
    RecordsInArray(distrib, R, component);
    mapVar, ss, g := StoreClauses(data, base, nbF, lit, component, mapVar0, diff, ss0, K,
                                  si, memPos, offs, distrib, sizeDistrib, R);
  }

  /** The literal width holds every local literal and every present length, and the slots fit in nbF bytes. */
  lemma WidthsFit(component: seq<int>, lit: nat, diff: seq<nat>, nbF: nat, ss: seq<nat>, K: nat)
    requires ValidComponent(component) && |component| < 0x8000_0000 - 1
    requires lit == LitWidth(component) && ReservedFormulaBits(lit, diff) < 8 * nbF
    requires Histogram(ss, K, diff) && K > 0
    requires forall x :: 0 <= x < |diff| && diff[x] != 0 ==> x <= 2 * |component|
    ensures 2 * |component| + 1 < Pow2(lit)
    ensures forall x :: 0 <= x < |diff| && diff[x] != 0 ==> x < Pow2(lit)
    ensures Units(lit, CountPresent(diff, |diff|) + 1 + LitTotal(diff, |diff|)) <= 8 * nbF
  {
    ClausesPresent(ss, K, diff);
    SlotsFit(lit, diff, nbF);
    LitWidthHoldsLiterals(component, 2 * |component| + 1);
    forall x | 0 <= x < |diff| && diff[x] != 0
      ensures x < Pow2(lit)
    {
      LitWidthHoldsLiterals(component, x);
    }
  }

  lemma SlotsFit(lit: nat, diff: seq<nat>, nbF: nat)
    requires CountPresent(diff, |diff|) >= 1 && ReservedFormulaBits(lit, diff) < 8 * nbF
    ensures Units(lit, CountPresent(diff, |diff|) + 1 + LitTotal(diff, |diff|)) <= 8 * nbF
  {
    var n := CountPresent(diff, |diff|) + 1 + LitTotal(diff, |diff|);
    FormulaLayoutFits(lit, diff, nbF);
    UnitsProduct(lit, n);
  }

  lemma RecordsInArray(distrib: array<nat>, R: seq<Rec>, component: seq<int>)
    requires Framed(distrib[..], R)
    requires forall r :: 0 <= r < |R| ==> distrib[..][R[r].pos] / 2 in component
    ensures forall r :: 0 <= r < |R| ==> distrib[R[r].pos] / 2 in component
  {}
}
