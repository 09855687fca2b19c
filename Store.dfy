/**
 * `storeClauses` as a whole: the formula segment of a key, from byte base
 * of the key on. It clears the segment, names the component's variables
 * 1..|component|, writes one token per clause length that occurs, leaves
 * one clear field as a separator, lays out one slot per surviving clause and
 * then fills the slots, record by record, with the renamed literals.
 */
module ClauseStore {
  import opened Arith
  import opened Bits
  import opened BitWriter
  import opened Cnf
  import opened Partition
  import opened SizePlan
  import opened ClauseSegment
  import opened ClauseWalk

  /** The bits the tokens of diff take. */
  function TokenBits(lit: nat, diff: seq<nat>): nat
  {
    Units(lit, CountPresent(diff, |diff|))
  }

  /**
   * The `memset` of storeClauses and its second loop: the segment of nbF
   * bytes from base is cleared, then the tokens are written from its
   * start; past the tokens the segment stays clear.
   */
  method StoreHeader(data: array<byte>, base: nat, nbF: nat, lit: nat, diff: seq<nat>)
    returns (p: nat, remaining: nat)
    requires base + nbF <= data.Length
    requires forall x :: 0 <= x < |diff| && diff[x] != 0 ==> x < Pow2(lit)
    requires TokenBits(lit, diff) <= 8 * nbF
    modifies data
    ensures 1 <= remaining <= 8 && Pos(p, remaining) == 8 * base + TokenBits(lit, diff)
    ensures SameOutside(old(data[..]), data[..], 8 * base, 8 * base + 8 * nbF)
    ensures TokensHold(data[..], 8 * base, lit, Present(diff, |diff|))
    ensures WindowClear(data[..], 8 * base + TokenBits(lit, diff), 8 * nbF - TokenBits(lit, diff))
  {
    Zero(data, base, nbF);
    ghost var z := data[..];
    ghost var u := TokenBits(lit, diff);
    assert WindowClear(z, 8 * base, u);
    p, remaining := StoreTokens(data, base, lit, diff);
    StillClear(z, data[..], 8 * base, 8 * nbF, u);
    FrameWithin(old(data[..]), z, data[..], 8 * base, 8 * base + 8 * nbF, 8 * base, 8 * base + u);
  }

  /** The first field of the slot of each of the K surviving clauses. */
  function Starts(ss: seq<nat>, K: nat, diff: seq<nat>): (st: seq<nat>)
    requires Histogram(ss, K, diff)
    ensures |st| == K && forall k :: 0 <= k < K ==> st[k] == SlotOf(ss, diff, k)
  {
    StartsUpTo(ss, K, diff, K)
  }

  /** The first fields of the slots of clauses 0 .. m - 1. */
  function StartsUpTo(ss: seq<nat>, K: nat, diff: seq<nat>, m: nat): (st: seq<nat>)
    requires Histogram(ss, K, diff) && m <= K
    ensures |st| == m && forall k :: 0 <= k < m ==> st[k] == SlotOf(ss, diff, k)
  {
    if m == 0 then [] else StartsUpTo(ss, K, diff, m - 1) + [SlotOf(ss, diff, m - 1)]
  }

  /**
   * The layout storeClauses fills: stream position 8 p of the byte the
   * tokens ended in, the first slot `(8 - remaining) + nbBitStoreLit` bits
   * on, the slots of SlotOf, the group indices si and the local ids mapVar.
   */
  function SlotLayout(p: nat, remaining: nat, lit: nat, ss: seq<nat>, K: nat, diff: seq<nat>,
                      si: seq<nat>, mapVar: seq<nat>): Layout
    requires Histogram(ss, K, diff) && remaining <= 8
  {
    Layout(8 * p, (8 - remaining) + lit, lit, ss, K, Starts(ss, K, diff), LitTotal(diff, |diff|), si, mapVar)
  }

  /** The slots of SlotOf lie inside the literal units and do not overlap. */
  lemma SlotsLaidOut(g: Layout, diff: seq<nat>)
    requires Histogram(g.ss, g.K, diff) && g.starts == Starts(g.ss, g.K, diff) && g.total == LitTotal(diff, |diff|)
    ensures LayoutOk(g)
  {
    forall k | 0 <= k < g.K
      ensures g.starts[k] + g.ss[k] <= g.total
    {
      SlotInside(g.ss, g.K, diff, k);
    }
    forall k, k' | 0 <= k < g.K && 0 <= k' < g.K && k != k'
      ensures g.starts[k] + g.ss[k] <= g.starts[k'] || g.starts[k'] + g.ss[k'] <= g.starts[k]
    {
      SlotsDisjoint(g.ss, g.K, diff, k, k');
    }
  }

  /** mapVar names the variables of the component 1..|component|. */
  predicate Names(mapVar: seq<nat>, component: seq<int>)
  {
    forall i :: 0 <= i < |component| ==> 0 <= component[i] < |mapVar| && mapVar[component[i]] == i + 1
  }

  /** Every entry's group has an index and its literal is one of the component's. */
  predicate EntriesOver(E: seq<Entry>, si: seq<nat>, component: seq<int>)
  {
    forall e :: 0 <= e < |E| ==> E[e].id < |si| && E[e].lit / 2 in component
  }

  /** A literal of the component has a local literal of at most 2 |component| + 1. */
  lemma LocalLitBound(mapVar: seq<nat>, component: seq<int>, l: nat)
    requires Names(mapVar, component) && l / 2 in component
    ensures l / 2 < |mapVar| && LocalLit(mapVar, l) <= 2 * |component| + 1
  {
    var i :| 0 <= i < |component| && component[i] == l / 2;
  }

  /** The entries are in range and fit a field. */
  lemma EntriesFit(g: Layout, E: seq<Entry>, component: seq<int>)
    requires EntriesOver(E, g.si, component) && Names(g.mapVar, component)
    requires 2 * |component| + 1 < Pow2(g.lit)
    ensures EntriesOk(g, E) && LitsFit(g, E)
  {
    forall e | 0 <= e < |E|
      ensures E[e].id < |g.si| && E[e].lit / 2 < |g.mapVar|
    {
      LocalLitBound(g.mapVar, component, E[e].lit);
    }
    forall e | 0 <= e < |E|
      ensures LocalLit(g.mapVar, E[e].lit) < Pow2(g.lit)
    {
      LocalLitBound(g.mapVar, component, E[e].lit);
    }
  }

  /** When the entries of each group number its clause's length, they fill the slots. */
  lemma FullFromCounts(g: Layout, E: seq<Entry>)
    requires LayoutOk(g) && EntriesOk(g, E)
    requires forall k :: 0 <= k < g.K ==> CountFor(g.si, E, |E|, k) == g.ss[k]
    ensures Full(g, E)
  {
    forall k | 0 <= k < g.K
      ensures |SlotLits(g, E, |E|, k)| == g.ss[k]
    {
      SlotLitsCount(g, E, |E|, k);
    }
  }

  /** The first slot starts one field past the tokens; the slots end within the segment. */
  lemma SpanInSegment(g: Layout, diff: seq<nat>, base: nat, nbF: nat)
    requires g.origin + g.off0 == 8 * base + TokenBits(g.lit, diff) + g.lit
    requires g.total == LitTotal(diff, |diff|)
    requires Units(g.lit, CountPresent(diff, |diff|) + 1 + LitTotal(diff, |diff|)) <= 8 * nbF
    ensures g.origin + g.off0 + Span(g) == 8 * base + Units(g.lit, CountPresent(diff, |diff|) + 1 + g.total)
    ensures TokenBits(g.lit, diff) + g.lit + Span(g) <= 8 * nbF
  {
    var c := CountPresent(diff, |diff|);
    UnitsAdd(g.lit, c, 1);
    UnitsAdd(g.lit, c + 1, g.total);
  }

  /** Before the walk every slot is clear. */
  lemma SlotsClear(g: Layout, s: seq<byte>, E: seq<Entry>, lo: nat, n: nat)
    requires LayoutOk(g) && EntriesOk(g, E)
    requires lo <= g.origin + g.off0 && g.origin + g.off0 + Span(g) <= lo + n && lo + n <= 8 * |s|
    requires WindowClear(s, lo, n)
    ensures RestClear(s, g, E, 0)
  {
    forall k, t | 0 <= k < g.K && FieldPos(g, k, |SlotLits(g, E, 0, k)|) <= t < FieldPos(g, k, g.ss[k]) && t < 8 * |s|
      ensures !StreamBit(s, t)
    {
      FieldMonotone(g, k, 0, g.ss[k]);
      FieldInSpan(g, k);
    }
  }

  /**
   * The walk starts from the layout: each offset at the start of its slot,
   * every slot clear inside the segment, every entry in range.
   */
  lemma WalkStart(g: Layout, s: seq<byte>, offs: seq<nat>, E: seq<Entry>, diff: seq<nat>, base: nat, nbF: nat,
                  component: seq<int>)
    requires Histogram(g.ss, g.K, diff) && g.starts == Starts(g.ss, g.K, diff) && g.total == LitTotal(diff, |diff|)
    requires EntriesOver(E, g.si, component) && Names(g.mapVar, component) && 2 * |component| + 1 < Pow2(g.lit)
    requires forall k :: 0 <= k < g.K ==> CountFor(g.si, E, |E|, k) == g.ss[k]
    requires g.origin + g.off0 == 8 * base + TokenBits(g.lit, diff) + g.lit
    requires Units(g.lit, CountPresent(diff, |diff|) + 1 + LitTotal(diff, |diff|)) <= 8 * nbF
    requires base + nbF <= |s| && TokenBits(g.lit, diff) <= 8 * nbF
    requires WindowClear(s, 8 * base + TokenBits(g.lit, diff), 8 * nbF - TokenBits(g.lit, diff))
    requires g.K <= |offs|
    requires forall k {:trigger offs[k]} :: 0 <= k < g.K && g.ss[k] != 0 ==> offs[k] == g.off0 + Units(g.lit, SlotOf(g.ss, diff, k))
    ensures WalkReady(g, s, E) && WalkAt(g, s, s, offs, E, 0)
  {
    SlotsLaidOut(g, diff);
    EntriesFit(g, E, component);
    FullFromCounts(g, E);
    SpanInSegment(g, diff, base, nbF);
    SlotsClear(g, s, E, 8 * base + TokenBits(g.lit, diff), 8 * nbF - TokenBits(g.lit, diff));
    OffsetsStart(g, offs, E, diff);
  }

  /** Before the walk each offset points at the first field of its slot. */
  lemma OffsetsStart(g: Layout, offs: seq<nat>, E: seq<Entry>, diff: seq<nat>)
    requires LayoutOk(g) && EntriesOk(g, E)
    requires Histogram(g.ss, g.K, diff) && g.starts == Starts(g.ss, g.K, diff)
    requires g.K <= |offs|
    requires forall k {:trigger offs[k]} :: 0 <= k < g.K && g.ss[k] != 0 ==> offs[k] == g.off0 + Units(g.lit, SlotOf(g.ss, diff, k))
    ensures OffsetsAt(g, offs, E, 0)
  {
    forall k | 0 <= k < g.K && g.ss[k] != 0
      ensures offs[k] == g.off0 + Units(g.lit, g.starts[k] + |SlotLits(g, E, 0, k)|)
    {
      assert SlotLits(g, E, 0, k) == [];
    }
  }

  /** Stream position of field j of the slot of clause k, from byte base of the key. */
  function SlotFieldPos(base: nat, lit: nat, diff: seq<nat>, ss: seq<nat>, k: nat, j: nat): nat
    requires k < |ss| && ss[k] <= |diff|
  {
    8 * base + Units(lit, CountPresent(diff, |diff|) + 1 + SlotOf(ss, diff, k) + j)
  }

  /**
   * Every field of the slot of each surviving clause k, read from the
   * segment at byte base, is the k-th clause's literal the walk collected.
   */
  ghost predicate ClausesHold(s: seq<byte>, base: nat, diff: seq<nat>, g: Layout, E: seq<Entry>)
    requires Histogram(g.ss, g.K, diff) && EntriesOk(g, E)
  {
    forall k, j :: 0 <= k < g.K && 0 <= j < |SlotLits(g, E, |E|, k)| ==>
      SlotFieldPos(base, g.lit, diff, g.ss, k, j) + g.lit <= 8 * |s|
      && Read(s, SlotFieldPos(base, g.lit, diff, g.ss, k, j), g.lit) == SlotLits(g, E, |E|, k)[j]
  }

  /** Field j of slot k is at the same place counted from p and from base. */
  lemma FieldFromBase(g: Layout, diff: seq<nat>, base: nat, k: nat, j: nat)
    requires LayoutOk(g) && Histogram(g.ss, g.K, diff) && k < g.K
    requires g.starts[k] == SlotOf(g.ss, diff, k)
    requires g.origin + g.off0 == 8 * base + TokenBits(g.lit, diff) + g.lit
    ensures FieldPos(g, k, j) == SlotFieldPos(base, g.lit, diff, g.ss, k, j)
  {
    var c, st := CountPresent(diff, |diff|), g.starts[k];
    UnitsAdd(g.lit, c, 1);
    UnitsAdd(g.lit, c + 1, st + j);
    assert Units(g.lit, 1) == g.lit;
    assert c + 1 + SlotOf(g.ss, diff, k) + j == (c + 1) + (st + j);
  }

  /** After the walk the fields hold, counted from base. */
  lemma FieldsFromBase(g: Layout, s0: seq<byte>, s: seq<byte>, offs: seq<nat>, E: seq<Entry>, diff: seq<nat>, base: nat)
    requires Histogram(g.ss, g.K, diff) && g.starts == Starts(g.ss, g.K, diff) && g.total == LitTotal(diff, |diff|)
    requires g.origin + g.off0 == 8 * base + TokenBits(g.lit, diff) + g.lit
    requires WalkReady(g, s0, E) && WalkAt(g, s0, s, offs, E, |E|)
    ensures ClausesHold(s, base, diff, g, E)
  {
    SlotsLaidOut(g, diff);
    forall k, j | 0 <= k < g.K && 0 <= j < |SlotLits(g, E, |E|, k)|
      ensures SlotFieldPos(base, g.lit, diff, g.ss, k, j) + g.lit <= 8 * |s|
      ensures Read(s, SlotFieldPos(base, g.lit, diff, g.ss, k, j), g.lit) == SlotLits(g, E, |E|, k)[j]
    {
      FieldFromBase(g, diff, base, k, j);
      FieldMonotone(g, k, j + 1, g.ss[k]);
      FieldNext(g, k, j);
      FieldInSpan(g, k);
      assert SlotField(s, g, k, j) == SlotLits(g, E, |E|, k)[j];
    }
  }

  /** Tokens before the bits a write changed still read the same. */
  lemma TokensKept(s: seq<byte>, s': seq<byte>, q: nat, lit: nat, ps: seq<nat>, lo: nat, hi: nat)
    requires TokensHold(s, q, lit, ps) && SameOutside(s, s', lo, hi) && q + Units(lit, |ps|) <= lo
    ensures TokensHold(s', q, lit, ps)
  {
    forall j | 0 <= j < |ps|
      ensures q + Units(lit, j) + lit <= 8 * |s'| && Read(s', q + Units(lit, j), lit) == ps[j]
    {
      var x := ps[j];
      UnitsMonotone(lit, j + 1, |ps|);
      ReadKept(s, s', q + Units(lit, j), lit, lo, hi);
    }
  }

  /** A clear window before the bits a write changed stays clear. */
  lemma ClearKept(s: seq<byte>, s': seq<byte>, q: nat, n: nat, lo: nat, hi: nat)
    requires q + n <= 8 * |s| && WindowClear(s, q, n) && SameOutside(s, s', lo, hi) && q + n <= lo
    ensures WindowClear(s', q, n)
  {}

  /**
   * What storeClauses leaves, from the segment s1 after the header and the
   * segment s2 after the walk: nothing outside the nbF bytes changed, the
   * tokens and the clear separator field are still there, and every slot
   * holds its clause.
   */
  lemma StoreEnd(g: Layout, s0: seq<byte>, s1: seq<byte>, s2: seq<byte>, offs: seq<nat>, E: seq<Entry>,
                 diff: seq<nat>, base: nat, nbF: nat)
    requires Histogram(g.ss, g.K, diff) && g.starts == Starts(g.ss, g.K, diff) && g.total == LitTotal(diff, |diff|)
    requires g.origin + g.off0 == 8 * base + TokenBits(g.lit, diff) + g.lit
    requires Units(g.lit, CountPresent(diff, |diff|) + 1 + LitTotal(diff, |diff|)) <= 8 * nbF
    requires base + nbF <= |s1| && TokenBits(g.lit, diff) <= 8 * nbF
    requires SameOutside(s0, s1, 8 * base, 8 * base + 8 * nbF)
    requires TokensHold(s1, 8 * base, g.lit, Present(diff, |diff|))
    requires WindowClear(s1, 8 * base + TokenBits(g.lit, diff), 8 * nbF - TokenBits(g.lit, diff))
    requires WalkReady(g, s1, E) && WalkAt(g, s1, s2, offs, E, |E|)
    ensures SameOutside(s0, s2, 8 * base, 8 * base + 8 * nbF)
    ensures TokensHold(s2, 8 * base, g.lit, Present(diff, |diff|))
    ensures 8 * base + TokenBits(g.lit, diff) + g.lit <= 8 * |s2|
    ensures WindowClear(s2, 8 * base + TokenBits(g.lit, diff), g.lit)
    ensures ClausesHold(s2, base, diff, g, E)
  {
    var lo := g.origin + g.off0;
    SpanInSegment(g, diff, base, nbF);
    FrameWithin(s0, s1, s2, 8 * base, 8 * base + 8 * nbF, lo, lo + Span(g));
    TokensKept(s1, s2, 8 * base, g.lit, Present(diff, |diff|), lo, lo + Span(g));
    ClearKept(s1, s2, 8 * base + TokenBits(g.lit, diff), g.lit, lo, lo + Span(g));
    FieldsFromBase(g, s1, s2, offs, E, diff, base);
  }

  /**
   * The third and fourth loops of `storeClauses`: the block of each length
   * starts after the shorter ones, and each surviving clause takes the
   * next slot of its block, from off0 on.
   */
  method LaySlots(memPos: array<nat>, offs: array<nat>, ss0: seq<nat>, K: nat, lit: nat, diff: seq<nat>, off0: nat)
    returns (ss: seq<nat>)
    requires memPos != offs && memPos.Length == |diff| && K <= offs.Length
    requires Histogram(ss0, K, diff)
    modifies memPos, offs
    ensures forall k {:trigger offs[k]} :: 0 <= k < K && ss0[k] != 0 ==> offs[k] == off0 + Units(lit, SlotOf(ss0, diff, k))
    ensures |ss| == |ss0| && forall k :: 0 <= k < |ss| ==> ss[k] == if k < K then 0 else ss0[k]
  {
    var end := BlockStarts(memPos, off0, lit, diff);
    ss := ClauseOffsets(memPos, offs, ss0, K, lit, diff, off0);
  }

  /** The tokens lie in a segment that holds tokens, separator and slots. */
  lemma TokensInSegment(lit: nat, diff: seq<nat>, nbF: nat)
    requires Units(lit, CountPresent(diff, |diff|) + 1 + LitTotal(diff, |diff|)) <= 8 * nbF
    ensures TokenBits(lit, diff) <= 8 * nbF
  {
    UnitsMonotone(lit, CountPresent(diff, |diff|), CountPresent(diff, |diff|) + 1 + LitTotal(diff, |diff|));
  }

  /** Every record's variable has a local id. */
  lemma RecordsNamed(D: seq<nat>, R: seq<Rec>, mapVar: seq<nat>, component: seq<int>)
    requires Names(mapVar, component) && forall r :: 0 <= r < |R| && R[r].pos < |D| ==> D[R[r].pos] / 2 in component
    ensures forall r :: 0 <= r < |R| && R[r].pos < |D| ==> D[R[r].pos] / 2 < |mapVar|
  {
    forall r | 0 <= r < |R| && R[r].pos < |D|
      ensures D[R[r].pos] / 2 < |mapVar|
    {
      LocalLitBound(mapVar, component, D[R[r].pos]);
    }
  }

  /**
   * Everything of `storeClauses` before the walk: the cleared segment with
   * its tokens, the local ids, and the offset of each surviving clause at
   * the start of its slot, the first slot one field past the tokens.
   */
  method StoreLayout(data: array<byte>, base: nat, nbF: nat, lit: nat, component: seq<int>, mapVar0: seq<nat>,
                     diff: seq<nat>, ss0: seq<nat>, K: nat, memPos: array<nat>, offs: array<nat>)
    returns (p: nat, remaining: nat, mapVar: seq<nat>, ss: seq<nat>)
    requires memPos != offs
    requires base + nbF <= data.Length && memPos.Length == |diff| && K <= offs.Length
    requires Ascending(component) && forall i :: 0 <= i < |component| ==> 0 <= component[i] < |mapVar0|
    requires Histogram(ss0, K, diff) && forall x :: 0 <= x < |diff| && diff[x] != 0 ==> x < Pow2(lit)
    requires TokenBits(lit, diff) <= 8 * nbF
    modifies data, memPos, offs
    ensures 1 <= remaining <= 8 && Pos(p, remaining) == 8 * base + TokenBits(lit, diff)
    ensures SameOutside(old(data[..]), data[..], 8 * base, 8 * base + 8 * nbF)
    ensures TokensHold(data[..], 8 * base, lit, Present(diff, |diff|))
    ensures WindowClear(data[..], 8 * base + TokenBits(lit, diff), 8 * nbF - TokenBits(lit, diff))
    ensures |mapVar| == |mapVar0| && Names(mapVar, component)
    ensures forall v :: 0 <= v < |mapVar| && v !in component ==> mapVar[v] == mapVar0[v]
    ensures forall k {:trigger offs[k]} :: 0 <= k < K && ss0[k] != 0 ==>
              offs[k] == (8 - remaining) + lit + Units(lit, SlotOf(ss0, diff, k))
    ensures |ss| == |ss0| && forall k :: 0 <= k < |ss| ==> ss[k] == if k < K then 0 else ss0[k]
  {
    p, remaining := StoreHeader(data, base, nbF, lit, diff);
    mapVar := MapComponent(mapVar0, component);
    var offSet := (8 - remaining) + lit;
    ss := LaySlots(memPos, offs, ss0, K, lit, diff, offSet);
  }

  /**
   * `storeClauses(info, data + base, component, inConstruction)` with
   * `nbByteStoreFormula` = nbF and `nbBitStoreLit` = lit: diff is
   * `distribDiffSize`, ss0 `shiftedSizeClause`, K `nbClauseInDistrib`, si
   * `shiftedIndexClause`, memPos `m_memoryPosWrtClauseSize` and offs
   * `m_offsetClauses`; R are the records of distrib[0..sizeDistrib).
   * It returns the new `m_mapVar`, the reset `shiftedSizeClause` and, as
   * ghost, the layout it filled.
   */
  method StoreClauses(data: array<byte>, base: nat, nbF: nat, lit: nat, component: seq<int>, mapVar0: seq<nat>,
                      diff: seq<nat>, ss0: seq<nat>, K: nat, si: seq<nat>, memPos: array<nat>, offs: array<nat>,
                      distrib: array<nat>, sizeDistrib: nat, ghost R: seq<Rec>)
    returns (mapVar: seq<nat>, ss: seq<nat>, ghost g: Layout)
    requires memPos != offs && offs != distrib && memPos != distrib
    requires base + nbF <= data.Length && memPos.Length == |diff| && K <= offs.Length
    requires Ascending(component) && forall i :: 0 <= i < |component| ==> 0 <= component[i] < |mapVar0|
    requires 2 * |component| + 1 < Pow2(lit)
    requires Histogram(ss0, K, diff) && forall x :: 0 <= x < |diff| && diff[x] != 0 ==> x < Pow2(lit)
    requires Units(lit, CountPresent(diff, |diff|) + 1 + LitTotal(diff, |diff|)) <= 8 * nbF
    requires Laid(distrib[..], R, sizeDistrib) && Framed(distrib[..], R)
    requires forall r :: 0 <= r < |R| ==> distrib[R[r].pos] / 2 in component
    requires EntriesOver(Entries(distrib[..], R), si, component)
    requires forall k :: 0 <= k < K ==> CountFor(si, Entries(distrib[..], R), |Entries(distrib[..], R)|, k) == ss0[k]
    modifies data, memPos, offs
    ensures |mapVar| == |mapVar0| && Names(mapVar, component)
    ensures forall v :: 0 <= v < |mapVar| && v !in component ==> mapVar[v] == mapVar0[v]
    ensures |ss| == |ss0| && forall k :: 0 <= k < |ss| ==> ss[k] == if k < K then 0 else ss0[k]
    ensures g.lit == lit && g.ss == ss0 && g.K == K && g.si == si && g.mapVar == mapVar
    ensures EntriesOk(g, Entries(distrib[..], R)) && LayoutOk(g) && Full(g, Entries(distrib[..], R))
    ensures data[..base] == old(data[..base]) && data[base + nbF..] == old(data[base + nbF..])
    ensures TokensHold(data[..], 8 * base, lit, Present(diff, |diff|))
    ensures 8 * base + TokenBits(lit, diff) + lit <= 8 * data.Length
    ensures WindowClear(data[..], 8 * base + TokenBits(lit, diff), lit)
    ensures Histogram(g.ss, g.K, diff) && ClausesHold(data[..], base, diff, g, Entries(distrib[..], R))
  {
    ghost var s0 := data[..];
    ghost var E := Entries(distrib[..], R);
    TokensInSegment(lit, diff, nbF);
    var p, remaining;
    p, remaining, mapVar, ss := StoreLayout(data, base, nbF, lit, component, mapVar0, diff, ss0, K, memPos, offs);
    g := SlotLayout(p, remaining, lit, ss0, K, diff, si, mapVar);
    StoreSlots(data, base, nbF, p, lit, component, diff, offs, distrib, sizeDistrib, si, K, mapVar, g, R, s0);
  }

  /**
   * The last loop of `storeClauses` on a laid-out segment: every surviving
   * clause's slot gets its renamed literals, and the header, the tokens, the
   * separator and the bytes outside the segment are kept.
   */
  method StoreSlots(data: array<byte>, base: nat, nbF: nat, p: nat, lit: nat, component: seq<int>, diff: seq<nat>,
                    offs: array<nat>, distrib: array<nat>, sizeDistrib: nat, si: seq<nat>, K: nat,
                    mapVar: seq<nat>, ghost g: Layout, ghost R: seq<Rec>,
                    ghost s0: seq<byte>)
    requires offs != distrib && base + nbF <= data.Length && g.K <= offs.Length
    requires g.origin == 8 * p && g.lit == lit && g.si == si && g.K == K && g.mapVar == mapVar
    requires Histogram(g.ss, g.K, diff) && g.starts == Starts(g.ss, g.K, diff) && g.total == LitTotal(diff, |diff|)
    requires g.origin + g.off0 == 8 * base + TokenBits(lit, diff) + lit
    requires Units(lit, CountPresent(diff, |diff|) + 1 + LitTotal(diff, |diff|)) <= 8 * nbF
    requires TokenBits(lit, diff) <= 8 * nbF && 2 * |component| + 1 < Pow2(lit)
    requires Names(g.mapVar, component)
    requires Laid(distrib[..], R, sizeDistrib) && Framed(distrib[..], R)
    requires forall r :: 0 <= r < |R| ==> distrib[R[r].pos] / 2 in component
    requires EntriesOver(Entries(distrib[..], R), g.si, component)
    requires forall k :: 0 <= k < g.K ==> CountFor(g.si, Entries(distrib[..], R), |Entries(distrib[..], R)|, k) == g.ss[k]
    requires forall k {:trigger offs[k]} :: 0 <= k < g.K && g.ss[k] != 0 ==> offs[k] == g.off0 + Units(lit, SlotOf(g.ss, diff, k))
    requires SameOutside(s0, data[..], 8 * base, 8 * base + 8 * nbF)
    requires TokensHold(data[..], 8 * base, lit, Present(diff, |diff|))
    requires WindowClear(data[..], 8 * base + TokenBits(lit, diff), 8 * nbF - TokenBits(lit, diff))
    modifies data, offs
    ensures EntriesOk(g, Entries(distrib[..], R)) && LayoutOk(g) && Full(g, Entries(distrib[..], R))
    ensures data[..base] == s0[..base] && data[base + nbF..] == s0[base + nbF..]
    ensures TokensHold(data[..], 8 * base, lit, Present(diff, |diff|))
    ensures 8 * base + TokenBits(lit, diff) + lit <= 8 * data.Length
    ensures WindowClear(data[..], 8 * base + TokenBits(lit, diff), lit)
    ensures ClausesHold(data[..], base, diff, g, Entries(distrib[..], R))
  {
    ghost var E := Entries(distrib[..], R);
    ghost var s1 := data[..];
    RecordsNamed(distrib[..], R, g.mapVar, component);
    WalkStart(g, s1, offs[..], E, diff, base, nbF, component);
    StoreClauseLits(data, p, offs, distrib, sizeDistrib, si, K, mapVar, lit, g, R);
    StoreEnd(g, s0, s1, data[..], offs[..], E, diff, base, nbF);
    BytesKept(s0, data[..], base, base + nbF);
  }
}
