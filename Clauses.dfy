/**
 * The formula segment of a key (`storeClauses`): one token per clause
 * length that occurs, in increasing order, a zero separator, then the
 * literals of every surviving clause, renamed to local ids, in one slot
 * per clause. The slots of the clauses of one length form a block, the
 * blocks follow one another by increasing length, and inside a block the
 * slots follow the clauses' order. Every field is `nbBitStoreLit` bits
 * wide and written through the bit cursor.
 */
module ClauseSegment {
  import opened Arith
  import opened Bits
  import opened BitWriter
  import opened Cnf
  import opened Partition
  import opened SizePlan

  /** The lengths i < n that occur (`distribDiffSize[i] != 0`), in increasing order. */
  function Present(diff: seq<nat>, n: nat): (ps: seq<nat>)
    requires n <= |diff|
    ensures |ps| == CountPresent(diff, n)
    ensures forall j :: 0 <= j < |ps| ==> ps[j] < n && diff[ps[j]] != 0
  {
    if n == 0 then [] else Present(diff, n - 1) + (if diff[n - 1] != 0 then [n - 1] else [])
  }

  lemma {:induction false} CountPresentMonotone(diff: seq<nat>, n: nat, m: nat)
    requires n <= m <= |diff|
    ensures CountPresent(diff, n) <= CountPresent(diff, m)
    decreases m - n
  {
    if n < m {
      CountPresentMonotone(diff, n, m - 1);
    }
  }

  lemma {:induction false} LitTotalMonotone(diff: seq<nat>, n: nat, m: nat)
    requires n <= m <= |diff|
    ensures LitTotal(diff, n) <= LitTotal(diff, m)
    decreases m - n
  {
    if n < m {
      LitTotalMonotone(diff, n, m - 1);
    }
  }

  /** Number of the first k entries of ss equal to x. */
  function Count(ss: seq<nat>, k: nat, x: nat): nat
    requires k <= |ss|
  {
    if k == 0 then 0 else Count(ss, k - 1, x) + (if ss[k - 1] == x then 1 else 0)
  }

  lemma {:induction false} CountMonotone(ss: seq<nat>, k: nat, k': nat, x: nat)
    requires k <= k' <= |ss|
    ensures Count(ss, k, x) <= Count(ss, k', x)
    decreases k' - k
  {
    if k < k' {
      CountMonotone(ss, k, k' - 1, x);
    }
  }

  /** Count is the multiplicity in the prefix. */
  lemma {:induction false} CountMultiset(ss: seq<nat>, k: nat, x: nat)
    requires k <= |ss|
    ensures Count(ss, k, x) == multiset(ss[..k])[x]
  {
    if k > 0 {
      CountMultiset(ss, k - 1, x);
      assert ss[..k] == ss[..k - 1] + [ss[k - 1]];
    }
  }

  /**
   * The length histogram: `diff[x]` counts the first K entries of ss equal
   * to x, and every one of them is an index of diff.
   */
  predicate Histogram(ss: seq<nat>, K: nat, diff: seq<nat>)
  {
    K <= |ss| && (forall k :: 0 <= k < K ==> ss[k] < |diff|)
    && forall x :: 0 <= x < |diff| ==> diff[x] == Count(ss, K, x)
  }

  /**
   * n fields of w bits: w * n, by repeated addition, so that positions in
   * the segment stay sums of field widths.
   */
  function Units(w: nat, n: nat): nat
  {
    if n == 0 then 0 else Units(w, n - 1) + w
  }

  lemma {:induction false} UnitsProduct(w: nat, n: nat)
    ensures Units(w, n) == w * n
  {
    if n > 0 {
      UnitsProduct(w, n - 1);
    }
  }

  lemma {:induction false} UnitsMonotone(w: nat, a: nat, b: nat)
    requires a <= b
    ensures Units(w, a) <= Units(w, b)
    decreases b - a
  {
    if a < b {
      UnitsMonotone(w, a, b - 1);
    }
  }

  lemma {:induction false} UnitsAdd(w: nat, a: nat, b: nat)
    ensures Units(w, a + b) == Units(w, a) + Units(w, b)
    decreases b
  {
    if b > 0 {
      UnitsAdd(w, a, b - 1);
    }
  }

  /** The units of the lengths below n + 1: those below n and one slot of n units per clause of length n. */
  lemma LitTotalStep(diff: seq<nat>, n: nat)
    requires n < |diff|
    ensures LitTotal(diff, n + 1) == LitTotal(diff, n) + Units(n, diff[n])
  {
    UnitsProduct(n, diff[n]);
  }

  /**
   * The first unit (literal field) of the slot of clause k, counted from
   * the end of the separator: the units of the shorter lengths, then one
   * slot per earlier clause of the same length.
   */
  function SlotOf(ss: seq<nat>, diff: seq<nat>, k: nat): nat
    requires k < |ss| && ss[k] <= |diff|
  {
    LitTotal(diff, ss[k]) + Units(ss[k], Count(ss, k, ss[k]))
  }

  /** The slot of clause k ends within the block of its length, so within the LitTotal units. */
  lemma SlotInside(ss: seq<nat>, K: nat, diff: seq<nat>, k: nat)
    requires Histogram(ss, K, diff) && k < K
    ensures SlotOf(ss, diff, k) + ss[k] <= LitTotal(diff, ss[k] + 1)
    ensures LitTotal(diff, ss[k] + 1) <= LitTotal(diff, |diff|)
  {
    var x := ss[k];
    var b := Count(ss, k, x);
    CountMonotone(ss, k + 1, K, x);
    UnitsMonotone(x, b + 1, diff[x]);
    LitTotalStep(diff, x);
    LitTotalMonotone(diff, x + 1, |diff|);
  }

  /** The slots of two different clauses do not overlap. */
  lemma SlotsDisjoint(ss: seq<nat>, K: nat, diff: seq<nat>, k: nat, k': nat)
    requires Histogram(ss, K, diff) && k < K && k' < K && k != k'
    ensures SlotOf(ss, diff, k) + ss[k] <= SlotOf(ss, diff, k')
            || SlotOf(ss, diff, k') + ss[k'] <= SlotOf(ss, diff, k)
  {
    if k' < k {
      SlotsDisjoint(ss, K, diff, k', k);
    } else if ss[k] == ss[k'] {
      var x := ss[k];
      CountMonotone(ss, k + 1, k', x);
      UnitsMonotone(x, Count(ss, k, x) + 1, Count(ss, k', x));
    } else if ss[k] < ss[k'] {
      SlotInside(ss, K, diff, k);
      LitTotalMonotone(diff, ss[k] + 1, ss[k']);
    } else {
      SlotInside(ss, K, diff, k');
      LitTotalMonotone(diff, ss[k'] + 1, ss[k]);
    }
  }

  /**
   * The first loop of `storeClauses`: `m_mapVar[component[i]] = i + 1`,
   * the 1-based position of each variable in the component.
   */
  method MapComponent(mapVar0: seq<nat>, component: seq<int>) returns (mapVar: seq<nat>)
    requires forall i :: 0 <= i < |component| ==> 0 <= component[i] < |mapVar0|
    requires Ascending(component)
    ensures |mapVar| == |mapVar0|
    ensures forall i :: 0 <= i < |component| ==> mapVar[component[i]] == i + 1
    ensures forall v :: 0 <= v < |mapVar| && v !in component ==> mapVar[v] == mapVar0[v]
  {
    mapVar := mapVar0;
    for i := 0 to |component|
      invariant |mapVar| == |mapVar0|
      invariant forall j :: 0 <= j < i ==> mapVar[component[j]] == j + 1
      invariant forall v :: 0 <= v < |mapVar| && v !in component[..i] ==> mapVar[v] == mapVar0[v]
    {
      mapVar := mapVar[component[i] := i + 1];
      assert component[..i + 1] == component[..i] + [component[i]];
    }
    assert component[..|component|] == component;
  }

  /** Token j of the list written at stream position q, `lit` bits each, is ps[j]. */
  predicate TokensHold(s: seq<byte>, q: nat, lit: nat, ps: seq<nat>)
  {
    forall j {:trigger ps[j]} :: 0 <= j < |ps| ==>
      q + Units(lit, j) + lit <= 8 * |s| && Read(s, q + Units(lit, j), lit) == ps[j]
  }

  /** Writing the next token keeps the tokens before it. */
  lemma TokensExtend(s: seq<byte>, s': seq<byte>, q: nat, lit: nat, ps: seq<nat>, v: nat)
    requires q + Units(lit, |ps|) + lit <= 8 * |s|
    requires TokensHold(s, q, lit, ps)
    requires SameOutside(s, s', q + Units(lit, |ps|), q + Units(lit, |ps|) + lit)
    requires Read(s', q + Units(lit, |ps|), lit) == v
    ensures TokensHold(s', q, lit, ps + [v])
  {
    var n := |ps|;
    forall j | 0 <= j < n + 1
      ensures q + Units(lit, j) + lit <= 8 * |s'| && Read(s', q + Units(lit, j), lit) == (ps + [v])[j]
    {
      if j < n {
        UnitsMonotone(lit, j + 1, n);
        ReadKept(s, s', q + Units(lit, j), lit, q + Units(lit, n), q + Units(lit, n) + lit);
      }
    }
  }

  /**
   * The state of the token loop before length x: the cursor (p, remaining)
   * is one token past each length below x that occurs, those tokens are in
   * place, the rest of the token area is clear and nothing else changed.
   */
  ghost predicate TokensAt(s: seq<byte>, orig: seq<byte>, q0: nat, lit: nat, diff: seq<nat>, total: nat,
                           x: nat, p: nat, remaining: nat)
  {
    x <= |diff| && 1 <= remaining <= 8 && q0 + total <= 8 * |s|
    && Units(lit, CountPresent(diff, x)) <= total
    && Pos(p, remaining) == q0 + Units(lit, CountPresent(diff, x))
    && TokensHold(s, q0, lit, Present(diff, x))
    && WindowClear(s, q0 + Units(lit, CountPresent(diff, x)), total - Units(lit, CountPresent(diff, x)))
    && SameOutside(orig, s, q0, q0 + Units(lit, CountPresent(diff, x)))
  }

  /**
   * The second loop of `storeClauses`: one `nbBitStoreLit`-bit token per
   * length that occurs, from the start of the clear formula segment.
   */
  method StoreTokens(data: array<byte>, base: nat, lit: nat, diff: seq<nat>)
    returns (p: nat, remaining: nat)
    requires forall x :: 0 <= x < |diff| && diff[x] != 0 ==> x < Pow2(lit)
    requires 8 * base + Units(lit, CountPresent(diff, |diff|)) <= 8 * data.Length
    requires WindowClear(data[..], 8 * base, Units(lit, CountPresent(diff, |diff|)))
    modifies data
    ensures 1 <= remaining <= 8 && Pos(p, remaining) == 8 * base + Units(lit, CountPresent(diff, |diff|))
    ensures SameOutside(old(data[..]), data[..], 8 * base, 8 * base + Units(lit, CountPresent(diff, |diff|)))
    ensures TokensHold(data[..], 8 * base, lit, Present(diff, |diff|))
  {
    ghost var q0 := 8 * base;
    ghost var total := Units(lit, CountPresent(diff, |diff|));
    p, remaining := base, 8;
    for x := 0 to |diff|
      invariant TokensAt(data[..], old(data[..]), q0, lit, diff, total, x, p, remaining)
    {
      p, remaining := TokenStep(data, p, remaining, x, lit, diff, old(data[..]), q0, total);
    }
  }

  /** One round of the token loop, for length x. */
  method TokenStep(data: array<byte>, p: nat, remaining: nat, x: nat, lit: nat, diff: seq<nat>,
                   ghost orig: seq<byte>, ghost q0: nat, ghost total: nat)
    returns (p': nat, remaining': nat)
    requires x < |diff| && (diff[x] != 0 ==> x < Pow2(lit))
    requires total == Units(lit, CountPresent(diff, |diff|)) && q0 + total <= 8 * data.Length
    requires TokensAt(data[..], orig, q0, lit, diff, total, x, p, remaining)
    modifies data
    ensures TokensAt(data[..], orig, q0, lit, diff, total, x + 1, p', remaining')
  {
    if diff[x] != 0 {
      ghost var before := data[..];
      TokenRoom(before, orig, q0, lit, diff, total, x, p, remaining);
      p', remaining' := AddElementInData(data, p, x, lit, remaining);
      TokenAdded(before, data[..], orig, q0, lit, diff, total, x, x + 1, p, remaining, p', remaining');
    } else {
      p', remaining' := p, remaining;
      TokenSkipped(data[..], orig, q0, lit, diff, total, x, x + 1, p, remaining);
    }
  }

  /** Before a present length x there is room for its token, and that room is clear. */
  lemma TokenRoom(s: seq<byte>, orig: seq<byte>, q0: nat, lit: nat, diff: seq<nat>, total: nat,
                  x: nat, p: nat, r: nat)
    requires x < |diff| && diff[x] != 0 && total == Units(lit, CountPresent(diff, |diff|))
    requires TokensAt(s, orig, q0, lit, diff, total, x, p, r)
    ensures Pos(p, r) + lit <= 8 * |s| && WindowClear(s, Pos(p, r), lit)
  {
    var x1 := x + 1;
    CountPresentMonotone(diff, x1, |diff|);
    UnitsMonotone(lit, CountPresent(diff, x1), CountPresent(diff, |diff|));
    assert CountPresent(diff, x1) == CountPresent(diff, x) + 1;
  }

  /** The token of a present length x is written: the state before length x1 = x + 1. */
  lemma TokenAdded(before: seq<byte>, s: seq<byte>, orig: seq<byte>, q0: nat, lit: nat, diff: seq<nat>, total: nat,
                   x: nat, x1: nat, p: nat, r: nat, p': nat, r': nat)
    requires x < |diff| && diff[x] != 0 && x1 == x + 1 && total == Units(lit, CountPresent(diff, |diff|))
    requires TokensAt(before, orig, q0, lit, diff, total, x, p, r)
    requires Pos(p, r) + lit <= 8 * |before|
    requires 1 <= r' <= 8 && Pos(p', r') == Pos(p, r) + lit
    requires SameOutside(before, s, Pos(p, r), Pos(p, r) + lit) && Read(s, Pos(p, r), lit) == x
    ensures TokensAt(s, orig, q0, lit, diff, total, x1, p', r')
  {
    var u := Units(lit, CountPresent(diff, x));
    CountPresentMonotone(diff, x1, |diff|);
    UnitsMonotone(lit, CountPresent(diff, x1), CountPresent(diff, |diff|));
    assert CountPresent(diff, x1) == CountPresent(diff, x) + 1;
    StillClear(before, s, q0 + u, total - u, lit);
    ExtendFrame(orig, before, s, q0, u, u + lit);
    TokensExtend(before, s, q0, lit, Present(diff, x), x);
    assert Present(diff, x1) == Present(diff, x) + [x];
  }

  /** An absent length x leaves everything as it was. */
  lemma TokenSkipped(s: seq<byte>, orig: seq<byte>, q0: nat, lit: nat, diff: seq<nat>, total: nat,
                     x: nat, x1: nat, p: nat, r: nat)
    requires x < |diff| && diff[x] == 0 && x1 == x + 1
    requires TokensAt(s, orig, q0, lit, diff, total, x, p, r)
    ensures TokensAt(s, orig, q0, lit, diff, total, x1, p, r)
  {
    assert CountPresent(diff, x1) == CountPresent(diff, x);
    assert Present(diff, x1) == Present(diff, x);
  }

  /**
   * The third loop of `storeClauses`: the block of each length that occurs
   * starts at off0 plus the units of the shorter lengths.
   */
  method BlockStarts(memPos: array<nat>, off0: nat, lit: nat, diff: seq<nat>) returns (off: nat)
    requires memPos.Length == |diff|
    modifies memPos
    ensures off == off0 + Units(lit, LitTotal(diff, |diff|))
    ensures forall x {:trigger memPos[x]} :: 0 <= x < |diff| ==>
              memPos[x] == if diff[x] != 0 then off0 + Units(lit, LitTotal(diff, x)) else old(memPos[x])
  {
    off := off0;
    for x := 0 to |diff|
      invariant off == off0 + Units(lit, LitTotal(diff, x))
      invariant forall y {:trigger memPos[y]} :: 0 <= y < |diff| ==>
                  memPos[y] == if y < x && diff[y] != 0 then off0 + Units(lit, LitTotal(diff, y)) else old(memPos[y])
    {
      BlockStep(lit, diff, x);
      if diff[x] != 0 {
        memPos[x] := off;
        off := off + diff[x] * x * lit;
      }
    }
  }

  /** `diff[x] * x * lit` bits are the units of the block of the length x. */
  lemma BlockStep(lit: nat, diff: seq<nat>, x: nat)
    requires x < |diff|
    ensures Units(lit, LitTotal(diff, x)) + diff[x] * x * lit == Units(lit, LitTotal(diff, x + 1))
  {
    UnitsAdd(lit, LitTotal(diff, x), x * diff[x]);
    UnitsProduct(lit, x * diff[x]);
    assert lit * (x * diff[x]) == diff[x] * x * lit;
  }

  /** Moving a cursor by one slot of length x moves it to the start of the next slot. */
  lemma SlotStep(lit: nat, lt: nat, x: nat, b: nat)
    ensures Units(lit, lt + Units(x, b)) + Units(lit, x) == Units(lit, lt + Units(x, b + 1))
  {
    UnitsAdd(lit, lt + Units(x, b), x);
  }

  /** The cursor of each length that occurs is past the slots of its clauses among ss0[..k]. */
  ghost predicate Cursors(mp: seq<nat>, off0: nat, lit: nat, diff: seq<nat>, ss0: seq<nat>, k: nat)
    requires k <= |ss0|
  {
    |mp| == |diff| && forall x {:trigger mp[x]} :: 0 <= x < |diff| && diff[x] != 0 ==>
      mp[x] == off0 + Units(lit, LitTotal(diff, x) + Units(x, Count(ss0, k, x)))
  }

  /** The offset of every clause below k of non-zero length is the start of its slot. */
  ghost predicate SlotsSet(os: seq<nat>, off0: nat, lit: nat, diff: seq<nat>, ss0: seq<nat>, K: nat, k: nat)
    requires Histogram(ss0, K, diff) && k <= K && k <= |os|
  {
    forall j {:trigger os[j]} :: 0 <= j < k && ss0[j] != 0 ==> os[j] == off0 + Units(lit, SlotOf(ss0, diff, j))
  }

  /** The cursor of the length of clause k moves by one slot. */
  lemma CursorStep(mp: seq<nat>, off0: nat, lit: nat, diff: seq<nat>, ss0: seq<nat>, K: nat, k: nat)
    requires Histogram(ss0, K, diff) && k < K && ss0[k] != 0
    requires Cursors(mp, off0, lit, diff, ss0, k)
    ensures diff[ss0[k]] != 0
    ensures Cursors(mp[ss0[k] := mp[ss0[k]] + Units(lit, ss0[k])], off0, lit, diff, ss0, k + 1)
  {
    var x := ss0[k];
    CountMonotone(ss0, k + 1, K, x);
    SlotStep(lit, LitTotal(diff, x), x, Count(ss0, k, x));
  }

  /** Clause k of length x > 0 takes the cursor of x as its offset. */
  lemma SlotTaken(mp: seq<nat>, os: seq<nat>, off0: nat, lit: nat, diff: seq<nat>, ss0: seq<nat>, K: nat, k: nat)
    requires Histogram(ss0, K, diff) && k < K && k < |os| && ss0[k] != 0 && diff[ss0[k]] != 0
    requires Cursors(mp, off0, lit, diff, ss0, k) && SlotsSet(os, off0, lit, diff, ss0, K, k)
    ensures SlotsSet(os[k := mp[ss0[k]]], off0, lit, diff, ss0, K, k + 1)
  {
  }

  /** A clause of length 0 takes no slot. */
  lemma CursorSkip(mp: seq<nat>, os: seq<nat>, off0: nat, lit: nat, diff: seq<nat>, ss0: seq<nat>, K: nat, k: nat)
    requires Histogram(ss0, K, diff) && k < K && k < |os| && ss0[k] == 0
    requires Cursors(mp, off0, lit, diff, ss0, k) && SlotsSet(os, off0, lit, diff, ss0, K, k)
    ensures Cursors(mp, off0, lit, diff, ss0, k + 1)
    ensures SlotsSet(os, off0, lit, diff, ss0, K, k + 1)
  {
    assert Units(0, Count(ss0, k + 1, 0)) == Units(0, Count(ss0, k, 0));
  }

  /**
   * The fourth loop of `storeClauses`: clause k of length x > 0 gets the
   * next slot of the block of x, and its length entry is reset to 0.
   */
  method ClauseOffsets(memPos: array<nat>, offs: array<nat>, ss0: seq<nat>, K: nat,
                       lit: nat, diff: seq<nat>, off0: nat)
    returns (ss: seq<nat>)
    requires memPos != offs && memPos.Length == |diff| && K <= offs.Length
    requires Histogram(ss0, K, diff)
    requires forall x {:trigger memPos[x]} :: 0 <= x < |diff| && diff[x] != 0 ==> memPos[x] == off0 + Units(lit, LitTotal(diff, x))
    modifies memPos, offs
    ensures forall k {:trigger offs[k]} :: 0 <= k < K && ss0[k] != 0 ==> offs[k] == off0 + Units(lit, SlotOf(ss0, diff, k))
    ensures |ss| == |ss0| && forall k :: 0 <= k < |ss| ==> ss[k] == if k < K then 0 else ss0[k]
  {
    ss := ss0;
    assert Cursors(memPos[..], off0, lit, diff, ss0, 0);
    for k := 0 to K
      invariant |ss| == |ss0| && forall j :: 0 <= j < |ss| ==> ss[j] == if j < k then 0 else ss0[j]
      invariant Cursors(memPos[..], off0, lit, diff, ss0, k)
      invariant SlotsSet(offs[..], off0, lit, diff, ss0, K, k)
    {
      ghost var mp: seq<nat>, os: seq<nat> := memPos[..], offs[..];
      var x := ss[k];
      if x != 0 {
        CursorStep(mp, off0, lit, diff, ss0, K, k);
        SlotTaken(mp, os, off0, lit, diff, ss0, K, k);
        UnitsProduct(lit, x);
        offs[k] := memPos[x];
        memPos[x] := memPos[x] + x * lit;
        ss := ss[k := 0];
        assert memPos[..] == mp[x := mp[x] + Units(lit, x)];
        assert offs[..] == os[k := mp[x]];
      } else {
        CursorSkip(mp, os, off0, lit, diff, ss0, K, k);
      }
    }
    assert SlotsSet(offs[..], off0, lit, diff, ss0, K, K);
  }
}
