/**
 * The last loop of `storeClauses`: the walk over the literal records of
 * `distrib`. Each id of a record names a group; a surviving group's index
 * selects the clause whose slot receives the record's literal, renamed to
 * its local id, at the clause's offset, which then moves one field on. The
 * redundant groups carry the sentinel index, which is skipped.
 */
module ClauseWalk {
  import opened Arith
  import opened Bits
  import opened BitWriter
  import opened Partition
  import opened SizePlan
  import opened ClauseSegment

  /** One id of a literal record, with the record's literal. */
  datatype Entry = Entry(lit: nat, id: nat)

  /** Every record's count and ids lie inside D. */
  predicate Framed(D: seq<nat>, R: seq<Rec>)
  {
    forall r :: 0 <= r < |R| ==> R[r].pos + 1 < |D| && RecEnd(D, R[r]) <= |D|
  }

  /** The ids of one record, each with the record's literal. */
  function RecEntries(D: seq<nat>, rc: Rec): (es: seq<Entry>)
    requires rc.pos + 1 < |D| && RecEnd(D, rc) <= |D|
    ensures |es| == D[rc.pos + 1]
    ensures forall j :: 0 <= j < |es| ==> es[j] == Entry(D[rc.pos], D[rc.pos + 2 + j])
  {
    Tagged(D[rc.pos], D, rc.pos + 2, D[rc.pos + 1])
  }

  /** The ids D[from], ..., D[from + cnt - 1], each with literal lit. */
  function Tagged(lit: nat, D: seq<nat>, from: nat, cnt: nat): (es: seq<Entry>)
    requires from + cnt <= |D|
    ensures |es| == cnt
    ensures forall j :: 0 <= j < cnt ==> es[j] == Entry(lit, D[from + j])
  {
    if cnt == 0 then [] else Tagged(lit, D, from, cnt - 1) + [Entry(lit, D[from + cnt - 1])]
  }

  /** The entries of the records, in the order the walk meets them. */
  function Entries(D: seq<nat>, R: seq<Rec>): seq<Entry>
    requires Framed(D, R)
  {
    if |R| == 0 then [] else Entries(D, R[..|R| - 1]) + RecEntries(D, R[|R| - 1])
  }

  /** The entries of the first m records are a prefix of those of all records. */
  lemma {:induction false} EntriesPrefix(D: seq<nat>, R: seq<Rec>, m: nat)
    requires Framed(D, R) && m <= |R|
    ensures Framed(D, R[..m])
    ensures |Entries(D, R[..m])| <= |Entries(D, R)|
    ensures Entries(D, R)[..|Entries(D, R[..m])|] == Entries(D, R[..m])
    decreases |R| - m
  {
    if m == |R| {
      assert R[..m] == R;
    } else {
      var R' := R[..|R| - 1];
      EntriesPrefix(D, R', m);
      assert R'[..m] == R[..m];
      assert R[..|R|] == R;
    }
  }

  /** The entries of the first r + 1 records: those of the first r, then those of record r. */
  lemma EntriesSnoc(D: seq<nat>, R: seq<Rec>, r: nat)
    requires Framed(D, R) && r < |R|
    ensures Framed(D, R[..r]) && Framed(D, R[..r + 1])
    ensures Entries(D, R[..r + 1]) == Entries(D, R[..r]) + RecEntries(D, R[r])
  {
    assert R[..r + 1][..r] == R[..r];
    assert R[..r + 1][r] == R[r];
  }

  /** Id j of record r is the entry after the entries of the records before r. */
  lemma EntryAt(D: seq<nat>, R: seq<Rec>, r: nat, j: nat)
    requires Framed(D, R) && r < |R| && j < D[R[r].pos + 1]
    ensures Framed(D, R[..r]) && Framed(D, R[..r + 1])
    ensures |Entries(D, R[..r + 1])| == |Entries(D, R[..r])| + D[R[r].pos + 1]
    ensures |Entries(D, R[..r])| + j < |Entries(D, R)|
    ensures Entries(D, R)[|Entries(D, R[..r])| + j] == Entry(D[R[r].pos], D[R[r].pos + 2 + j])
  {
    EntriesSnoc(D, R, r);
    EntryIndex(D, R, r, j);
  }

  /** The index of id j of record r in the entries of R, by induction on R. */
  lemma {:induction false} EntryIndex(D: seq<nat>, R: seq<Rec>, r: nat, j: nat)
    requires Framed(D, R) && r < |R| && j < D[R[r].pos + 1]
    ensures Framed(D, R[..r])
    ensures |Entries(D, R[..r])| + j < |Entries(D, R)|
    ensures Entries(D, R)[|Entries(D, R[..r])| + j] == Entry(D[R[r].pos], D[R[r].pos + 2 + j])
    decreases |R|
  {
    var R' := R[..|R| - 1];
    assert Framed(D, R');
    assert Entries(D, R) == Entries(D, R') + RecEntries(D, R[|R| - 1]);
    if r < |R| - 1 {
      EntryIndex(D, R', r, j);
      assert R'[..r] == R[..r] && R'[r] == R[r];
    } else {
      assert R' == R[..r];
    }
  }


  /**
   * Where the slots lie: stream position `origin` (the byte the tokens
   * ended in) plus the offset `off0` of the first slot, `lit` bits per
   * field, the clause lengths ss (before the walk resets them), the K
   * surviving clauses, the first field of each clause's slot and the
   * fields of all slots, the group indices si and the local variable ids
   * mapVar.
   */
  datatype Layout = Layout(origin: nat, off0: nat, lit: nat, ss: seq<nat>, K: nat, starts: seq<nat>,
                           total: nat, si: seq<nat>, mapVar: seq<nat>)

  /** The slots lie inside the total and do not overlap. */
  predicate LayoutOk(g: Layout)
  {
    g.K <= |g.ss| && g.K <= |g.starts|
    && (forall k :: 0 <= k < g.K ==> g.starts[k] + g.ss[k] <= g.total)
    && forall k, k' :: 0 <= k < g.K && 0 <= k' < g.K && k != k' ==>
         g.starts[k] + g.ss[k] <= g.starts[k'] || g.starts[k'] + g.ss[k'] <= g.starts[k]
  }

  /** Stream position of field j of the slot of clause k. */
  function FieldPos(g: Layout, k: nat, j: nat): nat
    requires LayoutOk(g) && k < g.K
  {
    g.origin + g.off0 + Units(g.lit, g.starts[k] + j)
  }

  /** The bits all slots take. */
  function Span(g: Layout): nat
  {
    Units(g.lit, g.total)
  }

  /** Field j of the slot of clause k, decoded. */
  function SlotField(s: seq<byte>, g: Layout, k: nat, j: nat): nat
    requires LayoutOk(g) && k < g.K
  {
    if FieldPos(g, k, j) + g.lit <= 8 * |s| then Read(s, FieldPos(g, k, j), g.lit) else 0
  }

  /** The local literal of l: `(mapVar[l >> 1] << 1) | (l & 1)`. */
  function LocalLit(mapVar: seq<nat>, l: nat): nat
    requires l / 2 < |mapVar|
  {
    2 * mapVar[l / 2] + l % 2
  }

  /** Every entry's group has an index and every entry's variable a local id. */
  predicate EntriesOk(g: Layout, E: seq<Entry>)
  {
    forall e :: 0 <= e < |E| ==> E[e].id < |g.si| && E[e].lit / 2 < |g.mapVar|
  }

  /** The local literals of the first n entries whose group has index k, in order. */
  function SlotLits(g: Layout, E: seq<Entry>, n: nat, k: nat): seq<nat>
    requires EntriesOk(g, E) && n <= |E|
  {
    if n == 0 then []
    else SlotLits(g, E, n - 1, k) + if g.si[E[n - 1].id] == k then [LocalLit(g.mapVar, E[n - 1].lit)] else []
  }

  lemma {:induction false} SlotLitsMonotone(g: Layout, E: seq<Entry>, n: nat, m: nat, k: nat)
    requires EntriesOk(g, E) && n <= m <= |E|
    ensures |SlotLits(g, E, n, k)| <= |SlotLits(g, E, m, k)|
    decreases m - n
  {
    if n < m {
      SlotLitsMonotone(g, E, n, m - 1, k);
    }
  }

  /** The number of the first n entries whose group has index k. */
  function CountFor(si: seq<nat>, E: seq<Entry>, n: nat, k: nat): nat
    requires n <= |E|
  {
    if n == 0 then 0
    else CountFor(si, E, n - 1, k) + (if E[n - 1].id < |si| && si[E[n - 1].id] == k then 1 else 0)
  }

  /** The literals collected for clause k are as many as the entries of its group. */
  lemma {:induction false} SlotLitsCount(g: Layout, E: seq<Entry>, n: nat, k: nat)
    requires EntriesOk(g, E) && n <= |E|
    ensures |SlotLits(g, E, n, k)| == CountFor(g.si, E, n, k)
  {
    if n > 0 {
      SlotLitsCount(g, E, n - 1, k);
    }
  }

  /** The entries of each surviving clause fill its slot exactly. */
  predicate Full(g: Layout, E: seq<Entry>)
    requires LayoutOk(g) && EntriesOk(g, E)
  {
    forall k :: 0 <= k < g.K ==> |SlotLits(g, E, |E|, k)| == g.ss[k]
  }

  /** Every local literal fits in a field. */
  predicate LitsFit(g: Layout, E: seq<Entry>)
    requires EntriesOk(g, E)
  {
    forall e :: 0 <= e < |E| ==> LocalLit(g.mapVar, E[e].lit) < Pow2(g.lit)
  }

  /** The offset of each clause is the field after the ones the first n entries wrote. */
  predicate OffsetsAt(g: Layout, offs: seq<nat>, E: seq<Entry>, n: nat)
    requires LayoutOk(g) && EntriesOk(g, E) && n <= |E|
  {
    g.K <= |offs| && forall k {:trigger offs[k]} :: 0 <= k < g.K && g.ss[k] != 0 ==>
      offs[k] == g.off0 + Units(g.lit, g.starts[k] + |SlotLits(g, E, n, k)|)
  }

  /** The fields of each slot not yet written hold no set bit. */
  predicate RestClear(s: seq<byte>, g: Layout, E: seq<Entry>, n: nat)
    requires LayoutOk(g) && EntriesOk(g, E) && n <= |E|
  {
    forall k, t :: 0 <= k < g.K && FieldPos(g, k, |SlotLits(g, E, n, k)|) <= t < FieldPos(g, k, g.ss[k]) && t < 8 * |s|
      ==> !StreamBit(s, t)
  }

  /** The fields written so far decode to the local literals of their entries. */
  predicate FieldsHold(s: seq<byte>, g: Layout, E: seq<Entry>, n: nat)
    requires LayoutOk(g) && EntriesOk(g, E) && n <= |E|
  {
    forall k, j {:trigger SlotField(s, g, k, j)} :: 0 <= k < g.K && 0 <= j < |SlotLits(g, E, n, k)| ==>
      SlotField(s, g, k, j) == SlotLits(g, E, n, k)[j]
  }

  /** What the walk relies on and does not change: the layout and the entries, for a buffer of |s0| bytes. */
  predicate WalkReady(g: Layout, s0: seq<byte>, E: seq<Entry>)
  {
    LayoutOk(g) && EntriesOk(g, E) && Full(g, E) && LitsFit(g, E)
    && g.origin + g.off0 + Span(g) <= 8 * |s0|
  }

  /** The state of the walk after n entries, from the buffer s0 it started on. */
  predicate WalkAt(g: Layout, s0: seq<byte>, s: seq<byte>, offs: seq<nat>, E: seq<Entry>, n: nat)
    requires WalkReady(g, s0, E)
  {
    n <= |E| && SameOutside(s0, s, g.origin + g.off0, g.origin + g.off0 + Span(g))
    && OffsetsAt(g, offs, E, n) && RestClear(s, g, E, n) && FieldsHold(s, g, E, n)
  }

  lemma FieldMonotone(g: Layout, k: nat, a: nat, b: nat)
    requires LayoutOk(g) && k < g.K && a <= b
    ensures FieldPos(g, k, a) <= FieldPos(g, k, b)
  {
    UnitsMonotone(g.lit, g.starts[k] + a, g.starts[k] + b);
  }

  /** The slot of every clause lies inside the span of the slots. */
  lemma FieldInSpan(g: Layout, k: nat)
    requires LayoutOk(g) && k < g.K
    ensures g.origin + g.off0 + Span(g) >= FieldPos(g, k, g.ss[k])
  {
    UnitsMonotone(g.lit, g.starts[k] + g.ss[k], g.total);
  }

  /** The slots of two different clauses do not overlap in the stream. */
  lemma FieldsApart(g: Layout, k: nat, k': nat)
    requires LayoutOk(g) && k < g.K && k' < g.K && k != k'
    ensures FieldPos(g, k, g.ss[k]) <= FieldPos(g, k', 0) || FieldPos(g, k', g.ss[k']) <= FieldPos(g, k, 0)
  {
    if g.starts[k] + g.ss[k] <= g.starts[k'] {
      UnitsMonotone(g.lit, g.starts[k] + g.ss[k], g.starts[k']);
    } else {
      UnitsMonotone(g.lit, g.starts[k'] + g.ss[k'], g.starts[k]);
    }
  }

  /** Each clause has at most as many entries among the first n as its length. */
  lemma Within(g: Layout, E: seq<Entry>, n: nat, k: nat)
    requires LayoutOk(g) && EntriesOk(g, E) && n <= |E| && Full(g, E) && k < g.K
    ensures |SlotLits(g, E, n, k)| <= g.ss[k]
  {
    SlotLitsMonotone(g, E, n, |E|, k);
  }

  /** An entry whose group has the sentinel index changes no slot. */
  lemma SkipStep(g: Layout, s0: seq<byte>, s: seq<byte>, offs: seq<nat>, E: seq<Entry>, n: nat)
    ensures WalkReady(g, s0, E) && WalkAt(g, s0, s, offs, E, n) && n < |E| && g.si[E[n].id] >= g.K
            ==> WalkAt(g, s0, s, offs, E, n + 1)
  {
    if WalkReady(g, s0, E) && WalkAt(g, s0, s, offs, E, n) && n < |E| && g.si[E[n].id] >= g.K {
      assert forall k :: 0 <= k < g.K ==> SlotLits(g, E, n + 1, k) == SlotLits(g, E, n, k);
    }
  }

  /**
   * Where entry n is written: its clause k has a field left, at the
   * position the offset of k gives.
   */
  lemma WriteAt(g: Layout, offs: seq<nat>, E: seq<Entry>, n: nat, n1: nat, k: nat, h: nat)
    requires LayoutOk(g) && EntriesOk(g, E) && n < |E| && n1 == n + 1 && Full(g, E)
    requires k == g.si[E[n].id] && k < g.K && h == |SlotLits(g, E, n, k)|
    requires OffsetsAt(g, offs, E, n)
    ensures h < g.ss[k] && FieldPos(g, k, h) == g.origin + offs[k]
    ensures FieldPos(g, k, h) + g.lit <= FieldPos(g, k, g.ss[k]) <= g.origin + g.off0 + Span(g)
  {
    assert SlotLits(g, E, n1, k) == SlotLits(g, E, n, k) + [LocalLit(g.mapVar, E[n].lit)];
    Within(g, E, n1, k);
    var h1 := h + 1;
    FieldMonotone(g, k, h1, g.ss[k]);
    FieldInSpan(g, k);
    assert FieldPos(g, k, h1) == FieldPos(g, k, h) + g.lit;
  }

  /** The field entry n is written to is clear. */
  lemma WriteIntoClear(g: Layout, s: seq<byte>, E: seq<Entry>, n: nat)
    requires LayoutOk(g) && EntriesOk(g, E) && n < |E| && g.si[E[n].id] < g.K
    requires RestClear(s, g, E, n)
    requires var k := g.si[E[n].id];
             var h := |SlotLits(g, E, n, k)|;
             FieldPos(g, k, h) + g.lit <= FieldPos(g, k, g.ss[k]) && FieldPos(g, k, h) + g.lit <= 8 * |s|
    ensures var k := g.si[E[n].id];
            WindowClear(s, FieldPos(g, k, |SlotLits(g, E, n, k)|), g.lit)
  {
  }

  /** The offset of the clause entry n is written to moves one field on. */
  lemma WriteOffsets(g: Layout, offs: seq<nat>, E: seq<Entry>, n: nat)
    requires LayoutOk(g) && EntriesOk(g, E) && n < |E| && g.si[E[n].id] < g.K
    requires g.ss[g.si[E[n].id]] != 0 && OffsetsAt(g, offs, E, n)
    ensures OffsetsAt(g, offs[g.si[E[n].id] := offs[g.si[E[n].id]] + g.lit], E, n + 1)
  {
    var k := g.si[E[n].id];
    assert SlotLits(g, E, n + 1, k) == SlotLits(g, E, n, k) + [LocalLit(g.mapVar, E[n].lit)];
    assert forall k' :: 0 <= k' < g.K && k' != k ==> SlotLits(g, E, n + 1, k') == SlotLits(g, E, n, k');
  }

  /** Entry n adds its local literal to the list of its clause and to no other. */
  lemma SlotLitsNext(g: Layout, E: seq<Entry>, n: nat, k': nat)
    requires EntriesOk(g, E) && n < |E|
    ensures SlotLits(g, E, n + 1, k') ==
              if g.si[E[n].id] == k' then SlotLits(g, E, n, k') + [LocalLit(g.mapVar, E[n].lit)]
              else SlotLits(g, E, n, k')
  {
  }

  /** The next field of a slot starts one field width on. */
  lemma FieldNext(g: Layout, k: nat, a: nat)
    requires LayoutOk(g) && k < g.K
    ensures FieldPos(g, k, a + 1) == FieldPos(g, k, a) + g.lit
  {
  }

  /**
   * A bit of the rest of a slot after entry n was not written by entry n
   * and was in that rest before it.
   */
  lemma ClearGeometry(g: Layout, E: seq<Entry>, n: nat, k': nat, t: nat)
    requires LayoutOk(g) && EntriesOk(g, E) && n < |E| && Full(g, E) && g.si[E[n].id] < g.K && k' < g.K
    requires FieldPos(g, k', |SlotLits(g, E, n + 1, k')|) <= t < FieldPos(g, k', g.ss[k'])
    ensures var k := g.si[E[n].id];
            var w := FieldPos(g, k, |SlotLits(g, E, n, k)|);
            FieldPos(g, k', |SlotLits(g, E, n, k')|) <= t && !(w <= t < w + g.lit)
  {
    var k := g.si[E[n].id];
    var h := |SlotLits(g, E, n, k)|;
    SlotLitsNext(g, E, n, k');
    SlotLitsNext(g, E, n, k);
    FieldNext(g, k, h);
    if k' != k {
      Within(g, E, n + 1, k);
      FieldMonotone(g, k, h + 1, g.ss[k]);
      FieldMonotone(g, k, 0, h);
      FieldMonotone(g, k', 0, |SlotLits(g, E, n, k')|);
      FieldsApart(g, k, k');
    }
  }

  /** Writing the field of entry n leaves the other unwritten fields clear. */
  lemma WriteClear(g: Layout, s: seq<byte>, s': seq<byte>, E: seq<Entry>, n: nat)
    requires LayoutOk(g) && EntriesOk(g, E) && n < |E| && Full(g, E) && g.si[E[n].id] < g.K
    requires RestClear(s, g, E, n)
    requires var k := g.si[E[n].id];
             var w := FieldPos(g, k, |SlotLits(g, E, n, k)|);
             SameOutside(s, s', w, w + g.lit)
    ensures RestClear(s', g, E, n + 1)
  {
    forall k', t | 0 <= k' < g.K && FieldPos(g, k', |SlotLits(g, E, n + 1, k')|) <= t < FieldPos(g, k', g.ss[k'])
                   && t < 8 * |s'|
      ensures !StreamBit(s', t)
    {
      ClearGeometry(g, E, n, k', t);
    }
  }

  /**
   * A field written before entry n keeps its literal and lies apart from
   * the field entry n writes.
   */
  lemma FieldGeometry(g: Layout, E: seq<Entry>, n: nat, n1: nat, k: nat, h: nat, k': nat, j: nat)
    requires LayoutOk(g) && EntriesOk(g, E) && n < |E| && n1 == n + 1 && Full(g, E)
    requires k == g.si[E[n].id] && k < g.K && h == |SlotLits(g, E, n, k)| && k' < g.K
    requires j < |SlotLits(g, E, n1, k')| && !(k' == k && j == h)
    ensures j < |SlotLits(g, E, n, k')| && SlotLits(g, E, n1, k')[j] == SlotLits(g, E, n, k')[j]
    ensures FieldPos(g, k', j) + g.lit <= FieldPos(g, k, h) || FieldPos(g, k, h) + g.lit <= FieldPos(g, k', j)
  {
    SlotLitsNext(g, E, n, k');
    SlotLitsNext(g, E, n, k);
    if k' == k {
      var j1 := j + 1;
      FieldNext(g, k, j);
      FieldMonotone(g, k, j1, h);
    } else {
      Within(g, E, n1, k);
      Within(g, E, n, k');
      FieldsDisjoint(g, k, h, k', j);
    }
  }

  /** Fields of two different clauses do not overlap. */
  lemma FieldsDisjoint(g: Layout, k: nat, h: nat, k': nat, j: nat)
    requires LayoutOk(g) && k < g.K && k' < g.K && k != k' && h < g.ss[k] && j < g.ss[k']
    ensures FieldPos(g, k', j) + g.lit <= FieldPos(g, k, h) || FieldPos(g, k, h) + g.lit <= FieldPos(g, k', j)
  {
    var j1, h1 := j + 1, h + 1;
    FieldNext(g, k', j);
    FieldNext(g, k, h);
    FieldMonotone(g, k', j1, g.ss[k']);
    FieldMonotone(g, k', 0, j);
    FieldMonotone(g, k, h1, g.ss[k]);
    FieldMonotone(g, k, 0, h);
    FieldsApart(g, k, k');
  }

  /** Writing the field of entry n keeps the fields written before and adds its own. */
  lemma WriteFields(g: Layout, s: seq<byte>, s': seq<byte>, E: seq<Entry>, n: nat)
    requires LayoutOk(g) && EntriesOk(g, E) && n < |E| && Full(g, E) && g.si[E[n].id] < g.K
    requires FieldsHold(s, g, E, n)
    requires var k := g.si[E[n].id];
             var w := FieldPos(g, k, |SlotLits(g, E, n, k)|);
             w + g.lit <= 8 * |s| && SameOutside(s, s', w, w + g.lit)
             && Read(s', w, g.lit) == LocalLit(g.mapVar, E[n].lit)
    ensures FieldsHold(s', g, E, n + 1)
  {
    var k := g.si[E[n].id];
    var h := |SlotLits(g, E, n, k)|;
    var w := FieldPos(g, k, h);
    forall k', j | 0 <= k' < g.K && 0 <= j < |SlotLits(g, E, n + 1, k')|
      ensures SlotField(s', g, k', j) == SlotLits(g, E, n + 1, k')[j]
    {
      if k' == k && j == h {
        SlotLitsNext(g, E, n, k);
      } else {
        FieldGeometry(g, E, n, n + 1, k, h, k', j);
        assert SlotField(s, g, k', j) == SlotLits(g, E, n, k')[j];
        if FieldPos(g, k', j) + g.lit <= 8 * |s| {
          ReadKept(s, s', FieldPos(g, k', j), g.lit, w, w + g.lit);
        }
      }
    }
  }

  /** The write of entry n lies inside the span of the slots. */
  lemma WriteFrame(g: Layout, s0: seq<byte>, s: seq<byte>, s': seq<byte>, E: seq<Entry>, n: nat)
    requires LayoutOk(g) && EntriesOk(g, E) && n < |E| && Full(g, E) && g.si[E[n].id] < g.K
    requires SameOutside(s0, s, g.origin + g.off0, g.origin + g.off0 + Span(g))
    requires var k := g.si[E[n].id];
             var w := FieldPos(g, k, |SlotLits(g, E, n, k)|);
             SameOutside(s, s', w, w + g.lit)
    ensures SameOutside(s0, s', g.origin + g.off0, g.origin + g.off0 + Span(g))
  {
    var k := g.si[E[n].id];
    var h := |SlotLits(g, E, n, k)|;
    WriteSpan(g, E, n);
    FrameWithin(s0, s, s', g.origin + g.off0, g.origin + g.off0 + Span(g), FieldPos(g, k, h), FieldPos(g, k, h) + g.lit);
  }

  /** The field entry n writes lies inside the span of the slots. */
  lemma WriteSpan(g: Layout, E: seq<Entry>, n: nat)
    requires LayoutOk(g) && EntriesOk(g, E) && n < |E| && Full(g, E) && g.si[E[n].id] < g.K
    ensures var k := g.si[E[n].id];
            var w := FieldPos(g, k, |SlotLits(g, E, n, k)|);
            g.origin + g.off0 <= w && w + g.lit <= g.origin + g.off0 + Span(g)
  {
    var k := g.si[E[n].id];
    var h := |SlotLits(g, E, n, k)|;
    SlotLitsNext(g, E, n, k);
    Within(g, E, n + 1, k);
    FieldMonotone(g, k, h + 1, g.ss[k]);
    FieldInSpan(g, k);
    FieldNext(g, k, h);
  }

  /** Before entry n of a surviving clause is written: where it goes, and that it fits. */
  lemma WriteReady(g: Layout, s0: seq<byte>, s: seq<byte>, offs: seq<nat>, E: seq<Entry>, n: nat,
                    k: nat, h: nat, w: nat)
    requires WalkReady(g, s0, E) && WalkAt(g, s0, s, offs, E, n) && n < |E|
    requires k == g.si[E[n].id] && k < g.K && h == |SlotLits(g, E, n, k)| && w == FieldPos(g, k, h)
    ensures w == g.origin + offs[k] && w + g.lit <= 8 * |s| && WindowClear(s, w, g.lit)
    ensures LocalLit(g.mapVar, E[n].lit) < Pow2(g.lit)
  {
    WriteAt(g, offs, E, n, n + 1, k, h);
    WriteIntoClear(g, s, E, n);
  }

  /**
   * Writing the literal of entry n into its field w, in clause k, and moving
   * the offset of k one field on, gives the state after n1 = n + 1 entries.
   */
  lemma WriteStep(g: Layout, s0: seq<byte>, s: seq<byte>, s': seq<byte>, offs: seq<nat>, offs': seq<nat>,
                  E: seq<Entry>, n: nat, n1: nat, k: nat, w: nat)
    requires WalkReady(g, s0, E) && WalkAt(g, s0, s, offs, E, n) && n < |E| && n1 == n + 1
    requires k == g.si[E[n].id] && k < g.K && w == FieldPos(g, k, |SlotLits(g, E, n, k)|)
    requires w + g.lit <= 8 * |s| && SameOutside(s, s', w, w + g.lit)
    requires Read(s', w, g.lit) == LocalLit(g.mapVar, E[n].lit) && offs' == offs[k := offs[k] + g.lit]
    ensures WalkAt(g, s0, s', offs', E, n1)
  {
    WriteAt(g, offs, E, n, n1, k, |SlotLits(g, E, n, k)|);
    WriteOffsets(g, offs, E, n);
    WriteBits(g, s0, s, s', E, n, n1, k, w);
  }

  /** The bits of WriteStep: the frame of the walk, the clear rest and the fields written. */
  lemma WriteBits(g: Layout, s0: seq<byte>, s: seq<byte>, s': seq<byte>, E: seq<Entry>, n: nat, n1: nat,
                  k: nat, w: nat)
    requires LayoutOk(g) && EntriesOk(g, E) && n < |E| && Full(g, E) && n1 == n + 1
    requires k == g.si[E[n].id] && k < g.K && w == FieldPos(g, k, |SlotLits(g, E, n, k)|)
    requires SameOutside(s0, s, g.origin + g.off0, g.origin + g.off0 + Span(g))
    requires RestClear(s, g, E, n) && FieldsHold(s, g, E, n)
    requires w + g.lit <= 8 * |s| && SameOutside(s, s', w, w + g.lit)
    requires Read(s', w, g.lit) == LocalLit(g.mapVar, E[n].lit)
    ensures SameOutside(s0, s', g.origin + g.off0, g.origin + g.off0 + Span(g))
    ensures RestClear(s', g, E, n1) && FieldsHold(s', g, E, n1)
  {
    WriteClear(g, s, s', E, n);
    WriteFields(g, s, s', E, n);
    WriteFrame(g, s0, s, s', E, n);
  }

  /** Byte `off >> 3` from p with `8 - (off & 7)` bits left is stream position 8 p + off. */
  lemma ByteCursor(p: nat, off: nat)
    ensures 1 <= 8 - off % 8 <= 8 && Pos(p + off / 8, 8 - off % 8) == 8 * p + off
  {
  }

  /**
   * One id of the inner loop of the walk: the index of its group selects
   * the clause; the sentinel index is skipped, any other clause gets the
   * literal l written at its offset (byte `offSet >> 3` from p, with
   * `8 - (offSet & 7)` bits left in it), and its offset moves one field on.
   */
  method StoreEntry(data: array<byte>, p: nat, offs: array<nat>, id: nat, l: nat, lit: nat,
                    si: seq<nat>, K: nat, ghost g: Layout, ghost s0: seq<byte>, ghost E: seq<Entry>, ghost n: nat)
    requires g.origin == 8 * p && g.lit == lit && g.si == si && g.K == K
    requires WalkReady(g, s0, E) && WalkAt(g, s0, data[..], offs[..], E, n) && n < |E| && E[n].id == id
    requires l == LocalLit(g.mapVar, E[n].lit)
    modifies data, offs
    ensures WalkAt(g, s0, data[..], offs[..], E, n + 1)
  {
    var idx := si[id];
    if idx >= K {
      SkipStep(g, s0, data[..], offs[..], E, n);
      return;
    }
    ghost var s: seq<byte>, os: seq<nat> := data[..], offs[..];
    ghost var h := |SlotLits(g, E, n, idx)|;
    ghost var w := FieldPos(g, idx, h);
    var off := offs[idx];
    WriteReady(g, s0, s, os, E, n, idx, h, w);
    ByteCursor(p, off);
    assert Pos(p + off / 8, 8 - off % 8) == w;
    var q, remaining := AddElementInData(data, p + off / 8, l, lit, 8 - off % 8);
    ghost var s': seq<byte>, os': seq<nat> := data[..], os[idx := os[idx] + lit];
    WriteStep(g, s0, s, s', os, os', E, n, n + 1, idx, w);
    offs[idx] := off + lit;
    assert offs[..] == os';
    assert data[..] == s';
  }

  /**
   * The ids of record r of D, from index i0 = R[r].pos + 2 of distrib on:
   * each is handed with the renamed literal l to StoreEntry.
   */
  method StoreRecord(data: array<byte>, p: nat, offs: array<nat>, distrib: array<nat>, i0: nat, cnt0: nat, l: nat,
                     si: seq<nat>, K: nat, lit: nat, ghost g: Layout, ghost s0: seq<byte>,
                     ghost D: seq<nat>, ghost R: seq<Rec>, ghost r: nat) returns (i: nat)
    requires offs != distrib && distrib[..] == D
    requires g.origin == 8 * p && g.lit == lit && g.si == si && g.K == K
    requires Framed(D, R) && r < |R| && i0 == R[r].pos + 2 && cnt0 == D[R[r].pos + 1]
    requires D[R[r].pos] / 2 < |g.mapVar| && l == LocalLit(g.mapVar, D[R[r].pos])
    requires WalkReady(g, s0, Entries(D, R)) && WalkAt(g, s0, data[..], offs[..], Entries(D, R), |Entries(D, R[..r])|)
    modifies data, offs
    ensures i == i0 + cnt0 && Framed(D, R[..r]) && Framed(D, R[..r + 1])
    ensures WalkAt(g, s0, data[..], offs[..], Entries(D, R), |Entries(D, R[..r + 1])|)
  {
    ghost var E := Entries(D, R);
    EntriesSnoc(D, R, r);
    ghost var n0 := |Entries(D, R[..r])|;
    var cnt := cnt0;
    i := i0;
    ghost var j: nat, n: nat := 0, n0;
    while cnt > 0
      invariant j + cnt == cnt0 && i == i0 + j && n == n0 + j
      invariant WalkAt(g, s0, data[..], offs[..], E, n)
    {
      cnt := cnt - 1;
      EntryAt(D, R, r, j);
      var id := distrib[i];
      i := i + 1;
      StoreEntry(data, p, offs, id, l, lit, si, K, g, s0, E, n);
      n, j := n + 1, j + 1;
    }
    assert n == |Entries(D, R[..r + 1])|;
  }

  /**
   * The last loop of `storeClauses`: for each record of distrib[0..sizeDistrib)
   * its literal is renamed once and its ids are handed to StoreRecord.
   * Every slot then holds, field by field, the local literals of the
   * entries of its clause in the order of the records, every offset points
   * past its slot, and no bit outside the slots changed.
   */
  method StoreClauseLits(data: array<byte>, p: nat, offs: array<nat>, distrib: array<nat>, sizeDistrib: nat,
                         si: seq<nat>, K: nat, mapVar: seq<nat>, lit: nat, ghost g: Layout, ghost R: seq<Rec>)
    requires offs != distrib
    requires g.origin == 8 * p && g.lit == lit && g.si == si && g.K == K && g.mapVar == mapVar
    requires Laid(distrib[..], R, sizeDistrib) && Framed(distrib[..], R)
    requires forall r :: 0 <= r < |R| ==> distrib[R[r].pos] / 2 < |mapVar|
    requires WalkReady(g, data[..], Entries(distrib[..], R)) && WalkAt(g, data[..], data[..], offs[..], Entries(distrib[..], R), 0)
    modifies data, offs
    ensures WalkAt(g, old(data[..]), data[..], offs[..], Entries(distrib[..], R), |Entries(distrib[..], R)|)
  {
    ghost var D := distrib[..];
    ghost var s0 := data[..];
    var i: nat := 0;
    ghost var r: nat := 0;
    assert R[..0] == [];
    while i < sizeDistrib
      invariant r <= |R| && i == (if r < |R| then R[r].pos else sizeDistrib)
      invariant Framed(D, R[..r])
      invariant WalkAt(g, s0, data[..], offs[..], Entries(D, R), |Entries(D, R[..r])|)
      decreases |R| - r
    {
      var l0 := distrib[i];
      var l := 2 * mapVar[l0 / 2] + l0 % 2;
      var cnt := distrib[i + 1];
      i := StoreRecord(data, p, offs, distrib, i + 2, cnt, l, si, K, lit, g, s0, D, R, r);
      r := r + 1;
    }
    assert R[..r] == R;
  }
}
