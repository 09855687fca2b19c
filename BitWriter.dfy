/**
 * The bit cursor of the encoder (`addElementInData`) and the variable
 * segment writer (`storeVariables`).
 */
module BitWriter {
  import opened Arith
  import opened Bits

  /** Or-ing y into byte p sets the stream bits of y's bits in that byte and changes nothing else. */
  lemma OrIntoStream(s: seq<byte>, p: nat, y: nat)
    requires p < |s|
    ensures var s' := s[p := OrByte(s[p], y)];
            forall t :: 0 <= t < 8 * |s| ==>
              (StreamBit(s', t) <==> StreamBit(s, t) || (t / 8 == p && Bit(y, 7 - t % 8)))
  {}

  /** A clear stream bit of byte p reads, after y is or-ed into that byte, as the matching bit of y. */
  lemma OrBitAt(s: seq<byte>, s': seq<byte>, p: nat, y: nat, j: nat)
    requires p < |s| && j < 8 && s' == s[p := OrByte(s[p], y)]
    requires !StreamBit(s, 8 * p + 7 - j)
    ensures StreamBit(s', 8 * p + 7 - j) == Bit(y, j)
  {
    DivModUnique(8 * p + 7 - j, 8, p, 7 - j);
  }

  /** A value below 2^n shifted right by k is below 2^(n-k). */
  lemma ShiftedBound(v: nat, n: nat, k: nat)
    requires v < Pow2(n) && k <= n
    ensures Shr(v, k) < Pow2(n - k)
  {
    Pow2Add(k, n - k);
    DivBelow(v, Pow2(k), Pow2(n - k));
  }

  /** The chunk `val << (r - nb)` of a value below 2^nb is a byte holding val's bits at r-nb.. */
  lemma LastChunk(v: nat, nb: nat, r: nat, y: nat)
    requires 1 <= nb < r <= 8 && v < Pow2(nb)
    requires y == v * Pow2(r - nb)
    ensures y < 256
    ensures forall j :: 0 <= j < 8 ==> (Bit(y, j) <==> r - nb <= j < r && Bit(v, j - (r - nb)))
  {
    Pow2Add(nb, r - nb);
    MulMonotone(v, Pow2(nb) - 1, Pow2(r - nb));
    Pow2Monotone(r, 8);
    Pow2Constants();
    forall j | 0 <= j < 8
      ensures Bit(y, j) <==> r - nb <= j < r && Bit(v, j - (r - nb))
    {
      BitMul(v, r - nb, j);
      if j >= r {
        BitHigh(v, nb, j - (r - nb));
      }
    }
  }

  /** The chunk `val & ((1 << r) - 1)` is a byte holding val's low r bits. */
  lemma FullChunk(v: nat, r: nat, y: nat)
    requires 1 <= r <= 8 && y == v % Pow2(r)
    ensures y < 256
    ensures forall j :: 0 <= j < 8 ==> (Bit(y, j) <==> j < r && Bit(v, j))
  {
    Pow2Monotone(r, 8);
    Pow2Constants();
    forall j | 0 <= j < 8
      ensures Bit(y, j) <==> j < r && Bit(v, j)
    {
      BitMod(v, r, j);
    }
  }

  /** Loc at a cursor with r bits left in its byte. */
  lemma LocAt(q: nat, m: nat, j: nat, p: nat, r: nat)
    requires 1 <= r <= 8 && q == Pos(p, r) && j < m
    ensures m < r ==> Loc(q, m, j) == q + (m - 1 - j)
    ensures m >= r && j < r ==> Loc(q, m, j) == q + (r - 1 - j)
    ensures m >= r && j >= r ==> Loc(q, m, j) == Loc(q + r, m - r, j - r)
  {
    if r < 8 {
      DivModUnique(q, 8, p, 8 - r);
    } else {
      DivModUnique(q, 8, p, 0);
    }
    assert 8 - q % 8 == r;
  }

  /** Bit j < r of a value that fills the r bits left at the cursor. */
  lemma LocFull(q: nat, m: nat, j: nat, p: nat, r: nat)
    requires 1 <= r <= 8 && q == Pos(p, r) && j < r <= m
    ensures Loc(q, m, j) == q + (r - 1 - j)
  {
    LocAt(q, m, j, p, r);
  }

  /** Bit j of an m-bit value that fits in the r bits left at the cursor. */
  lemma LocShort(q: nat, m: nat, j: nat, p: nat, r: nat)
    requires 1 <= r <= 8 && q == Pos(p, r) && j < m < r
    ensures Loc(q, m, j) == q + (m - 1 - j)
  {
    LocAt(q, m, j, p, r);
  }

  /**
   * One pass of the loop of addElementInData: the low r bits of val go to the
   * last r bits of byte p, which are the next r places of the window; no
   * other bit changes.
   */
  lemma FullChunkFrame(s: seq<byte>, s': seq<byte>, q: nat, k: nat, p: nat, r: nat, val: nat)
    requires 1 <= r <= 8 && p < |s| && Pos(p, r) == q + k
    requires s' == s[p := OrByte(s[p], Mask(val, r))]
    ensures SameOutside(s, s', q + k, q + k + r)
  {
    var y := Mask(val, r);
    FullChunk(val, r, y);
    OrIntoStream(s, p, y);
  }

  /** Bit i of the value, one of the bits the full chunk writes. */
  lemma FullChunkBitAt(s: seq<byte>, s': seq<byte>, q: nat, n: nat, k: nat, p: nat, r: nat,
                       val0: nat, val: nat, i: nat)
    requires 1 <= r <= 8 && p < |s| && Pos(p, r) == q + k && k <= i < k + r && k + r <= n
    requires q + n <= 8 * |s| && val == Shr(val0, k)
    requires WindowClear(s, q + k, n - k)
    requires s' == s[p := OrByte(s[p], Mask(val, r))]
    ensures StreamBit(s', 8 * p + 7 - (i - k)) == Bit(val0, i)
  {
    assert !StreamBit(s, 8 * p + 7 - (i - k));
    OrBitAt(s, s', p, Mask(val, r), i - k);
    BitMod(val, r, i - k);
    BitDiv(val0, k, i - k);
  }

  lemma FullChunkBits(s: seq<byte>, s': seq<byte>, q: nat, n: nat, k: nat, p: nat, r: nat,
                      val0: nat, val: nat)
    requires 1 <= r <= 8 && p < |s| && Pos(p, r) == q + k && k + r <= n && q + n <= 8 * |s|
    requires val == Shr(val0, k)
    requires LocShifted(q, n, k)
    requires WindowClear(s, q + k, n - k)
    requires s' == s[p := OrByte(s[p], Mask(val, r))]
    ensures forall i :: k <= i < k + r ==>
              q + k <= Loc(q, n, i) < q + k + r && StreamBit(s', Loc(q, n, i)) == Bit(val0, i)
  {
    forall i | k <= i < k + r
      ensures q + k <= Loc(q, n, i) < q + k + r && StreamBit(s', Loc(q, n, i)) == Bit(val0, i)
    {
      LocFull(q + k, n - k, i - k, p, r);
      FullChunkBitAt(s, s', q, n, k, p, r, val0, val, i);
    }
  }

  lemma FullChunkLoc(q: nat, n: nat, k: nat, p: nat, r: nat, k2: nat)
    requires k2 == k + r && 1 <= r <= 8 && Pos(p, r) == q + k && k2 <= n
    requires LocShifted(q, n, k)
    ensures LocShifted(q, n, k2)
  {
    forall i | k2 <= i < n
      ensures Loc(q, n, i) == Loc(q + k2, n - k2, i - k2)
    {
      LocAt(q + k, n - k, i - k, p, r);
    }
  }

  /**
   * The tail of addElementInData: the last nb < r bits of the value go to the
   * byte bits r-nb .. r-1, high bit first.
   */
  lemma LastChunkFrame(s: seq<byte>, s': seq<byte>, q: nat, n: nat, k: nat, p: nat, r: nat, val: nat)
    requires 1 <= r <= 8 && p < |s| && Pos(p, r) == q + k && k < n && n - k < r
    requires val < Pow2(n - k)
    requires s' == s[p := OrByte(s[p], Shl(val, r - (n - k)))]
    ensures SameOutside(s, s', q + k, q + n)
  {
    var y := Shl(val, r - (n - k));
    LastChunk(val, n - k, r, y);
    OrIntoStream(s, p, y);
  }

  /** Bit i of the value, one of the bits the last chunk writes. */
  lemma LastChunkBitAt(s: seq<byte>, s': seq<byte>, q: nat, n: nat, k: nat, p: nat, r: nat,
                       val0: nat, val: nat, i: nat)
    requires 1 <= r <= 8 && p < |s| && Pos(p, r) == q + k && k <= i < n && n - k < r
    requires q + n <= 8 * |s| && val == Shr(val0, k) && val < Pow2(n - k)
    requires WindowClear(s, q + k, n - k)
    requires s' == s[p := OrByte(s[p], Shl(val, r - (n - k)))]
    ensures StreamBit(s', 8 * p + 7 - (r - (n - k) + (i - k))) == Bit(val0, i)
  {
    var nb := n - k;
    var y := Shl(val, r - nb);
    assert !StreamBit(s, 8 * p + 7 - (r - nb + (i - k)));
    OrBitAt(s, s', p, y, r - nb + (i - k));
    LastChunk(val, nb, r, y);
    BitDiv(val0, k, i - k);
  }

  lemma LastChunkBits(s: seq<byte>, s': seq<byte>, q: nat, n: nat, k: nat, p: nat, r: nat,
                      val0: nat, val: nat)
    requires 1 <= r <= 8 && p < |s| && Pos(p, r) == q + k && k < n && n - k < r
    requires q + n <= 8 * |s|
    requires val == Shr(val0, k) && val < Pow2(n - k)
    requires LocShifted(q, n, k)
    requires WindowClear(s, q + k, n - k)
    requires s' == s[p := OrByte(s[p], Shl(val, r - (n - k)))]
    ensures forall i :: k <= i < n ==> q + k <= Loc(q, n, i) < q + n && StreamBit(s', Loc(q, n, i)) == Bit(val0, i)
  {
    forall i | k <= i < n
      ensures q + k <= Loc(q, n, i) < q + n && StreamBit(s', Loc(q, n, i)) == Bit(val0, i)
    {
      LocShort(q + k, n - k, i - k, p, r);
      LastChunkBitAt(s, s', q, n, k, p, r, val0, val, i);
    }
  }

  /** The bits placed so far stay in place when the next chunk is placed beside them. */
  lemma ExtendPlaced(s0: seq<byte>, s1: seq<byte>, q: nat, n: nat, k0: nat, k1: nat, val0: nat)
    requires k0 <= k1 <= n && q + n <= 8 * |s0| && |s1| == |s0|
    requires Placed(s0, q, n, k0, val0)
    requires SameOutside(s0, s1, q + k0, q + k1)
    requires forall i :: k0 <= i < k1 ==>
               q + k0 <= Loc(q, n, i) < q + k1 && StreamBit(s1, Loc(q, n, i)) == Bit(val0, i)
    ensures Placed(s1, q, n, k1, val0)
  {
    forall i | 0 <= i < k1
      ensures q <= Loc(q, n, i) < q + k1 && StreamBit(s1, Loc(q, n, i)) == Bit(val0, i)
    {
      if i < k0 {
        assert StreamBit(s1, Loc(q, n, i)) == StreamBit(s0, Loc(q, n, i));
      }
    }
  }

  /** Two writes to adjacent windows change only their union. */
  lemma ExtendFrame(s: seq<byte>, s0: seq<byte>, s1: seq<byte>, q: nat, k0: nat, k1: nat)
    requires k0 <= k1
    requires SameOutside(s, s0, q, q + k0)
    requires SameOutside(s0, s1, q + k0, q + k1)
    ensures SameOutside(s, s1, q, q + k1)
  {}

  /** A write inside [lo, hi) after changes inside [lo, hi) still changes only [lo, hi). */
  lemma FrameWithin(s: seq<byte>, s0: seq<byte>, s1: seq<byte>, lo: nat, hi: nat, a: nat, b: nat)
    requires lo <= a && b <= hi
    requires SameOutside(s, s0, lo, hi) && SameOutside(s0, s1, a, b)
    ensures SameOutside(s, s1, lo, hi)
  {}

  /** The part of a clear window that a write left alone is still clear. */
  lemma StillClear(s: seq<byte>, s': seq<byte>, q: nat, n: nat, k: nat)
    requires k <= n && q + n <= 8 * |s|
    requires WindowClear(s, q, n) && SameOutside(s, s', q, q + k)
    ensures WindowClear(s', q + k, n - k)
  {}

  /** `*p |= val & ((1 << r) - 1)`: the step of the loop of addElementInData. */
  method OrFullChunk(data: array<byte>, p: nat, val: nat, r: nat,
                     ghost q: nat, ghost n: nat, ghost k: nat, ghost val0: nat)
    requires 1 <= r <= 8 && p < data.Length && Pos(p, r) == q + k && k + r <= n && q + n <= 8 * data.Length
    requires val == Shr(val0, k)
    requires LocShifted(q, n, k)
    requires WindowClear(data[..], q + k, n - k)
    requires Placed(data[..], q, n, k, val0)
    modifies data
    ensures SameOutside(old(data[..]), data[..], q + k, q + k + r)
    ensures Placed(data[..], q, n, k + r, val0)
  {
    ghost var before := data[..];
    data[p] := OrByte(data[p], Mask(val, r));
    FullChunkFrame(before, data[..], q, k, p, r, val);
    FullChunkBits(before, data[..], q, n, k, p, r, val0, val);
    ExtendPlaced(before, data[..], q, n, k, k + r, val0);
  }

  /** `*p |= val << (remainingBit - nbBit)`: the tail of addElementInData. */
  method OrLastChunk(data: array<byte>, p: nat, val: nat, r: nat, nb: nat,
                     ghost q: nat, ghost n: nat, ghost k: nat, ghost val0: nat)
    requires 1 <= r <= 8 && p < data.Length && Pos(p, r) == q + k && k + nb == n && 0 < nb < r
    requires q + n <= 8 * data.Length
    requires val == Shr(val0, k) && val < Pow2(nb)
    requires LocShifted(q, n, k)
    requires WindowClear(data[..], q + k, n - k)
    requires Placed(data[..], q, n, k, val0)
    modifies data
    ensures SameOutside(old(data[..]), data[..], q + k, q + n)
    ensures Placed(data[..], q, n, n, val0)
  {
    ghost var before := data[..];
    data[p] := OrByte(data[p], Shl(val, r - nb));
    LastChunkFrame(before, data[..], q, n, k, p, r, val);
    LastChunkBits(before, data[..], q, n, k, p, r, val0, val);
    ExtendPlaced(before, data[..], q, n, k, n, val0);
  }

  /**
   * One pass of the loop of addElementInData: the `r` bits left in byte p
   * are filled with the low bits of val, and the cursor moves to the start
   * of byte p + 1.
   */
  method FullStep(data: array<byte>, p: nat, val: nat, r: nat, nbBit: nat,
                  ghost orig: seq<byte>, ghost q: nat, ghost n: nat, ghost k: nat, ghost val0: nat)
    returns (p': nat, val': nat, nbBit': nat, ghost k': nat)
    requires 1 <= r <= 8 && r <= nbBit
    requires k + nbBit == n && Pos(p, r) == q + k
    requires q + n <= 8 * |orig| && |orig| == data.Length
    requires WindowClear(orig, q, n)
    requires val == Shr(val0, k) && val < Pow2(nbBit)
    requires LocShifted(q, n, k)
    requires Placed(data[..], q, n, k, val0)
    requires SameOutside(orig, data[..], q, q + k)
    modifies data
    ensures p' == p + 1 && nbBit' == nbBit - r && k' == k + r
    ensures k' + nbBit' == n && Pos(p', 8) == q + k'
    ensures val' == Shr(val0, k') && val' < Pow2(nbBit')
    ensures LocShifted(q, n, k')
    ensures Placed(data[..], q, n, k', val0)
    ensures SameOutside(orig, data[..], q, q + k')
  {
    ghost var before := data[..];
    StillClear(orig, before, q, n, k);
    OrFullChunk(data, p, val, r, q, n, k, val0);
    ExtendFrame(orig, before, data[..], q, k, k + r);
    ShiftedBound(val, nbBit, r);
    DivDiv(val0, k, r);
    val' := Shr(val, r);
    nbBit' := nbBit - r;
    k' := k + r;
    p' := p + 1;
    FullChunkLoc(q, n, k, p, r, k');
  }

  /**
   * addElementInData: writes the nbBit-bit value val at the cursor (byte p,
   * `remainingBit` bits left in it) into a window that holds no set bit.
   * The cursor moves exactly nbBit bits, the window then decodes to val, and
   * no bit outside the window changes.
   */
  method AddElementInData(data: array<byte>, p0: nat, val0: nat, nbBit0: nat, remaining0: nat)
    returns (p: nat, remainingBit: nat)
    requires remaining0 <= 8
    requires val0 < Pow2(nbBit0)
    requires Pos(p0, remaining0) + nbBit0 <= 8 * data.Length
    requires WindowClear(data[..], Pos(p0, remaining0), nbBit0)
    modifies data
    ensures 1 <= remainingBit <= 8 && p <= data.Length
    ensures Pos(p, remainingBit) == Pos(p0, remaining0) + nbBit0
    ensures SameOutside(old(data[..]), data[..], Pos(p0, remaining0), Pos(p0, remaining0) + nbBit0)
    ensures Placed(data[..], Pos(p0, remaining0), nbBit0, nbBit0, val0)
    ensures Read(data[..], Pos(p0, remaining0), nbBit0) == val0
  {
    ghost var q := Pos(p0, remaining0);
    ghost var n := nbBit0;
    p, remainingBit := p0, remaining0;
    var val: nat, nbBit: nat := val0, nbBit0;
    if remainingBit == 0 {
      remainingBit := 8;
      p := p + 1;
    }
    ghost var k: nat := 0;
    while nbBit >= remainingBit
      invariant 1 <= remainingBit <= 8
      invariant k + nbBit == n && Pos(p, remainingBit) == q + k
      invariant k > 0 ==> remainingBit == 8
      invariant val == Shr(val0, k) && val < Pow2(nbBit)
      invariant LocShifted(q, n, k)
      invariant Placed(data[..], q, n, k, val0)
      invariant SameOutside(old(data[..]), data[..], q, q + k)
      decreases nbBit
    {
      p, val, nbBit, k := FullStep(data, p, val, remainingBit, nbBit, old(data[..]), q, n, k, val0);
      remainingBit := 8;
    }

    if nbBit > 0 {
      ghost var before := data[..];
      StillClear(old(data[..]), before, q, n, k);
      OrLastChunk(data, p, val, remainingBit, nbBit, q, n, k, val0);
      ExtendFrame(old(data[..]), before, data[..], q, k, n);
      remainingBit := remainingBit - nbBit;
      k := k + nbBit;
    }
    ReadBits(data[..], q, n, val0);
  }

  /** `memset(&data[lo], 0, n)`. */
  method Zero(data: array<byte>, lo: nat, n: nat)
    requires lo + n <= data.Length
    modifies data
    ensures forall j :: 0 <= j < data.Length ==> data[j] == if lo <= j < lo + n then 0 else old(data[j])
    ensures WindowClear(data[..], 8 * lo, 8 * n)
    ensures SameOutside(old(data[..]), data[..], 8 * lo, 8 * lo + 8 * n)
  {
    for j := lo to lo + n
      invariant forall i :: 0 <= i < data.Length ==> data[i] == if lo <= i < j then 0 else old(data[i])
    {
      data[j] := 0;
    }
    forall t | 8 * lo <= t < 8 * lo + 8 * n
      ensures !StreamBit(data[..], t)
    {
      DivBelow(t, 8, lo + n);
      BitOfZero(7 - t % 8);
    }
    forall t | 0 <= t < 8 * data.Length && !(8 * lo <= t < 8 * lo + 8 * n)
      ensures StreamBit(data[..], t) == StreamBit(old(data[..]), t)
    {
      DivBelow(t, 8, lo);
      DivBelow(t, 8, lo + n);
    }
  }

  /** A window that lies outside the changed bits reads the same. */
  lemma ReadKept(s: seq<byte>, s': seq<byte>, q: nat, n: nat, lo: nat, hi: nat)
    requires q + n <= 8 * |s|
    requires SameOutside(s, s', lo, hi)
    requires q + n <= lo || hi <= q
    ensures Read(s', q, n) == Read(s, q, n)
  {
    ReadFrame(s, s', q, n);
  }

  /** Bytes whose bits all lie outside [8 lo, 8 hi) are unchanged. */
  lemma BytesKept(s: seq<byte>, s': seq<byte>, lo: nat, hi: nat)
    requires lo <= hi <= |s|
    requires SameOutside(s, s', 8 * lo, 8 * hi)
    ensures s'[..lo] == s[..lo] && s'[hi..] == s[hi..]
  {
    forall j | 0 <= j < |s| && !(lo <= j < hi)
      ensures s'[j] == s[j]
    {
      SameByte(s, s', j);
    }
  }
}
