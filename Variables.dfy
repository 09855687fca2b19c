/**
 * The variable segment of a key (`storeVariables`): either a presence bitmap,
 * bit v % 8 of byte v / 8 set for every variable v, or every variable in a
 * fixed-width field, in component order, through the bit cursor.
 */
module VariableSegment {
  import opened Arith
  import opened Bits
  import opened BitWriter
  import opened Cnf
  import opened SizePlan

  /** Bits of byte j of the bitmap mark exactly the variables of `vars`. */
  predicate BitmapHolds(s: seq<byte>, nbByte: nat, vars: seq<int>)
    requires nbByte <= |s|
  {
    forall j, k :: 0 <= j < nbByte && 0 <= k < 8 ==> (Bit(s[j], k) <==> 8 * j + k in vars)
  }

  /** Setting bit v % 8 of byte v / 8 adds v to the bitmap. */
  lemma BitmapStep(s: seq<byte>, s': seq<byte>, nbByte: nat, vars: seq<int>, v: nat)
    requires nbByte <= |s| && v / 8 < nbByte
    requires BitmapHolds(s, nbByte, vars)
    requires |s'| == |s| && s' == s[v / 8 := OrByte(s[v / 8], Shl(1, v % 8))]
    ensures BitmapHolds(s', nbByte, vars + [v])
  {
    forall j, k | 0 <= j < nbByte && 0 <= k < 8
      ensures Bit(s'[j], k) <==> 8 * j + k in vars + [v]
    {
      DivModUnique(v, 8, v / 8, v % 8);
      if j == v / 8 {
        BitPow2(v % 8, k);
        assert (8 * j + k == v) <==> (k == v % 8);
      } else {
        DivModUnique(8 * j + k, 8, j, k);
      }
    }
  }

  /** Field j of the fixed-width list of w-bit fields (0 past the end of the buffer). */
  function FieldAt(s: seq<byte>, w: nat, j: nat): nat
  {
    if j * w + w <= 8 * |s| then Read(s, j * w, w) else 0
  }

  /** Field j of the fixed-width list is the j-th variable. */
  predicate FieldsHold(s: seq<byte>, w: nat, vars: seq<int>)
  {
    forall j :: 0 <= j < |vars| ==> FieldAt(s, w, j) == vars[j]
  }

  /** A field before the one just written is unchanged. */
  lemma FieldKept(s: seq<byte>, s': seq<byte>, w: nat, n: nat, j: nat)
    requires j < n && n * w + w <= 8 * |s|
    requires SameOutside(s, s', n * w, n * w + w)
    ensures FieldAt(s', w, j) == FieldAt(s, w, j)
  {
    MulMonotone(j + 1, n, w);
    ReadKept(s, s', j * w, w, n * w, n * w + w);
  }

  /** Writing the next field keeps the fields before it. */
  lemma FieldsExtend(s: seq<byte>, s': seq<byte>, w: nat, vars: seq<int>, v: int)
    requires |vars| * w + w <= 8 * |s|
    requires FieldsHold(s, w, vars)
    requires SameOutside(s, s', |vars| * w, |vars| * w + w)
    requires Read(s', |vars| * w, w) == v
    ensures FieldsHold(s', w, vars + [v])
  {
    var n := |vars|;
    forall j | 0 <= j < n + 1
      ensures FieldAt(s', w, j) == (vars + [v])[j]
    {
      if j < n {
        FieldKept(s, s', w, n, j);
      }
    }
  }

  /** The bitmap branch of `storeVariables`, on a zeroed segment. */
  method StoreBitmap(data: array<byte>, nbByte: nat, component: seq<int>)
    requires nbByte <= data.Length
    requires forall i :: 0 <= i < |component| ==> 0 <= component[i] && component[i] / 8 < nbByte
    requires forall j :: 0 <= j < nbByte ==> data[j] == 0
    modifies data
    ensures BitmapHolds(data[..], nbByte, component)
    ensures data[nbByte..] == old(data[nbByte..])
  {
    forall j, k | 0 <= j < nbByte && 0 <= k < 8
      ensures !Bit(data[j], k)
    {
      BitOfZero(k);
    }
    assert BitmapHolds(data[..], nbByte, []);
    for i := 0 to |component|
      invariant BitmapHolds(data[..], nbByte, component[..i])
      invariant data[nbByte..] == old(data[nbByte..])
    {
      var v := component[i];
      ghost var before := data[..];
      data[v / 8] := OrByte(data[v / 8], Shl(1, v % 8));
      BitmapStep(before, data[..], nbByte, component[..i], v);
      assert component[..i + 1] == component[..i] + [v];
    }
    assert component[..|component|] == component;
  }

  /** The fixed-width branch of `storeVariables`, on a clear segment. */
  method StoreFixed(data: array<byte>, nbByte: nat, w: nat, component: seq<int>)
    requires nbByte <= data.Length
    requires forall i :: 0 <= i < |component| ==> 0 <= component[i] < Pow2(w)
    requires |component| * w <= 8 * nbByte
    requires WindowClear(data[..], 0, 8 * nbByte)
    modifies data
    ensures FieldsHold(data[..], w, component)
    ensures WindowClear(data[..], |component| * w, 8 * nbByte - |component| * w)
    ensures SameOutside(old(data[..]), data[..], 0, 8 * nbByte)
  {
    var n := |component|;
    var p: nat, remaining: nat := 0, 8;
    for i := 0 to n
      invariant Pos(p, remaining) == i * w && remaining <= 8
      invariant i * w <= n * w
      invariant FieldsHold(data[..], w, component[..i])
      invariant WindowClear(data[..], i * w, 8 * nbByte - i * w)
      invariant SameOutside(old(data[..]), data[..], 0, i * w)
    {
      MulMonotone(i + 1, n, w);
      ghost var before := data[..];
      ghost var q := i * w;
      p, remaining := AddElementInData(data, p, component[i], w, remaining);
      StillClear(before, data[..], q, 8 * nbByte - q, w);
      ExtendFrame(old(data[..]), before, data[..], 0, q, q + w);
      assert (i + 1) * w == q + w;
      FieldsExtend(before, data[..], w, component[..i], component[i]);
      assert component[..i + 1] == component[..i] + [component[i]];
    }
    assert component[..n] == component;
  }

  /** The variable segment `s[..nbByteStoreVar]` holds the component, as the plan says. */
  predicate VarsHold(s: seq<byte>, info: AllocSizeInfo, component: seq<int>)
  {
    info.nbByteStoreVar <= |s|
    && (info.nbBitEltVar == 0 ==> BitmapHolds(s, info.nbByteStoreVar, component))
    && (info.nbBitEltVar != 0 ==>
          |component| * info.nbBitEltVar <= 8 * info.nbByteStoreVar
          && FieldsHold(s, info.nbBitEltVar, component)
          && WindowClear(s, |component| * info.nbBitEltVar,
                         8 * info.nbByteStoreVar - |component| * info.nbBitEltVar))
  }

  /** Writing past the variable segment keeps what it holds. */
  lemma VarsKept(s: seq<byte>, s': seq<byte>, info: AllocSizeInfo, component: seq<int>)
    requires VarsHold(s, info, component)
    requires |s'| == |s| && s'[..info.nbByteStoreVar] == s[..info.nbByteStoreVar]
    ensures VarsHold(s', info, component)
  {
    var n, w := info.nbByteStoreVar, info.nbBitEltVar;
    PrefixBitsKept(s, s', n);
    if w == 0 {
      forall j, k | 0 <= j < n && 0 <= k < 8
        ensures Bit(s'[j], k) == Bit(s[j], k)
      {
        assert s'[j] == s'[..n][j];
      }
    } else {
      FieldsKept(s, s', w, n, component);
    }
  }

  /** Bytes kept before n keep every stream bit before 8 n. */
  lemma PrefixBitsKept(s: seq<byte>, s': seq<byte>, n: nat)
    requires n <= |s| && |s'| == |s| && s'[..n] == s[..n]
    ensures forall t :: 0 <= t < 8 * n ==> StreamBit(s, t) == StreamBit(s', t)
  {
    forall t | 0 <= t < 8 * n
      ensures StreamBit(s, t) == StreamBit(s', t)
    {
      DivBelow(t, 8, n);
      assert s'[t / 8] == s'[..n][t / 8];
    }
  }

  /** The fields inside the first n bytes are kept with their stream bits. */
  lemma FieldsKept(s: seq<byte>, s': seq<byte>, w: nat, n: nat, component: seq<int>)
    requires n <= |s| && |s'| == |s| && |component| * w <= 8 * n
    requires forall t :: 0 <= t < 8 * n ==> StreamBit(s, t) == StreamBit(s', t)
    ensures forall j :: 0 <= j < |component| ==> FieldAt(s', w, j) == FieldAt(s, w, j)
  {
    forall j | 0 <= j < |component|
      ensures FieldAt(s', w, j) == FieldAt(s, w, j)
    {
      FieldInBytes(s, s', w, n, |component|, j, j * w);
    }
  }

  /** Field j (at bit q = j * w) of m fields inside the first n bytes is kept. */
  lemma FieldInBytes(s: seq<byte>, s': seq<byte>, w: nat, n: nat, m: nat, j: nat, q: nat)
    requires n <= |s| && |s'| == |s| && m * w <= 8 * n && j < m && q == j * w
    requires forall t :: 0 <= t < 8 * n ==> StreamBit(s, t) == StreamBit(s', t)
    ensures FieldAt(s', w, j) == FieldAt(s, w, j)
  {
    MulMonotone(j + 1, m, w);
    assert q + w <= 8 * n;
    ReadFrame(s, s', q, w);
  }

  /**
   * `storeVariables`: zero the variable segment `data[..nbByteStoreVar]`,
   * then fill it; returns the index just past it.
   */
  method StoreVariables(info: AllocSizeInfo, data: array<byte>, component: seq<int>)
    returns (next: nat)
    requires ValidComponent(component)
    requires VarSegmentFits(info, component)
    requires info.nbByteStoreVar <= data.Length
    modifies data
    ensures next == info.nbByteStoreVar
    ensures data[next..] == old(data[next..])
    ensures info.nbBitEltVar == 0 ==> BitmapHolds(data[..], next, component)
    ensures info.nbBitEltVar != 0 ==>
              |component| * info.nbBitEltVar <= 8 * next
              && FieldsHold(data[..], info.nbBitEltVar, component)
              && WindowClear(data[..], |component| * info.nbBitEltVar,
                             8 * next - |component| * info.nbBitEltVar)
  {
    var nbByte := info.nbByteStoreVar;
    Zero(data, 0, nbByte);
    ghost var zeroed := data[..];
    if info.nbBitEltVar == 0 {
      StoreBitmap(data, nbByte, component);
    } else {
      var w := info.nbBitEltVar;
      forall i | 0 <= i < |component|
        ensures 0 <= component[i] < Pow2(w)
      {
        assert component[i] <= Back(component);
      }
      assert |component| * w == w * |component|;
      StoreFixed(data, nbByte, w, component);
      BytesKept(zeroed, data[..], 0, nbByte);
    }
    next := nbByte;
  }
}
