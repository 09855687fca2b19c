/**
 * The bit-width planner (`computeNeededBytes`): from the component and the
 * per-length histogram of the surviving clauses it chooses how the
 * variables are written (fixed-width fields or a presence bitmap), the width
 * of a literal field, and the byte size of both segments of the key.
 */
module SizePlan {
  import opened Arith
  import opened BitWidth
  import opened Cnf

  /** `AllocSizeInfo`: the size plan of one encoded key. */
  datatype AllocSizeInfo = AllocSizeInfo(
    nbBitEltVar: nat,
    nbByteStoreVar: nat,
    nbByteStoreFormula: nat,
    nbBitStoreLit: nat,
    totalByte: nat)

  /** The least number of bytes that hold `bits` bits. */
  function LeastBytes(bits: nat): (n: nat)
    ensures 8 * n >= bits
    ensures n == 0 || 8 * (n - 1) < bits
  {
    (bits + 7) / 8
  }

  /** Number of lengths i < n that some surviving clause has (`cptDistrib`). */
  function CountPresent(diffSize: seq<nat>, n: nat): (c: nat)
    requires n <= |diffSize|
    ensures c <= n
  {
    if n == 0 then 0
    else CountPresent(diffSize, n - 1) + (if diffSize[n - 1] != 0 then 1 else 0)
  }

  /** No length below n occurs exactly when the count is zero. */
  lemma {:induction false} CountPresentZero(diffSize: seq<nat>, n: nat)
    requires n <= |diffSize|
    ensures CountPresent(diffSize, n) == 0 <==> forall i :: 0 <= i < n ==> diffSize[i] == 0
  {
    if n > 0 {
      CountPresentZero(diffSize, n - 1);
    }
  }

  /** Total number of literals of the surviving clauses of length < n (`cptLitFormula`). */
  function LitTotal(diffSize: seq<nat>, n: nat): nat
    requires n <= |diffSize|
  {
    if n == 0 then 0 else LitTotal(diffSize, n - 1) + (n - 1) * diffSize[n - 1]
  }

  /** Bits of the fixed-width variable list: one nbBitUnsigned(back)-bit field per variable. */
  function FixedBits(component: seq<int>): (x: nat)
    requires ValidComponent(component)
    ensures x >= |component| >= 1
  {
    MulMonotone(1, NbBitUnsigned(Back(component)), |component|);
    NbBitUnsigned(Back(component)) * |component|
  }

  /** Bytes of the fixed-width variable list, `1 + ((nbBitEltVar * |component| - 1) >> 3)`. */
  function FixedWidthBytes(component: seq<int>): (n: nat)
    requires ValidComponent(component)
    ensures n == LeastBytes(FixedBits(component))
  {
    CeilBytes(FixedBits(component));
    1 + ((FixedBits(component) - 1) / 8)
  }

  /** Bytes of the presence bitmap as the source sizes it: `1 + ((back - 1) >> 3)`. */
  function BitmapBytesAsWritten(component: seq<int>): (n: nat)
    requires ValidComponent(component)
    ensures n == LeastBytes(Back(component))
  {
    CeilBytes(Back(component));
    1 + ((Back(component) - 1) / 8)
  }

  /** Bytes a presence bitmap needs when bit v of byte v >> 3 marks variable v. */
  function BitmapBytesCorrected(component: seq<int>): nat
    requires ValidComponent(component)
  {
    1 + (Back(component) / 8)
  }

  /** The width of one literal field: it must hold every literal 2..2|c|+1 and every length token. */
  function LitWidth(component: seq<int>): nat
    requires ValidComponent(component)
    requires |component| < 0x8000_0000 - 1
  {
    NbBitUnsigned(2 + 2 * |component|)
  }

  /** Number of bits the formula segment reserves: two slots per present length plus one per literal. */
  function ReservedFormulaBits(lit: nat, diffSize: seq<nat>): nat
  {
    lit * (2 * CountPresent(diffSize, |diffSize|) + LitTotal(diffSize, |diffSize|))
  }

  /**
   * The planner, given the byte size of the bitmap as a parameter so that the
   * source's sizing and the corrected one share one definition.
   */
  function Plan(component: seq<int>, diffSize: seq<nat>, bitmapBytes: nat): AllocSizeInfo
    requires ValidComponent(component)
    requires |component| < 0x8000_0000 - 1
  {
    var fixedBit := NbBitUnsigned(Back(component));
    var fixedBytes := FixedWidthBytes(component);
    var useBitmap := bitmapBytes < fixedBytes;
    var nbBitEltVar := if useBitmap then 0 else fixedBit;
    var nbByteStoreVar := if useBitmap then bitmapBytes else fixedBytes;
    var lit := LitWidth(component);
    var cptDistrib := CountPresent(diffSize, |diffSize|);
    var nbByteStoreFormula :=
      if cptDistrib == 0 then 0 else 1 + ReservedFormulaBits(lit, diffSize) / 8;
    AllocSizeInfo(nbBitEltVar, nbByteStoreVar, nbByteStoreFormula, lit,
                  nbByteStoreVar + nbByteStoreFormula)
  }

  /**
   * `computeNeededBytes` as written: diffSize is `distribDiffSize[0..maxSizeClause]`.
   */
  function ComputeNeededBytes(component: seq<int>, diffSize: seq<nat>): (r: AllocSizeInfo)
    requires ValidComponent(component)
    requires |component| < 0x8000_0000 - 1
    ensures r.nbByteStoreVar == Min(LeastBytes(FixedBits(component)), LeastBytes(Back(component)))
    ensures r.nbBitEltVar == 0 <==> LeastBytes(Back(component)) < LeastBytes(FixedBits(component))
    ensures r.nbBitEltVar != 0 ==> r.nbBitEltVar == NbBitUnsigned(Back(component))
    ensures (r.nbByteStoreFormula == 0) <==> (forall i :: 0 <= i < |diffSize| ==> diffSize[i] == 0)
    ensures r.nbByteStoreFormula != 0 ==>
              8 * (r.nbByteStoreFormula - 1) <= ReservedFormulaBits(r.nbBitStoreLit, diffSize)
                < 8 * r.nbByteStoreFormula
    ensures r.nbBitStoreLit == NbBitUnsigned(2 + 2 * |component|)
    ensures r.totalByte == r.nbByteStoreVar + r.nbByteStoreFormula
  {
    CountPresentZero(diffSize, |diffSize|);
    Plan(component, diffSize, BitmapBytesAsWritten(component))
  }

  /** `1 + ((x - 1) >> 3)` is the ceiling of x / 8 for every x >= 1. */
  lemma CeilBytes(x: nat)
    requires x >= 1
    ensures 1 + (x - 1) / 8 == LeastBytes(x)
  {}

  function Min(a: nat, b: nat): nat { if a < b then a else b }

  /**
   * The same planner with the presence bitmap sized to hold bit `back` (the
   * encoder stores and sizes keys with this one).
   */
  function ComputeNeededBytesCorrected(component: seq<int>, diffSize: seq<nat>): (r: AllocSizeInfo)
    requires ValidComponent(component)
    requires |component| < 0x8000_0000 - 1
    ensures r.nbByteStoreVar == Min(LeastBytes(FixedBits(component)), LeastBytes(Back(component) + 1))
    ensures r.nbBitEltVar == 0 <==> LeastBytes(Back(component) + 1) < LeastBytes(FixedBits(component))
    ensures r.nbBitEltVar != 0 ==> r.nbBitEltVar == NbBitUnsigned(Back(component))
    ensures r.nbBitEltVar == 0 ==>
              forall i :: 0 <= i < |component| ==> component[i] / 8 < r.nbByteStoreVar
    ensures r.nbBitEltVar != 0 ==> FixedBits(component) <= 8 * r.nbByteStoreVar
    ensures (r.nbByteStoreFormula == 0) <==> (forall i :: 0 <= i < |diffSize| ==> diffSize[i] == 0)
    ensures r.nbByteStoreFormula != 0 ==>
              8 * (r.nbByteStoreFormula - 1) <= ReservedFormulaBits(r.nbBitStoreLit, diffSize)
                < 8 * r.nbByteStoreFormula
    ensures r.nbBitStoreLit == NbBitUnsigned(2 + 2 * |component|)
    ensures r.totalByte == r.nbByteStoreVar + r.nbByteStoreFormula
  {
    assert BitmapBytesCorrected(component) == LeastBytes(Back(component) + 1);
    CountPresentZero(diffSize, |diffSize|);
    Plan(component, diffSize, BitmapBytesCorrected(component))
  }

  /**
   * The source's sizing of the bitmap misses the byte of the largest
   * variable whenever that variable is a multiple of 8: for the component
   * 1..8 the bitmap is chosen (1 byte against 4), and bit 8 lives in byte 1.
   */
  lemma BitmapTooShortAsWritten()
    ensures var c := [1, 2, 3, 4, 5, 6, 7, 8];
            ValidComponent(c)
            && ComputeNeededBytes(c, []).nbBitEltVar == 0
            && ComputeNeededBytes(c, []).nbByteStoreVar == 1
            && Back(c) / 8 == 1
  {
    var c := [1, 2, 3, 4, 5, 6, 7, 8];
    assert ValidComponent(c);
    Pow2Constants();
    assert NbBitUnsigned(8) == 4;
    assert FixedBits(c) == 32;
  }

  /** Whenever the largest variable is a multiple of 8 and the bitmap is used, its byte is past the end. */
  lemma BitmapOverflowAsWritten(component: seq<int>, diffSize: seq<nat>)
    requires ValidComponent(component)
    requires |component| < 0x8000_0000 - 1
    requires Back(component) % 8 == 0
    requires ComputeNeededBytes(component, diffSize).nbBitEltVar == 0
    ensures Back(component) / 8 == ComputeNeededBytes(component, diffSize).nbByteStoreVar
  {}

  /**
   * The literal field holds every literal of the component in local ids
   * (2..2|c|+1) and every length token up to 2|c|.
   */
  lemma LitWidthHoldsLiterals(component: seq<int>, v: nat)
    requires ValidComponent(component)
    requires |component| < 0x8000_0000 - 1
    requires v <= 2 * |component| + 1
    ensures v < Pow2(LitWidth(component))
  {
    BitLengthMonotone(v, 2 + 2 * |component|);
    BitLengthBounds(v);
    Pow2Monotone(BitLength(v), LitWidth(component));
  }

  /**
   * The layout written by `storeClauses` (one token per present length, one
   * separator slot, then every literal) fits in the reserved formula bytes.
   */
  lemma FormulaLayoutFits(lit: nat, diffSize: seq<nat>, nbByteStoreFormula: nat)
    requires CountPresent(diffSize, |diffSize|) >= 1
    requires ReservedFormulaBits(lit, diffSize) < 8 * nbByteStoreFormula
    ensures lit * (CountPresent(diffSize, |diffSize|) + 1 + LitTotal(diffSize, |diffSize|))
              <= 8 * nbByteStoreFormula
  {
    var d, t := CountPresent(diffSize, |diffSize|), LitTotal(diffSize, |diffSize|);
    MulMonotone(d + 1 + t, 2 * d + t, lit);
  }

  /**
   * What `storeVariables` needs of a plan: in bitmap mode the byte of every
   * variable lies inside the variable segment; in fixed-width mode every
   * variable fits its field and all fields fit the segment.
   */
  predicate VarSegmentFits(info: AllocSizeInfo, component: seq<int>)
    requires ValidComponent(component)
  {
    (info.nbBitEltVar == 0 ==>
       forall i :: 0 <= i < |component| ==> component[i] / 8 < info.nbByteStoreVar)
    && (info.nbBitEltVar != 0 ==>
          Back(component) < Pow2(info.nbBitEltVar)
          && info.nbBitEltVar * |component| <= 8 * info.nbByteStoreVar)
  }

  /** The corrected plan always leaves room for every variable. */
  lemma CorrectedPlanFits(component: seq<int>, diffSize: seq<nat>)
    requires ValidComponent(component)
    requires |component| < 0x8000_0000 - 1
    ensures VarSegmentFits(ComputeNeededBytesCorrected(component, diffSize), component)
  {
    var r := ComputeNeededBytesCorrected(component, diffSize);
    if r.nbBitEltVar != 0 {
      assert FixedBits(component) == r.nbBitEltVar * |component|;
    }
  }

  /** The source's plan does not, for the component 1..8. */
  lemma AsWrittenPlanOverflows()
    ensures var c := [1, 2, 3, 4, 5, 6, 7, 8];
            ValidComponent(c) && |c| < 0x8000_0000 - 1
            && !VarSegmentFits(ComputeNeededBytes(c, []), c)
  {
    var c := [1, 2, 3, 4, 5, 6, 7, 8];
    BitmapTooShortAsWritten();
    assert c[7] / 8 == 1;
  }
}
