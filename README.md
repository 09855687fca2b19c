# Cache-key encoder of the d4 CNF bucket manager, in Dafny

This project models `BucketManagerCnfCl`, the encoder that d4 uses to turn a
sub-formula into a compact byte key for its cache. A sub-formula is a
component: an ascending list of variables, plus the kept clauses that touch
them. The encoder runs in four steps:

1. **Partition refinement** (`createDistribWrTLit`). Each literal of each
   unassigned variable of the component is processed in turn. The kept
   clauses holding it are grouped into buckets. A bucket is a range
   `[start, end)` of group ids, and it is split whenever only some of its
   members hold the current literal. For each literal, a record is appended
   to `distrib`: the literal, a count, and the sorted group ids.
2. **Removal of identical clauses** (`collectDistrib`). A final range wider
   than one id holds clauses with the same literals. Only its first id
   survives. The surviving ids are renumbered `0..K-1`, and a removed id is
   sent to the sentinel `sizeDistrib`. Surviving clauses are counted per
   length in the histogram `distribDiffSize`.
3. **Size planning** (`computeNeededBytes`). The planner chooses between two
   variable encodings: fixed-width fields or a presence bitmap. It also
   fixes the width of a literal field and the byte size of the variable
   segment and the formula segment.
4. **Bit packing** (`addElementInData`, `storeVariables`, `storeClauses`,
   `storeFormula`). A bit cursor fills each byte from its high bit down.
   The formula segment holds, in order: one length token per clause length,
   a blank separator field, and one slot per surviving clause. Each slot
   holds that clause's literals, renamed to local ids.

How the model is organised:

- **`BucketManager.dfy`** holds the two classes: the encoder
  `BucketManagerCnfCl` and the scratch buffers `BucketInConstruction`.
  Their methods change fields in place, as the source does.
- **Loops become methods.** Each loop of the source is a method over values
  (`ScanOccurrences`, `UnmarkLoop`, `CompactIds`, `StoreTokens`,
  `BlockStarts`, `ClauseOffsets`, `StoreClauseLits`, ...). Each one is proved
  against a specification function (`ScanFrom`, `FinishTable`,
  `PassTable`, `RefineVars`, `Survivors`/`Rank`, `SlotOf`, `Read`).
- **Ghost proof state.** Each marked clause has a ghost group id `G`, and
  `O` is its inverse. Ids are swapped as clauses move inside a split
  bucket. `Partition.Stable` is the invariant that holds between two
  literals.
- **Bytes and bit positions.** Bytes are integers `0..255`. Stream bit `t`
  is bit `7 - t % 8` of byte `t / 8`. The cursor at byte `p` with `r` bits
  left in it is at stream position `8p + 8 - r` (`Bits.Pos`).
- **Literals** are `2*var + polarity`. `makeLitFalse(v) = 2v + 1` and
  `makeLitTrue(v) = 2v` (`Cnf.MakeLitFalse`, `Cnf.MakeLitTrue`).
- **Field setters.** `BucketInConstruction.SetRefined` and
  `SetRenumbered`, and `BucketManagerCnfCl.SetPartition`, `SetBuckets`,
  `SetStored` and `SetMarks` assign several fields in one step. They stand
  for no operation of the encoder; the operations that call them do.
- **One class, several modules.** The methods of `BucketManagerCnfCl`
  call value-level pieces kept in modules of their own:
  - `collectDistrib` (`CollectDistrib`, with its helper
    `RemoveDuplicateClauses`) uses `Refine` and `Finish` for one literal's
    pass, `Partition` for the invariant between passes, and `Collect`
    and `Compact` for the removal of identical clauses.
  - `storeClauses` is `ClauseStore.StoreClauses`. Its helper
    `StoreLayout` covers lines 457-488 (the tokens and the slot offsets,
    from `ClauseSegment`). Its helper `StoreSlots` covers lines 490-513
    (the literal walk, from `ClauseWalk`).
  - `storeFormula` (`StoreFormula`, with its helpers `CollectForKey` and
    `WriteKey`) uses `KeyStore.StoreKey`, which lays out both segments.
    `KeyStore.FormulaSegment` is the `storeClauses` call of
    `storeFormula`. `KeyLink` proves that the table `collectDistrib`
    leaves meets what `storeClauses` requires.
- **Solver inputs.** The occurrence lists, `isKeptClause`, `varIsAssigned`
  and `getCurrentSize` are the fields of one input value,
  `Cnf.OccurrenceIndex`.

Two details of the code that the model keeps as written:

- **Ties in the planner.** A tie between the two variable encodings keeps
  fixed-width fields, because line 339 compares with a strict `<`.
  `ComputeNeededBytes` states the strict comparison.
- **Which half of a split bucket moves.** The moved members of a split
  bucket take the prefix `[start, start+counter)` of its range, and the
  untouched members keep the suffix (lines 218-219).

## Model

| member | source | states |
|---|---|---|
| BitWidth.NbBitUnsigned | src/caching/cnf/BucketManagerCnfCl.hpp:49-64 | the result is the least n >= 1 with v < 2^n: 1 for v = 0, otherwise 2^(n-1) <= v < 2^n, and it equals the bit length of v |
| BitWidth.NbBitUnsignedLeast | src/caching/cnf/BucketManagerCnfCl.hpp:49-64 | no width below nbBitUnsigned(v) can hold v |
| BitWidth.Log2LoopIsLength | src/caching/cnf/BucketManagerCnfCl.hpp:55-61 | the five mask-and-shift rounds leave r equal to the bit length of v minus one |
| BucketManager.TakeBucket | src/caching/cnf/BucketManagerCnfCl.hpp:135-146 | with no unused bucket, a new empty bucket at nbClauseInDistrib is appended and its index returned; otherwise the unused bucket is returned and the table is unchanged |
| BucketManager.BucketManagerCnfCl.GetIdxBucketSortInfo | src/caching/cnf/BucketManagerCnfCl.hpp:135-146 | the same on the object's fields; afterwards no bucket is unused |
| BucketManager.PushSorted | src/caching/cnf/BucketManagerCnfCl.hpp:151-158 | the array becomes PushInto(old array): the window `tab[base..base+pos+1]` becomes the old window `tab[base..base+pos]` with val bubbled in from its end, and every other entry is unchanged |
| Refine.PushIntoWindow | src/caching/cnf/BucketManagerCnfCl.hpp:151-158 | pushSorted keeps a sorted window sorted, and the new window is a permutation of the old one plus val |
| Seqs.InsertSortedPerm | src/caching/cnf/BucketManagerCnfCl.hpp:151-158 | the bubbled insertion is a permutation of the old prefix plus val |
| Seqs.InsertSortedSorted | src/caching/cnf/BucketManagerCnfCl.hpp:151-158 | bubbling val into a sorted prefix gives a sorted sequence |
| Seqs.InsertSortedIncreasing | src/caching/cnf/BucketManagerCnfCl.hpp:151-158 | bubbling a new id into a strictly increasing prefix keeps it strictly increasing |
| BucketManager.ScanOccurrences | src/caching/cnf/BucketManagerCnfCl.hpp:176-206 | the loop over the occurrence list reaches the state ScanFrom defines: skipped clauses, new clauses into the own bucket with fresh ids, marked clauses redirected to the split of their bucket with the next id of its range |
| BucketManager.SplitMovedBuckets | src/caching/cnf/BucketManagerCnfCl.hpp:211-221 | each bucket that received moved members hands the prefix `[start, start+counter)` to its split target and keeps the rest, with a zero counter |
| BucketManager.ClosePass | src/caching/cnf/BucketManagerCnfCl.hpp:208-238 | closing a pass gives FinishTable: the own bucket takes the new ids or is left unused, and the record of l is written, or retracted when no id was pushed |
| BucketManager.DistribWrTLit | src/caching/cnf/BucketManagerCnfCl.hpp:167-239 | the whole body of createDistribWrTLit, on values, yields PassTable of the starting table |
| BucketManager.BucketManagerCnfCl.CreateDistribWrTLit | src/caching/cnf/BucketManagerCnfCl.hpp:167-239 | the object's partition and buffers become PassTable of their old value |
| Finish.PassStable | src/caching/cnf/BucketManagerCnfCl.hpp:167-239 | one pass keeps the partition invariant Stable. It appends one record `Rec(l, sizeDistrib)` and grows sizeDistrib by 2 + K when K > 0 kept clauses hold l, and changes neither when none does. Older records are unchanged. The own bucket stays unused exactly when no clause was new |
| Partition.RangesPartition | src/caching/cnf/BucketManagerCnfCl.hpp:211-230 | in a stable table, the bucket ranges are disjoint and together cover exactly the ids `[0, nbClauseInDistrib)` |
| Partition.RangeSize | src/caching/cnf/BucketManagerCnfCl.hpp:211-230 | each bucket's range is as long as the number of clauses marked to it |
| Partition.RecordIsUnion | src/caching/cnf/BucketManagerCnfCl.hpp:191-203 | the ids recorded for a literal are exactly the union of the ranges of the kept clauses holding it |
| Collect.RefineVarsStable | src/caching/cnf/BucketManagerCnfCl.hpp:254-258 | both passes of every unassigned variable of the component, false literal first, keep the table stable within the room they need |
| BucketManager.BucketManagerCnfCl.RefineComponent | src/caching/cnf/BucketManagerCnfCl.hpp:254-258 | the first loop of collectDistrib leaves the table RefineVars of the starting one |
| BucketManager.BucketManagerCnfCl.VarStep | src/caching/cnf/BucketManagerCnfCl.hpp:255-257 | an assigned variable changes nothing; otherwise its false literal's pass runs, then its true literal's |
| Collect.RedundantIsDuplicate | src/caching/cnf/BucketManagerCnfCl.hpp:267-272 | an id in use is marked redundant exactly when an earlier id belongs to a clause that agrees with it on every recorded literal |
| Collect.MarkRedundant | src/caching/cnf/BucketManagerCnfCl.hpp:270-271 | the ids `[start+1, end)` are flagged and no other flag changes |
| Collect.UnmarkLoop | src/caching/cnf/BucketManagerCnfCl.hpp:262-274 | every listed clause is unmarked. The first id of its bucket receives the clause's sizeClauses. A wider bucket is cut to its first id and its other ids are flagged. realSizeDistrib loses `getCurrentSize` once per cut id, in 32 bits |
| Compact.CompactIds | src/caching/cnf/BucketManagerCnfCl.hpp:277-289 | K is the number of surviving ids. Surviving lengths are packed to the front in order. A surviving id i gets index Rank(i) and a redundant one the sentinel. Every flag is cleared. The histogram grows by the multiset of surviving lengths, so its sum grows by K |
| Collect.RemoveDuplicates | src/caching/cnf/BucketManagerCnfCl.hpp:261-290 | the removal of identical clauses, on values: no clause stays marked, surviving ids are Renumbered in order onto `0..K-1`, redundant ids go to sizeDistrib (which is >= K), and realSizeDistrib is returned |
| BucketManager.BucketManagerCnfCl.CollectDistrib | src/caching/cnf/BucketManagerCnfCl.hpp:251-291 | the table is refined by the whole component. Then every mark is back to -1, `m_mustUnMark` is empty, every redundancy flag is reset, the ids are Renumbered, and the result is realSizeDistrib mod 2^32 |
| BucketManager.BucketInConstruction.Reinit | src/caching/cnf/BucketManagerCnfCl.hpp:300 | sizeDistrib and nbClauseInDistrib become 0 and the length histogram is all zeros |
| BucketManager.BucketManagerCnfCl.InitSortBucket | src/caching/cnf/BucketManagerCnfCl.hpp:299-303 | the buffers are reset, no bucket exists or is unused, and the partition is the empty StartTable |
| SizePlan.ComputeNeededBytes | src/caching/cnf/BucketManagerCnfCl.hpp:331-363 | nbByteStoreVar is min(ceil(nbBitEltVar*\|component\|/8), ceil(back/8)). nbBitEltVar is 0 exactly when the bitmap is strictly cheaper. nbBitStoreLit is nbBitUnsigned(2+2\|component\|). nbByteStoreFormula is 0 exactly when no length is present, and otherwise 1 + floor(lit*(2*cptDistrib+cptLitFormula)/8). totalByte is the sum of the two segments |
| SizePlan.CountPresentZero | src/caching/cnf/BucketManagerCnfCl.hpp:348-356 | cptDistrib is 0 exactly when the histogram is all zeros |
| SizePlan.LitWidthHoldsLiterals | src/caching/cnf/BucketManagerCnfCl.hpp:344 | every local literal `2..2\|component\|+1` and every length token fits the literal field |
| SizePlan.FormulaLayoutFits | src/caching/cnf/BucketManagerCnfCl.hpp:355-359 | the tokens, the separator and every literal fit in the reserved formula bytes |
| SizePlan.BitmapOverflowAsWritten | src/caching/cnf/BucketManagerCnfCl.hpp:338 | when the largest variable is a multiple of 8 and the bitmap is chosen, that variable's byte index equals nbByteStoreVar, one past the segment |
| SizePlan.BitmapTooShortAsWritten | src/caching/cnf/BucketManagerCnfCl.hpp:336-342 | for the component 1..8 the source chooses a 1-byte bitmap, while variable 8 lives in byte 1 |
| SizePlan.AsWrittenPlanOverflows | src/caching/cnf/BucketManagerCnfCl.hpp:338 | the source's plan for 1..8 does not leave room for every variable |
| SizePlan.ComputeNeededBytesCorrected | src/caching/cnf/BucketManagerCnfCl.hpp:331-363 | the same plan, with the bitmap sized to hold bit `back` (ceil((back+1)/8) bytes); in bitmap mode every variable's byte lies in the segment, and in fixed mode all fields fit |
| SizePlan.CorrectedPlanFits | src/caching/cnf/BucketManagerCnfCl.hpp:336-342 | the corrected plan always leaves room for every variable |
| BitWriter.FullStep | src/caching/cnf/BucketManagerCnfCl.hpp:387-393 | one loop round fills the remaining bits of the byte with the low bits of val, and the cursor moves to the start of the next byte |
| BitWriter.AddElementInData | src/caching/cnf/BucketManagerCnfCl.hpp:374-406 | given val < 2^nbBit and a clear window, the cursor position advances by exactly nbBit. remainingBit ends in 1..8. Only bits of `[pos, pos+nbBit)` change, and they decode back to val |
| BitWriter.Zero | src/caching/cnf/BucketManagerCnfCl.hpp:422 | memset: the given bytes become 0 and no other byte changes |
| VariableSegment.StoreBitmap | src/caching/cnf/BucketManagerCnfCl.hpp:425-426 | on a zeroed segment, bit k of byte j is set exactly when 8j+k is a variable of the component |
| VariableSegment.StoreFixed | src/caching/cnf/BucketManagerCnfCl.hpp:427-433 | field j of the fixed-width list decodes to the j-th variable, and the rest of the segment stays clear |
| VariableSegment.StoreVariables | src/caching/cnf/BucketManagerCnfCl.hpp:418-436 | given a plan with room for every variable: the variable segment holds the bitmap or the fields, bytes past it are unchanged, and the returned index is nbByteStoreVar |
| ClauseSegment.MapComponent | src/caching/cnf/BucketManagerCnfCl.hpp:462-463 | each component variable is named by its 1-based position, and other entries of m_mapVar are unchanged |
| ClauseSegment.StoreTokens | src/caching/cnf/BucketManagerCnfCl.hpp:466-469 | one token per present length, in increasing order, and the cursor ends just after them |
| ClauseStore.StoreHeader | src/caching/cnf/BucketManagerCnfCl.hpp:457-469 | the segment is cleared, then the tokens are written; past them the segment is clear |
| ClauseSegment.BlockStarts | src/caching/cnf/BucketManagerCnfCl.hpp:473-478 | each present length's block starts after the separator plus the units of all shorter lengths |
| ClauseSegment.ClauseOffsets | src/caching/cnf/BucketManagerCnfCl.hpp:480-488 | each surviving clause of non-zero length gets the next slot of its length's block (SlotOf), and its length entry is reset to 0 |
| ClauseSegment.SlotsDisjoint | src/caching/cnf/BucketManagerCnfCl.hpp:473-488 | the slots of two different surviving clauses never overlap |
| ClauseSegment.SlotInside | src/caching/cnf/BucketManagerCnfCl.hpp:473-488 | a clause's slot ends inside its length's block, and so inside the total of literal fields |
| ClauseWalk.StoreEntry | src/caching/cnf/BucketManagerCnfCl.hpp:500-511 | an id mapped to the sentinel is skipped; any other id gets its local literal written at its clause's offset, and that offset moves one field on |
| ClauseWalk.StoreRecord | src/caching/cnf/BucketManagerCnfCl.hpp:493-512 | all ids of one record are walked, and the walk invariant is kept |
| ClauseWalk.StoreClauseLits | src/caching/cnf/BucketManagerCnfCl.hpp:490-513 | after the last loop, every slot holds its clause's local literals in record order, and no bit outside the slots changed |
| ClauseStore.StoreClauses | src/caching/cnf/BucketManagerCnfCl.hpp:454-516 | the segment holds the tokens, a clear separator field, and in every slot the clause's literals. Every write stays inside nbByteStoreFormula bytes and bytes outside the segment are unchanged. m_mapVar names the component and the lengths are reset |
| KeyStore.ClausesPresent | src/caching/cnf/BucketManagerCnfCl.hpp:535 | some clause length is present exactly when some clause survived |
| KeyStore.StoreKey | src/caching/cnf/BucketManagerCnfCl.hpp:529-541 | a fresh array of totalByte bytes holding the variable segment and, when K > 0, the formula segment after it, plus the DataInfo of the key |
| BucketManager.BucketManagerCnfCl.StoreFormula | src/caching/cnf/BucketManagerCnfCl.hpp:525-542 | the key of the component: the partition is RefineVars of the start table, the ids are Renumbered, the formula segment is empty exactly when no clause survived and otherwise holds every clause, and the manager is idle again |

## Left out

- Debug output: `AllocSizeInfo::display`, `showListBucketSort` and the `#if 0` prints write to a stream only.
- The constructor and destructor's `new[]`/`delete[]` and the base-class wiring. The model's constructors allocate arrays of the needed sizes.
- The base class `BucketManagerCnf`, the cache table, `CachedBucket::set` and the allocator are not part of this model. `getArray(totalByte)` is modelled as a fresh zero-filled array of `totalByte` bytes. Both segments are zeroed again by `storeVariables` and `storeClauses`.
- `SpecManagerCnf` (`getVecIdxClause`, `varIsAssigned`, `getCurrentSize`, `getMaxSizeClause`) and `isKeptClause` are not part of this model. They are the fields of the input value `Cnf.OccurrenceIndex`, with no clause listed twice for one literal.
- `Lit` is not part of this model. Literals are `2*var + polarity`, and `makeLitFalse(v)` is taken to be `2v + 1` and `makeLitTrue(v)` to be `2v`.
- `BucketInConstruction` and `BucketSortInfo` are not part of this model. `reinit` is taken to zero `sizeDistrib`, `nbClauseInDistrib` and the length histogram. `BucketSortInfo(n)` is taken to be the empty range at `n`, and `reset` to zero `counter`.
- Cnf.ValidComponent: variables are taken to be at least 1. For variable 0, `component.back() - 1` at line 338 would wrap around.
- BucketManager.BucketManagerCnfCl.CollectDistrib: requires `distrib` to have room for every record of the component up front (`Need`). The source only asserts `sizeDistrib < capacityDistrib` after each literal (line 209), and the growth of `distrib` is not part of this model.
- SizePlan.ComputeNeededBytes: the truncation of the fixed-width byte count `1 + ((nbBitEltVar * component.size() - 1) >> 3)` from `size_t` to the `unsigned` field `nbByteStoreVar` (line 337) is not modelled. Neither is the 32-bit wrap-around of `cptLitFormula`, of `nbBitStoreLit * ((cptDistrib << 1) + cptLitFormula)` and of `totalByte` (lines 347-362). These values are unbounded naturals here. For example, a component of 2^30 variables whose largest variable is at least 2^31 needs 2^32 fixed-width bytes. The source truncates that count to 0 and keeps fixed mode; the model chooses the bitmap.
- ClauseSegment.BlockStarts: 32-bit wrap-around of `offSet` and `m_memoryPosWrtClauseSize` (lines 473-486) is not modelled. The bit offsets are unbounded.
- ClauseSegment.ClauseOffsets: 32-bit wrap-around of `m_offsetClauses` (lines 485-511) is not modelled.
- BucketManager.BucketManagerCnfCl.StoreFormula: it sizes the key with `ComputeNeededBytesCorrected`, not with `computeNeededBytes` as written (line 530). When the largest variable is a multiple of 8, the key therefore differs from the program's: a bitmap one byte longer, or fixed-width fields where the source's too-short bitmap was chosen. See Findings.
- KeyStore.StoreKey: the same corrected plan as `StoreFormula`.
- VariableSegment.StoreVariables: requires a plan with room for every variable (`VarSegmentFits`). The source's own plan can violate this, as the finding below shows.
- `realSizeDistrib` is returned by `collectDistrib` (modulo 2^32), but `storeFormula` ignores it, as the source does.
- Concurrency: none in the core. An instance is used by one caller at a time.

## Findings

| source | as written | input that shows it | evidently intended | confidence | as-written member | corrected member |
|---|---|---|---|---|---|---|
| src/caching/cnf/BucketManagerCnfCl.hpp:338 | the bitmap is sized `1 + ((back - 1) >> 3)` bytes, but line 426 sets bit `v & 7` of byte `v >> 3`, so variable `back` lands in byte `back >> 3`, one past the segment when `back % 8 == 0` | component `1..8`: the bitmap (1 byte) beats fixed width (4 bytes), and variable 8 is written to byte 1, outside the variable segment | size the bitmap `1 + (back >> 3)` bytes, so that bit `back` fits | high; not executed | SizePlan.AsWrittenPlanOverflows | SizePlan.CorrectedPlanFits |
