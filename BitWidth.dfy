/**
 * The bit-width helper of the cache-key encoder: `nbBitUnsigned` computes the
 * number of bits needed to write a 32-bit unsigned value, by the classic
 * five-step binary search over the masks 0xFFFF0000, 0xFF00, 0xF0, 0xC, 0x2.
 */
module BitWidth {

  import opened Arith

  /**
   * The reference definition: the number of binary digits of v, with 0
   * written on one digit.
   */
  function BitLength(v: nat): (n: nat)
    ensures n >= 1
  {
    if v < 2 then 1 else 1 + BitLength(v / 2)
  }

  /** BitLength(v) is the least n >= 1 with v < 2^n. */
  lemma {:induction false} BitLengthBounds(v: nat)
    ensures v < Pow2(BitLength(v))
    ensures BitLength(v) == 1 || Pow2(BitLength(v) - 1) <= v
  {
    if v >= 2 {
      BitLengthBounds(v / 2);
    }
  }

  /** Any width that holds v is at least BitLength(v). */
  lemma BitLengthLeast(v: nat, n: nat)
    requires n >= 1 && v < Pow2(n)
    ensures BitLength(v) <= n
  {
    BitLengthBounds(v);
    if BitLength(v) > n {
      Pow2Monotone(n, BitLength(v) - 1);
    }
  }

  /** Stripping k low bits of a value that has them strips k off its length. */
  lemma {:induction false} BitLengthShift(v: nat, k: nat)
    requires v >= Pow2(k)
    ensures BitLength(v) == k + BitLength(Shr(v, k))
  {
    if k > 0 {
      DivDouble(v, Pow2(k - 1));
      assert v >= 2;
      assert v / 2 >= Pow2(k - 1) by {
        assert v >= 2 * Pow2(k - 1);
      }
      BitLengthShift(v / 2, k - 1);
    }
  }

  /** The shift amounts S[] of the source, indexed 0..4. */
  function Shift(i: nat): nat
    requires i < 5
  {
    [1, 2, 4, 8, 16][i]
  }

  /**
   * `v & b[i]` of the source is non-zero: b[i] is the mask of the bits
   * S[i] .. 2*S[i]-1, i.e. (2^S[i] - 1) << S[i].
   */
  predicate MaskHit(v: nat, i: nat)
    requires i < 5
  {
    (v / Pow2(Shift(i))) % Pow2(Shift(i)) != 0
  }

  /** The value after round i of the loop: shifted right by S[i] on a hit. */
  function RoundValue(v: nat, i: nat): nat
    requires i < 5
  {
    if MaskHit(v, i) then Shr(v, Shift(i)) else v
  }

  /**
   * r after round i: S[i] is or-ed in on a hit. The source writes `r |= S[i]`;
   * r only holds larger powers of two at that point, so the or is a sum.
   */
  function RoundBits(v: nat, r: nat, i: nat): nat
    requires i < 5
  {
    if MaskHit(v, i) then r + Shift(i) else r
  }

  /** The unrolled loop `for (i = 4; i >= 0; i--)`, from round i down to round 0. */
  function Log2Loop(v: nat, r: nat, i: int): nat
    requires i < 5
    decreases i + 1
  {
    if i < 0 then r
    else Log2Loop(RoundValue(v, i), RoundBits(v, r, i), i - 1)
  }

  /** One step of the search on a value below 2^(2s): the mask test is v >= 2^s. */
  lemma MaskStep(v: nat, s: nat)
    requires v < Pow2(2 * s)
    ensures (v / Pow2(s)) % Pow2(s) != 0 <==> v >= Pow2(s)
    ensures v >= Pow2(s) ==> BitLength(v) == s + BitLength(Shr(v, s))
    ensures v >= Pow2(s) ==> v / Pow2(s) < Pow2(s)
  {
    var m := Pow2(s);
    Pow2Add(s, s);
    MaskTest(v, m);
    if v >= m {
      BitLengthShift(v, s);
    }
  }

  /** Below m*m, the digit of v in place m is non-zero exactly when v >= m. */
  lemma MaskTest(v: nat, m: nat)
    requires m > 0 && v < m * m
    ensures (v / m) % m != 0 <==> v >= m
    ensures v / m < m
  {
    DivBelow(v, m, m);
    DivBelow(v, m, 1);
    DivModUnique(v / m, m, 0, v / m);
  }

  lemma {:induction false} Log2LoopIsLength(v: nat, r: nat, i: int)
    requires -1 <= i < 5
    requires if i < 0 then v < 2 else v < Pow2(2 * Shift(i))
    ensures Log2Loop(v, r, i) == r + BitLength(v) - 1
    decreases i + 1
  {
    if i >= 0 {
      RoundStep(v, r, i);
      Log2LoopIsLength(RoundValue(v, i), RoundBits(v, r, i), i - 1);
    }
  }

  /**
   * One round on a value below 2^(2*S[i]) keeps r + BitLength(v) and leaves
   * a value below the bound of round i - 1.
   */
  lemma RoundStep(v: nat, r: nat, i: nat)
    requires i < 5 && v < Pow2(2 * Shift(i))
    ensures r + BitLength(v) == RoundBits(v, r, i) + BitLength(RoundValue(v, i))
    ensures if i - 1 < 0 then RoundValue(v, i) < 2 else RoundValue(v, i) < Pow2(2 * Shift(i - 1))
  {
    var s := Shift(i);
    MaskStep(v, s);
    if i == 0 {
      assert Pow2(s) == 2;
    } else {
      assert 2 * Shift(i - 1) == s;
    }
  }

  /**
   * nbBitUnsigned: the number of bits needed to write v, i.e. the least
   * n >= 1 with v < 2^n (so 1 for v = 0, and 2^(n-1) <= v < 2^n otherwise).
   */
  function NbBitUnsigned(v: nat): (n: nat)
    requires v < TWO_POW_32
    ensures n >= 1 && v < Pow2(n)
    ensures v == 0 ==> n == 1
    ensures v > 0 ==> Pow2(n - 1) <= v
    ensures n == BitLength(v)
  {
    Pow2Constants();
    Log2LoopIsLength(v, 0, 4);
    BitLengthBounds(v);
    Log2Loop(v, 0, 4) + 1
  }

  /** No smaller width than nbBitUnsigned(v) can hold v. */
  lemma NbBitUnsignedLeast(v: nat, m: nat)
    requires v < TWO_POW_32
    requires 1 <= m < NbBitUnsigned(v)
    ensures Pow2(m) <= v
  {
    Pow2Monotone(m, NbBitUnsigned(v) - 1);
  }

  /** A larger value never needs fewer bits. */
  lemma {:induction false} BitLengthMonotone(a: nat, b: nat)
    requires a <= b
    ensures BitLength(a) <= BitLength(b)
  {
    if a >= 2 {
      BitLengthMonotone(a / 2, b / 2);
    }
  }
}
