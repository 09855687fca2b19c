/**
 * Bits of naturals, the bitwise or of bytes, and the bit layout of the
 * encoder's output: a byte buffer read as a stream of bits, each byte from
 * its high bit down, and the place where each bit of a value written by the
 * bit cursor lands.
 */
module Bits {
  import opened Arith

  type byte = x: int | 0 <= x < 256

  /** Bit k of x (bit 0 is the lowest). */
  predicate Bit(x: nat, k: nat)
  {
    (x / Pow2(k)) % 2 == 1
  }

  lemma BitZero(x: nat)
    ensures Bit(x, 0) == (x % 2 == 1)
  {}

  lemma BitSucc(x: nat, k: nat)
    ensures Bit(x, k + 1) == Bit(x / 2, k)
  {
    DivDouble(x, Pow2(k));
  }

  /** A value below 2^w has no bit at w or above. */
  lemma BitHigh(x: nat, w: nat, k: nat)
    requires x < Pow2(w) && w <= k
    ensures !Bit(x, k)
  {
    Pow2Monotone(w, k);
    DivBelow(x, Pow2(k), 1);
  }

  /** Shifting right by r: `v >> r`. */
  lemma BitDiv(v: nat, r: nat, j: nat)
    ensures Bit(Shr(v, r), j) == Bit(v, j + r)
  {
    DivDiv(v, r, j);
  }

  lemma ModHalf(v: nat, r: nat)
    requires r >= 1
    ensures (v % Pow2(r)) / 2 == (v / 2) % Pow2(r - 1)
  {
    var a := Pow2(r - 1);
    var q, m := v / Pow2(r), v % Pow2(r);
    assert v == q * (2 * a) + m;
    assert v == (q * a) * 2 + m;
    DivModUnique(v, 2, q * a + m / 2, m % 2);
    DivBelow(m, 2, a);
    DivModUnique(v / 2, a, q, m / 2);
  }

  lemma ModParity(v: nat, r: nat)
    requires r >= 1
    ensures (v % Pow2(r)) % 2 == v % 2
  {
    var a := Pow2(r - 1);
    var q, m := v / Pow2(r), v % Pow2(r);
    assert v == (q * a) * 2 + m;
    DivModUnique(v, 2, q * a + m / 2, m % 2);
  }

  /** Masking with 2^r - 1: `v & ((1 << r) - 1)`. */
  lemma {:induction false} BitMod(v: nat, r: nat, j: nat)
    ensures Bit(v % Pow2(r), j) == (j < r && Bit(v, j))
  {
    var m := v % Pow2(r);
    if r == 0 {
      assert m == 0;
      assert m / Pow2(j) == 0;
    } else if j == 0 {
      ModParity(v, r);
      BitZero(m);
      BitZero(v);
    } else {
      BitSucc(m, j - 1);
      ModHalf(v, r);
      assert Bit(m, j) == Bit((v / 2) % Pow2(r - 1), j - 1);
      BitMod(v / 2, r - 1, j - 1);
      BitSucc(v, j - 1);
    }
  }

  /** Shifting left by s: `x << s`. */
  lemma {:induction false} BitMul(x: nat, s: nat, j: nat)
    ensures Bit(x * Pow2(s), j) == (j >= s && Bit(x, j - s))
  {
    if s > 0 {
      var y := x * Pow2(s - 1);
      assert x * Pow2(s) == 2 * y;
      BitMul(x, s - 1, if j == 0 then 0 else j - 1);
      if j == 0 {
        BitZero(2 * y);
      } else {
        BitSucc(2 * y, j - 1);
        assert (2 * y) / 2 == y;
      }
    }
  }

  /** `v & ((1 << r) - 1)` */
  function Mask(v: nat, r: nat): nat
  {
    v % Pow2(r)
  }

  /** `v << s` */
  function Shl(v: nat, s: nat): nat
  {
    v * Pow2(s)
  }

  /** The bitwise or of the low w bits of a and b. */
  function Or(a: nat, b: nat, w: nat): (r: nat)
    ensures r < Pow2(w)
  {
    if w == 0 then 0
    else (if a % 2 == 1 || b % 2 == 1 then 1 else 0) + 2 * Or(a / 2, b / 2, w - 1)
  }

  lemma {:induction false} OrBit(a: nat, b: nat, w: nat, k: nat)
    requires k < w
    ensures Bit(Or(a, b, w), k) == (Bit(a, k) || Bit(b, k))
  {
    var r := Or(a, b, w);
    var rest := Or(a / 2, b / 2, w - 1);
    assert r == (if a % 2 == 1 || b % 2 == 1 then 1 else 0) + 2 * rest;
    if k == 0 {
      BitZero(r); BitZero(a); BitZero(b);
    } else {
      BitSucc(r, k - 1); BitSucc(a, k - 1); BitSucc(b, k - 1);
      assert r / 2 == rest;
      OrBit(a / 2, b / 2, w - 1, k - 1);
    }
  }

  /** The bitwise or of two bytes: `*p |= x`. */
  function OrByte(a: byte, x: nat): (r: byte)
    ensures forall k :: 0 <= k < 8 ==> (Bit(r, k) <==> Bit(a, k) || Bit(x, k))
  {
    Pow2Constants();
    forall k | 0 <= k < 8
      ensures Bit(Or(a, x, 8), k) <==> Bit(a, k) || Bit(x, k)
    {
      OrBit(a, x, 8, k);
    }
    Or(a, x, 8)
  }

  /**
   * Bit t of the buffer read as a stream: byte t / 8, counted from its high
   * bit down.
   */
  predicate StreamBit(s: seq<byte>, t: nat)
    requires t < 8 * |s|
  {
    Bit(s[t / 8], 7 - t % 8)
  }

  /** No bit of the window [q, q + n) is set. */
  predicate WindowClear(s: seq<byte>, q: nat, n: nat)
    requires q + n <= 8 * |s|
  {
    forall t :: q <= t < q + n ==> !StreamBit(s, t)
  }

  /** Stream position of the bit cursor at byte p with `remaining` unwritten bits. */
  function Pos(p: nat, remaining: nat): nat
    requires remaining <= 8
  {
    8 * p + 8 - remaining
  }

  /**
   * Where bit i of an n-bit value written at stream position q lands. A value
   * that fits in the rest of the current byte is written there high bit
   * first; otherwise its low bits fill the rest of the byte and the bits
   * above them continue at the next byte.
   */
  function Loc(q: nat, n: nat, i: nat): (t: nat)
    requires i < n
    ensures q <= t < q + n
    decreases n
  {
    var r := 8 - q % 8;
    if n < r then q + (n - 1 - i)
    else if i < r then q + (r - 1 - i)
    else Loc(q + r, n - r, i - r)
  }

  /** s' differs from s at most in the stream bits [lo, hi). */
  predicate SameOutside(s: seq<byte>, s': seq<byte>, lo: nat, hi: nat)
  {
    |s'| == |s| && forall t :: 0 <= t < 8 * |s| && !(lo <= t < hi) ==> StreamBit(s', t) == StreamBit(s, t)
  }

  /**
   * Bits 0..k-1 of the n-bit value v, written at stream position q, are in
   * place in s (and inside [q, q + k)).
   */
  predicate Placed(s: seq<byte>, q: nat, n: nat, k: nat, v: nat)
    requires k <= n && q + n <= 8 * |s|
  {
    forall i :: 0 <= i < k ==> q <= Loc(q, n, i) < q + k && StreamBit(s, Loc(q, n, i)) == Bit(v, i)
  }

  /** Past bit k, the layout is that of the (n-k)-bit rest written at q + k. */
  predicate LocShifted(q: nat, n: nat, k: nat)
    requires k <= n
  {
    forall i :: k <= i < n ==> Loc(q, n, i) == Loc(q + k, n - k, i - k)
  }

  /** The low m bits of the n-bit value at stream position q. */
  function ReadLow(s: seq<byte>, q: nat, n: nat, m: nat): nat
    requires m <= n && q + n <= 8 * |s|
  {
    if m == 0 then 0
    else ReadLow(s, q, n, m - 1) + (if StreamBit(s, Loc(q, n, m - 1)) then Pow2(m - 1) else 0)
  }

  /** The decoder: the n-bit value the bit cursor wrote at stream position q. */
  function Read(s: seq<byte>, q: nat, n: nat): nat
    requires q + n <= 8 * |s|
  {
    ReadLow(s, q, n, n)
  }

  /** v mod 2^m is v mod 2^(m-1) plus bit m-1. */
  lemma ModSplit(v: nat, m: nat)
    requires m >= 1
    ensures v % Pow2(m) == v % Pow2(m - 1) + (if Bit(v, m - 1) then Pow2(m - 1) else 0)
  {
    var a := Pow2(m - 1);
    var q, rr := v / (2 * a), v % (2 * a);
    assert v == q * (2 * a) + rr;
    var h, l := rr / a, rr % a;
    DivBelow(rr, a, 2);
    assert rr == h * a + l;
    assert v == (2 * q + h) * a + l;
    DivModUnique(v, a, 2 * q + h, l);
    DivModUnique(2 * q + h, 2, q, h);
  }

  /** The decoder returns every bit it finds in the window's places. */
  lemma {:induction false} ReadLowBits(s: seq<byte>, q: nat, n: nat, m: nat, v: nat)
    requires m <= n && q + n <= 8 * |s|
    requires forall i :: 0 <= i < m ==> StreamBit(s, Loc(q, n, i)) == Bit(v, i)
    ensures ReadLow(s, q, n, m) == v % Pow2(m)
  {
    if m > 0 {
      ReadLowBits(s, q, n, m - 1, v);
      ModSplit(v, m);
    }
  }

  /** Bits outside a window do not change what is read from it. */
  lemma {:induction false} ReadLowFrame(s: seq<byte>, s': seq<byte>, q: nat, n: nat, m: nat)
    requires m <= n && q + n <= 8 * |s| && |s| == |s'|
    requires forall t :: q <= t < q + n ==> StreamBit(s, t) == StreamBit(s', t)
    ensures ReadLow(s, q, n, m) == ReadLow(s', q, n, m)
  {
    if m > 0 {
      ReadLowFrame(s, s', q, n, m - 1);
    }
  }

  lemma ReadFrame(s: seq<byte>, s': seq<byte>, q: nat, n: nat)
    requires q + n <= 8 * |s| && |s| == |s'|
    requires forall t :: q <= t < q + n ==> StreamBit(s, t) == StreamBit(s', t)
    ensures Read(s, q, n) == Read(s', q, n)
  {
    ReadLowFrame(s, s', q, n, n);
  }

  /** A value below 2^n is read back from a window holding its bits. */
  lemma ReadBits(s: seq<byte>, q: nat, n: nat, v: nat)
    requires q + n <= 8 * |s| && v < Pow2(n)
    requires forall i :: 0 <= i < n ==> StreamBit(s, Loc(q, n, i)) == Bit(v, i)
    ensures Read(s, q, n) == v
  {
    ReadLowBits(s, q, n, n, v);
    DivModUnique(v, Pow2(n), 0, v);
  }

  /** `1 << k` has exactly bit k set. */
  lemma BitPow2(k: nat, j: nat)
    ensures Bit(Pow2(k), j) <==> j == k
  {
    BitMul(1, k, j);
    if j > k {
      BitHigh(1, 1, j - k);
    }
  }

  lemma BitOfZero(k: nat)
    ensures !Bit(0, k)
  {}

  /** Two values below 2^w with the same bits are equal. */
  lemma {:induction false} BitsEqual(a: nat, b: nat, w: nat)
    requires a < Pow2(w) && b < Pow2(w)
    requires forall k :: 0 <= k < w ==> Bit(a, k) == Bit(b, k)
    ensures a == b
  {
    if w == 0 {
    } else {
      BitZero(a); BitZero(b);
      forall k | 0 <= k < w - 1
        ensures Bit(a / 2, k) == Bit(b / 2, k)
      {
        BitSucc(a, k); BitSucc(b, k);
      }
      DivBelow(a, 2, Pow2(w - 1));
      DivBelow(b, 2, Pow2(w - 1));
      BitsEqual(a / 2, b / 2, w - 1);
    }
  }

  /** Stream bit 8j + 7 - k is bit k of byte j. */
  lemma StreamBitOfByte(s: seq<byte>, j: nat, k: nat)
    requires j < |s| && k < 8
    ensures StreamBit(s, 8 * j + 7 - k) == Bit(s[j], k)
  {
    DivModUnique(8 * j + 7 - k, 8, j, 7 - k);
  }

  /** A byte whose stream bits did not change did not change. */
  lemma SameByte(s: seq<byte>, s': seq<byte>, j: nat)
    requires j < |s| == |s'|
    requires forall t :: 8 * j <= t < 8 * j + 8 ==> StreamBit(s, t) == StreamBit(s', t)
    ensures s[j] == s'[j]
  {
    forall k | 0 <= k < 8
      ensures Bit(s[j], k) == Bit(s'[j], k)
    {
      StreamBitOfByte(s, j, k);
      StreamBitOfByte(s', j, k);
    }
    Pow2Constants();
    BitsEqual(s[j], s'[j], 8);
  }
}
