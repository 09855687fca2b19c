/**
 * Integer facts shared by the bit-width helper, the size planner and the
 * bit-packing writer: powers of two and Euclidean division by them.
 */
module Arith {

  /** 2 to the power n. */
  function Pow2(n: nat): (r: nat)
    ensures r >= 1
  {
    if n == 0 then 1 else 2 * Pow2(n - 1)
  }

  const TWO_POW_32: nat := 0x1_0000_0000

  lemma {:induction false} Pow2Add(a: nat, b: nat)
    ensures Pow2(a + b) == Pow2(a) * Pow2(b)
  {
    if a > 0 {
      Pow2Add(a - 1, b);
    }
  }

  lemma {:induction false} Pow2Monotone(a: nat, b: nat)
    requires a <= b
    ensures Pow2(a) <= Pow2(b)
  {
    if a < b {
      Pow2Monotone(a, b - 1);
    }
  }

  lemma Pow2Constants()
    ensures Pow2(1) == 2 && Pow2(2) == 4 && Pow2(3) == 8 && Pow2(4) == 16
    ensures Pow2(8) == 256 && Pow2(16) == 65536 && Pow2(32) == TWO_POW_32
  {
    assert Pow2(1) == 2;
    assert Pow2(2) == 4;
    assert Pow2(3) == 8;
    Pow2Add(2, 2);
    Pow2Add(4, 4);
    Pow2Add(8, 8);
    Pow2Add(16, 16);
  }

  lemma MulMonotone(a: int, b: int, m: int)
    requires a <= b && m >= 0
    ensures a * m <= b * m
  {}

  /** A non-zero multiple of m is at least m away from zero. */
  lemma MulAway(d: int, m: int)
    requires m >= 0
    ensures d >= 1 ==> d * m >= m
    ensures d <= -1 ==> d * m <= -m
  {}

  /** Euclidean division is determined by its quotient-remainder equation. */
  lemma DivModUnique(v: int, m: int, q: int, r: int)
    requires m > 0 && 0 <= r < m && v == q * m + r
    ensures v / m == q && v % m == r
  {
    var q0, r0 := v / m, v % m;
    assert v == q0 * m + r0;
    var d := q - q0;
    assert d * m == r0 - r;
    MulAway(d, m);
  }

  /** v / m < k exactly when v < k * m. */
  lemma DivBelow(v: nat, m: nat, k: nat)
    requires m > 0
    ensures v / m < k <==> v < k * m
  {
    var q, r := v / m, v % m;
    assert v == q * m + r;
    if q < k {
      MulMonotone(q + 1, k, m);
    } else {
      MulMonotone(k, q, m);
    }
  }

  /** Dividing by 2m is halving and then dividing by m. */
  lemma DivDouble(v: nat, m: nat)
    requires m >= 1
    ensures v / (2 * m) == (v / 2) / m
  {
    var q := (v / 2) / m;
    var r := (v / 2) % m;
    assert v / 2 == q * m + r;
    assert v == q * (2 * m) + (2 * r + v % 2);
    DivModUnique(v, 2 * m, q, 2 * r + v % 2);
  }

  /** Dividing by m and then by n is dividing by m * n. */
  lemma DivDivMul(v: nat, m: nat, n: nat)
    requires m > 0 && n > 0
    ensures v / m / n == v / (m * n)
  {
    var q, r := v / m / n, (v / m) % n;
    var s := v % m;
    assert v / m == q * n + r;
    assert v == (q * n + r) * m + s;
    assert v == q * (m * n) + (r * m + s);
    MulMonotone(r, n - 1, m);
    assert r * m + s < m * n;
    DivModUnique(v, m * n, q, r * m + s);
  }

  /** Dividing by 2^a and then by 2^b is dividing by 2^(a+b). */
  lemma DivDiv(v: nat, a: nat, b: nat)
    ensures v / Pow2(a) / Pow2(b) == v / Pow2(a + b)
  {
    Pow2Add(a, b);
    DivDivMul(v, Pow2(a), Pow2(b));
  }

  /** Dividing a natural by a positive number gives a natural no larger. */
  lemma DivNat(v: nat, m: nat)
    requires m >= 1
    ensures 0 <= v / m <= v
  {
    var q, r := v / m, v % m;
    assert v == q * m + r && 0 <= r < m;
    if q < 0 {
      MulAway(q, m);
    } else {
      MulMonotone(1, m, q);
    }
  }

  /** `v >> r` */
  function Shr(v: nat, r: nat): nat
  {
    DivNat(v, Pow2(r));
    v / Pow2(r)
  }

  /** Unsigned subtraction: reducing before subtracting gives the same remainder. */
  lemma ModSub(a: int, x: int, m: int)
    requires m > 0
    ensures ((a % m) - x) % m == (a - x) % m
  {
    var v, q := a % m - x, a / m;
    assert a - x == v + q * m;
    assert v == (v / m) * m + v % m;
    assert v + q * m == (v / m + q) * m + v % m;
    DivModUnique(v + q * m, m, v / m + q, v % m);
  }
}
