/** Fixed-width unsigned arithmetic of the C source, on natural numbers. */
module Bits {

  type Byte = x: int | 0 <= x < 256

  const DWORD_SIZE: nat := 0x1_0000_0000

  lemma DwordSize()
    ensures DWORD_SIZE == 0x1_0000_0000
  {
  }

  /** A `DWORD` subtraction, which wraps around. */
  function Sub32(a: nat, b: nat): (r: nat)
    requires a < DWORD_SIZE && b < DWORD_SIZE
    ensures b <= a ==> r == a - b
    ensures a < b ==> r == a + DWORD_SIZE - b
  {
    (a + DWORD_SIZE - b) % DWORD_SIZE
  }

  /** The bitwise `a & b`. */
  function And(a: nat, b: nat): nat
    decreases a
  {
    if a == 0 || b == 0 then 0
    else 2 * And(a / 2, b / 2) + (if a % 2 == 1 && b % 2 == 1 then 1 else 0)
  }

  /** The bitwise `a | b`. */
  function Or(a: nat, b: nat): nat
    decreases a + b
  {
    if a == 0 && b == 0 then 0
    else 2 * Or(a / 2, b / 2) + (if a % 2 == 1 || b % 2 == 1 then 1 else 0)
  }

  function Pow2(k: nat): (r: nat)
    ensures r >= 1
  {
    if k == 0 then 1 else 2 * Pow2(k - 1)
  }

  ghost predicate IsPow2(n: nat) {
    exists k: nat :: n == Pow2(k)
  }

  lemma Pow2Sum(i: nat, j: nat)
    ensures Pow2(i + j) == Pow2(i) * Pow2(j)
  {
    if i == 0 {
    } else {
      Pow2Sum(i - 1, j);
      assert Pow2(i + j) == 2 * Pow2(i + j - 1);
    }
  }

  /** Masking with `n - 1` is the remainder, for `n` a power of two. */
  lemma MaskIsMod(a: nat, n: nat)
    requires IsPow2(n)
    ensures n >= 1 && And(a, n - 1) == a % n
  {
    var k: nat :| n == Pow2(k);
    MaskPow(a, k, n);
  }

  lemma MaskPow(a: nat, k: nat, p: nat)
    requires p >= 1 && p == Pow2(k)
    ensures And(a, p - 1) == a % p
  {
    hide And, Pow2;
    DivMod(a, p);
    MaskLow(a / p, a % p, k, p);
  }

  lemma {:induction false} MaskLow(q: nat, r: nat, k: nat, p: nat)
    requires p == Pow2(k) && r < p
    ensures And(p * q + r, p - 1) == r
  {
    hide And;
    if k == 0 {
      OneBit(q);
    } else {
      var h := Pow2(k - 1);
      assert p == 2 * h;
      hide Pow2;
      MaskLow(q, r / 2, k - 1, h);
      MulAssoc(2, h, q);
      assert p * q + r == 2 * (h * q + r / 2) + r % 2;
      AndOdd(p * q + r, h - 1);
    }
  }

  lemma OneBit(q: nat)
    ensures And(q, 0) == 0
  {
  }

  lemma AndOdd(a: nat, m: nat)
    ensures And(a, 2 * m + 1) == 2 * And(a / 2, m) + a % 2
  {
    if a != 0 {
      assert (2 * m + 1) / 2 == m;
    }
  }

  lemma ModUnique(a: nat, n: nat, q: nat, r: nat)
    requires n >= 1 && a == n * q + r && r < n
    ensures a / n == q && a % n == r
  {
    var d := a / n - q;
    assert n * d == r - a % n by {
      assert a == n * (a / n) + a % n;
      assert n * (a / n) - n * q == n * d;
    }
  }

  /** The low digit and the next one. */
  lemma ModSplit(v: nat, m: nat, n: nat)
    requires m >= 1 && n >= 1
    ensures m * n >= 1
    ensures v % (m * n) == v % m + m * ((v / m) % n)
    ensures v / (m * n) == (v / m) / n
  {
    var a, r := v / m, v % m;
    DivMod(v, m);
    DivMod(a, n);
    Regroup(v, m, n, a, r, a / n, a % n);
    ModUnique(v, m * n, a / n, m * (a % n) + r);
  }

  lemma DivMod(v: nat, m: nat)
    requires m >= 1
    ensures v == m * (v / m) + v % m && v % m < m
  {
  }

  lemma Regroup(v: nat, m: nat, n: nat, a: nat, r: nat, b: nat, s: nat)
    requires m >= 1 && n >= 1
    requires v == m * a + r && a == n * b + s && r < m && s < n
    ensures m * n >= 1
    ensures v == (m * n) * b + (m * s + r)
    ensures m * s + r < m * n
  {
    MulDistributes(m, n * b, s);
    MulAssoc(m, n, b);
    MulDistributes(m, s, 1);
    MulMonotonic(m, s + 1, n);
  }

  lemma MulDistributes(m: nat, x: nat, y: nat)
    ensures m * (x + y) == m * x + m * y
  {
  }

  lemma MulAssoc(m: nat, n: nat, b: nat)
    ensures m * (n * b) == (m * n) * b
  {
  }

  lemma MulMonotonic(m: nat, x: nat, y: nat)
    requires x <= y
    ensures m * x <= m * y
  {
  }

  /** Or-ing a multiple of `p == Pow2(k)` keeps the low `k` bits. */
  lemma {:induction false} OrHigh(q: nat, r: nat, t: nat, k: nat, p: nat)
    requires p == Pow2(k) && r < p
    ensures Or(p * q + r, p * t) == p * Or(q, t) + r
  {
    hide Or;
    if k == 0 {
    } else {
      var h := Pow2(k - 1);
      assert p == 2 * h;
      hide Pow2;
      OrHigh(q, r / 2, t, k - 1, h);
      MulAssoc(2, h, q);
      MulAssoc(2, h, t);
      MulAssoc(2, h, Or(q, t));
      assert p * q + r == 2 * (h * q + r / 2) + r % 2;
      OrEven(p * q + r, h * t);
    }
  }

  lemma OrEven(a: nat, m: nat)
    ensures Or(a, 2 * m) == 2 * Or(a / 2, m) + a % 2
  {
  }

  lemma OrZero(a: nat)
    ensures Or(a, 0) == a && Or(0, a) == a
  {
  }

  lemma DivMonotonic(a: nat, b: nat, n: nat)
    requires n >= 1 && a <= b
    ensures a / n <= b / n
  {
    DivMod(a, n);
    DivMod(b, n);
    QuotientMonotonic(n, a / n, a % n, b / n, b % n);
  }

  lemma QuotientMonotonic(n: nat, q: nat, r: nat, p: nat, s: nat)
    requires r < n && s < n && n * q + r <= n * p + s
    ensures q <= p
  {
    assert p < q ==> n * (p + 1) <= n * q;
    assert n * (p + 1) == n * p + n;
  }

  lemma PredDiv(j: nat, n: nat)
    requires j > 0 && n >= 1
    ensures if j % n == 0 then j / n == (j - 1) / n + 1 else j / n == (j - 1) / n
  {
    DivMod(j - 1, n);
    var q, r := (j - 1) / n, (j - 1) % n;
    if r == n - 1 {
      MulDistributes(n, q, 1);
      ModUnique(j, n, q + 1, 0);
    } else {
      ModUnique(j, n, q, r + 1);
    }
  }
}
