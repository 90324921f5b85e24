/**
 * Powers of two, and products and quotients by a record size.  The latter are defined by
 * repeated addition, so that the proofs that use them never meet non-linear arithmetic.  The few
 * non-linear facts the number theory needs are lemmas of their own, applied by name.
 */
module Arith {
  /** n * size in specifications, where unfolding it gives sums only. */
  ghost function Times(n: nat, size: nat): nat {
    if n == 0 then 0 else Times(n - 1, size) + size
  }

  /** memory / size in specifications. */
  ghost function Fit(memory: nat, size: nat): nat
    requires size > 0
    decreases memory
  {
    if memory < size then 0 else 1 + Fit(memory - size, size)
  }

  lemma {:induction false} TimesIsProduct(n: nat, size: nat)
    ensures Times(n, size) == n * size
  {
    if n > 0 { TimesIsProduct(n - 1, size); }
  }

  /** The product, as the programs compute it. */
  function Mul(n: nat, size: nat): (p: nat)
    ensures p == Times(n, size)
  {
    TimesIsProduct(n, size);
    n * size
  }

  /** The quotient, as the programs compute it. */
  function Div(memory: nat, size: nat): (q: nat)
    requires size > 0
    ensures q == Fit(memory, size)
  {
    FitIsQuotient(memory, size);
    memory / size
  }

  lemma ProductMonotone(a: nat, b: nat, size: nat)
    requires a <= b
    ensures a * size <= b * size
  {
  }

  lemma QuotientUnique(m: nat, size: nat, q: nat)
    requires size > 0 && q * size <= m < (q + 1) * size
    ensures m / size == q
  {
    var r := m / size;
    assert r * size <= m < (r + 1) * size;
    if r < q { ProductMonotone(r + 1, q, size); }
    else if q < r { ProductMonotone(q + 1, r, size); }
  }

  lemma QuotientBelow(m: nat, size: nat, q: nat)
    requires size > 0 && m < q * size
    ensures m / size < q
  {
    var d: nat := m / size;
    assert d * size <= m;
    if d >= q { ProductMonotone(q, d, size); }
  }

  lemma {:induction false} FitIsQuotient(memory: nat, size: nat)
    requires size > 0
    ensures Fit(memory, size) == memory / size
    decreases memory
  {
    if memory < size {
      QuotientUnique(memory, size, 0);
    } else {
      FitIsQuotient(memory - size, size);
      var q := (memory - size) / size;
      assert q * size <= memory - size < (q + 1) * size;
      assert (q + 1) * size == q * size + size && (q + 2) * size == (q + 1) * size + size;
      QuotientUnique(memory, size, q + 1);
    }
  }

  lemma TimesNext(n: nat, size: nat)
    ensures Times(n + 1, size) == Times(n, size) + size
  {
  }

  lemma {:induction false} TimesMonotone(a: nat, b: nat, size: nat)
    requires a <= b
    ensures Times(a, size) <= Times(b, size)
    decreases b
  {
    if a < b { TimesMonotone(a, b - 1, size); }
  }

  lemma {:induction false} TimesSize(n: nat, s: nat, t: nat)
    requires s <= t
    ensures Times(n, s) <= Times(n, t)
  {
    if n > 0 { TimesSize(n - 1, s, t); }
  }

  lemma {:induction false} TimesOne(n: nat)
    ensures Times(n, 1) == n
  {
    if n > 0 { TimesOne(n - 1); }
  }

  lemma {:induction false} TimesAdd(a: nat, b: nat, size: nat)
    ensures Times(a + b, size) == Times(a, size) + Times(b, size)
  {
    if b > 0 { TimesAdd(a, b - 1, size); }
  }

  lemma {:induction false} TimesScale(n: nat, c: nat, size: nat)
    ensures Times(n, c * size) == c * Times(n, size)
  {
    if n > 0 {
      TimesScale(n - 1, c, size);
      assert c * (Times(n - 1, size) + size) == c * Times(n - 1, size) + c * size;
    }
  }

  lemma {:induction false} TimesTimes(n: nat, a: nat, b: nat)
    ensures Times(Times(n, a), b) == Times(n, Times(a, b))
  {
    if n > 0 {
      TimesTimes(n - 1, a, b);
      TimesAdd(Times(n - 1, a), a, b);
    }
  }

  lemma {:induction false} TimesCommute(n: nat, a: nat)
    ensures Times(n, a) == Times(a, n)
  {
    TimesIsProduct(n, a);
    TimesIsProduct(a, n);
  }

  /** What fits, fits. */
  lemma {:induction false} FitBound(memory: nat, size: nat)
    requires size > 0
    ensures Times(Fit(memory, size), size) <= memory
    decreases memory
  {
    if memory >= size {
      FitBound(memory - size, size);
    }
  }

  lemma {:induction false} FitSmaller(memory: nat, s: nat, t: nat)
    requires 0 < s <= t
    ensures Fit(memory, t) <= Fit(memory, s)
    decreases memory
  {
    if memory >= t {
      FitSmaller(memory - t, s, t);
      FitMonotone(memory - t, memory - s, s);
    }
  }

  lemma {:induction false} FitMonotone(a: nat, b: nat, s: nat)
    requires s > 0 && a <= b
    ensures Fit(a, s) <= Fit(b, s)
    decreases a
  {
    if a >= s { FitMonotone(a - s, b - s, s); }
  }

  /** An address that is a multiple of the record size names its record. */
  lemma {:induction false} SlotOfAddress(n: nat, size: nat)
    requires size > 0
    ensures Times(n, size) / size == n
  {
    TimesIsProduct(n, size);
    assert (n + 1) * size == n * size + size;
    QuotientUnique(n * size, size, n);
  }

  function Pow(b: nat, e: nat): nat {
    if e == 0 then 1 else b * Pow(b, e - 1)
  }

  lemma {:induction false} PowPositive(b: nat, e: nat)
    requires b > 0
    ensures Pow(b, e) > 0
  {
    if e > 0 { PowPositive(b, e - 1); }
  }

  function Pow2(n: nat): (p: nat)
    ensures p >= 1
  {
    if n == 0 then 1 else 2 * Pow2(n - 1)
  }

  lemma {:induction false} Pow2Monotone(a: nat, b: nat)
    requires a <= b
    ensures Pow2(a) <= Pow2(b)
    decreases b
  {
    if a < b {
      Pow2Monotone(a, b - 1);
    }
  }

  /** How often n can be halved before it is below 2. */
  function Log2(n: nat): nat {
    if n < 2 then 0 else 1 + Log2(n / 2)
  }

  lemma {:induction false} Log2Bounds(n: nat)
    requires n >= 1
    ensures Pow2(Log2(n)) <= n < 2 * Pow2(Log2(n))
  {
    if n >= 2 { Log2Bounds(n / 2); }
  }

  /** Powers of two are apart by a factor of two. */
  lemma {:induction false} Pow2Unique(n: nat, e: nat, m: nat)
    requires Pow2(m) <= n < 2 * Pow2(m) && Pow2(e) <= n < 2 * Pow2(e)
    ensures e == m
  {
    if e < m { Pow2Monotone(e + 1, m); }
    if m < e { Pow2Monotone(m + 1, e); }
  }

  lemma Pow2Of32()
    ensures Pow2(32) == 0x1_0000_0000
  {
    assert Pow2(8) == 0x100;
    assert Pow2(16) == 0x1_0000 by { assert Pow2(12) == 0x1000; }
    assert Pow2(24) == 0x100_0000 by { assert Pow2(20) == 0x10_0000; }
    assert Pow2(28) == 0x1000_0000;
  }

  lemma Commute(a: nat, b: nat)
    ensures a * b == b * a
  {
  }

  lemma Associate(a: nat, b: nat, c: nat)
    ensures a * b * c == a * (b * c)
  {
  }

  lemma Distribute(a: nat, b: nat, c: nat)
    ensures (a + b) * c == a * c + b * c
  {
  }

  lemma ModOf(x: nat, m: nat, q: nat, r: nat)
    requires m > 0 && x == q * m + r && r < m
    ensures x % m == r
  {
    assert (q + 1) * m == q * m + m;
    QuotientUnique(x, m, q);
    assert x == x / m * m + x % m;
  }

  lemma MiddleLast(a: nat, b: nat, c: nat)
    ensures a * b * c == a * c * b
  {
    assert a * b * c == a * (b * c) == a * (c * b);
  }

  lemma AddMultiple(p: nat, x: nat, y: nat)
    requires p > 0
    ensures (y * p + x) % p == x % p
  {
    var q := x / p;
    assert x == q * p + x % p;
    Distribute(y, q, p);
    ModOf(y * p + x, p, y + q, x % p);
  }

  /** Reducing a factor first changes nothing. */
  lemma MulMod(a: nat, b: nat, m: nat)
    requires m > 0
    ensures (a % m) * b % m == a * b % m
  {
    var q, r := a / m, a % m;
    var p := r * b;
    assert a == q * m + r;
    Distribute(q * m, r, b);
    MiddleLast(q, m, b);
    AddMultiple(m, p, q * b);
  }
}
