/**
 * Divisibility, primes and prime powers, as far as the predicted view sizes need them: a prime
 * that divides a product divides a factor, the exponents of a prime add up in products, and a
 * product of prime powers divides a number exactly when each of the powers does.
 */
module NumberTheory {
  import opened Arith

  ghost predicate Divides(d: nat, n: nat) {
    exists k: nat :: n == k * d
  }

  predicate Prime(p: nat) {
    p >= 2 && forall d :: 2 <= d < p ==> p % d != 0
  }

  // ---------------------------------------------------------------------------
  // Divisibility
  // ---------------------------------------------------------------------------

  lemma DividesMod(d: nat, n: nat)
    requires d > 0
    ensures Divides(d, n) <==> n % d == 0
  {
    if Divides(d, n) {
      var k: nat :| n == k * d;
      assert (k + 1) * d == k * d + d;
      QuotientUnique(n, d, k);
    }
    if n % d == 0 {
      assert n == n / d * d;
    }
  }

  lemma DividesProduct(d: nat, n: nat, c: nat)
    requires Divides(d, n)
    ensures Divides(d, c * n)
  {
    var k: nat :| n == k * d;
    assert c * n == (c * k) * d;
  }

  lemma DividesTrans(a: nat, b: nat, c: nat)
    requires Divides(a, b) && Divides(b, c)
    ensures Divides(a, c)
  {
    var k: nat :| c == k * b;
    DividesProduct(a, b, k);
  }

  lemma DividesDifference(d: nat, a: nat, b: nat)
    requires Divides(d, a) && Divides(d, b) && b <= a
    ensures Divides(d, a - b)
  {
    var j: nat :| a == j * d;
    var k: nat :| b == k * d;
    if j >= k {
      assert a - b == (j - k) * d;
    } else {
      assert (k - j) * d >= 0;
      assert a - b == 0 == 0 * d;
    }
  }

  lemma DividesSelf(d: nat, c: nat)
    ensures Divides(d, c * d)
  {
  }

  lemma DividesAtMost(d: nat, n: nat)
    requires Divides(d, n) && n > 0
    ensures 0 < d <= n
  {
    var k: nat :| n == k * d;
    assert k >= 1 by { assert 0 * d == 0; }
    assert d >= 1 by { assert k * 0 == 0; }
    ProductMonotone(1, k, d);
  }

  /** Cancelling a positive common factor. */
  lemma DividesCancel(c: nat, d: nat, n: nat)
    requires c > 0
    ensures Divides(c * d, c * n) <==> Divides(d, n)
  {
    if Divides(d, n) {
      var k: nat :| n == k * d;
      assert c * n == k * (c * d);
    }
    if Divides(c * d, c * n) {
      var k: nat :| c * n == k * (c * d);
      assert c * n == c * (k * d);
      SameFactor(c, n, k * d);
    }
  }

  lemma DivideBack(c: nat, x: nat)
    requires c > 0
    ensures c * x / c == x
  {
    assert c * x == x * c && (x + 1) * c == x * c + c;
    QuotientUnique(x * c, c, x);
  }

  lemma SameFactor(c: nat, x: nat, y: nat)
    requires c > 0 && c * x == c * y
    ensures x == y
  {
    DivideBack(c, x);
    DivideBack(c, y);
  }

  // ---------------------------------------------------------------------------
  // Primes
  // ---------------------------------------------------------------------------

  lemma PrimeDivisors(p: nat, d: nat)
    requires Prime(p) && Divides(d, p)
    ensures d == 1 || d == p
  {
    DividesAtMost(d, p);
    DividesMod(d, p);
  }

  /** The least positive multiplier that takes b to a multiple of q. */
  lemma {:induction false} LeastMultiplier(q: nat, b: nat, hi: nat) returns (m: nat)
    requires hi > 0 && Divides(q, hi * b)
    ensures m > 0 && Divides(q, m * b) && forall r :: 0 < r < m ==> !Divides(q, r * b)
    decreases hi
  {
    if r :| 0 < r < hi && Divides(q, r * b) {
      m := LeastMultiplier(q, b, r);
    } else {
      m := hi;
    }
  }

  /** It divides every such multiplier. */
  lemma LeastDivides(q: nat, b: nat, m: nat, x: nat)
    requires m > 0 && Divides(q, m * b) && (forall r :: 0 < r < m ==> !Divides(q, r * b)) && Divides(q, x * b)
    ensures Divides(m, x)
  {
    var c, r := x / m, x % m;
    assert x == c * m + r;
    assert x * b == c * (m * b) + r * b;
    DividesProduct(q, m * b, c);
    DividesDifference(q, x * b, c * (m * b));
    DividesMod(m, x);
  }

  /** A prime that divides a product divides one of the factors. */
  lemma PrimeDividesProduct(q: nat, a: nat, b: nat)
    requires Prime(q) && Divides(q, a * b)
    ensures Divides(q, a) || Divides(q, b)
  {
    DividesSelf(q, b);
    assert q * b == b * q;
    var m := LeastMultiplier(q, b, q);
    LeastDivides(q, b, m, q);
    LeastDivides(q, b, m, a);
    PrimeDivisors(q, m);
    assert 1 * b == b;
  }

  // ---------------------------------------------------------------------------
  // How often a prime divides
  // ---------------------------------------------------------------------------

  /** The exponent of q in n. */
  function Exponent(q: nat, n: nat): nat
    requires q >= 2 && n > 0
    decreases n
  {
    if n % q == 0 then
      SmallerQuotient(q, n);
      1 + Exponent(q, n / q)
    else 0
  }

  lemma SmallerQuotient(q: nat, n: nat)
    requires q >= 2 && n > 0 && n % q == 0
    ensures 0 < n / q < n && n == n / q * q
  {
    var k := n / q;
    assert n == k * q;
    assert k * q >= 2 * k by { ProductMonotone(2, q, k); assert k * q == q * k; }
  }

  lemma ExponentTimes(q: nat, n: nat)
    requires q >= 2 && n > 0
    ensures n * q > 0 && Exponent(q, n * q) == 1 + Exponent(q, n)
  {
    var m := n * q;
    assert m / q == n && m % q == 0 && m > 0 by {
      assert (n + 1) * q == m + q;
      QuotientUnique(m, q, n);
      ProductMonotone(1, n, q);
      DividesSelf(q, n);
      DividesMod(q, m);
    }
    assert Exponent(q, m) == 1 + Exponent(q, m / q);
  }

  lemma {:induction false} PowDividesIff(q: nat, n: nat, j: nat)
    requires q >= 2 && n > 0
    ensures Divides(Pow(q, j), n) <==> j <= Exponent(q, n)
    decreases j
  {
    if j == 0 {
      assert n == n * 1;
    } else {
      DividesMod(q, n);
      if n % q == 0 {
        SmallerQuotient(q, n);
        PowDividesIff(q, n / q, j - 1);
        DividesCancel(q, Pow(q, j - 1), n / q);
        assert n == q * (n / q);
      } else if Divides(Pow(q, j), n) {
        DividesSelf(q, Pow(q, j - 1));
        assert Pow(q, j - 1) * q == Pow(q, j);
        DividesTrans(q, Pow(q, j), n);
      }
    }
  }

  lemma ProductPositive(a: nat, b: nat)
    requires a > 0 && b > 0
    ensures a * b > 0
  {
    ProductMonotone(1, a, b);
  }

  lemma ExponentFactor(q: nat, a: nat, b: nat)
    requires q >= 2 && a > 0 && b > 0
    ensures a * q * b > 0 && b * (a * q) > 0 && a * b > 0
    ensures Exponent(q, a * q * b) == 1 + Exponent(q, a * b) == Exponent(q, b * (a * q))
    ensures Exponent(q, a * q) == 1 + Exponent(q, a)
  {
    ProductPositive(a, b);
    ExponentTimes(q, a);
    ExponentTimes(q, a * b);
    MiddleLast(a, q, b);
    Commute(b, a * q);
  }

  /** Exponents of a prime add up in products. */
  lemma {:induction false} ExponentProduct(q: nat, a: nat, b: nat)
    requires Prime(q) && a > 0 && b > 0
    ensures a * b > 0 && Exponent(q, a * b) == Exponent(q, a) + Exponent(q, b)
    decreases a + b
  {
    hide Exponent; hide Prime;
    PrimeAtLeastTwo(q);
    ProductPositive(a, b);
    DividesMod(q, a);
    DividesMod(q, b);
    if a % q == 0 {
      SmallerQuotient(q, a);
      var c := a / q;
      ExponentProduct(q, c, b);
      ExponentFactor(q, c, b);
    } else if b % q == 0 {
      SmallerQuotient(q, b);
      var c := b / q;
      ExponentProduct(q, a, c);
      ExponentFactor(q, c, a);
      assert a * c == c * a;
    } else {
      NeitherDivides(q, a, b);
    }
  }

  lemma PrimeAtLeastTwo(q: nat)
    requires Prime(q)
    ensures q >= 2
  {
  }

  lemma NeitherDivides(q: nat, a: nat, b: nat)
    requires Prime(q) && a > 0 && b > 0 && !Divides(q, a) && !Divides(q, b)
    ensures a * b > 0 && Exponent(q, a * b) == Exponent(q, a) == Exponent(q, b) == 0
  {
    ProductPositive(a, b);
    DividesMod(q, a);
    DividesMod(q, b);
    DividesMod(q, a * b);
    if Divides(q, a * b) { PrimeDividesProduct(q, a, b); }
  }

  // ---------------------------------------------------------------------------
  // Products of prime powers
  // ---------------------------------------------------------------------------

  datatype Factor = Factor(mlt: nat, exp: nat)

  function Product(f: seq<Factor>): nat {
    if f == [] then 1 else Product(f[..|f| - 1]) * Pow(f[|f| - 1].mlt, f[|f| - 1].exp)
  }

  /** Different bases, prime where the exponent is positive. */
  ghost predicate PrimePowers(f: seq<Factor>) {
    && (forall i :: 0 <= i < |f| && f[i].exp > 0 ==> Prime(f[i].mlt))
    && (forall i, j :: 0 <= i < j < |f| ==> f[i].mlt != f[j].mlt)
  }

  lemma {:induction false} ExponentPow(q: nat, p: nat, e: nat)
    requires Prime(q) && Prime(p)
    ensures Pow(p, e) > 0 && Exponent(q, Pow(p, e)) == if p == q then e else 0
  {
    PowPositive(p, e);
    if e == 0 {
      DividesMod(q, 1);
    } else {
      ExponentPow(q, p, e - 1);
      ExponentProduct(q, p, Pow(p, e - 1));
      ExponentPrime(q, p);
    }
  }

  lemma ExponentPrime(q: nat, p: nat)
    requires Prime(q) && Prime(p)
    ensures Exponent(q, p) == if p == q then 1 else 0
  {
    DividesMod(q, p);
    if p == q {
      assert q / q == 1 && q % q == 0;
      assert Exponent(q, 1) == 0;
    } else if p % q == 0 {
      PrimeDivisors(p, q);
    }
  }

  lemma {:induction false} ProductNonzero(f: seq<Factor>)
    requires PrimePowers(f)
    ensures Product(f) > 0
  {
    if f != [] {
      var n := |f| - 1;
      ProductNonzero(f[..n]);
      if f[n].exp > 0 { PowPositive(f[n].mlt, f[n].exp); }
      ProductPositive(Product(f[..n]), Pow(f[n].mlt, f[n].exp));
    }
  }

  /** The exponents of a product of prime powers are the ones given. */
  lemma {:induction false} ExponentOfProduct(f: seq<Factor>, q: nat)
    requires PrimePowers(f) && Prime(q)
    ensures Product(f) > 0
    ensures forall i :: 0 <= i < |f| && f[i].mlt == q ==> Exponent(q, Product(f)) == f[i].exp
    ensures (forall i :: 0 <= i < |f| ==> f[i].mlt != q) ==> Exponent(q, Product(f)) == 0
  {
    ProductNonzero(f);
    if f == [] {
      DividesMod(q, 1);
    } else {
      var n := |f| - 1;
      ExponentOfProduct(f[..n], q);
      assert forall i :: 0 <= i < n ==> f[..n][i] == f[i];
      if f[n].exp > 0 {
        ExponentPow(q, f[n].mlt, f[n].exp);
        ExponentProduct(q, Product(f[..n]), Pow(f[n].mlt, f[n].exp));
      } else {
        assert Product(f) == Product(f[..n]) * 1;
      }
    }
  }

  /** A product of prime powers divides k exactly when each power does. */
  lemma {:induction false} ProductDivides(f: seq<Factor>, k: nat)
    requires PrimePowers(f) && k > 0
    ensures Divides(Product(f), k) <==>
      forall i :: 0 <= i < |f| && f[i].exp > 0 ==> f[i].exp <= Exponent(f[i].mlt, k)
  {
    if f == [] {
      assert k == k * 1;
    } else {
      var n := |f| - 1;
      var a, q, e := Product(f[..n]), f[n].mlt, f[n].exp;
      ProductDivides(f[..n], k);
      assert forall i :: 0 <= i < n ==> f[..n][i] == f[i];
      if e == 0 {
        assert Product(f) == a * 1;
      } else {
        ExponentOfProduct(f[..n], q);
        CoprimeDivides(a, q, e, k);
      }
    }
  }

  /** q does not divide a: a and q^e divide k separately exactly when together. */
  lemma CoprimeDivides(a: nat, q: nat, e: nat, k: nat)
    requires Prime(q) && a > 0 && k > 0 && Exponent(q, a) == 0
    ensures Divides(a * Pow(q, e), k) <==> Divides(a, k) && e <= Exponent(q, k)
  {
    PowDividesIff(q, k, e);
    if Divides(a * Pow(q, e), k) {
      DividesSelf(a, Pow(q, e));
      DividesSelf(Pow(q, e), a);
      assert Pow(q, e) * a == a * Pow(q, e);
      DividesTrans(a, a * Pow(q, e), k);
      DividesTrans(Pow(q, e), a * Pow(q, e), k);
    }
    if Divides(a, k) && e <= Exponent(q, k) {
      var c: nat :| k == c * a;
      assert c > 0 by { assert 0 * a == 0; }
      ExponentProduct(q, c, a);
      PowDividesIff(q, c, e);
      DividesCancel(a, Pow(q, e), c);
      assert k == a * c;
    }
  }
}
