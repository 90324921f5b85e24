/**
 * The prime list and the table of factorizations that adc.c builds before it predicts the view
 * sizes.  A factorization is a list of (prime, exponent) pairs that ends at the first entry 1; it
 * is found from the factorization of a smaller number by inserting the least prime divisor.
 */
module Factorizations {
  import opened Arith
  import opened NumberTheory

  // ---------------------------------------------------------------------------
  // Primes
  // ---------------------------------------------------------------------------

  /** s lists the primes below n in ascending order. */
  ghost predicate PrimeList(s: seq<nat>, n: nat) {
    && (forall i, j :: 0 <= i < j < |s| ==> s[i] < s[j])
    && (forall i :: 0 <= i < |s| ==> Prime(s[i]) && s[i] < n)
    && (forall x: nat :: Prime(x) && x < n ==> x in s)
  }

  /** Some prime below n has a square above n. */
  ghost predicate PrimeAbout(n: nat) {
    exists q: nat :: Prime(q) && q < n && n < q * q
  }

  /** So the trial divisions of every number from 8 up end inside the list found so far. */
  ghost predicate PrimesReach(mpr: nat) {
    forall n :: 8 <= n < mpr ==> PrimeAbout(n)
  }

  lemma LimitReached()
    ensures PrimesReach(100000)
  {
    SmallPrimes();
    assert 7 * 7 == 49 && 47 * 47 == 2209 && 317 * 317 == 100489;
    forall n | 8 <= n < 100000 ensures PrimeAbout(n) {
      var q := if n < 49 then 7 else if n < 2209 then 47 else 317;
      assert Prime(q) && q < n && n < q * q;
    }
  }

  lemma SmallPrimes()
    ensures Prime(2) && Prime(3) && Prime(5) && Prime(7) && Prime(47) && Prime(317)
    ensures !Prime(4) && !Prime(6)
  {
    assert 4 % 2 == 0 && 6 % 2 == 0;
    PrimeUpTo(47, 7);
    PrimeUpTo(317, 18);
  }

  lemma SquareMonotone(a: nat, b: nat)
    requires a <= b
    ensures a * a <= b * b
  {
    ProductMonotone(a, b, a);
    ProductMonotone(a, b, b);
    assert a * b == b * a;
  }

  lemma ProperFactor(k: nat, q: nat)
    requires q < k * q
    ensures k >= 2
  {
    if k < 2 { ProductMonotone(k, 1, q); }
  }

  lemma PrimeUpTo(p: nat, r: nat)
    requires p >= 2 && p < r * r
    requires forall d :: 2 <= d < r ==> p % d != 0
    ensures Prime(p)
  {
    if !Prime(p) {
      var d := LeastDivisor(p);
      if r <= d { SquareMonotone(r, d); }
    }
  }

  lemma {:induction false} LeastFrom(n: nat, d: nat) returns (q: nat)
    requires 2 <= d <= n && forall x :: 2 <= x < d ==> n % x != 0
    ensures 2 <= q <= n && n % q == 0 && forall x :: 2 <= x < q ==> n % x != 0
    decreases n - d
  {
    if n % d == 0 {
      q := d;
    } else {
      assert n % n == 0;
      q := LeastFrom(n, d + 1);
    }
  }

  /** The least divisor of a number that is not prime is a prime with a square at most the number. */
  lemma LeastDivisor(n: nat) returns (q: nat)
    requires n >= 2 && !Prime(n)
    ensures Prime(q) && n % q == 0 && q < n && q * q <= n
  {
    hide Prime;
    q := LeastFrom(n, 2);
    LeastIsPrime(n, q);
    var x := SomeDivisor(n);
    assert q <= x;
    var k := n / q;
    assert n == k * q;
    if k < q {
      ProperFactor(k, q);
      DividesSelf(k, q);
      assert n == q * k;
      DividesMod(k, n);
    }
    ProductMonotone(q, k, q);
  }

  lemma SomeDivisor(n: nat) returns (x: nat)
    requires n >= 2 && !Prime(n)
    ensures 2 <= x < n && n % x == 0
  {
    x :| 2 <= x < n && n % x == 0;
  }

  lemma LeastIsPrime(n: nat, q: nat)
    requires 2 <= q <= n && n % q == 0 && forall x :: 2 <= x < q ==> n % x != 0
    ensures Prime(q)
  {
    forall d | 2 <= d < q ensures q % d != 0 {
      if q % d == 0 {
        DividesMod(d, q);
        DividesMod(q, n);
        DividesTrans(d, q, n);
        DividesMod(d, n);
      }
    }
  }

  lemma BelowInList(s: seq<nat>, m: nat, j: nat, q: nat)
    requires PrimeList(s, m) && j < |s| && Prime(q) && q < s[j]
    ensures exists t :: 0 <= t < j && s[t] == q
  {
    var t :| 0 <= t < |s| && s[t] == q;
    assert t < j;
  }

  /** No prime of the list up to position j divides n, and the next one is too large. */
  lemma NoSmallDivisor(s: seq<nat>, m: nat, n: nat, j: nat)
    requires PrimeList(s, m) && n >= 2 && j < |s| && n < s[j] * s[j]
    requires forall t :: 0 <= t < j ==> n % s[t] != 0
    ensures Prime(n)
  {
    if !Prime(n) {
      var q := LeastDivisor(n);
      if s[j] <= q {
        SquareMonotone(s[j], q);
      } else {
        BelowInList(s, m, j, q);
      }
    }
  }

  lemma Remainder(n: nat, d: nat)
    requires d > 0
    ensures n - d * (n / d) == n % d
  {
    assert n == n / d * d + n % d;
  }

  lemma CompositeDivisor(n: nat, d: nat)
    requires 2 <= d && d * d <= n && n % d == 0
    ensures !Prime(n)
  {
    ProductMonotone(2, d, d);
    assert d < n;
  }

  /** The primes below mpr, found by trial division with the primes found before. */
  method ListFirstPrimes(mpr: nat, prlist: array<nat>) returns (prnum: nat)
    requires PrimesReach(mpr) && prlist.Length >= 4 && prlist.Length >= mpr
    modifies prlist
    ensures 4 <= prnum <= prlist.Length
    ensures PrimeList(prlist[..prnum], if mpr < 8 then 8 else mpr)
  {
    hide Prime;
    hide PrimeList;
    hide PrimeAbout;
    prlist[0], prlist[1], prlist[2], prlist[3] := 2, 3, 5, 7;
    prnum := 4;
    SmallPrimes();
    assert prlist[..4] == [2, 3, 5, 7];
    FirstPrimes();
    var nmb := 8;
    while nmb < mpr
      invariant 8 <= nmb && (nmb <= mpr || nmb == 8)
      invariant 4 <= prnum <= nmb - 4
      invariant prnum <= prlist.Length
      invariant PrimeList(prlist[..prnum], nmb)
    {
      var composed := TrialDivision(nmb, prlist, prnum);
      ghost var before := prlist[..prnum];
      if !composed {
        prlist[prnum] := nmb;
        prnum := prnum + 1;
        assert prlist[..prnum] == before + [nmb];
      }
      OneMore(before, nmb);
      nmb := nmb + 1;
    }
  }

  lemma FirstPrimes()
    ensures PrimeList([2, 3, 5, 7], 8)
  {
    SmallPrimes();
    var s: seq<nat> := [2, 3, 5, 7];
    forall x: nat | Prime(x) && x < 8 ensures x in s {
      assert x == 2 || x == 3 || x == 4 || x == 5 || x == 6 || x == 7;
      assert s[0] == 2 && s[1] == 3 && s[2] == 5 && s[3] == 7;
    }
  }

  lemma OneMore(s: seq<nat>, n: nat)
    requires PrimeList(s, n)
    ensures PrimeList(if Prime(n) then s + [n] else s, n + 1)
  {
    if Prime(n) {
      var u := s + [n];
      assert u[|s|] == n;
      forall x: nat | Prime(x) && x < n + 1 ensures x in u {
        if x < n {
          var t :| 0 <= t < |s| && s[t] == x;
          assert u[t] == x;
        }
      }
    }
  }

  method TrialDivision(nmb: nat, prlist: array<nat>, prnum: nat) returns (composed: bool)
    requires prnum <= prlist.Length && nmb >= 8 && PrimeAbout(nmb)
    requires PrimeList(prlist[..prnum], nmb)
    ensures composed <==> !Prime(nmb)
  {
    ghost var s := prlist[..prnum];
    ghost var q: nat :| Prime(q) && q < nmb && nmb < q * q;
    ghost var w :| 0 <= w < |s| && s[w] == q;
    composed := false;
    var j := 0;
    while prlist[j] * prlist[j] <= nmb
      invariant 0 <= j <= w
      invariant forall t :: 0 <= t < j ==> nmb % s[t] != 0
      decreases w - j
    {
      assert prlist[j] == s[j];
      Remainder(nmb, prlist[j]);
      if nmb - prlist[j] * (nmb / prlist[j]) == 0 {
        composed := true;
        CompositeDivisor(nmb, s[j]);
        return;
      }
      assert j != w;
      j := j + 1;
    }
    NoSmallDivisor(s, nmb, nmb, j);
  }

  // ---------------------------------------------------------------------------
  // Factor lists
  // ---------------------------------------------------------------------------

  /** Ascending primes with positive exponents. */
  ghost predicate Proper(f: seq<Factor>) {
    && (forall i, j :: 0 <= i < j < |f| ==> f[i].mlt < f[j].mlt)
    && (forall i :: 0 <= i < |f| ==> Prime(f[i].mlt) && f[i].exp > 0)
  }

  lemma ProperIsPrimePowers(f: seq<Factor>)
    requires Proper(f)
    ensures PrimePowers(f)
  {
  }

  /** The first k entries are the factorization of n, the rest is filled with 1. */
  ghost predicate FactoredAt(f: seq<Factor>, n: nat, k: nat) {
    && k < |f|
    && Proper(f[..k]) && Product(f[..k]) == n
    && (forall j :: k <= j < |f| ==> f[j].mlt == 1 && (n > 1 ==> f[j].exp == 0))
  }

  ghost predicate Factored(f: seq<Factor>, n: nat) {
    exists k: nat :: FactoredAt(f, n, k)
  }

  /** How many entries of an ascending list lie below p. */
  function Slot(d: seq<Factor>, p: nat): (c: nat)
    ensures c <= |d|
    ensures forall j :: 0 <= j < c ==> d[j].mlt < p
    ensures c < |d| ==> d[c].mlt >= p
  {
    if d == [] || d[0].mlt >= p then 0 else 1 + Slot(d[1..], p)
  }

  /** The factorization with one more factor p. */
  function Extended(d: seq<Factor>, p: nat): seq<Factor> {
    var c := Slot(d, p);
    if c < |d| && d[c].mlt == p then d[c := Factor(p, d[c].exp + 1)] else d[..c] + [Factor(p, 1)] + d[c..]
  }

  lemma {:induction false} ProductAppend(a: seq<Factor>, b: seq<Factor>)
    ensures Product(a + b) == Product(a) * Product(b)
  {
    hide Pow; hide Product;
    if b == [] {
      assert a + b == a;
      NoFactors();
    } else {
      var n := |b| - 1;
      var c := b[..n];
      ProductAppend(a, c);
      var ab := a + b;
      assert ab[..|ab| - 1] == a + c && ab[|ab| - 1] == b[n];
      LastFactor(ab);
      LastFactor(b);
      Associate(Product(a), Product(c), Pow(b[n].mlt, b[n].exp));
    }
  }

  lemma NoFactors()
    ensures Product([]) == 1
  {
  }

  lemma LastFactor(f: seq<Factor>)
    requires f != []
    ensures Product(f) == Product(f[..|f| - 1]) * Pow(f[|f| - 1].mlt, f[|f| - 1].exp)
  {
  }

  lemma ProductOne(x: Factor)
    ensures Product([x]) == Pow(x.mlt, x.exp)
  {
    var f := [x];
    assert f[..0] == [];
    assert Product(f) == 1 * Pow(x.mlt, x.exp);
  }

  lemma ProductSplit(d: seq<Factor>, c: nat)
    requires c <= |d|
    ensures Product(d) == Product(d[..c]) * Product(d[c..])
  {
    assert d == d[..c] + d[c..];
    ProductAppend(d[..c], d[c..]);
  }

  /** The shape of an extended list. */
  lemma ExtendedShape(d: seq<Factor>, p: nat)
    ensures var c := Slot(d, p); var a, b := d[..c], d[c..];
            Extended(d, p) == if b != [] && b[0].mlt == p then a + ([Factor(p, b[0].exp + 1)] + b[1..])
                              else a + ([Factor(p, 1)] + b)
  {
    hide Slot;
    var c := Slot(d, p);
    var a, b := d[..c], d[c..];
    if c < |d| && d[c].mlt == p {
      assert b[0] == d[c];
      ReplacedShape(d, c, Factor(p, d[c].exp + 1));
    } else {
      assert b != [] ==> b[0] == d[c];
      assert a + [Factor(p, 1)] + b == a + ([Factor(p, 1)] + b);
    }
  }

  lemma ReplacedShape(d: seq<Factor>, c: nat, x: Factor)
    requires c < |d|
    ensures d[c := x] == d[..c] + ([x] + d[c..][1..])
  {
  }

  lemma OneMoreFactor(b: seq<Factor>, p: nat)
    ensures Product([Factor(p, 1)] + b) == p * Product(b)
  {
    ProductOne(Factor(p, 1));
    ProductAppend([Factor(p, 1)], b);
    assert Pow(p, 1) == p * Pow(p, 0) == p;
  }

  lemma OneMorePower(b: seq<Factor>, p: nat)
    requires b != [] && b[0].mlt == p
    ensures Product([Factor(p, b[0].exp + 1)] + b[1..]) == p * Product(b)
  {
    hide Product;
    hide Pow;
    var x := b[0].exp;
    var z := b[1..];
    assert b == [Factor(p, x)] + z;
    FirstFactor(p, x, z);
    FirstFactor(p, x + 1, z);
    PowNext(p, x);
    Associate(p, Pow(p, x), Product(z));
  }

  lemma FirstFactor(p: nat, x: nat, z: seq<Factor>)
    ensures Product([Factor(p, x)] + z) == Pow(p, x) * Product(z)
  {
    hide Pow;
    ProductOne(Factor(p, x));
    ProductAppend([Factor(p, x)], z);
  }

  lemma PowNext(p: nat, x: nat)
    ensures Pow(p, x + 1) == p * Pow(p, x)
  {
  }

  /** Extending multiplies by p. */
  lemma ExtendedProduct(d: seq<Factor>, p: nat)
    ensures Product(Extended(d, p)) == p * Product(d)
  {
    hide Product;
    hide Extended;
    hide Pow;
    ExtendedShape(d, p);
    var c := Slot(d, p);
    var a, b := d[..c], d[c..];
    ProductSplit(d, c);
    if b != [] && b[0].mlt == p {
      OneMorePower(b, p);
      ProductAppend(a, [Factor(p, b[0].exp + 1)] + b[1..]);
    } else {
      OneMoreFactor(b, p);
      ProductAppend(a, [Factor(p, 1)] + b);
    }
    SwapFactor(Product(a), p, Product(b));
  }

  lemma SwapFactor(a: nat, p: nat, b: nat)
    ensures a * (p * b) == p * (a * b)
  {
    Associate(a, p, b);
    Associate(p, a, b);
  }

  /** Extending keeps the list a factorization. */
  lemma ExtendedProper(d: seq<Factor>, p: nat)
    requires Proper(d) && Prime(p)
    ensures Proper(Extended(d, p)) && |d| <= |Extended(d, p)| <= |d| + 1
  {
    hide Prime; hide Slot;
    var c := Slot(d, p);
    if c < |d| && d[c].mlt == p {
      assert Extended(d, p) == d[c := Factor(p, d[c].exp + 1)];
    } else {
      InsertedProper(d, p, c);
    }
  }

  lemma InsertedProper(d: seq<Factor>, p: nat, c: nat)
    requires Proper(d) && Prime(p) && c <= |d| && (c < |d| ==> d[c].mlt > p)
    requires forall j :: 0 <= j < c ==> d[j].mlt < p
    ensures Proper(d[..c] + [Factor(p, 1)] + d[c..])
  {
    hide Prime;
    var e := d[..c] + [Factor(p, 1)] + d[c..];
    forall i | 0 <= i < |e| ensures e[i] == if i < c then d[i] else if i == c then Factor(p, 1) else d[i - 1] {
    }
    assert forall j :: c <= j < |d| ==> d[j].mlt > p;
  }

  class Factorization {
    const mlt: array<nat>
    const exp: array<nat>
    const dim: nat

    constructor (dim: nat)
      ensures this.dim == dim && mlt.Length == exp.Length == (if dim == 0 then 1 else dim)
      ensures fresh(mlt) && fresh(exp) && Sized()
      ensures forall j :: 0 <= j < mlt.Length ==> mlt[j] == 1 && exp[j] == 0
    {
      this.dim := dim;
      var len := if dim == 0 then 1 else dim;
      mlt := new nat[len](_ => 1);
      exp := new nat[len](_ => 0);
    }

    predicate Sized() {
      mlt != exp && mlt.Length == exp.Length >= dim
    }

    ghost function Factors(): (f: seq<Factor>)
      requires Sized()
      reads mlt, exp
      ensures |f| == dim && forall j :: 0 <= j < dim ==> f[j] == Factor(mlt[j], exp[j])
    {
      Zip(mlt[..dim], exp[..dim])
    }
  }

  function Zip(m: seq<nat>, e: seq<nat>): (f: seq<Factor>)
    requires |m| == |e|
    ensures |f| == |m| && forall j :: 0 <= j < |m| ==> f[j] == Factor(m[j], e[j])
  {
    seq(|m|, j requires 0 <= j < |m| => Factor(m[j], e[j]))
  }

  /** The table entry f holds the factorization of n. */
  ghost predicate Holds(f: Factorization?, n: nat)
    reads f, if f == null then {} else {f.mlt, f.exp}
  {
    f != null && f.Sized() && Factored(f.Factors(), n)
  }

  // ---------------------------------------------------------------------------
  // ExtendFactors
  // ---------------------------------------------------------------------------

  /** Entry j of the output after the first i entries of d were copied. */
  function Copied(d: seq<Factor>, p: nat, i: nat, j: nat): Factor
    requires i <= |d|
  {
    var c := Slot(d, p);
    var used := c < |d| && d[c].mlt == p;
    if j < i && j < c then d[j]
    else if used then (if j < i then (if j == c then Factor(p, d[c].exp + 1) else d[j]) else Factor(1, 0))
    else if c < j <= i then d[j - 1]
    else Factor(1, 0)
  }

  lemma CopiedNone(d: seq<Factor>, p: nat)
    ensures forall j: nat :: Copied(d, p, 0, j) == Factor(1, 0)
  {
  }

  /** Where the next entry goes, and what is written there. */
  lemma CopiedNext(d: seq<Factor>, p: nat, i: nat)
    requires Proper(d) && i < |d|
    ensures var c := Slot(d, p); var used := c < |d| && d[c].mlt == p;
            var t := if i < c || used then i else i + 1;
            && (d[i].mlt < p <==> i < c)
            && (d[i].mlt == p <==> i == c && used)
            && Copied(d, p, i + 1, t) == (if i == c && used then Factor(p, d[i].exp + 1) else d[i])
            && (forall j: nat :: j != t ==> Copied(d, p, i + 1, j) == Copied(d, p, i, j))
  {
    hide Prime; hide Slot;
  }

  lemma CopiedAll(d: seq<Factor>, p: nat, j: nat)
    ensures var c := Slot(d, p); var used := c < |d| && d[c].mlt == p;
            && (j == c && !used ==> j < |Extended(d, p)| && Extended(d, p)[j] == Factor(p, 1))
            && (j != c || used ==> Copied(d, p, |d|, j) == if j < |Extended(d, p)| then Extended(d, p)[j] else Factor(1, 0))
  {
    hide Slot;
    var c := Slot(d, p);
    if c < |d| && d[c].mlt == p {
      assert Extended(d, p) == d[c := Factor(p, d[c].exp + 1)];
    } else {
      InsertedAt(d, c, Factor(p, 1), j);
    }
  }

  lemma InsertedAt(d: seq<Factor>, c: nat, x: Factor, j: nat)
    requires c <= |d|
    ensures var e := d[..c] + [x] + d[c..];
      |e| == |d| + 1 && (j < |e| ==> e[j] == if j < c then d[j] else if j == c then x else d[j - 1])
  {
  }

  /** What a factored list looks like up to its end mark. */
  lemma FactoredFacts(f: seq<Factor>, n: nat, k: nat)
    requires FactoredAt(f, n, k)
    ensures k < |f| && f[k].mlt == 1 && Proper(f[..k]) && Product(f[..k]) == n
    ensures forall j :: 0 <= j < k ==> f[j].mlt != 1
  {
    forall j | 0 <= j < k ensures f[j].mlt != 1 {
      assert f[..k][j] == f[j];
    }
  }

  /** Writes the factorization of nmb, one factor firstdiv more than that of nmb / firstdiv. */
  method ExtendFactors(nmb: nat, firstdiv: nat, nmbfct: Factorization, fctlist: array<Factorization?>)
    requires Prime(firstdiv) && nmb > 0 && nmb % firstdiv == 0
    requires nmb / firstdiv < fctlist.Length && Holds(fctlist[nmb / firstdiv], nmb / firstdiv)
    requires fctlist[nmb / firstdiv].mlt != nmbfct.mlt && fctlist[nmb / firstdiv].exp != nmbfct.exp
    requires fctlist[nmb / firstdiv].mlt != nmbfct.exp && fctlist[nmb / firstdiv].exp != nmbfct.mlt
    requires nmbfct.Sized() && nmbfct.dim > fctlist[nmb / firstdiv].dim
    requires forall j :: 0 <= j < nmbfct.dim ==> nmbfct.mlt[j] == 1 && nmbfct.exp[j] == 0
    modifies nmbfct.mlt, nmbfct.exp
    ensures Factored(nmbfct.Factors(), nmb)
  {
    hide Prime;
    hide Proper;
    hide Product;
    hide Extended;
    hide Copied;
    hide FactoredAt;
    hide Slot;
    PrimeAtLeastTwo(firstdiv);
    var divfct := fctlist[nmb / firstdiv];
    ghost var p := firstdiv;
    ghost var k: nat :| FactoredAt(divfct.Factors(), nmb / firstdiv, k);
    ghost var all := divfct.Factors();
    FactoredFacts(all, nmb / firstdiv, k);
    ghost var d := all[..k];
    ghost var c := Slot(d, p);
    ghost var used := c < |d| && d[c].mlt == p;
    CopiedNone(d, p);
    var fdivused := false;
    var multnum := 0;
    var i := 0;
    while i < divfct.dim
      invariant 0 <= i <= k
      invariant divfct.Factors() == all
      invariant multnum == if i < c then i else c
      invariant fdivused <==> c < i && used
      invariant forall j :: 0 <= j < nmbfct.dim ==> Factor(nmbfct.mlt[j], nmbfct.exp[j]) == Copied(d, p, i, j)
    {
      if divfct.mlt[i] == 1 {
        assert i == k;
        if !fdivused {
          nmbfct.mlt[multnum] := firstdiv;
          nmbfct.exp[multnum] := 1;
        }
        break;
      }
      assert i < k && all[i] == d[i] == Factor(divfct.mlt[i], divfct.exp[i]);
      CopiedNext(d, p, i);
      if divfct.mlt[i] < firstdiv {
        nmbfct.mlt[i] := divfct.mlt[i];
        nmbfct.exp[i] := divfct.exp[i];
        multnum := multnum + 1;
      } else if divfct.mlt[i] == firstdiv {
        nmbfct.mlt[i] := divfct.mlt[i];
        nmbfct.exp[i] := divfct.exp[i] + 1;
        fdivused := true;
      } else {
        var j := i;
        if !fdivused { j := i + 1; }
        nmbfct.mlt[j] := divfct.mlt[i];
        nmbfct.exp[j] := divfct.exp[i];
      }
      i := i + 1;
    }
    forall j | 0 <= j < nmbfct.dim
      ensures nmbfct.Factors()[j] == if j < |Extended(d, p)| then Extended(d, p)[j] else Factor(1, 0)
    {
      CopiedAll(d, p, j);
    }
    ExtendedIsFactored(nmbfct.Factors(), d, p, nmb);
  }

  lemma ExtendedIsFactored(f: seq<Factor>, d: seq<Factor>, p: nat, n: nat)
    requires Proper(d) && Prime(p) && |d| + 1 < |f| && n > 0 && n % p == 0 && Product(d) == n / p
    requires forall j :: 0 <= j < |f| ==> f[j] == if j < |Extended(d, p)| then Extended(d, p)[j] else Factor(1, 0)
    ensures Factored(f, n)
  {
    hide Extended;
    hide Product;
    hide Proper;
    hide Prime;
    var e := Extended(d, p);
    ExtendedProper(d, p);
    ExtendedProduct(d, p);
    assert f[..|e|] == e;
    DivisorTimes(n, p);
    assert FactoredAt(f, n, |e|);
  }

  lemma DivisorTimes(n: nat, p: nat)
    requires Prime(p) && n % p == 0
    ensures p * (n / p) == n
  {
  }

  // ---------------------------------------------------------------------------
  // GetFactorization
  // ---------------------------------------------------------------------------

  /** The length of n in binary digits. */
  function Bits(n: nat): nat {
    if n == 0 then 0 else 1 + Bits(n / 2)
  }

  lemma {:induction false} BitsMonotone(m: nat, n: nat)
    requires m <= n
    ensures Bits(m) <= Bits(n)
  {
    if m > 0 {
      BitsMonotone(m / 2, n / 2);
    }
  }

  /** A proper quotient has fewer binary digits. */
  lemma QuotientBits(n: nat, d: nat)
    requires d >= 2 && n > 0
    ensures Bits(n / d) < Bits(n)
  {
    HalfQuotient(n, d);
    BitsMonotone(n / d, n / 2);
  }

  lemma HalfQuotient(n: nat, d: nat)
    requires d >= 2
    ensures n / d <= n / 2
  {
    var q, h := n / d, n / 2;
    assert n == q * d + n % d;
    ProductMonotone(2, d, q);
    Commute(q, d);
    assert 2 * q <= n;
  }

  /** Entry i of the table holds the factorization of i, in as many places as i has binary digits. */
  ghost predicate Entry(f: Factorization?, i: nat)
    reads f, if f == null then {} else {f.mlt, f.exp}
  {
    Holds(f, i) && f.dim == Bits(i)
  }

  lemma OnePrime(f: seq<Factor>, p: nat, e: nat)
    requires Prime(p) && e > 0 && |f| >= 2 && f[0] == Factor(p, e)
    requires forall j :: 1 <= j < |f| ==> f[j] == Factor(1, 0)
    ensures Factored(f, Pow(p, e))
  {
    var d := f[..1];
    assert d == [Factor(p, e)];
    ProductOne(Factor(p, e));
    assert FactoredAt(f, Pow(p, e), 1);
  }

  lemma OneFactored(f: seq<Factor>)
    requires |f| == 1 && f[0].mlt == 1
    ensures Factored(f, 1)
  {
    assert f[..0] == [];
    NoFactors();
    assert FactoredAt(f, 1, 0);
  }

  lemma PowFacts(p: nat)
    ensures Pow(p, 1) == p && Pow(p, 2) == p * p
  {
    assert Pow(p, 1) == p * Pow(p, 0) == p;
    assert Pow(p, 2) == p * Pow(p, 1);
  }

  lemma BitsAtLeast(i: nat)
    ensures i >= 1 ==> Bits(i) >= 1
    ensures i >= 2 ==> Bits(i) >= 2
    ensures i == 1 ==> Bits(i) == 1
  {
  }

  lemma ListFacts(s: seq<nat>, m: nat)
    requires PrimeList(s, m)
    ensures forall t :: 0 <= t < |s| ==> s[t] >= 2 && Prime(s[t])
    ensures forall t, u :: 0 <= t < u < |s| ==> s[t] < s[u]
  {
  }

  lemma QuotientFits(i: nat, d: nat)
    requires d >= 2 && i > 0 && i % d == 0
    ensures 0 < i / d < i
  {
    SmallerQuotient(d, i);
  }

  /** The table entry for i, from the entries below it. */
  method FactorizationOf(i: nat, prnum: nat, prlist: array<nat>, ghost m: nat, fctlist: array<Factorization?>)
      returns (fct: Factorization)
    requires 4 <= prnum <= prlist.Length && PrimeList(prlist[..prnum], m)
    requires i < prlist[prnum - 1] <= fctlist.Length
    requires forall k :: 1 <= k < i ==> Entry(fctlist[k], k)
    ensures fresh(fct) && fresh(fct.mlt) && fresh(fct.exp)
    ensures i > 0 ==> Entry(fct, i)
  {
    hide Prime;
    hide PrimeList;
    hide Factored;
    hide Bits;
    hide Pow;
    var len, isft := 0, i;
    while isft > 0
      invariant len + Bits(isft) == Bits(i)
    {
      BitsStep(isft);
      len := len + 1;
      isft := isft / 2;
    }
    BitsStep(0);
    BitsAtLeast(i);
    fct := new Factorization(len);
    ghost var s := prlist[..prnum];
    ListFacts(s, m);
    assert i < s[prnum - 1] * s[prnum - 1] by { ProductMonotone(1, s[prnum - 1], s[prnum - 1]); }
    var div := 1;
    var j := 0;
    while prlist[j] * prlist[j] <= i
      invariant 0 <= j < prnum
      invariant div == 1
      invariant forall k :: 1 <= k < i ==> Entry(fctlist[k], k)
      invariant forall k :: 0 <= k < fct.mlt.Length ==> fct.mlt[k] == 1 && fct.exp[k] == 0
      invariant forall t :: 0 <= t < j ==> i % s[t] != 0
      decreases prnum - j
    {
      var firstdiv := prlist[j];
      assert firstdiv == s[j];
      ProductMonotone(1, firstdiv, firstdiv);
      Remainder(i, firstdiv);
      if i - firstdiv * (i / firstdiv) == 0 {
        div := firstdiv;
        if firstdiv * firstdiv == i {
          fct.mlt[0] := firstdiv;
          fct.exp[0] := 2;
          PowFacts(firstdiv);
          OnePrime(fct.Factors(), firstdiv, 2);
        } else {
          QuotientFits(i, firstdiv);
          QuotientBits(i, firstdiv);
          ExtendFactors(i, firstdiv, fct, fctlist);
        }
        break;
      }
      j := j + 1;
    }
    if div == 1 {
      fct.mlt[0] := i;
      fct.exp[0] := 1;
      if i >= 2 {
        NoSmallDivisor(s, m, i, j);
        PowFacts(i);
        OnePrime(fct.Factors(), i, 1);
      } else if i == 1 {
        OneFactored(fct.Factors());
      }
    }
  }

  lemma BitsStep(n: nat)
    ensures Bits(n) == if n == 0 then 0 else 1 + Bits(n / 2)
  {
  }

  /** The two entries set before the loop, which replaces them. */
  method FirstTwo(fctlist: array<Factorization?>)
    requires 4 <= fctlist.Length
    modifies fctlist
    ensures forall k :: 0 <= k < fctlist.Length && k != 2 && k != 3 ==> fctlist[k] == old(fctlist[k])
  {
    var fct := new Factorization(2);
    fct.mlt[0], fct.exp[0] := 2, 1;
    fctlist[2] := fct;
    fct := new Factorization(2);
    fct.mlt[0], fct.exp[0] := 3, 1;
    fctlist[3] := fct;
  }

  /** Factorizes every number below the largest listed prime. */
  method GetFactorization(prnum: nat, prlist: array<nat>, ghost m: nat, fctlist: array<Factorization?>)
    requires 4 <= prnum <= prlist.Length && PrimeList(prlist[..prnum], m)
    requires 4 <= prlist[prnum - 1] <= fctlist.Length
    modifies fctlist
    ensures forall k :: 1 <= k < prlist[prnum - 1] ==> Entry(fctlist[k], k)
  {
    hide *;
    FirstTwo(fctlist);
    var fct: Factorization;
    var i := 0;
    while i < prlist[prnum - 1]
      invariant 0 <= i <= prlist[prnum - 1]
      invariant forall k :: 1 <= k < i ==> Entry(fctlist[k], k)
    {
      fct := FactorizationOf(i, prnum, prlist, m, fctlist);
      fctlist[i] := fct;
      i := i + 1;
    }
  }
}
