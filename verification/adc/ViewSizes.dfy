/**
 * The predicted view sizes: GetLCM computes the least common multiple of the orders, which is
 * where the projected tuples start to repeat.
 */
module ViewSizes {
  import opened Arith
  import opened NumberTheory
  import opened Tuples
  import opened Factorizations

  const LARGE_NUM: nat := 0x4FFFFFFFFFFFFFFF
  const maxprmfctr: nat := 59
  const UpPrimeLim: nat := 100000

  // ---------------------------------------------------------------------------
  // Projections
  // ---------------------------------------------------------------------------

  /** The entries of s, from i on, at the bits set in mask. */
  function Chosen<T>(s: seq<T>, mask: nat, i: nat): seq<T>
    decreases mask
  {
    if mask == 0 || i >= |s| then []
    else if mask % 2 == 0 then Chosen(s, mask / 2, i + 1)
    else [s[i]] + Chosen(s, mask / 2, i + 1)
  }

  lemma {:induction false} ChosenFrom<T>(s: seq<T>, mask: nat, i: nat)
    ensures forall j :: 0 <= j < |Chosen(s, mask, i)| ==> Chosen(s, mask, i)[j] in s
    decreases mask
  {
    if mask > 0 && i < |s| {
      ChosenFrom(s, mask / 2, i + 1);
    }
  }

  lemma ChosenOk(dims: seq<Dim>, mask: nat)
    requires DimsOk(dims)
    ensures DimsOk(Chosen(dims, mask, 0))
  {
    ChosenFrom(dims, mask, 0);
  }

  /** The tuples of the chosen dimensions are the chosen entries of the tuples. */
  lemma {:induction false} ChosenTuple(dims: seq<Dim>, mask: nat, i: nat, t: nat)
    requires DimsOk(dims) && DimsOk(Chosen(dims, mask, i))
    ensures Tuple(Chosen(dims, mask, i), t) == Chosen(Tuple(dims, t), mask, i)
    decreases mask
  {
    if mask > 0 && i < |dims| {
      var rest := Chosen(dims, mask / 2, i + 1);
      ChosenFrom(dims, mask / 2, i + 1);
      ChosenTuple(dims, mask / 2, i + 1, t);
      if mask % 2 == 1 {
        var all := [dims[i]] + rest;
        assert Tuple(all, t) == [Tuple(dims, t)[i]] + Tuple(rest, t);
      }
    }
  }

  /** The different projections on mask of the first n tuples. */
  ghost function Projections(dims: seq<Dim>, mask: nat, n: nat): set<seq<nat>>
    requires DimsOk(dims)
  {
    set t | 1 <= t <= n :: Chosen(Tuple(dims, t), mask, 0)
  }

  lemma ProjectionsAreDistinct(dims: seq<Dim>, mask: nat, n: nat)
    requires DimsOk(dims)
    ensures DimsOk(Chosen(dims, mask, 0))
    ensures Projections(dims, mask, n) == Distinct(Chosen(dims, mask, 0), n)
  {
    ChosenOk(dims, mask);
    forall t | 1 <= t <= n ensures Tuple(Chosen(dims, mask, 0), t) == Chosen(Tuple(dims, t), mask, 0) {
      ChosenTuple(dims, mask, 0, t);
    }
  }

  // ---------------------------------------------------------------------------
  // The least common multiple by exponents
  // ---------------------------------------------------------------------------

  /** Every prime factor of n has a place in the table of exponents. */
  ghost predicate SmallFactors(n: nat) {
    forall q: nat :: Prime(q) && n % q == 0 ==> q <= maxprmfctr
  }

  ghost predicate DimFits(d: Dim) {
    d.prime > 2 && d.exp > 0 && SmallFactors(d.prime - 1)
  }

  /** How often q has to divide a period of d's attribute. */
  ghost function Need(d: Dim, q: nat): nat {
    if Prime(q) && d.prime > 1 && d.exp > 0 then
      var x, y := Exponent(q, d.prime - 1), Exponent(q, d.exp);
      if x > y then x - y else 0
    else 0
  }

  ghost function MaxNeed(dims: seq<Dim>, q: nat): nat {
    if dims == [] then 0
    else
      var m, n := MaxNeed(dims[..|dims| - 1], q), Need(dims[|dims| - 1], q);
      if m < n then n else m
  }

  /** q divides k at least n times. */
  ghost predicate Met(q: nat, n: nat, k: nat) {
    n == 0 || (q >= 2 && k > 0 && n <= Exponent(q, k))
  }

  lemma {:induction false} MaxNeedMet(dims: seq<Dim>, q: nat, k: nat)
    ensures Met(q, MaxNeed(dims, q), k) <==> forall i :: 0 <= i < |dims| ==> Met(q, Need(dims[i], q), k)
  {
    if dims != [] {
      var n := |dims| - 1;
      MaxNeedMet(dims[..n], q, k);
      assert forall i :: 0 <= i < n ==> dims[..n][i] == dims[i];
    }
  }

  lemma {:induction false} MaxNeedPrime(dims: seq<Dim>, q: nat)
    ensures MaxNeed(dims, q) > 0 ==> Prime(q)
  {
    if dims != [] {
      MaxNeedPrime(dims[..|dims| - 1], q);
    }
  }

  /** Every positive number is a product of prime powers. */
  lemma {:induction false} HasFactors(n: nat) returns (g: seq<Factor>)
    requires n > 0
    ensures Proper(g) && Product(g) == n
  {
    if n == 1 {
      g := [];
    } else if Prime(n) {
      g := [Factor(n, 1)];
      ProductOne(g[0]);
      PowFacts(n);
    } else {
      var q := LeastDivisor(n);
      SmallerQuotient(q, n);
      var h := HasFactors(n / q);
      ExtendedProper(h, q);
      ExtendedProduct(h, q);
      DivisorTimes(n, q);
      g := Extended(h, q);
    }
  }

  /** A prime power entry is met in e * k exactly when the rest it needs is met in k. */
  lemma EntryMet(d: Dim, q: nat, k: nat)
    requires Prime(q) && d.prime > 1 && d.exp > 0 && k > 0
    ensures d.exp * k > 0
    ensures Exponent(q, d.prime - 1) <= Exponent(q, d.exp * k) <==> Met(q, Need(d, q), k)
  {
    ExponentProduct(q, d.exp, k);
  }

  /** k completes a period of d exactly when every need is met. */
  lemma NeedsMet(d: Dim, k: nat)
    requires DimFits(d) && k > 0
    ensures Divides(d.prime - 1, d.exp * k) <==> forall q :: 0 <= q <= maxprmfctr ==> Met(q, Need(d, q), k)
  {
    hide Met; hide Need; hide Exponent; hide Prime; hide Product;
    var g := HasFactors(d.prime - 1);
    ProductPositive(d.exp, k);
    ProperIsPrimePowers(g);
    ProductDivides(g, d.exp * k);
    forall q: nat | q <= maxprmfctr
      ensures Prime(q) ==> q >= 2 && (Exponent(q, d.prime - 1) <= Exponent(q, d.exp * k) <==> Met(q, Need(d, q), k))
      ensures !Prime(q) ==> Met(q, Need(d, q), k)
    {
      if Prime(q) {
        PrimeAtLeastTwo(q);
        EntryMet(d, q, k);
      } else {
        NoNeed(d, q, k);
      }
    }
    ByExponents(g, d.prime - 1, d.exp * k);
  }

  lemma NoNeed(d: Dim, q: nat, k: nat)
    requires !Prime(q)
    ensures Met(q, Need(d, q), k)
  {
  }

  lemma ListedPrime(g: seq<Factor>, n: nat, i: nat)
    requires Proper(g) && Product(g) == n && SmallFactors(n) && n > 0 && i < |g|
    ensures Prime(g[i].mlt) && 2 <= g[i].mlt <= maxprmfctr && g[i].exp == Exponent(g[i].mlt, n) > 0
  {
    var q := g[i].mlt;
    PrimeAtLeastTwo(q);
    ProperIsPrimePowers(g);
    ExponentOfProduct(g, q);
    PowDividesIff(q, n, 1);
    PowFacts(q);
    DividesMod(q, n);
  }

  lemma UnlistedPrime(g: seq<Factor>, n: nat, q: nat)
    requires Proper(g) && Product(g) == n && n > 0 && Prime(q)
    ensures Exponent(q, n) == 0 || exists i :: 0 <= i < |g| && g[i].mlt == q && g[i].exp == Exponent(q, n)
  {
    ProperIsPrimePowers(g);
    ExponentOfProduct(g, q);
    if i :| 0 <= i < |g| && g[i].mlt == q {
      assert g[i].exp == Exponent(q, n);
    }
  }

  /** Comparing exponents entry by entry is comparing them for all primes of the table. */
  lemma ByExponents(g: seq<Factor>, a: nat, n: nat)
    requires Proper(g) && Product(g) == a && a > 0 && n > 0 && SmallFactors(a)
    ensures (forall i :: 0 <= i < |g| && g[i].exp > 0 ==> Prime(g[i].mlt) && g[i].exp <= Exponent(g[i].mlt, n))
            <==> (forall q :: 0 <= q <= maxprmfctr && Prime(q) ==> Exponent(q, a) <= Exponent(q, n))
  {
    hide Prime; hide Exponent; hide Product; hide SmallFactors;
    forall i | 0 <= i < |g|
      ensures Prime(g[i].mlt) && 2 <= g[i].mlt <= maxprmfctr && g[i].exp == Exponent(g[i].mlt, a)
    {
      ListedPrime(g, a, i);
    }
    forall q: nat | Prime(q)
      ensures q >= 2 && (Exponent(q, a) == 0 || exists i :: 0 <= i < |g| && g[i].mlt == q && g[i].exp == Exponent(q, a))
    {
      PrimeAtLeastTwo(q);
      UnlistedPrime(g, a, q);
    }
  }

  /** The table's product: the entry for q is the largest need for q. */
  ghost predicate LcmTable(f: seq<Factor>, dims: seq<Dim>) {
    |f| == maxprmfctr + 1 && forall q :: 0 <= q < |f| ==> f[q] == Factor(q, MaxNeed(dims, q))
  }

  lemma TableIsPrimePowers(f: seq<Factor>, dims: seq<Dim>)
    requires LcmTable(f, dims)
    ensures PrimePowers(f)
  {
    forall q | 0 <= q < |f| ensures f[q].exp > 0 ==> Prime(q) {
      MaxNeedPrime(dims, q);
    }
  }

  /** The product of the largest needs is the period of the dimensions together. */
  lemma LcmIsPeriod(f: seq<Factor>, dims: seq<Dim>)
    requires LcmTable(f, dims) && forall i :: 0 <= i < |dims| ==> DimFits(dims[i])
    ensures Period(dims, Product(f))
  {
    TableIsPrimePowers(f, dims);
    ProductNonzero(f);
    forall k: nat | k > 0 ensures CommonPeriod(dims, k) <==> Divides(Product(f), k) {
      PeriodByNeeds(f, dims, k);
    }
  }

  ghost predicate AllMet(d: Dim, k: nat) {
    forall q :: 0 <= q <= maxprmfctr ==> Met(q, Need(d, q), k)
  }

  ghost predicate AllMaxMet(dims: seq<Dim>, k: nat) {
    forall q :: 0 <= q <= maxprmfctr ==> Met(q, MaxNeed(dims, q), k)
  }

  ghost predicate AllEntriesMet(f: seq<Factor>, k: nat)
    requires k > 0
  {
    forall i :: 0 <= i < |f| && f[i].exp > 0 ==> Prime(f[i].mlt) && f[i].exp <= Exponent(f[i].mlt, k)
  }

  lemma AllDimsMet(dims: seq<Dim>, k: nat)
    ensures (forall i :: 0 <= i < |dims| ==> AllMet(dims[i], k)) <==> AllMaxMet(dims, k)
  {
    hide Met; hide Need; hide MaxNeed;
    if forall i :: 0 <= i < |dims| ==> AllMet(dims[i], k) {
      forall q: nat | q <= maxprmfctr ensures Met(q, MaxNeed(dims, q), k) {
        MaxNeedMet(dims, q, k);
      }
    }
    if AllMaxMet(dims, k) {
      forall i | 0 <= i < |dims| ensures AllMet(dims[i], k) {
        forall q: nat | q <= maxprmfctr ensures Met(q, Need(dims[i], q), k) {
          assert Met(q, MaxNeed(dims, q), k);
          MaxNeedMet(dims, q, k);
        }
      }
    }
  }

  lemma TableMet(f: seq<Factor>, dims: seq<Dim>, k: nat)
    requires LcmTable(f, dims) && PrimePowers(f) && k > 0
    ensures AllEntriesMet(f, k) <==> AllMaxMet(dims, k)
  {
    hide MaxNeed; hide Exponent; hide Prime;
    forall q: nat | q <= maxprmfctr
      ensures q < |f| && f[q] == Factor(q, MaxNeed(dims, q))
      ensures f[q].exp > 0 ==> Prime(q) && q >= 2
    {
      assert f[q].mlt == q;
      if f[q].exp > 0 { PrimeAtLeastTwo(q); }
    }
    if AllEntriesMet(f, k) {
      forall q: nat | q <= maxprmfctr ensures Met(q, MaxNeed(dims, q), k) {
        assert f[q] == Factor(q, MaxNeed(dims, q));
      }
    }
    if AllMaxMet(dims, k) {
      forall i: nat | i < |f| && f[i].exp > 0 ensures Prime(f[i].mlt) && f[i].exp <= Exponent(f[i].mlt, k) {
        assert Met(i, MaxNeed(dims, i), k);
      }
    }
  }

  lemma CommonIsAllMet(dims: seq<Dim>, k: nat)
    requires k > 0 && forall i :: 0 <= i < |dims| ==> DimFits(dims[i])
    ensures CommonPeriod(dims, k) <==> forall i :: 0 <= i < |dims| ==> AllMet(dims[i], k)
  {
    forall i | 0 <= i < |dims|
      ensures dims[i].prime >= 1 && (Divides(dims[i].prime - 1, dims[i].exp * k) <==> AllMet(dims[i], k))
    {
      hide Met; hide Need;
      NeedsMet(dims[i], k);
    }
  }

  lemma PeriodByNeeds(f: seq<Factor>, dims: seq<Dim>, k: nat)
    requires LcmTable(f, dims) && k > 0 && forall i :: 0 <= i < |dims| ==> DimFits(dims[i])
    ensures CommonPeriod(dims, k) <==> Divides(Product(f), k)
  {
    hide *;
    TableIsPrimePowers(f, dims);
    ProductDivides(f, k);
    EntriesMet(f, k);
    TableMet(f, dims, k);
    AllDimsMet(dims, k);
    CommonIsAllMet(dims, k);
  }

  lemma EntriesMet(f: seq<Factor>, k: nat)
    requires PrimePowers(f) && k > 0
    ensures AllEntriesMet(f, k) <==> forall i :: 0 <= i < |f| && f[i].exp > 0 ==> f[i].exp <= Exponent(f[i].mlt, k)
  {
  }

  // ---------------------------------------------------------------------------
  // GetLCM
  // ---------------------------------------------------------------------------

  /** One entry's exponent, less what the generator's exponent already contains of it. */
  method TakeOff(ef: Factorization, ghost e: nat, fct: nat, exp: nat) returns (lexp: int)
    requires Holds(ef, e) && e > 0 && (Prime(fct) || fct == 1)
    ensures Prime(fct) ==> lexp == exp - Exponent(fct, e)
    ensures fct == 1 ==> lexp == exp
  {
    hide Prime; hide Proper; hide Product; hide Exponent; hide FactoredAt;
    if Prime(fct) { PrimeAtLeastTwo(fct); }
    ghost var f := ef.Factors();
    ghost var w: nat :| FactoredAt(f, e, w);
    FactoredFacts(f, e, w);
    lexp := exp;
    var k := 0;
    while k < ef.dim
      invariant 0 <= k <= w && lexp == exp
      invariant forall t :: 0 <= t < k ==> f[t].mlt != fct
      invariant f == ef.Factors()
    {
      assert f[k] == Factor(ef.mlt[k], ef.exp[k]);
      if ef.mlt[k] == 1 {
        assert k == w;
        break;
      }
      if fct != ef.mlt[k] {
        k := k + 1;
        continue;
      }
      lexp := lexp - ef.exp[k];
      break;
    }
    if Prime(fct) {
      LookedUp(f[..w], e, fct, k);
    }
  }

  lemma LookedUp(g: seq<Factor>, e: nat, q: nat, k: nat)
    requires Proper(g) && Product(g) == e && e > 0 && Prime(q) && k <= |g|
    requires forall t :: 0 <= t < k ==> g[t].mlt != q
    requires k < |g| ==> g[k].mlt == q
    ensures Exponent(q, e) == if k < |g| then g[k].exp else 0
  {
    ProperIsPrimePowers(g);
    ExponentOfProduct(g, q);
  }

  /** The table of exponents after the first j entries of d's factor list were taken in. */
  ghost predicate RaisedBy(before: seq<nat>, after: seq<nat>, d: Dim, f: seq<Factor>, j: nat)
    requires j <= |f|
  {
    && |after| == |before| == maxprmfctr + 1
    && forall q :: 0 <= q <= maxprmfctr ==>
      after[q] == if (exists t :: 0 <= t < j && f[t].mlt == q) && before[q] < Need(d, q) then Need(d, q) else before[q]
  }

  /** What the loop over a factor list meets: primes with their exponents, then end marks. */
  ghost predicate FactorEntries(f: seq<Factor>, n: nat) {
    && (forall j :: 0 <= j < |f| ==> f[j].mlt <= maxprmfctr)
    && (forall j :: 0 <= j < |f| ==> (f[j].mlt == 1 && f[j].exp == 0)
                                     || (n > 0 && Prime(f[j].mlt) && f[j].mlt >= 2 && f[j].exp == Exponent(f[j].mlt, n)))
    && (forall q: nat :: Prime(q) && q >= 2 && n > 0 && Exponent(q, n) > 0 ==> exists j :: 0 <= j < |f| && f[j].mlt == q)
  }

  lemma EntriesOf(f: seq<Factor>, n: nat)
    requires Factored(f, n) && n > 1 && SmallFactors(n)
    ensures FactorEntries(f, n)
  {
    hide Prime; hide Product; hide Exponent; hide SmallFactors; hide Proper;
    var w: nat :| FactoredAt(f, n, w);
    var g := f[..w];
    forall j | 0 <= j < |f|
      ensures f[j].mlt <= maxprmfctr
      ensures (f[j].mlt == 1 && f[j].exp == 0)
              || (Prime(f[j].mlt) && f[j].mlt >= 2 && f[j].exp == Exponent(f[j].mlt, n))
    {
      if j < w {
        assert g[j] == f[j];
        ListedPrime(g, n, j);
      }
    }
    forall q: nat | Prime(q) && q >= 2 && Exponent(q, n) > 0
      ensures exists j :: 0 <= j < |f| && f[j].mlt == q
    {
      UnlistedPrime(g, n, q);
      var j :| 0 <= j < |g| && g[j].mlt == q;
      assert f[j].mlt == q;
    }
  }

  /** The entry's reduced exponent raises the table to the need, if that is larger. */
  lemma RaiseOne(before: seq<nat>, now: seq<nat>, d: Dim, f: seq<Factor>, j: nat, lexp: int)
    requires j < |f| && RaisedBy(before, now, d, f, j) && d.prime > 1 && d.exp > 0 && FactorEntries(f, d.prime - 1)
    requires f[j].mlt == 1 ==> lexp == f[j].exp
    requires Prime(f[j].mlt) && f[j].mlt >= 2 ==> lexp == f[j].exp - Exponent(f[j].mlt, d.exp)
    ensures var q := f[j].mlt;
            q < |now| && RaisedBy(before, if now[q] < lexp then now[q := lexp] else now, d, f, j + 1)
  {
    hide Prime; hide Exponent; hide Need;
    var q := f[j].mlt;
    NeedValue(d, q);
    var after := if now[q] < lexp then now[q := lexp] else now;
    forall x | 0 <= x <= maxprmfctr
      ensures after[x] == if (exists t :: 0 <= t < j + 1 && f[t].mlt == x) && before[x] < Need(d, x) then Need(d, x) else before[x]
    {
      assert (exists t :: 0 <= t < j + 1 && f[t].mlt == x) <==> x == q || exists t :: 0 <= t < j && f[t].mlt == x;
    }
  }

  lemma NeedValue(d: Dim, q: nat)
    requires d.prime > 1 && d.exp > 0
    ensures Prime(q) ==> q >= 2 && Need(d, q) == (var x := Exponent(q, d.prime - 1) - Exponent(q, d.exp); if x > 0 then x else 0)
    ensures !Prime(q) ==> Need(d, q) == 0
    ensures !Prime(1)
  {
    if Prime(q) { PrimeAtLeastTwo(q); }
  }

  lemma RaisedAll(before: seq<nat>, after: seq<nat>, d: Dim, f: seq<Factor>)
    requires RaisedBy(before, after, d, f, |f|) && d.prime > 1 && d.exp > 0 && FactorEntries(f, d.prime - 1)
    ensures |after| == |before| == maxprmfctr + 1
    ensures forall q :: 0 <= q <= maxprmfctr ==> after[q] == if before[q] < Need(d, q) then Need(d, q) else before[q]
  {
    hide Prime; hide Exponent; hide Need;
    forall q | 0 <= q <= maxprmfctr
      ensures after[q] == if before[q] < Need(d, q) then Need(d, q) else before[q]
    {
      NeedValue(d, q);
    }
  }

  /** Raises the exponents to what one dimension needs. */
  method RaiseExponents(pf: Factorization, ef: Factorization, expons: array<nat>, ghost d: Dim)
    requires DimFits(d) && Holds(pf, d.prime - 1) && Holds(ef, d.exp)
    requires expons.Length == maxprmfctr + 1
    requires expons != pf.mlt && expons != pf.exp && expons != ef.mlt && expons != ef.exp
    modifies expons
    ensures forall q :: 0 <= q <= maxprmfctr ==>
      expons[q] == if old(expons[q]) < Need(d, q) then Need(d, q) else old(expons[q])
  {
    hide Need; hide Factored; hide RaisedBy; hide Prime; hide Exponent; hide FactorEntries;
    ghost var f := pf.Factors();
    EntriesOf(f, d.prime - 1);
    ghost var before := expons[..];
    NoneRaised(before, d, f);
    var j := 0;
    while j < pf.dim
      invariant 0 <= j <= |f| && f == pf.Factors() && Holds(ef, d.exp)
      invariant RaisedBy(before, expons[..], d, f, j)
    {
      assert f[j] == Factor(pf.mlt[j], pf.exp[j]);
      var fct := pf.mlt[j];
      EntryFacts(f, d.prime - 1, j);
      var lexp := TakeOff(ef, d.exp, fct, pf.exp[j]);
      RaiseOne(before, expons[..], d, f, j, lexp);
      if expons[fct] < lexp { expons[fct] := lexp; }
      j := j + 1;
    }
    RaisedAll(before, expons[..], d, f);
  }

  lemma NoneRaised(before: seq<nat>, d: Dim, f: seq<Factor>)
    requires |before| == maxprmfctr + 1
    ensures RaisedBy(before, before, d, f, 0)
  {
  }

  lemma EntryFacts(f: seq<Factor>, n: nat, j: nat)
    requires FactorEntries(f, n) && j < |f|
    ensures f[j].mlt <= maxprmfctr && (f[j].mlt == 1 || (Prime(f[j].mlt) && f[j].mlt >= 2))
  {
  }

  /** The factorizations of every dimension's prime less one and exponent are in the table. */
  ghost predicate Covers(fctlist: array<Factorization?>, d: Dim)
    reads fctlist, if 0 < d.prime <= fctlist.Length then AllOf(fctlist[d.prime - 1]) else {}
    reads if d.exp < fctlist.Length then AllOf(fctlist[d.exp]) else {}
  {
    && DimFits(d)
    && d.prime <= fctlist.Length && Holds(fctlist[d.prime - 1], d.prime - 1)
    && d.exp < fctlist.Length && Holds(fctlist[d.exp], d.exp)
  }

  lemma CoverFacts(fctlist: array<Factorization?>, d: Dim)
    requires Covers(fctlist, d)
    ensures DimFits(d) && 0 < d.prime <= fctlist.Length && d.exp < fctlist.Length
    ensures fctlist[d.prime - 1] != null && fctlist[d.exp] != null
    ensures Holds(fctlist[d.prime - 1], d.prime - 1) && Holds(fctlist[d.exp], d.exp)
  {
  }

  ghost function AllOf(f: Factorization?): set<object> {
    if f == null then {} else {f, f.mlt, f.exp}
  }

  /** r is the period of the dimensions, or a part of it that is already above the cap. */
  ghost predicate Predicts(dims: seq<Dim>, r: nat) {
    exists L: nat :: Period(dims, L) && (r == L || 0x4FFF_FFFF_FFFF_FFFF / 59 < r <= L)
  }

  /** The predicted number of distinct tuples is the real one. */
  lemma PredictedSizeIsExact(dims: seq<Dim>, r: nat, n: nat)
    requires DimsOk(dims) && Predicts(dims, r) && n <= LARGE_NUM / maxprmfctr
    ensures |Distinct(dims, n)| == if r > n then n else r
  {
    hide Period;
    hide Distinct;
    var L: nat :| Period(dims, L) && (r == L || LARGE_NUM / maxprmfctr < r <= L);
    DistinctCount(dims, L, n);
  }

  lemma PartBelow(f: seq<Factor>, i: nat, t: nat)
    requires PrimePowers(f) && i < |f| && t <= f[i].exp
    ensures Product(f[..i]) * Pow(f[i].mlt, t) <= Product(f)
  {
    var m := f[i].mlt;
    var a, rest := f[..i], f[i + 1..];
    assert f[..i + 1] == a + [f[i]] && f == f[..i + 1] + rest;
    ProductAppend(a, [f[i]]);
    ProductOne(f[i]);
    ProductAppend(f[..i + 1], rest);
    ProductNonzero(rest);
    ProductNonzero(a);
    if f[i].exp > 0 {
      PowUpTo(m, t, f[i].exp);
    }
    ProductMonotone(Pow(m, t), Pow(m, f[i].exp), Product(a));
    ProductMonotone(1, Product(rest), Product(f[..i + 1]));
    Commute(Product(a), Pow(m, t));
    Commute(Product(a), Pow(m, f[i].exp));
    Commute(Product(rest), Product(f[..i + 1]));
  }

  lemma PowUpTo(b: nat, t: nat, e: nat)
    requires b >= 1 && t <= e
    ensures Pow(b, t) <= Pow(b, e)
  {
    PowAdd(b, t, e - t);
    PowPositive(b, e - t);
    ProductMonotone(1, Pow(b, e - t), Pow(b, t));
    Commute(Pow(b, t), Pow(b, e - t));
  }

  lemma NextPart(f: seq<Factor>, i: nat, t: nat)
    requires i < |f|
    ensures Product(f[..i]) * Pow(f[i].mlt, t) * f[i].mlt == Product(f[..i]) * Pow(f[i].mlt, t + 1)
    ensures Product(f[..i]) * Pow(f[i].mlt, 0) == Product(f[..i])
    ensures Product(f[..i]) * Pow(f[i].mlt, f[i].exp) == Product(f[..i + 1])
  {
    var m := f[i].mlt;
    Associate(Product(f[..i]), Pow(m, t), m);
    Commute(Pow(m, t), m);
    PowNext(m, t);
    var g := f[..i + 1];
    assert g[..|g| - 1] == f[..i] && g[|g| - 1] == f[i];
    LastFactor(g);
  }

  /** Multiplies the table out, but stops above the cap; no product leaves the 64-bit range. */
  method MultiplyOut(expons: array<nat>, ghost f: seq<Factor>) returns (LCM: nat)
    requires PrimePowers(f) && |f| == expons.Length == maxprmfctr + 1
    requires forall i :: 0 <= i < |f| ==> f[i] == Factor(i, expons[i])
    modifies expons
    ensures LCM == Product(f) || LARGE_NUM / maxprmfctr < LCM <= Product(f)
    ensures LCM <= LARGE_NUM
  {
    hide Product;
    hide Pow;
    hide PrimePowers;
    LCM := 1;
    NoFactors();
    assert f[..0] == [];
    var i := 0;
    while i <= maxprmfctr
      invariant 0 <= i <= maxprmfctr + 1
      invariant LCM == Product(f[..i]) && LCM <= LARGE_NUM / maxprmfctr
      invariant forall j :: i <= j < |f| ==> expons[j] == f[j].exp
    {
      NextPart(f, i, 0);
      while expons[i] > 0
        invariant expons[i] <= f[i].exp
        invariant LCM == Product(f[..i]) * Pow(i, f[i].exp - expons[i]) && LCM <= LARGE_NUM / maxprmfctr
        invariant forall j :: i < j < |f| ==> expons[j] == f[j].exp
        decreases expons[i]
      {
        ghost var t := f[i].exp - expons[i];
        NextPart(f, i, t);
        NoOverflow(LCM, i);
        LCM := LCM * i;
        if LCM > LARGE_NUM / maxprmfctr {
          PartBelow(f, i, t + 1);
          return;
        }
        expons[i] := expons[i] - 1;
      }
      NextPart(f, i, 0);
      i := i + 1;
    }
    assert f[..maxprmfctr + 1] == f;
  }

  lemma NoOverflow(n: nat, i: nat)
    requires n <= LARGE_NUM / maxprmfctr && i <= maxprmfctr
    ensures n * i <= LARGE_NUM
  {
    ProductMonotone(i, maxprmfctr, n);
    Commute(n, i);
    assert maxprmfctr * n <= maxprmfctr * (LARGE_NUM / maxprmfctr) <= LARGE_NUM;
  }

  lemma NextChosen(dims: seq<Dim>, mask: nat, i: nat)
    requires 0 < mask && i <= |dims| && mask < Pow2(|dims| - i)
    ensures i < |dims| && mask / 2 < Pow2(|dims| - (i + 1))
    ensures mask == 2 * (mask / 2) ==> Chosen(dims, mask, i) == Chosen(dims, mask / 2, i + 1)
    ensures mask != 2 * (mask / 2) ==> Chosen(dims, mask, i) == [dims[i]] + Chosen(dims, mask / 2, i + 1)
  {
    assert Pow2(0) == 1;
    assert i < |dims| ==> Pow2(|dims| - i) == 2 * Pow2(|dims| - (i + 1));
  }

  /** The table after the dimensions done. */
  ghost predicate TableAfter(expons: seq<nat>, done: seq<Dim>) {
    && |expons| == maxprmfctr + 1
    && (forall q :: 0 <= q <= maxprmfctr ==> expons[q] == MaxNeed(done, q))
    && (forall i :: 0 <= i < |done| ==> DimFits(done[i]))
  }

  lemma OneMoreDim(before: seq<nat>, after: seq<nat>, done: seq<Dim>, d: Dim)
    requires TableAfter(before, done) && |after| == |before| && DimFits(d)
    requires forall q :: 0 <= q <= maxprmfctr ==> after[q] == if before[q] < Need(d, q) then Need(d, q) else before[q]
    ensures TableAfter(after, done + [d])
  {
    hide Need;
    hide DimFits;
    var all := done + [d];
    assert all[..|all| - 1] == done;
  }

  lemma TableGives(expons: seq<nat>, done: seq<Dim>) returns (f: seq<Factor>)
    requires TableAfter(expons, done)
    ensures PrimePowers(f) && |f| == |expons| == maxprmfctr + 1
    ensures forall i :: 0 <= i < |f| ==> f[i] == Factor(i, expons[i])
    ensures Period(done, Product(f))
  {
    f := seq(maxprmfctr + 1, i requires 0 <= i <= maxprmfctr => Factor(i, expons[i]));
    TableIsPrimePowers(f, done);
    LcmIsPeriod(f, done);
  }

  /** The period of the dimensions chosen by a mask. */
  method GetLCM(mask0: nat, fctlist: array<Factorization?>, dims: seq<Dim>) returns (LCM: nat)
    requires mask0 < Pow2(|dims|) && forall i :: 0 <= i < |dims| ==> Covers(fctlist, dims[i])
    ensures Predicts(Chosen(dims, mask0, 0), LCM)
    ensures LCM <= 0x4FFF_FFFF_FFFF_FFFF
  {
    hide Chosen; hide Pow2; hide SmallFactors; hide Need; hide MaxNeed; hide TableAfter; hide Factored; hide Period; hide Product;
    var expons := new nat[maxprmfctr + 1](_ => 0);
    var mask: nat, i: nat := mask0, 0;
    ghost var done := [];
    EmptyTable(expons[..]);
    while mask > 0
      invariant i <= |dims| && mask < Pow2(|dims| - i)
      invariant Chosen(dims, mask0, 0) == done + Chosen(dims, mask, i)
      invariant TableAfter(expons[..], done)
      invariant fresh(expons) && forall j :: 0 <= j < |dims| ==> Covers(fctlist, dims[j])
    {
      NextChosen(dims, mask, i);
      if mask == 2 * (mask / 2) {
        mask := mask / 2;
        i := i + 1;
        continue;
      }
      ghost var before := expons[..];
      assert Covers(fctlist, dims[i]);
      CoverFacts(fctlist, dims[i]);
      RaiseExponents(fctlist[dims[i].prime - 1], fctlist[dims[i].exp], expons, dims[i]);
      OneMoreDim(before, expons[..], done, dims[i]);
      done := done + [dims[i]];
      mask := mask / 2;
      i := i + 1;
    }
    NoneLeft(dims, i);
    ghost var f := TableGives(expons[..], done);
    LCM := MultiplyOut(expons, f);
    assert done + [] == done;
  }

  lemma NoneLeft(dims: seq<Dim>, i: nat)
    ensures Chosen(dims, 0, i) == []
  {
  }

  lemma EmptyTable(expons: seq<nat>)
    requires |expons| == maxprmfctr + 1 && forall q :: 0 <= q < |expons| ==> expons[q] == 0
    ensures TableAfter(expons, [])
  {
  }

  // ---------------------------------------------------------------------------
  // The sizes of all views
  // ---------------------------------------------------------------------------

  /** What the built-in tables keep to: listed primes and smaller exponents. */
  ghost predicate Listed(d: Dim) {
    DimFits(d) && Prime(d.prime) && d.prime < UpPrimeLim && d.exp < d.prime
  }

  lemma LastPrime(s: seq<nat>, m: nat)
    requires PrimeList(s, m) && |s| >= 4
    ensures 4 <= s[|s| - 1] < m
    ensures forall q: nat :: Prime(q) && q < m ==> q <= s[|s| - 1]
  {
    hide Prime;
    assert s[0] < s[1] < s[2] < s[3] <= s[|s| - 1];
    ListFacts(s, m);
  }

  /** The table of factorizations of all numbers below the largest listed prime. */
  method FactorTable(dims: seq<Dim>) returns (fctlist: array<Factorization?>)
    requires forall i :: 0 <= i < |dims| ==> Listed(dims[i])
    ensures forall i :: 0 <= i < |dims| ==> Covers(fctlist, dims[i])
  {
    hide PrimeList; hide PrimesReach; hide Prime; hide Holds; hide SmallFactors;
    fctlist := new Factorization?[UpPrimeLim](_ => null);
    var prlist := new nat[UpPrimeLim](_ => 0);
    LimitReached();
    var prnum := ListFirstPrimes(UpPrimeLim, prlist);
    LastPrime(prlist[..prnum], UpPrimeLim);
    GetFactorization(prnum, prlist, UpPrimeLim, fctlist);
  }

  /** The sizes from a table of factorizations. */
  method SizesFrom(fctlist: array<Factorization?>, dims: seq<Dim>, tnum: nat) returns (vsize: array<nat>)
    requires DimsOk(dims) && forall i :: 0 <= i < |dims| ==> Covers(fctlist, dims[i])
    requires tnum <= LARGE_NUM / maxprmfctr
    ensures vsize.Length == Pow2(|dims|)
    ensures forall mask :: 1 <= mask < Pow2(|dims|) ==> vsize[mask] == |Projections(dims, mask, tnum)|
  {
    hide Factored; hide SmallFactors; hide Prime; hide DimsOk; hide Pow2; hide Chosen; hide Projections; hide Predicts; hide Distinct;
    var n := Pow2(|dims|);
    vsize := new nat[n](_ => 0);
    var i := 1;
    while i < n
      invariant 1 <= i && fresh(vsize)
      invariant forall j :: 0 <= j < |dims| ==> Covers(fctlist, dims[j])
      invariant forall mask :: 1 <= mask < i && mask < n ==> vsize[mask] == |Projections(dims, mask, tnum)|
    {
      var LCM := GetLCM(i, fctlist, dims);
      ChosenOk(dims, i);
      PredictedSizeIsExact(Chosen(dims, i, 0), LCM, tnum);
      ProjectionsAreDistinct(dims, i, tnum);
      if LCM > tnum { LCM := tnum; }
      vsize[i] := LCM;
      i := i + 1;
    }
  }

  /** For every set of dimensions, the number of different projections of the tuples. */
  method CalculateViewSizes(dims: seq<Dim>, tnum: nat) returns (vsize: array<nat>)
    requires DimsOk(dims) && forall i :: 0 <= i < |dims| ==> Listed(dims[i])
    requires tnum <= LARGE_NUM / maxprmfctr
    ensures vsize.Length == Pow2(|dims|)
    ensures forall mask :: 1 <= mask < Pow2(|dims|) ==> vsize[mask] == |Projections(dims, mask, tnum)|
  {
    hide *;
    var fctlist := FactorTable(dims);
    vsize := SizesFrom(fctlist, dims, tnum);
  }
}
