/**
 * The tuples of adc.c: every attribute runs through powers of its generator modulo its prime,
 * so tuples repeat with the period of their orders.
 */
module Tuples {
  import opened Arith
  import opened NumberTheory

  // ---------------------------------------------------------------------------
  // Powers modulo m
  // ---------------------------------------------------------------------------

  lemma {:induction false} PowAdd(b: nat, i: nat, j: nat)
    ensures Pow(b, i + j) == Pow(b, i) * Pow(b, j)
  {
    if i > 0 {
      PowAdd(b, i - 1, j);
      assert b * (Pow(b, i - 1) * Pow(b, j)) == (b * Pow(b, i - 1)) * Pow(b, j);
    } else {
      assert 1 * Pow(b, j) == Pow(b, j);
    }
  }

  lemma ModTwice(b: nat, m: nat)
    requires m > 0
    ensures b % m % m == b % m
  {
    ModOf(b % m, m, 0, b % m);
  }

  // ---------------------------------------------------------------------------
  // One attribute
  // ---------------------------------------------------------------------------

  /** The powers of g run through all of 1..p-1: g^k is 1 exactly for multiples of p - 1. */
  ghost predicate PrimitiveRoot(g: nat, p: nat) {
    p >= 3 && forall k: nat :: Pow(g, k) % p == 1 <==> Divides(p - 1, k)
  }

  /** Attribute value number t: seed (p+1)/2 times the t-th power of g^e. */
  function Attribute(p: nat, g: nat, e: nat, t: nat): nat
    requires p > 0
  {
    (p + 1) / 2 * Pow(g, e * t) % p
  }

  lemma TwiceSeed(p: nat, x: nat, s: nat)
    requires 2 * s == p + 1
    ensures s * x * 2 == x * p + x
  {
    calc {
      s * x * 2;
      (2 * s) * x;
      (p + 1) * x;
      x * p + x;
    }
  }

  /** The seed's inverse is 2. */
  lemma SeedCancels(p: nat, x: nat)
    requires p >= 3 && p % 2 == 1
    ensures 2 * ((p + 1) / 2 * x % p) % p == x % p
  {
    var s := (p + 1) / 2;
    assert 2 * s == p + 1;
    TwiceSeed(p, x, s);
    AddMultiple(p, x, x);
    MulMod(s * x, 2, p);
    assert (s * x % p) * 2 == 2 * (s * x % p);
  }

  /** Multiplying by a power that completes a full turn. */
  lemma TurnCancels(g: nat, p: nat, a: nat, b: nat)
    requires PrimitiveRoot(g, p) && b <= a && Pow(g, a) % p == Pow(g, b) % p
    ensures Divides(p - 1, a - b)
  {
    var c := b * (p - 1) - b;
    assert b * (p - 1) >= b by { ProductMonotone(1, p - 1, b); assert (p - 1) * b == b * (p - 1); }
    PowAdd(g, a, c);
    PowAdd(g, b, c);
    MulMod(Pow(g, a), Pow(g, c), p);
    MulMod(Pow(g, b), Pow(g, c), p);
    DividesSelf(p - 1, b);
    assert b + c == b * (p - 1) && Pow(g, b + c) % p == 1;
    assert Pow(g, a + c) % p == 1;
    DividesDifference(p - 1, a + c, b + c);
  }

  lemma TurnRepeats(g: nat, p: nat, a: nat, b: nat)
    requires PrimitiveRoot(g, p) && b <= a && Divides(p - 1, a - b)
    ensures Pow(g, a) % p == Pow(g, b) % p
  {
    PowAdd(g, a - b, b);
    MulMod(Pow(g, a - b), Pow(g, b), p);
    assert 1 * Pow(g, b) == Pow(g, b);
  }

  lemma RootFacts(g: nat, p: nat)
    requires PrimitiveRoot(g, p)
    ensures p >= 3
  {
  }

  lemma ProductGap(e: nat, t: nat, u: nat)
    requires u <= t
    ensures e * u <= e * t && e * t - e * u == e * (t - u)
  {
    Distribute(u, t - u, e);
    assert e * u == u * e && e * t == t * e && e * (t - u) == (t - u) * e;
  }

  lemma SeedProduct(p: nat, x: nat, s: nat)
    requires p > 0
    ensures s * x % p == (x % p) * s % p
  {
    MulMod(x, s, p);
    assert s * x == x * s;
  }

  /** Two tuples agree on an attribute exactly when their distance is a multiple of its order. */
  lemma AttributeRepeats(p: nat, g: nat, e: nat, t: nat, u: nat)
    requires PrimitiveRoot(g, p) && p % 2 == 1 && u <= t
    ensures Attribute(p, g, e, t) == Attribute(p, g, e, u) <==> Divides(p - 1, e * (t - u))
  {
    hide Pow;
    hide PrimitiveRoot;
    RootFacts(g, p);
    ProductGap(e, t, u);
    if Attribute(p, g, e, t) == Attribute(p, g, e, u) {
      SeedCancels(p, Pow(g, e * t));
      SeedCancels(p, Pow(g, e * u));
      TurnCancels(g, p, e * t, e * u);
    }
    if Divides(p - 1, e * (t - u)) {
      TurnRepeats(g, p, e * t, e * u);
      SeedProduct(p, Pow(g, e * t), (p + 1) / 2);
      SeedProduct(p, Pow(g, e * u), (p + 1) / 2);
    }
  }

  // ---------------------------------------------------------------------------
  // Tuples
  // ---------------------------------------------------------------------------

  /** A dimension: its prime, the primitive root given for it, and its exponent. */
  datatype Dim = Dim(prime: nat, root: nat, exp: nat)

  ghost predicate DimsOk(dims: seq<Dim>) {
    forall i :: 0 <= i < |dims| ==> dims[i].exp > 0 && dims[i].prime % 2 == 1 && PrimitiveRoot(dims[i].root, dims[i].prime)
  }

  /** Tuple number t. */
  ghost function Tuple(dims: seq<Dim>, t: nat): (a: seq<nat>)
    requires DimsOk(dims)
    ensures |a| == |dims|
  {
    seq(|dims|, i requires 0 <= i < |dims| => Attribute(dims[i].prime, dims[i].root, dims[i].exp, t))
  }

  /** k is a common multiple of the attributes' periods. */
  ghost predicate CommonPeriod(dims: seq<Dim>, k: nat) {
    forall i :: 0 <= i < |dims| ==> dims[i].prime >= 1 && Divides(dims[i].prime - 1, dims[i].exp * k)
  }

  lemma TupleRepeats(dims: seq<Dim>, t: nat, u: nat)
    requires DimsOk(dims) && u <= t
    ensures Tuple(dims, t) == Tuple(dims, u) <==> CommonPeriod(dims, t - u)
  {
    hide Attribute;
    hide PrimitiveRoot;
    hide Divides;
    var a, b := Tuple(dims, t), Tuple(dims, u);
    forall i | 0 <= i < |dims|
      ensures dims[i].prime >= 1
      ensures a[i] == b[i] <==> Divides(dims[i].prime - 1, dims[i].exp * (t - u))
    {
      RootFacts(dims[i].root, dims[i].prime);
      AttributeRepeats(dims[i].prime, dims[i].root, dims[i].exp, t, u);
    }
  }

  /** L is the least common multiple of the periods: its multiples are the common multiples. */
  ghost predicate Period(dims: seq<Dim>, L: nat) {
    L > 0 && forall k: nat :: k > 0 ==> (CommonPeriod(dims, k) <==> Divides(L, k))
  }

  /** The first n tuples' distinct values. */
  ghost function Distinct(dims: seq<Dim>, n: nat): set<seq<nat>>
    requires DimsOk(dims)
  {
    set t | 1 <= t <= n :: Tuple(dims, t)
  }

  /** Tuple t + 1 is new exactly during the first period. */
  lemma NextTuple(dims: seq<Dim>, L: nat, n: nat)
    requires DimsOk(dims) && Period(dims, L)
    ensures Tuple(dims, n + 1) in Distinct(dims, n) <==> n >= L
  {
    if n >= L {
      DividesSelf(L, 1);
      TupleRepeats(dims, n + 1, n + 1 - L);
    }
    if Tuple(dims, n + 1) in Distinct(dims, n) {
      var u :| 1 <= u <= n && Tuple(dims, u) == Tuple(dims, n + 1);
      TupleRepeats(dims, n + 1, u);
      DividesAtMost(L, n + 1 - u);
    }
  }

  /** The number of distinct tuples among the first n is n, but at most the period. */
  lemma {:induction false} DistinctCount(dims: seq<Dim>, L: nat, n: nat)
    requires DimsOk(dims) && Period(dims, L)
    ensures |Distinct(dims, n)| == if n < L then n else L
  {
    hide Tuple; hide Period; hide DimsOk;
    if n == 0 {
      assert Distinct(dims, 0) == {};
      PeriodPositive(dims, L);
    } else {
      DistinctCount(dims, L, n - 1);
      NextTuple(dims, L, n - 1);
      DistinctNext(dims, n - 1);
    }
  }

  lemma PeriodPositive(dims: seq<Dim>, L: nat)
    requires Period(dims, L)
    ensures L > 0
  {
  }

  lemma DistinctNext(dims: seq<Dim>, n: nat)
    requires DimsOk(dims)
    ensures Distinct(dims, n + 1) == Distinct(dims, n) + {Tuple(dims, n + 1)}
  {
    hide Tuple;
    var before, after := Distinct(dims, n), Distinct(dims, n + 1);
    var last := Tuple(dims, n + 1);
    assert 1 <= n + 1 <= n + 1;
    assert last in after;
    forall x ensures x in after <==> x in before || x == last {
      if x in after {
        var t :| 1 <= t <= n + 1 && Tuple(dims, t) == x;
      }
    }
  }
}
