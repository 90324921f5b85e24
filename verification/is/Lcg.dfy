/** The generator of IS: randlc's split multiplication and find_my_seed. */
module Lcg {
  import opened Arith

  // Doubles that hold integers below 2^53 are integers; scaling by 2^-23 or 2^-46 is division.
  const T23: nat := 0x80_0000
  const T46: nat := 0x4000_0000_0000

  // ---------------------------------------------------------------------------
  // Congruence modulo 2^46
  // ---------------------------------------------------------------------------

  lemma MulModRight(a: nat, b: nat)
    ensures a * (b % T46) % T46 == a * b % T46
  {
    MulMod(b, a, T46);
    assert (b % T46) * a == a * (b % T46) && b * a == a * b;
  }

  // ---------------------------------------------------------------------------
  // randlc
  // ---------------------------------------------------------------------------

  /** The cross products, and the sum before its last reduction. */
  function Cross(a: nat, x: nat): nat {
    (a / T23) * (x % T23) + (a % T23) * (x / T23)
  }

  function Last(a: nat, x: nat): nat {
    T23 * (Cross(a, x) % T23) + (a % T23) * (x % T23)
  }

  lemma SmallProduct(p: nat, q: nat)
    requires p < T23 && q < T23
    ensures p * q <= 0x7F_FFFF * 0x7F_FFFF
  {
    ProductMonotone(p, 0x7F_FFFF, q);
  }

  /** Every double holds an integer below 2^53, and every j fits 32 bits. */
  lemma RandlcExact(a: nat, x: nat)
    requires a < T46 && x < T46
    ensures a / T23 < T23 && x / T23 < T23
    ensures Cross(a, x) < 0x20_0000_0000_0000 && Cross(a, x) / T23 < 0x8000_0000
    ensures Last(a, x) < 0x20_0000_0000_0000 && Last(a, x) / T46 < 0x8000_0000
  {
    SmallProduct(a / T23, x % T23);
    SmallProduct(a % T23, x / T23);
    SmallProduct(a % T23, x % T23);
  }

  lemma Expand(a1: nat, a2: nat, x1: nat, x2: nat)
    ensures (T23 * a1 + a2) * (T23 * x1 + x2) == T46 * (a1 * x1) + T23 * (a1 * x2 + a2 * x1) + a2 * x2
  {
    assert (T23 * a1 + a2) * (T23 * x1 + x2) == (T23 * a1) * (T23 * x1) + (T23 * a1) * x2 + a2 * (T23 * x1) + a2 * x2;
    assert (T23 * a1) * (T23 * x1) == T46 * (a1 * x1);
    assert (T23 * a1) * x2 == T23 * (a1 * x2);
    assert a2 * (T23 * x1) == T23 * (a2 * x1);
  }

  /** The split multiplication is multiplication modulo 2^46. */
  lemma SplitProduct(a: nat, x: nat)
    ensures Last(a, x) % T46 == a * x % T46
  {
    var a1, a2, x1, x2 := a / T23, a % T23, x / T23, x % T23;
    var t1, t3 := Cross(a, x), Last(a, x);
    Expand(a1, a2, x1, x2);
    assert a * x == T46 * (a1 * x1) + T23 * t1 + a2 * x2;
    assert T23 * t1 == T46 * (t1 / T23) + T23 * (t1 % T23);
    assert a * x == T46 * (a1 * x1 + t1 / T23 + t3 / T46) + t3 % T46;
    ModOf(a * x, T46, a1 * x1 + t1 / T23 + t3 / T46, t3 % T46);
  }

  /** A double variable; randlc gets two of them by address, possibly the same one. */
  class Double {
    var v: nat
    constructor (v: nat)
      ensures this.v == v
    {
      this.v := v;
    }
  }

  /** randlc, without the scaling of its result: X becomes A * X mod 2^46, also when X is A. */
  method Randlc(X: Double, A: Double) returns (x: nat)
    requires X.v < T46 && A.v < T46
    modifies X
    ensures x == X.v == old(A.v) * old(X.v) % 0x4000_0000_0000
  {
    ghost var a0, x0 := A.v, X.v;
    var j := A.v / T23;
    var A1 := j;
    var A2 := A.v - T23 * A1;
    j := X.v / T23;
    var X1 := j;
    var X2 := X.v - T23 * X1;
    var T1 := A1 * X2 + A2 * X1;
    j := T1 / T23;
    var T2 := j;
    var Z := T1 - T23 * T2;
    var T3 := T23 * Z + A2 * X2;
    j := T3 / T46;
    var T4 := j;
    SplitProduct(a0, x0);
    assert T3 == Last(a0, x0);
    X.v := T3 - T46 * T4;
    x := X.v;
  }

  // ---------------------------------------------------------------------------
  // The stream
  // ---------------------------------------------------------------------------

  /** The state after k draws from seed s. */
  function Drawn(s: nat, a: nat, k: nat): (x: nat)
    requires s < T46
    ensures x < T46
  {
    if k == 0 then s else a * Drawn(s, a, k - 1) % T46
  }

  /** Draw k is a to the power k times the seed, modulo 2^46. */
  lemma {:induction false} DrawnIsPower(s: nat, a: nat, k: nat)
    requires s < T46
    ensures Drawn(s, a, k) == Pow(a, k) * s % 0x4000_0000_0000
  {
    if k > 0 {
      DrawnIsPower(s, a, k - 1);
      MulModRight(a, Pow(a, k - 1) * s);
      Associate(a, Pow(a, k - 1), s);
    }
  }

  lemma NextDraw(s: nat, a: nat, k: nat)
    requires s < T46
    ensures Drawn(s, a, k + 1) == a * Drawn(s, a, k) % T46
  {
  }

  /** One draw with a multiplier b instead of a commutes with draws by a. */
  lemma {:induction false} DrawFirst(s: nat, a: nat, b: nat, k: nat)
    requires s < T46
    ensures Drawn(b * s % T46, a, k) == b * Drawn(s, a, k) % T46
  {
    if k > 0 {
      DrawFirst(s, a, b, k - 1);
      var d := Drawn(s, a, k - 1);
      MulModRight(a, b * d);
      MulModRight(b, a * d);
      Associate(a, b, d);
      Associate(b, a, d);
      assert a * b == b * a;
    }
  }

  /** Drawing k times with a squared is drawing 2k times with a. */
  lemma {:induction false} DrawSquare(s: nat, a: nat, k: nat)
    requires s < T46
    ensures Drawn(s, a * a % T46, k) == Drawn(s, a, 2 * k)
  {
    hide Drawn;
    NoDraws(s, a);
    NoDraws(s, a * a % T46);
    if k > 0 {
      DrawSquare(s, a, k - 1);
      var d := Drawn(s, a, 2 * k - 2);
      NextDraw(s, a, 2 * k - 2);
      NextDraw(s, a, 2 * k - 1);
      NextDraw(s, a * a % T46, k - 1);
      MulModRight(a, a * d);
      Associate(a, a, d);
      MulMod(a * a, d, T46);
    }
  }

  /** How many draws find_my_seed of the OpenMP version skips: none for thread 0, else nq, at least one. */
  function Skipped(kn: nat, np: nat, nn: nat): nat
    requires np > 0
  {
    var nq := (nn / 4 + np - 1) / np * 4 * kn;
    if kn > 0 && nq == 0 then 1 else nq
  }

  /** find_my_seed, OpenMP version. */
  method FindMySeed(kn: nat, np: nat, nn: nat, s: nat, a: nat) returns (seed: nat)
    requires np > 0 && s < T46 && a < T46
    ensures seed == Drawn(s, a, Skipped(kn, np, nn))
  {
    if kn == 0 { return s; }
    var mq := (nn / 4 + np - 1) / np;
    var nq := mq * 4 * kn;
    var t1 := new Double(s);
    var t2 := new Double(a);
    var kk := nq;
    while kk > 1
      invariant kk >= 0 && (nq > 0 ==> kk > 0) && (nq == 0 ==> kk == 0 && t1.v == s && t2.v == a)
      invariant t1.v < T46 && t2.v < T46 && t1 != t2
      invariant Drawn(t1.v, t2.v, kk) == Drawn(s, a, nq)
    {
      var ik := kk / 2;
      if 2 * ik == kk {
        DrawSquare(t1.v, t2.v, ik);
        var d := Randlc(t2, t2);
        kk := ik;
      } else {
        OddStep(t1.v, t2.v, kk);
        var d := Randlc(t1, t2);
        kk := kk - 1;
      }
    }
    OneDraw(t1.v, t2.v);
    var d := Randlc(t1, t2);
    seed := t1.v;
  }

  lemma OneDraw(s: nat, a: nat)
    requires s < T46
    ensures Drawn(s, a, 1) == a * s % T46
  {
    assert Drawn(s, a, 0) == s;
  }

  /** find_my_seed, MPI version: kn times the largest power of two up to nn / np. */
  method FindMySeedMpi(kn: nat, np: nat, nn: nat, s: nat, a: nat) returns (seed: nat)
    requires np > 0 && s < T46 && a < T46 && kn < 0x8000_0000
    ensures seed == Drawn(s, a, Times(kn, Pow2(Log2(nn / np))))
  {
    var mq, an := Multiplier(nn / np, a);
    seed := JumpAhead(kn, s, an);
    JumpIs(kn, mq, s, a, an);
    if nn / np >= 1 {
      Log2Bounds(nn / np);
      Pow2Unique(nn / np, mq, Log2(nn / np));
    }
  }

  /** One draw by b is p draws by a. */
  ghost predicate JumpsBy(b: nat, a: nat, p: nat) {
    forall x: nat, k: nat :: x < T46 ==> Drawn(x, b, k) == Drawn(x, a, Times(k, p))
  }

  lemma JumpsOne(a: nat)
    ensures JumpsBy(a, a, 1)
  {
    forall x: nat, k: nat | x < T46 ensures Drawn(x, a, k) == Drawn(x, a, Times(k, 1)) { TimesOne(k); }
  }

  lemma JumpsTwice(b: nat, a: nat, p: nat)
    requires JumpsBy(b, a, p)
    ensures JumpsBy(b * b % T46, a, 2 * p)
  {
    var c := b * b % T46;
    forall x: nat, k: nat | x < T46 ensures Drawn(x, c, k) == Drawn(x, a, Times(k, 2 * p)) {
      DrawSquare(x, b, k);
      TimesTwice(k, p);
    }
  }

  /** an = a^(2^mq), by repeated squaring. */
  method Multiplier(nq0: nat, a: nat) returns (mq: nat, an: nat)
    requires a < T46
    ensures nq0 >= 1 ==> Pow2(mq) <= nq0 < 2 * Pow2(mq)
    ensures nq0 == 0 ==> mq == 0
    ensures an < T46 && JumpsBy(an, a, Pow2(mq))
  {
    hide JumpsBy;
    var nq := nq0;
    mq := 0;
    while nq > 1
      invariant nq0 >= 1 ==> nq >= 1 && nq * Pow2(mq) <= nq0 < (nq + 1) * Pow2(mq)
      invariant nq0 == 0 ==> nq == mq == 0
    {
      HalveQuota(nq, Pow2(mq), nq0);
      mq := mq + 1;
      nq := nq / 2;
    }
    var t1 := new Double(a);
    var i := 1;
    JumpsOne(a);
    while i <= mq
      invariant 1 <= i <= mq + 1 && t1.v < T46 && JumpsBy(t1.v, a, Pow2(i - 1))
    {
      JumpsTwice(t1.v, a, Pow2(i - 1));
      var t2 := Randlc(t1, t1);
      i := i + 1;
    }
    an := t1.v;
  }

  lemma HalveQuota(nq: nat, p: nat, nq0: nat)
    requires nq > 1 && nq * p <= nq0 < (nq + 1) * p
    ensures (nq / 2) * (2 * p) <= nq0 < (nq / 2 + 1) * (2 * p)
  {
    var h := nq / 2;
    assert h * (2 * p) == (2 * h) * p && (h + 1) * (2 * p) == (2 * h + 2) * p;
    assert (2 * h) * p <= nq * p && (nq + 1) * p <= (2 * h + 2) * p;
  }

  lemma {:induction false} TimesTwice(k: nat, p: nat)
    ensures Times(2 * k, p) == Times(k, 2 * p)
  {
    if k > 0 { TimesTwice(k - 1, p); }
  }

  lemma OddStep(s: nat, a: nat, k: nat)
    requires s < T46 && k >= 1
    ensures Drawn(a * s % T46, a, k - 1) == Drawn(s, a, k)
  {
    DrawFirst(s, a, a, k - 1);
  }

  /** The binary exponentiation loop of the MPI version, at most 100 turns. */
  method JumpAhead(kn: nat, s: nat, an: nat) returns (seed: nat)
    requires s < T46 && an < T46 && kn < 0x8000_0000
    ensures seed == Drawn(s, an, kn)
  {
    hide Drawn; hide Pow2;
    var kk := kn;
    var t1 := new Double(s);
    var t2 := new Double(an);
    var i := 1;
    Pow2Of32();
    Pow2Monotone(32, 100);
    Pow2Ends();
    while i <= 100
      invariant 1 <= i <= 101 && t1.v < T46 && t2.v < T46 && t1 != t2
      invariant 0 <= kk < Pow2(101 - i) && Drawn(t1.v, t2.v, kk) == Drawn(s, an, kn)
    {
      var ik := kk / 2;
      if 2 * ik != kk {
        OddStep(t1.v, t2.v, kk);
        var t3 := Randlc(t1, t2);
      }
      assert Drawn(t1.v, t2.v, 2 * ik) == Drawn(s, an, kn);
      NoDraws(t1.v, t2.v);
      if ik == 0 { return t1.v; }
      DrawSquare(t1.v, t2.v, ik);
      HalfBelow(kk, 101 - i);
      var t3 := Randlc(t2, t2);
      kk := ik;
      i := i + 1;
    }
    NoDraws(t1.v, t2.v);
    seed := t1.v;
  }

  lemma HalfBelow(kk: nat, e: nat)
    requires e >= 1 && kk < Pow2(e)
    ensures kk / 2 < Pow2(e - 1)
  {
  }

  lemma Pow2Ends()
    ensures Pow2(0) == 1
  {
  }

  lemma NoDraws(s: nat, a: nat)
    requires s < T46
    ensures Drawn(s, a, 0) == s
  {
  }

  lemma JumpIs(kn: nat, mq: nat, s: nat, a: nat, an: nat)
    requires s < T46 && JumpsBy(an, a, Pow2(mq))
    ensures Drawn(s, an, kn) == Drawn(s, a, Times(kn, Pow2(mq)))
  {
  }
}
