/**
 * The layers of the job pool: layer l reserves one entry for every group-by of l dimensions.
 * Binomial counts, their computation term by term, why the layers tile the pool, and why distinct
 * masks never overrun their layer.
 */
module Layers {
  import opened Masks
  import opened RedBlackTree
  import opened Arith

  const MAX_NUM_OF_DIMS := 20

  function Binom(n: nat, k: nat): nat {
    if k == 0 then 1
    else if n == 0 then 0
    else Binom(n - 1, k) + Binom(n - 1, k - 1)
  }

  lemma {:induction false} BinomAbove(n: nat, k: nat)
    requires k > n
    ensures Binom(n, k) == 0
  {
    if n > 0 {
      BinomAbove(n - 1, k);
      BinomAbove(n - 1, k - 1);
    }
  }

  lemma DistributeLeft(x: int, y: int, z: int)
    ensures x * (y + z) == x * y + x * z
  {
  }

  lemma RatioStep(n: int, k: int, a: int, b: int, c: int)
    requires k * a == (n - k) * b && (k - 1) * b == (n - k + 1) * c
    ensures k * (a + b) == (n - k + 1) * (b + c)
  {
    DistributeLeft(k, a, b);
    DistributeLeft(n - k + 1, b, c);
    DistributeLeft(b, n - k, k);
    DistributeLeft(b, n - k + 1, k - 1);
  }

  /** The ratio of neighbouring coefficients, without division. */
  lemma {:induction false} BinomRatio(n: nat, k: nat)
    requires 1 <= k <= n
    ensures k * Binom(n, k) == (n - k + 1) * Binom(n, k - 1)
  {
    if k == n {
      BinomFull(n);
      BinomRatioLast(n);
    } else {
      BinomRatio(n - 1, k);
      var a, b := Binom(n - 1, k), Binom(n - 1, k - 1);
      var c := if k == 1 then 0 else Binom(n - 1, k - 2);
      if k > 1 { BinomRatio(n - 1, k - 1); }
      RatioStep(n, k, a, b, c);
      assert Binom(n, k) == a + b && Binom(n, k - 1) == b + c;
    }
  }

  lemma {:induction false} BinomFull(n: nat)
    ensures Binom(n, n) == 1
  {
    if n > 0 {
      BinomAbove(n - 1, n);
      BinomFull(n - 1);
    }
  }

  lemma {:induction false} BinomRatioLast(n: nat)
    requires n >= 1
    ensures Binom(n, n - 1) == n
  {
    if n > 1 {
      BinomRatioLast(n - 1);
      BinomFull(n - 1);
    }
  }

  lemma {:induction false} BinomBound(n: nat, k: nat)
    ensures Binom(n, k) <= Pow2(n)
  {
    if n > 0 && k > 0 {
      BinomBound(n - 1, k);
      BinomBound(n - 1, k - 1);
    }
  }

  /** One step of the product, in uint32 arithmetic. */
  function NextComb(combs: nat, n: nat, l: nat): nat
    requires 1 <= l <= n
  {
    combs * (n - l + 1) % UINT32 / l
  }

  /** Step l's product fits 32 bits. */
  ghost predicate Fits(n: nat, l: nat)
    requires 1 <= l <= n
  {
    Binom(n, l - 1) * (n - l + 1) < 0x1_0000_0000
  }

  /** No product on the way to Binom(n, k) wraps around. */
  ghost predicate NoWrap(n: nat, k: nat)
    requires k <= n
  {
    forall l :: 1 <= l <= k ==> Fits(n, l)
  }

  /**
   * NumOfCombsFromNbyK in uint32 arithmetic: the binomial coefficient exactly when no product
   * wraps around, else a smaller number.  The last k would never end the loop.
   */
  method NumOfCombsFromNbyK(n: nat, k: nat) returns (combsNbyK: nat)
    requires n < UINT32 && k < UINT32 - 1
    ensures combsNbyK <= Binom(n, k)
    ensures combsNbyK == Binom(n, k) <==> k > n || NoWrap(n, k)
  {
    hide Binom; hide Fits; hide NextComb;
    if k > n {
      BinomAbove(n, k);
      return 0;
    }
    combsNbyK := 1;
    BinomZero(n);
    var l := 1;
    while l <= k
      invariant 1 <= l <= k + 1
      invariant combsNbyK <= Binom(n, l - 1)
      invariant combsNbyK == Binom(n, l - 1) <==> NoWrap(n, l - 1)
    {
      CombStep(n, combsNbyK, l);
      combsNbyK := NextComb(combsNbyK, n, l);
      l := l + 1;
    }
  }

  lemma BinomZero(n: nat)
    ensures Binom(n, 0) == 1
  {
  }

  /** From the right number a step that fits leads to the right number; everything else ends too low. */
  lemma CombStep(n: nat, c: nat, l: nat)
    requires 1 <= l <= n && c <= Binom(n, l - 1)
    ensures NextComb(c, n, l) <= Binom(n, l)
    ensures NextComb(c, n, l) == Binom(n, l) <==> c == Binom(n, l - 1) && Fits(n, l)
  {
    hide Binom;
    BinomRatio(n, l);
    var m := n - l + 1;
    Commute(m, Binom(n, l - 1));
    Commute(l, Binom(n, l));
    ProductMonotone(c, Binom(n, l - 1), m);
    QuotientAtMost(c * m, Binom(n, l - 1) * m, Binom(n, l), l);
    if c < Binom(n, l - 1) { ProductMonotone(c + 1, Binom(n, l - 1), m); Distribute(c, 1, m); }
  }

  /** Dividing what is left of p <= b * l by l gives at most b, and b only if nothing was lost. */
  lemma QuotientAtMost(p: nat, q: nat, b: nat, l: nat)
    requires l >= 1 && p <= q == b * l
    ensures p % UINT32 / l <= b
    ensures p % UINT32 / l == b <==> p == q && p < UINT32
  {
    var v := p % UINT32;
    var d := v / l;
    assert v <= p && d * l <= v < d * l + l;
    FactorOrder(d, b, l);
    FactorOrder(b, d, l);
  }

  lemma FactorOrder(d: nat, b: nat, l: nat)
    requires l >= 1
    ensures d * l <= b * l <==> d <= b
    ensures d * l < b * l + l <==> d <= b
  {
    Distribute(b, 1, l);
    if d <= b { ProductMonotone(d, b, l); } else { ProductMonotone(b + 1, d, l); }
  }

  lemma Pow2Of20()
    ensures Pow2(20) == 0x10_0000
  {
    assert Pow2(10) == 1024;
  }

  /** Up to MAX_NUM_OF_DIMS dimensions nothing wraps around. */
  lemma DimsNoWrap(n: nat, k: nat)
    requires k <= n <= MAX_NUM_OF_DIMS
    ensures NoWrap(n, k)
  {
    hide Pow2; hide Binom;
    Pow2Monotone(n, 20);
    Pow2Of20();
    forall l | 1 <= l <= k ensures Fits(n, l) {
      BinomBound(n, l - 1);
      ProductMonotone(Binom(n, l - 1), 0x10_0000, n - l + 1);
    }
  }

  // ---------------------------------------------------------------------------
  // The layers tile the pool
  // ---------------------------------------------------------------------------

  /** layerIndex of layer i. */
  function LayerStart(n: nat, i: nat): nat
    requires i >= 1
  {
    if i == 1 then 1 else LayerStart(n, i - 1) + Binom(n, i - 1)
  }

  lemma LayerNext(n: nat, i: nat)
    requires i >= 1
    ensures LayerStart(n, i + 1) == LayerStart(n, i) + Binom(n, i)
  {
  }

  lemma {:induction false} LayerStartPascal(n: nat, i: nat)
    requires n >= 1 && i >= 1
    ensures LayerStart(n, i) + Binom(n - 1, i - 1) == 2 * LayerStart(n - 1, i)
  {
    if i > 1 {
      LayerStartPascal(n, i - 1);
    }
  }

  /** Layers 1..n fill entries 1..2^n - 1 exactly. */
  lemma {:induction false} LayersTile(n: nat)
    ensures LayerStart(n, n + 1) == Pow2(n)
  {
    if n > 0 {
      LayersTile(n - 1);
      LayerStartPascal(n, n + 1);
      BinomAbove(n - 1, n);
      assert LayerStart(n - 1, n + 1) == LayerStart(n - 1, n) + Binom(n - 1, n);
    }
  }

  lemma {:induction false} LayerStartMonotone(n: nat, i: nat, j: nat)
    requires 1 <= i <= j
    ensures LayerStart(n, i) <= LayerStart(n, j)
    ensures i < j ==> LayerStart(n, i) + Binom(n, i) <= LayerStart(n, j)
  {
    if i < j {
      LayerStartMonotone(n, i, j - 1);
    }
  }

  // ---------------------------------------------------------------------------
  // Counting masks
  // ---------------------------------------------------------------------------

  ghost function Extend(s: set<Bits>, b: bool): set<Bits> {
    set m | m in s :: m + [b]
  }

  /** All n-bit masks with l ones. */
  ghost function AllMasks(n: nat, l: nat): set<Bits> {
    if n == 0 then (if l == 0 then {[]} else {})
    else Extend(AllMasks(n - 1, l), false) + (if l > 0 then Extend(AllMasks(n - 1, l - 1), true) else {})
  }

  lemma SnocInjective(m: Bits, x: Bits, b: bool)
    ensures m + [b] == x + [b] ==> m == x
  {
    if m + [b] == x + [b] {
      assert (m + [b])[..|m|] == (x + [b])[..|x|];
    }
  }

  lemma {:induction false} ExtendSize(s: set<Bits>, b: bool)
    ensures |Extend(s, b)| == |s|
  {
    if s != {} {
      var x :| x in s;
      ExtendSize(s - {x}, b);
      forall m | m in s - {x} ensures m + [b] != x + [b] {
        SnocInjective(m, x, b);
      }
      assert Extend(s, b) == Extend(s - {x}, b) + {x + [b]};
    }
  }

  lemma ExtendDisjoint(s: set<Bits>, t: set<Bits>)
    ensures Extend(s, false) !! Extend(t, true)
  {
    forall x | x in Extend(s, false) ensures x !in Extend(t, true) {
      assert !x[|x|-1];
    }
  }

  lemma {:induction false} MaskListed(w: Bits)
    ensures w in AllMasks(|w|, Ones(w))
  {
    if w != [] {
      var n := |w| - 1;
      MaskListed(w[..n]);
      assert w == w[..n] + [w[n]];
    }
  }

  lemma DisjointSize(a: set<Bits>, b: set<Bits>)
    requires a !! b
    ensures |a + b| == |a| + |b|
  {
  }

  lemma AllMasksSize(n: nat, l: nat)
    requires n > 0
    ensures |AllMasks(n, l)| == |AllMasks(n - 1, l)| + (if l > 0 then |AllMasks(n - 1, l - 1)| else 0)
  {
    ExtendSize(AllMasks(n - 1, l), false);
    if l > 0 {
      ExtendSize(AllMasks(n - 1, l - 1), true);
      ExtendDisjoint(AllMasks(n - 1, l), AllMasks(n - 1, l - 1));
      DisjointSize(Extend(AllMasks(n - 1, l), false), Extend(AllMasks(n - 1, l - 1), true));
      assert AllMasks(n, l) == Extend(AllMasks(n - 1, l), false) + Extend(AllMasks(n - 1, l - 1), true);
    } else {
      assert AllMasks(n, l) == Extend(AllMasks(n - 1, l), false);
    }
  }

  lemma {:induction false} MasksCounted(n: nat, l: nat)
    ensures |AllMasks(n, l)| == Binom(n, l)
  {
    hide AllMasks;
    if n == 0 {
      EmptyMask(l);
    } else {
      AllMasksSize(n, l);
      MasksCounted(n - 1, l);
      if l > 0 {
        MasksCounted(n - 1, l - 1);
      } else {
        assert Binom(n, 0) == Binom(n - 1, 0);
      }
    }
  }

  lemma EmptyMask(l: nat)
    ensures |AllMasks(0, l)| == Binom(0, l)
  {
    if l == 0 {
      var s: set<Bits> := {[]};
      assert AllMasks(0, l) == s && |s| == 1;
    } else {
      assert AllMasks(0, l) == {};
    }
  }

  lemma {:induction false} SubsetSize(a: set<Bits>, b: set<Bits>)
    requires a <= b
    ensures |a| <= |b|
  {
    if a != {} {
      var x :| x in a;
      SubsetSize(a - {x}, b - {x});
    }
  }

  /** The processed masks with l ones. */
  ghost function InLayer(done: set<Bits>, l: nat): set<Bits> {
    set m | m in done && Ones(m) == l
  }

  /** A mask not processed before still has room in its layer. */
  lemma LayerHasRoom(done: set<Bits>, m: Bits, n: nat)
    requires |m| == n && m !in done
    requires forall x :: x in done ==> |x| == n
    ensures |InLayer(done, Ones(m))| < Binom(n, Ones(m))
  {
    var l := Ones(m);
    var s := InLayer(done, l) + {m};
    forall x | x in s ensures x in AllMasks(n, l) {
      MaskListed(x);
    }
    SubsetSize(s, AllMasks(n, l));
    MasksCounted(n, l);
  }

  lemma InLayerAdd(done: set<Bits>, m: Bits, l: nat)
    requires m !in done
    ensures |InLayer(done + {m}, l)| == |InLayer(done, l)| + (if Ones(m) == l then 1 else 0)
  {
    if Ones(m) == l {
      assert InLayer(done + {m}, l) == InLayer(done, l) + {m};
    } else {
      assert InLayer(done + {m}, l) == InLayer(done, l);
    }
  }
}
