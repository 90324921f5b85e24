/**
 * Which finished view a group-by is computed from: the kinds of parents GetParent distinguishes,
 * and its choice among the earlier requests.
 */
module Parents {
  import opened Masks

  datatype ParentKind = SmallestParent | PrefixedParent | SharedSortParent | NoneParent

  // ---------------------------------------------------------------------------
  // Candidate parents
  // ---------------------------------------------------------------------------

  /** Whether an entry may serve as a parent of the given kind. */
  predicate Candidate(kind: ParentKind, grpb: Bits, groupby: Bits, pfm: Bits, mlo: Bits, lom: Bits)
    requires |grpb| == |groupby| == |pfm| == |mlo| == |lom|
  {
    && And(groupby, grpb) == groupby
    && (kind.PrefixedParent? ==> And(grpb, pfm) == groupby)
    && (kind.SharedSortParent? ==> NonZero(And(grpb, mlo)) && !NonZero(And(grpb, lom)))
  }

  /** Some bit of g at position i or later is set. */
  predicate UpTo(g: Bits, i: nat) {
    exists j :: i <= j < |g| && g[j]
  }

  /** No bit of g up to position i is set. */
  predicate NoneUpTo(g: Bits, i: nat) {
    forall j :: 0 <= j <= i && j < |g| ==> !g[j]
  }

  /**
   * What the kinds mean: every kind is a superset of the group-by; a prefixed parent has no other
   * dimension up to the group-by's last one, a shared-sort parent none before its first one.
   */
  predicate Serves(kind: ParentKind, g: Bits, p: Bits) {
    && SubMask(g, p)
    && (kind.PrefixedParent? ==> forall i :: 0 <= i < |p| && p[i] && UpTo(g, i) ==> i < |g| && g[i])
    && (kind.SharedSortParent? ==> forall i :: 0 <= i < |p| && NoneUpTo(g, i) ==> !p[i])
  }

  /** The three masks GetParent compares with. */
  predicate ParentMasksOf(g: Bits, pfm: Bits, mlo: Bits, lom: Bits) {
    && |g| == |pfm| == |mlo| == |lom|
    && (forall i :: 0 <= i < |g| ==> (pfm[i] <==> UpTo(g, i)))
    && (forall i :: 0 <= i < |g| ==> (lom[i] <==> NoneUpTo(g, i)))
    && (forall i :: 0 <= i < |g| && mlo[i] ==> g[i])
    && (NonZero(g) ==> NonZero(mlo))
  }

  lemma MaskSizes(g: Bits, pfm: Bits, mlo: Bits, lom: Bits)
    requires ParentMasksOf(g, pfm, mlo, lom)
    ensures |g| == |pfm| == |mlo| == |lom|
  {
  }

  lemma PrefixTest(g: Bits, p: Bits, pfm: Bits)
    requires |g| == |p| == |pfm| && SubMask(g, p) && forall i :: 0 <= i < |g| ==> (pfm[i] <==> UpTo(g, i))
    ensures And(p, pfm) == g <==> Serves(PrefixedParent, g, p)
  {
    var a := And(p, pfm);
    assert forall i :: 0 <= i < |g| ==> a[i] == (p[i] && pfm[i]);
    assert forall i :: 0 <= i < |g| && g[i] ==> UpTo(g, i);
    if Serves(PrefixedParent, g, p) {
      assert forall i :: 0 <= i < |g| ==> a[i] == g[i];
    } else {
      var i :| 0 <= i < |p| && p[i] && UpTo(g, i) && !g[i];
      assert a[i] && !g[i];
    }
  }

  lemma FirstTest(g: Bits, p: Bits, mlo: Bits, lom: Bits)
    requires |g| == |p| == |mlo| == |lom| && SubMask(g, p)
    requires (forall i :: 0 <= i < |g| ==> (lom[i] <==> NoneUpTo(g, i))) && (forall i :: 0 <= i < |g| && mlo[i] ==> g[i]) && NonZero(mlo)
    ensures NonZero(And(p, mlo)) && !NonZero(And(p, lom)) <==> Serves(SharedSortParent, g, p)
  {
    hide And; hide NoneUpTo;
    Meets(p, mlo);
    Meets(p, lom);
    var f :| 0 <= f < |mlo| && mlo[f];
    assert p[f] && mlo[f];
    hide NonZero;
    if !Serves(SharedSortParent, g, p) {
      var i :| 0 <= i < |p| && NoneUpTo(g, i) && p[i];
      assert p[i] && lom[i];
    }
  }

  lemma Meets(a: Bits, b: Bits)
    requires |a| == |b|
    ensures NonZero(And(a, b)) <==> exists i :: 0 <= i < |a| && a[i] && b[i]
  {
    var c := And(a, b);
    assert forall i :: 0 <= i < |a| ==> c[i] == (a[i] && b[i]);
    if NonZero(c) {
      var i :| 0 <= i < |c| && c[i];
      assert a[i] && b[i];
    }
    if i :| 0 <= i < |a| && a[i] && b[i] {
      assert c[i];
    }
  }

  /** The mask tests decide the kinds. */
  lemma CandidateServes(kind: ParentKind, g: Bits, p: Bits, pfm: Bits, mlo: Bits, lom: Bits)
    requires |g| == |p| && ParentMasksOf(g, pfm, mlo, lom) && NonZero(g)
    ensures Candidate(kind, p, g, pfm, mlo, lom) <==> Serves(kind, g, p)
  {
    SubMaskTest(g, p);
    if SubMask(g, p) {
      PrefixTest(g, p, pfm);
      FirstTest(g, p, mlo, lom);
    }
  }

  // ---------------------------------------------------------------------------
  // The choice among the earlier requests
  // ---------------------------------------------------------------------------

  /** No mask of h is a superset of g. */
  ghost predicate NoParent(h: seq<Bits>, g: Bits) {
    forall a :: 0 <= a < |h| ==> !SubMask(g, h[a])
  }

  /**
   * The parent of g among the masks h, whose views have the given sizes: of the supersets with
   * the fewest dimensions, of the best kind there is among them, the first of the smallest.
   */
  ghost predicate ParentAmong(h: seq<Bits>, sizes: seq<nat>, g: Bits, kind: ParentKind, a: nat)
    requires |h| == |sizes|
  {
    && a < |h| && kind != NoneParent && Serves(kind, g, h[a])
    && (forall b :: 0 <= b < |h| && SubMask(g, h[b]) ==> Ones(h[a]) <= Ones(h[b]))
    && (forall b :: 0 <= b < |h| && Ones(h[b]) == Ones(h[a]) ==>
          && (Serves(kind, g, h[b]) ==> sizes[a] <= sizes[b] && (b < a ==> sizes[a] < sizes[b]))
          && (Serves(PrefixedParent, g, h[b]) ==> kind == PrefixedParent)
          && (Serves(SharedSortParent, g, h[b]) ==> kind != SmallestParent))
  }

  /** There is at most one such parent. */
  lemma ParentUnique(h: seq<Bits>, sizes: seq<nat>, g: Bits, kind: ParentKind, a: nat, kind1: ParentKind, a1: nat)
    requires |h| == |sizes| && ParentAmong(h, sizes, g, kind, a) && ParentAmong(h, sizes, g, kind1, a1)
    ensures kind == kind1 && a == a1
  {
    hide Ones;
    ServesIsSuperset(kind, g, h[a]);
    ServesIsSuperset(kind1, g, h[a1]);
    hide Serves; hide SubMask;
    assert Ones(h[a]) == Ones(h[a1]);
  }

  lemma ServesIsSuperset(kind: ParentKind, g: Bits, p: Bits)
    requires Serves(kind, g, p)
    ensures SubMask(g, p)
  {
  }

  // ---------------------------------------------------------------------------
  // Places in the layers
  // ---------------------------------------------------------------------------

  /** How many masks of h have l dimensions. */
  function CountOnes(h: seq<Bits>, l: nat): nat {
    if h == [] then 0 else CountOnes(h[..|h| - 1], l) + (if Ones(h[|h| - 1]) == l then 1 else 0)
  }

  lemma {:induction false} CountPrefix(h: seq<Bits>, a: nat, l: nat)
    requires a < |h|
    ensures CountOnes(h[..a], l) + (if Ones(h[a]) == l then 1 else 0) == CountOnes(h[..a + 1], l) <= CountOnes(h, l)
  {
    hide Ones;
    assert h[..a + 1][..a] == h[..a];
    if a + 1 < |h| {
      var front := h[..|h| - 1];
      CountPrefix(front, a, l);
      assert front[..a] == h[..a] && front[..a + 1] == h[..a + 1];
    } else {
      assert h[..a + 1] == h;
    }
  }

  lemma {:induction false} CountMonotone(h: seq<Bits>, a: nat, b: nat, l: nat)
    requires a <= b <= |h|
    ensures CountOnes(h[..a], l) <= CountOnes(h[..b], l)
  {
    hide Ones; hide CountOnes;
    if a < b {
      CountMonotone(h, a, b - 1, l);
      CountPrefix(h, b - 1, l);
    }
  }

  /** The i-th mask with l dimensions. */
  lemma {:induction false} NthOfLayer(h: seq<Bits>, l: nat, i: nat) returns (a: nat)
    requires i < CountOnes(h, l)
    ensures a < |h| && Ones(h[a]) == l && CountOnes(h[..a], l) == i
  {
    hide Ones;
    var n := |h| - 1;
    var front := h[..n];
    if i < CountOnes(front, l) {
      a := NthOfLayer(front, l, i);
      assert front[..a] == h[..a];
    } else {
      a := n;
    }
  }
}
