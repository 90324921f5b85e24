/**
 * The arcs of the three DT graphs, and what shape they give: butterfly (SH), in-tree (BH) and
 * out-tree (WH).
 */
module GraphShapes {
  import opened Arith
  import opened DGraphs

  // ---------------------------------------------------------------------------
  // Paths
  // ---------------------------------------------------------------------------

  /** p is a path of arcs from s to t. */
  predicate IsPath(arcs: seq<Arc>, p: seq<nat>, s: nat, t: nat) {
    if p == [] then s == t
    else p[0] < |arcs| && arcs[p[0]].tail == s && IsPath(arcs, p[1..], arcs[p[0]].head, t)
  }

  ghost predicate UniquePath(arcs: seq<Arc>, s: nat, t: nat) {
    && (exists p :: IsPath(arcs, p, s, t))
    && (forall p, q :: IsPath(arcs, p, s, t) && IsPath(arcs, q, s, t) ==> p == q)
  }

  ghost predicate Upward(arcs: seq<Arc>) {
    forall a :: 0 <= a < |arcs| ==> arcs[a].tail < arcs[a].head
  }

  /** A path's last arc. */
  lemma {:induction false} PathLast(arcs: seq<Arc>, p: seq<nat>, s: nat, t: nat)
    requires IsPath(arcs, p, s, t) && p != []
    ensures var n := |p| - 1;
      p[n] < |arcs| && arcs[p[n]].head == t && IsPath(arcs, p[..n], s, arcs[p[n]].tail)
  {
    var n := |p| - 1;
    if n > 0 {
      PathLast(arcs, p[1..], arcs[p[0]].head, t);
      assert p[1..][..n - 1] == p[..n][1..];
    }
  }

  lemma {:induction false} PathExtend(arcs: seq<Arc>, p: seq<nat>, s: nat, a: nat)
    requires a < |arcs| && IsPath(arcs, p, s, arcs[a].tail)
    ensures IsPath(arcs, p + [a], s, arcs[a].head)
  {
    if p != [] {
      PathExtend(arcs, p[1..], arcs[p[0]].head, a);
      assert (p + [a])[1..] == p[1..] + [a];
    }
  }

  // ---------------------------------------------------------------------------
  // Bits of a node's position in its layer
  // ---------------------------------------------------------------------------

  /** i & ~(1 << j) */
  function Clear(i: nat, j: nat): nat {
    if j == 0 then i - i % 2 else 2 * Clear(i / 2, j - 1) + i % 2
  }

  /** i >> j */
  function Shr(i: nat, j: nat): nat {
    if j == 0 then i else Shr(i / 2, j - 1)
  }

  lemma {:induction false} ShrShr(i: nat, j: nat)
    ensures Shr(i, j + 1) == Shr(i, j) / 2
  {
    if j > 0 { ShrShr(i / 2, j - 1); }
  }

  /** The two positions that differ from i in bit j at most: above bit j they agree with i. */
  lemma {:induction false} ClearShr(i: nat, j: nat)
    ensures Shr(Clear(i, j), j) == 2 * Shr(i, j + 1)
    ensures Shr(Clear(i, j) + Pow2(j), j) == 2 * Shr(i, j + 1) + 1
  {
    if j > 0 {
      ClearShr(i / 2, j - 1);
      assert Clear(i, j) / 2 == Clear(i / 2, j - 1);
      assert (Clear(i, j) + Pow2(j)) / 2 == Clear(i / 2, j - 1) + Pow2(j - 1);
    }
  }

  lemma {:induction false} ClearInRange(i: nat, j: nat, d: nat)
    requires j < d && i < Pow2(d)
    ensures Clear(i, j) + Pow2(j) < Pow2(d)
  {
    if j > 0 { ClearInRange(i / 2, j - 1, d - 1); }
  }

  lemma {:induction false} ShrSmall(i: nat, d: nat)
    requires i < Pow2(d)
    ensures Shr(i, d) == 0
  {
    if d > 0 { ShrSmall(i / 2, d - 1); }
  }

  // ---------------------------------------------------------------------------
  // SH: the butterfly
  // ---------------------------------------------------------------------------

  /** Arc a of the layer whose nodes start at first + n: two arcs enter each node. */
  function LayerArc(first: nat, n: nat, j: nat, a: nat): Arc {
    Arc(first + Clear(a / 2, j) + (if a % 2 == 1 then Pow2(j) else 0), first + n + a / 2)
  }

  function LayerArcs(first: nat, n: nat, j: nat): (s: seq<Arc>)
    ensures |s| == 2 * n
  {
    seq(2 * n, a requires 0 <= a => LayerArc(first, n, j, a))
  }

  /** The first d layers of arcs above n sources. */
  ghost function ShArcs(n: nat, d: nat): (s: seq<Arc>)
    ensures |s| == 2 * Times(d, n)
  {
    if d == 0 then [] else ShArcs(n, d - 1) + LayerArcs(Times(d - 1, n), n, d - 1)
  }

  /** The two arcs into node i of layer q. */
  lemma {:induction false} ShArcAt(n: nat, d: nat, q: nat, i: nat, b: bool)
    requires 1 <= q <= d && i < n
    ensures var a := 2 * (Times(q - 1, n) + i) + (if b then 1 else 0);
      a < |ShArcs(n, d)| &&
      ShArcs(n, d)[a] == Arc(Times(q - 1, n) + Clear(i, q - 1) + (if b then Pow2(q - 1) else 0), Times(q, n) + i)
  {
    hide Clear; hide Pow2;
    var a := 2 * (Times(q - 1, n) + i) + (if b then 1 else 0);
    if q < d {
      ShArcAt(n, d - 1, q, i, b);
    } else {
      var k := 2 * i + (if b then 1 else 0);
      assert k / 2 == i && (k % 2 == 1 <==> b);
      assert ShArcs(n, d)[a] == LayerArcs(Times(q - 1, n), n, q - 1)[k];
    }
  }

  /** Arc heads grow with the arc ids: two arcs a node, from the first comparator on. */
  lemma {:induction false} ShHead(n: nat, d: nat, a: nat)
    requires a < |ShArcs(n, d)|
    ensures ShArcs(n, d)[a].head == n + a / 2
  {
    var t := Times(d - 1, n);
    if a < 2 * t {
      ShHead(n, d - 1, a);
    } else {
      assert ShArcs(n, d)[a] == LayerArcs(t, n, d - 1)[a - 2 * t];
    }
  }

  /** Every arc leads to a higher node, and none leaves the last layer. */
  lemma {:induction false} ShUpward(d: nat, k: nat)
    requires k <= d
    ensures Upward(ShArcs(Pow2(d), k))
    ensures forall a :: 0 <= a < |ShArcs(Pow2(d), k)| ==> ShArcs(Pow2(d), k)[a].tail < Times(k, Pow2(d))
  {
    var n := Pow2(d);
    if k > 0 {
      ShUpward(d, k - 1);
      var t := Times(k - 1, n);
      forall a | 2 * t <= a < |ShArcs(n, k)|
        ensures ShArcs(n, k)[a].tail < ShArcs(n, k)[a].head && ShArcs(n, k)[a].tail < Times(k, n)
      {
        assert ShArcs(n, k)[a] == LayerArcs(t, n, k - 1)[a - 2 * t];
        ClearInRange((a - 2 * t) / 2, k - 1, d);
      }
    }
  }

  /** The lower neighbour of node i of layer q, on the side given by b. */
  function Below(i: nat, q: nat, b: bool): nat
    requires q >= 1
  {
    Clear(i, q - 1) + (if b then Pow2(q - 1) else 0)
  }

  /** Which of the two lower neighbours a path from s comes through. */
  predicate Side(s: nat, q: nat)
    requires q >= 1
  {
    Shr(s, q - 1) % 2 == 1
  }

  /** The neighbour that agrees with s above bit q - 1. */
  lemma BelowAgrees(s: nat, i: nat, q: nat, b: bool)
    requires q >= 1
    ensures Shr(s, q - 1) == Shr(Below(i, q, b), q - 1) <==> Shr(s, q) == Shr(i, q) && b == Side(s, q)
  {
    ClearShr(i, q - 1);
    ShrShr(s, q - 1);
  }

  ghost function ArcInto(n: nat, q: nat, i: nat, b: bool): nat
    requires q >= 1
  {
    2 * (Times(q - 1, n) + i) + (if b then 1 else 0)
  }

  lemma BelowArc(d: nat, q: nat, i: nat, b: bool)
    requires 1 <= q <= d && i < Pow2(d)
    ensures Below(i, q, b) < Pow2(d) && ArcInto(Pow2(d), q, i, b) < |ShArcs(Pow2(d), d)|
    ensures ShArcs(Pow2(d), d)[ArcInto(Pow2(d), q, i, b)] ==
      Arc(Times(q - 1, Pow2(d)) + Below(i, q, b), Times(q, Pow2(d)) + i)
  {
    ClearInRange(i, q - 1, d);
    ShArcAt(Pow2(d), d, q, i, b);
  }

  /** From source s to node i of layer q there is a path if they agree above bit q. */
  lemma {:induction false} ShPath(d: nat, q: nat, s: nat, i: nat) returns (p: seq<nat>)
    requires q <= d && s < Pow2(d) && i < Pow2(d) && Shr(s, q) == Shr(i, q)
    ensures IsPath(ShArcs(Pow2(d), d), p, s, Times(q, Pow2(d)) + i)
  {
    if q == 0 {
      p := [];
    } else {
      var b, a := Side(s, q), ArcInto(Pow2(d), q, i, Side(s, q));
      BelowAgrees(s, i, q, b);
      BelowArc(d, q, i, b);
      var front := ShPath(d, q - 1, s, Below(i, q, b));
      PathExtend(ShArcs(Pow2(d), d), front, s, a);
      p := front + [a];
    }
  }

  /** The last arc of a path into layer q enters from one of the two neighbours. */
  lemma ShPathLast(d: nat, q: nat, s: nat, i: nat, p: seq<nat>) returns (b: bool)
    requires 1 <= q <= d && s < Pow2(d) && i < Pow2(d)
    requires IsPath(ShArcs(Pow2(d), d), p, s, Times(q, Pow2(d)) + i)
    ensures p != [] && p[|p| - 1] == ArcInto(Pow2(d), q, i, b)
    ensures IsPath(ShArcs(Pow2(d), d), p[..|p| - 1], s, Times(q - 1, Pow2(d)) + Below(i, q, b))
  {
    var n, arcs := Pow2(d), ShArcs(Pow2(d), d);
    PathLast(arcs, p, s, Times(q, n) + i);
    var a := p[|p| - 1];
    ShHead(n, d, a);
    b := a % 2 == 1;
    BelowArc(d, q, i, b);
  }

  /** A path needs that agreement, and there is no other. */
  lemma {:induction false} ShPathOnly(d: nat, q: nat, s: nat, i: nat, p: seq<nat>, p': seq<nat>)
    requires q <= d && s < Pow2(d) && i < Pow2(d)
    requires IsPath(ShArcs(Pow2(d), d), p, s, Times(q, Pow2(d)) + i)
    requires IsPath(ShArcs(Pow2(d), d), p', s, Times(q, Pow2(d)) + i)
    ensures Shr(s, q) == Shr(i, q) && p == p'
    decreases q
  {
    hide ShArcs; hide IsPath; hide Shr; hide Below; hide Side; hide ArcInto;
    if q == 0 {
      SourcePath(d, s, i, p);
      SourcePath(d, s, i, p');
    } else {
      var b := ShPathLast(d, q, s, i, p);
      var b' := ShPathLast(d, q, s, i, p');
      BelowArc(d, q, i, b);
      BelowArc(d, q, i, b');
      ShPathOnly(d, q - 1, s, Below(i, q, b), p[..|p| - 1], p[..|p| - 1]);
      ShPathOnly(d, q - 1, s, Below(i, q, b'), p'[..|p'| - 1], p'[..|p'| - 1]);
      BelowAgrees(s, i, q, b);
      BelowAgrees(s, i, q, b');
      ShPathOnly(d, q - 1, s, Below(i, q, b), p[..|p| - 1], p'[..|p'| - 1]);
      assert p == p[..|p| - 1] + [p[|p| - 1]] && p' == p'[..|p'| - 1] + [p'[|p'| - 1]];
    }
  }

  /** No arc enters a source. */
  lemma SourcePath(d: nat, s: nat, i: nat, p: seq<nat>)
    requires s < Pow2(d) && i < Pow2(d) && IsPath(ShArcs(Pow2(d), d), p, s, i)
    ensures p == [] && s == i
  {
    if p != [] {
      PathLast(ShArcs(Pow2(d), d), p, s, i);
      ShHead(Pow2(d), d, p[|p| - 1]);
    }
  }

  /** In SH each source has exactly one path to each sink. */
  lemma ShUniquePaths(d: nat, s: nat, t: nat)
    requires s < Pow2(d) && t < Pow2(d)
    ensures UniquePath(ShArcs(Pow2(d), d), s, Times(d, Pow2(d)) + t)
  {
    var arcs, sink := ShArcs(Pow2(d), d), Times(d, Pow2(d)) + t;
    ShrSmall(s, d);
    ShrSmall(t, d);
    var p := ShPath(d, d, s, t);
    forall p, q | IsPath(arcs, p, s, sink) && IsPath(arcs, q, s, sink) ensures p == q {
      ShPathOnly(d, d, s, t, p, q);
    }
  }

  // ---------------------------------------------------------------------------
  // The butterfly in plain arithmetic
  // ---------------------------------------------------------------------------

  /** i has the bits hi above bit j, b in it and lo below it, where p is 2^j. */
  ghost predicate BitsOf(i: nat, p: nat, hi: nat, b: nat, lo: nat) {
    lo < p && b < 2 && i == (2 * hi + b) * p + lo
  }

  lemma SplitBits(i: nat, p: nat) returns (hi: nat, b: nat, lo: nat)
    requires p > 0
    ensures BitsOf(i, p, hi, b, lo)
  {
    var m := i / p;
    hi, b, lo := m / 2, m % 2, i % p;
    assert i == m * p + lo;
  }

  lemma JoinBits(p: nat, hi: nat, b: nat, lo: nat) returns (i: nat)
    requires lo < p && b < 2
    ensures BitsOf(i, p, hi, b, lo)
  {
    i := (2 * hi + b) * p + lo;
  }

  lemma SameBits(i: nat, i': nat, p: nat, hi: nat, b: nat, lo: nat)
    requires BitsOf(i, p, hi, b, lo)
    ensures BitsOf(i', p, hi, b, lo) <==> i' == i
  {
  }

  lemma DoubleParts(p: nat, hi: nat, b: nat)
    requires b < 2
    ensures hi * (2 * p) == 2 * (hi * p) && (hi + 1) * (2 * p) == 2 * (hi * p) + 2 * p
    ensures (2 * hi + b) * p == 2 * (hi * p) + b * p && 0 <= b * p <= p
  {
  }

  lemma BitParts(i: nat, p: nat, hi: nat, b: nat, lo: nat)
    requires BitsOf(i, p, hi, b, lo)
    ensures p > 0 && i / p == 2 * hi + b && i % p == lo && i / (2 * p) == hi
  {
    var m := 2 * hi + b;
    Distribute(m, 1, p);
    ModOf(i, p, m, lo);
    QuotientUnique(i, p, m);
    DoubleParts(p, hi, b);
    QuotientUnique(i, 2 * p, hi);
  }

  lemma OneBitApart(i: nat, y: nat, p: nat, hi: nat, c: nat, b: nat, lo: nat)
    requires BitsOf(i, p, hi, c, lo) && BitsOf(y, p, hi, b, lo)
    ensures p > 0 && y / (2 * p) == i / (2 * p) && y % p == i % p && y / p % 2 == b
  {
    BitParts(i, p, hi, c, lo);
    BitParts(y, p, hi, b, lo);
  }

  lemma HalfBits(i: nat, p: nat, hi: nat, b: nat, lo: nat)
    requires BitsOf(i, 2 * p, hi, b, lo)
    ensures BitsOf(i / 2, p, hi, b, lo / 2) && i % 2 == lo % 2
  {
    var m := 2 * hi + b;
    assert m * (2 * p) == 2 * (m * p);
  }

  lemma DoubleBits(i: nat, p: nat, hi: nat, b: nat, lo: nat, r: nat)
    requires BitsOf(i, p, hi, b, lo) && r < 2
    ensures BitsOf(2 * i + r, 2 * p, hi, b, 2 * lo + r)
  {
    var m := 2 * hi + b;
    assert m * (2 * p) == 2 * (m * p);
  }

  /** Clearing a bit, and setting it again, keeps the bits on both sides of it. */
  lemma {:induction false} ClearBits(i: nat, j: nat, hi: nat, b: nat, lo: nat)
    requires BitsOf(i, Pow2(j), hi, b, lo)
    ensures BitsOf(Clear(i, j), Pow2(j), hi, 0, lo) && BitsOf(Clear(i, j) + Pow2(j), Pow2(j), hi, 1, lo)
  {
    if j > 0 {
      hide BitsOf;
      HalfBits(i, Pow2(j - 1), hi, b, lo);
      ClearBits(i / 2, j - 1, hi, b, lo / 2);
      DoubleBits(Clear(i / 2, j - 1), Pow2(j - 1), hi, 0, lo / 2, lo % 2);
      DoubleBits(Clear(i / 2, j - 1) + Pow2(j - 1), Pow2(j - 1), hi, 1, lo / 2, lo % 2);
    }
  }

  lemma BelowBits(i: nat, q: nat, b: bool, hi: nat, c: nat, lo: nat)
    requires q >= 1 && BitsOf(i, Pow2(q - 1), hi, c, lo)
    ensures BitsOf(Below(i, q, b), Pow2(q - 1), hi, if b then 1 else 0, lo)
  {
    hide BitsOf;
    ClearBits(i, q - 1, hi, c, lo);
  }

  lemma InLayer(q: nat, n: nat, i: nat)
    requires i < n
    ensures (Times(q, n) + i) / n == q && (Times(q, n) + i) % n == i
  {
    TimesIsProduct(q, n);
    ModOf(q * n + i, n, q, i);
    Distribute(q, 1, n);
    QuotientUnique(q * n + i, n, q);
  }

  /** The layer of a node, and its position there. */
  lemma LayerOf(x: nat, n: nat, d: nat) returns (q: nat, i: nat)
    requires n > 0 && x < Times(d, n)
    ensures q < d && i < n && x == Times(q, n) + i
  {
    q, i := x / n, x % n;
    assert x == q * n + i;
    TimesIsProduct(d, n);
    TimesIsProduct(q, n);
    QuotientBelow(x, n, d);
  }

  /** The layer an arc leads to, the position it enters there, and its side. */
  lemma ArcPlace(d: nat, a: nat) returns (q: nat, i: nat, b: bool)
    requires a < |ShArcs(Pow2(d), d)|
    ensures 1 <= q <= d && i < Pow2(d) && a == ArcInto(Pow2(d), q, i, b) && a % 2 == if b then 1 else 0
  {
    q, i := LayerOf(a / 2, Pow2(d), d);
    q, b := q + 1, a % 2 == 1;
  }

  /** An arc joins positions that agree in every bit but one: bit q - 1, on the way into layer q. */
  lemma ShArcBits(d: nat, a: nat)
    requires a < |ShArcs(Pow2(d), d)|
    ensures var n, arc := Pow2(d), ShArcs(Pow2(d), d)[a]; var q := arc.head / n;
      && arc.head == n + a / 2 && 1 <= q <= d && arc.tail / n == q - 1
      && (arc.tail % n) / Pow2(q) == (arc.head % n) / Pow2(q)
      && (arc.tail % n) % Pow2(q - 1) == (arc.head % n) % Pow2(q - 1)
      && (arc.tail % n) / Pow2(q - 1) % 2 == a % 2
  {
    hide ShArcs; hide BitsOf; hide Below; hide ArcInto; hide Times;
    ShHead(Pow2(d), d, a);
    var q, i, b := ArcPlace(d, a);
    BelowArc(d, q, i, b);
    var p := Pow2(q - 1);
    var hi, c, lo := SplitBits(i, p);
    BelowBits(i, q, b, hi, c, lo);
    OneBitApart(i, Below(i, q, b), p, hi, c, if b then 1 else 0, lo);
    assert 2 * p == Pow2(q);
    InLayer(q, Pow2(d), i);
    InLayer(q - 1, Pow2(d), Below(i, q, b));
  }

  /** The lower neighbour on side c, of a position that differs from y in that bit at most, is y. */
  lemma BelowIs(d: nat, q: nat, i: nat, c: nat, hi: nat, lo: nat, b: nat, y: nat)
    requires 1 <= q <= d && BitsOf(i, Pow2(q - 1), hi, b, lo) && BitsOf(y, Pow2(q - 1), hi, c, lo)
    ensures Below(i, q, c == 1) == y
  {
    BelowBits(i, q, c == 1, hi, b, lo);
  }

  lemma Neighbour(y: nat, q: nat, d: nat, hi: nat, c: nat, lo: nat, b: nat, i: nat)
    requires 1 <= q <= d && y < Pow2(d) && BitsOf(y, Pow2(q - 1), hi, c, lo) && BitsOf(i, Pow2(q - 1), hi, b, lo)
    ensures i < Pow2(d)
  {
    ClearInRange(y, q - 1, d);
    ClearBits(y, q - 1, hi, c, lo);
  }

  /** An arc that leaves node y of layer q - 1 enters one of the two positions that differ from y in bit q - 1 at most. */
  lemma OnlyArcs(d: nat, q: nat, y: nat, hi: nat, c: nat, lo: nat, e: nat) returns (i: nat, b: nat)
    requires 1 <= q <= d && y < Pow2(d) && BitsOf(y, Pow2(q - 1), hi, c, lo)
    requires e < |ShArcs(Pow2(d), d)| && ShArcs(Pow2(d), d)[e].tail == Times(q - 1, Pow2(d)) + y
    ensures BitsOf(i, Pow2(q - 1), hi, b, lo) && e == ArcInto(Pow2(d), q, i, c == 1) && b < 2
  {
    hide ShArcs; hide Below; hide ArcInto; hide Times; hide BitsOf;
    var q', side;
    q', i, side := ArcPlace(d, e);
    BelowArc(d, q', i, side);
    InLayer(q - 1, Pow2(d), y);
    InLayer(q' - 1, Pow2(d), Below(i, q', side));
    var hi', lo';
    hi', b, lo' := SplitBits(i, Pow2(q - 1));
    BelowBits(i, q, side, hi', b, lo');
    BitParts(y, Pow2(q - 1), hi, c, lo);
    BitParts(y, Pow2(q - 1), hi', if side then 1 else 0, lo');
    BitRange(y, Pow2(q - 1), hi, c, lo);
    BitRange(i, Pow2(q - 1), hi', b, lo');
  }

  lemma BitRange(i: nat, p: nat, hi: nat, b: nat, lo: nat)
    requires BitsOf(i, p, hi, b, lo)
    ensures b < 2 && lo < p
  {
  }

  lemma BitsOrder(i: nat, i': nat, p: nat, hi: nat, lo: nat)
    requires BitsOf(i, p, hi, 0, lo) && BitsOf(i', p, hi, 1, lo)
    ensures i' == i + p
  {
    Distribute(2 * hi, 1, p);
  }

  lemma TwoListed(arcs: seq<Arc>, x: nat, a: nat, b: nat)
    requires a < b < |arcs|
    requires forall c :: 0 <= c < |arcs| ==> (arcs[c].tail == x <==> c == a || c == b)
    ensures OutArcs(arcs, x) == [a, b]
  {
    var list := OutArcs(arcs, x);
    ListsIncreasing(arcs, x);
    assert a in list && b in list;
    forall i | 0 <= i < |list| ensures list[i] == a || list[i] == b { assert list[i] in list; }
    if |list| > 2 { assert list[0] < list[1] < list[2]; }
  }

  /** From every node below the sinks exactly two arcs lead away. */
  lemma ShOutDegree(d: nat, x: nat) returns (a: nat, b: nat)
    requires x < Times(d, Pow2(d))
    ensures a < b < |ShArcs(Pow2(d), d)| && OutArcs(ShArcs(Pow2(d), d), x) == [a, b]
    ensures forall c :: 0 <= c < |ShArcs(Pow2(d), d)| ==> (ShArcs(Pow2(d), d)[c].tail == x <==> c == a || c == b)
  {
    hide ShArcs; hide BitsOf; hide Below; hide Times;
    var n, arcs := Pow2(d), ShArcs(Pow2(d), d);
    var l, y := LayerOf(x, n, d);
    var q, p := l + 1, Pow2(l);
    var hi, c, lo := SplitBits(y, p);
    BitRange(y, p, hi, c, lo);
    var i0 := JoinBits(p, hi, 0, lo);
    var i1 := JoinBits(p, hi, 1, lo);
    BitsOrder(i0, i1, p, hi, lo);
    a := OutArcAt(d, q, y, hi, c, lo, 0, i0);
    b := OutArcAt(d, q, y, hi, c, lo, 1, i1);
    forall e | 0 <= e < |arcs| ensures arcs[e].tail == x <==> e == a || e == b {
      if arcs[e].tail == x {
        var i, s := OnlyArcs(d, q, y, hi, c, lo, e);
        SameBits(if s == 0 then i0 else i1, i, p, hi, s, lo);
      }
    }
    TwoListed(arcs, x, a, b);
  }

  lemma OutArcAt(d: nat, q: nat, y: nat, hi: nat, c: nat, lo: nat, b: nat, i: nat) returns (a: nat)
    requires 1 <= q <= d && y < Pow2(d) && BitsOf(y, Pow2(q - 1), hi, c, lo) && BitsOf(i, Pow2(q - 1), hi, b, lo)
    ensures a == ArcInto(Pow2(d), q, i, c == 1) && a < |ShArcs(Pow2(d), d)| && ShArcs(Pow2(d), d)[a].tail == Times(q - 1, Pow2(d)) + y
  {
    hide ShArcs; hide BitsOf; hide Below; hide Times;
    a := ArcInto(Pow2(d), q, i, c == 1);
    Neighbour(y, q, d, hi, c, lo, b, i);
    BelowIs(d, q, i, c, hi, lo, b, y);
    BelowArc(d, q, i, c == 1);
  }

  // ---------------------------------------------------------------------------
  // BH: the in-tree
  // ---------------------------------------------------------------------------

  /** Where the arcs of a layer of `prev` nodes, starting at `first`, and of those above it lead. */
  function TreeHeads(prev: nat, first: nat): (s: seq<nat>)
    ensures |s| >= prev
    decreases prev
  {
    if prev <= 4 then seq(prev, c => first + prev)
    else seq(prev, c requires 0 <= c => first + prev + c / 4) + TreeHeads((prev + 3) / 4, first + prev)
  }

  /** Node x, other than the sink, has arc x as its only outgoing arc. */
  function BhArcs(n: nat): (s: seq<Arc>)
    ensures |s| == |TreeHeads(n, 0)|
  {
    var h := TreeHeads(n, 0);
    seq(|h|, x requires 0 <= x < |h| => Arc(x, h[x]))
  }

  lemma {:induction false} HeadRange(prev: nat, first: nat, k: nat)
    requires k < |TreeHeads(prev, first)|
    ensures first + k < TreeHeads(prev, first)[k] <= first + |TreeHeads(prev, first)|
    ensures TreeHeads(prev, first)[k] >= first + prev
    decreases prev
  {
    if prev > 4 {
      var rest := TreeHeads((prev + 3) / 4, first + prev);
      if k >= prev {
        HeadRange((prev + 3) / 4, first + prev, k - prev);
      }
    }
  }

  lemma HeadAt(prev: nat, first: nat, k: nat)
    requires prev > 4 && k < |TreeHeads(prev, first)|
    ensures var rest := TreeHeads((prev + 3) / 4, first + prev);
      && |TreeHeads(prev, first)| == prev + |rest|
      && TreeHeads(prev, first)[k] == if k < prev then first + prev + k / 4 else rest[k - prev]
  {
  }

  lemma ShortHeads(prev: nat, first: nat)
    requires prev <= 4
    ensures |TreeHeads(prev, first)| == prev && forall k :: 0 <= k < prev ==> TreeHeads(prev, first)[k] == first + prev
  {
  }

  /** Layer k of the tree: as many nodes as n sources need when each parent takes 4 to the k of them. */
  function LayerSize(n: nat, k: nat): nat {
    PowPositive(4, k);
    (n + Pow(4, k) - 1) / Pow(4, k)
  }

  /** The nodes of all layers below layer k. */
  function LayerFirst(n: nat, k: nat): nat {
    if k == 0 then 0 else LayerFirst(n, k - 1) + LayerSize(n, k - 1)
  }

  lemma SizeZero(n: nat)
    ensures LayerSize(n, 0) == n
  {
  }

  lemma SizeNext(n: nat, k: nat)
    ensures LayerSize(n, k + 1) == (LayerSize(n, k) + 3) / 4
  {
    PowPositive(4, k);
    var m: nat := Pow(4, k);
    var q := (n + m - 1) / m;
    assert n + m - 1 == q * m + (n + m - 1) % m;
    var r := (q + 3) / 4;
    ProductMonotone(q, 4 * r, m);
    if r > 0 { ProductMonotone(4 * r - 3, q, m); }
    FourTimes(r, m);
    QuotientUnique(n + 4 * m - 1, 4 * m, r);
  }

  lemma FourTimes(r: nat, m: nat)
    ensures r * (4 * m) == (4 * r) * m && (r + 1) * (4 * m) == (4 * r) * m + 4 * m
    ensures r > 0 ==> (4 * r - 3) * m == (4 * r) * m - 3 * m
  {
    assert r * (4 * m) == 4 * (r * m) == (4 * r) * m;
  }

  lemma HeadsAbove(prev: nat, first: nat)
    requires prev > 4
    ensures TreeHeads(prev, first)[prev..] == TreeHeads((prev + 3) / 4, first + prev)
  {
  }

  /** The layers are where the builder puts them, as long as all below have more than four nodes. */
  lemma {:induction false} TreeLayers(n: nat, k: nat)
    requires k > 0 ==> LayerSize(n, k - 1) > 4
    ensures LayerFirst(n, k) <= |TreeHeads(n, 0)|
    ensures TreeHeads(n, 0)[LayerFirst(n, k)..] == TreeHeads(LayerSize(n, k), LayerFirst(n, k))
  {
    hide TreeHeads; hide LayerSize;
    if k == 0 {
      SizeZero(n);
      assert TreeHeads(n, 0)[0..] == TreeHeads(n, 0);
    } else {
      SizeNext(n, k - 1);
      if k > 1 { SizeNext(n, k - 2); }
      TreeLayers(n, k - 1);
      var all, first, prev := TreeHeads(n, 0), LayerFirst(n, k - 1), LayerSize(n, k - 1);
      assert all[first + prev..] == all[first..][prev..];
      HeadsAbove(prev, first);
    }
  }

  /**
   * Node i of layer k sends to node i / 4 of the next layer, and from a layer of at most four
   * nodes to the root, which comes right after that layer.
   */
  lemma BhLayers(n: nat, k: nat, i: nat)
    requires (k > 0 ==> LayerSize(n, k - 1) > 4) && i < LayerSize(n, k)
    ensures var x, next := LayerFirst(n, k) + i, LayerFirst(n, k) + LayerSize(n, k);
      && x < |BhArcs(n)| && BhArcs(n)[x] == Arc(x, if LayerSize(n, k) > 4 then next + i / 4 else next)
      && (LayerSize(n, k) <= 4 ==> |BhArcs(n)| == next)
  {
    hide LayerSize; hide LayerFirst; hide TreeHeads;
    TreeLayers(n, k);
    var all, first, prev := TreeHeads(n, 0), LayerFirst(n, k), LayerSize(n, k);
    assert all[first + i] == all[first..][i];
    if prev > 4 { HeadAt(prev, first, i); } else { ShortHeads(prev, first); }
  }

  /** Heads never decrease, and no five arcs in a row share one. */
  lemma {:induction false} HeadsSpread(prev: nat, first: nat, k: nat)
    requires k < |TreeHeads(prev, first)|
    ensures k + 1 < |TreeHeads(prev, first)| ==> TreeHeads(prev, first)[k] <= TreeHeads(prev, first)[k + 1]
    ensures k + 4 < |TreeHeads(prev, first)| ==> TreeHeads(prev, first)[k] < TreeHeads(prev, first)[k + 4]
    decreases prev
  {
    hide TreeHeads;
    if prev <= 4 {
      ShortHeads(prev, first);
    } else {
      var m := (prev + 3) / 4;
      HeadAt(prev, first, k);
      if k + 1 < |TreeHeads(prev, first)| { HeadAt(prev, first, k + 1); }
      if k + 4 < |TreeHeads(prev, first)| { HeadAt(prev, first, k + 4); }
      if k >= prev {
        HeadsSpread(m, first + prev, k - prev);
      } else {
        if prev <= k + 1 < |TreeHeads(prev, first)| { HeadRange(m, first + prev, k + 1 - prev); }
        if prev <= k + 4 < |TreeHeads(prev, first)| { HeadRange(m, first + prev, k + 4 - prev); }
      }
    }
  }

  /** Every node above the sources has an arc into it. */
  lemma {:induction false} HeadsCover(prev: nat, first: nat, v: nat) returns (k: nat)
    requires prev >= 1 && first + prev <= v <= first + |TreeHeads(prev, first)|
    ensures k < |TreeHeads(prev, first)| && TreeHeads(prev, first)[k] == v
    decreases prev
  {
    if prev <= 4 {
      k := 0;
    } else {
      var m := (prev + 3) / 4;
      if v < first + prev + m {
        k := 4 * (v - first - prev);
      } else {
        k := HeadsCover(m, first + prev, v);
        k := k + prev;
      }
    }
  }

  lemma {:induction false} HeadsMonotone(prev: nat, first: nat, i: nat, j: nat)
    requires i <= j < |TreeHeads(prev, first)|
    ensures TreeHeads(prev, first)[i] <= TreeHeads(prev, first)[j]
    decreases j
  {
    if i < j {
      HeadsMonotone(prev, first, i, j - 1);
      HeadsSpread(prev, first, j - 1);
    }
  }

  /** In BH at most four arcs enter a node. */
  lemma BhInDegree(n: nat, v: nat)
    ensures |InArcs(BhArcs(n), v)| <= 4
  {
    var list, h := InArcs(BhArcs(n), v), TreeHeads(n, 0);
    ListsIncreasing(BhArcs(n), v);
    if |list| > 4 {
      assert list[0] in list && list[4] in list;
      assert list[0] < list[1] < list[2] < list[3] < list[4];
      HeadsSpread(n, 0, list[0]);
      HeadsMonotone(n, 0, list[0] + 4, list[4]);
    }
  }

  lemma BhUpward(n: nat)
    ensures Upward(BhArcs(n))
  {
    forall a | 0 <= a < |BhArcs(n)| ensures BhArcs(n)[a].tail < BhArcs(n)[a].head {
      HeadRange(n, 0, a);
    }
  }

  lemma {:induction false} BhPath(n: nat, x: nat) returns (p: seq<nat>)
    requires x <= |BhArcs(n)|
    ensures IsPath(BhArcs(n), p, x, |BhArcs(n)|)
    decreases |BhArcs(n)| - x
  {
    if x == |BhArcs(n)| {
      p := [];
    } else {
      HeadRange(n, 0, x);
      var rest := BhPath(n, BhArcs(n)[x].head);
      p := [x] + rest;
      assert p[1..] == rest;
    }
  }

  lemma {:induction false} BhPathsEqual(n: nat, x: nat, p: seq<nat>, q: seq<nat>)
    requires IsPath(BhArcs(n), p, x, |BhArcs(n)|) && IsPath(BhArcs(n), q, x, |BhArcs(n)|)
    ensures p == q
    decreases |p|
  {
    if p != [] && q != [] {
      BhPathsEqual(n, BhArcs(n)[x].head, p[1..], q[1..]);
      assert p == [x] + p[1..] && q == [x] + q[1..];
    }
  }

  /** In BH every node, in particular each source, has exactly one path to the sink. */
  lemma BhUniquePaths(n: nat, x: nat)
    requires x <= |BhArcs(n)|
    ensures UniquePath(BhArcs(n), x, |BhArcs(n)|)
  {
    var t := |BhArcs(n)|;
    var p := BhPath(n, x);
    forall p, q | IsPath(BhArcs(n), p, x, t) && IsPath(BhArcs(n), q, x, t) ensures p == q {
      BhPathsEqual(n, x, p, q);
    }
  }

  // ---------------------------------------------------------------------------
  // WH: the out-tree
  // ---------------------------------------------------------------------------

  /** The graph with all arcs turned round and the nodes numbered backwards. */
  function Mirror(arcs: seq<Arc>, nodes: nat): (s: seq<Arc>)
    requires forall a :: 0 <= a < |arcs| ==> arcs[a].tail < nodes && arcs[a].head < nodes
    ensures |s| == |arcs|
    ensures forall a :: 0 <= a < |s| ==> s[a] == Arc(nodes - 1 - arcs[a].head, nodes - 1 - arcs[a].tail)
  {
    seq(|arcs|, a requires 0 <= a < |arcs| => Arc(nodes - 1 - arcs[a].head, nodes - 1 - arcs[a].tail))
  }

  lemma BhInside(n: nat)
    ensures forall a :: 0 <= a < |BhArcs(n)| ==> BhArcs(n)[a].tail < |BhArcs(n)| + 1 && BhArcs(n)[a].head < |BhArcs(n)| + 1
  {
    forall a | 0 <= a < |BhArcs(n)| ensures BhArcs(n)[a].head <= |BhArcs(n)| {
      HeadRange(n, 0, a);
    }
  }

  function WhArcs(n: nat): (s: seq<Arc>)
    ensures |s| == |BhArcs(n)|
  {
    BhInside(n);
    Mirror(BhArcs(n), |BhArcs(n)| + 1)
  }

  function Backwards(p: seq<nat>): (q: seq<nat>)
    ensures |q| == |p|
  {
    if p == [] then [] else Backwards(p[1..]) + [p[0]]
  }

  lemma {:induction false} BackwardsTwice(p: seq<nat>)
    ensures Backwards(Backwards(p)) == p
  {
    if p != [] {
      BackwardsTwice(p[1..]);
      BackwardsAppend(Backwards(p[1..]), p[0]);
    }
  }

  lemma {:induction false} BackwardsAppend(p: seq<nat>, x: nat)
    ensures Backwards(p + [x]) == [x] + Backwards(p)
  {
    if p != [] {
      BackwardsAppend(p[1..], x);
      assert (p + [x])[1..] == p[1..] + [x];
    } else {
      assert p + [x] == [x];
    }
  }

  /** Paths of the mirror are the paths walked backwards. */
  lemma {:induction false} MirrorPath(arcs: seq<Arc>, nodes: nat, p: seq<nat>, s: nat, t: nat)
    requires forall a :: 0 <= a < |arcs| ==> arcs[a].tail < nodes && arcs[a].head < nodes
    requires s < nodes && t < nodes && IsPath(arcs, p, s, t)
    ensures IsPath(Mirror(arcs, nodes), Backwards(p), nodes - 1 - t, nodes - 1 - s)
  {
    if p != [] {
      MirrorPath(arcs, nodes, p[1..], arcs[p[0]].head, t);
      PathExtend(Mirror(arcs, nodes), Backwards(p[1..]), nodes - 1 - t, p[0]);
    }
  }

  lemma MirrorTwice(arcs: seq<Arc>, nodes: nat)
    requires forall a :: 0 <= a < |arcs| ==> arcs[a].tail < nodes && arcs[a].head < nodes
    ensures Mirror(Mirror(arcs, nodes), nodes) == arcs
  {
  }

  lemma MirrorUnique(arcs: seq<Arc>, nodes: nat, s: nat, t: nat)
    requires forall a :: 0 <= a < |arcs| ==> arcs[a].tail < nodes && arcs[a].head < nodes
    requires s < nodes && t < nodes && UniquePath(arcs, s, t)
    ensures UniquePath(Mirror(arcs, nodes), nodes - 1 - t, nodes - 1 - s)
  {
    hide IsPath; hide Backwards; hide Mirror;
    var m, s1, t1 := Mirror(arcs, nodes), nodes - 1 - t, nodes - 1 - s;
    var p0 :| IsPath(arcs, p0, s, t);
    MirrorPath(arcs, nodes, p0, s, t);
    MirrorTwice(arcs, nodes);
    forall p, q | IsPath(m, p, s1, t1) && IsPath(m, q, s1, t1) ensures p == q {
      MirrorPath(m, nodes, p, s1, t1);
      MirrorPath(m, nodes, q, s1, t1);
      BackwardsTwice(p);
      BackwardsTwice(q);
    }
  }

  /** In WH the source has exactly one path to every node, in particular to each sink. */
  lemma WhUniquePaths(n: nat, x: nat)
    requires x <= |WhArcs(n)|
    ensures UniquePath(WhArcs(n), 0, x)
  {
    BhInside(n);
    BhUniquePaths(n, |BhArcs(n)| - x);
    MirrorUnique(BhArcs(n), |BhArcs(n)| + 1, |BhArcs(n)| - x, |BhArcs(n)|);
  }

  lemma WhUpward(n: nat)
    ensures Upward(WhArcs(n))
  {
    BhUpward(n);
  }
}
