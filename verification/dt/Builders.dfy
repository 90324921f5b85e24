/** buildSH, buildBH and buildWH of dt.c leave exactly the arcs of their shapes. */
module Builders {
  import opened Arith
  import opened DGraphs
  import opened GraphShapes

  // ---------------------------------------------------------------------------
  // A graph under construction
  // ---------------------------------------------------------------------------

  /** Nodes still in order of creation, h of them, with arcs so far `arcs`. */
  ghost predicate Growing(dg: DGraph, h: nat, arcs: seq<Arc>)
    reads dg
  {
    dg.Valid() && |dg.node| == |dg.nodes| == h && dg.arc == arcs && forall i :: 0 <= i < h ==> dg.node[i] == i
  }

  /** Numbers of the names of one kind stay below a bound, so that larger ones are new. */
  ghost predicate NumbersBelow(dg: DGraph, kind: Kind, bound: nat)
    reads dg`nodes
  {
    forall x :: 0 <= x < |dg.nodes| && dg.nodes[x].name.kind == kind ==> dg.nodes[x].name.number < bound
  }

  /** The first k arcs. */
  ghost function Prefix(arcs: seq<Arc>, k: nat): seq<Arc> {
    if k <= |arcs| then arcs[..k] else arcs
  }

  ghost predicate SameNames(s: seq<Node>, t: seq<Node>) {
    |s| == |t| && forall x :: 0 <= x < |s| ==> s[x].name == t[x].name
  }

  /** AttachNode with a name not used before. */
  method AddNode(dg: DGraph, nm: Name, ghost h: nat, ghost arcs: seq<Arc>) returns (id: nat)
    requires Growing(dg, h, arcs) && NumbersBelow(dg, nm.kind, nm.number)
    modifies dg
    ensures id == h && Growing(dg, h + 1, arcs) && NumbersBelow(dg, nm.kind, nm.number + 1)
    ensures dg.nodes[h].name == nm && SameNames(dg.nodes[..h], old(dg.nodes))
  {
    hide DGraph.Listed; hide DGraph.NodesOk;
    assert dg.Unused(nm);
    id := dg.AttachNode(nm);
    assert dg.nodes[..h] == old(dg.nodes);
  }

  /** AttachArc of an arc that the graph does not have; newArc leaves the length field unset. */
  method AddArc(dg: DGraph, nar: Arc, ghost h: nat, ghost arcs: seq<Arc>)
    requires Growing(dg, h, arcs) && nar.tail < h && nar.head < h && nar !in arcs
    modifies dg
    ensures Growing(dg, h, arcs + [nar]) && SameNames(dg.nodes, old(dg.nodes))
  {
    hide DGraph.Listed; hide DGraph.NodesOk; hide DGraph.WithArc;
    var length: int := *;
    var id := dg.AttachArc(nar, length);
  }

  /** A finished graph in order of creation: ids are addresses. */
  lemma IdsAreAddresses(dg: DGraph, h: nat, arcs: seq<Arc>)
    requires Growing(dg, h, arcs)
    ensures dg.AsGraph().arcs == arcs && |dg.AsGraph().kinds| == h
    ensures forall i :: 0 <= i < h ==> dg.AsGraph().kinds[i] == dg.nodes[i].name.kind
  {
    forall x | 0 <= x < h ensures dg.nodes[x].id == x {
      assert dg.node[dg.nodes[x].id] == x;
    }
  }

  // ---------------------------------------------------------------------------
  // SH
  // ---------------------------------------------------------------------------

  ghost function ShKind(n: nat, d: nat, x: nat): Kind {
    if x < n then Source else if x < Times(d, n) then Comparator else Sink
  }

  /** The butterfly over 2^d sources: d layers of arcs, d + 1 of nodes. */
  ghost predicate IsSh(g: Graph, d: nat) {
    && g.arcs == ShArcs(Pow2(d), d) && |g.kinds| == Times(d + 1, Pow2(d))
    && forall i :: 0 <= i < |g.kinds| ==> g.kinds[i] == ShKind(Pow2(d), d, i)
  }

  ghost predicate ShKinds(dg: DGraph, n: nat, d: nat)
    reads dg`nodes
  {
    forall x :: 0 <= x < |dg.nodes| ==> dg.nodes[x].name.kind == ShKind(n, d, x)
  }

  /** The arcs of the first d layers begin with those into the lower nodes. */
  lemma ShNext(d: nat, q: nat, i: nat, b: bool)
    requires 1 <= q <= d && i < Pow2(d)
    ensures var n, k := Pow2(d), ArcInto(Pow2(d), q, i, b);
      && k < |ShArcs(n, d)| && ShArcs(n, d)[k] !in Prefix(ShArcs(n, d), k)
      && Prefix(ShArcs(n, d), k) + [ShArcs(n, d)[k]] == Prefix(ShArcs(n, d), k + 1)
      && ShArcs(n, d)[k] == Arc(Times(q - 1, n) + Below(i, q, b), Times(q, n) + i)
      && Below(i, q, b) < n
  {
    var n, arcs, k := Pow2(d), ShArcs(Pow2(d), d), ArcInto(Pow2(d), q, i, b);
    BelowArc(d, q, i, b);
    ShHead(n, d, k);
    forall a | 0 <= a < k ensures arcs[a] != arcs[k] {
      ShHead(n, d, a);
      if a == k - 1 && b { BelowArc(d, q, i, false); }
    }
  }

  /**
   * The butterfly in plain terms: layer x / n holds node x, arc a enters node n + a / 2, and it
   * comes from the position in the layer before that differs from its head's in one bit at most.
   */
  lemma ShIsButterfly(g: Graph, d: nat)
    requires d >= 1 && IsSh(g, d)
    ensures |g.kinds| == (d + 1) * Pow2(d) && |g.arcs| == 2 * (d * Pow2(d))
    ensures forall x :: 0 <= x < |g.kinds| ==> (g.kinds[x].Source? <==> x < Pow2(d)) && (g.kinds[x].Sink? <==> x >= d * Pow2(d))
    ensures forall a :: 0 <= a < |g.arcs| ==> var n, t, h := Pow2(d), g.arcs[a].tail, g.arcs[a].head; var q := h / n;
      && h == n + a / 2 && 1 <= q <= d && t / n == q - 1
      && (t % n) / Pow2(q) == (h % n) / Pow2(q) && (t % n) % Pow2(q - 1) == (h % n) % Pow2(q - 1)
      && (t % n) / Pow2(q - 1) % 2 == a % 2
  {
    var n := Pow2(d);
    TimesIsProduct(d, n);
    TimesIsProduct(d + 1, n);
    TimesMonotone(1, d, n);
    assert Times(1, n) == n;
    forall a | 0 <= a < |g.arcs|
      ensures var t, h := g.arcs[a].tail, g.arcs[a].head; var q := h / n;
        && h == n + a / 2 && 1 <= q <= d && t / n == q - 1
        && (t % n) / Pow2(q) == (h % n) / Pow2(q) && (t % n) % Pow2(q - 1) == (h % n) % Pow2(q - 1)
        && (t % n) / Pow2(q - 1) % 2 == a % 2
    {
      ShArcBits(d, a);
    }
  }

  /** Every node of a butterfly below the sinks sends to exactly two nodes. */
  lemma ShSendsTwice(g: Graph, d: nat, x: nat)
    requires d >= 1 && IsSh(g, d) && x < d * Pow2(d)
    ensures |OutArcs(g.arcs, x)| == 2
    ensures exists a, b :: 0 <= a < b < |g.arcs| && g.arcs[a].tail == g.arcs[b].tail == x && g.arcs[a].head != g.arcs[b].head
    ensures forall a, b, c :: 0 <= a < b < c < |g.arcs| ==> !(g.arcs[a].tail == g.arcs[b].tail == g.arcs[c].tail == x)
  {
    TimesIsProduct(d, Pow2(d));
    var a, b := ShOutDegree(d, x);
    ShDistinctHeads(d, a, b);
  }

  lemma ShDistinctHeads(d: nat, a: nat, b: nat)
    requires a < b < |ShArcs(Pow2(d), d)| && ShArcs(Pow2(d), d)[a].tail == ShArcs(Pow2(d), d)[b].tail
    ensures ShArcs(Pow2(d), d)[a].head != ShArcs(Pow2(d), d)[b].head
  {
    hide ShArcs; hide Pow2;
    ShArcBits(d, a);
    ShArcBits(d, b);
  }

  /** The nodes at the bottom: sources, or sinks in WH. */
  method AddLeaves(dg: DGraph, n: nat, kind: Kind)
    requires Growing(dg, 0, [])
    modifies dg
    ensures Growing(dg, n, [])
    ensures forall x :: 0 <= x < n ==> dg.nodes[x].name.kind == kind
  {
    hide Growing;
    GrowingSize(dg, 0, []);
    var i := 0;
    while i < n
      invariant 0 <= i <= n && Growing(dg, i, []) && NumbersBelow(dg, kind, i) && |dg.nodes| == i
      invariant forall x :: 0 <= x < i ==> dg.nodes[x].name.kind == kind
    {
      var id := AddNode(dg, Name(kind, i), i, []);
      GrowingSize(dg, i + 1, []);
      i := i + 1;
    }
  }

  lemma GrowingSize(dg: DGraph, h: nat, arcs: seq<Arc>)
    requires Growing(dg, h, arcs)
    ensures |dg.nodes| == |dg.node| == h && forall i :: 0 <= i < h ==> dg.node[i] == i
  {
  }

  /** One node of layer j + 1, and its two arcs from layer j. */
  method AddShNode(dg: DGraph, nm: Name, n: nat, ghost d: nat, j: nat, firstLayerNode: nat, i: nat)
    requires j < d && n == Pow2(d) && firstLayerNode == Times(j, n) && i < n
    requires Growing(dg, Times(j + 1, n) + i, Prefix(ShArcs(n, d), 2 * (Times(j, n) + i)))
    requires ShKinds(dg, n, d) && nm.kind == ShKind(n, d, Times(j + 1, n) + i) && NumbersBelow(dg, nm.kind, nm.number)
    modifies dg
    ensures Growing(dg, Times(j + 1, n) + i + 1, Prefix(ShArcs(n, d), 2 * (Times(j, n) + i + 1)))
    ensures ShKinds(dg, n, d) && NumbersBelow(dg, nm.kind, nm.number + 1)
  {
    hide Growing; hide ShArcs; hide Prefix; hide ShKind; hide Times; hide SameNames;
    ghost var h, done := Times(j + 1, n) + i, Prefix(ShArcs(n, d), 2 * (Times(j, n) + i));
    GrowingSize(dg, h, done);
    ghost var names0 := dg.nodes;
    var id := AddNode(dg, nm, h, done);
    GrowingSize(dg, h + 1, done);
    ghost var names1 := dg.nodes;
    AddShArcs(dg, n, d, j, firstLayerNode, i, id);
    SameFlip(dg.nodes, names1);
    ShNamesKept(names0, names1, dg.nodes, n, d, nm);
  }

  /** The two arcs into node id, number i of layer j + 1. */
  method AddShArcs(dg: DGraph, n: nat, ghost d: nat, j: nat, firstLayerNode: nat, i: nat, id: nat)
    requires j < d && n == Pow2(d) && firstLayerNode == Times(j, n) && i < n && id == Times(j + 1, n) + i
    requires Growing(dg, id + 1, Prefix(ShArcs(n, d), 2 * (Times(j, n) + i)))
    modifies dg
    ensures Growing(dg, id + 1, Prefix(ShArcs(n, d), 2 * (Times(j, n) + i + 1)))
    ensures SameNames(dg.nodes, old(dg.nodes))
  {
    hide Growing; hide ShArcs; hide Prefix; hide SameNames; hide Times;
    ghost var arcs, k := ShArcs(n, d), 2 * (Times(j, n) + i);
    ShNext(d, j + 1, i, false);
    ShNext(d, j + 1, i, true);
    TimesNext(j, n);
    GrowingSize(dg, id + 1, Prefix(arcs, k));
    ghost var names0 := dg.nodes;
    var ndoff := Clear(i, j);
    var ndid := firstLayerNode + ndoff;
    AddArc(dg, Arc(dg.node[ndid], id), id + 1, Prefix(arcs, k));
    GrowingSize(dg, id + 1, Prefix(arcs, k + 1));
    ghost var names1 := dg.nodes;
    ndoff := ndoff + Pow2(j);
    ndid := firstLayerNode + ndoff;
    AddArc(dg, Arc(dg.node[ndid], id), id + 1, Prefix(arcs, k + 1));
    SameTrans(dg.nodes, names1, names0);
  }

  lemma SameFlip(a: seq<Node>, b: seq<Node>)
    requires SameNames(a, b)
    ensures SameNames(b, a)
  {
  }

  lemma ShNamesKept(s0: seq<Node>, s1: seq<Node>, s2: seq<Node>, n: nat, d: nat, nm: Name)
    requires |s1| == |s0| + 1 && SameNames(s1[..|s0|], s0) && s1[|s0|].name == nm && SameNames(s1, s2)
    requires forall x :: 0 <= x < |s0| ==> s0[x].name.kind == ShKind(n, d, x)
    requires nm.kind == ShKind(n, d, |s0|)
    requires forall x :: 0 <= x < |s1| && s1[x].name.kind == nm.kind ==> s1[x].name.number < nm.number + 1
    ensures forall x :: 0 <= x < |s2| ==> s2[x].name.kind == ShKind(n, d, x)
    ensures forall x :: 0 <= x < |s2| && s2[x].name.kind == nm.kind ==> s2[x].name.number < nm.number + 1
  {
    forall x | 0 <= x < |s2| ensures s2[x].name.kind == ShKind(n, d, x) {
      if x < |s0| { assert s1[..|s0|][x].name == s0[x].name; }
    }
  }

  /** All nodes of layer j + 1. */
  method AddShLayer(dg: DGraph, kind: Kind, base: nat, n: nat, ghost d: nat, j: nat, firstLayerNode: nat)
    requires j < d && n == Pow2(d) && firstLayerNode == Times(j, n)
    requires kind == if j + 1 < d then Comparator else Sink
    requires Growing(dg, Times(j + 1, n), Prefix(ShArcs(n, d), 2 * Times(j, n)))
    requires ShKinds(dg, n, d) && NumbersBelow(dg, kind, base)
    modifies dg
    ensures Growing(dg, Times(j + 2, n), Prefix(ShArcs(n, d), 2 * Times(j + 1, n)))
    ensures ShKinds(dg, n, d) && NumbersBelow(dg, kind, base + n)
  {
    hide Growing; hide ShArcs; hide Prefix; hide NumbersBelow; hide ShKinds; hide ShKind;
    TimesMonotone(j + 1, d, n);
    var i := 0;
    while i < n
      invariant 0 <= i <= n
      invariant Growing(dg, Times(j + 1, n) + i, Prefix(ShArcs(n, d), 2 * (Times(j, n) + i)))
      invariant ShKinds(dg, n, d) && NumbersBelow(dg, kind, base + i)
    {
      ShKindAt(n, d, j, i);
      AddShNode(dg, Name(kind, base + i), n, d, j, firstLayerNode, i);
      i := i + 1;
    }
  }

  lemma ShKindAt(n: nat, d: nat, j: nat, i: nat)
    requires j < d && i < n
    ensures ShKind(n, d, Times(j + 1, n) + i) == if j + 1 < d then Comparator else Sink
  {
    if j + 1 < d { TimesMonotone(j + 2, d, n); } else { TimesMonotone(1, d, n); }
    TimesMonotone(1, j + 1, n);
    assert Times(1, n) == n;
  }

  /** Comparator numbers i + j * firstLayerNode of successive layers do not overlap. */
  lemma NextBase(j: nat, first: nat, n: nat)
    ensures j * first + n <= (j + 1) * (first + n)
  {
    assert (j + 1) * (first + n) == j * first + j * n + first + n;
  }

  lemma NumbersRelax(dg: DGraph, kind: Kind, a: nat, b: nat)
    requires NumbersBelow(dg, kind, a) && a <= b
    ensures NumbersBelow(dg, kind, b)
  {
  }

  /** The first layer's state: sources only. */
  lemma OnlySources(dg: DGraph, n: nat, d: nat)
    requires d >= 1 && Growing(dg, n, []) && forall x :: 0 <= x < n ==> dg.nodes[x].name.kind == Source
    ensures ShKinds(dg, n, d) && NumbersBelow(dg, Comparator, 0) && NumbersBelow(dg, Sink, 0)
    ensures Growing(dg, Times(1, n), Prefix(ShArcs(n, d), 2 * Times(0, n)))
  {
    assert Times(1, n) == n;
  }

  lemma NoSinksYet(dg: DGraph, n: nat, d: nat)
    requires |dg.nodes| <= Times(d, n) && ShKinds(dg, n, d)
    ensures NumbersBelow(dg, Sink, 0)
  {
  }

  lemma AllShArcs(n: nat, d: nat)
    ensures Prefix(ShArcs(n, d), 2 * Times(d, n)) == ShArcs(n, d)
  {
  }

  /** buildSH: sources, comparator layers and sinks of a butterfly over 2^d sources. */
  method BuildSH(numSources: nat, ghost d: nat) returns (dg: DGraph)
    requires d >= 1 && numSources == Pow2(d)
    ensures fresh(dg) && dg.Valid() && IsSh(dg.AsGraph(), d)
  {
    hide Growing; hide ShArcs; hide Prefix; hide NumbersBelow; hide ShKinds; hide Times;
    var numOfLayers, tmpS := 0, numSources / 2;
    while tmpS > 1
      invariant 0 <= numOfLayers <= d - 1 && tmpS == Pow2(d - 1 - numOfLayers)
    {
      numOfLayers := numOfLayers + 1;
      tmpS := tmpS / 2;
    }
    dg := new DGraph();
    EmptyGrowing(dg);
    AddLeaves(dg, numSources, Source);
    OnlySources(dg, numSources, d);
    var firstLayerNode, j := 0, 0;
    NoTimes(numSources);
    while j < numOfLayers
      invariant 0 <= j <= numOfLayers && firstLayerNode == Times(j, numSources)
      invariant Growing(dg, Times(j + 1, numSources), Prefix(ShArcs(numSources, d), 2 * Times(j, numSources)))
      invariant ShKinds(dg, numSources, d) && NumbersBelow(dg, Comparator, j * firstLayerNode)
    {
      AddShLayer(dg, Comparator, j * firstLayerNode, numSources, d, j, firstLayerNode);
      NextBase(j, firstLayerNode, numSources);
      NumbersRelax(dg, Comparator, j * firstLayerNode + numSources, (j + 1) * (firstLayerNode + numSources));
      TimesNext(j, numSources);
      firstLayerNode := firstLayerNode + numSources;
      j := j + 1;
    }
    GrowingSize(dg, Times(d, numSources), Prefix(ShArcs(numSources, d), 2 * Times(j, numSources)));
    NoSinksYet(dg, numSources, d);
    AddShLayer(dg, Sink, 0, numSources, d, numOfLayers, firstLayerNode);
    AllShArcs(numSources, d);
    ShByIds(dg, numSources, d);
  }

  lemma ShByIds(dg: DGraph, n: nat, d: nat)
    requires n == Pow2(d) && Growing(dg, Times(d + 1, n), ShArcs(n, d)) && ShKinds(dg, n, d)
    ensures dg.Valid() && IsSh(dg.AsGraph(), d)
  {
    hide Times; hide ShArcs; hide ShKind;
    IdsAreAddresses(dg, Times(d + 1, n), ShArcs(n, d));
  }

  lemma NoTimes(n: nat)
    ensures Times(0, n) == 0
  {
  }

  lemma EmptyGrowing(dg: DGraph)
    requires dg.Valid() && dg.nodes == [] && dg.node == [] && dg.arc == []
    ensures Growing(dg, 0, [])
  {
  }

  // ---------------------------------------------------------------------------
  // BH and WH: the tree
  // ---------------------------------------------------------------------------

  /** The tree's arcs, towards the root (BH) or away from it (WH before the node reversal). */
  function TreeArcs(n: nat, away: bool): (s: seq<Arc>)
    ensures |s| == |TreeHeads(n, 0)|
  {
    var h := TreeHeads(n, 0);
    seq(|h|, x requires 0 <= x < |h| => if away then Arc(h[x], x) else Arc(x, h[x]))
  }

  function TreeKind(n: nat, away: bool, x: nat): Kind {
    if x < n then (if away then Sink else Source)
    else if x < |TreeHeads(n, 0)| then Comparator
    else (if away then Source else Sink)
  }

  /** The in-tree over n sources. */
  ghost predicate IsBh(g: Graph, n: nat) {
    && g.arcs == BhArcs(n) && |g.kinds| == |BhArcs(n)| + 1
    && forall i :: 0 <= i < |g.kinds| ==> g.kinds[i] == TreeKind(n, false, i)
  }

  /** The out-tree to n sinks, numbered backwards. */
  ghost predicate IsWh(g: Graph, n: nat) {
    && g.arcs == WhArcs(n) && |g.kinds| == |WhArcs(n)| + 1
    && forall i :: 0 <= i < |g.kinds| ==> g.kinds[i] == TreeKind(n, true, |g.kinds| - 1 - i)
  }

  /** The in-tree in plain terms, layer by layer. */
  lemma BhIsTree(g: Graph, n: nat, k: nat, i: nat)
    requires IsBh(g, n) && (k > 0 ==> LayerSize(n, k - 1) > 4) && i < LayerSize(n, k)
    ensures var x, next := LayerFirst(n, k) + i, LayerFirst(n, k) + LayerSize(n, k);
      && x < |g.arcs| && g.arcs[x] == Arc(x, if LayerSize(n, k) > 4 then next + i / 4 else next)
      && (LayerSize(n, k) <= 4 ==> |g.arcs| == next)
    ensures |g.kinds| == |g.arcs| + 1
    ensures forall y :: 0 <= y < |g.kinds| ==> (g.kinds[y].Source? <==> y < n) && (g.kinds[y].Sink? <==> y == |g.arcs|)
  {
    BhLayers(n, k, i);
  }

  /** The out-tree in plain terms: the in-tree turned round, both its arcs and its numbering. */
  lemma WhIsTree(g: Graph, n: nat, k: nat, i: nat)
    requires IsWh(g, n) && (k > 0 ==> LayerSize(n, k - 1) > 4) && i < LayerSize(n, k)
    ensures var x, next, last := LayerFirst(n, k) + i, LayerFirst(n, k) + LayerSize(n, k), |g.arcs|;
      && x < last && next <= last
      && g.arcs[x].head == last - x && g.arcs[x].tail == last - (if LayerSize(n, k) > 4 then next + i / 4 else next)
      && (LayerSize(n, k) <= 4 ==> last == next)
    ensures |g.kinds| == |g.arcs| + 1
    ensures forall y :: 0 <= y < |g.kinds| ==> (g.kinds[y].Sink? <==> |g.arcs| - y < n) && (g.kinds[y].Source? <==> y == 0)
  {
    BhLayers(n, k, i);
    BhInside(n);
    HeadRange(n, 0, LayerFirst(n, k) + i);
  }

  ghost predicate TreeKinds(dg: DGraph, n: nat, away: bool)
    reads dg`nodes
  {
    forall x :: 0 <= x < |dg.nodes| ==> dg.nodes[x].name.kind == TreeKind(n, away, x)
  }

  /** A layer of `prev` nodes starts at `first`; the heads from there on are those of its tree. */
  ghost predicate AtLayer(n: nat, prev: nat, first: nat) {
    && first <= |TreeHeads(n, 0)| && TreeHeads(n, 0)[first..] == TreeHeads(prev, first)
    && n <= first + prev
  }

  lemma NextLayer(n: nat, prev: nat, first: nat)
    requires AtLayer(n, prev, first) && prev > 4
    ensures AtLayer(n, (prev + 3) / 4, first + prev)
    ensures first + prev + (prev + 3) / 4 <= |TreeHeads(n, 0)|
    ensures forall c :: 0 <= c < prev ==> TreeHeads(n, 0)[first + c] == first + prev + c / 4
  {
    var all, here := TreeHeads(n, 0), TreeHeads(prev, first);
    assert all[first + prev..] == all[first..][prev..] == here[prev..];
    assert here[prev..] == TreeHeads((prev + 3) / 4, first + prev);
    forall c | 0 <= c < prev ensures all[first + c] == first + prev + c / 4 {
      assert all[first + c] == all[first..][c] == here[c];
    }
  }

  lemma LastLayer(n: nat, prev: nat, first: nat)
    requires AtLayer(n, prev, first) && prev <= 4
    ensures |TreeHeads(n, 0)| == first + prev
    ensures forall x :: first <= x < first + prev ==> TreeHeads(n, 0)[x] == first + prev
  {
    var all, here := TreeHeads(n, 0), TreeHeads(prev, first);
    forall x | first <= x < first + prev ensures all[x] == first + prev {
      assert all[x] == all[first..][x - first] == here[x - first];
    }
  }

  lemma TreeNext(n: nat, away: bool, x: nat)
    requires x < |TreeHeads(n, 0)|
    ensures var arcs := TreeArcs(n, away);
      && arcs[x] !in Prefix(arcs, x) && Prefix(arcs, x) + [arcs[x]] == Prefix(arcs, x + 1)
      && arcs[x] == if away then Arc(TreeHeads(n, 0)[x], x) else Arc(x, TreeHeads(n, 0)[x])
  {
  }

  /** One arc between a node of a layer and its parent. */
  method AddTreeArc(dg: DGraph, n: nat, away: bool, x: nat, parent: nat, ghost h: nat)
    requires x < |TreeHeads(n, 0)| && TreeHeads(n, 0)[x] == parent && x < h && parent < h
    requires Growing(dg, h, Prefix(TreeArcs(n, away), x))
    modifies dg
    ensures Growing(dg, h, Prefix(TreeArcs(n, away), x + 1)) && SameNames(dg.nodes, old(dg.nodes))
  {
    hide Growing; hide TreeHeads; hide Prefix; hide TreeArcs;
    TreeNext(n, away, x);
    GrowingSize(dg, h, Prefix(TreeArcs(n, away), x));
    if away {
      AddArc(dg, Arc(dg.node[parent], dg.node[x]), h, Prefix(TreeArcs(n, away), x));
    } else {
      AddArc(dg, Arc(dg.node[x], dg.node[parent]), h, Prefix(TreeArcs(n, away), x));
    }
  }

  lemma SameTrans(a: seq<Node>, b: seq<Node>, c: seq<Node>)
    requires SameNames(a, b) && SameNames(b, c)
    ensures SameNames(a, c)
  {
  }

  /** The arcs of comparator i: up to four children, as far as the layer goes. */
  method AddChildren(dg: DGraph, n: nat, away: bool, id: nat, i: nat, firstLayerNode: nat, numPrevLayerNodes: nat)
    requires AtLayer(n, numPrevLayerNodes, firstLayerNode) && numPrevLayerNodes > 4
    requires 4 * i < numPrevLayerNodes && id == firstLayerNode + numPrevLayerNodes + i
    requires Growing(dg, id + 1, Prefix(TreeArcs(n, away), firstLayerNode + 4 * i))
    modifies dg
    ensures SameNames(dg.nodes, old(dg.nodes))
    ensures var done := if 4 * i + 4 <= numPrevLayerNodes then 4 * i + 4 else numPrevLayerNodes;
      Growing(dg, id + 1, Prefix(TreeArcs(n, away), firstLayerNode + done))
  {
    hide Growing; hide TreeHeads; hide Prefix; hide TreeArcs; hide AtLayer; hide SameNames;
    NextLayer(n, numPrevLayerNodes, firstLayerNode);
    SameRefl(dg.nodes);
    var j := 0;
    while j < 4
      invariant 0 <= j <= 4 && 4 * i + j <= numPrevLayerNodes
      invariant Growing(dg, id + 1, Prefix(TreeArcs(n, away), firstLayerNode + 4 * i + j))
      invariant SameNames(dg.nodes, old(dg.nodes))
    {
      var sid := i * 4 + j;
      if sid >= numPrevLayerNodes { break; }
      assert sid / 4 == i;
      ghost var before := dg.nodes;
      AddTreeArc(dg, n, away, firstLayerNode + sid, id, id + 1);
      SameTrans(dg.nodes, before, old(dg.nodes));
      j := j + 1;
    }
  }

  lemma SameRefl(a: seq<Node>)
    ensures SameNames(a, a)
  {
  }

  lemma TreeNamesKept(s0: seq<Node>, s1: seq<Node>, s2: seq<Node>, n: nat, away: bool, nm: Name)
    requires |s1| == |s0| + 1 && SameNames(s1[..|s0|], s0) && s1[|s0|].name == nm && SameNames(s2, s1)
    requires forall x :: 0 <= x < |s0| ==> s0[x].name.kind == TreeKind(n, away, x)
    requires nm.kind == TreeKind(n, away, |s0|)
    requires forall x :: 0 <= x < |s1| && s1[x].name.kind == nm.kind ==> s1[x].name.number < nm.number + 1
    ensures forall x :: 0 <= x < |s2| ==> s2[x].name.kind == TreeKind(n, away, x)
    ensures forall x :: 0 <= x < |s2| && s2[x].name.kind == nm.kind ==> s2[x].name.number < nm.number + 1
  {
    hide TreeKind;
    forall x | 0 <= x < |s2| ensures s2[x].name.kind == TreeKind(n, away, x) {
      if x < |s0| { assert s1[..|s0|][x].name == s0[x].name; }
    }
  }

  /** One layer of comparators above a layer of more than four nodes. */
  method AddTreeLayer(dg: DGraph, n: nat, away: bool, totComparators0: nat, numLayerNodes: nat,
                      firstLayerNode: nat, numPrevLayerNodes: nat) returns (totComparators: nat)
    requires AtLayer(n, numPrevLayerNodes, firstLayerNode) && numPrevLayerNodes > 4
    requires numLayerNodes == (numPrevLayerNodes + 3) / 4
    requires Growing(dg, firstLayerNode + numPrevLayerNodes, Prefix(TreeArcs(n, away), firstLayerNode))
    requires TreeKinds(dg, n, away) && NumbersBelow(dg, Comparator, totComparators0)
    modifies dg
    ensures Growing(dg, firstLayerNode + numPrevLayerNodes + numLayerNodes,
                    Prefix(TreeArcs(n, away), firstLayerNode + numPrevLayerNodes))
    ensures TreeKinds(dg, n, away) && NumbersBelow(dg, Comparator, totComparators)
  {
    hide Growing; hide TreeHeads; hide Prefix; hide TreeArcs; hide SameNames;
    NextLayer(n, numPrevLayerNodes, firstLayerNode);
    totComparators := totComparators0;
    ghost var base := firstLayerNode + numPrevLayerNodes;
    var i := 0;
    while i < numLayerNodes
      invariant 0 <= i <= numLayerNodes
      invariant var done := if 4 * i <= numPrevLayerNodes then 4 * i else numPrevLayerNodes;
        Growing(dg, base + i, Prefix(TreeArcs(n, away), firstLayerNode + done))
      invariant TreeKinds(dg, n, away) && NumbersBelow(dg, Comparator, totComparators)
    {
      ghost var s0 := dg.nodes;
      ghost var nm := Name(Comparator, totComparators);
      GrowingSize(dg, base + i, Prefix(TreeArcs(n, away), firstLayerNode + 4 * i));
      var id := AddNode(dg, Name(Comparator, totComparators), base + i, Prefix(TreeArcs(n, away), firstLayerNode + 4 * i));
      GrowingSize(dg, base + i + 1, Prefix(TreeArcs(n, away), firstLayerNode + 4 * i));
      totComparators := totComparators + 1;
      ghost var s1 := dg.nodes;
      AddChildren(dg, n, away, id, i, firstLayerNode, numPrevLayerNodes);
      TreeNamesKept(s0, s1, dg.nodes, n, away, nm);
      i := i + 1;
    }
  }

  /** The root, with the arcs of the last layer. */
  method AddRoot(dg: DGraph, n: nat, away: bool, firstLayerNode: nat, numPrevLayerNodes: nat)
    requires AtLayer(n, numPrevLayerNodes, firstLayerNode) && numPrevLayerNodes <= 4
    requires Growing(dg, firstLayerNode + numPrevLayerNodes, Prefix(TreeArcs(n, away), firstLayerNode))
    requires TreeKinds(dg, n, away)
    modifies dg
    ensures Growing(dg, |TreeArcs(n, away)| + 1, TreeArcs(n, away)) && TreeKinds(dg, n, away)
  {
    hide Growing; hide TreeHeads; hide Prefix; hide TreeArcs; hide SameNames;
    LastLayer(n, numPrevLayerNodes, firstLayerNode);
    ghost var h := firstLayerNode + numPrevLayerNodes;
    GrowingSize(dg, h, Prefix(TreeArcs(n, away), firstLayerNode));
    ghost var s0 := dg.nodes;
    var nm := Name(if away then Source else Sink, 0);
    RootIsNew(s0, n, away);
    var id := AddNode(dg, nm, h, Prefix(TreeArcs(n, away), firstLayerNode));
    GrowingSize(dg, h + 1, Prefix(TreeArcs(n, away), firstLayerNode));
    ghost var s1 := dg.nodes;
    SameRefl(s1);
    var i := 0;
    while i < numPrevLayerNodes
      invariant 0 <= i <= numPrevLayerNodes
      invariant Growing(dg, h + 1, Prefix(TreeArcs(n, away), firstLayerNode + i)) && SameNames(dg.nodes, s1)
    {
      ghost var before := dg.nodes;
      AddTreeArc(dg, n, away, firstLayerNode + i, id, h + 1);
      SameTrans(dg.nodes, before, s1);
      i := i + 1;
    }
    AllTreeArcs(n, away);
    TreeNamesKept(s0, s1, dg.nodes, n, away, nm);
  }

  lemma AllTreeArcs(n: nat, away: bool)
    ensures Prefix(TreeArcs(n, away), |TreeArcs(n, away)|) == TreeArcs(n, away)
    ensures |TreeArcs(n, away)| == |TreeHeads(n, 0)|
  {
  }

  lemma RootIsNew(s: seq<Node>, n: nat, away: bool)
    requires |s| == |TreeHeads(n, 0)| && forall x :: 0 <= x < |s| ==> s[x].name.kind == TreeKind(n, away, x)
    ensures forall x :: 0 <= x < |s| ==> s[x].name.kind != if away then Source else Sink
    ensures TreeKind(n, away, |s|) == if away then Source else Sink
  {
  }

  lemma OnlyLeaves(dg: DGraph, n: nat, away: bool)
    requires Growing(dg, n, []) && forall x :: 0 <= x < n ==> dg.nodes[x].name.kind == if away then Sink else Source
    ensures TreeKinds(dg, n, away) && NumbersBelow(dg, Comparator, 0) && AtLayer(n, n, 0)
    ensures Growing(dg, n, Prefix(TreeArcs(n, away), 0))
  {
  }

  /** The common part of buildBH and buildWH: leaves, layers of four-way comparators, root. */
  method BuildTree(numSources: nat, away: bool) returns (dg: DGraph)
    ensures fresh(dg) && Growing(dg, |TreeArcs(numSources, away)| + 1, TreeArcs(numSources, away))
    ensures TreeKinds(dg, numSources, away)
  {
    hide Growing; hide TreeHeads; hide Prefix; hide TreeArcs; hide AtLayer; hide NumbersBelow; hide TreeKinds;
    dg := new DGraph();
    EmptyGrowing(dg);
    AddLeaves(dg, numSources, if away then Sink else Source);
    OnlyLeaves(dg, numSources, away);
    var numLayerNodes, firstLayerNode, totComparators, numPrevLayerNodes := numSources, 0, 0, numSources;
    while numLayerNodes > 4
      invariant numLayerNodes == numPrevLayerNodes && AtLayer(numSources, numPrevLayerNodes, firstLayerNode)
      invariant Growing(dg, firstLayerNode + numPrevLayerNodes, Prefix(TreeArcs(numSources, away), firstLayerNode))
      invariant TreeKinds(dg, numSources, away) && NumbersBelow(dg, Comparator, totComparators)
    {
      numLayerNodes := numLayerNodes / 4;
      if numLayerNodes * 4 < numPrevLayerNodes { numLayerNodes := numLayerNodes + 1; }
      totComparators := AddTreeLayer(dg, numSources, away, totComparators, numLayerNodes, firstLayerNode, numPrevLayerNodes);
      NextLayer(numSources, numPrevLayerNodes, firstLayerNode);
      firstLayerNode := firstLayerNode + numPrevLayerNodes;
      numPrevLayerNodes := numLayerNodes;
    }
    AddRoot(dg, numSources, away, firstLayerNode, numPrevLayerNodes);
  }

  /** buildBH */
  method BuildBH(numSources: nat) returns (dg: DGraph)
    ensures fresh(dg) && dg.Valid() && IsBh(dg.AsGraph(), numSources)
  {
    dg := BuildTree(numSources, false);
    assert TreeArcs(numSources, false) == BhArcs(numSources);
    IdsAreAddresses(dg, |dg.node|, BhArcs(numSources));
  }

  // ---------------------------------------------------------------------------
  // The node reversal of buildWH
  // ---------------------------------------------------------------------------

  /** Nodes k with k < i or k >= n - i have changed places with nodes n - 1 - k. */
  function Swapped(n: nat, i: nat, k: nat): nat
    requires k < n
  {
    if k < i || k >= n - i then n - 1 - k else k
  }

  ghost predicate PartlyReversed(dg: DGraph, s: seq<Node>, i: nat)
    reads dg
  {
    && |dg.node| == |dg.nodes| == |s| && 2 * i <= |s|
    && (forall k :: 0 <= k < |s| ==> dg.node[k] == Swapped(|s|, i, k))
    && (forall h :: 0 <= h < |s| ==> dg.nodes[h] == s[h].(id := Swapped(|s|, i, h)))
  }

  /** The loop that turns the node array round. */
  method ReverseNodes(dg: DGraph, ghost arcs: seq<Arc>)
    requires Growing(dg, |dg.nodes|, arcs)
    modifies dg`nodes, dg`node
    ensures dg.Valid() && dg.arc == arcs && |dg.nodes| == |old(dg.nodes)|
    ensures forall k :: 0 <= k < |dg.node| ==> dg.node[k] == |dg.node| - 1 - k
    ensures forall h :: 0 <= h < |dg.nodes| ==> dg.nodes[h] == old(dg.nodes)[h].(id := |dg.nodes| - 1 - h)
  {
    hide InArcs; hide OutArcs;
    ghost var s := dg.nodes;
    var n := |dg.node|;
    forall h | 0 <= h < n ensures s[h].id == h {
      assert dg.node[s[h].id] == h;
    }
    assert forall h :: 0 <= h < n ==> s[h] == s[h].(id := h);
    var i := 0;
    while i < n / 2
      invariant 0 <= i <= n / 2 && PartlyReversed(dg, s, i)
    {
      ReverseTwo(dg, s, i);
      i := i + 1;
    }
    assert forall k :: 0 <= k < n ==> Swapped(n, i, k) == n - 1 - k;
    forall h | 0 <= h < n ensures DGraph.NodeOk(dg.nodes[h], h, arcs) {
      assert DGraph.NodeOk(s[h], h, arcs);
    }
  }

  /** One turn of the loop. */
  method ReverseTwo(dg: DGraph, ghost s: seq<Node>, i: nat)
    requires PartlyReversed(dg, s, i) && i < |s| / 2
    modifies dg`nodes, dg`node
    ensures PartlyReversed(dg, s, i + 1)
  {
    var n := |dg.node|;
    var tmp := dg.node[i];
    dg.node := dg.node[i := dg.node[n - 1 - i]];
    dg.nodes := dg.nodes[dg.node[i] := dg.nodes[dg.node[i]].(id := i)];
    dg.node := dg.node[n - 1 - i := tmp];
    dg.nodes := dg.nodes[tmp := dg.nodes[tmp].(id := n - 1 - i)];
  }

  /** buildWH: by ids, the mirror image of the in-tree. */
  method BuildWH(numSources: nat) returns (dg: DGraph)
    ensures fresh(dg) && dg.Valid() && IsWh(dg.AsGraph(), numSources)
  {
    dg := BuildTree(numSources, true);
    ReverseNodes(dg, TreeArcs(numSources, true));
    MirroredIds(dg.nodes, numSources);
  }

  lemma MirroredIds(s: seq<Node>, n: nat)
    requires DGraph.NodesOk(s, TreeArcs(n, true)) && |s| == |TreeHeads(n, 0)| + 1
    requires forall h :: 0 <= h < |s| ==> s[h].id == |s| - 1 - h
    ensures DGraph.ById(s, TreeArcs(n, true)) == WhArcs(n)
  {
    BhInside(n);
    forall a | 0 <= a < |TreeArcs(n, true)| ensures DGraph.ById(s, TreeArcs(n, true))[a] == WhArcs(n)[a] {
    }
  }
}
