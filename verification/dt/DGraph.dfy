/**
 * The directed graphs of DGraph.c.  A node or arc is named by the order in which it was
 * created, which stands for its address; `node` is the graph's node array, which a builder
 * may reorder afterwards.
 */
module DGraphs {
  const BLOCK_SIZE := 128
  const SMALL_BLOCK_SIZE := 32

  datatype Kind = Source | Comparator | Sink
  datatype Name = Name(kind: Kind, number: nat)
  datatype Arc = Arc(tail: nat, head: nat)
  datatype Node = Node(name: Name, id: nat, inArc: seq<nat>, outArc: seq<nat>, maxInDegree: nat, maxOutDegree: nat)

  /** A finished graph by node ids. */
  datatype Graph = Graph(kinds: seq<Kind>, arcs: seq<Arc>)

  /** The arcs that enter node h, in order of creation. */
  function InArcs(arcs: seq<Arc>, h: nat): (s: seq<nat>)
    ensures forall a: nat :: a in s <==> a < |arcs| && arcs[a].head == h
  {
    if arcs == [] then []
    else
      var n := |arcs| - 1;
      InArcs(arcs[..n], h) + (if arcs[n].head == h then [n] else [])
  }

  /** The arcs that leave node t, in order of creation. */
  function OutArcs(arcs: seq<Arc>, t: nat): (s: seq<nat>)
    ensures forall a: nat :: a in s <==> a < |arcs| && arcs[a].tail == t
  {
    if arcs == [] then []
    else
      var n := |arcs| - 1;
      OutArcs(arcs[..n], t) + (if arcs[n].tail == t then [n] else [])
  }

  lemma InArcsSnoc(arcs: seq<Arc>, a: Arc, h: nat)
    ensures InArcs(arcs + [a], h) == InArcs(arcs, h) + (if a.head == h then [|arcs|] else [])
    ensures OutArcs(arcs + [a], h) == OutArcs(arcs, h) + (if a.tail == h then [|arcs|] else [])
  {
    assert (arcs + [a])[..|arcs|] == arcs;
  }

  lemma {:induction false} ListsIncreasing(arcs: seq<Arc>, h: nat)
    ensures forall i, j :: 0 <= i < j < |InArcs(arcs, h)| ==> InArcs(arcs, h)[i] < InArcs(arcs, h)[j]
    ensures forall i, j :: 0 <= i < j < |OutArcs(arcs, h)| ==> OutArcs(arcs, h)[i] < OutArcs(arcs, h)[j]
  {
    if arcs != [] {
      var n := |arcs| - 1;
      ListsIncreasing(arcs[..n], h);
      forall i | 0 <= i < |InArcs(arcs[..n], h)| ensures InArcs(arcs[..n], h)[i] < n {
        assert InArcs(arcs[..n], h)[i] in InArcs(arcs[..n], h);
      }
      forall i | 0 <= i < |OutArcs(arcs[..n], h)| ensures OutArcs(arcs[..n], h)[i] < n {
        assert OutArcs(arcs[..n], h)[i] in OutArcs(arcs[..n], h);
      }
    }
  }

  class DGraph {
    var nodes: seq<Node>    // all nodes, by address
    var node: seq<nat>      // the node array
    var arc: seq<Arc>       // the arc array; an arc's id is its index
    var length: seq<int>    // the arcs' length fields
    var maxNodes: nat
    var maxArcs: nat

    /** newDGraph */
    constructor ()
      ensures Valid() && nodes == [] && node == [] && arc == []
    {
      nodes, node, arc, length := [], [], [], [];
      maxNodes, maxArcs := BLOCK_SIZE, BLOCK_SIZE;
    }

    /** A node's lists are the graph's arcs at it, in order, and leave room for one more. */
    static ghost predicate NodeOk(x: Node, h: nat, arcs: seq<Arc>) {
      && x.inArc == InArcs(arcs, h) && x.outArc == OutArcs(arcs, h)
      && |x.inArc| < x.maxInDegree && |x.outArc| < x.maxOutDegree
    }

    static ghost predicate NodesOk(s: seq<Node>, arcs: seq<Arc>) {
      && (forall a :: 0 <= a < |arcs| ==> arcs[a].tail < |s| && arcs[a].head < |s|)
      && (forall h :: 0 <= h < |s| ==> NodeOk(s[h], h, arcs))
    }

    /** The node array lists every node once, at its id. */
    static ghost predicate Listed(s: seq<Node>, order: seq<nat>) {
      && |order| == |s|
      && (forall i :: 0 <= i < |order| ==> order[i] < |s| && s[order[i]].id == i)
      && (forall h :: 0 <= h < |s| ==> s[h].id < |order| && order[s[h].id] == h)
    }

    /** Ids are dense, lists agree with the arcs, and both arrays have room for one more entry. */
    ghost predicate Valid()
      reads this
    {
      && |node| < maxNodes && |arc| == |length| < maxArcs
      && Listed(nodes, node) && NodesOk(nodes, arc)
    }

    /** The node array is still in order of creation. */
    ghost predicate InOrder()
      reads this
    {
      forall i :: 0 <= i < |node| ==> node[i] == i
    }

    static ghost function ById(s: seq<Node>, arcs: seq<Arc>): (t: seq<Arc>)
      requires NodesOk(s, arcs)
      ensures |t| == |arcs|
    {
      seq(|arcs|, a requires 0 <= a < |arcs| => Arc(s[arcs[a].tail].id, s[arcs[a].head].id))
    }

    /** The arcs by the ids of their ends. */
    ghost function IdArcs(): (t: seq<Arc>)
      requires Valid()
      reads this
      ensures |t| == |arc|
    {
      ById(nodes, arc)
    }

    /** The kinds of the nodes, by id. */
    static ghost function KindsById(s: seq<Node>, order: seq<nat>): (t: seq<Kind>)
      requires Listed(s, order)
      ensures |t| == |order|
    {
      seq(|order|, i requires 0 <= i < |order| => s[order[i]].name.kind)
    }

    ghost function AsGraph(): (g: Graph)
      requires Valid()
      reads this
      ensures |g.kinds| == |node| && |g.arcs| == |arc|
    {
      Graph(KindsById(nodes, node), IdArcs())
    }

    ghost predicate Unused(nm: Name)
      reads this`nodes
    {
      forall h :: 0 <= h < |nodes| ==> nodes[h].name != nm
    }

    lemma {:induction false} NoArcsYet(arcs: seq<Arc>, h: nat)
      requires forall a :: 0 <= a < |arcs| ==> arcs[a].tail < h && arcs[a].head < h
      ensures InArcs(arcs, h) == [] && OutArcs(arcs, h) == []
    {
      if arcs != [] { NoArcsYet(arcs[..|arcs| - 1], h); }
    }

    /** The search for a node with the same name. */
    method FindName(nm: Name) returns (i: nat)
      requires Listed(nodes, node)
      ensures i <= |node| && (i < |node| ==> nodes[node[i]].name == nm)
      ensures i == |node| <==> Unused(nm)
    {
      i := 0;
      while i < |node|
        invariant 0 <= i <= |node|
        invariant forall j :: 0 <= j < i ==> nodes[node[j]].name != nm
      {
        if nodes[node[i]].name == nm {
          return;
        }
        i := i + 1;
      }
      forall h | 0 <= h < |nodes| ensures nodes[h].name != nm {
        assert nodes[node[nodes[h].id]].name != nm;
      }
    }

    static function NewNode(nm: Name, id: nat): Node {
      Node(nm, id, [], [], SMALL_BLOCK_SIZE, SMALL_BLOCK_SIZE)
    }

    lemma NodeAdded(s: seq<Node>, order: seq<nat>, arcs: seq<Arc>, nm: Name)
      requires Listed(s, order) && NodesOk(s, arcs)
      ensures var s1 := s + [NewNode(nm, |order|)];
        Listed(s1, order + [|s|]) && NodesOk(s1, arcs)
    {
      hide InArcs; hide OutArcs;
      NoArcsYet(arcs, |s|);
      var s1 := s + [NewNode(nm, |order|)];
      forall h | 0 <= h < |s1| ensures NodeOk(s1[h], h, arcs) {
        if h < |s| { assert NodeOk(s[h], h, arcs); }
      }
    }

    /** newNode and AttachNode: a new name makes a new node at the end; a known one makes none. */
    method AttachNode(nm: Name) returns (id: nat)
      requires Valid()
      modifies this`nodes, this`node, this`maxNodes
      ensures Valid()
      ensures old(Unused(nm)) ==>
        && id == |old(node)| && node == old(node) + [|old(nodes)|]
        && nodes == old(nodes) + [NewNode(nm, id)]
      ensures !old(Unused(nm)) ==>
        && nodes == old(nodes) && node == old(node)
        && id < |node| && node[id] < |nodes| && nodes[node[id]].name == nm
    {
      hide NodesOk;
      if |node| == maxNodes - 1 {
        maxNodes := maxNodes + BLOCK_SIZE;
      }
      id := FindName(nm);
      if id == |node| {
        NodeAdded(nodes, node, arc, nm);
        node := node + [|nodes|];
        nodes := nodes + [NewNode(nm, id)];
      }
    }

    /** A list's capacity after its degree has grown. */
    static function Room(degree: nat, maxDegree: nat): nat {
      if degree >= maxDegree then maxDegree + SMALL_BLOCK_SIZE else maxDegree
    }

    /** The nodes with a new arc entered in its head's and its tail's lists. */
    static function WithArc(s: seq<Node>, nar: Arc, id: nat): (t: seq<Node>)
      requires nar.tail < |s| && nar.head < |s|
      ensures |t| == |s| && forall h :: 0 <= h < |s| ==> t[h].name == s[h].name && t[h].id == s[h].id
    {
      var h := s[nar.head];
      var s1 := s[nar.head := h.(inArc := h.inArc + [id], maxInDegree := Room(|h.inArc| + 1, h.maxInDegree))];
      var t := s1[nar.tail];
      s1[nar.tail := t.(outArc := t.outArc + [id], maxOutDegree := Room(|t.outArc| + 1, t.maxOutDegree))]
    }

    lemma ArcAdded(s: seq<Node>, order: seq<nat>, arcs: seq<Arc>, nar: Arc)
      requires nar.tail < |s| && nar.head < |s| && Listed(s, order) && NodesOk(s, arcs)
      ensures Listed(WithArc(s, nar, |arcs|), order) && NodesOk(WithArc(s, nar, |arcs|), arcs + [nar])
    {
      hide InArcs; hide OutArcs;
      var s1 := WithArc(s, nar, |arcs|);
      forall h | 0 <= h < |s1| ensures NodeOk(s1[h], h, arcs + [nar]) {
        assert NodeOk(s[h], h, arcs);
        InArcsSnoc(arcs, nar, h);
      }
    }

    /** An arc with the same ends and length. */
    ghost predicate Parallel(nar: Arc, len: int)
      reads this`arc, this`length
    {
      exists a :: 0 <= a < |arc| && a < |length| && arc[a] == nar && length[a] == len
    }

    /** The search for a parallel arc among the tail's outgoing ones. */
    method FindParallel(nar: Arc, len: int) returns (found: bool, id: nat)
      requires Valid() && nar.tail < |nodes|
      ensures found <==> Parallel(nar, len)
      ensures found ==> id < |arc| && arc[id] == nar
    {
      hide Listed; hide InArcs; hide OutArcs;
      var out := nodes[nar.tail].outArc;
      assert NodeOk(nodes[nar.tail], nar.tail, arc);
      found, id := false, 0;
      var i := 0;
      while i < |out|
        invariant 0 <= i <= |out|
        invariant forall j :: 0 <= j < i ==> out[j] < |arc| && !(arc[out[j]] == nar && length[out[j]] == len)
      {
        assert out[i] in out;
        if arc[out[i]].head == nar.head && length[out[i]] == len {
          return true, out[i];
        }
        i := i + 1;
      }
      forall a: nat | a < |arc| && arc[a] == nar ensures length[a] != len {
        assert a in out;
      }
    }

    /** newArc and AttachArc: appends the arc, unless a parallel one of the same length exists. */
    method AttachArc(nar: Arc, len: int) returns (arcId: nat)
      requires Valid() && nar.tail < |nodes| && nar.head < |nodes|
      modifies this`nodes, this`arc, this`length, this`maxArcs
      ensures Valid()
      ensures !old(Parallel(nar, len)) ==>
        && arcId == |old(arc)| && arc == old(arc) + [nar] && length == old(length) + [len]
        && nodes == WithArc(old(nodes), nar, arcId)
      ensures old(Parallel(nar, len)) ==> arc == old(arc) && nodes == old(nodes) && arcId < |arc| && arc[arcId] == nar
    {
      hide Listed; hide NodesOk; hide WithArc; hide Parallel;
      if |arc| == maxArcs - 1 {
        maxArcs := maxArcs + BLOCK_SIZE;
      }
      var found, id := FindParallel(nar, len);
      if found {
        return id;
      }
      ArcAdded(nodes, node, arc, nar);
      arcId := |arc|;
      nodes := WithArc(nodes, nar, arcId);
      arc := arc + [nar];
      length := length + [len];
    }
  }
}
