/**
 * The communication of dt.c with one node per rank: which messages each rank sends and
 * receives, in which order, and when the whole exchange can run to its end.
 */
module Processes {
  import opened DGraphs

  /** An arc carries a length and then the values; a sink sends its checksum to rank 0. */
  datatype Msg = Len(arc: nat) | Val(arc: nat) | Sum(sink: nat)

  // ---------------------------------------------------------------------------
  // Each rank's list of messages
  // ---------------------------------------------------------------------------

  /** Two messages for every arc of a list. */
  function Pairs(list: seq<nat>): (s: seq<Msg>)
    ensures |s| == 2 * |list|
    ensures forall i :: 0 <= i < |list| ==> s[2 * i] == Len(list[i]) && s[2 * i + 1] == Val(list[i])
  {
    if list == [] then [] else Pairs(list[..|list| - 1]) + [Len(list[|list| - 1]), Val(list[|list| - 1])]
  }

  function NodeList(g: Graph, x: nat): seq<Msg>
    requires x < |g.kinds|
  {
    match g.kinds[x]
    case Source => Pairs(OutArcs(g.arcs, x))
    case Sink => Pairs(InArcs(g.arcs, x)) + [Sum(x)]
    case Comparator =>
      if InArcs(g.arcs, x) == [] then [] else Pairs(InArcs(g.arcs, x)) + Pairs(OutArcs(g.arcs, x))
  }

  /** The report node's receives from the sinks among the first k nodes. */
  function Reports(g: Graph, k: nat): seq<Msg>
    requires k <= |g.kinds|
  {
    if k == 0 then [] else Reports(g, k - 1) + (if g.kinds[k - 1].Sink? then [Sum(k - 1)] else [])
  }

  function RankList(g: Graph, r: nat): seq<Msg>
    requires r < |g.kinds|
  {
    NodeList(g, r) + (if r == 0 then Reports(g, |g.kinds|) else [])
  }

  // ---------------------------------------------------------------------------
  // The code that produces the lists
  // ---------------------------------------------------------------------------

  lemma {:induction false} SameLists(a: seq<Arc>, b: seq<Arc>, h: nat, h': nat)
    requires |a| == |b|
    requires forall i :: 0 <= i < |a| ==> (a[i].head == h <==> b[i].head == h') && (a[i].tail == h <==> b[i].tail == h')
    ensures InArcs(a, h) == InArcs(b, h') && OutArcs(a, h) == OutArcs(b, h')
  {
    if a != [] { SameLists(a[..|a| - 1], b[..|b| - 1], h, h'); }
  }

  /** A node's lists are the same by address and by id. */
  lemma ListsById(dg: DGraph, nd: nat)
    requires dg.Valid() && nd < |dg.nodes|
    ensures InArcs(dg.IdArcs(), dg.nodes[nd].id) == InArcs(dg.arc, nd) == dg.nodes[nd].inArc
    ensures OutArcs(dg.IdArcs(), dg.nodes[nd].id) == OutArcs(dg.arc, nd) == dg.nodes[nd].outArc
  {
    hide InArcs; hide OutArcs;
    assert DGraph.NodeOk(dg.nodes[nd], nd, dg.arc);
    forall x | 0 <= x < |dg.nodes| ensures dg.nodes[x].id == dg.nodes[nd].id <==> x == nd {
      assert dg.node[dg.nodes[x].id] == x && dg.node[dg.nodes[nd].id] == nd;
    }
    SameLists(dg.IdArcs(), dg.arc, dg.nodes[nd].id, nd);
  }

  /** The arcs at a node, and that their other ends are on other ranks. */
  lemma ArcsAt(dg: DGraph, nd: nat)
    requires dg.Valid() && nd < |dg.nodes| && NoLoops(dg)
    ensures forall i :: 0 <= i < |dg.nodes[nd].outArc| ==>
      var a := dg.nodes[nd].outArc[i]; a < |dg.arc| && OtherRank(dg, dg.arc[a].head, nd)
    ensures forall i :: 0 <= i < |dg.nodes[nd].inArc| ==>
      var a := dg.nodes[nd].inArc[i]; a < |dg.arc| && OtherRank(dg, dg.arc[a].tail, nd)
  {
    assert DGraph.NodeOk(dg.nodes[nd], nd, dg.arc);
    forall x | 0 <= x < |dg.nodes| && x != nd ensures OtherRank(dg, x, nd) {
      assert dg.node[dg.nodes[x].id] == x && dg.node[dg.nodes[nd].id] == nd;
    }
    forall i | 0 <= i < |dg.nodes[nd].outArc| ensures dg.nodes[nd].outArc[i] in OutArcs(dg.arc, nd) {
    }
    forall i | 0 <= i < |dg.nodes[nd].inArc| ensures dg.nodes[nd].inArc[i] in InArcs(dg.arc, nd) {
    }
  }

  ghost predicate OtherRank(dg: DGraph, x: nat, nd: nat)
    reads dg`nodes
  {
    x < |dg.nodes| && nd < |dg.nodes| && dg.nodes[x].id != dg.nodes[nd].id
  }

  ghost predicate NoLoops(dg: DGraph)
    reads dg`arc
  {
    forall a :: 0 <= a < |dg.arc| ==> dg.arc[a].tail != dg.arc[a].head
  }

  lemma PairsSnoc(list: seq<nat>, a: nat)
    ensures Pairs(list + [a]) == Pairs(list) + [Len(a), Val(a)]
  {
    assert (list + [a])[..|list|] == list;
  }

  lemma NoPairs()
    ensures Pairs([]) == []
  {
  }

  /** SendResults: two sends on each outgoing arc to another rank. */
  method SendResults(dg: DGraph, nd: nat, trace0: seq<Msg>) returns (trace: seq<Msg>)
    requires dg.Valid() && nd < |dg.nodes| && NoLoops(dg)
    ensures trace == trace0 + Pairs(OutArcs(dg.AsGraph().arcs, dg.nodes[nd].id))
  {
    hide InArcs; hide OutArcs; hide DGraph.Listed; hide DGraph.NodesOk; hide NoLoops; hide Pairs;
    trace := trace0;
    ListsById(dg, nd);
    ArcsAt(dg, nd);
    NoPairs();
    var out := dg.nodes[nd].outArc;
    var i := 0;
    while i < |out|
      invariant 0 <= i <= |out| && trace == trace0 + Pairs(out[..i])
    {
      var head := dg.arc[out[i]].head;
      if dg.nodes[head].id != dg.nodes[nd].id {
        PairsSnoc(out[..i], out[i]);
        assert out[..i + 1] == out[..i] + [out[i]];
        trace := trace + [Len(out[i]), Val(out[i])];
      }
      i := i + 1;
    }
    assert out[..|out|] == out;
  }

  /** The receives of CombineStreams and ReduceStreams: two on each incoming arc from another rank. */
  method Receive(dg: DGraph, nd: nat, trace0: seq<Msg>) returns (trace: seq<Msg>)
    requires dg.Valid() && nd < |dg.nodes| && NoLoops(dg)
    ensures trace == trace0 + Pairs(InArcs(dg.AsGraph().arcs, dg.nodes[nd].id))
  {
    hide InArcs; hide OutArcs; hide DGraph.Listed; hide DGraph.NodesOk; hide NoLoops; hide Pairs;
    trace := trace0;
    ListsById(dg, nd);
    ArcsAt(dg, nd);
    NoPairs();
    var inn := dg.nodes[nd].inArc;
    var i := 0;
    while i < |inn|
      invariant 0 <= i <= |inn| && trace == trace0 + Pairs(inn[..i])
    {
      var tail := dg.arc[inn[i]].tail;
      if dg.nodes[tail].id != dg.nodes[nd].id {
        PairsSnoc(inn[..i], inn[i]);
        assert inn[..i + 1] == inn[..i] + [inn[i]];
        trace := trace + [Len(inn[i]), Val(inn[i])];
      }
      i := i + 1;
    }
    assert inn[..|inn|] == inn;
  }

  /** One node's part of ProcessNodes. */
  method ProcessNode(dg: DGraph, i: nat) returns (trace: seq<Msg>)
    requires dg.Valid() && i < |dg.node| && NoLoops(dg)
    ensures trace == NodeList(dg.AsGraph(), i)
  {
    hide InArcs; hide OutArcs; hide Pairs; hide DGraph.NodesOk; hide NoLoops;
    var nd := dg.node[i];
    ListsById(dg, nd);
    trace := [];
    match dg.nodes[nd].name.kind {
      case Source =>
        trace := SendResults(dg, nd, trace);
      case Sink =>
        trace := Receive(dg, nd, trace);
        trace := trace + [Sum(dg.nodes[nd].id)];
      case Comparator =>
        if |dg.nodes[nd].inArc| != 0 {
          trace := Receive(dg, nd, trace);
          trace := SendResults(dg, nd, trace);
        }
    }
  }

  /** The report node's receives, one from each sink in node order. */
  method ReportSinks(dg: DGraph, trace0: seq<Msg>) returns (trace: seq<Msg>)
    requires dg.Valid()
    ensures trace == trace0 + Reports(dg.AsGraph(), |dg.node|)
  {
    hide DGraph.NodesOk;
    trace := trace0;
    var i := 0;
    while i < |dg.node|
      invariant 0 <= i <= |dg.node| && trace == trace0 + Reports(dg.AsGraph(), i)
    {
      assert dg.AsGraph().kinds[i] == dg.nodes[dg.node[i]].name.kind;
      if dg.nodes[dg.node[i]].name.kind == Sink {
        trace := trace + [Sum(dg.nodes[dg.node[i]].id)];
      }
      i := i + 1;
    }
  }

  /** ProcessNodes on rank me, as the list of its communications; main gives node i address i. */
  method ProcessNodes(dg: DGraph, me: nat) returns (trace: seq<Msg>)
    requires dg.Valid() && me < |dg.node| && NoLoops(dg)
    ensures trace == RankList(dg.AsGraph(), me)
  {
    hide NodeList; hide Reports; hide DGraph.Valid; hide NoLoops;
    trace := [];
    var i := 0;
    while i < |dg.node|
      invariant 0 <= i <= |dg.node|
      invariant trace == if me < i then NodeList(dg.AsGraph(), me) else []
    {
      if i == me {
        trace := ProcessNode(dg, i);
      }
      i := i + 1;
    }
    if me == 0 {
      trace := ReportSinks(dg, trace);
    }
  }
}
