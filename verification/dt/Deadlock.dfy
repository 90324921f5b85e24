/**
 * When the exchange of dt.c can deadlock under synchronous sends, and that it cannot on the
 * graphs dt.c builds.
 */
module Deadlock {
  import opened Arith
  import opened DGraphs
  import opened GraphShapes
  import opened Builders
  import opened Rendezvous
  import opened Processes

  // ---------------------------------------------------------------------------
  // The network of a graph
  // ---------------------------------------------------------------------------

  /** Arcs between different nodes; sources only send, sinks only receive, comparators receive. */
  ghost predicate Shaped(g: Graph) {
    && |g.kinds| > 0 && !g.kinds[0].Sink?
    && (forall a :: 0 <= a < |g.arcs| ==> ArcOk(g, g.arcs[a]))
    && (forall x :: 0 <= x < |g.kinds| && g.kinds[x].Comparator? ==> InArcs(g.arcs, x) != [])
  }

  ghost predicate ArcOk(g: Graph, a: Arc) {
    && a.tail < |g.kinds| && a.head < |g.kinds| && a.tail != a.head
    && !g.kinds[a.tail].Sink? && !g.kinds[a.head].Source?
  }

  ghost predicate IsMsg(g: Graph, m: Msg) {
    match m
    case Len(a) => a < |g.arcs|
    case Val(a) => a < |g.arcs|
    case Sum(s) => s < |g.kinds| && g.kinds[s].Sink?
  }

  ghost function Msgs(g: Graph): (s: set<Msg>)
    ensures forall m :: m in s <==> IsMsg(g, m)
  {
    (set a: nat | a < |g.arcs| :: Len(a)) + (set a: nat | a < |g.arcs| :: Val(a)) +
    (set s: nat | s < |g.kinds| && g.kinds[s].Sink? :: Sum(s))
  }

  ghost function SenderOf(g: Graph, m: Msg): nat
    requires IsMsg(g, m)
  {
    match m
    case Len(a) => g.arcs[a].tail
    case Val(a) => g.arcs[a].tail
    case Sum(s) => s
  }

  ghost function ReceiverOf(g: Graph, m: Msg): nat
    requires IsMsg(g, m)
  {
    match m
    case Len(a) => g.arcs[a].head
    case Val(a) => g.arcs[a].head
    case Sum(s) => 0
  }

  ghost function NetOf(g: Graph): Net<Msg> {
    Net(seq(|g.kinds|, r requires 0 <= r < |g.kinds| => RankList(g, r)),
        map m | m in Msgs(g) :: SenderOf(g, m),
        map m | m in Msgs(g) :: ReceiverOf(g, m))
  }

  // ---------------------------------------------------------------------------
  // An order of the arcs
  // ---------------------------------------------------------------------------

  /** Every node's incoming arcs, then its outgoing arcs, each in list order, have growing keys. */
  ghost predicate KeyOrder(g: Graph, key: seq<nat>) {
    && |key| == |g.arcs|
    && forall a, b :: 0 <= a < |key| && 0 <= b < |key| && Follows(g.arcs, a, b) ==> key[a] < key[b]
  }

  /** Some node handles arc a before arc b. */
  ghost predicate Follows(arcs: seq<Arc>, a: nat, b: nat)
    requires a < |arcs| && b < |arcs|
  {
    || (a < b && arcs[a].head == arcs[b].head)
    || (a < b && arcs[a].tail == arcs[b].tail)
    || arcs[a].head == arcs[b].tail
  }

  /** A rank for messages from a key for arcs: checksums come last. */
  ghost function RankOf(g: Graph, key: seq<nat>, top: nat, m: Msg): nat
    requires |key| == |g.arcs| && IsMsg(g, m)
  {
    match m
    case Len(a) => 2 * key[a]
    case Val(a) => 2 * key[a] + 1
    case Sum(s) => 2 * top + s
  }

  ghost predicate Rising(g: Graph, key: seq<nat>, top: nat, s: seq<Msg>)
    requires |key| == |g.arcs|
  {
    && (forall i :: 0 <= i < |s| ==> IsMsg(g, s[i]))
    && (forall i, j :: 0 <= i < j < |s| ==> RankOf(g, key, top, s[i]) < RankOf(g, key, top, s[j]))
  }

  lemma RisingAppend(g: Graph, key: seq<nat>, top: nat, s: seq<Msg>, t: seq<Msg>)
    requires |key| == |g.arcs| && Rising(g, key, top, s) && Rising(g, key, top, t)
    requires forall i, j :: 0 <= i < |s| && 0 <= j < |t| ==> RankOf(g, key, top, s[i]) < RankOf(g, key, top, t[j])
    ensures Rising(g, key, top, s + t)
  {
  }

  /** Message i of a list of arcs. */
  function PairAt(list: seq<nat>, i: nat): Msg
    requires i < 2 * |list|
  {
    if i % 2 == 0 then Len(list[i / 2]) else Val(list[i / 2])
  }

  lemma PairsAt(list: seq<nat>, i: nat)
    requires i < 2 * |list|
    ensures Pairs(list)[i] == PairAt(list, i)
  {
    assert Pairs(list)[2 * (i / 2)] == Len(list[i / 2]) && Pairs(list)[2 * (i / 2) + 1] == Val(list[i / 2]);
  }

  lemma PairBefore(g: Graph, key: seq<nat>, top: nat, list: seq<nat>, i: nat, j: nat)
    requires |key| == |g.arcs| && forall i :: 0 <= i < |list| ==> list[i] < |key|
    requires forall i, j :: 0 <= i < j < |list| ==> key[list[i]] < key[list[j]]
    requires i < j < 2 * |list|
    ensures RankOf(g, key, top, PairAt(list, i)) < RankOf(g, key, top, PairAt(list, j))
  {
    var a, b := list[i / 2], list[j / 2];
    assert i / 2 <= j / 2;
    assert i / 2 < j / 2 ==> key[a] < key[b];
  }

  /** The two messages of each arc of a list with growing keys. */
  lemma RisingPairs(g: Graph, key: seq<nat>, top: nat, list: seq<nat>)
    requires |key| == |g.arcs| && forall i :: 0 <= i < |list| ==> list[i] < |key|
    requires forall i, j :: 0 <= i < j < |list| ==> key[list[i]] < key[list[j]]
    ensures Rising(g, key, top, Pairs(list))
  {
    hide Pairs;
    forall i | 0 <= i < |Pairs(list)| ensures IsMsg(g, Pairs(list)[i]) && Pairs(list)[i] == PairAt(list, i) {
      PairsAt(list, i);
    }
    hide PairAt;
    forall i, j | 0 <= i < j < |Pairs(list)|
      ensures RankOf(g, key, top, Pairs(list)[i]) < RankOf(g, key, top, Pairs(list)[j])
    {
      PairBefore(g, key, top, list, i, j);
    }
  }

  lemma {:induction false} ReportsAre(g: Graph, k: nat)
    requires k <= |g.kinds|
    ensures forall i :: 0 <= i < |Reports(g, k)| ==> Reports(g, k)[i].Sum? && Reports(g, k)[i].sink < k && IsMsg(g, Reports(g, k)[i])
    ensures forall i, j :: 0 <= i < j < |Reports(g, k)| ==> Reports(g, k)[i].sink < Reports(g, k)[j].sink
    ensures forall s :: 0 <= s < k && g.kinds[s].Sink? ==> Sum(s) in Reports(g, k)
  {
    if k > 0 { ReportsAre(g, k - 1); }
  }

  // ---------------------------------------------------------------------------
  // The network is well formed
  // ---------------------------------------------------------------------------

  /** No message twice. */
  ghost predicate NoRepeat(s: seq<Msg>) {
    forall i, j :: 0 <= i < j < |s| ==> s[i] != s[j]
  }

  lemma NoRepeatAppend(s: seq<Msg>, t: seq<Msg>)
    requires NoRepeat(s) && NoRepeat(t) && forall m :: m in s ==> m !in t
    ensures NoRepeat(s + t)
  {
    forall i, j | 0 <= i < j < |s + t| ensures (s + t)[i] != (s + t)[j] {
      if i < |s| <= j { assert s[i] in s && t[j - |s|] in t; }
    }
  }

  lemma PairsMembers(list: seq<nat>, m: Msg)
    ensures m in Pairs(list) <==> !m.Sum? && m.arc in list
  {
    hide Pairs;
    if m in Pairs(list) {
      var i :| 0 <= i < |Pairs(list)| && Pairs(list)[i] == m;
      PairsAt(list, i);
    }
    if !m.Sum? && m.arc in list {
      var k :| 0 <= k < |list| && list[k] == m.arc;
      assert Pairs(list)[2 * k] == Len(m.arc) && Pairs(list)[2 * k + 1] == Val(m.arc);
    }
  }

  lemma PairsNoRepeat(list: seq<nat>)
    requires forall i, j :: 0 <= i < j < |list| ==> list[i] != list[j]
    ensures NoRepeat(Pairs(list))
  {
    hide Pairs;
    forall i, j | 0 <= i < j < |Pairs(list)| ensures Pairs(list)[i] != Pairs(list)[j] {
      PairsAt(list, i);
      PairsAt(list, j);
      assert i / 2 < j / 2 || i / 2 == j / 2;
    }
  }

  /** The arcs a node handles, in order: incoming, then outgoing. */
  ghost function Handled(g: Graph, x: nat): seq<nat> {
    InArcs(g.arcs, x) + OutArcs(g.arcs, x)
  }

  /** What follows the arcs in rank r's list. */
  ghost function Closing(g: Graph, r: nat): seq<Msg>
    requires r < |g.kinds|
  {
    (if g.kinds[r].Sink? then [Sum(r)] else []) + (if r == 0 then Reports(g, |g.kinds|) else [])
  }

  lemma {:induction false} PairsAppend(a: seq<nat>, b: seq<nat>)
    ensures Pairs(a + b) == Pairs(a) + Pairs(b)
  {
    hide Pairs;
    if b == [] {
      assert a + b == a;
      NoPairs();
    } else {
      var n := |b| - 1;
      PairsAppend(a, b[..n]);
      PairsSnoc(a + b[..n], b[n]);
      PairsSnoc(b[..n], b[n]);
      assert b == b[..n] + [b[n]] && a + b == (a + b[..n]) + [b[n]];
    }
  }

  lemma EmptyOrMember(s: seq<nat>)
    ensures s == [] || exists a: nat :: a in s
  {
    if s != [] { assert s[0] in s; }
  }

  /** No arc leaves a sink or enters a source. */
  lemma NoArcs(g: Graph, r: nat)
    requires Shaped(g) && r < |g.kinds|
    ensures g.kinds[r].Source? ==> InArcs(g.arcs, r) == []
    ensures g.kinds[r].Sink? ==> OutArcs(g.arcs, r) == []
  {
    hide InArcs; hide OutArcs;
    assert forall a: nat :: a < |g.arcs| ==> ArcOk(g, g.arcs[a]);
    EmptyOrMember(InArcs(g.arcs, r));
    EmptyOrMember(OutArcs(g.arcs, r));
  }

  /** So every list has the same form. */
  lemma RankListIs(g: Graph, r: nat)
    requires Shaped(g) && r < |g.kinds|
    ensures RankList(g, r) == Pairs(Handled(g, r)) + Closing(g, r)
  {
    hide Pairs; hide Reports; hide InArcs; hide OutArcs;
    PairsAppend(InArcs(g.arcs, r), OutArcs(g.arcs, r));
    NoPairs();
    NoArcs(g, r);
  }

  /** Which arcs a node handles, each once, and in which order. */
  lemma HandledArcs(g: Graph, x: nat)
    requires Shaped(g)
    ensures forall i :: 0 <= i < |Handled(g, x)| ==>
      Handled(g, x)[i] < |g.arcs| && (g.arcs[Handled(g, x)[i]].head == x || g.arcs[Handled(g, x)[i]].tail == x)
    ensures forall i, j :: 0 <= i < j < |Handled(g, x)| ==>
      Follows(g.arcs, Handled(g, x)[i], Handled(g, x)[j]) && Handled(g, x)[i] != Handled(g, x)[j]
  {
    var s, n := Handled(g, x), |InArcs(g.arcs, x)|;
    ListsIncreasing(g.arcs, x);
    forall i | 0 <= i < |s| ensures s[i] < |g.arcs| && (if i < n then g.arcs[s[i]].head == x else g.arcs[s[i]].tail == x) {
      if i < n { assert s[i] in InArcs(g.arcs, x); } else { assert s[i] in OutArcs(g.arcs, x); }
    }
    forall i, j | 0 <= i < j < |s| ensures Follows(g.arcs, s[i], s[j]) && s[i] != s[j] {
      assert ArcOk(g, g.arcs[s[i]]);
    }
  }

  lemma IndexOf(s: seq<nat>, a: nat) returns (i: nat)
    requires a in s
    ensures i < |s| && s[i] == a
  {
    i :| 0 <= i < |s| && s[i] == a;
  }

  /** Conversely, an arc that follows another does so at some node. */
  lemma FollowsAt(g: Graph, a: nat, b: nat) returns (x: nat, i: nat, j: nat)
    requires Shaped(g) && a < |g.arcs| && b < |g.arcs| && Follows(g.arcs, a, b)
    ensures x < |g.kinds| && i < j < |Handled(g, x)| && Handled(g, x)[i] == a && Handled(g, x)[j] == b
  {
    hide InArcs; hide OutArcs;
    assert ArcOk(g, g.arcs[a]) && ArcOk(g, g.arcs[b]);
    var byTail := a < b && g.arcs[a].tail == g.arcs[b].tail;
    x := if byTail then g.arcs[a].tail else g.arcs[a].head;
    var inn, out := InArcs(g.arcs, x), OutArcs(g.arcs, x);
    ListsIncreasing(g.arcs, x);
    if byTail {
      i := IndexOf(out, a);
      j := IndexOf(out, b);
      i, j := |inn| + i, |inn| + j;
    } else {
      i := IndexOf(inn, a);
      if a < b && g.arcs[b].head == x {
        j := IndexOf(inn, b);
      } else {
        j := IndexOf(out, b);
        j := |inn| + j;
      }
    }
  }

  lemma ClosingIs(g: Graph, r: nat)
    requires Shaped(g) && r < |g.kinds|
    ensures forall i :: 0 <= i < |Closing(g, r)| ==> Closing(g, r)[i].Sum? && IsMsg(g, Closing(g, r)[i])
    ensures forall i, j :: 0 <= i < j < |Closing(g, r)| ==> Closing(g, r)[i].sink < Closing(g, r)[j].sink
    ensures forall s: nat :: Sum(s) in Closing(g, r) <==> IsMsg(g, Sum(s)) && (s == r || r == 0)
  {
    hide Reports;
    ReportsAre(g, |g.kinds|);
    forall s: nat ensures Sum(s) in Closing(g, r) <==> IsMsg(g, Sum(s)) && (s == r || r == 0) {
    }
  }

  /** The messages of rank r's list are the graph's messages with an end there. */
  lemma RankMembers(g: Graph, r: nat, m: Msg)
    requires Shaped(g) && r < |g.kinds|
    ensures m in RankList(g, r) <==> IsMsg(g, m) && (SenderOf(g, m) == r || ReceiverOf(g, m) == r)
  {
    hide Pairs; hide Closing; hide RankList;
    RankListIs(g, r);
    ClosingIs(g, r);
    PairsMembers(Handled(g, r), m);
    if m in Closing(g, r) {
      var i :| 0 <= i < |Closing(g, r)| && Closing(g, r)[i] == m;
    }
  }

  lemma RankNoRepeat(g: Graph, r: nat)
    requires Shaped(g) && r < |g.kinds|
    ensures NoRepeat(RankList(g, r))
  {
    hide Pairs; hide Closing; hide RankList; hide Handled;
    RankListIs(g, r);
    ClosingIs(g, r);
    HandledArcs(g, r);
    PairsNoRepeat(Handled(g, r));
    forall m | m in Pairs(Handled(g, r)) ensures m !in Closing(g, r) {
      PairsMembers(Handled(g, r), m);
    }
    NoRepeatAppend(Pairs(Handled(g, r)), Closing(g, r));
  }

  lemma NetWellFormed(g: Graph)
    requires Shaped(g)
    ensures WellFormed(NetOf(g))
  {
    hide RankList;
    var net := NetOf(g);
    forall m | m in net.sender
      ensures net.sender[m] != net.receiver[m]
      ensures net.sender[m] < |net.progs| && m in net.progs[net.sender[m]]
      ensures net.receiver[m] < |net.progs| && m in net.progs[net.receiver[m]]
    {
      if !m.Sum? { assert ArcOk(g, g.arcs[m.arc]); }
      RankMembers(g, SenderOf(g, m), m);
      RankMembers(g, ReceiverOf(g, m), m);
    }
    forall r, i | 0 <= r < |net.progs| && 0 <= i < |net.progs[r]| ensures Ends(net, r, net.progs[r][i]) {
      assert net.progs[r][i] in RankList(g, r);
      RankMembers(g, r, net.progs[r][i]);
    }
    forall r | 0 <= r < |net.progs| ensures NoRepeat(net.progs[r]) {
      RankNoRepeat(g, r);
    }
  }

  // ---------------------------------------------------------------------------
  // Exactly when the exchange is free of deadlock
  // ---------------------------------------------------------------------------

  lemma RankRising(g: Graph, key: seq<nat>, top: nat, r: nat)
    requires Shaped(g) && r < |g.kinds| && KeyOrder(g, key) && forall a :: 0 <= a < |key| ==> key[a] < top
    ensures Rising(g, key, top, RankList(g, r))
  {
    hide Pairs; hide Closing; hide RankList; hide Handled;
    RankListIs(g, r);
    ClosingIs(g, r);
    HandledArcs(g, r);
    var list := Handled(g, r);
    RisingPairs(g, key, top, list);
    forall i | 0 <= i < |Pairs(list)| ensures RankOf(g, key, top, Pairs(list)[i]) < 2 * top {
      PairsAt(list, i);
    }
    RisingAppend(g, key, top, Pairs(list), Closing(g, r));
  }

  ghost function Largest(key: seq<nat>): (top: nat)
    ensures forall a :: 0 <= a < |key| ==> key[a] < top
  {
    if key == [] then 1
    else
      var t := Largest(key[..|key| - 1]);
      if key[|key| - 1] < t then t else key[|key| - 1] + 1
  }

  lemma KeyOrderOrders(g: Graph, key: seq<nat>)
    requires Shaped(g) && KeyOrder(g, key)
    ensures exists rank :: Ordered(NetOf(g), rank)
  {
    hide RankList;
    var net, top := NetOf(g), Largest(key);
    var rank := map m | m in Msgs(g) :: RankOf(g, key, top, m);
    forall r, i, j | 0 <= r < |net.progs| && 0 <= i < j < |net.progs[r]|
      ensures Before(rank, net.progs[r][i], net.progs[r][j])
    {
      RankRising(g, key, top, r);
    }
    assert Ordered(net, rank);
  }

  lemma OrderIsKeyOrder(g: Graph, rank: map<Msg, nat>)
    requires Shaped(g) && Ordered(NetOf(g), rank)
    ensures exists key :: KeyOrder(g, key)
  {
    hide RankList; hide Pairs;
    var net := NetOf(g);
    forall a: nat | a < |g.arcs| ensures Val(a) in rank { assert Val(a) in net.sender; }
    var key := seq(|g.arcs|, a requires 0 <= a < |g.arcs| => rank[Val(a)]);
    forall a, b | 0 <= a < |key| && 0 <= b < |key| && Follows(g.arcs, a, b) ensures key[a] < key[b] {
      var x, i, j := FollowsAt(g, a, b);
      RankListIs(g, x);
      assert net.progs[x][2 * i + 1] == Val(a) && net.progs[x][2 * j + 1] == Val(b);
      assert Before(rank, net.progs[x][2 * i + 1], net.progs[x][2 * j + 1]);
    }
    assert KeyOrder(g, key);
  }

  /**
   * The exchange of a graph is free of deadlock exactly when its arcs can be ordered so that
   * every node handles its incoming and then its outgoing arcs in that order.
   */
  lemma DeadlockFreeIffKeyOrder(g: Graph)
    requires Shaped(g)
    ensures WellFormed(NetOf(g))
    ensures DeadlockFree(NetOf(g)) <==> exists key :: KeyOrder(g, key)
  {
    NetWellFormed(g);
    DeadlockFreeIffOrdered(NetOf(g));
    if exists key :: KeyOrder(g, key) {
      var key :| KeyOrder(g, key);
      KeyOrderOrders(g, key);
    }
    if exists rank :: Ordered(NetOf(g), rank) {
      var rank :| Ordered(NetOf(g), rank);
      OrderIsKeyOrder(g, rank);
    }
  }

  lemma CycleHasNoKeys(g: Graph, key: seq<nat>, a: nat, b: nat, c: nat)
    requires a < |g.arcs| && b < |g.arcs| && c < |g.arcs|
    requires Follows(g.arcs, a, b) && Follows(g.arcs, b, c) && Follows(g.arcs, c, a)
    ensures !KeyOrder(g, key)
  {
  }

  /** The arcs 1 -> 2, 0 -> 2, 0 -> 1. */
  ghost function Triangle(): Graph {
    Graph([Source, Comparator, Sink], [Arc(1, 2), Arc(0, 2), Arc(0, 1)])
  }

  lemma TriangleShaped()
    ensures Shaped(Triangle())
  {
    hide InArcs;
    assert 2 in InArcs(Triangle().arcs, 1);
  }

  /** Topologically sorted nodes are not enough: three arcs in the wrong order wait for each other. */
  lemma SortedNodesCanDeadlock()
    ensures Shaped(Triangle()) && Upward(Triangle().arcs) && !DeadlockFree(NetOf(Triangle()))
  {
    hide KeyOrder; hide Shaped; hide NetOf; hide DeadlockFree;
    var g := Triangle();
    TriangleShaped();
    DeadlockFreeIffKeyOrder(g);
    forall key ensures !KeyOrder(g, key) {
      CycleHasNoKeys(g, key, 0, 1, 2);
    }
  }

  // ---------------------------------------------------------------------------
  // The three graphs
  // ---------------------------------------------------------------------------

  /** Arcs created head by head, each leading upwards: the order of creation will do. */
  lemma HeadByHead(g: Graph)
    requires Upward(g.arcs) && forall a, b :: 0 <= a < b < |g.arcs| ==> g.arcs[a].head <= g.arcs[b].head
    ensures exists key :: KeyOrder(g, key)
  {
    var key: seq<nat> := seq(|g.arcs|, i => i);
    forall a, b | 0 <= a < |key| && 0 <= b < |key| && Follows(g.arcs, a, b) ensures key[a] < key[b] {
      assert g.arcs[b].tail < g.arcs[b].head;
    }
    assert KeyOrder(g, key);
  }

  lemma ShShaped(g: Graph, d: nat)
    requires d >= 1 && IsSh(g, d)
    ensures Shaped(g) && DeadlockFree(NetOf(g))
  {
    var n := Pow2(d);
    TimesMonotone(1, d, n);
    assert Times(1, n) == n;
    ShUpward(d, d);
    forall a | 0 <= a < |g.arcs| ensures g.arcs[a].head == n + a / 2 {
      ShHead(n, d, a);
    }
    forall a | 0 <= a < |g.arcs| ensures ArcOk(g, g.arcs[a]) {
      assert g.arcs[a].tail < g.arcs[a].head;
    }
    forall x | 0 <= x < |g.kinds| && g.kinds[x].Comparator? ensures InArcs(g.arcs, x) != [] {
      assert g.arcs[2 * (x - n)].head == x;
      assert 2 * (x - n) in InArcs(g.arcs, x);
    }
    HeadByHead(g);
    DeadlockFreeIffKeyOrder(g);
  }

  lemma BhShaped(g: Graph, n: nat)
    requires n >= 1 && IsBh(g, n)
    ensures Shaped(g) && DeadlockFree(NetOf(g))
  {
    hide TreeHeads;
    BhUpward(n);
    forall a | 0 <= a < |g.arcs| ensures ArcOk(g, g.arcs[a]) {
      HeadRange(n, 0, a);
    }
    forall x | 0 <= x < |g.kinds| && g.kinds[x].Comparator? ensures InArcs(g.arcs, x) != [] {
      var k := HeadsCover(n, 0, x);
      assert k in InArcs(g.arcs, x);
    }
    forall a, b | 0 <= a < b < |g.arcs| ensures g.arcs[a].head <= g.arcs[b].head {
      HeadsMonotone(n, 0, a, b);
    }
    HeadByHead(g);
    DeadlockFreeIffKeyOrder(g);
  }

  /** At most one arc into each node: order the arcs by their tails. */
  lemma TailByTail(g: Graph)
    requires Upward(g.arcs)
    requires forall a, b :: 0 <= a < b < |g.arcs| ==> g.arcs[a].head != g.arcs[b].head
    ensures exists key :: KeyOrder(g, key)
  {
    var n := |g.arcs|;
    var key := seq(n, i requires 0 <= i < n => Times(g.arcs[i].tail, n) + i);
    forall a, b | 0 <= a < |key| && 0 <= b < |key| && Follows(g.arcs, a, b) ensures key[a] < key[b] {
      assert g.arcs[a].tail < g.arcs[a].head;
      if g.arcs[a].head == g.arcs[b].tail {
        TimesMonotone(g.arcs[a].tail + 1, g.arcs[b].tail, n);
      }
    }
    assert KeyOrder(g, key);
  }

  lemma WhShaped(g: Graph, n: nat)
    requires n >= 1 && IsWh(g, n)
    ensures Shaped(g) && DeadlockFree(NetOf(g))
  {
    hide TreeHeads;
    var m := |g.kinds|;
    WhUpward(n);
    BhInside(n);
    forall a | 0 <= a < |g.arcs| ensures ArcOk(g, g.arcs[a]) && g.arcs[a].head == m - 1 - a {
      HeadRange(n, 0, a);
    }
    forall x | 0 <= x < |g.kinds| && g.kinds[x].Comparator? ensures InArcs(g.arcs, x) != [] {
      assert g.arcs[m - 1 - x].head == x;
      assert m - 1 - x in InArcs(g.arcs, x);
    }
    TailByTail(g);
    DeadlockFreeIffKeyOrder(g);
  }

  /**
   * On a graph free of deadlock every run, wherever it stands, goes on to a complete one, and a
   * complete run passes each arc's two messages and each sink's checksum exactly once.
   */
  lemma ExchangeCompletes(g: Graph, run: seq<Msg>) returns (full: seq<Msg>)
    requires Shaped(g) && DeadlockFree(NetOf(g)) && IsRun(NetOf(g), run)
    ensures IsRun(NetOf(g), full) && Final(NetOf(g), full) && run <= full
    ensures forall m :: m in full <==> IsMsg(g, m)
    ensures forall i, j :: 0 <= i < j < |full| ==> full[i] != full[j]
  {
    NetWellFormed(g);
    full := RunToEnd(NetOf(g), run);
    DeliveredOnce(NetOf(g), full);
    RunConsistent(NetOf(g), full);
  }
}
