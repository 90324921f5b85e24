/**
 * Ranks that exchange messages with fully synchronous sends (section 3.4 of the MPI standard): a
 * message passes when it is next in the fixed lists of both ends.
 */
module Rendezvous {
  /** Every rank's list of communications, and each message's two ends. */
  datatype Net<!M> = Net(progs: seq<seq<M>>, sender: map<M, nat>, receiver: map<M, nat>)

  /** How far each rank has come. */
  type Pcs = seq<nat>

  predicate Ends<M(==)>(net: Net<M>, r: nat, m: M) {
    m in net.sender && m in net.receiver && (net.sender[m] == r || net.receiver[m] == r)
  }

  /** Each message occurs once in the lists of its two ends and nowhere else. */
  ghost predicate WellFormed<M>(net: Net<M>) {
    && net.sender.Keys == net.receiver.Keys
    && (forall m :: m in net.sender ==>
          && net.sender[m] != net.receiver[m]
          && net.sender[m] < |net.progs| && m in net.progs[net.sender[m]]
          && net.receiver[m] < |net.progs| && m in net.progs[net.receiver[m]])
    && (forall r, i :: 0 <= r < |net.progs| && 0 <= i < |net.progs[r]| ==> Ends(net, r, net.progs[r][i]))
    && (forall r, i, j :: 0 <= r < |net.progs| && 0 <= i < j < |net.progs[r]| ==> net.progs[r][i] != net.progs[r][j])
  }

  predicate NextIs<M(==)>(net: Net<M>, pcs: Pcs, r: nat, m: M) {
    r < |net.progs| && r < |pcs| && pcs[r] < |net.progs[r]| && net.progs[r][pcs[r]] == m
  }

  predicate Enabled<M(==)>(net: Net<M>, pcs: Pcs, m: M) {
    && m in net.sender && m in net.receiver
    && NextIs(net, pcs, net.sender[m], m) && NextIs(net, pcs, net.receiver[m], m)
  }

  function Fire<M(==)>(net: Net<M>, pcs: Pcs, m: M): (p: Pcs)
    ensures |p| == |pcs|
  {
    seq(|pcs|, r requires 0 <= r < |pcs| => if Ends(net, r, m) then pcs[r] + 1 else pcs[r])
  }

  /** The state after the messages of a run have passed, in order. */
  function After<M(==)>(net: Net<M>, run: seq<M>): (p: Pcs)
    ensures |p| == |net.progs|
  {
    if run == [] then seq(|net.progs|, _ => 0)
    else Fire(net, After(net, run[..|run| - 1]), run[|run| - 1])
  }

  predicate IsRun<M(==)>(net: Net<M>, run: seq<M>) {
    run == [] ||
    (IsRun(net, run[..|run| - 1]) && Enabled(net, After(net, run[..|run| - 1]), run[|run| - 1]))
  }

  /** Every rank has reached the end of its list. */
  predicate Final<M(==)>(net: Net<M>, run: seq<M>) {
    forall r :: 0 <= r < |net.progs| ==> After(net, run)[r] == |net.progs[r]|
  }

  ghost predicate Stuck<M>(net: Net<M>, run: seq<M>) {
    forall m :: m in net.sender ==> !Enabled(net, After(net, run), m)
  }

  /** No reachable state is stuck before the end. */
  ghost predicate DeadlockFree<M(!new)>(net: Net<M>) {
    forall run :: IsRun(net, run) && Stuck(net, run) ==> Final(net, run)
  }

  ghost predicate Completes<M(!new)>(net: Net<M>) {
    exists run :: IsRun(net, run) && Final(net, run)
  }

  predicate Before<M(==)>(rank: map<M, nat>, a: M, b: M) {
    a in rank && b in rank ==> rank[a] < rank[b]
  }

  /** A global order of the messages that every rank's list follows. */
  ghost predicate Ordered<M>(net: Net<M>, rank: map<M, nat>) {
    && net.sender.Keys <= rank.Keys
    && forall r, i, j :: 0 <= r < |net.progs| && 0 <= i < j < |net.progs[r]| ==>
          Before(rank, net.progs[r][i], net.progs[r][j])
  }

  // ---------------------------------------------------------------------------
  // What every run keeps
  // ---------------------------------------------------------------------------

  /** Each rank has passed a prefix of its list, and exactly the messages of the run. */
  ghost predicate Consistent<M>(net: Net<M>, run: seq<M>) {
    && (forall r :: 0 <= r < |net.progs| ==> After(net, run)[r] <= |net.progs[r]|)
    && (forall r, i :: 0 <= r < |net.progs| && 0 <= i < |net.progs[r]| ==>
          (i < After(net, run)[r] <==> net.progs[r][i] in run))
    && (forall m :: m in run ==> m in net.sender)
    && (forall i, j :: 0 <= i < j < |run| ==> run[i] != run[j])
  }

  /** The two ends of an enabled message move on by one, the others stay. */
  lemma StepAt<M>(net: Net<M>, run: seq<M>, m: M, r: nat)
    requires WellFormed(net) && Consistent(net, run) && Enabled(net, After(net, run), m) && r < |net.progs|
    ensures var p := After(net, run)[r];
      && After(net, run + [m])[r] == (if Ends(net, r, m) then p + 1 else p)
      && (if Ends(net, r, m) then p < |net.progs[r]| && net.progs[r][p] == m else m !in net.progs[r])
  {
    var next := run + [m];
    assert next[..|run|] == run;
    assert After(net, next) == Fire(net, After(net, run), m);
  }

  lemma NotYetPassed<M>(net: Net<M>, run: seq<M>, m: M)
    requires WellFormed(net) && Consistent(net, run) && Enabled(net, After(net, run), m)
    ensures m !in run && m in net.sender
  {
    hide After;
    var s := net.sender[m];
    assert net.progs[s][After(net, run)[s]] == m;
  }

  lemma ConsistentStep<M>(net: Net<M>, run: seq<M>, m: M)
    requires WellFormed(net) && Consistent(net, run) && Enabled(net, After(net, run), m)
    ensures Consistent(net, run + [m])
  {
    hide After; hide Enabled; hide WellFormed; hide Ends;
    var next := run + [m];
    NotYetPassed(net, run, m);
    forall r | 0 <= r < |net.progs|
      ensures After(net, next)[r] <= |net.progs[r]|
      ensures forall i :: 0 <= i < |net.progs[r]| ==> (i < After(net, next)[r] <==> net.progs[r][i] in next)
    {
      StepAt(net, run, m, r);
      NoRepeats(net, r);
    }
  }

  lemma NoRepeats<M>(net: Net<M>, r: nat)
    requires WellFormed(net) && r < |net.progs|
    ensures forall i, j :: 0 <= i < j < |net.progs[r]| ==> net.progs[r][i] != net.progs[r][j]
  {
  }

  lemma {:induction false} RunConsistent<M>(net: Net<M>, run: seq<M>)
    requires WellFormed(net) && IsRun(net, run)
    ensures Consistent(net, run)
  {
    if run != [] {
      var front := run[..|run| - 1];
      RunConsistent(net, front);
      ConsistentStep(net, front, run[|run| - 1]);
      assert front + [run[|run| - 1]] == run;
    }
  }

  /** A complete run passes every message exactly once. */
  lemma DeliveredOnce<M>(net: Net<M>, run: seq<M>)
    requires WellFormed(net) && IsRun(net, run) && Final(net, run)
    ensures forall m :: m in net.sender <==> m in run
    ensures forall i, j :: 0 <= i < j < |run| ==> run[i] != run[j]
  {
    RunConsistent(net, run);
    forall m | m in net.sender ensures m in run {
      var s := net.sender[m];
      var i :| 0 <= i < |net.progs[s]| && net.progs[s][i] == m;
    }
  }

  // ---------------------------------------------------------------------------
  // An order excludes deadlock
  // ---------------------------------------------------------------------------

  lemma {:induction false} Least<M>(s: set<M>, rank: map<M, nat>) returns (m: M)
    requires s != {} && s <= rank.Keys
    ensures m in s && forall x :: x in s ==> rank[m] <= rank[x]
    decreases |s|
  {
    m :| m in s;
    if s != {m} {
      var x := Least(s - {m}, rank);
      if rank[x] < rank[m] { m := x; }
    }
  }

  ghost function PendingSet<M>(net: Net<M>, run: seq<M>): set<M> {
    set m | m in net.sender && m !in run
  }

  /** A message still to pass is next in its rank's list, or a lesser one is still to pass. */
  lemma NextOrLesser<M>(net: Net<M>, rank: map<M, nat>, run: seq<M>, m: M, r: nat)
    requires WellFormed(net) && Consistent(net, run) && Ordered(net, rank)
    requires m in PendingSet(net, run) && Ends(net, r, m)
    ensures NextIs(net, After(net, run), r, m) || exists x :: x in PendingSet(net, run) && rank[x] < rank[m]
  {
    hide After; hide IsRun;
    var i :| 0 <= i < |net.progs[r]| && net.progs[r][i] == m;
    var pc := After(net, run)[r];
    assert pc <= i;
    if pc < i {
      var x := net.progs[r][pc];
      assert Ends(net, r, x) && x !in run;
      assert Before(rank, x, m);
    }
  }

  /** A reachable state is final, or the least message still to pass can pass. */
  lemma Progress<M>(net: Net<M>, rank: map<M, nat>, run: seq<M>)
    requires WellFormed(net) && IsRun(net, run) && Ordered(net, rank)
    ensures Final(net, run) || !Stuck(net, run)
  {
    RunConsistent(net, run);
    if !Final(net, run) {
      var r :| 0 <= r < |net.progs| && After(net, run)[r] != |net.progs[r]|;
      var m0 := net.progs[r][After(net, run)[r]];
      assert Ends(net, r, m0);
      assert m0 in PendingSet(net, run);
      var m := Least(PendingSet(net, run), rank);
      assert m in net.receiver;
      NextOrLesser(net, rank, run, m, net.sender[m]);
      NextOrLesser(net, rank, run, m, net.receiver[m]);
      assert Enabled(net, After(net, run), m);
    }
  }

  lemma OrderedIsDeadlockFree<M(!new)>(net: Net<M>, rank: map<M, nat>)
    requires WellFormed(net) && Ordered(net, rank)
    ensures DeadlockFree(net)
  {
    forall run | IsRun(net, run) && Stuck(net, run) ensures Final(net, run) {
      Progress(net, rank, run);
    }
  }

  // ---------------------------------------------------------------------------
  // Without deadlock every run can be completed
  // ---------------------------------------------------------------------------

  lemma ExtendRun<M>(net: Net<M>, run: seq<M>, m: M)
    requires WellFormed(net) && Consistent(net, run) && IsRun(net, run) && Enabled(net, After(net, run), m)
    ensures IsRun(net, run + [m]) && |PendingSet(net, run + [m])| < |PendingSet(net, run)|
  {
    hide After; hide WellFormed;
    var next := run + [m];
    assert next[..|run|] == run;
    assert m !in run by {
      var s := net.sender[m];
      assert net.progs[s][After(net, run)[s]] == m;
    }
    assert PendingSet(net, run) == PendingSet(net, next) + {m};
  }

  /** Any run, however far it has come, extends to a complete one. */
  lemma {:induction false} RunToEnd<M(!new)>(net: Net<M>, run: seq<M>) returns (full: seq<M>)
    requires WellFormed(net) && DeadlockFree(net) && IsRun(net, run)
    ensures IsRun(net, full) && Final(net, full) && run <= full
    decreases |PendingSet(net, run)|
  {
    hide WellFormed; hide IsRun; hide After; hide Enabled; hide PendingSet; hide Consistent;
    RunConsistent(net, run);
    if Final(net, run) {
      full := run;
    } else {
      var m :| m in net.sender && Enabled(net, After(net, run), m);
      ExtendRun(net, run, m);
      full := RunToEnd(net, run + [m]);
    }
  }

  // ---------------------------------------------------------------------------
  // A complete run is an order
  // ---------------------------------------------------------------------------

  function IndexIn<M(==)>(run: seq<M>, m: M): (i: nat)
    requires m in run
    ensures i < |run| && run[i] == m
  {
    if run[0] == m then 0 else 1 + IndexIn(run[1..], m)
  }

  lemma {:induction false} PrefixIsRun<M>(net: Net<M>, run: seq<M>, k: nat)
    requires IsRun(net, run) && k <= |run|
    ensures IsRun(net, run[..k])
  {
    if k < |run| {
      PrefixIsRun(net, run[..|run| - 1], k);
      assert run[..|run| - 1][..k] == run[..k];
    } else {
      assert run[..k] == run;
    }
  }

  /** Messages pass in the order of each rank's list. */
  lemma RunFollowsList<M>(net: Net<M>, run: seq<M>, r: nat, i: nat, j: nat)
    requires WellFormed(net) && IsRun(net, run) && r < |net.progs| && i < j < |net.progs[r]|
    requires net.progs[r][i] in run && net.progs[r][j] in run
    ensures IndexIn(run, net.progs[r][i]) < IndexIn(run, net.progs[r][j])
  {
    hide After; hide IsRun; hide Ends; hide IndexIn;
    RunConsistent(net, run);
    var b := IndexIn(run, net.progs[r][j]);
    PrefixIsRun(net, run, b + 1);
    RunConsistent(net, run[..b + 1]);
    assert run[..b + 1][b] == net.progs[r][j];
    var a :| 0 <= a < b + 1 && run[..b + 1][a] == net.progs[r][i];
    assert run[a] == run[IndexIn(run, net.progs[r][i])];
  }

  lemma CompleteRunIsOrder<M(!new)>(net: Net<M>, run: seq<M>)
    requires WellFormed(net) && IsRun(net, run) && Final(net, run)
    ensures exists rank :: Ordered(net, rank)
  {
    DeliveredOnce(net, run);
    var rank := map m | m in net.sender :: IndexIn(run, m);
    forall r, i, j | 0 <= r < |net.progs| && 0 <= i < j < |net.progs[r]|
      ensures Before(rank, net.progs[r][i], net.progs[r][j])
    {
      assert Ends(net, r, net.progs[r][i]) && Ends(net, r, net.progs[r][j]);
      RunFollowsList(net, run, r, i, j);
    }
    assert Ordered(net, rank);
  }

  /**
   * The three are one: a global order of the messages exists, some run completes, and no run
   * can ever get stuck.
   */
  lemma DeadlockFreeIffOrdered<M(!new)>(net: Net<M>)
    requires WellFormed(net)
    ensures DeadlockFree(net) <==> exists rank :: Ordered(net, rank)
    ensures DeadlockFree(net) <==> Completes(net)
  {
    if DeadlockFree(net) {
      var full := RunToEnd(net, []);
      assert Completes(net);
    }
    if Completes(net) {
      var run :| IsRun(net, run) && Final(net, run);
      CompleteRunIsOrder(net, run);
    }
    if exists rank :: Ordered(net, rank) {
      var rank :| Ordered(net, rank);
      OrderedIsDeadlockFree(net, rank);
    }
  }

  // ---------------------------------------------------------------------------
  // Values do not depend on the run
  // ---------------------------------------------------------------------------

  /** What each rank computes: from its state a payload, from a received payload a state. */
  datatype Code<!M, !L, !P> = Code(init: nat -> L, payload: (nat, L, M) -> P, receive: (nat, L, M, P) -> L)

  /** Rank r's state after a run. */
  function Local<M(==), L, P>(net: Net<M>, code: Code<M, L, P>, run: seq<M>, r: nat): L {
    if run == [] then code.init(r)
    else
      var front, m := run[..|run| - 1], run[|run| - 1];
      var before := Local(net, code, front, r);
      if m in net.sender && m in net.receiver && net.receiver[m] == r then
        code.receive(r, before, m, code.payload(net.sender[m], Local(net, code, front, net.sender[m]), m))
      else before
  }

  lemma LastFired<M>(net: Net<M>, run: seq<M>, r: nat)
    requires WellFormed(net) && IsRun(net, run) && run != [] && r < |net.progs|
    ensures var front, m := run[..|run| - 1], run[|run| - 1];
      && IsRun(net, front) && m in net.sender && m in net.receiver
      && (!Ends(net, r, m) ==> After(net, run)[r] == After(net, front)[r])
      && (Ends(net, r, m) ==>
            After(net, run)[r] == After(net, front)[r] + 1 && NextIs(net, After(net, front), r, m))
  {
  }

  /** Two runs that took a rank equally far left it in the same state. */
  lemma {:induction false} SameValues<M, L, P>(net: Net<M>, code: Code<M, L, P>, u: seq<M>, v: seq<M>, r: nat)
    requires WellFormed(net) && IsRun(net, u) && IsRun(net, v) && r < |net.progs|
    requires After(net, u)[r] == After(net, v)[r]
    ensures Local(net, code, u, r) == Local(net, code, v, r)
    decreases |u| + |v|
  {
    if u != [] { LastFired(net, u, r); }
    if v != [] { LastFired(net, v, r); }
    if u != [] && !Ends(net, r, u[|u| - 1]) {
      SameValues(net, code, u[..|u| - 1], v, r);
    } else if v != [] && !Ends(net, r, v[|v| - 1]) {
      SameValues(net, code, u, v[..|v| - 1], r);
    } else if u != [] && v != [] {
      var u', v', m := u[..|u| - 1], v[..|v| - 1], u[|u| - 1];
      assert v[|v| - 1] == m;
      SameValues(net, code, u', v', r);
      var s := net.sender[m];
      LastFired(net, u, s);
      LastFired(net, v, s);
      BothNext(net, After(net, u'), After(net, v'), s, m);
      SameValues(net, code, u', v', s);
    }
  }

  lemma BothNext<M>(net: Net<M>, p: Pcs, q: Pcs, r: nat, m: M)
    requires WellFormed(net) && NextIs(net, p, r, m) && NextIs(net, q, r, m)
    ensures p[r] == q[r]
  {
  }

  /** All complete runs compute the same values on every rank. */
  lemma ValuesDetermined<M, L, P>(net: Net<M>, code: Code<M, L, P>, u: seq<M>, v: seq<M>, r: nat)
    requires WellFormed(net) && r < |net.progs|
    requires IsRun(net, u) && Final(net, u) && IsRun(net, v) && Final(net, v)
    ensures Local(net, code, u, r) == Local(net, code, v, r)
  {
    SameValues(net, code, u, v, r);
  }
}
