/**
 * The load balancing loops of thread_strategy.hpp, for CPUs and nodes alike: move the task
 * closest to the difference from the fullest place to the emptiest.
 */
module LoadBalance {
  // Loads are non-negative reals, every task counts, and a migration succeeds and changes the
  // task's current and pinned place together.

  // ---------------------------------------------------------------------------
  // Loads of places
  // ---------------------------------------------------------------------------

  /** The load of place c when task i is at place[i]. */
  function Load(loads: seq<real>, place: seq<nat>, c: nat): real
    requires |loads| == |place|
  {
    if loads == [] then 0.0
    else
      var n := |loads| - 1;
      Load(loads[..n], place[..n], c) + (if place[n] == c then loads[n] else 0.0)
  }

  function LoadMap(loads: seq<real>, place: seq<nat>, n: nat): (m: seq<real>)
    requires |loads| == |place|
    ensures |m| == n && forall c :: 0 <= c < n ==> m[c] == Load(loads, place, c)
  {
    seq(n, c requires 0 <= c => Load(loads, place, c))
  }

  function Total(loads: seq<real>): real {
    if loads == [] then 0.0 else Total(loads[..|loads| - 1]) + loads[|loads| - 1]
  }

  ghost predicate NonNegative(loads: seq<real>) {
    forall i :: 0 <= i < |loads| ==> loads[i] >= 0.0
  }

  ghost predicate PlacesOk(place: seq<nat>, n: nat) {
    forall i :: 0 <= i < |place| ==> place[i] < n
  }

  lemma {:induction false} LoadMove(loads: seq<real>, place: seq<nat>, i: nat, d: nat, c: nat)
    requires |loads| == |place| && i < |place|
    ensures Load(loads, place[i := d], c) ==
      Load(loads, place, c) - (if place[i] == c then loads[i] else 0.0) + (if d == c then loads[i] else 0.0)
  {
    var n := |loads| - 1;
    if i < n {
      LoadMove(loads[..n], place[..n], i, d, c);
      assert place[i := d][..n] == place[..n][i := d];
    } else {
      assert place[i := d][..n] == place[..n];
    }
  }

  /** A place with a positive load has a task. */
  lemma {:induction false} TaskThere(loads: seq<real>, place: seq<nat>, c: nat) returns (i: nat)
    requires |loads| == |place| && NonNegative(loads) && Load(loads, place, c) > 0.0
    ensures i < |loads| && place[i] == c
  {
    var n := |loads| - 1;
    if place[n] == c {
      i := n;
    } else {
      i := TaskThere(loads[..n], place[..n], c);
    }
  }

  lemma {:induction false} LoadRange(loads: seq<real>, place: seq<nat>, c: nat)
    requires |loads| == |place| && NonNegative(loads)
    ensures 0.0 <= Load(loads, place, c) <= Total(loads)
    ensures forall i :: 0 <= i < |loads| && place[i] == c ==> loads[i] <= Load(loads, place, c)
  {
    if loads != [] {
      var n := |loads| - 1;
      LoadRange(loads[..n], place[..n], c);
      assert forall i :: 0 <= i < n ==> loads[..n][i] == loads[i] && place[..n][i] == place[i];
    }
  }

  /** The loads of all places add up to the loads of all tasks. */
  lemma {:induction false} LoadsAddUp(loads: seq<real>, place: seq<nat>, n: nat)
    requires |loads| == |place| && PlacesOk(place, n)
    ensures Sum(LoadMap(loads, place, n), n) == Total(loads)
  {
    if loads == [] {
      NoLoads(place, n, n);
    } else {
      var k := |loads| - 1;
      LoadsAddUp(loads[..k], place[..k], n);
      var m := LoadMap(loads[..k], place[..k], n);
      UpdateSums(m, place[k], m[place[k]] + loads[k], n);
      assert LoadMap(loads, place, n) == m[place[k] := m[place[k]] + loads[k]];
    }
  }

  lemma {:induction false} NoLoads(place: seq<nat>, n: nat, c: nat)
    requires place == [] && c <= n
    ensures Sum(LoadMap([], place, n), c) == 0.0
  {
    if c > 0 { NoLoads(place, n, c - 1); }
  }

  // ---------------------------------------------------------------------------
  // The potential
  // ---------------------------------------------------------------------------

  function Product(x: real, y: real): real {
    x * y
  }

  function Square(x: real): real {
    x * x
  }

  /** The sum of the first n squares. */
  function Squares(m: seq<real>, n: nat): real
    requires n <= |m|
  {
    if n == 0 then 0.0 else Squares(m, n - 1) + Square(m[n - 1])
  }

  function Sum(m: seq<real>, n: nat): real
    requires n <= |m|
  {
    if n == 0 then 0.0 else Sum(m, n - 1) + m[n - 1]
  }

  lemma {:induction false} UpdateSums(m: seq<real>, a: nat, x: real, n: nat)
    requires a < |m| && n <= |m|
    ensures Squares(m[a := x], n) == Squares(m, n) + (if a < n then Square(x) - Square(m[a]) else 0.0)
    ensures Sum(m[a := x], n) == Sum(m, n) + (if a < n then x - m[a] else 0.0)
  {
    hide Square;
    if n > 0 { UpdateSums(m, a, x, n - 1); }
  }

  lemma SquareOfDifference(x: real, y: real)
    ensures Square(x - y) == Square(x) - 2.0 * Product(x, y) + Square(y)
  {
  }

  lemma SquareOfSum(x: real, y: real)
    ensures Square(x + y) == Square(x) + 2.0 * Product(x, y) + Square(y)
  {
  }

  lemma PositiveProduct(x: real, y: real)
    requires x > 0.0 && y > 0.0
    ensures Product(x, y) > 0.0
  {
  }

  lemma Factor(l: real, hi: real, lo: real)
    ensures Product(hi - lo - l, l) == Product(hi, l) - Product(lo, l) - Square(l)
  {
  }

  /** Moving less than the difference from a larger to a smaller load lowers the squares. */
  lemma MoveLowers(hi: real, lo: real, l: real)
    requires 0.0 < l < hi - lo
    ensures Square(hi - l) + Square(lo + l) < Square(hi) + Square(lo)
  {
    hide Square; hide Product;
    SquareOfDifference(hi, l);
    SquareOfSum(lo, l);
    Factor(l, hi, lo);
    PositiveProduct(hi - lo - l, l);
  }

  /** The test before a move, in terms of the task's load. */
  lemma ImprovesIff(hi: real, lo: real, l: real)
    requires hi >= lo
    ensures Abs((hi - l) - (lo + l)) < hi - lo <==> 0.0 < l < hi - lo
  {
  }

  function Abs(x: real): real {
    if x < 0.0 then -x else x
  }

  ghost function Potential(loads: seq<real>, place: seq<nat>, n: nat): real
    requires |loads| == |place|
  {
    Squares(LoadMap(loads, place, n), n)
  }

  /** A move changes two loads, keeps their sum and lowers the potential. */
  lemma MoveEffect(loads: seq<real>, place: seq<nat>, n: nat, i: nat, d: nat)
    requires |loads| == |place| && i < |place| && place[i] < n && d < n
    requires 0.0 < loads[i] < Load(loads, place, place[i]) - Load(loads, place, d)
    ensures Potential(loads, place[i := d], n) < Potential(loads, place, n)
    ensures Sum(LoadMap(loads, place[i := d], n), n) == Sum(LoadMap(loads, place, n), n)
  {
    hide Square; hide Squares; hide Sum; hide Load;
    var m, s, l := LoadMap(loads, place, n), place[i], loads[i];
    var hi, lo := m[s], m[d];
    var m1 := m[s := hi - l];
    var m2 := m1[d := lo + l];
    assert s != d && m1[d] == lo;
    forall c: nat | c < n ensures Load(loads, place[i := d], c) == m2[c] {
      LoadMove(loads, place, i, d, c);
    }
    assert LoadMap(loads, place[i := d], n) == m2;
    UpdateSums(m, s, hi - l, n);
    UpdateSums(m1, d, lo + l, n);
    MoveLowers(hi, lo, l);
  }

  // ---------------------------------------------------------------------------
  // Finitely many placements
  // ---------------------------------------------------------------------------

  /** All placements of k tasks on n places. */
  ghost function Placements(k: nat, n: nat): set<seq<nat>> {
    if k == 0 then {[]}
    else set p: seq<nat>, c: nat | p in Placements(k - 1, n) && c < n :: p + [c]
  }

  lemma {:induction false} EveryPlacement(place: seq<nat>, n: nat)
    requires PlacesOk(place, n)
    ensures place in Placements(|place|, n)
  {
    if place != [] {
      var k := |place| - 1;
      EveryPlacement(place[..k], n);
      assert place == place[..k] + [place[k]];
    }
  }

  /** The placements with a lower potential than v. */
  ghost function Lower(loads: seq<real>, n: nat, v: real): set<seq<nat>> {
    set p | p in Placements(|loads|, n) && |p| == |loads| && Potential(loads, p, n) < v
  }

  /** How many better placements there are: the loop's variant. */
  ghost function Better(loads: seq<real>, place: seq<nat>, n: nat): nat
    requires |loads| == |place|
  {
    |Lower(loads, n, Potential(loads, place, n))|
  }

  lemma BetterFalls(loads: seq<real>, place: seq<nat>, place1: seq<nat>, n: nat)
    requires |loads| == |place| == |place1| && PlacesOk(place1, n)
    requires Potential(loads, place1, n) < Potential(loads, place, n)
    ensures Better(loads, place1, n) < Better(loads, place, n)
  {
    hide Potential;
    EveryPlacement(place1, n);
    var before, after := Lower(loads, n, Potential(loads, place, n)), Lower(loads, n, Potential(loads, place1, n));
    assert place1 in before && place1 !in after;
    assert after <= before;
    Smaller(after, before, place1);
  }

  lemma Smaller(a: set<seq<nat>>, b: set<seq<nat>>, x: seq<nat>)
    requires a <= b && x in b && x !in a
    ensures |a| < |b|
  {
    var rest := b - {x};
    assert b == rest + {x};
    assert a <= rest;
    Subset(a, rest);
  }

  lemma {:induction false} Subset(a: set<seq<nat>>, b: set<seq<nat>>)
    requires a <= b
    ensures |a| <= |b|
    decreases |a|
  {
    if a != {} {
      var x :| x in a;
      assert a == (a - {x}) + {x} && b == (b - {x}) + {x};
      Subset(a - {x}, b - {x});
    }
  }

  // ---------------------------------------------------------------------------
  // The loops
  // ---------------------------------------------------------------------------

  /** load_per_cpu and load_per_node: one pass over the tasks. */
  method LoadPerPlace(loads: seq<real>, place: seq<nat>, n: nat) returns (m: seq<real>)
    requires |loads| == |place| && PlacesOk(place, n)
    ensures m == LoadMap(loads, place, n)
  {
    m := seq(n, _ => 0.0);
    var i := 0;
    assert loads[..0] == [];
    while i < |loads|
      invariant 0 <= i <= |loads| && |m| == n
      invariant forall c :: 0 <= c < n ==> m[c] == Load(loads[..i], place[..i], c)
    {
      assert loads[..i + 1][..i] == loads[..i] && place[..i + 1][..i] == place[..i];
      m := m[place[i] := m[place[i]] + loads[i]];
      i := i + 1;
    }
    assert loads[..|loads|] == loads && place[..|loads|] == place;
  }

  /** load_system */
  method LoadSystem(loads: seq<real>) returns (t: real)
    ensures t == Total(loads)
  {
    t := 0.0;
    var i := 0;
    assert loads[..0] == [];
    while i < |loads|
      invariant 0 <= i <= |loads| && t == Total(loads[..i])
    {
      assert loads[..i + 1][..i] == loads[..i];
      t := t + loads[i];
      i := i + 1;
    }
    assert loads[..|loads|] == loads;
  }

  /** The first fullest place. */
  ghost predicate Fullest(loads: seq<real>, place: seq<nat>, n: nat, hi: nat)
    requires |loads| == |place|
  {
    && hi < n
    && (forall c :: 0 <= c < n ==> Load(loads, place, c) <= Load(loads, place, hi))
    && (forall c :: 0 <= c < hi ==> Load(loads, place, c) < Load(loads, place, hi))
  }

  /** The first emptiest place. */
  ghost predicate Emptiest(loads: seq<real>, place: seq<nat>, n: nat, lo: nat)
    requires |loads| == |place|
  {
    && lo < n
    && (forall c :: 0 <= c < n ==> Load(loads, place, lo) <= Load(loads, place, c))
    && (forall c :: 0 <= c < lo ==> Load(loads, place, lo) < Load(loads, place, c))
  }

  /** max_element and min_element: the first of equals. */
  method Extremes(m: seq<real>) returns (hi: nat, lo: nat)
    requires |m| > 0
    ensures hi < |m| && lo < |m|
    ensures forall c :: 0 <= c < |m| ==> m[lo] <= m[c] <= m[hi]
    ensures forall c :: 0 <= c < hi ==> m[c] < m[hi]
    ensures forall c :: 0 <= c < lo ==> m[lo] < m[c]
  {
    hi, lo := 0, 0;
    var c := 1;
    while c < |m|
      invariant 1 <= c <= |m| && hi < c && lo < c
      invariant forall b :: 0 <= b < c ==> m[lo] <= m[b] <= m[hi]
      invariant forall b :: 0 <= b < hi ==> m[b] < m[hi]
      invariant forall b :: 0 <= b < lo ==> m[lo] < m[b]
    {
      if m[hi] < m[c] { hi := c; }
      if m[c] < m[lo] { lo := c; }
      c := c + 1;
    }
  }

  /** Of the tasks at place c, i is the first whose load is closest to the imbalance. */
  ghost predicate Closest(loads: seq<real>, place: seq<nat>, c: nat, imbalance: real, i: nat)
    requires |loads| == |place|
  {
    && i < |place| && place[i] == c
    && forall j :: 0 <= j < |place| && place[j] == c ==>
      && Abs(loads[i] - imbalance) <= Abs(loads[j] - imbalance)
      && (j < i ==> Abs(loads[i] - imbalance) < Abs(loads[j] - imbalance))
  }

  /** pid_in_cpu_that_solve_imbalance and pid_in_node_that_solve_imbalance; -1 stands for pid 0. */
  method TaskThatSolvesImbalance(loads: seq<real>, place: seq<nat>, c: nat, imbalance: real, maxReal: real) returns (best: int)
    requires |loads| == |place| && forall i :: 0 <= i < |loads| ==> Abs(loads[i] - imbalance) < maxReal - imbalance
    requires imbalance <= maxReal
    ensures best == -1 <==> forall i :: 0 <= i < |place| ==> place[i] != c
    ensures best != -1 ==> best >= 0 && Closest(loads, place, c, imbalance, best)
  {
    best := -1;
    var best_load := maxReal;
    var i := 0;
    while i < |place|
      invariant 0 <= i <= |place| && -1 <= best < i
      invariant best == -1 <==> forall j :: 0 <= j < i ==> place[j] != c
      invariant best_load == if best == -1 then maxReal else loads[best]
      invariant best != -1 ==> place[best] == c
      invariant forall j :: 0 <= j < i && place[j] == c ==> Abs(best_load - imbalance) <= Abs(loads[j] - imbalance)
      invariant forall j :: 0 <= j < best && place[j] == c ==> Abs(best_load - imbalance) < Abs(loads[j] - imbalance)
    {
      if place[i] == c && Abs(loads[i] - imbalance) < Abs(best_load - imbalance) {
        best, best_load := i, loads[i];
      }
      i := i + 1;
    }
  }

  /** The task chosen from place hi would not help. */
  ghost predicate Unhelpful(loads: seq<real>, place: seq<nat>, hi: nat, imbalance: real)
    requires |loads| == |place|
  {
    exists i: nat :: Closest(loads, place, hi, imbalance, i) && !(0.0 < loads[i] < imbalance)
  }

  /** Where the loop ends: no place is overloaded, or the task chosen would not help. */
  ghost predicate Ended(loads: seq<real>, place: seq<nat>, n: nat, target: real)
    requires |loads| == |place|
  {
    exists hi: nat, lo: nat :: Fullest(loads, place, n, hi) && Emptiest(loads, place, n, lo) &&
      (Load(loads, place, hi) < target || Unhelpful(loads, place, hi, Load(loads, place, hi) - Load(loads, place, lo)))
  }

  /** A migration: task, destination, source. */
  datatype Migration = Migration(task: nat, dst: nat, src: nat)

  /** The move the loop makes: the closest task, from the first fullest to the first emptiest place. */
  ghost predicate Chosen(loads: seq<real>, place: seq<nat>, n: nat, target: real, m: Migration)
    requires |loads| == |place|
  {
    && Fullest(loads, place, n, m.src) && Emptiest(loads, place, n, m.dst) && Load(loads, place, m.src) >= target
    && var imbalance := Load(loads, place, m.src) - Load(loads, place, m.dst);
    Closest(loads, place, m.src, imbalance, m.task) && 0.0 < loads[m.task] < imbalance
  }

  lemma ExtremesUnique(loads: seq<real>, place: seq<nat>, n: nat, hi: nat, lo: nat, hi1: nat, lo1: nat)
    requires |loads| == |place|
    requires Fullest(loads, place, n, hi) && Emptiest(loads, place, n, lo)
    requires Fullest(loads, place, n, hi1) && Emptiest(loads, place, n, lo1)
    ensures hi == hi1 && lo == lo1
  {
    hide Load;
    assert Load(loads, place, hi) == Load(loads, place, hi1) && Load(loads, place, lo) == Load(loads, place, lo1);
  }

  lemma ClosestUnique(loads: seq<real>, place: seq<nat>, c: nat, imbalance: real, i: nat, j: nat)
    requires |loads| == |place| && Closest(loads, place, c, imbalance, i) && Closest(loads, place, c, imbalance, j)
    ensures i == j
  {
    hide Abs;
  }

  /** The end of the loop in terms of the extremes. */
  lemma EndedAt(loads: seq<real>, place: seq<nat>, n: nat, target: real, hi: nat, lo: nat)
    requires |loads| == |place| && Fullest(loads, place, n, hi) && Emptiest(loads, place, n, lo)
    ensures Ended(loads, place, n, target) <==>
      (Load(loads, place, hi) < target || Unhelpful(loads, place, hi, Load(loads, place, hi) - Load(loads, place, lo)))
  {
    hide Load; hide Fullest; hide Emptiest; hide Unhelpful;
    if Ended(loads, place, n, target) {
      var hi1: nat, lo1: nat :| Fullest(loads, place, n, hi1) && Emptiest(loads, place, n, lo1) &&
        (Load(loads, place, hi1) < target || Unhelpful(loads, place, hi1, Load(loads, place, hi1) - Load(loads, place, lo1)));
      ExtremesUnique(loads, place, n, hi, lo, hi1, lo1);
    }
  }

  lemma UnhelpfulAt(loads: seq<real>, place: seq<nat>, hi: nat, imbalance: real, i: nat)
    requires |loads| == |place| && Closest(loads, place, hi, imbalance, i)
    ensures Unhelpful(loads, place, hi, imbalance) <==> !(0.0 < loads[i] < imbalance)
  {
    hide Abs;
    if Unhelpful(loads, place, hi, imbalance) {
      var j: nat :| Closest(loads, place, hi, imbalance, j) && !(0.0 < loads[j] < imbalance);
      ClosestUnique(loads, place, hi, imbalance, i, j);
    }
  }

  /** Where a move is made, the loop does not end. */
  lemma ChosenGoesOn(loads: seq<real>, place: seq<nat>, n: nat, target: real, m: Migration)
    requires |loads| == |place| && Chosen(loads, place, n, target, m)
    ensures !Ended(loads, place, n, target)
  {
    hide Load; hide Closest; hide Ended; hide Unhelpful; hide Fullest; hide Emptiest;
    EndedAt(loads, place, n, target, m.src, m.dst);
    UnhelpfulAt(loads, place, m.src, Load(loads, place, m.src) - Load(loads, place, m.dst), m.task);
  }

  /** One turn of the loop; balanced when nothing is moved. */
  method BalanceStep(loads: seq<real>, place: seq<nat>, n: nat, target: real, maxReal: real)
    returns (balanced: bool, migration: Migration)
    requires |loads| == |place| && NonNegative(loads) && n > 0 && PlacesOk(place, n)
    requires target >= 1.0 && 2.0 * Total(loads) < maxReal
    ensures balanced <==> Ended(loads, place, n, target)
    ensures !balanced ==>
      && Chosen(loads, place, n, target, migration)
      && Potential(loads, place[migration.task := migration.dst], n) < Potential(loads, place, n)
      && Sum(LoadMap(loads, place[migration.task := migration.dst], n), n) == Sum(LoadMap(loads, place, n), n)
  {
    hide Load; hide Total; hide Potential; hide Squares; hide Sum;
    migration := Migration(0, 0, 0);
    var m := LoadPerPlace(loads, place, n);
    var hi, lo := Extremes(m);
    assert Fullest(loads, place, n, hi) && Emptiest(loads, place, n, lo);
    if m[hi] < target {
      return true, migration;
    }
    var imbalance := m[hi] - m[lo];
    LoadRange(loads, place, hi);
    LoadRange(loads, place, lo);
    LoadsBelow(loads, place);
    var pid := TaskThatSolvesImbalance(loads, place, hi, imbalance, maxReal);
    var there := Witness(loads, place, hi);
    var load := loads[pid];
    ImprovesIff(m[hi], m[lo], load);
    if Abs((m[hi] - load) - (m[lo] + load)) < imbalance {
      balanced, migration := false, Migration(pid, lo, hi);
      MoveEffect(loads, place, n, pid, lo);
      ChosenGoesOn(loads, place, n, target, migration);
    } else {
      balanced := true;
      assert Unhelpful(loads, place, hi, imbalance) by { assert Closest(loads, place, hi, imbalance, pid); }
    }
  }

  lemma LoadsBelow(loads: seq<real>, place: seq<nat>)
    requires |loads| == |place| && NonNegative(loads)
    ensures forall i :: 0 <= i < |loads| ==> loads[i] <= Total(loads)
  {
    forall i | 0 <= i < |loads| ensures loads[i] <= Total(loads) {
      LoadRange(loads, place, place[i]);
    }
  }

  lemma Witness(loads: seq<real>, place: seq<nat>, c: nat) returns (i: nat)
    requires |loads| == |place| && NonNegative(loads) && Load(loads, place, c) >= 1.0
    ensures i < |place| && place[i] == c
  {
    i := TaskThere(loads, place, c);
  }

  // ---------------------------------------------------------------------------
  // The whole loop
  // ---------------------------------------------------------------------------

  /** The places after a list of migrations. */
  function Applied(place: seq<nat>, done: seq<Migration>): (p: seq<nat>)
    ensures |p| == |place|
  {
    if done == [] then place
    else
      var p, m := Applied(place, done[..|done| - 1]), done[|done| - 1];
      if m.task < |p| then p[m.task := m.dst] else p
  }

  /** Every migration is the one chosen at the places the earlier ones lead to. */
  ghost predicate IsRun(loads: seq<real>, place: seq<nat>, n: nat, target: real, done: seq<Migration>)
    requires |loads| == |place|
  {
    done == [] ||
    (IsRun(loads, place, n, target, done[..|done| - 1]) &&
     Chosen(loads, Applied(place, done[..|done| - 1]), n, target, done[|done| - 1]))
  }

  lemma RunNext(loads: seq<real>, place: seq<nat>, n: nat, target: real, done: seq<Migration>, m: Migration)
    requires |loads| == |place| && IsRun(loads, place, n, target, done)
    requires Chosen(loads, Applied(place, done), n, target, m)
    ensures IsRun(loads, place, n, target, done + [m])
    ensures m.task < |place| && Applied(place, done + [m]) == Applied(place, done)[m.task := m.dst]
  {
    var next := done + [m];
    assert next[..|next| - 1] == done && next[|next| - 1] == m;
  }

  /** A run from places where the loop ends is empty. */
  lemma {:induction false} NoRunFromEnd(loads: seq<real>, place: seq<nat>, n: nat, target: real, done: seq<Migration>)
    requires |loads| == |place| && IsRun(loads, place, n, target, done) && Ended(loads, place, n, target)
    ensures done == []
  {
    if done != [] {
      var front := done[..|done| - 1];
      NoRunFromEnd(loads, place, n, target, front);
      ChosenGoesOn(loads, place, n, target, done[|done| - 1]);
    }
  }

  /**
   * balance_CPUs_load and balance_nodes_load: the loop ends, the total load is what it was,
   * every migration is the chosen one and lowers the sum of the squared loads.
   */
  method BalanceLoad(loads: seq<real>, place0: seq<nat>, n: nat, num: nat, maxReal: real)
    returns (place: seq<nat>, migrations_done: seq<Migration>)
    requires |loads| == |place0| && NonNegative(loads) && n > 0 && num > 0 && PlacesOk(place0, n)
    requires 2.0 * Total(loads) < maxReal
    ensures place == Applied(place0, migrations_done) && PlacesOk(place, n)
    ensures Sum(LoadMap(loads, place, n), n) == Sum(LoadMap(loads, place0, n), n)
    ensures migrations_done != [] ==> Potential(loads, place, n) < Potential(loads, place0, n)
    ensures var share := Total(loads) / num as real;
      var target := if share < 1.0 then 1.0 else share;
      IsRun(loads, place0, n, target, migrations_done) && Ended(loads, place, n, target)
  {
    hide Load; hide Total; hide Potential; hide Sum; hide Ended; hide Better; hide Chosen; hide Applied; hide IsRun;
    var system_load := LoadSystem(loads);
    var share := system_load / num as real;
    var target_load := if share < 1.0 then 1.0 else share;
    place, migrations_done := place0, [];
    NoMoves(loads, place0, n, target_load);
    var balanced := false;
    while !balanced
      invariant |place| == |loads| && PlacesOk(place, n)
      invariant place == Applied(place0, migrations_done) && IsRun(loads, place0, n, target_load, migrations_done)
      invariant Sum(LoadMap(loads, place, n), n) == Sum(LoadMap(loads, place0, n), n)
      invariant migrations_done == [] ==> place == place0
      invariant migrations_done != [] ==> Potential(loads, place, n) < Potential(loads, place0, n)
      invariant balanced ==> Ended(loads, place, n, target_load)
      decreases Better(loads, place, n), !balanced
    {
      var migration;
      balanced, migration := BalanceStep(loads, place, n, target_load, maxReal);
      if !balanced {
        RunNext(loads, place0, n, target_load, migrations_done, migration);
        ChosenPlace(loads, place, n, target_load, migration);
        BetterFalls(loads, place, place[migration.task := migration.dst], n);
        place := place[migration.task := migration.dst];
        migrations_done := migrations_done + [migration];
      }
    }
  }

  lemma NoMoves(loads: seq<real>, place: seq<nat>, n: nat, target: real)
    requires |loads| == |place|
    ensures Applied(place, []) == place && IsRun(loads, place, n, target, [])
  {
  }

  lemma ChosenPlace(loads: seq<real>, place: seq<nat>, n: nat, target: real, m: Migration)
    requires |loads| == |place| && Chosen(loads, place, n, target, m)
    ensures m.task < |place| && m.dst < n
  {
  }

  // ---------------------------------------------------------------------------
  // When the loop gives up although a move would help
  // ---------------------------------------------------------------------------

  /** Moving some task of place hi would help. */
  ghost predicate Improvable(loads: seq<real>, place: seq<nat>, hi: nat, imbalance: real)
    requires |loads| == |place|
  {
    exists j: nat :: j < |place| && place[j] == hi && 0.0 < loads[j] < imbalance
  }

  lemma TaskThatHelps(loads: seq<real>, place: seq<nat>, hi: nat, imbalance: real) returns (j: nat)
    requires |loads| == |place| && Improvable(loads, place, hi, imbalance)
    ensures j < |place| && place[j] == hi && 0.0 < loads[j] < imbalance
  {
    j :| j < |place| && place[j] == hi && 0.0 < loads[j] < imbalance;
  }

  /** A task at least as large as the imbalance is closer to it than every task that would help. */
  ghost predicate LargeIsCloser(loads: seq<real>, place: seq<nat>, hi: nat, imbalance: real)
    requires |loads| == |place|
  {
    exists k: nat :: k < |place| && place[k] == hi && loads[k] >= imbalance && CloserThanAll(loads, place, hi, imbalance, k)
  }

  ghost predicate CloserThanAll(loads: seq<real>, place: seq<nat>, hi: nat, imbalance: real, k: nat)
    requires |loads| == |place| && k < |place|
  {
    forall j :: 0 <= j < |place| && place[j] == hi && 0.0 < loads[j] < imbalance ==>
      loads[k] - imbalance < imbalance - loads[j] || (loads[k] - imbalance == imbalance - loads[j] && k < j)
  }

  lemma ClosestExists(loads: seq<real>, place: seq<nat>, c: nat, imbalance: real, w: nat) returns (i: nat)
    requires |loads| == |place| && w < |place| && place[w] == c
    ensures Closest(loads, place, c, imbalance, i)
  {
    i := w;
    var k := 0;
    while k < |place|
      invariant 0 <= k <= |place| && i < |place| && place[i] == c && (i < k || i == w)
      invariant forall j :: 0 <= j < k && place[j] == c ==> Abs(loads[i] - imbalance) <= Abs(loads[j] - imbalance)
      invariant forall j :: 0 <= j < k && place[j] == c && j < i ==> Abs(loads[i] - imbalance) < Abs(loads[j] - imbalance)
    {
      if place[k] == c && (Abs(loads[k] - imbalance) < Abs(loads[i] - imbalance) ||
                           (Abs(loads[k] - imbalance) == Abs(loads[i] - imbalance) && k < i)) {
        i := k;
      }
      k := k + 1;
    }
  }

  /** The task chosen misses an improvement exactly when its load is at least the imbalance. */
  lemma MissesExactly(loads: seq<real>, place: seq<nat>, hi: nat, imbalance: real, i: nat)
    requires |loads| == |place| && NonNegative(loads) && Closest(loads, place, hi, imbalance, i)
    ensures !(0.0 < loads[i] < imbalance) && Improvable(loads, place, hi, imbalance)
            <==> loads[i] >= imbalance && Improvable(loads, place, hi, imbalance)
    ensures loads[i] >= imbalance && Improvable(loads, place, hi, imbalance)
            <==> LargeIsCloser(loads, place, hi, imbalance) && Improvable(loads, place, hi, imbalance)
  {
    if loads[i] >= imbalance {
      assert CloserThanAll(loads, place, hi, imbalance, i);
    }
  }

  /**
   * The loop gives up on an overloaded place although a move from there would help if and only
   * if a task at least as large as the imbalance is closer to it than every task that would help.
   */
  lemma GivesUpExactly(loads: seq<real>, place: seq<nat>, n: nat, target: real, hi: nat, lo: nat)
    requires |loads| == |place| && NonNegative(loads)
    requires Fullest(loads, place, n, hi) && Emptiest(loads, place, n, lo) && Load(loads, place, hi) >= target
    ensures var imbalance := Load(loads, place, hi) - Load(loads, place, lo);
      Ended(loads, place, n, target) && Improvable(loads, place, hi, imbalance)
      <==> LargeIsCloser(loads, place, hi, imbalance) && Improvable(loads, place, hi, imbalance)
  {
    hide *;
    var imbalance := Load(loads, place, hi) - Load(loads, place, lo);
    if Improvable(loads, place, hi, imbalance) {
      var j := TaskThatHelps(loads, place, hi, imbalance);
      var i := ClosestExists(loads, place, hi, imbalance, j);
      MissesExactly(loads, place, hi, imbalance, i);
      EndedAt(loads, place, n, target, hi, lo);
      UnhelpfulAt(loads, place, hi, imbalance, i);
    }
  }

  /** What the loads 11 and 3 on the first of two places and 4 on the second come to. */
  lemma ExampleLoads()
    ensures var loads, place := [11.0, 3.0, 4.0], [0, 0, 1];
      && Load(loads, place, 0) == 14.0 && Load(loads, place, 1) == 4.0 && Total(loads) == 18.0
  {
    var loads, place: seq<nat> := [11.0, 3.0, 4.0], [0, 0, 1];
    assert loads[..2] == [11.0, 3.0] && place[..2] == [0, 0];
    assert [11.0, 3.0][..1] == [11.0] && [0, 0][..1] == [0];
    assert [11.0][..0] == [] && [0][..0] == [];
    assert Load([11.0], [0], 0) == 11.0 && Load([11.0, 3.0], [0, 0], 0) == 14.0;
    assert Load([11.0], [0], 1) == 0.0 && Load([11.0, 3.0], [0, 0], 1) == 0.0;
    assert Total([11.0]) == 11.0 && Total([11.0, 3.0]) == 14.0;
  }

  /** There the loop gives up at once, although moving the second task would help. */
  lemma StopsThoughImprovable()
    ensures var loads, place: seq<nat> := [11.0, 3.0, 4.0], [0, 0, 1];
      && Ended(loads, place, 2, 9.0)
      && Fullest(loads, place, 2, 0) && Emptiest(loads, place, 2, 1) && Improvable(loads, place, 0, 10.0)
      && Potential(loads, place[1 := 1], 2) < Potential(loads, place, 2)
  {
    hide Load; hide Total; hide Potential;
    var loads, place: seq<nat> := [11.0, 3.0, 4.0], [0, 0, 1];
    ExampleLoads();
    assert Closest(loads, place, 0, 10.0, 0);
    UnhelpfulAt(loads, place, 0, 10.0, 0);
    EndedAt(loads, place, 2, 9.0, 0, 1);
    assert loads[1] == 3.0 && place[1] == 0;
    MoveEffect(loads, place, 2, 1, 1);
  }

  /** The loop itself on this input: it moves nothing. */
  method BalanceExample() returns (place: seq<nat>, migrations_done: seq<Migration>)
    ensures place == [0, 0, 1] && migrations_done == []
  {
    hide *;
    var loads, place0: seq<nat> := [11.0, 3.0, 4.0], [0, 0, 1];
    ExampleLoads();
    StopsThoughImprovable();
    ExampleOk(loads, place0);
    place, migrations_done := BalanceLoad(loads, place0, 2, 2, 100.0);
    NoRunFromEnd(loads, place0, 2, 9.0, migrations_done);
    NoMoves(loads, place0, 2, 9.0);
  }

  lemma ExampleOk(loads: seq<real>, place: seq<nat>)
    requires loads == [11.0, 3.0, 4.0] && place == [0, 0, 1]
    ensures NonNegative(loads) && PlacesOk(place, 2)
  {
  }
}
