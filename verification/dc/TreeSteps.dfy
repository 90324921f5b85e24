/**
 * The steps of TreeInsert's fix-up loop on shapes and on the node pool: recolouring and
 * rotation.  Each step is shown to keep the contents, the red-black laws and the layout of
 * everything it does not touch.
 */
module TreeSteps {
  import opened TreeShape

  /** A path and the subtree in its hole, laid out without sharing in slots 1..n. */
  ghost predicate Joined(pool: seq<TreeNode>, fs: Path, t: Tree, n: nat) {
    && n < |pool|
    && PathRepresents(pool, fs) && Represents(pool, Hole(pool, fs), t)
    && PathDistinct(fs) && Distinct(t) && PathIds(fs) !! Ids(t)
    && Within(PathIds(fs), n) && Within(Ids(t), n)
  }

  lemma JoinedWhole(pool: seq<TreeNode>, fs: Path, t: Tree, n: nat)
    requires Joined(pool, fs, t, n)
    ensures Joined(pool, [], Zip(fs, t), n)
  {
    ZipRepresents(pool, fs, t);
    ZipIds(fs, t);
  }

  lemma JoinedAscend(pool: seq<TreeNode>, fs: Path, t: Tree, n: nat)
    requires fs != [] && Joined(pool, fs, t, n)
    ensures Joined(pool, Up(fs), Wrap(Last(fs), t), n)
    ensures 1 <= Last(fs).id <= n
  {
    assert Last(fs).id in PathIds(fs);
  }

  /** Moving the focus from a node to one of its children. */
  ghost function Descended(t: Tree, right: bool): Frame
    requires t.Node?
  {
    Frame(t.id, right, t.red, t.row, if right then t.l else t.r)
  }

  ghost function Child(t: Tree, right: bool): Tree
    requires t.Node?
  {
    if right then t.r else t.l
  }

  lemma JoinedDescend(pool: seq<TreeNode>, fs: Path, t: Tree, n: nat, right: bool)
    requires Joined(pool, fs, t, n) && t.Node?
    ensures Joined(pool, fs + [Descended(t, right)], Child(t, right), n)
  {
    var gs := fs + [Descended(t, right)];
    assert Up(gs) == fs && Last(gs) == Descended(t, right);
    assert t.id in Ids(t);
  }

  // ---------------------------------------------------------------------------
  // Recolouring: the uncle is red
  // ---------------------------------------------------------------------------

  /** The tree with the colour of one slot changed. */
  ghost function Painted(t: Tree, i: nat, red: bool): Tree {
    if t.Leaf? then t
    else Node(Painted(t.l, i, red), t.id, if t.id == i then red else t.red, t.row, Painted(t.r, i, red))
  }

  lemma {:induction false} PaintedElsewhere(t: Tree, i: nat, red: bool)
    requires i !in Ids(t)
    ensures Painted(t, i, red) == t
  {
    if t.Node? {
      PaintedElsewhere(t.l, i, red);
      PaintedElsewhere(t.r, i, red);
    }
  }

  lemma {:induction false} PaintedKeeps(t: Tree, i: nat, red: bool)
    ensures InOrder(Painted(t, i, red)) == InOrder(t) && Ids(Painted(t, i, red)) == Ids(t)
    ensures Distinct(t) ==> Distinct(Painted(t, i, red))
  {
    if t.Node? {
      PaintedKeeps(t.l, i, red);
      PaintedKeeps(t.r, i, red);
    }
  }

  lemma {:induction false} PaintedRepresents(p0: seq<TreeNode>, p: int, t: Tree, i: nat, red: bool)
    requires i < |p0| && Represents(p0, p, t)
    ensures Represents(p0[i := p0[i].(red := red)], p, Painted(t, i, red))
    decreases t
  {
    if t.Node? {
      PaintedRepresents(p0, p0[t.id].left, t.l, i, red);
      PaintedRepresents(p0, p0[t.id].right, t.r, i, red);
    }
  }

  lemma JoinedPaint(p0: seq<TreeNode>, fs: Path, t: Tree, n: nat, i: nat, red: bool)
    requires Joined(p0, fs, t, n) && i in Ids(t)
    ensures i <= n
    ensures Joined(p0[i := p0[i].(red := red)], fs, Painted(t, i, red), n)
  {
    PaintedKeeps(t, i, red);
    PaintedRepresents(p0, Hole(p0, fs), t, i, red);
    PathFrame(p0, p0[i := p0[i].(red := red)], fs);
  }

  ghost function Grandparent(fs: Path, t: Tree): Tree
    requires |fs| >= 2
  {
    Wrap(Last(Up(fs)), Wrap(Last(fs), t))
  }

  /** Parent and uncle turned black, grandparent red. */
  ghost function Recoloured(fs: Path, t: Tree): Tree
    requires |fs| >= 2 && Last(Up(fs)).sib.Node?
  {
    Painted(Painted(Painted(Grandparent(fs, t), Last(fs).id, false), Last(Up(fs)).sib.id, false), Last(Up(fs)).id, true)
  }

  lemma RecolourPool(p0: seq<TreeNode>, fs: Path, t: Tree, n: nat)
    requires |fs| >= 2 && Joined(p0, fs, t, n) && Last(Up(fs)).sib.Node?
    ensures var a, u, g := Last(fs).id, Last(Up(fs)).sib.id, Last(Up(fs)).id;
      && 1 <= a <= n && 1 <= u <= n && 1 <= g <= n
      && var p1 := p0[a := p0[a].(red := false)];
         var p2 := p1[u := p1[u].(red := false)];
         Joined(p2[g := p2[g].(red := true)], Up(Up(fs)), Recoloured(fs, t), n)
  {
    var a, u, g := Last(fs).id, Last(Up(fs)).sib.id, Last(Up(fs)).id;
    JoinedAscend(p0, fs, t, n);
    JoinedAscend(p0, Up(fs), Wrap(Last(fs), t), n);
    var rest, t0 := Up(Up(fs)), Grandparent(fs, t);
    assert u in Ids(Last(Up(fs)).sib) && Ids(Last(Up(fs)).sib) <= Ids(t0);
    assert a in Ids(Wrap(Last(fs), t)) && a in Ids(t0) && g in Ids(t0);
    JoinedPaint(p0, rest, t0, n, a, false);
    PaintedKeeps(t0, a, false);
    var p1, t1 := p0[a := p0[a].(red := false)], Painted(t0, a, false);
    JoinedPaint(p1, rest, t1, n, u, false);
    PaintedKeeps(t1, u, false);
    JoinedPaint(p1[u := p1[u].(red := false)], rest, Painted(t1, u, false), n, g, true);
  }

  /** Recolouring touches only the three nodes it names. */
  lemma RecolouredShape(fs: Path, t: Tree)
    requires |fs| >= 2 && Last(Up(fs)).sib.Node?
    requires PathDistinct(fs) && Distinct(t) && PathIds(fs) !! Ids(t)
    ensures Recoloured(fs, t) ==
      Wrap(Last(Up(fs)).(red := true, sib := Last(Up(fs)).sib.(red := false)), Wrap(Last(fs).(red := false), t))
  {
    var a, u, g := Last(fs), Last(Up(fs)).sib, Last(Up(fs));
    assert PathDistinct(Up(fs));
    assert a.id !in Ids(t) && a.id !in Ids(a.sib) && a.id !in Ids(u) && a.id != g.id && u.id in Ids(u);
    assert u.id !in Ids(t) && u.id !in Ids(a.sib);
    assert g.id !in Ids(t) && g.id !in Ids(a.sib) && g.id !in Ids(u.l) && g.id !in Ids(u.r);
    PaintedElsewhere(t, a.id, false); PaintedElsewhere(a.sib, a.id, false);
    PaintedElsewhere(u, a.id, false);
    PaintedElsewhere(t, u.id, false); PaintedElsewhere(a.sib, u.id, false);
    PaintedElsewhere(u.l, u.id, false); PaintedElsewhere(u.r, u.id, false);
    PaintedElsewhere(t, g.id, true); PaintedElsewhere(a.sib, g.id, true);
    PaintedElsewhere(u.l, g.id, true); PaintedElsewhere(u.r, g.id, true);
    var w := Wrap(a.(red := false), t);
    assert Painted(Wrap(a, t), a.id, false) == w;
    assert Painted(w, u.id, false) == w && Painted(w, g.id, true) == w;
    var ub := u.(red := false);
    assert Painted(u, u.id, false) == ub && Painted(ub, g.id, true) == ub;
  }

  lemma RecolourLaws(fs: Path, t: Tree)
    requires |fs| >= 2 && PathLaws(fs, BlackHeight(t)) && Balanced(t) && NoRedRed(t)
    requires PathDistinct(fs) && Distinct(t) && PathIds(fs) !! Ids(t)
    requires Last(fs).red && IsRed(t) && IsRed(Last(Up(fs)).sib)
    ensures var t1 := Recoloured(fs, t);
      PathLaws(Up(Up(fs)), BlackHeight(t1)) && Balanced(t1) && NoRedRed(t1) && IsRed(t1)
  {
    RecolouredShape(fs, t);
  }

  lemma GrandparentInOrder(fs: Path, t: Tree)
    requires |fs| >= 2
    ensures Before(Up(Up(fs))) + InOrder(Grandparent(fs, t)) + After(Up(Up(fs)))
         == Before(fs) + InOrder(t) + After(fs)
  {
    ZipInOrder(fs, t);
    ZipInOrder(Up(Up(fs)), Grandparent(fs, t));
    assert Zip(fs, t) == Zip(Up(fs), Wrap(Last(fs), t)) == Zip(Up(Up(fs)), Grandparent(fs, t));
  }

  lemma RecolourInOrder(fs: Path, t: Tree)
    requires |fs| >= 2 && Last(Up(fs)).sib.Node?
    ensures Before(Up(Up(fs))) + InOrder(Recoloured(fs, t)) + After(Up(Up(fs)))
         == Before(fs) + InOrder(t) + After(fs)
  {
    var t0 := Grandparent(fs, t);
    PaintedKeeps(t0, Last(fs).id, false);
    var t1 := Painted(t0, Last(fs).id, false);
    PaintedKeeps(t1, Last(Up(fs)).sib.id, false);
    PaintedKeeps(Painted(t1, Last(Up(fs)).sib.id, false), Last(Up(fs)).id, true);
    GrandparentInOrder(fs, t);
  }

  // ---------------------------------------------------------------------------
  // Rotation: the subtree in the hole takes the place of its parent
  // ---------------------------------------------------------------------------

  /** Parent f turned down, child t turned up, with their new colours. */
  ghost function Spun(f: Frame, t: Tree, fRed: bool, tRed: bool): Tree
    requires t.Node?
  {
    if f.right then Node(Node(f.sib, f.id, fRed, f.row, t.l), t.id, tRed, t.row, t.r)
    else Node(t.l, t.id, tRed, t.row, Node(t.r, f.id, fRed, f.row, f.sib))
  }

  /** The pool after x (the parent) and y (the child) have exchanged links and colours. */
  ghost function SpunPool(p: seq<TreeNode>, x: nat, y: nat, right: bool, xRed: bool, yRed: bool): seq<TreeNode>
    requires x < |p| && y < |p|
  {
    if right then
      p[x := p[x].(right := p[y].left, red := xRed)][y := p[y].(left := x, red := yRed)]
    else
      p[x := p[x].(left := p[y].right, red := xRed)][y := p[y].(right := x, red := yRed)]
  }

  lemma SpinIds(fs: Path, t: Tree, fRed: bool, tRed: bool)
    requires fs != [] && t.Node?
    requires PathDistinct(fs) && Distinct(t) && PathIds(fs) !! Ids(t)
    ensures Distinct(Spun(Last(fs), t, fRed, tRed))
    ensures PathIds(Up(fs)) !! Ids(Spun(Last(fs), t, fRed, tRed))
    ensures Ids(Spun(Last(fs), t, fRed, tRed)) == Ids(Wrap(Last(fs), t))
  {
  }

  lemma SpinRepresents(p0: seq<TreeNode>, fs: Path, t: Tree, n: nat, fRed: bool, tRed: bool)
    requires fs != [] && t.Node? && Joined(p0, fs, t, n)
    ensures 1 <= Last(fs).id <= n && 1 <= t.id <= n
    ensures Represents(SpunPool(p0, Last(fs).id, t.id, Last(fs).right, fRed, tRed), t.id, Spun(Last(fs), t, fRed, tRed))
  {
    var f := Last(fs);
    assert f.id in PathIds(fs) && t.id in Ids(t) && f.id !in Ids(t) && t.id !in Ids(f.sib);
    var p1 := SpunPool(p0, f.id, t.id, f.right, fRed, tRed);
    RepresentsFrame(p0, p1, if f.right then p0[f.id].left else p0[f.id].right, f.sib);
    RepresentsFrame(p0, p1, p0[t.id].left, t.l);
    RepresentsFrame(p0, p1, p0[t.id].right, t.r);
  }

  lemma SpinKeepsPath(p0: seq<TreeNode>, fs: Path, t: Tree, n: nat, fRed: bool, tRed: bool)
    requires fs != [] && t.Node? && Joined(p0, fs, t, n)
    ensures 1 <= Last(fs).id <= n && 1 <= t.id <= n
    ensures PathRepresents(SpunPool(p0, Last(fs).id, t.id, Last(fs).right, fRed, tRed), Up(fs))
  {
    assert Last(fs).id in PathIds(fs) && t.id in Ids(t) && t.id !in PathIds(Up(fs));
    PathFrame(p0, SpunPool(p0, Last(fs).id, t.id, Last(fs).right, fRed, tRed), Up(fs));
  }

  lemma SpinPool(p0: seq<TreeNode>, fs: Path, t: Tree, n: nat, fRed: bool, tRed: bool)
    requires fs != [] && t.Node? && Joined(p0, fs, t, n)
    ensures 1 <= Last(fs).id <= n && 1 <= t.id <= n
    ensures Up(fs) != [] ==> 1 <= Last(Up(fs)).id <= n
    ensures Joined(SetHole(SpunPool(p0, Last(fs).id, t.id, Last(fs).right, fRed, tRed), Up(fs), t.id),
                   Up(fs), Spun(Last(fs), t, fRed, tRed), n)
  {
    var rest, u := Up(fs), Spun(Last(fs), t, fRed, tRed);
    JoinedAscend(p0, fs, t, n);
    SpinIds(fs, t, fRed, tRed);
    SpinRepresents(p0, fs, t, n, fRed, tRed);
    SpinKeepsPath(p0, fs, t, n, fRed, tRed);
    var p1 := SpunPool(p0, Last(fs).id, t.id, Last(fs).right, fRed, tRed);
    if rest != [] { assert Last(rest).id in PathIds(rest); }
    Relink(p1, rest, u, n);
  }

  /** Hanging a laid-out subtree into the hole of a path it does not overlap. */
  lemma Relink(p1: seq<TreeNode>, fs: Path, u: Tree, n: nat)
    requires n < |p1| && u.Node?
    requires PathRepresents(p1, fs) && Represents(p1, u.id, u)
    requires PathDistinct(fs) && Distinct(u) && PathIds(fs) !! Ids(u)
    requires Within(PathIds(fs), n) && Within(Ids(u), n)
    ensures fs != [] ==> 1 <= Last(fs).id <= n
    ensures Joined(SetHole(p1, fs, u.id), fs, u, n)
  {
    if fs != [] { assert Last(fs).id in PathIds(fs); }
    SetHoleKeepsPath(p1, fs, u.id);
    assert HEADER !in Ids(u);
    RepresentsFrame(p1, SetHole(p1, fs, u.id), u.id, u);
  }

  lemma SpinInOrder(f: Frame, t: Tree, fRed: bool, tRed: bool)
    requires t.Node?
    ensures InOrder(Spun(f, t, fRed, tRed)) == InOrder(Wrap(f, t))
  {
    assert InOrder(f.sib) + [f.row] + (InOrder(t.l) + [t.row] + InOrder(t.r))
        == (InOrder(f.sib) + [f.row] + InOrder(t.l)) + [t.row] + InOrder(t.r);
    assert InOrder(t.l) + [t.row] + (InOrder(t.r) + [f.row] + InOrder(f.sib))
        == (InOrder(t.l) + [t.row] + InOrder(t.r)) + [f.row] + InOrder(f.sib);
  }

  /** The subtree that finally replaces the grandparent: one rotation, or two. */
  ghost function Rotated(fs: Path, t: Tree): Tree
    requires |fs| >= 2 && t.Node?
  {
    Spun(Last(Up(fs)), Upper(fs, t), true, false)
  }

  ghost function Upper(fs: Path, t: Tree): (u: Tree)
    requires |fs| >= 2 && t.Node?
    ensures u.Node?
  {
    if Last(fs).right == Last(Up(fs)).right then Wrap(Last(fs), t)
    else Spun(Last(fs), t, Last(fs).red, t.red)
  }

  lemma RotateLaws(fs: Path, t: Tree)
    requires |fs| >= 2 && PathLaws(fs, BlackHeight(t)) && Balanced(t) && NoRedRed(t)
    requires Last(fs).red && IsRed(t) && !IsRed(Last(Up(fs)).sib)
    ensures var t1 := Rotated(fs, t);
      PathLaws(Up(Up(fs)), BlackHeight(t1)) && Balanced(t1) && NoRedRed(t1) && !IsRed(t1)
  {
    assert PathLaws(Up(fs), BlackHeight(t));
    assert PathLaws(Up(Up(fs)), BlackHeight(t) + 1);
    assert BlackHeight(Rotated(fs, t)) == BlackHeight(t) + 1;
  }

  lemma RotateInOrder(fs: Path, t: Tree)
    requires |fs| >= 2 && t.Node?
    ensures Before(Up(Up(fs))) + InOrder(Rotated(fs, t)) + After(Up(Up(fs)))
         == Before(fs) + InOrder(t) + After(fs)
  {
    SpinInOrder(Last(fs), t, Last(fs).red, t.red);
    SpinInOrder(Last(Up(fs)), Upper(fs, t), true, false);
    assert InOrder(Upper(fs, t)) == InOrder(Wrap(Last(fs), t));
    GrandparentInOrder(fs, t);
  }
}
