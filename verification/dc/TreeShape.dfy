/**
 * The shapes behind rbt.c: trees, the path from the root to a hole (what the nodes/drcts
 * stacks hold), the red-black laws with the height they allow, and how trees and paths are laid
 * out in the node pool.
 */
module TreeShape {
  import opened Rows
  import opened Arith

  /** A node of the pool; links are slot numbers. */
  datatype TreeNode = TreeNode(left: int, right: int, red: bool, row: Row)

  const NIL := -1
  const HEADER := 0   // slot of tree->root, whose left link is the real root

  datatype Tree = Leaf | Node(l: Tree, id: nat, red: bool, row: Row, r: Tree)

  /** One stacked node: the direction taken below it and the subtree not taken. */
  datatype Frame = Frame(id: nat, right: bool, red: bool, row: Row, sib: Tree)

  type Path = seq<Frame>

  // ---------------------------------------------------------------------------
  // In-order contents
  // ---------------------------------------------------------------------------

  ghost function InOrder(t: Tree): seq<Row> {
    if t.Leaf? then [] else InOrder(t.l) + [t.row] + InOrder(t.r)
  }

  ghost function Wrap(f: Frame, t: Tree): Tree {
    if f.right then Node(f.sib, f.id, f.red, f.row, t) else Node(t, f.id, f.red, f.row, f.sib)
  }

  ghost function Up(fs: Path): Path
    requires fs != []
  {
    fs[..|fs|-1]
  }

  ghost function Last(fs: Path): Frame
    requires fs != []
  {
    fs[|fs|-1]
  }

  /** The whole tree, when t fills the hole at the end of the path. */
  ghost function Zip(fs: Path, t: Tree): Tree
    decreases |fs|
  {
    if fs == [] then t else Zip(Up(fs), Wrap(Last(fs), t))
  }

  ghost function Before(fs: Path): seq<Row>
    decreases |fs|
  {
    if fs == [] then []
    else Before(Up(fs)) + (if Last(fs).right then InOrder(Last(fs).sib) + [Last(fs).row] else [])
  }

  ghost function After(fs: Path): seq<Row>
    decreases |fs|
  {
    if fs == [] then []
    else (if Last(fs).right then [] else [Last(fs).row] + InOrder(Last(fs).sib)) + After(Up(fs))
  }

  lemma Regroup(b: seq<Row>, s: seq<Row>, x: seq<Row>, t: seq<Row>, a: seq<Row>)
    ensures b + (s + x + t) + a == (b + (s + x)) + t + a
    ensures b + (t + x + s) + a == b + t + ((x + s) + a)
  {
  }

  lemma {:induction false} ZipInOrder(fs: Path, t: Tree)
    ensures InOrder(Zip(fs, t)) == Before(fs) + InOrder(t) + After(fs)
    decreases |fs|
  {
    if fs == [] {
      assert [] + InOrder(t) + [] == InOrder(t);
    } else {
      var f := Last(fs);
      ZipInOrder(Up(fs), Wrap(f, t));
      Regroup(Before(Up(fs)), InOrder(f.sib), [f.row], InOrder(t), After(Up(fs)));
      assert [] + After(Up(fs)) == After(Up(fs)) && Before(Up(fs)) + [] == Before(Up(fs));
    }
  }

  // ---------------------------------------------------------------------------
  // The red-black laws
  // ---------------------------------------------------------------------------

  predicate IsRed(t: Tree) { t.Node? && t.red }

  ghost function BlackHeight(t: Tree): nat {
    if t.Leaf? then 0 else BlackHeight(t.l) + (if t.red then 0 else 1)
  }

  /** Every root-to-leaf path has the same number of black nodes. */
  ghost predicate Balanced(t: Tree) {
    t.Node? ==> BlackHeight(t.l) == BlackHeight(t.r) && Balanced(t.l) && Balanced(t.r)
  }

  /** No red node has a red child. */
  ghost predicate NoRedRed(t: Tree) {
    t.Node? ==> (t.red ==> !IsRed(t.l) && !IsRed(t.r)) && NoRedRed(t.l) && NoRedRed(t.r)
  }

  ghost predicate RedBlack(t: Tree) {
    Balanced(t) && NoRedRed(t) && !IsRed(t)
  }

  /** What the laws say about a path whose hole takes a subtree of black height b. */
  ghost predicate PathLaws(fs: Path, b: nat)
    decreases |fs|
  {
    fs != [] ==>
      var f := Last(fs);
      && BlackHeight(f.sib) == b && Balanced(f.sib) && NoRedRed(f.sib)
      && (f.red ==> !IsRed(f.sib) && |fs| >= 2 && !Last(Up(fs)).red)
      && PathLaws(Up(fs), b + (if f.red then 0 else 1))
  }

  lemma {:induction false} ZipLaws(fs: Path, t: Tree)
    requires PathLaws(fs, BlackHeight(t)) && Balanced(t) && NoRedRed(t)
    requires IsRed(t) && fs != [] ==> !Last(fs).red
    ensures Balanced(Zip(fs, t)) && NoRedRed(Zip(fs, t))
    ensures fs != [] ==> !IsRed(Zip(fs, t))
    decreases |fs|
  {
    if fs != [] {
      var f := Last(fs);
      ZipLaws(Up(fs), Wrap(f, t));
    }
  }

  // ---------------------------------------------------------------------------
  // Height
  // ---------------------------------------------------------------------------

  ghost function Height(t: Tree): nat {
    if t.Leaf? then 0
    else 1 + if Height(t.l) > Height(t.r) then Height(t.l) else Height(t.r)
  }

  lemma {:induction false} HeightAtMostTwiceBlack(t: Tree)
    requires Balanced(t) && NoRedRed(t)
    ensures Height(t) <= 2 * BlackHeight(t) + (if IsRed(t) then 1 else 0)
  {
    if t.Node? {
      HeightAtMostTwiceBlack(t.l);
      HeightAtMostTwiceBlack(t.r);
    }
  }

  lemma {:induction false} SizeAtLeastPow2(t: Tree)
    requires Balanced(t)
    ensures |InOrder(t)| >= Pow2(BlackHeight(t)) - 1
  {
    if t.Node? {
      SizeAtLeastPow2(t.l);
      SizeAtLeastPow2(t.r);
    }
  }

  /** A red-black tree with fewer than 2^32 - 1 nodes is at most 62 levels deep. */
  lemma HeightBound(t: Tree)
    requires RedBlack(t) && |InOrder(t)| < 0xFFFF_FFFF
    ensures Height(t) <= 62
  {
    HeightAtMostTwiceBlack(t);
    SizeAtLeastPow2(t);
    if BlackHeight(t) >= 32 {
      Pow2Monotone(32, BlackHeight(t));
      Pow2Of32();
    }
  }

  // ---------------------------------------------------------------------------
  // Layout in the pool
  // ---------------------------------------------------------------------------

  ghost function Ids(t: Tree): set<nat> {
    if t.Leaf? then {} else Ids(t.l) + {t.id} + Ids(t.r)
  }

  /** No slot is used twice. */
  ghost predicate Distinct(t: Tree) {
    t.Node? ==>
      && t.id !in Ids(t.l) && t.id !in Ids(t.r) && Ids(t.l) !! Ids(t.r)
      && Distinct(t.l) && Distinct(t.r)
  }

  ghost function PathIds(fs: Path): set<nat>
    decreases |fs|
  {
    if fs == [] then {} else PathIds(Up(fs)) + {Last(fs).id} + Ids(Last(fs).sib)
  }

  ghost predicate PathDistinct(fs: Path)
    decreases |fs|
  {
    fs != [] ==>
      var f := Last(fs);
      && f.id !in Ids(f.sib) && f.id !in PathIds(Up(fs)) && Ids(f.sib) !! PathIds(Up(fs))
      && Distinct(f.sib) && PathDistinct(Up(fs))
  }

  /** Slots in use lie in 1..n. */
  ghost predicate Within(ids: set<nat>, n: nat) {
    forall i :: i in ids ==> 1 <= i <= n
  }

  ghost predicate Represents(pool: seq<TreeNode>, p: int, t: Tree)
    decreases t
  {
    if t.Leaf? then p == NIL
    else
      && p == t.id && 1 <= t.id < |pool|
      && pool[t.id].red == t.red && pool[t.id].row == t.row
      && Represents(pool, pool[t.id].left, t.l)
      && Represents(pool, pool[t.id].right, t.r)
  }

  /** The link a path leads to; an empty path ends in the header's left link. */
  ghost function Hole(pool: seq<TreeNode>, fs: Path): int
    requires |pool| > 0
  {
    if fs == [] then pool[HEADER].left
    else if Last(fs).id >= |pool| then NIL
    else if Last(fs).right then pool[Last(fs).id].right
    else pool[Last(fs).id].left
  }

  ghost predicate PathRepresents(pool: seq<TreeNode>, fs: Path)
    decreases |fs|
  {
    && |pool| > 0
    && (fs != [] ==>
        var f := Last(fs);
        && 1 <= f.id < |pool|
        && pool[f.id].red == f.red && pool[f.id].row == f.row
        && Represents(pool, if f.right then pool[f.id].left else pool[f.id].right, f.sib)
        && Hole(pool, Up(fs)) == f.id
        && PathRepresents(pool, Up(fs)))
  }

  lemma {:induction false} RepresentsFrame(p0: seq<TreeNode>, p1: seq<TreeNode>, p: int, t: Tree)
    requires |p0| == |p1| && Represents(p0, p, t)
    requires forall i :: i in Ids(t) && i < |p0| ==> p0[i] == p1[i]
    ensures Represents(p1, p, t)
    decreases t
  {
    if t.Node? {
      assert t.id in Ids(t);
      RepresentsFrame(p0, p1, p0[t.id].left, t.l);
      RepresentsFrame(p0, p1, p0[t.id].right, t.r);
    }
  }

  lemma {:induction false} PathFrame(p0: seq<TreeNode>, p1: seq<TreeNode>, fs: Path)
    requires |p0| == |p1| && PathRepresents(p0, fs)
    requires p0[HEADER] == p1[HEADER]
    requires forall i :: i in PathIds(fs) && i < |p0| ==> p0[i] == p1[i]
    ensures PathRepresents(p1, fs) && Hole(p1, fs) == Hole(p0, fs)
    decreases |fs|
  {
    if fs != [] {
      var f := Last(fs);
      assert f.id in PathIds(fs);
      RepresentsFrame(p0, p1, if f.right then p0[f.id].left else p0[f.id].right, f.sib);
      PathFrame(p0, p1, Up(fs));
    }
  }

  /** Rewriting the link at the end of a path (tree->nodes[k]->left or ->right = q). */
  ghost function SetHole(pool: seq<TreeNode>, fs: Path, q: int): seq<TreeNode>
    requires |pool| > 0 && (fs != [] ==> Last(fs).id < |pool|)
  {
    if fs == [] then pool[HEADER := pool[HEADER].(left := q)]
    else if Last(fs).right then pool[Last(fs).id := pool[Last(fs).id].(right := q)]
    else pool[Last(fs).id := pool[Last(fs).id].(left := q)]
  }

  lemma SetHoleKeepsPath(pool: seq<TreeNode>, fs: Path, q: int)
    requires PathRepresents(pool, fs) && PathDistinct(fs) && Within(PathIds(fs), |pool| - 1)
    ensures PathRepresents(SetHole(pool, fs, q), fs)
    ensures Hole(SetHole(pool, fs, q), fs) == q
  {
    if fs != [] {
      var f := Last(fs);
      var p1 := SetHole(pool, fs, q);
      RepresentsFrame(pool, p1, if f.right then pool[f.id].left else pool[f.id].right, f.sib);
      PathFrame(pool, p1, Up(fs));
    }
  }

  lemma {:induction false} ZipRepresents(pool: seq<TreeNode>, fs: Path, t: Tree)
    requires PathRepresents(pool, fs) && Represents(pool, Hole(pool, fs), t)
    ensures Represents(pool, pool[HEADER].left, Zip(fs, t))
    decreases |fs|
  {
    if fs != [] {
      ZipRepresents(pool, Up(fs), Wrap(Last(fs), t));
    }
  }

  lemma {:induction false} ZipIds(fs: Path, t: Tree)
    requires PathDistinct(fs) && Distinct(t) && PathIds(fs) !! Ids(t)
    ensures Distinct(Zip(fs, t)) && Ids(Zip(fs, t)) == PathIds(fs) + Ids(t)
    decreases |fs|
  {
    if fs != [] {
      ZipIds(Up(fs), Wrap(Last(fs), t));
    }
  }
}
