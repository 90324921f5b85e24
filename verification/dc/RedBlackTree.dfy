/**
 * rbt.c: the aggregation tree.  Nodes live in a fixed memory pool; a node reference is its
 * slot in the pool (slot 0 stands for tree->root, slot k for offset (k-1)*treeNodeSize).  Inserting
 * a row is proved to insert it into the sorted rows, or to add its measures to the row there.
 */
module RedBlackTree {
  import opened Rows
  import opened TreeShape
  import opened TreeSteps
  import opened Arith

  const MAX_TREE_HEIGHT := 64
  const UINT32 := 0x1_0000_0000

  /** treeNodeSize for nd >= 1 dimensions: struct treeNode already holds one measure word. */
  function NodeSize(nd: nat, nm: nat): (s: nat)
    requires nd >= 1
    ensures s % 8 == 0 && 32 + 4 * (nd - 1) + 8 * nm <= s < 40 + 4 * (nd - 1) + 8 * nm
  {
    var s := 32 + 4 * (nd - 1) + 8 * nm;
    if s % 8 != 0 then s + 4 else s
  }

  // ---------------------------------------------------------------------------
  // Descent
  // ---------------------------------------------------------------------------

  /** The search for key has reached subtree t of whole along fs. */
  ghost predicate Descending(whole: Tree, fs: Path, t: Tree, key: Key) {
    && PathLaws(fs, BlackHeight(t)) && Balanced(t) && NoRedRed(t)
    && (IsRed(t) ==> fs != [] && !Last(fs).red)
    && Before(fs) + InOrder(t) + After(fs) == InOrder(whole)
    && Below(Before(fs), key) && Above(After(fs), key)
    && |fs| + Height(t) <= 62
  }

  lemma SortedMiddle(a: seq<Row>, b: seq<Row>, c: seq<Row>)
    requires Sorted(a + b + c)
    ensures Sorted(b)
  {
    forall i, j | 0 <= i < j < |b| ensures Less(b[i].key, b[j].key) {
      assert (a + b + c)[|a| + i] == b[i] && (a + b + c)[|a| + j] == b[j];
    }
  }

  lemma SortedAround(a: seq<Row>, x: Row, b: seq<Row>)
    requires Sorted(a + [x] + b)
    ensures Below(a, x.key) && Above(b, x.key)
  {
    var s := a + [x] + b;
    forall j | 0 <= j < |a| ensures Less(a[j].key, x.key) {
      assert s[j] == a[j] && s[|a|] == x;
    }
    forall j | 0 <= j < |b| ensures Less(x.key, b[j].key) {
      assert s[|a| + 1 + j] == b[j] && s[|a|] == x;
    }
  }

  lemma DescendStart(whole: Tree, key: Key)
    requires RedBlack(whole) && |InOrder(whole)| < 0xFFFF_FFFF
    ensures Descending(whole, [], whole, key)
  {
    HeightBound(whole);
    assert [] + InOrder(whole) + [] == InOrder(whole);
  }

  lemma BelowExtended(b: seq<Row>, l: seq<Row>, x: Row, key: Key)
    requires Below(b, key) && Below(l, x.key) && Less(x.key, key)
    ensures Below(b + (l + [x]), key)
  {
    forall j | 0 <= j < |l| ensures Less(l[j].key, key) {
      LessTransitive(l[j].key, x.key, key);
    }
  }

  lemma AboveExtended(x: Row, r: seq<Row>, a: seq<Row>, key: Key)
    requires Above(a, key) && Above(r, x.key) && Less(key, x.key)
    ensures Above(([x] + r) + a, key)
  {
    forall j | 0 <= j < |r| ensures Less(key, r[j].key) {
      LessTransitive(key, x.key, r[j].key);
    }
  }

  lemma DescendStep(whole: Tree, fs: Path, t: Tree, key: Key, right: bool)
    requires Descending(whole, fs, t, key) && Sorted(InOrder(whole)) && t.Node?
    requires if right then Less(t.row.key, key) else Less(key, t.row.key)
    ensures Descending(whole, fs + [Descended(t, right)], Child(t, right), key)
  {
    var gs := fs + [Descended(t, right)];
    assert Up(gs) == fs && Last(gs) == Descended(t, right);
    SortedMiddle(Before(fs), InOrder(t), After(fs));
    SortedAround(InOrder(t.l), t.row, InOrder(t.r));
    Regroup(Before(fs), InOrder(t.l), [t.row], InOrder(t.r), After(fs));
    Regroup(Before(fs), InOrder(t.r), [t.row], InOrder(t.l), After(fs));
    assert Before(fs) + [] == Before(fs) && [] + After(fs) == After(fs);
    if right {
      BelowExtended(Before(fs), InOrder(t.l), t.row, key);
    } else {
      AboveExtended(t.row, InOrder(t.r), After(fs), key);
    }
  }

  /** A pool of fewer than 2^32 bytes never holds 2^32 - 1 nodes. */
  lemma FewNodes(memory: nat, size: nat, n: nat)
    requires memory < UINT32 && size >= 32 && n <= Fit(memory, size)
    ensures n < 0xFFFF_FFFF
  {
    FitSmaller(memory, 32, size);
    FitBound(memory, 32);
    TimesIsProduct(Fit(memory, 32), 32);
  }

  lemma Around(b: seq<Row>, l: seq<Row>, x: seq<Row>, r: seq<Row>, a: seq<Row>)
    ensures b + (l + x + r) + a == (b + l) + x + (r + a)
  {
  }

  /** The found node's row replaced by its sum with the new row: contents and laws. */
  lemma AddShape(whole: Tree, fs: Path, t: Tree, row: Row)
    requires RedBlack(whole) && Descending(whole, fs, t, row.key) && t.Node? && t.row.key == row.key
    requires Shaped(InOrder(whole), |row.meas|) && Sorted(InOrder(whole))
    ensures |t.row.meas| == |row.meas|
    ensures var w := Zip(fs, t.(row := Row(AddMeasures(t.row.meas, row.meas), row.key)));
      RedBlack(w) && InOrder(w) == InsertRow(InOrder(whole), row) && |InOrder(w)| == |InOrder(whole)|
  {
    NodeShaped(whole, fs, t, row.key, |row.meas|);
    var x := Row(AddMeasures(t.row.meas, row.meas), row.key);
    var t1 := t.(row := x);
    ZipLaws(fs, t1);
    ZipInOrder(fs, t1);
    var b, a := Before(fs) + InOrder(t.l), InOrder(t.r) + After(fs);
    Around(Before(fs), InOrder(t.l), [t.row], InOrder(t.r), After(fs));
    Around(Before(fs), InOrder(t.l), [x], InOrder(t.r), After(fs));
    SortedAround(b, t.row, a);
    InsertOnto(b, t.row, a, row);
  }

  lemma AddPool(p0: seq<TreeNode>, fs: Path, t: Tree, n: nat, x: Row)
    requires Joined(p0, fs, t, n) && t.Node?
    ensures 1 <= t.id <= n
    ensures Joined(p0[t.id := p0[t.id].(row := x)], [], Zip(fs, t.(row := x)), n)
  {
    assert t.id in Ids(t);
    var p1 := p0[t.id := p0[t.id].(row := x)];
    RepresentsFrame(p0, p1, p0[t.id].left, t.l);
    RepresentsFrame(p0, p1, p0[t.id].right, t.r);
    PathFrame(p0, p1, fs);
    JoinedWhole(p1, fs, t.(row := x), n);
  }

  ghost function NewLeaf(id: nat, row: Row): Tree {
    Node(Leaf, id, true, row, Leaf)
  }

  /** A new red leaf at the end of the path: contents and laws, up to one red-red edge. */
  lemma NewLeafFixing(whole: Tree, fs: Path, row: Row, id: nat)
    requires Descending(whole, fs, Leaf, row.key) && Shaped(InOrder(whole), |row.meas|)
    ensures Fixing(fs, NewLeaf(id, row), InsertRow(InOrder(whole), row))
    ensures |InsertRow(InOrder(whole), row)| == |InOrder(whole)| + 1
  {
    hide Below; hide Above; hide PathLaws; hide Height;
    assert Before(fs) + InOrder(Leaf) + After(fs) == Before(fs) + After(fs);
    InsertBetween(Before(fs), After(fs), row);
    assert InOrder(NewLeaf(id, row)) == [row];
  }

  lemma NewLeafPool(p0: seq<TreeNode>, fs: Path, n: nat, row: Row)
    requires PathRepresents(p0, fs) && Hole(p0, fs) == n + 1 && n + 1 < |p0|
    requires PathDistinct(fs) && Within(PathIds(fs), n)
    ensures Joined(p0[n + 1 := TreeNode(NIL, NIL, true, row)], fs, NewLeaf(n + 1, row), n + 1)
  {
    PathFrame(p0, p0[n + 1 := TreeNode(NIL, NIL, true, row)], fs);
  }

  lemma NodeShaped(whole: Tree, fs: Path, t: Tree, key: Key, nm: nat)
    requires Descending(whole, fs, t, key) && t.Node?
    requires Shaped(InOrder(whole), nm)
    ensures |t.row.meas| == nm
    ensures forall nd: nat :: KeyLength(InOrder(whole), nd) ==> |t.row.key| == nd
  {
    var j := |Before(fs)| + |InOrder(t.l)|;
    assert (Before(fs) + InOrder(t) + After(fs))[j] == t.row;
    assert InOrder(whole)[j] == t.row;
  }

  // ---------------------------------------------------------------------------
  // The fix-up loop
  // ---------------------------------------------------------------------------

  /** t is the red subtree the loop is about to hang below the end of fs. */
  ghost predicate Fixing(fs: Path, t: Tree, rows: seq<Row>) {
    && PathLaws(fs, BlackHeight(t)) && Balanced(t) && NoRedRed(t)
    && Before(fs) + InOrder(t) + After(fs) == rows
  }

  lemma FixDone(fs: Path, t: Tree, rows: seq<Row>)
    requires Fixing(fs, t, rows)
    requires IsRed(t) && fs != [] ==> !Last(fs).red
    ensures Balanced(Zip(fs, t)) && NoRedRed(Zip(fs, t)) && InOrder(Zip(fs, t)) == rows
  {
    ZipLaws(fs, t);
    ZipInOrder(fs, t);
  }

  ghost predicate StackHolds(nodes: seq<int>, drcts: seq<bool>, sl: nat, fs: Path) {
    && |nodes| == |drcts| == MAX_TREE_HEIGHT
    && sl == |fs| + 1 <= MAX_TREE_HEIGHT
    && nodes[0] == HEADER && !drcts[0]
    && (forall k :: 0 <= k < |fs| ==> nodes[k+1] == fs[k].id && drcts[k+1] == fs[k].right)
  }

  // ---------------------------------------------------------------------------
  // The tree
  // ---------------------------------------------------------------------------

  class RBTree {
    const memoryLimit: nat
    const pool: array<TreeNode>
    const nodes: array<int>     // path stack: nodes
    const drcts: array<bool>    // path stack: directions, true for right
    var count: nat
    var treeNodeSize: nat
    var memaddr: nat
    var memoryIsFull: bool
    var freeNodeCounter: nat
    var nNodesLimit: nat
    var nd: nat
    var nm: nat
    ghost var shape: Tree

    ghost predicate Sized()
      reads this
    {
      && memoryLimit < UINT32 && nd >= 1
      && treeNodeSize == NodeSize(nd, nm)
      && nNodesLimit == Fit(memoryLimit, treeNodeSize)
      && nNodesLimit < pool.Length
      && nodes.Length == drcts.Length == MAX_TREE_HEIGHT
    }

    /** n nodes have been taken from the pool. */
    ghost predicate Taken(n: nat)
      reads this
    {
      && memaddr == Times(n, treeNodeSize)
      && n <= nNodesLimit
      && freeNodeCounter == nNodesLimit - n
      && (memoryIsFull <==> 0 < n == nNodesLimit)
    }

    ghost predicate Valid()
      reads this, pool, nodes, drcts
    {
      && Sized() && Taken(count)
      && Joined(pool[..], [], shape, count)
      && count == |InOrder(shape)|
      && RedBlack(shape) && Sorted(InOrder(shape))
      && Shaped(InOrder(shape), nm) && KeyLength(InOrder(shape), nd)
    }

    /** The aggregated rows in key order. */
    ghost function Rows(): seq<Row>
      reads this
    {
      InOrder(shape)
    }

    /** CreateEmptyTree */
    constructor (nd: nat, nm: nat, memoryLimit: nat)
      requires nd >= 1 && memoryLimit < UINT32
      ensures Valid() && Rows() == [] && this.nd == nd && this.nm == nm
      ensures this.memoryLimit == memoryLimit
      ensures fresh(pool) && fresh(nodes) && fresh(drcts)
      ensures !memoryIsFull
      ensures pool.Length >= Fit(memoryLimit, 32) + 1
    {
      this.memoryLimit := memoryLimit;
      pool := new TreeNode[Div(memoryLimit, 32) + 1](_ => TreeNode(NIL, NIL, false, Row([], [])));
      nodes := new int[MAX_TREE_HEIGHT](_ => NIL);
      drcts := new bool[MAX_TREE_HEIGHT](_ => false);
      count := 0;
      memaddr := 0;
      treeNodeSize := NodeSize(nd, nm);
      memoryIsFull := false;
      nNodesLimit := Div(memoryLimit, NodeSize(nd, nm));
      freeNodeCounter := Div(memoryLimit, NodeSize(nd, nm));
      this.nd := nd;
      this.nm := nm;
      shape := Leaf;
      new;
      FitSmaller(memoryLimit, 32, treeNodeSize);
    }

    /** InitializeTree: empties the tree for rows of nd dimensions and nm measures. */
    method InitializeTree(nd: nat, nm: nat)
      requires nd >= 1 && memoryLimit < UINT32 && pool.Length >= Fit(memoryLimit, 32) + 1
      requires nodes.Length == drcts.Length == MAX_TREE_HEIGHT
      modifies this, pool
      ensures Valid() && Rows() == [] && this.nd == nd && this.nm == nm
      ensures !memoryIsFull && count == 0
      ensures nNodesLimit == Fit(memoryLimit, NodeSize(nd, nm))
    {
      pool[HEADER] := pool[HEADER].(left := NIL, right := NIL);
      count := 0;
      memaddr := 0;
      treeNodeSize := NodeSize(nd, nm);
      memoryIsFull := false;
      nNodesLimit := Div(memoryLimit, treeNodeSize);
      freeNodeCounter := nNodesLimit;
      this.nd := nd;
      this.nm := nm;
      shape := Leaf;
      FitSmaller(memoryLimit, 32, treeNodeSize);
    }

    /** NEW_TREE_NODE: the next pool slot, as an address turned into a slot number. */
    method NewTreeNode(ghost n: nat) returns (mp: int)
      requires Sized() && Taken(n) && n < nNodesLimit
      modifies this`memaddr, this`freeNodeCounter, this`memoryIsFull
      ensures mp == n + 1 && Taken(n + 1)
      ensures memaddr <= memoryLimit
    {
      SlotOfAddress(n, treeNodeSize);
      mp := memaddr / treeNodeSize + 1;
      memaddr := memaddr + treeNodeSize;
      freeNodeCounter := freeNodeCounter - 1;
      if freeNodeCounter == 0 { memoryIsFull := true; }
      TimesMonotone(n + 1, nNodesLimit, treeNodeSize);
      FitBound(memoryLimit, treeNodeSize);
    }

    /** One step of the search: stacks node xNd and its direction, and looks up the child. */
    method StepDown(row: Row, sl: nat, xNd: int, right: bool, ghost fs: Path, ghost t: Tree) returns (yNd: int)
      requires Joined(pool[..], fs, t, count) && t.Node? && xNd == t.id
      requires Descending(shape, fs, t, row.key) && Sorted(InOrder(shape))
      requires if right then Less(t.row.key, row.key) else Less(row.key, t.row.key)
      requires StackHolds(nodes[..], drcts[..], sl, fs)
      modifies nodes, drcts
      ensures var gs, u := fs + [Descended(t, right)], Child(t, right);
        && Joined(pool[..], gs, u, count)
        && Descending(shape, gs, u, row.key)
        && StackHolds(nodes[..], drcts[..], sl + 1, gs)
        && Last(gs).id == xNd && Last(gs).right == right
        && if u.Leaf? then yNd == NIL else yNd == u.id
    {
      DescendStep(shape, fs, t, row.key, right);
      JoinedDescend(pool[..], fs, t, count, right);
      nodes[sl] := xNd;
      drcts[sl] := right;
      yNd := if right then pool[xNd].right else pool[xNd].left;
    }

    /** Takes a new slot, links it below xNd, the last node of the path, and fills it in. */
    method LinkLeaf(row: Row, xNd: int, right: bool, ghost fs: Path) returns (mp: int)
      requires Sized() && Taken(count) && count < nNodesLimit
      requires Joined(pool[..], fs, Leaf, count)
      requires fs != [] && Last(fs).id == xNd && Last(fs).right == right
      modifies this`count, this`memaddr, this`freeNodeCounter, this`memoryIsFull, pool
      ensures Taken(count) && count == old(count) + 1 && mp == count
      ensures Joined(pool[..], fs, NewLeaf(mp, row), count)
    {
      ghost var p0 := pool[..];
      mp := NewTreeNode(count);
      if right { pool[xNd] := pool[xNd].(right := mp); }
      else { pool[xNd] := pool[xNd].(left := mp); }
      assert pool[..] == SetHole(p0, fs, mp);
      SetHoleKeepsPath(p0, fs, mp);
      NewLeafPool(pool[..], fs, count, row);
      count := count + 1;
      pool[mp] := TreeNode(NIL, NIL, true, row);
    }

    /** KeyComp of the new row's key with a node's key. */
    method CompareAt(row: Row, xNd: int, ghost fs: Path, ghost t: Tree) returns (cmpres: int)
      requires Shaped(InOrder(shape), nm) && KeyLength(InOrder(shape), nd) && |row.key| == nd
      requires Descending(shape, fs, t, row.key) && t.Node?
      requires Joined(pool[..], fs, t, count) && xNd == t.id
      ensures cmpres < 0 <==> Less(row.key, t.row.key)
      ensures cmpres > 0 <==> Less(t.row.key, row.key)
      ensures cmpres == 0 <==> row.key == t.row.key
    {
      assert t.id in Ids(t);
      NodeShaped(shape, fs, t, row.key, nm);
      assert row.key[..nd] == row.key && t.row.key[..nd] == t.row.key;
      cmpres := KeyComp(row.key, pool[xNd].row.key, nd);
      CompareFlip(row.key, t.row.key);
    }

    /**
     * The search loop of TreeInsert.  It stops at the node with the same key (hit), or at the
     * node whose missing child is where the row belongs.
     */
    method Descend(row: Row) returns (sl: nat, xNd: int, hit: bool, ghost fs: Path, ghost t: Tree)
      requires Valid() && count < nNodesLimit
      requires |row.key| == nd && |row.meas| == nm
      requires shape.Node?
      modifies nodes, drcts
      ensures Joined(pool[..], fs, t, count) && Descending(shape, fs, t, row.key)
      ensures StackHolds(nodes[..], drcts[..], sl, fs)
      ensures hit ==> t.Node? && xNd == t.id && t.row.key == row.key
      ensures !hit ==> t.Leaf? && fs != [] && xNd == Last(fs).id
    {
      FewNodes(memoryLimit, treeNodeSize, count);
      DescendStart(shape, row.key);
      sl := 1;
      xNd := pool[HEADER].left;
      drcts[0] := false;
      nodes[0] := HEADER;
      fs, t, hit := [], shape, false;
      while true
        invariant Joined(pool[..], fs, t, count) && t.Node? && xNd == t.id
        invariant Descending(shape, fs, t, row.key)
        invariant StackHolds(nodes[..], drcts[..], sl, fs)
        decreases t
      {
        var cmpres := CompareAt(row, xNd, fs, t);
        if cmpres == 0 {
          hit := true;
          break;
        }
        var right := cmpres > 0;
        var yNd := StepDown(row, sl, xNd, right, fs, t);
        sl, fs, t := sl + 1, fs + [Descended(t, right)], Child(t, right);
        if yNd == NIL {
          break;
        }
        xNd := yNd;
      }
    }

    /** The recolouring branch: parent and uncle turn black, the grandparent red. */
    method RecolourUp(sl: nat, yNd: int, ghost fs: Path, ghost t: Tree)
      requires nodes.Length == drcts.Length == MAX_TREE_HEIGHT
      requires |fs| >= 2 && Joined(pool[..], fs, t, count) && StackHolds(nodes[..], drcts[..], sl, fs)
      requires Last(Up(fs)).sib.Node? && yNd == Last(Up(fs)).sib.id
      modifies pool
      ensures Joined(pool[..], Up(Up(fs)), Recoloured(fs, t), count)
    {
      assert nodes[sl-1] == Last(fs).id && nodes[sl-2] == Last(Up(fs)).id;
      RecolourPool(pool[..], fs, t, count);
      pool[nodes[sl-1]] := pool[nodes[sl-1]].(red := false);
      pool[yNd] := pool[yNd].(red := false);
      pool[nodes[sl-2]] := pool[nodes[sl-2]].(red := true);
    }

    /** The uncle: the grandparent's other child. */
    method Uncle(sl: nat, ghost fs: Path, ghost t: Tree) returns (yNd: int)
      requires nodes.Length == drcts.Length == MAX_TREE_HEIGHT
      requires |fs| >= 2 && Joined(pool[..], fs, t, count) && StackHolds(nodes[..], drcts[..], sl, fs)
      ensures yNd == NIL <==> Last(Up(fs)).sib.Leaf?
      ensures yNd != NIL ==> yNd == Last(Up(fs)).sib.id && 0 <= yNd < pool.Length
      ensures yNd != NIL ==> pool[yNd].red == Last(Up(fs)).sib.red
    {
      assert nodes[sl-2] == Last(Up(fs)).id && drcts[sl-2] == Last(Up(fs)).right;
      assert PathRepresents(pool[..], Up(fs));
      yNd := if drcts[sl-2] then pool[nodes[sl-2]].left else pool[nodes[sl-2]].right;
      assert Represents(pool[..], yNd, Last(Up(fs)).sib);
    }

    /** nodes[sl-1] is the parent of the hole, or the header. */
    lemma ParentSlot(sl: nat, fs: Path, t: Tree)
      requires nodes.Length == drcts.Length == MAX_TREE_HEIGHT
      requires Joined(pool[..], fs, t, count) && StackHolds(nodes[..], drcts[..], sl, fs)
      ensures 0 <= nodes[sl-1] < pool.Length
      ensures fs != [] ==> nodes[sl-1] == Last(fs).id && pool[nodes[sl-1]].red == Last(fs).red
      ensures PathDistinct(fs) && Distinct(t) && PathIds(fs) !! Ids(t)
    {
      if fs != [] { assert nodes[sl-1] == Last(fs).id; }
    }

    /** The fix-up loop of TreeInsert, for the red subtree t at the end of the stacked path. */
    method Rebalance(sl0: nat, ghost fs0: Path, ghost t0: Tree, ghost rows: seq<Row>) returns (ghost whole: Tree)
      requires nodes.Length == drcts.Length == MAX_TREE_HEIGHT
      requires Joined(pool[..], fs0, t0, count)
      requires StackHolds(nodes[..], drcts[..], sl0, fs0)
      requires Fixing(fs0, t0, rows) && IsRed(t0)
      modifies pool
      ensures Joined(pool[..], [], whole, count)
      ensures Balanced(whole) && NoRedRed(whole) && InOrder(whole) == rows
    {
      hide Joined; hide PathDistinct; hide Distinct; hide PathIds; hide Ids;
      hide InOrder; hide Before; hide After; hide Recoloured; hide Rotated;
      var sl := sl0;
      ghost var fs, t := fs0, t0;
      while true
        invariant Joined(pool[..], fs, t, count) && StackHolds(nodes[..], drcts[..], sl, fs)
        invariant Fixing(fs, t, rows) && IsRed(t)
        decreases sl
      {
        ParentSlot(sl, fs, t);
        if !pool[nodes[sl-1]].red || sl < 3 {
          break;
        }
        var yNd := Uncle(sl, fs, t);
        if yNd != NIL && pool[yNd].red {
          RecolourLaws(fs, t);
          RecolourInOrder(fs, t);
          RecolourUp(sl, yNd, fs, t);
          t := Recoloured(fs, t);
          fs := Up(Up(fs));
          sl := sl - 2;
        } else {
          RotateLaws(fs, t);
          RotateInOrder(fs, t);
          RotateUp(sl, fs, t);
          t := Rotated(fs, t);
          fs := Up(Up(fs));
          break;
        }
      }
      FixDone(fs, t, rows);
      JoinedWhole(pool[..], fs, t, count);
      whole := Zip(fs, t);
    }

    /** tree->nodes[k]'s link in direction drcts[k] is set to q. */
    method SetChild(k: nat, q: int, ghost fs: Path)
      requires k < MAX_TREE_HEIGHT && StackHolds(nodes[..], drcts[..], k + 1, fs)
      requires nodes.Length == drcts.Length == MAX_TREE_HEIGHT
      requires pool.Length > 0 && (fs != [] ==> 1 <= Last(fs).id < pool.Length)
      modifies pool
      ensures pool[..] == SetHole(old(pool[..]), fs, q)
    {
      if fs != [] { assert nodes[k] == Last(fs).id && drcts[k] == Last(fs).right; }
      if drcts[k] {
        pool[nodes[k]] := pool[nodes[k]].(right := q);
      } else {
        pool[nodes[k]] := pool[nodes[k]].(left := q);
      }
    }

    /** One rotation: yNd, the child of the node at stack position k, takes that node's place. */
    method Spin(k: nat, yNd: int, ghost fs: Path, ghost t: Tree, fRed: bool, tRed: bool)
      requires nodes.Length == drcts.Length == MAX_TREE_HEIGHT
      requires 1 <= k && fs != [] && Joined(pool[..], fs, t, count) && StackHolds(nodes[..], drcts[..], k + 1, fs)
      requires t.Node? && yNd == t.id
      modifies pool
      ensures Joined(pool[..], Up(fs), Spun(Last(fs), t, fRed, tRed), count)
    {
      ghost var p0 := pool[..];
      SpinPool(p0, fs, t, count, fRed, tRed);
      assert nodes[k] == Last(fs).id && drcts[k] == Last(fs).right;
      var xNd := nodes[k];
      pool[xNd] := pool[xNd].(red := fRed);
      pool[yNd] := pool[yNd].(red := tRed);
      if drcts[k] {
        pool[xNd] := pool[xNd].(right := pool[yNd].left);
        pool[yNd] := pool[yNd].(left := xNd);
      } else {
        pool[xNd] := pool[xNd].(left := pool[yNd].right);
        pool[yNd] := pool[yNd].(right := xNd);
      }
      assert pool[..] == SpunPool(p0, xNd, yNd, Last(fs).right, fRed, tRed);
      SetChild(k - 1, yNd, Up(fs));
    }

    /** The rotation branch: turns the grandparent below its red child or grandchild. */
    method RotateUp(sl: nat, ghost fs: Path, ghost t: Tree)
      requires sl >= 3 && t.Node? && nodes.Length == drcts.Length == MAX_TREE_HEIGHT
      requires Joined(pool[..], fs, t, count) && StackHolds(nodes[..], drcts[..], sl, fs)
      modifies pool
      ensures Joined(pool[..], Up(Up(fs)), Rotated(fs, t), count)
    {
      assert nodes[sl-1] == Last(fs).id && drcts[sl-1] == Last(fs).right;
      assert nodes[sl-2] == Last(Up(fs)).id && drcts[sl-2] == Last(Up(fs)).right;
      JoinedAscend(pool[..], fs, t, count);
      var yNd := nodes[sl-1];
      if drcts[sl-1] != drcts[sl-2] {
        yNd := if drcts[sl-1] then pool[nodes[sl-1]].right else pool[nodes[sl-1]].left;
        Spin(sl - 1, yNd, fs, t, pool[nodes[sl-1]].red, pool[yNd].red);
      }
      Spin(sl - 2, yNd, Up(fs), Upper(fs, t), true, false);
    }

    /**
     * TreeInsert: adds the measures to the row with this key, or adds the row.  Valid() on
     * both sides carries the red-black laws, the key order and the pool accounting.
     */
    method TreeInsert(row: Row)
      requires Valid() && count < nNodesLimit
      requires |row.key| == nd && |row.meas| == nm
      modifies this`count, this`memaddr, this`freeNodeCounter, this`memoryIsFull, this`shape, pool, nodes, drcts
      ensures Valid()
      ensures Rows() == InsertRow(old(Rows()), row)
      ensures count == old(count) || count == old(count) + 1
      ensures memoryIsFull <==> count == nNodesLimit
    {
      EmptyTree();
      hide RBTree.Valid;
      if pool[HEADER].left == NIL {
        InsertFirst(row);
      } else {
        InsertBelow(row);
      }
    }

    /** TreeInsert on a tree that has a root. */
    method InsertBelow(row: Row)
      requires Valid() && count < nNodesLimit && shape.Node?
      requires |row.key| == nd && |row.meas| == nm
      modifies this`count, this`memaddr, this`freeNodeCounter, this`memoryIsFull, this`shape, pool, nodes, drcts
      ensures Valid() && Rows() == InsertRow(old(Rows()), row)
      ensures count == old(count) || count == old(count) + 1
      ensures memoryIsFull <==> count == nNodesLimit
    {
      hide Joined; hide InOrder; hide Balanced; hide NoRedRed; hide InsertRow;
      InsertShaped(InOrder(shape), row);
      InsertSorted(InOrder(shape), row);
      var sl, xNd, hit;
      ghost var fs, t;
      sl, xNd, hit, fs, t := Descend(row);
      if hit {
        AddToNode(row, xNd, fs, t);
      } else {
        AddLeaf(row, sl, xNd, fs);
      }
    }

    /** The equal-key branch: the measures are added in place. */
    method AddToNode(row: Row, xNd: int, ghost fs: Path, ghost t: Tree)
      requires Joined(pool[..], fs, t, count) && t.Node? && xNd == t.id && t.row.key == row.key
      requires RedBlack(shape) && Descending(shape, fs, t, row.key)
      requires Shaped(InOrder(shape), |row.meas|) && Sorted(InOrder(shape))
      modifies this`shape, pool
      ensures Joined(pool[..], [], shape, count) && RedBlack(shape)
      ensures InOrder(shape) == InsertRow(old(InOrder(shape)), row) && |InOrder(shape)| == |old(InOrder(shape))|
    {
      AddShape(shape, fs, t, row);
      ghost var x := Row(AddMeasures(t.row.meas, row.meas), row.key);
      AddPool(pool[..], fs, t, count, x);
      pool[xNd] := pool[xNd].(row := Row(AddMeasures(pool[xNd].row.meas, row.meas), pool[xNd].row.key));
      shape := Zip(fs, t.(row := x));
    }

    /** The new-key branch: links a new red leaf below xNd and restores the laws. */
    method AddLeaf(row: Row, sl: nat, xNd: int, ghost fs: Path)
      requires Sized() && Taken(count) && count < nNodesLimit
      requires Joined(pool[..], fs, Leaf, count) && fs != [] && xNd == Last(fs).id
      requires RedBlack(shape) && Descending(shape, fs, Leaf, row.key) && Shaped(InOrder(shape), |row.meas|)
      requires StackHolds(nodes[..], drcts[..], sl, fs)
      modifies this`shape, this`count, this`memaddr, this`freeNodeCounter, this`memoryIsFull, pool
      ensures Taken(count) && count == old(count) + 1
      ensures Joined(pool[..], [], shape, count) && RedBlack(shape)
      ensures InOrder(shape) == InsertRow(old(InOrder(shape)), row) && |InOrder(shape)| == |old(InOrder(shape))| + 1
    {
      NewLeafFixing(shape, fs, row, count + 1);
      assert drcts[sl-1] == Last(fs).right;
      var mp := LinkLeaf(row, xNd, drcts[sl-1], fs);
      ghost var whole := Rebalance(sl, fs, NewLeaf(mp, row), InsertRow(InOrder(shape), row));
      shape := BlackRoot(whole);
    }

    lemma EmptyTree()
      requires Valid()
      ensures pool.Length > 0 && (pool[HEADER].left == NIL <==> shape.Leaf?)
    {
    }

    /** The first row of an empty tree becomes its black root. */
    method InsertFirst(row: Row)
      requires Valid() && count < nNodesLimit && shape.Leaf?
      requires |row.key| == nd && |row.meas| == nm
      modifies this`count, this`memaddr, this`freeNodeCounter, this`memoryIsFull, this`shape, pool
      ensures Valid() && Rows() == InsertRow(old(Rows()), row) && count == old(count) + 1
      ensures memoryIsFull <==> count == nNodesLimit
    {
      var mp := NewTreeNode(count);
      count := count + 1;
      pool[HEADER] := pool[HEADER].(left := mp);
      pool[mp] := TreeNode(NIL, NIL, false, row);
      shape := Node(Leaf, mp, false, row, Leaf);
      assert InOrder(shape) == [row];
    }

    /** tree->root.left->clr = BLACK */
    method BlackRoot(ghost whole: Tree) returns (ghost black: Tree)
      requires pool.Length > 0 && Joined(pool[..], [], whole, count) && whole.Node?
      requires Balanced(whole) && NoRedRed(whole)
      modifies pool
      ensures Joined(pool[..], [], black, count)
      ensures RedBlack(black) && InOrder(black) == InOrder(whole)
    {
      var r := pool[HEADER].left;
      assert whole.id in Ids(whole);
      JoinedPaint(pool[..], [], whole, count, whole.id, false);
      PaintedKeeps(whole, whole.id, false);
      PaintedElsewhere(whole.l, whole.id, false);
      PaintedElsewhere(whole.r, whole.id, false);
      pool[r] := pool[r].(red := false);
      black := Painted(whole, whole.id, false);
    }
  }
}
