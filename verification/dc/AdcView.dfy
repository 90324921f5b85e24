/**
 * extbuild.c: computing one view.  RunFormation aggregates the selected rows in the tree and
 * spills sorted runs when its pool is full; MultiWayMerge merges the runs through one buffer
 * slot per run.  Both ways end with the same rows in the view file.
 */
module AdcView {
  import opened Rows
  import opened Arith
  import opened TreeShape
  import opened RedBlackTree
  import opened Records
  import opened Runs
  import opened Checksums

  const MAX_NUM_OF_CHUNKS := 1024

  datatype Code = ADC_OK | ADC_INTERNAL_ERROR

  /** A uint32 product. */
  function Mul32(n: nat, size: nat): nat {
    Mul(n, size) % UINT32
  }

  /** Rows of one chunk never fill 2^32 bytes: each took a larger tree node. */
  lemma ChunkBytes(n: nat, nd: nat, nm: nat, memory: nat)
    requires nd >= 1 && memory < UINT32 && n <= Fit(memory, NodeSize(nd, nm))
    ensures Mul32(n, 4 * nd + 8 * nm) == Times(n, 4 * nd + 8 * nm)
  {
    hide NodeSize; hide Times; hide Fit; hide Mul;
    TimesSize(n, 4 * nd + 8 * nm, NodeSize(nd, nm));
    TimesMonotone(n, Fit(memory, NodeSize(nd, nm)), NodeSize(nd, nm));
    FitBound(memory, NodeSize(nd, nm));
  }

  /** Room for 1024 trees' worth of rows, and a record in each of 1024 buffer slots. */
  ghost predicate Ample(nRows: nat, nd: nat, nm: nat, memory: nat)
    requires nd >= 1
  {
    && nRows < Times(MAX_NUM_OF_CHUNKS, Fit(memory, NodeSize(nd, nm)))
    && Fit(Fit(memory, MAX_NUM_OF_CHUNKS), 4 * nd + 8 * nm) > 0
  }

  /** RunFormation's limits on rows of nv dimensions, and MultiWayMerge's on the runs they make. */
  ghost predicate Sortable(rows: seq<Row>, nv: nat, nm: nat, memory: nat)
    requires nv >= 1 && Shaped(rows, nm)
  {
    var f := FormedRuns(rows, nm, Fit(memory, NodeSize(nv, nm)));
    && f.spilled < 1024
    && (RunCount(f) > 0 ==> Fit(Fit(memory, RunCount(f)), 4 * nv + 8 * nm) > 0)
  }

  lemma AmpleSorts(rows: seq<Row>, nv: nat, nd: nat, nm: nat, memory: nat)
    requires 1 <= nv <= nd && Shaped(rows, nm) && Ample(|rows|, nd, nm, memory)
    ensures Sortable(rows, nv, nm, memory)
  {
    var limit, limit0 := Fit(memory, NodeSize(nv, nm)), Fit(memory, NodeSize(nd, nm));
    var f := FormedRuns(rows, nm, limit);
    SpillBound(rows, nm, limit);
    FitSmaller(memory, NodeSize(nv, nm), NodeSize(nd, nm));
    TimesSize(MAX_NUM_OF_CHUNKS, limit0, limit);
    if f.spilled >= MAX_NUM_OF_CHUNKS { TimesMonotone(MAX_NUM_OF_CHUNKS, f.spilled, limit); }
    if RunCount(f) > 0 {
      FitSmaller(memory, RunCount(f), MAX_NUM_OF_CHUNKS);
      FitMonotone(Fit(memory, MAX_NUM_OF_CHUNKS), Fit(memory, RunCount(f)), 4 * nd + 8 * nm);
      FitSmaller(Fit(memory, RunCount(f)), 4 * nv + 8 * nm, 4 * nd + 8 * nm);
    }
  }

  // ---------------------------------------------------------------------------
  // The buffer during the merge
  // ---------------------------------------------------------------------------

  /** Buffer slot i: size records from record i*size on. */
  ghost function Slot(buf: seq<Row>, i: nat, size: nat): seq<Row>
    requires Times(i, size) + size <= |buf|
  {
    buf[Times(i, size)..Times(i, size) + size]
  }

  lemma SlotBounds(i: nat, n: nat, size: nat)
    requires i < n
    ensures Times(i, size) + size <= Times(n, size)
  {
    TimesMonotone(i + 1, n, size);
  }

  /** Chunk table, buffer and chunk file together hold the unread part of every run. */
  ghost predicate Buffered(chunks: seq<Chunk>, rest: seq<seq<Row>>, buf: seq<Row>, firsts: seq<nat>,
                           file: seq<Row>, size: nat, recSize: nat)
  {
    && |rest| == |firsts| <= |chunks|
    && |buf| == Times(|rest|, size)
    && forall i :: 0 <= i < |rest| ==>
        Times(i, size) + size <= |buf| &&
        Holds(chunks[i], rest[i], Slot(buf, i, size), file, firsts[i], recSize)
  }

  /** Buffer writes into one slot leave the others alone. */
  ghost predicate OnlySlot(b0: seq<Row>, b1: seq<Row>, i: nat, size: nat) {
    && |b0| == |b1|
    && Times(i, size) + size <= |b0|
    && b1[..Times(i, size)] == b0[..Times(i, size)]
    && b1[Times(i, size) + size..] == b0[Times(i, size) + size..]
  }

  /** A short last read fills the end of its slot. */
  lemma ShortRead(c: Chunk, b0: seq<Row>, b1: seq<Row>, rest: seq<Row>, file: seq<Row>, first: nat, i: nat, size: nat, recSize: nat)
    requires 0 < c.curChunkNum < size && first + c.curChunkNum <= |file| && rest == file[first..first + c.curChunkNum]
    requires Times(i, size) + size <= |b0|
    requires var k := Times(i, size) + (size - c.curChunkNum);
      b1 == b0[..k] + rest + b0[k + c.curChunkNum..]
    ensures OnlySlot(b0, b1, i, size)
    ensures Holds(Chunk(0, -1, size - c.curChunkNum, c.curChunkNum), rest, Slot(b1, i, size), file, first + c.curChunkNum, recSize)
  {
    hide Times;
    assert Slot(b1, i, size)[size - c.curChunkNum..] == rest;
  }

  /** A full read fills its slot. */
  lemma FullRead(c: Chunk, b0: seq<Row>, b1: seq<Row>, rest: seq<Row>, file: seq<Row>, first: nat, i: nat, size: nat, recSize: nat)
    requires 0 < size <= c.curChunkNum && first + c.curChunkNum <= |file| && rest == file[first..first + c.curChunkNum]
    requires Times(i, size) + size <= |b0| && c.chunkOffset == Times(first, recSize)
    requires var k := Times(i, size); b1 == b0[..k] + file[first..first + size] + b0[k + size..]
    ensures OnlySlot(b0, b1, i, size)
    ensures Holds(Chunk(c.curChunkNum - size, c.chunkOffset + Times(size, recSize), 0, size), rest, Slot(b1, i, size), file, first + size, recSize)
  {
    hide Times;
    TimesAdd(first, size, recSize);
    assert Slot(b1, i, size) == file[first..first + size];
    assert rest == file[first..first + size] + file[first + size..first + c.curChunkNum];
  }

  lemma OtherSlots(b0: seq<Row>, b1: seq<Row>, i: nat, j: nat, size: nat, n: nat)
    requires OnlySlot(b0, b1, i, size) && i < n && j < n && i != j && |b0| == Times(n, size)
    ensures Times(j, size) + size <= |b0| && Slot(b1, j, size) == Slot(b0, j, size)
  {
    SlotBounds(j, n, size);
    var at, end := Times(j, size), Times(i, size) + size;
    if j < i {
      SlotBounds(j, i, size);
      SliceOfSlice(b0, 0, Times(i, size), at, size);
      SliceOfSlice(b1, 0, Times(i, size), at, size);
    } else {
      SlotBounds(i, j, size);
      SliceOfSlice(b0, end, |b0| - end, at - end, size);
      SliceOfSlice(b1, end, |b1| - end, at - end, size);
    }
  }

  /** All buffer slots together fit the memory pool. */
  lemma BufferFits(memory: nat, n: nat, recSize: nat)
    requires n > 0 && recSize > 0
    ensures Times(Times(n, Fit(Fit(memory, n), recSize)), recSize) <= memory
  {
    var slot := Fit(memory, n);
    var size := Fit(slot, recSize);
    TimesTimes(n, size, recSize);
    FitBound(slot, recSize);
    TimesSize(n, Times(size, recSize), slot);
    TimesCommute(n, slot);
    FitBound(memory, n);
  }

  // ---------------------------------------------------------------------------
  // One view
  // ---------------------------------------------------------------------------

  class View {
    const nm: nat
    const nTopDims: nat
    const memoryLimit: nat
    const tree: RBTree
    const chunksParams: array<Chunk>
    const inpf: seq<Row>        // input file, in records
    var inpPos: nat             // its cursor
    var viewFile: seq<Word>     // view file, in four-byte words
    var viewPos: nat            // its cursor, in bytes
    var fileOfChunks: seq<Row>  // chunk file since the last rewind, in records
    var numberOfChunks: nat
    var nd: nat                 // dimensions of the rows read
    var nv: nat                 // dimensions of the view
    var selection: seq<nat>
    var inpRecSize: nat
    var outRecSize: nat
    var nRowsToRead: nat
    var fromParent: bool
    var nViewRows: nat
    var totalOfViewRows: nat
    var mSums: seq<int>
    var checksums: seq<int>

    /** NewAdcViewCntl: empty view and chunk files, an empty tree of the given memory. */
    constructor (nTopDims: nat, nm: nat, memoryLimit: nat, input: seq<Row>)
      requires 1 <= nTopDims && NodeSize(nTopDims, nm) <= memoryLimit < UINT32
      ensures Stable() && viewFile == [] && fileOfChunks == [] && inpPos == 0 && numberOfChunks == 0
      ensures inpf == input && this.nTopDims == nTopDims && this.nm == nm
      ensures fresh(tree) && fresh(tree.pool) && fresh(tree.nodes) && fresh(tree.drcts) && fresh(chunksParams)
    {
      this.nTopDims := nTopDims;
      this.nm := nm;
      this.memoryLimit := memoryLimit;
      this.inpf := input;
      tree := new RBTree(nTopDims, nm, memoryLimit);
      chunksParams := new Chunk[MAX_NUM_OF_CHUNKS](_ => Chunk(0, 0, 0, 0));
      inpPos, viewFile, viewPos, fileOfChunks, numberOfChunks := 0, [], 0, [], 0;
      nd, nv, selection := nTopDims, nTopDims, seq(nTopDims, i => i + 1);
      inpRecSize, outRecSize := 4 * nTopDims + 8 * nm, 4 * nTopDims + 8 * nm;
      nRowsToRead, fromParent, nViewRows, totalOfViewRows := 0, false, 0, 0;
      mSums, checksums := Zeros(nm), Zeros(nm);
    }

    /** What stays fixed between views. */
    ghost predicate Stable() {
      && 1 <= nTopDims && memoryLimit < UINT32
      && NodeSize(nTopDims, nm) <= memoryLimit
      && tree.memoryLimit == memoryLimit
      && tree.pool.Length >= Fit(memoryLimit, 32) + 1
      && tree.nodes.Length == tree.drcts.Length == MAX_TREE_HEIGHT
      && chunksParams.Length == MAX_NUM_OF_CHUNKS
    }

    /** InitAdcViewCntl has been called for the next view. */
    ghost predicate Ready()
      reads this, tree
    {
      && Stable()
      && 1 <= nv <= nTopDims && |selection| == nv
      && (forall i :: 0 <= i < nv ==> 1 <= selection[i] <= nd)
      && inpRecSize == 4 * nd + 8 * nm && outRecSize == 4 * nv + 8 * nm
      && numberOfChunks == 0 && fileOfChunks == [] && nViewRows == 0
      && mSums == Zeros(nm) && checksums == Zeros(nm)
    }

    /** The rows the file cursor stands before. */
    ghost predicate Source(src: seq<Row>)
      reads this
    {
      && |src| == nRowsToRead && Uniform(src, nd, nm)
      && (fromParent ==> StoredAt(viewFile, viewPos, src))
      && (!fromParent ==> inpPos + |src| <= |inpf| && inpf[inpPos..inpPos + |src|] == src)
    }

    // -------------------------------------------------------------------------
    // Reading rows
    // -------------------------------------------------------------------------

    /** SelectToView: copies the measures and picks the selected dimensions. */
    method SelectToView(ib: Row) returns (viewBuf: Row)
      requires |ib.key| == nd && |selection| == nv
      requires forall i :: 0 <= i < nv ==> 1 <= selection[i] <= nd
      ensures viewBuf == ProjectRow(ib, selection)
    {
      var key := [];
      var i := 0;
      while i < nv
        invariant 0 <= i <= nv && |key| == i
        invariant forall j :: 0 <= j < i ==> key[j] == ib.key[selection[j]-1]
      {
        key := key + [ib.key[selection[i]-1]];
        i := i + 1;
      }
      viewBuf := Row(ib.meas, key);
    }

    /** fread(attrs, inpRecSize, 1, inpf) on the parent's rows or the input file. */
    method ReadRow(ghost src: seq<Row>, ghost k: nat, ghost start: nat) returns (attrs: Row)
      requires k < |src| && Uniform(src, nd, nm)
      requires inpRecSize == 4 * nd + 8 * nm
      requires fromParent ==> StoredAt(viewFile, start, src) && viewPos == start + 4 * Times(k, Width(nd, nm))
      requires !fromParent ==> start + |src| <= |inpf| && inpf[start..start + |src|] == src && inpPos == start + k
      modifies this`viewPos, this`inpPos
      ensures attrs == src[k]
      ensures fromParent ==> viewPos == start + 4 * Times(k + 1, Width(nd, nm)) && inpPos == old(inpPos)
      ensures !fromParent ==> inpPos == start + k + 1 && viewPos == old(viewPos)
    {
      if fromParent {
        ReadRecord(viewFile, start, src, nd, nm, k);
        attrs := Decode(viewFile[viewPos / 4..viewPos / 4 + inpRecSize / 4], nm);
        viewPos := viewPos + inpRecSize;
      } else {
        assert inpf[start + k] == inpf[start..start + |src|][k];
        attrs := inpf[inpPos];
        inpPos := inpPos + 1;
      }
    }

    // -------------------------------------------------------------------------
    // Run formation
    // -------------------------------------------------------------------------

    /** WriteChunkToDisk: an in-order walk that appends the rows to the chunk file. */
    method WriteChunkToDisk(t: int, ghost shape: Tree)
      requires Represents(tree.pool[..], t, shape)
      modifies this`fileOfChunks
      ensures fileOfChunks == old(fileOfChunks) + InOrder(shape)
      decreases shape
    {
      if t == NIL { return; }
      WriteChunkToDisk(tree.pool[t].left, shape.l);
      fileOfChunks := fileOfChunks + [tree.pool[t].row];
      WriteChunkToDisk(tree.pool[t].right, shape.r);
    }

    /** What RunFormation's loop keeps: runs on file, the rest in the tree. */
    ghost predicate Forming(runs: seq<seq<Row>>, read: seq<Row>)
      reads this`numberOfChunks, this`nv, this`fileOfChunks, this`outRecSize
      reads tree, tree.pool, tree.nodes, tree.drcts, chunksParams
    {
      && tree.Valid() && tree.nd == nv && tree.nm == nm && !tree.memoryIsFull
      && tree.nNodesLimit == Fit(memoryLimit, NodeSize(nv, nm))
      && Spilled(runs)
      && SameGroups(fileOfChunks + tree.Rows(), read)
      && Shaped(read, nm) && FormedRuns(read, nm, tree.nNodesLimit) == Formed(|runs|, tree.Rows())
    }

    /** What RunFormation makes of the source rows. */
    ghost function Forms(src: seq<Row>): Formed
      requires nv >= 1 && Shaped(Project(src, selection), nm)
      reads this`nv, this`selection
    {
      FormedRuns(Project(src, selection), nm, Fit(memoryLimit, NodeSize(nv, nm)))
    }

    /** The chunk file and table describe these runs. */
    ghost predicate Spilled(runs: seq<seq<Row>>)
      reads this`numberOfChunks, this`nv, this`fileOfChunks, this`outRecSize, chunksParams
    {
      && numberOfChunks == |runs| <= chunksParams.Length
      && SortedRuns(runs, nv, nm) && fileOfChunks == Flatten(runs)
      && Recorded(chunksParams[..], runs, outRecSize)
    }

    lemma InsertForms(a: seq<Row>, t: seq<Row>, r: Row, read: seq<Row>)
      requires Shaped(t, |r.meas|) && SameGroups(a + t, read)
      ensures SameGroups(a + InsertRow(t, r), read + [r])
    {
      forall k: Key ensures HasKey(a + InsertRow(t, r), Is(k)) <==> HasKey(read + [r], Is(k)) {
        InsertHasKey(t, r, Is(k));
        HasKeyAppend(a, InsertRow(t, r), Is(k));
        HasKeyAppend(a, t, Is(k));
        HasKeyAppend(read, [r], Is(k));
        assert [r][0] == r;
      }
      forall k: Key, i: nat ensures Total(a + InsertRow(t, r), Is(k), i) == Total(read + [r], Is(k), i) {
        InsertTotal(t, r, Is(k), i);
        TotalAppend(a, InsertRow(t, r), Is(k), i);
        TotalAppend(a, t, Is(k), i);
        TotalAppend(read, [r], Is(k), i);
        assert [r][1..] == [];
      }
    }

    /** Records the tree as the next chunk and writes it out in key order. */
    method SpillTree(chunkOffset: nat, ghost runs: seq<seq<Row>>) returns (ghost runs': seq<seq<Row>>)
      requires tree.Valid() && tree.nd == nv && tree.nm == nm && tree.count > 0
      requires Spilled(runs) && |runs| < chunksParams.Length
      requires chunkOffset == Times(|fileOfChunks|, outRecSize)
      modifies this`fileOfChunks, this`numberOfChunks, chunksParams
      ensures runs' == runs + [tree.Rows()] && Spilled(runs')
      ensures fileOfChunks == old(fileOfChunks) + tree.Rows()
    {
      ghost var c0 := chunksParams[..];
      chunksParams[numberOfChunks] := chunksParams[numberOfChunks].(curChunkNum := tree.count, chunkOffset := chunkOffset);
      RecordedSnoc(c0, runs, tree.Rows(), outRecSize, chunksParams[numberOfChunks]);
      assert chunksParams[..] == c0[numberOfChunks := chunksParams[numberOfChunks]];
      numberOfChunks := numberOfChunks + 1;
      WriteChunkToDisk(tree.pool[HEADER].left, tree.shape);
      FlattenSnoc(runs, tree.Rows());
      runs' := runs + [tree.Rows()];
    }

    /** The memory-full branch: spills the tree and empties it, unless the table is full. */
    method SpillFull(chunkOffset0: nat, ghost runs: seq<seq<Row>>)
      returns (rc: Code, chunkOffset: nat, ghost runs': seq<seq<Row>>)
      requires Stable() && 1 <= nv && outRecSize == 4 * nv + 8 * nm
      requires tree.Valid() && tree.nd == nv && tree.nm == nm && tree.count > 0
      requires tree.nNodesLimit == Fit(memoryLimit, NodeSize(nv, nm))
      requires Spilled(runs) && numberOfChunks < MAX_NUM_OF_CHUNKS
      requires chunkOffset0 == Times(|fileOfChunks|, outRecSize)
      modifies this`fileOfChunks, this`numberOfChunks, chunksParams, tree, tree.pool
      ensures rc == ADC_OK ==> Spilled(runs') && numberOfChunks < MAX_NUM_OF_CHUNKS
      ensures numberOfChunks == |runs| + 1 && (rc == ADC_OK ==> |runs'| == |runs| + 1)
      ensures rc == ADC_OK ==> fileOfChunks == old(fileOfChunks) + old(tree.Rows())
      ensures rc == ADC_OK ==> chunkOffset == Times(|fileOfChunks|, outRecSize)
      ensures rc == ADC_OK ==> tree.Valid() && tree.Rows() == [] && tree.nd == nv && tree.nm == nm && !tree.memoryIsFull
      ensures rc == ADC_OK ==> tree.nNodesLimit == Fit(memoryLimit, NodeSize(nv, nm))
      ensures rc != ADC_OK <==> numberOfChunks >= MAX_NUM_OF_CHUNKS
    {
      hide RBTree.Valid; hide RBTree.Rows; hide Fit; hide NodeSize; hide Times; hide Flatten; hide SortedRuns; hide Recorded;
      CountLimit();
      rc := ADC_OK;
      var n, bytes := |fileOfChunks|, Mul32(tree.count, outRecSize);
      ChunkBytes(tree.count, nv, nm, memoryLimit);
      TimesAdd(n, tree.count, outRecSize);
      runs' := SpillTree(chunkOffset0, runs);
      chunkOffset := chunkOffset0;
      if numberOfChunks >= MAX_NUM_OF_CHUNKS {
        rc := ADC_INTERNAL_ERROR;
        return;
      }
      chunkOffset := chunkOffset0 + bytes;
      tree.InitializeTree(nv, nm);
    }

    /** Inserts one selected row; spills the tree when its pool has become full. */
    method AddRow(viewBuf: Row, chunkOffset0: nat, ghost runs: seq<seq<Row>>, ghost read: seq<Row>)
      returns (rc: Code, chunkOffset: nat, ghost runs': seq<seq<Row>>)
      requires Stable() && 1 <= nv && outRecSize == 4 * nv + 8 * nm
      requires Forming(runs, read) && numberOfChunks < MAX_NUM_OF_CHUNKS
      requires Fit(memoryLimit, NodeSize(nv, nm)) >= 1
      requires |viewBuf.key| == nv && |viewBuf.meas| == nm
      requires chunkOffset0 == Times(|fileOfChunks|, outRecSize)
      modifies this`fileOfChunks, this`numberOfChunks, chunksParams, tree, tree.pool, tree.nodes, tree.drcts
      ensures Shaped(read + [viewBuf], nm)
      ensures rc == ADC_OK ==> Forming(runs', read + [viewBuf]) && numberOfChunks < MAX_NUM_OF_CHUNKS
      ensures rc == ADC_OK ==> chunkOffset == Times(|fileOfChunks|, outRecSize)
      ensures rc != ADC_OK ==>
        FormedRuns(read + [viewBuf], nm, Fit(memoryLimit, NodeSize(nv, nm))).spilled >= MAX_NUM_OF_CHUNKS
    {
      hide Fit; hide NodeSize; hide Times; hide SortedRuns; hide Recorded; hide InsertRow; hide SameGroups; hide Flatten;
      rc, chunkOffset, runs' := ADC_OK, chunkOffset0, runs;
      assert (read + [viewBuf])[..|read|] == read;
      InsertForms(fileOfChunks, tree.Rows(), viewBuf, read);
      tree.TreeInsert(viewBuf);
      if tree.memoryIsFull {
        rc, chunkOffset, runs' := SpillFull(chunkOffset0, runs);
        assert fileOfChunks + [] == fileOfChunks;
      }
    }

    /** After the last row: a non-empty tree becomes the last run if there are runs at all. */
    method FinishRuns(chunkOffset: nat, ghost runs: seq<seq<Row>>, ghost view: seq<Row>)
      returns (ghost runs': seq<seq<Row>>)
      requires Forming(runs, view) && |runs| < chunksParams.Length && Shaped(view, nm) && nv >= 1
      requires chunkOffset == Times(|fileOfChunks|, outRecSize)
      modifies this`fileOfChunks, this`numberOfChunks, chunksParams, this`viewPos
      ensures old(numberOfChunks) == 0 ==> numberOfChunks == 0
      ensures numberOfChunks == 0 ==>
        tree.Valid() && tree.nd == nv && tree.nm == nm && tree.Rows() == Group(view, nm)
      ensures old(numberOfChunks) > 0 ==> numberOfChunks > 0 && Spilled(runs') && SameGroups(fileOfChunks, view)
      ensures numberOfChunks == RunCount(FormedRuns(view, nm, Fit(memoryLimit, NodeSize(nv, nm))))
      ensures viewPos == 4 * |viewFile|
    {
      runs' := runs;
      if numberOfChunks > 0 {
        assert tree.count == 0 ==> fileOfChunks + tree.Rows() == fileOfChunks;
        if tree.count != 0 {
          runs' := SpillTree(chunkOffset, runs);
        }
      } else {
        assert fileOfChunks + tree.Rows() == tree.Rows();
        GroupUnique(tree.Rows(), view, nm);
      }
      viewPos := 4 * |viewFile|;
    }

    /** One turn of RunFormation's loop: read a row, select its columns, insert it. */
    method FormRow(ghost src: seq<Row>, ghost k: nat, ghost start: nat, chunkOffset0: nat, ghost runs: seq<seq<Row>>)
      returns (rc: Code, chunkOffset: nat, ghost runs': seq<seq<Row>>)
      requires k < |src| && Uniform(src, nd, nm) && Cursor(src, k, start)
      requires Stable() && 1 <= nv && inpRecSize == 4 * nd + 8 * nm && outRecSize == 4 * nv + 8 * nm
      requires |selection| == nv && forall i :: 0 <= i < nv ==> 1 <= selection[i] <= nd
      requires Forming(runs, Project(src, selection)[..k]) && numberOfChunks < MAX_NUM_OF_CHUNKS
      requires Fit(memoryLimit, NodeSize(nv, nm)) >= 1
      requires chunkOffset0 == Times(|fileOfChunks|, outRecSize)
      modifies this`inpPos, this`viewPos, this`fileOfChunks, this`numberOfChunks
      modifies chunksParams, tree, tree.pool, tree.nodes, tree.drcts
      ensures rc == ADC_OK ==> Forming(runs', Project(src, selection)[..k + 1]) && numberOfChunks < MAX_NUM_OF_CHUNKS
      ensures rc == ADC_OK ==> chunkOffset == Times(|fileOfChunks|, outRecSize)
      ensures Shaped(Project(src, selection)[..k + 1], nm)
      ensures rc != ADC_OK ==>
        FormedRuns(Project(src, selection)[..k + 1], nm, Fit(memoryLimit, NodeSize(nv, nm))).spilled >= MAX_NUM_OF_CHUNKS
      ensures Cursor(src, k + 1, start)
      ensures fromParent ==> inpPos == old(inpPos)
    {
      hide RBTree.Valid; hide FormedRuns; hide SameGroups; hide View.Spilled; hide View.Stable; hide Fit;
      var attrs := ReadRow(src, k, start);
      var viewBuf := SelectToView(attrs);
      assert Project(src, selection)[..k] + [viewBuf] == Project(src, selection)[..k + 1];
      rc, chunkOffset, runs' := AddRow(viewBuf, chunkOffset0, runs, Project(src, selection)[..k]);
    }

    /** k source rows have been read; start is where the cursor stood before. */
    ghost predicate Cursor(src: seq<Row>, k: nat, start: nat)
      reads this`fromParent, this`viewFile, this`viewPos, this`inpPos, this`nd
    {
      && (fromParent ==> StoredAt(viewFile, start, src) && viewPos == start + 4 * Times(k, Width(nd, nm)))
      && (!fromParent ==> start + |src| <= |inpf| && inpf[start..start + |src|] == src && inpPos == start + k)
    }

    /** Before the first row: an empty tree, no runs. */
    method BeginRuns()
      requires Ready()
      modifies tree, tree.pool
      ensures Forming([], [])
    {
      tree.InitializeTree(nv, nm);
      assert fileOfChunks + tree.Rows() == [];
    }

    /** RunFormation's loop over the source rows. */
    method FormRuns(ghost src: seq<Row>, ghost start: nat)
      returns (rc: Code, chunkOffset: nat, ghost runs: seq<seq<Row>>)
      requires Stable() && 1 <= nv && inpRecSize == 4 * nd + 8 * nm && outRecSize == 4 * nv + 8 * nm
      requires |selection| == nv && forall i :: 0 <= i < nv ==> 1 <= selection[i] <= nd
      requires Fit(memoryLimit, NodeSize(nv, nm)) >= 1
      requires |src| == nRowsToRead && Uniform(src, nd, nm) && Cursor(src, 0, start)
      requires Forming([], []) && fileOfChunks == []
      modifies this`inpPos, this`viewPos, this`fileOfChunks, this`numberOfChunks
      modifies chunksParams, tree, tree.pool, tree.nodes, tree.drcts
      ensures rc == ADC_OK ==> Forming(runs, Project(src, selection)) && |runs| < chunksParams.Length
      ensures Shaped(Project(src, selection), nm) && (rc == ADC_OK <==> Forms(src).spilled < MAX_NUM_OF_CHUNKS)
      ensures rc == ADC_OK ==> chunkOffset == Times(|fileOfChunks|, outRecSize)
      ensures fromParent ==> inpPos == old(inpPos)
    {
      hide RBTree.Valid; hide View.Cursor; hide FormedRuns; hide Spilled; hide SameGroups; hide View.Stable; hide Fit;
      SpilledCount([]);
      chunkOffset := 0;
      rc, runs := ADC_OK, [];
      var iRec := 0;
      ghost var limit := Fit(memoryLimit, NodeSize(nv, nm));
      assert Project(src, selection)[..0] == [];
      StableSizes();
      while iRec < nRowsToRead
        invariant 0 <= iRec <= nRowsToRead && rc == ADC_OK
        invariant Forming(runs, Project(src, selection)[..iRec]) && numberOfChunks < MAX_NUM_OF_CHUNKS
        invariant chunkOffset == Times(|fileOfChunks|, outRecSize)
        invariant Cursor(src, iRec, start)
        invariant fromParent ==> inpPos == old(inpPos)
      {
        rc, chunkOffset, runs := FormRow(src, iRec, start, chunkOffset, runs);
        if rc != ADC_OK {
          assert Shaped(Project(src, selection), nm);
          SpillsGrow(Project(src, selection), iRec + 1, nm, limit);
          assert Forms(src).spilled >= MAX_NUM_OF_CHUNKS;
          return;
        }
        iRec := iRec + 1;
      }
      SpilledCount(runs);
      assert Project(src, selection)[..nRowsToRead] == Project(src, selection);
      assert Forms(src).spilled == |runs|;
    }

    /**
     * RunFormation: reads all source rows, selecting and aggregating.  Afterwards either the
     * tree holds the whole view, or the chunk file holds sorted runs with the same groups.
     */
    method RunFormation(ghost src: seq<Row>) returns (rc: Code, ghost runs: seq<seq<Row>>)
      requires Ready() && Source(src)
      modifies this`inpPos, this`viewPos, this`fileOfChunks, this`numberOfChunks
      modifies chunksParams, tree, tree.pool, tree.nodes, tree.drcts
      ensures rc == ADC_OK && numberOfChunks == 0 ==>
        tree.Valid() && tree.nd == nv && tree.nm == nm && tree.Rows() == Group(Project(src, selection), nm)
      ensures rc == ADC_OK && numberOfChunks > 0 ==>
        Spilled(runs) && SameGroups(fileOfChunks, Project(src, selection))
      ensures rc == ADC_OK <==> Forms(src).spilled < 1024
      ensures rc == ADC_OK ==> numberOfChunks == RunCount(Forms(src))
      ensures rc == ADC_OK ==> viewPos == 4 * |viewFile|
      ensures fromParent ==> inpPos == old(inpPos)
    {
      hide RBTree.Valid;
      OneNodeFits();
      BeginRuns();
      var chunkOffset;
      rc, chunkOffset, runs := FormRuns(src, if fromParent then viewPos else inpPos);
      if rc == ADC_OK {
        runs := FinishRuns(chunkOffset, runs, Project(src, selection));
      }
    }

    lemma StableSizes()
      requires Stable()
      ensures chunksParams.Length == MAX_NUM_OF_CHUNKS
    {
    }

    lemma SpilledCount(runs: seq<seq<Row>>)
      requires Spilled(runs)
      ensures numberOfChunks == |runs|
    {
    }

    lemma CountLimit()
      requires tree.Valid()
      ensures tree.count <= tree.nNodesLimit && tree.count == |tree.Rows()|
    {
    }

    lemma OneNodeFits()
      requires Ready()
      ensures Fit(memoryLimit, NodeSize(nv, nm)) >= 1
    {
    }

    // -------------------------------------------------------------------------
    // Writing a view
    // -------------------------------------------------------------------------

    /** The view file ends with these rows, and the sums cover them. */
    ghost predicate Written(base: seq<Word>, rows: seq<Row>, perMeasure: bool)
      reads this
    {
      && viewFile == base + EncodeAll(rows)
      && mSums == Sums(rows, nm) && checksums == Checks(rows, nm, perMeasure)
    }

    lemma WrittenSizes(base: seq<Word>, rows: seq<Row>, perMeasure: bool)
      requires Written(base, rows, perMeasure)
      ensures |mSums| == |checksums| == nm
    {
    }

    /** Sums and checksums of a written view, as sums over its rows. */
    ghost predicate Summed(rows: seq<Row>, perMeasure: bool)
      reads this`mSums, this`checksums
    {
      && Shaped(rows, nm) && |mSums| == |checksums| == nm
      && (forall i :: 0 <= i < nm ==> mSums[i] == MeasureSum(rows, i, nm, |rows|))
      && (forall i :: 0 <= i < nm ==> checksums[i] == CheckSum(rows, i, nm, perMeasure, |rows|))
    }

    lemma WrittenIsSummed(base: seq<Word>, rows: seq<Row>, perMeasure: bool)
      requires Written(base, rows, perMeasure) && Shaped(rows, nm)
      ensures Summed(rows, perMeasure)
    {
      forall i | 0 <= i < nm
        ensures mSums[i] == MeasureSum(rows, i, nm, |rows|) && checksums[i] == CheckSum(rows, i, nm, perMeasure, |rows|)
      {
        SumsAre(rows, nm, i);
        ChecksAre(rows, nm, perMeasure, i);
      }
    }

    lemma WalkSummed(base: seq<Word>, done: seq<Row>, rows: seq<Row>)
      requires Written(base, done + rows, true) && Shaped(rows, nm)
      ensures Shaped(done, nm) ==> Summed(done + rows, true)
    {
      if Shaped(done, nm) { WrittenIsSummed(base, done + rows, true); }
    }

    /** The measure loop of WriteViewToDiskCS: the order number advances with every measure. */
    method AddMeasuresCS(row: Row, ordern0: nat, ghost n: nat) returns (ordern: nat)
      requires |mSums| == |checksums| == |row.meas| == nm && ordern0 == Times(n, nm)
      modifies this`mSums, this`checksums
      ensures mSums == AddMeasures(old(mSums), row.meas)
      ensures checksums == CheckRow(old(checksums), row, n, nm, true)
      ensures ordern == ordern0 + nm
    {
      ordern := ordern0;
      ghost var c := checksums;
      var i := 0;
      while i < nm
        invariant 0 <= i <= nm && ordern == ordern0 + i
        invariant |mSums| == |checksums| == nm
        invariant forall j :: 0 <= j < nm ==> mSums[j] == if j < i then old(mSums)[j] + row.meas[j] else old(mSums)[j]
        invariant checksums[..i] == CheckRow(c, row, n, nm, true)[..i] && checksums[i..] == c[i..]
      {
        mSums := mSums[i := mSums[i] + row.meas[i]];
        ordern := ordern + 1;
        assert ordern == Weight(n, i, nm, true) && checksums[i] == c[i..][0];
        checksums := checksums[i := checksums[i] + Share(ordern, row.meas[i])];
        assert CheckRow(c, row, n, nm, true)[..i+1] == CheckRow(c, row, n, nm, true)[..i] + [checksums[i]];
        i := i + 1;
      }
    }

    /** One row of WriteViewToDiskCS. */
    method WriteRowCS(row: Row, ordern0: nat, ghost base: seq<Word>, ghost done: seq<Row>) returns (ordern: nat)
      requires Written(base, done, true) && ordern0 == Times(|done|, nm) && |row.meas| == nm
      modifies this`viewFile, this`mSums, this`checksums
      ensures Written(base, done + [row], true) && ordern == Times(|done| + 1, nm)
      ensures |checksums| == |mSums| == nm && |old(checksums)| == |old(mSums)| == nm
      ensures forall i :: 0 <= i < nm ==> checksums[i] == old(checksums[i]) + (|done| * nm + i + 1) * row.meas[i] % 31415
      ensures forall i :: 0 <= i < nm ==> mSums[i] == old(mSums[i]) + row.meas[i]
    {
      hide CheckRow; hide Checks; hide Sums; hide Times; hide EncodeAll; hide Encode;
      WrittenSizes(base, done, true);
      forall i | 0 <= i < nm { CheckRowIs(checksums, row, |done|, nm, true, i); }
      TimesNext(|done|, nm);
      ordern := AddMeasuresCS(row, ordern0, |done|);
      viewFile := viewFile + Encode(row);
      AppendRecord(base, done, row);
      SumsSnoc(done, row, nm);
      ChecksSnoc(done, row, nm, true);
    }

    /** WriteViewToDiskCS: an in-order walk that appends the rows to the view file. */
    method WriteViewToDiskCS(t: int, ordern0: nat, ghost shape: Tree, ghost base: seq<Word>, ghost done: seq<Row>)
      returns (ordern: nat)
      requires Represents(tree.pool[..], t, shape) && Shaped(InOrder(shape), nm)
      requires Written(base, done, true) && ordern0 == Times(|done|, nm)
      modifies this`viewFile, this`mSums, this`checksums
      ensures Written(base, done + InOrder(shape), true)
      ensures Shaped(done, nm) ==> Summed(done + InOrder(shape), true)
      ensures ordern == Times(|done| + |InOrder(shape)|, nm)
      decreases shape
    {
      hide View.Summed; hide View.Written; hide Times; hide Shaped; hide RBTree.Valid; hide InOrder;
      RowsOfShape(shape, done);
      if t == NIL {
        WalkSummed(base, done, InOrder(shape));
        return ordern0;
      }
      ghost var l, r := InOrder(shape.l), InOrder(shape.r);
      ghost var done1 := done + l;
      ghost var done2 := done1 + [shape.row];
      ShapedParts(l, shape.row, r, nm);
      ordern := WriteViewToDiskCS(tree.pool[t].left, ordern0, shape.l, base, done);
      ordern := WriteRowCS(tree.pool[t].row, ordern, base, done1);
      ordern := WriteViewToDiskCS(tree.pool[t].right, ordern, shape.r, base, done2);
      WalkSummed(base, done, InOrder(shape));
    }

    static lemma RowsOfShape(shape: Tree, done: seq<Row>)
      ensures shape.Leaf? ==> done + InOrder(shape) == done && |InOrder(shape)| == 0
      ensures shape.Node? ==>
        && InOrder(shape) == InOrder(shape.l) + [shape.row] + InOrder(shape.r)
        && done + InOrder(shape) == done + InOrder(shape.l) + [shape.row] + InOrder(shape.r)
    {
    }

    static lemma ShapedParts(l: seq<Row>, x: Row, r: seq<Row>, nm: nat)
      requires Shaped(l + [x] + r, nm)
      ensures Shaped(l, nm) && |x.meas| == nm && Shaped(r, nm)
    {
      var s := l + [x] + r;
      assert forall j :: 0 <= j < |l| ==> s[j] == l[j];
      assert s[|l|] == x;
      assert forall j :: 0 <= j < |r| ==> s[|l| + 1 + j] == r[j];
    }

    /** The measure loop of MultiWayMerge: one order number per row. */
    method AddMeasuresMerged(row: Row, ghost n: nat)
      requires |mSums| == |checksums| == |row.meas| == nm && nViewRows == n + 1
      modifies this`mSums, this`checksums
      ensures mSums == AddMeasures(old(mSums), row.meas)
      ensures checksums == CheckRow(old(checksums), row, n, nm, false)
    {
      ghost var c := checksums;
      var i := 0;
      while i < nm
        invariant 0 <= i <= nm
        invariant |mSums| == |checksums| == nm
        invariant forall j :: 0 <= j < nm ==> mSums[j] == if j < i then old(mSums)[j] + row.meas[j] else old(mSums)[j]
        invariant checksums[..i] == CheckRow(c, row, n, nm, false)[..i] && checksums[i..] == c[i..]
      {
        mSums := mSums[i := mSums[i] + row.meas[i]];
        assert nViewRows == Weight(n, i, nm, false) && checksums[i] == c[i..][0];
        checksums := checksums[i := checksums[i] + Share(nViewRows, row.meas[i])];
        assert CheckRow(c, row, n, nm, false)[..i+1] == CheckRow(c, row, n, nm, false)[..i] + [checksums[i]];
        i := i + 1;
      }
    }

    /** A finished row of MultiWayMerge. */
    method WriteMerged(row: Row, ghost base: seq<Word>, ghost done: seq<Row>)
      requires Written(base, done, false) && nViewRows == |done| && |row.meas| == nm
      modifies this`viewFile, this`mSums, this`checksums, this`nViewRows
      ensures Written(base, done + [row], false) && nViewRows == |done| + 1
      ensures |checksums| == |mSums| == nm && |old(checksums)| == |old(mSums)| == nm
      ensures forall i :: 0 <= i < nm ==> checksums[i] == old(checksums[i]) + (|done| + 1) * row.meas[i] % 31415
      ensures forall i :: 0 <= i < nm ==> mSums[i] == old(mSums[i]) + row.meas[i]
    {
      hide CheckRow; hide Checks; hide Sums; hide EncodeAll; hide Encode;
      WrittenSizes(base, done, false);
      forall i | 0 <= i < nm { CheckRowIs(checksums, row, |done|, nm, false, i); }
      viewFile := viewFile + Encode(row);
      nViewRows := nViewRows + 1;
      AddMeasuresMerged(row, |done|);
      AppendRecord(base, done, row);
      SumsSnoc(done, row, nm);
      ChecksSnoc(done, row, nm, false);
    }

    // -------------------------------------------------------------------------
    // The merge
    // -------------------------------------------------------------------------

    /** SeekAndReadNextSubChunk: copies n records at a byte offset of the chunk file. */
    method SeekAndReadNextSubChunk(buf: array<Row>, k: nat, offset: int, n: nat, ghost first: nat)
      requires outRecSize > 0 && offset == Times(first, outRecSize)
      requires first + n <= |fileOfChunks| && k + n <= buf.Length
      modifies buf
      ensures buf[..] == old(buf[..k]) + fileOfChunks[first..first + n] + old(buf[k + n..])
    {
      SlotOfAddress(first, outRecSize);
      var at := offset / outRecSize;
      forall j | 0 <= j < n {
        buf[k + j] := fileOfChunks[at + j];
      }
    }

    /** How many records ReadSubChunk takes. */
    ghost function ReadSize(c: Chunk, size: nat): nat {
      if c.curChunkNum < size then c.curChunkNum else size
    }

    /**
     * ReadSubChunk: refills an empty slot of a run.  A short final read is right-aligned; a
     * run with nothing left on file is not touched.
     */
    method ReadSubChunk(buf: array<Row>, iChunk: nat, size: nat, ghost rest: seq<Row>, ghost first: nat, ghost n: nat)
      requires outRecSize > 0 && size > 0 && iChunk < n <= chunksParams.Length && buf.Length == Times(n, size)
      requires var c := chunksParams[iChunk];
        && first + c.curChunkNum <= |fileOfChunks|
        && (c.curChunkNum > 0 ==> c.chunkOffset == Times(first, outRecSize))
        && rest == fileOfChunks[first..first + c.curChunkNum]
      modifies buf, chunksParams
      ensures Times(iChunk, size) + size <= buf.Length
      ensures chunksParams[..] == old(chunksParams[..])[iChunk := chunksParams[iChunk]]
      ensures old(chunksParams[iChunk].curChunkNum) == 0 ==>
        chunksParams[iChunk] == old(chunksParams[iChunk]) && buf[..] == old(buf[..])
      ensures old(chunksParams[iChunk].curChunkNum) > 0 ==>
        && OnlySlot(old(buf[..]), buf[..], iChunk, size)
        && chunksParams[iChunk].curSubChunk > 0
        && chunksParams[iChunk].posSubChunk + chunksParams[iChunk].curSubChunk == size
        && Holds(chunksParams[iChunk], rest, Slot(buf[..], iChunk, size), fileOfChunks,
                 first + ReadSize(old(chunksParams[iChunk]), size), outRecSize)
    {
      hide Times; hide Holds; hide OnlySlot; hide Slot;
      SlotBounds(iChunk, n, size);
      ghost var c0, b0 := chunksParams[..], buf[..];
      var c := chunksParams[iChunk];
      if c.curChunkNum > 0 {
        if c.curChunkNum < size {
          var k := Mul(iChunk, size) + (size - c.curChunkNum);
          SeekAndReadNextSubChunk(buf, k, c.chunkOffset, c.curChunkNum, first);
          ShortRead(c, b0, buf[..], rest, fileOfChunks, first, iChunk, size, outRecSize);
          chunksParams[iChunk] := Chunk(0, -1, size - c.curChunkNum, c.curChunkNum);
        } else {
          SeekAndReadNextSubChunk(buf, Mul(iChunk, size), c.chunkOffset, size, first);
          FullRead(c, b0, buf[..], rest, fileOfChunks, first, iChunk, size, outRecSize);
          chunksParams[iChunk] := Chunk(c.curChunkNum - size, c.chunkOffset + Mul(size, outRecSize), 0, size);
        }
      }
      assert chunksParams[..] == c0[iChunk := chunksParams[iChunk]];
    }

    /** Chunks 0..k-1 are loaded for these rests; the table is as recorded from k on. */
    ghost predicate LoadedTo(k: nat, runs: seq<seq<Row>>, buf: seq<Row>, firsts: seq<nat>, size: nat)
      reads this, chunksParams
    {
      && |firsts| == |runs| <= chunksParams.Length && k <= |runs| && |buf| == Times(|runs|, size)
      && (forall i :: 0 <= i < k ==>
          Times(i, size) + size <= |buf| && Loaded(chunksParams[i]) &&
          Holds(chunksParams[i], runs[i], Slot(buf, i, size), fileOfChunks, firsts[i], outRecSize))
      && (forall i :: k <= i < |runs| ==>
          chunksParams[i].curChunkNum == |runs[i]| &&
          chunksParams[i].chunkOffset == Times(Start(runs, i), outRecSize))
    }

    /** The initial reads: every run gets its first sub-chunk. */
    method LoadBuffers(buf: array<Row>, size: nat, ghost runs: seq<seq<Row>>) returns (ghost firsts: seq<nat>)
      requires Spilled(runs) && outRecSize > 0 && size > 0 && buf.Length == Times(numberOfChunks, size)
      modifies buf, chunksParams
      ensures Buffered(chunksParams[..], runs, buf[..], firsts, fileOfChunks, size, outRecSize)
      ensures forall i :: 0 <= i < |runs| ==> Loaded(chunksParams[i])
    {
      firsts := seq(|runs|, i => 0);
      var i := 0;
      while i < numberOfChunks
        invariant 0 <= i <= numberOfChunks
        invariant LoadedTo(i, runs, buf[..], firsts, size)
      {
        firsts := LoadOne(i, buf, size, runs, firsts);
        i := i + 1;
      }
    }

    method LoadOne(i: nat, buf: array<Row>, size: nat, ghost runs: seq<seq<Row>>, ghost firsts0: seq<nat>)
      returns (ghost firsts: seq<nat>)
      requires fileOfChunks == Flatten(runs) && outRecSize > 0 && size > 0 && i < |runs| && runs[i] != []
      requires LoadedTo(i, runs, buf[..], firsts0, size)
      modifies buf, chunksParams
      ensures LoadedTo(i + 1, runs, buf[..], firsts, size)
    {
      hide Times; hide Flatten;
      RunInFile(runs, i);
      ghost var b0, c0, n := buf[..], chunksParams[..], |runs|;
      var num := chunksParams[i].curChunkNum;
      firsts := firsts0[i := Start(runs, i) + ReadSize(chunksParams[i], size)];
      ReadSubChunk(buf, i, size, runs[i], Start(runs, i), n);
      forall j | 0 <= j < i
        ensures Times(j, size) + size <= buf.Length && Slot(buf[..], j, size) == Slot(b0, j, size)
      {
        OtherSlots(b0, buf[..], i, j, size, n);
      }
      assert forall j :: 0 <= j < n && j != i ==> chunksParams[j] == c0[j];
    }

    /** What the selection loops read: which runs are non-empty and where their heads are. */
    ghost predicate Heads(buf: seq<Row>, chunks: seq<Chunk>, rest: seq<seq<Row>>, size: nat)
      reads this
    {
      && |rest| <= |chunks|
      && forall i :: 0 <= i < |rest| ==>
          && (rest[i] == [] <==> chunks[i].curSubChunk == 0)
          && (rest[i] != [] ==> Times(i, size) + chunks[i].posSubChunk < |buf|)
          && (rest[i] != [] ==> buf[Times(i, size) + chunks[i].posSubChunk] == rest[i][0])
          && (rest[i] != [] ==> |rest[i][0].key| == nv)
    }

    lemma HeadsInBuffer(chunks: seq<Chunk>, rest: seq<seq<Row>>, buf: seq<Row>, firsts: seq<nat>, size: nat)
      requires Buffered(chunks, rest, buf, firsts, fileOfChunks, size, outRecSize)
      requires forall i :: 0 <= i < |rest| ==> Loaded(chunks[i])
      requires SortedRests(rest, nv, nm)
      ensures Heads(buf, chunks, rest, size)
    {
      hide Times; hide Sorted;
      forall i | 0 <= i < |rest|
        ensures rest[i] == [] <==> chunks[i].curSubChunk == 0
        ensures rest[i] != [] ==> Times(i, size) + chunks[i].posSubChunk < |buf|
        ensures rest[i] != [] ==> buf[Times(i, size) + chunks[i].posSubChunk] == rest[i][0]
        ensures rest[i] != [] ==> |rest[i][0].key| == nv
      {
        HoldsHead(chunks[i], rest[i], Slot(buf, i, size), fileOfChunks, firsts[i], outRecSize);
      }
    }

    /** The first run with a buffered row. */
    method FirstNonEmpty(ghost buf: seq<Row>, size: nat, ghost rest: seq<seq<Row>>) returns (m: nat)
      requires numberOfChunks == |rest| <= chunksParams.Length && Heads(buf, chunksParams[..], rest, size)
      requires exists i :: 0 <= i < |rest| && rest[i] != []
      ensures m < |rest| && rest[m] != [] && forall i :: 0 <= i < m ==> rest[i] == []
    {
      hide Times;
      m := 0;
      while chunksParams[m].curSubChunk == 0
        invariant 0 <= m < |rest|
        invariant exists i :: m <= i < |rest| && rest[i] != []
        invariant forall i :: 0 <= i < m ==> rest[i] == []
        decreases |rest| - m
      {
        assert chunksParams[..][m] == chunksParams[m];
        m := m + 1;
      }
      assert chunksParams[..][m] == chunksParams[m];
    }

    /** Finds the run with the least head: the first non-empty one, then every smaller one. */
    method SelectLeast(buf: array<Row>, size: nat, ghost rest: seq<seq<Row>>) returns (m: nat, min_r_buf: Row)
      requires numberOfChunks == |rest| <= chunksParams.Length && Heads(buf[..], chunksParams[..], rest, size)
      requires exists i :: 0 <= i < |rest| && rest[i] != []
      ensures LeastHead(rest, m) && min_r_buf == rest[m][0]
    {
      hide Times;
      m := FirstNonEmpty(buf[..], size, rest);
      assert chunksParams[..][m] == chunksParams[m];
      min_r_buf := buf[Mul(m, size) + chunksParams[m].posSubChunk];
      var iChunk := m;
      while iChunk < numberOfChunks
        invariant iChunk <= numberOfChunks && m < |rest|
        invariant rest[m] != [] && min_r_buf == rest[m][0]
        invariant forall i :: 0 <= i < iChunk && rest[i] != [] ==> !Less(rest[i][0].key, min_r_buf.key)
      {
        assert chunksParams[..][iChunk] == chunksParams[iChunk];
        if chunksParams[iChunk].curSubChunk > 0 {
          var r_buf := buf[Mul(iChunk, size) + chunksParams[iChunk].posSubChunk];
          assert r_buf.key[..nv] == r_buf.key && min_r_buf.key[..nv] == min_r_buf.key;
          var compRes := KeyComp(r_buf.key, min_r_buf.key, nv);
          CompareFlip(r_buf.key, r_buf.key);
          if compRes < 0 {
            LowerAll(rest, iChunk, min_r_buf.key, r_buf.key);
            min_r_buf, m := r_buf, iChunk;
          }
        }
        iChunk := iChunk + 1;
      }
    }

    static lemma LowerAll(rest: seq<seq<Row>>, n: nat, old_min: Key, new_min: Key)
      requires n <= |rest| && Less(new_min, old_min)
      requires forall i :: 0 <= i < n && rest[i] != [] ==> !Less(rest[i][0].key, old_min)
      ensures forall i :: 0 <= i < n && rest[i] != [] ==> !Less(rest[i][0].key, new_min)
    {
      forall i | 0 <= i < n && rest[i] != [] ensures !Less(rest[i][0].key, new_min) {
        CompareFlip(new_min, old_min);
        NotLessTransitive(new_min, old_min, rest[i][0].key);
      }
    }

    /** Steps past the row just taken from run m. */
    method StepForward(m: nat, buf: array<Row>, size: nat, ghost rest: seq<seq<Row>>, ghost firsts: seq<nat>)
      requires m < |rest| <= chunksParams.Length && rest[m] != []
      requires Buffered(chunksParams[..], rest, buf[..], firsts, fileOfChunks, size, outRecSize)
      requires forall i :: 0 <= i < |rest| ==> Loaded(chunksParams[i])
      modifies chunksParams
      ensures Buffered(chunksParams[..], Advance(rest, m), buf[..], firsts, fileOfChunks, size, outRecSize)
      ensures forall i :: 0 <= i < |rest| && i != m ==> Loaded(chunksParams[i])
    {
      hide Times;
      HoldsHead(chunksParams[m], rest[m], Slot(buf[..], m, size), fileOfChunks, firsts[m], outRecSize);
      ghost var c0 := chunksParams[..];
      if chunksParams[m].curSubChunk != 0 {
        chunksParams[m] := chunksParams[m].(curSubChunk := chunksParams[m].curSubChunk - 1, posSubChunk := chunksParams[m].posSubChunk + 1);
      }
      assert chunksParams[..] == c0[m := chunksParams[m]];
    }

    /** Refills run m's slot if it ran empty. */
    method Refill(m: nat, buf: array<Row>, size: nat, ghost rest: seq<seq<Row>>, ghost firsts0: seq<nat>)
      returns (ghost firsts: seq<nat>)
      requires m < |rest| <= chunksParams.Length && outRecSize > 0 && size > 0
      requires Buffered(chunksParams[..], rest, buf[..], firsts0, fileOfChunks, size, outRecSize)
      requires forall i :: 0 <= i < |rest| && i != m ==> Loaded(chunksParams[i])
      modifies buf, chunksParams
      ensures Buffered(chunksParams[..], rest, buf[..], firsts, fileOfChunks, size, outRecSize)
      ensures forall i :: 0 <= i < |rest| ==> Loaded(chunksParams[i])
    {
      hide Times;
      firsts := firsts0;
      if chunksParams[m].curSubChunk == 0 {
        ghost var b0, c0, n := buf[..], chunksParams[..], |rest|;
        ghost var c := chunksParams[m];
        assert rest[m] == fileOfChunks[firsts0[m]..firsts0[m] + c.curChunkNum];
        ReadSubChunk(buf, m, size, rest[m], firsts0[m], n);
        if c.curChunkNum > 0 {
          firsts := firsts0[m := firsts0[m] + ReadSize(c, size)];
          forall j | 0 <= j < n && j != m ensures Times(j, size) + size <= |b0| && Slot(buf[..], j, size) == Slot(b0, j, size) {
            OtherSlots(b0, buf[..], m, j, size, n);
          }
        }
        assert forall j :: 0 <= j < n && j != m ==> chunksParams[j] == c0[j];
      }
    }

    /** The end test: no run has anything buffered or on file. */
    method AllEmpty(ghost buf: seq<Row>, ghost size: nat, ghost rest: seq<seq<Row>>, ghost firsts: seq<nat>) returns (empty: bool)
      requires numberOfChunks == |rest| <= chunksParams.Length
      requires Buffered(chunksParams[..], rest, buf, firsts, fileOfChunks, size, outRecSize)
      ensures empty <==> forall i :: 0 <= i < |rest| ==> rest[i] == []
    {
      hide Times;
      var numEmptyBufs, numEmptyRuns, i := 0, 0, 0;
      while i < numberOfChunks
        invariant 0 <= i <= numberOfChunks && numEmptyBufs <= i && numEmptyRuns <= i
        invariant numEmptyBufs == i && numEmptyRuns == i <==> forall j :: 0 <= j < i ==> rest[j] == []
      {
        HoldsHead(chunksParams[i], rest[i], Slot(buf, i, size), fileOfChunks, firsts[i], outRecSize);
        if chunksParams[i].curSubChunk == 0 { numEmptyBufs := numEmptyBufs + 1; }
        if chunksParams[i].curChunkNum == 0 { numEmptyRuns := numEmptyRuns + 1; }
        i := i + 1;
      }
      empty := numEmptyBufs == numberOfChunks && numEmptyRuns == numberOfChunks;
    }

    /** Everything but the last output row is written; the last one is pending. */
    ghost predicate Pending(base: seq<Word>, done: seq<Row>, first_one: bool, outputBuffer: Row)
      reads this
    {
      && (first_one <==> done == [])
      && (done != [] ==> outputBuffer == done[|done|-1])
      && var front := if done == [] then [] else done[..|done|-1];
         Written(base, front, false) && nViewRows == |front|
    }

    /** Aggregates the row into the pending one, or writes that out and makes it pending. */
    method EmitRow(first0: bool, out0: Row, row: Row, ghost base: seq<Word>, ghost done: seq<Row>)
      returns (first_one: bool, outputBuffer: Row)
      requires Pending(base, done, first0, out0) && |row.meas| == nm && |row.key| == nv
      requires done != [] ==> |out0.meas| == nm && |out0.key| == nv
      modifies this`viewFile, this`mSums, this`checksums, this`nViewRows
      ensures Pending(base, Emit(done, row), first_one, outputBuffer)
    {
      first_one, outputBuffer := false, row;
      if !first0 {
        assert out0.key[..nv] == out0.key && row.key[..nv] == row.key;
        var compRes := KeyComp(out0.key, row.key, nv);
        CompareFlip(out0.key, row.key);
        if compRes == 0 {
          outputBuffer := Row(AddMeasures(out0.meas, row.meas), out0.key);
        } else {
          assert done[..|done|-1] + [out0] == done;
          WriteMerged(out0, base, done[..|done|-1]);
        }
      }
    }

    /**
     * MultiWayMerge: merges the sorted runs and adds equal keys, through one buffer slot of
     * regSubChunkSize records per run.  The view file receives exactly the group-by-sum.
     */
    method MultiWayMerge(ghost runs: seq<seq<Row>>, ghost rows: seq<Row>) returns (rc: Code)
      requires Stable() && Spilled(runs) && numberOfChunks > 0 && nViewRows == 0
      requires outRecSize == 4 * nv + 8 * nm && 1 <= nv
      requires mSums == Zeros(nm) && checksums == Zeros(nm)
      requires Shaped(rows, nm) && SameGroups(fileOfChunks, rows)
      modifies this`viewFile, this`mSums, this`checksums, this`nViewRows, this`totalOfViewRows, chunksParams
      ensures rc == ADC_OK ==>
        Written(old(viewFile), Group(rows, nm), false) && nViewRows == |Group(rows, nm)|
      ensures rc == ADC_OK <==> Fit(Fit(memoryLimit, numberOfChunks), outRecSize) > 0
      ensures rc != ADC_OK ==> viewFile == old(viewFile)
    {
      var regSubChunkSize := Div(Div(memoryLimit, numberOfChunks), outRecSize);
      if regSubChunkSize == 0 {
        return ADC_INTERNAL_ERROR;
      }
      BufferFits(memoryLimit, numberOfChunks, outRecSize);
      var multiChunkBuffer := new Row[Mul(numberOfChunks, regSubChunkSize)](_ => Row([], []));
      MergeStart(runs, nv, nm);
      MergeRuns(multiChunkBuffer, regSubChunkSize, runs, rows);
      totalOfViewRows := totalOfViewRows + nViewRows;
      return ADC_OK;
    }

    /** The merge loop's state: buffers loaded, runs sorted, output consistent. */
    ghost predicate AtLoopHead(buf: seq<Row>, size: nat, rest: seq<seq<Row>>, firsts: seq<nat>,
                               done: seq<Row>, all: seq<Row>)
      reads this, chunksParams
    {
      && numberOfChunks == |rest| <= chunksParams.Length
      && Buffered(chunksParams[..], rest, buf, firsts, fileOfChunks, size, outRecSize)
      && (forall i :: 0 <= i < |rest| ==> Loaded(chunksParams[i]))
      && Merging(done, rest, all, nv, nm)
      && exists i :: 0 <= i < |rest| && rest[i] != []
    }

    /** One turn of the merge loop. */
    method MergeOne(buf: array<Row>, size: nat, first0: bool, out0: Row,
                    ghost rest0: seq<seq<Row>>, ghost firsts0: seq<nat>, ghost base: seq<Word>, ghost done0: seq<Row>, ghost all: seq<Row>)
      returns (finished: bool, first_one: bool, outputBuffer: Row, ghost rest: seq<seq<Row>>, ghost firsts: seq<nat>, ghost done: seq<Row>)
      requires outRecSize > 0 && size > 0
      requires AtLoopHead(buf[..], size, rest0, firsts0, done0, all) && Pending(base, done0, first0, out0)
      modifies buf, chunksParams, this`viewFile, this`mSums, this`checksums, this`nViewRows
      ensures Pending(base, done, first_one, outputBuffer) && done != []
      ensures Merging(done, rest, all, nv, nm) && |Flatten(rest)| == |Flatten(rest0)| - 1
      ensures finished ==> forall i :: 0 <= i < |rest| ==> rest[i] == []
      ensures !finished ==> AtLoopHead(buf[..], size, rest, firsts, done, all)
    {
      hide Conserves; hide Holds; hide Written; hide Sorted; hide AllFrom; hide Times; hide Flatten;
      HeadsInBuffer(chunksParams[..], rest0, buf[..], firsts0, size);
      var m, min_r_buf := SelectLeast(buf, size, rest0);
      MergeStep(done0, rest0, m, all, nv, nm);
      assert KeyLength(rest0[m], nv);
      StepForward(m, buf, size, rest0, firsts0);
      first_one, outputBuffer := EmitRow(first0, out0, min_r_buf, base, done0);
      rest, done, firsts := Advance(rest0, m), Emit(done0, min_r_buf), firsts0;
      finished := AllEmpty(buf[..], size, rest, firsts);
      if !finished {
        firsts := Refill(m, buf, size, rest, firsts);
      }
    }

    /** The merge loop, until every run is used up: one pass for every record of the runs. */
    method MergeLoop(buf: array<Row>, size: nat, ghost runs: seq<seq<Row>>, ghost firsts0: seq<nat>, ghost base: seq<Word>)
      returns (outputBuffer: Row, ghost rest: seq<seq<Row>>, ghost done: seq<Row>, ghost passes: nat)
      requires outRecSize > 0 && size > 0
      requires AtLoopHead(buf[..], size, runs, firsts0, [], fileOfChunks)
      requires Pending(base, [], true, Row([], []))
      modifies buf, chunksParams, this`viewFile, this`mSums, this`checksums, this`nViewRows
      ensures Pending(base, done, false, outputBuffer) && Merging(done, rest, fileOfChunks, nv, nm)
      ensures (forall i :: 0 <= i < |rest| ==> rest[i] == []) && passes == |Flatten(runs)|
    {
      hide Merging; hide Buffered; hide Written; hide Flatten;
      var first_one, finished := true, false;
      outputBuffer := Row([], []);
      ghost var firsts := firsts0;
      rest, done, passes := runs, [], 0;
      AtHeadMerging(buf[..], size, rest, firsts, done, fileOfChunks);
      while !finished
        invariant Pending(base, done, first_one, outputBuffer) && Merging(done, rest, fileOfChunks, nv, nm)
        invariant finished ==> done != [] && forall i :: 0 <= i < |rest| ==> rest[i] == []
        invariant !finished ==> AtLoopHead(buf[..], size, rest, firsts, done, fileOfChunks)
        invariant passes + |Flatten(rest)| == |Flatten(runs)|
        decreases |Flatten(rest)|
      {
        finished, first_one, outputBuffer, rest, firsts, done :=
          MergeOne(buf, size, first_one, outputBuffer, rest, firsts, base, done, fileOfChunks);
        passes := passes + 1;
      }
      FlattenEmpty(rest);
    }

    lemma AtHeadMerging(buf: seq<Row>, size: nat, rest: seq<seq<Row>>, firsts: seq<nat>, done: seq<Row>, all: seq<Row>)
      requires AtLoopHead(buf, size, rest, firsts, done, all)
      ensures Merging(done, rest, all, nv, nm)
    {
    }

    lemma NothingWritten()
      requires mSums == Zeros(nm) && checksums == Zeros(nm) && nViewRows == 0
      ensures Pending(viewFile, [], true, Row([], []))
    {
      assert viewFile + EncodeAll([]) == viewFile;
    }

    /** The last write: the pending row completes the view. */
    method FinishMerge(outputBuffer: Row, ghost base: seq<Word>, ghost done: seq<Row>)
      requires Pending(base, done, false, outputBuffer) && Shaped(done, nm)
      modifies this`viewFile, this`mSums, this`checksums, this`nViewRows
      ensures Written(base, done, false) && nViewRows == |done|
    {
      assert done[..|done|-1] + [outputBuffer] == done;
      WriteMerged(outputBuffer, base, done[..|done|-1]);
    }

    /** The initial reads, the merge loop and the last write of MultiWayMerge. */
    method MergeRuns(buf: array<Row>, size: nat, ghost runs: seq<seq<Row>>, ghost rows: seq<Row>)
      requires Spilled(runs) && numberOfChunks > 0 && nViewRows == 0
      requires outRecSize > 0 && size > 0 && buf.Length == Times(numberOfChunks, size)
      requires mSums == Zeros(nm) && checksums == Zeros(nm)
      requires Shaped(rows, nm) && SameGroups(fileOfChunks, rows) && Merging([], runs, fileOfChunks, nv, nm)
      modifies buf, chunksParams, this`viewFile, this`mSums, this`checksums, this`nViewRows
      ensures Written(old(viewFile), Group(rows, nm), false) && nViewRows == |Group(rows, nm)|
    {
      hide Times; hide Merging; hide Buffered; hide Flatten; hide SameGroups; hide Recorded; hide Group;
      hide Pending; hide Written; hide Zeros; hide Shaped; hide Holds;
      NothingWritten();
      ghost var firsts := LoadBuffers(buf, size, runs);
      assert runs[0] != [];
      var outputBuffer;
      ghost var rest, done, passes;
      outputBuffer, rest, done, passes := MergeLoop(buf, size, runs, firsts, viewFile);
      MergeDone(done, rest, fileOfChunks, rows, nv, nm);
      FinishMerge(outputBuffer, old(viewFile), done);
    }

    // -------------------------------------------------------------------------
    // A whole view
    // -------------------------------------------------------------------------

    /**
     * InitAdcViewCntl, after the checksums have been cleared: sizes, counters and file
     * positions for the next view.
     */
    method InitAdcViewCntl(nSelectedDims: nat, selection: seq<nat>, fromParent: bool,
                           smallestParentLevel: nat, viewOffset: nat, nParentViewRows: nat)
      requires Stable() && 1 <= nSelectedDims <= nTopDims && |selection| == nSelectedDims
      requires forall i :: 0 <= i < nSelectedDims ==> 1 <= selection[i] <= (if fromParent then smallestParentLevel else nTopDims)
      requires fileOfChunks == [] && checksums == Zeros(nm)
      modifies this`nv, this`selection, this`outRecSize, this`inpRecSize, this`numberOfChunks, this`fromParent,
               this`nViewRows, this`nd, this`viewPos, this`nRowsToRead, this`mSums
      ensures Ready() && this.selection == selection && nv == nSelectedDims && this.fromParent == fromParent
      ensures fromParent ==> nd == smallestParentLevel && viewPos == viewOffset && nRowsToRead == nParentViewRows
      ensures !fromParent ==> nd == nTopDims && nRowsToRead == |inpf| && viewPos == old(viewPos)
    {
      hide View.Stable; hide Zeros;
      SetSource(fromParent, smallestParentLevel, viewOffset, nParentViewRows);
      nv := nSelectedDims;
      mSums := Zeros(nm);
      this.selection := selection;
      numberOfChunks := 0;
      nViewRows := 0;
      inpRecSize := 4 * nd + 8 * nm;
      outRecSize := 4 * nv + 8 * nm;
    }

    /** Where the next view's rows are read from. */
    method SetSource(fromParent: bool, smallestParentLevel: nat, viewOffset: nat, nParentViewRows: nat)
      modifies this`fromParent, this`nd, this`viewPos, this`nRowsToRead
      ensures this.fromParent == fromParent
      ensures fromParent ==> nd == smallestParentLevel && viewPos == viewOffset && nRowsToRead == nParentViewRows
      ensures !fromParent ==> nd == nTopDims && nRowsToRead == |inpf| && viewPos == old(viewPos)
    {
      this.fromParent := fromParent;
      if fromParent {
        nd := smallestParentLevel;
        viewPos := viewOffset;
        nRowsToRead := nParentViewRows;
      } else {
        nd := nTopDims;
        nRowsToRead := |inpf|;
      }
    }

    /** The single in-memory tree written out. */
    method WriteTree()
      requires tree.Valid() && tree.nm == nm && mSums == Zeros(nm) && checksums == Zeros(nm)
      modifies this`viewFile, this`mSums, this`checksums, this`nViewRows, this`totalOfViewRows
      ensures Written(old(viewFile), tree.Rows(), true) && nViewRows == |tree.Rows()|
    {
      nViewRows := tree.count;
      totalOfViewRows := totalOfViewRows + nViewRows;
      assert viewFile + EncodeAll([]) == viewFile;
      var ordern := WriteViewToDiskCS(tree.pool[HEADER].left, 0, tree.shape, viewFile, []);
      assert [] + tree.Rows() == tree.Rows();
    }

    /**
     * One view, from its source rows to the view file.  Whatever memoryLimit is, and however
     * many runs it causes, a successful call appends the group-by-sum of the selected rows; it
     * fails exactly when the tree spills 1024 times or a run's buffer would hold no record.
     */
    method MakeView(ghost src: seq<Row>) returns (rc: Code)
      requires Ready() && Source(src)
      modifies this`inpPos, this`viewPos, this`fileOfChunks, this`numberOfChunks
      modifies this`viewFile, this`mSums, this`checksums, this`nViewRows, this`totalOfViewRows
      modifies chunksParams, tree, tree.pool, tree.nodes, tree.drcts
      ensures rc == ADC_OK ==>
        && Written(old(viewFile), Group(Project(src, selection), nm), numberOfChunks == 0)
        && nViewRows == |Group(Project(src, selection), nm)|
        && Summed(Group(Project(src, selection), nm), numberOfChunks == 0)
      ensures Shaped(Project(src, selection), nm)
      ensures rc == ADC_OK <==> Sortable(Project(src, selection), nv, nm, memoryLimit)
      ensures rc == ADC_OK && numberOfChunks == 0 ==> viewPos == 4 * |old(viewFile)|
      ensures rc != ADC_OK ==> viewFile == old(viewFile)
    {
      hide RBTree.Valid; hide Spilled; hide Group; hide View.Written; hide View.Summed; hide FormedRuns; hide Fit; hide NodeSize; hide SameGroups;
      ghost var view := Project(src, selection);
      ghost var runs;
      rc, runs := RunFormation(src);
      if rc == ADC_OK {
        if numberOfChunks == 0 {
          WriteTree();
        } else {
          rc := MultiWayMerge(runs, view);
        }
      }
      if rc == ADC_OK {
        WrittenIsSummed(old(viewFile), Group(view, nm), numberOfChunks == 0);
      }
    }
  }
}
