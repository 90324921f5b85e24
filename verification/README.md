# Verification of the NPB DC, IS and DT benchmarks and of the THANOS load balancer

This project models, in Dafny, the algorithms behind four programs bundled with the repository
and one of its own, and proves what they are for. `dafny verify dfyconfig.toml` checks all of it.

**DC, the data cube** (`dc/`, source `NPB3.4-OMP/DC`). A run materialises many group-by views of
one input. Each view is computed from the raw input or from a finished view with more dimensions
(`GetParent`, `GetRegTupleFromParent`). Rows are aggregated in a red-black tree in a fixed memory
pool (`TreeInsert`); when the pool is full it is spilled as a sorted run to a chunk file, and the
runs are merged through small buffers (`MultiWayMerge`). Views share one file and are found again
by offset through a job pool of layers. The one specification is the group-by-sum of a list of
rows (`Rows.Group`), shown to be the only strictly sorted sequence with the right keys and sums
(`Rows.GroupUnique`). The invariant of a whole run, `Cube.PoolOk`, says that every pool entry
delimits exactly the group-by-sum of the raw input on its dimensions. The views are dealt to tasks
in zig-zag order and sorted by the heap sort of `jobcntl.c`; the resulting job files are proved to
be valid requests for the run.

* `Rows`, `Runs`, `Records`, `Checksums`: rows and their group-by-sum, sorted runs and their merge,
  records in files, sums and checksums.
* `TreeShape`, `TreeSteps`, `RedBlackTree`: the tree as a shape, its fix-up steps, and the class
  with the node pool and the two path stacks.
* `AdcView`, `DataCube`: one view, and the run with its job pool.
* `Masks`, `Parents`, `Layers`, `HeapSort`, `JobFiles`: group-by masks, the choice of a parent view,
  the layers of the pool, the sort and the distribution of views.

**The tuple generator of DC** (`adc/`, source `adc.c`). Attributes run through powers of a
generator modulo a prime. `GetLCM` predicts from factorizations when the projections on a set of
dimensions repeat; the predicted view sizes are proved exact. `Generator` is the generator with its
remembered seeds, `Factorizations` the prime list and factor table, `NumberTheory` what is needed
of divisibility, `Tuples` and `ViewSizes` the periods and the prediction. `PredictedViews` joins
the two halves: on generated rows every computed view has the predicted size and the run's final
verification passes. That the given generators are primitive roots of their primes is a hypothesis
(`Tuples.DimsOk`).

**DT, the message-passing graph** (`dt/`, source `NPB3.4-MPI/DT`). Builders construct a butterfly
(SH), an in-tree (BH) and an out-tree (WH); one rank per node then sends along the arcs. Each rank
is a fixed list of messages and a step is one matched send and receive, the strictest reading of
`MPI_Send` (section 3.4 of the MPI standard). `Rendezvous` is the theory of such nets, `Deadlock`
applies it to graphs, `Processes` shows that the protocol's loops perform these lists, `DGraph`
and `Builders` that the builders construct these graphs, `GraphShapes` what shape they have.

**IS, the integer sort** (`is/`, sources `NPB3.4-OMP/IS` and `NPB3.4-MPI/IS`). `BucketSort` is the
shared-memory version under any number of threads and any interleaving, `Redistribute` the
distributed version, `Counting` the ranking both use; `Lcg` and `KeyGeneration` are the random
number generator with its jump-ahead and the parallel key generation.

**The THANOS load balancer** (`thanos/`, source `thread_strategy.hpp`): the loop that moves tasks
from the fullest place to the emptiest ends, and what holds when it does.

Conventions: a file is a sequence with a cursor; a machine word is the sequence of its bits, most
significant first; a node pointer of the tree is its place in the pool; specifications write
products and quotients by a record size as `Arith.Times` and `Arith.Fit`, by repeated addition,
which the programs' `*` and `/` are proved equal to (`Arith.Mul`, `Arith.Div`). Parameters marked
`ghost` carry the proof only. Long loop bodies of the source are methods of their own.

Where the code differs from its comments or from what one would expect, the code is modelled and
the difference is a lemma:

* `dt.c:201-204` says that topologically sorted nodes avoid deadlock. They do not:
  `Deadlock.SortedNodesCanDeadlock` gives a sorted graph that can get stuck, and
  `Deadlock.DeadlockFreeIffKeyOrder` gives the exact condition, which the three graphs meet.
* The checksums of an in-memory view and of a merged view agree if and only if there is at most
  one measure (`Checksums.ChecksAgreeIffOneMeasure`): one advances its factor per measure, the other
  per row.
* A view fails to sort exactly when the tree fills 1024 times or a run's share of the merge buffer
  has no room for a record (`AdcView.Sortable`); a sufficient condition on the input size alone is
  `AdcView.Ample`. A whole run fails exactly at the first request for which this happens with the
  rows of the parent that the requests before it offer (`Cube.RequestSorts`).
* `NumOfCombsFromNbyK` is the binomial coefficient if and only if none of its products reaches
  2^32 (`Layers.NoWrap`), which holds up to the limit of 20 dimensions.
* `find_my_seed` of the OpenMP version always draws once at the end, so for a thread above 0 and
  fewer than four numbers it skips one draw instead of none (`KeyGeneration.SkippedExactly`).
* The load balancer gives up although another task would help if and only if some task at least as
  large as the imbalance is closer to it, or as close and earlier, than every task that would help
  (`LoadBalance.MissesExactly`, `GivesUpExactly`); `StopsThoughImprovable` and `BalanceExample` give
  an input.

## Model

| member | source | states |
|---|---|---|
| `DataCube.Cube.ComputeGivenGroupbys` | NPB3.4.2/NPB3.4-OMP/DC/extbuild.c:859-988 | After any number of requests, whichever parents were chosen and however each view was sorted, the pool denotes exactly the finished views: each entry names rows of the view file that are the key-sorted group-by-sum of the raw input on its dimensions. The recorded view sizes and total checksums are those of these views. The run succeeds if and only if every request can be sorted from the source the requests before it determine, a condition on the input and the memory limit; it fails at the first that cannot, and never when the memory is ample. |
| `DataCube.Cube.ComputeView` | NPB3.4.2/NPB3.4-OMP/DC/extbuild.c:873-984 | One request: the new view is the group-by-sum of the raw input, its size is recorded, and each total checksum grows by the plain sum over the view's rows; on failure the pool, sizes and totals stay as they were. It succeeds exactly when the rows of its source, determined by the earlier requests, can be sorted. A parent is used exactly when a finished view is a superset. |
| `DataCube.Cube.ViewInPool` | NPB3.4.2/NPB3.4-OMP/DC/jobcntl.c:80-90 | In every reachable pool each finished group-by has an entry, and the rows that its offset and row count delimit are its group-by-sum: each key of the input's projection once, in ascending order of the first number in which two keys differ, each measure the sum over the matching input rows. |
| `DataCube.AnswerIsGroupBy` | NPB3.4.2/NPB3.4-OMP/DC/extbuild.c:873-984 | What a view is, without the aggregation's own functions: of two rows the earlier has the smaller number in the first column in which their keys differ; a key is in the view if and only if an input row has its numbers in the chosen columns; its measures are the sums over exactly those rows. |
| `DataCube.AnswerFromParent` | NPB3.4.2/NPB3.4-OMP/DC/jobcntl.c:328-345 | Aggregating a parent view on the relative column numbers gives the group-by-sum of the raw input on the child's dimensions, for every parent mask that contains the child. |
| `DataCube.TotalChecksAgree` | NPB3.4.2/NPB3.4-OMP/DC/extbuild.c:970-971 | With at most one measure the total checksums do not depend on which views were sorted in memory and which were merged from runs. |
| `DataCube.TotalChecksAre` | NPB3.4.2/NPB3.4-OMP/DC/extbuild.c:970-971 | The total checksums of a run are, measure by measure, the sum over all rows of all requested views of order number times measure modulo 31415. |
| `DataCube.Cube.ChooseSource` | NPB3.4.2/NPB3.4-OMP/DC/extbuild.c:878-902 | The chosen rows and columns feed the request: their aggregate is the requested view. The input is read only if no finished view is a superset. |
| `DataCube.Cube.GetParent` | NPB3.4.2/NPB3.4-OMP/DC/jobcntl.c:91-188 | noneParent exactly when no finished view contains the group-by; otherwise the parent lies on the lowest level that has a superset, is of the best kind there (prefixed, then shared-sort, then any) and is the first such entry with the fewest rows; offset, row count and mask are that entry's. |
| `Parents.CandidateServes` | NPB3.4.2/NPB3.4-OMP/DC/jobcntl.c:110-151 | The three mask tests decide the kinds: a prefixed parent has no further dimension up to the group-by's last one, a shared-sort parent none before its first one. |
| `Parents.ParentUnique` | NPB3.4.2/NPB3.4-OMP/DC/jobcntl.c:91-188 | Among the earlier requests there is at most one parent: fewest dimensions, then kind, then fewest rows, then order. |
| `DataCube.Cube.PickedIsParent` | NPB3.4.2/NPB3.4-OMP/DC/jobcntl.c:91-188 | The entry picked in the pool is the parent among the earlier requests: layers keep the order in which views were made. |
| `DataCube.Cube.SourceDecides` | NPB3.4.2/NPB3.4-OMP/DC/extbuild.c:878-941 | Whether a request can be computed is decided by its one possible source. |
| `DataCube.Cube.EntryInOrder` | NPB3.4.2/NPB3.4-OMP/DC/jobcntl.c:80-90 | A new entry stands behind the earlier ones of its layer. |
| `DataCube.Cube.ScanLayer` | NPB3.4.2/NPB3.4-OMP/DC/jobcntl.c:113-157 | One layer's scan finds a parent if and only if some entry of the layer is a superset. |
| `DataCube.Cube.JobPoolUpdate` | NPB3.4.2/NPB3.4-OMP/DC/jobcntl.c:80-90 | Recording a finished view keeps the whole pool invariant: layer bounds, populations and every other entry's meaning. |
| `DataCube.Cube.FreeSlot` | NPB3.4.2/NPB3.4-OMP/DC/jobcntl.c:80-90 | The slot written for a new mask lies inside its layer and inside the pool. |
| `DataCube.Cube.EntryAdded` | NPB3.4.2/NPB3.4-OMP/DC/jobcntl.c:80-90 | Writing the new entry keeps all entries of all layers denoting their views, and the new mask is listed. |
| `DataCube.Cube.SetLayers` | NPB3.4.2/NPB3.4-OMP/DC/extbuild.c:706-712 | Every layer starts where the layers below it end and has the binomial number of places. |
| `DataCube.Cube.FileGrows` | NPB3.4.2/NPB3.4-OMP/DC/extbuild.c:965-968 | Appending a view leaves what every pool entry denotes unchanged. |
| `AdcView.View.MakeView` | NPB3.4.2/NPB3.4-OMP/DC/extbuild.c:928-961 | A view is appended that is the group-by-sum of the selected rows, whether it fitted the tree or was spilled and merged. Its sums are those of the written rows, its checksums the sum over the rows of order number times measure modulo 31415, the number counting measures in the tree's walk and rows in the merge. It fails exactly when the tree fills 1024 times or a sub-chunk buffer has no room for a record, and then writes nothing. |
| `AdcView.View.RunFormation` | NPB3.4.2/NPB3.4-OMP/DC/extbuild.c:320-365 | Without spill the tree holds the group-by-sum; with spills the chunk file holds sorted runs that together have the rows' groups and sums. It fails exactly when the tree fills 1024 times. |
| `AdcView.View.MultiWayMerge` | NPB3.4.2/NPB3.4-OMP/DC/extbuild.c:418-552 | The merge of the runs appends exactly the group-by-sum of the run rows; it fails exactly when the buffer share of a run has no room for a record. |
| `AdcView.View.MergeOne` | NPB3.4.2/NPB3.4-OMP/DC/extbuild.c:470-541 | At each loop head every buffer holds the unread beginning of its run, an empty buffer means an exhausted run and some run is left; one pass moves exactly one record and leads back to such a state or to the end. |
| `AdcView.View.MergeLoop` | NPB3.4.2/NPB3.4-OMP/DC/extbuild.c:470-541 | The loop ends after exactly as many passes as the runs have records. |
| `AdcView.View.SelectLeast` | NPB3.4.2/NPB3.4-OMP/DC/extbuild.c:471-494 | The chosen record is the least of all unread records. |
| `AdcView.View.ReadSubChunk` | NPB3.4.2/NPB3.4-OMP/DC/extbuild.c:381-417 | Refilling loads the next records of the run, right-aligned for the final short read, and touches no other buffer. |
| `AdcView.View.AllEmpty` | NPB3.4.2/NPB3.4-OMP/DC/extbuild.c:523-529 | The loop ends exactly when every run is exhausted. |
| `AdcView.View.EmitRow` | NPB3.4.2/NPB3.4-OMP/DC/extbuild.c:501-521 | Folding equal neighbours and writing the others keeps written rows plus pending record equal to the merged prefix. |
| `AdcView.View.SpillFull` | NPB3.4.2/NPB3.4-OMP/DC/extbuild.c:333-349 | A full tree becomes one more sorted run behind the others, with its offset recorded, and the tree is empty again. |
| `AdcView.View.WriteViewToDiskCS` | NPB3.4.2/NPB3.4-OMP/DC/rbt.c:159-170 | The in-order walk appends the tree's rows in key order; the sums are then the plain sums over the rows and the checksums the sums of the measures' order numbers times the measures modulo 31415. |
| `AdcView.View.WriteRowCS` | NPB3.4.2/NPB3.4-OMP/DC/rbt.c:162-169 | One row of the walk: it is appended, checksum i grows by (rows before * nm + i + 1) times the measure modulo 31415, sum i by the measure. |
| `AdcView.View.WriteMerged` | NPB3.4.2/NPB3.4-OMP/DC/extbuild.c:507-519 | One merged row: it is appended, checksum i grows by its number in the view times the measure modulo 31415, sum i by the measure. |
| `AdcView.View.WriteChunkToDisk` | NPB3.4.2/NPB3.4-OMP/DC/rbt.c:181-190 | The in-order walk appends the tree's rows in key order to the chunk file. |
| `AdcView.View.SelectToView` | NPB3.4.2/NPB3.4-OMP/DC/extbuild.c:553-558 | A row is projected on the selected columns, measures unchanged. |
| `AdcView.View.InitAdcViewCntl` | NPB3.4.2/NPB3.4-OMP/DC/extbuild.c:723-749 | The view is set to read the parent's rows at its offset, or the whole input. |
| `AdcView.View.HeadsInBuffer` | NPB3.4.2/NPB3.4-OMP/DC/extbuild.c:470-494 | While the buffers hold the unread beginnings of the runs, the heads compared are the heads of the runs. |
| `AdcView.AmpleSorts` | NPB3.4.2/NPB3.4-OMP/DC/extbuild.c:333-340 | If the memory is ample for the number of input rows, no selection of them can fail to sort. |
| `AdcView.BufferFits` | NPB3.4.2/NPB3.4-OMP/DC/extbuild.c:450-457 | All sub-chunk buffers together fit the memory limit. |
| `AdcView.ChunkBytes` | NPB3.4.2/NPB3.4-OMP/DC/extbuild.c:341 | The 32-bit product of row count and record size of a full tree does not wrap. |
| `Runs.SpillBound` | NPB3.4.2/NPB3.4-OMP/DC/extbuild.c:320-365 | Each spilled run took as many input rows as the tree has places, at least. |
| `Runs.MergeStep` | NPB3.4.2/NPB3.4-OMP/DC/extbuild.c:470-521 | Emitting the least head keeps: emitted rows sorted, all unread rows not smaller, groups and sums conserved. |
| `Runs.MergeDone` | NPB3.4.2/NPB3.4-OMP/DC/extbuild.c:543-549 | When all runs are exhausted, the emitted rows are the group-by-sum of whatever rows have the runs' groups. |
| `Runs.RunInFile` | NPB3.4.2/NPB3.4-OMP/DC/extbuild.c:334-335 | The recorded offsets find every run in the chunk file. |
| `Runs.HoldsHead` | NPB3.4.2/NPB3.4-OMP/DC/extbuild.c:381-417 | What a sub-chunk buffer holds is its run's next records; an empty loaded buffer means an exhausted run. |
| `Rows.GroupIsGroupBySum` | NPB3.4.2/NPB3.4-OMP/DC/rbt.c:66-72 | Inserting row by row yields a row for exactly the keys that occur, with the sums of their measures. |
| `Rows.GroupUnique` | NPB3.4.2/NPB3.4-OMP/DC/rbt.c:159-170 | Any strictly key-sorted rows with the same keys and sums are the same sequence: the result does not depend on how it was computed. |
| `Rows.RegroupParent` | NPB3.4.2/NPB3.4-OMP/DC/jobcntl.c:328-345 | Aggregating an aggregate on a coarser key is aggregating the rows directly. |
| `Rows.ProjectCompose` | NPB3.4.2/NPB3.4-OMP/DC/extbuild.c:553-558 | Two selections in a row are one selection by the composed columns. |
| `Rows.KeyComp` | NPB3.4.2/NPB3.4-OMP/DC/rbt.c:7-14 | Negative exactly when at the first number in which the keys differ the first key has the smaller one, positive exactly when it has the larger one, zero exactly for equal keys. |
| `Rows.LessMeans` | NPB3.4.2/NPB3.4-OMP/DC/rbt.c:7-14 | The order of the tree, of the merge and of every view: one key comes before another if and only if it has the smaller number where they first differ. |
| `Rows.GroupRows` | NPB3.4.2/NPB3.4-OMP/DC/rbt.c:69-134 | The group-by-sum of projected rows, written out on the unprojected ones: keys ascending, a key present exactly when some row matches it, measures summed over the matching rows. |
| `Rows.LessTransitive` | NPB3.4.2/NPB3.4-OMP/DC/rbt.c:7-14 | The key order is transitive. |
| `Rows.CompareFlip` | NPB3.4.2/NPB3.4-OMP/DC/rbt.c:7-14 | The key order is antisymmetric, and 0 means equal keys. |
| `Rows.InsertSorted` | NPB3.4.2/NPB3.4-OMP/DC/rbt.c:15-147 | Inserting into strictly sorted rows keeps them strictly sorted. |
| `Rows.InsertTotal` | NPB3.4.2/NPB3.4-OMP/DC/rbt.c:66-72 | Inserting a row adds its measures to the totals of its key and to no other. |
| `RedBlackTree.RBTree.TreeInsert` | NPB3.4.2/NPB3.4-OMP/DC/rbt.c:15-147 | Keeps key order, no red-red edge, equal black heights, black root and the pool layout; the in-order rows become the old ones with the row inserted or its measures added. The tree is full exactly when every place is taken. |
| `RedBlackTree.RBTree.Descend` | NPB3.4.2/NPB3.4-OMP/DC/rbt.c:36-74 | The descent ends at the node with the key or at the empty place where it belongs, with the path on the stacks, which never overflow. |
| `RedBlackTree.RBTree.Rebalance` | NPB3.4.2/NPB3.4-OMP/DC/rbt.c:80-144 | From a red leaf hung below any path the loop restores the colour and height laws without changing the in-order rows. |
| `RedBlackTree.RBTree.RotateUp` | NPB3.4.2/NPB3.4-OMP/DC/rbt.c:90-112 | The rotations leave the pool laid out as the rotated tree. |
| `RedBlackTree.RBTree.RecolourUp` | NPB3.4.2/NPB3.4-OMP/DC/rbt.c:85-89 | The recolouring leaves the pool laid out as the recoloured tree, two levels up. |
| `RedBlackTree.RBTree.NewTreeNode` | NPB3.4.2/NPB3.4-OMP/DC/rbt.h:32-39 | The next place is inside the pool; used plus free places stay the limit, and the address stays within memory. |
| `RedBlackTree.RBTree.InitializeTree` | NPB3.4.2/NPB3.4-OMP/DC/rbt.c:217-231 | The tree is empty and has as many places as nodes of the new size fit the memory. |
| `RedBlackTree.AddShape` | NPB3.4.2/NPB3.4-OMP/DC/rbt.c:66-72 | Adding to the node found is inserting the row. |
| `TreeSteps.RotateLaws` | NPB3.4.2/NPB3.4-OMP/DC/rbt.c:90-142 | After the rotation the subtree is balanced without red-red edge and has a black top of the old black height. |
| `TreeSteps.RotateInOrder` | NPB3.4.2/NPB3.4-OMP/DC/rbt.c:90-142 | Rotation does not change the in-order rows. |
| `TreeSteps.RecolourLaws` | NPB3.4.2/NPB3.4-OMP/DC/rbt.c:85-89 | After recolouring only the grandparent can still violate the colour law. |
| `TreeSteps.SpinPool` | NPB3.4.2/NPB3.4-OMP/DC/rbt.c:92-110 | The pointer assignments of a rotation turn the layout of the tree into the layout of the rotated tree. |
| `TreeShape.HeightBound` | NPB3.4.2/NPB3.4-OMP/DC/rbt.h:4 | A red-black tree with fewer than 2^32 - 1 nodes has at most 62 levels: path and sentinel fit 64 stack places. |
| `TreeShape.ZipLaws` | NPB3.4.2/NPB3.4-OMP/DC/rbt.c:80-144 | Putting a lawful subtree back under a lawful path gives a lawful tree. |
| `Records.ReadRecord` | NPB3.4.2/NPB3.4-OMP/DC/extbuild.c:329 | Record k of a view is read back from its byte offset, whatever else the file holds. |
| `Records.DecodeEncode` | NPB3.4.2/NPB3.4-OMP/DC/extbuild.c:507-519 | Writing and reading a record are inverse. |
| `Records.EncodeLayout` | NPB3.4.2/NPB3.4-OMP/DC/extbuild.c:507-519 | A record is two words for each measure in order, then one word for each dimension in order. |
| `Checksums.SumsConserved` | NPB3.4.2/NPB3.4-OMP/DC/extbuild.c:515-517 | The measure sums of a view are those of its source rows. |
| `Checksums.ChecksAgree` | NPB3.4.2/NPB3.4-OMP/DC/rbt.c:163-166 | With at most one measure the in-memory and the merged checksum are the same number. |
| `Checksums.ChecksAgreeIffOneMeasure` | NPB3.4.2/NPB3.4-OMP/DC/rbt.c:163-166 | They agree for all rows if and only if there is at most one measure. |
| `Checksums.ChecksAre` | NPB3.4.2/NPB3.4-OMP/DC/rbt.c:163-166 | The checksum of a view is the sum over its rows of order number times measure modulo 31415, the number counting single measures (tree) or rows (merge). |
| `Checksums.SumsAre` | NPB3.4.2/NPB3.4-OMP/DC/extbuild.c:515-517 | The measure sums are the plain sums over the rows. |
| `Masks.RegTupleOfBinTuple` | NPB3.4.2/NPB3.4-OMP/DC/jobcntl.c:298-353 | The dimensions of a mask made from an increasing selection are that selection. |
| `Masks.CreateBinTuple` | NPB3.4.2/NPB3.4-OMP/DC/jobcntl.c:346-353 | The mask has exactly the bits of the listed dimensions. |
| `Masks.GetRegTupleFromBin64` | NPB3.4.2/NPB3.4-OMP/DC/jobcntl.c:298-312 | The listed dimensions are the set bits, ascending. |
| `Masks.DimsDetermineBits` | NPB3.4.2/NPB3.4-OMP/DC/jobcntl.c:298-312 | Masks with the same dimensions have the same leading bits. |
| `Masks.ColumnsCompose` | NPB3.4.2/NPB3.4-OMP/DC/jobcntl.c:328-345 | The parent's selection composed with the relative columns is the child's selection. |
| `Masks.GetRegTupleFromParent` | NPB3.4.2/NPB3.4-OMP/DC/jobcntl.c:328-345 | The loop computes the columns of the child's dimensions in the parent view. |
| `Masks.SubMaskTest` | NPB3.4.2/NPB3.4-OMP/DC/jobcntl.c:118 | The mask comparison holds exactly for supersets. |
| `Masks.OnesMonotone` | NPB3.4.2/NPB3.4-OMP/DC/jobcntl.c:113 | A superset has at least as many dimensions, and equally many only if it is the same mask. |
| `Masks.Mlo32` | NPB3.4.2/NPB3.4-OMP/DC/jobcntl.c:22-33 | The position of the leftmost set bit, 32 if there is none. |
| `Masks.Mro32` | NPB3.4.2/NPB3.4-OMP/DC/jobcntl.c:34-45 | The position after the rightmost set bit, 0 if there is none. |
| `Masks.SetLeadingOnes32` | NPB3.4.2/NPB3.4-OMP/DC/jobcntl.c:46-56 | The arithmetic shifts of the signed word set exactly the first n bits. |
| `Masks.NumberOfOnes` | NPB3.4.2/NPB3.4-OMP/DC/jobcntl.c:287-297 | The number of set bits. |
| `Layers.NumOfCombsFromNbyK` | NPB3.4.2/NPB3.4-OMP/DC/jobcntl.c:74-79 | The 32-bit loop returns the binomial coefficient if and only if no product on the way reaches 2^32, else a smaller number. |
| `Layers.CombStep` | NPB3.4.2/NPB3.4-OMP/DC/jobcntl.c:77 | A step gives the next coefficient exactly when it starts from the right one and its product does not wrap; otherwise it ends too low. |
| `Layers.DimsNoWrap` | NPB3.4.2/NPB3.4-OMP/DC/jobcntl.c:77 | Up to 20 dimensions no product wraps. |
| `Layers.LayersTile` | NPB3.4.2/NPB3.4-OMP/DC/extbuild.c:706-712 | The layers tile the places 1 to 2^nd - 1. |
| `Layers.MasksCounted` | NPB3.4.2/NPB3.4-OMP/DC/extbuild.c:706-712 | A layer has as many places as there are masks with its number of dimensions. |
| `Layers.LayerHasRoom` | NPB3.4.2/NPB3.4-OMP/DC/jobcntl.c:80-90 | Before a new mask is recorded, its layer is not full. |
| `HeapSort.HeapSortSorts` | NPB3.4.2/NPB3.4-OMP/DC/jobcntl.c:366-452 | For every n the result is an ascending permutation of the records. |
| `HeapSort.Sort` | NPB3.4.2/NPB3.4-OMP/DC/jobcntl.c:390-402 | The loops compute the heap-sorted sequence in place. |
| `HeapSort.Restore` | NPB3.4.2/NPB3.4-OMP/DC/jobcntl.c:366-389 | The sift-down loop computes the sifted sequence in place and ends. |
| `HeapSort.SiftedIsHeap` | NPB3.4.2/NPB3.4-OMP/DC/jobcntl.c:366-389 | Sifting a node whose subtrees are heaps gives a heap of the same records. |
| `HeapSort.DrainedIsSorted` | NPB3.4.2/NPB3.4-OMP/DC/jobcntl.c:396-401 | Swapping the root out leaves the largest records ascending at the end. |
| `JobFiles.EveryViewOnce` | NPB3.4.2/NPB3.4-OMP/DC/jobcntl.c:473-487 | Over all tasks every view is dealt exactly once. |
| `JobFiles.CountsBalanced` | NPB3.4.2/NPB3.4-OMP/DC/jobcntl.c:473-487 | Two tasks' numbers of views differ by at most one. |
| `JobFiles.SizesBalanced` | NPB3.4.2/NPB3.4-OMP/DC/jobcntl.c:473-487 | Dealt by descending size, two tasks' total sizes differ by at most the largest view. |
| `JobFiles.MoveIsZigZag` | NPB3.4.2/NPB3.4-OMP/DC/jobcntl.c:477-486 | The direction changes walk the tasks to and fro, each end twice. |
| `JobFiles.DealViews` | NPB3.4.2/NPB3.4-OMP/DC/jobcntl.c:469-487 | The loop gives each task its zig-zag share, with its count and total size. |
| `JobFiles.MultiFileProcJobs` | NPB3.4.2/NPB3.4-OMP/DC/jobcntl.c:453-513 | The task's file lists its views once each, by non-increasing number of dimensions. |
| `JobFiles.NoSupersetLater` | NPB3.4.2/NPB3.4-OMP/DC/jobcntl.c:503-507 | In such a file no strict superset follows a subset. |
| `JobFiles.PartitionCube` | NPB3.4.2/NPB3.4-OMP/DC/jobcntl.c:514-562 | From the list of views to the task's file: its share of the table of views capped at the number of input records and sorted by size, those with more dimensions first. What this share is of the list itself state the next two rows. |
| `JobFiles.FilesBalanced` | NPB3.4.2/NPB3.4-OMP/DC/jobcntl.c:514-562 | Of the files that any two tasks end up with, against the list of views alone, each view counted with at most the number of input records: they name equally many views up to one, and their total sizes differ by at most the largest size. |
| `JobFiles.FileIsZigZag` | NPB3.4.2/NPB3.4-OMP/DC/jobcntl.c:473-562 | With the capped views in descending order of size, task k's file names the t-th of them if and only if k is t mod n in even rounds t / n and n - 1 - t mod n in odd ones. |
| `JobFiles.JobsCoverViews` | NPB3.4.2/NPB3.4-OMP/DC/jobcntl.c:514-562 | All tasks' files together list every view exactly once. |
| `JobFiles.JobIsRequests` | NPB3.4.2/NPB3.4-OMP/DC/extbuild.c:873-879 | Every task's file is a valid list of requests for the cube run. |
| `JobFiles.TableAscending` | NPB3.4.2/NPB3.4-OMP/DC/jobcntl.c:549-552 | The table that is dealt is ascending by size. |
| `ViewSizes.CalculateViewSizes` | NPB3.4.2/NPB3.4-OMP/DC/adc.c:308-341 | For every set of dimensions the predicted size is the exact number of different projections of the first tnum tuples. |
| `ViewSizes.GetLCM` | NPB3.4.2/NPB3.4-OMP/DC/adc.c:94-148 | Returns the period of the chosen dimensions, or a part of it that is above the overflow cap; the product never leaves the 64-bit range. |
| `ViewSizes.PredictedSizeIsExact` | NPB3.4.2/NPB3.4-OMP/DC/adc.c:338 | The smaller of the returned value and n is the number of different tuples among the first n. |
| `ViewSizes.LcmIsPeriod` | NPB3.4.2/NPB3.4-OMP/DC/adc.c:104-145 | The product of the largest exponents needed divides exactly the common periods. |
| `ViewSizes.NeedsMet` | NPB3.4.2/NPB3.4-OMP/DC/adc.c:117-128 | A distance is a period of an attribute exactly when every prime divides it as often as the reduced exponents ask: (p-1)/gcd(p-1,e) divides it. |
| `ViewSizes.RaiseExponents` | NPB3.4.2/NPB3.4-OMP/DC/adc.c:117-128 | The double loop raises every entry of the table to the dimension's need. |
| `ViewSizes.TakeOff` | NPB3.4.2/NPB3.4-OMP/DC/adc.c:119-126 | The inner loop subtracts how often the prime divides the generator's exponent. |
| `ViewSizes.MultiplyOut` | NPB3.4.2/NPB3.4-OMP/DC/adc.c:138-147 | The loops multiply the table out, or stop above the cap at a smaller product. |
| `ViewSizes.ProjectionsAreDistinct` | NPB3.4.2/NPB3.4-OMP/DC/adc.c:319-341 | The tuples of the chosen dimensions are the projections of the tuples. |
| `PredictedViews.ViewHasPredictedSize` | NPB3.4.2/NPB3.4-OMP/DC/adc.c:319-341 | The view of generated rows has exactly the predicted number of rows: the two programs agree for every set of dimensions. |
| `PredictedViews.GroupSize` | NPB3.4.2/NPB3.4-OMP/DC/extbuild.c:944-960 | A view has one row for every different key. |
| `PredictedViews.ChosenIsProjected` | NPB3.4.2/NPB3.4-OMP/DC/adc.c:379-380 | The attributes the bits of a view number choose are those of the mask made from its listed dimensions. |
| `PredictedViews.ListViews` | NPB3.4.2/NPB3.4-OMP/DC/adc.c:375-381 | Every listed view has the predicted size for its listed dimensions, in whatever order and stride the views are listed. |
| `PredictedViews.ViewSizesVerification` | NPB3.4.2/NPB3.4-OMP/DC/extbuild.c:792-858 | The verification fails exactly when some listed view was made with a size that is neither the listed one nor the number of input rows. |
| `PredictedViews.VerificationPasses` | NPB3.4.2/NPB3.4-OMP/DC/extbuild.c:792-858 | After any run on generated rows it does not fail. |
| `Factorizations.ListFirstPrimes` | NPB3.4.2/NPB3.4-OMP/DC/adc.c:65-89 | The list holds exactly the primes below the limit, ascending, and the trial division never reads past it. |
| `Factorizations.LimitReached` | NPB3.4.2/NPB3.4-OMP/DC/adc.c:272 | For the limit of 100000 there is always a listed prime with a large enough square. |
| `Factorizations.ExtendFactors` | NPB3.4.2/NPB3.4-OMP/DC/adc.c:149-179 | The written list is the factorization of nmb: that of nmb/firstdiv with one more factor, wherever it belongs. |
| `Factorizations.ExtendedProduct` | NPB3.4.2/NPB3.4-OMP/DC/adc.c:149-179 | Inserting a factor multiplies the product by it. |
| `Factorizations.FactorizationOf` | NPB3.4.2/NPB3.4-OMP/DC/adc.c:211-249 | The entry is the factorization of i, in as many places as i has binary digits. |
| `Factorizations.GetFactorization` | NPB3.4.2/NPB3.4-OMP/DC/adc.c:180-251 | Every number below the largest listed prime gets its factorization. |
| `NumberTheory.ProductDivides` | NPB3.4.2/NPB3.4-OMP/DC/adc.c:138-144 | A product of prime powers divides k exactly when each prime divides k that often. |
| `NumberTheory.ExponentProduct` | NPB3.4.2/NPB3.4-OMP/DC/adc.c:117-128 | The exponents of a prime add up in products. |
| `NumberTheory.PrimeDividesProduct` | NPB3.4.2/NPB3.4-OMP/DC/adc.c:117-128 | A prime that divides a product divides a factor. |
| `Tuples.DistinctCount` | NPB3.4.2/NPB3.4-OMP/DC/adc.c:319-341 | Among the first n tuples there are min(n, period) different ones. |
| `Tuples.TupleRepeats` | NPB3.4.2/NPB3.4-OMP/DC/adc.c:565-570 | Two tuples are equal exactly when their distance is a common period of the attributes. |
| `Tuples.AttributeRepeats` | NPB3.4.2/NPB3.4-OMP/DC/adc.c:565-570 | Two values of an attribute are equal exactly when p - 1 divides the exponent times their distance. |
| `Generator.TupleGenerator.GetNextTuple` | NPB3.4.2/NPB3.4-OMP/DC/adc.c:512-576 | Call number t writes tuple number t, each entry (p+1)/2 times root to the power exponent * t modulo p; measures are the entries times the largest one modulo 31415; more than 20 dimensions are refused without effect. |
| `Generator.TupleGenerator.Raise` | NPB3.4.2/NPB3.4-OMP/DC/adc.c:549-556 | The multiplication loop raises the generator to its exponent modulo the prime. |
| `Generator.NextAttribute` | NPB3.4.2/NPB3.4-OMP/DC/adc.c:565-568 | The next value is the last one times the raised generator. |
| `Rendezvous.DeadlockFreeIffOrdered` | NPB3.4.2/NPB3.4-MPI/DT/dt.c:531-662 | Fixed lists of synchronous messages are deadlock-free if and only if one global order of the messages agrees with every list, if and only if some run completes. |
| `Rendezvous.Progress` | NPB3.4.2/NPB3.4-MPI/DT/dt.c:531-662 | With such an order every reachable unfinished state has a message that is next on both sides. |
| `Rendezvous.RunConsistent` | NPB3.4.2/NPB3.4-MPI/DT/dt.c:531-662 | In every run each rank has passed a prefix of its list, and exactly the messages of the run. |
| `Rendezvous.DeliveredOnce` | NPB3.4.2/NPB3.4-MPI/DT/dt.c:531-662 | A complete run delivers every message exactly once. |
| `Rendezvous.RunToEnd` | NPB3.4.2/NPB3.4-MPI/DT/dt.c:531-662 | Every run of a deadlock-free net extends to a complete one. |
| `Rendezvous.CompleteRunIsOrder` | NPB3.4.2/NPB3.4-MPI/DT/dt.c:531-662 | A complete run is such an order. |
| `Rendezvous.ValuesDetermined` | NPB3.4.2/NPB3.4-MPI/DT/dt.c:531-662 | Every rank ends with the same value in all complete runs. |
| `Rendezvous.SameValues` | NPB3.4.2/NPB3.4-MPI/DT/dt.c:531-662 | A rank that has come equally far in two runs holds the same value in both. |
| `Deadlock.DeadlockFreeIffKeyOrder` | NPB3.4.2/NPB3.4-MPI/DT/dt.c:626-662 | The exchange on a graph is deadlock-free if and only if the arcs can be numbered so that every node handles its in-arcs, then its out-arcs, in ascending numbers. |
| `Deadlock.NetWellFormed` | NPB3.4.2/NPB3.4-MPI/DT/dt.c:626-662 | Every message has exactly one sending and one receiving rank, and occurs once in the lists of these two and nowhere else. |
| `Deadlock.SortedNodesCanDeadlock` | NPB3.4.2/NPB3.4-MPI/DT/dt.c:201-204 | Topologically sorted nodes alone do not exclude deadlock: a sorted three-node graph that can get stuck. |
| `Deadlock.HeadByHead` | NPB3.4.2/NPB3.4-MPI/DT/dt.c:227-257 | Arcs attached head by head, tails first, can be numbered in this way. |
| `Deadlock.TailByTail` | NPB3.4.2/NPB3.4-MPI/DT/dt.c:286-318 | So can arcs of which every node has at most one in-arc. |
| `Deadlock.ShShaped` | NPB3.4.2/NPB3.4-MPI/DT/dt.c:200-259 | The SH exchange is deadlock-free for any power of two, at least 2, of sources. |
| `Deadlock.BhShaped` | NPB3.4.2/NPB3.4-MPI/DT/dt.c:322-373 | The BH exchange is deadlock-free for any number of sources. |
| `Deadlock.WhShaped` | NPB3.4.2/NPB3.4-MPI/DT/dt.c:260-321 | The WH exchange is deadlock-free for any number of sources. |
| `Deadlock.ExchangeCompletes` | NPB3.4.2/NPB3.4-MPI/DT/dt.c:626-662 | Every run extends to one that delivers each arc's two messages and each sink's checksum exactly once. |
| `Processes.ProcessNodes` | NPB3.4.2/NPB3.4-MPI/DT/dt.c:626-662 | Run on the real graph, the loops perform exactly the rank's list of messages. |
| `Processes.SendResults` | NPB3.4.2/NPB3.4-MPI/DT/dt.c:531-547 | Two messages per out-arc, in the order of attachment. |
| `Processes.Receive` | NPB3.4.2/NPB3.4-MPI/DT/dt.c:556-568 | Two messages per in-arc, in the order of attachment. |
| `Processes.ReportSinks` | NPB3.4.2/NPB3.4-MPI/DT/dt.c:649-658 | Rank 0 receives every sink's checksum in node order. |
| `Builders.BuildSH` | NPB3.4.2/NPB3.4-MPI/DT/dt.c:200-259 | The loops build the butterfly with exactly the arcs and kinds of its definition. |
| `Builders.ShIsButterfly` | NPB3.4.2/NPB3.4-MPI/DT/dt.c:200-259 | Every such graph in plain arithmetic: d + 1 layers of n = 2^d nodes, sources first and sinks last; arc a enters node n + a / 2 from the layer before, and on the way into layer q the two positions agree above bit q - 1 and below it, with bit q - 1 of the tail the parity of a. |
| `Builders.ShSendsTwice` | NPB3.4.2/NPB3.4-MPI/DT/dt.c:228-256 | Every node below the sinks has exactly two out-arcs, to different nodes. |
| `Builders.BuildBH` | NPB3.4.2/NPB3.4-MPI/DT/dt.c:322-373 | The loops build the in-tree with exactly the arcs and kinds of its definition. |
| `Builders.BhIsTree` | NPB3.4.2/NPB3.4-MPI/DT/dt.c:322-373 | Every such graph layer by layer: layer k has n / 4^k nodes, rounded up; node i of it sends to node i / 4 of the next layer, from a layer of at most four nodes to the root, the last node. |
| `Builders.BuildWH` | NPB3.4.2/NPB3.4-MPI/DT/dt.c:260-321 | The loops build the mirrored out-tree: after the reversal the node numbers are those of the mirror image. |
| `Builders.WhIsTree` | NPB3.4.2/NPB3.4-MPI/DT/dt.c:260-321 | The same tree with arcs and numbering turned round: the root is node 0 and the only source, the first n nodes of the tree are the sinks. |
| `Builders.ReverseNodes` | NPB3.4.2/NPB3.4-MPI/DT/dt.c:313-319 | The reversal loop turns the order of the nodes round and renumbers each, the middle one included. |
| `GraphShapes.ShUniquePaths` | NPB3.4.2/NPB3.4-MPI/DT/dt.c:200-259 | In SH every source has exactly one path to every sink. |
| `GraphShapes.ShUpward` | NPB3.4.2/NPB3.4-MPI/DT/dt.c:200-259 | Every arc of SH leads to a higher node number. |
| `GraphShapes.BhUniquePaths` | NPB3.4.2/NPB3.4-MPI/DT/dt.c:322-373 | In BH every node has exactly one path to the sink. |
| `GraphShapes.BhInDegree` | NPB3.4.2/NPB3.4-MPI/DT/dt.c:354-371 | No node of BH has more than four in-arcs. |
| `GraphShapes.BhUpward` | NPB3.4.2/NPB3.4-MPI/DT/dt.c:322-373 | Every arc of BH leads to a higher node number. |
| `GraphShapes.WhUniquePaths` | NPB3.4.2/NPB3.4-MPI/DT/dt.c:260-321 | In WH the source has exactly one path to every node. |
| `GraphShapes.WhUpward` | NPB3.4.2/NPB3.4-MPI/DT/dt.c:313-319 | After the reversal every arc of WH leads to a higher node number. |
| `GraphShapes.MirrorUnique` | NPB3.4.2/NPB3.4-MPI/DT/dt.c:313-319 | Mirroring keeps unique paths. |
| `DGraphs.DGraph.AttachNode` | NPB3.4.2/NPB3.4-MPI/DT/DGraph.c:54-104 | A new name gets the next dense id at the end; a known name changes nothing and its node is returned. |
| `DGraphs.DGraph.AttachArc` | NPB3.4.2/NPB3.4-MPI/DT/DGraph.c:105-158 | A new arc gets the next dense id and is appended to its tail's out-arcs and its head's in-arcs; a parallel arc of the same length changes nothing. |
| `DGraphs.DGraph.FindParallel` | NPB3.4.2/NPB3.4-MPI/DT/DGraph.c:131-137 | A parallel arc is found exactly when there is one. |
| `BucketSort.Rank` | NPB3.4.2/NPB3.4-OMP/IS/is.c:655-734 | For any number of threads, any interleaving of the scatter and any order of the buckets: the buffer is the keys in bucket order, every thread ends with the same pointers, and key_buff1[k] is the number of keys <= k. |
| `BucketSort.Scatter` | NPB3.4.2/NPB3.4-OMP/IS/is.c:683-689 | Any interleaving of the threads leaves the same buffer and the same pointers. |
| `BucketSort.StepKeeps` | NPB3.4.2/NPB3.4-OMP/IS/is.c:683-689 | Every step writes a free place of the thread's own region and keeps the invariant of the scatter. |
| `BucketSort.RegionsApart` | NPB3.4.2/NPB3.4-OMP/IS/is.c:668-680 | The regions of different threads or buckets do not meet. |
| `BucketSort.RegionsCover` | NPB3.4.2/NPB3.4-OMP/IS/is.c:668-680 | Every place of the buffer lies in some thread's region of some bucket. |
| `BucketSort.ScatterDone` | NPB3.4.2/NPB3.4-OMP/IS/is.c:683-689 | When all threads are done, the buffer is determined. |
| `BucketSort.ScatterPermutes` | NPB3.4.2/NPB3.4-OMP/IS/is.c:683-689 | The buffer is a permutation of all keys. |
| `BucketSort.CountBuckets` | NPB3.4.2/NPB3.4-OMP/IS/is.c:660-666 | Each entry counts the thread's keys in the bucket. |
| `BucketSort.BucketPointers` | NPB3.4.2/NPB3.4-OMP/IS/is.c:668-680 | Each pointer is the start of the thread's region: all smaller buckets, and the bucket's keys of the threads before it. |
| `BucketSort.FinalPointers` | NPB3.4.2/NPB3.4-OMP/IS/is.c:691-696 | Every thread's pointers become the ends of the buckets. |
| `BucketSort.RankBuckets` | NPB3.4.2/NPB3.4-OMP/IS/is.c:709-734 | Each bucket's section of key_buff1 becomes its ranks, whatever the order of the buckets. |
| `BucketSort.RanksAreCounts` | NPB3.4.2/NPB3.4-OMP/IS/is.c:709-734 | Bucket-wise ranks are the global numbers of keys <= k. |
| `BucketSort.PlaceBuckets` | NPB3.4.2/NPB3.4-OMP/IS/is.c:546-553 | Placing by ranks puts every key into its block. |
| `BucketSort.FullVerify` | NPB3.4.2/NPB3.4-OMP/IS/is.c:546-598 | key_array becomes an ascending permutation of the keys, and the count of unsorted neighbours is 0. |
| `Counting.RankRange` | NPB3.4.2/NPB3.4-OMP/IS/is.c:711-732 | A section of the work array becomes the ranks of the given keys; the rest is unchanged. |
| `Counting.PlaceRange` | NPB3.4.2/NPB3.4-OMP/IS/is.c:548-552 | Placing each key below its rank fills the block with the keys in order; the rest is unchanged. |
| `Counting.PlacedIsSorted` | NPB3.4.2/NPB3.4-OMP/IS/is.c:546-553 | Keys standing in the blocks their ranks give are an ascending permutation. |
| `Redistribute.SortEverywhere` | NPB3.4.2/NPB3.4-MPI/IS/is.c:673-833 | The processors' arrays concatenated by rank are an ascending permutation of all keys; no processor receives more than num_keys - 1 plus the largest bucket it gets, and those without a bucket receive none. |
| `Redistribute.Distribute` | NPB3.4.2/NPB3.4-MPI/IS/is.c:721-751 | Counts, displacements and bucket ranges are those of the cuts; processors left over get an empty range. |
| `Redistribute.CutsFair` | NPB3.4.2/NPB3.4-MPI/IS/is.c:725-741 | A processor's range is closed at the first bucket that reaches its quota of num_keys. |
| `Redistribute.ShareBound` | NPB3.4.2/NPB3.4-MPI/IS/is.c:706-751 | A processor's share is at most num_keys - 1 plus its last bucket. |
| `Redistribute.CutsCover` | NPB3.4.2/NPB3.4-MPI/IS/is.c:725-741 | There are never more ranges than processors, and the ranges hold all keys. |
| `Redistribute.AllHeld` | NPB3.4.2/NPB3.4-MPI/IS/is.c:758-781 | If each processor holds the keys of its range in order, all together hold every key exactly once in order. |
| `Redistribute.LocalSort` | NPB3.4.2/NPB3.4-MPI/IS/is.c:673-689 | The local bucket sort puts the keys in bucket order. |
| `Redistribute.Gather` | NPB3.4.2/NPB3.4-MPI/IS/is.c:758-781 | A processor receives from every processor exactly its keys of the range. |
| `Redistribute.RankAndPlace` | NPB3.4.2/NPB3.4-MPI/IS/is.c:790-833 | Ranking and placing what was received sorts it. |
| `Redistribute.ReceivedCount` | NPB3.4.2/NPB3.4-MPI/IS/is.c:773-781 | Every key reaches the owner of its bucket, as often as it occurs. |
| `Lcg.Randlc` | NPB3.4.2/NPB3.4-MPI/IS/is.c:408-465 | X becomes A * X mod 2^46, also when X and A are the same variable; A is unchanged otherwise. |
| `Lcg.SplitProduct` | NPB3.4.2/NPB3.4-MPI/IS/is.c:447-463 | The split multiplication is multiplication modulo 2^46. |
| `Lcg.DrawnIsPower` | NPB3.4.2/NPB3.4-MPI/IS/is.c:408-465 | Draw k is a to the power k times the seed modulo 2^46. |
| `Lcg.RandlcExact` | NPB3.4.2/NPB3.4-MPI/IS/is.c:442-463 | Every intermediate is an integer below 2^53 and every j fits 32 bits. |
| `Lcg.DrawSquare` | NPB3.4.2/NPB3.4-OMP/IS/is.c:408-418 | k draws with the squared multiplier are 2k draws. |
| `Lcg.DrawFirst` | NPB3.4.2/NPB3.4-OMP/IS/is.c:408-418 | A draw with another multiplier commutes with draws. |
| `Lcg.FindMySeed` | NPB3.4.2/NPB3.4-OMP/IS/is.c:390-423 | The seed after the skipped draws, by squaring. |
| `Lcg.FindMySeedMpi` | NPB3.4.2/NPB3.4-MPI/IS/is.c:483-526 | The seed after kn * 2^m draws, 2^m being the largest power of two up to nn/np. |
| `KeyGeneration.CreateSeq` | NPB3.4.2/NPB3.4-OMP/IS/is.c:431-469 | For every number of threads, in any order, key i times 2^46 is k = maxKey/4 times the sum of draws 4i+1 to 4i+4 of the one stream, short of less than 2^46. |
| `KeyGeneration.CreateSeqMpi` | NPB3.4.2/NPB3.4-MPI/IS/is.c:535-551 | With a power-of-two quota the processor's keys are its part of the same sequence: key i of processor kn is that quotient for draws 4j+1 to 4j+4, j = kn * num_keys + i. |
| `KeyGeneration.SeedOf` | NPB3.4.2/NPB3.4-MPI/IS/is.c:483-526 | With a power-of-two quota the seed lies 4 * kn * num_keys draws into the stream. |
| `KeyGeneration.KeyInRange` | NPB3.4.2/NPB3.4-OMP/IS/is.c:457-466 | Every key lies in [0, MAX_KEY). |
| `KeyGeneration.BlocksCover` | NPB3.4.2/NPB3.4-OMP/IS/is.c:448-451 | Every key is generated by some thread. |
| `KeyGeneration.SkipsBlocks` | NPB3.4.2/NPB3.4-OMP/IS/is.c:448-455 | The draws skipped are four for every key of the threads before. |
| `KeyGeneration.SeedsAgree` | NPB3.4.2/NPB3.4-OMP/IS/is.c:390-423 | Both versions of find_my_seed skip the same kn * nn/np draws when the quota is a power of two and a multiple of 4. |
| `KeyGeneration.SkippedExactly` | NPB3.4.2/NPB3.4-OMP/IS/is.c:402-419 | The draws skipped are mq * 4 * kn if and only if kn is 0 or nn is at least 4; otherwise the final draw skips one. |
| `LoadBalance.BalanceLoad` | src/migration/strategies/thread_strategy.hpp:823-929 | The loop ends; the returned migrations, applied in order, lead to the final places, each is the one chosen where it was made, the total load is conserved, the sum of squared loads fell if anything moved, and the loop ends only where its condition says so. |
| `LoadBalance.BalanceStep` | src/migration/strategies/thread_strategy.hpp:834-871 | One pass ends the loop if and only if the first fullest place is below the target or the first closest task is not strictly between 0 and the imbalance; otherwise it moves that task from the first fullest to the first emptiest place, which lowers the sum of squared loads. |
| `LoadBalance.Extremes` | src/migration/strategies/thread_strategy.hpp:838-845 | The first fullest and the first emptiest place. |
| `LoadBalance.MoveEffect` | src/migration/strategies/thread_strategy.hpp:861-866 | A move accepted by the test strictly lowers the sum of squared loads and conserves the total. |
| `LoadBalance.ImprovesIff` | src/migration/strategies/thread_strategy.hpp:861 | The test holds exactly for loads strictly between 0 and the imbalance. |
| `LoadBalance.BetterFalls` | src/migration/strategies/thread_strategy.hpp:834-871 | The number of better placements falls with every move. |
| `LoadBalance.TaskThatSolvesImbalance` | src/migration/strategies/thread_strategy.hpp:791-821 | The task found is the first on the place whose load is closest to the imbalance; none is found exactly when the place is empty. |
| `LoadBalance.LoadPerPlace` | src/system_info/system_info.hpp:698-708 | The loads per place are the sums of the loads of the tasks there. |
| `LoadBalance.LoadsAddUp` | src/system_info/system_info.hpp:698-708 | The loads of all places add up to the loads of all tasks. |
| `LoadBalance.MissesExactly` | src/migration/strategies/thread_strategy.hpp:856-870 | The chosen task misses an improvement if and only if its load is at least the imbalance and another task of the place would help; over the loads alone, if and only if one would help and some load at least the imbalance is closer to it, or as close and earlier, than every one that would. |
| `LoadBalance.GivesUpExactly` | src/migration/strategies/thread_strategy.hpp:834-871 | On an overloaded place the loop gives up although a move would help exactly under that condition on the loads. |
| `LoadBalance.StopsThoughImprovable` | src/migration/strategies/thread_strategy.hpp:856-870 | Loads 11 and 3 on the first of two places and 4 on the second: the loop ends although moving the second task would lower the sum of squared loads. |
| `LoadBalance.BalanceExample` | src/migration/strategies/thread_strategy.hpp:823-874 | On that input the whole loop moves nothing. |
| `LoadBalance.NoRunFromEnd` | src/migration/strategies/thread_strategy.hpp:834-871 | Where the loop ends, no sequence of chosen moves begins. |
| `LoadBalance.LoadSystem` | src/system_info/system_info.hpp:764-772 | The system load is the sum of all loads. |

## Left out

DC:

- The macro-disabled paths (`SharedSortAggregate`, `PrefixedAggregate`, in-core mode), log files, parameter parsing, byte swapping, verification against stored checksums.
- PredictedViews.ViewSizesVerification: the counts are a map from masks, an array in the source; the flag it leaves for the log is not modelled.
- Failures of files, `malloc` and writes. Rewinding the chunk file is modelled as emptying it: stale bytes behind the new ones are never read.
- AdcView.View.MakeView: measures and sums are mathematical integers; 64-bit wrap-around is not modelled, and the checksum's remainder is that of C for non-negative measures only.
- AdcView.View.MultiWayMerge: the merge buffer is an array of its own; in the source it lies over the tree's memory, which is not used during the merge. That it fits is `AdcView.BufferFits`.
- DataCube.Cube.ComputeGivenGroupbys: the input is taken to occupy less than 2^32 bytes and the memory to hold at least one tree node, as the 32-bit sizes of the source need; requests are distinct and non-empty.
- DataCube.Cube.JobPoolUpdate: the job pool and the layer table are fields of type `seq` that the method reassigns. The control structure is split into `View` (sorting) and `Cube` (pool and run).
- Layers.NumOfCombsFromNbyK: k = 2^32 - 1 is excluded, for which the 32-bit loop counter never passes k.
- HeapSort.Sort: `vszsort` and `onessort` are the same code on two record types and are modelled once. The `qsort` of a buffer that is not read afterwards is left out.
- JobFiles.PartitionCube: the text of the view-size file is a list of selections and sizes.
- ViewSizes.CalculateViewSizes: sorting the sizes is left out; `PredictedViews.ListViews` lists them in any order. Stated for up to `LARGE_NUM / 59` tuples, where the cap cannot matter, and for primes and exponents as the built-in tables have them (listed primes, factors of p - 1 up to 59, exponents below the prime).
- Generator.TupleGenerator.GetNextTuple: at most 20 measures, since the source reads one seed per measure from an array of 20; products of `int` size do not overflow for the built-in primes and are integers here.

DT:

- The numeric kernels (`Resample`, `WindowFilter`, `Reduce`, `RandomFeatures`): a rank's value is an arbitrary function of what it received so far.
- Ranks beyond the number of nodes, which do nothing; more than one node per rank, which `main` excludes.
- Builders.BuildSH: needs at least two sources; with one source the second arc of the only sink starts at the sink itself (`dt.c:253-255`).
- DGraphs.DGraph.AttachNode: merging the arcs of a second node with a known name is left out; the builders never attach a node that already has arcs. The arc length, which the source never sets, is an arbitrary parameter of `AttachArc`.
- MPI's tags: a message is named by its arc (length, then values) or its sink, which is what tag and endpoints determine.

IS:

- The two keys overwritten at the start of each iteration, the partial verification with stored ranks, timers; the comparison with the neighbour's key in the MPI `full_verify`, which sends an unset key when a rank holds none.
- Lcg.Randlc: doubles that hold integers are integers; `RandlcExact` proves the bounds that make this exact.
- BucketSort.Rank: the per-thread tables are sequences, and a bucket is ranked in one step in any order of the buckets; buckets own disjoint sections of both arrays.
- Redistribute.SortEverywhere: the collective operations are functions of all processors' buffers, arrays are sequences, and the size of the receive buffer is not checked by the source; the bound on what arrives is proved instead.
- KeyGeneration.CreateSeqMpi: stated for a power-of-two quota, for which the seeds lie where the sequential stream needs them.

THANOS:

- Reading loads from the kernel, `sched_setaffinity`, annealing, tickets, printing.
- LoadBalance.BalanceLoad: loads are non-negative reals with a total below half the largest number, `only_pinned` is false, every migration succeeds and changes current and pinned place together. CPUs and nodes are one loop on places.
