/**
 * Sorted runs and their merge: what the chunk file holds, what one sub-chunk buffer holds
 * of its run, and why taking the least head each time yields the group-by-sum.
 */
module Runs {
  import opened Rows
  import opened Arith

  datatype Chunk = Chunk(curChunkNum: nat, chunkOffset: int, posSubChunk: nat, curSubChunk: nat)

  function Flatten(runs: seq<seq<Row>>): seq<Row> {
    if runs == [] then [] else Flatten(runs[..|runs|-1]) + runs[|runs|-1]
  }

  lemma FlattenSnoc(runs: seq<seq<Row>>, run: seq<Row>)
    ensures Flatten(runs + [run]) == Flatten(runs) + run
  {
    assert (runs + [run])[..|runs|] == runs;
  }

  ghost function Start(runs: seq<seq<Row>>, i: nat): nat
    requires i <= |runs|
  {
    |Flatten(runs[..i])|
  }

  /** Run i sits between its start and the next one's. */
  lemma {:induction false} RunInFile(runs: seq<seq<Row>>, i: nat)
    requires i < |runs|
    ensures Start(runs, i) + |runs[i]| <= |Flatten(runs)|
    ensures Flatten(runs)[Start(runs, i)..Start(runs, i) + |runs[i]|] == runs[i]
  {
    var n := |runs| - 1;
    if i == n {
    } else {
      RunInFile(runs[..n], i);
      assert runs[..n][..i] == runs[..i];
      var a := Start(runs, i);
      assert Flatten(runs)[a..a+|runs[i]|] == Flatten(runs[..n])[a..a+|runs[i]|];
    }
  }

  // ---------------------------------------------------------------------------
  // How many runs an input makes
  // ---------------------------------------------------------------------------

  datatype Formed = Formed(spilled: nat, pending: seq<Row>)

  /** Runs spilled by a tree of `limit` nodes while reading the rows, and the rows still in it. */
  ghost function FormedRuns(rows: seq<Row>, nm: nat, limit: nat): (f: Formed)
    requires Shaped(rows, nm)
    ensures Shaped(f.pending, nm)
  {
    if rows == [] then Formed(0, [])
    else
      var n := |rows| - 1;
      var f := FormedRuns(rows[..n], nm, limit);
      InsertShaped(f.pending, rows[n]);
      var t := InsertRow(f.pending, rows[n]);
      if |t| == limit then Formed(f.spilled + 1, []) else Formed(f.spilled, t)
  }

  /** Runs altogether: the last, partial tree counts only if there was a spill before it. */
  ghost function RunCount(f: Formed): nat {
    if f.spilled > 0 && f.pending != [] then f.spilled + 1 else f.spilled
  }

  lemma {:induction false} SpillsGrow(rows: seq<Row>, k: nat, nm: nat, limit: nat)
    requires Shaped(rows, nm) && k <= |rows|
    ensures FormedRuns(rows[..k], nm, limit).spilled <= FormedRuns(rows, nm, limit).spilled
    decreases |rows|
  {
    if k < |rows| {
      var n := |rows| - 1;
      SpillsGrow(rows[..n], k, nm, limit);
      assert rows[..n][..k] == rows[..k];
    } else {
      assert rows[..k] == rows;
    }
  }

  /** Every spill used up limit rows. */
  lemma {:induction false} SpillBound(rows: seq<Row>, nm: nat, limit: nat)
    requires Shaped(rows, nm)
    ensures var f := FormedRuns(rows, nm, limit);
      Times(f.spilled, limit) + |f.pending| <= |rows|
  {
    if rows != [] {
      var n := |rows| - 1;
      SpillBound(rows[..n], nm, limit);
      InsertShaped(FormedRuns(rows[..n], nm, limit).pending, rows[n]);
    }
  }

  ghost predicate SortedRuns(runs: seq<seq<Row>>, nd: nat, nm: nat) {
    forall i :: 0 <= i < |runs| ==>
      runs[i] != [] && Sorted(runs[i]) && KeyLength(runs[i], nd) && Shaped(runs[i], nm)
  }

  /** How RunFormation leaves the chunk table for runs written back to back. */
  ghost predicate Recorded(chunks: seq<Chunk>, runs: seq<seq<Row>>, recSize: nat) {
    && |runs| <= |chunks|
    && forall i :: 0 <= i < |runs| ==>
        chunks[i].curChunkNum == |runs[i]| && chunks[i].chunkOffset == Times(Start(runs, i), recSize)
  }

  lemma RecordedSnoc(chunks: seq<Chunk>, runs: seq<seq<Row>>, run: seq<Row>, recSize: nat, c: Chunk)
    requires Recorded(chunks, runs, recSize) && |runs| < |chunks|
    requires c.curChunkNum == |run| && c.chunkOffset == Times(|Flatten(runs)|, recSize)
    ensures Recorded(chunks[|runs| := c], runs + [run], recSize)
  {
    forall i | 0 <= i < |runs| ensures Start(runs + [run], i) == Start(runs, i) {
      assert (runs + [run])[..i] == runs[..i];
    }
    assert (runs + [run])[..|runs|] == runs;
  }

  // ---------------------------------------------------------------------------
  // One run during the merge
  // ---------------------------------------------------------------------------

  /**
   * The unread part of a run is what its buffer slot still holds, followed by what is still
   * on file from record `first` on; the slot's rows end at the slot's end.
   */
  ghost predicate Holds(c: Chunk, rest: seq<Row>, slot: seq<Row>, file: seq<Row>, first: nat, recSize: nat) {
    && c.posSubChunk + c.curSubChunk == |slot|
    && first + c.curChunkNum <= |file|
    && (c.curChunkNum > 0 ==> c.chunkOffset == Times(first, recSize))
    && rest == slot[c.posSubChunk..c.posSubChunk + c.curSubChunk] + file[first..first + c.curChunkNum]
  }

  /** At the loop head an empty buffer means an exhausted run. */
  ghost predicate Loaded(c: Chunk) {
    c.curSubChunk == 0 ==> c.curChunkNum == 0
  }

  lemma HoldsHead(c: Chunk, rest: seq<Row>, slot: seq<Row>, file: seq<Row>, first: nat, recSize: nat)
    requires Holds(c, rest, slot, file, first, recSize)
    ensures c.curSubChunk > 0 ==> rest != [] && slot[c.posSubChunk] == rest[0]
    ensures Loaded(c) ==> (rest == [] <==> c.curSubChunk == 0)
    ensures rest == [] <==> c.curSubChunk == 0 && c.curChunkNum == 0
    ensures c.curSubChunk > 0 ==>
      Holds(c.(curSubChunk := c.curSubChunk - 1, posSubChunk := c.posSubChunk + 1), rest[1..], slot, file, first, recSize)
  {
    if c.curSubChunk > 0 {
      var p, n := c.posSubChunk, c.curSubChunk;
      assert slot[p..p+n] == [slot[p]] + slot[p+1..p+n];
      assert rest[1..] == slot[p+1..p+n] + file[first..first + c.curChunkNum];
    }
  }

  // ---------------------------------------------------------------------------
  // The merge on lists
  // ---------------------------------------------------------------------------

  ghost predicate KeysFrom(rows: seq<Row>, k: Key) {
    forall j :: 0 <= j < |rows| ==> !Less(rows[j].key, k)
  }

  /** Every unread row's key is at least k. */
  ghost predicate AllFrom(rest: seq<seq<Row>>, k: Key) {
    forall i :: 0 <= i < |rest| ==> KeysFrom(rest[i], k)
  }

  ghost predicate SortedRests(rest: seq<seq<Row>>, nd: nat, nm: nat) {
    forall i :: 0 <= i < |rest| ==> Sorted(rest[i]) && KeyLength(rest[i], nd) && Shaped(rest[i], nm)
  }

  /** Run m offers the least key. */
  ghost predicate LeastHead(rest: seq<seq<Row>>, m: nat) {
    && m < |rest| && rest[m] != []
    && forall i :: 0 <= i < |rest| && rest[i] != [] ==> !Less(rest[i][0].key, rest[m][0].key)
  }

  lemma NotLessTransitive(a: Key, b: Key, c: Key)
    requires !Less(b, a) && !Less(c, b)
    ensures !Less(c, a)
  {
    CompareFlip(a, b);
    CompareFlip(b, c);
    CompareFlip(a, c);
    if a != b && b != c { LessTransitive(a, b, c); }
  }

  lemma LeastIsLeast(rest: seq<seq<Row>>, m: nat, nd: nat, nm: nat)
    requires SortedRests(rest, nd, nm) && LeastHead(rest, m)
    ensures AllFrom(rest, rest[m][0].key)
  {
    forall i, j | 0 <= i < |rest| && 0 <= j < |rest[i]|
      ensures !Less(rest[i][j].key, rest[m][0].key)
    {
      if j > 0 {
        CompareFlip(rest[i][0].key, rest[i][j].key);
        NotLessTransitive(rest[m][0].key, rest[i][0].key, rest[i][j].key);
      }
    }
  }

  ghost function Advance(rest: seq<seq<Row>>, m: nat): seq<seq<Row>>
    requires m < |rest| && rest[m] != []
  {
    rest[m := rest[m][1..]]
  }

  lemma {:induction false} AdvanceTotal(rest: seq<seq<Row>>, m: nat, p: Key -> bool, i: nat)
    requires m < |rest| && rest[m] != []
    ensures Total(Flatten(rest), p, i) == Total([rest[m][0]], p, i) + Total(Flatten(Advance(rest, m)), p, i)
    ensures HasKey(Flatten(rest), p) <==> HasKey([rest[m][0]], p) || HasKey(Flatten(Advance(rest, m)), p)
    ensures |Flatten(Advance(rest, m))| == |Flatten(rest)| - 1
  {
    var n := |rest| - 1;
    var a := Advance(rest, m);
    TotalAppend(Flatten(rest[..n]), rest[n], p, i);
    HasKeyAppend(Flatten(rest[..n]), rest[n], p);
    TotalAppend(Flatten(a[..n]), a[n], p, i);
    HasKeyAppend(Flatten(a[..n]), a[n], p);
    if m == n {
      assert a[..n] == rest[..n];
      assert rest[n] == [rest[n][0]] + rest[n][1..];
      TotalAppend([rest[n][0]], rest[n][1..], p, i);
      HasKeyAppend([rest[n][0]], rest[n][1..], p);
    } else {
      assert a[..n] == Advance(rest[..n], m);
      AdvanceTotal(rest[..n], m, p, i);
    }
  }

  /** What has been produced plus what is unread still has the groups of all rows. */
  ghost predicate Conserves(done: seq<Row>, rest: seq<seq<Row>>, all: seq<Row>) {
    SameGroups(done + Flatten(rest), all)
  }

  lemma TakeNew(done: seq<Row>, rest: seq<seq<Row>>, m: nat, all: seq<Row>)
    requires Conserves(done, rest, all) && m < |rest| && rest[m] != []
    ensures Conserves(done + [rest[m][0]], Advance(rest, m), all)
  {
    var r, tail := rest[m][0], Flatten(Advance(rest, m));
    forall k: Key ensures HasKey(done + [r] + tail, Is(k)) <==> HasKey(all, Is(k)) {
      AdvanceTotal(rest, m, Is(k), 0);
      HasKeyAppend(done, Flatten(rest), Is(k));
      HasKeyAppend(done + [r], tail, Is(k));
      HasKeyAppend(done, [r], Is(k));
    }
    forall k: Key, i: nat ensures Total(done + [r] + tail, Is(k), i) == Total(all, Is(k), i) {
      AdvanceTotal(rest, m, Is(k), i);
      TotalAppend(done, Flatten(rest), Is(k), i);
      TotalAppend(done + [r], tail, Is(k), i);
      TotalAppend(done, [r], Is(k), i);
    }
  }

  /** Adding an equal-key row into the pending row instead of appending it. */
  lemma FoldInto(done: seq<Row>, x: Row, r: Row, tail: seq<Row>, all: seq<Row>)
    requires x.key == r.key && |x.meas| == |r.meas|
    requires SameGroups(done + [x] + [r] + tail, all)
    ensures SameGroups(done + [Row(AddMeasures(x.meas, r.meas), x.key)] + tail, all)
  {
    var y := Row(AddMeasures(x.meas, r.meas), x.key);
    forall k: Key ensures HasKey(done + [y] + tail, Is(k)) <==> HasKey(done + [x] + [r] + tail, Is(k)) {
      HasKeyAppend(done + [y], tail, Is(k));
      HasKeyAppend(done, [y], Is(k));
      HasKeyAppend(done + [x] + [r], tail, Is(k));
      HasKeyAppend(done + [x], [r], Is(k));
      HasKeyAppend(done, [x], Is(k));
      assert [y][0].key == [x][0].key == [r][0].key;
    }
    forall k: Key, i: nat ensures Total(done + [y] + tail, Is(k), i) == Total(done + [x] + [r] + tail, Is(k), i) {
      TotalAppend(done + [y], tail, Is(k), i);
      TotalAppend(done, [y], Is(k), i);
      TotalAppend(done + [x] + [r], tail, Is(k), i);
      TotalAppend(done + [x], [r], Is(k), i);
      TotalAppend(done, [x], Is(k), i);
      assert [y][1..] == [x][1..] == [r][1..] == [];
    }
  }

  lemma {:induction false} FlattenEmpty(rest: seq<seq<Row>>)
    requires forall i :: 0 <= i < |rest| ==> rest[i] == []
    ensures Flatten(rest) == []
  {
    if rest != [] {
      FlattenEmpty(rest[..|rest|-1]);
    }
  }

  /** Output so far (written rows, then the pending row) against the unread rows. */
  ghost predicate Merging(done: seq<Row>, rest: seq<seq<Row>>, all: seq<Row>, nd: nat, nm: nat) {
    && Conserves(done, rest, all)
    && Sorted(done) && KeyLength(done, nd) && Shaped(done, nm)
    && SortedRests(rest, nd, nm)
    && (done != [] ==> AllFrom(rest, done[|done|-1].key))
  }

  /** The merge step as the code does it: start, fold into the pending row, or append. */
  ghost function Emit(done: seq<Row>, r: Row): seq<Row>
    requires done != [] ==> |done[|done|-1].meas| == |r.meas|
  {
    if done == [] then [r]
    else
      var x := done[|done|-1];
      if x.key == r.key then done[..|done|-1] + [Row(AddMeasures(x.meas, r.meas), x.key)]
      else done + [r]
  }

  lemma AdvanceSorted(rest: seq<seq<Row>>, m: nat, nd: nat, nm: nat)
    requires SortedRests(rest, nd, nm) && LeastHead(rest, m)
    ensures SortedRests(Advance(rest, m), nd, nm)
    ensures AllFrom(Advance(rest, m), rest[m][0].key)
  {
    LeastIsLeast(rest, m, nd, nm);
    assert KeysFrom(rest[m][1..], rest[m][0].key);
  }

  lemma EmitConserves(done: seq<Row>, rest: seq<seq<Row>>, m: nat, all: seq<Row>)
    requires Conserves(done, rest, all) && m < |rest| && rest[m] != []
    requires done != [] ==> |done[|done|-1].meas| == |rest[m][0].meas|
    ensures Conserves(Emit(done, rest[m][0]), Advance(rest, m), all)
  {
    var r := rest[m][0];
    TakeNew(done, rest, m, all);
    if done == [] {
      assert done + [r] == [r];
    } else if done[|done|-1].key == r.key {
      var front, x := done[..|done|-1], done[|done|-1];
      assert done + [r] == front + [x] + [r];
      FoldInto(front, x, r, Flatten(Advance(rest, m)), all);
    }
  }

  lemma EmitSorted(done: seq<Row>, r: Row, nd: nat, nm: nat)
    requires Sorted(done) && KeyLength(done, nd) && Shaped(done, nm) && |r.key| == nd && |r.meas| == nm
    requires done != [] ==> !Less(r.key, done[|done|-1].key)
    ensures Sorted(Emit(done, r)) && KeyLength(Emit(done, r), nd) && Shaped(Emit(done, r), nm)
    ensures Emit(done, r) != [] && Emit(done, r)[|Emit(done, r)|-1].key == r.key
  {
    if done != [] {
      var x := done[|done|-1];
      CompareFlip(x.key, r.key);
      if x.key != r.key {
        forall j | 0 <= j < |done| ensures Less(done[j].key, r.key) {
          if j < |done| - 1 { LessTransitive(done[j].key, x.key, r.key); }
        }
      }
    }
  }

  lemma MergeStep(done: seq<Row>, rest: seq<seq<Row>>, m: nat, all: seq<Row>, nd: nat, nm: nat)
    requires Merging(done, rest, all, nd, nm) && LeastHead(rest, m)
    ensures |rest[m][0].meas| == nm && (done != [] ==> |done[|done|-1].meas| == nm)
    ensures Merging(Emit(done, rest[m][0]), Advance(rest, m), all, nd, nm)
    ensures |Flatten(Advance(rest, m))| == |Flatten(rest)| - 1
  {
    var r := rest[m][0];
    assert KeyLength(rest[m], nd) && Shaped(rest[m], nm);
    if done != [] { assert KeysFrom(rest[m], done[|done|-1].key); }
    AdvanceTotal(rest, m, Is(r.key), 0);
    AdvanceSorted(rest, m, nd, nm);
    EmitConserves(done, rest, m, all);
    EmitSorted(done, r, nd, nm);
  }

  lemma MergeDone(done: seq<Row>, rest: seq<seq<Row>>, all: seq<Row>, rows: seq<Row>, nd: nat, nm: nat)
    requires Merging(done, rest, all, nd, nm)
    requires forall i :: 0 <= i < |rest| ==> rest[i] == []
    requires Shaped(rows, nm) && SameGroups(all, rows)
    ensures done == Group(rows, nm)
  {
    FlattenEmpty(rest);
    assert done + Flatten(rest) == done;
    GroupUnique(done, rows, nm);
  }

  lemma MergeStart(runs: seq<seq<Row>>, nd: nat, nm: nat)
    requires SortedRuns(runs, nd, nm)
    ensures Merging([], runs, Flatten(runs), nd, nm)
  {
    assert [] + Flatten(runs) == Flatten(runs);
  }
}
