/**
 * The cube builder: the pool of finished views (jobcntl.c) and the run that computes every
 * group-by, from the input or from a finished superset view (extbuild.c).
 */
module DataCube {
  import opened Rows
  import opened Arith
  import opened RedBlackTree
  import opened Records
  import opened Checksums
  import opened Masks
  import opened Layers
  import opened AdcView
  import opened Parents

  datatype JobPool = JobPool(grpb: Bits, nv: nat, nRows: nat, viewOffset: nat)
  datatype Layer = Layer(layerIndex: nat, layerQuantityLimit: nat, layerCurrentPopulation: nat)

  // ---------------------------------------------------------------------------
  // What a view must contain
  // ---------------------------------------------------------------------------

  /** The group-by-sum of the input on the dimensions of a mask of n dimensions. */
  ghost function Answer(input: seq<Row>, mask: Bits, n: nat, nm: nat): seq<Row>
    requires Shaped(input, nm) && n <= |mask|
  {
    Group(Project(input, Dims(mask, n)), nm)
  }

  /** What a view is, in terms of the input rows and the set bits of its mask. */
  lemma AnswerIsGroupBy(input: seq<Row>, mask: Bits, n: nat, nm: nat)
    requires Shaped(input, nm) && KeyLength(input, n) && n <= |mask|
    ensures var d := Dims(mask, n);
      && (forall p :: 0 <= p < n ==> (mask[p] <==> p + 1 in d))
      && (forall i, j :: 0 <= i < j < |d| ==> d[i] < d[j])
      && GroupedBy(Answer(input, mask, n, nm), input, d, nm)
  {
    hide Group; hide Dims; hide GroupedBy;
    DimsIncreasing(mask, n);
    GroupRows(input, Dims(mask, n), nm);
  }

  lemma AnswerShaped(input: seq<Row>, mask: Bits, n: nat, nm: nat)
    requires Shaped(input, nm) && n <= |mask|
    ensures Shaped(Answer(input, mask, n, nm), nm)
  {
  }

  /** A view's checksums added to totals, written out. */
  lemma ChecksAdded(totals: seq<int>, rows: seq<Row>, nm: nat, perMeasure: bool)
    requires |totals| == nm
    ensures var t := AddMeasures(totals, Checks(rows, nm, perMeasure));
      Shaped(rows, nm) ==> forall i :: 0 <= i < nm ==> t[i] == totals[i] + CheckSum(rows, i, nm, perMeasure, |rows|)
  {
    if Shaped(rows, nm) {
      forall i | 0 <= i < nm
        ensures AddMeasures(totals, Checks(rows, nm, perMeasure))[i] == totals[i] + CheckSum(rows, i, nm, perMeasure, |rows|)
      {
        ChecksAre(rows, nm, perMeasure, i);
      }
    }
  }

  /** A view computed from its parent's rows is the view computed from the input. */
  lemma AnswerFromParent(input: seq<Row>, parent: Bits, child: Bits, n: nat, nm: nat)
    requires Shaped(input, nm) && n <= |parent| && n <= |child|
    requires forall i :: 0 <= i < n && child[i] ==> parent[i]
    ensures Group(Project(Answer(input, parent, n, nm), Columns(parent, child, n)), nm) == Answer(input, child, n, nm)
  {
    var outer, inner := Dims(parent, n), Columns(parent, child, n);
    RegroupParent(Project(input, outer), nm, inner);
    ProjectCompose(input, outer, inner);
    ColumnsCompose(parent, child, n);
  }

  lemma AnswerUniform(input: seq<Row>, mask: Bits, n: nat, nm: nat)
    requires Shaped(input, nm) && n <= |mask|
    ensures Uniform(Answer(input, mask, n, nm), |Dims(mask, n)|, nm)
    ensures |Answer(input, mask, n, nm)| <= |input|
  {
    GroupKeyLength(Project(input, Dims(mask, n)), nm, |Dims(mask, n)|);
  }

  lemma AnswerSameBits(input: seq<Row>, a: Bits, b: Bits, n: nat, nm: nat)
    requires Shaped(input, nm) && n <= |a| && n <= |b|
    requires forall i :: 0 <= i < n ==> a[i] == b[i]
    ensures Answer(input, a, n, nm) == Answer(input, b, n, nm)
  {
    DimsSameBits(a, b, n);
  }

  /** The checksums of the first k requested views, added up; inMemory tells which views never spilled. */
  ghost function TotalChecks(input: seq<Row>, masks: seq<Bits>, inMemory: seq<bool>, k: nat, n: nat, nm: nat): (c: seq<int>)
    requires Shaped(input, nm) && k <= |masks| && k <= |inMemory| && forall i :: 0 <= i < k ==> n <= |masks[i]|
    ensures |c| == nm
  {
    if k == 0 then Zeros(nm)
    else
      AddMeasures(TotalChecks(input, masks, inMemory, k - 1, n, nm),
                  Checks(Answer(input, masks[k - 1], n, nm), nm, inMemory[k - 1]))
  }

  /** Measure i's total checksum of the first k requested views, as a plain sum over their rows. */
  ghost function RunCheckSum(input: seq<Row>, masks: seq<Bits>, inMemory: seq<bool>, k: nat, n: nat, nm: nat, i: nat): int
    requires Shaped(input, nm) && i < nm && k <= |masks| && k <= |inMemory| && forall j :: 0 <= j < k ==> n <= |masks[j]|
  {
    if k == 0 then 0
    else
      var rows := Answer(input, masks[k - 1], n, nm);
      AnswerShaped(input, masks[k - 1], n, nm);
      RunCheckSum(input, masks, inMemory, k - 1, n, nm, i) + CheckSum(rows, i, nm, inMemory[k - 1], |rows|)
  }

  lemma {:induction false} TotalChecksAre(input: seq<Row>, masks: seq<Bits>, inMemory: seq<bool>, k: nat, n: nat, nm: nat, i: nat)
    requires Shaped(input, nm) && i < nm && k <= |masks| && k <= |inMemory| && forall j :: 0 <= j < k ==> n <= |masks[j]|
    ensures TotalChecks(input, masks, inMemory, k, n, nm)[i] == RunCheckSum(input, masks, inMemory, k, n, nm, i)
  {
    hide Answer; hide Checks;
    if k > 0 {
      TotalChecksAre(input, masks, inMemory, k - 1, n, nm, i);
      AnswerShaped(input, masks[k - 1], n, nm);
      ChecksAre(Answer(input, masks[k - 1], n, nm), nm, inMemory[k - 1], i);
    }
  }

  lemma {:induction false} TotalChecksPrefix(input: seq<Row>, masks: seq<Bits>, a: seq<bool>, b: seq<bool>, k: nat, n: nat, nm: nat)
    requires Shaped(input, nm) && k <= |masks| && k <= |a| <= |b| && a == b[..|a|]
    requires forall i :: 0 <= i < k ==> n <= |masks[i]|
    ensures TotalChecks(input, masks, a, k, n, nm) == TotalChecks(input, masks, b, k, n, nm)
  {
    if k > 0 { TotalChecksPrefix(input, masks, a, b, k - 1, n, nm); }
  }

  /** With one measure the total checksum depends on the input and the requests alone. */
  lemma {:induction false} TotalChecksAgree(input: seq<Row>, masks: seq<Bits>, a: seq<bool>, b: seq<bool>, k: nat, n: nat, nm: nat)
    requires Shaped(input, nm) && nm <= 1 && k <= |masks| && k <= |a| && k <= |b|
    requires forall i :: 0 <= i < k ==> n <= |masks[i]|
    ensures TotalChecks(input, masks, a, k, n, nm) == TotalChecks(input, masks, b, k, n, nm)
  {
    if k > 0 {
      TotalChecksAgree(input, masks, a, b, k - 1, n, nm);
      ChecksAgree(Answer(input, masks[k - 1], n, nm), nm);
    }
  }

  /** Zero bits at the end of a word do not count. */
  lemma PaddedOnes(w: Bits, n: nat)
    requires n <= |w| && forall i :: n <= i < |w| ==> !w[i]
    ensures Ones(w) == Ones(w[..n])
  {
    assert w == w[..n] + Zero(|w| - n);
    OnesZero(w[..n], |w| - n);
  }

  class Cube {
    const nTopDims: nat
    const nm: nat
    const view: View
    var jpp: seq<JobPool>           // the job pool, one slot per group-by
    var lpp: seq<Layer>             // the layer table
    var groupby: Bits
    var smallestParentLevel: nat
    var viewOffset: nat
    var nParentViewRows: nat
    var parBinRepTuple: Bits
    var accViewFileOffset: nat
    var viewSizes: seq<(Bits, nat)>
    var totchs: seq<int>
    ghost var done: set<Bits>       // top nTopDims bits of every finished group-by
    ghost var history: seq<Bits>    // the finished group-bys in the order they were made

    /** NewAdcViewCntl: no views yet, every layer empty. */
    constructor (nTopDims: nat, nm: nat, memoryLimit: nat, input: seq<Row>)
      requires 1 <= nTopDims <= MAX_NUM_OF_DIMS && NodeSize(nTopDims, nm) <= memoryLimit < UINT32
      requires Uniform(input, nTopDims, nm) && Times(|input|, 4 * nTopDims + 8 * nm) < UINT32
      ensures PoolOk() && InOrder() && Idle() && done == {} && history == [] && totchs == Zeros(nm) && viewSizes == []
      ensures view.inpf == input && this.nTopDims == nTopDims && this.nm == nm
    {
      this.nTopDims := nTopDims;
      this.nm := nm;
      view := new View(nTopDims, nm, memoryLimit, input);
      jpp := seq(Pow2(nTopDims), _ => JobPool(Zero(32), 0, 0, 0));
      lpp := seq(nTopDims + 1, _ => Layer(0, 0, 0));
      groupby, parBinRepTuple := Zero(32), Zero(32);
      smallestParentLevel, viewOffset, nParentViewRows, accViewFileOffset := 0, 0, 0, 0;
      viewSizes, totchs, done, history := [], Zeros(nm), {}, [];
      new;
      SetLayers();
      NothingFilled();
    }

    lemma NothingFilled()
      requires Fixed() && done == {} && accViewFileOffset == 4 * |view.viewFile|
      requires |jpp| == Pow2(nTopDims) && |lpp| == nTopDims + 1
      requires forall l :: 1 <= l <= nTopDims ==> lpp[l] == EmptyLayer(l)
      requires history == []
      ensures PoolOk() && InOrder()
    {
      hide LayerStart; hide Binom; hide View.Stable;
      forall l | 1 <= l <= nTopDims
        ensures LayerOk(lpp[l], l, done) && Filled(jpp, l, 0, view.viewFile, done)
      {
        assert InLayer({}, l) == {};
        LayersTile(nTopDims);
        LayerStartMonotone(nTopDims, l, nTopDims + 1);
      }
    }

    ghost function EmptyLayer(l: nat): Layer
      requires l >= 1
    {
      Layer(LayerStart(nTopDims, l), Binom(nTopDims, l), 0)
    }

    lemma EmptyLayerIs(l: nat)
      requires l >= 1
      ensures EmptyLayer(l) == Layer(LayerStart(nTopDims, l), Binom(nTopDims, l), 0)
    {
    }

    /** The layer set-up loop. */
    method SetLayers()
      requires nTopDims <= MAX_NUM_OF_DIMS && |lpp| == nTopDims + 1
      modifies this`lpp
      ensures |lpp| == nTopDims + 1
      ensures forall l :: 1 <= l <= nTopDims ==> lpp[l] == EmptyLayer(l)
    {
      var j, i := 1, 1;
      assert LayerStart(nTopDims, 1) == 1;
      hide LayerStart; hide Binom; hide Cube.EmptyLayer;
      while i <= nTopDims
        invariant 1 <= i <= nTopDims + 1 && j == LayerStart(nTopDims, i) && |lpp| == nTopDims + 1
        invariant forall l :: 1 <= l < i ==> lpp[l] == EmptyLayer(l)
      {
        LayerNext(nTopDims, i);
        DimsNoWrap(nTopDims, i);
        var k := NumOfCombsFromNbyK(nTopDims, i);
        lpp := lpp[i := Layer(j, k, 0)];
        EmptyLayerIs(i);
        j := j + k;
        i := i + 1;
      }
    }

    /** Sizes that never change; the last line keeps every view below 2^32 bytes. */
    ghost predicate Fixed() {
      && 1 <= nTopDims <= MAX_NUM_OF_DIMS
      && view.Stable() && view.nTopDims == nTopDims && view.nm == nm
      && Uniform(view.inpf, nTopDims, nm)
      && Times(|view.inpf|, 4 * nTopDims + 8 * nm) < UINT32
    }

    /** A pool entry of layer l that describes a finished view. */
    ghost predicate EntryOk(e: JobPool, l: nat, file: seq<Word>, processed: set<Bits>)
      requires Fixed()
    {
      && |e.grpb| == 32 && (forall i :: nTopDims <= i < 32 ==> !e.grpb[i])
      && Ones(e.grpb[..nTopDims]) == e.nv == l
      && e.grpb[..nTopDims] in processed
      && e.nRows == |Answer(view.inpf, e.grpb, nTopDims, nm)|
      && StoredAt(file, e.viewOffset, Answer(view.inpf, e.grpb, nTopDims, nm))
    }

    /** Layer bookkeeping: where each layer starts and how full it is. */
    ghost predicate LayersOk(layers: seq<Layer>, processed: set<Bits>)
      requires Fixed()
    {
      && |layers| == nTopDims + 1
      && (forall l :: 1 <= l <= nTopDims ==> LayerOk(layers[l], l, processed))
      && (forall m :: m in processed ==> |m| == nTopDims)
    }

    ghost predicate LayerOk(layer: Layer, l: nat, processed: set<Bits>)
      requires 1 <= l
    {
      && layer.layerIndex == LayerStart(nTopDims, l)
      && layer.layerQuantityLimit == Binom(nTopDims, l)
      && layer.layerCurrentPopulation == |InLayer(processed, l)| <= Binom(nTopDims, l)
    }

    /** Entry number i of layer l. */
    ghost function At(l: nat, i: nat): nat
      requires l >= 1
    {
      LayerStart(nTopDims, l) + i
    }

    lemma AtInPool(l: nat, i: nat)
      requires Fixed() && 1 <= l <= nTopDims && i < Binom(nTopDims, l)
      ensures 1 <= At(l, i) < Pow2(nTopDims)
      ensures At(l, i) < LayerStart(nTopDims, l + 1)
    {
      hide LayerStart; hide Binom; hide Pow2; hide View.Stable;
      LayersTile(nTopDims);
      LayerNext(nTopDims, l);
      LayerStartMonotone(nTopDims, l + 1, nTopDims + 1);
      LayerStartMonotone(nTopDims, 1, l);
      FirstLayer();
    }

    lemma FirstLayer()
      ensures LayerStart(nTopDims, 1) == 1
    {
    }

    /** The first n entries of layer l. */
    ghost predicate Filled(pool: seq<JobPool>, l: nat, n: nat, file: seq<Word>, processed: set<Bits>)
      requires Fixed() && l >= 1
    {
      && At(l, n) <= |pool|
      && forall k :: At(l, 0) <= k < At(l, n) ==> EntryOk(pool[k], l, file, processed)
    }

    /** Every processed mask has its entry. */
    ghost predicate Listed(pool: seq<JobPool>, layers: seq<Layer>, processed: set<Bits>)
      requires Fixed() && |layers| == nTopDims + 1
    {
      forall m :: m in processed ==>
        && 1 <= Ones(m) <= nTopDims
        && exists k :: At(Ones(m), 0) <= k < At(Ones(m), layers[Ones(m)].layerCurrentPopulation) && Names(pool, k, m)
    }

    /** Entry k is the entry of mask m. */
    ghost predicate Names(pool: seq<JobPool>, k: nat, m: Bits) {
      k < |pool| && |pool[k].grpb| == 32 && nTopDims <= 32 && pool[k].grpb[..nTopDims] == m
    }

    /** A pool, its layers and a view file that together denote the processed views. */
    ghost predicate Denotes(pool: seq<JobPool>, layers: seq<Layer>, file: seq<Word>, processed: set<Bits>) {
      && Fixed() && |pool| == Pow2(nTopDims)
      && LayersOk(layers, processed)
      && (forall l :: 1 <= l <= nTopDims ==> Filled(pool, l, layers[l].layerCurrentPopulation, file, processed))
      && Listed(pool, layers, processed)
    }

    /** The pool denotes finished views: the invariant of the whole run. */
    ghost predicate PoolOk()
      reads this`done, this`accViewFileOffset, this`jpp, this`lpp, view`viewFile
    {
      && Denotes(jpp, lpp, view.viewFile, done)
      && accViewFileOffset == 4 * |view.viewFile|
    }

    /** The place of the a-th finished group-by: behind the earlier ones of its layer. */
    ghost function PlaceOf(h: seq<Bits>, a: nat): nat
      requires a < |h| && Ones(h[a]) >= 1
    {
      At(Ones(h[a]), CountOnes(h[..a], Ones(h[a])))
    }

    /** The entries of every layer stand in the order in which the group-bys were made. */
    ghost predicate Ordered(pool: seq<JobPool>, layers: seq<Layer>, h: seq<Bits>) {
      && |layers| == nTopDims + 1
      && (forall l :: 1 <= l <= nTopDims ==> layers[l].layerCurrentPopulation == CountOnes(h, l))
      && forall a :: 0 <= a < |h| ==> PlacedAt(pool, h, a)
    }

    ghost predicate PlacedAt(pool: seq<JobPool>, h: seq<Bits>, a: nat)
      requires a < |h|
    {
      && |h[a]| == 32 && 1 <= Ones(h[a]) <= nTopDims
      && PlaceOf(h, a) < |pool| && pool[PlaceOf(h, a)].grpb == h[a]
    }

    ghost predicate InOrder()
      reads this`jpp, this`lpp, this`history
    {
      Ordered(jpp, lpp, history)
    }

    /** Between views: chunk file and input file are rewound. */
    ghost predicate Idle()
      reads view`fileOfChunks, view`inpPos
    {
      view.fileOfChunks == [] && view.inpPos == 0
    }

    // -------------------------------------------------------------------------
    // Choosing a parent
    // -------------------------------------------------------------------------

    /** Entry k is the smallest candidate of its kind among entries lo..hi-1, if there is one. */
    ghost predicate Best(kind: ParentKind, found: bool, k: nat, lo: nat, hi: nat, pfm: Bits, mlo: Bits, lom: Bits)
      requires |groupby| == |pfm| == |mlo| == |lom| == 32 && hi <= |jpp|
      requires forall j :: lo <= j < hi ==> |jpp[j].grpb| == 32
      reads this`groupby, this`jpp
    {
      && (found ==> lo <= k < hi && Candidate(kind, jpp[k].grpb, groupby, pfm, mlo, lom))
      && (forall j :: lo <= j < hi && Candidate(kind, jpp[j].grpb, groupby, pfm, mlo, lom) ==>
            found && jpp[k].nRows <= jpp[j].nRows && (j < k ==> jpp[k].nRows < jpp[j].nRows))
    }

    /** The best kind that entries lo..hi-1 offer, and its smallest entry. */
    ghost predicate Preferred(kind: ParentKind, k: nat, lo: nat, hi: nat, pfm: Bits, mlo: Bits, lom: Bits)
      requires |groupby| == |pfm| == |mlo| == |lom| == 32 && hi <= |jpp|
      requires forall j :: lo <= j < hi ==> |jpp[j].grpb| == 32
      reads this`groupby, this`jpp
    {
      && kind != NoneParent && Best(kind, true, k, lo, hi, pfm, mlo, lom)
      && (kind != PrefixedParent ==> Best(PrefixedParent, false, 0, lo, hi, pfm, mlo, lom))
      && (kind == SmallestParent ==> Best(SharedSortParent, false, 0, lo, hi, pfm, mlo, lom))
    }

    /** The parent GetParent takes from layer l: of the best kind there, the first entry with the fewest rows. */
    ghost predicate Picked(kind: ParentKind, k: nat, l: nat)
      reads this`groupby, this`jpp, this`lpp
    {
      && 1 <= l < |lpp| && At(l, 0) <= k < At(l, lpp[l].layerCurrentPopulation) <= |jpp|
      && kind != NoneParent && Serves(kind, groupby, jpp[k].grpb)
      && forall j :: At(l, 0) <= j < At(l, lpp[l].layerCurrentPopulation) ==>
        && (Serves(kind, groupby, jpp[j].grpb) ==> jpp[k].nRows <= jpp[j].nRows && (j < k ==> jpp[k].nRows < jpp[j].nRows))
        && (Serves(PrefixedParent, groupby, jpp[j].grpb) ==> kind == PrefixedParent)
        && (Serves(SharedSortParent, groupby, jpp[j].grpb) ==> kind != SmallestParent)
    }

    lemma PreferredIsPicked(kind: ParentKind, k: nat, l: nat, pfm: Bits, mlo: Bits, lom: Bits)
      requires |groupby| == 32 && ParentMasksOf(groupby, pfm, mlo, lom) && NonZero(groupby)
      requires 1 <= l < |lpp| && At(l, lpp[l].layerCurrentPopulation) <= |jpp|
      requires forall j :: At(l, 0) <= j < At(l, lpp[l].layerCurrentPopulation) ==> |jpp[j].grpb| == 32
      requires Preferred(kind, k, At(l, 0), At(l, lpp[l].layerCurrentPopulation), pfm, mlo, lom)
      ensures Picked(kind, k, l)
    {
      hide Serves; hide Candidate; hide ParentMasksOf; hide NonZero; hide LayerStart;
      MaskSizes(groupby, pfm, mlo, lom);
      var lo, hi := At(l, 0), At(l, lpp[l].layerCurrentPopulation);
      forall kind: ParentKind, j: nat | lo <= j < hi
        ensures Candidate(kind, jpp[j].grpb, groupby, pfm, mlo, lom) <==> Serves(kind, groupby, jpp[j].grpb)
      {
        CandidateServes(kind, groupby, jpp[j].grpb, pfm, mlo, lom);
      }
    }

    lemma FixedSizes()
      requires PoolOk()
      ensures |lpp| == nTopDims + 1 && 1 <= nTopDims <= MAX_NUM_OF_DIMS && Fixed()
    {
    }

    lemma DimsLimit()
      ensures MAX_NUM_OF_DIMS == 20
    {
    }

    /** The entries of a layer, as the scan finds them. */
    lemma LayerEntries(level: nat)
      requires Denotes(jpp, lpp, view.viewFile, done) && 1 <= level <= nTopDims
      ensures Fixed() && level < |lpp| && At(level, lpp[level].layerCurrentPopulation) <= |jpp|
      ensures lpp[level].layerIndex == At(level, 0)
      ensures forall j :: At(level, 0) <= j < At(level, lpp[level].layerCurrentPopulation) ==>
        EntryOk(jpp[j], level, view.viewFile, done)
    {
      hide LayerStart; hide Binom; hide Answer; hide StoredAt; hide View.Stable; hide Ones;
      assert LayerOk(lpp[level], level, done);
      assert Filled(jpp, level, lpp[level].layerCurrentPopulation, view.viewFile, done);
      forall j | At(level, 0) <= j < At(level, lpp[level].layerCurrentPopulation)
        ensures EntryOk(jpp[j], level, view.viewFile, done)
      {
        assert EntryOk(jpp[j], level, view.viewFile, done);
      }
    }

    /** One candidate kind's update in the scan of a layer. */
    method Track(kind: ParentKind, found0: bool, k0: nat, lo: nat, ig: nat, pfm: Bits, mlo: Bits, lom: Bits)
      returns (found: bool, k: nat)
      requires |groupby| == |pfm| == |mlo| == |lom| == 32 && lo <= ig < |jpp|
      requires forall j :: lo <= j <= ig ==> |jpp[j].grpb| == 32
      requires Best(kind, found0, k0, lo, ig, pfm, mlo, lom)
      ensures Best(kind, found, k, lo, ig + 1, pfm, mlo, lom)
    {
      found, k := found0, k0;
      if Candidate(kind, jpp[ig].grpb, groupby, pfm, mlo, lom) {
        if !found || jpp[k].nRows > jpp[ig].nRows {
          k := ig;
        }
        found := true;
      }
    }

    lemma NoneSeen(kind: ParentKind, lo: nat, pfm: Bits, mlo: Bits, lom: Bits)
      requires |groupby| == |pfm| == |mlo| == |lom| == 32 && lo <= |jpp|
      ensures Best(kind, false, 0, lo, lo, pfm, mlo, lom)
    {
    }

    /** The inner loop of GetParent: the three best candidates among entries lo..hi-1. */
    method ScanEntries(lo: nat, hi: nat, pfm: Bits, mlo: Bits, lom: Bits)
      returns (sp: bool, kSp: nat, pf: bool, kPf: nat, ss: bool, kSs: nat)
      requires lo <= hi <= |jpp| && |groupby| == |pfm| == |mlo| == |lom| == 32
      requires forall j :: lo <= j < hi ==> |jpp[j].grpb| == 32
      ensures Best(SmallestParent, sp, kSp, lo, hi, pfm, mlo, lom)
      ensures Best(PrefixedParent, pf, kPf, lo, hi, pfm, mlo, lom)
      ensures Best(SharedSortParent, ss, kSs, lo, hi, pfm, mlo, lom)
    {
      hide Cube.Best; hide Candidate;
      sp, pf, ss := false, false, false;
      kSp, kPf, kSs := 0, 0, 0;
      var ig := lo;
      NoneSeen(SmallestParent, lo, pfm, mlo, lom);
      NoneSeen(PrefixedParent, lo, pfm, mlo, lom);
      NoneSeen(SharedSortParent, lo, pfm, mlo, lom);
      while ig < hi
        invariant lo <= ig <= hi
        invariant Best(SmallestParent, sp, kSp, lo, ig, pfm, mlo, lom)
        invariant Best(PrefixedParent, pf, kPf, lo, ig, pfm, mlo, lom)
        invariant Best(SharedSortParent, ss, kSs, lo, ig, pfm, mlo, lom)
      {
        sp, kSp := Track(SmallestParent, sp, kSp, lo, ig, pfm, mlo, lom);
        pf, kPf := Track(PrefixedParent, pf, kPf, lo, ig, pfm, mlo, lom);
        ss, kSs := Track(SharedSortParent, ss, kSs, lo, ig, pfm, mlo, lom);
        ig := ig + 1;
      }
    }

    /** Prefixed before shared-sort before smallest parent. */
    method TakeBest(lo: nat, hi: nat, pfm: Bits, mlo: Bits, lom: Bits) returns (found: ParentKind, k: nat)
      requires lo <= hi <= |jpp| && |groupby| == |pfm| == |mlo| == |lom| == 32
      requires forall j :: lo <= j < hi ==> |jpp[j].grpb| == 32
      ensures found != NoneParent ==> Preferred(found, k, lo, hi, pfm, mlo, lom)
      ensures found == NoneParent ==> Best(SmallestParent, false, 0, lo, hi, pfm, mlo, lom)
    {
      hide Cube.Best;
      var sp, kSp, pf, kPf, ss, kSs := ScanEntries(lo, hi, pfm, mlo, lom);
      if !sp { NoBest(SmallestParent, kSp, lo, hi, pfm, mlo, lom); }
      if !pf { NoBest(PrefixedParent, kPf, lo, hi, pfm, mlo, lom); }
      if !ss { NoBest(SharedSortParent, kSs, lo, hi, pfm, mlo, lom); }
      if pf { found, k := PrefixedParent, kPf; }
      else if ss { found, k := SharedSortParent, kSs; }
      else if sp { found, k := SmallestParent, kSp; }
      else { found, k := NoneParent, 0; }
    }

    lemma NoBest(kind: ParentKind, k: nat, lo: nat, hi: nat, pfm: Bits, mlo: Bits, lom: Bits)
      requires lo <= hi <= |jpp| && |groupby| == |pfm| == |mlo| == |lom| == 32
      requires forall j :: lo <= j < hi ==> |jpp[j].grpb| == 32
      requires Best(kind, false, k, lo, hi, pfm, mlo, lom)
      ensures Best(kind, false, 0, lo, hi, pfm, mlo, lom)
    {
      hide Candidate;
    }

    /** What the scan of a layer says about supersets. */
    lemma ScanMeans(found: ParentKind, k: nat, lo: nat, hi: nat, pfm: Bits, mlo: Bits, lom: Bits)
      requires lo <= hi <= |jpp| && |groupby| == |pfm| == |mlo| == |lom| == 32
      requires forall j :: lo <= j < hi ==> |jpp[j].grpb| == 32
      requires found != NoneParent ==> Preferred(found, k, lo, hi, pfm, mlo, lom)
      requires found == NoneParent ==> Best(SmallestParent, false, 0, lo, hi, pfm, mlo, lom)
      ensures found != NoneParent ==> lo <= k < hi && SubMask(groupby, jpp[k].grpb)
      ensures found == NoneParent ==> forall j :: lo <= j < hi ==> !SubMask(groupby, jpp[j].grpb)
    {
      hide And; hide SubMask; hide NonZero;
      forall j | lo <= j < hi ensures And(groupby, jpp[j].grpb) == groupby <==> SubMask(groupby, jpp[j].grpb) {
        SubMaskTest(groupby, jpp[j].grpb);
      }
    }

    /** GetParent on one layer. */
    method ScanLayer(level: nat, pfm: Bits, mlo: Bits, lom: Bits) returns (found: ParentKind, k: nat)
      requires PoolOk() && 1 <= level <= nTopDims && |groupby| == |pfm| == |mlo| == |lom| == 32
      ensures level < |lpp| && At(level, lpp[level].layerCurrentPopulation) <= |jpp|
      ensures forall j :: At(level, 0) <= j < At(level, lpp[level].layerCurrentPopulation) ==> |jpp[j].grpb| == 32
      ensures found == NoneParent <==>
        forall j :: At(level, 0) <= j < At(level, lpp[level].layerCurrentPopulation) ==> !SubMask(groupby, jpp[j].grpb)
      ensures found != NoneParent ==>
        && At(level, 0) <= k < At(level, lpp[level].layerCurrentPopulation) && SubMask(groupby, jpp[k].grpb)
        && Preferred(found, k, At(level, 0), At(level, lpp[level].layerCurrentPopulation), pfm, mlo, lom)
    {
      hide Cube.Denotes; hide LayerStart; hide Answer; hide StoredAt; hide Ones; hide SubMask; hide Cube.Best; hide Cube.Preferred;
      LayerEntries(level);
      var lo, hi := lpp[level].layerIndex, lpp[level].layerIndex + lpp[level].layerCurrentPopulation;
      found, k := TakeBest(lo, hi, pfm, mlo, lom);
      ScanMeans(found, k, lo, hi, pfm, mlo, lom);
    }

    /** An entry of the pool whose mask contains the current group-by. */
    ghost predicate Superset(g: Bits, pool: seq<JobPool>, layers: seq<Layer>, k: nat, level: nat)
      requires |layers| == nTopDims + 1 && 1 <= level <= nTopDims
    {
      && At(level, 0) <= k < At(level, layers[level].layerCurrentPopulation) && k < |pool|
      && SubMask(g, pool[k].grpb)
    }

    /** No entry of layers lo..hi-1 is a superset of the group-by. */
    ghost predicate NoSuperset(g: Bits, pool: seq<JobPool>, layers: seq<Layer>, lo: nat, hi: nat)
      requires |layers| == nTopDims + 1
    {
      forall l: nat, k: nat :: lo <= l < hi && 1 <= l <= nTopDims ==> !Superset(g, pool, layers, k, l)
    }

    lemma NoSupersetJoin(g: Bits, pool: seq<JobPool>, layers: seq<Layer>, a: nat, b: nat, c: nat)
      requires |layers| == nTopDims + 1 && NoSuperset(g, pool, layers, a, b) && NoSuperset(g, pool, layers, b, c)
      ensures NoSuperset(g, pool, layers, a, c)
    {
    }

    lemma SupersetFound(g: Bits, pool: seq<JobPool>, layers: seq<Layer>, k: nat, l: nat)
      requires |layers| == nTopDims + 1 && 1 <= l <= nTopDims && Superset(g, pool, layers, k, l)
      ensures !NoSuperset(g, pool, layers, 1, nTopDims + 1)
    {
    }

    /** No superset has fewer dimensions than the group-by: the scan may start at l. */
    lemma NoneBelow(l: nat)
      requires PoolOk() && |groupby| == 32 && (forall i :: nTopDims <= i < 32 ==> !groupby[i])
      requires l == Ones(groupby) && |lpp| == nTopDims + 1
      ensures NoSuperset(groupby, jpp, lpp, 1, l)
    {
      forall l': nat, k: nat | 1 <= l' < l && l' <= nTopDims ensures !Superset(groupby, jpp, lpp, k, l') {
        if Superset(groupby, jpp, lpp, k, l') {
          LayerEntries(l');
          SupersetOnes(jpp[k], l');
        }
      }
    }

    lemma SupersetOnes(e: JobPool, level: nat)
      requires Fixed() && EntryOk(e, level, view.viewFile, done) && SubMask(groupby, e.grpb)
      ensures Ones(groupby) <= level
    {
      hide Ones; hide Answer; hide StoredAt;
      OnesMonotone(groupby, e.grpb);
      PaddedOnes(e.grpb, nTopDims);
    }

    /** The search of GetParent: the first layer, by number of dimensions, with a superset. */
    method SearchParent() returns (found: ParentKind, k: nat)
      requires PoolOk() && |groupby| == 32
      requires (forall i :: nTopDims <= i < 32 ==> !groupby[i]) && NonZero(groupby)
      modifies this`smallestParentLevel
      ensures PoolOk()
      ensures found == NoneParent <==> NoSuperset(groupby, jpp, lpp, 1, nTopDims + 1)
      ensures found != NoneParent ==>
        && 1 <= smallestParentLevel <= nTopDims && k < |jpp|
        && Superset(groupby, jpp, lpp, k, smallestParentLevel)
        && NoSuperset(groupby, jpp, lpp, 1, smallestParentLevel)
        && Picked(found, k, smallestParentLevel)
    {
      hide *;
      FixedSizes();
      DimsLimit();
      var l := OwnLevel();
      var pfm, mlo, lom := ParentMasks();
      found, k := FindLevel(l, pfm, mlo, lom);
      NoneBelow(l);
      if found == NoneParent {
        NoSupersetJoin(groupby, jpp, lpp, 1, l, nTopDims + 1);
      } else {
        NoSupersetJoin(groupby, jpp, lpp, 1, l, smallestParentLevel);
        SupersetFound(groupby, jpp, lpp, k, smallestParentLevel);
      }
    }

    /**
     * GetParent: where the parent's rows are.  noneParent exactly when no finished view is a
     * superset of the group-by; otherwise a superset with the fewest dimensions, prefixed before
     * shared-sort before any other, and of these the first with the fewest rows.
     */
    method GetParent(binRepTuple: Bits) returns (found: ParentKind, k: nat)
      requires PoolOk() && |groupby| == 32 && binRepTuple == groupby
      requires (forall i :: nTopDims <= i < 32 ==> !groupby[i]) && NonZero(groupby)
      modifies this`smallestParentLevel, this`viewOffset, this`nParentViewRows, this`parBinRepTuple
      ensures PoolOk()
      ensures found == NoneParent <==> NoSuperset(groupby, jpp, lpp, 1, nTopDims + 1)
      ensures found != NoneParent ==>
        && 1 <= smallestParentLevel <= nTopDims && k < |jpp|
        && Superset(groupby, jpp, lpp, k, smallestParentLevel)
        && NoSuperset(groupby, jpp, lpp, 1, smallestParentLevel)
        && Picked(found, k, smallestParentLevel)
        && viewOffset == jpp[k].viewOffset && nParentViewRows == jpp[k].nRows && parBinRepTuple == jpp[k].grpb
    {
      hide *;
      FixedSizes();
      found, k := SearchParent();
      if found != NoneParent {
        TakeParent(k);
      }
    }

    method TakeParent(k: nat)
      requires k < |jpp|
      modifies this`viewOffset, this`nParentViewRows, this`parBinRepTuple
      ensures viewOffset == jpp[k].viewOffset && nParentViewRows == jpp[k].nRows && parBinRepTuple == jpp[k].grpb
    {
      viewOffset := jpp[k].viewOffset;
      nParentViewRows := jpp[k].nRows;
      parBinRepTuple := jpp[k].grpb;
    }

    /** The group-by's number of dimensions, counted in 64 bits. */
    method OwnLevel() returns (l: nat)
      requires 1 <= nTopDims <= 32 && |groupby| == 32
      requires (forall i :: nTopDims <= i < 32 ==> !groupby[i]) && NonZero(groupby)
      ensures l == Ones(groupby) && 1 <= l <= nTopDims
    {
      l := NumberOfOnes(Widen(groupby));
      OnesWiden(groupby, 32);
      OnesOfTop(groupby);
    }

    /** pfm covers the dimensions up to the last one, mlo is the first one, lom those before it. */
    method ParentMasks() returns (pfm: Bits, mlo: Bits, lom: Bits)
      requires |groupby| == 32
      ensures ParentMasksOf(groupby, pfm, mlo, lom)
    {
      var mro := Mro32(groupby);
      pfm := SetLeadingOnes32(mro);
      var first := Mlo32(groupby);
      mlo := Top(32, first);
      lom := SetLeadingOnes32(first);
      if NonZero(groupby) {
        assert first < 32 && mlo[first];
      }
    }

    /** The loop over levels, upwards from the group-by's own number of dimensions. */
    method FindLevel(l: nat, pfm: Bits, mlo: Bits, lom: Bits) returns (found: ParentKind, k: nat)
      requires PoolOk() && 1 <= l <= nTopDims && |groupby| == 32 && ParentMasksOf(groupby, pfm, mlo, lom) && NonZero(groupby)
      requires |lpp| == nTopDims + 1
      modifies this`smallestParentLevel
      ensures found == NoneParent ==> NoSuperset(groupby, jpp, lpp, l, nTopDims + 1)
      ensures found != NoneParent ==> l <= smallestParentLevel <= nTopDims && Superset(groupby, jpp, lpp, k, smallestParentLevel) && k < |jpp|
      ensures found != NoneParent ==> NoSuperset(groupby, jpp, lpp, l, smallestParentLevel)
      ensures found != NoneParent ==> Picked(found, k, smallestParentLevel)
    {
      hide Cube.Denotes; hide SubMask; hide Cube.Best; hide LayerStart;
      found, k := NoneParent, 0;
      var level := l;
      while level <= nTopDims
        invariant l <= level <= nTopDims + 1 && found == NoneParent
        invariant NoSuperset(groupby, jpp, lpp, l, level)
      {
        found, k := ScanLayer(level, pfm, mlo, lom);
        if found != NoneParent {
          smallestParentLevel := level;
          assert Superset(groupby, jpp, lpp, k, level);
          PreferredIsPicked(found, k, level, pfm, mlo, lom);
          break;
        }
        level := level + 1;
      }
    }

    lemma OnesOfTop(w: Bits)
      requires |w| == 32 && 1 <= nTopDims <= 32 && (forall i :: nTopDims <= i < 32 ==> !w[i]) && NonZero(w)
      ensures 1 <= Ones(w) <= nTopDims && Ones(w) == Ones(w[..nTopDims]) == |Dims(w, nTopDims)|
    {
      PaddedOnes(w, nTopDims);
      OnesAreDims(w, nTopDims);
      DimsIncreasing(w, nTopDims);
      var i :| 0 <= i < 32 && w[i];
      assert i + 1 in Dims(w, nTopDims);
    }

    // -------------------------------------------------------------------------
    // Recording a finished view
    // -------------------------------------------------------------------------

    /** Appending to the view file leaves every entry's rows where they were. */
    lemma FileGrows(file: seq<Word>, more: seq<Word>)
      requires Denotes(jpp, lpp, file, done)
      ensures Denotes(jpp, lpp, file + more, done)
    {
      forall l | 1 <= l <= nTopDims ensures Filled(jpp, l, lpp[l].layerCurrentPopulation, file + more, done) {
        assert Filled(jpp, l, lpp[l].layerCurrentPopulation, file, done);
        forall k | At(l, 0) <= k < At(l, lpp[l].layerCurrentPopulation) ensures EntryOk(jpp[k], l, file + more, done) {
          assert EntryOk(jpp[k], l, file, done);
          StoredAppend(file, more, jpp[k].viewOffset, Answer(view.inpf, jpp[k].grpb, nTopDims, nm));
        }
      }
    }

    /** The slot JobPoolUpdate writes, and why it lies inside its layer. */
    lemma FreeSlot(pool: seq<JobPool>, layers: seq<Layer>, file: seq<Word>, processed: set<Bits>, m: Bits)
      requires Denotes(pool, layers, file, processed)
      requires |m| == nTopDims && m !in processed && 1 <= Ones(m) <= nTopDims
      ensures var l := Ones(m);
        && layers[l].layerCurrentPopulation < Binom(nTopDims, l)
        && layers[l].layerIndex + layers[l].layerCurrentPopulation == At(l, layers[l].layerCurrentPopulation)
        && At(l, layers[l].layerCurrentPopulation) < LayerStart(nTopDims, l + 1)
        && At(l, layers[l].layerCurrentPopulation) < |pool|
    {
      hide Ones; hide Binom; hide LayerStart; hide View.Stable; hide Cube.Filled; hide Cube.Listed; hide InLayer; hide Pow2;
      var l := Ones(m);
      assert LayerOk(layers[l], l, processed);
      LayerHasRoom(processed, m, nTopDims);
      AtInPool(l, layers[l].layerCurrentPopulation);
    }

    ghost function Grown(layer: Layer): Layer {
      layer.(layerCurrentPopulation := layer.layerCurrentPopulation + 1)
    }

    lemma LayersGrow(layers: seq<Layer>, processed: set<Bits>, m: Bits)
      requires Fixed() && LayersOk(layers, processed)
      requires |m| == nTopDims && m !in processed && 1 <= Ones(m) <= nTopDims
      ensures LayersOk(layers[Ones(m) := Grown(layers[Ones(m)])], processed + {m})
    {
      hide InLayer; hide Binom; hide LayerStart; hide Ones;
      LayerHasRoom(processed, m, nTopDims);
      var layers1 := layers[Ones(m) := Grown(layers[Ones(m)])];
      forall l | 1 <= l <= nTopDims ensures LayerOk(layers1[l], l, processed + {m}) {
        assert LayerOk(layers[l], l, processed);
        InLayerAdd(processed, m, l);
      }
    }

    /** Layers do not overlap: entry k of layer l is no entry of another layer. */
    lemma OtherLayer(l: nat, j: nat, n: nat, k: nat)
      requires Fixed() && 1 <= l <= nTopDims && 1 <= j <= nTopDims && j != l
      requires n <= Binom(nTopDims, j) && At(l, 0) <= k < LayerStart(nTopDims, l + 1)
      ensures !(At(j, 0) <= k < At(j, n))
    {
      if j < l { LayerStartMonotone(nTopDims, j, l); } else { LayerStartMonotone(nTopDims, l + 1, j); }
    }

    /** Where the new entry goes, and the pool with it. */
    ghost function Slot(layers: seq<Layer>, m: Bits): nat
      requires 1 <= Ones(m) < |layers|
    {
      At(Ones(m), layers[Ones(m)].layerCurrentPopulation)
    }

    lemma SlotIs(layers: seq<Layer>, m: Bits)
      requires 1 <= Ones(m) < |layers|
      ensures Slot(layers, m) == At(Ones(m), layers[Ones(m)].layerCurrentPopulation)
      ensures Grown(layers[Ones(m)]) == layers[Ones(m)].(layerCurrentPopulation := layers[Ones(m)].layerCurrentPopulation + 1)
    {
    }

    lemma Sizes(pool: seq<JobPool>, layers: seq<Layer>, file: seq<Word>, processed: set<Bits>)
      requires Denotes(pool, layers, file, processed)
      ensures Fixed() && 1 <= nTopDims <= 20 && |layers| == nTopDims + 1
    {
    }

    /** An entry's validity does not depend on later masks. */
    lemma EntryStays(e: JobPool, l: nat, file: seq<Word>, processed: set<Bits>, m: Bits)
      requires Fixed() && EntryOk(e, l, file, processed)
      ensures EntryOk(e, l, file, processed + {m})
    {
    }

    lemma FilledGrows(pool: seq<JobPool>, layers: seq<Layer>, file: seq<Word>, processed: set<Bits>, e: JobPool, m: Bits, j: nat)
      requires Denotes(pool, layers, file, processed)
      requires |m| == nTopDims && m !in processed && 1 <= Ones(m) <= nTopDims && 1 <= j <= nTopDims
      requires EntryOk(e, Ones(m), file, processed + {m})
      ensures Slot(layers, m) < |pool|
      ensures Filled(pool[Slot(layers, m) := e], j, layers[j].layerCurrentPopulation + (if j == Ones(m) then 1 else 0), file, processed + {m})
    {
      hide LayerStart; hide Binom; hide Ones; hide Cube.EntryOk; hide InLayer; hide Cube.Listed; hide Cube.Fixed;
      Sizes(pool, layers, file, processed);
      FreeSlot(pool, layers, file, processed, m);
      var l, k := Ones(m), Slot(layers, m);
      var pool1 := pool[k := e];
      assert Filled(pool, j, layers[j].layerCurrentPopulation, file, processed);
      assert LayerOk(layers[j], j, processed);
      if j != l { OtherLayer(l, j, layers[j].layerCurrentPopulation, k); }
      forall i | At(j, 0) <= i < At(j, layers[j].layerCurrentPopulation)
        ensures EntryOk(pool1[i], j, file, processed + {m})
      {
        assert EntryOk(pool[i], j, file, processed);
        EntryStays(pool[i], j, file, processed, m);
      }
    }

    lemma ListedGrows(pool: seq<JobPool>, layers: seq<Layer>, file: seq<Word>, processed: set<Bits>, e: JobPool, m: Bits)
      requires Denotes(pool, layers, file, processed)
      requires |m| == nTopDims && m !in processed && 1 <= Ones(m) <= nTopDims
      requires |e.grpb| == 32 && e.grpb[..nTopDims] == m
      ensures Slot(layers, m) < |pool|
      ensures Listed(pool[Slot(layers, m) := e], layers[Ones(m) := Grown(layers[Ones(m)])], processed + {m})
    {
      hide LayerStart; hide Binom; hide Cube.Filled; hide Cube.LayersOk; hide Cube.Fixed; hide Ones; hide Cube.EntryOk;
      Sizes(pool, layers, file, processed);
      FreeSlot(pool, layers, file, processed, m);
      var l, k := Ones(m), Slot(layers, m);
      var pool1, layers1 := pool[k := e], layers[l := Grown(layers[l])];
      forall x | x in processed + {m}
        ensures 1 <= Ones(x) <= nTopDims
        ensures exists i :: At(Ones(x), 0) <= i < At(Ones(x), layers1[Ones(x)].layerCurrentPopulation) && Names(pool1, i, x)
      {
        if x == m {
          assert Names(pool1, k, m);
        } else {
          var i :| At(Ones(x), 0) <= i < At(Ones(x), layers[Ones(x)].layerCurrentPopulation) && Names(pool, i, x);
          SlotUnused(pool, layers, file, processed, m, Ones(x), i);
          assert Names(pool1, i, x);
        }
      }
    }

    /** The slot to be written holds no entry yet. */
    lemma SlotUnused(pool: seq<JobPool>, layers: seq<Layer>, file: seq<Word>, processed: set<Bits>, m: Bits, j: nat, i: nat)
      requires Denotes(pool, layers, file, processed)
      requires |m| == nTopDims && m !in processed && 1 <= Ones(m) <= nTopDims && 1 <= j <= nTopDims
      requires At(j, 0) <= i < At(j, layers[j].layerCurrentPopulation)
      ensures i != Slot(layers, m)
    {
      FreeSlot(pool, layers, file, processed, m);
      assert LayerOk(layers[j], j, processed);
      if j != Ones(m) {
        OtherLayer(Ones(m), j, layers[j].layerCurrentPopulation, At(Ones(m), layers[Ones(m)].layerCurrentPopulation));
      }
    }

    lemma EntryAdded(pool: seq<JobPool>, layers: seq<Layer>, file: seq<Word>, processed: set<Bits>, e: JobPool, m: Bits)
      requires Denotes(pool, layers, file, processed)
      requires |m| == nTopDims && m !in processed && 1 <= Ones(m) <= nTopDims
      requires EntryOk(e, Ones(m), file, processed + {m}) && e.grpb[..nTopDims] == m
      ensures Slot(layers, m) < |pool|
      ensures Denotes(pool[Slot(layers, m) := e], layers[Ones(m) := Grown(layers[Ones(m)])], file, processed + {m})
    {
      FreeSlot(pool, layers, file, processed, m);
      LayersGrow(layers, processed, m);
      ListedGrows(pool, layers, file, processed, e, m);
      var pool1, layers1 := pool[Slot(layers, m) := e], layers[Ones(m) := Grown(layers[Ones(m)])];
      forall j | 1 <= j <= nTopDims
        ensures Filled(pool1, j, layers1[j].layerCurrentPopulation, file, processed + {m})
      {
        FilledGrows(pool, layers, file, processed, e, m, j);
      }
    }

    lemma InOrderIs()
      ensures InOrder() <==> Ordered(jpp, lpp, history)
    {
    }

    /** The new entry comes behind the earlier ones of its layer. */
    lemma EntryInOrder(pool: seq<JobPool>, layers: seq<Layer>, file: seq<Word>, processed: set<Bits>, e: JobPool, m: Bits, h: seq<Bits>)
      requires Denotes(pool, layers, file, processed) && Ordered(pool, layers, h)
      requires |m| == nTopDims && m !in processed && 1 <= Ones(m) <= nTopDims
      requires |e.grpb| == 32 && Ones(e.grpb) == Ones(m)
      ensures Slot(layers, m) < |pool|
      ensures Ordered(pool[Slot(layers, m) := e], layers[Ones(m) := Grown(layers[Ones(m)])], h + [e.grpb])
    {
      hide Cube.Denotes; hide Ones; hide LayerStart; hide CountOnes; hide Cube.Slot;
      FreeSlot(pool, layers, file, processed, m);
      SlotIs(layers, m);
      var h1, k := h + [e.grpb], Slot(layers, m);
      var pool1, layers1 := pool[k := e], layers[Ones(m) := Grown(layers[Ones(m)])];
      assert h1[..|h|] == h && h1[..|h| + 1] == h1;
      forall l: nat { CountPrefix(h1, |h|, l); }
      forall a | 0 <= a < |h1| ensures PlacedAt(pool1, h1, a) {
        if a < |h| {
          assert PlacedAt(pool, h, a) && h1[..a] == h[..a];
          var j := Ones(h[a]);
          CountPrefix(h, a, j);
          SlotUnused(pool, layers, file, processed, m, j, PlaceOf(h, a));
        }
      }
    }

    /** The entry JobPoolUpdate makes for the current group-by is a valid one. */
    lemma NewEntry(e: JobPool)
      requires Fixed() && |groupby| == 32 && (forall i :: nTopDims <= i < 32 ==> !groupby[i])
      requires e.grpb == groupby && e.nv == Ones(groupby[..nTopDims])
      requires e.nRows == |Answer(view.inpf, groupby, nTopDims, nm)|
      requires StoredAt(view.viewFile, e.viewOffset, Answer(view.inpf, groupby, nTopDims, nm))
      ensures EntryOk(e, Ones(groupby[..nTopDims]), view.viewFile, done + {groupby[..nTopDims]})
    {
      hide Answer; hide StoredAt; hide Ones;
    }

    /** JobPoolUpdate: enters the view just written at accViewFileOffset into its layer. */
    method JobPoolUpdate()
      requires Denotes(jpp, lpp, view.viewFile, done)
      requires |groupby| == 32 && (forall i :: nTopDims <= i < 32 ==> !groupby[i]) && NonZero(groupby)
      requires groupby[..nTopDims] !in done && view.nv == Ones(groupby[..nTopDims])
      requires view.nViewRows == |Answer(view.inpf, groupby, nTopDims, nm)|
      requires StoredAt(view.viewFile, accViewFileOffset, Answer(view.inpf, groupby, nTopDims, nm))
      requires InOrder()
      modifies this`jpp, this`lpp, this`done, this`history
      ensures done == old(done) + {groupby[..nTopDims]} && history == old(history) + [groupby]
      ensures Denotes(jpp, lpp, view.viewFile, done) && InOrder()
    {
      hide *;
      Sizes(jpp, lpp, view.viewFile, done);
      ghost var m := groupby[..nTopDims];
      OnesOfTop(groupby);
      FreeSlot(jpp, lpp, view.viewFile, done, m);
      SlotIs(lpp, m);
      var l := view.nv;
      var k := lpp[l].layerIndex + lpp[l].layerCurrentPopulation;
      var e := JobPool(groupby, l, view.nViewRows, accViewFileOffset);
      NewEntry(e);
      EntryAdded(jpp, lpp, view.viewFile, done, e, m);
      InOrderIs();
      EntryInOrder(jpp, lpp, view.viewFile, done, e, m, history);
      jpp := jpp[k := e];
      lpp := lpp[l := lpp[l].(layerCurrentPopulation := lpp[l].layerCurrentPopulation + 1)];
      done := done + {m};
      history := history + [groupby];
      InOrderIs();
    }

    // -------------------------------------------------------------------------
    // The run
    // -------------------------------------------------------------------------

    /** A group-by record of the job file: some of the top nTopDims bits are set. */
    ghost predicate Request(bin: Bits) {
      && |bin| == 64 && nTopDims <= 64 && NonZero(bin[..nTopDims])
    }

    /** The current group-by is the request's top bits in a 32-bit word. */
    lemma NarrowRequest(bin: Bits)
      requires Request(bin) && 1 <= nTopDims <= 32
      ensures Narrow(bin, nTopDims)[..nTopDims] == bin[..nTopDims] && NonZero(Narrow(bin, nTopDims))
      ensures Dims(Narrow(bin, nTopDims), nTopDims) == Dims(bin, nTopDims)
      ensures |Dims(bin, nTopDims)| == Ones(bin[..nTopDims]) && 1 <= |Dims(bin, nTopDims)| <= nTopDims
    {
      var w := Narrow(bin, nTopDims);
      assert w[..nTopDims] == bin[..nTopDims];
      var i :| 0 <= i < nTopDims && bin[..nTopDims][i];
      assert w[i];
      DimsSameBits(w, bin, nTopDims);
      OnesOfTop(w);
    }

    /** Where the rows of the next view come from, and that they determine the right view. */
    ghost predicate Feeds(src: seq<Row>, selection: seq<nat>, bin: Bits)
      requires Fixed() && Request(bin)
    {
      Shaped(src, nm) && |src| <= |view.inpf| && Group(Project(src, selection), nm) == Answer(view.inpf, bin, nTopDims, nm)
    }

    /** A superset's rows, read with the relative column numbers, make the child. */
    lemma SupersetFeeds(parent: Bits, child: Bits, bin: Bits)
      requires Fixed() && Request(bin) && child == Narrow(bin, nTopDims)
      requires |parent| == 32 && SubMask(child, parent)
      ensures Feeds(Answer(view.inpf, parent, nTopDims, nm), Columns(parent, child, nTopDims), bin)
    {
      DimsSameBits(child, bin, nTopDims);
      AnswerFromParent(view.inpf, parent, child, nTopDims, nm);
      AnswerSameBits(view.inpf, child, bin, nTopDims, nm);
      AnswerUniform(view.inpf, parent, nTopDims, nm);
      hide Answer; hide Dims; hide Columns; hide Project; hide Group;
    }

    /** The relative column numbers fit the parent's rows. */
    lemma ColumnsFit(parent: Bits, child: Bits, bin: Bits, level: nat)
      requires Request(bin) && 1 <= nTopDims <= 32 && child == Narrow(bin, nTopDims)
      requires |parent| == 32 && SubMask(child, parent) && Ones(parent[..nTopDims]) == level
      ensures var columns := Columns(parent, child, nTopDims);
        |columns| == |Dims(bin, nTopDims)| && forall i :: 0 <= i < |columns| ==> 1 <= columns[i] <= level
    {
      OnesAreDims(parent, nTopDims);
      ColumnsInRange(parent, child, nTopDims);
      ColumnsCompose(parent, child, nTopDims);
      DimsSameBits(child, bin, nTopDims);
    }

    /** The parent's entry, read as the source of the next view. */
    lemma ParentRows(k: nat, level: nat)
      requires Denotes(jpp, lpp, view.viewFile, done) && 1 <= level <= nTopDims && k < |jpp|
      requires Superset(groupby, jpp, lpp, k, level)
      ensures |jpp[k].grpb| == 32 && Ones(jpp[k].grpb[..nTopDims]) == level
      ensures var src := Answer(view.inpf, jpp[k].grpb, nTopDims, nm);
        |src| == jpp[k].nRows && Uniform(src, level, nm) && StoredAt(view.viewFile, jpp[k].viewOffset, src)
    {
      LayerEntries(level);
      hide Cube.Denotes; hide Answer; hide StoredAt; hide LayerStart; hide Ones;
      var parent := jpp[k].grpb;
      assert EntryOk(jpp[k], level, view.viewFile, done);
      OnesAreDims(parent, nTopDims);
      AnswerUniform(view.inpf, parent, nTopDims, nm);
    }

    lemma InputFeeds(bin: Bits)
      requires Fixed() && Request(bin)
      ensures Feeds(view.inpf, Dims(bin, nTopDims), bin)
    {
    }

    /** Where this turn reads from: the parent GetParent found, or the input. */
    ghost predicate Chosen(smp: ParentKind, selection: seq<nat>, src: seq<Row>, bin: Bits)
      requires Fixed() && Request(bin)
      reads this`smallestParentLevel, this`viewOffset, this`nParentViewRows, view`viewFile
    {
      && Feeds(src, selection, bin) && |selection| == |Dims(bin, nTopDims)|
      && (forall i :: 0 <= i < |selection| ==>
            1 <= selection[i] <= if smp != NoneParent then smallestParentLevel else nTopDims)
      && (if smp != NoneParent then
            && 1 <= smallestParentLevel <= nTopDims
            && Uniform(src, smallestParentLevel, nm) && |src| == nParentViewRows
            && StoredAt(view.viewFile, viewOffset, src)
          else src == view.inpf)
    }

    lemma InputChosen(bin: Bits)
      requires Fixed() && Request(bin)
      ensures Chosen(NoneParent, Dims(bin, nTopDims), view.inpf, bin)
    {
      InputFeeds(bin);
      DimsIncreasing(bin, nTopDims);
      hide Cube.Feeds; hide StoredAt; hide Dims;
    }

    lemma ParentChosen(smp: ParentKind, k: nat, bin: Bits)
      requires Denotes(jpp, lpp, view.viewFile, done) && Request(bin) && smp != NoneParent
      requires 1 <= smallestParentLevel <= nTopDims && k < |jpp| && groupby == Narrow(bin, nTopDims)
      requires Superset(groupby, jpp, lpp, k, smallestParentLevel)
      requires viewOffset == jpp[k].viewOffset && nParentViewRows == jpp[k].nRows && parBinRepTuple == jpp[k].grpb
      ensures |parBinRepTuple| == 32 && Fixed()
      ensures Chosen(smp, Columns(parBinRepTuple, groupby, nTopDims), Answer(view.inpf, parBinRepTuple, nTopDims, nm), bin)
    {
      ParentRows(k, smallestParentLevel);
      ColumnsFit(parBinRepTuple, groupby, bin, smallestParentLevel);
      SupersetFeeds(parBinRepTuple, groupby, bin);
      hide Cube.Denotes; hide Cube.Superset; hide Cube.Feeds; hide StoredAt; hide Answer; hide Dims; hide Columns; hide Ones;
      hide Narrow;
    }

    /** Masks of finished group-bys are 32-bit words. */
    ghost predicate Words(h: seq<Bits>) {
      forall a :: 0 <= a < |h| ==> |h[a]| == 32
    }

    /** The sizes of the views of h. */
    ghost function SizesOf(h: seq<Bits>): (sizes: seq<nat>)
      requires Fixed() && Words(h)
      ensures |sizes| == |h|
    {
      seq(|h|, a requires 0 <= a < |h| => |Answer(view.inpf, h[a], nTopDims, nm)|)
    }

    ghost predicate IsParent(h: seq<Bits>, g: Bits, kind: ParentKind, a: nat)
      requires Fixed() && Words(h)
    {
      ParentAmong(h, SizesOf(h), g, kind, a)
    }

    /** The rows and columns the view of a request is made from after the requests h. */
    ghost predicate SourceIs(h: seq<Bits>, bin: Bits, src: seq<Row>, selection: seq<nat>)
      requires Fixed() && Words(h) && Request(bin)
    {
      var g := Narrow(bin, nTopDims);
      if NoParent(h, g) then src == view.inpf && selection == Dims(bin, nTopDims)
      else exists kind, a: nat :: a < |h| && IsParent(h, g, kind, a) && IsViewOf(h[a], g, src, selection)
    }

    /** The rows of a parent's view, and its columns of the group-by g. */
    ghost predicate IsViewOf(parent: Bits, g: Bits, src: seq<Row>, selection: seq<nat>)
      requires Fixed() && |parent| == |g| == 32
    {
      src == Answer(view.inpf, parent, nTopDims, nm) && selection == Columns(parent, g, nTopDims)
    }

    /** Whether rows selected from src can be sorted with this memory limit. */
    ghost predicate SortsFrom(src: seq<Row>, selection: seq<nat>) {
      && selection != [] && Shaped(Project(src, selection), nm)
      && Sortable(Project(src, selection), |selection|, nm, view.memoryLimit)
    }

    /** Whether a request can be computed after the requests h, in terms of the input alone. */
    ghost predicate Sorts(h: seq<Bits>, bin: Bits)
      requires Fixed() && Words(h) && Request(bin)
    {
      var g := Narrow(bin, nTopDims);
      if NoParent(h, g) then SortsFrom(view.inpf, Dims(bin, nTopDims))
      else exists kind, a: nat :: a < |h| && IsParent(h, g, kind, a) && SortsFromView(h[a], g)
    }

    ghost predicate SortsFromView(parent: Bits, g: Bits)
      requires Fixed() && |parent| == |g| == 32
    {
      SortsFrom(Answer(view.inpf, parent, nTopDims, nm), Columns(parent, g, nTopDims))
    }

    /** The source is determined, so it decides. */
    lemma SourceDecides(h: seq<Bits>, bin: Bits, src: seq<Row>, selection: seq<nat>)
      requires Fixed() && Words(h) && Request(bin) && SourceIs(h, bin, src, selection)
      ensures SortsFrom(src, selection) <==> Sorts(h, bin)
    {
      hide Cube.SortsFrom; hide Cube.IsParent; hide NoParent; hide Answer; hide Columns; hide Dims; hide Narrow;
      hide Cube.Fixed; hide NonZero;
      RequestSizes(bin);
      var g := Narrow(bin, nTopDims);
      if !NoParent(h, g) {
        var kind, a: nat :| a < |h| && IsParent(h, g, kind, a) && IsViewOf(h[a], g, src, selection);
        if Sorts(h, bin) {
          var kind1, a1: nat :| a1 < |h| && IsParent(h, g, kind1, a1) && SortsFromView(h[a1], g);
          SameParent(h, g, kind, a, kind1, a1);
        }
      }
    }

    lemma SameParent(h: seq<Bits>, g: Bits, kind: ParentKind, a: nat, kind1: ParentKind, a1: nat)
      requires Fixed() && Words(h) && IsParent(h, g, kind, a) && IsParent(h, g, kind1, a1)
      ensures a == a1
    {
      hide Cube.Fixed; hide ParentAmong;
      ParentUnique(h, SizesOf(h), g, kind, a, kind1, a1);
    }

    lemma HistoryWords()
      requires InOrder()
      ensures Words(history)
    {
      hide Ones; hide Cube.PlaceOf;
      forall a | 0 <= a < |history| ensures |history[a]| == 32 {
        assert PlacedAt(jpp, history, a);
      }
    }

    /** A finished group-by, found in its layer. */
    lemma PlaceFacts(a: nat)
      requires Denotes(jpp, lpp, view.viewFile, done) && InOrder() && a < |history|
      ensures Fixed() && |history[a]| == 32 && 1 <= Ones(history[a]) <= nTopDims && Ones(history[a]) < |lpp|
      ensures PlaceOf(history, a) < |jpp| && jpp[PlaceOf(history, a)].grpb == history[a]
      ensures At(Ones(history[a]), 0) <= PlaceOf(history, a) < At(Ones(history[a]), lpp[Ones(history[a])].layerCurrentPopulation)
      ensures jpp[PlaceOf(history, a)].nRows == |Answer(view.inpf, history[a], nTopDims, nm)|
    {
      hide Cube.Denotes; hide Ones; hide LayerStart; hide Answer; hide StoredAt;
      assert PlacedAt(jpp, history, a);
      CountPrefix(history, a, Ones(history[a]));
      LayerEntries(Ones(history[a]));
    }

    /** An entry of a layer is the place of some finished group-by. */
    lemma PlaceTaken(l: nat, k: nat) returns (a: nat)
      requires Denotes(jpp, lpp, view.viewFile, done) && InOrder() && 1 <= l <= nTopDims && l < |lpp|
      requires At(l, 0) <= k < At(l, lpp[l].layerCurrentPopulation)
      ensures a < |history| && Ones(history[a]) == l && PlaceOf(history, a) == k
    {
      hide Cube.Denotes; hide Ones; hide LayerStart;
      a := NthOfLayer(history, l, k - At(l, 0));
    }

    /** Places in a layer are in the order of the requests. */
    lemma PlacesAscend(a: nat, b: nat)
      requires a < b < |history| && Ones(history[a]) == Ones(history[b]) >= 1
      ensures PlaceOf(history, a) < PlaceOf(history, b)
    {
      hide Ones; hide LayerStart;
      CountPrefix(history, a, Ones(history[a]));
      CountMonotone(history, a + 1, b, Ones(history[a]));
    }

    /** No superset in the pool: none among the earlier requests. */
    lemma NoneInHistory()
      requires Denotes(jpp, lpp, view.viewFile, done) && InOrder() && |lpp| == nTopDims + 1
      requires NoSuperset(groupby, jpp, lpp, 1, nTopDims + 1)
      ensures NoParent(history, groupby)
    {
      hide Cube.Denotes; hide Ones; hide LayerStart; hide SubMask; hide Answer; hide Cube.PlaceOf; hide Cube.InOrder;
      forall a | 0 <= a < |history| ensures !SubMask(groupby, history[a]) {
        PlaceFacts(a);
        assert !Superset(groupby, jpp, lpp, PlaceOf(history, a), Ones(history[a]));
      }
    }

    /** The parent picked in the pool is the parent among the earlier requests. */
    lemma PickedIsParent(kind: ParentKind, k: nat, l: nat) returns (a: nat)
      requires Denotes(jpp, lpp, view.viewFile, done) && InOrder() && |lpp| == nTopDims + 1 && 1 <= l <= nTopDims
      requires Picked(kind, k, l) && NoSuperset(groupby, jpp, lpp, 1, l)
      ensures a < |history| && k < |jpp| && history[a] == jpp[k].grpb
      ensures Fixed() && Words(history) && IsParent(history, groupby, kind, a)
      ensures !NoParent(history, groupby)
    {
      hide Cube.Denotes; hide Ones; hide LayerStart; hide SubMask; hide Serves; hide Answer; hide Cube.PlaceOf; hide Cube.InOrder;
      hide Cube.Fixed;
      HistoryWords();
      a := PlaceTaken(l, k);
      PlaceFacts(a);
      ServesIsSuperset(kind, groupby, history[a]);
      forall b | 0 <= b < |history|
        ensures SubMask(groupby, history[b]) ==> l <= Ones(history[b])
        ensures Ones(history[b]) == l ==>
          && (Serves(kind, groupby, history[b]) ==>
                SizesOf(history)[a] <= SizesOf(history)[b] && (b < a ==> SizesOf(history)[a] < SizesOf(history)[b]))
          && (Serves(PrefixedParent, groupby, history[b]) ==> kind == PrefixedParent)
          && (Serves(SharedSortParent, groupby, history[b]) ==> kind != SmallestParent)
      {
        PlaceFacts(b);
        if Ones(history[b]) < l {
          assert !Superset(groupby, jpp, lpp, PlaceOf(history, b), Ones(history[b]));
        }
        if Ones(history[b]) == l && b < a { PlacesAscend(b, a); }
      }
    }

    /** The parent search of one turn, and the column numbers that go with it. */
    method ChooseSource(bin: Bits) returns (smp: ParentKind, selection: seq<nat>, nSelectedDims: nat, ghost src: seq<Row>)
      requires PoolOk() && InOrder() && Request(bin)
      modifies this`groupby, this`smallestParentLevel, this`viewOffset, this`nParentViewRows, this`parBinRepTuple
      ensures Fixed() && groupby == Narrow(bin, nTopDims) && nSelectedDims == |Dims(bin, nTopDims)|
      ensures Chosen(smp, selection, src, bin)
      ensures Words(history) && SourceIs(history, bin, src, selection)
      ensures smp == NoneParent <==> NoSuperset(groupby, jpp, lpp, 1, nTopDims + 1)
    {
      hide *;
      FixedSizes();
      IsDenoted();
      HistoryWords();
      RequestSizes(bin);
      NarrowRequest(bin);
      selection, nSelectedDims := GetRegTupleFromBin64(bin, nTopDims);
      groupby := Narrow(bin, nTopDims);
      var k;
      smp, k := GetParent(groupby);
      if smp != NoneParent {
        ParentChosen(smp, k, bin);
        ghost var a := PickedIsParent(smp, k, smallestParentLevel);
        FromParent(bin, smp, a);
        selection := GetRegTupleFromParent(bin, parBinRepTuple, nTopDims);
        src := Answer(view.inpf, parBinRepTuple, nTopDims, nm);
      } else {
        InputChosen(bin);
        NoneInHistory();
        FromInput(bin);
        src := view.inpf;
      }
    }

    lemma RequestSizes(bin: Bits)
      requires Request(bin) && Fixed()
      ensures |bin| == 64 && nTopDims <= 20 && Shaped(view.inpf, nm)
    {
    }

    lemma FromInput(bin: Bits)
      requires Fixed() && Words(history) && Request(bin) && NoParent(history, Narrow(bin, nTopDims))
      ensures SourceIs(history, bin, view.inpf, Dims(bin, nTopDims))
    {
    }

    lemma FromParent(bin: Bits, kind: ParentKind, a: nat)
      requires Fixed() && Words(history) && Request(bin) && IsParent(history, Narrow(bin, nTopDims), kind, a)
      requires a < |history| && !NoParent(history, Narrow(bin, nTopDims))
      ensures SourceIs(history, bin, Answer(view.inpf, history[a], nTopDims, nm), Columns(history[a], Narrow(bin, nTopDims), nTopDims))
    {
      hide NoParent; hide Cube.IsParent; hide Answer; hide Columns;
    }

    /**
     * The first half of one turn of ComputeGivenGroupbys: clears the checksums, finds a
     * parent, and sets up the view with absolute or relative column numbers.
     */
    method PrepareView(bin: Bits) returns (ghost src: seq<Row>)
      requires PoolOk() && InOrder() && Idle() && Request(bin)
      modifies this`groupby, this`smallestParentLevel, this`viewOffset, this`nParentViewRows, this`parBinRepTuple
      modifies view`checksums, view`nv, view`selection, view`outRecSize, view`inpRecSize, view`numberOfChunks,
               view`fromParent, view`nViewRows, view`nd, view`viewPos, view`nRowsToRead, view`mSums
      ensures view.Ready() && view.Source(src) && Fixed() && Feeds(src, view.selection, bin)
      ensures Words(history) && SourceIs(history, bin, src, view.selection)
      ensures groupby == Narrow(bin, nTopDims) && view.nv == |Dims(bin, nTopDims)|
      ensures view.fromParent <==> !NoSuperset(groupby, jpp, lpp, 1, nTopDims + 1)
    {
      hide Cube.Denotes; hide StoredAt; hide NonZero; hide Narrow; hide Cube.NoSuperset; hide Dims; hide Cube.Feeds;
      hide View.Stable; hide View.Ready; hide Cube.PoolOk; hide Ones; hide Zeros; hide Answer; hide Cube.Superset;
      FixedSizes();
      NarrowRequest(bin);
      view.checksums := Zeros(nm);
      var smp, selection, nSelectedDims;
      smp, selection, nSelectedDims, src := ChooseSource(bin);
      view.InitAdcViewCntl(nSelectedDims, selection, smp != NoneParent, smallestParentLevel, viewOffset, nParentViewRows);
      assert view.inpf[0..|view.inpf|] == view.inpf;
    }

    /** No view of this run reaches 2^32 bytes, so the uint32 product is exact. */
    lemma OffsetStep(rows: seq<Row>, nv: nat)
      requires Fixed() && nv <= nTopDims && Uniform(rows, nv, nm) && |rows| <= |view.inpf|
      ensures Mul32(|rows|, 4 * nv + 8 * nm) == 4 * |EncodeAll(rows)|
    {
      hide Times; hide EncodeAll; hide Mul; hide View.Stable;
      EncodeAllLength(rows, nv, nm);
      TimesScale(|rows|, 4, Width(nv, nm));
      RecordBytes(nv);
      TimesSize(|rows|, 4 * nv + 8 * nm, 4 * nTopDims + 8 * nm);
      TimesMonotone(|rows|, |view.inpf|, 4 * nTopDims + 8 * nm);
    }

    lemma RecordBytes(nv: nat)
      ensures 4 * Width(nv, nm) == 4 * nv + 8 * nm
    {
    }

    /** totchs[i] += checksums[i] */
    method AddTotals()
      requires |totchs| == |view.checksums| == nm
      modifies this`totchs
      ensures totchs == AddMeasures(old(totchs), view.checksums)
    {
      var i := 0;
      while i < nm
        invariant 0 <= i <= nm && |totchs| == nm
        invariant forall j :: 0 <= j < nm ==> totchs[j] == if j < i then old(totchs)[j] + view.checksums[j] else old(totchs)[j]
      {
        totchs := totchs[i := totchs[i] + view.checksums[i]];
        i := i + 1;
      }
    }

    /** A view has just been appended to the file at base. */
    ghost predicate Written(bin: Bits, base: seq<Word>, rows: seq<Row>)
      reads this`jpp, this`lpp, this`done, this`accViewFileOffset, this`groupby
      reads view`viewFile, view`nViewRows, view`nv, view`outRecSize
    {
      && Denotes(jpp, lpp, base, done) && accViewFileOffset == 4 * |base| && Request(bin)
      && rows == Answer(view.inpf, bin, nTopDims, nm)
      && view.viewFile == base + EncodeAll(rows) && view.nViewRows == |rows|
      && groupby == Narrow(bin, nTopDims) && bin[..nTopDims] !in done
      && view.nv == |Dims(bin, nTopDims)| && view.outRecSize == 4 * view.nv + 8 * nm
    }

    /** The pool already denotes its views in the longer file, and the new rows are at the offset. */
    lemma ReadyToEnter(bin: Bits, base: seq<Word>, rows: seq<Row>)
      requires Written(bin, base, rows)
      ensures Fixed() && Denotes(jpp, lpp, view.viewFile, done)
      ensures |groupby| == 32 && (forall i :: nTopDims <= i < 32 ==> !groupby[i]) && NonZero(groupby)
      ensures groupby[..nTopDims] == bin[..nTopDims] && view.nv == Ones(groupby[..nTopDims])
      ensures |bin| == 64 && nTopDims <= 32 && groupby == Narrow(bin, nTopDims)
      ensures view.nViewRows == |Answer(view.inpf, groupby, nTopDims, nm)|
      ensures StoredAt(view.viewFile, accViewFileOffset, Answer(view.inpf, groupby, nTopDims, nm))
    {
      FileGrows(base, EncodeAll(rows));
      StoredAtEnd(base, rows);
      hide Cube.Denotes; hide StoredAt; hide EncodeAll; hide Ones;
      NarrowRequest(bin);
      AnswerSameBits(view.inpf, groupby, bin, nTopDims, nm);
      hide Answer; hide Dims;
    }

    lemma OffsetGrows(bin: Bits, base: seq<Word>, rows: seq<Row>)
      requires Written(bin, base, rows)
      ensures accViewFileOffset + Mul32(view.nViewRows, view.outRecSize) == 4 * |view.viewFile|
    {
      hide *;
      WrittenFacts(bin, base, rows);
      NarrowRequest(bin);
      AnswerUniform(view.inpf, bin, nTopDims, nm);
      OffsetStep(rows, view.nv);
    }

    lemma WrittenFacts(bin: Bits, base: seq<Word>, rows: seq<Row>)
      requires Written(bin, base, rows)
      ensures Fixed() && Shaped(view.inpf, nm) && 1 <= nTopDims <= 20 && Request(bin) && |bin| == 64
      ensures bin[..nTopDims] !in done && view.nViewRows == |rows| && rows == Answer(view.inpf, bin, nTopDims, nm)
      ensures 4 * |view.viewFile| == accViewFileOffset + 4 * |EncodeAll(rows)|
      ensures view.outRecSize == 4 * view.nv + 8 * nm && view.nv == |Dims(bin, nTopDims)|
    {
      hide Answer; hide EncodeAll; hide Dims; hide View.Stable; hide NonZero; hide Narrow;
      hide Cube.LayersOk; hide Cube.Filled; hide Cube.Listed; hide Times;
    }

    lemma PoolOkIs()
      requires Denotes(jpp, lpp, view.viewFile, done) && accViewFileOffset == 4 * |view.viewFile|
      ensures PoolOk()
    {
    }

    lemma IdleIs()
      requires view.fileOfChunks == [] && view.inpPos == 0
      ensures Idle()
    {
    }

    /** The second half: enters the view into the pool and moves on in the view file. */
    method FinishView(bin: Bits, ghost base: seq<Word>, ghost rows: seq<Row>)
      requires Written(bin, base, rows) && |totchs| == |view.checksums| == nm
      requires |bin| == 64 && nTopDims <= 64
      requires InOrder()
      modifies this`jpp, this`lpp, this`done, this`history, this`accViewFileOffset, this`totchs, this`viewSizes
      modifies view`fileOfChunks, view`inpPos
      ensures PoolOk() && InOrder() && Idle() && done == old(done) + {bin[..nTopDims]}
      ensures nTopDims <= 32 && history == old(history) + [Narrow(bin, nTopDims)]
      ensures viewSizes == old(viewSizes) + [(bin[..nTopDims], |rows|)]
      ensures totchs == AddMeasures(old(totchs), view.checksums)
    {
      hide *;
      WrittenFacts(bin, base, rows);
      ReadyToEnter(bin, base, rows);
      OffsetGrows(bin, base, rows);
      JobPoolUpdate();
      accViewFileOffset := accViewFileOffset + Mul32(view.nViewRows, view.outRecSize);
      PoolOkIs();
      view.fileOfChunks := [];
      view.inpPos := 0;
      AddTotals();
      IdleIs();
      viewSizes := viewSizes + [(bin[..nTopDims], view.nViewRows)];
    }

    /** What MakeView left behind, in terms of the input. */
    lemma ViewMade(bin: Bits, base: seq<Word>, src: seq<Row>)
      requires Denotes(jpp, lpp, base, done) && accViewFileOffset == 4 * |base| && Request(bin)
      requires groupby == Narrow(bin, nTopDims) && bin[..nTopDims] !in done && Feeds(src, view.selection, bin)
      requires var rows := Group(Project(src, view.selection), nm);
        view.Written(base, rows, view.numberOfChunks == 0) && view.nViewRows == |rows|
      requires view.nv == |Dims(bin, nTopDims)| && view.outRecSize == 4 * view.nv + 8 * nm
      ensures Fixed() && |bin| == 64 && nTopDims <= 64 && Shaped(view.inpf, nm)
      ensures var rows := Answer(view.inpf, bin, nTopDims, nm);
        && Written(bin, base, rows)
        && view.checksums == Checks(rows, nm, view.numberOfChunks == 0) && |view.checksums| == nm
        && view.mSums == Sums(view.inpf, nm)
    {
      SumsProject(view.inpf, Dims(bin, nTopDims), nm);
      SumsConserved(Project(view.inpf, Dims(bin, nTopDims)), nm);
      hide Cube.LayersOk; hide Cube.Filled; hide Cube.Listed; hide Group; hide Project; hide Dims; hide Sums; hide Checks;
      hide EncodeAll; hide Narrow; hide NonZero; hide View.Stable; hide Times;
    }

    /** With ample memory the next view can be sorted, wherever its rows come from. */
    lemma ReadySorts(src: seq<Row>, bin: Bits)
      requires view.Ready() && Fixed() && Request(bin) && Feeds(src, view.selection, bin)
      ensures view.outRecSize == 4 * view.nv + 8 * nm
      ensures Shaped(Project(src, view.selection), nm) && 1 <= view.nv
      ensures Sortable(Project(src, view.selection), view.nv, nm, view.memoryLimit) <==> SortsFrom(src, view.selection)
      ensures Roomy() ==> SortsFrom(src, view.selection)
    {
      hide Answer; hide Group; hide Sortable; hide NonZero; hide Times; hide Fit;
      if Roomy() {
        AmpleSorts(Project(src, view.selection), view.nv, nTopDims, nm, view.memoryLimit);
      }
    }

    /** The memory limit is ample for the input. */
    ghost predicate Roomy() {
      nTopDims >= 1 && Ample(|view.inpf|, nTopDims, nm, view.memoryLimit)
    }

    lemma IsDenoted()
      requires PoolOk()
      ensures Denotes(jpp, lpp, view.viewFile, done) && accViewFileOffset == 4 * |view.viewFile| && view.nm == nm
    {
    }

    /**
     * One turn of ComputeGivenGroupbys.  Whichever parent is used, the pool gains an entry
     * whose rows are the group-by-sum of the input, and the view's measure sums are the input's.
     */
    method ComputeView(bin: Bits) returns (rc: Code)
      requires PoolOk() && InOrder() && Idle() && Request(bin) && bin[..nTopDims] !in done && |totchs| == nm
      modifies this, view, view.chunksParams, view.tree, view.tree.pool, view.tree.nodes, view.tree.drcts
      ensures PoolOk() && InOrder() && Fixed() && Words(old(history))
      ensures rc == ADC_OK <==> Sorts(old(history), bin)
      ensures rc == ADC_OK ==> nTopDims <= 32 && history == old(history) + [Narrow(bin, nTopDims)]
      ensures rc == ADC_OK ==>
        var rows := Answer(view.inpf, bin, nTopDims, nm);
        && Idle() && done == old(done) + {bin[..nTopDims]}
        && viewSizes == old(viewSizes) + [(bin[..nTopDims], |rows|)]
        && totchs == AddMeasures(old(totchs), Checks(rows, nm, view.numberOfChunks == 0))
        && Shaped(rows, nm) && |totchs| == |old(totchs)| == nm
        && (forall i :: 0 <= i < nm ==> totchs[i] == old(totchs)[i] + CheckSum(rows, i, nm, view.numberOfChunks == 0, |rows|))
        && view.mSums == Sums(view.inpf, nm)
      ensures Roomy() ==> rc == ADC_OK
      ensures rc != ADC_OK ==> done == old(done) && history == old(history) && viewSizes == old(viewSizes) && totchs == old(totchs)
      ensures view.fromParent <==> !NoSuperset(groupby, old(jpp), old(lpp), 1, nTopDims + 1)
    {
      hide *;
      FixedSizes();
      IsDenoted();
      ghost var base := view.viewFile;
      ghost var src := PrepareView(bin);
      ReadySorts(src, bin);
      SourceDecides(history, bin, src, view.selection);
      rc := view.MakeView(src);
      if rc == ADC_OK {
        ViewMade(bin, base, src);
        ChecksAdded(totchs, Answer(view.inpf, bin, nTopDims, nm), nm, view.numberOfChunks == 0);
        AnswerShaped(view.inpf, bin, nTopDims, nm);
        FinishView(bin, base, Answer(view.inpf, bin, nTopDims, nm));
      } else {
        PoolOkIs();
      }
    }

    /** The job's group-by file: requests for distinct group-bys. */
    ghost predicate Requests(file: seq<Bits>) {
      && (forall i :: 0 <= i < |file| ==> Request(file[i]))
      && (forall i, j :: 0 <= i < j < |file| ==> file[i][..nTopDims] != file[j][..nTopDims])
    }

    ghost function Requested(file: seq<Bits>, k: nat): set<Bits>
      requires k <= |file| && Requests(file)
    {
      set i | 0 <= i < k :: file[i][..nTopDims]
    }

    /** The first k requests, as the run remembers them. */
    ghost function Narrowed(file: seq<Bits>, k: nat): (h: seq<Bits>)
      requires k <= |file| && Requests(file) && nTopDims <= 32
      ensures |h| == k && Words(h)
    {
      seq(k, i requires 0 <= i < k => Narrow(file[i], nTopDims))
    }

    /** Request k can be computed after the k requests before it. */
    ghost predicate RequestSorts(file: seq<Bits>, k: nat)
      requires Fixed() && k < |file| && Requests(file)
    {
      Sorts(Narrowed(file, k), file[k])
    }

    lemma RequestSortsIs(file: seq<Bits>, k: nat)
      requires Fixed() && k < |file| && Requests(file) && Request(file[k]) && nTopDims <= 32
      ensures RequestSorts(file, k) <==> Sorts(Narrowed(file, k), file[k])
    {
    }

    lemma NarrowedNext(file: seq<Bits>, k: nat)
      requires k < |file| && Requests(file) && nTopDims <= 32
      ensures |file[k]| == 64 && Narrowed(file, k + 1) == Narrowed(file, k) + [Narrow(file[k], nTopDims)]
    {
      assert Request(file[k]);
    }

    lemma NothingNarrowed(file: seq<Bits>)
      requires Requests(file) && Fixed()
      ensures nTopDims <= 32 && Narrowed(file, 0) == []
    {
    }

    lemma NextRequest(file: seq<Bits>, k: nat)
      requires k < |file| && Requests(file)
      ensures Request(file[k]) && |file[k]| == 64 && nTopDims <= 64
      ensures file[k][..nTopDims] !in Requested(file, k)
      ensures Requested(file, k + 1) == Requested(file, k) + {file[k][..nTopDims]}
    {
      hide NonZero;
      forall x | x in Requested(file, k) + {file[k][..nTopDims]} ensures x in Requested(file, k + 1) {
        if x in Requested(file, k) {
          var i :| 0 <= i < k && file[i][..nTopDims] == x;
          assert i < k + 1;
        }
      }
    }

    /** The sizes file after k views. */
    ghost predicate SizesAre(sizes: seq<(Bits, nat)>, file: seq<Bits>, k: nat)
      requires k <= |file| && Requests(file) && Fixed()
    {
      |sizes| == k && forall i :: 0 <= i < k ==> sizes[i] == SizeOf(file[i])
    }

    ghost function SizeOf(bin: Bits): (Bits, nat)
      requires Request(bin) && Fixed()
    {
      (bin[..nTopDims], |Answer(view.inpf, bin, nTopDims, nm)|)
    }

    lemma SizesGrow(sizes: seq<(Bits, nat)>, file: seq<Bits>, k: nat)
      requires k < |file| && Requests(file) && Fixed() && SizesAre(sizes, file, k)
      ensures Shaped(view.inpf, nm) && |file[k]| == 64 && nTopDims <= 64
      ensures SizesAre(sizes + [(file[k][..nTopDims], |Answer(view.inpf, file[k], nTopDims, nm)|)], file, k + 1)
    {
      hide NonZero; hide Answer;
      assert Request(file[k]);
    }

    /** Progress of a run: the first k requests are finished views. */
    ghost predicate Done(file: seq<Bits>, k: nat, inMemory: seq<bool>)
      requires Requests(file)
      reads this`done, this`viewSizes, this`totchs, view`mSums
    {
      && Fixed() && k <= |file| && |inMemory| == k
      && done == Requested(file, k)
      && SizesAre(viewSizes, file, k)
      && (forall i :: 0 <= i < k ==> nTopDims <= |file[i]|)
      && totchs == TotalChecks(view.inpf, file, inMemory, k, nTopDims, nm)
    }

    lemma DoneStart(file: seq<Bits>)
      requires Requests(file) && Fixed() && done == {} && viewSizes == [] && totchs == Zeros(nm)
      ensures Done(file, 0, [])
    {
    }

    lemma DoneStep(file: seq<Bits>, k: nat, inMemory: seq<bool>, done0: set<Bits>, sizes0: seq<(Bits, nat)>, totchs0: seq<int>, b: bool)
      requires Requests(file) && Fixed() && k < |file| && |inMemory| == k
      requires done0 == Requested(file, k) && SizesAre(sizes0, file, k)
      requires forall i :: 0 <= i <= k ==> nTopDims <= |file[i]|
      requires totchs0 == TotalChecks(view.inpf, file, inMemory, k, nTopDims, nm)
      requires var rows := Answer(view.inpf, file[k], nTopDims, nm);
        && done == done0 + {file[k][..nTopDims]} && viewSizes == sizes0 + [(file[k][..nTopDims], |rows|)]
        && totchs == AddMeasures(totchs0, Checks(rows, nm, b))
      ensures Done(file, k + 1, inMemory + [b])
    {
      NextRequest(file, k);
      SizesGrow(sizes0, file, k);
      TotalChecksPrefix(view.inpf, file, inMemory, inMemory + [b], k, nTopDims, nm);
      hide Answer; hide NonZero; hide Cube.SizesAre; hide Cube.Requested; hide Checks; hide Cube.Requests; hide Cube.Fixed;
    }

    lemma DoneFacts(file: seq<Bits>, k: nat, inMemory: seq<bool>)
      requires Requests(file) && Done(file, k, inMemory)
      ensures Fixed() && k <= |file| && |inMemory| == k && |totchs| == nm
      ensures done == Requested(file, k) && SizesAre(viewSizes, file, k)
      ensures forall i :: 0 <= i < |file| ==> nTopDims <= |file[i]|
      ensures Shaped(view.inpf, nm) && totchs == TotalChecks(view.inpf, file, inMemory, k, nTopDims, nm)
    {
      hide Answer; hide NonZero; hide Cube.SizesAre; hide Cube.Requested; hide TotalChecks;
      assert forall i :: 0 <= i < |file| ==> Request(file[i]);
    }

    /**
     * ComputeGivenGroupbys, for any memory limit and any requests.  On success the pool holds
     * exactly the requested views, each the group-by-sum of the input, the sizes file lists
     * their sizes, and the total checksum adds up theirs.  It fails at the first request whose
     * rows, from the parent the earlier requests offer, cannot be sorted with this memory; then
     * the views finished so far are intact.
     */
    method ComputeGivenGroupbys(groupbyFile: seq<Bits>) returns (rc: Code, ghost inMemory: seq<bool>)
      requires PoolOk() && InOrder() && Idle() && Requests(groupbyFile)
      requires history == [] && done == {} && viewSizes == [] && totchs == Zeros(nm)
      modifies this, view, view.chunksParams, view.tree, view.tree.pool, view.tree.nodes, view.tree.drcts
      ensures PoolOk() && InOrder() && Fixed()
      ensures Done(groupbyFile, |inMemory|, inMemory) && history == Narrowed(groupbyFile, |inMemory|)
      ensures rc == ADC_OK <==> forall i :: 0 <= i < |groupbyFile| ==> RequestSorts(groupbyFile, i)
      ensures rc != ADC_OK ==> |inMemory| < |groupbyFile| && !RequestSorts(groupbyFile, |inMemory|)
      ensures forall i :: 0 <= i < |inMemory| ==> RequestSorts(groupbyFile, i)
      ensures rc == ADC_OK ==> |inMemory| == |groupbyFile| && Idle()
      ensures Roomy() ==> rc == ADC_OK
      ensures rc == ADC_OK && |groupbyFile| > 0 ==> Fixed() && view.mSums == Sums(view.inpf, nm)
    {
      hide *;
      FixedSizes();
      DoneStart(groupbyFile);
      NothingNarrowed(groupbyFile);
      inMemory := [];
      rc := ADC_OK;
      var nViews := 0;
      while nViews < |groupbyFile|
        invariant nViews <= |groupbyFile|
        invariant PoolOk() && InOrder() && Idle() && Done(groupbyFile, nViews, inMemory) && |inMemory| == nViews
        invariant Fixed() && nTopDims <= 32 && history == Narrowed(groupbyFile, nViews)
        invariant forall i :: 0 <= i < nViews ==> RequestSorts(groupbyFile, i)
        invariant rc == ADC_OK
        invariant nViews > 0 ==> view.mSums == Sums(view.inpf, nm)
      {
        DoneFacts(groupbyFile, nViews, inMemory);
        NextRequest(groupbyFile, nViews);
        ghost var done0, sizes0, totchs0 := done, viewSizes, totchs;
        RequestSortsIs(groupbyFile, nViews);
        rc := ComputeView(groupbyFile[nViews]);
        if rc != ADC_OK {
          Unchanged(groupbyFile, nViews, inMemory);
          return;
        }
        NarrowedNext(groupbyFile, nViews);
        DoneStep(groupbyFile, nViews, inMemory, done0, sizes0, totchs0, view.numberOfChunks == 0);
        inMemory := inMemory + [view.numberOfChunks == 0];
        nViews := nViews + 1;
      }
    }

    lemma Unchanged(file: seq<Bits>, k: nat, inMemory: seq<bool>)
      requires Requests(file) && Fixed() && k <= |file| && |inMemory| == k
      requires done == Requested(file, k) && SizesAre(viewSizes, file, k)
      requires forall i :: 0 <= i < |file| ==> nTopDims <= |file[i]|
      requires totchs == TotalChecks(view.inpf, file, inMemory, k, nTopDims, nm)
      ensures Done(file, k, inMemory)
    {
    }

    /** What the pool says of a finished view: where its rows are in the view file, and what they are. */
    lemma ViewInPool(m: Bits)
      requires PoolOk() && m in done
      ensures exists k :: 0 <= k < |jpp| && Names(jpp, k, m) && EntryOk(jpp[k], Ones(m), view.viewFile, done)
      ensures Fixed() && |m| == nTopDims
      ensures exists k, rows :: 0 <= k < |jpp| && Names(jpp, k, m) && IsViewAt(jpp[k], rows, m)
    {
      var k :| At(Ones(m), 0) <= k < At(Ones(m), lpp[Ones(m)].layerCurrentPopulation) && Names(jpp, k, m);
      LayerEntries(Ones(m));
      assert EntryOk(jpp[k], Ones(m), view.viewFile, done);
      EntryIsView(jpp[k], m);
      assert IsViewAt(jpp[k], Answer(view.inpf, jpp[k].grpb, nTopDims, nm), m);
    }

    /** The entry delimits rows in the view file that are the group-by-sum of the input on m's dimensions. */
    ghost predicate IsViewAt(e: JobPool, rows: seq<Row>, m: Bits)
      requires |m| == nTopDims
      reads view`viewFile
    {
      StoredAt(view.viewFile, e.viewOffset, rows) && e.nRows == |rows| && GroupedBy(rows, view.inpf, Dims(m, nTopDims), nm)
    }

    lemma EntryIsView(e: JobPool, m: Bits)
      requires Fixed() && nTopDims <= |e.grpb| && e.grpb[..nTopDims] == m
      requires EntryOk(e, Ones(m), view.viewFile, done)
      ensures |m| == nTopDims && IsViewAt(e, Answer(view.inpf, e.grpb, nTopDims, nm), m)
    {
      hide Answer; hide GroupedBy; hide Dims; hide StoredAt; hide Ones;
      AnswerIsGroupBy(view.inpf, e.grpb, nTopDims, nm);
      DimsSameBits(e.grpb, m, nTopDims);
    }
  }
}
