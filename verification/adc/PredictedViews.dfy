/**
 * Where the generator and the cube meet: on generated rows every computed view has exactly the
 * predicted size, so the run's final verification passes.
 */
module PredictedViews {
  import opened Arith
  import opened Rows
  import opened Masks
  import opened DataCube
  import J = JobFiles
  import T = Tuples
  import V = ViewSizes

  // ---------------------------------------------------------------------------
  // The number of groups
  // ---------------------------------------------------------------------------

  ghost function KeysOf(rows: seq<Row>): set<Key> {
    set i | 0 <= i < |rows| :: rows[i].key
  }

  lemma KeyOccurs(rows: seq<Row>, k: Key)
    ensures k in KeysOf(rows) <==> HasKey(rows, Is(k))
  {
    if HasKey(rows, Is(k)) {
      var j :| 0 <= j < |rows| && Is(k)(rows[j].key);
      assert rows[j].key == k;
    }
    if k in KeysOf(rows) {
      var i :| 0 <= i < |rows| && rows[i].key == k;
      assert Is(k)(rows[i].key);
    }
  }

  /** A strictly sorted list has as many keys as rows. */
  lemma {:induction false} SortedKeys(s: seq<Row>)
    requires Sorted(s)
    ensures |KeysOf(s)| == |s|
  {
    hide Less;
    if s != [] {
      var n := |s| - 1;
      var front, k := s[..n], s[n].key;
      SortedKeys(front);
      var all, fewer := KeysOf(s), KeysOf(front);
      LastKeyNew(s);
      forall x ensures x in all <==> x in fewer || x == k {
        if x in all {
          var i :| 0 <= i < |s| && s[i].key == x;
          if i < n { assert front[i].key == x; }
        }
        if x in fewer {
          var i :| 0 <= i < n && front[i].key == x;
          assert s[i].key == x;
        }
        assert s[n].key in all;
      }
      assert all == fewer + {k};
    }
  }

  lemma LastKeyNew(s: seq<Row>)
    requires Sorted(s) && s != []
    ensures s[|s| - 1].key !in KeysOf(s[..|s| - 1])
  {
    var n := |s| - 1;
    forall i | 0 <= i < n ensures s[..n][i].key != s[n].key {
      assert Less(s[i].key, s[n].key);
      CompareFlip(s[i].key, s[n].key);
    }
  }

  /** The group-by-sum has a row for every different key. */
  lemma GroupSize(rows: seq<Row>, nm: nat)
    requires Shaped(rows, nm)
    ensures |Group(rows, nm)| == |KeysOf(rows)|
  {
    hide Group; hide Sorted; hide HasKey;
    var g := Group(rows, nm);
    SortedKeys(g);
    forall k: Key ensures k in KeysOf(g) <==> k in KeysOf(rows) {
      KeyOccurs(g, k);
      KeyOccurs(rows, k);
      GroupHasKey(rows, nm, Is(k));
    }
    assert KeysOf(g) == KeysOf(rows);
  }

  // ---------------------------------------------------------------------------
  // Masks as numbers
  // ---------------------------------------------------------------------------

  /** The number of a mask's first n bits, dimension 1 in the lowest place. */
  function Number(mask: Bits, n: nat): nat
    requires n <= |mask|
  {
    if n == 0 then 0 else Number(mask, n - 1) + (if mask[n - 1] then Pow2(n - 1) else 0)
  }

  lemma {:induction false} NumberBelow(mask: Bits, n: nat)
    requires n <= |mask|
    ensures Number(mask, n) < Pow2(n)
  {
    if n > 0 { NumberBelow(mask, n - 1); }
  }

  lemma {:induction false} NumberSameBits(a: Bits, b: Bits, n: nat)
    requires n <= |a| && n <= |b| && forall i :: 0 <= i < n ==> a[i] == b[i]
    ensures Number(a, n) == Number(b, n)
  {
    if n > 0 { NumberSameBits(a, b, n - 1); }
  }

  /** Setting a higher bit chooses one more entry, the last one. */
  lemma {:induction false} ChosenNext<X>(s: seq<X>, m: nat, i: nat, j: nat)
    requires m < Pow2(j) && i + j < |s|
    ensures V.Chosen(s, m + Pow2(j), i) == V.Chosen(s, m, i) + [s[i + j]]
    decreases j
  {
    if j == 0 {
      assert m == 0 && Pow2(0) == 1;
      assert V.Chosen(s, 0, i + 1) == [];
      assert V.Chosen(s, 1, i) == [s[i]] + V.Chosen(s, 0, i + 1);
    } else {
      assert Pow2(j) == 2 * Pow2(j - 1);
      ChosenNext(s, m / 2, i + 1, j - 1);
      assert (m + Pow2(j)) / 2 == m / 2 + Pow2(j - 1) && (m + Pow2(j)) % 2 == m % 2;
    }
  }

  /** Choosing by number is projecting on the mask's dimensions. */
  lemma {:induction false} ChosenIsProjected(s: Key, mask: Bits, n: nat)
    requires n <= |mask| && n <= |s|
    ensures V.Chosen(s, Number(mask, n), 0) == ProjectKey(s, Dims(mask, n))
  {
    if n > 0 {
      ChosenIsProjected(s, mask, n - 1);
      if mask[n - 1] {
        NumberBelow(mask, n - 1);
        ChosenNext(s, Number(mask, n - 1), 0, n - 1);
        var front, all := Dims(mask, n - 1), Dims(mask, n);
        assert all == front + [n];
        assert ProjectKey(s, all) == ProjectKey(s, front) + [s[n - 1]];
      }
    }
  }

  // ---------------------------------------------------------------------------
  // Generated rows
  // ---------------------------------------------------------------------------

  /** Row number t holds the tuple of the generator's call number t + 1. */
  ghost predicate Generated(input: seq<Row>, dims: seq<T.Dim>)
    requires T.DimsOk(dims)
  {
    forall t :: 0 <= t < |input| ==> input[t].key == T.Tuple(dims, t + 1)
  }

  lemma ProjectedKey(input: seq<Row>, dims: seq<T.Dim>, mask: Bits, t: nat)
    requires T.DimsOk(dims) && Generated(input, dims) && |dims| <= |mask| && t < |input|
    ensures Project(input, Dims(mask, |dims|))[t].key == V.Chosen(T.Tuple(dims, t + 1), Number(mask, |dims|), 0)
  {
    hide T.Tuple; hide T.DimsOk; hide Dims; hide V.Chosen; hide Number; hide ProjectKey;
    ChosenIsProjected(T.Tuple(dims, t + 1), mask, |dims|);
  }

  lemma ProjectedKeys(input: seq<Row>, dims: seq<T.Dim>, mask: Bits)
    requires T.DimsOk(dims) && Generated(input, dims) && |dims| <= |mask|
    ensures KeysOf(Project(input, Dims(mask, |dims|))) == V.Projections(dims, Number(mask, |dims|), |input|)
  {
    hide T.Tuple; hide T.DimsOk; hide Dims; hide V.Chosen; hide Number; hide Project; hide Generated;
    var m, p := Number(mask, |dims|), Project(input, Dims(mask, |dims|));
    var keys, projections := KeysOf(p), V.Projections(dims, m, |input|);
    forall x ensures x in keys <==> x in projections {
      if x in keys {
        var t: nat :| t < |p| && p[t].key == x;
        ProjectedKey(input, dims, mask, t);
        var u := t + 1;
        assert 1 <= u <= |input| && V.Chosen(T.Tuple(dims, u), m, 0) == x;
      }
      if x in projections {
        var u: nat :| 1 <= u <= |input| && V.Chosen(T.Tuple(dims, u), m, 0) == x;
        var t: nat := u - 1;
        ProjectedKey(input, dims, mask, t);
        assert p[t].key == x;
      }
    }
  }

  /** The view of a generated input has the predicted number of rows. */
  lemma ViewHasPredictedSize(input: seq<Row>, dims: seq<T.Dim>, mask: Bits, nm: nat)
    requires T.DimsOk(dims) && Generated(input, dims) && |dims| <= |mask| && Shaped(input, nm)
    ensures |Answer(input, mask, |dims|, nm)| == |V.Projections(dims, Number(mask, |dims|), |input|)|
  {
    ProjectedKeys(input, dims, mask);
    GroupSize(Project(input, Dims(mask, |dims|)), nm);
  }

  // ---------------------------------------------------------------------------
  // The final verification
  // ---------------------------------------------------------------------------

  /** The size recorded last for a group-by, 0 if there is none. */
  function LastSize(made: seq<(Bits, nat)>, m: Bits): nat {
    if made == [] then 0
    else if made[|made| - 1].0 == m then made[|made| - 1].1
    else LastSize(made[..|made| - 1], m)
  }

  /** A listed view was made with another size, which is not the number of input rows either. */
  ghost predicate Mismatch(made: seq<(Bits, nat)>, v: J.ViewSize, nd: nat, nInputRecs: nat)
    requires nd <= 64
  {
    var size := LastSize(made, J.MaskOf(v.selection)[..nd]);
    size != 0 && size != v.size && size != nInputRecs
  }

  /** ViewSizesVerification: true stands for ADC_VERIFICATION_FAILED. */
  method ViewSizesVerification(viewSizes: seq<(Bits, nat)>, listed: seq<J.ViewSize>, nd: nat, nInputRecs: nat) returns (failed: bool)
    requires nd <= 64 && J.InRange(listed, 64)
    ensures failed <==> exists j :: 0 <= j < |listed| && Mismatch(viewSizes, listed[j], nd, nInputRecs)
  {
    var viewCounts: map<Bits, nat> := map[];
    var i := 0;
    assert viewSizes[..0] == [];
    while i < |viewSizes|
      invariant 0 <= i <= |viewSizes|
      invariant forall m :: LastSize(viewSizes[..i], m) == if m in viewCounts then viewCounts[m] else 0
    {
      assert viewSizes[..i + 1][..i] == viewSizes[..i];
      viewCounts := viewCounts[viewSizes[i].0 := viewSizes[i].1];
      i := i + 1;
    }
    assert viewSizes[..|viewSizes|] == viewSizes;
    var j := 0;
    while j < |listed|
      invariant 0 <= j <= |listed|
      invariant forall h :: 0 <= h < j ==> !Mismatch(viewSizes, listed[h], nd, nInputRecs)
    {
      var k, sz := |listed[j].selection|, listed[j].size;
      var tx := CreateBinTuple(listed[j].selection, k);
      assert listed[j].selection[..k] == listed[j].selection;
      assert tx == J.MaskOf(listed[j].selection);
      var iTx := tx[..nd];
      var count := if iTx in viewCounts then viewCounts[iTx] else 0;
      if count != 0 && count != sz && count != nInputRecs {
        assert Mismatch(viewSizes, listed[j], nd, nInputRecs);
        return true;
      }
      j := j + 1;
    }
    failed := false;
  }

  lemma {:induction false} LastSizeMade(made: seq<(Bits, nat)>, m: Bits) returns (i: nat)
    requires LastSize(made, m) != 0
    ensures i < |made| && made[i] == (m, LastSize(made, m))
  {
    var n := |made| - 1;
    if made[n].0 == m {
      i := n;
    } else {
      i := LastSizeMade(made[..n], m);
    }
  }

  /** The listed sizes are the ones predicted for the input's tuples. */
  ghost predicate Predicted(listed: seq<J.ViewSize>, dims: seq<T.Dim>, n: nat)
    requires T.DimsOk(dims) && |dims| <= 64
  {
    forall j :: 0 <= j < |listed| ==> listed[j].size == |V.Projections(dims, Number(J.MaskOf(listed[j].selection), |dims|), n)|
  }

  /** The dimensions of view number idx, as the view-sizes file lists them. */
  method Selection(idx: nat, n: nat) returns (sel: seq<nat>)
    requires idx < Pow2(n) && n <= 64
    ensures Number(J.MaskOf(sel), n) == idx
    ensures forall i :: 0 <= i < |sel| ==> 1 <= sel[i] <= n
  {
    hide Pow2; hide Number; hide J.MaskOf;
    sel := [];
    var j: nat, x: nat := 0, idx;       // x is idx >> j
    NumberStart(sel, idx);
    while j < n
      invariant 0 <= j <= n
      invariant Number(J.MaskOf(sel), j) + x * Pow2(j) == idx
      invariant forall i :: 0 <= i < |sel| ==> 1 <= sel[i] <= j
    {
      NumberNext(sel, j, x);
      if x % 2 == 1 { sel := sel + [j + 1]; }
      x := x / 2;
      j := j + 1;
    }
    NothingLeft(Number(J.MaskOf(sel), n), x, Pow2(n), idx);
  }

  lemma NothingLeft(c: nat, x: nat, p: nat, idx: nat)
    requires c + x * p == idx < p
    ensures c == idx
  {
    if x > 0 { ProductMonotone(1, x, p); }
  }

  lemma NumberStart(sel: seq<nat>, idx: nat)
    ensures Number(J.MaskOf(sel), 0) + idx * Pow2(0) == idx
  {
  }

  lemma NumberNext(sel: seq<nat>, j: nat, x: nat)
    requires j < 64 && forall i :: 0 <= i < |sel| ==> 1 <= sel[i] <= j
    ensures var sel1 := if x % 2 == 1 then sel + [j + 1] else sel;
      Number(J.MaskOf(sel1), j + 1) + x / 2 * Pow2(j + 1) == Number(J.MaskOf(sel), j) + x * Pow2(j)
  {
    var sel1 := if x % 2 == 1 then sel + [j + 1] else sel;
    forall p | 0 <= p < j ensures J.MaskOf(sel1)[p] == J.MaskOf(sel)[p] {
    }
    NumberSameBits(J.MaskOf(sel1), J.MaskOf(sel), j);
    assert J.MaskOf(sel1)[j] <==> x % 2 == 1;
    hide J.MaskOf; hide Number;
    Halves(x, Pow2(j));
    NumberStep(J.MaskOf(sel1), j);
  }

  lemma NumberStep(mask: Bits, j: nat)
    requires j < |mask|
    ensures Number(mask, j + 1) == Number(mask, j) + (if mask[j] then Pow2(j) else 0)
  {
  }

  lemma Halves(x: nat, p: nat)
    ensures x / 2 * (2 * p) + (if x % 2 == 1 then p else 0) == x * p
  {
    Associate(x / 2, 2, p);
    Distribute(x / 2 * 2, x % 2, p);
  }

  /** The loop that lists the views, in any order and with any stride. */
  method ListViews(vsize: array<nat>, views: seq<nat>, dims: seq<T.Dim>, tnum: nat) returns (listed: seq<J.ViewSize>)
    requires T.DimsOk(dims) && |dims| <= 64 && vsize.Length == Pow2(|dims|)
    requires forall m :: 1 <= m < Pow2(|dims|) ==> vsize[m] == |V.Projections(dims, m, tnum)|
    requires forall i :: 0 <= i < |views| ==> 1 <= views[i] < Pow2(|dims|)
    ensures |listed| == |views| && Predicted(listed, dims, tnum) && J.InRange(listed, |dims|)
  {
    hide Number; hide Pow2; hide V.Projections; hide T.DimsOk;
    listed := [];
    var i := 0;
    while i < |views|
      invariant 0 <= i == |listed| <= |views|
      invariant Predicted(listed, dims, tnum) && J.InRange(listed, |dims|)
    {
      var idx := views[i];
      var sel := Selection(idx, |dims|);
      listed := listed + [J.ViewSize(sel, vsize[idx])];
      i := i + 1;
    }
  }

  lemma SameSize(input: seq<Row>, dims: seq<T.Dim>, a: Bits, b: Bits, nm: nat)
    requires T.DimsOk(dims) && Generated(input, dims) && Shaped(input, nm)
    requires |dims| <= |a| && |dims| <= |b| && a[..|dims|] == b[..|dims|]
    ensures |Answer(input, a, |dims|, nm)| == |V.Projections(dims, Number(b, |dims|), |input|)|
  {
    forall i | 0 <= i < |dims| ensures a[i] == b[i] {
      assert a[..|dims|][i] == b[..|dims|][i];
    }
    NumberSameBits(a, b, |dims|);
    ViewHasPredictedSize(input, dims, a, nm);
  }

  /** After any run on generated rows no listed view has a wrong size. */
  lemma VerificationPasses(cube: Cube, file: seq<Bits>, k: nat, inMemory: seq<bool>, listed: seq<J.ViewSize>, dims: seq<T.Dim>)
    requires cube.Requests(file) && cube.Done(file, k, inMemory) && cube.nTopDims == |dims| <= 64
    requires T.DimsOk(dims) && Generated(cube.view.inpf, dims) && Predicted(listed, dims, |cube.view.inpf|)
    ensures forall j :: 0 <= j < |listed| ==> !Mismatch(cube.viewSizes, listed[j], |dims|, |cube.view.inpf|)
  {
    hide *;
    cube.DoneFacts(file, k, inMemory);
    forall j | 0 <= j < |listed| ensures !Mismatch(cube.viewSizes, listed[j], |dims|, |cube.view.inpf|) {
      SizeRight(cube, file, k, listed, dims, j);
    }
  }

  lemma SizeRight(cube: Cube, file: seq<Bits>, k: nat, listed: seq<J.ViewSize>, dims: seq<T.Dim>, j: nat)
    requires cube.Requests(file) && cube.Fixed() && k <= |file| && cube.SizesAre(cube.viewSizes, file, k)
    requires Shaped(cube.view.inpf, cube.nm) && cube.nTopDims == |dims| <= 64 && j < |listed|
    requires T.DimsOk(dims) && Generated(cube.view.inpf, dims) && Predicted(listed, dims, |cube.view.inpf|)
    ensures !Mismatch(cube.viewSizes, listed[j], |dims|, |cube.view.inpf|)
  {
    hide Answer; hide Number; hide V.Projections; hide T.DimsOk; hide Generated; hide NonZero; hide LastSize; hide Cube.Fixed;
    var m := J.MaskOf(listed[j].selection);
    if LastSize(cube.viewSizes, m[..|dims|]) != 0 {
      var i := LastSizeMade(cube.viewSizes, m[..|dims|]);
      assert cube.viewSizes[i] == cube.SizeOf(file[i]);
      SameSize(cube.view.inpf, dims, file[i], m, cube.nm);
    }
  }
}
