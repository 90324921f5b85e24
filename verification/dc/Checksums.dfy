/**
 * Measure sums and checksums of a view.  The in-memory writer advances its row order number
 * once per measure, the merge once per row; both are modelled.
 */
module Checksums {
  import opened Rows
  import opened Arith

  const measbound := 31415

  function Everything(): Key -> bool {
    (x: Key) => true
  }

  function Zeros(nm: nat): seq<int> {
    seq(nm, i => 0)
  }

  /** mSums after writing the rows. */
  function Sums(rows: seq<Row>, nm: nat): (s: seq<int>)
    ensures |s| == nm
  {
    if rows == [] then Zeros(nm)
    else
      var n := |rows| - 1;
      var s := Sums(rows[..n], nm);
      seq(nm, i requires 0 <= i < nm => s[i] + MeasureAt(rows[n].meas, i))
  }

  /** The weight of measure i in row n, counted from 0. */
  ghost function Weight(n: nat, i: nat, nm: nat, perMeasure: bool): nat {
    if perMeasure then Times(n, nm) + i + 1 else n + 1
  }

  /** A measure's share of the checksum; % is C's for non-negative measures. */
  function Share(weight: nat, m: int): int {
    weight * m % measbound
  }

  /** One row added to the checksums. */
  ghost function CheckRow(c: seq<int>, row: Row, n: nat, nm: nat, perMeasure: bool): (d: seq<int>)
    requires |c| == nm
    ensures |d| == nm
  {
    seq(nm, i requires 0 <= i < nm => c[i] + Share(Weight(n, i, nm, perMeasure), MeasureAt(row.meas, i)))
  }

  /** checksums after writing the rows. */
  ghost function Checks(rows: seq<Row>, nm: nat, perMeasure: bool): (c: seq<int>)
    ensures |c| == nm
  {
    if rows == [] then Zeros(nm)
    else
      var n := |rows| - 1;
      CheckRow(Checks(rows[..n], nm, perMeasure), rows[n], n, nm, perMeasure)
  }

  /** Measure i's checksum of the first k rows, written out. */
  ghost function CheckSum(rows: seq<Row>, i: nat, nm: nat, perMeasure: bool, k: nat): int
    requires Shaped(rows, nm) && i < nm && k <= |rows|
  {
    if k == 0 then 0
    else CheckSum(rows, i, nm, perMeasure, k - 1) + (if perMeasure then (k - 1) * nm + i + 1 else k) * rows[k - 1].meas[i] % 31415
  }

  /** One row's part of the checksum, written out. */
  lemma CheckRowIs(c: seq<int>, row: Row, n: nat, nm: nat, perMeasure: bool, i: nat)
    requires |c| == nm == |row.meas| && i < nm
    ensures CheckRow(c, row, n, nm, perMeasure)[i] ==
      c[i] + (if perMeasure then n * nm + i + 1 else n + 1) * row.meas[i] % 31415
  {
    TimesIsProduct(n, nm);
  }

  /** checksums as a sum over the rows. */
  lemma {:induction false} ChecksAre(rows: seq<Row>, nm: nat, perMeasure: bool, i: nat)
    requires Shaped(rows, nm) && i < nm
    ensures Checks(rows, nm, perMeasure)[i] == CheckSum(rows, i, nm, perMeasure, |rows|)
  {
    hide CheckRow;
    if rows != [] {
      var n := |rows| - 1;
      ChecksAre(rows[..n], nm, perMeasure, i);
      CheckSumPrefix(rows, i, nm, perMeasure, n, n);
      CheckRowIs(Checks(rows[..n], nm, perMeasure), rows[n], n, nm, perMeasure, i);
    }
  }

  lemma {:induction false} CheckSumPrefix(rows: seq<Row>, i: nat, nm: nat, perMeasure: bool, n: nat, k: nat)
    requires Shaped(rows, nm) && i < nm && k <= n <= |rows|
    ensures CheckSum(rows[..n], i, nm, perMeasure, k) == CheckSum(rows, i, nm, perMeasure, k)
  {
    if k > 0 { CheckSumPrefix(rows, i, nm, perMeasure, n, k - 1); }
  }

  /** Measure i summed over the first k rows. */
  ghost function MeasureSum(rows: seq<Row>, i: nat, nm: nat, k: nat): int
    requires Shaped(rows, nm) && i < nm && k <= |rows|
  {
    if k == 0 then 0 else MeasureSum(rows, i, nm, k - 1) + rows[k - 1].meas[i]
  }

  lemma {:induction false} MeasureSumPrefix(rows: seq<Row>, i: nat, nm: nat, n: nat, k: nat)
    requires Shaped(rows, nm) && i < nm && k <= n <= |rows|
    ensures MeasureSum(rows[..n], i, nm, k) == MeasureSum(rows, i, nm, k)
  {
    if k > 0 { MeasureSumPrefix(rows, i, nm, n, k - 1); }
  }

  /** mSums as a sum over the rows. */
  lemma {:induction false} SumsAre(rows: seq<Row>, nm: nat, i: nat)
    requires Shaped(rows, nm) && i < nm
    ensures Sums(rows, nm)[i] == MeasureSum(rows, i, nm, |rows|)
  {
    if rows != [] {
      var n := |rows| - 1;
      SumsAre(rows[..n], nm, i);
      MeasureSumPrefix(rows, i, nm, n, n);
    }
  }

  lemma SumsSnoc(done: seq<Row>, row: Row, nm: nat)
    requires |row.meas| == nm
    ensures Sums(done + [row], nm) == AddMeasures(Sums(done, nm), row.meas)
  {
    var all := done + [row];
    assert all[..|all|-1] == done && all[|all|-1] == row;
    assert forall i :: 0 <= i < nm ==> MeasureAt(row.meas, i) == row.meas[i];
  }

  lemma ChecksSnoc(done: seq<Row>, row: Row, nm: nat, perMeasure: bool)
    ensures Checks(done + [row], nm, perMeasure) == CheckRow(Checks(done, nm, perMeasure), row, |done|, nm, perMeasure)
  {
    var all := done + [row];
    assert all[..|all|-1] == done && all[|all|-1] == row;
  }

  lemma {:induction false} SumsAreTotals(rows: seq<Row>, nm: nat, i: nat)
    requires i < nm
    ensures Sums(rows, nm)[i] == Total(rows, Everything(), i)
  {
    if rows != [] {
      var n := |rows| - 1;
      SumsAreTotals(rows[..n], nm, i);
      assert rows == rows[..n] + [rows[n]];
      TotalAppend(rows[..n], [rows[n]], Everything(), i);
    }
  }

  /** Aggregation loses nothing: a view's measure sums are its input's. */
  lemma SumsConserved(rows: seq<Row>, nm: nat)
    requires Shaped(rows, nm)
    ensures Sums(Group(rows, nm), nm) == Sums(rows, nm)
  {
    forall i | 0 <= i < nm ensures Sums(Group(rows, nm), nm)[i] == Sums(rows, nm)[i] {
      SumsAreTotals(Group(rows, nm), nm, i);
      SumsAreTotals(rows, nm, i);
      GroupTotal(rows, nm, Everything(), i);
    }
  }

  /** Picking columns leaves the measures alone. */
  lemma {:induction false} SumsProject(rows: seq<Row>, selection: seq<nat>, nm: nat)
    ensures Sums(Project(rows, selection), nm) == Sums(rows, nm)
  {
    if rows != [] {
      var n := |rows| - 1;
      SumsProject(rows[..n], selection, nm);
      assert Project(rows, selection)[..n] == Project(rows[..n], selection);
    }
  }

  lemma {:induction false} ChecksAgree(rows: seq<Row>, nm: nat)
    requires nm <= 1
    ensures Checks(rows, nm, true) == Checks(rows, nm, false)
  {
    if rows != [] {
      var n := |rows| - 1;
      ChecksAgree(rows[..n], nm);
      TimesOne(n);
      assert forall i :: 0 <= i < nm ==> Weight(n, i, nm, true) == Weight(n, i, nm, false);
    }
  }

  /** The two weightings give the same checksums on all rows exactly when nm <= 1. */
  lemma ChecksAgreeIffOneMeasure(nm: nat)
    ensures nm <= 1 <==> forall rows: seq<Row> :: Shaped(rows, nm) ==> Checks(rows, nm, true) == Checks(rows, nm, false)
  {
    if nm <= 1 {
      forall rows: seq<Row> | Shaped(rows, nm) ensures Checks(rows, nm, true) == Checks(rows, nm, false) {
        ChecksAgree(rows, nm);
      }
    } else {
      var row := Row(seq(nm, i => 1), [0]);
      var rows := [row];
      assert rows[..0] == [];
      assert Checks(rows, nm, true)[1] == Zeros(nm)[1] + Share(Weight(0, 1, nm, true), 1);
      assert Checks(rows, nm, false)[1] == Zeros(nm)[1] + Share(Weight(0, 1, nm, false), 1);
      assert Weight(0, 1, nm, true) == 2 && Weight(0, 1, nm, false) == 1;
      assert Shaped(rows, nm);
    }
  }
}
