/**
 * Rows of the data cube, measures then attributes: the key order (KeyComp) and the specification
 * of every mechanism, the group-by-sum of a list of rows.
 */
module Rows {
  type Key = seq<nat>

  datatype Row = Row(meas: seq<int>, key: Key)

  // ---------------------------------------------------------------------------
  // The key order
  // ---------------------------------------------------------------------------

  /** Lexicographic comparison; a proper prefix comes first. */
  function Compare(a: Key, b: Key): int {
    if a == [] then (if b == [] then 0 else -1)
    else if b == [] then 1
    else if a[0] < b[0] then -1
    else if a[0] > b[0] then 1
    else Compare(a[1..], b[1..])
  }

  predicate Less(a: Key, b: Key) {
    Compare(a, b) < 0
  }

  lemma {:induction false} CompareFlip(a: Key, b: Key)
    ensures Compare(a, b) == -Compare(b, a)
    ensures Compare(a, b) == 0 <==> a == b
    ensures -1 <= Compare(a, b) <= 1
  {
    if a != [] && b != [] && a[0] == b[0] {
      CompareFlip(a[1..], b[1..]);
      assert a == [a[0]] + a[1..] && b == [b[0]] + b[1..];
    }
  }

  lemma {:induction false} LessTransitive(a: Key, b: Key, c: Key)
    requires Less(a, b) && Less(b, c)
    ensures Less(a, c)
  {
    if a != [] && a[0] == b[0] && b[0] == c[0] {
      LessTransitive(a[1..], b[1..], c[1..]);
    }
  }

  lemma {:induction false} ComparePrefix(a: Key, b: Key, i: nat)
    requires i <= |a| && i <= |b| && a[..i] == b[..i]
    ensures Compare(a, b) == Compare(a[i..], b[i..])
  {
    if i > 0 {
      assert a[0] == a[..i][0] == b[..i][0] == b[0];
      assert a[1..][..i-1] == a[..i][1..] && b[1..][..i-1] == b[..i][1..];
      ComparePrefix(a[1..], b[1..], i - 1);
      assert a[1..][i-1..] == a[i..] && b[1..][i-1..] == b[i..];
    } else {
      assert a[0..] == a && b[0..] == b;
    }
  }

  /** x is smaller than y at the first attribute in which they differ. */
  ghost predicate Precedes(x: Key, y: Key) {
    exists p :: 0 <= p < |x| && p < |y| && x[..p] == y[..p] && x[p] < y[p]
  }

  /** On keys of one length the order is: smaller at the first difference. */
  lemma {:induction false} LessMeans(a: Key, b: Key)
    requires |a| == |b|
    ensures Less(a, b) <==> Precedes(a, b)
  {
    CompareFlip(a, b);
    if Less(a, b) {
      var p := FirstDifference(a, b);
      ComparePrefix(a, b, p);
      assert a[p..][0] == a[p] && b[p..][0] == b[p];
    }
    if Precedes(a, b) {
      var p :| 0 <= p < |a| && p < |b| && a[..p] == b[..p] && a[p] < b[p];
      ComparePrefix(a, b, p);
      assert a[p..][0] == a[p] && b[p..][0] == b[p];
    }
  }

  lemma {:induction false} FirstDifference(a: Key, b: Key) returns (p: nat)
    requires |a| == |b| && a != b
    ensures p < |a| && a[..p] == b[..p] && a[p] != b[p]
  {
    if a[0] != b[0] {
      p := 0;
    } else {
      assert a == [a[0]] + a[1..] && b == [b[0]] + b[1..];
      p := FirstDifference(a[1..], b[1..]);
      assert a[..p + 1] == [a[0]] + a[1..][..p] && b[..p + 1] == [b[0]] + b[1..][..p];
      p := p + 1;
    }
  }

  /** Cutting a key at n changes nothing before n. */
  lemma CutPrecedes(a: Key, b: Key, n: nat)
    requires n <= |a| && n <= |b|
    ensures Precedes(a[..n], b[..n]) <==> exists i :: 0 <= i < n && a[..i] == b[..i] && a[i] < b[i]
  {
    var x, y := a[..n], b[..n];
    forall i | 0 <= i < n ensures x[..i] == a[..i] && y[..i] == b[..i] && x[i] == a[i] && y[i] == b[i] {
    }
    if Precedes(x, y) {
      var p :| 0 <= p < |x| && p < |y| && x[..p] == y[..p] && x[p] < y[p];
      assert a[..p] == b[..p];
    }
    if i :| 0 <= i < n && a[..i] == b[..i] && a[i] < b[i] {
      assert x[..i] == y[..i];
    }
  }

  /** KeyComp of rbt.c: compares the first n attributes of two keys. */
  method KeyComp(a: Key, b: Key, n: nat) returns (r: int)
    requires n <= |a| && n <= |b|
    ensures r == Compare(a[..n], b[..n])
    ensures r < 0 <==> exists i :: 0 <= i < n && a[..i] == b[..i] && a[i] < b[i]
    ensures r > 0 <==> exists i :: 0 <= i < n && b[..i] == a[..i] && b[i] < a[i]
    ensures r == 0 <==> a[..n] == b[..n]
  {
    hide Precedes;
    CompareFlip(a[..n], b[..n]);
    LessMeans(a[..n], b[..n]);
    LessMeans(b[..n], a[..n]);
    CutPrecedes(a, b, n);
    CutPrecedes(b, a, n);
    var i := 0;
    while i < n
      invariant 0 <= i <= n
      invariant a[..i] == b[..i]
    {
      assert a[..n][..i] == a[..i] && b[..n][..i] == b[..i];
      ComparePrefix(a[..n], b[..n], i);
      if a[i] < b[i] { return -1; }
      else if a[i] > b[i] { return 1; }
      assert a[..i + 1] == a[..i] + [a[i]] && b[..i + 1] == b[..i] + [b[i]];
      i := i + 1;
    }
    return 0;
  }

  // ---------------------------------------------------------------------------
  // Measures
  // ---------------------------------------------------------------------------

  function MeasureAt(m: seq<int>, i: nat): int {
    if i < |m| then m[i] else 0
  }

  /** Element-wise sum of two measure vectors. */
  function AddMeasures(x: seq<int>, y: seq<int>): (z: seq<int>)
    requires |x| == |y|
    ensures |z| == |x|
    ensures forall i: nat :: MeasureAt(z, i) == MeasureAt(x, i) + MeasureAt(y, i)
  {
    seq(|x|, i requires 0 <= i < |x| => x[i] + y[i])
  }

  predicate Shaped(rows: seq<Row>, nm: nat) {
    forall j :: 0 <= j < |rows| ==> |rows[j].meas| == nm
  }

  predicate KeyLength(rows: seq<Row>, nd: nat) {
    forall j :: 0 <= j < |rows| ==> |rows[j].key| == nd
  }

  // ---------------------------------------------------------------------------
  // The specification: which keys occur, and what each key's measures add up to
  // ---------------------------------------------------------------------------

  predicate Sorted(s: seq<Row>) {
    forall i, j :: 0 <= i < j < |s| ==> Less(s[i].key, s[j].key)
  }

  predicate HasKey(rows: seq<Row>, p: Key -> bool) {
    exists j :: 0 <= j < |rows| && p(rows[j].key)
  }

  /** Sum of measure i over the rows whose key satisfies p. */
  function Total(rows: seq<Row>, p: Key -> bool, i: nat): int {
    if rows == [] then 0
    else (if p(rows[0].key) then MeasureAt(rows[0].meas, i) else 0) + Total(rows[1..], p, i)
  }

  function Is(k: Key): Key -> bool {
    (x: Key) => x == k
  }

  /** Two row lists that agree on every key and every per-key sum of nm measures. */
  ghost predicate SameGroups(a: seq<Row>, b: seq<Row>) {
    && (forall k: Key :: HasKey(a, Is(k)) <==> HasKey(b, Is(k)))
    && (forall k: Key, i: nat :: Total(a, Is(k), i) == Total(b, Is(k), i))
  }

  lemma {:induction false} TotalAppend(a: seq<Row>, b: seq<Row>, p: Key -> bool, i: nat)
    ensures Total(a + b, p, i) == Total(a, p, i) + Total(b, p, i)
  {
    if a == [] {
      assert a + b == b;
    } else {
      assert (a + b)[1..] == a[1..] + b;
      TotalAppend(a[1..], b, p, i);
    }
  }

  lemma HasKeyAppend(a: seq<Row>, b: seq<Row>, p: Key -> bool)
    ensures HasKey(a + b, p) <==> HasKey(a, p) || HasKey(b, p)
  {
    if HasKey(a, p) {
      var j :| 0 <= j < |a| && p(a[j].key);
      assert (a + b)[j] == a[j];
    }
    if HasKey(b, p) {
      var j :| 0 <= j < |b| && p(b[j].key);
      assert (a + b)[|a| + j] == b[j];
    }
  }

  lemma {:induction false} TotalNone(a: seq<Row>, p: Key -> bool, i: nat)
    requires !HasKey(a, p)
    ensures Total(a, p, i) == 0
  {
    if a != [] {
      assert !p(a[0].key);
      assert forall j :: 0 <= j < |a[1..]| ==> a[1..][j] == a[j+1];
      TotalNone(a[1..], p, i);
    }
  }

  // ---------------------------------------------------------------------------
  // Group-by-sum as a list: one strictly sorted row per key
  // ---------------------------------------------------------------------------

  /** Adds one row to a strictly sorted list: either a new entry or a larger sum. */
  function InsertRow(s: seq<Row>, r: Row): seq<Row>
    requires Shaped(s, |r.meas|)
  {
    if s == [] then [r]
    else if Less(r.key, s[0].key) then [r] + s
    else if r.key == s[0].key then [Row(AddMeasures(s[0].meas, r.meas), r.key)] + s[1..]
    else [s[0]] + InsertRow(s[1..], r)
  }

  lemma {:induction false} InsertShaped(s: seq<Row>, r: Row)
    requires Shaped(s, |r.meas|)
    ensures Shaped(InsertRow(s, r), |r.meas|)
    ensures |s| <= |InsertRow(s, r)| <= |s| + 1
    ensures forall n: nat :: KeyLength(s, n) && |r.key| == n ==> KeyLength(InsertRow(s, r), n)
  {
    if s != [] && !Less(r.key, s[0].key) && r.key != s[0].key {
      InsertShaped(s[1..], r);
      forall n: nat | KeyLength(s, n) && |r.key| == n
        ensures KeyLength(InsertRow(s, r), n)
      {
        assert KeyLength(s[1..], n);
      }
    }
  }

  /** Where a row goes: everything before is smaller, everything after is larger. */
  ghost predicate Below(s: seq<Row>, k: Key) {
    forall j :: 0 <= j < |s| ==> Less(s[j].key, k)
  }

  ghost predicate Above(s: seq<Row>, k: Key) {
    forall j :: 0 <= j < |s| ==> Less(k, s[j].key)
  }

  lemma NotBoth(a: Key, b: Key)
    requires Less(a, b)
    ensures !Less(b, a) && a != b
  {
    CompareFlip(a, b);
  }

  lemma {:induction false} InsertBetween(b: seq<Row>, a: seq<Row>, r: Row)
    requires Below(b, r.key) && Above(a, r.key)
    requires Shaped(b + a, |r.meas|)
    ensures InsertRow(b + a, r) == b + [r] + a
  {
    hide Less;
    var s := b + a;
    if b == [] {
      assert s == a && b + [r] + a == [r] + s;
    } else {
      NotBoth(b[0].key, r.key);
      assert s[0] == b[0] && s[1..] == b[1..] + a;
      InsertBetween(b[1..], a, r);
      assert [b[0]] + (b[1..] + [r] + a) == b + [r] + a;
    }
  }

  lemma {:induction false} InsertOnto(b: seq<Row>, x: Row, a: seq<Row>, r: Row)
    requires Below(b, r.key) && x.key == r.key
    requires Shaped(b + [x] + a, |r.meas|)
    ensures |x.meas| == |r.meas|
    ensures InsertRow(b + [x] + a, r) == b + [Row(AddMeasures(x.meas, r.meas), r.key)] + a
  {
    var s := b + [x] + a;
    assert s[|b|] == x;
    CompareFlip(r.key, r.key);
    if b == [] {
      assert s[1..] == a;
    } else {
      CompareFlip(r.key, b[0].key);
      assert s[1..] == b[1..] + [x] + a;
      InsertOnto(b[1..], x, a, r);
      assert [b[0]] + (b[1..] + [Row(AddMeasures(x.meas, r.meas), r.key)] + a)
          == b + [Row(AddMeasures(x.meas, r.meas), r.key)] + a;
    }
  }

  lemma {:induction false} InsertSorted(s: seq<Row>, r: Row)
    requires Sorted(s) && Shaped(s, |r.meas|)
    ensures Sorted(InsertRow(s, r))
    ensures forall k: Key :: Less(k, r.key) && Above(s, k) ==> Above(InsertRow(s, r), k)
  {
    if s == [] {
    } else if Less(r.key, s[0].key) {
      forall j | 0 <= j < |s| ensures Less(r.key, s[j].key) {
        if j > 0 { LessTransitive(r.key, s[0].key, s[j].key); }
      }
    } else if r.key == s[0].key {
    } else {
      CompareFlip(r.key, s[0].key);
      InsertSorted(s[1..], r);
      assert Above(InsertRow(s[1..], r), s[0].key);
      forall k: Key | Less(k, r.key) && Above(s, k) ensures Above(InsertRow(s, r), k) {
        assert Above(s[1..], k);
      }
    }
  }

  lemma {:induction false} InsertTotal(s: seq<Row>, r: Row, p: Key -> bool, i: nat)
    requires Shaped(s, |r.meas|)
    ensures Total(InsertRow(s, r), p, i) == Total(s, p, i) + (if p(r.key) then MeasureAt(r.meas, i) else 0)
  {
    var t := InsertRow(s, r);
    if s == [] {
    } else if Less(r.key, s[0].key) {
      assert t[1..] == s;
    } else if r.key == s[0].key {
      assert t[1..] == s[1..];
    } else {
      InsertTotal(s[1..], r, p, i);
      assert t[1..] == InsertRow(s[1..], r);
    }
  }

  lemma {:induction false} InsertHasKey(s: seq<Row>, r: Row, p: Key -> bool)
    requires Shaped(s, |r.meas|)
    ensures HasKey(InsertRow(s, r), p) <==> HasKey(s, p) || p(r.key)
  {
    if s == [] {
      assert InsertRow(s, r)[0] == r;
    } else if Less(r.key, s[0].key) {
      HasKeyAppend([r], s, p);
      assert [r][0] == r;
    } else {
      assert s == [s[0]] + s[1..];
      HasKeyAppend([s[0]], s[1..], p);
      assert [s[0]][0] == s[0];
      if r.key == s[0].key {
        var x := Row(AddMeasures(s[0].meas, r.meas), r.key);
        HasKeyAppend([x], s[1..], p);
        assert [x][0] == x;
      } else {
        InsertHasKey(s[1..], r, p);
        HasKeyAppend([s[0]], InsertRow(s[1..], r), p);
      }
    }
  }

  /** What the aggregation tree holds after inserting the rows in order. */
  function Group(rows: seq<Row>, nm: nat): (g: seq<Row>)
    requires Shaped(rows, nm)
    ensures Shaped(g, nm) && Sorted(g)
    ensures |g| <= |rows|
  {
    if rows == [] then []
    else
      var n := |rows| - 1;
      var g := Group(rows[..n], nm);
      InsertShaped(g, rows[n]);
      InsertSorted(g, rows[n]);
      InsertRow(g, rows[n])
  }

  lemma {:induction false} GroupKeyLength(rows: seq<Row>, nm: nat, nd: nat)
    requires Shaped(rows, nm) && KeyLength(rows, nd)
    ensures KeyLength(Group(rows, nm), nd)
  {
    if rows != [] {
      var n := |rows| - 1;
      GroupKeyLength(rows[..n], nm, nd);
      InsertShaped(Group(rows[..n], nm), rows[n]);
    }
  }

  lemma {:induction false} GroupTotal(rows: seq<Row>, nm: nat, p: Key -> bool, i: nat)
    requires Shaped(rows, nm)
    ensures Total(Group(rows, nm), p, i) == Total(rows, p, i)
  {
    if rows != [] {
      var n := |rows| - 1;
      GroupTotal(rows[..n], nm, p, i);
      InsertTotal(Group(rows[..n], nm), rows[n], p, i);
      assert rows == rows[..n] + [rows[n]];
      TotalAppend(rows[..n], [rows[n]], p, i);
    }
  }

  lemma {:induction false} GroupHasKey(rows: seq<Row>, nm: nat, p: Key -> bool)
    requires Shaped(rows, nm)
    ensures HasKey(Group(rows, nm), p) <==> HasKey(rows, p)
  {
    if rows != [] {
      var n := |rows| - 1;
      GroupHasKey(rows[..n], nm, p);
      InsertHasKey(Group(rows[..n], nm), rows[n], p);
      assert rows == rows[..n] + [rows[n]];
      HasKeyAppend(rows[..n], [rows[n]], p);
      assert [rows[n]][0] == rows[n];
    }
  }

  /** Group is the group-by-sum: same keys, same per-key sums. */
  lemma GroupIsGroupBySum(rows: seq<Row>, nm: nat)
    requires Shaped(rows, nm)
    ensures SameGroups(Group(rows, nm), rows)
  {
    forall k: Key ensures HasKey(Group(rows, nm), Is(k)) <==> HasKey(rows, Is(k)) {
      GroupHasKey(rows, nm, Is(k));
    }
    forall k: Key, i: nat ensures Total(Group(rows, nm), Is(k), i) == Total(rows, Is(k), i) {
      GroupTotal(rows, nm, Is(k), i);
    }
  }

  // ---------------------------------------------------------------------------
  // The group-by-sum is the only strictly sorted list with those keys and sums
  // ---------------------------------------------------------------------------

  lemma FirstKeyIsLeast(a: seq<Row>, b: seq<Row>)
    requires Sorted(a) && Sorted(b) && a != [] && b != []
    requires HasKey(b, Is(a[0].key))
    ensures a[0].key == b[0].key || Less(b[0].key, a[0].key)
  {
    var j :| 0 <= j < |b| && Is(a[0].key)(b[j].key);
  }

  lemma HeadKeyOccurs(a: seq<Row>)
    ensures a != [] ==> HasKey(a, Is(a[0].key))
  {
    if a != [] {
      assert Is(a[0].key)(a[0].key);
    }
  }

  lemma HeadOnly(a: seq<Row>, k: Key)
    requires Sorted(a) && a != []
    ensures HasKey(a[1..], Is(k)) <==> HasKey(a, Is(k)) && k != a[0].key
    ensures forall i: nat :: Total(a, Is(a[0].key), i) == MeasureAt(a[0].meas, i)
    ensures forall i: nat :: k != a[0].key ==> Total(a[1..], Is(k), i) == Total(a, Is(k), i)
  {
    assert a == [a[0]] + a[1..];
    HasKeyAppend([a[0]], a[1..], Is(k));
    forall j | 0 <= j < |a[1..]| ensures a[1..][j].key != a[0].key {
      CompareFlip(a[0].key, a[j+1].key);
    }
    forall i: nat ensures Total(a[1..], Is(a[0].key), i) == 0 {
      TotalNone(a[1..], Is(a[0].key), i);
    }
    assert [a[0]][0] == a[0];
  }

  lemma {:induction false} SortedGroupsUnique(a: seq<Row>, b: seq<Row>, nm: nat)
    requires Sorted(a) && Sorted(b) && Shaped(a, nm) && Shaped(b, nm)
    requires SameGroups(a, b)
    ensures a == b
  {
    HeadKeyOccurs(a);
    HeadKeyOccurs(b);
    if a != [] && b != [] {
      FirstKeyIsLeast(a, b);
      FirstKeyIsLeast(b, a);
      CompareFlip(a[0].key, b[0].key);
      HeadOnly(a, a[0].key);
      HeadOnly(b, a[0].key);
      forall i | 0 <= i < nm ensures a[0].meas[i] == b[0].meas[i] {
        assert Total(a, Is(a[0].key), i) == Total(b, Is(a[0].key), i);
        assert MeasureAt(a[0].meas, i) == MeasureAt(b[0].meas, i);
      }
      assert a[0].meas == b[0].meas;
      TailGroups(a, b);
      SortedGroupsUnique(a[1..], b[1..], nm);
      assert a == [a[0]] + a[1..] && b == [b[0]] + b[1..];
    }
  }

  lemma TailGroups(a: seq<Row>, b: seq<Row>)
    requires Sorted(a) && Sorted(b) && a != [] && b != []
    requires SameGroups(a, b) && a[0].key == b[0].key
    ensures SameGroups(a[1..], b[1..])
  {
    forall k: Key ensures HasKey(a[1..], Is(k)) <==> HasKey(b[1..], Is(k)) {
      HeadOnly(a, k);
      HeadOnly(b, k);
    }
    forall k: Key, i: nat ensures Total(a[1..], Is(k), i) == Total(b[1..], Is(k), i) {
      HeadOnly(a, k);
      HeadOnly(b, k);
      if k == a[0].key {
        assert !HasKey(a[1..], Is(k)) && !HasKey(b[1..], Is(k));
        TotalNone(a[1..], Is(k), i);
        TotalNone(b[1..], Is(k), i);
      }
    }
  }

  /** Whatever produced it, a strictly sorted list with the right groups is Group. */
  lemma GroupUnique(view: seq<Row>, rows: seq<Row>, nm: nat)
    requires Shaped(rows, nm) && Shaped(view, nm) && Sorted(view)
    requires SameGroups(view, rows)
    ensures view == Group(rows, nm)
  {
    GroupIsGroupBySum(rows, nm);
    SortedGroupsUnique(view, Group(rows, nm), nm);
  }

  // ---------------------------------------------------------------------------
  // Selecting dimensions, and re-aggregating an aggregate
  // ---------------------------------------------------------------------------

  /** SelectToView on a key: sel holds attribute numbers counted from 1. */
  function ProjectKey(k: Key, sel: seq<nat>): (r: Key)
    ensures |r| == |sel|
  {
    seq(|sel|, i requires 0 <= i < |sel| => if 1 <= sel[i] <= |k| then k[sel[i]-1] else 0)
  }

  function ProjectRow(r: Row, sel: seq<nat>): Row {
    Row(r.meas, ProjectKey(r.key, sel))
  }

  function Project(rows: seq<Row>, sel: seq<nat>): (p: seq<Row>)
    ensures |p| == |rows|
    ensures forall nm: nat :: Shaped(rows, nm) ==> Shaped(p, nm)
    ensures KeyLength(p, |sel|)
  {
    seq(|rows|, i requires 0 <= i < |rows| => ProjectRow(rows[i], sel))
  }

  function ProjectsTo(sel: seq<nat>, k: Key): Key -> bool {
    (x: Key) => ProjectKey(x, sel) == k
  }

  lemma {:induction false} ProjectTotal(rows: seq<Row>, sel: seq<nat>, k: Key, i: nat)
    ensures Total(Project(rows, sel), Is(k), i) == Total(rows, ProjectsTo(sel, k), i)
  {
    if rows != [] {
      ProjectTotal(rows[1..], sel, k, i);
      assert Project(rows, sel)[1..] == Project(rows[1..], sel);
    }
  }

  lemma ProjectHasKey(rows: seq<Row>, sel: seq<nat>, k: Key)
    ensures HasKey(Project(rows, sel), Is(k)) <==> HasKey(rows, ProjectsTo(sel, k))
  {
    if HasKey(rows, ProjectsTo(sel, k)) {
      var j :| 0 <= j < |rows| && ProjectsTo(sel, k)(rows[j].key);
      assert Is(k)(Project(rows, sel)[j].key);
    }
  }

  // ---------------------------------------------------------------------------
  // What a group-by-sum is, row by row
  // ---------------------------------------------------------------------------

  /** x holds the attributes of key k in the columns sel. */
  ghost predicate Matches(k: Key, sel: seq<nat>, x: Key) {
    |x| == |sel| && forall j :: 0 <= j < |sel| ==> 1 <= sel[j] <= |k| && x[j] == k[sel[j] - 1]
  }

  /** Measure m summed over the rows that match x. */
  ghost function MatchingSum(rows: seq<Row>, sel: seq<nat>, x: Key, m: nat): int {
    if rows == [] then 0
    else
      (if Matches(rows[0].key, sel, x) && m < |rows[0].meas| then rows[0].meas[m] else 0)
      + MatchingSum(rows[1..], sel, x, m)
  }

  /** Some row has the attributes x in the columns sel. */
  ghost predicate Occurs(x: Key, rows: seq<Row>, sel: seq<nat>) {
    exists r :: 0 <= r < |rows| && Matches(rows[r].key, sel, x)
  }

  /** The attributes of key k in the columns sel have a row in v. */
  ghost predicate HasRow(k: Key, sel: seq<nat>, v: seq<Row>) {
    exists i :: 0 <= i < |v| && Matches(k, sel, v[i].key)
  }

  /** v is the group-by-sum of rows on the columns sel: key order, keys and sums. */
  ghost predicate GroupedBy(v: seq<Row>, rows: seq<Row>, sel: seq<nat>, nm: nat) {
    && (forall i, j :: 0 <= i < j < |v| ==> Precedes(v[i].key, v[j].key))
    && (forall i :: 0 <= i < |v| ==> |v[i].meas| == nm && Occurs(v[i].key, rows, sel))
    && (forall r :: 0 <= r < |rows| ==> HasRow(rows[r].key, sel, v))
    && (forall i, m :: 0 <= i < |v| && 0 <= m < nm ==> v[i].meas[m] == MatchingSum(rows, sel, v[i].key, m))
  }

  ghost predicate ColumnsOk(rows: seq<Row>, sel: seq<nat>) {
    forall r, j :: 0 <= r < |rows| && 0 <= j < |sel| ==> 1 <= sel[j] <= |rows[r].key|
  }

  lemma MatchesProjection(k: Key, sel: seq<nat>, x: Key)
    requires forall j :: 0 <= j < |sel| ==> 1 <= sel[j] <= |k|
    ensures Matches(k, sel, x) <==> ProjectKey(k, sel) == x
  {
    if Matches(k, sel, x) {
      assert forall j :: 0 <= j < |sel| ==> ProjectKey(k, sel)[j] == x[j];
    }
  }

  lemma {:induction false} MatchingTotal(rows: seq<Row>, sel: seq<nat>, x: Key, m: nat)
    requires ColumnsOk(rows, sel)
    ensures MatchingSum(rows, sel, x, m) == Total(rows, ProjectsTo(sel, x), m)
  {
    if rows != [] {
      MatchesProjection(rows[0].key, sel, x);
      MatchingTotal(rows[1..], sel, x, m);
    }
  }

  /** In a strictly sorted list a key's total is its row's measure. */
  lemma {:induction false} SortedTotal(s: seq<Row>, i: nat, m: nat)
    requires Sorted(s) && i < |s|
    ensures Total(s, Is(s[i].key), m) == MeasureAt(s[i].meas, m)
  {
    HeadOnly(s, s[i].key);
    if i > 0 {
      assert Less(s[0].key, s[i].key);
      CompareFlip(s[0].key, s[i].key);
      SortedTotal(s[1..], i - 1, m);
    }
  }

  /** The specification means what it should: the list built by insertion is the group-by-sum. */
  lemma GroupRows(rows: seq<Row>, sel: seq<nat>, nm: nat)
    requires Shaped(rows, nm) && ColumnsOk(rows, sel)
    ensures GroupedBy(Group(Project(rows, sel), nm), rows, sel, nm)
  {
    hide Matches; hide MatchingSum; hide Group; hide Project; hide ColumnsOk; hide Precedes; hide Less; hide Total;
    var v := Group(Project(rows, sel), nm);
    GroupKeyLength(Project(rows, sel), nm, |sel|);
    forall i, j | 0 <= i < j < |v| ensures Precedes(v[i].key, v[j].key) {
      LessMeans(v[i].key, v[j].key);
    }
    forall i | 0 <= i < |v| ensures Occurs(v[i].key, rows, sel) {
      KeyHasRow(rows, sel, nm, i);
    }
    forall r | 0 <= r < |rows| ensures HasRow(rows[r].key, sel, v) {
      RowHasKey(rows, sel, nm, r);
    }
    forall i, m | 0 <= i < |v| && 0 <= m < nm ensures v[i].meas[m] == MatchingSum(rows, sel, v[i].key, m) {
      KeySum(rows, sel, nm, i, m);
    }
  }

  lemma KeySum(rows: seq<Row>, sel: seq<nat>, nm: nat, i: nat, m: nat)
    requires Shaped(rows, nm) && ColumnsOk(rows, sel) && i < |Group(Project(rows, sel), nm)|
    ensures var row := Group(Project(rows, sel), nm)[i];
      MeasureAt(row.meas, m) == MatchingSum(rows, sel, row.key, m)
  {
    hide Group; hide MatchingSum; hide Total;
    var p := Project(rows, sel);
    var v := Group(p, nm);
    SortedTotal(v, i, m);
    GroupTotal(p, nm, Is(v[i].key), m);
    ProjectTotal(rows, sel, v[i].key, m);
    MatchingTotal(rows, sel, v[i].key, m);
  }

  lemma KeyHasRow(rows: seq<Row>, sel: seq<nat>, nm: nat, i: nat)
    requires Shaped(rows, nm) && ColumnsOk(rows, sel) && i < |Group(Project(rows, sel), nm)|
    ensures Occurs(Group(Project(rows, sel), nm)[i].key, rows, sel)
  {
    hide Group; hide Matches; hide ProjectKey;
    var p := Project(rows, sel);
    var x := Group(p, nm)[i].key;
    assert Is(x)(Group(p, nm)[i].key);
    GroupHasKey(p, nm, Is(x));
    var r :| 0 <= r < |p| && Is(x)(p[r].key);
    MatchesProjection(rows[r].key, sel, x);
    assert Matches(rows[r].key, sel, x);
  }

  lemma RowHasKey(rows: seq<Row>, sel: seq<nat>, nm: nat, r: nat)
    requires Shaped(rows, nm) && ColumnsOk(rows, sel) && r < |rows|
    ensures HasRow(rows[r].key, sel, Group(Project(rows, sel), nm))
  {
    hide Group; hide Matches; hide ProjectKey;
    var p := Project(rows, sel);
    var x := p[r].key;
    assert Is(x)(p[r].key);
    GroupHasKey(p, nm, Is(x));
    var i :| 0 <= i < |Group(p, nm)| && Is(x)(Group(p, nm)[i].key);
    MatchesProjection(rows[r].key, sel, x);
    assert Matches(rows[r].key, sel, Group(p, nm)[i].key);
  }

  /** The aggregate of an aggregate is the direct aggregate. */
  lemma RegroupParent(rows: seq<Row>, nm: nat, sel: seq<nat>)
    requires Shaped(rows, nm)
    ensures Group(Project(Group(rows, nm), sel), nm) == Group(Project(rows, sel), nm)
  {
    var p := Project(Group(rows, nm), sel);
    var q := Project(rows, sel);
    forall k: Key ensures HasKey(p, Is(k)) <==> HasKey(q, Is(k)) {
      ProjectHasKey(Group(rows, nm), sel, k);
      ProjectHasKey(rows, sel, k);
      GroupHasKey(rows, nm, ProjectsTo(sel, k));
    }
    forall k: Key, i: nat ensures Total(p, Is(k), i) == Total(q, Is(k), i) {
      ProjectTotal(Group(rows, nm), sel, k, i);
      ProjectTotal(rows, sel, k, i);
      GroupTotal(rows, nm, ProjectsTo(sel, k), i);
    }
    GroupIsGroupBySum(p, nm);
    GroupUnique(Group(p, nm), q, nm);
  }

  /** Selecting columns of a selection: the relative column numbers compose. */
  function Compose(outer: seq<nat>, inner: seq<nat>): (c: seq<nat>)
    ensures |c| == |inner|
  {
    seq(|inner|, i requires 0 <= i < |inner| =>
      if 1 <= inner[i] <= |outer| then outer[inner[i]-1] else 0)
  }

  lemma ProjectCompose(rows: seq<Row>, outer: seq<nat>, inner: seq<nat>)
    ensures Project(Project(rows, outer), inner) == Project(rows, Compose(outer, inner))
  {
    var a := Project(Project(rows, outer), inner);
    var b := Project(rows, Compose(outer, inner));
    forall j | 0 <= j < |rows| ensures a[j] == b[j] {
      assert a[j].key == b[j].key;
    }
  }
}
