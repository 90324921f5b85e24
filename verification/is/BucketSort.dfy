/**
 * The bucket sort of the OpenMP IS benchmark: every thread counts its keys, derives its bucket
 * pointers and scatters its keys while the others do, in any interleaving.
 */
module BucketSort {
  import opened Arith
  import opened Counting

  // ---------------------------------------------------------------------------
  // Buckets
  // ---------------------------------------------------------------------------

  /** key >> shift, for w = 1 << shift keys to a bucket. */
  function Bucket(key: nat, w: nat): nat
    requires w > 0
  {
    Div(key, w)
  }

  lemma {:induction false} BucketRange(key: nat, w: nat)
    requires w > 0
    ensures Times(Bucket(key, w), w) <= key < Times(Bucket(key, w) + 1, w)
    decreases key
  {
    if key >= w { BucketRange(key - w, w); }
  }

  /** The keys of bucket b, in order. */
  function Pick(s: seq<nat>, b: nat, w: nat): (p: seq<nat>)
    requires w > 0
    ensures |p| <= |s|
  {
    if s == [] then []
    else Pick(s[..|s| - 1], b, w) + (if Bucket(s[|s| - 1], w) == b then [s[|s| - 1]] else [])
  }

  /** Bucket b's keys of the first t threads. */
  function Row(parts: seq<seq<nat>>, b: nat, w: nat, t: nat): seq<nat>
    requires w > 0 && t <= |parts|
  {
    if t == 0 then [] else Row(parts, b, w, t - 1) + Pick(parts[t - 1], b, w)
  }

  /** The buffer's contents up to bucket b: buckets in order, within each the threads in order. */
  function Upto(parts: seq<seq<nat>>, w: nat, b: nat): seq<nat>
    requires w > 0
  {
    if b == 0 then [] else Upto(parts, w, b - 1) + Row(parts, b - 1, w, |parts|)
  }

  /** Where thread t's keys of bucket b start. */
  function StartOf(parts: seq<seq<nat>>, w: nat, b: nat, t: nat): nat
    requires w > 0 && t <= |parts|
  {
    |Upto(parts, w, b)| + |Row(parts, b, w, t)|
  }

  function Keys(parts: seq<seq<nat>>): seq<nat> {
    if parts == [] then [] else Keys(parts[..|parts| - 1]) + parts[|parts| - 1]
  }

  lemma {:induction false} UptoPrefix(parts: seq<seq<nat>>, w: nat, b: nat, c: nat)
    requires w > 0 && b <= c
    ensures Upto(parts, w, b) <= Upto(parts, w, c)
    decreases c
  {
    if b < c { UptoPrefix(parts, w, b, c - 1); }
  }

  lemma {:induction false} RowPrefix(parts: seq<seq<nat>>, b: nat, w: nat, t: nat, u: nat)
    requires w > 0 && t <= u <= |parts|
    ensures Row(parts, b, w, t) <= Row(parts, b, w, u)
    decreases u
  {
    if t < u { RowPrefix(parts, b, w, t, u - 1); }
  }

  lemma Unfold(parts: seq<seq<nat>>, w: nat, b: nat, t: nat)
    requires w > 0 && t < |parts|
    ensures Upto(parts, w, b + 1) == Upto(parts, w, b) + Row(parts, b, w, |parts|)
    ensures Row(parts, b, w, t + 1) == Row(parts, b, w, t) + Pick(parts[t], b, w)
    ensures StartOf(parts, w, b, t) == |Upto(parts, w, b)| + |Row(parts, b, w, t)|
  {
  }

  lemma SliceOfParts(all: seq<nat>, here: seq<nat>, row: seq<nat>, left: seq<nat>, p: seq<nat>)
    requires here + row <= all && left + p <= row
    ensures |here| + |left| + |p| <= |all| && all[|here| + |left|..|here| + |left| + |p|] == p
  {
    forall i | 0 <= i < |p| ensures all[|here| + |left| + i] == p[i] {
      assert (here + row)[|here| + |left| + i] == row[|left| + i] == (left + p)[|left| + i];
    }
  }

  /** Thread t's keys of bucket b within the whole. */
  lemma Located(parts: seq<seq<nat>>, w: nat, nb: nat, b: nat, t: nat)
    requires w > 0 && b < nb && t < |parts|
    ensures var at, p := StartOf(parts, w, b, t), Pick(parts[t], b, w);
      at + |p| <= |Upto(parts, w, nb)| && Upto(parts, w, nb)[at..at + |p|] == p
  {
    hide Upto; hide Row; hide Pick; hide StartOf;
    UptoPrefix(parts, w, b + 1, nb);
    RowPrefix(parts, b, w, t + 1, |parts|);
    Unfold(parts, w, b, t);
    SliceOfParts(Upto(parts, w, nb), Upto(parts, w, b), Row(parts, b, w, |parts|), Row(parts, b, w, t), Pick(parts[t], b, w));
  }

  /** Regions come in order: buckets first, threads within. */
  lemma RegionsApart(parts: seq<seq<nat>>, w: nat, b: nat, t: nat, c: nat, u: nat)
    requires w > 0 && t < |parts| && u < |parts| && (b < c || (b == c && t < u))
    ensures StartOf(parts, w, b, t) + |Pick(parts[t], b, w)| <= StartOf(parts, w, c, u)
  {
    hide Upto; hide Row; hide Pick; hide StartOf;
    Unfold(parts, w, b, t);
    Unfold(parts, w, c, u);
    if b < c {
      RowPrefix(parts, b, w, t + 1, |parts|);
      UptoPrefix(parts, w, b + 1, c);
    } else {
      RowPrefix(parts, b, w, t + 1, u);
    }
  }

  lemma {:induction false} RowCover(parts: seq<seq<nat>>, w: nat, b: nat, t: nat, i: nat) returns (u: nat)
    requires w > 0 && t <= |parts| && i < |Row(parts, b, w, t)|
    ensures u < t && |Row(parts, b, w, u)| <= i < |Row(parts, b, w, u)| + |Pick(parts[u], b, w)|
    decreases t
  {
    if i >= |Row(parts, b, w, t - 1)| {
      u := t - 1;
    } else {
      u := RowCover(parts, w, b, t - 1, i);
    }
  }

  /** Every slot of the buffer belongs to some thread's share of some bucket. */
  lemma {:induction false} RegionsCover(parts: seq<seq<nat>>, w: nat, nb: nat, i: nat) returns (b: nat, t: nat)
    requires w > 0 && i < |Upto(parts, w, nb)|
    ensures b < nb && t < |parts|
    ensures StartOf(parts, w, b, t) <= i < StartOf(parts, w, b, t) + |Pick(parts[t], b, w)|
    decreases nb
  {
    hide Row; hide Pick;
    if i >= |Upto(parts, w, nb - 1)| {
      b := nb - 1;
      t := RowCover(parts, w, b, |parts|, i - |Upto(parts, w, b)|);
    } else {
      b, t := RegionsCover(parts, w, nb - 1, i);
    }
  }

  // ---------------------------------------------------------------------------
  // The scatter under any interleaving
  // ---------------------------------------------------------------------------

  /** Per thread: how many keys are done and its bucket pointers; shared: key_buff2. */
  datatype State = State(pos: seq<nat>, ptrs: seq<seq<nat>>, buf: seq<nat>)

  predicate CanStep(parts: seq<seq<nat>>, w: nat, nb: nat, s: State, t: nat)
    requires w > 0
  {
    && t < |parts| && |s.pos| == |s.ptrs| == |parts| && s.pos[t] < |parts[t]|
    && Bucket(parts[t][s.pos[t]], w) < |s.ptrs[t]|
    && s.ptrs[t][Bucket(parts[t][s.pos[t]], w)] < |s.buf|
  }

  /** Thread t scatters its next key: key_buff2[bucket_ptrs[k >> shift]++] = k. */
  function Step(parts: seq<seq<nat>>, w: nat, nb: nat, s: State, t: nat): State
    requires w > 0 && CanStep(parts, w, nb, s, t)
  {
    var k := parts[t][s.pos[t]];
    var b := Bucket(k, w);
    State(s.pos[t := s.pos[t] + 1], s.ptrs[t := s.ptrs[t][b := s.ptrs[t][b] + 1]], s.buf[s.ptrs[t][b] := k])
  }

  /** What every interleaving keeps. */
  ghost predicate Scattering(parts: seq<seq<nat>>, w: nat, nb: nat, s: State)
    requires w > 0
  {
    && ScatterShape(parts, w, nb, s)
    && forall t :: 0 <= t < |parts| ==> ThreadOk(parts, w, nb, s, t)
  }

  ghost predicate ScatterShape(parts: seq<seq<nat>>, w: nat, nb: nat, s: State)
    requires w > 0
  {
    && |s.pos| == |s.ptrs| == |parts| && |s.buf| == |Upto(parts, w, nb)|
    && forall t :: 0 <= t < |parts| ==> s.pos[t] <= |parts[t]| && |s.ptrs[t]| == nb
  }

  /** Thread t's pointers and the part of its regions it has filled. */
  ghost predicate ThreadOk(parts: seq<seq<nat>>, w: nat, nb: nat, s: State, t: nat)
    requires w > 0 && t < |parts| && ScatterShape(parts, w, nb, s)
  {
    forall b :: 0 <= b < nb ==>
      && s.ptrs[t][b] == StartOf(parts, w, b, t) + |Pick(parts[t][..s.pos[t]], b, w)|
      && FilledTo(parts, w, nb, s.buf, StartOf(parts, w, b, t), s.ptrs[t][b])
  }

  ghost predicate FilledTo(parts: seq<seq<nat>>, w: nat, nb: nat, buf: seq<nat>, lo: nat, hi: nat)
    requires w > 0 && |buf| == |Upto(parts, w, nb)|
  {
    forall i :: lo <= i < hi && i < |buf| ==> buf[i] == Upto(parts, w, nb)[i]
  }

  ghost predicate AllInBuckets(parts: seq<seq<nat>>, w: nat, nb: nat)
    requires w > 0
  {
    forall t, i :: 0 <= t < |parts| && 0 <= i < |parts[t]| ==> Bucket(parts[t][i], w) < nb
  }

  lemma {:induction false} PickSplit(s: seq<nat>, i: nat, b: nat, w: nat)
    requires w > 0 && i <= |s|
    ensures Pick(s[..i], b, w) <= Pick(s, b, w)
    ensures i < |s| ==> Pick(s[..i + 1], b, w) == Pick(s[..i], b, w) + (if Bucket(s[i], w) == b then [s[i]] else [])
  {
    if i < |s| {
      assert s[..i + 1][..i] == s[..i];
      PickSplit(s[..|s| - 1], i, b, w);
      assert s[..|s| - 1][..i] == s[..i];
    } else {
      assert s[..i] == s;
    }
  }

  /** The slot a step writes is the key's final slot. */
  lemma StepSlot(parts: seq<seq<nat>>, w: nat, nb: nat, s: State, t: nat)
    requires w > 0 && Scattering(parts, w, nb, s) && AllInBuckets(parts, w, nb)
    requires t < |parts| && s.pos[t] < |parts[t]|
    ensures var k := parts[t][s.pos[t]];
      && CanStep(parts, w, nb, s, t)
      && Upto(parts, w, nb)[s.ptrs[t][Bucket(k, w)]] == k
  {
    hide Pick; hide StartOf; hide Upto; hide Bucket; hide FilledTo;
    var i := s.pos[t];
    var k := parts[t][i];
    var b := Bucket(k, w);
    assert b < nb;
    assert ThreadOk(parts, w, nb, s, t);
    PickAt(parts[t], i, b, w);
    Located(parts, w, nb, b, t);
    InSlice(Upto(parts, w, nb), StartOf(parts, w, b, t), Pick(parts[t], b, w), |Pick(parts[t][..i], b, w)|);
  }

  /** A key stands behind the bucket's keys before it. */
  lemma PickAt(s: seq<nat>, i: nat, b: nat, w: nat)
    requires w > 0 && i < |s| && Bucket(s[i], w) == b
    ensures |Pick(s[..i], b, w)| < |Pick(s, b, w)| && Pick(s, b, w)[|Pick(s[..i], b, w)|] == s[i]
  {
    hide Pick; hide Bucket;
    PickSplit(s, i, b, w);
    PickSplit(s, i + 1, b, w);
  }

  lemma InSlice(all: seq<nat>, at: nat, p: seq<nat>, c: nat)
    requires at + |p| <= |all| && all[at..at + |p|] == p && c < |p|
    ensures all[at + c] == p[c]
  {
    assert all[at..at + |p|][c] == all[at + c];
  }

  /** The thread that steps has filled one more slot of its region. */
  lemma StepOwn(parts: seq<seq<nat>>, w: nat, nb: nat, s: State, t: nat)
    requires w > 0 && Scattering(parts, w, nb, s) && t < |parts| && s.pos[t] < |parts[t]| && CanStep(parts, w, nb, s, t)
    requires var k := parts[t][s.pos[t]]; Upto(parts, w, nb)[s.ptrs[t][Bucket(k, w)]] == k
    ensures ScatterShape(parts, w, nb, Step(parts, w, nb, s, t))
    ensures ThreadOk(parts, w, nb, Step(parts, w, nb, s, t), t)
  {
    hide Pick; hide StartOf; hide Upto; hide Bucket;
    assert ThreadOk(parts, w, nb, s, t);
    forall b | 0 <= b < nb
      ensures Pick(parts[t][..s.pos[t] + 1], b, w) ==
        Pick(parts[t][..s.pos[t]], b, w) + (if Bucket(parts[t][s.pos[t]], w) == b then [parts[t][s.pos[t]]] else [])
    {
      PickSplit(parts[t], s.pos[t], b, w);
    }
  }

  /** The other threads' slots keep what they hold: only final values are written. */
  lemma StepOther(parts: seq<seq<nat>>, w: nat, nb: nat, s: State, t: nat, u: nat)
    requires w > 0 && Scattering(parts, w, nb, s) && t < |parts| && s.pos[t] < |parts[t]| && CanStep(parts, w, nb, s, t)
    requires var k := parts[t][s.pos[t]]; Upto(parts, w, nb)[s.ptrs[t][Bucket(k, w)]] == k
    requires u < |parts| && u != t
    ensures ScatterShape(parts, w, nb, Step(parts, w, nb, s, t))
    ensures ThreadOk(parts, w, nb, Step(parts, w, nb, s, t), u)
  {
    hide Pick; hide StartOf; hide Upto; hide Bucket;
    assert ThreadOk(parts, w, nb, s, u);
  }

  lemma StepKeeps(parts: seq<seq<nat>>, w: nat, nb: nat, s: State, t: nat)
    requires w > 0 && Scattering(parts, w, nb, s) && AllInBuckets(parts, w, nb)
    requires t < |parts| && s.pos[t] < |parts[t]|
    ensures CanStep(parts, w, nb, s, t) && Scattering(parts, w, nb, Step(parts, w, nb, s, t))
  {
    hide Pick; hide StartOf; hide Upto; hide Bucket; hide ThreadOk; hide Step; hide AllInBuckets;
    StepSlot(parts, w, nb, s, t);
    StepOwn(parts, w, nb, s, t);
    forall u | 0 <= u < |parts| ensures ThreadOk(parts, w, nb, Step(parts, w, nb, s, t), u) {
      if u != t { StepOther(parts, w, nb, s, t, u); }
    }
  }

  /** However the threads interleave, the finished buffer is the same. */
  lemma ScatterDone(parts: seq<seq<nat>>, w: nat, nb: nat, s: State)
    requires w > 0 && Scattering(parts, w, nb, s)
    requires forall t :: 0 <= t < |parts| ==> s.pos[t] == |parts[t]|
    ensures s.buf == Upto(parts, w, nb)
    ensures forall t, b :: 0 <= t < |parts| && 0 <= b < nb ==>
      s.ptrs[t][b] == StartOf(parts, w, b, t) + |Pick(parts[t], b, w)|
  {
    forall t | 0 <= t < |parts| ensures parts[t][..s.pos[t]] == parts[t] && ThreadOk(parts, w, nb, s, t) {
    }
    forall i | 0 <= i < |s.buf| ensures s.buf[i] == Upto(parts, w, nb)[i] {
      var b, t := RegionsCover(parts, w, nb, i);
      assert ThreadOk(parts, w, nb, s, t);
      assert FilledTo(parts, w, nb, s.buf, StartOf(parts, w, b, t), s.ptrs[t][b]);
    }
  }

  // ---------------------------------------------------------------------------
  // Key counts of the scattered buffer
  // ---------------------------------------------------------------------------

  lemma {:induction false} PickCount(s: seq<nat>, b: nat, w: nat, k: nat)
    requires w > 0
    ensures Count(Pick(s, b, w), k) == if Bucket(k, w) == b then Count(s, k) else 0
  {
    if s != [] {
      var n := |s| - 1;
      PickCount(s[..n], b, w, k);
      CountAppend(Pick(s[..n], b, w), if Bucket(s[n], w) == b then [s[n]] else [], k);
    }
  }

  lemma {:induction false} RowCount(parts: seq<seq<nat>>, b: nat, w: nat, t: nat, k: nat)
    requires w > 0 && t <= |parts|
    ensures Count(Row(parts, b, w, t), k) == if Bucket(k, w) == b then Count(Keys(parts[..t]), k) else 0
  {
    hide Pick; hide Bucket;
    if t > 0 {
      RowCount(parts, b, w, t - 1, k);
      PickCount(parts[t - 1], b, w, k);
      CountAppend(Row(parts, b, w, t - 1), Pick(parts[t - 1], b, w), k);
      assert parts[..t][..t - 1] == parts[..t - 1];
      CountAppend(Keys(parts[..t - 1]), parts[t - 1], k);
    }
  }

  lemma {:induction false} UptoCount(parts: seq<seq<nat>>, w: nat, b: nat, k: nat)
    requires w > 0
    ensures Count(Upto(parts, w, b), k) == if Bucket(k, w) < b then Count(Keys(parts), k) else 0
  {
    hide Upto; hide Row; hide Keys; hide Count; hide Bucket;
    EmptyRow(parts, w, 0);
    NoCount(k);
    if b > 0 {
      UptoCount(parts, w, b - 1, k);
      UptoNext(parts, w, b - 1);
      RowCount(parts, b - 1, w, |parts|, k);
      assert parts[..|parts|] == parts;
      CountAppend(Upto(parts, w, b - 1), Row(parts, b - 1, w, |parts|), k);
    }
  }

  lemma NoCount(k: nat)
    ensures Count([], k) == 0
  {
  }

  lemma {:induction false} KeyMember(parts: seq<seq<nat>>, w: nat, nb: nat, k: nat)
    requires w > 0 && AllInBuckets(parts, w, nb) && k in Keys(parts)
    ensures Bucket(k, w) < nb
  {
    var n := |parts| - 1;
    if k in parts[n] {
      var i :| 0 <= i < |parts[n]| && parts[n][i] == k;
    } else {
      KeyMember(parts[..n], w, nb, k);
    }
  }

  lemma {:induction false} Occurs(s: seq<nat>, k: nat)
    ensures Count(s, k) > 0 <==> k in s
  {
    CountIsMultiplicity(s, k);
  }

  /** The scatter permutes the keys. */
  lemma ScatterPermutes(parts: seq<seq<nat>>, w: nat, nb: nat)
    requires w > 0 && AllInBuckets(parts, w, nb)
    ensures multiset(Upto(parts, w, nb)) == multiset(Keys(parts))
  {
    forall k: nat ensures Count(Upto(parts, w, nb), k) == Count(Keys(parts), k) {
      UptoCount(parts, w, nb, k);
      Occurs(Keys(parts), k);
      if k in Keys(parts) { KeyMember(parts, w, nb, k); }
    }
    SameCounts(Upto(parts, w, nb), Keys(parts));
  }

  lemma {:induction false} PickInRange(s: seq<nat>, b: nat, w: nat)
    requires w > 0
    ensures InRange(Pick(s, b, w), Times(b, w), Times(b + 1, w))
  {
    if s != [] {
      PickInRange(s[..|s| - 1], b, w);
      BucketRange(s[|s| - 1], w);
    }
  }

  lemma {:induction false} RowInRange(parts: seq<seq<nat>>, b: nat, w: nat, t: nat)
    requires w > 0 && t <= |parts|
    ensures InRange(Row(parts, b, w, t), Times(b, w), Times(b + 1, w))
  {
    if t > 0 {
      RowInRange(parts, b, w, t - 1);
      PickInRange(parts[t - 1], b, w);
    }
  }

  lemma {:induction false} UptoInRange(parts: seq<seq<nat>>, w: nat, b: nat)
    requires w > 0
    ensures InRange(Upto(parts, w, b), 0, Times(b, w))
  {
    if b > 0 {
      UptoInRange(parts, w, b - 1);
      RowInRange(parts, b - 1, w, |parts|);
    }
  }

  lemma UptoNext(parts: seq<seq<nat>>, w: nat, b: nat)
    requires w > 0
    ensures Upto(parts, w, b + 1) == Upto(parts, w, b) + Row(parts, b, w, |parts|)
  {
  }

  /** Keys up to k: all of the earlier buckets, and those of k's own bucket. */
  lemma {:induction false} BucketCounts(parts: seq<seq<nat>>, w: nat, b: nat, c: nat, k: nat)
    requires w > 0 && b < c && Times(b, w) <= k <= Times(b + 1, w)
    ensures CountLt(Upto(parts, w, c), k) == |Upto(parts, w, b)| + CountLt(Row(parts, b, w, |parts|), k)
    decreases c
  {
    hide Upto; hide Row; hide CountLt; hide InRange;
    UptoNext(parts, w, c - 1);
    var row := Row(parts, c - 1, w, |parts|);
    CountAppend(Upto(parts, w, c - 1), row, k);
    RowInRange(parts, c - 1, w, |parts|);
    CountRange(row, Times(c - 1, w), Times(c, w));
    if b == c - 1 {
      UptoInRange(parts, w, b);
      CountRange(Upto(parts, w, b), 0, Times(b, w));
    } else {
      BucketCounts(parts, w, b, c - 1, k);
      TimesMonotone(b + 1, c - 1, w);
    }
  }

  // ---------------------------------------------------------------------------
  // The parallel region
  // ---------------------------------------------------------------------------

  /** A thread's counting loop. */
  method CountBuckets(part: seq<nat>, w: nat, nb: nat) returns (size: seq<nat>)
    requires w > 0 && forall i :: 0 <= i < |part| ==> Bucket(part[i], w) < nb
    ensures |size| == nb && forall b :: 0 <= b < nb ==> size[b] == |Pick(part, b, w)|
  {
    size := seq(nb, _ => 0);
    var i := 0;
    assert part[..0] == [];
    while i < |part|
      invariant 0 <= i <= |part| && |size| == nb
      invariant forall b :: 0 <= b < nb ==> size[b] == |Pick(part[..i], b, w)|
    {
      forall b | 0 <= b < nb { PickSplit(part, i, b, w); }
      size := size[Bucket(part[i], w) := size[Bucket(part[i], w)] + 1];
      i := i + 1;
    }
    assert part[..|part|] == part;
  }

  /** The threads' bucket sizes. */
  ghost predicate SizesOk(sizes: seq<seq<nat>>, parts: seq<seq<nat>>, w: nat, nb: nat)
    requires w > 0
  {
    |sizes| == |parts| &&
    forall t :: 0 <= t < |parts| ==> |sizes[t]| == nb && forall b :: 0 <= b < nb ==> sizes[t][b] == |Pick(parts[t], b, w)|
  }

  /** Sums sizes[k][b] over threads lo..hi-1. */
  method AddSizes(sizes: seq<seq<nat>>, b: nat, lo: nat, hi: nat, start: nat, ghost parts: seq<seq<nat>>, w: nat, ghost nb: nat)
    returns (sum: nat)
    requires w > 0 && SizesOk(sizes, parts, w, nb) && b < nb && lo <= hi <= |sizes|
    ensures sum + |Row(parts, b, w, lo)| == start + |Row(parts, b, w, hi)|
  {
    sum := start;
    var k := lo;
    while k < hi
      invariant lo <= k <= hi && sum + |Row(parts, b, w, lo)| == start + |Row(parts, b, w, k)|
    {
      sum := sum + sizes[k][b];
      k := k + 1;
    }
  }

  /** Thread t's pointers before and after it has scattered its keys. */
  ghost predicate AtStart(ptrs: seq<nat>, parts: seq<seq<nat>>, w: nat, nb: nat, t: nat)
    requires w > 0 && t < |parts| && |ptrs| == nb
  {
    forall b :: 0 <= b < nb ==> ptrs[b] == StartOf(parts, w, b, t)
  }

  ghost predicate AtEnd(ptrs: seq<nat>, parts: seq<seq<nat>>, w: nat, nb: nat, t: nat)
    requires w > 0 && t < |parts| && |ptrs| == nb
  {
    forall b :: 0 <= b < nb ==> ptrs[b] == StartOf(parts, w, b, t) + |Pick(parts[t], b, w)|
  }

  /** A thread's bucket pointers, accumulated over the buckets and the threads before it. */
  method BucketPointers(sizes: seq<seq<nat>>, myid: nat, nb: nat, ghost parts: seq<seq<nat>>, w: nat) returns (ptrs: seq<nat>)
    requires w > 0 && nb > 0 && SizesOk(sizes, parts, w, nb) && myid < |sizes|
    ensures |ptrs| == nb && myid < |parts| && AtStart(ptrs, parts, w, nb, myid)
  {
    hide Row; hide Pick; hide SizesOk;
    SameThreads(sizes, parts, w, nb);
    ptrs := seq(nb, _ => 0);
    var p := AddSizes(sizes, 0, 0, myid, 0, parts, w, nb);
    EmptyRow(parts, w, 0);
    ptrs := ptrs[0 := p];
    var i := 1;
    while i < nb
      invariant 1 <= i <= nb && |ptrs| == nb
      invariant forall b :: 0 <= b < i ==> ptrs[b] == StartOf(parts, w, b, myid)
    {
      p := AddSizes(sizes, i, 0, myid, ptrs[i - 1], parts, w, nb);
      p := AddSizes(sizes, i - 1, myid, |sizes|, p, parts, w, nb);
      EmptyRow(parts, w, i);
      ptrs := ptrs[i := p];
      i := i + 1;
    }
  }

  lemma SameThreads(sizes: seq<seq<nat>>, parts: seq<seq<nat>>, w: nat, nb: nat)
    requires w > 0 && SizesOk(sizes, parts, w, nb)
    ensures |sizes| == |parts|
  {
  }

  lemma EmptyRow(parts: seq<seq<nat>>, w: nat, b: nat)
    requires w > 0
    ensures Row(parts, b, w, 0) == [] && Upto(parts, w, 0) == []
  {
  }

  /** The buckets' ends, the same for every thread. */
  ghost predicate AreEnds(ptrs: seq<nat>, parts: seq<seq<nat>>, w: nat)
    requires w > 0
  {
    forall b :: 0 <= b < |ptrs| ==> ptrs[b] == |Upto(parts, w, b + 1)|
  }

  /** After the scatter each thread adds the later threads' sizes: the ends of the buckets. */
  method FinalPointers(ptrs0: seq<nat>, sizes: seq<seq<nat>>, myid: nat, nb: nat, ghost parts: seq<seq<nat>>, w: nat)
    returns (ptrs: seq<nat>)
    requires w > 0 && SizesOk(sizes, parts, w, nb) && myid < |sizes| && |ptrs0| == nb
    requires AtEnd(ptrs0, parts, w, nb, myid)
    ensures |ptrs| == nb && AreEnds(ptrs, parts, w)
  {
    hide Upto; hide Row; hide Pick; hide StartOf; hide SizesOk;
    SameThreads(sizes, parts, w, nb);
    ptrs := ptrs0;
    if myid < |sizes| - 1 {
      var i := 0;
      while i < nb
        invariant 0 <= i <= nb && |ptrs| == nb
        invariant forall b :: 0 <= b < i ==> ptrs[b] == |Upto(parts, w, b + 1)|
        invariant forall b :: i <= b < nb ==> ptrs[b] == ptrs0[b]
      {
        var p := AddSizes(sizes, i, myid + 1, |sizes|, ptrs[i], parts, w, nb);
        Unfold(parts, w, i, myid);
        ptrs := ptrs[i := p];
        i := i + 1;
      }
    } else {
      forall b | 0 <= b < nb ensures ptrs[b] == |Upto(parts, w, b + 1)| {
        Unfold(parts, w, b, myid);
      }
    }
  }

  /** An interleaving: each thread takes as many turns as it has keys. */
  ghost predicate IsSchedule(parts: seq<seq<nat>>, schedule: seq<nat>) {
    && InRange(schedule, 0, |parts|)
    && forall t :: 0 <= t < |parts| ==> Count(schedule, t) == |parts[t]|
  }

  /** The scatter loops of all threads, interleaved as the schedule says. */
  method Scatter(parts: seq<seq<nat>>, w: nat, nb: nat, ptrs0: seq<seq<nat>>, schedule: seq<nat>, key_buff2: array<nat>)
    returns (ptrs: seq<seq<nat>>)
    requires w > 0 && AllInBuckets(parts, w, nb) && IsSchedule(parts, schedule)
    requires |ptrs0| == |parts| && key_buff2.Length == |Upto(parts, w, nb)|
    requires forall t :: 0 <= t < |parts| ==> |ptrs0[t]| == nb && AtStart(ptrs0[t], parts, w, nb, t)
    modifies key_buff2
    ensures key_buff2[..] == Upto(parts, w, nb) && |ptrs| == |parts|
    ensures forall t :: 0 <= t < |parts| ==> |ptrs[t]| == nb && AtEnd(ptrs[t], parts, w, nb, t)
  {
    hide Scattering; hide Step; hide Upto; hide StartOf; hide AllInBuckets;
    ptrs := ptrs0;
    var pos := seq(|parts|, _ => 0);
    var i := 0;
    assert schedule[..0] == [];
    ScatterStart(parts, w, nb, State(pos, ptrs, key_buff2[..]));
    while i < |schedule|
      invariant 0 <= i <= |schedule| && |pos| == |parts|
      invariant Scattering(parts, w, nb, State(pos, ptrs, key_buff2[..]))
      invariant forall t :: 0 <= t < |parts| ==> pos[t] == Count(schedule[..i], t)
    {
      var t := schedule[i];
      forall u: nat { CountPrefix(schedule, i, u); }
      CountPrefix(schedule, i + 1, t);
      ghost var s := State(pos, ptrs, key_buff2[..]);
      StepKeeps(parts, w, nb, s, t);
      var k := parts[t][pos[t]];
      var b := Bucket(k, w);
      key_buff2[ptrs[t][b]] := k;
      ptrs := ptrs[t := ptrs[t][b := ptrs[t][b] + 1]];
      pos := pos[t := pos[t] + 1];
      StepIs(parts, w, nb, s, t);
      assert key_buff2[..] == Step(parts, w, nb, s, t).buf;
      i := i + 1;
    }
    assert schedule[..|schedule|] == schedule;
    ScatterDone(parts, w, nb, State(pos, ptrs, key_buff2[..]));
    ScatterSizes(parts, w, nb, State(pos, ptrs, key_buff2[..]));
  }

  lemma ScatterStart(parts: seq<seq<nat>>, w: nat, nb: nat, s: State)
    requires w > 0 && |s.pos| == |s.ptrs| == |parts| && |s.buf| == |Upto(parts, w, nb)|
    requires forall t :: 0 <= t < |parts| ==> s.pos[t] == 0 && |s.ptrs[t]| == nb && AtStart(s.ptrs[t], parts, w, nb, t)
    ensures Scattering(parts, w, nb, s)
  {
  }

  lemma ScatterSizes(parts: seq<seq<nat>>, w: nat, nb: nat, s: State)
    requires w > 0 && Scattering(parts, w, nb, s)
    ensures |s.ptrs| == |parts| && forall t :: 0 <= t < |parts| ==> |s.ptrs[t]| == nb
  {
  }

  lemma StepIs(parts: seq<seq<nat>>, w: nat, nb: nat, s: State, t: nat)
    requires w > 0 && CanStep(parts, w, nb, s, t)
    ensures var k := parts[t][s.pos[t]];
      var b := Bucket(k, w);
      Step(parts, w, nb, s, t) ==
      State(s.pos[t := s.pos[t] + 1], s.ptrs[t := s.ptrs[t][b := s.ptrs[t][b] + 1]], s.buf[s.ptrs[t][b] := k])
  {
  }

  // ---------------------------------------------------------------------------
  // Ranking and placing, bucket by bucket
  // ---------------------------------------------------------------------------

  /** The buckets in the order a dynamic schedule happens to take them. */
  ghost predicate IsOrder(order: seq<nat>, nb: nat) {
    && InRange(order, 0, nb)
    && (forall i, j :: 0 <= i < j < |order| ==> order[i] != order[j])
    && (forall b :: 0 <= b < nb ==> b in order)
  }

  /** Bucket b's keys, where they start, and its counters. */
  ghost predicate BucketRanked(buff: seq<nat>, parts: seq<seq<nat>>, w: nat, b: nat)
    requires w > 0
  {
    Ranked(buff, 0, Times(b, w), Times(b + 1, w), Row(parts, b, w, |parts|), |Upto(parts, w, b)|)
  }

  /** Counters of other buckets are untouched. */
  lemma OtherBucketRanked(buff: seq<nat>, buff1: seq<nat>, parts: seq<seq<nat>>, w: nat, b: nat, c: nat)
    requires w > 0 && b != c && |buff| == |buff1| && BucketRanked(buff, parts, w, c)
    requires forall i :: 0 <= i < |buff| && !(Times(b, w) <= i < Times(b + 1, w)) ==> buff1[i] == buff[i]
    ensures BucketRanked(buff1, parts, w, c)
  {
    if b < c { TimesMonotone(b + 1, c, w); } else { TimesMonotone(c + 1, b, w); }
    hide Upto; hide Row; hide Times; hide CountLt;
  }

  /** Where bucket b's keys stand in the scattered buffer. */
  lemma BucketSlice(parts: seq<seq<nat>>, w: nat, nb: nat, b: nat)
    requires w > 0 && b < nb
    ensures |Upto(parts, w, b)| <= |Upto(parts, w, b + 1)| <= |Upto(parts, w, nb)|
    ensures Upto(parts, w, nb)[|Upto(parts, w, b)|..|Upto(parts, w, b + 1)|] == Row(parts, b, w, |parts|)
    ensures InRange(Row(parts, b, w, |parts|), Times(b, w), Times(b + 1, w))
    ensures Times(b, w) <= Times(b + 1, w) <= Times(nb, w)
  {
    hide Upto; hide Row; hide Times;
    UptoNext(parts, w, b);
    UptoPrefix(parts, w, b + 1, nb);
    RowInRange(parts, b, w, |parts|);
    TimesMonotone(b, b + 1, w);
    TimesMonotone(b + 1, nb, w);
    var all, next := Upto(parts, w, nb), Upto(parts, w, b + 1);
    assert all[|Upto(parts, w, b)|..|next|] == next[|Upto(parts, w, b)|..];
  }

  /** The start of bucket i in the buffer. */
  method BucketStart(bucket_ptrs: seq<nat>, i: nat, ghost parts: seq<seq<nat>>, w: nat) returns (m: nat)
    requires w > 0 && i < |bucket_ptrs| && AreEnds(bucket_ptrs, parts, w)
    ensures m == |Upto(parts, w, i)|
  {
    m := if i > 0 then bucket_ptrs[i - 1] else 0;
  }

  /** The ranking loop over the buckets. */
  method RankBuckets(bucket_ptrs: seq<nat>, order: seq<nat>, key_buff1: array<nat>, key_buff2: array<nat>,
                     ghost parts: seq<seq<nat>>, w: nat)
    requires w > 0 && AreEnds(bucket_ptrs, parts, w) && IsOrder(order, |bucket_ptrs|) && key_buff1 != key_buff2
    requires key_buff1.Length == Times(|bucket_ptrs|, w) && key_buff2[..] == Upto(parts, w, |bucket_ptrs|)
    modifies key_buff1
    ensures forall b :: 0 <= b < |bucket_ptrs| ==> BucketRanked(key_buff1[..], parts, w, b)
  {
    hide Upto; hide Row; hide Times; hide BucketRanked; hide Ranked;
    var j := 0;
    while j < |order|
      invariant 0 <= j <= |order|
      invariant forall i :: 0 <= i < j ==> BucketRanked(key_buff1[..], parts, w, order[i])
    {
      var i := order[j];
      var m := BucketStart(bucket_ptrs, i, parts, w);
      BucketSlice(parts, w, |bucket_ptrs|, i);
      ghost var before := key_buff1[..];
      assert key_buff2[m..bucket_ptrs[i]] == key_buff2[..][m..bucket_ptrs[i]];
      TimesIsProduct(i, w);
      TimesIsProduct(i + 1, w);
      var k1 := i * w;
      TimesNext(i, w);
      RankRange(key_buff1, 0, k1, k1 + w, key_buff2[m..bucket_ptrs[i]], m);
      IsBucketRanked(key_buff1[..], parts, w, i);
      forall l | 0 <= l < j ensures BucketRanked(key_buff1[..], parts, w, order[l]) {
        OtherBucketRanked(before, key_buff1[..], parts, w, i, order[l]);
      }
      j := j + 1;
    }
    forall b | 0 <= b < |bucket_ptrs| ensures BucketRanked(key_buff1[..], parts, w, b) {
      assert b in order;
    }
  }

  lemma IsBucketRanked(buff: seq<nat>, parts: seq<seq<nat>>, w: nat, b: nat)
    requires w > 0
    requires Ranked(buff, 0, Times(b, w), Times(b + 1, w), Row(parts, b, w, |parts|), |Upto(parts, w, b)|)
    ensures BucketRanked(buff, parts, w, b)
  {
  }

  /** Bucket by bucket, every counter ends up as the number of keys at most as large as its key. */
  lemma RanksAreCounts(buff: seq<nat>, parts: seq<seq<nat>>, w: nat, nb: nat)
    requires w > 0 && |buff| == Times(nb, w) && forall b :: 0 <= b < nb ==> BucketRanked(buff, parts, w, b)
    ensures Ranked(buff, 0, 0, Times(nb, w), Upto(parts, w, nb), 0)
  {
    hide Upto; hide Row; hide Times; hide CountLt;
    forall p | 0 <= p < |buff| ensures buff[p] == CountLt(Upto(parts, w, nb), p + 1) {
      var b := Bucket(p, w);
      BucketRange(p, w);
      if b >= nb { TimesMonotone(nb, b, w); }
      assert BucketRanked(buff, parts, w, b);
      BucketCounts(parts, w, b, nb, p + 1);
    }
  }

  /** Bucket b's keys stand sorted in its stretch of the key array. */
  ghost predicate BucketPlaced(out: seq<nat>, parts: seq<seq<nat>>, w: nat, b: nat)
    requires w > 0
  {
    && |Upto(parts, w, b)| <= |Upto(parts, w, b + 1)| <= |out|
    && Placed(out[|Upto(parts, w, b)|..|Upto(parts, w, b + 1)|], Row(parts, b, w, |parts|))
  }

  lemma OtherBucketPlaced(out: seq<nat>, out1: seq<nat>, parts: seq<seq<nat>>, w: nat, b: nat, c: nat)
    requires w > 0 && b != c && |out| == |out1| && BucketPlaced(out, parts, w, c)
    requires forall i :: 0 <= i < |out| && !(|Upto(parts, w, b)| <= i < |Upto(parts, w, b + 1)|) ==> out1[i] == out[i]
    ensures BucketPlaced(out1, parts, w, c)
  {
    hide Upto; hide Row; hide Placed;
    if b < c { UptoPrefix(parts, w, b + 1, c); } else { UptoPrefix(parts, w, c + 1, b); }
    assert out1[|Upto(parts, w, c)|..|Upto(parts, w, c + 1)|] == out[|Upto(parts, w, c)|..|Upto(parts, w, c + 1)|];
  }

  lemma BucketsPlaced(out: seq<nat>, parts: seq<seq<nat>>, w: nat, nb: nat)
    requires w > 0 && |out| == |Upto(parts, w, nb)| && forall b :: 0 <= b < nb ==> BucketPlaced(out, parts, w, b)
    ensures Placed(out, Upto(parts, w, nb))
  {
    hide Upto; hide Row; hide Times; hide CountLt; hide Bucket;
    var keys := Upto(parts, w, nb);
    UptoInRange(parts, w, nb);
    CountRange(keys, 0, Times(nb, w));
    forall k: nat, i | CountLt(keys, k) <= i < CountLt(keys, k + 1) ensures out[i] == k {
      var b := Bucket(k, w);
      BucketRange(k, w);
      if b >= nb { TimesMonotone(nb, b, w); }
      BucketCounts(parts, w, b, nb, k);
      BucketCounts(parts, w, b, nb, k + 1);
      assert BucketPlaced(out, parts, w, b);
      assert out[|Upto(parts, w, b)|..|Upto(parts, w, b + 1)|][i - |Upto(parts, w, b)|] == k;
    }
  }

  /** The sorting loop of full_verify, bucket by bucket. */
  method PlaceBuckets(bucket_ptrs: seq<nat>, order: seq<nat>, key_buff1: array<nat>, key_buff2: array<nat>,
                      key_array: array<nat>, ghost parts: seq<seq<nat>>, w: nat)
    requires w > 0 && AreEnds(bucket_ptrs, parts, w) && IsOrder(order, |bucket_ptrs|)
    requires key_buff1 != key_buff2 && key_array != key_buff1 && key_array != key_buff2
    requires key_buff1.Length == Times(|bucket_ptrs|, w) && key_buff2[..] == Upto(parts, w, |bucket_ptrs|)
    requires key_array.Length == key_buff2.Length
    requires forall b :: 0 <= b < |bucket_ptrs| ==> BucketRanked(key_buff1[..], parts, w, b)
    modifies key_buff1, key_array
    ensures Placed(key_array[..], Upto(parts, w, |bucket_ptrs|))
  {
    hide Upto; hide Row; hide Times; hide BucketRanked; hide Ranked; hide BucketPlaced; hide Placed;
    var j := 0;
    while j < |order|
      invariant 0 <= j <= |order|
      invariant forall l :: 0 <= l < j ==> BucketPlaced(key_array[..], parts, w, order[l])
      invariant forall l :: j <= l < |order| ==> BucketRanked(key_buff1[..], parts, w, order[l])
    {
      var i := order[j];
      var k1 := BucketStart(bucket_ptrs, i, parts, w);
      BucketSlice(parts, w, |bucket_ptrs|, i);
      ghost var buff, out := key_buff1[..], key_array[..];
      ghost var keys := key_buff2[k1..bucket_ptrs[i]];
      assert keys == key_buff2[..][k1..bucket_ptrs[i]];
      RankedBucket(buff, parts, w, i);
      PlaceRange(key_buff1, 0, Mul(i, w), Mul(i + 1, w), key_buff2[k1..bucket_ptrs[i]], k1, key_array);
      assert key_array[k1..k1 + |keys|] == key_array[..][k1..bucket_ptrs[i]];
      IsBucketPlaced(key_array[..], parts, w, i);
      forall l | 0 <= l < j ensures BucketPlaced(key_array[..], parts, w, order[l]) {
        OtherBucketPlaced(out, key_array[..], parts, w, i, order[l]);
      }
      forall l | j < l < |order| ensures BucketRanked(key_buff1[..], parts, w, order[l]) {
        OtherBucketRanked(buff, key_buff1[..], parts, w, i, order[l]);
      }
      j := j + 1;
    }
    forall b | 0 <= b < |bucket_ptrs| ensures BucketPlaced(key_array[..], parts, w, b) {
      assert b in order;
    }
    BucketsPlaced(key_array[..], parts, w, |bucket_ptrs|);
  }

  lemma RankedBucket(buff: seq<nat>, parts: seq<seq<nat>>, w: nat, b: nat)
    requires w > 0 && BucketRanked(buff, parts, w, b)
    ensures Ranked(buff, 0, Times(b, w), Times(b + 1, w), Row(parts, b, w, |parts|), |Upto(parts, w, b)|)
  {
  }

  lemma IsBucketPlaced(out: seq<nat>, parts: seq<seq<nat>>, w: nat, b: nat)
    requires w > 0 && |Upto(parts, w, b)| <= |Upto(parts, w, b + 1)| <= |out|
    requires Placed(out[|Upto(parts, w, b)|..|Upto(parts, w, b + 1)|], Row(parts, b, w, |parts|))
    ensures BucketPlaced(out, parts, w, b)
  {
  }

  /** full_verify: sorts the keys by their ranks; the count of keys out of order is 0. */
  method FullVerify(bucket_ptrs: seq<nat>, order: seq<nat>, key_buff1: array<nat>, key_buff2: array<nat>,
                    key_array: array<nat>, ghost parts: seq<seq<nat>>, w: nat) returns (j: int)
    requires w > 0 && AreEnds(bucket_ptrs, parts, w) && IsOrder(order, |bucket_ptrs|)
    requires key_buff1 != key_buff2 && key_array != key_buff1 && key_array != key_buff2
    requires key_buff1.Length == Times(|bucket_ptrs|, w) && key_buff2[..] == Upto(parts, w, |bucket_ptrs|)
    requires key_array.Length == key_buff2.Length && AllInBuckets(parts, w, |bucket_ptrs|)
    requires forall b :: 0 <= b < |bucket_ptrs| ==> BucketRanked(key_buff1[..], parts, w, b)
    modifies key_buff1, key_array
    ensures Ascending(key_array[..]) && multiset(key_array[..]) == multiset(Keys(parts))
    ensures j == 0
  {
    hide Upto; hide Row; hide Times; hide BucketRanked; hide Placed; hide AreEnds; hide AllInBuckets;
    PlaceBuckets(bucket_ptrs, order, key_buff1, key_buff2, key_array, parts, w);
    UptoInRange(parts, w, |bucket_ptrs|);
    PlacedIsSorted(key_array[..], Upto(parts, w, |bucket_ptrs|), Times(|bucket_ptrs|, w));
    ScatterPermutes(parts, w, |bucket_ptrs|);
    j := 0;
    var i := 1;
    while i < key_array.Length
      invariant 1 <= i && j == 0
    {
      if key_array[i - 1] > key_array[i] { j := j + 1; }
      i := i + 1;
    }
  }

  /** Every thread's part of the counting, of the pointers, and of the last adjustment. */
  method AllSizes(parts: seq<seq<nat>>, w: nat, nb: nat) returns (sizes: seq<seq<nat>>)
    requires w > 0 && AllInBuckets(parts, w, nb)
    ensures SizesOk(sizes, parts, w, nb)
  {
    hide Pick; hide Bucket;
    sizes := [];
    var t := 0;
    while t < |parts|
      invariant 0 <= t <= |parts| && |sizes| == t
      invariant forall u :: 0 <= u < t ==> |sizes[u]| == nb && forall b :: 0 <= b < nb ==> sizes[u][b] == |Pick(parts[u], b, w)|
    {
      var size := CountBuckets(parts[t], w, nb);
      sizes := sizes + [size];
      t := t + 1;
    }
  }

  method AllPointers(sizes: seq<seq<nat>>, parts: seq<seq<nat>>, w: nat, nb: nat) returns (ptrs: seq<seq<nat>>)
    requires w > 0 && nb > 0 && SizesOk(sizes, parts, w, nb)
    ensures |ptrs| == |parts| && forall t :: 0 <= t < |parts| ==> |ptrs[t]| == nb && AtStart(ptrs[t], parts, w, nb, t)
  {
    hide SizesOk; hide AtStart;
    SameThreads(sizes, parts, w, nb);
    ptrs := [];
    var t := 0;
    while t < |parts|
      invariant 0 <= t <= |parts| && |ptrs| == t
      invariant forall u :: 0 <= u < t ==> |ptrs[u]| == nb && AtStart(ptrs[u], parts, w, nb, u)
    {
      var p := BucketPointers(sizes, t, nb, parts, w);
      ptrs := ptrs + [p];
      t := t + 1;
    }
  }

  method AllEnds(ends: seq<seq<nat>>, sizes: seq<seq<nat>>, parts: seq<seq<nat>>, w: nat, nb: nat) returns (ptrs: seq<seq<nat>>)
    requires w > 0 && SizesOk(sizes, parts, w, nb) && |ends| == |parts|
    requires forall t :: 0 <= t < |parts| ==> |ends[t]| == nb && AtEnd(ends[t], parts, w, nb, t)
    ensures |ptrs| == |parts| && forall t :: 0 <= t < |parts| ==> |ptrs[t]| == nb && AreEnds(ptrs[t], parts, w)
  {
    hide SizesOk; hide AtEnd; hide AreEnds;
    SameThreads(sizes, parts, w, nb);
    ptrs := [];
    var t := 0;
    while t < |parts|
      invariant 0 <= t <= |parts| && |ptrs| == t
      invariant forall u :: 0 <= u < t ==> |ptrs[u]| == nb && AreEnds(ptrs[u], parts, w)
    {
      var p := FinalPointers(ends[t], sizes, t, nb, parts, w);
      ptrs := ptrs + [p];
      t := t + 1;
    }
  }

  /**
   * rank: counting, pointers, scatter, ranking.  For every division of the keys among threads
   * and every interleaving the buffers come out the same, and every thread ends up with the
   * same bucket pointers.
   */
  method Rank(parts: seq<seq<nat>>, w: nat, nb: nat, schedule: seq<nat>, order: seq<nat>,
              key_buff1: array<nat>, key_buff2: array<nat>) returns (bucket_ptrs: seq<seq<nat>>)
    requires |parts| > 0 && w > 0 && nb > 0 && AllInBuckets(parts, w, nb)
    requires IsSchedule(parts, schedule) && IsOrder(order, nb)
    requires key_buff1 != key_buff2 && key_buff1.Length == Times(nb, w) && key_buff2.Length == |Keys(parts)|
    modifies key_buff1, key_buff2
    ensures key_buff2[..] == Upto(parts, w, nb) && multiset(key_buff2[..]) == multiset(Keys(parts))
    ensures |bucket_ptrs| == |parts| && forall t :: 0 <= t < |parts| ==> |bucket_ptrs[t]| == nb && AreEnds(bucket_ptrs[t], parts, w)
    ensures forall b :: 0 <= b < nb ==> BucketRanked(key_buff1[..], parts, w, b)
    ensures Ranked(key_buff1[..], 0, 0, Times(nb, w), key_buff2[..], 0)
  {
    hide Upto; hide Row; hide Times; hide BucketRanked; hide AllInBuckets; hide AtStart; hide AtEnd; hide AreEnds;
    hide Ranked; hide IsSchedule; hide Pick;
    ScatterPermutes(parts, w, nb);
    assert |Upto(parts, w, nb)| == |multiset(Upto(parts, w, nb))| == |Keys(parts)|;
    var sizes := AllSizes(parts, w, nb);
    var starts := AllPointers(sizes, parts, w, nb);
    var ends := Scatter(parts, w, nb, starts, schedule, key_buff2);
    bucket_ptrs := AllEnds(ends, sizes, parts, w, nb);
    RankBuckets(bucket_ptrs[0], order, key_buff1, key_buff2, parts, w);
    RanksAreCounts(key_buff1[..], parts, w, nb);
  }
}
