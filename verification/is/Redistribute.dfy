/**
 * The distributed sort of the MPI IS benchmark: buckets are assigned to processors in runs, the
 * keys are exchanged, and each processor ranks what it received.
 */
module Redistribute {
  import opened Arith
  import opened Counting
  import opened BucketSort

  // ---------------------------------------------------------------------------
  // Which processor gets which buckets
  // ---------------------------------------------------------------------------

  function SumTo(s: seq<nat>, i: nat): nat
    requires i <= |s|
  {
    if i == 0 then 0 else SumTo(s, i - 1) + s[i - 1]
  }

  /** The last buckets of the processors served by the first i buckets. */
  ghost function Cuts(totals: seq<nat>, n: nat, i: nat): (c: seq<nat>)
    requires i <= |totals|
    ensures forall j :: 0 <= j < |c| ==> c[j] < i
  {
    if i == 0 then []
    else
      var c := Cuts(totals, n, i - 1);
      if SumTo(totals, i) >= Times(|c| + 1, n) then c + [i - 1] else c
  }

  /** Processor j's first bucket, when it has any. */
  function First(c: seq<nat>, j: nat): nat
    requires j <= |c|
  {
    if j == 0 then 0 else c[j - 1] + 1
  }

  /** What the buckets of processor j hold. */
  function Share(totals: seq<nat>, c: seq<nat>, j: nat): int
    requires j < |c| && forall i :: 0 <= i < |c| ==> c[i] < |totals|
  {
    SumTo(totals, c[j] + 1) - SumTo(totals, First(c, j))
  }

  lemma {:induction false} SumMonotone(s: seq<nat>, i: nat, j: nat)
    requires i <= j <= |s|
    ensures SumTo(s, i) <= SumTo(s, j)
    decreases j
  {
    if i < j { SumMonotone(s, i, j - 1); }
  }

  /**
   * Processor j's buckets follow processor j-1's; the running total reaches its quota with its
   * last bucket, and if it has more than one, not before.
   */
  ghost predicate Fair(totals: seq<nat>, c: seq<nat>, n: nat, j: nat)
    requires j < |c|
  {
    && First(c, j) <= c[j] < |totals|
    && SumTo(totals, c[j] + 1) >= Times(j + 1, n)
    && (First(c, j) < c[j] ==> SumTo(totals, c[j]) < Times(j + 1, n))
  }

  /** The cuts among the first i buckets, and the buckets not yet assigned. */
  ghost predicate FairSoFar(totals: seq<nat>, c: seq<nat>, n: nat, i: nat)
    requires i <= |totals|
  {
    && (forall j :: 0 <= j < |c| ==> Fair(totals, c, n, j))
    && First(c, |c|) <= i
    && (First(c, |c|) < i ==> SumTo(totals, i) < Times(|c| + 1, n))
  }

  lemma FairAppend(totals: seq<nat>, c: seq<nat>, n: nat, i: nat)
    requires i < |totals| && FairSoFar(totals, c, n, i) && SumTo(totals, i + 1) >= Times(|c| + 1, n)
    ensures FairSoFar(totals, c + [i], n, i + 1)
  {
    hide SumTo; hide Times;
    var d := c + [i];
    forall j | 0 <= j < |d| ensures Fair(totals, d, n, j) {
      assert First(d, j) == First(c, j);
      if j < |c| { assert Fair(totals, c, n, j); }
    }
  }

  lemma {:induction false} CutsFair(totals: seq<nat>, n: nat, i: nat)
    requires i <= |totals|
    ensures FairSoFar(totals, Cuts(totals, n, i), n, i)
  {
    hide SumTo; hide Times;
    if i > 0 {
      CutsFair(totals, n, i - 1);
      var c := Cuts(totals, n, i - 1);
      if SumTo(totals, i) >= Times(|c| + 1, n) { FairAppend(totals, c, n, i - 1); }
    }
  }

  /** No processor receives more than its quota less one, and its last bucket. */
  lemma ShareBound(totals: seq<nat>, n: nat, j: nat)
    requires n > 0 && j < |Cuts(totals, n, |totals|)|
    ensures var c := Cuts(totals, n, |totals|);
      0 <= Share(totals, c, j) <= n - 1 + totals[c[j]]
  {
    hide Cuts;
    var c := Cuts(totals, n, |totals|);
    CutsFair(totals, n, |totals|);
    assert Fair(totals, c, n, j);
    SumMonotone(totals, First(c, j), c[j] + 1);
    if j > 0 { assert Fair(totals, c, n, j - 1); }
    assert Times(j + 1, n) == Times(j, n) + n;
  }

  /** At most p processors are served, and all buckets behind the last cut are empty. */
  lemma CutsCover(totals: seq<nat>, n: nat, p: nat)
    requires n > 0 && SumTo(totals, |totals|) == Times(p, n)
    ensures var c := Cuts(totals, n, |totals|);
      |c| <= p && SumTo(totals, First(c, |c|)) == SumTo(totals, |totals|)
  {
    var c := Cuts(totals, n, |totals|);
    CutsFair(totals, n, |totals|);
    SumMonotone(totals, First(c, |c|), |totals|);
    if |c| > 0 {
      assert Fair(totals, c, n, |c| - 1);
      QuotaOrder(|c|, p, n);
    }
    if |c| < p { TimesMonotone(|c| + 1, p, n); }
  }

  lemma QuotaOrder(a: nat, b: nat, n: nat)
    requires n > 0 && Times(a, n) <= Times(b, n)
    ensures a <= b
  {
    if b < a { TimesMonotone(b + 1, a, n); }
  }

  /** The redistribution loops of rank, on one processor. */
  method Distribute(bucket_size: seq<nat>, bucket_size_totals: seq<nat>, num_keys: nat, comm_size: nat)
    returns (send_count: seq<nat>, send_displ: seq<nat>, ptr1: seq<nat>, ptr2: seq<nat>)
    requires |bucket_size| == |bucket_size_totals| && num_keys > 0 && comm_size > 0
    requires SumTo(bucket_size_totals, |bucket_size_totals|) == Times(comm_size, num_keys)
    ensures |send_count| == |send_displ| == |ptr1| == |ptr2| == comm_size
    ensures var c := Cuts(bucket_size_totals, num_keys, |bucket_size_totals|);
      && |c| <= comm_size && Assigned(c, |c|, bucket_size, send_count, send_displ, ptr1, ptr2)
      && forall j :: |c| <= j < comm_size ==> send_count[j] == send_displ[j] == 0 && ptr1[j] == 1 && ptr2[j] == 0
  {
    hide Cuts; hide SumTo; hide Assigned; hide Times; hide First;
    CutsCover(bucket_size_totals, num_keys, comm_size);
    var bucket_sum_accumulator, local_bucket_sum_accumulator := 0, 0;
    send_count, send_displ := seq(comm_size, _ => 0), seq(comm_size, _ => 0);
    ptr1, ptr2 := seq(comm_size, _ => 0), seq(comm_size, _ => 0);
    var i, j := 0, 0;
    StartSums(bucket_size, bucket_size_totals, num_keys, send_count, send_displ, ptr1, ptr2);
    while i < |bucket_size_totals|
      invariant 0 <= i <= |bucket_size_totals| && 0 <= j <= comm_size
      invariant |send_count| == |send_displ| == |ptr1| == |ptr2| == comm_size
      invariant j == |Cuts(bucket_size_totals, num_keys, i)|
      invariant bucket_sum_accumulator == SumTo(bucket_size_totals, i) && local_bucket_sum_accumulator >= 0
      invariant First(Cuts(bucket_size_totals, num_keys, i), j) <= i
      invariant local_bucket_sum_accumulator + SumTo(bucket_size, First(Cuts(bucket_size_totals, num_keys, i), j)) == SumTo(bucket_size, i)
      invariant Assigned(Cuts(bucket_size_totals, num_keys, i), j, bucket_size, send_count, send_displ, ptr1, ptr2)
      invariant forall k :: j <= k < comm_size ==> ptr2[k] == send_displ[k] == 0
      invariant j == 0 ==> send_displ[0] == 0 && ptr1[0] == 0
    {
      bucket_sum_accumulator := bucket_sum_accumulator + bucket_size_totals[i];
      local_bucket_sum_accumulator := local_bucket_sum_accumulator + bucket_size[i];
      NextSums(bucket_size, bucket_size_totals, num_keys, i);
      ghost var c := Cuts(bucket_size_totals, num_keys, i);
      TimesIsProduct(j + 1, num_keys);
      if bucket_sum_accumulator >= (j + 1) * num_keys {
        StillRoom(bucket_size_totals, num_keys, comm_size, i, j);
        send_count, send_displ, ptr1, ptr2 :=
          Assign(c, j, i, bucket_size, local_bucket_sum_accumulator, send_count, send_displ, ptr1, ptr2);
        FirstAfter(c, i);
        j := j + 1;
        local_bucket_sum_accumulator := 0;
      }
      i := i + 1;
    }
    ghost var c := Cuts(bucket_size_totals, num_keys, |bucket_size_totals|);
    while j < comm_size
      invariant |c| <= j <= comm_size && |send_count| == |send_displ| == |ptr1| == |ptr2| == comm_size
      invariant Assigned(c, |c|, bucket_size, send_count, send_displ, ptr1, ptr2)
      invariant forall k :: |c| <= k < j ==> send_count[k] == 0 && ptr1[k] == 1
      invariant forall k :: |c| <= k < comm_size ==> ptr2[k] == send_displ[k] == 0
    {
      Beyond(c, bucket_size, send_count, send_displ, ptr1, ptr2, j);
      send_count := send_count[j := 0];
      ptr1 := ptr1[j := 1];
      j := j + 1;
    }
  }

  /** Processor j's send count, displacement and bucket range. */
  ghost predicate AssignedAt(c: seq<nat>, j: nat, bucket_size: seq<nat>, count: nat, displ: nat, p1: nat, p2: nat)
    requires j < |c|
  {
    && c[j] < |bucket_size| && First(c, j) <= c[j] && p1 == First(c, j) && p2 == c[j]
    && displ == SumTo(bucket_size, First(c, j))
    && count == SumTo(bucket_size, c[j] + 1) - SumTo(bucket_size, First(c, j))
  }

  /** The same for the first m processors. */
  ghost predicate Assigned(c: seq<nat>, m: nat, bucket_size: seq<nat>, send_count: seq<nat>, send_displ: seq<nat>, ptr1: seq<nat>, ptr2: seq<nat>)
  {
    && m <= |c| && m <= |send_count| == |send_displ| == |ptr1| == |ptr2|
    && forall j :: 0 <= j < m ==> AssignedAt(c, j, bucket_size, send_count[j], send_displ[j], ptr1[j], ptr2[j])
  }

  /** A further cut leaves the earlier processors' tables as they are. */
  lemma AssignedLonger(c: seq<nat>, i: nat, j: nat, bucket_size: seq<nat>, count: nat, displ: nat, p1: nat, p2: nat)
    requires j < |c| && AssignedAt(c, j, bucket_size, count, displ, p1, p2)
    ensures AssignedAt(c + [i], j, bucket_size, count, displ, p1, p2)
  {
    assert First(c + [i], j) == First(c, j);
  }

  lemma StartSums(bucket_size: seq<nat>, totals: seq<nat>, n: nat, a: seq<nat>, b: seq<nat>, p: seq<nat>, q: seq<nat>)
    requires |a| == |b| == |p| == |q|
    ensures SumTo(totals, 0) == 0 && SumTo(bucket_size, 0) == 0 && Cuts(totals, n, 0) == []
    ensures Assigned(Cuts(totals, n, 0), 0, bucket_size, a, b, p, q) && First([], 0) == 0
  {
  }

  lemma FirstAfter(c: seq<nat>, i: nat)
    ensures First(c + [i], |c| + 1) == i + 1
  {
  }

  lemma NextSums(bucket_size: seq<nat>, totals: seq<nat>, n: nat, i: nat)
    requires i < |totals| == |bucket_size|
    ensures SumTo(totals, i + 1) == SumTo(totals, i) + totals[i] && SumTo(bucket_size, i + 1) == SumTo(bucket_size, i) + bucket_size[i]
    ensures Cuts(totals, n, i + 1) ==
      if SumTo(totals, i + 1) >= Times(|Cuts(totals, n, i)| + 1, n) then Cuts(totals, n, i) + [i] else Cuts(totals, n, i)
  {
  }

  lemma StillRoom(totals: seq<nat>, n: nat, p: nat, i: nat, j: nat)
    requires i < |totals| && n > 0 && SumTo(totals, |totals|) == Times(p, n) && SumTo(totals, i + 1) >= Times(j + 1, n)
    ensures j < p
  {
    SumMonotone(totals, i + 1, |totals|);
    QuotaOrder(j + 1, p, n);
  }

  /** The branch that completes processor j with bucket i. */
  method Assign(ghost c: seq<nat>, j: nat, i: nat, ghost bucket_size: seq<nat>, sum: nat,
                count0: seq<nat>, displ0: seq<nat>, p0: seq<nat>, q0: seq<nat>)
    returns (send_count: seq<nat>, send_displ: seq<nat>, ptr1: seq<nat>, ptr2: seq<nat>)
    requires j == |c| < |count0| && i < |bucket_size| && First(c, j) <= i
    requires Assigned(c, j, bucket_size, count0, displ0, p0, q0)
    requires sum == SumTo(bucket_size, i + 1) - SumTo(bucket_size, First(c, j))
    requires j == 0 ==> displ0[0] == 0 && p0[0] == 0
    ensures Assigned(c + [i], j + 1, bucket_size, send_count, send_displ, ptr1, ptr2)
    ensures |send_count| == |send_displ| == |ptr1| == |ptr2| == |count0|
    ensures forall k :: j < k < |count0| ==> ptr2[k] == q0[k] && send_displ[k] == displ0[k]
  {
    hide SumTo; hide AssignedAt;
    NoSum(bucket_size);
    send_count, send_displ, ptr1, ptr2 := count0, displ0, p0, q0;
    send_count := send_count[j := sum];
    if j != 0 {
      AssignedFacts(c, j - 1, bucket_size, count0[j - 1], displ0[j - 1], p0[j - 1], q0[j - 1]);
      send_displ := send_displ[j := send_displ[j - 1] + send_count[j - 1]];
      ptr1 := ptr1[j := ptr2[j - 1] + 1];
    }
    ptr2 := ptr2[j := i];
    NewlyAssigned(c, i, bucket_size, send_count[j], send_displ[j], ptr1[j]);
    forall k | 0 <= k < j ensures AssignedAt(c + [i], k, bucket_size, send_count[k], send_displ[k], ptr1[k], ptr2[k]) {
      assert AssignedAt(c, k, bucket_size, count0[k], displ0[k], p0[k], q0[k]);
      AssignedLonger(c, i, k, bucket_size, count0[k], displ0[k], p0[k], q0[k]);
    }
  }

  lemma AssignedFacts(c: seq<nat>, j: nat, bucket_size: seq<nat>, count: nat, displ: nat, p1: nat, p2: nat)
    requires j < |c| && AssignedAt(c, j, bucket_size, count, displ, p1, p2)
    ensures c[j] < |bucket_size| && displ + count == SumTo(bucket_size, c[j] + 1) && p2 == c[j]
  {
  }

  lemma NewlyAssigned(c: seq<nat>, i: nat, bucket_size: seq<nat>, count: nat, displ: nat, p1: nat)
    requires i < |bucket_size| && First(c, |c|) <= i && p1 == First(c, |c|) && displ == SumTo(bucket_size, First(c, |c|))
    requires count == SumTo(bucket_size, i + 1) - SumTo(bucket_size, First(c, |c|))
    ensures AssignedAt(c + [i], |c|, bucket_size, count, displ, p1, i)
  {
    assert First(c + [i], |c|) == First(c, |c|);
  }

  lemma NoSum(s: seq<nat>)
    ensures SumTo(s, 0) == 0
  {
  }

  lemma Beyond(c: seq<nat>, bucket_size: seq<nat>, a: seq<nat>, b: seq<nat>, p: seq<nat>, q: seq<nat>, j: nat)
    requires |c| <= j < |a| && Assigned(c, |c|, bucket_size, a, b, p, q)
    ensures Assigned(c, |c|, bucket_size, a[j := 0], b, p[j := 1], q)
  {
  }

  // ---------------------------------------------------------------------------
  // The bucket sort on one processor
  // ---------------------------------------------------------------------------

  lemma OneRow(part: seq<nat>, b: nat, w: nat)
    requires w > 0
    ensures Row([part], b, w, 1) == Pick(part, b, w)
    ensures Upto([part], w, b + 1) == Upto([part], w, b) + Pick(part, b, w)
    ensures StartOf([part], w, b, 0) == |Upto([part], w, b)|
  {
    assert Row([part], b, w, 1) == Row([part], b, w, 0) + Pick([part][0], b, w);
  }

  lemma {:induction false} SizesSum(size: seq<nat>, part: seq<nat>, w: nat, b: nat)
    requires w > 0 && b <= |size| && forall i :: 0 <= i < |size| ==> size[i] == |Pick(part, i, w)|
    ensures SumTo(size, b) == |Upto([part], w, b)|
  {
    if b > 0 {
      SizesSum(size, part, w, b - 1);
      OneRow(part, b - 1, w);
    }
  }

  lemma {:induction false} AllZeros(s: seq<nat>, t: nat)
    requires forall i :: 0 <= i < |s| ==> s[i] == 0
    ensures Count(s, t) == if t == 0 then |s| else 0
  {
    if s != [] { AllZeros(s[..|s| - 1], t); }
  }

  /** The counting, pointer and scatter loops on a processor's own keys. */
  method LocalSort(key_array: seq<nat>, w: nat, nb: nat) returns (bucket_size: seq<nat>, key_buff1: seq<nat>)
    requires w > 0 && nb > 0 && forall i :: 0 <= i < |key_array| ==> Bucket(key_array[i], w) < nb
    ensures |bucket_size| == nb && forall b :: 0 <= b < nb ==> bucket_size[b] == |Pick(key_array, b, w)|
    ensures key_buff1 == Upto([key_array], w, nb) && |key_buff1| == |key_array|
  {
    hide Pick; hide Upto; hide Row; hide Bucket; hide StartOf; hide Count;
    bucket_size := CountBuckets(key_array, w, nb);
    var bucket_ptrs := seq(nb, _ => 0);
    var i := 1;
    OneRow(key_array, 0, w);
    EmptyRow([key_array], w, 0);
    while i < nb
      invariant 1 <= i <= nb && |bucket_ptrs| == nb
      invariant forall b :: 0 <= b < i ==> bucket_ptrs[b] == StartOf([key_array], w, b, 0)
    {
      OneRow(key_array, i - 1, w);
      OneRow(key_array, i, w);
      bucket_ptrs := bucket_ptrs[i := bucket_ptrs[i - 1] + bucket_size[i - 1]];
      i := i + 1;
    }
    OneKeys(key_array);
    ScatterPermutes([key_array], w, nb);
    assert |Upto([key_array], w, nb)| == |multiset(Upto([key_array], w, nb))| == |key_array|;
    var buff := new nat[|key_array|](_ => 0);
    var turns := seq(|key_array|, _ => 0);
    AllZeros(turns, 0);
    var ends := Scatter([key_array], w, nb, [bucket_ptrs], turns, buff);
    key_buff1 := buff[..];
  }

  lemma OneKeys(part: seq<nat>)
    ensures Keys([part]) == part
  {
    assert [part][..0] == [];
    assert Keys([part]) == Keys([]) + part;
  }

  // ---------------------------------------------------------------------------
  // The exchange
  // ---------------------------------------------------------------------------

  /** A processor's keys in buckets lo..hi-1. */
  ghost function Segment(part: seq<nat>, w: nat, lo: nat, hi: nat): seq<nat>
    requires w > 0 && lo <= hi
  {
    UptoPrefix([part], w, lo, hi);
    Upto([part], w, hi)[|Upto([part], w, lo)|..]
  }

  /** The first q processors' keys in buckets lo..hi-1. */
  ghost function Received(parts: seq<seq<nat>>, w: nat, lo: nat, hi: nat, q: nat): seq<nat>
    requires w > 0 && lo <= hi && q <= |parts|
  {
    if q == 0 then [] else Received(parts, w, lo, hi, q - 1) + Segment(parts[q - 1], w, lo, hi)
  }

  lemma SegmentCount(part: seq<nat>, w: nat, lo: nat, hi: nat, k: nat)
    requires w > 0 && lo <= hi
    ensures Count(Segment(part, w, lo, hi), k) == if lo <= Bucket(k, w) < hi then Count(part, k) else 0
  {
    hide Upto; hide Bucket;
    UptoPrefix([part], w, lo, hi);
    var all, low := Upto([part], w, hi), Upto([part], w, lo);
    assert all == low + all[|low|..];
    CountAppend(low, all[|low|..], k);
    UptoCount([part], w, hi, k);
    UptoCount([part], w, lo, k);
    OneKeys(part);
  }

  lemma {:induction false} ReceivedCount(parts: seq<seq<nat>>, w: nat, lo: nat, hi: nat, q: nat, k: nat)
    requires w > 0 && lo <= hi && q <= |parts|
    ensures Count(Received(parts, w, lo, hi, q), k) == if lo <= Bucket(k, w) < hi then Count(Keys(parts[..q]), k) else 0
  {
    hide Segment; hide Bucket;
    if q > 0 {
      ReceivedCount(parts, w, lo, hi, q - 1, k);
      SegmentCount(parts[q - 1], w, lo, hi, k);
      CountAppend(Received(parts, w, lo, hi, q - 1), Segment(parts[q - 1], w, lo, hi), k);
      assert parts[..q][..q - 1] == parts[..q - 1];
      CountAppend(Keys(parts[..q - 1]), parts[q - 1], k);
    }
  }

  lemma ReceivedInRange(parts: seq<seq<nat>>, w: nat, lo: nat, hi: nat, q: nat)
    requires w > 0 && lo <= hi && q <= |parts|
    ensures InRange(Received(parts, w, lo, hi, q), Times(lo, w), Times(hi, w))
  {
    hide Received; hide Bucket;
    var s := Received(parts, w, lo, hi, q);
    forall i | 0 <= i < |s| ensures Times(lo, w) <= s[i] < Times(hi, w) {
      Occurs(s, s[i]);
      ReceivedCount(parts, w, lo, hi, q, s[i]);
      BucketRange(s[i], w);
      TimesMonotone(lo, Bucket(s[i], w), w);
      TimesMonotone(Bucket(s[i], w) + 1, hi, w);
    }
  }

  /** Buckets of all processors together. */
  ghost function LengthTo(parts: seq<seq<nat>>, w: nat, b: nat, q: nat): nat
    requires w > 0 && q <= |parts|
  {
    if q == 0 then 0 else LengthTo(parts, w, b, q - 1) + |Upto([parts[q - 1]], w, b)|
  }

  lemma {:induction false} LengthStep(parts: seq<seq<nat>>, w: nat, b: nat, q: nat)
    requires w > 0 && q <= |parts|
    ensures LengthTo(parts, w, b + 1, q) == LengthTo(parts, w, b, q) + |Row(parts, b, w, q)|
  {
    hide Upto; hide Pick; hide Row;
    if q > 0 {
      LengthStep(parts, w, b, q - 1);
      OneRow(parts[q - 1], b, w);
      Unfold(parts, w, b, q - 1);
    } else {
      EmptyRow(parts, w, b);
    }
  }

  lemma {:induction false} LengthZero(parts: seq<seq<nat>>, w: nat, q: nat)
    requires w > 0 && q <= |parts|
    ensures LengthTo(parts, w, 0, q) == 0
  {
    if q > 0 { LengthZero(parts, w, q - 1); }
  }

  lemma {:induction false} LengthIs(parts: seq<seq<nat>>, w: nat, b: nat)
    requires w > 0
    ensures LengthTo(parts, w, b, |parts|) == |Upto(parts, w, b)|
  {
    hide Upto; hide Row; hide LengthTo;
    if b == 0 {
      LengthZero(parts, w, |parts|);
      EmptyRow(parts, w, 0);
    } else {
      LengthIs(parts, w, b - 1);
      LengthStep(parts, w, b - 1, |parts|);
      UptoNext(parts, w, b - 1);
    }
  }

  lemma {:induction false} ReceivedLength(parts: seq<seq<nat>>, w: nat, lo: nat, hi: nat, q: nat)
    requires w > 0 && lo <= hi && q <= |parts|
    ensures |Received(parts, w, lo, hi, q)| == LengthTo(parts, w, hi, q) - LengthTo(parts, w, lo, q)
  {
    hide Upto;
    if q > 0 {
      ReceivedLength(parts, w, lo, hi, q - 1);
      UptoPrefix([parts[q - 1]], w, lo, hi);
    }
  }

  /** A processor's send counts and displacements describe its keys in buckets lo..hi-1. */
  ghost predicate Sends(buf: seq<nat>, count: nat, displ: nat, part: seq<nat>, w: nat, lo: nat, hi: nat)
    requires w > 0 && lo <= hi
  {
    displ + count <= |buf| && buf[displ..displ + count] == Segment(part, w, lo, hi)
  }

  /** MPI_Alltoallv as processor r sees it: the others' segments for it, in rank order. */
  method Gather(bufs: seq<seq<nat>>, counts: seq<seq<nat>>, displs: seq<seq<nat>>, r: nat,
                ghost parts: seq<seq<nat>>, w: nat, ghost lo: nat, ghost hi: nat) returns (key_buff2: seq<nat>)
    requires w > 0 && lo <= hi && |bufs| == |counts| == |displs| == |parts|
    requires forall q :: 0 <= q < |parts| ==> r < |counts[q]| && r < |displs[q]| && Sends(bufs[q], counts[q][r], displs[q][r], parts[q], w, lo, hi)
    ensures key_buff2 == Received(parts, w, lo, hi, |parts|)
  {
    hide Segment;
    key_buff2 := [];
    var q := 0;
    while q < |bufs|
      invariant 0 <= q <= |bufs| && key_buff2 == Received(parts, w, lo, hi, q)
    {
      assert Sends(bufs[q], counts[q][r], displs[q][r], parts[q], w, lo, hi);
      key_buff2 := key_buff2 + bufs[q][displs[q][r]..displs[q][r] + counts[q][r]];
      q := q + 1;
    }
  }

  // ---------------------------------------------------------------------------
  // Ranking and placing on one processor
  // ---------------------------------------------------------------------------

  /**
   * The ranking loops of rank and the placing loop of full_verify on a processor that holds
   * the buckets lo..hi-1.  Ranks start from 0 on every processor.
   */
  method RankAndPlace(key_buff2: seq<nat>, lo: nat, hi: nat, w: nat) returns (key_array: seq<nat>)
    requires w > 0 && lo <= hi && InRange(key_buff2, Times(lo, w), Times(hi, w))
    ensures Ascending(key_array) && multiset(key_array) == multiset(key_buff2)
  {
    hide Times; hide Placed; hide Ranked;
    TimesMonotone(lo, hi, w);
    TimesIsProduct(lo, w);
    TimesIsProduct(hi, w);
    var min_key_val, end := lo * w, hi * w;
    var key_buff1 := new nat[end - min_key_val](_ => 0);
    RankRange(key_buff1, min_key_val, min_key_val, end, key_buff2, 0);
    var out := new nat[|key_buff2|](_ => 0);
    PlaceRange(key_buff1, min_key_val, min_key_val, end, key_buff2, 0, out);
    key_array := out[..];
    assert out[0..0 + |key_buff2|] == out[..];
    InRangeFromZero(key_buff2, min_key_val, end);
    PlacedIsSorted(key_array, key_buff2, end);
  }

  lemma InRangeFromZero(s: seq<nat>, lo: nat, hi: nat)
    requires InRange(s, lo, hi)
    ensures InRange(s, 0, hi)
  {
  }

  // ---------------------------------------------------------------------------
  // All processors
  // ---------------------------------------------------------------------------

  /** MPI_Allreduce of the bucket sizes. */
  method SumSizes(sizes: seq<seq<nat>>, nb: nat, ghost parts: seq<seq<nat>>, w: nat) returns (totals: seq<nat>)
    requires w > 0 && SizesOk(sizes, parts, w, nb)
    ensures |totals| == nb && forall b :: 0 <= b < nb ==> totals[b] == |Row(parts, b, w, |parts|)|
  {
    hide SizesOk; hide Row;
    SameThreads(sizes, parts, w, nb);
    totals := seq(nb, _ => 0);
    var b := 0;
    while b < nb
      invariant 0 <= b <= nb && |totals| == nb
      invariant forall c :: 0 <= c < b ==> totals[c] == |Row(parts, c, w, |parts|)|
    {
      EmptyRow(parts, w, b);
      var sum := AddSizes(sizes, b, 0, |sizes|, 0, parts, w, nb);
      totals := totals[b := sum];
      b := b + 1;
    }
  }

  lemma {:induction false} TotalsSum(totals: seq<nat>, parts: seq<seq<nat>>, w: nat, b: nat)
    requires w > 0 && b <= |totals| && forall i :: 0 <= i < |totals| ==> totals[i] == |Row(parts, i, w, |parts|)|
    ensures SumTo(totals, b) == |Upto(parts, w, b)|
  {
    if b > 0 { TotalsSum(totals, parts, w, b - 1); }
  }

  lemma {:induction false} KeysLength(parts: seq<seq<nat>>, n: nat)
    requires forall q :: 0 <= q < |parts| ==> |parts[q]| == n
    ensures |Keys(parts)| == Times(|parts|, n)
  {
    if parts != [] { KeysLength(parts[..|parts| - 1], n); }
  }

  /** Every processor's own bucket sort. */
  method SortAll(parts: seq<seq<nat>>, w: nat, nb: nat) returns (sizes: seq<seq<nat>>, bufs: seq<seq<nat>>)
    requires w > 0 && nb > 0 && AllInBuckets(parts, w, nb)
    ensures SizesOk(sizes, parts, w, nb) && |bufs| == |parts|
    ensures forall q :: 0 <= q < |parts| ==> bufs[q] == Upto([parts[q]], w, nb)
  {
    hide Pick; hide Upto; hide Bucket;
    sizes, bufs := [], [];
    var q := 0;
    while q < |parts|
      invariant 0 <= q <= |parts| && |sizes| == |bufs| == q
      invariant forall u :: 0 <= u < q ==> |sizes[u]| == nb && forall b :: 0 <= b < nb ==> sizes[u][b] == |Pick(parts[u], b, w)|
      invariant forall u :: 0 <= u < q ==> bufs[u] == Upto([parts[u]], w, nb)
    {
      var size, buf := LocalSort(parts[q], w, nb);
      sizes, bufs := sizes + [size], bufs + [buf];
      q := q + 1;
    }
  }

  /** Processor r's buckets: the ones assigned to it, or none (1..0 in the source's terms). */
  ghost function Low(c: seq<nat>, r: nat): nat {
    if r < |c| then First(c, r) else 1
  }

  ghost function High(c: seq<nat>, r: nat): nat {
    if r < |c| then c[r] + 1 else 1
  }

  /** A processor's send tables fit its own keys, for all p receivers. */
  ghost predicate TablesFit(buf: seq<nat>, count: seq<nat>, displ: seq<nat>, part: seq<nat>, w: nat, c: seq<nat>, p: nat)
    requires w > 0
  {
    && |count| == |displ| == p
    && forall r :: 0 <= r < p ==>
        Low(c, r) <= High(c, r) && Sends(buf, count[r], displ[r], part, w, Low(c, r), High(c, r))
  }

  lemma SegmentSlice(part: seq<nat>, w: nat, lo: nat, hi: nat, nb: nat)
    requires w > 0 && lo <= hi <= nb
    ensures |Upto([part], w, lo)| <= |Upto([part], w, hi)| <= |Upto([part], w, nb)|
    ensures Upto([part], w, nb)[|Upto([part], w, lo)|..|Upto([part], w, hi)|] == Segment(part, w, lo, hi)
  {
    hide Upto;
    UptoPrefix([part], w, lo, hi);
    UptoPrefix([part], w, hi, nb);
    var all, high := Upto([part], w, nb), Upto([part], w, hi);
    assert all[..|high|] == high;
  }

  /** One processor's tables, from Distribute's result. */
  lemma TableOk(size: seq<nat>, part: seq<nat>, w: nat, c: seq<nat>, count: seq<nat>, displ: seq<nat>, p1: seq<nat>, p2: seq<nat>, r: nat)
    requires w > 0 && forall i :: 0 <= i < |size| ==> size[i] == |Pick(part, i, w)|
    requires |c| <= |count| == |displ| && Assigned(c, |c|, size, count, displ, p1, p2) && r < |count|
    requires forall j :: |c| <= j < |count| ==> count[j] == displ[j] == 0 && p1[j] == 1 && p2[j] == 0
    ensures p1[r] == Low(c, r) && p2[r] + 1 == High(c, r)
    ensures Low(c, r) <= High(c, r)
    ensures Sends(Upto([part], w, |size|), count[r], displ[r], part, w, Low(c, r), High(c, r))
  {
    hide Upto; hide Pick; hide Segment; hide SumTo;
    if r < |c| {
      assert AssignedAt(c, r, size, count[r], displ[r], p1[r], p2[r]);
      SizesSum(size, part, w, c[r] + 1);
      SizesSum(size, part, w, First(c, r));
      SegmentSlice(part, w, First(c, r), c[r] + 1, |size|);
    } else {
      SegmentNone(part, w);
    }
  }

  lemma SegmentNone(part: seq<nat>, w: nat)
    requires w > 0
    ensures Segment(part, w, 1, 1) == []
  {
  }

  /** Every processor's send tables. */
  method DistributeAll(sizes: seq<seq<nat>>, totals: seq<nat>, bufs: seq<seq<nat>>, num_keys: nat, parts: seq<seq<nat>>, w: nat)
    returns (counts: seq<seq<nat>>, displs: seq<seq<nat>>, ptr1: seq<nat>, ptr2: seq<nat>)
    requires w > 0 && num_keys > 0 && |parts| > 0 && SizesOk(sizes, parts, w, |totals|) && |bufs| == |parts|
    requires SumTo(totals, |totals|) == Times(|parts|, num_keys)
    requires forall q :: 0 <= q < |parts| ==> bufs[q] == Upto([parts[q]], w, |totals|)
    ensures var c := Cuts(totals, num_keys, |totals|);
      && |counts| == |displs| == |ptr1| == |ptr2| == |parts|
      && (forall q :: 0 <= q < |parts| ==> TablesFit(bufs[q], counts[q], displs[q], parts[q], w, c, |parts|))
      && forall r :: 0 <= r < |parts| ==> ptr1[r] == Low(c, r) && ptr2[r] + 1 == High(c, r)
  {
    hide Upto; hide Cuts; hide SumTo; hide Times; hide Sends; hide Pick; hide Assigned; hide First;
    counts, displs, ptr1, ptr2 := [], [], [], [];
    ghost var c := Cuts(totals, num_keys, |totals|);
    var q := 0;
    while q < |parts|
      invariant 0 <= q <= |parts| && |counts| == |displs| == q
      invariant forall u :: 0 <= u < q ==> TablesFit(bufs[u], counts[u], displs[u], parts[u], w, c, |parts|)
      invariant q > 0 ==> |ptr1| == |ptr2| == |parts|
      invariant q > 0 ==> forall r :: 0 <= r < |parts| ==> ptr1[r] == Low(c, r) && ptr2[r] + 1 == High(c, r)
    {
      var count, displ;
      count, displ, ptr1, ptr2 := Distribute(sizes[q], totals, num_keys, |parts|);
      forall r | 0 <= r < |parts|
        ensures ptr1[r] == Low(c, r) && ptr2[r] + 1 == High(c, r) && Low(c, r) <= High(c, r)
        ensures Sends(bufs[q], count[r], displ[r], parts[q], w, Low(c, r), High(c, r))
      {
        TableOk(sizes[q], parts[q], w, c, count, displ, ptr1, ptr2, r);
      }
      assert TablesFit(bufs[q], count, displ, parts[q], w, c, |parts|);
      counts, displs := counts + [count], displs + [displ];
      q := q + 1;
    }
  }

  /** Processor j holds a sorted arrangement of the keys it received. */
  ghost predicate Held(keys: seq<nat>, parts: seq<seq<nat>>, w: nat, c: seq<nat>, j: nat)
    requires w > 0
  {
    && Low(c, j) <= High(c, j) && Ascending(keys)
    && multiset(keys) == multiset(Received(parts, w, Low(c, j), High(c, j), |parts|))
  }

  /** The first bucket behind the first r processors. */
  ghost function Behind(c: seq<nat>, r: nat): nat {
    First(c, if r <= |c| then r else |c|)
  }

  lemma KeysNext(held: seq<seq<nat>>, r: nat)
    requires r < |held|
    ensures Keys(held[..r + 1]) == Keys(held[..r]) + held[r]
  {
    assert held[..r + 1][..r] == held[..r];
  }

  /** What the first r processors hold after the exchange, in rank order. */
  lemma {:induction false} HeldCount(held: seq<seq<nat>>, parts: seq<seq<nat>>, w: nat, c: seq<nat>, r: nat, k: nat)
    requires w > 0 && r <= |held| && (forall j :: 0 <= j < |c| ==> First(c, j) <= c[j])
    requires forall j :: 0 <= j < |held| ==> Held(held[j], parts, w, c, j)
    ensures Count(Keys(held[..r]), k) == if Bucket(k, w) < Behind(c, r) then Count(Keys(parts), k) else 0
  {
    hide Received; hide Bucket; hide Keys; hide Count; hide Ascending; hide Held; hide First; hide Low; hide High;
    BehindNone(c);
    if r == 0 {
      NoKeys(held, k);
    } else {
      HeldCount(held, parts, w, c, r - 1, k);
      KeysNext(held, r - 1);
      CountAppend(Keys(held[..r - 1]), held[r - 1], k);
      HeldHere(held[r - 1], parts, w, c, r - 1, k);
      BehindNext(c, r - 1);
    }
  }

  /** A processor holds the keys of its range as often as they occur. */
  lemma HeldHere(keys: seq<nat>, parts: seq<seq<nat>>, w: nat, c: seq<nat>, j: nat, k: nat)
    requires w > 0 && Held(keys, parts, w, c, j)
    ensures Count(keys, k) == if Low(c, j) <= Bucket(k, w) < High(c, j) then Count(Keys(parts), k) else 0
  {
    hide Received; hide Bucket; hide Keys; hide Count; hide Ascending; hide Low; hide High;
    CountIsMultiplicity(keys, k);
    CountIsMultiplicity(Received(parts, w, Low(c, j), High(c, j), |parts|), k);
    ReceivedCount(parts, w, Low(c, j), High(c, j), |parts|, k);
    assert parts[..|parts|] == parts;
  }

  lemma BehindNext(c: seq<nat>, r: nat)
    requires forall j :: 0 <= j < |c| ==> First(c, j) <= c[j]
    ensures if r < |c| then Low(c, r) == Behind(c, r) <= High(c, r) == Behind(c, r + 1)
            else Low(c, r) == High(c, r) && Behind(c, r) == Behind(c, r + 1)
  {
  }

  lemma BehindNone(c: seq<nat>)
    ensures Behind(c, 0) == 0
  {
  }

  lemma NoKeys(held: seq<seq<nat>>, k: nat)
    ensures Keys(held[..0]) == [] && Count([], k) == 0
  {
  }

  lemma AscendAppend(s: seq<nat>, t: seq<nat>, mid: nat, hi: nat)
    requires Ascending(s) && Ascending(t) && InRange(s, 0, mid) && InRange(t, mid, hi) && mid <= hi
    ensures Ascending(s + t) && InRange(s + t, 0, hi)
  {
  }

  /** Sorted stretches of ascending bucket runs form one sorted sequence. */
  lemma {:induction false} HeldAscends(held: seq<seq<nat>>, parts: seq<seq<nat>>, w: nat, c: seq<nat>, r: nat)
    requires w > 0 && r <= |held| && (forall j :: 0 <= j < |c| ==> First(c, j) <= c[j])
    requires forall j :: 0 <= j < |held| ==> Held(held[j], parts, w, c, j)
    ensures Ascending(Keys(held[..r])) && InRange(Keys(held[..r]), 0, Times(Behind(c, r), w))
  {
    hide Times; hide Received; hide Keys; hide Ascending; hide InRange;
    if r == 0 {
      NoKeys(held, 0);
      NothingHeld(Times(0, w));
    } else {
      HeldAscends(held, parts, w, c, r - 1);
      KeysNext(held, r - 1);
      assert Held(held[r - 1], parts, w, c, r - 1);
      ReceivedInRange(parts, w, Low(c, r - 1), High(c, r - 1), |parts|);
      SameRange(Received(parts, w, Low(c, r - 1), High(c, r - 1), |parts|), held[r - 1],
                Times(Low(c, r - 1), w), Times(High(c, r - 1), w));
      if r <= |c| {
        TimesMonotone(First(c, r - 1), First(c, r), w);
        AscendAppend(Keys(held[..r - 1]), held[r - 1], Times(First(c, r - 1), w), Times(First(c, r), w));
      } else {
        EmptyRange(held[r - 1], Times(1, w), Times(1, w));
        assert Keys(held[..r - 1]) + [] == Keys(held[..r - 1]);
      }
    }
  }

  lemma NothingHeld(hi: nat)
    ensures Ascending([]) && InRange([], 0, hi)
  {
  }

  lemma EmptyRange(s: seq<nat>, lo: nat, hi: nat)
    requires InRange(s, lo, hi)
    ensures s == [] || lo < hi
  {
    if s != [] { assert lo <= s[0] < hi; }
  }

  lemma SameRange(s: seq<nat>, t: seq<nat>, lo: nat, hi: nat)
    requires multiset(s) == multiset(t) && InRange(s, lo, hi)
    ensures InRange(t, lo, hi)
  {
    forall i | 0 <= i < |t| ensures lo <= t[i] < hi {
      assert t[i] in multiset(s);
    }
  }

  /** Nothing is left over: buckets behind the last cut hold no keys. */
  lemma NothingBehind(totals: seq<nat>, parts: seq<seq<nat>>, w: nat, n: nat, k: nat)
    requires w > 0 && n > 0 && AllInBuckets(parts, w, |totals|) && SumTo(totals, |totals|) == Times(|parts|, n)
    requires forall i :: 0 <= i < |totals| ==> totals[i] == |Row(parts, i, w, |parts|)|
    ensures var c := Cuts(totals, n, |totals|);
      First(c, |c|) <= |totals| && (Bucket(k, w) >= First(c, |c|) ==> Count(Keys(parts), k) == 0)
  {
    hide Cuts; hide Bucket; hide Upto; hide Row; hide SumTo; hide Times; hide Keys; hide AllInBuckets;
    var c := Cuts(totals, n, |totals|);
    CutsCover(totals, n, |parts|);
    CutsFair(totals, n, |totals|);
    TotalsSum(totals, parts, w, First(c, |c|));
    TotalsSum(totals, parts, w, |totals|);
    UptoPrefix(parts, w, First(c, |c|), |totals|);
    assert Upto(parts, w, First(c, |c|)) == Upto(parts, w, |totals|);
    UptoCount(parts, w, First(c, |c|), k);
    UptoCount(parts, w, |totals|, k);
    Occurs(Keys(parts), k);
    if k in Keys(parts) { KeyMember(parts, w, |totals|, k); }
  }

  /** Read in rank order, what the processors hold is all keys, sorted. */
  lemma AllHeld(held: seq<seq<nat>>, totals: seq<nat>, parts: seq<seq<nat>>, w: nat, n: nat)
    requires w > 0 && n > 0 && |held| == |parts| && AllInBuckets(parts, w, |totals|)
    requires SumTo(totals, |totals|) == Times(|parts|, n)
    requires forall i :: 0 <= i < |totals| ==> totals[i] == |Row(parts, i, w, |parts|)|
    requires forall j :: 0 <= j < |held| ==> Held(held[j], parts, w, Cuts(totals, n, |totals|), j)
    ensures Ascending(Keys(held)) && multiset(Keys(held)) == multiset(Keys(parts))
  {
    hide Cuts; hide Bucket; hide Row; hide SumTo; hide Times; hide Keys; hide AllInBuckets; hide Held; hide Ascending;
    var c := Cuts(totals, n, |totals|);
    CutsCover(totals, n, |parts|);
    CutsFair(totals, n, |totals|);
    forall j | 0 <= j < |c| ensures First(c, j) <= c[j] {
      assert Fair(totals, c, n, j);
    }
    assert held[..|held|] == held;
    HeldAscends(held, parts, w, c, |held|);
    forall k: nat ensures Count(Keys(held), k) == Count(Keys(parts), k) {
      HeldCount(held, parts, w, c, |held|, k);
      NothingBehind(totals, parts, w, n, k);
    }
    SameCounts(Keys(held), Keys(parts));
  }

  /**
   * The whole distributed sort: for any keys, num_keys of them on every processor, the sorted
   * pieces read in rank order are a sorted arrangement of all keys, and no processor holds
   * more than num_keys - 1 keys and its last bucket.
   */
  method SortEverywhere(parts: seq<seq<nat>>, w: nat, nb: nat, num_keys: nat) returns (held: seq<seq<nat>>, totals: seq<nat>)
    requires w > 0 && nb > 0 && num_keys > 0 && |parts| > 0 && AllInBuckets(parts, w, nb)
    requires forall q :: 0 <= q < |parts| ==> |parts[q]| == num_keys
    ensures |held| == |parts| && Ascending(Keys(held)) && multiset(Keys(held)) == multiset(Keys(parts))
    ensures |totals| == nb && forall b :: 0 <= b < nb ==> totals[b] == |Row(parts, b, w, |parts|)|
    ensures var c := Cuts(totals, num_keys, nb);
      forall r :: 0 <= r < |held| ==> |held[r]| <= if r < |c| then num_keys - 1 + totals[c[r]] else 0
  {
    hide Upto; hide Cuts; hide SumTo; hide Times; hide Pick; hide First; hide SizesOk; hide Received; hide AllInBuckets;
    hide Ascending; hide Row; hide Keys; hide Low; hide High; hide Sends;
    var sizes, bufs := SortAll(parts, w, nb);
    totals := SumSizes(sizes, nb, parts, w);
    TotalsSum(totals, parts, w, nb);
    KeysLength(parts, num_keys);
    ScatterPermutes(parts, w, nb);
    assert |Upto(parts, w, nb)| == |multiset(Upto(parts, w, nb))| == |Keys(parts)|;
    var counts, displs, ptr1, ptr2 := DistributeAll(sizes, totals, bufs, num_keys, parts, w);
    ghost var c := Cuts(totals, num_keys, nb);
    held := [];
    var r := 0;
    while r < |parts|
      invariant 0 <= r <= |parts| && |held| == r
      invariant forall j :: 0 <= j < r ==> Held(held[j], parts, w, c, j)
    {
      forall q | 0 <= q < |parts| ensures r < |counts[q]| && r < |displs[q]| && Low(c, r) <= High(c, r) && Sends(bufs[q], counts[q][r], displs[q][r], parts[q], w, Low(c, r), High(c, r)) {
        assert TablesFit(bufs[q], counts[q], displs[q], parts[q], w, c, |parts|);
      }
      assert TablesFit(bufs[0], counts[0], displs[0], parts[0], w, c, |parts|);
      var key_buff2 := Gather(bufs, counts, displs, r, parts, w, Low(c, r), High(c, r));
      ReceivedInRange(parts, w, Low(c, r), High(c, r), |parts|);
      var key_array := RankAndPlace(key_buff2, ptr1[r], ptr2[r] + 1, w);
      held := held + [key_array];
      r := r + 1;
    }
    AllHeld(held, totals, parts, w, num_keys);
    forall r | 0 <= r < |held| ensures |held[r]| <= if r < |c| then num_keys - 1 + totals[c[r]] else 0 {
      HeldBound(held[r], totals, parts, w, num_keys, r);
    }
  }

  lemma HeldBound(keys: seq<nat>, totals: seq<nat>, parts: seq<seq<nat>>, w: nat, n: nat, r: nat)
    requires w > 0 && n > 0 && Held(keys, parts, w, Cuts(totals, n, |totals|), r)
    requires forall i :: 0 <= i < |totals| ==> totals[i] == |Row(parts, i, w, |parts|)|
    ensures var c := Cuts(totals, n, |totals|); |keys| <= if r < |c| then n - 1 + totals[c[r]] else 0
  {
    hide Cuts; hide Upto; hide SumTo; hide Row; hide Received; hide Times;
    var c := Cuts(totals, n, |totals|);
    var got := Received(parts, w, Low(c, r), High(c, r), |parts|);
    assert |keys| == |multiset(keys)| == |multiset(got)| == |got|;
    ReceivedLength(parts, w, Low(c, r), High(c, r), |parts|);
    LengthIs(parts, w, Low(c, r));
    LengthIs(parts, w, High(c, r));
    if r < |c| {
      ShareBound(totals, n, r);
      TotalsSum(totals, parts, w, First(c, r));
      TotalsSum(totals, parts, w, c[r] + 1);
    }
  }
}