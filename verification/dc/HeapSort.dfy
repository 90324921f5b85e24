/**
 * The heap sort of jobcntl.c (vszsort and onessort), also given as a function: equal inputs are
 * ordered equally, ties included.
 */
module HeapSort {
  import opened Masks

  datatype Keyed = Keyed(size: nat, tuple: Bits)

  predicate Ascending(s: seq<Keyed>) {
    forall i, j :: 0 <= i <= j < |s| ==> s[i].size <= s[j].size
  }

  /** The children of node p (1-based), if any, are no larger than it. */
  ghost predicate Parent(s: seq<Keyed>, p: nat, l: nat)
    requires 1 <= p && l <= |s|
  {
    && (2 * p <= l ==> s[2 * p - 1].size <= s[p - 1].size)
    && (2 * p + 1 <= l ==> s[2 * p].size <= s[p - 1].size)
  }

  /** Nodes f..l form a heap, except possibly at node j. */
  ghost predicate HeapBut(s: seq<Keyed>, f: nat, l: nat, j: nat)
    requires 1 <= f && l <= |s|
  {
    forall p: nat :: f <= p <= l && p != j ==> Parent(s, p, l)
  }

  ghost predicate Heap(s: seq<Keyed>, f: nat, l: nat)
    requires 1 <= f && l <= |s|
  {
    forall p: nat :: f <= p <= l ==> Parent(s, p, l)
  }

  /** The node above j is no smaller than j's children. */
  ghost predicate Above(s: seq<Keyed>, f: nat, l: nat, j: nat)
    requires 1 <= f && l <= |s| && 1 <= j
  {
    j / 2 >= f ==>
      && (2 * j <= l ==> s[2 * j - 1].size <= s[j / 2 - 1].size)
      && (2 * j + 1 <= l ==> s[2 * j].size <= s[j / 2 - 1].size)
  }

  function Swap(s: seq<Keyed>, a: nat, b: nat): (t: seq<Keyed>)
    requires a < |s| && b < |s|
    ensures |t| == |s|
  {
    s[a := s[b]][b := s[a]]
  }

  /** The first l records are rearranged, the others are where they were. */
  ghost predicate Rearranged(s: seq<Keyed>, t: seq<Keyed>, l: nat) {
    |s| == |t| && l <= |s| && multiset(s[..l]) == multiset(t[..l]) && s[l..] == t[l..]
  }

  lemma SwapRearranges(s: seq<Keyed>, t: seq<Keyed>, a: nat, b: nat, l: nat)
    requires Rearranged(s, t, l) && a < l && b < l
    ensures Rearranged(s, Swap(t, a, b), l)
  {
    var u := t[..l];
    assert Swap(t, a, b)[..l] == u[a := u[b]][b := u[a]];
  }

  /** One sift step: the larger child m of j moves up. */
  lemma SiftStep(s: seq<Keyed>, f: nat, l: nat, j: nat, m: nat)
    requires 1 <= f <= j && l <= |s| && 2 * j <= m <= 2 * j + 1 && m <= l
    requires HeapBut(s, f, l, j) && Above(s, f, l, j) && s[j - 1].size < s[m - 1].size
    requires s[2 * j - 1].size <= s[m - 1].size && (2 * j + 1 <= l ==> s[2 * j].size <= s[m - 1].size)
    ensures HeapBut(Swap(s, m - 1, j - 1), f, l, m) && Above(Swap(s, m - 1, j - 1), f, l, m)
  {
    var t := Swap(s, m - 1, j - 1);
    forall p: nat | f <= p <= l && p != m ensures Parent(t, p, l) {
      if p != j { assert Parent(s, p, l); }
    }
    assert Parent(s, m, l);
  }

  function LargerChild(s: seq<Keyed>, j: nat, l: nat): (m: nat)
    requires 1 <= j && 2 * j <= l <= |s|
    ensures 2 * j <= m <= 2 * j + 1 && m <= l
    ensures s[2 * j - 1].size <= s[m - 1].size && (2 * j + 1 <= l ==> s[2 * j].size <= s[m - 1].size)
  {
    if 2 * j < l && s[2 * j - 1].size < s[2 * j].size then 2 * j + 1 else 2 * j
  }

  /** What restore leaves. */
  ghost function Sifted(s: seq<Keyed>, j: nat, l: nat): (t: seq<Keyed>)
    requires 1 <= j && l <= |s|
    ensures |t| == |s|
    decreases l - j
  {
    if 2 * j > l then s
    else
      var m := LargerChild(s, j, l);
      if s[m - 1].size > s[j - 1].size then Sifted(Swap(s, m - 1, j - 1), m, l) else s
  }

  lemma SiftEnd(s: seq<Keyed>, f: nat, l: nat, j: nat)
    requires 1 <= f <= j && l <= |s| && HeapBut(s, f, l, j)
    ensures Parent(s, j, l) ==> Heap(s, f, l)
  {
  }

  lemma {:induction false} SiftedIsHeap(s: seq<Keyed>, f: nat, l: nat, j: nat)
    requires 1 <= f <= j && l <= |s| && HeapBut(s, f, l, j) && Above(s, f, l, j)
    ensures Heap(Sifted(s, j, l), f, l) && Rearranged(s, Sifted(s, j, l), l)
    decreases l - j
  {
    hide HeapBut; hide Above; hide Heap; hide Swap; hide Rearranged;
    RearrangedRefl(s, l);
    SiftEnd(s, f, l, j);
    if 2 * j <= l {
      var m := LargerChild(s, j, l);
      if s[m - 1].size > s[j - 1].size {
        var t := Swap(s, m - 1, j - 1);
        SiftStep(s, f, l, j, m);
        SwapRearranges(s, s, m - 1, j - 1, l);
        SiftedIsHeap(t, f, l, m);
        RearrangedTrans(s, t, Sifted(t, m, l), l, l);
      } else {
        assert Parent(s, j, l);
      }
    } else {
      assert Parent(s, j, l);
    }
  }

  /** Sifting node f makes a heap of nodes f.. when nodes f+1.. are one. */
  lemma RestoredHeap(s: seq<Keyed>, f: nat, l: nat)
    requires 1 <= f && l <= |s| && Heap(s, f + 1, l)
    ensures Heap(Sifted(s, f, l), f, l) && Rearranged(s, Sifted(s, f, l), l)
  {
    SiftedIsHeap(s, f, l, f);
  }

  /** The exchange of two records, field by field in the source. */
  method SwapRecords(x: array<Keyed>, a: nat, b: nat)
    requires a < x.Length && b < x.Length
    modifies x
    ensures x[..] == Swap(old(x[..]), a, b)
  {
    x[a], x[b] := x[b], x[a];
  }

  /** restore and restoreo: sifts node f down. */
  method Restore(x: array<Keyed>, f: nat, l: nat)
    requires 1 <= f && l <= x.Length
    modifies x
    ensures x[..] == Sifted(old(x[..]), f, l)
  {
    hide Swap;
    var j, hl := f, l / 2;
    while j <= hl
      invariant 1 <= j && Sifted(x[..], j, l) == Sifted(old(x[..]), f, l)
      decreases l - j
    {
      var tj := j * 2;
      var m := if tj < l && x[tj - 1].size < x[tj].size then tj + 1 else tj;
      assert m == LargerChild(x[..], j, l);
      if x[m - 1].size > x[j - 1].size {
        SwapRecords(x, m - 1, j - 1);
        j := m;
      } else {
        j := l;
      }
    }
  }

  // ---------------------------------------------------------------------------
  // The sort
  // ---------------------------------------------------------------------------

  /** The first phase, from node i upwards. */
  ghost function Built(s: seq<Keyed>, i: nat, n: nat): (t: seq<Keyed>)
    requires n <= |s|
    ensures |t| == |s|
    decreases i
  {
    if i == 0 then s else Built(Sifted(s, i, n), i - 1, n)
  }

  /** The second phase, with i records still in the heap. */
  ghost function Drained(s: seq<Keyed>, i: nat): (t: seq<Keyed>)
    requires i <= |s|
    ensures |t| == |s|
    decreases i
  {
    if i < 2 then s else Drained(Sifted(Swap(s, 0, i - 1), 1, i - 1), i - 1)
  }

  ghost function HeapSorted(s: seq<Keyed>, n: nat): (t: seq<Keyed>)
    requires n <= |s|
    ensures |t| == |s|
  {
    Drained(Built(s, n / 2, n), n)
  }

  /** vszsort and onessort. */
  method Sort(x: array<Keyed>, n: nat)
    requires n <= x.Length
    modifies x
    ensures x[..] == HeapSorted(old(x[..]), n)
  {
    hide Sifted; hide Swap;
    var i := n / 2;
    while i >= 1
      invariant i >= 0 && Built(x[..], i, n) == Built(old(x[..]), n / 2, n)
    {
      Restore(x, i, n);
      i := i - 1;
    }
    i := n;
    while i >= 2
      invariant 0 <= i <= n && Drained(x[..], i) == HeapSorted(old(x[..]), n)
    {
      var im1 := i - 1;
      SwapRecords(x, 0, im1);
      Restore(x, 1, im1);
      i := i - 1;
    }
  }

  /** The root of a heap is its largest record. */
  lemma {:induction false} RootLargest(s: seq<Keyed>, l: nat, p: nat)
    requires l <= |s| && Heap(s, 1, l) && 1 <= p <= l
    ensures s[p - 1].size <= s[0].size
  {
    if p > 1 {
      assert Parent(s, p / 2, l);
      RootLargest(s, l, p / 2);
    }
  }

  /** Records i.. are in place: ascending and no smaller than all records before them. */
  ghost predicate Placed(s: seq<Keyed>, i: nat, n: nat)
    requires i <= n <= |s|
  {
    forall a, b :: 0 <= a <= b < n && b >= i ==> s[a].size <= s[b].size
  }

  /** Moving the root to the end of the heap puts one more record in place. */
  lemma PlaceRoot(s: seq<Keyed>, i: nat, n: nat)
    requires 2 <= i <= n <= |s| && Heap(s, 1, i) && Placed(s, i, n)
    ensures Placed(Swap(s, 0, i - 1), i - 1, n) && Heap(Swap(s, 0, i - 1), 2, i - 1)
  {
    var t, l := Swap(s, 0, i - 1), i - 1;
    forall p: nat | 2 <= p <= l ensures Parent(t, p, l) {
      assert Parent(s, p, i);
    }
    forall a, b | 0 <= a <= b < n && b >= i - 1 ensures t[a].size <= t[b].size {
      RootLargest(s, i, if a < i then a + 1 else 1);
      RootLargest(s, i, i);
    }
  }

  /** Rearranging the records before i leaves the rest in place. */
  lemma StillPlaced(s: seq<Keyed>, t: seq<Keyed>, i: nat, n: nat)
    requires i <= n <= |s| && Placed(s, i, n) && Rearranged(s, t, i)
    ensures Placed(t, i, n)
  {
    forall b | i <= b < n ensures t[b] == s[b] {
      assert t[b] == t[i..][b - i] && s[b] == s[i..][b - i];
    }
    forall a, b | 0 <= a <= b < n && b >= i ensures t[a].size <= t[b].size {
      if a < i {
        assert t[a] in multiset(t[..i]);
        assert t[a] in multiset(s[..i]);
        var c :| 0 <= c < i && s[c] == t[a];
      }
    }
  }

  lemma RearrangedTrans(s: seq<Keyed>, t: seq<Keyed>, u: seq<Keyed>, k: nat, l: nat)
    requires k <= l && Rearranged(s, t, l) && Rearranged(t, u, k)
    ensures Rearranged(s, u, l)
  {
    assert t[..l] == t[..k] + t[k..][..l - k];
    assert u[..l] == u[..k] + u[k..][..l - k];
    assert t[l..] == t[k..][l - k..] && u[l..] == u[k..][l - k..];
  }

  lemma RearrangedRefl(s: seq<Keyed>, l: nat)
    requires l <= |s|
    ensures Rearranged(s, s, l)
  {
  }

  lemma {:induction false} BuiltIsHeap(s: seq<Keyed>, i: nat, n: nat)
    requires n <= |s| && Heap(s, i + 1, n)
    ensures Heap(Built(s, i, n), 1, n) && Rearranged(s, Built(s, i, n), n)
    decreases i
  {
    if i > 0 {
      RestoredHeap(s, i, n);
      BuiltIsHeap(Sifted(s, i, n), i - 1, n);
      RearrangedTrans(s, Sifted(s, i, n), Built(s, i, n), n, n);
    }
  }

  lemma {:induction false} DrainedIsSorted(s: seq<Keyed>, i: nat, n: nat)
    requires 1 <= i <= n <= |s| && Heap(s, 1, i) && Placed(s, i, n)
    ensures Placed(Drained(s, i), 1, n) && Rearranged(s, Drained(s, i), n)
    decreases i
  {
    hide Heap; hide Placed; hide Rearranged; hide Swap; hide Sifted;
    RearrangedRefl(s, n);
    if i >= 2 {
      var t := Swap(s, 0, i - 1);
      var u := Sifted(t, 1, i - 1);
      PlaceRoot(s, i, n);
      SwapRearranges(s, s, 0, i - 1, n);
      RestoredHeap(t, 1, i - 1);
      StillPlaced(t, u, i - 1, n);
      RearrangedTrans(s, t, u, i - 1, n);
      DrainedIsSorted(u, i - 1, n);
      RearrangedTrans(s, u, Drained(s, i), n, n);
    }
  }

  /** The sort leaves an ascending permutation of the first n records, for every n. */
  lemma HeapSortSorts(s: seq<Keyed>, n: nat)
    requires n <= |s|
    ensures Ascending(HeapSorted(s, n)[..n]) && Rearranged(s, HeapSorted(s, n), n)
  {
    var t := Built(s, n / 2, n);
    BuiltIsHeap(s, n / 2, n);
    if n > 0 {
      DrainedIsSorted(t, n, n);
      RearrangedTrans(s, t, HeapSorted(s, n), n, n);
    }
  }
}
