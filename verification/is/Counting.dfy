/**
 * Counting sort: key populations, ranks, and what placing keys by their ranks gives.  Shared by
 * the OpenMP and the MPI version of IS, which both rank a range of keys by counting it up and
 * place the keys from the last place down.
 */
module Counting {
  /** Occurrences of key k. */
  function Count(s: seq<nat>, k: nat): (c: nat)
    ensures c <= |s|
  {
    if s == [] then 0 else Count(s[..|s| - 1], k) + (if s[|s| - 1] == k then 1 else 0)
  }

  /** Keys smaller than k. */
  function CountLt(s: seq<nat>, k: nat): (c: nat)
    ensures c <= |s|
  {
    if s == [] then 0 else CountLt(s[..|s| - 1], k) + (if s[|s| - 1] < k then 1 else 0)
  }

  predicate InRange(s: seq<nat>, lo: nat, hi: nat) {
    forall i :: 0 <= i < |s| ==> lo <= s[i] < hi
  }

  predicate Ascending(s: seq<nat>) {
    forall i, j :: 0 <= i <= j < |s| ==> s[i] <= s[j]
  }

  lemma {:induction false} CountNext(s: seq<nat>, k: nat)
    ensures CountLt(s, k + 1) == CountLt(s, k) + Count(s, k)
  {
    if s != [] { CountNext(s[..|s| - 1], k); }
  }

  lemma {:induction false} CountMonotone(s: seq<nat>, k: nat, l: nat)
    requires k <= l
    ensures CountLt(s, k) <= CountLt(s, l)
    decreases l
  {
    if k < l {
      CountMonotone(s, k, l - 1);
      CountNext(s, l - 1);
    }
  }

  lemma {:induction false} CountRange(s: seq<nat>, lo: nat, hi: nat)
    requires InRange(s, lo, hi)
    ensures forall k :: 0 <= k <= lo ==> CountLt(s, k) == 0
    ensures forall k :: k >= hi ==> CountLt(s, k) == |s|
  {
    if s != [] { CountRange(s[..|s| - 1], lo, hi); }
  }

  lemma {:induction false} CountAppend(s: seq<nat>, t: seq<nat>, k: nat)
    ensures Count(s + t, k) == Count(s, k) + Count(t, k)
    ensures CountLt(s + t, k) == CountLt(s, k) + CountLt(t, k)
  {
    if t == [] {
      assert s + t == s;
    } else {
      var n := |t| - 1;
      assert (s + t)[..|s| + n] == s + t[..n];
      CountAppend(s, t[..n], k);
    }
  }

  lemma {:induction false} CountIsMultiplicity(s: seq<nat>, k: nat)
    ensures Count(s, k) == multiset(s)[k]
  {
    if s != [] {
      var n := |s| - 1;
      CountIsMultiplicity(s[..n], k);
      assert s == s[..n] + [s[n]];
    }
  }

  lemma SameCounts(s: seq<nat>, t: seq<nat>)
    requires forall k: nat :: Count(s, k) == Count(t, k)
    ensures multiset(s) == multiset(t)
  {
    forall k: nat ensures multiset(s)[k] == multiset(t)[k] {
      CountIsMultiplicity(s, k);
      CountIsMultiplicity(t, k);
      assert Count(s, k) == Count(t, k);
    }
  }

  lemma {:induction false} CountPrefix(s: seq<nat>, i: nat, k: nat)
    requires i <= |s|
    ensures Count(s[..i], k) <= Count(s, k)
    ensures i < |s| ==> Count(s[..i + 1], k) == Count(s[..i], k) + (if s[i] == k then 1 else 0)
  {
    assert s == s[..i] + s[i..];
    CountAppend(s[..i], s[i..], k);
    if i < |s| { assert s[..i + 1][..i] == s[..i]; }
  }

  // ---------------------------------------------------------------------------
  // Keys placed by rank
  // ---------------------------------------------------------------------------

  /** The keys equal to k stand where k's ranks are. */
  ghost predicate Placed(s: seq<nat>, keys: seq<nat>) {
    && |s| == |keys|
    && forall k: nat, i :: CountLt(keys, k) <= i < CountLt(keys, k + 1) ==> s[i] == k
  }

  /** The key whose ranks include position i. */
  lemma {:induction false} KeyAt(keys: seq<nat>, i: nat, hi: nat) returns (k: nat)
    requires i < CountLt(keys, hi)
    ensures k < hi && CountLt(keys, k) <= i < CountLt(keys, k + 1)
    decreases hi
  {
    NoneBelowZero(keys);
    if CountLt(keys, hi - 1) <= i {
      k := hi - 1;
    } else {
      k := KeyAt(keys, i, hi - 1);
    }
  }

  lemma {:induction false} NoneBelowZero(keys: seq<nat>)
    ensures CountLt(keys, 0) == 0
  {
    if keys != [] { NoneBelowZero(keys[..|keys| - 1]); }
  }

  lemma {:induction false} CutCounts(s: seq<nat>, k: nat, c: nat)
    requires c <= |s| && forall i :: 0 <= i < |s| ==> (s[i] < k <==> i < c)
    ensures CountLt(s, k) == c
  {
    if s != [] {
      var n := |s| - 1;
      CutCounts(s[..n], k, if c <= n then c else n);
    }
  }

  /** In a placed sequence the keys below k fill the positions below k's first rank. */
  lemma PlacedCut(s: seq<nat>, keys: seq<nat>, k: nat, hi: nat)
    requires Placed(s, keys) && InRange(keys, 0, hi)
    ensures forall i :: 0 <= i < |s| ==> (s[i] < k <==> i < CountLt(keys, k))
  {
    CountRange(keys, 0, hi);
    forall i | 0 <= i < |s| ensures s[i] < k <==> i < CountLt(keys, k) {
      var v := KeyAt(keys, i, hi);
      assert s[i] == v;
      if v < k { CountMonotone(keys, v + 1, k); } else { CountMonotone(keys, k, v); }
    }
  }

  /** Placing keys by rank sorts them. */
  lemma PlacedIsSorted(s: seq<nat>, keys: seq<nat>, hi: nat)
    requires Placed(s, keys) && InRange(keys, 0, hi)
    ensures Ascending(s) && multiset(s) == multiset(keys)
  {
    forall k: nat ensures CountLt(s, k) == CountLt(keys, k) {
      PlacedCut(s, keys, k, hi);
      CutCounts(s, k, CountLt(keys, k));
    }
    forall k: nat ensures Count(s, k) == Count(keys, k) {
      CountNext(s, k);
      CountNext(keys, k);
      assert CountLt(s, k + 1) == CountLt(keys, k + 1);
    }
    SameCounts(s, keys);
    forall i, j | 0 <= i <= j < |s| ensures s[i] <= s[j] {
      PlacedCut(s, keys, s[i], hi);
    }
  }

  // ---------------------------------------------------------------------------
  // The ranking loops
  // ---------------------------------------------------------------------------

  /** Counter k, kept at index k - base, says how many keys are at most k, counted from m. */
  ghost predicate Ranked(buff: seq<nat>, base: nat, lo: nat, hi: nat, keys: seq<nat>, m: nat) {
    forall p :: 0 <= p < |buff| && lo <= p + base < hi ==> buff[p] == m + CountLt(keys, p + base + 1)
  }

  /**
   * Ranks of keys in lo..hi-1: clears their counters, counts, and adds up, starting from m.
   * Counter k is kept at index k - base.
   */
  method RankRange(buff: array<nat>, base: nat, lo: nat, hi: nat, keys: seq<nat>, m: nat)
    requires base <= lo <= hi <= base + buff.Length && InRange(keys, lo, hi)
    modifies buff
    ensures Ranked(buff[..], base, lo, hi, keys, m)
    ensures forall i :: 0 <= i < buff.Length && !(lo <= i + base < hi) ==> buff[i] == old(buff[i])
  {
    CountPopulations(buff, base, lo, hi, keys);
    if lo < hi {
      AddUp(buff, base, lo, hi, keys, m);
    }
  }

  /** Clears the counters and counts the keys. */
  method CountPopulations(buff: array<nat>, base: nat, lo: nat, hi: nat, keys: seq<nat>)
    requires base <= lo <= hi <= base + buff.Length && InRange(keys, lo, hi)
    modifies buff
    ensures forall i :: lo <= i + base < hi && 0 <= i < buff.Length ==> buff[i] == Count(keys, i + base)
    ensures forall i :: 0 <= i < buff.Length && !(lo <= i + base < hi) ==> buff[i] == old(buff[i])
  {
    var k := lo;
    while k < hi
      invariant lo <= k <= hi
      invariant forall i :: lo <= i + base < k && 0 <= i < buff.Length ==> buff[i] == 0
      invariant forall i :: 0 <= i < buff.Length && !(lo <= i + base < hi) ==> buff[i] == old(buff[i])
    {
      buff[k - base] := 0;
      k := k + 1;
    }
    k := 0;
    assert keys[..0] == [];
    while k < |keys|
      invariant 0 <= k <= |keys|
      invariant forall i :: lo <= i + base < hi && 0 <= i < buff.Length ==> buff[i] == Count(keys[..k], i + base)
      invariant forall i :: 0 <= i < buff.Length && !(lo <= i + base < hi) ==> buff[i] == old(buff[i])
    {
      forall v: nat { CountPrefix(keys, k, v); }
      buff[keys[k] - base] := buff[keys[k] - base] + 1;
      k := k + 1;
    }
    assert keys[..|keys|] == keys;
  }

  /** Successively adds the populations. */
  method AddUp(buff: array<nat>, base: nat, lo: nat, hi: nat, ghost keys: seq<nat>, m: nat)
    requires base <= lo < hi <= base + buff.Length && InRange(keys, lo, hi)
    requires forall i :: lo <= i + base < hi && 0 <= i < buff.Length ==> buff[i] == Count(keys, i + base)
    modifies buff
    ensures Ranked(buff[..], base, lo, hi, keys, m)
    ensures forall i :: 0 <= i < buff.Length && !(lo <= i + base < hi) ==> buff[i] == old(buff[i])
  {
    hide Count; hide CountLt;
    CountRange(keys, lo, hi);
    CountNext(keys, lo);
    buff[lo - base] := buff[lo - base] + m;
    var k := lo + 1;
    while k < hi
      invariant lo < k <= hi
      invariant forall i :: lo <= i + base < k && 0 <= i < buff.Length ==> buff[i] == m + CountLt(keys, i + base + 1)
      invariant forall i :: k <= i + base < hi && 0 <= i < buff.Length ==> buff[i] == Count(keys, i + base)
      invariant forall i :: 0 <= i < buff.Length && !(lo <= i + base < hi) ==> buff[i] == old(buff[i])
    {
      CountNext(keys, k);
      buff[k - base] := buff[k - base] + buff[k - 1 - base];
      k := k + 1;
    }
  }

  /** After i keys have been placed, each counter stands at the last rank taken of its key. */
  ghost predicate Taken(buff: seq<nat>, base: nat, lo: nat, hi: nat, keys: seq<nat>, m: nat, i: nat)
    requires i <= |keys|
  {
    forall p :: 0 <= p < |buff| && lo <= p + base < hi ==>
      buff[p] == m + CountLt(keys, p + base + 1) - Count(keys[..i], p + base)
  }

  /** The ranks taken hold their keys. */
  ghost predicate Standing(buff: seq<nat>, out: seq<nat>, base: nat, lo: nat, hi: nat, keys: seq<nat>, m: nat) {
    forall p, q :: 0 <= p < |buff| && lo <= p + base < hi && buff[p] <= q < m + CountLt(keys, p + base + 1) && q < |out| ==>
      out[q] == p + base
  }

  /** The next key has a rank left. */
  lemma RankLeft(buff: seq<nat>, base: nat, lo: nat, hi: nat, keys: seq<nat>, m: nat, i: nat)
    requires base <= lo <= hi <= base + |buff| && InRange(keys, lo, hi) && i < |keys|
    requires Taken(buff, base, lo, hi, keys, m, i)
    ensures lo <= keys[i] < hi
    ensures m + CountLt(keys, keys[i]) < buff[keys[i] - base] <= m + CountLt(keys, keys[i] + 1) <= m + |keys|
    ensures Taken(buff[keys[i] - base := buff[keys[i] - base] - 1], base, lo, hi, keys, m, i + 1)
  {
    hide Count; hide CountLt;
    CountNext(keys, keys[i]);
    CountPrefix(keys, i, keys[i]);
    CountPrefix(keys, i + 1, keys[i]);
    forall v: nat { CountPrefix(keys, i, v); }
  }

  /** Ranks of different keys are different places. */
  lemma StandingStep(buff: seq<nat>, out: seq<nat>, base: nat, lo: nat, hi: nat, keys: seq<nat>, m: nat, v: nat, i: nat)
    requires base <= lo <= v < hi <= base + |buff| && Standing(buff, out, base, lo, hi, keys, m)
    requires i <= |keys| && Taken(buff, base, lo, hi, keys, m, i)
    requires m + CountLt(keys, v) < buff[v - base] <= m + CountLt(keys, v + 1) <= |out|
    ensures Standing(buff[v - base := buff[v - base] - 1], out[buff[v - base] - 1 := v], base, lo, hi, keys, m)
  {
    var buff1, out1 := buff[v - base := buff[v - base] - 1], out[buff[v - base] - 1 := v];
    forall p, q | 0 <= p < |buff1| && lo <= p + base < hi && buff1[p] <= q < m + CountLt(keys, p + base + 1) && q < |out1|
      ensures out1[q] == p + base
    {
      var w := p + base;
      CountNext(keys, w);
      CountPrefix(keys, i, w);
      if w < v { CountMonotone(keys, w + 1, v); }
      if v < w { CountMonotone(keys, v + 1, w); }
    }
  }

  lemma AllTaken(buff: seq<nat>, out: seq<nat>, base: nat, lo: nat, hi: nat, keys: seq<nat>, m: nat)
    requires base <= lo <= hi <= base + |buff| && InRange(keys, lo, hi) && m + |keys| <= |out|
    requires Taken(buff, base, lo, hi, keys, m, |keys|) && Standing(buff, out, base, lo, hi, keys, m)
    ensures Placed(out[m..m + |keys|], keys)
  {
    CountRange(keys, lo, hi);
    assert keys[..|keys|] == keys;
    var s := out[m..m + |keys|];
    forall k: nat, i | CountLt(keys, k) <= i < CountLt(keys, k + 1) ensures s[i] == k {
      CountNext(keys, k);
      if lo <= k < hi {
        assert buff[k - base] == m + CountLt(keys, k + 1) - Count(keys, k);
        assert out[m + i] == (k - base) + base;
      }
    }
  }

  lemma NoneTaken(buff: seq<nat>, out: seq<nat>, base: nat, lo: nat, hi: nat, keys: seq<nat>, m: nat)
    requires base <= lo <= hi <= base + |buff|
    requires Ranked(buff, base, lo, hi, keys, m)
    ensures Taken(buff, base, lo, hi, keys, m, 0) && Standing(buff, out, base, lo, hi, keys, m)
  {
    assert keys[..0] == [];
  }

  /**
   * The placing loop of full_verify: key k goes to the last of its ranks not yet taken.
   * Positions m.. of `out` receive the keys.
   */
  method PlaceRange(buff: array<nat>, base: nat, lo: nat, hi: nat, keys: seq<nat>, m: nat, out: array<nat>)
    requires buff != out && base <= lo <= hi <= base + buff.Length && InRange(keys, lo, hi)
    requires m + |keys| <= out.Length
    requires Ranked(buff[..], base, lo, hi, keys, m)
    modifies buff, out
    ensures Placed(out[m..m + |keys|], keys)
    ensures forall i :: 0 <= i < out.Length && !(m <= i < m + |keys|) ==> out[i] == old(out[i])
    ensures forall i :: 0 <= i < buff.Length && !(lo <= i + base < hi) ==> buff[i] == old(buff[i])
  {
    hide Taken; hide Standing; hide Placed; hide CountLt;
    NoneTaken(buff[..], out[..], base, lo, hi, keys, m);
    var i := 0;
    while i < |keys|
      invariant 0 <= i <= |keys|
      invariant Taken(buff[..], base, lo, hi, keys, m, i) && Standing(buff[..], out[..], base, lo, hi, keys, m)
      invariant forall p :: 0 <= p < out.Length && !(m <= p < m + |keys|) ==> out[p] == old(out[p])
      invariant forall p :: 0 <= p < buff.Length && !(lo <= p + base < hi) ==> buff[p] == old(buff[p])
    {
      ghost var b, o := buff[..], out[..];
      RankLeft(b, base, lo, hi, keys, m, i);
      StandingStep(b, o, base, lo, hi, keys, m, keys[i], i);
      var k := buff[keys[i] - base] - 1;
      buff[keys[i] - base] := k;
      out[k] := keys[i];
      assert buff[..] == b[keys[i] - base := k] && out[..] == o[k := keys[i]];
      i := i + 1;
    }
    AllTaken(buff[..], out[..], base, lo, hi, keys, m);
    assert out[m..m + |keys|] == out[..][m..m + |keys|];
  }
}
