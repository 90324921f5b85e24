/**
 * Parallel generation of the keys: every thread or processor jumps to its own part of the one
 * random number stream.
 */
module KeyGeneration {
  import opened Arith
  import opened Lcg

  /** Key i of the sequential generator: four draws, averaged and scaled to 0..4k-1. */
  function KeyOf(seed: nat, a: nat, k: nat, i: nat): nat
    requires seed < T46
  {
    k * (Drawn(seed, a, 4 * i + 1) + Drawn(seed, a, 4 * i + 2) + Drawn(seed, a, 4 * i + 3) + Drawn(seed, a, 4 * i + 4)) / T46
  }

  /** A key times 2^46 is k times the sum of its four draws, short of less than 2^46. */
  lemma KeyOfIs(seed: nat, a: nat, k: nat, i: nat)
    requires seed < T46
    ensures KeyOf(seed, a, k, i) * 0x4000_0000_0000 <=
      k * (Drawn(seed, a, 4 * i + 1) + Drawn(seed, a, 4 * i + 2) + Drawn(seed, a, 4 * i + 3) + Drawn(seed, a, 4 * i + 4))
      < (KeyOf(seed, a, k, i) + 1) * 0x4000_0000_0000
  {
    hide Drawn;
    var x := k * (Drawn(seed, a, 4 * i + 1) + Drawn(seed, a, 4 * i + 2) + Drawn(seed, a, 4 * i + 3) + Drawn(seed, a, 4 * i + 4));
    assert x == x / T46 * T46 + x % T46;
  }

  /** Every key lies in 0..MAX_KEY-1. */
  lemma KeyInRange(seed: nat, a: nat, k: nat, i: nat)
    requires seed < T46 && k > 0
    ensures KeyOf(seed, a, k, i) < 4 * k
  {
    var x := Drawn(seed, a, 4 * i + 1) + Drawn(seed, a, 4 * i + 2) + Drawn(seed, a, 4 * i + 3) + Drawn(seed, a, 4 * i + 4);
    assert x <= 4 * T46 - 4;
    assert k * x <= k * (4 * T46 - 4) by { ProductMonotone(x, 4 * T46 - 4, k); }
    assert k * (4 * T46 - 4) == 4 * k * T46 - 4 * k;
    QuotientBelow(k * x, T46, 4 * k);
  }

  /** One key: four draws from the state, which stands at draw 4i. */
  method NextKey(s: Double, an: Double, k: nat, ghost seed: nat, ghost i: nat) returns (key: nat)
    requires s != an && an.v < T46 && seed < T46 && s.v == Drawn(seed, an.v, 4 * i)
    modifies s
    ensures key == KeyOf(seed, an.v, k, i) && s.v == Drawn(seed, an.v, 4 * (i + 1))
    ensures key * 0x4000_0000_0000 <=
      k * (Drawn(seed, an.v, 4 * i + 1) + Drawn(seed, an.v, 4 * i + 2) + Drawn(seed, an.v, 4 * i + 3) + Drawn(seed, an.v, 4 * i + 4))
      < (key + 1) * 0x4000_0000_0000
  {
    NextDraw(seed, an.v, 4 * i);
    NextDraw(seed, an.v, 4 * i + 1);
    NextDraw(seed, an.v, 4 * i + 2);
    NextDraw(seed, an.v, 4 * i + 3);
    KeyOfIs(seed, an.v, k, i);
    hide Drawn;
    var x := Randlc(s, an);
    var r := Randlc(s, an);
    x := x + r;
    r := Randlc(s, an);
    x := x + r;
    r := Randlc(s, an);
    x := x + r;
    key := k * x / T46;
  }

  // ---------------------------------------------------------------------------
  // OpenMP: blocks of ceil(n / threads) keys
  // ---------------------------------------------------------------------------

  function Block(nKeys: nat, num_threads: nat): nat
    requires num_threads > 0
  {
    (nKeys + num_threads - 1) / num_threads
  }

  function Begin(nKeys: nat, num_threads: nat, myid: nat): nat
    requires num_threads > 0
  {
    Block(nKeys, num_threads) * myid
  }

  function End(nKeys: nat, num_threads: nat, myid: nat): nat
    requires num_threads > 0
  {
    var k2 := Begin(nKeys, num_threads, myid) + Block(nKeys, num_threads);
    if k2 > nKeys then nKeys else k2
  }

  /** The draws a thread skips are those of the keys before its block. */
  lemma SkipsBlocks(nKeys: nat, num_threads: nat, myid: nat)
    requires num_threads > 0 && nKeys > 0
    ensures Skipped(myid, num_threads, 4 * nKeys) == 4 * Begin(nKeys, num_threads, myid)
  {
    var mq := Block(nKeys, num_threads);
    assert 4 * nKeys / 4 == nKeys;
    assert mq * 4 * myid == 4 * (mq * myid);
    if myid > 0 {
      BlockPositive(nKeys, num_threads);
      ProductMonotone(1, mq, myid);
    }
  }

  lemma BlockPositive(nKeys: nat, num_threads: nat)
    requires num_threads > 0 && nKeys > 0
    ensures Block(nKeys, num_threads) >= 1
  {
    var m := nKeys + num_threads - 1;
    assert m < (m / num_threads + 1) * num_threads;
  }

  /** The blocks cover all keys. */
  lemma BlocksCover(nKeys: nat, num_threads: nat, i: nat) returns (myid: nat)
    requires num_threads > 0 && i < nKeys
    ensures myid < num_threads && Begin(nKeys, num_threads, myid) <= i < End(nKeys, num_threads, myid)
  {
    var mq := Block(nKeys, num_threads);
    BlockPositive(nKeys, num_threads);
    myid := i / mq;
    assert mq * (i / mq) <= i < mq * (i / mq) + mq;
    EnoughBlocks(nKeys, num_threads);
    assert mq * num_threads == num_threads * mq;
    QuotientBelow(i, mq, num_threads);
  }

  lemma EnoughBlocks(nKeys: nat, num_threads: nat)
    requires num_threads > 0
    ensures nKeys <= Block(nKeys, num_threads) * num_threads
  {
    var m := nKeys + num_threads - 1;
    assert m < (m / num_threads + 1) * num_threads;
    assert (m / num_threads + 1) * num_threads == m / num_threads * num_threads + num_threads;
  }

  /** One thread's part of create_seq. */
  method CreateBlock(seed: nat, a: nat, maxKey: nat, myid: nat, num_threads: nat, key_array: array<nat>)
    requires num_threads > 0 && seed < T46 && a < T46 && key_array.Length > 0
    modifies key_array
    ensures forall i :: 0 <= i < key_array.Length && Begin(key_array.Length, num_threads, myid) <= i < End(key_array.Length, num_threads, myid) ==>
      key_array[i] == KeyOf(seed, a, maxKey / 4, i)
    ensures forall i :: 0 <= i < key_array.Length && !(Begin(key_array.Length, num_threads, myid) <= i < End(key_array.Length, num_threads, myid)) ==>
      key_array[i] == old(key_array[i])
  {
    hide KeyOf; hide Drawn; hide Skipped;
    var mq := Block(key_array.Length, num_threads);
    var k1 := mq * myid;
    var k2 := k1 + mq;
    if k2 > key_array.Length { k2 := key_array.Length; }
    SkipsBlocks(key_array.Length, num_threads, myid);
    var state := FindMySeed(myid, num_threads, 4 * key_array.Length, seed, a);
    var s := new Double(state);
    var an := new Double(a);
    var k := maxKey / 4;
    var i := k1;
    while i < k2
      invariant k1 <= i && (i <= k2 || i == k1) && an.v == a && s != an && s.v == Drawn(seed, a, 4 * i)
      invariant forall j :: 0 <= j < key_array.Length && k1 <= j < i ==> key_array[j] == KeyOf(seed, a, k, j)
      invariant forall j :: 0 <= j < key_array.Length && !(k1 <= j < i) ==> key_array[j] == old(key_array[j])
    {
      var key := NextKey(s, an, k, seed, i);
      key_array[i] := key;
      i := i + 1;
    }
  }

  /** A thread's block holds the sequential generator's keys. */
  ghost predicate BlockDone(keys: seq<nat>, seed: nat, a: nat, k: nat, num_threads: nat, t: nat)
    requires num_threads > 0 && seed < T46
  {
    forall i :: 0 <= i < |keys| && Begin(|keys|, num_threads, t) <= i < End(|keys|, num_threads, t) ==>
      keys[i] == KeyOf(seed, a, k, i)
  }

  /** create_seq: for every number of threads, in whatever order they work, the sequential keys. */
  method CreateSeq(seed: nat, a: nat, maxKey: nat, num_threads: nat, order: seq<nat>, key_array: array<nat>)
    requires num_threads > 0 && seed < T46 && a < T46
    requires forall t :: 0 <= t < num_threads ==> t in order
    modifies key_array
    ensures forall i :: 0 <= i < key_array.Length ==> key_array[i] == KeyOf(seed, a, maxKey / 4, i)
    ensures forall i :: 0 <= i < key_array.Length ==>
      key_array[i] * 0x4000_0000_0000 <=
        maxKey / 4 * (Drawn(seed, a, 4 * i + 1) + Drawn(seed, a, 4 * i + 2) + Drawn(seed, a, 4 * i + 3) + Drawn(seed, a, 4 * i + 4))
        < (key_array[i] + 1) * 0x4000_0000_0000
  {
    hide KeyOf; hide Begin; hide End;
    if key_array.Length > 0 {
      var j := 0;
      while j < |order|
        invariant 0 <= j <= |order|
        invariant forall l :: 0 <= l < j ==> BlockDone(key_array[..], seed, a, maxKey / 4, num_threads, order[l])
      {
        ghost var before := key_array[..];
        CreateBlock(seed, a, maxKey, order[j], num_threads, key_array);
        forall l | 0 <= l < j ensures BlockDone(key_array[..], seed, a, maxKey / 4, num_threads, order[l]) {
          assert BlockDone(before, seed, a, maxKey / 4, num_threads, order[l]);
        }
        j := j + 1;
      }
      forall i | 0 <= i < key_array.Length ensures key_array[i] == KeyOf(seed, a, maxKey / 4, i) {
        var t := BlocksCover(key_array.Length, num_threads, i);
        assert t in order;
        assert BlockDone(key_array[..], seed, a, maxKey / 4, num_threads, t);
      }
      forall i | 0 <= i < key_array.Length
        ensures key_array[i] * 0x4000_0000_0000 <=
          maxKey / 4 * (Drawn(seed, a, 4 * i + 1) + Drawn(seed, a, 4 * i + 2) + Drawn(seed, a, 4 * i + 3) + Drawn(seed, a, 4 * i + 4))
          < (key_array[i] + 1) * 0x4000_0000_0000
      {
        KeyOfIs(seed, a, maxKey / 4, i);
      }
    }
  }

  // ---------------------------------------------------------------------------
  // MPI: num_keys keys on each processor
  // ---------------------------------------------------------------------------

  lemma Log2OfPow2(e: nat)
    ensures Log2(Pow2(e)) == e
  {
    Log2Bounds(Pow2(e));
    Pow2Unique(Pow2(e), e, Log2(Pow2(e)));
  }

  /** The seed of processor kn of np, when every processor makes num_keys keys. */
  method SeedOf(seed: nat, a: nat, kn: nat, np: nat, num_keys: nat, ghost e: nat) returns (state: nat)
    requires np > 0 && seed < T46 && a < T46 && kn < 0x8000_0000 && 4 * num_keys == Pow2(e)
    ensures state == Drawn(seed, a, 4 * (kn * num_keys))
  {
    hide Drawn; hide Times;
    Quotient(4 * num_keys, np);
    assert 4 * (num_keys * np) == 4 * num_keys * np;
    state := FindMySeedMpi(kn, np, 4 * (num_keys * np), seed, a);
    Log2OfPow2(e);
    TimesIsProduct(kn, 4 * num_keys);
    assert kn * (4 * num_keys) == 4 * (kn * num_keys);
  }

  /** create_seq of the MPI version on processor kn: its keys are a stretch of the one stream. */
  method CreateSeqMpi(seed: nat, a: nat, maxKey: nat, kn: nat, np: nat, num_keys: nat, ghost e: nat) returns (key_array: seq<nat>)
    requires np > 0 && seed < T46 && a < T46 && kn < 0x8000_0000 && 4 * num_keys == Pow2(e)
    ensures |key_array| == num_keys
    ensures forall i :: 0 <= i < num_keys ==> key_array[i] == KeyOf(seed, a, maxKey / 4, kn * num_keys + i)
    ensures forall i {:trigger key_array[i]} :: 0 <= i < num_keys ==> var j := kn * num_keys + i;
      key_array[i] * 0x4000_0000_0000 <=
        maxKey / 4 * (Drawn(seed, a, 4 * j + 1) + Drawn(seed, a, 4 * j + 2) + Drawn(seed, a, 4 * j + 3) + Drawn(seed, a, 4 * j + 4))
        < (key_array[i] + 1) * 0x4000_0000_0000
  {
    hide KeyOf; hide Drawn;
    var state := SeedOf(seed, a, kn, np, num_keys, e);
    var s := new Double(state);
    var an := new Double(a);
    var k := maxKey / 4;
    ghost var first := kn * num_keys;
    key_array := [];
    var i := 0;
    while i < num_keys
      invariant 0 <= i <= num_keys && |key_array| == i && an.v == a && s != an && s.v == Drawn(seed, a, 4 * (first + i))
      invariant forall j :: 0 <= j < i ==> key_array[j] == KeyOf(seed, a, k, first + j)
    {
      var key := NextKey(s, an, k, seed, first + i);
      key_array := key_array + [key];
      i := i + 1;
    }
    StretchIs(seed, a, k, first, key_array);
  }

  /** A stretch of keys, from key number `first` on, written out. */
  lemma StretchIs(seed: nat, a: nat, k: nat, first: nat, keys: seq<nat>)
    requires seed < T46 && forall i :: 0 <= i < |keys| ==> keys[i] == KeyOf(seed, a, k, first + i)
    ensures forall i {:trigger keys[i]} :: 0 <= i < |keys| ==> var j := first + i;
      keys[i] * 0x4000_0000_0000 <=
        k * (Drawn(seed, a, 4 * j + 1) + Drawn(seed, a, 4 * j + 2) + Drawn(seed, a, 4 * j + 3) + Drawn(seed, a, 4 * j + 4))
        < (keys[i] + 1) * 0x4000_0000_0000
  {
    forall i {:trigger keys[i]} | 0 <= i < |keys|
      ensures var j := first + i;
        keys[i] * 0x4000_0000_0000 <=
          k * (Drawn(seed, a, 4 * j + 1) + Drawn(seed, a, 4 * j + 2) + Drawn(seed, a, 4 * j + 3) + Drawn(seed, a, 4 * j + 4))
          < (keys[i] + 1) * 0x4000_0000_0000
    {
      KeyOfIs(seed, a, k, first + i);
    }
  }

  lemma Quotient(x: nat, np: nat)
    requires np > 0
    ensures x * np / np == x
  {
    assert x * np < (x + 1) * np;
    QuotientUnique(x * np, np, x);
  }

  /**
   * The OpenMP version skips no draw too many exactly for thread 0 and for streams of at least
   * four numbers; otherwise it is one draw ahead.
   */
  lemma SkippedExactly(kn: nat, np: nat, nn: nat)
    requires np > 0
    ensures Skipped(kn, np, nn) == (nn / 4 + np - 1) / np * 4 * kn <==> kn == 0 || nn >= 4
  {
    var mq := (nn / 4 + np - 1) / np;
    assert mq == Block(nn / 4, np);
    if nn >= 4 {
      BlockPositive(nn / 4, np);
      assert mq * 4 * kn == 4 * (mq * kn);
      ProductMonotone(1, mq, kn);
    } else {
      NoBlock(np);
    }
  }

  lemma NoBlock(np: nat)
    requires np > 0
    ensures Block(0, np) == 0
  {
    QuotientUnique(np - 1, np, 0);
  }

  /** For a quota that is a power of two and a multiple of 4 both versions of find_my_seed skip as many draws. */
  lemma SeedsAgree(kn: nat, np: nat, q: nat, e: nat)
    requires np > 0 && q > 0 && 4 * q == Pow2(e)
    ensures Skipped(kn, np, 4 * q * np) == Times(kn, Pow2(Log2(4 * q * np / np))) == kn * (4 * q)
  {
    Quotient(4 * q, np);
    Log2OfPow2(e);
    ShareRounds(q, np);
    TimesIsProduct(kn, 4 * q);
    Associate(q, 4, kn);
    Commute(q, 4 * kn);
    Associate(4, kn, q);
    Commute(kn, 4 * q);
    Associate(4, q, kn);
    Commute(q, kn);
    if kn > 0 { ProductMonotone(1, q, 4 * kn); }
  }

  lemma ShareRounds(q: nat, np: nat)
    requires np > 0
    ensures (4 * q * np / 4 + np - 1) / np == q
  {
    var m := q * np;
    Associate(4, q, np);
    assert 4 * m / 4 == m;
    Distribute(q, 1, np);
    QuotientUnique(m + np - 1, np, q);
  }
}
