/**
 * The job files: views are dealt to the tasks in zig-zag order of their sizes, and each task
 * lists its views by descending number of dimensions.
 */
module JobFiles {
  import opened Arith
  import opened Masks
  import opened HeapSort
  import opened DataCube

  // ---------------------------------------------------------------------------
  // The zig-zag
  // ---------------------------------------------------------------------------

  /** The task that gets the t-th view dealt: 0,1,..,n-1,n-1,..,1,0,0,1,.. */
  function TaskOf(t: nat, nTasks: nat): (pn: nat)
    requires nTasks > 0
    ensures pn < nTasks
    decreases t
  {
    if t < nTasks then t else nTasks - 1 - TaskOf(t - nTasks, nTasks)
  }

  function Downwards(t: nat, nTasks: nat): bool
    requires nTasks > 0
    decreases t
  {
    if t < nTasks then false else !Downwards(t - nTasks, nTasks)
  }

  /** How pn and direction change after a view is dealt. */
  function Move(pn: nat, down: bool, nTasks: nat): (nat, bool)
    requires pn < nTasks
  {
    if !down && pn == nTasks - 1 then (pn, nTasks > 1)
    else if down && pn == 0 then (pn, false)
    else if down then (pn - 1, down)
    else (pn + 1, down)
  }

  lemma {:induction false} MoveIsZigZag(t: nat, nTasks: nat)
    requires nTasks > 1
    ensures Move(TaskOf(t, nTasks), Downwards(t, nTasks), nTasks) == (TaskOf(t + 1, nTasks), Downwards(t + 1, nTasks))
  {
    if t >= nTasks { MoveIsZigZag(t - nTasks, nTasks); }
  }

  lemma {:induction false} OneTask(t: nat)
    ensures TaskOf(t, 1) == 0
  {
    if t >= 1 { OneTask(t - 1); }
  }

  // ---------------------------------------------------------------------------
  // What each task gets
  // ---------------------------------------------------------------------------

  /** The views dealt to task k, in dealing order; the last view is dealt first. */
  function Dealt(views: seq<Keyed>, nTasks: nat, k: nat): (s: seq<Keyed>)
    requires nTasks > 0
  {
    if views == [] then []
    else Dealt(views[1..], nTasks, k) + (if TaskOf(|views| - 1, nTasks) == k then [views[0]] else [])
  }

  function SumSizes(s: seq<Keyed>): nat {
    if s == [] then 0 else s[0].size + SumSizes(s[1..])
  }

  lemma {:induction false} SumSizesAppend(a: seq<Keyed>, b: seq<Keyed>)
    ensures SumSizes(a + b) == SumSizes(a) + SumSizes(b)
  {
    if a == [] {
      assert a + b == b;
    } else {
      SumSizesAppend(a[1..], b);
      assert (a + b)[1..] == a[1..] + b;
    }
  }

  /** What the first m tasks get together. */
  ghost function DealtTo(views: seq<Keyed>, nTasks: nat, m: nat): seq<Keyed>
    requires nTasks > 0
  {
    if m == 0 then [] else DealtTo(views, nTasks, m - 1) + Dealt(views, nTasks, m - 1)
  }

  lemma Combine(p: seq<Keyed>, a: seq<Keyed>, x: multiset<Keyed>, b: seq<Keyed>, y: seq<Keyed>)
    requires multiset(p) == multiset(a) + x
    ensures multiset(p + (b + y)) == multiset(a + b) + (x + multiset(y))
  {
    assert multiset(b + y) == multiset(b) + multiset(y);
  }

  /** The view dealt to task k when it is dealt, if any. */
  function Turn(views: seq<Keyed>, nTasks: nat, k: nat): seq<Keyed>
    requires nTasks > 0 && views != []
  {
    if TaskOf(|views| - 1, nTasks) == k then [views[0]] else []
  }

  lemma DealtTurn(views: seq<Keyed>, nTasks: nat, k: nat)
    requires nTasks > 0 && views != []
    ensures Dealt(views, nTasks, k) == Dealt(views[1..], nTasks, k) + Turn(views, nTasks, k)
    ensures multiset(Turn(views, nTasks, k)) == if TaskOf(|views| - 1, nTasks) == k then multiset{views[0]} else multiset{}
  {
  }

  lemma DealtToLast(views: seq<Keyed>, nTasks: nat, m: nat)
    requires nTasks > 0
    ensures DealtTo(views, nTasks, m) == if m == 0 then [] else DealtTo(views, nTasks, m - 1) + Dealt(views, nTasks, m - 1)
  {
  }

  /** The first m tasks' share grows by the view if it goes to one of them. */
  lemma {:induction false} DealtToStep(views: seq<Keyed>, nTasks: nat, m: nat)
    requires nTasks > 0 && views != []
    ensures multiset(DealtTo(views, nTasks, m)) ==
      multiset(DealtTo(views[1..], nTasks, m)) + (if TaskOf(|views| - 1, nTasks) < m then multiset{views[0]} else multiset{})
  {
    hide Dealt; hide TaskOf; hide Turn; hide DealtTo;
    DealtToLast(views, nTasks, m);
    DealtToLast(views[1..], nTasks, m);
    if m > 0 {
      DealtToStep(views, nTasks, m - 1);
      DealtTurn(views, nTasks, m - 1);
      var early := if TaskOf(|views| - 1, nTasks) < m - 1 then multiset{views[0]} else multiset{};
      var now := Turn(views, nTasks, m - 1);
      Combine(DealtTo(views, nTasks, m - 1), DealtTo(views[1..], nTasks, m - 1), early, Dealt(views[1..], nTasks, m - 1), now);
      assert early + multiset(now) == if TaskOf(|views| - 1, nTasks) < m then multiset{views[0]} else multiset{};
    }
  }

  lemma {:induction false} DealtToNone(nTasks: nat, m: nat)
    requires nTasks > 0
    ensures DealtTo([], nTasks, m) == []
  {
    if m > 0 { DealtToNone(nTasks, m - 1); }
  }

  /** Over all tasks, every view is dealt exactly once. */
  lemma {:induction false} EveryViewOnce(views: seq<Keyed>, nTasks: nat)
    requires nTasks > 0
    ensures multiset(DealtTo(views, nTasks, nTasks)) == multiset(views)
  {
    hide DealtTo; hide TaskOf;
    if views == [] {
      DealtToNone(nTasks, nTasks);
    } else {
      EveryViewOnce(views[1..], nTasks);
      DealtToStep(views, nTasks, nTasks);
      assert views == [views[0]] + views[1..];
    }
  }

  /** Less than a full round: one view for each task reached. */
  lemma {:induction false} ShortDeal(views: seq<Keyed>, nTasks: nat, k: nat)
    requires nTasks > 0 && |views| <= nTasks
    ensures Dealt(views, nTasks, k) == if k < |views| then [views[|views| - 1 - k]] else []
  {
    if views != [] { ShortDeal(views[1..], nTasks, k); }
  }

  /** The first round, and then the mirror image. */
  lemma {:induction false} DealRound(views: seq<Keyed>, nTasks: nat, k: nat)
    requires k < nTasks <= |views|
    ensures Dealt(views, nTasks, k) ==
      [views[|views| - 1 - k]] + Dealt(views[..|views| - nTasks], nTasks, nTasks - 1 - k)
  {
    var n := |views|;
    if n == nTasks {
      ShortDeal(views, nTasks, k);
    } else {
      DealRound(views[1..], nTasks, k);
      assert views[..n - nTasks][1..] == views[1..][..n - 1 - nTasks];
    }
  }

  /** Any two tasks get equally many views, up to one. */
  lemma {:induction false} CountsBalanced(views: seq<Keyed>, nTasks: nat, a: nat, b: nat)
    requires a < nTasks && b < nTasks
    ensures |Dealt(views, nTasks, a)| <= |Dealt(views, nTasks, b)| + 1
    decreases |views|
  {
    if |views| < nTasks {
      ShortDeal(views, nTasks, a);
      ShortDeal(views, nTasks, b);
    } else {
      DealRound(views, nTasks, a);
      DealRound(views, nTasks, b);
      CountsBalanced(views[..|views| - nTasks], nTasks, nTasks - 1 - a, nTasks - 1 - b);
    }
  }

  lemma RoundSizes(views: seq<Keyed>, nTasks: nat, k: nat)
    requires k < nTasks <= |views|
    ensures SumSizes(Dealt(views, nTasks, k)) ==
      views[|views| - 1 - k].size + SumSizes(Dealt(views[..|views| - nTasks], nTasks, nTasks - 1 - k))
  {
    hide Dealt;
    DealRound(views, nTasks, k);
  }

  lemma ShortSizes(views: seq<Keyed>, nTasks: nat, k: nat)
    requires nTasks > 0 && |views| <= nTasks
    ensures SumSizes(Dealt(views, nTasks, k)) == if k < |views| then views[|views| - 1 - k].size else 0
  {
    hide Dealt;
    ShortDeal(views, nTasks, k);
  }

  /**
   * Any two tasks' total sizes differ by at most the largest view: the spreads of the rounds
   * add up to no more than the whole range of sizes.
   */
  lemma {:induction false} SizesBalanced(views: seq<Keyed>, nTasks: nat, a: nat, b: nat)
    requires a < nTasks && b < nTasks && Ascending(views) && views != []
    ensures SumSizes(Dealt(views, nTasks, a)) <= SumSizes(Dealt(views, nTasks, b)) + views[|views| - 1].size
    decreases |views|
  {
    hide Dealt; hide SumSizes;
    var n := |views|;
    if n < nTasks {
      ShortSizes(views, nTasks, a);
      ShortSizes(views, nTasks, b);
    } else {
      var rest := views[..n - nTasks];
      RoundSizes(views, nTasks, a);
      RoundSizes(views, nTasks, b);
      if rest == [] {
        ShortSizes(rest, nTasks, nTasks - 1 - a);
      } else {
        SizesBalanced(rest, nTasks, nTasks - 1 - a, nTasks - 1 - b);
      }
    }
  }

  // ---------------------------------------------------------------------------
  // One task's job file
  // ---------------------------------------------------------------------------

  lemma {:induction false} OnesCons(b: bool, w: Bits)
    ensures Ones([b] + w) == Ones(w) + (if b then 1 else 0)
  {
    if w == [] {
      assert [b] + w == [] + [b];
      OnesSnoc([], b);
    } else {
      var n := |w| - 1;
      OnesCons(b, w[..n]);
      assert ([b] + w)[..n + 1] == [b] + w[..n];
    }
  }

  lemma NoOnes()
    ensures Ones([]) == 0
  {
  }

  lemma TopShiftLeft(n: nat, pos: nat)
    requires 1 <= pos < n
    ensures ShiftLeft(Top(n, pos), 1) == Top(n, pos - 1)
  {
  }

  /** countTupleOnes: the bits set among the low numDims bits. */
  method CountTupleOnes(binRepTuple: Bits, numDims: nat) returns (cnt: nat)
    requires |binRepTuple| == 64 && numDims <= 64
    ensures cnt == Ones(binRepTuple[64 - numDims..])
  {
    hide Top; hide And; hide NonZero; hide ShiftLeft; hide Ones;
    var ob := Top(64, 63);
    cnt := 0;
    var i := 0;
    NoOnes();
    assert binRepTuple[64..] == [];
    while i < numDims
      invariant 0 <= i <= numDims && cnt == Ones(binRepTuple[64 - i..]) && |ob| == 64
      invariant i < 64 ==> ob == Top(64, 63 - i)
    {
      TestBit(binRepTuple, 63 - i);
      OnesCons(binRepTuple[63 - i], binRepTuple[64 - i..]);
      assert binRepTuple[63 - i..] == [binRepTuple[63 - i]] + binRepTuple[64 - i..];
      if NonZero(And(binRepTuple, ob)) { cnt := cnt + 1; }
      if i < 63 { TopShiftLeft(64, 63 - i); }
      ob := ShiftLeft(ob, 1);
      i := i + 1;
    }
  }

  /** The dealing loop of MultiFileProcJobs. */
  method DealViews(tuplesAndSizes: seq<Keyed>, nTasks: nat, taskNumber: nat)
    returns (gbuf: seq<Bits>, nGroupbys: seq<nat>, vszs: seq<nat>)
    requires taskNumber < nTasks
    ensures gbuf == Tuples(Dealt(tuplesAndSizes, nTasks, taskNumber))
    ensures |nGroupbys| == |vszs| == nTasks
    ensures forall k :: 0 <= k < nTasks ==> nGroupbys[k] == |Dealt(tuplesAndSizes, nTasks, k)|
    ensures forall k :: 0 <= k < nTasks ==> vszs[k] == SumSizes(Dealt(tuplesAndSizes, nTasks, k))
  {
    hide Dealt; hide TaskOf; hide Downwards; hide SumSizes; hide Tuples; hide Tallied;
    NothingDealt(nTasks);
    NothingTallied(nTasks);
    gbuf, nGroupbys, vszs := [], seq(nTasks, _ => 0), seq(nTasks, _ => 0);
    var pn, direction, nViews := 0, false, |tuplesAndSizes|;
    var ii := nViews;
    assert tuplesAndSizes[nViews..] == [];
    while ii > 0
      invariant 0 <= ii <= nViews && pn == TaskOf(nViews - ii, nTasks)
      invariant direction == (nTasks > 1 && Downwards(nViews - ii, nTasks))
      invariant gbuf == Tuples(Dealt(tuplesAndSizes[ii..], nTasks, taskNumber))
      invariant Tallied(tuplesAndSizes[ii..], nTasks, nGroupbys, vszs)
    {
      ii := ii - 1;
      DealOne(tuplesAndSizes, nTasks, ii, taskNumber);
      ghost var mine := Dealt(tuplesAndSizes[ii + 1..], nTasks, taskNumber);
      assert mine + [] == mine;
      TallyNext(tuplesAndSizes, nTasks, ii, nGroupbys, vszs);
      var view := tuplesAndSizes[ii];
      if pn == taskNumber {
        TuplesSnoc(Dealt(tuplesAndSizes[ii + 1..], nTasks, pn), view);
        gbuf := gbuf + [view.tuple];
      }
      nGroupbys := nGroupbys[pn := nGroupbys[pn] + 1];
      vszs := vszs[pn := vszs[pn] + view.size];
      pn, direction := NextTask(pn, direction, nTasks, nViews - ii - 1);
    }
    assert tuplesAndSizes[0..] == tuplesAndSizes;
    TallyIs(tuplesAndSizes, nTasks, nGroupbys, vszs);
  }

  /** Every task's number of views and total size so far. */
  ghost predicate Tallied(views: seq<Keyed>, nTasks: nat, nGroupbys: seq<nat>, vszs: seq<nat>)
    requires nTasks > 0
  {
    && |nGroupbys| == |vszs| == nTasks
    && (forall k :: 0 <= k < nTasks ==> nGroupbys[k] == |Dealt(views, nTasks, k)|)
    && (forall k :: 0 <= k < nTasks ==> vszs[k] == SumSizes(Dealt(views, nTasks, k)))
  }

  lemma TallyIs(views: seq<Keyed>, nTasks: nat, nGroupbys: seq<nat>, vszs: seq<nat>)
    requires nTasks > 0 && Tallied(views, nTasks, nGroupbys, vszs)
    ensures |nGroupbys| == |vszs| == nTasks
    ensures forall k :: 0 <= k < nTasks ==> nGroupbys[k] == |Dealt(views, nTasks, k)|
    ensures forall k :: 0 <= k < nTasks ==> vszs[k] == SumSizes(Dealt(views, nTasks, k))
  {
  }

  lemma NothingTallied(nTasks: nat)
    requires nTasks > 0
    ensures Tallied([], nTasks, seq(nTasks, _ => 0), seq(nTasks, _ => 0))
  {
  }

  lemma TallyNext(views: seq<Keyed>, nTasks: nat, ii: nat, nGroupbys: seq<nat>, vszs: seq<nat>)
    requires nTasks > 0 && ii < |views| && Tallied(views[ii + 1..], nTasks, nGroupbys, vszs)
    ensures var pn := TaskOf(|views| - ii - 1, nTasks);
      && pn < |nGroupbys| && pn < |vszs|
      && Tallied(views[ii..], nTasks, nGroupbys[pn := nGroupbys[pn] + 1], vszs[pn := vszs[pn] + views[ii].size])
  {
    hide Dealt; hide TaskOf; hide SumSizes;
    forall k | 0 <= k < nTasks
      ensures |Dealt(views[ii..], nTasks, k)| == |Dealt(views[ii + 1..], nTasks, k)| + (if TaskOf(|views| - ii - 1, nTasks) == k then 1 else 0)
      ensures SumSizes(Dealt(views[ii..], nTasks, k)) ==
        SumSizes(Dealt(views[ii + 1..], nTasks, k)) + (if TaskOf(|views| - ii - 1, nTasks) == k then views[ii].size else 0)
    {
      DealOne(views, nTasks, ii, k);
    }
  }

  lemma NothingDealt(nTasks: nat)
    requires nTasks > 0
    ensures forall k :: Dealt([], nTasks, k) == []
    ensures SumSizes([]) == 0 && Tuples([]) == [] && TaskOf(0, nTasks) == 0 && !Downwards(0, nTasks)
  {
  }

  /** The two direction tests and the step. */
  method NextTask(pn0: nat, direction0: bool, nTasks: nat, ghost t: nat) returns (pn: nat, direction: bool)
    requires nTasks > 0 && pn0 == TaskOf(t, nTasks) && direction0 == (nTasks > 1 && Downwards(t, nTasks))
    ensures pn == TaskOf(t + 1, nTasks) && direction == (nTasks > 1 && Downwards(t + 1, nTasks))
  {
    pn, direction := pn0, direction0;
    var dChange := false;
    if !direction && pn == nTasks - 1 {
      direction, dChange := true, true;
    }
    if direction && pn == 0 {
      direction, dChange := false, true;
    }
    if !dChange { pn := if direction then pn - 1 else pn + 1; }
    if nTasks == 1 { OneTask(t); OneTask(t + 1); } else { MoveIsZigZag(t, nTasks); }
  }

  lemma OneSize(x: Keyed)
    ensures SumSizes([x]) == x.size
  {
    assert SumSizes([x]) == x.size + SumSizes([]);
  }

  /** View ii is dealt after the views behind it. */
  lemma DealOne(views: seq<Keyed>, nTasks: nat, ii: nat, k: nat)
    requires ii < |views| && k < nTasks
    ensures var mine := TaskOf(|views| - ii - 1, nTasks) == k;
      var before := Dealt(views[ii + 1..], nTasks, k);
      && Dealt(views[ii..], nTasks, k) == before + (if mine then [views[ii]] else [])
      && SumSizes(Dealt(views[ii..], nTasks, k)) == SumSizes(before) + (if mine then views[ii].size else 0)
  {
    hide SumSizes;
    assert views[ii..][1..] == views[ii + 1..];
    var before := Dealt(views[ii + 1..], nTasks, k);
    OneSize(views[ii]);
    SumSizesAppend(before, [views[ii]]);
    assert before + [] == before;
  }

  function Tuples(s: seq<Keyed>): (t: seq<Bits>)
    ensures |t| == |s|
  {
    seq(|s|, i requires 0 <= i < |s| => s[i].tuple)
  }

  lemma TuplesSnoc(s: seq<Keyed>, x: Keyed)
    ensures Tuples(s + [x]) == Tuples(s) + [x.tuple]
  {
  }

  // ---------------------------------------------------------------------------
  // The file
  // ---------------------------------------------------------------------------

  /** A tuple as written to the group-by file: its low nd bits moved to the top. */
  function Out(tuple: Bits, nd: nat): (w: Bits)
    requires nd <= 64
    ensures |tuple| == 64 ==> |w| == 64 && w[..nd] == tuple[64 - nd..]
  {
    if |tuple| == 64 then ShiftLeft(tuple, 64 - nd) else tuple
  }

  function OutAll(s: seq<Keyed>, nd: nat): (t: seq<Bits>)
    requires nd <= 64
    ensures |t| == |s|
  {
    seq(|s|, i requires 0 <= i < |s| => Out(s[i].tuple, nd))
  }

  lemma OutAllAppend(a: seq<Keyed>, b: seq<Keyed>, nd: nat)
    requires nd <= 64
    ensures OutAll(a + b, nd) == OutAll(a, nd) + OutAll(b, nd)
  {
  }

  lemma TakeOut<T>(t: seq<T>, i: nat)
    requires i < |t|
    ensures multiset(t) == multiset(t[..i] + t[i + 1..]) + multiset{t[i]}
  {
    assert t == t[..i] + [t[i]] + t[i + 1..];
  }

  lemma Cancel<T>(a: multiset<T>, b: multiset<T>, x: multiset<T>)
    requires a + x == b + x
    ensures a == b
  {
    assert a == (a + x) - x && b == (b + x) - x;
  }

  lemma RestRearranged<T>(s: seq<T>, t: seq<T>, i: nat)
    requires s != [] && i < |t| && t[i] == s[0] && multiset(s) == multiset(t)
    ensures multiset(s[1..]) == multiset(t[..i] + t[i + 1..])
  {
    TakeOut(s, 0);
    TakeOut(t, i);
    assert s[..0] + s[1..] == s[1..];
    Cancel(multiset(s[1..]), multiset(t[..i] + t[i + 1..]), multiset{s[0]});
  }

  lemma OutAllWithout(t: seq<Keyed>, i: nat, nd: nat)
    requires nd <= 64 && i < |t|
    ensures multiset(OutAll(t, nd)) == multiset(OutAll(t[..i] + t[i + 1..], nd)) + multiset{Out(t[i].tuple, nd)}
  {
    var y := OutAll(t, nd);
    TakeOut(y, i);
    assert y[..i] + y[i + 1..] == OutAll(t[..i] + t[i + 1..], nd);
  }

  /** Rearranging records rearranges what is written of them. */
  lemma {:induction false} OutAllRearranged(s: seq<Keyed>, t: seq<Keyed>, nd: nat)
    requires nd <= 64 && multiset(s) == multiset(t)
    ensures multiset(OutAll(s, nd)) == multiset(OutAll(t, nd))
  {
    hide OutAll; hide Out;
    assert |s| == |multiset(s)| == |multiset(t)| == |t|;
    if s != [] {
      assert s[0] in multiset(t);
      var i :| 0 <= i < |t| && t[i] == s[0];
      RestRearranged(s, t, i);
      OutAllRearranged(s[1..], t[..i] + t[i + 1..], nd);
      OutAllWithout(s, 0, nd);
      OutAllWithout(t, i, nd);
      assert s[..0] + s[1..] == s[1..];
    } else {
      assert s == t;
    }
  }

  function Reversed<T>(s: seq<T>): (t: seq<T>)
    ensures |t| == |s| && multiset(t) == multiset(s)
  {
    if s == [] then []
    else
      assert s == [s[0]] + s[1..];
      Reversed(s[1..]) + [s[0]]
  }

  lemma {:induction false} ReversedAt<T>(s: seq<T>, i: nat)
    requires i < |s|
    ensures Reversed(s)[i] == s[|s| - 1 - i]
  {
    if i < |s| - 1 { ReversedAt(s[1..], i); }
  }

  /** Group-bys with more dimensions first. */
  ghost predicate LargestFirst(file: seq<Bits>, nd: nat) {
    && (forall i :: 0 <= i < |file| ==> nd <= |file[i]|)
    && (forall i, j :: 0 <= i <= j < |file| ==> Ones(file[i][..nd]) >= Ones(file[j][..nd]))
  }

  /** The records of onessort: tuples with their numbers of dimensions. */
  ghost predicate Counted(s: seq<Keyed>, nd: nat)
    requires nd <= 64
  {
    forall i :: 0 <= i < |s| ==> |s[i].tuple| == 64 && s[i].size == Ones(s[i].tuple[64 - nd..])
  }

  lemma CountedRearranged(s: seq<Keyed>, t: seq<Keyed>, nd: nat)
    requires nd <= 64 && Counted(s, nd) && multiset(s) == multiset(t)
    ensures Counted(t, nd)
  {
    forall i | 0 <= i < |t| ensures |t[i].tuple| == 64 && t[i].size == Ones(t[i].tuple[64 - nd..]) {
      assert t[i] in multiset(s);
    }
  }

  lemma AscendingReversed(s: seq<Keyed>, nd: nat)
    requires nd <= 64 && Counted(s, nd) && Ascending(s)
    ensures LargestFirst(Reversed(OutAll(s, nd)), nd)
  {
    hide Ones; hide ShiftLeft; hide Reversed;
    var file := Reversed(OutAll(s, nd));
    forall i | 0 <= i < |file| ensures file[i] == OutAll(s, nd)[|s| - 1 - i] {
      ReversedAt(OutAll(s, nd), i);
    }
    assert forall i :: 0 <= i < |file| ==> nd <= |file[i]| && file[i][..nd] == s[|s| - 1 - i].tuple[64 - nd..];
  }

  /** Counts the dimensions of the task's tuples. */
  method CountAll(gbuf: seq<Bits>, toptr: array<Keyed>, nd: nat)
    requires nd <= 64 && |gbuf| <= toptr.Length && forall j :: 0 <= j < |gbuf| ==> |gbuf[j]| == 64
    modifies toptr
    ensures Tuples(toptr[..|gbuf|]) == gbuf && Counted(toptr[..|gbuf|], nd)
  {
    var j := 0;
    while j < |gbuf|
      invariant 0 <= j <= |gbuf|
      invariant forall i :: 0 <= i < j ==> toptr[i].tuple == gbuf[i] && toptr[i].size == Ones(gbuf[i][64 - nd..])
    {
      var ones := CountTupleOnes(gbuf[j], nd);
      toptr[j] := Keyed(ones, gbuf[j]);
      j := j + 1;
    }
  }

  lemma ReversedStep(s: seq<Keyed>, nd: nat)
    requires nd <= 64 && s != [] && |s[0].tuple| == 64
    ensures Reversed(OutAll(s, nd)) == Reversed(OutAll(s[1..], nd)) + [ShiftLeft(s[0].tuple, 64 - nd)]
  {
    assert OutAll(s, nd)[1..] == OutAll(s[1..], nd);
  }

  /** The writing loop, from the last record down. */
  method WriteTuples(toptr: array<Keyed>, n: nat, nd: nat) returns (groupbyFile: seq<Bits>)
    requires n <= toptr.Length && nd <= 64 && forall j :: 0 <= j < n ==> |toptr[j].tuple| == 64
    ensures groupbyFile == Reversed(OutAll(toptr[..n], nd))
  {
    hide Reversed; hide OutAll; hide ShiftLeft;
    groupbyFile := [];
    var j := 0;
    ghost var all := toptr[..n];
    NothingReversed(all[n..], nd);
    while j < n
      invariant 0 <= j <= n && all == toptr[..n] && groupbyFile == Reversed(OutAll(all[n - j..], nd))
    {
      var tuple := toptr[n - 1 - j].tuple;
      ReversedStep(all[n - 1 - j..], nd);
      assert all[n - 1 - j..][1..] == all[n - j..] && all[n - 1 - j..][0].tuple == tuple;
      groupbyFile := groupbyFile + [ShiftLeft(tuple, 64 - nd)];
      j := j + 1;
    }
    assert all[0..] == all;
  }

  lemma NothingReversed(s: seq<Keyed>, nd: nat)
    requires nd <= 64 && s == []
    ensures Reversed(OutAll(s, nd)) == []
  {
  }

  /** The largest group-by count over all tasks. */
  method MaxCount(nGroupbys: seq<nat>) returns (maxn: nat)
    ensures forall k :: 0 <= k < |nGroupbys| ==> nGroupbys[k] <= maxn
  {
    maxn := 0;
    var i := 0;
    while i < |nGroupbys|
      invariant 0 <= i <= |nGroupbys| && forall k :: 0 <= k < i ==> nGroupbys[k] <= maxn
    {
      if nGroupbys[i] > maxn { maxn := nGroupbys[i]; }
      i := i + 1;
    }
  }

  lemma {:induction false} DealtMembers(views: seq<Keyed>, nTasks: nat, k: nat, x: Keyed)
    requires nTasks > 0 && x in Dealt(views, nTasks, k)
    ensures x in views
  {
    if x in Dealt(views[1..], nTasks, k) {
      DealtMembers(views[1..], nTasks, k, x);
    }
  }

  /**
   * MultiFileProcJobs for one task: its file holds exactly the group-bys dealt to it, those
   * with more dimensions first.
   */
  method MultiFileProcJobs(tuplesAndSizes: seq<Keyed>, nTasks: nat, taskNumber: nat, nd: nat) returns (groupbyFile: seq<Bits>)
    requires taskNumber < nTasks && nd <= 64
    requires forall i :: 0 <= i < |tuplesAndSizes| ==> |tuplesAndSizes[i].tuple| == 64
    ensures multiset(groupbyFile) == multiset(OutAll(Dealt(tuplesAndSizes, nTasks, taskNumber), nd))
    ensures LargestFirst(groupbyFile, nd)
  {
    hide Dealt; hide OutAll; hide Ascending; hide HeapSorted; hide Rearranged; hide LargestFirst; hide Reversed; hide Counted;
    ghost var mine := Dealt(tuplesAndSizes, nTasks, taskNumber);
    var gbuf, nGroupbys, vszs := DealViews(tuplesAndSizes, nTasks, taskNumber);
    var maxn := MaxCount(nGroupbys);
    forall j | 0 <= j < |gbuf| ensures |gbuf[j]| == 64 {
      DealtMembers(tuplesAndSizes, nTasks, taskNumber, mine[j]);
    }
    var toptr := new Keyed[maxn](_ => Keyed(0, []));
    var n := nGroupbys[taskNumber];
    CountAll(gbuf, toptr, nd);
    ghost var unsorted := toptr[..];
    Sort(toptr, n);
    SortedCounts(unsorted, toptr[..], n, nd, mine);
    groupbyFile := WriteTuples(toptr, n, nd);
    assert toptr[..n] == toptr[..][..n];
  }

  lemma SortedCounts(s: seq<Keyed>, t: seq<Keyed>, n: nat, nd: nat, mine: seq<Keyed>)
    requires n <= |s| && nd <= 64 && t == HeapSorted(s, n)
    requires Counted(s[..n], nd) && Tuples(s[..n]) == Tuples(mine)
    ensures |t| == |s| && forall j :: 0 <= j < n ==> |t[j].tuple| == 64
    ensures multiset(OutAll(t[..n], nd)) == multiset(OutAll(mine, nd))
    ensures LargestFirst(Reversed(OutAll(t[..n], nd)), nd)
  {
    HeapSortSorts(s, n);
    CountedRearranged(s[..n], t[..n], nd);
    AscendingReversed(t[..n], nd);
    OutAllRearranged(s[..n], t[..n], nd);
    assert |Tuples(mine)| == |mine|;
    forall i | 0 <= i < n ensures s[i].tuple == mine[i].tuple {
      assert Tuples(s[..n])[i] == Tuples(mine)[i];
    }
    assert OutAll(s[..n], nd) == OutAll(mine, nd);
    assert forall j :: 0 <= j < n ==> t[..n][j] == t[j];
  }

  /** Read in file order, no group-by comes after one of its strict subsets. */
  lemma NoSupersetLater(file: seq<Bits>, nd: nat, i: nat, j: nat)
    requires LargestFirst(file, nd) && i < j < |file| && SubMask(file[i][..nd], file[j][..nd])
    ensures file[i][..nd] == file[j][..nd]
  {
    OnesMonotone(file[i][..nd], file[j][..nd]);
  }

  // ---------------------------------------------------------------------------
  // All tasks together
  // ---------------------------------------------------------------------------

  /** One entry of the view-sizes file: the view's dimensions and its predicted size. */
  datatype ViewSize = ViewSize(selection: seq<nat>, size: nat)

  /** The mask CreateBinTuple makes. */
  ghost function MaskOf(selection: seq<nat>): (w: Bits)
    ensures |w| == 64
  {
    seq(64, p => p + 1 in selection)
  }

  ghost function MasksOf(views: seq<ViewSize>): (s: seq<Bits>)
    ensures |s| == |views|
  {
    seq(|views|, i requires 0 <= i < |views| => MaskOf(views[i].selection))
  }

  /** The table PartitionCube fills; sizes are capped at the number of input records. */
  ghost function Given(views: seq<ViewSize>, nInputRecs: nat): (s: seq<Keyed>)
    ensures |s| == |views|
  {
    seq(|views|, i requires 0 <= i < |views| =>
      Keyed(if views[i].size > nInputRecs then nInputRecs else views[i].size, MaskOf(views[i].selection)))
  }

  function LowBits(s: seq<Keyed>, nd: nat): (t: seq<Keyed>)
    requires nd <= 64 && forall i :: 0 <= i < |s| ==> |s[i].tuple| == 64
    ensures |t| == |s|
  {
    seq(|s|, i requires 0 <= i < |s| => Keyed(s[i].size, ShiftRight(s[i].tuple, 64 - nd)))
  }

  /** The table every task deals from. */
  ghost function Table(views: seq<ViewSize>, nInputRecs: nat, nd: nat): (t: seq<Keyed>)
    requires nd <= 64
    ensures |t| == |views| && forall i :: 0 <= i < |t| ==> |t[i].tuple| == 64
  {
    SortedMasks(views, nInputRecs);
    LowBits(HeapSorted(Given(views, nInputRecs), |views|), nd)
  }

  lemma SortedMasks(views: seq<ViewSize>, nInputRecs: nat)
    ensures var s := HeapSorted(Given(views, nInputRecs), |views|);
      && |s| == |views| && Ascending(s) && multiset(s) == multiset(Given(views, nInputRecs))
      && forall i :: 0 <= i < |s| ==> |s[i].tuple| == 64
  {
    var g := Given(views, nInputRecs);
    var s := HeapSorted(g, |views|);
    HeapSortSorts(g, |views|);
    assert s[..|views|] == s && g[..|views|] == g;
    forall i | 0 <= i < |s| ensures |s[i].tuple| == 64 {
      assert s[i] in multiset(g);
    }
  }

  lemma TableAscending(views: seq<ViewSize>, nInputRecs: nat, nd: nat)
    requires nd <= 64
    ensures Ascending(Table(views, nInputRecs, nd))
  {
    SortedMasks(views, nInputRecs);
    hide HeapSorted;
  }

  /** Dimensions 1..nd only. */
  ghost predicate InRange(views: seq<ViewSize>, nd: nat) {
    forall i, j :: 0 <= i < |views| && 0 <= j < |views[i].selection| ==> 1 <= views[i].selection[j] <= nd
  }

  /** The two shifts restore a mask of dimensions 1..nd. */
  lemma ShiftsCancel(w: Bits, nd: nat)
    requires |w| == 64 && nd <= 64 && forall i :: nd <= i < 64 ==> !w[i]
    ensures Out(ShiftRight(w, 64 - nd), nd) == w
  {
  }

  /** The table's masks, before the shift to the low end, survive both shifts. */
  lemma SortedInRange(views: seq<ViewSize>, nInputRecs: nat, nd: nat)
    requires nd <= 64 && InRange(views, nd)
    ensures var s := HeapSorted(Given(views, nInputRecs), |views|);
      forall i :: 0 <= i < |s| ==> |s[i].tuple| == 64 && Out(ShiftRight(s[i].tuple, 64 - nd), nd) == s[i].tuple
  {
    var g := Given(views, nInputRecs);
    var s := HeapSorted(g, |views|);
    SortedMasks(views, nInputRecs);
    hide HeapSorted; hide Out; hide ShiftRight;
    forall i | 0 <= i < |s| ensures |s[i].tuple| == 64 && Out(ShiftRight(s[i].tuple, 64 - nd), nd) == s[i].tuple {
      assert s[i] in multiset(g);
      var k :| 0 <= k < |g| && g[k] == s[i];
      ShiftsCancel(s[i].tuple, nd);
    }
  }

  /** What all tasks write together is the given views' masks. */
  lemma TableOut(views: seq<ViewSize>, nInputRecs: nat, nd: nat)
    requires nd <= 64 && InRange(views, nd)
    ensures multiset(OutAll(Table(views, nInputRecs, nd), nd)) == multiset(MasksOf(views))
  {
    var g := Given(views, nInputRecs);
    var s := HeapSorted(g, |views|);
    SortedMasks(views, nInputRecs);
    SortedInRange(views, nInputRecs, nd);
    hide HeapSorted; hide Out; hide ShiftRight;
    forall i | 0 <= i < |s| ensures Out(s[i].tuple, 64) == s[i].tuple { WholeWord(s[i].tuple); }
    assert OutAll(Table(views, nInputRecs, nd), nd) == OutAll(s, 64);
    OutAllRearranged(s, g, 64);
    forall i | 0 <= i < |g| ensures Out(g[i].tuple, 64) == g[i].tuple { WholeWord(g[i].tuple); }
    assert OutAll(g, 64) == MasksOf(views);
  }

  lemma WholeWord(w: Bits)
    requires |w| == 64
    ensures Out(w, 64) == w
  {
  }

  /** All tasks' files, one after the other. */
  ghost function Together(files: seq<seq<Bits>>): seq<Bits> {
    if files == [] then [] else Together(files[..|files| - 1]) + files[|files| - 1]
  }

  /** Task k's file as MultiFileProcJobs leaves it. */
  ghost predicate TaskFile(file: seq<Bits>, views: seq<ViewSize>, nInputRecs: nat, nd: nat, nTasks: nat, k: nat)
    requires nTasks > 0 && nd <= 64
  {
    multiset(file) == multiset(OutAll(Dealt(Table(views, nInputRecs, nd), nTasks, k), nd))
  }

  lemma {:induction false} TogetherDealt(files: seq<seq<Bits>>, views: seq<ViewSize>, nInputRecs: nat, nd: nat, nTasks: nat)
    requires nTasks > 0 && nd <= 64
    requires forall k :: 0 <= k < |files| ==> TaskFile(files[k], views, nInputRecs, nd, nTasks, k)
    ensures multiset(Together(files)) == multiset(OutAll(DealtTo(Table(views, nInputRecs, nd), nTasks, |files|), nd))
  {
    hide Table; hide OutAll; hide Dealt;
    if files == [] {
      NothingOut(nd);
    } else {
      var m := |files| - 1;
      TogetherDealt(files[..m], views, nInputRecs, nd, nTasks);
      var t := Table(views, nInputRecs, nd);
      OutAllAppend(DealtTo(t, nTasks, m), Dealt(t, nTasks, m), nd);
      assert TaskFile(files[m], views, nInputRecs, nd, nTasks, m);
    }
  }

  lemma NothingOut(nd: nat)
    requires nd <= 64
    ensures OutAll([], nd) == []
  {
  }

  /** The tasks' files together list every view exactly once. */
  lemma JobsCoverViews(files: seq<seq<Bits>>, views: seq<ViewSize>, nInputRecs: nat, nd: nat)
    requires |files| > 0 && nd <= 64 && InRange(views, nd)
    requires forall k :: 0 <= k < |files| ==> TaskFile(files[k], views, nInputRecs, nd, |files|, k)
    ensures multiset(Together(files)) == multiset(MasksOf(views))
  {
    var t := Table(views, nInputRecs, nd);
    TogetherDealt(files, views, nInputRecs, nd, |files|);
    EveryViewOnce(t, |files|);
    OutAllRearranged(DealtTo(t, |files|, |files|), t, nd);
    TableOut(views, nInputRecs, nd);
  }

  lemma {:induction false} DealtToHas(views: seq<Keyed>, nTasks: nat, k: nat, m: nat, nd: nat)
    requires k < m && nTasks > 0 && nd <= 64
    ensures multiset(OutAll(Dealt(views, nTasks, k), nd)) <= multiset(OutAll(DealtTo(views, nTasks, m), nd))
  {
    hide Dealt; hide OutAll;
    OutAllAppend(DealtTo(views, nTasks, m - 1), Dealt(views, nTasks, m - 1), nd);
    if k < m - 1 { DealtToHas(views, nTasks, k, m - 1, nd); }
  }

  predicate Distinct(s: seq<Bits>) {
    forall i, j :: 0 <= i < j < |s| ==> s[i] != s[j]
  }

  lemma {:induction false} DistinctCounts(s: seq<Bits>, x: Bits)
    requires Distinct(s)
    ensures multiset(s)[x] <= 1
  {
    if s != [] {
      DistinctCounts(s[1..], x);
      assert s == [s[0]] + s[1..];
      assert s[0] !in s[1..];
    }
  }

  lemma PartDistinct(part: seq<Bits>, all: seq<Bits>)
    requires Distinct(all) && multiset(part) <= multiset(all)
    ensures Distinct(part)
  {
    forall i, j | 0 <= i < j < |part| ensures part[i] != part[j] {
      DistinctCounts(all, part[i]);
      assert part == part[..j] + part[j..] && part[i] in part[..j] && part[j] in part[j..];
      assert multiset(part)[part[i]] == multiset(part[..j])[part[i]] + multiset(part[j..])[part[i]];
    }
  }

  /** A task's file is a job that ComputeGivenGroupbys accepts: distinct, non-empty group-bys. */
  lemma JobIsRequests(cube: Cube, file: seq<Bits>, views: seq<ViewSize>, nInputRecs: nat, nTasks: nat, k: nat)
    requires k < nTasks && cube.nTopDims <= 64 && InRange(views, cube.nTopDims)
    requires TaskFile(file, views, nInputRecs, cube.nTopDims, nTasks, k)
    requires Distinct(MasksOf(views)) && forall i :: 0 <= i < |views| ==> views[i].selection != []
    ensures cube.Requests(file)
  {
    var nd := cube.nTopDims;
    var t := Table(views, nInputRecs, nd);
    DealtToHas(t, nTasks, k, nTasks, nd);
    EveryViewOnce(t, nTasks);
    OutAllRearranged(DealtTo(t, nTasks, nTasks), t, nd);
    TableOut(views, nInputRecs, nd);
    PartDistinct(file, MasksOf(views));
    hide *;
    RequestsIf(cube, file, views);
  }

  lemma RequestsIf(cube: Cube, file: seq<Bits>, views: seq<ViewSize>)
    requires cube.nTopDims <= 64 && InRange(views, cube.nTopDims) && forall i :: 0 <= i < |views| ==> views[i].selection != []
    requires Distinct(file) && multiset(file) <= multiset(MasksOf(views))
    ensures cube.Requests(file)
  {
    var nd := cube.nTopDims;
    forall i | 0 <= i < |file|
      ensures cube.Request(file[i]) && forall p :: nd <= p < 64 ==> !file[i][p]
    {
      assert file[i] in multiset(MasksOf(views));
      var k :| 0 <= k < |views| && MasksOf(views)[k] == file[i];
      var d := views[k].selection[0];
      assert file[i][..nd][d - 1];
    }
    forall i, j | 0 <= i < j < |file| ensures file[i][..nd] != file[j][..nd] {
      assert file[i] == file[i][..nd] + file[i][nd..] && file[j] == file[j][..nd] + file[j][nd..];
      assert file[i][nd..] == file[j][nd..];
    }
  }

  // ---------------------------------------------------------------------------
  // The files against the list of views
  // ---------------------------------------------------------------------------

  /** The sizes of the listed views that a file names, none counted above the number of input records. */
  ghost function FileSize(views: seq<ViewSize>, nInputRecs: nat, file: seq<Bits>): nat {
    if views == [] then 0
    else
      var n := |views| - 1;
      FileSize(views[..n], nInputRecs, file) +
        (if MaskOf(views[n].selection) !in file then 0 else if views[n].size < nInputRecs then views[n].size else nInputRecs)
  }

  lemma {:induction false} FileSizeSame(views: seq<ViewSize>, nInputRecs: nat, file: seq<Bits>, file': seq<Bits>)
    requires forall i :: 0 <= i < |views| ==> (MasksOf(views)[i] in file <==> MasksOf(views)[i] in file')
    ensures FileSize(views, nInputRecs, file) == FileSize(views, nInputRecs, file')
  {
    if views != [] {
      var n := |views| - 1;
      forall i | 0 <= i < n ensures MasksOf(views[..n])[i] in file <==> MasksOf(views[..n])[i] in file' {
        assert MasksOf(views[..n])[i] == MasksOf(views)[i];
      }
      FileSizeSame(views[..n], nInputRecs, file, file');
      assert MasksOf(views)[n] == MaskOf(views[n].selection);
    }
  }

  lemma GivenSnoc(views: seq<ViewSize>, nInputRecs: nat)
    requires views != []
    ensures var n := |views| - 1;
      var x := Keyed(if views[n].size < nInputRecs then views[n].size else nInputRecs, MaskOf(views[n].selection));
      Given(views, nInputRecs) == Given(views[..n], nInputRecs) + [x]
    ensures MasksOf(views) == MasksOf(views[..|views| - 1]) + [MaskOf(views[|views| - 1].selection)]
  {
  }

  lemma {:induction false} SumSizesWithout(d: seq<Keyed>, i: nat)
    requires i < |d|
    ensures SumSizes(d) == SumSizes(d[..i] + d[i + 1..]) + d[i].size
  {
    assert d == d[..i] + ([d[i]] + d[i + 1..]);
    SumSizesAppend(d[..i], [d[i]] + d[i + 1..]);
    SumSizesAppend(d[..i], d[i + 1..]);
  }

  lemma GivenHas(views: seq<ViewSize>, nInputRecs: nat, x: Keyed)
    requires x in Given(views, nInputRecs)
    ensures x.tuple in MasksOf(views)
  {
    var i :| 0 <= i < |views| && Given(views, nInputRecs)[i] == x;
    assert MasksOf(views)[i] == x.tuple;
  }

  lemma TuplesHas(d: seq<Keyed>, w: Bits)
    ensures w in Tuples(d) <==> exists i :: 0 <= i < |d| && d[i].tuple == w
  {
    if i :| 0 <= i < |d| && d[i].tuple == w { assert Tuples(d)[i] == w; }
  }

  /** A part of the table, as a file: its sizes add up to those of the views it names. */
  lemma {:induction false} FileSizeIs(views: seq<ViewSize>, nInputRecs: nat, d: seq<Keyed>)
    requires Distinct(MasksOf(views)) && multiset(d) <= multiset(Given(views, nInputRecs))
    ensures FileSize(views, nInputRecs, Tuples(d)) == SumSizes(d)
  {
    if views == [] {
      assert |d| == |multiset(d)| == 0;
    } else {
      var n := |views| - 1;
      var front, w := views[..n], MaskOf(views[n].selection);
      GivenSnoc(views, nInputRecs);
      FrontDistinct(MasksOf(front), w);
      TuplesHas(d, w);
      hide MaskOf; hide Given; hide MasksOf; hide Tuples; hide SumSizes; hide Distinct;
      var x := Keyed(if views[n].size < nInputRecs then views[n].size else nInputRecs, w);
      if i :| 0 <= i < |d| && d[i].tuple == w {
        var rest := d[..i] + d[i + 1..];
        PartOf(d, i, Given(front, nInputRecs), x, nInputRecs, front);
        SumSizesWithout(d, i);
        FileSizeIs(front, nInputRecs, rest);
        forall j | 0 <= j < n ensures MasksOf(front)[j] in Tuples(rest) <==> MasksOf(front)[j] in Tuples(d) {
          TuplesHas(rest, MasksOf(front)[j]);
          TuplesHas(d, MasksOf(front)[j]);
          SkipOne(d, i, MasksOf(front)[j]);
        }
        FileSizeSame(front, nInputRecs, Tuples(rest), Tuples(d));
      } else {
        NotUsed(d, Given(front, nInputRecs), x);
        FileSizeIs(front, nInputRecs, d);
      }
    }
  }

  lemma FrontDistinct(front: seq<Bits>, w: Bits)
    requires Distinct(front + [w])
    ensures Distinct(front) && w !in front
  {
    forall i | 0 <= i < |front| ensures front[i] != w { assert (front + [w])[i] == front[i] && (front + [w])[|front|] == w; }
    forall i, j | 0 <= i < j < |front| ensures front[i] != front[j] { assert (front + [w])[i] == front[i] && (front + [w])[j] == front[j]; }
  }

  /** The entry with the last view's mask is the last view's, so that the others are of the views before. */
  lemma PartOf(d: seq<Keyed>, i: nat, front: seq<Keyed>, x: Keyed, nInputRecs: nat, views: seq<ViewSize>)
    requires i < |d| && d[i].tuple == x.tuple && multiset(d) <= multiset(front + [x])
    requires front == Given(views, nInputRecs) && x.tuple !in MasksOf(views)
    ensures d[i] == x && multiset(d[..i] + d[i + 1..]) <= multiset(front)
  {
    assert d[i] in multiset(front + [x]);
    if d[i] in front { GivenHas(views, nInputRecs, d[i]); }
    TakeOut(d, i);
    CancelOne(multiset(d[..i] + d[i + 1..]), multiset(front), x);
  }

  lemma CancelOne(a: multiset<Keyed>, b: multiset<Keyed>, x: Keyed)
    requires a + multiset{x} <= b + multiset{x}
    ensures a <= b
  {
    forall y ensures a[y] <= b[y] { assert (a + multiset{x})[y] <= (b + multiset{x})[y]; }
  }

  lemma NotUsed(d: seq<Keyed>, front: seq<Keyed>, x: Keyed)
    requires multiset(d) <= multiset(front + [x]) && forall i :: 0 <= i < |d| ==> d[i].tuple != x.tuple
    ensures multiset(d) <= multiset(front)
  {
    assert x !in d;
    assert multiset(front + [x]) == multiset(front) + multiset{x};
  }

  lemma SkipOne(d: seq<Keyed>, i: nat, w: Bits)
    requires i < |d| && d[i].tuple != w
    ensures w in Tuples(d[..i] + d[i + 1..]) <==> w in Tuples(d)
  {
    var rest := d[..i] + d[i + 1..];
    if j :| 0 <= j < |d| && Tuples(d)[j] == w { assert Tuples(rest)[if j < i then j else j - 1] == w; }
    if j :| 0 <= j < |rest| && Tuples(rest)[j] == w { assert Tuples(d)[if j < i then j else j + 1] == w; }
  }

  /** A task's share of the table without the two shifts. */
  lemma {:induction false} DealtLow(s: seq<Keyed>, nd: nat, nTasks: nat, k: nat)
    requires nTasks > 0 && nd <= 64
    requires forall i :: 0 <= i < |s| ==> |s[i].tuple| == 64 && Out(ShiftRight(s[i].tuple, 64 - nd), nd) == s[i].tuple
    ensures OutAll(Dealt(LowBits(s, nd), nTasks, k), nd) == Tuples(Dealt(s, nTasks, k))
  {
    hide Out; hide ShiftRight; hide TaskOf;
    if s != [] {
      DealtLow(s[1..], nd, nTasks, k);
      var low := LowBits(s, nd);
      assert low[1..] == LowBits(s[1..], nd);
      if TaskOf(|s| - 1, nTasks) == k {
        OutAllAppend(Dealt(low[1..], nTasks, k), [low[0]], nd);
        TuplesSnoc(Dealt(s[1..], nTasks, k), s[0]);
      } else {
        assert Dealt(low, nTasks, k) == Dealt(low[1..], nTasks, k) && Dealt(s, nTasks, k) == Dealt(s[1..], nTasks, k);
      }
    }
  }

  lemma {:induction false} DealtPart(views: seq<Keyed>, nTasks: nat, k: nat)
    requires nTasks > 0
    ensures multiset(Dealt(views, nTasks, k)) <= multiset(views)
  {
    hide TaskOf;
    if views != [] {
      DealtPart(views[1..], nTasks, k);
      assert views == [views[0]] + views[1..];
    }
  }

  /** What task k's file names: its share of the sorted views. */
  lemma FileIsShare(file: seq<Bits>, views: seq<ViewSize>, nInputRecs: nat, nd: nat, nTasks: nat, k: nat)
    requires nTasks > 0 && nd <= 64 && InRange(views, nd) && TaskFile(file, views, nInputRecs, nd, nTasks, k)
    ensures var d := Dealt(HeapSorted(Given(views, nInputRecs), |views|), nTasks, k);
      multiset(file) == multiset(Tuples(d)) && |file| == |d| && multiset(d) <= multiset(Given(views, nInputRecs))
  {
    var s := HeapSorted(Given(views, nInputRecs), |views|);
    SortedMasks(views, nInputRecs);
    SortedInRange(views, nInputRecs, nd);
    hide HeapSorted; hide Given; hide Out; hide ShiftRight;
    DealtLow(s, nd, nTasks, k);
    DealtPart(s, nTasks, k);
    assert |file| == |multiset(file)|;
    assert |Tuples(Dealt(s, nTasks, k))| == |multiset(Tuples(Dealt(s, nTasks, k)))|;
  }

  lemma FileTotal(file: seq<Bits>, views: seq<ViewSize>, nInputRecs: nat, nd: nat, nTasks: nat, k: nat)
    requires nTasks > 0 && nd <= 64 && InRange(views, nd) && TaskFile(file, views, nInputRecs, nd, nTasks, k)
    requires Distinct(MasksOf(views))
    ensures FileSize(views, nInputRecs, file) == SumSizes(Dealt(HeapSorted(Given(views, nInputRecs), |views|), nTasks, k))
  {
    hide HeapSorted; hide Given; hide Dealt; hide MasksOf; hide SumSizes; hide TaskFile;
    FileIsShare(file, views, nInputRecs, nd, nTasks, k);
    var d := Dealt(HeapSorted(Given(views, nInputRecs), |views|), nTasks, k);
    FileSizeIs(views, nInputRecs, d);
    SameMembers(file, Tuples(d));
    FileSizeSame(views, nInputRecs, file, Tuples(d));
  }

  lemma SameMembers(a: seq<Bits>, b: seq<Bits>)
    requires multiset(a) == multiset(b)
    ensures forall w :: w in a <==> w in b
  {
    assert forall w :: w in a <==> w in multiset(a);
  }

  /**
   * The files of any two tasks name equally many views, up to one, and their total sizes differ
   * by no more than the largest listed view, each view counted with at most the number of input
   * records.
   */
  lemma FilesBalanced(f: seq<Bits>, g: seq<Bits>, views: seq<ViewSize>, nInputRecs: nat, nd: nat, nTasks: nat, a: nat, b: nat, largest: nat)
    requires a < nTasks && b < nTasks && nd <= 64 && InRange(views, nd) && Distinct(MasksOf(views))
    requires TaskFile(f, views, nInputRecs, nd, nTasks, a) && TaskFile(g, views, nInputRecs, nd, nTasks, b)
    requires forall i :: 0 <= i < |views| ==> views[i].size <= largest || nInputRecs <= largest
    ensures |f| <= |g| + 1
    ensures FileSize(views, nInputRecs, f) <= FileSize(views, nInputRecs, g) + largest
  {
    var s := HeapSorted(Given(views, nInputRecs), |views|);
    SortedBounded(views, nInputRecs, largest);
    hide HeapSorted; hide Dealt; hide TaskFile; hide SumSizes; hide MasksOf; hide Given; hide Tuples; hide FileSize;
    FileIsShare(f, views, nInputRecs, nd, nTasks, a);
    FileIsShare(g, views, nInputRecs, nd, nTasks, b);
    FileTotal(f, views, nInputRecs, nd, nTasks, a);
    FileTotal(g, views, nInputRecs, nd, nTasks, b);
    CountsBalanced(s, nTasks, a, b);
    if s == [] {
      ShortSizes(s, nTasks, a);
    } else {
      SizesBalanced(s, nTasks, a, b);
    }
  }

  lemma SortedBounded(views: seq<ViewSize>, nInputRecs: nat, largest: nat)
    requires forall i :: 0 <= i < |views| ==> views[i].size <= largest || nInputRecs <= largest
    ensures var s := HeapSorted(Given(views, nInputRecs), |views|);
      Ascending(s) && forall i :: 0 <= i < |s| ==> s[i].size <= largest
  {
    SortedMasks(views, nInputRecs);
    var s := HeapSorted(Given(views, nInputRecs), |views|);
    hide HeapSorted; hide MaskOf;
    forall i | 0 <= i < |s| ensures s[i].size <= largest {
      assert s[i] in multiset(Given(views, nInputRecs));
    }
  }

  /** Task t of the zig-zag: every other round runs backwards. */
  lemma {:induction false} TaskOfIs(t: nat, nTasks: nat)
    requires nTasks > 0
    ensures TaskOf(t, nTasks) == if t / nTasks % 2 == 0 then t % nTasks else nTasks - 1 - t % nTasks
    decreases t
  {
    if t >= nTasks {
      TaskOfIs(t - nTasks, nTasks);
      NextRound(t, nTasks);
    }
  }

  lemma NextRound(t: nat, n: nat)
    requires 0 < n <= t
    ensures t / n == (t - n) / n + 1 && t % n == (t - n) % n
  {
    var q, r := (t - n) / n, (t - n) % n;
    assert t - n == q * n + r;
    Distribute(q, 1, n);
    QuotientUnique(t, n, q + 1);
    ModOf(t, n, q + 1, r);
  }

  /** The t-th view dealt goes to task k and has mask w. */
  predicate Gets(views: seq<Keyed>, nTasks: nat, k: nat, w: Bits, t: nat)
    requires nTasks > 0
  {
    t < |views| && TaskOf(t, nTasks) == k && views[|views| - 1 - t].tuple == w
  }

  lemma {:induction false} DealtIs(views: seq<Keyed>, nTasks: nat, k: nat, w: Bits)
    requires nTasks > 0
    ensures w in Tuples(Dealt(views, nTasks, k)) <==> exists t: nat :: Gets(views, nTasks, k, w, t)
  {
    hide TaskOf; hide Tuples;
    if views != [] {
      var n := |views| - 1;
      DealtIs(views[1..], nTasks, k, w);
      TuplesSnoc(Dealt(views[1..], nTasks, k), views[0]);
      assert TaskOf(n, nTasks) != k ==> Dealt(views, nTasks, k) == Dealt(views[1..], nTasks, k);
      GetsStep(views, nTasks, k, w);
    } else {
      TuplesHas([], w);
    }
  }

  lemma GetsStep(views: seq<Keyed>, nTasks: nat, k: nat, w: Bits)
    requires nTasks > 0 && views != []
    ensures (exists t: nat :: Gets(views, nTasks, k, w, t)) <==>
      (exists t: nat :: Gets(views[1..], nTasks, k, w, t)) || (TaskOf(|views| - 1, nTasks) == k && views[0].tuple == w)
  {
    hide TaskOf;
    if t: nat :| Gets(views[1..], nTasks, k, w, t) { assert Gets(views, nTasks, k, w, t); }
    if TaskOf(|views| - 1, nTasks) == k && views[0].tuple == w { assert Gets(views, nTasks, k, w, |views| - 1); }
    if t: nat :| Gets(views, nTasks, k, w, t) {
      if t < |views| - 1 { assert Gets(views[1..], nTasks, k, w, t); }
    }
  }

  /** The t-th of the views in descending order of size goes to task k, of n, in the zig-zag. */
  ghost predicate ZigZagShare(file: seq<Bits>, sorted: seq<Keyed>, n: nat, k: nat)
    requires n > 0
  {
    forall w :: w in file <==>
      exists t :: 0 <= t < |sorted| && sorted[t].tuple == w && k == if t / n % 2 == 0 then t % n else n - 1 - t % n
  }

  /** Task k's file names the views that the zig-zag over the views, largest first, gives it. */
  lemma FileIsZigZag(file: seq<Bits>, views: seq<ViewSize>, nInputRecs: nat, nd: nat, nTasks: nat, k: nat) returns (sorted: seq<Keyed>)
    requires nTasks > 0 && nd <= 64 && InRange(views, nd) && TaskFile(file, views, nInputRecs, nd, nTasks, k)
    ensures multiset(sorted) == multiset(seq(|views|, i requires 0 <= i < |views| =>
      Keyed(if views[i].size < nInputRecs then views[i].size else nInputRecs, MaskOf(views[i].selection))))
    ensures forall i, j :: 0 <= i < j < |sorted| ==> sorted[i].size >= sorted[j].size
    ensures ZigZagShare(file, sorted, nTasks, k)
  {
    hide HeapSorted; hide Dealt; hide TaskFile; hide ZigZagShare; hide MaskOf; hide MasksOf; hide Tuples; hide InRange; hide Reversed;
    var s := HeapSorted(Given(views, nInputRecs), |views|);
    SortedMasks(views, nInputRecs);
    FileIsShare(file, views, nInputRecs, nd, nTasks, k);
    sorted := Reversed(s);
    forall t | 0 <= t < |s| ensures sorted[t] == s[|s| - 1 - t] { ReversedAt(s, t); }
    assert Given(views, nInputRecs) == seq(|views|, i requires 0 <= i < |views| =>
      Keyed(if views[i].size < nInputRecs then views[i].size else nInputRecs, MaskOf(views[i].selection)));
    ShareIsZigZag(file, s, sorted, nTasks, k);
  }

  lemma ShareIsZigZag(file: seq<Bits>, s: seq<Keyed>, sorted: seq<Keyed>, n: nat, k: nat)
    requires n > 0 && multiset(file) == multiset(Tuples(Dealt(s, n, k)))
    requires |sorted| == |s| && forall t :: 0 <= t < |s| ==> sorted[t] == s[|s| - 1 - t]
    ensures ZigZagShare(file, sorted, n, k)
  {
    hide Dealt; hide TaskOf; hide Tuples;
    SameMembers(file, Tuples(Dealt(s, n, k)));
    forall w
      ensures w in file <==>
        exists t :: 0 <= t < |sorted| && sorted[t].tuple == w && k == if t / n % 2 == 0 then t % n else n - 1 - t % n
    {
      DealtIs(s, n, k, w);
      GetsIs(s, sorted, n, k, w);
    }
  }

  lemma GetsIs(s: seq<Keyed>, sorted: seq<Keyed>, n: nat, k: nat, w: Bits)
    requires n > 0 && |sorted| == |s| && forall t :: 0 <= t < |s| ==> sorted[t] == s[|s| - 1 - t]
    ensures (exists t: nat :: Gets(s, n, k, w, t)) <==>
      exists t :: 0 <= t < |sorted| && sorted[t].tuple == w && k == if t / n % 2 == 0 then t % n else n - 1 - t % n
  {
    hide TaskOf;
    if t: nat :| Gets(s, n, k, w, t) {
      TaskOfIs(t, n);
      assert sorted[t].tuple == w;
    }
    if t :| 0 <= t < |sorted| && sorted[t].tuple == w && k == if t / n % 2 == 0 then t % n else n - 1 - t % n {
      TaskOfIs(t, n);
      assert Gets(s, n, k, w, t);
    }
  }

  /** The reading loop: masks of the selections, sizes capped. */
  method ReadViews(views: seq<ViewSize>, nInputRecs: nat, tuplesAndSizes: array<Keyed>)
    requires |views| == tuplesAndSizes.Length && InRange(views, 64)
    modifies tuplesAndSizes
    ensures tuplesAndSizes[..] == Given(views, nInputRecs)
  {
    var it := 0;
    while it < |views|
      invariant 0 <= it <= |views| && tuplesAndSizes[..it] == Given(views, nInputRecs)[..it]
    {
      var sz := views[it].size;
      var tx := CreateBinTuple(views[it].selection, |views[it].selection|);
      assert views[it].selection[..|views[it].selection|] == views[it].selection;
      assert tx == MaskOf(views[it].selection);
      if sz > nInputRecs { sz := nInputRecs; }
      tuplesAndSizes[it] := Keyed(sz, tx);
      it := it + 1;
    }
  }

  /** PartitionCube: from the list of views to the task's own group-by file. */
  method PartitionCube(views: seq<ViewSize>, nInputRecs: nat, nd: nat, nTasks: nat, taskNumber: nat)
    returns (groupbyFile: seq<Bits>)
    requires nd <= 64 && InRange(views, nd) && taskNumber < nTasks
    ensures TaskFile(groupbyFile, views, nInputRecs, nd, nTasks, taskNumber) && LargestFirst(groupbyFile, nd)
  {
    hide HeapSorted; hide Given; hide Dealt; hide OutAll; hide LargestFirst; hide Ascending;
    var tuplesAndSizes := new Keyed[|views|](_ => Keyed(0, []));
    ReadViews(views, nInputRecs, tuplesAndSizes);
    var it := tuplesAndSizes.Length;
    Sort(tuplesAndSizes, it);
    SortedMasks(views, nInputRecs);
    var i := 0;
    ghost var s := tuplesAndSizes[..];
    while i < it
      invariant 0 <= i <= it
      invariant forall k :: 0 <= k < i ==> tuplesAndSizes[k] == LowBits(s, nd)[k]
      invariant forall k :: i <= k < it ==> tuplesAndSizes[k] == s[k]
    {
      tuplesAndSizes[i] := tuplesAndSizes[i].(tuple := ShiftRight(tuplesAndSizes[i].tuple, 64 - nd));
      i := i + 1;
    }
    assert tuplesAndSizes[..] == Table(views, nInputRecs, nd);
    groupbyFile := MultiFileProcJobs(tuplesAndSizes[..], nTasks, taskNumber, nd);
  }
}
