/**
 * Group-by masks of jobcntl.c.  A machine word is the sequence of its bits, most significant
 * first; dimension d of a group-by is bit d-1.  The scans for single bits are stated by what they
 * return, and the conversions between masks and lists of dimensions undo each other.
 */
module Masks {
  import opened Rows

  type Bits = seq<bool>

  function Zero(n: nat): (w: Bits)
    ensures |w| == n
  {
    seq(n, i => false)
  }

  /** The word with only bit pos set (MLB >> pos); zero once shifted out. */
  function Top(n: nat, pos: nat): (w: Bits)
    ensures |w| == n
  {
    seq(n, i => i == pos)
  }

  function And(a: Bits, b: Bits): (w: Bits)
    requires |a| == |b|
    ensures |w| == |a|
  {
    seq(|a|, i requires 0 <= i < |a| => a[i] && b[i])
  }

  function Or(a: Bits, b: Bits): (w: Bits)
    requires |a| == |b|
    ensures |w| == |a|
  {
    seq(|a|, i requires 0 <= i < |a| => a[i] || b[i])
  }

  function ShiftRight(a: Bits, k: nat): (w: Bits)
    requires k <= |a|
    ensures |w| == |a|
  {
    Zero(k) + a[..|a|-k]
  }

  function ShiftLeft(a: Bits, k: nat): (w: Bits)
    requires k <= |a|
    ensures |w| == |a|
  {
    a[k..] + Zero(k)
  }

  predicate NonZero(a: Bits) {
    exists i :: 0 <= i < |a| && a[i]
  }

  lemma TopShift(n: nat, pos: nat)
    requires n > 0
    ensures ShiftRight(Top(n, pos), 1) == Top(n, pos + 1)
  {
  }

  lemma TestBit(a: Bits, pos: nat)
    ensures NonZero(And(a, Top(|a|, pos))) <==> pos < |a| && a[pos]
  {
    if pos < |a| && a[pos] {
      assert And(a, Top(|a|, pos))[pos];
    }
  }

  // ---------------------------------------------------------------------------
  // Masks as lists of dimensions
  // ---------------------------------------------------------------------------

  /** The dimensions among the first n that the mask contains, in increasing order. */
  function Dims(mask: Bits, n: nat): seq<nat>
    requires n <= |mask|
  {
    if n == 0 then [] else Dims(mask, n - 1) + (if mask[n-1] then [n] else [])
  }

  predicate Increasing(sel: seq<nat>, n: nat) {
    && (forall i :: 0 <= i < |sel| ==> 1 <= sel[i] <= n)
    && (forall i, j :: 0 <= i < j < |sel| ==> sel[i] < sel[j])
  }

  lemma {:induction false} DimsIncreasing(mask: Bits, n: nat)
    requires n <= |mask|
    ensures Increasing(Dims(mask, n), n) && |Dims(mask, n)| <= n
    ensures forall p :: 0 <= p < n ==> (mask[p] <==> p + 1 in Dims(mask, n))
  {
    if n > 0 {
      DimsIncreasing(mask, n - 1);
      DimsNext(mask, n);
      hide Dims;
      var d, e := Dims(mask, n - 1), Dims(mask, n);
      if mask[n-1] {
        assert e[|d|] == n;
        forall x ensures x in e <==> x in d || x == n {
        }
      }
    }
  }

  lemma DimsNext(mask: Bits, n: nat)
    requires 1 <= n <= |mask|
    ensures Dims(mask, n) == Dims(mask, n - 1) + (if mask[n - 1] then [n] else [])
  {
  }

  lemma {:induction false} DimsSameBits(a: Bits, b: Bits, n: nat)
    requires n <= |a| && n <= |b|
    requires forall i :: 0 <= i < n ==> a[i] == b[i]
    ensures Dims(a, n) == Dims(b, n)
  {
    if n > 0 { DimsSameBits(a, b, n - 1); }
  }

  lemma {:induction false} DimsDetermineBits(a: Bits, b: Bits, n: nat)
    requires n <= |a| && n <= |b| && Dims(a, n) == Dims(b, n)
    ensures forall i :: 0 <= i < n ==> a[i] == b[i]
  {
    DimsIncreasing(a, n);
    DimsIncreasing(b, n);
  }

  /** GetRegTupleFromBin64: the dimensions of the top numDims bits. */
  method GetRegTupleFromBin64(binRepTuple: Bits, numDims: nat) returns (selTuple: seq<nat>, numOfUnits: nat)
    requires |binRepTuple| == 64 && numDims <= 64
    ensures selTuple == Dims(binRepTuple, numDims) && numOfUnits == |selTuple|
  {
    var oc := Top(64, 0);
    selTuple, numOfUnits := [], 0;
    var i := 0;
    while i < numDims
      invariant 0 <= i <= numDims && oc == Top(64, i)
      invariant selTuple == Dims(binRepTuple, i) && numOfUnits == |selTuple|
    {
      TestBit(binRepTuple, i);
      if NonZero(And(binRepTuple, oc)) {
        selTuple := selTuple + [i + 1];
        numOfUnits := numOfUnits + 1;
      }
      TopShift(64, i);
      oc := ShiftRight(oc, 1);
      i := i + 1;
    }
  }

  /** CreateBinTuple: the mask with exactly the selected dimensions' bits set. */
  method CreateBinTuple(selTuple: seq<nat>, numDims: nat) returns (binRepTuple: Bits)
    requires numDims <= |selTuple|
    requires forall i :: 0 <= i < numDims ==> 1 <= selTuple[i] <= 64
    ensures |binRepTuple| == 64
    ensures forall p :: 0 <= p < 64 ==> (binRepTuple[p] <==> p + 1 in selTuple[..numDims])
  {
    binRepTuple := Zero(64);
    var i := 0;
    while i < numDims
      invariant 0 <= i <= numDims && |binRepTuple| == 64
      invariant forall p :: 0 <= p < 64 ==> (binRepTuple[p] <==> p + 1 in selTuple[..i])
    {
      assert selTuple[..i + 1] == selTuple[..i] + [selTuple[i]];
      binRepTuple := Or(binRepTuple, Top(64, selTuple[i] - 1));
      i := i + 1;
    }
  }

  /** GetRegTupleFromBin64 undoes CreateBinTuple on increasing selections. */
  lemma {:induction false} RegTupleOfBinTuple(sel: seq<nat>, mask: Bits, n: nat)
    requires n <= |mask| && Increasing(sel, n)
    requires forall p :: 0 <= p < n ==> (mask[p] <==> p + 1 in sel)
    ensures Dims(mask, n) == sel
  {
    if n > 0 {
      if n in sel {
        var last := |sel| - 1;
        var i :| 0 <= i < |sel| && sel[i] == n;
        assert sel[last] == n;
        var front := sel[..last];
        assert sel == front + [n];
        RegTupleOfBinTuple(front, mask, n - 1);
      } else {
        RegTupleOfBinTuple(sel, mask, n - 1);
      }
    }
  }

  // ---------------------------------------------------------------------------
  // Columns relative to a parent view
  // ---------------------------------------------------------------------------

  /** ut32: the top nd bits of a 64-bit mask, moved to the top of a 32-bit word. */
  function Narrow(bin64: Bits, nd: nat): (w: Bits)
    requires |bin64| == 64 && nd <= 32
    ensures |w| == 32
    ensures forall i :: 0 <= i < 32 ==> w[i] == (i < nd && bin64[i])
  {
    ShiftLeft(ShiftRight(bin64, 64 - nd)[32..], 32 - nd)
  }

  predicate SubMask(child: Bits, parent: Bits) {
    |child| == |parent| && forall i :: 0 <= i < |child| && child[i] ==> parent[i]
  }

  lemma SubMaskTest(child: Bits, parent: Bits)
    requires |child| == |parent|
    ensures And(child, parent) == child <==> SubMask(child, parent)
  {
    if And(child, parent) == child {
      forall i | 0 <= i < |child| && child[i] ensures parent[i] {
        assert And(child, parent)[i];
      }
    }
  }

  /** Column numbers, in the parent's rows, of the child's dimensions. */
  function Columns(parent: Bits, child: Bits, n: nat): seq<nat>
    requires n <= |parent| && n <= |child|
  {
    if n == 0 then []
    else
      var column := if parent[n-1] && child[n-1] then [|Dims(parent, n)|] else [];
      Columns(parent, child, n - 1) + column
  }

  /** GetRegTupleFromParent */
  method GetRegTupleFromParent(bin64RepTuple: Bits, bin32RepTuple: Bits, nd: nat) returns (selTuple: seq<nat>)
    requires |bin64RepTuple| == 64 && |bin32RepTuple| == 32 && nd <= 32
    ensures selTuple == Columns(bin32RepTuple, Narrow(bin64RepTuple, nd), nd)
  {
    var oc := Top(32, 0);
    var ut32 := Narrow(bin64RepTuple, nd);
    selTuple := [];
    var k, i := 0, 0;
    while i < nd
      invariant 0 <= i <= nd && oc == Top(32, i) && k == |Dims(bin32RepTuple, i)|
      invariant selTuple == Columns(bin32RepTuple, ut32, i)
    {
      TestBit(bin32RepTuple, i);
      TestBit(ut32, i);
      if NonZero(And(bin32RepTuple, oc)) { k := k + 1; }
      if NonZero(And(bin32RepTuple, oc)) && NonZero(And(ut32, oc)) { selTuple := selTuple + [k]; }
      TopShift(32, i);
      oc := ShiftRight(oc, 1);
      i := i + 1;
    }
  }

  lemma {:induction false} ColumnsInRange(parent: Bits, child: Bits, n: nat)
    requires n <= |parent| && n <= |child|
    ensures forall i :: 0 <= i < |Columns(parent, child, n)| ==>
      1 <= Columns(parent, child, n)[i] <= |Dims(parent, n)|
  {
    if n > 0 { ColumnsInRange(parent, child, n - 1); }
  }

  lemma ComposeAppend(outer: seq<nat>, more: seq<nat>, inner: seq<nat>)
    requires forall i :: 0 <= i < |inner| ==> 1 <= inner[i] <= |outer|
    ensures Compose(outer + more, inner) == Compose(outer, inner)
  {
  }

  /** Selecting the child's columns of the parent's selection is the child's selection. */
  lemma {:induction false} ColumnsCompose(parent: Bits, child: Bits, n: nat)
    requires n <= |parent| && n <= |child|
    requires forall i :: 0 <= i < n && child[i] ==> parent[i]
    ensures Compose(Dims(parent, n), Columns(parent, child, n)) == Dims(child, n)
    ensures |Columns(parent, child, n)| == |Dims(child, n)|
  {
    if n > 0 {
      ColumnsCompose(parent, child, n - 1);
      ColumnsInRange(parent, child, n - 1);
      var p, c := Dims(parent, n - 1), Columns(parent, child, n - 1);
      var more := if parent[n-1] then [n] else [];
      ComposeAppend(p, more, c);
      if child[n-1] {
        var all := Compose(Dims(parent, n), Columns(parent, child, n));
        assert all == Compose(Dims(parent, n), c) + [n];
      }
    }
  }

  // ---------------------------------------------------------------------------
  // Counting
  // ---------------------------------------------------------------------------

  function Ones(w: Bits): nat {
    if w == [] then 0 else Ones(w[..|w|-1]) + (if w[|w|-1] then 1 else 0)
  }

  lemma {:induction false} OnesSnoc(w: Bits, b: bool)
    ensures Ones(w + [b]) == Ones(w) + (if b then 1 else 0)
  {
    assert (w + [b])[..|w|] == w;
  }

  lemma {:induction false} OnesZero(w: Bits, n: nat)
    ensures Ones(w + Zero(n)) == Ones(w)
  {
    if n == 0 {
      assert w + Zero(0) == w;
    } else {
      OnesZero(w, n - 1);
      assert w + Zero(n) == (w + Zero(n - 1)) + [false];
      OnesSnoc(w + Zero(n - 1), false);
    }
  }

  lemma {:induction false} OnesAreDims(mask: Bits, n: nat)
    requires n <= |mask|
    ensures Ones(mask[..n]) == |Dims(mask, n)|
  {
    if n > 0 {
      OnesAreDims(mask, n - 1);
      assert mask[..n][..n-1] == mask[..n-1];
    }
  }

  lemma {:induction false} OnesMonotone(child: Bits, parent: Bits)
    requires SubMask(child, parent)
    ensures Ones(child) <= Ones(parent)
    ensures Ones(child) == Ones(parent) ==> child == parent
  {
    if child != [] {
      var n := |child| - 1;
      OnesMonotone(child[..n], parent[..n]);
      assert child == child[..n] + [child[n]] && parent == parent[..n] + [parent[n]];
    }
  }

  /** NumberOfOnes, on a word widened to 64 bits. */
  method NumberOfOnes(s: Bits) returns (nOnes: nat)
    requires |s| == 64
    ensures nOnes == Ones(s)
  {
    var ob := Top(64, 0);
    nOnes := 0;
    var i := 0;
    assert Ones(s[..0]) == 0;
    hide Top; hide And; hide NonZero; hide ShiftRight; hide Ones;
    while i < 64
      invariant 0 <= i <= 64 && ob == Top(64, i) && nOnes == Ones(s[..i])
    {
      TestBit(s, i);
      OnesSnoc(s[..i], s[i]);
      assert s[..i + 1] == s[..i] + [s[i]];
      if NonZero(And(s, ob)) { nOnes := nOnes + 1; }
      TopShift(64, i);
      ob := ShiftRight(ob, 1);
      i := i + 1;
    }
    assert s[..64] == s;
  }

  /** Widening a 32-bit word to 64 bits. */
  function Widen(w: Bits): (v: Bits)
    requires |w| == 32
    ensures |v| == 64
  {
    Zero(32) + w
  }

  lemma {:induction false} OnesWiden(w: Bits, k: nat)
    ensures Ones(Zero(k) + w) == Ones(w)
  {
    if w == [] {
      OnesZero([], k);
      assert Zero(k) + w == [] + Zero(k);
    } else {
      var n := |w| - 1;
      OnesWiden(w[..n], k);
      assert (Zero(k) + w) == (Zero(k) + w[..n]) + [w[n]];
      OnesSnoc(Zero(k) + w[..n], w[n]);
    }
  }

  // ---------------------------------------------------------------------------
  // Leading and trailing ones
  // ---------------------------------------------------------------------------

  /** Mlo32: the number of zero bits before the first one. */
  method Mlo32(x: Bits) returns (k: nat)
    requires |x| == 32
    ensures k <= 32 && (forall i :: 0 <= i < k ==> !x[i]) && (k < 32 ==> x[k])
  {
    var om := Top(32, 0);
    k := 0;
    var i := 0;
    while i < 32
      invariant 0 <= i <= 32 && om == Top(32, i) && k == i
      invariant forall j :: 0 <= j < i ==> !x[j]
    {
      TestBit(x, i);
      if NonZero(And(om, x)) {
        assert And(om, x) == And(x, om);
        break;
      }
      assert And(om, x) == And(x, om);
      TopShift(32, i);
      om := ShiftRight(om, 1);
      k := k + 1;
      i := i + 1;
    }
  }

  /** mro32: one past the last one bit; 0 for a zero word. */
  method Mro32(x: Bits) returns (k: nat)
    requires |x| == 32
    ensures k <= 32 && (forall i :: k <= i < 32 ==> !x[i]) && (k > 0 ==> x[k-1])
  {
    var om := Top(32, 31);
    k := 32;
    var i := 0;
    while i < 32
      invariant 0 <= i <= 32 && k == 32 - i && (i < 32 ==> om == Top(32, 31 - i))
      invariant forall j :: k <= j < 32 ==> !x[j]
    {
      TestBit(x, 31 - i);
      assert And(om, x) == And(x, om);
      if NonZero(And(om, x)) { break; }
      if i < 31 { assert ShiftLeft(Top(32, 31 - i), 1) == Top(32, 31 - i - 1); }
      om := ShiftLeft(om, 1);
      k := k - 1;
      i := i + 1;
    }
  }

  /** setLeadingOnes32: n ones, then zeros (the shifted word is sign-extended). */
  method SetLeadingOnes32(n: nat) returns (x: Bits)
    requires n <= 32
    ensures |x| == 32 && forall i :: 0 <= i < 32 ==> (x[i] <==> i < n)
  {
    var om := Top(32, 0);
    x := Zero(32);
    var i := 0;
    while i < n
      invariant 0 <= i <= n && |om| == 32 && |x| == 32
      invariant forall j :: 0 <= j < 32 ==> (om[j] <==> j <= i)
      invariant forall j :: 0 <= j < 32 ==> (x[j] <==> j < i)
    {
      x := Or(x, om);
      om := [om[0]] + om[..31];
      i := i + 1;
    }
  }
}
