/**
 * The tuple generator itself: a routine with remembered seeds that produces the next tuple on
 * every call.  Its first call raises the generators to their exponents; from then on the seeds are
 * the attributes of the last tuple.
 */
module Generator {
  import opened Arith
  import opened NumberTheory
  import opened Tuples

  const maxdim: nat := 20
  const measbound: nat := 31415

  /** The largest entry. */
  function Largest(a: seq<nat>): (m: nat)
    ensures forall i :: 0 <= i < |a| ==> a[i] <= m
    ensures m == 0 || m in a
  {
    if a == [] then 0
    else
      var n := |a| - 1;
      var m := Largest(a[..n]);
      if a[n] > m then a[n] else m
  }

  /** Multiplying g up, reduced at every step, gives its power. */
  lemma StepPower(g: nat, p: nat, e: nat, tmp: nat)
    requires p > 0 && tmp % p == Pow(g, e) % p
    ensures tmp * g % p % p == Pow(g, e + 1) % p
  {
    MulMod(tmp, g, p);
    MulMod(Pow(g, e), g, p);
    ModTwice(tmp * g, p);
    assert Pow(g, e + 1) == g * Pow(g, e) == Pow(g, e) * g;
  }

  lemma SameFactorMod(a: nat, x: nat, y: nat, p: nat)
    requires p > 0 && x % p == y % p
    ensures a * x % p == a * y % p
  {
    MulMod(x, a, p);
    MulMod(y, a, p);
    Commute(a, x);
    Commute(a, y);
  }

  /** Attribute value t + 1 is value t times the raised generator. */
  lemma NextAttribute(p: nat, g: nat, e: nat, t: nat, gen: nat)
    requires p > 0 && gen % p == Pow(g, e) % p
    ensures Attribute(p, g, e, t) * gen % p == Attribute(p, g, e, t + 1)
  {
    hide Pow;
    StepValue((p + 1) / 2, Pow(g, e * t), gen, Pow(g, e), p);
    PowAdd(g, e * t, e);
    ProductGap(e, t + 1, t);
  }

  lemma StepValue(s: nat, x: nat, gen: nat, y: nat, p: nat)
    requires p > 0 && gen % p == y % p
    ensures s * x % p * gen % p == s * (x * y) % p
  {
    MulMod(s * x, gen, p);
    SameFactorMod(s * x, gen, y, p);
    Associate(s, x, y);
  }

  lemma FirstAttribute(p: nat, g: nat, e: nat)
    requires p > 1
    ensures Attribute(p, g, e, 0) == (p + 1) / 2
  {
    assert e * 0 == 0;
    assert (p + 1) / 2 * 1 == (p + 1) / 2;
    if p > 2 { ModOf((p + 1) / 2, p, 0, (p + 1) / 2); }
  }

  /** The generator raised to its exponent. */
  ghost predicate Raised(d: Dim, gen: nat) {
    d.prime > 2 && gen % d.prime == Pow(d.root, d.exp) % d.prime
  }

  /** Attribute value number t. */
  ghost function Value(d: Dim, t: nat): nat {
    if d.prime > 0 then Attribute(d.prime, d.root, d.exp, t) else 0
  }

  lemma FirstValue(d: Dim, gen: nat)
    requires Raised(d, gen)
    ensures Value(d, 0) == (d.prime + 1) / 2
  {
    FirstAttribute(d.prime, d.root, d.exp);
  }

  lemma NextValue(d: Dim, gen: nat, t: nat)
    requires Raised(d, gen)
    ensures d.prime > 0 && Value(d, t) * gen % d.prime == Value(d, t + 1)
  {
    NextAttribute(d.prime, d.root, d.exp, t, gen);
  }

  lemma ValueIs(d: Dim, a: nat, t: nat)
    requires PrimitiveRoot(d.root, d.prime) && a == Value(d, t)
    ensures d.prime > 0 && a == (d.prime + 1) / 2 * Pow(d.root, d.exp * t) % d.prime
  {
  }

  lemma TupleIs(dims: seq<Dim>, a: seq<nat>, t: nat)
    requires DimsOk(dims) && |a| == |dims| && forall k :: 0 <= k < |dims| ==> a[k] == Value(dims[k], t)
    ensures a == Tuple(dims, t)
  {
    hide Attribute;
    forall k | 0 <= k < |dims| ensures a[k] == Tuple(dims, t)[k] {
      RootFacts(dims[k].root, dims[k].prime);
    }
  }

  class TupleGenerator {
    const dims: seq<Dim>
    var tuplenum: nat
    const gens: array<nat>
    const seeds: array<nat>

    ghost predicate Valid()
      reads this, gens, seeds
    {
      && gens != seeds
      && gens.Length == |dims| && seeds.Length == (if |dims| <= maxdim then maxdim else |dims|)
      && DimsOk(dims)
      && (tuplenum == 0 ==> forall i :: 0 <= i < |dims| ==> gens[i] == dims[i].root)
      && (tuplenum > 0 ==> forall i :: 0 <= i < |dims| ==> Raised(dims[i], gens[i]) && seeds[i] == Value(dims[i], tuplenum))
      && (forall i :: |dims| <= i < seeds.Length ==> seeds[i] == 0)
    }

    constructor (dims: seq<Dim>)
      requires DimsOk(dims)
      ensures Valid() && fresh(gens) && fresh(seeds) && this.dims == dims && tuplenum == 0
    {
      this.dims := dims;
      tuplenum := 0;
      gens := new nat[|dims|](i requires 0 <= i < |dims| => dims[i].root);
      seeds := new nat[if |dims| <= maxdim then maxdim else |dims|](_ => 0);
    }

    /** One generator, multiplied up to its exponent. */
    method Raise(i: nat) returns (tmpgen: nat)
      requires i < |dims| <= gens.Length && DimsOk(dims) && gens[i] == dims[i].root
      ensures tmpgen % dims[i].prime == Pow(dims[i].root, dims[i].exp) % dims[i].prime
    {
      hide PrimitiveRoot;
      RootFacts(dims[i].root, dims[i].prime);
      ghost var g, p := dims[i].root, dims[i].prime;
      tmpgen := gens[i];
      PowOne(g);
      var j := 0;
      while j < dims[i].exp - 1
        invariant 0 <= j <= dims[i].exp - 1
        invariant tmpgen % p == Pow(g, j + 1) % p
      {
        StepPower(g, p, j + 1, tmpgen);
        tmpgen := tmpgen * gens[i] % dims[i].prime;
        j := j + 1;
      }
    }

    /** On the first call: raises the generators and sets the seeds. */
    method Start()
      requires Valid() && tuplenum == 0
      modifies gens, seeds
      ensures forall i :: 0 <= i < |dims| ==> Raised(dims[i], gens[i]) && seeds[i] == Value(dims[i], 0)
      ensures forall i :: |dims| <= i < seeds.Length ==> seeds[i] == old(seeds[i])
    {
      hide Attribute;
      hide PrimitiveRoot;
      var i := 0;
      while i < |dims|
        invariant 0 <= i <= |dims|
        invariant forall k :: 0 <= k < i ==> Raised(dims[k], gens[k])
        invariant forall k :: i <= k < |dims| ==> gens[k] == dims[k].root
        invariant forall k :: 0 <= k < seeds.Length ==> seeds[k] == old(seeds[k])
      {
        RootFacts(dims[i].root, dims[i].prime);
        var tmpgen := Raise(i);
        gens[i] := tmpgen;
        i := i + 1;
      }
      i := 0;
      while i < |dims|
        invariant 0 <= i <= |dims|
        invariant forall k :: 0 <= k < |dims| ==> Raised(dims[k], gens[k])
        invariant forall k :: 0 <= k < i ==> seeds[k] == Value(dims[k], 0)
        invariant forall k :: |dims| <= k < seeds.Length ==> seeds[k] == old(seeds[k])
      {
        assert Raised(dims[i], gens[i]);
        FirstValue(dims[i], gens[i]);
        seeds[i] := (dims[i].prime + 1) / 2;
        i := i + 1;
      }
    }

    /** The measures from the seeds. */
    method Measure(meas: array<nat>, maxattr: nat)
      requires meas.Length <= seeds.Length && meas != gens && meas != seeds
      modifies meas
      ensures forall k :: 0 <= k < meas.Length ==> meas[k] == seeds[k] * maxattr % measbound
    {
      var i := 0;
      while i < meas.Length
        invariant 0 <= i <= meas.Length
        invariant forall k :: 0 <= k < i ==> meas[k] == seeds[k] * maxattr % measbound
      {
        meas[i] := seeds[i] * maxattr;
        meas[i] := Reduce(meas[i], measbound);
        i := i + 1;
      }
    }

    /** Multiplies every seed by its generator; the new seeds are the attributes. */
    method Advance(attr: array<nat>, ghost t: nat) returns (maxattr: nat)
      requires gens.Length == |dims| <= seeds.Length && |dims| <= attr.Length
      requires attr != gens && attr != seeds && gens != seeds
      requires forall k :: 0 <= k < |dims| ==> Raised(dims[k], gens[k]) && seeds[k] == Value(dims[k], t)
      modifies seeds, attr
      ensures forall k :: 0 <= k < |dims| ==> attr[k] == seeds[k] == Value(dims[k], t + 1)
      ensures forall k :: |dims| <= k < seeds.Length ==> seeds[k] == old(seeds[k])
      ensures maxattr == Largest(attr[..|dims|])
    {
      hide *;
      maxattr := 0;
      var i := 0;
      NoEntries();
      while i < |dims|
        invariant 0 <= i <= |dims|
        invariant forall k :: 0 <= k < i ==> attr[k] == seeds[k] == Value(dims[k], t + 1)
        invariant forall k :: i <= k < |dims| ==> seeds[k] == Value(dims[k], t)
        invariant forall k :: |dims| <= k < seeds.Length ==> seeds[k] == old(seeds[k])
        invariant maxattr == Largest(attr[..i])
      {
        NextValue(dims[i], gens[i], t);
        ghost var before := attr[..i];
        attr[i] := seeds[i] * gens[i];
        attr[i] := Reduce(attr[i], dims[i].prime);
        seeds[i] := attr[i];
        assert attr[..i + 1] == before + [attr[i]];
        OneMoreEntry(before, attr[i]);
        if seeds[i] > maxattr { maxattr := seeds[i]; }
        i := i + 1;
      }
    }

    /** Writes the next tuple; the measures come from its entries and the largest of them. */
    method GetNextTuple(attr: array<nat>, meas: array<nat>) returns (ok: bool)
      requires Valid() && attr.Length >= |dims| && meas.Length <= maxdim
      requires attr != meas && attr != gens && attr != seeds && meas != gens && meas != seeds
      modifies this, gens, seeds, attr, meas
      ensures Valid()
      ensures ok <==> |dims| <= 20
      ensures tuplenum == if ok then old(tuplenum) + 1 else old(tuplenum)
      ensures ok ==> attr[..|dims|] == Tuple(dims, tuplenum)
      ensures ok ==> forall k :: 0 <= k < |dims| ==>
        dims[k].prime > 0 && attr[k] == (dims[k].prime + 1) / 2 * Pow(dims[k].root, dims[k].exp * tuplenum) % dims[k].prime
      ensures ok ==> forall k :: 0 <= k < meas.Length ==>
        meas[k] == (if k < |dims| then attr[k] else 0) * Largest(attr[..|dims|]) % 31415
      ensures !ok ==> attr[..] == old(attr[..]) && meas[..] == old(meas[..])
    {
      hide Attribute;
      hide PrimitiveRoot;
      hide Largest;
      hide Raised;
      hide Value;
      hide Tuple;
      if |dims| > maxdim {
        return false;
      }
      if tuplenum == 0 {
        Start();
      }
      var maxattr := Advance(attr, tuplenum);
      tuplenum := tuplenum + 1;
      TupleIs(dims, attr[..|dims|], tuplenum);
      forall k | 0 <= k < |dims|
        ensures dims[k].prime > 0 && attr[k] == (dims[k].prime + 1) / 2 * Pow(dims[k].root, dims[k].exp * tuplenum) % dims[k].prime
      {
        ValueIs(dims[k], attr[k], tuplenum);
      }
      Measure(meas, maxattr);
      ok := true;
    }
  }

  /** The source's way to take a remainder. */
  function Reduce(x: nat, m: nat): (r: nat)
    requires m > 0
    ensures r == x % m
  {
    assert x == x / m * m + x % m;
    x - m * (x / m)
  }

  lemma PowOne(g: nat)
    ensures Pow(g, 1) == g
  {
    assert Pow(g, 1) == g * Pow(g, 0) == g;
  }

  lemma NoEntries()
    ensures Largest([]) == 0
  {
  }

  lemma OneMoreEntry(a: seq<nat>, x: nat)
    ensures Largest(a + [x]) == if x > Largest(a) then x else Largest(a)
  {
    var b := a + [x];
    assert b[..|b| - 1] == a;
  }
}
