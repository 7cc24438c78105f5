/** The `Features` flag enumeration and the 8-byte mask it travels as:
    `dump` ORs the member values together, `load` keeps, in declaration
    order, every member whose value shares a bit with the mask. */
module Features {
  import opened Bits

  datatype Feature = Dedup | Jails | FibreChannel | Vm

  /** Declaration order, the order `for f in Features` iterates. */
  const AllFeatures: seq<Feature> := [Dedup, Jails, FibreChannel, Vm]

  /** Number of defined flags; bits at this position and above are unused. */
  const FlagCount: nat := 4

  function Value(f: Feature): nat {
    match f
    case Dedup => 0x0001
    case Jails => 0x0002
    case FibreChannel => 0x0004
    case Vm => 0x0008
  }

  /** Position of the single bit of a member's value. */
  function BitIndex(f: Feature): (k: nat)
    ensures k < FlagCount && AllFeatures[k] == f
    ensures Value(f) == Pow2(k)
  {
    assert Pow2(3) == 8 && Pow2(2) == 4 && Pow2(1) == 2 && Pow2(0) == 1;
    match f
    case Dedup => 0
    case Jails => 1
    case FibreChannel => 2
    case Vm => 3
  }

  /** Duplicate-free and in declaration order. */
  predicate Ordered(fs: seq<Feature>) {
    forall i, j :: 0 <= i < j < |fs| ==> BitIndex(fs[i]) < BitIndex(fs[j])
  }

  /** Some member of `fs` owns bit `k`. */
  predicate Mentions(fs: seq<Feature>, k: nat) {
    exists i :: 0 <= i < |fs| && BitIndex(fs[i]) == k
  }

  /** The `dump` loop `features |= f.value`, continued from `acc`: it
      never sets a bit at or above the defined flags that `acc` lacks. */
  function OrValues(acc: nat, fs: seq<Feature>): (m: nat)
    ensures acc < Pow2(FlagCount) ==> m < Pow2(FlagCount)
    decreases |fs|
  {
    if |fs| == 0 then acc
    else
      var next := Or(acc, Value(fs[0]));
      assert acc < Pow2(FlagCount) ==> next < Pow2(FlagCount) by {
        if acc < Pow2(FlagCount) {
          Pow2Monotone(BitIndex(fs[0]), FlagCount);
          OrBound(acc, Value(fs[0]), FlagCount);
        }
      }
      OrValues(next, fs[1..])
  }

  lemma {:induction false} OrValuesBits(acc: nat, fs: seq<Feature>, k: nat)
    ensures Bit(OrValues(acc, fs), k) <==> Bit(acc, k) || Mentions(fs, k)
    decreases |fs|
  {
    if |fs| > 0 {
      var acc' := Or(acc, Value(fs[0]));
      OrValuesBits(acc', fs[1..], k);
      OrBit(acc, Value(fs[0]), k);
      Pow2Bit(BitIndex(fs[0]), k);
      if Mentions(fs, k) && !Bit(acc, k) && BitIndex(fs[0]) != k {
        var i :| 0 <= i < |fs| && BitIndex(fs[i]) == k;
        assert fs[1..][i - 1] == fs[i];
      }
      if Mentions(fs[1..], k) {
        var i :| 0 <= i < |fs[1..]| && BitIndex(fs[1..][i]) == k;
        assert fs[i + 1] == fs[1..][i];
      }
    }
  }

  lemma {:induction false} Pow2Monotone(j: nat, k: nat)
    requires j < k
    ensures Pow2(j) < Pow2(k)
    decreases k
  {
    if j < k - 1 {
      Pow2Monotone(j, k - 1);
    }
  }

  /** The mask `dump` writes: bit `k` is set exactly when some listed
      feature owns it, and no bit above the defined flags is set. */
  function EncodeMask(fs: seq<Feature>): (m: nat)
    ensures m < 16
    ensures forall k: nat :: Bit(m, k) <==> Mentions(fs, k)
  {
    forall k: nat
      ensures Bit(OrValues(0, fs), k) <==> Mentions(fs, k)
    {
      OrValuesBits(0, fs, k);
      ZeroHasNoBits(k);
    }
    OrValues(0, fs)
  }

  /** The `load` comprehension over `cands`: the members whose value
      ANDed with the mask is non-zero, in the order of `cands`. */
  function Select(mask: nat, cands: seq<Feature>): (fs: seq<Feature>)
    ensures forall f :: f in fs <==> f in cands && And(Value(f), mask) != 0
    ensures Ordered(cands) ==> Ordered(fs)
  {
    if |cands| == 0 then []
    else
      var rest := Select(mask, cands[1..]);
      OrderedConsTail(cands, rest);
      if And(Value(cands[0]), mask) != 0 then [cands[0]] + rest else rest
  }

  /** Dropping the head of an ordered list leaves an ordered list of
      members above it. */
  lemma OrderedTail(xs: seq<Feature>)
    requires Ordered(xs) && |xs| > 0
    ensures Ordered(xs[1..])
    ensures forall f :: f in xs[1..] ==> BitIndex(xs[0]) < BitIndex(f)
  {
    forall f | f in xs[1..]
      ensures BitIndex(xs[0]) < BitIndex(f)
    {
      var i :| 0 <= i < |xs[1..]| && xs[1..][i] == f;
      assert xs[i + 1] == f;
    }
  }

  /** A member below everything in an ordered list can go in front. */
  lemma OrderedCons(x: Feature, ys: seq<Feature>)
    requires Ordered(ys)
    requires forall f :: f in ys ==> BitIndex(x) < BitIndex(f)
    ensures Ordered([x] + ys)
  {
    var xs := [x] + ys;
    forall i, j | 0 <= i < j < |xs|
      ensures BitIndex(xs[i]) < BitIndex(xs[j])
    {
      assert xs[j] == ys[j - 1];
      if i > 0 {
        assert xs[i] == ys[i - 1];
      } else {
        assert ys[j - 1] in ys;
      }
    }
  }

  /** One step of `Select` keeps the order: what is kept from the tail of
      an ordered list may follow its head. */
  lemma OrderedConsTail(xs: seq<Feature>, rest: seq<Feature>)
    requires |xs| > 0
    requires forall f :: f in rest ==> f in xs[1..]
    requires Ordered(xs[1..]) ==> Ordered(rest)
    ensures Ordered(xs) ==> Ordered(rest) && Ordered([xs[0]] + rest)
  {
    if Ordered(xs) {
      OrderedTail(xs);
      OrderedCons(xs[0], rest);
    }
  }

  /** The features `load` reads from a mask: exactly the members whose bit
      is set, duplicate-free and in declaration order. */
  function DecodeMask(mask: nat): (fs: seq<Feature>)
    ensures forall f :: f in fs <==> Bit(mask, BitIndex(f))
    ensures Ordered(fs)
  {
    forall f: Feature
      ensures And(Value(f), mask) != 0 <==> Bit(mask, BitIndex(f))
    {
      AndPow2(BitIndex(f), mask);
    }
    assert Ordered(AllFeatures);
    Select(mask, AllFeatures)
  }

  /** In an ordered list the head has the lowest bit, and the tail holds
      exactly the members above it. */
  lemma OrderedHead(xs: seq<Feature>, f: Feature)
    requires Ordered(xs) && |xs| > 0
    ensures f in xs ==> BitIndex(xs[0]) <= BitIndex(f)
    ensures f in xs[1..] <==> f in xs && BitIndex(xs[0]) < BitIndex(f)
  {
    if f in xs {
      var i :| 0 <= i < |xs| && xs[i] == f;
      if i > 0 {
        assert xs[1..][i - 1] == f;
      }
    }
  }

  lemma NonEmptyHasMember(ys: seq<Feature>)
    ensures |ys| > 0 <==> exists f :: f in ys
  {
    if |ys| > 0 {
      assert ys[0] in ys;
    }
  }

  /** Two ordered feature lists with the same members are the same list. */
  lemma {:induction false} OrderedUnique(xs: seq<Feature>, ys: seq<Feature>)
    requires Ordered(xs) && Ordered(ys)
    requires forall f :: f in xs <==> f in ys
    ensures xs == ys
    decreases |xs|
  {
    if |xs| == 0 {
      NonEmptyHasMember(ys);
    } else {
      assert xs[0] in ys;
      OrderedHead(ys, xs[0]);
      assert ys[0] in xs;
      OrderedHead(xs, ys[0]);
      assert AllFeatures[BitIndex(xs[0])] == xs[0];
      assert xs[0] == ys[0];
      forall f
        ensures f in xs[1..] <==> f in ys[1..]
      {
        OrderedHead(xs, f);
        OrderedHead(ys, f);
      }
      OrderedUnique(xs[1..], ys[1..]);
      assert xs == [xs[0]] + xs[1..];
      assert ys == [ys[0]] + ys[1..];
    }
  }

  /** Order and duplicates in the record's list do not change the mask. */
  lemma MaskIgnoresOrderAndDuplicates(fs: seq<Feature>, gs: seq<Feature>)
    requires forall f :: f in fs <==> f in gs
    ensures EncodeMask(fs) == EncodeMask(gs)
  {
    forall k: nat
      ensures Bit(EncodeMask(fs), k) == Bit(EncodeMask(gs), k)
    {
      if Mentions(fs, k) {
        var i :| 0 <= i < |fs| && BitIndex(fs[i]) == k;
        assert fs[i] in gs;
      }
      if Mentions(gs, k) {
        var i :| 0 <= i < |gs| && BitIndex(gs[i]) == k;
        assert gs[i] in fs;
      }
    }
    BitsDetermine(EncodeMask(fs), EncodeMask(gs));
  }

  /** Decoding the mask of a list gives back its members, in declaration
      order; a list that already is duplicate-free and ordered comes back
      unchanged. */
  lemma DecodeEncodeMask(fs: seq<Feature>)
    ensures forall f :: f in DecodeMask(EncodeMask(fs)) <==> f in fs
    ensures Ordered(fs) ==> DecodeMask(EncodeMask(fs)) == fs
  {
    var ds := DecodeMask(EncodeMask(fs));
    forall f
      ensures f in ds <==> f in fs
    {
      if Mentions(fs, BitIndex(f)) {
        var i :| 0 <= i < |fs| && BitIndex(fs[i]) == BitIndex(f);
        assert AllFeatures[BitIndex(fs[i])] == fs[i];
      }
      if f in fs {
        var i :| 0 <= i < |fs| && fs[i] == f;
        assert Mentions(fs, BitIndex(f));
      }
    }
    if Ordered(fs) {
      OrderedUnique(ds, fs);
    }
  }

  /** Bits above the defined flags are ignored by `load`. */
  lemma DecodeMaskIgnoresUnusedBits(m1: nat, m2: nat)
    requires forall k: nat :: k < FlagCount ==> Bit(m1, k) == Bit(m2, k)
    ensures DecodeMask(m1) == DecodeMask(m2)
  {
    OrderedUnique(DecodeMask(m1), DecodeMask(m2));
  }

  /** A mask made only of defined flags survives decoding and re-encoding. */
  lemma EncodeDecodeMask(m: nat)
    requires m < Pow2(FlagCount)
    ensures EncodeMask(DecodeMask(m)) == m
  {
    var ds := DecodeMask(m);
    BoundByBits(m, FlagCount);
    forall k: nat
      ensures Bit(EncodeMask(ds), k) == Bit(m, k)
    {
      if k < FlagCount && Bit(m, k) {
        var f := AllFeatures[k];
        assert BitIndex(f) == k;
        assert f in ds;
        var i :| 0 <= i < |ds| && ds[i] == f;
        assert Mentions(ds, k);
      }
      if Mentions(ds, k) {
        var i :| 0 <= i < |ds| && BitIndex(ds[i]) == k;
        assert ds[i] in ds;
      }
    }
    BitsDetermine(EncodeMask(ds), m);
  }
}
