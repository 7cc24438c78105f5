/** Python's bitwise `|` and `&` on non-negative integers, described bit by
    bit. */
module Bits {

  function Pow2(k: nat): (p: nat)
    ensures p >= 1
  {
    if k == 0 then 1 else 2 * Pow2(k - 1)
  }

  /** Bit `k` of `n`, that is `(n >> k) & 1 == 1`. */
  predicate Bit(n: nat, k: nat)
    decreases k
  {
    if k == 0 then n % 2 == 1 else Bit(n / 2, k - 1)
  }

  /** Python's `a | b` on non-negative integers. */
  function Or(a: nat, b: nat): nat
    decreases a + b
  {
    if a == 0 && b == 0 then 0
    else 2 * Or(a / 2, b / 2) + (if a % 2 == 1 || b % 2 == 1 then 1 else 0)
  }

  /** Python's `a & b` on non-negative integers. */
  function And(a: nat, b: nat): nat
    decreases a + b
  {
    if a == 0 || b == 0 then 0
    else 2 * And(a / 2, b / 2) + (if a % 2 == 1 && b % 2 == 1 then 1 else 0)
  }

  /** Halving undoes appending a low bit. */
  lemma HalfOf(x: nat, c: nat)
    requires c < 2
    ensures (2 * x + c) / 2 == x && (2 * x + c) % 2 == c
  {
  }

  lemma {:induction false} ZeroHasNoBits(k: nat)
    ensures !Bit(0, k)
  {
    if k > 0 {
      ZeroHasNoBits(k - 1);
    }
  }

  /** A bit of `a | b` is set exactly when it is set in `a` or in `b`. */
  lemma {:induction false} OrBit(a: nat, b: nat, k: nat)
    ensures Bit(Or(a, b), k) <==> Bit(a, k) || Bit(b, k)
    decreases k
  {
    if a == 0 && b == 0 {
      ZeroHasNoBits(k);
    } else {
      var c := if a % 2 == 1 || b % 2 == 1 then 1 else 0;
      var h := Or(a / 2, b / 2);
      assert Or(a, b) == 2 * h + c;
      HalfOf(h, c);
      if k > 0 {
        assert Bit(Or(a, b), k) == Bit(h, k - 1);
        assert Bit(a, k) == Bit(a / 2, k - 1);
        assert Bit(b, k) == Bit(b / 2, k - 1);
        OrBit(a / 2, b / 2, k - 1);
      }
    }
  }

  /** A bit of `a & b` is set exactly when it is set in both. */
  lemma {:induction false} AndBit(a: nat, b: nat, k: nat)
    ensures Bit(And(a, b), k) <==> Bit(a, k) && Bit(b, k)
    decreases k
  {
    if a == 0 || b == 0 {
      ZeroHasNoBits(k);
    } else {
      var c := if a % 2 == 1 && b % 2 == 1 then 1 else 0;
      var h := And(a / 2, b / 2);
      assert And(a, b) == 2 * h + c;
      HalfOf(h, c);
      if k > 0 {
        assert Bit(And(a, b), k) == Bit(h, k - 1);
        assert Bit(a, k) == Bit(a / 2, k - 1);
        assert Bit(b, k) == Bit(b / 2, k - 1);
        AndBit(a / 2, b / 2, k - 1);
      }
    }
  }

  /** `2 ** j` has bit `j` and no other. */
  lemma {:induction false} Pow2Bit(j: nat, k: nat)
    ensures Bit(Pow2(j), k) <==> j == k
    decreases j
  {
    if j == 0 {
      if k > 0 {
        assert Pow2(0) / 2 == 0;
        ZeroHasNoBits(k - 1);
      }
    } else if k == 0 {
      assert Pow2(j) % 2 == 0;
    } else {
      assert Pow2(j) / 2 == Pow2(j - 1);
      Pow2Bit(j - 1, k - 1);
    }
  }

  /** Two integers with the same bits are equal. */
  lemma {:induction false} BitsDetermine(a: nat, b: nat)
    requires forall k: nat :: Bit(a, k) == Bit(b, k)
    ensures a == b
    decreases a + b
  {
    if a != 0 || b != 0 {
      assert a % 2 == b % 2 by {
        assert Bit(a, 0) == Bit(b, 0);
      }
      forall k: nat
        ensures Bit(a / 2, k) == Bit(b / 2, k)
      {
        assert Bit(a, k + 1) == Bit(b, k + 1);
      }
      BitsDetermine(a / 2, b / 2);
    }
  }

  /** No bit at position `k` or above. */
  ghost predicate NoBitsFrom(n: nat, k: nat) {
    forall j: nat :: j >= k ==> !Bit(n, j)
  }

  lemma NoBitsShift(n: nat, k: nat)
    requires k > 0
    ensures NoBitsFrom(n, k) <==> NoBitsFrom(n / 2, k - 1)
  {
    if NoBitsFrom(n, k) {
      forall j: nat | j >= k - 1
        ensures !Bit(n / 2, j)
      {
        assert !Bit(n, j + 1);
      }
    }
    if NoBitsFrom(n / 2, k - 1) {
      forall j: nat | j >= k
        ensures !Bit(n, j)
      {
        assert !Bit(n / 2, j - 1);
      }
    }
  }

  /** A value is below `2 ** k` exactly when it has no bit at `k` or above. */
  lemma {:induction false} BoundByBits(n: nat, k: nat)
    ensures n < Pow2(k) <==> NoBitsFrom(n, k)
    decreases k
  {
    if k == 0 {
      if n == 0 {
        forall j: nat | j >= k
          ensures !Bit(n, j)
        {
          ZeroHasNoBits(j);
        }
      } else {
        BitsDetermineZero(n);
      }
    } else {
      BoundByBits(n / 2, k - 1);
      NoBitsShift(n, k);
    }
  }

  /** A non-zero value has some bit set. */
  lemma BitsDetermineZero(n: nat)
    requires n != 0
    ensures exists j: nat :: Bit(n, j)
  {
    if forall j: nat :: !Bit(n, j) {
      forall j: nat
        ensures Bit(n, j) == Bit(0, j)
      {
        ZeroHasNoBits(j);
      }
      BitsDetermine(n, 0);
    }
  }

  /** `2 ** k & m` is non-zero exactly when bit `k` of `m` is set. */
  lemma AndPow2(k: nat, m: nat)
    ensures And(Pow2(k), m) != 0 <==> Bit(m, k)
  {
    var r := And(Pow2(k), m);
    AndBit(Pow2(k), m, k);
    Pow2Bit(k, k);
    if !Bit(m, k) {
      forall j: nat
        ensures Bit(r, j) == Bit(0, j)
      {
        AndBit(Pow2(k), m, j);
        Pow2Bit(k, j);
        ZeroHasNoBits(j);
      }
      BitsDetermine(r, 0);
    } else {
      ZeroHasNoBits(k);
    }
  }

  /** `|` keeps values below a power of two below it. */
  lemma OrBound(a: nat, b: nat, k: nat)
    requires a < Pow2(k) && b < Pow2(k)
    ensures Or(a, b) < Pow2(k)
  {
    BoundByBits(a, k);
    BoundByBits(b, k);
    forall j: nat | j >= k
      ensures !Bit(Or(a, b), j)
    {
      OrBit(a, b, j);
    }
    BoundByBits(Or(a, b), k);
  }
}
