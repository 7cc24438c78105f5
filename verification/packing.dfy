/** The scalar formats of Python's `struct` module that the license layout
    uses: `b` (signed char), `Q` and native `L` (unsigned, 8 bytes,
    little-endian on LP64), `Ns` (fixed-width byte string), together with
    the NUL stripping that `load` applies to string fields. */
module Packing {
  import Bits

  /** One byte of packed data. */
  type uint8 = x: int | 0 <= x < 256

  /** Range accepted by the `b` format; `pack` raises `struct.error` outside it. */
  predicate IsInt8(v: int) {
    -128 <= v <= 127
  }

  /** `b` packing: the two's-complement byte of a value in range. */
  function PackInt8(v: int): (b: uint8)
    requires IsInt8(v)
    ensures b % 256 == v % 256
    ensures b < 128 <==> v >= 0
    ensures UnpackInt8(b) == v
  {
    if v < 0 then v + 256 else v
  }

  /** `b` unpacking: a byte read as a two's-complement value. */
  function UnpackInt8(b: uint8): (v: int)
    ensures IsInt8(v)
    ensures v % 256 == b
  {
    if b < 128 then b else b - 256
  }

  /** Every byte is the packing of the value it unpacks to. */
  lemma PackUnpackInt8(b: uint8)
    ensures PackInt8(UnpackInt8(b)) == b
  {
  }

  function Pow256(k: nat): (p: nat)
    ensures p >= 1
  {
    if k == 0 then 1 else 256 * Pow256(k - 1)
  }

  /** `Pow256` is `Pow2` counted in bytes. */
  lemma {:induction false} Pow256IsPow2(k: nat)
    ensures Pow256(k) == Bits.Pow2(8 * k)
  {
    if k > 0 {
      Pow256IsPow2(k - 1);
      Pow2Byte(8 * (k - 1));
    }
  }

  /** Eight more bits multiply by 256. */
  lemma Pow2Byte(j: nat)
    ensures Bits.Pow2(j + 8) == 256 * Bits.Pow2(j)
  {
    assert Bits.Pow2(j + 8) == 2 * Bits.Pow2(j + 7);
    assert Bits.Pow2(j + 7) == 2 * Bits.Pow2(j + 6);
    assert Bits.Pow2(j + 6) == 2 * Bits.Pow2(j + 5);
    assert Bits.Pow2(j + 5) == 2 * Bits.Pow2(j + 4);
    assert Bits.Pow2(j + 4) == 2 * Bits.Pow2(j + 3);
    assert Bits.Pow2(j + 3) == 2 * Bits.Pow2(j + 2);
    assert Bits.Pow2(j + 2) == 2 * Bits.Pow2(j + 1);
  }

  /** Width in bytes of the `Q` format and of the native `L` format on LP64. */
  const U64Width: nat := 8

  /** The values an eight-byte unsigned field holds are those below 2**64. */
  lemma U64Range()
    ensures Pow256(U64Width) == 0x1_0000_0000_0000_0000
  {
    assert Pow256(2) == 0x1_0000;
    assert Pow256(4) == 0x1_0000_0000;
    assert Pow256(6) == 0x1_0000_0000_0000;
  }

  /** Little-endian packing of an unsigned value into `k` bytes, least
      significant byte first. */
  function PackUnsigned(n: nat, k: nat): (s: seq<uint8>)
    requires n < Pow256(k)
    ensures |s| == k
    decreases k
  {
    if k == 0 then [] else [n % 256] + PackUnsigned(n / 256, k - 1)
  }

  /** Little-endian unpacking of an unsigned value; its result always fits
      the width it was read from. */
  function UnpackUnsigned(s: seq<uint8>): (n: nat)
    ensures n < Pow256(|s|)
  {
    if |s| == 0 then 0 else s[0] + 256 * UnpackUnsigned(s[1..])
  }

  lemma {:induction false} UnpackPackUnsigned(n: nat, k: nat)
    requires n < Pow256(k)
    ensures UnpackUnsigned(PackUnsigned(n, k)) == n
    decreases k
  {
    if k > 0 {
      var s := PackUnsigned(n, k);
      assert s[1..] == PackUnsigned(n / 256, k - 1);
      UnpackPackUnsigned(n / 256, k - 1);
    }
  }

  lemma {:induction false} PackUnpackUnsigned(s: seq<uint8>)
    ensures PackUnsigned(UnpackUnsigned(s), |s|) == s
  {
    if |s| > 0 {
      PackUnpackUnsigned(s[1..]);
      assert UnpackUnsigned(s) / 256 == UnpackUnsigned(s[1..]);
    }
  }

  /** `n` zero bytes. */
  function Zeros(n: nat): (z: seq<uint8>)
    ensures |z| == n
    ensures forall i :: 0 <= i < n ==> z[i] == 0
  {
    seq(n, _ => 0)
  }

  /** `Ns` packing: the first `w` bytes of `s`, NUL-padded up to `w` when
      `s` is shorter; a longer `s` is truncated without any error. */
  function PackFixed(s: seq<uint8>, w: nat): (f: seq<uint8>)
    ensures |f| == w
    ensures forall i :: 0 <= i < w ==> f[i] == (if i < |s| then s[i] else 0)
  {
    if |s| >= w then s[..w] else s + Zeros(w - |s|)
  }

  /** A field that already has its exact width packs to itself. */
  lemma PackFixedExact(s: seq<uint8>)
    ensures PackFixed(s, |s|) == s
  {
  }

  /** A field that fits packs to itself followed by NUL padding. */
  lemma PackFixedPads(s: seq<uint8>, w: nat)
    requires |s| <= w
    ensures PackFixed(s, w) == s + Zeros(w - |s|)
  {
  }

  /** No NUL byte at either end: what `str.strip('\x00')` leaves. */
  predicate Unpadded(s: seq<uint8>) {
    |s| == 0 || (s[0] != 0 && s[|s| - 1] != 0)
  }

  /** Drops the leading NUL bytes. */
  function TrimLeading(s: seq<uint8>): (t: seq<uint8>)
    ensures |t| <= |s| && t == s[|s| - |t|..]
    ensures |t| == 0 || t[0] != 0
    ensures forall i :: 0 <= i < |s| - |t| ==> s[i] == 0
  {
    if |s| > 0 && s[0] == 0 then TrimLeading(s[1..]) else s
  }

  /** Drops the trailing NUL bytes. */
  function TrimTrailing(s: seq<uint8>): (t: seq<uint8>)
    ensures |t| <= |s| && t == s[..|t|]
    ensures |t| == 0 || t[|t| - 1] != 0
    ensures forall i :: |t| <= i < |s| ==> s[i] == 0
  {
    if |s| > 0 && s[|s| - 1] == 0 then TrimTrailing(s[..|s| - 1]) else s
  }

  /** `strip('\x00')` on the byte form of a field: the result has no NUL at
      either end, and only NUL bytes were removed around it. */
  function StripNul(s: seq<uint8>): (t: seq<uint8>)
    ensures Unpadded(t)
    ensures |t| <= |s|
    ensures exists a: nat, b: nat :: s == Zeros(a) + t + Zeros(b)
  {
    var l := TrimLeading(s);
    var t := TrimTrailing(l);
    LeadingSplit(s, l);
    TrailingSplit(l, t);
    Regroup(s, l, t, Zeros(|s| - |l|), Zeros(|l| - |t|));
    t
  }

  lemma Regroup(s: seq<uint8>, l: seq<uint8>, t: seq<uint8>, za: seq<uint8>, zb: seq<uint8>)
    requires s == za + l && l == t + zb
    ensures s == za + t + zb
  {
    assert za + (t + zb) == za + t + zb;
  }

  lemma LeadingSplit(s: seq<uint8>, l: seq<uint8>)
    requires l == TrimLeading(s)
    ensures s == Zeros(|s| - |l|) + l
  {
    ZeroPrefix(s, |s| - |l|);
  }

  /** A run of zero bytes at the front of `s` is a `Zeros` block. */
  lemma ZeroPrefix(s: seq<uint8>, k: nat)
    requires k <= |s|
    requires forall i :: 0 <= i < k ==> s[i] == 0
    ensures s == Zeros(k) + s[k..]
  {
    assert s[..k] == Zeros(k);
    assert s == s[..k] + s[k..];
  }

  /** A run of zero bytes at the back of `s` is a `Zeros` block. */
  lemma ZeroSuffix(s: seq<uint8>, k: nat)
    requires k <= |s|
    requires forall i :: k <= i < |s| ==> s[i] == 0
    ensures s == s[..k] + Zeros(|s| - k)
  {
    assert s[k..] == Zeros(|s| - k);
    assert s == s[..k] + s[k..];
  }

  lemma TrailingSplit(l: seq<uint8>, t: seq<uint8>)
    requires t == TrimTrailing(l)
    ensures l == t + Zeros(|l| - |t|)
  {
    ZeroSuffix(l, |t|);
  }

  lemma {:induction false} TrimLeadingUnpadded(s: seq<uint8>)
    requires |s| == 0 || s[0] != 0
    ensures TrimLeading(s) == s
  {
  }

  lemma {:induction false} TrimTrailingPadded(s: seq<uint8>, n: nat)
    requires |s| == 0 || s[|s| - 1] != 0
    ensures TrimTrailing(s + Zeros(n)) == s
    decreases n
  {
    if n > 0 {
      var p := s + Zeros(n);
      assert p[..|p| - 1] == s + Zeros(n - 1);
      TrimTrailingPadded(s, n - 1);
    } else {
      assert s + Zeros(0) == s;
    }
  }

  /** Stripping undoes `Ns` padding of a value with no NUL at either end. */
  lemma StripPadded(s: seq<uint8>, n: nat)
    requires Unpadded(s)
    ensures StripNul(s + Zeros(n)) == s
  {
    var p := s + Zeros(n);
    if |s| > 0 {
      TrimLeadingUnpadded(p);
    } else {
      assert p == Zeros(n);
      TrimLeadingAllZero(n);
    }
    TrimTrailingPadded(s, n);
  }

  lemma {:induction false} TrimLeadingAllZero(n: nat)
    ensures TrimLeading(Zeros(n)) == []
    decreases n
  {
    if n > 0 {
      assert Zeros(n)[1..] == Zeros(n - 1);
      TrimLeadingAllZero(n - 1);
    }
  }
}
