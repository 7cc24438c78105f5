/** Strict UTF-8 well-formedness, as Python's `bytes.decode('utf-8')`
    checks it: the well-formed byte sequences of Table 3-7 of the Unicode
    Standard (no overlong forms, no surrogates, nothing above U+10FFFF). */
module Utf8 {
  import opened Packing

  predicate IsContinuation(b: uint8) {
    0x80 <= b <= 0xBF
  }

  /** Length of the well-formed character that starts `s`, or 0 when `s`
      does not start with one. */
  function CharLength(s: seq<uint8>): (n: nat)
    requires |s| > 0
    ensures n <= 4 && n <= |s|
    ensures n == 1 <==> s[0] < 0x80
  {
    var b := s[0];
    if b < 0x80 then 1
    else if 0xC2 <= b <= 0xDF then
      if |s| >= 2 && IsContinuation(s[1]) then 2 else 0
    else if b == 0xE0 then
      if |s| >= 3 && 0xA0 <= s[1] <= 0xBF && IsContinuation(s[2]) then 3 else 0
    else if (0xE1 <= b <= 0xEC) || (0xEE <= b <= 0xEF) then
      if |s| >= 3 && IsContinuation(s[1]) && IsContinuation(s[2]) then 3 else 0
    else if b == 0xED then
      if |s| >= 3 && 0x80 <= s[1] <= 0x9F && IsContinuation(s[2]) then 3 else 0
    else if b == 0xF0 then
      if |s| >= 4 && 0x90 <= s[1] <= 0xBF && IsContinuation(s[2]) && IsContinuation(s[3]) then 4 else 0
    else if 0xF1 <= b <= 0xF3 then
      if |s| >= 4 && IsContinuation(s[1]) && IsContinuation(s[2]) && IsContinuation(s[3]) then 4 else 0
    else if b == 0xF4 then
      if |s| >= 4 && 0x80 <= s[1] <= 0x8F && IsContinuation(s[2]) && IsContinuation(s[3]) then 4 else 0
    else 0
  }

  /** `s` decodes as UTF-8 without error. Such a text starts with a byte
      that may lead a character (never a continuation byte, C0, C1 or
      F5..FF) and does not stop inside a character: its last byte is
      ASCII or a continuation byte. */
  predicate ValidUtf8(s: seq<uint8>)
    ensures ValidUtf8(s) && |s| > 0 ==> !IsContinuation(s[0]) && s[0] != 0xC0 && s[0] != 0xC1 && s[0] < 0xF5
    ensures ValidUtf8(s) && |s| > 0 ==> s[|s| - 1] < 0x80 || IsContinuation(s[|s| - 1])
    decreases |s|
  {
    |s| == 0 || (CharLength(s) > 0 && ValidUtf8(s[CharLength(s)..]))
  }

  /** The length of a character depends only on its own bytes. */
  lemma CharLengthSame(a: seq<uint8>, b: seq<uint8>)
    requires |a| > 0 && CharLength(a) > 0 && CharLength(a) <= |b|
    requires forall i :: 0 <= i < CharLength(a) ==> a[i] == b[i]
    ensures CharLength(b) == CharLength(a)
  {
  }

  /** Concatenating two well-formed texts gives a well-formed text. */
  lemma {:induction false} ValidConcat(a: seq<uint8>, b: seq<uint8>)
    requires ValidUtf8(a) && ValidUtf8(b)
    ensures ValidUtf8(a + b)
    decreases |a|
  {
    if |a| == 0 {
      assert a + b == b;
    } else {
      var n := CharLength(a);
      var ab := a + b;
      assert forall i :: 0 <= i < n ==> a[i] == ab[i];
      CharLengthSame(a, ab);
      DropConcat(a, b, n);
      ValidConcat(a[n..], b);
      ValidStep(ab, n);
    }
  }

  /** Dropping a prefix of the first part of a concatenation. */
  lemma DropConcat(a: seq<uint8>, b: seq<uint8>, n: nat)
    requires n <= |a|
    ensures (a + b)[n..] == a[n..] + b
  {
  }

  /** A well-formed first character followed by well-formed text. */
  lemma ValidStep(s: seq<uint8>, n: nat)
    requires |s| > 0 && CharLength(s) == n && n > 0 && ValidUtf8(s[n..])
    ensures ValidUtf8(s)
  {
  }

  /** ASCII text is well-formed: every byte is a character of its own. */
  lemma {:induction false} ValidAscii(s: seq<uint8>)
    requires forall i :: 0 <= i < |s| ==> s[i] < 0x80
    ensures ValidUtf8(s)
    decreases |s|
  {
    if |s| > 0 {
      ValidAscii(s[1..]);
    }
  }

  /** NUL padding is well-formed. */
  lemma {:induction false} ValidZeros(n: nat)
    ensures ValidUtf8(Zeros(n))
    decreases n
  {
    if n > 0 {
      assert Zeros(n)[1..] == Zeros(n - 1);
      ValidZeros(n - 1);
    }
  }

  /** A NUL byte always stands alone, so cutting a trailing NUL keeps a
      text well-formed. */
  lemma {:induction false} ValidDropTrailingNul(s: seq<uint8>)
    requires |s| > 0 && s[|s| - 1] == 0 && ValidUtf8(s)
    ensures ValidUtf8(s[..|s| - 1])
    decreases |s|
  {
    var n := CharLength(s);
    var p := s[..|s| - 1];
    if n < |s| {
      assert s[n..][..|s[n..]| - 1] == p[n..];
      ValidDropTrailingNul(s[n..]);
      CharLengthSame(s, p);
    } else {
      assert n == 1;
    }
  }

  lemma {:induction false} ValidTrimLeading(s: seq<uint8>)
    requires ValidUtf8(s)
    ensures ValidUtf8(TrimLeading(s))
    decreases |s|
  {
    if |s| > 0 && s[0] == 0 {
      ValidTrimLeading(s[1..]);
    }
  }

  lemma {:induction false} ValidTrimTrailing(s: seq<uint8>)
    requires ValidUtf8(s)
    ensures ValidUtf8(TrimTrailing(s))
    decreases |s|
  {
    if |s| > 0 && s[|s| - 1] == 0 {
      ValidDropTrailingNul(s);
      ValidTrimTrailing(s[..|s| - 1]);
    }
  }

  /** Stripping NUL bytes from a well-formed text keeps it well-formed. */
  lemma ValidStripNul(s: seq<uint8>)
    requires ValidUtf8(s)
    ensures ValidUtf8(StripNul(s))
  {
    ValidTrimLeading(s);
    ValidTrimTrailing(TrimLeading(s));
  }

  /** `Ns` padding of a well-formed text that fits is well-formed. */
  lemma ValidPackFixed(s: seq<uint8>, w: nat)
    requires ValidUtf8(s) && |s| <= w
    ensures ValidUtf8(PackFixed(s, w))
  {
    var n: nat := w - |s|;
    ValidZeros(n);
    ValidConcat(s, Zeros(n));
    PackFixedPads(s, w);
  }
}
