/** Bytes, the byte classes the VT6 grammars are built from, and the
    machine-integer limits the implementation relies on. */
module Bytes {

  /** A byte. Characters below 256 are used so that ASCII literals can be
      written directly. */
  type Byte = c: char | c as int < 256 witness '\0'

  type Bytes = seq<Byte>

  /** `usize` is taken to be 64 bits wide. */
  const USIZE_MAX: nat := 0xFFFF_FFFF_FFFF_FFFF
  const U16_MAX: nat := 0xFFFF
  const U32_MAX: nat := 0xFFFF_FFFF

  predicate IsDigit(b: Byte) { '0' <= b <= '9' }

  predicate IsAsciiLetter(b: Byte) { 'A' <= b <= 'Z' || 'a' <= b <= 'z' }

  predicate IsAsciiAlphanumeric(b: Byte) { IsAsciiLetter(b) || IsDigit(b) }

  predicate IsAscii(b: Byte) { b as int < 128 }

  predicate AllAscii(s: Bytes) { forall i :: 0 <= i < |s| ==> IsAscii(s[i]) }

  predicate AllDigits(s: Bytes) { forall i :: 0 <= i < |s| ==> IsDigit(s[i]) }

  /** The byte for the decimal digit `d`. */
  function DigitByte(d: nat): (b: Byte)
    requires d < 10
    ensures IsDigit(b) && b as int - '0' as int == d
  {
    (d + '0' as int) as char
  }

  function DigitValue(b: Byte): (d: nat)
    requires IsDigit(b)
    ensures d < 10 && DigitByte(d) == b
  {
    b as int - '0' as int
  }

  /** Index of the first occurrence of `b` in `s`, like Rust's `find` /
      `position`. */
  function Find(s: Bytes, b: Byte): (r: int)
    ensures -1 <= r < |s|
    ensures r >= 0 ==> s[r] == b
  {
    if |s| == 0 then -1
    else if s[0] == b then 0
    else
      var r := Find(s[1..], b);
      if r == -1 then -1 else r + 1
  }

  /** `Find` gives the first occurrence, and -1 exactly when there is
      none. */
  lemma {:induction false} FindIsFirst(s: Bytes, b: Byte)
    ensures var r := Find(s, b);
      && (r >= 0 ==> forall i :: 0 <= i < r ==> s[i] != b)
      && (r == -1 <==> forall i :: 0 <= i < |s| ==> s[i] != b)
  {
    if |s| > 0 && s[0] != b {
      FindIsFirst(s[1..], b);
      assert forall i :: 1 <= i < |s| ==> s[i] == s[1..][i - 1];
    }
  }

  /** The first occurrence of `b` is where `Find` stops. */
  lemma {:induction false} FindAt(s: Bytes, b: Byte, i: nat)
    requires i < |s| && s[i] == b
    requires forall k :: 0 <= k < i ==> s[k] != b
    ensures Find(s, b) == i
  {
    if i > 0 {
      FindAt(s[1..], b, i - 1);
    }
  }

  /** A sequence is the part before index `i`, the element at `i`, and the
      part after it. */
  lemma SplitAround(s: Bytes, i: nat)
    requires i < |s|
    ensures s == s[..i] + [s[i]] + s[i + 1..]
  {}

  /** A slice is the concatenation of two adjacent slices. */
  lemma SliceJoin(s: Bytes, i: nat, j: nat, k: nat)
    requires i <= j <= k <= |s|
    ensures s[i..k] == s[i..j] + s[j..k]
  {}
}
