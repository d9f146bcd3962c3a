/** UTF-8 well-formedness as Rust's `str::from_utf8` decides it, including
    the position `Utf8Error::valid_up_to` reports. */
module Utf8 {
  import opened Bytes

  predicate IsContinuation(b: Byte) { 0x80 <= b as int < 0xC0 }

  /** Length of the well-formed UTF-8 sequence starting at `s[i]`, or 0 when
      the bytes there are not a complete well-formed sequence (RFC 3629,
      section 4: no overlongs, no surrogates, nothing above U+10FFFF). */
  function SequenceWidth(s: Bytes, i: nat): (w: nat)
    requires i < |s|
    ensures w <= 4 && i + w <= |s|
    ensures w == 1 <==> IsAscii(s[i])
  {
    var b := s[i] as int;
    if b < 0x80 then 1
    else if 0xC2 <= b <= 0xDF then
      if i + 1 < |s| && IsContinuation(s[i + 1]) then 2 else 0
    else if 0xE0 <= b <= 0xEF then
      var lo := if b == 0xE0 then 0xA0 else 0x80;
      var hi := if b == 0xED then 0x9F else 0xBF;
      if i + 2 < |s| && lo <= s[i + 1] as int <= hi && IsContinuation(s[i + 2]) then 3 else 0
    else if 0xF0 <= b <= 0xF4 then
      var lo := if b == 0xF0 then 0x90 else 0x80;
      var hi := if b == 0xF4 then 0x8F else 0xBF;
      if i + 3 < |s| && lo <= s[i + 1] as int <= hi && IsContinuation(s[i + 2])
         && IsContinuation(s[i + 3]) then 4 else 0
    else 0
  }

  /** Start of the first ill-formed or incomplete sequence at or after `i`,
      or `|s|` when there is none. */
  function ValidUpToFrom(s: Bytes, i: nat): (r: nat)
    requires i <= |s|
    ensures i <= r <= |s|
    ensures r < |s| ==> SequenceWidth(s, r) == 0
    decreases |s| - i
  {
    if i == |s| then |s|
    else
      var w := SequenceWidth(s, i);
      if w == 0 then i else ValidUpToFrom(s, i + w)
  }

  /** `Utf8Error::valid_up_to`: the length of the longest well-formed prefix.
      The scan reads `s[..r]` to its end, so the prefix is well-formed (see
      `ValidPrefix`), and the byte at `r` starts no well-formed sequence. */
  function ValidUpTo(s: Bytes): (r: nat)
    ensures r <= |s|
    ensures r < |s| ==> SequenceWidth(s, r) == 0
  {
    ValidUpToFrom(s, 0)
  }

  /** A well-formed sequence that ends within the first `k` bytes has the
      same width in `s[..k]`. */
  lemma WidthInPrefix(s: Bytes, k: nat, i: nat)
    requires i < k <= |s| && SequenceWidth(s, i) > 0 && i + SequenceWidth(s, i) <= k
    ensures SequenceWidth(s[..k], i) == SequenceWidth(s, i)
  {
    var p := s[..k];
    assert forall j :: i <= j < i + SequenceWidth(s, i) ==> p[j] == s[j];
  }

  /** Cutting `s` where the scan from `i` stopped leaves a text the scan
      from `i` reads to its end. */
  lemma {:induction false} ValidPrefixFrom(s: Bytes, i: nat)
    requires i <= |s|
    ensures var r := ValidUpToFrom(s, i); ValidUpToFrom(s[..r], i) == r
    decreases |s| - i
  {
    var r := ValidUpToFrom(s, i);
    if i < |s| {
      var w := SequenceWidth(s, i);
      if w > 0 {
        ValidPrefixFrom(s, i + w);
        WidthInPrefix(s, r, i);
      }
    } else {
      assert s[..r] == s;
    }
  }

  predicate Valid(s: Bytes) { ValidUpTo(s) == |s| }

  /** The prefix up to `valid_up_to` is well-formed. */
  lemma ValidPrefix(s: Bytes)
    ensures Valid(s[..ValidUpTo(s)])
  {
    ValidPrefixFrom(s, 0);
    var r := ValidUpTo(s);
    assert ValidUpTo(s[..r]) == ValidUpToFrom(s[..r], 0);
  }

  lemma {:induction false} AsciiFrom(s: Bytes, i: nat)
    requires i <= |s| && AllAscii(s)
    ensures ValidUpToFrom(s, i) == |s|
    decreases |s| - i
  {
    if i < |s| {
      AsciiFrom(s, i + 1);
    }
  }

  /** ASCII text is valid UTF-8. */
  lemma AsciiIsValid(s: Bytes)
    requires AllAscii(s)
    ensures Valid(s)
  {
    AsciiFrom(s, 0);
  }
}
