/** The error offsets and kinds `Message::parse` reports on the sample
    inputs of the crate's parser tests, and the general rules behind them:
    a byte other than the expected one is reported at its own offset with
    the kind of the expected token, and a decimal with a leading zero is
    reported just after its digits. */
module WireVectors {
  import opened Wrappers
  import opened Bytes
  import opened Decimal
  import Utf8
  import Identifiers
  import opened Wire

  /** An unexpected byte is reported at its offset, with the kind of the
      token the cursor expected; the end of the input is `UnexpectedEOF`. */
  lemma UnexpectedByte(buf: Bytes, off: nat, c: Byte, kind: ErrorKind)
    requires off <= |buf|
    ensures ConsumeChar(buf, off, c, kind).Ok? <==> off < |buf| && buf[off] == c
    ensures off == |buf| ==> ConsumeChar(buf, off, c, kind) == Err(ParseError(off, UnexpectedEOF))
    ensures off < |buf| && buf[off] != c ==> ConsumeChar(buf, off, c, kind) == Err(ParseError(off, kind))
  {}

  /** A run of two or more digits that starts with `0` is rejected after
      its last digit, whatever its value. */
  lemma {:induction false} LeadingZeroRejected(buf: Bytes, off: nat)
    requires off + 1 < |buf| && buf[off] == '0' && IsDigit(buf[off + 1])
    ensures ConsumeDecimal(buf, off) == Err(ParseError(DigitsEnd(buf, off), DecimalNumberHasLeadingZeroes))
  {
    assert DigitsEnd(buf, off) == DigitsEnd(buf, off + 1);
  }

  /** A decimal is accepted exactly when the run of digits at the cursor is
      canonical and its value fits `usize`; a canonical run too large for
      `usize` is reported after its last digit. */
  lemma DecimalAcceptsIff(buf: Bytes, off: nat)
    requires off <= |buf|
    ensures var e := DigitsEnd(buf, off);
      && AllDigits(buf[off..e])
      && (ConsumeDecimal(buf, off).Ok? <==> Canonical(buf[off..e]) && DecimalValue(buf[off..e]) <= USIZE_MAX)
      && (Canonical(buf[off..e]) && DecimalValue(buf[off..e]) > USIZE_MAX
          ==> ConsumeDecimal(buf, off) == Err(ParseError(e, DecimalNumberTooLarge)))
  {
    DigitsEndSpec(buf, off);
  }

  /** `{0|}`: a message needs at least its type. */
  lemma CountZero()
    ensures Parse("{0|}") == Err(ParseError(3, ExpectedMessageType))
  {
    var text: Bytes := "{0|}";
    assert DigitsEnd(text, 1) == 2;
    assert ParseHeader(text) == Ok(MessageIterator(text, 3, 0));
  }

  /** `{1|0:,}`: the empty type is not a message type. */
  lemma EmptyType()
    ensures Parse("{1|0:,}") == Err(ParseError(6, InvalidMessageType))
  {
    var text: Bytes := "{1|0:,}";
    assert DigitsEnd(text, 1) == 2;
    assert ParseHeader(text) == Ok(MessageIterator(text, 3, 1));
    assert DigitsEnd(text, 3) == 4;
    var zero: Bytes := ['0'];
    assert text[3..4] == zero && zero[..0] == [];
    assert DecimalValue(zero) == 0;
    assert ConsumeDecimal(text, 3) == Ok((0, 4));
    var empty: Bytes := [];
    assert text[4] == ':' && text[5] == ',' && text[5..5] == empty;
    assert ConsumeStringContents(text, 5, 0) == Ok((empty, 5));
    assert ConsumeItem(text, 3) == Ok((empty, 6));
    assert Find(empty, '.') == -1;
    assert Identifiers.ParseScopedIdentifier(empty) == None;
  }

  /** `#`, `{#` and `{4#`: each is reported at the `#`. */
  lemma UnexpectedHeaderBytes()
    ensures Parse("#") == Err(ParseError(0, ExpectedMessageOpener))
    ensures Parse("{#") == Err(ParseError(1, ExpectedDecimalNumber))
    ensures Parse("{4#") == Err(ParseError(2, ExpectedListSigil))
  {
    var t2: Bytes := "{#";
    assert DigitsEnd(t2, 1) == 1;
    var t3: Bytes := "{4#";
    assert DigitsEnd(t3, 1) == 2;
  }

  /** `{01|...`: the item count has a leading zero, reported after it. */
  lemma LeadingZeroCount()
    ensures Parse("{01|10:sig1.claim,}") == Err(ParseError(3, DecimalNumberHasLeadingZeroes))
  {
    var text: Bytes := "{01|10:sig1.claim,}";
    assert DigitsEnd(text, 3) == 3;
    LeadingZeroRejected(text, 1);
  }

  /** `{1|010:...`: a length prefix has a leading zero, reported after it. */
  lemma LeadingZeroLength()
    ensures Parse("{1|010:sig1.claim,}") == Err(ParseError(6, DecimalNumberHasLeadingZeroes))
  {
    var text: Bytes := "{1|010:sig1.claim,}";
    assert DigitsEnd(text, 1) == 2;
    assert ParseHeader(text) == Ok(MessageIterator(text, 3, 1));
    assert DigitsEnd(text, 6) == 6;
    LeadingZeroRejected(text, 3);
  }
}
