/** Truncated input. `Message::parse` never mistakes an incomplete message
    for a malformed one: cutting the input anywhere inside the bytes a
    successful parse consumes gives `UnexpectedEOF` at the cut, and cutting
    behind them changes nothing. This is what lets a reader wait for more
    bytes instead of resynchronising. */
module WirePrefix {
  import opened Wrappers
  import opened Bytes
  import opened Decimal
  import opened Wire

  /** The iterator `it`, over the first `k` bytes of its input only. */
  function Cut(it: MessageIterator, k: nat): (r: MessageIterator)
    requires it.offset <= k <= |it.buf|
    ensures r.buf == it.buf[..k] && r.offset == it.offset && r.remaining == it.remaining
  {
    MessageIterator(it.buf[..k], it.offset, it.remaining)
  }

  lemma CharTruncated(buf: Bytes, k: nat, off: nat, c: Byte, kind: ErrorKind)
    requires off <= k <= |buf| && ConsumeChar(buf, off, c, kind).Ok?
    ensures k == off ==> ConsumeChar(buf[..k], off, c, kind) == Err(ParseError(k, UnexpectedEOF))
    ensures k > off ==> ConsumeChar(buf[..k], off, c, kind) == ConsumeChar(buf, off, c, kind)
  {
  }

  /** The run of digits in a cut buffer ends at the cut at the latest. */
  lemma {:induction false} DigitsEndTruncated(buf: Bytes, k: nat, off: nat)
    requires off <= k <= |buf|
    ensures DigitsEnd(buf[..k], off) == if DigitsEnd(buf, off) <= k then DigitsEnd(buf, off) else k
    decreases k - off
  {
    if off < k && IsDigit(buf[off]) {
      DigitsEndTruncated(buf, k, off + 1);
    }
  }

  /** A decimal cut short is still a decimal, one that ends at the cut, so
      that whatever is expected after it runs into the end of the input. */
  lemma DecimalTruncated(buf: Bytes, k: nat, off: nat)
    requires off <= k <= |buf| && ConsumeDecimal(buf, off).Ok?
    ensures var e := ConsumeDecimal(buf, off).value.1;
      (k == off ==> ConsumeDecimal(buf[..k], off) == Err(ParseError(k, UnexpectedEOF)))
      && (off < k < e ==> ConsumeDecimal(buf[..k], off).Ok? && ConsumeDecimal(buf[..k], off).value.1 == k)
      && (e <= k ==> ConsumeDecimal(buf[..k], off) == ConsumeDecimal(buf, off))
  {
    var e := ConsumeDecimal(buf, off).value.1;
    DigitsEndTruncated(buf, k, off);
    DigitsEndSpec(buf, off);
    if off < k < e {
      var s := buf[off..e];
      assert buf[..k][off..k] == buf[off..k];
      assert s[..k - off] == buf[off..k];
      PrefixValueBound(s, k - off);
    } else if e <= k {
      assert buf[..k][off..e] == buf[off..e];
    }
  }

  /** An item cut short reports the end of the input at the cut. */
  lemma ItemTruncated(buf: Bytes, k: nat, off: nat)
    requires off <= k <= |buf| <= USIZE_MAX && ConsumeItem(buf, off).Ok?
    ensures var e := ConsumeItem(buf, off).value.1;
      (k < e ==> ConsumeItem(buf[..k], off) == Err(ParseError(k, UnexpectedEOF)))
      && (e <= k ==> ConsumeItem(buf[..k], off) == ConsumeItem(buf, off))
  {
    var (n, d1) := ConsumeDecimal(buf, off).value;
    DecimalTruncated(buf, k, off);
    if k < d1 {
      ItemCutInLength(buf[..k], off);
    } else {
      var q := d1 + 1;
      CharTruncated(buf, k, d1, ':', ExpectedStringSigil);
      if k == d1 {
        ItemCutAfterLength(buf[..k], off, n, d1);
      } else {
        var c1 := q + n;
        assert ConsumeStringContents(buf, q, n).Ok?;
        if k < c1 {
          ItemCutInContents(buf[..k], off, n, d1);
        } else {
          assert buf[..k][q..c1] == buf[q..c1];
          CharTruncated(buf, k, c1, ',', ExpectedStringCloser);
          ItemCutAtCloser(buf, k, off, n, d1);
        }
      }
    }
  }

  lemma ItemCutInLength(b: Bytes, off: nat)
    requires off <= |b| <= USIZE_MAX
    requires ConsumeDecimal(b, off) == Err(ParseError(|b|, UnexpectedEOF))
      || (ConsumeDecimal(b, off).Ok? && ConsumeDecimal(b, off).value.1 == |b|)
    ensures ConsumeItem(b, off) == Err(ParseError(|b|, UnexpectedEOF))
  {
  }

  lemma ItemCutAfterLength(b: Bytes, off: nat, n: nat, d1: nat)
    requires off <= |b| <= USIZE_MAX && ConsumeDecimal(b, off) == Ok((n, d1)) && d1 == |b|
    ensures ConsumeItem(b, off) == Err(ParseError(|b|, UnexpectedEOF))
  {
  }

  lemma ItemCutInContents(b: Bytes, off: nat, n: nat, d1: nat)
    requires off <= |b| <= USIZE_MAX && ConsumeDecimal(b, off) == Ok((n, d1))
    requires d1 < |b| && b[d1] == ':' && d1 + 1 + n > |b|
    ensures ConsumeItem(b, off) == Err(ParseError(|b|, UnexpectedEOF))
  {
    assert ConsumeChar(b, d1, ':', ExpectedStringSigil) == Ok(d1 + 1);
  }

  lemma ItemCutAtCloser(buf: Bytes, k: nat, off: nat, n: nat, d1: nat)
    requires off <= k <= |buf| <= USIZE_MAX && ConsumeItem(buf, off).Ok?
    requires ConsumeDecimal(buf, off) == Ok((n, d1)) && ConsumeDecimal(buf[..k], off) == Ok((n, d1))
    requires d1 + 1 + n <= k && buf[d1] == ':'
    requires buf[..k][d1 + 1..d1 + 1 + n] == buf[d1 + 1..d1 + 1 + n]
    ensures var e := ConsumeItem(buf, off).value.1;
      (k < e ==> ConsumeItem(buf[..k], off) == Err(ParseError(k, UnexpectedEOF)))
      && (e <= k ==> ConsumeItem(buf[..k], off) == ConsumeItem(buf, off))
  {
    var c1 := d1 + 1 + n;
    assert ConsumeChar(buf, d1, ':', ExpectedStringSigil) == Ok(d1 + 1);
    assert ConsumeChar(buf[..k], d1, ':', ExpectedStringSigil) == Ok(d1 + 1);
    CharTruncated(buf, k, c1, ',', ExpectedStringCloser);
  }

  /** One step of the iterator over a cut buffer. */
  lemma NextTruncated(it: MessageIterator, k: nat)
    requires it.offset <= k <= |it.buf| && it.remaining > 0
    requires NextOrError(it).0.Ok? && NextOrError(it).0.value.Some?
    ensures var it1 := NextOrError(it).1;
      (k < it1.offset ==> NextOrError(Cut(it, k)).0 == Err(ParseError(k, UnexpectedEOF)))
      && (it1.offset <= k ==> NextOrError(Cut(it, k)) == (NextOrError(it).0, Cut(it1, k)))
  {
    ItemTruncated(it.buf, k, it.offset);
  }

  /** Validation over a cut buffer: the end of the input at the cut if the
      cut lies inside the items, the same result otherwise. */
  lemma {:induction false} ValidateTruncated(it: MessageIterator, k: nat)
    requires it.offset <= k <= |it.buf| && ConsumeAndValidate(it).Ok?
    ensures var end := ConsumeAndValidate(it).value;
      (k < end ==> ConsumeAndValidate(Cut(it, k)) == Err(ParseError(k, UnexpectedEOF)))
      && (end <= k ==> ConsumeAndValidate(Cut(it, k)) == ConsumeAndValidate(it))
    decreases it.remaining
  {
    if it.remaining == 0 {
      IteratorEnd(it);
      IteratorEnd(Cut(it, k));
    } else {
      var it1 := NextOrError(it).1;
      NextTruncated(it, k);
      if it1.offset <= k {
        ValidateTruncated(it1, k);
      }
    }
  }

  /** `Message::parse` on a cut buffer. Cut inside the bytes a successful
      parse consumed, it reports `UnexpectedEOF` at the cut; cut behind
      them, it reads the same message type and the same length. */
  lemma ParseTruncated<T>(buf: Bytes, classify: Bytes -> Option<T>, k: nat)
    requires |buf| <= USIZE_MAX && k <= |buf| && ParseWith(buf, classify).Ok?
    ensures var (m, n) := ParseWith(buf, classify).value;
      (k < n ==> ParseWith(buf[..k], classify) == Err(ParseError(k, UnexpectedEOF)))
      && (n <= k ==> ParseWith(buf[..k], classify).Ok?
                     && ParseWith(buf[..k], classify).value.1 == n
                     && ParseWith(buf[..k], classify).value.0.parsedType == m.parsedType)
  {
    var count, q, s, it1, end := ParseParts(buf, classify);
    var it := MessageIterator(buf, q + 1, count);
    HeaderTruncated(buf, k, count, q);
    if q + 1 <= k {
      NextTruncated(it, k);
      if it1.offset <= k {
        ValidateTruncated(it1, k);
      }
      RestTruncated(buf, classify, k, count, q, s, it1, end);
    }
  }

  /** The header over a cut buffer. */
  lemma HeaderTruncated(buf: Bytes, k: nat, count: nat, q: nat)
    requires |buf| <= USIZE_MAX && k <= |buf| && 0 < |buf| && buf[0] == '{'
    requires ConsumeDecimal(buf, 1) == Ok((count, q)) && q < |buf| && buf[q] == '|'
    ensures k <= q ==> ParseHeader(buf[..k]) == Err(ParseError(k, UnexpectedEOF))
    ensures q < k ==> ParseHeader(buf[..k]) == Ok(MessageIterator(buf[..k], q + 1, count))
  {
    if k == 0 {
    } else {
      assert ConsumeChar(buf[..k], 0, '{', ExpectedMessageOpener) == Ok(1);
      DecimalTruncated(buf, k, 1);
      if q < k {
        assert ConsumeChar(buf[..k], q, '|', ExpectedListSigil) == Ok(q + 1);
      }
    }
  }

  /** The part of `ParseTruncated` behind the header. */
  lemma RestTruncated<T>(buf: Bytes, classify: Bytes -> Option<T>, k: nat,
                         count: nat, q: nat, s: Bytes, it1: MessageIterator, end: nat)
    requires |buf| <= USIZE_MAX && q < k <= |buf| && count > 0
    requires it1.buf == buf && it1.remaining == count - 1 && it1.offset <= end < |buf|
    requires classify(s).Some? && buf[end] == '}'
    requires ParseHeader(buf[..k]) == Ok(MessageIterator(buf[..k], q + 1, count))
    requires var it := MessageIterator(buf[..k], q + 1, count);
      (k < it1.offset ==> NextOrError(it).0 == Err(ParseError(k, UnexpectedEOF)))
      && (it1.offset <= k ==> NextOrError(it) == (Ok(Some(s)), Cut(it1, k)))
    requires it1.offset <= k < end ==> ConsumeAndValidate(Cut(it1, k)) == Err(ParseError(k, UnexpectedEOF))
    requires end <= k ==> ConsumeAndValidate(Cut(it1, k)) == Ok(end)
    ensures k <= end ==> ParseWith(buf[..k], classify) == Err(ParseError(k, UnexpectedEOF))
    ensures end < k ==> ParseWith(buf[..k], classify) == Ok((Message(classify(s).value, Cut(it1, k)), end + 1))
  {
    var it := MessageIterator(buf[..k], q + 1, count);
    if k < it1.offset {
      FirstItemFails(buf[..k], classify, it, ParseError(k, UnexpectedEOF));
    } else {
      var c := Cut(it1, k);
      AfterFirstItem(buf[..k], classify, it, s, c);
      if k < end {
        RestFails(classify(s).value, c, ParseError(k, UnexpectedEOF));
      } else if k == end {
        CloserMissing(classify(s).value, c, end);
      } else {
        RestOk(classify(s).value, c, end);
      }
    }
  }

  lemma FirstItemFails<T>(b: Bytes, classify: Bytes -> Option<T>, it: MessageIterator, e: ParseError)
    requires |b| <= USIZE_MAX && ParseHeader(b) == Ok(it) && NextOrError(it).0 == Err(e)
    ensures ParseWith(b, classify) == Err(e)
  {}

  lemma AfterFirstItem<T>(b: Bytes, classify: Bytes -> Option<T>, it: MessageIterator, s: Bytes, c: MessageIterator)
    requires |b| <= USIZE_MAX && ParseHeader(b) == Ok(it) && NextOrError(it) == (Ok(Some(s)), c)
    requires classify(s).Some?
    ensures ParseWith(b, classify) == ParseRest(classify(s).value, c)
  {}

  lemma RestFails<T>(t: T, c: MessageIterator, e: ParseError)
    requires ConsumeAndValidate(c) == Err(e)
    ensures ParseRest(t, c) == Err(e)
  {}

  lemma CloserMissing<T>(t: T, c: MessageIterator, end: nat)
    requires ConsumeAndValidate(c) == Ok(end) && end == |c.buf|
    ensures ParseRest(t, c) == Err(ParseError(end, UnexpectedEOF))
  {}

  /** Every strict prefix of a message reports `UnexpectedEOF` at its own
      length: an incomplete message is never taken for a malformed one. */
  lemma FramePrefix<T>(items: seq<Bytes>, classify: Bytes -> Option<T>, k: nat)
    requires |items| >= 1 && classify(items[0]).Some?
    requires |Frame(items)| <= USIZE_MAX && k < |Frame(items)|
    ensures ParseWith(Frame(items)[..k], classify) == Err(ParseError(k, UnexpectedEOF))
  {
    assert Frame(items) + [] == Frame(items);
    ParseRoundTrip(items, [], classify);
    ParseTruncated(Frame(items), classify, k);
  }
}
