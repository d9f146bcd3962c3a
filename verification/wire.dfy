/** The VT6 message wire format `{N|len:bytes,len:bytes,...}` and its
    parser: a cursor over the input, a lazy iterator over the message's
    items, and `Message::parse`, which validates a whole message up front
    so that iterating over its arguments can never fail. */
module Wire {
  import opened Wrappers
  import opened Bytes
  import opened Decimal
  import Utf8
  import Identifiers

  datatype ErrorKind =
    | UnexpectedEOF
    | ExpectedMessageOpener
    | ExpectedMessageCloser
    | ExpectedDecimalNumber
    | DecimalNumberTooLarge
    | DecimalNumberHasLeadingZeroes
    | ExpectedListSigil
    | ExpectedStringSigil
    | ExpectedStringCloser
    | ExpectedMessageType
    | InvalidMessageType

  /** Where parsing stopped and why. The offset is the cursor position at
      the moment of failure. */
  datatype ParseError = ParseError(offset: nat, kind: ErrorKind)

  // ---------------------------------------------------------------------
  // The canonical encoding

  /** One bytestring item: `len:bytes,`. */
  function Netstring(s: Bytes): Bytes {
    NatToDecimal(|s|) + [':'] + s + [',']
  }

  /** A list of items, back to back. */
  function Netstrings(items: seq<Bytes>): Bytes {
    if |items| == 0 then [] else Netstring(items[0]) + Netstrings(items[1..])
  }

  /** A whole message whose first item is the message type:
      `{N|item,item,...}`. */
  function Frame(items: seq<Bytes>): Bytes {
    ['{'] + NatToDecimal(|items|) + ['|'] + Netstrings(items) + ['}']
  }

  // ---------------------------------------------------------------------
  // Cursor

  /** `Cursor::consume_char`: the expected byte, else `kind` at the current
      offset, or `UnexpectedEOF` there when the input has ended. */
  function ConsumeChar(buf: Bytes, off: nat, c: Byte, kind: ErrorKind): (r: Result<nat, ParseError>)
    requires off <= |buf|
    ensures r.Ok? ==> off < |buf| && r.value == off + 1
  {
    if off == |buf| then Err(ParseError(off, UnexpectedEOF))
    else if buf[off] != c then Err(ParseError(off, kind))
    else Ok(off + 1)
  }

  /** End of the run of digits starting at `off`. */
  function DigitsEnd(buf: Bytes, off: nat): (e: nat)
    requires off <= |buf|
    ensures off <= e <= |buf|
    decreases |buf| - off
  {
    if off == |buf| || !IsDigit(buf[off]) then off else DigitsEnd(buf, off + 1)
  }

  /** `DigitsEnd` stops at the first byte that is not a digit. */
  lemma {:induction false} DigitsEndSpec(buf: Bytes, off: nat)
    requires off <= |buf|
    ensures var e := DigitsEnd(buf, off);
      AllDigits(buf[off..e]) && (e < |buf| ==> !IsDigit(buf[e]))
    decreases |buf| - off
  {
    if off < |buf| && IsDigit(buf[off]) {
      DigitsEndSpec(buf, off + 1);
      var e := DigitsEnd(buf, off + 1);
      assert buf[off..e] == [buf[off]] + buf[off + 1..e];
    }
  }

  /** `Cursor::consume_decimal`: a canonical decimal that fits `usize`.
      The leading-zero and overflow errors are reported after the digits. */
  function ConsumeDecimal(buf: Bytes, off: nat): (r: Result<(nat, nat), ParseError>)
    requires off <= |buf|
    ensures r.Ok? ==> off < r.value.1 <= |buf| && r.value.0 <= USIZE_MAX
    ensures r.Err? ==> r.error.offset <= |buf|
  {
    if off == |buf| then Err(ParseError(off, UnexpectedEOF))
    else
      var e := DigitsEnd(buf, off);
      if e == off then Err(ParseError(off, ExpectedDecimalNumber))
      else if e - off > 1 && buf[off] == '0' then Err(ParseError(e, DecimalNumberHasLeadingZeroes))
      else
        DigitsEndSpec(buf, off);
        var v := DecimalValue(buf[off..e]);
        if v > USIZE_MAX then Err(ParseError(e, DecimalNumberTooLarge)) else Ok((v, e))
  }

  /** What `ConsumeDecimal` accepts is a canonical decimal that is not
      followed by another digit, and its value is what it returns. */
  lemma ConsumedDecimal(buf: Bytes, off: nat)
    requires off <= |buf| && ConsumeDecimal(buf, off).Ok?
    ensures var (v, e) := ConsumeDecimal(buf, off).value;
      Canonical(buf[off..e]) && v == DecimalValue(buf[off..e]) && (e < |buf| ==> !IsDigit(buf[e]))
  {
    DigitsEndSpec(buf, off);
  }

  /** The two errors `ConsumeDecimal` reports where it starts. */
  lemma DecimalErrorsAtStart(buf: Bytes, off: nat)
    requires off <= |buf|
    ensures off == |buf| ==> ConsumeDecimal(buf, off) == Err(ParseError(off, UnexpectedEOF))
    ensures off < |buf| && !IsDigit(buf[off]) ==> ConsumeDecimal(buf, off) == Err(ParseError(off, ExpectedDecimalNumber))
  {
    DigitsEndSpec(buf, off);
  }

  /** `Cursor::consume_string_contents`, with the `wrapping_add` of the
      source written out (both operands are below 2^64, so the sum wraps at
      most once): the check catches both a wrapped sum and a sum past the
      end. */
  function ConsumeStringContents(buf: Bytes, off: nat, count: nat): (r: Result<(Bytes, nat), ParseError>)
    requires off <= |buf| <= USIZE_MAX && count <= USIZE_MAX
    ensures r.Ok? <==> off + count <= |buf|
    ensures r.Ok? ==> r.value == (buf[off..off + count], off + count)
    ensures r.Err? ==> r.error == ParseError(|buf|, UnexpectedEOF)
  {
    var sum := off + count;
    var newOffset := if sum > USIZE_MAX then sum - (USIZE_MAX + 1) else sum;
    if newOffset < off || newOffset > |buf| then Err(ParseError(|buf|, UnexpectedEOF))
    else Ok((buf[off..newOffset], newOffset))
  }

  /** One item as `next_or_error` reads it: length, `:`, contents, `,`. */
  function ConsumeItem(buf: Bytes, off: nat): (r: Result<(Bytes, nat), ParseError>)
    requires off <= |buf| <= USIZE_MAX
    ensures r.Ok? ==> off < r.value.1 <= |buf|
    ensures r.Err? ==> r.error.offset <= |buf|
  {
    var d :- ConsumeDecimal(buf, off);
    var q :- ConsumeChar(buf, d.1, ':', ExpectedStringSigil);
    var c :- ConsumeStringContents(buf, q, d.0);
    var e :- ConsumeChar(buf, c.1, ',', ExpectedStringCloser);
    Ok((c.0, e))
  }

  /** What `ConsumeItem` accepts is exactly the canonical encoding of the
      item it returns. */
  lemma ConsumedItemIsNetstring(buf: Bytes, off: nat)
    requires off <= |buf| <= USIZE_MAX && ConsumeItem(buf, off).Ok?
    ensures var (s, e) := ConsumeItem(buf, off).value; buf[off..e] == Netstring(s)
  {
    var (n, d1) := ConsumeDecimal(buf, off).value;
    var q := d1 + 1;
    var (s, c1) := ConsumeStringContents(buf, q, n).value;
    assert ConsumeItem(buf, off).value == (s, c1 + 1);
    assert buf[d1] == ':' && buf[c1] == ',' && buf[q..c1] == s && n == |s|;
    assert buf[off..d1] == NatToDecimal(n) by {
      ConsumedDecimal(buf, off);
      CanonicalRoundTrip(buf[off..d1]);
    }
    NetstringFromParts(buf, off, d1, c1, s);
  }

  lemma NetstringFromParts(buf: Bytes, off: nat, d1: nat, c1: nat, s: Bytes)
    requires off <= d1 < c1 < |buf|
    requires buf[off..d1] == NatToDecimal(|s|) && buf[d1] == ':' && buf[d1 + 1..c1] == s && buf[c1] == ','
    ensures buf[off..c1 + 1] == Netstring(s)
  {
    FourParts(buf, off, d1, c1);
  }

  /** A slice cut at two single elements. */
  lemma FourParts<T>(buf: seq<T>, a: nat, b: nat, d: nat)
    requires a <= b < d < |buf|
    ensures buf[a..d + 1] == buf[a..b] + [buf[b]] + buf[b + 1..d] + [buf[d]]
  {
  }

  // ---------------------------------------------------------------------
  // MessageIterator

  /** The iterator over a message's items: the input, the cursor offset and
      the number of items still to be read. */
  datatype MessageIteratorState = MessageIterator(buf: Bytes, offset: nat, remaining: nat)

  type MessageIterator = it: MessageIteratorState | it.offset <= |it.buf| <= USIZE_MAX
    witness MessageIterator([], 0, 0)

  /** `MessageIterator::next_or_error`, returning the iterator state after
      the call also on failure (the item count has been decremented and the
      cursor stands where the error was found). */
  function NextOrError(it: MessageIterator): (r: (Result<Option<Bytes>, ParseError>, MessageIterator))
    ensures r.1.buf == it.buf
    ensures it.remaining == 0 ==> r == (Ok(None), it)
    ensures it.remaining > 0 ==> r.1.remaining == it.remaining - 1 && (r.0.Ok? ==> r.0.value.Some?)
    ensures r.0.Ok? && r.0.value.Some? ==> it.offset < r.1.offset
  {
    if it.remaining == 0 then (Ok(None), it)
    else
      match ConsumeItem(it.buf, it.offset)
      case Ok((s, e)) => (Ok(Some(s)), MessageIterator(it.buf, e, it.remaining - 1))
      case Err(err) => (Err(err), MessageIterator(it.buf, err.offset, it.remaining - 1))
  }

  /** `Iterator::next`: a parse error reads as the end of the items. */
  function Next(it: MessageIterator): (r: (Option<Bytes>, MessageIterator))
    ensures r.0.Some? ==> r.1.remaining == it.remaining - 1
  {
    var (x, it') := NextOrError(it);
    (if x.Ok? then x.value else None, it')
  }

  /** Everything a `for` loop over the iterator yields. */
  function Arguments(it: MessageIterator): (r: seq<Bytes>)
    ensures |r| <= it.remaining
    decreases it.remaining
  {
    var (x, it') := Next(it);
    if x.None? then [] else [x.value] + Arguments(it')
  }

  /** `MessageIterator::consume_and_validate`: reads every remaining item
      and returns the cursor offset behind the last one. */
  function ConsumeAndValidate(it: MessageIterator): (r: Result<nat, ParseError>)
    ensures r.Ok? ==> it.offset <= r.value <= |it.buf|
    decreases it.remaining
  {
    var (x, it') := NextOrError(it);
    if x.Err? then Err(x.error)
    else if x.value.None? then Ok(it'.offset)
    else ConsumeAndValidate(it')
  }

  /** `ExactSizeIterator::len`. */
  function Len(it: MessageIterator): nat {
    it.remaining
  }

  /** `MessageIterator::exactly1`. */
  function Exactly1<A>(it: MessageIterator, decodeA: Bytes -> Option<A>): Option<A> {
    if it.remaining != 1 then None
    else
      var (x, _) := Next(it);
      if x.None? then None else decodeA(x.value)
  }

  /** `MessageIterator::exactly2`. */
  function Exactly2<A, B>(it: MessageIterator, decodeA: Bytes -> Option<A>, decodeB: Bytes -> Option<B>)
    : Option<(A, B)>
  {
    if it.remaining != 2 then None
    else
      var (x, it1) := Next(it);
      var a :- x;
      var va :- decodeA(a);
      var (y, _) := Next(it1);
      var b :- y;
      var vb :- decodeB(b);
      Some((va, vb))
  }

  /** `MessageIterator::exactly4`. */
  function Exactly4<A, B, C, D>(it: MessageIterator, decodeA: Bytes -> Option<A>,
                                decodeB: Bytes -> Option<B>, decodeC: Bytes -> Option<C>,
                                decodeD: Bytes -> Option<D>): Option<(A, B, C, D)>
  {
    if it.remaining != 4 then None
    else
      var (x1, it1) := Next(it);
      var a :- x1;
      var va :- decodeA(a);
      var (x2, it2) := Next(it1);
      var b :- x2;
      var vb :- decodeB(b);
      var (x3, it3) := Next(it2);
      var c :- x3;
      var vc :- decodeC(c);
      var (x4, _) := Next(it3);
      var d :- x4;
      var vd :- decodeD(d);
      Some((va, vb, vc, vd))
  }

  /** One step of `Next` seen through `Arguments`: the step yields the
      first argument and leaves the rest, or yields nothing and there are
      no arguments. */
  lemma NextIsFirstArgument(it: MessageIterator)
    ensures var (x, it') := Next(it);
      (x.None? <==> |Arguments(it)| == 0)
      && (x.Some? ==> x.value == Arguments(it)[0] && Arguments(it') == Arguments(it)[1..])
  {
    var (x, it') := Next(it);
    if x.Some? {
      assert Arguments(it) == [x.value] + Arguments(it');
    }
  }

  /** `exactly1` succeeds when there is exactly one item, it is read
      without error and it decodes. */
  lemma Exactly1Spec<A>(it: MessageIterator, decodeA: Bytes -> Option<A>)
    ensures var args := Arguments(it);
      Exactly1(it, decodeA) == if it.remaining == 1 && |args| == 1 then decodeA(args[0]) else None
  {
    NextIsFirstArgument(it);
    if it.remaining == 1 {
      var (x, it1) := Next(it);
      if x.Some? {
        NextIsFirstArgument(it1);
      }
    }
  }

  /** `exactly2` succeeds when there are exactly two items, both read
      without error and each decodes. */
  lemma Exactly2Spec<A, B>(it: MessageIterator, decodeA: Bytes -> Option<A>, decodeB: Bytes -> Option<B>)
    ensures var args := Arguments(it);
      Exactly2(it, decodeA, decodeB)
        == if it.remaining == 2 && |args| == 2 && decodeA(args[0]).Some? && decodeB(args[1]).Some?
           then Some((decodeA(args[0]).value, decodeB(args[1]).value)) else None
  {
    NextIsFirstArgument(it);
    if it.remaining == 2 {
      var (x, it1) := Next(it);
      if x.Some? {
        NextIsFirstArgument(it1);
        var (y, it2) := Next(it1);
        if y.Some? {
          NextIsFirstArgument(it2);
        }
      }
    }
  }

  /** `exactly4` succeeds when there are exactly four items, all read
      without error and each decodes. */
  lemma Exactly4Spec<A, B, C, D>(it: MessageIterator, decodeA: Bytes -> Option<A>,
                                 decodeB: Bytes -> Option<B>, decodeC: Bytes -> Option<C>,
                                 decodeD: Bytes -> Option<D>)
    ensures var args := Arguments(it);
      Exactly4(it, decodeA, decodeB, decodeC, decodeD)
        == if it.remaining == 4 && |args| == 4 && decodeA(args[0]).Some? && decodeB(args[1]).Some?
              && decodeC(args[2]).Some? && decodeD(args[3]).Some?
           then Some((decodeA(args[0]).value, decodeB(args[1]).value, decodeC(args[2]).value, decodeD(args[3]).value))
           else None
  {
    NextIsFirstArgument(it);
    if it.remaining == 4 {
      var (x1, it1) := Next(it);
      if x1.Some? {
        NextIsFirstArgument(it1);
        var (x2, it2) := Next(it1);
        if x2.Some? {
          NextIsFirstArgument(it2);
          var (x3, it3) := Next(it2);
          if x3.Some? {
            NextIsFirstArgument(it3);
            var (x4, it4) := Next(it3);
            if x4.Some? {
              assert Arguments(it4) == [];
              assert Arguments(it) == [x1.value, x2.value, x3.value, x4.value];
            }
          }
        }
      }
    }
  }

  // ---------------------------------------------------------------------
  // Message

  /** A parsed message: its type, and the iterator over its arguments. */
  datatype Message<T> = Message(parsedType: T, arguments: MessageIterator)

  /** `Message::parse`, for a given classification of the first item (the
      message type). Returns the message and the number of bytes it spans. */
  function ParseWith<T>(buf: Bytes, classify: Bytes -> Option<T>): (r: Result<(Message<T>, nat), ParseError>)
    requires |buf| <= USIZE_MAX
    ensures r.Ok? ==> r.value.1 <= |buf|
  {
    match ParseHeader(buf)
    case Err(e) => Err(e)
    case Ok(it) =>
      var (first, it1) := NextOrError(it);
      match first
      case Err(e) => Err(e)
      case Ok(None) => Err(ParseError(it1.offset, ExpectedMessageType))
      case Ok(Some(s)) =>
        match classify(s)
        case None => Err(ParseError(it1.offset, InvalidMessageType))
        case Some(t) => ParseRest(t, it1)
  }

  /** The end of `Message::parse`: validate the remaining items, then the
      closer. */
  function ParseRest<T>(t: T, it1: MessageIterator): (r: Result<(Message<T>, nat), ParseError>)
    ensures r.Ok? ==> r.value.1 <= |it1.buf|
  {
    match ConsumeAndValidate(it1)
    case Err(e) => Err(e)
    case Ok(end) =>
      match ConsumeChar(it1.buf, end, '}', ExpectedMessageCloser)
      case Err(e) => Err(e)
      case Ok(final) => Ok((Message(t, it1), final))
  }

  /** The start of `Message::parse`: the opener, the item count and the list
      sigil, giving the iterator over all items. */
  function ParseHeader(buf: Bytes): (r: Result<MessageIterator, ParseError>)
    requires |buf| <= USIZE_MAX
    ensures r.Ok? ==> r.value.buf == buf
  {
    var off1 :- ConsumeChar(buf, 0, '{', ExpectedMessageOpener);
    var count :- ConsumeDecimal(buf, off1);
    var off3 :- ConsumeChar(buf, count.1, '|', ExpectedListSigil);
    Ok(MessageIterator(buf, off3, count.0))
  }

  /** The message-type check of `Message::parse`: the first item must be
      UTF-8 and must parse as a `MessageType`. */
  function ClassifyMessageType(s: Bytes): (r: Option<Identifiers.MessageType>)
    ensures r.Some? <==> Utf8.Valid(s) && Identifiers.ParseMessageType(s).Some?
    ensures r.Some? ==> r == Identifiers.ParseMessageType(s) && Identifiers.MessageTypeText(r.value) == s
  {
    if Utf8.Valid(s) then
      var t := Identifiers.ParseMessageType(s);
      if t.Some? then Identifiers.MessageTypeRoundTrip(s); t else None
    else None
  }

  /** `Message::parse`: what it accepts is the frame of the message's type
      text and its arguments. */
  function Parse(buf: Bytes): (r: Result<(Message<Identifiers.MessageType>, nat), ParseError>)
    requires |buf| <= USIZE_MAX
    ensures r.Ok? ==> r.value.1 <= |buf|
    ensures r.Ok? ==> buf[..r.value.1] == Frame([Identifiers.MessageTypeText(r.value.0.parsedType)] + Arguments(r.value.0.arguments))
  {
    var r := ParseWith(buf, ClassifyMessageType);
    if r.Ok? then ParseCanonical(buf, ClassifyMessageType); r else r
  }

  // ---------------------------------------------------------------------
  // Round trip: the parser reads back what `Frame` writes

  lemma NetstringsLength(items: seq<Bytes>)
    ensures |Netstrings(items)| >= 3 * |items|
  {
    if |items| > 0 {
      NetstringsLength(items[1..]);
    }
  }

  /** `x` occurs in `buf` at offset `off`. Stated recursively, so that the
      facts about a frame's layout stay free of quantifiers. */
  predicate At(buf: Bytes, off: nat, x: Bytes)
    decreases |x|
  {
    off + |x| <= |buf| && (|x| == 0 || (buf[off] == x[0] && At(buf, off + 1, x[1..])))
  }

  lemma {:induction false} AtIndex(buf: Bytes, off: nat, x: Bytes, i: nat)
    requires At(buf, off, x) && i < |x|
    ensures buf[off + i] == x[i]
    decreases i
  {
    if i > 0 {
      AtIndex(buf, off + 1, x[1..], i - 1);
    }
  }

  lemma {:induction false} AtFromIndex(buf: Bytes, off: nat, x: Bytes)
    requires off + |x| <= |buf| && forall i | 0 <= i < |x| :: buf[off + i] == x[i]
    ensures At(buf, off, x)
    decreases |x|
  {
    if |x| > 0 {
      forall i | 0 <= i < |x| - 1
        ensures buf[off + 1 + i] == x[1..][i]
      {
        assert buf[off + (i + 1)] == x[i + 1];
      }
      assert buf[off + 0] == x[0];
      AtFromIndex(buf, off + 1, x[1..]);
    }
  }

  lemma AtConcat(buf: Bytes, off: nat, a: Bytes, b: Bytes)
    ensures At(buf, off, a + b) <==> At(buf, off, a) && At(buf, off + |a|, b)
  {
    if At(buf, off, a) && At(buf, off + |a|, b) {
      forall i | 0 <= i < |a + b|
        ensures buf[off + i] == (a + b)[i]
      {
        if i < |a| {
          AtIndex(buf, off, a, i);
        } else {
          AtIndex(buf, off + |a|, b, i - |a|);
        }
      }
      AtFromIndex(buf, off, a + b);
    }
    if At(buf, off, a + b) {
      forall i | 0 <= i < |a|
        ensures buf[off + i] == a[i]
      {
        AtIndex(buf, off, a + b, i);
      }
      AtFromIndex(buf, off, a);
      forall i | 0 <= i < |b|
        ensures buf[off + |a| + i] == b[i]
      {
        AtIndex(buf, off, a + b, |a| + i);
      }
      AtFromIndex(buf, off + |a|, b);
    }
  }

  lemma AtSlice(buf: Bytes, off: nat, x: Bytes)
    requires At(buf, off, x)
    ensures buf[off..off + |x|] == x
  {
    forall i | 0 <= i < |x|
      ensures buf[off..off + |x|][i] == x[i]
    {
      AtIndex(buf, off, x, i);
    }
  }

  lemma PrefixIsAt(buf: Bytes, x: Bytes)
    requires |x| <= |buf| && buf[..|x|] == x
    ensures At(buf, 0, x)
  {
    forall i | 0 <= i < |x|
      ensures buf[0 + i] == x[i]
    {
      assert buf[..|x|][i] == buf[i];
    }
    AtFromIndex(buf, 0, x);
  }

  /** The four parts of a netstring found in a buffer. */
  lemma NetstringAt(buf: Bytes, off: nat, s: Bytes)
    requires At(buf, off, Netstring(s))
    ensures var n := |NatToDecimal(|s|)|;
      At(buf, off, NatToDecimal(|s|)) && buf[off + n] == ':' && At(buf, off + n + 1, s)
      && buf[off + n + 1 + |s|] == ','
  {
    var d := NatToDecimal(|s|);
    AtConcat(buf, off, d + [':'] + s, [',']);
    AtConcat(buf, off, d + [':'], s);
    AtConcat(buf, off, d, [':']);
  }

  /** The first netstring of a list found in a buffer, and the rest. */
  lemma NetstringsAt(buf: Bytes, off: nat, items: seq<Bytes>)
    requires |items| > 0 && At(buf, off, Netstrings(items))
    ensures At(buf, off, Netstring(items[0]))
    ensures At(buf, off + |Netstring(items[0])|, Netstrings(items[1..]))
  {
    AtConcat(buf, off, Netstring(items[0]), Netstrings(items[1..]));
  }

  /** The five parts of a frame found at the start of a buffer, with the
      offset `q` of the list sigil and `end` of the closing brace. */
  lemma FrameAtStart(buf: Bytes, items: seq<Bytes>, q: nat, end: nat)
    requires At(buf, 0, Frame(items))
    requires q == 1 + |NatToDecimal(|items|)| && end == q + 1 + |Netstrings(items)|
    ensures buf[0] == '{' && At(buf, 1, NatToDecimal(|items|)) && buf[q] == '|'
    ensures At(buf, q + 1, Netstrings(items)) && end < |buf| && buf[end] == '}'
    ensures |Frame(items)| == end + 1
  {
    var d := NatToDecimal(|items|);
    FrameBodyAt(buf, ['{'] + d + ['|'], Netstrings(items), q + 1, end);
    FrameHeadAt(buf, d, q);
  }

  lemma FrameBodyAt(buf: Bytes, head: Bytes, body: Bytes, b: nat, end: nat)
    requires At(buf, 0, head + body + ['}']) && b == |head| && end == b + |body|
    ensures At(buf, 0, head) && At(buf, b, body) && end < |buf| && buf[end] == '}'
  {
    AtConcat(buf, 0, head + body, ['}']);
    AtConcat(buf, 0, head, body);
  }

  lemma FrameHeadAt(buf: Bytes, d: Bytes, q: nat)
    requires At(buf, 0, ['{'] + d + ['|']) && q == 1 + |d|
    ensures buf[0] == '{' && At(buf, 1, d) && buf[q] == '|'
  {
    AtConcat(buf, 0, ['{'] + d, ['|']);
    AtConcat(buf, 0, ['{'], d);
  }

  /** The header of a frame is read back: the item count, then the sigil. */
  lemma FrameHeader(buf: Bytes, items: seq<Bytes>, q: nat, end: nat)
    requires |buf| <= USIZE_MAX && At(buf, 0, Frame(items))
    requires q == 1 + |NatToDecimal(|items|)| && end == q + 1 + |Netstrings(items)|
    ensures 0 < |buf| && buf[0] == '{' && ConsumeDecimal(buf, 1) == Ok((|items|, q))
    ensures q + 1 <= |buf| && buf[q] == '|' && At(buf, q + 1, Netstrings(items))
    ensures end < |buf| && buf[end] == '}' && |Frame(items)| == end + 1
  {
    FrameAtStart(buf, items, q, end);
    NetstringsLength(items);
    DecimalAt(buf, 1, |items|);
  }

  lemma {:induction false} DigitsEndAt(buf: Bytes, off: nat, e: nat)
    requires off <= e <= |buf| && (forall i | off <= i < e :: IsDigit(buf[i]))
    requires e < |buf| ==> !IsDigit(buf[e])
    ensures DigitsEnd(buf, off) == e
    decreases e - off
  {
    if off < e {
      DigitsEndAt(buf, off + 1, e);
    }
  }

  /** A canonical decimal followed by a non-digit is read back exactly. */
  lemma DecimalAt(buf: Bytes, off: nat, n: nat)
    requires At(buf, off, NatToDecimal(n)) && n <= USIZE_MAX
    requires off + |NatToDecimal(n)| < |buf| ==> !IsDigit(buf[off + |NatToDecimal(n)|])
    ensures ConsumeDecimal(buf, off) == Ok((n, off + |NatToDecimal(n)|))
  {
    var d := NatToDecimal(n);
    forall i | off <= i < off + |d|
      ensures IsDigit(buf[i])
    {
      AtIndex(buf, off, d, i - off);
    }
    DigitsEndAt(buf, off, off + |d|);
    AtSlice(buf, off, d);
    NatToDecimalIsCanonical(n);
    DecimalRoundTrip(n);
  }

  /** The parser reads back one item written by `Netstring`. */
  lemma ItemAt(buf: Bytes, off: nat, s: Bytes)
    requires |buf| <= USIZE_MAX && At(buf, off, Netstring(s))
    ensures ConsumeItem(buf, off) == Ok((s, off + |Netstring(s)|))
  {
    var q := off + |NatToDecimal(|s|)|;
    NetstringAt(buf, off, s);
    DecimalAt(buf, off, |s|);
    AtSlice(buf, q + 1, s);
    ConsumeItemSteps(buf, off, |s|, q, s);
  }

  /** `ConsumeItem` succeeds when each of its four steps does. */
  lemma ConsumeItemSteps(buf: Bytes, off: nat, n: nat, q: nat, s: Bytes)
    requires off <= |buf| <= USIZE_MAX && ConsumeDecimal(buf, off) == Ok((n, q))
    requires q + 1 + n < |buf| && buf[q] == ':' && buf[q + 1..q + 1 + n] == s && buf[q + 1 + n] == ','
    ensures ConsumeItem(buf, off) == Ok((s, q + 2 + n))
  {
    assert ConsumeChar(buf, q, ':', ExpectedStringSigil) == Ok(q + 1);
    assert ConsumeStringContents(buf, q + 1, n) == Ok((s, q + 1 + n));
    assert ConsumeChar(buf, q + 1 + n, ',', ExpectedStringCloser) == Ok(q + 2 + n);
  }

  /** The iterator with no items left. */
  lemma IteratorEnd(it: MessageIterator)
    requires it.remaining == 0
    ensures ConsumeAndValidate(it) == Ok(it.offset) && Arguments(it) == []
  {
    assert NextOrError(it) == (Ok(None), it);
  }

  /** One step of the iterator, as seen by validation and by iteration. */
  lemma IteratorStep(it: MessageIterator, s: Bytes, it1: MessageIterator)
    requires it.remaining > 0 && ConsumeItem(it.buf, it.offset) == Ok((s, it1.offset))
    requires it1 == MessageIterator(it.buf, it1.offset, it.remaining - 1)
    ensures NextOrError(it) == (Ok(Some(s)), it1)
    ensures ConsumeAndValidate(it) == ConsumeAndValidate(it1)
    ensures Arguments(it) == [s] + Arguments(it1)
  {
    NextStep(it, s, it1);
  }

  lemma NextStep(it: MessageIterator, s: Bytes, it1: MessageIterator)
    requires it.remaining > 0 && ConsumeItem(it.buf, it.offset) == Ok((s, it1.offset))
    requires it1 == MessageIterator(it.buf, it1.offset, it.remaining - 1)
    ensures NextOrError(it) == (Ok(Some(s)), it1)
  {
  }

  /** The head item of a list of netstrings is read back, and the tail
      starts right after it, at `e`. */
  lemma ItemsHead(buf: Bytes, off: nat, items: seq<Bytes>, e: nat)
    requires |buf| <= USIZE_MAX && |items| > 0 && At(buf, off, Netstrings(items))
    requires e == off + |Netstring(items[0])|
    ensures ConsumeItem(buf, off) == Ok((items[0], e))
    ensures At(buf, e, Netstrings(items[1..]))
  {
    NetstringsAt(buf, off, items);
    ItemAt(buf, off, items[0]);
  }

  /** `ItemsHead`, as one step of the iterator over the list. */
  lemma ItemsStep(it: MessageIterator, items: seq<Bytes>, it1: MessageIterator)
    requires |items| > 0 && it.remaining == |items| && At(it.buf, it.offset, Netstrings(items))
    requires it1 == MessageIterator(it.buf, it.offset + |Netstring(items[0])|, it.remaining - 1)
    ensures At(it1.buf, it1.offset, Netstrings(items[1..]))
    ensures ConsumeAndValidate(it) == ConsumeAndValidate(it1)
    ensures Arguments(it) == [items[0]] + Arguments(it1)
  {
    ItemsHead(it.buf, it.offset, items, it1.offset);
    IteratorStep(it, items[0], it1);
  }

  /** Validation runs over a whole list of netstrings and stops right after
      it, at `end`. */
  lemma {:induction false} ItemsValidate(it: MessageIterator, items: seq<Bytes>, end: nat)
    requires it.remaining == |items| && At(it.buf, it.offset, Netstrings(items))
    requires end == it.offset + |Netstrings(items)|
    ensures ConsumeAndValidate(it) == Ok(end)
    decreases |items|
  {
    if |items| > 0 {
      var e := it.offset + |Netstring(items[0])|;
      assert e + |Netstrings(items[1..])| == end;
      assert e <= |it.buf| by {
        NetstringsAt(it.buf, it.offset, items);
      }
      var it1 := MessageIterator(it.buf, e, it.remaining - 1);
      ItemsStep(it, items, it1);
      ItemsValidate(it1, items[1..], end);
    } else {
      IteratorEnd(it);
    }
  }

  /** The arguments iterator yields exactly the items of a list of netstrings. */
  lemma {:induction false} ItemsArguments(it: MessageIterator, items: seq<Bytes>)
    requires it.remaining == |items| && At(it.buf, it.offset, Netstrings(items))
    ensures Arguments(it) == items
    decreases |items|
  {
    if |items| > 0 {
      var it1 := MessageIterator(it.buf, it.offset + |Netstring(items[0])|, it.remaining - 1);
      assert it1.offset <= |it.buf| by {
        NetstringsAt(it.buf, it.offset, items);
      }
      ItemsStep(it, items, it1);
      ItemsArguments(it1, items[1..]);
      assert items == [items[0]] + items[1..];
    } else {
      IteratorEnd(it);
    }
  }

  lemma HeaderOk(buf: Bytes, count: nat, q: nat)
    requires |buf| <= USIZE_MAX && 0 < |buf| && buf[0] == '{'
    requires ConsumeDecimal(buf, 1) == Ok((count, q))
    requires q < |buf| && buf[q] == '|'
    ensures ParseHeader(buf) == Ok(MessageIterator(buf, q + 1, count))
  {
    assert ConsumeChar(buf, 0, '{', ExpectedMessageOpener) == Ok(1);
    assert ConsumeChar(buf, q, '|', ExpectedListSigil) == Ok(q + 1);
  }

  lemma RestOk<T>(t: T, it1: MessageIterator, end: nat)
    requires ConsumeAndValidate(it1) == Ok(end)
    requires end < |it1.buf| && it1.buf[end] == '}'
    ensures ParseRest(t, it1) == Ok((Message(t, it1), end + 1))
  {
    assert ConsumeChar(it1.buf, end, '}', ExpectedMessageCloser) == Ok(end + 1);
  }

  lemma ParseOk<T>(buf: Bytes, classify: Bytes -> Option<T>, it: MessageIterator, it1: MessageIterator,
                   s: Bytes, t: T, end: nat)
    requires |buf| <= USIZE_MAX
    requires ParseHeader(buf) == Ok(it)
    requires NextOrError(it) == (Ok(Some(s)), it1)
    requires classify(s) == Some(t)
    requires ParseRest(t, it1) == Ok((Message(t, it1), end))
    ensures ParseWith(buf, classify) == Ok((Message(t, it1), end))
  {
  }

  /** `Message::parse` reads back any frame whose first item is a message
      type it accepts, whatever follows the frame: it consumes exactly the
      frame, and the message's arguments are the remaining items. */
  lemma ParseRoundTrip<T>(items: seq<Bytes>, rest: Bytes, classify: Bytes -> Option<T>)
    requires |items| >= 1 && classify(items[0]).Some?
    requires |Frame(items) + rest| <= USIZE_MAX
    ensures var r := ParseWith(Frame(items) + rest, classify);
      r.Ok? && r.value.1 == |Frame(items)|
      && r.value.0.parsedType == classify(items[0]).value
      && Len(r.value.0.arguments) == |items| - 1
      && Arguments(r.value.0.arguments) == items[1..]
  {
    var buf := Frame(items) + rest;
    assert buf[..|Frame(items)|] == Frame(items);
    PrefixIsAt(buf, Frame(items));
    FrameAt(buf, items, classify);
  }

  /** `ParseRoundTrip`, for any buffer that starts with the frame. */
  lemma FrameAt<T>(buf: Bytes, items: seq<Bytes>, classify: Bytes -> Option<T>)
    requires |items| >= 1 && classify(items[0]).Some?
    requires |buf| <= USIZE_MAX && At(buf, 0, Frame(items))
    ensures var r := ParseWith(buf, classify);
      r.Ok? && r.value.1 == |Frame(items)|
      && r.value.0.parsedType == classify(items[0]).value
      && Len(r.value.0.arguments) == |items| - 1
      && Arguments(r.value.0.arguments) == items[1..]
  {
    var q := 1 + |NatToDecimal(|items|)|;
    var e := q + 1 + |Netstring(items[0])|;
    var end := q + 1 + |Netstrings(items)|;
    var it := MessageIterator(buf, q + 1, |items|);
    var it1 := MessageIterator(buf, e, |items| - 1);
    FrameSteps(buf, items, q, e, end, it, it1);
    var t := classify(items[0]).value;
    RestOk(t, it1, end);
    ParseOk(buf, classify, it, it1, items[0], t, end + 1);
  }

  /** The steps `ParseWith` takes on a buffer that starts with a frame:
      the header, the first item, then the other items up to `}`. */
  lemma FrameSteps(buf: Bytes, items: seq<Bytes>, q: nat, e: nat, end: nat, it: MessageIterator, it1: MessageIterator)
    requires |items| >= 1 && |buf| <= USIZE_MAX && At(buf, 0, Frame(items))
    requires q == 1 + |NatToDecimal(|items|)| && e == q + 1 + |Netstring(items[0])|
    requires end == q + 1 + |Netstrings(items)|
    requires it == MessageIterator(buf, q + 1, |items|) && it1 == MessageIterator(buf, e, |items| - 1)
    ensures ParseHeader(buf) == Ok(it) && NextOrError(it) == (Ok(Some(items[0])), it1)
    ensures ConsumeAndValidate(it1) == Ok(end) && end < |buf| && buf[end] == '}'
    ensures Len(it1) == |items| - 1 && Arguments(it1) == items[1..]
    ensures |Frame(items)| == end + 1
  {
    FrameHeader(buf, items, q, end);
    FrameFirstSteps(buf, items, q, e, end, it, it1);
    ItemsRest(it1, items[1..], end);
  }

  /** The first item of a frame, once its header has been read, and where
      the other items and the closing brace are. */
  lemma FrameFirstSteps(buf: Bytes, items: seq<Bytes>, q: nat, e: nat, end: nat, it: MessageIterator, it1: MessageIterator)
    requires |items| >= 1 && |buf| <= USIZE_MAX
    requires 0 < |buf| && buf[0] == '{' && ConsumeDecimal(buf, 1) == Ok((|items|, q))
    requires q + 1 <= |buf| && buf[q] == '|' && At(buf, q + 1, Netstrings(items))
    requires e == q + 1 + |Netstring(items[0])| && end == q + 1 + |Netstrings(items)|
    requires it == MessageIterator(buf, q + 1, |items|) && it1 == MessageIterator(buf, e, |items| - 1)
    ensures ParseHeader(buf) == Ok(it) && NextOrError(it) == (Ok(Some(items[0])), it1)
    ensures At(buf, e, Netstrings(items[1..])) && end == e + |Netstrings(items[1..])|
  {
    FrameFirstItem(buf, items, q, e, it, it1);
    ItemsHead(buf, q + 1, items, e);
    NetstringsCons(items);
  }

  lemma NetstringsCons(items: seq<Bytes>)
    requires |items| > 0
    ensures |Netstrings(items)| == |Netstring(items[0])| + |Netstrings(items[1..])|
  {
  }

  /** The header and the first item of a frame, as the iterator reads them. */
  lemma FrameFirstItem(buf: Bytes, items: seq<Bytes>, q: nat, e: nat, it: MessageIterator, it1: MessageIterator)
    requires |items| >= 1 && |buf| <= USIZE_MAX
    requires 0 < |buf| && buf[0] == '{' && ConsumeDecimal(buf, 1) == Ok((|items|, q))
    requires q + 1 <= |buf| && buf[q] == '|' && At(buf, q + 1, Netstrings(items))
    requires e == q + 1 + |Netstring(items[0])|
    requires it == MessageIterator(buf, q + 1, |items|) && it1 == MessageIterator(buf, e, |items| - 1)
    ensures ParseHeader(buf) == Ok(it) && NextOrError(it) == (Ok(Some(items[0])), it1)
  {
    HeaderOk(buf, |items|, q);
    ItemsHead(buf, q + 1, items, e);
    NextStep(it, items[0], it1);
  }

  /** The items after the first, up to the closing brace. */
  lemma ItemsRest(it1: MessageIterator, rest: seq<Bytes>, end: nat)
    requires it1.remaining == |rest| && At(it1.buf, it1.offset, Netstrings(rest))
    requires end == it1.offset + |Netstrings(rest)|
    ensures ConsumeAndValidate(it1) == Ok(end) && Len(it1) == |rest| && Arguments(it1) == rest
  {
    ItemsValidate(it1, rest, end);
    ItemsArguments(it1, rest);
  }

  // ---------------------------------------------------------------------
  // Canonicity: everything the parser accepts is a frame

  /** A successful validation pass covers exactly the netstrings of the
      arguments it yields, one per announced item. */
  lemma {:induction false} ValidatedIsNetstrings(it: MessageIterator)
    requires ConsumeAndValidate(it).Ok?
    ensures |Arguments(it)| == it.remaining
    ensures it.buf[it.offset..ConsumeAndValidate(it).value] == Netstrings(Arguments(it))
    decreases it.remaining
  {
    var (x, it1) := NextOrError(it);
    if it.remaining > 0 {
      var e := ConsumeAndValidate(it).value;
      ValidatedIsNetstrings(it1);
      ConsumedItemIsNetstring(it.buf, it.offset);
      var s := x.value.value;
      var args := Arguments(it1);
      assert Arguments(it) == [s] + args;
      assert ([s] + args)[1..] == args;
      SliceJoin(it.buf, it.offset, it1.offset, e);
    } else {
      assert Arguments(it) == [];
    }
  }

  /** What a successful `ParseHeader` has read: `{`, the item count, `|`. */
  lemma HeaderParts(buf: Bytes) returns (count: nat, q: nat)
    requires |buf| <= USIZE_MAX && ParseHeader(buf).Ok?
    ensures 0 < |buf| && buf[0] == '{' && ConsumeDecimal(buf, 1) == Ok((count, q))
    ensures q < |buf| && buf[q] == '|' && ParseHeader(buf).value == MessageIterator(buf, q + 1, count)
  {
    count, q := ConsumeDecimal(buf, 1).value.0, ConsumeDecimal(buf, 1).value.1;
  }

  /** What a successful step of the iterator has read: one item. */
  lemma StepParts(it: MessageIterator) returns (s: Bytes, it1: MessageIterator)
    requires NextOrError(it).0.Ok? && NextOrError(it).0.value.Some?
    ensures NextOrError(it) == (Ok(Some(s)), it1)
    ensures it.remaining > 0 && it1.buf == it.buf && it1.remaining == it.remaining - 1
    ensures ConsumeItem(it.buf, it.offset) == Ok((s, it1.offset))
  {
    s, it1 := NextOrError(it).0.value.value, NextOrError(it).1;
  }

  /** What a successful `ParseRest` has read: the items, then `}`. */
  lemma RestParts<T>(t: T, it1: MessageIterator) returns (end: nat)
    requires ParseRest(t, it1).Ok?
    ensures ConsumeAndValidate(it1) == Ok(end)
    ensures end < |it1.buf| && it1.buf[end] == '}' && ParseRest(t, it1) == Ok((Message(t, it1), end + 1))
  {
    end := ConsumeAndValidate(it1).value;
  }

  /** A successful `ParseWith` passed each of its steps. */
  lemma ParseShape<T>(buf: Bytes, classify: Bytes -> Option<T>) returns (it: MessageIterator)
    requires |buf| <= USIZE_MAX && ParseWith(buf, classify).Ok?
    ensures ParseHeader(buf) == Ok(it)
    ensures NextOrError(it).0.Ok? && NextOrError(it).0.value.Some?
  {
    it := ParseHeader(buf).value;
  }

  /** The last step of a successful `ParseWith`: the first item names a
      type, and the rest is `ParseRest`. */
  lemma ParseShapeRest<T>(buf: Bytes, classify: Bytes -> Option<T>, it: MessageIterator, s: Bytes, it1: MessageIterator)
    requires |buf| <= USIZE_MAX && ParseWith(buf, classify).Ok?
    requires ParseHeader(buf) == Ok(it) && NextOrError(it) == (Ok(Some(s)), it1)
    ensures classify(s).Some? && ParseWith(buf, classify) == ParseRest(classify(s).value, it1)
  {
  }

  /** What a successful `ParseWith` has read, step by step. */
  lemma ParseParts<T>(buf: Bytes, classify: Bytes -> Option<T>)
    returns (count: nat, q: nat, s: Bytes, it1: MessageIterator, end: nat)
    requires |buf| <= USIZE_MAX && ParseWith(buf, classify).Ok?
    ensures 0 < |buf| && buf[0] == '{' && ConsumeDecimal(buf, 1) == Ok((count, q))
    ensures q < |buf| && buf[q] == '|' && count > 0
    ensures it1.buf == buf && it1.remaining == count - 1 && ConsumeItem(buf, q + 1) == Ok((s, it1.offset))
    ensures ConsumeAndValidate(it1) == Ok(end) && end < |buf| && buf[end] == '}'
    ensures classify(s).Some?
    ensures ParseWith(buf, classify).value == (Message(classify(s).value, it1), end + 1)
  {
    var it := ParseShape(buf, classify);
    count, q := HeaderParts(buf);
    s, it1 := StepParts(it);
    ParseShapeRest(buf, classify, it, s, it1);
    end := RestParts(classify(s).value, it1);
  }

  /** A buffer cut into the five parts of a frame. */
  lemma FrameFromParts(buf: Bytes, q: nat, e: nat, end: nat, d: Bytes, a: Bytes, b: Bytes)
    requires 1 <= q < e <= end < |buf|
    requires buf[0] == '{' && buf[1..q] == d && buf[q] == '|'
    requires buf[q + 1..e] == a && buf[e..end] == b && buf[end] == '}'
    ensures buf[..end + 1] == ['{'] + d + ['|'] + (a + b) + ['}']
  {
    assert buf[..end + 1] == buf[..1] + buf[1..q] + buf[q..q + 1] + (buf[q + 1..e] + buf[e..end]) + buf[end..end + 1];
  }

  /** A parsed message's iterator yields every item it announces. */
  lemma ParsedArgumentsCount<T>(buf: Bytes, classify: Bytes -> Option<T>)
    requires |buf| <= USIZE_MAX && ParseWith(buf, classify).Ok?
    ensures var m := ParseWith(buf, classify).value.0;
      |Arguments(m.arguments)| == Len(m.arguments)
  {
    var count, q, s, it1, end := ParseParts(buf, classify);
    ValidatedIsNetstrings(it1);
  }

  /** Whatever `Message::parse` accepts is exactly the frame of its message
      type and its arguments: no whitespace, no leading zeroes, no slack. */
  lemma ParseCanonical<T>(buf: Bytes, classify: Bytes -> Option<T>)
    requires |buf| <= USIZE_MAX && ParseWith(buf, classify).Ok?
    ensures var (m, n) := ParseWith(buf, classify).value;
      exists first :: classify(first) == Some(m.parsedType)
        && buf[..n] == Frame([first] + Arguments(m.arguments))
  {
    var count, q, s, it1, end := ParseParts(buf, classify);
    var args := Arguments(it1);
    var items := [s] + args;
    assert buf[1..q] == NatToDecimal(|items|) by {
      ValidatedIsNetstrings(it1);
      ConsumedDecimal(buf, 1);
      CanonicalRoundTrip(buf[1..q]);
    }
    assert buf[q + 1..it1.offset] == Netstring(s) by {
      ConsumedItemIsNetstring(buf, q + 1);
    }
    assert buf[it1.offset..end] == Netstrings(args) by {
      ValidatedIsNetstrings(it1);
    }
    assert Netstrings(items) == Netstring(s) + Netstrings(args) by {
      assert items[0] == s && items[1..] == args;
    }
    FrameFromParts(buf, q, it1.offset, end, NatToDecimal(|items|), Netstring(s), Netstrings(args));
  }
}
