/** The s-expression syntax of the first protocol revision (section 2.1 of
    vt6/core1.0): atoms, written either as barewords or as quoted strings,
    and parenthesised lists of atoms and nested s-expressions. The parser
    reads a byte buffer from a cursor and reports errors with the offset
    where they occur; the printers write the most compact text. */
module SExpressions {
  import opened Wrappers
  import opened Bytes
  import Utf8

  /** `ParseErrorKind`, plus the two kinds `Message::from` reports. */
  datatype ErrorKind =
    | ExpectedEOF
    | UnexpectedEOF
    | InvalidUTF8
    | InvalidToken
    | UnknownEscapeSequence
    | EmptyMessage
    | InvalidMessageType

  datatype ParseError = ParseError(offset: nat, kind: ErrorKind)

  /** An atom: its value, and whether the parser read it as a quoted
      string. */
  datatype Atom = Atom(value: Bytes, wasQuoted: bool)

  datatype Element = AtomElement(atom: Atom) | Nested(sexp: SExpression)

  datatype SExpression = SExpression(elements: seq<Element>)

  /** `isbareword`: `[A-Za-z0-9._-]`. */
  predicate IsBareword(c: Byte) {
    IsAsciiLetter(c) || IsDigit(c) || c == '.' || c == '-' || c == '_'
  }

  /** `isspace`: the space and the bytes 9 to 13. */
  predicate IsSpace(c: Byte) {
    c == ' ' || 9 <= c as int <= 13
  }

  predicate AllBareword(s: Bytes) {
    forall i :: 0 <= i < |s| ==> IsBareword(s[i])
  }

  /** `Atom::new`: a value that was not read from a quoted string. */
  function NewAtom(value: Bytes): (a: Atom)
    ensures a.value == value && !a.wasQuoted
  {
    Atom(value, false)
  }

  /** `PartialEq<str>` for atoms: only the value counts. */
  predicate AtomEqualsText(a: Atom, text: Bytes) {
    a.value == text
  }

  /** The derived equality of atoms also compares how they were written, so
      two atoms can both equal the same text without being equal. */
  lemma TextEqualityIgnoresQuoting(v: Bytes)
    ensures AtomEqualsText(Atom(v, false), v) && AtomEqualsText(Atom(v, true), v)
    ensures Atom(v, false) != Atom(v, true)
  {
  }

  // ---------------------------------------------------------------------
  // Where a text sits in a buffer

  /** `text` occurs in `buf` at offset `i`. */
  predicate IsAt(buf: Bytes, i: nat, text: Bytes) {
    i + |text| <= |buf| && buf[i..i + |text|] == text
  }

  lemma IsAtSplit(buf: Bytes, i: nat, a: Bytes, b: Bytes)
    ensures IsAt(buf, i, a + b) <==> IsAt(buf, i, a) && IsAt(buf, i + |a|, b)
  {
    if IsAt(buf, i, a) && IsAt(buf, i + |a|, b) {
      assert buf[i..i + |a + b|] == buf[i..i + |a|] + buf[i + |a|..i + |a| + |b|];
    }
    if IsAt(buf, i, a + b) {
      assert buf[i..i + |a|] == (a + b)[..|a|];
      assert buf[i + |a|..i + |a| + |b|] == (a + b)[|a|..];
    }
  }

  lemma IsAtByte(buf: Bytes, i: nat, text: Bytes, k: nat)
    requires IsAt(buf, i, text) && k < |text|
    ensures buf[i + k] == text[k]
  {
    assert buf[i..i + |text|][k] == buf[i + k];
  }

  // ---------------------------------------------------------------------
  // Parsing

  /** The end of the run of bareword bytes that starts at `i`. */
  function BarewordEnd(buf: Bytes, i: nat): (end: nat)
    requires i <= |buf|
    ensures i <= end <= |buf|
    ensures forall k :: i <= k < end ==> IsBareword(buf[k])
    ensures end == |buf| || !IsBareword(buf[end])
    decreases |buf| - i
  {
    if i == |buf| || !IsBareword(buf[i]) then i else BarewordEnd(buf, i + 1)
  }

  /** `parse_bareword`: the longest run of bareword bytes at the cursor;
      the cursor ends on the first byte behind it. */
  function ParseBareword(buf: Bytes, pos: nat): (r: Result<(Atom, nat), ParseError>)
    requires pos <= |buf|
    ensures r.Ok? ==> pos < r.value.1 <= |buf| && r.value.0 == Atom(buf[pos..r.value.1], false)
    ensures r.Ok? ==> AllBareword(r.value.0.value) && (r.value.1 == |buf| || !IsBareword(buf[r.value.1]))
    ensures r.Ok? <==> pos < |buf| && IsBareword(buf[pos])
    ensures r.Err? ==> ((r.error.kind == UnexpectedEOF && r.error.offset == |buf|)
                        || (r.error.kind == InvalidToken && r.error.offset == pos < |buf|))
  {
    if pos == |buf| then Err(ParseError(pos, UnexpectedEOF))
    else if !IsBareword(buf[pos]) then Err(ParseError(pos, InvalidToken))
    else
      var end := BarewordEnd(buf, pos + 1);
      Ok((Atom(buf[pos..end], false), end))
  }

  /** The body of a quoted string: its bytes with the escapes removed, the
      offset in the buffer that each of them came from, and the offset of
      the closing quote. */
  datatype QuotedBody = QuotedBody(content: Bytes, sources: seq<nat>, close: nat)

  /** The loop of `parse_quoted_string`, from offset `i` inside the quotes.
      Only `\\` and `\"` are escapes; any other byte after a backslash is an
      unknown escape sequence reported at the backslash. */
  function ReadQuotedBody(buf: Bytes, i: nat): (r: Result<QuotedBody, ParseError>)
    requires i <= |buf|
    ensures r.Ok? ==> i <= r.value.close < |buf| && buf[r.value.close] == '"'
    ensures r.Ok? ==> |r.value.sources| == |r.value.content| && i + |r.value.content| <= r.value.close
    ensures r.Err? ==> ((r.error.kind == UnexpectedEOF && r.error.offset == |buf|)
                        || (r.error.kind == UnknownEscapeSequence && i <= r.error.offset < |buf|
                            && buf[r.error.offset] == '\\'))
    decreases |buf| - i
  {
    if i == |buf| then Err(ParseError(|buf|, UnexpectedEOF))
    else if buf[i] == '"' then Ok(QuotedBody([], [], i))
    else if buf[i] == '\\' then
      if i + 1 == |buf| then Err(ParseError(|buf|, UnexpectedEOF))
      else if buf[i + 1] == '\\' || buf[i + 1] == '"' then
        var rest :- ReadQuotedBody(buf, i + 2);
        Ok(QuotedBody([buf[i + 1]] + rest.content, [i + 1] + rest.sources, rest.close))
      else Err(ParseError(i, UnknownEscapeSequence))
    else
      var rest :- ReadQuotedBody(buf, i + 1);
      Ok(QuotedBody([buf[i]] + rest.content, [i] + rest.sources, rest.close))
  }

  /** Each unescaped byte of the body is the byte at its recorded offset,
      which lies between `i` and the closing quote. */
  lemma {:induction false} ReadQuotedBodySources(buf: Bytes, i: nat)
    requires i <= |buf| && ReadQuotedBody(buf, i).Ok?
    ensures var body := ReadQuotedBody(buf, i).value;
      forall j :: 0 <= j < |body.content| ==>
        i <= body.sources[j] < body.close && buf[body.sources[j]] == body.content[j]
    decreases |buf| - i
  {
    if buf[i] == '\\' {
      ReadQuotedBodySources(buf, i + 2);
    } else if buf[i] != '"' {
      ReadQuotedBodySources(buf, i + 1);
    }
  }

  /** `parse_quoted_string` as written: a body that is not UTF-8 is reported
      at the opening quote plus one plus `valid_up_to` of the unescaped
      bytes, which lies before the offending byte when escapes precede it. */
  function ParseQuoted(buf: Bytes, pos: nat): (r: Result<(Atom, nat), ParseError>)
    requires pos < |buf| && buf[pos] == '"'
    ensures r.Ok? ==> pos + 2 <= r.value.1 <= |buf| && buf[r.value.1 - 1] == '"'
    ensures r.Ok? ==> r.value.0.wasQuoted && Utf8.Valid(r.value.0.value)
    ensures r.Err? ==> pos < r.error.offset <= |buf|
    ensures r.Err? && r.error.kind == UnexpectedEOF ==> r.error.offset == |buf|
  {
    var body :- ReadQuotedBody(buf, pos + 1);
    if Utf8.Valid(body.content) then Ok((Atom(body.content, true), body.close + 1))
    else Err(ParseError(pos + 1 + Utf8.ValidUpTo(body.content), InvalidUTF8))
  }

  /** `parse_quoted_string` corrected: a body that is not UTF-8 is reported
      at the buffer offset of its first offending byte. */
  function ParseQuotedCorrected(buf: Bytes, pos: nat): (r: Result<(Atom, nat), ParseError>)
    requires pos < |buf| && buf[pos] == '"'
    ensures r.Ok? ==> pos + 2 <= r.value.1 <= |buf| && buf[r.value.1 - 1] == '"'
    ensures r.Ok? ==> r.value.0.wasQuoted && Utf8.Valid(r.value.0.value)
    ensures r.Err? ==> pos < r.error.offset <= |buf|
    ensures r.Err? && r.error.kind == UnexpectedEOF ==> r.error.offset == |buf|
  {
    var body :- ReadQuotedBody(buf, pos + 1);
    if Utf8.Valid(body.content) then Ok((Atom(body.content, true), body.close + 1))
    else
      ReadQuotedBodySources(buf, pos + 1);
      Err(ParseError(body.sources[Utf8.ValidUpTo(body.content)], InvalidUTF8))
  }

  /** With escapes before the offending byte, the offset as written points
      at an earlier byte: in `"\\` followed by the byte 0x80 and `"`, the
      body is a backslash and 0x80, so the offset as written is 2, the
      second backslash, while 0x80 sits at offset 3. */
  lemma InvalidUtf8OffsetAsWrittenTooEarly()
    ensures var buf: Bytes := ['"', '\\', '\\', '\U{80}', '"'];
      && ParseQuoted(buf, 0) == Err(ParseError(2, InvalidUTF8))
      && ParseQuotedCorrected(buf, 0) == Err(ParseError(3, InvalidUTF8))
      && buf[2] == '\\' && !IsAscii(buf[3])
  {
    var buf: Bytes := ['"', '\\', '\\', '\U{80}', '"'];
    var content: Bytes := ['\\', '\U{80}'];
    assert ReadQuotedBody(buf, 4) == Ok(QuotedBody([], [], 4));
    assert buf[3] != '"' && buf[3] != '\\';
    assert ReadQuotedBody(buf, 3) == Ok(QuotedBody([buf[3]] + [], [3] + [], 4));
    assert [buf[3]] + [] == ['\U{80}'];
    assert buf[1] == '\\' && buf[2] == '\\';
    assert ReadQuotedBody(buf, 1).Ok?;
    assert ReadQuotedBody(buf, 1).value.close == 4;
    assert ReadQuotedBody(buf, 1).value.sources == [2] + [3];
    assert ReadQuotedBody(buf, 1) == Ok(QuotedBody([buf[2]] + ['\U{80}'], [2] + [3], 4));
    assert [buf[2]] + ['\U{80}'] == content;
    assert Utf8.SequenceWidth(content, 0) == 1;
    assert Utf8.SequenceWidth(content, 1) == 0;
    assert Utf8.ValidUpToFrom(content, 1) == 1;
    assert Utf8.ValidUpTo(content) == 1;
  }

  /** A body without backslashes or quotes, up to a closing quote, is read
      as it stands. */
  lemma {:induction false} PlainBody(buf: Bytes, i: nat, close: nat)
    requires i <= close < |buf| && buf[close] == '"'
    requires forall k :: i <= k < close ==> buf[k] != '"' && buf[k] != '\\'
    ensures var r := ReadQuotedBody(buf, i);
      r.Ok? && r.value.content == buf[i..close] && r.value.close == close
    decreases close - i
  {
    if i < close {
      PlainBody(buf, i + 1, close);
      assert [buf[i]] + buf[i + 1..close] == buf[i..close];
    }
  }

  /** A quoted string without escapes whose body is not UTF-8 is reported
      at the opening quote plus one plus `valid_up_to` of the body, by
      both versions. */
  lemma PlainBodyInvalidUtf8(buf: Bytes, pos: nat, close: nat)
    requires pos < close < |buf| && buf[pos] == '"' && buf[close] == '"'
    requires forall k :: pos < k < close ==> buf[k] != '"' && buf[k] != '\\'
    requires !Utf8.Valid(buf[pos + 1..close])
    ensures ParseQuoted(buf, pos) == Err(ParseError(pos + 1 + Utf8.ValidUpTo(buf[pos + 1..close]), InvalidUTF8))
    ensures ParseQuotedCorrected(buf, pos) == ParseQuoted(buf, pos)
  {
    PlainBody(buf, pos + 1, close);
    SourcesWithoutEscapes(buf, pos + 1);
  }

  /** The corrected offset is the buffer offset of the first byte of the
      body that does not start a UTF-8 sequence, inside the quotes. */
  lemma InvalidUtf8OffsetIsOffendingByte(buf: Bytes, pos: nat)
    requires pos < |buf| && buf[pos] == '"'
    requires ReadQuotedBody(buf, pos + 1).Ok?
    ensures var body := ReadQuotedBody(buf, pos + 1).value;
      var r := ParseQuotedCorrected(buf, pos);
      !Utf8.Valid(body.content) ==>
        && r.Err? && r.error.kind == InvalidUTF8
        && pos < r.error.offset < body.close
        && Utf8.ValidUpTo(body.content) < |body.content|
        && buf[r.error.offset] == body.content[Utf8.ValidUpTo(body.content)]
  {
    ReadQuotedBodySources(buf, pos + 1);
  }

  /** Without backslashes in the body, each unescaped byte sits at the
      offset of its index. */
  lemma {:induction false} SourcesWithoutEscapes(buf: Bytes, i: nat)
    requires i <= |buf| && ReadQuotedBody(buf, i).Ok?
    requires forall k :: i <= k < ReadQuotedBody(buf, i).value.close ==> buf[k] != '\\'
    ensures var body := ReadQuotedBody(buf, i).value;
      forall j :: 0 <= j < |body.sources| ==> body.sources[j] == i + j
    decreases |buf| - i
  {
    if buf[i] != '"' {
      SourcesWithoutEscapes(buf, i + 1);
    }
  }

  /** When the body has no escapes, the offset as written is the corrected
      one. */
  lemma InvalidUtf8OffsetAgreesWithoutEscapes(buf: Bytes, pos: nat)
    requires pos < |buf| && buf[pos] == '"'
    requires ReadQuotedBody(buf, pos + 1).Ok?
    requires forall k :: pos < k < ReadQuotedBody(buf, pos + 1).value.close ==> buf[k] != '\\'
    ensures ParseQuoted(buf, pos) == ParseQuotedCorrected(buf, pos)
  {
    if Utf8.Valid(ReadQuotedBody(buf, pos + 1).value.content) {
      ValidBodyAgrees(buf, pos);
    } else {
      InvalidPlainBodyAgrees(buf, pos);
    }
  }

  lemma ValidBodyAgrees(buf: Bytes, pos: nat)
    requires pos < |buf| && buf[pos] == '"'
    requires ReadQuotedBody(buf, pos + 1).Ok?
    requires Utf8.Valid(ReadQuotedBody(buf, pos + 1).value.content)
    ensures ParseQuoted(buf, pos).Ok? && ParseQuoted(buf, pos) == ParseQuotedCorrected(buf, pos)
  {
  }

  lemma InvalidPlainBodyAgrees(buf: Bytes, pos: nat)
    requires pos < |buf| && buf[pos] == '"'
    requires ReadQuotedBody(buf, pos + 1).Ok?
    requires forall k :: pos < k < ReadQuotedBody(buf, pos + 1).value.close ==> buf[k] != '\\'
    requires !Utf8.Valid(ReadQuotedBody(buf, pos + 1).value.content)
    ensures ParseQuoted(buf, pos).Err? && ParseQuoted(buf, pos) == ParseQuotedCorrected(buf, pos)
  {
    var v := InvalidBodyOffsets(buf, pos);
    PlainSourceAt(buf, pos + 1, v);
  }

  /** `SourcesWithoutEscapes` at one index. */
  lemma PlainSourceAt(buf: Bytes, i: nat, j: nat)
    requires i <= |buf| && ReadQuotedBody(buf, i).Ok?
    requires forall k :: i <= k < ReadQuotedBody(buf, i).value.close ==> buf[k] != '\\'
    requires j < |ReadQuotedBody(buf, i).value.sources|
    ensures ReadQuotedBody(buf, i).value.sources[j] == i + j
  {
    SourcesWithoutEscapes(buf, i);
  }

  /** Both parsers report an invalid body through `valid_up_to` of the
      unescaped bytes: as written relative to the quote, corrected through
      the recorded offset. */
  lemma InvalidBodyOffsets(buf: Bytes, pos: nat) returns (v: nat)
    requires pos < |buf| && buf[pos] == '"'
    requires ReadQuotedBody(buf, pos + 1).Ok?
    requires !Utf8.Valid(ReadQuotedBody(buf, pos + 1).value.content)
    ensures var body := ReadQuotedBody(buf, pos + 1).value;
      && v == Utf8.ValidUpTo(body.content) && v < |body.sources|
      && ParseQuoted(buf, pos) == Err(ParseError(pos + 1 + v, InvalidUTF8))
      && ParseQuotedCorrected(buf, pos) == Err(ParseError(body.sources[v], InvalidUTF8))
  {
    var body := ReadQuotedBody(buf, pos + 1).value;
    v := Utf8.ValidUpTo(body.content);
    assert |body.sources| == |body.content| && v < |body.content|;
  }

  /** `Parse for Atom`: leading whitespace is skipped, then a quoted string
      or a bareword. */
  function ParseAtom(buf: Bytes, pos: nat): (r: Result<(Atom, nat), ParseError>)
    requires pos <= |buf|
    ensures r.Ok? ==> pos < r.value.1 <= |buf|
    ensures r.Err? ==> pos <= r.error.offset <= |buf|
    ensures r.Err? && r.error.kind == UnexpectedEOF ==> r.error.offset == |buf|
    decreases |buf| - pos
  {
    if pos == |buf| then Err(ParseError(pos, UnexpectedEOF))
    else if buf[pos] == '"' then ParseQuoted(buf, pos)
    else if IsBareword(buf[pos]) then ParseBareword(buf, pos)
    else if IsSpace(buf[pos]) then ParseAtom(buf, pos + 1)
    else Err(ParseError(pos, InvalidToken))
  }

  /** `Parse for SExpression`: leading whitespace is skipped, then an
      opening parenthesis starts the element list. */
  function ParseSExpression(buf: Bytes, pos: nat): (r: Result<(SExpression, nat), ParseError>)
    requires pos <= |buf|
    ensures r.Ok? ==> pos < r.value.1 <= |buf|
    ensures r.Err? ==> r.error.offset <= |buf|
    ensures r.Err? && r.error.kind == UnexpectedEOF ==> r.error.offset == |buf|
    decreases |buf| - pos, 0
  {
    if pos == |buf| then Err(ParseError(pos, UnexpectedEOF))
    else if IsSpace(buf[pos]) then ParseSExpression(buf, pos + 1)
    else if buf[pos] != '(' then Err(ParseError(pos, InvalidToken))
    else ParseElements(buf, pos + 1, [])
  }

  /** The element loop of `Parse for SExpression`, with the elements read so
      far in `acc`: elements separated by whitespace, up to the closing
      parenthesis. The source tests the bytes in the order `(`, `)`, `"`,
      whitespace, bareword; the classes are disjoint, so testing `)` and
      whitespace first and leaving the rest to `ParseElement` is the same
      decision. */
  function ParseElements(buf: Bytes, i: nat, acc: seq<Element>): (r: Result<(SExpression, nat), ParseError>)
    requires i <= |buf|
    ensures r.Ok? ==> i < r.value.1 <= |buf| && buf[r.value.1 - 1] == ')'
    ensures r.Err? ==> r.error.offset <= |buf|
    ensures r.Err? && r.error.kind == UnexpectedEOF ==> r.error.offset == |buf|
    decreases |buf| - i, 2
  {
    if i == |buf| then Err(ParseError(i, UnexpectedEOF))
    else if buf[i] == ')' then Ok((SExpression(acc), i + 1))
    else if IsSpace(buf[i]) then ParseElements(buf, i + 1, acc)
    else
      var (e, next) :- ParseElement(buf, i);
      ParseElements(buf, next, acc + [e])
  }

  /** One element inside an s-expression: a nested s-expression, a quoted
      string or a bareword; any other byte is an invalid token. */
  function ParseElement(buf: Bytes, i: nat): (r: Result<(Element, nat), ParseError>)
    requires i < |buf|
    ensures r.Ok? ==> i < r.value.1 <= |buf|
    ensures r.Err? ==> r.error.offset <= |buf|
    ensures r.Err? && r.error.kind == UnexpectedEOF ==> r.error.offset == |buf|
    decreases |buf| - i, 1
  {
    if buf[i] == '(' then
      var (s, next) :- ParseSExpression(buf, i);
      Ok((Nested(s), next))
    else if buf[i] == '"' then
      var (a, next) :- ParseQuoted(buf, i);
      Ok((AtomElement(a), next))
    else if IsBareword(buf[i]) then
      var (a, next) := ParseBareword(buf, i).value;
      Ok((AtomElement(a), next))
    else Err(ParseError(i, InvalidToken))
  }

  /** `parse_byte_string`: the parse must consume the whole text, otherwise
      the error is `ExpectedEOF` at the first byte left over. */
  function Complete<T>(r: Result<(T, nat), ParseError>, text: Bytes): (c: Result<T, ParseError>)
    ensures c.Ok? <==> r.Ok? && r.value.1 >= |text|
    ensures c.Ok? ==> c.value == r.value.0
    ensures r.Ok? && r.value.1 < |text| ==> c == Err(ParseError(r.value.1, ExpectedEOF))
    ensures r.Err? ==> c == Err(r.error)
  {
    match r
    case Err(e) => Err(e)
    case Ok((value, end)) => if end < |text| then Err(ParseError(end, ExpectedEOF)) else Ok(value)
  }

  function AtomFromText(text: Bytes): Result<Atom, ParseError> {
    Complete(ParseAtom(text, 0), text)
  }

  function SExpressionFromText(text: Bytes): Result<SExpression, ParseError> {
    Complete(ParseSExpression(text, 0), text)
  }

  // ---------------------------------------------------------------------
  // Printing

  /** `format_quoted`'s body: each `\` and `"` gets a backslash in front.
      Both are ASCII, so going byte by byte is the same as going character
      by character. */
  function Escape(v: Bytes): (e: Bytes)
    ensures |e| >= |v|
  {
    if v == [] then []
    else (if v[0] == '\\' || v[0] == '"' then ['\\', v[0]] else [v[0]]) + Escape(v[1..])
  }

  function Quote(v: Bytes): Bytes {
    ['"'] + Escape(v) + ['"']
  }

  /** `Display for Atom`: the value itself when every byte is a bareword
      byte, otherwise the quoted string. */
  function DisplayAtom(a: Atom): (s: Bytes)
    ensures AllBareword(a.value) ==> s == a.value
    ensures !AllBareword(a.value) ==> |s| >= |a.value| + 2 && s[0] == '"' && s[|s| - 1] == '"'
  {
    if AllBareword(a.value) then a.value else Quote(a.value)
  }

  /** `Display for SExpression`: `()` when empty, otherwise `(`, the
      elements separated by one space, and `)`. */
  function DisplaySExpression(s: SExpression): (d: Bytes)
    ensures |d| >= 2 && d[0] == '(' && d[|d| - 1] == ')'
    decreases s, 2
  {
    if |s.elements| == 0 then ['(', ')']
    else ['('] + DisplayItem(s, 0) + DisplayRest(s, 1)
  }

  /** The elements from index `k` on, each after a space, then `)`. */
  function DisplayRest(s: SExpression, k: nat): (d: Bytes)
    requires 1 <= k <= |s.elements|
    ensures |d| >= 1 && d[0] in {' ', ')'} && d[|d| - 1] == ')'
    decreases s, 1, |s.elements| - k
  {
    if k == |s.elements| then [')']
    else [' '] + DisplayItem(s, k) + DisplayRest(s, k + 1)
  }

  /** `Display for Element`, for the element at index `k`. */
  function DisplayItem(s: SExpression, k: nat): Bytes
    requires k < |s.elements|
    decreases s, 0
  {
    match s.elements[k]
    case AtomElement(a) => DisplayAtom(a)
    case Nested(c) => DisplaySExpression(c)
  }

  function DisplayElement(e: Element): Bytes {
    match e
    case AtomElement(a) => DisplayAtom(a)
    case Nested(c) => DisplaySExpression(c)
  }

  // ---------------------------------------------------------------------
  // Round trip

  /** Atoms that print to a text the parser reads back: a non-empty
      value (the empty one prints as nothing at all) that is UTF-8, as every
      Rust `String` is. */
  predicate PrintableValue(v: Bytes) {
    |v| > 0 && Utf8.Valid(v)
  }

  predicate WellFormed(s: SExpression)
    decreases s, 1
  {
    WellFormedFrom(s, 0)
  }

  predicate WellFormedFrom(s: SExpression, k: nat)
    requires k <= |s.elements|
    decreases s, 0, |s.elements| - k
  {
    k == |s.elements|
    || ((match s.elements[k]
         case AtomElement(a) => PrintableValue(a.value)
         case Nested(c) => WellFormed(c))
        && WellFormedFrom(s, k + 1))
  }

  /** The atom the parser reads back from the display of a value: quoted
      exactly when some byte is not a bareword byte. */
  function ReadBack(v: Bytes): Atom {
    Atom(v, !AllBareword(v))
  }

  /** The tree the parser reads back from a display: the same shape and
      values, with every atom's `wasQuoted` as `ReadBack` says. */
  function Canonical(s: SExpression): SExpression
    decreases s, 2
  {
    SExpression(CanonicalFrom(s, 0))
  }

  function CanonicalFrom(s: SExpression, k: nat): (r: seq<Element>)
    requires k <= |s.elements|
    ensures |r| == |s.elements| - k
    decreases s, 1, |s.elements| - k
  {
    if k == |s.elements| then [] else [CanonicalItem(s, k)] + CanonicalFrom(s, k + 1)
  }

  function CanonicalItem(s: SExpression, k: nat): Element
    requires k < |s.elements|
    decreases s, 0
  {
    match s.elements[k]
    case AtomElement(a) => AtomElement(ReadBack(a.value))
    case Nested(c) => Nested(Canonical(c))
  }

  lemma {:induction false} BarewordEndAt(buf: Bytes, i: nat, end: nat)
    requires i <= end <= |buf|
    requires forall k :: i <= k < end ==> IsBareword(buf[k])
    requires end == |buf| || !IsBareword(buf[end])
    ensures BarewordEnd(buf, i) == end
    decreases end - i
  {
    if i < end {
      BarewordEndAt(buf, i + 1, end);
    }
  }

  /** A bareword value followed by a byte that cannot continue it is read
      back exactly. */
  lemma BarewordRoundTrip(v: Bytes, buf: Bytes, i: nat)
    requires |v| > 0 && AllBareword(v) && IsAt(buf, i, v)
    requires i + |v| == |buf| || !IsBareword(buf[i + |v|])
    ensures ParseBareword(buf, i) == Ok((Atom(v, false), i + |v|))
  {
    forall k | i <= k < i + |v| ensures IsBareword(buf[k]) {
      IsAtByte(buf, i, v, k - i);
    }
    IsAtByte(buf, i, v, 0);
    BarewordEndAt(buf, i + 1, i + |v|);
  }

  /** The escaped body of `v` followed by a closing quote is read back as
      `v`. */
  lemma {:induction false} EscapedRoundTrip(v: Bytes, buf: Bytes, i: nat)
    requires IsAt(buf, i, Escape(v) + ['"'])
    ensures var r := ReadQuotedBody(buf, i);
      r.Ok? && r.value.content == v && r.value.close == i + |Escape(v)|
  {
    IsAtSplit(buf, i, Escape(v), ['"']);
    IsAtByte(buf, i + |Escape(v)|, ['"'], 0);
    if v != [] {
      var n := EscapeHeadAt(v, buf, i);
      EscapedRoundTrip(v[1..], buf, i + n);
      ReadEscapedStep(v, buf, i, n);
      assert ReadQuotedBody(buf, i).value.close == i + n + |Escape(v[1..])|;
    } else {
      assert ReadQuotedBody(buf, i) == Ok(QuotedBody([], [], i));
    }
  }

  /** The first value byte of an escaped body: one byte, or a backslash and
      the byte when it needs one. */
  lemma EscapeHeadAt(v: Bytes, buf: Bytes, i: nat) returns (n: nat)
    requires v != [] && IsAt(buf, i, Escape(v) + ['"'])
    ensures n == 1 || n == 2
    ensures |Escape(v)| == n + |Escape(v[1..])| && IsAt(buf, i + n, Escape(v[1..]) + ['"'])
    ensures n == 1 ==> buf[i] == v[0] && v[0] != '\\' && v[0] != '"'
    ensures n == 2 ==> buf[i] == '\\' && buf[i + 1] == v[0] && (v[0] == '\\' || v[0] == '"')
  {
    var head: Bytes := if v[0] == '\\' || v[0] == '"' then ['\\', v[0]] else [v[0]];
    n := |head|;
    assert Escape(v) == head + Escape(v[1..]);
    assert Escape(v) + ['"'] == head + (Escape(v[1..]) + ['"']);
    IsAtSplit(buf, i, head, Escape(v[1..]) + ['"']);
    IsAtByte(buf, i, head, 0);
    if n == 2 {
      IsAtByte(buf, i, head, 1);
    }
  }

  /** One step of the body loop over an escaped value. */
  lemma ReadEscapedStep(v: Bytes, buf: Bytes, i: nat, n: nat)
    requires v != [] && (n == 1 || n == 2) && i + n <= |buf|
    requires n == 1 ==> buf[i] == v[0] && v[0] != '\\' && v[0] != '"'
    requires n == 2 ==> buf[i] == '\\' && buf[i + 1] == v[0] && (v[0] == '\\' || v[0] == '"')
    requires var r := ReadQuotedBody(buf, i + n); r.Ok? && r.value.content == v[1..]
    ensures ReadQuotedBody(buf, i).Ok? && ReadQuotedBody(buf, i).value.content == v
    ensures ReadQuotedBody(buf, i).value.close == ReadQuotedBody(buf, i + n).value.close
  {
    assert [v[0]] + v[1..] == v;
  }

  /** A quoted string is read back as its UTF-8 value. */
  lemma QuotedRoundTrip(v: Bytes, buf: Bytes, i: nat)
    requires Utf8.Valid(v) && IsAt(buf, i, Quote(v))
    ensures ParseQuoted(buf, i) == Ok((Atom(v, true), i + |Quote(v)|))
  {
    assert Quote(v) == ['"'] + (Escape(v) + ['"']);
    assert |Quote(v)| == |Escape(v)| + 2;
    IsAtSplit(buf, i, ['"'], Escape(v) + ['"']);
    IsAtByte(buf, i, ['"'], 0);
    EscapedRoundTrip(v, buf, i + 1);
    QuotedBodyOk(buf, i, v, i + 1 + |Escape(v)|, i + |Quote(v)|);
  }

  /** `parse_quoted_string` on a body read as UTF-8 content. */
  lemma QuotedBodyOk(buf: Bytes, i: nat, v: Bytes, close: nat, end: nat)
    requires i < |buf| && buf[i] == '"' && Utf8.Valid(v)
    requires ReadQuotedBody(buf, i + 1).Ok? && ReadQuotedBody(buf, i + 1).value.content == v
    requires ReadQuotedBody(buf, i + 1).value.close == close && end == close + 1
    ensures ParseQuoted(buf, i) == Ok((Atom(v, true), end))
  {
  }

  /** The display of a printable atom, followed by a byte that cannot
      continue a bareword, is read back as `ReadBack` of its value. */
  lemma AtomAt(a: Atom, buf: Bytes, i: nat)
    requires PrintableValue(a.value) && IsAt(buf, i, DisplayAtom(a))
    requires i + |DisplayAtom(a)| == |buf| || !IsBareword(buf[i + |DisplayAtom(a)|])
    ensures ParseAtom(buf, i) == Ok((ReadBack(a.value), i + |DisplayAtom(a)|))
  {
    if AllBareword(a.value) {
      IsAtByte(buf, i, a.value, 0);
      BarewordRoundTrip(a.value, buf, i);
    } else {
      IsAtByte(buf, i, Quote(a.value), 0);
      QuotedRoundTrip(a.value, buf, i);
    }
  }

  /** Printing an atom with a non-empty UTF-8 value and parsing the text
      gives back the value. */
  lemma AtomRoundTrip(a: Atom)
    requires PrintableValue(a.value)
    ensures AtomFromText(DisplayAtom(a)) == Ok(ReadBack(a.value))
  {
    AtomAt(a, DisplayAtom(a), 0);
  }

  /** Single steps of the element loop. */
  lemma OpenParen(buf: Bytes, pos: nat)
    requires pos < |buf| && buf[pos] == '('
    ensures ParseSExpression(buf, pos) == ParseElements(buf, pos + 1, [])
  {
  }

  lemma CloseParen(buf: Bytes, i: nat, acc: seq<Element>)
    requires i < |buf| && buf[i] == ')'
    ensures ParseElements(buf, i, acc) == Ok((SExpression(acc), i + 1))
  {
  }

  lemma SkipSpace(buf: Bytes, i: nat, acc: seq<Element>)
    requires i < |buf| && buf[i] == ' '
    ensures ParseElements(buf, i, acc) == ParseElements(buf, i + 1, acc)
  {
  }

  lemma TakeElement(buf: Bytes, i: nat, acc: seq<Element>, e: Element, next: nat)
    requires i < |buf| && buf[i] != ')' && !IsSpace(buf[i])
    requires ParseElement(buf, i) == Ok((e, next))
    ensures ParseElements(buf, i, acc) == ParseElements(buf, next, acc + [e])
  {
  }

  lemma {:induction false} SExpressionAt(s: SExpression, buf: Bytes, pos: nat, text: Bytes)
    requires WellFormed(s) && text == DisplaySExpression(s) && IsAt(buf, pos, text)
    ensures ParseSExpression(buf, pos) == Ok((Canonical(s), pos + |text|))
    decreases s, 2
  {
    IsAtByte(buf, pos, text, 0);
    OpenParen(buf, pos);
    if |s.elements| == 0 {
      EmptySExpressionAt(s, buf, pos, text);
    } else {
      ElementsAt(s, buf, pos, text);
    }
  }

  lemma EmptySExpressionAt(s: SExpression, buf: Bytes, pos: nat, text: Bytes)
    requires |s.elements| == 0 && text == DisplaySExpression(s) && IsAt(buf, pos, text)
    ensures ParseElements(buf, pos + 1, []) == Ok((Canonical(s), pos + |text|))
  {
    IsAtByte(buf, pos, text, 1);
    CloseParen(buf, pos + 1, []);
    assert Canonical(s) == SExpression([]);
  }

  /** The elements of a non-empty s-expression, after its `(`. */
  lemma {:induction false} ElementsAt(s: SExpression, buf: Bytes, pos: nat, text: Bytes)
    requires |s.elements| > 0 && WellFormed(s) && text == DisplaySExpression(s) && IsAt(buf, pos, text)
    ensures ParseElements(buf, pos + 1, []) == Ok((Canonical(s), pos + |text|))
    decreases s, 1, |s.elements| + 1
  {
    var body := DisplayItem(s, 0) + DisplayRest(s, 1);
    assert text == ['('] + body;
    IsAtSplit(buf, pos, ['('], body);
    assert [] + CanonicalFrom(s, 0) == Canonical(s).elements;
    ItemThenRest(s, 0, buf, pos + 1, [], body, Canonical(s).elements, pos + |text|);
  }

  /** The element at index `k` and the rest of the list, from `i` on, are
      read as the elements `whole`, which extend `acc`, ending at `end`. */
  lemma {:induction false} ItemThenRest(s: SExpression, k: nat, buf: Bytes, i: nat, acc: seq<Element>, text: Bytes,
                                        whole: seq<Element>, end: nat)
    requires k < |s.elements| && WellFormedFrom(s, k)
    requires text == DisplayItem(s, k) + DisplayRest(s, k + 1) && IsAt(buf, i, text)
    requires whole == acc + CanonicalFrom(s, k) && end == i + |text|
    ensures ParseElements(buf, i, acc) == Ok((SExpression(whole), end))
    decreases s, 1, |s.elements| - k, 0
  {
    var item := DisplayItem(s, k);
    var rest := DisplayRest(s, k + 1);
    var mid := i + |item|;
    var acc' := acc + [CanonicalItem(s, k)];
    ItemStep(s, k, buf, i, acc, item, rest, mid, acc');
    ConsAssoc(acc, CanonicalItem(s, k), CanonicalFrom(s, k + 1), CanonicalFrom(s, k));
    RestRoundTrip(s, k + 1, buf, mid, acc', rest, whole, end);
  }

  lemma ConsAssoc<T>(a: seq<T>, x: T, b: seq<T>, xb: seq<T>)
    requires xb == [x] + b
    ensures a + xb == (a + [x]) + b
  {
  }

  /** Reading the element at index `k` moves the element loop past it. */
  lemma ItemStep(s: SExpression, k: nat, buf: Bytes, i: nat, acc: seq<Element>, item: Bytes, rest: Bytes,
                  mid: nat, acc': seq<Element>)
    requires k < |s.elements| && WellFormedFrom(s, k)
    requires item == DisplayItem(s, k) && rest == DisplayRest(s, k + 1) && IsAt(buf, i, item + rest)
    requires mid == i + |item| && acc' == acc + [CanonicalItem(s, k)]
    ensures mid <= |buf| && IsAt(buf, mid, rest)
    ensures ParseElements(buf, i, acc) == ParseElements(buf, mid, acc')
    decreases s, 1, |s.elements| - k, 0, 1
  {
    IsAtSplit(buf, i, item, rest);
    IsAtByte(buf, i + |item|, rest, 0);
    ItemAt(s, k, buf, i, item);
    IsAtByte(buf, i, item, 0);
    TakeElement(buf, i, acc, CanonicalItem(s, k), i + |item|);
  }

  /** The element at index `k`, displayed inside an element list and
      followed by a space or `)`, is read back as one element. */
  lemma ItemAt(s: SExpression, k: nat, buf: Bytes, i: nat, item: Bytes)
    requires k < |s.elements| && WellFormedFrom(s, k)
    requires item == DisplayItem(s, k) && IsAt(buf, i, item)
    requires i + |item| < |buf| && buf[i + |item|] in {' ', ')'}
    ensures |item| > 0 && item[0] != ')' && !IsSpace(item[0])
    ensures ParseElement(buf, i) == Ok((CanonicalItem(s, k), i + |item|))
    decreases s, 1, |s.elements| - k, 0, 0
  {
    match s.elements[k] {
      case AtomElement(a) => AtomElementAt(a, buf, i);
      case Nested(c) =>
        IsAtByte(buf, i, item, 0);
        SExpressionAt(c, buf, i, item);
    }
  }

  /** An atom's display inside an element list is read as one element. */
  lemma AtomElementAt(a: Atom, buf: Bytes, i: nat)
    requires PrintableValue(a.value) && IsAt(buf, i, DisplayAtom(a))
    requires i + |DisplayAtom(a)| < |buf| && buf[i + |DisplayAtom(a)|] in {' ', ')'}
    ensures |DisplayAtom(a)| > 0 && DisplayAtom(a)[0] != ')' && !IsSpace(DisplayAtom(a)[0])
    ensures ParseElement(buf, i) == Ok((AtomElement(ReadBack(a.value)), i + |DisplayAtom(a)|))
  {
    if AllBareword(a.value) {
      IsAtByte(buf, i, a.value, 0);
      BarewordRoundTrip(a.value, buf, i);
    } else {
      IsAtByte(buf, i, Quote(a.value), 0);
      QuotedRoundTrip(a.value, buf, i);
    }
  }

  /** The rest of the list from index `k` on, from `i` on, is read as the
      elements `whole`, which extend `acc`, ending at `end`. */
  lemma {:induction false} RestRoundTrip(s: SExpression, k: nat, buf: Bytes, i: nat, acc: seq<Element>, text: Bytes,
                                         whole: seq<Element>, end: nat)
    requires 1 <= k <= |s.elements| && WellFormedFrom(s, k)
    requires text == DisplayRest(s, k) && IsAt(buf, i, text)
    requires whole == acc + CanonicalFrom(s, k) && end == i + |text|
    ensures ParseElements(buf, i, acc) == Ok((SExpression(whole), end))
    decreases s, 1, |s.elements| - k, 2
  {
    IsAtByte(buf, i, text, 0);
    if k == |s.elements| {
      CloseParen(buf, i, acc);
      assert whole == acc;
    } else {
      SpaceThenItem(s, k, buf, i, acc, text, whole, end);
    }
  }

  /** A space, then the element at index `k` and the rest of the list. */
  lemma {:induction false} SpaceThenItem(s: SExpression, k: nat, buf: Bytes, i: nat, acc: seq<Element>, text: Bytes,
                                         whole: seq<Element>, end: nat)
    requires 1 <= k < |s.elements| && WellFormedFrom(s, k)
    requires text == DisplayRest(s, k) && IsAt(buf, i, text)
    requires whole == acc + CanonicalFrom(s, k) && end == i + |text|
    ensures ParseElements(buf, i, acc) == Ok((SExpression(whole), end))
    decreases s, 1, |s.elements| - k, 1
  {
    var body := DisplayItem(s, k) + DisplayRest(s, k + 1);
    assert text == [' '] + body;
    IsAtSplit(buf, i, [' '], body);
    IsAtByte(buf, i, text, 0);
    SkipSpace(buf, i, acc);
    ItemThenRest(s, k, buf, i + 1, acc, body, whole, end);
  }

  // ---------------------------------------------------------------------
  // Error offsets on sample inputs

  /** A bareword atom with whitespace after it leaves bytes over. */
  lemma TrailingWhitespaceAfterAtom()
    ensures AtomFromText(" \tcore.set\t ") == Err(ParseError(10, ExpectedEOF))
  {
    var text: Bytes := " \tcore.set\t ";
    BarewordEndAt(text, 3, 10);
    assert ParseAtom(text, 2) == Ok((Atom(text[2..10], false), 10));
  }

  lemma InvalidTokenAtStart()
    ensures AtomFromText("?set") == Err(ParseError(0, InvalidToken))
  {
  }

  /** `\n` is not an escape; the error is reported at its backslash. */
  lemma UnknownEscapeInAtom()
    ensures AtomFromText("\"foo\\nbar\"") == Err(ParseError(4, UnknownEscapeSequence))
  {
    var text: Bytes := "\"foo\\nbar\"";
    assert ReadQuotedBody(text, 4) == Err(ParseError(4, UnknownEscapeSequence));
    assert ReadQuotedBody(text, 1) == Err(ParseError(4, UnknownEscapeSequence));
  }

  /** An s-expression cut short ends in `UnexpectedEOF` at the end of the
      text. */
  lemma UnclosedSExpression()
    ensures SExpressionFromText("(foo (bar") == Err(ParseError(9, UnexpectedEOF))
  {
    var text: Bytes := "(foo (bar";
    var foo := AtomElement(Atom(text[1..4], false));
    var bar := AtomElement(Atom(text[6..9], false));
    BarewordEndAt(text, 2, 4);
    BarewordEndAt(text, 7, 9);
    assert ParseElements(text, 9, [bar]) == Err(ParseError(9, UnexpectedEOF));
    assert ParseElement(text, 6) == Ok((bar, 9));
    assert ParseElements(text, 6, []) == Err(ParseError(9, UnexpectedEOF));
    assert ParseElement(text, 5) == Err(ParseError(9, UnexpectedEOF));
    assert ParseElements(text, 5, [foo]) == Err(ParseError(9, UnexpectedEOF));
    assert ParseElement(text, 1) == Ok((foo, 4));
    assert ParseElements(text, 1, []) == Err(ParseError(9, UnexpectedEOF));
  }

  /** The sample inputs below start with `(foo `: the parser reads the
      bareword and the space and goes on at offset 5. */
  lemma AfterFoo(text: Bytes)
    requires |text| > 5 && text[..5] == "(foo "
    ensures ParseSExpression(text, 0) == ParseElements(text, 5, [AtomElement(Atom("foo", false))])
  {
    assert text[0] == '(' && text[1] == 'f' && text[2] == 'o' && text[3] == 'o' && text[4] == ' ' by {
      assert forall k :: 0 <= k < 5 ==> text[k] == text[..5][k];
    }
    BarewordEndAt(text, 2, 4);
    assert text[1..4] == "foo";
    var foo := AtomElement(Atom("foo", false));
    assert ParseElement(text, 1) == Ok((foo, 4));
    assert [] + [foo] == [foo];
    assert ParseElements(text, 4, [foo]) == ParseElements(text, 5, [foo]);
    assert ParseElements(text, 1, []) == ParseElements(text, 4, [foo]);
  }

  /** A byte that starts no element is an invalid token at its offset. */
  lemma InvalidTokenInSExpression()
    ensures SExpressionFromText("(foo [bar])") == Err(ParseError(5, InvalidToken))
  {
    var text: Bytes := "(foo [bar])";
    AfterFoo(text);
    assert ParseElement(text, 5) == Err(ParseError(5, InvalidToken));
  }


  lemma UnknownEscapeInSExpression()
    ensures SExpressionFromText("(foo \"bar\\nbaz\")") == Err(ParseError(9, UnknownEscapeSequence))
  {
    var text: Bytes := "(foo \"bar\\nbaz\")";
    assert text[5] == '"' && text[6] == 'b' && text[7] == 'a' && text[8] == 'r';
    assert text[9] == '\\' && text[10] == 'n' && |text| == 16;
    AfterFoo(text);
    assert ReadQuotedBody(text, 9) == Err(ParseError(9, UnknownEscapeSequence));
    assert ReadQuotedBody(text, 8) == Err(ParseError(9, UnknownEscapeSequence));
    assert ReadQuotedBody(text, 7) == Err(ParseError(9, UnknownEscapeSequence));
    assert ReadQuotedBody(text, 6) == Err(ParseError(9, UnknownEscapeSequence));
    assert ParseQuoted(text, 5) == Err(ParseError(9, UnknownEscapeSequence));
    assert ParseAtom(text, 5) == Err(ParseError(9, UnknownEscapeSequence));
    assert ParseElement(text, 5) == Err(ParseError(9, UnknownEscapeSequence));
    assert ParseElements(text, 5, [AtomElement(Atom("foo", false))]) == Err(ParseError(9, UnknownEscapeSequence));
  }


  lemma SampleValidUpTo()
    ensures Utf8.ValidUpTo("aaa\U{80}bbb") == 3
  {
    var content: Bytes := "aaa\U{80}bbb";
    assert Utf8.SequenceWidth(content, 3) == 0;
    assert Utf8.ValidUpToFrom(content, 3) == 3;
    assert Utf8.SequenceWidth(content, 2) == 1;
    assert Utf8.ValidUpToFrom(content, 2) == 3;
    assert Utf8.SequenceWidth(content, 1) == 1;
    assert Utf8.ValidUpToFrom(content, 1) == 3;
    assert Utf8.SequenceWidth(content, 0) == 1;
  }

  /** A quoted body without escapes that is not UTF-8 is reported at the
      offset of its first offending byte; for the body `aaa`, 0x80, `bbb`
      that is offset 9. */
  lemma InvalidUtf8InSExpression(body: Bytes)
    requires forall k :: 0 <= k < |body| ==> body[k] != '"' && body[k] != '\\'
    requires !Utf8.Valid(body)
    ensures SExpressionFromText("(foo \"" + body + "\")") == Err(ParseError(6 + Utf8.ValidUpTo(body), InvalidUTF8))
  {
    var text: Bytes := "(foo \"" + body + "\")";
    assert text[..5] == "(foo ";
    AfterFoo(text);
    assert text[6..6 + |body|] == body;
    PlainBodyInvalidUtf8(text, 5, 6 + |body|);
    assert ParseElement(text, 5) == Err(ParseError(6 + Utf8.ValidUpTo(body), InvalidUTF8));
  }



  /** Printing an s-expression whose atoms are printable and parsing the
      text gives back the same tree of values; only `wasQuoted` may change,
      to what `ReadBack` says. */
  lemma SExpressionRoundTrip(s: SExpression)
    requires WellFormed(s)
    ensures SExpressionFromText(DisplaySExpression(s)) == Ok(Canonical(s))
  {
    SExpressionAt(s, DisplaySExpression(s), 0, DisplaySExpression(s));
  }
}
