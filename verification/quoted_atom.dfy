/** The atom of the newer revision: the value together with its encoding
    inside a message, computed once by `Atom::new`. Equality and ordering
    look at the value only. */
module QuotedAtoms {
  import opened Wrappers
  import opened Bytes
  import Utf8
  import SExpressions

  datatype Atom = Atom(unquoted: Bytes, quoted: Bytes)

  /** The two bytes `add_quotes` puts a backslash in front of. Both are
      ASCII, and in UTF-8 no byte of a longer character is ASCII, so going
      byte by byte is the same as going character by character. */
  predicate NeedsBackslash(c: Byte) {
    c == '\\' || c == '"'
  }

  /** The count of the first loop of `add_quotes`. */
  function CountEscapes(v: Bytes): (n: nat)
    ensures n <= |v|
    ensures n == 0 <==> forall i :: 0 <= i < |v| ==> !NeedsBackslash(v[i])
  {
    if v == [] then 0
    else (if NeedsBackslash(v[0]) then 1 else 0) + CountEscapes(v[1..])
  }

  // ---------------------------------------------------------------------
  // add_quotes as written

  /** `add_quotes`: the value itself when it holds no `\` and no `"`,
      otherwise the quoted string. */
  function AddQuotesAsWritten(v: Bytes): (r: Bytes)
    ensures CountEscapes(v) == 0 <==> r == v
    ensures CountEscapes(v) > 0 ==> |r| == |v| + CountEscapes(v) + 2 && r[0] == '"' && r[|r| - 1] == '"'
  {
    if CountEscapes(v) == 0 then v
    else
      EscapeLength(v);
      SExpressions.Quote(v)
  }

  /** `add_quotes`: count the bytes to escape, then, if there are any,
      build the quoted string. */
  method AddQuotesLoops(input: Bytes) returns (s: Bytes)
    ensures s == AddQuotesAsWritten(input)
  {
    var toEscape := CountLoop(input);
    if toEscape == 0 {
      return input;
    }
    s := QuoteLoop(input);
  }

  /** The first loop of `add_quotes`. */
  method CountLoop(input: Bytes) returns (toEscape: nat)
    ensures toEscape == CountEscapes(input)
  {
    toEscape := 0;
    for i := 0 to |input|
      invariant toEscape == CountEscapes(input[..i])
    {
      CountEscapesAppend(input[..i], [input[i]]);
      assert input[..i + 1] == input[..i] + [input[i]];
      if NeedsBackslash(input[i]) {
        toEscape := toEscape + 1;
      }
    }
    assert input[..|input|] == input;
  }

  /** The second loop of `add_quotes`, between the two quotes it writes. */
  method QuoteLoop(input: Bytes) returns (s: Bytes)
    ensures s == SExpressions.Quote(input)
  {
    s := ['"'];
    for i := 0 to |input|
      invariant s == ['"'] + SExpressions.Escape(input[..i])
    {
      EscapeAppend(input[..i], input[i]);
      assert input[..i + 1] == input[..i] + [input[i]];
      if NeedsBackslash(input[i]) {
        s := s + ['\\'];
      }
      s := s + [input[i]];
    }
    assert input[..|input|] == input;
    s := s + ['"'];
  }

  lemma {:induction false} CountEscapesAppend(a: Bytes, b: Bytes)
    ensures CountEscapes(a + b) == CountEscapes(a) + CountEscapes(b)
  {
    if a != [] {
      assert (a + b)[1..] == a[1..] + b;
      CountEscapesAppend(a[1..], b);
    } else {
      assert a + b == b;
    }
  }

  lemma {:induction false} EscapeAppend(a: Bytes, c: Byte)
    ensures SExpressions.Escape(a + [c])
         == SExpressions.Escape(a) + (if NeedsBackslash(c) then ['\\', c] else [c])
  {
    if a == [] {
      assert [c][1..] == [];
    } else {
      assert (a + [c])[1..] == a[1..] + [c];
      EscapeAppend(a[1..], c);
    }
  }

  /** Each escaped byte adds one backslash. */
  lemma {:induction false} EscapeLength(v: Bytes)
    ensures |SExpressions.Escape(v)| == |v| + CountEscapes(v)
  {
    if v != [] {
      EscapeLength(v[1..]);
    }
  }

  /** A value that contains a space is left bare, and the bare text does not
      read back as one atom; the empty value is left as no text at all. */
  lemma AsWrittenDoesNotReadBack()
    ensures AddQuotesAsWritten("a b") == "a b"
    ensures SExpressions.AtomFromText("a b") == Err(SExpressions.ParseError(1, SExpressions.ExpectedEOF))
    ensures AddQuotesAsWritten([]) == []
    ensures SExpressions.AtomFromText([]) == Err(SExpressions.ParseError(0, SExpressions.UnexpectedEOF))
  {
    var text: Bytes := "a b";
    assert CountEscapes(text) == 0;
    assert SExpressions.BarewordEnd(text, 1) == 1;
    assert SExpressions.ParseAtom(text, 0) == Ok((SExpressions.Atom(text[..1], false), 1));
  }

  // ---------------------------------------------------------------------
  // add_quotes, corrected

  /** The compact encoding of a value: bare when it is a non-empty run of
      bareword bytes, otherwise the quoted string. */
  function AddQuotes(v: Bytes): (r: Bytes)
    ensures r == v <==> |v| > 0 && SExpressions.AllBareword(v)
    ensures r != v ==> |r| == |v| + CountEscapes(v) + 2
  {
    if |v| > 0 && SExpressions.AllBareword(v) then v
    else
      EscapeLength(v);
      SExpressions.Quote(v)
  }

  /** The corrected encoding reads back as the value, for every UTF-8
      value, the empty one included. */
  lemma AddQuotesRoundTrip(v: Bytes)
    requires Utf8.Valid(v)
    ensures var r := SExpressions.AtomFromText(AddQuotes(v));
      r.Ok? && r.value.value == v && r.value.wasQuoted == (AddQuotes(v) != v)
  {
    var text := AddQuotes(v);
    assert text[0..|text|] == text;
    if |v| > 0 && SExpressions.AllBareword(v) {
      SExpressions.BarewordRoundTrip(v, text, 0);
    } else {
      assert text[0] == '"';
      SExpressions.QuotedRoundTrip(v, text, 0);
    }
  }

  /** The two encodings differ exactly on values without `\` and `"` that
      are empty or hold a byte outside the bareword class. */
  lemma AddQuotesDiffersIff(v: Bytes)
    ensures AddQuotes(v) != AddQuotesAsWritten(v)
        <==> CountEscapes(v) == 0 && !(|v| > 0 && SExpressions.AllBareword(v))
  {
    if |v| > 0 && SExpressions.AllBareword(v) {
      BarewordNeedsNoBackslash(v);
    }
  }

  lemma BarewordNeedsNoBackslash(v: Bytes)
    requires SExpressions.AllBareword(v)
    ensures CountEscapes(v) == 0
  {
    assert forall i :: 0 <= i < |v| ==> !NeedsBackslash(v[i]);
  }

  // ---------------------------------------------------------------------
  // The atom

  /** `Atom::new`: the value and its encoding by `add_quotes` as written.
      The encoding is the value itself exactly when nothing needs a
      backslash, and it reads back as the value whenever something needs a
      backslash or the value is one bareword. */
  function NewAtom(s: Bytes): (a: Atom)
    ensures AsRef(a) == s
    ensures Display(a) == s <==> CountEscapes(s) == 0
    ensures Utf8.Valid(s) && (CountEscapes(s) > 0 || (|s| > 0 && SExpressions.AllBareword(s))) ==>
      SExpressions.AtomFromText(Display(a)).Ok? && SExpressions.AtomFromText(Display(a)).value.value == s
  {
    AddQuotesDiffersIff(s);
    var a := Atom(s, AddQuotesAsWritten(s));
    if Utf8.Valid(s) then AddQuotesRoundTrip(s); a else a
  }

  /** `Atom::new` with the corrected `add_quotes`: the encoding of every
      UTF-8 value reads back as the value. */
  function NewAtomCorrected(s: Bytes): (a: Atom)
    ensures AsRef(a) == s
    ensures Utf8.Valid(s) ==> SExpressions.AtomFromText(Display(a)).Ok?
                              && SExpressions.AtomFromText(Display(a)).value.value == s
  {
    if Utf8.Valid(s) then AddQuotesRoundTrip(s); Atom(s, AddQuotes(s))
    else Atom(s, AddQuotes(s))
  }

  /** `as_ref`. */
  function AsRef(a: Atom): Bytes {
    a.unquoted
  }

  /** `Display for Atom`: the encoding computed by `Atom::new`. */
  function Display(a: Atom): Bytes {
    a.quoted
  }

  /** `PartialEq for Atom`. */
  predicate AtomsEqual(a: Atom, b: Atom) {
    a.unquoted == b.unquoted
  }

  datatype Ordering = Less | Equal | Greater {
    function Reverse(): Ordering {
      match this
      case Less => Greater
      case Equal => Equal
      case Greater => Less
    }
  }

  /** `Ord for String`: byte-wise lexicographic order, a proper prefix
      first. */
  function CompareBytes(x: Bytes, y: Bytes): (r: Ordering)
    ensures r == Equal <==> x == y
  {
    if x == [] && y == [] then Equal
    else if x == [] then Less
    else if y == [] then Greater
    else if x[0] < y[0] then Less
    else if x[0] > y[0] then Greater
    else
      var r := CompareBytes(x[1..], y[1..]);
      assert r == Equal ==> x == [x[0]] + x[1..] && y == [y[0]] + y[1..];
      r
  }

  /** `Ord for Atom` (and `partial_cmp`, `lt`, `le`, `gt`, `ge`, which
      all compare the values the same way). */
  function Compare(a: Atom, b: Atom): (r: Ordering)
    ensures r == Equal <==> AtomsEqual(a, b)
  {
    CompareBytes(a.unquoted, b.unquoted)
  }

  lemma {:induction false} CompareBytesAntisymmetric(x: Bytes, y: Bytes)
    ensures CompareBytes(y, x) == CompareBytes(x, y).Reverse()
  {
    if x != [] && y != [] && x[0] == y[0] {
      CompareBytesAntisymmetric(x[1..], y[1..]);
    }
  }

  lemma {:induction false} CompareBytesTransitive(x: Bytes, y: Bytes, z: Bytes)
    requires CompareBytes(x, y) == Less && CompareBytes(y, z) == Less
    ensures CompareBytes(x, z) == Less
  {
    if x != [] && y != [] && z != [] && x[0] == y[0] && y[0] == z[0] {
      CompareBytesTransitive(x[1..], y[1..], z[1..]);
    }
  }

  /** The order of atoms is a total order on their values, consistent with
      their equality. */
  lemma AtomOrderIsTotal(a: Atom, b: Atom, c: Atom)
    ensures Compare(b, a) == Compare(a, b).Reverse()
    ensures Compare(a, b) == Less && Compare(b, c) == Less ==> Compare(a, c) == Less
  {
    CompareBytesAntisymmetric(a.unquoted, b.unquoted);
    if Compare(a, b) == Less && Compare(b, c) == Less {
      CompareBytesTransitive(a.unquoted, b.unquoted, c.unquoted);
    }
  }

  /** For atoms made by `Atom::new`, equality of values is equality of the
      whole atoms, because the encoding depends on the value alone. */
  lemma NewAtomEquality(s: Bytes, t: Bytes)
    ensures AtomsEqual(NewAtom(s), NewAtom(t)) <==> NewAtom(s) == NewAtom(t)
  {
  }
}
