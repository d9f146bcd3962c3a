/** The human-readable form of a message: `(type arg arg ...)`, where an
    argument is printed bare when it consists of `[A-Za-z0-9._-]` only, and
    otherwise in double quotes, each byte through Rust's
    `core::ascii::escape_default`. */
module MessageDisplay {
  import opened Wrappers
  import opened Bytes
  import Names
  import Identifiers

  /** `char_needs_escaping`: everything outside `[A-Za-z0-9._-]`. */
  predicate NeedsEscaping(b: Byte) {
    !(IsAsciiAlphanumeric(b) || b == '.' || b == '_' || b == '-')
  }

  /** `arg.iter().any(|&x| char_needs_escaping(x))`. */
  function AnyNeedsEscaping(s: Bytes): (r: bool)
    ensures r <==> exists i | 0 <= i < |s| :: NeedsEscaping(s[i])
  {
    if |s| == 0 then false
    else if NeedsEscaping(s[0]) then true
    else
      var r := AnyNeedsEscaping(s[1..]);
      assert forall i | 1 <= i < |s| :: s[i] == s[1..][i - 1];
      r
  }

  const HEX: Bytes := "0123456789abcdef"

  /** `core::ascii::escape_default` for one byte. */
  function EscapeDefault(b: Byte): (r: Bytes)
    ensures 1 <= |r| <= 4
    ensures |r| == 1 <==> 0x20 <= b as int < 0x7f && b != '\\' && b != '\'' && b != '"'
  {
    if b == '\t' then ['\\', 't']
    else if b == '\r' then ['\\', 'r']
    else if b == '\n' then ['\\', 'n']
    else if b == '\\' || b == '\'' || b == '"' then ['\\', b]
    else if 0x20 <= b as int < 0x7f then [b]
    else ['\\', 'x', HEX[b as int / 16], HEX[b as int % 16]]
  }

  /** `arg.iter().flat_map(|&b| escape_default(b))`. */
  function Escape(s: Bytes): Bytes {
    if |s| == 0 then [] else EscapeDefault(s[0]) + Escape(s[1..])
  }

  /** One argument with the space before it. `quoteEmpty` distinguishes the
      revisions: the newer one also quotes the empty argument. */
  function ArgumentText(arg: Bytes, quoteEmpty: bool): Bytes {
    if (quoteEmpty && |arg| == 0) || AnyNeedsEscaping(arg) then [' ', '"'] + Escape(arg) + ['"']
    else [' '] + Escape(arg)
  }

  function ArgumentsText(args: seq<Bytes>, quoteEmpty: bool): Bytes {
    if |args| == 0 then [] else ArgumentText(args[0], quoteEmpty) + ArgumentsText(args[1..], quoteEmpty)
  }

  /** `impl Display for Message`, given the text of its type. */
  function DisplayMessage(typeText: Bytes, args: seq<Bytes>, quoteEmpty: bool): Bytes {
    ['('] + typeText + ArgumentsText(args, quoteEmpty) + [')']
  }

  // ---------------------------------------------------------------------
  // Reading the escapes back

  function HexValue(b: Byte): Option<nat> {
    if '0' <= b <= '9' then Some(b as int - '0' as int)
    else if 'a' <= b <= 'f' then Some(b as int - 'a' as int + 10)
    else None
  }

  /** The inverse of `Escape`: reads `\t`, `\r`, `\n`, `\\`, `\'`, `\"` and
      `\xNN`, and every other byte as itself. */
  function Unescape(e: Bytes): Option<Bytes>
    decreases |e|
  {
    if |e| == 0 then Some([])
    else if e[0] != '\\' then
      match Unescape(e[1..])
      case None => None
      case Some(rest) => Some([e[0]] + rest)
    else if |e| < 2 then None
    else
      var (b, w) :=
        if e[1] == 't' then (Some('\t' as Byte), 2)
        else if e[1] == 'r' then (Some('\r' as Byte), 2)
        else if e[1] == 'n' then (Some('\n' as Byte), 2)
        else if e[1] == '\\' || e[1] == '\'' || e[1] == '"' then (Some(e[1]), 2)
        else if e[1] == 'x' && |e| >= 4 && HexValue(e[2]).Some? && HexValue(e[3]).Some? then
          (Some((HexValue(e[2]).value * 16 + HexValue(e[3]).value) as char as Byte), 4)
        else (None, 2);
      if b.None? then None
      else
        match Unescape(e[w..])
        case None => None
        case Some(rest) => Some([b.value] + rest)
  }

  lemma HexRoundTrip(d: nat)
    requires d < 16
    ensures HexValue(HEX[d]) == Some(d)
  {
  }

  lemma UnescapeOne(b: Byte, rest: Bytes)
    ensures Unescape(EscapeDefault(b) + rest)
      == match Unescape(rest) case None => None case Some(r) => Some([b] + r)
  {
    var e := EscapeDefault(b) + rest;
    var w := |EscapeDefault(b)|;
    assert e[w..] == rest;
    if w == 4 {
      HexRoundTrip(b as int / 16);
      HexRoundTrip(b as int % 16);
    }
  }

  /** Escaping loses nothing: `Unescape` recovers the bytes. */
  lemma {:induction false} UnescapeEscape(s: Bytes)
    ensures Unescape(Escape(s)) == Some(s)
    decreases |s|
  {
    if |s| > 0 {
      UnescapeEscape(s[1..]);
      UnescapeOne(s[0], Escape(s[1..]));
      assert [s[0]] + s[1..] == s;
    }
  }

  /** A byte that needs no escaping in the display form also needs none
      from `escape_default`, so such an argument is printed verbatim. */
  lemma {:induction false} EscapeOfPlain(s: Bytes)
    requires !AnyNeedsEscaping(s)
    ensures Escape(s) == s
    decreases |s|
  {
    if |s| > 0 {
      assert !NeedsEscaping(s[0]);
      EscapeOfPlain(s[1..]);
      assert [s[0]] + s[1..] == s;
    }
  }

  /** An argument is shown in quotes exactly when the source's rule says so:
      when it is empty (newer revision only) or holds a byte outside
      `[A-Za-z0-9._-]`. A bare argument is the argument itself. */
  lemma ArgumentQuotedIff(arg: Bytes, quoteEmpty: bool)
    ensures var t := ArgumentText(arg, quoteEmpty);
      (|t| >= 2 && t[1] == '"')
        <==> (quoteEmpty && |arg| == 0) || (exists i | 0 <= i < |arg| :: NeedsEscaping(arg[i]))
    ensures !(quoteEmpty && |arg| == 0) && !AnyNeedsEscaping(arg) ==> ArgumentText(arg, quoteEmpty) == [' '] + arg
  {
    if !(quoteEmpty && |arg| == 0) && !AnyNeedsEscaping(arg) {
      EscapeOfPlain(arg);
      if |arg| > 0 {
        assert !NeedsEscaping(arg[0]);
      }
    }
  }

  // ---------------------------------------------------------------------
  // The type name in the older revision

  /** The older revision prints the pair from `is_message_type` as
      `{module}.{name}`, also when the module part is empty. */
  function TypeNameTextAsWritten(typeName: (Bytes, Bytes)): (r: Bytes)
    ensures |r| == |typeName.0| + 1 + |typeName.1|
    ensures r[|typeName.0|] == '.'
  {
    typeName.0 + ['.'] + typeName.1
  }

  /** The type name as it was sent: the eternal types without a dot. */
  function TypeNameText(typeName: (Bytes, Bytes)): (r: Bytes)
    ensures typeName.0 == [] ==> r == typeName.1
  {
    if typeName.0 == [] then typeName.1 else typeName.0 + ['.'] + typeName.1
  }

  /** The older revision's Display for an eternal type such as `want`
      begins with `(.want`, not with the `(want` of the item on the wire. */
  lemma EternalTypeShownWithDot(name: Bytes, args: seq<Bytes>)
    requires name == "want" || name == "have" || name == "nope"
    ensures Names.IsMessageType(name) == Some(([], name))
    ensures var shown := DisplayMessage(TypeNameTextAsWritten(Names.IsMessageType(name).value), args, false);
      shown[..2] == ['(', '.'] && shown[1..5] != name
  {
    var shown := DisplayMessage(TypeNameTextAsWritten(([], name)), args, false);
    assert shown[1] == '.';
    assert shown[1..5][0] == '.';
  }

  /** The corrected type text is exactly the first item that was
      classified, for every message type. */
  lemma TypeNameTextRoundTrip(name: Bytes)
    requires Names.IsMessageType(name).Some?
    ensures TypeNameText(Names.IsMessageType(name).value) == name
  {
    var (l, r) := Names.IsMessageType(name).value;
    Names.MessageTypeIff(name, l, r);
    if l == [] {
      assert !Identifiers.IsIdentifierText(l);
    }
  }
}
