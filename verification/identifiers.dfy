/** The typed identifier parsers of the VT6 core: client IDs, identifiers,
    module identifiers (`core1`), module versions (`core1.2`), scoped
    identifiers (`core1.set`) and message types. Every parsed value keeps
    its source text. */
module Identifiers {
  import opened Wrappers
  import opened Bytes
  import opened Decimal
  import IntCodec

  type U16 = x: nat | x <= U16_MAX

  predicate IsClientIdChar(b: Byte) { IsAsciiAlphanumeric(b) }

  predicate IsIdentLeader(b: Byte) { IsAsciiLetter(b) || b == '_' }

  predicate IsIdentChar(b: Byte) { IsAsciiLetter(b) || b == '_' || b == '-' }

  /** The `<identifier>` grammar: a letter or underscore, then letters,
      underscores and dashes. */
  predicate IsIdentifierText(s: Bytes) {
    |s| >= 1 && IsIdentLeader(s[0]) && forall i :: 1 <= i < |s| ==> IsIdentChar(s[i])
  }

  datatype ClientId = ClientId(source: Bytes)

  datatype Identifier = Identifier(source: Bytes)

  datatype ModuleIdentifier = ModuleIdentifier(source: Bytes, name: Identifier, major: U16)

  datatype ModuleVersion = ModuleVersion(source: Bytes, name: Identifier, major: U16, minor: U16)

  datatype ScopedIdentifier = ScopedIdentifier(source: Bytes, moduleId: ModuleIdentifier, member: Identifier)

  datatype MessageType = Init | Want | Have | Nope | Scoped(scoped: ScopedIdentifier)

  /** `ClientID::parse`: a non-empty string of ASCII letters and digits. */
  function ParseClientId(input: Bytes): (r: Option<ClientId>)
    ensures r.Some? ==> r.value.source == input
    ensures r.Some? <==> |input| > 0 && forall i :: 0 <= i < |input| ==> IsClientIdChar(input[i])
  {
    if |input| == 0 then None
    else if forall i :: 0 <= i < |input| ==> IsClientIdChar(input[i]) then Some(ClientId(input))
    else None
  }

  /** First index at or after `i` that does not hold an identifier char. */
  function IdentEnd(s: Bytes, i: nat): (j: nat)
    requires i <= |s|
    ensures i <= j <= |s|
    ensures forall k :: i <= k < j ==> IsIdentChar(s[k])
    ensures j < |s| ==> !IsIdentChar(s[j])
    decreases |s| - i
  {
    if i == |s| || !IsIdentChar(s[i]) then i else IdentEnd(s, i + 1)
  }

  /** `parse_ident_or_module_ident`: an identifier, optionally followed by a
      major version that starts with a non-zero digit. */
  function ParseIdentOrModuleIdent(input: Bytes): (r: Option<(Identifier, Option<U16>)>)
    ensures r.Some? && r.value.1.None? ==> r.value.0.source == input && IsIdentifierText(input)
    ensures r.Some? && r.value.1.Some? ==>
      IsIdentifierText(r.value.0.source) && 1 <= r.value.1.value
      && input == r.value.0.source + NatToDecimal(r.value.1.value)
  {
    if |input| == 0 || !IsIdentLeader(input[0]) then None
    else
      var j := IdentEnd(input, 1);
      if j == |input| then Some((Identifier(input), None))
      else if IsDigit(input[j]) && input[j] != '0' then
        var version := IntCodec.DecodeCanonical(input[j..], IntCodec.U16);
        if version.None? || version.value == 0 then None
        else
          assert input == input[..j] + input[j..];
          Some((Identifier(input[..j]), Some(version.value as U16)))
      else None
  }

  /** `Identifier::parse`. */
  function ParseIdentifier(input: Bytes): (r: Option<Identifier>)
    ensures r.Some? ==> r.value.source == input
    ensures r.Some? <==> IsIdentifierText(input)
  {
    match ParseIdentOrModuleIdent(input)
    case Some((name, None)) => Some(name)
    case _ => None
  }

  /** `ModuleIdentifier::parse`. */
  function ParseModuleIdentifier(input: Bytes): (r: Option<ModuleIdentifier>)
    ensures r.Some? ==> r.value.source == input
    ensures r.Some? ==> IsIdentifierText(r.value.name.source) && 1 <= r.value.major
    ensures r.Some? ==> input == r.value.name.source + NatToDecimal(r.value.major)
  {
    match ParseIdentOrModuleIdent(input)
    case Some((name, Some(version))) => Some(ModuleIdentifier(input, name, version))
    case _ => None
  }

  /** `ModuleVersion::parse`: a module identifier, a dot, then the minor
      version through `u16::decode`, which also takes a leading `+`. */
  function ParseModuleVersion(input: Bytes): (r: Option<ModuleVersion>)
    ensures r.Some? ==> r.value.source == input
    ensures r.Some? ==> IsIdentifierText(r.value.name.source) && 1 <= r.value.major
  {
    var dot := Find(input, '.');
    if dot < 0 then None
    else
      var ident := ParseModuleIdentifier(input[..dot]);
      var minor := DecodeMinor(input[dot + 1..]);
      if ident.None? || minor.None? then None
      else Some(ModuleVersion(input, ident.value.name, ident.value.major, minor.value))
  }

  /** The minor version: `u16::decode` as written, so the numeral or a `+`
      followed by digits. */
  function DecodeMinor(text: Bytes): (r: Option<U16>)
    ensures r.Some? ==> IntCodec.UnsignedText(text, r.value)
    ensures r.Some? <==> IntCodec.Decode(text, IntCodec.U16).Some?
  {
    var minor := IntCodec.Decode(text, IntCodec.U16);
    if minor.None? then None
    else
      assert IntCodec.IntType.U16.Max() == U16_MAX;
      IntCodec.DecodedUnsigned(text, minor.value, IntCodec.U16);
      Some(minor.value as U16)
  }

  /** `ScopedIdentifier::parse`: a module identifier, a dot, an identifier. */
  function ParseScopedIdentifier(input: Bytes): (r: Option<ScopedIdentifier>)
    ensures r.Some? ==> r.value.source == input
    ensures r.Some? ==> input == r.value.moduleId.source + ['.'] + r.value.member.source
    ensures r.Some? ==> IsIdentifierText(r.value.member.source)
  {
    var dot := Find(input, '.');
    if dot < 0 then None
    else
      var moduleId := ParseModuleIdentifier(input[..dot]);
      var member := ParseIdentifier(input[dot + 1..]);
      if moduleId.None? || member.None? then None
      else
        SplitAround(input, dot);
        Some(ScopedIdentifier(input, moduleId.value, member.value))
  }

  /** `MessageType::parse`: one of the four eternal message types, else a
      scoped identifier. */
  function ParseMessageType(input: Bytes): (r: Option<MessageType>)
    ensures r.Some? ==> MessageTypeText(r.value) == input
  {
    if input == "init" then Some(Init)
    else if input == "want" then Some(Want)
    else if input == "have" then Some(Have)
    else if input == "nope" then Some(Nope)
    else
      var s := ParseScopedIdentifier(input);
      if s.None? then None else Some(Scoped(s.value))
  }

  /** `MessageType::as_str`. */
  function MessageTypeText(t: MessageType): Bytes {
    match t
    case Init => "init"
    case Want => "want"
    case Have => "have"
    case Nope => "nope"
    case Scoped(s) => s.source
  }

  // ---------------------------------------------------------------------
  // The parsers against the grammars they implement

  /** No identifier contains a digit or a dot. */
  lemma IdentifierTextHasNoDigitOrDot(s: Bytes, i: nat)
    requires IsIdentifierText(s) && i < |s|
    ensures !IsDigit(s[i]) && s[i] != '.'
  {}

  /** A module identifier is an identifier followed by the canonical numeral
      of a major version between 1 and 65535, and every such text parses
      back into exactly its parts. */
  lemma ModuleIdentifierGrammar(input: Bytes, name: Bytes, major: U16)
    ensures ParseModuleIdentifier(input) == Some(ModuleIdentifier(input, Identifier(name), major))
        <==> IsIdentifierText(name) && 1 <= major && input == name + NatToDecimal(major)
  {
    if IsIdentifierText(name) && 1 <= major && input == name + NatToDecimal(major) {
      ModuleIdentifierComplete(name, major);
    }
  }

  lemma ModuleIdentifierComplete(name: Bytes, major: U16)
    requires IsIdentifierText(name) && 1 <= major
    ensures ParseIdentOrModuleIdent(name + NatToDecimal(major)) == Some((Identifier(name), Some(major)))
  {
    var d := NatToDecimal(major);
    var input := name + d;
    ConcatParts(name, d, input);
    IdentEndAt(input, 1, |name|);
    IntCodec.DecodeCanonicalIff(d, major, IntCodec.U16);
    IdentThenVersion(input, |name|, major);
  }

  /** The parts of a concatenation, as slices and elements of it. */
  lemma ConcatParts<T>(a: seq<T>, b: seq<T>, ab: seq<T>)
    requires ab == a + b
    ensures ab[..|a|] == a && ab[|a|..] == b
    ensures forall k :: 0 <= k < |a| ==> ab[k] == a[k]
    ensures forall k :: 0 <= k < |b| ==> ab[|a| + k] == b[k]
  {}

  /** An identifier up to `j`, then a canonical major version. */
  lemma IdentThenVersion(input: Bytes, j: nat, major: U16)
    requires 0 < j < |input| && IsIdentLeader(input[0]) && IdentEnd(input, 1) == j
    requires IsDigit(input[j]) && input[j] != '0' && 1 <= major
    requires IntCodec.DecodeCanonical(input[j..], IntCodec.U16) == Some(major as int)
    ensures ParseIdentOrModuleIdent(input) == Some((Identifier(input[..j]), Some(major)))
  {}

  lemma {:induction false} IdentEndAt(s: Bytes, i: nat, j: nat)
    requires i <= j < |s| && !IsIdentChar(s[j])
    requires forall k :: i <= k < j ==> IsIdentChar(s[k])
    ensures IdentEnd(s, i) == j
    decreases j - i
  {
    if i < j {
      IdentEndAt(s, i + 1, j);
    }
  }

  /** The text of a module version with the given parts. */
  function ModuleVersionText(name: Bytes, major: nat, minor: nat): Bytes {
    VersionHead(name, major) + NatToDecimal(minor)
  }

  /** A module identifier and the dot after it. */
  function VersionHead(name: Bytes, major: nat): Bytes {
    name + NatToDecimal(major) + ['.']
  }

  /** `input` is `head` followed by a text `u16::decode` reads as `minor`. */
  predicate HeadThenMinor(input: Bytes, head: Bytes, minor: U16) {
    |head| <= |input| && input[..|head|] == head && IntCodec.UnsignedText(input[|head|..], minor)
  }

  /** A module version is a module identifier, a dot and a minor version in
      any form `u16::decode` accepts (its numeral, or `+` and digits worth
      it), and every such text parses back into exactly its parts. */
  lemma ModuleVersionGrammar(input: Bytes, name: Bytes, major: U16, minor: U16)
    ensures ParseModuleVersion(input) == Some(ModuleVersion(input, Identifier(name), major, minor))
        <==> IsIdentifierText(name) && 1 <= major && HeadThenMinor(input, VersionHead(name, major), minor)
  {
    if ParseModuleVersion(input) == Some(ModuleVersion(input, Identifier(name), major, minor)) {
      ModuleVersionSound(input);
    }
    if IsIdentifierText(name) && 1 <= major && HeadThenMinor(input, VersionHead(name, major), minor) {
      var head := VersionHead(name, major);
      assert input == head + input[|head|..];
      ModuleVersionComplete(name, major, minor, input[|head|..]);
    }
  }

  lemma ModuleVersionSound(input: Bytes)
    requires ParseModuleVersion(input).Some?
    ensures var v := ParseModuleVersion(input).value;
      IsIdentifierText(v.name.source) && 1 <= v.major
      && HeadThenMinor(input, VersionHead(v.name.source, v.major), v.minor)
  {
    var v := ParseModuleVersion(input).value;
    var dot := Find(input, '.');
    var m := ParseModuleIdentifier(input[..dot]).value;
    var minor := DecodeMinor(input[dot + 1..]).value;
    assert v == ModuleVersion(input, m.name, m.major, minor);
    HeadAtDot(input, dot, m.name.source, m.major, minor);
  }

  /** A module identifier before the dot at `dot` and a minor version
      after it. */
  lemma HeadAtDot(input: Bytes, dot: nat, name: Bytes, major: U16, minor: U16)
    requires dot < |input| && input[dot] == '.'
    requires input[..dot] == name + NatToDecimal(major)
    requires DecodeMinor(input[dot + 1..]) == Some(minor)
    ensures HeadThenMinor(input, VersionHead(name, major), minor)
  {
    var head := VersionHead(name, major);
    assert input[..dot + 1] == input[..dot] + [input[dot]];
    assert |head| == dot + 1 && input[..|head|] == head;
    assert IntCodec.UnsignedText(input[|head|..], minor);
  }

  /** The text of any name, major version and form of the minor version
      parses to exactly those parts. */
  lemma ModuleVersionComplete(name: Bytes, major: U16, minor: U16, minorText: Bytes)
    requires IsIdentifierText(name) && 1 <= major && IntCodec.UnsignedText(minorText, minor)
    ensures var input := VersionHead(name, major) + minorText;
      ParseModuleVersion(input) == Some(ModuleVersion(input, Identifier(name), major, minor))
  {
    var left := name + NatToDecimal(major);
    var input := VersionHead(name, major) + minorText;
    var m := ModuleIdentifierParses(name, major);
    DotAfterModuleIdentifier(left, minorText);
    DotParts(left, '.', minorText, input);
    MinorTextIff(minorText, minor);
    ModuleVersionAt(input, |left|, m, minor);
  }

  /** The canonical text of a module version parses to its parts. */
  lemma ModuleVersionTextParses(name: Bytes, major: U16, minor: U16)
    requires IsIdentifierText(name) && 1 <= major
    ensures var input := ModuleVersionText(name, major, minor);
      ParseModuleVersion(input) == Some(ModuleVersion(input, Identifier(name), major, minor))
  {
    ModuleVersionComplete(name, major, minor, NatToDecimal(minor));
  }

  /** `core1.+5` is read as `core1.5`, though the texts differ. */
  lemma SignedMinorAccepted()
    ensures ParseModuleVersion("core1.+5") == Some(ModuleVersion("core1.+5", Identifier("core"), 1, 5))
    ensures "core1.+5" != ModuleVersionText("core", 1, 5)
  {
    var text: Bytes := "+5";
    assert text[1..] == "5" && DecimalValue("5") == 5;
    assert NatToDecimal(1) == "1";
    assert VersionHead("core", 1) + text == "core1.+5";
    ModuleVersionComplete("core", 1, 5, text);
    assert NatToDecimal(5) == "5";
  }

  lemma ModuleIdentifierParses(name: Bytes, major: U16) returns (m: ModuleIdentifier)
    requires IsIdentifierText(name) && 1 <= major
    ensures m == ModuleIdentifier(name + NatToDecimal(major), Identifier(name), major)
    ensures ParseModuleIdentifier(name + NatToDecimal(major)) == Some(m)
  {
    ModuleIdentifierComplete(name, major);
    m := ModuleIdentifier(name + NatToDecimal(major), Identifier(name), major);
  }

  lemma DotAfterModuleIdentifier(left: Bytes, right: Bytes)
    requires ParseModuleIdentifier(left).Some?
    ensures Find(left + ['.'] + right, '.') == |left|
  {
    NoDotInModuleIdentifier(left);
    FindFirstDot(left, right);
  }

  /** `DecodeMinor` reads `minor` exactly from the texts `u16::decode`
      accepts for it. */
  lemma MinorTextIff(text: Bytes, minor: U16)
    ensures DecodeMinor(text) == Some(minor) <==> IntCodec.UnsignedText(text, minor)
  {
    assert IntCodec.IntType.U16.Max() == U16_MAX;
    IntCodec.DecodeUnsignedIff(text, minor, IntCodec.U16);
  }

  lemma DotParts<T>(a: seq<T>, c: T, b: seq<T>, s: seq<T>)
    requires s == a + [c] + b
    ensures |a| < |s| && s[..|a|] == a && s[|a|] == c && s[|a| + 1..] == b
  {}

  /** A module identifier before the first dot and a minor version after
      it. */
  lemma ModuleVersionAt(input: Bytes, dot: nat, m: ModuleIdentifier, minor: U16)
    requires dot < |input| && Find(input, '.') == dot
    requires ParseModuleIdentifier(input[..dot]) == Some(m)
    requires DecodeMinor(input[dot + 1..]) == Some(minor)
    ensures ParseModuleVersion(input) == Some(ModuleVersion(input, m.name, m.major, minor))
  {
    var ident := ParseModuleIdentifier(input[..Find(input, '.')]);
    var decoded := DecodeMinor(input[Find(input, '.') + 1..]);
    assert ident == Some(m) && decoded == Some(minor);
  }

  /** A scoped identifier is a module identifier, a dot and an identifier,
      and every such text parses back into exactly its parts. */
  lemma ScopedIdentifierGrammar(input: Bytes, m: ModuleIdentifier, member: Bytes)
    requires ParseModuleIdentifier(m.source) == Some(m)
    ensures ParseScopedIdentifier(input) == Some(ScopedIdentifier(input, m, Identifier(member)))
        <==> IsIdentifierText(member) && input == m.source + ['.'] + member
  {
    if ParseScopedIdentifier(input) == Some(ScopedIdentifier(input, m, Identifier(member))) {
      ScopedIdentifierSound(input);
    }
    if IsIdentifierText(member) && input == m.source + ['.'] + member {
      ScopedIdentifierComplete(m, member);
    }
  }

  lemma ScopedIdentifierSound(input: Bytes)
    requires ParseScopedIdentifier(input).Some?
    ensures var sc := ParseScopedIdentifier(input).value;
      ParseModuleIdentifier(sc.moduleId.source) == Some(sc.moduleId)
      && IsIdentifierText(sc.member.source)
      && input == sc.moduleId.source + ['.'] + sc.member.source
  {
    SplitAround(input, Find(input, '.'));
  }

  lemma ScopedIdentifierComplete(m: ModuleIdentifier, member: Bytes)
    requires ParseModuleIdentifier(m.source) == Some(m) && IsIdentifierText(member)
    ensures var input := m.source + ['.'] + member;
      ParseScopedIdentifier(input) == Some(ScopedIdentifier(input, m, Identifier(member)))
  {
    var input := m.source + ['.'] + member;
    NoDotInModuleIdentifier(m.source);
    FindFirstDot(m.source, member);
    assert input[..|m.source|] == m.source && input[|m.source| + 1..] == member;
  }

  lemma NoDotInModuleIdentifier(s: Bytes)
    requires ParseModuleIdentifier(s).Some?
    ensures forall i :: 0 <= i < |s| ==> s[i] != '.'
  {
    var m := ParseModuleIdentifier(s).value;
    var name := m.name.source;
    var d := NatToDecimal(m.major);
    assert s == name + d;
    forall i | 0 <= i < |s|
      ensures s[i] != '.'
    {
      if i < |name| {
        IdentifierTextHasNoDigitOrDot(name, i);
      } else {
        assert s[i] == d[i - |name|];
      }
    }
  }

  lemma FindFirstDot(a: Bytes, b: Bytes)
    requires forall i :: 0 <= i < |a| ==> a[i] != '.'
    ensures Find(a + ['.'] + b, '.') == |a|
  {
    var s := a + ['.'] + b;
    assert s[|a|] == '.';
    assert forall i :: 0 <= i < |a| ==> s[i] == a[i];
    FindAt(s, '.', |a|);
  }

  /** `MessageType::as_str` gives back the parsed text, so parsing a type's
      text yields the type again. */
  lemma MessageTypeRoundTrip(input: Bytes)
    requires ParseMessageType(input).Some?
    ensures MessageTypeText(ParseMessageType(input).value) == input
    ensures ParseMessageType(MessageTypeText(ParseMessageType(input).value)) == ParseMessageType(input)
  {}

  /** `MessageType::parse` accepts exactly the four eternal names and the
      scoped identifiers; a scoped identifier holds a dot, so it is never
      taken for an eternal name and becomes a `Scoped` type. */
  lemma MessageTypeAccepts(input: Bytes)
    ensures ParseMessageType(input).Some? <==>
      input in ["init", "want", "have", "nope"] || ParseScopedIdentifier(input).Some?
    ensures ParseScopedIdentifier(input).Some? ==>
      ParseMessageType(input) == Some(Scoped(ParseScopedIdentifier(input).value))
  {}

  /** Different message types have different texts. */
  lemma MessageTypeTextInjective(a: Bytes, b: Bytes)
    requires ParseMessageType(a).Some? && ParseMessageType(b).Some?
    requires MessageTypeText(ParseMessageType(a).value) == MessageTypeText(ParseMessageType(b).value)
    ensures ParseMessageType(a) == ParseMessageType(b)
  {
    MessageTypeRoundTrip(a);
    MessageTypeRoundTrip(b);
  }

  /** No text is two kinds of identifier at once: identifiers have neither
      digits nor dots, module identifiers end in a digit and have no dot,
      and the part after the dot is a number for module versions but an
      identifier for scoped identifiers. */
  lemma KindsAreDisjoint(input: Bytes)
    ensures ParseIdentifier(input).Some? ==> ParseModuleIdentifier(input).None?
    ensures ParseIdentifier(input).Some? || ParseModuleIdentifier(input).Some? ==>
      ParseModuleVersion(input).None? && ParseScopedIdentifier(input).None?
    ensures ParseModuleVersion(input).None? || ParseScopedIdentifier(input).None?
    ensures ParseModuleVersion(input).Some? || ParseScopedIdentifier(input).Some? ==>
      ParseClientId(input).None?
  {
    if ParseIdentifier(input).Some? {
      forall i | 0 <= i < |input| ensures input[i] != '.' {
        IdentifierTextHasNoDigitOrDot(input, i);
      }
    }
    if ParseModuleIdentifier(input).Some? {
      NoDotInModuleIdentifier(input);
    }
    VersionIsNotScoped(input);
    DottedIsNotClientId(input);
  }

  lemma VersionIsNotScoped(input: Bytes)
    ensures ParseModuleVersion(input).None? || ParseScopedIdentifier(input).None?
  {
    MinorStartsWithDigit(input);
    MemberStartsWithLeader(input);
  }

  lemma MinorStartsWithDigit(input: Bytes)
    ensures ParseModuleVersion(input).Some? ==>
      var dot := Find(input, '.'); dot + 1 < |input| && (IsDigit(input[dot + 1]) || input[dot + 1] == '+')
  {
    if ParseModuleVersion(input).Some? {
      var dot := Find(input, '.');
      var right := input[dot + 1..];
      assert IntCodec.UnsignedText(right, DecodeMinor(right).value);
      assert IsDigit(right[0]) || right[0] == '+';
    }
  }

  lemma MemberStartsWithLeader(input: Bytes)
    ensures ParseScopedIdentifier(input).Some? ==>
      var dot := Find(input, '.'); dot + 1 < |input| && IsIdentLeader(input[dot + 1])
  {
    if ParseScopedIdentifier(input).Some? {
      var dot := Find(input, '.');
      assert IsIdentLeader(input[dot + 1..][0]);
    }
  }

  lemma DottedIsNotClientId(input: Bytes)
    ensures ParseModuleVersion(input).Some? || ParseScopedIdentifier(input).Some? ==>
      ParseClientId(input).None?
  {
    if ParseModuleVersion(input).Some? || ParseScopedIdentifier(input).Some? {
      var dot := Find(input, '.');
      assert !IsClientIdChar(input[dot]);
    }
  }
}
