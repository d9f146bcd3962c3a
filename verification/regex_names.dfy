/** The earlier revision of the name validators, which match the regular
    expressions `^[a-zA-Z_][a-zA-Z_-]*$` (IDENT) and
    `^[a-zA-Z_][a-zA-Z_-]*\.[a-zA-Z_][a-zA-Z_-]*$` (SCOPED_IDENT). */
module RegexNames {
  import opened Wrappers
  import opened Bytes
  import Identifiers
  import Names

  /** The language of IDENT: one leader-class byte, then any number of
      identifier-class bytes. */
  predicate MatchesIdent(s: Bytes) {
    Identifiers.IsIdentifierText(s)
  }

  /** The language of SCOPED_IDENT: IDENT, a literal dot, IDENT. The regex
      does not say which dot separates the halves, so this is stated over
      every dot. */
  ghost predicate MatchesScopedIdent(s: Bytes) {
    exists i :: 0 <= i < |s| && s[i] == '.' && MatchesIdent(s[..i]) && MatchesIdent(s[i + 1..])
  }

  /** `split_scoped_identifier`: at the first dot, or `("", name)` when
      there is none. */
  function SplitScopedIdentifier(name: Bytes): (r: (Bytes, Bytes))
    ensures Find(name, '.') < 0 ==> r == ([], name)
    ensures Find(name, '.') >= 0 ==> name == r.0 + ['.'] + r.1
  {
    var dot := Find(name, '.');
    if dot < 0 then ([], name)
    else
      SplitAround(name, dot);
      (name[..dot], name[dot + 1..])
  }

  /** `is_identifier`. */
  function IsIdentifier(name: Bytes): (b: bool)
    ensures b <==> Names.IsIdentifier(name)
  {
    MatchesIdent(name)
  }

  /** `is_scoped_identifier`. */
  ghost function IsScopedIdentifier(name: Bytes): Option<(Bytes, Bytes)> {
    if MatchesScopedIdent(name) then Some(SplitScopedIdentifier(name)) else None
  }

  /** `is_message_type`. */
  ghost function IsMessageType(name: Bytes): Option<(Bytes, Bytes)> {
    if MatchesScopedIdent(name) || name == "want" || name == "have" || name == "nope" then
      Some(SplitScopedIdentifier(name))
    else None
  }

  /** The halves `is_scoped_identifier` returns both match IDENT and
      rebuild the name around a dot. */
  lemma ScopedIdentifierShape(name: Bytes)
    ensures var r := IsScopedIdentifier(name);
      r.Some? ==> MatchesIdent(r.value.0) && MatchesIdent(r.value.1) && name == r.value.0 + ['.'] + r.value.1
  {
    if MatchesScopedIdent(name) {
      var i :| 0 <= i < |name| && name[i] == '.' && MatchesIdent(name[..i]) && MatchesIdent(name[i + 1..]);
      FirstDotSeparates(name, i);
    }
  }

  /** `is_message_type` returns an empty left half only for an eternal
      type, as the whole name; otherwise the halves of a scoped
      identifier. */
  lemma MessageTypeShape(name: Bytes)
    ensures var r := IsMessageType(name);
      && (r.Some? && |r.value.0| == 0 ==> name == r.value.1 && (name == "want" || name == "have" || name == "nope"))
      && (r.Some? && |r.value.0| > 0 ==>
            MatchesIdent(r.value.0) && MatchesIdent(r.value.1) && name == r.value.0 + ['.'] + r.value.1)
  {
    if MatchesScopedIdent(name) {
      var i :| 0 <= i < |name| && name[i] == '.' && MatchesIdent(name[..i]) && MatchesIdent(name[i + 1..]);
      FirstDotSeparates(name, i);
    } else if name == "want" || name == "have" || name == "nope" {
      EternalHasNoDot(name);
    }
  }

  /** The regex-based and the hand-written identifier checks accept the
      same names. */
  lemma IdentifierChecksAgree(name: Bytes)
    ensures IsIdentifier(name) == Names.IsIdentifier(name)
  {}

  /** When SCOPED_IDENT matches, the first dot is the one between the two
      identifiers, because identifiers contain no dot. */
  lemma FirstDotSeparates(name: Bytes, i: nat)
    requires i < |name| && name[i] == '.' && MatchesIdent(name[..i])
    ensures Find(name, '.') == i
  {
    forall k | 0 <= k < i ensures name[k] != '.' {
      assert name[..i][k] == name[k];
      Identifiers.IdentifierTextHasNoDigitOrDot(name[..i], k);
    }
    FindAt(name, '.', i);
  }

  /** The regex-based and the hand-written scoped-identifier checks agree
      on every input, including the split they return. */
  lemma ScopedChecksAgree(name: Bytes)
    ensures IsScopedIdentifier(name) == Names.IsScopedIdentifier(name)
  {
    var dot := Find(name, '.');
    if Names.IsScopedIdentifier(name).Some? {
      assert name[dot] == '.' && MatchesIdent(name[..dot]) && MatchesIdent(name[dot + 1..]);
    }
    if MatchesScopedIdent(name) {
      var i :| 0 <= i < |name| && name[i] == '.' && MatchesIdent(name[..i]) && MatchesIdent(name[i + 1..]);
      FirstDotSeparates(name, i);
    }
  }

  /** The two revisions of `is_message_type` agree on every input. */
  lemma MessageTypeChecksAgree(name: Bytes)
    ensures IsMessageType(name) == Names.IsMessageType(name)
  {
    ScopedChecksAgree(name);
    if name == "want" || name == "have" || name == "nope" {
      EternalHasNoDot(name);
    }
  }

  lemma EternalHasNoDot(name: Bytes)
    requires name == "want" || name == "have" || name == "nope"
    ensures Find(name, '.') == -1
  {
    assert forall k :: 0 <= k < |name| ==> name[k] != '.';
  }
}
