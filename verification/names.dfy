/** The hand-written name validators of the VT6 core: `is_identifier`,
    `is_scoped_identifier` and `is_message_type`, which work on unversioned
    module names such as `core.set`. */
module Names {
  import opened Wrappers
  import opened Bytes
  import Identifiers
  import Decimal

  /** `iter.all(is_ident_char)` over the characters after the leader. */
  function AllIdentChars(s: Bytes): (b: bool)
    ensures b <==> forall i :: 0 <= i < |s| ==> Identifiers.IsIdentChar(s[i])
  {
    |s| == 0 || (Identifiers.IsIdentChar(s[0]) && AllIdentChars(s[1..]))
  }

  /** `is_identifier`. */
  function IsIdentifier(name: Bytes): (b: bool)
    ensures b <==> Identifiers.ParseIdentifier(name).Some?
  {
    if |name| == 0 || !Identifiers.IsIdentLeader(name[0]) then false
    else
      assert forall i :: 1 <= i < |name| ==> name[i] == name[1..][i - 1];
      AllIdentChars(name[1..])
  }

  /** `is_scoped_identifier`: split at the first dot, both halves must be
      identifiers. */
  function IsScopedIdentifier(name: Bytes): (r: Option<(Bytes, Bytes)>)
    ensures r.Some? ==> name == r.value.0 + ['.'] + r.value.1
    ensures r.Some? ==> IsIdentifier(r.value.0) && IsIdentifier(r.value.1)
  {
    var dot := Find(name, '.');
    if dot < 0 then None
    else
      var left, right := name[..dot], name[dot + 1..];
      if IsIdentifier(left) && IsIdentifier(right) then
        SplitAround(name, dot);
        Some((left, right))
      else None
  }

  /** `is_message_type`: the eternal types `want`, `have` and `nope` as
      `("", name)`, otherwise a scoped identifier. */
  function IsMessageType(name: Bytes): (r: Option<(Bytes, Bytes)>)
    ensures r.Some? && |r.value.0| == 0 ==> name == r.value.1 && (name == "want" || name == "have" || name == "nope")
    ensures r.Some? && |r.value.0| > 0 ==>
      IsIdentifier(r.value.0) && IsIdentifier(r.value.1) && name == r.value.0 + ['.'] + r.value.1
  {
    if name == "want" || name == "have" || name == "nope" then Some(([], name))
    else IsScopedIdentifier(name)
  }

  /** A scoped identifier is exactly two identifiers joined by a dot, and
      the split is the one returned. */
  lemma ScopedIdentifierIff(name: Bytes, left: Bytes, right: Bytes)
    ensures IsScopedIdentifier(name) == Some((left, right))
        <==> IsIdentifier(left) && IsIdentifier(right) && name == left + ['.'] + right
  {
    if IsIdentifier(left) && IsIdentifier(right) && name == left + ['.'] + right {
      forall i | 0 <= i < |left| ensures left[i] != '.' {
        Identifiers.IdentifierTextHasNoDigitOrDot(left, i);
      }
      Identifiers.FindFirstDot(left, right);
      assert name[..|left|] == left && name[|left| + 1..] == right;
    }
  }

  /** The message type helper gives back the eternal type or the pair a
      scoped identifier splits into, and nothing else. */
  lemma MessageTypeIff(name: Bytes, left: Bytes, right: Bytes)
    ensures IsMessageType(name) == Some((left, right)) <==>
      (left == [] && right == name && (name == "want" || name == "have" || name == "nope"))
      || (IsIdentifier(left) && IsIdentifier(right) && name == left + ['.'] + right)
  {
    ScopedIdentifierIff(name, left, right);
    if IsIdentifier(left) && name == left + ['.'] + right {
      assert |name| > 4 || name[|left|] == '.';
    }
  }

  /** These helpers take unversioned module names: a scoped identifier in
      the versioned sense (`core1.set`) is never one in this sense. */
  lemma VersionedNamesAreRejected(name: Bytes)
    ensures Identifiers.ParseScopedIdentifier(name).Some? ==> IsScopedIdentifier(name).None?
  {
    if Identifiers.ParseScopedIdentifier(name).Some? {
      var sc := Identifiers.ParseScopedIdentifier(name).value;
      Identifiers.ScopedIdentifierSound(name);
      var m := sc.moduleId;
      Identifiers.NoDotInModuleIdentifier(m.source);
      Identifiers.FindFirstDot(m.source, sc.member.source);
      assert name[..Find(name, '.')] == m.source;
      ModuleIdentifierIsNotIdentifier(m);
    }
  }

  lemma ModuleIdentifierIsNotIdentifier(m: Identifiers.ModuleIdentifier)
    requires Identifiers.ParseModuleIdentifier(m.source) == Some(m)
    ensures !IsIdentifier(m.source)
  {
    var d := Decimal.NatToDecimal(m.major);
    assert m.source == m.name.source + d;
    assert m.source[|m.source| - 1] == d[|d| - 1];
  }

  /** `init` is not a message type for this helper, although
      `MessageType::parse` accepts it. */
  lemma InitIsNotAMessageTypeHere()
    ensures IsMessageType("init").None?
    ensures Identifiers.ParseMessageType("init") == Some(Identifiers.Init)
  {
    assert Find("init", '.') == -1;
  }
}
