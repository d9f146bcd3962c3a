/** `Message::parse` of the earlier revision: the same frame as the newer
    parser, but the first item is checked with `is_message_type`, and the
    message keeps the `(module, name)` pair it returns as its `type_name`. */
module LegacyWire {
  import opened Wrappers
  import opened Bytes
  import Utf8
  import Names
  import MessageDisplay
  import Wire
  import RegexNames

  /** The first-item check: UTF-8, then `is_message_type`. */
  function ClassifyLegacyType(s: Bytes): (r: Option<(Bytes, Bytes)>)
    ensures r.Some? <==> Utf8.Valid(s) && Names.IsMessageType(s).Some?
    ensures r.Some? ==> r == Names.IsMessageType(s) && MessageDisplay.TypeNameText(r.value) == s
  {
    if Utf8.Valid(s) then
      var t := Names.IsMessageType(s);
      if t.Some? then MessageDisplay.TypeNameTextRoundTrip(s); t else None
    else None
  }

  /** `Message::parse` of the earlier revision. */
  function Parse(buf: Bytes): Result<(Wire.Message<(Bytes, Bytes)>, nat), Wire.ParseError>
    requires |buf| <= USIZE_MAX
  {
    Wire.ParseWith(buf, ClassifyLegacyType)
  }

  /** What `Parse` accepts is the frame of the printed `type_name` and the
      arguments, and it claims no more bytes than it was given. */
  lemma ParseClaimsFrame(buf: Bytes)
    requires |buf| <= USIZE_MAX
    ensures var r := Parse(buf);
      r.Ok? ==> (r.value.1 <= |buf|
        && buf[..r.value.1] == Wire.Frame([MessageDisplay.TypeNameText(r.value.0.parsedType)] + Wire.Arguments(r.value.0.arguments)))
  {
    if Parse(buf).Ok? {
      Wire.ParseCanonical(buf, ClassifyLegacyType);
    }
  }

  /** A frame whose first item is a message type is read back: the byte
      count is the frame's length, `type_name` is the split of the first
      item, which it prints back as, and the arguments are the other
      items. */
  lemma ParseRoundTrip(items: seq<Bytes>, rest: Bytes)
    requires |items| >= 1 && Utf8.Valid(items[0]) && Names.IsMessageType(items[0]).Some?
    requires |Wire.Frame(items) + rest| <= USIZE_MAX
    ensures var r := Parse(Wire.Frame(items) + rest);
      && r.Ok? && r.value.1 == |Wire.Frame(items)|
      && r.value.0.parsedType == Names.IsMessageType(items[0]).value
      && MessageDisplay.TypeNameText(r.value.0.parsedType) == items[0]
      && Wire.Len(r.value.0.arguments) == |items| - 1
      && Wire.Arguments(r.value.0.arguments) == items[1..]
  {
    Wire.ParseRoundTrip(items, rest, ClassifyLegacyType);
  }

  /** `type_name` of an eternal type has an empty module part. */
  lemma EternalTypeName()
    ensures ClassifyLegacyType("want") == Some(([], "want"))
  {
    Utf8.AsciiIsValid("want");
  }

  /** A scoped type splits at its dot, as `core.sub` into
      `("core", "sub")`. */
  lemma ScopedTypeName(left: Bytes, right: Bytes)
    requires Names.IsIdentifier(left) && Names.IsIdentifier(right)
    ensures ClassifyLegacyType(left + ['.'] + right) == Some((left, right))
  {
    var name := left + ['.'] + right;
    Names.MessageTypeIff(name, left, right);
    assert Utf8.Valid(name) by {
      RegexNames.IdentifierChecksAgree(left);
      RegexNames.IdentifierChecksAgree(right);
      assert forall i :: 0 <= i < |name| ==> IsAscii(name[i]) by {
        forall i | 0 <= i < |name| ensures IsAscii(name[i]) {
          if i < |left| {
            assert name[i] == left[i];
          } else if i > |left| {
            assert name[i] == right[i - |left| - 1];
          }
        }
      }
      Utf8.AsciiIsValid(name);
    }
  }
}
