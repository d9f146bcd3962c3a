/** A message of the first protocol revision (section 2.2 of vt6/core1.0):
    an s-expression whose first element is an atom naming a message type. */
module SExpressionMessages {
  import opened Wrappers
  import opened Bytes
  import Names
  import opened SExpressions

  datatype Message = Message(sexp: SExpression)

  /** `Atom::is_message_type`, judged on the atom's value. */
  predicate IsMessageTypeAtom(a: Atom) {
    Names.IsMessageType(a.value).Some?
  }

  /** A well-formed message: the first element is an atom holding a message
      type. */
  predicate IsMessage(s: SExpression) {
    |s.elements| > 0 && s.elements[0].AtomElement? && IsMessageTypeAtom(s.elements[0].atom)
  }

  /** `Message::from`: the s-expression is kept as it is when it is a
      message; otherwise the error is reported at offset 0, as an empty
      message or as an invalid message type. */
  function MessageFrom(s: SExpression): (r: Result<Message, ParseError>)
    ensures r.Ok? <==> IsMessage(s)
    ensures r.Ok? ==> r.value.sexp == s
    ensures r.Err? ==> r.error.offset == 0
    ensures r.Err? ==> (r.error.kind == EmptyMessage <==> |s.elements| == 0)
    ensures r.Err? ==> r.error.kind in {EmptyMessage, InvalidMessageType}
  {
    if |s.elements| == 0 then Err(ParseError(0, EmptyMessage))
    else
      match s.elements[0]
      case Nested(_) => Err(ParseError(0, InvalidMessageType))
      case AtomElement(a) =>
        if !IsMessageTypeAtom(a) then Err(ParseError(0, InvalidMessageType))
        else Ok(Message(s))
  }

  /** `Parse for Message`: an s-expression, then `Message::from`. */
  function ParseMessage(buf: Bytes, pos: nat): (r: Result<(Message, nat), ParseError>)
    requires pos <= |buf|
    ensures r.Ok? <==> ParseSExpression(buf, pos).Ok? && IsMessage(ParseSExpression(buf, pos).value.0)
    ensures r.Ok? ==> r.value == (Message(ParseSExpression(buf, pos).value.0), ParseSExpression(buf, pos).value.1)
  {
    var (s, next) :- ParseSExpression(buf, pos);
    var m :- MessageFrom(s);
    Ok((m, next))
  }

  function MessageFromText(text: Bytes): Result<Message, ParseError> {
    Complete(ParseMessage(text, 0), text)
  }

  /** `Display for Message`. */
  function DisplayMessage(m: Message): Bytes {
    DisplaySExpression(m.sexp)
  }

  /** Reading back a tree keeps the value of its first atom, so it stays a
      message. */
  lemma CanonicalKeepsMessage(s: SExpression)
    requires IsMessage(s)
    ensures IsMessage(Canonical(s))
    ensures Canonical(s).elements[0].atom.value == s.elements[0].atom.value
  {
    assert Canonical(s).elements[0] == CanonicalItem(s, 0);
  }

  /** Printing a message whose atoms are printable and parsing the text
      gives back the message, with `wasQuoted` as `ReadBack` says. */
  lemma MessageRoundTrip(m: Message)
    requires IsMessage(m.sexp) && WellFormed(m.sexp)
    ensures MessageFromText(DisplayMessage(m)) == Ok(Message(Canonical(m.sexp)))
  {
    var text := DisplaySExpression(m.sexp);
    SExpressionAt(m.sexp, text, 0, text);
    CanonicalKeepsMessage(m.sexp);
  }

  /** `()` is an empty message. */
  lemma EmptyMessageRejected()
    ensures MessageFromText("()") == Err(ParseError(0, EmptyMessage))
  {
    var text: Bytes := "()";
    assert ParseSExpression(text, 0) == Ok((SExpression([]), 2));
  }
}
