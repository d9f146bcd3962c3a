/** Typed messages: each checks the parsed message's type, takes exactly
    the number of arguments it has fields for and decodes each one; each
    encodes through the formatter with its type name and its fields in
    order. */
module TypedMessages {
  import opened Wrappers
  import opened Bytes
  import Identifiers
  import Utf8
  import Wire
  import Formatter

  type Message = Wire.Message<Identifiers.MessageType>

  /** A `&str` argument: any valid UTF-8. */
  function DecodeStr(b: Bytes): (r: Option<Bytes>)
    ensures r.Some? <==> Utf8.Valid(b)
    ensures r.Some? ==> r.value == b
  {
    if Utf8.Valid(b) then Some(b) else None
  }

  /** A `&[u8]` argument: any bytes. */
  function DecodeBytes(b: Bytes): (r: Option<Bytes>)
    ensures r == Some(b)
  {
    Some(b)
  }

  /** The parsed type as text, `MessageType::as_str`. */
  function TypeText(m: Message): Bytes {
    Identifiers.MessageTypeText(m.parsedType)
  }

  /** The arguments a message was encoded from: what a parsed message of
      these arguments holds. */
  predicate Carries(m: Message, args: seq<Bytes>) {
    Wire.Len(m.arguments) == |args| && Wire.Arguments(m.arguments) == args
  }

  // ---------------------------------------------------------------------
  // want, have, nope

  datatype Want = Want(moduleId: Identifiers.ModuleIdentifier)

  datatype Have = ThisModule(version: Identifiers.ModuleVersion) | NotThisModule(moduleId: Identifiers.ModuleIdentifier)

  datatype Nope = Nope

  function DecodeWant(m: Message): (r: Option<Want>)
    ensures r.Some? ==> m.parsedType == Identifiers.Want && Wire.Len(m.arguments) == 1
    ensures r.Some? ==> Identifiers.ParseModuleIdentifier(r.value.moduleId.source) == Some(r.value.moduleId)
  {
    if m.parsedType != Identifiers.Want then None
    else
      var moduleId :- Wire.Exactly1(m.arguments, Identifiers.ParseModuleIdentifier);
      Some(Want(moduleId))
  }

  function WantArgs(x: Want): seq<Bytes> {
    [x.moduleId.source]
  }

  /** `Have`: the one argument as a full module version if it is one, else
      as a module identifier. */
  function DecodeHave(m: Message): (r: Option<Have>)
    ensures r.Some? ==> m.parsedType == Identifiers.Have && Wire.Len(m.arguments) == 1
    ensures r.Some? && r.value.ThisModule? ==>
      Identifiers.ParseModuleVersion(r.value.version.source) == Some(r.value.version)
    ensures r.Some? && r.value.NotThisModule? ==>
      Identifiers.ParseModuleIdentifier(r.value.moduleId.source) == Some(r.value.moduleId)
      && Identifiers.ParseModuleVersion(r.value.moduleId.source).None?
  {
    if m.parsedType != Identifiers.Have then None
    else
      var arg :- Wire.Exactly1(m.arguments, DecodeBytes);
      match Identifiers.ParseModuleVersion(arg)
      case Some(v) => Some(ThisModule(v))
      case None =>
        match Identifiers.ParseModuleIdentifier(arg)
        case Some(mi) => Some(NotThisModule(mi))
        case None => None
  }

  /** `ThisModule` sends the whole version, `NotThisModule` only the module
      identifier. */
  function HaveArgs(x: Have): seq<Bytes> {
    match x
    case ThisModule(v) => [v.source]
    case NotThisModule(mi) => [mi.source]
  }

  function DecodeNope(m: Message): (r: Option<Nope>)
    ensures r.Some? <==> m.parsedType == Identifiers.Nope && Wire.Next(m.arguments).0.None?
  {
    if m.parsedType != Identifiers.Nope then None
    else if Wire.Next(m.arguments).0.Some? then None
    else Some(Nope)
  }

  // ---------------------------------------------------------------------
  // client-hello, parent-hello, server-hello

  datatype ClientHello = ClientHello(secret: Bytes)

  datatype ParentHello = ParentHello(clientSecret: Bytes, serverUri: Bytes)

  /** The screen IDs are `Option<&str>` arguments, whose codec is a
      parameter here. */
  datatype ServerHello = ServerHello(clientId: Identifiers.ClientId, stdin: Option<Bytes>,
                                     stdout: Option<Bytes>, stderr: Option<Bytes>)

  function DecodeClientHello(m: Message): (r: Option<ClientHello>)
    ensures r.Some? ==> TypeText(m) == "client-hello" && Wire.Len(m.arguments) == 1 && Utf8.Valid(r.value.secret)
  {
    if TypeText(m) != "client-hello" then None
    else
      var secret :- Wire.Exactly1(m.arguments, DecodeStr);
      Some(ClientHello(secret))
  }

  function ClientHelloArgs(x: ClientHello): seq<Bytes> {
    [x.secret]
  }

  function DecodeParentHello(m: Message): (r: Option<ParentHello>)
    ensures r.Some? ==> TypeText(m) == "parent-hello" && Wire.Len(m.arguments) == 2 && Utf8.Valid(r.value.clientSecret)
  {
    if TypeText(m) != "parent-hello" then None
    else
      var (secret, uri) :- Wire.Exactly2(m.arguments, DecodeStr, DecodeBytes);
      Some(ParentHello(secret, uri))
  }

  function ParentHelloArgs(x: ParentHello): seq<Bytes> {
    [x.clientSecret, x.serverUri]
  }

  function DecodeServerHello(m: Message, decodeOpt: Bytes -> Option<Option<Bytes>>): (r: Option<ServerHello>)
    ensures r.Some? ==> TypeText(m) == "server-hello" && Wire.Len(m.arguments) == 4
    ensures r.Some? ==> Identifiers.ParseClientId(r.value.clientId.source) == Some(r.value.clientId)
  {
    if TypeText(m) != "server-hello" then None
    else
      Wire.Exactly4Spec(m.arguments, Identifiers.ParseClientId, decodeOpt, decodeOpt, decodeOpt);
      var t :- Wire.Exactly4(m.arguments, Identifiers.ParseClientId, decodeOpt, decodeOpt, decodeOpt);
      Some(ServerHello(t.0, t.1, t.2, t.3))
  }

  function ServerHelloArgs(x: ServerHello, encodeOpt: Option<Bytes> -> Bytes): seq<Bytes> {
    [x.clientId.source, encodeOpt(x.stdin), encodeOpt(x.stdout), encodeOpt(x.stderr)]
  }

  // ---------------------------------------------------------------------
  // core1.client-make, core1.client-new, core1.client-end

  datatype ClientMake = ClientMake(clientId: Identifiers.ClientId, stdin: Option<Bytes>,
                                   stdout: Option<Bytes>, stderr: Option<Bytes>)

  datatype ClientNew = ClientNew(secret: Bytes)

  datatype ClientEnd = ClientEnd(clientId: Identifiers.ClientId)

  function DecodeClientMake(m: Message, decodeOpt: Bytes -> Option<Option<Bytes>>): (r: Option<ClientMake>)
    ensures r.Some? ==> TypeText(m) == "core1.client-make" && Wire.Len(m.arguments) == 4
    ensures r.Some? ==> Identifiers.ParseClientId(r.value.clientId.source) == Some(r.value.clientId)
  {
    if TypeText(m) != "core1.client-make" then None
    else
      Wire.Exactly4Spec(m.arguments, Identifiers.ParseClientId, decodeOpt, decodeOpt, decodeOpt);
      var t :- Wire.Exactly4(m.arguments, Identifiers.ParseClientId, decodeOpt, decodeOpt, decodeOpt);
      Some(ClientMake(t.0, t.1, t.2, t.3))
  }

  function ClientMakeArgs(x: ClientMake, encodeOpt: Option<Bytes> -> Bytes): seq<Bytes> {
    [x.clientId.source, encodeOpt(x.stdin), encodeOpt(x.stdout), encodeOpt(x.stderr)]
  }

  function DecodeClientNew(m: Message): (r: Option<ClientNew>)
    ensures r.Some? ==> TypeText(m) == "core1.client-new" && Wire.Len(m.arguments) == 1 && Utf8.Valid(r.value.secret)
  {
    if TypeText(m) != "core1.client-new" then None
    else
      var secret :- Wire.Exactly1(m.arguments, DecodeStr);
      Some(ClientNew(secret))
  }

  function ClientNewArgs(x: ClientNew): seq<Bytes> {
    [x.secret]
  }

  function DecodeClientEnd(m: Message): (r: Option<ClientEnd>)
    ensures r.Some? ==> TypeText(m) == "core1.client-end" && Wire.Len(m.arguments) == 1
    ensures r.Some? ==> Identifiers.ParseClientId(r.value.clientId.source) == Some(r.value.clientId)
  {
    if TypeText(m) != "core1.client-end" then None
    else
      var id :- Wire.Exactly1(m.arguments, Identifiers.ParseClientId);
      Some(ClientEnd(id))
  }

  function ClientEndArgs(x: ClientEnd): seq<Bytes> {
    [x.clientId.source]
  }

  // ---------------------------------------------------------------------
  // posix1.stdin-hello, posix1.stdout-hello

  datatype StdinHello = StdinHello(secret: Bytes)

  datatype StdoutHello = StdoutHello(secret: Bytes)

  function DecodeStdinHello(m: Message): (r: Option<StdinHello>)
    ensures r.Some? ==> TypeText(m) == "posix1.stdin-hello" && Wire.Len(m.arguments) == 1 && Utf8.Valid(r.value.secret)
  {
    if TypeText(m) != "posix1.stdin-hello" then None
    else
      var secret :- Wire.Exactly1(m.arguments, DecodeStr);
      Some(StdinHello(secret))
  }

  function DecodeStdoutHello(m: Message): (r: Option<StdoutHello>)
    ensures r.Some? ==> TypeText(m) == "posix1.stdout-hello" && Wire.Len(m.arguments) == 1 && Utf8.Valid(r.value.secret)
  {
    if TypeText(m) != "posix1.stdout-hello" then None
    else
      var secret :- Wire.Exactly1(m.arguments, DecodeStr);
      Some(StdoutHello(secret))
  }

  // ---------------------------------------------------------------------
  // Encoding

  /** `EncodeMessage::encode`: the formatter with the message's type name
      and its arguments in field order. */
  function Encode(buffer: Bytes, typeName: Bytes, args: seq<Bytes>): (r: (Result<nat, Formatter.BufferTooSmall>, Bytes))
    requires |Wire.Frame([typeName] + args)| <= USIZE_MAX
    ensures |r.1| == |buffer|
    ensures r.0.Ok? <==> |Wire.Frame([typeName] + args)| <= |buffer|
    ensures r.0.Ok? ==> r.0.value == |Wire.Frame([typeName] + args)|
  {
    Formatter.Format(buffer, typeName, args)
  }

  // ---------------------------------------------------------------------
  // Decoding what was encoded

  /** A message that carries the encoded arguments of a `Want` decodes to
      that `Want`, provided its type is `want`. */
  lemma WantRoundTrip(m: Message, x: Want)
    requires Identifiers.ParseModuleIdentifier(x.moduleId.source) == Some(x.moduleId)
    requires Carries(m, WantArgs(x))
    ensures DecodeWant(m) == Some(x) <==> m.parsedType == Identifiers.Want
  {
    Wire.Exactly1Spec(m.arguments, Identifiers.ParseModuleIdentifier);
  }

  lemma HaveRoundTrip(m: Message, x: Have)
    requires x.ThisModule? ==> Identifiers.ParseModuleVersion(x.version.source) == Some(x.version)
    requires x.NotThisModule? ==> Identifiers.ParseModuleIdentifier(x.moduleId.source) == Some(x.moduleId)
    requires Carries(m, HaveArgs(x))
    ensures DecodeHave(m) == Some(x) <==> m.parsedType == Identifiers.Have
  {
    Wire.Exactly1Spec(m.arguments, DecodeBytes);
    if x.NotThisModule? {
      Identifiers.NoDotInModuleIdentifier(x.moduleId.source);
      NoDotNoVersion(x.moduleId.source);
    }
  }

  lemma NoDotNoVersion(s: Bytes)
    requires forall i :: 0 <= i < |s| ==> s[i] != '.'
    ensures Identifiers.ParseModuleVersion(s).None?
  {
  }

  lemma NopeRoundTrip(m: Message)
    requires Carries(m, [])
    ensures DecodeNope(m) == Some(Nope) <==> m.parsedType == Identifiers.Nope
  {
    Wire.NextIsFirstArgument(m.arguments);
  }

  lemma ClientHelloRoundTrip(m: Message, x: ClientHello)
    requires Utf8.Valid(x.secret) && Carries(m, ClientHelloArgs(x))
    ensures DecodeClientHello(m) == Some(x) <==> TypeText(m) == "client-hello"
  {
    Wire.Exactly1Spec(m.arguments, DecodeStr);
  }

  lemma ParentHelloRoundTrip(m: Message, x: ParentHello)
    requires Utf8.Valid(x.clientSecret) && Carries(m, ParentHelloArgs(x))
    ensures DecodeParentHello(m) == Some(x) <==> TypeText(m) == "parent-hello"
  {
    Wire.Exactly2Spec(m.arguments, DecodeStr, DecodeBytes);
  }

  lemma ServerHelloRoundTrip(m: Message, x: ServerHello,
                             encodeOpt: Option<Bytes> -> Bytes, decodeOpt: Bytes -> Option<Option<Bytes>>)
    requires Identifiers.ParseClientId(x.clientId.source) == Some(x.clientId)
    requires decodeOpt(encodeOpt(x.stdin)) == Some(x.stdin)
    requires decodeOpt(encodeOpt(x.stdout)) == Some(x.stdout)
    requires decodeOpt(encodeOpt(x.stderr)) == Some(x.stderr)
    requires Carries(m, ServerHelloArgs(x, encodeOpt))
    ensures DecodeServerHello(m, decodeOpt) == Some(x) <==> TypeText(m) == "server-hello"
  {
    Wire.Exactly4Spec(m.arguments, Identifiers.ParseClientId, decodeOpt, decodeOpt, decodeOpt);
  }

  lemma ClientMakeRoundTrip(m: Message, x: ClientMake,
                            encodeOpt: Option<Bytes> -> Bytes, decodeOpt: Bytes -> Option<Option<Bytes>>)
    requires Identifiers.ParseClientId(x.clientId.source) == Some(x.clientId)
    requires decodeOpt(encodeOpt(x.stdin)) == Some(x.stdin)
    requires decodeOpt(encodeOpt(x.stdout)) == Some(x.stdout)
    requires decodeOpt(encodeOpt(x.stderr)) == Some(x.stderr)
    requires Carries(m, ClientMakeArgs(x, encodeOpt))
    ensures DecodeClientMake(m, decodeOpt) == Some(x) <==> TypeText(m) == "core1.client-make"
  {
    Wire.Exactly4Spec(m.arguments, Identifiers.ParseClientId, decodeOpt, decodeOpt, decodeOpt);
  }

  lemma ClientNewRoundTrip(m: Message, x: ClientNew)
    requires Utf8.Valid(x.secret) && Carries(m, ClientNewArgs(x))
    ensures DecodeClientNew(m) == Some(x) <==> TypeText(m) == "core1.client-new"
  {
    Wire.Exactly1Spec(m.arguments, DecodeStr);
  }

  lemma ClientEndRoundTrip(m: Message, x: ClientEnd)
    requires Identifiers.ParseClientId(x.clientId.source) == Some(x.clientId)
    requires Carries(m, ClientEndArgs(x))
    ensures DecodeClientEnd(m) == Some(x) <==> TypeText(m) == "core1.client-end"
  {
    Wire.Exactly1Spec(m.arguments, Identifiers.ParseClientId);
  }

  lemma StdinHelloRoundTrip(m: Message, secret: Bytes)
    requires Utf8.Valid(secret) && Carries(m, [secret])
    ensures DecodeStdinHello(m) == Some(StdinHello(secret)) <==> TypeText(m) == "posix1.stdin-hello"
  {
    Wire.Exactly1Spec(m.arguments, DecodeStr);
  }

  lemma StdoutHelloRoundTrip(m: Message, secret: Bytes)
    requires Utf8.Valid(secret) && Carries(m, [secret])
    ensures DecodeStdoutHello(m) == Some(StdoutHello(secret)) <==> TypeText(m) == "posix1.stdout-hello"
  {
    Wire.Exactly1Spec(m.arguments, DecodeStr);
  }

  /** Through the wire: what `Encode` writes parses, whenever the type name
      is a message type, into a message of that type carrying exactly the
      encoded arguments, so the lemmas above apply to it. */
  lemma EncodedMessageCarries(buffer: Bytes, typeName: Bytes, args: seq<Bytes>)
    requires |Wire.Frame([typeName] + args)| <= USIZE_MAX && |buffer| <= USIZE_MAX
    requires Wire.ClassifyMessageType(typeName).Some?
    requires Encode(buffer, typeName, args).0.Ok?
    ensures var r := Wire.Parse(Encode(buffer, typeName, args).1);
      r.Ok? && Identifiers.MessageTypeText(r.value.0.parsedType) == typeName && Carries(r.value.0, args)
  {
    var out := Encode(buffer, typeName, args).1;
    Formatter.FormatThenParse(buffer, typeName, args, Wire.ClassifyMessageType);
    Wire.ParsedArgumentsCount(out, Wire.ClassifyMessageType);
  }
}
