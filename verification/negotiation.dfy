/** Module negotiation and the server-side handlers of the core and posix
    modules: the `Tracker` of agreed modules, `want`/`have`, `core.sub` and
    `core.set` answered with `core.pub`, `posix.to-stdin`/`posix.to-stdout`,
    and the `RejectHandler` that ends every chain. */
module Negotiation {
  import opened Wrappers
  import opened Bytes
  import opened Decimal
  import Utf8
  import Names
  import Identifiers
  import IntCodec
  import ModuleVersions
  import Formatter
  import Wire

  type U16 = ModuleVersions.U16
  type Version = ModuleVersions.ModuleVersion

  // ---------------------------------------------------------------------
  // The tracker of agreed modules

  datatype Tracker = Tracker(agreed: map<Bytes, Version>)

  function IsModuleEnabled(t: Tracker, name: Bytes): Option<Version> {
    if name in t.agreed then Some(t.agreed[name]) else None
  }

  /** `Tracker::new`: no module is agreed yet. */
  function NewTracker(): (t: Tracker)
    ensures forall name :: IsModuleEnabled(t, name).None?
  {
    Tracker(map[])
  }

  /** `enable_module`. The source panics when the module was agreed before;
      here that is the precondition. */
  function EnableModule(t: Tracker, name: Bytes, v: Version): (r: Tracker)
    requires IsModuleEnabled(t, name).None?
    ensures IsModuleEnabled(r, name) == Some(v)
    ensures forall other | other != name :: IsModuleEnabled(r, other) == IsModuleEnabled(t, other)
  {
    Tracker(t.agreed[name := v])
  }

  // ---------------------------------------------------------------------
  // Connections and handler chains

  datatype StreamMode = Message | Stdio | Stdin | Stdout

  /** What a handler may see of a connection. The message-size limits are
      optional in the older revision, which then reports 1024. */
  datatype Conn = Conn(tracker: Tracker, mode: StreamMode,
                       serverMsgBytesMax: Option<nat>, clientMsgBytesMax: Option<nat>)

  const DEFAULT_MSG_BYTES_MAX: nat := 1024

  /** The type of the reply to a `want`. */
  const HAVE: Bytes := "have"

  function ServerMsgBytesMax(conn: Conn): nat {
    if conn.serverMsgBytesMax.Some? then conn.serverMsgBytesMax.value else DEFAULT_MSG_BYTES_MAX
  }

  function ClientMsgBytesMax(conn: Conn): nat {
    if conn.clientMsgBytesMax.Some? then conn.clientMsgBytesMax.value else DEFAULT_MSG_BYTES_MAX
  }

  /** A chain of handlers. `Custom` stands for an application handler at
      the end of the chain, known by its answers to `can_use_module`, to
      property requests and to the messages it handles; it does not change
      the connection. */
  datatype Handler =
    | Reject
    | Core(next: Handler)
    | Posix(next: Handler)
    | Custom(canUse: (Bytes, U16) -> Option<U16>,
             property: (Bytes, Option<Bytes>) -> Option<Bytes>,
             respond: ((Bytes, Bytes), seq<Bytes>) -> Option<(Bytes, seq<Bytes>)>)

  /** `can_use_module` along the chain: the minor version the chain offers
      for a major version of a module, if any. */
  function CanUseModule(h: Handler, name: Bytes, major: U16): Option<U16> {
    match h
    case Reject => None
    case Core(next) =>
      if name == "core" then (if major == 1 then Some(0) else None)
      else CanUseModule(next, name, major)
    case Posix(next) =>
      if name == "posix" then (if major == 1 then Some(0) else None)
      else CanUseModule(next, name, major)
    case Custom(canUse, _, _) => canUse(name, major)
  }

  /** A chain built from the library's own handlers only. */
  predicate LibraryChain(h: Handler) {
    match h
    case Reject => true
    case Core(next) => LibraryChain(next)
    case Posix(next) => LibraryChain(next)
    case Custom(_, _, _) => false
  }

  predicate InChain(h: Handler, name: Bytes) {
    match h
    case Reject => false
    case Core(next) => name == "core" || InChain(next, name)
    case Posix(next) => name == "posix" || InChain(next, name)
    case Custom(_, _, _) => false
  }

  /** A chain of library handlers agrees to a module exactly when one of
      its handlers implements it and the major version is 1, always with
      minor version 0; the `RejectHandler` at the end agrees to nothing. */
  lemma {:induction false} LibraryChainAgreement(h: Handler, name: Bytes, major: U16)
    requires LibraryChain(h)
    ensures CanUseModule(h, name, major).Some? <==> InChain(h, name) && major == 1
    ensures CanUseModule(h, name, major).Some? ==> CanUseModule(h, name, major) == Some(0)
  {
    match h
    case Reject =>
    case Core(next) =>
      if name != "core" { LibraryChainAgreement(next, name, major); }
    case Posix(next) =>
      if name != "posix" { LibraryChainAgreement(next, name, major); }
  }

  /** `get_set_property` along the chain. The core handler answers the two
      message-size properties with their current values, whatever value is
      requested; other names go to the next handler. */
  function GetSetProperty(h: Handler, name: Bytes, requested: Option<Bytes>, conn: Conn): Option<Bytes> {
    match h
    case Reject => None
    case Core(next) =>
      if name == "core.server-msg-bytes-max" then Some(NatToDecimal(ServerMsgBytesMax(conn)))
      else if name == "core.client-msg-bytes-max" then Some(NatToDecimal(ClientMsgBytesMax(conn)))
      else GetSetProperty(next, name, requested, conn)
    case Posix(next) => GetSetProperty(next, name, requested, conn)
    case Custom(_, property, _) => property(name, requested)
  }

  // ---------------------------------------------------------------------
  // check_want

  /** The offer `check_want` should find for a module not agreed yet: the
      highest offered major version the chain accepts, with the minor
      version the chain named for it. */
  predicate IsBestOffer(h: Handler, name: Bytes, majors: seq<U16>, v: Version) {
    && v.major != 0
    && v.major in majors
    && CanUseModule(h, name, v.major) == Some(v.minor)
    && forall k | 0 <= k < |majors| :: CanUseModule(h, name, majors[k]).Some? ==> majors[k] <= v.major
  }

  /** Nothing offered is acceptable (a major version 0 never is). */
  predicate NoneAcceptable(h: Handler, name: Bytes, majors: seq<U16>) {
    forall k | 0 <= k < |majors| :: majors[k] == 0 || CanUseModule(h, name, majors[k]).None?
  }

  /** A reference definition of the best offer, by recursion over the
      offered versions. */
  function BestOffer(h: Handler, name: Bytes, majors: seq<U16>): Option<Version>
    decreases |majors|
  {
    if |majors| == 0 then None
    else
      var rest := BestOffer(h, name, majors[1..]);
      var here := CanUseModule(h, name, majors[0]);
      if majors[0] == 0 || here.None? then rest
      else if rest.Some? && rest.value.major >= majors[0] then rest
      else Some(ModuleVersions.ModuleVersion(majors[0], here.value))
  }

  lemma {:induction false} BestOfferSpec(h: Handler, name: Bytes, majors: seq<U16>)
    ensures BestOffer(h, name, majors).None? <==> NoneAcceptable(h, name, majors)
    ensures BestOffer(h, name, majors).Some? ==> IsBestOffer(h, name, majors, BestOffer(h, name, majors).value)
    decreases |majors|
  {
    if |majors| > 0 {
      BestOfferSpec(h, name, majors[1..]);
      assert forall k | 1 <= k < |majors| :: majors[k] == majors[1..][k - 1];
      assert majors == [majors[0]] + majors[1..];
    }
  }

  /** There is at most one best offer. */
  lemma BestOfferUnique(h: Handler, name: Bytes, majors: seq<U16>, v: Version, w: Version)
    requires IsBestOffer(h, name, majors, v) && IsBestOffer(h, name, majors, w)
    ensures v == w
  {
    var i :| 0 <= i < |majors| && majors[i] == v.major;
    var j :| 0 <= j < |majors| && majors[j] == w.major;
    assert w.major <= v.major && v.major <= w.major;
  }

  /** What `check_want` answers: for an agreed module, the agreed version
      if its major is offered again (and nothing is to be stored);
      otherwise the best offer, to be stored. */
  function WantAnswer(h: Handler, name: Bytes, majors: seq<U16>, t: Tracker): Option<(Version, bool)> {
    match IsModuleEnabled(t, name)
    case Some(agreed) => if agreed.major in majors then Some((agreed, false)) else None
    case None =>
      match BestOffer(h, name, majors)
      case Some(v) => Some((v, true))
      case None => None
  }

  /** `check_want`: one scan over the offered versions, keeping the best
      accepted one. */
  method CheckWant(h: Handler, name: Bytes, majors: seq<U16>, t: Tracker) returns (r: Option<(Version, bool)>)
    ensures r == WantAnswer(h, name, majors, t)
    ensures r.Some? && r.value.1 ==> IsModuleEnabled(t, name).None? && IsBestOffer(h, name, majors, r.value.0)
    ensures r.Some? && !r.value.1 ==> IsModuleEnabled(t, name) == Some(r.value.0) && r.value.0.major in majors
    ensures r.None? <==>
      if IsModuleEnabled(t, name).Some? then IsModuleEnabled(t, name).value.major !in majors
      else NoneAcceptable(h, name, majors)
  {
    BestOfferSpec(h, name, majors);
    var agreed := IsModuleEnabled(t, name);
    if agreed.Some? {
      var i := 0;
      while i < |majors|
        invariant 0 <= i <= |majors|
        invariant agreed.value.major !in majors[..i]
      {
        if majors[i] == agreed.value.major {
          return Some((agreed.value, false));
        }
        i := i + 1;
      }
      assert majors[..i] == majors;
      return None;
    }
    var bestMajor: U16 := 0;
    var bestMinor: U16 := 0;
    for i := 0 to |majors|
      invariant bestMajor == 0 ==> NoneAcceptable(h, name, majors[..i])
      invariant bestMajor != 0 ==> bestMajor in majors[..i] && CanUseModule(h, name, bestMajor) == Some(bestMinor)
      invariant forall k | 0 <= k < i :: CanUseModule(h, name, majors[k]).Some? ==> majors[k] <= bestMajor
    {
      if majors[i] > bestMajor {
        var accepted := CanUseModule(h, name, majors[i]);
        if accepted.Some? {
          bestMajor, bestMinor := majors[i], accepted.value;
        }
      }
    }
    assert majors[..|majors|] == majors;
    if bestMajor == 0 {
      r := None;
    } else {
      var v := ModuleVersions.ModuleVersion(bestMajor, bestMinor);
      BestOfferUnique(h, name, majors, v, BestOffer(h, name, majors).value);
      r := Some((v, true));
    }
  }

  // ---------------------------------------------------------------------
  // Handling one message

  /** The outcome of a handler for one message. `Invalid` is the newer
      revision's `None` and the older one's `Err(InvalidMessage)`;
      `Ignored` is the `RejectHandler`'s `Ok(())`, which neither replies
      nor touches the connection; `Reply` carries the connection after the
      handler and the message to send. */
  datatype Answer =
    | Invalid
    | Ignored
    | Reply(conn: Conn, typeName: Bytes, args: seq<Bytes>)

  /** A major version in a `want`: UTF-8, a `u16` by `str::parse`, not 0.
      No leading-zero check is made here. */
  predicate ValidMajor(arg: Bytes) {
    && Utf8.Valid(arg)
    && IntCodec.RustParse(arg, IntCodec.U16).Some?
    && IntCodec.RustParse(arg, IntCodec.U16).value != 0
  }

  function MajorOf(arg: Bytes): (m: U16)
    requires ValidMajor(arg)
    ensures m != 0
  {
    var v := IntCodec.RustParse(arg, IntCodec.U16).value;
    assert IntCodec.IntType.U16.Contains(v);
    assert IntCodec.IntType.U16.Max() == U16_MAX;
    v
  }

  /** The arguments of a well-formed `want`: a module name that is an
      identifier, then at least one valid major version. */
  predicate ValidWant(args: seq<Bytes>) {
    && |args| >= 2
    && Utf8.Valid(args[0])
    && Names.IsIdentifier(args[0])
    && forall i | 1 <= i < |args| :: ValidMajor(args[i])
  }

  /** The offered major versions, in order. */
  function MajorsOf(versions: seq<Bytes>): (ms: seq<U16>)
    requires forall i | 0 <= i < |versions| :: ValidMajor(versions[i])
    ensures |ms| == |versions|
    ensures forall k | 0 <= k < |ms| :: ms[k] == MajorOf(versions[k])
  {
    if |versions| == 0 then []
    else
      assert forall i | 0 <= i < |versions| - 1 :: versions[1..][i] == versions[i + 1];
      var rest := MajorsOf(versions[1..]);
      [MajorOf(versions[0])] + rest
  }

  function Majors(args: seq<Bytes>): (ms: seq<U16>)
    requires ValidWant(args)
  {
    MajorsOf(args[1..])
  }

  /** `handle_want`. */
  method HandleWant(h: Handler, args: seq<Bytes>, conn: Conn) returns (a: Answer)
    ensures a.Invalid? <==> !ValidWant(args)
    ensures KeepsConnection(conn, ([], "want"), a)
    ensures a != Ignored
    ensures ValidWant(args) ==>
      a == match WantAnswer(h, args[0], Majors(args), conn.tracker)
           case None => Reply(conn, HAVE, [])
           case Some((v, store)) =>
             Reply(if store then conn.(tracker := EnableModule(conn.tracker, args[0], v)) else conn,
                   HAVE, [args[0], ModuleVersions.Display(v)])
  {
    if |args| == 0 || !Utf8.Valid(args[0]) || !Names.IsIdentifier(args[0]) || |args| == 1 {
      return Invalid;
    }
    var i := 1;
    while i < |args|
      invariant 1 <= i <= |args|
      invariant forall k | 1 <= k < i :: ValidMajor(args[k])
    {
      if !ValidMajor(args[i]) {
        return Invalid;
      }
      i := i + 1;
    }
    var name := args[0];
    var majors := Majors(args);
    var answer := CheckWant(h, name, majors, conn.tracker);
    match answer {
      case None =>
        a := Reply(conn, HAVE, []);
      case Some((v, store)) =>
        var next := if store then conn.(tracker := EnableModule(conn.tracker, name, v)) else conn;
        a := Reply(next, HAVE, [name, ModuleVersions.Display(v)]);
    }
  }

  /** `handle_set_sub` (older revision) and `subscribe_to_property` /
      `set_property` (newer revision): exactly one argument for `core.sub`,
      exactly two for `core.set`, the first a scoped identifier in UTF-8. */
  function HandleSetSub(h: Handler, args: seq<Bytes>, conn: Conn, isSet: bool): (a: Answer)
    ensures a.Reply? ==> |args| >= 1 && a.conn == conn && a.typeName == "core.pub" && |a.args| == 2 && a.args[0] == args[0]
    ensures a != Ignored
    ensures (|args| != (if isSet then 2 else 1)) ==> a == Invalid
    ensures |args| >= 1 && Names.IsScopedIdentifier(args[0]).None? ==> a == Invalid
    ensures !isSet && |args| == 1 && Utf8.Valid(args[0]) && Names.IsScopedIdentifier(args[0]).Some? ==>
      a == Published(conn, args[0], GetSetProperty(h, args[0], None, conn))
    ensures isSet && |args| == 2 && Utf8.Valid(args[0]) && Names.IsScopedIdentifier(args[0]).Some? ==>
      a == Published(conn, args[0], GetSetProperty(h, args[0], Some(args[1]), conn))
  {
    if |args| == 0 || !Utf8.Valid(args[0]) || Names.IsScopedIdentifier(args[0]).None? then Invalid
    else if isSet && |args| < 2 then Invalid
    else if |args| != (if isSet then 2 else 1) then Invalid
    else
      var requested := if isSet then Some(args[1]) else None;
      Published(conn, args[0], GetSetProperty(h, args[0], requested, conn))
  }

  /** The answer to a well-formed `core.sub` or `core.set`: `core.pub` with
      the property's value, or Invalid when no handler knows the property. */
  function Published(conn: Conn, name: Bytes, value: Option<Bytes>): Answer {
    if value.Some? then Reply(conn, "core.pub", [name, value.value]) else Invalid
  }

  /** Whether the module is agreed at major version 1. */
  predicate HasMajor1(conn: Conn, name: Bytes) {
    IsModuleEnabled(conn.tracker, name).Some? && IsModuleEnabled(conn.tracker, name).value.major == 1
  }

  /** `enter_state`: no arguments, and the stream must still be in message
      mode. The mode is switched before the reply is formatted. */
  function EnterState(mode: StreamMode, msgType: Bytes, args: seq<Bytes>, conn: Conn): (a: Answer)
    ensures a.Reply? <==> |args| == 0 && conn.mode == Message
    ensures a.Reply? ==> a == Reply(conn.(mode := mode), msgType, [])
    ensures !a.Reply? ==> a == Invalid
  {
    if |args| != 0 then Invalid
    else if conn.mode != Message then Invalid
    else Reply(conn.(mode := mode), msgType, [])
  }

  /** What every handler promises about the connection: only a `want`
      changes the tracker, and only by agreeing to a module not agreed
      before; only a posix message changes the stream mode; the message-size
      limits never change. */
  ghost predicate KeepsConnection(conn: Conn, typeName: (Bytes, Bytes), a: Answer) {
    a.Reply? ==>
      && (typeName != ([], "want") ==> a.conn.tracker == conn.tracker)
      && (typeName.0 != "posix" ==> a.conn.mode == conn.mode)
      && a.conn.serverMsgBytesMax == conn.serverMsgBytesMax
      && a.conn.clientMsgBytesMax == conn.clientMsgBytesMax
      && forall name | IsModuleEnabled(conn.tracker, name).Some? ::
           IsModuleEnabled(a.conn.tracker, name) == IsModuleEnabled(conn.tracker, name)
  }

  /** In a chain of library handlers, `core.*` messages before core 1 is
      agreed and `posix.*` messages before posix 1 is agreed are handed
      down to the `RejectHandler`. */
  predicate IgnoresUnagreed(h: Handler, typeName: (Bytes, Bytes), conn: Conn, a: Answer) {
    (&& LibraryChain(h)
     && ((typeName.0 == "core" && !HasMajor1(conn, "core")) || (typeName.0 == "posix" && !HasMajor1(conn, "posix"))))
    ==> a == Ignored
  }

  /** One message through the chain: each handler takes the messages it
      recognises and forwards the rest to the next one. */
  method Handle(h: Handler, typeName: (Bytes, Bytes), args: seq<Bytes>, conn: Conn) returns (a: Answer)
    ensures KeepsConnection(conn, typeName, a)
    ensures IgnoresUnagreed(h, typeName, conn, a)
    ensures h.Core? ==> CoreAnswerIs(h, typeName, args, conn, a)
    ensures h.Posix? && typeName.0 == "posix" && (typeName.1 == "to-stdin" || typeName.1 == "to-stdout") && HasMajor1(conn, "posix") ==>
      a == EnterState(if typeName.1 == "to-stdin" then Stdin else Stdout, typeName.0 + ['.'] + typeName.1, args, conn)
    decreases h, 1
  {
    match h {
      case Reject =>
        a := Ignored;
      case Custom(_, _, respond) =>
        var reply := respond(typeName, args);
        a := if reply.Some? then Reply(conn, reply.value.0, reply.value.1) else Invalid;
      case Core(next) =>
        a := HandleCore(h, typeName, args, conn);
      case Posix(next) =>
        var hasPosix1 := HasMajor1(conn, "posix");
        if typeName == ("posix", "to-stdin") && hasPosix1 {
          a := EnterState(Stdin, "posix.to-stdin", args, conn);
        } else if typeName == ("posix", "to-stdout") && hasPosix1 {
          a := EnterState(Stdout, "posix.to-stdout", args, conn);
        } else {
          a := Handle(next, typeName, args, conn);
        }
    }
  }

  /** What the core handler answers, given what the rest of the chain
      answered for the messages it does not take. */
  predicate CoreAnswerIs(h: Handler, typeName: (Bytes, Bytes), args: seq<Bytes>, conn: Conn, a: Answer)
    requires h.Core?
  {
    if typeName == ([], "want") then a.Invalid? <==> !ValidWant(args)
    else if typeName.0 == "core" && (typeName.1 == "sub" || typeName.1 == "set") && HasMajor1(conn, "core") then
      a == HandleSetSub(h, args, conn, typeName.1 == "set")
    else true
  }

  /** The core handler's `EarlyHandler::handle`. */
  method HandleCore(h: Handler, typeName: (Bytes, Bytes), args: seq<Bytes>, conn: Conn) returns (a: Answer)
    requires h.Core?
    ensures KeepsConnection(conn, typeName, a)
    ensures IgnoresUnagreed(h, typeName, conn, a)
    ensures CoreAnswerIs(h, typeName, args, conn, a)
    decreases h, 0
  {
    var hasCore1 := HasMajor1(conn, "core");
    if typeName == ([], "want") {
      a := HandleWant(h, args, conn);
    } else if typeName == ("core", "sub") && hasCore1 {
      a := HandleSetSub(h, args, conn, false);
    } else if typeName == ("core", "set") && hasCore1 {
      a := HandleSetSub(h, args, conn, true);
    } else {
      a := Handle(h.next, typeName, args, conn);
    }
  }

  /** Formats the reply into the send buffer: the byte count when it fits
      (the `Option<usize>` of the newer revision), and the buffer after the
      write. The connection is the one in the answer whether or not the
      reply fits. */
  function Respond(a: Answer, buffer: Bytes): (r: (Option<nat>, Bytes))
    requires a.Reply? ==> |Wire.Frame([a.typeName] + a.args)| <= USIZE_MAX
    ensures |r.1| == |buffer|
    ensures !a.Reply? ==> r == (None, buffer)
    ensures a.Reply? ==> (r.0.Some? <==> |Wire.Frame([a.typeName] + a.args)| <= |buffer|)
    ensures a.Reply? && r.0.Some? ==>
      r.0.value == |Wire.Frame([a.typeName] + a.args)|
      && r.1[..r.0.value] == Wire.Frame([a.typeName] + a.args)
  {
    if !a.Reply? then (None, buffer)
    else
      Formatter.FormatSpec(buffer, a.typeName, a.args);
      var (res, out) := Formatter.Format(buffer, a.typeName, a.args);
      (if res.Ok? then Some(res.value) else None, out)
  }

  // ---------------------------------------------------------------------
  // Properties of negotiation

  /** The two message-size properties the core handler publishes. */
  predicate IsMsgSizeProperty(name: Bytes) {
    name == "core.server-msg-bytes-max" || name == "core.client-msg-bytes-max"
  }

  /** `core.set` of a message-size property answers exactly as `core.sub`
      of it, whatever value was requested, and the answer publishes the
      current value. */
  lemma SetIgnoresRequestedValue(next: Handler, name: Bytes, requested: Bytes, conn: Conn)
    requires IsMsgSizeProperty(name)
    ensures HandleSetSub(Core(next), [name, requested], conn, true) == HandleSetSub(Core(next), [name], conn, false)
    ensures var current := if name == "core.server-msg-bytes-max" then ServerMsgBytesMax(conn) else ClientMsgBytesMax(conn);
      HandleSetSub(Core(next), [name], conn, false) == Reply(conn, "core.pub", [name, NatToDecimal(current)])
  {
    SizePropertyIsWellFormed(name);
  }

  /** The two message-size property names are UTF-8 scoped identifiers of
      the `core` module. */
  lemma SizePropertyIsWellFormed(name: Bytes)
    requires IsMsgSizeProperty(name)
    ensures Utf8.Valid(name) && Names.IsScopedIdentifier(name).Some?
  {
    if name == "core.server-msg-bytes-max" {
      ServerPropertyIsWellFormed(name);
    } else {
      ClientPropertyIsWellFormed(name);
    }
  }

  lemma ServerPropertyIsWellFormed(name: Bytes)
    requires name == "core.server-msg-bytes-max"
    ensures Utf8.Valid(name) && Names.IsScopedIdentifier(name).Some?
  {
    var member: Bytes := "server-msg-bytes-max";
    ServerPropertySplits(name, member);
    assert forall i :: 0 <= i < |member| ==> Identifiers.IsIdentChar(member[i]);
    CorePropertyIsWellFormed(name, member);
  }

  lemma ServerPropertySplits(name: Bytes, member: Bytes)
    requires name == "core.server-msg-bytes-max" && member == "server-msg-bytes-max"
    ensures name == "core" + ['.'] + member
  {
    var core: Bytes := "core";
    assert name == core + ['.'] + member;
  }

  lemma ClientPropertyIsWellFormed(name: Bytes)
    requires name == "core.client-msg-bytes-max"
    ensures Utf8.Valid(name) && Names.IsScopedIdentifier(name).Some?
  {
    var member: Bytes := "client-msg-bytes-max";
    ClientPropertySplits(name, member);
    assert forall i :: 0 <= i < |member| ==> Identifiers.IsIdentChar(member[i]);
    CorePropertyIsWellFormed(name, member);
  }

  lemma ClientPropertySplits(name: Bytes, member: Bytes)
    requires name == "core.client-msg-bytes-max" && member == "client-msg-bytes-max"
    ensures name == "core" + ['.'] + member
  {
    var core: Bytes := "core";
    assert name == core + ['.'] + member;
  }

  /** `core.<member>` is a UTF-8 scoped identifier when the member is an
      identifier. */
  lemma CorePropertyIsWellFormed(name: Bytes, member: Bytes)
    requires Names.IsIdentifier(member) && name == "core" + ['.'] + member
    ensures Utf8.Valid(name) && Names.IsScopedIdentifier(name).Some?
  {
    var core: Bytes := "core";
    assert Names.IsIdentifier(core);
    ScopedNameIsWellFormed(core, member);
  }

  /** Two identifiers joined by a dot are UTF-8 and a scoped identifier. */
  lemma ScopedNameIsWellFormed(left: Bytes, right: Bytes)
    requires Names.IsIdentifier(left) && Names.IsIdentifier(right)
    ensures Utf8.Valid(left + ['.'] + right)
    ensures Names.IsScopedIdentifier(left + ['.'] + right) == Some((left, right))
  {
    var name := left + ['.'] + right;
    Names.ScopedIdentifierIff(name, left, right);
    forall i | 0 <= i < |name| ensures IsAscii(name[i]) {
      if i < |left| {
        assert name[i] == left[i];
      } else if i > |left| {
        assert name[i] == right[i - |left| - 1];
      }
    }
    Utf8.AsciiIsValid(name);
  }

  /** Once a `want` has stored a version, every later `want` for the module
      answers that version when its major is offered and nothing otherwise,
      and stores nothing. */
  lemma AgreedAnswersConsistently(h: Handler, name: Bytes, first: seq<U16>, later: seq<U16>, t: Tracker)
    requires WantAnswer(h, name, first, t).Some? && WantAnswer(h, name, first, t).value.1
    ensures var v := WantAnswer(h, name, first, t).value.0;
      var agreed := EnableModule(t, name, v);
      WantAnswer(h, name, later, agreed) == if v.major in later then Some((v, false)) else None
  {
  }

  /** The chain of the library's test connection: `test` at major 1 with
      minor 3 and at major 2 with minor 1. */
  function TestChain(): Handler {
    Core(Custom(
      (name: Bytes, major: U16) =>
        if name == "test" && major == 1 then Some(3)
        else if name == "test" && major == 2 then Some(1)
        else None,
      (name: Bytes, requested: Option<Bytes>) => None,
      (typeName: (Bytes, Bytes), args: seq<Bytes>) => None))
  }

  /** The `want`/`have` exchanges of the library's own tests. */
  lemma WantTestVectors()
    ensures WantAnswer(TestChain(), "test", [1], NewTracker()) == Some((ModuleVersions.ModuleVersion(1, 3), true))
    ensures WantAnswer(TestChain(), "test", [2], NewTracker()) == Some((ModuleVersions.ModuleVersion(2, 1), true))
    ensures WantAnswer(TestChain(), "test", [3], NewTracker()) == None
    ensures WantAnswer(TestChain(), "test", [1, 2], NewTracker()) == Some((ModuleVersions.ModuleVersion(2, 1), true))
    ensures WantAnswer(TestChain(), "test", [1, 3], NewTracker()) == Some((ModuleVersions.ModuleVersion(1, 3), true))
    ensures WantAnswer(TestChain(), "test", [3, 4], NewTracker()) == None
    ensures WantAnswer(TestChain(), "core", [1], NewTracker()) == Some((ModuleVersions.ModuleVersion(1, 0), true))
  {
    var h := TestChain();
    assert [1, 2][1..] == [2];
    assert [1, 3][1..] == [3];
    assert [3, 4][1..] == [4];
  }

  /** The stream mode is switched even when the `posix.to-*` reply does
      not fit into the send buffer. */
  lemma ModeSwitchSurvivesFullBuffer(mode: StreamMode, msgType: Bytes, conn: Conn, buffer: Bytes)
    requires conn.mode == Message
    requires |Wire.Frame([msgType])| <= USIZE_MAX && |buffer| < |Wire.Frame([msgType])|
    ensures var a := EnterState(mode, msgType, [], conn);
      a.Reply? && a.conn.mode == mode && [a.typeName] + a.args == [msgType] && Respond(a, buffer).0.None?
  {
    assert [msgType] + [] == [msgType];
  }
}
