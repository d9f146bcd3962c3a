/** The buffers of a server connection: the transmitter's fixed-size
    `SendBuffer`, the receiver's `discard` on its growable buffer, and the
    fixed-size `Buffer` of the stream driver, with the rule that decides
    after each parse whether to handle a message, wait for more bytes, or
    drop input up to the next `{`. */
module Buffers {
  import opened Wrappers
  import opened Bytes
  import Wire
  import Identifiers
  import WirePrefix
  import Negotiation
  import Formatter

  function Min(a: nat, b: nat): nat {
    if a <= b then a else b
  }

  // ---------------------------------------------------------------------
  // The transmitter's send buffer

  const SEND_CAPACITY: nat := 4072

  datatype SendBuffer = SendBuffer(buf: Bytes, filled: nat)

  predicate ValidSend(s: SendBuffer) {
    |s.buf| == SEND_CAPACITY && s.filled <= SEND_CAPACITY
  }

  /** `filled`: the bytes waiting to be written to the socket. */
  function SendFilled(s: SendBuffer): Bytes
    requires ValidSend(s)
  {
    s.buf[..s.filled]
  }

  /** `SendBuffer::default`. */
  function NewSendBuffer(): (s: SendBuffer)
    ensures ValidSend(s) && SendFilled(s) == []
  {
    SendBuffer(seq(SEND_CAPACITY, _ => '\0'), 0)
  }

  /** `clear`. */
  function ClearSend(s: SendBuffer): (r: SendBuffer)
    requires ValidSend(s)
    ensures ValidSend(r) && SendFilled(r) == [] && r.buf == s.buf
  {
    s.(filled := 0)
  }

  /** `fill_if_ok`: `action` is given the unfilled part and reports either
      an error or how many bytes it wrote; it also gives back the unfilled
      part as it left it. Its writes stay in the buffer either way. On
      success the fill index moves by that count, saturating at the end of
      the buffer; on error it stays where it was. */
  function FillIfOk<E>(s: SendBuffer, action: Bytes -> (Result<nat, E>, Bytes)): (r: (Result<(), E>, SendBuffer))
    requires ValidSend(s)
    requires |action(s.buf[s.filled..]).1| == SEND_CAPACITY - s.filled
    ensures ValidSend(r.1)
    ensures var (res, out) := action(s.buf[s.filled..]);
      && r.1.buf == s.buf[..s.filled] + out
      && (res.Err? ==> r.0 == Err(res.error) && r.1.filled == s.filled && SendFilled(r.1) == SendFilled(s))
      && (res.Ok? ==> r.0.Ok? && r.1.filled == Min(s.filled + res.value, SEND_CAPACITY)
                      && SendFilled(r.1) == SendFilled(s) + out[..r.1.filled - s.filled])
  {
    var (res, out) := action(s.buf[s.filled..]);
    match res
    case Err(e) => (Err(e), SendBuffer(s.buf[..s.filled] + out, s.filled))
    case Ok(more) =>
      var sum := if s.filled + more > USIZE_MAX then USIZE_MAX else s.filled + more;
      var filled := if sum >= SEND_CAPACITY then SEND_CAPACITY else sum;
      var r := SendBuffer(s.buf[..s.filled] + out, filled);
      assert SendFilled(r) == SendFilled(s) + out[..filled - s.filled];
      (Ok(()), r)
  }

  /** `fill_until_full`: copies as much of `input` as fits and gives back
      the rest. */
  function FillUntilFull(s: SendBuffer, input: Bytes): (r: (SendBuffer, Bytes))
    requires ValidSend(s)
    ensures ValidSend(r.0)
    ensures SendFilled(r.0) + r.1 == SendFilled(s) + input
    ensures r.1 == [] || r.0.filled == SEND_CAPACITY
    ensures |r.1| <= |input| && r.1 == input[|input| - |r.1|..]
  {
    var len := Min(|input|, SEND_CAPACITY - s.filled);
    if len > 0 then
      var r := SendBuffer(s.buf[..s.filled] + input[..len] + s.buf[s.filled + len..], s.filled + len);
      assert SendFilled(r) == SendFilled(s) + input[..len];
      assert input[..len] + input[len..] == input;
      (r, input[len..])
    else
      (s, input)
  }

  // ---------------------------------------------------------------------
  // The receiver's discard

  /** `ReceiveBuffer::discard` on a growable buffer: shifts the bytes after
      the first `consumed` to the front, then truncates. The subtraction in
      the truncation is only defined for `consumed <= |contents|`. */
  method DiscardFront(contents: Bytes, consumed: nat) returns (r: Bytes)
    requires consumed <= |contents|
    ensures r == contents[consumed..]
  {
    r := contents;
    if consumed > 0 {
      for idx := consumed to |contents|
        invariant |r| == |contents|
        invariant forall k | 0 <= k < idx - consumed :: r[k] == contents[k + consumed]
        invariant forall k | idx - consumed <= k < |r| :: r[k] == contents[k]
      {
        r := r[idx - consumed := r[idx]];
      }
      r := r[..|contents| - consumed];
    }
  }

  // ---------------------------------------------------------------------
  // The stream driver's fixed-size buffer

  datatype Buffer = Buffer(buf: Bytes, fill: nat)

  predicate ValidBuffer(b: Buffer) {
    b.fill <= |b.buf|
  }

  /** Everything behind the fill index is zero. `Buffer::new` starts so and
      `discard` restores it. */
  predicate ZeroTail(b: Buffer) {
    forall i | b.fill <= i < |b.buf| :: b.buf[i] == '\0'
  }

  function NewBuffer(size: nat): (b: Buffer)
    ensures ValidBuffer(b) && ZeroTail(b) && |b.buf| == size && Filled(b) == []
  {
    Buffer(seq(size, _ => '\0'), 0)
  }

  function UnfilledLen(b: Buffer): nat
    requires ValidBuffer(b)
  {
    |b.buf| - b.fill
  }

  function Filled(b: Buffer): Bytes
    requires ValidBuffer(b)
  {
    b.buf[..b.fill]
  }

  /** `discard`: drops the first `count` filled bytes, shifts the rest to
      the front and zeroes everything behind them. `fill - count` must not
      underflow. */
  method Discard(b: Buffer, count: nat) returns (r: Buffer)
    requires ValidBuffer(b) && count <= b.fill
    ensures ValidBuffer(r) && ZeroTail(r)
    ensures |r.buf| == |b.buf| && r.fill == b.fill - count
    ensures Filled(r) == Filled(b)[count..]
  {
    var remaining := b.fill - count;
    var a := b.buf;
    for idx := 0 to remaining
      invariant |a| == |b.buf|
      invariant forall k | 0 <= k < idx :: a[k] == b.buf[k + count]
      invariant forall k | idx <= k < |a| :: a[k] == b.buf[k]
    {
      a := a[idx := a[idx + count]];
    }
    for idx := remaining to |a|
      invariant |a| == |b.buf|
      invariant forall k | 0 <= k < remaining :: a[k] == b.buf[k + count]
      invariant forall k | remaining <= k < idx :: a[k] == '\0'
    {
      a := a[idx := '\0'];
    }
    r := Buffer(a, remaining);
  }

  /** A read into the unfilled part that delivered `data`. */
  function Receive(b: Buffer, data: Bytes): (r: Buffer)
    requires ValidBuffer(b) && |data| <= UnfilledLen(b)
    ensures ValidBuffer(r) && |r.buf| == |b.buf|
    ensures Filled(r) == Filled(b) + data
    ensures ZeroTail(b) ==> ZeroTail(r)
  {
    var r := Buffer(b.buf[..b.fill] + data + b.buf[b.fill + |data|..], b.fill + |data|);
    assert Filled(r) == Filled(b) + data;
    r
  }

  /** How much input a parse error drops: up to the next `{` after the
      first byte of the whole buffer, or everything filled when there is
      none. */
  function ResyncPoint(b: Buffer): nat
    requires ValidBuffer(b)
  {
    if |b.buf| == 0 then b.fill
    else
      var p := Find(b.buf[1..], '{');
      if p >= 0 then p + 1 else b.fill
  }

  /** Resynchronisation drops at least one byte and never more than is
      filled, stops at a `{`, and drops no `{` other than the first byte.
      The search runs over the whole buffer; it is the zeroed tail that
      keeps it inside the filled part. */
  lemma ResyncSpec(b: Buffer)
    requires ValidBuffer(b) && ZeroTail(b) && b.fill > 0
    ensures var r := ResyncPoint(b);
      && 1 <= r <= b.fill
      && (r < b.fill ==> b.buf[r] == '{')
      && forall i | 1 <= i < r :: b.buf[i] != '{'
  {
    var p := Find(b.buf[1..], '{');
    FindIsFirst(b.buf[1..], '{');
    if p >= 0 {
      assert b.buf[p + 1] == '{';
      assert p + 1 < b.fill;
      forall i | 1 <= i < p + 1 ensures b.buf[i] != '{' {
        assert b.buf[1..][i - 1] == b.buf[i];
      }
    } else {
      forall i | 1 <= i < b.fill ensures b.buf[i] != '{' {
        assert b.buf[1..][i - 1] == b.buf[i];
      }
    }
  }

  /** What one round of `poll_messages` does with the buffer. */
  datatype Step =
    | Handled(msg: Wire.Message<Identifiers.MessageType>, consumed: nat)
    | Incomplete
    | Resync(dropped: nat)

  /** The decision of `poll_messages`: a parsed message is handled and its
      bytes consumed; `UnexpectedEOF` while there is free space means wait
      for more bytes; any other error, or `UnexpectedEOF` in a full buffer,
      drops input up to the resynchronisation point. */
  function Classify(b: Buffer): (s: Step)
    requires ValidBuffer(b) && |b.buf| <= USIZE_MAX
    ensures s.Handled? ==> 0 < s.consumed <= b.fill
    ensures s.Incomplete? ==> UnfilledLen(b) > 0
    ensures s.Resync? && ZeroTail(b) && b.fill > 0 ==> 1 <= s.dropped <= b.fill
  {
    match Wire.Parse(Filled(b))
    case Ok((m, n)) =>
      ConsumedSomething(Filled(b));
      Handled(m, n)
    case Err(e) =>
      if e.kind == Wire.UnexpectedEOF && UnfilledLen(b) > 0 then Incomplete
      else
        var dropped := ResyncPoint(b);
        assert ZeroTail(b) && b.fill > 0 ==> 1 <= dropped <= b.fill by {
          if ZeroTail(b) && b.fill > 0 { ResyncSpec(b); }
        }
        Resync(dropped)
  }

  lemma ConsumedSomething(buf: Bytes)
    requires |buf| <= USIZE_MAX && Wire.Parse(buf).Ok?
    ensures Wire.Parse(buf).value.1 > 0
  {
    var count, q, s, it1, end := Wire.ParseParts(buf, Wire.ClassifyMessageType);
  }

  /** A buffer that starts with a whole message is handled, consuming
      exactly that message's bytes. */
  lemma ClassifyCompleteMessage(b: Buffer, items: seq<Bytes>)
    requires ValidBuffer(b) && |b.buf| <= USIZE_MAX
    requires |items| >= 1 && Wire.ClassifyMessageType(items[0]).Some?
    requires |Wire.Frame(items)| <= b.fill && Filled(b)[..|Wire.Frame(items)|] == Wire.Frame(items)
    ensures Classify(b).Handled? && Classify(b).consumed == |Wire.Frame(items)|
    ensures Wire.Arguments(Classify(b).msg.arguments) == items[1..]
  {
    var f := Filled(b);
    var rest := f[|Wire.Frame(items)|..];
    assert f == Wire.Frame(items) + rest;
    Wire.ParseRoundTrip(items, rest, Wire.ClassifyMessageType);
  }

  /** A buffer holding only the beginning of a message waits for more bytes
      while it has room, and drops input once it is full: a message longer
      than the buffer is never handled. */
  lemma ClassifyPartialMessage(b: Buffer, items: seq<Bytes>)
    requires ValidBuffer(b) && |b.buf| <= USIZE_MAX
    requires |items| >= 1 && Wire.ClassifyMessageType(items[0]).Some?
    requires |Wire.Frame(items)| <= USIZE_MAX
    requires b.fill < |Wire.Frame(items)| && Filled(b) == Wire.Frame(items)[..b.fill]
    ensures UnfilledLen(b) > 0 ==> Classify(b) == Incomplete
    ensures UnfilledLen(b) == 0 ==> Classify(b).Resync?
  {
    WirePrefix.FramePrefix(items, Wire.ClassifyMessageType, b.fill);
  }

  // ---------------------------------------------------------------------
  // Replies into the send-side buffer

  /** The send-side buffer holds `max_server_message_length + 1024` bytes. */
  function SendSideBuffer(maxServerMessageLength: nat): (b: Buffer)
    ensures ValidBuffer(b) && |b.buf| == maxServerMessageLength + 1024 && Filled(b) == [] && ZeroTail(b)
  {
    NewBuffer(maxServerMessageLength + 1024)
  }

  /** After a message was handled: the reply is formatted into the unfilled
      part and the fill index advances by what was written; when there is
      no reply, or it did not fit, a `nope` is sent instead if that fits,
      and otherwise nothing. */
  function EnqueueReply(b: Buffer, a: Negotiation.Answer): (r: Buffer)
    requires ValidBuffer(b)
    requires a.Reply? ==> |Wire.Frame([a.typeName] + a.args)| <= USIZE_MAX
    ensures ValidBuffer(r) && |r.buf| == |b.buf|
    ensures a.Reply? && |Wire.Frame([a.typeName] + a.args)| <= UnfilledLen(b) ==>
      Filled(r) == Filled(b) + Wire.Frame([a.typeName] + a.args)
    ensures !(a.Reply? && |Wire.Frame([a.typeName] + a.args)| <= UnfilledLen(b)) ==>
      Filled(r) == if |Wire.Frame(["nope"])| <= UnfilledLen(b) then Filled(b) + Wire.Frame(["nope"]) else Filled(b)
  {
    var unfilled := b.buf[b.fill..];
    var reply := Negotiation.Respond(a, unfilled);
    if reply.0.Some? then Commit(b, reply.1, reply.0.value)
    else
      var nope := NopeInto(unfilled);
      if nope.0.Some? then Commit(b, nope.1, nope.0.value) else b
  }

  /** Marks the first `n` bytes written into the unfilled part as filled. */
  function Commit(b: Buffer, out: Bytes, n: nat): (r: Buffer)
    requires ValidBuffer(b) && |out| == UnfilledLen(b) && n <= |out|
    ensures ValidBuffer(r) && |r.buf| == |b.buf|
    ensures Filled(r) == Filled(b) + out[..n]
  {
    var r := Buffer(b.buf[..b.fill] + out, b.fill + n);
    assert Filled(r) == Filled(b) + out[..n];
    r
  }

  /** `MessageFormatter::new(buf, "nope", 0).finalize()`. */
  function NopeInto(buffer: Bytes): (r: (Option<nat>, Bytes))
    ensures |r.1| == |buffer|
    ensures r.0.Some? <==> |Wire.Frame(["nope"])| <= |buffer|
    ensures r.0.Some? ==> r.0.value == |Wire.Frame(["nope"])| && r.1[..r.0.value] == Wire.Frame(["nope"])
  {
    NopeFrameSize();
    Formatter.FormatSpec(buffer, "nope", []);
    var (res, out) := Formatter.Format(buffer, "nope", []);
    (if res.Ok? then Some(res.value) else None, out)
  }

  lemma NopeFrameSize()
    ensures |Wire.Frame(["nope"])| == 11
    ensures ["nope"] + [] == ["nope"]
  {
    assert Wire.Frame(["nope"]) == "{1|4:nope,}";
  }
}
