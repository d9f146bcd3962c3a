/** `MessageFormatter`: writes a message in the wire format into a
    caller-supplied buffer of fixed size. The formatter keeps counting when
    the buffer is too small, so that `finalize` can report the size the
    message would have needed. Both revisions of the crate carry the same
    formatter. */
module Formatter {
  import opened Wrappers
  import opened Bytes
  import opened Decimal
  import Wire

  /** The buffer, the cursor (the number of bytes produced so far, which
      may run past the end of the buffer) and the number of items still to
      be added. */
  datatype MessageFormatter = MessageFormatter(buffer: Bytes, cursor: nat, remaining: nat)

  /** `BufferTooSmallError`: by how many bytes the buffer was too small. */
  datatype BufferTooSmall = BufferTooSmall(shortfall: nat)

  /** `add_char`: the byte is stored only when it lies inside the buffer;
      the cursor always moves. A cursor at `usize::MAX` panics, hence the
      precondition. */
  function AddChar(f: MessageFormatter, c: Byte): (r: MessageFormatter)
    requires f.cursor < USIZE_MAX
    ensures |r.buffer| == |f.buffer| && r.cursor == f.cursor + 1 && r.remaining == f.remaining
    ensures forall i | 0 <= i < |f.buffer| && i != f.cursor :: r.buffer[i] == f.buffer[i]
  {
    var buffer := if f.cursor < |f.buffer| then f.buffer[f.cursor := c] else f.buffer;
    MessageFormatter(buffer, f.cursor + 1, f.remaining)
  }

  /** `encode`: the encoded argument `x` (as `EncodeArgument::encode` would
      write it) is stored only when all of it fits; the cursor always moves
      by its size. An overflowing cursor panics, hence the precondition. */
  function Encode(f: MessageFormatter, x: Bytes): (r: MessageFormatter)
    requires f.cursor + |x| <= USIZE_MAX
    ensures |r.buffer| == |f.buffer| && r.cursor == f.cursor + |x| && r.remaining == f.remaining
    ensures forall i | 0 <= i < |f.buffer| && !(f.cursor <= i < f.cursor + |x|) :: r.buffer[i] == f.buffer[i]
  {
    var next := f.cursor + |x|;
    var buffer := if next <= |f.buffer| then f.buffer[..f.cursor] + x + f.buffer[next..] else f.buffer;
    MessageFormatter(buffer, next, f.remaining)
  }

  /** `add_argument`, for an argument whose encoding is `arg`: the size
      prefix, `:`, the encoding, `,`. Adding more items than announced
      panics, hence `remaining > 0`. */
  function AddArgument(f: MessageFormatter, arg: Bytes): (r: MessageFormatter)
    requires f.remaining > 0 && f.cursor + |Wire.Netstring(arg)| <= USIZE_MAX
    ensures |r.buffer| == |f.buffer| && r.remaining == f.remaining - 1
    ensures r.cursor == f.cursor + |Wire.Netstring(arg)|
  {
    var f1 := MessageFormatter(f.buffer, f.cursor, f.remaining - 1);
    var f2 := Encode(f1, NatToDecimal(|arg|));
    var f3 := AddChar(f2, ':');
    var f4 := Encode(f3, arg);
    AddChar(f4, ',')
  }

  /** The bytes `new` produces before the first argument. */
  function Header(typeName: Bytes, numArguments: nat): Bytes {
    ['{'] + NatToDecimal(numArguments + 1) + ['|'] + Wire.Netstring(typeName)
  }

  /** `MessageFormatter::new`: the opener, the item count (the arguments
      plus the type), `|` and the type name as the first item. The count
      `num_arguments + 1` overflows `usize` at `usize::MAX`, hence the
      first precondition. */
  function New(buffer: Bytes, typeName: Bytes, numArguments: nat): (r: MessageFormatter)
    requires numArguments < USIZE_MAX
    requires |Header(typeName, numArguments)| <= USIZE_MAX
    ensures |r.buffer| == |buffer| && r.remaining == numArguments
    ensures r.cursor == |Header(typeName, numArguments)|
  {
    var n := numArguments + 1;
    var f0 := MessageFormatter(buffer, 0, n);
    var f1 := AddChar(f0, '{');
    var f2 := Encode(f1, NatToDecimal(n));
    var f3 := AddChar(f2, '|');
    AddArgument(f3, typeName)
  }

  /** `finalize`: the closer, then the size of the message, or by how much
      the buffer fell short of it. Finalizing before every announced item
      was added panics, hence `remaining == 0`. */
  function Finalize(f: MessageFormatter): (r: (Result<nat, BufferTooSmall>, Bytes))
    requires f.remaining == 0 && f.cursor < USIZE_MAX
    ensures |r.1| == |f.buffer|
    ensures r.0.Ok? <==> f.cursor + 1 <= |f.buffer|
    ensures r.0.Ok? ==> r.0.value == f.cursor + 1
    ensures r.0.Err? ==> r.0.error.shortfall + |f.buffer| == f.cursor + 1
  {
    var g := AddChar(f, '}');
    if g.cursor > |g.buffer| then (Err(BufferTooSmall(g.cursor - |g.buffer|)), g.buffer)
    else (Ok(g.cursor), g.buffer)
  }

  /** A caller adding its arguments one after the other. */
  function AddArguments(f: MessageFormatter, args: seq<Bytes>): (r: MessageFormatter)
    requires f.remaining >= |args| && f.cursor + |Wire.Netstrings(args)| <= USIZE_MAX
    ensures |r.buffer| == |f.buffer| && r.remaining == f.remaining - |args|
    ensures r.cursor == f.cursor + |Wire.Netstrings(args)|
    decreases |args|
  {
    if |args| == 0 then f
    else AddArguments(AddArgument(f, args[0]), args[1..])
  }

  /** `new`, `add_argument` for each argument, `finalize`: the result and
      the buffer afterwards. */
  function Format(buffer: Bytes, typeName: Bytes, args: seq<Bytes>): (r: (Result<nat, BufferTooSmall>, Bytes))
    requires |Wire.Frame([typeName] + args)| <= USIZE_MAX
    ensures |r.1| == |buffer|
    ensures r.0.Ok? <==> |Wire.Frame([typeName] + args)| <= |buffer|
    ensures r.0.Ok? ==> r.0.value == |Wire.Frame([typeName] + args)|
  {
    FrameSize(typeName, args);
    FewArguments(typeName, args);
    var f := New(buffer, typeName, |args|);
    Finalize(AddArguments(f, args))
  }

  /** A frame that fits in `usize` has fewer than `usize::MAX` arguments. */
  lemma FewArguments(typeName: Bytes, args: seq<Bytes>)
    requires |Wire.Frame([typeName] + args)| <= USIZE_MAX
    ensures |args| < USIZE_MAX
  {
    Wire.NetstringsLength(args);
    FrameSize(typeName, args);
  }

  /** `prerecorded::publish_property`: a `core.pub` message with the
      property name and the encoded value, or None when it does not fit. */
  function PublishProperty(buffer: Bytes, name: Bytes, value: Bytes): (r: (Option<nat>, Bytes))
    requires |Wire.Frame(["core.pub", name, value])| <= USIZE_MAX
    ensures |r.1| == |buffer|
    ensures r.0.None? <==> |Wire.Frame(["core.pub", name, value])| > |buffer|
  {
    assert ["core.pub"] + [name, value] == ["core.pub", name, value];
    var (res, out) := Format(buffer, "core.pub", [name, value]);
    (if res.Ok? then Some(res.value) else None, out)
  }

  // ---------------------------------------------------------------------
  // What the buffer holds

  /** The formatter has produced `out` so far: its cursor is `|out|`, and
      while the cursor is inside the buffer the buffer is `out` followed by
      the untouched rest of `initial`. */
  predicate Holds(f: MessageFormatter, initial: Bytes, out: Bytes) {
    |f.buffer| == |initial| && f.cursor == |out|
    && (f.cursor <= |initial| ==> f.buffer == out + initial[f.cursor..])
  }

  lemma AddCharHolds(f: MessageFormatter, initial: Bytes, out: Bytes, c: Byte)
    requires Holds(f, initial, out) && f.cursor < USIZE_MAX
    ensures Holds(AddChar(f, c), initial, out + [c])
  {
    var k := f.cursor;
    if k + 1 <= |initial| {
      var r := AddChar(f, c).buffer;
      assert r == out + [c] + initial[k + 1..] by {
        assert |r| == |out + [c] + initial[k + 1..]|;
        forall i | 0 <= i < |r| ensures r[i] == (out + [c] + initial[k + 1..])[i] {
          if i < k {
            assert r[i] == f.buffer[i] == out[i];
          } else if i > k {
            assert r[i] == f.buffer[i] == initial[k..][i - k];
          }
        }
      }
    }
  }

  lemma EncodeHolds(f: MessageFormatter, initial: Bytes, out: Bytes, x: Bytes)
    requires Holds(f, initial, out) && f.cursor + |x| <= USIZE_MAX
    ensures Holds(Encode(f, x), initial, out + x)
  {
    var k := f.cursor;
    if k + |x| <= |initial| {
      assert f.buffer[..k] == out;
      assert f.buffer[k + |x|..] == initial[k + |x|..];
    }
  }

  lemma AddArgumentHolds(f: MessageFormatter, initial: Bytes, out: Bytes, arg: Bytes)
    requires Holds(f, initial, out)
    requires f.remaining > 0 && f.cursor + |Wire.Netstring(arg)| <= USIZE_MAX
    ensures Holds(AddArgument(f, arg), initial, out + Wire.Netstring(arg))
  {
    var d := NatToDecimal(|arg|);
    var f1 := MessageFormatter(f.buffer, f.cursor, f.remaining - 1);
    EncodeHolds(f1, initial, out, d);
    var f2 := Encode(f1, d);
    AddCharHolds(f2, initial, out + d, ':');
    var f3 := AddChar(f2, ':');
    EncodeHolds(f3, initial, out + d + [':'], arg);
    var f4 := Encode(f3, arg);
    AddCharHolds(f4, initial, out + d + [':'] + arg, ',');
    assert out + d + [':'] + arg + [','] == out + Wire.Netstring(arg);
  }

  lemma NewHolds(buffer: Bytes, typeName: Bytes, numArguments: nat)
    requires numArguments < USIZE_MAX && |Header(typeName, numArguments)| <= USIZE_MAX
    ensures Holds(New(buffer, typeName, numArguments), buffer, Header(typeName, numArguments))
  {
    var n := numArguments + 1;
    var d := NatToDecimal(n);
    var f0 := MessageFormatter(buffer, 0, n);
    assert Holds(f0, buffer, []);
    AddCharHolds(f0, buffer, [], '{');
    var f1 := AddChar(f0, '{');
    EncodeHolds(f1, buffer, ['{'], d);
    var f2 := Encode(f1, d);
    AddCharHolds(f2, buffer, ['{'] + d, '|');
    var f3 := AddChar(f2, '|');
    AddArgumentHolds(f3, buffer, ['{'] + d + ['|'], typeName);
  }

  lemma {:induction false} AddArgumentsHolds(f: MessageFormatter, initial: Bytes, out: Bytes, args: seq<Bytes>)
    requires Holds(f, initial, out)
    requires f.remaining >= |args| && f.cursor + |Wire.Netstrings(args)| <= USIZE_MAX
    ensures Holds(AddArguments(f, args), initial, out + Wire.Netstrings(args))
    decreases |args|
  {
    if |args| == 0 {
      assert out + Wire.Netstrings(args) == out;
    } else {
      AddArgumentHolds(f, initial, out, args[0]);
      AddArgumentsHolds(AddArgument(f, args[0]), initial, out + Wire.Netstring(args[0]), args[1..]);
      assert out + Wire.Netstring(args[0]) + Wire.Netstrings(args[1..]) == out + Wire.Netstrings(args);
    }
  }

  /** The message `Format` writes is the frame of the type and the
      arguments. */
  lemma FrameSize(typeName: Bytes, args: seq<Bytes>)
    ensures Wire.Frame([typeName] + args) == Header(typeName, |args|) + Wire.Netstrings(args) + ['}']
  {
    var items := [typeName] + args;
    assert items[0] == typeName && items[1..] == args;
    var d := NatToDecimal(|items|);
    assert d == NatToDecimal(|args| + 1);
    var n := Wire.Netstring(typeName);
    var ns := Wire.Netstrings(args);
    assert Wire.Netstrings(items) == n + ns;
    Regroup(['{'] + d + ['|'], n, ns, ['}']);
  }

  lemma Regroup<T>(a: seq<T>, b: seq<T>, c: seq<T>, d: seq<T>)
    ensures a + (b + c) + d == (a + b) + c + d
  {
  }

  /** The formatter writes exactly the canonical frame of the type name and
      the arguments: on success it returns the frame's size and the buffer
      begins with the frame, the rest left as it was; otherwise it reports
      by how many bytes the buffer was short. Either way the buffer keeps
      its size. */
  lemma FormatSpec(buffer: Bytes, typeName: Bytes, args: seq<Bytes>)
    requires |Wire.Frame([typeName] + args)| <= USIZE_MAX
    ensures var m := Wire.Frame([typeName] + args);
      var (res, out) := Format(buffer, typeName, args);
      |out| == |buffer|
      && (res.Ok? <==> |m| <= |buffer|)
      && (res.Ok? ==> res.value == |m| && out == m + buffer[|m|..])
      && (res.Err? ==> res.error == BufferTooSmall(|m| - |buffer|))
  {
    FrameSize(typeName, args);
    FewArguments(typeName, args);
    var h := Header(typeName, |args|);
    NewHolds(buffer, typeName, |args|);
    var f := New(buffer, typeName, |args|);
    AddArgumentsHolds(f, buffer, h, args);
    var g := AddArguments(f, args);
    AddCharHolds(g, buffer, h + Wire.Netstrings(args), '}');
  }

  /** The size `finalize` reports does not depend on the buffer: two
      buffers of any sizes get the same total, as the size or as size minus
      capacity. */
  lemma FormatSizeIndependent(b1: Bytes, b2: Bytes, typeName: Bytes, args: seq<Bytes>)
    requires |Wire.Frame([typeName] + args)| <= USIZE_MAX
    ensures var r1 := Format(b1, typeName, args).0; var r2 := Format(b2, typeName, args).0;
      (if r1.Ok? then r1.value else r1.error.shortfall + |b1|)
        == (if r2.Ok? then r2.value else r2.error.shortfall + |b2|)
  {
    FormatSpec(b1, typeName, args);
    FormatSpec(b2, typeName, args);
  }

  /** `publish_property` writes the `core.pub` message with the name first
      and the value second, and returns None exactly when it did not fit. */
  lemma PublishPropertySpec(buffer: Bytes, name: Bytes, value: Bytes)
    requires |Wire.Frame(["core.pub", name, value])| <= USIZE_MAX
    ensures var m := Wire.Frame(["core.pub", name, value]);
      var (res, out) := PublishProperty(buffer, name, value);
      |out| == |buffer|
      && (res.None? <==> |m| > |buffer|)
      && (res.Some? ==> res.value == |m| && out[..|m|] == m)
  {
    assert ["core.pub"] + [name, value] == ["core.pub", name, value];
    FormatSpec(buffer, "core.pub", [name, value]);
  }

  /** What the formatter writes, the parser reads back: the whole buffer
      parses as a message of the formatted type and arguments, spanning the
      reported size. */
  lemma FormatThenParse<T>(buffer: Bytes, typeName: Bytes, args: seq<Bytes>, classify: Bytes -> Option<T>)
    requires |Wire.Frame([typeName] + args)| <= USIZE_MAX && |buffer| <= USIZE_MAX
    requires classify(typeName).Some?
    requires Format(buffer, typeName, args).0.Ok?
    ensures var (res, out) := Format(buffer, typeName, args);
      var r := Wire.ParseWith(out, classify);
      r.Ok? && r.value.1 == res.value
      && r.value.0.parsedType == classify(typeName).value
      && Wire.Arguments(r.value.0.arguments) == args
  {
    var items := [typeName] + args;
    var m := Wire.Frame(items);
    FormatSpec(buffer, typeName, args);
    assert items[0] == typeName && items[1..] == args;
    Wire.ParseRoundTrip(items, buffer[|m|..], classify);
  }

  // ---------------------------------------------------------------------
  // Sizes

  function Zeros(n: nat): (r: seq<Bytes>)
    ensures |r| == n && forall i | 0 <= i < n :: r[i] == "0"
  {
    seq(n, _ => "0")
  }

  lemma {:induction false} NetstringsOfZeros(n: nat)
    ensures |Wire.Netstrings(Zeros(n))| == 4 * n
  {
    if n > 0 {
      NetstringsOfZeros(n - 1);
      assert Zeros(n)[1..] == Zeros(n - 1);
    }
  }

  /** A message of `n` arguments `0` takes 4 bytes per argument besides the
      opener, the count, the sigil, the type and the closer: 1016 bytes for
      250 of them under `foo.bar`, and 2016 for 500. */
  lemma ZerosFrameSize(typeName: Bytes, n: nat)
    ensures |Wire.Frame([typeName] + Zeros(n))|
      == 2 + |NatToDecimal(n + 1)| + 1 + |Wire.Netstring(typeName)| + 4 * n
    ensures |typeName| == 7 && 100 <= n + 1 < 1000 ==> |Wire.Frame([typeName] + Zeros(n))| == 16 + 4 * n
  {
    FrameSize(typeName, Zeros(n));
    NetstringsOfZeros(n);
    if |typeName| == 7 && 100 <= n + 1 < 1000 {
      ThreeDigits(n + 1);
      assert |NatToDecimal(|typeName|)| == 1;
    }
  }

  lemma ThreeDigits(n: nat)
    requires 100 <= n < 1000
    ensures |NatToDecimal(n)| == 3
  {
    assert n / 10 / 10 < 10;
  }
}
