# VT6 message codec and server core, in Dafny

VT6 is a protocol that lets terminal programs talk to the terminal. This
project models the pure core of its Rust library:

- **The netstring wire format.** A message is `{N|len:bytes,len:bytes,...}`.
  The first item is the message type and the rest are the arguments.
  - `Message::parse` applies strict decimal rules and reports typed errors at
    exact offsets (module `Wire`).
  - Every strict prefix of a frame is reported as `UnexpectedEOF`
    (`WirePrefix`).
  - The crate's parser test vectors are in `WireVectors`.
  - `MessageFormatter` writes a frame into a fixed-size buffer and reports the
    shortfall when it does not fit (`Formatter`).
- **Argument encodings.**
  - Integers: `get_size`, `encode`, `decode` (`IntCodec`, with `Decimal`).
  - Booleans (`IntCodec`).
  - Module versions (`ModuleVersions`).
  - Byte strings and `str` are written verbatim by `Formatter.AddArgument`.
- **Identifier grammars.**
  - Client IDs, identifiers, module identifiers (`core1`), module versions
    (`core1.2`), scoped identifiers (`core1.set`) and message types
    (`Identifiers`).
  - The hand-written checks `is_identifier`, `is_scoped_identifier` and
    `is_message_type` (`Names`).
  - The regex-based checks of the older revision (`RegexNames`).
- **Client-ID suffixes.** These are self-delimiting base-61 codewords
  appended to a parent client ID (`ClientIds`).
- **Typed messages.**
  - `want`, `have`, `nope` and the hello messages.
  - `core1.client-make/new/end` and `posix1.stdin/stdout-hello`.
  - Each one's decoder and encoder (`TypedMessages`).
- **Module negotiation on the server.**
  - The `Tracker` of agreed modules.
  - The `want` handler, which picks the highest acceptable major version.
  - `core.sub`/`core.set`.
  - The posix stream-mode switch.
  - The handler chain that ends in the `RejectHandler` of `src/server/reject.rs`,
    which agrees to no module and ignores every message (`Negotiation`).
- **Server buffer bookkeeping** (`Buffers`).
  - The 4072-byte send buffer of the tokio transmitter.
  - The receive-buffer `discard`.
  - The `Buffer` of the second tokio server.
  - The rule that classifies buffered bytes as a message, an incomplete
    message or garbage to resynchronise past.
- **The first protocol revision.**
  - The same frame parsed with the regex-based type check (`LegacyWire`).
  - `Display` of messages, both revisions (`MessageDisplay`).
  - The s-expression syntax with bareword and quoted atoms (`SExpressions`).
  - Messages read from s-expressions (`SExpressionMessages`).
- **Atoms of the newer revision.** `src/msg/atom.rs` keeps each value
  together with its `add_quotes` encoding, computed once (`QuotedAtoms`).

**Shared code.** The crate carries two revisions side by side. Where they
agree, the model defines the behaviour once:

- Both `Message::parse` functions are `Wire.ParseWith`. Only the classifier
  of the first item differs: `Wire.ClassifyMessageType` for the newer code
  and `LegacyWire.ClassifyLegacyType` for the older one.
- `src/core/msg/format.rs:33-119` and `src/common/core/msg/format.rs:21-113`
  are the same formatter. Both are `Formatter`.
- The two `Display` implementations differ in two places: quoting of the
  empty argument and the text of the message type. `MessageDisplay` models
  both.
- The two `want` handlers (`src/server/core/handler.rs` and
  `src/core/server/handler.rs`) have the same logic. The newer one's `None`
  and the older one's `Err(InvalidMessage)` are both `Negotiation.Invalid`.

**Modelling choices.**

- Bytes are characters below 256 (`Bytes.Byte`), so byte strings can be
  written as string literals.
- `usize` is 64 bits wide.
- Rust's panics become preconditions. This covers the formatter's arity
  checks, its cursor overflow, and `enable_module` of a module already
  enabled.
- Functions that write into `&mut [u8]` return the new buffer contents.

## Model

| member | source | states |
|---|---|---|
| Wire.ConsumeChar | src/common/core/msg/mod.rs:144-150 | consuming an expected byte succeeds only inside the buffer and moves the cursor by exactly one |
| Wire.DigitsEndSpec | src/common/core/msg/mod.rs:160-173 | the digit scan stops at the first non-digit (or the end) and everything it passed over is a digit |
| Wire.ConsumeDecimal | src/common/core/msg/mod.rs:160-195 | a decimal that is read consumes at least one byte, stays inside the buffer and fits `usize`; errors never point past the end |
| Wire.ConsumedDecimal | src/common/core/msg/mod.rs:176-193 | an accepted decimal is canonical (no leading zero), its value is the value of the digits read, and no digit follows it |
| Wire.DecimalErrorsAtStart | src/common/core/msg/mod.rs:160-177 | at the end of input the error is UnexpectedEOF at that offset; at a non-digit it is ExpectedDecimalNumber at that offset |
| Wire.ConsumeStringContents | src/common/core/msg/mod.rs:205-216 | the contents are taken exactly when `count` bytes remain (no wrap-around of `offset + count`); otherwise the error is UnexpectedEOF at the buffer length |
| Wire.ConsumeItem | src/common/core/msg/mod.rs:263-275 | an item read advances the cursor and stays inside the buffer; errors stay inside the buffer |
| Wire.ConsumedItemIsNetstring | src/common/core/msg/mod.rs:263-275 | the bytes an item occupies are exactly the netstring `len:contents,` of the contents returned |
| Wire.NextOrError | src/common/core/msg/mod.rs:263-275 | with no items left the iterator yields nothing and stays put; otherwise it uses up one item, and a yielded item moves the cursor forward |
| Wire.Next | src/common/core/msg/mod.rs:335-337 | `Iterator::next` uses up one announced item whenever it yields one |
| Wire.Arguments | src/common/core/msg/mod.rs:442-444 | `arguments()` never yields more items than announced |
| Wire.NextIsFirstArgument | src/common/core/msg/mod.rs:332-338 | `next` yields the first remaining argument, leaves the rest for later, and yields nothing exactly when no argument is left |
| Wire.ConsumeAndValidate | src/common/core/msg/mod.rs:277-283 | validating the remaining items ends between the cursor and the end of the buffer |
| Wire.ValidatedIsNetstrings | src/common/core/msg/mod.rs:277-283 | after validation every announced item is there, and the validated bytes are exactly their netstrings in order |
| Wire.Exactly1Spec | src/common/core/msg/mod.rs:287-295 | `exactly1` decodes the one argument when exactly one remains, else None |
| Wire.Exactly2Spec | src/common/core/msg/mod.rs:299-310 | `exactly2` gives both decoded arguments when exactly two remain and both decode, else None |
| Wire.Exactly4Spec | src/common/core/msg/mod.rs:314-329 | `exactly4` gives all four decoded arguments when exactly four remain and all decode, else None |
| Wire.ParseHeader | src/common/core/msg/mod.rs:385-392 | the header (opener, item count, list sigil) is read from the given buffer, and the iterator starts after it |
| Wire.ParseWith | src/common/core/msg/mod.rs:385-412 | a parsed message never claims more bytes than the buffer holds |
| Wire.ParseRest | src/common/core/msg/mod.rs:403-411 | the rest of the parse (validation and closer) never claims bytes past the buffer |
| Wire.ClassifyMessageType | src/common/core/msg/mod.rs:397-400 | a first item is accepted as a message type exactly when it is UTF-8 and `MessageType::parse` accepts it, and then the type's text is the item itself |
| Wire.ParseRoundTrip | src/common/core/msg/mod.rs:385-412 | a frame built from items, followed by any bytes, parses to the first item's type and the remaining items as arguments, consuming exactly the frame |
| Wire.FrameAt | src/common/core/msg/tests.rs:66-76 | a buffer that starts with a frame parses with the frame's length as byte count and the frame's arguments in order |
| Wire.ParsedArgumentsCount | src/common/core/msg/mod.rs:340-344 | after a successful parse, `len()` equals the number of arguments the iterator yields |
| Wire.ParseCanonical | src/common/core/msg/mod.rs:385-412 | whatever parses is, up to the byte count returned, exactly the frame of a type item and the arguments yielded |
| Wire.Parse | src/common/core/msg/mod.rs:385-412 | a parsed message claims no more than the buffer, and the bytes it claims are exactly the frame of its type's text and its arguments |
| WirePrefix.CharTruncated | src/common/core/msg/mod.rs:136-150 | cutting the input at the cursor turns an expected byte into UnexpectedEOF at the cut; cutting later changes nothing |
| WirePrefix.DigitsEndTruncated | src/common/core/msg/mod.rs:160-173 | on a cut input the digit scan stops at the earlier of its old end and the cut |
| WirePrefix.DecimalTruncated | src/common/core/msg/mod.rs:160-195 | a decimal cut at its start is UnexpectedEOF at the cut, cut inside still reads up to the cut, and cut after its end reads the same |
| WirePrefix.ItemTruncated | src/common/core/msg/mod.rs:205-216 | an item cut anywhere before its end fails with UnexpectedEOF at the cut, even when the length prefix points past the end |
| WirePrefix.NextTruncated | src/common/core/msg/mod.rs:263-275 | the iterator on a cut input fails at the cut before the item's end and behaves as before after it |
| WirePrefix.ValidateTruncated | src/common/core/msg/mod.rs:277-283 | validation of a cut input fails with UnexpectedEOF at the cut before its end and is unchanged after it |
| WirePrefix.HeaderTruncated | src/common/core/msg/mod.rs:385-392 | a header cut up to its sigil is UnexpectedEOF at the cut; cut later, it reads the same count |
| WirePrefix.RestTruncated | src/common/core/msg/mod.rs:394-412 | with the header and items behaving as above, the parse fails at the cut up to the closer and succeeds past it |
| WirePrefix.ParseTruncated | src/common/core/msg/tests.rs:37-49 | a message parsed from a buffer cut before its end fails with UnexpectedEOF at the cut; cut after its end, it parses with the same byte count |
| WirePrefix.FramePrefix | src/common/core/msg/tests.rs:84-86 | every strict prefix of a frame is reported as UnexpectedEOF at the prefix's length |
| WireVectors.UnexpectedByte | src/common/core/msg/mod.rs:129-150 | a wrong byte is reported at its own offset with the kind of the expected token, and the end of input as UnexpectedEOF |
| WireVectors.LeadingZeroRejected | src/common/core/msg/mod.rs:185-188 | a run of digits starting with `0` and longer than one is rejected after its last digit with DecimalNumberHasLeadingZeroes |
| WireVectors.DecimalAcceptsIff | src/common/core/msg/mod.rs:176-193 | a decimal is accepted exactly when its digits are canonical and fit `usize`; a canonical number too large is reported after its digits as DecimalNumberTooLarge |
| WireVectors.CountZero | src/common/core/msg/tests.rs:29-29 | the frame announcing zero items fails at offset 3 with ExpectedMessageType |
| WireVectors.EmptyType | src/common/core/msg/tests.rs:30-30 | the frame whose only item is empty fails at offset 6 with InvalidMessageType |
| WireVectors.UnexpectedHeaderBytes | src/common/core/msg/tests.rs:56-58 | `#`, `{#` and `{4#` fail at the `#` with the kinds the tests name |
| WireVectors.LeadingZeroCount | src/common/core/msg/tests.rs:62-62 | an item count written `01` fails at offset 3 with DecimalNumberHasLeadingZeroes |
| WireVectors.LeadingZeroLength | src/common/core/msg/tests.rs:63-63 | a length prefix written `010` fails at offset 6 with DecimalNumberHasLeadingZeroes |
| Formatter.New | src/common/core/msg/format.rs:26-48 | after `new` the cursor sits just past the header announcing N+1 items and the type netstring, with the announced arguments still to add; N+1 must not overflow `usize` |
| Formatter.AddArgument | src/common/core/msg/format.rs:56-67 | each argument moves the cursor by the length of its netstring and uses up one announced slot |
| Formatter.AddChar | src/common/core/msg/format.rs:90-98 | the cursor always moves by one; no byte other than the one at the cursor changes, and none past the buffer end is written |
| Formatter.Encode | src/common/core/msg/format.rs:102-112 | the cursor moves by the argument's size and no byte outside the written range changes |
| Formatter.AddArguments | src/common/core/msg/format.rs:56-67 | adding a list of arguments moves the cursor by the length of their netstrings together |
| Formatter.Finalize | src/common/core/msg/format.rs:78-88 | `finalize` succeeds with the total size exactly when it fits, else reports by how much the buffer is too small |
| Formatter.NewHolds | src/common/core/msg/format.rs:43-46 | the buffer after `new` holds the header on top of its old contents, cut at the buffer's length |
| Formatter.AddArgumentsHolds | src/common/core/msg/format.rs:62-66 | after adding arguments the buffer holds what it held before followed by their netstrings, cut at the buffer's length |
| Formatter.FrameSize | src/common/core/msg/format.rs:37-46 | the formatted layout is the wire frame: header, netstrings of the arguments, closer |
| Formatter.FormatSpec | src/common/core/msg/tests.rs:121-131 | formatting succeeds exactly when the frame fits, leaves the frame at the front and the rest of the buffer untouched, and otherwise reports the shortfall `frame - capacity` |
| Formatter.FormatSizeIndependent | src/common/core/msg/format.rs:78-88 | the size `finalize` reports (directly or as shortfall plus capacity) is the same for every buffer |
| Formatter.PublishPropertySpec | src/common/core/msg/prerecorded.rs:38-43 | `publish_property` returns None exactly when the `core.pub name value` frame does not fit, and otherwise its length with that frame written |
| Formatter.FormatThenParse | src/common/core/msg/tests.rs:115-119 | what the formatter writes parses back with the same type, the same arguments, and the reported size as byte count |
| Formatter.ZerosFrameSize | src/common/core/msg/tests.rs:139-149 | `n` zero arguments cost four bytes each, so 250 of them under `foo.bar` make 1016 bytes |
| Formatter.Format | src/common/core/msg/format.rs:26-88 | the buffer keeps its length; formatting succeeds exactly when the frame of the type and arguments fits, and then reports the frame's length |
| Formatter.FewArguments | src/common/core/msg/format.rs:37-37 | an argument list whose frame fits in `usize` has fewer than `usize::MAX` items, so the item count cannot overflow |
| Formatter.PublishProperty | src/common/core/msg/prerecorded.rs:38-43 | the buffer keeps its length; None exactly when the `core.pub name value` frame does not fit |
| Decimal.NatToDecimal | src/common/core/encode_argument.rs:77-90 | the decimal text of a number is non-empty, all digits, has no leading zero unless it is `0`, and is one digit exactly below ten |
| Decimal.DecimalRoundTrip | src/common/core/decode_argument.rs:89-91 | reading back the decimal text gives the number |
| Decimal.NatToDecimalIsCanonical | src/common/core/msg/mod.rs:185-193 | the decimal text is canonical in the parser's sense |
| Decimal.CanonicalRoundTrip | src/common/core/msg/mod.rs:176-193 | every canonical digit string is the decimal text of its value |
| Decimal.NatToDecimalInjective | src/common/core/encode_argument.rs:49-65 | different numbers have different decimal texts |
| Decimal.LengthOfNatToDecimal | src/common/core/encode_argument.rs:58-64 | the text has `k` digits exactly when the number lies in `[10^(k-1), 10^k)` (or `k = 1` below ten) |
| IntCodec.Magnitude | src/common/core/encode_argument.rs:52-57 | the two's-complement negation into the unsigned type gives the absolute value, for the minimum signed values too |
| IntCodec.GetSize | src/common/core/encode_argument.rs:49-65 | `get_size` is the length of the `Display` text, with one byte for a minus sign |
| IntCodec.Encode | src/common/core/encode_argument.rs:67-91 | `encode` into a buffer of `get_size` bytes writes exactly the `Display` text |
| IntCodec.WriteDigits | src/common/core/encode_argument.rs:77-83 | the digit loop fills the buffer from the back with the decimal text and stops at index 0, or 1 after a minus sign |
| IntCodec.RustParse | src/common/core/decode_argument.rs:63-63 | `str::parse` only returns values inside the target type's range |
| IntCodec.Decode | src/common/core/decode_argument.rs:53-65 | a decoded integer is in range; `0` followed by more bytes is rejected; a digit-led input that decodes is exactly the decimal text of its value |
| IntCodec.DecodeBool | src/common/core/decode_argument.rs:40-48 | `t` decodes to true, `f` to false, and nothing else decodes |
| IntCodec.DecodeEncode | src/common/core/decode_argument.rs:89-91 | decoding the encoding of any in-range integer gives it back, for every integer type |
| IntCodec.DisplayInjective | src/common/core/encode_argument.rs:115-120 | different integers have different encodings |
| IntCodec.DecodeRejectsTestVectors | src/common/core/decode_argument.rs:94-99 | the empty input, `unknown`, non-UTF-8 bytes and ` 42` do not decode, for every integer type |
| IntCodec.DecodeRejectsLeadingZeroVectors | src/common/core/decode_argument.rs:100-101 | `042` and `0042` do not decode |
| IntCodec.LeadingZeroRejected | src/common/core/decode_argument.rs:59-61 | any input of two or more bytes that starts with `0` is rejected |
| IntCodec.NonDigitRejected | src/common/core/decode_argument.rs:63-63 | an input with a non-digit byte anywhere, except a sign as its first byte, is rejected |
| IntCodec.DecodeAcceptsSignedForms | src/common/core/decode_argument.rs:53-65 | the decoder as written accepts `+5` and `-0`, which are not encodings of any integer |
| IntCodec.DecodeCanonical | src/common/core/decode_argument.rs:53-65 | the corrected decoder accepts only the exact decimal text of an in-range value |
| IntCodec.DecodeCanonicalIff | src/common/core/decode_argument.rs:55-61 | the corrected decoder yields `x` if and only if the input is the decimal text of `x` and `x` is in range |
| IntCodec.DecodeUnsignedIff | src/common/core/decode_argument.rs:53-65 | for an unsigned type, the decoder as written yields `x` exactly when `x` is in range and the text is its numeral or a `+` followed by digits worth `x` |
| ModuleVersions.Compare | src/common/core/module_version.rs:25-29 | versions are ordered by major, then minor, and compare equal only when identical |
| ModuleVersions.CompareIsKeyOrder | src/common/core/module_version.rs:25-29 | the ordering is the lexicographic order of the pair (major, minor) |
| ModuleVersions.GetSize | src/common/core/module_version.rs:39-41 | `get_size` is the length of `major.minor` |
| ModuleVersions.Encode | src/common/core/module_version.rs:43-48 | `encode` writes the `Display` text, with the dot at the index just after the major digits |
| ModuleVersions.Decode | src/common/core/decode_argument.rs:120-131 | a decoded module version is exactly the text its encoding would give |
| ModuleVersions.DecodeEncode | src/common/core/module_version.rs:31-35 | decoding the encoding of a module version gives it back |
| ModuleVersions.DecodeRejectsTestVectors | src/common/core/decode_argument.rs:120-131 | `""`, `1`, `1.`, `.1`, `1.2.3`, `.1.2`, `1.2.`, `1..2` and `1.abc` do not decode |
| ModuleVersions.EmptyHalfRejected | src/common/core/decode_argument.rs:122-125 | a text whose first dot starts or ends it does not decode |
| ModuleVersions.RightHalfRejected | src/common/core/decode_argument.rs:129-130 | a minor part with a non-digit does not decode |
| Identifiers.ParseClientId | src/common/core/identifiers.rs:56-76 | `ClientID::parse` accepts exactly the non-empty ASCII alphanumeric strings and keeps the input as its text |
| Identifiers.ParseIdentOrModuleIdent | src/common/core/identifiers.rs:127-160 | the result is either the whole input as an identifier, or an identifier followed by the decimal text of a major version of at least 1 |
| Identifiers.ParseIdentifier | src/common/core/identifiers.rs:113-118 | `Identifier::parse` accepts exactly a leader from `[A-Za-z_]` followed by `[A-Za-z_-]*`, keeping the input |
| Identifiers.ParseModuleIdentifier | src/common/core/identifiers.rs:211-221 | an accepted module identifier keeps the input as its source and is its identifier followed by the decimal text of a major version of at least 1 |
| Identifiers.ParseModuleVersion | src/common/core/identifiers.rs:289-300 | an accepted module version keeps the input as its source and has an identifier name and a major of at least 1 |
| Identifiers.ParseScopedIdentifier | src/common/core/identifiers.rs:378-386 | an accepted scoped identifier keeps the input as its source, which is its module identifier, a dot and its member identifier |
| Identifiers.ParseMessageType | src/common/core/identifiers.rs:452-461 | the text of an accepted message type is the input |
| Identifiers.MessageTypeAccepts | src/common/core/identifiers.rs:452-461 | a message type is accepted exactly when it is `init`, `want`, `have`, `nope` or a scoped identifier, and a scoped identifier becomes a scoped type |
| Identifiers.MessageTypeText | src/common/core/identifiers.rs:464-472 | `as_str`: the eternal types' names, or the scoped identifier's source |
| Identifiers.IdentifierTextHasNoDigitOrDot | src/common/core/identifiers.rs:162-172 | an identifier holds no digit and no dot |
| Identifiers.ModuleIdentifierGrammar | src/common/core/identifiers.rs:211-221 | a module identifier is exactly an identifier followed by a canonical `u16` major version of at least 1, so `foo0` is rejected |
| Identifiers.ModuleIdentifierComplete | src/common/core/identifiers.rs:141-159 | an identifier followed by the decimal text of a major version of at least 1 is split back into exactly that identifier and that version |
| Identifiers.ModuleVersionGrammar | src/common/core/identifiers.rs:289-300 | a module version is exactly an identifier, a major version of at least 1 in canonical decimal, a dot, and a minor version in any form `u16::decode` accepts: its decimal numeral or a `+` followed by digits of that value |
| Identifiers.ModuleVersionSound | src/common/core/identifiers.rs:289-300 | every accepted module version is the text of its name and major, a dot, and a text `u16::decode` reads as its minor |
| Identifiers.ModuleVersionComplete | src/common/core/identifiers.rs:289-300 | an identifier, a major of at least 1 and any text `u16::decode` reads as the minor parse to exactly those parts |
| Identifiers.ModuleVersionTextParses | src/common/core/identifiers.rs:608-613 | the canonical text of any name, major of at least 1 and minor parses to exactly those parts |
| Identifiers.SignedMinorAccepted | src/common/core/identifiers.rs:293-293 | `core1.+5` is accepted with minor version 5, though it is not the canonical text of that version |
| Identifiers.MinorTextIff | src/common/core/identifiers.rs:293-293 | the minor version decodes to `m` exactly when the text is the numeral of `m` or a `+` followed by digits worth `m` |
| Identifiers.DecodeMinor | src/common/core/identifiers.rs:293-293 | a minor version is read exactly when `u16::decode` accepts the text, and the text is then one of the forms that denote it |
| Identifiers.ScopedIdentifierGrammar | src/common/core/identifiers.rs:378-386 | a scoped identifier is exactly a module identifier, a dot and an identifier |
| Identifiers.ScopedIdentifierSound | src/common/core/identifiers.rs:378-386 | each accepted scoped identifier splits into a module identifier and an identifier that rebuild it |
| Identifiers.ScopedIdentifierComplete | src/common/core/identifiers.rs:638-651 | every such concatenation is accepted with those parts |
| Identifiers.NoDotInModuleIdentifier | src/common/core/identifiers.rs:141-159 | a module identifier holds no dot, so the first dot of a scoped identifier or version separates the halves |
| Identifiers.MessageTypeRoundTrip | src/common/core/identifiers.rs:452-472 | `as_str` of a parsed message type is the input, and parsing it again gives the same type |
| Identifiers.MessageTypeTextInjective | src/common/core/identifiers.rs:464-472 | two parsed message types with the same text are the same |
| Identifiers.KindsAreDisjoint | src/common/core/identifiers.rs:493-518 | no string is both an identifier and a module identifier; neither is a module version or scoped identifier; no string is both of those; and a module version or scoped identifier is never a client ID |
| Identifiers.VersionIsNotScoped | src/common/core/identifiers.rs:289-300 | no string is both a module version and a scoped identifier |
| Identifiers.DottedIsNotClientId | src/common/core/identifiers.rs:74-76 | a module version or scoped identifier is never a client ID |
| Names.AllIdentChars | src/common/core/mod.rs:55-60 | the check holds exactly when every byte is in `[A-Za-z_-]` |
| Names.IsIdentifier | src/common/core/mod.rs:40-60 | `is_identifier` agrees with `Identifier::parse` on every input |
| Names.IsScopedIdentifier | src/common/core/mod.rs:87-95 | the halves returned are identifiers and rebuild the name around one dot |
| Names.ScopedIdentifierIff | src/common/core/mod.rs:75-95 | `is_scoped_identifier` returns `(l, r)` exactly when both are identifiers and the name is `l.r` |
| Names.MessageTypeIff | src/common/core/mod.rs:110-128 | `is_message_type` returns `("", name)` exactly for `want`, `have`, `nope`, and otherwise the halves of a scoped identifier |
| Names.IsMessageType | src/common/core/mod.rs:110-128 | an empty left half comes only with `want`, `have` or `nope` as the whole name; otherwise both halves are identifiers joined by a dot into the name |
| Names.VersionedNamesAreRejected | src/common/core/mod.rs:87-95 | every name `ScopedIdentifier::parse` accepts, whose module part carries a major version as in `core1.set`, is rejected by `is_scoped_identifier` |
| Names.ModuleIdentifierIsNotIdentifier | src/common/core/mod.rs:33-47 | a module identifier is never an identifier here |
| Names.InitIsNotAMessageTypeHere | src/common/core/mod.rs:122-128 | `init` is not a message type for `is_message_type`, though `MessageType::parse` accepts it |
| RegexNames.SplitScopedIdentifier | src/core/mod.rs:113-118 | the split is at the first dot, or `("", name)` without one |
| RegexNames.IsIdentifier | src/core/mod.rs:49-51 | the IDENT regex accepts a name exactly when the hand-written `is_identifier` does |
| RegexNames.IsScopedIdentifier | src/core/mod.rs:75-81 | `is_scoped_identifier`: the split of a SCOPED_IDENT match (reference definition; `RegexNames.ScopedIdentifierShape` and `RegexNames.ScopedChecksAgree` state its properties) |
| RegexNames.IsMessageType | src/core/mod.rs:105-111 | `is_message_type`: the split of a SCOPED_IDENT match or of an eternal type (reference definition; `RegexNames.MessageTypeShape` and `RegexNames.MessageTypeChecksAgree` state its properties) |
| RegexNames.ScopedIdentifierShape | src/core/mod.rs:75-81 | the halves returned both match IDENT and rebuild the name around one dot |
| RegexNames.MessageTypeShape | src/core/mod.rs:105-111 | an empty left half comes only with an eternal type as the whole name; otherwise both halves match IDENT and rebuild the name around a dot |
| RegexNames.IdentifierChecksAgree | src/core/mod.rs:49-51 | the regex `is_identifier` and the hand-written one accept the same names |
| RegexNames.FirstDotSeparates | src/core/mod.rs:33-33 | in a regex match the dot after an identifier is the first dot |
| RegexNames.ScopedChecksAgree | src/core/mod.rs:75-81 | the regex `is_scoped_identifier` and the hand-written one return the same result on every name |
| RegexNames.MessageTypeChecksAgree | src/core/mod.rs:105-111 | the regex `is_message_type` and the hand-written one return the same result on every name |
| RegexNames.EternalHasNoDot | src/core/mod.rs:105-117 | the eternal types have no dot, so they split as `("", name)` |
| ClientIds.Lookup | src/client/core/client_id.rs:157-162 | every entry of the lookup table is ASCII alphanumeric |
| ClientIds.LookupIndex | src/client/core/client_id.rs:157-162 | a byte's index in the table gives back that byte |
| ClientIds.LookupIndexInverse | src/client/core/client_id.rs:157-162 | every table position is found again from its byte |
| ClientIds.Below | src/client/core/client_id.rs:86-91 | `below` pairs the suffix with the given base unchanged |
| ClientIds.Codeword | src/client/core/client_id.rs:164-175 | a codeword is non-empty and ends in a byte other than `z`, which marks its end |
| ClientIds.SizeForNumber | src/client/core/client_id.rs:150-155 | `get_size_for_number(n)` is the length of the codeword for `n+1` |
| ClientIds.CodewordLength | src/client/core/client_id.rs:150-155 | the codeword for `m` has `1 + m / 61` bytes |
| ClientIds.EncodeNumber | src/client/core/client_id.rs:164-175 | `encode_number(n)` writes `(n+1)/61` bytes `z` then the table entry at `(n+1) % 61` |
| ClientIds.SuffixSize | src/client/core/client_id.rs:102-109 | the suffix's `get_size` is the length of its encoding |
| ClientIds.Encode | src/client/core/client_id.rs:33-43 | a relative client ID's encoding starts with its base |
| ClientIds.GetSize | src/client/core/client_id.rs:33-36 | its `get_size` is the length of its encoding |
| ClientIds.DecodeSuffix | src/client/core/client_id.rs:93-99 | a decoded suffix is one the encoder can produce |
| ClientIds.DecodeSuffixBytes | src/client/core/client_id.rs:111-125 | the suffix encoding is self-delimiting: decoding it gives back the suffix |
| ClientIds.SuffixBytesInjective | src/client/core/client_id.rs:93-99 | different suffixes have different encodings |
| ClientIds.LocalIffLeadingZero | src/client/core/client_id.rs:97-116 | a non-empty suffix encoding starts with `0` exactly when the suffix is `Local` |
| ClientIds.CodewordHead | src/client/core/client_id.rs:151-153 | the codeword of a positive number never starts with `0`, because index 0 is reserved |
| ClientIds.OwnIsBase | src/client/core/client_id.rs:63-66 | `Own` below a base encodes to the base unchanged |
| ClientIds.EncodedIsClientId | src/client/core/client_id.rs:157-162 | base plus suffix is still a valid client ID |
| ClientIds.SuffixIsAlphanumeric | src/client/core/client_id.rs:111-125 | every byte of a suffix encoding is ASCII alphanumeric |
| ClientIds.CodewordIsAlphanumeric | src/client/core/client_id.rs:164-175 | every byte of a codeword is ASCII alphanumeric |
| ClientIds.Vectors | src/client/core/client_id.rs:184-228 | `Local(60)` gives `0z0`, `Job(121)` gives `zz0`, `Child(61, 122)` gives `z1zz1` |
| TypedMessages.DecodeStr | src/common/core/decode_argument.rs:33-37 | a `&str` argument decodes exactly when it is UTF-8, to itself |
| TypedMessages.DecodeBytes | src/common/core/encode_argument.rs:33-36 | a byte-string argument decodes to itself |
| TypedMessages.DecodeWant | src/msg/mod.rs:20-28 | a decoded `want` has type `want`, one argument, and a module identifier that parses |
| TypedMessages.DecodeHave | src/msg/mod.rs:45-59 | a decoded `have` has one argument, which is a module version when `ModuleVersion::parse` accepts it (minor version through `u16::decode`, so `+` included), else a module identifier |
| TypedMessages.DecodeNope | src/msg/mod.rs:76-86 | `nope` decodes exactly when the type is `nope` and no argument follows |
| TypedMessages.DecodeClientHello | src/msg/mod.rs:100-108 | `client-hello` with one UTF-8 secret |
| TypedMessages.DecodeParentHello | src/msg/mod.rs:125-136 | `parent-hello` with two arguments, the first a UTF-8 secret |
| TypedMessages.DecodeServerHello | src/msg/mod.rs:156-170 | `server-hello` with four arguments, the first a client ID |
| TypedMessages.DecodeClientMake | src/msg/core.rs:18-32 | `core1.client-make` with four arguments, the first a client ID |
| TypedMessages.DecodeClientNew | src/msg/core.rs:51-59 | `core1.client-new` with one UTF-8 secret |
| TypedMessages.DecodeClientEnd | src/msg/core.rs:75-83 | `core1.client-end` with one client ID |
| TypedMessages.DecodeStdinHello | src/msg/posix.rs:15-23 | `posix1.stdin-hello` with one UTF-8 secret |
| TypedMessages.DecodeStdoutHello | src/msg/posix.rs:39-47 | `posix1.stdout-hello` with one UTF-8 secret |
| TypedMessages.WantRoundTrip | src/msg/mod.rs:30-36 | a message carrying the arguments `encode` writes for a `want` decodes to that `want` exactly when its type is `want` |
| TypedMessages.HaveRoundTrip | src/msg/mod.rs:61-70 | the same for `have`, for both the full version and the bare module identifier |
| TypedMessages.NoDotNoVersion | src/msg/mod.rs:50-58 | a text without a dot is never a module version, so a bare module identifier decodes as `NotThisModule` |
| TypedMessages.NopeRoundTrip | src/msg/mod.rs:88-92 | `nope` with no arguments decodes exactly when its type is `nope` |
| TypedMessages.ClientHelloRoundTrip | src/msg/mod.rs:110-116 | decoding the arguments `encode` writes gives back the `client-hello` exactly when the type matches |
| TypedMessages.ParentHelloRoundTrip | src/msg/mod.rs:138-145 | the same for `parent-hello` |
| TypedMessages.ServerHelloRoundTrip | src/msg/mod.rs:172-181 | the same for `server-hello`, given that the option codec round-trips |
| TypedMessages.ClientMakeRoundTrip | src/msg/core.rs:34-43 | the same for `core1.client-make` |
| TypedMessages.ClientNewRoundTrip | src/msg/core.rs:61-67 | the same for `core1.client-new` |
| TypedMessages.ClientEndRoundTrip | src/msg/core.rs:85-91 | the same for `core1.client-end` |
| TypedMessages.StdinHelloRoundTrip | src/msg/posix.rs:25-31 | the same for `posix1.stdin-hello` |
| TypedMessages.StdoutHelloRoundTrip | src/msg/posix.rs:49-55 | the same for `posix1.stdout-hello` |
| TypedMessages.EncodedMessageCarries | src/common/core/msg/traits.rs:23-32 | a message an `encode` writes parses back with its type text and the arguments in field order |
| TypedMessages.Encode | src/common/core/msg/traits.rs:27-32 | the buffer keeps its length; encoding succeeds exactly when the frame of the type name and arguments fits, and then reports its length |
| Negotiation.NewTracker | src/server/core/tracker.rs:35-37 | a new tracker has no module enabled |
| Negotiation.CanUseModule | src/server/core/handler.rs:175-181 | `can_use_module` along a handler chain (reference definition; `Negotiation.LibraryChainAgreement` states what it answers) |
| Negotiation.GetSetProperty | src/server/core/handler.rs:183-205 | the value the core handler publishes for its two properties, or what the next handler answers (reference definition; `Negotiation.HandleSetSub` states the replies) |
| Negotiation.EnableModule | src/server/core/tracker.rs:41-52 | after `enable_module(n, v)` module `n` is enabled at `v` and every other module is as before |
| Negotiation.LibraryChainAgreement | src/server/core/handler.rs:175-181 | a chain of library handlers agrees to a module exactly when one of its handlers implements it at major 1, always with minor 0; the `RejectHandler` agrees to nothing |
| Negotiation.BestOfferSpec | src/server/core/handler.rs:103-120 | the reference best offer is the highest offered major the chain accepts, with the chain's minor, or nothing when no offer is acceptable |
| Negotiation.BestOfferUnique | src/server/core/handler.rs:103-120 | the best offer is unique |
| Negotiation.BestOffer | src/server/core/handler.rs:103-120 | reference definition of the best offer, by recursion over the offered majors; `Negotiation.BestOfferSpec` characterises it |
| Negotiation.WantAnswer | src/server/core/handler.rs:88-121 | reference definition of what `check_want` answers; `Negotiation.CheckWant` is proved equal to it |
| Negotiation.CheckWant | src/server/core/handler.rs:88-121 | `check_want` answers the agreed version when it is offered, otherwise the best acceptable offer to be stored, otherwise nothing |
| Negotiation.HandleWant | src/server/core/handler.rs:49-86 | a malformed `want` is invalid; a valid one is answered by `have` with the version `check_want` chose (enabling it when new) or by an empty `have` |
| Negotiation.HandleSetSub | src/server/core/handler.rs:123-154 | `core.sub` needs one and `core.set` two arguments with a scoped-identifier name, or the answer is Invalid; a well-formed request is answered `core.pub name value` with the value the handler chain publishes for the property, and Invalid when no handler knows it; the connection is unchanged |
| Negotiation.EnterState | vt6/src/server/posix/mod.rs:36-58 | the mode switch succeeds exactly with no arguments in message mode, sets the mode and replies with the same type and no arguments |
| Negotiation.Handle | vt6/src/server/posix/mod.rs:61-73 | along the chain only `want` can change the tracker and only `posix.*` the mode; `core.*` and `posix.*` before their module is agreed at major 1 fall through to the `RejectHandler` |
| Negotiation.HandleCore | src/server/core/handler.rs:157-167 | the core handler takes `want`, and takes `core.sub`/`core.set` once core 1 is agreed; it forwards everything else |
| Negotiation.Respond | src/server/core/handler.rs:79-85 | a reply is written when its frame fits the send buffer and its size returned; otherwise nothing is reported |
| Negotiation.SetIgnoresRequestedValue | src/server/core/handler.rs:194-205 | `core.set` on `core.*-msg-bytes-max` answers like `core.sub`, whatever was requested, and both are answered `core.pub name value` with the connection's current limit |
| Negotiation.AgreedAnswersConsistently | src/server/core/handler.rs:92-100 | after a module is agreed, a later `want` gets the agreed version when its major is offered and an empty `have` otherwise |
| Negotiation.WantTestVectors | src/server/core/tests.rs:38-48 | the `want` exchanges of the library's tests pick the versions those tests expect |
| Negotiation.ModeSwitchSurvivesFullBuffer | vt6/src/server/posix/mod.rs:51-57 | the stream mode changes even when the reply does not fit the send buffer |
| Buffers.NewSendBuffer | src/server/tokio/transmitter.rs:22-29 | a new send buffer has 4072 bytes and nothing filled |
| Buffers.ClearSend | src/server/tokio/transmitter.rs:76-78 | `clear` empties the filled part |
| Buffers.FillIfOk | src/server/tokio/transmitter.rs:35-49 | the action's writes stay in the buffer; on error the fill is unchanged and the writes sit in the unfilled part; on `Ok(n)` the fill grows by `n`, capped at the capacity, with the action's output appended |
| Buffers.FillUntilFull | src/server/tokio/transmitter.rs:55-66 | the input is split into a copied part appended to the filled bytes and the rest returned; something is returned only when the buffer is full |
| Buffers.DiscardFront | src/server/tokio/receiver.rs:18-26 | `discard(k)` leaves the contents after the first `k` bytes |
| Buffers.NewBuffer | vt6tokio/src/server/core/bidi_byte_stream.rs:320-322 | a new buffer has the requested size, nothing filled, and zeros after the fill |
| Buffers.Discard | vt6tokio/src/server/core/bidi_byte_stream.rs:332-341 | `discard(c)` moves the filled bytes after `c` to the front, shrinks the fill by `c`, keeps the size, and zeroes everything after the fill |
| Buffers.Receive | vt6tokio/src/server/core/bidi_byte_stream.rs:236-240 | bytes read into the unfilled part are appended to the filled part |
| Buffers.ResyncSpec | vt6tokio/src/server/core/bidi_byte_stream.rs:213-218 | after a parse error the discard point is the next `{` after position 0, or the fill if there is none, and at least one byte is dropped |
| Buffers.ResyncPoint | vt6tokio/src/server/core/bidi_byte_stream.rs:213-218 | the discard point after a parse error (reference definition; `Buffers.ResyncSpec` states its bounds) |
| Buffers.Classify | vt6tokio/src/server/core/bidi_byte_stream.rs:204-224 | a handled message consumes some filled bytes; an incomplete one needs free space left; a resync drops at least one byte |
| Buffers.ConsumedSomething | src/common/core/msg/mod.rs:385-412 | a parsed message always consumes at least one byte |
| Buffers.ClassifyCompleteMessage | vt6tokio/src/server/core/bidi_byte_stream.rs:206-229 | a complete frame at the front is handled, consuming exactly its length and yielding its arguments |
| Buffers.ClassifyPartialMessage | vt6tokio/src/server/core/bidi_byte_stream.rs:210-213 | a strict prefix of a frame waits for more bytes while space is left and is resynchronised past when the buffer is full |
| Buffers.SendSideBuffer | vt6tokio/src/server/core/bidi_byte_stream.rs:274-283 | the send buffer holds `max_server_message_length + 1024` bytes |
| Buffers.EnqueueReply | vt6tokio/src/server/core/bidi_byte_stream.rs:104-126 | a reply that fits is appended; otherwise a `nope` is appended if it fits, else nothing |
| Buffers.Commit | vt6tokio/src/server/core/bidi_byte_stream.rs:110-113 | the first `n` bytes the handler wrote become filled |
| Buffers.NopeInto | vt6tokio/src/server/core/bidi_byte_stream.rs:118-124 | a `nope` is written exactly when its 11-byte frame fits |
| Buffers.NopeFrameSize | vt6tokio/src/server/core/bidi_byte_stream.rs:118-124 | the `nope` frame is 11 bytes |
| MessageDisplay.AnyNeedsEscaping | src/common/core/msg/mod.rs:464-474 | an argument needs quotes exactly when some byte lies outside `[A-Za-z0-9._-]` |
| MessageDisplay.Escape | src/common/core/msg/mod.rs:453-455 | `escape_default` over an argument, byte by byte; `MessageDisplay.UnescapeEscape` states that it reads back |
| MessageDisplay.DisplayMessage | src/common/core/msg/mod.rs:447-462 | the type text and each argument, quoted when needed, between parentheses; `MessageDisplay.ArgumentQuotedIff` and `MessageDisplay.UnescapeEscape` state its properties |
| MessageDisplay.EscapeDefault | src/common/core/msg/mod.rs:453-455 | `escape_default` keeps printable ASCII other than `\`, `'`, `"` as one byte and writes everything else as 2 to 4 bytes |
| MessageDisplay.HexRoundTrip | src/common/core/msg/mod.rs:453-455 | the hex digits of `\xNN` read back as the nibble |
| MessageDisplay.UnescapeOne | src/common/core/msg/mod.rs:453-455 | one escaped byte reads back as that byte |
| MessageDisplay.UnescapeEscape | src/common/core/msg/mod.rs:447-462 | the escaped text of an argument reads back as the argument, so `Display` loses nothing |
| MessageDisplay.EscapeOfPlain | src/common/core/msg/mod.rs:451-455 | an argument that needs no quotes is printed as itself |
| MessageDisplay.ArgumentQuotedIff | src/common/core/msg/mod.rs:451-460 | an argument is quoted exactly when it has a byte outside `[A-Za-z0-9._-]`, or (newer revision only) is empty |
| MessageDisplay.TypeNameTextAsWritten | src/core/msg/mod.rs:399-402 | the older `Display` always puts a dot between module and name |
| MessageDisplay.TypeNameText | src/core/msg/mod.rs:356-372 | the corrected type text of an eternal type is its name |
| MessageDisplay.EternalTypeShownWithDot | src/core/msg/mod.rs:399-402 | as written, `want`, `have` and `nope` are displayed as `(.want ...` and so on |
| MessageDisplay.TypeNameTextRoundTrip | src/core/mod.rs:105-111 | the corrected type text of what `is_message_type` returns is the original name |
| LegacyWire.ClassifyLegacyType | src/core/msg/mod.rs:337-347 | the first item is accepted exactly when it is UTF-8 and `is_message_type` accepts it; its type text gives the item back |
| LegacyWire.ParseRoundTrip | src/core/msg/mod.rs:330-354 | a frame whose first item is a message type parses to `type_name` and the remaining items, consuming exactly the frame including opener and closer |
| LegacyWire.Parse | src/core/msg/mod.rs:330-354 | `Message::parse` of the earlier revision (the shared frame reader with the `is_message_type` check; `LegacyWire.ParseClaimsFrame` and `LegacyWire.ParseRoundTrip` state what it accepts) |
| LegacyWire.ParseClaimsFrame | src/core/msg/mod.rs:330-354 | a parsed message claims no more than the buffer, and the bytes it claims are exactly the frame of its `type_name` text and its arguments |
| LegacyWire.EternalTypeName | src/core/msg/mod.rs:356-369 | `want` has `type_name` `("", "want")` |
| LegacyWire.ScopedTypeName | src/core/msg/mod.rs:356-372 | `module.name` has `type_name` `(module, name)` |
| SExpressions.NewAtom | src/core/msg/atom.rs:82-88 | `Atom::new` keeps the value and marks it unquoted |
| SExpressions.TextEqualityIgnoresQuoting | src/core/msg/atom.rs:50-55 | comparing with a `str` looks only at the value, while atom equality also compares `was_quoted` |
| SExpressions.ParseBareword | src/core/msg/parse.rs:176-192 | a bareword is the maximal run of bareword bytes, unquoted; it exists exactly when the cursor is at a bareword byte; errors are UnexpectedEOF at the end or InvalidToken at the cursor |
| SExpressions.ReadQuotedBody | src/core/msg/parse.rs:194-212 | the body ends at an unescaped `"`; running out is UnexpectedEOF at the end; any escape other than `\\` and `\"` is UnknownEscapeSequence at its backslash |
| SExpressions.ReadQuotedBodySources | src/core/msg/parse.rs:199-212 | each unescaped byte comes from a position inside the quotes that holds that byte |
| SExpressions.ParseQuoted | src/core/msg/parse.rs:194-221 | as written: a quoted atom is marked quoted and is UTF-8; errors lie after the opening quote, and UnexpectedEOF is at the end; invalid UTF-8 is reported at the quote plus one plus `valid_up_to` of the unescaped value |
| SExpressions.ParseQuotedCorrected | src/core/msg/parse.rs:194-221 | the same contract for the corrected parser, which reports invalid UTF-8 at the input position of the offending byte |
| SExpressions.InvalidUtf8OffsetAsWrittenTooEarly | src/core/msg/parse.rs:214-219 | on `"\\` followed by byte 0x80 and `"`, the code as written reports InvalidUTF8 at offset 2, a backslash, while the offending byte is at 3 |
| SExpressions.PlainBodyInvalidUtf8 | src/core/msg/parse.rs:214-219 | without escapes, invalid UTF-8 is reported at the quote plus one plus the valid prefix length, by the as-written and the corrected parser alike |
| SExpressions.InvalidUtf8OffsetIsOffendingByte | src/core/msg/parse.rs:214-219 | the corrected parser reports invalid UTF-8 at the input byte that is the first invalid byte of the unescaped value |
| SExpressions.InvalidUtf8OffsetAgreesWithoutEscapes | src/core/msg/parse.rs:197-219 | without backslashes the corrected and the as-written parsers agree |
| SExpressions.ParseAtom | src/core/msg/parse.rs:223-236 | after whitespace, an atom (a bareword, or a quoted string read by the as-written `SExpressions.ParseQuoted`) consumes input and stays inside it; errors lie at or after the cursor, and UnexpectedEOF at the end |
| SExpressions.ParseSExpression | src/core/msg/parse.rs:238-250 | an s-expression consumes input and stays inside it; running out of input is UnexpectedEOF at the end; atoms are read as written |
| SExpressions.ParseElements | src/core/msg/parse.rs:252-268 | the element loop ends just after a `)`; errors stay inside the input and running out is UnexpectedEOF at the end |
| SExpressions.ParseElement | src/core/msg/parse.rs:258-265 | an element (nested s-expression or atom, read as written) consumes input; errors stay inside it and running out is UnexpectedEOF at the end |
| SExpressions.Complete | src/core/msg/parse.rs:156-164 | `parse_byte_string` succeeds exactly when the parse consumes all input, and otherwise reports ExpectedEOF at the first unconsumed byte |
| SExpressions.DisplayAtom | src/core/msg/atom.rs:57-80 | a bareword value is printed as itself; any other value is printed between quotes |
| SExpressions.DisplaySExpression | src/core/msg/sexp.rs:53-66 | an s-expression is printed between parentheses |
| SExpressions.Escape | src/core/msg/atom.rs:71-80 | `format_quoted`'s body never shortens the value; `SExpressions.QuotedRoundTrip` states that it reads back |
| SExpressions.BarewordRoundTrip | src/core/msg/parse.rs:176-192 | a bareword value followed by a non-bareword byte is read back as itself, unquoted |
| SExpressions.QuotedRoundTrip | src/core/msg/atom.rs:71-80 | the quoted text of any UTF-8 value reads back as the value, marked quoted |
| SExpressions.AtomRoundTrip | src/core/msg/atom.rs:57-69 | printing a printable atom and parsing the text gives its value back |
| SExpressions.SExpressionAt | src/core/msg/sexp.rs:36-66 | the printed text of a well-formed s-expression, wherever it sits in a buffer, parses back to the tree as read (same values), consuming exactly the text |
| SExpressions.SExpressionRoundTrip | src/core/msg/sexp.rs:45-49 | printing a well-formed s-expression and parsing the text gives the same tree of values |
| SExpressions.TrailingWhitespaceAfterAtom | src/core/msg/tests.rs:29-31 | an atom followed by whitespace fails with ExpectedEOF after the atom |
| SExpressions.InvalidTokenAtStart | src/core/msg/tests.rs:35-37 | `?set` fails with InvalidToken at 0 |
| SExpressions.UnknownEscapeInAtom | src/core/msg/tests.rs:57-59 | `"foo\nbar"` fails with UnknownEscapeSequence at the backslash |
| SExpressions.UnclosedSExpression | src/core/msg/tests.rs:124-127 | `(foo (bar` fails with UnexpectedEOF at its length |
| SExpressions.InvalidTokenInSExpression | src/core/msg/tests.rs:132-135 | `(foo [bar])` fails with InvalidToken at the `[` |
| SExpressions.UnknownEscapeInSExpression | src/core/msg/tests.rs:136-139 | an unknown escape inside an s-expression fails at its backslash |
| SExpressions.InvalidUtf8InSExpression | src/core/msg/tests.rs:128-131 | invalid UTF-8 inside quotes fails at the first invalid byte |
| SExpressionMessages.MessageFrom | src/core/msg/message.rs:33-45 | `Message::from` keeps the s-expression exactly when its first element is a message-type atom; otherwise it reports EmptyMessage (when empty) or InvalidMessageType at offset 0 |
| SExpressionMessages.ParseMessage | src/core/msg/message.rs:58-62 | parsing a message succeeds exactly when the s-expression parses and is a message, with the same extent |
| SExpressionMessages.CanonicalKeepsMessage | src/core/msg/message.rs:36-42 | reading back keeps the first atom's value, so a message stays a message |
| SExpressionMessages.MessageRoundTrip | src/core/msg/message.rs:48-52 | printing a well-formed message and parsing it gives the message back |
| SExpressionMessages.EmptyMessageRejected | src/core/msg/message.rs:36-38 | `()` is an EmptyMessage at offset 0 |
| QuotedAtoms.CountEscapes | src/msg/atom.rs:87-92 | the count of bytes to escape is zero exactly when there is no `\` or `"` |
| QuotedAtoms.AddQuotesAsWritten | src/msg/atom.rs:86-106 | `add_quotes` returns the value exactly when it has nothing to escape, else a quoted string of length `len + escapes + 2` |
| QuotedAtoms.AddQuotesLoops | src/msg/atom.rs:86-106 | the two loops of `add_quotes` compute that function |
| QuotedAtoms.CountLoop | src/msg/atom.rs:87-92 | the first loop counts the bytes to escape |
| QuotedAtoms.QuoteLoop | src/msg/atom.rs:96-105 | the second loop writes the quoted string |
| QuotedAtoms.EscapeLength | src/msg/atom.rs:96-104 | each escaped byte adds exactly one backslash |
| QuotedAtoms.AsWrittenDoesNotReadBack | src/msg/atom.rs:87-95 | as written, `a b` is left bare and reads back as an error, and the empty value is left empty |
| QuotedAtoms.AddQuotes | src/msg/atom.rs:86-106 | the corrected encoding is bare exactly for non-empty bareword values, otherwise quoted with length `len + escapes + 2` |
| QuotedAtoms.AddQuotesRoundTrip | src/msg/atom.rs:67-75 | the corrected encoding of any UTF-8 value reads back as the value |
| QuotedAtoms.AddQuotesDiffersIff | src/msg/atom.rs:86-106 | the two encodings differ exactly on values that need no escapes and are empty or hold a non-bareword byte |
| QuotedAtoms.NewAtom | src/msg/atom.rs:67-75 | `Atom::new` as written keeps the value for `as_ref`; its `Display` is the bare value exactly when nothing needs a backslash, and reads back as the value when something does or when the value is one bareword |
| QuotedAtoms.NewAtomCorrected | src/msg/atom.rs:67-75 | with the corrected encoding, `as_ref` is the value and `Display` of any UTF-8 value reads back as the value |
| QuotedAtoms.AsRef | src/msg/atom.rs:37-41 | `as_ref` is the unquoted value (accessor; `QuotedAtoms.NewAtom` states what it returns) |
| QuotedAtoms.Display | src/msg/atom.rs:61-65 | `Display` writes the encoding `new` computed (accessor; `QuotedAtoms.NewAtom` states what it is) |
| QuotedAtoms.CompareBytes | src/msg/atom.rs:57-59 | string order calls two strings equal only when they are the same |
| QuotedAtoms.Compare | src/msg/atom.rs:43-58 | atom ordering says Equal exactly when atoms are equal |
| QuotedAtoms.AtomOrderIsTotal | src/msg/atom.rs:49-59 | the atom order is antisymmetric and transitive |
| QuotedAtoms.NewAtomEquality | src/msg/atom.rs:43-45 | for atoms made by `new`, value equality is full equality |
| Utf8.SequenceWidth | src/core/msg/parse.rs:214-219 | a UTF-8 sequence has at most four bytes, and a one-byte one is ASCII |
| Utf8.ValidUpTo | src/core/msg/parse.rs:214-219 | `valid_up_to` lies inside the text and the byte it points at starts no valid sequence (that the prefix before it is valid is `Utf8.ValidPrefix`) |
| Utf8.ValidPrefix | src/core/msg/parse.rs:214-219 | the prefix up to `valid_up_to` is valid UTF-8 |
| Utf8.AsciiIsValid | src/common/core/identifiers.rs:74-76 | ASCII text is valid UTF-8 |

## Left out

- Socket I/O, the async runtime and concurrency are not modelled:
  - `src/server/tokio/dispatch.rs`, `spawn_receiver`, `spawn_transmitter`;
  - the vt6tokio `Server::poll` and `BidiByteStream::poll*`/`poll_write`;
  - the loop of `poll_messages` (only one classification step,
    `Buffers.Classify`, is modelled).
- Other server files are left out because they depend on callbacks and
  connection state not shown: `src/server/core/msg.rs`,
  `src/server/core/handshake.rs`, authentication, environment and
  filesystem helpers, notifications, and the client side.
- Time is not modelled: the `Instant` timestamps of the server state are
  dropped, and only the stream mode is kept.
- `Debug` formatting is not modelled; it only writes diagnostics.
- Application handlers (`Negotiation.Custom`) are known only by their
  answers to `can_use_module`, to property requests and to the messages
  they handle. They do not change the connection.
- The `DecodeArgument` impls for `ModuleVersion`, `ClientID` and
  `Option<&str>` are not part of this model:
  - `ModuleVersions.Decode` is reconstructed from the tests at
    `src/common/core/decode_argument.rs:120-131`;
  - the option codec is an abstract pair of functions that
    `TypedMessages.ServerHelloRoundTrip` and `ClientMakeRoundTrip` assume to
    round-trip.
- `MessageType::ClientHello`, `ParentHello` and `ServerHello` do not exist
  in `src/common/core/identifiers.rs`. The hello decoders therefore compare
  the type's text, and `Wire.Parse` never produces those types.
- `Atom::is_message_type` is not part of this model. It is taken as
  `is_message_type` of the atom's value.
- The module version parser reads the minor version with the integer
  decoder as written, so it inherits the `+` of the first Finding
  (`Identifiers.SignedMinorAccepted`). The major version of a module
  identifier is decoded with `IntCodec.DecodeCanonical`: its first byte is
  a non-zero digit, where the two decoders agree.
- The source iterates over `char`s and the model over bytes. The predicates
  involved test only ASCII, and in UTF-8 no byte of a longer character is
  ASCII, so the two agree.
- Integer widths:
  - `usize` is fixed at 64 bits;
  - the `wrapping_add` in `consume_string_contents` is an explicit
    comparison with the buffer length;
  - `client_id.rs` computes `num + 1` in `u32`, so `ClientIds.EncodeNumber`
    and `ClientIds.SizeForNumber` require `n < u32::MAX`.
- Rust panics are preconditions, not modelled failures:
  - the formatter's arity checks and cursor overflow;
  - `enable_module` of a module already enabled.
- The test at `src/common/core/msg/tests.rs:151-157` expects a 1024-byte
  limit. The formatter has no such limit: with the test's 4096-byte buffer,
  `Formatter.FormatSpec` gives `Ok(2016)`. The model follows the formatter.
- Some parser test vectors are covered by the general lemmas rather than
  one lemma each:
  - `ExpectedMessageCloser`, `ExpectedStringCloser` and
    `ExpectedStringSigil` at `src/common/core/msg/tests.rs:50-55`, by
    `WireVectors.UnexpectedByte`;
  - `DecimalNumberTooLarge` at line 61, by `WireVectors.DecimalAcceptsIff`.
- Contracts that state less than the member does; the lemmas named state
  the rest.
- Wire.ParseHeader: bounds only; see `Wire.ParseRoundTrip` and `Wire.ParseCanonical`.
- Wire.ParseWith: bounds only; see `Wire.ParseRoundTrip` and `Wire.ParseCanonical`.
- Wire.ParseRest: bounds only; see `Wire.ParseRoundTrip` and `Wire.ParseCanonical`.
- Wire.ConsumeItem: bounds only; see `Wire.ConsumedItemIsNetstring`.
- SExpressions.ParseQuoted: bounds and error positions only; the offset of invalid UTF-8 is in `SExpressions.PlainBodyInvalidUtf8` and `SExpressions.InvalidUtf8OffsetAsWrittenTooEarly`, the read-back in `SExpressions.QuotedRoundTrip`.
- SExpressions.ParseQuotedCorrected: bounds and error positions only; see `SExpressions.InvalidUtf8OffsetIsOffendingByte`.
- SExpressions.ParseAtom: bounds only; see `SExpressions.AtomRoundTrip` and the test-vector lemmas.
- SExpressions.ParseSExpression: bounds only; see `SExpressions.SExpressionRoundTrip` and the test-vector lemmas.
- SExpressions.ParseElements: bounds only; see `SExpressions.SExpressionAt`.
- SExpressions.ParseElement: bounds only; see `SExpressions.SExpressionAt`.
- SExpressions.Escape: states only that the text does not shrink; see `SExpressions.QuotedRoundTrip`.
- Identifiers.ParseModuleVersion: the grammar is stated by `Identifiers.ModuleVersionGrammar`.
- Identifiers.ParseScopedIdentifier: the grammar is stated by `Identifiers.ScopedIdentifierGrammar`.
- Identifiers.ParseMessageType: which inputs are accepted is stated by `Identifiers.MessageTypeAccepts` (with `Identifiers.ScopedIdentifierGrammar` for the scoped names), the text round trip by `Identifiers.MessageTypeRoundTrip`.
- Identifiers.MessageTypeText: no ensures of its own; see `Identifiers.MessageTypeRoundTrip`.
- Negotiation.CanUseModule: no ensures of its own; see `Negotiation.LibraryChainAgreement`.
- Utf8.ValidUpTo: its own contract gives only the bounds and the failing byte; the other half of "the longest well-formed prefix", that `s[..valid_up_to]` is valid, is the lemma `Utf8.ValidPrefix`.
- Negotiation.GetSetProperty: no ensures of its own; `Negotiation.HandleSetSub` states that its value is what `core.pub` publishes, and `Negotiation.SetIgnoresRequestedValue` gives that value for the two message-size properties.
- Negotiation.BestOffer: no ensures of its own; see `Negotiation.BestOfferSpec`.
- Negotiation.WantAnswer: no ensures of its own; see `Negotiation.CheckWant`.
- MessageDisplay.Escape: no ensures of its own; see `MessageDisplay.UnescapeEscape`.
- MessageDisplay.DisplayMessage: no ensures of its own; see `MessageDisplay.ArgumentQuotedIff` and `MessageDisplay.UnescapeEscape`.
- RegexNames.IsScopedIdentifier: no ensures of its own; see `RegexNames.ScopedIdentifierShape`.
- RegexNames.IsMessageType: no ensures of its own; see `RegexNames.MessageTypeShape`.
- Buffers.ResyncPoint: no ensures of its own; see `Buffers.ResyncSpec`.
- LegacyWire.Parse: no ensures of its own; see `LegacyWire.ParseClaimsFrame` and `LegacyWire.ParseRoundTrip`.
- QuotedAtoms.AsRef: an accessor with no ensures; see `QuotedAtoms.NewAtom`.
- QuotedAtoms.Display: an accessor with no ensures; see `QuotedAtoms.NewAtom`.

## Findings

| source | as written | input that shows it | evidently intended | confidence | as-written member | corrected member |
|---|---|---|---|---|---|---|
| src/common/core/decode_argument.rs:55-63 | checks for a leading zero only at the first byte, then calls `str::parse`, which also accepts a leading `+` and, for signed types, `-0` | `+5` decodes to 5 as `u8`; `-0` decodes to 0 as `i8`; through `ModuleVersion::parse`, `core1.+5` is version 1.5 (`Identifiers.SignedMinorAccepted`) | only canonical decimals decode (the "forbid leading zeroes" check), so encode and decode are inverse both ways | medium; not executed | IntCodec.DecodeAcceptsSignedForms | IntCodec.DecodeCanonicalIff |
| src/core/msg/mod.rs:399-402 | `Display` writes `({}.{}` with module and name, and for eternal types the module is `""` | the `want core 1 2` frame has `type_name` `("", "want")` and displays as `(.want core 1 2)` | `(want core 1 2)`, the type's own text, as the newer revision prints | high; not executed | MessageDisplay.EternalTypeShownWithDot | MessageDisplay.TypeNameTextRoundTrip |
| src/core/msg/parse.rs:197-219 | the InvalidUTF8 offset is the opening quote plus one plus `valid_up_to` of the unescaped value, so every earlier escape shifts it back by one | `"`, `\`, `\`, byte 0x80, `"`: reported at offset 2, a backslash; the offending byte is at 3 | the offset of the first invalid byte, as the non-escaped case gives | high; not executed | SExpressions.InvalidUtf8OffsetAsWrittenTooEarly | SExpressions.InvalidUtf8OffsetIsOffendingByte |
| src/msg/atom.rs:86-95 | `add_quotes` returns the value bare whenever it holds no `\` or `"`, whatever else it holds | `a b` is encoded as `a b`, which reads back as atom `a` then ExpectedEOF at 1; the empty value is encoded as nothing | quote every value that is not a non-empty bareword, so that the encoding reads back as the value | medium; not executed | QuotedAtoms.AsWrittenDoesNotReadBack | QuotedAtoms.AddQuotesRoundTrip |
