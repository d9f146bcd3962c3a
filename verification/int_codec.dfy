/** The argument encodings of section 2.4 of vt6/core1.0 for booleans and
    integers: `EncodeArgument` (decimal digits written right to left from the
    two's-complement magnitude) and `DecodeArgument` (leading-zero check, then
    Rust's `str::parse`). */
module IntCodec {
  import opened Wrappers
  import opened Bytes
  import opened Decimal
  import Utf8

  /** The Rust integer types the codec is implemented for. */
  datatype IntType = I8 | U8 | I16 | U16 | I32 | U32 | I64 | U64 | I128 | U128 | Isize | Usize {
    predicate Signed() { this in {I8, I16, I32, I64, I128, Isize} }

    function Width(): nat {
      match this
      case I8 | U8 => 8
      case I16 | U16 => 16
      case I32 | U32 => 32
      case I64 | U64 | Isize | Usize => 64
      case I128 | U128 => 128
    }

    function Min(): int {
      match this
      case I8 => -0x80
      case I16 => -0x8000
      case I32 => -0x8000_0000
      case I64 | Isize => -0x8000_0000_0000_0000
      case I128 => -0x8000_0000_0000_0000_0000_0000_0000_0000
      case _ => 0
    }

    function Max(): int {
      match this
      case I8 => 0x7F
      case U8 => 0xFF
      case I16 => 0x7FFF
      case U16 => 0xFFFF
      case I32 => 0x7FFF_FFFF
      case U32 => 0xFFFF_FFFF
      case I64 | Isize => 0x7FFF_FFFF_FFFF_FFFF
      case U64 | Usize => 0xFFFF_FFFF_FFFF_FFFF
      case I128 => 0x7FFF_FFFF_FFFF_FFFF_FFFF_FFFF_FFFF_FFFF
      case U128 => 0xFFFF_FFFF_FFFF_FFFF_FFFF_FFFF_FFFF_FFFF
    }

    /** 2^w for the type `$t_conv` the encoder computes in: `u32` for the
        types up to 32 bits, `u64` for the 64-bit ones, `u128` for the
        128-bit ones. */
    function ConvModulus(): nat {
      match this
      case I8 | U8 | I16 | U16 | I32 | U32 => 0x1_0000_0000
      case I64 | U64 | Isize | Usize => 0x1_0000_0000_0000_0000
      case I128 | U128 => 0x1_0000_0000_0000_0000_0000_0000_0000_0000
    }

    predicate Contains(x: int) { Min() <= x <= Max() }
  }

  /** What Rust's `Display` writes for an integer. */
  function Display(x: int): (s: Bytes)
    ensures |s| >= 1
  {
    if x < 0 then ['-'] + NatToDecimal(-x) else NatToDecimal(x)
  }

  /** `val` as the encoder computes it: `x as $t_conv` for non-negative `x`,
      else `(!(x as $t_conv)).wrapping_add(1)`, with the cast, the bitwise
      negation and the wrapping addition written out on `ConvModulus`. */
  function Magnitude(x: int, t: IntType): (m: nat)
    requires t.Contains(x)
    ensures m == if x < 0 then -x else x
  {
    var m := t.ConvModulus();
    var cast := x % m;
    if x >= 0 then cast
    else
      var inverted := m - 1 - cast;
      (inverted + 1) % m
  }

  /** `EncodeArgument::get_size` for integers. */
  method GetSize(x: int, t: IntType) returns (size: nat)
    requires t.Contains(x)
    ensures size == |Display(x)|
  {
    var isNonnegative := x >= 0;
    var val := Magnitude(x, t);
    ghost var mag := val;
    var result := 1;
    while val > 9
      invariant result + |NatToDecimal(val)| == 1 + |NatToDecimal(mag)|
      decreases val
    {
      result := result + 1;
      val := val / 10;
    }
    size := result + if isNonnegative then 0 else 1;
  }

  /** `EncodeArgument::encode` for integers: fills a buffer of exactly
      `get_size` bytes from the right. */
  method Encode(x: int, t: IntType) returns (buf: Bytes)
    requires t.Contains(x)
    ensures buf == Display(x)
  {
    var isNonnegative := x >= 0;
    var size := GetSize(x, t);
    var val := Magnitude(x, t);
    var a, idx := WriteDigits(val, size, if isNonnegative then 0 else 1);
    if isNonnegative {
      assert a == a[idx..];
    } else {
      assert a[0 := '-'] == ['-'] + a[1..];
      a := a[0 := '-'];
    }
    buf := a;
  }

  /** The digit loop of `encode`: writes the digits of `mag` right to left
      into a buffer of `size` bytes and stops at index `sign`. */
  method WriteDigits(mag: nat, size: nat, sign: nat) returns (a: Bytes, idx: nat)
    requires size == sign + |NatToDecimal(mag)|
    ensures |a| == size && idx == sign
    ensures a[idx..] == NatToDecimal(mag)
  {
    a := seq(size, _ => '\0');
    var val := mag;
    idx := size - 1;
    while val > 9
      invariant |a| == size
      invariant 0 <= idx < size
      invariant idx + 1 == sign + |NatToDecimal(val)|
      invariant NatToDecimal(val) + a[idx + 1..] == NatToDecimal(mag)
      decreases val
    {
      var d := DigitByte(val % 10);
      assert NatToDecimal(val) == NatToDecimal(val / 10) + [d];
      assert a[idx := d][idx..] == [d] + a[idx + 1..];
      a := a[idx := d];
      val := val / 10;
      idx := idx - 1;
    }
    var d := DigitByte(val % 10);
    assert a[idx := d][idx..] == [d] + a[idx + 1..];
    a := a[idx := d];
  }

  /** Rust's `str::parse` for the integer type `t`: an optional `+` (or `-`
      for signed types) that must be followed by at least one digit, then
      ASCII digits, and a value within range. */
  function RustParse(s: Bytes, t: IntType): (r: Option<int>)
    ensures r.Some? ==> t.Contains(r.value)
  {
    if |s| == 0 then None
    else if (s[0] == '+' || s[0] == '-') && |s| == 1 then None
    else
      var negative := s[0] == '-' && t.Signed();
      var digits := if s[0] == '+' || negative then s[1..] else s;
      if !AllDigits(digits) then None
      else
        var v: int := if negative then 0 - DecimalValue(digits) else DecimalValue(digits);
        if t.Contains(v) then Some(v) else None
  }

  /** `DecodeArgument::decode` for integers. */
  function Decode(arg: Bytes, t: IntType): (r: Option<int>)
    ensures r.Some? ==> t.Contains(r.value)
    ensures |arg| > 1 && arg[0] == '0' ==> r.None?
    ensures r.Some? && |arg| > 0 && IsDigit(arg[0]) ==> arg == Display(r.value)
  {
    if |arg| == 0 then None
    else if arg != "0" && arg[0] == '0' then None
    else if !Utf8.Valid(arg) then None
    else
      var r := RustParse(arg, t);
      if r.Some? && IsDigit(arg[0]) then
        CanonicalRoundTrip(arg);
        r
      else r
  }

  /** `DecodeArgument::decode` for `bool`. */
  function DecodeBool(arg: Bytes): (r: Option<bool>)
    ensures r == Some(true) <==> arg == "t"
    ensures r == Some(false) <==> arg == "f"
    ensures r.None? <==> arg != "t" && arg != "f"
  {
    if arg == "t" then Some(true) else if arg == "f" then Some(false) else None
  }

  /** Decoding inverts encoding for every value of every integer type. */
  lemma DecodeEncode(x: int, t: IntType)
    requires t.Contains(x)
    ensures Decode(Display(x), t) == Some(x)
  {
    assert Utf8.Valid(Display(x)) by {
      Utf8.AsciiIsValid(Display(x));
    }
    if x < 0 {
      ParseNegative(x, t);
    } else {
      NatToDecimalIsCanonical(x);
      ParseNonNegative(x, t);
    }
  }

  lemma ParseNegative(x: int, t: IntType)
    requires t.Contains(x) && x < 0
    ensures RustParse(Display(x), t) == Some(x)
  {
    var s := Display(x);
    assert s[0] == '-' && |s| > 1 && t.Signed();
    assert s[1..] == NatToDecimal(-x);
    DecimalRoundTrip(-x);
    ParseMinusDigits(s, x, t);
  }

  lemma ParseMinusDigits(s: Bytes, x: int, t: IntType)
    requires |s| > 1 && s[0] == '-' && t.Signed() && t.Contains(x) && x < 0
    requires AllDigits(s[1..]) && DecimalValue(s[1..]) == -x
    ensures RustParse(s, t) == Some(x)
  {
  }

  lemma ParseNonNegative(x: int, t: IntType)
    requires t.Contains(x) && x >= 0
    ensures RustParse(Display(x), t) == Some(x)
  {
    DecimalRoundTrip(x);
  }

  /** Two different values never share an encoding. */
  lemma DisplayInjective(x: int, y: int)
    requires Display(x) == Display(y)
    ensures x == y
  {
    if x < 0 && y < 0 {
      assert Display(x)[1..] == NatToDecimal(-x);
      assert Display(y)[1..] == NatToDecimal(-y);
      NatToDecimalInjective(-x, -y);
    } else if x >= 0 && y >= 0 {
      NatToDecimalInjective(x, y);
    }
  }

  /** The failing inputs of the decoder's test suite that are not numerals
      fail for every type: the empty argument, non-digits, an overlong
      UTF-8 encoding of "1" and leading whitespace. */
  lemma DecodeRejectsTestVectors(t: IntType)
    ensures Decode("", t).None?
    ensures Decode("unknown", t).None?
    ensures Decode("\U{C0}\U{B1}", t).None?
    ensures Decode(" 42", t).None?
  {
    assert Decode("", t).None?;
    NonDigitRejected("unknown", 0, t);
    NonDigitRejected("\U{C0}\U{B1}", 0, t);
    NonDigitRejected(" 42", 0, t);
  }

  /** The test suite's numerals with leading zeroes fail for every type. */
  lemma DecodeRejectsLeadingZeroVectors(t: IntType)
    ensures Decode("042", t).None?
    ensures Decode("0042", t).None?
  {
    LeadingZeroRejected("042", t);
    LeadingZeroRejected("0042", t);
  }

  /** A numeral of two or more bytes that starts with `0` does not decode. */
  lemma LeadingZeroRejected(s: Bytes, t: IntType)
    requires |s| > 1 && s[0] == '0'
    ensures Decode(s, t).None?
  {
  }

  /** An argument with a byte other than a digit, apart from a leading
      sign, does not decode. */
  lemma NonDigitRejected(s: Bytes, bad: nat, t: IntType)
    requires bad < |s| && !IsDigit(s[bad])
    requires bad == 0 ==> s[0] != '+' && s[0] != '-'
    ensures Decode(s, t).None?
  {
  }

  /** Rust's parser lets a leading `+` through, so the decoder as written
      is not canonical: "+5" decodes like "5", and "-0" like "0". */
  lemma DecodeAcceptsSignedForms()
    ensures Decode("+5", U8) == Some(5)
    ensures Decode("-0", I8) == Some(0)
    ensures Decode("-5", U8).None?
  {
    Utf8.AsciiIsValid("+5");
    Utf8.AsciiIsValid("-0");
    assert "+5"[1..] == "5";
    assert "-0"[1..] == "0";
    assert DecimalValue("5") == 5;
    assert DecimalValue("0") == 0;
    assert !IsDigit("-5"[0]);
  }

  /** The texts the decoder as written accepts for a value `x` of an
      unsigned type: the numeral of `x`, or a `+` followed by any run of
      digits worth `x`, leading zeros included. */
  predicate UnsignedText(s: Bytes, x: nat) {
    || s == NatToDecimal(x)
    || (|s| >= 2 && s[0] == '+' && AllDigits(s[1..]) && DecimalValue(s[1..]) == x)
  }

  /** For unsigned types the decoder as written yields `x` exactly on the
      texts `UnsignedText` describes. */
  lemma DecodeUnsignedIff(s: Bytes, x: int, t: IntType)
    requires !t.Signed()
    ensures Decode(s, t) == Some(x) <==> 0 <= x && t.Contains(x) && UnsignedText(s, x)
  {
    if Decode(s, t) == Some(x) {
      DecodedUnsigned(s, x, t);
    }
    if 0 <= x && t.Contains(x) && UnsignedText(s, x) {
      if s == NatToDecimal(x) {
        DecodeEncode(x, t);
      } else {
        PlusDigitsDecode(s, x, t);
      }
    }
  }

  lemma DecodedUnsigned(s: Bytes, x: int, t: IntType)
    requires !t.Signed() && Decode(s, t) == Some(x)
    ensures 0 <= x && t.Contains(x) && UnsignedText(s, x)
  {
    assert t.Min() == 0;
  }

  lemma PlusDigitsDecode(s: Bytes, x: nat, t: IntType)
    requires !t.Signed() && t.Contains(x)
    requires |s| >= 2 && s[0] == '+' && AllDigits(s[1..]) && DecimalValue(s[1..]) == x
    ensures Decode(s, t) == Some(x)
  {
    forall i | 0 <= i < |s|
      ensures IsAscii(s[i])
    {
      if i > 0 {
        assert s[i] == s[1..][i - 1];
      }
    }
    Utf8.AsciiIsValid(s);
    assert s != "0";
  }

  /** The decoder with the leading-zero rule applied to the whole numeral:
      it accepts exactly the encodings of in-range values. */
  function DecodeCanonical(arg: Bytes, t: IntType): (r: Option<int>)
    ensures r.Some? ==> t.Contains(r.value) && arg == Display(r.value)
  {
    var r := Decode(arg, t);
    if r.Some? && arg == Display(r.value) then r else None
  }

  /** `DecodeCanonical` and `Display` are inverse bijections between the
      values of `t` and their numerals. */
  lemma DecodeCanonicalIff(arg: Bytes, x: int, t: IntType)
    ensures DecodeCanonical(arg, t) == Some(x) <==> t.Contains(x) && arg == Display(x)
  {
    if t.Contains(x) && arg == Display(x) {
      DecodeEncode(x, t);
    }
  }
}
