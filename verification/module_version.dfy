/** `ModuleVersion` (a `<full-version>` such as "2.3" in section 1.5 of
    vt6/core1.0): two `u16` numbers, ordered lexicographically, encoded as
    `major.minor`. */
module ModuleVersions {
  import opened Wrappers
  import opened Bytes
  import opened Decimal
  import IntCodec

  type U16 = x: nat | x <= U16_MAX

  datatype ModuleVersion = ModuleVersion(major: U16, minor: U16)

  datatype Ordering = Less | Equal | Greater

  function CompareNat(a: nat, b: nat): Ordering {
    if a < b then Less else if a == b then Equal else Greater
  }

  /** The derived `Ord`: fields compared in declaration order. */
  function Compare(a: ModuleVersion, b: ModuleVersion): (r: Ordering)
    ensures r == Equal <==> a == b
    ensures r == Less <==> a.major < b.major || (a.major == b.major && a.minor < b.minor)
  {
    if a.major != b.major then CompareNat(a.major, b.major) else CompareNat(a.minor, b.minor)
  }

  /** A single number that orders versions like `Compare` does. */
  function Key(v: ModuleVersion): nat {
    v.major * (U16_MAX + 1) + v.minor
  }

  /** The lexicographic order is the numeric order of `Key`: a total order. */
  lemma CompareIsKeyOrder(a: ModuleVersion, b: ModuleVersion)
    ensures Compare(a, b) == CompareNat(Key(a), Key(b))
  {
    if a.major < b.major {
      assert Key(a) < (a.major + 1) * (U16_MAX + 1) <= Key(b);
    } else if a.major > b.major {
      assert Key(b) < (b.major + 1) * (U16_MAX + 1) <= Key(a);
    }
  }

  /** What `Display` writes: `major.minor`. */
  function Display(v: ModuleVersion): Bytes {
    NatToDecimal(v.major) + ['.'] + NatToDecimal(v.minor)
  }

  /** `EncodeArgument::get_size`. */
  method GetSize(v: ModuleVersion) returns (size: nat)
    ensures size == |Display(v)|
  {
    var majorSize := IntCodec.GetSize(v.major, IntCodec.U16);
    var minorSize := IntCodec.GetSize(v.minor, IntCodec.U16);
    size := majorSize + 1 + minorSize;
  }

  /** `EncodeArgument::encode`: the major number, a dot at index
      `major.get_size()`, then the minor number. */
  method Encode(v: ModuleVersion) returns (buf: Bytes)
    ensures buf == Display(v)
    ensures buf[|NatToDecimal(v.major)|] == '.'
  {
    var major := IntCodec.Encode(v.major, IntCodec.U16);
    var minor := IntCodec.Encode(v.minor, IntCodec.U16);
    buf := major + ['.'] + minor;
  }

  /** `ModuleVersion::decode`, whose implementation is not part of this
      model: reconstructed as two canonical `u16` numerals around the first
      dot. */
  function Decode(arg: Bytes): (r: Option<ModuleVersion>)
    ensures r.Some? ==> arg == Display(r.value)
  {
    var dot := Find(arg, '.');
    if dot < 0 then None
    else
      var major := IntCodec.DecodeCanonical(arg[..dot], IntCodec.U16);
      var minor := IntCodec.DecodeCanonical(arg[dot + 1..], IntCodec.U16);
      if major.None? || minor.None? then None
      else
        var v := ModuleVersion(major.value, minor.value);
        JoinAtDot(arg, dot, v);
        Some(v)
  }

  /** The two halves around the dot are the numerals of `v`. */
  lemma JoinAtDot(arg: Bytes, dot: int, v: ModuleVersion)
    requires 0 <= dot < |arg| && arg[dot] == '.'
    requires arg[..dot] == IntCodec.Display(v.major) && arg[dot + 1..] == IntCodec.Display(v.minor)
    ensures arg == Display(v)
  {
    assert arg == arg[..dot] + ['.'] + arg[dot + 1..];
  }

  lemma DecodeEncode(v: ModuleVersion)
    ensures Decode(Display(v)) == Some(v)
  {
    var s := Display(v);
    var n := |NatToDecimal(v.major)|;
    FindAfterDigits(NatToDecimal(v.major), NatToDecimal(v.minor));
    assert s[..n] == NatToDecimal(v.major);
    assert s[n + 1..] == NatToDecimal(v.minor);
    IntCodec.DecodeEncode(v.major, IntCodec.U16);
    IntCodec.DecodeEncode(v.minor, IntCodec.U16);
  }

  lemma FindAfterDigits(a: Bytes, b: Bytes)
    requires AllDigits(a)
    ensures Find(a + ['.'] + b, '.') == |a|
  {
    var s := a + ['.'] + b;
    assert s[|a|] == '.';
    assert forall i :: 0 <= i < |a| ==> s[i] == a[i];
    FindAt(s, '.', |a|);
  }

  /** The failing inputs of the decoder's test suite. */
  lemma DecodeRejectsTestVectors()
    ensures Decode("").None?
    ensures Decode("1").None?
    ensures Decode("1.").None?
    ensures Decode(".1").None?
    ensures Decode("1.2.3").None?
    ensures Decode(".1.2").None?
    ensures Decode("1.2.").None?
    ensures Decode("1..2").None?
    ensures Decode("1.abc").None?
  {
    EmptyHalfRejected("1.", 1);
    EmptyHalfRejected(".1", 0);
    EmptyHalfRejected(".1.2", 0);
    RightHalfRejected("1.2.3", "2.3", 1);
    RightHalfRejected("1.2.", "2.", 1);
    RightHalfRejected("1..2", ".2", 0);
    RightHalfRejected("1.abc", "abc", 0);
  }

  lemma EmptyHalfRejected(arg: Bytes, dot: nat)
    requires Find(arg, '.') == dot && (dot == 0 || dot == |arg| - 1)
    ensures Decode(arg).None?
  {
    assert IntCodec.Decode([], IntCodec.U16).None?;
    if dot == 0 {
      assert arg[..dot] == [];
    } else {
      assert arg[dot + 1..] == [];
    }
  }

  lemma RightHalfRejected(arg: Bytes, right: Bytes, bad: nat)
    requires |arg| > 2 && arg[1] == '.' && arg[0] != '.' && arg[2..] == right
    requires bad < |right| && !IsDigit(right[bad]) && (bad == 0 ==> |right| > 1 && right[0] != '+' && right[0] != '-')
    ensures Decode(arg).None?
  {
    assert Find(arg, '.') == 1;
    IntCodec.NonDigitRejected(right, bad, IntCodec.U16);
  }
}
