/** Client IDs relative to a base client ID: a suffix naming the client
    itself, a local helper, a job or a child of a job, appended to the base
    as self-delimiting codewords over `[0-9A-Za-z]`. */
module ClientIds {
  import opened Wrappers
  import opened Bytes
  import Identifiers

  /** `LOOKUP_TABLE[m]`: digits, then capital letters, then small letters. */
  function Lookup(m: nat): (b: Byte)
    requires m < 62
    ensures IsAsciiAlphanumeric(b)
  {
    if m < 10 then ('0' as int + m) as char
    else if m < 36 then ('A' as int + m - 10) as char
    else ('a' as int + m - 36) as char
  }

  /** The position of a byte in the table, if it is there. */
  function LookupIndex(b: Byte): (r: Option<nat>)
    ensures r.Some? ==> r.value < 62 && Lookup(r.value) == b
  {
    if '0' <= b <= '9' then Some(b as int - '0' as int)
    else if 'A' <= b <= 'Z' then Some(b as int - 'A' as int + 10)
    else if 'a' <= b <= 'z' then Some(b as int - 'a' as int + 36)
    else None
  }

  lemma LookupIndexInverse(m: nat)
    requires m < 62
    ensures LookupIndex(Lookup(m)) == Some(m)
  {
  }

  /** `ClientIDSuffix`. The numbers are `u32`. */
  datatype ClientIdSuffix = Own | Local(i: nat) | Job(i: nat) | Child(job: nat, child: nat)

  /** Every number is below `u32::MAX`, since the encoder computes `n + 1`
      in `u32`. */
  predicate ValidSuffix(s: ClientIdSuffix) {
    match s
    case Own => true
    case Local(i) => i < U32_MAX
    case Job(i) => i < U32_MAX
    case Child(i, j) => i < U32_MAX && j < U32_MAX
  }

  /** `RelativeClientID`: a base client ID and a suffix. */
  datatype RelativeClientId = RelativeClientId(base: Identifiers.ClientId, suffix: ClientIdSuffix)

  /** `ClientIDSuffix::below`. */
  function Below(suffix: ClientIdSuffix, base: Identifiers.ClientId): (r: RelativeClientId)
    ensures r.base == base && r.suffix == suffix
  {
    RelativeClientId(base, suffix)
  }

  // ---------------------------------------------------------------------
  // Codewords

  /** The codeword for `m = n + 1`: one `z` per 61 that fits, then the
      table entry for what is left. */
  function Codeword(m: nat): (r: Bytes)
    ensures |r| >= 1
    ensures r[|r| - 1] != 'z'
    decreases m
  {
    if m >= 61 then ['z'] + Codeword(m - 61) else [Lookup(m)]
  }

  /** `get_size_for_number`. */
  function SizeForNumber(n: nat): (size: nat)
    requires n < U32_MAX
    ensures size == |Codeword(n + 1)|
  {
    CodewordLength(n + 1);
    1 + (n + 1) / 61
  }

  /** A codeword has one `z` for every 61 of its value, then one more
      byte. */
  lemma {:induction false} CodewordLength(m: nat)
    ensures |Codeword(m)| == 1 + m / 61
    decreases m
  {
    if m >= 61 {
      CodewordLength(m - 61);
    }
  }

  /** `encode_number`, into a buffer of `SizeForNumber(n)` bytes: each byte
      is `z` while 61 or more is left, else the table entry. */
  method EncodeNumber(n: nat, size: nat) returns (buf: Bytes)
    requires n < U32_MAX && size == SizeForNumber(n)
    ensures buf == Codeword(n + 1)
  {
    var m: nat := n + 1;
    buf := [];
    var i := 0;
    CodewordLength(n + 1);
    while i < size
      invariant 0 <= i <= size && |buf| == i
      invariant i < size ==> buf + Codeword(m) == Codeword(n + 1) && size - i == 1 + m / 61
      invariant i == size ==> buf == Codeword(n + 1)
    {
      if m >= 61 {
        ZStep(buf, m);
        buf := buf + ['z'];
        m := m - 61;
      } else {
        LastStep(buf, m, Codeword(n + 1));
        buf := buf + [Lookup(m)];
      }
      i := i + 1;
    }
  }

  /** One step of `encode_number` on 61 or more: a `z` moves from the
      codeword to the buffer. */
  lemma ZStep(buf: Bytes, m: nat)
    requires m >= 61
    ensures buf + Codeword(m) == (buf + ['z']) + Codeword(m - 61)
  {
    assert Codeword(m) == ['z'] + Codeword(m - 61);
  }

  /** The last step of `encode_number`: the table entry completes the
      codeword. */
  lemma LastStep(buf: Bytes, m: nat, whole: Bytes)
    requires m < 61 && buf + Codeword(m) == whole
    ensures buf + [Lookup(m)] == whole
  {
    assert Codeword(m) == [Lookup(m)];
  }

  /** The suffix's bytes: `0` and the codeword of a local index, the
      codeword of a job index, or the codewords of a job and a child
      index. */
  function SuffixBytes(s: ClientIdSuffix): Bytes
    requires ValidSuffix(s)
  {
    match s
    case Own => []
    case Local(i) => ['0'] + Codeword(i + 1)
    case Job(i) => Codeword(i + 1)
    case Child(i, j) => Codeword(i + 1) + Codeword(j + 1)
  }

  /** `ClientIDSuffix::get_size`. */
  function SuffixSize(s: ClientIdSuffix): (size: nat)
    requires ValidSuffix(s)
    ensures size == |SuffixBytes(s)|
  {
    match s
    case Own => 0
    case Local(i) => LocalSize(i); 1 + SizeForNumber(i)
    case Job(i) => SizeForNumber(i)
    case Child(i, j) => ChildSize(i, j); SizeForNumber(i) + SizeForNumber(j)
  }

  lemma LocalSize(i: nat)
    requires i < U32_MAX
    ensures 1 + SizeForNumber(i) == |SuffixBytes(Local(i))|
  {
    assert SuffixBytes(Local(i)) == ['0'] + Codeword(i + 1);
  }

  lemma ChildSize(i: nat, j: nat)
    requires i < U32_MAX && j < U32_MAX
    ensures SizeForNumber(i) + SizeForNumber(j) == |SuffixBytes(Child(i, j))|
  {
    assert SuffixBytes(Child(i, j)) == Codeword(i + 1) + Codeword(j + 1);
  }

  /** `EncodeArgument for RelativeClientID`: the base, then the suffix. */
  function Encode(r: RelativeClientId): (e: Bytes)
    requires ValidSuffix(r.suffix)
    ensures |e| >= |r.base.source| && e[..|r.base.source|] == r.base.source
  {
    r.base.source + SuffixBytes(r.suffix)
  }

  /** `RelativeClientID::get_size`. */
  function GetSize(r: RelativeClientId): (size: nat)
    requires ValidSuffix(r.suffix)
    ensures size == |Encode(r)|
  {
    |r.base.source| + SuffixSize(r.suffix)
  }

  // ---------------------------------------------------------------------
  // Reading codewords back

  /** Reads one codeword: the value `61 * k + v` of `k` times `z` and a
      final byte with table index `v`, and the number of bytes read. */
  function ReadCodeword(s: Bytes): (r: Option<(nat, nat)>)
    ensures r.Some? ==> 1 <= r.value.1 <= |s| && s[..r.value.1] == Codeword(r.value.0)
    decreases |s|
  {
    if |s| == 0 then None
    else if s[0] == 'z' then
      match ReadCodeword(s[1..])
      case None => None
      case Some((m, c)) =>
        assert s[..c + 1] == ['z'] + s[1..][..c];
        Some((m + 61, c + 1))
    else
      match LookupIndex(s[0])
      case None => None
      case Some(v) => Some((v, 1))
  }

  /** One number: a codeword other than the unused `0`, whose value less
      one fits `u32` and is not `u32::MAX`. */
  function ReadNumber(s: Bytes): (r: Option<(nat, nat)>)
    ensures r.Some? ==> r.value.0 < U32_MAX && 1 <= r.value.1 <= |s| && s[..r.value.1] == Codeword(r.value.0 + 1)
  {
    match ReadCodeword(s)
    case None => None
    case Some((m, c)) => if 1 <= m <= U32_MAX then Some((m - 1, c)) else None
  }

  lemma {:induction false} ReadCodewordOf(m: nat, rest: Bytes)
    ensures ReadCodeword(Codeword(m) + rest) == Some((m, |Codeword(m)|))
    decreases m
  {
    var s := Codeword(m) + rest;
    if m >= 61 {
      assert s[0] == 'z' && s[1..] == Codeword(m - 61) + rest;
      ReadCodewordOf(m - 61, rest);
    } else {
      LookupIndexInverse(m);
    }
  }

  /** Reads a whole suffix back, or None when the bytes are not one. */
  function DecodeSuffix(s: Bytes): (r: Option<ClientIdSuffix>)
    ensures r.Some? ==> ValidSuffix(r.value)
  {
    if |s| == 0 then Some(Own)
    else if s[0] == '0' then
      match ReadNumber(s[1..])
      case Some((n, c)) => if c == |s| - 1 then Some(Local(n)) else None
      case None => None
    else
      match ReadNumber(s)
      case None => None
      case Some((i, c)) =>
        if c == |s| then Some(Job(i))
        else
          match ReadNumber(s[c..])
          case Some((j, d)) => if c + d == |s| then Some(Child(i, j)) else None
          case None => None
  }

  /** The codewords are self-delimiting: the suffix can be read back from
      its bytes alone. */
  lemma DecodeSuffixBytes(s: ClientIdSuffix)
    requires ValidSuffix(s)
    ensures DecodeSuffix(SuffixBytes(s)) == Some(s)
  {
    match s
    case Own => assert SuffixBytes(s) == [];
    case Local(i) => DecodeLocal(i);
    case Job(i) => DecodeJob(i);
    case Child(i, j) => DecodeChild(i, j);
  }

  lemma DecodeLocal(i: nat)
    requires i < U32_MAX
    ensures DecodeSuffix(SuffixBytes(Local(i))) == Some(Local(i))
  {
    var a := Codeword(i + 1);
    var s := ['0'] + a;
    assert SuffixBytes(Local(i)) == s;
    assert ReadNumber(s[1..]) == Some((i, |a|)) by {
      assert s[1..] == a + [];
      ReadNumberOf(i, []);
    }
    DecodeLocalSteps(s, i);
  }

  lemma DecodeJob(i: nat)
    requires i < U32_MAX
    ensures DecodeSuffix(SuffixBytes(Job(i))) == Some(Job(i))
  {
    var a := Codeword(i + 1);
    assert SuffixBytes(Job(i)) == a;
    assert a[0] != '0' by {
      CodewordHead(i + 1);
    }
    assert ReadNumber(a) == Some((i, |a|)) by {
      assert a + [] == a;
      ReadNumberOf(i, []);
    }
    DecodeJobSteps(a, i);
  }

  lemma DecodeChild(i: nat, j: nat)
    requires i < U32_MAX && j < U32_MAX
    ensures DecodeSuffix(SuffixBytes(Child(i, j))) == Some(Child(i, j))
  {
    var a := Codeword(i + 1);
    var b := Codeword(j + 1);
    var s := a + b;
    assert SuffixBytes(Child(i, j)) == s;
    ChildFirstNumber(a, b, i);
    ChildSecondNumber(a, b, j);
    DecodeTwo(s, i, |a|, j, |b|);
  }

  lemma ChildFirstNumber(a: Bytes, b: Bytes, i: nat)
    requires i < U32_MAX && a == Codeword(i + 1)
    ensures 0 < |a| < |a + b| || b == []
    ensures (a + b)[0] != '0' && ReadNumber(a + b) == Some((i, |a|))
  {
    CodewordHead(i + 1);
    assert (a + b)[0] == a[0];
    ReadNumberOf(i, b);
  }

  lemma ChildSecondNumber(a: Bytes, b: Bytes, j: nat)
    requires j < U32_MAX && b == Codeword(j + 1)
    ensures |a| < |a + b| && ReadNumber((a + b)[|a|..]) == Some((j, |b|))
  {
    assert (a + b)[|a|..] == b + [];
    ReadNumberOf(j, []);
  }

  lemma ReadNumberOf(n: nat, rest: Bytes)
    requires n < U32_MAX
    ensures ReadNumber(Codeword(n + 1) + rest) == Some((n, |Codeword(n + 1)|))
  {
    ReadCodewordOf(n + 1, rest);
  }

  /** The steps `DecodeSuffix` takes on a local suffix: `0`, then one
      number that ends the bytes. */
  lemma DecodeLocalSteps(s: Bytes, i: nat)
    requires 0 < |s| && s[0] == '0' && ReadNumber(s[1..]) == Some((i, |s| - 1))
    ensures DecodeSuffix(s) == Some(Local(i))
  {
  }

  /** The steps `DecodeSuffix` takes on a job suffix: one number that ends
      the bytes. */
  lemma DecodeJobSteps(s: Bytes, i: nat)
    requires 0 < |s| && s[0] != '0' && ReadNumber(s) == Some((i, |s|))
    ensures DecodeSuffix(s) == Some(Job(i))
  {
  }

  lemma DecodeTwo(s: Bytes, i: nat, c: nat, j: nat, d: nat)
    requires 0 < c < |s| && s[0] != '0'
    requires ReadNumber(s) == Some((i, c)) && ReadNumber(s[c..]) == Some((j, d)) && c + d == |s|
    ensures DecodeSuffix(s) == Some(Child(i, j))
  {
  }

  /** Different suffixes never encode to the same bytes. */
  lemma SuffixBytesInjective(s: ClientIdSuffix, t: ClientIdSuffix)
    requires ValidSuffix(s) && ValidSuffix(t) && SuffixBytes(s) == SuffixBytes(t)
    ensures s == t
  {
    DecodeSuffixBytes(s);
    DecodeSuffixBytes(t);
  }

  // ---------------------------------------------------------------------
  // Properties of the encoding

  /** Codeword 0 is never used, so the codeword of a number never begins
      with `0`: a suffix begins with `0` exactly when it is a local one. */
  lemma LocalIffLeadingZero(s: ClientIdSuffix)
    requires ValidSuffix(s) && s != Own
    ensures |SuffixBytes(s)| >= 1
    ensures SuffixBytes(s)[0] == '0' <==> s.Local?
  {
    match s
    case Local(i) =>
    case Job(i) => CodewordHead(i + 1);
    case Child(i, j) => CodewordHead(i + 1);
  }

  lemma CodewordHead(m: nat)
    requires m >= 1
    ensures Codeword(m)[0] != '0'
  {
  }

  /** `Own.below(base)` encodes as the base itself. */
  lemma OwnIsBase(base: Identifiers.ClientId)
    ensures Encode(Below(Own, base)) == base.source
  {
    assert base.source + [] == base.source;
  }

  /** A relative client ID is still a client ID: its bytes are all from
      `[0-9A-Za-z]`. */
  lemma EncodedIsClientId(r: RelativeClientId)
    requires ValidSuffix(r.suffix) && Identifiers.ParseClientId(r.base.source).Some?
    ensures Identifiers.ParseClientId(Encode(r)) == Some(Identifiers.ClientId(Encode(r)))
  {
    var b := r.base.source;
    SuffixIsAlphanumeric(r.suffix);
    AlphanumericConcat(b, SuffixBytes(r.suffix));
  }

  predicate AllAlphanumeric(s: Bytes) {
    forall i | 0 <= i < |s| :: IsAsciiAlphanumeric(s[i])
  }

  lemma AlphanumericConcat(a: Bytes, b: Bytes)
    requires AllAlphanumeric(a) && AllAlphanumeric(b)
    ensures AllAlphanumeric(a + b)
  {
    forall i | 0 <= i < |a + b| ensures IsAsciiAlphanumeric((a + b)[i]) {
      if i >= |a| {
        assert (a + b)[i] == b[i - |a|];
      }
    }
  }

  lemma SuffixIsAlphanumeric(s: ClientIdSuffix)
    requires ValidSuffix(s)
    ensures AllAlphanumeric(SuffixBytes(s))
  {
    match s
    case Own =>
    case Local(n) => ZeroThenCodeword(n + 1);
    case Job(n) => CodewordIsAlphanumeric(n + 1);
    case Child(n1, n2) => TwoCodewords(n1 + 1, n2 + 1);
  }

  lemma ZeroThenCodeword(m: nat)
    ensures AllAlphanumeric(['0'] + Codeword(m))
  {
    CodewordIsAlphanumeric(m);
    AlphanumericConcat(['0'], Codeword(m));
  }

  lemma TwoCodewords(m1: nat, m2: nat)
    ensures AllAlphanumeric(Codeword(m1) + Codeword(m2))
  {
    CodewordIsAlphanumeric(m1);
    CodewordIsAlphanumeric(m2);
    AlphanumericConcat(Codeword(m1), Codeword(m2));
  }

  /** Every byte of a codeword is from the table. */
  lemma {:induction false} CodewordIsAlphanumeric(m: nat)
    ensures AllAlphanumeric(Codeword(m))
    decreases m
  {
    if m >= 61 {
      CodewordIsAlphanumeric(m - 61);
      AlphanumericConcat(['z'], Codeword(m - 61));
    }
  }

  /** Vectors from the crate: `Local(60)` below `foo` is `foo0z0`,
      `Job(121)` is `foozz0`, `Child(61, 122)` is `fooz1zz1`. */
  lemma Vectors()
    ensures SuffixBytes(Local(60)) == "0z0"
    ensures SuffixBytes(Job(121)) == "zz0"
    ensures SuffixBytes(Child(61, 122)) == "z1zz1"
  {
    assert Codeword(61) == ['z'] + Codeword(0);
    assert Codeword(122) == ['z'] + Codeword(61);
    assert Codeword(62) == ['z'] + Codeword(1);
    assert Codeword(123) == ['z'] + Codeword(62);
  }
}
