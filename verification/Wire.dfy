/**
 The wire format that knv/pb.c reads and writes, as functions on byte sequences:
 base-128 varints, field keys, the four value encodings and whole messages.
 The reading functions keep the failure modes of the C code; the classes in
 WireReader and WireWriter are proved against them.
 */
module Wire {
  import opened Bytes

  // ----- varints -----

  /** A varint is at most ten bytes long; the tenth contributes one bit. */
  const MAX_VARINT: nat := 10

  datatype VarintRead = Got(value: nat, used: nat) | Short | Overflow

  /**
   The value of the varint at the start of s when k more bytes are allowed. Each byte gives
   seven bits, except that the last allowed byte gives only its lowest bit, since the shift by 63
   pushes the others out of the 64-bit result.
   */
  function ReadVarint(s: seq<byte>, k: nat): (r: VarintRead)
    ensures r.Got? ==> 0 < r.used <= |s|
    decreases |s|
  {
    if k == 0 then Overflow
    else if s == [] then Short
    else if s[0] < 128 then Got(if k == 1 then s[0] % 2 else s[0], 1)
    else match ReadVarint(s[1..], k - 1)
      case Got(v, u) => Got(s[0] % 128 + 128 * v, u + 1)
      case Short => Short
      case Overflow => Overflow
  }

  /** One more than the largest value k bytes can carry. */
  function VarintBound(k: nat): (b: nat)
    ensures b > 0
    ensures k > 1 ==> b >= 128
  {
    if k == 0 then 1 else if k == 1 then 2 else 128 * VarintBound(k - 1)
  }

  lemma {:induction false} ReadVarintBound(s: seq<byte>, k: nat)
    requires ReadVarint(s, k).Got?
    ensures ReadVarint(s, k).value < VarintBound(k)
    decreases k
  {
    if s[0] >= 128 {
      ReadVarintBound(s[1..], k - 1);
    }
  }

  lemma VarintBoundIsU64()
    ensures VarintBound(MAX_VARINT) == U64
  {
    assert VarintBound(2) == 256;
    assert VarintBound(4) == 128 * VarintBound(3);
    assert VarintBound(6) == 128 * VarintBound(5);
    assert VarintBound(8) == 128 * VarintBound(7);
  }

  /** The shortest varint for v. */
  function EncodeVarint(v: nat): (s: seq<byte>)
    ensures |s| > 0
  {
    if v < 128 then [v] else [v % 128 + 128] + EncodeVarint(v / 128)
  }

  lemma {:induction false} ReadEncodedVarint(v: nat, rest: seq<byte>, k: nat)
    requires 0 < k && v < VarintBound(k)
    ensures ReadVarint(EncodeVarint(v) + rest, k) == Got(v, |EncodeVarint(v)|)
    decreases k
  {
    var s := EncodeVarint(v) + rest;
    if v >= 128 {
      assert s[1..] == EncodeVarint(v / 128) + rest;
      ReadEncodedVarint(v / 128, rest, k - 1);
    }
  }

  lemma {:induction false} EncodedVarintLength(v: nat, k: nat)
    requires 0 < k && v < VarintBound(k)
    ensures |EncodeVarint(v)| <= k
    decreases k
  {
    if v >= 128 {
      EncodedVarintLength(v / 128, k - 1);
    }
  }

  lemma {:induction false} CutVarint(v: nat, j: nat, k: nat)
    requires 0 < k && v < VarintBound(k)
    requires j < |EncodeVarint(v)|
    ensures ReadVarint(EncodeVarint(v)[..j], k) == Short
    decreases k
  {
    if v >= 128 && j > 0 {
      assert EncodeVarint(v)[..j][1..] == EncodeVarint(v / 128)[..j - 1];
      CutVarint(v / 128, j - 1, k - 1);
    }
  }

  /** No encoding of a value is shorter than the one EncodeVarint picks. */
  lemma {:induction false} EncodeVarintIsShortest(s: seq<byte>, k: nat)
    requires ReadVarint(s, k).Got?
    ensures |EncodeVarint(ReadVarint(s, k).value)| <= ReadVarint(s, k).used
    decreases k
  {
    if s[0] >= 128 {
      EncodeVarintIsShortest(s[1..], k - 1);
      assert ReadVarint(s, k).value / 128 == ReadVarint(s[1..], k - 1).value;
    }
  }

  // ----- fields -----

  datatype Value = Varint(n: nat) | Fixed64(n: nat) | Str(bytes: seq<byte>) | Fixed32(n: nat)
  datatype Field = Field(tag: nat, val: Value)

  function WireType(v: Value): nat {
    match v
    case Varint(_) => 0
    case Fixed64(_) => 1
    case Str(_) => 2
    case Fixed32(_) => 5
  }

  /** The value fits the C union member that holds it. */
  predicate ValueFits(v: Value) {
    match v
    case Varint(n) => n < U64
    case Fixed64(n) => n < U64
    case Str(b) => |b| < U32
    case Fixed32(n) => n < U32
  }

  /** Anything a C caller can pass to pb_add_field_val. */
  predicate Representable(f: Field) {
    f.tag < U32 && ValueFits(f.val)
  }

  /** The fields a reader gets back unchanged: the tag survives a 32-bit shift by three and the key is not 0. */
  predicate InDomain(f: Field) {
    Representable(f) && f.tag < U29 && Key(f) != 0
  }

  /** The key as pb_add_tag computes it, shifting the tag in 32 bits. */
  function Key(f: Field): (k: nat)
    ensures k < U32
  {
    Wrap32(f.tag * 8) + WireType(f.val)
  }

  lemma KeyParts(tag: nat, wireType: nat)
    requires wireType < 8
    ensures (Wrap32(tag * 8) + wireType) % 8 == wireType
    ensures Wrap32((Wrap32(tag * 8) + wireType) / 8) == tag % 0x2000_0000
  {
    assert Wrap32(tag * 8) == tag % 0x2000_0000 * 8;
  }

  function EncodeValue(v: Value): seq<byte> {
    match v
    case Varint(n) => EncodeVarint(n)
    case Fixed64(n) => ToLe(n, 8)
    case Str(b) => EncodeVarint(|b|) + b
    case Fixed32(n) => ToLe(n, 4)
  }

  function EncodeField(f: Field): (s: seq<byte>)
    ensures |s| > 0
  {
    EncodeVarint(Key(f)) + EncodeValue(f.val)
  }

  datatype ValueRead = ValueOk(val: Value, used: nat) | ValueFail

  function ReadValue(s: seq<byte>, wireType: nat): (r: ValueRead)
    ensures r.ValueOk? ==> r.used <= |s| && WireType(r.val) == wireType
  {
    match wireType
    case 0 => (match ReadVarint(s, MAX_VARINT)
               case Got(v, u) => ValueOk(Varint(v), u)
               case _ => ValueFail)
    case 1 => if |s| < 8 then ValueFail else ValueOk(Fixed64(Le(s[..8])), 8)
    case 2 => (match ReadVarint(s, MAX_VARINT)
               case Got(v, u) => if v > |s| - u then ValueFail else ValueOk(Str(s[u..u + v]), u + v)
               case _ => ValueFail)
    case 5 => if |s| < 4 then ValueFail else ValueOk(Fixed32(Le(s[..4])), 4)
    case _ => ValueFail
  }

  /** End carries the end-of-message flag that the failing call leaves behind. */
  datatype FieldRead = FieldOk(field: Field, used: nat) | End(eom: bool)

  function ReadField(s: seq<byte>): (r: FieldRead)
    ensures r.FieldOk? ==> 0 < r.used <= |s|
  {
    match ReadVarint(s, MAX_VARINT)
    case Short => End(true)
    case Overflow => End(|s| == MAX_VARINT)
    case Got(key, u) =>
      if key == 0 then End(true)
      else match ReadValue(s[u..], key % 8)
        case ValueFail => End(false)
        case ValueOk(v, n) => FieldOk(Field(Wrap32(key / 8), v), u + n)
  }

  lemma ReadValueFits(s: seq<byte>, wireType: nat)
    requires |s| < U32
    requires ReadValue(s, wireType).ValueOk?
    ensures ValueFits(ReadValue(s, wireType).val)
  {
    VarintBoundIsU64();
    Pow256Values();
    if wireType == 1 {
      LeBound(s[..8]);
    } else if wireType == 5 {
      LeBound(s[..4]);
    } else {
      ReadVarintBound(s, MAX_VARINT);
    }
  }

  lemma ReadEncodedValue(v: Value, rest: seq<byte>)
    requires ValueFits(v)
    ensures ReadValue(EncodeValue(v) + rest, WireType(v)) == ValueOk(v, |EncodeValue(v)|)
  {
    var s := EncodeValue(v) + rest;
    VarintBoundIsU64();
    Pow256Values();
    match v
    case Varint(n) => ReadEncodedVarint(n, rest, MAX_VARINT);
    case Fixed64(n) => LeToLe(n, 8); assert s[..8] == ToLe(n, 8);
    case Fixed32(n) => LeToLe(n, 4); assert s[..4] == ToLe(n, 4);
    case Str(b) => ReadEncodedString(b, rest);
  }

  lemma ReadEncodedString(b: seq<byte>, rest: seq<byte>)
    requires |b| < U32
    ensures ReadValue(EncodeVarint(|b|) + b + rest, 2) == ValueOk(Str(b), |EncodeVarint(|b|)| + |b|)
  {
    var s := EncodeVarint(|b|) + b + rest;
    VarintBoundIsU64();
    assert s == EncodeVarint(|b|) + (b + rest);
    ReadEncodedVarint(|b|, b + rest, MAX_VARINT);
    var u := |EncodeVarint(|b|)|;
    assert s[u..u + |b|] == b;
  }

  lemma CutValue(v: Value, k: nat)
    requires ValueFits(v)
    requires k < |EncodeValue(v)|
    ensures ReadValue(EncodeValue(v)[..k], WireType(v)) == ValueFail
  {
    VarintBoundIsU64();
    match v
    case Varint(n) => CutVarint(n, k, MAX_VARINT);
    case Fixed64(n) =>
    case Fixed32(n) =>
    case Str(b) =>
      var head := EncodeVarint(|b|);
      if k < |head| {
        assert EncodeValue(v)[..k] == head[..k];
        CutVarint(|b|, k, MAX_VARINT);
      } else {
        assert EncodeValue(v)[..k] == head + b[..k - |head|];
        ReadEncodedVarint(|b|, b[..k - |head|], MAX_VARINT);
      }
  }

  /**
   What the reader makes of any field the writer accepts: the tag comes back modulo 2^29, and a
   key that became 0 ends the message instead.
   */
  lemma ReadEncodedField(f: Field, rest: seq<byte>)
    requires Representable(f)
    ensures ReadField(EncodeField(f) + rest) ==
            if Key(f) == 0 then End(true) else FieldOk(Field(f.tag % 0x2000_0000, f.val), |EncodeField(f)|)
  {
    var s, key := EncodeField(f) + rest, Key(f);
    var u := |EncodeVarint(key)|;
    assert s == EncodeVarint(key) + (EncodeValue(f.val) + rest);
    assert ReadVarint(s, MAX_VARINT) == Got(key, u) by {
      VarintBoundIsU64();
      ReadEncodedVarint(key, EncodeValue(f.val) + rest, MAX_VARINT);
    }
    assert s[u..] == EncodeValue(f.val) + rest;
    assert Wrap32(key / 8) == f.tag % 0x2000_0000 && key % 8 == WireType(f.val) by {
      KeyParts(f.tag, WireType(f.val));
    }
    ReadEncodedValue(f.val, rest);
  }

  /** A field cut short ends the message; the flag says whether the cut fell inside the key. */
  lemma CutField(f: Field, k: nat)
    requires InDomain(f)
    requires k < |EncodeField(f)|
    ensures ReadField(EncodeField(f)[..k]) == End(k < |EncodeVarint(Key(f))|)
  {
    var key := EncodeVarint(Key(f));
    VarintBoundIsU64();
    if k < |key| {
      assert EncodeField(f)[..k] == key[..k];
      CutVarint(Key(f), k, MAX_VARINT);
    } else {
      var s, part := EncodeField(f)[..k], EncodeValue(f.val)[..k - |key|];
      assert s == key + part;
      assert ReadVarint(s, MAX_VARINT) == Got(Key(f), |key|) by {
        ReadEncodedVarint(Key(f), part, MAX_VARINT);
      }
      assert s[|key|..] == part;
      assert Key(f) % 8 == WireType(f.val) by { KeyParts(f.tag, WireType(f.val)); }
      CutValue(f.val, k - |key|);
    }
  }

  // ----- messages -----

  datatype Message = Message(fields: seq<Field>, eom: bool)

  /** What the pb_begin/pb_next loop collects, and the end-of-message flag it stops with. */
  function Parse(s: seq<byte>): Message
    decreases |s|
  {
    match ReadField(s)
    case End(eom) => Message([], eom)
    case FieldOk(f, u) => var m := Parse(s[u..]); Message([f] + m.fields, m.eom)
  }

  function EncodeFields(fs: seq<Field>): seq<byte> {
    if fs == [] then [] else EncodeField(fs[0]) + EncodeFields(fs[1..])
  }

  lemma {:induction false} EncodeFieldsAppend(a: seq<Field>, b: seq<Field>)
    ensures EncodeFields(a + b) == EncodeFields(a) + EncodeFields(b)
  {
    if a == [] {
      assert a + b == b;
    } else {
      assert (a + b)[1..] == a[1..] + b;
      EncodeFieldsAppend(a[1..], b);
    }
  }

  lemma ReadDomainField(f: Field, rest: seq<byte>)
    requires InDomain(f)
    ensures ReadField(EncodeField(f) + rest) == FieldOk(f, |EncodeField(f)|)
  {
    ReadEncodedField(f, rest);
  }

  lemma ParseEncodedHead(f: Field, rest: seq<byte>)
    requires InDomain(f)
    ensures Parse(EncodeField(f) + rest) == Message([f] + Parse(rest).fields, Parse(rest).eom)
  {
    var s := EncodeField(f) + rest;
    ReadDomainField(f, rest);
    assert s[|EncodeField(f)|..] == rest;
  }

  /** Reading back a written message: possible exactly when every field is in the domain. */
  lemma {:induction false} RoundTrip(fs: seq<Field>)
    requires forall f :: f in fs ==> Representable(f)
    ensures Parse(EncodeFields(fs)) == Message(fs, true) <==> forall f :: f in fs ==> InDomain(f)
  {
    if fs != [] {
      var f, rest := fs[0], EncodeFields(fs[1..]);
      RoundTrip(fs[1..]);
      assert fs == [f] + fs[1..];
      if InDomain(f) {
        ParseEncodedHead(f, rest);
        assert Parse(EncodeFields(fs)).fields[1..] == Parse(rest).fields;
        assert forall g :: g in fs <==> g == f || g in fs[1..];
      } else {
        ReadEncodedField(f, rest);
      }
    }
  }

  /** The number of fields of fs that lie wholly inside the first k bytes of their encoding. */
  function WholeFields(fs: seq<Field>, k: nat): (n: nat)
    ensures n <= |fs|
  {
    if fs == [] || k < |EncodeField(fs[0])| then 0
    else 1 + WholeFields(fs[1..], k - |EncodeField(fs[0])|)
  }

  /** WholeFields is what its name says: the first n fields fit into k bytes, one more does not. */
  lemma {:induction false} WholeFieldsMeaning(fs: seq<Field>, k: nat)
    ensures var n := WholeFields(fs, k);
            && |EncodeFields(fs[..n])| <= k
            && (n < |fs| ==> k < |EncodeFields(fs[..n + 1])|)
  {
    var n := WholeFields(fs, k);
    if fs == [] {
    } else if k < |EncodeField(fs[0])| {
      assert EncodeFields(fs[..1]) == EncodeField(fs[0]) + EncodeFields(fs[..1][1..]);
    } else {
      WholeFieldsMeaning(fs[1..], k - |EncodeField(fs[0])|);
      assert fs[..n][1..] == fs[1..][..n - 1];
      if n < |fs| {
        assert fs[..n + 1][1..] == fs[1..][..n];
      }
    }
  }

  /** Whether a cut after k bytes falls behind the complete key of a field and before its end. */
  predicate CutInsideValue(fs: seq<Field>, k: nat) {
    var n := WholeFields(fs, k);
    n < |fs| && |EncodeFields(fs[..n])| + |EncodeVarint(Key(fs[n]))| <= k
  }

  lemma CutInsideValueTail(fs: seq<Field>, k: nat)
    requires fs != [] && |EncodeField(fs[0])| <= k
    ensures CutInsideValue(fs, k) == CutInsideValue(fs[1..], k - |EncodeField(fs[0])|)
  {
    var n := WholeFields(fs, k);
    assert fs[..n][1..] == fs[1..][..n - 1];
  }

  /** A cut inside the first field. */
  lemma CutFirst(fs: seq<Field>, k: nat)
    requires fs != [] && InDomain(fs[0]) && k < |EncodeField(fs[0])|
    ensures k < |EncodeFields(fs)| && Parse(EncodeFields(fs)[..k]) == Message([], !CutInsideValue(fs, k))
    ensures WholeFields(fs, k) == 0
  {
    assert EncodeFields(fs)[..k] == EncodeField(fs[0])[..k];
    CutField(fs[0], k);
    assert fs[..0] == [];
  }

  /** A cut behind the first field. */
  lemma CutLater(fs: seq<Field>, k: nat)
    requires fs != [] && InDomain(fs[0]) && |EncodeField(fs[0])| <= k < |EncodeFields(fs)|
    ensures var m := Parse(EncodeFields(fs[1..])[..k - |EncodeField(fs[0])|]);
            Parse(EncodeFields(fs)[..k]) == Message([fs[0]] + m.fields, m.eom)
  {
    var part := EncodeFields(fs[1..])[..k - |EncodeField(fs[0])|];
    assert EncodeFields(fs)[..k] == EncodeField(fs[0]) + part;
    ParseEncodedHead(fs[0], part);
  }

  lemma TakeOneMore(fs: seq<Field>, n: nat)
    requires 0 < n <= |fs|
    ensures fs[..n] == [fs[0]] + fs[1..][..n - 1]
  {
  }

  /** Truncation: a strict prefix yields exactly the whole fields, and eom stays 0 exactly inside a value. */
  lemma {:induction false} Truncation(fs: seq<Field>, k: nat)
    requires forall f :: f in fs ==> InDomain(f)
    requires k < |EncodeFields(fs)|
    ensures Parse(EncodeFields(fs)[..k]) == Message(fs[..WholeFields(fs, k)], !CutInsideValue(fs, k))
  {
    var size := |EncodeField(fs[0])|;
    if k < size {
      CutFirst(fs, k);
      assert fs[..0] == [];
    } else {
      var n, inside := WholeFields(fs[1..], k - size), CutInsideValue(fs[1..], k - size);
      Truncation(fs[1..], k - size);
      CutLater(fs, k);
      assert WholeFields(fs, k) == n + 1;
      assert CutInsideValue(fs, k) == inside by { CutInsideValueTail(fs, k); }
      TakeOneMore(fs, n + 1);
    }
  }

  // ----- normalisation -----

  /** Re-encoding any one field the reader delivered takes no more bytes than it had. */
  lemma ReencodedFieldIsNoLonger(s: seq<byte>)
    requires |s| <= INT_MAX
    requires ReadField(s).FieldOk?
    ensures Representable(ReadField(s).field)
    ensures |EncodeField(ReadField(s).field)| <= ReadField(s).used
  {
    var Got(key, u) := ReadVarint(s, MAX_VARINT);
    var rest := s[u..];
    var ValueOk(v, n) := ReadValue(rest, key % 8);
    ReadValueFits(rest, key % 8);
    EncodeVarintIsShortest(s, MAX_VARINT);
    var f := ReadField(s).field;
    assert Key(f) <= key by { KeyShrinks(key); }
    EncodeVarintMonotone(Key(f), key);
    assert |EncodeValue(v)| <= n by {
      if v.Varint? {
        EncodeVarintIsShortest(rest, MAX_VARINT);
      } else if v.Str? {
        EncodeVarintIsShortest(rest, MAX_VARINT);
      }
    }
  }

  lemma KeyShrinks(key: nat)
    ensures Wrap32(Wrap32(key / 8) * 8) + key % 8 <= key
    ensures key < U32 ==> Wrap32(Wrap32(key / 8) * 8) + key % 8 == key
  {
    assert Wrap32(key / 8) <= key / 8;
  }

  lemma {:induction false} EncodeVarintMonotone(a: nat, b: nat)
    requires a <= b
    ensures |EncodeVarint(a)| <= |EncodeVarint(b)|
    decreases b
  {
    if a >= 128 {
      EncodeVarintMonotone(a / 128, b / 128);
    }
  }

  /**
   Normalisation: whatever bytes the reader was given, the fields it delivered re-encode to no more
   bytes, and they are read back unchanged exactly when all of them are in the domain.
   */
  lemma {:induction false} Normalisation(s: seq<byte>)
    requires |s| <= INT_MAX
    ensures var fs := Parse(s).fields;
            && |EncodeFields(fs)| <= |s|
            && (forall f :: f in fs ==> Representable(f))
            && (Parse(EncodeFields(fs)) == Message(fs, true) <==> forall f :: f in fs ==> InDomain(f))
    decreases |s|
  {
    NormalisedLength(s);
    RoundTrip(Parse(s).fields);
  }

  lemma {:induction false} NormalisedLength(s: seq<byte>)
    requires |s| <= INT_MAX
    ensures |EncodeFields(Parse(s).fields)| <= |s|
    ensures forall f :: f in Parse(s).fields ==> Representable(f)
    decreases |s|
  {
    if ReadField(s).FieldOk? {
      var FieldOk(f, u) := ReadField(s);
      ReencodedFieldIsNoLonger(s);
      NormalisedLength(s[u..]);
      var fs := Parse(s).fields;
      assert fs[0] == f && fs[1..] == Parse(s[u..]).fields;
      assert forall g :: g in fs <==> g == f || g in fs[1..];
    }
  }

  /** Every key varint the reader meets while reading s is below 2^32. */
  predicate SmallKeys(s: seq<byte>)
    decreases |s|
  {
    match ReadField(s)
    case End(_) => true
    case FieldOk(_, u) => ReadVarint(s, MAX_VARINT).value < U32 && SmallKeys(s[u..])
  }

  /** With keys below 2^32, shortest or not, normalisation never changes a field. */
  lemma {:induction false} SmallKeysNormalise(s: seq<byte>)
    requires |s| <= INT_MAX && SmallKeys(s)
    ensures Parse(EncodeFields(Parse(s).fields)) == Message(Parse(s).fields, true)
    ensures |EncodeFields(Parse(s).fields)| <= |s|
  {
    SmallKeysInDomain(s);
    Normalisation(s);
  }

  lemma SmallKeyInDomain(s: seq<byte>)
    requires |s| <= INT_MAX && ReadField(s).FieldOk? && ReadVarint(s, MAX_VARINT).value < U32
    ensures InDomain(ReadField(s).field)
  {
    var Got(key, u) := ReadVarint(s, MAX_VARINT);
    var f := ReadField(s).field;
    ReencodedFieldIsNoLonger(s);
    ReadValueFits(s[u..], key % 8);
    assert WireType(f.val) == key % 8;
    SmallKeyStays(key, f);
  }

  lemma SmallKeyStays(key: nat, f: Field)
    requires 0 < key < U32 && f.tag == Wrap32(key / 8) && WireType(f.val) == key % 8
    ensures f.tag < U29 && Key(f) == key
  {
    KeyShrinks(key);
  }

  lemma {:induction false} SmallKeysInDomain(s: seq<byte>)
    requires |s| <= INT_MAX && SmallKeys(s)
    ensures forall f :: f in Parse(s).fields ==> InDomain(f)
    decreases |s|
  {
    if ReadField(s).FieldOk? {
      var FieldOk(f, u) := ReadField(s);
      SmallKeyInDomain(s);
      SmallKeysInDomain(s[u..]);
    }
  }

  /** The condition is not idle: a key of 2^32 is read as tag 2^29, which cannot be written back. */
  lemma BigKeyIsNotPreserved()
    ensures var s := EncodeVarint(U32) + [7];
            && Parse(s) == Message([Field(U29, Varint(7))], true)
            && Parse(EncodeFields(Parse(s).fields)) == Message([], true)
  {
    var s := EncodeVarint(U32) + [7];
    var f, u := Field(U29, Varint(7)), |EncodeVarint(U32)|;
    VarintBoundIsU64();
    ReadEncodedVarint(U32, [7], MAX_VARINT);
    assert s[u..] == [7];
    assert ReadField(s) == FieldOk(f, u + 1);
    assert s[u + 1..] == [];
    assert EncodeFields([f]) == EncodeField(f) + [];
    ReadEncodedField(f, []);
  }

  // ----- skipping -----

  datatype SkipRead = Skipped(used: nat) | SkipFail

  /** Bytes up to and including the first one without a continuation bit, or all of them. */
  function VarintSpan(s: seq<byte>): (n: nat)
    ensures n <= |s|
  {
    if s == [] then 0 else if s[0] < 128 then 1 else 1 + VarintSpan(s[1..])
  }

  /** pb_skip_field: varints are not checked at all, and a string's length is taken modulo 2^32. */
  function SkipValue(s: seq<byte>, wireType: nat): (r: SkipRead)
    ensures r.Skipped? ==> r.used <= |s|
  {
    match wireType
    case 0 => Skipped(VarintSpan(s))
    case 1 => if |s| < 8 then SkipFail else Skipped(8)
    case 2 => (match ReadVarint(s, MAX_VARINT)
               case Got(v, u) => if Wrap32(v) > |s| - u then SkipFail else Skipped(u + Wrap32(v))
               case _ => SkipFail)
    case 5 => if |s| < 4 then SkipFail else Skipped(4)
    case _ => SkipFail
  }

  lemma {:induction false} VarintSpanIsUsed(s: seq<byte>, k: nat)
    requires ReadVarint(s, k).Got?
    ensures VarintSpan(s) == ReadVarint(s, k).used
    decreases k
  {
    if s[0] >= 128 {
      VarintSpanIsUsed(s[1..], k - 1);
    }
  }

  /** Skipping agrees with decoding wherever decoding succeeds, and otherwise accepts exactly these extra inputs. */
  lemma SkipAgreesWithRead(s: seq<byte>, wireType: nat)
    requires |s| <= INT_MAX
    ensures ReadValue(s, wireType).ValueOk? ==> SkipValue(s, wireType) == Skipped(ReadValue(s, wireType).used)
    ensures ReadValue(s, wireType).ValueFail? && SkipValue(s, wireType).Skipped? <==>
            || (wireType == 0 && !ReadVarint(s, MAX_VARINT).Got?)
            || (wireType == 2 && ReadVarint(s, MAX_VARINT).Got? &&
                var Got(v, u) := ReadVarint(s, MAX_VARINT); v >= U32 && Wrap32(v) <= |s| - u)
  {
    var r := ReadVarint(s, MAX_VARINT);
    if wireType == 0 {
      if r.Got? {
        VarintSpanIsUsed(s, MAX_VARINT);
      }
    } else if wireType == 2 && r.Got? {
      SkipString(s, r.value, r.used);
    }
  }

  /** A varint that breaks off, and a string whose length is 2^32 + 1, are skipped although they cannot be decoded. */
  lemma SkipsBrokenValues()
    ensures ReadValue([128], 0) == ValueFail && SkipValue([128], 0) == Skipped(1)
    ensures var s := EncodeVarint(U32 + 1) + [7]; ReadValue(s, 2) == ValueFail && SkipValue(s, 2) == Skipped(|s|)
  {
    var cut: seq<byte> := [128];
    assert cut[1..] == [];
    var s := EncodeVarint(U32 + 1) + [7];
    VarintBoundIsU64();
    ReadEncodedVarint(U32 + 1, [7], MAX_VARINT);
  }

  lemma SkipString(s: seq<byte>, v: nat, u: nat)
    requires |s| <= INT_MAX && ReadVarint(s, MAX_VARINT) == Got(v, u)
    ensures ReadValue(s, 2).ValueOk? <==> v <= |s| - u
    ensures ReadValue(s, 2).ValueOk? ==> ReadValue(s, 2).used == u + v
    ensures SkipValue(s, 2) == if Wrap32(v) > |s| - u then SkipFail else Skipped(u + Wrap32(v))
    ensures v < U32 ==> Wrap32(v) == v
  {
  }
}
