/** The cursor of knv/pb.c (pb_field_t): moves through a buffer it never writes. */
module WireReader {
  import opened Bytes
  import opened Wire

  /** The left shift of a 64-bit word. */
  function Shl64(x: nat, n: nat): nat {
    Wrap64(x * Pow2(n))
  }

  lemma Pow2Step(n: nat)
    ensures Pow2(n + 7) == 128 * Pow2(n)
  {
    assert Pow2(n + 7) == 2 * Pow2(n + 6);
    assert Pow2(n + 5) == 2 * Pow2(n + 4);
    assert Pow2(n + 3) == 2 * Pow2(n + 2);
    assert Pow2(n + 1) == 2 * Pow2(n);
  }

  /** i bytes of seven bits each and what k - i further ones can still carry make up what k can carry. */
  lemma {:induction false} BoundSplits(i: nat)
    requires i < MAX_VARINT
    ensures Pow2(7 * i) * VarintBound(MAX_VARINT - i) == U64
  {
    if i == 0 {
      VarintBoundIsU64();
    } else {
      BoundSplits(i - 1);
      Pow2Step(7 * (i - 1));
      assert 7 * (i - 1) + 7 == 7 * i;
      MoveFactor(Pow2(7 * (i - 1)), VarintBound(MAX_VARINT - i));
    }
  }

  lemma MoveFactor(p: nat, b: nat)
    ensures p * (128 * b) == (128 * p) * b
  {
  }

  /** The bits byte i of a varint contributes: seven, except that the shift by 63 keeps only the lowest. */
  function KeptBits(b: byte, i: nat): nat {
    if i == MAX_VARINT - 1 then b % 2 else b % 128
  }

  lemma ShiftedBits(b: byte, i: nat)
    requires i < MAX_VARINT
    ensures Shl64(b % 128, 7 * i) == Pow2(7 * i) * KeptBits(b, i)
  {
    BoundSplits(i);
    if i == MAX_VARINT - 1 {
      LastBits(b % 128, Pow2(7 * i));
    } else {
      OtherBits(b % 128, Pow2(7 * i), VarintBound(MAX_VARINT - i));
    }
  }

  lemma LastBits(x: nat, p: nat)
    requires 2 * p == U64
    ensures Wrap64(x * p) == p * (x % 2)
  {
    var q, r := x / 2, x % 2;
    assert x * p == q * (2 * p) + p * r;
    ModuloU64(q, p * r);
  }

  lemma OtherBits(x: nat, p: nat, bound: nat)
    requires p * bound == U64 && x < bound
    ensures Wrap64(x * p) == p * x
  {
    MulLess(x, bound, p);
  }

  lemma MulLess(a: nat, b: nat, p: nat)
    requires a < b && p > 0
    ensures a * p < b * p
  {
  }

  lemma ModuloU64(q: nat, r: nat)
    requires r < U64
    ensures Wrap64(q * U64 + r) == r
  {
  }

  /** Taking one more continuation byte: the weight grows by 128. */
  lemma HornerStep(acc: nat, p: nat, x: nat, v: nat)
    ensures acc + p * (x + 128 * v) == (acc + p * x) + (128 * p) * v
  {
  }

  /** The varint at s after i of its bytes went into result: the rest decides what it becomes. */
  ghost predicate TakenSoFar(s: seq<byte>, i: nat, result: nat)
    requires i <= |s| && i <= MAX_VARINT
  {
    var rest := ReadVarint(s[i..], MAX_VARINT - i);
    ReadVarint(s, MAX_VARINT) == if rest.Got? then Got(result + Pow2(7 * i) * rest.value, i + rest.used) else rest
  }

  /** One unfolding of the reader at position i. */
  lemma ReadVarintAt(s: seq<byte>, i: nat, y: nat)
    requires i < |s| && i < MAX_VARINT && y == KeptBits(s[i], i)
    ensures s[i] < 128 ==> ReadVarint(s[i..], MAX_VARINT - i) == Got(y, 1)
    ensures s[i] >= 128 ==>
              var rest := ReadVarint(s[i + 1..], MAX_VARINT - (i + 1));
              ReadVarint(s[i..], MAX_VARINT - i) == if rest.Got? then Got(y + 128 * rest.value, rest.used + 1) else rest
  {
    assert s[i..][1..] == s[i + 1..];
  }

  lemma TakeLastByte(s: seq<byte>, i: nat, before: nat, y: nat, bits: nat)
    requires i < |s| && i < MAX_VARINT && TakenSoFar(s, i, before) && bits == Pow2(7 * i) * y
    requires ReadVarint(s[i..], MAX_VARINT - i) == Got(y, 1)
    ensures ReadVarint(s, MAX_VARINT) == Got(before + bits, i + 1)
  {
  }

  lemma TakeContinuationByte(s: seq<byte>, i: nat, before: nat, y: nat, bits: nat)
    requires i < |s| && i < MAX_VARINT && TakenSoFar(s, i, before) && before < Pow2(7 * i) && y < 128
    requires bits == Pow2(7 * i) * y
    requires var rest := ReadVarint(s[i + 1..], MAX_VARINT - (i + 1));
             ReadVarint(s[i..], MAX_VARINT - i) == if rest.Got? then Got(y + 128 * rest.value, rest.used + 1) else rest
    ensures TakenSoFar(s, i + 1, before + bits) && before + bits < Pow2(7 * (i + 1))
  {
    var p := Pow2(7 * i);
    assert Pow2(7 * (i + 1)) == 128 * p by {
      Pow2Step(7 * i);
      assert 7 * i + 7 == 7 * (i + 1);
    }
    BelowNextWeight(before, y, p);
    var rest := ReadVarint(s[i + 1..], MAX_VARINT - (i + 1));
    if rest.Got? {
      HornerStep(before, p, y, rest.value);
    }
  }

  /** What one more byte does to the loop state: it completes the varint or leaves one byte fewer to come. */
  lemma TakeByte(s: seq<byte>, i: nat, before: nat, bits: nat)
    requires i < |s| && i < MAX_VARINT && Partly(s, i, before)
    requires bits == Shl64(s[i] % 128, 7 * i)
    ensures s[i] < 128 ==> ReadVarint(s, MAX_VARINT) == Got(before + bits, i + 1)
    ensures s[i] >= 128 ==> Partly(s, i + 1, before + bits)
  {
    var y := KeptBits(s[i], i);
    ShiftedBits(s[i], i);
    ReadVarintAt(s, i, y);
    if s[i] < 128 {
      TakeLastByte(s, i, before, y, bits);
    } else {
      TakeContinuationByte(s, i, before, y, bits);
    }
  }

  lemma BelowNextWeight(acc: nat, y: nat, p: nat)
    requires acc < p && y < 128
    ensures acc + p * y < 128 * p
  {
    assert p * y <= p * 127;
  }

  lemma SliceOfSlice(d: seq<byte>, from: nat, n: nat, i: nat, j: nat)
    requires from + n <= |d| && i <= j <= n
    ensures d[from..from + n][i..j] == d[from + i..from + j]
  {
    var a, b := d[from..from + n][i..j], d[from + i..from + j];
    assert forall k :: 0 <= k < |a| ==> a[k] == b[k];
    assert a == b;
  }

  lemma FitsWord(n: nat)
    requires n <= INT_MAX
    ensures Wrap32(n) == n
  {
  }

  lemma StringRead(d: seq<byte>, s: seq<byte>, from: nat, n: nat, sz: nat, at: nat)
    requires from + n <= |d| && from <= at && at + sz <= from + n && s == d[from..from + n]
    requires ReadVarint(s, MAX_VARINT) == Got(sz, at - from)
    ensures ReadValue(s, 2) == ValueOk(Str(d[at..at + sz]), at + sz - from)
  {
    SliceOfSlice(d, from, n, at - from, at - from + sz);
  }

  /** The loop state of the reader: i bytes went into result, which leaves the higher bits free. */
  ghost predicate Partly(s: seq<byte>, i: nat, result: nat) {
    i <= |s| && i <= MAX_VARINT && TakenSoFar(s, i, result) && result < Pow2(7 * i)
  }

  class PbField {
    var data: seq<byte>   // the message buffer; only data[ptr..ptr+left] may still be read
    var ptr: nat
    var left: nat
    var eom: bool
    var tag: nat
    var wireType: nat
    var val: Value        // the union; a raw varint is held as Varint

    ghost predicate Valid()
      reads this
    {
      ptr + left <= |data| && left <= INT_MAX
    }

    ghost function Rest(): seq<byte>
      requires Valid()
      reads this
    {
      data[ptr..ptr + left]
    }

    /** The cursor after a call that tried to read a field starting at position from. */
    ghost predicate Shows(r: FieldRead, ok: bool, from: nat, eomBefore: bool)
      reads this
    {
      match r
      case FieldOk(f, u) => ok && Field(tag, val) == f && ptr == from + u && eom == eomBefore
      case End(e) => !ok && eom == (eomBefore || e)
    }

    constructor ()
      ensures Valid() && left == 0
    {
      data, ptr, left, eom, tag, wireType, val := [], 0, 0, false, 0, 0, Varint(0);
    }

    /** pb_decode_varint */
    method DecodeVarint() returns (ret: int)
      requires Valid()
      modifies this`ptr, this`left, this`val
      ensures Valid() && ptr + left == old(ptr + left)
      ensures match ReadVarint(old(Rest()), MAX_VARINT)
              case Got(v, u) => ret == 0 && val == Varint(v) && ptr == old(ptr) + u
              case Short => ret == -2 && val == old(val) && left == 0
              case Overflow => ret == -1 && val == old(val) && ptr == old(ptr) + MAX_VARINT
    {
      ghost var s := Rest();
      var bitpos: nat, result: nat := 0, 0;
      ghost var i := 0;
      while true
        invariant 0 <= i <= MAX_VARINT && bitpos == 7 * i
        invariant ptr == old(ptr) + i && ptr + left == old(ptr + left) && val == old(val)
        invariant Partly(s, i, result)  // the bits or-ed in next are still free
        decreases MAX_VARINT - i
      {
        if bitpos >= 64 {
          return -1;
        }
        if left < 1 {
          return -2;
        }
        var b := data[ptr];
        assert b == s[i];
        ptr, left := ptr + 1, left - 1;
        TakeByte(s, i, result, Shl64(b % 128, bitpos));
        result := result + Shl64(b % 128, bitpos);
        if b < 128 {
          val := Varint(result);
          return 0;
        }
        bitpos := bitpos + 7;
        i := i + 1;
      }
    }

    /** pb_decode_fixed64 and pb_decode_fixed32 */
    method DecodeFixed(size: nat) returns (ret: int)
      requires Valid() && (size == 4 || size == 8)
      modifies this`ptr, this`left, this`val
      ensures Valid() && ptr + left == old(ptr + left)
      ensures if old(left) < size then ret != 0 && ptr == old(ptr) && val == old(val)
              else ret == 0 && ptr == old(ptr) + size &&
                   val == (if size == 4 then Fixed32(Le(old(Rest())[..4])) else Fixed64(Le(old(Rest())[..8])))
    {
      if left < size {
        return -1;
      }
      var word := Le(data[ptr..ptr + size]);
      assert data[ptr..ptr + size] == Rest()[..size];
      val := if size == 4 then Fixed32(word) else Fixed64(word);
      ptr, left := ptr + size, left - size;
      return 0;
    }

    /** pb_decode_string */
    method DecodeString() returns (ret: int)
      requires Valid()
      modifies this`ptr, this`left, this`val
      ensures Valid() && ptr + left == old(ptr + left) && ptr >= old(ptr)
      ensures ReadValue(old(Rest()), 2).ValueFail? ==> ret != 0
      ensures ReadValue(old(Rest()), 2).ValueOk? ==>
                ret == 0 && ReadValue(old(Rest()), 2) == ValueOk(val, ptr - old(ptr))
    {
      ghost var s := Rest();
      ret := DecodeVarint();
      if ret != 0 {
        return -1;
      }
      if val.n > left {
        return -2;
      }
      var sz := Wrap32(val.n);
      FitsWord(val.n);
      StringRead(data, s, old(ptr), old(left), sz, ptr);
      val := Str(data[ptr..ptr + sz]);
      ptr, left := ptr + sz, left - sz;
    }

    /** The switch of pb_decode_tag over the wire type. */
    method DecodeValue(kind: nat) returns (ret: int)
      requires Valid()
      modifies this`ptr, this`left, this`val
      ensures Valid() && ptr + left == old(ptr + left) && ptr >= old(ptr)
      ensures ReadValue(old(Rest()), kind).ValueFail? ==> ret != 0
      ensures ReadValue(old(Rest()), kind).ValueOk? ==>
                ret == 0 && ReadValue(old(Rest()), kind) == ValueOk(val, ptr - old(ptr))
    {
      match kind {
        case 0 => ret := DecodeVarint();
        case 1 => ret := DecodeFixed(8);
        case 2 => ret := DecodeString();
        case 5 => ret := DecodeFixed(4);
        case _ => ret := -3;
      }
    }

    /** pb_decode_tag: the next field, or the reason there is none. */
    method DecodeTag() returns (ret: int)
      requires Valid()
      modifies this`ptr, this`left, this`val, this`tag, this`wireType, this`eom
      ensures Valid() && ptr + left == old(ptr + left)
      ensures Shows(ReadField(old(Rest())), ret == 0, old(ptr), old(eom))
    {
      ghost var s := Rest();
      ret := DecodeVarint();
      if ret != 0 {
        if left == 0 {
          eom := true;
        }
        return -1;
      }
      if val.n == 0 {
        eom := true;
        return -2;
      }
      tag := Wrap32(val.n / 8);
      wireType := val.n % 8;
      SliceOfSlice(data, old(ptr), old(left), ptr - old(ptr), old(left));
      assert Rest() == s[ptr - old(ptr)..];
      ret := DecodeValue(wireType);
    }

    /** pb_begin */
    method Begin(message: seq<byte>) returns (ok: bool)
      requires |message| <= INT_MAX
      modifies this
      ensures Valid() && data == message && ptr + left == |message|
      ensures Shows(ReadField(message), ok, 0, false)
    {
      data, ptr, left, eom := message, 0, |message|, false;
      assert Rest() == message;
      var ret := DecodeTag();
      return ret == 0;
    }

    /** pb_begin_delimited: the fields of a length-prefixed message inside a larger buffer. */
    method BeginDelimited(buffer: seq<byte>) returns (ok: bool)
      requires |buffer| <= INT_MAX
      modifies this
      ensures Valid() && data == buffer
      ensures ReadValue(buffer, 2).ValueFail? ==> !ok && !eom
      ensures ReadValue(buffer, 2).ValueOk? ==>
                var ValueOk(slice, end) := ReadValue(buffer, 2);
                && ptr + left == end  // nothing behind the slice can be read
                && |slice.bytes| <= end && Shows(ReadField(slice.bytes), ok, end - |slice.bytes|, false)
    {
      data, ptr, left, eom := buffer, 0, |buffer|, false;
      assert Rest() == buffer;
      var ret := DecodeVarint();
      if ret != 0 {
        return false;
      }
      if val.n > left {
        return false;
      }
      left := val.n;
      assert Rest() == ReadValue(buffer, 2).val.bytes;
      ret := DecodeTag();
      return ret == 0;
    }

    /** pb_next */
    method Next() returns (ok: bool)
      requires Valid()
      modifies this`ptr, this`left, this`val, this`tag, this`wireType, this`eom
      ensures Valid() && ptr + left == old(ptr + left)
      ensures Shows(ReadField(old(Rest())), ok, old(ptr), old(eom))
    {
      var ret := DecodeTag();
      return ret == 0;
    }

    /** pb_skip_field */
    method SkipField(kind: nat) returns (ret: int)
      requires Valid()
      modifies this`ptr, this`left, this`val
      ensures Valid() && ptr + left == old(ptr + left)
      ensures match SkipValue(old(Rest()), kind)
              case Skipped(u) => ret == 0 && ptr == old(ptr) + u
              case SkipFail => ret != 0
    {
      match kind {
        case 0 => SkipVarint(); ret := 0;
        case 1 => ret := Skip(8);
        case 2 =>
          ret := DecodeVarint();
          if ret != 0 {
            return -1;
          }
          ret := Skip(Wrap32(val.n));
        case 5 => ret := Skip(4);
        case _ => ret := -1;
      }
    }

    /** pb_skip_varint, which reports success even at the end of the buffer */
    method SkipVarint()
      requires Valid()
      modifies this`ptr, this`left
      ensures Valid() && ptr + left == old(ptr + left)
      ensures ptr == old(ptr) + VarintSpan(old(Rest()))
    {
      ghost var s := Rest();
      while left >= 1
        invariant Valid() && ptr + left == old(ptr + left) && old(ptr) <= ptr
        invariant Rest() == s[ptr - old(ptr)..]
        invariant VarintSpan(s) == ptr - old(ptr) + VarintSpan(Rest())
        decreases left
      {
        var b := data[ptr];
        assert Rest()[1..] == s[ptr + 1 - old(ptr)..];
        ptr, left := ptr + 1, left - 1;
        assert Rest() == s[ptr - old(ptr)..];
        if b < 128 {
          return;
        }
      }
    }

    /** pb_get with no destination */
    method Skip(count: nat) returns (ret: int)
      requires Valid()
      modifies this`ptr, this`left
      ensures Valid() && ptr + left == old(ptr + left)
      ensures if count <= old(left) then ret == 0 && ptr == old(ptr) + count else ret != 0 && ptr == old(ptr)
    {
      if left < count {
        return -1;
      }
      ptr, left := ptr + count, left - count;
      return 0;
    }
  }

  /** What the cursor shows, in terms of the message it reads. */
  ghost predicate Ahead(f: PbField, ok: bool, m: Message)
    requires f.Valid()
    reads f
  {
    m == if ok then Message([Field(f.tag, f.val)] + Parse(f.Rest()).fields, Parse(f.Rest()).eom)
         else Message([], f.eom)
  }

  lemma ShowsIsAhead(f: PbField, ok: bool, s: seq<byte>, from: nat)
    requires f.Valid() && from + |s| == f.ptr + f.left && f.data[from..from + |s|] == s
    requires f.Shows(ReadField(s), ok, from, false)
    ensures Ahead(f, ok, Parse(s))
    ensures ok ==> !f.eom
  {
    if ok {
      RestIs(f, s, from);
      ParseStep(s, Field(f.tag, f.val), f.ptr - from);
    } else {
      ParseEnd(s, f.eom);
    }
  }

  lemma RestIs(f: PbField, s: seq<byte>, from: nat)
    requires f.Valid() && from + |s| == f.ptr + f.left && f.data[from..from + |s|] == s && from <= f.ptr
    ensures s[f.ptr - from..] == f.Rest()
  {
    SliceOfSlice(f.data, from, |s|, f.ptr - from, |s|);
  }

  lemma ParseEnd(s: seq<byte>, eom: bool)
    requires ReadField(s) == End(eom)
    ensures Parse(s) == Message([], eom)
  {
  }

  lemma ParseStep(s: seq<byte>, f: Field, used: nat)
    requires ReadField(s) == FieldOk(f, used)
    ensures Parse(s) == Message([f] + Parse(s[used..]).fields, Parse(s[used..]).eom)
  {
  }

  /** The loop every caller writes around pb_begin and pb_next. */
  method ReadAll(message: seq<byte>) returns (fields: seq<Field>, eom: bool)
    requires |message| <= INT_MAX
    ensures Message(fields, eom) == Parse(message)
  {
    var f := new PbField();
    var ok := f.Begin(message);
    ShowsIsAhead(f, ok, message, 0);
    fields, eom := Drain(f, ok, Parse(message));
  }

  /** The same loop started by pb_begin_delimited: it sees the slice, whatever follows it in the buffer. */
  method ReadAllDelimited(buffer: seq<byte>) returns (fields: seq<Field>, eom: bool)
    requires |buffer| <= INT_MAX
    ensures match ReadValue(buffer, 2)
            case ValueOk(v, _) => Message(fields, eom) == Parse(v.bytes)
            case ValueFail => fields == [] && !eom
  {
    var f := new PbField();
    var ok := f.BeginDelimited(buffer);
    match ReadValue(buffer, 2) {
      case ValueFail => fields, eom := [], false;
      case ValueOk(v, end) =>
        ShowsIsAhead(f, ok, v.bytes, end - |v.bytes|);
        fields, eom := Drain(f, ok, Parse(v.bytes));
    }
  }

  /** Collects the field the cursor shows and all that follow. */
  method Drain(f: PbField, first: bool, ghost m: Message) returns (fields: seq<Field>, eom: bool)
    requires f.Valid() && Ahead(f, first, m) && (first ==> !f.eom)
    modifies f
    ensures Message(fields, eom) == m
  {
    fields := [];
    var ok := first;
    ghost var todo := m;
    while ok
      invariant f.Valid() && (ok ==> !f.eom)
      invariant Ahead(f, ok, todo) && m == Message(fields + todo.fields, todo.eom)
      decreases ok, f.left
    {
      fields := fields + [Field(f.tag, f.val)];
      ghost var s, from := f.Rest(), f.ptr;
      todo := Parse(s);
      ok := f.Next();
      ShowsIsAhead(f, ok, s, from);
    }
    eom := f.eom;
  }
}
