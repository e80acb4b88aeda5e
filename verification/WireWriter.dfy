/** The output buffer of knv/pb.c (pb_buff_t): bytes are appended until the buffer is full. */
module WireWriter {
  import opened Bytes
  import opened Wire

  /** The pieces pb_add_field_val appends one after the other, each only if it still fits. */
  function Pieces(f: Field): seq<seq<byte>> {
    [EncodeVarint(Key(f))] + ValuePieces(f.val)
  }

  function ValuePieces(v: Value): seq<seq<byte>> {
    if v.Str? then [EncodeVarint(|v.bytes|), v.bytes] else [EncodeValue(v)]
  }

  /** What ends up in a buffer with room bytes left: the pieces up to the first that does not fit. */
  function Fitting(pieces: seq<seq<byte>>, room: nat): (s: seq<byte>)
    ensures |s| <= room
  {
    if pieces == [] || |pieces[0]| > room then []
    else pieces[0] + Fitting(pieces[1..], room - |pieces[0]|)
  }

  /** The first two pieces of a string field, as pb_add_string_head writes them. */
  function StringHead(tag: nat, size: nat): seq<byte> {
    EncodeVarint(Wrap32(tag * 8) + 2) + EncodeVarint(size)
  }

  /** A field is written whole exactly when its encoding fits; otherwise a proper part of it remains. */
  lemma FittingField(f: Field, room: nat)
    ensures Fitting(Pieces(f), room) <= EncodeField(f)
    ensures Fitting(Pieces(f), room) == EncodeField(f) <==> |EncodeField(f)| <= room
    ensures Fitting(Pieces(f), room) ==
            if |EncodeVarint(Key(f))| > room then []
            else EncodeVarint(Key(f)) + Fitting(ValuePieces(f.val), room - |EncodeVarint(Key(f))|)
  {
    var key := EncodeVarint(Key(f));
    assert Pieces(f)[0] == key && Pieces(f)[1..] == ValuePieces(f.val);
    if |key| <= room {
      FittingValue(f.val, room - |key|);
    }
  }

  lemma FittingValue(v: Value, room: nat)
    ensures Fitting(ValuePieces(v), room) <= EncodeValue(v)
    ensures Fitting(ValuePieces(v), room) == EncodeValue(v) <==> |EncodeValue(v)| <= room
    ensures !v.Str? ==> Fitting(ValuePieces(v), room) == if |EncodeValue(v)| <= room then EncodeValue(v) else []
    ensures v.Str? ==>
              var head := EncodeVarint(|v.bytes|);
              Fitting(ValuePieces(v), room) ==
              if |head| > room then [] else head + if |v.bytes| <= room - |head| then v.bytes else []
  {
    if v.Str? {
      var head := EncodeVarint(|v.bytes|);
      assert ValuePieces(v)[1..] == [v.bytes];
      if |head| <= room {
        FittingOne(v.bytes, room - |head|);
      }
    } else {
      FittingOne(EncodeValue(v), room);
    }
  }

  lemma FittingOne(b: seq<byte>, room: nat)
    ensures Fitting([b], room) == if |b| <= room then b else []
  {
    assert [b][1..] == [];
  }

  /** The pieces of a string field, when its head is written on its own. */
  lemma FittingString(tag: nat, b: seq<byte>, room: nat)
    ensures var head := Fitting([EncodeVarint(Wrap32(tag * 8) + 2), EncodeVarint(|b|)], room);
            && (head == StringHead(tag, |b|) <==> |StringHead(tag, |b|)| <= room)
            && Fitting(Pieces(Field(tag, Str(b))), room) ==
               if head != StringHead(tag, |b|) then head
               else head + if |b| <= room - |head| then b else []
  {
    var f, key, len := Field(tag, Str(b)), EncodeVarint(Wrap32(tag * 8) + 2), EncodeVarint(|b|);
    assert Pieces(f) == [key, len, b];
    FittingThree(key, len, b, room);
  }

  lemma FittingTwo(key: seq<byte>, len: seq<byte>, room: nat)
    ensures Fitting([key, len], room) ==
            if |key| > room then [] else key + if |len| <= room - |key| then len else []
  {
    assert [key, len][1..] == [len];
    if |key| <= room {
      FittingOne(len, room - |key|);
    }
  }

  lemma FittingThree(key: seq<byte>, len: seq<byte>, b: seq<byte>, room: nat)
    requires key != [] && len != []
    ensures var head := Fitting([key, len], room);
            && (head == key + len <==> |key + len| <= room)
            && Fitting([key, len, b], room) ==
               if head != key + len then head else head + if |b| <= room - |head| then b else []
  {
    FittingTwo(key, len, room);
    assert [key, len, b][1..] == [len, b];
    if |key| <= room {
      FittingTwo(len, b, room - |key|);
    }
  }

  lemma Regroup(a: seq<byte>, b: seq<byte>, c: seq<byte>)
    ensures a + b + c == a + (b + c)
  {
  }

  class PbBuff {
    const buf: array<byte>
    var ptr: nat
    var left: nat

    ghost predicate Valid()
      reads this
    {
      ptr + left == buf.Length
    }

    ghost function Written(): seq<byte>
      requires Valid()
      reads this, buf
    {
      buf[..ptr]
    }

    /** pb_init_buff */
    constructor (buffer: array<byte>)
      ensures Valid() && buf == buffer && ptr == 0 && Written() == []
    {
      buf := buffer;
      ptr, left := 0, buffer.Length;
    }

    /** pb_add, pb_add_user, and the stores of pb_add_dword and pb_add_ddword */
    method Add(bytes: seq<byte>) returns (ret: int)
      requires Valid()
      modifies this`ptr, this`left, buf
      ensures Valid()
      ensures ret == if |bytes| <= old(left) then 0 else -1
      ensures Written() == old(Written()) + if ret == 0 then bytes else []
    {
      if left < |bytes| {
        return -1;
      }
      var i := 0;
      while i < |bytes|
        invariant 0 <= i <= |bytes|
        invariant buf[..ptr + i] == old(buf[..ptr]) + bytes[..i]
        modifies buf
      {
        buf[ptr + i] := bytes[i];
        i := i + 1;
      }
      ptr, left := ptr + |bytes|, left - |bytes|;
      return 0;
    }

    /** pb_add_vint */
    method AddVint(n: nat) returns (ret: int)
      requires Valid() && n < U64
      modifies this`ptr, this`left, buf
      ensures Valid()
      ensures ret == if |EncodeVarint(n)| <= old(left) then 0 else -1
      ensures Written() == old(Written()) + if ret == 0 then EncodeVarint(n) else []
    {
      if n == 0 {
        ret := Add([0]);
        return;
      }
      var scratch, i := FillScratch(n);
      ret := Add(scratch[..i]);
    }

    /** pb_add_tag */
    method AddTag(wireType: nat, tag: nat) returns (ret: int)
      requires Valid() && wireType < 8
      modifies this`ptr, this`left, buf
      ensures Valid()
      ensures ret == if |EncodeVarint(Wrap32(tag * 8) + wireType)| <= old(left) then 0 else -1
      ensures Written() == old(Written()) + if ret == 0 then EncodeVarint(Wrap32(tag * 8) + wireType) else []
    {
      ret := AddVint(Wrap32(tag * 8) + wireType);
    }

    /** pb_add_field_val: exact success condition, and the exact bytes on failure. */
    method AddFieldVal(f: Field) returns (ret: int)
      requires Valid() && Representable(f)
      modifies this`ptr, this`left, buf
      ensures Valid()
      ensures ret == 0 <==> |EncodeField(f)| <= old(left)
      ensures Written() == old(Written()) + Fitting(Pieces(f), old(left))
      ensures ret == 0 ==> Written() == old(Written()) + EncodeField(f)
    {
      FittingField(f, left);
      ghost var key := EncodeVarint(Key(f));
      ret := AddTag(WireType(f.val), f.tag);
      if ret != 0 {
        return -1;
      }
      assert Written() == old(Written()) + key && left == old(left) - |key|;
      ghost var value := Fitting(ValuePieces(f.val), left);
      ret := AddValue(f.val);
      Regroup(old(Written()), key, value);
    }

    /** The switch of pb_add_field_val over the wire type. */
    method AddValue(v: Value) returns (ret: int)
      requires Valid() && ValueFits(v)
      modifies this`ptr, this`left, buf
      ensures Valid()
      ensures ret == 0 <==> |EncodeValue(v)| <= old(left)
      ensures Written() == old(Written()) + Fitting(ValuePieces(v), old(left))
    {
      FittingValue(v, left);
      match v {
        case Varint(n) => ret := AddVint(n);
        case Fixed64(n) => ret := Add(ToLe(n, 8));
        case Fixed32(n) => ret := Add(ToLe(n, 4));
        case Str(b) => ret := AddLengthAndBytes(b);
      }
    }

    /** The case of the switch for strings. */
    method AddLengthAndBytes(b: seq<byte>) returns (ret: int)
      requires Valid() && |b| < U64
      modifies this`ptr, this`left, buf
      ensures Valid()
      ensures ret == 0 <==> |EncodeVarint(|b|)| + |b| <= old(left)
      ensures Written() == old(Written()) + Fitting(ValuePieces(Str(b)), old(left))
    {
      ghost var head := EncodeVarint(|b|);
      FittingValue(Str(b), left);
      ret := AddVint(|b|);
      if ret != 0 {
        return -2;
      }
      assert Written() == old(Written()) + head && left == old(left) - |head|;
      ret := Add(b);
      Regroup(old(Written()), head, if ret == 0 then b else []);
    }

    /** pb_add_string_head */
    method AddStringHead(tag: nat, size: nat) returns (ret: int)
      requires Valid() && size < U64
      modifies this`ptr, this`left, buf
      ensures Valid()
      ensures ret == 0 <==> |StringHead(tag, size)| <= old(left)
      ensures ret == 0 ==> Written() == old(Written()) + StringHead(tag, size)
      ensures Written() ==
              old(Written()) + Fitting([EncodeVarint(Wrap32(tag * 8) + 2), EncodeVarint(size)], old(left))
    {
      ghost var key, len := EncodeVarint(Wrap32(tag * 8) + 2), EncodeVarint(size);
      assert [key, len][1..] == [len];
      ret := AddTag(2, tag);
      if ret != 0 {
        return -1;
      }
      assert Written() == old(Written()) + key && left == old(left) - |key|;
      FittingOne(len, left);
      ret := AddVint(size);
      Regroup(old(Written()), key, if ret == 0 then len else []);
    }

    /** pb_add_string_head and then pb_add_user: the buffer is as after pb_add_string, also when it is too small. */
    method AddStringInTwo(tag: nat, b: seq<byte>) returns (ret: int)
      requires Valid() && |b| < U64
      modifies this`ptr, this`left, buf
      ensures Valid()
      ensures ret == 0 <==> |EncodeField(Field(tag, Str(b)))| <= old(left)
      ensures Written() == old(Written()) + Fitting(Pieces(Field(tag, Str(b))), old(left))
    {
      FittingString(tag, b, left);
      ghost var head := StringHead(tag, |b|);
      ret := AddStringHead(tag, |b|);
      if ret != 0 {
        return;
      }
      assert Written() == old(Written()) + head && left == old(left) - |head|;
      ret := Add(b);
      Regroup(old(Written()), head, if ret == 0 then b else []);
    }
  }

  /** The loop of pb_add_vint: seven bits at a time, the top bit cleared on the last byte. */
  method FillScratch(n: nat) returns (scratch: array<byte>, i: nat)
    requires 0 < n < U64
    ensures fresh(scratch) && i <= scratch.Length == MAX_VARINT
    ensures scratch[..i] == EncodeVarint(n)
  {
    scratch := new byte[MAX_VARINT];
    i := 0;
    var value := n;
    FilledFirst(n);
    assert scratch[..i] == [];
    while value != 0
      invariant 0 <= i <= MAX_VARINT && 0 <= value && Filled(n, value, scratch[..i])
      decreases value
    {
      ghost var done := scratch[..i];
      FilledNext(n, value, done);
      scratch[i] := value % 128 + 128;
      assert scratch[..i + 1] == done + [value % 128 + 128];
      value := value / 128;
      i := i + 1;
    }
    ghost var done := scratch[..i];
    scratch[i - 1] := scratch[i - 1] - 128;
    assert scratch[..i] == done[..i - 1] + [done[i - 1] - 128];
  }

  /** The bytes of n written so far, each with its continuation bit, when value is what is left of it. */
  ghost predicate Filled(n: nat, value: nat, s: seq<byte>) {
    if value == 0 then
      |s| > 0 && s[|s| - 1] >= 128 && EncodeVarint(n) == s[..|s| - 1] + [s[|s| - 1] - 128]
    else
      |s| < MAX_VARINT && value < VarintBound(MAX_VARINT - |s|) && EncodeVarint(n) == s + EncodeVarint(value)
  }

  lemma FilledFirst(n: nat)
    requires 0 < n < U64
    ensures Filled(n, n, [])
  {
    VarintBoundIsU64();
  }

  lemma FilledNext(n: nat, value: nat, s: seq<byte>)
    requires value != 0 && Filled(n, value, s)
    ensures Filled(n, value / 128, s + [value % 128 + 128])
  {
    EncodeVarintStep(s, value, MAX_VARINT - |s|);
    assert (s + [value % 128 + 128])[..|s|] == s;
  }

  lemma EncodeVarintStep(done: seq<byte>, value: nat, k: nat)
    requires 0 < k && 0 < value < VarintBound(k)
    ensures value / 128 == 0 ==> EncodeVarint(value) == [value % 128]
    ensures value / 128 != 0 ==>
              && 1 < k && value / 128 < VarintBound(k - 1)
              && done + EncodeVarint(value) == done + [value % 128 + 128] + EncodeVarint(value / 128)
  {
  }

  /** Writes a whole message; what is in the buffer afterwards reads back as the same fields. */
  method WriteAll(b: PbBuff, fs: seq<Field>) returns (ok: bool)
    requires b.Valid() && b.ptr == 0
    requires forall f :: f in fs ==> InDomain(f)
    modifies b`ptr, b`left, b.buf
    ensures b.Valid()
    ensures ok <==> |EncodeFields(fs)| <= b.buf.Length
    ensures ok ==> Parse(b.Written()) == Message(fs, true)
  {
    var i := 0;
    assert EncodeFields(fs[..0]) == [];
    while i < |fs|
      invariant 0 <= i <= |fs| && b.Valid()
      invariant b.Written() == EncodeFields(fs[..i])
    {
      assert fs[i] in fs;
      var ret := b.AddFieldVal(fs[i]);
      EncodeFieldsSplit(fs, i);
      if ret != 0 {
        return false;
      }
      i := i + 1;
    }
    assert fs[..i] == fs;
    RoundTrip(fs);
    return true;
  }

  lemma EncodeFieldsSplit(fs: seq<Field>, i: nat)
    requires i < |fs|
    ensures EncodeFields(fs[..i + 1]) == EncodeFields(fs[..i]) + EncodeField(fs[i])
    ensures |EncodeFields(fs[..i + 1])| <= |EncodeFields(fs)|
  {
    assert fs[..i + 1] == fs[..i] + [fs[i]];
    EncodeFieldsAppend(fs[..i], [fs[i]]);
    assert EncodeFields([fs[i]]) == EncodeField(fs[i]) + EncodeFields([fs[i]][1..]);
    assert fs == fs[..i + 1] + fs[i + 1..];
    EncodeFieldsAppend(fs[..i + 1], fs[i + 1..]);
  }

  /** pb_eval_vint_length */
  method EvalVintLength(n: nat) returns (length: nat)
    ensures length == |EncodeVarint(n)|
  {
    if n == 0 {
      return 1;
    }
    length := 0;
    var value := n;
    while value != 0
      invariant |EncodeVarint(n)| == length + if value == 0 then 0 else |EncodeVarint(value)|
      decreases value
    {
      value := value / 128;
      length := length + 1;
    }
  }

  /** pb_eval_field_length: the size announced for a field is the size written for it. */
  method EvalFieldLength(f: Field) returns (length: nat)
    requires Representable(f)
    ensures length == |EncodeField(f)|
  {
    var key := EvalVintLength(Wrap32(f.tag * 8) + WireType(f.val));
    match f.val {
      case Varint(n) => var v := EvalVintLength(n); length := key + v;
      case Fixed64(_) => length := key + 8;
      case Fixed32(_) => length := key + 4;
      case Str(b) => var v := EvalVintLength(|b|); length := key + v + |b|;
    }
  }
}
