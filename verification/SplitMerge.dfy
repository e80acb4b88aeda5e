/**
 Packet splitting and reassembly (knv/protocol.cc). A packet that is too large is encoded, cut into
 numbered slices, and sent as one packet per slice; the receiver collects them in any order and
 decodes their concatenation. Trees are lists of wire fields, so sending and receiving go through
 the real encoding of module Wire.
 */
module SplitMerge {
  import opened Bytes
  import opened Basics
  import opened Wire

  const PKG_TAG: nat := 0xdb3
  const HDR_TAG: nat := 0xbad
  const BDY_TAG: nat := 0xdad
  const PART_BASE: nat := 0x1ee
  const RET_TAG: nat := 7
  const ERR_TAG: nat := 8
  const ALLOW_SPLIT_TAG: nat := 2002
  const MAX_PKG_SIZE_TAG: nat := 2003
  const TOTAL_TAG: nat := 2004
  const INDEX_TAG: nat := 2005
  const DEFAULT_MAX: nat := 64000

  // ----- lists of fields as the children of a node -----

  /** FindChildByTag */
  function Find(fs: seq<Field>, tag: nat): (r: Option<Field>)
    ensures r.Some? ==> r.value.tag == tag
  {
    if fs == [] then None
    else if fs[0].tag == tag then Some(fs[0])
    else Find(fs[1..], tag)
  }

  /** RemoveChildrenByTag */
  function RemoveAll(fs: seq<Field>, tag: nat): (r: seq<Field>)
    ensures forall f :: f in r ==> f in fs
  {
    if fs == [] then []
    else if fs[0].tag == tag then RemoveAll(fs[1..], tag)
    else [fs[0]] + RemoveAll(fs[1..], tag)
  }

  /** RemoveChildByPos on the child that FindChildByTag returns */
  function RemoveFirst(fs: seq<Field>, tag: nat): (r: seq<Field>)
    ensures forall f :: f in r ==> f in fs
  {
    if fs == [] then []
    else if fs[0].tag == tag then fs[1..]
    else [fs[0]] + RemoveFirst(fs[1..], tag)
  }

  /** SetChildInt: overwrite the child in place, or append one */
  function SetInt(fs: seq<Field>, tag: nat, n: nat): (r: seq<Field>)
    ensures forall f :: f in r ==> f in fs || f == Field(tag, Varint(n))
  {
    if fs == [] then [Field(tag, Varint(n))]
    else if fs[0].tag == tag then [Field(tag, Varint(n))] + fs[1..]
    else [fs[0]] + SetInt(fs[1..], tag, n)
  }

  /** The integer a header field holds; 0 when it is missing or no varint. */
  function HeaderInt(fs: seq<Field>, tag: nat): nat {
    var f := Find(fs, tag);
    if f.Some? && f.value.val.Varint? then f.value.val.n else 0
  }

  lemma {:induction false} FindSet(fs: seq<Field>, tag: nat, n: nat, other: nat)
    ensures Find(SetInt(fs, tag, n), other) == if other == tag then Some(Field(tag, Varint(n))) else Find(fs, other)
  {
    if fs != [] && fs[0].tag != tag {
      FindSet(fs[1..], tag, n, other);
      assert SetInt(fs, tag, n)[1..] == SetInt(fs[1..], tag, n);
    } else if fs != [] {
      assert SetInt(fs, tag, n)[1..] == fs[1..];
    }
  }

  lemma {:induction false} FindRemoved(fs: seq<Field>, tag: nat, other: nat)
    ensures Find(RemoveAll(fs, tag), other) == if other == tag then None else Find(fs, other)
  {
    if fs != [] {
      FindRemoved(fs[1..], tag, other);
      if fs[0].tag != tag {
        assert RemoveAll(fs, tag)[1..] == RemoveAll(fs[1..], tag);
      }
    }
  }

  lemma {:induction false} FindRemovedFirst(fs: seq<Field>, tag: nat, other: nat)
    requires other != tag
    ensures Find(RemoveFirst(fs, tag), other) == Find(fs, other)
  {
    if fs != [] && fs[0].tag != tag {
      FindRemovedFirst(fs[1..], tag, other);
      assert RemoveFirst(fs, tag)[1..] == RemoveFirst(fs[1..], tag);
    }
  }

  lemma {:induction false} FindAppended(fs: seq<Field>, f: Field, tag: nat)
    ensures Find(fs + [f], tag) ==
            if Find(fs, tag).Some? then Find(fs, tag) else if f.tag == tag then Some(f) else None
  {
    if fs == [] {
      assert fs + [f] == [f];
      assert Find([f], tag) == if f.tag == tag then Some(f) else Find([f][1..], tag);
    } else {
      assert (fs + [f])[1..] == fs[1..] + [f];
      FindAppended(fs[1..], f, tag);
    }
  }

  /** The number of children with a tag. */
  function Count(fs: seq<Field>, tag: nat): nat {
    if fs == [] then 0 else (if fs[0].tag == tag then 1 else 0) + Count(fs[1..], tag)
  }

  lemma {:induction false} CountRemovedFirst(fs: seq<Field>, tag: nat, other: nat)
    ensures Count(RemoveFirst(fs, tag), other) ==
            if other == tag && Count(fs, tag) > 0 then Count(fs, tag) - 1 else Count(fs, other)
  {
    if fs != [] && fs[0].tag != tag {
      CountRemovedFirst(fs[1..], tag, other);
      assert RemoveFirst(fs, tag)[1..] == RemoveFirst(fs[1..], tag);
    }
  }

  lemma {:induction false} CountAppended(fs: seq<Field>, f: Field, tag: nat)
    ensures Count(fs + [f], tag) == Count(fs, tag) + if f.tag == tag then 1 else 0
  {
    if fs == [] {
      assert fs + [f] == [f];
    } else {
      assert (fs + [f])[1..] == fs[1..] + [f];
      CountAppended(fs[1..], f, tag);
    }
  }

  lemma {:induction false} CountFind(fs: seq<Field>, tag: nat)
    ensures Find(fs, tag).None? <==> Count(fs, tag) == 0
  {
    if fs != [] {
      CountFind(fs[1..], tag);
    }
  }

  // ----- packets -----

  /** A protocol tree: its tag, the fields of its header node, and its other children. */
  datatype Tree = Tree(tag: nat, header: seq<Field>, others: seq<Field>)

  predicate Sendable(t: Tree) {
    && t.tag == PKG_TAG
    && (forall f :: f in t.header ==> InDomain(f))
    && (forall f :: f in t.others ==> InDomain(f))
    && |Contents(t)| < U32
  }

  function HeaderField(t: Tree): Field {
    Field(HDR_TAG, Str(EncodeFields(t.header)))
  }

  function Contents(t: Tree): seq<byte> {
    EncodeFields([HeaderField(t)] + t.others)
  }

  /** The bytes of a packet: one string field around the header and the other children. */
  function Serialize(t: Tree): seq<byte> {
    EncodeField(Field(PKG_TAG, Str(Contents(t))))
  }

  /** Expanding a node: its fields, or none if the message does not end correctly. */
  function Expand(v: Value): seq<Field> {
    if v.Str? && Parse(v.bytes).eom then Parse(v.bytes).fields else []
  }

  /** The tree built from the first field of a buffer; a tree without header is dropped. */
  function Decode(s: seq<byte>): Option<Tree> {
    if ReadField(s).End? then None
    else
      var f := ReadField(s).field;
      var children := Expand(f.val);
      var h := Find(children, HDR_TAG);
      if h.None? then None else Some(Tree(f.tag, Expand(h.value.val), RemoveFirst(children, HDR_TAG)))
  }

  lemma SerializeDecodes(t: Tree)
    requires Sendable(t)
    ensures ReadField(Serialize(t)).FieldOk?
    ensures Decode(Serialize(t)) == Some(t)
  {
    var f := Field(PKG_TAG, Str(Contents(t)));
    var fs := [HeaderField(t)] + t.others;
    assert InDomain(f);
    assert Serialize(t) == EncodeField(f) + [];
    ReadDomainField(f, []);
    HeaderFits(t);
    RoundTrip(fs);
    RoundTrip(t.header);
    assert fs[1..] == t.others;
  }

  lemma HeaderFits(t: Tree)
    requires |Contents(t)| < U32
    ensures InDomain(HeaderField(t))
  {
  }

  /** The state of a KnvProtocol object that splitting and reassembly use. */
  datatype Proto = Proto(tree: Option<Tree>, total: nat, index: nat, allowSplit: bool, maxPkg: nat)

  const EMPTY := Proto(None, 0, 0, false, 0)

  predicate IsValid(p: Proto) {
    p.tree.Some? && p.tree.value.tag == PKG_TAG
  }

  function RetCode(t: Tree): nat {
    Wrap32(HeaderInt(t.header, RET_TAG))
  }

  predicate HasBody(t: Tree) {
    Find(t.others, BDY_TAG).Some?
  }

  predicate IsComplete(p: Proto) {
    IsValid(p) && (RetCode(p.tree.value) != 0 || p.total == 0 || HasBody(p.tree.value))
  }

  /** InitHeaderInfo: the split count and index are read into 8-bit members, the size into a 16-bit one. */
  function FromTree(t: Option<Tree>): Proto {
    if t.None? then EMPTY
    else
      var h := t.value.header;
      Proto(t, HeaderInt(h, TOTAL_TAG) % 256, HeaderInt(h, INDEX_TAG) % 256,
            HeaderInt(h, ALLOW_SPLIT_TAG) != 0, HeaderInt(h, MAX_PKG_SIZE_TAG) % 65536)
  }

  function FromBytes(s: seq<byte>): Proto {
    FromTree(Decode(s))
  }

  // ----- slices -----

  /** s cut into pieces of sz bytes, the last one possibly shorter. */
  function Slices(s: seq<byte>, sz: nat): (r: seq<seq<byte>>)
    requires sz > 0
    ensures r != []
  {
    if |s| <= sz then [s] else [s[..sz]] + Slices(s[sz..], sz)
  }

  /** The slices make up the bytes, none is empty or too long, and all but the last one are full. */
  lemma SlicesMeaning(s: seq<byte>, sz: nat)
    requires sz > 0 && s != []
    ensures Concat(Slices(s, sz)) == s
    ensures forall p :: p in Slices(s, sz) ==> 0 < |p| <= sz
    ensures (|Slices(s, sz)| - 1) * sz < |s| <= |Slices(s, sz)| * sz
  {
    SlicesMakeUp(s, sz);
    SlicesFit(s, sz);
    SlicesCovered(s, sz);
  }

  lemma {:induction false} SlicesMakeUp(s: seq<byte>, sz: nat)
    requires sz > 0
    ensures Concat(Slices(s, sz)) == s
  {
    if |s| <= sz {
      ConcatCons(s, []);
      assert [s] + [] == [s];
    } else {
      SlicesMakeUp(s[sz..], sz);
      ConcatCons(s[..sz], Slices(s[sz..], sz));
      assert s == s[..sz] + s[sz..];
    }
  }

  lemma {:induction false} SlicesFit(s: seq<byte>, sz: nat)
    requires sz > 0 && s != []
    ensures forall p :: p in Slices(s, sz) ==> 0 < |p| <= sz
  {
    if |s| > sz {
      SlicesFit(s[sz..], sz);
    }
  }

  lemma {:induction false} SlicesCovered(s: seq<byte>, sz: nat)
    requires sz > 0 && s != []
    ensures (|Slices(s, sz)| - 1) * sz < |s| <= |Slices(s, sz)| * sz
  {
    if |s| > sz {
      var n := |Slices(s[sz..], sz)|;
      SlicesCovered(s[sz..], sz);
      MulSucc(sz, n);
      MulSucc(sz, n - 1);
    }
  }

  lemma ConcatCons(p: seq<byte>, rest: seq<seq<byte>>)
    ensures Concat([p] + rest) == p + Concat(rest)
  {
    assert ([p] + rest)[1..] == rest;
  }

  /** The bytes of slice i: sz of them, but only what is left for the last one. */
  function SliceLength(s: seq<byte>, sz: nat, i: nat): int
    requires sz > 0
  {
    if i == |Slices(s, sz)| - 1 then |s| - i * sz else sz
  }

  /** Slice i starts at byte i * sz. */
  lemma SliceAt(s: seq<byte>, sz: nat, i: nat)
    requires sz > 0 && s != [] && i < |Slices(s, sz)|
    ensures 0 <= i * sz <= i * sz + SliceLength(s, sz, i) <= |s|
    ensures Slices(s, sz)[i] == s[i * sz..i * sz + SliceLength(s, sz, i)]
  {
    MultipleIsProduct(sz, i);
    assert Multiple(sz, i) == i * sz;
    SliceFrom(s, sz, i);
  }

  lemma {:induction false} SliceFrom(s: seq<byte>, sz: nat, i: nat)
    requires sz > 0 && i < |Slices(s, sz)|
    ensures var at := Multiple(sz, i);
            var len := if i == |Slices(s, sz)| - 1 then |s| - at else sz;
            0 <= len && at + len <= |s| && Slices(s, sz)[i] == s[at..at + len]
    decreases i
  {
    if i > 0 {
      SliceFrom(s[sz..], sz, i - 1);
      assert Slices(s, sz) == [s[..sz]] + Slices(s[sz..], sz);
    } else if |s| <= sz {
      assert s[0..|s|] == s;
    }
  }

  /** The number of slices is the quotient rounded up, as Split computes it. */
  lemma SliceCount(s: seq<byte>, sz: nat)
    requires sz > 0 && s != []
    ensures (|s| + sz - 1) / sz == |Slices(s, sz)|
  {
    SlicesMeaning(s, sz);
    QuotientIs(|s| + sz - 1, sz, |Slices(s, sz)|);
  }

  lemma QuotientIs(a: nat, d: nat, q: nat)
    requires d > 0 && q * d <= a < (q + 1) * d
    ensures a / d == q
  {
    var r := a / d;
    assert r * d <= a < (r + 1) * d;
    if r < q {
      MulMono(r + 1, q, d);
      assert false;
    } else if r > q {
      MulMono(q + 1, r, d);
      assert false;
    }
  }

  // ----- receiving -----

  /** The length AddPartial reads from a child: of another type than string, the low word of its value. */
  function StrLen(v: Value): nat {
    if v.Str? then Wrap32(|v.bytes|) else Wrap32(v.n)
  }

  datatype Inventory = Missing | Faulty(code: int) | All(bytes: seq<byte>)

  /** The check AddPartial makes over parts i..n-1: the first one missing or unusable decides. */
  function TakeStock(fs: seq<Field>, i: nat, n: nat): Inventory
    requires i <= n
    decreases n - i
  {
    if i == n then All([])
    else
      var f := Find(fs, PART_BASE + i);
      if f.None? then Missing
      else if StrLen(f.value.val) == 0 then Faulty(-6)
      else if !f.value.val.Str? then Faulty(-7)
      else
        var rest := TakeStock(fs, i + 1, n);
        if rest.All? then All(f.value.val.bytes + rest.bytes) else rest
  }

  /** The children left after parts i..n-1 were taken out. */
  function WithoutParts(fs: seq<Field>, i: nat, n: nat): (r: seq<Field>)
    requires i <= n
    decreases n - i
  {
    if i == n then fs else WithoutParts(RemoveFirst(fs, PART_BASE + i), i + 1, n)
  }

  /** Whether an arriving part continues what p has collected; otherwise it replaces p. */
  predicate Continues(p: Proto, q: Proto) {
    p.tree.Some? && !IsComplete(p) && !IsComplete(q) && p.total == q.total && q.index < p.total
  }

  /**
   What UcMemManager::Alloc gives for the merge buffer: no object, an object without memory, or a buffer. Up to the
   largest block of a pool there is no object without memory.
   */
  datatype Memory = Absent | Null | Granted

  const LARGEST_BLOCK: nat := 4194304

  predicate Refused(memory: Memory, size: nat) {
    memory.Absent? || (memory.Null? && size <= LARGEST_BLOCK)
  }

  /** AddPartial: the return code and the new state. */
  function AddPartial(p: Proto, q: Proto, memory: Memory): (int, Proto)
  {
    if !IsValid(q) then (-1, p)
    else if !Continues(p, q) then (0, q)
    else
      var part := Find(q.tree.value.others, PART_BASE + q.index);
      if part.None? then (-2, p)
      else if !part.value.val.Str? then (-3, p)
      else if Find(p.tree.value.others, PART_BASE + q.index).Some? then (-4, p)
      else Merge(WithOthers(p, p.tree.value.others + [part.value]), memory)
  }

  function WithOthers(p: Proto, fs: seq<Field>): Proto
    requires p.tree.Some?
  {
    p.(tree := Some(p.tree.value.(others := fs)))
  }

  /**
   The part at which copying stops, because with it the bytes counted in 32 bits exceed the size counted before;
   n if there is none. Done bytes were copied from the parts before part i.
   */
  function CopyStop(fs: seq<Field>, i: nat, n: nat, done: nat, size: nat): (stop: nat)
    requires i <= n && TakeStock(fs, i, n).All?
    ensures i <= stop <= n
    decreases n - i
  {
    if i == n then n
    else
      var len := |Find(fs, PART_BASE + i).value.val.bytes|;
      if Wrap32(done + len) > size then i else CopyStop(fs, i + 1, n, done + len, size)
  }

  /** As long as the parts fit an int together, all of them are copied. */
  lemma {:induction false} CopiesAll(fs: seq<Field>, i: nat, n: nat, done: nat, size: nat)
    requires i <= n && TakeStock(fs, i, n).All? && done + |TakeStock(fs, i, n).bytes| <= size <= INT_MAX
    ensures CopyStop(fs, i, n, done, size) == n
    decreases n - i
  {
    if i < n {
      CopiesAll(fs, i + 1, n, done + |Find(fs, PART_BASE + i).value.val.bytes|, size);
    }
  }

  /**
   The second half of AddPartial, after the part was inserted. The length of the merged packet is counted in an
   int, which may overflow.
   */
  function Merge(p: Proto, memory: Memory): (int, Proto)
    requires p.tree.Some?
  {
    var fs := p.tree.value.others;
    var stock := TakeStock(fs, 0, p.total);
    match stock
    case Missing => (0, p)
    case Faulty(code) => (code, p)
    case All(bytes) =>
      var size := ToInt(|bytes|);
      if size <= 0 then (-8, p)
      else if Refused(memory, size) then (-9, p)
      else
        var stop := CopyStop(fs, 0, p.total, 0, size);
        var left := WithOthers(p, WithoutParts(fs, 0, stop));
        if stop < p.total then (-12, left)
        else if ReadField(bytes).End? then (-13, left)
        else (0, FromBytes(bytes))
  }

  /** Whether AddPartial gets as far as putting the arriving part into the tree. */
  predicate Inserts(p: Proto, q: Proto) {
    && IsValid(q) && Continues(p, q)
    && Find(q.tree.value.others, PART_BASE + q.index).Some?
    && Find(q.tree.value.others, PART_BASE + q.index).value.val.Str?
    && Find(p.tree.value.others, PART_BASE + q.index).None?
  }

  function Inserted(p: Proto, q: Proto): Proto
    requires Inserts(p, q)
  {
    WithOthers(p, p.tree.value.others + [Find(q.tree.value.others, PART_BASE + q.index).value])
  }

  /**
   The copy writes outside of any buffer: the object has no memory, or the length overflowed and no part was found
   to be too long.
   */
  predicate Astray(p: Proto, q: Proto, memory: Memory) {
    && Inserts(p, q)
    && var fs := Inserted(p, q).tree.value.others;
       && TakeStock(fs, 0, p.total).All?
       && var length := |TakeStock(fs, 0, p.total).bytes|;
          && 0 < ToInt(length) && !Refused(memory, ToInt(length))
          && (memory.Null? || (ToInt(length) < length && CopyStop(fs, 0, p.total, 0, ToInt(length)) == p.total))
  }

  function PartField(parts: seq<seq<byte>>, j: nat): Field
    requires j < |parts|
  {
    Field(PART_BASE + j, Str(parts[j]))
  }

  /** Among the part tags, fs has exactly the parts in got, each once. */
  ghost predicate HasParts(fs: seq<Field>, parts: seq<seq<byte>>, got: set<nat>) {
    forall j {:trigger PartField(parts, j)} :: 0 <= j < |parts| ==>
      && Find(fs, PART_BASE + j) == (if j in got then Some(PartField(parts, j)) else None)
      && Count(fs, PART_BASE + j) <= 1
  }

  /** What the receiver has after the parts in got: exactly those, and still incomplete. */
  ghost predicate Holds(p: Proto, parts: seq<seq<byte>>, got: set<nat>) {
    IsValid(p) && !IsComplete(p) && p.total == |parts| && HasParts(p.tree.value.others, parts, got)
  }

  /** One part of a split packet as it arrives. */
  ghost predicate IsPart(q: Proto, parts: seq<seq<byte>>) {
    q.index < |parts| && Holds(q, parts, {q.index})
  }

  ghost predicate AllParts(qs: seq<Proto>, parts: seq<seq<byte>>) {
    forall q :: q in qs ==> IsPart(q, parts)
  }

  ghost predicate AllOf(parts: seq<seq<byte>>, got: set<nat>) {
    forall j :: 0 <= j < |parts| ==> j in got
  }

  /** Slices of a packet: at least two, few enough to be counted in eight bits, none empty, together within an int. */
  ghost predicate Usable(parts: seq<seq<byte>>) {
    && 2 <= |parts| <= 255 && (forall j :: 0 <= j < |parts| ==> 0 < |parts[j]| < U32)
    && |Concat(parts)| <= INT_MAX
  }

  lemma {:induction false} StockOfParts(fs: seq<Field>, parts: seq<seq<byte>>, got: set<nat>, i: nat)
    requires i <= |parts| && Usable(parts) && HasParts(fs, parts, got)
    ensures TakeStock(fs, i, |parts|) ==
            if forall j :: i <= j < |parts| ==> j in got then All(Concat(parts[i..])) else Missing
    decreases |parts| - i
  {
    if i < |parts| {
      StockOfParts(fs, parts, got, i + 1);
      assert parts[i..][1..] == parts[i + 1..] && parts[i..][0] == parts[i];
      var part := PartField(parts, i);
      assert Find(fs, PART_BASE + i) == if i in got then Some(part) else None;
    }
  }

  lemma {:induction false} PartsTakenOut(p: Proto, parts: seq<seq<byte>>, got: set<nat>, i: nat)
    requires Holds(p, parts, got) && i <= |parts| <= 255
    requires forall j :: j in got ==> i <= j
    ensures Holds(WithOthers(p, WithoutParts(p.tree.value.others, i, |parts|)), parts, {})
    decreases |parts| - i
  {
    var t := p.tree.value;
    if i == |parts| {
      SameParts(t.others, parts, got, {});
      assert p == WithOthers(p, t.others);
    } else {
      var others := RemoveFirst(t.others, PART_BASE + i);
      var p' := WithOthers(p, others);
      FindRemovedFirst(t.others, PART_BASE + i, BDY_TAG);
      PartTakenOut(t.others, parts, got, i);
      PartsTakenOut(p', parts, got - {i}, i + 1);
      assert WithOthers(p', WithoutParts(others, i + 1, |parts|)) == WithOthers(p, WithoutParts(t.others, i, |parts|));
    }
  }

  lemma SameParts(fs: seq<Field>, parts: seq<seq<byte>>, got: set<nat>, same: set<nat>)
    requires HasParts(fs, parts, got)
    requires forall j :: 0 <= j < |parts| ==> (j in got <==> j in same)
    ensures HasParts(fs, parts, same)
  {
    forall j | 0 <= j < |parts|
      ensures Find(fs, PART_BASE + j) == if j in same then Some(PartField(parts, j)) else None
      ensures Count(fs, PART_BASE + j) <= 1
    {
      assert Count(fs, PartField(parts, j).tag) <= 1;
    }
  }

  lemma PartTakenOut(fs: seq<Field>, parts: seq<seq<byte>>, got: set<nat>, i: nat)
    requires i < |parts| && HasParts(fs, parts, got)
    ensures HasParts(RemoveFirst(fs, PART_BASE + i), parts, got - {i})
  {
    var fs' := RemoveFirst(fs, PART_BASE + i);
    forall j | 0 <= j < |parts|
      ensures Find(fs', PART_BASE + j) == if j in got - {i} then Some(PartField(parts, j)) else None
      ensures Count(fs', PART_BASE + j) <= 1
    {
      assert Count(fs, PartField(parts, j).tag) <= 1;
      CountRemovedFirst(fs, PART_BASE + i, PART_BASE + j);
      if j == i {
        CountFind(fs', PART_BASE + i);
      } else {
        FindRemovedFirst(fs, PART_BASE + i, PART_BASE + j);
      }
    }
  }

  lemma PartInserted(fs: seq<Field>, parts: seq<seq<byte>>, got: set<nat>, i: nat)
    requires i < |parts| && HasParts(fs, parts, got) && i !in got
    ensures HasParts(fs + [PartField(parts, i)], parts, got + {i})
  {
    forall j | 0 <= j < |parts|
      ensures Find(fs + [PartField(parts, i)], PART_BASE + j) ==
              if j in got + {i} then Some(PartField(parts, j)) else None
      ensures Count(fs + [PartField(parts, i)], PART_BASE + j) <= 1
    {
      assert Count(fs, PartField(parts, j).tag) <= 1;
      FindAppended(fs, PartField(parts, i), PART_BASE + j);
      CountAppended(fs, PartField(parts, i), PART_BASE + j);
      CountFind(fs, PART_BASE + j);
    }
  }

  /** A part that is already there is refused with -4, and the refusal changes nothing. */
  lemma DuplicateRefused(p: Proto, q: Proto, parts: seq<seq<byte>>, got: set<nat>, memory: Memory)
    requires Holds(p, parts, got) && IsPart(q, parts) && q.index in got
    ensures AddPartial(p, q, memory) == (-4, p)
  {
    var part := PartField(parts, q.index);
    assert Find(p.tree.value.others, PART_BASE + q.index) == Some(part);
    assert Find(q.tree.value.others, PART_BASE + q.index) == Some(part);
  }

  lemma MergeParts(p: Proto, parts: seq<seq<byte>>, got: set<nat>, memory: Memory)
    requires Holds(p, parts, got) && Usable(parts)
    ensures !AllOf(parts, got) ==> Merge(p, memory) == (0, p)
    ensures AllOf(parts, got) && Refused(memory, |Concat(parts)|) ==> Merge(p, memory) == (-9, p)
    ensures AllOf(parts, got) && !Refused(memory, |Concat(parts)|) && ReadField(Concat(parts)).FieldOk? ==>
              Merge(p, memory) == (0, FromBytes(Concat(parts)))
    ensures AllOf(parts, got) && !Refused(memory, |Concat(parts)|) && ReadField(Concat(parts)).End? ==>
              Merge(p, memory).0 == -13 && Holds(Merge(p, memory).1, parts, {})
  {
    StockOfParts(p.tree.value.others, parts, got, 0);
    assert parts[0..] == parts;
    PartsTakenOut(p, parts, got, 0);
    if AllOf(parts, got) {
      assert |Concat(parts)| >= |parts[0]|;
      MergeAll(p, Concat(parts), memory);
    }
  }

  /** What the merge comes to when all parts are there and fit an int together. */
  lemma MergeAll(p: Proto, bytes: seq<byte>, memory: Memory)
    requires p.tree.Some? && TakeStock(p.tree.value.others, 0, p.total) == All(bytes) && 0 < |bytes| <= INT_MAX
    ensures Merge(p, memory) ==
            if Refused(memory, |bytes|) then (-9, p)
            else if ReadField(bytes).FieldOk? then (0, FromBytes(bytes))
            else (-13, WithOthers(p, WithoutParts(p.tree.value.others, 0, p.total)))
  {
    IntOf(|bytes|);
    CopiesAll(p.tree.value.others, 0, p.total, 0, |bytes|);
  }

  /** One more packet, and what memory can be had for a merge when it arrives. */
  datatype Delivery = Delivery(part: Proto, memory: Memory)

  /** The object after these deliveries. */
  function After(p: Proto, ds: seq<Delivery>): Proto {
    if ds == [] then p else AddPartial(After(p, ds[..|ds| - 1]), ds[|ds| - 1].part, ds[|ds| - 1].memory).1
  }

  /**
   If the last missing part arrives and there is no object for the merge buffer, all parts are there, every later one
   is refused, and the packet is never completed.
   */
  lemma {:induction false} FailedMergeIsFinal(
    p: Proto, q: Proto, parts: seq<seq<byte>>, got: set<nat>, memory: Memory, later: seq<Delivery>)
    requires Holds(p, parts, got) && IsPart(q, parts) && q.index !in got && Usable(parts)
    requires AllOf(parts, got + {q.index}) && Refused(memory, |Concat(parts)|)
    requires forall d :: d in later ==> IsPart(d.part, parts)
    ensures var failed := AddPartial(p, q, memory);
            && failed.0 == -9 && !IsComplete(failed.1) && After(failed.1, later) == failed.1
            && forall d :: IsPart(d, parts) ==> forall m :: AddPartial(failed.1, d, m) == (-4, failed.1)
  {
    var inserted := NewPart(p, q, parts, got, memory);
    var all := got + {q.index};
    MergeParts(inserted, parts, all, memory);
    forall d, m | IsPart(d, parts)
      ensures AddPartial(inserted, d, m) == (-4, inserted)
    {
      DuplicateRefused(inserted, d, parts, all, m);
    }
    NothingChanges(inserted, parts, later);
  }

  /**
   Beyond the largest block the object may come without memory: then the merge writes to a null buffer, and it does
   so exactly in this case.
   */
  lemma NullBufferIsUsed(p: Proto, q: Proto, parts: seq<seq<byte>>, got: set<nat>, memory: Memory)
    requires Holds(p, parts, got) && IsPart(q, parts) && Usable(parts) && !AllOf(parts, got)
    ensures Astray(p, q, memory) <==>
            AllOf(parts, got + {q.index}) && memory.Null? && |Concat(parts)| > LARGEST_BLOCK
  {
    var part := PartField(parts, q.index);
    assert Find(p.tree.value.others, PART_BASE + q.index) == if q.index in got then Some(part) else None;
    if q.index in got {
      assert got + {q.index} == got;
    } else {
      var inserted := NewPart(p, q, parts, got, memory);
      StockOfParts(inserted.tree.value.others, parts, got + {q.index}, 0);
      assert parts[0..] == parts;
      IntOf(|Concat(parts)|);
      assert |Concat(parts)| >= |parts[0]|;
    }
  }

  lemma IntOf(n: nat)
    requires n <= INT_MAX
    ensures ToInt(n) == n
  {
  }

  lemma {:induction false} NothingChanges(p: Proto, parts: seq<seq<byte>>, later: seq<Delivery>)
    requires forall d, memory :: IsPart(d, parts) ==> AddPartial(p, d, memory) == (-4, p)
    requires forall d :: d in later ==> IsPart(d.part, parts)
    ensures After(p, later) == p
  {
    if later != [] {
      var init, last := later[..|later| - 1], later[|later| - 1];
      NothingChanges(p, parts, init);
      assert last in later;
    }
  }

  /** The state right after the insertion of a part that was missing. */
  lemma NewPart(p: Proto, q: Proto, parts: seq<seq<byte>>, got: set<nat>, memory: Memory) returns (inserted: Proto)
    requires Holds(p, parts, got) && IsPart(q, parts) && q.index !in got && Usable(parts)
    ensures Holds(inserted, parts, got + {q.index})
    ensures Inserts(p, q) && inserted == Inserted(p, q) && AddPartial(p, q, memory) == Merge(inserted, memory)
  {
    var t, part := p.tree.value, PartField(parts, q.index);
    assert Find(q.tree.value.others, PART_BASE + q.index) == Some(part);
    assert Find(t.others, PART_BASE + q.index) == None;
    inserted := WithOthers(p, t.others + [part]);
    FindAppended(t.others, part, BDY_TAG);
    PartInserted(t.others, parts, got, q.index);
  }

  // ----- whole runs of arrivals -----

  /** The receiver after these arrivals, starting from an empty object. */
  function Receive(arrivals: seq<Proto>): Proto {
    if arrivals == [] then EMPTY
    else AddPartial(Receive(arrivals[..|arrivals| - 1]), arrivals[|arrivals| - 1], Granted).1
  }

  function Indices(arrivals: seq<Proto>): set<nat> {
    set q | q in arrivals :: q.index
  }

  lemma IndicesStep(arrivals: seq<Proto>)
    requires arrivals != []
    ensures Indices(arrivals) == Indices(arrivals[..|arrivals| - 1]) + {arrivals[|arrivals| - 1].index}
  {
  }

  /** One arrival at a receiver that is still collecting. */
  lemma ArrivalStep(p: Proto, q: Proto, parts: seq<seq<byte>>, got: set<nat>)
    requires Holds(p, parts, got) && IsPart(q, parts) && Usable(parts)
    requires !AllOf(parts, got)
    ensures var p' := AddPartial(p, q, Granted).1;
            if !AllOf(parts, got + {q.index}) then Holds(p', parts, got + {q.index})
            else if ReadField(Concat(parts)).FieldOk? then p' == FromBytes(Concat(parts))
            else Holds(p', parts, {})
  {
    if q.index in got {
      DuplicateRefused(p, q, parts, got, Granted);
      assert got + {q.index} == got;
    } else {
      var inserted := NewPart(p, q, parts, got, Granted);
      MergeParts(inserted, parts, got + {q.index}, Granted);
    }
  }

  lemma FirstArrival(q: Proto, parts: seq<seq<byte>>)
    requires IsPart(q, parts) && Usable(parts)
    ensures AddPartial(EMPTY, q, Granted) == (0, q)
    ensures !AllOf(parts, {q.index})
  {
    OneIsNotAll(parts, {q.index}, q.index);
  }

  lemma OneIsNotAll(parts: seq<seq<byte>>, got: set<nat>, i: nat)
    requires got == {i} && |parts| >= 2
    ensures !AllOf(parts, got)
  {
    assert 0 !in got || 1 !in got;
  }

  /**
   Reassembly in any order: as long as an index is missing the receiver holds exactly the parts that
   arrived, whatever the order and the repetitions, and is not complete.
   */
  lemma {:induction false} CollectingInAnyOrder(arrivals: seq<Proto>, parts: seq<seq<byte>>)
    requires arrivals != [] && Usable(parts)
    requires AllParts(arrivals, parts)
    requires !AllOf(parts, Indices(arrivals))
    ensures Holds(Receive(arrivals), parts, Indices(arrivals))
    decreases |arrivals|
  {
    var init, last := arrivals[..|arrivals| - 1], arrivals[|arrivals| - 1];
    IndicesStep(arrivals);
    if init == [] {
      FirstArrival(last, parts);
      assert Indices(arrivals) == {last.index};
      assert Receive(arrivals) == AddPartial(EMPTY, last, Granted).1;
    } else {
      assert !AllOf(parts, Indices(init));
      CollectingInAnyOrder(init, parts);
      ArrivalStep(Receive(init), last, parts, Indices(init));
    }
  }

  /** The arrival that brings the last missing index turns the receiver into the decoded original. */
  lemma LastArrivalCompletes(arrivals: seq<Proto>, parts: seq<seq<byte>>)
    requires arrivals != [] && Usable(parts)
    requires AllParts(arrivals, parts)
    requires AllOf(parts, Indices(arrivals)) && !AllOf(parts, Indices(arrivals[..|arrivals| - 1]))
    requires ReadField(Concat(parts)).FieldOk?
    ensures Receive(arrivals) == FromBytes(Concat(parts))
  {
    var init, last := arrivals[..|arrivals| - 1], arrivals[|arrivals| - 1];
    IndicesStep(arrivals);
    if init == [] {
      FirstArrival(last, parts);
      assert false;
    } else {
      CollectingInAnyOrder(init, parts);
      ArrivalStep(Receive(init), last, parts, Indices(init));
    }
  }

  /** The indices collected since the packet was last complete, when parts arrive in this order. */
  ghost function Collected(order: seq<nat>, parts: seq<seq<byte>>): set<nat> {
    if order == [] then {}
    else
      var before := Collected(order[..|order| - 1], parts);
      (if AllOf(parts, before) then {} else before) + {order[|order| - 1]}
  }

  /** The receiver has exactly what was collected, and the packet once that is everything. */
  ghost predicate Gathered(p: Proto, order: seq<nat>, parts: seq<seq<byte>>) {
    var got := Collected(order, parts);
    if order == [] then p == EMPTY
    else if AllOf(parts, got) then p == FromBytes(Concat(parts))
    else Holds(p, parts, got)
  }

  /** The indices in the order of arrival. */
  predicate InThisOrder(qs: seq<Proto>, order: seq<nat>) {
    |qs| == |order| && forall k :: 0 <= k < |qs| ==> qs[k].index == order[k]
  }

  /**
   Every run of arrivals, also beyond completion: the receiver collects until everything is there and then is the
   packet; a part that comes later replaces it and starts a new collection.
   */
  lemma {:induction false} AnyArrivals(qs: seq<Proto>, order: seq<nat>, parts: seq<seq<byte>>)
    requires InThisOrder(qs, order) && Usable(parts) && AllParts(qs, parts)
    requires ReadField(Concat(parts)).FieldOk? && IsComplete(FromBytes(Concat(parts)))
    ensures Gathered(Receive(qs), order, parts)
    decreases |qs|
  {
    if qs != [] {
      var init, last := qs[..|qs| - 1], qs[|qs| - 1];
      assert last in qs;
      AnyArrivals(init, order[..|order| - 1], parts);
      GatherOneMore(Receive(init), last, order, parts);
    }
  }

  lemma GatherOneMore(p: Proto, q: Proto, order: seq<nat>, parts: seq<seq<byte>>)
    requires order != [] && q.index == order[|order| - 1] && IsPart(q, parts) && Usable(parts)
    requires ReadField(Concat(parts)).FieldOk? && IsComplete(FromBytes(Concat(parts)))
    requires Gathered(p, order[..|order| - 1], parts)
    ensures Gathered(AddPartial(p, q, Granted).1, order, parts)
  {
    var init := order[..|order| - 1];
    var before := Collected(init, parts);
    if init == [] || AllOf(parts, before) {
      assert Collected(order, parts) == {q.index};
      FirstArrival(q, parts);
    } else {
      ArrivalStep(p, q, parts, before);
    }
  }

  /** While parts of such a packet are collected and memory is there, the copy stays inside its buffer. */
  lemma NeverAstray(p: Proto, q: Proto, order: seq<nat>, parts: seq<seq<byte>>, memory: Memory)
    requires Usable(parts) && Gathered(p, order, parts) && IsPart(q, parts) && !memory.Null?
    requires ReadField(Concat(parts)).FieldOk? && IsComplete(FromBytes(Concat(parts)))
    ensures !Astray(p, q, memory)
  {
    if order != [] && !AllOf(parts, Collected(order, parts)) {
      NullBufferIsUsed(p, q, parts, Collected(order, parts), memory);
    }
  }
}
