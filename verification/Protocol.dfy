/** KnvProtocol::Split, EncodePart and AddPartial, and what they achieve together. */
module Protocol {
  import opened Bytes
  import opened Basics
  import opened Wire
  import opened SplitMerge

  // ----- sending -----

  /** EncodeWithBody first resets the return code and drops the error text. */
  function ClearRet(h: seq<Field>): seq<Field> {
    var h' := if Wrap32(HeaderInt(h, RET_TAG)) != 0 then SetInt(h, RET_TAG, 0) else h;
    var err := Find(h', ERR_TAG);
    if err.Some? && err.value.val.Str? then RemoveAll(h', ERR_TAG) else h'
  }

  lemma ClearedField(h: seq<Field>, tag: nat)
    requires tag != ERR_TAG
    ensures Find(ClearRet(h), tag) ==
            if tag == RET_TAG && Wrap32(HeaderInt(h, RET_TAG)) != 0 then Some(Field(RET_TAG, Varint(0)))
            else Find(h, tag)
  {
    FindSet(h, RET_TAG, 0, tag);
    FindRemoved(h, ERR_TAG, tag);
    FindRemoved(SetInt(h, RET_TAG, 0), ERR_TAG, tag);
  }

  lemma ClearRetKeeps(h: seq<Field>, tag: nat)
    requires tag != RET_TAG && tag != ERR_TAG
    ensures HeaderInt(ClearRet(h), tag) == HeaderInt(h, tag)
    ensures Wrap32(HeaderInt(ClearRet(h), RET_TAG)) == 0
  {
    ClearedField(h, tag);
    ClearedField(h, RET_TAG);
  }

  /** The tree EncodeWithBody serialises. */
  function WithBody(h: seq<Field>, b: Field): Tree {
    Tree(PKG_TAG, ClearRet(h), [b])
  }

  /** The tree of the packet that carries part i, given the header at the time. */
  function PartTree(h: seq<Field>, parts: seq<seq<byte>>, i: nat): Tree
    requires i < |parts|
  {
    WithBody(SetInt(h, INDEX_TAG, i), PartField(parts, i))
  }

  function MaxPkgSize(maxPkg: nat): (r: nat)
    ensures 128 <= r <= DEFAULT_MAX
  {
    if maxPkg < 128 || maxPkg > DEFAULT_MAX then DEFAULT_MAX else maxPkg
  }

  /** What Split decides; t is the tree as it stands then, with the old split fields gone. */
  datatype Plan = Whole(t: Tree) | Refuse(t: Tree) | Cut(t: Tree, original: Tree, size: nat)

  function Stripped(t: Tree): Tree {
    t.(header := RemoveAll(RemoveAll(t.header, TOTAL_TAG), INDEX_TAG))
  }

  /** The packet Split would send in one piece, after it was encoded. */
  function Original(t: Tree, b: Option<Field>): Tree {
    if b.Some? then WithBody(t.header, b.value)
    else if RetCode(t) != 0 then t.(others := [])
    else t
  }

  function PlanSplit(tree: Tree, allow: bool, maxPkg: nat, b: Option<Field>): Plan {
    var t, max := Stripped(tree), MaxPkgSize(maxPkg);
    var estimate :=
      if b.Some? then |EncodeField(HeaderField(t))| + |EncodeField(b.value)| + 32 else |Serialize(t)| + 32;
    if !allow || (b.None? && !HasBody(t)) || estimate <= max then Whole(t)
    else
      var original := Original(t, b);
      var t' := if b.Some? then t.(header := original.header) else t;
      var hdr := |EncodeField(HeaderField(t'))| + 16;
      if |Serialize(original)| <= max then Whole(t')
      else if hdr >= max then Refuse(t')
      else if |Slices(Serialize(original), max - hdr)| <= 1 then Whole(t')
      else Cut(t', original, max - hdr)
  }

  function PartsOf(plan: Plan): seq<seq<byte>>
    requires plan.Cut? && plan.size > 0
  {
    Slices(Serialize(plan.original), plan.size)
  }

  /** The children after the first k parts were put in. */
  function PlaceParts(fs: seq<Field>, parts: seq<seq<byte>>, k: nat): seq<Field>
    requires k <= |parts|
  {
    if k == 0 then fs
    else RemoveAll(PlaceParts(fs, parts, k - 1), PART_BASE + (k - 1)) + [PartField(parts, k - 1)]
  }

  lemma {:induction false} PlacedPart(fs: seq<Field>, parts: seq<seq<byte>>, k: nat, i: nat)
    requires i < k <= |parts|
    ensures Find(PlaceParts(fs, parts, k), PART_BASE + i) == Some(PartField(parts, i))
  {
    var before, part := PlaceParts(fs, parts, k - 1), PartField(parts, k - 1);
    if i < k - 1 {
      PlacedPart(fs, parts, k - 1, i);
    }
    FindRemoved(before, part.tag, PART_BASE + i);
    FindAppended(RemoveAll(before, part.tag), part, PART_BASE + i);
  }

  /** The part whose tag is that of the header. */
  const HEADER_PART: nat := 2495

  /** All children of the tree, the header among them. */
  function Children(t: Tree): seq<Field> {
    [HeaderField(t)] + t.others
  }

  lemma RemoveFromCons(f: Field, fs: seq<Field>, tag: nat)
    ensures RemoveAll([f] + fs, tag) == (if f.tag == tag then [] else [f]) + RemoveAll(fs, tag)
  {
    assert ([f] + fs)[1..] == fs;
  }

  /** Inserting part 2495 removes the header from the tree: it is there exactly as long as fewer parts were put in. */
  lemma {:induction false} HeaderChild(t: Tree, parts: seq<seq<byte>>, k: nat)
    requires k <= |parts|
    ensures PlaceParts(Children(t), parts, k) ==
            (if k <= HEADER_PART then [HeaderField(t)] else []) + PlaceParts(t.others, parts, k)
  {
    if k > 0 {
      HeaderChild(t, parts, k - 1);
      var before, part := PlaceParts(t.others, parts, k - 1), PartField(parts, k - 1);
      var header := if k - 1 <= HEADER_PART then [HeaderField(t)] else [];
      assert RemoveAll(header + before, part.tag) ==
             (if k <= HEADER_PART then [HeaderField(t)] else []) + RemoveAll(before, part.tag) by {
        RemoveFromCons(HeaderField(t), before, part.tag);
        assert [] + before == before && [] + RemoveAll(before, part.tag) == RemoveAll(before, part.tag);
      }
    }
  }

  /** Split cuts the packet into so many parts that the header is lost; a pointer to the released node is kept. */
  predicate LosesHeader(plan: Plan) {
    plan.Cut? && plan.size > 0 && |PartsOf(plan)| > HEADER_PART
  }

  /** The return code and the object after Split carried out its plan. */
  predicate Done(p: Proto, ret: int, plan: Plan, b: Option<Field>)
    requires p.tree.Some?
  {
    match plan
    case Whole(t) =>
      && ret == 0 && p.total == 1
      && p.tree.value == if b.Some? then t.(others := t.others + [Field(PART_BASE, b.value.val)]) else t
    case Refuse(t) => ret == -6 && p.total == 1 && p.tree.value == t
    case Cut(t, _, size) =>
      && ret == 0 && size > 0
      && p.total == |PartsOf(plan)| % 256
      && (!LosesHeader(plan) ==> p.tree.value.header == SetInt(t.header, TOTAL_TAG, |PartsOf(plan)|))
      && p.tree.value.others == PlaceParts(t.others, PartsOf(plan), |PartsOf(plan)|)
  }

  /** The tag EncodePart looks for, and the index it puts into the header, after conversion from int. */
  function PartTag(i: int): nat {
    (PART_BASE + i) % 0x1_0000_0000
  }

  function IndexValue(i: int): nat {
    i % 0x1_0000_0000_0000_0000
  }

  // ----- the objects -----

  class KnvProtocol {
    var tree: Option<Tree>
    var total: nat   // 8 bits
    var index: nat   // 8 bits
    var allowSplit: bool
    var maxPkg: nat  // 16 bits
    ghost var headed: bool // the header pointer refers to a child of the tree

    function State(): Proto
      reads this
    {
      Proto(tree, total, index, allowSplit, maxPkg)
    }

    constructor ()
      ensures State() == EMPTY && headed
    {
      tree, total, index, allowSplit, maxPkg := None, 0, 0, false, 0;
      headed := true;
    }

    method Assign(p: Proto)
      modifies this
      ensures State() == p && headed
    {
      tree, total, index, allowSplit, maxPkg := p.tree, p.total, p.index, p.allowSplit, p.maxPkg;
      headed := true;
    }

    /** Split: the parts become children of the tree, and their number goes into the header and into 8 bits. */
    method Split(b: Option<Field>) returns (ret: int)
      modifies this`tree, this`total, this`headed
      ensures !IsValid(old(State())) ==> ret == -1 && State() == old(State()) && headed == old(headed)
      ensures IsValid(old(State())) && old(headed) ==>
                var plan := PlanSplit(old(tree).value, allowSplit, maxPkg, b);
                IsValid(State()) && Done(State(), ret, plan, b) && (headed <==> !LosesHeader(plan))
    {
      if !IsValid(State()) {
        return -1;
      }
      var plan := Decide(tree.value, allowSplit, maxPkg, b);
      total := 1;
      match plan {
        case Refuse(t) =>
          tree := Some(t);
          return -6;
        case Whole(t) =>
          tree := Some(if b.Some? then t.(others := t.others + [Field(PART_BASE, b.value.val)]) else t);
          return 0;
        case Cut(t, original, size) =>
          var parted, count := CutUp(t, original, size);
          total, tree := count % 256, Some(parted);
          headed := headed && count <= HEADER_PART;
          return 0;
      }
    }

    /** EncodePart: the bytes to send for one part. A negative index passes the check and is converted. */
    method EncodePart(i: int) returns (ret: int, bytes: seq<byte>)
      requires -0x8000_0000 <= i <= INT_MAX
      modifies this`tree
      ensures !IsValid(old(State())) || i >= total ==> ret == -1 && tree == old(tree)
      ensures IsValid(old(State())) ==> IsValid(State()) && tree.value.others == old(tree).value.others
      ensures IsValid(old(State())) && i < total && total != 1 && Find(old(tree).value.others, PartTag(i)).None? ==>
                ret == -2 && tree == old(tree)
      ensures IsValid(old(State())) && i < total && total != 1 && Find(old(tree).value.others, PartTag(i)).Some? &&
              headed ==>
                var t := WithBody(SetInt(old(tree).value.header, INDEX_TAG, IndexValue(i)),
                                  Find(old(tree).value.others, PartTag(i)).value);
                ret == |bytes| && bytes == Serialize(t) && tree.value.header == t.header
      ensures IsValid(old(State())) && i < total == 1 && headed ==>
                ret == |bytes| &&
                bytes == Serialize(if Find(old(tree).value.others, PART_BASE).Some?
                                   then WithBody(old(tree).value.header,
                                                 Field(BDY_TAG, Find(old(tree).value.others, PART_BASE).value.val))
                                   else Original(old(tree).value, None))
    {
      if !IsValid(State()) || i >= total {
        return -1, [];
      }
      var t := tree.value;
      if total == 1 {
        var b := Find(t.others, PART_BASE);
        if b.Some? {
          tree := Some(t.(header := ClearRet(t.header)));
          bytes := Serialize(WithBody(t.header, Field(BDY_TAG, b.value.val)));
        } else {
          bytes := Serialize(Original(t, None));
        }
        return |bytes|, bytes;
      }
      var b := Find(t.others, PartTag(i));
      if b.None? {
        return -2, [];
      }
      var h := SetInt(t.header, INDEX_TAG, IndexValue(i));
      tree := Some(t.(header := ClearRet(h)));
      bytes := Serialize(WithBody(h, b.value));
      return |bytes|, bytes;
    }

    /** AddPartial, with its counting and copying loops. */
    method AddPartial(part: KnvProtocol, memory: Memory) returns (ret: int)
      requires part != this
      modifies this
      ensures old(headed) ==> headed
      ensures old(headed && part.headed) && !Astray(old(State()), old(part.State()), memory) ==>
                (ret, State()) == SplitMerge.AddPartial(old(State()), old(part.State()), memory)
    {
      if !IsValid(part.State()) {
        return -1;
      }
      if tree.None? {
        Assign(part.State());
        return 0;
      }
      if IsComplete(State()) || IsComplete(part.State()) || total != part.total || part.index >= total {
        Assign(part.State());
        return 0;
      }
      var p := Find(part.tree.value.others, PART_BASE + part.index);
      if p.None? {
        return -2;
      }
      if !p.value.val.Str? {
        return -3;
      }
      if Find(tree.value.others, PART_BASE + part.index).Some? {
        return -4;
      }
      tree := Some(tree.value.(others := tree.value.others + [p.value]));
      ghost var inserted := State();
      var code, length := CountParts(tree.value.others, total);
      if code != 1 {
        return code;
      }
      if length <= 0 {
        return -8;
      }
      if Refused(memory, length) {
        return -9;
      }
      var ok, bytes, others := CopyParts(tree.value.others, total, length);
      tree := Some(tree.value.(others := others));
      if !ok {
        return -12;
      }
      if ReadField(bytes).End? {
        return -13;
      }
      Assign(FromBytes(bytes));
      return 0;
    }
  }

  /** The rounded-up quotient of Split. */
  method NumberOfParts(encoded: seq<byte>, size: nat) returns (count: nat)
    requires size > 0 && encoded != []
    ensures count == |Slices(encoded, size)|
  {
    count := (|encoded| + size - 1) / size;
    SliceCount(encoded, size);
  }

  /** The second half of Split: the number of parts goes into the header, and the parts into the tree. */
  method CutUp(t: Tree, original: Tree, size: nat) returns (r: Tree, count: nat)
    requires size > 0
    ensures count == |Slices(Serialize(original), size)| && r.tag == t.tag
    ensures r.header == SetInt(t.header, TOTAL_TAG, count)
    ensures r.others == PlaceParts(t.others, Slices(Serialize(original), size), count)
  {
    var encoded := Serialize(original);
    count := NumberOfParts(encoded, size);
    r := t.(header := SetInt(t.header, TOTAL_TAG, count));
    var children := PlaceAll(Children(r), encoded, size, count);
    HeaderChild(r, Slices(encoded, size), count);
    r := r.(others := if count <= HEADER_PART then children[1..] else children);
  }

  /** The first half of Split: sizes, and the number of packets by division. */
  method Decide(tree: Tree, allow: bool, maxPkg: nat, b: Option<Field>) returns (plan: Plan)
    ensures plan == PlanSplit(tree, allow, maxPkg, b)
    ensures plan.Cut? ==> plan.size > 0
  {
    var t, max := Stripped(tree), MaxPkgSize(maxPkg);
    var estimate :=
      if b.Some? then |EncodeField(HeaderField(t))| + |EncodeField(b.value)| + 32 else |Serialize(t)| + 32;
    if !allow || (b.None? && !HasBody(t)) || estimate <= max {
      return Whole(t);
    }
    var original := Original(t, b);
    var encoded := Serialize(original);
    if b.Some? {
      t := t.(header := original.header);
    }
    if |encoded| <= max {
      return Whole(t);
    }
    var hdr := |EncodeField(HeaderField(t))| + 16;
    if hdr >= max {
      return Refuse(t);
    }
    var size := max - hdr;
    SliceCount(encoded, size);
    if (|encoded| + size - 1) / size <= 1 {
      return Whole(t);
    }
    return Cut(t, original, size);
  }

  /** The loop of Split that inserts the parts. */
  method PlaceAll(fs: seq<Field>, encoded: seq<byte>, size: nat, count: nat) returns (r: seq<Field>)
    requires size > 0 && encoded != [] && count == |Slices(encoded, size)|
    ensures r == PlaceParts(fs, Slices(encoded, size), count)
  {
    ghost var parts := Slices(encoded, size);
    var last := count - 1;
    SliceAt(encoded, size, last);
    var lastSize := |encoded| - last * size;
    r := fs;
    var i := 0;
    while i < count
      invariant 0 <= i <= count && r == PlaceParts(fs, parts, i)
    {
      SliceAt(encoded, size, i);
      var len := if i == last then lastSize else size;
      var part := Field(PART_BASE + i, Str(encoded[i * size..i * size + len]));
      r := RemoveAll(r, PART_BASE + i) + [part];
      i := i + 1;
    }
  }

  /** The first loop of AddPartial: 1 when every part is there, else what to return. The length is an int. */
  method CountParts(fs: seq<Field>, n: nat) returns (code: int, length: int)
    ensures match TakeStock(fs, 0, n)
            case Missing => code == 0
            case Faulty(c) => code == c && c < 0
            case All(bytes) => code == 1
    ensures code == 1 ==> length == ToInt(|TakeStock(fs, 0, n).bytes|)
  {
    length := 0;
    ghost var sum: nat := 0;
    var i := 0;
    while i < n
      invariant 0 <= i <= n && length == ToInt(sum)
      invariant TakeStock(fs, i, n).All? <==> TakeStock(fs, 0, n).All?
      invariant !TakeStock(fs, i, n).All? ==> TakeStock(fs, 0, n) == TakeStock(fs, i, n)
      invariant TakeStock(fs, i, n).All? ==> sum + |TakeStock(fs, i, n).bytes| == |TakeStock(fs, 0, n).bytes|
    {
      var f := Find(fs, PART_BASE + i);
      if f.None? {
        return 0, 0;
      }
      if StrLen(f.value.val) == 0 {
        return -6, 0;
      }
      if !f.value.val.Str? {
        return -7, 0;
      }
      var len := |f.value.val.bytes|;
      AddInInt(sum, len);
      length := ToInt((length + len) % 0x1_0000_0000);
      sum := sum + len;
      i := i + 1;
    }
    code := 1;
  }

  /** Adding in an int is adding and then converting. */
  lemma AddInInt(sum: nat, len: nat)
    ensures ToInt((ToInt(sum) + len) % 0x1_0000_0000) == ToInt(sum + len)
  {
    var turns := sum / 0x1_0000_0000 + if ToInt(sum) < 0 then 1 else 0;
    assert ToInt(sum) == sum - 0x1_0000_0000 * turns;
    SameRemainder(sum + len, ToInt(sum) + len, turns);
  }

  lemma SameRemainder(x: int, y: int, turns: int)
    requires x == y + 0x1_0000_0000 * turns
    ensures x % 0x1_0000_0000 == y % 0x1_0000_0000
  {
    assert y == 0x1_0000_0000 * (x / 0x1_0000_0000 - turns) + x % 0x1_0000_0000;
  }

  /** The parts from i to n are found in rest as in fs. */
  ghost predicate SameParts(rest: seq<Field>, fs: seq<Field>, i: nat, n: nat) {
    forall tag :: PART_BASE + i <= tag < PART_BASE + n ==> Find(rest, tag) == Find(fs, tag)
  }

  lemma LaterPartsStay(rest: seq<Field>, fs: seq<Field>, i: nat, n: nat)
    requires SameParts(rest, fs, i, n)
    ensures SameParts(RemoveFirst(rest, PART_BASE + i), fs, i + 1, n)
  {
    forall tag | PART_BASE + i < tag < PART_BASE + n
      ensures Find(RemoveFirst(rest, PART_BASE + i), tag) == Find(fs, tag)
    {
      FindRemovedFirst(rest, PART_BASE + i, tag);
    }
  }

  /**
   The second loop of AddPartial: copies the parts one behind the other and takes them out of the tree, until one
   does not fit the size.
   */
  method CopyParts(fs: seq<Field>, n: nat, size: nat) returns (ok: bool, bytes: seq<byte>, rest: seq<Field>)
    requires TakeStock(fs, 0, n).All?
    ensures ok <==> CopyStop(fs, 0, n, 0, size) == n
    ensures ok ==> bytes == TakeStock(fs, 0, n).bytes
    ensures rest == WithoutParts(fs, 0, CopyStop(fs, 0, n, 0, size))
  {
    bytes, rest := [], fs;
    ghost var stop := CopyStop(fs, 0, n, 0, size);
    var i := 0;
    while i < n
      invariant 0 <= i <= stop && TakeStock(fs, i, n).All?
      invariant bytes + TakeStock(fs, i, n).bytes == TakeStock(fs, 0, n).bytes
      invariant CopyStop(fs, i, n, |bytes|, size) == stop
      invariant WithoutParts(rest, i, stop) == WithoutParts(fs, 0, stop)
      invariant SameParts(rest, fs, i, n)
    {
      var p := Find(rest, PART_BASE + i).value;
      if Wrap32(|bytes| + |p.val.bytes|) > size {
        return false, bytes, rest;
      }
      ghost var later := TakeStock(fs, i + 1, n).bytes;
      assert bytes + (p.val.bytes + later) == bytes + p.val.bytes + later;
      bytes := bytes + p.val.bytes;
      LaterPartsStay(rest, fs, i, n);
      rest := RemoveFirst(rest, PART_BASE + i);
      i := i + 1;
    }
    ok := true;
  }

  // ----- sending and receiving together -----

  /** One call of EncodePart on a packet cut into parts: the header it found, and the index asked for. */
  datatype Sending = Sending(header: seq<Field>, index: nat)

  /** What EncodePart serialises when its 8-bit part count is |parts|: a count of one is taken for an uncut packet. */
  function SentTree(x: Sending, parts: seq<seq<byte>>): Tree
    requires x.index < |parts|
  {
    if |parts| == 1 then WithBody(x.header, Field(BDY_TAG, Str(parts[0]))) else PartTree(x.header, parts, x.index)
  }

  /** The header is still there and carries the number of parts, and the packet can be encoded. */
  ghost predicate Proper(x: Sending, count: nat, parts: seq<seq<byte>>) {
    && x.index < |parts| && HeaderInt(x.header, TOTAL_TAG) == count <= HEADER_PART
    && Sendable(SentTree(x, parts))
  }

  /** The packet as the receiver decodes it. */
  function Arrival(x: Sending, parts: seq<seq<byte>>): Proto
    requires x.index < |parts|
  {
    FromBytes(Serialize(SentTree(x, parts)))
  }

  predicate InRange(xs: seq<Sending>, parts: seq<seq<byte>>) {
    forall k :: 0 <= k < |xs| ==> xs[k].index < |parts|
  }

  ghost predicate AllProper(xs: seq<Sending>, count: nat, parts: seq<seq<byte>>) {
    InRange(xs, parts) && forall k :: 0 <= k < |xs| ==> Proper(xs[k], count, parts)
  }

  function Arrivals(xs: seq<Sending>, parts: seq<seq<byte>>): (r: seq<Proto>)
    requires InRange(xs, parts)
    ensures |r| == |xs|
    ensures forall k :: 0 <= k < |xs| ==> r[k] == Arrival(xs[k], parts)
  {
    seq(|xs|, k requires 0 <= k < |xs| => Arrival(xs[k], parts))
  }

  lemma PartTreeHeader(h: seq<Field>, parts: seq<seq<byte>>, i: nat)
    requires i < |parts|
    ensures var t := PartTree(h, parts, i);
            && HeaderInt(t.header, TOTAL_TAG) == HeaderInt(h, TOTAL_TAG)
            && HeaderInt(t.header, INDEX_TAG) == i
            && RetCode(t) == 0
  {
    var h' := SetInt(h, INDEX_TAG, i);
    ClearRetKeeps(h', TOTAL_TAG);
    ClearRetKeeps(h', INDEX_TAG);
    FindSet(h, INDEX_TAG, i, TOTAL_TAG);
    FindSet(h, INDEX_TAG, i, INDEX_TAG);
  }

  lemma OnePart(parts: seq<seq<byte>>, i: nat, got: set<nat>)
    requires i < |parts| <= 255 && got == {i}
    ensures HasParts([PartField(parts, i)], parts, got)
    ensures Find([PartField(parts, i)], BDY_TAG).None?
  {
    var fs := [PartField(parts, i)];
    assert fs[1..] == [];
    forall j | 0 <= j < |parts|
      ensures Find(fs, PART_BASE + j) == if j in got then Some(PartField(parts, j)) else None
      ensures Count(fs, PART_BASE + j) <= 1
    {
      assert Find(fs, PART_BASE + j) == if i == j then Some(fs[0]) else Find(fs[1..], PART_BASE + j);
      assert Count(fs, PART_BASE + j) == (if i == j then 1 else 0) + Count(fs[1..], PART_BASE + j);
    }
  }

  lemma PartTreeIsPart(h: seq<Field>, parts: seq<seq<byte>>, i: nat)
    requires i < |parts| <= 255 && HeaderInt(h, TOTAL_TAG) % 256 == |parts|
    ensures var q := FromTree(Some(PartTree(h, parts, i)));
            IsPart(q, parts) && q.index == i
  {
    PartTreeHeader(h, parts, i);
    OnePart(parts, i, {i});
  }

  lemma ArrivesAsSent(t: Tree)
    requires Sendable(t)
    ensures FromBytes(Serialize(t)) == FromTree(Some(t))
  {
    SerializeDecodes(t);
  }

  /** What EncodePart sends arrives as a part in the sense of the receiver. */
  lemma SendingIsPart(x: Sending, count: nat, parts: seq<seq<byte>>)
    requires Proper(x, count, parts) && 2 <= |parts| <= 255 && count % 256 == |parts|
    ensures IsPart(Arrival(x, parts), parts) && Arrival(x, parts).index == x.index
  {
    ArrivesAsSent(PartTree(x.header, parts, x.index));
    PartTreeIsPart(x.header, parts, x.index);
  }

  lemma SendingsAreParts(xs: seq<Sending>, count: nat, parts: seq<seq<byte>>)
    requires AllProper(xs, count, parts)
    requires 2 <= |parts| <= 255 && count % 256 == |parts|
    ensures AllParts(Arrivals(xs, parts), parts)
  {
    var arrivals := Arrivals(xs, parts);
    forall k | 0 <= k < |arrivals|
      ensures IsPart(arrivals[k], parts)
    {
      SendingIsPart(xs[k], count, parts);
    }
  }

  /** None of the parts is empty or longer than the largest packet. */
  ghost predicate SmallParts(parts: seq<seq<byte>>) {
    forall j :: 0 <= j < |parts| ==> 0 < |parts[j]| <= DEFAULT_MAX
  }

  lemma {:induction false} ConcatBound(parts: seq<seq<byte>>)
    requires SmallParts(parts)
    ensures |Concat(parts)| <= |parts| * 64000
  {
    if parts != [] {
      assert forall j :: 0 <= j < |parts| - 1 ==> parts[1..][j] == parts[j + 1];
      ConcatBound(parts[1..]);
    }
  }

  lemma SmallPartsUsable(parts: seq<seq<byte>>)
    requires SmallParts(parts) && 2 <= |parts| <= 255
    ensures Usable(parts)
  {
    ConcatBound(parts);
  }

  /** The slices of a cut packet: they make up its bytes, none is empty, and there are at least two. */
  lemma PlanParts(tree: Tree, allow: bool, maxPkg: nat, b: Option<Field>)
    requires PlanSplit(tree, allow, maxPkg, b).Cut?
    ensures var plan := PlanSplit(tree, allow, maxPkg, b);
            && plan.size > 0
            && Concat(PartsOf(plan)) == Serialize(plan.original)
            && |PartsOf(plan)| >= 2
            && SmallParts(PartsOf(plan))
            && HeaderInt(plan.original.header, TOTAL_TAG) == 0
            && plan.t.header == plan.original.header
  {
    var plan := PlanSplit(tree, allow, maxPkg, b);
    SlicesMeaning(Serialize(plan.original), plan.size);
    NoCountLeft(tree, b);
  }

  lemma NoCountLeft(tree: Tree, b: Option<Field>)
    ensures HeaderInt(Original(Stripped(tree), b).header, TOTAL_TAG) == 0
  {
    var h := RemoveAll(tree.header, TOTAL_TAG);
    FindRemoved(tree.header, TOTAL_TAG, TOTAL_TAG);
    FindRemoved(h, INDEX_TAG, TOTAL_TAG);
    ClearRetKeeps(RemoveAll(h, INDEX_TAG), TOTAL_TAG);
  }

  /** As long as an index is missing, exactly what arrived is there; with the last one it is the original, complete. */
  ghost predicate Reassembles(original: Tree, parts: seq<seq<byte>>, arrivals: seq<Proto>)
    requires arrivals != []
  {
    && (!AllOf(parts, Indices(arrivals)) ==> Holds(Receive(arrivals), parts, Indices(arrivals)))
    && (AllOf(parts, Indices(arrivals)) && !AllOf(parts, Indices(arrivals[..|arrivals| - 1])) ==>
          Receive(arrivals) == FromTree(Some(original)) && IsComplete(Receive(arrivals)))
  }

  lemma ReassembleSlices(original: Tree, parts: seq<seq<byte>>, arrivals: seq<Proto>)
    requires Sendable(original) && HeaderInt(original.header, TOTAL_TAG) == 0
    requires Usable(parts) && Concat(parts) == Serialize(original)
    requires arrivals != [] && AllParts(arrivals, parts)
    ensures Reassembles(original, parts, arrivals)
  {
    OriginalIsComplete(original);
    if !AllOf(parts, Indices(arrivals)) {
      CollectingInAnyOrder(arrivals, parts);
    } else if !AllOf(parts, Indices(arrivals[..|arrivals| - 1])) {
      var bytes := Concat(parts);
      assert ReadField(bytes).FieldOk? && FromBytes(bytes) == FromTree(Some(original));
      LastArrivalCompletes(arrivals, parts);
    }
  }

  lemma OriginalIsComplete(original: Tree)
    requires Sendable(original) && HeaderInt(original.header, TOTAL_TAG) == 0
    ensures ReadField(Serialize(original)).FieldOk?
    ensures FromBytes(Serialize(original)) == FromTree(Some(original))
    ensures IsComplete(FromTree(Some(original)))
  {
    SerializeDecodes(original);
  }

  /**
   Split, send, receive: for a packet cut into at most 255 parts, arrivals in any order and with any
   repetitions leave the receiver holding exactly the parts that came, and the arrival that brings
   the last missing one turns it into the original packet, complete.
   */
  lemma SplitThenReassemble(tree: Tree, allow: bool, maxPkg: nat, b: Option<Field>, plan: Plan, sendings: seq<Sending>)
    requires plan == PlanSplit(tree, allow, maxPkg, b) && plan.Cut? && plan.size > 0
    requires Sendable(plan.original) && |PartsOf(plan)| <= 255
    requires sendings != [] && AllProper(sendings, |PartsOf(plan)|, PartsOf(plan))
    ensures Reassembles(plan.original, PartsOf(plan), Arrivals(sendings, PartsOf(plan)))
  {
    var parts := PartsOf(plan);
    PlanParts(tree, allow, maxPkg, b);
    SmallPartsUsable(parts);
    PartsReassemble(plan.original, parts, sendings);
  }

  lemma CountFits(n: nat)
    requires n <= 255
    ensures n % 256 == n
  {
  }

  lemma PartsReassemble(original: Tree, parts: seq<seq<byte>>, sendings: seq<Sending>)
    requires Sendable(original) && HeaderInt(original.header, TOTAL_TAG) == 0
    requires Usable(parts) && Concat(parts) == Serialize(original)
    requires sendings != [] && AllProper(sendings, |parts|, parts)
    ensures Reassembles(original, parts, Arrivals(sendings, parts))
  {
    CountFits(|parts|);
    SendingsAreParts(sendings, |parts|, parts);
    ReassembleSlices(original, parts, Arrivals(sendings, parts));
  }

  // ----- why 255 is the limit -----

  /** Fewer than all slices of a packet never decode. */
  lemma FewerSlicesDoNotDecode(original: Tree, parts: seq<seq<byte>>, m: nat)
    requires Sendable(original) && Concat(parts) == Serialize(original)
    requires m < |parts| && parts[m] != []
    ensures ReadField(Concat(parts[..m])).End?
  {
    ConcatBefore(parts, m);
    CutField(Field(PKG_TAG, Str(Contents(original))), |Concat(parts[..m])|);
  }

  lemma ConcatBefore(parts: seq<seq<byte>>, m: nat)
    requires m < |parts|
    ensures |Concat(parts[..m])| + |parts[m]| <= |Concat(parts)|
    ensures Concat(parts[..m]) == Concat(parts)[..|Concat(parts[..m])|]
  {
    assert parts == parts[..m] + parts[m..];
    ConcatAppend(parts[..m], parts[m..]);
    assert |Concat(parts[m..])| >= |parts[m]|;
  }

  /** A receiver whose parts do not decode goes on collecting for ever. */
  lemma {:induction false} NeverCompletes(arrivals: seq<Proto>, parts: seq<seq<byte>>) returns (got: set<nat>)
    requires arrivals != [] && Usable(parts) && ReadField(Concat(parts)).End?
    requires AllParts(arrivals, parts)
    ensures Holds(Receive(arrivals), parts, got) && !AllOf(parts, got)
    decreases |arrivals|
  {
    var init, last := arrivals[..|arrivals| - 1], arrivals[|arrivals| - 1];
    if init == [] {
      FirstArrival(last, parts);
      assert Receive(arrivals) == AddPartial(EMPTY, last, Granted).1;
      got := {last.index};
    } else {
      var before := NeverCompletes(init, parts);
      ArrivalStep(Receive(init), last, parts, before);
      got := if AllOf(parts, before + {last.index}) then {} else before + {last.index};
      assert AllOf(parts, {}) ==> 0 in got;
    }
  }

  /** With a part count that is 1 modulo 256, each arrival is taken for a whole packet. */
  lemma {:induction false} LastPacketWins(arrivals: seq<Proto>)
    requires arrivals != [] && forall q :: q in arrivals ==> IsComplete(q)
    ensures Receive(arrivals) == arrivals[|arrivals| - 1]
  {
    var last := arrivals[|arrivals| - 1];
    assert last in arrivals;
    assert Receive(arrivals) == AddPartial(Receive(arrivals[..|arrivals| - 1]), last, Granted).1;
  }

  lemma WholePacket(x: Sending, count: nat, parts: seq<seq<byte>>)
    requires Proper(x, count, parts) && |parts| == 1 && count % 256 == 1
    ensures IsComplete(Arrival(x, parts)) && Arrival(x, parts).total == 1
  {
    var t := SentTree(x, parts);
    ArrivesAsSent(t);
    ClearRetKeeps(x.header, TOTAL_TAG);
    assert Find(t.others, BDY_TAG) == Some(t.others[0]);
  }

  /** From 256 parts on, nothing the sender is willing to send ever becomes the original packet. */
  lemma TooManyParts(original: Tree, parts: seq<seq<byte>>, ps: seq<seq<byte>>, sendings: seq<Sending>)
    requires Sendable(original) && HeaderInt(original.header, TOTAL_TAG) == 0
    requires Concat(parts) == Serialize(original)
    requires |parts| >= 256 && SmallParts(parts)
    requires ps == parts[..|parts| % 256] && AllProper(sendings, |parts|, ps)
    ensures Receive(Arrivals(sendings, ps)) != FromTree(Some(original))
  {
    if sendings != [] && |ps| == 1 {
      OneOfMany(original, |parts|, ps, sendings);
    } else if sendings != [] && |ps| > 1 {
      assert SmallParts(ps);
      FewerSlicesDoNotDecode(original, parts, |ps|);
      SomeOfMany(original, |parts|, ps, sendings);
    }
  }

  /** A count of one modulo 256: the receiver takes each arrival for a packet of its own. */
  lemma OneOfMany(original: Tree, count: nat, ps: seq<seq<byte>>, sendings: seq<Sending>)
    requires HeaderInt(original.header, TOTAL_TAG) == 0 && |ps| == 1 == count % 256
    requires sendings != [] && AllProper(sendings, count, ps)
    ensures Receive(Arrivals(sendings, ps)) != FromTree(Some(original))
  {
    var arrivals := Arrivals(sendings, ps);
    forall k | 0 <= k < |arrivals|
      ensures IsComplete(arrivals[k]) && arrivals[k].total == 1
    {
      WholePacket(sendings[k], count, ps);
    }
    LastPacketWins(arrivals);
  }

  /** Another count: the receiver waits for the wrong number of parts, which never decode. */
  lemma SomeOfMany(original: Tree, count: nat, ps: seq<seq<byte>>, sendings: seq<Sending>)
    requires Sendable(original) && HeaderInt(original.header, TOTAL_TAG) == 0 && SmallParts(ps)
    requires 2 <= |ps| <= 255 && count % 256 == |ps| && ReadField(Concat(ps)).End?
    requires sendings != [] && AllProper(sendings, count, ps)
    ensures Receive(Arrivals(sendings, ps)) != FromTree(Some(original))
  {
    SendingsAreParts(sendings, count, ps);
    SmallPartsUsable(ps);
    var got := NeverCompletes(Arrivals(sendings, ps), ps);
    OriginalIsComplete(original);
  }

  lemma VarintFieldLength(tag: nat, n: nat)
    requires tag < U29 && n < U64
    ensures |EncodeField(Field(tag, Varint(n)))| <= 20
  {
    VarintBoundIsU64();
    EncodedVarintLength(Key(Field(tag, Varint(n))), MAX_VARINT);
    EncodedVarintLength(n, MAX_VARINT);
  }

  lemma StringFieldLength(f: Field)
    requires f.val.Str? && |f.val.bytes| < U32
    ensures |EncodeField(f)| <= 20 + |f.val.bytes|
  {
    VarintBoundIsU64();
    EncodedVarintLength(Key(f), MAX_VARINT);
    EncodedVarintLength(|f.val.bytes|, MAX_VARINT);
  }

  lemma {:induction false} SetIntLength(fs: seq<Field>, tag: nat, n: nat)
    requires tag < U29 && n < U64
    ensures |EncodeFields(SetInt(fs, tag, n))| <= |EncodeFields(fs)| + 20
  {
    var r := SetInt(fs, tag, n);
    VarintFieldLength(tag, n);
    if fs == [] {
      assert r[1..] == [];
    } else if fs[0].tag == tag {
      assert r[1..] == fs[1..];
    } else {
      assert r[1..] == SetInt(fs[1..], tag, n);
      SetIntLength(fs[1..], tag, n);
    }
  }

  lemma {:induction false} RemoveAllLength(fs: seq<Field>, tag: nat)
    ensures |EncodeFields(RemoveAll(fs, tag))| <= |EncodeFields(fs)|
  {
    if fs != [] {
      RemoveAllLength(fs[1..], tag);
      if fs[0].tag != tag {
        assert RemoveAll(fs, tag)[1..] == RemoveAll(fs[1..], tag);
      }
    }
  }

  lemma ClearRetFits(h: seq<Field>)
    requires forall f :: f in h ==> InDomain(f)
    ensures forall f :: f in ClearRet(h) ==> InDomain(f)
    ensures |EncodeFields(ClearRet(h))| <= |EncodeFields(h)| + 20
  {
    SetIntLength(h, RET_TAG, 0);
    RemoveAllLength(h, ERR_TAG);
    RemoveAllLength(SetInt(h, RET_TAG, 0), ERR_TAG);
    assert InDomain(Field(RET_TAG, Varint(0)));
  }

  /** Part packets of ordinary size can be encoded. */
  lemma PartTreeSendable(h: seq<Field>, parts: seq<seq<byte>>, i: nat)
    requires i < |parts| && i < 256 && |parts[i]| <= DEFAULT_MAX
    requires (forall f :: f in h ==> InDomain(f)) && |EncodeFields(h)| <= 2 * DEFAULT_MAX
    ensures Sendable(PartTree(h, parts, i))
  {
    var h', part := SetInt(h, INDEX_TAG, i), PartField(parts, i);
    SetIntLength(h, INDEX_TAG, i);
    assert InDomain(Field(INDEX_TAG, Varint(i)));
    ClearRetFits(h');
    ContentsLength(PartTree(h, parts, i), part);
    assert InDomain(part);
  }

  lemma ContentsLength(t: Tree, part: Field)
    requires t.others == [part] && part.val.Str? && |part.val.bytes| < U32 && |EncodeFields(t.header)| < U32
    ensures |Contents(t)| <= |EncodeFields(t.header)| + |part.val.bytes| + 40
  {
    var fs := [HeaderField(t)] + t.others;
    assert fs[1..] == [part] && [part][1..] == [];
    assert EncodeFields([part]) == EncodeField(part) + EncodeFields([]);
    StringFieldLength(HeaderField(t));
    StringFieldLength(part);
  }

  /** Every part sent once, in order. */
  lemma InOrder(original: Tree, parts: seq<seq<byte>>, h: seq<Field>) returns (sendings: seq<Sending>)
    requires Sendable(original) && HeaderInt(original.header, TOTAL_TAG) == 0
    requires Usable(parts) && Concat(parts) == Serialize(original)
    requires forall j :: 0 <= j < |parts| ==> |parts[j]| <= DEFAULT_MAX
    requires (forall f :: f in h ==> InDomain(f)) && |EncodeFields(h)| <= 2 * DEFAULT_MAX
    requires HeaderInt(h, TOTAL_TAG) == |parts|
    ensures AllProper(sendings, |parts|, parts)
    ensures Receive(Arrivals(sendings, parts)) == FromTree(Some(original))
  {
    sendings := seq(|parts|, i requires 0 <= i => Sending(h, i));
    forall k | 0 <= k < |sendings|
      ensures Proper(sendings[k], |parts|, parts)
    {
      PartTreeSendable(h, parts, k);
    }
    InOrderArrive(original, parts, sendings);
  }

  lemma InOrderArrive(original: Tree, parts: seq<seq<byte>>, sendings: seq<Sending>)
    requires Sendable(original) && HeaderInt(original.header, TOTAL_TAG) == 0
    requires Usable(parts) && Concat(parts) == Serialize(original)
    requires AllProper(sendings, |parts|, parts) && |sendings| == |parts|
    requires forall k :: 0 <= k < |parts| ==> sendings[k].index == k
    ensures Receive(Arrivals(sendings, parts)) == FromTree(Some(original))
  {
    PartsReassemble(original, parts, sendings);
    InOrderIndices(parts, sendings);
    InOrderIsAll(Arrivals(sendings, parts), parts);
  }

  lemma InOrderIndices(parts: seq<seq<byte>>, sendings: seq<Sending>)
    requires 2 <= |parts| <= 255 && AllProper(sendings, |parts|, parts)
    requires forall k :: 0 <= k < |sendings| ==> sendings[k].index == k
    ensures forall k :: 0 <= k < |sendings| ==> Arrivals(sendings, parts)[k].index == k
  {
    CountFits(|parts|);
    forall k | 0 <= k < |sendings|
      ensures Arrivals(sendings, parts)[k].index == k
    {
      SendingIsPart(sendings[k], |parts|, parts);
    }
  }

  lemma InOrderIsAll(arrivals: seq<Proto>, parts: seq<seq<byte>>)
    requires |arrivals| == |parts| > 0 && forall k :: 0 <= k < |arrivals| ==> arrivals[k].index == k
    ensures AllOf(parts, Indices(arrivals)) && !AllOf(parts, Indices(arrivals[..|arrivals| - 1]))
  {
    var last := |arrivals| - 1;
    forall j | 0 <= j < |parts|
      ensures j in Indices(arrivals)
    {
      assert arrivals[j] in arrivals && arrivals[j].index == j;
    }
    assert last !in Indices(arrivals[..last]);
  }

  /**
   A cut packet can be put together again exactly when its parts can be counted in eight bits. What the
   sender is willing to send is bounded by its own 8-bit count.
   */
  lemma ReassemblyIffFewParts(tree: Tree, allow: bool, maxPkg: nat, b: Option<Field>, plan: Plan)
    requires plan == PlanSplit(tree, allow, maxPkg, b) && plan.Cut? && plan.size > 0
    requires Sendable(plan.original)
    ensures var parts := PartsOf(plan);
            var sent := parts[..|parts| % 256];
            |parts| <= 255 <==>
            exists xs :: AllProper(xs, |parts|, sent) && Receive(Arrivals(xs, sent)) == FromTree(Some(plan.original))
  {
    var parts := PartsOf(plan);
    var sent := parts[..|parts| % 256];
    PlanParts(tree, allow, maxPkg, b);
    if |parts| <= 255 {
      CountFits(|parts|);
      assert sent == parts;
      var xs := FewPartsArrive(tree, allow, maxPkg, b, plan);
    } else {
      forall xs | AllProper(xs, |parts|, sent)
        ensures Receive(Arrivals(xs, sent)) != FromTree(Some(plan.original))
      {
        TooManyParts(plan.original, parts, sent, xs);
      }
    }
  }

  lemma FewPartsArrive(tree: Tree, allow: bool, maxPkg: nat, b: Option<Field>, plan: Plan) returns (xs: seq<Sending>)
    requires plan == PlanSplit(tree, allow, maxPkg, b) && plan.Cut? && plan.size > 0
    requires Sendable(plan.original) && |PartsOf(plan)| <= 255
    ensures AllProper(xs, |PartsOf(plan)|, PartsOf(plan))
    ensures Receive(Arrivals(xs, PartsOf(plan))) == FromTree(Some(plan.original))
  {
    var parts := PartsOf(plan);
    PlanParts(tree, allow, maxPkg, b);
    SmallPartsUsable(parts);
    PlanSizes(tree, allow, maxPkg, b);
    xs := InOrder(plan.original, parts, SetInt(plan.t.header, TOTAL_TAG, |parts|));
  }

  lemma PlanSizes(tree: Tree, allow: bool, maxPkg: nat, b: Option<Field>)
    requires PlanSplit(tree, allow, maxPkg, b).Cut? && Sendable(PlanSplit(tree, allow, maxPkg, b).original)
    requires PlanSplit(tree, allow, maxPkg, b).size > 0 && |PartsOf(PlanSplit(tree, allow, maxPkg, b))| <= 255
    ensures var plan := PlanSplit(tree, allow, maxPkg, b);
            var parts := PartsOf(plan);
            var h := SetInt(plan.t.header, TOTAL_TAG, |parts|);
            && (forall j :: 0 <= j < |parts| ==> |parts[j]| <= DEFAULT_MAX)
            && (forall f :: f in h ==> InDomain(f)) && |EncodeFields(h)| <= 2 * DEFAULT_MAX
            && HeaderInt(h, TOTAL_TAG) == |parts|
  {
    var plan := PlanSplit(tree, allow, maxPkg, b);
    PlanParts(tree, allow, maxPkg, b);
    SlicesMeaning(Serialize(plan.original), plan.size);
    CountedHeader(plan.t, |PartsOf(plan)|);
  }

  /** The header with the number of parts in it. */
  lemma CountedHeader(t: Tree, n: nat)
    requires n <= 255 && forall f :: f in t.header ==> InDomain(f)
    ensures var h := SetInt(t.header, TOTAL_TAG, n);
            && (forall f :: f in h ==> InDomain(f)) && |EncodeFields(h)| <= |EncodeField(HeaderField(t))| + 20
            && HeaderInt(h, TOTAL_TAG) == n
  {
    assert |EncodeField(HeaderField(t))| >= |EncodeFields(t.header)|;
    SetIntLength(t.header, TOTAL_TAG, n);
    FindSet(t.header, TOTAL_TAG, n, TOTAL_TAG);
    assert InDomain(Field(TOTAL_TAG, Varint(n)));
  }

  /** A packet with one string for a body, and nothing else. */
  function Bulk(body: seq<byte>): Tree {
    Tree(PKG_TAG, [], [Field(BDY_TAG, Str(body))])
  }

  lemma BulkSize(body: seq<byte>)
    requires |body| < 1_000_000
    ensures Sendable(Bulk(body)) && Stripped(Bulk(body)) == Bulk(body) && Original(Bulk(body), None) == Bulk(body)
    ensures HasBody(Bulk(body)) && |body| < |Serialize(Bulk(body))| <= |body| + 60
    ensures |EncodeField(HeaderField(Bulk(body)))| <= 20
  {
    var t, part := Bulk(body), Field(BDY_TAG, Str(body));
    ContentsLength(t, part);
    StringFieldLength(HeaderField(t));
    assert ([HeaderField(t)] + t.others)[1..] == t.others && t.others[1..] == [];
    assert EncodeFields(t.others) == EncodeField(part) + EncodeFields([]);
    assert |body| <= |EncodeField(part)| <= |Contents(t)| < |Serialize(t)|;
    StringFieldLength(Field(PKG_TAG, Str(Contents(t))));
  }

  /** Packets of 30000 bytes, sent where at most 128 fit, are cut into more parts than can be put together again. */
  lemma ManyPartsHappen(body: seq<byte>)
    requires |body| == 30000
    ensures var plan := PlanSplit(Bulk(body), true, 128, None);
            && plan.Cut? && plan.size > 0 && Sendable(plan.original) && |PartsOf(plan)| >= 256
            && !exists xs :: AllProper(xs, |PartsOf(plan)|, PartsOf(plan)[..|PartsOf(plan)| % 256]) &&
                 Receive(Arrivals(xs, PartsOf(plan)[..|PartsOf(plan)| % 256])) == FromTree(Some(plan.original))
  {
    var t := Bulk(body);
    BulkSize(body);
    var size := 128 - (|EncodeField(HeaderField(t))| + 16);
    var n := |Slices(Serialize(t), size)|;
    SlicesMeaning(Serialize(t), size);
    assert n * size <= n * 112 by { MulMono(size, 112, n); }
    assert n >= 256;
    var plan := PlanSplit(t, true, 128, None);
    assert plan == Cut(t, t, size);
    ReassemblyIffFewParts(t, true, 128, None, plan);
  }

  /** Those of 300000 bytes even lose their header. */
  lemma LostHeadersHappen(body: seq<byte>)
    requires |body| == 300000
    ensures LosesHeader(PlanSplit(Bulk(body), true, 128, None))
  {
    var t := Bulk(body);
    BulkSize(body);
    var size := 128 - (|EncodeField(HeaderField(t))| + 16);
    var n := |Slices(Serialize(t), size)|;
    SlicesMeaning(Serialize(t), size);
    assert n * size <= n * 112 by { MulMono(size, 112, n); }
    assert PlanSplit(t, true, 128, None) == Cut(t, t, size);
  }

  /** And those of 1000 bytes into few enough: they can be put together again. */
  lemma FewPartsHappen(body: seq<byte>)
    requires |body| == 1000
    ensures var plan := PlanSplit(Bulk(body), true, 128, None);
            && plan.Cut? && plan.size > 0 && Sendable(plan.original) && 2 <= |PartsOf(plan)| <= 255
            && exists xs :: AllProper(xs, |PartsOf(plan)|, PartsOf(plan)[..|PartsOf(plan)| % 256]) &&
                 Receive(Arrivals(xs, PartsOf(plan)[..|PartsOf(plan)| % 256])) == FromTree(Some(plan.original))
  {
    var t := Bulk(body);
    BulkSize(body);
    var size := 128 - (|EncodeField(HeaderField(t))| + 16);
    var n := |Slices(Serialize(t), size)|;
    SlicesMeaning(Serialize(t), size);
    assert (n - 1) * 92 <= (n - 1) * size by { MulMono(92, size, n - 1); }
    assert n * size <= n * 112 by { MulMono(size, 112, n); }
    assert 2 <= n <= 255;
    var plan := PlanSplit(t, true, 128, None);
    assert plan == Cut(t, t, size);
    ReassemblyIffFewParts(t, true, 128, None, plan);
  }
}
