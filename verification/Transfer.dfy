/**
 The whole way of a split packet: one object splits and encodes, another decodes and collects. The parts may be
 asked for in any order and more than once.
 */
module Transfer {
  import opened Bytes
  import opened Basics
  import opened Wire
  import opened SplitMerge
  import opened Protocol

  // ----- encoding a part leaves nothing behind -----

  lemma {:induction false} SetTwice(h: seq<Field>, tag: nat, m: nat, n: nat)
    ensures SetInt(SetInt(h, tag, m), tag, n) == SetInt(h, tag, n)
  {
    if h != [] && h[0].tag != tag {
      assert SetInt(h, tag, m)[1..] == SetInt(h[1..], tag, m);
      SetTwice(h[1..], tag, m, n);
    }
  }

  lemma {:induction false} SetBoth(h: seq<Field>, tag: nat, n: nat, other: nat)
    requires tag != other && Find(h, other).Some?
    ensures SetInt(SetInt(h, tag, n), other, 0) == SetInt(SetInt(h, other, 0), tag, n)
  {
    var a, b := SetInt(h, tag, n), SetInt(h, other, 0);
    if h[0].tag == tag {
      assert a[1..] == h[1..] && b[1..] == SetInt(h[1..], other, 0);
    } else if h[0].tag == other {
      assert a[1..] == SetInt(h[1..], tag, n) && b[1..] == h[1..];
    } else {
      assert a[1..] == SetInt(h[1..], tag, n) && b[1..] == SetInt(h[1..], other, 0);
      SetBoth(h[1..], tag, n, other);
    }
  }

  lemma {:induction false} RemoveAndSet(h: seq<Field>, tag: nat, n: nat, other: nat)
    requires tag != other
    ensures RemoveAll(SetInt(h, tag, n), other) == SetInt(RemoveAll(h, other), tag, n)
  {
    var a, b := SetInt(h, tag, n), RemoveAll(h, other);
    if h != [] {
      if h[0].tag == tag {
        assert a[1..] == h[1..] && b[1..] == RemoveAll(h[1..], other);
      } else {
        assert a[1..] == SetInt(h[1..], tag, n);
        RemoveAndSet(h[1..], tag, n, other);
        assert h[0].tag != other ==> b[1..] == RemoveAll(h[1..], other);
      }
    } else {
      assert a[1..] == [];
    }
  }

  lemma ClearAndSet(h: seq<Field>, i: nat)
    ensures ClearRet(SetInt(h, INDEX_TAG, i)) == SetInt(ClearRet(h), INDEX_TAG, i)
  {
    var h' := if Wrap32(HeaderInt(h, RET_TAG)) != 0 then SetInt(h, RET_TAG, 0) else h;
    FindSet(h, INDEX_TAG, i, RET_TAG);
    if Find(h, RET_TAG).Some? {
      SetBoth(h, INDEX_TAG, i, RET_TAG);
    }
    FindSet(h', INDEX_TAG, i, ERR_TAG);
    RemoveAndSet(h', INDEX_TAG, i, ERR_TAG);
  }

  lemma ClearTwice(h: seq<Field>)
    ensures ClearRet(ClearRet(h)) == ClearRet(h)
  {
    var h' := if Wrap32(HeaderInt(h, RET_TAG)) != 0 then SetInt(h, RET_TAG, 0) else h;
    ClearedField(h, RET_TAG);
    FindRemoved(h', ERR_TAG, ERR_TAG);
  }

  /** A header as Split left it, or as some call of EncodePart did. */
  ghost predicate Descends(h: seq<Field>, from: seq<Field>) {
    h == from || exists i :: h == SetInt(ClearRet(from), INDEX_TAG, i)
  }

  /** The packet for part i is the same whatever was encoded before, and so is what it leaves behind. */
  lemma EncodingIsStable(h: seq<Field>, from: seq<Field>, parts: seq<seq<byte>>, i: nat)
    requires Descends(h, from) && i < |parts|
    ensures PartTree(h, parts, i) == PartTree(from, parts, i)
    ensures Descends(PartTree(h, parts, i).header, from)
  {
    ClearAndSet(from, i);
    if h != from {
      var j :| h == SetInt(ClearRet(from), INDEX_TAG, j);
      SetTwice(ClearRet(from), INDEX_TAG, j, i);
      ClearAndSet(ClearRet(from), i);
      ClearTwice(from);
    }
  }

  // ----- the transfer -----

  /** The sender after Split, between calls of EncodePart. */
  ghost predicate ReadyToSend(p: Proto, from: seq<Field>, parts: seq<seq<byte>>) {
    IsValid(p) && p.total == |parts| && Descends(p.tree.value.header, from) && AllThere(p.tree.value.others, parts)
  }

  method SendPart(sender: KnvProtocol, i: nat, ghost from: seq<Field>, ghost parts: seq<seq<byte>>)
    returns (bytes: seq<byte>)
    requires i < |parts| && 2 <= |parts| <= 255 && ReadyToSend(sender.State(), from, parts) && sender.headed
    modifies sender`tree
    ensures ReadyToSend(sender.State(), from, parts)
    ensures bytes == Serialize(SentTree(Sending(from, i), parts))
  {
    ghost var was := sender.tree.value;
    EncodingIsStable(was.header, from, parts, i);
    assert Find(was.others, PartField(parts, i).tag) == Some(PartField(parts, i));
    assert PartTag(i) == PART_BASE + i && IndexValue(i) == i;
    var length;
    length, bytes := sender.EncodePart(i);
    assert sender.tree.value.header == PartTree(was.header, parts, i).header;
  }

  method ReceivePart(receiver: KnvProtocol, bytes: seq<byte>) returns (ret: int)
    requires receiver.headed && !Astray(receiver.State(), FromBytes(bytes), Granted)
    modifies receiver
    ensures receiver.headed
    ensures (ret, receiver.State()) == SplitMerge.AddPartial(old(receiver.State()), FromBytes(bytes), Granted)
  {
    var part := new KnvProtocol();
    part.Assign(FromBytes(bytes));
    ret := receiver.AddPartial(part, Granted);
  }

  /** The sender is split into these parts, and all its part packets can be encoded. */
  ghost predicate Sends(from: seq<Field>, parts: seq<seq<byte>>) {
    forall i :: 0 <= i < |parts| ==> Proper(Sending(from, i), |parts|, parts)
  }

  lemma PlanSends(tree: Tree, allow: bool, maxPkg: nat, b: Option<Field>, plan: Plan)
    requires plan == PlanSplit(tree, allow, maxPkg, b) && plan.Cut? && plan.size > 0
    requires Sendable(plan.original) && |PartsOf(plan)| <= 255
    ensures |PartsOf(plan)| >= 2
    ensures Sends(SetInt(plan.t.header, TOTAL_TAG, |PartsOf(plan)|), PartsOf(plan))
  {
    var parts := PartsOf(plan);
    var from := SetInt(plan.t.header, TOTAL_TAG, |parts|);
    PlanParts(tree, allow, maxPkg, b);
    PlanSizes(tree, allow, maxPkg, b);
    forall i | 0 <= i < |parts|
      ensures Proper(Sending(from, i), |parts|, parts)
    {
      PartTreeSendable(from, parts, i);
    }
  }

  /** The children of the sender hold every part. */
  ghost predicate AllThere(fs: seq<Field>, parts: seq<seq<byte>>) {
    forall i :: 0 <= i < |parts| ==> Find(fs, PartField(parts, i).tag) == Some(PartField(parts, i))
  }

  lemma AllPlaced(fs: seq<Field>, parts: seq<seq<byte>>)
    ensures AllThere(PlaceParts(fs, parts, |parts|), parts)
  {
    forall i | 0 <= i < |parts|
      ensures Find(PlaceParts(fs, parts, |parts|), PartField(parts, i).tag) == Some(PartField(parts, i))
    {
      PlacedPart(fs, parts, |parts|, i);
    }
  }

  lemma DoneIsReady(p: Proto, ret: int, plan: Plan, b: Option<Field>)
    requires IsValid(p) && plan.Cut? && plan.size > 0 && |PartsOf(plan)| <= 255 && Done(p, ret, plan, b)
    ensures ReadyToSend(p, SetInt(plan.t.header, TOTAL_TAG, |PartsOf(plan)|), PartsOf(plan))
  {
    AllPlaced(plan.t.others, PartsOf(plan));
  }

  /** Split leaves an object from which every part can be sent. */
  method Prepare(sender: KnvProtocol, b: Option<Field>, ghost plan: Plan)
    requires IsValid(sender.State()) && plan == PlanSplit(sender.tree.value, sender.allowSplit, sender.maxPkg, b)
    requires plan.Cut? && plan.size > 0 && |PartsOf(plan)| <= 255 && sender.headed
    modifies sender`tree, sender`total, sender`headed
    ensures sender.headed
    ensures ReadyToSend(sender.State(), SetInt(plan.t.header, TOTAL_TAG, |PartsOf(plan)|), PartsOf(plan))
  {
    var ret := sender.Split(b);
    DoneIsReady(sender.State(), ret, plan, b);
  }

  ghost function Sendings(order: seq<nat>, from: seq<Field>): (r: seq<Sending>)
    ensures |r| == |order| && forall k :: 0 <= k < |order| ==> r[k] == Sending(from, order[k])
  {
    seq(|order|, k requires 0 <= k < |order| => Sending(from, order[k]))
  }

  ghost predicate Within(order: seq<nat>, n: nat) {
    forall k :: 0 <= k < |order| ==> order[k] < n
  }

  /** The packets for these parts, as they arrive. */
  ghost function Coming(order: seq<nat>, from: seq<Field>, parts: seq<seq<byte>>): seq<Proto>
    requires Within(order, |parts|)
  {
    Arrivals(Sendings(order, from), parts)
  }

  lemma {:induction false} ArrivalsAppend(xs: seq<Sending>, x: Sending, parts: seq<seq<byte>>)
    requires InRange(xs + [x], parts)
    ensures InRange(xs, parts) && x.index < |parts|
    ensures Arrivals(xs + [x], parts) == Arrivals(xs, parts) + [Arrival(x, parts)]
  {
    assert (xs + [x])[|xs|] == x;
    assert forall k :: 0 <= k < |xs| ==> (xs + [x])[k] == xs[k];
    var all, init := Arrivals(xs + [x], parts), Arrivals(xs, parts);
    assert forall k :: 0 <= k < |all| ==> all[k] == (init + [Arrival(x, parts)])[k];
  }

  /** One more arrival. */
  lemma OneMore(order: seq<nat>, k: nat, from: seq<Field>, parts: seq<seq<byte>>)
    requires Within(order, |parts|) && k < |order|
    ensures Receive(Coming(order[..k + 1], from, parts)) ==
            SplitMerge.AddPartial(Receive(Coming(order[..k], from, parts)), Arrival(Sending(from, order[k]), parts),
                                  Granted).1
  {
    var xs, x := Sendings(order[..k], from), Sending(from, order[k]);
    assert Sendings(order[..k + 1], from) == xs + [x];
    ArrivalsAppend(xs, x, parts);
    var all := Arrivals(xs + [x], parts);
    assert all[..|all| - 1] == Arrivals(xs, parts) && all[|all| - 1] == Arrival(x, parts);
  }

  lemma NextIsFine(p: Proto, order: seq<nat>, k: nat, from: seq<Field>, parts: seq<seq<byte>>)
    requires Usable(parts) && Within(order, |parts|) && k < |order| && Sends(from, parts)
    requires ReadField(Concat(parts)).FieldOk? && IsComplete(FromBytes(Concat(parts)))
    requires Gathered(p, order[..k], parts)
    ensures var q := Arrival(Sending(from, order[k]), parts);
            !Astray(p, q, Granted) && Gathered(SplitMerge.AddPartial(p, q, Granted).1, order[..k + 1], parts)
  {
    ArrivesAsPart(from, parts, order[k]);
    PartIsFine(p, Arrival(Sending(from, order[k]), parts), order, k, parts);
  }

  lemma ArrivesAsPart(from: seq<Field>, parts: seq<seq<byte>>, i: nat)
    requires Sends(from, parts) && 2 <= |parts| <= 255 && i < |parts|
    ensures IsPart(Arrival(Sending(from, i), parts), parts) && Arrival(Sending(from, i), parts).index == i
  {
    assert Proper(Sending(from, i), |parts|, parts);
    SendingIsPart(Sending(from, i), |parts|, parts);
  }

  lemma PartIsFine(p: Proto, q: Proto, order: seq<nat>, k: nat, parts: seq<seq<byte>>)
    requires Usable(parts) && k < |order| && IsPart(q, parts) && q.index == order[k]
    requires ReadField(Concat(parts)).FieldOk? && IsComplete(FromBytes(Concat(parts)))
    requires Gathered(p, order[..k], parts)
    ensures !Astray(p, q, Granted) && Gathered(SplitMerge.AddPartial(p, q, Granted).1, order[..k + 1], parts)
  {
    NeverAstray(p, q, order[..k], parts, Granted);
    assert order[..k + 1][..k] == order[..k];
    GatherOneMore(p, q, order[..k + 1], parts);
  }

  /** Part order[k] is sent and received. */
  method PassOne(sender: KnvProtocol, receiver: KnvProtocol, order: seq<nat>, k: nat, ghost from: seq<Field>,
                 ghost parts: seq<seq<byte>>)
    requires sender != receiver && Usable(parts) && Within(order, |parts|) && Sends(from, parts) && k < |order|
    requires ReadField(Concat(parts)).FieldOk? && IsComplete(FromBytes(Concat(parts)))
    requires ReadyToSend(sender.State(), from, parts) && sender.headed && receiver.headed
    requires receiver.State() == Receive(Coming(order[..k], from, parts))
    requires Gathered(receiver.State(), order[..k], parts)
    modifies sender, receiver
    ensures ReadyToSend(sender.State(), from, parts) && sender.headed && receiver.headed
    ensures receiver.State() == Receive(Coming(order[..k + 1], from, parts))
    ensures Gathered(receiver.State(), order[..k + 1], parts)
  {
    OneMore(order, k, from, parts);
    NextIsFine(receiver.State(), order, k, from, parts);
    var bytes := SendPart(sender, order[k], from, parts);
    var ret := ReceivePart(receiver, bytes);
  }

  /** All parts asked for go through: the receiver is where the run of arrivals leads. */
  method PassAll(
    sender: KnvProtocol, receiver: KnvProtocol, order: seq<nat>, ghost from: seq<Field>, ghost parts: seq<seq<byte>>)
    requires sender != receiver && Usable(parts) && Within(order, |parts|) && Sends(from, parts)
    requires ReadField(Concat(parts)).FieldOk? && IsComplete(FromBytes(Concat(parts)))
    requires ReadyToSend(sender.State(), from, parts) && receiver.State() == EMPTY && sender.headed && receiver.headed
    modifies sender, receiver
    ensures receiver.State() == Receive(Coming(order, from, parts)) && Gathered(receiver.State(), order, parts)
  {
    assert order[..0] == [];
    for k := 0 to |order|
      invariant ReadyToSend(sender.State(), from, parts) && sender.headed && receiver.headed
      invariant receiver.State() == Receive(Coming(order[..k], from, parts))
      invariant Gathered(receiver.State(), order[..k], parts)
    {
      PassOne(sender, receiver, order, k, from, parts);
    }
    assert order[..|order|] == order;
  }

  ghost function Asked(order: seq<nat>): set<nat> {
    set i | i in order
  }

  lemma IndicesAre(qs: seq<Proto>, order: seq<nat>)
    requires |qs| == |order| && forall k :: 0 <= k < |qs| ==> qs[k].index == order[k]
    ensures Indices(qs) == Asked(order)
  {
  }

  /** What arrives before the last one is what the order before the last one brings. */
  lemma ComingInit(order: seq<nat>, from: seq<Field>, parts: seq<seq<byte>>)
    requires order != [] && Within(order, |parts|)
    ensures var qs := Coming(order, from, parts);
            |qs| == |order| && qs[..|qs| - 1] == Coming(order[..|order| - 1], from, parts)
  {
  }

  lemma ComingAt(order: seq<nat>, from: seq<Field>, parts: seq<seq<byte>>, k: nat)
    requires Sends(from, parts) && 2 <= |parts| <= 255 && Within(order, |parts|) && k < |order|
    ensures |Coming(order, from, parts)| == |order| && Coming(order, from, parts)[k].index == order[k]
    ensures IsPart(Coming(order, from, parts)[k], parts)
  {
    assert Proper(Sending(from, order[k]), |parts|, parts);
    SendingIsPart(Sending(from, order[k]), |parts|, parts);
  }

  lemma IndicesAsked(qs: seq<Proto>, order: seq<nat>)
    requires |qs| == |order| && forall k :: 0 <= k < |order| ==> qs[k].index == order[k]
    ensures Indices(qs) == Asked(order)
  {
    forall i | i in Asked(order)
      ensures i in Indices(qs)
    {
      var k :| 0 <= k < |order| && order[k] == i;
      assert qs[k] in qs;
    }
  }

  lemma EachIsPart(qs: seq<Proto>, parts: seq<seq<byte>>)
    requires forall k :: 0 <= k < |qs| ==> IsPart(qs[k], parts)
    ensures AllParts(qs, parts)
  {
  }

  lemma ComingIndices(order: seq<nat>, from: seq<Field>, parts: seq<seq<byte>>)
    requires Sends(from, parts) && 2 <= |parts| <= 255 && Within(order, |parts|)
    ensures Indices(Coming(order, from, parts)) == Asked(order)
    ensures AllParts(Coming(order, from, parts), parts)
  {
    var qs := Coming(order, from, parts);
    forall k | 0 <= k < |order|
      ensures qs[k].index == order[k] && IsPart(qs[k], parts)
    {
      ComingAt(order, from, parts, k);
    }
    IndicesAsked(qs, order);
    EachIsPart(qs, parts);
    IndicesAre(qs, order);
  }

  lemma ComingOutcome(original: Tree, parts: seq<seq<byte>>, from: seq<Field>, order: seq<nat>)
    requires Sendable(original) && HeaderInt(original.header, TOTAL_TAG) == 0
    requires Usable(parts) && Concat(parts) == Serialize(original)
    requires Sends(from, parts) && order != [] && Within(order, |parts|)
    ensures var p := Receive(Coming(order, from, parts));
            && (!AllOf(parts, Asked(order)) ==> Holds(p, parts, Asked(order)))
            && (AllOf(parts, Asked(order)) && !AllOf(parts, Asked(order[..|order| - 1])) ==>
                  p == FromTree(Some(original)) && IsComplete(p))
  {
    ComingIndices(order, from, parts);
    ComingIndices(order[..|order| - 1], from, parts);
    ComingInit(order, from, parts);
    Outcome(original, parts, Coming(order, from, parts), Asked(order), Asked(order[..|order| - 1]));
  }

  lemma Outcome(original: Tree, parts: seq<seq<byte>>, qs: seq<Proto>, got: set<nat>, before: set<nat>)
    requires Sendable(original) && HeaderInt(original.header, TOTAL_TAG) == 0
    requires Usable(parts) && Concat(parts) == Serialize(original)
    requires qs != [] && AllParts(qs, parts)
    requires got == Indices(qs) && before == Indices(qs[..|qs| - 1])
    ensures !AllOf(parts, got) ==> Holds(Receive(qs), parts, got)
    ensures AllOf(parts, got) && !AllOf(parts, before) ==>
              Receive(qs) == FromTree(Some(original)) && IsComplete(Receive(qs))
  {
    ReassembleSlices(original, parts, qs);
  }

  /** What a transfer comes to, in terms of the parts asked for. */
  lemma TransferOutcome(tree: Tree, allow: bool, maxPkg: nat, b: Option<Field>, plan: Plan, order: seq<nat>)
    requires plan == PlanSplit(tree, allow, maxPkg, b) && plan.Cut? && plan.size > 0
    requires Sendable(plan.original) && |PartsOf(plan)| <= 255
    requires order != [] && Within(order, |PartsOf(plan)|)
    ensures var parts := PartsOf(plan);
            var p := Receive(Coming(order, SetInt(plan.t.header, TOTAL_TAG, |parts|), parts));
            && (!AllOf(parts, Asked(order)) ==> Holds(p, parts, Asked(order)))
            && (AllOf(parts, Asked(order)) && !AllOf(parts, Asked(order[..|order| - 1])) ==>
                  p == FromTree(Some(plan.original)) && IsComplete(p))
  {
    var parts := PartsOf(plan);
    var from := SetInt(plan.t.header, TOTAL_TAG, |parts|);
    PlanParts(tree, allow, maxPkg, b);
    SmallPartsUsable(parts);
    PlanSends(tree, allow, maxPkg, b, plan);
    ComingOutcome(plan.original, parts, from, order);
  }

  /**
   The transfer as the objects do it: a packet that is cut into at most 255 parts reaches the other side exactly as
   it was, at the moment the last missing part arrives, whatever the order and the repetitions before.
   */
  method Exchange(sender: KnvProtocol, b: Option<Field>, order: seq<nat>, ghost plan: Plan)
    returns (receiver: KnvProtocol)
    requires sender.headed
    requires IsValid(sender.State()) && plan == PlanSplit(sender.tree.value, sender.allowSplit, sender.maxPkg, b)
    requires plan.Cut? && plan.size > 0 && Sendable(plan.original) && |PartsOf(plan)| <= 255
    requires order != [] && Within(order, |PartsOf(plan)|)
    modifies sender
    ensures fresh(receiver)
    ensures !AllOf(PartsOf(plan), Asked(order)) ==> Holds(receiver.State(), PartsOf(plan), Asked(order))
    ensures AllOf(PartsOf(plan), Asked(order)) && !AllOf(PartsOf(plan), Asked(order[..|order| - 1])) ==>
              receiver.State() == FromTree(Some(plan.original)) && IsComplete(receiver.State())
    ensures var got := Collected(order, PartsOf(plan));
            if AllOf(PartsOf(plan), got) then receiver.State() == FromTree(Some(plan.original))
            else Holds(receiver.State(), PartsOf(plan), got)
  {
    ghost var parts := PartsOf(plan);
    ghost var from := SetInt(plan.t.header, TOTAL_TAG, |parts|);
    TransferOutcome(sender.tree.value, sender.allowSplit, sender.maxPkg, b, plan, order);
    PlanSends(sender.tree.value, sender.allowSplit, sender.maxPkg, b, plan);
    PlanParts(sender.tree.value, sender.allowSplit, sender.maxPkg, b);
    SmallPartsUsable(parts);
    OriginalIsComplete(plan.original);
    Prepare(sender, b, plan);
    receiver := new KnvProtocol();
    PassAll(sender, receiver, order, from, parts);
  }
}
