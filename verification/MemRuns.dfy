/**
 Whole runs of the allocator: what a sequence of requests does to the pools and to the caller's handles, and
 what every such run keeps.
 */
module MemRuns {
  import opened Bytes
  import opened Basics
  import opened MemPool
  import opened MemManager

  /** What a caller can ask for: memory, the release of the k-th handle it has, or another overall limit. */
  datatype Query = Get(size: nat, avail: nat -> bool, creatable: bool, memory: bool) | Give(k: nat) | Limit(size: nat)

  /** The caller's handles, the pools and the overall limit. */
  datatype Snapshot = Snapshot(live: seq<Handle>, faces: seq<Face>, limit: nat)

  /** The blocks of one class among the caller's handles. */
  ghost function Ids(live: seq<Handle>, c: nat): set<nat> {
    set h | h in live && h.Pooled? && h.magic == c :: h.block.id
  }

  /** The classes are there with their sizes. */
  ghost predicate Plain(fs: seq<Face>) {
    |fs| == CLASSES && forall i :: 0 <= i < CLASSES ==> fs[i].size == SizeOf(i)
  }

  /** The handles belong to the classes. */
  ghost predicate Formed(a: Snapshot) {
    Plain(a.faces) && forall k :: 0 <= k < |a.live| && a.live[k].Pooled? ==> a.live[k].magic < CLASSES
  }

  /** The handles name distinct blocks, which are exactly those the pools have given out. */
  ghost predicate Owned(live: seq<Handle>, fs: seq<Face>) {
    && Plain(fs)
    && (forall k :: 0 <= k < |live| && live[k].Pooled? ==> live[k].magic < CLASSES)
    && (forall c :: 0 <= c < CLASSES ==> Held(fs[c]) == Ids(live, c))
    && Distinct(live)
  }

  ghost predicate Distinct(live: seq<Handle>) {
    forall j, k :: 0 <= j < k < |live| && live[j].Pooled? && live[k].Pooled? ==>
      live[j].magic != live[k].magic || live[j].block.id != live[k].block.id
  }

  /** A request for size bytes that a pool has to serve. */
  ghost predicate ServedFor(a: Snapshot, q: Query, b: Snapshot, c: nat, down: nat, moved: nat, m: Option<Block>)
    requires |a.faces| == CLASSES && q.Get?
  {
    && IsClassOf(c, q.size) && Served(a.faces, b.faces, q.avail, a.limit / 9, c, down, moved, q.creatable, q.memory, m)
    && b.live == a.live + if m.Some? then [Pooled(c, m.value)] else []
  }

  /** What one request does: exactly one handle comes, goes, or none changes. */
  ghost predicate Answered(a: Snapshot, q: Query, b: Snapshot)
    requires Formed(a)
  {
    match q
    case Limit(size) => b == a.(limit := size)
    case Give(k) =>
      if k < |a.live| then b == a.(live := Without(a.live, k), faces := Freed(a.faces, a.live[k])) else b == a
    case Get(size, _, creatable, memory) =>
      if size > BIGGEST
      then b == a.(live := a.live + if creatable then [Direct(if memory then size else 0, memory)] else [])
      else b.limit == a.limit && exists c, down, moved, m :: ServedFor(a, q, b, c, down, moved, m)
  }

  // ----- what every request keeps -----

  /** Only one class may hold other blocks than before. */
  ghost predicate HeldKept(was: seq<Face>, now: seq<Face>, except: nat) {
    |was| == |now| && forall c :: 0 <= c < |was| && c != except ==> Held(now[c]) == Held(was[c])
  }

  lemma OwnedAppend(live: seq<Handle>, was: seq<Face>, now: seq<Face>, h: Handle)
    requires Owned(live, was) && h.Pooled? && h.magic < CLASSES && HeldKept(was, now, h.magic) && Plain(now)
    requires h.block.id !in Held(was[h.magic]) && Held(now[h.magic]) == Held(was[h.magic]) + {h.block.id}
    ensures Owned(live + [h], now)
  {
  }

  lemma OwnedDirect(live: seq<Handle>, fs: seq<Face>, h: Handle)
    requires Owned(live, fs) && h.Direct?
    ensures Owned(live + [h], fs)
  {
  }

  lemma OwnedRemove(live: seq<Handle>, was: seq<Face>, k: nat)
    requires Owned(live, was) && k < |live|
    ensures Owned(Without(live, k), Freed(was, live[k]))
  {
    forall c | 0 <= c < CLASSES
      ensures Held(Freed(was, live[k])[c]) == Ids(Without(live, k), c)
    {
      IdsWithout(live, k, c);
    }
    DistinctWithout(live, k);
  }

  lemma IdsWithout(live: seq<Handle>, k: nat, c: nat)
    requires Distinct(live) && k < |live|
    ensures live[k].Pooled? && live[k].magic == c ==> live[k].block.id in Ids(live, c)
    ensures Ids(Without(live, k), c) ==
            Ids(live, c) - if live[k].Pooled? && live[k].magic == c then {live[k].block.id} else {}
  {
    forall h | h in live && h != live[k]
      ensures h in Without(live, k)
    {
      var j :| 0 <= j < |live| && live[j] == h;
      assert Without(live, k)[if j < k then j else j - 1] == h;
    }
  }

  lemma DistinctWithout(live: seq<Handle>, k: nat)
    requires Distinct(live) && k < |live|
    ensures Distinct(Without(live, k))
  {
  }

  lemma ServedHolds(a: Snapshot, q: Query, b: Snapshot, c: nat, down: nat, moved: nat, m: Option<Block>)
    requires Owned(a.live, a.faces) && q.Get? && ServedFor(a, q, b, c, down, moved, m)
    ensures Owned(b.live, b.faces)
  {
    assert HeldKept(a.faces, b.faces, c) && Plain(b.faces);
    if m.Some? {
      OwnedAppend(a.live, a.faces, b.faces, Pooled(c, m.value));
    } else {
      assert b.live == a.live && Held(b.faces[c]) == Held(a.faces[c]);
    }
  }

  /** After every request the handles are distinct and name exactly the blocks that are out. */
  lemma AnsweredOwned(a: Snapshot, q: Query, b: Snapshot)
    requires Owned(a.live, a.faces) && Answered(a, q, b)
    ensures Owned(b.live, b.faces)
  {
    match q
    case Limit(_) =>
    case Give(k) =>
      if k < |a.live| {
        OwnedRemove(a.live, a.faces, k);
      }
    case Get(size, _, creatable, memory) =>
      if size > BIGGEST {
        if creatable {
          OwnedDirect(a.live, a.faces, Direct(if memory then size else 0, memory));
        } else {
          assert b.live == a.live;
        }
      } else {
        var c, down, moved, m :| ServedFor(a, q, b, c, down, moved, m);
        ServedHolds(a, q, b, c, down, moved, m);
      }
  }

  /** A guard fires exactly in a pool that is asked to shrink while it is in the red. */
  lemma FiredStep(a: Snapshot, q: Query, b: Snapshot, i: nat)
    requires Owned(a.live, a.faces) && Answered(a, q, b) && i < CLASSES
    ensures |b.faces| == CLASSES && FiredAsAsked(a.faces[i], b.faces[i])
  {
    if q.Give? && q.k < |a.live| {
      var h := a.live[q.k];
      assert h.Pooled? ==> h.block.id in Ids(a.live, h.magic);
    } else if q.Get? && q.size <= BIGGEST {
      var c, down, moved, m :| ServedFor(a, q, b, c, down, moved, m);
      ServedAsAsked(a, q, b, c, down, moved, m, i);
    }
  }

  /** A class was asked to shrink at most once, and its guard fired exactly if it was asked while in the red. */
  ghost predicate FiredAsAsked(f: Face, g: Face) {
    if f.Vacant? then g == f || (g.Pool? && g.fired == 0)
    else
      && g.Pool? && f.shrinks <= g.shrinks <= f.shrinks + 1
      && g.fired == f.fired + if Red(f) && g.shrinks > f.shrinks then 1 else 0
  }

  lemma ServedAsAsked(a: Snapshot, q: Query, b: Snapshot, c: nat, down: nat, moved: nat, m: Option<Block>, i: nat)
    requires |a.faces| == CLASSES && q.Get? && ServedFor(a, q, b, c, down, moved, m) && i < CLASSES
    ensures |b.faces| == CLASSES && FiredAsAsked(a.faces[i], b.faces[i])
  {
  }

  // ----- whole runs -----

  /** The sequence of states that requests go through. */
  ghost predicate Follows(queries: seq<Query>, trace: seq<Snapshot>) {
    && |trace| == |queries| + 1
    && (forall n :: 0 <= n < |trace| ==> Owned(trace[n].live, trace[n].faces))
    && forall n :: 0 <= n < |queries| ==> Answered(trace[n], queries[n], trace[n + 1])
  }

  /** A run of requests from a manager without pools. */
  ghost predicate IsRun(limit: nat, queries: seq<Query>, trace: seq<Snapshot>) {
    Follows(queries, trace) && trace[0].live == [] && Empty(trace[0].faces) && trace[0].limit == limit
  }

  /** Between two states class i was asked to shrink while it was in the red. */
  ghost predicate AskedInRed(a: Snapshot, b: Snapshot, i: nat) {
    && i < |a.faces| == |b.faces| == CLASSES
    && a.faces[i].Pool? && b.faces[i].Pool? && b.faces[i].shrinks > a.faces[i].shrinks && Red(a.faces[i])
  }

  /** In the first n steps class i was never asked while it was in the red. */
  ghost predicate Solvent(trace: seq<Snapshot>, n: nat, i: nat)
    requires n < |trace|
  {
    forall k :: 0 <= k < n ==> !AskedInRed(trace[k], trace[k + 1], i)
  }

  lemma FiredNext(a: Snapshot, q: Query, b: Snapshot, i: nat)
    requires Owned(a.live, a.faces) && Answered(a, q, b) && i < CLASSES
    ensures |b.faces| == CLASSES && (Fired(b.faces[i]) == 0 <==> Fired(a.faces[i]) == 0 && !AskedInRed(a, b, i))
  {
    FiredStep(a, q, b, i);
  }

  /** Over every run, the guard of a class has fired exactly if the class was asked while it was in the red. */
  lemma {:induction false} FiredIffRed(limit: nat, queries: seq<Query>, trace: seq<Snapshot>, n: nat, i: nat)
    requires IsRun(limit, queries, trace) && n <= |queries| && i < CLASSES
    ensures Fired(trace[n].faces[i]) == 0 <==> Solvent(trace, n, i)
  {
    if n > 0 {
      FiredIffRed(limit, queries, trace, n - 1, i);
      FiredNext(trace[n - 1], queries[n - 1], trace[n], i);
      SolventNext(trace, n - 1, i);
    }
  }

  lemma SolventNext(trace: seq<Snapshot>, n: nat, i: nat)
    requires n + 1 < |trace|
    ensures Solvent(trace, n + 1, i) <==> Solvent(trace, n, i) && !AskedInRed(trace[n], trace[n + 1], i)
  {
  }

  /** Guards gave nothing away exactly if no class was ever asked while it was in the red. */
  lemma NoDebtIffNoRed(limit: nat, queries: seq<Query>, trace: seq<Snapshot>, n: nat)
    requires IsRun(limit, queries, trace) && n <= |queries| && Fair(trace[n].faces)
    ensures Debts(trace[n].faces, CLASSES) == 0 <==>
            forall i :: 0 <= i < CLASSES ==> Solvent(trace, n, i)
  {
    forall i | 0 <= i < CLASSES
      ensures Fired(trace[n].faces[i]) == 0 <==> Solvent(trace, n, i)
    {
      FiredIffRed(limit, queries, trace, n, i);
    }
    DebtsMeaning(trace[n].faces, CLASSES);
  }

  /** One request of a caller that frees only what it has. */
  method Serve(manager: UcMemManager, live: seq<Handle>, q: Query) returns (after: seq<Handle>)
    requires manager.Valid() && manager.moving == 0 && Owned(live, manager.faces)
    modifies manager, manager.repr
    ensures manager.Valid() && manager.moving == 0 && fresh(manager.repr - old(manager.repr))
    ensures Extends(old(manager.pools), manager.pools)
    ensures Answered(Snapshot(live, old(manager.faces), old(manager.limit)), q,
                     Snapshot(after, manager.faces, manager.limit))
  {
    match q
    case Limit(size) =>
      after := live;
      manager.SetMaxSize(size);
    case Give(k) =>
      after := live;
      if k < |live| {
        assert live[k].Pooled? ==> live[k].block.id in Ids(live, live[k].magic);
        manager.Free(Some(live[k]));
        after := live[..k] + live[k + 1..];
      }
    case Get(size, avail, creatable, memory) =>
      ghost var was := Snapshot(live, manager.faces, manager.limit);
      var r, c, down, moved := manager.Alloc(size, avail, creatable, memory);
      after := live + if r.Some? then [r.value] else [];
      ghost var now := Snapshot(after, manager.faces, manager.limit);
      assert size <= BIGGEST ==> ServedFor(was, q, now, c, down, moved, if r.Some? then Some(r.value.block) else None);
  }

  /**
   Every run from an empty manager goes through a run of states as Answered describes it. Each pool has handed out
   exactly the blocks its callers have, all counters agree with the blocks, and the limits together are what the
   pools were created with and one block more for every guard that fired, so exactly that if none did.
   */
  method Run(limit: nat, queries: seq<Query>)
    returns (manager: UcMemManager, live: seq<Handle>, ghost trace: seq<Snapshot>)
    ensures fresh(manager) && manager.Valid() && manager.moving == 0
    ensures IsRun(limit, queries, trace) && trace[|queries|] == Snapshot(live, manager.faces, manager.limit)
    ensures Limits(manager.faces, CLASSES) == Grants(manager.faces, CLASSES) + Debts(manager.faces, CLASSES)
    ensures Limits(manager.faces, CLASSES) == Grants(manager.faces, CLASSES) <==>
            forall c :: 0 <= c < CLASSES ==> Fired(manager.faces[c]) == 0
    ensures Limits(manager.faces, CLASSES) == Grants(manager.faces, CLASSES) <==>
            forall c :: 0 <= c < CLASSES ==> Solvent(trace, |queries|, c)
    ensures forall c :: 0 <= c < CLASSES && manager.pools[c] != null ==>
              manager.pools[c].total == SizeOf(c) * |Ids(live, c)|
  {
    manager := new UcMemManager(limit);
    live := [];
    trace := [Snapshot(live, manager.faces, limit)];
    StartIsRun(limit, manager.faces);
    live, trace := ServeAll(manager, limit, queries, trace);
    FacesAreFair(manager);
    NoDebtIffNoRed(limit, queries, trace, |queries|);
    Settle(manager, live);
  }

  /** The requests one after the other. */
  method ServeAll(manager: UcMemManager, ghost limit: nat, queries: seq<Query>, ghost start: seq<Snapshot>)
    returns (live: seq<Handle>, ghost trace: seq<Snapshot>)
    requires manager.Valid() && manager.moving == 0
    requires IsRun(limit, [], start) && start[0] == Snapshot([], manager.faces, manager.limit)
    modifies manager, manager.repr
    ensures manager.Valid() && manager.moving == 0
    ensures IsRun(limit, queries, trace) && trace[|queries|] == Snapshot(live, manager.faces, manager.limit)
  {
    live, trace := [], start;
    assert queries[..0] == [];
    for n := 0 to |queries|
      invariant manager.Valid() && manager.moving == 0 && fresh(manager.repr - old(manager.repr))
      invariant IsRun(limit, queries[..n], trace) && trace[n] == Snapshot(live, manager.faces, manager.limit)
    {
      live, trace := ServeNext(manager, limit, queries, n, live, trace);
    }
    assert queries[..|queries|] == queries;
  }

  method ServeNext(manager: UcMemManager, ghost limit: nat, queries: seq<Query>, n: nat, live: seq<Handle>,
                   ghost before: seq<Snapshot>)
    returns (after: seq<Handle>, ghost trace: seq<Snapshot>)
    requires manager.Valid() && manager.moving == 0 && n < |queries|
    requires IsRun(limit, queries[..n], before) && before[n] == Snapshot(live, manager.faces, manager.limit)
    modifies manager, manager.repr
    ensures manager.Valid() && manager.moving == 0 && fresh(manager.repr - old(manager.repr))
    ensures Extends(old(manager.pools), manager.pools)
    ensures IsRun(limit, queries[..n + 1], trace) && trace[n + 1] == Snapshot(after, manager.faces, manager.limit)
  {
    assert Owned(before[n].live, before[n].faces);
    after := Serve(manager, live, queries[n]);
    ghost var now := Snapshot(after, manager.faces, manager.limit);
    OneMore(limit, queries, before, n, now);
    trace := before + [now];
  }

  lemma StartIsRun(limit: nat, fs: seq<Face>)
    requires Empty(fs)
    ensures IsRun(limit, [], [Snapshot([], fs, limit)])
  {
  }

  lemma OneMore(limit: nat, queries: seq<Query>, trace: seq<Snapshot>, n: nat, now: Snapshot)
    requires n < |queries| && IsRun(limit, queries[..n], trace) && Answered(trace[n], queries[n], now)
    ensures IsRun(limit, queries[..n + 1], trace + [now]) && (trace + [now])[n + 1] == now
  {
    AnsweredOwned(trace[n], queries[n], now);
    OneLonger(queries, trace, n, now);
  }

  lemma OneLonger(queries: seq<Query>, trace: seq<Snapshot>, n: nat, now: Snapshot)
    requires n < |queries| && Follows(queries[..n], trace) && Owned(now.live, now.faces)
    requires Answered(trace[n], queries[n], now)
    ensures Follows(queries[..n + 1], trace + [now])
  {
  }

  lemma FacesAreFair(manager: UcMemManager)
    requires manager.Valid()
    ensures Fair(manager.faces)
  {
    forall c | 0 <= c < CLASSES && manager.faces[c].Pool?
      ensures manager.faces[c].size > 0
      ensures manager.faces[c].owed == Multiple(manager.faces[c].size, manager.faces[c].fired)
    {
      assert manager.pools[c] in manager.pools;
    }
  }

  lemma Settle(manager: UcMemManager, live: seq<Handle>)
    requires manager.Valid() && manager.moving == 0 && Owned(live, manager.faces)
    ensures Limits(manager.faces, CLASSES) == Grants(manager.faces, CLASSES) + Debts(manager.faces, CLASSES)
    ensures Limits(manager.faces, CLASSES) == Grants(manager.faces, CLASSES) <==>
            forall c :: 0 <= c < CLASSES ==> Fired(manager.faces[c]) == 0
    ensures forall c :: 0 <= c < CLASSES && manager.pools[c] != null ==>
              manager.pools[c].total == SizeOf(c) * |Ids(live, c)|
  {
    FacesAreFair(manager);
    NetIsDifference(manager.faces, CLASSES);
    DebtsMeaning(manager.faces, CLASSES);
    forall c | 0 <= c < CLASSES && manager.pools[c] != null
      ensures manager.pools[c].total == SizeOf(c) * |Ids(live, c)|
    {
      assert manager.pools[c] in manager.pools;
      assert Held(manager.faces[c]) == Ids(live, c);
      MultipleIsProduct(SizeOf(c), |Ids(live, c)|);
    }
  }
}
