/** A run of the manager in which a guard fires, so that the limits together pass what the pools were created with. */
module GuardRun {
  import opened Basics
  import opened MemPool
  import opened MemManager
  import opened MemRuns

  /** A request that finds all the memory it needs. */
  function Ask(size: nat): Query {
    Get(size, (c: nat) => true, true, true)
  }

  /** Two small blocks taken and returned, and later requests that are too large for the limit of their class. */
  const QUERIES: seq<Query> :=
    [Ask(64), Ask(64), Give(0), Give(0), Limit(0), Ask(256), Ask(64), Ask(64), Give(1), Ask(256), Give(0), Ask(256)]

  /** A pool, or a class without one, that has nothing to give. */
  ghost predicate Hollow(f: Face) {
    f == Vacant(f.size) || (f.Pool? && f.limit == 0 && f.total == 0 && f.free == 0 && f.stack == [] && f.held == {})
  }

  lemma HollowStays(f: Face)
    requires Hollow(f)
    ensures Gift(Opened(f, 0)) == 0 && Hollow(Shrunk(Opened(f, 0)))
  {
  }

  /** The classes from the third on. */
  ghost predicate HollowFrom2(fs: seq<Face>) {
    |fs| == CLASSES && forall i :: 2 <= i < CLASSES ==> Hollow(fs[i])
  }

  lemma {:induction false} NoGifts(fs: seq<Face>, avail: nat -> bool, lo: nat, hi: nat, except: nat)
    requires HollowFrom2(fs) && 2 <= lo && hi <= CLASSES
    ensures Gifts(fs, avail, 0, lo, hi, except) == 0
    decreases CLASSES - lo
  {
    if lo < hi {
      NoGifts(fs, avail, lo + 1, hi, except);
      HollowStays(fs[lo]);
    }
  }

  lemma OneClass(c: nat, d: nat, size: nat)
    requires IsClassOf(c, size) && IsClassOf(d, size)
    ensures c == d
  {
  }

  lemma TheirClasses()
    ensures IsClassOf(0, 64) && IsClassOf(1, 256)
  {
  }

  /** A small block is had without asking other pools. */
  lemma Small(a: Snapshot, b: Snapshot) returns (id: nat)
    requires Formed(a) && Answered(a, Ask(64), b)
    requires var f := Opened(a.faces[0], a.limit / 9); Kept(f) || f.total + 64 <= f.limit
    ensures var f := Opened(a.faces[0], a.limit / 9);
            && b == Snapshot(a.live + [Pooled(0, Block(id, true))], a.faces[0 := b.faces[0]], a.limit)
            && Given(f, b.faces[0], 0, true, true, Some(Block(id, true)))
  {
    var c, down, moved, m :| ServedFor(a, Ask(64), b, c, down, moved, m);
    TheirClasses();
    OneClass(c, 0, 64);
    id := m.value.id;
  }

  /** A request of 256 bytes fails for want of room and makes the smallest pool shrink. */
  lemma Large(a: Snapshot, b: Snapshot)
    requires Formed(a) && Answered(a, Ask(256), b) && a.limit == 0 && HollowFrom2(a.faces)
    requires a.faces[0].Pool? && Gift(a.faces[0]) == 64
    requires var f := Opened(a.faces[1], 0); !Kept(f) && f.total == 0 && f.limit <= 128
    ensures b.live == a.live && b.limit == 0 && HollowFrom2(b.faces) && b.faces[0] == Shrunk(a.faces[0])
    ensures var f := Opened(a.faces[1], 0);
            !Kept(b.faces[1]) && b.faces[1].Pool? && b.faces[1].total == 0 && b.faces[1].limit == f.limit + 64
  {
    var q := Ask(256);
    var c, down, moved, m :| ServedFor(a, q, b, c, down, moved, m);
    TheirClasses();
    OneClass(c, 1, 256);
    LargeAsks(a, b, down, moved, m);
    LargeMoves(a, b, m);
  }

  lemma LargeMoves(a: Snapshot, b: Snapshot, m: Option<Block>)
    requires Formed(a) && a.limit == 0 && HollowFrom2(a.faces) && a.faces[0].Pool?
    requires ServedFor(a, Ask(256), b, 1, 0, 64, m)
    requires var f := Opened(a.faces[1], 0); !Kept(f) && f.total == 0 && f.limit <= 128
    ensures b.live == a.live && HollowFrom2(b.faces) && b.faces[0] == Shrunk(a.faces[0])
    ensures var f := Opened(a.faces[1], 0);
            !Kept(b.faces[1]) && b.faces[1].Pool? && b.faces[1].total == 0 && b.faces[1].limit == f.limit + 64
  {
    forall i | 2 <= i < CLASSES
      ensures Hollow(b.faces[i])
    {
      HollowStays(a.faces[i]);
    }
  }

  /** All other classes are asked, and only the smallest one gives something. */
  lemma LargeAsks(a: Snapshot, b: Snapshot, down: nat, moved: nat, m: Option<Block>)
    requires Formed(a) && ServedFor(a, Ask(256), b, 1, down, moved, m) && a.limit == 0
    requires HollowFrom2(a.faces) && a.faces[0].Pool? && Gift(a.faces[0]) == 64
    requires var f := Opened(a.faces[1], 0); !Kept(f) && f.total == 0 && f.limit <= 128
    ensures down == 0 && moved == 64
  {
    var avail := Ask(256).avail;
    assert Wants(Opened(a.faces[1], 0), true);
    assert StopsAt(a.faces, avail, 0, 1, down);
    if down != 0 {
      NoGifts(a.faces, avail, down, CLASSES, CLASSES);
    }
    assert down == 0;
    NoGifts(a.faces, avail, 2, CLASSES, 1);
    assert Gifts(a.faces, avail, 0, 1, CLASSES, 1) == Gifts(a.faces, avail, 0, 2, CLASSES, 1);
    assert Gifts(a.faces, avail, 0, 0, CLASSES, 1) ==
           GiftOf(a.faces, avail, 0, 0) + Gifts(a.faces, avail, 0, 1, CLASSES, 1);
  }

  /** The smallest pool: its limit, its counters, and which blocks of its free list have memory. */
  ghost predicate Looks(f: Face, limit: int, total: int, free: int, mem: seq<bool>, fired: nat) {
    && f.size == 64 && f.Pool? && f.limit == limit && f.total == total && f.free == free && f.fired == fired
    && |f.stack| == |mem| && forall i :: 0 <= i < |mem| ==> f.stack[i].mem == mem[i]
  }

  lemma ShrinkTwo(f: Face)
    requires Looks(f, 128, 0, 128, [true, true], 0)
    ensures Gift(f) == 64 && Looks(Shrunk(f), 64, 0, 64, [false, true], 0)
  {
  }

  lemma ShrinkOne(f: Face)
    requires Looks(f, 64, 64, 64, [true], 0)
    ensures Gift(f) == 64 && Looks(Shrunk(f), 0, 64, 0, [false], 0)
  {
  }

  lemma ShrinkRed(f: Face)
    requires Looks(f, 0, 0, 64, [true, false], 0)
    ensures Gift(f) == 64 && Shrunk(f).fired == 1
  {
  }

  lemma TakeOne(a: Snapshot, b: Snapshot, f: Face, limit: int, total: int, free: int, mem: seq<bool>) returns (id: nat)
    requires Formed(a) && Answered(a, Ask(64), b)
    requires f == Opened(a.faces[0], a.limit / 9) && Looks(f, limit, total, free, mem, 0)
    requires (mem != [] && mem[0]) || total + 64 <= limit
    ensures b == Snapshot(a.live + [Pooled(0, Block(id, true))], a.faces[0 := b.faces[0]], a.limit)
    ensures Looks(b.faces[0], limit, total + 64, if mem != [] && mem[0] then free - 64 else free,
                  if mem == [] then [] else mem[1..], 0)
  {
    id := Small(a, b);
  }

  lemma ReturnOne(a: Snapshot, b: Snapshot, k: nat, limit: int, total: int, free: int, mem: seq<bool>)
    requires Formed(a) && Answered(a, Give(k), b) && k < |a.live| && a.live[k].Pooled? && a.live[k].magic == 0
    requires Looks(a.faces[0], limit, total, free, mem, 0)
    ensures b == Snapshot(Without(a.live, k), a.faces[0 := b.faces[0]], a.limit)
    ensures Looks(b.faces[0], limit, total - 64, free + 64, [true] + mem, 0)
  {
  }

  /** One request of the run. */
  ghost predicate Turn(a: Snapshot, q: Query, b: Snapshot) {
    Formed(a) && Answered(a, q, b)
  }

  lemma TurnOf(t: seq<Snapshot>, n: nat)
    requires Follows(QUERIES, t) && n < |QUERIES|
    ensures |t| == 13 && Turn(t[n], QUERIES[n], t[n + 1])
  {
    assert Owned(t[n].live, t[n].faces);
  }

  /** The state before the first request, as far as it matters. */
  ghost predicate Fresh(a: Snapshot) {
    a.live == [] && a.limit == 1152 && Rest(a.faces, Vacant(256)) && a.faces[0].Vacant?
  }

  /** The classes but the smallest one. */
  ghost predicate Rest(fs: seq<Face>, f: Face) {
    HollowFrom2(fs) && fs[1] == f
  }

  /** All handles are blocks of the smallest class. */
  ghost predicate AllSmall(live: seq<Handle>, n: nat) {
    |live| == n && forall k :: 0 <= k < n ==> live[k].Pooled? && live[k].magic == 0
  }

  /** The pool is created with a block. */
  lemma PartOne(a: Snapshot, b: Snapshot)
    requires Fresh(a) && Turn(a, Ask(64), b)
    ensures |b.faces| == CLASSES && Looks(b.faces[0], 128, 64, 0, [], 0)
    ensures b.limit == 1152 && Rest(b.faces, Vacant(256))
    ensures AllSmall(b.live, 1)
  {
    var x := TakeOne(a, b, New(64, 128), 128, 0, 0, []);
  }

  /** A second block is taken. */
  lemma PartTwo(a: Snapshot, b: Snapshot)
    requires Turn(a, Ask(64), b) && Looks(a.faces[0], 128, 64, 0, [], 0)
    requires a.limit == 1152 && Rest(a.faces, Vacant(256))
    requires AllSmall(a.live, 1)
    ensures |b.faces| == CLASSES && Looks(b.faces[0], 128, 128, 0, [], 0)
    ensures Rest(b.faces, Vacant(256)) && AllSmall(b.live, 2)
  {
    var y := TakeOne(a, b, a.faces[0], 128, 64, 0, []);
  }

  /** Both are returned, and the overall limit drops to 0. */
  lemma PartThree(a: Snapshot, b: Snapshot, c: Snapshot, d: Snapshot)
    requires Turn(a, Give(0), b) && Turn(b, Give(0), c) && Turn(c, Limit(0), d) && AllSmall(a.live, 2)
    requires Looks(a.faces[0], 128, 128, 0, [], 0) && Rest(a.faces, Vacant(256))
    ensures |d.faces| == CLASSES && Looks(d.faces[0], 128, 0, 128, [true, true], 0) && d.limit == 0 && d.live == []
    ensures Rest(d.faces, Vacant(256))
  {
    ReturnOne(a, b, 0, 128, 128, 0, []);
    assert [true] + [] == [true];
    ReturnOne(b, c, 0, 128, 64, 64, [true]);
  }

  /** The pool gives up a block, which is then filled again within the lower limit. */
  lemma PartFour(a: Snapshot, b: Snapshot, c: Snapshot)
    requires Turn(a, Ask(256), b) && Turn(b, Ask(64), c)
    requires Looks(a.faces[0], 128, 0, 128, [true, true], 0)
    requires a.limit == 0 && a.live == [] && Rest(a.faces, Vacant(256))
    ensures |c.faces| == CLASSES && Looks(c.faces[0], 64, 64, 64, [true], 0)
    ensures c.limit == 0 && Rest(c.faces, c.faces[1])
    ensures |c.live| == 1 && c.live[0].Pooled? && c.live[0].magic == 0 && Wanting(c.faces[1], 64)
  {
    ShrinkTwo(a.faces[0]);
    Large(a, b);
    var z := TakeOne(b, c, b.faces[0], 64, 0, 64, [false, true]);
  }

  /** The class of 256 bytes has a pool of that limit and no block. */
  ghost predicate Wanting(f: Face, limit: int) {
    f.Pool? && !Kept(f) && f.total == 0 && f.limit == limit
  }

  /** The other block is taken, beyond the limit, and returned. */
  lemma PartFive(a: Snapshot, b: Snapshot, c: Snapshot)
    requires Turn(a, Ask(64), b) && Turn(b, Give(1), c)
    requires Looks(a.faces[0], 64, 64, 64, [true], 0) && a.limit == 0 && Rest(a.faces, a.faces[1])
    requires |a.live| == 1 && a.live[0].Pooled? && a.live[0].magic == 0 && Wanting(a.faces[1], 64)
    ensures |c.faces| == CLASSES && Looks(c.faces[0], 64, 64, 64, [true], 0)
    ensures c.limit == 0 && Rest(c.faces, c.faces[1])
    ensures |c.live| == 1 && c.live[0].Pooled? && c.live[0].magic == 0 && Wanting(c.faces[1], 64)
  {
    var w := TakeOne(a, b, a.faces[0], 64, 64, 64, [true]);
    ReturnOne(b, c, 1, 64, 128, 0, []);
  }

  /** The limit drops to nothing while a block is out. */
  lemma PartSix(a: Snapshot, b: Snapshot, c: Snapshot)
    requires Turn(a, Ask(256), b) && Turn(b, Give(0), c)
    requires Looks(a.faces[0], 64, 64, 64, [true], 0) && a.limit == 0 && Rest(a.faces, a.faces[1])
    requires |a.live| == 1 && a.live[0].Pooled? && a.live[0].magic == 0 && Wanting(a.faces[1], 64)
    ensures |c.faces| == CLASSES && Looks(c.faces[0], 0, 0, 64, [true, false], 0) && c.limit == 0
    ensures Rest(c.faces, c.faces[1]) && Wanting(c.faces[1], 128)
  {
    ShrinkOne(a.faces[0]);
    Large(a, b);
    ReturnOne(b, c, 0, 0, 64, 0, [false]);
    assert [true] + [false] == [true, false];
  }

  /** The guard of the smallest pool has fired once. */
  ghost predicate Fires(a: Snapshot) {
    |a.faces| == CLASSES && Fired(a.faces[0]) == 1
  }

  /** Returned, it was kept by a pool in the red. */
  lemma PartSeven(a: Snapshot, b: Snapshot)
    requires Turn(a, Ask(256), b) && Looks(a.faces[0], 0, 0, 64, [true, false], 0) && a.limit == 0
    requires Rest(a.faces, a.faces[1]) && Wanting(a.faces[1], 128)
    ensures Fires(b)
  {
    ShrinkRed(a.faces[0]);
    Large(a, b);
  }

  /** The first five requests: two free blocks with memory, and no overall limit. */
  lemma FirstFive(a: Snapshot, b: Snapshot, c: Snapshot, d: Snapshot, e: Snapshot, f: Snapshot)
    requires Fresh(a) && Turn(a, Ask(64), b) && Turn(b, Ask(64), c)
    requires Turn(c, Give(0), d) && Turn(d, Give(0), e) && Turn(e, Limit(0), f)
    ensures |f.faces| == CLASSES && Looks(f.faces[0], 128, 0, 128, [true, true], 0)
    ensures f.limit == 0 && f.live == [] && Rest(f.faces, Vacant(256))
  {
    PartOne(a, b);
    PartTwo(b, c);
    PartThree(c, d, e, f);
  }

  /** The next four: one block is out, the other one is free and has memory, and the limit covers one. */
  lemma NextFour(a: Snapshot, b: Snapshot, c: Snapshot, d: Snapshot, e: Snapshot)
    requires Turn(a, Ask(256), b) && Turn(b, Ask(64), c) && Turn(c, Ask(64), d) && Turn(d, Give(1), e)
    requires Looks(a.faces[0], 128, 0, 128, [true, true], 0)
    requires a.limit == 0 && a.live == [] && Rest(a.faces, Vacant(256))
    ensures |e.faces| == CLASSES && Looks(e.faces[0], 64, 64, 64, [true], 0) && e.limit == 0
    ensures Rest(e.faces, e.faces[1]) && Wanting(e.faces[1], 64)
    ensures |e.live| == 1 && e.live[0].Pooled? && e.live[0].magic == 0
  {
    PartFour(a, b, c);
    PartFive(c, d, e);
  }

  /** The last three: the limit is used up, and the guard fires. */
  lemma LastThree(a: Snapshot, b: Snapshot, c: Snapshot, d: Snapshot)
    requires Turn(a, Ask(256), b) && Turn(b, Give(0), c) && Turn(c, Ask(256), d)
    requires Looks(a.faces[0], 64, 64, 64, [true], 0) && a.limit == 0 && Rest(a.faces, a.faces[1])
    requires |a.live| == 1 && a.live[0].Pooled? && a.live[0].magic == 0 && Wanting(a.faces[1], 64)
    ensures Fires(d)
  {
    PartSix(a, b, c);
    PartSeven(c, d);
  }

  lemma Queries()
    ensures |QUERIES| == 12 && QUERIES[0] == QUERIES[1] == QUERIES[6] == QUERIES[7] == Ask(64)
    ensures QUERIES[2] == QUERIES[3] == QUERIES[10] == Give(0) && QUERIES[4] == Limit(0) && QUERIES[8] == Give(1)
    ensures QUERIES[5] == QUERIES[9] == QUERIES[11] == Ask(256)
  {
  }

  lemma TurnIs(t: seq<Snapshot>, n: nat, q: Query)
    requires Follows(QUERIES, t) && n < 12 && |QUERIES| == 12 && QUERIES[n] == q
    ensures Turn(t[n], q, t[n + 1])
  {
    TurnOf(t, n);
  }

  ghost predicate FirstTurns(t: seq<Snapshot>) {
    && |t| == 13 && Turn(t[0], Ask(64), t[1]) && Turn(t[1], Ask(64), t[2]) && Turn(t[2], Give(0), t[3])
    && Turn(t[3], Give(0), t[4]) && Turn(t[4], Limit(0), t[5])
  }

  ghost predicate MiddleTurns(t: seq<Snapshot>) {
    && |t| == 13 && Turn(t[5], Ask(256), t[6]) && Turn(t[6], Ask(64), t[7]) && Turn(t[7], Ask(64), t[8])
    && Turn(t[8], Give(1), t[9])
  }

  ghost predicate LastTurns(t: seq<Snapshot>) {
    && |t| == 13 && Turn(t[9], Ask(256), t[10]) && Turn(t[10], Give(0), t[11]) && Turn(t[11], Ask(256), t[12])
  }

  lemma HasFirstTurns(t: seq<Snapshot>)
    requires Follows(QUERIES, t)
    ensures FirstTurns(t)
  {
    Queries();
    TurnIs(t, 0, Ask(64));
    TurnIs(t, 1, Ask(64));
    TurnIs(t, 2, Give(0));
    TurnIs(t, 3, Give(0));
    TurnIs(t, 4, Limit(0));
  }

  lemma HasMiddleTurns(t: seq<Snapshot>)
    requires Follows(QUERIES, t)
    ensures MiddleTurns(t)
  {
    Queries();
    TurnIs(t, 5, Ask(256));
    TurnIs(t, 6, Ask(64));
    TurnIs(t, 7, Ask(64));
    TurnIs(t, 8, Give(1));
  }

  lemma HasLastTurns(t: seq<Snapshot>)
    requires Follows(QUERIES, t)
    ensures LastTurns(t)
  {
    Queries();
    TurnIs(t, 9, Ask(256));
    TurnIs(t, 10, Give(0));
    TurnIs(t, 11, Ask(256));
  }

  lemma AfterTurns(t: seq<Snapshot>)
    requires FirstTurns(t) && MiddleTurns(t) && LastTurns(t) && Fresh(t[0])
    ensures Fires(t[12])
  {
    FirstFive(t[0], t[1], t[2], t[3], t[4], t[5]);
    NextFour(t[5], t[6], t[7], t[8], t[9]);
    LastThree(t[9], t[10], t[11], t[12]);
  }

  /** The guard of the smallest pool has fired at the end of every such run. */
  lemma GuardFires(t: seq<Snapshot>)
    requires Follows(QUERIES, t) && Fresh(t[0])
    ensures |t| == 13 && Fires(t[12])
  {
    HasFirstTurns(t);
    HasMiddleTurns(t);
    HasLastTurns(t);
    AfterTurns(t);
  }

  /** Every run of these requests ends with a guard that has fired. */
  ghost predicate Trips(limit: nat, queries: seq<Query>) {
    forall t :: IsRun(limit, queries, t) ==> Fires(t[|queries|])
  }

  lemma QueriesTrip()
    ensures Trips(1152, QUERIES)
  {
    forall t | IsRun(1152, QUERIES, t)
      ensures Fires(t[|QUERIES|])
    {
      GuardFires(t);
    }
  }

  method RunTo(limit: nat, queries: seq<Query>) returns (manager: UcMemManager)
    requires Trips(limit, queries)
    ensures fresh(manager) && manager.Valid() && Limits(manager.faces, CLASSES) > Grants(manager.faces, CLASSES)
  {
    var live;
    ghost var trace;
    manager, live, trace := Run(limit, queries);
  }

  /** The manager ends with more room than its pools were created with. */
  method LimitsPassGrants() returns (manager: UcMemManager)
    ensures fresh(manager) && manager.Valid() && Limits(manager.faces, CLASSES) > Grants(manager.faces, CLASSES)
  {
    QueriesTrip();
    manager := RunTo(1152, QUERIES);
  }
}
