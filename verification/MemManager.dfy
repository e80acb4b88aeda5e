/** UcMemManager in knv/mem_pool.cc: nine pools, the choice of a class, and moving limits between pools. */
module MemManager {
  import opened Bytes
  import opened Basics
  import opened MemPool

  const SIZES: seq<nat> := [64, 256, 1024, 4096, 16384, 65536, 262144, 1048576, 4194304]
  const CLASSES: nat := 9
  const BIGGEST: nat := 4194304

  ghost predicate Increasing(table: seq<nat>) {
    forall i, j :: 0 <= i < j < |table| ==> table[i] < table[j]
  }

  /** The least class that is large enough; -1 when none is. Holds for every increasing table. */
  method GetMagic(table: seq<nat>, size: nat) returns (r: int)
    requires table != [] && Increasing(table)
    ensures r == -1 <==> size > table[|table| - 1]
    ensures r != -1 ==>
              && 0 <= r < |table| && size <= table[r]
              && forall j :: 0 <= j < r ==> table[j] < size
  {
    if size > table[|table| - 1] {
      return -1;
    }
    var low, high := 0, |table| - 1;
    while low < high
      invariant 0 <= low <= high < |table| && size <= table[high]
      invariant forall j :: 0 <= j < low ==> table[j] < size
      decreases high - low
    {
      var mid := (low + high) / 2;
      if size == table[mid] {
        return mid;
      }
      if size > table[mid] {
        if low < mid {
          low := mid;
        } else {
          low := low + 1;
        }
      } else {
        if high > mid {
          high := mid;
        } else {
          high := high - 1;
        }
      }
    }
    return low;
  }

  /** The size of the blocks of a class. */
  function SizeOf(i: nat): (size: nat)
    ensures size > 0
  {
    Pow2(6 + 2 * i)
  }

  /** The table holds the nine sizes, all of them powers of two. */
  lemma SizesArePowers(i: nat)
    requires i < CLASSES
    ensures SIZES[i] == SizeOf(i)
  {
    assert Pow2(6) == 64 && Pow2(8) == 4 * Pow2(6) && Pow2(10) == 4 * Pow2(8) && Pow2(12) == 4 * Pow2(10);
    assert Pow2(14) == 4 * Pow2(12) && Pow2(16) == 4 * Pow2(14) && Pow2(18) == 4 * Pow2(16);
    assert Pow2(20) == 4 * Pow2(18) && Pow2(22) == 4 * Pow2(20);
  }

  /** A block as the caller sees it: from a pool, or allocated directly. */
  datatype Handle = Pooled(magic: nat, block: Block) | Direct(size: nat, mem: bool)

  /** UcMem::GetAllocSize */
  function AllocSize(h: Handle): nat
    requires h.Pooled? ==> h.magic < CLASSES
  {
    if h.Pooled? then SizeOf(h.magic) else h.size
  }

  // ----- sums over the classes -----

  /** The limits of the first n pools together. */
  function Limits(fs: seq<Face>, n: nat): int
    requires n <= |fs|
    decreases |fs|, n
  {
    if n == 0 then 0 else Limits(fs, n - 1) + if fs[n - 1].Pool? then fs[n - 1].limit else 0
  }

  /** What the first n pools were created with, together. */
  function Grants(fs: seq<Face>, n: nat): nat
    requires n <= |fs|
    decreases |fs|, n
  {
    if n == 0 then 0 else Grants(fs, n - 1) + if fs[n - 1].Pool? then fs[n - 1].initial else 0
  }

  /** What the guards of the first n pools gave away. */
  function Debts(fs: seq<Face>, n: nat): nat
    requires n <= |fs|
    decreases |fs|, n
  {
    if n == 0 then 0 else Debts(fs, n - 1) + if fs[n - 1].Pool? then fs[n - 1].owed else 0
  }

  /** By how much the limits have grown otherwise, which shrinking changes only by what is given up. */
  function Net(fs: seq<Face>, n: nat): int
    requires n <= |fs|
    decreases |fs|, n
  {
    if n == 0 then 0 else Net(fs, n - 1) + Worth(fs[n - 1])
  }

  lemma {:induction false} NetIsDifference(fs: seq<Face>, n: nat)
    requires n <= |fs|
    ensures Net(fs, n) == Limits(fs, n) - Grants(fs, n) - Debts(fs, n)
  {
    if n > 0 {
      NetIsDifference(fs, n - 1);
    }
  }

  lemma {:induction false} NetUpdate(fs: seq<Face>, n: nat, i: nat, f: Face)
    requires n <= |fs| && i < |fs|
    ensures Net(fs[i := f], n) == Net(fs, n) + if i < n then Worth(f) - Worth(fs[i]) else 0
  {
    if n > 0 {
      NetUpdate(fs, n - 1, i, f);
    }
  }

  /** What each pool gave away is a block for each time its guard fired. */
  ghost predicate Fair(fs: seq<Face>) {
    forall i :: 0 <= i < |fs| && fs[i].Pool? ==> fs[i].size > 0 && fs[i].owed == Multiple(fs[i].size, fs[i].fired)
  }

  /** Something was given away exactly if some guard fired. */
  lemma {:induction false} DebtsMeaning(fs: seq<Face>, n: nat)
    requires Fair(fs) && n <= |fs|
    ensures Debts(fs, n) == 0 <==> forall i :: 0 <= i < n ==> Fired(fs[i]) == 0
  {
    if n > 0 {
      DebtsMeaning(fs, n - 1);
    }
  }

  lemma NetShrunk(fs: seq<Face>, i: nat)
    requires i < |fs| == CLASSES && Sane(fs[i])
    ensures Net(fs[i := Shrunk(fs[i])], CLASSES) + Gift(fs[i]) == Net(fs, CLASSES)
  {
    ShrunkMeaning(fs[i]);
    NetUpdate(fs, CLASSES, i, Shrunk(fs[i]));
  }

  // ----- asking pools to shrink -----

  /** A pool that was just created. */
  function New(size: nat, ninth: nat): Face {
    Pool(size, ninth, ninth, 0, 0, [], {}, 0, 0, 0)
  }

  /** No class has a pool. */
  ghost predicate Empty(fs: seq<Face>) {
    |fs| == CLASSES && forall i :: 0 <= i < CLASSES ==> fs[i] == Vacant(SizeOf(i))
  }

  /** The pool of a class when it is first used in a call: as it is, or newly created. */
  function Opened(f: Face, ninth: nat): (g: Face)
    ensures g.Pool?
  {
    if f.Pool? then f else New(f.size, ninth)
  }

  /** Whether the class has a pool or can get one. */
  predicate Reachable(fs: seq<Face>, avail: nat -> bool, i: nat)
    requires i < |fs|
  {
    fs[i].Pool? || avail(i)
  }

  /** What class i gives up when it is asked. */
  function GiftOf(fs: seq<Face>, avail: nat -> bool, ninth: nat, i: nat): nat
    requires i < |fs| == CLASSES
  {
    if Reachable(fs, avail, i) then Gift(Opened(fs[i], ninth)) else 0
  }

  /** Class i after it was asked. */
  function AskedFace(fs: seq<Face>, avail: nat -> bool, ninth: nat, i: nat): Face
    requires i < |fs| == CLASSES
  {
    if Reachable(fs, avail, i) then Shrunk(Opened(fs[i], ninth)) else fs[i]
  }

  /** What the classes from lo to hi, but for one, give up together. */
  function Gifts(fs: seq<Face>, avail: nat -> bool, ninth: nat, lo: nat, hi: nat, except: nat): nat
    requires hi <= |fs| == CLASSES
    decreases |fs| - lo
  {
    if lo >= hi then 0
    else (if lo == except then 0 else GiftOf(fs, avail, ninth, lo)) + Gifts(fs, avail, ninth, lo + 1, hi, except)
  }

  /** Exactly the classes from lo to hi, but for one, were asked, each once; what became of that one is left open. */
  ghost predicate Visited(was: seq<Face>, now: seq<Face>, avail: nat -> bool, ninth: nat, lo: nat, hi: nat,
                          except: nat) {
    && |was| == |now| == CLASSES
    && forall j :: 0 <= j < CLASSES && j != except ==>
         now[j] == if lo <= j < hi then AskedFace(was, avail, ninth, j) else was[j]
  }

  /** The classes from lo to hi were asked and gave up that much. */
  ghost predicate Asked(was: seq<Face>, now: seq<Face>, avail: nat -> bool, ninth: nat, lo: nat, hi: nat, shk: nat) {
    && hi <= CLASSES && Visited(was, now, avail, ninth, lo, hi, CLASSES)
    && shk == Gifts(was, avail, ninth, lo, hi, CLASSES)
  }

  /** Whether a loop that looks for so much room, or just asks all classes, can stop. */
  predicate Enough(needed: Option<nat>, shk: nat) {
    needed.Some? && shk >= needed.value
  }

  lemma VisitedOneMore(a: seq<Face>, b: seq<Face>, c: seq<Face>, avail: nat -> bool, ninth: nat, i: nat, hi: nat)
    requires i < hi <= CLASSES && Visited(a, b, avail, ninth, i + 1, hi, CLASSES)
    requires c == b[i := AskedFace(b, avail, ninth, i)]
    ensures Visited(a, c, avail, ninth, i, hi, CLASSES) && GiftOf(b, avail, ninth, i) == GiftOf(a, avail, ninth, i)
  {
    assert b[i] == a[i];
  }

  lemma {:induction false} GiftsAgree(a: seq<Face>, b: seq<Face>, avail: nat -> bool, ninth: nat, lo: nat, hi: nat)
    requires |a| == |b| == CLASSES && hi <= CLASSES && forall j :: lo <= j < hi ==> a[j] == b[j]
    ensures Gifts(a, avail, ninth, lo, hi, CLASSES) == Gifts(b, avail, ninth, lo, hi, CLASSES)
    decreases hi - lo
  {
    if lo < hi {
      GiftsAgree(a, b, avail, ninth, lo + 1, hi);
    }
  }

  /** The sum without a class is what the classes below and above it give. */
  lemma {:induction false} GiftsAround(fs: seq<Face>, avail: nat -> bool, ninth: nat, lo: nat, magic: nat)
    requires |fs| == CLASSES && lo <= CLASSES && magic < CLASSES
    ensures Gifts(fs, avail, ninth, lo, CLASSES, magic) ==
            if lo <= magic
            then Gifts(fs, avail, ninth, lo, magic, CLASSES) + Gifts(fs, avail, ninth, magic + 1, CLASSES, CLASSES)
            else Gifts(fs, avail, ninth, lo, CLASSES, CLASSES)
    decreases CLASSES - lo
  {
    if lo < CLASSES {
      GiftsAround(fs, avail, ninth, lo + 1, magic);
    }
  }

  /** The larger classes and then the smaller ones: all but one were asked. */
  lemma VisitedBoth(a: seq<Face>, b: seq<Face>, c: seq<Face>, avail: nat -> bool, ninth: nat, magic: nat)
    requires magic < CLASSES && Visited(a, b, avail, ninth, magic + 1, CLASSES, CLASSES)
    requires Visited(b, c, avail, ninth, 0, magic, CLASSES)
    ensures Visited(a, c, avail, ninth, 0, CLASSES, magic) && c[magic] == a[magic]
    ensures Gifts(a, avail, ninth, magic + 1, CLASSES, CLASSES) + Gifts(b, avail, ninth, 0, magic, CLASSES) ==
            Gifts(a, avail, ninth, 0, CLASSES, magic)
  {
    GiftsAgree(a, b, avail, ninth, 0, magic);
    GiftsAround(a, avail, ninth, 0, magic);
  }

  lemma VisitedLarger(a: seq<Face>, b: seq<Face>, avail: nat -> bool, ninth: nat, magic: nat, down: nat)
    requires magic < down <= CLASSES && Visited(a, b, avail, ninth, down, CLASSES, CLASSES)
    ensures Visited(a, b, avail, ninth, down, CLASSES, magic) && b[magic] == a[magic]
    ensures Gifts(a, avail, ninth, down, CLASSES, CLASSES) == Gifts(a, avail, ninth, down, CLASSES, magic)
  {
    GiftsAround(a, avail, ninth, down, magic);
  }

  /** Shrink stops at class down: with the first larger class that makes it enough, or at 0 if none of them does. */
  ghost predicate StopsAt(fs: seq<Face>, avail: nat -> bool, ninth: nat, magic: nat, down: nat)
    requires |fs| == CLASSES && magic < CLASSES
  {
    if down == 0 then Gifts(fs, avail, ninth, magic + 1, CLASSES, CLASSES) < SizeOf(magic)
    else
      && magic < down < CLASSES
      && Gifts(fs, avail, ninth, down, CLASSES, CLASSES) >= SizeOf(magic)
      && Gifts(fs, avail, ninth, down + 1, CLASSES, CLASSES) < SizeOf(magic)
  }

  /**
   The pools before and after Alloc in class c. If the limit refuses the block, the other classes down to down are
   asked once each, and all that they give up is new room in class c; else they are left alone.
   */
  ghost predicate Served(was: seq<Face>, now: seq<Face>, avail: nat -> bool, ninth: nat, c: nat, down: nat, moved: nat,
                         creatable: bool, memory: bool, m: Option<Block>)
    requires |was| == CLASSES && c < CLASSES
  {
    if !Reachable(was, avail, c) then now == was && m == None
    else
      var start := Opened(was[c], ninth);
      && (if Wants(start, creatable) then StopsAt(was, avail, ninth, c, down) else down == CLASSES)
      && moved == Gifts(was, avail, ninth, down, CLASSES, c)
      && Visited(was, now, avail, ninth, down, CLASSES, c)
      && Given(start, now[c], moved, creatable, memory, m)
  }

  /** What happened to the class that asked does not matter for the others. */
  lemma {:induction false} GiftsAside(a: seq<Face>, b: seq<Face>, avail: nat -> bool, ninth: nat, lo: nat, hi: nat,
                                      c: nat)
    requires |a| == |b| == CLASSES && hi <= CLASSES && c < CLASSES && b == a[c := b[c]]
    ensures Gifts(a, avail, ninth, lo, hi, c) == Gifts(b, avail, ninth, lo, hi, c)
    ensures lo > c ==> Gifts(a, avail, ninth, lo, hi, CLASSES) == Gifts(b, avail, ninth, lo, hi, CLASSES)
    decreases hi - lo
  {
    if lo < hi {
      GiftsAside(a, b, avail, ninth, lo + 1, hi, c);
    }
  }

  lemma StopsAside(a: seq<Face>, b: seq<Face>, avail: nat -> bool, ninth: nat, c: nat, down: nat)
    requires |a| == |b| == CLASSES && c < CLASSES && b == a[c := b[c]] && StopsAt(b, avail, ninth, c, down)
    ensures StopsAt(a, avail, ninth, c, down)
  {
    GiftsAside(a, b, avail, ninth, c + 1, CLASSES, c);
    if down != 0 {
      GiftsAside(a, b, avail, ninth, down, CLASSES, c);
      GiftsAside(a, b, avail, ninth, down + 1, CLASSES, c);
    }
  }

  lemma VisitedAside(a: seq<Face>, b: seq<Face>, now: seq<Face>, avail: nat -> bool, ninth: nat, c: nat, down: nat)
    requires |a| == |b| == CLASSES && c < CLASSES && b == a[c := b[c]]
    requires Visited(b, now, avail, ninth, down, CLASSES, c)
    ensures Visited(a, now, avail, ninth, down, CLASSES, c)
  {
  }

  /** A refused first attempt, room moved, and a second attempt come to one attempt with that much more room. */
  lemma GivenTwice(a: Face, b: Face, c: Face, d: Face, moved: nat, creatable: bool, memory: bool, m: Option<Block>)
    requires Wants(a, creatable) && Given(a, b, 0, creatable, memory, None)
    requires c == Raised(b, moved)
    requires if moved > 0 then Given(c, d, 0, creatable, memory, m) else d == c && m == None
    ensures Given(a, d, moved, creatable, memory, m)
  {
  }

  /** Every pool stays where it is, and classes without one may get one. */
  ghost predicate Extends(was: seq<UcMemPool?>, now: seq<UcMemPool?>) {
    |now| == |was| && forall i :: 0 <= i < |was| ==> now[i] == was[i] || was[i] == null
  }

  /** The state of a class with this pool, or without one. */
  ghost predicate Shows(p: UcMemPool?, f: Face)
    reads p
  {
    if p == null then f.Vacant? else f == p.Shown()
  }

  class UcMemManager {
    var limit: nat                 // sz_max
    var pools: seq<UcMemPool?>     // the pool column of the magics table
    ghost var moving: nat          // what has left one pool and not yet reached another
    ghost var faces: seq<Face>     // the state of each class
    ghost var repr: set<UcMemPool> // the pools ever made

    ghost predicate Shape()
      reads this, pools
    {
      && |pools| == |faces| == CLASSES
      && (forall p :: p in pools && p != null ==> p in repr && p.Valid())
      && (forall i :: 0 <= i < CLASSES ==> faces[i].size == SizeOf(i) && Shows(pools[i], faces[i]))
      && (forall i, j :: 0 <= i < j < CLASSES && pools[i] != null ==> pools[i] != pools[j])
    }

    /** Budget conservation: no limit is made or lost except by creating pools and by the guards that fired. */
    ghost predicate Valid()
      reads this, pools
    {
      Shape() && Net(faces, CLASSES) + moving == 0
    }

    constructor (max: nat)
      ensures Valid() && limit == max && moving == 0 && repr == {}
      ensures Empty(faces) && forall i :: 0 <= i < CLASSES ==> pools[i] == null
    {
      limit, pools := max, seq(CLASSES, _ => null);
      ghost var none := NoPools();
      moving, repr, faces := 0, {}, none;
    }

    /** GetPool: an existing pool, or a new one with a ninth of the overall limit. */
    method GetPool(magic: nat, creatable: bool) returns (p: UcMemPool?)
      requires Valid() && magic < CLASSES
      modifies this`pools, this`repr, this`faces
      ensures Valid() && p == pools[magic] && fresh(repr - old(repr)) && repr >= old(repr)
      ensures old(pools[magic]) != null || !creatable ==> pools == old(pools) && faces == old(faces)
      ensures old(pools[magic]) == null && creatable ==>
                && p != null && fresh(p) && pools == old(pools)[magic := p]
                && faces == old(faces)[magic := New(SizeOf(magic), limit / 9)]
    {
      if pools[magic] == null && creatable {
        var pool := new UcMemPool(SizeOf(magic), limit / 9, 6 + 2 * magic);
        NetUpdate(faces, CLASSES, magic, New(SizeOf(magic), limit / 9));
        Install(magic, pool);
      }
      p := pools[magic];
    }

    /** The CAS in GetPool that puts a new pool in the table. */
    method Install(magic: nat, pool: UcMemPool)
      requires Shape() && magic < CLASSES && pools[magic] == null && pool !in pools
      requires pool.Valid() && pool.each == SizeOf(magic)
      modifies this`pools, this`repr, this`faces
      ensures Shape() && repr == old(repr) + {pool} && pools == old(pools)[magic := pool]
      ensures faces == old(faces)[magic := pool.Shown()]
    {
      assert forall j :: 0 <= j < CLASSES ==> pools[j] != pool;
      pools, repr, faces := pools[magic := pool], repr + {pool}, faces[magic := pool.Shown()];
    }

    /** What pool i gives up leaves its limit, except where its guard fires. */
    method ShrinkAt(i: nat) returns (shk: nat)
      requires Valid() && i < CLASSES && pools[i] != null
      modifies pools[i], this`moving, this`faces
      ensures Valid() && moving == old(moving) + shk
      ensures shk == Gift(old(faces)[i]) && faces == old(faces)[i := Shrunk(old(faces)[i])]
    {
      assert pools[i] in pools;
      pools[i].CountersAgree();
      NetShrunk(faces, i);
      var bug;
      shk, bug := pools[i].Shrink();
      moving := moving + shk;
      faces := faces[i := pools[i].Shown()];
    }

    /** GetPool with what it means for the state of the class. */
    method Open(i: nat, avail: nat -> bool) returns (p: UcMemPool?)
      requires Valid() && i < CLASSES
      modifies this`pools, this`repr, this`faces
      ensures Valid() && p == pools[i] && (p != null <==> Reachable(old(faces), avail, i))
      ensures fresh(repr - old(repr)) && repr >= old(repr) && Extends(old(pools), pools)
      ensures p == null ==> faces == old(faces)
      ensures p != null ==> faces == old(faces)[i := Opened(old(faces)[i], limit / 9)]
    {
      p := GetPool(i, avail(i));
    }

    /** One turn of the loops of Shrink. */
    method ShrinkPool(i: nat, avail: nat -> bool) returns (shk: nat)
      requires Valid() && i < CLASSES
      modifies this`pools, this`moving, this`repr, this`faces, repr
      ensures Valid() && moving == old(moving) + shk && shk == GiftOf(old(faces), avail, limit / 9, i)
      ensures faces == old(faces)[i := AskedFace(old(faces), avail, limit / 9, i)]
      ensures fresh(repr - old(repr)) && repr >= old(repr) && Extends(old(pools), pools)
    {
      var p := Open(i, avail);
      shk := 0;
      if p != null {
        shk := ShrinkAt(i);
      }
    }

    /** One turn of the loops of Shrink, after the classes from i + 1 to hi were asked and gave up shk. */
    method AskNext(i: nat, hi: nat, avail: nat -> bool, ghost was: seq<Face>, ghost ninth: nat, ghost shk: nat)
      returns (s: nat)
      requires Valid() && i < hi <= CLASSES && ninth == limit / 9
      requires Asked(was, faces, avail, ninth, i + 1, hi, shk)
      modifies this`pools, this`moving, this`repr, this`faces, repr
      ensures Valid() && moving == old(moving) + s && Asked(was, faces, avail, ninth, i, hi, shk + s)
      ensures fresh(repr - old(repr)) && repr >= old(repr) && Extends(old(pools), pools)
    {
      ghost var mid := faces;
      s := ShrinkPool(i, avail);
      VisitedOneMore(was, mid, faces, avail, ninth, i, hi);
    }

    /**
     One of the two loops of Shrink, from class hi - 1 down to lo; the first one ends as soon as the needed size
     was found, with class down.
     */
    method ShrinkDown(lo: nat, hi: nat, needed: Option<nat>, avail: nat -> bool, ghost ninth: nat)
      returns (shk: nat, ghost down: nat)
      requires Valid() && lo <= hi <= CLASSES && ninth == limit / 9
      modifies this`pools, this`moving, this`repr, this`faces, repr
      ensures Valid() && moving == old(moving) + shk
      ensures fresh(repr - old(repr)) && repr >= old(repr) && Extends(old(pools), pools)
      ensures lo <= down <= hi && Asked(old(faces), faces, avail, ninth, down, hi, shk)
      ensures down == lo || Enough(needed, shk)
      ensures down < hi ==> !Enough(needed, Gifts(old(faces), avail, ninth, down + 1, hi, CLASSES))
    {
      ghost var was := faces;
      var i := hi;
      shk := 0;
      ghost var before := 0;
      while i > lo && !Enough(needed, shk)
        invariant lo <= i <= hi && Valid() && moving == old(moving) + shk && ninth == limit / 9
        invariant fresh(repr - old(repr)) && repr >= old(repr) && Extends(old(pools), pools)
        invariant Asked(was, faces, avail, ninth, i, hi, shk)
        invariant i < hi ==> before == Gifts(was, avail, ninth, i + 1, hi, CLASSES) && !Enough(needed, before)
      {
        i := i - 1;
        var s := AskNext(i, hi, avail, was, ninth, shk);
        before, shk := shk, shk + s;
      }
      down := i;
    }

    /** Shrink: first the larger classes until enough was found, then the smaller ones. */
    method Shrink(magic: nat, avail: nat -> bool)
      returns (shk: nat, ghost down: nat)
      requires Valid() && magic < CLASSES
      modifies this`pools, this`moving, this`repr, this`faces, repr
      ensures Valid() && moving == old(moving) + shk
      ensures fresh(repr - old(repr)) && repr >= old(repr) && Extends(old(pools), pools)
      ensures StopsAt(old(faces), avail, limit / 9, magic, down)
      ensures shk == Gifts(old(faces), avail, limit / 9, down, CLASSES, magic)
      ensures Visited(old(faces), faces, avail, limit / 9, down, CLASSES, magic)
      ensures faces[magic] == old(faces)[magic]
    {
      ghost var was, ninth := faces, limit / 9;
      shk, down := ShrinkDown(magic + 1, CLASSES, Some(SizeOf(magic)), avail, ninth);
      if shk >= SizeOf(magic) {
        VisitedLarger(was, faces, avail, ninth, magic, down);
        return;
      }
      ghost var mid := faces;
      var s;
      s, down := ShrinkDown(0, magic, None, avail, ninth);
      shk := shk + s;
      VisitedBoth(was, mid, faces, avail, ninth, magic);
    }

    /** A pool's Alloc as the manager sees it. */
    method TryAt(i: nat, creatable: bool, memory: bool) returns (r: Option<Block>, exceeded: bool)
      requires Valid() && i < CLASSES && pools[i] != null
      modifies pools[i], this`faces
      ensures Valid() && faces == old(faces)[i := faces[i]]
      ensures Given(old(faces)[i], faces[i], 0, creatable, memory, r)
      ensures exceeded <==> Wants(old(faces)[i], creatable)
    {
      assert pools[i] in pools;
      var bug;
      r, exceeded, bug := pools[i].Alloc(creatable, memory);
      NetUpdate(faces, CLASSES, i, pools[i].Shown());
      faces := faces[i := pools[i].Shown()];
    }

    /** What was given up elsewhere arrives at pool i. */
    method Deposit(i: nat, shk: nat)
      requires Valid() && i < CLASSES && pools[i] != null && shk == moving
      modifies pools[i], this`moving, this`faces
      ensures Valid() && moving == 0
      ensures faces == old(faces)[i := Raised(old(faces)[i], shk)]
    {
      assert pools[i] in pools;
      AddLimit(pools[i], shk);
      moving := 0;
      NetUpdate(faces, CLASSES, i, pools[i].Shown());
      faces := faces[i := pools[i].Shown()];
    }

    /** The pool is tried again with the room that arrives. */
    method TryMore(i: nat, shk: nat, creatable: bool, memory: bool) returns (r: Option<Block>)
      requires Valid() && i < CLASSES && pools[i] != null && shk == moving
      modifies pools[i], this`moving, this`faces
      ensures Valid() && moving == 0 && faces == old(faces)[i := faces[i]]
      ensures Given(Raised(old(faces)[i], shk), faces[i], 0, creatable, memory, r)
    {
      Deposit(i, shk);
      var exceeded;
      r, exceeded := TryAt(i, creatable, memory);
    }

    /** The second half of Alloc: other pools give up room, all of it arrives at the full one, and it is tried again. */
    method Refill(magic: nat, avail: nat -> bool, creatable: bool, memory: bool)
      returns (m: Option<Block>, ghost down: nat, ghost moved: nat)
      requires Valid() && moving == 0 && magic < CLASSES && pools[magic] != null
      modifies this`pools, this`moving, this`repr, this`faces, repr
      ensures Valid() && moving == 0
      ensures fresh(repr - old(repr)) && repr >= old(repr) && Extends(old(pools), pools)
      ensures Refilled(old(faces), faces, avail, limit / 9, magic, down, moved, creatable, memory, m)
    {
      m := None;
      var shk;
      ghost var was, ninth := faces, limit / 9;
      shk, down := Shrink(magic, avail);
      ghost var mid := faces;
      moved := shk;
      if shk > 0 {
        m := TryMore(magic, shk, creatable, memory);
      }
      RefilledAfter(was, mid, faces, avail, ninth, magic, down, moved, creatable, memory, m);
    }

    /** Alloc once the pool is there. */
    method AllocFrom(magic: nat, avail: nat -> bool, creatable: bool, memory: bool)
      returns (m: Option<Block>, ghost down: nat, ghost moved: nat)
      requires Valid() && moving == 0 && magic < CLASSES && pools[magic] != null
      modifies this`pools, this`moving, this`repr, this`faces, repr
      ensures Valid() && moving == 0
      ensures fresh(repr - old(repr)) && repr >= old(repr) && Extends(old(pools), pools)
      ensures Served(old(faces), faces, avail, limit / 9, magic, down, moved, creatable, memory, m)
    {
      down, moved := CLASSES, 0;
      ghost var was, ninth := faces, limit / 9;
      var exceeded;
      m, exceeded := TryAt(magic, creatable, memory);
      ghost var mid := faces;
      if m.None? && exceeded {
        m, down, moved := Refill(magic, avail, creatable, memory);
        ServedAfterAll(was, mid, faces, avail, ninth, magic, down, moved, creatable, memory, m);
      } else {
        ServedAtOnce(was, mid, avail, ninth, magic, creatable, memory, m);
      }
    }

    /** Alloc once the class is known. */
    method AllocIn(magic: nat, avail: nat -> bool, creatable: bool, memory: bool)
      returns (m: Option<Block>, ghost down: nat, ghost moved: nat)
      requires Valid() && moving == 0 && magic < CLASSES
      modifies this`pools, this`moving, this`repr, this`faces, repr
      ensures Valid() && moving == 0
      ensures fresh(repr - old(repr)) && repr >= old(repr) && Extends(old(pools), pools)
      ensures Served(old(faces), faces, avail, limit / 9, magic, down, moved, creatable, memory, m)
    {
      ghost var was, ninth := faces, limit / 9;
      m, down, moved := None, CLASSES, 0;
      var pool := Open(magic, avail);
      if pool != null {
        ghost var mid := faces;
        m, down, moved := AllocFrom(magic, avail, creatable, memory);
        ServedByNew(was, mid, faces, avail, ninth, magic, down, moved, creatable, memory, m);
      }
    }

    /**
     Alloc. avail says for which classes a pool can be created, creatable and memory whether a new object and its
     memory can be had. The class c is the least that fits.
     */
    method Alloc(size: nat, avail: nat -> bool, creatable: bool, memory: bool)
      returns (r: Option<Handle>, ghost c: nat, ghost down: nat, ghost moved: nat)
      requires Valid() && moving == 0
      modifies this`pools, this`moving, this`repr, this`faces, repr
      ensures Valid() && moving == 0
      ensures fresh(repr - old(repr)) && repr >= old(repr) && Extends(old(pools), pools)
      ensures size > BIGGEST ==>
                && r == (if creatable then Some(Direct(if memory then size else 0, memory)) else None)
                && faces == old(faces) && pools == old(pools)
      ensures size <= BIGGEST ==>
                && IsClassOf(c, size)
                && (r.Some? ==> r.value.Pooled? && r.value.magic == c && AllocSize(r.value) >= size)
                && Served(old(faces), faces, avail, limit / 9, c, down, moved, creatable, memory,
                          if r.Some? then Some(r.value.block) else None)
    {
      var magic := ClassOf(size);
      if magic < 0 {
        return if creatable then Some(Direct(if memory then size else 0, memory)) else None, 0, CLASSES, 0;
      }
      var m;
      c := magic;
      m, down, moved := AllocIn(magic, avail, creatable, memory);
      r := if m.Some? then Some(Pooled(magic, m.value)) else None;
    }

    /** Free: a pool takes back its block with the memory; memory allocated directly is given up. */
    method Free(h: Option<Handle>)
      requires Valid()
      requires h.Some? && h.value.Pooled? ==> h.value.magic < CLASSES && h.value.block.id in Held(faces[h.value.magic])
      modifies this`faces, repr
      ensures Valid() && faces == if h.Some? then Freed(old(faces), h.value) else old(faces)
    {
      if h.Some? && h.value.Pooled? {
        var i := h.value.magic;
        assert pools[i] in pools;
        var bug := pools[i].Free(h.value.block);
        NetUpdate(faces, CLASSES, i, pools[i].Shown());
        faces := faces[i := pools[i].Shown()];
      }
    }

    /** SetMaxSize: only pools made later are affected. */
    method SetMaxSize(size: nat)
      requires Valid()
      modifies this`limit
      ensures Valid() && limit == size && faces == old(faces)
    {
      limit := size;
    }
  }

  lemma ServedAtOnce(was: seq<Face>, now: seq<Face>, avail: nat -> bool, ninth: nat, c: nat, creatable: bool,
                     memory: bool, m: Option<Block>)
    requires |was| == CLASSES && c < CLASSES && was[c].Pool? && |now| == CLASSES && now == was[c := now[c]]
    requires Given(was[c], now[c], 0, creatable, memory, m) && (m.Some? || !Wants(was[c], creatable))
    ensures Served(was, now, avail, ninth, c, CLASSES, 0, creatable, memory, m)
  {
  }

  /** The other classes down to down were asked, and class c was tried again if they gave up something. */
  ghost predicate Refilled(was: seq<Face>, now: seq<Face>, avail: nat -> bool, ninth: nat, c: nat, down: nat,
                           moved: nat, creatable: bool, memory: bool, m: Option<Block>) {
    && |was| == |now| == CLASSES && c < CLASSES && was[c].Pool?
    && StopsAt(was, avail, ninth, c, down) && moved == Gifts(was, avail, ninth, down, CLASSES, c)
    && Visited(was, now, avail, ninth, down, CLASSES, c)
    && var f := Raised(was[c], moved);
       if moved > 0 then Given(f, now[c], 0, creatable, memory, m) else now[c] == f && m == None
  }

  lemma RefilledAfter(was: seq<Face>, mid: seq<Face>, now: seq<Face>, avail: nat -> bool, ninth: nat, c: nat, down: nat,
                      moved: nat, creatable: bool, memory: bool, m: Option<Block>)
    requires |was| == |mid| == |now| == CLASSES && c < CLASSES && was[c].Pool? && mid[c] == was[c]
    requires StopsAt(was, avail, ninth, c, down) && moved == Gifts(was, avail, ninth, down, CLASSES, c)
    requires Visited(was, mid, avail, ninth, down, CLASSES, c) && now == mid[c := now[c]]
    requires if moved > 0 then Given(Raised(was[c], moved), now[c], 0, creatable, memory, m)
             else now == mid && m == None
    ensures Refilled(was, now, avail, ninth, c, down, moved, creatable, memory, m)
  {
  }

  lemma ServedAfterAll(was: seq<Face>, mid: seq<Face>, now: seq<Face>, avail: nat -> bool, ninth: nat, c: nat,
                       down: nat, moved: nat, creatable: bool, memory: bool, m: Option<Block>)
    requires |was| == |mid| == CLASSES && c < CLASSES && mid == was[c := mid[c]]
    requires Wants(was[c], creatable) && Given(was[c], mid[c], 0, creatable, memory, None)
    requires Refilled(mid, now, avail, ninth, c, down, moved, creatable, memory, m)
    ensures Served(was, now, avail, ninth, c, down, moved, creatable, memory, m)
  {
    StopsAside(was, mid, avail, ninth, c, down);
    GiftsAside(was, mid, avail, ninth, down, CLASSES, c);
    VisitedAside(was, mid, now, avail, ninth, c, down);
    GivenTwice(was[c], mid[c], Raised(mid[c], moved), now[c], moved, creatable, memory, m);
  }

  lemma ServedByNew(was: seq<Face>, mid: seq<Face>, now: seq<Face>, avail: nat -> bool, ninth: nat, c: nat, down: nat,
                    moved: nat, creatable: bool, memory: bool, m: Option<Block>)
    requires |was| == |mid| == CLASSES && c < CLASSES && Reachable(was, avail, c)
    requires mid == was[c := Opened(was[c], ninth)]
    requires Served(mid, now, avail, ninth, c, down, moved, creatable, memory, m)
    ensures Served(was, now, avail, ninth, c, down, moved, creatable, memory, m)
  {
    if Wants(mid[c], creatable) {
      StopsAside(was, mid, avail, ninth, c, down);
    }
    GiftsAside(was, mid, avail, ninth, down, CLASSES, c);
    VisitedAside(was, mid, now, avail, ninth, c, down);
  }

  /** The pools after a handle came back. */
  function Freed(fs: seq<Face>, h: Handle): seq<Face>
    requires |fs| == CLASSES && (h.Pooled? ==> h.magic < CLASSES)
  {
    if h.Pooled? && fs[h.magic].Pool? then fs[h.magic := Returned(fs[h.magic], h.block.id)] else fs
  }

  /** A pool with more room. */
  function Raised(f: Face, shk: nat): (g: Face)
    requires f.Pool?
    ensures g.Pool? && Worth(g) == Worth(f) + shk
  {
    f.(limit := f.limit + shk)
  }

  /** __sync_add_and_fetch on sz_max */
  method AddLimit(p: UcMemPool, shk: nat)
    requires p.Valid()
    modifies p
    ensures p.Valid() && p.Shown() == Raised(old(p.Shown()), shk)
  {
    p.max := p.max + shk;
  }

  /** The least class that holds size bytes. */
  ghost predicate IsClassOf(c: nat, size: nat) {
    c < CLASSES && size <= SizeOf(c) && forall j :: 0 <= j < c ==> SizeOf(j) < size
  }

  /** get_magic on the table of the nine classes. */
  method ClassOf(size: nat) returns (r: int)
    ensures r == -1 <==> size > BIGGEST
    ensures r != -1 ==> 0 <= r && IsClassOf(r, size)
  {
    r := GetMagic(SIZES, size);
    forall i | 0 <= i < CLASSES
      ensures SIZES[i] == SizeOf(i)
    {
      SizesArePowers(i);
    }
  }

  lemma NoPools() returns (fs: seq<Face>)
    ensures Empty(fs) && Net(fs, CLASSES) == 0
  {
    fs := seq(CLASSES, i requires 0 <= i => Vacant(SizeOf(i)));
    NetOfNothing(fs, CLASSES);
  }

  lemma {:induction false} NetOfNothing(fs: seq<Face>, n: nat)
    requires n <= |fs| && forall i :: 0 <= i < |fs| ==> Worth(fs[i]) == 0
    ensures Net(fs, n) == 0
  {
    if n > 0 {
      NetOfNothing(fs, n - 1);
    }
  }
}
