/**
 One size class of the allocator (UcMemPool in knv/mem_pool.cc), run by one thread. The free list is
 the stack that module ObjPool shows an object pool's free list to be. A free object keeps its memory
 or, after shrinking or a failed allocation, is an empty shell. Counters are exact integers.
 */
module MemPool {
  import opened Bytes
  import opened Masks
  import opened Basics

  /** A UcMem object and whether it has memory. */
  datatype Block = Block(id: nat, mem: bool)

  /** The number of blocks of a stack that have memory. */
  function WithMem(s: seq<Block>): nat {
    if s == [] then 0 else (if s[0].mem then 1 else 0) + WithMem(s[1..])
  }

  lemma WithMemCons(b: Block, s: seq<Block>)
    ensures WithMem([b] + s) == (if b.mem then 1 else 0) + WithMem(s)
  {
    assert ([b] + s)[1..] == s;
  }

  function Min(a: int, b: int): int {
    if a < b then a else b
  }

  // ----- a pool as a value -----

  /**
   The state of a size class: no pool yet, or a pool with the limit it was created with and the one it has, the
   bytes handed out and the bytes kept free, its free list with the top first, the blocks in callers' hands, how
   often it was shrunk, how often the guard of Shrink fired, and how many bytes it gave away.
   */
  datatype Face =
    | Vacant(size: nat)
    | Pool(size: nat, initial: nat, limit: int, total: int, free: int, stack: seq<Block>, held: set<nat>,
           shrinks: nat, fired: nat, owed: nat)

  /** The blocks of a class in callers' hands, and how often its guard fired. */
  function Held(f: Face): set<nat> {
    if f.Pool? then f.held else {}
  }

  function Fired(f: Face): nat {
    if f.Pool? then f.fired else 0
  }

  /** Whether the next object taken from the pool has memory. */
  predicate Kept(f: Face)
    requires f.Pool?
  {
    f.stack != [] && f.stack[0].mem
  }

  /** The counters are not negative and count at least the block that would be taken next. */
  predicate Sane(f: Face) {
    f.Pool? && f.size > 0 && f.limit >= 0 && f.total >= 0 && f.free >= 0 && (Kept(f) ==> f.free >= f.size)
  }

  /** Half of what is neither handed out nor kept, in whole blocks, if that is more than half of the limit. */
  function IdleShare(f: Face): nat
    requires f.Pool?
  {
    var used := f.total + f.free;
    if f.size > 0 && 0 <= used && f.limit > 2 * used then RoundDown((f.limit - used) / 2, f.size) else 0
  }

  /** The largest multiple of size that is not above x. */
  function RoundDown(x: nat, size: nat): (r: nat)
    requires size > 0
    ensures r <= x < r + size
  {
    if x < size then 0 else size + RoundDown(x - size, size)
  }

  lemma {:induction false} RoundDownIsMultiple(x: nat, size: nat)
    requires size > 0
    ensures RoundDown(x, size) == x - x % size && RoundDown(x, size) % size == 0
  {
    if x < size {
      RemainderIs(x, size, 0, x);
      RemainderIs(0, size, 0, 0);
    } else {
      RoundDownIsMultiple(x - size, size);
      MulSucc(size, (x - size) / size);
      RemainderIs(x, size, (x - size) / size + 1, (x - size) % size);
      NextMultiple(RoundDown(x - size, size), size);
    }
  }

  lemma MaskIsRoundDown(x: nat, size: nat, log: nat)
    requires size == Pow2(log)
    ensures AndNot(x, size - 1) == RoundDown(x, size)
  {
    MaskRoundsDown(x, log);
    RoundDownIsMultiple(x, size);
  }

  lemma NextMultiple(x: nat, size: nat)
    requires size > 0 && x % size == 0
    ensures (size + x) % size == 0
  {
    MulSucc(size, x / size);
    RemainderIs(size + x, size, x / size + 1, 0);
  }

  /** Whether the second step of Shrink frees a block. */
  predicate GivesBlock(f: Face)
    requires f.Pool?
  {
    IdleShare(f) <= f.size && Spare(f)
  }

  /** What Shrink gives up. */
  function Gift(f: Face): nat
    requires f.Pool?
  {
    if IdleShare(f) > f.size then IdleShare(f) else if GivesBlock(f) then f.size else 0
  }

  /** In the red: the guard at the end of Shrink would fire, since the limit cannot be lowered by the freed block. */
  predicate Red(f: Face)
    requires f.Pool?
  {
    Kept(f) && f.limit < f.size
  }

  /** The pool after Shrink. */
  function Shrunk(f: Face): (g: Face)
    requires f.Pool?
    ensures g.Pool?
  {
    var gives := GivesBlock(f);
    f.(limit := f.limit - (if Red(f) then 0 else Gift(f)),
       free := f.free - (if gives then f.size else 0),
       stack := if gives then Emptied(f).stack else f.stack,
       shrinks := f.shrinks + 1,
       fired := f.fired + (if Red(f) then 1 else 0),
       owed := f.owed + if Red(f) then f.size else 0)
  }

  /** The free list is long enough for its top block to be freed. */
  predicate Spare(f: Face)
    requires f.Pool?
  {
    f.free > Min(f.limit / 4, f.total) && Kept(f)
  }

  /** The pool without the memory of its top block. */
  function Emptied(f: Face): Face
    requires f.Pool? && f.stack != []
  {
    f.(free := f.free - f.size, stack := [Block(f.stack[0].id, false)] + f.stack[1..])
  }

  /** The end of Shrink: the limit is lowered by what was given up, or the guard fires. */
  function Lowered(f: Face, shk: nat): Face
    requires f.Pool?
  {
    if f.limit < shk then f.(shrinks := f.shrinks + 1, fired := f.fired + 1, owed := f.owed + shk)
    else f.(limit := f.limit - shk, shrinks := f.shrinks + 1)
  }

  /** Without idle room, Shrink frees at most one block and lowers the limit by it where that is possible. */
  lemma ShrunkByBlock(f: Face)
    requires Sane(f) && IdleShare(f) <= f.size
    ensures var shk, g := if Spare(f) then f.size else 0, if Spare(f) then Emptied(f) else f;
            Gift(f) == shk && (f.limit < shk <==> Red(f)) && Shrunk(f) == Lowered(g, shk)
  {
    if Red(f) {
      RedGivesBlock(f);
    }
  }

  /** What a pool in the red gives up is one block, which its limit does not cover. */
  lemma RedGivesBlock(f: Face)
    requires Sane(f) && Red(f)
    ensures IdleShare(f) == 0 && GivesBlock(f) && Gift(f) == f.size
  {
  }

  /** By how much the limit has grown, less what guards gave away. */
  function Worth(f: Face): int {
    if f.Pool? then f.limit - f.initial - f.owed else 0
  }

  /**
   What is given up is missing afterwards, unless the guard fired. A limit that covered everything still does, and
   one that gave up idle room does in any case.
   */
  lemma ShrunkMeaning(f: Face)
    requires Sane(f)
    ensures Worth(Shrunk(f)) + Gift(f) == Worth(f)
    ensures Shrunk(f).limit >= 0
    ensures f.limit >= f.total + f.free ==> Shrunk(f).limit >= Shrunk(f).total + Shrunk(f).free
    ensures IdleShare(f) > f.size ==> Shrunk(f).limit >= f.total + f.free
  {
    if Red(f) {
      RedGivesBlock(f);
    }
  }

  /** Shrink gives up whole blocks. */
  lemma GiftIsBlocks(f: Face)
    requires Sane(f)
    ensures Gift(f) % f.size == 0
  {
    RemainderIs(f.size, f.size, 1, 0);
    RemainderIs(0, f.size, 0, 0);
    if IdleShare(f) > f.size {
      RoundDownIsMultiple((f.limit - (f.total + f.free)) / 2, f.size);
    }
  }

  /** Whether Alloc is refused by the limit: there is an object, but a shell that would have to be filled. */
  predicate Wants(f: Face, creatable: bool) {
    f.Pool? && (f.stack != [] || creatable) && !Kept(f) && f.total + f.size > f.limit
  }

  /**
   A pool before and after Alloc, with room moved to it in between: a block is handed out exactly when the top has
   memory, or a shell can be filled within the limit and what was moved.
   */
  ghost predicate Given(a: Face, b: Face, moved: nat, creatable: bool, memory: bool, m: Option<Block>) {
    && a.Pool? && b.Pool?
    && (m.Some? <==> (a.stack != [] || creatable) && (Kept(a) || (memory && a.total + a.size <= a.limit + moved)))
    && b.size == a.size && b.initial == a.initial && b.limit == a.limit + moved
    && b.shrinks == a.shrinks && b.fired == a.fired && b.owed == a.owed
    && (m.Some? ==>
          && m.value.mem && m.value.id !in a.held && b.held == a.held + {m.value.id}
          && (a.stack != [] ==> m.value.id == a.stack[0].id)
          && b.total == a.total + a.size && b.free == a.free - (if Kept(a) then a.size else 0)
          && b.stack == if a.stack == [] then [] else a.stack[1..])
    && (m.None? ==>
          && b.held == a.held && b.total == a.total && b.free == a.free
          && if a.stack == [] && creatable then |b.stack| == 1 && !b.stack[0].mem else b.stack == a.stack)
  }

  /** The pool after Free. */
  function Returned(f: Face, id: nat): Face
    requires f.Pool?
  {
    f.(total := f.total - f.size, free := f.free + f.size, stack := [Block(id, true)] + f.stack, held := f.held - {id})
  }

  class UcMemPool {
    const each: nat
    ghost const log: nat     // each is 2 to the log
    ghost const initial: nat // max when the pool was made
    var total: int           // bytes handed out
    var freeSize: int        // bytes of memory kept on the free list
    var max: int             // the limit for total
    var stack: seq<Block>    // the free list, top first
    var made: nat            // objects created so far
    ghost var held: set<nat> // the objects in callers' hands
    ghost var shrinks: nat   // how often Shrink was called
    ghost var fired: nat     // how often the guard at its end fired
    ghost var owed: nat      // what it gave away

    ghost predicate Valid()
      reads this
    {
      && each == Pow2(log) && max >= 0 && owed == Multiple(each, fired)
      && total == Multiple(each, |held|) && freeSize == Multiple(each, WithMem(stack))
      && (forall i :: 0 <= i < |stack| ==> stack[i].id < made && stack[i].id !in held)
      && (forall i, j :: 0 <= i < j < |stack| ==> stack[i].id != stack[j].id)
      && (forall x :: x in held ==> x < made)
    }

    ghost function Shown(): (f: Face)
      reads this
      ensures f.Pool?
    {
      Pool(each, initial, max, total, freeSize, stack, held, shrinks, fired, owed)
    }

    constructor (size: nat, limit: nat, ghost k: nat)
      requires size == Pow2(k)
      ensures Valid() && each == size && initial == limit && Shown() == Pool(size, limit, limit, 0, 0, [], {}, 0, 0, 0)
    {
      each, total, freeSize, max, stack, made := size, 0, 0, limit, [], 0;
      log, initial, held, shrinks, fired, owed := k, limit, {}, 0, 0, 0;
    }

    lemma CountersAgree()
      requires Valid()
      ensures Sane(Shown()) && (held != {} ==> total >= each)
    {
    }

    /** Like Valid, while one object taken from the stack is in the pool's own hands. */
    ghost predicate ValidWith(m: Block)
      reads this
    {
      && each == Pow2(log) && max >= 0 && owed == Multiple(each, fired)
      && total == Multiple(each, |held|) && freeSize == Multiple(each, WithMem(stack) + if m.mem then 1 else 0)
      && m.id < made && m.id !in held
      && (forall i :: 0 <= i < |stack| ==> stack[i].id < made && stack[i].id !in held && stack[i].id != m.id)
      && (forall i, j :: 0 <= i < j < |stack| ==> stack[i].id != stack[j].id)
      && (forall x :: x in held ==> x < made)
    }

    /** ObjPool::New: the top of the stack, or a new object without memory. */
    method Take(creatable: bool) returns (m: Option<Block>)
      requires Valid()
      modifies this`stack, this`made
      ensures old(stack) != [] ==> m == Some(old(stack)[0]) && stack == old(stack)[1..] && made == old(made)
      ensures old(stack) == [] && creatable ==> m == Some(Block(old(made), false)) && stack == []
      ensures old(stack) == [] && !creatable ==> m == None && stack == [] && made == old(made)
      ensures if m.Some? then ValidWith(m.value) else Valid()
    {
      if stack != [] {
        m := Some(stack[0]);
        WithMemCons(stack[0], stack[1..]);
        assert stack == [stack[0]] + stack[1..];
        stack := stack[1..];
      } else if creatable {
        m := Some(Block(made, false));
        made := made + 1;
      } else {
        m := None;
      }
    }

    /** ObjPool::Delete */
    method PutBack(m: Block)
      requires ValidWith(m)
      modifies this`stack
      ensures Valid() && stack == [m] + old(stack)
    {
      WithMemCons(m, stack);
      stack := [m] + stack;
    }

    /**
     Alloc. creatable and memory say whether a new object and its memory can be had when needed. A block
     is handed out exactly when the top has memory, or a shell may be filled without passing the limit.
     */
    method Alloc(creatable: bool, memory: bool) returns (r: Option<Block>, exceeded: bool, bug: bool)
      requires Valid()
      modifies this
      ensures Valid() && Given(old(Shown()), Shown(), 0, creatable, memory, r) && !bug
      ensures exceeded <==> Wants(old(Shown()), creatable)
      ensures old(total + freeSize) <= max ==>
                (total + freeSize <= max <==> r.None? || old(Kept(Shown())) || old(total + freeSize) + each <= max)
    {
      exceeded, bug, r := false, false, None;
      var taken := Take(creatable);
      if taken.None? {
        return;
      }
      var m := taken.value;
      if !m.mem && total + each > max {
        PutBack(m);
        exceeded := true;
        return;
      }
      if !m.mem && !memory {
        PutBack(m);
        return;
      }
      bug := HandOut(m);
      r := Some(Block(m.id, true));
    }

    /** The end of Alloc: a shell was filled, or a block with memory leaves the free list. */
    method HandOut(m: Block) returns (bug: bool)
      requires ValidWith(m)
      modifies this`total, this`freeSize, this`held
      ensures Valid() && !bug && held == old(held) + {m.id} && total == old(total) + each
      ensures freeSize == old(freeSize) - if m.mem then each else 0
    {
      bug := false;
      if m.mem {
        var v := freeSize - each;
        if v < 0 {
          bug, v := true, v + each;
        }
        freeSize := v;
      }
      total := total + each;
      Grow(each, held, m.id);
      held := held + {m.id};
    }

    /** Free: a block in the caller's hands goes on top of the stack with its memory. */
    method Free(m: Block) returns (bug: bool)
      requires Valid() && m.id in held
      modifies this
      ensures Valid() && Shown() == Returned(old(Shown()), m.id) && !bug
    {
      bug := false;
      CountersAgree();
      WithMemCons(Block(m.id, true), stack);
      Grow(each, held - {m.id}, m.id);
      assert held - {m.id} + {m.id} == held;
      stack := [Block(m.id, true)] + stack;
      freeSize := freeSize + each;
      var v := total - each;
      if v < 0 {
        bug, v := true, v + each;
      }
      total := v;
      held := held - {m.id};
    }

    /**
     Shrink gives up idle room in whole blocks, or else at most one kept block: the emptied shell is on top of
     the stack afterwards and ends the loop. The limit drops by what was given up unless the guard fires.
     */
    method Shrink() returns (shk: nat, bug: bool)
      requires Valid()
      modifies this
      ensures Valid() && shk == Gift(old(Shown())) && Shown() == Shrunk(old(Shown())) && !bug
    {
      bug := false;
      shk := IdlePart();
      if shk > each {
        CountersAgree();
        max := max - shk;
        shrinks := shrinks + 1;
      } else {
        shk, bug := GiveKept();
      }
    }

    /** The second step of Shrink. */
    method GiveKept() returns (shk: nat, bug: bool)
      requires Valid() && IdleShare(Shown()) <= each
      modifies this
      ensures Valid() && shk == Gift(old(Shown())) && Shown() == Shrunk(old(Shown())) && !bug
    {
      CountersAgree();
      ShrunkByBlock(Shown());
      shk, bug := FreeKept();
      Lower(shk);
    }

    /** The end of Shrink, with its guard. */
    method Lower(shk: nat)
      requires Valid() && (shk == 0 || shk == each)
      modifies this`max, this`shrinks, this`fired, this`owed
      ensures Valid() && Shown() == Lowered(old(Shown()), shk)
    {
      shrinks := shrinks + 1;
      max := max - shk;
      if max < 0 {
        max := max + shk;
        fired, owed := fired + 1, owed + shk;
      }
    }

    /** The first step of Shrink: the mask rounds down to whole blocks, since their size is a power of two. */
    method IdlePart() returns (shk: nat)
      requires Valid()
      ensures shk == IdleShare(Shown())
    {
      CountersAgree();
      shk := 0;
      var used := total + freeSize;
      if max > used * 2 {
        MaskIsRoundDown((max - used) / 2, each, log);
        shk := AndNot((max - used) / 2, each - 1);
      }
    }

    /** The loop of Shrink over the free list. */
    method FreeKept() returns (shk: nat, bug: bool)
      requires Valid()
      modifies this`stack, this`freeSize, this`made
      ensures Valid() && !bug
      ensures shk == if old(Spare(Shown())) then each else 0
      ensures Shown() == if old(Spare(Shown())) then Emptied(old(Shown())) else old(Shown())
    {
      shk, bug := 0, false;
      var maxFree := Min(max / 4, total);
      while freeSize > maxFree
        invariant Valid() && !bug && maxFree == Min(max / 4, total)
        invariant shk == 0 ==> Shown() == old(Shown())
        invariant shk != 0 ==> shk == each && old(Spare(Shown())) && Shown() == Emptied(old(Shown()))
        decreases freeSize
      {
        CountersAgree();
        var freed;
        freed, bug := FreeTop();
        if !freed {
          break;
        }
        shk := shk + each;
      }
    }

    /** One turn of the loop: the top object loses its memory, if it has any. */
    method FreeTop() returns (freed: bool, bug: bool)
      requires Valid() && stack != []
      modifies this`stack, this`freeSize, this`made
      ensures Valid() && !bug && freed == old(Kept(Shown()))
      ensures Shown() == if freed then Emptied(old(Shown())) else old(Shown())
    {
      bug := false;
      var taken := Take(true);
      var m := taken.value;
      if !m.mem {
        PutBack(m);
        assert stack == old(stack);
        return false, false;
      }
      bug := LoseMemory(m);
      freed := true;
    }

    /** The memory of an object taken from the free list is freed, and the object goes back. */
    method LoseMemory(m: Block) returns (bug: bool)
      requires ValidWith(m) && m.mem
      modifies this`stack, this`freeSize
      ensures Valid() && !bug && freeSize == old(freeSize) - each && stack == [Block(m.id, false)] + old(stack)
    {
      bug := false;
      var v := freeSize - each;
      if v < 0 {
        bug, v := true, v + each;
      }
      freeSize := v;
      PutBack(Block(m.id, false));
    }
  }

  /** A pool whose two blocks were handed out and came back. */
  method TwoFreeBlocks() returns (p: UcMemPool)
    ensures fresh(p) && p.Valid() && p.each == 64 && p.max == 128 && p.total == 0 && p.freeSize == 128 && p.held == {}
    ensures |p.stack| == 2 && p.stack[0].mem && p.stack[1].mem
  {
    p := new UcMemPool(64, 128, 6);
    var first, e1, g1 := p.Alloc(true, true);
    var second, e2, g2 := p.Alloc(true, true);
    var g3 := p.Free(first.value);
    var g4 := p.Free(second.value);
  }

  /** A run of one pool in which Alloc passes the limit with its kept memory, although there was room before. */
  method AllocPassesLimit() returns (p: UcMemPool, b: Block)
    ensures fresh(p) && p.Valid() && p.each == 64 && p.max == 64 && p.total == 64 && p.freeSize == 64
    ensures p.held == {b.id} && |p.stack| == 1 && Kept(p.Shown())
  {
    p := TwoFreeBlocks();
    var shk, g5 := p.Shrink();
    assert p.total + p.freeSize == p.max == 64;
    var third, e3, g6 := p.Alloc(true, true);
    b := third.value;
  }

  /** It goes on to one where Shrink gives up a block that its limit never had: the guard is reachable. */
  method GuardIsReachable() returns (p: UcMemPool, shk: nat)
    ensures fresh(p) && p.Valid() && p.held == {} && shk == 64 && p.max == 0
  {
    var b;
    p, b := AllocPassesLimit();
    var again, e1, g1 := p.Alloc(true, true);
    assert p.total == 128 && p.freeSize == 0 && p.held == {b.id, again.value.id};
    var g2 := p.Free(again.value);
    assert p.total == 64 && p.freeSize == 64 && p.held == {b.id};
    var s, g3 := p.Shrink();
    assert p.max == 0 && s == 64;
    var g4 := p.Free(b);
    assert Red(p.Shown());
    var g5;
    shk, g5 := p.Shrink();
  }

  lemma Grow(each: nat, s: set<nat>, x: nat)
    requires x !in s
    ensures Multiple(each, |s + {x}|) == Multiple(each, |s|) + each
  {
  }
}
