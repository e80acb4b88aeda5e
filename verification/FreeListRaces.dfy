/**
 The free list of knv/obj_pool.h under concurrency, as a state machine over the single reads, writes
 and compare-and-swap steps of New, Delete and AddToFreeList. Threads in poppers may call New; any
 thread may give back objects it holds. The pool is safe in every run exactly when at most one
 thread pops: with two, the read of next and the swap suffer from reuse of the same address.
 */
module FreeListRaces {

  type Obj = nat
  type Tid = nat
  datatype Link = Null | To(obj: Obj)

  datatype Pc =
    | Idle
    | Allocating                                // New: obj_freelist was read and null
    | Popping(o: Obj)                           // New: obj_freelist was read and not null
    | PopReady(o: Obj, n: Link)                 // New: o->next was read, the swap comes next
    | PopWon(o: Obj)                            // New: the swap succeeded, o->next is still to be cleared
    | Pushing(chain: seq<Obj>)                  // Delete, AddToFreeList: at the top of the retry loop
    | PushSeen(chain: seq<Obj>, seen: Link)     // obj_freelist was read
    | PushLinked(chain: seq<Obj>, seen: Link)   // the last object points to what was read

  datatype Thread = Thread(held: set<Obj>, pc: Pc)
  datatype State = State(head: Link, next: map<Obj, Link>, th: map<Tid, Thread>)

  datatype Action =
    | PopRead(t: Tid)
    | PopEmpty(t: Tid)
    | PopAlloc(t: Tid, made: Obj)
    | PopFail(t: Tid)                           // no memory for a new object
    | PopLoad(t: Tid)
    | PopCas(t: Tid)
    | PopStore(t: Tid)
    | PushStart(t: Tid, chain: seq<Obj>)
    | PushRead(t: Tid)
    | PushLink(t: Tid)
    | PushCas(t: Tid)
    | Hand(t: Tid, to: Tid, o: Obj)             // one thread passes an object to another

  predicate Distinct(c: seq<Obj>) {
    forall i, j :: 0 <= i < j < |c| ==> c[i] != c[j]
  }

  function Succ(c: seq<Obj>, i: nat): Link
    requires i < |c|
  {
    if i + 1 < |c| then To(c[i + 1]) else Null
  }

  function Members(c: seq<Obj>): set<Obj> {
    set o | o in c
  }

  function First(c: seq<Obj>): Link {
    if c == [] then Null else To(c[0])
  }

  /** The links inside a chain whose last object may point anywhere. */
  predicate LinkedInside(next: map<Obj, Link>, c: seq<Obj>) {
    (forall i :: 0 <= i < |c| ==> c[i] in next) &&
    forall i :: 0 <= i < |c| - 1 ==> next[c[i]] == To(c[i + 1])
  }

  /** next with the objects of c linked one behind the other; the last keeps its link. */
  function LinkUp(next: map<Obj, Link>, c: seq<Obj>): (r: map<Obj, Link>)
    requires c != [] && Distinct(c) && forall o :: o in c ==> o in next
    ensures r.Keys == next.Keys && LinkedInside(r, c)
    ensures forall o :: o in next && o !in c ==> r[o] == next[o]
  {
    if |c| == 1 then next
    else
      var tail := LinkUp(next, c[1..]);
      assert forall i :: 0 <= i < |c| - 1 ==> c[i + 1] == c[1..][i];
      tail[c[0] := To(c[1])]
  }

  predicate Enabled(s: State, a: Action, poppers: set<Tid>) {
    a.t in s.th &&
    var pc, held := s.th[a.t].pc, s.th[a.t].held;
    match a
    case PopRead(t) => t in poppers && pc.Idle? && s.head.To?
    case PopEmpty(t) => t in poppers && pc.Idle? && s.head.Null?
    case PopAlloc(_, o) => pc.Allocating? && o !in s.next
    case PopFail(_) => pc.Allocating?
    case PopLoad(_) => pc.Popping? && pc.o in s.next
    case PopCas(_) => pc.PopReady?
    case PopStore(_) => pc.PopWon?
    case PushStart(_, c) => pc.Idle? && c != [] && Distinct(c) && forall o :: o in c ==> o in held && o in s.next
    case PushRead(_) => pc.Pushing?
    case PushLink(_) => pc.PushSeen? && pc.chain != []
    case PushCas(_) => pc.PushLinked? && pc.chain != []
    case Hand(t, u, o) => pc.Idle? && o in held && u in s.th && u != t
  }

  function Apply(s: State, a: Action, poppers: set<Tid>): State
    requires Enabled(s, a, poppers)
  {
    var me := s.th[a.t];
    match a
    case PopRead(t) => s.(th := s.th[t := me.(pc := Popping(s.head.obj))])
    case PopEmpty(t) => s.(th := s.th[t := me.(pc := Allocating)])
    case PopAlloc(t, o) => s.(next := s.next[o := Null], th := s.th[t := Thread(me.held + {o}, PopWon(o))])
    case PopFail(t) => s.(th := s.th[t := me.(pc := Idle)])
    case PopLoad(t) => s.(th := s.th[t := me.(pc := PopReady(me.pc.o, s.next[me.pc.o]))])
    case PopCas(t) =>
      if s.head == To(me.pc.o)
      then s.(head := me.pc.n, th := s.th[t := Thread(me.held + {me.pc.o}, PopWon(me.pc.o))])
      else s.(th := s.th[t := me.(pc := Idle)])
    case PopStore(t) => s.(next := s.next[me.pc.o := Null], th := s.th[t := me.(pc := Idle)])
    case PushStart(t, c) => s.(next := LinkUp(s.next, c), th := s.th[t := me.(pc := Pushing(c))])
    case PushRead(t) => s.(th := s.th[t := me.(pc := PushSeen(me.pc.chain, s.head))])
    case PushLink(t) =>
      s.(next := s.next[me.pc.chain[|me.pc.chain| - 1] := me.pc.seen],
         th := s.th[t := me.(pc := PushLinked(me.pc.chain, me.pc.seen))])
    case PushCas(t) =>
      if s.head == me.pc.seen
      then s.(head := To(me.pc.chain[0]),
              th := s.th[t := Thread(me.held - Members(me.pc.chain), Idle)])
      else s.(th := s.th[t := me.(pc := Pushing(me.pc.chain))])
    case Hand(t, u, o) =>
      s.(th := s.th[t := me.(held := me.held - {o})][u := s.th[u].(held := s.th[u].held + {o})])
  }

  // ----- safety -----

  /** c is the free list: it starts at the head, ends in null, and never visits an object twice. */
  predicate IsFreeList(s: State, c: seq<Obj>) {
    && s.head == First(c)
    && Distinct(c)
    && (forall i :: 0 <= i < |c| ==> c[i] in s.next)
    && (forall i :: 0 <= i < |c| ==> s.next[c[i]] == Succ(c, i))
  }

  ghost predicate Held(s: State, o: Obj) {
    exists t :: t in s.th && o in s.th[t].held
  }

  /** Every object is in exactly one place: in the free list c, or held by one thread. */
  ghost predicate OnePlace(s: State, c: seq<Obj>) {
    && (forall t :: t in s.th ==> s.th[t].held <= s.next.Keys)
    && (forall t, o :: t in s.th && o in s.th[t].held ==> o !in c)
    && (forall t, u, o :: t in s.th && u in s.th && t != u && o in s.th[t].held ==> o !in s.th[u].held)
    && (forall o :: o in s.next && o !in c ==> Held(s, o))
  }

  ghost predicate Safe(s: State) {
    exists c :: IsFreeList(s, c) && OnePlace(s, c)
  }

  /** The pool at rest: nobody inside a call, everything in one place. */
  ghost predicate Init(s: State) {
    Safe(s) && forall t :: t in s.th ==> s.th[t].pc.Idle?
  }

  // ----- the invariant for one popper -----

  predicate ThreadOk(s: State, c: seq<Obj>, t: Tid, poppers: set<Tid>)
    requires t in s.th
  {
    var me := s.th[t];
    match me.pc
    case Idle => true
    case Allocating => t in poppers
    case Popping(o) => t in poppers && o in c
    case PopReady(o, n) => t in poppers && exists i :: 0 <= i < |c| && c[i] == o && n == Succ(c, i)
    case PopWon(o) => t in poppers && o in me.held
    case Pushing(b) => ChainOk(s, me.held, b)
    case PushSeen(b, _) => ChainOk(s, me.held, b)
    case PushLinked(b, seen) => ChainOk(s, me.held, b) && s.next[b[|b| - 1]] == seen
  }

  predicate ChainOk(s: State, held: set<Obj>, b: seq<Obj>) {
    b != [] && Distinct(b) && LinkedInside(s.next, b) && forall o :: o in b ==> o in held
  }

  ghost predicate Inv(s: State, c: seq<Obj>, poppers: set<Tid>) {
    IsFreeList(s, c) && OnePlace(s, c) && forall t :: t in s.th ==> ThreadOk(s, c, t, poppers)
  }

  /** What a step does to the free list: a swap that succeeds pops or pushes, and nothing else changes it. */
  ghost predicate StackStep(s: State, a: Action, c: seq<Obj>, c': seq<Obj>)
    requires a.t in s.th
  {
    var pc := s.th[a.t].pc;
    match a
    case PopCas(_) => pc.PopReady? && if s.head == To(pc.o) then c != [] && c[0] == pc.o && c' == c[1..] else c' == c
    case PushCas(_) => pc.PushLinked? && c' == if s.head == pc.seen then pc.chain + c else c
    case _ => c' == c
  }

  ghost predicate AtMostOne(poppers: set<Tid>) {
    forall t, u :: t in poppers && u in poppers ==> t == u
  }

  /** A step of t that only touches objects t holds and at most prepends to the free list leaves u in order. */
  lemma OtherThread(s: State, s': State, c: seq<Obj>, pre: seq<Obj>, t: Tid, u: Tid, poppers: set<Tid>)
    requires Inv(s, c, poppers) && t in s.th && u in s.th && u in s'.th && u != t
    requires s'.th[u].pc == s.th[u].pc && s.th[u].held <= s'.th[u].held
    requires s.next.Keys <= s'.next.Keys
    requires forall o :: o in s.next && o !in s.th[t].held ==> s'.next[o] == s.next[o]
    ensures ThreadOk(s', pre + c, u, poppers)
  {
    assert ThreadOk(s, c, u, poppers);
    var me := s.th[u];
    match me.pc
    case Idle =>
    case Allocating =>
    case PopWon(o) =>
    case Popping(o) =>
      var i :| 0 <= i < |c| && c[i] == o;
      assert (pre + c)[|pre| + i] == o;
    case PopReady(o, n) =>
      var i :| 0 <= i < |c| && c[i] == o && n == Succ(c, i);
      assert (pre + c)[|pre| + i] == o && Succ(pre + c, |pre| + i) == n;
    case Pushing(b) => SameChain(s, s', t, u, b);
    case PushSeen(b, _) => SameChain(s, s', t, u, b);
    case PushLinked(b, seen) => SameChain(s, s', t, u, b);
  }

  lemma OtherThreads(s: State, s': State, c: seq<Obj>, pre: seq<Obj>, t: Tid, poppers: set<Tid>)
    requires Inv(s, c, poppers) && t in s.th && s'.th.Keys == s.th.Keys
    requires forall u :: u in s.th && u != t ==> s'.th[u].pc == s.th[u].pc && s.th[u].held <= s'.th[u].held
    requires s.next.Keys <= s'.next.Keys
    requires forall o :: o in s.next && o !in s.th[t].held ==> s'.next[o] == s.next[o]
    ensures forall u :: u in s'.th && u != t ==> ThreadOk(s', pre + c, u, poppers)
  {
    forall u | u in s'.th && u != t
      ensures ThreadOk(s', pre + c, u, poppers)
    {
      OtherThread(s, s', c, pre, t, u, poppers);
    }
  }

  lemma AllThreads(s: State, c: seq<Obj>, t: Tid, poppers: set<Tid>)
    requires IsFreeList(s, c) && OnePlace(s, c) && t in s.th && ThreadOk(s, c, t, poppers)
    requires forall u :: u in s.th && u != t ==> ThreadOk(s, c, u, poppers)
    ensures Inv(s, c, poppers)
  {
  }

  /** A step of t that moves no object and writes at most to objects t holds. */
  lemma QuietStep(s: State, s': State, c: seq<Obj>, t: Tid, poppers: set<Tid>)
    requires Inv(s, c, poppers) && t in s.th && s'.th.Keys == s.th.Keys && s'.head == s.head
    requires forall u :: u in s.th && u != t ==> s'.th[u] == s.th[u]
    requires s'.th[t].held == s.th[t].held && s'.next.Keys == s.next.Keys
    requires forall o :: o in s.next && o !in s.th[t].held ==> s'.next[o] == s.next[o]
    requires ThreadOk(s', c, t, poppers)
    ensures Inv(s', c, poppers)
  {
    SamePlaces(s, s', c);
    OthersStay(s, s', c, t, poppers);
    AllThreads(s', c, t, poppers);
  }

  lemma OthersStay(s: State, s': State, c: seq<Obj>, t: Tid, poppers: set<Tid>)
    requires Inv(s, c, poppers) && t in s.th && s'.th.Keys == s.th.Keys
    requires forall u :: u in s.th && u != t ==> s'.th[u] == s.th[u]
    requires s.next.Keys <= s'.next.Keys
    requires forall o :: o in s.next && o !in s.th[t].held ==> s'.next[o] == s.next[o]
    ensures forall u :: u in s'.th && u != t ==> ThreadOk(s', c, u, poppers)
  {
    OtherThreads(s, s', c, [], t, poppers);
    assert [] + c == c;
  }

  lemma SameChain(s: State, s': State, t: Tid, u: Tid, b: seq<Obj>)
    requires t in s.th && u in s.th && u in s'.th && u != t && ChainOk(s, s.th[u].held, b)
    requires forall o :: o in s.th[u].held ==> o !in s.th[t].held
    requires s.th[u].held <= s'.th[u].held && s.next.Keys <= s'.next.Keys
    requires forall o :: o in s.next && o !in s.th[t].held ==> s'.next[o] == s.next[o]
    ensures ChainOk(s', s'.th[u].held, b)
    ensures s'.next[b[|b| - 1]] == s.next[b[|b| - 1]]
  {
  }

  lemma StepPopRead(s: State, t: Tid, c: seq<Obj>, poppers: set<Tid>)
    requires Inv(s, c, poppers) && Enabled(s, PopRead(t), poppers)
    ensures Inv(Apply(s, PopRead(t), poppers), c, poppers)
  {
    QuietStep(s, Apply(s, PopRead(t), poppers), c, t, poppers);
  }

  lemma StepPopEmpty(s: State, t: Tid, c: seq<Obj>, poppers: set<Tid>)
    requires Inv(s, c, poppers) && Enabled(s, PopEmpty(t), poppers)
    ensures Inv(Apply(s, PopEmpty(t), poppers), c, poppers)
  {
    QuietStep(s, Apply(s, PopEmpty(t), poppers), c, t, poppers);
  }

  lemma StepPopFail(s: State, t: Tid, c: seq<Obj>, poppers: set<Tid>)
    requires Inv(s, c, poppers) && Enabled(s, PopFail(t), poppers)
    ensures Inv(Apply(s, PopFail(t), poppers), c, poppers)
  {
    QuietStep(s, Apply(s, PopFail(t), poppers), c, t, poppers);
  }

  /** The free list may have been filled since it was found empty. */
  lemma StepPopAlloc(s: State, t: Tid, o: Obj, c: seq<Obj>, poppers: set<Tid>)
    requires Inv(s, c, poppers) && Enabled(s, PopAlloc(t, o), poppers)
    ensures Inv(Apply(s, PopAlloc(t, o), poppers), c, poppers)
  {
    var s' := Apply(s, PopAlloc(t, o), poppers);
    assert ThreadOk(s, c, t, poppers);
    assert s' == s.(next := s.next[o := Null], th := s.th[t := Thread(s.th[t].held + {o}, PopWon(o))]);
    AllocDone(s, s', t, o, c, poppers);
  }

  lemma AllocDone(s: State, s': State, t: Tid, o: Obj, c: seq<Obj>, poppers: set<Tid>)
    requires Inv(s, c, poppers) && t in s.th && t in poppers && o !in s.next
    requires s' == s.(next := s.next[o := Null], th := s.th[t := Thread(s.th[t].held + {o}, PopWon(o))])
    ensures Inv(s', c, poppers)
  {
    OthersStay(s, s', c, t, poppers);
    OnePlaceAfterAlloc(s, s', t, o, c);
    AllThreads(s', c, t, poppers);
  }

  lemma OnePlaceAfterAlloc(s: State, s': State, t: Tid, o: Obj, c: seq<Obj>)
    requires IsFreeList(s, c) && OnePlace(s, c) && t in s.th && o !in s.next && s'.next == s.next[o := Null]
    requires s'.head == s.head && s'.th.Keys == s.th.Keys && s'.th[t].held == s.th[t].held + {o}
    requires forall u :: u in s.th && u != t ==> s'.th[u].held == s.th[u].held
    ensures IsFreeList(s', c) && OnePlace(s', c)
  {
    assert o !in c;
    forall x | x in s'.next && x !in c
      ensures Held(s', x)
    {
      if x == o {
        assert x in s'.th[t].held;
      } else {
        assert Held(s, x);
        var u :| u in s.th && x in s.th[u].held;
        assert x in s'.th[u].held;
      }
    }
  }

  lemma LoadedNext(s: State, c: seq<Obj>, o: Obj)
    requires IsFreeList(s, c) && o in c
    ensures o in s.next && exists i :: 0 <= i < |c| && c[i] == o && s.next[o] == Succ(c, i)
  {
  }

  lemma StepPopLoad(s: State, t: Tid, c: seq<Obj>, poppers: set<Tid>)
    requires Inv(s, c, poppers) && Enabled(s, PopLoad(t), poppers)
    ensures Inv(Apply(s, PopLoad(t), poppers), c, poppers)
  {
    assert ThreadOk(s, c, t, poppers);
    LoadedNext(s, c, s.th[t].pc.o);
    QuietStep(s, Apply(s, PopLoad(t), poppers), c, t, poppers);
  }

  /** The step where one popper matters: between its read and its swap nobody else shortened the list. */
  lemma StepPopCas(s: State, t: Tid, c: seq<Obj>, poppers: set<Tid>) returns (c': seq<Obj>)
    requires Inv(s, c, poppers) && Enabled(s, PopCas(t), poppers) && AtMostOne(poppers)
    ensures Inv(Apply(s, PopCas(t), poppers), c', poppers) && StackStep(s, PopCas(t), c, c')
  {
    var s', o := Apply(s, PopCas(t), poppers), s.th[t].pc.o;
    assert ThreadOk(s, c, t, poppers);
    if s.head == To(o) {
      c' := c[1..];
      PoppedList(s, s', t, o, c);
      OnePlaceAfterPop(s, s', t, o, c, c');
      forall u | u in s'.th && u != t
        ensures ThreadOk(s', c', u, poppers)
      {
        assert ThreadOk(s, c, u, poppers) && u !in poppers;
      }
      AllThreads(s', c', t, poppers);
    } else {
      c' := c;
      QuietStep(s, s', c, t, poppers);
    }
  }

  lemma PoppedList(s: State, s': State, t: Tid, o: Obj, c: seq<Obj>)
    requires IsFreeList(s, c) && s.head == To(o) && s'.next == s.next
    requires exists i :: 0 <= i < |c| && c[i] == o && s'.head == Succ(c, i)
    ensures c != [] && c[0] == o && IsFreeList(s', c[1..])
  {
  }

  lemma HeadOrTail(c: seq<Obj>)
    requires c != [] && Distinct(c)
    ensures c[0] !in c[1..] && forall x :: x in c <==> x == c[0] || x in c[1..]
  {
    assert c == [c[0]] + c[1..];
  }

  lemma OnePlaceAfterPop(s: State, s': State, t: Tid, o: Obj, c: seq<Obj>, c': seq<Obj>)
    requires IsFreeList(s, c) && OnePlace(s, c) && t in s.th && c != [] && o == c[0] && c' == c[1..]
    requires s'.next == s.next && s'.th.Keys == s.th.Keys && s'.th[t].held == s.th[t].held + {o}
    requires forall u :: u in s.th && u != t ==> s'.th[u].held == s.th[u].held
    ensures OnePlace(s', c')
  {
    HeadOrTail(c);
    OnePlaceAfterTake(s, s', t, o, c, c');
  }

  /** One object leaves the free list for a thread. */
  lemma OnePlaceAfterTake(s: State, s': State, t: Tid, o: Obj, c: seq<Obj>, c': seq<Obj>)
    requires OnePlace(s, c) && t in s.th && o in s.next && o !in c' && forall x :: x in c <==> x == o || x in c'
    requires s'.next == s.next && s'.th.Keys == s.th.Keys && s'.th[t].held == s.th[t].held + {o}
    requires forall u :: u in s.th && u != t ==> s'.th[u].held == s.th[u].held
    ensures OnePlace(s', c')
  {
    forall x | x in s'.next && x !in c'
      ensures Held(s', x)
    {
      if x == o {
        assert x in s'.th[t].held;
      } else {
        assert Held(s, x);
        var u :| u in s.th && x in s.th[u].held;
        assert x in s'.th[u].held;
      }
    }
  }

  lemma StepPopStore(s: State, t: Tid, c: seq<Obj>, poppers: set<Tid>)
    requires Inv(s, c, poppers) && Enabled(s, PopStore(t), poppers)
    ensures Inv(Apply(s, PopStore(t), poppers), c, poppers)
  {
    assert ThreadOk(s, c, t, poppers);
    QuietStep(s, Apply(s, PopStore(t), poppers), c, t, poppers);
  }

  /** Writes to links of objects off the free list, with everything staying where it is. */
  lemma SamePlaces(s: State, s': State, c: seq<Obj>)
    requires IsFreeList(s, c) && OnePlace(s, c)
    requires s'.next.Keys == s.next.Keys && s'.th.Keys == s.th.Keys && s'.head == s.head
    requires forall u :: u in s.th ==> s'.th[u].held == s.th[u].held
    requires forall o :: o in c ==> s'.next[o] == s.next[o]
    ensures IsFreeList(s', c) && OnePlace(s', c)
  {
  }

  lemma StepPushStart(s: State, t: Tid, b: seq<Obj>, c: seq<Obj>, poppers: set<Tid>)
    requires Inv(s, c, poppers) && Enabled(s, PushStart(t, b), poppers)
    ensures Inv(Apply(s, PushStart(t, b), poppers), c, poppers)
  {
    QuietStep(s, Apply(s, PushStart(t, b), poppers), c, t, poppers);
  }

  lemma StepPushRead(s: State, t: Tid, c: seq<Obj>, poppers: set<Tid>)
    requires Inv(s, c, poppers) && Enabled(s, PushRead(t), poppers)
    ensures Inv(Apply(s, PushRead(t), poppers), c, poppers)
  {
    assert ThreadOk(s, c, t, poppers);
    QuietStep(s, Apply(s, PushRead(t), poppers), c, t, poppers);
  }

  /** Linking the last object of a chain leaves the chain in order. */
  lemma LastRelinked(s: State, s': State, c: seq<Obj>, t: Tid, poppers: set<Tid>)
    requires t in s.th && s.th[t].pc.PushSeen? && t in s'.th
    requires ChainOk(s, s.th[t].held, s.th[t].pc.chain)
    requires s'.next == s.next[s.th[t].pc.chain[|s.th[t].pc.chain| - 1] := s.th[t].pc.seen]
    requires s'.th[t] == s.th[t].(pc := PushLinked(s.th[t].pc.chain, s.th[t].pc.seen))
    ensures ThreadOk(s', c, t, poppers)
  {
  }

  lemma StepPushLink(s: State, t: Tid, c: seq<Obj>, poppers: set<Tid>)
    requires Inv(s, c, poppers) && Enabled(s, PushLink(t), poppers)
    ensures Inv(Apply(s, PushLink(t), poppers), c, poppers)
  {
    assert ThreadOk(s, c, t, poppers);
    var s', b, seen := Apply(s, PushLink(t), poppers), s.th[t].pc.chain, s.th[t].pc.seen;
    assert s' == s.(next := s.next[b[|b| - 1] := seen], th := s.th[t := s.th[t].(pc := PushLinked(b, seen))]);
    LinkDone(s, s', t, b, seen, c, poppers);
  }

  lemma LinkDone(s: State, s': State, t: Tid, b: seq<Obj>, seen: Link, c: seq<Obj>, poppers: set<Tid>)
    requires Inv(s, c, poppers) && t in s.th && s.th[t].pc == PushSeen(b, seen) && ChainOk(s, s.th[t].held, b)
    requires s' == s.(next := s.next[b[|b| - 1] := seen], th := s.th[t := s.th[t].(pc := PushLinked(b, seen))])
    ensures Inv(s', c, poppers)
  {
    assert b[|b| - 1] in b;
    LastRelinked(s, s', c, t, poppers);
    QuietStep(s, s', c, t, poppers);
  }

  lemma StepPushCas(s: State, t: Tid, c: seq<Obj>, poppers: set<Tid>) returns (c': seq<Obj>)
    requires Inv(s, c, poppers) && Enabled(s, PushCas(t), poppers)
    ensures Inv(Apply(s, PushCas(t), poppers), c', poppers) && StackStep(s, PushCas(t), c, c')
  {
    var s', b := Apply(s, PushCas(t), poppers), s.th[t].pc.chain;
    assert ThreadOk(s, c, t, poppers);
    if s.head == s.th[t].pc.seen {
      c' := b + c;
      PushDone(s, s', t, b, c, poppers);
    } else {
      c' := c;
      PushAgain(s, s', t, c, poppers);
    }
  }

  /** A swap that fails sends the thread back to reading the head. */
  lemma PushAgain(s: State, s': State, t: Tid, c: seq<Obj>, poppers: set<Tid>)
    requires Inv(s, c, poppers) && Enabled(s, PushCas(t), poppers) && s.head != s.th[t].pc.seen
    requires s' == Apply(s, PushCas(t), poppers)
    ensures Inv(s', c, poppers)
  {
    assert ThreadOk(s, c, t, poppers);
    QuietStep(s, s', c, t, poppers);
  }

  /** The swap succeeds: the chain is now the front of the free list. */
  lemma PushDone(s: State, s': State, t: Tid, b: seq<Obj>, c: seq<Obj>, poppers: set<Tid>)
    requires Inv(s, c, poppers) && t in s.th && ChainOk(s, s.th[t].held, b) && s.next[b[|b| - 1]] == s.head
    requires s' == s.(head := To(b[0]), th := s.th[t := Thread(s.th[t].held - Members(b), Idle)])
    ensures Inv(s', b + c, poppers)
  {
    PushedList(s, s', t, b, c);
    OnePlaceAfterPush(s, s', t, b, c);
    OtherThreads(s, s', c, b, t, poppers);
    AllThreads(s', b + c, t, poppers);
  }

  lemma DistinctAppend(b: seq<Obj>, c: seq<Obj>)
    requires Distinct(b) && Distinct(c) && forall o :: o in b ==> o !in c
    ensures Distinct(b + c)
  {
    forall i, j | 0 <= i < j < |b + c|
      ensures (b + c)[i] != (b + c)[j]
    {
      if i < |b| <= j {
        assert b[i] in b && c[j - |b|] in c;
      }
    }
  }

  lemma PushedList(s: State, s': State, t: Tid, b: seq<Obj>, c: seq<Obj>)
    requires IsFreeList(s, c) && t in s.th && ChainOk(s, s.th[t].held, b)
    requires forall o :: o in s.th[t].held ==> o !in c
    requires s.next[b[|b| - 1]] == s.head && s'.head == To(b[0]) && s'.next == s.next
    ensures IsFreeList(s', b + c)
  {
    var c' := b + c;
    DistinctAppend(b, c);
    forall i | 0 <= i < |c'|
      ensures c'[i] in s.next && s.next[c'[i]] == Succ(c', i)
    {
      if i < |b| {
        assert c'[i] == b[i] && b[i] in b;
      } else {
        assert c'[i] == c[i - |b|] && s.next[c[i - |b|]] == Succ(c, i - |b|);
      }
    }
  }

  lemma OnePlaceAfterPush(s: State, s': State, t: Tid, b: seq<Obj>, c: seq<Obj>)
    requires OnePlace(s, c) && t in s.th && forall o :: o in b ==> o in s.th[t].held
    requires s'.next == s.next && s'.th.Keys == s.th.Keys
    requires s'.th[t].held == s.th[t].held - Members(b)
    requires forall u :: u in s.th && u != t ==> s'.th[u].held == s.th[u].held
    ensures OnePlace(s', b + c)
  {
  }

  lemma StepHand(s: State, t: Tid, to: Tid, o: Obj, c: seq<Obj>, poppers: set<Tid>)
    requires Inv(s, c, poppers) && Enabled(s, Hand(t, to, o), poppers)
    ensures Inv(Apply(s, Hand(t, to, o), poppers), c, poppers)
  {
    var s', me, other := Apply(s, Hand(t, to, o), poppers), s.th[t], s.th[to];
    assert s' == s.(th := s.th[t := me.(held := me.held - {o})][to := other.(held := other.held + {o})]);
    HandDone(s, s', t, to, o, c, poppers);
  }

  lemma HandDone(s: State, s': State, t: Tid, to: Tid, o: Obj, c: seq<Obj>, poppers: set<Tid>)
    requires Inv(s, c, poppers) && t in s.th && to in s.th && t != to && s.th[t].pc.Idle? && o in s.th[t].held
    requires s' == s.(th := s.th[t := s.th[t].(held := s.th[t].held - {o})]
                                [to := s.th[to].(held := s.th[to].held + {o})])
    ensures Inv(s', c, poppers)
  {
    OnePlaceAfterHand(s, s', t, to, o, c);
    OtherThreads(s, s', c, [], t, poppers);
    assert [] + c == c;
    AllThreads(s', c, t, poppers);
  }

  lemma OnePlaceAfterHand(s: State, s': State, t: Tid, to: Tid, o: Obj, c: seq<Obj>)
    requires OnePlace(s, c) && t in s.th && to in s.th && t != to && o in s.th[t].held
    requires s'.next == s.next && s'.th.Keys == s.th.Keys
    requires s'.th[t].held == s.th[t].held - {o} && s'.th[to].held == s.th[to].held + {o}
    requires forall u :: u in s.th && u != t && u != to ==> s'.th[u].held == s.th[u].held
    ensures OnePlace(s', c)
  {
  }

  /** Every step keeps the invariant if at most one thread pops, and does to the list what it does to a stack. */
  lemma StepKeepsInv(s: State, a: Action, c: seq<Obj>, poppers: set<Tid>) returns (c': seq<Obj>)
    requires Inv(s, c, poppers) && Enabled(s, a, poppers) && AtMostOne(poppers)
    ensures Inv(Apply(s, a, poppers), c', poppers) && StackStep(s, a, c, c')
  {
    c' := c;
    match a
    case PopRead(t) => StepPopRead(s, t, c, poppers);
    case PopEmpty(t) => StepPopEmpty(s, t, c, poppers);
    case PopAlloc(t, o) => StepPopAlloc(s, t, o, c, poppers);
    case PopFail(t) => StepPopFail(s, t, c, poppers);
    case PopLoad(t) => StepPopLoad(s, t, c, poppers);
    case PopCas(t) => c' := StepPopCas(s, t, c, poppers);
    case PopStore(t) => StepPopStore(s, t, c, poppers);
    case PushStart(t, b) => StepPushStart(s, t, b, c, poppers);
    case PushRead(t) => StepPushRead(s, t, c, poppers);
    case PushLink(t) => StepPushLink(s, t, c, poppers);
    case PushCas(t) => c' := StepPushCas(s, t, c, poppers);
    case Hand(t, u, o) => StepHand(s, t, u, o, c, poppers);
  }

  // ----- runs -----

  /** Whether the actions can be taken one after the other from s. */
  predicate CanRun(s: State, run: seq<Action>, poppers: set<Tid>)
    decreases |run|
  {
    run == [] || (Enabled(s, run[0], poppers) && CanRun(Apply(s, run[0], poppers), run[1..], poppers))
  }

  function After(s: State, run: seq<Action>, poppers: set<Tid>): State
    requires CanRun(s, run, poppers)
    decreases |run|
  {
    if run == [] then s else After(Apply(s, run[0], poppers), run[1..], poppers)
  }

  lemma {:induction false} RunKeepsInv(s: State, run: seq<Action>, c: seq<Obj>, poppers: set<Tid>)
    requires Inv(s, c, poppers) && CanRun(s, run, poppers) && AtMostOne(poppers)
    ensures Safe(After(s, run, poppers))
    decreases |run|
  {
    if run != [] {
      var c' := StepKeepsInv(s, run[0], c, poppers);
      RunKeepsInv(Apply(s, run[0], poppers), run[1..], c', poppers);
    }
  }

  ghost predicate Reaches(s: State, s': State, poppers: set<Tid>) {
    exists run :: CanRun(s, run, poppers) && After(s, run, poppers) == s'
  }

  /** One popper and any number of pushers: every state of every run is safe. */
  lemma OnePopperIsSafe(s: State, s': State, poppers: set<Tid>)
    requires Init(s) && Reaches(s, s', poppers) && AtMostOne(poppers)
    ensures Safe(s')
  {
    var c :| IsFreeList(s, c) && OnePlace(s, c);
    var run :| CanRun(s, run, poppers) && After(s, run, poppers) == s';
    RunKeepsInv(s, run, c, poppers);
  }

  lemma {:induction false} RunAppend(s: State, run: seq<Action>, a: Action, poppers: set<Tid>)
    requires CanRun(s, run, poppers) && Enabled(After(s, run, poppers), a, poppers)
    ensures CanRun(s, run + [a], poppers)
    ensures After(s, run + [a], poppers) == Apply(After(s, run, poppers), a, poppers)
    decreases |run|
  {
    if run == [] {
      assert run + [a] == [a] && [a][1..] == [];
      assert CanRun(Apply(s, a, poppers), [a][1..], poppers);
    } else {
      assert (run + [a])[1..] == run[1..] + [a];
      RunAppend(Apply(s, run[0], poppers), run[1..], a, poppers);
    }
  }

  lemma Then(s: State, s': State, a: Action, poppers: set<Tid>)
    requires Reaches(s, s', poppers) && Enabled(s', a, poppers)
    ensures Reaches(s, Apply(s', a, poppers), poppers)
  {
    var run :| CanRun(s, run, poppers) && After(s, run, poppers) == s';
    RunAppend(s, run, a, poppers);
  }

  // ----- two poppers -----

  /** The read of the head and of its link in New. */
  lemma Look(s: State, x: State, t: Tid, poppers: set<Tid>)
    requires Reaches(s, x, poppers) && t in x.th && t in poppers && x.th[t].pc.Idle?
    requires x.head.To? && x.head.obj in x.next
    ensures Reaches(s, x.(th := x.th[t := x.th[t].(pc := PopReady(x.head.obj, x.next[x.head.obj]))]), poppers)
  {
    var y := Apply(x, PopRead(t), poppers);
    Then(s, x, PopRead(t), poppers);
    Then(s, y, PopLoad(t), poppers);
    assert Apply(y, PopLoad(t), poppers).th == x.th[t := x.th[t].(pc := PopReady(x.head.obj, x.next[x.head.obj]))];
  }

  /** What an undisturbed call of New does. */
  function Popped(x: State, t: Tid): State
    requires t in x.th && x.head.To? && x.head.obj in x.next
  {
    var o := x.head.obj;
    State(x.next[o], x.next[o := Null], x.th[t := Thread(x.th[t].held + {o}, Idle)])
  }

  lemma PopAlone(s: State, x: State, t: Tid, poppers: set<Tid>)
    requires Reaches(s, x, poppers) && t in x.th && t in poppers && x.th[t].pc.Idle?
    requires x.head.To? && x.head.obj in x.next
    ensures Reaches(s, Popped(x, t), poppers)
  {
    Look(s, x, t, poppers);
    var y := x.(th := x.th[t := x.th[t].(pc := PopReady(x.head.obj, x.next[x.head.obj]))]);
    var z := Apply(y, PopCas(t), poppers);
    Then(s, y, PopCas(t), poppers);
    Then(s, z, PopStore(t), poppers);
    assert Apply(z, PopStore(t), poppers).th == Popped(x, t).th;
  }

  /** What an undisturbed call of Delete does. */
  function Pushed(x: State, t: Tid, o: Obj): State
    requires t in x.th
  {
    State(To(o), x.next[o := x.head], x.th[t := Thread(x.th[t].held - {o}, Idle)])
  }

  lemma PushAlone(s: State, x: State, t: Tid, o: Obj, poppers: set<Tid>)
    requires Reaches(s, x, poppers) && t in x.th && x.th[t].pc.Idle? && o in x.th[t].held && o in x.next
    ensures Reaches(s, Pushed(x, t, o), poppers)
  {
    var y := Apply(x, PushStart(t, [o]), poppers);
    Then(s, x, PushStart(t, [o]), poppers);
    var z := Apply(y, PushRead(t), poppers);
    Then(s, y, PushRead(t), poppers);
    y := Apply(z, PushLink(t), poppers);
    Then(s, z, PushLink(t), poppers);
    Then(s, y, PushCas(t), poppers);
    assert Members([o]) == {o};
    assert Apply(y, PushCas(t), poppers).th == Pushed(x, t, o).th;
  }

  /** Two free objects, 0 before 1, and all threads idle. */
  function Rest(ts: set<Tid>): State {
    State(To(0), map[0 := To(1), 1 := Null], map t | t in ts :: Thread({}, Idle))
  }

  lemma RestIsInit(ts: set<Tid>)
    ensures Init(Rest(ts)) && Rest(ts).th.Keys == ts
  {
    assert IsFreeList(Rest(ts), [0, 1]);
    assert OnePlace(Rest(ts), [0, 1]);
  }

  /**
   p reads the head 0 and its successor 1; q takes both objects and gives 0 back; p's swap then finds the
   head it expects and installs 1 as the free list, although q holds it.
   */
  lemma ReuseDefeatsSwap(ts: set<Tid>, p: Tid, q: Tid, poppers: set<Tid>) returns (s: State, s': State)
    requires p in ts && q in ts && p in poppers && q in poppers && p != q
    ensures s.th.Keys == ts && Init(s) && Reaches(s, s', poppers) && !Safe(s')
  {
    s := Rest(ts);
    RestIsInit(ts);
    assert CanRun(s, [], poppers) && After(s, [], poppers) == s;
    Look(s, s, p, poppers);
    var looked := s.(th := s.th[p := Thread({}, PopReady(0, To(1)))]);
    PopAlone(s, looked, q, poppers);
    var one := Popped(looked, q);
    PopAlone(s, one, q, poppers);
    var both := Popped(one, q);
    PushAlone(s, both, q, 0, poppers);
    var back := Pushed(both, q, 0);
    s' := Apply(back, PopCas(p), poppers);
    Then(s, back, PopCas(p), poppers);
    HeldHeadIsUnsafe(s', q, 1);
  }

  lemma HeldHeadIsUnsafe(s: State, q: Tid, o: Obj)
    requires s.head == To(o) && q in s.th && o in s.th[q].held
    ensures !Safe(s)
  {
  }

  /** The pool is safe in all runs from rest exactly when at most one thread may pop. */
  lemma SafeIffOnePopper(ts: set<Tid>, poppers: set<Tid>)
    requires poppers <= ts
    ensures AtMostOne(poppers) <==>
            forall s: State, s': State :: s.th.Keys == ts && Init(s) && Reaches(s, s', poppers) ==> Safe(s')
  {
    if AtMostOne(poppers) {
      forall s: State, s': State | s.th.Keys == ts && Init(s) && Reaches(s, s', poppers)
        ensures Safe(s')
      {
        OnePopperIsSafe(s, s', poppers);
      }
    } else {
      var p, q :| p in poppers && q in poppers && p != q;
      var s, s' := ReuseDefeatsSwap(ts, p, q, poppers);
    }
  }
}
