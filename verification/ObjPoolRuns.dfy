/**
 Whole runs of the object pool: any sequence of operations on any number of lists that share one pool
 does to the linked nodes what the same operations do to plain sequences, and no object is ever lost
 or in two places.
 */
module ObjPoolRuns {
  import opened Basics
  import opened ObjPool

  // ----- the operations on plain sequences -----

  /** Objects are named by the order of their allocation; out are those in callers' hands. */
  datatype Model = Model(made: nat, free: seq<nat>, lists: seq<seq<nat>>, out: seq<nat>)

  datatype Op =
    | Hand(allocates: bool)                        // New()
    | Give(j: nat)                                 // Delete(obj) of the j-th object in callers' hands
    | Last(k: nat, allocates: bool)                // New(first)
    | Front(k: nat, allocates: bool)               // NewFront(first)
    | Drop(k: nat, i: nat)                         // Delete(first, obj)
    | Loose(k: nat, i: nat)                        // Detach(first, obj)
    | DropAll(k: nat)                              // DeleteAll(first)

  predicate Allowed(m: Model, op: Op) {
    match op
    case Hand(_) => true
    case Give(j) => j < |m.out|
    case Last(k, _) => k < |m.lists|
    case Front(k, _) => k < |m.lists|
    case Drop(k, i) => k < |m.lists| && i < |m.lists[k]|
    case Loose(k, i) => k < |m.lists| && i < |m.lists[k]|
    case DropAll(k) => k < |m.lists| && m.lists[k] != []
  }

  /** Popping the free list or allocating; None when neither is possible. */
  predicate CanTake(m: Model, allocates: bool) {
    m.free != [] || allocates
  }

  function Taken(m: Model): nat {
    if m.free != [] then m.free[0] else m.made
  }

  function AfterTake(m: Model): Model {
    if m.free != [] then m.(free := m.free[1..]) else m.(made := m.made + 1)
  }

  function Step(m: Model, op: Op): Model
    requires Allowed(m, op)
  {
    match op
    case Hand(a) => if CanTake(m, a) then AfterTake(m).(out := m.out + [Taken(m)]) else m
    case Give(j) => m.(out := Without(m.out, j), free := [m.out[j]] + m.free)
    case Last(k, a) =>
      if CanTake(m, a) then AfterTake(m).(lists := m.lists[k := m.lists[k] + [Taken(m)]]) else m
    case Front(k, a) =>
      if CanTake(m, a) then AfterTake(m).(lists := m.lists[k := [Taken(m)] + m.lists[k]]) else m
    case Drop(k, i) => m.(lists := m.lists[k := Without(m.lists[k], i)], free := [m.lists[k][i]] + m.free)
    case Loose(k, i) => m.(lists := m.lists[k := Without(m.lists[k], i)], out := m.out + [m.lists[k][i]])
    case DropAll(k) => m.(lists := m.lists[k := []], free := m.lists[k] + m.free)
  }

  // ----- nothing is lost, nothing is in two places -----

  ghost function Times(s: seq<nat>, x: nat): nat {
    multiset(s)[x]
  }

  ghost function TimesIn(lists: seq<seq<nat>>, x: nat): nat {
    if lists == [] then 0 else Times(lists[0], x) + TimesIn(lists[1..], x)
  }

  /** The number of places object x is in. */
  ghost function Places(m: Model, x: nat): nat {
    Times(m.free, x) + TimesIn(m.lists, x) + Times(m.out, x)
  }

  /** Exactly the objects allocated so far are somewhere, each in one place only. */
  ghost predicate OnePlaceEach(m: Model) {
    forall x: nat :: Places(m, x) == if x < m.made then 1 else 0
  }

  lemma {:induction false} TimesAfterUpdate(lists: seq<seq<nat>>, k: nat, s: seq<nat>, x: nat)
    requires k < |lists|
    ensures TimesIn(lists[k := s], x) + Times(lists[k], x) == TimesIn(lists, x) + Times(s, x)
  {
    if k > 0 {
      assert lists[k := s][1..] == lists[1..][k - 1 := s];
      TimesAfterUpdate(lists[1..], k - 1, s, x);
    } else {
      assert lists[k := s][1..] == lists[1..];
    }
  }

  lemma TimesWithout(s: seq<nat>, i: nat, x: nat)
    requires i < |s|
    ensures Times(Without(s, i), x) + (if s[i] == x then 1 else 0) == Times(s, x)
  {
    assert s == s[..i] + ([s[i]] + s[i + 1..]);
  }

  lemma TimesSum(a: seq<nat>, b: seq<nat>, x: nat)
    ensures Times(a + b, x) == Times(a, x) + Times(b, x)
  {
  }

  lemma TimesOne(o: nat, x: nat)
    ensures Times([o], x) == if o == x then 1 else 0
  {
  }

  lemma TakeCounts(m: Model, x: nat)
    ensures Places(AfterTake(m), x) + (if m.free != [] && Taken(m) == x then 1 else 0) == Places(m, x)
  {
    if m.free != [] {
      TimesSum([m.free[0]], m.free[1..], x);
      TimesOne(m.free[0], x);
      assert m.free == [m.free[0]] + m.free[1..];
    }
  }

  /** How many places of x a step adds: only an allocation adds one, for the new object. */
  ghost predicate Adds(m: Model, op: Op, x: nat)
    requires Allowed(m, op)
  {
    Places(Step(m, op), x) == Places(m, x) + if m.made <= x < Step(m, op).made then 1 else 0
  }

  lemma HandCounts(m: Model, allocates: bool, x: nat)
    ensures Adds(m, Hand(allocates), x)
  {
    TakeCounts(m, x);
    TimesOne(Taken(m), x);
    TimesSum(m.out, [Taken(m)], x);
  }

  lemma ListCounts(m: Model, k: nat, front: bool, allocates: bool, x: nat)
    requires k < |m.lists|
    ensures Adds(m, if front then Front(k, allocates) else Last(k, allocates), x)
  {
    TakeCounts(m, x);
    TimesOne(Taken(m), x);
    TimesAfterUpdate(m.lists, k, if front then [Taken(m)] + m.lists[k] else m.lists[k] + [Taken(m)], x);
    TimesSum(m.lists[k], [Taken(m)], x);
    TimesSum([Taken(m)], m.lists[k], x);
  }

  lemma DropCounts(m: Model, k: nat, i: nat, x: nat)
    requires k < |m.lists| && i < |m.lists[k]|
    ensures Adds(m, Drop(k, i), x) && Adds(m, Loose(k, i), x)
  {
    TimesWithout(m.lists[k], i, x);
    TimesAfterUpdate(m.lists, k, Without(m.lists[k], i), x);
    TimesSum([m.lists[k][i]], m.free, x);
    TimesSum(m.out, [m.lists[k][i]], x);
    TimesOne(m.lists[k][i], x);
  }

  lemma StepCounts(m: Model, op: Op, x: nat)
    requires Allowed(m, op)
    ensures Adds(m, op, x)
  {
    match op
    case Hand(a) => HandCounts(m, a, x);
    case Give(j) =>
      TimesWithout(m.out, j, x);
      TimesSum([m.out[j]], m.free, x);
      TimesOne(m.out[j], x);
    case Last(k, a) => ListCounts(m, k, false, a, x);
    case Front(k, a) => ListCounts(m, k, true, a, x);
    case Drop(k, i) => DropCounts(m, k, i, x);
    case Loose(k, i) => DropCounts(m, k, i, x);
    case DropAll(k) =>
      TimesAfterUpdate(m.lists, k, [], x);
      TimesSum(m.lists[k], m.free, x);
  }

  ghost predicate AllAllowed(m: Model, ops: seq<Op>)
    decreases |ops|
  {
    ops == [] || (Allowed(m, ops[0]) && AllAllowed(Step(m, ops[0]), ops[1..]))
  }

  ghost function Run(m: Model, ops: seq<Op>): Model
    requires AllAllowed(m, ops)
    decreases |ops|
  {
    if ops == [] then m else Run(Step(m, ops[0]), ops[1..])
  }

  /** Over every run, each of the objects allocated so far is in exactly one place. */
  lemma {:induction false} RunConserves(m: Model, ops: seq<Op>)
    requires AllAllowed(m, ops) && OnePlaceEach(m)
    ensures OnePlaceEach(Run(m, ops))
    decreases |ops|
  {
    if ops != [] {
      var m' := Step(m, ops[0]);
      forall x: nat
        ensures Places(m', x) == if x < m'.made then 1 else 0
      {
        StepCounts(m, ops[0], x);
        assert Places(m, x) == if x < m.made then 1 else 0;
      }
      RunConserves(m', ops[1..]);
    }
  }

  // ----- the linked nodes do the same -----

  ghost function Ids(s: seq<Node>): (r: seq<nat>)
    ensures |r| == |s| && forall i :: 0 <= i < |s| ==> r[i] == s[i].id
  {
    seq(|s|, i requires 0 <= i < |s| => s[i].id)
  }

  /** The nodes of a pool: its free list, the callers' lists, and the objects in callers' hands. */
  datatype View = View(made: nat, free: seq<Node>, lists: seq<seq<Node>>, out: seq<Node>)

  /** The sequences the nodes stand for. */
  ghost function ModelOf(v: View): (m: Model)
    ensures m.made == v.made && m.free == Ids(v.free) && m.out == Ids(v.out)
    ensures |m.lists| == |v.lists| && forall k :: 0 <= k < |v.lists| ==> m.lists[k] == Ids(v.lists[k])
  {
    Model(v.made, Ids(v.free), seq(|v.lists|, k requires 0 <= k < |v.lists| => Ids(v.lists[k])), Ids(v.out))
  }

  /** All nodes of v are in the set. */
  ghost predicate InNodes(v: View, nodes: set<Node>) {
    && (forall n :: n in v.free ==> n in nodes) && (forall n :: n in v.out ==> n in nodes)
    && forall k, n :: 0 <= k < |v.lists| && n in v.lists[k] ==> n in nodes
  }

  /** o comes from the top of the free list, or is new, or could not be had. */
  ghost predicate Took(a: View, b: View, o: Node?, allocates: bool) {
    if a.free != [] then o == a.free[0] && b.free == a.free[1..] && b.made == a.made
    else
      && b.free == [] && (o != null <==> allocates) && b.made == a.made + (if allocates then 1 else 0)
      && (o != null ==> o.id == a.made)
  }

  lemma TookIds(a: View, b: View, o: Node?, allocates: bool)
    requires Took(a, b, o, allocates)
    ensures o != null <==> CanTake(ModelOf(a), allocates)
    ensures o != null ==>
              o.id == Taken(ModelOf(a)) && ModelOf(b).made == AfterTake(ModelOf(a)).made &&
              ModelOf(b).free == AfterTake(ModelOf(a)).free
    ensures o == null ==> b.free == a.free && b.made == a.made
  {
    if a.free != [] {
      assert Ids(a.free[1..]) == Ids(a.free)[1..];
    }
  }

  lemma ModelOfChanged(v: View, k: nat, s: seq<Node>)
    requires k < |v.lists|
    ensures ModelOf(v.(lists := v.lists[k := s])).lists == ModelOf(v).lists[k := Ids(s)]
  {
  }

  lemma HandShows(a: View, b: View, o: Node?, allocates: bool)
    requires Took(a, b, o, allocates) && b.lists == a.lists && b.out == a.out + if o == null then [] else [o]
    ensures ModelOf(b) == Step(ModelOf(a), Hand(allocates))
  {
    TookIds(a, b, o, allocates);
    assert ModelOf(b).lists == ModelOf(a).lists;
    assert o != null ==> Ids(b.out) == Ids(a.out) + [o.id];
  }

  lemma GiveShows(a: View, b: View, j: nat)
    requires j < |a.out| && b == a.(out := Without(a.out, j), free := [a.out[j]] + a.free)
    ensures ModelOf(b) == Step(ModelOf(a), Give(j))
  {
    assert Ids(b.out) == Without(Ids(a.out), j) && Ids(b.free) == [a.out[j].id] + Ids(a.free);
    assert ModelOf(b).lists == ModelOf(a).lists;
  }

  lemma LastShows(a: View, b: View, k: nat, o: Node?, allocates: bool)
    requires Took(a, b, o, allocates) && k < |a.lists| && b.out == a.out
    requires b.lists == if o == null then a.lists else a.lists[k := a.lists[k] + [o]]
    ensures ModelOf(b) == Step(ModelOf(a), Last(k, allocates))
  {
    TookIds(a, b, o, allocates);
    if o != null {
      ModelOfChanged(a, k, a.lists[k] + [o]);
      assert Ids(a.lists[k] + [o]) == Ids(a.lists[k]) + [o.id];
    }
    assert ModelOf(b).lists == if o == null then ModelOf(a).lists else ModelOf(a).lists[k := Ids(b.lists[k])];
  }

  lemma FrontShows(a: View, b: View, k: nat, o: Node?, allocates: bool)
    requires Took(a, b, o, allocates) && k < |a.lists| && b.out == a.out
    requires b.lists == if o == null then a.lists else a.lists[k := [o] + a.lists[k]]
    ensures ModelOf(b) == Step(ModelOf(a), Front(k, allocates))
  {
    TookIds(a, b, o, allocates);
    if o != null {
      ModelOfChanged(a, k, [o] + a.lists[k]);
      assert Ids([o] + a.lists[k]) == [o.id] + Ids(a.lists[k]);
    }
    assert ModelOf(b).lists == if o == null then ModelOf(a).lists else ModelOf(a).lists[k := Ids(b.lists[k])];
  }

  lemma DropShows(a: View, b: View, k: nat, i: nat)
    requires k < |a.lists| && i < |a.lists[k]|
    requires b == a.(lists := a.lists[k := Without(a.lists[k], i)], free := [a.lists[k][i]] + a.free)
    ensures ModelOf(b) == Step(ModelOf(a), Drop(k, i))
  {
    ModelOfChanged(a, k, Without(a.lists[k], i));
    assert Ids(Without(a.lists[k], i)) == Without(Ids(a.lists[k]), i);
    assert Ids(b.free) == [a.lists[k][i].id] + Ids(a.free);
    assert ModelOf(b).lists == ModelOf(a).lists[k := Ids(b.lists[k])];
  }

  lemma LooseShows(a: View, b: View, k: nat, i: nat)
    requires k < |a.lists| && i < |a.lists[k]|
    requires b == a.(lists := a.lists[k := Without(a.lists[k], i)], out := a.out + [a.lists[k][i]])
    ensures ModelOf(b) == Step(ModelOf(a), Loose(k, i))
  {
    ModelOfChanged(a, k, Without(a.lists[k], i));
    assert Ids(Without(a.lists[k], i)) == Without(Ids(a.lists[k]), i);
    assert Ids(b.out) == Ids(a.out) + [a.lists[k][i].id];
    assert ModelOf(b).lists == ModelOf(a).lists[k := Ids(b.lists[k])];
  }

  lemma DropAllShows(a: View, b: View, k: nat)
    requires k < |a.lists| && a.lists[k] != [] && b == a.(lists := a.lists[k := []], free := a.lists[k] + a.free)
    ensures ModelOf(b) == Step(ModelOf(a), DropAll(k))
  {
    ModelOfChanged(a, k, []);
    assert Ids(b.free) == Ids(a.lists[k]) + Ids(a.free) && Ids([]) == [];
    assert ModelOf(b).lists == ModelOf(a).lists[k := Ids(b.lists[k])];
  }

  lemma TookCovered(a: View, b: View, o: Node?, allocates: bool, k: nat, nodes: set<Node>)
    requires InNodes(a, nodes) && Took(a, b, o, allocates) && b.out == a.out && k < |a.lists| == |b.lists|
    requires b.lists == if o == null then a.lists else a.lists[k := b.lists[k]]
    requires o != null ==> b.lists[k] == a.lists[k] + [o] || b.lists[k] == [o] + a.lists[k]
    ensures InNodes(b, nodes + if o == null then {} else {o})
  {
  }

  lemma OnlyList(was: seq<seq<Node>>, now: seq<seq<Node>>, k: nat, l: seq<Node>)
    requires k < |was| == |now| && now[k] == l && forall j :: 0 <= j < |was| && j != k ==> now[j] == was[j]
    ensures now == was[k := l] && (l == was[k] ==> now == was)
  {
  }

  /** Any number of callers' lists on one pool, and the objects in callers' hands. */
  class Session {
    const pool: ObjPool
    const heads: seq<Head>
    var out: seq<Node>
    ghost var nodes: set<Node>  // at least all nodes in use

    ghost predicate Valid()
      reads *
    {
      && pool.Valid() && (forall h :: h in heads ==> h in pool.heads)
      && (forall i, j :: 0 <= i < j < |heads| ==> heads[i] != heads[j])
      && Injective(out) && forall j :: 0 <= j < |out| ==> pool.Outside(out[j])
    }

    ghost function Seen(): (v: View)
      reads this, pool, heads
      ensures v.made == pool.made && v.free == pool.free && v.out == out
      ensures |v.lists| == |heads| && forall k :: 0 <= k < |heads| ==> v.lists[k] == heads[k].nodes
    {
      View(pool.made, pool.free, seq(|heads|, k requires 0 <= k < |heads| reads heads => heads[k].nodes), out)
    }

    ghost predicate Covered()
      reads this, pool, heads
    {
      InNodes(Seen(), nodes)
    }

    /** The nodes stand for the sequences of m. */
    ghost predicate Shows(m: Model)
      reads this, pool, heads
    {
      m == ModelOf(Seen())
    }

    constructor (p: ObjPool, hs: seq<Head>)
      requires p.Valid() && forall h :: h in hs ==> h in p.heads
      requires forall i, j :: 0 <= i < j < |hs| ==> hs[i] != hs[j]
      requires p.free == [] && forall h :: h in hs ==> h.nodes == []
      ensures Valid() && Covered() && pool == p && heads == hs && out == [] && nodes == {}
    {
      pool, heads, out, nodes := p, hs, [], {};
    }

    /** Each operation on the nodes shows what the same operation does to the sequences. */
    method Do(op: Op, ghost m: Model)
      requires Valid() && Covered() && Shows(m) && Allowed(m, op)
      modifies this, pool, heads, nodes
      ensures Valid() && Covered() && Shows(Step(m, op)) && fresh(nodes - old(nodes))
    {
      ghost var a := Seen();
      match op {
        case Hand(allocates) =>
          var o := TakeInHand(allocates);
          HandShows(a, Seen(), o, allocates);
        case Give(j) =>
          GiveBack(j);
          GiveShows(a, Seen(), j);
        case Last(k, allocates) =>
          var o := TakeLast(k, allocates);
          LastShows(a, Seen(), k, o, allocates);
        case Front(k, allocates) =>
          var o := TakeFront(k, allocates);
          FrontShows(a, Seen(), k, o, allocates);
        case Drop(k, i) =>
          DropNode(k, i);
          DropShows(a, Seen(), k, i);
        case Loose(k, i) =>
          LetLoose(k, i);
          LooseShows(a, Seen(), k, i);
        case DropAll(k) =>
          DropList(k);
          DropAllShows(a, Seen(), k);
      }
    }

    method TakeInHand(allocates: bool) returns (o: Node?)
      requires Valid() && Covered()
      modifies this, pool, nodes
      ensures Valid() && Covered() && fresh(nodes - old(nodes)) && Took(old(Seen()), Seen(), o, allocates)
      ensures Seen().lists == old(Seen()).lists && Seen().out == old(Seen()).out + if o == null then [] else [o]
    {
      o := TakeOne(allocates);
      if o != null {
        Keep(o);
        nodes := nodes + {o};
      }
    }

    method TakeOne(allocates: bool) returns (o: Node?)
      requires Valid() && Covered()
      modifies pool, nodes
      ensures Valid() && Took(old(Seen()), Seen(), o, allocates)
      ensures Seen().lists == old(Seen()).lists && Seen().out == old(Seen()).out
      ensures o != null ==> (o in nodes || fresh(o)) && pool.Outside(o) && forall j :: 0 <= j < |out| ==> out[j] != o
    {
      forall j | 0 <= j < |out|
        ensures out[j] !in pool.free
      {
        assert pool.Outside(out[j]);
      }
      o := pool.New(allocates);
      assert Seen().lists == old(Seen()).lists;
    }

    method GiveBack(j: nat)
      requires Valid() && Covered() && j < |out|
      modifies this, pool, nodes
      ensures Valid() && Covered() && nodes == old(nodes)
      ensures Seen() == old(Seen()).(out := Without(old(out), j), free := [old(out)[j]] + old(Seen()).free)
    {
      var o := out[j];
      assert o in nodes;
      pool.Delete(o);
      out := out[..j] + out[j + 1..];
      assert Seen().lists == old(Seen()).lists;
    }

    method TakeLast(k: nat, allocates: bool) returns (o: Node?)
      requires Valid() && Covered() && k < |heads|
      modifies this`nodes, pool, heads[k], nodes
      ensures Valid() && Covered() && fresh(nodes - old(nodes)) && Took(old(Seen()), Seen(), o, allocates)
      ensures Seen().out == old(Seen()).out
      ensures Seen().lists ==
              if o == null then old(Seen()).lists else old(Seen()).lists[k := old(Seen()).lists[k] + [o]]
    {
      assert Seen().lists[k] == heads[k].nodes;
      o := AppendTo(k, allocates);
      TookCovered(old(Seen()), Seen(), o, allocates, k, nodes);
      Cover(o);
    }

    method TakeFront(k: nat, allocates: bool) returns (o: Node?)
      requires Valid() && Covered() && k < |heads|
      modifies this`nodes, pool, heads[k], nodes
      ensures Valid() && Covered() && fresh(nodes - old(nodes)) && Took(old(Seen()), Seen(), o, allocates)
      ensures Seen().out == old(Seen()).out
      ensures Seen().lists ==
              if o == null then old(Seen()).lists else old(Seen()).lists[k := [o] + old(Seen()).lists[k]]
    {
      assert Seen().lists[k] == heads[k].nodes;
      o := PrependTo(k, allocates);
      TookCovered(old(Seen()), Seen(), o, allocates, k, nodes);
      Cover(o);
    }

    /** A node may now be in use. */
    method Cover(o: Node?)
      requires Valid()
      modifies this`nodes
      ensures Valid() && Seen() == old(Seen()) && nodes == old(nodes) + if o == null then {} else {o}
    {
      nodes := nodes + if o == null then {} else {o};
      assert Seen().lists == old(Seen()).lists;
    }

    method AppendTo(k: nat, allocates: bool) returns (o: Node?)
      requires Valid() && k < |heads|
      modifies pool, pool.free, heads[k], heads[k].nodes
      ensures Valid() && Took(old(Seen()), Seen(), o, allocates) && Seen().out == old(Seen()).out
      ensures Seen().lists ==
              if o == null then old(Seen()).lists else old(Seen()).lists[k := old(Seen()).lists[k] + [o]]
      ensures o != null ==> fresh(o) || o in old(pool.free)
    {
      assert heads[k] in heads;
      ghost var lists, nodes := Seen().lists, heads[k].nodes;
      o := pool.NewLast(heads[k], allocates);
      OnlyList(lists, Seen().lists, k, if o == null then nodes else nodes + [o]);
    }

    method PrependTo(k: nat, allocates: bool) returns (o: Node?)
      requires Valid() && k < |heads|
      modifies pool, pool.free, heads[k], heads[k].nodes
      ensures Valid() && Took(old(Seen()), Seen(), o, allocates) && Seen().out == old(Seen()).out
      ensures Seen().lists ==
              if o == null then old(Seen()).lists else old(Seen()).lists[k := [o] + old(Seen()).lists[k]]
      ensures o != null ==> fresh(o) || o in old(pool.free)
    {
      assert heads[k] in heads;
      ghost var lists, nodes := Seen().lists, heads[k].nodes;
      o := pool.NewFront(heads[k], allocates);
      OnlyList(lists, Seen().lists, k, if o == null then nodes else [o] + nodes);
    }

    method DropNode(k: nat, i: nat)
      requires Valid() && Covered() && k < |heads| && i < |heads[k].nodes|
      modifies pool, heads[k], nodes
      ensures Valid() && Covered()
      ensures var v := old(Seen());
              Seen() == v.(lists := v.lists[k := Without(v.lists[k], i)], free := [v.lists[k][i]] + v.free)
    {
      assert heads[k] in heads;
      var o := NodeAt(heads[k], i);
      pool.DeleteFrom(heads[k], o, i);
      assert Seen().lists == old(Seen()).lists[k := Without(old(Seen()).lists[k], i)];
    }

    /** The node is detached and in the caller's hands. */
    method LetLoose(k: nat, i: nat)
      requires Valid() && Covered() && k < |heads| && i < |heads[k].nodes|
      modifies this`out, heads[k], nodes
      ensures Valid() && Covered()
      ensures var v := old(Seen());
              Seen() == v.(lists := v.lists[k := Without(v.lists[k], i)], out := v.out + [v.lists[k][i]])
    {
      var o := TakeOut(k, i);
      Keep(o);
    }

    /** Detaches the node, which nobody else has. */
    method TakeOut(k: nat, i: nat) returns (o: Node)
      requires Valid() && Covered() && k < |heads| && i < |heads[k].nodes|
      modifies heads[k], nodes
      ensures Valid() && o == old(heads[k].nodes)[i] && pool.Outside(o) && forall j :: 0 <= j < |out| ==> out[j] != o
      ensures Seen() == old(Seen()).(lists := old(Seen()).lists[k := Without(old(Seen()).lists[k], i)])
    {
      assert heads[k] in heads;
      o := NodeAt(heads[k], i);
      forall j | 0 <= j < |out|
        ensures out[j] != o
      {
        assert pool.Outside(out[j]);
      }
      pool.Detach(heads[k], o, i);
      assert Seen().lists == old(Seen()).lists[k := Without(old(Seen()).lists[k], i)];
    }

    method Keep(o: Node)
      requires Valid() && pool.Outside(o) && forall j :: 0 <= j < |out| ==> out[j] != o
      modifies this`out
      ensures Valid() && out == old(out) + [o] && Seen() == old(Seen()).(out := old(out) + [o])
    {
      out := out + [o];
      assert Seen().lists == old(Seen()).lists;
    }

    method DropList(k: nat)
      requires Valid() && Covered() && k < |heads| && heads[k].nodes != []
      modifies pool, heads[k], nodes
      ensures Valid() && Covered()
      ensures var v := old(Seen()); Seen() == v.(lists := v.lists[k := []], free := v.lists[k] + v.free)
    {
      assert heads[k] in heads;
      var released := pool.DeleteAll(heads[k]);
      assert Seen().lists == old(Seen()).lists[k := []];
    }
  }

  method NodeAt(h: Head, i: nat) returns (o: Node)
    requires ListOk(h) && i < |h.nodes|
    ensures o == h.nodes[i]
  {
    o := h.first;
    var j := 0;
    while j < i
      invariant 0 <= j <= i && o == h.nodes[j]
    {
      assert LinkedAt(h.nodes, j, h);
      o := o.next;
      j := j + 1;
    }
  }

  /** Any run of operations, on the nodes and on the sequences side by side. */
  method DoAll(s: Session, ops: seq<Op>, ghost m: Model)
    requires s.Valid() && s.Covered() && s.Shows(m) && AllAllowed(m, ops)
    modifies s, s.pool, s.heads, s.nodes
    ensures s.Valid() && s.Covered() && s.Shows(Run(m, ops)) && fresh(s.nodes - old(s.nodes))
    decreases |ops|
  {
    if ops != [] {
      s.Do(ops[0], m);
      DoAll(s, ops[1..], Step(m, ops[0]));
    }
  }

  /** n lists, all empty, of a new pool. */
  method NewLists(n: nat) returns (pool: ObjPool, heads: seq<Head>)
    ensures fresh(pool) && pool.Valid() && pool.free == [] && pool.made == 0
    ensures |heads| == n && forall h :: h in heads ==> fresh(h) && h in pool.heads && h.nodes == []
    ensures forall i, j :: 0 <= i < j < n ==> heads[i] != heads[j]
  {
    pool := new ObjPool();
    heads := [];
    for k := 0 to n
      invariant fresh(pool) && pool.Valid() && pool.free == [] && pool.made == 0 && |heads| == k
      invariant forall h :: h in heads ==> fresh(h) && h in pool.heads && h.nodes == []
      invariant forall i, j :: 0 <= i < j < k ==> heads[i] != heads[j]
    {
      var h := new Head();
      pool.Adopt(h);
      heads := heads + [h];
    }
  }

  /** The sequences of a new pool with n lists. */
  function Start(n: nat): Model {
    Model(0, [], seq(n, i => []), [])
  }

  lemma StartIsEmpty(n: nat)
    ensures OnePlaceEach(Start(n))
  {
    forall x: nat
      ensures Places(Start(n), x) == 0
    {
      NoTimes(Start(n).lists, x);
    }
  }

  lemma {:induction false} NoTimes(lists: seq<seq<nat>>, x: nat)
    requires forall i :: 0 <= i < |lists| ==> lists[i] == []
    ensures TimesIn(lists, x) == 0
  {
    if lists != [] {
      NoTimes(lists[1..], x);
    }
  }

  lemma StartIsSeen(s: Session, n: nat)
    requires s.pool.free == [] && s.pool.made == 0 && s.out == [] && |s.heads| == n
    requires forall h :: h in s.heads ==> h.nodes == []
    ensures s.Shows(Start(n))
  {
    assert ModelOf(s.Seen()).lists == Start(n).lists;
  }

  /**
   Every run on a new pool with n lists: the nodes show what the operations do to plain sequences, and each object
   allocated is in exactly one place.
   */
  method RunFromStart(n: nat, ops: seq<Op>) returns (s: Session)
    requires AllAllowed(Start(n), ops)
    ensures fresh(s) && s.Valid() && |s.heads| == n && s.Shows(Run(Start(n), ops)) && OnePlaceEach(Run(Start(n), ops))
  {
    var pool, heads := NewLists(n);
    s := new Session(pool, heads);
    StartIsSeen(s, n);
    StartIsEmpty(n);
    RunConserves(Start(n), ops);
    DoAll(s, ops, Start(n));
  }
}
