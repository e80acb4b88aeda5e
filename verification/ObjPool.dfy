/**
 The intrusive lists of knv/obj_pool.h in one thread: doubly linked lists in which the first node's
 prev is the last node and the last node's next is null, and a free list linked through next.
 Each caller's first pointer is a Head. The compare-and-swap retries are modelled in FreeListRaces.
 */
module ObjPool {

  class Node {
    var prev: Node?
    var next: Node?
    ghost var home: object?  // the pool while free, its Head while in a list, null while handed out
    ghost const id: nat      // the how-manieth object the pool allocated

    constructor (ghost n: nat)
      ensures prev == null && next == null && home == null && id == n
    {
      prev, next, home, id := null, null, null, n;
    }
  }

  class Head {
    var first: Node?
    ghost var nodes: seq<Node>

    constructor ()
      ensures first == null && nodes == []
    {
      first, nodes := null, [];
    }
  }

  ghost predicate Injective(s: seq<Node>) {
    forall i, j :: 0 <= i < j < |s| ==> s[i] != s[j]
  }

  ghost function NextIn(s: seq<Node>, i: nat): Node?
    requires i < |s|
  {
    if i + 1 < |s| then s[i + 1] else null
  }

  ghost function PrevIn(s: seq<Node>, i: nat): Node
    requires i < |s|
  {
    if i == 0 then s[|s| - 1] else s[i - 1]
  }

  /** Node i of a list that belongs to owner: linked to its neighbours, and the first back to the last. */
  ghost predicate LinkedAt(s: seq<Node>, i: nat, owner: object)
    requires i < |s|
    reads s[i]
  {
    s[i].next == NextIn(s, i) && s[i].prev == PrevIn(s, i) && s[i].home == owner
  }

  ghost predicate Linked(s: seq<Node>, owner: object)
    reads s
  {
    forall i :: 0 <= i < |s| ==> LinkedAt(s, i, owner)
  }

  /** Node i of the free list of owner: only next counts. */
  ghost predicate ChainedAt(s: seq<Node>, i: nat, owner: object)
    requires i < |s|
    reads s[i]
  {
    s[i].next == NextIn(s, i) && s[i].home == owner
  }

  ghost predicate Chained(s: seq<Node>, owner: object)
    reads s
  {
    forall i :: 0 <= i < |s| ==> ChainedAt(s, i, owner)
  }

  ghost predicate At(s: seq<Node>, owner: object)
    reads s
  {
    forall n :: n in s ==> n.home == owner
  }

  ghost predicate Disjoint(a: seq<Node>, b: seq<Node>) {
    forall n :: n in a ==> n !in b
  }

  lemma Apart(a: seq<Node>, x: object, b: seq<Node>, y: object)
    requires At(a, x) && At(b, y) && x != y
    ensures Disjoint(a, b)
  {
  }

  ghost predicate ListOk(h: Head)
    reads h, h.nodes
  {
    h.first == (if h.nodes == [] then null else h.nodes[0]) && Injective(h.nodes) && Linked(h.nodes, h)
  }

  lemma InjectiveSum(a: seq<Node>, b: seq<Node>)
    requires Injective(a) && Injective(b) && Disjoint(a, b)
    ensures Injective(a + b)
  {
    forall i, j | 0 <= i < j < |a + b|
      ensures (a + b)[i] != (a + b)[j]
    {
      if i < |a| <= j {
        assert a[i] in a && b[j - |a|] in b;
      }
    }
  }

  lemma LinkedIsAt(s: seq<Node>, owner: object)
    requires Linked(s, owner)
    ensures At(s, owner)
  {
    forall n | n in s
      ensures n.home == owner
    {
      var i :| 0 <= i < |s| && s[i] == n;
      assert LinkedAt(s, i, owner);
    }
  }

  lemma ChainedIsAt(s: seq<Node>, owner: object)
    requires Chained(s, owner)
    ensures At(s, owner)
  {
    forall n | n in s
      ensures n.home == owner
    {
      var i :| 0 <= i < |s| && s[i] == n;
      assert ChainedAt(s, i, owner);
    }
  }

  lemma ChainedTail(s: seq<Node>, owner: object)
    requires s != [] && Chained(s, owner)
    ensures Chained(s[1..], owner)
    ensures s[0].next == if s[1..] == [] then null else s[1..][0]
  {
    assert ChainedAt(s, 0, owner);
    forall i | 0 <= i < |s[1..]|
      ensures ChainedAt(s[1..], i, owner)
    {
      assert ChainedAt(s, i + 1, owner);
    }
  }

  class ObjPool {
    var freelist: Node?
    ghost var free: seq<Node>
    ghost var heads: set<Head>
    ghost var made: nat

    ghost predicate FreeOk()
      reads this, free
    {
      freelist == (if free == [] then null else free[0]) && Injective(free) && Chained(free, this)
    }

    /** All lists and the free list are well formed; through home, no two of them share a node. */
    ghost predicate Valid()
      reads *
    {
      FreeOk() && forall h :: h in heads ==> ListOk(h)
    }

    /** o is neither free nor in a list. */
    ghost predicate Outside(o: Node)
      reads this, heads
    {
      o !in free && forall k :: k in heads ==> o !in k.nodes
    }

    constructor ()
      ensures Valid() && free == [] && heads == {} && made == 0
    {
      freelist, free, heads, made := null, [], {}, 0;
    }

    /** A caller starts a new, empty list. */
    method Adopt(h: Head)
      requires Valid() && h.first == null && h.nodes == []
      modifies this
      ensures Valid() && heads == old(heads) + {h} && free == old(free) && made == old(made)
    {
      heads := heads + {h};
    }

    /** No node of a list is free, and no node is in two lists. */
    lemma Separate()
      requires Valid()
      ensures forall h :: h in heads ==> Disjoint(h.nodes, free)
      ensures forall h, k :: h in heads && k in heads && h != k ==> Disjoint(h.nodes, k.nodes)
    {
      forall h, k | h in heads && k in heads && h != k
        ensures Disjoint(h.nodes, k.nodes)
      {
        LinkedIsAt(h.nodes, h);
        LinkedIsAt(k.nodes, k);
        Apart(h.nodes, h, k.nodes, k);
      }
      forall h | h in heads
        ensures Disjoint(h.nodes, free)
      {
        LinkedIsAt(h.nodes, h);
        ChainedIsAt(free, this);
        Apart(h.nodes, h, free, this);
      }
    }

    /** The common start of New, New(first) and NewFront: pop the free list, or allocate. */
    method Take(allocates: bool) returns (o: Node?)
      requires Valid()
      modifies this
      ensures Valid() && heads == old(heads)
      ensures old(free) != [] ==> o == old(free)[0] && free == old(free)[1..] && made == old(made)
      ensures old(free) == [] && allocates ==>
                o != null && fresh(o) && o.id == old(made) && free == [] && made == old(made) + 1
      ensures old(free) == [] && !allocates ==> o == null && free == [] && made == old(made)
      ensures o != null ==> Outside(o)
      ensures forall x: Node :: old(allocated(x)) && old(Outside(x)) ==> Outside(x)
    {
      Separate();
      o := freelist;
      if o != null {
        assert o in free;
        ChainedTail(free, this);
        freelist := o.next;
        free := free[1..];
        assert FreeOk();
      } else if allocates {
        o := new Node(made);
        made := made + 1;
      }
    }

    /** New(): the object is handed out, linked to nothing but itself. */
    method New(allocates: bool) returns (o: Node?)
      requires Valid()
      modifies this, free
      ensures Valid() && heads == old(heads)
      ensures old(free) != [] ==> o == old(free)[0] && free == old(free)[1..] && made == old(made)
      ensures old(free) == [] && allocates ==>
                o != null && fresh(o) && o.id == old(made) && free == [] && made == old(made) + 1
      ensures old(free) == [] && !allocates ==> o == null && free == [] && made == old(made)
      ensures o != null ==> o.next == null && o.prev == o && o.home == null && Outside(o)
      ensures forall x: Node :: old(allocated(x)) && old(Outside(x)) ==> Outside(x)
    {
      o := Take(allocates);
      if o != null {
        o.next, o.prev, o.home := null, o, null;
      }
    }

    /** New(first): the object becomes the last of the list. */
    method NewLast(h: Head, allocates: bool) returns (o: Node?)
      requires Valid() && h in heads
      modifies this, h, h.nodes, free
      ensures Valid() && heads == old(heads)
      ensures old(free) != [] ==> o == old(free)[0] && free == old(free)[1..] && made == old(made)
      ensures old(free) == [] && allocates ==>
                o != null && fresh(o) && o.id == old(made) && free == [] && made == old(made) + 1
      ensures old(free) == [] && !allocates ==> o == null && free == [] && made == old(made)
      ensures h.nodes == if o == null then old(h.nodes) else old(h.nodes) + [o]
      ensures forall x: Node :: old(allocated(x)) && old(Outside(x)) ==> Outside(x)
    {
      o := Take(allocates);
      if o != null {
        Append(h, o);
      }
    }

    /** NewFront(first): the object becomes the first of the list. */
    method NewFront(h: Head, allocates: bool) returns (o: Node?)
      requires Valid() && h in heads
      modifies this, h, h.nodes, free
      ensures Valid() && heads == old(heads)
      ensures old(free) != [] ==> o == old(free)[0] && free == old(free)[1..] && made == old(made)
      ensures old(free) == [] && allocates ==>
                o != null && fresh(o) && o.id == old(made) && free == [] && made == old(made) + 1
      ensures old(free) == [] && !allocates ==> o == null && free == [] && made == old(made)
      ensures h.nodes == if o == null then old(h.nodes) else [o] + old(h.nodes)
      ensures forall x: Node :: old(allocated(x)) && old(Outside(x)) ==> Outside(x)
    {
      o := Take(allocates);
      if o != null {
        Prepend(h, o);
      }
    }

    /** Delete(obj): an object handed out before goes on top of the free list. */
    method Delete(o: Node)
      requires Valid() && Outside(o)
      modifies this, o
      ensures Valid() && heads == old(heads) && made == old(made) && free == [o] + old(free)
      ensures forall x: Node :: old(allocated(x)) && old(Outside(x)) && x != o ==> Outside(x)
    {
      o.next := freelist;
      freelist := o;
      o.home := this;
      free := [o] + free;
      forall i | 0 <= i < |free|
        ensures ChainedAt(free, i, this)
      {
        assert i > 0 ==> old(ChainedAt(free, i - 1, this));
      }
    }

    /** Delete(first, obj): out of its list and on top of the free list. */
    method DeleteFrom(h: Head, o: Node, ghost i: nat)
      requires Valid() && h in heads && i < |h.nodes| && h.nodes[i] == o
      modifies this, h, h.nodes
      ensures Valid() && heads == old(heads) && made == old(made)
      ensures h.nodes == old(h.nodes)[..i] + old(h.nodes)[i + 1..] && free == [o] + old(free)
      ensures forall x: Node :: old(allocated(x)) && old(Outside(x)) ==> Outside(x)
    {
      Separate();
      Remove(h, o, i, false);
      Delete(o);
    }

    /** Detach(first, obj): out of its list and into the caller's hands. */
    method Detach(h: Head, o: Node, ghost i: nat)
      requires Valid() && h in heads && i < |h.nodes| && h.nodes[i] == o
      modifies h, h.nodes
      ensures Valid()
      ensures h.nodes == old(h.nodes)[..i] + old(h.nodes)[i + 1..]
      ensures o.prev == null && o.next == null && o.home == null && Outside(o)
      ensures forall x: Node :: old(allocated(x)) && old(Outside(x)) ==> Outside(x)
    {
      Remove(h, o, i, true);
    }

    /** DeleteAll(first): releases every node once and puts the whole list in front of the free list. */
    method DeleteAll(h: Head) returns (released: seq<Node>)
      requires Valid() && h in heads && h.nodes != []
      modifies this, h, h.nodes
      ensures Valid() && heads == old(heads) && made == old(made)
      ensures released == old(h.nodes) && h.nodes == [] && free == old(h.nodes) + old(free)
      ensures forall x: Node :: old(allocated(x)) && old(Outside(x)) ==> Outside(x)
    {
      Separate();
      released := ReleaseAll(h);
      AddToFreeList(h);
    }

    /** AddToFreeList: one link from the last node to the old free list. */
    method AddToFreeList(h: Head)
      requires Valid() && h in heads && h.nodes != []
      modifies this, h, h.nodes
      ensures Valid() && heads == old(heads) && made == old(made)
      ensures h.nodes == [] && free == old(h.nodes) + old(free)
      ensures forall x: Node :: old(allocated(x)) && old(Outside(x)) ==> Outside(x)
    {
      Separate();
      ghost var ns, was := h.nodes, free;
      InjectiveSum(ns, was);
      assert LinkedAt(ns, 0, h);
      h.first.prev.next := freelist;
      freelist := h.first;
      h.first := null;
      forall i | 0 <= i < |ns| {
        ns[i].home := this;
      }
      free, h.nodes := ns + was, [];
      forall i | 0 <= i < |ns|
        ensures ChainedAt(free, i, this)
      {
        assert old(LinkedAt(ns, i, h));
      }
      forall i | |ns| <= i < |free|
        ensures ChainedAt(free, i, this)
      {
        assert was[i - |ns|] in was && old(ChainedAt(was, i - |ns|, this));
      }
      forall k, i | k in heads && k != h && 0 <= i < |k.nodes|
        ensures LinkedAt(k.nodes, i, k)
      {
        assert Disjoint(k.nodes, ns) && k.nodes[i] in k.nodes && old(LinkedAt(k.nodes, i, k));
      }
    }

    // The list surgery below is done on one list; everything outside it stays as it was.

    method Append(h: Head, o: Node)
      requires Valid() && h in heads && Outside(o)
      modifies h, h.nodes, o
      ensures Valid() && h.nodes == old(h.nodes) + [o]
      ensures forall x: Node :: old(allocated(x)) && old(Outside(x)) && x != o ==> Outside(x)
    {
      Separate();
      ghost var mine := h.nodes;
      LinkLast(h, o);
      forall i | 0 <= i < |free|
        ensures ChainedAt(free, i, this)
      {
        assert free[i] in free && old(ChainedAt(free, i, this));
      }
      forall k, i | k in heads && k != h && 0 <= i < |k.nodes|
        ensures LinkedAt(k.nodes, i, k)
      {
        assert Disjoint(k.nodes, mine) && k.nodes[i] in k.nodes && old(LinkedAt(k.nodes, i, k));
      }
    }

    method Prepend(h: Head, o: Node)
      requires Valid() && h in heads && Outside(o)
      modifies h, h.nodes, o
      ensures Valid() && h.nodes == [o] + old(h.nodes)
      ensures forall x: Node :: old(allocated(x)) && old(Outside(x)) && x != o ==> Outside(x)
    {
      Separate();
      ghost var mine := h.nodes;
      LinkFirst(h, o);
      forall i | 0 <= i < |free|
        ensures ChainedAt(free, i, this)
      {
        assert free[i] in free && old(ChainedAt(free, i, this));
      }
      forall k, i | k in heads && k != h && 0 <= i < |k.nodes|
        ensures LinkedAt(k.nodes, i, k)
      {
        assert Disjoint(k.nodes, mine) && k.nodes[i] in k.nodes && old(LinkedAt(k.nodes, i, k));
      }
    }

    method Remove(h: Head, o: Node, ghost i: nat, clear: bool)
      requires Valid() && h in heads && i < |h.nodes| && h.nodes[i] == o
      modifies h, h.nodes
      ensures Valid() && h.nodes == old(h.nodes)[..i] + old(h.nodes)[i + 1..]
      ensures o.home == null && Outside(o)
      ensures clear ==> o.prev == null && o.next == null
      ensures forall x: Node :: old(allocated(x)) && old(Outside(x)) ==> Outside(x)
    {
      Separate();
      ghost var mine := h.nodes;
      assert o in mine;
      Unlink(h, o, i);
      if clear {
        o.prev, o.next := null, null;
      }
      forall k | k in heads && k != h
        ensures o !in k.nodes
      {
        assert Disjoint(mine, k.nodes);
      }
      forall i | 0 <= i < |free|
        ensures ChainedAt(free, i, this)
      {
        assert free[i] in free && old(ChainedAt(free, i, this));
      }
      forall k, i | k in heads && k != h && 0 <= i < |k.nodes|
        ensures LinkedAt(k.nodes, i, k)
      {
        assert Disjoint(k.nodes, mine) && k.nodes[i] in k.nodes && old(LinkedAt(k.nodes, i, k));
      }
    }
  }

  /** The walk of DeleteAll. */
  method ReleaseAll(h: Head) returns (released: seq<Node>)
    requires ListOk(h)
    ensures released == h.nodes
  {
    released := [];
    var o := h.first;
    while o != null
      invariant |released| <= |h.nodes| && released == h.nodes[..|released|]
      invariant o == if |released| < |h.nodes| then h.nodes[|released|] else null
      decreases |h.nodes| - |released|
    {
      assert LinkedAt(h.nodes, |released|, h);
      released := released + [o];
      o := o.next;
    }
  }

  /** The tail of NewFront: o goes in front of the first node. */
  method LinkFirst(h: Head, o: Node)
    requires ListOk(h) && o !in h.nodes
    modifies h, h.nodes, o
    ensures ListOk(h) && h.nodes == [o] + old(h.nodes)
  {
    o.next := h.first;
    if h.first != null {
      assert LinkedAt(h.nodes, 0, h);
      o.prev := h.first.prev;
      h.first.prev := o;
    } else {
      o.prev := o;
    }
    h.first := o;
    o.home := h;
    h.nodes := [o] + h.nodes;
    ghost var s, was := h.nodes, old(h.nodes);
    forall i | 0 <= i < |s|
      ensures LinkedAt(s, i, h)
    {
      assert i > 0 ==> old(LinkedAt(was, i - 1, h));
    }
  }

  /** The common start of Delete(first, obj) and Detach: the neighbours of o are linked to each other. */
  method Unlink(h: Head, o: Node, ghost k: nat)
    requires ListOk(h) && k < |h.nodes| && h.nodes[k] == o
    modifies h, h.nodes
    ensures ListOk(h) && h.nodes == old(h.nodes)[..k] + old(h.nodes)[k + 1..] && o !in h.nodes
    ensures o.home == null
  {
    if o == h.first {
      UnlinkFirst(h, o);
    } else {
      UnlinkInner(h, o, k);
    }
  }

  method UnlinkFirst(h: Head, o: Node)
    requires ListOk(h) && h.nodes != [] && h.nodes[0] == o
    modifies h, h.nodes
    ensures ListOk(h) && h.nodes == old(h.nodes)[1..] && o !in h.nodes
    ensures o.home == null
  {
    ghost var was := h.nodes;
    assert LinkedAt(was, 0, h);
    if o.next != null {
      o.next.prev := h.first.prev;
    }
    h.first := o.next;
    o.home := null;
    h.nodes := was[1..];
    forall i | 0 <= i < |h.nodes|
      ensures LinkedAt(h.nodes, i, h)
    {
      assert old(LinkedAt(was, i + 1, h));
    }
  }

  method UnlinkInner(h: Head, o: Node, ghost k: nat)
    requires ListOk(h) && 0 < k < |h.nodes| && h.nodes[k] == o
    modifies h, h.nodes
    ensures ListOk(h) && h.nodes == old(h.nodes)[..k] + old(h.nodes)[k + 1..] && o !in h.nodes
    ensures o.home == null
  {
    ghost var was := h.nodes;
    assert LinkedAt(was, k, h) && LinkedAt(was, 0, h);
    var p, n := o.prev, o.next;
    p.next := n;
    if n != null {
      n.prev := p;
    } else {
      h.first.prev := p;
    }
    o.home := null;
    h.nodes := was[..k] + was[k + 1..];
    forall i | 0 <= i < |h.nodes|
      ensures LinkedAt(h.nodes, i, h)
    {
      ghost var j := if i < k then i else i + 1;
      assert h.nodes[i] == was[j] && old(LinkedAt(was, j, h));
    }
  }

  /** The tail of New(first): o goes behind the last node. */
  method LinkLast(h: Head, o: Node)
    requires ListOk(h) && o !in h.nodes
    modifies h, h.nodes, o
    ensures ListOk(h) && h.nodes == old(h.nodes) + [o]
  {
    o.next := null;
    if h.first != null {
      assert LinkedAt(h.nodes, 0, h);
      var lst := h.first.prev;
      lst.next := o;
      o.prev := lst;
      h.first.prev := o;
    } else {
      h.first := o;
      o.prev := o;
    }
    o.home := h;
    h.nodes := h.nodes + [o];
    ghost var s, was := h.nodes, old(h.nodes);
    forall i | 0 <= i < |s|
      ensures LinkedAt(s, i, h)
    {
      assert i < |was| ==> old(LinkedAt(was, i, h));
    }
  }
}
