/** The cache: a hash table of handles, and two rings that hold the handles in use and the others
    in the order of their last use. */
module LruCaches {
  import opened Keys
  import opened Coding
  import opened HandleTables

  // ----- rings

  /** The handle at i, where the head stands at both ends. */
  ghost function Node(head: LRUHandle, s: seq<LRUHandle>, i: int): LRUHandle {
    if 0 <= i < |s| then s[i] else head
  }

  ghost predicate Distinct(head: LRUHandle, s: seq<LRUHandle>) {
    head !in s && forall i, j | 0 <= i < j < |s| :: s[i] != s[j]
  }

  /** The neighbours of the node at i. */
  ghost predicate Joined(head: LRUHandle, s: seq<LRUHandle>, i: int)
    requires -1 <= i < |s|
    reads head`next, head`prev, s`next, s`prev
  {
    Node(head, s, i).next == Node(head, s, i + 1) && Node(head, s, i + 1).prev == Node(head, s, i)
  }

  /** A circular doubly linked list: the head, then s in order. */
  ghost predicate Ring(head: LRUHandle, s: seq<LRUHandle>)
    reads head`next, head`prev, s`next, s`prev
  {
    && Distinct(head, s)
    && forall i | -1 <= i < |s| :: Joined(head, s, i)
  }

  ghost function Without(s: seq<LRUHandle>, i: nat): (r: seq<LRUHandle>)
    requires i < |s|
    ensures |r| == |s| - 1
    ensures forall j | 0 <= j < |r| :: r[j] == s[if j < i then j else j + 1]
  {
    s[..i] + s[i+1..]
  }

  lemma NodesWithout(head: LRUHandle, s: seq<LRUHandle>, i: nat, j: int)
    requires i < |s| && -1 <= j <= |s| - 1
    ensures Node(head, Without(s, i), j) == Node(head, s, if j < i then j else j + 1)
  {
  }

  lemma StillDistinct(head: LRUHandle, s: seq<LRUHandle>, i: nat)
    requires Distinct(head, s) && i < |s|
    ensures Distinct(head, Without(s, i))
    ensures forall e :: e in Without(s, i) <==> e in s && e != s[i]
  {
    var r := Without(s, i);
    forall e | e in s && e != s[i]
      ensures e in r
    {
      var k :| 0 <= k < |s| && s[k] == e;
      assert r[if k < i then k else k - 1] == e;
    }
  }

  lemma Bypassed(head: LRUHandle, s: seq<LRUHandle>, i: nat)
    requires i < |s|
    ensures Node(head, s, i) == s[i]
    ensures Node(head, s, i - 1) == head || Node(head, s, i - 1) in s
    ensures Node(head, s, i + 1) == head || Node(head, s, i + 1) in s
  {
  }

  lemma NodesApartFrom(head: LRUHandle, s: seq<LRUHandle>, i: nat, k: int)
    requires Distinct(head, s) && i < |s| && -1 <= k < |s| && k != i - 1 && k != i
    ensures Node(head, s, k) != Node(head, s, i - 1)
    ensures Node(head, s, k + 1) != Node(head, s, i + 1)
  {
  }

  /** Takes a handle out of its ring. */
  method LRU_Remove(e: LRUHandle, ghost head: LRUHandle, ghost s: seq<LRUHandle>, ghost i: nat)
    requires Ring(head, s) && i < |s| && s[i] == e
    modifies head`next, head`prev, s`next, s`prev
    ensures Ring(head, Without(s, i))
  {
    hide Without, Node, Distinct;
    ghost var before, after := Node(head, s, i - 1), Node(head, s, i + 1);
    Bypassed(head, s, i);
    assert Joined(head, s, i - 1) && Joined(head, s, i);
    e.next.prev := e.prev;
    e.prev.next := e.next;
    ghost var r := Without(s, i);
    StillDistinct(head, s, i);
    forall j | -1 <= j < |r|
      ensures Joined(head, r, j)
    {
      NodesWithout(head, s, i, j);
      NodesWithout(head, s, i, j + 1);
      if j != i - 1 {
        var k := if j < i then j else j + 1;
        assert old(Joined(head, s, k));
        NodesApartFrom(head, s, i, k);
      }
    }
  }

  /** Puts a handle at the end of a ring, as the newest. */
  method LRU_Append(head: LRUHandle, e: LRUHandle, ghost s: seq<LRUHandle>)
    requires Ring(head, s) && e !in s && e != head
    modifies head`next, head`prev, s`next, e`next, e`prev
    ensures Ring(head, s + [e])
  {
    ghost var last := Node(head, s, |s| - 1);
    assert Joined(head, s, |s| - 1);
    assert last == head || last in s;
    e.next := head;
    e.prev := head.prev;
    e.prev.next := e;
    e.next.prev := e;
    ghost var r := s + [e];
    forall j | -1 <= j < |r|
      ensures Joined(head, r, j)
    {
      if j < |s| - 1 {
        assert old(Joined(head, s, j));
      }
    }
  }

  // ----- sums and positions

  ghost function Total(s: seq<LRUHandle>): nat {
    if s == [] then 0 else Total(s[..|s|-1]) + s[|s|-1].charge
  }

  ghost function IndexOf(s: seq<LRUHandle>, e: LRUHandle): (i: nat)
    requires e in s
    ensures i < |s| && s[i] == e
  {
    if s[|s|-1] == e then |s| - 1 else IndexOf(s[..|s|-1], e)
  }

  /** The list without a handle. */
  ghost function Drop(s: seq<LRUHandle>, e: LRUHandle): seq<LRUHandle> {
    if e in s then Without(s, IndexOf(s, e)) else s
  }

  lemma {:induction false} TotalWithout(s: seq<LRUHandle>, i: nat)
    requires i < |s|
    ensures Total(s) == Total(Without(s, i)) + s[i].charge
  {
    var front := s[..|s|-1];
    var r := Without(s, i);
    if i < |s| - 1 {
      TotalWithout(front, i);
      assert r[..|r|-1] == Without(front, i) && r[|r|-1] == s[|s|-1];
    } else {
      assert r == front;
    }
  }

  lemma TotalWith(s: seq<LRUHandle>, e: LRUHandle)
    ensures Total(s + [e]) == Total(s) + e.charge
  {
    assert (s + [e])[..|s|] == s;
  }

  /** Dropping a handle takes away just its charge, and no other handle. */
  lemma Dropped(head: LRUHandle, s: seq<LRUHandle>, e: LRUHandle)
    requires Distinct(head, s)
    ensures Distinct(head, Drop(s, e))
    ensures forall o :: o in Drop(s, e) <==> o in s && o != e
    ensures Total(s) == Total(Drop(s, e)) + if e in s then e.charge else 0
  {
    if e in s {
      StillDistinct(head, s, IndexOf(s, e));
      TotalWithout(s, IndexOf(s, e));
    }
  }

  // ----- what holds between the calls

  /** Two rings of handles, with no handle in both. */
  ghost predicate Rings(lru: LRUHandle, inUse: LRUHandle, a: seq<LRUHandle>, b: seq<LRUHandle>, handles: set<LRUHandle>)
    reads lru`next, lru`prev, inUse`next, inUse`prev, handles`next, handles`prev
  {
    && lru != inUse && lru !in handles && inUse !in handles
    && (forall e | e in a :: e in handles && e !in b)
    && (forall e | e in b :: e in handles)
    && Ring(lru, a)
    && Ring(inUse, b)
  }

  /** References come from clients and, for a handle in the cache, from the cache; the deleter runs
      when there are none; a handle in the cache is in the ring that its references tell. */
  ghost predicate Accounted(e: LRUHandle, a: seq<LRUHandle>, b: seq<LRUHandle>, held: multiset<LRUHandle>)
    reads e`refs, e`inCache, e`deletions
  {
    && e.refs == held[e] + (if e.inCache then 1 else 0)
    && e.deletions == (if e.refs == 0 then 1 else 0)
    && (e in a <==> e.inCache && e.refs == 1)
    && (e in b <==> e.inCache && e.refs >= 2)
  }

  ghost predicate AllAccounted(handles: set<LRUHandle>, a: seq<LRUHandle>, b: seq<LRUHandle>, held: multiset<LRUHandle>)
    reads handles`refs, handles`inCache, handles`deletions
  {
    forall e | e in handles :: Accounted(e, a, b, held)
  }

  /** The table has the handles of the two rings, but for x, which has just been taken out of it. */
  ghost predicate Tabled(elements: map<Id, LRUHandle>, a: seq<LRUHandle>, b: seq<LRUHandle>, x: LRUHandle?) {
    && (x != null ==> x in a || x in b)
    && (forall e | e in elements.Values :: (e in a || e in b) && e != x)
    && (forall e | e in a :: e != x ==> e in elements.Values)
    && forall e | e in b :: e != x ==> e in elements.Values
  }

  lemma RingsSwap(x: LRUHandle, y: LRUHandle, a: seq<LRUHandle>, b: seq<LRUHandle>, handles: set<LRUHandle>)
    requires Rings(x, y, a, b, handles)
    ensures Rings(y, x, b, a, handles)
  {
    hide Ring;
  }

  lemma RingsFacts(x: LRUHandle, y: LRUHandle, a: seq<LRUHandle>, b: seq<LRUHandle>, handles: set<LRUHandle>)
    requires Rings(x, y, a, b, handles)
    ensures Ring(x, a) && Ring(y, b) && Distinct(x, a) && Distinct(y, b) && x != y && x !in handles && y !in handles
    ensures forall e | e in a :: e in handles && e !in b
    ensures forall e | e in b :: e in handles && e !in a
  {
  }

  lemma RingsFrom(x: LRUHandle, y: LRUHandle, a: seq<LRUHandle>, b: seq<LRUHandle>, handles: set<LRUHandle>)
    requires Ring(x, a) && Ring(y, b) && x != y && x !in handles && y !in handles
    requires (forall e | e in a :: e in handles && e !in b) && forall e | e in b :: e in handles
    ensures Rings(x, y, a, b, handles)
  {
  }

  lemma NodeIn(head: LRUHandle, s: seq<LRUHandle>, i: int)
    ensures Node(head, s, i) == head || Node(head, s, i) in s
  {
  }

  lemma DropIs(s: seq<LRUHandle>, e: LRUHandle)
    requires e in s
    ensures Drop(s, e) == Without(s, IndexOf(s, e))
  {
  }

  /** Takes e out of the ring of x. */
  method Unlink(ghost x: LRUHandle, ghost y: LRUHandle, e: LRUHandle, ghost a: seq<LRUHandle>, ghost b: seq<LRUHandle>, ghost handles: set<LRUHandle>)
    requires Rings(x, y, a, b, handles) && e in a
    modifies x`next, x`prev, handles`next, handles`prev
    ensures Rings(x, y, Drop(a, e), b, handles)
  {
    hide Rings, Distinct, Without, Node, Drop;
    RingsFacts(x, y, a, b, handles);
    Dropped(x, a, e);
    DropIs(a, e);
    LRU_Remove(e, x, a, IndexOf(a, e));
    forall i | -1 <= i < |b|
      ensures Joined(y, b, i)
    {
      assert old(Joined(y, b, i));
      NodeIn(y, b, i);
      NodeIn(y, b, i + 1);
    }
    RingsFrom(x, y, Drop(a, e), b, handles);
  }

  /** Puts e at the end of the ring of x. */
  method Link(x: LRUHandle, y: LRUHandle, e: LRUHandle, ghost a: seq<LRUHandle>, ghost b: seq<LRUHandle>, ghost handles: set<LRUHandle>)
    requires Rings(x, y, a, b, handles) && e in handles && e !in a && e !in b
    modifies x`next, x`prev, handles`next, handles`prev
    ensures Rings(x, y, a + [e], b, handles)
  {
    hide Rings, Distinct, Node;
    RingsFacts(x, y, a, b, handles);
    LRU_Append(x, e, a);
    forall i | -1 <= i < |b|
      ensures Joined(y, b, i)
    {
      assert old(Joined(y, b, i));
      NodeIn(y, b, i);
      NodeIn(y, b, i + 1);
    }
    RingsFrom(x, y, a + [e], b, handles);
  }

  /** Moves e from the ring of x to the end of the ring of y. */
  method Relink(x: LRUHandle, y: LRUHandle, e: LRUHandle, ghost a: seq<LRUHandle>, ghost b: seq<LRUHandle>, ghost handles: set<LRUHandle>)
    requires Rings(x, y, a, b, handles) && e in a
    modifies x`next, x`prev, y`next, y`prev, handles`next, handles`prev
    ensures Rings(x, y, Drop(a, e), b + [e], handles)
  {
    hide Rings, Ring, Distinct, Drop;
    RingsFacts(x, y, a, b, handles);
    Dropped(x, a, e);
    Unlink(x, y, e, a, b, handles);
    RingsSwap(x, y, Drop(a, e), b, handles);
    Link(y, x, e, b, Drop(a, e), handles);
    RingsSwap(y, x, b + [e], Drop(a, e), handles);
  }

  lemma AccountsSplit(handles: set<LRUHandle>, e: LRUHandle, a: seq<LRUHandle>, b: seq<LRUHandle>, held: multiset<LRUHandle>)
    requires e in handles
    ensures AllAccounted(handles, a, b, held) <==> AllAccounted(handles - {e}, a, b, held) && Accounted(e, a, b, held)
  {
    hide Accounted;
  }

  /** The lists agree on everything but e. */
  ghost predicate SameBut(e: LRUHandle, a: seq<LRUHandle>, a': seq<LRUHandle>) {
    (forall o | o in a && o != e :: o in a') && (forall o | o in a' && o != e :: o in a)
  }

  /** When only what concerns e changes, the others are accounted for as before. */
  lemma Relisted(handles: set<LRUHandle>, e: LRUHandle, a: seq<LRUHandle>, b: seq<LRUHandle>, held: multiset<LRUHandle>,
                 a': seq<LRUHandle>, b': seq<LRUHandle>, held': multiset<LRUHandle>)
    requires AllAccounted(handles, a, b, held) && e !in handles
    requires SameBut(e, a, a') && SameBut(e, b, b') && held'[e := 0] == held[e := 0]
    ensures AllAccounted(handles, a', b', held')
  {
    forall o | o in handles
      ensures Accounted(o, a', b', held')
    {
      assert Accounted(o, a, b, held);
      assert held'[e := 0][o] == held[e := 0][o];
    }
  }

  /** A ring of nothing but its head. */
  method NewHead() returns (head: LRUHandle)
    ensures fresh(head) && Ring(head, [])
  {
    head := new LRUHandle([], 0, 0);
    head.next, head.prev := head, head;
  }

  lemma EmptyCache(l: LRUHandle, u: LRUHandle)
    requires l != u && Ring(l, []) && Ring(u, [])
    ensures Rings(l, u, [], [], {}) && AllAccounted({}, [], [], multiset{}) && Tabled(map[], [], [], null) && Total([]) == 0
  {
  }

  lemma MembersOf(elements: map<Id, LRUHandle>, a: seq<LRUHandle>, b: seq<LRUHandle>, x: LRUHandle?, e: LRUHandle)
    requires Tabled(elements, a, b, x)
    ensures e in elements.Values <==> (e in a || e in b) && e != x
  {
  }

  /** Moving a handle from one list to the other. */
  lemma MovedOver(x: LRUHandle, elements: map<Id, LRUHandle>, a: seq<LRUHandle>, b: seq<LRUHandle>, e: LRUHandle)
    requires Distinct(x, a)
    ensures e !in Drop(a, e) && SameBut(e, a, Drop(a, e))
    ensures e in b + [e] && SameBut(e, b, b + [e])
    ensures e in a ==> Total(Drop(a, e)) + Total(b + [e]) == Total(a) + Total(b)
    ensures e in a && Tabled(elements, a, b, null) ==> Tabled(elements, Drop(a, e), b + [e], null)
  {
    Dropped(x, a, e);
    TotalWith(b, e);
  }

  lemma Kept(e: LRUHandle, a: seq<LRUHandle>, b: seq<LRUHandle>)
    ensures SameBut(e, a, a) && SameBut(e, b, b)
  {
  }

  /** Moving a handle back from the second list to the first. */
  lemma MovedBack(y: LRUHandle, elements: map<Id, LRUHandle>, a: seq<LRUHandle>, b: seq<LRUHandle>, e: LRUHandle)
    requires Distinct(y, b)
    ensures e !in Drop(b, e) && SameBut(e, b, Drop(b, e))
    ensures e in a + [e] && SameBut(e, a, a + [e])
    ensures e in b ==> Total(a + [e]) + Total(Drop(b, e)) == Total(a) + Total(b)
    ensures e in b && Tabled(elements, a, b, null) ==> Tabled(elements, a + [e], Drop(b, e), null)
  {
    Dropped(y, b, e);
    TotalWith(a, e);
  }

  /** Dropping from both lists a handle that the table no longer has. */
  lemma ErasedOf(x: LRUHandle, y: LRUHandle, elements: map<Id, LRUHandle>, a: seq<LRUHandle>, b: seq<LRUHandle>, e: LRUHandle)
    requires Distinct(x, a) && Distinct(y, b) && Tabled(elements, a, b, e) && (e in a ==> e !in b)
    ensures e in a || e in b
    ensures e !in Drop(a, e) && SameBut(e, a, Drop(a, e)) && e !in Drop(b, e) && SameBut(e, b, Drop(b, e))
    ensures Total(Drop(a, e)) + Total(Drop(b, e)) + e.charge == Total(a) + Total(b)
    ensures Tabled(elements, Drop(a, e), Drop(b, e), null)
  {
    Dropped(x, a, e);
    Dropped(y, b, e);
  }

  lemma RingsMore(x: LRUHandle, y: LRUHandle, a: seq<LRUHandle>, b: seq<LRUHandle>, handles: set<LRUHandle>, handles': set<LRUHandle>)
    requires Rings(x, y, a, b, handles) && handles <= handles' && x !in handles' && y !in handles'
    ensures Rings(x, y, a, b, handles')
  {
  }

  /** The table with a new handle, when the one it replaces is still in its ring. */
  lemma PutTabled(elements: map<Id, LRUHandle>, a: seq<LRUHandle>, b: seq<LRUHandle>, e: LRUHandle)
    requires Tabled(elements, a, b, null) && e !in elements.Values && (forall k | k in elements :: elements[k].Name() == k)
    ensures Tabled(elements[e.Name() := e], a, b + [e], if e.Name() in elements then elements[e.Name()] else null)
  {
    ValuesPut(elements, e);
    var x: LRUHandle? := if e.Name() in elements then elements[e.Name()] else null;
    assert x != null ==> x in elements.Values;
  }

  lemma Added(e: LRUHandle, a: seq<LRUHandle>, b: seq<LRUHandle>)
    ensures SameBut(e, a, a) && SameBut(e, b, b + [e]) && e in b + [e]
  {
  }

  lemma FirstOf(x: LRUHandle, a: seq<LRUHandle>)
    requires Ring(x, a) && a != []
    ensures x.next == a[0]
  {
    assert Joined(x, a, -1);
  }

  /** The table without a handle that is still in its ring. */
  lemma TakenTabled(elements: map<Id, LRUHandle>, a: seq<LRUHandle>, b: seq<LRUHandle>, e: LRUHandle)
    requires Tabled(elements, a, b, null) && e in elements.Values && (forall k | k in elements :: elements[k].Name() == k)
    ensures e.Name() in elements && elements[e.Name()] == e && Tabled(elements - {e.Name()}, a, b, e)
  {
    ValuesRemoved(elements, e.Name());
  }

  lemma DropFirst(x: LRUHandle, a: seq<LRUHandle>, b: seq<LRUHandle>)
    requires Distinct(x, a) && a != [] && a[0] !in b
    ensures Drop(a, a[0]) == a[1..] && Drop(b, a[0]) == b
  {
  }

  ghost function NamesOf(s: seq<LRUHandle>): set<Id> {
    set e | e in s :: e.Name()
  }

  lemma NoNames(elements: map<Id, LRUHandle>)
    ensures elements - NamesOf([]) == elements
  {
  }

  lemma EmptyOrNot(x: LRUHandle, y: LRUHandle, a: seq<LRUHandle>, b: seq<LRUHandle>, handles: set<LRUHandle>)
    requires Rings(x, y, a, b, handles)
    ensures x.next == x <==> a == []
  {
    assert Joined(x, a, -1);
  }

  lemma OneMoreName(elements: map<Id, LRUHandle>, s: seq<LRUHandle>, n: nat)
    requires n < |s|
    ensures elements - NamesOf(s[..n]) - {s[n].Name()} == elements - NamesOf(s[..n+1])
  {
    assert s[..n+1] == s[..n] + [s[n]];
  }

  lemma Unheld(handles: set<LRUHandle>, a: seq<LRUHandle>, b: seq<LRUHandle>, held: multiset<LRUHandle>)
    requires AllAccounted(handles, a, b, held) && held == multiset{}
    requires forall e | e in a :: e in handles
    ensures forall e | e in handles && e !in a :: e.deletions == 1
    ensures forall e | e in a :: e.inCache && e.refs == 1 && e.deletions == 0
  {
    forall e | e in handles
      ensures Accounted(e, a, b, held)
    {
    }
  }

  lemma FirstNode(x: LRUHandle, a: seq<LRUHandle>)
    requires Ring(x, a)
    ensures x.next == Node(x, a, 0)
  {
    assert Joined(x, a, -1);
  }

  lemma NextNode(x: LRUHandle, a: seq<LRUHandle>, i: nat)
    requires Ring(x, a) && i <= |a| && Node(x, a, i) != x
    ensures i < |a| && Node(x, a, i) == a[i] && a[i].next == Node(x, a, i + 1)
    ensures forall o :: o in a[i..] <==> o == a[i] || o in a[i+1..]
    ensures a[i] !in a[i+1..]
  {
    assert Joined(x, a, i);
    assert a[i..] == [a[i]] + a[i+1..];
  }

  lemma EndNode(x: LRUHandle, a: seq<LRUHandle>, i: nat)
    requires Distinct(x, a) && i <= |a| && Node(x, a, i) == x
    ensures a[i..] == []
  {
  }

  // ----- the cache

  class LRUCache {
    var capacity: nat
    var usage: nat
    const lru: LRUHandle
    const inUse: LRUHandle
    const table: HandleTable
    ghost var lruList: seq<LRUHandle>
    ghost var inUseList: seq<LRUHandle>
    /** All handles ever made, and those that clients hold. */
    ghost var handles: set<LRUHandle>
    ghost var held: multiset<LRUHandle>

    ghost predicate Inv(x: LRUHandle?)
      reads this, lru, inUse, handles, table, table.list
    {
      && table.elements.Values <= handles
      && table.Valid()
      && Rings(lru, inUse, lruList, inUseList, handles)
      && (forall e | e in held :: e in handles)
      && AllAccounted(handles, lruList, inUseList, held)
      && Tabled(table.elements, lruList, inUseList, x)
      && usage == Total(lruList) + Total(inUseList)
    }

    ghost predicate Valid()
      reads this, lru, inUse, handles, table, table.list
    {
      Inv(null)
    }

    constructor ()
      ensures Valid() && capacity == 0 && lruList == [] && inUseList == [] && handles == {} && held == multiset{}
      ensures table.elements == map[] && fresh(lru) && fresh(inUse) && fresh(table) && fresh(table.list)
    {
      hide Rings, Ring, Tabled, HandleTable.Valid, AllAccounted, Total;
      capacity, usage := 0, 0;
      var l := NewHead();
      var u := NewHead();
      lru, inUse := l, u;
      table := new HandleTable();
      lruList, inUseList, handles, held := [], [], {}, multiset{};
      EmptyCache(l, u);
    }

    method SetCapacity(capacity: nat)
      requires Valid()
      modifies this`capacity
      ensures Valid() && this.capacity == capacity
    {
      hide Rings, Tabled, HandleTable.Valid, AllAccounted, Total;
      this.capacity := capacity;
    }

    /** A handle that only the cache refers to goes from the one ring to the other. */
    method Ref(e: LRUHandle)
      requires Rings(lru, inUse, lruList, inUseList, handles) && e in handles
      requires e.refs == 1 && e.inCache ==> e in lruList
      modifies e`refs, this`lruList, this`inUseList, lru`next, lru`prev, inUse`next, inUse`prev, handles`next, handles`prev
      ensures Rings(lru, inUse, lruList, inUseList, handles) && e.refs == old(e.refs) + 1
      ensures if old(e.refs) == 1 && e.inCache then lruList == Drop(old(lruList), e) && inUseList == old(inUseList) + [e]
              else lruList == old(lruList) && inUseList == old(inUseList)
    {
      hide Rings, Drop;
      if e.refs == 1 && e.inCache {
        Relink(lru, inUse, e, lruList, inUseList, handles);
        lruList, inUseList := Drop(lruList, e), inUseList + [e];
      }
      e.refs := e.refs + 1;
    }

    /** The last reference runs the deleter; the last client's sends the handle back to the other ring. */
    method Unref(e: LRUHandle)
      requires Rings(lru, inUse, lruList, inUseList, handles) && e in handles && e.refs > 0
      requires e.refs == 1 ==> !e.inCache
      requires e.refs == 2 && e.inCache ==> e in inUseList
      modifies e`refs, e`deletions, this`lruList, this`inUseList, lru`next, lru`prev, inUse`next, inUse`prev, handles`next, handles`prev
      ensures Rings(lru, inUse, lruList, inUseList, handles) && e.refs == old(e.refs) - 1
      ensures e.deletions == old(e.deletions) + if e.refs == 0 then 1 else 0
      ensures if e.refs == 1 && e.inCache then lruList == old(lruList) + [e] && inUseList == Drop(old(inUseList), e)
              else lruList == old(lruList) && inUseList == old(inUseList)
    {
      hide Rings, Drop;
      e.refs := e.refs - 1;
      if e.refs == 0 {
        e.deletions := e.deletions + 1;
      } else if e.inCache && e.refs == 1 {
        RingsSwap(lru, inUse, lruList, inUseList, handles);
        Relink(inUse, lru, e, inUseList, lruList, handles);
        lruList, inUseList := lruList + [e], Drop(inUseList, e);
        RingsSwap(inUse, lru, inUseList, lruList, handles);
      }
    }

    method RefHeld(e: LRUHandle)
      requires Valid() && e in table.elements.Values
      modifies this, lru, inUse, handles`next, handles`prev, e`refs
      ensures Valid() && handles == old(handles) && held == old(held) + multiset{e}
      ensures usage == old(usage) && capacity == old(capacity)
      ensures if e in old(lruList) then lruList == Drop(old(lruList), e) && inUseList == old(inUseList) + [e]
              else lruList == old(lruList) && inUseList == old(inUseList)
    {
      hide Rings, Tabled, HandleTable.Valid, AllAccounted, Total, Drop, SameBut;
      ghost var a, b, h := lruList, inUseList, held;
      AccountsSplit(handles, e, a, b, h);
      RingsFacts(lru, inUse, a, b, handles);
      MembersOf(table.elements, a, b, null, e);
      Ref(e);
      held := held + multiset{e};
      MovedOver(lru, table.elements, a, b, e);
      Kept(e, a, b);
      Relisted(handles - {e}, e, a, b, h, lruList, inUseList, held);
      AccountsSplit(handles, e, lruList, inUseList, held);
    }

    /** A client gets a reference to the handle with this name, if there is one. */
    method Lookup(key: Bytes, hash: nat) returns (e: LRUHandle?)
      requires Valid()
      modifies this, lru, inUse, handles
      ensures Valid() && handles == old(handles) && table.elements == old(table.elements) && table.list == old(table.list)
      ensures e == if Id(key, hash) in table.elements then table.elements[Id(key, hash)] else null
      ensures held == if e == null then old(held) else old(held) + multiset{e}
      ensures usage == old(usage) && capacity == old(capacity)
      ensures if e != null && e in old(lruList) then lruList == Drop(old(lruList), e) && inUseList == old(inUseList) + [e]
              else lruList == old(lruList) && inUseList == old(inUseList)
    {
      hide Rings, Tabled, HandleTable.Valid, AllAccounted, Total, Accounted, Drop;
      e := table.Lookup(key, hash);
      if e != null {
        assert e in table.elements.Values;
        RefHeld(e);
      }
    }

    /** A client gives a reference back. */
    method Release(e: LRUHandle)
      requires Valid() && e in held
      modifies this, lru, inUse, handles
      ensures Valid() && handles == old(handles) && held == old(held) - multiset{e}
      ensures table.elements == old(table.elements) && table.list == old(table.list)
      ensures usage == old(usage) && capacity == old(capacity)
      ensures if e.inCache && e.refs == 1 then lruList == old(lruList) + [e] && inUseList == Drop(old(inUseList), e)
              else lruList == old(lruList) && inUseList == old(inUseList)
    {
      hide Rings, Tabled, HandleTable.Valid, AllAccounted, Total, Drop, SameBut;
      ghost var a, b, h := lruList, inUseList, held;
      AccountsSplit(handles, e, a, b, h);
      RingsFacts(lru, inUse, a, b, handles);
      Unref(e);
      held := held - multiset{e};
      MovedBack(inUse, table.elements, a, b, e);
      Kept(e, a, b);
      Relisted(handles - {e}, e, a, b, h, lruList, inUseList, held);
      AccountsSplit(handles, e, lruList, inUseList, held);
    }

    /** Takes a handle out of the ring it is in. */
    method UnlinkEither(e: LRUHandle)
      requires Rings(lru, inUse, lruList, inUseList, handles) && (e in lruList || e in inUseList)
      modifies lru`next, lru`prev, inUse`next, inUse`prev, handles`next, handles`prev
      ensures Rings(lru, inUse, Drop(lruList, e), Drop(inUseList, e), handles)
    {
      hide Rings;
      RingsFacts(lru, inUse, lruList, inUseList, handles);
      RingsSwap(lru, inUse, lruList, inUseList, handles);
      ghost var first := e in lruList;
      ghost var x, y := if first then lru else inUse, if first then inUse else lru;
      ghost var a, b := if first then lruList else inUseList, if first then inUseList else lruList;
      Unlink(x, y, e, a, b, handles);
      RingsSwap(x, y, Drop(a, e), b, handles);
    }

    /** Takes a handle that is out of the table out of its ring and out of the usage. */
    method TakeOff(e: LRUHandle)
      requires Inv(e)
      modifies this, lru, inUse, handles`next, handles`prev, e`inCache
      ensures handles == old(handles) && held == old(held) && capacity == old(capacity)
      ensures lruList == Drop(old(lruList), e) && inUseList == Drop(old(inUseList), e) && usage == old(usage) - e.charge
      ensures e in handles && !e.inCache && e !in lruList && e !in inUseList && e.refs == held[e] + 1 && e.deletions == 0
      ensures table.Valid() && table.elements.Values <= handles && (forall o | o in held :: o in handles)
      ensures Rings(lru, inUse, lruList, inUseList, handles) && Tabled(table.elements, lruList, inUseList, null)
      ensures AllAccounted(handles - {e}, lruList, inUseList, held) && usage == Total(lruList) + Total(inUseList)
    {
      hide Rings, Tabled, HandleTable.Valid, AllAccounted, Total, Drop, SameBut;
      ghost var a, b := lruList, inUseList;
      RingsFacts(lru, inUse, a, b, handles);
      ErasedOf(lru, inUse, table.elements, a, b, e);
      AccountsSplit(handles, e, a, b, held);
      UnlinkEither(e);
      lruList, inUseList := Drop(a, e), Drop(b, e);
      e.inCache := false;
      usage := usage - e.charge;
      Relisted(handles - {e}, e, a, b, held, lruList, inUseList, held);
    }

    method EraseHandle(e: LRUHandle)
      requires Inv(e)
      modifies this, lru, inUse, handles`next, handles`prev, e`refs, e`deletions, e`inCache
      ensures Valid() && handles == old(handles) && held == old(held) && capacity == old(capacity)
      ensures lruList == Drop(old(lruList), e) && inUseList == Drop(old(inUseList), e) && usage == old(usage) - e.charge
    {
      hide Rings, Tabled, HandleTable.Valid, AllAccounted, Total, Drop;
      TakeOff(e);
      Unref(e);
      AccountsSplit(handles, e, lruList, inUseList, held);
    }

    /** Finishes taking out of the cache a handle that is out of the table already. */
    method FinishErase(e: LRUHandle?) returns (erased: bool)
      requires Inv(e)
      modifies this, lru, inUse, handles
      ensures Valid() && handles == old(handles) && held == old(held) && capacity == old(capacity)
      ensures erased <==> e != null
      ensures e == null ==> lruList == old(lruList) && inUseList == old(inUseList) && usage == old(usage)
      ensures e != null ==> lruList == Drop(old(lruList), e) && inUseList == Drop(old(inUseList), e) && usage == old(usage) - e.charge
    {
      if e == null {
        return false;
      }
      EraseHandle(e);
      return true;
    }

    /** A handle for a client, not in the cache. */
    method NewHandle(key: Bytes, hash: nat, charge: nat) returns (e: LRUHandle)
      requires Valid()
      modifies this
      ensures Valid() && fresh(e) && e.key == key && e.hash == hash && e.charge == charge
      ensures handles == old(handles) + {e} && held == old(held) + multiset{e} && held[e] == 1 && !e.inCache
      ensures lruList == old(lruList) && inUseList == old(inUseList) && usage == old(usage) && capacity == old(capacity)
    {
      hide Rings, Tabled, HandleTable.Valid, AllAccounted, Total, SameBut;
      ghost var a, b, h := lruList, inUseList, held;
      RingsFacts(lru, inUse, a, b, handles);
      e := new LRUHandle(key, hash, charge);
      handles := handles + {e};
      held := held + multiset{e};
      Kept(e, a, b);
      RingsMore(lru, inUse, a, b, old(handles), handles);
      Relisted(old(handles), e, a, b, h, a, b, held);
      assert handles - {e} == old(handles);
      AccountsSplit(handles, e, a, b, held);
    }

    /** The reference of the cache; the table does not have the handle yet. */
    method JoinInUse(e: LRUHandle)
      requires Valid() && e in handles && held[e] == 1 && !e.inCache
      modifies this, lru, inUse, handles`next, handles`prev, e`refs, e`inCache
      ensures handles == old(handles) && held == old(held) && capacity == old(capacity)
      ensures lruList == old(lruList) && inUseList == old(inUseList) + [e] && e !in table.elements.Values
      ensures Rings(lru, inUse, lruList, inUseList, handles) && AllAccounted(handles, lruList, inUseList, held)
      ensures table.Valid() && usage == Total(lruList) + Total(inUseList)
    {
      hide Rings, Tabled, HandleTable.Valid, AllAccounted, Total, SameBut;
      ghost var a, b := lruList, inUseList;
      RingsFacts(lru, inUse, a, b, handles);
      AccountsSplit(handles, e, a, b, held);
      MembersOf(table.elements, a, b, null, e);
      RingsSwap(lru, inUse, a, b, handles);
      e.refs := e.refs + 1;
      e.inCache := true;
      Link(inUse, lru, e, b, a, handles);
      RingsSwap(inUse, lru, b + [e], a, handles);
      inUseList := b + [e];
      usage := usage + e.charge;
      TotalWith(b, e);
      Added(e, a, b);
      Relisted(handles - {e}, e, a, b, held, a, inUseList, held);
      AccountsSplit(handles, e, a, inUseList, held);
    }

    /** Puts a client's handle in the cache, in place of the one that had its name. */
    method AddToCache(e: LRUHandle)
      requires Valid() && e in handles && held[e] == 1 && !e.inCache
      modifies this, lru, inUse, handles, table, table.list
      ensures Valid() && handles == old(handles) && held == old(held) && capacity == old(capacity)
      ensures table.list == old(table.list) || fresh(table.list)
      ensures table.elements == old(table.elements)[e.Name() := e]
      ensures var name := e.Name();
        if name in old(table.elements) then
          var x := old(table.elements)[name];
          lruList == Drop(old(lruList), x) && inUseList == Drop(old(inUseList) + [e], x)
        else lruList == old(lruList) && inUseList == old(inUseList) + [e]
    {
      hide Rings, Tabled, HandleTable.Valid, AllAccounted, Accounted, Total, Drop;
      ghost var a, b, elements := lruList, inUseList, table.elements;
      JoinInUse(e);
      table.Names();
      PutTabled(elements, a, b, e);
      var found := table.Insert(e);
      var erased := FinishErase(found);
    }

    /** Takes the oldest handle that only the cache refers to out of the cache. */
    method EvictOldest()
      requires Valid() && lruList != []
      modifies this, lru, inUse, handles, table, table.list
      ensures Valid() && handles == old(handles) && held == old(held) && capacity == old(capacity)
      ensures table.list == old(table.list) && table.elements == old(table.elements) - {old(lruList)[0].Name()}
      ensures lruList == old(lruList)[1..] && inUseList == old(inUseList) && usage == old(usage) - old(lruList)[0].charge
    {
      hide Rings, Tabled, HandleTable.Valid, AllAccounted, Total, Drop;
      ghost var a, b, elements := lruList, inUseList, table.elements;
      RingsFacts(lru, inUse, a, b, handles);
      table.Names();
      FirstOf(lru, a);
      var oldest := lru.next;
      MembersOf(elements, a, b, null, oldest);
      TakenTabled(elements, a, b, oldest);
      DropFirst(lru, a, b);
      var found := table.Remove(oldest.key, oldest.hash);
      var erased := FinishErase(found);
      if !erased {
        assert false;
      }
    }

    /** Evicts while the cache is too full and anything can be evicted, the oldest first. */
    method EvictWhileFull() returns (ghost n: nat)
      requires Valid()
      modifies this, lru, inUse, handles, table, table.list
      ensures Valid() && handles == old(handles) && held == old(held) && capacity == old(capacity) && table.list == old(table.list)
      ensures usage <= capacity || lruList == []
      ensures n <= |old(lruList)| && lruList == old(lruList)[n..] && inUseList == old(inUseList)
      ensures n > 0 ==> usage + old(lruList)[n-1].charge > capacity
      ensures table.elements == old(table.elements) - NamesOf(old(lruList)[..n])
    {
      hide Rings, Tabled, HandleTable.Valid, AllAccounted, Total, Drop, NamesOf;
      ghost var start, elements := lruList, table.elements;
      NoNames(elements);
      assert start[..0] == [];
      n := 0;
      EmptyOrNot(lru, inUse, lruList, inUseList, handles);
      while usage > capacity && lru.next != lru
        invariant Valid() && handles == old(handles) && held == old(held) && capacity == old(capacity) && table.list == old(table.list)
        invariant n <= |start| && lruList == start[n..] && inUseList == old(inUseList)
        invariant n > 0 ==> usage + start[n-1].charge > capacity
        invariant table.elements == elements - NamesOf(start[..n])
        invariant lru.next == lru <==> lruList == []
        decreases |start| - n
      {
        assert lruList[0] == start[n];
        EvictOldest();
        OneMoreName(elements, start, n);
        n := n + 1;
        EmptyOrNot(lru, inUse, lruList, inUseList, handles);
      }
    }

    /** Puts a value in the cache and gives the client a reference to it; a capacity of nothing
        turns the cache off. */
    method Insert(key: Bytes, hash: nat, charge: nat) returns (e: LRUHandle, ghost n: nat)
      requires Valid()
      modifies this, lru, inUse, handles, table, table.list
      ensures Valid() && fresh(e) && e.key == key && e.hash == hash && e.charge == charge
      ensures handles == old(handles) + {e} && held == old(held) + multiset{e} && capacity == old(capacity)
      ensures usage <= capacity || lruList == []
      ensures var name := Id(key, hash);
        var replaced := if capacity > 0 && name in old(table.elements) then Some(old(table.elements)[name]) else None;
        var a := if replaced.Some? then Drop(old(lruList), replaced.value) else old(lruList);
        var b := if capacity > 0 then old(inUseList) + [e] else old(inUseList);
        && n <= |a| && lruList == a[n..] && inUseList == (if replaced.Some? then Drop(b, replaced.value) else b)
        && (n > 0 ==> usage + a[n-1].charge > capacity)
        && table.elements == (if capacity > 0 then old(table.elements)[name := e] else old(table.elements)) - NamesOf(a[..n])
    {
      hide Rings, Tabled, HandleTable.Valid, AllAccounted, Total, Drop, NamesOf;
      e := NewHandle(key, hash, charge);
      if capacity > 0 {
        AddToCache(e);
      }
      n := EvictWhileFull();
    }

    method Erase(key: Bytes, hash: nat)
      requires Valid()
      modifies this, lru, inUse, handles, table, table.list
      ensures Valid() && handles == old(handles) && held == old(held) && capacity == old(capacity)
      ensures table.elements == old(table.elements) - {Id(key, hash)} && table.list == old(table.list)
      ensures if Id(key, hash) in old(table.elements) then
                var x := old(table.elements)[Id(key, hash)];
                lruList == Drop(old(lruList), x) && inUseList == Drop(old(inUseList), x) && usage == old(usage) - x.charge
              else lruList == old(lruList) && inUseList == old(inUseList) && usage == old(usage)
    {
      hide Rings, Tabled, HandleTable.Valid, AllAccounted, Total, Drop;
      ghost var a, b, elements := lruList, inUseList, table.elements;
      table.Names();
      if Id(key, hash) in elements {
        TakenTabled(elements, a, b, elements[Id(key, hash)]);
      } else {
        assert elements - {Id(key, hash)} == elements;
      }
      var found := table.Remove(key, hash);
      var erased := FinishErase(found);
    }

    /** Evicts every handle that only the cache refers to. */
    method Prune()
      requires Valid()
      modifies this, lru, inUse, handles, table, table.list
      ensures Valid() && handles == old(handles) && held == old(held) && capacity == old(capacity) && table.list == old(table.list)
      ensures lruList == [] && inUseList == old(inUseList)
    {
      hide Rings, Tabled, HandleTable.Valid, AllAccounted, Total, Drop;
      EmptyOrNot(lru, inUse, lruList, inUseList, handles);
      while lru.next != lru
        invariant Valid() && handles == old(handles) && held == old(held) && capacity == old(capacity) && table.list == old(table.list)
        invariant inUseList == old(inUseList)
        invariant lru.next == lru <==> lruList == []
        decreases |lruList|
      {
        EvictOldest();
        EmptyOrNot(lru, inUse, lruList, inUseList, handles);
      }
    }

    /** The end of the cache, when no client holds a handle: every handle is then deleted. */
    method Destroy()
      requires Valid() && held == multiset{}
      modifies this, lru, inUse, handles
      ensures forall e | e in old(handles) :: e.deletions == 1
    {
      hide Rings, Tabled, HandleTable.Valid, Total, Drop, Ring, Accounted;
      ghost var a := lruList;
      RingsFacts(lru, inUse, a, inUseList, handles);
      Unheld(handles, a, inUseList, held);
      FirstNode(lru, a);
      hide AllAccounted;
      var e := lru.next;
      ghost var i := 0;
      while e != lru
        invariant handles == old(handles) && lruList == a && Rings(lru, inUse, a, inUseList, handles)
        invariant i <= |a| && e == Node(lru, a, i)
        invariant forall o | o in handles && o !in a[i..] :: o.deletions == 1
        invariant forall o | o in a[i..] :: o.inCache && o.refs == 1 && o.deletions == 0
        decreases |a| - i
      {
        RingsFacts(lru, inUse, a, inUseList, handles);
        NextNode(lru, a, i);
        var next := e.next;
        e.inCache := false;
        Unref(e);
        RingsFacts(lru, inUse, a, inUseList, handles);
        e := next;
        i := i + 1;
      }
      EndNode(lru, a, i);
    }
  }
}
