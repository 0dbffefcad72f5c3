/** The hash table of the cache: buckets of handles linked through a field of theirs. */
module HandleTables {
  import opened Coding

  datatype Id = Id(key: Bytes, hash: nat)

  class LRUHandle {
    const key: Bytes
    const hash: nat
    const charge: nat
    var nextHash: LRUHandle?
    var next: LRUHandle?
    var prev: LRUHandle?
    var inCache: bool
    var refs: nat
    /** How many times the deleter has been run. */
    ghost var deletions: nat

    constructor (key: Bytes, hash: nat, charge: nat)
      ensures this.key == key && this.hash == hash && this.charge == charge
      ensures !inCache && refs == 1 && deletions == 0 && nextHash == null
    {
      this.key := key;
      this.hash := hash;
      this.charge := charge;
      nextHash, next, prev := null, null, null;
      inCache := false;
      refs := 1;
      deletions := 0;
    }

    function Name(): Id {
      Id(key, hash)
    }
  }

  // ----- picking a bucket

  predicate PowerOfTwo(n: nat) {
    n == 1 || (n > 1 && n % 2 == 0 && PowerOfTwo(n / 2))
  }

  function BitAnd(a: nat, b: nat): nat {
    if a == 0 || b == 0 then 0 else 2 * BitAnd(a / 2, b / 2) + (a % 2) * (b % 2)
  }

  lemma NoMultipleBetween(m: nat, d: int)
    ensures d > 0 ==> m * d >= m
    ensures d < 0 ==> m * d + m <= 0
  {
    if d > 0 {
      assert m * (d - 1) >= 0;
    } else if d < 0 {
      assert m * (-d - 1) >= 0;
    }
  }

  lemma RemainderIs(a: nat, m: nat, q: nat, r: nat)
    requires r < m && a == m * q + r
    ensures a % m == r
  {
    var d := a / m - q;
    assert m * d == r - a % m;
    NoMultipleBetween(m, d);
  }

  lemma RemainderOfTwice(a: nat, m: nat)
    requires m > 0
    ensures a % (2 * m) == 2 * ((a / 2) % m) + a % 2
  {
    var q, r := (a / 2) / m, (a / 2) % m;
    assert a == (2 * m) * q + (2 * r + a % 2);
    RemainderIs(a, 2 * m, q, 2 * r + a % 2);
  }

  /** Masking with one less than a power of two takes the remainder. */
  lemma {:induction false} MaskIsRemainder(hash: nat, length: nat)
    requires PowerOfTwo(length)
    ensures BitAnd(hash, length - 1) == hash % length
  {
    if length > 1 {
      MaskIsRemainder(hash / 2, length / 2);
      RemainderOfTwice(hash, length / 2);
    }
  }

  type Chain = seq<LRUHandle>

  // ----- chains

  function Entry(c: Chain, i: nat): LRUHandle? {
    if i < |c| then c[i] else null
  }

  ghost predicate Linked(c: Chain, nodes: set<LRUHandle>)
    reads nodes`nextHash
  {
    forall i: nat | i < |c| :: c[i] in nodes && c[i].nextHash == Entry(c, i + 1)
  }

  ghost predicate Buckets(list: array<LRUHandle?>, chains: seq<Chain>, nodes: set<LRUHandle>)
    reads list, nodes`nextHash
  {
    && list.Length == |chains|
    && forall b: nat | b < |chains| :: list[b] == Entry(chains[b], 0) && Linked(chains[b], nodes)
  }

  ghost predicate Placed(chains: seq<Chain>, elements: map<Id, LRUHandle>, b: nat, h: LRUHandle)
    requires |chains| > 0
  {
    h.hash % |chains| == b && h.Name() in elements && elements[h.Name()] == h
  }

  /** Every handle is in the bucket of its hash, and is the element of its name. */
  ghost predicate Sorted(chains: seq<Chain>, elements: map<Id, LRUHandle>) {
    && |chains| > 0
    && (forall b: nat, i: nat | b < |chains| && i < |chains[b]| :: Placed(chains, elements, b, chains[b][i]))
    && forall b: nat, i: nat, j: nat | b < |chains| && i < j < |chains[b]| :: chains[b][i] != chains[b][j]
  }

  /** Every element is in its bucket. */
  ghost predicate AllIn(chains: seq<Chain>, elements: map<Id, LRUHandle>)
    requires |chains| > 0
  {
    forall k | k in elements :: elements[k].Name() == k && elements[k] in chains[k.hash % |chains|]
  }

  lemma HasBuckets(chains: seq<Chain>, elements: map<Id, LRUHandle>)
    requires Sorted(chains, elements)
    ensures |chains| > 0
  {
  }

  lemma BucketLinked(list: array<LRUHandle?>, chains: seq<Chain>, nodes: set<LRUHandle>, b: nat)
    requires Buckets(list, chains, nodes) && b < |chains|
    ensures list.Length == |chains| && list[b] == Entry(chains[b], 0) && Linked(chains[b], nodes)
  {
  }

  /** The first handle of its bucket with a name is the element of that name. */
  lemma NameAt(chains: seq<Chain>, elements: map<Id, LRUHandle>, name: Id, i: nat)
    requires Sorted(chains, elements) && AllIn(chains, elements)
    requires var c := chains[name.hash % |chains|];
      i <= |c| && (i < |c| ==> c[i].Name() == name) && forall j: nat | j < i :: c[j].Name() != name
    ensures var c := chains[name.hash % |chains|];
      && (i < |c| <==> name in elements)
      && (i < |c| ==> elements[name] == c[i])
  {
    var c := chains[name.hash % |chains|];
    if i < |c| {
      assert Placed(chains, elements, name.hash % |chains|, c[i]);
    }
    assert name in elements ==> elements[name] in c && elements[name].Name() == name;
  }

  // ----- putting a handle in its bucket

  /** The chain with h in place of its handle at i, or at its end. */
  ghost function Put(c: Chain, i: nat, h: LRUHandle): (r: Chain)
    requires i <= |c|
    ensures |r| == if i < |c| then |c| else |c| + 1
    ensures forall j: nat | j < |r| :: r[j] == if j == i then h else c[j]
  {
    if i < |c| then c[i := h] else c + [h]
  }

  /** The handles of the buckets are all different, and a hash tells the bucket. */
  ghost predicate Apart(chains: seq<Chain>, nodes: set<LRUHandle>) {
    && |chains| > 0
    && (forall b: nat, i: nat | b < |chains| && i < |chains[b]| :: chains[b][i] in nodes && chains[b][i].hash % |chains| == b)
    && forall b: nat, i: nat, j: nat | b < |chains| && i < j < |chains[b]| :: chains[b][i] != chains[b][j]
  }

  lemma NodesApart(chains: seq<Chain>, elements: map<Id, LRUHandle>)
    requires Sorted(chains, elements)
    ensures Apart(chains, elements.Values)
  {
    forall b: nat, i: nat | b < |chains| && i < |chains[b]|
      ensures chains[b][i] in elements.Values && chains[b][i].hash % |chains| == b
    {
      assert Placed(chains, elements, b, chains[b][i]);
    }
  }

  /** Only the handle that is replaced has the name of the new one. */
  lemma OtherName(chains: seq<Chain>, elements: map<Id, LRUHandle>, h: LRUHandle, i: nat, d: nat, j: nat)
    requires Sorted(chains, elements) && d < |chains| && j < |chains[d]|
    requires i <= |chains[h.hash % |chains|]|
    requires Entry(chains[h.hash % |chains|], i) == if h.Name() in elements then elements[h.Name()] else null
    requires d != h.hash % |chains| || j != i
    ensures chains[d][j].Name() != h.Name()
  {
    assert Placed(chains, elements, d, chains[d][j]);
  }

  lemma PutPlaced(chains: seq<Chain>, elements: map<Id, LRUHandle>, h: LRUHandle, i: nat)
    requires Sorted(chains, elements) && h !in elements.Values
    requires i <= |chains[h.hash % |chains|]|
    requires Entry(chains[h.hash % |chains|], i) == if h.Name() in elements then elements[h.Name()] else null
    ensures var b := h.hash % |chains|; Sorted(chains[b := Put(chains[b], i, h)], elements[h.Name() := h])
  {
    hide Put;
    var b, name := h.hash % |chains|, h.Name();
    var chains', elements' := chains[b := Put(chains[b], i, h)], elements[name := h];
    NodesApart(chains, elements);
    forall d: nat, j: nat | d < |chains'| && j < |chains'[d]|
      ensures Placed(chains', elements', d, chains'[d][j])
    {
      if d != b || j != i {
        assert Placed(chains, elements, d, chains[d][j]);
        OtherName(chains, elements, h, i, d, j);
      }
    }
  }

  lemma PutAllIn(chains: seq<Chain>, elements: map<Id, LRUHandle>, h: LRUHandle, i: nat)
    requires Sorted(chains, elements) && AllIn(chains, elements) && h !in elements.Values
    requires i <= |chains[h.hash % |chains|]|
    requires Entry(chains[h.hash % |chains|], i) == if h.Name() in elements then elements[h.Name()] else null
    ensures var b := h.hash % |chains|; AllIn(chains[b := Put(chains[b], i, h)], elements[h.Name() := h])
  {
    hide Put, Placed;
    var b, name := h.hash % |chains|, h.Name();
    var chains', elements' := chains[b := Put(chains[b], i, h)], elements[name := h];
    forall k | k in elements'
      ensures elements'[k].Name() == k && elements'[k] in chains'[k.hash % |chains'|]
    {
      var d := k.hash % |chains|;
      if k != name {
        var j :| 0 <= j < |chains[d]| && chains[d][j] == elements[k];
        assert chains'[d][j] == elements[k];
      } else {
        assert chains'[d][i] == h;
      }
    }
  }

  lemma PutSorted(chains: seq<Chain>, elements: map<Id, LRUHandle>, h: LRUHandle, i: nat)
    requires Sorted(chains, elements) && AllIn(chains, elements) && h !in elements.Values
    requires i <= |chains[h.hash % |chains|]|
    requires Entry(chains[h.hash % |chains|], i) == if h.Name() in elements then elements[h.Name()] else null
    ensures var b := h.hash % |chains|;
      var chains' := chains[b := Put(chains[b], i, h)];
      Sorted(chains', elements[h.Name() := h]) && AllIn(chains', elements[h.Name() := h])
  {
    hide Put, Sorted, AllIn, Placed;
    PutPlaced(chains, elements, h, i);
    PutAllIn(chains, elements, h, i);
  }

  lemma OneMore(elements: map<Id, LRUHandle>, h: LRUHandle)
    ensures |elements[h.Name() := h]| == if h.Name() in elements then |elements| else |elements| + 1
    ensures elements[h.Name() := h].Values <= elements.Values + {h}
  {
  }

  /** All buckets but b. */
  ghost predicate OthersLinked(list: array<LRUHandle?>, chains: seq<Chain>, nodes: set<LRUHandle>, b: nat)
    reads list, nodes`nextHash
  {
    && list.Length == |chains|
    && forall d: nat | d < |chains| && d != b :: list[d] == Entry(chains[d], 0) && Linked(chains[d], nodes)
  }

  lemma BucketsBut(list: array<LRUHandle?>, chains: seq<Chain>, nodes: set<LRUHandle>, b: nat)
    requires b < |chains|
    ensures Buckets(list, chains, nodes) ==> list.Length == |chains|
    ensures Buckets(list, chains, nodes) <==>
      OthersLinked(list, chains, nodes, b) && list[b] == Entry(chains[b], 0) && Linked(chains[b], nodes)
  {
    hide Linked;
  }

  /** Makes the handle before, or else the bucket, point to p. */
  method Point(list: array<LRUHandle?>, b: nat, before: LRUHandle?, p: LRUHandle?, ghost chains: seq<Chain>, ghost nodes: set<LRUHandle>)
    requires OthersLinked(list, chains, nodes, b) && b < |chains|
    requires before != null ==> before in nodes && forall d: nat, i: nat | d < |chains| && d != b && i < |chains[d]| :: chains[d][i] != before
    modifies list, nodes`nextHash
    ensures OthersLinked(list, chains, nodes, b)
    ensures if before == null then list[b] == p else list[b] == old(list[b]) && before.nextHash == p
    ensures forall e | e in nodes && e != before :: e.nextHash == old(e.nextHash)
  {
    if before == null {
      list[b] := p;
    } else {
      before.nextHash := p;
    }
    forall d: nat | d < |chains| && d != b
      ensures list[d] == Entry(chains[d], 0) && Linked(chains[d], nodes)
    {
      assert old(Linked(chains[d], nodes));
    }
  }

  lemma OthersAmong(list: array<LRUHandle?>, chains: seq<Chain>, nodes: set<LRUHandle>, nodes': set<LRUHandle>, b: nat)
    requires OthersLinked(list, chains, nodes, b) && nodes <= nodes'
    ensures OthersLinked(list, chains, nodes', b)
  {
  }

  lemma OtherChain(list: array<LRUHandle?>, chains: seq<Chain>, nodes: set<LRUHandle>, b: nat, c': Chain)
    requires b < |chains| && OthersLinked(list, chains, nodes, b) && list[b] == Entry(c', 0) && Linked(c', nodes)
    ensures Buckets(list, chains[b := c'], nodes)
  {
    hide Linked;
  }

  /** Stores h where the handle found, or the end of the bucket, was pointed to. */
  method LinkIn(list: array<LRUHandle?>, ghost chains: seq<Chain>, ghost nodes: set<LRUHandle>, h: LRUHandle,
                before: LRUHandle?, found: LRUHandle?, ghost b: nat, ghost i: nat)
    requires list.Length == |chains| && Buckets(list, chains, nodes)
    requires Apart(chains, nodes) && h !in nodes && b == h.hash % |chains|
    requires i <= |chains[b]| && before == (if i == 0 then null else chains[b][i-1]) && found == Entry(chains[b], i)
    modifies list, nodes`nextHash, h`nextHash
    ensures Buckets(list, chains[b := Put(chains[b], i, h)], nodes + {h})
  {
    hide OthersLinked, Put, Buckets;
    ghost var c := chains[b];
    BucketsBut(list, chains, nodes, b);
    h.nextHash := if found == null then null else found.nextHash;
    Point(list, h.hash % list.Length, before, h, chains, nodes);
    ghost var c' := Put(c, i, h);
    assert Linked(c', nodes + {h});
    OthersAmong(list, chains, nodes, nodes + {h}, b);
    OtherChain(list, chains, nodes + {h}, b, c');
  }

  lemma BucketsAmong(list: array<LRUHandle?>, chains: seq<Chain>, nodes: set<LRUHandle>, nodes': set<LRUHandle>)
    requires Buckets(list, chains, nodes)
    requires Apart(chains, nodes')
    ensures Buckets(list, chains, nodes')
  {
    forall b: nat | b < |chains|
      ensures Linked(chains[b], nodes')
    {
      assert Linked(chains[b], nodes);
    }
  }

  // ----- moving to more buckets

  /** The handles moved so far are in the new buckets, and those of rest and of the old buckets
      from b on are still to be moved. */
  ghost predicate Moving(newChains: seq<Chain>, chains: seq<Chain>, elements: map<Id, LRUHandle>, b: nat, rest: Chain, moved: set<LRUHandle>) {
    && Sorted(newChains, elements)
    && (forall d: nat, i: nat | d < |newChains| && i < |newChains[d]| :: newChains[d][i] in moved)
    && (forall k | k in elements && elements[k] in moved :: elements[k] in newChains[k.hash % |newChains|])
    && (forall i: nat, j: nat | i < j < |rest| :: rest[i] != rest[j])
    && (forall i: nat | i < |rest| :: rest[i] in elements.Values && rest[i] !in moved)
    && (forall d: nat, i: nat | b <= d < |chains| && i < |chains[d]| :: chains[d][i] !in moved && chains[d][i] !in rest)
    && forall k | k in elements :: elements[k] in moved || elements[k] in rest || (|chains| > 0 && k.hash % |chains| >= b)
  }

  lemma NothingMoved(newChains: seq<Chain>, chains: seq<Chain>, elements: map<Id, LRUHandle>)
    requires |newChains| > 0 && (forall d: nat | d < |newChains| :: newChains[d] == [])
    requires Sorted(chains, elements)
    ensures Moving(newChains, chains, elements, 0, [], {})
  {
  }

  lemma NothingLinked(nodes: set<LRUHandle>)
    ensures Linked([], nodes)
  {
  }

  /** The old buckets from b on are as they were. */
  ghost predicate Remaining(list: array<LRUHandle?>, chains: seq<Chain>, nodes: set<LRUHandle>, b: nat)
    reads list, nodes`nextHash
  {
    && list.Length == |chains|
    && forall d: nat | b <= d < |chains| :: list[d] == Entry(chains[d], 0) && Linked(chains[d], nodes)
  }

  lemma BucketMoved(newChains: seq<Chain>, chains: seq<Chain>, elements: map<Id, LRUHandle>, b: nat, moved: set<LRUHandle>)
    requires Moving(newChains, chains, elements, b, [], moved) && b < |chains|
    requires Sorted(chains, elements) && AllIn(chains, elements)
    ensures Moving(newChains, chains, elements, b + 1, chains[b], moved)
  {
    NodesApart(chains, elements);
  }

  lemma RemainingAt(list: array<LRUHandle?>, chains: seq<Chain>, nodes: set<LRUHandle>, b: nat)
    requires Remaining(list, chains, nodes, b) && b < |chains|
    ensures list[b] == Entry(chains[b], 0) && Linked(chains[b], nodes) && Remaining(list, chains, nodes, b + 1)
  {
  }

  lemma NotMovedYet(newChains: seq<Chain>, chains: seq<Chain>, elements: map<Id, LRUHandle>, b: nat, rest: Chain, moved: set<LRUHandle>)
    requires Moving(newChains, chains, elements, b, rest, moved) && rest != []
    ensures |newChains| > 0 && rest[0] in elements.Values && rest[0] !in rest[1..]
    ensures forall d: nat, i: nat | d < |newChains| && i < |newChains[d]| :: newChains[d][i] != rest[0]
    ensures forall d: nat, i: nat | b <= d < |chains| && i < |chains[d]| :: chains[d][i] != rest[0]
  {
  }

  /** Stores h in front of its new bucket. */
  method MoveHandle(newList: array<LRUHandle?>, ghost chains: seq<Chain>, ghost nodes: set<LRUHandle>, h: LRUHandle)
    requires newList.Length == |chains| && PowerOfTwo(|chains|) && Buckets(newList, chains, nodes) && h in nodes
    requires forall b: nat, i: nat | b < |chains| && i < |chains[b]| :: chains[b][i] != h
    modifies newList, nodes`nextHash
    ensures var b := h.hash % |chains|; Buckets(newList, chains[b := [h] + chains[b]], nodes)
    ensures forall e | e in nodes && e != h :: e.nextHash == old(e.nextHash)
    ensures h.nextHash == old(newList[h.hash % |chains|])
  {
    hide OthersLinked, Buckets;
    MaskIsRemainder(h.hash, newList.Length);
    var b := BitAnd(h.hash, newList.Length - 1);
    BucketsBut(newList, chains, nodes, b);
    Point(newList, b, h, newList[b], chains, nodes);
    Point(newList, b, null, h, chains, nodes);
    ghost var c' := [h] + chains[b];
    assert Linked(c', nodes);
    OtherChain(newList, chains, nodes, b, c');
  }

  lemma OneMoved(newChains: seq<Chain>, chains: seq<Chain>, elements: map<Id, LRUHandle>, b: nat, rest: Chain, moved: set<LRUHandle>)
    requires Moving(newChains, chains, elements, b, rest, moved) && rest != []
    requires Sorted(chains, elements) && AllIn(chains, elements)
    ensures var h := rest[0];
      var d := h.hash % |newChains|;
      Moving(newChains[d := [h] + newChains[d]], chains, elements, b, rest[1..], moved + {h})
  {
  }

  /** Moves the handles of one bucket, front first. */
  method MoveBucket(list: array<LRUHandle?>, newList: array<LRUHandle?>, first: LRUHandle?, ghost newChains: seq<Chain>, ghost chains: seq<Chain>,
                    ghost elements: map<Id, LRUHandle>, ghost b: nat, ghost moved: set<LRUHandle>)
    returns (ghost newChains': seq<Chain>, ghost moved': set<LRUHandle>)
    requires list != newList && Sorted(chains, elements) && AllIn(chains, elements) && b < |chains| && first == Entry(chains[b], 0)
    requires |newChains| == newList.Length && PowerOfTwo(newList.Length) && Buckets(newList, newChains, elements.Values)
    requires Remaining(list, chains, elements.Values, b)
    requires Moving(newChains, chains, elements, b + 1, chains[b], moved)
    modifies newList, elements.Values`nextHash
    ensures Buckets(newList, newChains', elements.Values) && Remaining(list, chains, elements.Values, b + 1)
    ensures |newChains'| == |newChains| && Moving(newChains', chains, elements, b + 1, [], moved')
  {
    hide Sorted, AllIn, Moving, Buckets;
    ghost var nodes := elements.Values;
    newChains', moved' := newChains, moved;
    var h := first;
    ghost var rest := chains[b];
    RemainingAt(list, chains, nodes, b);
    while h != null
      invariant |newChains'| == newList.Length && h == Entry(rest, 0) && Linked(rest, nodes)
      invariant Buckets(newList, newChains', nodes) && Remaining(list, chains, nodes, b + 1)
      invariant Moving(newChains', chains, elements, b + 1, rest, moved')
      decreases |rest|
    {
      var next := h.nextHash;
      NotMovedYet(newChains', chains, elements, b + 1, rest, moved');
      MoveHandle(newList, newChains', nodes, h);
      OneMoved(newChains', chains, elements, b + 1, rest, moved');
      ghost var d := h.hash % |newChains'|;
      newChains' := newChains'[d := [h] + newChains'[d]];
      moved' := moved' + {h};
      rest := rest[1..];
      h := next;
    }
  }

  lemma AllMoved(newChains: seq<Chain>, chains: seq<Chain>, elements: map<Id, LRUHandle>, moved: set<LRUHandle>)
    requires |chains| > 0 && Moving(newChains, chains, elements, |chains|, [], moved)
    requires AllIn(chains, elements)
    ensures Sorted(newChains, elements) && AllIn(newChains, elements)
  {
  }

  method MoveAll(list: array<LRUHandle?>, newList: array<LRUHandle?>, ghost chains: seq<Chain>, ghost elements: map<Id, LRUHandle>)
    returns (ghost newChains: seq<Chain>)
    requires list != newList && |chains| > 0 && Sorted(chains, elements) && AllIn(chains, elements) && Buckets(list, chains, elements.Values)
    requires PowerOfTwo(newList.Length) && forall d: nat | d < newList.Length :: newList[d] == null
    modifies newList, elements.Values`nextHash
    ensures |newChains| == newList.Length
    ensures Buckets(newList, newChains, elements.Values) && Sorted(newChains, elements) && AllIn(newChains, elements)
  {
    hide Sorted, AllIn, Moving, Linked;
    newChains := seq(newList.Length, _ => []);
    ghost var moved: set<LRUHandle> := {};
    NothingMoved(newChains, chains, elements);
    NothingLinked(elements.Values);
    for i := 0 to list.Length
      invariant |newChains| == newList.Length
      invariant Buckets(newList, newChains, elements.Values) && Remaining(list, chains, elements.Values, i)
      invariant Moving(newChains, chains, elements, i, [], moved)
    {
      BucketMoved(newChains, chains, elements, i, moved);
      newChains, moved := MoveBucket(list, newList, list[i], newChains, chains, elements, i, moved);
    }
    AllMoved(newChains, chains, elements, moved);
  }

  // ----- taking a handle out

  lemma NameOf(chains: seq<Chain>, elements: map<Id, LRUHandle>, name: Id)
    requires |chains| > 0 && AllIn(chains, elements) && name in elements
    ensures elements[name].Name() == name
  {
  }

  /** The chain without its handle at i. */
  ghost function Take(c: Chain, i: nat): (r: Chain)
    requires i < |c|
    ensures |r| == |c| - 1
    ensures forall j: nat | j < |r| :: r[j] == c[if j < i then j else j + 1]
  {
    c[..i] + c[i+1..]
  }

  lemma TakeSorted(chains: seq<Chain>, elements: map<Id, LRUHandle>, name: Id, i: nat)
    requires Sorted(chains, elements) && AllIn(chains, elements) && name in elements
    requires i < |chains[name.hash % |chains|]| && chains[name.hash % |chains|][i] == elements[name]
    ensures var b := name.hash % |chains|;
      var chains' := chains[b := Take(chains[b], i)];
      Sorted(chains', elements - {name}) && AllIn(chains', elements - {name})
  {
    hide Take;
    var b := name.hash % |chains|;
    var c := chains[b];
    var c' := Take(c, i);
    var chains', elements' := chains[b := c'], elements - {name};
    NodesApart(chains, elements);
    forall d: nat, j: nat | d < |chains'| && j < |chains'[d]|
      ensures Placed(chains', elements', d, chains'[d][j])
    {
      var k := if d == b && j >= i then j + 1 else j;
      assert chains'[d][j] == chains[d][k];
      assert Placed(chains, elements, d, chains[d][k]);
    }
    forall k | k in elements'
      ensures elements'[k].Name() == k && elements'[k] in chains'[k.hash % |chains'|]
    {
      var d := k.hash % |chains|;
      var j :| 0 <= j < |chains[d]| && chains[d][j] == elements[k];
      if d == b {
        assert c'[if j < i then j else j - 1] == elements[k];
      }
    }
  }

  lemma OneFewer(elements: map<Id, LRUHandle>, name: Id)
    requires name in elements
    ensures |elements - {name}| == |elements| - 1
    ensures (elements - {name}).Values <= elements.Values
  {
    assert elements == (elements - {name})[name := elements[name]];
  }

  /** Points past the handle found what pointed to it. */
  method LinkOut(list: array<LRUHandle?>, ghost chains: seq<Chain>, ghost nodes: set<LRUHandle>, b: nat,
                 before: LRUHandle?, found: LRUHandle, ghost i: nat)
    requires Buckets(list, chains, nodes) && Apart(chains, nodes) && b < |chains|
    requires i < |chains[b]| && before == (if i == 0 then null else chains[b][i-1]) && found == chains[b][i]
    modifies list, nodes`nextHash
    ensures Buckets(list, chains[b := Take(chains[b], i)], nodes)
  {
    hide OthersLinked, Take, Buckets;
    ghost var c := chains[b];
    BucketsBut(list, chains, nodes, b);
    Point(list, b, before, found.nextHash, chains, nodes);
    ghost var c' := Take(c, i);
    assert Linked(c', nodes);
    OtherChain(list, chains, nodes, b, c');
  }

  // ----- the table

  lemma CountKeys(elements: map<Id, LRUHandle>)
    ensures |elements| == |elements.Keys|
  {
  }

  class HandleTable {
    var length: nat
    var elems: nat
    var list: array<LRUHandle?>
    ghost var chains: seq<Chain>
    ghost var elements: map<Id, LRUHandle>

    ghost predicate Valid()
      reads this, list, elements.Values`nextHash
    {
      && list.Length == length == |chains| && PowerOfTwo(length)
      && elems == |elements|
      && Buckets(list, chains, elements.Values)
      && Sorted(chains, elements)
      && AllIn(chains, elements)
    }

    constructor ()
      ensures Valid() && elements == map[] && fresh(list)
    {
      length := 4;
      elems := 0;
      list := new LRUHandle?[4](_ => null);
      chains := [[], [], [], []];
      elements := map[];
    }

    /** The place in its bucket of the handle with a name, or the end of the bucket: the slot that
        points to it is in the bucket array, or in the handle before it. */
    method FindPointer(key: Bytes, hash: nat) returns (before: LRUHandle?, found: LRUHandle?, ghost i: nat)
      requires Valid()
      ensures var c := chains[hash % length];
        && i <= |c|
        && before == (if i == 0 then null else c[i-1])
        && found == Entry(c, i)
      ensures found != null <==> Id(key, hash) in elements
      ensures found != null ==> found == elements[Id(key, hash)]
    {
      hide Sorted, AllIn, Placed, Buckets;
      HasBuckets(chains, elements);
      ghost var c := chains[hash % length];
      BucketLinked(list, chains, elements.Values, hash % length);
      before := null;
      MaskIsRemainder(hash, length);
      found := list[BitAnd(hash, length - 1)];
      i := 0;
      while found != null && (found.hash != hash || found.key != key)
        invariant i <= |c| && before == (if i == 0 then null else c[i-1]) && found == Entry(c, i)
        invariant forall j: nat | j < i :: c[j].Name() != Id(key, hash)
        decreases |c| - i
      {
        before := found;
        found := found.nextHash;
        i := i + 1;
      }
      NameAt(chains, elements, Id(key, hash), i);
    }

    /** The elements with their own names. */
    lemma Names()
      requires Valid()
      ensures forall k | k in elements :: elements[k].Name() == k
    {
    }

    method Lookup(key: Bytes, hash: nat) returns (h: LRUHandle?)
      requires Valid()
      ensures h == if Id(key, hash) in elements then elements[Id(key, hash)] else null
    {
      var before;
      ghost var i;
      before, h, i := FindPointer(key, hash);
    }

    method PutAt(h: LRUHandle, before: LRUHandle?, found: LRUHandle?, ghost i: nat)
      requires Valid() && h !in elements.Values && length > 0
      requires found == if h.Name() in elements then elements[h.Name()] else null
      requires var c := chains[h.hash % length];
        i <= |c| && before == (if i == 0 then null else c[i-1]) && found == Entry(c, i)
      modifies this, list, elements.Values`nextHash, h`nextHash
      ensures Valid() && elements == old(elements)[h.Name() := h] && list == old(list) && length == old(length)
    {
      hide Sorted, AllIn, Placed, Put, Buckets, Apart, Linked, PowerOfTwo;
      ghost var b := h.hash % length;
      ghost var c' := Put(chains[b], i, h);
      PutSorted(chains, elements, h, i);
      OneMore(elements, h);
      NodesApart(chains, elements);
      NodesApart(chains[b := c'], elements[h.Name() := h]);
      LinkIn(list, chains, elements.Values, h, before, found, b, i);
      chains := chains[b := c'];
      elements := elements[h.Name() := h];
      BucketsAmong(list, chains, old(elements).Values + {h}, elements.Values);
      if found == null {
        elems := elems + 1;
      }
    }

    /** Takes the place of the handle with the same name, or goes to the end of its bucket. */
    method InsertInChain(h: LRUHandle) returns (found: LRUHandle?)
      requires Valid() && h !in elements.Values
      modifies this, list, elements.Values`nextHash, h`nextHash
      ensures Valid() && elements == old(elements)[h.Name() := h] && list == old(list) && length == old(length)
      ensures found == if h.Name() in old(elements) then old(elements)[h.Name()] else null
    {
      hide Sorted, AllIn, Placed, Buckets;
      var before;
      ghost var i;
      HasBuckets(chains, elements);
      before, found, i := FindPointer(h.key, h.hash);
      PutAt(h, before, found, i);
    }

    /** Moves every handle to a longer bucket array. */
    method Resize()
      requires Valid()
      modifies this, elements.Values`nextHash
      ensures Valid() && elements == old(elements) && elems == old(elems) && fresh(list)
      ensures length >= elems && (length == 4 || length < 2 * elems)
    {
      hide Sorted, AllIn, Buckets;
      var newLength := 4;
      while newLength < elems
        invariant newLength >= 4 && PowerOfTwo(newLength) && (newLength == 4 || newLength < 2 * elems)
      {
        newLength := newLength * 2;
      }
      var newList := new LRUHandle?[newLength](_ => null);
      HasBuckets(chains, elements);
      chains := MoveAll(list, newList, chains, elements);
      list := newList;
      length := newLength;
    }

    /** Returns the handle that had the name before. */
    method Insert(h: LRUHandle) returns (found: LRUHandle?)
      requires Valid() && h !in elements.Values
      modifies this, list, elements.Values`nextHash, h`nextHash
      ensures Valid() && elements == old(elements)[h.Name() := h] && (list == old(list) || fresh(list))
      ensures found == if h.Name() in old(elements) then old(elements)[h.Name()] else null
      ensures old(elems) <= old(length) ==> elems <= length
    {
      hide Buckets, Sorted, AllIn;
      found := InsertInChain(h);
      assert found != null ==> elements.Keys == old(elements).Keys;
      CountKeys(elements);
      CountKeys(old(elements));
      if found == null && elems > length {
        Resize();
      }
    }

    method RemoveFrom(b: nat, before: LRUHandle?, found: LRUHandle, ghost i: nat)
      requires Valid() && b < length && b == found.hash % length && found.Name() in elements && found == elements[found.Name()]
      requires i < |chains[b]| && before == (if i == 0 then null else chains[b][i-1]) && found == chains[b][i]
      modifies this, list, elements.Values`nextHash
      ensures Valid() && elements == old(elements) - {found.Name()} && list == old(list)
    {
      hide Sorted, AllIn, Placed, Buckets, Apart, Take;
      ghost var name := found.Name();
      ghost var c' := Take(chains[b], i);
      HasBuckets(chains, elements);
      TakeSorted(chains, elements, name, i);
      OneFewer(elements, name);
      NodesApart(chains, elements);
      NodesApart(chains[b := c'], elements - {name});
      LinkOut(list, chains, elements.Values, b, before, found, i);
      chains := chains[b := c'];
      elements := elements - {name};
      BucketsAmong(list, chains, old(elements).Values, elements.Values);
      elems := elems - 1;
    }

    /** Unlinks the handle with a name from its bucket. */
    method Remove(key: Bytes, hash: nat) returns (found: LRUHandle?)
      requires Valid()
      modifies this, list, elements.Values`nextHash
      ensures Valid() && elements == old(elements) - {Id(key, hash)} && list == old(list)
      ensures found == if Id(key, hash) in old(elements) then old(elements)[Id(key, hash)] else null
    {
      hide Sorted, AllIn, Placed, Buckets;
      var before;
      ghost var i;
      HasBuckets(chains, elements);
      before, found, i := FindPointer(key, hash);
      if found == null {
        assert elements - {Id(key, hash)} == elements;
      } else {
        NameOf(chains, elements, Id(key, hash));
        RemoveFrom(hash % length, before, found, i);
      }
    }
  }

  /** The handles of a map by name, after one has taken the place of another or joined them. */
  lemma ValuesPut(elements: map<Id, LRUHandle>, h: LRUHandle)
    requires (forall k | k in elements :: elements[k].Name() == k) && h !in elements.Values
    ensures elements[h.Name() := h].Values ==
      elements.Values + {h} - if h.Name() in elements then {elements[h.Name()]} else {}
  {
    var name := h.Name();
    forall o | o in elements.Values && (name !in elements || o != elements[name])
      ensures o in elements[name := h].Values
    {
      assert elements[name := h][o.Name()] == o;
    }
    assert h in elements[name := h].Values by { assert elements[name := h][name] == h; }
    forall o | o in elements[name := h].Values && o != h
      ensures o in elements.Values && (name in elements ==> o != elements[name])
    {
      var k :| k in elements[name := h] && elements[name := h][k] == o;
      assert elements[k] == o && k != name;
    }
  }

  lemma ValuesRemoved(elements: map<Id, LRUHandle>, name: Id)
    requires (forall k | k in elements :: elements[k].Name() == k) && name in elements
    ensures (elements - {name}).Values == elements.Values - {elements[name]}
  {
    forall o | o in elements.Values && o != elements[name]
      ensures o in (elements - {name}).Values
    {
      assert (elements - {name})[o.Name()] == o;
    }
  }
}
