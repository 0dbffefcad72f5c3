/** The merging iterator: many sorted runs presented as one, moving in either direction. */
module Merger {
  import opened Keys
  import opened Cursors

  /** A child at position p has exactly its entries up to key behind it. */
  ghost predicate PastKey(es: seq<Entry>, p: int, key: InternalKey) {
    && 0 <= p <= |es|
    && (forall j :: 0 <= j < p ==> !Less(key, es[j].key))
    && (forall j :: p <= j < |es| ==> Less(key, es[j].key))
  }

  /** A child at position p has exactly its entries from key on ahead of it. */
  ghost predicate ShortOfKey(es: seq<Entry>, p: int, key: InternalKey) {
    && -1 <= p < |es|
    && (forall j :: 0 <= j <= p ==> Less(es[j].key, key))
    && (forall j :: p < j < |es| ==> !Less(es[j].key, key))
  }

  /** Exactly the entries from p on satisfy q. */
  ghost predicate Splits(es: seq<Entry>, p: int, q: InternalKey -> bool) {
    0 <= p <= |es| && forall j :: 0 <= j < |es| ==> (q(es[j].key) <==> p <= j)
  }

  /** Exactly the entries up to p satisfy q. */
  ghost predicate SplitsAfter(es: seq<Entry>, p: int, q: InternalKey -> bool) {
    -1 <= p < |es| && forall j :: 0 <= j < |es| ==> (q(es[j].key) <==> j <= p)
  }

  /** Whatever satisfies q sorts after whatever does not. */
  ghost predicate UpwardClosed(q: InternalKey -> bool) {
    forall a, b :: !q(a) && q(b) ==> Less(a, b)
  }

  ghost predicate DownwardClosed(q: InternalKey -> bool) {
    forall a, b :: q(a) && !q(b) ==> Less(a, b)
  }

  function Any(): InternalKey -> bool { k => true }
  function From(key: InternalKey): InternalKey -> bool { k => !Less(k, key) }
  function After(key: InternalKey): InternalKey -> bool { k => Less(key, k) }
  function Before(key: InternalKey): InternalKey -> bool { k => Less(k, key) }

  lemma OrderClosed(key: InternalKey)
    ensures UpwardClosed(Any()) && DownwardClosed(Any())
    ensures UpwardClosed(From(key)) && UpwardClosed(After(key)) && DownwardClosed(Before(key))
  {
  }

  lemma SortedFrom(es: seq<Entry>, p: int)
    requires StrictlySorted(es) && 0 <= p < |es|
    ensures forall j :: 0 <= j < p ==> Less(es[j].key, es[p].key)
    ensures forall j :: p < j < |es| ==> Less(es[p].key, es[j].key)
  {
  }

  lemma DistinctTags(a: InternalKey, b: InternalKey)
    ensures Less(a, b) || Less(b, a) || a == b
  {
    assert a.Tag() == b.Tag() ==> a.seqno == b.seqno && a.kind == b.kind;
  }

  class MergingIterator {
    const children: seq<Cursor>
    var current: int  // -1 when there is no current child
    var forward: bool

    ghost predicate Shape()
      reads this, children
    {
      && (forall i, j :: 0 <= i < j < |children| ==> children[i] != children[j])
      && (forall i :: 0 <= i < |children| ==> StrictlySorted(children[i].entries) && children[i].InBounds())
      && -1 <= current < |children|
      && (current >= 0 ==> children[current].Valid())
    }

    /** No internal key occurs in two children. */
    ghost predicate DistinctKeys()
    {
      forall i, j, a, b :: 0 <= i < j < |children| && a in children[i].entries && b in children[j].entries ==> a.key != b.key
    }

    predicate Valid()
      reads this
    {
      current >= 0
    }

    function Current(): Entry
      reads this, children
      requires Shape() && Valid()
    {
      children[current].entries[children[current].pos]
    }

    /** Forward, the other children are just past the current key; in reverse, just short of it. */
    ghost predicate Placed()
      reads this, children
      requires Shape()
    {
      Valid() ==> forall i :: 0 <= i < |children| && i != current ==>
        if forward then PastKey(children[i].entries, children[i].pos, Current().key)
        else ShortOfKey(children[i].entries, children[i].pos, Current().key)
    }

    ghost predicate Inv()
      reads this, children
    {
      Shape() && (DistinctKeys() ==> Placed())
    }

    ghost predicate Holds(e: Entry)
    {
      exists i :: 0 <= i < |children| && e in children[i].entries
    }

    /** r is the first entry of the union whose key satisfies p. */
    ghost predicate First(p: InternalKey -> bool, r: Option<Entry>)
    {
      match r
      case Some(e) => Holds(e) && p(e.key) && forall x :: Holds(x) && p(x.key) ==> !Less(x.key, e.key)
      case None => forall x :: Holds(x) ==> !p(x.key)
    }

    ghost predicate Last(p: InternalKey -> bool, r: Option<Entry>)
    {
      match r
      case Some(e) => Holds(e) && p(e.key) && forall x :: Holds(x) && p(x.key) ==> !Less(e.key, x.key)
      case None => forall x :: Holds(x) ==> !p(x.key)
    }

    ghost function Position(): Option<Entry>
      reads this, children
      requires Shape()
    {
      if Valid() then Some(Current()) else None
    }

    constructor (children: seq<Cursor>)
      requires forall i, j :: 0 <= i < j < |children| ==> children[i] != children[j]
      requires forall i :: 0 <= i < |children| ==> StrictlySorted(children[i].entries) && children[i].InBounds()
      ensures this.children == children && Inv() && !Valid()
    {
      this.children := children;
      current, forward := -1, true;
    }

    ghost predicate SmallestChosen()
      reads this, children
      requires Shape()
    {
      && (current < 0 ==> forall i :: 0 <= i < |children| ==> !children[i].Valid())
      && (current >= 0 ==> forall i :: 0 <= i < |children| && children[i].Valid() ==>
            !Less(children[i].entries[children[i].pos].key, Current().key))
    }

    ghost predicate LargestChosen()
      reads this, children
      requires Shape()
    {
      && (current < 0 ==> forall i :: 0 <= i < |children| ==> !children[i].Valid())
      && (current >= 0 ==> forall i :: 0 <= i < |children| && children[i].Valid() ==>
            !Less(Current().key, children[i].entries[children[i].pos].key))
    }

    method FindSmallest()
      requires Shape()
      modifies this`current
      ensures Shape() && SmallestChosen()
    {
      var smallest := -1;
      for i := 0 to |children|
        invariant Shape() && -1 <= smallest < i
        invariant smallest < 0 ==> forall j :: 0 <= j < i ==> !children[j].Valid()
        invariant smallest >= 0 ==> children[smallest].Valid() && forall j :: 0 <= j < i && children[j].Valid() ==>
          !Less(children[j].entries[children[j].pos].key, children[smallest].entries[children[smallest].pos].key)
      {
        var child := children[i];
        if child.Valid() {
          if smallest < 0 {
            smallest := i;
          } else if Less(child.entries[child.pos].key, children[smallest].entries[children[smallest].pos].key) {
            smallest := i;
          }
        }
      }
      current := smallest;
    }

    method FindLargest()
      requires Shape()
      modifies this`current
      ensures Shape() && LargestChosen()
    {
      var largest := -1;
      for i := |children| downto 0
        invariant Shape() && -1 <= largest < |children|
        invariant largest < 0 ==> forall j :: i <= j < |children| ==> !children[j].Valid()
        invariant largest >= 0 ==> children[largest].Valid() && forall j :: i <= j < |children| && children[j].Valid() ==>
          !Less(children[largest].entries[children[largest].pos].key, children[j].entries[children[j].pos].key)
      {
        var child := children[i];
        if child.Valid() {
          if largest < 0 {
            largest := i;
          } else if Less(children[largest].entries[children[largest].pos].key, child.entries[child.pos].key) {
            largest := i;
          }
        }
      }
      current := largest;
    }

    // ----- from child positions to the union

    /** The smallest child entry is the first of the union from where the children stand. */
    lemma SmallestIsFirst(p: InternalKey -> bool)
      requires Shape() && SmallestChosen()
      requires forall i :: 0 <= i < |children| ==> Splits(children[i].entries, children[i].pos, p)
      ensures First(p, Position())
    {
      forall x | Holds(x) && p(x.key)
        ensures current >= 0 && !Less(x.key, Current().key)
      {
        var i :| 0 <= i < |children| && x in children[i].entries;
        var j :| 0 <= j < |children[i].entries| && children[i].entries[j] == x;
        SortedFrom(children[i].entries, j);
        assert children[i].Valid();
      }
    }

    lemma LargestIsLast(p: InternalKey -> bool)
      requires Shape() && LargestChosen()
      requires forall i :: 0 <= i < |children| ==> SplitsAfter(children[i].entries, children[i].pos, p)
      ensures Last(p, Position())
    {
      forall x | Holds(x) && p(x.key)
        ensures current >= 0 && !Less(Current().key, x.key)
      {
        var i :| 0 <= i < |children| && x in children[i].entries;
        var j :| 0 <= j < |children[i].entries| && children[i].entries[j] == x;
        SortedFrom(children[i].entries, j);
        assert children[i].Valid();
      }
    }

    lemma ForwardPlaced()
      requires Shape() && SmallestChosen() && DistinctKeys() && Valid() && forward
      requires forall i, j :: 0 <= i < |children| && 0 <= j < children[i].pos ==> Less(children[i].entries[j].key, Current().key)
      requires forall i :: 0 <= i < |children| ==> children[i].pos >= 0
      ensures Placed()
    {
      forall i, j | 0 <= i < |children| && i != current && children[i].pos <= j < |children[i].entries|
        ensures Less(Current().key, children[i].entries[j].key)
      {
        SortedFrom(children[i].entries, children[i].pos);
        assert children[i].Valid();
        DistinctTags(children[i].entries[j].key, Current().key);
        assert children[i].entries[j] in children[i].entries && Current() in children[current].entries;
      }
    }

    lemma ReversePlaced()
      requires Shape() && LargestChosen() && DistinctKeys() && Valid() && !forward
      requires forall i, j :: 0 <= i < |children| && children[i].pos < j < |children[i].entries| ==>
        Less(Current().key, children[i].entries[j].key)
      requires forall i :: 0 <= i < |children| ==> children[i].pos < |children[i].entries|
      ensures Placed()
    {
      forall i, j | 0 <= i < |children| && i != current && 0 <= j <= children[i].pos
        ensures Less(children[i].entries[j].key, Current().key)
      {
        SortedFrom(children[i].entries, children[i].pos);
        assert children[i].Valid();
        DistinctTags(children[i].entries[j].key, Current().key);
        assert children[i].entries[j] in children[i].entries && Current() in children[current].entries;
      }
    }

    lemma SettledForward(p: InternalKey -> bool)
      requires Shape() && SmallestChosen() && forward && UpwardClosed(p)
      requires forall i :: 0 <= i < |children| ==> Splits(children[i].entries, children[i].pos, p)
      ensures First(p, Position()) && Inv()
    {
      SmallestIsFirst(p);
      if Valid() && DistinctKeys() {
        ForwardPlaced();
      }
    }

    lemma SettledReverse(p: InternalKey -> bool)
      requires Shape() && LargestChosen() && !forward && DownwardClosed(p)
      requires forall i :: 0 <= i < |children| ==> SplitsAfter(children[i].entries, children[i].pos, p)
      ensures Last(p, Position()) && Inv()
    {
      LargestIsLast(p);
      if Valid() && DistinctKeys() {
        ReversePlaced();
      }
    }

    /** Makes the smallest child current, moving forward. */
    method ArriveForward(ghost p: InternalKey -> bool)
      requires Shape() && UpwardClosed(p)
      requires forall i :: 0 <= i < |children| ==> Splits(children[i].entries, children[i].pos, p)
      modifies this
      ensures Inv() && forward && First(p, Position())
    {
      FindSmallest();
      forward := true;
      SettledForward(p);
    }

    /** Makes the largest child current, moving in reverse. */
    method ArriveReverse(ghost p: InternalKey -> bool)
      requires Shape() && DownwardClosed(p)
      requires forall i :: 0 <= i < |children| ==> SplitsAfter(children[i].entries, children[i].pos, p)
      modifies this
      ensures Inv() && !forward && Last(p, Position())
    {
      FindLargest();
      forward := false;
      SettledReverse(p);
    }

    // ----- the public operations

    method SeekToFirst()
      requires Inv()
      modifies this, children
      ensures Inv() && forward && First(Any(), Position())
    {
      current := -1;
      for i := 0 to |children|
        invariant Shape() && current == -1
        invariant forall j :: 0 <= j < i ==> Splits(children[j].entries, children[j].pos, Any())
      {
        children[i].SeekToFirst();
      }
      OrderClosed(InternalKey(0.0, 0, Value));
      ArriveForward(Any());
    }

    method SeekToLast()
      requires Inv()
      modifies this, children
      ensures Inv() && !forward && Last(Any(), Position())
    {
      current := -1;
      for i := 0 to |children|
        invariant Shape() && current == -1
        invariant forall j :: 0 <= j < i ==> SplitsAfter(children[j].entries, children[j].pos, Any())
      {
        children[i].SeekToLast();
      }
      OrderClosed(InternalKey(0.0, 0, Value));
      ArriveReverse(Any());
    }

    method Seek(target: InternalKey)
      requires Inv()
      modifies this, children
      ensures Inv() && forward && First(From(target), Position())
    {
      hide Placed, First, Holds, SmallestChosen, DistinctKeys, UpwardClosed;
      current := -1;
      for i := 0 to |children|
        invariant Shape() && current == -1
        invariant forall j :: 0 <= j < i ==> Splits(children[j].entries, children[j].pos, From(target))
      {
        children[i].Seek(target);
        if children[i].Valid() {
          SortedFrom(children[i].entries, children[i].pos);
        }
      }
      OrderClosed(target);
      ArriveForward(From(target));
    }

    /** Puts every other child just past the current key. */
    method PositionAfterKey()
      requires Shape() && Valid()
      modifies children
      ensures Shape() && Current() == old(Current())
      ensures forall i :: 0 <= i < |children| && i != current ==> PastKey(children[i].entries, children[i].pos, Current().key)
    {
      ghost var was := Current();
      for i := 0 to |children|
        invariant Shape() && Current() == was
        invariant forall j :: 0 <= j < i && j != current ==> PastKey(children[j].entries, children[j].pos, was.key)
      {
        if i != current {
          var key := Current().key;
          children[i].Seek(key);
          if children[i].Valid() {
            SortedFrom(children[i].entries, children[i].pos);
            DistinctTags(children[i].entries[children[i].pos].key, key);
            if children[i].entries[children[i].pos].key == key {
              children[i].Next();
            }
          }
        }
      }
    }

    /** Puts every other child just short of the current key. */
    method PositionBeforeKey()
      requires Shape() && Valid()
      modifies children
      ensures Shape() && Current() == old(Current())
      ensures forall i :: 0 <= i < |children| && i != current ==> ShortOfKey(children[i].entries, children[i].pos, Current().key)
    {
      ghost var was := Current();
      for i := 0 to |children|
        invariant Shape() && Current() == was
        invariant forall j :: 0 <= j < i && j != current ==> ShortOfKey(children[j].entries, children[j].pos, was.key)
      {
        if i != current {
          children[i].Seek(Current().key);
          if children[i].Valid() {
            SortedFrom(children[i].entries, children[i].pos);
            children[i].Prev();
          } else {
            children[i].SeekToLast();
          }
        }
      }
    }

    /** The next entry of the union, whichever way the iterator was moving. */
    method Next()
      requires Inv() && Valid() && DistinctKeys()
      modifies this, children
      ensures Inv() && forward && First(After(old(Current()).key), Position())
    {
      hide First, Holds, SmallestChosen, DistinctKeys, UpwardClosed;
      ghost var key := Current().key;
      if !forward {
        PositionAfterKey();
      }
      SortedFrom(children[current].entries, children[current].pos);
      children[current].Next();
      assert forall i :: 0 <= i < |children| ==> Splits(children[i].entries, children[i].pos, After(key));
      current := -1;
      OrderClosed(key);
      ArriveForward(After(key));
    }

    /** The previous entry of the union, whichever way the iterator was moving. */
    method Prev()
      requires Inv() && Valid() && DistinctKeys()
      modifies this, children
      ensures Inv() && !forward && Last(Before(old(Current()).key), Position())
    {
      hide Last, Holds, LargestChosen, DistinctKeys, DownwardClosed;
      ghost var key := Current().key;
      if forward {
        PositionBeforeKey();
      }
      SortedFrom(children[current].entries, children[current].pos);
      children[current].Prev();
      assert forall i :: 0 <= i < |children| ==> SplitsAfter(children[i].entries, children[i].pos, Before(key));
      current := -1;
      OrderClosed(key);
      ArriveReverse(Before(key));
    }
  }
}
