/** The iterator over all versions of all keys: the merging iterator seen as a cursor over the
    one run that its children together hold. */
module InternalIterators {
  import opened Keys
  import opened Merger

  class InternalIterator {
    const merger: MergingIterator
    /** The merged run and the place in it, -1 before the first entry, |entries| after the last. */
    ghost const entries: seq<Entry>
    ghost var pos: int

    ghost predicate InBounds()
      reads this, merger, merger.children
    {
      && merger.Inv() && merger.DistinctKeys()
      && StrictlySorted(entries) && (forall e :: e in entries <==> merger.Holds(e))
      && -1 <= pos <= |entries|
      && (merger.Valid() <==> 0 <= pos < |entries|)
      && (merger.Valid() ==> merger.Current() == entries[pos])
    }

    predicate Valid()
      reads this, merger
    {
      merger.Valid()
    }

    /** It is valid just when it stands on an entry of the run. */
    lemma Stands()
      requires InBounds()
      ensures -1 <= pos <= |entries| && (Valid() <==> 0 <= pos < |entries|)
    {
    }

    function Current(): (e: Entry)
      reads this, merger, merger.children
      requires InBounds() && Valid()
      ensures 0 <= pos < |entries| && e == entries[pos]
    {
      merger.Current()
    }

    constructor (merger: MergingIterator, ghost entries: seq<Entry>)
      requires merger.Inv() && merger.DistinctKeys() && !merger.Valid()
      requires StrictlySorted(entries) && forall e :: e in entries <==> merger.Holds(e)
      ensures InBounds() && this.merger == merger && this.entries == entries
    {
      this.merger, this.entries := merger, entries;
      pos := -1;
    }

    /** Where the first entry of the union that satisfies p stands in the run. */
    lemma FirstPlace(p: InternalKey -> bool, r: Option<Entry>) returns (i: int)
      requires StrictlySorted(entries) && (forall e :: e in entries <==> merger.Holds(e)) && merger.First(p, r)
      ensures 0 <= i <= |entries| && (r.Some? <==> i < |entries|) && (r.Some? ==> r.value == entries[i] && p(entries[i].key))
      ensures forall j :: 0 <= j < i ==> !p(entries[j].key)
    {
      if r.Some? {
        assert r.value in entries;
        i :| 0 <= i < |entries| && entries[i] == r.value;
        forall j | 0 <= j < i
          ensures !p(entries[j].key)
        {
          assert entries[j] in entries && Less(entries[j].key, entries[i].key);
        }
      } else {
        i := |entries|;
        forall j | 0 <= j < i
          ensures !p(entries[j].key)
        {
          assert entries[j] in entries;
        }
      }
    }

    lemma LastPlace(p: InternalKey -> bool, r: Option<Entry>) returns (i: int)
      requires StrictlySorted(entries) && (forall e :: e in entries <==> merger.Holds(e)) && merger.Last(p, r)
      ensures -1 <= i < |entries| && (r.Some? <==> i >= 0) && (r.Some? ==> r.value == entries[i] && p(entries[i].key))
      ensures forall j :: i < j < |entries| ==> !p(entries[j].key)
    {
      if r.Some? {
        assert r.value in entries;
        i :| 0 <= i < |entries| && entries[i] == r.value;
        forall j | i < j < |entries|
          ensures !p(entries[j].key)
        {
          assert entries[j] in entries && Less(entries[i].key, entries[j].key);
        }
      } else {
        i := -1;
        forall j | 0 <= j < |entries|
          ensures !p(entries[j].key)
        {
          assert entries[j] in entries;
        }
      }
    }

    method SeekToFirst()
      requires InBounds()
      modifies this, merger, merger.children
      ensures InBounds() && pos == 0
    {
      hide MergingIterator.First, MergingIterator.Placed, MergingIterator.DistinctKeys, MergingIterator.Holds;
      merger.SeekToFirst();
      pos := FirstPlace(Any(), merger.Position());
      assert |entries| > 0 ==> Any()(entries[0].key);
    }

    method SeekToLast()
      requires InBounds()
      modifies this, merger, merger.children
      ensures InBounds() && pos == |entries| - 1
    {
      hide MergingIterator.Last, MergingIterator.Placed, MergingIterator.DistinctKeys, MergingIterator.Holds;
      merger.SeekToLast();
      pos := LastPlace(Any(), merger.Position());
      assert |entries| > 0 ==> Any()(entries[|entries|-1].key);
    }

    /** Moves to the first entry at or after key. */
    method Seek(key: InternalKey)
      requires InBounds()
      modifies this, merger, merger.children
      ensures InBounds() && 0 <= pos
      ensures forall i :: 0 <= i < pos ==> Less(entries[i].key, key)
      ensures pos < |entries| ==> !Less(entries[pos].key, key)
    {
      hide MergingIterator.First, MergingIterator.Placed, MergingIterator.DistinctKeys, MergingIterator.Holds;
      merger.Seek(key);
      pos := FirstPlace(From(key), merger.Position());
    }

    method Next()
      requires InBounds() && Valid()
      modifies this, merger, merger.children
      ensures InBounds() && pos == old(pos) + 1
    {
      hide MergingIterator.First, MergingIterator.Placed, MergingIterator.DistinctKeys, MergingIterator.Holds;
      ghost var key, was := merger.Current().key, pos;
      merger.Next();
      pos := FirstPlace(After(key), merger.Position());
      SortedFrom(entries, was);
      assert was + 1 < |entries| ==> After(key)(entries[was + 1].key);
    }

    method Prev()
      requires InBounds() && Valid()
      modifies this, merger, merger.children
      ensures InBounds() && pos == old(pos) - 1
    {
      hide MergingIterator.Last, MergingIterator.Placed, MergingIterator.DistinctKeys, MergingIterator.Holds;
      ghost var key, was := merger.Current().key, pos;
      merger.Prev();
      pos := LastPlace(Before(key), merger.Position());
      SortedFrom(entries, was);
      assert was > 0 ==> Before(key)(entries[was - 1].key);
    }
  }
}
