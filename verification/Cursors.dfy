/** An iterator over one sorted run of entries: what memtables, tables and concatenated
    levels offer to the iterators stacked on them. */
module Cursors {
  import opened Keys

  class Cursor {
    const entries: seq<Entry>
    var pos: int  // -1 before the first entry, |entries| after the last

    ghost predicate InBounds()
      reads this
    {
      -1 <= pos <= |entries|
    }

    predicate Valid()
      reads this
    {
      0 <= pos < |entries|
    }

    constructor (entries: seq<Entry>)
      ensures this.entries == entries && InBounds()
    {
      this.entries := entries;
      pos := -1;
    }

    method SeekToFirst()
      modifies this
      ensures InBounds() && pos == 0
    {
      pos := 0;
    }

    method SeekToLast()
      modifies this
      ensures InBounds() && pos == |entries| - 1
    {
      pos := |entries| - 1;
    }

    /** Moves to the first entry at or after key. */
    method Seek(key: InternalKey)
      modifies this
      ensures InBounds() && 0 <= pos
      ensures forall i :: 0 <= i < pos ==> Less(entries[i].key, key)
      ensures pos < |entries| ==> !Less(entries[pos].key, key)
    {
      pos := 0;
      while pos < |entries| && Less(entries[pos].key, key)
        invariant 0 <= pos <= |entries|
        invariant forall i :: 0 <= i < pos ==> Less(entries[i].key, key)
        decreases |entries| - pos
      {
        pos := pos + 1;
      }
    }

    method Next()
      requires Valid()
      modifies this
      ensures InBounds() && pos == old(pos) + 1
    {
      pos := pos + 1;
    }

    method Prev()
      requires Valid()
      modifies this
      ensures InBounds() && pos == old(pos) - 1
    {
      pos := pos - 1;
    }
  }
}
