/** Iteration over a table file: a cursor over the index that opens one data block at a time. */
module TwoLevel {
  import opened Coding
  import opened Blocks
  import opened Separators
  import opened Tables
  import opened TableReader

  lemma IndexShows(c: Cut, i: nat)
    requires c.Shape() && i < |c.Index()|
    ensures i < |c.handles| && c.Index()[i].value == EncodeHandle(c.handles[i])
  {
    hide EncodeHandle;
  }

  /** Two index entries that name the same place name blocks with the same entries. */
  lemma SameBlock(t: Table, m: Image, a: nat, b: nat)
    requires Opens(t, m) && Complete(m.cut) && a < |m.cut.handles| && b < |m.cut.handles|
    requires EncodeHandle(m.cut.handles[a]) == EncodeHandle(m.cut.handles[b])
    ensures m.cut.Part(a) == m.cut.Part(b)
  {
    hide EncodeHandle, IsBlock, Written, ReadBlock, DecodeHandle, Cut.Part;
    BlockRead(t.options, t.file, m, a, t.verify);
    BlockRead(t.options, t.file, m, b, t.verify);
    BlockDetermines(m.cut.blocks[a], m.cut.layouts[a], m.cut.layouts[b]);
  }

  class TwoLevelIterator {
    const table: Table
    ghost const image: Image
    const indexIter: Iter
    var dataIter: Iter?
    var dataBlockHandle: Bytes
    /** The block that dataIter was opened on. */
    ghost var block: nat

    ghost predicate Inv()
      reads this, indexIter, dataIter
    {
      && Opens(table, image)
      && Complete(image.cut)
      && indexIter.Inv()
      && indexIter.less == InternalLess
      && indexIter.layout.pairs == image.cut.Index()
      && (dataIter != null ==>
            && dataIter != indexIter
            && dataIter.Inv()
            && dataIter.less == InternalLess
            && block < |image.cut.handles|
            && dataBlockHandle == EncodeHandle(image.cut.handles[block])
            && dataIter.layout.pairs == image.cut.Part(block))
    }

    /** The data block, if any, is the one the index is on. */
    ghost predicate Synced()
      requires Inv()
      reads this, indexIter, dataIter
    {
      if indexIter.Valid() then
        dataIter != null && dataIter.layout.pairs == image.cut.Part(indexIter.position)
      else dataIter == null
    }

    predicate Valid()
      reads this, dataIter
    {
      dataIter != null && dataIter.Valid()
    }

    /** On entry g of the run, or off it when g is its length. */
    ghost predicate At(g: nat)
      reads this, indexIter, dataIter
    {
      && Inv()
      && Synced()
      && g <= |image.cut.run|
      && (Valid() <==> g < |image.cut.run|)
      && (Valid() ==> g == image.cut.starts[indexIter.position] + dataIter.position)
    }

    constructor (t: Table, ghost m: Image)
      requires Opens(t, m)
      ensures At(|m.cut.run|) && image == m
      ensures fresh(indexIter) && dataIter == null
    {
      hide Complete, IsBlock, InternalLess, Written, Cut.Part, Cut.Index, EncodeHandle, Layout.WellFormed;
      WrittenComplete(t.options, t.file, m);
      ShapeOf(m.cut);
      table := t;
      image := m;
      var iter := NewBlockIterator(InternalLess, t.indexBlock, m.index);
      indexIter := iter;
      dataIter := null;
      dataBlockHandle := [];
    }

    function Key(): Bytes
      requires Valid()
      reads this, dataIter
    {
      dataIter.key
    }

    function Value(): Bytes
      requires Valid() && Inv()
      reads this, indexIter, dataIter
    {
      dataIter.Value()
    }

    lemma Shows(g: nat)
      requires At(g) && Valid()
      ensures g < |image.cut.run| && Key() == image.cut.run[g].key && Value() == image.cut.run[g].value
    {
      hide Opens, Complete, InternalLess, EncodeHandle, Cut.Part, Cut.Index, Iter.Inv, Iter.Valid, Iter.Value;
      ShapeOf(image.cut);
      indexIter.Shown();
      dataIter.Shown();
      PartSorted(image.cut, indexIter.position);
    }

    /** Opens the block the index is on, unless it is open already. */
    method InitDataBlock()
      requires Inv()
      modifies this
      ensures Inv() && Synced()
      ensures dataIter == null || dataIter == old(dataIter) || fresh(dataIter)
    {
      hide Opens, Complete, InternalLess, EncodeHandle, Cut.Part, Cut.Index, Iter.Inv, Iter.Valid, Iter.Value;
      ShapeOf(image.cut);
      indexIter.Shown();
      if !indexIter.Valid() {
        dataIter := null;
      } else {
        ghost var i := indexIter.position;
        IndexShows(image.cut, i);
        var handle := indexIter.Value();
        if dataIter != null && handle == dataBlockHandle {
          SameBlock(table, image, i, block);
        } else {
          var iter := BlockReader(table, handle, image, i);
          dataBlockHandle := handle;
          dataIter := iter;
          block := i;
        }
      }
    }

    /** Going forward, the next entry is entry g. */
    ghost predicate HeadedTo(g: nat)
      reads this, indexIter, dataIter
    {
      && Inv()
      && Synced()
      && if indexIter.Valid() then g == image.cut.starts[indexIter.position] + dataIter.position
         else g == |image.cut.run|
    }

    lemma HeadedFacts(g: nat)
      requires HeadedTo(g)
      ensures indexIter.position <= |image.cut.handles|
      ensures (indexIter.Valid() <==> indexIter.position < |image.cut.handles|)
      ensures indexIter.Valid() && !Valid() ==> g == image.cut.starts[indexIter.position + 1]
      ensures |image.cut.starts| == |image.cut.handles| + 1 && image.cut.starts[|image.cut.handles|] == |image.cut.run|
      ensures g <= |image.cut.run| && (Valid() ==> g < |image.cut.run| && indexIter.Valid())
    {
      hide Opens, Complete, InternalLess, EncodeHandle, Cut.Part, Cut.Index, Iter.Inv, Iter.Valid, Iter.Value;
      ShapeOf(image.cut);
      indexIter.Shown();
      if indexIter.Valid() {
        dataIter.Shown();
        PartSorted(image.cut, indexIter.position);
      }
    }

    method SkipEmptyDataBlocksForward(ghost g: nat)
      requires HeadedTo(g)
      modifies this, indexIter, dataIter
      ensures At(g)
      ensures dataIter == null || dataIter == old(dataIter) || fresh(dataIter)
    {
      hide Opens, Complete, InternalLess, EncodeHandle, Cut.Part, Cut.Index, Iter.Inv, Iter.Valid, Iter.Value;
      while dataIter == null || !dataIter.Valid()
        invariant HeadedTo(g)
        invariant dataIter == null || dataIter == old(dataIter) || fresh(dataIter)
        decreases |image.cut.handles| - indexIter.position
      {
        HeadedFacts(g);
        if !indexIter.Valid() {
          dataIter := null;
          return;
        }
        indexIter.Next();
        InitDataBlock();
        indexIter.Shown();
        ShapeOf(image.cut);
        if dataIter != null {
          dataIter.SeekToFirst();
        }
      }
      HeadedFacts(g);
    }

    method SeekToFirst()
      requires Inv()
      modifies this, indexIter, dataIter
      ensures At(0)
      ensures dataIter == null || dataIter == old(dataIter) || fresh(dataIter)
    {
      hide Opens, Complete, InternalLess, EncodeHandle, Cut.Part, Cut.Index, Iter.Inv, Iter.Valid, Iter.Value;
      ShapeOf(image.cut);
      indexIter.SeekToFirst();
      InitDataBlock();
      if dataIter != null {
        dataIter.SeekToFirst();
      }
      indexIter.Shown();
      SkipEmptyDataBlocksForward(0);
    }

    method Next(ghost g: nat)
      requires At(g) && Valid()
      modifies this, indexIter, dataIter
      ensures At(g + 1)
      ensures dataIter == null || dataIter == old(dataIter) || fresh(dataIter)
    {
      hide Opens, Complete, InternalLess, EncodeHandle, Cut.Part, Cut.Index, Iter.Inv, Iter.Valid, Iter.Value;
      dataIter.Next();
      SkipEmptyDataBlocksForward(g + 1);
    }

    /** The first entry that is not before the target. */
    method Seek(target: Bytes) returns (ghost g: nat)
      requires Inv()
      modifies this, indexIter, dataIter
      ensures At(g) && LandsOn(InternalLess, image.cut.run, target, g)
      ensures dataIter == null || dataIter == old(dataIter) || fresh(dataIter)
    {
      hide Opens, Complete, InternalLess, EncodeHandle, Cut.Part, Cut.Index, Iter.Inv, Iter.Valid, Iter.Value, LandsOn;
      ShapeOf(image.cut);
      IndexMonotone(image.cut, target);
      indexIter.Seek(target);
      InitDataBlock();
      indexIter.Shown();
      ghost var i, j := indexIter.position, 0;
      if dataIter != null {
        PartSorted(image.cut, i);
        RunMonotone(image.cut.Part(i), target);
        dataIter.Seek(target);
        j := dataIter.position;
      }
      TwoLevelsLand(image.cut, target, i, j);
      g := image.cut.starts[i] + j;
      SkipEmptyDataBlocksForward(g);
    }

    /** Going back, the next entry is the one before entry w. */
    ghost predicate BackTo(w: nat)
      reads this, indexIter, dataIter
    {
      && Inv()
      && Synced()
      && if !indexIter.Valid() then w == 0
         else if dataIter.Valid() then w == image.cut.starts[indexIter.position] + dataIter.position + 1
         else w == image.cut.starts[indexIter.position]
    }

    lemma BackFacts(w: nat)
      requires BackTo(w)
      ensures indexIter.Valid() ==> indexIter.position < |image.cut.handles|
      ensures |image.cut.starts| == |image.cut.handles| + 1 && image.cut.starts[0] == 0
      ensures image.cut.starts[|image.cut.handles|] == |image.cut.run|
      ensures w <= |image.cut.run| && (Valid() ==> w > 0 && indexIter.Valid())
    {
      hide Opens, Complete, InternalLess, EncodeHandle, Cut.Part, Cut.Index, Iter.Inv, Iter.Valid, Iter.Value;
      ShapeOf(image.cut);
      indexIter.Shown();
      if indexIter.Valid() {
        dataIter.Shown();
        PartSorted(image.cut, indexIter.position);
      }
    }

    method SkipEmptyDataBlocksBackward(ghost w: nat)
      requires BackTo(w)
      modifies this, indexIter, dataIter
      ensures At(if w > 0 then w - 1 else |image.cut.run|)
      ensures dataIter == null || dataIter == old(dataIter) || fresh(dataIter)
    {
      hide Opens, Complete, InternalLess, EncodeHandle, Cut.Part, Cut.Index, Iter.Inv, Iter.Valid, Iter.Value;
      while dataIter == null || !dataIter.Valid()
        invariant BackTo(w)
        invariant dataIter == null || dataIter == old(dataIter) || fresh(dataIter)
        decreases if indexIter.Valid() then indexIter.position + 1 else 0
      {
        BackFacts(w);
        if !indexIter.Valid() {
          dataIter := null;
          return;
        }
        indexIter.Prev();
        InitDataBlock();
        indexIter.Shown();
        ShapeOf(image.cut);
        if dataIter != null {
          PartSorted(image.cut, indexIter.position);
          dataIter.SeekToLast();
          dataIter.Shown();
        }
      }
      BackFacts(w);
    }

    method SeekToLast()
      requires Inv()
      modifies this, indexIter, dataIter
      ensures At(if |image.cut.run| > 0 then |image.cut.run| - 1 else 0)
      ensures dataIter == null || dataIter == old(dataIter) || fresh(dataIter)
    {
      hide Opens, Complete, InternalLess, EncodeHandle, Cut.Part, Cut.Index, Iter.Inv, Iter.Valid, Iter.Value;
      ShapeOf(image.cut);
      indexIter.SeekToLast();
      InitDataBlock();
      indexIter.Shown();
      if dataIter != null {
        PartSorted(image.cut, indexIter.position);
        dataIter.SeekToLast();
        dataIter.Shown();
      }
      SkipEmptyDataBlocksBackward(|image.cut.run|);
    }

    method Prev(ghost g: nat)
      requires At(g) && Valid()
      modifies this, indexIter, dataIter
      ensures At(if g > 0 then g - 1 else |image.cut.run|)
      ensures dataIter == null || dataIter == old(dataIter) || fresh(dataIter)
    {
      hide Opens, Complete, InternalLess, EncodeHandle, Cut.Part, Cut.Index, Iter.Inv, Iter.Valid, Iter.Value;
      dataIter.Shown();
      dataIter.Prev();
      dataIter.Shown();
      SkipEmptyDataBlocksBackward(g);
    }
  }
}
