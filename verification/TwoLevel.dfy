/**
 TwoLevelIterator: an iterator over an index whose values name blocks, as one
 iterator over the concatenation of the blocks (table/two_level_iterator.cc).
 */
module TwoLevel {
  import opened Keys
  import opened Cursors
  import Lookup

  /** What the block function reads behind each handle. */
  type Blocks = map<Value, seq<Entry>>

  /** A handle that cannot be read gives an error iterator, which is empty. */
  function Block(blocks: Blocks, handle: Value): seq<Entry>
  {
    if handle in blocks then blocks[handle] else []
  }

  /** The i-th block is sorted and lies after the previous index key, up to its own. */
  ghost predicate InPlace(index: seq<Entry>, blocks: Blocks, i: nat)
    requires i < |index|
  {
    var block := Block(blocks, index[i].value);
    && Sorted(block)
    && (forall e :: e in block ==> AtMost(e.ikey, index[i].ikey))
    && (i > 0 ==> forall e :: e in block ==> Less(index[i - 1].ikey, e.ikey))
  }

  ghost predicate Separates(index: seq<Entry>, blocks: Blocks)
  {
    Sorted(index) && forall i :: 0 <= i < |index| ==> InPlace(index, blocks, i)
  }

  lemma AfterEarlierKeys(index: seq<Entry>, blocks: Blocks, i: nat, j: nat, e: Entry)
    requires Separates(index, blocks) && i < j < |index| && e in Block(blocks, index[j].value)
    ensures Less(index[i].ikey, e.ikey)
  {
    assert InPlace(index, blocks, j);
    assert Less(index[j - 1].ikey, e.ikey);
    if i < j - 1 { assert Less(index[i].ikey, index[j - 1].ikey); }
  }

  /** Position of the i-th block's first entry in the concatenation. */
  function Start(index: seq<Entry>, blocks: Blocks, i: nat): nat
    requires i <= |index|
  {
    if i == 0 then 0 else Start(index, blocks, i - 1) + |Block(blocks, index[i - 1].value)|
  }

  /** The first n blocks, one after the other. */
  function Flat(index: seq<Entry>, blocks: Blocks, n: nat): (es: seq<Entry>)
    requires n <= |index|
    ensures |es| == Start(index, blocks, n)
  {
    if n == 0 then [] else Flat(index, blocks, n - 1) + Block(blocks, index[n - 1].value)
  }

  lemma {:induction false} FlatAt(index: seq<Entry>, blocks: Blocks, n: nat, i: nat, j: nat)
    requires i < n <= |index| && j < |Block(blocks, index[i].value)|
    ensures Start(index, blocks, i) + j < Start(index, blocks, n)
    ensures Flat(index, blocks, n)[Start(index, blocks, i) + j] == Block(blocks, index[i].value)[j]
  {
    if i < n - 1 { FlatAt(index, blocks, n - 1, i, j); }
  }

  lemma {:induction false} FlatFrom(index: seq<Entry>, blocks: Blocks, n: nat, e: Entry) returns (i: nat)
    requires n <= |index| && e in Flat(index, blocks, n)
    ensures i < n && e in Block(blocks, index[i].value)
  {
    if e in Block(blocks, index[n - 1].value) {
      i := n - 1;
    } else {
      i := FlatFrom(index, blocks, n - 1, e);
    }
  }

  lemma EarlierBlock(index: seq<Entry>, blocks: Blocks, n: nat, d: Entry, e: Entry)
    requires Separates(index, blocks) && n < |index| && d in Flat(index, blocks, n) &&
             e in Block(blocks, index[n].value)
    ensures Less(d.ikey, e.ikey)
  {
    var i := FlatFrom(index, blocks, n, d);
    assert InPlace(index, blocks, i);
    AfterEarlierKeys(index, blocks, i, n, e);
  }

  lemma {:induction false} FlatSorted(index: seq<Entry>, blocks: Blocks, n: nat)
    requires Separates(index, blocks) && n <= |index|
    ensures Sorted(Flat(index, blocks, n))
  {
    if n > 0 {
      FlatSorted(index, blocks, n - 1);
      var a, b := Flat(index, blocks, n - 1), Block(blocks, index[n - 1].value);
      assert InPlace(index, blocks, n - 1);
      hide Separates, Sorted;
      forall d, e | d in a && e in b ensures Less(d.ikey, e.ikey) { EarlierBlock(index, blocks, n - 1, d, e); }
      SortedJoin(a, b);
    }
  }

  lemma SortedJoin(a: seq<Entry>, b: seq<Entry>)
    requires Sorted(a) && Sorted(b) && forall d, e :: d in a && e in b ==> Less(d.ikey, e.ikey)
    ensures Sorted(a + b)
  {
    forall i, j | 0 <= i < j < |a + b| ensures Less((a + b)[i].ikey, (a + b)[j].ikey) {
      if i < |a| <= j { assert a[i] in a && b[j - |a|] in b; }
    }
  }

  // ---- Positions -----------------------------------------------------------------

  /** The entries of the concatenation before the place where a forward move stands:
      a data cursor that ran off its block stands before the next block. */
  ghost function ForwardGap(index: Cursor, data: Option<Cursor>, blocks: Blocks): nat
    requires index.WellFormed() && (data.Some? ==> index.Valid())
  {
    if data.None? then Start(index.es, blocks, |index.es|)
    else if data.value.Valid() then Start(index.es, blocks, index.pos.value) + data.value.pos.value
    else Start(index.es, blocks, index.pos.value + 1)
  }

  /** The entries of the concatenation up to and including the place where a backward
      move stands: a data cursor that ran off its block stands after the previous one. */
  ghost function BackwardGap(index: Cursor, data: Option<Cursor>, blocks: Blocks): nat
    requires index.WellFormed() && (data.Some? ==> index.Valid())
  {
    if data.None? then 0
    else if data.value.Valid() then Start(index.es, blocks, index.pos.value) + data.value.pos.value + 1
    else Start(index.es, blocks, index.pos.value)
  }

  /** The cursor with g entries before it. */
  ghost function AtGap(all: seq<Entry>, g: nat): Cursor
  {
    Cursor(all, if g < |all| then Some(g) else None)
  }

  /** The cursor on the g-th entry, counting from one. */
  ghost function UpToGap(all: seq<Entry>, g: nat): Cursor
  {
    Cursor(all, if g > 0 then Some(g - 1) else None)
  }

  class TwoLevelIterator {
    const blocks: Blocks
    var index: Cursor
    var data: Option<Cursor>
    var handle: Value

    /** The data cursor is always on the block of the cached handle. */
    ghost predicate Cached()
      reads this
    {
      && index.WellFormed() && Separates(index.es, blocks)
      && (data.Some? ==> data.value.WellFormed() && data.value.es == Block(blocks, handle))
    }

    /** There is a data cursor exactly when the index cursor is on an entry, and it
        is on that entry's block. */
    ghost predicate Linked()
      reads this
    {
      Cached() && data.Some? == index.Valid() && (data.Some? ==> handle == index.Current().value)
    }

    /** What holds between moves. */
    ghost predicate Valid()
      reads this
    {
      Cached() && (data.Some? ==> Linked() && data.value.Valid())
    }

    ghost function All(): seq<Entry>
      reads this
      requires index.WellFormed()
    {
      Flat(index.es, blocks, |index.es|)
    }

    /** The iterator as a cursor over the concatenation of its blocks. */
    ghost function Abs(): (c: Cursor)
      reads this
      requires Valid()
      ensures c.WellFormed() && c.Valid() == data.Some?
      ensures c.Valid() ==> c.Current() == data.value.Current()
    {
      FlatSorted(index.es, blocks, |index.es|);
      if data.None? then Cursor(All(), None)
      else
        FlatAt(index.es, blocks, |index.es|, index.pos.value, data.value.pos.value);
        Cursor(All(), Some(Start(index.es, blocks, index.pos.value) + data.value.pos.value))
    }

    constructor (index: Cursor, blocks: Blocks)
      requires index.WellFormed() && Separates(index.es, blocks)
      ensures Valid() && Abs() == Cursor(Flat(index.es, blocks, |index.es|), None)
    {
      this.index, this.blocks, data, handle := index, blocks, None, "";
    }

    method InitDataBlock()
      requires Cached()
      modifies this`data, this`handle
      ensures Linked()
    {
      if !index.Valid() {
        data := None;
      } else {
        var h := index.Current().value;
        if data.None? || h != handle {
          assert InPlace(index.es, blocks, index.pos.value);
          handle := h;
          data := Some(Cursor(Block(blocks, h), None));
        }
      }
    }

    method SkipEmptyDataBlocksForward()
      requires Linked()
      modifies this
      ensures Valid() && index.es == old(index.es)
      ensures Abs() == AtGap(All(), old(ForwardGap(index, data, blocks)))
    {
      hide Separates, Sorted;
      ghost var es := index.es;
      while data.None? || !data.value.Valid()
        invariant Linked() && index.es == es
        invariant ForwardGap(index, data, blocks) == old(ForwardGap(index, data, blocks))
        decreases if index.Valid() then |es| - index.pos.value else 0
      {
        if !index.Valid() {
          data := None;
          return;
        }
        index := index.Next();
        InitDataBlock();
        if data.Some? { data := Some(data.value.SeekToFirst()); }
      }
    }

    method SkipEmptyDataBlocksBackward()
      requires Linked()
      modifies this
      ensures Valid() && index.es == old(index.es)
      ensures Abs() == UpToGap(All(), old(BackwardGap(index, data, blocks)))
    {
      hide Separates, Sorted;
      ghost var es := index.es;
      while data.None? || !data.value.Valid()
        invariant Linked() && index.es == es
        invariant BackwardGap(index, data, blocks) == old(BackwardGap(index, data, blocks))
        decreases if index.Valid() then index.pos.value + 1 else 0
      {
        if !index.Valid() {
          data := None;
          return;
        }
        index := index.Prev();
        InitDataBlock();
        if data.Some? { data := Some(data.value.SeekToLast()); }
      }
    }

    method SeekToFirst()
      requires Valid()
      modifies this
      ensures Valid() && Abs() == old(Abs()).SeekToFirst()
    {
      hide Separates, Sorted;
      index := index.SeekToFirst();
      InitDataBlock();
      if data.Some? { data := Some(data.value.SeekToFirst()); }
      FirstGap(index, data, blocks);
      SkipEmptyDataBlocksForward();
    }

    method SeekToLast()
      requires Valid()
      modifies this
      ensures Valid() && Abs() == old(Abs()).SeekToLast()
    {
      hide Separates, Sorted;
      index := index.SeekToLast();
      InitDataBlock();
      if data.Some? { data := Some(data.value.SeekToLast()); }
      LastGap(index, data, blocks);
      SkipEmptyDataBlocksBackward();
    }

    method Seek(target: IKey)
      requires Valid()
      modifies this
      ensures Valid() && Abs() == old(Abs()).Seek(target)
    {
      index := index.Seek(target);
      InitDataBlock();
      if data.Some? { data := Some(data.value.Seek(target)); }
      FlatSorted(index.es, blocks, |index.es|);
      assert data.Some? ==> InPlace(index.es, blocks, index.pos.value);
      hide Separates, Sorted, ForwardGap;
      SeekLands(index, data, blocks, target);
      SkipEmptyDataBlocksForward();
    }

    method Next()
      requires Valid() && data.Some?
      modifies this
      ensures Valid() && Abs() == old(Abs()).Next()
    {
      hide Separates, Sorted;
      NextGap(index, data.value, blocks);
      data := Some(data.value.Next());
      SkipEmptyDataBlocksForward();
    }

    method Prev()
      requires Valid() && data.Some?
      modifies this
      ensures Valid() && Abs() == old(Abs()).Prev()
    {
      hide Separates, Sorted;
      data := Some(data.value.Prev());
      SkipEmptyDataBlocksBackward();
    }
  }

  lemma FirstGap(index: Cursor, data: Option<Cursor>, blocks: Blocks)
    requires index.WellFormed() && index == index.SeekToFirst()
    requires data.Some? == index.Valid()
    requires data.Some? ==> data.value.WellFormed() && data.value.es == Block(blocks, index.Current().value)
    requires data.Some? ==> data.value == data.value.SeekToFirst()
    ensures ForwardGap(index, data, blocks) == 0
  {
    assert Start(index.es, blocks, 0) == 0;
    if data.Some? {
      assert index.pos.value == 0;
      assert Start(index.es, blocks, 1) == |Block(blocks, index.es[0].value)|;
    }
  }

  lemma LastGap(index: Cursor, data: Option<Cursor>, blocks: Blocks)
    requires index.WellFormed() && index == index.SeekToLast()
    requires data.Some? == index.Valid()
    requires data.Some? ==> data.value.WellFormed() && data.value.es == Block(blocks, index.Current().value)
    requires data.Some? ==> data.value == data.value.SeekToLast()
    ensures BackwardGap(index, data, blocks) == Start(index.es, blocks, |index.es|)
  {
    if data.Some? {
      var n := |index.es|;
      assert index.pos.value == n - 1;
      assert Start(index.es, blocks, n) == Start(index.es, blocks, n - 1) + |Block(blocks, index.es[n - 1].value)|;
    }
  }

  lemma NextGap(index: Cursor, data: Cursor, blocks: Blocks)
    requires index.WellFormed() && index.Valid() && data.WellFormed() && data.Valid()
    requires data.es == Block(blocks, index.Current().value)
    ensures ForwardGap(index, Some(data.Next()), blocks) ==
            Start(index.es, blocks, index.pos.value) + data.pos.value + 1
  {
    assert Start(index.es, blocks, index.pos.value + 1) == Start(index.es, blocks, index.pos.value) + |data.es|;
  }

  /** Seeking the index, then the block it names, stands before the first entry of the
      concatenation at or after the target. */
  lemma SeekLands(index: Cursor, data: Option<Cursor>, blocks: Blocks, target: IKey)
    requires index.WellFormed() && Separates(index.es, blocks) && Sorted(Flat(index.es, blocks, |index.es|))
    requires index == Cursor(index.es, None).Seek(target)
    requires data.Some? == index.Valid()
    requires data.Some? ==> InPlace(index.es, blocks, index.pos.value)
    requires data.Some? ==> data.value == Cursor(Block(blocks, index.Current().value), None).Seek(target)
    ensures ForwardGap(index, data, blocks) == Lookup.FirstAtLeast(Flat(index.es, blocks, |index.es|), target)
  {
    hide Sorted, Separates;
    var all, g := Flat(index.es, blocks, |index.es|), SeekGap(index.es, blocks, target);
    var i := Lookup.FirstAtLeast(index.es, target);
    if i < |index.es| {
      assert Start(index.es, blocks, i + 1) == Start(index.es, blocks, i) + |Block(blocks, index.es[i].value)|;
      StartIncreases(index.es, blocks, i + 1, |index.es|);
    }
    forall m | 0 <= m < |all| ensures Less(all[m].ikey, target) <==> m < g {
      SideOfGap(index.es, blocks, target, m);
    }
    IsFirst(all, target, g);
  }

  /** Where seeking the index, then the block it names, ends up. */
  ghost function SeekGap(index: seq<Entry>, blocks: Blocks, target: IKey): nat
    requires Separates(index, blocks)
  {
    var i := Lookup.FirstAtLeast(index, target);
    assert i < |index| ==> InPlace(index, blocks, i);
    if i == |index| then Start(index, blocks, i)
    else Start(index, blocks, i) + Lookup.FirstAtLeast(Block(blocks, index[i].value), target)
  }

  lemma SideOfGap(index: seq<Entry>, blocks: Blocks, target: IKey, m: nat)
    requires Separates(index, blocks) && m < Start(index, blocks, |index|)
    ensures Less(Flat(index, blocks, |index|)[m].ikey, target) <==> m < SeekGap(index, blocks, target)
  {
    var i := Lookup.FirstAtLeast(index, target);
    var b, j := Locate(index, blocks, |index|, m);
    SideOfTarget(index, blocks, target, b, j);
    hide Separates, Sorted, Flat, Less;
    assert Start(index, blocks, b + 1) == Start(index, blocks, b) + |Block(blocks, index[b].value)|;
    if b < i {
      StartIncreases(index, blocks, b + 1, i);
    } else if b > i {
      assert Start(index, blocks, i + 1) == Start(index, blocks, i) + |Block(blocks, index[i].value)|;
      StartIncreases(index, blocks, i + 1, b);
    }
  }

  lemma SideOfTarget(index: seq<Entry>, blocks: Blocks, target: IKey, b: nat, j: nat)
    requires Separates(index, blocks) && b < |index| && j < |Block(blocks, index[b].value)|
    ensures var i, block := Lookup.FirstAtLeast(index, target), Block(blocks, index[b].value);
            Sorted(block) && (Less(block[j].ikey, target) <==>
                              b < i || (b == i && j < Lookup.FirstAtLeast(block, target)))
  {
    var i, e := Lookup.FirstAtLeast(index, target), Block(blocks, index[b].value)[j];
    assert InPlace(index, blocks, b);
    if b < i {
      assert AtMost(e.ikey, index[b].ikey) && Less(index[b].ikey, target);
    } else if b > i {
      AfterEarlierKeys(index, blocks, i, b, e);
      assert AtMost(target, index[i].ikey);
    }
  }

  lemma IsFirst(all: seq<Entry>, target: IKey, g: nat)
    requires Sorted(all) && g <= |all|
    requires forall m :: 0 <= m < |all| ==> (Less(all[m].ikey, target) <==> m < g)
    ensures Lookup.FirstAtLeast(all, target) == g
  {
    var f := Lookup.FirstAtLeast(all, target);
    assert f < |all| ==> AtMost(target, all[f].ikey);
    assert g < |all| ==> AtMost(target, all[g].ikey);
  }

  lemma {:induction false} StartIncreases(index: seq<Entry>, blocks: Blocks, i: nat, j: nat)
    requires i <= j <= |index|
    ensures Start(index, blocks, i) <= Start(index, blocks, j)
  {
    if i < j { StartIncreases(index, blocks, i, j - 1); }
  }

  /** Every position of the concatenation lies in one block. */
  lemma {:induction false} Locate(index: seq<Entry>, blocks: Blocks, n: nat, m: nat) returns (i: nat, j: nat)
    requires n <= |index| && m < Start(index, blocks, n)
    ensures i < n && j < |Block(blocks, index[i].value)| && m == Start(index, blocks, i) + j
    ensures Flat(index, blocks, n)[m] == Block(blocks, index[i].value)[j]
  {
    if m < Start(index, blocks, n - 1) {
      i, j := Locate(index, blocks, n - 1, m);
    } else {
      i, j := n - 1, m - Start(index, blocks, n - 1);
    }
  }
}
