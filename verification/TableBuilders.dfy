/**
 TableBuilder: rows added in order become data blocks, index keys and filters
 (table/table_builder.cc).
 */
module TableBuilders {
  import opened Separators
  import opened FilterBlock
  import opened Tables
  import Bloom
  import Keys
  import Seqs

  ghost function Flat(blocks: seq<Block>): seq<Row>
  {
    if blocks == [] then [] else Flat(blocks[..|blocks| - 1]) + blocks[|blocks| - 1].rows
  }

  lemma FlatSnoc(blocks: seq<Block>, b: Block)
    ensures Flat(blocks + [b]) == Flat(blocks) + b.rows
  {
    assert (blocks + [b])[..|blocks|] == blocks;
  }

  // ---- Filters of the rows so far -------------------------------------------------------

  /** The user key is in the filter of its block offset, or waits to go into it. */
  ghost predicate Covered(groups: seq<seq<Bytes>>, pending: seq<Bytes>, offset: nat, user: Bytes)
    requires Internal(pending)
  {
    var i := offset / BASE;
    if i < |groups| then user in groups[i] else i == |groups| && user in UserKeys(pending)
  }

  ghost predicate BlocksCovered(groups: seq<seq<Bytes>>, pending: seq<Bytes>, blocks: seq<Block>)
    requires Internal(pending)
  {
    forall i, r :: 0 <= i < |blocks| && r in blocks[i].rows ==> Covered(groups, pending, blocks[i].offset, r.key.user)
  }

  ghost predicate RowsCovered(groups: seq<seq<Bytes>>, pending: seq<Bytes>, offset: nat, rows: seq<Row>)
    requires Internal(pending)
  {
    forall r :: r in rows ==> Covered(groups, pending, offset, r.key.user)
  }

  lemma CoveredByMore(groups: seq<seq<Bytes>>, pending: seq<Bytes>, key: Bytes, offset: nat, user: Bytes)
    requires Internal(pending) && |key| >= 8 && Covered(groups, pending, offset, user)
    ensures Covered(groups, pending + [key], offset, user)
  {
    assert UserKeys(pending + [key]) == UserKeys(pending) + [ExtractUserKey(key)];
  }

  lemma CoveredAfterGenerate(groups: seq<seq<Bytes>>, pending: seq<Bytes>, more: seq<seq<Bytes>>, offset: nat,
                             user: Bytes)
    requires Internal(pending) && Covered(groups, pending, offset, user) && groups + [UserKeys(pending)] <= more
    ensures Covered(more, [], offset, user)
  {
    var i := offset / BASE;
    assert more[i] == (groups + [UserKeys(pending)])[i];
  }

  // ---- The builder --------------------------------------------------------------------------

  /** Blocks, the block being filled, index keys and the last key fit together. */
  ghost predicate Shape(blocks: seq<Block>, current: seq<Row>, index: seq<InternalKey>, lastKey: InternalKey,
                        pendingIndex: bool)
  {
    && IndexOk(index, blocks) && SortedRows(current)
    && (pendingIndex ==> current == [] && |index| + 1 == |blocks|)
    && (!pendingIndex ==> |index| == |blocks|)
    && (current != [] ==> lastKey == current[|current| - 1].key)
    && (current == [] && blocks != [] ==> lastKey == Last(blocks[|blocks| - 1]) && pendingIndex)
    && (current != [] ==> forall i :: 0 <= i < |blocks| ==> Less(Last(blocks[i]), current[0].key))
    && (current != [] && blocks != [] ==> Separator(Last(blocks[|blocks| - 1]), current[0].key, index[|index| - 1]))
  }

  class TableBuilder {
    const filter: FilterBlockBuilder
    var blocks: seq<Block>
    var current: seq<Row>
    var index: seq<InternalKey>
    var lastKey: InternalKey
    var pendingIndex: bool
    /** Bytes written to the file so far. */
    var offset: nat

    ghost predicate Valid()
      reads this, filter
    {
      && filter.Valid() && Shape(blocks, current, index, lastKey, pendingIndex)
      && |filter.groups| == offset / BASE
      && BlocksCovered(filter.groups, filter.pending, blocks)
      && RowsCovered(filter.groups, filter.pending, offset, current)
    }

    /** The rows added, in order. */
    ghost function Rows(): seq<Row>
      reads this
    {
      Flat(blocks) + current
    }

    constructor (hash: Bloom.Hash, bitsPerKey: nat)
      ensures Valid() && Rows() == [] && fresh(filter) && filter.hash == hash && blocks == [] && current == []
      ensures filter.bitsPerKey == bitsPerKey && filter.Weight() == 0
    {
      filter := new FilterBlockBuilder(hash, bitsPerKey);
      blocks, current, index, pendingIndex, offset := [], [], [], false, 0;
      lastKey := InternalKey([], 0);
    }

    /** full says that the block has reached its target size; size is what it then takes
        in the file. */
    method Add(row: Row, full: bool, size: nat)
      requires Valid() && (blocks != [] || current != [] ==> Less(lastKey, row.key))
      modifies this, filter
      ensures Valid() && Rows() == old(Rows()) + [row] && lastKey == row.key
      ensures filter.Weight() <= old(filter.Weight()) + filter.bitsPerKey + 10
    {
      hide Shape, Covered, Less, KeyBytes;
      AddShape(blocks, current, index, lastKey, pendingIndex, row);
      if pendingIndex {
        var k := InternalSeparator(lastKey, row.key);
        index := index + [k];
        pendingIndex := false;
      }
      AddCovered(filter.groups, filter.pending, blocks, offset, current, row);
      filter.AddKey(EncodeKey(row.key));
      lastKey := row.key;
      Seqs.Associative(Flat(blocks), current, [row]);
      current := current + [row];
      if full { Flush(size); }
    }

    method Flush(size: nat)
      requires Valid()
      modifies this, filter
      ensures Valid() && Rows() == old(Rows()) && current == [] && lastKey == old(lastKey)
      ensures old(current) == [] ==> blocks == old(blocks) && index == old(index) && pendingIndex == old(pendingIndex)
      ensures filter.Weight() <= old(filter.Weight())
    {
      hide Shape, Covered, KeyBytes, BlocksCovered, RowsCovered, Flat;
      if current == [] { return; }
      FlushShape(blocks, current, index, lastKey, pendingIndex, offset);
      var b := Block(offset, current);
      FlatSnoc(blocks, b);
      Seqs.RightEmpty(Flat(blocks + [b]));
      FlushCovered(filter.groups, filter.pending, blocks, b);
      blocks, current, pendingIndex := blocks + [b], [], true;
      var next := offset + size + TRAILER;
      ghost var groups, pending := filter.groups, filter.pending;
      filter.StartBlock(next);
      if |filter.groups| > |groups| { StartCovered(groups, pending, blocks, filter.groups); }
      NoRowsCovered(filter.groups, filter.pending, next);
      offset := next;
    }

    /** The last index key has no block after it. The filters are complete. */
    method Finish(size: nat) returns (units: seq<Bytes>)
      requires Valid()
      modifies this, filter
      ensures filter.Valid() && units == filter.units && Flat(blocks) == old(Rows())
      ensures IndexOk(index, blocks) && |index| == |blocks|
      ensures Filtered(filter.groups, blocks)
      ensures filter.units != [] && |filter.units[0]| <= old(filter.Weight())
    {
      hide Shape, Covered, IndexOk, BlocksCovered, Filtered, KeyBytes;
      Flush(size);
      Seqs.RightEmpty(Flat(blocks));
      ghost var groups, pending := filter.groups, filter.pending;
      units := filter.ReturnFilters();
      FinishCovered(groups, pending, blocks, filter.groups);
      if pendingIndex {
        var k := InternalSuccessor(lastKey);
        LastIndexKey(blocks, index, lastKey, k);
        index := index + [k];
        pendingIndex := false;
      } else {
        Complete(blocks, index, lastKey);
      }
    }
  }

  lemma AddShape(blocks: seq<Block>, current: seq<Row>, index: seq<InternalKey>, lastKey: InternalKey,
                 pendingIndex: bool, row: Row)
    requires Shape(blocks, current, index, lastKey, pendingIndex)
    requires blocks != [] || current != [] ==> Less(lastKey, row.key)
    ensures !pendingIndex ==> Shape(blocks, current + [row], index, row.key, false)
    ensures pendingIndex ==> blocks != []
    ensures pendingIndex ==> forall k :: Separator(lastKey, row.key, k) && AtMost(lastKey, k) ==>
              Shape(blocks, current + [row], index + [k], row.key, false)
  {
    hide Less, AtMost, Separator;
    if pendingIndex {
      forall k | Separator(lastKey, row.key, k) && AtMost(lastKey, k)
        ensures Shape(blocks, current + [row], index + [k], row.key, false)
      {
        AfterPending(blocks, index, lastKey, row, k);
        assert current + [row] == [row];
      }
    } else if current == [] {
      assert current + [row] == [row];
    } else {
      SortedSnoc(current, row);
    }
  }

  lemma SortedSnoc(rows: seq<Row>, row: Row)
    requires SortedRows(rows) && (rows != [] ==> Less(rows[|rows| - 1].key, row.key))
    ensures SortedRows(rows + [row])
  {
    hide Less;
    var all := rows + [row];
    forall i, j | 0 <= i < j < |all| ensures Less(all[i].key, all[j].key) {
      if j == |rows| && i < |rows| - 1 { LessTransitive(rows[i].key, rows[|rows| - 1].key, row.key); }
    }
  }

  lemma AfterPending(blocks: seq<Block>, index: seq<InternalKey>, lastKey: InternalKey, row: Row, k: InternalKey)
    requires Shape(blocks, [], index, lastKey, true) && Less(lastKey, row.key)
    requires Separator(lastKey, row.key, k) && AtMost(lastKey, k)
    ensures Shape(blocks, [row], index + [k], row.key, false)
  {
    hide Less, AtMost;
    var n := |blocks| - 1;
    forall i | 0 <= i < |blocks| ensures Less(Last(blocks[i]), row.key) {
      if i < n {
        var last := blocks[n].rows[|blocks[n].rows| - 1];
        LaterBlock(blocks, i, n, last);
        LessTransitive(Last(blocks[i]), lastKey, row.key);
      }
    }
    assert IndexKeyOk(blocks, n, k);
    forall i | 0 <= i < |index + [k]| ensures IndexKeyOk(blocks, i, (index + [k])[i]) {
      if i < n { assert IndexKeyOk(blocks, i, index[i]); }
    }
  }

  lemma FlushShape(blocks: seq<Block>, current: seq<Row>, index: seq<InternalKey>, lastKey: InternalKey,
                   pendingIndex: bool, offset: nat)
    requires Shape(blocks, current, index, lastKey, pendingIndex) && current != []
    ensures !pendingIndex && Shape(blocks + [Block(offset, current)], [], index, lastKey, true)
  {
    assert SortedRows([]);
    hide Less, AtMost, Separator, SortedRows;
    var bs := blocks + [Block(offset, current)];
    assert BlocksOk(bs);
    forall i | 0 <= i < |index| ensures IndexKeyOk(bs, i, index[i]) {
      assert IndexKeyOk(blocks, i, index[i]);
    }
  }

  lemma LastIndexKey(blocks: seq<Block>, index: seq<InternalKey>, lastKey: InternalKey, k: InternalKey)
    requires Shape(blocks, [], index, lastKey, true) && AtMost(lastKey, k)
    requires k == lastKey || LexLess(lastKey.user, k.user)
    ensures IndexOk(index + [k], blocks) && |index + [k]| == |blocks|
  {
    hide Less, AtMost, Separator, SortedRows;
    var n := |blocks| - 1;
    forall i | 0 <= i < |index + [k]| ensures IndexKeyOk(blocks, i, (index + [k])[i]) {
      if i < n { assert IndexKeyOk(blocks, i, index[i]); }
    }
  }

  lemma Complete(blocks: seq<Block>, index: seq<InternalKey>, lastKey: InternalKey)
    requires Shape(blocks, [], index, lastKey, false)
    ensures IndexOk(index, blocks) && |index| == |blocks|
  {
  }

  lemma AddCovered(groups: seq<seq<Bytes>>, pending: seq<Bytes>, blocks: seq<Block>, offset: nat, rows: seq<Row>,
                   row: Row)
    requires Internal(pending) && BlocksCovered(groups, pending, blocks) && RowsCovered(groups, pending, offset, rows)
    requires |groups| == offset / BASE
    ensures Internal(pending + [EncodeKey(row.key)])
    ensures BlocksCovered(groups, pending + [EncodeKey(row.key)], blocks)
    ensures RowsCovered(groups, pending + [EncodeKey(row.key)], offset, rows + [row])
  {
    var key := EncodeKey(row.key);
    forall i, r | 0 <= i < |blocks| && r in blocks[i].rows
      ensures Covered(groups, pending + [key], blocks[i].offset, r.key.user)
    {
      CoveredByMore(groups, pending, key, blocks[i].offset, r.key.user);
    }
    forall r | r in rows + [row] ensures Covered(groups, pending + [key], offset, r.key.user) {
      if r in rows { CoveredByMore(groups, pending, key, offset, r.key.user); }
      assert UserKeys(pending + [key])[|pending|] == row.key.user;
    }
  }

  lemma FlushCovered(groups: seq<seq<Bytes>>, pending: seq<Bytes>, blocks: seq<Block>, b: Block)
    requires Internal(pending) && BlocksCovered(groups, pending, blocks) &&
             RowsCovered(groups, pending, b.offset, b.rows)
    ensures BlocksCovered(groups, pending, blocks + [b])
  {
    hide Covered;
  }

  lemma NoRowsCovered(groups: seq<seq<Bytes>>, pending: seq<Bytes>, offset: nat)
    requires Internal(pending)
    ensures RowsCovered(groups, pending, offset, [])
  {
  }

  lemma StartCovered(groups: seq<seq<Bytes>>, pending: seq<Bytes>, blocks: seq<Block>, more: seq<seq<Bytes>>)
    requires Internal(pending) && BlocksCovered(groups, pending, blocks) && groups + [UserKeys(pending)] <= more
    ensures BlocksCovered(more, [], blocks)
  {
    forall i, r | 0 <= i < |blocks| && r in blocks[i].rows ensures Covered(more, [], blocks[i].offset, r.key.user) {
      CoveredAfterGenerate(groups, pending, more, blocks[i].offset, r.key.user);
    }
  }

  /** Every user key of a block is in the filter of the block's offset. */
  ghost predicate Filtered(groups: seq<seq<Bytes>>, blocks: seq<Block>)
  {
    forall i, r :: 0 <= i < |blocks| && r in blocks[i].rows ==> InFilter(groups, blocks[i].offset, r.key.user)
  }

  predicate InFilter(groups: seq<seq<Bytes>>, offset: nat, user: Bytes)
  {
    offset / BASE < |groups| && user in groups[offset / BASE]
  }

  lemma FinishCovered(groups: seq<seq<Bytes>>, pending: seq<Bytes>, blocks: seq<Block>, all: seq<seq<Bytes>>)
    requires Internal(pending) && BlocksCovered(groups, pending, blocks)
    requires all == if pending == [] then groups else groups + [UserKeys(pending)]
    ensures Filtered(all, blocks)
  {
    forall i, r | 0 <= i < |blocks| && r in blocks[i].rows ensures InFilter(all, blocks[i].offset, r.key.user) {
      assert Covered(groups, pending, blocks[i].offset, r.key.user);
    }
  }

  /** The filters of a finished table never hide a row of it, however many units are
      loaded. */
  lemma FiltersHideNothing(hash: Bloom.Hash, units: seq<Bytes>, offsets: seq<nat>, groups: seq<seq<Bytes>>, file: Bytes,
                           diskOffset: nat,
                           loaded: seq<Bytes>, blocks: seq<Block>, mayMatch: (nat, Bytes) -> bool)
    requires OnDisk(hash, units, offsets, groups, file, diskOffset)
    requires var p := ParseMeta(Meta(offsets, |units[0]|, diskOffset));
             && |loaded| <= p.all && (forall u :: 0 <= u < |loaded| ==> |loaded[u]| == p.diskSize)
             && forall u :: 0 <= u < |loaded| ==> ReadBlock(file, UnitAddress(p, u), p.diskSize) == Keys.Some(loaded[u])
    requires Filtered(groups, blocks)
    requires var c := Meta(offsets, |units[0]|, diskOffset);
             forall o, u :: mayMatch(o, u) <==> Accepts(hash, c, ParseMeta(c), loaded, o, u)
    ensures NoFalseNegative(blocks, mayMatch)
  {
    hide Accepts, ReadBlock, ParseMeta, OnDisk, Meta;
    forall i, r | 0 <= i < |blocks| && r in blocks[i].rows ensures mayMatch(blocks[i].offset, r.key.user) {
      assert InFilter(groups, blocks[i].offset, r.key.user);
      NoFalseNegatives(hash, units, offsets, groups, file, diskOffset, loaded, blocks[i].offset, r.key.user);
    }
  }
}
