/**
 A table from end to end: rows added in order, the table and its filter units written, any
 number of units loaded again, and a key looked up
 (table/table_builder.cc, table/filter_block.cc, table/table.cc).
 */
module TableLookup {
  import Keys
  import opened Coding
  import opened Separators
  import opened FilterBlock
  import opened Tables
  import opened TableBuilders
  import Bloom

  /** The table builder on all rows; full and size say where blocks end and what they take. */
  method Build(rows: seq<Row>, hash: Bloom.Hash, bitsPerKey: nat, full: nat -> bool, size: nat -> nat)
    returns (b: TableBuilder, units: seq<Bytes>)
    requires SortedRows(rows)
    ensures fresh(b) && fresh(b.filter) && b.filter.Valid() && units == b.filter.units && b.filter.hash == hash
    ensures Flat(b.blocks) == rows && IndexOk(b.index, b.blocks) && |b.index| == |b.blocks| &&
            Filtered(b.filter.groups, b.blocks)
    ensures units != [] && |units[0]| <= KeyBytes(|rows|, bitsPerKey)
  {
    hide Less, Shape, BlocksCovered, RowsCovered, IndexOk, Filtered, KeyBytes;
    OneMoreKey(0, bitsPerKey);
    b := new TableBuilder(hash, bitsPerKey);
    for i := 0 to |rows|
      invariant fresh(b) && fresh(b.filter) && b.Valid() && b.Rows() == rows[..i] && b.filter.hash == hash
      invariant i == 0 ==> b.blocks == [] && b.current == []
      invariant i > 0 ==> b.lastKey == rows[i - 1].key
      invariant b.filter.bitsPerKey == bitsPerKey && b.filter.Weight() <= KeyBytes(i, bitsPerKey)
    {
      OneMoreKey(i, bitsPerKey);
      b.Add(rows[i], full(i), size(i));
    }
    assert rows[..|rows|] == rows;
    units := b.Finish(size(|rows|));
  }

  /** How many of the first n reads work. */
  function Successes(io: nat -> bool, n: nat): nat
  {
    if n == 0 then 0 else Successes(io, n - 1) + if io(n - 1) then 1 else 0
  }

  function Min(a: nat, b: nat): nat
  {
    if a < b then a else b
  }

  /** A reader of the finished filters that has tried to load units any number of times: it
      has one unit for each read that worked, until all are there. */
  method OpenFilter(hash: Bloom.Hash, meta: Bytes, file: Bytes, tries: nat, io: nat -> bool)
    returns (reader: FilterBlockReader)
    ensures fresh(reader) && reader.Valid() && reader.hash == hash && reader.contents == meta && reader.file == file
    ensures |reader.units| <= Min(Successes(io, tries), ParseMeta(meta).all)
    ensures (forall u :: 0 <= u < ParseMeta(meta).all ==> Readable(file, ParseMeta(meta), u)) ==>
              |reader.units| == Min(Successes(io, tries), ParseMeta(meta).all)
  {
    hide ReadBlock, ParseMeta;
    reader := new FilterBlockReader(hash, meta, file);
    ghost var all := ParseMeta(meta).all;
    ghost var good := forall u :: 0 <= u < all ==> Readable(file, ParseMeta(meta), u);
    for i := 0 to tries
      invariant fresh(reader) && reader.Valid() && reader.hash == hash && reader.contents == meta && reader.file == file
      invariant |reader.units| <= Min(Successes(io, i), all) && (good ==> |reader.units| == Min(Successes(io, i), all))
    {
      assert good && |reader.units| < all ==> Readable(file, ParseMeta(meta), |reader.units|);
      var ok := reader.LoadFilter(io(i));
    }
  }

  ghost predicate Readable(file: Bytes, p: Params, u: nat)
  {
    ReadBlock(file, UnitAddress(p, u), p.diskSize).Some?
  }

  /** The row a lookup must return: the first row of the user key not before the target. */
  ghost predicate IsNewestVisible(rows: seq<Row>, t: InternalKey, r: Row)
  {
    r in rows && Candidate(t, r) && forall x :: x in rows && Candidate(t, x) ==> AtMost(r.key, x.key)
  }

  lemma {:induction false} InFlat(blocks: seq<Block>, x: Row)
    ensures x in Flat(blocks) <==> InTable(blocks, x)
  {
    if blocks != [] {
      var last := |blocks| - 1;
      InFlat(blocks[..last], x);
      assert Flat(blocks) == Flat(blocks[..last]) + blocks[last].rows;
      if x in blocks[last].rows { assert InTable(blocks, x); }
      if InTable(blocks[..last], x) {
        var i :| 0 <= i < last && x in blocks[..last][i].rows;
        assert x in blocks[i].rows;
      }
      if InTable(blocks, x) {
        var i :| 0 <= i < |blocks| && x in blocks[i].rows;
        if i < last { assert x in blocks[..last][i].rows; }
      }
    }
  }

  /** For rows added in order and any loaded units, a lookup finds the newest visible row of
      the user key if the table has one, and otherwise nothing or another user key. The
      filters must be below the size their 32-bit offsets can address, which they are for
      fewer than 2^32 / (bitsPerKey + 10) rows. */
  method BuildAndGet(rows: seq<Row>, hash: Bloom.Hash, bitsPerKey: nat, full: nat -> bool, size: nat -> nat,
                     data: Bytes,
                     tries: nat, io: nat -> bool, t: InternalKey)
    returns (r: Keys.Option<Row>, fits: bool)
    requires SortedRows(rows)
    ensures fits && (exists x :: x in rows && Candidate(t, x)) ==> r.Some? && IsNewestVisible(rows, t, r.value)
    ensures fits && !(exists x :: x in rows && Candidate(t, x)) ==> r.None? || r.value.key.user != t.user
    ensures |rows| * (bitsPerKey + 10) < TWO_32 && |data| < TWO_64 ==> fits
  {
    assert KeyBytes(|rows|, bitsPerKey) == |rows| * (bitsPerKey + 10);
    hide KeyBytes, Less, AtMost, IndexOk, Filtered, Accepts, UnitHolds, SortedRows, RawUnits;
    var b, units := Build(rows, hash, bitsPerKey, full, size);
    var file, diskOffset, diskSize := WriteRawFilters(data, units);
    var meta := b.filter.Finish(diskOffset, diskSize);
    fits := diskSize < TWO_32 && diskOffset < TWO_64;
    if !fits { return Keys.None, false; }
    var reader := OpenFilter(hash, meta, file, tries, io);
    FilterOnDisk(hash, units, b.filter.offsets, b.filter.groups, data, file);
    reader.Sizes();
    ghost var loaded, params := reader.units, reader.params;
    ghost var mayMatch := (o: nat, u: Bytes) => Asks(hash, meta, loaded, o, u);
    FiltersHideNothing(hash, units, b.filter.offsets, b.filter.groups, file, diskOffset, loaded, b.blocks, mayMatch);
    forall x ensures x in rows <==> InTable(b.blocks, x) { InFlat(b.blocks, x); }
    var i := SeekIndex(b.index, t);
    if i == |b.index| {
      forall x | InTable(b.blocks, x) ensures !Candidate(t, x) { PastTheEnd(b.index, b.blocks, t, x); }
      return Keys.None, true;
    }
    var may := reader.KeyMayMatch(b.blocks[i].offset, EncodeKey(t));
    r := GetFromBlock(b.index, b.blocks, mayMatch, t, i, may);
  }

  /** What a reader with these units answers. */
  ghost predicate Asks(hash: Bloom.Hash, meta: Bytes, loaded: seq<Bytes>, o: nat, u: Bytes)
  {
    (forall i :: 0 <= i < |loaded| ==> |loaded[i]| == ParseMeta(meta).diskSize) &&
    Accepts(hash, meta, ParseMeta(meta), loaded, o, u)
  }

  lemma FilterOnDisk(hash: Bloom.Hash, units: seq<Bytes>, offsets: seq<nat>, groups: seq<seq<Bytes>>, data: Bytes,
                     file: Bytes)
    requires |units| == ALL_UNITS && |units[0]| < TWO_32 && |data| < TWO_64 && file == data + RawUnits(units)
    requires forall u :: 0 <= u < ALL_UNITS ==> |units[u]| == |units[0]|
    requires forall u :: 0 <= u < ALL_UNITS ==> UnitHolds(hash, units[u], u, offsets, groups)
    ensures OnDisk(hash, units, offsets, groups, file, |data|)
  {
    hide UnitHolds, RawUnits;
    assert file[|data|..] == RawUnits(units);
  }
}
