/**
 The filter block of a table: a changing number of Bloom filter units in memory
 (table/filter_block.cc, table/filter_block.h, and the filter part of
 table/table_builder.cc and db/dbformat.cc).
 */
module FilterBlock {
  import opened Keys
  import opened Coding
  import opened Bloom
  import Seqs

  /** kFilterBaseLg: a new filter for every 2 KB of data. */
  const BASE_LG: Byte := 11
  const BASE: nat := 2048

  const LOAD_UNITS: nat := 2
  const ALL_UNITS: nat := 6
  const TRAILER: nat := 5

  /** The user key of an internal key: all but the 8-byte tag. */
  function ExtractUserKey(key: Bytes): Bytes
    requires |key| >= 8
  {
    key[..|key| - 8]
  }

  ghost predicate Internal(keys: seq<Bytes>)
  {
    forall i :: 0 <= i < |keys| ==> |keys[i]| >= 8
  }

  function UserKeys(keys: seq<Bytes>): (r: seq<Bytes>)
    requires Internal(keys)
    ensures |r| == |keys|
  {
    seq(|keys|, i requires 0 <= i < |keys| => ExtractUserKey(keys[i]))
  }

  // ---- What the units hold ------------------------------------------------------------

  /** End of the i-th filter: the start of the next, or the end of the unit. */
  function LimitOf(offsets: seq<nat>, size: nat, i: nat): nat
    requires i < |offsets|
  {
    if i + 1 < |offsets| then offsets[i + 1] else size
  }

  ghost predicate InOrder(offsets: seq<nat>, size: nat)
  {
    forall i :: 0 <= i < |offsets| ==> offsets[i] <= LimitOf(offsets, size, i) <= size
  }

  /** The i-th filter of unit u matches every user key of the i-th group. */
  ghost predicate UnitHolds(hash: Hash, unit: Bytes, u: nat, offsets: seq<nat>, groups: seq<seq<Bytes>>)
  {
    && |offsets| == |groups| && InOrder(offsets, |unit|)
    && forall i, key :: 0 <= i < |groups| && key in groups[i] ==>
         KeyMayMatch(hash, key, unit[offsets[i]..LimitOf(offsets, |unit|, i)], u)
  }

  // ---- How large the units get ------------------------------------------------------------

  /** A bound on the bytes that n keys take in a unit. */
  function KeyBytes(n: nat, bitsPerKey: nat): nat
  {
    n * (bitsPerKey + 10)
  }

  lemma OneMoreKey(n: nat, bitsPerKey: nat)
    ensures KeyBytes(n + 1, bitsPerKey) == KeyBytes(n, bitsPerKey) + bitsPerKey + 10
    ensures KeyBytes(0, bitsPerKey) == 0
  {
  }

  lemma FilterAtMost(n: nat, bitsPerKey: nat)
    requires n > 0
    ensures FilterBytes(n, bitsPerKey) + 1 <= KeyBytes(n, bitsPerKey)
  {
    var bits := n * bitsPerKey;
    assert KeyBytes(n, bitsPerKey) == bits + n * 10;
  }

  class FilterBlockBuilder {
    const hash: Hash
    const bitsPerKey: nat
    var units: seq<Bytes>
    var offsets: seq<nat>
    /** Internal keys added since the last filter. */
    var pending: seq<Bytes>
    /** The user keys of each filter. */
    ghost var groups: seq<seq<Bytes>>

    ghost predicate Valid()
      reads this
    {
      && |units| == ALL_UNITS && Internal(pending)
      && (forall u :: 0 <= u < ALL_UNITS ==> |units[u]| == |units[0]|)
      && (forall u :: 0 <= u < ALL_UNITS ==> UnitHolds(hash, units[u], u, offsets, groups))
    }

    /** What a unit takes once the pending keys are in it, at most. */
    ghost function Weight(): nat
      reads this
    {
      (if units == [] then 0 else |units[0]|) + KeyBytes(|pending|, bitsPerKey)
    }

    constructor (hash: Hash, bitsPerKey: nat)
      ensures Valid() && groups == [] && pending == [] && this.hash == hash && this.bitsPerKey == bitsPerKey &&
              Weight() == 0
    {
      this.hash, this.bitsPerKey := hash, bitsPerKey;
      units, offsets, pending, groups := seq(ALL_UNITS, i => []), [], [], [];
    }

    /** Keys added from now on belong to the filter of this block offset. */
    method StartBlock(blockOffset: nat)
      requires Valid() && blockOffset / BASE >= |groups|
      modifies this
      ensures Valid() && |groups| == blockOffset / BASE
      ensures blockOffset / BASE == old(|groups|) ==> groups == old(groups) && pending == old(pending)
      ensures blockOffset / BASE > old(|groups|) ==>
                pending == [] && old(groups) + [UserKeys(old(pending))] <= groups
      ensures forall g :: old(|groups|) < g < |groups| ==> groups[g] == []
      ensures Weight() <= old(Weight())
    {
      hide UnitHolds, KeyBytes;
      var filterIndex := blockOffset / BASE;
      Aligned();
      while filterIndex > |offsets|
        invariant Valid() && |offsets| == |groups| <= filterIndex
        invariant |groups| == old(|groups|) ==> groups == old(groups) && pending == old(pending)
        invariant |groups| > old(|groups|) ==> pending == [] && old(groups) + [UserKeys(old(pending))] <= groups
        invariant forall g :: old(|groups|) < g < |groups| ==> groups[g] == []
        invariant Weight() <= old(Weight())
      {
        GenerateFilter();
        Aligned();
      }
    }

    lemma Aligned()
      requires Valid()
      ensures |offsets| == |groups|
    {
      assert UnitHolds(hash, units[0], 0, offsets, groups);
    }

    method AddKey(key: Bytes)
      requires Valid() && |key| >= 8
      modifies this`pending
      ensures Valid() && pending == old(pending) + [key] && Weight() == old(Weight()) + bitsPerKey + 10
    {
      OneMoreKey(|pending|, bitsPerKey);
      hide KeyBytes;
      pending := pending + [key];
    }

    method GenerateFilter()
      requires Valid()
      modifies this
      ensures Valid() && pending == [] && groups == old(groups) + [UserKeys(old(pending))]
      ensures Weight() <= old(Weight())
    {
      hide UnitHolds, KeyMayMatch, KeyBytes, FilterBytes;
      OneMoreKey(0, bitsPerKey);
      if |pending| > 0 { FilterAtMost(|pending|, bitsPerKey); }
      var was := units;
      if |pending| == 0 {
        offsets := offsets + [|units[0]|];
      } else {
        var tmp := new Bytes[|pending|](i requires 0 <= i < |pending| reads this => pending[i]);
        assert tmp[..] == pending;
        offsets := offsets + [|units[0]|];
        units := GenerateUnits(hash, bitsPerKey, tmp, units);
      }
      assert UserKeys([]) == [];
      forall u | 0 <= u < ALL_UNITS ensures UnitHolds(hash, units[u], u, offsets, groups + [UserKeys(pending)]) {
        NewFilter(hash, was[u], units[u], u, old(offsets), groups, UserKeys(pending));
      }
      groups := groups + [UserKeys(pending)];
      pending := [];
    }

    method ReturnFilters() returns (r: seq<Bytes>)
      requires Valid()
      modifies this
      ensures Valid() && r == units && pending == []
      ensures groups == if old(pending) == [] then old(groups) else old(groups) + [UserKeys(old(pending))]
      ensures |units[0]| <= old(Weight())
    {
      hide KeyBytes;
      if |pending| != 0 { GenerateFilter(); }
      r := units;
    }

    /** The block that describes the filters; the units were written at diskOffset. */
    method Finish(diskOffset: nat, diskSize: nat) returns (r: Bytes)
      requires Valid() && diskSize == |units[0]|
      ensures r == Meta(offsets, |units[0]|, diskOffset)
    {
      hide UnitHolds, LittleEndian;
      r := [];
      assert offsets[..0] == [];
      for i := 0 to |offsets|
        invariant r == Fixed32s(offsets[..i])
      {
        assert offsets[..i + 1][..i] == offsets[..i];
        r := r + LittleEndian(offsets[i] % TWO_32, 4);
      }
      assert offsets[..|offsets|] == offsets;
      assert (offsets + [diskSize])[..|offsets|] == offsets;
      r := r + LittleEndian(diskSize % TWO_32, 4);
      r := r + LittleEndian(diskOffset, 8) + LittleEndian(diskSize % TWO_32, 4) + LittleEndian(LOAD_UNITS, 4)
             + LittleEndian(ALL_UNITS, 4) + [BASE_LG];
    }
  }

  /** A unit with one more filter at its end. */
  lemma NewFilter(hash: Hash, was: Bytes, unit: Bytes, u: nat, offsets: seq<nat>, groups: seq<seq<Bytes>>,
                  keys: seq<Bytes>)
    requires UnitHolds(hash, was, u, offsets, groups) && was <= unit
    requires forall key :: key in keys ==> KeyMayMatch(hash, key, unit[|was|..], u)
    ensures UnitHolds(hash, unit, u, offsets + [|was|], groups + [keys])
  {
    hide KeyMayMatch;
    var os, gs, n := offsets + [|was|], groups + [keys], |offsets|;
    forall i | 0 <= i < |os| ensures os[i] <= LimitOf(os, |unit|, i) <= |unit| {
      assert i < n ==> LimitOf(os, |unit|, i) == LimitOf(offsets, |was|, i);
    }
    forall i, key | 0 <= i < |gs| && key in gs[i]
      ensures KeyMayMatch(hash, key, unit[os[i]..LimitOf(os, |unit|, i)], u)
    {
      if i < n {
        assert LimitOf(os, |unit|, i) == LimitOf(offsets, |was|, i);
        assert unit[os[i]..LimitOf(os, |unit|, i)] == was[offsets[i]..LimitOf(offsets, |was|, i)];
      } else {
        assert unit[|was|..|unit|] == unit[|was|..];
      }
    }
  }

  /** InternalFilterPolicy::CreateFilter: the first call rewrites the keys in place, and
      the calls for the other units rely on that. */
  method InternalCreateFilter(hash: Hash, bitsPerKey: nat, keys: array<Bytes>, dst: Bytes, index: nat)
    returns (r: Bytes)
    requires index == 0 ==> Internal(keys[..])
    modifies keys
    ensures keys[..] == if index == 0 then UserKeys(old(keys[..])) else old(keys[..])
    ensures |r| == |dst| + FilterBytes(keys.Length, bitsPerKey) + 1 && dst <= r
    ensures forall key :: key in keys[..] ==> KeyMayMatch(hash, key, r[|dst|..], index)
  {
    hide KeyMayMatch;
    if index == 0 {
      ghost var was := keys[..];
      for i := 0 to keys.Length
        invariant forall j :: 0 <= j < i ==> keys[j] == ExtractUserKey(was[j])
        invariant forall j :: i <= j < keys.Length ==> keys[j] == was[j]
      {
        keys[i] := ExtractUserKey(keys[i]);
      }
      assert keys[..] == UserKeys(was);
    }
    r := CreateFilter(hash, bitsPerKey, keys[..], dst, index);
  }

  /** One filter for every unit, all of the same size. */
  method GenerateUnits(hash: Hash, bitsPerKey: nat, keys: array<Bytes>, units: seq<Bytes>) returns (r: seq<Bytes>)
    requires Internal(keys[..]) && |units| == ALL_UNITS && forall u :: 0 <= u < ALL_UNITS ==> |units[u]| == |units[0]|
    modifies keys
    ensures |r| == ALL_UNITS && forall u :: 0 <= u < ALL_UNITS ==> units[u] <= r[u] && |r[u]| == |r[0]|
    ensures |r[0]| == |units[0]| + FilterBytes(keys.Length, bitsPerKey) + 1
    ensures forall u, key :: 0 <= u < ALL_UNITS && key in UserKeys(old(keys[..])) ==>
              KeyMayMatch(hash, key, r[u][|units[u]|..], u)
  {
    hide KeyMayMatch;
    ghost var users := UserKeys(keys[..]);
    r := units;
    for i := 0 to ALL_UNITS
      invariant |r| == ALL_UNITS && keys[..] == if i == 0 then old(keys[..]) else users
      invariant forall u :: i <= u < ALL_UNITS ==> r[u] == units[u]
      invariant forall u :: 0 <= u < i ==>
                units[u] <= r[u] && |r[u]| == |units[0]| + FilterBytes(keys.Length, bitsPerKey) + 1
      invariant forall u, key :: 0 <= u < i && key in users ==> KeyMayMatch(hash, key, r[u][|units[u]|..], u)
    {
      var f := InternalCreateFilter(hash, bitsPerKey, keys, r[i], i);
      r := r[i := f];
    }
  }

  // ---- On disk -----------------------------------------------------------------------------

  /** FilterBlockBuilder::Finish: the offsets, the end of the last filter, the place and
      size of the first unit, the numbers of units to load and in all, the base. */
  function Meta(offsets: seq<nat>, size: nat, diskOffset: nat): Bytes
  {
    Fixed32s(offsets + [size]) + LittleEndian(diskOffset, 8) + LittleEndian(size % TWO_32, 4)
      + LittleEndian(LOAD_UNITS, 4) + LittleEndian(ALL_UNITS, 4) + [BASE_LG]
  }

  /** A unit and its trailer: compression type and masked checksum of both. */
  function RawUnit(unit: Bytes): (s: Bytes)
    ensures |s| == |unit| + TRAILER
  {
    unit + [0] + StoreChecksum(Checksum(unit + [0]))
  }

  function RawUnits(units: seq<Bytes>): Bytes
  {
    if units == [] then [] else RawUnits(units[..|units| - 1]) + RawUnit(units[|units| - 1])
  }

  /** TableBuilder::WriteRawFilters, and the handle it fills in. */
  method WriteRawFilters(file: Bytes, units: seq<Bytes>) returns (r: Bytes, offset: nat, size: nat)
    requires units != []
    ensures r == file + RawUnits(units) && offset == |file| && size == |units[0]|
  {
    hide Checksum, ExtendChecksum, StoreChecksum;
    offset, size, r := |file|, |units[0]|, file;
    assert units[..0] == [] && file + [] == file;
    for i := 0 to |units|
      invariant r == file + RawUnits(units[..i])
    {
      var crc := ExtendChecksum(Checksum(units[i]), [0]);
      ChecksumConcat(units[i], [0]);
      assert units[..i + 1][..i] == units[..i];
      ghost var was := r;
      r := r + units[i];
      r := r + ([0] + StoreChecksum(crc));
      assert r == was + RawUnit(units[i]);
      Seqs.Associative(file, RawUnits(units[..i]), RawUnit(units[i]));
    }
    assert units[..|units|] == units;
  }

  /** ReadBlock with checksum verification; compression is the identity, so any other type
      is not understood. */
  function ReadBlock(file: Bytes, offset: nat, n: nat): Option<Bytes>
  {
    if offset + n + TRAILER > |file| then None
    else if LoadChecksum(file[offset + n + 1..offset + n + TRAILER]) != Checksum(file[offset..offset + n + 1]) then None
    else if file[offset + n] != 0 then None
    else Some(file[offset..offset + n])
  }

  ghost predicate At(file: Bytes, p: nat, s: Bytes)
  {
    p + |s| <= |file| && file[p..p + |s|] == s
  }

  lemma UnitReadsBack(file: Bytes, p: nat, unit: Bytes)
    requires At(file, p, RawUnit(unit))
    ensures ReadBlock(file, p, |unit|) == Some(unit)
  {
    hide Checksum, StoreChecksum, LoadChecksum;
    var body, crc := unit + [0], StoreChecksum(Checksum(unit + [0]));
    Seqs.SplitAt(file, p, body, crc);
    Seqs.SplitAt(file, p, unit, [0]);
    ChecksumRoundTrip(Checksum(body));
    assert file[p + |unit|..p + |unit| + 1][0] == 0;
  }

  lemma {:induction false} UnitAt(units: seq<Bytes>, size: nat, u: nat)
    requires u < |units| && forall i :: 0 <= i < |units| ==> |units[i]| == size
    ensures |RawUnits(units)| == (size + TRAILER) * |units|
    ensures At(RawUnits(units), (size + TRAILER) * u, RawUnit(units[u]))
  {
    hide RawUnit;
    var n := |units| - 1;
    var init := units[..n];
    if n > 0 { UnitAt(init, size, if u < n then u else 0); }
    assert |RawUnits(init)| == (size + TRAILER) * n;
    Times(size + TRAILER, n);
    if u < n { KeptAt(RawUnits(init), RawUnit(units[n]), (size + TRAILER) * u, RawUnit(units[u])); }
  }

  lemma Times(a: nat, n: nat)
    ensures a * n + a == a * (n + 1)
  {
  }

  lemma KeptAt(a: Bytes, b: Bytes, p: nat, s: Bytes)
    requires At(a, p, s)
    ensures At(a + b, p, s)
  {
    assert (a + b)[p..p + |s|] == a[p..p + |s|];
  }

  // ---- The reader ------------------------------------------------------------------------------

  /** The fields the constructor decodes. Too short a block has no filters. */
  datatype Params = Params(num: nat, baseLg: nat, all: nat, init: nat, diskSize: nat, diskOffset: nat)

  function ParseMeta(c: Bytes): Params
  {
    var n := |c|;
    if n < 25 then Params(0, 0, 0, 0, 0, 0)
    else Params((n - 25) / 4, c[n - 1], FromLittleEndian(c[n - 5..n - 1]), FromLittleEndian(c[n - 9..n - 5]),
                FromLittleEndian(c[n - 13..n - 9]), FromLittleEndian(c[n - 21..n - 13]))
  }

  class FilterBlockReader {
    const hash: Hash
    const contents: Bytes
    const file: Bytes
    const params: Params
    var units: seq<Bytes>
    var reload: nat

    /** The loaded units are the first ones of the file, each read from its own address. */
    ghost predicate Valid()
      reads this
    {
      && params == ParseMeta(contents) && |units| <= params.all
      && forall i :: 0 <= i < |units| ==>
           ReadBlock(file, UnitAddress(params, i), params.diskSize) == Some(units[i])
    }

    constructor (hash: Hash, contents: Bytes, file: Bytes)
      ensures Valid() && units == [] && this.hash == hash && this.contents == contents && this.file == file
    {
      this.hash, this.contents, this.file, params := hash, contents, file, ParseMeta(contents);
      units, reload := [], ParseMeta(contents).init;
    }

    /** The read may fail; then nothing changes. */
    method LoadFilter(io: bool) returns (ok: bool)
      requires Valid()
      modifies this`units
      ensures Valid() && (ok ==> |units| == |old(units)| + 1 && old(units) <= units) && (!ok ==> units == old(units))
      ensures ok <==> |old(units)| < params.all && io &&
                      ReadBlock(file, UnitAddress(params, |old(units)|), params.diskSize).Some?
    {
      hide ReadBlock;
      if |units| >= params.all { return false; }
      var r := ReadBlock(file, UnitAddress(params, |units|), params.diskSize);
      if !io || r.None? { return false; }
      units := units + [r.value];
      ok := true;
    }

    method EvictFilter() returns (ok: bool)
      requires Valid()
      modifies this`units
      ensures Valid() && (ok <==> old(units) != []) &&
              units == if ok then old(units)[..|old(units)| - 1] else old(units)
    {
      hide ReadBlock;
      if |units| == 0 { return false; }
      units := units[..|units| - 1];
      ok := true;
    }

    method InitLoadFilter(io: nat -> bool) returns (ok: bool)
      requires Valid()
      modifies this`units
      ensures Valid() && old(units) <= units && (ok <==> |units| >= params.init)
      ensures ok ==> |units| == |old(units)| || |units| == params.init
    {
      hide ReadBlock;
      while |units| < params.init
        invariant Valid() && old(units) <= units && (|units| == |old(units)| || |units| <= params.init)
        decreases params.all - |units|
      {
        ok := LoadFilter(io(|units|));
        if !ok { return false; }
      }
      ok := true;
    }

    /** Frees all units and remembers how many there were. */
    method CleanFilter()
      requires Valid()
      modifies this
      ensures Valid() && units == [] && reload == |old(units)|
    {
      hide ReadBlock;
      reload := |units|;
      while units != []
        invariant Valid() && reload == |old(units)|
        decreases |units|
      {
        var _ := EvictFilter();
      }
    }

    /** Loads or evicts until as many units are in memory as were remembered. */
    method GoBackToInitFilter(io: nat -> bool) returns (ok: bool)
      requires Valid()
      modifies this`units
      ensures Valid() && (ok ==> |units| == reload) && (reload > ALL_UNITS ==> !ok && units == old(units))
    {
      hide ReadBlock;
      if reload > ALL_UNITS { return false; }
      while |units| < reload
        invariant Valid()
        decreases reload - |units|
      {
        ok := LoadFilter(io(|units|));
        if !ok { return false; }
      }
      while |units| > reload
        invariant Valid() && |units| >= reload
        decreases |units|
      {
        ok := EvictFilter();
      }
      ok := true;
    }

    /** Every loaded unit must accept the user key of the internal key. */
    method KeyMayMatch(blockOffset: nat, key: Bytes) returns (r: bool)
      requires Valid() && |key| >= 8
      ensures r <==> Accepts(hash, contents, params, units, blockOffset, ExtractUserKey(key))
    {
      hide ReadBlock;
      Sizes();
      PowerPositive(params.baseLg);
      var index := blockOffset / Power(2, params.baseLg);
      if index < params.num {
        var start := FromLittleEndian(contents[index * 4..index * 4 + 4]);
        var limit := FromLittleEndian(contents[index * 4 + 4..index * 4 + 8]);
        if start <= limit && limit <= params.diskSize {
          for i := 0 to |units|
            invariant forall u :: 0 <= u < i ==> Bloom.KeyMayMatch(hash, ExtractUserKey(key), units[u][start..limit], u)
          {
            var m := TestKey(hash, ExtractUserKey(key), units[i][start..limit], i);
            if !m { return false; }
          }
          return true;
        } else if start == limit {
          return false;
        }
      }
      r := true;
    }

    lemma Sizes()
      requires Valid()
      ensures forall u :: 0 <= u < |units| ==> |units[u]| == params.diskSize
      ensures params.num > 0 ==> 4 * params.num + 25 <= |contents|
    {
    }
  }

  function UnitAddress(p: Params, i: nat): nat
  {
    p.diskOffset + (p.diskSize + TRAILER) * i
  }

  lemma PowerPositive(n: nat)
    ensures Power(2, n) > 0
  {
  }

  ghost predicate Accepts(hash: Hash, contents: Bytes, p: Params, units: seq<Bytes>, blockOffset: nat, user: Bytes)
    requires p == ParseMeta(contents) && forall u :: 0 <= u < |units| ==> |units[u]| == p.diskSize
  {
    PowerPositive(p.baseLg);
    var index := blockOffset / Power(2, p.baseLg);
    index < p.num ==>
      var start := FromLittleEndian(contents[index * 4..index * 4 + 4]);
      var limit := FromLittleEndian(contents[index * 4 + 4..index * 4 + 8]);
      if start <= limit <= p.diskSize then
        forall u :: 0 <= u < |units| ==> Bloom.KeyMayMatch(hash, user, units[u][start..limit], u)
      else start != limit
  }

  // ---- No false negatives -------------------------------------------------------------------------

  /** The constructor decodes what Finish encoded. */
  lemma MetaRoundTrip(offsets: seq<nat>, size: nat, diskOffset: nat)
    requires size < TWO_32 && diskOffset < TWO_64
    ensures |Meta(offsets, size, diskOffset)| == 4 * |offsets| + 25
    ensures ParseMeta(Meta(offsets, size, diskOffset)) == Params(|offsets|, BASE_LG, ALL_UNITS, LOAD_UNITS, size,
                                                                 diskOffset)
  {
    hide LittleEndian, FromLittleEndian, Fixed32s;
    var c := Meta(offsets, size, diskOffset);
    var n := |c|;
    Powers();
    LittleEndianRoundTrip(diskOffset, 8);
    LittleEndianRoundTrip(size, 4);
    LittleEndianRoundTrip(LOAD_UNITS, 4);
    LittleEndianRoundTrip(ALL_UNITS, 4);
    assert c[n - 5..n - 1] == LittleEndian(ALL_UNITS, 4);
    assert c[n - 9..n - 5] == LittleEndian(LOAD_UNITS, 4);
    assert c[n - 13..n - 9] == LittleEndian(size, 4);
    assert c[n - 21..n - 13] == LittleEndian(diskOffset, 8);
  }

  /** What a finished builder and the file it was written to have in common. */
  ghost predicate OnDisk(hash: Hash, units: seq<Bytes>, offsets: seq<nat>, groups: seq<seq<Bytes>>, file: Bytes,
                         diskOffset: nat)
  {
    && |units| == ALL_UNITS && |units[0]| < TWO_32 && diskOffset < TWO_64
    && (forall u :: 0 <= u < ALL_UNITS ==> |units[u]| == |units[0]|)
    && (forall u :: 0 <= u < ALL_UNITS ==> UnitHolds(hash, units[u], u, offsets, groups))
    && At(file, diskOffset, RawUnits(units))
  }

  /** The unit a reader loads is the unit the builder wrote. */
  lemma LoadsUnit(hash: Hash, units: seq<Bytes>, offsets: seq<nat>, groups: seq<seq<Bytes>>, file: Bytes,
                  diskOffset: nat, u: nat)
    requires OnDisk(hash, units, offsets, groups, file, diskOffset) && u < ALL_UNITS
    ensures ReadBlock(file, diskOffset + (|units[0]| + TRAILER) * u, |units[0]|) == Some(units[u])
  {
    hide UnitHolds, ReadBlock, RawUnits, RawUnit;
    var size := |units[0]|;
    UnitAt(units, size, u);
    var p := (size + TRAILER) * u;
    Seqs.SliceSlice(file, diskOffset, diskOffset + |RawUnits(units)|, p, p + |RawUnit(units[u])|);
    UnitReadsBack(file, diskOffset + p, units[u]);
  }

  /** However many units are loaded, every user key added under a block's offset is
      accepted at that offset. */
  lemma NoFalseNegatives(hash: Hash, units: seq<Bytes>, offsets: seq<nat>, groups: seq<seq<Bytes>>, file: Bytes,
                         diskOffset: nat,
                         loaded: seq<Bytes>, blockOffset: nat, user: Bytes)
    requires OnDisk(hash, units, offsets, groups, file, diskOffset)
    requires var p := ParseMeta(Meta(offsets, |units[0]|, diskOffset));
             && |loaded| <= p.all && (forall u :: 0 <= u < |loaded| ==> |loaded[u]| == p.diskSize)
             && forall u :: 0 <= u < |loaded| ==> ReadBlock(file, UnitAddress(p, u), p.diskSize) == Some(loaded[u])
    requires blockOffset / BASE < |groups| && user in groups[blockOffset / BASE]
    ensures var c := Meta(offsets, |units[0]|, diskOffset); Accepts(hash, c, ParseMeta(c), loaded, blockOffset, user)
  {
    hide KeyMayMatch, ReadBlock, ParseMeta, Meta, FromLittleEndian, UnitHolds, At, Power, LimitOf;
    var size := |units[0]|;
    var index := blockOffset / BASE;
    MetaRoundTrip(offsets, size, diskOffset);
    Base();
    InOrderOf(hash, units[0], 0, offsets, groups);
    OffsetsIn(offsets, size, diskOffset, index);
    forall u | 0 <= u < |loaded|
      ensures KeyMayMatch(hash, user, loaded[u][offsets[index]..LimitOf(offsets, size, index)], u)
    {
      LoadsUnit(hash, units, offsets, groups, file, diskOffset, u);
      Held(hash, units[u], u, offsets, groups, index, user);
    }
  }

  lemma InOrderOf(hash: Hash, unit: Bytes, u: nat, offsets: seq<nat>, groups: seq<seq<Bytes>>)
    requires UnitHolds(hash, unit, u, offsets, groups)
    ensures |offsets| == |groups| && InOrder(offsets, |unit|)
    ensures forall i :: 0 <= i < |offsets| ==> offsets[i] <= LimitOf(offsets, |unit|, i) <= |unit|
  {
  }

  lemma Held(hash: Hash, unit: Bytes, u: nat, offsets: seq<nat>, groups: seq<seq<Bytes>>, i: nat, user: Bytes)
    requires UnitHolds(hash, unit, u, offsets, groups) && i < |groups| && user in groups[i]
    ensures KeyMayMatch(hash, user, unit[offsets[i]..LimitOf(offsets, |unit|, i)], u)
  {
  }

  lemma Base()
    ensures Power(2, BASE_LG) == BASE
  {
    assert Power(2, 3) == 8;
    assert Power(2, 5) == 32;
    assert Power(2, 7) == 128;
    assert Power(2, 9) == 512;
  }

  /** Start and end of a filter, as the reader decodes them. */
  lemma OffsetsIn(offsets: seq<nat>, size: nat, diskOffset: nat, i: nat)
    requires InOrder(offsets, size) && size < TWO_32 && i < |offsets|
    ensures var c := Meta(offsets, size, diskOffset);
            && 4 * i + 8 <= |c| && FromLittleEndian(c[4 * i..4 * i + 4]) == offsets[i]
            && FromLittleEndian(c[4 * i + 4..4 * i + 8]) == LimitOf(offsets, size, i)
  {
    hide LittleEndian, FromLittleEndian, Fixed32s;
    var all := offsets + [size];
    var rest := LittleEndian(diskOffset, 8) + LittleEndian(size % TWO_32, 4) + LittleEndian(LOAD_UNITS, 4)
                + LittleEndian(ALL_UNITS, 4) + [BASE_LG];
    assert Meta(offsets, size, diskOffset) == Fixed32s(all) + rest;
    assert all[i] == offsets[i] && all[i + 1] == LimitOf(offsets, size, i);
    Fixed32At(all, rest, i);
    Fixed32At(all, rest, i + 1);
  }
}
