/**
 Trading filter memory between cold and hot tables (InternalMultiQueue in
 util/multi_queue.cc, with the estimates of table/filter_block.h).
 */
module MultiQueue {
  import Seqs

  const ALL_UNITS: nat := 6
  /** kLoadFilterUnitsNumber: units loaded when a table is opened. */
  const LOAD_UNITS: nat := 2
  /** kLifeTime: a table not read for this many sequence numbers is cold. */
  const LIFE_TIME: nat := 10000

  const TWO_64: nat := 0x1_0000_0000_0000_0000

  /** What the queues know of a filter block reader. */
  datatype Reader = Reader(units: nat, unitSize: nat, access: nat, sequence: nat)

  type Readers = map<nat, Reader>

  predicate IsCold(r: Reader, sn: nat)
  {
    sn >= r.sequence + LIFE_TIME
  }

  // ---- Placement ---------------------------------------------------------------------------

  ghost predicate NoDuplicates(s: seq<nat>)
  {
    forall i, j :: 0 <= i < j < |s| ==> s[i] != s[j]
  }

  /** Queue n holds the tables with n units in memory, most recently used first. */
  ghost predicate Placed(queues: seq<seq<nat>>, readers: Readers)
  {
    && |queues| == ALL_UNITS + 1
    && (forall n :: 0 <= n <= ALL_UNITS ==> NoDuplicates(queues[n]))
    && (forall n, id :: 0 <= n <= ALL_UNITS ==> (id in queues[n] <==> id in readers && readers[id].units == n))
    && (forall id :: id in readers ==> readers[id].units <= ALL_UNITS)
  }

  // ---- Memory and expected I/O -----------------------------------------------------------------

  function Size(r: Reader): nat
  {
    r.units * r.unitSize
  }

  ghost function Memory(readers: Readers, n: nat): nat
  {
    if n == 0 then 0 else Memory(readers, n - 1) + if n - 1 in readers then Size(readers[n - 1]) else 0
  }

  function Power(x: real, n: nat): real
  {
    if n == 0 then 1.0 else x * Power(x, n - 1)
  }

  /** IOs: false positive rate of the loaded units, times the number of accesses. */
  function IOs(fpr: real, r: Reader): real
  {
    Power(fpr, r.units) * r.access as real
  }

  function LoadIOs(fpr: real, r: Reader): real
  {
    Power(fpr, r.units + 1) * r.access as real
  }

  function EvictIOs(fpr: real, r: Reader): real
    requires r.units > 0
  {
    Power(fpr, r.units - 1) * r.access as real
  }

  ghost function TotalIOs(fpr: real, readers: Readers, n: nat): real
  {
    if n == 0 then 0.0 else TotalIOs(fpr, readers, n - 1) + if n - 1 in readers then IOs(fpr, readers[n - 1]) else 0.0
  }

  lemma {:induction false} MemoryUpdate(readers: Readers, n: nat, id: nat, r: Reader)
    requires id in readers
    ensures Memory(readers[id := r], n) == Memory(readers, n) + if id < n then Size(r) - Size(readers[id]) else 0
  {
    hide Size;
    if n > 0 { MemoryUpdate(readers, n - 1, id, r); }
  }

  lemma {:induction false} IOsUpdate(fpr: real, readers: Readers, n: nat, id: nat, r: Reader)
    requires id in readers
    ensures TotalIOs(fpr, readers[id := r], n)
         == TotalIOs(fpr, readers, n) + if id < n then IOs(fpr, r) - IOs(fpr, readers[id]) else 0.0
  {
    hide IOs;
    if n > 0 { IOsUpdate(fpr, readers, n - 1, id, r); }
  }

  // ---- Choosing cold tables ----------------------------------------------------------------------

  ghost function SumSizes(readers: Readers, ids: seq<nat>): nat
  {
    if ids == [] then 0
    else SumSizes(readers, ids[..|ids| - 1]) + if ids[|ids| - 1] in readers then readers[ids[|ids| - 1]].unitSize else 0
  }

  /** A table that may lose a unit: cold, read at least once, with a unit to lose. */
  predicate Eligible(readers: Readers, sn: nat, id: nat)
  {
    id in readers && IsCold(readers[id], sn) && readers[id].access != 0 && readers[id].units > 0
  }

  /** Distinct eligible tables. */
  ghost predicate Chosen(readers: Readers, sn: nat, ids: seq<nat>)
  {
    NoDuplicates(ids) && forall id :: id in ids ==> Eligible(readers, sn, id)
  }

  /** memory -= OneUnitSize() on a uint64_t. */
  function Subtract(memory: nat, size: nat): (r: nat)
    requires memory < TWO_64
    ensures r < TWO_64
  {
    (memory - size) % TWO_64
  }

  /** What was asked for is what was found plus what is still missing, modulo 2^64. */
  ghost predicate Balanced(readers: Readers, ids: seq<nat>, memory: nat, wanted: nat)
  {
    (SumSizes(readers, ids) + memory) % TWO_64 == wanted
  }

  lemma Taken(readers: Readers, ids: seq<nat>, memory: nat, wanted: nat, id: nat)
    requires Balanced(readers, ids, memory, wanted) && memory < TWO_64 && id in readers
    ensures Balanced(readers, ids + [id], Subtract(memory, readers[id].unitSize), wanted)
  {
    assert (ids + [id])[..|ids|] == ids;
    Wraps(SumSizes(readers, ids), memory, readers[id].unitSize);
  }

  lemma Wraps(sum: nat, memory: nat, size: nat)
    ensures (sum + size + (memory - size) % TWO_64) % TWO_64 == (sum + memory) % TWO_64
  {
    var q := (memory - size) / TWO_64;
    assert (memory - size) % TWO_64 == memory - size - TWO_64 * q;
    Multiples(sum + size + (memory - size) % TWO_64, q);
  }

  lemma {:induction false} Multiples(x: int, q: int)
    ensures (x + TWO_64 * q) % TWO_64 == x % TWO_64
    decreases if q < 0 then -q else q
  {
    if q > 0 { Multiples(x, q - 1); Once(x + TWO_64 * (q - 1)); }
    if q < 0 { Multiples(x, q + 1); Once(x + TWO_64 * q); }
  }

  lemma Once(x: int)
    ensures (x + TWO_64) % TWO_64 == x % TWO_64
  {
  }

  /** The cold tables at the least recently used end of a queue that were read at least
      once. */
  function ColdRun(queue: seq<nat>, readers: Readers, sn: nat): seq<nat>
  {
    if queue == [] then []
    else
      var id := queue[|queue| - 1];
      if id !in readers || !IsCold(readers[id], sn) then []
      else (if readers[id].access != 0 then [id] else []) + ColdRun(queue[..|queue| - 1], readers, sn)
  }

  /** All of them, from the tables with the most units down. */
  function Scan(queues: seq<seq<nat>>, readers: Readers, sn: nat, i: nat): seq<nat>
    requires i < |queues|
  {
    if i == 0 then [] else ColdRun(queues[i], readers, sn) + Scan(queues, readers, sn, i - 1)
  }

  ghost predicate AddsUp(readers: Readers, ids: seq<nat>, wanted: nat)
  {
    SumSizes(readers, ids) % TWO_64 == wanted
  }

  lemma NothingMissing(readers: Readers, ids: seq<nat>, memory: nat, wanted: nat)
    requires Balanced(readers, ids, memory, wanted) && memory < TWO_64 && wanted < TWO_64
    ensures AddsUp(readers, ids, wanted) <==> memory == 0
  {
  }

  /** SingleQueue::FindColdFilter: from the least recently used end while the tables are
      cold. */
  method FindColdInQueue(queue: seq<nat>, readers: Readers, sn: nat, memory0: nat, found0: seq<nat>, ghost wanted: nat)
    returns (memory: nat, found: seq<nat>)
    requires NoDuplicates(queue) && 0 < memory0 < TWO_64 && wanted < TWO_64
    requires Chosen(readers, sn, found0) && Balanced(readers, found0, memory0, wanted)
    requires forall id :: id in queue ==> id in readers && readers[id].units > 0 && id !in found0
    ensures memory < TWO_64 && Chosen(readers, sn, found) && Balanced(readers, found, memory, wanted)
    ensures forall id :: id in found ==> id in found0 || id in queue
    ensures |found| >= |found0| && found <= found0 + ColdRun(queue, readers, sn)
    ensures memory > 0 ==> found == found0 + ColdRun(queue, readers, sn)
    ensures NotBefore(readers, found, |found0|, wanted)
  {
    hide Balanced, IsCold, AddsUp, Chosen, NoDuplicates, Subtract;
    memory, found := memory0, found0;
    var i := |queue|;
    assert queue[..i] == queue;
    while i > 0
      invariant 0 <= i <= |queue| && memory < TWO_64
      invariant Chosen(readers, sn, found) && Balanced(readers, found, memory, wanted)
      invariant forall id :: id in found ==> id in found0 || id in queue[i..]
      invariant |found| >= |found0| && found + ColdRun(queue[..i], readers, sn) == found0 + ColdRun(queue, readers, sn)
      invariant i > 0 ==> memory > 0
      invariant NotBefore(readers, found, |found0|, wanted)
    {
      var id := queue[i - 1];
      assert queue[..i][..i - 1] == queue[..i - 1];
      if IsCold(readers[id], sn) {
        if readers[id].access != 0 {
          Taken(readers, found, memory, wanted, id);
          NothingMissing(readers, found, memory, wanted);
          Seqs.Associative(found, [id], ColdRun(queue[..i - 1], readers, sn));
          NotAgain(queue, i);
          ChosenMore(readers, sn, found, id);
          NotBeforeMore(readers, found, |found0|, wanted, id);
          memory := Subtract(memory, readers[id].unitSize);
          found := found + [id];
        }
      } else {
        Seqs.RightEmpty(found);
        break;
      }
      i := i - 1;
      if !(memory > 0) { break; }
    }
    Seqs.RightEmpty(found);
  }

  /** No shorter scan of at least n tables adds up. */
  ghost predicate NotBefore(readers: Readers, ids: seq<nat>, n: nat, wanted: nat)
  {
    forall j :: n <= j < |ids| ==> !AddsUp(readers, ids[..j], wanted)
  }

  lemma NotBeforeMore(readers: Readers, ids: seq<nat>, n: nat, wanted: nat, id: nat)
    requires NotBefore(readers, ids, n, wanted) && n <= |ids| && !AddsUp(readers, ids, wanted)
    ensures NotBefore(readers, ids + [id], n, wanted)
  {
    hide AddsUp;
    var more := ids + [id];
    forall j | n <= j < |more| ensures !AddsUp(readers, more[..j], wanted) {
      if j < |ids| { assert more[..j] == ids[..j]; } else { assert more[..j] == ids; }
    }
  }

  /** From the queue of the tables with the most units down: the shortest scan whose sizes
      add up to what is wanted, or nothing. */
  method FindColdFilter(queues: seq<seq<nat>>, readers: Readers, wanted: nat, sn: nat) returns (found: seq<nat>)
    requires Placed(queues, readers) && wanted < TWO_64
    ensures Chosen(readers, sn, found) && found <= Scan(queues, readers, sn, ALL_UNITS)
    ensures found != [] ==> AddsUp(readers, found, wanted) && NotBefore(readers, found, 0, wanted)
    ensures found == [] && wanted > 0 ==> NeverAddsUp(readers, Scan(queues, readers, sn, ALL_UNITS), wanted)
  {
    hide Eligible, AddsUp, Balanced, ColdRun;
    var memory: nat := wanted;
    found := [];
    var i := ALL_UNITS;
    ghost var all := Scan(queues, readers, sn, ALL_UNITS);
    Nothing(readers, wanted);
    assert [] + all == all;
    while i >= 1 && memory > 0
      invariant 0 <= i <= ALL_UNITS && memory < TWO_64
      invariant Chosen(readers, sn, found) && Balanced(readers, found, memory, wanted)
      invariant forall id :: id in found ==> id in readers && readers[id].units > i
      invariant memory > 0 ==> found + Scan(queues, readers, sn, i) == all
      invariant found <= all && NotBefore(readers, found, 0, wanted)
    {
      ghost var before := found;
      memory, found := FindColdInQueue(queues[i], readers, sn, memory, found, wanted);
      Seqs.Associative(before, ColdRun(queues[i], readers, sn), Scan(queues, readers, sn, i - 1));
      assert forall j :: 0 <= j < |before| ==> found[..j] == before[..j];
      i := i - 1;
    }
    NothingMissing(readers, found, memory, wanted);
    if memory > 0 {
      Seqs.RightEmpty(found);
      assert found[..|found|] == found;
      found := [];
    }
  }

  ghost predicate NeverAddsUp(readers: Readers, ids: seq<nat>, wanted: nat)
  {
    forall j :: 0 <= j <= |ids| ==> !AddsUp(readers, ids[..j], wanted)
  }

  lemma Nothing(readers: Readers, wanted: nat)
    requires wanted < TWO_64
    ensures Balanced(readers, [], wanted, wanted) && (AddsUp(readers, [], wanted) <==> wanted == 0)
  {
  }

  lemma NotAgain(queue: seq<nat>, i: nat)
    requires NoDuplicates(queue) && 0 < i <= |queue|
    ensures queue[i - 1] !in queue[i..]
  {
  }

  lemma ChosenMore(readers: Readers, sn: nat, ids: seq<nat>, id: nat)
    requires Chosen(readers, sn, ids) && id !in ids && Eligible(readers, sn, id)
    ensures Chosen(readers, sn, ids + [id])
  {
  }

  // ---- Evicting and loading ------------------------------------------------------------------------

  function Evicted(r: Reader): Reader
    requires r.units > 0
  {
    r.(units := r.units - 1)
  }

  function Loaded(r: Reader): Reader
  {
    r.(units := r.units + 1)
  }

  ghost function EvictAll(readers: Readers, ids: seq<nat>): Readers
  {
    if ids == [] then readers
    else
      var rest, id := EvictAll(readers, ids[..|ids| - 1]), ids[|ids| - 1];
      if id in rest && rest[id].units > 0 then rest[id := Evicted(rest[id])] else rest
  }

  ghost function SumIOs(fpr: real, readers: Readers, ids: seq<nat>): real
  {
    if ids == [] then 0.0
    else
      var id := ids[|ids| - 1];
      SumIOs(fpr, readers, ids[..|ids| - 1]) + if id in readers then IOs(fpr, readers[id]) else 0.0
  }

  ghost function SumEvictIOs(fpr: real, readers: Readers, ids: seq<nat>): real
  {
    if ids == [] then 0.0
    else
      var id := ids[|ids| - 1];
      SumEvictIOs(fpr, readers, ids[..|ids| - 1])
        + if id in readers && readers[id].units > 0 then EvictIOs(fpr, readers[id]) else 0.0
  }

  ghost predicate Evictable(readers: Readers, ids: seq<nat>, n: nat)
  {
    NoDuplicates(ids) && forall id :: id in ids ==> id in readers && readers[id].units > 0 && id < n
  }

  /** Evicting one unit of each: only those tables change. */
  lemma {:induction false} EvictAllReaders(readers: Readers, ids: seq<nat>, n: nat)
    requires Evictable(readers, ids, n)
    ensures EvictAll(readers, ids).Keys == readers.Keys
    ensures forall id :: id in readers ==>
              EvictAll(readers, ids)[id] == if id in ids then Evicted(readers[id]) else readers[id]
  {
    if ids != [] {
      var m := |ids| - 1;
      EvictAllReaders(readers, ids[..m], n);
      assert ids == ids[..m] + [ids[m]];
      assert ids[m] !in ids[..m];
    }
  }

  lemma {:induction false} EvictAllMemory(readers: Readers, ids: seq<nat>, n: nat)
    requires Evictable(readers, ids, n)
    ensures Memory(EvictAll(readers, ids), n) + SumSizes(readers, ids) == Memory(readers, n)
  {
    if ids != [] {
      var m, id := |ids| - 1, ids[|ids| - 1];
      var rest := EvictAll(readers, ids[..m]);
      EvictAllReaders(readers, ids[..m], n);
      EvictAllMemory(readers, ids[..m], n);
      assert id !in ids[..m];
      MemoryUpdate(rest, n, id, Evicted(rest[id]));
      OneUnit(rest[id]);
    }
  }

  lemma OneUnit(r: Reader)
    requires r.units > 0
    ensures Size(Evicted(r)) + r.unitSize == Size(r)
  {
    assert r.units * r.unitSize == (r.units - 1) * r.unitSize + r.unitSize;
  }

  /** The estimates are what the table would have after the eviction or the load. */
  lemma EstimateEvict(fpr: real, r: Reader)
    requires r.units > 0
    ensures IOs(fpr, Evicted(r)) == EvictIOs(fpr, r) && IOs(fpr, Loaded(r)) == LoadIOs(fpr, r)
  {
  }

  lemma {:induction false} EvictAllIOs(fpr: real, readers: Readers, ids: seq<nat>, n: nat)
    requires Evictable(readers, ids, n)
    ensures TotalIOs(fpr, EvictAll(readers, ids), n)
         == TotalIOs(fpr, readers, n) - SumIOs(fpr, readers, ids) + SumEvictIOs(fpr, readers, ids)
  {
    hide IOs, EvictIOs, TotalIOs;
    if ids != [] {
      var m, id := |ids| - 1, ids[|ids| - 1];
      var rest := EvictAll(readers, ids[..m]);
      EstimateEvict(fpr, readers[id]);
      EvictAllReaders(readers, ids[..m], n);
      EvictAllIOs(fpr, readers, ids[..m], n);
      assert id !in ids[..m];
      IOsUpdate(fpr, rest, n, id, Evicted(rest[id]));
    }
  }

  // ---- One adjustment ----------------------------------------------------------------------------------

  /** CanBeAdjusted: the estimate after the exchange is below the one before. */
  ghost predicate Pays(fpr: real, readers: Readers, colds: seq<nat>, hot: nat)
    requires hot in readers
  {
    SumEvictIOs(fpr, readers, colds) + LoadIOs(fpr, readers[hot]) < SumIOs(fpr, readers, colds) + IOs(fpr, readers[hot])
  }

  ghost function Exchange(readers: Readers, colds: seq<nat>, hot: nat): Readers
    requires hot in EvictAll(readers, colds)
  {
    var rest := EvictAll(readers, colds);
    rest[hot := Loaded(rest[hot])]
  }

  /** A cold set whose sizes add up to the hot table's unit, none of it the hot table. */
  ghost predicate Exchangeable(readers: Readers, colds: seq<nat>, hot: nat, n: nat)
  {
    Evictable(readers, colds, n) && hot in readers && hot < n && hot !in colds &&
        SumSizes(readers, colds) == readers[hot].unitSize
  }

  /** Filter memory is conserved by an exchange that succeeds. */
  lemma MemoryConserved(readers: Readers, colds: seq<nat>, hot: nat, n: nat)
    requires Exchangeable(readers, colds, hot, n)
    ensures hot in EvictAll(readers, colds) && Memory(Exchange(readers, colds, hot), n) == Memory(readers, n)
  {
    hide Memory, SumSizes;
    EvictAllReaders(readers, colds, n);
    EvictAllMemory(readers, colds, n);
    var rest := EvictAll(readers, colds);
    assert hot in rest.Keys;
    MemoryUpdate(rest, n, hot, Loaded(rest[hot]));
    assert (rest[hot].units + 1) * rest[hot].unitSize == rest[hot].units * rest[hot].unitSize + rest[hot].unitSize;
  }

  /** Expected I/O strictly falls by an exchange that pays. */
  lemma IOsFall(fpr: real, readers: Readers, colds: seq<nat>, hot: nat, n: nat)
    requires Exchangeable(readers, colds, hot, n) && Pays(fpr, readers, colds, hot)
    ensures hot in EvictAll(readers, colds) &&
            TotalIOs(fpr, Exchange(readers, colds, hot), n) < TotalIOs(fpr, readers, n)
  {
    hide TotalIOs, SumIOs, SumEvictIOs, Power;
    EvictAllReaders(readers, colds, n);
    EvictAllIOs(fpr, readers, colds, n);
    var rest := EvictAll(readers, colds);
    assert hot in rest.Keys;
    IOsUpdate(fpr, rest, n, hot, Loaded(rest[hot]));
  }

  // ---- What a unit is worth --------------------------------------------------------------------

  lemma {:induction false} PowerPositive(x: real, n: nat)
    requires x > 0.0
    ensures Power(x, n) > 0.0
  {
    if n > 0 {
      PowerPositive(x, n - 1);
      ProductPositive(x, Power(x, n - 1));
    }
  }

  lemma ProductPositive(x: real, y: real)
    requires x > 0.0 && y > 0.0
    ensures x * y > 0.0
  {
  }

  lemma ProductOrder(x: real, y: real, z: real)
    requires z > 0.0
    ensures x * z < y * z <==> x < y
  {
    assert y * z - x * z == (y - x) * z;
    if x < y { ProductPositive(y - x, z); }
    if y < x { ProductPositive(x - y, z); }
  }

  /** Without units every access is a read; every unit divides the reads by the rate of false
      positives. */
  lemma UnitScales(fpr: real, r: Reader)
    ensures r.units == 0 ==> IOs(fpr, r) == r.access as real
    ensures IOs(fpr, Loaded(r)) == fpr * IOs(fpr, r)
    ensures r.units > 0 ==> IOs(fpr, r) == fpr * EvictIOs(fpr, r)
  {
    assert Power(fpr, r.units + 1) == fpr * Power(fpr, r.units);
    Regroup(fpr, Power(fpr, r.units), r.access as real);
    if r.units > 0 { Regroup(fpr, Power(fpr, r.units - 1), r.access as real); }
  }

  /** FalsePositiveRate: between 0 and 1 for every filter with bits. */
  lemma {:induction false} RateOfBits(bitsPerKey: nat)
    requires bitsPerKey > 0
    ensures 0.0 < Power(0.6185, bitsPerKey) < 1.0
  {
    PowerPositive(0.6185, bitsPerKey);
    if bitsPerKey > 1 {
      RateOfBits(bitsPerKey - 1);
      ProductOrder(0.6185, 1.0, Power(0.6185, bitsPerKey - 1));
    }
  }

  lemma Regroup(x: real, y: real, z: real)
    ensures x * y * z == x * (y * z)
  {
  }

  /** A load strictly lowers the reads of a table that is read, and an eviction raises them. */
  lemma LoadLowers(fpr: real, r: Reader)
    requires 0.0 < fpr < 1.0 && r.access > 0
    ensures IOs(fpr, Loaded(r)) < IOs(fpr, r)
    ensures r.units > 0 ==> IOs(fpr, Evicted(r)) > IOs(fpr, r)
  {
    hide Power;
    UnitScales(fpr, r);
    PowerPositive(fpr, r.units);
    ProductPositive(Power(fpr, r.units), r.access as real);
    ProductOrder(fpr, 1.0, IOs(fpr, r));
    if r.units > 0 {
      EstimateEvict(fpr, r);
      PowerPositive(fpr, r.units - 1);
      ProductPositive(Power(fpr, r.units - 1), r.access as real);
      ProductOrder(fpr, 1.0, EvictIOs(fpr, r));
    }
  }

  lemma {:induction false} SumScales(fpr: real, readers: Readers, ids: seq<nat>)
    requires forall id :: id in ids ==> id in readers && readers[id].units > 0
    ensures SumIOs(fpr, readers, ids) == fpr * SumEvictIOs(fpr, readers, ids)
  {
    hide IOs, EvictIOs;
    if ids != [] {
      SumScales(fpr, readers, ids[..|ids| - 1]);
      UnitScales(fpr, readers[ids[|ids| - 1]]);
    }
  }

  /** An exchange pays if and only if the cold tables, one unit poorer, would be read less
      than the hot table is now. */
  lemma PaysExactly(fpr: real, readers: Readers, colds: seq<nat>, hot: nat)
    requires 0.0 < fpr < 1.0 && hot in readers
    requires forall id :: id in colds ==> id in readers && readers[id].units > 0
    ensures Pays(fpr, readers, colds, hot) <==> SumEvictIOs(fpr, readers, colds) < IOs(fpr, readers[hot])
  {
    hide IOs, LoadIOs, SumIOs, SumEvictIOs;
    SumScales(fpr, readers, colds);
    UnitScales(fpr, readers[hot]);
    LoadEstimate(fpr, readers[hot]);
    Balance(fpr, SumEvictIOs(fpr, readers, colds), IOs(fpr, readers[hot]));
  }

  lemma Balance(x: real, a: real, b: real)
    requires x < 1.0
    ensures a + x * b < x * a + b <==> a < b
  {
    assert x * a + b - (a + x * b) == b * (1.0 - x) - a * (1.0 - x);
    ProductOrder(a, b, 1.0 - x);
  }

  lemma LoadEstimate(fpr: real, r: Reader)
    ensures LoadIOs(fpr, r) == IOs(fpr, Loaded(r))
  {
  }

  /** One cold table with as many units as the hot one: the exchange pays if and only if the
      cold one is read less often than the hot one gives false positives. */
  lemma PaysForOne(fpr: real, readers: Readers, cold: nat, hot: nat)
    requires 0.0 < fpr < 1.0 && hot in readers && cold in readers
    requires readers[cold].units == readers[hot].units > 0
    ensures Pays(fpr, readers, [cold], hot) <==> readers[cold].access as real < fpr * readers[hot].access as real
  {
    hide Pays, Power;
    PaysExactly(fpr, readers, [cold], hot);
    assert [cold][..0] == [];
    UnitScales(fpr, readers[hot]);
    var p, c, h := Power(fpr, readers[hot].units - 1), readers[cold].access as real, readers[hot].access as real;
    PowerPositive(fpr, readers[hot].units - 1);
    assert fpr * (p * h) == (fpr * h) * p by { Regroup(fpr, h, p); }
    ProductOrder(c, fpr * h, p);
  }

  // ---- Runs with frozen access counts ---------------------------------------------------------------------

  ghost predicate IsAdjustment(fpr: real, n: nat, before: Readers, after: Readers)
  {
    exists colds, hot :: Adjusts(fpr, n, before, after, colds, hot)
  }

  ghost predicate Adjusts(fpr: real, n: nat, before: Readers, after: Readers, colds: seq<nat>, hot: nat)
  {
    && Exchangeable(before, colds, hot, n) && Pays(fpr, before, colds, hot)
    && hot in EvictAll(before, colds) && after == Exchange(before, colds, hot)
  }

  ghost predicate IsRun(fpr: real, n: nat, run: seq<Readers>)
  {
    forall i :: 0 < i < |run| ==> IsAdjustment(fpr, n, run[i - 1], run[i])
  }

  lemma {:induction false} RunFalls(fpr: real, n: nat, run: seq<Readers>, i: nat, j: nat)
    requires IsRun(fpr, n, run) && i < j < |run|
    ensures TotalIOs(fpr, run[j], n) < TotalIOs(fpr, run[i], n) && Memory(run[j], n) == Memory(run[i], n)
  {
    hide TotalIOs, Memory, Exchangeable, Pays, Exchange;
    if i < j - 1 { RunFalls(fpr, n, run, i, j - 1); }
    assert IsAdjustment(fpr, n, run[j - 1], run[j]);
    var colds, hot :| Adjusts(fpr, n, run[j - 1], run[j], colds, hot);
    IOsFall(fpr, run[j - 1], colds, hot, n);
    MemoryConserved(run[j - 1], colds, hot, n);
  }

  /** With access counts frozen no configuration comes back. */
  lemma NoRepeat(fpr: real, n: nat, run: seq<Readers>, i: nat, j: nat)
    requires IsRun(fpr, n, run) && i < j < |run|
    ensures run[i] != run[j]
  {
    RunFalls(fpr, n, run, i, j);
  }

  // ---- Moving between queues ----------------------------------------------------------------------------

  /** Queue_Remove. */
  function Without(s: seq<nat>, id: nat): seq<nat>
  {
    if s == [] then [] else if s[0] == id then Without(s[1..], id) else [s[0]] + Without(s[1..], id)
  }

  lemma {:induction false} WithoutItems(s: seq<nat>, id: nat)
    ensures forall x :: x in Without(s, id) <==> x in s && x != id
  {
    if s != [] {
      WithoutItems(s[1..], id);
      assert s == [s[0]] + s[1..];
    }
  }

  /** It comes first, and the others stay in their order. */
  lemma MovesToFront(queues: seq<seq<nat>>, readers: Readers, id: nat, to: nat)
    requires Placed(queues, readers) && id in readers && to <= ALL_UNITS
    ensures Move(queues, id, readers[id].units, to)[to] == [id] + Without(queues[to], id)
    ensures forall n :: 0 <= n <= ALL_UNITS && n != to ==>
              Move(queues, id, readers[id].units, to)[n] == Without(queues[n], id)
  {
    hide NoDuplicates, Without;
    forall n | 0 <= n <= ALL_UNITS && n != readers[id].units ensures Without(queues[n], id) == queues[n] {
      WithoutNone(queues[n], id);
    }
  }

  lemma {:induction false} WithoutNone(s: seq<nat>, id: nat)
    requires id !in s
    ensures Without(s, id) == s
  {
    if s != [] { WithoutNone(s[1..], id); }
  }

  lemma {:induction false} WithoutApart(s: seq<nat>, id: nat)
    requires NoDuplicates(s)
    ensures NoDuplicates(Without(s, id))
  {
    if s != [] {
      WithoutApart(s[1..], id);
      WithoutItems(s[1..], id);
      assert forall k :: 1 <= k < |s| ==> s[k] == s[1..][k - 1];
      if s[0] != id { FrontApart(Without(s[1..], id), s[0]); }
    }
  }

  /** Queue_Append puts the table at the most recently used end. */
  lemma FrontApart(s: seq<nat>, id: nat)
    requires NoDuplicates(s) && id !in s
    ensures NoDuplicates([id] + s)
  {
  }

  function Move(queues: seq<seq<nat>>, id: nat, from: nat, to: nat): seq<seq<nat>>
    requires from < |queues| && to < |queues|
  {
    var removed := queues[from := Without(queues[from], id)];
    removed[to := [id] + removed[to]]
  }

  /** A table moved to the queue of its new number of units. */
  lemma MovePlaced(queues: seq<seq<nat>>, readers: Readers, id: nat, r: Reader)
    requires Placed(queues, readers) && id in readers && r.units <= ALL_UNITS
    ensures Placed(Move(queues, id, readers[id].units, r.units), readers[id := r])
  {
    var from, to := readers[id].units, r.units;
    WithoutItems(queues[from], id);
    WithoutApart(queues[from], id);
    var removed := queues[from := Without(queues[from], id)];
    assert id !in removed[to];
    FrontApart(removed[to], id);
    hide NoDuplicates;
    var moved := Move(queues, id, from, to);
    assert forall x :: x in moved[to] <==> x == id || x in removed[to];
  }

  /** The cold tables move down a queue each, in the order in which they were found. */
  ghost function EvictMoves(queues: seq<seq<nat>>, readers: Readers, ids: seq<nat>): (r: seq<seq<nat>>)
    ensures |r| == |queues|
  {
    if ids == [] then queues
    else
      var last := |ids| - 1;
      var moved := EvictMoves(queues, readers, ids[..last]);
      var n := if ids[last] in readers then readers[ids[last]].units else 0;
      if 0 < n < |queues| then Move(moved, ids[last], n, n - 1) else moved
  }

  lemma NoMoves(queues: seq<seq<nat>>, readers: Readers)
    ensures EvictMoves(queues, readers, []) == queues
  {
  }

  lemma QueueCount(queues: seq<seq<nat>>, readers: Readers)
    requires Placed(queues, readers)
    ensures |queues| == ALL_UNITS + 1 && forall id :: id in readers ==> readers[id].units <= ALL_UNITS
  {
  }

  lemma EvictMovesStep(queues: seq<seq<nat>>, readers: Readers, ids: seq<nat>, i: nat)
    requires i < |ids| && ids[i] in readers && 0 < readers[ids[i]].units < |queues|
    ensures EvictMoves(queues, readers, ids[..i + 1])
         == Move(EvictMoves(queues, readers, ids[..i]), ids[i], readers[ids[i]].units, readers[ids[i]].units - 1)
  {
    hide Move;
    assert ids[..i + 1][..i] == ids[..i];
  }

  lemma HotStays(readers: Readers, colds: seq<nat>, hot: nat, n: nat)
    requires Exchangeable(readers, colds, hot, n)
    ensures hot in EvictAll(readers, colds) && EvictAll(readers, colds)[hot] == readers[hot]
  {
    EvictAllReaders(readers, colds, n);
    assert hot in EvictAll(readers, colds).Keys;
  }

  /** Then the hot one moves up. */
  ghost function ExchangeQueues(queues: seq<seq<nat>>, readers: Readers, colds: seq<nat>, hot: nat): seq<seq<nat>>
    requires hot in readers
  {
    var moved, n := EvictMoves(queues, readers, colds), readers[hot].units;
    if n + 1 < |queues| then Move(moved, hot, n, n + 1) else moved
  }

  // ---- The queues as an object ----------------------------------------------------------------------------

  ghost function UnitTotal(readers: Readers, n: nat): nat
  {
    if n == 0 then 0 else UnitTotal(readers, n - 1) + if n - 1 in readers then readers[n - 1].unitSize else 0
  }

  lemma {:induction false} UnitTotalUpdate(readers: Readers, n: nat, id: nat, r: Reader)
    requires id in readers
    ensures UnitTotal(readers[id := r], n) ==
            UnitTotal(readers, n) + if id < n then r.unitSize - readers[id].unitSize else 0
  {
    if n > 0 { UnitTotalUpdate(readers, n - 1, id, r); }
  }

  /** The sizes of distinct tables add up to no more than those of all tables. */
  lemma {:induction false} DistinctSum(readers: Readers, ids: seq<nat>, n: nat)
    requires NoDuplicates(ids) && forall id :: id in ids ==> id in readers && id < n
    ensures SumSizes(readers, ids) <= UnitTotal(readers, n)
  {
    if ids != [] {
      var m, id := |ids| - 1, ids[|ids| - 1];
      var less := readers[id := readers[id].(unitSize := 0)];
      assert id !in ids[..m];
      DistinctSum(less, ids[..m], n);
      SameSizes(readers, less, ids[..m]);
      UnitTotalUpdate(readers, n, id, readers[id].(unitSize := 0));
    }
  }

  lemma {:induction false} SameSizes(a: Readers, b: Readers, ids: seq<nat>)
    requires forall id :: id in ids ==> id in a && id in b && a[id].unitSize == b[id].unitSize
    ensures SumSizes(a, ids) == SumSizes(b, ids)
  {
    if ids != [] { SameSizes(a, b, ids[..|ids| - 1]); }
  }

  class InternalMultiQueue {
    /** The filter policy's false positive rate. */
    const fpr: real
    var queues: seq<seq<nat>>
    var readers: Readers
    var usage: nat
    var next: nat

    /** Every table is in the queue of its number of units, and the usage counter is the
        memory the loaded units take. */
    ghost predicate Valid()
      reads this
    {
      && Placed(queues, readers) && usage == Memory(readers, next) && UnitTotal(readers, next) < TWO_64
      && forall id :: id in readers ==> id < next
    }

    constructor (fpr: real)
      ensures Valid() && readers == map[] && this.fpr == fpr
    {
      this.fpr := fpr;
      queues, readers, usage, next := seq(ALL_UNITS + 1, i => []), map[], 0, 0;
    }

    /** A table whose initial units have been loaded. */
    method Insert(unitSize: nat) returns (id: nat)
      requires Valid() && UnitTotal(readers, next) + unitSize < TWO_64
      modifies this
      ensures Valid() && id !in old(readers) && readers == old(readers)[id := Reader(LOAD_UNITS, unitSize, 0, 0)]
      ensures usage == old(usage) + LOAD_UNITS * unitSize
      ensures |old(queues)| > LOAD_UNITS && queues == old(queues)[LOAD_UNITS := [id] + old(queues)[LOAD_UNITS]]
    {
      hide NoDuplicates;
      id := next;
      var r := Reader(LOAD_UNITS, unitSize, 0, 0);
      InsertPlaced(queues, readers, id, r);
      SameUpTo(readers, readers[id := r], next);
      queues := queues[LOAD_UNITS := [id] + queues[LOAD_UNITS]];
      readers := readers[id := r];
      usage := usage + LOAD_UNITS * unitSize;
      next := next + 1;
    }

    /** The table is gone, with the memory of its units. */
    method Erase(id: nat)
      requires Valid() && id in readers
      modifies this
      ensures Valid() && readers == old(readers) - {id} && usage + Size(old(readers)[id]) == old(usage)
      ensures var n := old(readers)[id].units;
              n < |old(queues)| && queues == old(queues)[n := Without(old(queues)[n], id)]
    {
      hide NoDuplicates;
      var n := readers[id].units;
      ErasePlaced(queues, readers, id);
      EraseSums(readers, next, id);
      usage := usage - Size(readers[id]);
      queues := queues[n := Without(queues[n], id)];
      readers := readers - {id};
    }

    method EvictHandle(id: nat) returns (ok: bool)
      requires Placed(queues, readers) && id in readers
      modifies this`queues, this`readers
      ensures ok <==> old(readers)[id].units >= 1
      ensures Placed(queues, readers) && readers == if ok then old(readers)[id := Evicted(old(readers)[id])]
                                                    else old(readers)
      ensures var n := old(readers)[id].units;
              n < |old(queues)| && queues == if ok then Move(old(queues), id, n, n - 1) else old(queues)
    {
      hide NoDuplicates;
      var number := readers[id].units;
      if number >= 1 {
        MovePlaced(queues, readers, id, Evicted(readers[id]));
        queues := Move(queues, id, number, number - 1);
        readers := readers[id := Evicted(readers[id])];
        return true;
      }
      ok := false;
    }

    /** The table moves up a queue first; if the read fails, its units stay. */
    method LoadHandle(id: nat, io: bool) returns (ok: bool)
      requires Placed(queues, readers) && id in readers
      modifies this`queues, this`readers
      ensures ok <==> old(readers)[id].units < ALL_UNITS && io
      ensures ok ==> Placed(queues, readers) && readers == old(readers)[id := Loaded(old(readers)[id])]
      ensures !ok ==> readers == old(readers)
      ensures var n := old(readers)[id].units;
              && |old(queues)| == ALL_UNITS + 1 && n <= ALL_UNITS
              && queues == if n < ALL_UNITS then Move(old(queues), id, n, n + 1) else old(queues)
    {
      hide NoDuplicates;
      var number := readers[id].units;
      if number < ALL_UNITS {
        MovePlaced(queues, readers, id, Loaded(readers[id]));
        queues := Move(queues, id, number, number + 1);
        if io {
          readers := readers[id := Loaded(readers[id])];
          return true;
        }
      }
      ok := false;
    }

    /** Each cold table gives up a unit, then the hot one loads one. */
    method ApplyAdjustment(colds: seq<nat>, hot: nat, io: bool) returns (ok: bool)
      requires Placed(queues, readers) && Exchangeable(readers, colds, hot, next) && readers[hot].units < ALL_UNITS
      modifies this`queues, this`readers
      ensures ok == io && hot in EvictAll(old(readers), colds)
      ensures ok ==> Placed(queues, readers) && readers == Exchange(old(readers), colds, hot)
      ensures !ok ==> readers == EvictAll(old(readers), colds)
      ensures |old(queues)| == ALL_UNITS + 1 && queues == ExchangeQueues(old(queues), old(readers), colds, hot)
    {
      hide NoDuplicates, Placed, Move, EvictMoves;
      HotStays(readers, colds, hot, next);
      assert colds[..0] == [];
      NoMoves(queues, readers);
      QueueCount(queues, readers);
      for i := 0 to |colds|
        invariant Placed(queues, readers) && readers == EvictAll(old(readers), colds[..i])
        invariant queues == EvictMoves(old(queues), old(readers), colds[..i])
      {
        EvictPart(old(readers), colds, i, next);
        EvictMovesStep(old(queues), old(readers), colds, i);
        var evicted := EvictHandle(colds[i]);
        assert colds[..i + 1][..i] == colds[..i];
      }
      assert colds[..|colds|] == colds;
      ok := LoadHandle(hot, io);
    }

    /** Adjustment: nothing happens, or an exchange that pays. */
    method Adjustment(hot: nat, sn: nat, io: bool) returns (adjusted: bool)
      requires Valid() && hot in readers && readers[hot].sequence == sn
      modifies this`queues, this`readers
      ensures !adjusted ==> readers == old(readers) && queues == old(queues) &&
                            NothingToGain(fpr, queues, readers, hot, sn)
      ensures adjusted && io ==> Valid() && IsAdjustment(fpr, next, old(readers), readers)
      ensures adjusted && !io ==> Memory(readers, next) + old(readers)[hot].unitSize == usage
      ensures |old(queues)| == ALL_UNITS + 1
      ensures adjusted ==> exists colds :: Adjusted(fpr, old(queues), old(readers), hot, sn, io, colds, queues, readers)
      ensures adjusted <==> !NothingToGain(fpr, old(queues), old(readers), hot, sn)
      ensures adjusted && !io ==> !Placed(queues, readers) && Memory(readers, next) < usage
      ensures Valid() <==> io || NothingToGain(fpr, old(queues), old(readers), hot, sn)
    {
      hide NoDuplicates, Memory, TotalIOs, UnitTotal, SumSizes, Eligible, Scan, AddsUp, NeverAddsUp, Pays, NotBefore,
           Move, EvictMoves;
      if readers[hot].units < ALL_UNITS {
        UnitBelow(readers, next, hot);
        var colds := FindColdFilter(queues, readers, readers[hot].unitSize, sn);
        if colds == [] { return false; }
        ChosenExchangeable(readers, sn, colds, hot, next);
        var pays := CanBeAdjusted(colds, hot);
        assert Picks(queues, readers, hot, sn, colds);
        if Pays(fpr, readers, colds, hot) { SomethingToGain(fpr, queues, readers, hot, sn, colds); }
        if pays {
          MemoryConserved(readers, colds, hot, next);
          EvictAllMemory(readers, colds, next);
          EvictAllReaders(readers, colds, next);
          SameTotal(readers, colds, hot, next);
          ghost var before, was := readers, queues;
          var ok := ApplyAdjustment(colds, hot, io);
          if io {
            assert Adjusts(fpr, next, before, readers, colds, hot);
            assert readers.Keys == before.Keys;
          }
          assert Adjusted(fpr, was, before, hot, sn, io, colds, queues, readers);
          if !io { FailedLoadMisplaces(was, before, colds, hot, next); }
          return true;
        }
      }
      adjusted := false;
    }

    /** UpdateHandle up to the filter test: the access is counted, the table becomes the
        most recently used of its queue, and an adjustment is tried. */
    method UpdateHandle(id: nat, sn: nat, io: bool) returns (adjusted: bool)
      requires Valid() && id in readers
      modifies this`queues, this`readers
      ensures var r := old(readers)[id];
              var touched := old(readers)[id := r.(sequence := sn, access := r.access + 1)];
              && (!adjusted ==> Valid() && readers == touched && NothingToGain(fpr, queues, readers, id, sn))
              && (adjusted && io ==> Valid() && IsAdjustment(fpr, next, touched, readers))
              && (adjusted && !io ==> Memory(readers, next) + r.unitSize == usage)
              && |old(queues)| == ALL_UNITS + 1 && r.units <= ALL_UNITS
              && var front := Move(old(queues), id, r.units, r.units);
              && (!adjusted ==> queues == front)
              && (adjusted ==> exists colds :: Adjusted(fpr, front, touched, id, sn, io, colds, queues, readers))
              && (adjusted <==> !NothingToGain(fpr, front, touched, id, sn))
              && (Valid() <==> io || NothingToGain(fpr, front, touched, id, sn))
    {
      hide NoDuplicates, Memory, TotalIOs, UnitTotal;
      var r := readers[id].(sequence := sn, access := readers[id].access + 1);
      MovePlaced(queues, readers, id, r);
      MemoryUpdate(readers, next, id, r);
      UnitTotalUpdate(readers, next, id, r);
      queues := Move(queues, id, r.units, r.units);
      readers := readers[id := r];
      adjusted := Adjustment(id, sn, io);
    }

    method CanBeAdjusted(colds: seq<nat>, hot: nat) returns (b: bool)
      requires hot in readers && forall id :: id in colds ==> id in readers && readers[id].units > 0
      ensures b <==> Pays(fpr, readers, colds, hot)
    {
      hide IOs, EvictIOs;
      var original, adjusted := 0.0, 0.0;
      assert colds[..0] == [];
      for i := 0 to |colds|
        invariant original == SumIOs(fpr, readers, colds[..i])
      {
        original := original + IOs(fpr, readers[colds[i]]);
        assert colds[..i + 1][..i] == colds[..i];
      }
      original := original + IOs(fpr, readers[hot]);
      for i := 0 to |colds|
        invariant adjusted == SumEvictIOs(fpr, readers, colds[..i])
      {
        adjusted := adjusted + EvictIOs(fpr, readers[colds[i]]);
        assert colds[..i + 1][..i] == colds[..i];
      }
      adjusted := adjusted + LoadIOs(fpr, readers[hot]);
      assert colds[..|colds|] == colds;
      b := adjusted < original;
    }
  }

  /** The shortest run of cold tables, from the fullest queue's least recently used end,
      whose units add up to one of the hot table's. */
  ghost predicate Picks(queues: seq<seq<nat>>, readers: Readers, hot: nat, sn: nat, colds: seq<nat>)
    requires hot in readers && |queues| > ALL_UNITS
  {
    && colds != [] && colds <= Scan(queues, readers, sn, ALL_UNITS)
    && AddsUp(readers, colds, readers[hot].unitSize) && NotBefore(readers, colds, 0, readers[hot].unitSize)
  }

  /** The adjustment that takes place; a failed read of the hot table's unit leaves the
      cold ones evicted. */
  ghost predicate Adjusted(fpr: real, queues: seq<seq<nat>>, readers: Readers, hot: nat, sn: nat, io: bool,
                           colds: seq<nat>,
                           queues': seq<seq<nat>>, readers': Readers)
    requires hot in readers && |queues| > ALL_UNITS
  {
    && Picks(queues, readers, hot, sn, colds) && Pays(fpr, readers, colds, hot) && hot in EvictAll(readers, colds)
    && readers' == (if io then Exchange(readers, colds, hot) else EvictAll(readers, colds))
    && queues' == ExchangeQueues(queues, readers, colds, hot)
  }

  /** Why there is no adjustment: the hot table is full or has no size, no scan of cold
      tables adds up, or the exchange would not pay. */
  ghost predicate NothingToGain(fpr: real, queues: seq<seq<nat>>, readers: Readers, hot: nat, sn: nat)
    requires hot in readers && |queues| > ALL_UNITS
  {
    || readers[hot].units >= ALL_UNITS || readers[hot].unitSize == 0
    || NeverAddsUp(readers, Scan(queues, readers, sn, ALL_UNITS), readers[hot].unitSize)
    || exists colds :: Picks(queues, readers, hot, sn, colds) && !Pays(fpr, readers, colds, hot)
  }

  /** The run of cold tables is unique, so an exchange that pays excludes every reason
      against one; in particular the hot table has a size. */
  lemma SomethingToGain(fpr: real, queues: seq<seq<nat>>, readers: Readers, hot: nat, sn: nat, colds: seq<nat>)
    requires hot in readers && |queues| > ALL_UNITS && readers[hot].units < ALL_UNITS
    requires Picks(queues, readers, hot, sn, colds) && Pays(fpr, readers, colds, hot)
    ensures readers[hot].unitSize > 0 && !NothingToGain(fpr, queues, readers, hot, sn)
  {
    hide Scan, Pays, SumSizes, AddsUp;
    var scan, wanted := Scan(queues, readers, sn, ALL_UNITS), readers[hot].unitSize;
    assert colds[..0] == [];
    NothingAddsUp(readers);
    assert colds == scan[..|colds|];
    forall other | Picks(queues, readers, hot, sn, other) ensures other == colds {
      assert other == scan[..|other|];
      NoShorter(readers, scan, |other|, |colds|, wanted);
      NoShorter(readers, scan, |colds|, |other|, wanted);
    }
  }

  lemma NoShorter(readers: Readers, scan: seq<nat>, a: nat, b: nat, wanted: nat)
    requires a <= |scan| && b <= |scan| && AddsUp(readers, scan[..a], wanted) &&
             NotBefore(readers, scan[..b], 0, wanted)
    ensures a >= b
  {
    hide AddsUp;
    var m := if a < b then a else b;
    assert scan[..b][..m] == scan[..m];
  }

  lemma NothingAddsUp(readers: Readers)
    ensures AddsUp(readers, [], 0)
  {
  }

  /** After a failed load the hot table is one queue above the one of its units. */
  lemma FailedLoadMisplaces(queues: seq<seq<nat>>, readers: Readers, colds: seq<nat>, hot: nat, n: nat)
    requires Exchangeable(readers, colds, hot, n) && |queues| == ALL_UNITS + 1 && readers[hot].units < ALL_UNITS
    ensures !Placed(ExchangeQueues(queues, readers, colds, hot), EvictAll(readers, colds))
  {
    hide EvictMoves, EvictAll;
    HotStays(readers, colds, hot, n);
    var up := readers[hot].units + 1;
    var after := ExchangeQueues(queues, readers, colds, hot);
    assert after[up][0] == hot;
    assert hot in after[up];
  }

  lemma {:induction false} ScanOne(queues: seq<seq<nat>>, readers: Readers, sn: nat, i: nat, u: nat)
    requires i < |queues| && 0 < u < |queues|
    requires forall n :: 0 <= n < |queues| && n != u ==> queues[n] == []
    ensures Scan(queues, readers, sn, i) == if u <= i then ColdRun(queues[u], readers, sn) else []
  {
    hide ColdRun;
    if i > 0 {
      ScanOne(queues, readers, sn, i - 1, u);
      NoRun(readers, sn);
      if u == i { Seqs.RightEmpty(ColdRun(queues[u], readers, sn)); }
    }
  }

  lemma NoRun(readers: Readers, sn: nat)
    ensures ColdRun([], readers, sn) == []
  {
  }

  lemma TwoInQueue(readers: Readers, hot: nat, cold: nat, sn: nat)
    requires hot in readers && cold in readers && readers[hot].sequence == sn
    ensures ColdRun([hot, cold], readers, sn)
         == if readers[cold].sequence + 10000 <= sn && readers[cold].access > 0 then [cold] else []
  {
    assert [hot, cold][..1] == [hot] && [hot][..0] == [];
    assert ColdRun([hot], readers, sn) == [];
  }

  /** Two tables with equal filters, one just read: a unit changes hands if and only if the
      other has not been read for 10000 sequence numbers, was read before, and was so less
      often than the hot one gives false positives. */
  lemma TwoTables(fpr: real, queues: seq<seq<nat>>, readers: Readers, hot: nat, cold: nat, sn: nat, u: nat)
    requires 0.0 < fpr < 1.0 && Placed(queues, readers) && readers.Keys == {hot, cold} && hot != cold &&
             0 < u < ALL_UNITS
    requires readers[hot].units == readers[cold].units == u && queues[u] == [hot, cold]
    requires 0 < readers[hot].unitSize == readers[cold].unitSize < TWO_64 && readers[hot].sequence == sn
    ensures !NothingToGain(fpr, queues, readers, hot, sn) <==>
              && readers[cold].sequence + 10000 <= sn && readers[cold].access > 0
              && readers[cold].access as real < fpr * readers[hot].access as real
  {
    hide ColdRun, NoDuplicates, Pays;
    forall n | 0 <= n < |queues| && n != u ensures queues[n] == [] {
      assert forall x :: x in queues[n] ==> x in readers.Keys;
      Inhabited(queues[n]);
    }
    ScanOne(queues, readers, sn, ALL_UNITS, u);
    TwoInQueue(readers, hot, cold, sn);
    PaysForOne(fpr, readers, cold, hot);
    OneOrNone(readers, cold, readers[hot].unitSize);
    var scan := Scan(queues, readers, sn, ALL_UNITS);
    if scan == [cold] {
      assert Picks(queues, readers, hot, sn, [cold]);
      if Pays(fpr, readers, [cold], hot) { SomethingToGain(fpr, queues, readers, hot, sn, [cold]); }
    }
  }

  lemma Inhabited(queue: seq<nat>)
    ensures queue == [] || exists id :: id in queue
  {
    if queue != [] { assert queue[0] in queue; }
  }

  lemma OneOrNone(readers: Readers, id: nat, wanted: nat)
    requires id in readers && readers[id].unitSize == wanted && 0 < wanted < TWO_64
    ensures AddsUp(readers, [id], wanted) && NotBefore(readers, [id], 0, wanted) && NeverAddsUp(readers, [], wanted)
  {
    assert [id][..0] == [];
  }

  /** A table just read at sn is not cold at sn. */
  lemma HotIsNotChosen(readers: Readers, sn: nat, ids: seq<nat>, hot: nat)
    requires Chosen(readers, sn, ids) && hot in readers && readers[hot].sequence == sn
    ensures hot !in ids
  {
    assert !IsCold(readers[hot], sn);
    assert !Eligible(readers, sn, hot);
  }

  lemma EvictPart(readers: Readers, colds: seq<nat>, i: nat, n: nat)
    requires Evictable(readers, colds, n) && i < |colds|
    ensures colds[i] in readers && colds[i] in EvictAll(readers, colds[..i])
    ensures EvictAll(readers, colds[..i])[colds[i]] == readers[colds[i]] && readers[colds[i]].units > 0
  {
    EvictAllReaders(readers, colds[..i], n);
    assert colds[i] !in colds[..i];
    assert colds[i] in EvictAll(readers, colds[..i]).Keys;
  }

  lemma {:induction false} UnitBelow(readers: Readers, n: nat, id: nat)
    requires id in readers && id < n
    ensures readers[id].unitSize <= UnitTotal(readers, n)
  {
    if id < n - 1 { UnitBelow(readers, n - 1, id); }
  }

  /** What FindColdFilter returns can be exchanged for the hot table's unit. */
  lemma ChosenExchangeable(readers: Readers, sn: nat, colds: seq<nat>, hot: nat, n: nat)
    requires Chosen(readers, sn, colds) && hot in readers && readers[hot].sequence == sn &&
             UnitTotal(readers, n) < TWO_64
    requires forall id :: id in readers ==> id < n
    requires AddsUp(readers, colds, readers[hot].unitSize)
    ensures Exchangeable(readers, colds, hot, n) && forall id :: id in colds ==> id in readers && readers[id].units > 0
  {
    HotIsNotChosen(readers, sn, colds, hot);
    assert forall id :: id in colds ==> Eligible(readers, sn, id);
    DistinctSum(readers, colds, n);
  }

  lemma SameTotal(readers: Readers, colds: seq<nat>, hot: nat, n: nat)
    requires Exchangeable(readers, colds, hot, n) && hot in EvictAll(readers, colds)
    ensures UnitTotal(Exchange(readers, colds, hot), n) == UnitTotal(readers, n)
    ensures Exchange(readers, colds, hot).Keys == readers.Keys
  {
    EvictAllReaders(readers, colds, n);
    SameUnits(readers, Exchange(readers, colds, hot), n);
  }

  lemma {:induction false} SameUnits(a: Readers, b: Readers, n: nat)
    requires a.Keys == b.Keys && forall id :: id in a ==> a[id].unitSize == b[id].unitSize
    ensures UnitTotal(a, n) == UnitTotal(b, n)
  {
    if n > 0 {
      SameUnits(a, b, n - 1);
      assert n - 1 in a <==> n - 1 in a.Keys;
    }
  }

  lemma InsertPlaced(queues: seq<seq<nat>>, readers: Readers, id: nat, r: Reader)
    requires Placed(queues, readers) && id !in readers && r.units <= ALL_UNITS
    ensures Placed(queues[r.units := [id] + queues[r.units]], readers[id := r])
  {
    FrontApart(queues[r.units], id);
    hide NoDuplicates;
    assert forall x :: x in [id] + queues[r.units] <==> x == id || x in queues[r.units];
  }

  lemma ErasePlaced(queues: seq<seq<nat>>, readers: Readers, id: nat)
    requires Placed(queues, readers) && id in readers
    ensures Placed(queues[readers[id].units := Without(queues[readers[id].units], id)], readers - {id})
  {
    var n := readers[id].units;
    WithoutItems(queues[n], id);
    WithoutApart(queues[n], id);
    hide NoDuplicates;
  }

  lemma {:induction false} EraseSums(readers: Readers, n: nat, id: nat)
    requires id in readers
    ensures Memory(readers - {id}, n) + (if id < n then Size(readers[id]) else 0) == Memory(readers, n)
    ensures UnitTotal(readers - {id}, n) <= UnitTotal(readers, n)
  {
    hide Size;
    if n > 0 { EraseSums(readers, n - 1, id); }
  }

  lemma {:induction false} SameUpTo(a: Readers, b: Readers, n: nat)
    requires forall id :: 0 <= id < n ==> (id in a <==> id in b) && (id in a ==> a[id] == b[id])
    ensures Memory(a, n) == Memory(b, n) && UnitTotal(a, n) == UnitTotal(b, n)
  {
    if n > 0 { SameUpTo(a, b, n - 1); }
  }
}
