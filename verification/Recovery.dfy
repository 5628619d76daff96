/**
 Recovering a memtable from the log after a crash (DBImpl::RecoverLogFile in
 db/db_impl.cc).
 */
module Recovery {
  import opened Keys
  import opened Coding
  import opened WriteBatches
  import opened LogReader
  import opened CrashPrefix
  import Log
  import Seqs

  /** What recovery has so far: the entries inserted, the largest sequence number seen,
      and whether the status is still ok. */
  datatype Recovered = Recovered(entries: seq<MemEntry>, maxSequence: nat, ok: bool)

  /** The last sequence number of a batch, in 64-bit arithmetic. */
  function LastSequence(rep: Bytes): nat
    requires |rep| >= HEADER
  {
    (Sequence(rep) + Count(rep) + TWO_64 - 1) % TWO_64
  }

  function Max(a: nat, b: nat): nat
  {
    if a < b then b else a
  }

  /** WriteBatchInternal::InsertInto: the entries added, and the status. */
  method InsertInto(rep: Bytes) returns (entries: seq<MemEntry>, ok: bool)
    requires |rep| >= HEADER
    ensures entries == Entries(Sequence(rep), ParseBody(rep[HEADER..]).0)
    ensures ok == BatchOk(rep)
  {
    var us;
    us, ok := Iterate(rep);
    entries := Entries(Sequence(rep), us);
  }

  predicate BatchOk(rep: Bytes)
    requires |rep| >= HEADER
  {
    ParseBody(rep[HEADER..]).1 && Wrap(|ParseBody(rep[HEADER..]).0|) == Count(rep)
  }

  /** One log record applied. Without paranoid checks an error is logged and ignored. */
  function Apply(record: Bytes, r: Recovered, paranoid: bool): Recovered
    requires |record| >= HEADER
  {
    var entries := r.entries + Entries(Sequence(record), ParseBody(record[HEADER..]).0);
    if paranoid && !BatchOk(record) then Recovered(entries, r.maxSequence, false)
    else Recovered(entries, Max(r.maxSequence, LastSequence(record)), r.ok)
  }

  /** The recovery loop from file position p on. Under paranoid checks the first report
      of the reader ends it. */
  function RecoverFrom(c: Bytes, p: nat, reports: seq<nat>, r: Recovered, paranoid: bool): Recovered
    requires p <= |c|
    decreases |c| - p
  {
    var next := RecordFrom(c, p, None, reports);
    if paranoid && next.reports != [] then r.(ok := false)
    else if next.record.None? then r
    else if |next.record.value| < HEADER then
      RecoverFrom(c, next.next, next.reports + [|next.record.value|], r, paranoid)
    else
      var r' := Apply(next.record.value, r, paranoid);
      if !r'.ok then r' else RecoverFrom(c, next.next, next.reports, r', paranoid)
  }

  /** full[i] says that the memtable is over its size limit after the i-th record, and
      is written out as a level-0 table. */
  method RecoverLogFile(contents: Bytes, maxSequence: nat, paranoid: bool, full: nat -> bool)
    returns (tables: seq<seq<MemEntry>>, mem: seq<MemEntry>, max: nat, ok: bool)
    ensures Recovered(Flatten(tables) + mem, max, ok)
         == RecoverFrom(contents, 0, [], Recovered([], maxSequence, true), paranoid)
  {
    hide RecordFrom, Apply;
    var reader := new Reader(contents);
    tables, mem, max, ok := [], [], maxSequence, true;
    var i := 0;
    assert Flatten(tables) + mem == [];
    ghost var goal := RecoverFrom(contents, 0, [], Recovered([], maxSequence, true), paranoid);
    while ok
      invariant reader.Valid() && fresh(reader) && reader.contents == contents
      invariant ok ==> goal == RecoverFrom(contents, reader.Pos(), reader.reports,
                                           Recovered(Flatten(tables) + mem, max, true), paranoid)
      invariant !ok ==> goal == Recovered(Flatten(tables) + mem, max, false)
      decreases ok, |contents| - reader.Pos()
    {
      var record := reader.ReadRecord();
      if paranoid && reader.reports != [] { ok := false; break; }
      if record.None? { break; }
      if |record.value| < HEADER {
        reader.reports := reader.reports + [|record.value|];
        continue;
      }
      ghost var before := Recovered(Flatten(tables) + mem, max, true);
      var entries, status := InsertInto(record.value);
      Applied(record.value, before, paranoid, entries);
      Seqs.Associative(Flatten(tables), mem, entries);
      mem := mem + entries;
      if paranoid && !status { ok := false; break; }
      var last := LastSequence(record.value);
      if last > max { max := last; }
      if full(i) {
        FlattenSnoc(tables, mem);
        Seqs.RightEmpty(Flatten(tables) + mem);
        tables, mem := tables + [mem], [];
      }
      i := i + 1;
    }
  }

  ghost function Flatten(tables: seq<seq<MemEntry>>): seq<MemEntry>
  {
    if tables == [] then [] else Flatten(tables[..|tables| - 1]) + tables[|tables| - 1]
  }

  lemma FlattenSnoc(tables: seq<seq<MemEntry>>, t: seq<MemEntry>)
    ensures Flatten(tables + [t]) == Flatten(tables) + t
  {
    assert (tables + [t])[..|tables|] == tables;
  }

  lemma Applied(record: Bytes, r: Recovered, paranoid: bool, entries: seq<MemEntry>)
    requires |record| >= HEADER && entries == Entries(Sequence(record), ParseBody(record[HEADER..]).0)
    ensures Apply(record, r, paranoid)
         == if paranoid && !BatchOk(record) then Recovered(r.entries + entries, r.maxSequence, false)
            else Recovered(r.entries + entries, Max(r.maxSequence, LastSequence(record)), r.ok)
  {
  }

  // ---- Recovery of a written log cut anywhere -----------------------------------------------

  /** A batch as the write path logs it. */
  datatype Logged = Logged(sn: nat, updates: seq<Update>)

  ghost predicate Wellformed(b: Logged)
  {
    b.sn < TWO_64 && forall u :: u in b.updates ==> Encodable(u)
  }

  function Records(bs: seq<Logged>): (rs: seq<Bytes>)
    ensures |rs| == |bs|
  {
    seq(|bs|, i requires 0 <= i < |bs| => Encode(bs[i].sn, bs[i].updates))
  }

  /** The memtable after inserting the batches one after the other. */
  function Contents(bs: seq<Logged>): seq<MemEntry>
  {
    if bs == [] then [] else Entries(bs[0].sn, bs[0].updates) + Contents(bs[1..])
  }

  function LargestSequence(bs: seq<Logged>, max: nat): nat
  {
    if bs == [] then max
    else LargestSequence(bs[1..], Max(max, (bs[0].sn + Wrap(|bs[0].updates|) + TWO_64 - 1) % TWO_64))
  }

  lemma BatchApplies(b: Logged, r: Recovered, paranoid: bool)
    requires Wellformed(b)
    ensures Apply(Encode(b.sn, b.updates), r, paranoid)
         == Recovered(r.entries + Entries(b.sn, b.updates),
                      Max(r.maxSequence, (b.sn + Wrap(|b.updates|) + TWO_64 - 1) % TWO_64), r.ok)
  {
    hide Encode, ParseBody, Body, Wrap;
    HeaderRoundTrip(b.sn, b.updates);
    BodyOf(b.sn, b.updates);
    BodyRoundTrip(b.updates);
  }

  lemma {:induction false} RecoversRest(bs: seq<Logged>, n: nat, i: nat, r: Recovered, paranoid: bool)
    requires (forall b :: b in bs ==> Wellformed(b)) && r.ok
    requires n <= |Log.Written(Records(bs))| && i <= Whole(Records(bs), n)
    ensures |Log.Written(Records(bs)[..i])| <= n
    ensures var k := Whole(Records(bs), n);
            RecoverFrom(Log.Written(Records(bs))[..n], |Log.Written(Records(bs)[..i])|, [], r, paranoid)
              == Recovered(r.entries + Contents(bs[i..k]), LargestSequence(bs[i..k], r.maxSequence), true)
    decreases |bs| - i
  {
    hide RecordFrom, Log.Written, Apply, Entries, Wrap, Whole;
    var k := Whole(Records(bs), n);
    NthRead(Records(bs), n, i);
    if i < k {
      BatchApplies(bs[i], r, paranoid);
      RecoversRest(bs, n, i + 1, Apply(Records(bs)[i], r, paranoid), paranoid);
      assert bs[i..k][0] == bs[i] && bs[i..k][1..] == bs[i + 1..k];
      Seqs.Associative(r.entries, Entries(bs[i].sn, bs[i].updates), Contents(bs[i + 1..k]));
    } else {
      assert bs[i..k] == [];
      Seqs.RightEmpty(r.entries);
    }
  }

  /** For every sequence of batches and every truncation of the log, recovery succeeds and
      rebuilds exactly the entries of the batches wholly in the prefix. */
  lemma CrashRecovery(bs: seq<Logged>, n: nat, maxSequence: nat, paranoid: bool)
    requires (forall b :: b in bs ==> Wellformed(b)) && n <= |Log.Written(Records(bs))|
    ensures var k := Whole(Records(bs), n);
            RecoverFrom(Log.Written(Records(bs))[..n], 0, [], Recovered([], maxSequence, true), paranoid)
              == Recovered(Contents(bs[..k]), LargestSequence(bs[..k], maxSequence), true)
  {
    hide RecoverFrom, Contents, LargestSequence, Whole;
    var k := Whole(Records(bs), n);
    assert Records(bs)[..0] == [] && bs[0..k] == bs[..k];
    assert Log.Written([]) == [];
    RecoversRest(bs, n, 0, Recovered([], maxSequence, true), paranoid);
    assert [] + Contents(bs[..k]) == Contents(bs[..k]);
  }
}
