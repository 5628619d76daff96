/**
 Group commit: how the leader of the writer queue puts the batches of the writers behind it
 into one (BuildBatchGroup in db/db_impl.cc).
 */
module GroupCommit {
  import opened Keys
  import opened WriteBatches
  import Seqs

  // ---- BuildBatchGroup ---------------------------------------------------------------

  /** What a writer asks for; no batch is a forced memtable flush. */
  datatype Request = Request(batch: Option<seq<Update>>, sync: bool)

  /** WriteBatchInternal::ByteSize. */
  function ByteSize(us: seq<Update>): nat
  {
    |Encode(0, us)|
  }

  /** The growth of a group is limited, more so if the first write is small. */
  function MaxSize(first: nat): nat
  {
    if first <= 0x2_0000 then first + 0x2_0000 else 0x10_0000
  }

  function SizeOf(r: Request): nat
  {
    if r.batch.Some? then ByteSize(r.batch.value) else 0
  }

  function TotalSize(rs: seq<Request>): nat
  {
    if rs == [] then 0 else TotalSize(rs[..|rs| - 1]) + SizeOf(rs[|rs| - 1])
  }

  /** The updates of a group, in queue order. */
  function Updates(rs: seq<Request>): seq<Update>
  {
    if rs == [] then []
    else
      var last := rs[|rs| - 1].batch;
      Updates(rs[..|rs| - 1]) + if last.Some? then last.value else []
  }

  /** Why the group ends before the n-th writer. */
  predicate Stops(rs: seq<Request>, n: nat)
    requires 0 < n < |rs|
  {
    || (rs[n].sync && !rs[0].sync)
    || (rs[n].batch.Some? && TotalSize(rs[..n + 1]) > MaxSize(SizeOf(rs[0])))
  }

  /** The group is the longest prefix of the queue with no reason to stop. */
  ghost predicate IsGroup(rs: seq<Request>, n: nat)
  {
    && 0 < n <= |rs|
    && (forall i :: 0 < i < n ==> !Stops(rs, i))
    && (n < |rs| ==> Stops(rs, n))
  }

  /** A writer with its batch object. */
  datatype Writer = Writer(batch: Option<WriteBatch>, sync: bool)

  ghost function Asks(ws: seq<Writer>): (rs: seq<Request>)
    reads set w | w in ws && w.batch.Some? :: w.batch.value
    ensures |rs| == |ws|
  {
    seq(|ws|, i reads (set w | w in ws && w.batch.Some? :: w.batch.value) requires 0 <= i < |ws| =>
      Request(if ws[i].batch.Some? then Some(ws[i].batch.value.updates) else None, ws[i].sync))
  }

  ghost predicate BatchesValid(ws: seq<Writer>, tmp: WriteBatch)
    reads tmp, set w | w in ws && w.batch.Some? :: w.batch.value
  {
    tmp.Valid() && forall w :: w in ws && w.batch.Some? ==> w.batch.value.Valid() && w.batch.value != tmp
  }

  /** The batches of the group are collected in the temporary batch, or the first one is
      used as it is when it is alone; no caller's batch is changed. */
  method BuildBatchGroup(ws: seq<Writer>, tmp: WriteBatch) returns (result: WriteBatch, n: nat)
    requires ws != [] && ws[0].batch.Some? && BatchesValid(ws, tmp) && tmp.updates == []
    modifies tmp
    ensures BatchesValid(ws, tmp) && Asks(ws) == old(Asks(ws))
    ensures IsGroup(Asks(ws), n) && result.Valid() && result.updates == Updates(Asks(ws)[..n])
    ensures result == tmp || result == ws[0].batch.value
  {
    hide Encode, TotalSize, Updates, ByteSize;
    ghost var rs := Asks(ws);
    var first := ws[0].batch.value;
    result := first;
    var size := |first.rep|;
    SameSize(first.sn, first.updates);
    var maxSize := if size <= 0x2_0000 then size + 0x2_0000 else 0x10_0000;
    One(rs);
    n := 1;
    while n < |ws|
      invariant 0 < n <= |ws| && BatchesValid(ws, tmp) && Asks(ws) == rs
      invariant result == tmp || (result == first && tmp.updates == [])
      invariant size == TotalSize(rs[..n]) && result.updates == Updates(rs[..n])
      invariant forall i :: 0 < i < n ==> !Stops(rs, i)
    {
      var w := ws[n];
      if w.sync && !ws[0].sync { break; }
      More(rs, n);
      if w.batch.Some? {
        SameSize(w.batch.value.sn, w.batch.value.updates);
        size := size + |w.batch.value.rep|;
        if size > maxSize { break; }
        result := AddToGroup(result, first, tmp, w.batch.value);
      }
      n := n + 1;
    }
  }

  /** The first addition moves the group to the temporary batch. */
  method AddToGroup(group: WriteBatch, first: WriteBatch, tmp: WriteBatch, batch: WriteBatch)
    returns (result: WriteBatch)
    requires group.Valid() && first.Valid() && tmp.Valid() && batch.Valid() && first != tmp && batch != tmp
    requires group == tmp || (group == first && tmp.updates == [])
    modifies tmp
    ensures result == tmp && tmp.Valid() && tmp.updates == old(group.updates) + batch.updates
  {
    hide Encode;
    result := group;
    if result == first {
      result := tmp;
      result.Append(first);
      assert [] + first.updates == first.updates;
    }
    result.Append(batch);
  }

  lemma SameSize(sn: nat, us: seq<Update>)
    ensures |Encode(sn, us)| == ByteSize(us)
  {
  }

  lemma One(rs: seq<Request>)
    requires rs != []
    ensures TotalSize(rs[..1]) == SizeOf(rs[0])
    ensures rs[0].batch.Some? ==> Updates(rs[..1]) == rs[0].batch.value
  {
    assert rs[..1][..0] == [];
    assert Updates([]) == [] && TotalSize([]) == 0;
    if rs[0].batch.Some? { assert [] + rs[0].batch.value == rs[0].batch.value; }
  }

  lemma More(rs: seq<Request>, n: nat)
    requires n < |rs|
    ensures TotalSize(rs[..n + 1]) == TotalSize(rs[..n]) + SizeOf(rs[n])
    ensures Updates(rs[..n + 1]) == if rs[n].batch.Some? then Updates(rs[..n]) + rs[n].batch.value else Updates(rs[..n])
  {
    assert rs[..n + 1][..n] == rs[..n];
    Seqs.RightEmpty(Updates(rs[..n]));
  }
}
