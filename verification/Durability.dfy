/**
 What a successful write is worth after a crash: the write path joined with the log and its
 recovery (DBImpl::Write and RecoverLogFile in db/db_impl.cc).
 */
module Durability {
  import opened Keys
  import opened WriteBatches
  import opened LogReader
  import opened CrashPrefix
  import opened Recovery
  import opened ReopenedLog
  import G = GroupCommit
  import W = WritePath
  import Log
  import Seqs

  /** The log of the write path as batches. */
  function Batches(log: seq<W.LogRecord>): (bs: seq<Logged>)
    ensures |bs| == |log|
  {
    seq(|log|, i requires 0 <= i < |log| => Logged(log[i].sn, log[i].updates))
  }

  /** Its file. */
  function FileOf(log: seq<W.LogRecord>): Bytes
  {
    Log.Written(Records(Batches(log)))
  }

  lemma FirstBatches(log: seq<W.LogRecord>, m: nat)
    requires m <= |log|
    ensures Records(Batches(log[..m])) == Records(Batches(log))[..m]
  {
    hide Encode;
  }

  lemma {:induction false} InContents(bs: seq<Logged>, i: nat, e: MemEntry)
    requires i < |bs| && e in Entries(bs[i].sn, bs[i].updates)
    ensures e in Contents(bs)
  {
    hide Entries;
    if i > 0 {
      assert bs[1..][i - 1] == bs[i];
      InContents(bs[1..], i - 1, e);
    }
  }

  lemma {:induction false} LogOfPrefix(groups: seq<W.Group>, i: nat)
    requires i <= |groups|
    ensures |W.LogOf(groups[..i])| <= |W.LogOf(groups)|
  {
    var n := |groups| - 1;
    if i <= n {
      LogOfPrefix(groups[..n], i);
      assert groups[..n][..i] == groups[..i];
    } else {
      assert groups[..i] == groups;
    }
  }

  /** The writes of group g succeeded and its leader had something to write. */
  ghost predicate Succeeded(s: W.State, g: nat)
  {
    && g < |s.groups| && s.groups[g].ok && s.groups[g].ids != [] && W.Known(s, s.groups[g].ids)
    && s.requests[s.groups[g].ids[0]].batch.Some?
  }

  /** The entries of its writers' batches, in queue order. */
  ghost function EntriesBy(s: W.State, g: nat): seq<MemEntry>
    requires g < |s.groups| && W.Known(s, s.groups[g].ids)
  {
    Entries(s.groups[g].sn, G.Updates(W.Asked(s, s.groups[g].ids)))
  }

  /** Everything that succeeded up to group g is among the entries. */
  ghost predicate HoldsUpTo(s: W.State, g: nat, es: seq<MemEntry>)
  {
    forall h, e :: 0 <= h <= g && Succeeded(s, h) && e in EntriesBy(s, h) ==> e in es
  }

  /** How many log records there were when group g was logged. */
  ghost function LoggedBy(s: W.State, g: nat): nat
    requires g < |s.groups|
  {
    |W.LogOf(s.groups[..g + 1])|
  }

  /** The bytes of the log up to there. */
  ghost function BytesBy(s: W.State, g: nat): nat
    requires g < |s.groups|
  {
    if LoggedBy(s, g) <= |s.log| then |FileOf(s.log[..LoggedBy(s, g)])| else |FileOf(s.log)|
  }

  lemma LoggedInLog(s: W.State, g: nat)
    requires W.Inv(s) && g < |s.groups|
    ensures LoggedBy(s, g) <= |s.log|
  {
    hide W.Accounted, W.PhasesOk, W.WorkOk, W.GroupsOk, W.Chained, W.BrokenOk;
    LogOfPrefix(s.groups, g + 1);
  }

  /** The bytes of the log that the last good sync covered. */
  ghost function SyncedBytes(s: W.State): nat
  {
    if s.synced <= |s.log| then |FileOf(s.log[..s.synced])| else |FileOf(s.log)|
  }

  /** In every state of every run: if the machine stops and what was synced of the log is left,
      then recovery succeeds and rebuilds the entries of a prefix of the logged groups, and for
      every group g with a write that asked for a sync and succeeded, the successful writes of g
      and of all groups before it are among them. */
  lemma SyncedSurvives(states: seq<W.State>, steps: seq<W.Step>, j: nat, g: nat, id: nat, n: nat, maxSequence: nat,
                       paranoid: bool)
    requires W.IsRun(states, steps) && j < |states| && Succeeded(states[j], g)
    requires id in states[j].groups[g].ids && states[j].requests[id].sync
    requires forall b :: b in Batches(states[j].log) ==> Wellformed(b)
    requires SyncedBytes(states[j]) <= n <= |FileOf(states[j].log)|
    ensures var bs := Batches(states[j].log);
            var k := Whole(Records(bs), n);
            && RecoverFrom(FileOf(states[j].log)[..n], 0, [], Recovered([], maxSequence, true), paranoid)
                 == Recovered(Contents(bs[..k]), LargestSequence(bs[..k], maxSequence), true)
            && HoldsUpTo(states[j], g, Contents(bs[..k]))
  {
    W.RunKeepsInv(states, steps, j);
    hide W.IsRun, Records, Batches, Contents, RecoverFrom, Whole, Log.Written, EntriesBy, W.Inv, HoldsUpTo;
    var s := states[j];
    W.SyncIsKept(s, g, id);
    FirstBatches(s.log, s.synced);
    FirstBatches(s.log, LoggedBy(s, g));
    assert |Records(Batches(s.log))| == |s.log|;
    WrittenIncreases(Records(Batches(s.log)), LoggedBy(s, g), s.synced);
    KeptSurvives(states, steps, j, g, n, maxSequence, paranoid);
  }

  /** The same for every successful group g, if the bytes up to its record are left. */
  lemma KeptSurvives(states: seq<W.State>, steps: seq<W.Step>, j: nat, g: nat, n: nat, maxSequence: nat,
                     paranoid: bool)
    requires W.IsRun(states, steps) && j < |states| && Succeeded(states[j], g)
    requires forall b :: b in Batches(states[j].log) ==> Wellformed(b)
    requires BytesBy(states[j], g) <= n <= |FileOf(states[j].log)|
    ensures var bs := Batches(states[j].log);
            var k := Whole(Records(bs), n);
            && LoggedBy(states[j], g) <= k
            && RecoverFrom(FileOf(states[j].log)[..n], 0, [], Recovered([], maxSequence, true), paranoid)
                 == Recovered(Contents(bs[..k]), LargestSequence(bs[..k], maxSequence), true)
            && HoldsUpTo(states[j], g, Contents(bs[..k]))
  {
    W.RunKeepsInv(states, steps, j);
    hide W.IsRun, Records, Batches, Contents, RecoverFrom, Whole, Log.Written, EntriesBy, W.Inv;
    var s := states[j];
    var bs, m := Batches(s.log), LoggedBy(s, g);
    var k := Whole(Records(bs), n);
    assert |Records(bs)| == |s.log|;
    LoggedInLog(s, g);
    FirstBatches(s.log, m);
    AtLeast(Records(bs), n, m);
    CrashRecovery(bs, n, maxSequence, paranoid);
    forall h, e | 0 <= h <= g && Succeeded(s, h) && e in EntriesBy(s, h) ensures e in Contents(bs[..k]) {
      GroupSurvives(s, h, g, k, e);
    }
  }

  lemma AtLeast(records: seq<Bytes>, n: nat, m: nat)
    requires m <= |records| && |Log.Written(records[..m])| <= n
    ensures Whole(records, n) >= m
  {
    hide Log.Written, Whole;
    WholeIsMost(records, n);
    if Whole(records, n) < m { WrittenIncreases(records, Whole(records, n) + 1, m); }
  }

  lemma GroupSurvives(s: W.State, h: nat, g: nat, k: nat, e: MemEntry)
    requires W.Inv(s) && h <= g && Succeeded(s, g) && Succeeded(s, h) && LoggedBy(s, g) <= k <= |s.log|
    requires e in EntriesBy(s, h)
    ensures e in Contents(Batches(s.log)[..k])
  {
    hide Entries, G.Updates, W.Accounted, W.PhasesOk, W.WorkOk, W.Chained, W.ContentsOk, W.BrokenOk;
    assert W.GroupOk(s, s.groups[h]);
    W.SuccessIsLogged(s, h);
    var at := |W.LogOf(s.groups[..h])|;
    LogOfPrefix(s.groups[..g + 1], h + 1);
    assert s.groups[..g + 1][..h + 1] == s.groups[..h + 1];
    assert Batches(s.log)[..k][at] == Logged(s.log[at].sn, s.log[at].updates);
    InContents(Batches(s.log)[..k], at, e);
  }

  // ---- A torn append ---------------------------------------------------------------------------------

  /** The recovery loop over the whole batches of a file at whose cut the reader sees the end. */
  lemma {:induction false} RecoversWhole(c: Bytes, bs: seq<Logged>, i: nat, r: Recovered, paranoid: bool)
    requires (forall b :: b in bs ==> Wellformed(b)) && r.ok && i <= |bs| && Log.Written(Records(bs)) <= c
    requires RecordFrom(c, |Log.Written(Records(bs))|, None, []) == Result(None, |c|, [])
    ensures |Log.Written(Records(bs)[..i])| <= |c|
    ensures RecoverFrom(c, |Log.Written(Records(bs)[..i])|, [], r, paranoid)
         == Recovered(r.entries + Contents(bs[i..]), LargestSequence(bs[i..], r.maxSequence), true)
    decreases |bs| - i
  {
    hide RecordFrom, Log.Written, Apply, Entries, Wrap, Encode;
    var rs := Records(bs);
    if i < |bs| {
      WholeRead(c, rs, i);
      BatchApplies(bs[i], r, paranoid);
      RecoversWhole(c, bs, i + 1, Apply(rs[i], r, paranoid), paranoid);
      assert bs[i..][0] == bs[i] && bs[i..][1..] == bs[i + 1..];
      Seqs.Associative(r.entries, Entries(bs[i].sn, bs[i].updates), Contents(bs[i + 1..]));
    } else {
      assert rs[..i] == rs && bs[i..] == [];
      Seqs.RightEmpty(r.entries);
    }
  }

  /** An append that fails may leave part of its record in the file, and later writes go on
      after it, without a background error. While the file ends before the length in the torn
      header, recovery rebuilds the batches before the torn one and succeeds: whatever was
      written after it, synced or not, is lost. */
  lemma TornAppendLoses(bs: seq<Logged>, n: nat, tail: Bytes, maxSequence: nat, paranoid: bool)
    requires forall b :: b in bs ==> Wellformed(b)
    requires n <= |Log.Written(Records(bs))| && Silent(Records(bs), n, |tail|)
    ensures var k := Whole(Records(bs), n);
            RecoverFrom(Log.Written(Records(bs))[..n] + tail, 0, [], Recovered([], maxSequence, true), paranoid)
              == Recovered(Contents(bs[..k]), LargestSequence(bs[..k], maxSequence), true)
  {
    hide RecoverFrom, RecordFrom, Contents, LargestSequence, Whole, Log.Written, Silent, Encode;
    var c, k := Log.Written(Records(bs))[..n] + tail, Whole(Records(bs), n);
    EndsAtCut(Records(bs), n, tail);
    var whole := bs[..k];
    assert Records(whole) == Records(bs)[..k];
    RecoversWhole(c, whole, 0, Recovered([], maxSequence, true), paranoid);
    assert Records(whole)[..0] == [] && whole[0..] == whole;
    NothingWritten();
    assert [] + Contents(whole) == Contents(whole);
  }
}
