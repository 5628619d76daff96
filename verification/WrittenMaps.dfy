/**
 What a client has written, as a map: reading the newest entry of every key in the memtable, or
 in what recovery rebuilds from the log, gives the map that the batches make in their order
 (MemTableInserter in db/write_batch.cc, Write and RecoverLogFile in db/db_impl.cc).
 */
module WrittenMaps {
  import opened WriteBatches
  import opened CrashPrefix
  import opened Recovery
  import Durability
  import Log
  import Seqs
  import W = WritePath

  type Map = map<Bytes, Bytes>

  /** A put sets a key and a deletion removes it. */
  function Updated(m: Map, u: Update): Map
  {
    match u
    case Put(k, v) => m[k := v]
    case Delete(k) => m - {k}
  }

  function UpdatedAll(m: Map, us: seq<Update>): Map
  {
    if us == [] then m else Updated(UpdatedAll(m, us[..|us| - 1]), us[|us| - 1])
  }

  ghost predicate IsNewest(es: seq<MemEntry>, k: Bytes, e: MemEntry)
  {
    e in es && e.key == k && forall d :: d in es && d.key == k ==> d.sn <= e.sn
  }

  /** Reading the newest entries shows the map: a value where it has one, and nothing where the
      newest entry is a deletion or there is none. */
  ghost predicate Shows(es: seq<MemEntry>, m: Map)
  {
    && (forall k, e :: IsNewest(es, k, e) ==> if k in m then e.kind.Put? && e.value == m[k] else e.kind.Deletion?)
    && forall k :: k in m ==> exists e :: e in es && e.key == k
  }

  ghost predicate Before(es: seq<MemEntry>, sn: nat)
  {
    forall e :: e in es ==> e.sn < sn
  }

  lemma OneMore(es: seq<MemEntry>, m: Map, sn: nat, u: Update)
    requires Shows(es, m) && Before(es, sn)
    ensures Shows(es + [EntryOf(sn, u)], Updated(m, u)) && Before(es + [EntryOf(sn, u)], sn + 1)
  {
    var d := EntryOf(sn, u);
    var more, after := es + [d], Updated(m, u);
    assert d in more && forall e :: e in more <==> e in es || e == d;
    forall k, e | IsNewest(more, k, e)
      ensures if k in after then e.kind.Put? && e.value == after[k] else e.kind.Deletion?
    {
      if k != d.key { assert IsNewest(es, k, e); }
    }
    forall k | k in after ensures exists e :: e in more && e.key == k {
      if k != d.key {
        var e :| e in es && e.key == k;
        assert e in more;
      }
    }
  }

  /** A batch at sequence numbers that follow all others. */
  lemma {:induction false} BatchShows(es: seq<MemEntry>, m: Map, sn: nat, us: seq<Update>)
    requires Shows(es, m) && Before(es, sn)
    ensures Shows(es + Entries(sn, us), UpdatedAll(m, us)) && Before(es + Entries(sn, us), sn + |us|)
  {
    hide Shows, Before, EntryOf, Updated;
    if us == [] {
      assert es + Entries(sn, us) == es;
    } else {
      var n := |us| - 1;
      BatchShows(es, m, sn, us[..n]);
      OneMore(es + Entries(sn, us[..n]), UpdatedAll(m, us[..n]), sn + n, us[n]);
      assert es + Entries(sn, us[..n]) + [EntryOf(sn + n, us[n])] == es + Entries(sn, us);
    }
  }

  lemma NothingShown(sn: nat)
    ensures Shows([], map[]) && Before([], sn)
  {
  }

  lemma {:induction false} UpdatedConcat(m: Map, a: seq<Update>, b: seq<Update>)
    ensures UpdatedAll(m, a + b) == UpdatedAll(UpdatedAll(m, a), b)
  {
    if b == [] {
      Seqs.RightEmpty(a);
    } else {
      Seqs.ConcatInit(a, b);
      UpdatedConcat(m, a, b[..|b| - 1]);
    }
  }

  lemma More(es: seq<MemEntry>, sn: nat, later: nat)
    requires Before(es, sn) && sn <= later
    ensures Before(es, later)
  {
  }

  // ---- The write path ------------------------------------------------------------------------------

  /** The updates of the groups that went well, in their order. */
  ghost function UpdatesOf(groups: seq<W.Group>): seq<Update>
  {
    if groups == [] then []
    else
      var g := groups[|groups| - 1];
      UpdatesOf(groups[..|groups| - 1]) + if g.ok then g.updates else []
  }

  lemma {:induction false} GroupsShow(groups: seq<W.Group>, lastSequence: nat, n: nat)
    requires W.Chained(groups, lastSequence) && n <= |groups|
    ensures Shows(W.MemOf(groups[..n]), UpdatedAll(map[], UpdatesOf(groups[..n])))
    ensures Before(W.MemOf(groups[..n]), if n < |groups| then groups[n].sn else lastSequence + 1)
  {
    hide Shows, Before, Entries, UpdatedAll;
    if n == 0 {
      assert UpdatedAll(map[], []) == map[] by { NoUpdates(); }
      NothingShown(if n < |groups| then groups[n].sn else lastSequence + 1);
    } else {
      var before, g := groups[..n - 1], groups[n - 1];
      GroupsShow(groups, lastSequence, n - 1);
      assert groups[..n][..n - 1] == before;
      var es, m := W.MemOf(before), UpdatedAll(map[], UpdatesOf(before));
      if g.ok {
        BatchShows(es, m, g.sn, g.updates);
        UpdatedConcat(map[], UpdatesOf(before), g.updates);
      } else {
        More(es, g.sn, g.sn + |g.updates|);
        Seqs.RightEmpty(es);
        Seqs.RightEmpty(UpdatesOf(before));
      }
    }
  }

  lemma NoUpdates()
    ensures UpdatedAll(map[], []) == map[]
  {
  }

  /** In every state of every run: what a reader at the last sequence sees of the memtable is
      the map that the successful groups have written, one after the other. */
  lemma ReadsWhatWasWritten(states: seq<W.State>, steps: seq<W.Step>, i: nat, j: nat)
    requires W.IsRun(states, steps) && i <= j < |states|
    ensures Shows(W.MemOf(states[i].groups), UpdatedAll(map[], UpdatesOf(states[i].groups)))
    ensures forall e :: e in states[j].mem && e.sn <= states[i].lastSequence <==> e in W.MemOf(states[i].groups)
  {
    W.RunKeepsInv(states, steps, i);
    var s := states[i];
    forall e ensures e in states[j].mem && e.sn <= s.lastSequence <==> e in W.MemOf(s.groups) {
      W.SnapshotSeesWholeGroups(states, steps, i, j, e);
    }
    hide Shows, Before, UpdatedAll, UpdatesOf, W.MemOf;
    GroupsShow(s.groups, s.lastSequence, |s.groups|);
    assert s.groups[..|s.groups|] == s.groups;
  }

  // ---- Recovery --------------------------------------------------------------------------------------

  /** Every batch begins after the one before. */
  ghost predicate Ascending(bs: seq<Logged>)
  {
    forall i :: 0 < i < |bs| ==> bs[i - 1].sn + |bs[i - 1].updates| <= bs[i].sn
  }

  function LoggedUpdates(bs: seq<Logged>): seq<Update>
  {
    if bs == [] then [] else LoggedUpdates(bs[..|bs| - 1]) + bs[|bs| - 1].updates
  }

  lemma {:induction false} ContentsSnoc(bs: seq<Logged>)
    requires bs != []
    ensures Contents(bs)
         == Contents(bs[..|bs| - 1]) + Entries(bs[|bs| - 1].sn, bs[|bs| - 1].updates)
  {
    hide Entries;
    var n := |bs| - 1;
    if n == 0 {
      assert bs[1..] == [] && bs[..0] == [];
    } else {
      ContentsSnoc(bs[1..]);
      assert bs[1..][..n - 1] == bs[..n][1..] && bs[..n][0] == bs[0];
      Seqs.Associative(Entries(bs[0].sn, bs[0].updates), Contents(bs[..n][1..]),
                       Entries(bs[n].sn, bs[n].updates));
    }
  }

  lemma {:induction false} ContentsShow(bs: seq<Logged>, n: nat)
    requires Ascending(bs) && n <= |bs|
    ensures Shows(Contents(bs[..n]), UpdatedAll(map[], LoggedUpdates(bs[..n])))
    ensures n > 0 ==> Before(Contents(bs[..n]), bs[n - 1].sn + |bs[n - 1].updates|)
  {
    hide Shows, Before, Entries, UpdatedAll, Contents;
    if n == 0 {
      NoUpdates();
      NothingShown(0);
      assert bs[..0] == [] && Contents([]) == [] by { NoContents(); }
    } else {
      ContentsShow(bs, n - 1);
      ContentsSnoc(bs[..n]);
      assert bs[..n][..n - 1] == bs[..n - 1] && bs[..n][n - 1] == bs[n - 1];
      var es, m, b := Contents(bs[..n - 1]), UpdatedAll(map[], LoggedUpdates(bs[..n - 1])), bs[n - 1];
      if n == 1 {
        NoContents();
        assert bs[..0] == [];
        NothingShown(b.sn);
      } else {
        More(es, bs[n - 2].sn + |bs[n - 2].updates|, b.sn);
      }
      BatchShows(es, m, b.sn, b.updates);
      UpdatedConcat(map[], LoggedUpdates(bs[..n - 1]), b.updates);
    }
  }

  lemma NoContents()
    ensures Contents([]) == []
  {
  }

  /** After every truncation of the log, recovery shows the map that a prefix of the batches
      has written. */
  lemma RecoversMap(bs: seq<Logged>, n: nat, maxSequence: nat, paranoid: bool)
    requires (forall b :: b in bs ==> Wellformed(b)) && Ascending(bs) && n <= |Log.Written(Records(bs))|
    ensures var r := RecoverFrom(Log.Written(Records(bs))[..n], 0, [], Recovered([], maxSequence, true), paranoid);
            r.ok && Shows(r.entries, UpdatedAll(map[], LoggedUpdates(bs[..Whole(Records(bs), n)])))
  {
    hide Shows, UpdatedAll, RecoverFrom, Whole, Log.Written, Contents, Ascending, LoggedUpdates;
    CrashRecovery(bs, n, maxSequence, paranoid);
    WholeIsMost(Records(bs), n);
    ContentsShow(bs, Whole(Records(bs), n));
  }

  // ---- Both ----------------------------------------------------------------------------------------

  ghost predicate InOrder(log: seq<W.LogRecord>)
  {
    forall i :: 0 < i < |log| ==> log[i - 1].sn + |log[i - 1].updates| <= log[i].sn
  }

  ghost predicate EndsBefore(log: seq<W.LogRecord>, sn: nat)
  {
    forall r :: r in log ==> r.sn + |r.updates| <= sn
  }

  lemma OneRecordMore(log: seq<W.LogRecord>, r: W.LogRecord)
    requires InOrder(log) && EndsBefore(log, r.sn)
    ensures InOrder(log + [r]) && EndsBefore(log + [r], r.sn + |r.updates|)
  {
    assert log != [] ==> log[|log| - 1] in log;
  }

  lemma {:induction false} LogAscends(groups: seq<W.Group>, lastSequence: nat, n: nat)
    requires W.Chained(groups, lastSequence) && n <= |groups|
    ensures InOrder(W.LogOf(groups[..n]))
    ensures EndsBefore(W.LogOf(groups[..n]), if n < |groups| then groups[n].sn else lastSequence + 1)
  {
    hide InOrder;
    if n == 0 {
      assert InOrder([]) by { NoRecords(); }
    } else {
      LogAscends(groups, lastSequence, n - 1);
      assert groups[..n][..n - 1] == groups[..n - 1];
      var g := groups[n - 1];
      OneRecordMore(W.LogOf(groups[..n - 1]), W.LogRecord(g.sn, g.updates));
      Seqs.RightEmpty(W.LogOf(groups[..n - 1]));
    }
  }

  lemma NoRecords()
    ensures InOrder([])
  {
  }

  lemma RunLogInOrder(s: W.State)
    requires W.Inv(s)
    ensures InOrder(s.log)
  {
    hide InOrder, EndsBefore, W.Accounted, W.PhasesOk, W.GroupsOk, W.BrokenOk, W.SyncedOk, W.LogOf, W.MemOf;
    LogAscends(s.groups, s.lastSequence, |s.groups|);
    assert s.groups[..|s.groups|] == s.groups;
    W.QueueKnown(s);
    Seqs.RightEmpty(W.LogOf(s.groups));
    if s.work.Some? && s.work.value.logged {
      StillBefore(s);
      OneRecordMore(W.LogOf(s.groups), W.LogRecord(s.work.value.sn, s.work.value.updates));
    }
  }

  lemma StillBefore(s: W.State)
    requires W.WorkOk(s) && W.Known(s, s.queue) && s.work.Some? && EndsBefore(W.LogOf(s.groups), s.lastSequence + 1)
    ensures EndsBefore(W.LogOf(s.groups), s.work.value.sn)
  {
  }

  lemma BatchesInOrder(log: seq<W.LogRecord>)
    requires InOrder(log)
    ensures Ascending(Durability.Batches(log))
  {
  }

  /** The log of every run, cut anywhere, recovers to the map that the groups of a prefix have
      written. */
  lemma RunRecoversMap(states: seq<W.State>, steps: seq<W.Step>, j: nat, n: nat, maxSequence: nat, paranoid: bool)
    requires W.IsRun(states, steps) && j < |states|
    requires forall b :: b in Durability.Batches(states[j].log) ==> Wellformed(b)
    requires n <= |Durability.FileOf(states[j].log)|
    ensures var bs := Durability.Batches(states[j].log);
            var r := RecoverFrom(Durability.FileOf(states[j].log)[..n], 0, [], Recovered([], maxSequence, true),
                                 paranoid);
            r.ok && Shows(r.entries, UpdatedAll(map[], LoggedUpdates(bs[..Whole(Records(bs), n)])))
  {
    W.RunKeepsInv(states, steps, j);
    var s := states[j];
    hide Shows, UpdatedAll, RecoverFrom, Whole, Log.Written, Contents, Ascending, LoggedUpdates;
    hide W.Inv;
    RunLogInOrder(s);
    assert Ascending(Durability.Batches(s.log)) by { BatchesInOrder(s.log); }
    RecoversMap(Durability.Batches(s.log), n, maxSequence, paranoid);
  }
}
