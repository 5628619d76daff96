/**
 A manifest that is appended to after a crash: with reuse_logs its file is opened at its
 length, a torn record at its end included (ReuseManifest in db/version_set.cc).
 */
module ReusedManifests {
  import opened Keys
  import opened Versions
  import opened Builder
  import opened Manifest
  import opened ManifestFiles
  import opened LogReader
  import opened CrashPrefix
  import opened ReopenedLog
  import V = VersionEdits
  import Log
  import Seqs

  // ---- The edits of all that is read ----------------------------------------------------------

  /** All records decoded, or none if one is malformed. */
  function ParsedAll(rs: seq<Bytes>): (r: Option<seq<V.Edit>>)
  {
    if rs == [] then Some([])
    else
      var e, rest := ManifestFiles.Parsed(rs[0]), ParsedAll(rs[1..]);
      if e.None? || rest.None? then None else Some([e.value] + rest.value)
  }

  lemma {:induction false} ReportsStay(c: Bytes, p: nat, scratch: Option<Bytes>, reports: seq<nat>)
    requires p <= |c|
    ensures reports <= RecordFrom(c, p, scratch, reports).reports
    decreases |c| - p
  {
    hide PhysicalAt;
    var f := PhysicalAt(c, p);
    var s := Take(f.kind, f.fragment, scratch);
    var told := reports + f.dropped + s.told;
    assert told[..|reports|] == reports;
    if !s.done { ReportsStay(c, f.next, s.kept, told); }
  }

  lemma {:induction false} AllReportsStay(c: Bytes, p: nat, reports: seq<nat>)
    requires p <= |c|
    ensures reports <= ReadAll(c, p, reports).1
    decreases |c| - p
  {
    hide RecordFrom;
    ReportsStay(c, p, None, reports);
    var r := RecordFrom(c, p, None, reports);
    if r.record.Some? { AllReportsStay(c, r.next, r.reports); }
  }

  /** Recovery takes all that the reader returns, and nothing if the reader reports anything. */
  lemma {:induction false} EditsOfReads(c: Bytes, p: nat)
    requires p <= |c|
    ensures var all := ReadAll(c, p, []);
            EditsFrom(c, p) == if all.1 == [] then ParsedAll(all.0) else None
    decreases |c| - p
  {
    hide RecordFrom, ManifestFiles.Parsed;
    var r := RecordFrom(c, p, None, []);
    if r.record.Some? {
      AllReportsStay(c, r.next, r.reports);
      if r.reports == [] {
        EditsOfReads(c, r.next);
        var rest := ReadAll(c, r.next, []).0;
        assert ([r.record.value] + rest)[1..] == rest;
      }
    }
  }

  lemma {:induction false} StoredParses(ss: seq<Stored>)
    requires forall s :: s in ss ==> StoredOk(s)
    ensures ParsedAll(Records(ss)) == Some(EditsIn(ss))
  {
    hide StoredOk, Record, ManifestFiles.Parsed;
    if ss != [] {
      RecordParses(ss[0]);
      StoredParses(ss[1..]);
      assert Records(ss)[1..] == Records(ss[1..]);
      assert EditsIn(ss) == [ss[0].edit] + EditsIn(ss[1..]);
    }
  }

  lemma JoinRecords(a: seq<Stored>, b: seq<Stored>)
    ensures Records(a + b) == Records(a) + Records(b)
  {
    hide Record;
  }

  lemma FirstRecords(ss: seq<Stored>, k: nat)
    requires k <= |ss|
    ensures Records(ss[..k]) == Records(ss)[..k]
  {
    hide Record;
  }

  lemma LastRecords(ss: seq<Stored>, j: nat)
    requires j <= |ss|
    ensures Records(ss[j..]) == Records(ss)[j..]
  {
    hide Record;
  }

  // ---- What recovery makes of a reused manifest -----------------------------------------------------

  lemma {:induction false} SurvivorsAreLast(pos: nat, more: seq<Bytes>, e: nat) returns (j: nat)
    ensures j <= |more| && Survivors(pos, more, e) == more[j..]
    ensures more != [] && pos + Log.Pad(pos) < e ==> j > 0
    decreases |more|
  {
    hide Log.Emit;
    if more == [] || pos + Log.Pad(pos) >= e {
      j := 0;
    } else {
      j := SurvivorsAreLast(pos + |Log.Emit(pos, more[0], true)|, more[1..], e);
      assert more[1..][j..] == more[j + 1..];
      j := j + 1;
    }
  }

  /** The whole records, then all or some of the last of those appended. */
  lemma ReadsAs(c: Bytes, ss: seq<Stored>, k: nat, more: seq<Stored>, j: nat)
    requires k <= |ss| && j <= |more|
    requires (forall s :: s in ss ==> StoredOk(s)) && (forall s :: s in more ==> StoredOk(s))
    requires ReadAll(c, 0, []).0 == Records(ss)[..k] + Records(more)[j..]
    ensures EditsFrom(c, 0) == if ReadAll(c, 0, []).1 == [] then Some(EditsIn(ss[..k] + more[j..])) else None
  {
    hide StoredOk, EditsFrom, ReadAll, Records, ParsedAll, EditsIn;
    EditsOfReads(c, 0);
    FirstRecords(ss, k);
    LastRecords(more, j);
    JoinRecords(ss[..k], more[j..]);
    StoredParses(ss[..k] + more[j..]);
  }

  lemma NothingLost(c: Bytes, ss: seq<Stored>, k: nat, more: seq<Stored>, reports: seq<nat>)
    requires k <= |ss| && (forall s :: s in ss ==> StoredOk(s)) && (forall s :: s in more ==> StoredOk(s))
    requires ReadAll(c, 0, []) == (Records(ss)[..k] + Records(more), reports)
    ensures EditsFrom(c, 0) == if reports == [] then Some(EditsIn(ss[..k] + more)) else None
  {
    hide StoredOk, EditsFrom, ReadAll, Records, EditsIn;
    Sizes(more);
    assert Records(more)[0..] == Records(more) && more[0..] == more;
    ReadsAs(c, ss, k, more, 0);
  }

  ghost predicate LacksFirst(edits: Option<seq<V.Edit>>, ss: seq<Stored>, more: seq<Stored>)
  {
    edits == None || exists j :: 0 < j <= |more| && edits == Some(EditsIn(ss + more[j..]))
  }

  lemma FirstLost(c: Bytes, ss: seq<Stored>, k: nat, more: seq<Stored>, n: nat)
    requires k <= |ss| && (forall s :: s in ss ==> StoredOk(s)) && (forall s :: s in more ==> StoredOk(s)) && more != []
    requires ReadAll(c, 0, []).0 == Records(ss)[..k] + Survivors(n, Records(more), BlockEnd(n)) && Log.Pad(n) == 0
    ensures LacksFirst(EditsFrom(c, 0), ss[..k], more)
  {
    hide StoredOk, EditsFrom, ReadAll, Records, EditsIn, Survivors;
    Sizes(more);
    var j := SurvivorsAreLast(n, Records(more), BlockEnd(n));
    ReadsAs(c, ss, k, more, j);
  }

  /** A manifest cut at n and appended to. After a cut between records nothing is lost. After a
      cut between the fragments of a record recovery fails, because the reader reports the record
      that was begun. After a cut inside a fragment of a block that goes on, unless the checksum
      of the torn fragment holds by accident, recovery fails or lacks the first appended edit. */
  lemma ReusedManifest(ss: seq<Stored>, n: nat, more: seq<Stored>)
    requires (forall s :: s in ss ==> StoredOk(s)) && (forall s :: s in more ==> StoredOk(s))
    requires n <= |Log.Written(Records(ss))| && more != []
    ensures var c, k := Log.Written(Records(ss))[..n] + Appended(n, Records(more)), Whole(Records(ss), n);
            var p := |Log.Written(Records(ss)[..k])|;
            && p <= n && (k == |ss| ==> EditsFrom(c, 0) == Some(EditsIn(ss + more)))
            && (k < |ss| ==>
                  var cut := CutOf(p, Records(ss)[k], true, n, []);
                  && (!cut.inside && Partial(Scratch(cut)) == [] ==> EditsFrom(c, 0) == Some(EditsIn(ss[..k] + more)))
                  && (!cut.inside && Partial(Scratch(cut)) != [] ==> EditsFrom(c, 0) == None)
                  && (cut.inside && Log.Pad(n) == 0 && !Passes(c, cut.at + Log.Pad(cut.at)) ==>
                        LacksFirst(EditsFrom(c, 0), ss[..k], more)))
  {
    hide StoredOk, EditsFrom, ReadAll, Whole, CutOf, Appended, Passes, Survivors, Partial, Scratch, EndsWith, EditsIn,
         Records;
    hide Log.Pad, Log.Written, BlockEnd, LacksFirst;
    var rs, ms := Records(ss), Records(more);
    var c, k := Log.Written(rs)[..n] + Appended(n, ms), Whole(rs, n);
    Sizes(ss);
    Sizes(more);
    Reopened(rs, n, ms);
    if k == |ss| {
      assert rs[..k] == rs && ss[..k] == ss;
      NothingLost(c, ss, k, more, []);
    } else {
      var cut := CutOf(|Log.Written(rs[..k])|, rs[k], true, n, []);
      if !cut.inside {
        NothingLost(c, ss, k, more, Partial(Scratch(cut)));
      } else if Log.Pad(n) == 0 && !Passes(c, cut.at + Log.Pad(cut.at)) {
        FirstLost(c, ss, k, more, n);
      }
    }
  }

  lemma Sizes(ss: seq<Stored>)
    ensures |Records(ss)| == |ss|
  {
  }

  /** A live run on a reused manifest whose torn tail has a whole header: while the appended
      records stay within the length in that header, recovery gives the levels and numbers the
      manifest had when it was reopened, whatever has been installed since. */
  method RestartReused(versions: VersionSet, ss: seq<Stored>, n: nat, tail: Bytes, ghost ts: seq<Stored>,
                       tables: Tables)
    returns (r: Option<Installed>)
    requires (forall s :: s in ss ==> StoredOk(s)) && n <= |Log.Written(Records(ss))| && Whole(Records(ss), n) < |ss|
    requires Silent(Records(ss), n, |tail|)
    requires versions.Valid() && Means(ts, versions.file, tables)
    requires var k := Whole(Records(ss), n); k <= |versions.file| && ts[..k] == ss[..k]
    ensures var k := Whole(Records(ss), n);
            && RecordsOk(versions.file) && versions.file != [] && (r.Some? <==> k >= Needed(versions.file))
            && (r.Some? ==> Recovered(versions.file[..k], r.value) && r.value.levels == LevelsAfter(versions.file, k))
            && (r.Some? ==> r.value.nextFile > 0 && FilesNumbered(r.value.levels, r.value.nextFile - 1))
            && (r.Some? && k < |versions.file| ==>
                  forall l :: 0 <= l < NUM_LEVELS ==>
                    LevelsAfter(versions.file, k + 1)[l] == LiveStep(r.value.levels[l], versions.file[k].levels[l]))
  {
    hide StoredOk, EditsFrom, ReadAll, Whole, CutOf, Records, Silent, Means, Describes, LevelsAfter, LiveStep,
         Recovered;
    hide Stamped, SameComparator, Legal, Layout, FirstOk, EditsIn, Log.Written;
    var c := Log.Written(Records(ss))[..n] + tail;
    ghost var k := Whole(Records(ss), n);
    Sizes(ss);
    LostEdits(ss, n, tail);
    assert versions.file + [] == versions.file;
    MeansSize(ts, versions.file, tables);
    r := RestartFrom(versions, c, ts, [], k, tables);
  }

  lemma LostEdits(ss: seq<Stored>, n: nat, tail: Bytes)
    requires (forall s :: s in ss ==> StoredOk(s)) && n <= |Log.Written(Records(ss))| && Whole(Records(ss), n) < |ss|
    requires Silent(Records(ss), n, |tail|)
    ensures EditsFrom(Log.Written(Records(ss))[..n] + tail, 0) == Some(EditsIn(ss[..Whole(Records(ss), n)]))
  {
    hide StoredOk, EditsFrom, ReadAll, Whole, Records, Silent, EditsIn, Log.Written;
    var c, k := Log.Written(Records(ss))[..n] + tail, Whole(Records(ss), n);
    Sizes(ss);
    LostSilently(Records(ss), n, tail);
    Sizes([]);
    assert Records([])[0..] == [];
    Seqs.RightEmpty(Records(ss)[..k]);
    ReadsAs(c, ss, k, [], 0);
    assert ss[..k] + [][0..] == ss[..k];
  }
}
