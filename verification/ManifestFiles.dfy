/**
 The manifest as a file: a log whose records are encoded version edits. Recovery reads the
 log, decodes each record and replays it, from whatever a crash left of the file
 (Recover in db/version_set.cc).
 */
module ManifestFiles {
  import opened Keys
  import opened Versions
  import opened Builder
  import opened Manifest
  import opened LogReader
  import opened CrashPrefix
  import opened Coding
  import V = VersionEdits
  import Log
  import Seqs

  type Bytes = seq<Byte>

  /** The table a file record names. */
  type Tables = V.FileMeta -> File

  // ---- What an encoded edit means ------------------------------------------------------------

  function AddedTo(added: seq<(nat, V.FileMeta)>, l: nat, tables: Tables): seq<File>
  {
    if added == [] then []
    else
      var last := |added| - 1;
      AddedTo(added[..last], l, tables) + if added[last].0 == l then [tables(added[last].1)] else []
  }

  function DeletedFrom(deleted: set<(nat, nat)>, l: nat): set<nat>
  {
    set d | d in deleted && d.0 == l :: d.1
  }

  /** The edit sorted by levels; compaction pointers do not touch the files. */
  function Meaning(e: V.Edit, tables: Tables): (r: Edit)
    ensures EditOk(r)
  {
    Edit(e.comparator, e.logNumber, e.prevLogNumber, e.nextFile, e.lastSequence,
         seq(NUM_LEVELS, l requires 0 <= l < NUM_LEVELS => LevelEdit(DeletedFrom(e.deleted, l),
                                                                     AddedTo(e.added, l, tables))))
  }

  function Meanings(es: seq<V.Edit>, tables: Tables): (r: seq<Edit>)
    ensures |r| == |es| && RecordsOk(r)
  {
    seq(|es|, i requires 0 <= i < |es| => Meaning(es[i], tables))
  }

  lemma MeaningsSnoc(es: seq<V.Edit>, e: V.Edit, tables: Tables)
    ensures Meanings(es + [e], tables) == Meanings(es, tables) + [Meaning(e, tables)]
  {
  }

  // ---- Recover ----------------------------------------------------------------------------------

  function Parsed(record: Bytes): Option<V.Edit>
  {
    var items := V.ParseItems(record);
    if items.None? then None else Some(V.Fold(V.EMPTY, items.value))
  }

  /** The edits of the log from position p on; none if the reader reports a corruption or
      a record cannot be decoded. */
  function EditsFrom(c: Bytes, p: nat): (r: Option<seq<V.Edit>>)
    requires p <= |c|
    decreases |c| - p
  {
    var next := RecordFrom(c, p, None, []);
    if next.reports != [] then None
    else if next.record.None? then Some([])
    else
      var e := Parsed(next.record.value);
      if e.None? then None
      else
        var rest := EditsFrom(c, next.next);
        if rest.None? then None else Some([e.value] + rest.value)
  }

  /** The edits done and the rest are all edits, if there are any. */
  ghost predicate Leaves(goal: Option<seq<V.Edit>>, done: seq<V.Edit>, rest: Option<seq<V.Edit>>)
  {
    (goal.Some? <==> rest.Some?) && (goal.Some? ==> goal.value == done + rest.value)
  }

  lemma LeavesStart(goal: Option<seq<V.Edit>>)
    ensures Leaves(goal, [], goal)
  {
    if goal.Some? { assert [] + goal.value == goal.value; }
  }

  lemma LeavesStep(c: Bytes, p: nat, goal: Option<seq<V.Edit>>, done: seq<V.Edit>, e: V.Edit)
    requires p <= |c| && Leaves(goal, done, EditsFrom(c, p))
    requires var next := RecordFrom(c, p, None, []);
             next.reports == [] && next.record.Some? && Parsed(next.record.value) == Some(e)
    ensures var next := RecordFrom(c, p, None, []).next;
            && Leaves(goal, done + [e], EditsFrom(c, next))
            && (goal.Some? ==> |goal.value| > |done| && goal.value[..|done| + 1] == done + [e])
  {
    hide RecordFrom, Parsed;
    var rest := EditsFrom(c, RecordFrom(c, p, None, []).next);
    if rest.Some? { Seqs.Associative(done, [e], rest.value); }
  }

  /** Where the reader or the decoder fails there are no edits; at the end all are done. */
  lemma LeavesStop(c: Bytes, p: nat, goal: Option<seq<V.Edit>>, done: seq<V.Edit>)
    requires p <= |c| && Leaves(goal, done, EditsFrom(c, p))
    ensures var next := RecordFrom(c, p, None, []);
            && (next.reports != [] ==> goal == None)
            && (next.reports == [] && next.record.None? ==> goal == Some(done))
            && (next.reports == [] && next.record.Some? && Parsed(next.record.value).None? ==> goal == None)
  {
    hide RecordFrom, Parsed;
    Seqs.RightEmpty(done);
  }

  /** The records done so far are folded into the builder and agree with the comparator. */
  ghost predicate Taken(p: Progress, done: seq<V.Edit>, tables: Tables, name: Name)
  {
    Folded(p, Meanings(done, tables)) && SameComparator(Meanings(done, tables), name)
  }

  method TakeEdit(p: Progress, ghost done: seq<V.Edit>, edit: V.Edit, tables: Tables, name: Name)
    returns (r: Progress, ok: bool)
    requires Taken(p, done, tables, name)
    ensures ok ==> Taken(r, done + [edit], tables, name)
    ensures !ok ==> !SameComparator(Meanings(done + [edit], tables), name)
  {
    hide Meaning, Folded, SameComparator;
    MeaningsSnoc(done, edit, tables);
    r, ok := TakeRecord(p, Meaning(edit, tables), name, Meanings(done, tables));
  }

  /** Succeeds exactly if the file reads and decodes without error, no record names another
      comparator and all numbers are there; then the state is that of all records. */
  method Recover(contents: Bytes, name: Name, tables: Tables) returns (r: Option<Installed>)
    ensures EditsFrom(contents, 0).None? ==> r == None
    ensures EditsFrom(contents, 0).Some? ==>
              var records := Meanings(EditsFrom(contents, 0).value, tables);
              && (r.Some? <==> SameComparator(records, name) && Complete(records))
              && (r.Some? ==> Recovered(records, r.value))
  {
    hide RecordFrom, EditsFrom, Leaves, Taken, Recovered, Complete, SameComparator, Meanings, Parsed;
    var reader := new Reader(contents);
    var p := START;
    ghost var goal := EditsFrom(contents, 0);
    ghost var done: seq<V.Edit> := [];
    LeavesStart(goal);
    NothingTaken(tables, name);
    while true
      invariant reader.Valid() && fresh(reader) && reader.contents == contents && reader.reports == []
      invariant Taken(p, done, tables, name) && Leaves(goal, done, EditsFrom(contents, reader.Pos()))
      decreases |contents| - reader.Pos()
    {
      LeavesStop(contents, reader.Pos(), goal, done);
      ghost var at := reader.Pos();
      var record := reader.ReadRecord();
      if reader.reports != [] { return None; }
      if record.None? { break; }
      var edit := Decode(record.value);
      if edit.None? { return None; }
      LeavesStep(contents, at, goal, done, edit.value);
      var ok;
      p, ok := TakeEdit(p, done, edit.value, tables, name);
      if !ok {
        if goal.Some? { WrongComparator(done, edit.value, goal.value, tables, name); }
        return None;
      }
      done := done + [edit.value];
    }
    r := Conclude(p, done, tables, name);
  }

  method Decode(record: Bytes) returns (e: Option<V.Edit>)
    ensures e == Parsed(record)
  {
    hide V.ParseItems, V.Fold;
    e := V.DecodeFrom(record);
  }

  method Conclude(p: Progress, ghost done: seq<V.Edit>, tables: Tables, name: Name) returns (r: Option<Installed>)
    requires Taken(p, done, tables, name)
    ensures var records := Meanings(done, tables);
            && SameComparator(records, name) && (r.Some? <==> Complete(records)) &&
               (r.Some? ==> Recovered(records, r.value))
  {
    r := FinishRecovery(p, Meanings(done, tables));
  }

  lemma NothingTaken(tables: Tables, name: Name)
    ensures Taken(START, [], tables, name)
  {
    assert Meanings([], tables) == [];
    forall l | 0 <= l < NUM_LEVELS ensures START.states[l] == Accumulated(EditsOf([], l)) {
      assert EditsOf([], l) == [];
    }
  }

  lemma WrongComparator(done: seq<V.Edit>, e: V.Edit, all: seq<V.Edit>, tables: Tables, name: Name)
    requires |all| > |done| && all[..|done| + 1] == done + [e] && !SameComparator(Meanings(done + [e], tables), name)
    ensures !SameComparator(Meanings(all, tables), name)
  {
    var short := Meanings(done + [e], tables);
    var i :| 0 <= i < |short| && short[i].comparator.Some? && short[i].comparator.value != name;
    assert Meanings(all, tables)[i] == short[i] by { assert all[i] == all[..|done| + 1][i]; }
  }

  // ---- A written manifest, cut anywhere --------------------------------------------------------------

  /** An edit as LogAndApply and WriteSnapshot store it; order is how the set of deleted
      files is walked. */
  datatype Stored = Stored(edit: V.Edit, order: seq<(nat, nat)>)

  ghost predicate StoredOk(s: Stored)
  {
    s.edit.deleted == (set d | d in s.order) && forall i :: i in V.ItemsOf(s.edit, s.order) ==> V.Encodable(i)
  }

  function Record(s: Stored): Bytes
  {
    V.EncodeItems(V.ItemsOf(s.edit, s.order))
  }

  function Records(ss: seq<Stored>): (r: seq<Bytes>)
    ensures |r| == |ss|
  {
    seq(|ss|, i requires 0 <= i < |ss| => Record(ss[i]))
  }

  function EditsIn(ss: seq<Stored>): (r: seq<V.Edit>)
    ensures |r| == |ss|
  {
    seq(|ss|, i requires 0 <= i < |ss| => ss[i].edit)
  }

  lemma RecordParses(s: Stored)
    requires StoredOk(s)
    ensures Parsed(Record(s)) == Some(s.edit)
  {
    hide V.ParseItems, V.Fold, V.EncodeItems, V.ItemsOf, V.Encodable;
    V.EditRoundTrip(s.edit, s.order);
  }

  lemma {:induction false} EditsRest(ss: seq<Stored>, n: nat, i: nat)
    requires (forall s :: s in ss ==> StoredOk(s)) && n <= |Log.Written(Records(ss))| && i <= Whole(Records(ss), n)
    ensures |Log.Written(Records(ss)[..i])| <= n
    ensures var k := Whole(Records(ss), n);
            EditsFrom(Log.Written(Records(ss))[..n], |Log.Written(Records(ss)[..i])|) == Some(EditsIn(ss[i..k]))
    decreases |ss| - i
  {
    hide RecordFrom, Log.Written, Whole, Parsed, Record, StoredOk;
    var k := Whole(Records(ss), n);
    NthRead(Records(ss), n, i);
    if i < k {
      RecordParses(ss[i]);
      EditsRest(ss, n, i + 1);
      assert EditsIn(ss[i..k]) == [ss[i].edit] + EditsIn(ss[i + 1..k]);
    } else {
      assert ss[i..k] == [];
    }
  }

  /** For every sequence of stored edits and every truncation of the file, exactly the
      edits wholly in the prefix are read and decoded, without error. */
  lemma TruncatedManifest(ss: seq<Stored>, n: nat)
    requires (forall s :: s in ss ==> StoredOk(s)) && n <= |Log.Written(Records(ss))|
    ensures EditsFrom(Log.Written(Records(ss))[..n], 0) == Some(EditsIn(ss[..Whole(Records(ss), n)]))
  {
    hide EditsFrom, Whole;
    var k := Whole(Records(ss), n);
    assert Records(ss)[..0] == [] && ss[0..k] == ss[..k];
    assert Log.Written([]) == [];
    EditsRest(ss, n, 0);
  }

  /** The stored edits mean the records. */
  ghost predicate Means(ss: seq<Stored>, records: seq<Edit>, tables: Tables)
  {
    && |ss| == |records| && (forall s :: s in ss ==> StoredOk(s))
    && forall i :: 0 <= i < |ss| ==> Meaning(ss[i].edit, tables) == records[i]
  }

  lemma MeansPrefix(ss: seq<Stored>, records: seq<Edit>, tables: Tables, k: nat)
    requires Means(ss, records, tables) && k <= |ss|
    ensures Meanings(EditsIn(ss[..k]), tables) == records[..k]
  {
    hide Meaning, StoredOk;
    forall i | 0 <= i < k ensures Meanings(EditsIn(ss[..k]), tables)[i] == records[i] {
      assert EditsIn(ss[..k])[i] == ss[i].edit;
    }
  }

  /** Records that are not whole do not count. */
  lemma WholeAtMost(records: seq<Bytes>, n: nat, m: nat)
    requires m <= |records| && (m == |records| || n < |Log.Written(records[..m + 1])|)
    ensures Whole(records, n) <= m
  {
    hide Log.Written, Whole;
    WholeIsMost(records, n);
    if Whole(records, n) > m { WrittenIncreases(records, m + 1, Whole(records, n)); }
  }

  lemma WholeAtLeast(records: seq<Bytes>, n: nat, m: nat)
    requires m <= |records| && |Log.Written(records[..m])| <= n
    ensures Whole(records, n) >= m
  {
    hide Log.Written, Whole;
    WholeIsMost(records, n);
    if Whole(records, n) < m { WrittenIncreases(records, Whole(records, n) + 1, m); }
  }

  /** Recovery from bytes that read as the first k records of the current manifest: it fails
      exactly if the first numbers are missing, and else gives the levels of the live run after
      those records; the next record would have made the next step. */
  method RestartFrom(versions: VersionSet, contents: Bytes, ghost ss: seq<Stored>, ghost torn: seq<Edit>, ghost k: nat,
                     tables: Tables)
    returns (r: Option<Installed>)
    requires versions.Valid() && Means(ss, versions.file + torn, tables) && k <= |versions.file| && k <= |ss|
    requires EditsFrom(contents, 0) == Some(EditsIn(ss[..k]))
    ensures RecordsOk(versions.file) && versions.file != [] && (r.Some? <==> k >= Needed(versions.file))
    ensures r.Some? ==> Recovered(versions.file[..k], r.value) && r.value.levels == LevelsAfter(versions.file, k)
    ensures r.Some? ==> r.value.nextFile > 0 && FilesNumbered(r.value.levels, r.value.nextFile - 1) &&
                        r.value.logNumber < r.value.nextFile - 1
    ensures r.Some? && k < |versions.file| ==>
              forall l :: 0 <= l < NUM_LEVELS ==>
                LevelsAfter(versions.file, k + 1)[l] == LiveStep(r.value.levels[l], versions.file[k].levels[l])
  {
    hide EditsFrom, Describes, Stamped, SameComparator, Recovered, Complete, Means, Legal, Layout, FirstOk, LevelsAfter,
         LiveStep, Counted, AllBelow;
    ghost var records := versions.file + torn;
    FileDescribes(versions.Committed(), versions.current, versions.doubt, versions.file);
    MeansPrefix(ss, records, tables, k);
    assert records[..k] == versions.file[..k];
    r := Recover(contents, versions.comparator, tables);
    FewerSame(versions.file, k, versions.comparator);
    CompletePrefix(versions.file, k);
    if r.Some? {
      RecoversPrefix(versions.file, LevelsOf(versions.current, versions.doubt), k, r.value);
      RecoveredBelow(versions.file, LevelsOf(versions.current, versions.doubt), k, r.value);
      if k < |versions.file| {
        forall l | 0 <= l < NUM_LEVELS
          ensures LevelsAfter(versions.file, k + 1)[l] ==
                  LiveStep(LevelsAfter(versions.file, k)[l], versions.file[k].levels[l])
        {
          LevelsStep(versions.file, k, l);
        }
      }
    }
  }

  /** The machine stops and what is left of the manifest is recovered: the first n bytes of
      the records of the current manifest and perhaps of one that was being appended.
      Recovery fails exactly if the first numbers are cut off. Otherwise it gives the levels
      the live run had after some of its edits; if nothing that was synced is lost, those
      are the live levels, or the live levels after the edit in doubt. */
  method Restart(versions: VersionSet, ss: seq<Stored>, ghost torn: seq<Edit>, n: nat, tables: Tables)
    returns (r: Option<Installed>)
    requires versions.Valid() && Means(ss, versions.file + torn, tables) && n <= |Log.Written(Records(ss))|
    requires torn == [] || n < |Log.Written(Records(ss)[..|versions.file| + 1])|
    ensures var k := Whole(Records(ss), n);
            && k <= |versions.file| && RecordsOk(versions.file) && versions.file != []
            && (r.Some? <==> k >= Needed(versions.file))
            && (r.Some? ==> Recovered(versions.file[..k], r.value) && r.value.levels == LevelsAfter(versions.file, k))
    ensures r.Some? ==> r.value.nextFile > 0 && FilesNumbered(r.value.levels, r.value.nextFile - 1) &&
                        r.value.logNumber < r.value.nextFile - 1
    ensures |Log.Written(Records(ss)[..|versions.Committed()|])| <= n ==>
              && r.Some? && (versions.SameState(r.value) || versions.doubt.Some?)
              && (!versions.SameState(r.value) ==>
                    |versions.current| == NUM_LEVELS && EditOk(versions.doubt.value) &&
                    r.value.levels == Stepped(versions.current, versions.doubt.value))
  {
    hide Log.Written, Whole, EditsFrom, Describes, Stamped, SameComparator, Recovered, Complete, Means, Legal, Layout,
         FirstOk;
    hide LevelsAfter, LiveStep, Stepped;
    ghost var k := Whole(Records(ss), n);
    MeansSize(ss, versions.file + torn, tables);
    TruncatedManifest(ss, n);
    WholeAtMost(Records(ss), n, |versions.file|);
    r := RestartFrom(versions, Log.Written(Records(ss))[..n], ss, torn, k, tables);
    if |Log.Written(Records(ss)[..|versions.Committed()|])| <= n {
      WholeAtLeast(Records(ss), n, |versions.Committed()|);
      NeededAtMost(versions.Committed(), versions.file);
      AfterSync(versions, k, r.value);
    }
  }

  /** The levels of the manifest, a record in doubt included. */
  ghost function LevelsOf(levels: Levels, doubt: Option<Edit>): Levels
    requires |levels| == NUM_LEVELS && (doubt.Some? ==> EditOk(doubt.value))
  {
    if doubt.Some? then Stepped(levels, doubt.value) else levels
  }

  lemma FileDescribes(sure: seq<Edit>, levels: Levels, doubt: Option<Edit>, file: seq<Edit>)
    requires Describes(sure, levels) && Layout(sure) && FirstOk(sure)
    requires file == if doubt.Some? then sure + [doubt.value] else sure
    requires doubt.Some? ==> Stamp(doubt.value) && Legal(sure, levels, doubt.value)
    ensures (doubt.Some? ==> EditOk(doubt.value)) && Describes(file, LevelsOf(levels, doubt)) && Layout(file) &&
            FirstOk(file)
    ensures RecordsOk(file) && file != [] && |levels| == NUM_LEVELS
  {
    hide DescribesLevel, Identified, Fresh;
    if doubt.Some? {
      AfterDoubt(sure, levels, doubt.value);
      assert file[0] == sure[0];
    }
  }

  lemma MeansSize(ss: seq<Stored>, records: seq<Edit>, tables: Tables)
    requires Means(ss, records, tables)
    ensures |ss| == |records| && forall s :: s in ss ==> StoredOk(s)
  {
  }

  lemma FewerSame(records: seq<Edit>, k: nat, name: Name)
    requires SameComparator(records, name) && k <= |records|
    ensures SameComparator(records[..k], name)
  {
  }

  lemma NeededAtMost(sure: seq<Edit>, file: seq<Edit>)
    requires Layout(sure) && file != [] && sure <= file
    ensures Needed(file) <= |sure|
  {
    assert file[0] == sure[0];
  }

  lemma SameNumbers(records: seq<Edit>, r: Installed, logNumber: nat, prevLogNumber: nat, lastSequence: nat,
                    nextFile: nat)
    requires RecordsOk(records) && Recovered(records, r)
    requires Stamped(records, logNumber, prevLogNumber, lastSequence, nextFile)
    ensures r.logNumber == logNumber && r.prevLogNumber == prevLogNumber && r.lastSequence == lastSequence
    ensures r.nextFile == nextFile + 1
  {
  }

  lemma AfterSync(versions: VersionSet, k: nat, r: Installed)
    requires versions.Valid() && RecordsOk(versions.file) && |versions.Committed()| <= k <= |versions.file|
    requires Recovered(versions.file[..k], r) && r.levels == LevelsAfter(versions.file, k)
    ensures versions.SameState(r) || versions.doubt.Some?
    ensures !versions.SameState(r) ==>
              |versions.current| == NUM_LEVELS && EditOk(versions.doubt.value) &&
              r.levels == Stepped(versions.current, versions.doubt.value)
  {
    hide Describes, Legal, LiveStep, Layout, FirstOk, Recovered, Stamped, SameComparator, LevelsAfter, Stepped;
    var sure := versions.Committed();
    FileDescribes(sure, versions.current, versions.doubt, versions.file);
    if k == |sure| {
      assert versions.file[..k] == sure == sure[..k];
      RecoversPrefix(sure, versions.current, k, r);
      AllRecords(sure, versions.current);
      SameNumbers(sure, r, versions.logNumber, versions.prevLogNumber, versions.loggedSequence,
                  versions.loggedNext);
    } else {
      assert versions.file[..k] == versions.file;
      AllRecords(versions.file, LevelsOf(versions.current, versions.doubt));
    }
  }

  // ---- Every edit can be stored ------------------------------------------------------------------------

  /** How internal keys are encoded. */
  type KeyBytes = IKey -> Bytes

  function MetaOf(f: File, key: KeyBytes): V.FileMeta
  {
    V.FileMeta(f.number, f.size, key(f.Smallest()), key(f.Largest()))
  }

  function FileItems(l: nat, files: seq<File>, key: KeyBytes): (r: seq<(nat, V.FileMeta)>)
    ensures |r| == |files|
  {
    seq(|files|, i requires 0 <= i < |files| => (l, MetaOf(files[i], key)))
  }

  function AllFileItems(levels: seq<LevelEdit>, key: KeyBytes): seq<(nat, V.FileMeta)>
  {
    if levels == [] then []
    else AllFileItems(levels[..|levels| - 1], key) + FileItems(|levels| - 1, levels[|levels| - 1].added, key)
  }

  /** The edit with its files listed level by level, as WriteSnapshot lists them. */
  ghost function Store(e: Edit, key: KeyBytes): V.Edit
  {
    V.Edit(e.comparator, e.logNumber, e.prevLogNumber, e.nextFile, e.lastSequence, [],
           set l, n | 0 <= l < |e.levels| && n in e.levels[l].deleted :: (l, n), AllFileItems(e.levels, key))
  }

  ghost predicate Knows(tables: Tables, key: KeyBytes, files: seq<File>)
  {
    forall f :: f in files ==> tables(MetaOf(f, key)) == f
  }

  lemma {:induction false} AddedConcat(a: seq<(nat, V.FileMeta)>, b: seq<(nat, V.FileMeta)>, l: nat, tables: Tables)
    ensures AddedTo(a + b, l, tables) == AddedTo(a, l, tables) + AddedTo(b, l, tables)
  {
    if b == [] {
      Seqs.RightEmpty(a);
    } else {
      var last := |b| - 1;
      Seqs.ConcatInit(a, b);
      AddedConcat(a, b[..last], l, tables);
      Seqs.Associative(AddedTo(a, l, tables), AddedTo(b[..last], l, tables),
                       if b[last].0 == l then [tables(b[last].1)] else []);
    }
  }

  lemma {:induction false} AddedOne(m: nat, files: seq<File>, key: KeyBytes, l: nat, tables: Tables)
    requires Knows(tables, key, files)
    ensures AddedTo(FileItems(m, files, key), l, tables) == if l == m then files else []
  {
    if files != [] {
      var last := |files| - 1;
      AddedOne(m, files[..last], key, l, tables);
      assert FileItems(m, files, key)[..last] == FileItems(m, files[..last], key);
      assert files == files[..last] + [files[last]] && files[last] in files;
    }
  }

  lemma {:induction false} AddedAll(levels: seq<LevelEdit>, key: KeyBytes, l: nat, tables: Tables)
    requires forall m :: 0 <= m < |levels| ==> Knows(tables, key, levels[m].added)
    ensures AddedTo(AllFileItems(levels, key), l, tables) == if l < |levels| then levels[l].added else []
  {
    hide AddedTo, Knows;
    if levels == [] {
      assert AddedTo([], l, tables) == [] by { NoneAdded(l, tables); }
    } else {
      var last := |levels| - 1;
      AddedAll(levels[..last], key, l, tables);
      AddedOne(last, levels[last].added, key, l, tables);
      AddedConcat(AllFileItems(levels[..last], key), FileItems(last, levels[last].added, key), l, tables);
      if l < last { Seqs.RightEmpty(levels[l].added); }
    }
  }

  lemma NoneAdded(l: nat, tables: Tables)
    ensures AddedTo([], l, tables) == []
  {
  }

  /** Storing an edit keeps its meaning. */
  lemma StoreMeans(e: Edit, key: KeyBytes, tables: Tables)
    requires EditOk(e) && forall m :: 0 <= m < NUM_LEVELS ==> Knows(tables, key, e.levels[m].added)
    ensures Meaning(Store(e, key), tables) == e
  {
    hide AddedTo, AllFileItems, Knows;
    forall l | 0 <= l < NUM_LEVELS ensures Meaning(Store(e, key), tables).levels[l] == e.levels[l] {
      AddedAll(e.levels, key, l, tables);
      var d := DeletedFrom(Store(e, key).deleted, l);
      forall n ensures n in d <==> n in e.levels[l].deleted {
        if n in e.levels[l].deleted { assert (l, n) in Store(e, key).deleted; }
      }
    }
  }
}
