/**
 The manifest: every change of the version set is logged as an edit, after a snapshot,
 and recovery feeds all records to one builder (LogAndApply, WriteSnapshot and Recover in
 db/version_set.cc; RecordBackgroundError in db/db_impl.cc).
 */
module Manifest {
  import opened Keys
  import opened Versions
  import opened Builder
  import Coding

  /** The name of a comparator. */
  type Name = seq<Coding.Byte>

  /** A version edit; levels[l] is what it does to level l. */
  datatype Edit = Edit(comparator: Option<Name>, logNumber: Option<nat>, prevLogNumber: Option<nat>,
                       nextFile: Option<nat>,
                       lastSequence: Option<nat>, levels: seq<LevelEdit>)

  type Levels = seq<seq<File>>

  ghost predicate EditOk(e: Edit)
  {
    |e.levels| == NUM_LEVELS
  }

  ghost predicate RecordsOk(records: seq<Edit>)
  {
    forall i :: 0 <= i < |records| ==> EditOk(records[i])
  }

  /** The edits of one level, in order. */
  function EditsOf(records: seq<Edit>, l: nat): (r: seq<LevelEdit>)
    requires RecordsOk(records) && l < NUM_LEVELS
    ensures |r| == |records|
  {
    seq(|records|, i requires 0 <= i < |records| => records[i].levels[l])
  }

  // ---- Recover ----------------------------------------------------------------------------

  datatype Field = LogNumber | PrevLogNumber | NextFile | LastSequence

  function Get(e: Edit, field: Field): Option<nat>
  {
    match field
    case LogNumber => e.logNumber
    case PrevLogNumber => e.prevLogNumber
    case NextFile => e.nextFile
    case LastSequence => e.lastSequence
  }

  /** A field of the last record that has it. */
  function Latest(records: seq<Edit>, field: Field): Option<nat>
  {
    if records == [] then None
    else
      var last := Get(records[|records| - 1], field);
      if last.Some? then last else Latest(records[..|records| - 1], field)
  }

  /** What recovery installs. */
  datatype Installed = Installed(levels: Levels, logNumber: nat, prevLogNumber: nat, nextFile: nat, lastSequence: nat)

  ghost predicate Complete(records: seq<Edit>)
  {
    && Latest(records, NextFile).Some? && Latest(records, LogNumber).Some?
    && Latest(records, LastSequence).Some?
  }

  ghost predicate SameComparator(records: seq<Edit>, name: Name)
  {
    forall i :: 0 <= i < |records| && records[i].comparator.Some? ==> records[i].comparator.value == name
  }

  function Or(n: Option<nat>, other: nat): nat
  {
    if n.Some? then n.value else other
  }

  function OrZero(n: Option<nat>): nat
  {
    if n.Some? then n.value else 0
  }

  /** The recovered state is that of one builder and of the latest values. */
  ghost predicate Recovered(records: seq<Edit>, r: Installed)
    requires RecordsOk(records)
  {
    && |r.levels| == NUM_LEVELS && (forall l :: 0 <= l < NUM_LEVELS ==> r.levels[l] == Replay(EditsOf(records, l)))
    && Latest(records, LogNumber) == Some(r.logNumber)
    && Latest(records, LastSequence) == Some(r.lastSequence)
    && Latest(records, NextFile) == Some(r.nextFile - 1) && r.nextFile > 0
    && r.prevLogNumber == OrZero(Latest(records, PrevLogNumber))
  }

  /** The local variables of Recover. */
  datatype Progress = Progress(states: seq<LevelState>, logNumber: Option<nat>, prevLogNumber: Option<nat>,
                               nextFile: Option<nat>,
                               lastSequence: Option<nat>)

  const START: Progress := Progress(seq(NUM_LEVELS, l => LevelState({}, [])), None, None, None, None)

  ghost predicate Folded(p: Progress, records: seq<Edit>)
    requires RecordsOk(records)
  {
    && |p.states| == NUM_LEVELS && (forall l :: 0 <= l < NUM_LEVELS ==> p.states[l] == Accumulated(EditsOf(records, l)))
    && p.logNumber == Latest(records, LogNumber) && p.prevLogNumber == Latest(records, PrevLogNumber)
    && p.nextFile == Latest(records, NextFile) && p.lastSequence == Latest(records, LastSequence)
  }

  /** One turn of the loop of Recover, on a decoded record. */
  method TakeRecord(p: Progress, edit: Edit, name: Name, ghost before: seq<Edit>) returns (r: Progress, ok: bool)
    requires EditOk(edit) && RecordsOk(before) && Folded(p, before) && SameComparator(before, name)
    ensures RecordsOk(before + [edit])
    ensures ok <==> SameComparator(before + [edit], name)
    ensures ok ==> Folded(r, before + [edit])
  {
    r := p;
    ghost var all := before + [edit];
    assert all[|before|] == edit && all[..|before|] == before;
    if edit.comparator.Some? && edit.comparator.value != name {
      ok := false;
      return;
    }
    var states := ApplyAll(p.states, edit, before);
    r := p.(states := states);
    if edit.logNumber.Some? { r := r.(logNumber := edit.logNumber); }
    if edit.prevLogNumber.Some? { r := r.(prevLogNumber := edit.prevLogNumber); }
    if edit.nextFile.Some? { r := r.(nextFile := edit.nextFile); }
    if edit.lastSequence.Some? { r := r.(lastSequence := edit.lastSequence); }
    KeepsComparator(before, edit, name);
    ok := true;
  }

  /** What Recover does after its loop. */
  method FinishRecovery(p: Progress, ghost records: seq<Edit>) returns (r: Option<Installed>)
    requires RecordsOk(records) && Folded(p, records)
    ensures r.Some? <==> Complete(records)
    ensures r.Some? ==> Recovered(records, r.value)
  {
    if p.nextFile.None? || p.logNumber.None? || p.lastSequence.None? { return None; }
    var levels := SaveAll(p.states);
    r := Some(Installed(levels, p.logNumber.value, OrZero(p.prevLogNumber), p.nextFile.value + 1,
                        p.lastSequence.value));
  }

  /** Builder::Apply, level by level. */
  method ApplyAll(states: seq<LevelState>, edit: Edit, ghost before: seq<Edit>) returns (r: seq<LevelState>)
    requires |states| == NUM_LEVELS && EditOk(edit) && RecordsOk(before)
    requires forall l :: 0 <= l < NUM_LEVELS ==> states[l] == Accumulated(EditsOf(before, l))
    ensures |r| == NUM_LEVELS && RecordsOk(before + [edit])
    ensures forall l :: 0 <= l < NUM_LEVELS ==> r[l] == Accumulated(EditsOf(before + [edit], l))
  {
    hide Apply;
    r := [];
    for l := 0 to NUM_LEVELS
      invariant |r| == l && forall m :: 0 <= m < l ==> r[m] == Accumulated(EditsOf(before + [edit], m))
    {
      EditsSnoc(before, edit, l);
      r := r + [Apply(states[l], edit.levels[l])];
    }
  }

  lemma EditsSnoc(before: seq<Edit>, edit: Edit, l: nat)
    requires RecordsOk(before) && EditOk(edit) && l < NUM_LEVELS
    ensures RecordsOk(before + [edit]) && EditsOf(before + [edit], l) == EditsOf(before, l) + [edit.levels[l]]
    ensures EditsOf(before + [edit], l)[..|before|] == EditsOf(before, l)
  {
  }

  /** Builder::SaveTo on an empty version. */
  method SaveAll(states: seq<LevelState>) returns (r: Levels)
    requires |states| == NUM_LEVELS && forall l :: 0 <= l < NUM_LEVELS ==> Ordered(states[l].added)
    ensures |r| == NUM_LEVELS && forall l :: 0 <= l < NUM_LEVELS ==> r[l] == SaveTo([], states[l])
  {
    r := [];
    for l := 0 to NUM_LEVELS
      invariant |r| == l && forall m :: 0 <= m < l ==> r[m] == SaveTo([], states[m])
    {
      var saved := SaveLevel([], states[l]);
      r := r + [saved];
    }
  }

  // ---- LogAndApply -------------------------------------------------------------------------------

  /** WriteSnapshot: every file of every level, added. */
  function Snapshot(name: Name, levels: Levels): (e: Edit)
    requires |levels| == NUM_LEVELS
    ensures |e.levels| == NUM_LEVELS
  {
    Edit(Some(name), None, None, None, None,
         seq(NUM_LEVELS, l requires 0 <= l < NUM_LEVELS => LevelEdit({}, levels[l])))
  }

  /** An edit with the numbers that LogAndApply fills in. */
  function Filled(e: Edit, logNumber: nat, prevLogNumber: nat, nextFile: nat, lastSequence: nat): Edit
  {
    e.(logNumber := if e.logNumber.Some? then e.logNumber else Some(logNumber),
       prevLogNumber := if e.prevLogNumber.Some? then e.prevLogNumber else Some(prevLogNumber),
       nextFile := Some(nextFile), lastSequence := Some(lastSequence))
  }

  /** The records describe the levels: replayed one by one they give them, each file
      number names one file, and no number is added to a level that still holds it. */
  ghost predicate Describes(records: seq<Edit>, levels: Levels)
  {
    && RecordsOk(records) && |levels| == NUM_LEVELS
    && forall l :: 0 <= l < NUM_LEVELS ==> DescribesLevel(EditsOf(records, l), levels[l])
  }

  ghost predicate DescribesLevel(edits: seq<LevelEdit>, files: seq<File>)
  {
    Identified(edits) && NeverReadded(edits) && Live([], edits) == files
  }

  lemma NeverReaddedSnoc(edits: seq<LevelEdit>, e: LevelEdit)
    requires NeverReadded(edits) && Fresh(Live([], edits), e)
    ensures NeverReadded(edits + [e])
  {
    hide Live, Fresh;
    var all := edits + [e];
    forall i | 0 <= i < |all| ensures Fresh(Live([], all[..i]), all[i]) {
      if i < |edits| { assert all[..i] == edits[..i] && all[i] == edits[i]; } else { assert all[..i] == edits; }
    }
  }

  lemma DescribesMore(edits: seq<LevelEdit>, files: seq<File>, e: LevelEdit)
    requires DescribesLevel(edits, files) && Identified(edits + [e]) && Fresh(files, e)
    ensures DescribesLevel(edits + [e], LiveStep(files, e))
  {
    hide Identified, NeverReadded, Fresh;
    NeverReaddedSnoc(edits, e);
    assert (edits + [e])[..|edits|] == edits;
  }

  /** A snapshot describes the levels it was taken of. */
  lemma SnapshotDescribes(name: Name, levels: Levels)
    requires |levels| == NUM_LEVELS && forall l :: 0 <= l < NUM_LEVELS ==> Ordered(levels[l])
    requires forall l :: 0 <= l < NUM_LEVELS ==> NumberDetermines(levels[l], levels[l])
    ensures Describes([Snapshot(name, levels)], levels)
  {
    var records := [Snapshot(name, levels)];
    forall l | 0 <= l < NUM_LEVELS ensures DescribesLevel(EditsOf(records, l), levels[l]) {
      var e := LevelEdit({}, levels[l]);
      assert EditsOf(records, l) == [e];
      LiveStepMembers([], e);
      OrderedUnique(LiveStep([], e), levels[l]);
      assert [e][..0] == [];
      assert Live([], [e]) == LiveStep(Live([], []), e);
    }
  }

  /** The edit may follow the records: it reuses no number for another file and adds none
      that its level still holds. */
  ghost predicate Legal(records: seq<Edit>, levels: Levels, edit: Edit)
    requires RecordsOk(records) && |levels| == NUM_LEVELS
  {
    && EditOk(edit)
    && forall l :: 0 <= l < NUM_LEVELS ==>
         Identified(EditsOf(records, l) + [edit.levels[l]]) && Fresh(levels[l], edit.levels[l])
  }

  /** The numbers Recover insists on. */
  predicate HasNumbers(e: Edit)
  {
    e.logNumber.Some? && e.nextFile.Some? && e.lastSequence.Some?
  }

  /** A snapshot has no numbers; every later record has them. */
  ghost predicate Layout(records: seq<Edit>)
  {
    && records != [] && (forall i :: 0 < i < |records| ==> HasNumbers(records[i]))
    && (|records| == 1 ==> HasNumbers(records[0]))
  }

  /** How many records recovery needs. */
  function Needed(records: seq<Edit>): nat
    requires records != []
  {
    if HasNumbers(records[0]) then 1 else 2
  }

  /** A prefix of a manifest can be recovered exactly if it reaches the first numbers. */
  lemma {:induction false} CompletePrefix(records: seq<Edit>, k: nat)
    requires Layout(records) && FirstOk(records) && k <= |records|
    ensures Complete(records[..k]) <==> k >= Needed(records)
  {
    var prefix := records[..k];
    if k > 0 {
      assert prefix[k - 1] == records[k - 1];
      if k == 1 {
        assert forall field :: Latest(prefix[..0], field) == None;
        assert forall field :: Latest(prefix, field) == Get(records[0], field);
      } else {
        assert HasNumbers(prefix[k - 1]);
      }
    }
  }

  /** The levels after the first k records. */
  ghost function LevelsAfter(records: seq<Edit>, k: nat): (r: Levels)
    requires RecordsOk(records) && k <= |records|
    ensures |r| == NUM_LEVELS
  {
    seq(NUM_LEVELS, l requires 0 <= l < NUM_LEVELS => Live([], EditsOf(records[..k], l)))
  }

  lemma PrefixEdits(records: seq<Edit>, k: nat, l: nat)
    requires RecordsOk(records) && k <= |records| && l < NUM_LEVELS
    ensures EditsOf(records[..k], l) == EditsOf(records, l)[..k]
  {
  }

  /** One record makes one step of the live levels. */
  lemma LevelsStep(records: seq<Edit>, k: nat, l: nat)
    requires RecordsOk(records) && k < |records| && l < NUM_LEVELS
    ensures LevelsAfter(records, k + 1)[l] == LiveStep(LevelsAfter(records, k)[l], records[k].levels[l])
  {
    assert EditsOf(records[..k + 1], l)[..k] == EditsOf(records[..k], l);
  }

  lemma DescribesPrefix(records: seq<Edit>, levels: Levels, k: nat)
    requires Describes(records, levels) && k <= |records|
    ensures Describes(records[..k], LevelsAfter(records, k))
  {
    forall l | 0 <= l < NUM_LEVELS ensures DescribesLevel(EditsOf(records[..k], l), LevelsAfter(records, k)[l]) {
      PrefixEdits(records, k, l);
      LevelPrefix(EditsOf(records, l), levels[l], k);
    }
  }

  lemma LevelPrefix(edits: seq<LevelEdit>, files: seq<File>, k: nat)
    requires DescribesLevel(edits, files) && k <= |edits|
    ensures DescribesLevel(edits[..k], Live([], edits[..k]))
  {
    hide Fresh, NumberDetermines, LiveStep, Live;
    var prefix := edits[..k];
    forall i | 0 <= i < k ensures Fresh(Live([], prefix[..i]), prefix[i]) {
      assert prefix[..i] == edits[..i] && prefix[i] == edits[i];
    }
  }

  lemma AllRecords(records: seq<Edit>, levels: Levels)
    requires Describes(records, levels)
    ensures LevelsAfter(records, |records|) == levels
  {
    assert records[..|records|] == records;
    forall l | 0 <= l < NUM_LEVELS ensures LevelsAfter(records, |records|)[l] == levels[l] {
      assert DescribesLevel(EditsOf(records, l), levels[l]);
    }
  }

  /** Replaying the records of a prefix gives the levels the live run had then. */
  lemma RecoversPrefix(records: seq<Edit>, levels: Levels, k: nat, r: Installed)
    requires Describes(records, levels) && k <= |records| && Recovered(records[..k], r)
    ensures r.levels == LevelsAfter(records, k)
  {
    hide Identified, NeverReadded, Live, Replay;
    DescribesPrefix(records, levels, k);
    forall l | 0 <= l < NUM_LEVELS ensures r.levels[l] == LevelsAfter(records, k)[l] {
      assert DescribesLevel(EditsOf(records[..k], l), LevelsAfter(records, k)[l]);
      ReplayEqualsLive(EditsOf(records[..k], l));
    }
  }

  /** A described level is in order, and a number names one of its files. */
  lemma DescribedFiles(edits: seq<LevelEdit>, files: seq<File>)
    requires DescribesLevel(edits, files)
    ensures Ordered(files)
    ensures forall f :: f in files ==> exists i :: 0 <= i < |edits| && f in edits[i].added
  {
    ReplayEqualsLive(edits);
    ReplayOrdered(edits);
    AccumulatedMembers(edits);
  }

  /** What may follow the records may follow a snapshot of the levels they describe. */
  lemma LegalAfterSnapshot(records: seq<Edit>, levels: Levels, name: Name, edit: Edit)
    requires Describes(records, levels) && Legal(records, levels, edit)
    ensures Describes([Snapshot(name, levels)], levels) && Legal([Snapshot(name, levels)], levels, edit)
  {
    var snapshot := [Snapshot(name, levels)];
    forall l | 0 <= l < NUM_LEVELS
      ensures Ordered(levels[l]) && NumberDetermines(levels[l], levels[l])
      ensures Identified(EditsOf(snapshot, l) + [edit.levels[l]])
    {
      assert EditsOf(snapshot, l) == [LevelEdit({}, levels[l])];
      IdentifiedAgain(EditsOf(records, l), levels[l], edit.levels[l]);
    }
    SnapshotDescribes(name, levels);
  }

  lemma IdentifiedAgain(edits: seq<LevelEdit>, files: seq<File>, e: LevelEdit)
    requires DescribesLevel(edits, files) && Identified(edits + [e])
    ensures Ordered(files) && NumberDetermines(files, files) && NumberDetermines(files, e.added)
    ensures Identified([LevelEdit({}, files)] + [e])
  {
    hide NeverReadded, Live;
    DescribedFiles(edits, files);
    var all := edits + [e];
    forall f, g | (f in files || f in e.added) && (g in files || g in e.added) && f.number == g.number ensures f == g {
      var i := Adder(edits, files, e, f);
      var j := Adder(edits, files, e, g);
      assert NumberDetermines(all[i].added, all[j].added);
    }
  }

  lemma Adder(edits: seq<LevelEdit>, files: seq<File>, e: LevelEdit, f: File) returns (i: nat)
    requires forall g :: g in files ==> exists i :: 0 <= i < |edits| && g in edits[i].added
    requires f in files || f in e.added
    ensures i <= |edits| && f in (edits + [e])[i].added
  {
    if f in files { i :| 0 <= i < |edits| && f in edits[i].added; } else { i := |edits|; }
  }

  // ---- Numbers -----------------------------------------------------------------------------------

  /** The numbers in a record, of the files it adds and of its log, are below n. */
  ghost predicate Below(e: Edit, n: nat)
  {
    && (forall l, f :: 0 <= l < |e.levels| && f in e.levels[l].added ==> f.number < n)
    && (e.logNumber.Some? ==> e.logNumber.value < n)
  }

  ghost predicate AllBelow(records: seq<Edit>, n: nat)
  {
    forall i :: 0 <= i < |records| ==> Below(records[i], n)
  }

  /** A next file number is above all numbers in its record and in the records before. */
  ghost predicate Counted(records: seq<Edit>)
  {
    forall j :: 0 <= j < |records| && records[j].nextFile.Some? ==>
      AllBelow(records[..j + 1], records[j].nextFile.value)
  }

  lemma MoreBelow(records: seq<Edit>, m: nat, n: nat)
    requires AllBelow(records, m) && m <= n
    ensures AllBelow(records, n)
  {
    forall i | 0 <= i < |records| ensures Below(records[i], n) { assert Below(records[i], m); }
  }

  lemma CountedMore(records: seq<Edit>, e: Edit, n: nat)
    requires Counted(records) && AllBelow(records, n) && e.nextFile == Some(n) && Below(e, n)
    ensures Counted(records + [e]) && AllBelow(records + [e], n)
  {
    hide Below;
    var all := records + [e];
    forall j | 0 <= j < |all| && all[j].nextFile.Some? ensures AllBelow(all[..j + 1], all[j].nextFile.value) {
      if j < |records| { assert all[..j + 1] == records[..j + 1]; } else { assert all[..j + 1] == all; }
    }
  }

  /** The files of a described version are among those added. */
  lemma LevelsBelow(records: seq<Edit>, levels: Levels, n: nat)
    requires Describes(records, levels) && AllBelow(records, n)
    ensures FilesNumbered(levels, n)
  {
    hide DescribesLevel;
    forall l, f | 0 <= l < NUM_LEVELS && f in levels[l] ensures f.number < n {
      DescribedFiles(EditsOf(records, l), levels[l]);
      var i :| 0 <= i < |records| && f in EditsOf(records, l)[i].added;
      assert Below(records[i], n);
    }
  }

  lemma SnapshotCounted(records: seq<Edit>, levels: Levels, name: Name, n: nat)
    requires Describes(records, levels) && AllBelow(records, n)
    ensures Counted([Snapshot(name, levels)]) && AllBelow([Snapshot(name, levels)], n)
  {
    LevelsBelow(records, levels, n);
  }

  /** What recovery installs from a prefix of a manifest gives no number out again: all tables,
      the log and the manifest that may be made next are below the next file number. */
  lemma RecoveredBelow(records: seq<Edit>, levels: Levels, k: nat, r: Installed)
    requires Describes(records, levels) && Layout(records) && Counted(records) && k <= |records|
    requires Recovered(records[..k], r)
    ensures r.nextFile > 0 && FilesNumbered(r.levels, r.nextFile - 1) && r.logNumber < r.nextFile - 1
    ensures AllBelow(records[..k], r.nextFile - 1)
  {
    hide DescribesLevel, LevelsAfter, Replay;
    RecoversPrefix(records, levels, k, r);
    DescribesPrefix(records, levels, k);
    LastNumbers(records, k, r);
    LevelsBelow(records[..k], LevelsAfter(records, k), r.nextFile - 1);
  }

  lemma LastNumbers(records: seq<Edit>, k: nat, r: Installed)
    requires RecordsOk(records) && Layout(records) && Counted(records) && k <= |records|
    requires Recovered(records[..k], r)
    ensures AllBelow(records[..k], r.nextFile - 1) && r.logNumber < r.nextFile - 1
  {
    hide Below, Replay, EditsOf;
    var prefix := records[..k];
    assert k > 0 && prefix[k - 1] == records[k - 1];
    if k == 1 {
      assert Latest(prefix[..0], NextFile) == None && Latest(prefix[..0], LogNumber) == None;
    } else {
      assert HasNumbers(records[k - 1]);
    }
    assert Latest(prefix, NextFile) == records[k - 1].nextFile && Latest(prefix, LogNumber) == records[k - 1].logNumber;
    assert records[k - 1].nextFile == Some(r.nextFile - 1) && records[k - 1].logNumber == Some(r.logNumber);
    assert prefix == records[..k - 1 + 1];
    LogBelow(prefix[k - 1], r.nextFile - 1);
  }

  lemma LogBelow(e: Edit, n: nat)
    requires Below(e, n)
    ensures e.logNumber.Some? ==> e.logNumber.value < n
  {
  }

  lemma FilledBelow(e: Edit, logNumber: nat, prevLogNumber: nat, nextFile: nat, lastSequence: nat, records: seq<Edit>)
    requires Below(e, nextFile) && Numbered(records, logNumber, nextFile)
    ensures Below(Filled(e, logNumber, prevLogNumber, nextFile, lastSequence), nextFile)
  {
  }

  // ---- Calls ----------------------------------------------------------------------------------------

  /** What one call asks of the file system, and the answers. A failed append may have
      written the record nevertheless. */
  datatype Io = Io(created: bool, appended: bool, whole: bool, synced: bool, renamed: bool)

  const GOOD: Io := Io(true, true, true, true, true)

  /** A call succeeds if all it asks for does; a new manifest is created and made current. */
  predicate Succeeds(open: bool, io: Io)
  {
    (open || (io.created && io.renamed)) && io.appended && io.synced
  }

  /** The record stays in the current manifest although the call failed. */
  predicate Lingers(open: bool, io: Io)
  {
    open && !Succeeds(open, io) && (io.appended || io.whole)
  }

  /** The records describe the levels and have the latest numbers. */
  ghost predicate Sound(records: seq<Edit>, levels: Levels, logNumber: nat, prevLogNumber: nat, lastSequence: nat,
                        nextFile: nat)
  {
    && Describes(records, levels) && Layout(records) && FirstOk(records)
    && Stamped(records, logNumber, prevLogNumber, lastSequence, nextFile)
  }

  /** No number in the manifest will be handed out again. */
  ghost predicate Numbered(records: seq<Edit>, logNumber: nat, nextFile: nat)
  {
    Counted(records) && AllBelow(records, nextFile) && logNumber < nextFile
  }

  /** The last record of the manifest may be installed after the others. */
  ghost predicate InDoubt(file: seq<Edit>, sure: seq<Edit>, levels: Levels, e: Edit)
  {
    file == sure + [e] && Stamp(e) && RecordsOk(sure) && |levels| == NUM_LEVELS && Legal(sure, levels, e)
  }

  /** The record goes to the open manifest, or after a snapshot to a new one that is then made
      current; log is what the manifest holds at the end. */
  method WriteManifest(open: bool, file: seq<Edit>, snapshot: Edit, record: Edit, io: Io)
    returns (ok: bool, log: seq<Edit>)
    ensures ok <==> Succeeds(open, io)
    ensures ok ==> log == (if open then file else [snapshot]) + [record]
    ensures !ok && open ==> log == if Lingers(open, io) then file + [record] else file
  {
    ok, log := true, file;
    if !open {
      ok := io.created;
      log := [snapshot];
    }
    if ok {
      ok := io.appended;
      if io.appended || io.whole { log := log + [record]; }
      if ok { ok := io.synced; }
    }
    if ok && !open { ok := io.renamed; }
  }

  class VersionSet {
    const comparator: Name
    var current: Levels
    var logNumber: nat
    var prevLogNumber: nat
    var nextFile: nat
    var lastSequence: nat
    /** The records of the manifest that CURRENT names. */
    var file: seq<Edit>
    /** descriptor_log_ is open; it writes to that manifest. */
    var open: bool
    /** The last sequence number when the last installed edit was logged. */
    ghost var loggedSequence: nat
    /** And the next file number. */
    ghost var loggedNext: nat
    /** The last record of the manifest, if its version was not installed. */
    ghost var doubt: Option<Edit>

    /** The records whose edits have been installed. */
    ghost function Committed(): seq<Edit>
      reads this
    {
      if doubt.Some? && file != [] then file[..|file| - 1] else file
    }

    ghost predicate Valid()
      reads this
    {
      && Sound(Committed(), current, logNumber, prevLogNumber, loggedSequence, loggedNext)
      && Numbered(file, logNumber, nextFile) && SameComparator(file, comparator)
      && (doubt.Some? ==> open && InDoubt(file, Committed(), current, doubt.value))
    }

    /** DBImpl::NewDB, and Recover on the manifest it makes. */
    constructor (name: Name)
      ensures Valid() && !open && doubt == None && comparator == name && file == [NewDb(name)] && nextFile == 3
      ensures current == NO_FILES && logNumber == 0
    {
      comparator, current, file, open, doubt := name, NO_FILES, [NewDb(name)], false, None;
      logNumber, prevLogNumber, nextFile, lastSequence, loggedSequence, loggedNext := 0, 0, 3, 0, 0, 2;
      new;
      NewDbDescribes(name);
    }

    /** The state after recovery from the records of a manifest; reuse says that the
        manifest is appended to. */
    constructor Reopen(records: seq<Edit>, ghost levels: Levels, r: Installed, name: Name, reuse: bool)
      requires Describes(records, levels) && Layout(records) && FirstOk(records) && SameComparator(records, name)
      requires Recovered(records, r) && Counted(records)
      ensures Valid() && open == reuse && doubt == None && comparator == name && file == records && current == levels
      ensures logNumber == r.logNumber && prevLogNumber == r.prevLogNumber && lastSequence == r.lastSequence &&
              nextFile == r.nextFile
    {
      comparator, current, file, open, doubt := name, r.levels, records, reuse, None;
      logNumber, prevLogNumber, nextFile := r.logNumber, r.prevLogNumber, r.nextFile;
      lastSequence, loggedSequence, loggedNext := r.lastSequence, r.lastSequence, r.nextFile - 1;
      new;
      assert records[..|records|] == records;
      RecoveredBelow(records, levels, |records|, r);
      RecoversPrefix(records, levels, |records|, r);
      AllRecords(records, levels);
    }

    /** A number that neither a table of the version nor its log has. */
    method NewFileNumber() returns (n: nat)
      requires Valid()
      modifies this`nextFile
      ensures Valid() && n == old(nextFile) && nextFile == n + 1
      ensures FilesNumbered(current, n) && logNumber < n
    {
      hide Sound, SameComparator, InDoubt, Counted, Below, AllBelow, FilesNumbered;
      n := nextFile;
      CommittedBelow(n);
      MoreBelow(file, n, n + 1);
      nextFile := nextFile + 1;
    }

    lemma CommittedBelow(n: nat)
      requires Valid() && AllBelow(file, n)
      ensures |current| == NUM_LEVELS && FilesNumbered(current, n)
    {
      hide DescribesLevel, Below, Layout, FirstOk, Stamped, SameComparator, InDoubt;
      LevelsBelow(Committed(), current, n);
    }

    /** Gives back the number handed out last, if nothing in the manifest has it. */
    method ReuseFileNumber(n: nat)
      requires Valid() && AllBelow(file, n) && logNumber < n
      modifies this`nextFile
      ensures Valid() && nextFile == if old(nextFile) == n + 1 then n else old(nextFile)
    {
      hide Sound, SameComparator, InDoubt, Counted, AllBelow;
      if nextFile == n + 1 { nextFile := n; }
    }

    method MarkFileNumberUsed(n: nat)
      requires Valid()
      modifies this`nextFile
      ensures Valid() && n < nextFile && old(nextFile) <= nextFile
      ensures nextFile == old(nextFile) || nextFile == n + 1
    {
      hide Sound, SameComparator, InDoubt, Counted, Below;
      if nextFile <= n { MoreBelow(file, nextFile, n + 1); }
      if nextFile <= n { nextFile := n + 1; }
    }

    method SetLastSequence(s: nat)
      requires Valid() && s >= lastSequence
      modifies this`lastSequence
      ensures Valid() && lastSequence == s
    {
      hide Sound, SameComparator, InDoubt, Numbered;
      lastSequence := s;
    }

    /** Logs the edit, with a snapshot before it if the manifest is new, and installs the
        version it makes. After a failure a new manifest is removed, but the record stays
        in an old one if it got there. */
    method LogAndApply(edit: Edit, io: Io) returns (ok: bool)
      requires Valid() && doubt == None && Legal(file, current, edit)
      requires edit.comparator.Some? ==> edit.comparator.value == comparator
      requires (edit.logNumber.Some? ==> logNumber <= edit.logNumber.value) && Below(edit, nextFile)
      modifies this
      ensures Valid() && lastSequence == old(lastSequence) && nextFile == old(nextFile)
      ensures ok <==> Succeeds(old(open), io)
      ensures |current| == NUM_LEVELS == |old(current)|
      ensures ok ==> forall l :: 0 <= l < NUM_LEVELS ==> current[l] == LiveStep(old(current)[l], edit.levels[l])
      ensures var filled := Filled(edit, old(logNumber), old(prevLogNumber), nextFile, lastSequence);
              && (ok ==> file == (if old(open) then old(file) else [Snapshot(comparator, old(current))]) + [filled])
              && (ok ==> open && doubt == None && loggedSequence == lastSequence && loggedNext == nextFile)
              && (!ok ==> current == old(current) && open == old(open) && loggedSequence == old(loggedSequence))
              && (!ok ==> loggedNext == old(loggedNext))
              && (!ok ==> logNumber == old(logNumber) && prevLogNumber == old(prevLogNumber))
              && (!ok ==> doubt == if Lingers(old(open), io) then Some(filled) else None)
              && (!ok ==> file == if Lingers(old(open), io) then old(file) + [filled] else old(file))
      ensures ok ==> logNumber == Or(edit.logNumber, old(logNumber)) &&
                     prevLogNumber == Or(edit.prevLogNumber, old(prevLogNumber))
    {
      hide Sound, Numbered, InDoubt, Legal, LiveStep, SameComparator, Below, Snapshot;
      SoundOk(file, current, logNumber, prevLogNumber, loggedSequence, loggedNext);
      var filled := Filled(edit, logNumber, prevLogNumber, nextFile, lastSequence);
      ghost var before := if open then file else [Snapshot(comparator, current)];
      FilledBelow(edit, logNumber, prevLogNumber, nextFile, lastSequence, file);
      var v := Prepare(edit, filled);
      var log;
      ok, log := WriteManifest(open, file, Snapshot(comparator, current), filled, io);
      if ok {
        Install(v, log, filled.logNumber.value, filled.prevLogNumber.value);
      } else if open && |log| > |file| {
        LegalFilled(file, current, edit, filled);
        Suspect(filled, log);
      }
    }

    method Install(v: Levels, log: seq<Edit>, number: nat, prevNumber: nat)
      requires Sound(log, v, number, prevNumber, lastSequence, nextFile) && Numbered(log, number, nextFile)
      requires SameComparator(log, comparator) && doubt == None
      modifies this`current, this`file, this`open, this`logNumber, this`prevLogNumber
      modifies this`loggedSequence, this`loggedNext
      ensures Valid() && current == v && file == log && open && logNumber == number && prevLogNumber == prevNumber
      ensures loggedSequence == lastSequence && loggedNext == nextFile
    {
      hide Sound, Numbered, SameComparator;
      file, open, current, logNumber, prevLogNumber := log, true, v, number, prevNumber;
      loggedSequence, loggedNext := lastSequence, nextFile;
    }

    /** The record has reached the manifest, but its version is not installed. */
    method Suspect(filled: Edit, log: seq<Edit>)
      requires Valid() && doubt == None && open && log == file + [filled] && InDoubt(log, file, current, filled)
      requires filled.nextFile == Some(nextFile) && Below(filled, nextFile)
      requires filled.comparator.Some? ==> filled.comparator.value == comparator
      modifies this`doubt, this`file
      ensures Valid() && doubt == Some(filled) && file == log
    {
      hide Sound, Numbered, InDoubt, SameComparator, Below;
      NumberedMore(file, logNumber, filled, nextFile);
      KeepsComparator(file, filled, comparator);
      assert log[..|log| - 1] == file;
      doubt, file := Some(filled), log;
    }

    /** The version the edit makes, and why the manifest with its record describes it. */
    method Prepare(edit: Edit, filled: Edit) returns (v: Levels)
      requires Valid() && doubt == None && Legal(file, current, edit) && Stamp(filled) && filled.levels == edit.levels
      requires filled.comparator == edit.comparator && (edit.comparator.Some? ==> edit.comparator.value == comparator)
      requires filled.nextFile == Some(nextFile) && Below(filled, nextFile)
      ensures |v| == NUM_LEVELS == |current| && forall l :: 0 <= l < NUM_LEVELS ==>
              v[l] == LiveStep(current[l], edit.levels[l])
      ensures var after := (if open then file else [Snapshot(comparator, current)]) + [filled];
              && Sound(after, v, filled.logNumber.value, filled.prevLogNumber.value, filled.lastSequence.value,
                       nextFile)
              && Numbered(after, filled.logNumber.value, nextFile) && SameComparator(after, comparator)
    {
      LogBelow(filled, nextFile);
      hide Below, Counted, AllBelow, Identified, Fresh, DescribesLevel, LiveStep, Snapshot;
      LegalAfterSnapshot(file, current, comparator, edit);
      forall l | 0 <= l < NUM_LEVELS ensures Ordered(current[l]) {
        DescribedFiles(EditsOf(file, l), current[l]);
      }
      v := SaveVersion(current, edit);
      ghost var before := if open then file else [Snapshot(comparator, current)];
      Extends(before, current, edit, filled, v);
      SnapshotFirst(comparator, current);
      SnapshotCounted(file, current, comparator, nextFile);
      CountedMore(before, filled, nextFile);
      KeepsComparator(before, filled, comparator);
      Stamps(before, filled);
      assert before[0] == (before + [filled])[0];
    }

    /** Recovery gives back the live levels and numbers, except that a record in doubt
        counts as if its edit had been installed: the two differ exactly if there is such
        a record and its edit changes something. */
    lemma RecoverEqualsLive(r: Installed)
      requires Valid() && RecordsOk(file) && Recovered(file, r)
      ensures Complete(file)
      ensures doubt == None ==> SameState(r)
      ensures doubt.Some? ==> |doubt.value.levels| == NUM_LEVELS == |r.levels|
      ensures doubt.Some? ==> forall l :: 0 <= l < NUM_LEVELS ==>
              r.levels[l] == LiveStep(current[l], doubt.value.levels[l])
      ensures doubt.Some? ==> doubt.value.logNumber == Some(r.logNumber) &&
                              doubt.value.prevLogNumber == Some(r.prevLogNumber)
                              && doubt.value.lastSequence == Some(r.lastSequence)
                              && doubt.value.nextFile == Some(r.nextFile - 1)
      ensures SameState(r) <==> doubt == None ||
                                !Changes(current, logNumber, prevLogNumber, loggedSequence, loggedNext, doubt.value)
      ensures r.nextFile > 0 && FilesNumbered(r.levels, r.nextFile - 1) && r.logNumber < r.nextFile - 1
    {
      hide Describes, Legal, LiveStep, Identified, Fresh, Alters, Counted, Below, AllBelow;
      var sure := Committed();
      assert file[..|file|] == file;
      if doubt == None {
        RecoversPrefix(file, current, |file|, r);
        RecoveredBelow(file, current, |file|, r);
        AllRecords(file, current);
      } else {
        var e := doubt.value;
        AfterDoubt(sure, current, e);
        var next := Stepped(current, e);
        RecoversPrefix(file, next, |file|, r);
        RecoveredBelow(file, next, |file|, r);
        AllRecords(file, next);
        Stamps(sure, e);
        StepChanges(sure, current, e);
      }
    }

    ghost predicate SameState(r: Installed)
      reads this
    {
      r.levels == current && r.logNumber == logNumber && r.prevLogNumber == prevLogNumber &&
      r.lastSequence == loggedSequence && r.nextFile == loggedNext + 1
    }
  }

  /** The record of DBImpl::NewDB. */
  function NewDb(name: Name): Edit
  {
    Edit(Some(name), Some(0), None, Some(2), Some(0), seq(NUM_LEVELS, l => LevelEdit({}, [])))
  }

  lemma NewDbDescribes(name: Name)
    ensures Describes([NewDb(name)], NO_FILES) && Layout([NewDb(name)]) && FirstOk([NewDb(name)])
    ensures SameComparator([NewDb(name)], name) && Stamped([NewDb(name)], 0, 0, 0, 2)
    ensures Counted([NewDb(name)]) && AllBelow([NewDb(name)], 3)
  {
    var records := [NewDb(name)];
    assert records[..0] == [];
    forall l | 0 <= l < NUM_LEVELS ensures DescribesLevel(EditsOf(records, l), []) {
      var e := LevelEdit({}, []);
      assert EditsOf(records, l) == [e];
      assert [e][..0] == [];
      assert Live([], [e]) == LiveStep([], e);
    }
  }

  /** The first record has all the numbers or none. */
  ghost predicate FirstOk(records: seq<Edit>)
  {
    records != [] && (HasNumbers(records[0]) ||
                      (records[0].logNumber.None? && records[0].nextFile.None? && records[0].lastSequence.None?))
  }

  lemma SnapshotFirst(name: Name, levels: Levels)
    requires |levels| == NUM_LEVELS
    ensures FirstOk([Snapshot(name, levels)]) && SameComparator([Snapshot(name, levels)], name)
  {
  }

  /** All that LogAndApply fills in. */
  predicate Stamp(e: Edit)
  {
    HasNumbers(e) && e.prevLogNumber.Some?
  }

  /** The latest numbers; a missing previous log number is zero. */
  ghost predicate Stamped(records: seq<Edit>, logNumber: nat, prevLogNumber: nat, lastSequence: nat, nextFile: nat)
  {
    && Latest(records, LogNumber) == Some(logNumber) && OrZero(Latest(records, PrevLogNumber)) == prevLogNumber
    && Latest(records, LastSequence) == Some(lastSequence) && Latest(records, NextFile) == Some(nextFile)
  }

  lemma Stamps(records: seq<Edit>, e: Edit)
    requires Stamp(e)
    ensures Stamped(records + [e], e.logNumber.value, e.prevLogNumber.value, e.lastSequence.value, e.nextFile.value)
  {
  }

  lemma KeepsComparator(records: seq<Edit>, e: Edit, name: Name)
    requires SameComparator(records, name) && (e.comparator.Some? ==> e.comparator.value == name)
    ensures SameComparator(records + [e], name)
  {
  }

  lemma SoundOk(records: seq<Edit>, levels: Levels, logNumber: nat, prevLogNumber: nat, lastSequence: nat,
                nextFile: nat)
    requires Sound(records, levels, logNumber, prevLogNumber, lastSequence, nextFile)
    ensures RecordsOk(records) && |levels| == NUM_LEVELS
  {
  }

  lemma NumberedMore(records: seq<Edit>, logNumber: nat, e: Edit, nextFile: nat)
    requires Numbered(records, logNumber, nextFile) && e.nextFile == Some(nextFile) && Below(e, nextFile)
    ensures Numbered(records + [e], logNumber, nextFile)
  {
    hide Counted, AllBelow, Below;
    CountedMore(records, e, nextFile);
  }

  lemma LegalFilled(records: seq<Edit>, levels: Levels, edit: Edit, filled: Edit)
    requires RecordsOk(records) && |levels| == NUM_LEVELS && Legal(records, levels, edit) &&
             filled.levels == edit.levels
    ensures Legal(records, levels, filled) && (Stamp(filled) ==> InDoubt(records + [filled], records, levels, filled))
  {
  }

  lemma Extends(records: seq<Edit>, levels: Levels, edit: Edit, filled: Edit, v: Levels)
    requires Describes(records, levels) && EditOk(edit) && filled.levels == edit.levels && |v| == NUM_LEVELS
    requires forall l :: 0 <= l < NUM_LEVELS ==>
             Identified(EditsOf(records, l) + [edit.levels[l]]) && Fresh(levels[l], edit.levels[l])
    requires forall l :: 0 <= l < NUM_LEVELS ==> v[l] == LiveStep(levels[l], edit.levels[l])
    ensures Describes(records + [filled], v)
  {
    hide Identified, Fresh, LiveStep, DescribesLevel;
    forall l | 0 <= l < NUM_LEVELS
      ensures RecordsOk(records + [filled]) && DescribesLevel(EditsOf(records + [filled], l), v[l])
    {
      EditsSnoc(records, filled, l);
      DescribesMore(EditsOf(records, l), levels[l], edit.levels[l]);
    }
  }

  /** One builder, one edit: Apply, then SaveTo, level by level. */
  method SaveVersion(levels: Levels, edit: Edit) returns (v: Levels)
    requires |levels| == NUM_LEVELS && EditOk(edit) && forall l :: 0 <= l < NUM_LEVELS ==> Ordered(levels[l])
    ensures |v| == NUM_LEVELS && forall l :: 0 <= l < NUM_LEVELS ==> v[l] == LiveStep(levels[l], edit.levels[l])
  {
    hide Apply;
    v := [];
    for l := 0 to NUM_LEVELS
      invariant |v| == l && forall m :: 0 <= m < l ==> v[m] == LiveStep(levels[m], edit.levels[m])
    {
      var saved := SaveLevel(levels[l], Apply(LevelState({}, []), edit.levels[l]));
      v := v + [saved];
    }
  }

  // ---- A record in doubt -------------------------------------------------------------------------

  /** The edit adds a file to the level or removes one of its files. */
  ghost predicate Alters(files: seq<File>, e: LevelEdit)
  {
    e.added != [] || exists f :: f in files && f.number in e.deleted
  }

  /** The edit changes a level or one of the recovered numbers. */
  ghost predicate Changes(levels: Levels, logNumber: nat, prevLogNumber: nat, lastSequence: nat, nextFile: nat, e: Edit)
    requires |levels| == NUM_LEVELS && EditOk(e)
  {
    || (exists l :: 0 <= l < NUM_LEVELS && Alters(levels[l], e.levels[l]))
    || e.logNumber != Some(logNumber) || e.prevLogNumber != Some(prevLogNumber) || e.lastSequence != Some(lastSequence)
    || e.nextFile != Some(nextFile)
  }

  ghost function Stepped(levels: Levels, e: Edit): (r: Levels)
    requires |levels| == NUM_LEVELS && EditOk(e)
    ensures |r| == NUM_LEVELS && forall l :: 0 <= l < NUM_LEVELS ==> r[l] == LiveStep(levels[l], e.levels[l])
  {
    seq(NUM_LEVELS, l requires 0 <= l < NUM_LEVELS => LiveStep(levels[l], e.levels[l]))
  }

  lemma AfterDoubt(records: seq<Edit>, levels: Levels, e: Edit)
    requires Describes(records, levels) && Legal(records, levels, e)
    ensures EditOk(e) && Describes(records + [e], Stepped(levels, e))
  {
    Extends(records, levels, e, e, Stepped(levels, e));
  }

  /** A level stays as it is exactly if the edit neither adds to it nor removes from it. */
  lemma LevelChanges(edits: seq<LevelEdit>, files: seq<File>, e: LevelEdit)
    requires DescribesLevel(edits, files) && Identified(edits + [e]) && Fresh(files, e)
    ensures LiveStep(files, e) != files <==> Alters(files, e)
  {
    hide LiveStep, NeverReadded, Live;
    IdentifiedAgain(edits, files, e);
    LiveStepMembers(files, e);
    var after := LiveStep(files, e);
    if e.added != [] {
      assert e.added[0] in after && e.added[0] !in files;
    } else if f :| f in files && f.number in e.deleted {
      assert f !in after;
    } else {
      OrderedUnique(after, files);
    }
  }

  lemma StepChanges(records: seq<Edit>, levels: Levels, e: Edit)
    requires Describes(records, levels) && Legal(records, levels, e)
    ensures EditOk(e) && (Stepped(levels, e) != levels <==>
                          exists l :: 0 <= l < NUM_LEVELS && Alters(levels[l], e.levels[l]))
  {
    hide LiveStep, Alters, DescribesLevel, Identified, Fresh;
    forall l | 0 <= l < NUM_LEVELS ensures Stepped(levels, e)[l] != levels[l] <==> Alters(levels[l], e.levels[l]) {
      LevelChanges(EditsOf(records, l), levels[l], e.levels[l]);
    }
  }

  /** The background work of a database: every job changes the version set by one edit,
      and none starts after a background error. */
  class Database {
    const versions: VersionSet
    /** bg_error_ is set. */
    var bgError: bool

    ghost predicate Valid()
      reads this, versions
    {
      versions.Valid() && (versions.doubt.Some? ==> bgError)
    }

    constructor (versions: VersionSet)
      requires versions.Valid() && versions.doubt == None
      ensures Valid() && this.versions == versions && !bgError
    {
      this.versions, bgError := versions, false;
    }

    /** BackgroundCall with its checks, and RecordBackgroundError after a failed
        LogAndApply. */
    method BackgroundCall(edit: Edit, io: Io) returns (ok: bool)
      requires Valid() && (!bgError ==> Legal(versions.file, versions.current, edit))
      requires edit.comparator == None && Below(edit, versions.nextFile)
      requires edit.logNumber.Some? ==> versions.logNumber <= edit.logNumber.value
      modifies this, versions
      ensures Valid() && (ok <==> !old(bgError) && Succeeds(old(versions.open), io)) && (bgError <==> !ok)
      ensures old(bgError) ==> unchanged(versions)
      ensures !ok ==> versions.current == old(versions.current)
      ensures ok ==> versions.doubt == None
      ensures versions.doubt != old(versions.doubt) ==> old(versions.doubt) == None && Lingers(old(versions.open), io)
    {
      if bgError { return false; }
      hide Describes, Stamped, SameComparator, Layout, FirstOk, Counted, AllBelow, Below;
      ok := versions.LogAndApply(edit, io);
      if !ok { bgError := true; }
    }
  }

  const NO_FILES: Levels := [[], [], [], [], [], [], []]

  function NoChange(): Edit
  {
    Edit(None, None, None, None, None, seq(NUM_LEVELS, l => LevelEdit({}, [])))
  }

  function FlushOf(f: File): Edit
  {
    NoChange().(levels := NoChange().levels[0 := LevelEdit({}, [f])])
  }

  /** A new database whose first call has made a new manifest. */
  method OpenedDatabase(f: File) returns (versions: VersionSet)
    ensures versions.Valid() && versions.open && versions.doubt == None && versions.current == NO_FILES &&
            fresh(versions)
    ensures RecordsOk(versions.file) && Legal(versions.file, NO_FILES, FlushOf(f)) && f.number < versions.nextFile
  {
    hide Sound, Numbered, InDoubt, SameComparator, Legal, LiveStep, Below;
    versions := new VersionSet([]);
    versions.MarkFileNumberUsed(f.number);
    LegalOnEmpty(versions.file, NoChange(), f);
    NoNumbers(versions.nextFile);
    var ok := versions.LogAndApply(NoChange(), GOOD);
    NothingAdded(versions.current);
    LegalOnEmpty(versions.file, FlushOf(f), f);
  }

  /** The failing run: the record of a new table is appended to an open manifest and the
      sync fails. The table is not in the live version, but recovery finds it. */
  method FailedSync(f: File) returns (versions: VersionSet)
    ensures versions.Valid() && versions.doubt.Some? && versions.current == NO_FILES && RecordsOk(versions.file)
    ensures forall r :: Recovered(versions.file, r) ==>
            |r.levels| == NUM_LEVELS && r.levels[0] == [f] && !versions.SameState(r)
  {
    hide Describes, Stamped, SameComparator, Layout, FirstOk, Legal, LiveStep, Recovered, Changes, Counted, AllBelow;
    versions := OpenedDatabase(f);
    var ok := versions.LogAndApply(FlushOf(f), GOOD.(synced := false));
    OneFile(f);
    forall r | Recovered(versions.file, r) ensures |r.levels| == NUM_LEVELS && r.levels[0] == [f] {
      versions.RecoverEqualsLive(r);
    }
  }

  lemma LegalOnEmpty(records: seq<Edit>, e: Edit, f: File)
    requires RecordsOk(records) && EditOk(e)
    requires forall i, l :: 0 <= i < |records| && 0 <= l < NUM_LEVELS ==> records[i].levels[l].added == []
    requires forall l :: 0 <= l < NUM_LEVELS ==> e.levels[l].added == [] || e.levels[l].added == [f]
    ensures Legal(records, NO_FILES, e)
  {
  }

  lemma NothingAdded(levels: Levels)
    requires |levels| == NUM_LEVELS
    requires forall l :: 0 <= l < NUM_LEVELS ==> levels[l] == LiveStep(NO_FILES[l], NoChange().levels[l])
    ensures levels == NO_FILES
  {
    assert LiveStep([], LevelEdit({}, [])) == [];
  }

  lemma NoNumbers(n: nat)
    ensures Below(NoChange(), n)
  {
  }

  lemma OneFile(f: File)
    ensures LiveStep([], LevelEdit({}, [f])) == [f]
  {
    var e := LevelEdit({}, [f]);
    LiveStepMembers([], e);
    OrderedUnique(LiveStep([], e), [f]);
  }
}
