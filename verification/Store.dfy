/**
 The store as a state machine: writes, memtable switches, flushes, trivial
 moves, merge compactions and snapshots in any order.  Every read at a live
 snapshot returns what the write history says (db/db_impl.cc, db/snapshot.h).
 */
module Store {
  import opened Keys
  import opened Versions
  import opened InputSelection
  import opened Builder
  import opened DropRules
  import opened CompactionSteps
  import Lookup

  /** One Put or Delete. */
  datatype Op = Op(key: UserKey, kind: Kind, value: Value)

  /** history[i] is the operation with sequence number i + 1, so LastSequence is
      |history|.  snapshots is the SnapshotList, oldest first. */
  datatype State = State(history: seq<Op>, mem: seq<Entry>, imm: Option<seq<Entry>>, version: Version,
                         nextFile: nat, snapshots: seq<SeqNum>)

  /** What the history says about k just after its first s operations. */
  function ValueAt(history: seq<Op>, k: UserKey, s: nat): (v: Option<Value>)
    requires s <= |history|
  {
    if s == 0 then None
    else if history[s - 1].key == k then
      if history[s - 1].kind.Put? then Some(history[s - 1].value) else None
    else ValueAt(history, k, s - 1)
  }

  /** The memtable entry of an operation (MemTableInserter). */
  function OpEntry(op: Op, sn: SeqNum): (e: Entry)
  {
    Entry(IKey(op.key, sn, op.kind), if op.kind.Put? then op.value else "")
  }

  /** The entries of a batch whose first operation gets sequence start + 1. */
  ghost function BatchEntries(ops: seq<Op>, start: nat): set<Entry>
    requires start + |ops| < MAX_SEQUENCE
  {
    set i | 0 <= i < |ops| :: OpEntry(ops[i], start + i + 1)
  }

  ghost function ImmEntries(st: State): set<Entry>
  {
    if st.imm.Some? then Elements(st.imm.value) else {}
  }

  ghost function Above(st: State): set<Entry>
  {
    Elements(st.mem) + ImmEntries(st)
  }

  ghost function All(st: State): set<Entry>
  {
    Above(st) + AllEntries(st.version)
  }

  /** DoCompactionWork's smallest_snapshot. */
  function SmallestSnapshot(st: State): (s: nat)
  {
    if st.snapshots == [] then |st.history| else st.snapshots[0]
  }

  /** The reads of all snapshots from lo on agree with the history. */
  ghost predicate Reads(es: set<Entry>, history: seq<Op>, lo: nat)
    requires |history| < MAX_SEQUENCE
  {
    forall k: UserKey, s: SeqNum :: lo <= s <= |history| ==> Visible(es, k, s) == ValueAt(history, k, s)
  }

  // ---- Steps ----------------------------------------------------------------

  datatype Step =
    | Write(ops: seq<Op>)
    | SwitchMemTable
    | FlushEmpty
    | Flush(level: nat, f: File)
    | TakeSnapshot
    | ReleaseSnapshot(i: nat)
    | Move(level: nat, f: File)
    | Compact(level: nat, in0: seq<File>, in1: seq<File>, m: seq<Entry>, outputs: seq<File>)

  ghost predicate Next(st: State, step: Step, st': State)
  {
    match step
    case Write(ops) =>
      && |st.history| + |ops| < MAX_SEQUENCE
      && Sorted(st'.mem) && Elements(st'.mem) == Elements(st.mem) + BatchEntries(ops, |st.history|)
      && st' == st.(history := st.history + ops, mem := st'.mem)
    case SwitchMemTable =>
      st.imm.None? && st' == st.(imm := Some(st.mem), mem := [])
    case FlushEmpty =>
      st.imm == Some([]) && st' == st.(imm := None)
    case Flush(level, f) =>
      && st.imm == Some(f.entries) && f.number == st.nextFile
      && level <= MAX_MEM_COMPACT_LEVEL
      && (level > 0 ==> forall l :: 0 <= l <= level ==> Clear(st.version[l], f.Smallest().user, f.Largest().user))
      && st' == st.(imm := None, version := Install(st.version, FlushEdit(level, f)), nextFile := st.nextFile + 1)
    case TakeSnapshot =>
      |st.history| < MAX_SEQUENCE && st' == st.(snapshots := st.snapshots + [|st.history|])
    case ReleaseSnapshot(i) =>
      i < |st.snapshots| && st' == st.(snapshots := st.snapshots[..i] + st.snapshots[i + 1..])
    case Move(level, f) =>
      && level + 1 < NUM_LEVELS && InputsOk(st.version[level], st.version[level + 1], level == 0, [f], [])
      && st' == st.(version := Install(st.version, CompactionEdit(level, [f], [], [f])))
    case Compact(level, in0, in1, m, outputs) =>
      && level + 1 < NUM_LEVELS && InputsOk(st.version[level], st.version[level + 1], level == 0, in0, in1)
      && |st.history| < MAX_SEQUENCE && SmallestSnapshot(st) < MAX_SEQUENCE
      && Sorted(m) && Elements(m) == Entries(in0) + Entries(in1)
      && SortedDisjoint(outputs)
      && Entries(outputs) == Elements(Kept(m, |m|, SmallestSnapshot(st), BaseOf(st.version, level)))
      && NumberDetermines(outputs, []) && (forall o :: o in outputs ==> st.nextFile <= o.number < st'.nextFile)
      && st.nextFile <= st'.nextFile
      && st' == st.(version := Install(st.version, CompactionEdit(level, in0, in1, outputs)), nextFile := st'.nextFile)
  }

  ghost predicate Init(st: State)
  {
    st.history == [] && st.mem == [] && st.imm == None && st.version == [[], [], [], [], [], [], []] &&
        st.snapshots == []
  }

  // ---- The invariant ----------------------------------------------------------

  ghost predicate Bounded(es: set<Entry>, last: nat)
  {
    forall e :: e in es ==> e.ikey.sn <= last
  }

  ghost predicate SnapshotsOrdered(snapshots: seq<SeqNum>, last: nat)
  {
    (forall i :: 0 <= i < |snapshots| ==> snapshots[i] <= last) &&
    (forall i, j :: 0 <= i < j < |snapshots| ==> snapshots[i] <= snapshots[j])
  }

  ghost predicate Inv(st: State)
  {
    && |st.history| < MAX_SEQUENCE
    && Sorted(st.mem) && (st.imm.Some? ==> Sorted(st.imm.value))
    && Shape(st.version) && FilesNumbered(st.version, st.nextFile)
    && Newer(Elements(st.mem), ImmEntries(st)) && Newer(Above(st), AllEntries(st.version))
    && Distinct(All(st)) && Bounded(All(st), |st.history|)
    && SnapshotsOrdered(st.snapshots, |st.history|)
    && Reads(All(st), st.history, SmallestSnapshot(st))
  }

  // ---- Writes ------------------------------------------------------------------

  lemma {:induction false} ValueAtPrefix(history: seq<Op>, more: seq<Op>, k: UserKey, s: nat)
    requires s <= |history|
    ensures ValueAt(history + more, k, s) == ValueAt(history, k, s)
  {
    if s > 0 { ValueAtPrefix(history, more, k, s - 1); }
  }

  /** Entries newer than s do not change what s sees. */
  lemma NewerInvisible(es: set<Entry>, e: Entry, k: UserKey, s: SeqNum)
    requires Distinct(es + {e}) && e.ikey.sn > s
    ensures Visible(es + {e}, k, s) == Visible(es, k, s)
  {
    match Newest(es, k, s)
    case None => NoneVisible(es + {e}, k, s);
    case Some(d) =>
      assert IsNewest(es + {e}, k, s, d);
      NewestUnique(es + {e}, k, s, d);
  }

  /** At or past the last sequence, reads do not depend on the snapshot. */
  lemma PastLastSame(es: set<Entry>, k: UserKey, last: SeqNum, s: SeqNum)
    requires Distinct(es) && Bounded(es, last) && last <= s
    ensures Visible(es, k, s) == Visible(es, k, last)
  {
    match Newest(es, k, s)
    case None => NoneVisible(es, k, last);
    case Some(d) =>
      assert IsNewest(es, k, last, d);
      NewestUnique(es, k, last, d);
  }

  lemma WriteOne(es: set<Entry>, history: seq<Op>, op: Op, lo: nat)
    requires |history| + 1 < MAX_SEQUENCE && lo <= |history|
    requires Distinct(es) && Bounded(es, |history|) && Reads(es, history, lo)
    ensures var e := OpEntry(op, |history| + 1);
            && Distinct(es + {e}) && Bounded(es + {e}, |history| + 1)
            && Reads(es + {e}, history + [op], lo)
  {
    var sn: SeqNum := |history| + 1;
    var e := OpEntry(op, sn);
    var es' := es + {e};
    assert Distinct(es');
    forall k: UserKey, s: SeqNum | lo <= s <= sn ensures Visible(es', k, s) == ValueAt(history + [op], k, s) {
      if s <= |history| {
        NewerInvisible(es, e, k, s);
        ValueAtPrefix(history, [op], k, s);
      } else if op.key == k {
        assert IsNewest(es', k, s, e);
        NewestUnique(es', k, s, e);
      } else {
        WriteOther(es, e, k, s);
        PastLastSame(es, k, |history|, s);
        ValueAtPrefix(history, [op], k, |history|);
      }
    }
  }

  lemma WriteOther(es: set<Entry>, e: Entry, k: UserKey, s: SeqNum)
    requires Distinct(es + {e}) && e.ikey.user != k
    ensures Visible(es + {e}, k, s) == Visible(es, k, s)
  {
    match Newest(es, k, s)
    case None => NoneVisible(es + {e}, k, s);
    case Some(d) =>
      assert IsNewest(es + {e}, k, s, d);
      NewestUnique(es + {e}, k, s, d);
  }

  lemma BatchSnoc(ops: seq<Op>, start: nat)
    requires start + |ops| < MAX_SEQUENCE && ops != []
    ensures var n := |ops| - 1;
            BatchEntries(ops, start) == BatchEntries(ops[..n], start) + {OpEntry(ops[n], start + n + 1)}
  {
    var n := |ops| - 1;
    forall e | e in BatchEntries(ops, start)
      ensures e in BatchEntries(ops[..n], start) + {OpEntry(ops[n], start + n + 1)}
    {
      var i :| 0 <= i < |ops| && e == OpEntry(ops[i], start + i + 1);
      if i < n { assert ops[..n][i] == ops[i]; }
    }
    forall e | e in BatchEntries(ops[..n], start) ensures e in BatchEntries(ops, start) {
      var i :| 0 <= i < n && e == OpEntry(ops[..n][i], start + i + 1);
      assert ops[i] == ops[..n][i];
    }
  }

  /** A batch extends every read by exactly its operations. */
  lemma {:induction false} WriteBatch(es: set<Entry>, history: seq<Op>, ops: seq<Op>, lo: nat)
    requires |history| + |ops| < MAX_SEQUENCE && lo <= |history|
    requires Distinct(es) && Bounded(es, |history|) && Reads(es, history, lo)
    ensures var es' := es + BatchEntries(ops, |history|);
            Distinct(es') && Bounded(es', |history| + |ops|) && Reads(es', history + ops, lo)
  {
    if ops == [] {
      assert es + BatchEntries(ops, |history|) == es;
      assert history + ops == history;
    } else {
      var n := |ops| - 1;
      WriteBatch(es, history, ops[..n], lo);
      BatchSnoc(ops, |history|);
      var es0 := es + BatchEntries(ops[..n], |history|);
      WriteOne(es0, history + ops[..n], ops[n], lo);
      assert history + ops[..n] + [ops[n]] == history + ops;
      assert es0 + {OpEntry(ops[n], |history| + n + 1)} == es + BatchEntries(ops, |history|);
    }
  }

  // ---- Every step keeps the invariant -------------------------------------------

  lemma WriteKeepsInv(st: State, ops: seq<Op>, st': State)
    requires Inv(st) && Next(st, Write(ops), st')
    ensures Inv(st')
  {
    var batch := BatchEntries(ops, |st.history|);
    WriteBatch(All(st), st.history, ops, SmallestSnapshot(st));
    assert Above(st') == Above(st) + batch;
    assert All(st') == All(st) + batch;
    assert forall e :: e in batch ==> e.ikey.sn > |st.history|;
    assert ImmEntries(st') == ImmEntries(st);
    assert ImmEntries(st) <= All(st) && AllEntries(st.version) <= All(st);
    assert SmallestSnapshot(st) <= SmallestSnapshot(st');
  }

  lemma SwitchKeepsInv(st: State, st': State)
    requires Inv(st) && Next(st, SwitchMemTable, st')
    ensures Inv(st')
  {
    assert Above(st') == Above(st);
  }

  lemma FlushEmptyKeepsInv(st: State, st': State)
    requires Inv(st) && Next(st, FlushEmpty, st')
    ensures Inv(st')
  {
    assert Above(st') == Above(st);
  }

  lemma FlushIsLegal(st: State, level: nat, f: File, st': State)
    requires Inv(st) && Next(st, Flush(level, f), st')
    ensures Flushes(st.version, level, f)
  {
    assert Elements(f.entries) <= Above(st);
    DistinctShrinks(Elements(f.entries) + AllEntries(st.version), All(st));
  }

  lemma FlushNumbers(v: Version, level: nat, f: File)
    requires Shape(v) && Flushes(v, level, f) && FilesNumbered(v, f.number)
    ensures FilesNumbered(Install(v, FlushEdit(level, f)), f.number + 1)
  {
    hide Shape, Install, FlushEdit, Flushes;
    FlushMembers(v, level, f);
    var v' := Install(v, FlushEdit(level, f));
    forall l, g | 0 <= l < NUM_LEVELS && g in v'[l] ensures g.number < f.number + 1 {
      assert g in v[l] || (l == level && g == f);
    }
  }

  lemma FlushKeepsInv(st: State, level: nat, f: File, st': State)
    requires Inv(st) && Next(st, Flush(level, f), st')
    ensures Inv(st')
  {
    hide Shape, Install, FlushEdit;
    FlushIsLegal(st, level, f, st');
    FlushKeepsShape(st.version, level, f);
    FlushNumbers(st.version, level, f);
    assert ImmEntries(st) == Elements(f.entries) && ImmEntries(st') == {};
    assert All(st') == All(st);
    assert Above(st') == Elements(st.mem);
  }

  lemma SnapshotKeepsInv(st: State, st': State)
    requires Inv(st) && Next(st, TakeSnapshot, st')
    ensures Inv(st')
  {
    assert Above(st') == Above(st);
    assert SmallestSnapshot(st) <= SmallestSnapshot(st');
  }

  lemma ReleaseKeepsInv(st: State, i: nat, st': State)
    requires Inv(st) && Next(st, ReleaseSnapshot(i), st')
    ensures Inv(st')
  {
    assert Above(st') == Above(st);
    assert SmallestSnapshot(st) <= SmallestSnapshot(st');
  }

  lemma MoveIsLegal(v: Version, level: nat, f: File)
    requires Shape(v) && level + 1 < NUM_LEVELS && InputsOk(v[level], v[level + 1], level == 0, [f], [])
    ensures Replaces(v, level, [f], [], [f])
  {
    InputsAreFiles(v[level], v[level + 1], level == 0, [f], []);
    assert f in [f];
  }

  lemma ReplacedNumbers(v: Version, level: nat, in0: seq<File>, in1: seq<File>, outputs: seq<File>, next: nat)
    requires Shape(v) && Replaces(v, level, in0, in1, outputs) && FilesNumbered(v, next)
    requires forall o :: o in outputs ==> o.number < next
    ensures FilesNumbered(Install(v, CompactionEdit(level, in0, in1, outputs)), next)
  {
    hide Shape, Install, CompactionEdit, Replaces;
    CompactionMembers(v, level, in0, in1, outputs);
    NumberedAfter(v, Install(v, CompactionEdit(level, in0, in1, outputs)), level, in0, in1, outputs, next);
  }

  lemma NumberedAfter(v: Version, v': Version, level: nat, in0: seq<File>, in1: seq<File>, outputs: seq<File>,
                      next: nat)
    requires Replaced(v, v', level, in0, in1, outputs) && FilesNumbered(v, next) && forall o :: o in outputs ==>
             o.number < next
    ensures FilesNumbered(v', next)
  {
    forall l, f | 0 <= l < NUM_LEVELS && f in v'[l] ensures f.number < next {
      assert f in v[l] || (l == level + 1 && f in outputs);
    }
  }

  lemma MoveKeepsInv(st: State, level: nat, f: File, st': State)
    requires Inv(st) && Next(st, Move(level, f), st')
    ensures Inv(st')
  {
    hide Shape, InputsOk, Install, CompactionEdit, Replaces, Reads, Distinct, Newer;
    MoveIsLegal(st.version, level, f);
    CompactionKeepsShape(st.version, level, [f], [], [f]);
    MovePreservesEntries(st.version, level, f);
    InputsAreFiles(st.version[level], st.version[level + 1], level == 0, [f], []);
    ReplacedNumbers(st.version, level, [f], [], [f], st.nextFile);
    VersionChangeKeepsInv(st, st');
  }

  lemma CompactIsLegal(st: State, level: nat, in0: seq<File>, in1: seq<File>, m: seq<Entry>, outputs: seq<File>,
                       st': State)
    requires Inv(st) && Next(st, Compact(level, in0, in1, m, outputs), st')
    ensures Replaces(st.version, level, in0, in1, outputs)
  {
    hide Shape, InputsOk, Install, CompactionEdit, Reads;
    KeptSorted(m, |m|, SmallestSnapshot(st), BaseOf(st.version, level));
    assert forall e :: e in Entries(outputs) ==> e in Elements(m);
    NewNumbers(st.version, level, in0, outputs, st.nextFile);
  }

  lemma NewNumbers(v: Version, level: nat, in0: seq<File>, outputs: seq<File>, next: nat)
    requires FilesNumbered(v, next) && NumberDetermines(outputs, []) && forall o :: o in outputs ==> next <= o.number
    ensures OutputsNumbered(v, level, in0, outputs)
  {
  }

  lemma CompactKeepsReads(v: Version, level: nat, in0: seq<File>, in1: seq<File>, m: seq<Entry>, outputs: seq<File>,
                          above: set<Entry>, history: seq<Op>, lo: SeqNum)
    requires |history| < MAX_SEQUENCE && lo < MAX_SEQUENCE
    requires Shape(v) && Replaces(v, level, in0, in1, outputs)
    requires Sorted(m) && Elements(m) == Entries(in0) + Entries(in1)
    requires Entries(outputs) == Elements(Kept(m, |m|, lo, BaseOf(v, level)))
    requires Newer(above, AllEntries(v)) && Distinct(above + AllEntries(v))
    requires Reads(above + AllEntries(v), history, lo)
    ensures Reads(above + AllEntries(Install(v, CompactionEdit(level, in0, in1, outputs))), history, lo)
  {
    hide Shape, Install, CompactionEdit, Replaces;
    var v' := Install(v, CompactionEdit(level, in0, in1, outputs));
    forall k: UserKey, s: SeqNum | lo <= s <= |history|
      ensures Visible(above + AllEntries(v'), k, s) == ValueAt(history, k, s)
    {
      CompactionPreservesReads(v, level, in0, in1, outputs, m, lo, above, k, s);
    }
  }

  lemma CompactShrinks(v: Version, level: nat, in0: seq<File>, in1: seq<File>, outputs: seq<File>)
    requires Shape(v) && Replaces(v, level, in0, in1, outputs)
    ensures AllEntries(Install(v, CompactionEdit(level, in0, in1, outputs))) <= AllEntries(v)
  {
    hide Shape, Install, CompactionEdit;
    CompactionEntries(v, level, in0, in1, outputs);
  }

  lemma CompactKeepsInv(st: State, level: nat, in0: seq<File>, in1: seq<File>, m: seq<Entry>, outputs: seq<File>,
                        st': State)
    requires Inv(st) && Next(st, Compact(level, in0, in1, m, outputs), st')
    ensures Inv(st')
  {
    hide Shape, InputsOk, Install, CompactionEdit, Replaces, Reads, Kept, SortedDisjoint, Distinct, Newer,
         FilesNumbered;
    CompactIsLegal(st, level, in0, in1, m, outputs, st');
    CompactionKeepsShape(st.version, level, in0, in1, outputs);
    CompactKeepsReads(st.version, level, in0, in1, m, outputs, Above(st), st.history, SmallestSnapshot(st));
    CompactNumbers(st, level, in0, in1, m, outputs, st');
    CompactShrinks(st.version, level, in0, in1, outputs);
    VersionChangeKeepsInv(st, st');
  }

  lemma CompactNumbers(st: State, level: nat, in0: seq<File>, in1: seq<File>, m: seq<Entry>, outputs: seq<File>,
                       st': State)
    requires Inv(st) && Next(st, Compact(level, in0, in1, m, outputs), st')
    requires Replaces(st.version, level, in0, in1, outputs)
    ensures FilesNumbered(st'.version, st'.nextFile)
  {
    hide Shape, InputsOk, Install, CompactionEdit, Replaces, Reads, Kept, SortedDisjoint, Distinct, Newer;
    ReplacedNumbers(st.version, level, in0, in1, outputs, st'.nextFile);
  }

  /** A new version that keeps the shape, drops only entries and keeps the reads. */
  lemma VersionChangeKeepsInv(st: State, st': State)
    requires Inv(st) && st' == st.(version := st'.version, nextFile := st'.nextFile)
    requires Shape(st'.version) && FilesNumbered(st'.version, st'.nextFile)
    requires AllEntries(st'.version) <= AllEntries(st.version)
    requires Reads(Above(st) + AllEntries(st'.version), st.history, SmallestSnapshot(st))
    ensures Inv(st')
  {
    hide Shape, Reads, Sorted;
    assert Above(st') == Above(st);
    DistinctShrinks(All(st'), All(st));
  }

  lemma StepKeepsInv(st: State, step: Step, st': State)
    requires Inv(st) && Next(st, step, st')
    ensures Inv(st')
  {
    match step
    case Write(ops) => WriteKeepsInv(st, ops, st');
    case SwitchMemTable => SwitchKeepsInv(st, st');
    case FlushEmpty => FlushEmptyKeepsInv(st, st');
    case Flush(level, f) => FlushKeepsInv(st, level, f, st');
    case TakeSnapshot => SnapshotKeepsInv(st, st');
    case ReleaseSnapshot(i) => ReleaseKeepsInv(st, i, st');
    case Move(level, f) => MoveKeepsInv(st, level, f, st');
    case Compact(level, in0, in1, m, outputs) => CompactKeepsInv(st, level, in0, in1, m, outputs, st');
  }

  // ---- Runs --------------------------------------------------------------------------

  ghost predicate IsRun(states: seq<State>, steps: seq<Step>)
  {
    && |states| == |steps| + 1 && Init(states[0])
    && forall i :: 0 <= i < |steps| ==> Next(states[i], steps[i], states[i + 1])
  }

  lemma InitInv(st: State)
    requires Init(st)
    ensures Inv(st)
  {
    EmptyVersion(st.version);
    hide Shape;
    assert All(st) == {};
    forall k: UserKey, s: SeqNum | s == 0 ensures Visible(All(st), k, s) == ValueAt(st.history, k, s) {
      NoneVisible(All(st), k, s);
    }
  }

  lemma EmptyVersion(v: Version)
    requires v == [[], [], [], [], [], [], []]
    ensures AllEntries(v) == {} && Shape(v) && FilesNumbered(v, 0)
  {
    assert forall l :: 0 <= l < NUM_LEVELS ==> v[l] == [];
    assert forall l :: 0 <= l < NUM_LEVELS ==> Entries(v[l]) == {};
  }

  /** Every run keeps the level shape and the reads of its live snapshots. */
  lemma {:induction false} RunKeepsInv(states: seq<State>, steps: seq<Step>, n: nat)
    requires IsRun(states, steps) && n < |states|
    ensures Inv(states[n])
  {
    if n == 0 {
      InitInv(states[0]);
    } else {
      RunKeepsInv(states, steps, n - 1);
      StepKeepsInv(states[n - 1], steps[n - 1], states[n]);
    }
  }

  lemma {:induction false} HistoryGrows(states: seq<State>, steps: seq<Step>, i: nat, j: nat)
    requires IsRun(states, steps) && i <= j < |states|
    ensures states[i].history <= states[j].history
  {
    if i < j {
      HistoryGrows(states, steps, i, j - 1);
      assert Next(states[j - 1], steps[j - 1], states[j]);
    }
  }

  /** A client may read at the snapshots it holds and at the last sequence. */
  predicate Readable(st: State, s: nat)
  {
    s in st.snapshots || s == |st.history|
  }

  /** The oldest of these. */
  ghost predicate IsOldest(st: State, s: nat)
  {
    Readable(st, s) && forall x :: x in st.snapshots ==> s <= x
  }

  /** What compactions spare begins with the oldest sequence a client may read at. */
  lemma SparesOldest(st: State, s: nat)
    requires Inv(st)
    ensures IsOldest(st, s) <==> s == SmallestSnapshot(st)
    ensures Readable(st, s) ==> SmallestSnapshot(st) <= s <= |st.history|
  {
    hide Shape, FilesNumbered, Newer, Distinct, Reads, Sorted;
    assert st.snapshots != [] ==> st.snapshots[0] in st.snapshots;
  }

  /** In every state of every run, each snapshot held and the last sequence read what the
      history says. */
  lemma HeldReads(states: seq<State>, steps: seq<Step>, n: nat, k: UserKey, s: SeqNum)
    requires IsRun(states, steps) && n < |states| && Readable(states[n], s)
    ensures s <= |states[n].history| && Visible(All(states[n]), k, s) == ValueAt(states[n].history, k, s)
  {
    hide Next;
    RunKeepsInv(states, steps, n);
    SparesOldest(states[n], s);
  }

  /** A compaction writes exactly these of its inputs: those without a newer entry of their
      user key that every snapshot held sees, and that are not deletions seen by every
      snapshot with nothing of their user key in deeper levels. */
  lemma CompactWrites(st: State, level: nat, in0: seq<File>, in1: seq<File>, m: seq<Entry>, outputs: seq<File>,
                      st': State, e: Entry)
    requires Inv(st) && Next(st, Compact(level, in0, in1, m, outputs), st')
    ensures e in Entries(outputs) <==>
              && e in Entries(in0) + Entries(in1)
              && !(exists d :: d in Entries(in0) + Entries(in1) && d.ikey.user == e.ikey.user
                               && e.ikey.sn < d.ikey.sn && forall x :: x in st.snapshots ==> d.ikey.sn <= x)
              && !(e.ikey.kind.Deletion? && (forall x :: x in st.snapshots ==> e.ikey.sn <= x)
                   && BaseLevel(st.version, level, e.ikey.user))
  {
    hide Shape, Install, CompactionEdit, Reads, Kept, SortedDisjoint, Distinct, Newer, FilesNumbered, Sorted, InputsOk;
    var lo := SmallestSnapshot(st);
    SparesOldest(st, lo);
    InputsBounded(st, level, in0, in1, m);
    forall d | d in m ensures d.ikey.sn <= lo <==> forall x :: x in st.snapshots ==> d.ikey.sn <= x {
    }
    KeptExactly(m, lo, BaseOf(st.version, level), e);
    assert forall d :: d in m <==> d in Elements(m);
  }

  lemma InputsBounded(st: State, level: nat, in0: seq<File>, in1: seq<File>, m: seq<Entry>)
    requires Inv(st) && level + 1 < NUM_LEVELS
    requires InputsOk(st.version[level], st.version[level + 1], level == 0, in0, in1)
    requires Elements(m) == Entries(in0) + Entries(in1)
    ensures Distinct(Elements(m)) && Bounded(Elements(m), |st.history|)
  {
    hide Shape, Reads, Newer, FilesNumbered, Sorted, InputsOk;
    InputsAreFiles(st.version[level], st.version[level + 1], level == 0, in0, in1);
    FilesInVersion(st.version, level, in0);
    FilesInVersion(st.version, level + 1, in1);
    DistinctShrinks(Elements(m), All(st));
  }

  lemma FilesInVersion(v: Version, level: nat, files: seq<File>)
    requires level < NUM_LEVELS && SubsetOf(files, v[level])
    ensures Entries(files) <= AllEntries(v)
  {
    assert Entries(files) <= Entries(v[level]);
  }

  /** A sequence that can be read at in two states of a run reads the same in both. */
  lemma SnapshotStable(states: seq<State>, steps: seq<Step>, i: nat, j: nat, k: UserKey, s: SeqNum)
    requires IsRun(states, steps) && i <= j < |states| && Readable(states[i], s) && Readable(states[j], s)
    ensures Visible(All(states[i]), k, s) == Visible(All(states[j]), k, s)
  {
    hide Next;
    HeldReads(states, steps, i, k, s);
    HeldReads(states, steps, j, k, s);
    HistoryGrows(states, steps, i, j);
    var before, after := states[i].history, states[j].history;
    assert after == before + after[|before|..];
    ValueAtPrefix(before, after[|before|..], k, s);
  }

  /** A snapshot is held until it is the one released. */
  lemma {:induction false} HeldUntilReleased(states: seq<State>, steps: seq<Step>, i: nat, j: nat, s: SeqNum)
    requires IsRun(states, steps) && i <= j < |states| && s in states[i].snapshots
    requires forall n :: i <= n < j ==> !Releases(states[n], steps[n], s)
    ensures s in states[j].snapshots
  {
    hide Install, CompactionEdit, FlushEdit, Kept, InputsOk, Sorted;
    if i < j {
      HeldUntilReleased(states, steps, i, j - 1, s);
      StaysHeld(states[j - 1], steps[j - 1], states[j], s);
    }
  }

  predicate Releases(st: State, step: Step, s: SeqNum)
  {
    step.ReleaseSnapshot? && step.i < |st.snapshots| && st.snapshots[step.i] == s
  }

  lemma StaysHeld(st: State, step: Step, st': State, s: SeqNum)
    requires Next(st, step, st') && s in st.snapshots && !Releases(st, step, s)
    ensures s in st'.snapshots
  {
    hide Install, CompactionEdit, FlushEdit, Kept, InputsOk, Sorted, Clear;
    var n :| 0 <= n < |st.snapshots| && st.snapshots[n] == s;
    if step.ReleaseSnapshot? {
      assert st'.snapshots[if n < step.i then n else n - 1] == s;
    }
  }

  // ---- Reads ---------------------------------------------------------------------------

  /** DBImpl::Get: memtable, immutable memtable, version. */
  method Get(st: State, k: UserKey, s: SeqNum) returns (r: Option<Value>)
    requires Inv(st)
    ensures r == Visible(All(st), k, s)
    ensures Readable(st, s) || SmallestSnapshot(st) <= s <= |st.history| ==> r == ValueAt(st.history, k, s)
  {
    SparesOldest(st, s);
    var e := Lookup.SeekGet(st.mem, k, s);
    if e.Some? {
      FoundAbove(Elements(st.mem), ImmEntries(st) + AllEntries(st.version), k, s, e.value);
    } else if st.imm.Some? {
      e := Lookup.SeekGet(st.imm.value, k, s);
      if e.Some? {
        FoundAbove(ImmEntries(st), AllEntries(st.version), k, s, e.value);
      }
    }
    if e.Some? {
      assert IsNewest(All(st), k, s, e.value);
      NewestUnique(All(st), k, s, e.value);
      return ReadOf(e);
    }
    r := Lookup.Get(st.version, k, s);
    MissAbove(Above(st), AllEntries(st.version), k, s);
  }

  lemma FoundAbove(above: set<Entry>, below: set<Entry>, k: UserKey, s: SeqNum, e: Entry)
    requires Newer(above, below) && IsNewest(above, k, s, e)
    ensures IsNewest(above + below, k, s, e)
  {
  }

  lemma MissAbove(above: set<Entry>, below: set<Entry>, k: UserKey, s: SeqNum)
    requires Distinct(above + below) && forall e :: e in above ==> !Matches(e, k, s)
    ensures Visible(above + below, k, s) == Visible(below, k, s)
  {
    match Newest(below, k, s)
    case None => NoneVisible(above + below, k, s);
    case Some(d) =>
      assert IsNewest(above + below, k, s, d);
      NewestUnique(above + below, k, s, d);
  }
}
