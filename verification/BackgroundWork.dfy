/**
 The background work of the database, from the choice of the files to the installed
 version: flushing the immutable memtable and compacting a level. Each is one step of the
 store (CompactMemTable and BackgroundCompaction in db/db_impl.cc).
 */
module BackgroundWork {
  import opened Keys
  import opened Versions
  import opened InputSelection
  import opened Builder
  import opened DropRules
  import opened CompactionSteps
  import opened Cursors
  import opened Merger
  import Store

  // ---- Merging the inputs ---------------------------------------------------------------------

  function EntriesOf(files: seq<File>): (r: seq<seq<Entry>>)
    ensures |r| == |files|
  {
    seq(|files|, i requires 0 <= i < |files| => files[i].entries)
  }

  ghost predicate Apart(f: File, g: File)
  {
    forall d, e :: d in f.entries && e in g.entries ==> d.ikey != e.ikey
  }

  ghost predicate AllApart(files: seq<File>)
  {
    forall i, j :: 0 <= i < j < |files| ==> Apart(files[i], files[j])
  }

  /** VersionSet::MakeInputIterator, read to its end. */
  method MergeInputs(files: seq<File>) returns (m: seq<Entry>)
    requires AllApart(files)
    ensures Sorted(m) && Elements(m) == Entries(files)
  {
    hide Sorted;
    DataApart(files);
    ghost var all := UnionExists(EntriesOf(files));
    var children := seq(|files|, i requires 0 <= i < |files| => Cursor(files[i].entries, None));
    assert seq(|children|, i requires 0 <= i < |children| => children[i].es) == EntriesOf(files);
    var it := new MergingIterator(children, all);
    it.SeekToFirst();
    m := [];
    while it.current.Some?
      invariant it.Valid() && fresh(it) && it.Abs().es == all
      invariant m == if it.current.Some? then all[..it.Abs().pos.value] else all
      decreases |all| - |m|
    {
      m := m + [it.children[it.current.value].Current()];
      it.Next();
    }
    UnionEntries(files, all);
  }

  lemma DataApart(files: seq<File>)
    requires AllApart(files)
    ensures KeysDistinct(EntriesOf(files)) && forall i :: 0 <= i < |files| ==> Sorted(EntriesOf(files)[i])
  {
    hide Sorted;
    var data := EntriesOf(files);
    forall i, j, d: Entry, e: Entry | 0 <= i < |data| && 0 <= j < |data| && i != j && d in data[i] && e in data[j]
      ensures d.ikey != e.ikey
    {
      if i < j { assert Apart(files[i], files[j]); } else { assert Apart(files[j], files[i]); }
    }
  }

  lemma UnionEntries(files: seq<File>, all: seq<Entry>)
    requires IsUnion(EntriesOf(files), all)
    ensures Elements(all) == Entries(files)
  {
    hide Sorted;
    forall e ensures e in all <==> e in Entries(files) {
      assert e in all <==> InSome(EntriesOf(files), e);
      if e in Entries(files) {
        var f :| f in files && e in f.entries;
        var i :| 0 <= i < |files| && files[i] == f;
        assert e in EntriesOf(files)[i];
      }
    }
  }

  // ---- The inputs share no key --------------------------------------------------------------------

  lemma {:induction false} OverlappingOrdered(files: seq<File>, lo: Option<UserKey>, hi: Option<UserKey>)
    requires Ordered(files)
    ensures Ordered(Overlapping(files, lo, hi))
  {
    hide Overlaps, BySmallest;
    if files != [] {
      var last := |files| - 1;
      OverlappingOrdered(files[..last], lo, hi);
      var r := Overlapping(files[..last], lo, hi);
      forall i | 0 <= i < |r| ensures BySmallest(r[i], files[last]) {
        assert r[i] in r;
        var j :| 0 <= j < last && files[j] == r[i];
      }
    }
  }

  lemma ChosenOrdered(files: seq<File>, levelZero: bool, chosen: seq<File>)
    requires Ordered(files) && Chosen(files, levelZero, chosen)
    ensures Ordered(chosen) && forall f :: f in chosen ==> f in files
  {
    hide Overlaps, BySmallest;
    if levelZero {
      var lo, hi :| chosen == Overlapping(files, lo, hi) && ClosedRange(files, lo, hi);
      OverlappingOrdered(files, lo, hi);
    } else {
      var i, j :| IsSlice(files, i, j, chosen);
    }
  }

  /** Different files of one level have no internal key in common. */
  lemma LevelApart(v: Version, level: nat, f: File, g: File)
    requires Shape(v) && level < NUM_LEVELS && f in v[level] && g in v[level] && f != g
    ensures Apart(f, g)
  {
    hide LevelsOrdered, LevelsAged, Distinct, Sorted;
    if level == 0 {
      assert f.number != g.number;
      if f.number > g.number {
        assert Newer(Elements(f.entries), Elements(g.entries));
      } else {
        assert Newer(Elements(g.entries), Elements(f.entries));
      }
    } else {
      assert PairwiseDisjoint(v[level]);
      forall d, e | d in f.entries && e in g.entries ensures d.ikey != e.ikey {
        FileRange(f, d);
        FileRange(g, e);
      }
    }
  }

  lemma LevelsApart(v: Version, l: nat, m: nat, f: File, g: File)
    requires Shape(v) && l < m < NUM_LEVELS && f in v[l] && g in v[m]
    ensures Apart(f, g)
  {
    hide LevelsOrdered, LevelsDisjoint, Distinct, LevelZeroAged, UniqueNumbers, Sorted;
    assert Newer(Entries(v[l]), Entries(v[m]));
    forall d, e | d in f.entries && e in g.entries ensures d.ikey != e.ikey {
      EntriesMember(v[l], f, d);
      EntriesMember(v[m], g, e);
    }
  }

  lemma ListApart(v: Version, level: nat, files: seq<File>)
    requires Shape(v) && level < NUM_LEVELS && Ordered(files) && forall f :: f in files ==> f in v[level]
    ensures AllApart(files)
  {
    hide Shape, Apart, BySmallest;
    forall i, j | 0 <= i < j < |files| ensures Apart(files[i], files[j]) {
      OrderedDiffer(files[i], files[j]);
      LevelApart(v, level, files[i], files[j]);
    }
  }

  lemma JoinApart(a: seq<File>, b: seq<File>)
    requires AllApart(a) && AllApart(b) && forall f, g :: f in a && g in b ==> Apart(f, g)
    ensures AllApart(a + b)
  {
    hide Apart;
  }

  lemma InputsApart(v: Version, level: nat, in0: seq<File>, in1: seq<File>)
    requires Shape(v) && level + 1 < NUM_LEVELS && InputsOk(v[level], v[level + 1], level == 0, in0, in1)
    ensures AllApart(in0 + in1)
  {
    InputsOrdered(v, level, in0, in1);
    hide Shape, InputsOk, Apart, BySmallest, AllApart;
    ListApart(v, level, in0);
    ListApart(v, level + 1, in1);
    forall f, g | f in in0 && g in in1 ensures Apart(f, g) { LevelsApart(v, level, level + 1, f, g); }
    JoinApart(in0, in1);
  }

  lemma OrderedDiffer(f: File, g: File)
    requires BySmallest(f, g)
    ensures f != g
  {
  }

  lemma InputsOrdered(v: Version, level: nat, in0: seq<File>, in1: seq<File>)
    requires Shape(v) && level + 1 < NUM_LEVELS && InputsOk(v[level], v[level + 1], level == 0, in0, in1)
    ensures Ordered(in0) && Ordered(in1)
    ensures (forall f :: f in in0 ==> f in v[level]) && forall f :: f in in1 ==> f in v[level + 1]
  {
    hide LevelsDisjoint, LevelsAged, LevelZeroAged, Distinct, Ordered, Chosen;
    ChosenOrdered(v[level], level == 0, in0);
    if in1 == [] { assert Ordered(in1) by { NoFiles(); } } else { ChosenOrdered(v[level + 1], false, in1); }
  }

  lemma NoFiles()
    ensures Ordered([])
  {
  }

  lemma SortedLevels(v: Version)
    requires Shape(v)
    ensures forall l :: 1 <= l < NUM_LEVELS ==> SortedDisjoint(v[l])
  {
    hide LevelsAged, LevelZeroAged, Distinct, UniqueNumbers, SortedDisjoint, Ordered, PairwiseDisjoint;
    forall l | 1 <= l < NUM_LEVELS ensures SortedDisjoint(v[l]) { OrderedDisjointIsSorted(v[l]); }
  }

  // ---- Compactions ------------------------------------------------------------------------------------

  lemma {:induction false} CutSorted(cuts: seq<seq<Entry>>, i: nat)
    requires Sorted(Concat(cuts)) && i < |cuts|
    ensures Sorted(cuts[i])
  {
    var n := |cuts| - 1;
    var done := Concat(cuts[..n]);
    assert Concat(cuts) == done + cuts[n];
    if i < n {
      SortedPart(done, cuts[n]);
      CutSorted(cuts[..n], i);
    } else {
      SortedPart(done, cuts[n]);
    }
  }

  lemma SortedPart(a: seq<Entry>, b: seq<Entry>)
    requires Sorted(a + b)
    ensures Sorted(a) && Sorted(b)
  {
    forall i, j | 0 <= i < j < |a| ensures Less(a[i].ikey, a[j].ikey) {
      assert a[i] == (a + b)[i] && a[j] == (a + b)[j];
    }
    forall i, j | 0 <= i < j < |b| ensures Less(b[i].ikey, b[j].ikey) {
      assert b[i] == (a + b)[|a| + i] && b[j] == (a + b)[|a| + j];
    }
  }

  /** One table per output, with the next file numbers. */
  method MakeTables(cuts: seq<seq<Entry>>, next: nat, size: nat -> nat) returns (files: seq<File>)
    requires Sorted(Concat(cuts)) && forall c :: c in cuts ==> c != []
    ensures |files| == |cuts| && forall i :: 0 <= i < |cuts| ==>
            files[i].entries == cuts[i] && files[i].number == next + i
  {
    hide Concat, Sorted;
    files := [];
    for i := 0 to |cuts|
      invariant |files| == i && forall j :: 0 <= j < i ==> files[j].entries == cuts[j] && files[j].number == next + j
    {
      CutSorted(cuts, i);
      assert cuts[i] in cuts;
      var f: File := TableFile(next + i, size(i), cuts[i]);
      files := files + [f];
    }
  }

  lemma NumbersDiffer(files: seq<File>, next: nat)
    requires forall i :: 0 <= i < |files| ==> files[i].number == next + i
    ensures NumberDetermines(files, []) && forall f :: f in files ==> next <= f.number < next + |files|
  {
  }

  /** A trivial move, if the one input has nothing to merge with and few grandparents, or
      the merge of the inputs: a legal step of the store. */
  method CompactFiles(st: Store.State, level: nat, in0: seq<File>, in1: seq<File>, few: bool, stopBefore: nat -> bool,
                      full: nat -> bool, size: nat -> nat)
    returns (st': Store.State, ghost step: Store.Step)
    requires Store.Inv(st) && level + 1 < NUM_LEVELS
    requires InputsOk(st.version[level], st.version[level + 1], level == 0, in0, in1)
    ensures Store.Next(st, step, st') && Store.Inv(st')
    ensures if few && |in0| == 1 && |in1| == 0 then step == Store.Move(level, in0[0])
            else step.Compact? && step.level == level && step.in0 == in0 && step.in1 == in1
                 && forall i :: 0 <= i < |step.outputs| ==> step.outputs[i].number == st.nextFile + i
  {
    hide Store.Inv, Shape, InputsOk, Install, CompactionEdit, Sorted, Kept, SortedDisjoint, Concat, AllApart,
         Store.SmallestSnapshot;
    Facts(st);
    if few && |in0| == 1 && |in1| == 0 {
      step := Store.Move(level, in0[0]);
      st' := st.(version := Install(st.version, CompactionEdit(level, in0, [], in0)));
      assert in0 == [in0[0]] && in1 == [];
      Store.StepKeepsInv(st, step, st');
      return;
    }
    InputsApart(st.version, level, in0, in1);
    var m := MergeInputs(in0 + in1);
    BothEntries(in0, in1);
    SortedLevels(st.version);
    var c := new Compaction(st.version, level);
    var cuts := DoCompactionWork(c, m, Store.SmallestSnapshot(st), seq(|m|, i requires 0 <= i < |m| => stopBefore(i)),
                                 seq(|m|, i requires 0 <= i < |m| => full(i)));
    KeptSorted(m, |m|, Store.SmallestSnapshot(st), BaseOf(st.version, level));
    var outputs := MakeTables(cuts, st.nextFile, size);
    CutsAreDisjoint(cuts, outputs);
    NumbersDiffer(outputs, st.nextFile);
    step := Store.Compact(level, in0, in1, m, outputs);
    st' := st.(version := Install(st.version, CompactionEdit(level, in0, in1, outputs)),
               nextFile := st.nextFile + |outputs|);
    Store.StepKeepsInv(st, step, st');
  }

  lemma Facts(st: Store.State)
    requires Store.Inv(st)
    ensures Shape(st.version) && |st.history| < MAX_SEQUENCE && Store.SmallestSnapshot(st) < MAX_SEQUENCE
  {
  }

  lemma BothEntries(a: seq<File>, b: seq<File>)
    ensures Entries(a + b) == Entries(a) + Entries(b)
  {
  }

  /** The files of the compacted level that a step works on. */
  ghost function InputsOf(step: Store.Step): seq<File>
  {
    if step.Move? then [step.f] else if step.Compact? then step.in0 else []
  }

  /** BackgroundCompaction by size or by seeks: the picked file is moved or merged. */
  method AutomaticCompaction(st: Store.State, level: nat, pointer: Option<IKey>, seek: Option<File>, byteLimit: nat,
                             few: bool,
                             stopBefore: nat -> bool, full: nat -> bool, size: nat -> nat)
    returns (st': Store.State, ghost step: Store.Step)
    requires Store.Inv(st) && level + 1 < NUM_LEVELS && st.version[level] != [] &&
             (seek.Some? ==> seek.value in st.version[level])
    ensures Store.Next(st, step, st') && Store.Inv(st')
    ensures (step.Move? || step.Compact?) && step.level == level && (step.Move? ==> few)
    ensures exists i: nat :: IsPicked(st.version[level], pointer, seek, i) && st.version[level][i] in InputsOf(step)
  {
    hide Store.Inv, Shape, SortedDisjoint, Store.Next, InputsOk, IsPicked;
    Facts(st);
    SortedLevels(st.version);
    var in0, in1 := PickCompaction(st.version[level], st.version[level + 1], level == 0, pointer, seek, byteLimit);
    st', step := CompactFiles(st, level, in0, in1, few, stopBefore, full, size);
    assert InputsOf(step) == in0;
  }

  /** BackgroundCompaction for a manual compaction, which never just moves a file. */
  method ManualCompaction(st: Store.State, level: nat, begin: Option<UserKey>, end: Option<UserKey>, maxBytes: nat,
                          byteLimit: nat,
                          stopBefore: nat -> bool, full: nat -> bool, size: nat -> nat)
    returns (st': Store.State, ghost step: Option<Store.Step>)
    requires Store.Inv(st) && level + 1 < NUM_LEVELS
    ensures step.None? <==> forall f :: f in st.version[level] ==> !Overlaps(f, begin, end)
    ensures step.None? ==> st' == st
    ensures step.Some? ==> Store.Next(st, step.value, st') && step.value.Compact? && step.value.level == level
    ensures step.Some? && level == 0 ==> forall f :: f in st.version[0] && Overlaps(f, begin, end) ==>
            f in step.value.in0
    ensures step.Some? && level > 0 ==>
              exists n: nat :: TakesUpTo(Overlapping(st.version[level], begin, end), maxBytes, n, step.value.in0)
    ensures Store.Inv(st')
  {
    hide Store.Inv, Shape, SortedDisjoint, Store.Next, InputsOk;
    Facts(st);
    SortedLevels(st.version);
    var in0, in1 := CompactRange(st.version[level], st.version[level + 1], level == 0, begin, end, maxBytes, byteLimit);
    if |in0| == 0 {
      return st, None;
    }
    ghost var s;
    st', s := CompactFiles(st, level, in0, in1, false, stopBefore, full, size);
    step := Some(s);
  }

  // ---- Flushing ------------------------------------------------------------------------------------------

  /** The table is pushed down while it may be, at most to level 2; on a busy level 0 it
      stays there. */
  ghost predicate DeepestLevel(v: Version, lo: UserKey, hi: UserKey, byteLimit: nat, level: nat)
  {
    && level <= MAX_MEM_COMPACT_LEVEL && (level > 0 ==> Clear(v[0], lo, hi))
    && (forall l :: 0 <= l < level ==> MayPush(v, l, lo, hi, byteLimit))
    && (level < MAX_MEM_COMPACT_LEVEL && Clear(v[0], lo, hi) ==> !MayPush(v, level, lo, hi, byteLimit))
  }

  /** CompactMemTable: the immutable memtable becomes a table on the level picked for it,
      or just goes if it is empty. */
  method CompactMemTable(st: Store.State, byteLimit: nat, size: nat) returns (st': Store.State, ghost step: Store.Step)
    requires Store.Inv(st) && st.imm.Some?
    ensures Store.Next(st, step, st') && Store.Inv(st') && st'.imm.None?
    ensures if st.imm == Some([]) then step == Store.FlushEmpty
            else step.Flush? && step.f.entries == st.imm.value && step.f.number == st.nextFile
                 && DeepestLevel(st.version, step.f.Smallest().user, step.f.Largest().user, byteLimit, step.level)
  {
    hide Shape, Install, FlushEdit, SortedDisjoint, MayPush, Clear;
    Facts(st);
    var entries := st.imm.value;
    if |entries| == 0 {
      st', step := st.(imm := None), Store.FlushEmpty;
    } else {
      var f: File := TableFile(st.nextFile, size, entries);
      SortedLevels(st.version);
      var level := PickLevelForMemTableOutput(st.version, f.Smallest().user, f.Largest().user, byteLimit);
      step := Store.Flush(level, f);
      st' := st.(imm := None, version := Install(st.version, FlushEdit(level, f)), nextFile := st.nextFile + 1);
    }
    Store.StepKeepsInv(st, step, st');
  }
}
