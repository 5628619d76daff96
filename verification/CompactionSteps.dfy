/**
 Installing a compaction or a flush: what the chosen inputs guarantee, and that
 the resulting version keeps the level shape
 (db/version_set.cc, db/db_impl.cc).
 */
module CompactionSteps {
  import opened Keys
  import opened Versions
  import opened InputSelection
  import opened Builder
  import opened DropRules
  import Lookup
  import Seqs

  // ---- What the chosen inputs guarantee -------------------------------------

  /** Files of the input level that stay behind are newer than the chosen ones. */
  ghost predicate LeftNewer(files: seq<File>, in0: seq<File>)
  {
    forall g :: g in files && g !in in0 ==> Newer(Elements(g.entries), Entries(in0))
  }

  /** h lies wholly before the entries, or starts at a later user key than all of them. */
  ghost predicate Outside(h: File, es: set<Entry>)
  {
    (forall e :: e in es ==> Less(h.Largest(), e.ikey)) || (forall e :: e in es ==> e.ikey.user < h.Smallest().user)
  }

  lemma ClosedLeavesNewer(files: seq<File>, lo: Option<UserKey>, hi: Option<UserKey>)
    requires ClosedRange(files, lo, hi)
    ensures LeftNewer(files, Overlapping(files, lo, hi))
  {
    var in0 := Overlapping(files, lo, hi);
    forall g, e, d | g in files && g !in in0 && e in Elements(g.entries) && d in Entries(in0)
      ensures e.ikey.user != d.ikey.user
    {
      var f :| f in in0 && d in f.entries;
      FileRange(f, d);
      FileRange(g, e);
    }
  }

  /** A user key of a slice does not continue past the slice. */
  lemma SliceEndsUserKey(files: seq<File>, i: nat, j: nat, m: nat, d: Entry)
    requires SortedDisjoint(files) && i < j <= m < |files| && BoundaryClosed(files, files[i..j])
    requires d in Entries(files[i..j])
    ensures d.ikey.user < files[m].Smallest().user
  {
    var key := files[j - 1].Largest();
    LargestOfSlice(files, i, j);
    var f :| f in files[i..j] && d in f.entries;
    FileRange(f, d);
    assert AtMost(f.Largest(), key);
    assert Before(files[j - 1], files[j]);
    assert !IsBoundary(files[j], key);
    if m > j {
      assert Before(files[j], files[m]);
      FileRange(files[j], files[j].entries[0]);
    }
  }

  lemma BeforeSlice(files: seq<File>, i: nat, j: nat, m: nat, d: Entry)
    requires SortedDisjoint(files) && m < i < j <= |files|
    requires d in Entries(files[i..j])
    ensures Less(files[m].Largest(), d.ikey)
  {
    var f :| f in files[i..j] && d in f.entries;
    var n :| i <= n < j && files[n] == f;
    assert Before(files[m], files[n]);
    FileRange(f, d);
  }

  lemma SliceLeavesNewer(files: seq<File>, i: nat, j: nat)
    requires SortedDisjoint(files) && i < j <= |files| && BoundaryClosed(files, files[i..j])
    requires Distinct(Entries(files))
    ensures LeftNewer(files, files[i..j])
  {
    var in0 := files[i..j];
    forall g, e, d | g in files && g !in in0 && e in Elements(g.entries) && d in Entries(in0) &&
        e.ikey.user == d.ikey.user
      ensures e.ikey.sn > d.ikey.sn
    {
      var m :| 0 <= m < |files| && files[m] == g;
      FileRange(g, e);
      EntriesMember(files, g, e);
      assert d in Entries(files);
      Seqs.OutsideSlice(files, i, j, m);
      if m < i {
        BeforeSlice(files, i, j, m, d);
      } else {
        SliceEndsUserKey(files, i, j, m, d);
      }
    }
  }

  /** The inputs of a compaction: files left in the input level are newer. */
  lemma InputsLeaveNewer(files0: seq<File>, files1: seq<File>, levelZero: bool, in0: seq<File>, in1: seq<File>)
    requires InputsOk(files0, files1, levelZero, in0, in1)
    requires !levelZero ==> SortedDisjoint(files0)
    requires Distinct(Entries(files0))
    ensures LeftNewer(files0, in0)
    ensures in0 != [] && forall f :: f in in0 ==> f in files0
  {
    if levelZero {
      var lo, hi :| in0 == Overlapping(files0, lo, hi) && ClosedRange(files0, lo, hi);
      ClosedLeavesNewer(files0, lo, hi);
    } else {
      var i, j :| IsSlice(files0, i, j, in0);
      SliceLeavesNewer(files0, i, j);
    }
  }

  lemma RangeOfInputs(in0: seq<File>, lo: IKey, hi: IKey, e: Entry)
    requires IsSmallestKey(in0, lo) && IsLargestKey(in0, hi) && e in Entries(in0)
    ensures lo.user <= e.ikey.user <= hi.user
  {
    var f :| f in in0 && e in f.entries;
    FileRange(f, e);
    assert AtMost(lo, f.Smallest()) && AtMost(f.Largest(), hi);
  }

  lemma OutsideRange(h: File, in0: seq<File>, lo: IKey, hi: IKey)
    requires IsSmallestKey(in0, lo) && IsLargestKey(in0, hi)
    requires !Overlaps(h, Some(lo.user), Some(hi.user))
    ensures h.Largest().user < lo.user ==> forall e :: e in Entries(in0) ==> Less(h.Largest(), e.ikey)
    ensures h.Smallest().user > hi.user ==> forall e :: e in Entries(in0) ==> e.ikey.user < h.Smallest().user
  {
    forall e | e in Entries(in0) ensures lo.user <= e.ikey.user <= hi.user { RangeOfInputs(in0, lo, hi, e); }
  }

  /** A file outside the chosen slice of its level: it is before the slice, or
      starts at a later user key. */
  lemma SplitBySlice(files: seq<File>, i: nat, j: nat, h: File)
    requires SortedDisjoint(files) && i < j <= |files| && BoundaryClosed(files, files[i..j])
    requires h in files && h !in files[i..j]
    ensures Before(h, files[i]) || Before(files[i], h)
    ensures Before(h, files[i]) ==> forall e :: e in Entries(files[i..j]) ==> Less(h.Largest(), e.ikey)
    ensures Before(files[i], h) ==> forall e :: e in Entries(files[i..j]) ==> e.ikey.user < h.Smallest().user
  {
    var m :| 0 <= m < |files| && files[m] == h;
    Seqs.OutsideSlice(files, i, j, m);
    FileRange(h, h.entries[0]);
    FileRange(files[i], files[i].entries[0]);
    if m < i {
      assert Before(h, files[i]);
      forall e | e in Entries(files[i..j]) ensures Less(h.Largest(), e.ikey) { BeforeSlice(files, i, j, m, e); }
    } else {
      assert Before(files[i], h);
      forall e | e in Entries(files[i..j]) ensures e.ikey.user < h.Smallest().user {
        SliceEndsUserKey(files, i, j, m, e);
      }
    }
  }

  /** The inputs of a compaction: every other file of the output level lies outside them. */
  lemma OthersOutside(files1: seq<File>, in0: seq<File>, in1: seq<File>, lo: IKey, hi: IKey, h: File)
    requires SortedDisjoint(files1)
    requires IsSmallestKey(in0, lo) && IsLargestKey(in0, hi) && Parents(files1, in0, in1, lo, hi)
    requires h in files1 && h !in in1
    ensures Outside(h, Entries(in0) + Entries(in1))
  {
    assert !Overlaps(h, Some(lo.user), Some(hi.user));
    OutsideRange(h, in0, lo, hi);
    FileRange(h, h.entries[0]);
    if in1 == [] {
      assert Entries(in1) == {};
    } else {
      var i, j :| IsSlice(files1, i, j, in1);
      SplitBySlice(files1, i, j, h);
      FileRange(files1[i], files1[i].entries[0]);
    }
  }

  // ---- Installing an edit ---------------------------------------------------

  /** The version LogAndApply installs for an edit given level by level. */
  function Install(v: Version, edits: seq<LevelEdit>): (r: Version)
    requires |edits| == NUM_LEVELS
  {
    seq(NUM_LEVELS, l requires 0 <= l < NUM_LEVELS => LiveStep(v[l], edits[l]))
  }

  /** The edit of InstallCompactionResults, and of a trivial move when outputs is in0. */
  function CompactionEdit(level: nat, in0: seq<File>, in1: seq<File>, outputs: seq<File>): (r: seq<LevelEdit>)
    ensures |r| == NUM_LEVELS
  {
    seq(NUM_LEVELS, l =>
      if l == level then LevelEdit(Numbers(in0), [])
      else if l == level + 1 then LevelEdit(Numbers(in1), outputs)
      else LevelEdit({}, []))
  }

  /** The edit of WriteLevel0Table. */
  function FlushEdit(level: nat, f: File): (r: seq<LevelEdit>)
    ensures |r| == NUM_LEVELS
  {
    seq(NUM_LEVELS, l => if l == level then LevelEdit({}, [f]) else LevelEdit({}, []))
  }

  lemma EmptyEdit(files: seq<File>)
    requires Ordered(files) && NumberDetermines(files, [])
    ensures LiveStep(files, LevelEdit({}, [])) == files
  {
    LiveStepMembers(files, LevelEdit({}, []));
    OrderedUnique(files, LiveStep(files, LevelEdit({}, [])));
  }

  lemma LevelDetermines(v: Version, l: nat)
    requires Shape(v) && l < NUM_LEVELS
    ensures Ordered(v[l]) && NumberDetermines(v[l], [])
  {
  }

  /** Output numbers are distinct and clash with no file that stays. */
  ghost predicate OutputsNumbered(v: Version, level: nat, in0: seq<File>, outputs: seq<File>)
  {
    && NumberDetermines(outputs, [])
    && forall l, f, o :: 0 <= l < NUM_LEVELS && f in v[l] && o in outputs && f.number == o.number ==>
       l == level && f in in0
  }

  /** One compaction, trivial move included, as a change of a version. */
  ghost predicate Replaces(v: Version, level: nat, in0: seq<File>, in1: seq<File>, outputs: seq<File>)
  {
    && level + 1 < NUM_LEVELS
    && InputsOk(v[level], v[level + 1], level == 0, in0, in1)
    && OutputsNumbered(v, level, in0, outputs)
    && SortedDisjoint(outputs)
    && Entries(outputs) <= Entries(in0) + Entries(in1)
  }

  ghost predicate SubsetOf(a: seq<File>, b: seq<File>)
  {
    forall f :: f in a ==> f in b
  }

  lemma ChosenAreFiles(files: seq<File>, levelZero: bool, chosen: seq<File>)
    requires Chosen(files, levelZero, chosen)
    ensures SubsetOf(chosen, files)
  {
    if levelZero {
      var lo, hi :| chosen == Overlapping(files, lo, hi) && ClosedRange(files, lo, hi);
    } else {
      var i, j :| IsSlice(files, i, j, chosen);
    }
  }

  lemma InputsAreFiles(files0: seq<File>, files1: seq<File>, levelZero: bool, in0: seq<File>, in1: seq<File>)
    requires InputsOk(files0, files1, levelZero, in0, in1)
    ensures SubsetOf(in0, files0) && SubsetOf(in1, files1)
  {
    ChosenAreFiles(files0, levelZero, in0);
    if in1 != [] { ChosenAreFiles(files1, false, in1); }
  }

  /** Removing chosen files by number and adding new ones, on one level. */
  lemma ReplaceFiles(files: seq<File>, removed: seq<File>, added: seq<File>)
    requires Ordered(files) && SubsetOf(removed, files)
    requires NumberDetermines(files, added) && Fresh(files, LevelEdit({}, added))
    ensures var r := LiveStep(files, LevelEdit(Numbers(removed), added));
            Ordered(r) && forall f :: f in r <==> (f in files && f !in removed) || f in added
  {
    var edit := LevelEdit(Numbers(removed), added);
    assert Fresh(files, edit);
    LiveStepMembers(files, edit);
    forall f | f in files ensures f.number in edit.deleted <==> f in removed {
      if f.number in edit.deleted {
        var g :| g in removed && g.number == f.number;
        assert g == f;
      }
    }
  }

  /** The level a compaction takes from, the level it writes to, and the others. */
  ghost predicate Replaced(v: Version, v': Version, level: nat, in0: seq<File>, in1: seq<File>, outputs: seq<File>)
  {
    && level + 1 < NUM_LEVELS
    && (forall l :: 0 <= l < NUM_LEVELS && l != level && l != level + 1 ==> v'[l] == v[l])
    && (forall f :: f in v'[level] <==> f in v[level] && f !in in0)
    && (forall f :: f in v'[level + 1] <==> (f in v[level + 1] && f !in in1) || f in outputs)
  }

  lemma OtherLevelsKept(v: Version, level: nat, in0: seq<File>, in1: seq<File>, outputs: seq<File>, l: nat)
    requires l < NUM_LEVELS && l != level && l != level + 1
    requires Ordered(v[l]) && NumberDetermines(v[l], [])
    ensures Install(v, CompactionEdit(level, in0, in1, outputs))[l] == v[l]
  {
    EmptyEdit(v[l]);
  }

  lemma InputLevel(v: Version, level: nat, in0: seq<File>, in1: seq<File>, outputs: seq<File>)
    requires level < NUM_LEVELS && Ordered(v[level]) && NumberDetermines(v[level], []) && SubsetOf(in0, v[level])
    ensures var r := Install(v, CompactionEdit(level, in0, in1, outputs))[level];
            Ordered(r) && forall f :: f in r <==> f in v[level] && f !in in0
  {
    ReplaceFiles(v[level], in0, []);
  }

  lemma OutputLevel(v: Version, level: nat, in0: seq<File>, in1: seq<File>, outputs: seq<File>)
    requires level + 1 < NUM_LEVELS && Ordered(v[level + 1]) && SubsetOf(in1, v[level + 1])
    requires NumberDetermines(v[level + 1], outputs) && Fresh(v[level + 1], LevelEdit({}, outputs))
    ensures var r := Install(v, CompactionEdit(level, in0, in1, outputs))[level + 1];
            Ordered(r) && forall f :: f in r <==> (f in v[level + 1] && f !in in1) || f in outputs
  {
    ReplaceFiles(v[level + 1], in1, outputs);
  }

  lemma OutputsFresh(v: Version, level: nat, in0: seq<File>, outputs: seq<File>)
    requires UniqueNumbers(v) && level + 1 < NUM_LEVELS && OutputsNumbered(v, level, in0, outputs)
    ensures NumberDetermines(v[level + 1], outputs) && Fresh(v[level + 1], LevelEdit({}, outputs))
  {
  }

  lemma CompactionMembers(v: Version, level: nat, in0: seq<File>, in1: seq<File>, outputs: seq<File>)
    requires Shape(v) && Replaces(v, level, in0, in1, outputs)
    ensures var v' := Install(v, CompactionEdit(level, in0, in1, outputs));
            Replaced(v, v', level, in0, in1, outputs) && Ordered(v'[level]) && Ordered(v'[level + 1])
  {
    var v' := Install(v, CompactionEdit(level, in0, in1, outputs));
    InputsAreFiles(v[level], v[level + 1], level == 0, in0, in1);
    forall l | 0 <= l < NUM_LEVELS && l != level && l != level + 1 ensures v'[l] == v[l] {
      LevelDetermines(v, l);
      OtherLevelsKept(v, level, in0, in1, outputs, l);
    }
    LevelDetermines(v, level);
    InputLevel(v, level, in0, in1, outputs);
    LevelDetermines(v, level + 1);
    OutputsFresh(v, level, in0, outputs);
    OutputLevel(v, level, in0, in1, outputs);
  }

  // ---- The shape after a compaction -----------------------------------------

  lemma NumbersStayUnique(v: Version, v': Version, level: nat, in0: seq<File>, in1: seq<File>, outputs: seq<File>)
    requires UniqueNumbers(v) && Replaced(v, v', level, in0, in1, outputs) && OutputsNumbered(v, level, in0, outputs)
    ensures UniqueNumbers(v')
  {
    forall l, m, f, g | 0 <= l < NUM_LEVELS && 0 <= m < NUM_LEVELS && f in v'[l] && g in v'[m] && f.number == g.number
      ensures l == m && f == g
    {
      assert f in v[l] || (l == level + 1 && f in outputs);
      assert g in v[m] || (m == level + 1 && g in outputs);
    }
  }

  lemma LevelsStayDisjoint(v: Version, v': Version, level: nat, in0: seq<File>, in1: seq<File>, outputs: seq<File>)
    requires LevelsDisjoint(v) && Replaced(v, v', level, in0, in1, outputs)
    requires SortedDisjoint(outputs) && Entries(outputs) <= Entries(in0) + Entries(in1)
    requires forall h :: h in v[level + 1] && h !in in1 ==> Outside(h, Entries(in0) + Entries(in1))
    ensures LevelsDisjoint(v')
  {
    forall l | 1 <= l < NUM_LEVELS && l != level + 1 ensures PairwiseDisjoint(v'[l]) {
      assert PairwiseDisjoint(v[l]);
    }
    assert PairwiseDisjoint(v[level + 1]);
    SortedDisjointIsOrdered(outputs);
    forall f, g | f in v'[level + 1] && g in v'[level + 1] && f != g ensures Before(f, g) || Before(g, f) {
      if f in outputs && g !in outputs {
        OutsideIsDisjoint(g, f, outputs, Entries(in0) + Entries(in1));
      } else if g in outputs && f !in outputs {
        OutsideIsDisjoint(f, g, outputs, Entries(in0) + Entries(in1));
      }
    }
  }

  lemma OutsideIsDisjoint(h: File, o: File, outputs: seq<File>, es: set<Entry>)
    requires Outside(h, es) && o in outputs && Entries(outputs) <= es
    ensures Before(h, o) || Before(o, h)
  {
    var first, last := o.entries[0], o.entries[|o.entries| - 1];
    EntriesMember(outputs, o, first);
    EntriesMember(outputs, o, last);
  }

  /** Where the entries of the new version come from. */
  lemma EntryOrigin(v: Version, v': Version, level: nat, in0: seq<File>, in1: seq<File>, outputs: seq<File>, l: nat,
                    e: Entry)
    requires Replaced(v, v', level, in0, in1, outputs) && l < NUM_LEVELS
    requires SubsetOf(in1, v[level + 1]) && Entries(outputs) <= Entries(in0) + Entries(in1)
    requires e in Entries(v'[l])
    ensures l != level + 1 ==> e in Entries(v[l])
    ensures l == level + 1 ==> e in Entries(v[l]) || e in Entries(in0)
    ensures l == level ==> exists g :: g in v[level] && g !in in0 && e in Elements(g.entries)
  {
    var f :| f in v'[l] && e in f.entries;
    if l == level + 1 {
      if f in outputs {
        EntriesMember(outputs, f, e);
        if e in Entries(in1) {
          var g :| g in in1 && e in g.entries;
          EntriesMember(v[l], g, e);
        }
      } else {
        EntriesMember(v[l], f, e);
      }
    } else {
      assert f in v[l];
      EntriesMember(v[l], f, e);
      if l == level { assert e in Elements(f.entries); }
    }
  }

  lemma LevelsStayAged(v: Version, v': Version, level: nat, in0: seq<File>, in1: seq<File>, outputs: seq<File>)
    requires LevelsAged(v) && Replaced(v, v', level, in0, in1, outputs)
    requires SubsetOf(in0, v[level]) && SubsetOf(in1, v[level + 1]) && Entries(outputs) <= Entries(in0) + Entries(in1)
    requires LeftNewer(v[level], in0)
    ensures LevelsAged(v')
  {
    assert Entries(in0) <= Entries(v[level]);
    forall l, m, e, d | 0 <= l < m < NUM_LEVELS && e in Entries(v'[l]) && d in Entries(v'[m]) &&
        e.ikey.user == d.ikey.user
      ensures e.ikey.sn > d.ikey.sn
    {
      EntryOrigin(v, v', level, in0, in1, outputs, l, e);
      EntryOrigin(v, v', level, in0, in1, outputs, m, d);
      AgedPair(v, level, in0, l, m, e, d);
    }
  }

  lemma AgedPair(v: Version, level: nat, in0: seq<File>, l: nat, m: nat, e: Entry, d: Entry)
    requires LevelsAged(v) && level + 1 < NUM_LEVELS && l < m < NUM_LEVELS
    requires Entries(in0) <= Entries(v[level]) && LeftNewer(v[level], in0)
    requires e.ikey.user == d.ikey.user
    requires e in Entries(v[l]) || (l == level + 1 && e in Entries(in0))
    requires d in Entries(v[m]) || (m == level + 1 && d in Entries(in0))
    requires l == level ==> exists g :: g in v[level] && g !in in0 && e in Elements(g.entries)
    ensures e.ikey.sn > d.ikey.sn
  {
    if d in Entries(v[m]) {
      var from := if e in Entries(v[l]) then l else level;
      assert Newer(Entries(v[from]), Entries(v[m]));
    } else if l < level {
      assert Newer(Entries(v[l]), Entries(v[level]));
    } else {
      var g :| g in v[level] && g !in in0 && e in Elements(g.entries);
      assert Newer(Elements(g.entries), Entries(in0));
    }
  }

  lemma EntriesShrink(v: Version, v': Version, level: nat, in0: seq<File>, in1: seq<File>, outputs: seq<File>)
    requires Replaced(v, v', level, in0, in1, outputs)
    requires SubsetOf(in0, v[level]) && SubsetOf(in1, v[level + 1]) && Entries(outputs) <= Entries(in0) + Entries(in1)
    ensures AllEntries(v') <= AllEntries(v)
  {
    assert Entries(in0) <= Entries(v[level]);
    forall e | e in AllEntries(v') ensures e in AllEntries(v) {
      var l :| 0 <= l < NUM_LEVELS && e in Entries(v'[l]);
      EntryOrigin(v, v', level, in0, in1, outputs, l, e);
      assert e in Entries(v[l]) || e in Entries(v[level]);
    }
  }

  lemma LevelsStayOrdered(v: Version, v': Version, level: nat, in0: seq<File>, in1: seq<File>, outputs: seq<File>)
    requires LevelsOrdered(v) && Replaced(v, v', level, in0, in1, outputs)
    requires Ordered(v'[level]) && Ordered(v'[level + 1])
    ensures LevelsOrdered(v')
  {
    forall l | 0 <= l < NUM_LEVELS ensures Ordered(v'[l]) {
      if l != level && l != level + 1 { assert v'[l] == v[l]; }
    }
  }

  lemma LevelZeroStaysAged(v: Version, v': Version, level: nat, in0: seq<File>, in1: seq<File>, outputs: seq<File>)
    requires LevelZeroAged(v[0]) && Replaced(v, v', level, in0, in1, outputs)
    ensures LevelZeroAged(v'[0])
  {
    assert SubsetOf(v'[0], v[0]);
  }

  lemma DistinctShrinks(a: set<Entry>, b: set<Entry>)
    requires a <= b && Distinct(b)
    ensures Distinct(a)
  {
  }

  /** Compactions and trivial moves keep the level shape. */
  lemma CompactionKeepsShape(v: Version, level: nat, in0: seq<File>, in1: seq<File>, outputs: seq<File>)
    requires Shape(v) && Replaces(v, level, in0, in1, outputs)
    ensures Shape(Install(v, CompactionEdit(level, in0, in1, outputs)))
  {
    var v' := Install(v, CompactionEdit(level, in0, in1, outputs));
    CompactionMembers(v, level, in0, in1, outputs);
    InputFacts(v, level, in0, in1);
    ReplacedKeepsShape(v, v', level, in0, in1, outputs);
  }

  lemma ReplacedKeepsShape(v: Version, v': Version, level: nat, in0: seq<File>, in1: seq<File>, outputs: seq<File>)
    requires Shape(v) && Replaces(v, level, in0, in1, outputs) && Replaced(v, v', level, in0, in1, outputs)
    requires Ordered(v'[level]) && Ordered(v'[level + 1])
    requires LeftNewer(v[level], in0)
    requires forall h :: h in v[level + 1] && h !in in1 ==> Outside(h, Entries(in0) + Entries(in1))
    ensures Shape(v')
  {
    InputsAreFiles(v[level], v[level + 1], level == 0, in0, in1);
    NumbersStayUnique(v, v', level, in0, in1, outputs);
    LevelsStayOrdered(v, v', level, in0, in1, outputs);
    LevelsStayDisjoint(v, v', level, in0, in1, outputs);
    LevelsStayAged(v, v', level, in0, in1, outputs);
    LevelZeroStaysAged(v, v', level, in0, in1, outputs);
    EntriesShrink(v, v', level, in0, in1, outputs);
    DistinctShrinks(AllEntries(v'), AllEntries(v));
  }

  lemma InputFacts(v: Version, level: nat, in0: seq<File>, in1: seq<File>)
    requires Shape(v) && level + 1 < NUM_LEVELS && InputsOk(v[level], v[level + 1], level == 0, in0, in1)
    ensures LeftNewer(v[level], in0)
    ensures forall h :: h in v[level + 1] && h !in in1 ==> Outside(h, Entries(in0) + Entries(in1))
  {
    Lookup.SearchableLevels(v);
    assert Entries(v[level]) <= AllEntries(v);
    InputsLeaveNewer(v[level], v[level + 1], level == 0, in0, in1);
    var lo, hi :| IsSmallestKey(in0, lo) && IsLargestKey(in0, hi) && Parents(v[level + 1], in0, in1, lo, hi);
    forall h | h in v[level + 1] && h !in in1 ensures Outside(h, Entries(in0) + Entries(in1)) {
      OthersOutside(v[level + 1], in0, in1, lo, hi, h);
    }
  }

  // ---- Reads across a compaction ---------------------------------------------

  /** f at level l is not an input. */
  ghost predicate Stays(level: nat, in0: seq<File>, in1: seq<File>, l: nat, f: File)
  {
    (l == level ==> f !in in0) && (l == level + 1 ==> f !in in1)
  }

  ghost function Rest(v: Version, level: nat, in0: seq<File>, in1: seq<File>): set<Entry>
  {
    set l, f, e | 0 <= l < NUM_LEVELS && f in v[l] && Stays(level, in0, in1, l, f) && e in f.entries :: e
  }

  lemma AllIsInputsAndRest(v: Version, level: nat, in0: seq<File>, in1: seq<File>)
    requires level + 1 < NUM_LEVELS && SubsetOf(in0, v[level]) && SubsetOf(in1, v[level + 1])
    ensures AllEntries(v) == Entries(in0) + Entries(in1) + Rest(v, level, in0, in1)
  {
    var rest := Rest(v, level, in0, in1);
    forall e | e in AllEntries(v) ensures e in Entries(in0) + Entries(in1) + rest {
      var l :| 0 <= l < NUM_LEVELS && e in Entries(v[l]);
      var f :| f in v[l] && e in f.entries;
      assert Stays(level, in0, in1, l, f) || f in in0 || f in in1;
    }
    forall e | e in rest ensures e in AllEntries(v) {
      var l, f :| 0 <= l < NUM_LEVELS && f in v[l] && Stays(level, in0, in1, l, f) && e in f.entries;
      EntriesMember(v[l], f, e);
    }
    assert Entries(in0) <= Entries(v[level]) && Entries(in1) <= Entries(v[level + 1]);
    assert forall e :: e in Entries(v[level]) || e in Entries(v[level + 1]) ==> e in AllEntries(v);
  }

  lemma AllIsOutputsAndRest(v: Version, v': Version, level: nat, in0: seq<File>, in1: seq<File>, outputs: seq<File>)
    requires Replaced(v, v', level, in0, in1, outputs)
    ensures AllEntries(v') == Entries(outputs) + Rest(v, level, in0, in1)
  {
    var rest := Rest(v, level, in0, in1);
    forall e | e in AllEntries(v') ensures e in Entries(outputs) + rest {
      var l :| 0 <= l < NUM_LEVELS && e in Entries(v'[l]);
      var f :| f in v'[l] && e in f.entries;
      assert (l == level + 1 && f in outputs) || (f in v[l] && Stays(level, in0, in1, l, f));
    }
    forall e | e in rest ensures e in AllEntries(v') {
      var l, f :| 0 <= l < NUM_LEVELS && f in v[l] && Stays(level, in0, in1, l, f) && e in f.entries;
      assert f in v'[l];
      EntriesMember(v'[l], f, e);
    }
    forall e | e in Entries(outputs) ensures e in AllEntries(v') {
      var f :| f in outputs && e in f.entries;
      EntriesMember(v'[level + 1], f, e);
    }
  }

  /** What a compaction removes and adds, as sets of entries. */
  lemma CompactionEntries(v: Version, level: nat, in0: seq<File>, in1: seq<File>, outputs: seq<File>)
    requires Shape(v) && Replaces(v, level, in0, in1, outputs)
    ensures AllEntries(v) == Entries(in0) + Entries(in1) + Rest(v, level, in0, in1)
    ensures AllEntries(Install(v, CompactionEdit(level, in0, in1, outputs))) ==
            Entries(outputs) + Rest(v, level, in0, in1)
  {
    CompactionMembers(v, level, in0, in1, outputs);
    InputsAreFiles(v[level], v[level + 1], level == 0, in0, in1);
    AllIsInputsAndRest(v, level, in0, in1);
    AllIsOutputsAndRest(v, Install(v, CompactionEdit(level, in0, in1, outputs)), level, in0, in1, outputs);
  }

  lemma StayingIsNewer(v: Version, level: nat, in0: seq<File>, in1: seq<File>, l: nat, f: File, e: Entry, r: Entry)
    requires LevelsAged(v) && Distinct(AllEntries(v)) && level + 1 < NUM_LEVELS
    requires SubsetOf(in0, v[level]) && SubsetOf(in1, v[level + 1]) && LeftNewer(v[level], in0)
    requires forall h :: h in v[level + 1] && h !in in1 ==> Outside(h, Entries(in0) + Entries(in1))
    requires l <= level + 1 && f in v[l] && Stays(level, in0, in1, l, f) && r in f.entries
    requires e in Entries(in0) + Entries(in1) && e.ikey.user == r.ikey.user
    ensures r.ikey.sn > e.ikey.sn
  {
    FileRange(f, r);
    EntriesMember(v[l], f, r);
    assert Entries(in0) <= Entries(v[level]) && Entries(in1) <= Entries(v[level + 1]);
    var from := if e in Entries(in0) then level else level + 1;
    assert e in Entries(v[from]);
    if l < from {
      assert Newer(Entries(v[l]), Entries(v[from]));
    } else if l == level {
      assert Newer(Elements(f.entries), Entries(in0));
    } else {
      assert Outside(f, Entries(in0) + Entries(in1));
      assert e in AllEntries(v) && r in AllEntries(v);
    }
  }

  /** Where a deletion marker may be dropped, everything that stays is newer than
      the inputs: nothing it hides is left behind. */
  lemma BaseLevelRestIsNewer(v: Version, level: nat, in0: seq<File>, in1: seq<File>, e: Entry, r: Entry)
    requires Shape(v) && level + 1 < NUM_LEVELS && InputsOk(v[level], v[level + 1], level == 0, in0, in1)
    requires e in Entries(in0) + Entries(in1) && r in Rest(v, level, in0, in1)
    requires e.ikey.user == r.ikey.user && BaseLevel(v, level, e.ikey.user)
    ensures r.ikey.sn > e.ikey.sn
  {
    var l, f :| 0 <= l < NUM_LEVELS && f in v[l] && Stays(level, in0, in1, l, f) && r in f.entries;
    FileRange(f, r);
    assert l <= level + 1;
    InputsAreFiles(v[level], v[level + 1], level == 0, in0, in1);
    InputFacts(v, level, in0, in1);
    StayingIsNewer(v, level, in0, in1, l, f, e, r);
  }

  ghost predicate NothingHidden(m: set<Entry>, rest: set<Entry>, base: UserKey -> bool)
  {
    forall e, r :: e in m && r in rest && e.ikey.user == r.ikey.user && base(e.ikey.user) ==> r.ikey.sn > e.ikey.sn
  }

  lemma RestHidesNothing(v: Version, level: nat, in0: seq<File>, in1: seq<File>)
    requires Shape(v) && level + 1 < NUM_LEVELS && InputsOk(v[level], v[level + 1], level == 0, in0, in1)
    ensures NothingHidden(Entries(in0) + Entries(in1), Rest(v, level, in0, in1), BaseOf(v, level))
  {
    forall e, r | e in Entries(in0) + Entries(in1) && r in Rest(v, level, in0, in1) &&
                  e.ikey.user == r.ikey.user && BaseLevel(v, level, e.ikey.user)
      ensures r.ikey.sn > e.ikey.sn
    {
      BaseLevelRestIsNewer(v, level, in0, in1, e, r);
    }
  }

  lemma DropUnder(above: set<Entry>, all: set<Entry>, all': set<Entry>, rest: set<Entry>,
                  m: seq<Entry>, snapshot: SeqNum, base: UserKey -> bool, k: UserKey, s: SeqNum)
    requires Sorted(m) && all == Elements(m) + rest && all' == Elements(Kept(m, |m|, snapshot, base)) + rest
    requires Newer(above, all) && Distinct(above + all)
    requires NothingHidden(Elements(m), rest, base)
    requires snapshot <= s && snapshot < MAX_SEQUENCE
    ensures Visible(above + all', k, s) == Visible(above + all, k, s)
  {
    assert above + all == Elements(m) + (above + rest);
    assert above + all' == Elements(Kept(m, |m|, snapshot, base)) + (above + rest);
    forall e, r | e in m && r in above + rest && e.ikey.user == r.ikey.user && base(e.ikey.user)
      ensures r.ikey.sn > e.ikey.sn
    {
      assert e in all;
    }
    DropPreserves(m, above + rest, snapshot, base, k, s);
  }

  /** Compaction changes no read from the oldest live snapshot on.  above holds
      the memtable entries, which a compaction does not touch. */
  lemma CompactionPreservesReads(v: Version, level: nat, in0: seq<File>, in1: seq<File>, outputs: seq<File>,
                                 m: seq<Entry>, snapshot: SeqNum, above: set<Entry>, k: UserKey, s: SeqNum)
    requires Shape(v) && Replaces(v, level, in0, in1, outputs)
    requires Sorted(m) && Elements(m) == Entries(in0) + Entries(in1)
    requires Entries(outputs) == Elements(Kept(m, |m|, snapshot, BaseOf(v, level)))
    requires Newer(above, AllEntries(v)) && Distinct(above + AllEntries(v))
    requires snapshot <= s && snapshot < MAX_SEQUENCE
    ensures Visible(above + AllEntries(Install(v, CompactionEdit(level, in0, in1, outputs))), k, s) ==
            Visible(above + AllEntries(v), k, s)
  {
    CompactionEntries(v, level, in0, in1, outputs);
    RestHidesNothing(v, level, in0, in1);
    DropUnder(above, AllEntries(v), AllEntries(Install(v, CompactionEdit(level, in0, in1, outputs))),
              Rest(v, level, in0, in1), m, snapshot, BaseOf(v, level), k, s);
  }

  lemma SameUnion(a: set<Entry>, b: set<Entry>, none: set<Entry>)
    requires none == {}
    ensures a + none + b == a + b
  {
  }

  /** A trivial move changes no entry at all. */
  lemma MovePreservesEntries(v: Version, level: nat, f: File)
    requires Shape(v) && Replaces(v, level, [f], [], [f])
    ensures AllEntries(Install(v, CompactionEdit(level, [f], [], [f]))) == AllEntries(v)
  {
    CompactionEntries(v, level, [f], [], [f]);
    SameUnion(Entries([f]), Rest(v, level, [f], []), Entries([]));
  }

  /** However the kept entries are cut into outputs, the output files are disjoint
      and in order, and hold exactly the kept entries. */
  lemma {:induction false} CutsAreDisjoint(cuts: seq<seq<Entry>>, files: seq<File>)
    requires |files| == |cuts| && forall i :: 0 <= i < |cuts| ==> files[i].entries == cuts[i]
    requires Sorted(Concat(cuts))
    ensures SortedDisjoint(files) && Entries(files) == Elements(Concat(cuts))
  {
    if cuts != [] {
      var n := |cuts| - 1;
      var init, done := cuts[..n], Concat(cuts[..n]);
      assert Concat(cuts) == done + cuts[n];
      SortedPrefixOf(done, cuts[n]);
      CutsAreDisjoint(init, files[..n]);
      CutAfter(files, done, n);
      assert files == files[..n] + [files[n]];
      assert forall e :: e in Entries(files) <==> e in Entries(files[..n]) || e in files[n].entries;
      assert forall e :: e in done + cuts[n] <==> e in done || e in cuts[n];
    }
  }

  lemma SortedPrefixOf(a: seq<Entry>, b: seq<Entry>)
    requires Sorted(a + b)
    ensures Sorted(a) && Sorted(b)
    ensures forall d, e :: d in a && e in b ==> Less(d.ikey, e.ikey)
  {
    var s := a + b;
    forall i, j | 0 <= i < j < |a| ensures Less(a[i].ikey, a[j].ikey) { assert a[i] == s[i] && a[j] == s[j]; }
    forall i, j | 0 <= i < j < |b| ensures Less(b[i].ikey, b[j].ikey) {
      assert b[i] == s[|a| + i] && b[j] == s[|a| + j];
    }
    forall d, e | d in a && e in b ensures Less(d.ikey, e.ikey) {
      var i :| 0 <= i < |a| && a[i] == d;
      var j :| 0 <= j < |b| && b[j] == e;
      assert s[i] == d && s[|a| + j] == e;
    }
  }

  lemma CutAfter(files: seq<File>, done: seq<Entry>, n: nat)
    requires |files| == n + 1 && SortedDisjoint(files[..n]) && Entries(files[..n]) == Elements(done)
    requires forall d, e :: d in done && e in files[n].entries ==> Less(d.ikey, e.ikey)
    ensures SortedDisjoint(files)
  {
    forall i, j | 0 <= i < j < |files| ensures Before(files[i], files[j]) {
      var f, g := files[i], files[j];
      if j < n {
        assert f == files[..n][i] && g == files[..n][j];
      } else {
        var last := f.entries[|f.entries| - 1];
        assert f in files[..n];
        EntriesMember(files[..n], f, last);
        assert g.entries[0] in g.entries;
      }
    }
  }

  // ---- Flushing a memtable ----------------------------------------------------

  /** A flushed table: newest of all, with a file number above all others, at the
      level PickLevelForMemTableOutput allows. */
  ghost predicate Flushes(v: Version, level: nat, f: File)
  {
    && level <= MAX_MEM_COMPACT_LEVEL
    && (level > 0 ==> forall l :: 0 <= l <= level ==> Clear(v[l], f.Smallest().user, f.Largest().user))
    && (forall l, g :: 0 <= l < NUM_LEVELS && g in v[l] ==> g.number < f.number)
    && Newer(Elements(f.entries), AllEntries(v))
    && Distinct(Elements(f.entries) + AllEntries(v))
  }

  ghost predicate Flushed(v: Version, v': Version, level: nat, f: File)
  {
    && level < NUM_LEVELS
    && (forall l :: 0 <= l < NUM_LEVELS && l != level ==> v'[l] == v[l])
    && (forall g :: g in v'[level] <==> g in v[level] || g == f)
  }

  lemma FlushLevel(files: seq<File>, f: File)
    requires Ordered(files) && NumberDetermines(files, []) && forall g :: g in files ==> g.number < f.number
    ensures var r := LiveStep(files, LevelEdit({}, [f])); Ordered(r) && forall g :: g in r <==> g in files || g == f
  {
    assert NumberDetermines(files, [f]);
    LiveStepMembers(files, LevelEdit({}, [f]));
  }

  lemma FlushMembers(v: Version, level: nat, f: File)
    requires Shape(v) && Flushes(v, level, f)
    ensures var v' := Install(v, FlushEdit(level, f)); Flushed(v, v', level, f) && LevelsOrdered(v')
  {
    var v' := Install(v, FlushEdit(level, f));
    forall l | 0 <= l < NUM_LEVELS ensures Ordered(v'[l]) && (l != level ==> v'[l] == v[l]) {
      LevelDetermines(v, l);
      if l == level { FlushLevel(v[l], f); } else { EmptyEdit(v[l]); }
    }
    LevelDetermines(v, level);
    FlushLevel(v[level], f);
  }

  lemma FlushEntries(v: Version, v': Version, level: nat, f: File)
    requires Flushed(v, v', level, f)
    ensures AllEntries(v') == AllEntries(v) + Elements(f.entries)
    ensures forall l, e :: 0 <= l < NUM_LEVELS && e in Entries(v'[l]) ==>
            e in Entries(v[l]) || (l == level && e in f.entries)
  {
    forall l, e | 0 <= l < NUM_LEVELS && e in Entries(v'[l])
      ensures e in Entries(v[l]) || (l == level && e in f.entries)
    {
      var g :| g in v'[l] && e in g.entries;
      if g in v[l] { EntriesMember(v[l], g, e); }
    }
    forall e | e in AllEntries(v) ensures e in AllEntries(v') {
      var l :| 0 <= l < NUM_LEVELS && e in Entries(v[l]);
      var g :| g in v[l] && e in g.entries;
      EntriesMember(v'[l], g, e);
    }
    forall e | e in f.entries ensures e in AllEntries(v') { EntriesMember(v'[level], f, e); }
  }

  /** A level the flushed table was pushed past shares no user key with it. */
  lemma ClearSharesNoKey(files: seq<File>, f: File, e: Entry, d: Entry)
    requires Clear(files, f.Smallest().user, f.Largest().user)
    requires e in Entries(files) && d in f.entries
    ensures e.ikey.user != d.ikey.user
  {
    var g :| g in files && e in g.entries;
    FileRange(g, e);
    FileRange(f, d);
    assert !Overlaps(g, Some(f.Smallest().user), Some(f.Largest().user));
  }

  lemma FlushAgedPair(v: Version, level: nat, f: File, l: nat, m: nat, e: Entry, d: Entry)
    requires LevelsAged(v) && l < m < NUM_LEVELS
    requires Newer(Elements(f.entries), AllEntries(v))
    requires l < level ==> Clear(v[l], f.Smallest().user, f.Largest().user)
    requires e in Entries(v[l]) || (l == level && e in f.entries)
    requires d in Entries(v[m]) || (m == level && d in f.entries)
    requires e.ikey.user == d.ikey.user
    ensures e.ikey.sn > d.ikey.sn
  {
    if d in Entries(v[m]) {
      if e in Entries(v[l]) {
        assert Newer(Entries(v[l]), Entries(v[m]));
      } else {
        assert e in Elements(f.entries) && d in AllEntries(v);
      }
    } else {
      ClearSharesNoKey(v[l], f, e, d);
    }
  }

  lemma FlushKeepsAges(v: Version, v': Version, level: nat, f: File)
    requires LevelsAged(v) && Flushes(v, level, f) && Flushed(v, v', level, f)
    ensures LevelsAged(v')
  {
    FlushEntries(v, v', level, f);
    forall l, m, e, d | 0 <= l < m < NUM_LEVELS && e in Entries(v'[l]) && d in Entries(v'[m]) &&
        e.ikey.user == d.ikey.user
      ensures e.ikey.sn > d.ikey.sn
    {
      FlushAgedPair(v, level, f, l, m, e, d);
    }
  }

  lemma FlushKeepsDisjoint(v: Version, v': Version, level: nat, f: File)
    requires LevelsDisjoint(v) && Flushes(v, level, f) && Flushed(v, v', level, f)
    ensures LevelsDisjoint(v')
  {
    forall l | 1 <= l < NUM_LEVELS ensures PairwiseDisjoint(v'[l]) {
      assert PairwiseDisjoint(v[l]);
      if l == level {
        assert Clear(v[l], f.Smallest().user, f.Largest().user);
        forall g | g in v[l] ensures Before(f, g) || Before(g, f) {
          assert !Overlaps(g, Some(f.Smallest().user), Some(f.Largest().user));
        }
      }
    }
  }

  lemma FlushKeepsNumbers(v: Version, v': Version, level: nat, f: File)
    requires UniqueNumbers(v) && Flushed(v, v', level, f)
    requires forall l, g :: 0 <= l < NUM_LEVELS && g in v[l] ==> g.number < f.number
    ensures UniqueNumbers(v')
  {
    forall l, m, g, h | 0 <= l < NUM_LEVELS && 0 <= m < NUM_LEVELS && g in v'[l] && h in v'[m] && g.number == h.number
      ensures l == m && g == h
    {
      assert g in v[l] || (l == level && g == f);
      assert h in v[m] || (m == level && h == f);
    }
  }

  lemma FlushKeepsLevelZero(files: seq<File>, files': seq<File>, f: File, all: set<Entry>)
    requires LevelZeroAged(files) && (forall g :: g in files' ==> g in files || g == f)
    requires forall g :: g in files ==> g.number < f.number
    requires Newer(Elements(f.entries), all) && Entries(files) <= all
    ensures LevelZeroAged(files')
  {
    forall g, h | g in files' && h in files' && g.number > h.number
      ensures Newer(Elements(g.entries), Elements(h.entries))
    {
      if g == f {
        forall e | e in Elements(h.entries) ensures e in all { EntriesMember(files, h, e); }
      }
    }
  }

  /** A flush keeps the level shape and adds exactly the memtable's entries. */
  lemma FlushKeepsShape(v: Version, level: nat, f: File)
    requires Shape(v) && Flushes(v, level, f)
    ensures var v' := Install(v, FlushEdit(level, f));
            Shape(v') && AllEntries(v') == AllEntries(v) + Elements(f.entries)
  {
    var v' := Install(v, FlushEdit(level, f));
    FlushMembers(v, level, f);
    FlushedKeepsShape(v, v', level, f);
  }

  lemma FlushedKeepsShape(v: Version, v': Version, level: nat, f: File)
    requires Shape(v) && Flushes(v, level, f) && Flushed(v, v', level, f) && LevelsOrdered(v')
    ensures Shape(v') && AllEntries(v') == AllEntries(v) + Elements(f.entries)
  {
    FlushEntries(v, v', level, f);
    FlushKeepsNumbers(v, v', level, f);
    FlushKeepsAges(v, v', level, f);
    FlushKeepsDisjoint(v, v', level, f);
    assert Entries(v[0]) <= AllEntries(v);
    FlushKeepsLevelZero(v[0], v'[0], f, AllEntries(v));
    assert AllEntries(v') == Elements(f.entries) + AllEntries(v);
  }
}
