/**
 Table files, versions, and the level shape every version keeps
 (db/version_edit.h, db/version_set.h, db/version_set.cc).
 */
module Versions {
  import opened Keys

  /** config::kNumLevels. */
  const NUM_LEVELS: nat := 7

  /** FileMetaData together with the entries of the table it names. */
  datatype TableFile = TableFile(number: nat, size: nat, entries: seq<Entry>)
  {
    predicate WellFormed()
    {
      entries != [] && Sorted(entries)
    }

    /** FileMetaData::smallest */
    function Smallest(): IKey
      requires entries != []
    {
      entries[0].ikey
    }

    /** FileMetaData::largest */
    function Largest(): IKey
      requires entries != []
    {
      entries[|entries| - 1].ikey
    }
  }

  /** Only nonempty tables enter a version; a table is strictly sorted. */
  type File = f: TableFile | f.WellFormed() witness TableFile(0, 0, [Entry(IKey(0.0, 0, Put), "")])

  type Version = v: seq<seq<File>> | |v| == NUM_LEVELS witness [[], [], [], [], [], [], []]

  /** The numbers of all files are below the next file number. */
  ghost predicate FilesNumbered(v: Version, next: nat)
  {
    forall l, f :: 0 <= l < NUM_LEVELS && f in v[l] ==> f.number < next
  }

  ghost function Entries(files: seq<File>): set<Entry>
  {
    set f, e | f in files && e in f.entries :: e
  }

  ghost function AllEntries(v: Version): set<Entry>
  {
    set l, e | 0 <= l < NUM_LEVELS && e in Entries(v[l]) :: e
  }

  lemma EntriesMember(files: seq<File>, f: File, e: Entry)
    requires f in files && e in f.entries
    ensures e in Entries(files)
  {
  }

  // ---- Order and overlap of files -----------------------------------------

  /** Builder::BySmallestKey. */
  predicate BySmallest(f: File, g: File)
  {
    Less(f.Smallest(), g.Smallest()) || (f.Smallest() == g.Smallest() && f.number < g.number)
  }

  predicate Ordered(files: seq<File>)
  {
    forall i, j :: 0 <= i < j < |files| ==> BySmallest(files[i], files[j])
  }

  predicate Before(f: File, g: File)
  {
    Less(f.Largest(), g.Smallest())
  }

  /** The internal-key ranges of a sorted level do not overlap. */
  predicate SortedDisjoint(files: seq<File>)
  {
    forall i, j :: 0 <= i < j < |files| ==> Before(files[i], files[j])
  }

  predicate PairwiseDisjoint(files: seq<File>)
  {
    forall f, g :: f in files && g in files && f != g ==> Before(f, g) || Before(g, f)
  }

  /** The user-key range of f contains k. */
  predicate Covers(f: File, k: UserKey)
  {
    f.Smallest().user <= k <= f.Largest().user
  }

  /** The user-key range of f meets [lo, hi]; a missing bound is unbounded
      (AfterFile, BeforeFile). */
  predicate Overlaps(f: File, lo: Option<UserKey>, hi: Option<UserKey>)
  {
    (lo.Some? ==> lo.value <= f.Largest().user) && (hi.Some? ==> f.Smallest().user <= hi.value)
  }

  lemma FileRange(f: File, e: Entry)
    requires e in f.entries
    ensures AtMost(f.Smallest(), e.ikey) && AtMost(e.ikey, f.Largest())
    ensures Covers(f, e.ikey.user)
  {
  }

  lemma OrderedDisjointIsSorted(files: seq<File>)
    requires Ordered(files) && PairwiseDisjoint(files)
    ensures SortedDisjoint(files)
  {
    forall i, j | 0 <= i < j < |files| ensures Before(files[i], files[j]) {
      var f, g := files[i], files[j];
      assert BySmallest(f, g);
      FileRange(f, f.entries[0]);
      FileRange(g, g.entries[0]);
      assert f in files && g in files;
    }
  }

  lemma SortedDisjointIsOrdered(files: seq<File>)
    requires SortedDisjoint(files)
    ensures Ordered(files) && PairwiseDisjoint(files)
  {
    forall i, j | 0 <= i < j < |files| ensures BySmallest(files[i], files[j]) {
      var f := files[i];
      assert Before(f, files[j]);
      FileRange(f, f.entries[0]);
    }
  }

  // ---- The level shape ------------------------------------------------------

  /** Every entry of a is newer than every entry of b for the same user key. */
  ghost predicate Newer(a: set<Entry>, b: set<Entry>)
  {
    forall e, d :: e in a && d in b && e.ikey.user == d.ikey.user ==> e.ikey.sn > d.ikey.sn
  }

  ghost predicate UniqueNumbers(v: Version)
  {
    forall l, m, f, g :: 0 <= l < NUM_LEVELS && 0 <= m < NUM_LEVELS && f in v[l] && g in v[m] && f.number == g.number
      ==> l == m && f == g
  }

  ghost predicate LevelsDisjoint(v: Version)
  {
    forall l :: 1 <= l < NUM_LEVELS ==> PairwiseDisjoint(v[l])
  }

  ghost predicate LevelsOrdered(v: Version)
  {
    forall l :: 0 <= l < NUM_LEVELS ==> Ordered(v[l])
  }

  /** Shallower levels hold newer entries. */
  ghost predicate LevelsAged(v: Version)
  {
    forall l, m :: 0 <= l < m < NUM_LEVELS ==> Newer(Entries(v[l]), Entries(v[m]))
  }

  /** Among level-0 files the larger file number is the newer one. */
  ghost predicate LevelZeroAged(files: seq<File>)
  {
    forall f, g :: f in files && g in files && f.number > g.number ==> Newer(Elements(f.entries), Elements(g.entries))
  }

  ghost predicate Shape(v: Version)
  {
    && UniqueNumbers(v)
    && LevelsOrdered(v)
    && LevelsDisjoint(v)
    && LevelsAged(v)
    && LevelZeroAged(v[0])
    && Distinct(AllEntries(v))
  }
}
