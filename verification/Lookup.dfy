/**
 Point lookup in a version: FindFile, SomeFileOverlapsRange,
 ForEachOverlapping and Version::Get (db/version_set.cc).
 */
module Lookup {
  import opened Keys
  import opened Versions

  /** Index of the first file whose largest key is at or after key. */
  method FindFile(files: seq<File>, key: IKey) returns (index: nat)
    requires SortedDisjoint(files)
    ensures index <= |files|
    ensures forall i :: 0 <= i < index ==> Less(files[i].Largest(), key)
    ensures forall i :: index <= i < |files| ==> AtMost(key, files[i].Largest())
  {
    var left, right := 0, |files|;
    while left < right
      invariant 0 <= left <= right <= |files|
      invariant forall i :: 0 <= i < left ==> Less(files[i].Largest(), key)
      invariant forall i :: right <= i < |files| ==> AtMost(key, files[i].Largest())
    {
      var mid := (left + right) / 2;
      if Less(files[mid].Largest(), key) {
        forall i | 0 <= i < mid ensures Less(files[i].Largest(), key) { LargestIncreases(files, i, mid); }
        left := mid + 1;
      } else {
        forall i | mid < i < |files| ensures AtMost(key, files[i].Largest()) { LargestIncreases(files, mid, i); }
        right := mid;
      }
    }
    index := right;
  }

  lemma LargestIncreases(files: seq<File>, i: nat, j: nat)
    requires SortedDisjoint(files) && i < j < |files|
    ensures Less(files[i].Largest(), files[j].Largest())
  {
    assert Before(files[i], files[j]);
    FileRange(files[j], files[j].entries[0]);
  }

  /** Binary search on sorted levels and the linear scan of level 0 both decide
      whether some file meets the user-key range. */
  method SomeFileOverlapsRange(disjointSorted: bool, files: seq<File>, lo: Option<UserKey>, hi: Option<UserKey>)
    returns (b: bool)
    requires disjointSorted ==> SortedDisjoint(files)
    ensures b <==> exists f :: f in files && Overlaps(f, lo, hi)
  {
    if !disjointSorted {
      for i := 0 to |files|
        invariant forall j :: 0 <= j < i ==> !Overlaps(files[j], lo, hi)
      {
        if Overlaps(files[i], lo, hi) {
          return true;
        }
      }
      return false;
    }
    var index: nat := 0;
    if lo.Some? {
      index := FindFile(files, SeekKey(lo.value, MAX_SEQUENCE));
    }
    if index >= |files| {
      return false;
    }
    b := !(hi.Some? && hi.value < files[index].Smallest().user);
    if b {
      assert Overlaps(files[index], lo, hi);
    } else {
      forall i | 0 <= i < |files| ensures !Overlaps(files[i], lo, hi) {
        if index < i {
          assert Before(files[index], files[i]);
          FileRange(files[index], files[index].entries[0]);
        }
      }
    }
  }

  // ---- One table -------------------------------------------------------------

  function FirstAtLeast(es: seq<Entry>, t: IKey): (i: nat)
    requires Sorted(es)
    ensures i <= |es|
    ensures forall j :: 0 <= j < i ==> Less(es[j].ikey, t)
    ensures forall j :: i <= j < |es| ==> AtMost(t, es[j].ikey)
  {
    if es == [] || !Less(es[0].ikey, t) then 0 else 1 + FirstAtLeast(es[1..], t)
  }

  /** Seek to (k, s) and accept the entry found only if its user key is k:
      MemTable::Get, and Table::InternalGet with the SaveValue callback. */
  function SeekGet(es: seq<Entry>, k: UserKey, s: SeqNum): (r: Option<Entry>)
    requires Sorted(es)
    ensures r.Some? ==> IsNewest(Elements(es), k, s, r.value)
    ensures r.None? ==> forall e :: e in es ==> !Matches(e, k, s)
  {
    var i := FirstAtLeast(es, SeekKey(k, s));
    assert forall e :: e in es && e.ikey.user == k ==> (Less(e.ikey, SeekKey(k, s)) <==> e.ikey.sn > s) by {
      forall e | e in es && e.ikey.user == k ensures Less(e.ikey, SeekKey(k, s)) <==> e.ikey.sn > s {
        SeekSkipsOnlyTooNew(e.ikey, k, s);
      }
    }
    if i < |es| && es[i].ikey.user == k then Some(es[i]) else None
  }

  /** TableCache::Get. */
  function TableGet(f: File, k: UserKey, s: SeqNum): (r: Option<Entry>)
    ensures r.Some? ==> IsNewest(Elements(f.entries), k, s, r.value)
    ensures r.None? ==> forall e :: e in f.entries ==> !Matches(e, k, s)
  {
    SeekGet(f.entries, k, s)
  }

  // ---- Level 0 ---------------------------------------------------------------

  function InsertNewestFirst(f: File, files: seq<File>): (r: seq<File>)
    requires NewestFirst(files)
    ensures NewestFirst(r)
    ensures forall g :: g in r <==> g == f || g in files
  {
    if files == [] then [f]
    else if f.number > files[0].number then
      NewestTail(files);
      NewestCons(f, files);
      [f] + files
    else
      NewestTail(files);
      var rest := InsertNewestFirst(f, files[1..]);
      NewestCons(files[0], rest);
      assert files == [files[0]] + files[1..];
      [files[0]] + rest
  }

  lemma NewestCons(f: File, files: seq<File>)
    requires NewestFirst(files) && forall g :: g in files ==> g.number <= f.number
    ensures NewestFirst([f] + files)
  {
    var r := [f] + files;
    forall i, j | 0 <= i < j < |r| ensures r[i].number >= r[j].number {
      assert r[j] == files[j - 1] && r[j] in files;
    }
  }

  lemma NewestTail(files: seq<File>)
    requires NewestFirst(files) && files != []
    ensures NewestFirst(files[1..])
    ensures forall g :: g in files ==> g.number <= files[0].number
  {
  }

  predicate NewestFirst(files: seq<File>)
  {
    forall i, j :: 0 <= i < j < |files| ==> files[i].number >= files[j].number
  }

  /** std::sort with the NewestFirst comparator. */
  function SortNewestFirst(files: seq<File>): (r: seq<File>)
    ensures NewestFirst(r)
    ensures forall g :: g in r <==> g in files
  {
    if files == [] then []
    else
      assert files == [files[0]] + files[1..];
      InsertNewestFirst(files[0], SortNewestFirst(files[1..]))
  }

  /** The level-0 files whose user-key range contains k, newest first. */
  method LevelZeroCandidates(files: seq<File>, k: UserKey) returns (r: seq<File>)
    ensures NewestFirst(r)
    ensures forall f :: f in r <==> f in files && Covers(f, k)
  {
    var tmp: seq<File> := [];
    for i := 0 to |files|
      invariant forall f :: f in tmp <==> f in files[..i] && Covers(f, k)
    {
      if Covers(files[i], k) {
        tmp := tmp + [files[i]];
      }
    }
    assert files[..|files|] == files;
    r := SortNewestFirst(tmp);
  }

  // ---- Get -------------------------------------------------------------------

  /** No entry of level l matches. */
  ghost predicate Missing(files: seq<File>, k: UserKey, s: SeqNum)
  {
    forall e :: e in Entries(files) ==> !Matches(e, k, s)
  }

  ghost predicate MissingBelow(v: Version, level: nat, k: UserKey, s: SeqNum)
    requires level <= NUM_LEVELS
  {
    forall l :: 0 <= l < level ==> Missing(v[l], k, s)
  }

  /** An entry newest within its level, when shallower levels have no match, is
      newest overall: deeper levels are older. */
  lemma NewestInLevelIsNewest(v: Version, level: nat, k: UserKey, s: SeqNum, e: Entry)
    requires Shape(v) && level < NUM_LEVELS
    requires MissingBelow(v, level, k, s)
    requires IsNewest(Entries(v[level]), k, s, e)
    ensures IsNewest(AllEntries(v), k, s, e)
  {
    forall d | d in AllEntries(v) && Matches(d, k, s) ensures d.ikey.sn <= e.ikey.sn {
      var m :| 0 <= m < NUM_LEVELS && d in Entries(v[m]);
      if m > level {
        assert Newer(Entries(v[level]), Entries(v[m]));
      }
    }
  }

  lemma LevelZeroHit(files: seq<File>, hits: seq<File>, i: nat, k: UserKey, s: SeqNum)
    requires LevelZeroAged(files)
    requires forall f, g :: f in files && g in files && f.number == g.number ==> f == g
    requires forall f :: f in hits <==> f in files && Covers(f, k)
    requires NewestFirst(hits) && i < |hits|
    requires forall j :: 0 <= j < i ==> TableGet(hits[j], k, s).None?
    requires TableGet(hits[i], k, s).Some?
    ensures IsNewest(Entries(files), k, s, TableGet(hits[i], k, s).value)
  {
    var e := TableGet(hits[i], k, s).value;
    assert e in hits[i].entries;
    EntriesMember(files, hits[i], e);
    forall d | d in Entries(files) && Matches(d, k, s) ensures d.ikey.sn <= e.ikey.sn {
      var f :| f in files && d in f.entries;
      FileRange(f, d);
      var j :| 0 <= j < |hits| && hits[j] == f;
      if j == i {
        assert d in Elements(f.entries);
      } else if f.number == hits[i].number {
        assert f == hits[i];
        assert d in Elements(f.entries);
      } else if j > i {
        assert Newer(Elements(hits[i].entries), Elements(f.entries));
        assert d in Elements(f.entries) && e in Elements(hits[i].entries);
      }
    }
  }

  lemma LevelZeroMiss(files: seq<File>, hits: seq<File>, k: UserKey, s: SeqNum)
    requires forall f :: f in hits <==> f in files && Covers(f, k)
    requires forall j :: 0 <= j < |hits| ==> TableGet(hits[j], k, s).None?
    ensures Missing(files, k, s)
  {
    forall d | d in Entries(files) ensures !Matches(d, k, s) {
      var f :| f in files && d in f.entries;
      FileRange(f, d);
      if Covers(f, k) {
        var j :| 0 <= j < |hits| && hits[j] == f;
        assert TableGet(hits[j], k, s).None?;
      }
    }
  }

  /** What FindFile answers for a sorted level: files before index end before the target. */
  ghost predicate FirstCandidate(files: seq<File>, index: nat, k: UserKey, s: SeqNum)
  {
    && SortedDisjoint(files)
    && index < |files|
    && (forall i :: 0 <= i < index ==> Less(files[i].Largest(), SeekKey(k, s)))
    && AtMost(SeekKey(k, s), files[index].Largest())
  }

  lemma NoMatchBefore(files: seq<File>, index: nat, i: nat, d: Entry, k: UserKey, s: SeqNum)
    requires FirstCandidate(files, index, k, s)
    requires i < index && d in files[i].entries
    ensures !Matches(d, k, s)
  {
    FileRange(files[i], d);
  }

  /** A match after the candidate file follows the candidate's last entry. */
  lemma MatchAfter(files: seq<File>, index: nat, i: nat, d: Entry, k: UserKey, s: SeqNum)
    requires FirstCandidate(files, index, k, s)
    requires index < i < |files| && d in files[i].entries && Matches(d, k, s)
    ensures files[index].Largest().user == k && d.ikey.sn <= files[index].Largest().sn <= s
  {
    assert Before(files[index], files[i]);
    FileRange(files[i], d);
  }

  lemma SortedLevelMiss(files: seq<File>, index: nat, k: UserKey, s: SeqNum)
    requires FirstCandidate(files, index, k, s)
    requires forall e :: e in files[index].entries ==> !Matches(e, k, s)
    ensures Missing(files, k, s)
  {
    var f := files[index];
    assert !Matches(f.entries[|f.entries| - 1], k, s);
    forall d | d in Entries(files) ensures !Matches(d, k, s) {
      var g :| g in files && d in g.entries;
      var i :| 0 <= i < |files| && files[i] == g;
      if i < index {
        NoMatchBefore(files, index, i, d, k, s);
      } else if i > index && Matches(d, k, s) {
        MatchAfter(files, index, i, d, k, s);
      }
    }
  }

  /** The candidate file holds the newest match, even when k continues in the
      following files. */
  lemma SortedLevelFound(files: seq<File>, index: nat, k: UserKey, s: SeqNum)
    requires FirstCandidate(files, index, k, s)
    requires TableGet(files[index], k, s).Some?
    ensures IsNewest(Entries(files), k, s, TableGet(files[index], k, s).value)
  {
    var f := files[index];
    var e := TableGet(f, k, s).value;
    assert e in f.entries;
    EntriesMember(files, f, e);
    forall d | d in Entries(files) && Matches(d, k, s) ensures d.ikey.sn <= e.ikey.sn {
      var g :| g in files && d in g.entries;
      var i :| 0 <= i < |files| && files[i] == g;
      if i < index {
        NoMatchBefore(files, index, i, d, k, s);
      } else if i == index {
        assert d in Elements(g.entries);
      } else {
        MatchAfter(files, index, i, d, k, s);
        FileRange(f, e);
      }
    }
  }

  lemma PastAllFiles(files: seq<File>, k: UserKey, s: SeqNum)
    requires forall i :: 0 <= i < |files| ==> Less(files[i].Largest(), SeekKey(k, s))
    ensures Missing(files, k, s)
  {
    forall d | d in Entries(files) ensures !Matches(d, k, s) {
      var g :| g in files && d in g.entries;
      FileRange(g, d);
    }
  }

  /** One level below level 0: binary search, then at most one table is read. */
  method GetFromSortedLevel(files: seq<File>, k: UserKey, s: SeqNum) returns (r: Option<Entry>)
    requires SortedDisjoint(files)
    ensures r.Some? ==> IsNewest(Entries(files), k, s, r.value)
    ensures r.None? ==> Missing(files, k, s)
  {
    if |files| == 0 {
      return None;
    }
    var index := FindFile(files, SeekKey(k, s));
    if index < |files| {
      var f := files[index];
      if k < f.Smallest().user {
        // All of f is past any data for k.
        forall e | e in f.entries ensures !Matches(e, k, s) { FileRange(f, e); }
        SortedLevelMiss(files, index, k, s);
        return None;
      }
      r := TableGet(f, k, s);
      if r.Some? {
        SortedLevelFound(files, index, k, s);
      } else {
        SortedLevelMiss(files, index, k, s);
      }
    } else {
      PastAllFiles(files, k, s);
      r := None;
    }
  }

  /** Level 0: the candidates are read newest first. */
  method GetFromLevelZero(files: seq<File>, k: UserKey, s: SeqNum) returns (r: Option<Entry>)
    requires LevelZeroAged(files)
    requires forall f, g :: f in files && g in files && f.number == g.number ==> f == g
    ensures r.Some? ==> IsNewest(Entries(files), k, s, r.value)
    ensures r.None? ==> Missing(files, k, s)
  {
    var hits := LevelZeroCandidates(files, k);
    for i := 0 to |hits|
      invariant forall j :: 0 <= j < i ==> TableGet(hits[j], k, s).None?
    {
      r := TableGet(hits[i], k, s);
      if r.Some? {
        LevelZeroHit(files, hits, i, k, s);
        return;
      }
    }
    LevelZeroMiss(files, hits, k, s);
    r := None;
  }

  lemma SearchableLevels(v: Version)
    requires Shape(v)
    ensures forall f, g :: f in v[0] && g in v[0] && f.number == g.number ==> f == g
    ensures forall l :: 1 <= l < NUM_LEVELS ==> SortedDisjoint(v[l])
  {
    forall l | 1 <= l < NUM_LEVELS ensures SortedDisjoint(v[l]) {
      assert Ordered(v[l]) && PairwiseDisjoint(v[l]);
      OrderedDisjointIsSorted(v[l]);
    }
  }

  lemma MissingEverywhere(v: Version, k: UserKey, s: SeqNum)
    requires MissingBelow(v, NUM_LEVELS, k, s)
    ensures Newest(AllEntries(v), k, s) == None
  {
    forall d | d in AllEntries(v) ensures !Matches(d, k, s) {
      var m :| 0 <= m < NUM_LEVELS && d in Entries(v[m]);
      assert Missing(v[m], k, s);
    }
  }

  /** ForEachOverlapping driving Version::Get's Match callback: stop at the first
      table that yields an entry for k.  That entry is the newest of all. */
  method Find(v: Version, k: UserKey, s: SeqNum) returns (r: Option<Entry>)
    requires Shape(v)
    ensures r == Newest(AllEntries(v), k, s)
  {
    SearchableLevels(v);
    r := GetFromLevelZero(v[0], k, s);
    var level := 1;
    while r.None? && level < NUM_LEVELS
      invariant 1 <= level <= NUM_LEVELS
      invariant r.None? ==> MissingBelow(v, level, k, s)
      invariant r.Some? ==> MissingBelow(v, level - 1, k, s) && IsNewest(Entries(v[level - 1]), k, s, r.value)
    {
      r := GetFromSortedLevel(v[level], k, s);
      level := level + 1;
    }
    if r.Some? {
      NewestInLevelIsNewest(v, level - 1, k, s, r.value);
      NewestUnique(AllEntries(v), k, s, r.value);
    } else {
      MissingEverywhere(v, k, s);
    }
  }

  /** Version::Get: a deletion marker ends the search and reads as NotFound. */
  method Get(v: Version, k: UserKey, s: SeqNum) returns (r: Option<Value>)
    requires Shape(v)
    ensures r == Visible(AllEntries(v), k, s)
  {
    var e := Find(v, k, s);
    r := ReadOf(e);
  }
}
