/**
 Choosing the files of a compaction and the level of a flushed memtable:
 GetOverlappingInputs, AddBoundaryInputs, SetupOtherInputs, PickCompaction,
 CompactRange and PickLevelForMemTableOutput (db/version_set.cc).
 */
module InputSelection {
  import opened Keys
  import opened Versions
  import Lookup
  import Seqs

  // ---- GetOverlappingInputs ----------------------------------------------

  /** The files that meet [lo, hi], in their order. */
  function Overlapping(files: seq<File>, lo: Option<UserKey>, hi: Option<UserKey>): (r: seq<File>)
    ensures forall f :: f in r <==> f in files && Overlaps(f, lo, hi)
  {
    if files == [] then []
    else
      var last := |files| - 1;
      assert files == files[..last] + [files[last]];
      Overlapping(files[..last], lo, hi) + if Overlaps(files[last], lo, hi) then [files[last]] else []
  }

  predicate Within(f: File, lo: Option<UserKey>, hi: Option<UserKey>)
  {
    (lo.Some? ==> lo.value <= f.Smallest().user) && (hi.Some? ==> f.Largest().user <= hi.value)
  }

  /** [lo, hi] contains [begin, end] and is unbounded only where that is. */
  predicate Widens(begin: Option<UserKey>, end: Option<UserKey>, lo: Option<UserKey>, hi: Option<UserKey>)
  {
    && (begin.Some? <==> lo.Some?) && (end.Some? <==> hi.Some?)
    && (lo.Some? ==> lo.value <= begin.value) && (hi.Some? ==> end.value <= hi.value)
  }

  /** No file sticks out of [lo, hi]: those that meet it lie inside it. */
  ghost predicate ClosedRange(files: seq<File>, lo: Option<UserKey>, hi: Option<UserKey>)
  {
    forall f :: f in files && Overlaps(f, lo, hi) ==> Within(f, lo, hi)
  }

  /** How many files reach past lo or past hi: what a restart uses up. */
  ghost function StickingOut(files: seq<File>, lo: Option<UserKey>, hi: Option<UserKey>): nat
  {
    if files == [] then 0
    else
      StickingOut(files[1..], lo, hi) +
      (if lo.Some? && files[0].Smallest().user < lo.value then 1 else 0) +
      (if hi.Some? && files[0].Largest().user > hi.value then 1 else 0)
  }

  lemma {:induction false} WideningUsesUp(files: seq<File>, lo: Option<UserKey>, hi: Option<UserKey>,
                                          lo': Option<UserKey>, hi': Option<UserKey>)
    requires Widens(lo, hi, lo', hi')
    ensures StickingOut(files, lo', hi') <= StickingOut(files, lo, hi)
    ensures forall f :: f in files &&
              ((lo.Some? && lo'.value == f.Smallest().user < lo.value) ||
               (hi.Some? && hi'.value == f.Largest().user > hi.value))
              ==> StickingOut(files, lo', hi') < StickingOut(files, lo, hi)
  {
    if files != [] {
      WideningUsesUp(files[1..], lo, hi, lo', hi');
      assert files == [files[0]] + files[1..];
    }
  }

  /** Every closed range around [begin, end] contains [lo, hi]. */
  ghost predicate Least(files: seq<File>, begin: Option<UserKey>, end: Option<UserKey>,
                        lo: Option<UserKey>, hi: Option<UserKey>)
  {
    forall a, b :: Widens(begin, end, a, b) && ClosedRange(files, a, b) ==> Widens(lo, hi, a, b)
  }

  lemma LeastStart(files: seq<File>, begin: Option<UserKey>, end: Option<UserKey>)
    ensures Least(files, begin, end, begin, end)
  {
  }

  /** Growing the range to take in a file that meets it keeps it least. */
  lemma StaysLeast(files: seq<File>, begin: Option<UserKey>, end: Option<UserKey>,
                   lo: Option<UserKey>, hi: Option<UserKey>, f: File)
    requires Least(files, begin, end, lo, hi) && Widens(begin, end, lo, hi)
    requires f in files && Overlaps(f, lo, hi)
    ensures lo.Some? && f.Smallest().user < lo.value ==> Least(files, begin, end, Some(f.Smallest().user), hi)
    ensures hi.Some? && f.Largest().user > hi.value ==> Least(files, begin, end, lo, Some(f.Largest().user))
  {
    forall a, b | Widens(begin, end, a, b) && ClosedRange(files, a, b)
      ensures Widens(lo, hi, a, b) && Within(f, a, b)
    {
      assert Overlaps(f, a, b);
    }
  }

  lemma OverlappingSnoc(files: seq<File>, i: nat, lo: Option<UserKey>, hi: Option<UserKey>)
    requires i < |files|
    ensures Overlapping(files[..i + 1], lo, hi) ==
            Overlapping(files[..i], lo, hi) + if Overlaps(files[i], lo, hi) then [files[i]] else []
  {
    assert files[..i + 1][..i] == files[..i];
  }

  /** Version::GetOverlappingInputs.  On level 0 the scan restarts whenever a
      chosen file widens the range; it ends with the least closed range. */
  method GetOverlappingInputs(files: seq<File>, levelZero: bool, begin: Option<UserKey>, end: Option<UserKey>)
    returns (inputs: seq<File>, lo: Option<UserKey>, hi: Option<UserKey>)
    ensures inputs == Overlapping(files, lo, hi)
    ensures Widens(begin, end, lo, hi)
    ensures !levelZero ==> lo == begin && hi == end
    ensures levelZero ==> ClosedRange(files, lo, hi)
    ensures Least(files, begin, end, lo, hi)
  {
    LeastStart(files, begin, end);
    hide Least, Overlaps, StickingOut;
    inputs, lo, hi := [], begin, end;
    var i := 0;
    while i < |files|
      invariant 0 <= i <= |files|
      invariant inputs == Overlapping(files[..i], lo, hi)
      invariant Widens(begin, end, lo, hi)
      invariant !levelZero ==> lo == begin && hi == end
      invariant levelZero ==> forall f :: f in inputs ==> Within(f, lo, hi)
      invariant Least(files, begin, end, lo, hi)
      decreases StickingOut(files, lo, hi), |files| - i
    {
      var f := files[i];
      OverlappingSnoc(files, i, lo, hi);
      i := i + 1;
      if Overlaps(f, lo, hi) {
        inputs := inputs + [f];
        if levelZero {
          StaysLeast(files, begin, end, lo, hi, f);
          if lo.Some? && f.Smallest().user < lo.value {
            WideningUsesUp(files, lo, hi, Some(f.Smallest().user), hi);
            lo := Some(f.Smallest().user);
            inputs := [];
            i := 0;
          } else if hi.Some? && f.Largest().user > hi.value {
            WideningUsesUp(files, lo, hi, lo, Some(f.Largest().user));
            hi := Some(f.Largest().user);
            inputs := [];
            i := 0;
          }
        }
      }
    }
    assert files[..|files|] == files;
  }

  // ---- AddBoundaryInputs --------------------------------------------------

  /** g continues, past key, the user key that key belongs to. */
  predicate IsBoundary(g: File, key: IKey)
  {
    Less(key, g.Smallest()) && g.Smallest().user == key.user
  }

  method FindLargestKey(files: seq<File>) returns (largest: Option<IKey>)
    ensures largest.None? <==> files == []
    ensures largest.Some? ==> IsLargestKey(files, largest.value)
  {
    if |files| == 0 {
      return None;
    }
    var key := files[0].Largest();
    for i := 1 to |files|
      invariant exists f :: f in files && f.Largest() == key
      invariant forall j :: 0 <= j < i ==> AtMost(files[j].Largest(), key)
    {
      if Less(key, files[i].Largest()) {
        key := files[i].Largest();
        assert files[i] in files;
      }
    }
    largest := Some(key);
  }

  ghost predicate IsLargestKey(files: seq<File>, key: IKey)
  {
    (exists f :: f in files && f.Largest() == key) && forall f :: f in files ==> AtMost(f.Largest(), key)
  }

  ghost predicate IsSmallestKey(files: seq<File>, key: IKey)
  {
    (exists f :: f in files && f.Smallest() == key) && forall f :: f in files ==> AtMost(key, f.Smallest())
  }

  method FindSmallestBoundaryFile(files: seq<File>, key: IKey) returns (r: Option<File>)
    ensures r.None? ==> forall g :: g in files ==> !IsBoundary(g, key)
    ensures r.Some? ==> r.value in files && IsBoundary(r.value, key)
    ensures r.Some? ==> forall g :: g in files && IsBoundary(g, key) ==> AtMost(r.value.Smallest(), g.Smallest())
  {
    r := None;
    for i := 0 to |files|
      invariant r.None? ==> forall j :: 0 <= j < i ==> !IsBoundary(files[j], key)
      invariant r.Some? ==> r.value in files && IsBoundary(r.value, key)
      invariant r.Some? ==> forall j :: 0 <= j < i && IsBoundary(files[j], key) ==>
                AtMost(r.value.Smallest(), files[j].Smallest())
    {
      if IsBoundary(files[i], key) && (r.None? || Less(files[i].Smallest(), r.value.Smallest())) {
        r := Some(files[i]);
      }
    }
  }

  ghost predicate NoDuplicates(files: seq<File>)
  {
    forall i, j :: 0 <= i < j < |files| ==> files[i] != files[j]
  }

  ghost function StartingAfter(files: seq<File>, key: IKey): nat
  {
    if files == [] then 0
    else StartingAfter(files[1..], key) + if Less(key, files[0].Smallest()) then 1 else 0
  }

  lemma {:induction false} AdvancingUsesUp(files: seq<File>, f: File, key: IKey)
    requires Less(key, f.Smallest())
    ensures StartingAfter(files, f.Largest()) <= StartingAfter(files, key)
    ensures f in files ==> StartingAfter(files, f.Largest()) < StartingAfter(files, key)
  {
    FileRange(f, f.entries[0]);
    if files != [] {
      AdvancingUsesUp(files[1..], f, key);
      assert files == [files[0]] + files[1..];
    }
  }

  /** When the chosen files are a slice of a sorted level, the slice is extended
      to the right and stays a slice. */
  ghost predicate IsSlice(files: seq<File>, i: int, j: int, inputs: seq<File>)
  {
    0 <= i <= j <= |files| && inputs == files[i..j]
  }

  lemma SliceLargest(files: seq<File>, i: nat, j: nat, key: IKey)
    requires SortedDisjoint(files) && i < j <= |files|
    requires IsLargestKey(files[i..j], key)
    ensures key == files[j - 1].Largest()
  {
    LargestOfSlice(files, i, j);
    SameLargest(files[i..j], key, files[j - 1].Largest());
  }

  lemma LargestOfSlice(files: seq<File>, i: nat, j: nat)
    requires SortedDisjoint(files) && i < j <= |files|
    ensures IsLargestKey(files[i..j], files[j - 1].Largest())
  {
    assert files[j - 1] in files[i..j];
    forall f | f in files[i..j] ensures AtMost(f.Largest(), files[j - 1].Largest()) {
      var m :| i <= m < j && files[m] == f;
      if m < j - 1 { Lookup.LargestIncreases(files, m, j - 1); }
    }
  }

  /** The next boundary file of a slice is the file right after it. */
  lemma BoundaryIsNext(files: seq<File>, i: nat, j: nat, g: File)
    requires SortedDisjoint(files) && i < j <= |files|
    requires g in files && IsBoundary(g, files[j - 1].Largest())
    requires forall h :: h in files && IsBoundary(h, files[j - 1].Largest()) ==> AtMost(g.Smallest(), h.Smallest())
    ensures j < |files| && g == files[j]
  {
    var m :| 0 <= m < |files| && files[m] == g;
    if m < j - 1 {
      assert Before(g, files[j - 1]);
      FileRange(g, g.entries[0]);
      FileRange(files[j - 1], files[j - 1].entries[0]);
    } else if m > j {
      // files[j] lies between, so it starts with the same user key
      var h := files[j];
      assert Before(files[j - 1], h) && Before(h, g);
      FileRange(h, h.entries[0]);
      assert IsBoundary(h, files[j - 1].Largest());
    }
  }

  /** No file of the level continues the largest chosen user key past the chosen files. */
  ghost predicate BoundaryClosed(files: seq<File>, chosen: seq<File>)
  {
    forall key, g :: IsLargestKey(chosen, key) && g in files ==> !IsBoundary(g, key)
  }

  /** r is the seed followed by files of the level; a slice stays a slice. */
  ghost predicate Grown(files: seq<File>, seed: seq<File>, r: seq<File>)
  {
    && seed <= r
    && (forall f :: f in r ==> f in seed || f in files)
    && (NoDuplicates(seed) ==> NoDuplicates(r))
    && (SortedDisjoint(files) ==> forall i, j :: IsSlice(files, i, j, seed) ==> IsSlice(files, i, i + |r|, r))
  }

  lemma GrowsPastAll(r: seq<File>, key: IKey, f: File)
    requires IsLargestKey(r, key) && Less(key, f.Smallest())
    ensures IsLargestKey(r + [f], f.Largest())
    ensures f !in r
  {
    FileRange(f, f.entries[0]);
    assert (r + [f])[|r|] == f;
  }

  lemma GrowsSlice(files: seq<File>, i: nat, r: seq<File>, key: IKey, f: File)
    requires SortedDisjoint(files) && IsSlice(files, i, i + |r|, r) && IsLargestKey(r, key)
    requires f in files && IsBoundary(f, key)
    requires forall h :: h in files && IsBoundary(h, key) ==> AtMost(f.Smallest(), h.Smallest())
    ensures IsSlice(files, i, i + |r| + 1, r + [f])
  {
    SliceLargest(files, i, i + |r|, key);
    BoundaryIsNext(files, i, i + |r|, f);
    Seqs.SliceSnoc(files, i, i + |r|);
  }

  lemma GrowsByBoundary(files: seq<File>, seed: seq<File>, r: seq<File>, key: IKey, f: File)
    requires Grown(files, seed, r) && IsLargestKey(r, key)
    requires f in files && IsBoundary(f, key)
    requires forall h :: h in files && IsBoundary(h, key) ==> AtMost(f.Smallest(), h.Smallest())
    ensures Grown(files, seed, r + [f]) && IsLargestKey(r + [f], f.Largest())
  {
    GrowsPastAll(r, key, f);
    hide SortedDisjoint, IsBoundary, AtMost, Less, IsLargestKey, IsSlice;
    if SortedDisjoint(files) {
      forall i, j | IsSlice(files, i, j, seed) ensures IsSlice(files, i, i + |r + [f]|, r + [f]) {
        GrowsSlice(files, i, r, key, f);
      }
    }
  }

  /** r[n] continues the largest user key of the files before it. */
  ghost predicate Continues(r: seq<File>, n: nat)
    requires n < |r|
  {
    exists key :: IsLargestKey(r[..n], key) && IsBoundary(r[n], key)
  }

  /** Only boundary files follow the seed. */
  ghost predicate Chain(seed: seq<File>, r: seq<File>)
  {
    seed <= r && forall n :: |seed| <= n < |r| ==> Continues(r, n)
  }

  lemma ChainSnoc(seed: seq<File>, r: seq<File>, key: IKey, f: File)
    requires Chain(seed, r) && IsLargestKey(r, key) && IsBoundary(f, key)
    ensures Chain(seed, r + [f])
  {
    var s := r + [f];
    forall n | |seed| <= n < |s| ensures Continues(s, n) {
      if n < |r| {
        assert Continues(r, n);
        assert s[..n] == r[..n];
      } else {
        assert s[..n] == r;
      }
    }
  }

  /** AddBoundaryInputs: grows the choice by boundary files until it is boundary closed. */
  method AddBoundaryInputs(files: seq<File>, seed: seq<File>) returns (r: seq<File>)
    ensures Grown(files, seed, r) && BoundaryClosed(files, r) && Chain(seed, r)
    ensures seed == [] || BoundaryClosed(files, seed) ==> r == seed
  {
    r := seed;
    var largest := FindLargestKey(seed);
    if largest.None? {
      return;
    }
    var key := largest.value;
    var searching := true;
    while searching
      invariant Grown(files, seed, r) && IsLargestKey(r, key) && Chain(seed, r)
      invariant !searching ==> forall g :: g in files ==> !IsBoundary(g, key)
      invariant BoundaryClosed(files, seed) ==> r == seed
      decreases searching, StartingAfter(files, key)
    {
      var found := FindSmallestBoundaryFile(files, key);
      if found.Some? {
        var f := found.value;
        AdvancingUsesUp(files, f, key);
        GrowsByBoundary(files, seed, r, key, f);
        ChainSnoc(seed, r, key, f);
        r := r + [f];
        key := f.Largest();
      } else {
        searching := false;
      }
    }
    forall k | IsLargestKey(r, k) ensures k == key { SameLargest(r, k, key); }
  }

  lemma SameLargest(files: seq<File>, a: IKey, b: IKey)
    requires IsLargestKey(files, a) && IsLargestKey(files, b)
    ensures a == b
  {
  }

  // ---- The inputs of a compaction ------------------------------------------

  /** Chosen files of one level: on level 0 everything in a closed range, on a
      sorted level a slice. */
  ghost predicate Chosen(files: seq<File>, levelZero: bool, chosen: seq<File>)
  {
    && chosen != []
    && if levelZero then exists lo, hi :: chosen == Overlapping(files, lo, hi) && ClosedRange(files, lo, hi)
       else exists i, j :: IsSlice(files, i, j, chosen)
  }

  /** in1 holds every file of the next level that meets the range of in0. */
  ghost predicate Parents(files: seq<File>, in0: seq<File>, in1: seq<File>, lo: IKey, hi: IKey)
  {
    && (forall h :: h in files && Overlaps(h, Some(lo.user), Some(hi.user)) ==> h in in1)
    && (in1 != [] ==> Chosen(files, false, in1) && BoundaryClosed(files, in1) &&
                      Overlaps(in1[0], Some(lo.user), Some(hi.user)))
  }

  /** What SetupOtherInputs leaves in inputs_[0] and inputs_[1]. */
  ghost predicate InputsOk(files0: seq<File>, files1: seq<File>, levelZero: bool, in0: seq<File>, in1: seq<File>)
  {
    && Chosen(files0, levelZero, in0) && BoundaryClosed(files0, in0)
    && exists lo, hi :: IsSmallestKey(in0, lo) && IsLargestKey(in0, hi) && Parents(files1, in0, in1, lo, hi)
  }

  /** VersionSet::GetRange. */
  method GetRange(inputs: seq<File>) returns (smallest: IKey, largest: IKey)
    requires inputs != []
    ensures IsSmallestKey(inputs, smallest) && IsLargestKey(inputs, largest)
  {
    smallest, largest := inputs[0].Smallest(), inputs[0].Largest();
    for i := 1 to |inputs|
      invariant exists f :: f in inputs && f.Smallest() == smallest
      invariant exists f :: f in inputs && f.Largest() == largest
      invariant forall j :: 0 <= j < i ==>
                AtMost(smallest, inputs[j].Smallest()) && AtMost(inputs[j].Largest(), largest)
    {
      var f := inputs[i];
      assert f in inputs;
      if Less(f.Smallest(), smallest) {
        smallest := f.Smallest();
      }
      if Less(largest, f.Largest()) {
        largest := f.Largest();
      }
    }
  }

  /** Between two files of a sorted level that meet the range, all files meet it. */
  lemma NoGap(files: seq<File>, a: nat, b: nat, c: nat, lo: Option<UserKey>, hi: Option<UserKey>)
    requires SortedDisjoint(files) && a < b < c < |files|
    requires Overlaps(files[a], lo, hi) && Overlaps(files[c], lo, hi)
    ensures Overlaps(files[b], lo, hi)
  {
    assert Before(files[a], files[b]) && Before(files[b], files[c]);
    FileRange(files[b], files[b].entries[0]);
  }

  lemma NoGapBeforeLast(files: seq<File>, i: nat, j: nat, last: nat, lo: Option<UserKey>, hi: Option<UserKey>)
    requires SortedDisjoint(files) && i < j <= last < |files|
    requires forall f :: f in files[i..j] <==> f in files[..last] && Overlaps(f, lo, hi)
    requires Overlaps(files[last], lo, hi)
    ensures j == last
  {
    hide SortedDisjoint, Overlaps;
    if j < last {
      assert files[j] in files[..last] && files[j - 1] in files[i..j];
      NotInEarlierSlice(files, i, j);
      NoGap(files, j - 1, j, last, lo, hi);
    }
  }

  lemma NotInEarlierSlice(files: seq<File>, i: nat, j: nat)
    requires SortedDisjoint(files) && i <= j < |files|
    ensures files[j] !in files[i..j]
  {
    forall f | f in files[i..j] ensures f != files[j] {
      var m :| i <= m < j && files[m] == f;
      assert Before(f, files[j]);
      FileRange(f, f.entries[0]);
      FileRange(files[j], files[j].entries[0]);
    }
  }

  lemma SortedPrefix(files: seq<File>, n: nat)
    requires SortedDisjoint(files) && n <= |files|
    ensures SortedDisjoint(files[..n])
  {
  }

  lemma SliceExtends(files: seq<File>, last: nat, i: nat, j: nat, lo: Option<UserKey>, hi: Option<UserKey>)
    returns (i': nat, j': nat)
    requires |files| == last + 1 && i <= j <= last
    requires Overlapping(files[..last], lo, hi) == files[i..j]
    requires Overlaps(files[last], lo, hi) && i < j ==> j == last
    ensures i' <= j' <= |files| && Overlapping(files, lo, hi) == files[i'..j']
  {
    hide Overlaps;
    if Overlaps(files[last], lo, hi) {
      i', j' := if i == j then last else i, last + 1;
      Seqs.SliceSnoc(files, i', last);
      Seqs.EmptyRun([], files, last);
    } else {
      i', j' := i, j;
      Seqs.RightEmpty(files[i..j]);
    }
  }

  lemma {:induction false} OverlappingIsSlice(files: seq<File>, lo: Option<UserKey>, hi: Option<UserKey>)
    returns (i: nat, j: nat)
    requires SortedDisjoint(files)
    ensures i <= j <= |files| && Overlapping(files, lo, hi) == files[i..j]
  {
    if files == [] {
      i, j := 0, 0;
    } else {
      var last := |files| - 1;
      SortedPrefix(files, last);
      i, j := OverlappingIsSlice(files[..last], lo, hi);
      Seqs.PrefixSlice(files, last, i, j);
      if Overlaps(files[last], lo, hi) && i < j {
        NoGapBeforeLast(files, i, j, last, lo, hi);
      }
      i, j := SliceExtends(files, last, i, j, lo, hi);
    }
  }

  /** A closed level-0 choice needs no boundary files. */
  lemma ClosedIsBoundaryClosed(files: seq<File>, lo: Option<UserKey>, hi: Option<UserKey>)
    requires ClosedRange(files, lo, hi)
    ensures BoundaryClosed(files, Overlapping(files, lo, hi))
  {
    var chosen := Overlapping(files, lo, hi);
    forall key, g | IsLargestKey(chosen, key) && g in files ensures !IsBoundary(g, key) {
      var f :| f in chosen && f.Largest() == key;
      FileRange(f, f.entries[0]);
      FileRange(g, g.entries[0]);
      if IsBoundary(g, key) {
        assert Overlaps(g, lo, hi);
      }
    }
  }

  lemma GrowsChosen(files: seq<File>, levelZero: bool, seed: seq<File>, r: seq<File>)
    requires !levelZero ==> SortedDisjoint(files)
    requires Chosen(files, levelZero, seed) && Grown(files, seed, r)
    requires BoundaryClosed(files, seed) ==> r == seed
    ensures Chosen(files, levelZero, r)
  {
    if levelZero {
      var lo, hi :| seed == Overlapping(files, lo, hi) && ClosedRange(files, lo, hi);
      ClosedIsBoundaryClosed(files, lo, hi);
    } else {
      var i, j :| IsSlice(files, i, j, seed);
      assert IsSlice(files, i, i + |r|, r);
    }
  }

  /** GetOverlappingInputs followed by AddBoundaryInputs on one level. */
  method Select(files: seq<File>, levelZero: bool, begin: UserKey, end: UserKey) returns (r: seq<File>)
    requires !levelZero ==> SortedDisjoint(files)
    ensures r != [] ==> Chosen(files, levelZero, r) && BoundaryClosed(files, r)
    ensures forall h :: h in files && Overlaps(h, Some(begin), Some(end)) ==> h in r
    ensures r != [] && !levelZero ==> Overlaps(r[0], Some(begin), Some(end))
    ensures !levelZero ==> Chain(Overlapping(files, Some(begin), Some(end)), r)
  {
    var inputs, lo, hi := GetOverlappingInputs(files, levelZero, Some(begin), Some(end));
    r := AddBoundaryInputs(files, inputs);
    assert forall h :: h in inputs ==> h in r by {
      forall h | h in inputs ensures h in r { var i :| 0 <= i < |inputs| && inputs[i] == h; assert r[i] == h; }
    }
    if r != [] {
      if !levelZero {
        ghost var i, j := OverlappingIsSlice(files, lo, hi);
        assert IsSlice(files, i, j, inputs);
        assert inputs[0] in inputs;
      }
      GrowsChosen(files, levelZero, inputs, r);
    }
  }

  function TotalFileSize(files: seq<File>): nat
  {
    if files == [] then 0 else files[0].size + TotalFileSize(files[1..])
  }

  /** in1 is what SetupOtherInputs takes from the next level for the range of base. */
  ghost predicate Covering(files: seq<File>, base: seq<File>, in1: seq<File>)
  {
    exists lo, hi :: IsSmallestKey(base, lo) && IsLargestKey(base, hi) && Parents(files, base, in1, lo, hi) &&
                     Chain(Overlapping(files, Some(lo.user), Some(hi.user)), in1)
  }

  /** The seed and its boundary files, which fix in1; in0 is just these, or more
      files of the level for the same in1, within the byte limit. */
  ghost predicate Expanded(files0: seq<File>, files1: seq<File>, seed: seq<File>, byteLimit: nat, base: seq<File>,
                           in0: seq<File>, in1: seq<File>)
  {
    && Grown(files0, seed, base) && Chain(seed, base) && BoundaryClosed(files0, base) && Covering(files1, base, in1)
    && (in0 == base ||
        (|in0| > |base| && (forall f :: f in base ==> f in in0) && TotalFileSize(in1) + TotalFileSize(in0) < byteLimit))
  }

  lemma SameFile(files: seq<File>, a: nat, b: nat)
    requires SortedDisjoint(files) && a < |files| && b < |files|
    ensures files[a] == files[b] ==> a == b
  {
    if a < b {
      NotInEarlierSlice(files, a, b);
      assert files[a] == files[a..b][0];
    } else if b < a {
      NotInEarlierSlice(files, b, a);
      assert files[b] == files[b..a][0];
    }
  }

  /** A file of the slice that the seed did not reach continues the user key of the one
      before it. */
  lemma ChainReaches(files: seq<File>, seed: seq<File>, i: nat, j: nat, m: nat)
    requires SortedDisjoint(files) && i < m < j <= |files| && Chain(seed, files[i..j]) && |seed| <= m - i
    ensures IsBoundary(files[m], files[m - 1].Largest())
  {
    var a := files[i..j];
    assert Continues(a, m - i);
    assert a[..m - i] == files[i..m];
    var key :| IsLargestKey(a[..m - i], key) && IsBoundary(a[m - i], key);
    SliceLargest(files, i, m, key);
  }

  lemma ClosedSliceStops(files: seq<File>, i: nat, j: nat)
    requires SortedDisjoint(files) && i < j < |files| && BoundaryClosed(files, files[i..j])
    ensures !IsBoundary(files[j], files[j - 1].Largest())
  {
    LargestOfSlice(files, i, j);
  }

  /** A wider range whose files of the next level are no more than before has the same
      files: growing inputs_[0] without changing how many files of the next level are
      read does not change which are read. */
  lemma SameParents(files: seq<File>, lo: Option<UserKey>, hi: Option<UserKey>, lo': Option<UserKey>,
                    hi': Option<UserKey>,
                    i: nat, j: nat, i': nat, j': nat)
    requires SortedDisjoint(files) && Widens(lo, hi, lo', hi') && i < j <= |files| && i' < j' <= |files| &&
             j - i == j' - i'
    requires Overlaps(files[i], lo, hi) && Chain(Overlapping(files, lo, hi), files[i..j]) &&
             BoundaryClosed(files, files[i'..j'])
    requires forall h :: h in files && Overlaps(h, lo', hi') ==> h in files[i'..j']
    ensures i == i'
  {
    hide SortedDisjoint, Chain, BoundaryClosed, Overlapping, Overlaps, Widens, IsBoundary;
    InWider(files, lo, hi, lo', hi', i, i', j');
    if i' < i {
      var seed := Overlapping(files, lo, hi);
      ClosedSliceStops(files, i', j');
      if |seed| <= j' - i {
        ChainReaches(files, seed, i, j, j');
      } else {
        InSeed(files, lo, hi, i, j, j');
        InWider(files, lo, hi, lo', hi', j', i', j');
      }
    }
  }

  lemma InSeed(files: seq<File>, lo: Option<UserKey>, hi: Option<UserKey>, i: nat, j: nat, m: nat)
    requires i <= m < j <= |files| && Chain(Overlapping(files, lo, hi), files[i..j]) &&
             m - i < |Overlapping(files, lo, hi)|
    ensures Overlaps(files[m], lo, hi)
  {
    var seed := Overlapping(files, lo, hi);
    assert seed[m - i] == files[i..j][m - i] == files[m];
    assert seed[m - i] in seed;
  }

  lemma InWider(files: seq<File>, lo: Option<UserKey>, hi: Option<UserKey>, lo': Option<UserKey>, hi': Option<UserKey>,
                m: nat, i: nat, j: nat)
    requires SortedDisjoint(files) && Widens(lo, hi, lo', hi') && m < |files| && i <= j <= |files| &&
             Overlaps(files[m], lo, hi)
    requires forall h :: h in files && Overlaps(h, lo', hi') ==> h in files[i..j]
    ensures i <= m < j
  {
    assert files[m] in files && Overlaps(files[m], lo', hi');
    hide SortedDisjoint, Overlaps, Widens;
    var slice := files[i..j];
    var q :| 0 <= q < |slice| && slice[q] == files[m];
    SameFile(files, m, i + q);
  }

  lemma SameSelection(files: seq<File>, lo: UserKey, hi: UserKey, lo': UserKey, hi': UserKey, a: seq<File>,
                      b: seq<File>)
    requires SortedDisjoint(files) && lo' <= lo && hi <= hi' && |a| == |b| > 0
    requires Chosen(files, false, a) && Chosen(files, false, b) && BoundaryClosed(files, b)
    requires Overlaps(a[0], Some(lo), Some(hi)) && Chain(Overlapping(files, Some(lo), Some(hi)), a)
    requires forall h :: h in files && Overlaps(h, Some(lo'), Some(hi')) ==> h in b
    ensures a == b
  {
    hide SortedDisjoint, Chain, BoundaryClosed, Overlaps, Overlapping;
    var i, j :| IsSlice(files, i, j, a);
    var i', j' :| IsSlice(files, i', j', b);
    SameParents(files, Some(lo), Some(hi), Some(lo'), Some(hi'), i, j, i', j');
  }

  /** A file of a collection meets the range of the collection. */
  lemma MeetsRange(files: seq<File>, f: File, lo: IKey, hi: IKey)
    requires f in files && IsSmallestKey(files, lo) && IsLargestKey(files, hi)
    ensures Overlaps(f, Some(lo.user), Some(hi.user))
  {
    FileRange(f, f.entries[0]);
  }

  lemma RangeWidens(files: seq<File>, more: seq<File>, lo: IKey, hi: IKey, lo': IKey, hi': IKey)
    requires forall f :: f in files ==> f in more
    requires IsSmallestKey(files, lo) && IsLargestKey(files, hi) && IsSmallestKey(more, lo') && IsLargestKey(more, hi')
    ensures lo'.user <= lo.user && hi.user <= hi'.user
  {
  }

  lemma ChosenFromLevel(files: seq<File>, levelZero: bool, chosen: seq<File>)
    requires Chosen(files, levelZero, chosen)
    ensures forall f :: f in chosen ==> f in files
  {
  }

  /** VersionSet::SetupOtherInputs.  byteLimit is ExpandedCompactionByteSizeLimit. */
  method SetupOtherInputs(files0: seq<File>, files1: seq<File>, levelZero: bool, seed: seq<File>, byteLimit: nat)
    returns (in0: seq<File>, in1: seq<File>)
    requires SortedDisjoint(files1) && (!levelZero ==> SortedDisjoint(files0))
    requires Chosen(files0, levelZero, seed)
    ensures InputsOk(files0, files1, levelZero, in0, in1)
    ensures exists base :: Expanded(files0, files1, seed, byteLimit, base, in0, in1)
  {
    hide SortedDisjoint, Overlaps, Overlapping, Chosen, BoundaryClosed, Grown, Chain, IsSmallestKey, IsLargestKey;
    in0 := AddBoundaryInputs(files0, seed);
    GrowsChosen(files0, levelZero, seed, in0);
    ChosenFromLevel(files0, levelZero, in0);
    ChosenNonempty(files0, levelZero, in0);
    var smallest, largest := GetRange(in0);
    in1 := Select(files1, false, smallest.user, largest.user);
    assert Parents(files1, in0, in1, smallest, largest);
    assert Covering(files1, in0, in1);
    assert Expanded(files0, files1, seed, byteLimit, in0, in0, in1);
    if |in1| > 0 {
      var allStart, allLimit := GetRange(in0 + in1);
      var expanded0 := Select(files0, levelZero, allStart.user, allLimit.user);
      if |expanded0| > |in0| && TotalFileSize(in1) + TotalFileSize(expanded0) < byteLimit {
        forall f | f in in0 ensures f in expanded0 {
          assert f in in0 + in1;
          MeetsRange(in0 + in1, f, allStart, allLimit);
        }
        var newStart, newLimit := GetRange(expanded0);
        var expanded1 := Select(files1, false, newStart.user, newLimit.user);
        if |expanded1| == |in1| {
          RangeWidens(in0, expanded0, smallest, largest, newStart, newLimit);
          SameSelection(files1, smallest.user, largest.user, newStart.user, newLimit.user, in1, expanded1);
          assert Expanded(files0, files1, seed, byteLimit, in0, expanded0, expanded1);
          in0, in1 := expanded0, expanded1;
          assert Parents(files1, in0, in1, newStart, newLimit);
        }
      }
    }
  }

  lemma ChosenNonempty(files: seq<File>, levelZero: bool, chosen: seq<File>)
    requires Chosen(files, levelZero, chosen)
    ensures chosen != []
  {
  }

  lemma OverlappingIsChosen(files: seq<File>, levelZero: bool, lo: Option<UserKey>, hi: Option<UserKey>)
    requires if levelZero then ClosedRange(files, lo, hi) else SortedDisjoint(files)
    requires Overlapping(files, lo, hi) != []
    ensures Chosen(files, levelZero, Overlapping(files, lo, hi))
  {
    if !levelZero {
      var i, j := OverlappingIsSlice(files, lo, hi);
      assert IsSlice(files, i, j, Overlapping(files, lo, hi));
    }
  }

  lemma OverlapsItself(f: File, lo: Option<UserKey>, hi: Option<UserKey>)
    requires Widens(Some(f.Smallest().user), Some(f.Largest().user), lo, hi)
    ensures Overlaps(f, lo, hi)
  {
    FileRange(f, f.entries[0]);
  }

  /** The file ends past the place where the last compaction of the level stopped. */
  predicate PastPointer(pointer: Option<IKey>, f: File)
  {
    pointer.None? || Less(pointer.value, f.Largest())
  }

  /** The file that used up its seeks, or else the first one past the compaction pointer,
      wrapping around to the first of the level. */
  ghost predicate IsPicked(files: seq<File>, pointer: Option<IKey>, seek: Option<File>, i: nat)
  {
    && i < |files|
    && if seek.Some? then files[i] == seek.value
       else if exists j :: 0 <= j < |files| && PastPointer(pointer, files[j]) then
         PastPointer(pointer, files[i]) && forall j :: 0 <= j < i ==> !PastPointer(pointer, files[j])
       else i == 0
  }

  /** On a sorted level, past the largest key of file i comes the next file, and the first one
      after the last. */
  lemma NextPick(files: seq<File>, i: nat, j: nat)
    requires SortedDisjoint(files) && i < |files|
    ensures IsPicked(files, Some(files[i].Largest()), None, j) <==> j == if i + 1 < |files| then i + 1 else 0
    ensures IsPicked(files, None, None, j) <==> j == 0
  {
    hide SortedDisjoint, PastPointer;
    PastIsAfter(files, i);
    if i + 1 < |files| { assert PastPointer(Some(files[i].Largest()), files[i + 1]); }
    NoPointer(files[0]);
  }

  lemma PastIsAfter(files: seq<File>, i: nat)
    requires SortedDisjoint(files) && i < |files|
    ensures forall m :: 0 <= m < |files| ==> (PastPointer(Some(files[i].Largest()), files[m]) <==> m > i)
  {
    hide SortedDisjoint;
    forall m | 0 <= m < |files| ensures PastPointer(Some(files[i].Largest()), files[m]) <==> m > i {
      if m < i { LargestOrder(files, m, i); }
      if i < m { LargestOrder(files, i, m); }
    }
  }

  lemma NoPointer(f: File)
    ensures PastPointer(None, f)
  {
  }

  lemma LargestOrder(files: seq<File>, i: nat, j: nat)
    requires SortedDisjoint(files) && i < j < |files|
    ensures Less(files[i].Largest(), files[j].Largest())
  {
    FileRange(files[j], files[j].entries[0]);
  }

  /** Compactions by size whose pointer is each time left at the largest key of the file
      picked before. */
  ghost predicate Picks(files: seq<File>, picks: seq<nat>)
  {
    && (forall n :: 0 <= n < |picks| ==> picks[n] < |files|)
    && forall n :: 0 < n < |picks| ==> IsPicked(files, Some(files[picks[n - 1]].Largest()), None, picks[n])
  }

  /** They go around the level in key order. */
  lemma {:induction false} RoundRobin(files: seq<File>, picks: seq<nat>, n: nat)
    requires SortedDisjoint(files) && Picks(files, picks) && n < |picks| && n <= |files|
    ensures picks[n] == if picks[0] + n < |files| then picks[0] + n else picks[0] + n - |files|
  {
    hide SortedDisjoint, IsPicked;
    if n > 0 {
      RoundRobin(files, picks, n - 1);
      NextPick(files, picks[n - 1], picks[n]);
    }
  }

  /** So every file of a sorted level is picked once before any is picked again. */
  lemma EveryFileInTurn(files: seq<File>, picks: seq<nat>, i: nat) returns (n: nat)
    requires SortedDisjoint(files) && Picks(files, picks) && |picks| >= |files| && i < |files|
    ensures n < |files| && picks[n] == i
    ensures forall m :: 0 <= m < |files| && picks[m] == i ==> m == n
  {
    hide SortedDisjoint, IsPicked;
    var first := picks[0];
    n := if first <= i then i - first else i + |files| - first;
    forall m | 0 <= m < |files| ensures picks[m] == if first + m < |files| then first + m else first + m - |files| {
      RoundRobin(files, picks, m);
    }
  }

  lemma SeedStays(files0: seq<File>, files1: seq<File>, seed: seq<File>, byteLimit: nat, base: seq<File>,
                  in0: seq<File>, in1: seq<File>)
    requires Expanded(files0, files1, seed, byteLimit, base, in0, in1)
    ensures forall f :: f in seed ==> f in in0
  {
    forall f | f in seed ensures f in in0 {
      var i :| 0 <= i < |seed| && seed[i] == f;
      assert base[i] == f;
    }
  }

  /** VersionSet::PickCompaction: a compaction by size picks past the pointer, one by
      seeks takes the file named by seek. */
  method PickCompaction(files0: seq<File>, files1: seq<File>, levelZero: bool, pointer: Option<IKey>,
                        seek: Option<File>,
                        byteLimit: nat)
    returns (in0: seq<File>, in1: seq<File>)
    requires SortedDisjoint(files1) && (!levelZero ==> SortedDisjoint(files0))
    requires files0 != []
    requires seek.Some? ==> seek.value in files0
    ensures InputsOk(files0, files1, levelZero, in0, in1)
    ensures exists i: nat :: IsPicked(files0, pointer, seek, i) && files0[i] in in0
  {
    hide SortedDisjoint, InputsOk, Least, Widens, ClosedRange, Overlaps, BoundaryClosed, Expanded;
    var picked := PickFile(files0, pointer, seek);
    var f := files0[picked];
    var seed := [f];
    if levelZero {
      var lo, hi;
      seed, lo, hi := GetOverlappingInputs(files0, true, Some(f.Smallest().user), Some(f.Largest().user));
      OverlapsItself(f, lo, hi);
      OverlappingIsChosen(files0, true, lo, hi);
    } else {
      assert IsSlice(files0, picked, picked + 1, seed);
    }
    in0, in1 := SetupOtherInputs(files0, files1, levelZero, seed, byteLimit);
    ghost var base :| Expanded(files0, files1, seed, byteLimit, base, in0, in1);
    SeedStays(files0, files1, seed, byteLimit, base, in0, in1);
    assert f in seed;
  }

  method PickFile(files: seq<File>, pointer: Option<IKey>, seek: Option<File>) returns (picked: nat)
    requires files != [] && (seek.Some? ==> seek.value in files)
    ensures IsPicked(files, pointer, seek, picked)
  {
    if seek.Some? {
      picked :| picked < |files| && files[picked] == seek.value;
      return;
    }
    for i := 0 to |files|
      invariant forall j :: 0 <= j < i ==> !PastPointer(pointer, files[j])
    {
      if PastPointer(pointer, files[i]) {
        return i;
      }
    }
    picked := 0;
  }

  /** If nothing meets [begin, end], that range is already closed, so the least
      closed range is no wider and nothing is chosen. */
  lemma LeastMeetsSeed(files: seq<File>, begin: Option<UserKey>, end: Option<UserKey>,
                       lo: Option<UserKey>, hi: Option<UserKey>)
    requires Widens(begin, end, lo, hi) && Least(files, begin, end, lo, hi)
    ensures Overlapping(files, lo, hi) == [] <==> forall f :: f in files ==> !Overlaps(f, begin, end)
  {
    if forall f :: f in files ==> !Overlaps(f, begin, end) {
      assert ClosedRange(files, begin, end);
      assert Widens(begin, end, begin, end);
      if Overlapping(files, lo, hi) != [] {
        assert Overlapping(files, lo, hi)[0] in Overlapping(files, lo, hi);
      }
    } else {
      var f :| f in files && Overlaps(f, begin, end);
      assert Overlaps(f, lo, hi);
    }
  }

  /** The part of CompactRange that cuts the inputs off at maxBytes. */
  method LimitInputs(inputs: seq<File>, maxBytes: nat) returns (n: nat)
    requires inputs != []
    ensures 1 <= n <= |inputs|
    ensures TotalFileSize(inputs[..n - 1]) < maxBytes || n == 1
    ensures n < |inputs| ==> TotalFileSize(inputs[..n]) >= maxBytes
  {
    var total := 0;
    n := |inputs|;
    for i := 0 to |inputs|
      invariant n == |inputs|
      invariant total == TotalFileSize(inputs[..i])
      invariant i > 0 ==> total < maxBytes
    {
      TotalSnoc(inputs, i);
      total := total + inputs[i].size;
      if total >= maxBytes {
        return i + 1;
      }
    }
    assert inputs[..|inputs|] == inputs;
    TotalSnoc(inputs, |inputs| - 1);
  }

  lemma {:induction false} TotalSnoc(files: seq<File>, i: nat)
    requires i < |files|
    ensures TotalFileSize(files[..i + 1]) == TotalFileSize(files[..i]) + files[i].size
  {
    if i > 0 {
      TotalSnoc(files[1..], i - 1);
      assert files[..i + 1][1..] == files[1..][..i];
      assert files[..i][1..] == files[1..][..i - 1];
    }
  }

  lemma PrefixIsChosen(files: seq<File>, inputs: seq<File>, lo: Option<UserKey>, hi: Option<UserKey>, n: nat)
    requires SortedDisjoint(files) && inputs == Overlapping(files, lo, hi) && 1 <= n <= |inputs|
    ensures Chosen(files, false, inputs[..n])
  {
    hide Overlaps, SortedDisjoint;
    var i, j := OverlappingIsSlice(files, lo, hi);
    Seqs.SlicePrefix(files, i, j, n);
    assert IsSlice(files, i, i + n, inputs[..n]);
  }

  /** The first n of the files are compacted, enough to reach maxBytes if some are left. */
  ghost predicate TakesUpTo(inputs: seq<File>, maxBytes: nat, n: nat, in0: seq<File>)
  {
    && 1 <= n <= |inputs| && (forall f :: f in inputs[..n] ==> f in in0)
    && (n < |inputs| ==> TotalFileSize(inputs[..n]) >= maxBytes)
  }

  lemma WiderMeets(f: File, begin: Option<UserKey>, end: Option<UserKey>, lo: Option<UserKey>, hi: Option<UserKey>)
    requires Widens(begin, end, lo, hi) && Overlaps(f, begin, end)
    ensures Overlaps(f, lo, hi)
  {
  }

  /** VersionSet::CompactRange: below level 0 the files are cut off once they
      reach maxBytes. */
  method CompactRange(files0: seq<File>, files1: seq<File>, levelZero: bool, begin: Option<UserKey>,
                      end: Option<UserKey>,
                      maxBytes: nat, byteLimit: nat)
    returns (in0: seq<File>, in1: seq<File>)
    requires SortedDisjoint(files1) && (!levelZero ==> SortedDisjoint(files0))
    ensures in0 == [] <==> forall f :: f in files0 ==> !Overlaps(f, begin, end)
    ensures in0 == [] ==> in1 == []
    ensures in0 != [] ==> InputsOk(files0, files1, levelZero, in0, in1)
    ensures levelZero ==> forall f :: f in files0 && Overlaps(f, begin, end) ==> f in in0
    ensures in0 != [] && !levelZero ==> exists n: nat :: TakesUpTo(Overlapping(files0, begin, end), maxBytes, n, in0)
  {
    hide SortedDisjoint, InputsOk, Least, Widens, ClosedRange, Overlaps, BoundaryClosed, Expanded;
    var inputs, lo, hi := GetOverlappingInputs(files0, levelZero, begin, end);
    forall f | f in files0 && Overlaps(f, begin, end) ensures Overlaps(f, lo, hi) { WiderMeets(f, begin, end, lo, hi); }
    LeastMeetsSeed(files0, begin, end, lo, hi);
    if |inputs| == 0 {
      return [], [];
    }
    var n := |inputs|;
    if levelZero {
      OverlappingIsChosen(files0, levelZero, lo, hi);
    } else {
      n := LimitInputs(inputs, maxBytes);
      PrefixIsChosen(files0, inputs, lo, hi, n);
      inputs := inputs[..n];
    }
    in0, in1 := SetupOtherInputs(files0, files1, levelZero, inputs, byteLimit);
    ghost var base :| Expanded(files0, files1, inputs, byteLimit, base, in0, in1);
    SeedStays(files0, files1, inputs, byteLimit, base, in0, in1);
    assert !levelZero ==> TakesUpTo(Overlapping(files0, begin, end), maxBytes, n, in0);
    InputsNonempty(files0, files1, levelZero, in0, in1);
  }

  lemma InputsNonempty(files0: seq<File>, files1: seq<File>, levelZero: bool, in0: seq<File>, in1: seq<File>)
    requires InputsOk(files0, files1, levelZero, in0, in1)
    ensures in0 != []
  {
  }

  // ---- The level of a flushed memtable -------------------------------------

  /** config::kMaxMemCompactLevel. */
  const MAX_MEM_COMPACT_LEVEL: nat := 2

  /** No file of the level meets the user-key range [lo, hi]. */
  ghost predicate Clear(files: seq<File>, lo: UserKey, hi: UserKey)
  {
    forall f :: f in files ==> !Overlaps(f, Some(lo), Some(hi))
  }

  /** The next level is free and the one after it not too crowded. */
  ghost predicate MayPush(v: Version, level: nat, lo: UserKey, hi: UserKey, byteLimit: nat)
    requires level + 2 < NUM_LEVELS
  {
    Clear(v[level + 1], lo, hi) && TotalFileSize(Overlapping(v[level + 2], Some(lo), Some(hi))) <= byteLimit
  }

  /** Version::PickLevelForMemTableOutput: push the table down while MayPush
      holds; byteLimit is MaxGrandParentOverlapBytes. */
  method PickLevelForMemTableOutput(v: Version, lo: UserKey, hi: UserKey, byteLimit: nat) returns (level: nat)
    requires forall l :: 1 <= l < NUM_LEVELS ==> SortedDisjoint(v[l])
    ensures level <= MAX_MEM_COMPACT_LEVEL
    ensures level > 0 ==> forall l :: 0 <= l <= level ==> Clear(v[l], lo, hi)
    ensures forall l :: 0 <= l < level ==> MayPush(v, l, lo, hi, byteLimit)
    ensures level < MAX_MEM_COMPACT_LEVEL && Clear(v[0], lo, hi) ==> !MayPush(v, level, lo, hi, byteLimit)
  {
    hide Overlapping, Overlaps, SortedDisjoint, Least, ClosedRange, TotalFileSize;
    level := 0;
    var busy := Lookup.SomeFileOverlapsRange(false, v[0], Some(lo), Some(hi));
    if !busy {
      while level < MAX_MEM_COMPACT_LEVEL
        invariant level <= MAX_MEM_COMPACT_LEVEL
        invariant forall l :: 0 <= l <= level ==> Clear(v[l], lo, hi)
        invariant forall l :: 0 <= l < level ==> MayPush(v, l, lo, hi, byteLimit)
      {
        busy := Lookup.SomeFileOverlapsRange(true, v[level + 1], Some(lo), Some(hi));
        if busy {
          break;
        }
        var overlaps, _, _ := GetOverlappingInputs(v[level + 2], false, Some(lo), Some(hi));
        if TotalFileSize(overlaps) > byteLimit {
          break;
        }
        level := level + 1;
      }
    }
  }
}
