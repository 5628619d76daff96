/**
 VersionSet::Builder: applying version edits to the files of a version, live
 (one builder per edit) and at recovery (one builder for all edits)
 (db/version_set.cc, db/version_edit.h).
 */
module Builder {
  import opened Versions
  import Seqs

  /** Builder::LevelState: added_files is a std::set ordered by BySmallestKey. */
  datatype LevelState = LevelState(deleted: set<nat>, added: seq<File>)

  /** What one edit does to one level. */
  datatype LevelEdit = LevelEdit(deleted: set<nat>, added: seq<File>)

  function Numbers(files: seq<File>): (r: set<nat>)
    ensures forall n :: n in r <==> exists f :: f in files && f.number == n
  {
    set f | f in files :: f.number
  }

  // ---- The order ------------------------------------------------------------

  lemma BySmallestTransitive(f: File, g: File, h: File)
    requires BySmallest(f, g) && BySmallest(g, h)
    ensures BySmallest(f, h)
  {
  }

  lemma OrderedCons(f: File, files: seq<File>)
    requires Ordered(files) && forall g :: g in files ==> BySmallest(f, g)
    ensures Ordered([f] + files)
  {
    var r := [f] + files;
    forall i, j | 0 <= i < j < |r| ensures BySmallest(r[i], r[j]) {
      assert r[j] == files[j - 1] && r[j] in files;
      if i > 0 { assert r[i] == files[i - 1]; }
    }
  }

  lemma OrderedTail(files: seq<File>)
    requires Ordered(files) && files != []
    ensures Ordered(files[1..])
    ensures forall g :: g in files[1..] ==> BySmallest(files[0], g)
  {
  }

  /** A strictly ordered sequence of files is determined by its members. */
  lemma {:induction false} OrderedUnique(a: seq<File>, b: seq<File>)
    requires Ordered(a) && Ordered(b)
    requires forall f :: f in a <==> f in b
    ensures a == b
  {
    if b != [] { assert b[0] in b; }
    if a != [] {
      assert a[0] in b && b[0] in a;
      OrderedTail(a);
      OrderedTail(b);
      assert a == [a[0]] + a[1..] && b == [b[0]] + b[1..];
      assert a[0] == b[0];
      forall f ensures f in a[1..] <==> f in b[1..] {
        if f in a[1..] { assert f in b && f != a[0]; }
        if f in b[1..] { assert f in a && f != b[0]; }
      }
      OrderedUnique(a[1..], b[1..]);
    }
  }

  // ---- Apply ----------------------------------------------------------------

  /** std::set::insert: a file equivalent to one already present is not inserted. */
  function InsertFile(files: seq<File>, f: File): (r: seq<File>)
    requires Ordered(files)
    ensures Ordered(r)
    ensures forall g :: g in files ==> g in r
    ensures forall g :: g in r ==> g in files || g == f
    ensures f in r || exists g :: g in files && g.number == f.number
  {
    if files == [] then [f]
    else if BySmallest(f, files[0]) then
      OrderedTail(files);
      assert files == [files[0]] + files[1..];
      assert forall g :: g in files[1..] ==> BySmallest(f, g) by {
        forall g | g in files[1..] ensures BySmallest(f, g) { BySmallestTransitive(f, files[0], g); }
      }
      OrderedCons(f, files);
      [f] + files
    else if BySmallest(files[0], f) then
      OrderedTail(files);
      assert files == [files[0]] + files[1..];
      var rest := InsertFile(files[1..], f);
      OrderedCons(files[0], rest);
      [files[0]] + rest
    else files
  }

  function InsertAll(files: seq<File>, added: seq<File>): (r: seq<File>)
    requires Ordered(files)
    ensures Ordered(r)
  {
    if added == [] then files
    else InsertFile(InsertAll(files, added[..|added| - 1]), added[|added| - 1])
  }

  /** Builder::Apply for one level: record the deletions, then add the new files,
      which are no longer deleted. */
  function Apply(st: LevelState, edit: LevelEdit): (r: LevelState)
    requires Ordered(st.added)
    ensures Ordered(r.added)
  {
    LevelState((st.deleted + edit.deleted) - Numbers(edit.added), InsertAll(st.added, edit.added))
  }

  // ---- SaveTo ---------------------------------------------------------------

  /** The base files and the added files in one order, a base file first among equals. */
  function Merge(base: seq<File>, added: seq<File>): (r: seq<File>)
    ensures forall f :: f in r <==> f in base || f in added
    ensures |r| == |base| + |added|
  {
    if added == [] then base
    else if base != [] && !BySmallest(added[0], base[0]) then
      assert base == [base[0]] + base[1..];
      [base[0]] + Merge(base[1..], added)
    else
      assert added == [added[0]] + added[1..];
      [added[0]] + Merge(base, added[1..])
  }

  /** MaybeAddFile over a list: drop the files whose number is deleted. */
  function Surviving(files: seq<File>, deleted: set<nat>): (r: seq<File>)
    ensures forall f :: f in r <==> f in files && f.number !in deleted
  {
    if files == [] then []
    else
      var last := |files| - 1;
      assert files == files[..last] + [files[last]];
      Surviving(files[..last], deleted) + if files[last].number in deleted then [] else [files[last]]
  }

  function SaveTo(base: seq<File>, st: LevelState): (r: seq<File>)
  {
    Surviving(Merge(base, st.added), st.deleted)
  }

  lemma {:induction false} SurvivingConcat(a: seq<File>, b: seq<File>, deleted: set<nat>)
    ensures Surviving(a + b, deleted) == Surviving(a, deleted) + Surviving(b, deleted)
  {
    if b == [] {
      Seqs.RightEmpty(a);
      Seqs.RightEmpty(Surviving(a, deleted));
    } else {
      var last := |b| - 1;
      SurvivingConcat(a, b[..last], deleted);
      Seqs.ConcatInit(a, b);
      Seqs.Associative(Surviving(a, deleted), Surviving(b[..last], deleted), if b[last].number in deleted then []
                       else [b[last]]);
    }
  }

  /** std::upper_bound on the base files from start on. */
  method UpperBound(base: seq<File>, start: nat, f: File) returns (p: nat)
    requires Ordered(base) && start <= |base|
    ensures start <= p <= |base|
    ensures forall i :: start <= i < p ==> !BySmallest(f, base[i])
    ensures forall i :: p <= i < |base| ==> BySmallest(f, base[i])
  {
    p := start;
    while p < |base| && !BySmallest(f, base[p])
      invariant start <= p <= |base|
      invariant forall i :: start <= i < p ==> !BySmallest(f, base[i])
    {
      p := p + 1;
    }
    if p < |base| {
      forall i | p < i < |base| ensures BySmallest(f, base[i]) { BySmallestTransitive(f, base[p], base[i]); }
    }
  }

  /** Builder::MaybeAddFile appends f to the files saved so far unless it is deleted. */
  method MaybeAddFile(saved: seq<File>, ghost done: seq<File>, f: File, deleted: set<nat>) returns (r: seq<File>)
    requires saved == Surviving(done, deleted)
    ensures r == Surviving(done + [f], deleted)
  {
    SurvivingConcat(done, [f], deleted);
    r := if f.number in deleted then saved else saved + [f];
  }

  /** The base_iter loops of SaveTo: pass over base[b..p]. */
  method CopyBase(base: seq<File>, b: nat, p: nat, saved: seq<File>, ghost done: seq<File>, deleted: set<nat>)
    returns (r: seq<File>)
    requires b <= p <= |base| && saved == Surviving(done, deleted)
    ensures r == Surviving(done + base[b..p], deleted)
  {
    r := saved;
    Seqs.EmptyRun(done, base, b);
    for i := b to p
      invariant r == Surviving(done + base[b..i], deleted)
    {
      r := MaybeAddFile(r, done + base[b..i], base[i], deleted);
      Seqs.ExtendRun(done, base, b, i);
    }
  }

  /** Builder::SaveTo for one level: before each added file, copy the base files
      that do not follow it. */
  method SaveLevel(base: seq<File>, st: LevelState) returns (r: seq<File>)
    requires Ordered(base) && Ordered(st.added)
    ensures r == SaveTo(base, st)
  {
    r := [];
    var b := 0;
    ghost var done: seq<File> := [];
    for a := 0 to |st.added|
      invariant b <= |base|
      invariant Merge(base, st.added) == done + Merge(base[b..], st.added[a..])
      invariant r == Surviving(done, st.deleted)
    {
      var f := st.added[a];
      var p := UpperBound(base, b, f);
      r := CopyBase(base, b, p, r, done, st.deleted);
      r := MaybeAddFile(r, done + base[b..p], f, st.deleted);
      MergeTakesRun(base, b, p, st.added, a);
      Seqs.RegroupRun(done, base[b..p], f, Merge(base[p..], st.added[a + 1..]));
      done := done + base[b..p] + [f];
      b := p;
    }
    r := CopyBase(base, b, |base|, r, done, st.deleted);
    Seqs.FullSlice(base, b);
  }

  lemma {:induction false} MergeTakesRun(base: seq<File>, b: nat, p: nat, added: seq<File>, a: nat)
    requires b <= p <= |base| && a < |added|
    requires forall i :: b <= i < p ==> !BySmallest(added[a], base[i])
    requires p < |base| ==> BySmallest(added[a], base[p])
    ensures Merge(base[b..], added[a..]) == base[b..p] + [added[a]] + Merge(base[p..], added[a + 1..])
    decreases p - b
  {
    if b < p {
      MergeTakesRun(base, b + 1, p, added, a);
      Seqs.DropDrop(base, b);
      Seqs.PrependRun(base, b, p, added[a], Merge(base[p..], added[a + 1..]));
    } else {
      Seqs.DropDrop(added, a);
      Seqs.EmptyRun([], base, b);
      assert base[b..p] + [added[a]] == [added[a]];
    }
  }

  // ---- Order and members of a saved level -----------------------------------

  lemma {:induction false} MergeOrdered(base: seq<File>, added: seq<File>)
    requires Ordered(base) && Ordered(added)
    requires forall f, g :: f in base && g in added ==> f.number != g.number
    ensures Ordered(Merge(base, added))
  {
    if added != [] {
      OrderedTail(added);
      assert added == [added[0]] + added[1..];
      if base != [] {
        OrderedTail(base);
        assert base == [base[0]] + base[1..];
        if BySmallest(added[0], base[0]) {
          MergeOrdered(base, added[1..]);
          forall g | g in Merge(base, added[1..]) ensures BySmallest(added[0], g) {
            if g in base && g != base[0] { BySmallestTransitive(added[0], base[0], g); }
          }
          OrderedCons(added[0], Merge(base, added[1..]));
        } else {
          MergeOrdered(base[1..], added);
          assert base[0] in base && added[0] in added;
          assert BySmallest(base[0], added[0]);
          forall g | g in Merge(base[1..], added) ensures BySmallest(base[0], g) {
            if g in added && g != added[0] { BySmallestTransitive(base[0], added[0], g); }
          }
          OrderedCons(base[0], Merge(base[1..], added));
        }
      } else {
        MergeOrdered(base, added[1..]);
        OrderedCons(added[0], Merge(base, added[1..]));
      }
    }
  }

  lemma {:induction false} SurvivingOrdered(files: seq<File>, deleted: set<nat>)
    requires Ordered(files)
    ensures Ordered(Surviving(files, deleted))
  {
    if files != [] {
      var last := |files| - 1;
      SurvivingOrdered(files[..last], deleted);
      var r := Surviving(files[..last], deleted);
      forall i | 0 <= i < |r| ensures BySmallest(r[i], files[last]) {
        assert r[i] in r;
        var j :| 0 <= j < last && files[j] == r[i];
      }
    }
  }

  /** Files with the same number are the same file. */
  ghost predicate NumberDetermines(a: seq<File>, b: seq<File>)
  {
    forall f, g :: (f in a || f in b) && (g in a || g in b) && f.number == g.number ==> f == g
  }

  lemma {:induction false} InsertAllMembers(files: seq<File>, added: seq<File>)
    requires Ordered(files) && NumberDetermines(files, added)
    ensures forall f :: f in InsertAll(files, added) <==> f in files || f in added
  {
    if added != [] {
      var last := |added| - 1;
      InsertAllMembers(files, added[..last]);
      assert added == added[..last] + [added[last]];
      assert added[last] in added;
    }
  }

  /** One live step: a level saved by a fresh builder with one edit. */
  function LiveStep(files: seq<File>, edit: LevelEdit): (r: seq<File>)
  {
    SaveTo(files, Apply(LevelState({}, []), edit))
  }

  ghost predicate Fresh(files: seq<File>, edit: LevelEdit)
  {
    forall f, g :: f in files && g in edit.added ==> f.number != g.number
  }

  /** When no added number is still in the level, the edit removes exactly the
      deleted files, adds exactly the new ones and keeps the order. */
  lemma LiveStepMembers(files: seq<File>, edit: LevelEdit)
    requires Ordered(files) && NumberDetermines(files, edit.added) && Fresh(files, edit)
    ensures Ordered(LiveStep(files, edit))
    ensures forall f :: f in LiveStep(files, edit) <==> (f in files && f.number !in edit.deleted) || f in edit.added
  {
    var st := Apply(LevelState({}, []), edit);
    InsertAllMembers([], edit.added);
    MergeOrdered(files, st.added);
    SurvivingOrdered(Merge(files, st.added), st.deleted);
  }

  // ---- Replay ---------------------------------------------------------------

  /** The level after a live run of edits, each saved on its own. */
  function Live(files: seq<File>, edits: seq<LevelEdit>): (r: seq<File>)
  {
    if edits == [] then files else LiveStep(Live(files, edits[..|edits| - 1]), edits[|edits| - 1])
  }

  /** The state of the one builder that recovery feeds all edits. */
  function Accumulated(edits: seq<LevelEdit>): (r: LevelState)
    ensures Ordered(r.added)
  {
    if edits == [] then LevelState({}, []) else Apply(Accumulated(edits[..|edits| - 1]), edits[|edits| - 1])
  }

  /** The level recovery installs: the accumulated edits saved once on an empty base. */
  function Replay(edits: seq<LevelEdit>): (r: seq<File>)
  {
    SaveTo([], Accumulated(edits))
  }

  /** A file number names one table for ever. */
  ghost predicate Identified(edits: seq<LevelEdit>)
  {
    forall i, j :: 0 <= i < |edits| && 0 <= j < |edits| ==> NumberDetermines(edits[i].added, edits[j].added)
  }

  /** No edit adds a file number that the level still holds. */
  ghost predicate NeverReadded(edits: seq<LevelEdit>)
  {
    forall i :: 0 <= i < |edits| ==> Fresh(Live([], edits[..i]), edits[i])
  }

  lemma {:induction false} AccumulatedMembers(edits: seq<LevelEdit>)
    requires Identified(edits)
    ensures forall f :: f in Accumulated(edits).added <==> exists i :: 0 <= i < |edits| && f in edits[i].added
  {
    if edits != [] {
      var last := |edits| - 1;
      var init := edits[..last];
      assert forall i :: 0 <= i < last ==> init[i] == edits[i];
      AccumulatedMembers(init);
      var st := Accumulated(init);
      assert NumberDetermines(st.added, edits[last].added) by {
        forall f, g | (f in st.added || f in edits[last].added) && (g in st.added || g in edits[last].added) &&
            f.number == g.number
          ensures f == g
        {
          var i :| 0 <= i <= last && f in edits[i].added;
          var j :| 0 <= j <= last && g in edits[j].added;
          assert NumberDetermines(edits[i].added, edits[j].added);
        }
      }
      InsertAllMembers(st.added, edits[last].added);
    }
  }

  lemma MergeEmptyBase(added: seq<File>)
    ensures Merge([], added) == added
  {
    if added != [] {
      MergeEmptyBase(added[1..]);
      assert added == [added[0]] + added[1..];
    }
  }

  lemma ReplayOrdered(edits: seq<LevelEdit>)
    ensures Ordered(Replay(edits))
    ensures Replay(edits) == Surviving(Accumulated(edits).added, Accumulated(edits).deleted)
  {
    MergeEmptyBase(Accumulated(edits).added);
    SurvivingOrdered(Accumulated(edits).added, Accumulated(edits).deleted);
  }

  lemma ReplayStepMember(edits: seq<LevelEdit>, edit: LevelEdit, live: seq<File>, f: File)
    requires live == Replay(edits) && Ordered(live) && Fresh(live, edit) && NumberDetermines(live, edit.added)
    requires NumberDetermines(Accumulated(edits).added, edit.added)
    ensures f in Replay(edits + [edit]) <==> f in LiveStep(live, edit)
  {
    var all := edits + [edit];
    assert all[..|all| - 1] == edits;
    var st := Accumulated(edits);
    ReplayOrdered(edits);
    ReplayOrdered(all);
    InsertAllMembers(st.added, edit.added);
    LiveStepMembers(live, edit);
  }

  lemma {:induction false} MergeCounts(base: seq<File>, added: seq<File>, f: File)
    ensures multiset(Merge(base, added))[f] == multiset(base)[f] + multiset(added)[f]
  {
    if added != [] {
      Seqs.CountHead(added, f);
      if base != [] && !BySmallest(added[0], base[0]) {
        MergeCounts(base[1..], added, f);
        Seqs.CountHead(base, f);
        Seqs.CountCons(base[0], Merge(base[1..], added), f);
      } else {
        MergeCounts(base, added[1..], f);
        Seqs.CountCons(added[0], Merge(base, added[1..]), f);
      }
    }
  }

  lemma {:induction false} SurvivingCounts(files: seq<File>, deleted: set<nat>, f: File)
    requires f.number !in deleted
    ensures multiset(Surviving(files, deleted))[f] == multiset(files)[f]
  {
    if files != [] {
      var last := |files| - 1;
      SurvivingCounts(files[..last], deleted, f);
      assert files == files[..last] + [files[last]];
    }
  }

  lemma {:induction false} OrderedCounts(files: seq<File>, f: File)
    requires Ordered(files)
    ensures multiset(files)[f] <= 1
  {
    if files != [] {
      OrderedTail(files);
      OrderedCounts(files[1..], f);
      assert files == [files[0]] + files[1..];
      if files[0] == f { assert f !in files[1..]; }
    }
  }

  /** Adding a file the level still holds leaves the level with two copies of it,
      which is no longer an ordered level. */
  lemma ReaddedTwice(files: seq<File>, edit: LevelEdit)
    requires NumberDetermines(files, edit.added) && !Fresh(files, edit)
    ensures !Ordered(LiveStep(files, edit))
  {
    var f, g :| f in files && g in edit.added && f.number == g.number;
    assert f == g;
    var st := Apply(LevelState({}, []), edit);
    InsertAllMembers([], edit.added);
    MergeCounts(files, st.added, f);
    assert f.number in Numbers(edit.added);
    SurvivingCounts(Merge(files, st.added), st.deleted, f);
    assert f in multiset(files) && f in multiset(st.added);
    if Ordered(LiveStep(files, edit)) {
      OrderedCounts(LiveStep(files, edit), f);
    }
  }

  lemma IdentifiedPrefix(edits: seq<LevelEdit>, n: nat)
    requires Identified(edits) && n <= |edits|
    ensures Identified(edits[..n])
  {
    forall i, j | 0 <= i < n && 0 <= j < n ensures NumberDetermines(edits[..n][i].added, edits[..n][j].added) {
      assert NumberDetermines(edits[i].added, edits[j].added);
    }
  }

  lemma NeverReaddedPrefix(edits: seq<LevelEdit>, n: nat)
    requires NeverReadded(edits) && n <= |edits|
    ensures NeverReadded(edits[..n])
  {
    forall i | 0 <= i < n ensures Fresh(Live([], edits[..n][..i]), edits[..n][i]) {
      assert edits[..n][..i] == edits[..i];
    }
  }

  lemma KnownDetermines(edits: seq<LevelEdit>, edit: LevelEdit)
    requires Identified(edits + [edit])
    ensures NumberDetermines(Accumulated(edits).added, edit.added)
  {
    var all := edits + [edit];
    assert all[..|edits|] == edits;
    IdentifiedPrefix(all, |edits|);
    AccumulatedMembers(edits);
    var known := Accumulated(edits).added;
    forall f, g | (f in known || f in edit.added) && (g in known || g in edit.added) && f.number == g.number
      ensures f == g
    {
      var i :| 0 <= i < |all| && f in all[i].added;
      var j :| 0 <= j < |all| && g in all[j].added;
      assert NumberDetermines(all[i].added, all[j].added);
    }
  }

  /** One more edit: if replay agreed with the live run so far, it agrees after the
      edit exactly when the edit adds no number the level still holds. */
  lemma ReplayStep(edits: seq<LevelEdit>, edit: LevelEdit)
    requires Identified(edits + [edit])
    requires Replay(edits) == Live([], edits)
    ensures Replay(edits + [edit]) == Live([], edits + [edit]) <==> Fresh(Live([], edits), edit)
  {
    var all := edits + [edit];
    assert all[..|edits|] == edits;
    ReplayOrdered(edits);
    ReplayOrdered(all);
    KnownDetermines(edits, edit);
    var live := Live([], edits);
    assert NumberDetermines(live, edit.added);
    if Fresh(live, edit) {
      LiveStepMembers(live, edit);
      forall f ensures f in Replay(all) <==> f in LiveStep(live, edit) { ReplayStepMember(edits, edit, live, f); }
      OrderedUnique(Replay(all), LiveStep(live, edit));
    } else {
      ReaddedTwice(live, edit);
    }
  }

  lemma LastIsFresh(edits: seq<LevelEdit>)
    requires NeverReadded(edits) && edits != []
    ensures Fresh(Live([], edits[..|edits| - 1]), edits[|edits| - 1])
  {
  }

  /** Recovery rebuilds each level of the live run, whatever files come, go and
      come back, as long as no edit adds a number the level still holds. */
  lemma {:induction false} ReplayEqualsLive(edits: seq<LevelEdit>)
    requires Identified(edits) && NeverReadded(edits)
    ensures Replay(edits) == Live([], edits)
  {
    if edits != [] {
      hide Live, Replay, Identified, NeverReadded, Fresh;
      var last := |edits| - 1;
      Seqs.Snoc(edits, last);
      IdentifiedPrefix(edits, last);
      NeverReaddedPrefix(edits, last);
      ReplayEqualsLive(edits[..last]);
      LastIsFresh(edits);
      ReplayStep(edits[..last], edits[last]);
    }
  }
}
