/**
 Which entries a merge compaction keeps: the loop of DBImpl::DoCompactionWork
 (db/db_impl.cc) and Compaction::IsBaseLevelForKey (db/version_set.cc).
 */
module DropRules {
  import opened Keys
  import opened Versions

  // ---- IsBaseLevelForKey ----------------------------------------------------

  /** No file deeper than the output level has k in its user-key range. */
  ghost predicate BaseLevel(v: Version, level: nat, k: UserKey)
  {
    forall l, f :: level + 2 <= l < NUM_LEVELS && f in v[l] ==> !Covers(f, k)
  }

  /** The same as a function value, so that the drop rules can be applied to it. */
  ghost function BaseOf(v: Version, level: nat): UserKey -> bool
  {
    k => BaseLevel(v, level, k)
  }

  /** A running compaction: per deeper level a pointer that only moves forward. */
  class Compaction {
    const version: Version
    const level: nat
    var levelPtrs: seq<nat>
    ghost var asked: Option<UserKey>

    /** Files before a pointer end before every key still to be asked about. */
    ghost predicate Valid()
      reads this
    {
      && level + 1 < NUM_LEVELS
      && (forall l :: level + 2 <= l < NUM_LEVELS ==> SortedDisjoint(version[l]))
      && |levelPtrs| == NUM_LEVELS
      && (forall l :: level + 2 <= l < NUM_LEVELS ==> levelPtrs[l] <= |version[l]|)
      && (forall l, i :: level + 2 <= l < NUM_LEVELS && 0 <= i < levelPtrs[l] ==>
            asked.Some? && version[l][i].Largest().user < asked.value)
    }

    constructor (version: Version, level: nat)
      requires level + 1 < NUM_LEVELS
      requires forall l :: level + 2 <= l < NUM_LEVELS ==> SortedDisjoint(version[l])
      ensures Valid() && this.version == version && this.level == level && asked == None
    {
      this.version, this.level := version, level;
      levelPtrs := seq(NUM_LEVELS, _ => 0);
      asked := None;
    }

    /** The forward-only scan answers as a search of all deeper files would,
        as long as keys are asked in order. */
    method IsBaseLevelForKey(k: UserKey) returns (b: bool)
      requires Valid() && (asked.Some? ==> asked.value <= k)
      modifies this
      ensures Valid() && asked == Some(k)
      ensures b <==> BaseLevel(version, level, k)
    {
      asked := Some(k);
      for lvl := level + 2 to NUM_LEVELS
        invariant Valid() && asked == Some(k)
        invariant forall l, f :: level + 2 <= l < lvl && f in version[l] ==> !Covers(f, k)
      {
        b := ScanLevel(lvl, k);
        if !b {
          return;
        }
      }
      b := true;
    }

    /** The inner while loop, for one level. */
    method ScanLevel(lvl: nat, k: UserKey) returns (clear: bool)
      requires Valid() && asked == Some(k) && level + 2 <= lvl < NUM_LEVELS
      modifies this`levelPtrs
      ensures Valid()
      ensures clear <==> forall f :: f in version[lvl] ==> !Covers(f, k)
    {
      var files := version[lvl];
      assert SortedDisjoint(files);
      while levelPtrs[lvl] < |files|
        invariant Valid()
        decreases |files| - levelPtrs[lvl]
      {
        var p := levelPtrs[lvl];
        var f := files[p];
        if k <= f.Largest().user {
          if f.Smallest().user <= k {
            assert Covers(f, k);
            return false;
          }
          forall g | g in files ensures !Covers(g, k) {
            var i :| 0 <= i < |files| && files[i] == g;
            if i > p {
              assert Before(f, g);
              FileRange(f, f.entries[0]);
            }
          }
          return true;
        }
        levelPtrs := levelPtrs[lvl := p + 1];
      }
      return true;
    }
  }

  // ---- The drop rules -------------------------------------------------------

  /** last_sequence_for_key at entry i of the merged inputs: the sequence of the
      previous entry if it has the same user key, else kMaxSequenceNumber. */
  function LastSequence(m: seq<Entry>, i: nat): (sn: SeqNum)
    requires i < |m|
  {
    if i > 0 && m[i - 1].ikey.user == m[i].ikey.user then m[i - 1].ikey.sn else MAX_SEQUENCE
  }

  /** Entry i is hidden by a newer entry that every live snapshot sees (rule A). */
  predicate Hidden(m: seq<Entry>, i: nat, snapshot: SeqNum)
    requires i < |m|
  {
    LastSequence(m, i) <= snapshot
  }

  /** Entry i is a deletion marker with nothing left to hide. */
  ghost predicate Obsolete(m: seq<Entry>, i: nat, snapshot: SeqNum, base: UserKey -> bool)
    requires i < |m|
  {
    m[i].ikey.kind.Deletion? && m[i].ikey.sn <= snapshot && base(m[i].ikey.user)
  }

  ghost predicate Dropped(m: seq<Entry>, i: nat, snapshot: SeqNum, base: UserKey -> bool)
    requires i < |m|
  {
    Hidden(m, i, snapshot) || Obsolete(m, i, snapshot, base)
  }

  /** The kept ones among the first n merged entries. */
  ghost function Kept(m: seq<Entry>, n: nat, snapshot: SeqNum, base: UserKey -> bool): (r: seq<Entry>)
    requires n <= |m|
    ensures forall e :: e in r <==> exists i :: 0 <= i < n && m[i] == e && !Dropped(m, i, snapshot, base)
  {
    if n == 0 then []
    else Kept(m, n - 1, snapshot, base) + if Dropped(m, n - 1, snapshot, base) then [] else [m[n - 1]]
  }

  lemma {:induction false} KeptSorted(m: seq<Entry>, n: nat, snapshot: SeqNum, base: UserKey -> bool)
    requires Sorted(m) && n <= |m|
    ensures Sorted(Kept(m, n, snapshot, base))
    ensures forall e :: e in Kept(m, n, snapshot, base) ==> e in m[..n]
  {
    if n > 0 {
      KeptSorted(m, n - 1, snapshot, base);
      var r := Kept(m, n - 1, snapshot, base);
      forall i | 0 <= i < |r| ensures Less(r[i].ikey, m[n - 1].ikey) {
        assert r[i] in r;
        var j :| 0 <= j < n - 1 && m[j] == r[i];
      }
    }
  }

  /** Once an entry is at or below the snapshot, all later entries of its user
      key are dropped. */
  lemma HiddenRun(m: seq<Entry>, i: nat, j: nat, snapshot: SeqNum)
    requires Sorted(m) && i < j < |m|
    requires m[i].ikey.user == m[j].ikey.user && m[i].ikey.sn <= snapshot
    ensures Hidden(m, j, snapshot)
  {
    if i < j - 1 {
      assert Less(m[i].ikey, m[j - 1].ikey);
      assert Less(m[j - 1].ikey, m[j].ikey);
    }
  }

  /** Exactly these go: an entry with a newer one of its user key that the snapshot already
      sees, and a deletion that the snapshot sees where base allows it. */
  lemma KeptExactly(m: seq<Entry>, snapshot: SeqNum, base: UserKey -> bool, e: Entry)
    requires Sorted(m) && Distinct(Elements(m)) && snapshot < MAX_SEQUENCE
    ensures e in Kept(m, |m|, snapshot, base) <==>
              && e in m
              && !(exists d :: d in m && d.ikey.user == e.ikey.user && e.ikey.sn < d.ikey.sn <= snapshot)
              && !(e.ikey.kind.Deletion? && e.ikey.sn <= snapshot && base(e.ikey.user))
  {
    forall i | 0 <= i < |m| && m[i] == e
      ensures Hidden(m, i, snapshot) <==>
                exists d :: d in m && d.ikey.user == e.ikey.user && e.ikey.sn < d.ikey.sn <= snapshot
    {
      HiddenExactly(m, i, snapshot);
    }
  }

  lemma HiddenExactly(m: seq<Entry>, i: nat, snapshot: SeqNum)
    requires Sorted(m) && Distinct(Elements(m)) && snapshot < MAX_SEQUENCE && i < |m|
    ensures Hidden(m, i, snapshot) <==>
              exists d :: d in m && d.ikey.user == m[i].ikey.user && m[i].ikey.sn < d.ikey.sn <= snapshot
  {
    if Hidden(m, i, snapshot) {
      assert Less(m[i - 1].ikey, m[i].ikey);
      assert m[i - 1] in Elements(m) && m[i] in Elements(m);
    }
    if d :| d in m && d.ikey.user == m[i].ikey.user && m[i].ikey.sn < d.ikey.sn <= snapshot {
      var j :| 0 <= j < |m| && m[j] == d;
      assert j < i;
      HiddenRun(m, j, i, snapshot);
    }
  }

  /** Dropping is invisible: at every snapshot from the oldest live one on, the
      merged inputs together with the files left alone read the same as the kept
      entries together with those files, provided that where base allows dropping
      a deletion marker nothing older is left. */
  lemma DropPreserves(m: seq<Entry>, rest: set<Entry>, snapshot: SeqNum, base: UserKey -> bool, k: UserKey, s: SeqNum)
    requires Sorted(m) && Distinct(Elements(m) + rest)
    requires forall e, r :: e in m && r in rest && e.ikey.user == r.ikey.user && base(e.ikey.user) ==>
             r.ikey.sn > e.ikey.sn
    requires snapshot <= s && snapshot < MAX_SEQUENCE
    ensures Visible(Elements(m) + rest, k, s) == Visible(Elements(Kept(m, |m|, snapshot, base)) + rest, k, s)
  {
    var kept := Kept(m, |m|, snapshot, base);
    var before, after := Elements(m) + rest, Elements(kept) + rest;
    KeptSorted(m, |m|, snapshot, base);
    assert forall e :: e in kept ==> e in m;
    assert after <= before;
    match Newest(before, k, s)
    case None =>
      NoneVisible(after, k, s);
    case Some(e) =>
      if e in after {
        assert IsNewest(after, k, s, e);
        NewestUnique(after, k, s, e);
      } else {
        var i :| 0 <= i < |m| && m[i] == e;
        assert Dropped(m, i, snapshot, base);
        NewestIsNotHidden(m, rest, snapshot, k, s, i);
        forall d | d in after ensures !Matches(d, k, s) {
          if Matches(d, k, s) { NothingBehindTombstone(m, rest, snapshot, base, k, s, i, d); }
        }
        NoneVisible(after, k, s);
      }
  }

  /** The sentinel is a sequence number too: with the oldest snapshot at
      kMaxSequenceNumber every entry counts as hidden and all inputs are lost. */
  lemma {:induction false} SentinelDropsAll(m: seq<Entry>, n: nat, base: UserKey -> bool)
    requires n <= |m|
    ensures Kept(m, n, MAX_SEQUENCE, base) == []
  {
    if n > 0 { SentinelDropsAll(m, n - 1, base); }
  }

  lemma NewestIsNotHidden(m: seq<Entry>, rest: set<Entry>, snapshot: SeqNum, k: UserKey, s: SeqNum, i: nat)
    requires Sorted(m) && i < |m| && snapshot <= s && snapshot < MAX_SEQUENCE && Distinct(Elements(m) + rest)
    requires IsNewest(Elements(m) + rest, k, s, m[i])
    ensures !Hidden(m, i, snapshot)
  {
    if i > 0 {
      assert Less(m[i - 1].ikey, m[i].ikey);
      assert m[i - 1] in Elements(m) + rest;
    }
  }

  /** Behind a dropped deletion marker that was the newest match, no match is left. */
  lemma NothingBehindTombstone(m: seq<Entry>, rest: set<Entry>, snapshot: SeqNum, base: UserKey -> bool,
                               k: UserKey, s: SeqNum, i: nat, d: Entry)
    requires Sorted(m) && i < |m| && snapshot <= s && Distinct(Elements(m) + rest)
    requires forall e, r :: e in m && r in rest && e.ikey.user == r.ikey.user && base(e.ikey.user) ==>
             r.ikey.sn > e.ikey.sn
    requires IsNewest(Elements(m) + rest, k, s, m[i]) && Obsolete(m, i, snapshot, base)
    requires d in Elements(Kept(m, |m|, snapshot, base)) + rest
    ensures !Matches(d, k, s)
  {
    assert m[i] in m;
    if d !in rest {
      var j :| 0 <= j < |m| && m[j] == d && !Dropped(m, j, snapshot, base);
      assert d in Elements(m);
      if j < i {
        assert Less(m[j].ikey, m[i].ikey);
        assert m[i] in Elements(m);
      } else if i < j && m[j].ikey.user == k {
        HiddenRun(m, i, j, snapshot);
      }
    }
  }

  // ---- The compaction loop --------------------------------------------------

  ghost function Concat(outputs: seq<seq<Entry>>): seq<Entry>
  {
    if outputs == [] then [] else Concat(outputs[..|outputs| - 1]) + outputs[|outputs| - 1]
  }

  lemma ConcatSnoc(outputs: seq<seq<Entry>>, o: seq<Entry>)
    ensures Concat(outputs + [o]) == Concat(outputs) + o
  {
    assert (outputs + [o])[..|outputs|] == outputs;
  }

  /** The drop decision for one entry; current and last are the user key and the
      sequence of the previous entry. */
  method ShouldDrop(c: Compaction, ikey: IKey, current: Option<UserKey>, last: SeqNum, snapshot: SeqNum)
    returns (drop: bool)
    requires c.Valid() && (c.asked.Some? ==> c.asked.value <= ikey.user)
    modifies c
    ensures c.Valid() && (c.asked.Some? ==> c.asked.value <= ikey.user)
    ensures drop <==> (if current == Some(ikey.user) then last else MAX_SEQUENCE) <= snapshot ||
                      (ikey.kind.Deletion? && ikey.sn <= snapshot && BaseLevel(c.version, c.level, ikey.user))
  {
    var lastSequence := last;
    if current != Some(ikey.user) {
      // first occurrence of this user key
      lastSequence := MAX_SEQUENCE;
    }
    drop := false;
    if lastSequence <= snapshot {
      drop := true;
    } else if ikey.kind.Deletion? && ikey.sn <= snapshot {
      drop := c.IsBaseLevelForKey(ikey.user);
    }
  }

  /** CompactionState: the finished outputs and the one being built.  An empty
      builder means that no output file is open. */
  datatype Outputs = Outputs(finished: seq<seq<Entry>>, builder: seq<Entry>)

  ghost function Written(o: Outputs): seq<Entry>
  {
    Concat(o.finished) + o.builder
  }

  ghost predicate NoEmptyOutput(o: Outputs)
  {
    forall f :: f in o.finished ==> f != []
  }

  /** FinishCompactionOutputFile, when a file is open and stop is set. */
  function FinishOutput(o: Outputs, stop: bool): (r: Outputs)
    requires NoEmptyOutput(o)
    ensures Written(r) == Written(o) && NoEmptyOutput(r)
    ensures stop ==> r.builder == []
  {
    if stop && o.builder != [] then
      ConcatSnoc(o.finished, o.builder);
      Outputs(o.finished + [o.builder], [])
    else o
  }

  function AddEntry(o: Outputs, e: Entry): (r: Outputs)
    requires NoEmptyOutput(o)
    ensures Written(r) == Written(o) + [e] && NoEmptyOutput(r)
  {
    o.(builder := o.builder + [e])
  }

  /** The entry loop of DoCompactionWork over the merged inputs.  stopBefore[i]
      and full[i] are the answers of ShouldStopBefore and of the size test at
      entry i; they only decide where outputs are cut. */
  method DoCompactionWork(c: Compaction, m: seq<Entry>, snapshot: SeqNum, stopBefore: seq<bool>, full: seq<bool>)
    returns (outputs: seq<seq<Entry>>)
    requires c.Valid() && c.asked == None
    requires Sorted(m) && |stopBefore| == |full| == |m|
    modifies c
    ensures Concat(outputs) == Kept(m, |m|, snapshot, BaseOf(c.version, c.level))
    ensures forall o :: o in outputs ==> o != []
  {
    ghost var base := BaseOf(c.version, c.level);
    var o := Outputs([], []);
    var current: Option<UserKey> := None;
    var last: SeqNum := MAX_SEQUENCE;
    for i := 0 to |m|
      invariant c.Valid() && (c.asked.Some? ==> i > 0 && c.asked.value <= m[i - 1].ikey.user)
      invariant Written(o) == Kept(m, i, snapshot, base) && NoEmptyOutput(o)
      invariant i == 0 ==> current.None?
      invariant i > 0 ==> current == Some(m[i - 1].ikey.user) && last == m[i - 1].ikey.sn
    {
      o := FinishOutput(o, stopBefore[i]);
      var ikey := m[i].ikey;
      assert i > 0 ==> Less(m[i - 1].ikey, ikey);
      var drop := ShouldDrop(c, ikey, current, last, snapshot);
      current, last := Some(ikey.user), ikey.sn;
      assert drop == Dropped(m, i, snapshot, base);
      if !drop {
        o := FinishOutput(AddEntry(o, m[i]), full[i]);
      }
    }
    o := FinishOutput(o, true);
    outputs := o.finished;
  }
}
