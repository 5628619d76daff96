/**
 DBIter: a bidirectional iterator over the user keys visible at a sequence
 number, on top of an internal iterator over all entries (db/db_iter.cc).
 */
module DbIter {
  import opened Keys
  import opened Cursors
  import Lookup

  // ---- What the iterator shows ----------------------------------------------

  /** Entry i is what a read of its user key at s returns. */
  ghost predicate Shown(es: seq<Entry>, s: SeqNum, i: int)
  {
    && 0 <= i < |es|
    && es[i].ikey.sn <= s && es[i].ikey.kind.Put?
    && forall j :: 0 <= j < i && es[j].ikey.user == es[i].ikey.user ==> es[j].ikey.sn > s
  }

  /** The first shown index in [i, |es|), or None. */
  ghost predicate IsFirstShown(es: seq<Entry>, s: SeqNum, i: int, r: Option<nat>)
  {
    match r
    case None => forall m :: i <= m < |es| ==> !Shown(es, s, m)
    case Some(c) => i <= c && Shown(es, s, c) && forall m :: i <= m < c ==> !Shown(es, s, m)
  }

  /** The last shown index in [0, i), or None. */
  ghost predicate IsLastShown(es: seq<Entry>, s: SeqNum, i: int, r: Option<nat>)
  {
    match r
    case None => forall m :: 0 <= m < i ==> !Shown(es, s, m)
    case Some(c) => c < i && Shown(es, s, c) && forall m :: c < m < i ==> !Shown(es, s, m)
  }

  datatype Direction = Forward | Reverse

  class DBIter {
    const s: SeqNum
    var iter: Cursor
    var direction: Direction
    var valid: bool
    var savedKey: Option<UserKey>     // None: cleared
    var savedValue: Value
    ghost var at: Option<nat>         // index of the entry shown, None when !valid

    /** Forward: the internal iterator is on the shown entry.  Reverse: it is on a
        smaller user key, and only entries too new to be seen lie between. */
    ghost predicate Valid()
      reads this
    {
      && iter.WellFormed()
      && valid == at.Some?
      && (valid ==> Shown(iter.es, s, at.value))
      && (valid && direction.Forward? ==> iter.pos == at)
      && (valid && direction.Reverse? ==>
            && savedKey == Some(iter.es[at.value].ikey.user) && savedValue == iter.es[at.value].value
            && BeforeGroup(iter.es, s, iter.pos, at.value))
    }

    /** The scan position in reverse: before the user key of entry r. */
    static ghost predicate BeforeGroup(es: seq<Entry>, s: SeqNum, pos: Option<nat>, r: nat)
    {
      && r < |es|
      && (pos.Some? ==> pos.value < r && es[pos.value].ikey.user < es[r].ikey.user)
      && forall m :: (if pos.Some? then pos.value + 1 else 0) <= m < r ==> es[m].ikey.sn > s
    }

    constructor (es: seq<Entry>, s: SeqNum)
      requires Sorted(es)
      ensures Valid() && iter.es == es && this.s == s && !valid
    {
      this.s := s;
      iter := Cursor(es, None);
      direction, valid := Forward, false;
      savedKey, savedValue, at := None, "", None;
    }

    function Key(): UserKey
      reads this
      requires Valid() && valid
    {
      if direction.Forward? then iter.Current().ikey.user else savedKey.value
    }

    function GetValue(): Value
      reads this
      requires Valid() && valid
    {
      if direction.Forward? then iter.Current().value else savedValue
    }

    /** From the internal position on, find the first shown entry past the key to
        skip, which is in savedKey. */
    method FindNextUserEntry(skipping: bool)
      requires iter.WellFormed() && iter.Valid() && direction.Forward?
      requires skipping ==> savedKey.Some?
      requires ScanStart(iter.es, s, iter.pos.value, if skipping then savedKey else None)
      modifies this
      ensures Valid() && direction.Forward? && iter.es == old(iter.es)
      ensures ScanResult(iter.es, s, old(iter.pos.value), if skipping then old(savedKey) else None, at)
    {
      hide ScanStart, ScanResult, Shown;
      iter, valid := ScanForward(iter, s, if skipping then savedKey else None);
      savedKey := None;
      at := if valid then iter.pos else None;
    }

    /** From the internal position backwards, find the last shown entry. */
    method FindPrevUserEntry()
      requires iter.WellFormed() && direction.Reverse?
      modifies this
      ensures Valid() && iter.es == old(iter.es)
      ensures IsLastShown(iter.es, s, Index(old(iter.pos)) + 1, at)
    {
      hide Shown;
      var saved;
      iter, saved, at := ScanBackward(iter, s);
      if saved.None? {
        valid, savedKey, savedValue, direction := false, None, "", Forward;
      } else {
        valid, savedKey, savedValue := true, Some(saved.value.0), saved.value.1;
      }
    }

    method Next()
      requires Valid() && valid
      modifies this
      ensures Valid() && iter.es == old(iter.es)
      ensures IsFirstShown(iter.es, s, old(at.value) + 1, at)
    {
      ghost var es, here := iter.es, at.value;
      hide Shown, ScanStart, ScanResult, Sorted, BeforeGroup, IsFirstShown;
      if direction.Reverse? {
        direction := Forward;
        ReverseTurn(es, s, iter.pos, here);
        iter := if !iter.Valid() then iter.SeekToFirst() else iter.Next();
      } else {
        savedKey := Some(iter.Current().ikey.user);
        ForwardStep(es, s, here);
        iter := iter.Next();
      }
      if !iter.Valid() {
        valid, savedKey, at := false, None, None;
        return;
      }
      ghost var i0, key := iter.pos.value, savedKey;
      FindNextUserEntry(true);
      ScanPastKey(es, s, i0, here, at);
    }

    method Prev()
      requires Valid() && valid
      modifies this
      ensures Valid() && iter.es == old(iter.es)
      ensures IsLastShown(iter.es, s, old(at.value), at)
    {
      ghost var es, here := iter.es, at.value;
      hide Shown, Sorted, BeforeGroup, IsLastShown;
      if direction.Forward? {
        savedKey := Some(iter.Current().ikey.user);
        iter := StepBelow(iter, savedKey.value);
        GroupNotShown(es, s, iter.pos, here);
        if !iter.Valid() {
          valid, savedKey, savedValue, at := false, None, "", None;
          return;
        }
        direction := Reverse;
      } else {
        GapNotShown(es, s, iter.pos, here);
      }
      ghost var from := iter.pos;
      FindPrevUserEntry();
      LastBelow(es, s, Index(from), here, at);
    }

    method Seek(target: UserKey)
      requires Valid()
      modifies this
      ensures Valid() && iter.es == old(iter.es)
      ensures IsFirstFrom(iter.es, s, target, at)
    {
      hide Shown, Sorted, BeforeGroup, ScanStart, ScanResult, IsFirstFrom;
      direction, savedValue := Forward, "";
      iter := iter.Seek(SeekKey(target, s));
      ghost var es := iter.es;
      SeekStart(es, s, target, Lookup.FirstAtLeast(es, SeekKey(target, s)));
      if iter.Valid() {
        ghost var i0 := iter.pos.value;
        FindNextUserEntry(false);
        SeekResult(es, s, target, i0, at);
      } else {
        valid, at := false, None;
      }
    }

    method SeekToFirst()
      requires Valid()
      modifies this
      ensures Valid() && iter.es == old(iter.es)
      ensures IsFirstShown(iter.es, s, 0, at)
    {
      direction, savedValue := Forward, "";
      iter := iter.SeekToFirst();
      if iter.Valid() {
        FindNextUserEntry(false);
      } else {
        valid, at := false, None;
      }
    }

    method SeekToLast()
      requires Valid()
      modifies this
      ensures Valid() && iter.es == old(iter.es)
      ensures IsLastShown(iter.es, s, |iter.es|, at)
    {
      direction, savedValue := Reverse, "";
      iter := iter.SeekToLast();
      FindPrevUserEntry();
    }
  }

  /** The first shown entry whose user key is at or after target. */
  ghost predicate IsFirstFrom(es: seq<Entry>, s: SeqNum, target: UserKey, r: Option<nat>)
  {
    && (r.Some? ==> Shown(es, s, r.value) && es[r.value].ikey.user >= target)
    && forall m :: 0 <= m < (if r.Some? then r.value else |es|) && Shown(es, s, m) ==> es[m].ikey.user < target
  }

  // ---- Turning and stepping -------------------------------------------------

  /** Moving forward after moving in reverse, the scan may start right after the
      reverse position. */
  lemma ReverseTurn(es: seq<Entry>, s: SeqNum, pos: Option<nat>, here: nat)
    requires Sorted(es) && Shown(es, s, here) && DBIter.BeforeGroup(es, s, pos, here)
    ensures ScanStart(es, s, Index(pos) + 1, Some(es[here].ikey.user)) && StepStart(es, s, Index(pos) + 1, here)
  {
    var i0 := Index(pos) + 1;
    forall m | here < m < |es| ensures es[m].ikey.user >= es[here].ikey.user { assert Less(es[here].ikey, es[m].ikey); }
    forall j, m | 0 <= j < i0 <= m < |es| && es[j].ikey.sn <= s ensures es[j].ikey.user != es[m].ikey.user {
      assert Less(es[j].ikey, es[m].ikey);
      if j < pos.value { assert Less(es[j].ikey, es[pos.value].ikey); }
    }
  }

  lemma ForwardStep(es: seq<Entry>, s: SeqNum, here: nat)
    requires Sorted(es) && Shown(es, s, here)
    ensures here + 1 < |es| ==> ScanStart(es, s, here + 1, Some(es[here].ikey.user)) && StepStart(es, s, here + 1, here)
    ensures here + 1 == |es| ==> IsFirstShown(es, s, here + 1, None)
  {
    forall m | here < m < |es| ensures es[m].ikey.user >= es[here].ikey.user { assert Less(es[here].ikey, es[m].ikey); }
    forall j | 0 <= j < here ensures es[j].ikey.user <= es[here].ikey.user { assert Less(es[j].ikey, es[here].ikey); }
  }

  /** Nothing between the start of the scan and the current entry is shown. */
  ghost predicate StepStart(es: seq<Entry>, s: SeqNum, i0: int, here: nat)
  {
    0 <= i0 <= here + 1 && forall m :: i0 <= m < here ==> !Shown(es, s, m)
  }

  lemma ScanPastKey(es: seq<Entry>, s: SeqNum, i0: nat, here: nat, at: Option<nat>)
    requires Shown(es, s, here) && StepStart(es, s, i0, here)
    requires ScanResult(es, s, i0, Some(es[here].ikey.user), at)
    ensures IsFirstShown(es, s, here + 1, at)
  {
  }

  /** The loop of Prev that leaves the current user key backwards. */
  method StepBelow(start: Cursor, key: UserKey) returns (iter: Cursor)
    requires start.WellFormed() && start.Valid()
    ensures iter.WellFormed() && iter.es == start.es
    ensures iter.Valid() ==> iter.pos.value < start.pos.value && iter.Current().ikey.user < key
    ensures forall m :: Index(iter.pos) < m < start.pos.value ==> iter.es[m].ikey.user >= key
  {
    iter := start;
    while true
      invariant iter.WellFormed() && iter.Valid() && iter.es == start.es && iter.pos.value <= start.pos.value
      invariant forall m :: iter.pos.value <= m < start.pos.value ==> iter.es[m].ikey.user >= key
      decreases iter.pos.value
    {
      iter := iter.Prev();
      if !iter.Valid() {
        return;
      }
      if iter.Current().ikey.user < key {
        return;
      }
    }
  }

  lemma GroupNotShown(es: seq<Entry>, s: SeqNum, pos: Option<nat>, here: nat)
    requires Sorted(es) && Shown(es, s, here) && Index(pos) < here
    requires forall m :: Index(pos) < m < here ==> es[m].ikey.user >= es[here].ikey.user
    ensures forall m :: Index(pos) < m < here ==> !Shown(es, s, m)
    ensures pos.None? ==> IsLastShown(es, s, here, None)
  {
    forall m | Index(pos) < m < here ensures !Shown(es, s, m) { assert Less(es[m].ikey, es[here].ikey); }
  }

  lemma GapNotShown(es: seq<Entry>, s: SeqNum, pos: Option<nat>, here: nat)
    requires DBIter.BeforeGroup(es, s, pos, here)
    ensures Index(pos) < here && forall m :: Index(pos) < m < here ==> !Shown(es, s, m)
  {
  }

  lemma LastBelow(es: seq<Entry>, s: SeqNum, from: int, here: nat, at: Option<nat>)
    requires from < here && IsLastShown(es, s, from + 1, at) && forall m :: from < m < here ==> !Shown(es, s, m)
    ensures IsLastShown(es, s, here, at)
  {
  }

  lemma SeekStart(es: seq<Entry>, s: SeqNum, target: UserKey, i0: nat)
    requires Sorted(es) && i0 <= |es|
    requires forall j :: 0 <= j < i0 ==> Less(es[j].ikey, SeekKey(target, s))
    requires forall j :: i0 <= j < |es| ==> AtMost(SeekKey(target, s), es[j].ikey)
    ensures i0 < |es| ==> ScanStart(es, s, i0, None)
    ensures forall m :: 0 <= m < i0 && Shown(es, s, m) ==> es[m].ikey.user < target
    ensures forall m :: i0 <= m < |es| ==> es[m].ikey.user >= target
    ensures i0 == |es| ==> IsFirstFrom(es, s, target, None)
  {
  }

  lemma SeekResult(es: seq<Entry>, s: SeqNum, target: UserKey, i0: nat, at: Option<nat>)
    requires ScanResult(es, s, i0, None, at)
    requires forall m :: 0 <= m < i0 && Shown(es, s, m) ==> es[m].ikey.user < target
    requires forall m :: i0 <= m < |es| ==> es[m].ikey.user >= target
    ensures IsFirstFrom(es, s, target, at)
  {
  }

  // ---- The forward scan -----------------------------------------------------

  /** Skipping k0, the scan may start at i0: entries from there on are not below
      k0 unless invisible, and earlier entries hide none of them but those of k0. */
  ghost predicate ScanStart(es: seq<Entry>, s: SeqNum, i0: nat, skip0: Option<UserKey>)
  {
    && i0 < |es|
    && (skip0.Some? ==> forall m :: i0 <= m < |es| && es[m].ikey.sn <= s ==> es[m].ikey.user >= skip0.value)
    && (forall j, m :: 0 <= j < i0 <= m < |es| && es[j].ikey.user == es[m].ikey.user && es[j].ikey.sn <= s ==>
          skip0 == Some(es[m].ikey.user))
  }

  /** The scan from i0 yields the first shown entry whose user key is not skip0. */
  ghost predicate ScanResult(es: seq<Entry>, s: SeqNum, i0: nat, skip0: Option<UserKey>, at: Option<nat>)
  {
    && (at.Some? ==> i0 <= at.value && Shown(es, s, at.value) && skip0 != Some(es[at.value].ikey.user))
    && forall m :: i0 <= m < (if at.Some? then at.value else |es|) && Shown(es, s, m) ==> skip0 == Some(es[m].ikey.user)
  }

  /** What the forward scan knows about the entries in [i0, c): every visible one
      is covered by the key to skip, which is the initial one or that of a visible
      entry passed, and nothing passed should have been shown. */
  ghost predicate Passed(es: seq<Entry>, s: SeqNum, i0: nat, c: int, skip0: Option<UserKey>, skip: Option<UserKey>)
  {
    && ScanStart(es, s, i0, skip0)
    && i0 <= c <= |es|
    && (forall j :: i0 <= j < c && es[j].ikey.sn <= s ==> skip.Some? && es[j].ikey.user <= skip.value)
    && (skip0.Some? ==> skip.Some? && skip0.value <= skip.value)
    && (skip.Some? ==> skip == skip0 || SeenAt(es, s, i0, c, skip.value))
    && (forall m :: i0 <= m < c && Shown(es, s, m) ==> skip0 == Some(es[m].ikey.user))
  }

  ghost predicate SeenAt(es: seq<Entry>, s: SeqNum, i0: nat, c: int, k: UserKey)
    requires c <= |es|
  {
    exists j :: i0 <= j < c && es[j].ikey.user == k && es[j].ikey.sn <= s
  }

  lemma ScanBegins(es: seq<Entry>, s: SeqNum, i0: nat, skip0: Option<UserKey>)
    requires ScanStart(es, s, i0, skip0)
    ensures Passed(es, s, i0, i0, skip0, skip0)
  {
  }

  lemma SeenStays(es: seq<Entry>, s: SeqNum, i0: nat, c: nat, k: UserKey)
    requires c < |es|
    ensures SeenAt(es, s, i0, c, k) ==> SeenAt(es, s, i0, c + 1, k)
    ensures i0 <= c && es[c].ikey.user == k && es[c].ikey.sn <= s ==> SeenAt(es, s, i0, c + 1, k)
  {
  }

  lemma PassInvisible(es: seq<Entry>, s: SeqNum, i0: nat, c: nat, skip0: Option<UserKey>, skip: Option<UserKey>)
    requires Sorted(es) && c < |es| && Passed(es, s, i0, c, skip0, skip) && es[c].ikey.sn > s
    ensures Passed(es, s, i0, c + 1, skip0, skip)
  {
    if skip.Some? { SeenStays(es, s, i0, c, skip.value); }
  }

  lemma PassDeletion(es: seq<Entry>, s: SeqNum, i0: nat, c: nat, skip0: Option<UserKey>, skip: Option<UserKey>)
    requires Sorted(es) && c < |es| && Passed(es, s, i0, c, skip0, skip)
    requires es[c].ikey.sn <= s && es[c].ikey.kind.Deletion?
    ensures Passed(es, s, i0, c + 1, skip0, Some(es[c].ikey.user))
  {
    SeenStays(es, s, i0, c, es[c].ikey.user);
    forall j | i0 <= j < c ensures es[j].ikey.user <= es[c].ikey.user { assert Less(es[j].ikey, es[c].ikey); }
  }

  lemma PassHidden(es: seq<Entry>, s: SeqNum, i0: nat, c: nat, skip0: Option<UserKey>, skip: Option<UserKey>)
    requires Sorted(es) && c < |es| && Passed(es, s, i0, c, skip0, skip)
    requires es[c].ikey.sn <= s && skip.Some? && es[c].ikey.user <= skip.value
    ensures Passed(es, s, i0, c + 1, skip0, skip)
  {
    SeenStays(es, s, i0, c, skip.value);
    if skip != skip0 {
      var j :| i0 <= j < c && es[j].ikey.user == skip.value && es[j].ikey.sn <= s;
      assert Less(es[j].ikey, es[c].ikey);
      assert !Shown(es, s, c);
    }
  }

  lemma ShownHere(es: seq<Entry>, s: SeqNum, i0: nat, c: nat, skip0: Option<UserKey>, skip: Option<UserKey>)
    requires Sorted(es) && c < |es| && Passed(es, s, i0, c, skip0, skip)
    requires es[c].ikey.sn <= s && es[c].ikey.kind.Put? && !(skip.Some? && es[c].ikey.user <= skip.value)
    ensures Shown(es, s, c) && ScanResult(es, s, i0, skip0, Some(c))
  {
  }

  lemma NothingFound(es: seq<Entry>, s: SeqNum, i0: nat, skip0: Option<UserKey>, skip: Option<UserKey>)
    requires Passed(es, s, i0, |es|, skip0, skip)
    ensures ScanResult(es, s, i0, skip0, None)
  {
  }

  /** The loop of FindNextUserEntry: skip is None while nothing is skipped. */
  method ScanForward(start: Cursor, s: SeqNum, skip0: Option<UserKey>) returns (iter: Cursor, found: bool)
    requires start.WellFormed() && start.Valid()
    requires ScanStart(start.es, s, start.pos.value, skip0)
    ensures iter.WellFormed() && iter.es == start.es && found == iter.Valid()
    ensures found ==> Shown(iter.es, s, iter.pos.value)
    ensures ScanResult(iter.es, s, start.pos.value, skip0, iter.pos)
  {
    hide Passed, ScanStart, ScanResult, Shown, Sorted;
    ghost var es, i0 := start.es, start.pos.value;
    iter := start;
    var skip := skip0;
    ScanBegins(es, s, i0, skip0);
    while iter.Valid()
      invariant iter.WellFormed() && iter.es == es
      invariant Passed(es, s, i0, if iter.Valid() then iter.pos.value else |es|, skip0, skip)
      decreases if iter.Valid() then |es| - iter.pos.value else 0
    {
      var e := iter.Current();
      if e.ikey.sn > s {
        PassInvisible(es, s, i0, iter.pos.value, skip0, skip);
      } else if e.ikey.kind.Deletion? {
        // all upcoming entries of this user key are hidden by the deletion
        PassDeletion(es, s, i0, iter.pos.value, skip0, skip);
        skip := Some(e.ikey.user);
      } else if skip.Some? && e.ikey.user <= skip.value {
        PassHidden(es, s, i0, iter.pos.value, skip0, skip);
      } else {
        ShownHere(es, s, i0, iter.pos.value, skip0, skip);
        return iter, true;
      }
      iter := iter.Next();
    }
    NothingFound(es, s, i0, skip0, skip);
    found := false;
  }

  // ---- The backward scan ----------------------------------------------------

  /** A cursor position as an index; an invalid iterator is before the first entry. */
  function Index(pos: Option<nat>): (i: int)
  {
    if pos.Some? then pos.value else -1
  }

  /** What the backward scan from i knows at c: q is the last visible entry it
      passed, and no other entry in (c, i] is shown. */
  ghost predicate Rewound(es: seq<Entry>, s: SeqNum, i: int, c: int, q: Option<nat>)
  {
    && -1 <= c <= i < |es|
    && (q.Some? ==> c < q.value <= i && es[q.value].ikey.sn <= s)
    && (forall m :: c < m < (if q.Some? then q.value else i + 1) ==> es[m].ikey.sn > s)
    && (forall m :: c < m <= i && Shown(es, s, m) ==> q == Some(m))
  }

  lemma RewindInvisible(es: seq<Entry>, s: SeqNum, i: int, c: nat, q: Option<nat>)
    requires Rewound(es, s, i, c, q) && es[c].ikey.sn > s
    ensures Rewound(es, s, i, c - 1, q)
  {
  }

  /** A visible entry takes over from q: q was a deletion, or has the same user key. */
  lemma RewindVisible(es: seq<Entry>, s: SeqNum, i: int, c: nat, q: Option<nat>)
    requires Sorted(es) && Rewound(es, s, i, c, q) && es[c].ikey.sn <= s
    requires q.Some? && es[q.value].ikey.kind.Put? ==> es[c].ikey.user >= es[q.value].ikey.user
    ensures Rewound(es, s, i, c - 1, Some(c))
  {
    if q.Some? {
      assert Less(es[c].ikey, es[q.value].ikey);
      assert !Shown(es, s, q.value);
    }
  }

  /** The scan stops at c on a smaller user key, or before the first entry. */
  lemma RewindStops(es: seq<Entry>, s: SeqNum, i: int, c: int, q: nat)
    requires Sorted(es) && Rewound(es, s, i, c, Some(q)) && es[q].ikey.kind.Put?
    requires c >= 0 ==> es[c].ikey.user < es[q].ikey.user
    ensures IsLastShown(es, s, i + 1, Some(q))
    ensures DBIter.BeforeGroup(es, s, if c >= 0 then Some(c) else None, q)
  {
    forall j | 0 <= j < c ensures es[j].ikey.user <= es[c].ikey.user { assert Less(es[j].ikey, es[c].ikey); }
  }

  /** The loop of FindPrevUserEntry: saved is set while value_type is kTypeValue. */
  method ScanBackward(start: Cursor, s: SeqNum)
    returns (iter: Cursor, saved: Option<(UserKey, Value)>, ghost at: Option<nat>)
    requires start.WellFormed()
    ensures iter.WellFormed() && iter.es == start.es
    ensures IsLastShown(iter.es, s, Index(start.pos) + 1, at)
    ensures saved.Some? == at.Some?
    ensures at.Some? ==> at.value < |iter.es| && saved.value == (iter.es[at.value].ikey.user, iter.es[at.value].value)
    ensures at.Some? ==> DBIter.BeforeGroup(iter.es, s, iter.pos, at.value)
  {
    hide Rewound, Shown, Sorted, IsLastShown, DBIter.BeforeGroup;
    ghost var es, i := start.es, Index(start.pos);
    iter, saved := start, None;
    ghost var q: Option<nat> := None;
    RewindBegins(es, s, i);
    while iter.Valid()
      invariant iter.WellFormed() && iter.es == es
      invariant Rewound(es, s, i, Index(iter.pos), q)
      invariant q.Some? ==> q.value < |es|
      invariant saved ==
                if q.Some? && es[q.value].ikey.kind.Put? then Some((es[q.value].ikey.user, es[q.value].value)) else None
      decreases Index(iter.pos) + 1
    {
      var e := iter.Current();
      if e.ikey.sn <= s {
        if saved.Some? && e.ikey.user < saved.value.0 {
          // a non-deleted value was found among the entries of later keys
          break;
        }
        RewindVisible(es, s, i, iter.pos.value, q);
        q := iter.pos;
        saved := if e.ikey.kind.Deletion? then None else Some((e.ikey.user, e.value));
      } else {
        RewindInvisible(es, s, i, iter.pos.value, q);
      }
      iter := iter.Prev();
    }
    if saved.Some? {
      RewindStops(es, s, i, Index(iter.pos), q.value);
      at := q;
    } else {
      RewindEmpty(es, s, i, q);
      at := None;
    }
  }

  lemma RewindBegins(es: seq<Entry>, s: SeqNum, i: int)
    requires -1 <= i < |es|
    ensures Rewound(es, s, i, i, None)
  {
  }

  lemma RewindEmpty(es: seq<Entry>, s: SeqNum, i: int, q: Option<nat>)
    requires Rewound(es, s, i, -1, q) && (q.Some? ==> es[q.value].ikey.kind.Deletion?)
    ensures IsLastShown(es, s, i + 1, None)
  {
  }

  // ---- Refinement: a cursor over the visible map ----------------------------

  /** The shown entries among the first n, in order. */
  ghost function Rows(es: seq<Entry>, s: SeqNum, n: nat): (r: seq<nat>)
    requires n <= |es|
    ensures forall i :: i in r <==> 0 <= i < n && Shown(es, s, i)
    ensures forall p, q :: 0 <= p < q < |r| ==> r[p] < r[q]
  {
    if n == 0 then []
    else
      var rest := Rows(es, s, n - 1);
      assert forall p :: 0 <= p < |rest| ==> rest[p] in rest;
      rest + if Shown(es, s, n - 1) then [n - 1] else []
  }

  /** The user keys visible at s with their values, in key order. */
  ghost function View(es: seq<Entry>, s: SeqNum): (v: seq<(UserKey, Value)>)
  {
    var rows := Rows(es, s, |es|);
    seq(|rows|, p requires 0 <= p < |rows| => Row(es, s, rows, p))
  }

  ghost function Row(es: seq<Entry>, s: SeqNum, rows: seq<nat>, p: nat): (UserKey, Value)
    requires rows == Rows(es, s, |es|) && p < |rows|
  {
    assert rows[p] in rows;
    (es[rows[p]].ikey.user, es[rows[p]].value)
  }

  /** The view is the visible map: its keys strictly increase and it holds exactly
      what reads at s return. */
  lemma ViewIsVisibleMap(es: seq<Entry>, s: SeqNum)
    requires Sorted(es) && Distinct(Elements(es))
    ensures forall p, q :: 0 <= p < q < |View(es, s)| ==> View(es, s)[p].0 < View(es, s)[q].0
    ensures forall k, v :: (k, v) in View(es, s) <==> Visible(Elements(es), k, s) == Some(v)
  {
    var rows, view := Rows(es, s, |es|), View(es, s);
    forall p, q | 0 <= p < q < |view| ensures view[p].0 < view[q].0 {
      assert rows[p] in rows && rows[q] in rows;
      assert Less(es[rows[p]].ikey, es[rows[q]].ikey);
    }
    forall k, v ensures (k, v) in view <==> Visible(Elements(es), k, s) == Some(v) {
      if (k, v) in view {
        var p :| 0 <= p < |view| && view[p] == (k, v);
        assert rows[p] in rows;
        ShownIsNewest(es, s, rows[p]);
      }
      if Visible(Elements(es), k, s) == Some(v) {
        var i := NewestIsShown(es, s, k);
        assert i in rows;
        var p :| 0 <= p < |rows| && rows[p] == i;
        assert view[p] == (k, v);
      }
    }
  }

  lemma ShownIsNewest(es: seq<Entry>, s: SeqNum, i: nat)
    requires Sorted(es) && Distinct(Elements(es)) && Shown(es, s, i)
    ensures Visible(Elements(es), es[i].ikey.user, s) == Some(es[i].value)
  {
    var e := es[i];
    forall d | d in Elements(es) && Matches(d, e.ikey.user, s) ensures d.ikey.sn <= e.ikey.sn {
      var j :| 0 <= j < |es| && es[j] == d;
      if i < j { assert Less(e.ikey, d.ikey); }
    }
    assert IsNewest(Elements(es), e.ikey.user, s, e);
    NewestUnique(Elements(es), e.ikey.user, s, e);
  }

  lemma NewestIsShown(es: seq<Entry>, s: SeqNum, k: UserKey) returns (i: nat)
    requires Sorted(es) && Distinct(Elements(es)) && Visible(Elements(es), k, s).Some?
    ensures Shown(es, s, i) && es[i].ikey.user == k && Visible(Elements(es), k, s) == Some(es[i].value)
  {
    var e := Newest(Elements(es), k, s).value;
    i :| 0 <= i < |es| && es[i] == e;
    forall j | 0 <= j < i && es[j].ikey.user == k ensures es[j].ikey.sn > s {
      assert Less(es[j].ikey, e.ikey);
      assert es[j] in Elements(es) && e in Elements(es);
    }
  }

  datatype Move = ToFirst | ToLast | To(key: UserKey) | Forward1 | Back1

  /** The first position whose key is at or after k. */
  ghost predicate IsFirstKey(view: seq<(UserKey, Value)>, k: UserKey, p: Option<nat>)
  {
    && (p.Some? ==> p.value < |view| && view[p.value].0 >= k)
    && forall q :: 0 <= q < (if p.Some? then p.value else |view|) ==> view[q].0 < k
  }

  /** One move of a plain cursor over view.  Next and Prev are only allowed on a
      valid iterator; on an invalid one the caller must not use them. */
  ghost predicate Moves(view: seq<(UserKey, Value)>, p: Option<nat>, move: Move, p': Option<nat>)
  {
    match move
    case ToFirst => p' == if view == [] then None else Some(0)
    case ToLast => p' == if view == [] then None else Some(|view| - 1)
    case To(k) => IsFirstKey(view, k, p')
    case Forward1 => p' == if p.Some? && p.value + 1 < |view| then Some(p.value + 1) else None
    case Back1 => p' == if p.Some? && p.value > 0 then Some(p.value - 1) else None
  }

  /** The iterator's entry as a position in the view. */
  ghost predicate IsPosition(es: seq<Entry>, s: SeqNum, at: Option<nat>, p: Option<nat>)
  {
    var rows := Rows(es, s, |es|);
    at.Some? == p.Some? && (p.Some? ==> p.value < |rows| && rows[p.value] == at.value)
  }

  lemma PositionExists(es: seq<Entry>, s: SeqNum, at: Option<nat>) returns (p: Option<nat>)
    requires at.Some? ==> Shown(es, s, at.value)
    ensures IsPosition(es, s, at, p)
  {
    p := None;
    if at.Some? {
      var rows := Rows(es, s, |es|);
      assert at.value in rows;
      var q :| 0 <= q < |rows| && rows[q] == at.value;
      p := Some(q);
    }
  }

  lemma NextPosition(es: seq<Entry>, s: SeqNum, at: nat, p: nat, at': Option<nat>, p': Option<nat>)
    requires IsPosition(es, s, Some(at), Some(p)) && IsPosition(es, s, at', p') && IsFirstShown(es, s, at + 1, at')
    ensures Moves(View(es, s), Some(p), Forward1, p')
  {
    var rows := Rows(es, s, |es|);
    if p + 1 < |rows| {
      assert rows[p + 1] in rows && rows[p] < rows[p + 1];
    }
  }

  lemma PrevPosition(es: seq<Entry>, s: SeqNum, at: nat, p: nat, at': Option<nat>, p': Option<nat>)
    requires IsPosition(es, s, Some(at), Some(p)) && IsPosition(es, s, at', p') && IsLastShown(es, s, at, at')
    ensures Moves(View(es, s), Some(p), Back1, p')
  {
    var rows := Rows(es, s, |es|);
    if p > 0 {
      assert rows[p - 1] in rows && rows[p - 1] < rows[p];
    }
  }

  lemma FirstPosition(es: seq<Entry>, s: SeqNum, at': Option<nat>, p': Option<nat>)
    requires IsPosition(es, s, at', p') && IsFirstShown(es, s, 0, at')
    ensures forall p :: Moves(View(es, s), p, ToFirst, p')
  {
    var rows := Rows(es, s, |es|);
    if rows != [] {
      assert rows[0] in rows;
    }
  }

  lemma LastPosition(es: seq<Entry>, s: SeqNum, at': Option<nat>, p': Option<nat>)
    requires IsPosition(es, s, at', p') && IsLastShown(es, s, |es|, at')
    ensures forall p :: Moves(View(es, s), p, ToLast, p')
  {
    var rows := Rows(es, s, |es|);
    if rows != [] {
      var n := |rows| - 1;
      assert rows[n] in rows;
    }
  }

  lemma SeekPosition(es: seq<Entry>, s: SeqNum, k: UserKey, at': Option<nat>, p': Option<nat>)
    requires IsPosition(es, s, at', p') && IsFirstFrom(es, s, k, at')
    ensures forall p :: Moves(View(es, s), p, To(k), p')
  {
    var rows, view := Rows(es, s, |es|), View(es, s);
    forall q | 0 <= q < (if p'.Some? then p'.value else |view|) ensures view[q].0 < k {
      assert rows[q] in rows;
      if p'.Some? { assert rows[q] < rows[p'.value]; }
    }
  }

  /** One move of the iterator is the same move of a cursor over the visible map. */
  method Step(it: DBIter, move: Move, ghost p: Option<nat>) returns (ghost p': Option<nat>)
    requires it.Valid() && IsPosition(it.iter.es, it.s, it.at, p)
    requires move.Forward1? || move.Back1? ==> it.valid
    modifies it
    ensures it.Valid() && it.iter.es == old(it.iter.es) && IsPosition(it.iter.es, it.s, it.at, p')
    ensures Moves(View(it.iter.es, it.s), p, move, p')
    ensures it.valid == p'.Some?
    ensures it.valid ==> p'.value < |View(it.iter.es, it.s)| &&
                         (it.Key(), it.GetValue()) == View(it.iter.es, it.s)[p'.value]
  {
    hide Shown, Sorted, DBIter.BeforeGroup, IsFirstShown, IsLastShown, IsFirstFrom, Rows, View, Moves;
    ghost var es, s, at := it.iter.es, it.s, it.at;
    match move {
      case ToFirst =>
        it.SeekToFirst();
        p' := PositionExists(es, s, it.at);
        FirstPosition(es, s, it.at, p');
      case ToLast =>
        it.SeekToLast();
        p' := PositionExists(es, s, it.at);
        LastPosition(es, s, it.at, p');
      case To(k) =>
        it.Seek(k);
        p' := PositionExists(es, s, it.at);
        SeekPosition(es, s, k, it.at, p');
      case Forward1 =>
        it.Next();
        p' := PositionExists(es, s, it.at);
        NextPosition(es, s, at.value, p.value, it.at, p');
      case Back1 =>
        it.Prev();
        p' := PositionExists(es, s, it.at);
        PrevPosition(es, s, at.value, p.value, it.at, p');
    }
    if it.valid { ShowsRow(es, s, it.at.value, p'.value); }
  }

  lemma ShowsRow(es: seq<Entry>, s: SeqNum, at: nat, p: nat)
    requires IsPosition(es, s, Some(at), Some(p)) && at < |es|
    ensures p < |View(es, s)| && View(es, s)[p] == (es[at].ikey.user, es[at].value)
  {
  }

  /** What a caller sees after a move. */
  ghost function Seen(view: seq<(UserKey, Value)>, p: Option<nat>): Option<(UserKey, Value)>
  {
    if p.Some? && p.value < |view| then Some(view[p.value]) else None
  }

  /** A legal use of a plain cursor over view: its positions and what is seen. */
  ghost predicate IsWalk(view: seq<(UserKey, Value)>, moves: seq<Move>, ps: seq<Option<nat>>,
                         seen: seq<Option<(UserKey, Value)>>)
  {
    && |ps| == |moves| + 1 == |seen| + 1 && ps[0].None?
    && forall i :: 0 <= i < |moves| ==> Moves(view, ps[i], moves[i], ps[i + 1]) && seen[i] == Seen(view, ps[i + 1])
  }

  /** Any interleaving of moves shows what a plain cursor over the visible map
      shows.  Next and Prev on an invalid iterator, which the source forbids, end
      the walk. */
  method Walk(es: seq<Entry>, s: SeqNum, moves: seq<Move>) returns (seen: seq<Option<(UserKey, Value)>>)
    requires Sorted(es)
    ensures |seen| <= |moves|
    ensures exists ps :: IsWalk(View(es, s), moves[..|seen|], ps, seen)
    ensures |seen| < |moves| ==> (moves[|seen|].Forward1? || moves[|seen|].Back1?) &&
                                 (seen == [] || seen[|seen| - 1].None?)
  {
    hide Moves, Shown, View, Sorted, IsPosition;
    var it := new DBIter(es, s);
    seen := [];
    ghost var ps: seq<Option<nat>> := [None];
    NoPosition(es, s);
    for n := 0 to |moves|
      invariant |seen| == n && it.Valid() && it.s == s && it.iter.es == es
      invariant |ps| == n + 1 && IsPosition(es, s, it.at, ps[n]) && it.valid == ps[n].Some?
      invariant IsWalk(View(es, s), moves[..n], ps, seen)
      invariant n > 0 ==> seen[n - 1].Some? == it.valid
      modifies it
    {
      if (moves[n].Forward1? || moves[n].Back1?) && !it.valid {
        return;
      }
      ghost var p' := Step(it, moves[n], ps[n]);
      seen := seen + [if it.valid then Some((it.Key(), it.GetValue())) else None];
      WalkExtends(View(es, s), moves[..n], ps, seen[..n], moves[n], p', seen[n]);
      ps := ps + [p'];
      assert moves[..n + 1] == moves[..n] + [moves[n]] && seen == seen[..n] + [seen[n]];
    }
    assert moves[..|moves|] == moves;
  }

  lemma NoPosition(es: seq<Entry>, s: SeqNum)
    ensures IsPosition(es, s, None, None)
  {
  }

  lemma WalkExtends(view: seq<(UserKey, Value)>, moves: seq<Move>, ps: seq<Option<nat>>,
                    seen: seq<Option<(UserKey, Value)>>,
                    move: Move, p': Option<nat>, out: Option<(UserKey, Value)>)
    requires IsWalk(view, moves, ps, seen) && Moves(view, ps[|moves|], move, p') && out == Seen(view, p')
    ensures IsWalk(view, moves + [move], ps + [p'], seen + [out])
  {
    hide Moves;
    var moves', ps', seen' := moves + [move], ps + [p'], seen + [out];
    forall i | 0 <= i < |moves'|
      ensures Moves(view, ps'[i], moves'[i], ps'[i + 1]) && seen'[i] == Seen(view, ps'[i + 1])
    {
      if i < |moves| {
        assert moves'[i] == moves[i] && ps'[i] == ps[i] && ps'[i + 1] == ps[i + 1] && seen'[i] == seen[i];
      }
    }
  }
}
