/**
 MergingIterator: several sorted iterators as one, in both directions
 (table/merger.cc).
 */
module Merger {
  import opened Keys
  import opened Cursors

  // ---- Positions as cuts of the key order ------------------------------------

  /** A place between entries: below everything, just before or just after a key,
      or above everything. */
  datatype Cut = Bottom | Before(key: IKey) | After(key: IKey) | Top

  predicate Under(e: Entry, cut: Cut)
  {
    match cut
    case Bottom => false
    case Before(k) => Less(e.ikey, k)
    case After(k) => AtMost(e.ikey, k)
    case Top => true
  }

  /** Where a forward-moving child stands: an invalid one is past its last entry. */
  function ForwardIndex(c: Cursor): (i: int)
  {
    if c.pos.Some? then c.pos.value else |c.es|
  }

  /** Where a backward-moving child stands: an invalid one is before its first entry. */
  function BackwardIndex(c: Cursor): (i: int)
  {
    if c.pos.Some? then c.pos.value else -1
  }

  /** The child is on its first entry above the cut. */
  ghost predicate AtFirstAbove(c: Cursor, cut: Cut)
  {
    forall j :: 0 <= j < |c.es| ==> (Under(c.es[j], cut) <==> j < ForwardIndex(c))
  }

  /** The child is on its last entry under the cut. */
  ghost predicate AtLastUnder(c: Cursor, cut: Cut)
  {
    forall j :: 0 <= j < |c.es| ==> (Under(c.es[j], cut) <==> j <= BackwardIndex(c))
  }

  ghost predicate ChildrenOk(cs: seq<Cursor>, data: seq<seq<Entry>>)
  {
    |cs| == |data| && forall i :: 0 <= i < |cs| ==> cs[i].WellFormed() && cs[i].es == data[i]
  }

  ghost predicate AllAtFirstAbove(cs: seq<Cursor>, cut: Cut)
  {
    forall i :: 0 <= i < |cs| ==> AtFirstAbove(cs[i], cut)
  }

  ghost predicate AllAtLastUnder(cs: seq<Cursor>, cut: Cut)
  {
    forall i :: 0 <= i < |cs| ==> AtLastUnder(cs[i], cut)
  }

  // ---- FindSmallest, FindLargest ----------------------------------------------

  method FindSmallest(cs: seq<Cursor>) returns (current: Option<nat>)
    requires forall i :: 0 <= i < |cs| ==> cs[i].WellFormed()
    ensures current.None? ==> forall i :: 0 <= i < |cs| ==> !cs[i].Valid()
    ensures current.Some? ==> current.value < |cs| && cs[current.value].Valid()
    ensures current.Some? ==> forall i :: 0 <= i < |cs| && cs[i].Valid() ==>
              AtMost(cs[current.value].Current().ikey, cs[i].Current().ikey)
  {
    current := None;
    for i := 0 to |cs|
      invariant current.None? ==> forall j :: 0 <= j < i ==> !cs[j].Valid()
      invariant current.Some? ==> current.value < i && cs[current.value].Valid()
      invariant current.Some? ==> forall j :: 0 <= j < i && cs[j].Valid() ==>
                  AtMost(cs[current.value].Current().ikey, cs[j].Current().ikey)
    {
      if cs[i].Valid() {
        if current.None? || Less(cs[i].Current().ikey, cs[current.value].Current().ikey) {
          current := Some(i);
        }
      }
    }
  }

  method FindLargest(cs: seq<Cursor>) returns (current: Option<nat>)
    requires forall i :: 0 <= i < |cs| ==> cs[i].WellFormed()
    ensures current.None? ==> forall i :: 0 <= i < |cs| ==> !cs[i].Valid()
    ensures current.Some? ==> current.value < |cs| && cs[current.value].Valid()
    ensures current.Some? ==> forall i :: 0 <= i < |cs| && cs[i].Valid() ==>
              AtMost(cs[i].Current().ikey, cs[current.value].Current().ikey)
  {
    current := None;
    var i := |cs|;
    while i > 0
      invariant 0 <= i <= |cs|
      invariant current.None? ==> forall j :: i <= j < |cs| ==> !cs[j].Valid()
      invariant current.Some? ==> i <= current.value < |cs| && cs[current.value].Valid()
      invariant current.Some? ==> forall j :: i <= j < |cs| && cs[j].Valid() ==>
                  AtMost(cs[j].Current().ikey, cs[current.value].Current().ikey)
    {
      i := i - 1;
      if cs[i].Valid() {
        if current.None? || Less(cs[current.value].Current().ikey, cs[i].Current().ikey) {
          current := Some(i);
        }
      }
    }
  }

  // ---- Repositioning the children ------------------------------------------------

  method SeekAllToFirst(cs: seq<Cursor>, ghost data: seq<seq<Entry>>) returns (r: seq<Cursor>)
    requires ChildrenOk(cs, data)
    ensures ChildrenOk(r, data) && AllAtFirstAbove(r, Bottom)
  {
    r := cs;
    for i := 0 to |cs|
      invariant ChildrenOk(r, data)
      invariant forall j :: 0 <= j < i ==> AtFirstAbove(r[j], Bottom)
    {
      r := r[i := r[i].SeekToFirst()];
    }
  }

  method SeekAllToLast(cs: seq<Cursor>, ghost data: seq<seq<Entry>>) returns (r: seq<Cursor>)
    requires ChildrenOk(cs, data)
    ensures ChildrenOk(r, data) && AllAtLastUnder(r, Top)
  {
    r := cs;
    for i := 0 to |cs|
      invariant ChildrenOk(r, data)
      invariant forall j :: 0 <= j < i ==> AtLastUnder(r[j], Top)
    {
      r := r[i := r[i].SeekToLast()];
    }
  }

  method SeekAll(cs: seq<Cursor>, ghost data: seq<seq<Entry>>, target: IKey) returns (r: seq<Cursor>)
    requires ChildrenOk(cs, data)
    ensures ChildrenOk(r, data) && AllAtFirstAbove(r, Before(target))
  {
    r := cs;
    for i := 0 to |cs|
      invariant ChildrenOk(r, data)
      invariant forall j :: 0 <= j < i ==> AtFirstAbove(r[j], Before(target))
    {
      r := r[i := r[i].Seek(target)];
    }
  }

  lemma NextLeavesKey(c: Cursor, key: IKey)
    requires c.WellFormed() && c.Valid() && AtFirstAbove(c, Before(key)) && c.Current().ikey == key
    ensures AtFirstAbove(c.Next(), After(key))
  {
  }

  lemma PrevLeavesKey(c: Cursor, key: IKey)
    requires c.WellFormed() && c.Valid() && AtLastUnder(c, After(key)) && c.Current().ikey == key
    ensures AtLastUnder(c.Prev(), Before(key))
  {
  }

  /** A child that does not hold the key stands the same before and after it. */
  lemma WithoutKey(c: Cursor, key: IKey)
    requires c.WellFormed() && AtFirstAbove(c, Before(key)) && !(c.Valid() && c.Current().ikey == key)
    ensures AtFirstAbove(c, After(key))
  {
  }

  /** Switching to forward: every child but the current one seeks to the key and
      steps over it if it holds it too. */
  method TurnForward(cs: seq<Cursor>, ghost data: seq<seq<Entry>>, current: nat, key: IKey) returns (r: seq<Cursor>)
    requires ChildrenOk(cs, data) && current < |cs|
    ensures ChildrenOk(r, data) && r[current] == cs[current]
    ensures forall i :: 0 <= i < |r| && i != current ==> AtFirstAbove(r[i], After(key))
  {
    r := cs;
    for i := 0 to |cs|
      invariant ChildrenOk(r, data) && r[current] == cs[current]
      invariant forall j :: 0 <= j < i && j != current ==> AtFirstAbove(r[j], After(key))
    {
      if i != current {
        var child := r[i].Seek(key);
        assert AtFirstAbove(child, Before(key));
        if child.Valid() && child.Current().ikey == key {
          NextLeavesKey(child, key);
          child := child.Next();
        } else {
          WithoutKey(child, key);
        }
        r := r[i := child];
      }
    }
  }

  /** A child just sought to the key, moved back to its last entry before it. */
  lemma StepBack(c: Cursor, key: IKey)
    requires c.WellFormed() && AtFirstAbove(c, Before(key))
    ensures AtLastUnder(if c.Valid() then c.Prev() else c.SeekToLast(), Before(key))
  {
  }

  /** Switching to reverse: every child but the current one goes to its last entry
      before the key. */
  method TurnBackward(cs: seq<Cursor>, ghost data: seq<seq<Entry>>, current: nat, key: IKey) returns (r: seq<Cursor>)
    requires ChildrenOk(cs, data) && current < |cs|
    ensures ChildrenOk(r, data) && r[current] == cs[current]
    ensures forall i :: 0 <= i < |r| && i != current ==> AtLastUnder(r[i], Before(key))
  {
    r := cs;
    for i := 0 to |cs|
      invariant ChildrenOk(r, data) && r[current] == cs[current]
      invariant forall j :: 0 <= j < i && j != current ==> AtLastUnder(r[j], Before(key))
    {
      if i != current {
        var child := r[i].Seek(key);
        StepBack(child, key);
        child := if child.Valid() then child.Prev() else child.SeekToLast();
        r := r[i := child];
      }
    }
  }

  // ---- The union -----------------------------------------------------------------

  ghost predicate InSome(data: seq<seq<Entry>>, e: Entry)
  {
    exists i :: 0 <= i < |data| && e in data[i]
  }

  /** all is the sorted union of the children's entries. */
  ghost predicate IsUnion(data: seq<seq<Entry>>, all: seq<Entry>)
  {
    Sorted(all) && forall e :: e in all <==> InSome(data, e)
  }

  /** No key occurs in two children. */
  ghost predicate KeysDistinct(data: seq<seq<Entry>>)
  {
    forall i, j, d, e :: 0 <= i < |data| && 0 <= j < |data| && i != j && d in data[i] && e in data[j] ==>
        d.ikey != e.ikey
  }

  function InsertSorted(es: seq<Entry>, e: Entry): (r: seq<Entry>)
    requires Sorted(es) && forall d :: d in es ==> d.ikey != e.ikey || d == e
    ensures Sorted(r) && forall d :: d in r <==> d in es || d == e
  {
    if es == [] then [e]
    else if es[0] == e then es
    else if Less(e.ikey, es[0].ikey) then
      assert forall d :: d in es ==> Less(e.ikey, d.ikey) by {
        forall d | d in es ensures Less(e.ikey, d.ikey) {
          var i :| 0 <= i < |es| && es[i] == d;
          assert i > 0 ==> Less(es[0].ikey, d.ikey);
        }
      }
      SortedCons(e, es);
      [e] + es
    else
      assert es == [es[0]] + es[1..];
      assert forall d :: d in es[1..] ==> Less(es[0].ikey, d.ikey);
      assert es[0] in es;
      var rest := InsertSorted(es[1..], e);
      SortedCons(es[0], rest);
      [es[0]] + rest
  }

  lemma SortedCons(e: Entry, es: seq<Entry>)
    requires Sorted(es) && forall d :: d in es ==> Less(e.ikey, d.ikey)
    ensures Sorted([e] + es)
  {
    var r := [e] + es;
    forall i, j | 0 <= i < j < |r| ensures Less(r[i].ikey, r[j].ikey) {
      assert r[j] == es[j - 1] && r[j] in es;
      if i > 0 { assert r[i] == es[i - 1]; }
    }
  }

  /** Children with distinct keys have a sorted union. */
  lemma {:induction false} UnionExists(data: seq<seq<Entry>>) returns (all: seq<Entry>)
    requires KeysDistinct(data) && forall i :: 0 <= i < |data| ==> Sorted(data[i])
    ensures IsUnion(data, all)
  {
    if data == [] {
      all := [];
    } else {
      var n := |data| - 1;
      var init := data[..n];
      assert forall i :: 0 <= i < n ==> init[i] == data[i];
      var rest := UnionExists(init);
      forall d, e | d in rest && e in data[n] ensures d.ikey != e.ikey {
        var i :| 0 <= i < |init| && d in init[i];
        assert d in data[i];
      }
      all := InsertRun(rest, data[n], |data[n]|);
      forall e ensures e in all <==> InSome(data, e) {
        assert data[n][..|data[n]|] == data[n];
        if InSome(init, e) { var i :| 0 <= i < n && e in init[i]; assert e in data[i]; }
        if InSome(data, e) {
          var i :| 0 <= i < |data| && e in data[i];
          if i < n { assert e in init[i]; }
        }
        if e in data[n] { assert InSome(data, e); }
      }
    }
  }

  lemma {:induction false} InsertRun(es: seq<Entry>, run: seq<Entry>, n: nat) returns (r: seq<Entry>)
    requires Sorted(es) && Sorted(run) && n <= |run| && forall d, e :: d in es && e in run ==> d.ikey != e.ikey
    ensures Sorted(r) && forall d :: d in r <==> d in es || d in run[..n]
  {
    if n == 0 {
      r := es;
    } else {
      var r0 := InsertRun(es, run, n - 1);
      var e := run[n - 1];
      forall d | d in r0 && d !in es ensures Less(d.ikey, e.ikey) {
        var i :| 0 <= i < n - 1 && run[i] == d;
      }
      r := InsertSorted(r0, e);
      assert run[..n] == run[..n - 1] + [e];
    }
  }

  /** at is the first entry of all above the cut. */
  ghost predicate IsFirstAbove(all: seq<Entry>, cut: Cut, at: Option<nat>)
  {
    AtFirstAbove(Cursor(all, at), cut) && (at.Some? ==> at.value < |all|)
  }

  ghost predicate IsLastUnder(all: seq<Entry>, cut: Cut, at: Option<nat>)
  {
    AtLastUnder(Cursor(all, at), cut) && (at.Some? ==> at.value < |all|)
  }

  /** The smallest child entry is the first entry of the union above the cut, and
      all children stand just before it. */
  lemma SmallestIsFirstAbove(cs: seq<Cursor>, data: seq<seq<Entry>>, all: seq<Entry>, cut: Cut,
                             c: nat)
    returns (at: nat)
    requires ChildrenOk(cs, data) && IsUnion(data, all) && AllAtFirstAbove(cs, cut)
    requires c < |cs| && cs[c].Valid()
    requires forall i :: 0 <= i < |cs| && cs[i].Valid() ==> AtMost(cs[c].Current().ikey, cs[i].Current().ikey)
    ensures at < |all| && all[at] == cs[c].Current() && IsFirstAbove(all, cut, Some(at))
    ensures AllAtFirstAbove(cs, Before(cs[c].Current().ikey))
  {
    var e := cs[c].Current();
    assert AtFirstAbove(cs[c], cut) && !Under(e, cut);
    assert e in data[c] && InSome(data, e);
    at :| 0 <= at < |all| && all[at] == e;
    forall i | 0 <= i < |cs| ensures AtFirstAbove(cs[i], Before(e.ikey)) { AboveAtLeast(cs[i], cut, e); }
    forall m | 0 <= m < |all| ensures Under(all[m], cut) <==> m < at {
      if m < at {
        assert Less(all[m].ikey, e.ikey);
        assert InSome(data, all[m]);
        var i :| 0 <= i < |data| && all[m] in data[i];
        var j :| 0 <= j < |data[i]| && data[i][j] == all[m];
        assert AtFirstAbove(cs[i], Before(e.ikey)) && AtFirstAbove(cs[i], cut);
        assert Under(cs[i].es[j], Before(e.ikey));
      } else if m > at {
        assert Less(e.ikey, all[m].ikey);
        UnderIsDownward(e, all[m], cut);
      }
    }
  }

  lemma UnderIsDownward(d: Entry, e: Entry, cut: Cut)
    requires Less(d.ikey, e.ikey) && !Under(d, cut)
    ensures !Under(e, cut)
  {
  }

  lemma AboveAtLeast(c: Cursor, cut: Cut, e: Entry)
    requires c.WellFormed() && AtFirstAbove(c, cut) && !Under(e, cut)
    requires c.Valid() ==> AtMost(e.ikey, c.Current().ikey)
    ensures AtFirstAbove(c, Before(e.ikey))
  {
    forall j | 0 <= j < |c.es| ensures Under(c.es[j], Before(e.ikey)) <==> j < ForwardIndex(c) {
      if c.Valid() && j > c.pos.value { assert Less(c.Current().ikey, c.es[j].ikey); }
    }
  }

  lemma NoneAbove(cs: seq<Cursor>, data: seq<seq<Entry>>, all: seq<Entry>, cut: Cut)
    requires ChildrenOk(cs, data) && IsUnion(data, all) && AllAtFirstAbove(cs, cut)
    requires forall i :: 0 <= i < |cs| ==> !cs[i].Valid()
    ensures IsFirstAbove(all, cut, None)
  {
    forall m | 0 <= m < |all| ensures Under(all[m], cut) {
      assert InSome(data, all[m]);
      var i :| 0 <= i < |data| && all[m] in data[i];
      var j :| 0 <= j < |data[i]| && data[i][j] == all[m];
      assert AtFirstAbove(cs[i], cut);
    }
  }

  lemma UnderAtMost(c: Cursor, cut: Cut, e: Entry)
    requires c.WellFormed() && AtLastUnder(c, cut) && Under(e, cut)
    requires c.Valid() ==> AtMost(c.Current().ikey, e.ikey)
    ensures AtLastUnder(c, After(e.ikey))
  {
    forall j | 0 <= j < |c.es| ensures Under(c.es[j], After(e.ikey)) <==> j <= BackwardIndex(c) {
      if c.Valid() && j < c.pos.value { assert Less(c.es[j].ikey, c.Current().ikey); }
    }
  }

  /** The largest child entry is the last entry of the union under the cut. */
  lemma LargestIsLastUnder(cs: seq<Cursor>, data: seq<seq<Entry>>, all: seq<Entry>, cut: Cut, c: nat) returns (at: nat)
    requires ChildrenOk(cs, data) && IsUnion(data, all) && AllAtLastUnder(cs, cut)
    requires c < |cs| && cs[c].Valid()
    requires forall i :: 0 <= i < |cs| && cs[i].Valid() ==> AtMost(cs[i].Current().ikey, cs[c].Current().ikey)
    ensures at < |all| && all[at] == cs[c].Current() && IsLastUnder(all, cut, Some(at))
    ensures AllAtLastUnder(cs, After(cs[c].Current().ikey))
  {
    var e := cs[c].Current();
    assert AtLastUnder(cs[c], cut) && Under(e, cut);
    assert e in data[c] && InSome(data, e);
    at :| 0 <= at < |all| && all[at] == e;
    forall i | 0 <= i < |cs| ensures AtLastUnder(cs[i], After(e.ikey)) { UnderAtMost(cs[i], cut, e); }
    forall m | 0 <= m < |all| ensures Under(all[m], cut) <==> m <= at {
      if m > at {
        assert Less(e.ikey, all[m].ikey);
        assert InSome(data, all[m]);
        var i :| 0 <= i < |data| && all[m] in data[i];
        var j :| 0 <= j < |data[i]| && data[i][j] == all[m];
        assert AtLastUnder(cs[i], After(e.ikey)) && AtLastUnder(cs[i], cut);
        assert !Under(cs[i].es[j], After(e.ikey));
      } else if m < at {
        assert Less(all[m].ikey, e.ikey);
      }
    }
  }

  lemma NoneUnder(cs: seq<Cursor>, data: seq<seq<Entry>>, all: seq<Entry>, cut: Cut)
    requires ChildrenOk(cs, data) && IsUnion(data, all) && AllAtLastUnder(cs, cut)
    requires forall i :: 0 <= i < |cs| ==> !cs[i].Valid()
    ensures IsLastUnder(all, cut, None)
  {
    forall m | 0 <= m < |all| ensures !Under(all[m], cut) {
      assert InSome(data, all[m]);
      var i :| 0 <= i < |data| && all[m] in data[i];
      var j :| 0 <= j < |data[i]| && data[i][j] == all[m];
      assert AtLastUnder(cs[i], cut);
    }
  }

  // ---- The merging iterator ----------------------------------------------------------

  datatype Direction = Forward | Reverse

  /** What holds between moves; at is the position in the union. */
  ghost predicate Standing(cs: seq<Cursor>, data: seq<seq<Entry>>, all: seq<Entry>, current: Option<nat>,
                           direction: Direction, at: Option<nat>)
  {
    && ChildrenOk(cs, data) && IsUnion(data, all) && KeysDistinct(data)
    && current.Some? == at.Some?
    && (current.Some? ==>
          && current.value < |cs| && cs[current.value].Valid()
          && at.value < |all| && cs[current.value].Current() == all[at.value]
          && (direction.Forward? ==> AllAtFirstAbove(cs, Before(all[at.value].ikey)))
          && (direction.Reverse? ==> AllAtLastUnder(cs, After(all[at.value].ikey))))
  }

  class MergingIterator {
    ghost const data: seq<seq<Entry>>
    ghost const all: seq<Entry>
    var children: seq<Cursor>
    var current: Option<nat>
    var direction: Direction
    ghost var at: Option<nat>

    ghost predicate Valid()
      reads this
    {
      Standing(children, data, all, current, direction, at)
    }

    /** The iterator as a cursor over the sorted union of its children. */
    ghost function Abs(): (c: Cursor)
      reads this
      requires Valid()
      ensures c.WellFormed() && c.Valid() == current.Some?
      ensures c.Valid() ==> c.Current() == children[current.value].Current()
    {
      Cursor(all, at)
    }

    constructor (children: seq<Cursor>, ghost all: seq<Entry>)
      requires forall i :: 0 <= i < |children| ==> children[i].WellFormed()
      requires var data := seq(|children|, i requires 0 <= i < |children| => children[i].es);
               IsUnion(data, all) && KeysDistinct(data)
      ensures Valid() && Abs() == Cursor(all, None)
    {
      this.data := seq(|children|, i requires 0 <= i < |children| => children[i].es);
      this.all := all;
      this.children := children;
      current, direction, at := None, Forward, None;
    }

    /** FindSmallest, once all children stand on their first entry above the cut. */
    method Rise(ghost cut: Cut)
      requires ChildrenOk(children, data) && IsUnion(data, all) && KeysDistinct(data) && AllAtFirstAbove(children, cut)
      requires direction.Forward?
      modifies this`current, this`at
      ensures Valid() && IsFirstAbove(all, cut, at)
    {
      hide AllAtFirstAbove, IsUnion, KeysDistinct, IsFirstAbove;
      current := FindSmallest(children);
      if current.Some? {
        ghost var a := SmallestIsFirstAbove(children, data, all, cut, current.value);
        at := Some(a);
      } else {
        NoneAbove(children, data, all, cut);
        at := None;
      }
    }

    /** FindLargest, once all children stand on their last entry under the cut. */
    method Sink(ghost cut: Cut)
      requires ChildrenOk(children, data) && IsUnion(data, all) && KeysDistinct(data) && AllAtLastUnder(children, cut)
      requires direction.Reverse?
      modifies this`current, this`at
      ensures Valid() && IsLastUnder(all, cut, at)
    {
      hide AllAtLastUnder, IsUnion, KeysDistinct, IsLastUnder;
      current := FindLargest(children);
      if current.Some? {
        ghost var a := LargestIsLastUnder(children, data, all, cut, current.value);
        at := Some(a);
      } else {
        NoneUnder(children, data, all, cut);
        at := None;
      }
    }

    method SeekToFirst()
      requires Valid()
      modifies this
      ensures Valid() && Abs() == old(Abs()).SeekToFirst()
    {
      children := SeekAllToFirst(children, data);
      direction := Forward;
      Rise(Bottom);
      FirstIsFirst(all, at);
    }

    method SeekToLast()
      requires Valid()
      modifies this
      ensures Valid() && Abs() == old(Abs()).SeekToLast()
    {
      children := SeekAllToLast(children, data);
      direction := Reverse;
      Sink(Top);
      LastIsLast(all, at);
    }

    method Seek(target: IKey)
      requires Valid()
      modifies this
      ensures Valid() && Abs() == old(Abs()).Seek(target)
    {
      children := SeekAll(children, data, target);
      direction := Forward;
      Rise(Before(target));
      SeekIsFirst(all, target, at);
    }

    method Next()
      requires Valid() && current.Some?
      modifies this
      ensures Valid() && Abs() == old(Abs()).Next()
    {
      assert Sorted(all);
      hide IsUnion, KeysDistinct, IsFirstAbove, AllAtFirstAbove, AllAtLastUnder, AtFirstAbove;
      var c := current.value;
      var key := children[c].Current().ikey;
      ghost var here := at.value;
      if direction.Reverse? {
        ReverseCurrent(children, data, c, key);
        children := TurnForward(children, data, c, key);
        direction := Forward;
      } else {
        OthersPastKey(children, data, all, c, at.value);
      }
      NextLeavesKey(children[c], key);
      children := children[c := children[c].Next()];
      AllPastKey(children, c, key);
      Rise(After(key));
      NextIsFirst(all, here, at);
    }

    method Prev()
      requires Valid() && current.Some?
      modifies this
      ensures Valid() && Abs() == old(Abs()).Prev()
    {
      assert Sorted(all);
      hide IsUnion, KeysDistinct, IsLastUnder, AllAtFirstAbove, AllAtLastUnder, AtLastUnder;
      var c := current.value;
      var key := children[c].Current().ikey;
      ghost var here := at.value;
      if direction.Forward? {
        ForwardCurrent(children, c, key);
        children := TurnBackward(children, data, c, key);
        direction := Reverse;
      } else {
        OthersBelowKey(children, data, all, c, at.value);
      }
      PrevLeavesKey(children[c], key);
      children := children[c := children[c].Prev()];
      AllBelowKey(children, c, key);
      Sink(Before(key));
      PrevIsLast(all, here, at);
    }
  }

  // ---- Steps of the moves ------------------------------------------------------------------

  lemma FirstIsFirst(all: seq<Entry>, at: Option<nat>)
    requires Sorted(all) && IsFirstAbove(all, Bottom, at)
    ensures Cursor(all, at) == Cursor(all, None).SeekToFirst()
  {
    if all != [] { assert !Under(all[0], Bottom); }
  }

  lemma LastIsLast(all: seq<Entry>, at: Option<nat>)
    requires Sorted(all) && IsLastUnder(all, Top, at)
    ensures Cursor(all, at) == Cursor(all, None).SeekToLast()
  {
    if all != [] { assert Under(all[|all| - 1], Top); }
  }

  lemma SeekIsFirst(all: seq<Entry>, target: IKey, at: Option<nat>)
    requires Sorted(all) && IsFirstAbove(all, Before(target), at)
    ensures Cursor(all, at) == Cursor(all, None).Seek(target)
  {
    var c := Cursor(all, None).Seek(target);
    if at.Some? { assert !Under(all[at.value], Before(target)); }
    if c.pos.Some? { assert !Under(all[c.pos.value], Before(target)); }
  }

  lemma NextIsFirst(all: seq<Entry>, here: nat, at: Option<nat>)
    requires Sorted(all) && here < |all| && IsFirstAbove(all, After(all[here].ikey), at)
    ensures Cursor(all, at) == Cursor(all, Some(here)).Next()
  {
    assert Under(all[here], After(all[here].ikey));
    if here + 1 < |all| {
      assert Less(all[here].ikey, all[here + 1].ikey);
      assert !Under(all[here + 1], After(all[here].ikey));
    }
  }

  lemma PrevIsLast(all: seq<Entry>, here: nat, at: Option<nat>)
    requires Sorted(all) && here < |all| && IsLastUnder(all, Before(all[here].ikey), at)
    ensures Cursor(all, at) == Cursor(all, Some(here)).Prev()
  {
    assert !Under(all[here], Before(all[here].ikey));
    if here > 0 {
      assert Less(all[here - 1].ikey, all[here].ikey);
      assert Under(all[here - 1], Before(all[here].ikey));
    }
  }

  lemma OthersPastKey(cs: seq<Cursor>, data: seq<seq<Entry>>, all: seq<Entry>, c: nat, at: nat)
    requires Standing(cs, data, all, Some(c), Forward, Some(at))
    ensures AtFirstAbove(cs[c], Before(all[at].ikey))
    ensures forall i :: 0 <= i < |cs| && i != c ==> AtFirstAbove(cs[i], After(all[at].ikey))
  {
    forall i | 0 <= i < |cs| && i != c ensures AtFirstAbove(cs[i], After(all[at].ikey)) {
      if cs[i].Valid() { assert cs[i].Current() in data[i] && cs[c].Current() in data[c]; }
      WithoutKey(cs[i], all[at].ikey);
    }
  }

  lemma OthersBelowKey(cs: seq<Cursor>, data: seq<seq<Entry>>, all: seq<Entry>, c: nat, at: nat)
    requires Standing(cs, data, all, Some(c), Reverse, Some(at))
    ensures AtLastUnder(cs[c], After(all[at].ikey))
    ensures forall i :: 0 <= i < |cs| && i != c ==> AtLastUnder(cs[i], Before(all[at].ikey))
  {
    forall i | 0 <= i < |cs| && i != c ensures AtLastUnder(cs[i], Before(all[at].ikey)) {
      if cs[i].Valid() { assert cs[i].Current() in data[i] && cs[c].Current() in data[c]; }
      WithoutKeyBelow(cs[i], all[at].ikey);
    }
  }

  lemma WithoutKeyBelow(c: Cursor, key: IKey)
    requires c.WellFormed() && AtLastUnder(c, After(key)) && !(c.Valid() && c.Current().ikey == key)
    ensures AtLastUnder(c, Before(key))
  {
    forall j | 0 <= j < |c.es| ensures Under(c.es[j], Before(key)) <==> j <= BackwardIndex(c) {
      if c.Valid() && j < c.pos.value { assert Less(c.es[j].ikey, c.Current().ikey); }
    }
  }

  /** The current child stands on the key, whatever the direction. */
  lemma ReverseCurrent(cs: seq<Cursor>, data: seq<seq<Entry>>, c: nat, key: IKey)
    requires ChildrenOk(cs, data) && c < |cs| && cs[c].Valid() && cs[c].Current().ikey == key
    ensures AtFirstAbove(cs[c], Before(key))
  {
    forall j | 0 <= j < |cs[c].es| ensures Under(cs[c].es[j], Before(key)) <==> j < ForwardIndex(cs[c]) {
      if j < cs[c].pos.value { assert Less(cs[c].es[j].ikey, key); }
      if j > cs[c].pos.value { assert Less(key, cs[c].es[j].ikey); }
    }
  }

  lemma ForwardCurrent(cs: seq<Cursor>, c: nat, key: IKey)
    requires c < |cs| && cs[c].WellFormed() && cs[c].Valid() && cs[c].Current().ikey == key
    ensures AtLastUnder(cs[c], After(key))
  {
    forall j | 0 <= j < |cs[c].es| ensures Under(cs[c].es[j], After(key)) <==> j <= BackwardIndex(cs[c]) {
      if j < cs[c].pos.value { assert Less(cs[c].es[j].ikey, key); }
      if j > cs[c].pos.value { assert Less(key, cs[c].es[j].ikey); }
    }
  }

  lemma AllPastKey(cs: seq<Cursor>, c: nat, key: IKey)
    requires c < |cs| && AtFirstAbove(cs[c], After(key))
    requires forall i :: 0 <= i < |cs| && i != c ==> AtFirstAbove(cs[i], After(key))
    ensures AllAtFirstAbove(cs, After(key))
  {
  }

  lemma AllBelowKey(cs: seq<Cursor>, c: nat, key: IKey)
    requires c < |cs| && AtLastUnder(cs[c], Before(key))
    requires forall i :: 0 <= i < |cs| && i != c ==> AtLastUnder(cs[i], Before(key))
    ensures AllAtLastUnder(cs, Before(key))
  {
  }
}
