/**
 The skip list: a single writer that links a node level by level while readers search
 without a lock (db/skiplist.h).

 Nodes live in an arena and are named by their index; node 0 is the head. A key is
 its position in the comparator's order.
 */
module SkipList {
  import opened Keys

  const MAX_HEIGHT: nat := 12

  datatype Node = Node(key: UserKey, next: seq<Option<nat>>)

  /** linked[x] is the number of levels at which x has been published. It is not in the
      code: it says which stores of Insert have happened. */
  datatype List = List(nodes: seq<Node>, maxHeight: nat, linked: seq<nat>)

  /** x is in the list of level l. */
  predicate In(s: List, x: nat, l: nat)
  {
    x < |s.nodes| && x < |s.linked| && l < s.linked[x]
  }

  /** x comes before y; the head comes first. */
  predicate Before(s: List, x: nat, y: nat)
    requires x < |s.nodes| && y < |s.nodes|
  {
    y != 0 && (x == 0 || s.nodes[x].key < s.nodes[y].key)
  }

  /** x comes before a bound; no bound is infinity. */
  predicate Below(s: List, x: nat, bound: Option<UserKey>)
    requires x < |s.nodes|
  {
    x == 0 || bound.None? || s.nodes[x].key < bound.value
  }

  /** m is the node of level l right after x. */
  ghost predicate Successor(s: List, x: nat, l: nat, m: Option<nat>)
    requires x < |s.nodes|
  {
    match m
    case None => forall y :: In(s, y, l) ==> !Before(s, x, y)
    case Some(n) => In(s, n, l) && Before(s, x, n) && forall y :: In(s, y, l) && Before(s, x, y) ==> !Before(s, y, n)
  }

  ghost predicate Sized(s: List)
  {
    && 0 < |s.nodes| == |s.linked| && 0 < s.maxHeight <= MAX_HEIGHT
    && s.linked[0] == MAX_HEIGHT == |s.nodes[0].next|
    && (forall x :: 0 <= x < |s.nodes| ==> s.linked[x] <= |s.nodes[x].next|)
    && (forall x :: 0 < x < |s.nodes| ==> s.linked[x] <= s.maxHeight)
  }

  ghost predicate Ordered(s: List)
  {
    forall x, y :: 0 < x < y < |s.nodes| ==> s.nodes[x].key != s.nodes[y].key
  }

  /** Every level is a sorted list, and the list of a level is a sublist of the one
      below, since a node linked at a level is linked at all lower ones. */
  ghost predicate Inv(s: List)
  {
    && Sized(s) && Ordered(s)
    && forall x: nat, l: nat :: In(s, x, l) ==> Successor(s, x, l, s.nodes[x].next[l])
  }

  ghost function Present(s: List): set<UserKey>
  {
    set x | 0 < x < |s.nodes| && In(s, x, 0) :: s.nodes[x].key
  }

  // ---- Searching ------------------------------------------------------------------------

  /** x is the last node of level l before the bound, and m the first at or after it. */
  ghost predicate Neighbours(s: List, bound: Option<UserKey>, l: nat, x: nat, m: Option<nat>)
  {
    && In(s, x, l) && Below(s, x, bound)
    && (forall y :: In(s, y, l) && Below(s, y, bound) ==> !Before(s, x, y))
    && (m.Some? ==> In(s, m.value, l) && !Below(s, m.value, bound))
    && (forall y :: In(s, y, l) && !Below(s, y, bound) ==> m.Some? && !Before(s, y, m.value))
  }

  /** A search that stands on a node before the bound and sees that the next one is not,
      is between the true neighbours. */
  lemma StopsBetween(s: List, bound: Option<UserKey>, l: nat, x: nat)
    requires Inv(s) && In(s, x, l) && Below(s, x, bound)
    requires var m := s.nodes[x].next[l]; m.None? || (m.value < |s.nodes| && !Below(s, m.value, bound))
    ensures Neighbours(s, bound, l, x, s.nodes[x].next[l])
  {
    assert Successor(s, x, l, s.nodes[x].next[l]);
  }

  /** What is left to the right of x shrinks with every step. */
  ghost function After(s: List, x: nat): set<nat>
    requires x < |s.nodes|
  {
    set y | 0 <= y < |s.nodes| && Before(s, x, y)
  }

  lemma MovesOn(s: List, x: nat, n: nat)
    requires x < |s.nodes| && n < |s.nodes| && Before(s, x, n)
    ensures After(s, n) < After(s, x)
  {
    assert n in After(s, x) && n !in After(s, n);
  }

  predicate KeyIsAfterNode(s: List, key: UserKey, n: Option<nat>)
    requires n.Some? ==> n.value < |s.nodes|
  {
    n.Some? && s.nodes[n.value].key < key
  }

  /** FindGreaterOrEqual; prev[l] is the node before the key at each level searched. */
  method FindGreaterOrEqual(s: List, key: UserKey) returns (r: Option<nat>, prev: seq<nat>)
    requires Inv(s)
    ensures |prev| == s.maxHeight
    ensures forall l :: 0 <= l < |prev| ==>
            In(s, prev[l], l) && Neighbours(s, Some(key), l, prev[l], s.nodes[prev[l]].next[l])
    ensures r == s.nodes[prev[0]].next[0]
  {
    hide Ordered;
    var x: nat, level: nat := 0, s.maxHeight - 1;
    prev := seq(s.maxHeight, i => 0);
    while true
      invariant 0 <= level < s.maxHeight == |prev| && In(s, x, level) && Below(s, x, Some(key))
      invariant forall l :: level < l < |prev| ==>
                In(s, prev[l], l) && Neighbours(s, Some(key), l, prev[l], s.nodes[prev[l]].next[l])
      decreases level, After(s, x)
    {
      var next := s.nodes[x].next[level];
      assert Successor(s, x, level, next);
      if KeyIsAfterNode(s, key, next) {
        MovesOn(s, x, next.value);
        x := next.value;
      } else {
        StopsBetween(s, Some(key), level, x);
        prev := prev[level := x];
        if level == 0 { return next, prev; }
        level := level - 1;
      }
    }
  }

  method FindLessThan(s: List, key: UserKey) returns (r: nat)
    requires Inv(s)
    ensures In(s, r, 0) && Neighbours(s, Some(key), 0, r, s.nodes[r].next[0])
  {
    hide Ordered;
    var x: nat, level: nat := 0, s.maxHeight - 1;
    while true
      invariant 0 <= level < s.maxHeight && In(s, x, level) && Below(s, x, Some(key))
      decreases level, After(s, x)
    {
      var next := s.nodes[x].next[level];
      assert Successor(s, x, level, next);
      if next.None? || s.nodes[next.value].key >= key {
        StopsBetween(s, Some(key), level, x);
        if level == 0 { return x; }
        level := level - 1;
      } else {
        MovesOn(s, x, next.value);
        x := next.value;
      }
    }
  }

  method FindLast(s: List) returns (r: nat)
    requires Inv(s)
    ensures In(s, r, 0) && Neighbours(s, None, 0, r, None)
  {
    hide Ordered;
    var x: nat, level: nat := 0, s.maxHeight - 1;
    while true
      invariant 0 <= level < s.maxHeight && In(s, x, level)
      decreases level, After(s, x)
    {
      var next := s.nodes[x].next[level];
      assert Successor(s, x, level, next);
      if next.None? {
        StopsBetween(s, None, level, x);
        if level == 0 { return x; }
        level := level - 1;
      } else {
        MovesOn(s, x, next.value);
        x := next.value;
      }
    }
  }

  // ---- The stores of Insert --------------------------------------------------------------

  /** max_height_.store. */
  function Raise(s: List, height: nat): List
  {
    s.(maxHeight := height)
  }

  /** NewNode: the links are not initialised. */
  function Allocate(s: List, key: UserKey, garbage: seq<Option<nat>>): List
  {
    s.(nodes := s.nodes + [Node(key, garbage)], linked := s.linked + [0])
  }

  function SetNext(s: List, x: nat, l: nat, m: Option<nat>): List
    requires x < |s.nodes| && l < |s.nodes[x].next|
  {
    s.(nodes := s.nodes[x := s.nodes[x].(next := s.nodes[x].next[l := m])])
  }

  /** The store that makes x part of level l. */
  function Publish(s: List, p: nat, l: nat, x: nat): List
    requires p < |s.nodes| && l < |s.nodes[p].next| && x < |s.linked|
  {
    SetNext(s, p, l, Some(x)).(linked := s.linked[x := l + 1])
  }

  lemma RaiseKeeps(s: List, height: nat)
    requires Inv(s) && s.maxHeight < height <= MAX_HEIGHT
    ensures Inv(Raise(s, height))
  {
    SameLevels(s, Raise(s, height));
  }

  /** Lists that agree on keys, links and published levels have the same levels. */
  lemma SameLevels(s: List, t: List)
    requires Inv(s) && |t.nodes| >= |s.nodes| && Sized(t) && Ordered(t)
    requires forall x :: 0 <= x < |s.nodes| ==> t.nodes[x].key == s.nodes[x].key && t.linked[x] == s.linked[x]
    requires forall x, l :: 0 <= x < |s.nodes| && 0 <= l < s.linked[x] ==>
             l < |t.nodes[x].next| && t.nodes[x].next[l] == s.nodes[x].next[l]
    requires forall x :: |s.nodes| <= x < |t.nodes| ==> t.linked[x] == 0
    ensures Inv(t)
  {
    forall x: nat, l: nat | In(t, x, l) ensures Successor(t, x, l, t.nodes[x].next[l]) {
      assert In(s, x, l);
      assert Successor(s, x, l, s.nodes[x].next[l]);
      assert forall y :: In(t, y, l) ==> In(s, y, l);
    }
  }

  lemma AllocateKeeps(s: List, key: UserKey, garbage: seq<Option<nat>>)
    requires Inv(s) && forall x :: 0 < x < |s.nodes| ==> s.nodes[x].key != key
    ensures Inv(Allocate(s, key, garbage))
  {
    SameLevels(s, Allocate(s, key, garbage));
  }

  lemma OwnKeeps(s: List, x: nat, l: nat, m: Option<nat>)
    requires Inv(s) && x < |s.nodes| && s.linked[x] <= l < |s.nodes[x].next|
    ensures Inv(SetNext(s, x, l, m))
  {
    SameLevels(s, SetNext(s, x, l, m));
  }

  /** Linking a node between its neighbours of one level keeps every level sorted. */
  lemma PublishKeeps(s: List, p: nat, l: nat, x: nat)
    requires Inv(s) && 0 < x < |s.nodes| && s.linked[x] == l < |s.nodes[x].next| && l < s.maxHeight
    requires In(s, p, l) && Neighbours(s, Some(s.nodes[x].key), l, p, s.nodes[p].next[l])
    requires s.nodes[x].next[l] == s.nodes[p].next[l]
    ensures Inv(Publish(s, p, l, x))
  {
    var t := Publish(s, p, l, x);
    assert p != x;
    assert Sized(t) && Ordered(t);
    hide Ordered, Sized;
    forall y: nat, k: nat | In(t, y, k) ensures Successor(t, y, k, t.nodes[y].next[k]) {
      if k != l {
        OtherLevel(s, p, l, x, y, k);
      } else {
        ThisLevel(s, p, l, x, y);
      }
    }
  }

  lemma OtherLevel(s: List, p: nat, l: nat, x: nat, y: nat, k: nat)
    requires Inv(s) && x < |s.nodes| && s.linked[x] == l && In(s, p, l) && k != l && In(Publish(s, p, l, x), y, k)
    ensures In(s, y, k) && Successor(Publish(s, p, l, x), y, k, Publish(s, p, l, x).nodes[y].next[k])
  {
    var t := Publish(s, p, l, x);
    assert forall z: nat :: In(t, z, k) <==> In(s, z, k);
    assert Successor(s, y, k, s.nodes[y].next[k]);
  }

  lemma ThisLevel(s: List, p: nat, l: nat, x: nat, y: nat)
    requires Inv(s) && 0 < x < |s.nodes| && s.linked[x] == l < |s.nodes[x].next|
    requires In(s, p, l) && p != x && Neighbours(s, Some(s.nodes[x].key), l, p, s.nodes[p].next[l])
    requires s.nodes[x].next[l] == s.nodes[p].next[l] && In(Publish(s, p, l, x), y, l)
    ensures Successor(Publish(s, p, l, x), y, l, Publish(s, p, l, x).nodes[y].next[l])
  {
    var t, m := Publish(s, p, l, x), s.nodes[p].next[l];
    assert Successor(s, p, l, m);
    if y == p {
      PublishedNext(s, t, l, x, p, Some(x));
    } else if y == x {
      NewNodeSuccessor(s, p, l, x, m);
      PublishedNext(s, t, l, x, x, m);
    } else {
      assert Successor(s, y, l, s.nodes[y].next[l]);
      OldNodeSuccessor(s, p, l, x, y, m, s.nodes[y].next[l]);
      PublishedNext(s, t, l, x, y, s.nodes[y].next[l]);
    }
  }

  /** A link of level l is right again if it is right for the old nodes and the new one. */
  lemma PublishedNext(s: List, t: List, l: nat, x: nat, y: nat, m: Option<nat>)
    requires 0 < x < |s.nodes| == |t.nodes| && |s.linked| == |t.linked| == |s.nodes|
    requires forall z :: 0 <= z < |s.nodes| ==> t.nodes[z].key == s.nodes[z].key
    requires forall z :: 0 <= z < |s.nodes| && z != x ==> t.linked[z] == s.linked[z]
    requires t.linked[x] == l + 1 && s.linked[x] == l && y < |s.nodes|
    requires m.None? ==> (forall z: nat :: In(s, z, l) ==> !Before(s, y, z)) && !Before(s, y, x)
    requires m.Some? ==> m.value < |s.nodes| && (In(s, m.value, l) || m.value == x) && Before(s, y, m.value)
    requires m.Some? ==> forall z: nat :: In(s, z, l) && Before(s, y, z) ==> !Before(s, z, m.value)
    requires m.Some? && Before(s, y, x) ==> !Before(s, x, m.value)
    ensures Successor(t, y, l, m)
  {
    assert forall z: nat :: In(t, z, l) <==> In(s, z, l) || z == x;
  }

  lemma NewNodeSuccessor(s: List, p: nat, l: nat, x: nat, m: Option<nat>)
    requires Ordered(s) && 0 < x < |s.nodes| && p != x && !In(s, x, l)
    requires Neighbours(s, Some(s.nodes[x].key), l, p, m) && Successor(s, p, l, m)
    ensures m.None? ==> forall z: nat :: In(s, z, l) ==> !Before(s, x, z)
    ensures m.Some? ==> In(s, m.value, l) && Before(s, x, m.value)
    ensures m.Some? ==> forall z: nat :: In(s, z, l) && Before(s, x, z) ==> !Before(s, z, m.value)
  {
    assert Before(s, p, x);
  }

  lemma OldNodeSuccessor(s: List, p: nat, l: nat, x: nat, y: nat, q: Option<nat>, m: Option<nat>)
    requires Ordered(s) && 0 < x < |s.nodes| && In(s, p, l) && In(s, y, l) && y != p && y != x && p != x
    requires Neighbours(s, Some(s.nodes[x].key), l, p, q) && Successor(s, y, l, m)
    ensures Before(s, y, x) ==> m.Some? && !Before(s, x, m.value)
  {
    if Before(s, y, x) {
      assert Below(s, y, Some(s.nodes[x].key));
      assert !Before(s, p, y);
      assert Before(s, y, p);
    }
  }

  // ---- One writer and a reader, store by store ------------------------------------------------

  /** Where Insert is: nowhere, after its search and the choice of a height (the length of
      prev), or linking node x at level i, with its own link of that level set or not. */
  datatype Writer = Idle | Placing(key: UserKey, prev: seq<nat>) | Linking(x: nat, prev: seq<nat>, i: nat, own: bool)

  /** A search on its way: every search of the list walks like this. */
  datatype Reader = Reader(bound: Option<UserKey>, x: nat, level: nat)

  datatype Machine = Machine(list: List, writer: Writer, reader: Option<Reader>)

  datatype Step =
    | Begin(key: UserKey, prev: seq<nat>)
    | RaiseHeight
    | NewNode(garbage: seq<Option<nat>>)
    | OwnLink
    | PublishLink
    | End
    | StartRead(bound: Option<UserKey>, height: nat)   // max_height_ may be read stale
    | Load

  /** prev[l] is right before the key at every level from i on. */
  ghost predicate Placed(s: List, key: UserKey, prev: seq<nat>, i: nat)
  {
    && |prev| <= MAX_HEIGHT
    && forall l :: i <= l < |prev| ==> PlacedAt(s, key, prev[l], l)
  }

  ghost predicate PlacedAt(s: List, key: UserKey, p: nat, l: nat)
  {
    In(s, p, l) && l < |s.nodes[p].next| && Neighbours(s, Some(key), l, p, s.nodes[p].next[l])
  }

  ghost predicate Absent(s: List, key: UserKey)
  {
    forall x :: 0 < x < |s.nodes| ==> s.nodes[x].key != key
  }

  ghost predicate Enabled(m: Machine, step: Step)
  {
    match step
    case Begin(key, prev) => m.writer.Idle? && Absent(m.list, key) && prev != [] && Placed(m.list, key, prev, 0)
    case RaiseHeight => m.writer.Placing? && m.list.maxHeight < |m.writer.prev|
    case NewNode(garbage) => m.writer.Placing? && |m.writer.prev| <= m.list.maxHeight && |garbage| == |m.writer.prev|
    case OwnLink =>
      && m.writer.Linking? && !m.writer.own && m.writer.i < |m.writer.prev| && Linkable(m.list, m.writer)
    case PublishLink => m.writer.Linking? && m.writer.own && Linkable(m.list, m.writer)
    case End => m.writer.Linking? && m.writer.i == |m.writer.prev|
    case StartRead(_, height) => m.reader.None? && 0 < height <= MAX_HEIGHT
    case Load =>
      && m.reader.Some? && m.reader.value.x < |m.list.nodes|
      && m.reader.value.level < |m.list.nodes[m.reader.value.x].next|
      && (var next := m.list.nodes[m.reader.value.x].next[m.reader.value.level];
          next.Some? ==> next.value < |m.list.nodes|)
  }

  predicate Linkable(s: List, w: Writer)
    requires w.Linking?
  {
    && w.i < |w.prev| && w.x < |s.nodes| == |s.linked| && w.i < |s.nodes[w.x].next|
    && w.prev[w.i] < |s.nodes| && w.i < |s.nodes[w.prev[w.i]].next|
  }

  /** What a load of the reader leads to: on to the next node, down a level, or the end. */
  function AfterLoad(s: List, r: Reader): Option<Reader>
    requires r.x < |s.nodes| && r.level < |s.nodes[r.x].next|
    requires s.nodes[r.x].next[r.level].Some? ==> s.nodes[r.x].next[r.level].value < |s.nodes|
  {
    var next := s.nodes[r.x].next[r.level];
    if next.Some? && Below(s, next.value, r.bound) then Some(r.(x := next.value))
    else if r.level > 0 then Some(r.(level := r.level - 1))
    else None
  }

  function Next(m: Machine, step: Step): Machine
    requires Enabled(m, step)
  {
    match step
    case Begin(key, prev) => m.(writer := Placing(key, prev))
    case RaiseHeight => m.(list := Raise(m.list, |m.writer.prev|))
    case NewNode(garbage) =>
      m.(list := Allocate(m.list, m.writer.key, garbage), writer := Linking(|m.list.nodes|, m.writer.prev, 0, false))
    case OwnLink =>
      var w := m.writer;
      m.(list := SetNext(m.list, w.x, w.i, m.list.nodes[w.prev[w.i]].next[w.i]), writer := w.(own := true))
    case PublishLink =>
      var w := m.writer;
      m.(list := Publish(m.list, w.prev[w.i], w.i, w.x), writer := w.(i := w.i + 1, own := false))
    case End => m.(writer := Idle)
    case StartRead(bound, height) => m.(reader := Some(Reader(bound, 0, height - 1)))
    case Load => m.(reader := AfterLoad(m.list, m.reader.value))
  }

  ghost predicate WriterOk(s: List, w: Writer)
  {
    match w
    case Idle => true
    case Placing(key, prev) => prev != [] && Absent(s, key) && Placed(s, key, prev, 0)
    case Linking(x, prev, i, own) =>
      && 0 < x < |s.nodes| == |s.linked| && s.linked[x] == i <= |prev| == |s.nodes[x].next| <= s.maxHeight
      && Placed(s, s.nodes[x].key, prev, i) && prev != []
      && (own ==> i < |prev| && s.nodes[x].next[i] == s.nodes[prev[i]].next[i])
  }

  /** A reader stands on a node of its level that is before its bound. */
  ghost predicate ReaderOk(s: List, r: Option<Reader>)
  {
    r.Some? ==> In(s, r.value.x, r.value.level) && Below(s, r.value.x, r.value.bound)
  }

  ghost predicate MachineInv(m: Machine)
  {
    Inv(m.list) && WriterOk(m.list, m.writer) && ReaderOk(m.list, m.reader)
  }

  /** Only this level of this list matters for a place. */
  lemma SamePlace(s: List, t: List, key: UserKey, p: nat, l: nat)
    requires PlacedAt(s, key, p, l) && |s.nodes| <= |t.nodes| && |s.nodes| <= |s.linked|
    requires forall x :: 0 <= x < |s.nodes| ==> t.nodes[x].key == s.nodes[x].key
    requires forall x: nat :: In(t, x, l) <==> In(s, x, l)
    requires l < |t.nodes[p].next| && t.nodes[p].next[l] == s.nodes[p].next[l]
    ensures PlacedAt(t, key, p, l)
  {
  }

  /** Nodes stay linked, so a reader stays where it is. */
  lemma ReaderStays(s: List, t: List, r: Option<Reader>)
    requires ReaderOk(s, r) && |s.nodes| <= |t.nodes| && |s.linked| <= |t.linked|
    requires forall x :: 0 <= x < |s.nodes| ==> t.nodes[x].key == s.nodes[x].key
    requires forall x :: 0 <= x < |s.linked| ==> t.linked[x] >= s.linked[x]
    ensures ReaderOk(t, r)
  {
  }

  lemma AllocatePlaced(s: List, key: UserKey, prev: seq<nat>, garbage: seq<Option<nat>>)
    requires Inv(s) && Placed(s, key, prev, 0)
    ensures Placed(Allocate(s, key, garbage), key, prev, 0)
  {
    var t := Allocate(s, key, garbage);
    forall l | 0 <= l < |prev| ensures PlacedAt(t, key, prev[l], l) {
      assert PlacedAt(s, key, prev[l], l);
      SamePlace(s, t, key, prev[l], l);
    }
  }

  lemma OwnPlaced(s: List, x: nat, prev: seq<nat>, i: nat, m: Option<nat>)
    requires Inv(s) && 0 < x < |s.nodes| && s.linked[x] == i < |s.nodes[x].next| && Placed(s, s.nodes[x].key, prev, i)
    ensures Placed(SetNext(s, x, i, m), s.nodes[x].key, prev, i)
  {
    var t := SetNext(s, x, i, m);
    forall l | i <= l < |prev| ensures PlacedAt(t, s.nodes[x].key, prev[l], l) {
      assert PlacedAt(s, s.nodes[x].key, prev[l], l);
      SamePlace(s, t, s.nodes[x].key, prev[l], l);
    }
  }

  lemma PublishPlaced(s: List, x: nat, prev: seq<nat>, i: nat)
    requires Inv(s) && 0 < x < |s.nodes| && s.linked[x] == i < |prev| && Placed(s, s.nodes[x].key, prev, i)
    ensures PlacedAt(s, s.nodes[x].key, prev[i], i)
    ensures Placed(Publish(s, prev[i], i, x), s.nodes[x].key, prev, i + 1)
  {
    assert PlacedAt(s, s.nodes[x].key, prev[i], i);
    var t := Publish(s, prev[i], i, x);
    forall l | i + 1 <= l < |prev| ensures PlacedAt(t, s.nodes[x].key, prev[l], l) {
      assert PlacedAt(s, s.nodes[x].key, prev[l], l);
      SamePlace(s, t, s.nodes[x].key, prev[l], l);
    }
  }

  lemma RaisePlaced(s: List, key: UserKey, prev: seq<nat>, height: nat)
    requires Placed(s, key, prev, 0) && |s.nodes| <= |s.linked|
    ensures Placed(Raise(s, height), key, prev, 0)
  {
    forall l | 0 <= l < |prev| ensures PlacedAt(Raise(s, height), key, prev[l], l) {
      assert PlacedAt(s, key, prev[l], l);
      SamePlace(s, Raise(s, height), key, prev[l], l);
    }
  }

  /** Every store of the writer and every load of the reader keeps the invariant. */
  lemma StepKeepsInv(m: Machine, step: Step)
    requires MachineInv(m) && Enabled(m, step)
    ensures MachineInv(Next(m, step))
  {
    hide Neighbours, Placed, Successor, Ordered;
    var s, w, t := m.list, m.writer, Next(m, step);
    match step {
      case Begin(key, prev) =>
      case RaiseHeight =>
        PrevShort(s, w.key, w.prev);
        RaiseKeeps(s, |w.prev|);
        RaisePlaced(s, w.key, w.prev, |w.prev|);
        ReaderStays(s, t.list, m.reader);
      case NewNode(garbage) =>
        AllocateKeeps(s, w.key, garbage);
        AllocatePlaced(s, w.key, w.prev, garbage);
        ReaderStays(s, t.list, m.reader);
      case OwnLink =>
        var next := s.nodes[w.prev[w.i]].next[w.i];
        OwnKeeps(s, w.x, w.i, next);
        OwnPlaced(s, w.x, w.prev, w.i, next);
        OtherNode(s, w.x, w.prev, w.i);
        ReaderStays(s, t.list, m.reader);
      case PublishLink =>
        PublishPlaced(s, w.x, w.prev, w.i);
        PublishKeeps(s, w.prev[w.i], w.i, w.x);
        ReaderStays(s, t.list, m.reader);
      case End =>
      case StartRead(bound, height) =>
      case Load =>
        assert Successor(s, m.reader.value.x, m.reader.value.level,
                         s.nodes[m.reader.value.x].next[m.reader.value.level]);
        LoadKeeps(s, m.reader.value);
    }
  }

  lemma PrevShort(s: List, key: UserKey, prev: seq<nat>)
    requires Placed(s, key, prev, 0)
    ensures |prev| <= MAX_HEIGHT
  {
  }

  lemma OtherNode(s: List, x: nat, prev: seq<nat>, i: nat)
    requires Inv(s) && x < |s.nodes| && s.linked[x] == i < |prev| && Placed(s, s.nodes[x].key, prev, i)
    ensures prev[i] != x
  {
    assert PlacedAt(s, s.nodes[x].key, prev[i], i);
  }

  lemma LoadKeeps(s: List, r: Reader)
    requires Inv(s) && ReaderOk(s, Some(r))
    requires Successor(s, r.x, r.level, s.nodes[r.x].next[r.level])
    ensures ReaderOk(s, AfterLoad(s, r))
  {
  }

  /** A reader that ends is between the true neighbours of its bound, in the list of the
      moment of its last load. */
  lemma ReadIsExact(m: Machine)
    requires MachineInv(m) && Enabled(m, Load) && Next(m, Load).reader.None?
    ensures var r := m.reader.value;
            r.level == 0 && Neighbours(m.list, r.bound, 0, r.x, m.list.nodes[r.x].next[0])
  {
    StopsBetween(m.list, m.reader.value.bound, 0, m.reader.value.x);
  }

  // ---- Runs -------------------------------------------------------------------------------

  /** The set of keys changes at one store only: the one that links the new node at the
      lowest level. */
  lemma PresentStep(m: Machine, step: Step)
    requires MachineInv(m) && Enabled(m, step)
    ensures Present(Next(m, step).list)
         == Present(m.list) + if step.PublishLink? && m.writer.i == 0 then {m.list.nodes[m.writer.x].key} else {}
  {
    hide Neighbours, Placed, Successor, Ordered;
    var s, w, t := m.list, m.writer, Next(m, step).list;
    match step {
      case Begin(key, prev) =>
      case RaiseHeight => SamePresent(s, t);
      case NewNode(garbage) => SamePresent(s, t);
      case OwnLink => SamePresent(s, t);
      case PublishLink => PublishPresent(s, t, w.x, w.i);
      case End =>
      case StartRead(bound, height) =>
      case Load =>
    }
  }

  lemma SamePresent(s: List, t: List)
    requires |s.linked| == |s.nodes| <= |t.nodes| == |t.linked|
    requires forall x :: 0 <= x < |s.nodes| ==> t.nodes[x].key == s.nodes[x].key && t.linked[x] == s.linked[x]
    requires forall x :: |s.nodes| <= x < |t.nodes| ==> t.linked[x] == 0
    ensures Present(t) == Present(s)
  {
    forall k | k in Present(s) ensures k in Present(t) {
      var x :| 0 < x < |s.nodes| && In(s, x, 0) && s.nodes[x].key == k;
      assert In(t, x, 0);
    }
    forall k | k in Present(t) ensures k in Present(s) {
      var x :| 0 < x < |t.nodes| && In(t, x, 0) && t.nodes[x].key == k;
      assert In(s, x, 0);
    }
  }

  lemma PublishPresent(s: List, t: List, x: nat, i: nat)
    requires |s.linked| == |s.nodes| == |t.nodes| && 0 < x < |s.nodes| && s.linked[x] == i
    requires forall y :: 0 <= y < |s.nodes| ==> t.nodes[y].key == s.nodes[y].key
    requires t.linked == s.linked[x := i + 1]
    ensures Present(t) == Present(s) + if i == 0 then {s.nodes[x].key} else {}
  {
    forall k | k in Present(s) ensures k in Present(t) {
      var y :| 0 < y < |s.nodes| && In(s, y, 0) && s.nodes[y].key == k;
      assert In(t, y, 0);
    }
    forall k | k in Present(t) ensures k in Present(s) || (i == 0 && k == s.nodes[x].key) {
      var y :| 0 < y < |t.nodes| && In(t, y, 0) && t.nodes[y].key == k;
      if y != x || i > 0 { assert In(s, y, 0); }
    }
    assert In(t, x, 0);
  }

  ghost predicate Init(m: Machine)
  {
    && m.list == List([Node(0.0, seq(MAX_HEIGHT, i => None))], 1, [MAX_HEIGHT]) && m.writer.Idle? && m.reader.None?
  }

  lemma InitInv(m: Machine)
    requires Init(m)
    ensures MachineInv(m)
  {
  }

  ghost predicate IsRun(ms: seq<Machine>, steps: seq<Step>)
  {
    && |ms| == |steps| + 1 && Init(ms[0])
    && forall i :: 0 <= i < |steps| ==> Enabled(ms[i], steps[i]) && ms[i + 1] == Next(ms[i], steps[i])
  }

  lemma {:induction false} RunKeepsInv(ms: seq<Machine>, steps: seq<Step>, i: nat)
    requires IsRun(ms, steps) && i < |ms|
    ensures MachineInv(ms[i])
  {
    hide MachineInv, Next, Enabled;
    if i == 0 {
      InitInv(ms[0]);
    } else {
      RunKeepsInv(ms, steps, i - 1);
      StepKeepsInv(ms[i - 1], steps[i - 1]);
    }
  }

  lemma {:induction false} PresentGrows(ms: seq<Machine>, steps: seq<Step>, i: nat, j: nat)
    requires IsRun(ms, steps) && i <= j < |ms|
    ensures Present(ms[i].list) <= Present(ms[j].list)
  {
    hide MachineInv, Next, Enabled, Present, Init;
    if i < j {
      PresentGrows(ms, steps, i, j - 1);
      RunKeepsInv(ms, steps, j - 1);
      PresentStep(ms[j - 1], steps[j - 1]);
    }
  }

  /** A search for a key that was in the list at any earlier moment ends on that key,
      whatever the writer did meanwhile. */
  lemma SearchFinds(ms: seq<Machine>, steps: seq<Step>, i: nat, j: nat, key: UserKey)
    requires IsRun(ms, steps) && i <= j < |ms| && key in Present(ms[i].list)
    requires Enabled(ms[j], Load) && Next(ms[j], Load).reader.None? && ms[j].reader.value.bound == Some(key)
    ensures var s, found := ms[j].list, ms[j].list.nodes[ms[j].reader.value.x].next[ms[j].reader.value.level];
            found.Some? && s.nodes[found.value].key == key
  {
    PresentGrows(ms, steps, i, j);
    RunKeepsInv(ms, steps, j);
    ReadIsExact(ms[j]);
    var s, r := ms[j].list, ms[j].reader.value;
    FoundExactly(s, key, r.x, s.nodes[r.x].next[0]);
  }

  lemma FoundExactly(s: List, key: UserKey, x: nat, m: Option<nat>)
    requires Neighbours(s, Some(key), 0, x, m)
    ensures key in Present(s) <==> m.Some? && m.value != 0 && s.nodes[m.value].key == key
  {
    if key in Present(s) {
      var y :| 0 < y < |s.nodes| && In(s, y, 0) && s.nodes[y].key == key;
      assert !Below(s, y, Some(key));
    }
  }

  // ---- The list as an object ---------------------------------------------------------------------

  class SkipList {
    var list: List

    ghost predicate Valid()
      reads this
    {
      Inv(list) && forall x :: 0 < x < |list.nodes| ==> In(list, x, 0)
    }

    constructor ()
      ensures Valid() && Present(list) == {}
    {
      list := List([Node(0.0, seq(MAX_HEIGHT, i => None))], 1, [MAX_HEIGHT]);
    }

    method Contains(key: UserKey) returns (b: bool)
      requires Valid()
      ensures b <==> key in Present(list)
    {
      var x, prev := FindGreaterOrEqual(list, key);
      FoundExactly(list, key, prev[0], x);
      b := x.Some? && list.nodes[x.value].key == key;
    }

    /** height is what RandomHeight returns; garbage is what the fresh memory holds. */
    method Insert(key: UserKey, height: nat, garbage: seq<Option<nat>>)
      requires Valid() && key !in Present(list) && 0 < height <= MAX_HEIGHT && |garbage| == height
      modifies this
      ensures Valid() && Present(list) == old(Present(list)) + {key}
      ensures var x := |old(list).nodes|;
              && x < |list.nodes| && list.nodes[x].key == key
              && forall y: nat, l: nat :: In(list, y, l) <==> In(old(list), y, l) || (y == x && l < height)
    {
      var node, prev := Prepare(key, height, garbage);
      hide Inv, WriterOk, Present;
      for i := 0 to height
        invariant Inv(list) && WriterOk(list, Linking(node, prev, i, false)) && |prev| == height
        invariant 0 < node < |list.nodes| && list.nodes[node].key == key
        invariant forall y: nat :: 0 < y < |list.nodes| && (y != node || i > 0) ==> In(list, y, 0)
        invariant Present(list) == old(Present(list)) + if i == 0 then {} else {key}
        invariant forall y: nat, l: nat :: In(list, y, l) <==> In(old(list), y, l) || (y == node && l < i)
      {
        LinkLevel(node, prev, i);
      }
    }

    /** The search, the store to max_height_, and the new node, not yet linked anywhere. */
    method Prepare(key: UserKey, height: nat, garbage: seq<Option<nat>>) returns (node: nat, prev: seq<nat>)
      requires Valid() && key !in Present(list) && 0 < height <= MAX_HEIGHT && |garbage| == height
      modifies this
      ensures Inv(list) && WriterOk(list, Linking(node, prev, 0, false)) && |prev| == height
      ensures 0 < node < |list.nodes| && list.nodes[node].key == key
      ensures forall y: nat :: 0 < y < |list.nodes| && y != node ==> In(list, y, 0)
      ensures node == |old(list).nodes| && forall y: nat, l: nat :: In(list, y, l) <==> In(old(list), y, l)
      ensures Present(list) == old(Present(list))
    {
      NotThere(list, key);
      prev := FindPlaces(list, key, height);
      hide Inv, WriterOk, Placed, Present, Absent;
      Prepared(list, key, prev, garbage);
      if height > list.maxHeight { list := Raise(list, height); }
      node := |list.nodes|;
      list := Allocate(list, key, garbage);
    }

    /** One turn of the linking loop: the node's own link, then the publishing store. */
    method LinkLevel(x: nat, prev: seq<nat>, i: nat)
      requires Inv(list) && WriterOk(list, Linking(x, prev, i, false)) && i < |prev| && x < |list.nodes|
      modifies this
      ensures Inv(list) && WriterOk(list, Linking(x, prev, i + 1, false))
      ensures x < |list.nodes| == |old(list).nodes| && list.nodes[x].key == old(list).nodes[x].key
      ensures forall y: nat, l: nat :: In(list, y, l) <==> In(old(list), y, l) || (y == x && l == i)
      ensures Present(list) == Present(old(list)) + if i == 0 then {list.nodes[x].key} else {}
    {
      hide Neighbours, Successor, Ordered, Placed;
      PublishPlaced(list, x, prev, i);
      var next := list.nodes[prev[i]].next[i];
      OwnKeeps(list, x, i, next);
      OwnPlaced(list, x, prev, i, next);
      OtherNode(list, x, prev, i);
      SamePresent(list, SetNext(list, x, i, next));
      list := SetNext(list, x, i, next);
      PublishPlaced(list, x, prev, i);
      PublishKeeps(list, prev[i], i, x);
      PublishPresent(list, Publish(list, prev[i], i, x), x, i);
      list := Publish(list, prev[i], i, x);
    }
  }

  /** The search of Insert, and the head above the highest level. */
  method FindPlaces(s: List, key: UserKey, height: nat) returns (prev: seq<nat>)
    requires Inv(s) && 0 < height <= MAX_HEIGHT
    ensures |prev| == height && Placed(s, key, prev, 0)
  {
    var x;
    x, prev := FindGreaterOrEqual(s, key);
    SearchPlaces(s, key, prev, height);
    hide Inv, Placed, Neighbours;
    prev := if height > s.maxHeight then prev + seq(height - s.maxHeight, i => 0) else prev[..height];
  }

  lemma Prepared(s: List, key: UserKey, prev: seq<nat>, garbage: seq<Option<nat>>)
    requires Inv(s) && Absent(s, key) && prev != [] && Placed(s, key, prev, 0) && |garbage| == |prev|
    requires forall x :: 0 < x < |s.nodes| ==> In(s, x, 0)
    ensures var t := Allocate(if |prev| > s.maxHeight then Raise(s, |prev|) else s, key, garbage);
            && Inv(t) && WriterOk(t, Linking(|s.nodes|, prev, 0, false)) && Present(t) == Present(s)
            && 0 < |s.nodes| < |t.nodes| && t.nodes[|s.nodes|].key == key
            && (forall y: nat :: 0 < y < |t.nodes| && y != |s.nodes| ==> In(t, y, 0))
            && forall y: nat, l: nat :: In(t, y, l) <==> In(s, y, l)
  {
    hide Neighbours, Successor, Ordered, Present;
    PrevShort(s, key, prev);
    var r := if |prev| > s.maxHeight then Raise(s, |prev|) else s;
    if |prev| > s.maxHeight {
      RaiseKeeps(s, |prev|);
      RaisePlaced(s, key, prev, |prev|);
      SamePresent(s, r);
    }
    hide Placed;
    AllocateKeeps(r, key, garbage);
    AllocatePlaced(r, key, prev, garbage);
    var t := Allocate(r, key, garbage);
    SamePresent(r, t);
    forall y: nat | 0 < y < |t.nodes| && y != |s.nodes| ensures In(t, y, 0) { assert In(s, y, 0); }
  }

  lemma NotThere(s: List, key: UserKey)
    requires key !in Present(s) && forall x :: 0 < x < |s.nodes| ==> In(s, x, 0)
    ensures Absent(s, key)
  {
    forall x | 0 < x < |s.nodes| ensures s.nodes[x].key != key { assert In(s, x, 0); }
  }

  /** What the search found, and the head above the highest level, are the places. */
  lemma SearchPlaces(s: List, key: UserKey, prev: seq<nat>, height: nat)
    requires Inv(s) && |prev| == s.maxHeight && 0 < height <= MAX_HEIGHT
    requires forall l :: 0 <= l < |prev| ==>
             In(s, prev[l], l) && Neighbours(s, Some(key), l, prev[l], s.nodes[prev[l]].next[l])
    ensures Placed(s, key, if height > s.maxHeight then prev + seq(height - s.maxHeight, i => 0) else prev[..height], 0)
  {
    var all := if height > s.maxHeight then prev + seq(height - s.maxHeight, i => 0) else prev[..height];
    forall l | 0 <= l < |all| ensures PlacedAt(s, key, all[l], l) {
      if l >= s.maxHeight { EmptyLevel(s, key, l); } else { assert all[l] == prev[l]; }
    }
  }

  lemma EmptyLevel(s: List, key: UserKey, l: nat)
    requires Inv(s) && s.maxHeight <= l < MAX_HEIGHT
    ensures PlacedAt(s, key, 0, l)
  {
    assert In(s, 0, l);
    assert Successor(s, 0, l, s.nodes[0].next[l]);
    assert forall y: nat :: In(s, y, l) ==> y == 0;
  }

  /** A reader is never stuck. */
  lemma LoadEnabled(m: Machine)
    requires MachineInv(m) && m.reader.Some?
    ensures Enabled(m, Load)
  {
    var r := m.reader.value;
    assert Successor(m.list, r.x, r.level, m.list.nodes[r.x].next[r.level]);
  }

  // ---- The iterator ------------------------------------------------------------------------------

  /** The least key of the set that is above the bound, or at it if so asked. */
  ghost predicate IsLeast(keys: set<UserKey>, bound: Option<UserKey>, at: bool, r: Option<UserKey>)
  {
    && (r.Some? ==> r.value in keys && Above(r.value, bound, at))
    && forall k :: k in keys && Above(k, bound, at) ==> r.Some? && r.value <= k
  }

  /** The greatest key of the set below the bound. */
  ghost predicate IsGreatest(keys: set<UserKey>, bound: Option<UserKey>, r: Option<UserKey>)
  {
    && (r.Some? ==> r.value in keys && (bound.Some? ==> r.value < bound.value))
    && forall k :: k in keys && (bound.Some? ==> k < bound.value) ==> r.Some? && k <= r.value
  }

  predicate Above(k: UserKey, bound: Option<UserKey>, at: bool)
  {
    bound.Some? ==> bound.value < k || (at && k == bound.value)
  }

  function KeyOf(s: List, node: Option<nat>): Option<UserKey>
    requires node.Some? ==> node.value < |s.nodes|
  {
    if node.Some? then Some(s.nodes[node.value].key) else None
  }

  lemma FollowsNode(s: List, x: nat)
    requires Inv(s) && In(s, x, 0)
    ensures var m := s.nodes[x].next[0];
            && (m.Some? ==> In(s, m.value, 0) && m.value != 0)
            && IsLeast(Present(s), if x == 0 then None else Some(s.nodes[x].key), false, KeyOf(s, m))
  {
    assert Successor(s, x, 0, s.nodes[x].next[0]);
  }

  lemma AtOrAfter(s: List, key: UserKey, x: nat, m: Option<nat>)
    requires Inv(s) && Neighbours(s, Some(key), 0, x, m)
    ensures (m.Some? ==> In(s, m.value, 0) && m.value != 0) && IsLeast(Present(s), Some(key), true, KeyOf(s, m))
  {
  }

  lemma LastBefore(s: List, bound: Option<UserKey>, x: nat, m: Option<nat>)
    requires Inv(s) && Neighbours(s, bound, 0, x, m)
    ensures IsGreatest(Present(s), bound, if x == 0 then None else Some(s.nodes[x].key))
  {
  }

  /** Stands on a linked node, or nowhere. The list may grow under it. */
  class ListIterator {
    const skip: SkipList
    var node: Option<nat>

    ghost predicate Valid()
      reads this, skip
    {
      Inv(skip.list) && (node.Some? ==> In(skip.list, node.value, 0) && node.value != 0)
    }

    function Key(): Option<UserKey>
      reads this, skip
      requires node.Some? ==> node.value < |skip.list.nodes|
    {
      KeyOf(skip.list, node)
    }

    constructor (skip: SkipList)
      requires Inv(skip.list)
      ensures Valid() && node == None && this.skip == skip
    {
      this.skip, node := skip, None;
    }

    method Next()
      requires Valid() && node.Some?
      modifies this
      ensures Valid() && IsLeast(Present(skip.list), old(Key()), false, Key())
    {
      FollowsNode(skip.list, node.value);
      node := skip.list.nodes[node.value].next[0];
    }

    method Prev()
      requires Valid() && node.Some?
      modifies this
      ensures Valid() && IsGreatest(Present(skip.list), old(Key()), Key())
    {
      var x := FindLessThan(skip.list, skip.list.nodes[node.value].key);
      LastBefore(skip.list, Key(), x, skip.list.nodes[x].next[0]);
      node := if x == 0 then None else Some(x);
    }

    method Seek(target: UserKey)
      requires Valid()
      modifies this
      ensures Valid() && IsLeast(Present(skip.list), Some(target), true, Key())
    {
      var x, prev := FindGreaterOrEqual(skip.list, target);
      AtOrAfter(skip.list, target, prev[0], x);
      node := x;
    }

    method SeekToFirst()
      requires Valid()
      modifies this
      ensures Valid() && IsLeast(Present(skip.list), None, false, Key())
    {
      FollowsNode(skip.list, 0);
      node := skip.list.nodes[0].next[0];
    }

    method SeekToLast()
      requires Valid()
      modifies this
      ensures Valid() && IsGreatest(Present(skip.list), None, Key())
    {
      var x := FindLast(skip.list);
      LastBefore(skip.list, None, x, None);
      node := if x == 0 then None else Some(x);
    }
  }
}
