/**
 The hash table of the block cache: bucket chains that are searched by hash and key
 and redistributed when the table grows (HandleTable in util/cache.cc).
 */
module HandleTables {
  import opened Keys

  /** An entry of a chain: its key, the hash of the key, and the cache handle. */
  datatype Item = Item(key: string, hash: nat, id: nat)

  datatype Table = Table(list: seq<seq<Item>>, elems: nat)

  /** What a search looks for. */
  datatype Wanted = Wanted(key: string, hash: nat)

  function WantedBy(i: Item): Wanted
  {
    Wanted(i.key, i.hash)
  }

  /** No two items of a chain answer the same search. */
  ghost predicate Apart(chain: seq<Item>)
  {
    forall i, j :: 0 <= i < j < |chain| ==> WantedBy(chain[i]) != WantedBy(chain[j])
  }

  function Total(list: seq<seq<Item>>): nat
  {
    if list == [] then 0 else Total(list[..|list| - 1]) + |list[|list| - 1]|
  }

  ghost predicate Placed(list: seq<seq<Item>>)
  {
    forall b, i :: 0 <= b < |list| && i in list[b] ==> i.hash % |list| == b
  }

  ghost predicate WellFormed(t: Table)
  {
    && |t.list| >= 4 && Placed(t.list) && (forall b :: 0 <= b < |t.list| ==> Apart(t.list[b]))
    && t.elems == Total(t.list)
  }

  ghost predicate Holds(list: seq<seq<Item>>, i: Item)
  {
    exists b :: 0 <= b < |list| && i in list[b]
  }

  /** The table answers a search with at most one item. */
  lemma OneAnswer(t: Table, i: Item, j: Item)
    requires WellFormed(t) && Holds(t.list, i) && Holds(t.list, j) && WantedBy(i) == WantedBy(j)
    ensures i == j
  {
    var b :| 0 <= b < |t.list| && i in t.list[b];
    var d :| 0 <= d < |t.list| && j in t.list[d];
    assert b == d && Apart(t.list[b]);
  }

  // ---- FindPointer -----------------------------------------------------------------------------

  /** The slot of the matching item in its chain, or the slot at the end of the chain. */
  method FindPointer(t: Table, w: Wanted) returns (b: nat, p: nat)
    requires WellFormed(t)
    ensures b == w.hash % |t.list| && p <= |t.list[b]|
    ensures p < |t.list[b]| ==> WantedBy(t.list[b][p]) == w
    ensures p == |t.list[b]| ==> forall i :: Holds(t.list, i) ==> WantedBy(i) != w
  {
    b, p := w.hash % |t.list|, 0;
    while p < |t.list[b]| && (t.list[b][p].hash != w.hash || t.list[b][p].key != w.key)
      invariant p <= |t.list[b]| && forall k :: 0 <= k < p ==> WantedBy(t.list[b][k]) != w
    {
      p := p + 1;
    }
  }

  method Lookup(t: Table, w: Wanted) returns (r: Option<Item>)
    requires WellFormed(t)
    ensures r.Some? ==> Holds(t.list, r.value) && WantedBy(r.value) == w
    ensures r.None? ==> forall i :: Holds(t.list, i) ==> WantedBy(i) != w
  {
    var b, p := FindPointer(t, w);
    if p < |t.list[b]| { return Some(t.list[b][p]); }
    r := None;
  }

  // ---- Changing one chain ----------------------------------------------------------------------

  lemma {:induction false} TotalUpdate(list: seq<seq<Item>>, b: nat, chain: seq<Item>)
    requires b < |list|
    ensures Total(list[b := chain]) == Total(list) - |list[b]| + |chain|
  {
    var n := |list| - 1;
    assert list[b := chain][..n] == if b < n then list[..n][b := chain] else list[..n];
    if b < n { TotalUpdate(list[..n], b, chain); }
  }

  /** The chain with slot p set to an item: replaced or appended. */
  function SetSlot(chain: seq<Item>, p: nat, i: Item): seq<Item>
    requires p <= |chain|
  {
    if p < |chain| then chain[p := i] else chain + [i]
  }

  function Unlink(chain: seq<Item>, p: nat): seq<Item>
    requires p < |chain|
  {
    chain[..p] + chain[p + 1..]
  }

  lemma SetSlotItems(chain: seq<Item>, p: nat, i: Item)
    requires p <= |chain| && Apart(chain)
    requires p < |chain| ==> WantedBy(chain[p]) == WantedBy(i)
    requires p == |chain| ==> forall k :: 0 <= k < |chain| ==> WantedBy(chain[k]) != WantedBy(i)
    ensures Apart(SetSlot(chain, p, i))
    ensures forall j :: j in SetSlot(chain, p, i) <==> j == i || (j in chain && WantedBy(j) != WantedBy(i))
  {
    var r := SetSlot(chain, p, i);
    assert r[p] == i;
    forall j | j in chain && WantedBy(j) != WantedBy(i) ensures j in r {
      var k :| 0 <= k < |chain| && chain[k] == j;
      assert r[k] == j;
    }
  }

  lemma UnlinkItems(chain: seq<Item>, p: nat)
    requires p < |chain| && Apart(chain)
    ensures Apart(Unlink(chain, p)) && |Unlink(chain, p)| == |chain| - 1
    ensures forall j :: j in Unlink(chain, p) <==> j in chain && j != chain[p]
  {
    var r := Unlink(chain, p);
    assert forall k :: 0 <= k < |r| ==> r[k] == chain[if k < p then k else k + 1];
    forall j | j in chain && j != chain[p] ensures j in r {
      var k :| 0 <= k < |chain| && chain[k] == j;
      assert r[if k < p then k else k - 1] == j;
    }
  }

  /** One chain replaced, the others as they were. */
  lemma ChainReplaced(t: Table, b: nat, chain: seq<Item>, elems: nat)
    requires WellFormed(t) && b < |t.list| && Apart(chain) && forall i :: i in chain ==> i.hash % |t.list| == b
    requires elems == t.elems - |t.list[b]| + |chain|
    ensures WellFormed(Table(t.list[b := chain], elems))
    ensures forall i :: Holds(t.list[b := chain], i) <==> i in chain || (Holds(t.list, i) && i.hash % |t.list| != b)
  {
    TotalUpdate(t.list, b, chain);
    var list := t.list[b := chain];
    forall i ensures Holds(list, i) <==> i in chain || (Holds(t.list, i) && i.hash % |t.list| != b) {
      if Holds(list, i) { var d :| 0 <= d < |list| && i in list[d]; assert d != b ==> i in t.list[d]; }
      if i in chain { assert i in list[b]; }
      if Holds(t.list, i) && i.hash % |t.list| != b {
        var d :| 0 <= d < |t.list| && i in t.list[d];
        assert i in list[d];
      }
    }
  }

  // ---- Insert, Remove ---------------------------------------------------------------------------

  /** The item replaced, if there was one with the same key and hash. */
  method Insert(t: Table, item: Item) returns (r: Table, old_: Option<Item>)
    requires WellFormed(t)
    ensures WellFormed(r)
    ensures forall i :: Holds(r.list, i) <==> i == item || (Holds(t.list, i) && WantedBy(i) != WantedBy(item))
    ensures old_.Some? ==> Holds(t.list, old_.value) && WantedBy(old_.value) == WantedBy(item)
    ensures old_.None? ==> forall i :: Holds(t.list, i) ==> WantedBy(i) != WantedBy(item)
    ensures r.elems == t.elems + if old_.None? then 1 else 0
    ensures t.elems <= |t.list| ==> r.elems <= |r.list|
  {
    hide Apart;
    var b, p := FindPointer(t, WantedBy(item));
    var chain := t.list[b];
    assert Holds(t.list, item) ==> item in chain;
    forall k | 0 <= k < |chain| ensures Holds(t.list, chain[k]) { assert chain[k] in t.list[b]; }
    old_ := if p < |chain| then Some(chain[p]) else None;
    SetSlotItems(chain, p, item);
    var elems := t.elems + if old_.None? then 1 else 0;
    ChainReplaced(t, b, SetSlot(chain, p, item), elems);
    r := Table(t.list[b := SetSlot(chain, p, item)], elems);
    InChain(t, b);
    if old_.None? && r.elems > |r.list| { r := Resize(r); }
  }

  lemma InChain(t: Table, b: nat)
    requires WellFormed(t) && b < |t.list|
    ensures forall i :: Holds(t.list, i) && i.hash % |t.list| == b <==> i in t.list[b]
  {
    forall i | Holds(t.list, i) && i.hash % |t.list| == b ensures i in t.list[b] {
      var d :| 0 <= d < |t.list| && i in t.list[d];
    }
    forall i | i in t.list[b] ensures Holds(t.list, i) {}
  }

  method Remove(t: Table, w: Wanted) returns (r: Table, old_: Option<Item>)
    requires WellFormed(t)
    ensures WellFormed(r)
    ensures forall i :: Holds(r.list, i) <==> Holds(t.list, i) && WantedBy(i) != w
    ensures old_.Some? ==> Holds(t.list, old_.value) && WantedBy(old_.value) == w
    ensures old_.None? ==> r == t && forall i :: Holds(t.list, i) ==> WantedBy(i) != w
  {
    hide Apart;
    var b, p := FindPointer(t, w);
    InChain(t, b);
    if p == |t.list[b]| { return t, None; }
    var item := t.list[b][p];
    UnlinkItems(t.list[b], p);
    assert item in t.list[b];
    forall i | Holds(t.list, i) && WantedBy(i) == w ensures i == item { OneAnswer(t, i, item); }
    ChainInTotal(t.list, b);
    ChainReplaced(t, b, Unlink(t.list[b], p), t.elems - 1);
    r, old_ := Table(t.list[b := Unlink(t.list[b], p)], t.elems - 1), Some(item);
  }

  lemma {:induction false} ChainInTotal(list: seq<seq<Item>>, b: nat)
    requires b < |list|
    ensures |list[b]| <= Total(list)
  {
    var n := |list| - 1;
    if b < n { ChainInTotal(list[..n], b); }
  }

  // ---- Resize ---------------------------------------------------------------------------------

  /** Items of the chains before b, and the first k of chain b. */
  ghost predicate Seen(list: seq<seq<Item>>, b: nat, k: nat, i: Item)
  {
    || (exists d :: 0 <= d < b && d < |list| && i in list[d])
    || (b < |list| && k <= |list[b]| && i in list[b][..k])
  }

  method Resize(t: Table) returns (r: Table)
    requires WellFormed(t)
    ensures WellFormed(r) && r.elems == t.elems <= |r.list|
    ensures forall i :: Holds(r.list, i) <==> Holds(t.list, i)
  {
    var newLength := 4;
    while newLength < t.elems
      invariant newLength >= 4
    {
      newLength := newLength * 2;
    }
    r := Table(seq(newLength, i => []), 0);
    Empty(r.list);
    forall i ensures !Seen(t.list, 0, 0, i) {}
    for b := 0 to |t.list|
      invariant WellFormed(r) && |r.list| == newLength && r.elems == Total(t.list[..b])
      invariant forall i :: Holds(r.list, i) <==> Seen(t.list, b, 0, i)
    {
      r := Spread(t, b, r);
      assert t.list[..b + 1][..b] == t.list[..b];
    }
    assert t.list[..|t.list|] == t.list;
  }

  /** The items of one chain, each put in front of its new chain. */
  method Spread(t: Table, b: nat, into: Table) returns (r: Table)
    requires WellFormed(t) && b < |t.list| && WellFormed(into)
    requires forall i :: Holds(into.list, i) <==> Seen(t.list, b, 0, i)
    ensures WellFormed(r) && |r.list| == |into.list| && r.elems == into.elems + |t.list[b]|
    ensures forall i :: Holds(r.list, i) <==> Seen(t.list, b + 1, 0, i)
  {
    hide WellFormed;
    r := into;
    assert |r.list| > 0 by { Buckets(r); }
    for k := 0 to |t.list[b]|
      invariant WellFormed(r) && |r.list| == |into.list| && r.elems == into.elems + k
      invariant forall i :: Holds(r.list, i) <==> Seen(t.list, b, k, i)
    {
      var x := t.list[b][k];
      Buckets(r);
      var c := x.hash % |r.list|;
      NotSeen(t, b, k);
      SeenStep(t.list, b, k);
      Prepend(t, r, b, k);
      ghost var was := r;
      r := Table(r.list[c := [x] + r.list[c]], r.elems + 1);
      forall i ensures Holds(r.list, i) <==> Seen(t.list, b, k + 1, i) {
        assert Holds(was.list, i) <==> Seen(t.list, b, k, i);
      }
    }
    SeenChain(t.list, b);
  }

  lemma Buckets(t: Table)
    requires WellFormed(t)
    ensures |t.list| >= 4
  {
  }

  lemma {:induction false} NoItems(list: seq<seq<Item>>)
    requires forall b :: 0 <= b < |list| ==> list[b] == []
    ensures Total(list) == 0
  {
    if list != [] { NoItems(list[..|list| - 1]); }
  }

  lemma Empty(list: seq<seq<Item>>)
    requires |list| >= 4 && forall b :: 0 <= b < |list| ==> list[b] == []
    ensures WellFormed(Table(list, 0)) && forall i :: !Holds(list, i)
  {
    NoItems(list);
  }

  lemma NotSeen(t: Table, b: nat, k: nat)
    requires WellFormed(t) && b < |t.list| && k < |t.list[b]|
    ensures forall i :: Seen(t.list, b, k, i) ==> WantedBy(i) != WantedBy(t.list[b][k])
  {
    var x := t.list[b][k];
    assert x in t.list[b];
    forall i | Seen(t.list, b, k, i) ensures WantedBy(i) != WantedBy(x) {
      if i in t.list[b][..k] {
        var m :| 0 <= m < k && t.list[b][m] == i;
        assert Apart(t.list[b]);
      } else {
        var d :| 0 <= d < b && i in t.list[d];
        assert i.hash % |t.list| == d;
      }
    }
  }

  lemma SeenStep(list: seq<seq<Item>>, b: nat, k: nat)
    requires b < |list| && k < |list[b]|
    ensures forall i :: Seen(list, b, k + 1, i) <==> Seen(list, b, k, i) || i == list[b][k]
  {
    assert list[b][..k + 1] == list[b][..k] + [list[b][k]];
    forall i ensures Seen(list, b, k + 1, i) <==> Seen(list, b, k, i) || i == list[b][k] {
      assert i in list[b][..k + 1] <==> i in list[b][..k] || i == list[b][k];
    }
  }

  lemma SeenChain(list: seq<seq<Item>>, b: nat)
    requires b < |list|
    ensures forall i :: Seen(list, b + 1, 0, i) <==> Seen(list, b, |list[b]|, i)
  {
    assert list[b][..|list[b]|] == list[b];
    forall i ensures Seen(list, b + 1, 0, i) <==> Seen(list, b, |list[b]|, i) {
      if Seen(list, b + 1, 0, i) {
        var d :| 0 <= d < b + 1 && i in list[d];
        if d < b { assert 0 <= d < b && i in list[d]; }
      }
      if i in list[b] { assert 0 <= b < b + 1 && i in list[b]; }
    }
  }

  lemma Prepend(t: Table, r: Table, b: nat, k: nat)
    requires WellFormed(r) && b < |t.list| && k < |t.list[b]|
    requires forall i :: Holds(r.list, i) ==> WantedBy(i) != WantedBy(t.list[b][k])
    ensures var x := t.list[b][k]; var c := x.hash % |r.list|;
            && WellFormed(Table(r.list[c := [x] + r.list[c]], r.elems + 1))
            && forall i :: Holds(r.list[c := [x] + r.list[c]], i) <==> Holds(r.list, i) || i == x
  {
    var x := t.list[b][k];
    var c := x.hash % |r.list|;
    InChain(r, c);
    var chain := [x] + r.list[c];
    assert Apart(r.list[c]);
    forall i, j | 0 <= i < j < |chain| ensures WantedBy(chain[i]) != WantedBy(chain[j]) {
      assert chain[j] == r.list[c][j - 1];
      if i == 0 { assert chain[j] in r.list[c]; } else { assert chain[i] == r.list[c][i - 1]; }
    }
    ChainReplaced(r, c, chain, r.elems + 1);
  }
}
