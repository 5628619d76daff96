/**
 One shard of the block cache: reference-counted entries, an idle list in order of use
 and an in-use list (LRUCache in util/cache.cc).
 */
module LruCache {
  import opened Keys
  import opened HandleTables
  import Seqs

  /** refs counts the clients' references and, if inCache, the cache's own. */
  datatype Handle = Handle(key: string, hash: nat, charge: nat, refs: nat, inCache: bool)

  /** The lists hold handle numbers, oldest first. deleted is the history of calls of the
      deleter; next is the number of the next handle to be allocated. */
  datatype Cache = Cache(capacity: nat, usage: int, lru: seq<nat>, inUse: seq<nat>, table: Table,
                         handles: map<nat, Handle>, deleted: seq<nat>, next: nat)

  // ---- The invariant ----------------------------------------------------------------------

  ghost predicate NoDuplicates(s: seq<nat>)
  {
    forall i, j :: 0 <= i < j < |s| ==> s[i] != s[j]
  }

  /** Idle and in-use entries are the cached ones, split by reference count. */
  ghost predicate Listed(lru: seq<nat>, inUse: seq<nat>, handles: map<nat, Handle>)
  {
    && NoDuplicates(lru) && NoDuplicates(inUse)
    && (forall id :: id in lru <==> id in handles && handles[id].inCache && handles[id].refs == 1)
    && (forall id :: id in inUse <==> id in handles && handles[id].inCache && handles[id].refs >= 2)
  }

  /** clients[id] is the number of references handed out and not yet released. */
  ghost predicate Counted(handles: map<nat, Handle>, clients: map<nat, nat>)
  {
    && handles.Keys == clients.Keys
    && forall id :: id in handles ==>
         handles[id].refs > 0 && handles[id].refs == clients[id] + if handles[id].inCache then 1 else 0
  }

  /** The hash table holds exactly the cached entries, but for one that is just being
      taken out. */
  ghost predicate Tabled(table: Table, handles: map<nat, Handle>, out: Option<nat>)
  {
    && WellFormed(table)
    && (forall i :: Holds(table.list, i) ==>
          i.id in handles && handles[i.id].inCache && i == ItemOf(handles, i.id) && Some(i.id) != out)
    && (forall id :: id in handles && handles[id].inCache && Some(id) != out ==> Holds(table.list, ItemOf(handles, id)))
  }

  function ItemOf(handles: map<nat, Handle>, id: nat): Item
    requires id in handles
  {
    Item(handles[id].key, handles[id].hash, id)
  }

  ghost function Charges(s: seq<nat>, handles: map<nat, Handle>): nat
  {
    if s == [] then 0
    else
      var id := s[|s| - 1];
      Charges(s[..|s| - 1], handles) + if id in handles then handles[id].charge else 0
  }

  ghost predicate Charged(usage: int, lru: seq<nat>, inUse: seq<nat>, handles: map<nat, Handle>)
  {
    usage == Charges(lru, handles) + Charges(inUse, handles)
  }

  /** Every handle ever allocated is alive or was deleted, once. */
  ghost predicate Accounted(handles: map<nat, Handle>, deleted: seq<nat>, next: nat)
  {
    && NoDuplicates(deleted)
    && (forall id: nat :: id in handles <==> id < next && id !in deleted)
    && (forall id :: id in deleted ==> id < next)
  }

  ghost predicate InvBut(c: Cache, clients: map<nat, nat>, out: Option<nat>)
  {
    && Listed(c.lru, c.inUse, c.handles) && Counted(c.handles, clients) && Tabled(c.table, c.handles, out)
    && Charged(c.usage, c.lru, c.inUse, c.handles) && Accounted(c.handles, c.deleted, c.next)
  }

  ghost predicate Inv(c: Cache, clients: map<nat, nat>)
  {
    InvBut(c, clients, None)
  }

  // ---- Lists ---------------------------------------------------------------------------------

  /** LRU_Remove. */
  function Without(s: seq<nat>, id: nat): seq<nat>
  {
    if s == [] then []
    else if s[|s| - 1] == id then Without(s[..|s| - 1], id)
    else Without(s[..|s| - 1], id) + [s[|s| - 1]]
  }

  lemma {:induction false} WithoutItems(s: seq<nat>, id: nat)
    ensures forall x :: x in Without(s, id) <==> x in s && x != id
  {
    if s != [] {
      var n := |s| - 1;
      WithoutItems(s[..n], id);
      assert s == s[..n] + [s[n]];
    }
  }

  lemma {:induction false} WithoutApart(s: seq<nat>, id: nat)
    requires NoDuplicates(s)
    ensures NoDuplicates(Without(s, id))
  {
    if s != [] {
      var n := |s| - 1;
      WithoutApart(s[..n], id);
      WithoutItems(s[..n], id);
      if s[n] != id { AppendApart(Without(s[..n], id), s[n]); }
    }
  }

  lemma AppendApart(s: seq<nat>, id: nat)
    requires NoDuplicates(s) && id !in s
    ensures NoDuplicates(s + [id])
  {
  }

  lemma {:induction false} WithoutCharges(s: seq<nat>, id: nat, handles: map<nat, Handle>)
    requires NoDuplicates(s) && id in handles
    ensures Charges(Without(s, id), handles) + (if id in s then handles[id].charge else 0) == Charges(s, handles)
  {
    if s != [] {
      var n := |s| - 1;
      WithoutCharges(s[..n], id, handles);
      assert s == s[..n] + [s[n]];
      var w := Without(s[..n], id);
      assert (w + [s[n]])[..|w|] == w;
      if s[n] == id { assert id !in s[..n]; }
    }
  }

  lemma AppendCharges(s: seq<nat>, id: nat, handles: map<nat, Handle>)
    requires id in handles
    ensures Charges(s + [id], handles) == Charges(s, handles) + handles[id].charge
  {
    assert (s + [id])[..|s|] == s;
  }

  /** Only the charges of the listed handles matter. */
  lemma {:induction false} SameCharges(s: seq<nat>, h: map<nat, Handle>, g: map<nat, Handle>)
    requires forall id :: id in s ==> id in h && id in g && h[id].charge == g[id].charge
    ensures Charges(s, h) == Charges(s, g)
  {
    if s != [] { SameCharges(s[..|s| - 1], h, g); }
  }

  // ---- Ref, Unref, FinishErase ------------------------------------------------------------------

  function Ref(c: Cache, id: nat): Cache
    requires id in c.handles
  {
    var h := c.handles[id];
    var moved := if h.refs == 1 && h.inCache then c.(lru := Without(c.lru, id), inUse := c.inUse + [id]) else c;
    moved.(handles := c.handles[id := h.(refs := h.refs + 1)])
  }

  function Unref(c: Cache, id: nat): Cache
    requires id in c.handles && c.handles[id].refs > 0
  {
    var h := c.handles[id].(refs := c.handles[id].refs - 1);
    if h.refs == 0 then c.(handles := c.handles - {id}, deleted := c.deleted + [id])
    else if h.inCache && h.refs == 1 then
      c.(handles := c.handles[id := h], inUse := Without(c.inUse, id), lru := c.lru + [id])
    else c.(handles := c.handles[id := h])
  }

  /** The entry has already left the hash table. */
  function FinishErase(c: Cache, id: nat): Cache
    requires id in c.handles && c.handles[id].refs > 0
  {
    var h := c.handles[id];
    Unref(c.(lru := Without(c.lru, id), inUse := Without(c.inUse, id), usage := c.usage - h.charge,
             handles := c.handles[id := h.(inCache := false)]), id)
  }

  lemma SameTable(c: Cache, id: nat)
    requires id in c.handles && c.handles[id].refs > 0
    ensures FinishErase(c, id).table == c.table
  {
  }

  /** A client that holds no reference is forgotten with its handle. */
  ghost function Forget(clients: map<nat, nat>, id: nat): map<nat, nat>
  {
    if id in clients && clients[id] == 0 then clients - {id} else clients
  }

  /** Handles that differ only in their reference counts have the same table. */
  lemma SameTabled(table: Table, h: map<nat, Handle>, g: map<nat, Handle>, out: Option<nat>)
    requires Tabled(table, h, out)
    requires forall id :: id in h && h[id].inCache ==>
             id in g && g[id].inCache && g[id].key == h[id].key && g[id].hash == h[id].hash
    requires forall id :: id in g && g[id].inCache ==> id in h && h[id].inCache
    ensures Tabled(table, g, out)
  {
    forall id | id in g && g[id].inCache && Some(id) != out ensures Holds(table.list, ItemOf(g, id)) {
      assert Holds(table.list, ItemOf(h, id));
    }
  }

  predicate Idle(handles: map<nat, Handle>, id: nat)
  {
    id in handles && handles[id].inCache && handles[id].refs == 1
  }

  predicate Busy(handles: map<nat, Handle>, id: nat)
  {
    id in handles && handles[id].inCache && handles[id].refs >= 2
  }

  /** A handle with another reference count, in no other list. */
  lemma StaysListed(lru: seq<nat>, inUse: seq<nat>, usage: int, h: map<nat, Handle>, g: map<nat, Handle>)
    requires Listed(lru, inUse, h) && Charged(usage, lru, inUse, h)
    requires forall id :: (Idle(h, id) <==> Idle(g, id)) && (Busy(h, id) <==> Busy(g, id))
    requires forall id :: id in h && id in g ==> h[id].charge == g[id].charge
    ensures Listed(lru, inUse, g) && Charged(usage, lru, inUse, g)
  {
    assert forall id :: id in lru <==> Idle(h, id);
    assert forall id :: id in inUse <==> Busy(h, id);
    SameCharges(lru, h, g);
    SameCharges(inUse, h, g);
  }

  /** An entry moved from one list to the end of the other. */
  lemma Moved(from: seq<nat>, to: seq<nat>, id: nat, h: map<nat, Handle>)
    requires NoDuplicates(from) && NoDuplicates(to) && id in from && id !in to && id in h
    ensures NoDuplicates(Without(from, id)) && NoDuplicates(to + [id])
    ensures forall x :: x in Without(from, id) <==> x in from && x != id
    ensures Charges(Without(from, id), h) + Charges(to + [id], h) == Charges(from, h) + Charges(to, h)
  {
    hide Charges, Without, NoDuplicates;
    WithoutItems(from, id);
    WithoutApart(from, id);
    WithoutCharges(from, id, h);
    AppendApart(to, id);
    AppendCharges(to, id, h);
  }

  lemma ToInUse(lru: seq<nat>, inUse: seq<nat>, usage: int, h: map<nat, Handle>, id: nat)
    requires Listed(lru, inUse, h) && Charged(usage, lru, inUse, h) && Idle(h, id)
    ensures var g := h[id := h[id].(refs := 2)];
            Listed(Without(lru, id), inUse + [id], g) && Charged(usage, Without(lru, id), inUse + [id], g)
  {
    hide Charges, Without, NoDuplicates;
    var g := h[id := h[id].(refs := 2)];
    Moved(lru, inUse, id, h);
    SameCharges(Without(lru, id), h, g);
    SameCharges(inUse + [id], h, g);
  }

  lemma ToIdle(lru: seq<nat>, inUse: seq<nat>, usage: int, h: map<nat, Handle>, id: nat)
    requires Listed(lru, inUse, h) && Charged(usage, lru, inUse, h) && Busy(h, id)
    ensures var g := h[id := h[id].(refs := 1)];
            Listed(lru + [id], Without(inUse, id), g) && Charged(usage, lru + [id], Without(inUse, id), g)
  {
    hide Charges, Without, NoDuplicates;
    var g := h[id := h[id].(refs := 1)];
    Moved(inUse, lru, id, h);
    SameCharges(Without(inUse, id), h, g);
    SameCharges(lru + [id], h, g);
  }

  lemma ToNeither(lru: seq<nat>, inUse: seq<nat>, usage: int, h: map<nat, Handle>, g: map<nat, Handle>, id: nat)
    requires Listed(lru, inUse, h) && Charged(usage, lru, inUse, h) && id in h && h[id].inCache && h[id].refs > 0
    requires forall x :: x != id ==> (x in h <==> x in g) && (x in h ==> h[x] == g[x])
    requires id in g ==> !g[id].inCache
    ensures Listed(Without(lru, id), Without(inUse, id), g)
    ensures Charged(usage - h[id].charge, Without(lru, id), Without(inUse, id), g)
  {
    hide Charges, Without, NoDuplicates;
    WithoutItems(lru, id);
    WithoutApart(lru, id);
    WithoutCharges(lru, id, h);
    WithoutItems(inUse, id);
    WithoutApart(inUse, id);
    WithoutCharges(inUse, id, h);
    SameCharges(Without(lru, id), h, g);
    SameCharges(Without(inUse, id), h, g);
  }

  lemma RefListed(c: Cache, clients: map<nat, nat>, id: nat)
    requires Inv(c, clients) && id in c.handles
    ensures var d := Ref(c, id); Listed(d.lru, d.inUse, d.handles) && Charged(d.usage, d.lru, d.inUse, d.handles)
  {
    hide Tabled, Accounted, Listed, Charged;
    if Idle(c.handles, id) {
      ToInUse(c.lru, c.inUse, c.usage, c.handles, id);
    } else {
      StaysListed(c.lru, c.inUse, c.usage, c.handles, Ref(c, id).handles);
    }
  }

  lemma RefKeeps(c: Cache, clients: map<nat, nat>, id: nat)
    requires Inv(c, clients) && id in c.handles
    ensures Inv(Ref(c, id), clients[id := clients[id] + 1])
  {
    hide Listed, Charged, Tabled;
    RefListed(c, clients, id);
    SameTabled(c.table, c.handles, Ref(c, id).handles, None);
  }

  lemma UnrefListed(c: Cache, clients: map<nat, nat>, id: nat)
    requires Inv(c, clients) && id in c.handles && clients[id] > 0
    ensures var d := Unref(c, id); Listed(d.lru, d.inUse, d.handles) && Charged(d.usage, d.lru, d.inUse, d.handles)
  {
    hide Tabled, Accounted, Listed, Charged;
    if c.handles[id].inCache && c.handles[id].refs == 2 {
      ToIdle(c.lru, c.inUse, c.usage, c.handles, id);
    } else {
      StaysListed(c.lru, c.inUse, c.usage, c.handles, Unref(c, id).handles);
    }
  }

  lemma DeleteAccounted(handles: map<nat, Handle>, deleted: seq<nat>, next: nat, id: nat)
    requires Accounted(handles, deleted, next) && id in handles
    ensures Accounted(handles - {id}, deleted + [id], next)
  {
    AppendApart(deleted, id);
  }

  /** A release gives back one reference, and the last one deletes the entry. */
  lemma ReleaseKeeps(c: Cache, clients: map<nat, nat>, id: nat)
    requires Inv(c, clients) && id in c.handles && clients[id] > 0
    ensures var d := Unref(c, id);
            && Inv(d, if c.handles[id].refs == 1 then clients - {id} else clients[id := clients[id] - 1])
            && d.deleted == c.deleted + if clients[id] == 1 && !c.handles[id].inCache then [id] else []
  {
    hide Listed, Charged, Tabled;
    UnrefListed(c, clients, id);
    DeleteAccounted(c.handles, c.deleted, c.next, id);
    SameTabled(c.table, c.handles, Unref(c, id).handles, None);
    Seqs.RightEmpty(c.deleted);
    ReleaseCounted(c.handles, clients, id);
    SameAccounted(c.handles, c.handles[id := c.handles[id].(refs := c.handles[id].refs - 1)], c.deleted, c.next);
    hide Counted, Accounted;
  }

  lemma ReleaseCounted(handles: map<nat, Handle>, clients: map<nat, nat>, id: nat)
    requires Counted(handles, clients) && id in handles && clients[id] > 0
    ensures handles[id].refs == 1 ==> Counted(handles - {id}, clients - {id}) && clients[id] == 1 &&
                                      !handles[id].inCache
    ensures handles[id].refs > 1 ==>
              Counted(handles[id := handles[id].(refs := handles[id].refs - 1)], clients[id := clients[id] - 1])
    ensures handles[id].refs > 1 ==> !(clients[id] == 1 && !handles[id].inCache)
  {
  }

  lemma SameAccounted(h: map<nat, Handle>, g: map<nat, Handle>, deleted: seq<nat>, next: nat)
    requires Accounted(h, deleted, next) && h.Keys == g.Keys
    ensures Accounted(g, deleted, next)
  {
    assert forall id :: id in h <==> id in h.Keys;
    assert forall id :: id in g <==> id in g.Keys;
  }

  lemma EraseListed(c: Cache, clients: map<nat, nat>, id: nat)
    requires InvBut(c, clients, Some(id)) && id in c.handles && c.handles[id].inCache
    ensures var d := FinishErase(c, id);
            Listed(d.lru, d.inUse, d.handles) && Charged(d.usage, d.lru, d.inUse, d.handles)
  {
    hide Tabled, Accounted, Listed, Charged;
    ToNeither(c.lru, c.inUse, c.usage, c.handles, FinishErase(c, id).handles, id);
  }

  lemma EraseTabled(c: Cache, clients: map<nat, nat>, id: nat)
    requires InvBut(c, clients, Some(id)) && id in c.handles && c.handles[id].inCache
    ensures Tabled(c.table, FinishErase(c, id).handles, None)
  {
    hide Charges, Without, Listed, Charged, Accounted;
    var d := FinishErase(c, id);
    forall x | x in d.handles && d.handles[x].inCache ensures Holds(d.table.list, ItemOf(d.handles, x)) {
      assert Holds(c.table.list, ItemOf(c.handles, x));
    }
  }

  /** Taking an entry out of the cache gives up the cache's reference. */
  lemma EraseKeeps(c: Cache, clients: map<nat, nat>, id: nat)
    requires InvBut(c, clients, Some(id)) && id in c.handles && c.handles[id].inCache
    ensures var d := FinishErase(c, id);
            && Inv(d, Forget(clients, id))
            && d.deleted == c.deleted + if clients[id] == 0 then [id] else []
  {
    hide Charges, Without;
    EraseListed(c, clients, id);
    EraseTabled(c, clients, id);
    DeleteAccounted(c.handles, c.deleted, c.next, id);
    Seqs.RightEmpty(c.deleted);
    hide Listed, Charged, Tabled;
    var h := c.handles[id].(inCache := false);
    assert c.handles[id := h] - {id} == c.handles - {id};
  }

  // ---- The cache ------------------------------------------------------------------------------------

  /** No reference of a client is lost. */
  ghost predicate ClientsKeep(before: map<nat, nat>, after: map<nat, nat>)
  {
    forall id :: id in before && before[id] > 0 ==> id in after && after[id] == before[id]
  }

  /** Removing from the table the item of a cached entry. */
  lemma TakenOut(c: Cache, clients: map<nat, nat>, t: Table, id: nat)
    requires Inv(c, clients) && id in c.handles && c.handles[id].inCache && WellFormed(t)
    requires forall i :: Holds(t.list, i) <==> Holds(c.table.list, i) && WantedBy(i) != WantedBy(ItemOf(c.handles, id))
    ensures InvBut(c.(table := t), clients, Some(id))
  {
    hide Listed, Charged, Counted, Accounted, WellFormed;
    forall x | x in c.handles && c.handles[x].inCache && x != id ensures Holds(t.list, ItemOf(c.handles, x)) {
      Different(c, clients, x, id);
    }
  }

  lemma Different(c: Cache, clients: map<nat, nat>, x: nat, y: nat)
    requires Inv(c, clients) && x in c.handles && y in c.handles && c.handles[x].inCache && c.handles[y].inCache &&
             x != y
    ensures Holds(c.table.list, ItemOf(c.handles, x)) &&
            WantedBy(ItemOf(c.handles, x)) != WantedBy(ItemOf(c.handles, y))
  {
    var i, j := ItemOf(c.handles, x), ItemOf(c.handles, y);
    assert Holds(c.table.list, i) && Holds(c.table.list, j);
    hide Tabled, Listed, Charged, Counted, Accounted;
    if WantedBy(i) == WantedBy(j) { OneAnswer(c.table, i, j); }
  }

  // ---- What the operations do to the lists ---------------------------------------------------------------

  predicate Asked(handles: map<nat, Handle>, key: string, hash: nat, id: nat)
  {
    id in handles && handles[id].inCache && handles[id].key == key && handles[id].hash == hash
  }

  /** The entry for the key, if the cache holds one, has left it. */
  ghost predicate Erased(before: Cache, key: string, hash: nat, after: Cache)
  {
    || (after == before && forall id :: !Asked(before.handles, key, hash, id))
    || (exists id :: Asked(before.handles, key, hash, id) && before.handles[id].refs > 0 &&
                     after == FinishErase(before.(table := after.table), id))
  }

  /** The new entry is the most recently used one in use; it takes the place of an entry
      with the same key.  Without capacity it is not cached. */
  ghost predicate Added(before: Cache, h: Handle, after: Cache)
  {
    var added := before.(handles := before.handles[before.next := h], next := before.next + 1);
    if !h.inCache then after == added
    else
      var listed := added.(inUse := before.inUse + [before.next], usage := before.usage + h.charge,
                           table := after.table);
      || (after == listed && forall id :: !Asked(before.handles, h.key, h.hash, id))
      || (exists id :: Asked(before.handles, h.key, h.hash, id) && id != before.next && before.handles[id].refs > 0 &&
                       after == FinishErase(listed, id))
  }

  /** The n least recently used idle entries, and nothing else, have left the cache and
      been deleted. */
  ghost predicate Dropped(before: Cache, n: nat, after: Cache)
  {
    && n <= |before.lru| && after.lru == before.lru[n..] && after.inUse == before.inUse
    && after.capacity == before.capacity && after.deleted == before.deleted + before.lru[..n]
    && after.usage + Charges(before.lru[..n], before.handles) == before.usage
    && forall id :: id in before.handles && id !in before.lru[..n] ==>
       id in after.handles && after.handles[id] == before.handles[id]
  }

  /** Each of the n evictions was needed. */
  ghost predicate Needed(before: Cache, n: nat)
  {
    n <= |before.lru| && forall k :: 0 <= k < n ==>
        before.usage - Charges(before.lru[..k], before.handles) > before.capacity
  }

  /** Insert evicts from the old end of the idle list, and only while over capacity. */
  ghost predicate Inserted(before: Cache, h: Handle, n: nat, mid: Cache, after: Cache)
  {
    Added(before, h, mid) && Dropped(mid, n, after) && Needed(mid, n)
  }

  lemma DropNone(c: Cache)
    ensures Dropped(c, 0, c) && Needed(c, 0)
  {
    assert c.lru[..0] == [] && c.lru[0..] == c.lru;
  }

  lemma NthIdle(c: Cache, clients: map<nat, nat>, n: nat)
    requires Inv(c, clients) && n < |c.lru|
    ensures var id := c.lru[n];
            && id in c.handles && id !in c.lru[..n] && c.lru[..n + 1] == c.lru[..n] + [id]
            && Charges(c.lru[..n + 1], c.handles) == Charges(c.lru[..n], c.handles) + c.handles[id].charge
  {
    hide Accounted, Counted, Tabled, Charged;
    assert c.lru[..n + 1] == c.lru[..n] + [c.lru[n]];
    AppendCharges(c.lru[..n], c.lru[n], c.handles);
  }

  /** One more eviction. */
  lemma DropMore(before: Cache, clients: map<nat, nat>, n: nat, c: Cache, d: Cache)
    requires Inv(before, clients) && Dropped(before, n, c) && c.lru != [] && Dropped(c, 1, d)
    ensures Dropped(before, n + 1, d)
    ensures Needed(before, n) && c.usage > c.capacity ==> Needed(before, n + 1)
  {
    hide Inv, Charges;
    NthIdle(before, clients, n);
    var id := before.lru[n];
    assert id == c.lru[0] && c.lru[..1] == [id];
    OneCharge(id, c.handles);
    Seqs.DropDrop(before.lru, n);
  }

  lemma OneCharge(id: nat, handles: map<nat, Handle>)
    requires id in handles
    ensures Charges([id], handles) == handles[id].charge
  {
    AppendCharges([], id, handles);
    assert [] + [id] == [id];
  }

  class LRUCache {
    var c: Cache
    ghost var clients: map<nat, nat>
    /** When each entry was last given back, by a clock that counts those events. */
    ghost var released: map<nat, nat>
    ghost var clock: nat

    ghost predicate Valid()
      reads this
    {
      Inv(c, clients) && InReleaseOrder(c.lru, released, clock)
    }

    constructor (capacity: nat)
      ensures Valid() && c.capacity == capacity && c.handles == map[] && clients == map[]
    {
      c := Cache(capacity, 0, [], [], Table([[], [], [], []], 0), map[], [], 0);
      clients, released, clock := map[], map[], 0;
      new;
      Empty(c.table.list);
    }

    method Lookup(key: string, hash: nat) returns (r: Option<nat>)
      requires Valid()
      modifies this
      ensures Valid() && c.deleted == old(c.deleted) && c.usage == old(c.usage)
      ensures r.Some? <==> exists id :: id in old(c.handles) && old(c.handles)[id].inCache
                                        && old(c.handles)[id].key == key && old(c.handles)[id].hash == hash
      ensures r.Some? ==> r.value in old(clients) && old(c.handles)[r.value].key == key
                          && clients == old(clients)[r.value := old(clients)[r.value] + 1]
      ensures r.Some? ==> Asked(old(c.handles), key, hash, r.value) && c == Ref(old(c), r.value)
      ensures r.None? ==> c == old(c) && clients == old(clients)
    {
      hide Listed, Charged, Counted, Accounted, WellFormed;
      var item := HandleTables.Lookup(c.table, Wanted(key, hash));
      if item.None? {
        forall id | id in c.handles && c.handles[id].inCache
          ensures !(c.handles[id].key == key && c.handles[id].hash == hash)
        {
          assert Holds(c.table.list, ItemOf(c.handles, id));
        }
        return None;
      }
      var id := item.value.id;
      KnownClient(c, clients, id);
      RefKeeps(c, clients, id);
      RefOrder(c, id, released, clock);
      c := Ref(c, id);
      clients := clients[id := clients[id] + 1];
      r := Some(id);
    }

    /** A client gives a reference back. */
    method Release(id: nat)
      requires Valid() && id in clients && clients[id] > 0
      modifies this
      ensures Valid() && c.usage == old(c.usage)
      ensures released == old(released)[id := old(clock)] && clock == old(clock) + 1
      ensures id in old(c.handles) && old(c.handles)[id].refs > 0 && c == Unref(old(c), id)
      ensures forall x :: x in old(clients) && x != id ==> x in clients && clients[x] == old(clients)[x]
      ensures old(clients)[id] > 1 ==> id in clients && clients[id] == old(clients)[id] - 1
      ensures c.deleted == old(c.deleted) + if old(clients)[id] == 1 && !old(c.handles)[id].inCache then [id] else []
    {
      hide Listed, Charged, Tabled, Accounted;
      KnownHandle(c, clients, id);
      ReleaseKeeps(c, clients, id);
      BusyNotListed(c, clients, id);
      UnrefOrder(c, id, released, clock);
      released, clock := released[id := clock], clock + 1;
      clients := if c.handles[id].refs == 1 then clients - {id} else clients[id := clients[id] - 1];
      c := Unref(c, id);
    }

    /** The entry, if there is one, leaves the cache; references of clients stay good. */
    method Erase(key: string, hash: nat)
      requires Valid()
      modifies this
      ensures Valid() && ClientsKeep(old(clients), clients) && Erased(old(c), key, hash, c)
      ensures forall id :: !Asked(c.handles, key, hash, id)
      ensures released == old(released) && clock == old(clock)
    {
      hide Listed, Charged, Counted, Accounted, WellFormed, InReleaseOrder;
      var t, item := Remove(c.table, Wanted(key, hash));
      if item.Some? {
        var id := item.value.id;
        assert Asked(c.handles, key, hash, id);
        TakenOut(c, clients, t, id);
        c := c.(table := t);
        Evicted(c, clients, id);
        EraseOrder(c, id, released, clock);
        c, clients := FinishErase(c, id), Forget(clients, id);
      }
      forall id | id in c.handles && c.handles[id].inCache
        ensures !(c.handles[id].key == key && c.handles[id].hash == hash)
      {
        assert Holds(c.table.list, ItemOf(c.handles, id));
      }
    }

    /** The idle entry that was given back the longest ago leaves the cache and is deleted. */
    method EvictOldest()
      requires Valid() && c.lru != []
      modifies this
      ensures Valid() && ClientsKeep(old(clients), clients) && Dropped(old(c), 1, c)
      ensures released == old(released) && clock == old(clock)
      ensures ReleasedFirst(released, old(c.lru)[0], c.lru)
    {
      hide Charged, Accounted, WellFormed, NoDuplicates, InReleaseOrder, ReleasedFirst, Dropped, Listed, Counted,
           Tabled;
      FirstReleased(c.lru, released, clock);
      ghost var before := c;
      var id := c.lru[0];
      Oldest(c, clients);
      TableOk(c, clients);
      var t, item := Remove(c.table, WantedBy(ItemOf(c.handles, id)));
      assert item.Some? by { InItsTable(c, clients, id); }
      SameItem(c, clients, item.value, id);
      TakenOut(c, clients, t, id);
      OldestDropped(c, clients, t);
      c := c.(table := t);
      Evicted(c, clients, id);
      EraseOrder(c, id, released, clock);
      c, clients := FinishErase(c, id), Forget(clients, id);
      DroppedFirst(before, c);
    }

    /** The new entry, referenced by the caller; with no capacity it is not cached. */
    method Insert(key: string, hash: nat, charge: nat) returns (id: nat)
      requires Valid()
      modifies this
      ensures Valid() && id !in old(c.handles) && id in c.handles && id in clients && clients[id] == 1
      ensures c.handles[id].key == key && c.handles[id].hash == hash && c.handles[id].charge == charge
      ensures c.handles[id].inCache <==> c.capacity > 0
      ensures ClientsKeep(old(clients), clients) && c.capacity == old(c.capacity)
      ensures c.usage <= c.capacity || c.lru == []
      ensures exists mid, n: nat :: Inserted(old(c), NewHandle(key, hash, charge, c.capacity), n, mid, c)
      ensures released == old(released) && clock == old(clock)
    {
      id := c.next;
      hide Inv, InReleaseOrder, ReleasedFirst, Added, Dropped, Needed;
      AddNew(key, hash, charge);
      ghost var added := c.handles[id];
      ghost var mid, n, known := c, 0, clients;
      DropNone(c);
      while c.usage > c.capacity && c.lru != []
        invariant Dropped(mid, n, c) && Needed(mid, n)
        invariant Valid() && c.capacity == old(c.capacity) && ClientsKeep(old(clients), clients)
        invariant id in c.handles && c.handles[id] == added && id in clients && clients[id] == 1
        invariant released == old(released) && clock == old(clock)
        decreases |c.lru|
      {
        NotOldest(c, clients, id);
        ghost var was := c;
        EvictOldest();
        DroppedOne(was, c, id);
        DropMore(mid, known, n, was, c);
        n := n + 1;
      }
      assert Inserted(old(c), NewHandle(key, hash, charge, c.capacity), n, mid, c);
    }

    /** Everything Insert does before it makes room. */
    method AddNew(key: string, hash: nat, charge: nat)
      requires Valid()
      modifies this
      ensures Valid() && c.capacity == old(c.capacity) && ClientsKeep(old(clients), clients)
      ensures var id := old(c.next);
              && id !in old(c.handles) && id in c.handles && id in clients && clients[id] == 1
              && c.handles[id] == NewHandle(key, hash, charge, c.capacity)
      ensures Added(old(c), NewHandle(key, hash, charge, c.capacity), c)
      ensures released == old(released) && clock == old(clock)
    {
      hide Inv, InvBut, InReleaseOrder;
      if c.capacity > 0 {
        AddCached(Handle(key, hash, charge, 2, true));
      } else {
        var h := Handle(key, hash, charge, 1, false);
        NewUncached(c, clients, h);
        clients := clients[c.next := 1];
        c := c.(handles := c.handles[c.next := h], next := c.next + 1);
      }
    }

    /** The in-use list, the usage and the table take the new entry; an entry with the
        same key leaves the cache. */
    method AddCached(h: Handle)
      requires Valid() && h.refs == 2 && h.inCache
      modifies this
      ensures Valid() && c.capacity == old(c.capacity) && ClientsKeep(old(clients), clients)
      ensures var id := old(c.next);
              && id !in old(c.handles) && id in c.handles && id in clients && clients[id] == 1 && c.handles[id] == h
      ensures Added(old(c), h, c)
      ensures released == old(released) && clock == old(clock)
    {
      hide WellFormed, InvBut, FinishErase, Holds, InReleaseOrder;
      var id := c.next;
      TableOk(c, clients);
      var t, old_ := HandleTables.Insert(c.table, Item(h.key, h.hash, id));
      NewCached(c, clients, h, t, old_);
      SameKey(c, clients, Item(h.key, h.hash, id), old_);
      c := c.(handles := c.handles[id := h], inUse := c.inUse + [id], usage := c.usage + h.charge, table := t,
              next := id + 1);
      clients := clients[id := 1];
      if old_.Some? {
        Evicted(c, clients, old_.value.id);
        EraseOrder(c, old_.value.id, released, clock);
        SameTable(c, old_.value.id);
        c, clients := FinishErase(c, old_.value.id), Forget(clients, old_.value.id);
      }
    }

    method Prune()
      requires Valid()
      modifies this
      ensures Valid() && ClientsKeep(old(clients), clients) && c.lru == [] && Dropped(old(c), |old(c.lru)|, c)
    {
      hide Inv, Dropped, InReleaseOrder, ReleasedFirst;
      ghost var before, known, n := c, clients, 0;
      DropNone(c);
      while c.lru != []
        invariant Valid() && ClientsKeep(old(clients), clients) && Dropped(before, n, c)
        decreases |c.lru|
      {
        ghost var was := c;
        EvictOldest();
        DropShrinks(was, c);
        DropMore(before, known, n, was, c);
        n := n + 1;
      }
      AllDropped(before, n, c);
    }
  }

  // ---- The order of the list -------------------------------------------------------------------

  /** The list goes from the entry given back the longest ago to the one given back last. */
  ghost predicate InReleaseOrder(lru: seq<nat>, released: map<nat, nat>, clock: nat)
  {
    && (forall i :: 0 <= i < |lru| ==> lru[i] in released && released[lru[i]] < clock)
    && forall i, j :: 0 <= i < j < |lru| ==> released[lru[i]] < released[lru[j]]
  }

  /** The entry was given back before all those that stay. */
  ghost predicate ReleasedFirst(released: map<nat, nat>, id: nat, lru: seq<nat>)
  {
    id in released && forall x :: x in lru ==> x in released && released[id] < released[x]
  }

  lemma FirstReleased(lru: seq<nat>, released: map<nat, nat>, clock: nat)
    requires InReleaseOrder(lru, released, clock) && lru != []
    ensures ReleasedFirst(released, lru[0], lru[1..])
  {
  }

  lemma {:induction false} WithoutOrder(lru: seq<nat>, id: nat, released: map<nat, nat>, clock: nat)
    requires InReleaseOrder(lru, released, clock)
    ensures InReleaseOrder(Without(lru, id), released, clock)
    ensures forall x :: x in Without(lru, id) ==> x in lru
  {
    if lru != [] {
      var n := |lru| - 1;
      WithoutOrder(lru[..n], id, released, clock);
      var rest := Without(lru[..n], id);
      forall i | 0 <= i < |rest| ensures released[rest[i]] < released[lru[n]] {
        assert rest[i] in lru[..n];
        var j :| 0 <= j < n && lru[j] == rest[i];
      }
    }
  }

  lemma RefOrder(c: Cache, id: nat, released: map<nat, nat>, clock: nat)
    requires id in c.handles && InReleaseOrder(c.lru, released, clock)
    ensures InReleaseOrder(Ref(c, id).lru, released, clock)
  {
    hide InReleaseOrder;
    WithoutOrder(c.lru, id, released, clock);
  }

  lemma EraseOrder(c: Cache, id: nat, released: map<nat, nat>, clock: nat)
    requires id in c.handles && c.handles[id].refs > 0
    requires InReleaseOrder(c.lru, released, clock)
    ensures InReleaseOrder(FinishErase(c, id).lru, released, clock)
  {
    hide InReleaseOrder;
    WithoutOrder(c.lru, id, released, clock);
  }

  /** An entry that becomes idle is now the one given back last. */
  lemma UnrefOrder(c: Cache, id: nat, released: map<nat, nat>, clock: nat)
    requires id in c.handles && c.handles[id].refs > 0 && id !in c.lru
    requires InReleaseOrder(c.lru, released, clock)
    ensures InReleaseOrder(Unref(c, id).lru, released[id := clock], clock + 1)
  {
  }

  lemma BusyNotListed(c: Cache, clients: map<nat, nat>, id: nat)
    requires Inv(c, clients) && id in clients && clients[id] > 0
    ensures id !in c.lru
  {
  }

  function NewHandle(key: string, hash: nat, charge: nat, capacity: nat): Handle
  {
    Handle(key, hash, charge, if capacity > 0 then 2 else 1, capacity > 0)
  }

  lemma DroppedFirst(before: Cache, after: Cache)
    requires Dropped(before, 1, after)
    ensures after.lru == before.lru[1..]
  {
  }

  lemma DropShrinks(before: Cache, after: Cache)
    requires Dropped(before, 1, after)
    ensures |after.lru| < |before.lru| && after.capacity == before.capacity
  {
  }

  lemma DroppedOne(before: Cache, after: Cache, id: nat)
    requires Dropped(before, 1, after) && id in before.handles && id != before.lru[0]
    ensures id in after.handles && after.handles[id] == before.handles[id]
    ensures |after.lru| < |before.lru| && after.capacity == before.capacity
  {
  }

  lemma AllDropped(before: Cache, n: nat, after: Cache)
    requires Dropped(before, n, after) && after.lru == []
    ensures n == |before.lru|
  {
  }

  lemma TableOk(c: Cache, clients: map<nat, nat>)
    requires Inv(c, clients)
    ensures WellFormed(c.table)
  {
  }

  lemma KnownClient(c: Cache, clients: map<nat, nat>, id: nat)
    requires Inv(c, clients) && id in c.handles
    ensures id in clients
  {
    assert id in c.handles.Keys;
  }

  lemma KnownHandle(c: Cache, clients: map<nat, nat>, id: nat)
    requires Inv(c, clients) && id in clients
    ensures id in c.handles
  {
    assert id in clients.Keys;
  }

  lemma Evicted(c: Cache, clients: map<nat, nat>, id: nat)
    requires InvBut(c, clients, Some(id)) && id in c.handles && c.handles[id].inCache
    ensures c.handles[id].refs > 0 && id in clients
    ensures var d := FinishErase(c, id);
            && Inv(d, Forget(clients, id)) && ClientsKeep(clients, Forget(clients, id)) && d.capacity == c.capacity
            && d.deleted == (c.deleted + if clients[id] == 0 then [id] else [])
            && forall x :: x in c.handles && x != id ==> x in d.handles && d.handles[x] == c.handles[x]
  {
    EraseKeeps(c, clients, id);
  }

  lemma {:induction false} WithoutAbsent(s: seq<nat>, id: nat)
    requires id !in s
    ensures Without(s, id) == s
  {
    if s != [] {
      WithoutAbsent(s[..|s| - 1], id);
      assert s == s[..|s| - 1] + [s[|s| - 1]];
    }
  }

  lemma {:induction false} WithoutHead(s: seq<nat>)
    requires NoDuplicates(s) && s != []
    ensures Without(s, s[0]) == s[1..]
  {
    var n := |s| - 1;
    if n > 0 {
      WithoutHead(s[..n]);
      assert s[..n][0] == s[0] && s[n] != s[0];
      assert s[1..] == s[..n][1..] + [s[n]];
    } else {
      assert s[..0] == [] && s[1..] == [];
    }
  }

  lemma Oldest(c: Cache, clients: map<nat, nat>)
    requires Inv(c, clients) && c.lru != []
    ensures var id := c.lru[0];
            && id in c.handles && c.handles[id].inCache && c.handles[id].refs == 1 && id in clients && clients[id] == 0
            && Without(c.lru, id) == c.lru[1..] && Without(c.inUse, id) == c.inUse && id !in c.inUse
  {
    WithoutHead(c.lru);
    KnownClient(c, clients, c.lru[0]);
    WithoutAbsent(c.inUse, c.lru[0]);
  }

  lemma OldestDropped(c: Cache, clients: map<nat, nat>, t: Table)
    requires Inv(c, clients) && c.lru != [] && c.lru[0] in c.handles && c.handles[c.lru[0]].refs > 0
    ensures Dropped(c, 1, FinishErase(c.(table := t), c.lru[0]))
  {
    hide Inv, Charges, Without;
    Oldest(c, clients);
    OneCharge(c.lru[0], c.handles);
    assert c.lru[..1] == [c.lru[0]];
  }

  lemma InItsTable(c: Cache, clients: map<nat, nat>, id: nat)
    requires Inv(c, clients) && id in c.handles && c.handles[id].inCache
    ensures Holds(c.table.list, ItemOf(c.handles, id))
  {
  }

  lemma SameItem(c: Cache, clients: map<nat, nat>, i: Item, id: nat)
    requires Inv(c, clients) && id in c.handles && c.handles[id].inCache
    requires Holds(c.table.list, i) && WantedBy(i) == WantedBy(ItemOf(c.handles, id))
    ensures i == ItemOf(c.handles, id)
  {
    InItsTable(c, clients, id);
    OneAnswer(c.table, i, ItemOf(c.handles, id));
  }

  lemma NotOldest(c: Cache, clients: map<nat, nat>, id: nat)
    requires Inv(c, clients) && c.lru != [] && id in clients && clients[id] > 0
    ensures c.lru[0] != id
  {
    Oldest(c, clients);
  }

  /** A new entry, on the in-use list and in the table. */
  lemma NewCached(c: Cache, clients: map<nat, nat>, h: Handle, t: Table, old_: Option<Item>)
    requires Inv(c, clients) && h.refs == 2 && h.inCache && WellFormed(t)
    requires var item := Item(h.key, h.hash, c.next);
             && (forall i :: Holds(t.list, i) <==>
                 i == item || (Holds(c.table.list, i) && WantedBy(i) != WantedBy(item)))
             && (old_.Some? ==> Holds(c.table.list, old_.value) && WantedBy(old_.value) == WantedBy(item))
             && (old_.None? ==> forall i :: Holds(c.table.list, i) ==> WantedBy(i) != WantedBy(item))
    ensures var d := c.(handles := c.handles[c.next := h], inUse := c.inUse + [c.next], usage := c.usage + h.charge,
                        table := t, next := c.next + 1);
            && c.next !in c.handles
            && InvBut(d, clients[c.next := 1], if old_.Some? then Some(old_.value.id) else None)
            && (old_.Some? ==> old_.value.id in c.handles && c.handles[old_.value.id].inCache &&
                               old_.value.id != c.next)
            && ClientsKeep(clients, clients[c.next := 1])
  {
    NewCounted(c.handles, clients, c.deleted, c.next, h, 1);
    NewListed(c, clients, h);
    NewTabled(c, clients, h, t, old_);
    if old_.Some? { Replaced(c, clients, old_.value); }
    hide Listed, Charged, Tabled, WellFormed, Counted, Accounted;
  }

  /** What the table replaced is the handle of the cache with that key. */
  lemma SameKey(c: Cache, clients: map<nat, nat>, item: Item, old_: Option<Item>)
    requires Inv(c, clients)
    requires old_.Some? ==> Holds(c.table.list, old_.value) && WantedBy(old_.value) == WantedBy(item)
    requires old_.None? ==> forall i :: Holds(c.table.list, i) ==> WantedBy(i) != WantedBy(item)
    ensures old_.Some? ==> Asked(c.handles, item.key, item.hash, old_.value.id) && c.handles[old_.value.id].refs > 0
    ensures old_.None? ==> forall id :: !Asked(c.handles, item.key, item.hash, id)
  {
    hide Listed, Charged, Accounted, WellFormed;
    if old_.None? {
      forall id | id in c.handles && c.handles[id].inCache
        ensures !(c.handles[id].key == item.key && c.handles[id].hash == item.hash)
      {
        assert Holds(c.table.list, ItemOf(c.handles, id));
      }
    }
  }

  lemma NewCounted(handles: map<nat, Handle>, clients: map<nat, nat>, deleted: seq<nat>, next: nat, h: Handle,
                   refs: nat)
    requires Counted(handles, clients) && Accounted(handles, deleted, next)
    requires h.refs == refs + if h.inCache then 1 else 0
    requires refs > 0
    ensures next !in handles && next !in clients
    ensures Counted(handles[next := h], clients[next := refs]) && Accounted(handles[next := h], deleted, next + 1)
    ensures ClientsKeep(clients, clients[next := refs])
  {
    assert next !in handles;
    assert handles[next := h].Keys == handles.Keys + {next};
    assert clients[next := refs].Keys == clients.Keys + {next};
    assert next !in clients by { assert next !in handles.Keys; }
  }

  lemma Replaced(c: Cache, clients: map<nat, nat>, i: Item)
    requires Inv(c, clients) && Holds(c.table.list, i)
    ensures i.id in c.handles && c.handles[i.id].inCache && i.id != c.next
  {
  }

  lemma NewListed(c: Cache, clients: map<nat, nat>, h: Handle)
    requires Inv(c, clients) && h.refs == 2 && h.inCache
    ensures var g := c.handles[c.next := h];
            Listed(c.lru, c.inUse + [c.next], g) && Charged(c.usage + h.charge, c.lru, c.inUse + [c.next], g)
  {
    hide Tabled, Counted, Charges;
    var g := c.handles[c.next := h];
    AppendApart(c.inUse, c.next);
    AppendCharges(c.inUse, c.next, g);
    SameCharges(c.lru, c.handles, g);
    SameCharges(c.inUse, c.handles, g);
  }

  lemma NewTabled(c: Cache, clients: map<nat, nat>, h: Handle, t: Table, old_: Option<Item>)
    requires Inv(c, clients) && h.refs == 2 && h.inCache && WellFormed(t)
    requires var item := Item(h.key, h.hash, c.next);
             && (forall i :: Holds(t.list, i) <==>
                 i == item || (Holds(c.table.list, i) && WantedBy(i) != WantedBy(item)))
             && (old_.Some? ==> Holds(c.table.list, old_.value) && WantedBy(old_.value) == WantedBy(item))
             && (old_.None? ==> forall i :: Holds(c.table.list, i) ==> WantedBy(i) != WantedBy(item))
    ensures Tabled(t, c.handles[c.next := h], if old_.Some? then Some(old_.value.id) else None)
  {
    hide Listed, Charged, Counted, WellFormed;
    var g, item := c.handles[c.next := h], Item(h.key, h.hash, c.next);
    assert c.next !in c.handles && ItemOf(g, c.next) == item;
    forall id | id in g && g[id].inCache && (old_.None? || id != old_.value.id) ensures Holds(t.list, ItemOf(g, id)) {
      if id != c.next {
        assert Holds(c.table.list, ItemOf(c.handles, id));
        if old_.Some? && WantedBy(ItemOf(c.handles, id)) == WantedBy(item) {
          OneAnswer(c.table, ItemOf(c.handles, id), old_.value);
        }
      }
    }
  }

  lemma NewUncached(c: Cache, clients: map<nat, nat>, h: Handle)
    requires Inv(c, clients) && h.refs == 1 && !h.inCache
    ensures c.next !in c.handles
    ensures Inv(c.(handles := c.handles[c.next := h], next := c.next + 1), clients[c.next := 1])
    ensures ClientsKeep(clients, clients[c.next := 1])
  {
    NewCounted(c.handles, clients, c.deleted, c.next, h, 1);
    var g := c.handles[c.next := h];
    StaysListed(c.lru, c.inUse, c.usage, c.handles, g);
    SameTabled(c.table, c.handles, g, None);
    hide Listed, Charged, Tabled, Counted, Accounted;
  }
}
