/**
 Write batches: their encoding, and inserting them into a memtable
 (db/write_batch.cc).
 */
module WriteBatches {
  import opened Keys
  import opened Coding
  import Seqs

  type Bytes = seq<Byte>

  /** One update of a batch. */
  datatype Update = Put(key: Bytes, value: Bytes) | Delete(key: Bytes)

  /** An entry as MemTable::Add receives it. */
  datatype MemEntry = MemEntry(sn: nat, kind: Kind, key: Bytes, value: Bytes)

  /** 8-byte sequence number, 4-byte count. */
  const HEADER: nat := 12

  const TAG_DELETION: Byte := 0
  const TAG_VALUE: Byte := 1

  /** Lengths are written as 32-bit varints. */
  predicate Encodable(u: Update)
  {
    |u.key| < TWO_32 && (u.Put? ==> |u.value| < TWO_32)
  }

  function EncodeUpdate(u: Update): (s: Bytes)
    ensures |s| > 0
  {
    match u
    case Put(k, v) => [TAG_VALUE] + LengthPrefixed(k) + LengthPrefixed(v)
    case Delete(k) => [TAG_DELETION] + LengthPrefixed(k)
  }

  function Body(us: seq<Update>): Bytes
  {
    if us == [] then [] else EncodeUpdate(us[0]) + Body(us[1..])
  }

  /** The count is a 32-bit field. */
  function Wrap(n: nat): nat
  {
    n % TWO_32
  }

  function Encode(sn: nat, us: seq<Update>): (s: Bytes)
    ensures |s| >= HEADER
  {
    LittleEndian(sn, 8) + LittleEndian(Wrap(|us|), 4) + Body(us)
  }

  function Sequence(rep: Bytes): nat
    requires |rep| >= HEADER
  {
    FromLittleEndian(rep[..8])
  }

  function Count(rep: Bytes): nat
    requires |rep| >= HEADER
  {
    FromLittleEndian(rep[8..12])
  }

  lemma HeaderRoundTrip(sn: nat, us: seq<Update>)
    requires sn < TWO_64
    ensures Sequence(Encode(sn, us)) == sn && Count(Encode(sn, us)) == Wrap(|us|)
  {
    hide LittleEndian, FromLittleEndian;
    Powers();
    LittleEndianRoundTrip(sn, 8);
    LittleEndianRoundTrip(Wrap(|us|), 4);
    var rep := Encode(sn, us);
    assert rep[..8] == LittleEndian(sn, 8) && rep[8..12] == LittleEndian(Wrap(|us|), 4);
  }

  // ---- Reading a batch ------------------------------------------------------------------

  /** One update at the start of the input, and what is left. */
  function ParseUpdate(input: Bytes): (r: Option<(Update, Bytes)>)
    requires input != []
    ensures r.Some? ==> |r.value.1| < |input|
  {
    var tag, rest := input[0], input[1..];
    if tag == TAG_VALUE then
      var k := GetLengthPrefixed(rest);
      if k.None? then None
      else
        var v := GetLengthPrefixed(k.value.1);
        if v.None? then None else Some((Update.Put(k.value.0, v.value.0), v.value.1))
    else if tag == TAG_DELETION then
      var k := GetLengthPrefixed(rest);
      if k.None? then None else Some((Delete(k.value.0), k.value.1))
    else None
  }

  /** The updates handed to the handler, and whether the input ended cleanly. */
  function ParseBody(input: Bytes): (seq<Update>, bool)
    decreases |input|
  {
    if input == [] then ([], true)
    else
      var u := ParseUpdate(input);
      if u.None? then ([], false)
      else
        var rest := ParseBody(u.value.1);
        ([u.value.0] + rest.0, rest.1)
  }

  lemma UpdateRoundTrip(u: Update, rest: Bytes)
    requires Encodable(u)
    ensures ParseUpdate(EncodeUpdate(u) + rest) == Some((u, rest))
  {
    hide GetLengthPrefixed, LengthPrefixed;
    var input := EncodeUpdate(u) + rest;
    match u {
      case Put(k, v) =>
        assert input[1..] == LengthPrefixed(k) + (LengthPrefixed(v) + rest);
        LengthPrefixedRoundTrip(k, LengthPrefixed(v) + rest);
        LengthPrefixedRoundTrip(v, rest);
      case Delete(k) =>
        assert input[1..] == LengthPrefixed(k) + rest;
        LengthPrefixedRoundTrip(k, rest);
    }
  }

  lemma {:induction false} BodyRoundTrip(us: seq<Update>)
    requires forall u :: u in us ==> Encodable(u)
    ensures ParseBody(Body(us)) == (us, true)
  {
    hide EncodeUpdate, ParseUpdate;
    if us != [] {
      UpdateRoundTrip(us[0], Body(us[1..]));
      BodyRoundTrip(us[1..]);
      assert us == [us[0]] + us[1..];
    }
  }

  lemma {:induction false} BodyConcat(a: seq<Update>, b: seq<Update>)
    ensures Body(a + b) == Body(a) + Body(b)
  {
    hide EncodeUpdate;
    if a == [] {
      assert a + b == b;
    } else {
      assert (a + b)[0] == a[0] && (a + b)[1..] == a[1..] + b;
      BodyConcat(a[1..], b);
      Seqs.Associative(EncodeUpdate(a[0]), Body(a[1..]), Body(b));
    }
  }

  /** WriteBatch::Iterate with the handler's calls as the result: on an error the calls
      made before it are still there. */
  method Iterate(rep: Bytes) returns (us: seq<Update>, ok: bool)
    ensures |rep| < HEADER ==> us == [] && !ok
    ensures |rep| >= HEADER ==> us == ParseBody(rep[HEADER..]).0
    ensures |rep| >= HEADER ==> ok == (ParseBody(rep[HEADER..]).1 && Wrap(|us|) == Count(rep))
  {
    hide ParseUpdate, Count;
    if |rep| < HEADER { return [], false; }
    var input, found := rep[HEADER..], 0;
    us := [];
    while input != []
      invariant found == |us|
      invariant us + ParseBody(input).0 == ParseBody(rep[HEADER..]).0 &&
                ParseBody(input).1 == ParseBody(rep[HEADER..]).1
      decreases |input|
    {
      found := found + 1;
      var u := ParseUpdate(input);
      if u.None? {
        Seqs.RightEmpty(us);
        return us, false;
      }
      Seqs.Associative(us, [u.value.0], ParseBody(u.value.1).0);
      us, input := us + [u.value.0], u.value.1;
    }
    Seqs.RightEmpty(us);
    ok := Wrap(found) == Count(rep);
  }

  // ---- Building a batch ----------------------------------------------------------------------

  class WriteBatch {
    var rep: Bytes
    ghost var sn: nat
    ghost var updates: seq<Update>

    ghost predicate Valid()
      reads this
    {
      sn < TWO_64 && rep == Encode(sn, updates)
    }

    constructor ()
      ensures Valid() && sn == 0 && updates == []
    {
      rep := seq(HEADER, i => 0);
      sn, updates := 0, [];
      new;
      ZeroHeader();
    }

    method SetCount(n: nat)
      requires |rep| >= HEADER
      modifies this`rep
      ensures rep == old(rep)[..8] + LittleEndian(Wrap(n), 4) + old(rep)[12..]
    {
      rep := rep[..8] + LittleEndian(Wrap(n), 4) + rep[12..];
    }

    method SetSequence(s: nat)
      requires Valid() && s < TWO_64
      modifies this
      ensures Valid() && sn == s && updates == old(updates)
    {
      hide LittleEndian, Body;
      rep := LittleEndian(s, 8) + rep[8..];
      sn := s;
    }

    method Put(key: Bytes, value: Bytes)
      requires Valid()
      modifies this
      ensures Valid() && sn == old(sn) && updates == old(updates) + [Update.Put(key, value)]
    {
      Add(Update.Put(key, value));
    }

    method Delete(key: Bytes)
      requires Valid()
      modifies this
      ensures Valid() && sn == old(sn) && updates == old(updates) + [Update.Delete(key)]
    {
      Add(Update.Delete(key));
    }

    /** The count is patched in place, then the update appended. */
    method Add(u: Update)
      requires Valid()
      modifies this
      ensures Valid() && sn == old(sn) && updates == old(updates) + [u]
    {
      hide Encode, EncodeUpdate, Count, LittleEndian, Wrap;
      WrapSum(|updates|, 1);
      HeaderRoundTrip(sn, updates);
      Extended(sn, updates, [u]);
      SetCount(Count(rep) + 1);
      rep := rep + EncodeUpdate(u);
      OneUpdate(u);
      updates := updates + [u];
    }

    /** Group commit: another batch's updates go after this one's. */
    method Append(source: WriteBatch)
      requires Valid() && source.Valid() && source != this
      modifies this
      ensures Valid() && sn == old(sn) && updates == old(updates) + source.updates
    {
      hide Encode, Body, Count, LittleEndian, Wrap;
      WrapSum(|updates|, |source.updates|);
      HeaderRoundTrip(sn, updates);
      HeaderRoundTrip(source.sn, source.updates);
      Extended(sn, updates, source.updates);
      SetCount(Count(rep) + Count(source.rep));
      rep := rep + source.rep[HEADER..];
      BodyOf(source.sn, source.updates);
      updates := updates + source.updates;
    }
  }

  lemma ZeroHeader()
    ensures seq(HEADER, i => 0) == Encode(0, [])
  {
    ZeroBytes(8);
    ZeroBytes(4);
  }

  lemma {:induction false} ZeroBytes(n: nat)
    ensures LittleEndian(0, n) == seq(n, i => 0)
  {
    if n > 0 { ZeroBytes(n - 1); }
  }

  lemma WrapSum(a: nat, b: nat)
    ensures Wrap(Wrap(a) + Wrap(b)) == Wrap(a + b) && Wrap(Wrap(a) + b) == Wrap(a + b)
  {
    hide Wrap;
    WrapShift(Wrap(a) + Wrap(b), a / TWO_32 + b / TWO_32);
    WrapShift(Wrap(a) + b, a / TWO_32);
    WrapSplit(a);
    WrapSplit(b);
  }

  lemma WrapSplit(a: nat)
    ensures a == Wrap(a) + TWO_32 * (a / TWO_32)
  {
  }

  lemma {:induction false} WrapShift(x: nat, k: nat)
    ensures Wrap(x + TWO_32 * k) == Wrap(x)
  {
    if k > 0 {
      WrapShift(x, k - 1);
      WrapOnce(x + TWO_32 * (k - 1));
    }
  }

  lemma WrapOnce(x: nat)
    ensures Wrap(x + TWO_32) == Wrap(x)
  {
  }

  lemma OneUpdate(u: Update)
    ensures Body([u]) == EncodeUpdate(u)
  {
    hide EncodeUpdate;
    assert [u][1..] == [];
    Seqs.RightEmpty(EncodeUpdate(u));
  }

  lemma BodyOf(sn: nat, us: seq<Update>)
    ensures Encode(sn, us)[HEADER..] == Body(us)
  {
  }

  /** Patching the count and appending the new updates is the encoding of them all. */
  lemma Extended(sn: nat, us: seq<Update>, more: seq<Update>)
    ensures var rep := Encode(sn, us);
            rep[..8] + LittleEndian(Wrap(|us| + |more|), 4) + rep[12..] + Body(more) == Encode(sn, us + more)
  {
    hide LittleEndian, Body, Wrap;
    BodyConcat(us, more);
    Patched(sn, Wrap(|us|), Wrap(|us| + |more|), Body(us), Body(more));
  }

  lemma Patched(sn: nat, n: nat, m: nat, body: Bytes, more: Bytes)
    ensures var rep := LittleEndian(sn, 8) + LittleEndian(n, 4) + body;
            rep[..8] + LittleEndian(m, 4) + rep[12..] + more == LittleEndian(sn, 8) + LittleEndian(m, 4) + (body + more)
  {
    hide LittleEndian;
    var rep := LittleEndian(sn, 8) + LittleEndian(n, 4) + body;
    assert rep[..8] == LittleEndian(sn, 8) && rep[12..] == body;
    Seqs.Associative(LittleEndian(sn, 8) + LittleEndian(m, 4), body, more);
  }

  // ---- Inserting into a memtable -------------------------------------------------------------

  function EntryOf(sn: nat, u: Update): MemEntry
  {
    match u
    case Put(k, v) => MemEntry(sn, Kind.Put, k, v)
    case Delete(k) => MemEntry(sn, Deletion, k, [])
  }

  /** Consecutive sequence numbers from sn on. */
  function Entries(sn: nat, us: seq<Update>): (es: seq<MemEntry>)
    ensures |es| == |us|
  {
    seq(|us|, i requires 0 <= i < |us| => EntryOf(sn + i, us[i]))
  }
}
