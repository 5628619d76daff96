/**
 The format of a data block: prefix-compressed entries with restart points
 (table/block_builder.cc, DecodeEntry in table/block.cc).
 */
module BlockFormat {
  import opened Keys
  import opened Coding
  import Seqs

  type Bytes = seq<Byte>

  /** An entry of a block: any key and value. */
  datatype KeyValue = KeyValue(key: Bytes, value: Bytes)

  // ---- Encoding -------------------------------------------------------------------------

  /** Length of the common prefix. */
  function Shared(a: Bytes, b: Bytes): (n: nat)
    ensures n <= |a| && n <= |b| && a[..n] == b[..n]
  {
    if a == [] || b == [] || a[0] != b[0] then 0
    else
      var n := 1 + Shared(a[1..], b[1..]);
      assert a[..n] == [a[0]] + a[1..][..n - 1] && b[..n] == [b[0]] + b[1..][..n - 1];
      n
  }

  function Lengths(shared: nat, nonShared: nat, valueLength: nat): (s: Bytes)
    ensures |s| >= 3
  {
    Varint(shared) + (Varint(nonShared) + Varint(valueLength))
  }

  function EncodeEntry(shared: nat, e: KeyValue): (s: Bytes)
    requires shared <= |e.key|
    ensures |s| >= 3
  {
    Lengths(shared, |e.key| - shared, |e.value|) + (e.key[shared..] + e.value)
  }

  /** Restart points are entry numbers, 0 first; an empty block has one too. */
  ghost predicate RestartPoints(points: seq<nat>, n: nat)
  {
    && points != [] && points[0] == 0
    && (forall i, j :: 0 <= i < j < |points| ==> points[i] < points[j])
    && (forall k :: 0 <= k < |points| ==> points[k] <= n && (n > 0 ==> points[k] < n))
  }

  /** An entry at a restart point stores its key in full. */
  function SharedAt(es: seq<KeyValue>, points: seq<nat>, i: nat): (n: nat)
    requires i < |es|
    ensures n <= |es[i].key| && (i > 0 ==> n <= |es[i - 1].key| && es[i - 1].key[..n] == es[i].key[..n]) &&
            (i == 0 ==> n == 0)
  {
    if i == 0 || i in points then 0 else Shared(es[i - 1].key, es[i].key)
  }

  /** The first n entries. */
  function Body(es: seq<KeyValue>, points: seq<nat>, n: nat): Bytes
    requires n <= |es|
  {
    if n == 0 then [] else Body(es, points, n - 1) + EncodeEntry(SharedAt(es, points, n - 1), es[n - 1])
  }

  /** Offset of the i-th entry. */
  function Offset(es: seq<KeyValue>, points: seq<nat>, i: nat): nat
    requires i <= |es|
  {
    |Body(es, points, i)|
  }

  function RestartOffsets(es: seq<KeyValue>, points: seq<nat>): (xs: seq<nat>)
    requires RestartPoints(points, |es|)
    ensures |xs| == |points|
  {
    seq(|points|, k requires 0 <= k < |points| => Offset(es, points, points[k]))
  }

  /** The entries, the offsets of the restart points and their number. */
  function Encoded(es: seq<KeyValue>, points: seq<nat>): Bytes
    requires RestartPoints(points, |es|)
  {
    Body(es, points, |es|) + (Fixed32s(RestartOffsets(es, points)) + LittleEndian(|points| % TWO_32, 4))
  }

  // ---- The builder ---------------------------------------------------------------------------

  /** More entries and restart points leave the encoding of the earlier ones alone. */
  lemma {:induction false} BodyPrefix(es: seq<KeyValue>, points: seq<nat>, es': seq<KeyValue>, points': seq<nat>,
                                      n: nat)
    requires n <= |es| <= |es'| && es <= es'
    requires forall i :: 0 <= i < n ==> (i in points <==> i in points')
    ensures Body(es, points, n) == Body(es', points', n)
  {
    if n > 0 {
      BodyPrefix(es, points, es', points', n - 1);
      assert es[n - 1] == es'[n - 1] && (n > 1 ==> es[n - 2] == es'[n - 2]);
    }
  }

  /** A restart point every interval entries. */
  ghost predicate Built(interval: nat, buffer: Bytes, restarts: seq<nat>, counter: nat, lastKey: Bytes,
                        es: seq<KeyValue>, points: seq<nat>)
  {
    && interval > 0 && RestartPoints(points, |es|)
    && buffer == Body(es, points, |es|) && restarts == RestartOffsets(es, points)
    && counter <= interval && |es| == points[|points| - 1] + counter
    && (forall k :: 0 < k < |points| ==> points[k] == points[k - 1] + interval)
    && lastKey == if es == [] then [] else es[|es| - 1].key
  }

  class BlockBuilder {
    const interval: nat
    var buffer: Bytes
    var restarts: seq<nat>
    var counter: nat
    var lastKey: Bytes
    ghost var es: seq<KeyValue>
    ghost var points: seq<nat>

    ghost predicate Valid()
      reads this
    {
      Built(interval, buffer, restarts, counter, lastKey, es, points)
    }

    constructor (interval: nat)
      requires interval >= 1
      ensures Valid() && es == [] && this.interval == interval
    {
      this.interval := interval;
      buffer, restarts, counter, lastKey := [], [0], 0, [];
      es, points := [], [0];
      new;
      assert RestartOffsets([], [0]) == [0];
    }

    method Reset()
      requires Valid()
      modifies this
      ensures Valid() && es == []
    {
      buffer, restarts, counter, lastKey := [], [0], 0, [];
      es, points := [], [0];
      assert RestartOffsets([], [0]) == [0];
    }

    method Add(key: Bytes, value: Bytes)
      requires Valid()
      modifies this
      ensures Valid() && es == old(es) + [KeyValue(key, value)]
    {
      hide Built, EncodeEntry;
      ghost var e, before := KeyValue(key, value), counter;
      var shared := 0;
      if counter < interval {
        shared := CommonPrefix(lastKey, key);
      } else {
        restarts := restarts + [|buffer|];
        counter := 0;
      }
      AddedBuilt(interval, buffer, old(restarts), before, lastKey, es, points, e, shared);
      buffer := AppendEntry(buffer, shared, key, value);
      lastKey := lastKey[..shared] + key[shared..];
      points := if before < interval then points else points + [|es|];
      counter, es := counter + 1, es + [e];
    }

    method Finish() returns (block: Bytes)
      requires Valid()
      modifies this`buffer
      ensures block == Encoded(es, points)
    {
      hide Body, LittleEndian, RestartOffsets;
      ghost var was := buffer;
      Seqs.RightEmpty(buffer);
      assert restarts[..0] == [];
      for i := 0 to |restarts|
        invariant buffer == was + Fixed32s(restarts[..i])
      {
        assert restarts[..i + 1][..i] == restarts[..i];
        Seqs.Associative(was, Fixed32s(restarts[..i]), LittleEndian(restarts[i] % TWO_32, 4));
        buffer := buffer + LittleEndian(restarts[i] % TWO_32, 4);
      }
      assert restarts[..|restarts|] == restarts;
      Seqs.Associative(was, Fixed32s(restarts), LittleEndian(|restarts| % TWO_32, 4));
      buffer := buffer + LittleEndian(|restarts| % TWO_32, 4);
      block := buffer;
    }
  }

  method CommonPrefix(a: Bytes, b: Bytes) returns (n: nat)
    ensures n == Shared(a, b)
  {
    var minLength := if |a| < |b| then |a| else |b|;
    n := 0;
    assert a[0..] == a && b[0..] == b;
    while n < minLength && a[n] == b[n]
      invariant n <= minLength && Shared(a, b) == n + Shared(a[n..], b[n..])
    {
      assert a[n..][1..] == a[n + 1..] && b[n..][1..] == b[n + 1..];
      n := n + 1;
    }
  }

  lemma AddedBuilt(interval: nat, buffer: Bytes, restarts: seq<nat>, counter: nat, lastKey: Bytes, es: seq<KeyValue>,
                   points: seq<nat>, e: KeyValue, shared: nat)
    requires Built(interval, buffer, restarts, counter, lastKey, es, points)
    requires shared == if counter < interval then Shared(lastKey, e.key) else 0
    ensures shared <= |lastKey| && shared <= |e.key|
    ensures Built(interval, buffer + EncodeEntry(shared, e),
                  if counter < interval then restarts else restarts + [|buffer|],
                  if counter < interval then counter + 1 else 1, lastKey[..shared] + e.key[shared..], es + [e],
                  if counter < interval then points else points + [|es|])
  {
    hide Body, EncodeEntry, RestartOffsets, RestartPoints, Shared;
    NonEmptyPoints(points, |es|);
    if counter < interval {
      Added(es, points, e, points, interval, counter, shared);
      Seqs.RightEmpty(restarts);
      SharedPart(lastKey, e.key);
    } else {
      Added(es, points, e, points + [|es|], interval, counter, 0);
      assert lastKey[..0] + e.key[0..] == e.key;
    }
  }

  lemma NonEmptyPoints(points: seq<nat>, n: nat)
    requires RestartPoints(points, n)
    ensures points != []
  {
  }

  lemma SharedPart(a: Bytes, b: Bytes)
    ensures Shared(a, b) <= |a| && Shared(a, b) <= |b| && a[..Shared(a, b)] + b[Shared(a, b)..] == b
  {
    hide Shared;
    Seqs.TakeDrop(b, Shared(a, b));
  }

  /** "<shared><non_shared><value_size>", the rest of the key, the value. */
  method AppendEntry(buffer: Bytes, shared: nat, key: Bytes, value: Bytes) returns (r: Bytes)
    requires shared <= |key|
    ensures r == buffer + EncodeEntry(shared, KeyValue(key, value))
  {
    hide Varint;
    var nonShared := |key| - shared;
    r := buffer + Varint(shared);
    r := r + Varint(nonShared);
    r := r + Varint(|value|);
    Pieces(buffer, shared, nonShared, |value|);
    r := r + key[shared..];
    r := r + value;
    Seqs.Associative(buffer + Lengths(shared, nonShared, |value|), key[shared..], value);
    Seqs.Associative(buffer, Lengths(shared, nonShared, |value|), key[shared..] + value);
  }

  lemma Pieces(buffer: Bytes, shared: nat, nonShared: nat, valueLength: nat)
    ensures buffer + Varint(shared) + Varint(nonShared) + Varint(valueLength) ==
            buffer + Lengths(shared, nonShared, valueLength)
  {
    hide Varint;
    Seqs.Associative(buffer + Varint(shared), Varint(nonShared), Varint(valueLength));
    Seqs.Associative(buffer, Varint(shared), Varint(nonShared) + Varint(valueLength));
  }

  /** What one more entry does to the encoding so far. */
  lemma Added(es: seq<KeyValue>, points: seq<nat>, e: KeyValue, points': seq<nat>, interval: nat, counter: nat,
              shared: nat)
    requires RestartPoints(points, |es|) && interval > 0 && counter <= interval &&
             |es| == points[|points| - 1] + counter
    requires points' == if counter < interval then points else points + [|es|]
    requires shared == if counter < interval then Shared(if es == [] then [] else es[|es| - 1].key, e.key) else 0
    ensures RestartPoints(points', |es| + 1)
    ensures Body(es + [e], points', |es| + 1) == Body(es, points, |es|) + EncodeEntry(shared, e)
    ensures RestartOffsets(es + [e], points') ==
            RestartOffsets(es, points) + if counter < interval then [] else [|Body(es, points, |es|)|]
  {
    LastShared(es, points, e, points', interval, counter, shared);
    hide EncodeEntry, SharedAt;
    var es', n := es + [e], |es|;
    BodyPrefix(es, points, es', points', n);
    assert Body(es', points', n + 1) == Body(es', points', n) + EncodeEntry(SharedAt(es', points', n), es'[n]);
    AddedOffsets(es, points, e, points', counter < interval);
  }

  lemma AddedOffsets(es: seq<KeyValue>, points: seq<nat>, e: KeyValue, points': seq<nat>, same: bool)
    requires RestartPoints(points, |es|) && RestartPoints(points', |es| + 1)
    requires points' == if same then points else points + [|es|]
    ensures RestartOffsets(es + [e], points') ==
            RestartOffsets(es, points) + if same then [] else [|Body(es, points, |es|)|]
  {
    hide Body;
    var es', n := es + [e], |es|;
    forall k | 0 <= k < |points| ensures Offset(es', points', points[k]) == Offset(es, points, points[k]) {
      BodyPrefix(es, points, es', points', points[k]);
    }
    BodyPrefix(es, points, es', points', n);
  }

  lemma LastShared(es: seq<KeyValue>, points: seq<nat>, e: KeyValue, points': seq<nat>, interval: nat, counter: nat,
                   shared: nat)
    requires RestartPoints(points, |es|) && interval > 0 && counter <= interval &&
             |es| == points[|points| - 1] + counter
    requires points' == if counter < interval then points else points + [|es|]
    requires shared == if counter < interval then Shared(if es == [] then [] else es[|es| - 1].key, e.key) else 0
    ensures SharedAt(es + [e], points', |es|) == shared
  {
    var n := |es|;
    if counter < interval {
      assert n > 0 ==> n !in points;
    } else {
      assert points'[|points|] == n;
    }
  }

  // ---- DecodeEntry --------------------------------------------------------------------------------

  datatype Decoded = Decoded(shared: nat, nonShared: nat, valueLength: nat, used: nat)

  /** The three lengths as varints. */
  function SlowLengths(s: Bytes): (r: Option<Decoded>)
    ensures r.Some? ==> 0 < r.value.used <= |s|
  {
    var a := GetVarint32(s);
    if a.None? then None
    else
      var b := GetVarint32(a.value.1);
      if b.None? then None
      else
        var c := GetVarint32(b.value.1);
        if c.None? then None else Some(Decoded(a.value.0, b.value.0, c.value.0, |s| - |c.value.1|))
  }

  /** An entry at the start of s, which ends at the limit. */
  function DecodeEntry(s: Bytes): (r: Option<Decoded>)
    ensures r.Some? ==> r.value.used > 0 && r.value.used + r.value.nonShared + r.value.valueLength <= |s|
  {
    if |s| < 3 then None
    else
      var d := if s[0] < 128 && s[1] < 128 && s[2] < 128 then Some(Decoded(s[0], s[1], s[2], 3)) else SlowLengths(s);
      if d.None? then None
      else if |s| - d.value.used < d.value.nonShared + d.value.valueLength then None
      else d
  }

  /** The one-byte path decodes what the varints do. */
  lemma FastIsSlow(s: Bytes)
    requires |s| >= 3 && s[0] < 128 && s[1] < 128 && s[2] < 128
    ensures SlowLengths(s) == Some(Decoded(s[0], s[1], s[2], 3))
  {
    OneByte(s);
    OneByte(s[1..]);
    OneByte(s[1..][1..]);
  }

  lemma EntryDecodes(shared: nat, e: KeyValue, rest: Bytes)
    requires shared <= |e.key| && |e.key| + |e.value| < TWO_32
    ensures DecodeEntry(EncodeEntry(shared, e) + rest)
         == Some(Decoded(shared, |e.key| - shared, |e.value|, |Lengths(shared, |e.key| - shared, |e.value|)|))
  {
    hide GetVarint32, Varint;
    var n, v := |e.key| - shared, |e.value|;
    var tail := e.key[shared..] + e.value + rest;
    var s := EncodeEntry(shared, e) + rest;
    EntryLayout(shared, e, rest);
    GetVarint32RoundTrip(shared, Varint(n) + Varint(v) + tail);
    GetVarint32RoundTrip(n, Varint(v) + tail);
    GetVarint32RoundTrip(v, tail);
    Seqs.Associative(Varint(n), Varint(v), tail);
    assert SlowLengths(s) == Some(Decoded(shared, n, v, |Lengths(shared, n, v)|));
    if s[0] < 128 && s[1] < 128 && s[2] < 128 { FastIsSlow(s); }
  }

  lemma EntryLayout(shared: nat, e: KeyValue, rest: Bytes)
    requires shared <= |e.key|
    ensures var n, v := |e.key| - shared, |e.value|;
            var tail := e.key[shared..] + e.value + rest;
            && EncodeEntry(shared, e) + rest == Varint(shared) + (Varint(n) + Varint(v) + tail)
            && |EncodeEntry(shared, e) + rest| == |Lengths(shared, n, v)| + |tail|
  {
    hide Varint;
    var n, v := |e.key| - shared, |e.value|;
    var data := e.key[shared..] + e.value;
    Seqs.Associative(Lengths(shared, n, v), data, rest);
    Seqs.Associative(Varint(shared), Varint(n) + Varint(v), data + rest);
  }
}
