/**
 Iterating over a block: forward, backward and by seek, with the current position as a
 hint (Block::Iter in table/block.cc).
 */
module BlockIter {
  import opened Keys
  import opened Coding
  import opened BlockFormat
  import Seqs

  /** The comparator: a strict total order. */
  type Order = (Bytes, Bytes) -> bool

  ghost predicate TotalOrder(less: Order)
  {
    && (forall a, b :: less(a, b) ==> !less(b, a))
    && (forall a, b :: a != b ==> less(a, b) || less(b, a))
    && (forall a, b, c :: less(a, b) && less(b, c) ==> less(a, c))
  }

  ghost predicate Increasing(less: Order, es: seq<KeyValue>)
  {
    forall i, j :: 0 <= i < j < |es| ==> less(es[i].key, es[j].key)
  }

  // ---- A block and its entries --------------------------------------------------------------

  /** The block is the encoding of the entries; restarts is where the restart array starts.
      Sizes fit in 32 bits. */
  ghost predicate Holds(data: Bytes, restarts: nat, numRestarts: nat, es: seq<KeyValue>, points: seq<nat>)
  {
    && RestartPoints(points, |es|) && data == Encoded(es, points) && |data| < TWO_32
    && restarts == Offset(es, points, |es|) && numRestarts == |points|
  }

  lemma {:induction false} OffsetsIncrease(es: seq<KeyValue>, points: seq<nat>, i: nat, j: nat)
    requires i <= j <= |es|
    ensures Offset(es, points, i) <= Offset(es, points, j)
    ensures i < j ==> Offset(es, points, i) < Offset(es, points, j)
    ensures Body(es, points, i) <= Body(es, points, j)
  {
    hide EncodeEntry, SharedAt;
    if i < j { OffsetsIncrease(es, points, i, j - 1); }
  }

  /** Where an entry is found. */
  lemma EntryAt(data: Bytes, restarts: nat, numRestarts: nat, es: seq<KeyValue>, points: seq<nat>, i: nat)
    requires Holds(data, restarts, numRestarts, es, points) && i < |es|
    ensures var p, q := Offset(es, points, i), Offset(es, points, i + 1);
            && p < q <= restarts <= |data|
            && data[p..q] == EncodeEntry(SharedAt(es, points, i), es[i])
  {
    hide EncodeEntry, SharedAt, RestartPoints, RestartOffsets, Fixed32s;
    var p, q := Offset(es, points, i), Offset(es, points, i + 1);
    OffsetsIncrease(es, points, i + 1, |es|);
    OffsetsIncrease(es, points, i, i + 1);
    var whole := Body(es, points, |es|);
    assert Body(es, points, i + 1) == Body(es, points, i) + EncodeEntry(SharedAt(es, points, i), es[i]);
    assert whole[..q] == Body(es, points, i + 1);
    assert data[p..q] == whole[..q][p..q];
  }

  /** The lengths stored for an entry. */
  function LengthsAt(es: seq<KeyValue>, points: seq<nat>, i: nat): (d: Decoded)
    requires i < |es|
    ensures d.shared <= |es[i].key| &&
            (i > 0 ==> d.shared <= |es[i - 1].key| && es[i - 1].key[..d.shared] == es[i].key[..d.shared])
    ensures d.shared + d.nonShared == |es[i].key| && d.valueLength == |es[i].value| && (i == 0 ==> d.shared == 0)
  {
    var n := SharedAt(es, points, i);
    Decoded(n, |es[i].key| - n, |es[i].value|, |Lengths(n, |es[i].key| - n, |es[i].value|)|)
  }

  /** The decoder finds an entry's lengths, and its key and value after them. */
  ghost predicate Decodes(data: Bytes, p: nat, q: nat, limit: nat, e: KeyValue, d: Decoded)
  {
    && p < q <= limit <= |data| && DecodeEntry(data[p..limit]) == Some(d)
    && d.shared <= |e.key| && d.nonShared == |e.key| - d.shared && d.valueLength == |e.value|
    && p + d.used + d.nonShared + d.valueLength == q
    && data[p + d.used..p + d.used + d.nonShared] == e.key[d.shared..]
    && data[p + d.used + d.nonShared..q] == e.value
  }

  lemma DecodesEncoded(data: Bytes, p: nat, q: nat, limit: nat, e: KeyValue, n: nat)
    requires p < q <= limit <= |data| && n <= |e.key| && |e.key| + |e.value| < TWO_32
    requires data[p..q] == EncodeEntry(n, e)
    ensures Decodes(data, p, q, limit, e, Decoded(n, |e.key| - n, |e.value|, |Lengths(n, |e.key| - n, |e.value|)|))
  {
    hide DecodeEntry, Lengths;
    var lens := Lengths(n, |e.key| - n, |e.value|);
    Seqs.SplitSlice(data, p, q, limit);
    EntryDecodes(n, e, data[q..limit]);
    Seqs.SplitAt(data, p, lens, e.key[n..] + e.value);
    Seqs.SplitAt(data, p + |lens|, e.key[n..], e.value);
  }

  lemma DecodesAt(data: Bytes, restarts: nat, numRestarts: nat, es: seq<KeyValue>, points: seq<nat>, i: nat)
    requires Holds(data, restarts, numRestarts, es, points) && i < |es|
    ensures Decodes(data, Offset(es, points, i), Offset(es, points, i + 1), restarts, es[i], LengthsAt(es, points, i))
  {
    hide SharedAt, Holds, EncodeEntry, Decodes, Lengths, Body;
    EntryAt(data, restarts, numRestarts, es, points, i);
    EntrySize(es, points, i);
    Fits(data, restarts, numRestarts, es, points);
    DecodesEncoded(data, Offset(es, points, i), Offset(es, points, i + 1), restarts, es[i], SharedAt(es, points, i));
  }

  lemma Fits(data: Bytes, restarts: nat, numRestarts: nat, es: seq<KeyValue>, points: seq<nat>)
    requires Holds(data, restarts, numRestarts, es, points)
    ensures restarts <= |data| < TWO_32
  {
  }

  /** A key is never longer than what was written up to it. */
  lemma {:induction false} EntrySize(es: seq<KeyValue>, points: seq<nat>, i: nat)
    requires i < |es|
    ensures |es[i].key| + |es[i].value| <= Offset(es, points, i + 1)
  {
    if i > 0 { EntrySize(es, points, i - 1); }
    hide Lengths, Shared;
    assert Body(es, points, i + 1) == Body(es, points, i) + EncodeEntry(SharedAt(es, points, i), es[i]);
  }

  /** What the restart array holds. */
  lemma RestartAt(data: Bytes, restarts: nat, numRestarts: nat, es: seq<KeyValue>, points: seq<nat>, k: nat)
    requires Holds(data, restarts, numRestarts, es, points) && k < numRestarts
    ensures restarts + 4 * k + 4 <= |data|
    ensures FromLittleEndian(data[restarts + 4 * k..restarts + 4 * k + 4]) == Offset(es, points, points[k])
  {
    hide Body, LittleEndian, FromLittleEndian;
    var xs, last := RestartOffsets(es, points), LittleEndian(|points| % TWO_32, 4);
    OffsetsIncrease(es, points, points[k], |es|);
    Fixed32At(xs, last, k);
    var tail := Fixed32s(xs) + last;
    assert data == Body(es, points, |es|) + tail;
    assert data[restarts + 4 * k..restarts + 4 * k + 4] == tail[4 * k..4 * k + 4];
  }

  /** Block::Block and NewIterator find the restart array from the end of the block. */
  method OpenBlock(data: Bytes, ghost es: seq<KeyValue>, ghost points: seq<nat>)
    returns (restarts: nat, numRestarts: nat)
    requires RestartPoints(points, |es|) && data == Encoded(es, points) && |data| < TWO_32
    ensures Holds(data, restarts, numRestarts, es, points)
  {
    hide Body, LittleEndian, FromLittleEndian, Fixed32s;
    var n := |data|;
    assert n >= 4 + 4 * |points|;
    Powers();
    LittleEndianRoundTrip(|points|, 4);
    assert data[n - 4..n] == LittleEndian(|points| % TWO_32, 4);
    numRestarts := FromLittleEndian(data[n - 4..n]);
    restarts := n - (1 + numRestarts) * 4;
  }

  // ---- The iterator ------------------------------------------------------------------------------

  /** Where the iterator stands: offset of the entry, restart block, key, value. */
  datatype Pos = Pos(current: nat, restartIndex: nat, key: Bytes, valueStart: nat, valueEnd: nat)

  /** On entry i. The restart block may be the one before, if i is itself a restart point. */
  ghost predicate OnEntry(data: Bytes, es: seq<KeyValue>, points: seq<nat>, pos: Pos, i: nat)
  {
    && i < |es| && pos.current == Offset(es, points, i) && pos.key == es[i].key
    && pos.valueStart <= pos.valueEnd == Offset(es, points, i + 1) <= |data| &&
       data[pos.valueStart..pos.valueEnd] == es[i].value
    && pos.restartIndex < |points| && points[pos.restartIndex] <= i
    && (pos.restartIndex + 1 < |points| ==> i <= points[pos.restartIndex + 1])
  }

  /** About to parse entry i, or the end. */
  ghost predicate Ready(es: seq<KeyValue>, points: seq<nat>, pos: Pos, i: nat)
  {
    && i <= |es| && pos.valueEnd == Offset(es, points, i)
    && (i < |es| && i > 0 && i !in points ==> pos.key == es[i - 1].key)
    && pos.restartIndex < |points| && points[pos.restartIndex] <= i
    && (pos.restartIndex + 1 < |points| ==> i <= points[pos.restartIndex + 1] + 1)
  }

  lemma ReadyNext(data: Bytes, es: seq<KeyValue>, points: seq<nat>, pos: Pos, i: nat)
    requires OnEntry(data, es, points, pos, i)
    ensures Ready(es, points, pos, i + 1)
  {
  }

  class Iter {
    const less: Order
    const data: Bytes
    const restarts: nat
    const numRestarts: nat
    /** Nothing is promised of a block that is not the encoding of some entries, but that
        reading it stays within it. */
    ghost const intact: bool
    ghost const es: seq<KeyValue>
    ghost const points: seq<nat>
    var pos: Pos
    var corrupt: bool
    /** The entry the iterator is on. */
    ghost var at: Option<nat>

    ghost predicate BlockOk()
    {
      Holds(data, restarts, numRestarts, es, points) && TotalOrder(less) && Increasing(less, es)
    }

    /** What Block::Block checks of any block. */
    ghost predicate Sound()
    {
      0 < numRestarts && restarts + 4 * numRestarts <= |data| && (intact ==> BlockOk())
    }

    ghost predicate Valid()
      reads this
    {
      && Sound() && (pos.current < restarts ==> pos.restartIndex < numRestarts)
      && (intact ==> !corrupt && (at.Some? ==> OnEntry(data, es, points, pos, at.value)) &&
                     (at.None? ==> pos.current == restarts))
    }

    constructor (less: Order, data: Bytes, restarts: nat, numRestarts: nat, ghost intact: bool,
                 ghost es: seq<KeyValue>, ghost points: seq<nat>)
      requires 0 < numRestarts && restarts + 4 * numRestarts <= |data|
      requires intact ==> Holds(data, restarts, numRestarts, es, points) && TotalOrder(less) && Increasing(less, es)
      ensures Valid() && at == None && this.intact == intact && this.es == es && this.data == data &&
              this.points == points
    {
      this.less, this.data, this.restarts, this.numRestarts := less, data, restarts, numRestarts;
      this.intact, this.es, this.points := intact, es, points;
      pos, corrupt, at := Pos(restarts, numRestarts, [], 0, 0), false, None;
    }

    function GetRestartPoint(index: nat): (p: nat)
      requires Sound() && index < numRestarts
      ensures intact ==> index < |points| && points[index] <= |es| && p == Offset(es, points, points[index])
    {
      RestartHere(index);
      FromLittleEndian(data[restarts + 4 * index..restarts + 4 * index + 4])
    }

    lemma RestartHere(index: nat)
      requires Sound() && index < numRestarts
      ensures intact ==> index < |points| && points[index] <= |es|
      ensures intact ==> FromLittleEndian(data[restarts + 4 * index..restarts + 4 * index + 4]) ==
                         Offset(es, points, points[index])
    {
      hide Body, FromLittleEndian;
      if intact { RestartAt(data, restarts, numRestarts, es, points, index); }
    }

    method SeekToRestartPoint(index: nat)
      requires Sound() && index < numRestarts
      modifies this`pos
      ensures pos.restartIndex == index && (intact ==> index < |points| && Ready(es, points, pos, points[index]))
    {
      hide Body, TotalOrder, Increasing;
      var offset := GetRestartPoint(index);
      pos := pos.(key := [], restartIndex := index, valueStart := offset, valueEnd := offset);
    }

    /** The restart block that an offset falls into, looking forward. */
    method Advance(index: nat, current: nat, ghost i: nat) returns (k: nat)
      requires Sound() && index < numRestarts
      requires intact ==> index < |points| && i < |es| && current == Offset(es, points, i) && points[index] <= i
      ensures k < numRestarts
      ensures intact ==> k < |points| && points[k] <= i && (k + 1 < |points| ==> i <= points[k + 1])
    {
      hide Body, TotalOrder, Increasing;
      k := index;
      while k + 1 < numRestarts && GetRestartPoint(k + 1) < current
        invariant k < numRestarts && (intact ==> k < |points| && points[k] <= i)
        decreases numRestarts - k
      {
        if intact { OffsetOrder(es, points, points[k + 1], i); }
        k := k + 1;
      }
      if intact && k + 1 < |points| { OffsetOrder(es, points, points[k + 1], i); }
    }

    /** The key, completed from the previous one, and the value of the entry at an offset. */
    method ParseEntry(current: nat, key: Bytes, ghost i: nat) returns (r: Option<(Bytes, nat, nat)>)
      requires Sound() && current < restarts
      requires intact ==> i < |es| && current == Offset(es, points, i) &&
                          (i > 0 && i !in points ==> key == es[i - 1].key)
      ensures r.Some? ==> r.value.1 <= r.value.2 && current < r.value.2
      ensures intact ==> r.Some? && r.value.0 == es[i].key && r.value.2 == Offset(es, points, i + 1) <= |data|
      ensures intact ==> data[r.value.1..r.value.2] == es[i].value
    {
      hide Body, TotalOrder, Increasing, Holds, DecodeEntry;
      if intact { ParsedKey(data, restarts, numRestarts, es, points, i, key); }
      var d := DecodeEntry(data[current..restarts]);
      if d.None? || |key| < d.value.shared { return None; }
      var p := current + d.value.used;
      var start := p + d.value.nonShared;
      r := Some((key[..d.value.shared] + data[p..start], start, start + d.value.valueLength));
    }

    method ParseNextKey(ghost i: nat) returns (more: bool)
      requires Sound() && pos.restartIndex < numRestarts && (intact ==> !corrupt && Ready(es, points, pos, i))
      modifies this`pos, this`corrupt
      ensures intact ==> !corrupt && (more <==> i < |es|)
      ensures intact && more ==> OnEntry(data, es, points, pos, i)
      ensures !more ==> pos.current == restarts
      ensures more ==> old(pos.valueEnd) < restarts && old(pos.valueEnd) < pos.valueEnd &&
                       pos.restartIndex < numRestarts
    {
      hide Body, TotalOrder, Increasing, Holds;
      var current := pos.valueEnd;
      if intact { EndOffset(data, restarts, numRestarts, es, points, i); }
      if current >= restarts {
        pos := pos.(current := restarts, restartIndex := numRestarts);
        return false;
      }
      var parsed := ParseEntry(current, pos.key, i);
      if parsed.None? {
        corrupt, pos := true, Pos(restarts, numRestarts, [], 0, 0);
        return false;
      }
      var k := Advance(pos.restartIndex, current, i);
      pos := Pos(current, k, parsed.value.0, parsed.value.1, parsed.value.2);
      more := true;
    }

    method Next()
      requires Valid() && pos.current < restarts
      modifies this
      ensures Valid() && (intact ==> at == if old(at).value + 1 < |es| then Some(old(at).value + 1) else None)
    {
      hide Holds, TotalOrder, Increasing, Ready;
      ghost var i := if at.Some? then at.value else 0;
      if intact { ReadyNext(data, es, points, pos, i); }
      var more := ParseNextKey(i + 1);
      at := if more then Some(i + 1) else None;
    }

    /** The last restart block that starts before an offset. */
    method RestartBefore(index: nat, original: nat, ghost i: nat) returns (r: Option<nat>)
      requires Sound() && index < numRestarts
      requires intact ==> i < |es| && original == Offset(es, points, i) && index < |points| && points[index] <= i
      ensures r.Some? ==> r.value < numRestarts
      ensures intact ==> (r.None? <==> i == 0) && (r.Some? ==> r.value < |points| && points[r.value] < i)
    {
      hide Body, TotalOrder, Increasing, Holds;
      if intact { PointsCount(data, restarts, numRestarts, es, points); }
      var k: nat := index;
      while GetRestartPoint(k) >= original
        invariant k < numRestarts && (intact ==> k < |points| && points[k] <= i)
        decreases k
      {
        if intact { OffsetOrder(es, points, points[k], i); }
        if k == 0 { return None; }
        if intact { EarlierPoint(points, |es|, k); }
        k := k - 1;
      }
      if intact { OffsetOrder(es, points, points[k], i); }
      r := Some(k);
    }

    method Prev()
      requires Valid() && pos.current < restarts
      modifies this
      ensures Valid() && (intact ==> at == if old(at).value > 0 then Some(old(at).value - 1) else None)
    {
      hide Body, TotalOrder, Increasing, Holds;
      ghost var i := if at.Some? then at.value else 0;
      var original := pos.current;
      var index := RestartBefore(pos.restartIndex, original, i);
      if index.None? {
        pos := pos.(current := restarts, restartIndex := numRestarts);
        at := None;
        return;
      }
      SeekToRestartPoint(index.value);
      ghost var j: nat := if intact then points[index.value] else 0;
      var more := ParseNextKey(j);
      while more && pos.valueEnd < original
        invariant intact ==> !corrupt && more && j < i && OnEntry(data, es, points, pos, j)
        invariant (more ==> pos.restartIndex < numRestarts) && (!more ==> pos.current == restarts)
        decreases more, original - pos.valueEnd
      {
        if intact {
          OffsetOrder(es, points, j + 1, i);
          ReadyNext(data, es, points, pos, j);
        }
        j := j + 1;
        more := ParseNextKey(j);
      }
      if intact { OffsetOrder(es, points, j + 1, i); }
      at := if more then Some(j) else None;
    }

    /** The key at a restart point, which is stored in full. */
    method RestartKey(index: nat) returns (r: Option<Bytes>)
      requires Sound() && 0 < index < numRestarts
      ensures intact ==> index < |points| && points[index] < |es| && r == Some(es[points[index]].key)
    {
      hide Body, TotalOrder, Increasing, DecodeEntry;
      var offset := GetRestartPoint(index);
      if intact { RestartDecodes(data, restarts, numRestarts, es, points, index); }
      if offset > restarts { return None; }
      var d := DecodeEntry(data[offset..restarts]);
      if d.None? || d.value.shared != 0 { return None; }
      r := Some(data[offset + d.value.used..offset + d.value.used + d.value.nonShared]);
    }

    method SeekToFirst()
      requires Valid()
      modifies this
      ensures Valid() && (intact ==> at == if es == [] then None else Some(0))
    {
      hide Body, TotalOrder, Increasing, Holds, OnEntry, Ready;
      if intact { PointsCount(data, restarts, numRestarts, es, points); }
      SeekToRestartPoint(0);
      var more := ParseNextKey(0);
      at := if more then Some(0) else None;
    }

    /** Binary search for the last restart point with a key before the target, between two
        bounds; nothing if a restart point cannot be read. */
    method SearchRestarts(target: Bytes, left0: nat, right0: nat) returns (r: Option<nat>)
      requires Sound() && left0 <= right0 < numRestarts
      requires intact ==> LeftOk(less, es, points, target, left0) && RightOk(less, es, points, target, right0)
      ensures r.Some? ==> r.value < numRestarts
      ensures intact ==> r.Some? && LeftOk(less, es, points, target, r.value) &&
                         RightOk(less, es, points, target, r.value)
    {
      hide Body, TotalOrder, Holds;
      var left: nat, right: nat := left0, right0;
      while left < right
        invariant left <= right < numRestarts
        invariant intact ==> LeftOk(less, es, points, target, left) && RightOk(less, es, points, target, right)
      {
        var mid: nat := (left + right + 1) / 2;
        var key := RestartKey(mid);
        if key.None? { return None; }
        if less(key.value, target) {
          left := mid;
        } else {
          if intact {
            PointsCount(data, restarts, numRestarts, es, points);
            NoLaterPoint(less, es, points, target, mid);
          }
          right := mid - 1;
        }
      }
      r := Some(left);
    }

    method Seek(target: Bytes)
      requires Valid()
      modifies this
      ensures Valid() && (intact ==> IsFirstAtLeast(less, es, target, at))
    {
      hide Body, TotalOrder, Increasing, Holds;
      var left: nat, right: nat := 0, numRestarts - 1;
      var ahead := false;
      if intact { OuterBounds(data, restarts, numRestarts, less, es, points, target); }
      if pos.current < restarts {
        if intact { HintBounds(data, restarts, numRestarts, less, es, points, target, pos, at); }
        if less(pos.key, target) {
          left, ahead := pos.restartIndex, true;
        } else if less(target, pos.key) {
          right := pos.restartIndex;
        } else {
          return;
        }
      }
      var found := SearchRestarts(target, left, right);
      if found.None? {
        corrupt, pos := true, Pos(restarts, numRestarts, [], 0, 0);
        at := None;
        return;
      }
      ghost var i: nat := 0;
      if found.value == pos.restartIndex && ahead {
        if intact {
          i := at.value + 1;
          ReadyNext(data, es, points, pos, at.value);
        }
      } else {
        SeekToRestartPoint(found.value);
        if intact {
          i := points[found.value];
          PointBelow(data, restarts, numRestarts, less, es, points, target, found.value);
        }
      }
      ScanFrom(target, i);
    }

    /** Linear search within the restart block, and on. */
    method ScanFrom(target: Bytes, ghost i0: nat)
      requires Sound() && pos.restartIndex < numRestarts
      requires intact ==> !corrupt && Ready(es, points, pos, i0) && forall j :: 0 <= j < i0 ==> less(es[j].key, target)
      modifies this
      ensures Valid() && (intact ==> IsFirstAtLeast(less, es, target, at))
    {
      hide Body, TotalOrder, Increasing, Holds;
      ghost var i := i0;
      while true
        invariant pos.restartIndex < numRestarts
        invariant intact ==> !corrupt && Ready(es, points, pos, i) && forall j :: 0 <= j < i ==> less(es[j].key, target)
        decreases if pos.valueEnd < restarts then restarts - pos.valueEnd else 0
      {
        var more := ParseNextKey(i);
        if !more {
          at := None;
          return;
        }
        if !less(pos.key, target) {
          at := Some(i);
          return;
        }
        if intact { ReadyNext(data, es, points, pos, i); }
        i := i + 1;
      }
    }

    method SeekToLast()
      requires Valid()
      modifies this
      ensures Valid() && (intact ==> at == if es == [] then None else Some(|es| - 1))
    {
      hide Body, TotalOrder, Increasing, Holds;
      if intact { PointsCount(data, restarts, numRestarts, es, points); }
      SeekToRestartPoint(numRestarts - 1);
      ghost var j: nat := if intact then points[numRestarts - 1] else 0;
      var more := ParseNextKey(j);
      while more && pos.valueEnd < restarts
        invariant intact ==> !corrupt && (more <==> j < |es|) && (more ==> OnEntry(data, es, points, pos, j))
        invariant (more ==> pos.restartIndex < numRestarts) && (!more ==> pos.current == restarts) &&
                  (intact && !more ==> es == [])
        decreases more, restarts - pos.valueEnd
      {
        if intact {
          EndOffset(data, restarts, numRestarts, es, points, j + 1);
          ReadyNext(data, es, points, pos, j);
        }
        j := j + 1;
        more := ParseNextKey(j);
      }
      if intact && more { EndOffset(data, restarts, numRestarts, es, points, j + 1); }
      at := if more then Some(j) else None;
    }
  }

  /** The first entry not before the target. */
  ghost predicate IsFirstAtLeast(less: Order, es: seq<KeyValue>, target: Bytes, at: Option<nat>)
  {
    && (at.Some? ==> at.value < |es| && !less(es[at.value].key, target) && forall j :: 0 <= j < at.value ==>
        less(es[j].key, target))
    && (at.None? ==> forall j :: 0 <= j < |es| ==> less(es[j].key, target))
  }

  /** The key at restart point k is before the target; the first one may not be. */
  ghost predicate LeftOk(less: Order, es: seq<KeyValue>,
                   points: seq<nat>, target: Bytes, k: nat)
  {
    k > 0 ==> k < |points| && points[k] < |es| && less(es[points[k]].key, target)
  }

  /** No key at a restart point after k is before the target. */
  ghost predicate RightOk(less: Order, es: seq<KeyValue>, points: seq<nat>, target: Bytes, k: nat)
  {
    forall m :: k < m < |points| && points[m] < |es| ==> !less(es[points[m]].key, target)
  }

  lemma OuterBounds(data: Bytes, restarts: nat, numRestarts: nat, less: Order, es: seq<KeyValue>, points: seq<nat>,
                    target: Bytes)
    requires Holds(data, restarts, numRestarts, es, points)
    ensures LeftOk(less, es, points, target, 0) && numRestarts > 0 && RightOk(less, es, points, target, numRestarts - 1)
  {
  }

  lemma NoLaterPoint(less: Order, es: seq<KeyValue>, points: seq<nat>, target: Bytes, mid: nat)
    requires RestartPoints(points, |es|) && 0 < mid < |points| && points[mid] < |es| &&
             !less(es[points[mid]].key, target)
    requires TotalOrder(less) && Increasing(less, es)
    ensures RightOk(less, es, points, target, mid - 1)
  {
    forall m | mid - 1 < m < |points| && points[m] < |es| ensures !less(es[points[m]].key, target) {
      if m > mid { assert less(es[points[mid]].key, es[points[m]].key); }
    }
  }

  /** The current position bounds the search from one side. */
  lemma HintBounds(data: Bytes, restarts: nat, numRestarts: nat, less: Order, es: seq<KeyValue>, points: seq<nat>,
                   target: Bytes,
                   pos: Pos, at: Option<nat>)
    requires Holds(data, restarts, numRestarts, es, points) && TotalOrder(less) && Increasing(less, es) &&
             pos.current < restarts
    requires (at.Some? ==> OnEntry(data, es, points, pos, at.value)) && (at.None? ==> pos.current == restarts)
    ensures at.Some? && at.value < |es| && pos.key == es[at.value].key && pos.restartIndex < |points| == numRestarts
    ensures less(pos.key, target) ==> LeftOk(less, es, points, target, pos.restartIndex)
    ensures less(pos.key, target) ==> forall j :: 0 <= j <= at.value ==> less(es[j].key, target)
    ensures less(target, pos.key) ==> RightOk(less, es, points, target, pos.restartIndex)
    ensures !less(target, pos.key) && !less(pos.key, target) ==> IsFirstAtLeast(less, es, target, at)
  {
    hide Body, Encoded;
    var i := at.value;
    if less(pos.key, target) { AllBelow(less, es, target, i); }
    if less(target, pos.key) { HintRight(less, es, points, target, i, pos.restartIndex); }
    hide TotalOrder, Increasing, Holds;
    if !less(target, pos.key) && !less(pos.key, target) { HintEqual(less, es, target, i); }
  }

  lemma AllBelow(less: Order, es: seq<KeyValue>, target: Bytes, i: nat)
    requires TotalOrder(less) && Increasing(less, es) && i < |es| && less(es[i].key, target)
    ensures forall j :: 0 <= j <= i ==> less(es[j].key, target)
  {
    forall j | 0 <= j <= i ensures less(es[j].key, target) {
      if j < i { assert less(es[j].key, es[i].key); }
    }
  }

  lemma HintRight(less: Order, es: seq<KeyValue>, points: seq<nat>, target: Bytes, i: nat, k: nat)
    requires TotalOrder(less) && Increasing(less, es) && RestartPoints(points, |es|) && i < |es| &&
             less(target, es[i].key)
    requires k < |points| && (k + 1 < |points| ==> i <= points[k + 1])
    ensures RightOk(less, es, points, target, k)
  {
    forall m | k < m < |points| && points[m] < |es| ensures !less(es[points[m]].key, target) {
      LaterPoint(points, |es|, k + 1, m);
      if i < points[m] {
        assert less(es[i].key, es[points[m]].key);
        assert less(target, es[points[m]].key);
      }
    }
  }

  lemma HintEqual(less: Order, es: seq<KeyValue>, target: Bytes, i: nat)
    requires TotalOrder(less) && Increasing(less, es) && i < |es| && !less(target, es[i].key) &&
             !less(es[i].key, target)
    ensures IsFirstAtLeast(less, es, target, Some(i))
  {
    assert es[i].key == target;
  }

  lemma LaterPoint(points: seq<nat>, n: nat, i: nat, j: nat)
    requires RestartPoints(points, n) && i <= j < |points|
    ensures points[i] <= points[j]
  {
  }

  /** Everything before a restart point whose key is before the target is before it too. */
  lemma PointBelow(data: Bytes, restarts: nat, numRestarts: nat, less: Order, es: seq<KeyValue>, points: seq<nat>,
                   target: Bytes, k: nat)
    requires Holds(data, restarts, numRestarts, es, points) && TotalOrder(less) && Increasing(less, es)
    requires k < |points| && LeftOk(less, es, points, target, k)
    ensures points[k] <= |es| && forall j :: 0 <= j < points[k] ==> less(es[j].key, target)
  {
    forall j | 0 <= j < points[k] ensures less(es[j].key, target) {
      assert k > 0;
      assert less(es[j].key, es[points[k]].key);
    }
  }

  lemma RestartDecodes(data: Bytes, restarts: nat, numRestarts: nat, es: seq<KeyValue>, points: seq<nat>, k: nat)
    requires Holds(data, restarts, numRestarts, es, points) && 0 < k < numRestarts
    ensures points[k] < |es| && LengthsAt(es, points, points[k]).shared == 0
    ensures Decodes(data, Offset(es, points, points[k]), Offset(es, points, points[k] + 1), restarts, es[points[k]],
                    LengthsAt(es, points, points[k]))
  {
    hide Body, Decodes, Lengths;
    assert points[0] < points[k];
    assert points[k] in points;
    DecodesAt(data, restarts, numRestarts, es, points, points[k]);
  }

  lemma PointsCount(data: Bytes, restarts: nat, numRestarts: nat, es: seq<KeyValue>, points: seq<nat>)
    requires Holds(data, restarts, numRestarts, es, points)
    ensures numRestarts == |points| > 0 && points[0] == 0 && RestartPoints(points, |es|)
  {
  }

  lemma EarlierPoint(points: seq<nat>, n: nat, k: nat)
    requires RestartPoints(points, n) && 0 < k < |points|
    ensures points[k - 1] < points[k]
  {
  }

  lemma OffsetOrder(es: seq<KeyValue>, points: seq<nat>, i: nat, j: nat)
    requires i <= |es| && j <= |es|
    ensures Offset(es, points, i) < Offset(es, points, j) <==> i < j
  {
    hide Body;
    if i <= j { OffsetsIncrease(es, points, i, j); } else { OffsetsIncrease(es, points, j, i); }
  }

  lemma EndOffset(data: Bytes, restarts: nat, numRestarts: nat, es: seq<KeyValue>, points: seq<nat>, i: nat)
    requires Holds(data, restarts, numRestarts, es, points) && i <= |es|
    ensures Offset(es, points, i) < restarts <==> i < |es|
    ensures Offset(es, points, i) <= restarts <= |data|
  {
    hide Body;
    OffsetOrder(es, points, i, |es|);
    OffsetsIncrease(es, points, i, |es|);
  }

  /** The key a parse puts together is the key of the entry. */
  lemma ParsedKey(data: Bytes, restarts: nat, numRestarts: nat, es: seq<KeyValue>, points: seq<nat>, i: nat, key: Bytes)
    requires Holds(data, restarts, numRestarts, es, points) && i < |es|
    requires i > 0 && i !in points ==> key == es[i - 1].key
    ensures var d := LengthsAt(es, points, i);
            && Decodes(data, Offset(es, points, i), Offset(es, points, i + 1), restarts, es[i], d)
            && d.shared <= |key| && key[..d.shared] + es[i].key[d.shared..] == es[i].key
  {
    hide Body, Decodes, Lengths, Holds;
    DecodesAt(data, restarts, numRestarts, es, points, i);
    var d := LengthsAt(es, points, i);
    assert es[i].key[..d.shared] + es[i].key[d.shared..] == es[i].key;
  }

  // ---- Built, opened and read ----------------------------------------------------------------------

  lemma OnSomeEntry(data: Bytes, restarts: nat, numRestarts: nat, es: seq<KeyValue>, points: seq<nat>, pos: Pos,
                    at: Option<nat>)
    requires Holds(data, restarts, numRestarts, es, points)
    requires (at.Some? ==> OnEntry(data, es, points, pos, at.value)) && (at.None? ==> pos.current == restarts)
    ensures pos.current < restarts <==> at.Some?
    ensures at.Some? ==> at.value < |es| && pos.valueStart <= pos.valueEnd <= |data|
    ensures at.Some? ==> KeyValue(pos.key, data[pos.valueStart..pos.valueEnd]) == es[at.value]
  {
    if at.Some? { EndOffset(data, restarts, numRestarts, es, points, at.value); }
  }

  /** SeekToFirst, then Next while valid. */
  method ReadForward(it: Iter) returns (out: seq<KeyValue>)
    requires it.Valid() && it.intact
    modifies it
    ensures it.Valid() && out == it.es
  {
    hide Holds, OnEntry, TotalOrder, Increasing;
    it.SeekToFirst();
    out := [];
    OnSomeEntry(it.data, it.restarts, it.numRestarts, it.es, it.points, it.pos, it.at);
    while it.pos.current < it.restarts
      invariant it.Valid() && (it.pos.current < it.restarts <==> it.at.Some?)
      invariant out == if it.at.Some? && it.at.value < |it.es| then it.es[..it.at.value] else it.es
      decreases |it.es| - |out|
    {
      OnSomeEntry(it.data, it.restarts, it.numRestarts, it.es, it.points, it.pos, it.at);
      out := out + [KeyValue(it.pos.key, it.data[it.pos.valueStart..it.pos.valueEnd])];
      it.Next();
      OnSomeEntry(it.data, it.restarts, it.numRestarts, it.es, it.points, it.pos, it.at);
    }
  }

  /** SeekToLast, then Prev while valid; the entries are put back in order. */
  method ReadBackward(it: Iter) returns (out: seq<KeyValue>)
    requires it.Valid() && it.intact
    modifies it
    ensures it.Valid() && out == it.es
  {
    hide Holds, OnEntry, TotalOrder, Increasing;
    it.SeekToLast();
    out := [];
    OnSomeEntry(it.data, it.restarts, it.numRestarts, it.es, it.points, it.pos, it.at);
    while it.pos.current < it.restarts
      invariant it.Valid() && (it.pos.current < it.restarts <==> it.at.Some?)
      invariant out == if it.at.Some? && it.at.value < |it.es| then it.es[it.at.value + 1..] else it.es
      decreases |it.es| - |out|
    {
      OnSomeEntry(it.data, it.restarts, it.numRestarts, it.es, it.points, it.pos, it.at);
      out := [KeyValue(it.pos.key, it.data[it.pos.valueStart..it.pos.valueEnd])] + out;
      it.Prev();
      OnSomeEntry(it.data, it.restarts, it.numRestarts, it.es, it.points, it.pos, it.at);
    }
  }

  /** A block of increasing entries, built with any restart interval, reads back the same
      in both directions. */
  method RoundTrip(less: Order, interval: nat, es: seq<KeyValue>)
    returns (block: Bytes, forward: seq<KeyValue>, backward: seq<KeyValue>)
    requires interval >= 1 && TotalOrder(less) && Increasing(less, es)
    ensures |block| < TWO_32 ==> forward == es && backward == es
  {
    hide Holds, TotalOrder, Increasing, Encoded, Built;
    var builder := new BlockBuilder(interval);
    for i := 0 to |es|
      invariant builder.Valid() && builder.es == es[..i]
    {
      builder.Add(es[i].key, es[i].value);
    }
    assert es[..|es|] == es;
    BuiltPoints(builder);
    block := builder.Finish();
    forward, backward := [], [];
    if |block| < TWO_32 {
      var restarts, numRestarts := OpenBlock(block, es, builder.points);
      HoldsSound(block, restarts, numRestarts, es, builder.points);
      var it := new Iter(less, block, restarts, numRestarts, true, es, builder.points);
      forward := ReadForward(it);
      backward := ReadBackward(it);
    }
  }

  lemma BuiltPoints(builder: BlockBuilder)
    requires builder.Valid()
    ensures RestartPoints(builder.points, |builder.es|)
  {
  }

  lemma HoldsSound(data: Bytes, restarts: nat, numRestarts: nat, es: seq<KeyValue>, points: seq<nat>)
    requires Holds(data, restarts, numRestarts, es, points)
    ensures 0 < numRestarts && restarts + 4 * numRestarts <= |data|
  {
    PointsCount(data, restarts, numRestarts, es, points);
    RestartAt(data, restarts, numRestarts, es, points, numRestarts - 1);
  }
}
