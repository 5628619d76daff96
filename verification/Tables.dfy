/**
 Looking a key up in a table: one index entry and at most one data block per lookup, with
 shortened index keys and filters (InternalGet in table/table.cc).
 */
module Tables {
  import Keys
  import opened Coding
  import opened Separators
  import opened FilterBlock

  datatype Row = Row(key: InternalKey, value: Bytes)

  /** A data block and its file offset. */
  datatype Block = Block(offset: nat, rows: seq<Row>)

  /** An internal key as a byte string. */
  function EncodeKey(k: InternalKey): (s: Bytes)
    ensures |s| >= 8 && ExtractUserKey(s) == k.user
  {
    var s := k.user + LittleEndian(k.tag, 8);
    assert s[..|k.user|] == k.user;
    s
  }

  // ---- The shape of a table -----------------------------------------------------------------

  ghost predicate SortedRows(rows: seq<Row>)
  {
    forall i, j :: 0 <= i < j < |rows| ==> Less(rows[i].key, rows[j].key)
  }

  function Last(b: Block): InternalKey
    requires b.rows != []
  {
    b.rows[|b.rows| - 1].key
  }

  ghost predicate BlocksOk(blocks: seq<Block>)
  {
    && (forall i :: 0 <= i < |blocks| ==> blocks[i].rows != [] && SortedRows(blocks[i].rows))
    && (forall i, j :: 0 <= i < j < |blocks| ==> Less(Last(blocks[i]), blocks[j].rows[0].key))
  }

  /** The i-th index key separates the i-th block from the next, if there is one. */
  ghost predicate IndexKeyOk(blocks: seq<Block>, i: nat, k: InternalKey)
    requires i < |blocks| && BlocksOk(blocks)
  {
    && AtMost(Last(blocks[i]), k)
    && (i + 1 < |blocks| ==> Separator(Last(blocks[i]), blocks[i + 1].rows[0].key, k))
    && (k != Last(blocks[i]) ==> LexLess(Last(blocks[i]).user, k.user))
  }

  ghost predicate IndexOk(index: seq<InternalKey>, blocks: seq<Block>)
  {
    BlocksOk(blocks) && |index| <= |blocks| && forall i :: 0 <= i < |index| ==> IndexKeyOk(blocks, i, index[i])
  }

  ghost predicate InTable(blocks: seq<Block>, r: Row)
  {
    exists i :: 0 <= i < |blocks| && r in blocks[i].rows
  }

  // ---- Lookup --------------------------------------------------------------------------------------

  /** A row that a lookup of the target accepts: same user key, not before the target. */
  predicate Candidate(t: InternalKey, r: Row)
  {
    r.key.user == t.user && AtMost(t, r.key)
  }

  /** The row a lookup must return: the first candidate of the whole table. */
  ghost predicate IsAnswer(blocks: seq<Block>, t: InternalKey, r: Row)
  {
    InTable(blocks, r) && Candidate(t, r) && forall x :: InTable(blocks, x) && Candidate(t, x) ==> AtMost(r.key, x.key)
  }

  /** The filter of a block never rejects a user key of the block. */
  ghost predicate NoFalseNegative(blocks: seq<Block>, mayMatch: (nat, Bytes) -> bool)
  {
    forall i, r :: 0 <= i < |blocks| && r in blocks[i].rows ==> mayMatch(blocks[i].offset, r.key.user)
  }

  /** The first position whose key is not before the target: a Seek. */
  method SeekIndex(index: seq<InternalKey>, t: InternalKey) returns (i: nat)
    ensures i <= |index| && (forall j :: 0 <= j < i ==> Less(index[j], t)) && (i < |index| ==> AtMost(t, index[i]))
  {
    i := 0;
    while i < |index| && Less(index[i], t)
      invariant i <= |index| && forall j :: 0 <= j < i ==> Less(index[j], t)
    {
      i := i + 1;
    }
  }

  method SeekRow(rows: seq<Row>, t: InternalKey) returns (i: nat)
    ensures i <= |rows| && (forall j :: 0 <= j < i ==> Less(rows[j].key, t)) && (i < |rows| ==> AtMost(t, rows[i].key))
  {
    i := 0;
    while i < |rows| && Less(rows[i].key, t)
      invariant i <= |rows| && forall j :: 0 <= j < i ==> Less(rows[j].key, t)
    {
      i := i + 1;
    }
  }

  /** The lookup once the index has named block i and the filter has been asked about it. */
  method GetFromBlock(index: seq<InternalKey>, blocks: seq<Block>, ghost mayMatch: (nat, Bytes) -> bool, t: InternalKey,
                      i: nat,
                      may: bool)
    returns (r: Keys.Option<Row>)
    requires IndexOk(index, blocks) && |index| == |blocks| && NoFalseNegative(blocks, mayMatch)
    requires i < |index| && (forall k :: 0 <= k < i ==> Less(index[k], t)) && AtMost(t, index[i])
    requires may == mayMatch(blocks[i].offset, t.user)
    ensures (exists x :: InTable(blocks, x) && Candidate(t, x)) ==> r.Some? && IsAnswer(blocks, t, r.value)
    ensures !(exists x :: InTable(blocks, x) && Candidate(t, x)) ==> r.None? || r.value.key.user != t.user
  {
    hide IndexOk, Less, AtMost, Separator;
    if !may {
      forall x | InTable(blocks, x) ensures !Candidate(t, x) { Rejected(index, blocks, mayMatch, t, i, x); }
      return Keys.None;
    }
    var j := SeekRow(blocks[i].rows, t);
    if j < |blocks[i].rows| {
      var row := blocks[i].rows[j];
      assert InTable(blocks, row);
      forall x | InTable(blocks, x) && Candidate(t, x) ensures AtMost(row.key, x.key) {
        FirstInBlock(index, blocks, t, i, j, x);
      }
      if x :| InTable(blocks, x) && Candidate(t, x) { Squeeze(t, row.key, x); }
      return Keys.Some(row);
    }
    forall x | InTable(blocks, x) ensures !Candidate(t, x) { InTheGap(index, blocks, t, i, x); }
    r := Keys.None;
  }

  /** Table::InternalGet: the row handed to handle_result, if any. */
  method InternalGet(index: seq<InternalKey>, blocks: seq<Block>, mayMatch: (nat, Bytes) -> bool, t: InternalKey)
    returns (r: Keys.Option<Row>)
    requires IndexOk(index, blocks) && |index| == |blocks| && NoFalseNegative(blocks, mayMatch)
    ensures (exists x :: InTable(blocks, x) && Candidate(t, x)) ==> r.Some? && IsAnswer(blocks, t, r.value)
    ensures !(exists x :: InTable(blocks, x) && Candidate(t, x)) ==> r.None? || r.value.key.user != t.user
  {
    hide IndexOk, Less, AtMost, Separator;
    var i := SeekIndex(index, t);
    if i == |index| {
      forall x | InTable(blocks, x) ensures !Candidate(t, x) { PastTheEnd(index, blocks, t, x); }
      return Keys.None;
    }
    r := GetFromBlock(index, blocks, mayMatch, t, i, mayMatch(blocks[i].offset, t.user));
  }

  // ---- Order facts --------------------------------------------------------------------------------

  lemma AtMostLess(a: InternalKey, b: InternalKey, c: InternalKey)
    requires AtMost(a, b) && Less(b, c)
    ensures Less(a, c)
  {
    LessTotal(a, b);
    if Less(a, b) { LessTransitive(a, b, c); }
  }

  lemma LessAtMost(a: InternalKey, b: InternalKey, c: InternalKey)
    requires Less(a, b) && AtMost(b, c)
    ensures Less(a, c)
  {
    LessTotal(b, c);
    if Less(b, c) { LessTransitive(a, b, c); }
  }

  lemma LessIsAtMost(a: InternalKey, b: InternalKey)
    requires Less(a, b) || a == b
    ensures AtMost(a, b)
  {
    LessTotal(a, b);
    LessTotal(a, a);
  }

  /** A later key with a larger user key is not a candidate of an earlier target. */
  lemma UserBelow(t: InternalKey, m: InternalKey, x: Row)
    requires AtMost(t, m) && LexLess(m.user, x.key.user)
    ensures !Candidate(t, x)
  {
    LexTotal(t.user, m.user);
    LexTotal(x.key.user, x.key.user);
    if LexLess(t.user, m.user) { LexTransitive(t.user, m.user, x.key.user); }
  }

  lemma NotBefore(t: InternalKey, x: Row)
    requires Less(x.key, t)
    ensures !Candidate(t, x)
  {
  }

  lemma RowAtMostLast(b: Block, x: Row)
    requires b.rows != [] && SortedRows(b.rows) && x in b.rows
    ensures AtMost(x.key, Last(b)) && AtMost(b.rows[0].key, x.key)
  {
    var m :| 0 <= m < |b.rows| && b.rows[m] == x;
    LessIsAtMost(x.key, Last(b));
    LessIsAtMost(b.rows[0].key, x.key);
  }

  // ---- Where a row lies -----------------------------------------------------------------------------

  lemma EarlierBlock(index: seq<InternalKey>, blocks: seq<Block>, t: InternalKey, b: nat, x: Row)
    requires IndexOk(index, blocks) && b < |index| && Less(index[b], t) && x in blocks[b].rows
    ensures Less(x.key, t)
  {
    hide Less, AtMost, Separator, SortedRows;
    assert IndexKeyOk(blocks, b, index[b]);
    RowAtMostLast(blocks[b], x);
    AtMostLess(Last(blocks[b]), index[b], t);
    AtMostLess(x.key, Last(blocks[b]), t);
  }

  lemma LaterBlock(blocks: seq<Block>, i: nat, b: nat, x: Row)
    requires BlocksOk(blocks) && i < b < |blocks| && x in blocks[b].rows
    ensures Less(Last(blocks[i]), x.key)
  {
    hide Less, AtMost, SortedRows;
    RowAtMostLast(blocks[b], x);
    LessAtMost(Last(blocks[i]), blocks[b].rows[0].key, x.key);
  }

  lemma PastTheEnd(index: seq<InternalKey>, blocks: seq<Block>, t: InternalKey, x: Row)
    requires IndexOk(index, blocks) && |index| == |blocks| && InTable(blocks, x)
    requires forall j :: 0 <= j < |index| ==> Less(index[j], t)
    ensures !Candidate(t, x)
  {
    hide Less, AtMost, IndexOk, Candidate;
    var b :| 0 <= b < |blocks| && x in blocks[b].rows;
    EarlierBlock(index, blocks, t, b, x);
    NotBefore(t, x);
  }

  lemma FirstInBlock(index: seq<InternalKey>, blocks: seq<Block>, t: InternalKey, i: nat, j: nat, x: Row)
    requires IndexOk(index, blocks) && |index| == |blocks| && i < |blocks| && j < |blocks[i].rows| && InTable(blocks, x)
    requires forall k :: 0 <= k < i ==> Less(index[k], t)
    requires forall k :: 0 <= k < j ==> Less(blocks[i].rows[k].key, t)
    ensures Candidate(t, x) ==> AtMost(blocks[i].rows[j].key, x.key)
  {
    hide Less, AtMost, Separator, IndexKeyOk, Candidate;
    var row := blocks[i].rows[j];
    var b :| 0 <= b < |blocks| && x in blocks[b].rows;
    if b < i {
      EarlierBlock(index, blocks, t, b, x);
      NotBefore(t, x);
    } else if b > i {
      RowAtMostLast(blocks[i], row);
      LaterBlock(blocks, i, b, x);
      AtMostLess(row.key, Last(blocks[i]), x.key);
      LessIsAtMost(row.key, x.key);
    } else {
      var m :| 0 <= m < |blocks[i].rows| && blocks[i].rows[m] == x;
      if m < j { NotBefore(t, x); } else { LessIsAtMost(row.key, x.key); }
    }
  }

  /** A key at or after the target, up to a candidate, has the target's user key. */
  lemma Squeeze(t: InternalKey, k: InternalKey, x: Row)
    requires AtMost(t, k) && AtMost(k, x.key) && x.key.user == t.user
    ensures k.user == t.user
  {
    LexTotal(t.user, k.user);
  }

  /** Past the last row of the block, up to its index key, there are no candidates. */
  lemma BeyondBlock(index: seq<InternalKey>, blocks: seq<Block>, t: InternalKey, i: nat, b: nat, x: Row)
    requires IndexOk(index, blocks) && i < |index| && i < b < |blocks| && x in blocks[b].rows
    requires AtMost(t, index[i]) && index[i] != Last(blocks[i])
    ensures !Candidate(t, x)
  {
    hide Less, Candidate, SortedRows;
    assert IndexKeyOk(blocks, i, index[i]);
    var next := blocks[i + 1].rows[0].key;
    FirstUser(blocks, i + 1, b, x);
    LexTotal(next.user, x.key.user);
    if LexLess(next.user, x.key.user) { LexTransitive(index[i].user, next.user, x.key.user); }
    UserBelow(t, index[i], x);
  }

  lemma FirstUser(blocks: seq<Block>, i: nat, b: nat, x: Row)
    requires BlocksOk(blocks) && i <= b < |blocks| && x in blocks[b].rows
    ensures LexLess(blocks[i].rows[0].key.user, x.key.user) || blocks[i].rows[0].key.user == x.key.user
  {
    hide SortedRows;
    var first := blocks[i].rows[0];
    if b == i {
      RowAtMostLast(blocks[i], x);
    } else {
      RowAtMostLast(blocks[i], first);
      LaterBlock(blocks, i, b, x);
      AtMostLess(first.key, Last(blocks[i]), x.key);
    }
    LexTotal(first.key.user, x.key.user);
  }

  lemma InTheGap(index: seq<InternalKey>, blocks: seq<Block>, t: InternalKey, i: nat, x: Row)
    requires IndexOk(index, blocks) && |index| == |blocks| && i < |blocks| && InTable(blocks, x)
    requires (forall k :: 0 <= k < i ==> Less(index[k], t)) && AtMost(t, index[i])
    requires forall k :: 0 <= k < |blocks[i].rows| ==> Less(blocks[i].rows[k].key, t)
    ensures !Candidate(t, x)
  {
    hide Less, Separator, IndexKeyOk, Candidate, SortedRows;
    var b :| 0 <= b < |blocks| && x in blocks[b].rows;
    if b < i {
      EarlierBlock(index, blocks, t, b, x);
      NotBefore(t, x);
    } else if b == i {
      NotBefore(t, x);
    } else {
      assert Less(Last(blocks[i]), t);
      LessTotal(Last(blocks[i]), t);
      BeyondBlock(index, blocks, t, i, b, x);
    }
  }

  /** A block whose filter rejects the user key holds no candidate, and neither do the
      blocks after it. */
  lemma Rejected(index: seq<InternalKey>, blocks: seq<Block>, mayMatch: (nat, Bytes) -> bool, t: InternalKey, i: nat,
                 x: Row)
    requires IndexOk(index, blocks) && |index| == |blocks| && i < |blocks| && InTable(blocks, x)
    requires (forall k :: 0 <= k < i ==> Less(index[k], t)) && AtMost(t, index[i])
    requires NoFalseNegative(blocks, mayMatch) && !mayMatch(blocks[i].offset, t.user)
    ensures !Candidate(t, x)
  {
    hide Less, Separator, IndexKeyOk, SortedRows;
    var b :| 0 <= b < |blocks| && x in blocks[b].rows;
    if b < i {
      EarlierBlock(index, blocks, t, b, x);
      NotBefore(t, x);
    } else if b > i {
      if index[i] == Last(blocks[i]) {
        LastDiffers(blocks, mayMatch, t, i);
        LaterBlock(blocks, i, b, x);
        Skipped(t, Last(blocks[i]), x);
      } else {
        BeyondBlock(index, blocks, t, i, b, x);
      }
    }
  }

  lemma LastDiffers(blocks: seq<Block>, mayMatch: (nat, Bytes) -> bool, t: InternalKey, i: nat)
    requires BlocksOk(blocks) && i < |blocks| && NoFalseNegative(blocks, mayMatch) &&
             !mayMatch(blocks[i].offset, t.user)
    ensures Last(blocks[i]).user != t.user
  {
    assert blocks[i].rows[|blocks[i].rows| - 1] in blocks[i].rows;
  }

  lemma Skipped(t: InternalKey, last: InternalKey, x: Row)
    requires AtMost(t, last) && last.user != t.user && Less(last, x.key)
    ensures !Candidate(t, x)
  {
    LexTotal(t.user, last.user);
    LexTotal(last.user, x.key.user);
    if LexLess(last.user, x.key.user) { LexTransitive(t.user, last.user, x.key.user); }
    LexTotal(t.user, t.user);
  }
}
