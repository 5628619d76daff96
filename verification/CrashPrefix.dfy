/**
 What the reader returns for every prefix of a written log: the records that lie
 wholly in the prefix, and no report of corruption.
 */
module CrashPrefix {
  import opened Keys
  import opened Coding
  import opened Log
  import opened LogReader
  import Seqs

  /** The bytes of s are in the file at p. */
  ghost predicate At(file: seq<Byte>, p: nat, s: seq<Byte>)
  {
    p + |s| <= |file| && file[p..p + |s|] == s
  }

  /** A fragment and its header never cross a block boundary. */
  lemma FitsBlock(p: nat, left: seq<Byte>)
    ensures p + Pad(p) + HEADER + |Fragment(p, left)| <= BlockEnd(p + Pad(p))
    ensures Pad(p) > 0 ==> p + Pad(p) == BlockEnd(p)
  {
  }

  lemma ParsesBack(t: Byte, fragment: seq<Byte>, rest: seq<Byte>, eof: bool)
    requires t != ZERO && |fragment| < 0x1_0000
    ensures Parse(Physical(t, fragment) + rest, eof) == Parsed(t, fragment, HEADER + |fragment|, [])
  {
    hide Checksum, LoadChecksum, StoreChecksum;
    var buffer, stored := Physical(t, fragment) + rest, StoreChecksum(Checksum([t] + fragment));
    HeaderBytes(stored, t, fragment, rest);
    ChecksumRoundTrip(Checksum([t] + fragment));
  }

  lemma HeaderBytes(stored: seq<Byte>, t: Byte, fragment: seq<Byte>, rest: seq<Byte>)
    requires |stored| == 4 && |fragment| < 0x1_0000
    ensures var b := stored + [|fragment| % 256, |fragment| / 256, t] + fragment + rest;
            && b[..4] == stored && Length(b[4], b[5]) == |fragment| && b[6] == t
            && b[6..HEADER + |fragment|] == [t] + fragment && b[HEADER..HEADER + |fragment|] == fragment
  {
  }

  /** A header cut short, or one whose fragment is cut short, is the end of the file. */
  lemma ParsesCut(t: Byte, fragment: seq<Byte>, n: nat)
    requires |fragment| < 0x1_0000 && HEADER <= n < HEADER + |fragment|
    ensures Parse(Physical(t, fragment)[..n], true) == Parsed(END_OF_FILE, [], n, [])
  {
    hide Checksum, LoadChecksum, StoreChecksum;
    HeaderBytes(StoreChecksum(Checksum([t] + fragment)), t, fragment, []);
    var b := Physical(t, fragment);
    assert b + [] == b;
    assert b[..n][4] == b[4] && b[..n][5] == b[5];
  }

  /** Reading where a fragment was written, in a file cut at n. */
  lemma PhysicalReads(file: seq<Byte>, n: nat, q: nat, t: Byte, fragment: seq<Byte>)
    requires q <= n <= |file| && t != ZERO && |fragment| < 0x1_0000
    requires At(file, q, Physical(t, fragment)) && q + HEADER + |fragment| <= BlockEnd(q)
    ensures q + HEADER + |fragment| <= n ==>
              PhysicalAt(file[..n], q) == Read(t, fragment, q + HEADER + |fragment|, [])
    ensures q + HEADER + |fragment| > n ==> PhysicalAt(file[..n], q) == Read(END_OF_FILE, [], n, [])
  {
    hide Physical, Parse, PhysicalAt, BlockEnd;
    var c, s := file[..n], Physical(t, fragment);
    var e := Limit(c, q);
    if e < q + HEADER {
      ShortTail(c, q);
    } else if q + |s| <= n {
      ParsedAt(c, q, e);
      Seqs.PrefixSlice(file, n, q, e);
      Seqs.SplitSlice(file, q, q + |s|, e);
      ParsesBack(t, fragment, file[q + |s|..e], n < BlockEnd(q));
    } else {
      ParsedAt(c, q, e);
      Seqs.PrefixSlice(file, n, q, n);
      Seqs.SlicePrefix(file, q, q + |s|, n - q);
      ParsesCut(t, fragment, n - q);
    }
  }

  /** The same with the padding before the fragment. */
  lemma PieceReads(file: seq<Byte>, n: nat, p: nat, left: seq<Byte>, begin: bool)
    requires p <= n <= |file| && At(file, p, Piece(p, left, begin))
    ensures var end := p + |Piece(p, left, begin)|;
            PhysicalAt(file[..n], p) == if end <= n then Read(TypeOf(begin, Fragment(p, left) == left),
                                                              Fragment(p, left), end, [])
                                        else Read(END_OF_FILE, [], n, [])
  {
    hide Physical, Parse, PhysicalAt, Fragment, Pad, BlockEnd;
    var f, q := Fragment(p, left), p + Pad(p);
    FitsBlock(p, left);
    Seqs.SplitAt(file, p, Zeros(Pad(p)), Physical(TypeOf(begin, f == left), f));
    if q <= n {
      if Pad(p) > 0 { TrailerSkipped(file[..n], p, q); }
      PhysicalReads(file, n, q, TypeOf(begin, f == left), f);
    } else {
      ShortTail(file[..n], p);
    }
  }

  // ---- Whole records ------------------------------------------------------------------

  /** Reading on where the rest of a record was written. */
  lemma {:induction false} RecordReads(file: seq<Byte>, n: nat, p: nat, left: seq<Byte>, begin: bool,
                                       scratch: seq<Byte>, reports: seq<nat>)
    requires p <= n <= |file| && At(file, p, Emit(p, left, begin)) && (begin ==> scratch == [])
    ensures var end := p + |Emit(p, left, begin)|;
            RecordFrom(file[..n], p, if begin then None else Some(scratch), reports)
              == if end <= n then Result(Some(scratch + left), end, reports) else Result(None, n, reports)
    decreases |left|, if Avail(p) == 0 then 1 else 0
  {
    hide PhysicalAt, Fragment, Avail, Emit, Piece, RecordFrom;
    var f, piece := Fragment(p, left), Piece(p, left, begin);
    var rest := if |left| > |f| then Emit(p + |piece|, left[|f|..], false) else [];
    EmitUnfold(p, left, begin, |f|);
    Seqs.SplitAt(file, p, piece, rest);
    PieceReads(file, n, p, left, begin);
    if p + |piece| > n {
      CutShort(file[..n], p, if begin then None else Some(scratch), reports);
    } else {
      EmptyFragment(p, left);
      Taken(file[..n], p, begin, f == left, f, scratch, p + |piece|, reports);
      if |left| > |f| {
        RecordReads(file, n, p + |piece|, left[|f|..], false, scratch + f, reports);
        Seqs.Associative(scratch, f, left[|f|..]);
        assert f + left[|f|..] == left;
      } else {
        assert f == left;
      }
    }
  }

  /** The end of the file abandons a record that was begun, without a report. */
  lemma CutShort(c: seq<Byte>, p: nat, scratch: Option<seq<Byte>>, reports: seq<nat>)
    requires p <= |c| && PhysicalAt(c, p) == Read(END_OF_FILE, [], |c|, [])
    ensures RecordFrom(c, p, scratch, reports) == Result(None, |c|, reports)
  {
    Seqs.RightEmpty(reports);
  }

  /** A fragment extends the record that was begun, and the last one ends it. */
  lemma Taken(c: seq<Byte>, p: nat, begin: bool, end: bool, f: seq<Byte>, scratch: seq<Byte>, next: nat,
              reports: seq<nat>)
    requires p <= |c| && PhysicalAt(c, p) == Read(TypeOf(begin, end), f, next, []) && (begin ==> scratch == [])
    ensures RecordFrom(c, p, if begin then None else Some(scratch), reports)
         == if end then Result(Some(scratch + f), next, reports) else RecordFrom(c, next, Some(scratch + f), reports)
  {
    Seqs.RightEmpty(reports);
    assert begin ==> scratch + f == f;
  }

  // ---- The whole log -------------------------------------------------------------------

  /** Everything the reader returns from position p on, and everything it reported. */
  function ReadAll(c: seq<Byte>, p: nat, reports: seq<nat>): (r: (seq<seq<Byte>>, seq<nat>))
    requires p <= |c|
    decreases |c| - p
  {
    var r := RecordFrom(c, p, None, reports);
    if r.record.None? then ([], r.reports)
    else
      var rest := ReadAll(c, r.next, r.reports);
      ([r.record.value] + rest.0, rest.1)
  }

  /** How many records lie wholly in the first n bytes of the log. */
  function Whole(records: seq<seq<Byte>>, n: nat): (k: nat)
    ensures k <= |records|
  {
    if |Written(records)| <= n then |records|
    else Whole(records[..|records| - 1], n)
  }

  lemma {:induction false} WholeIsMost(records: seq<seq<Byte>>, n: nat)
    ensures var k := Whole(records, n);
            |Written(records[..k])| <= n && (k < |records| ==> n < |Written(records[..k + 1])|)
  {
    hide Emit;
    assert records[..|records|] == records;
    if |Written(records)| > n {
      var m := |records| - 1;
      var k := Whole(records[..m], n);
      WholeIsMost(records[..m], n);
      assert records[..m][..k] == records[..k];
      if k < m { assert records[..m][..k + 1] == records[..k + 1]; }
    }
  }

  /** Each record is where the writer put it. */
  lemma {:induction false} RecordAt(records: seq<seq<Byte>>, i: nat)
    requires i < |records|
    ensures At(Written(records), |Written(records[..i])|, Emit(|Written(records[..i])|, records[i], true))
    ensures |Written(records[..i + 1])| == |Written(records[..i])| + |Emit(|Written(records[..i])|, records[i], true)|
  {
    hide Emit;
    var m := |records| - 1;
    assert records[..i + 1][..i] == records[..i];
    if i < m {
      RecordAt(records[..m], i);
      assert records[..m][..i] == records[..i];
      var p, e := |Written(records[..i])|, Emit(|Written(records[..i])|, records[i], true);
      assert Written(records)[p..p + |e|] == Written(records[..m])[p..p + |e|];
    } else {
      assert records[..m + 1] == records;
    }
  }

  /** The i-th read of a log cut at n. */
  lemma NthRead(records: seq<seq<Byte>>, n: nat, i: nat)
    requires n <= |Written(records)| && i <= Whole(records, n)
    ensures |Written(records[..i])| <= n && (i < Whole(records, n) ==> |Written(records[..i + 1])| <= n)
    ensures RecordFrom(Written(records)[..n], |Written(records[..i])|, None, [])
         == if i < Whole(records, n) then Result(Some(records[i]), |Written(records[..i + 1])|, [])
            else Result(None, n, [])
  {
    hide RecordFrom, Emit, Written, Whole;
    var file, k := Written(records), Whole(records, n);
    WholeIsMost(records, n);
    WrittenIncreases(records, i, k);
    if i < k { WrittenIncreases(records, i + 1, k); }
    if i < |records| {
      RecordAt(records, i);
      RecordReads(file, n, |Written(records[..i])|, records[i], true, [], []);
      assert [] + records[i] == records[i];
    } else {
      assert records[..i] == records;
      NothingLeft(file[..n]);
    }
  }

  lemma {:induction false} ReadsRest(records: seq<seq<Byte>>, n: nat, i: nat)
    requires n <= |Written(records)| && i <= Whole(records, n)
    ensures |Written(records[..i])| <= n
    ensures ReadAll(Written(records)[..n], |Written(records[..i])|, []) == (records[i..Whole(records, n)], [])
    decreases |records| - i
  {
    hide RecordFrom, Written, Whole;
    var k := Whole(records, n);
    NthRead(records, n, i);
    if i < k {
      ReadsRest(records, n, i + 1);
      assert [records[i]] + records[i + 1..k] == records[i..k];
    } else {
      assert records[i..k] == [];
    }
  }

  lemma {:induction false} WrittenIncreases(records: seq<seq<Byte>>, i: nat, j: nat)
    requires i <= j <= |records|
    ensures |Written(records[..i])| <= |Written(records[..j])|
  {
    if i < j {
      WrittenIncreases(records, i, j - 1);
      RecordAt(records, j - 1);
    }
  }

  lemma NothingLeft(c: seq<Byte>)
    ensures RecordFrom(c, |c|, None, []) == Result(None, |c|, [])
  {
    ShortTail(c, |c|);
  }

  /** For every sequence of records and every truncation of the log, the reader returns
      exactly the records wholly in the prefix and reports nothing. */
  lemma PrefixOfLog(records: seq<seq<Byte>>, n: nat)
    requires n <= |Written(records)|
    ensures ReadAll(Written(records)[..n], 0, []) == (records[..Whole(records, n)], [])
  {
    assert records[..0] == [] && records[0..Whole(records, n)] == records[..Whole(records, n)];
    ReadsRest(records, n, 0);
  }
}
