/**
 A log that was cut by a crash and is then appended to: log reuse opens the file at its
 length and goes on writing (the second constructor in db/log_writer.cc; reuse_logs in
 db/db_impl.cc).
 */
module ReopenedLog {
  import opened Keys
  import opened Coding
  import opened Log
  import opened LogReader
  import opened CrashPrefix
  import Seqs

  /** What the writer appends to a file of length pos. */
  function Appended(pos: nat, more: seq<seq<Byte>>): seq<Byte>
    decreases |more|
  {
    if more == [] then []
    else
      var e := Emit(pos, more[0], true);
      e + Appended(pos + |e|, more[1..])
  }

  method AppendAll(existing: seq<Byte>, more: seq<seq<Byte>>) returns (file: seq<Byte>)
    ensures file == existing + Appended(|existing|, more)
  {
    hide Emit, Appended;
    var writer := new Writer.Reopen(existing);
    ghost var goal := existing + Appended(|existing|, more);
    for i := 0 to |more|
      invariant writer.Valid() && fresh(writer) && goal == writer.file + Appended(|writer.file|, more[i..])
    {
      AppendedStep(|writer.file|, more[i..]);
      Seqs.Associative(writer.file, Emit(|writer.file|, more[i], true),
                       Appended(|writer.file| + |Emit(|writer.file|, more[i], true)|, more[i + 1..]));
      assert more[i..][1..] == more[i + 1..];
      writer.AddRecord(more[i]);
    }
    AppendedNone(|writer.file|);
    Seqs.RightEmpty(writer.file);
    file := writer.file;
  }

  lemma AppendedStep(pos: nat, more: seq<seq<Byte>>)
    requires more != []
    ensures var e := Emit(pos, more[0], true); Appended(pos, more) == e + Appended(pos + |e|, more[1..])
  {
    hide Emit;
  }

  lemma AppendedNone(pos: nat)
    ensures Appended(pos, []) == []
  {
  }

  // ---- Where the cut is -----------------------------------------------------------------------

  /** Where the reader stands before the cut: after the whole fragments got so far of a record
      that is begun or not. The cut is inside the next fragment or its header, or else between
      fragments, a block trailer included. length is the payload of that fragment. */
  datatype Cut = Cut(at: nat, got: seq<Byte>, begun: bool, inside: bool, length: nat)

  function CutOf(pos: nat, left: seq<Byte>, begin: bool, n: nat, got: seq<Byte>): (c: Cut)
    requires pos <= n
    ensures c.at <= n && (c.inside <==> c.at + Pad(c.at) < n)
    decreases |left|, if Avail(pos) == 0 then 1 else 0
  {
    var f, piece := Fragment(pos, left), Piece(pos, left, begin);
    if n <= pos + Pad(pos) then Cut(pos, got, !begin, false, |f|)
    else if n < pos + |piece| || f == left then Cut(pos, got, !begin, true, |f|)
    else
      EmptyFragment(pos, left);
      CutOf(pos + |piece|, left[|f|..], false, n, got + f)
  }

  function Scratch(c: Cut): Option<seq<Byte>>
  {
    if c.begun then Some(c.got) else None
  }

  /** The reader takes the whole fragments before the cut and stands at the cut. */
  lemma {:induction false} ReachesCut(c: seq<Byte>, pos: nat, left: seq<Byte>, begin: bool, n: nat, got: seq<Byte>,
                                      reports: seq<nat>)
    requires pos <= n < pos + |Emit(pos, left, begin)| && n <= |c| && (begin ==> got == [])
    requires c[pos..n] == Emit(pos, left, begin)[..n - pos]
    ensures var cut := CutOf(pos, left, begin, n, got);
            RecordFrom(c, pos, if begin then None else Some(got), reports) ==
                RecordFrom(c, cut.at, Scratch(cut), reports)
    decreases |left|, if Avail(pos) == 0 then 1 else 0
  {
    hide PhysicalAt, Fragment, Avail, Piece, RecordFrom;
    var f, piece := Fragment(pos, left), Piece(pos, left, begin);
    if n >= pos + |piece| {
      EmptyFragment(pos, left);
      var rest := Emit(pos + |piece|, left[|f|..], false);
      assert Emit(pos, left, begin) == piece + rest;
      SplitCut(c, pos, n, piece, rest);
      assert c[..|c|] == c;
      PieceReads(c, |c|, pos, left, begin);
      Taken(c, pos, begin, false, f, got, pos + |piece|, reports);
      ReachesCut(c, pos + |piece|, left[|f|..], false, n, got + f, reports);
    }
  }

  /** The file holds the first bytes of a fragment with its header. */
  ghost predicate TornAt(c: seq<Byte>, q: nat, n: nat, t: Byte, f: seq<Byte>)
  {
    && FULL <= t <= LAST && |f| < 0x1_0000 && q < n < q + HEADER + |f| <= BlockEnd(q) && n <= |c|
    && c[q..n] == Physical(t, f)[..n - q]
  }

  ghost predicate Torn(c: seq<Byte>, q: nat, n: nat, length: nat)
  {
    exists t, f :: TornAt(c, q, n, t, f) && |f| == length
  }

  /** A cut inside leaves a torn fragment. */
  lemma {:induction false} InsideIsTorn(c: seq<Byte>, pos: nat, left: seq<Byte>, begin: bool, n: nat, got: seq<Byte>)
    requires pos <= n < pos + |Emit(pos, left, begin)| && n <= |c| && c[pos..n] == Emit(pos, left, begin)[..n - pos]
    ensures var cut := CutOf(pos, left, begin, n, got); cut.inside ==> Torn(c, cut.at + Pad(cut.at), n, cut.length)
    decreases |left|, if Avail(pos) == 0 then 1 else 0
  {
    hide Fragment, Avail, Piece, TornAt, Pad;
    var f, piece := Fragment(pos, left), Piece(pos, left, begin);
    if n >= pos + |piece| {
      EmptyFragment(pos, left);
      var rest := Emit(pos + |piece|, left[|f|..], false);
      assert Emit(pos, left, begin) == piece + rest;
      SplitCut(c, pos, n, piece, rest);
      InsideIsTorn(c, pos + |piece|, left[|f|..], false, n, got + f);
    } else if n > pos + Pad(pos) {
      TornPiece(c, pos, left, begin, n);
    }
  }

  lemma TornPiece(c: seq<Byte>, pos: nat, left: seq<Byte>, begin: bool, n: nat)
    requires pos + Pad(pos) < n < pos + |Piece(pos, left, begin)| && n <= |c|
    requires c[pos..n] == Emit(pos, left, begin)[..n - pos]
    ensures TornAt(c, pos + Pad(pos), n, TypeOf(begin, Fragment(pos, left) == left), Fragment(pos, left))
  {
    hide Physical, Fragment, Avail, Emit, Pad;
    var f := Fragment(pos, left);
    var pad, s := Zeros(Pad(pos)), Physical(TypeOf(begin, f == left), f);
    EmitUnfold(pos, left, begin, |f|);
    FitsBlock(pos, left);
    var q := pos + Pad(pos);
    assert Emit(pos, left, begin)[..n - pos] == (pad + s)[..n - pos];
    assert c[q..n] == c[pos..n][|pad|..] == (pad + s)[|pad|..n - pos] == s[..n - q];
  }

  lemma SplitCut(c: seq<Byte>, pos: nat, n: nat, piece: seq<Byte>, rest: seq<Byte>)
    requires pos + |piece| <= n <= |c| && n < pos + |piece| + |rest| && c[pos..n] == (piece + rest)[..n - pos]
    ensures At(c, pos, piece) && c[pos + |piece|..n] == rest[..n - pos - |piece|]
  {
    var m := pos + |piece|;
    var s := c[pos..n];
    assert c[pos..m] == s[..|piece|];
    assert (piece + rest)[..n - pos] == piece + rest[..n - m];
    assert c[m..n] == s[|piece|..];
  }

  // ---- A cut between fragments ---------------------------------------------------------------------

  /** In a block trailer it does not matter where the reader stands. */
  lemma SameTrailer(c: seq<Byte>, at: nat, n: nat)
    requires at <= n <= at + Pad(at) <= |c|
    ensures PhysicalAt(c, at) == PhysicalAt(c, n)
  {
    hide PhysicalAt;
    TrailerSkipped(c, at, at + Pad(at));
    TrailerSkipped(c, n, at + Pad(at));
  }

  /** The beginning of a new record throws away what was begun, with a report. */
  lemma Restarts(c: seq<Byte>, x: nat, scratch: Option<seq<Byte>>, reports: seq<nat>)
    requires x <= |c| && PhysicalAt(c, x).dropped == [] &&
             (PhysicalAt(c, x).kind == FULL || PhysicalAt(c, x).kind == FIRST)
    ensures RecordFrom(c, x, scratch, reports) == RecordFrom(c, x, None, reports + Partial(scratch))
  {
    hide PhysicalAt;
    Seqs.RightEmpty(reports);
    Seqs.RightEmpty(reports + Partial(scratch));
  }

  lemma SamePlace(c: seq<Byte>, x: nat, y: nat, scratch: Option<seq<Byte>>, reports: seq<nat>)
    requires x <= |c| && y <= |c| && PhysicalAt(c, x) == PhysicalAt(c, y)
    ensures RecordFrom(c, x, scratch, reports) == RecordFrom(c, y, scratch, reports)
  {
    hide PhysicalAt;
  }

  /** What was appended at n reads back from n. */
  lemma {:induction false} ReadsAppended(c: seq<Byte>, n: nat, more: seq<seq<Byte>>, reports: seq<nat>)
    requires n <= |c| && c[n..] == Appended(n, more)
    ensures ReadAll(c, n, reports) == (more, reports)
    decreases |more|
  {
    hide RecordFrom, Emit;
    assert c[..|c|] == c;
    if more == [] {
      ReadsEnd(c, reports);
    } else {
      var e := Emit(n, more[0], true);
      assert c[n..n + |e|] == c[n..][..|e|] == e;
      assert c[n + |e|..] == c[n..][|e|..];
      RecordReads(c, |c|, n, more[0], true, [], reports);
      assert [] + more[0] == more[0];
      ReadsAppended(c, n + |e|, more[1..], reports);
      assert [more[0]] + more[1..] == more;
    }
  }

  lemma ReadsEnd(c: seq<Byte>, reports: seq<nat>)
    ensures RecordFrom(c, |c|, None, reports) == Result(None, |c|, reports)
  {
    ShortTail(c, |c|);
    CutShort(c, |c|, None, reports);
  }

  /** The first piece of an appended record begins a record. */
  lemma BeginsRecord(c: seq<Byte>, n: nat, more: seq<seq<Byte>>)
    requires n <= |c| && more != [] && c[n..] == Appended(n, more)
    ensures n + Pad(n) + HEADER <= |c|
    ensures var f := PhysicalAt(c, n); f.dropped == [] && (f.kind == FULL || f.kind == FIRST)
  {
    hide PhysicalAt, Piece, Emit;
    var left := more[0];
    var e, f, piece := Emit(n, left, true), Fragment(n, left), Piece(n, left, true);
    EmitUnfold(n, left, true, |f|);
    assert c[..|c|] == c;
    assert piece == c[n..][..|piece|] by { assert c[n..][..|e|] == e; assert e[..|piece|] == piece; }
    assert c[n..n + |piece|] == c[n..][..|piece|];
    PieceReads(c, |c|, n, left, true);
  }

  // ---- The whole records before the cut --------------------------------------------------------------

  lemma WholeRead(c: seq<Byte>, records: seq<seq<Byte>>, i: nat)
    requires i < |records| && Written(records) <= c
    ensures |Written(records[..i])| <= |Written(records[..i + 1])| <= |Written(records)|
    ensures RecordFrom(c, |Written(records[..i])|, None, []) ==
            Result(Some(records[i]), |Written(records[..i + 1])|, [])
  {
    hide RecordFrom, Written, Emit;
    var p := |Written(records[..i])|;
    RecordAt(records, i);
    WrittenIncreases(records, i + 1, |records|);
    assert records[..|records|] == records && c[..|c|] == c;
    var e := Emit(p, records[i], true);
    assert Written(records)[p..p + |e|] == c[p..p + |e|];
    RecordReads(c, |c|, p, records[i], true, [], []);
    assert [] + records[i] == records[i];
  }

  lemma {:induction false} ReadsWhole(c: seq<Byte>, records: seq<seq<Byte>>, i: nat)
    requires i <= |records| && Written(records) <= c
    ensures |Written(records[..i])| <= |Written(records)|
    ensures var rest := ReadAll(c, |Written(records)|, []);
            ReadAll(c, |Written(records[..i])|, []) == (records[i..] + rest.0, rest.1)
    decreases |records| - i
  {
    hide RecordFrom, Written;
    var rest := ReadAll(c, |Written(records)|, []);
    if i == |records| {
      assert records[..i] == records && records[i..] == [];
      assert [] + rest.0 == rest.0;
    } else {
      WholeRead(c, records, i);
      ReadsWhole(c, records, i + 1);
      Seqs.Associative([records[i]], records[i + 1..], rest.0);
      assert [records[i]] + records[i + 1..] == records[i..];
    }
  }

  // ---- The reopened log ---------------------------------------------------------------------------------

  /** What the file holds of the records before the cut. */
  lemma CutFile(records: seq<seq<Byte>>, n: nat, k: nat, c: seq<Byte>)
    requires n <= |Written(records)| && k == Whole(records, n) && Written(records)[..n] <= c
    ensures Written(records[..k]) <= c && |Written(records[..k])| <= n
    ensures k == |records| ==> n == |Written(records)|
    ensures k < |records| ==>
              var p := |Written(records[..k])|;
              var e := Emit(p, records[k], true);
              n < p + |e| && c[p..n] == e[..n - p]
  {
    hide Emit, Whole, Written;
    WholeIsMost(records, n);
    var w := Written(records);
    WrittenPrefix(records, k);
    var p := |Written(records[..k])|;
    assert c[..p] == w[..n][..p] == w[..p];
    assert c[p..n] == w[..n][p..n] == w[p..n];
    if k < |records| {
      RecordAt(records, k);
      var e := Emit(p, records[k], true);
      assert w[p..n] == w[p..p + |e|][..n - p];
    } else {
      assert records[..k] == records;
    }
  }

  lemma {:induction false} WrittenPrefix(records: seq<seq<Byte>>, k: nat)
    requires k <= |records|
    ensures Written(records[..k]) <= Written(records)
  {
    hide Emit;
    if k == |records| {
      assert records[..k] == records;
    } else {
      var m := |records| - 1;
      WrittenPrefix(records[..m], k);
      assert records[..m][..k] == records[..k];
    }
  }

  /** What happens at the cut: between fragments the appended records are read on, and what
      was begun is reported; inside a fragment the outcome depends on the rest of the block. */
  lemma AtCut(c: seq<Byte>, p: nat, record: seq<Byte>, n: nat, more: seq<seq<Byte>>)
    requires p <= n < p + |Emit(p, record, true)| && n <= |c| && c[p..n] == Emit(p, record, true)[..n - p]
    requires more != [] && c[n..] == Appended(n, more)
    ensures var cut := CutOf(p, record, true, n, []);
            && (!cut.inside ==> ReadAll(c, p, []) == (more, Partial(Scratch(cut))))
            && (cut.inside && Pad(n) > 0 ==> EndsWith(ReadAll(c, p, []).0, more))
            && (cut.inside && Pad(n) == 0 && !Passes(c, cut.at + Pad(cut.at)) ==>
                  ReadAll(c, p, []).0 == Survivors(n, more, BlockEnd(n)))
  {
    hide Emit, RecordFrom, PhysicalAt, CutOf, Appended, ReadAll, TornAt, EndsWith, Passes, Survivors;
    ReachesCut(c, p, record, true, n, [], []);
    InsideIsTorn(c, p, record, true, n, []);
    BeginsRecord(c, n, more);
    var cut := CutOf(p, record, true, n, []);
    if !cut.inside {
      ReadsOn(c, p, n, cut, more);
    } else {
      var t, f :| TornAt(c, cut.at + Pad(cut.at), n, t, f) && |f| == cut.length;
      if Pad(n) > 0 {
        ReachesBlockEnd(c, p, cut, n, t, f, more);
      } else if !Passes(c, cut.at + Pad(cut.at)) {
        DropsBlock(c, p, cut, n, t, f, more);
      }
    }
  }

  /** A log cut at n and appended to. If the cut is between records or fragments, everything
      appended is read back after the whole records; a record begun before the cut is
      reported, unless none of its bytes are there. If it is inside a fragment, they are read
      back too when no header fits into the rest of the block, after at most one record made
      of the torn one. Otherwise, unless the checksum of the torn fragment holds by accident,
      exactly the records that begin in later blocks are read back, and the first is lost. */
  lemma Reopened(records: seq<seq<Byte>>, n: nat, more: seq<seq<Byte>>)
    requires n <= |Written(records)| && more != []
    ensures var c, k := Written(records)[..n] + Appended(n, more), Whole(records, n);
            var p := |Written(records[..k])|;
            && p <= n && (k == |records| ==> ReadAll(c, 0, []) == (records + more, []))
            && (k < |records| ==>
                  var cut := CutOf(p, records[k], true, n, []);
                  && (!cut.inside ==> ReadAll(c, 0, []) == (records[..k] + more, Partial(Scratch(cut))))
                  && (cut.inside ==> ReadAll(c, 0, []).0 == records[..k] + ReadAll(c, p, []).0)
                  && (cut.inside && Pad(n) > 0 ==> EndsWith(ReadAll(c, p, []).0, more))
                  && (cut.inside && Pad(n) == 0 && !Passes(c, cut.at + Pad(cut.at)) ==>
                        ReadAll(c, p, []).0 == Survivors(n, more, BlockEnd(n)) && !EndsWith(ReadAll(c, p, []).0, more)))
  {
    hide Emit, Whole, Written, RecordFrom, PhysicalAt, CutOf, Appended, ReadAll, Pad, Partial, Scratch, EndsWith,
         Passes, Survivors;
    var file := Written(records)[..n];
    var c, k := file + Appended(n, more), Whole(records, n);
    assert c[n..] == Appended(n, more);
    CutFile(records, n, k, c);
    var whole := records[..k];
    ReadsWhole(c, whole, 0);
    assert whole[..0] == [] && whole[0..] == whole;
    NothingWritten();
    if k == |records| {
      ReadsAppended(c, n, more, []);
      assert whole == records;
    } else {
      AtCut(c, |Written(whole)|, records[k], n, more);
      if Pad(n) == 0 { FirstIsLost(n, more); }
    }
  }

  lemma NothingWritten()
    ensures Written([]) == []
  {
  }

  lemma ReadsOn(c: seq<Byte>, p: nat, n: nat, cut: Cut, more: seq<seq<Byte>>)
    requires p <= n <= |c| && more != [] && c[n..] == Appended(n, more) && cut.at <= n <= cut.at + Pad(cut.at)
    requires RecordFrom(c, p, None, []) == RecordFrom(c, cut.at, Scratch(cut), [])
    ensures ReadAll(c, p, []) == (more, Partial(Scratch(cut)))
  {
    hide RecordFrom, PhysicalAt, Appended, Partial;
    var told := Partial(Scratch(cut));
    BeginsRecord(c, n, more);
    TrailerEnds(cut.at, n);
    SameTrailer(c, cut.at, n);
    SamePlace(c, cut.at, n, Scratch(cut), []);
    Restarts(c, n, Scratch(cut), []);
    assert [] + told == told;
    ReadsAppended(c, n, more, told);
  }

  lemma TrailerEnds(at: nat, n: nat)
    requires at <= n <= at + Pad(at)
    ensures at + Pad(at) == n + Pad(n)
  {
  }

  /** A read that starts inside the torn fragment's header or at it goes past the cut. */
  lemma StepsOver(c: seq<Byte>, at: nat, n: nat, t: Byte, f: seq<Byte>)
    requires TornAt(c, at + Pad(at), n, t, f) && Pad(n) == 0 && n + HEADER <= |c|
    ensures PhysicalAt(c, at).next > n
  {
    hide Physical;
    var q := at + Pad(at);
    hide PhysicalAt, Parse;
    TrailerSkipped(c, at, q);
    var e := Limit(c, q);
    RoomLeft(q, n, |f|);
    ParsedAt(c, q, e);
    var buffer := c[q..e];
    UsedBytes(buffer, |c| < BlockEnd(q));
    if n - q >= HEADER { TornLength(c, q, n, t, f, e); }
  }

  lemma RoomLeft(q: nat, n: nat, length: nat)
    requires q < n < q + HEADER + length <= BlockEnd(q) && Pad(n) == 0
    ensures n + HEADER <= BlockEnd(q)
  {
  }

  lemma UsedBytes(buffer: seq<Byte>, eof: bool)
    requires |buffer| >= HEADER
    ensures Parse(buffer, eof).used == |buffer| || Parse(buffer, eof).used == HEADER + Length(buffer[4], buffer[5])
  {
    hide Checksum, LoadChecksum;
  }

  lemma TornLength(c: seq<Byte>, q: nat, n: nat, t: Byte, f: seq<Byte>, e: nat)
    requires TornAt(c, q, n, t, f) && n - q >= HEADER && n <= e <= |c|
    ensures Length(c[q..e][4], c[q..e][5]) == |f|
  {
    hide Checksum, StoreChecksum;
    HeaderBytes(StoreChecksum(Checksum([t] + f)), t, f, []);
    var b := Physical(t, f);
    assert b + [] == b;
    assert c[q..e][4] == c[q..n][4] == b[4] && c[q..e][5] == c[q..n][5] == b[5];
  }

  // ---- A torn fragment at the end of a block -----------------------------------------------------------

  /** The records, after at most one other. */
  ghost predicate EndsWith(all: seq<seq<Byte>>, more: seq<seq<Byte>>)
  {
    all == more || (all != [] && all[1..] == more)
  }

  /** The torn fragment, filled up with zeros, is dropped or taken; either way the reader comes
      to the end of the block, where the appended records begin. */
  lemma TornRead(c: seq<Byte>, at: nat, n: nat, t: Byte, f: seq<Byte>)
    requires TornAt(c, at + Pad(at), n, t, f) && Pad(n) > 0 && n + Pad(n) <= |c|
    requires c[n..n + Pad(n)] == Zeros(Pad(n))
    ensures var r := PhysicalAt(c, at);
            r.kind != END_OF_FILE && r.next <= n + Pad(n) && (n <= r.next) &&
                PhysicalAt(c, r.next) == PhysicalAt(c, n + Pad(n))
  {
    hide PhysicalAt, Parse, Physical;
    var q, e := at + Pad(at), n + Pad(n);
    BlockFilled(q, n, |f|);
    TrailerSkipped(c, at, q);
    ParsedAt(c, q, e);
    var buffer := c[q..e];
    UsedBytes(buffer, false);
    if n - q >= HEADER {
      TornLength(c, q, n, t, f, e);
      TornType(c, q, n, t, f, e);
    } else {
      assert buffer[6] == c[n..e][q + 6 - n] == 0;
    }
    ParsedKind(buffer);
    var next := PhysicalAt(c, q).next;
    BlockTail(q, next, e);
    TrailerSkipped(c, next, e);
  }

  lemma BlockFilled(q: nat, n: nat, length: nat)
    requires q < n < q + HEADER + length <= BlockEnd(q) && Pad(n) > 0
    ensures n + Pad(n) == BlockEnd(q)
  {
  }

  lemma BlockTail(q: nat, next: nat, e: nat)
    requires e == BlockEnd(q) && q <= next <= e
    ensures next < e ==> BlockEnd(next) == e
  {
  }

  lemma ParsedKind(buffer: seq<Byte>)
    requires |buffer| >= HEADER
    ensures Parse(buffer, false).kind == BAD_RECORD || Parse(buffer, false).kind == buffer[6]
  {
    hide Checksum, LoadChecksum;
  }

  lemma TornType(c: seq<Byte>, q: nat, n: nat, t: Byte, f: seq<Byte>, e: nat)
    requires TornAt(c, q, n, t, f) && n - q >= HEADER && n <= e <= |c|
    ensures c[q..e][6] == t
  {
    hide Checksum, StoreChecksum;
    HeaderBytes(StoreChecksum(Checksum([t] + f)), t, f, []);
    var b := Physical(t, f);
    assert b + [] == b;
    assert c[q..e][6] == c[q..n][6] == b[6];
  }

  lemma PadZeros(c: seq<Byte>, n: nat, more: seq<seq<Byte>>)
    requires n <= |c| && more != [] && c[n..] == Appended(n, more)
    ensures n + Pad(n) <= |c| && c[n..n + Pad(n)] == Zeros(Pad(n))
  {
    hide Physical, Emit;
    var left := more[0];
    var e, f, piece := Emit(n, left, true), Fragment(n, left), Piece(n, left, true);
    EmitUnfold(n, left, true, |f|);
    assert c[n..][..|e|] == e && e[..|piece|] == piece;
    assert c[n..n + Pad(n)] == c[n..][..Pad(n)] == piece[..Pad(n)];
  }

  lemma ReachesBlockEnd(c: seq<Byte>, p: nat, cut: Cut, n: nat, t: Byte, f: seq<Byte>, more: seq<seq<Byte>>)
    requires p <= n <= |c| && more != [] && c[n..] == Appended(n, more) && cut.at <= n
    requires RecordFrom(c, p, None, []) == RecordFrom(c, cut.at, Scratch(cut), [])
    requires TornAt(c, cut.at + Pad(cut.at), n, t, f) && Pad(n) > 0
    ensures EndsWith(ReadAll(c, p, []).0, more)
  {
    hide PhysicalAt, Appended, TornAt, Partial;
    PadZeros(c, n, more);
    TornRead(c, cut.at, n, t, f);
    var r := PhysicalAt(c, cut.at);
    TrailerSkippedAt(c, n);
    var s := Take(r.kind, r.fragment, Scratch(cut));
    var told := [] + r.dropped + s.told;
    FromAnywhere(c, n, r.next, s.kept, told, more);
    FromAnywhere(c, n, r.next, None, told, more);
    if s.done {
      assert s.kept.Some?;
      assert ReadAll(c, p, []).0 == [s.kept.value] + more;
    } else {
      assert RecordFrom(c, p, None, []) == RecordFrom(c, r.next, s.kept, told);
    }
  }

  lemma TrailerSkippedAt(c: seq<Byte>, n: nat)
    requires Pad(n) > 0 && n + Pad(n) <= |c|
    ensures PhysicalAt(c, n) == PhysicalAt(c, n + Pad(n))
  {
    hide PhysicalAt;
    TrailerSkipped(c, n, n + Pad(n));
  }

  /** From a place where the reader sees what it sees at n, it reads what was appended there. */
  lemma FromAnywhere(c: seq<Byte>, n: nat, x: nat, scratch: Option<seq<Byte>>, told: seq<nat>, more: seq<seq<Byte>>)
    requires n <= |c| && x <= |c| && more != [] && c[n..] == Appended(n, more) && PhysicalAt(c, x) == PhysicalAt(c, n)
    ensures RecordFrom(c, x, scratch, told) == RecordFrom(c, n, None, told + Partial(scratch))
    ensures scratch == None ==> ReadAll(c, x, told).0 == more
    ensures var first := RecordFrom(c, x, scratch, told);
            first.record.Some? && [first.record.value] + ReadAll(c, first.next, first.reports).0 == more
  {
    hide RecordFrom, PhysicalAt, Appended;
    BeginsRecord(c, n, more);
    SamePlace(c, x, n, scratch, told);
    Restarts(c, n, scratch, told);
    Seqs.RightEmpty(told);
    ReadsAppended(c, n, more, told + Partial(scratch));
  }

  // ---- A torn fragment in a block that goes on ------------------------------------------------------------

  /** The bytes at q, old and new mixed, make up a fragment with a good checksum. */
  predicate Passes(c: seq<Byte>, q: nat)
  {
    && q + HEADER <= Limit(c, q)
    && var buffer := c[q..Limit(c, q)];
    var length := Length(buffer[4], buffer[5]);
    && HEADER + length <= |buffer| && !(buffer[6] == ZERO && length == 0)
    && LoadChecksum(buffer[..4]) == Checksum(buffer[6..HEADER + length])
  }

  /** Of the records appended at pos, those that begin at or after e. */
  function Survivors(pos: nat, more: seq<seq<Byte>>, e: nat): seq<seq<Byte>>
    decreases |more|
  {
    if more == [] || pos + Pad(pos) >= e then more
    else Survivors(pos + |Emit(pos, more[0], true)|, more[1..], e)
  }

  lemma {:induction false} FewerSurvive(pos: nat, more: seq<seq<Byte>>, e: nat)
    ensures |Survivors(pos, more, e)| <= |more|
    decreases |more|
  {
    hide Emit;
    if more != [] && pos + Pad(pos) < e { FewerSurvive(pos + |Emit(pos, more[0], true)|, more[1..], e); }
  }

  /** The first record begins in the block of the cut, so it does not survive. */
  lemma FirstIsLost(n: nat, more: seq<seq<Byte>>)
    requires Pad(n) == 0 && more != []
    ensures |Survivors(n, more, BlockEnd(n))| < |more| && !EndsWith(Survivors(n, more, BlockEnd(n)), more)
  {
    hide Emit;
    FewerSurvive(n + |Emit(n, more[0], true)|, more[1..], BlockEnd(n));
  }

  /** Nothing begins after the end of the file. */
  lemma {:induction false} NoneSurvive(pos: nat, more: seq<seq<Byte>>, e: nat)
    requires pos + |Appended(pos, more)| < e
    ensures Survivors(pos, more, e) == []
    decreases |more|
  {
    hide Emit;
    if more != [] {
      var d := Emit(pos, more[0], true);
      NoneSurvive(pos + |d|, more[1..], e);
      PadInside(pos, more[0]);
    }
  }

  lemma PadInside(pos: nat, left: seq<Byte>)
    ensures Pad(pos) < |Emit(pos, left, true)|
  {
    hide Emit, Piece;
    EmitUnfold(pos, left, true, |Fragment(pos, left)|);
  }

  lemma NotPassing(buffer: seq<Byte>, eof: bool)
    requires |buffer| >= HEADER
    requires var length := Length(buffer[4], buffer[5]);
             !(HEADER + length <= |buffer| && !(buffer[6] == ZERO && length == 0)
               && LoadChecksum(buffer[..4]) == Checksum(buffer[6..HEADER + length]))
    ensures var r := Parse(buffer, eof);
            && r.fragment == [] && r.used == |buffer| &&
               (r.kind == BAD_RECORD || (r.kind == END_OF_FILE && eof && r.dropped == []))
  {
    hide Checksum, LoadChecksum;
  }

  /** Where the reader goes on after a record that it drops. */
  lemma SameRest(c: seq<Byte>, x: nat, y: nat, before: seq<nat>, after: seq<nat>)
    requires x <= |c| && y <= |c| && RecordFrom(c, x, None, before) == RecordFrom(c, y, None, after)
    ensures ReadAll(c, x, before) == ReadAll(c, y, after)
  {
    hide RecordFrom;
  }

  lemma DropsBlock(c: seq<Byte>, p: nat, cut: Cut, n: nat, t: Byte, f: seq<Byte>, more: seq<seq<Byte>>)
    requires p <= n <= |c| && more != [] && c[n..] == Appended(n, more) && cut.at <= n
    requires RecordFrom(c, p, None, []) == RecordFrom(c, cut.at, Scratch(cut), [])
    requires TornAt(c, cut.at + Pad(cut.at), n, t, f) && Pad(n) == 0 && !Passes(c, cut.at + Pad(cut.at))
    ensures ReadAll(c, p, []).0 == Survivors(n, more, BlockEnd(n))
  {
    hide PhysicalAt, Parse, Appended, Survivors, Physical, RecordFrom, ReadAll, Partial;
    var q := cut.at + Pad(cut.at);
    var e := Limit(c, q);
    BeginsRecord(c, n, more);
    RoomLeft(q, n, |f|);
    SameBlockEnd(q, n);
    TrailerSkipped(c, cut.at, q);
    ParsedAt(c, q, e);
    NotPassing(c[q..e], |c| < BlockEnd(q));
    AfterDrop(c, p, cut, n, e, more);
  }

  lemma AfterDrop(c: seq<Byte>, p: nat, cut: Cut, n: nat, e: nat, more: seq<seq<Byte>>)
    requires p <= n < e <= |c| && e == Limit(c, n) && c[n..] == Appended(n, more) && cut.at <= n
    requires RecordFrom(c, p, None, []) == RecordFrom(c, cut.at, Scratch(cut), [])
    requires var r := PhysicalAt(c, cut.at);
             && r.fragment == [] && r.next == e
             && (r.kind == BAD_RECORD || (r.kind == END_OF_FILE && |c| < BlockEnd(n) && r.dropped == []))
    ensures ReadAll(c, p, []).0 == Survivors(n, more, BlockEnd(n))
  {
    hide PhysicalAt, Appended, Survivors, RecordFrom, ReadAll, Partial;
    var r := PhysicalAt(c, cut.at);
    if r.kind == END_OF_FILE {
      CutShort(c, cut.at, Scratch(cut), []);
      ReadsNothing(c, p, [], []);
      NoneSurvive(n, more, BlockEnd(n));
    } else {
      var told := [] + r.dropped + Take(BAD_RECORD, [], Scratch(cut)).told;
      Drops(c, cut.at, Scratch(cut), told);
      SameRest(c, p, e, [], told);
      if |c| < BlockEnd(n) {
        ReadsEnd(c, told);
        ReadsNothing(c, e, told, told);
        NoneSurvive(n, more, BlockEnd(n));
      } else {
        InSync(c, n, more, e, told);
      }
    }
  }

  lemma SameBlockEnd(q: nat, n: nat)
    requires q < n < BlockEnd(q)
    ensures BlockEnd(q) == BlockEnd(n)
  {
  }

  lemma Drops(c: seq<Byte>, x: nat, scratch: Option<seq<Byte>>, told: seq<nat>)
    requires x <= |c| && PhysicalAt(c, x).kind == BAD_RECORD
    requires told == [] + PhysicalAt(c, x).dropped + Take(BAD_RECORD, [], scratch).told
    ensures RecordFrom(c, x, scratch, []) == RecordFrom(c, PhysicalAt(c, x).next, None, told)
  {
    hide PhysicalAt;
  }

  lemma ReadsNothing(c: seq<Byte>, x: nat, before: seq<nat>, after: seq<nat>)
    requires x <= |c| && RecordFrom(c, x, None, before) == Result(None, |c|, after)
    ensures ReadAll(c, x, before) == ([], after)
  {
    hide RecordFrom;
  }

  /** At the end of a block the reader is in step with the writer again: it drops the rest of a
      record that began before, and reads all that begin later. */
  lemma {:induction false} InSync(c: seq<Byte>, n: nat, more: seq<seq<Byte>>, e: nat, told: seq<nat>)
    requires n <= e <= |c| && e % BLOCK == 0 && (n < e ==> BlockEnd(n) == e) && c[n..] == Appended(n, more)
    ensures ReadAll(c, e, told).0 == Survivors(n, more, e)
    decreases |more|
  {
    hide RecordFrom, PhysicalAt, Emit, ReadAll, Appended;
    if more == [] {
      AppendedNone(n);
      ReadsEnd(c, told);
      ReadsNothing(c, e, told, told);
    } else if n + Pad(n) >= e {
      BeginsRecord(c, n, more);
      AtBlockEnd(n, e);
      if Pad(n) > 0 { TrailerSkippedAt(c, n); }
      FromAnywhere(c, n, e, None, told, more);
    } else {
      var d := Emit(n, more[0], true);
      AppendedStep(n, more);
      assert c[n..n + |d|] == c[n..][..|d|] == d;
      assert c[n + |d|..] == c[n..][|d|..] == Appended(n + |d|, more[1..]);
      if n + |d| <= e {
        InBlock(n, n + |d|, e);
        InSync(c, n + |d|, more[1..], e, told);
      } else {
        var after := Crosses(c, n, more[0], e, told);
        SameRest(c, e, n + |d|, told, after);
        ReadsAppended(c, n + |d|, more[1..], after);
      }
    }
  }

  lemma AtBlockEnd(n: nat, e: nat)
    requires n <= e <= n + Pad(n) && e % BLOCK == 0
    ensures n + Pad(n) == e
  {
  }

  lemma InBlock(n: nat, m: nat, e: nat)
    requires n <= m <= e && BlockEnd(n) == e
    ensures m < e ==> BlockEnd(m) == e
  {
  }

  /** The rest of a record that began before the block. */
  lemma Crosses(c: seq<Byte>, n: nat, left: seq<Byte>, e: nat, told: seq<nat>) returns (after: seq<nat>)
    requires n + Pad(n) < e == BlockEnd(n) && At(c, n, Emit(n, left, true)) && n + |Emit(n, left, true)| > e
    ensures RecordFrom(c, e, None, told) == RecordFrom(c, n + |Emit(n, left, true)|, None, after)
  {
    hide RecordFrom, PhysicalAt, Emit;
    var f, piece := Fragment(n, left), Piece(n, left, true);
    EmitUnfold(n, left, true, |f|);
    FillsBlock(n, left, e);
    var rest := Emit(e, left[|f|..], false);
    Seqs.SplitAt(c, n, piece, rest);
    after := Orphans(c, e, left[|f|..], told);
  }

  lemma FillsBlock(n: nat, left: seq<Byte>, e: nat)
    requires n + Pad(n) < e == BlockEnd(n)
    ensures Fragment(n, left) != left ==> n + |Piece(n, left, true)| == e
    ensures n + |Piece(n, left, true)| <= e
  {
  }

  /** Fragments without a beginning are reported and dropped. */
  lemma {:induction false} Orphans(c: seq<Byte>, pos: nat, left: seq<Byte>, told: seq<nat>) returns (after: seq<nat>)
    requires At(c, pos, Emit(pos, left, false))
    ensures RecordFrom(c, pos, None, told) == RecordFrom(c, pos + |Emit(pos, left, false)|, None, after)
    decreases |left|, if Avail(pos) == 0 then 1 else 0
  {
    hide RecordFrom, PhysicalAt, Emit, Fragment, Avail, Piece;
    var f, piece := Fragment(pos, left), Piece(pos, left, false);
    var rest := if |left| > |f| then Emit(pos + |piece|, left[|f|..], false) else [];
    EmitUnfold(pos, left, false, |f|);
    Seqs.SplitAt(c, pos, piece, rest);
    assert c[..|c|] == c;
    PieceReads(c, |c|, pos, left, false);
    after := told + [|f|];
    DropsOrphan(c, pos, f == left, f, pos + |piece|, told);
    if |left| > |f| {
      EmptyFragment(pos, left);
      after := Orphans(c, pos + |piece|, left[|f|..], after);
    }
  }

  lemma DropsOrphan(c: seq<Byte>, x: nat, last: bool, f: seq<Byte>, next: nat, told: seq<nat>)
    requires x <= |c| && PhysicalAt(c, x) == Read(TypeOf(false, last), f, next, [])
    ensures RecordFrom(c, x, None, told) == RecordFrom(c, next, None, told + [|f|])
  {
    hide PhysicalAt;
    Seqs.RightEmpty(told);
  }

  // ---- Records lost without a report ---------------------------------------------------------------------------

  /** The header of the torn fragment is whole, and with so many bytes after the cut the file
      ends before the length in it. */
  ghost predicate Silent(records: seq<seq<Byte>>, n: nat, after: nat)
  {
    var k := Whole(records, n);
    && k < |records| && |Written(records[..k])| <= n
    && var cut := CutOf(|Written(records[..k])|, records[k], true, n, []);
    && cut.inside && cut.at + Pad(cut.at) + HEADER <= n
    && n + after < cut.at + Pad(cut.at) + HEADER + cut.length
  }

  /** If the header of the torn fragment is whole and the file ends before the length in it, the
      reader takes that for the end of the file: whatever was written after the cut is lost, and
      nothing is reported. */
  lemma LostSilently(records: seq<seq<Byte>>, n: nat, tail: seq<Byte>)
    requires n <= |Written(records)| && Silent(records, n, |tail|)
    ensures ReadAll(Written(records)[..n] + tail, 0, []) == (records[..Whole(records, n)], [])
  {
    hide Whole, Written, RecordFrom, ReadAll, Silent;
    var c, k := Written(records)[..n] + tail, Whole(records, n);
    var whole := records[..k];
    EndsAtCut(records, n, tail);
    ReadsWhole(c, whole, 0);
    assert whole[..0] == [] && whole[0..] == whole;
    NothingWritten();
    ReadsNothing(c, |Written(whole)|, [], []);
    Seqs.RightEmpty(whole);
  }

  lemma EndsAtCut(records: seq<seq<Byte>>, n: nat, tail: seq<Byte>)
    requires n <= |Written(records)| && Silent(records, n, |tail|)
    ensures var c, whole := Written(records)[..n] + tail, records[..Whole(records, n)];
            Written(whole) <= c && RecordFrom(c, |Written(whole)|, None, []) == Result(None, |c|, [])
  {
    hide Emit, Whole, Written, RecordFrom, PhysicalAt, CutOf, Pad, TornAt;
    var c, k := Written(records)[..n] + tail, Whole(records, n);
    CutFile(records, n, k, c);
    var p := |Written(records[..k])|;
    ReachesCut(c, p, records[k], true, n, [], []);
    InsideIsTorn(c, p, records[k], true, n, []);
    var cut := CutOf(p, records[k], true, n, []);
    var t, f :| TornAt(c, cut.at + Pad(cut.at), n, t, f) && |f| == cut.length;
    TooShort(c, cut.at, n, t, f);
    CutShort(c, cut.at, Scratch(cut), []);
  }

  lemma TooShort(c: seq<Byte>, at: nat, n: nat, t: Byte, f: seq<Byte>)
    requires TornAt(c, at + Pad(at), n, t, f) && at + Pad(at) + HEADER <= n && |c| < at + Pad(at) + HEADER + |f|
    ensures PhysicalAt(c, at) == Read(END_OF_FILE, [], |c|, [])
  {
    hide PhysicalAt, Physical, Checksum, LoadChecksum;
    var q := at + Pad(at);
    TrailerSkipped(c, at, q);
    ParsedAt(c, q, |c|);
    TornLength(c, q, n, t, f, |c|);
  }

  /** A record of 100 bytes cut at byte 50, then a record of 3 bytes: nothing is read, nothing
      is reported. */
  lemma LostExample(r: seq<Byte>, x: seq<Byte>)
    requires |r| == 100 && |x| == 3
    ensures 50 <= |Written([r])| && ReadAll(Written([r])[..50] + Appended(50, [x]), 0, []) == ([], [])
  {
    hide Physical, ReadAll, Written, Appended, Emit;
    OneRecord(r);
    OneAppended(50, x);
    NothingWritten();
    assert [r][..0] == [];
    assert Whole([], 50) == 0 && Whole([r], 50) == 0;
    assert CutOf(0, r, true, 50, []) == Cut(0, [], false, true, 100);
    LostSilently([r], 50, Appended(50, [x]));
  }

  /** The accident: a record of one byte is cut before that byte, and the first byte appended
      happens to be it. The torn record reads back whole and the appended one is lost. */
  lemma Accident(x: seq<Byte>) returns (b: Byte)
    requires |x| < 200
    ensures 7 <= |Written([[b]])| && Passes(Written([[b]])[..7] + Appended(7, [x]), 0)
    ensures ReadAll(Written([[b]])[..7] + Appended(7, [x]), 0, []) == ([[b]], [])
  {
    hide Checksum, LoadChecksum, StoreChecksum, ReadAll, RecordFrom, PhysicalAt, Written, Appended, Passes;
    b := StoreChecksum(Checksum([FULL] + x))[0];
    var one, two := Physical(FULL, [b]), Physical(FULL, x);
    OneRecord([b]);
    OneAppended(7, x);
    var c := one[..7] + two;
    assert c == one + two[1..] by { assert one == one[..7] + [b]; assert two == [b] + two[1..]; }
    AccidentReads(c, one, two, b, x);
  }

  lemma OneRecord(r: seq<Byte>)
    requires |r| < 200
    ensures Written([r]) == Physical(FULL, r)
  {
    hide Physical;
    NothingWritten();
    OnePiece(0, r);
    assert [r][..0] == [] && [] + Emit(0, r, true) == Emit(0, r, true);
  }

  lemma OneAppended(pos: nat, r: seq<Byte>)
    requires pos < 200 && |r| < 200
    ensures Appended(pos, [r]) == Physical(FULL, r)
  {
    hide Physical, Emit;
    OnePiece(pos, r);
    AppendedStep(pos, [r]);
    AppendedNone(pos + |Emit(pos, r, true)|);
    assert [r][1..] == [];
    Seqs.RightEmpty(Emit(pos, r, true));
  }

  lemma OnePiece(pos: nat, r: seq<Byte>)
    requires pos < 200 && |r| < 200
    ensures Emit(pos, r, true) == Physical(FULL, r)
  {
    hide Physical;
    assert Pad(pos) == 0 && Fragment(pos, r) == r;
    NoZeros();
    assert Zeros(0) + Physical(FULL, r) == Physical(FULL, r);
  }

  lemma AccidentReads(c: seq<Byte>, one: seq<Byte>, two: seq<Byte>, b: Byte, x: seq<Byte>)
    requires |x| < 200 && one == Physical(FULL, [b]) == Written([[b]]) && two == Physical(FULL, x) &&
             c == one + two[1..]
    ensures Passes(c, 0) && ReadAll(c, 0, []) == ([[b]], [])
  {
    hide Checksum, LoadChecksum, StoreChecksum, RecordFrom, PhysicalAt, ReadAll, Written;
    HeaderBytes(StoreChecksum(Checksum([FULL] + [b])), FULL, [b], two[1..]);
    ChecksumRoundTrip(Checksum([FULL] + [b]));
    assert c[0..|c|] == c;
    ReadsWhole(c, [[b]], 0);
    NothingWritten();
    assert [[b]][..0] == [] && [[b]][0..] == [[b]];
    if |c| < 8 + HEADER {
      ShortTail(c, 8);
    } else {
      ParsedAt(c, 8, |c|);
      assert c[8..|c|][4] == two[5] == 0 && c[8..|c|][5] == two[6] == FULL;
    }
    CutShort(c, 8, None, []);
    ReadsNothing(c, 8, [], []);
    Seqs.RightEmpty([[b]]);
  }

  // ---- Where the reader goes -----------------------------------------------------------------------------------

  /** The reader, standing at x, comes to where the writer put a record at n. */
  ghost predicate Reached(c: seq<Byte>, x: nat, n: nat)
    requires x <= |c|
    decreases |c| - x
  {
    || x + Pad(x) == n + Pad(n)
    || (x + Pad(x) < n + Pad(n) && PhysicalAt(c, x).kind != END_OF_FILE && Reached(c, PhysicalAt(c, x).next, n))
  }

  lemma {:induction false} ReachedThrough(c: seq<Byte>, pos: nat, left: seq<Byte>, begin: bool, n: nat)
    requires At(c, pos, Emit(pos, left, begin)) && pos + |Emit(pos, left, begin)| <= n
    ensures Reached(c, pos, n) <==> Reached(c, pos + |Emit(pos, left, begin)|, n)
    decreases |left|, if Avail(pos) == 0 then 1 else 0
  {
    hide PhysicalAt, Emit, Fragment, Avail, Pad, Piece;
    var f, piece := Fragment(pos, left), Piece(pos, left, begin);
    var rest := if |left| > |f| then Emit(pos + |piece|, left[|f|..], false) else [];
    EmitUnfold(pos, left, begin, |f|);
    Seqs.SplitAt(c, pos, piece, rest);
    assert c[..|c|] == c;
    PieceReads(c, |c|, pos, left, begin);
    if |left| > |f| {
      EmptyFragment(pos, left);
      ReachedThrough(c, pos + |piece|, left[|f|..], false, n);
    }
  }

  lemma {:induction false} ReachedCut(c: seq<Byte>, pos: nat, left: seq<Byte>, begin: bool, n: nat, got: seq<Byte>)
    requires pos <= n < pos + |Emit(pos, left, begin)| && n <= |c| && c[pos..n] == Emit(pos, left, begin)[..n - pos]
    ensures Reached(c, pos, n) <==> Reached(c, CutOf(pos, left, begin, n, got).at, n)
    decreases |left|, if Avail(pos) == 0 then 1 else 0
  {
    hide PhysicalAt, Fragment, Avail, Piece, Pad;
    var f, piece := Fragment(pos, left), Piece(pos, left, begin);
    if n >= pos + |piece| {
      EmptyFragment(pos, left);
      var rest := Emit(pos + |piece|, left[|f|..], false);
      assert Emit(pos, left, begin) == piece + rest;
      SplitCut(c, pos, n, piece, rest);
      assert c[..|c|] == c;
      PieceReads(c, |c|, pos, left, begin);
      ReachedCut(c, pos + |piece|, left[|f|..], false, n, got + f);
    }
  }

  lemma {:induction false} ReachedWhole(c: seq<Byte>, records: seq<seq<Byte>>, i: nat, n: nat)
    requires i <= |records| && Written(records) <= c && |Written(records)| <= n
    ensures |Written(records[..i])| <= |Written(records)|
    ensures Reached(c, |Written(records[..i])|, n) <==> Reached(c, |Written(records)|, n)
    decreases |records| - i
  {
    hide Written, Emit, Reached;
    if i == |records| {
      assert records[..i] == records;
    } else {
      var p := |Written(records[..i])|;
      RecordAt(records, i);
      WrittenIncreases(records, i + 1, |records|);
      assert records[..|records|] == records;
      var e := Emit(p, records[i], true);
      assert Written(records)[p..p + |e|] == c[p..p + |e|];
      ReachedThrough(c, p, records[i], true, n);
      ReachedWhole(c, records, i + 1, n);
    }
  }

  lemma ReachedAtCut(c: seq<Byte>, p: nat, record: seq<Byte>, n: nat, more: seq<seq<Byte>>)
    requires p <= n < p + |Emit(p, record, true)| && n <= |c| && c[p..n] == Emit(p, record, true)[..n - p]
    requires more != [] && c[n..] == Appended(n, more)
    ensures Reached(c, p, n) <==> !CutOf(p, record, true, n, []).inside || Pad(n) > 0
  {
    hide Emit, PhysicalAt, CutOf, Appended, TornAt;
    ReachedCut(c, p, record, true, n, []);
    InsideIsTorn(c, p, record, true, n, []);
    BeginsRecord(c, n, more);
    var cut := CutOf(p, record, true, n, []);
    if !cut.inside {
      TrailerEnds(cut.at, n);
    } else {
      var t, f :| TornAt(c, cut.at + Pad(cut.at), n, t, f) && |f| == cut.length;
      if Pad(n) == 0 {
        StepsOver(c, cut.at, n, t, f);
      } else {
        PadZeros(c, n, more);
        TornRead(c, cut.at, n, t, f);
        TrailerEnds(n, PhysicalAt(c, cut.at).next);
      }
    }
  }

  lemma ReachedAlready(c: seq<Byte>, n: nat)
    requires n <= |c|
    ensures Reached(c, n, n)
  {
  }

  /** The reader comes to the appended records exactly if the cut is not inside a fragment of a
      block that goes on. This depends on the records and the cut alone. */
  lemma ReachedExactly(records: seq<seq<Byte>>, n: nat, more: seq<seq<Byte>>)
    requires n <= |Written(records)| && more != []
    ensures var c, k := Written(records)[..n] + Appended(n, more), Whole(records, n);
            var p := |Written(records[..k])|;
            p <= n && (Reached(c, 0, n) <==> k == |records| || !CutOf(p, records[k], true, n, []).inside || Pad(n) > 0)
  {
    hide Emit, Whole, Written, CutOf, Appended, Pad, Reached;
    var c, k := Written(records)[..n] + Appended(n, more), Whole(records, n);
    assert c[n..] == Appended(n, more);
    CutFile(records, n, k, c);
    var whole := records[..k];
    ReachedWhole(c, whole, 0, n);
    assert whole[..0] == [];
    NothingWritten();
    if k == |records| {
      assert whole == records;
      ReachedAlready(c, n);
    } else {
      ReachedAtCut(c, |Written(whole)|, records[k], n, more);
    }
  }
}
