/**
 Reading the log back, from the start of the file (db/log_reader.cc).
 */
module LogReader {
  import opened Keys
  import opened Coding
  import opened Log
  import Seqs

  // ---- The reader as a function of the file position ----------------------------

  /** One physical read: a record type or one of the reader's own two codes, the
      position after it, and the sizes reported as dropped. */
  datatype Read = Read(kind: Byte, fragment: seq<Byte>, next: nat, dropped: seq<nat>)

  function BlockEnd(p: nat): (e: nat)
    ensures e > p
  {
    p - p % BLOCK + BLOCK
  }

  /** End of the part of the current block that the file holds. */
  function Limit(c: seq<Byte>, p: nat): nat
  {
    if |c| < BlockEnd(p) then |c| else BlockEnd(p)
  }

  /** What the header at the start of a buffer says: how much of the buffer is used up,
      and whether it is dropped. */
  datatype Parsed = Parsed(kind: Byte, fragment: seq<Byte>, used: nat, dropped: seq<nat>)

  function Length(low: Byte, high: Byte): nat
  {
    var l: nat, h: nat := low, high;
    l + 256 * h
  }

  function Parse(buffer: seq<Byte>, eof: bool): (r: Parsed)
    requires |buffer| >= HEADER
    ensures 0 < r.used <= |buffer|
  {
    var length, all := Length(buffer[4], buffer[5]), |buffer|;
    if HEADER + length > |buffer| then
      if eof then Parsed(END_OF_FILE, [], all, []) else Parsed(BAD_RECORD, [], all, [all])
    else if buffer[6] == ZERO && length == 0 then Parsed(BAD_RECORD, [], all, [])
    else if LoadChecksum(buffer[..4]) != Checksum(buffer[6..HEADER + length]) then Parsed(BAD_RECORD, [], all, [all])
    else Parsed(buffer[6], buffer[HEADER..HEADER + length], HEADER + length, [])
  }

  function PhysicalAt(c: seq<Byte>, p: nat): (r: Read)
    requires p <= |c|
    ensures p <= r.next <= |c|
    ensures r.kind == END_OF_FILE || p < r.next
    decreases |c| - p
  {
    var lim, eof := Limit(c, p), |c| < BlockEnd(p);
    if lim < p + HEADER then
      if eof then Read(END_OF_FILE, [], |c|, []) else PhysicalAt(c, BlockEnd(p))
    else
      var r := Parse(c[p..lim], eof);
      Read(r.kind, r.fragment, p + r.used, r.dropped)
  }

  /** One logical read: a record or the end of the input, the position after it, and
      everything reported so far. */
  datatype Result = Result(record: Option<seq<Byte>>, next: nat, reports: seq<nat>)

  /** What is thrown away of a record that was begun. */
  function Partial(scratch: Option<seq<Byte>>): seq<nat>
  {
    if scratch.Some? && scratch.value != [] then [|scratch.value|] else []
  }

  /** What ReadRecord does with one physical read: finished or not, the record or the
      fragments kept, and what is reported. */
  datatype Step = Step(done: bool, kept: Option<seq<Byte>>, told: seq<nat>)

  /** scratch holds the fragments read so far of a record that was begun. */
  function Take(kind: Byte, fragment: seq<Byte>, scratch: Option<seq<Byte>>): Step
  {
    if kind == FULL then Step(true, Some(fragment), Partial(scratch))
    else if kind == FIRST then Step(false, Some(fragment), Partial(scratch))
    else if kind == MIDDLE then
      if scratch.None? then Step(false, None, [|fragment|]) else Step(false, Some(scratch.value + fragment), [])
    else if kind == LAST then
      if scratch.None? then Step(false, None, [|fragment|]) else Step(true, Some(scratch.value + fragment), [])
    else if kind == END_OF_FILE then Step(true, None, [])
    else if kind == BAD_RECORD then Step(false, None, if scratch.Some? then [|scratch.value|] else [])
    else Step(false, None, [|fragment| + if scratch.Some? then |scratch.value| else 0])
  }

  function RecordFrom(c: seq<Byte>, p: nat, scratch: Option<seq<Byte>>, reports: seq<nat>): (r: Result)
    requires p <= |c|
    ensures p <= r.next <= |c| && (r.record.Some? ==> p < r.next)
    decreases |c| - p
  {
    var f := PhysicalAt(c, p);
    var s := Take(f.kind, f.fragment, scratch);
    var told := reports + f.dropped + s.told;
    if s.done then Result(s.kept, f.next, told) else RecordFrom(c, f.next, s.kept, told)
  }

  // ---- The reader -------------------------------------------------------------------

  class Reader {
    const contents: seq<Byte>
    /** Bytes of the file read into buffers so far. */
    var endOfBuffer: nat
    var buffer: seq<Byte>
    var eof: bool
    /** What the reporter was told. */
    var reports: seq<nat>

    ghost predicate Valid()
      reads this
    {
      && |buffer| <= endOfBuffer <= |contents|
      && buffer == contents[endOfBuffer - |buffer|..endOfBuffer]
      && (eof ==> endOfBuffer == |contents| < BlockEnd(Pos()))
      && (!eof ==> endOfBuffer % BLOCK == 0 && (buffer != [] ==> endOfBuffer == BlockEnd(Pos())))
    }

    ghost function Pos(): int
      reads this
    {
      endOfBuffer - |buffer|
    }

    constructor (contents: seq<Byte>)
      ensures Valid() && Pos() == 0 && reports == [] && this.contents == contents
    {
      this.contents := contents;
      endOfBuffer, buffer, eof, reports := 0, [], false, [];
    }

    /** The next block, or what the file still has of it. */
    method Fill()
      requires Valid() && !eof
      modifies this
      ensures Valid() && Pos() == old(endOfBuffer) && reports == old(reports)
      ensures eof || endOfBuffer > old(endOfBuffer)
    {
      var start := endOfBuffer;
      var n := if |contents| - start < BLOCK then |contents| - start else BLOCK;
      buffer := contents[start..start + n];
      endOfBuffer := start + n;
      if n < BLOCK { eof := true; }
    }

    method ReadPhysicalRecord() returns (kind: Byte, fragment: seq<Byte>)
      requires Valid()
      modifies this
      ensures Valid()
      ensures var r := PhysicalAt(contents, old(Pos()));
              kind == r.kind && fragment == r.fragment && Pos() == r.next && reports == old(reports) + r.dropped
    {
      hide PhysicalAt, Parse;
      while |buffer| < HEADER
        invariant Valid() && reports == old(reports)
        invariant PhysicalAt(contents, Pos()) == PhysicalAt(contents, old(Pos()))
        decreases if eof then 0 else |contents| - endOfBuffer + 1
      {
        ghost var p := Pos();
        if !eof {
          TrailerSkipped(contents, p, endOfBuffer);
          Fill();
        } else {
          ShortTail(contents, p);
          buffer := [];
          return END_OF_FILE, [];
        }
      }
      ghost var p := Pos();
      ParsedAt(contents, p, endOfBuffer);
      var dropped;
      kind, fragment, buffer, dropped := ParseBuffer(buffer, eof);
      reports := reports + dropped;
      SameBlock(p, Pos() - p, endOfBuffer);
      Seqs.DropSlice(contents, p, endOfBuffer, Pos() - p);
    }

    method ReadRecord() returns (record: Option<seq<Byte>>)
      requires Valid()
      modifies this
      ensures Valid()
      ensures RecordFrom(contents, old(Pos()), None, old(reports)) == Result(record, Pos(), reports)
    {
      hide PhysicalAt, BlockEnd, Limit, Parse;
      var scratch, inFragmentedRecord := [], false;
      while true
        invariant Valid()
        invariant RecordFrom(contents, Pos(), if inFragmentedRecord then Some(scratch) else None, reports)
               == RecordFrom(contents, old(Pos()), None, old(reports))
        decreases |contents| - Pos()
      {
        var kind, fragment := ReadPhysicalRecord();
        var done, told;
        done, scratch, inFragmentedRecord, told := Dispatch(kind, fragment, scratch, inFragmentedRecord);
        reports := reports + told;
        if done {
          return if inFragmentedRecord then Some(scratch) else None;
        }
      }
    }
  }

  /** The switch on the record type. */
  method Dispatch(kind: Byte, fragment: seq<Byte>, soFar: seq<Byte>, inFragmentedRecord: bool)
    returns (done: bool, scratch: seq<Byte>, began: bool, told: seq<nat>)
    ensures Take(kind, fragment, if inFragmentedRecord then Some(soFar) else None)
         == Step(done, if began then Some(scratch) else None, told)
  {
    told := [];
    if kind == FULL {
      if inFragmentedRecord && soFar != [] { told := [|soFar|]; }
      done, scratch, began := true, fragment, true;
    } else if kind == FIRST {
      if inFragmentedRecord && soFar != [] { told := [|soFar|]; }
      done, scratch, began := false, fragment, true;
    } else if kind == MIDDLE {
      done, scratch, began := false, soFar, inFragmentedRecord;
      if !inFragmentedRecord { told := [|fragment|]; } else { scratch := scratch + fragment; }
    } else if kind == LAST {
      done, scratch, began := inFragmentedRecord, soFar, inFragmentedRecord;
      if !inFragmentedRecord { told := [|fragment|]; } else { scratch := scratch + fragment; }
    } else if kind == END_OF_FILE {
      done, scratch, began := true, [], false;
    } else if kind == BAD_RECORD {
      if inFragmentedRecord { told := [|soFar|]; }
      done, scratch, began := false, [], false;
    } else {
      told := [|fragment| + if inFragmentedRecord then |soFar| else 0];
      done, scratch, began := false, [], false;
    }
  }

  /** The rest of ReadPhysicalRecord, once the buffer holds a header. */
  method ParseBuffer(buffer: seq<Byte>, eof: bool)
    returns (kind: Byte, fragment: seq<Byte>, rest: seq<Byte>, dropped: seq<nat>)
    requires |buffer| >= HEADER
    ensures var r := Parse(buffer, eof);
            kind == r.kind && fragment == r.fragment && rest == buffer[r.used..] && dropped == r.dropped
  {
    hide LoadChecksum, Checksum;
    var length := Length(buffer[4], buffer[5]);
    if HEADER + length > |buffer| {
      var size := |buffer|;
      if !eof {
        return BAD_RECORD, [], [], [size];
      }
      return END_OF_FILE, [], [], [];
    }
    if buffer[6] == ZERO && length == 0 {
      return BAD_RECORD, [], [], [];
    }
    if LoadChecksum(buffer[..4]) != Checksum(buffer[6..HEADER + length]) {
      var size := |buffer|;
      return BAD_RECORD, [], [], [size];
    }
    return buffer[6], buffer[HEADER..HEADER + length], buffer[HEADER + length..], [];
  }

  lemma TrailerSkipped(c: seq<Byte>, p: nat, e: nat)
    requires p <= e <= |c| && e - p < HEADER && (p < e ==> e == BlockEnd(p))
    ensures PhysicalAt(c, p) == PhysicalAt(c, e)
  {
  }

  lemma ShortTail(c: seq<Byte>, p: nat)
    requires p <= |c| < p + HEADER && |c| < BlockEnd(p)
    ensures PhysicalAt(c, p) == Read(END_OF_FILE, [], |c|, [])
  {
  }

  lemma ParsedAt(c: seq<Byte>, p: nat, e: nat)
    requires e == Limit(c, p) && p + HEADER <= e
    ensures var r := Parse(c[p..e], |c| < BlockEnd(p));
            PhysicalAt(c, p) == Read(r.kind, r.fragment, p + r.used, r.dropped)
  {
  }

  lemma SameBlock(p: nat, n: nat, e: nat)
    requires p + n <= e <= BlockEnd(p)
    ensures p + n < e ==> BlockEnd(p + n) == BlockEnd(p)
    ensures e < BlockEnd(p) ==> e < BlockEnd(p + n)
  {
  }
}
