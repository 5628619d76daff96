/**
 Writing the log: records split into checksummed fragments that never cross a block
 boundary (db/log_format.h, db/log_writer.cc).
 */
module Log {
  import opened Coding
  import Seqs

  const BLOCK: nat := 32768
  const HEADER: nat := 7

  // Record types; END_OF_FILE and BAD_RECORD are the reader's own.
  const ZERO: Byte := 0
  const FULL: Byte := 1
  const FIRST: Byte := 2
  const MIDDLE: Byte := 3
  const LAST: Byte := 4
  const END_OF_FILE: Byte := 5
  const BAD_RECORD: Byte := 6

  // ---- What the writer emits -------------------------------------------------------

  /** Zero bytes that fill a block in which no header fits. */
  function Pad(pos: nat): (n: nat)
    ensures n < HEADER
  {
    var leftover := BLOCK - pos % BLOCK;
    if leftover < HEADER then leftover else 0
  }

  /** Payload bytes that fit in the block after the padding and a header. */
  function Avail(pos: nat): nat
  {
    BLOCK - (pos + Pad(pos)) % BLOCK - HEADER
  }

  function TypeOf(begin: bool, end: bool): Byte
  {
    if begin && end then FULL else if begin then FIRST else if end then LAST else MIDDLE
  }

  /** One fragment with its header: masked checksum, length, type. */
  function Physical(t: Byte, fragment: seq<Byte>): (s: seq<Byte>)
    requires |fragment| < 0x1_0000
    ensures |s| == HEADER + |fragment|
  {
    StoreChecksum(Checksum([t] + fragment)) + [|fragment| % 256, |fragment| / 256, t] + fragment
  }

  function Zeros(n: nat): (s: seq<Byte>)
    ensures |s| == n
  {
    seq(n, i => 0)
  }

  /** The next fragment of what is left of a record. */
  function Fragment(pos: nat, left: seq<Byte>): (f: seq<Byte>)
    ensures |f| < 0x1_0000 && f <= left
  {
    if |left| < Avail(pos) then left else left[..Avail(pos)]
  }

  function Piece(pos: nat, left: seq<Byte>, begin: bool): (s: seq<Byte>)
    ensures |s| == Pad(pos) + HEADER + |Fragment(pos, left)|
  {
    var f := Fragment(pos, left);
    Zeros(Pad(pos)) + Physical(TypeOf(begin, f == left), f)
  }

  /** What AddRecord appends at file position pos for the rest of a record. */
  function Emit(pos: nat, left: seq<Byte>, begin: bool): (s: seq<Byte>)
    ensures |s| >= HEADER
    decreases |left|, if Avail(pos) == 0 then 1 else 0
  {
    var f, piece := Fragment(pos, left), Piece(pos, left, begin);
    if f == left then piece
    else
      EmptyFragment(pos, left);
      piece + Emit(pos + |piece|, left[|f|..], false)
  }

  /** A header that fills its block is followed by a fresh block. */
  lemma EmptyFragment(pos: nat, left: seq<Byte>)
    ensures Fragment(pos, left) == [] && left != [] ==>
              Avail(pos) == 0 && Avail(pos + |Piece(pos, left, true)|) > 0 && Avail(pos + |Piece(pos, left, false)|) > 0
  {
  }

  /** The whole log: records appended one after the other to an empty file. */
  function Written(records: seq<seq<Byte>>): seq<Byte>
  {
    if records == [] then []
    else
      var init := Written(records[..|records| - 1]);
      init + Emit(|init|, records[|records| - 1], true)
  }

  /** The writer's block offset gives the padding and the room of the file position. */
  lemma Room(pos: nat, blockOffset: nat)
    requires blockOffset <= BLOCK && blockOffset % BLOCK == pos % BLOCK
    ensures BLOCK - blockOffset < HEADER ==> Pad(pos) == BLOCK - blockOffset && Avail(pos) == BLOCK - HEADER
    ensures BLOCK - blockOffset < HEADER ==> (pos + Pad(pos)) % BLOCK == 0
    ensures BLOCK - blockOffset >= HEADER ==> Pad(pos) == 0 && Avail(pos) == BLOCK - blockOffset - HEADER
  {
  }

  lemma NoZeros()
    ensures Zeros(0) == []
  {
  }

  lemma Cut(pos: nat, left: seq<Byte>, length: nat)
    requires length == if |left| < Avail(pos) then |left| else Avail(pos)
    ensures left[..length] == Fragment(pos, left)
  {
  }

  lemma EmitStep(was: seq<Byte>, left: seq<Byte>, begin: bool, length: nat, now: seq<Byte>)
    requires length <= |left| && left[..length] == Fragment(|was|, left)
    requires now == was + Zeros(Pad(|was|)) + Physical(TypeOf(begin, |left| == length), left[..length])
    ensures now + (if |left| > length then Emit(|now|, left[length..], false) else []) == was + Emit(|was|, left, begin)
  {
    hide Physical, Zeros, Avail, Pad, Fragment, Piece, Emit;
    PieceBytes(was, left, begin, length);
    var piece := Piece(|was|, left, begin);
    EmitUnfold(|was|, left, begin, length);
    Seqs.Associative(was, piece, if |left| > length then Emit(|now|, left[length..], false) else []);
  }

  lemma PieceBytes(was: seq<Byte>, left: seq<Byte>, begin: bool, length: nat)
    requires length <= |left| && left[..length] == Fragment(|was|, left)
    ensures was + Zeros(Pad(|was|)) + Physical(TypeOf(begin, |left| == length), left[..length]) ==
            was + Piece(|was|, left, begin)
  {
    hide Physical, Zeros, Pad, Fragment;
    assert left[..|left|] == left;
    Seqs.Associative(was, Zeros(Pad(|was|)), Physical(TypeOf(begin, |left| == length), left[..length]));
  }

  lemma EmitUnfold(pos: nat, left: seq<Byte>, begin: bool, length: nat)
    requires length <= |left| && left[..length] == Fragment(pos, left)
    ensures var piece := Piece(pos, left, begin);
            Emit(pos, left, begin) == piece + (if |left| > length then Emit(pos + |piece|, left[length..], false)
                                               else [])
  {
    hide Fragment, Piece;
    assert left[..|left|] == left;
    Seqs.RightEmpty(Piece(pos, left, begin));
  }

  class Writer {
    var file: seq<Byte>
    var blockOffset: nat

    ghost predicate Valid()
      reads this
    {
      blockOffset <= BLOCK && blockOffset % BLOCK == |file| % BLOCK
    }

    constructor ()
      ensures Valid() && file == []
    {
      file, blockOffset := [], 0;
    }

    /** Reopening an existing file. */
    constructor Reopen(existing: seq<Byte>)
      ensures Valid() && file == existing
    {
      file, blockOffset := existing, |existing| % BLOCK;
    }

    method AddRecord(record: seq<Byte>)
      requires Valid()
      modifies this
      ensures Valid() && file == old(file) + Emit(|old(file)|, record, true)
    {
      hide Emit, Pad, Avail, Fragment, Piece, Physical, Zeros;
      var left, begin, more := record, true, true;
      while more
        invariant Valid()
        invariant file + (if more then Emit(|file|, left, begin) else []) == old(file) + Emit(|old(file)|, record, true)
        decreases more, |left|, if Avail(|file|) == 0 then 1 else 0
      {
        ghost var was := file;
        var leftover := BLOCK - blockOffset;
        Room(|file|, blockOffset);
        if leftover < HEADER {
          if leftover > 0 { file := file + Zeros(leftover); }
          blockOffset := 0;
        }
        assert file == was + Zeros(Pad(|was|)) by { NoZeros(); }
        var avail := BLOCK - blockOffset - HEADER;
        var length := if |left| < avail then |left| else avail;
        var end := |left| == length;
        Cut(|was|, left, length);
        EmitPhysicalRecord(TypeOf(begin, end), left[..length]);
        EmitStep(was, left, begin, length, file);
        EmptyFragment(|was|, left);
        left, begin, more := left[length..], false, |left| > length;
      }
      Seqs.RightEmpty(file);
    }

    method EmitPhysicalRecord(t: Byte, fragment: seq<Byte>)
      requires |fragment| <= 0xffff && blockOffset + HEADER + |fragment| <= BLOCK && Valid()
      modifies this
      ensures Valid() && file == old(file) + Physical(t, fragment)
    {
      hide Checksum, ExtendChecksum, StoreChecksum;
      var crc := ExtendChecksum(Checksum([t]), fragment);
      ChecksumConcat([t], fragment);
      var header := StoreChecksum(crc) + [|fragment| % 256, |fragment| / 256, t];
      file := file + header;
      file := file + fragment;
      Seqs.Associative(old(file), header, fragment);
      blockOffset := blockOffset + HEADER + |fragment|;
    }
  }
}
