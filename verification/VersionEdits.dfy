/**
 The encoding of version edits (db/version_edit.cc).
 */
module VersionEdits {
  import opened Keys
  import opened Coding
  import Seqs

  type Bytes = seq<Byte>

  const NUM_LEVELS: nat := 7

  datatype FileMeta = FileMeta(number: nat, size: nat, smallest: Bytes, largest: Bytes)

  datatype Edit = Edit(comparator: Option<Bytes>, logNumber: Option<nat>, prevLogNumber: Option<nat>,
                       nextFile: Option<nat>,
                       lastSequence: Option<nat>, pointers: seq<(nat, Bytes)>, deleted: set<(nat, nat)>,
                       added: seq<(nat, FileMeta)>)

  const EMPTY: Edit := Edit(None, None, None, None, None, [], {}, [])

  /** One tagged item of an encoded edit. */
  datatype Item =
    | Comparator(name: Bytes)
    | LogNumber(n: nat)
    | NextFile(n: nat)
    | LastSequence(n: nat)
    | CompactPointer(level: nat, key: Bytes)
    | DeletedFile(level: nat, n: nat)
    | NewFile(level: nat, file: FileMeta)
    | PrevLogNumber(n: nat)

  // ---- Encoding --------------------------------------------------------------------------

  function TagOf(i: Item): nat
  {
    match i
    case Comparator(_) => 1
    case LogNumber(_) => 2
    case NextFile(_) => 3
    case LastSequence(_) => 4
    case CompactPointer(_, _) => 5
    case DeletedFile(_, _) => 6
    case NewFile(_, _) => 7
    case PrevLogNumber(_) => 9
  }

  function Payload(i: Item): Bytes
  {
    match i
    case Comparator(name) => LengthPrefixed(name)
    case LogNumber(n) => Varint(n)
    case NextFile(n) => Varint(n)
    case LastSequence(n) => Varint(n)
    case CompactPointer(level, key) => Varint(level) + LengthPrefixed(key)
    case DeletedFile(level, n) => Varint(level) + Varint(n)
    case NewFile(level, f) =>
      Varint(level) + (Varint(f.number) + (Varint(f.size) + (LengthPrefixed(f.smallest) + LengthPrefixed(f.largest))))
    case PrevLogNumber(n) => Varint(n)
  }

  function EncodeItem(i: Item): (s: Bytes)
    ensures |s| > 0
  {
    Varint(TagOf(i)) + Payload(i)
  }

  function EncodeItems(items: seq<Item>): Bytes
  {
    if items == [] then [] else EncodeItem(items[0]) + EncodeItems(items[1..])
  }

  /** Levels, 64-bit numbers, and internal keys, which are not empty. */
  predicate Encodable(i: Item)
  {
    match i
    case Comparator(name) => |name| < TWO_32
    case LogNumber(n) => n < TWO_64
    case NextFile(n) => n < TWO_64
    case LastSequence(n) => n < TWO_64
    case CompactPointer(level, key) => level < NUM_LEVELS && KeyOk(key)
    case DeletedFile(level, n) => level < NUM_LEVELS && n < TWO_64
    case NewFile(level, f) => level < NUM_LEVELS && f.number < TWO_64 && f.size < TWO_64 && KeyOk(f.smallest) &&
        KeyOk(f.largest)
    case PrevLogNumber(n) => n < TWO_64
  }

  predicate KeyOk(key: Bytes)
  {
    0 < |key| < TWO_32
  }

  // ---- Decoding ----------------------------------------------------------------------------

  function GetLevel(s: Bytes): (r: Option<(nat, Bytes)>)
    ensures r.Some? ==> |r.value.1| < |s|
  {
    var v := GetVarint32(s);
    if v.None? || v.value.0 >= NUM_LEVELS then None else v
  }

  /** An internal key must not be empty. */
  function GetKey(s: Bytes): (r: Option<(Bytes, Bytes)>)
    ensures r.Some? ==> |r.value.1| < |s|
  {
    var k := GetLengthPrefixed(s);
    if k.None? || k.value.0 == [] then None else k
  }

  function GetFile(s: Bytes): (r: Option<(FileMeta, Bytes)>)
    ensures r.Some? ==> |r.value.1| < |s|
  {
    var number := GetVarint64(s);
    if number.None? then None
    else
      var size := GetVarint64(number.value.1);
      if size.None? then None
      else
        var smallest := GetKey(size.value.1);
        if smallest.None? then None
        else
          var largest := GetKey(smallest.value.1);
          if largest.None? then None
          else Some((FileMeta(number.value.0, size.value.0, smallest.value.0, largest.value.0), largest.value.1))
  }

  function GetNumber(s: Bytes, make: nat -> Item): (r: Option<(Item, Bytes)>)
    ensures r.Some? ==> |r.value.1| < |s|
  {
    var n := GetVarint64(s);
    if n.None? then None else Some((make(n.value.0), n.value.1))
  }

  function GetPayload(tag: nat, s: Bytes): (r: Option<(Item, Bytes)>)
    ensures r.Some? ==> |r.value.1| < |s|
  {
    match tag
    case 1 =>
      var name := GetLengthPrefixed(s);
      if name.None? then None else Some((Comparator(name.value.0), name.value.1))
    case 2 => GetNumber(s, (n: nat) => LogNumber(n))
    case 3 => GetNumber(s, (n: nat) => NextFile(n))
    case 4 => GetNumber(s, (n: nat) => LastSequence(n))
    case 5 =>
      var level := GetLevel(s);
      if level.None? then None
      else
        var key := GetKey(level.value.1);
        if key.None? then None else Some((CompactPointer(level.value.0, key.value.0), key.value.1))
    case 6 =>
      var level := GetLevel(s);
      if level.None? then None
      else
        var n := GetVarint64(level.value.1);
        if n.None? then None else Some((DeletedFile(level.value.0, n.value.0), n.value.1))
    case 7 =>
      var level := GetLevel(s);
      if level.None? then None
      else
        var f := GetFile(level.value.1);
        if f.None? then None else Some((NewFile(level.value.0, f.value.0), f.value.1))
    case 9 => GetNumber(s, (n: nat) => PrevLogNumber(n))
    case _ => None
  }

  /** All items, or nothing if one is malformed or bytes are left that are no tag. */
  function ParseItems(s: Bytes): Option<seq<Item>>
    decreases |s|
  {
    var tag := GetVarint32(s);
    if tag.None? then if s == [] then Some([]) else None
    else
      var i := GetPayload(tag.value.0, tag.value.1);
      if i.None? then None
      else
        var rest := ParseItems(i.value.1);
        if rest.None? then None else Some([i.value.0] + rest.value)
  }

  /** What an item does to the edit read so far. */
  function Add(e: Edit, i: Item): Edit
  {
    match i
    case Comparator(name) => e.(comparator := Some(name))
    case LogNumber(n) => e.(logNumber := Some(n))
    case NextFile(n) => e.(nextFile := Some(n))
    case LastSequence(n) => e.(lastSequence := Some(n))
    case CompactPointer(level, key) => e.(pointers := e.pointers + [(level, key)])
    case DeletedFile(level, n) => e.(deleted := e.deleted + {(level, n)})
    case NewFile(level, f) => e.(added := e.added + [(level, f)])
    case PrevLogNumber(n) => e.(prevLogNumber := Some(n))
  }

  function Fold(e: Edit, items: seq<Item>): Edit
    decreases |items|
  {
    if items == [] then e else Fold(Add(e, items[0]), items[1..])
  }

  method DecodeFrom(src: Bytes) returns (r: Option<Edit>)
    ensures ParseItems(src).None? ==> r == None
    ensures ParseItems(src).Some? ==> r == Some(Fold(EMPTY, ParseItems(src).value))
  {
    hide GetVarint32, GetPayload;
    var input, edit := src, EMPTY;
    while true
      invariant ParseItems(src).None? <==> ParseItems(input).None?
      invariant ParseItems(src).Some? ==> Fold(EMPTY, ParseItems(src).value) == Fold(edit, ParseItems(input).value)
      decreases |input|
    {
      var tag := GetVarint32(input);
      if tag.None? { break; }
      var item := GetPayload(tag.value.0, tag.value.1);
      if item.None? { return None; }
      if ParseItems(item.value.1).Some? {
        assert ([item.value.0] + ParseItems(item.value.1).value)[1..] == ParseItems(item.value.1).value;
      }
      edit, input := Add(edit, item.value.0), item.value.1;
    }
    if input != [] { return None; }
    r := Some(edit);
  }

  // ---- Round trip -------------------------------------------------------------------------------

  lemma KeyRoundTrip(key: Bytes, rest: Bytes)
    requires KeyOk(key)
    ensures GetKey(LengthPrefixed(key) + rest) == Some((key, rest))
  {
    LengthPrefixedRoundTrip(key, rest);
  }

  lemma LevelRoundTrip(level: nat, rest: Bytes)
    requires level < NUM_LEVELS
    ensures GetLevel(Varint(level) + rest) == Some((level, rest))
  {
    GetVarint32RoundTrip(level, rest);
  }

  lemma FileRoundTrip(f: FileMeta, rest: Bytes)
    requires f.number < TWO_64 && f.size < TWO_64 && KeyOk(f.smallest) && KeyOk(f.largest)
    ensures GetFile(Varint(f.number) + (Varint(f.size) +
                    (LengthPrefixed(f.smallest) + LengthPrefixed(f.largest))) + rest) == Some((f, rest))
  {
    hide Varint, GetVarint64, LengthPrefixed, GetKey, KeyOk;
    var d := LengthPrefixed(f.largest) + rest;
    var c := LengthPrefixed(f.smallest) + d;
    var b := Varint(f.size) + c;
    Seqs.Associative(LengthPrefixed(f.smallest), LengthPrefixed(f.largest), rest);
    Seqs.Associative(Varint(f.size), LengthPrefixed(f.smallest) + LengthPrefixed(f.largest), rest);
    Seqs.Associative(Varint(f.number), Varint(f.size) + (LengthPrefixed(f.smallest) + LengthPrefixed(f.largest)), rest);
    GetVarint64RoundTrip(f.number, b);
    GetVarint64RoundTrip(f.size, c);
    KeyRoundTrip(f.smallest, d);
    KeyRoundTrip(f.largest, rest);
  }

  lemma PayloadRoundTrip(i: Item, rest: Bytes)
    requires Encodable(i)
    ensures GetPayload(TagOf(i), Payload(i) + rest) == Some((i, rest))
  {
    hide Varint, GetVarint64, GetVarint32, LengthPrefixed, GetLengthPrefixed, GetKey, GetLevel, GetFile, KeyOk;
    match i {
      case Comparator(name) => LengthPrefixedRoundTrip(name, rest);
      case LogNumber(n) => GetVarint64RoundTrip(n, rest);
      case NextFile(n) => GetVarint64RoundTrip(n, rest);
      case LastSequence(n) => GetVarint64RoundTrip(n, rest);
      case CompactPointer(level, key) =>
        Seqs.Associative(Varint(level), LengthPrefixed(key), rest);
        LevelRoundTrip(level, LengthPrefixed(key) + rest);
        KeyRoundTrip(key, rest);
      case DeletedFile(level, n) =>
        Seqs.Associative(Varint(level), Varint(n), rest);
        LevelRoundTrip(level, Varint(n) + rest);
        GetVarint64RoundTrip(n, rest);
      case NewFile(level, f) =>
        var file := Varint(f.number) + (Varint(f.size) + (LengthPrefixed(f.smallest) + LengthPrefixed(f.largest)));
        Seqs.Associative(Varint(level), file, rest);
        LevelRoundTrip(level, file + rest);
        FileRoundTrip(f, rest);
      case PrevLogNumber(n) => GetVarint64RoundTrip(n, rest);
    }
  }

  lemma {:induction false} ItemsRoundTrip(items: seq<Item>)
    requires forall i :: i in items ==> Encodable(i)
    ensures ParseItems(EncodeItems(items)) == Some(items)
  {
    hide Varint, GetVarint32, Payload, GetPayload, Encodable;
    if items == [] {
      NoTag();
    } else {
      var i, rest := items[0], EncodeItems(items[1..]);
      Seqs.Associative(Varint(TagOf(i)), Payload(i), rest);
      GetVarint32RoundTrip(TagOf(i), Payload(i) + rest);
      PayloadRoundTrip(i, rest);
      ItemsRoundTrip(items[1..]);
      assert items == [i] + items[1..];
    }
  }

  lemma NoTag()
    ensures GetVarint32([]) == None
  {
  }

  // ---- Whole edits -------------------------------------------------------------------------------

  function Maybe<T>(x: Option<T>, make: T -> Item): seq<Item>
  {
    if x.Some? then [make(x.value)] else []
  }

  function Numbers(e: Edit): seq<Item>
  {
    Maybe(e.comparator, (n: Bytes) => Comparator(n)) + Maybe(e.logNumber, (n: nat) => LogNumber(n))
      + Maybe(e.prevLogNumber, (n: nat) => PrevLogNumber(n)) + Maybe(e.nextFile, (n: nat) => NextFile(n))
      + Maybe(e.lastSequence, (n: nat) => LastSequence(n))
  }

  function Pointers(ps: seq<(nat, Bytes)>): (r: seq<Item>)
    ensures |r| == |ps|
  {
    seq(|ps|, i requires 0 <= i < |ps| => CompactPointer(ps[i].0, ps[i].1))
  }

  function Deleted(ds: seq<(nat, nat)>): (r: seq<Item>)
    ensures |r| == |ds|
  {
    seq(|ds|, i requires 0 <= i < |ds| => DeletedFile(ds[i].0, ds[i].1))
  }

  function Files(fs: seq<(nat, FileMeta)>): (r: seq<Item>)
    ensures |r| == |fs|
  {
    seq(|fs|, i requires 0 <= i < |fs| => NewFile(fs[i].0, fs[i].1))
  }

  /** The items of an edit; order is how the set of deleted files is walked. */
  function ItemsOf(e: Edit, order: seq<(nat, nat)>): seq<Item>
  {
    Numbers(e) + Pointers(e.pointers) + Deleted(order) + Files(e.added)
  }

  lemma {:induction false} EncodeConcat(a: seq<Item>, b: seq<Item>)
    ensures EncodeItems(a + b) == EncodeItems(a) + EncodeItems(b)
  {
    hide EncodeItem;
    if a == [] {
      assert a + b == b;
    } else {
      assert (a + b)[0] == a[0] && (a + b)[1..] == a[1..] + b;
      EncodeConcat(a[1..], b);
      Seqs.Associative(EncodeItem(a[0]), EncodeItems(a[1..]), EncodeItems(b));
    }
  }

  lemma EncodeMore(items: seq<Item>, i: Item)
    ensures EncodeItems(items + [i]) == EncodeItems(items) + EncodeItem(i)
  {
    hide EncodeItem;
    EncodeConcat(items, [i]);
    assert [i][1..] == [];
    Seqs.RightEmpty(EncodeItem(i));
  }

  method AppendItems(dst: Bytes, ghost before: seq<Item>, items: seq<Item>) returns (r: Bytes)
    requires dst == EncodeItems(before)
    ensures r == EncodeItems(before + items)
  {
    hide EncodeItem, EncodeItems;
    r := dst;
    Seqs.RightEmpty(before);
    assert items[..0] == [];
    for i := 0 to |items|
      invariant r == EncodeItems(before + items[..i])
    {
      EncodeMore(before + items[..i], items[i]);
      Seqs.Associative(before, items[..i], [items[i]]);
      assert items[..i] + [items[i]] == items[..i + 1];
      r := r + EncodeItem(items[i]);
    }
    assert items[..|items|] == items;
  }

  method EncodeTo(e: Edit, order: seq<(nat, nat)>) returns (dst: Bytes)
    ensures dst == EncodeItems(ItemsOf(e, order))
  {
    hide EncodeItem, EncodeItems;
    assert EncodeItems([]) == [] by { NoItems(); }
    dst := AppendItems([], [], Numbers(e));
    assert [] + Numbers(e) == Numbers(e);
    dst := AppendItems(dst, Numbers(e), Pointers(e.pointers));
    dst := AppendItems(dst, Numbers(e) + Pointers(e.pointers), Deleted(order));
    dst := AppendItems(dst, Numbers(e) + Pointers(e.pointers) + Deleted(order), Files(e.added));
  }

  lemma NoItems()
    ensures EncodeItems([]) == []
  {
  }

  lemma {:induction false} FoldConcat(e: Edit, a: seq<Item>, b: seq<Item>)
    ensures Fold(e, a + b) == Fold(Fold(e, a), b)
    decreases |a|
  {
    hide Add;
    if a == [] {
      assert a + b == b;
    } else {
      assert (a + b)[0] == a[0] && (a + b)[1..] == a[1..] + b;
      FoldConcat(Add(e, a[0]), a[1..], b);
    }
  }

  lemma FoldNumbers(e: Edit)
    ensures Fold(EMPTY, Numbers(e)) == e.(pointers := [], deleted := {}, added := [])
  {
    var a, b, c, d, f := Maybe(e.comparator, (n: Bytes) => Comparator(n)), Maybe(e.logNumber, (n: nat) => LogNumber(n)),
      Maybe(e.prevLogNumber, (n: nat) => PrevLogNumber(n)), Maybe(e.nextFile, (n: nat) => NextFile(n)),
      Maybe(e.lastSequence, (n: nat) => LastSequence(n));
    FoldConcat(EMPTY, a + b + c + d, f);
    FoldConcat(EMPTY, a + b + c, d);
    FoldConcat(EMPTY, a + b, c);
    FoldConcat(EMPTY, a, b);
    FoldMaybe(EMPTY, a);
    FoldMaybe(Fold(EMPTY, a), b);
    FoldMaybe(Fold(Fold(EMPTY, a), b), c);
    FoldMaybe(Fold(Fold(Fold(EMPTY, a), b), c), d);
    FoldMaybe(Fold(Fold(Fold(Fold(EMPTY, a), b), c), d), f);
  }

  lemma FoldMaybe(e: Edit, items: seq<Item>)
    requires |items| <= 1
    ensures Fold(e, items) == if items == [] then e else Add(e, items[0])
  {
  }

  lemma {:induction false} FoldPointers(e: Edit, ps: seq<(nat, Bytes)>)
    ensures Fold(e, Pointers(ps)) == e.(pointers := e.pointers + ps)
    decreases |ps|
  {
    if ps == [] {
      Seqs.RightEmpty(e.pointers);
    } else {
      assert Pointers(ps)[1..] == Pointers(ps[1..]);
      var e' := Add(e, Pointers(ps)[0]);
      FoldPointers(e', ps[1..]);
      assert e.pointers + [ps[0]] + ps[1..] == e.pointers + ps;
    }
  }

  lemma {:induction false} FoldDeleted(e: Edit, ds: seq<(nat, nat)>)
    ensures Fold(e, Deleted(ds)) == e.(deleted := e.deleted + (set d | d in ds))
    decreases |ds|
  {
    if ds == [] {
      assert e.deleted + (set d | d in ds) == e.deleted;
    } else {
      assert Deleted(ds)[1..] == Deleted(ds[1..]);
      var e' := Add(e, Deleted(ds)[0]);
      FoldDeleted(e', ds[1..]);
      assert ds == [ds[0]] + ds[1..];
      assert e.deleted + {ds[0]} + (set d | d in ds[1..]) == e.deleted + (set d | d in ds);
    }
  }

  lemma {:induction false} FoldFiles(e: Edit, fs: seq<(nat, FileMeta)>)
    ensures Fold(e, Files(fs)) == e.(added := e.added + fs)
    decreases |fs|
  {
    if fs == [] {
      Seqs.RightEmpty(e.added);
    } else {
      assert Files(fs)[1..] == Files(fs[1..]);
      var e' := Add(e, Files(fs)[0]);
      FoldFiles(e', fs[1..]);
      assert e.added + [fs[0]] + fs[1..] == e.added + fs;
    }
  }

  /** Decoding an encoded edit gives the edit back, whatever the order of the set. */
  lemma EditRoundTrip(e: Edit, order: seq<(nat, nat)>)
    requires e.deleted == (set d | d in order) && forall i :: i in ItemsOf(e, order) ==> Encodable(i)
    ensures ParseItems(EncodeItems(ItemsOf(e, order))) == Some(ItemsOf(e, order)) && Fold(EMPTY, ItemsOf(e, order)) == e
  {
    hide Fold, Encodable, EncodeItems, ParseItems;
    ItemsRoundTrip(ItemsOf(e, order));
    var a, b, c, d := Numbers(e), Pointers(e.pointers), Deleted(order), Files(e.added);
    FoldConcat(EMPTY, a + b + c, d);
    FoldConcat(EMPTY, a + b, c);
    FoldConcat(EMPTY, a, b);
    FoldNumbers(e);
    var e1 := Fold(EMPTY, a);
    FoldPointers(e1, e.pointers);
    assert [] + e.pointers == e.pointers;
    FoldDeleted(Fold(e1, b), order);
    FoldFiles(Fold(Fold(e1, b), c), e.added);
    assert [] + e.added == e.added;
    assert {} + (set d | d in order) == e.deleted;
  }
}
