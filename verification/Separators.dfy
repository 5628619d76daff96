/**
 The bytewise comparator and the shortening of index keys
 (util/comparator.cc, db/dbformat.cc).
 */
module Separators {
  import opened Coding

  type Bytes = seq<Byte>

  // ---- Bytewise order -----------------------------------------------------------------

  /** Slice::compare: the first differing byte decides, then the length. */
  predicate LexLess(a: Bytes, b: Bytes)
  {
    if b == [] then false
    else if a == [] then true
    else a[0] < b[0] || (a[0] == b[0] && LexLess(a[1..], b[1..]))
  }

  lemma {:induction false} LexTotal(a: Bytes, b: Bytes)
    ensures LexLess(a, b) || a == b || LexLess(b, a)
    ensures !(LexLess(a, b) && LexLess(b, a)) && !LexLess(a, a)
  {
    if a != [] && b != [] {
      LexTotal(a[1..], b[1..]);
      assert a == [a[0]] + a[1..] && b == [b[0]] + b[1..];
    }
    if a != [] { LexTotal(a[1..], a[1..]); }
  }

  lemma {:induction false} LexTransitive(a: Bytes, b: Bytes, c: Bytes)
    requires LexLess(a, b) && LexLess(b, c)
    ensures LexLess(a, c)
  {
    if a != [] && a[0] == b[0] == c[0] { LexTransitive(a[1..], b[1..], c[1..]); }
  }

  /** A common prefix does not matter. */
  lemma {:induction false} LexPrefix(p: Bytes, a: Bytes, b: Bytes)
    ensures LexLess(p + a, p + b) <==> LexLess(a, b)
  {
    if p == [] {
      assert p + a == a && p + b == b;
    } else {
      assert (p + a)[1..] == p[1..] + a && (p + b)[1..] == p[1..] + b;
      LexPrefix(p[1..], a, b);
    }
  }

  /** Two strings that first differ at i. */
  lemma LexAt(a: Bytes, b: Bytes, i: nat)
    requires i < |a| && i < |b| && a[..i] == b[..i] && a[i] != b[i]
    ensures LexLess(a, b) <==> a[i] < b[i]
  {
    assert a == a[..i] + a[i..] && b == b[..i] + b[i..];
    LexPrefix(a[..i], a[i..], b[i..]);
  }

  // ---- BytewiseComparator ---------------------------------------------------------------

  method FindShortestSeparator(start: Bytes, limit: Bytes) returns (r: Bytes)
    ensures r == start || (LexLess(start, r) && LexLess(r, limit) && |r| <= |start|)
    ensures start <= limit || limit <= start ==> r == start
    ensures forall i :: 0 <= i < |start| && i < |limit| && start[..i] == limit[..i] && start[i] != limit[i] ==>
              r == if start[i] as int + 1 < limit[i] then start[..i] + [start[i] + 1] else start
  {
    var minLength := if |start| < |limit| then |start| else |limit|;
    var diffIndex := 0;
    while diffIndex < minLength && start[diffIndex] == limit[diffIndex]
      invariant 0 <= diffIndex <= minLength && start[..diffIndex] == limit[..diffIndex]
      invariant forall i :: 0 <= i < diffIndex ==> start[i] == limit[i]
    {
      diffIndex := diffIndex + 1;
    }
    r := start;
    if diffIndex < minLength {
      assert forall i :: diffIndex < i < minLength ==> start[..i][diffIndex] != limit[..i][diffIndex];
      var diffByte := start[diffIndex];
      if diffByte < 0xff && diffByte as int + 1 < limit[diffIndex] {
        r := start[diffIndex := diffByte + 1][..diffIndex + 1];
        assert r[..diffIndex] == start[..diffIndex];
        LexAt(start, r, diffIndex);
        LexAt(r, limit, diffIndex);
      }
    }
  }

  method FindShortSuccessor(key: Bytes) returns (r: Bytes)
    ensures r == key || (LexLess(key, r) && |r| <= |key|)
    ensures r == key <==> forall i :: 0 <= i < |key| ==> key[i] == 0xff
    ensures forall i :: 0 <= i < |key| && key[i] != 0xff && (forall j :: 0 <= j < i ==> key[j] == 0xff) ==>
              r == key[..i] + [key[i] + 1]
  {
    for i := 0 to |key|
      invariant forall j :: 0 <= j < i ==> key[j] == 0xff
    {
      if key[i] != 0xff {
        r := key[i := key[i] + 1][..i + 1];
        assert r[..i] == key[..i];
        LexAt(key, r, i);
        assert r[i] != key[i];
        return;
      }
    }
    r := key;
  }

  // ---- InternalKeyComparator -----------------------------------------------------------------

  /** A user key and the 64-bit tag after it. */
  datatype InternalKey = InternalKey(user: Bytes, tag: nat)

  /** PackSequenceAndType(kMaxSequenceNumber, kValueTypeForSeek). */
  const LARGEST_TAG: nat := 0xFF_FFFF_FFFF_FFFF * 256 + 1

  predicate Less(a: InternalKey, b: InternalKey)
  {
    LexLess(a.user, b.user) || (a.user == b.user && a.tag > b.tag)
  }

  predicate AtMost(a: InternalKey, b: InternalKey)
  {
    !Less(b, a)
  }

  lemma LessTotal(a: InternalKey, b: InternalKey)
    ensures Less(a, b) || a == b || Less(b, a)
    ensures !(Less(a, b) && Less(b, a))
  {
    LexTotal(a.user, b.user);
  }

  lemma LessTransitive(a: InternalKey, b: InternalKey, c: InternalKey)
    requires Less(a, b) && Less(b, c)
    ensures Less(a, c)
  {
    if LexLess(a.user, b.user) && LexLess(b.user, c.user) { LexTransitive(a.user, b.user, c.user); }
  }

  /** The index key between two blocks: the last key of the first, or a user key strictly
      between the two user keys, with the largest tag. */
  ghost predicate Separator(start: InternalKey, limit: InternalKey, r: InternalKey)
  {
    r == start || (LexLess(start.user, r.user) && LexLess(r.user, limit.user) && r.tag == LARGEST_TAG)
  }

  method InternalSeparator(start: InternalKey, limit: InternalKey) returns (r: InternalKey)
    ensures Separator(start, limit, r)
    ensures Less(start, limit) ==> AtMost(start, r) && Less(r, limit)
    ensures start.user <= limit.user || limit.user <= start.user ==> r == start
    ensures forall i :: 0 <= i < |start.user| && i < |limit.user| && start.user[..i] == limit.user[..i]
                        && start.user[i] != limit.user[i] ==>
              r == if i + 1 < |start.user| && start.user[i] as int + 1 < limit.user[i]
                   then InternalKey(start.user[..i] + [start.user[i] + 1], LARGEST_TAG) else start
  {
    r := start;
    var tmp := FindShortestSeparator(start.user, limit.user);
    LessTotal(start, start);
    if |tmp| < |start.user| && LexLess(start.user, tmp) {
      r := InternalKey(tmp, LARGEST_TAG);
      LessTotal(start, r);
    }
  }

  method InternalSuccessor(key: InternalKey) returns (r: InternalKey)
    ensures r == key || (LexLess(key.user, r.user) && r.tag == LARGEST_TAG)
    ensures AtMost(key, r)
    ensures (forall i :: 0 <= i < |key.user| ==> key.user[i] == 0xff) ==> r == key
    ensures forall i :: 0 <= i < |key.user| && key.user[i] != 0xff &&
                        (forall j :: 0 <= j < i ==> key.user[j] == 0xff) ==>
              r == if i + 1 < |key.user| then InternalKey(key.user[..i] + [key.user[i] + 1], LARGEST_TAG) else key
  {
    r := key;
    var tmp := FindShortSuccessor(key.user);
    LessTotal(key, key);
    if |tmp| < |key.user| && LexLess(key.user, tmp) {
      r := InternalKey(tmp, LARGEST_TAG);
      LessTotal(key, r);
    }
  }
}
