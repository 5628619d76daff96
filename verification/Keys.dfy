/**
 Internal keys, their order, and what a set of entries makes visible at a
 sequence number (db/dbformat.h, db/dbformat.cc).
 */
module Keys {

  datatype Option<+T> = None | Some(value: T)

  /** The code never looks inside a user key except through the user comparator.
      A user key is therefore represented by its position in the comparator's
      order: every countable total order embeds in the rationals. */
  type UserKey = real

  type Value = string

  /** 56-bit sequence numbers (kMaxSequenceNumber). */
  type SeqNum = n: nat | n <= 0xFF_FFFF_FFFF_FFFF

  const MAX_SEQUENCE: SeqNum := 0xFF_FFFF_FFFF_FFFF

  /** kTypeDeletion = 0, kTypeValue = 1. */
  datatype Kind = Deletion | Put

  datatype IKey = IKey(user: UserKey, sn: SeqNum, kind: Kind)

  datatype Entry = Entry(ikey: IKey, value: Value)

  /** The 64-bit tag that PackSequenceAndType stores after the user key. */
  function Tag(k: IKey): (t: nat)
  {
    k.sn * 256 + if k.kind.Put? then 1 else 0
  }

  /** InternalKeyComparator: user key ascending, tag descending. */
  predicate Less(a: IKey, b: IKey)
  {
    a.user < b.user || (a.user == b.user && Tag(a) > Tag(b))
  }

  predicate AtMost(a: IKey, b: IKey)
  {
    !Less(b, a)
  }

  /** The key a lookup of user key k at snapshot s seeks to (kValueTypeForSeek). */
  function SeekKey(k: UserKey, s: SeqNum): (t: IKey)
  {
    IKey(k, s, Put)
  }

  predicate Sorted(es: seq<Entry>)
  {
    forall i, j :: 0 <= i < j < |es| ==> Less(es[i].ikey, es[j].ikey)
  }

  ghost function Elements(es: seq<Entry>): set<Entry>
  {
    set e | e in es
  }

  /** A strictly sorted sequence is determined by its elements. */
  lemma {:induction false} SortedUnique(a: seq<Entry>, b: seq<Entry>)
    requires Sorted(a) && Sorted(b)
    requires Elements(a) == Elements(b)
    ensures a == b
  {
    if b != [] {
      assert b[0] in Elements(b);
      assert b[0] in a;
    }
    if a != [] {
      assert a[0] in Elements(a);
      assert a[0] in b;
      assert a[0] == b[0];
      forall e ensures e in a[1..] <==> e in b[1..] {
        if e in a[1..] {
          assert e in Elements(a);
          assert e in b && e != b[0];
        }
        if e in b[1..] {
          assert e in Elements(b);
          assert e in a && e != a[0];
        }
      }
      SortedUnique(a[1..], b[1..]);
      assert a == [a[0]] + a[1..];
      assert b == [b[0]] + b[1..];
    }
  }

  // ---- What a set of entries makes visible -------------------------------

  predicate Matches(e: Entry, k: UserKey, s: SeqNum)
  {
    e.ikey.user == k && e.ikey.sn <= s
  }

  /** e is the newest entry of user key k with sequence at most s. */
  ghost predicate IsNewest(es: set<Entry>, k: UserKey, s: SeqNum, e: Entry)
  {
    e in es && Matches(e, k, s) &&
    forall d :: d in es && Matches(d, k, s) ==> d.ikey.sn <= e.ikey.sn
  }

  /** No two entries share a user key and a sequence number. */
  ghost predicate Distinct(es: set<Entry>)
  {
    forall d, e :: d in es && e in es && d.ikey.user == e.ikey.user && d.ikey.sn == e.ikey.sn ==> d == e
  }

  lemma {:induction false} NewestExists(es: set<Entry>, k: UserKey, s: SeqNum, m: Entry)
    requires m in es && Matches(m, k, s)
    ensures exists e :: IsNewest(es, k, s, e)
    decreases |es|
  {
    if !IsNewest(es, k, s, m) {
      var d :| d in es && Matches(d, k, s) && d.ikey.sn > m.ikey.sn;
      var rest := es - {m};
      assert rest < es;
      NewestExists(rest, k, s, d);
      var e :| IsNewest(rest, k, s, e);
      assert IsNewest(es, k, s, e);
    }
  }

  /** The newest entry of k at s, or None. */
  ghost function Newest(es: set<Entry>, k: UserKey, s: SeqNum): (r: Option<Entry>)
    ensures r.Some? ==> IsNewest(es, k, s, r.value)
    ensures r.None? ==> forall e :: e in es ==> !Matches(e, k, s)
  {
    if exists e :: e in es && Matches(e, k, s) then
      var m :| m in es && Matches(m, k, s);
      NewestExists(es, k, s, m);
      var e :| IsNewest(es, k, s, e);
      Some(e)
    else
      None
  }

  /** A deletion marker, like the absence of entries, reads as "not found". */
  function ReadOf(r: Option<Entry>): (v: Option<Value>)
  {
    match r
    case None => None
    case Some(e) => if e.ikey.kind.Put? then Some(e.value) else None
  }

  /** What a read of user key k at snapshot s must return. */
  ghost function Visible(es: set<Entry>, k: UserKey, s: SeqNum): (v: Option<Value>)
  {
    ReadOf(Newest(es, k, s))
  }

  lemma NewestUnique(es: set<Entry>, k: UserKey, s: SeqNum, e: Entry)
    requires Distinct(es) && IsNewest(es, k, s, e)
    ensures Newest(es, k, s) == Some(e)
  {
    var r := Newest(es, k, s);
    assert r.Some?;
    assert r.value.ikey.sn == e.ikey.sn;
  }

  lemma NoneVisible(es: set<Entry>, k: UserKey, s: SeqNum)
    requires forall e :: e in es ==> !Matches(e, k, s)
    ensures Newest(es, k, s) == None && Visible(es, k, s) == None
  {
  }

  /** Seeking to SeekKey(k, s) passes over exactly the entries that cannot match. */
  lemma SeekSkipsOnlyTooNew(e: IKey, k: UserKey, s: SeqNum)
    requires e.user == k
    ensures Less(e, SeekKey(k, s)) <==> e.sn > s
  {
  }
}
