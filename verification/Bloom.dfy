/**
 Bloom filters with several independent units (util/bloom.cc).
 */
module Bloom {
  import opened Coding

  type Bytes = seq<Byte>

  /** Hash(data, n, 0xbc9f2d21): any function of the key. */
  type Hash = Bytes -> Word

  /** uint32_t. */
  type Word = n: nat | n < 0x1_0000_0000

  // ---- Bits of bytes ---------------------------------------------------------------------

  function Mask(n: nat): bv8
    requires n < 8
  {
    match n
    case 0 => 1
    case 1 => 2
    case 2 => 4
    case 3 => 8
    case 4 => 16
    case 5 => 32
    case 6 => 64
    case 7 => 128
  }

  predicate Has(b: bv8, m: bv8) { b & m != 0 }

  function Or(b: bv8, m: bv8): bv8 { b | m }

  predicate BitOf(b: Byte, n: nat)
    requires n < 8
  {
    Has(b as bv8, Mask(n))
  }

  function WithBit(b: Byte, n: nat): Byte
    requires n < 8
  {
    Or(b as bv8, Mask(n)) as nat
  }

  lemma OrKeeps(b: bv8, m: bv8, n: bv8)
    ensures Has(b, m) ==> Has(Or(b, n), m)
    ensures m != 0 ==> Has(Or(b, m), m)
    ensures m & n == 0 && Has(Or(b, n), m) ==> Has(b, m)
  {
  }

  lemma ByteAndBack(b: bv8)
    ensures (b as nat) < 256 && (b as nat) as bv8 == b
  {
  }

  lemma MasksApart(m: nat, n: nat)
    requires m < 8 && n < 8
    ensures Mask(m) != 0 && (m != n ==> Mask(m) & Mask(n) == 0)
  {
  }

  lemma SetBitKeeps(b: Byte, n: nat, m: nat)
    requires n < 8 && m < 8
    ensures BitOf(WithBit(b, n), m) <==> BitOf(b, m) || m == n
  {
    hide Has, Or, Mask;
    MasksApart(m, n);
    ByteAndBack(Or(b as bv8, Mask(n)));
    OrKeeps(b as bv8, Mask(m), Mask(n));
  }

  predicate BitAt(s: Bytes, pos: nat)
    requires pos < 8 * |s|
  {
    BitOf(s[pos / 8], pos % 8)
  }

  // ---- Probes --------------------------------------------------------------------------------

  /** (h >> 17) | (h << 15). */
  function Rotate(h: Word): Word
  {
    h / 0x2_0000 + h % 0x2_0000 * 0x8000
  }

  function Add(a: nat, b: nat): Word
  {
    (a + b) % 0x1_0000_0000
  }

  /** A different hash for every filter unit. */
  function BloomHash(hash: Hash, key: Bytes, index: nat): Word
  {
    Add(hash(key), Rotate(hash(key)) * index)
  }

  /** The j-th probe: double hashing. */
  function Probe(h: Word, j: nat): Word
  {
    if j == 0 then h else Add(Probe(h, j - 1), Rotate(h))
  }

  // ---- The hashes of the units ----------------------------------------------------------------

  /** The rotation as the source writes it, on the bits of a word. */
  function Rotated(h: bv32): bv32
  {
    (h >> 17) | (h << 15)
  }

  function Joined(high: bv15, low: bv17): bv32
  {
    (high as bv32 << 17) | (low as bv32)
  }

  function Swapped(high: bv15, low: bv17): bv32
  {
    (low as bv32 << 15) | (high as bv32)
  }

  /** A rotation swaps the high 15 and the low 17 bits. */
  lemma RotatedParts(h: bv32) returns (high: bv15, low: bv17)
    ensures h == Joined(high, low) && Rotated(h) == Swapped(high, low)
  {
    high := (h >> 17) as bv15;
    low := (h & 0x1_FFFF) as bv17;
  }

  lemma JoinedValue(high: bv15, low: bv17)
    ensures (((high as bv32) << 17) | (low as bv32)) as nat == high as nat * 0x2_0000 + low as nat
  {
  }

  lemma SwappedValue(high: bv15, low: bv17)
    ensures (((low as bv32) << 15) | (high as bv32)) as nat == high as nat + low as nat * 0x8000
  {
  }

  lemma PartValues(high: bv15, low: bv17)
    ensures Joined(high, low) as nat == high as nat * 0x2_0000 + low as nat
    ensures Swapped(high, low) as nat == high as nat + low as nat * 0x8000
    ensures (low as nat) < 0x2_0000
  {
    JoinedValue(high, low);
    SwappedValue(high, low);
  }

  lemma RotateValue(h: Word, high: nat, low: nat)
    requires h == high * 0x2_0000 + low && low < 0x2_0000
    ensures Rotate(h) == high + low * 0x8000
  {
  }

  /** Rotate is the rotation of the bits. */
  lemma RotateBits(h: bv32)
    ensures Rotate(h as nat) == Rotated(h) as nat
  {
    hide Joined, Swapped, Rotate, Rotated;
    var high, low := RotatedParts(h);
    PartValues(high, low);
    RotateValue(h as nat, high as nat, low as nat);
  }

  lemma AddAgain(a: nat, b: nat)
    ensures Add(a % 0x1_0000_0000, b) == Add(a, b)
  {
  }

  lemma AddNothing(a: nat, b: nat)
    ensures a % 0x1_0000_0000 == Add(a, b) <==> b % 0x1_0000_0000 == 0
  {
  }

  /** Unit 0 uses the hash of the key, and every further unit adds its rotation once more. */
  lemma UnitStep(hash: Hash, key: Bytes, h: bv32, index: nat)
    requires hash(key) == h as nat
    ensures BloomHash(hash, key, 0) == h as nat
    ensures BloomHash(hash, key, index + 1) == Add(BloomHash(hash, key, index), Rotated(h) as nat)
  {
    hide Rotate, Rotated, Add;
    RotateBits(h);
    OnceMore(hash(key), Rotate(hash(key)), index);
  }

  lemma OnceMore(h: Word, d: nat, n: nat)
    ensures Add(h, d * 0) == h && Add(h, d * (n + 1)) == Add(Add(h, d * n), d)
  {
    assert d * (n + 1) == d * n + d;
    AddAgain(h + d * n, d);
  }

  /** Two units differ on a key if and only if its rotation times the distance of the units is
      not a multiple of 2^32. */
  lemma UnitsDiffer(hash: Hash, key: Bytes, h: bv32, i: nat, j: nat)
    requires hash(key) == h as nat && i <= j
    ensures BloomHash(hash, key, i) == BloomHash(hash, key, j) <==>
              Rotated(h) as nat * (j - i) % 0x1_0000_0000 == 0
  {
    hide Rotate, Rotated, Add;
    RotateBits(h);
    SameSum(hash(key), Rotate(hash(key)), i, j);
  }

  lemma SameSum(h: Word, d: nat, i: nat, j: nat)
    requires i <= j
    ensures Add(h, d * i) == Add(h, d * j) <==> d * (j - i) % 0x1_0000_0000 == 0
  {
    assert d * j == d * i + d * (j - i);
    AddNothing(h + d * i, d * (j - i));
  }

  /** The probes of one unit: from its hash in steps of the rotation of that hash. */
  lemma ProbeStep(h: bv32, j: nat)
    ensures Probe(h as nat, 0) == h as nat && Probe(h as nat, j + 1) == Add(Probe(h as nat, j), Rotated(h) as nat)
  {
    hide Rotate, Rotated;
    RotateBits(h);
  }

  /** The hashes of the units are the probes of unit 0. */
  lemma {:induction false} UnitsAreProbes(hash: Hash, key: Bytes, index: nat)
    ensures BloomHash(hash, key, index) == Probe(hash(key), index)
  {
    hide Rotate;
    if index > 0 {
      UnitsAreProbes(hash, key, index - 1);
      var d := Rotate(hash(key));
      assert d * index == d * (index - 1) + d;
      AddAgain(hash(key) + d * (index - 1), d);
    }
  }

  function Position(h: Word, j: nat, bits: nat): (p: nat)
    requires bits > 0
    ensures p < bits
  {
    Slot(Probe(h, j), bits)
  }

  function Slot(h: Word, bits: nat): (p: nat)
    requires bits > 0
    ensures p < bits
  {
    h % bits
  }

  /** Every probe of the key finds its bit. */
  ghost predicate AllSet(s: Bytes, h: Word, k: nat)
    requires |s| > 0
  {
    forall j :: 0 <= j < k ==> BitAt(s, Position(h, j, 8 * |s|))
  }

  // ---- CreateFilter -----------------------------------------------------------------------------

  /** Number of probes: bits per key times 0.69, between 1 and 30. */
  function Probes(bitsPerKey: nat): (k: nat)
    ensures 1 <= k <= 30
    ensures k == 1 || k as real <= bitsPerKey as real * 0.69
    ensures k == 30 || bitsPerKey as real * 0.69 < k as real + 1.0
  {
    var k := (bitsPerKey as real * 0.69).Floor;
    if k < 1 then 1 else if k > 30 then 30 else k
  }

  /** Bytes of the bit array for n keys. */
  function FilterBytes(n: nat, bitsPerKey: nat): (b: nat)
    ensures b >= 8 && n * bitsPerKey <= 8 * b
    ensures b == 8 || 8 * (b - 1) < n * bitsPerKey
  {
    var bits := n * bitsPerKey;
    ((if bits < 64 then 64 else bits) + 7) / 8
  }

  /** CreateFilter appends a bit array and the number of probes. */
  method CreateFilter(hash: Hash, bitsPerKey: nat, keys: seq<Bytes>, dst: Bytes, index: nat) returns (r: Bytes)
    ensures |r| == |dst| + FilterBytes(|keys|, bitsPerKey) + 1 && dst <= r && r[|r| - 1] == Probes(bitsPerKey)
    ensures forall key :: key in keys ==> KeyMayMatch(hash, key, r[|dst|..], index)
    ensures OnlyFrom(r[|dst|..|r| - 1], hash, keys, Probes(bitsPerKey), index)
  {
    var k, bytes := Probes(bitsPerKey), FilterBytes(|keys|, bitsPerKey);
    var filter := AddKeys(hash, keys, seq(bytes, i => 0), k, index);
    r := dst + (filter + [k]);
    assert r[|dst|..] == filter + [k] && r[|dst|..|r| - 1] == filter;
    forall key | key in keys ensures KeyMayMatch(hash, key, r[|dst|..], index) {
      Matches(hash, key, filter, k, index);
    }
  }

  /** No bit is set but those that the probes of the keys ask for. */
  ghost predicate OnlyFrom(s: Bytes, hash: Hash, keys: seq<Bytes>, k: nat, index: nat)
  {
    forall p :: 0 <= p < 8 * |s| && BitAt(s, p) ==>
      exists i, j :: 0 <= i < |keys| && 0 <= j < k && p == Position(BloomHash(hash, keys[i], index), j, 8 * |s|)
  }

  method AddKeys(hash: Hash, keys: seq<Bytes>, empty: Bytes, k: nat, index: nat) returns (s: Bytes)
    requires |empty| > 0 && forall i :: 0 <= i < |empty| ==> empty[i] == 0
    ensures |s| == |empty| && forall key :: key in keys ==> AllSet(s, BloomHash(hash, key, index), k)
    ensures OnlyFrom(s, hash, keys, k, index)
  {
    hide BloomHash, BitAt, AllSet, Position;
    s := empty;
    NoBits(empty);
    for i := 0 to |keys|
      invariant |s| == |empty| && forall m :: 0 <= m < i ==> AllSet(s, BloomHash(hash, keys[m], index), k)
      invariant OnlyFrom(s, hash, keys, k, index)
    {
      ghost var before := s;
      s := AddProbes(BloomHash(hash, keys[i], index), s, k);
      forall m | 0 <= m < i ensures AllSet(s, BloomHash(hash, keys[m], index), k) {
        StillSet(before, s, BloomHash(hash, keys[m], index), k);
      }
    }
  }

  lemma NoBits(s: Bytes)
    requires forall i :: 0 <= i < |s| ==> s[i] == 0
    ensures forall p :: 0 <= p < 8 * |s| ==> !BitAt(s, p)
  {
    forall p | 0 <= p < 8 * |s| ensures !BitAt(s, p) { NoBit(p % 8); }
  }

  lemma NoBit(n: nat)
    requires n < 8
    ensures !BitOf(0, n)
  {
    hide Mask;
    assert !Has(0, Mask(n));
  }

  /** The bits of one key, set in place. */
  method AddProbes(hash: Word, empty: Bytes, k: nat) returns (s: Bytes)
    requires |empty| > 0
    ensures Grown(empty, s) && AllSet(s, hash, k)
    ensures forall p :: 0 <= p < 8 * |s| && BitAt(s, p) ==>
              BitAt(empty, p) || exists j :: 0 <= j < k && p == Position(hash, j, 8 * |s|)
  {
    hide BitOf, WithBit, Slot, Rotate, BitAt, Add;
    s := empty;
    var h, delta, bits := hash, Rotate(hash), 8 * |empty|;
    for j := 0 to k
      invariant Grown(empty, s) && AllSet(s, hash, j) && h == Probe(hash, j)
      invariant forall p :: 0 <= p < 8 * |s| && BitAt(s, p) ==>
                  BitAt(empty, p) || exists i :: 0 <= i < j && p == Position(hash, i, 8 * |s|)
    {
      var pos := Slot(h, bits);
      ghost var before := s;
      s := s[pos / 8 := WithBit(s[pos / 8], pos % 8)];
      OneBit(before, pos);
      StillSet(before, s, hash, j);
      assert pos == Position(hash, j, 8 * |s|);
      h := Add(h, delta);
    }
  }

  /** No bit is lost. */
  ghost predicate Grown(s: Bytes, t: Bytes)
  {
    |s| == |t| && forall p :: 0 <= p < 8 * |s| && BitAt(s, p) ==> BitAt(t, p)
  }

  lemma OneBit(s: Bytes, pos: nat)
    requires pos < 8 * |s|
    ensures var t := s[pos / 8 := WithBit(s[pos / 8], pos % 8)];
            Grown(s, t) && BitAt(t, pos) && forall p :: 0 <= p < 8 * |t| && BitAt(t, p) ==> BitAt(s, p) || p == pos
  {
    hide BitOf, WithBit;
    var t := s[pos / 8 := WithBit(s[pos / 8], pos % 8)];
    forall p | 0 <= p < 8 * |s| ensures BitAt(t, p) <==> BitAt(s, p) || p == pos {
      if p / 8 == pos / 8 { SetBitKeeps(s[pos / 8], pos % 8, p % 8); }
    }
  }

  lemma StillSet(s: Bytes, t: Bytes, h: Word, k: nat)
    requires |s| > 0 && Grown(s, t) && AllSet(s, h, k)
    ensures AllSet(t, h, k)
  {
    hide BitAt, Position;
  }

  // ---- KeyMayMatch --------------------------------------------------------------------------------

  ghost predicate KeyMayMatch(hash: Hash, key: Bytes, filter: Bytes, index: nat)
  {
    |filter| >= 2 && (filter[|filter| - 1] > 30 ||
                      AllSet(filter[..|filter| - 1], BloomHash(hash, key, index), filter[|filter| - 1]))
  }

  method TestKey(hash: Hash, key: Bytes, filter: Bytes, index: nat) returns (r: bool)
    ensures r <==> KeyMayMatch(hash, key, filter, index)
  {
    hide BloomHash, BitOf, Slot, Rotate, Add;
    var len := |filter|;
    if len < 2 { return false; }
    var table, bits, k := filter[..len - 1], (len - 1) * 8, filter[len - 1];
    if k > 30 { return true; }
    var first := BloomHash(hash, key, index);
    var h, delta := first, Rotate(first);
    for j := 0 to k
      invariant AllSet(table, first, j) && h == Probe(first, j)
    {
      var bitpos := Slot(h, bits);
      assert bitpos == Position(first, j, 8 * |table|);
      if !BitOf(filter[bitpos / 8], bitpos % 8) {
        assert !BitAt(table, Position(first, j, 8 * |table|));
        return false;
      }
      h := Add(h, delta);
    }
    r := true;
  }

  /** A further unit can reject what the first accepts: filters of one bit per key for a, where
      b has the same bit in unit 0 and another one in unit 1. */
  method SecondUnitRejects(hash: Hash, a: Bytes, b: Bytes) returns (first: Bytes, second: Bytes)
    requires hash(a) == 0x2_0001 && hash(b) == 1
    ensures KeyMayMatch(hash, a, first, 0) && KeyMayMatch(hash, a, second, 1)
    ensures KeyMayMatch(hash, b, first, 0) && !KeyMayMatch(hash, b, second, 1)
  {
    hide BitAt;
    first := CreateFilter(hash, 1, [a], [], 0);
    second := CreateFilter(hash, 1, [a], [], 1);
    assert a in [a] && first[0..] == first && second[0..] == second;
    assert Position(BloomHash(hash, a, 0), 0, 64) == 1 == Position(BloomHash(hash, b, 0), 0, 64);
    assert Position(BloomHash(hash, a, 1), 0, 64) == 2 && Position(BloomHash(hash, b, 1), 0, 64) == 1;
    assert BitAt(first[..8], 1) && !BitAt(second[..8], 1);
  }

  lemma Matches(hash: Hash, key: Bytes, s: Bytes, k: Byte, index: nat)
    requires |s| > 0 && AllSet(s, BloomHash(hash, key, index), k)
    ensures KeyMayMatch(hash, key, s + [k], index)
  {
    hide BloomHash, AllSet;
    assert (s + [k])[..|s|] == s;
  }
}
