/**
 Fixed-width and varint encodings (util/coding.h, util/coding.cc).
 */
module Coding {
  import Seqs
  import opened Keys
  import Crc

  type Byte = n: nat | n < 256

  // ---- Checksums of bytes -----------------------------------------------------

  function Octets(s: seq<Byte>): seq<bv8>
  {
    seq(|s|, i requires 0 <= i < |s| => s[i] as bv8)
  }

  function Checksum(s: seq<Byte>): Crc.Register
  {
    Crc.Value(Octets(s))
  }

  /** Extending the checksum of a by b. */
  function ExtendChecksum(crc: Crc.Register, s: seq<Byte>): Crc.Register
  {
    Crc.Extend(crc, Octets(s))
  }

  lemma ChecksumConcat(a: seq<Byte>, b: seq<Byte>)
    ensures ExtendChecksum(Checksum(a), b) == Checksum(a + b)
  {
    hide Crc.Extend;
    assert Octets(a + b) == Octets(a) + Octets(b);
    Crc.ExtendConcat(0, Octets(a), Octets(b));
  }

  /** A masked checksum as stored, and read back. */
  function StoreChecksum(crc: Crc.Register): (s: seq<Byte>)
    ensures |s| == 4
  {
    LittleEndian(Crc.Mask(crc) as nat, 4)
  }

  function LoadChecksum(s: seq<Byte>): Crc.Register
    requires |s| == 4
  {
    FourBytes(s);
    Crc.Unmask(FromLittleEndian(s) as bv32)
  }

  lemma RegisterNat(r: Crc.Register)
    ensures (r as nat) < TWO_32 && (r as nat) as bv32 == r
  {
  }

  lemma FourBytes(s: seq<Byte>)
    requires |s| == 4
    ensures FromLittleEndian(s) < TWO_32
  {
    FromLittleEndianRange(s);
    Powers();
  }

  lemma ChecksumRoundTrip(crc: Crc.Register)
    ensures LoadChecksum(StoreChecksum(crc)) == crc
  {
    hide Crc.Mask, Crc.Unmask, LittleEndian, FromLittleEndian;
    RegisterNat(Crc.Mask(crc));
    Powers();
    LittleEndianRoundTrip(Crc.Mask(crc) as nat, 4);
    Crc.UnmaskMask(crc);
  }

  // ---- Fixed width ---------------------------------------------------------------

  /** Little-endian bytes of a number. */
  function LittleEndian(n: nat, width: nat): (s: seq<Byte>)
    ensures |s| == width
  {
    if width == 0 then [] else [(n % 256)] + LittleEndian(n / 256, width - 1)
  }

  function FromLittleEndian(s: seq<Byte>): nat
  {
    if s == [] then 0 else s[0] + 256 * FromLittleEndian(s[1..])
  }

  function Power(base: nat, n: nat): nat
  {
    if n == 0 then 1 else base * Power(base, n - 1)
  }

  lemma Powers()
    ensures Power(256, 4) == TWO_32 && Power(256, 8) == TWO_64 && TWO_32 <= Power(128, 5) && TWO_64 <= Power(128, 10)
  {
    assert Power(256, 2) == 0x1_0000;
    assert Power(256, 4) == 0x1_0000_0000;
    assert Power(256, 6) == 0x1_0000_0000_0000;
    assert Power(128, 2) == 0x4000;
    assert Power(128, 4) == 0x1000_0000;
    assert Power(128, 6) == 0x400_0000_0000;
    assert Power(128, 8) == 0x100_0000_0000_0000;
  }

  lemma {:induction false} FromLittleEndianRange(s: seq<Byte>)
    ensures FromLittleEndian(s) < Power(256, |s|)
  {
    if s != [] { FromLittleEndianRange(s[1..]); }
  }

  lemma {:induction false} LittleEndianRoundTrip(n: nat, width: nat)
    requires n < Power(256, width)
    ensures FromLittleEndian(LittleEndian(n, width)) == n
  {
    if width > 0 {
      LittleEndianRoundTrip(n / 256, width - 1);
    }
  }

  /** An array of fixed 32-bit numbers. */
  function Fixed32s(xs: seq<nat>): (s: seq<Byte>)
    ensures |s| == 4 * |xs|
  {
    if xs == [] then [] else Fixed32s(xs[..|xs| - 1]) + LittleEndian(xs[|xs| - 1] % TWO_32, 4)
  }

  lemma {:induction false} Fixed32At(xs: seq<nat>, rest: seq<Byte>, i: nat)
    requires i < |xs| && xs[i] < TWO_32
    ensures FromLittleEndian((Fixed32s(xs) + rest)[4 * i..4 * i + 4]) == xs[i]
  {
    hide LittleEndian, FromLittleEndian;
    var n := |xs| - 1;
    var last := LittleEndian(xs[n] % TWO_32, 4);
    Seqs.Associative(Fixed32s(xs[..n]), last, rest);
    if i < n {
      Fixed32At(xs[..n], last + rest, i);
    } else {
      Powers();
      LittleEndianRoundTrip(xs[n], 4);
      assert (Fixed32s(xs) + rest)[4 * n..4 * n + 4] == last;
    }
  }

  // ---- Varints -------------------------------------------------------------------------

  /** Seven bits at a time, low bits first; the high bit says that more follow. */
  function Varint(v: nat): (s: seq<Byte>)
    ensures |s| > 0
  {
    if v < 128 then [v] else [v % 128 + 128] + Varint(v / 128)
  }

  /** A varint of at most max bytes at the start of s: its value and its length. */
  function ParseVarint(s: seq<Byte>, max: nat): (r: Option<(nat, nat)>)
    ensures r.Some? ==> 0 < r.value.1 <= |s| && r.value.1 <= max
  {
    if max == 0 || s == [] then None
    else if s[0] < 128 then Some((s[0], 1))
    else
      var rest := ParseVarint(s[1..], max - 1);
      if rest.None? then None else Some((s[0] - 128 + 128 * rest.value.0, rest.value.1 + 1))
  }

  lemma DividePower(v: nat, max: nat)
    requires max > 0 && 128 <= v < Power(128, max)
    ensures max > 1 && v / 128 < Power(128, max - 1)
  {
  }

  lemma {:induction false} VarintRoundTrip(v: nat, max: nat, rest: seq<Byte>)
    requires max > 0 && v < Power(128, max)
    ensures ParseVarint(Varint(v) + rest, max) == Some((v, |Varint(v)|))
  {
    hide Power;
    if v < 128 {
      assert (Varint(v) + rest)[0] == v;
    } else {
      DividePower(v, max);
      VarintRoundTrip(v / 128, max - 1, rest);
      assert (Varint(v) + rest)[0] == v % 128 + 128;
      assert (Varint(v) + rest)[1..] == Varint(v / 128) + rest;
    }
  }

  const TWO_32: nat := 0x1_0000_0000
  const TWO_64: nat := 0x1_0000_0000_0000_0000

  /** GetVarint32: at most five bytes, truncated to 32 bits; and what is left. */
  function GetVarint32(s: seq<Byte>): (r: Option<(nat, seq<Byte>)>)
    ensures r.Some? ==> |r.value.1| < |s|
  {
    var p := ParseVarint(s, 5);
    if p.None? then None else Some((p.value.0 % TWO_32, s[p.value.1..]))
  }

  lemma GetVarint32RoundTrip(v: nat, rest: seq<Byte>)
    requires v < TWO_32
    ensures GetVarint32(Varint(v) + rest) == Some((v, rest))
  {
    Powers();
    VarintRoundTrip(v, 5, rest);
    assert (Varint(v) + rest)[|Varint(v)|..] == rest;
  }

  /** GetVarint64: at most ten bytes, truncated to 64 bits. */
  function GetVarint64(s: seq<Byte>): (r: Option<(nat, seq<Byte>)>)
    ensures r.Some? ==> |r.value.1| < |s|
  {
    var p := ParseVarint(s, 10);
    if p.None? then None else Some((p.value.0 % TWO_64, s[p.value.1..]))
  }

  lemma GetVarint64RoundTrip(v: nat, rest: seq<Byte>)
    requires v < TWO_64
    ensures GetVarint64(Varint(v) + rest) == Some((v, rest))
  {
    Powers();
    VarintRoundTrip(v, 10, rest);
    assert (Varint(v) + rest)[|Varint(v)|..] == rest;
  }

  // ---- The loops ------------------------------------------------------------------------

  /** EncodeVarint64. */
  method EncodeVarint64(value: nat) returns (s: seq<Byte>)
    ensures s == Varint(value)
  {
    var v := value;
    s := [];
    while v >= 128
      invariant s + Varint(v) == Varint(value)
    {
      Seqs.Associative(s, [v % 128 + 128], Varint(v / 128));
      s, v := s + [v % 128 + 128], v / 128;
    }
    s := s + [v];
  }

  /** EncodeVarint32: the same encoding with the loop written out. */
  method EncodeVarint32(v: nat) returns (s: seq<Byte>)
    requires v < TWO_32
    ensures s == Varint(v)
  {
    if v < 0x80 {
      s := [v];
    } else if v < 0x4000 {
      s := [v % 128 + 128, v / 128];
    } else if v < 0x20_0000 {
      s := [v % 128 + 128, v / 128 % 128 + 128, v / 128 / 128];
      assert Varint(v / 128) == s[1..];
    } else if v < 0x1000_0000 {
      s := [v % 128 + 128, v / 128 % 128 + 128, v / 128 / 128 % 128 + 128,
            v / 128 / 128 / 128];
      assert Varint(v / 128 / 128) == s[2..];
      assert Varint(v / 128) == s[1..];
    } else {
      s := [v % 128 + 128, v / 128 % 128 + 128, v / 128 / 128 % 128 + 128,
            v / 128 / 128 / 128 % 128 + 128, v / 128 / 128 / 128 / 128];
      assert Varint(v / 128 / 128 / 128) == s[3..];
      assert Varint(v / 128 / 128) == s[2..];
      assert Varint(v / 128) == s[1..];
    }
  }

  /** GetVarint32Ptr: one-byte fast path, then the shift loop of the fallback. */
  method ReadVarint32(s: seq<Byte>) returns (r: Option<(nat, seq<Byte>)>)
    ensures r == GetVarint32(s)
  {
    hide ParseVarint, Shifted;
    if s != [] && s[0] < 128 {
      OneByte(s);
      return Some((s[0], s[1..]));
    }
    var result: nat, i, scale: nat := 0, 0, 1;
    assert s[0..] == s;
    StartPrefixed(ParseVarint(s, 5));
    while i < 5 && i < |s|
      invariant 0 <= i <= 5 && i <= |s|
      invariant ParseVarint(s, 5) == Prefixed(result, scale, i, ParseVarint(s[i..], 5 - i))
    {
      if s[i] >= 128 {
        PrefixedStep(s, i, result, scale);
        result := Shifted(result, s[i] - 128, scale);
      } else {
        LastByte(s, i, result, scale);
        return Some((Shifted(result, s[i], scale) % TWO_32, s[i + 1..]));
      }
      i, scale := i + 1, 128 * scale;
    }
    NoByte(s, i);
    r := None;
  }

  /** result | (bits << shift), with scale for the shift: the bits do not overlap. */
  function Shifted(result: nat, bits: nat, scale: nat): nat
  {
    result + bits * scale
  }

  lemma StartPrefixed(p: Option<(nat, nat)>)
    ensures Prefixed(0, 1, 0, p) == p
  {
  }

  lemma OneByte(s: seq<Byte>)
    requires s != [] && s[0] < 128
    ensures GetVarint32(s) == Some((s[0], s[1..]))
  {
  }

  lemma LastByte(s: seq<Byte>, i: nat, result: nat, scale: nat)
    requires i < 5 && i < |s| && s[i] < 128
    ensures Prefixed(result, scale, i, ParseVarint(s[i..], 5 - i)) == Some((Shifted(result, s[i], scale), i + 1))
  {
    assert s[i..][0] == s[i];
  }

  lemma NoByte(s: seq<Byte>, i: nat)
    requires i == 5 || i == |s| <= 5
    requires i <= |s|
    ensures ParseVarint(s[i..], 5 - i) == None
  {
  }

  /** A parse of what follows, put after the bits read so far. */
  ghost function Prefixed(result: nat, scale: nat, n: nat, rest: Option<(nat, nat)>): Option<(nat, nat)>
  {
    if rest.None? then None else Some((Shifted(result, rest.value.0, scale), n + rest.value.1))
  }

  lemma PrefixedStep(s: seq<Byte>, i: nat, result: nat, scale: nat)
    requires i < 5 && i < |s| && s[i] >= 128
    ensures Prefixed(result, scale, i, ParseVarint(s[i..], 5 - i))
         == Prefixed(Shifted(result, s[i] - 128, scale), 128 * scale, i + 1, ParseVarint(s[i + 1..], 5 - (i + 1)))
  {
    assert s[i..][1..] == s[i + 1..];
    var rest := ParseVarint(s[i + 1..], 4 - i);
    if rest.Some? {
      var v, x := rest.value.0, s[i] - 128;
      assert (x + 128 * v) * scale == x * scale + v * (128 * scale);
    }
  }

  // ---- Length-prefixed slices ---------------------------------------------------------------

  function LengthPrefixed(s: seq<Byte>): seq<Byte>
  {
    Varint(|s|) + s
  }

  function GetLengthPrefixed(s: seq<Byte>): (r: Option<(seq<Byte>, seq<Byte>)>)
    ensures r.Some? ==> |r.value.1| < |s|
  {
    var len := GetVarint32(s);
    if len.None? || |len.value.1| < len.value.0 then None
    else Some((len.value.1[..len.value.0], len.value.1[len.value.0..]))
  }

  lemma LengthPrefixedRoundTrip(s: seq<Byte>, rest: seq<Byte>)
    requires |s| < TWO_32
    ensures GetLengthPrefixed(LengthPrefixed(s) + rest) == Some((s, rest))
  {
    hide Varint, GetVarint32;
    GetVarint32RoundTrip(|s|, s + rest);
    Seqs.Associative(Varint(|s|), s, rest);
    assert (s + rest)[..|s|] == s && (s + rest)[|s|..] == rest;
  }
}
