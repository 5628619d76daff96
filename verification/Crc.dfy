/**
 CRC32C (section 12.1 of RFC 3720) and the four-stride table form of it
 (util/crc32c.cc, util/crc32c.h).
 */
module Crc {
  import Seqs

  type Byte = bv8

  type Register = bv32

  // ---- The checksum, one bit at a time ---------------------------------------

  /** The CRC32C polynomial, bit-reversed. */
  const POLYNOMIAL: Register := 0x82F63B78

  /** CRCs are conditioned before and after by xoring with all ones. */
  const ONES: Register := 0xffffffff

  function Xor(a: Register, b: Register): Register
  {
    a ^ b
  }

  predicate Odd(l: Register)
  {
    l & 1 == 1
  }

  function Half(l: Register): Register
  {
    l >> 1
  }

  /** The register after one zero bit. */
  function Bit(l: Register): Register
  {
    if Odd(l) then Xor(Half(l), POLYNOMIAL) else Half(l)
  }

  /** The register after n zero bits. */
  function Bits(l: Register, n: nat): Register
  {
    if n == 0 then l else Bit(Bits(l, n - 1))
  }

  /** The register after n zero bytes. */
  function Advance(l: Register, n: nat): Register
  {
    if n == 0 then l else Bits(Advance(l, n - 1), 8)
  }

  /** The register after the bytes of s. */
  function Run(l: Register, s: seq<Byte>): Register
  {
    if s == [] then l else Advance(Xor(Run(l, s[..|s| - 1]), At0(s[|s| - 1])), 1)
  }

  /** The CRC of A + s, where crc is the CRC of A. */
  function Extend(crc: Register, s: seq<Byte>): Register
  {
    Xor(Run(Xor(crc, ONES), s), ONES)
  }

  function Value(s: seq<Byte>): Register
  {
    Extend(0, s)
  }

  lemma {:induction false} RunConcat(l: Register, a: seq<Byte>, b: seq<Byte>)
    ensures Run(l, a + b) == Run(Run(l, a), b)
  {
    hide Xor, Advance;
    if b == [] {
      assert a + b == a;
    } else {
      var n := |b| - 1;
      assert (a + b)[..|a| + n] == a + b[..n];
      RunConcat(l, a, b[..n]);
    }
  }

  /** Extend composes over concatenation. */
  lemma ExtendConcat(crc: Register, a: seq<Byte>, b: seq<Byte>)
    ensures Extend(Extend(crc, a), b) == Extend(crc, a + b)
  {
    hide Xor, Run;
    RunConcat(Xor(crc, ONES), a, b);
    XorTwice(Run(Xor(crc, ONES), a), ONES);
  }

  // ---- Masking ---------------------------------------------------------------------

  const MASK_DELTA: Register := 0xa282ead8

  /** Rotate right by 15 bits. */
  function Rotate(crc: Register): Register
  {
    (crc >> 15) | (crc << 17)
  }

  function RotateBack(rot: Register): Register
  {
    (rot >> 17) | (rot << 15)
  }

  function Mask(crc: Register): Register
  {
    Rotate(crc) + MASK_DELTA
  }

  function Unmask(masked: Register): Register
  {
    RotateBack(masked - MASK_DELTA)
  }

  lemma RotateTwice(l: Register)
    ensures RotateBack(Rotate(l)) == l && Rotate(RotateBack(l)) == l
  {
  }

  lemma AddSubtract(l: Register)
    ensures l + MASK_DELTA - MASK_DELTA == l && l - MASK_DELTA + MASK_DELTA == l
  {
  }

  lemma UnmaskMask(crc: Register)
    ensures Unmask(Mask(crc)) == crc && Mask(Unmask(crc)) == crc
  {
    hide Rotate, RotateBack;
    RotateTwice(crc);
    RotateTwice(crc - MASK_DELTA);
    AddSubtract(Rotate(crc));
    AddSubtract(crc);
  }

  // ---- Linearity -----------------------------------------------------------------

  lemma XorTwice(a: Register, b: Register)
    ensures Xor(Xor(a, b), b) == a
  {
  }

  lemma XorCommutes(a: Register, b: Register)
    ensures Xor(a, b) == Xor(b, a)
  {
  }

  lemma XorAssociates(a: Register, b: Register, c: Register)
    ensures Xor(Xor(a, b), c) == Xor(a, Xor(b, c))
  {
  }

  lemma XorZero(a: Register)
    ensures Xor(a, 0) == a && Xor(0, a) == a
  {
  }

  lemma XorSwap(a: Register, b: Register, p: Register)
    ensures Xor(Xor(a, p), b) == Xor(Xor(a, b), p)
  {
    hide Xor;
    XorAssociates(a, p, b);
    XorCommutes(p, b);
    XorAssociates(a, b, p);
  }

  lemma XorCancel(a: Register, b: Register, p: Register)
    ensures Xor(Xor(a, p), Xor(b, p)) == Xor(a, b)
  {
    hide Xor;
    XorAssociates(Xor(a, p), b, p);
    XorSwap(a, b, p);
    XorTwice(Xor(a, b), p);
  }

  lemma HalfXor(a: Register, b: Register)
    ensures Half(Xor(a, b)) == Xor(Half(a), Half(b))
  {
  }

  lemma OddXor(a: Register, b: Register)
    ensures Odd(Xor(a, b)) <==> Odd(a) != Odd(b)
  {
  }

  lemma BitLinear(a: Register, b: Register)
    ensures Bit(Xor(a, b)) == Xor(Bit(a), Bit(b))
  {
    hide Xor, Half, Odd;
    HalfXor(a, b);
    OddXor(a, b);
    XorSwap(Half(a), Half(b), POLYNOMIAL);
    XorAssociates(Half(a), Half(b), POLYNOMIAL);
    XorCancel(Half(a), Half(b), POLYNOMIAL);
  }

  lemma {:induction false} BitsLinear(a: Register, b: Register, n: nat)
    ensures Bits(Xor(a, b), n) == Xor(Bits(a, n), Bits(b, n))
  {
    hide Xor, Bit;
    if n > 0 {
      BitsLinear(a, b, n - 1);
      BitLinear(Bits(a, n - 1), Bits(b, n - 1));
    }
  }

  lemma {:induction false} AdvanceLinear(a: Register, b: Register, n: nat)
    ensures Advance(Xor(a, b), n) == Xor(Advance(a, n), Advance(b, n))
  {
    hide Xor, Bits;
    if n > 0 {
      AdvanceLinear(a, b, n - 1);
      BitsLinear(Advance(a, n - 1), Advance(b, n - 1), 8);
    }
  }

  lemma {:induction false} AdvanceTwice(l: Register, m: nat, n: nat)
    ensures Advance(Advance(l, m), n) == Advance(l, m + n)
  {
    hide Bits;
    if n > 0 { AdvanceTwice(l, m, n - 1); }
  }

  /** A zero low byte only shifts. */
  lemma ShiftedByte(l: Register)
    ensures Advance(Raise(l), 1) == Trim(l)
  {
    var x := Raise(l);
    assert Advance(x, 1) == Bits(Advance(x, 0), 8) && Advance(x, 0) == x;
    EightBits(x);
    ShiftedBits(l);
  }

  function Raise(l: Register): Register
  {
    (l & 0xffffff) << 8
  }

  function Trim(l: Register): Register
  {
    l & 0xffffff
  }

  lemma EightBits(l: Register)
    ensures Bits(l, 8) == Bit(Bit(Bit(Bit(Bit(Bit(Bit(Bit(l))))))))
  {
    hide Bit;
    assert Bits(l, 0) == l;
    assert Bits(l, 1) == Bit(l);
    assert Bits(l, 2) == Bit(Bits(l, 1));
    assert Bits(l, 3) == Bit(Bits(l, 2));
    assert Bits(l, 4) == Bit(Bits(l, 3));
    assert Bits(l, 5) == Bit(Bits(l, 4));
    assert Bits(l, 6) == Bit(Bits(l, 5));
    assert Bits(l, 7) == Bit(Bits(l, 6));
    assert Bits(l, 8) == Bit(Bits(l, 7));
  }

  lemma ShiftedBits(l: Register)
    ensures Bit(Bit(Bit(Bit(Bit(Bit(Bit(Bit(Raise(l))))))))) == Trim(l)
  {
  }

  // ---- The tables ----------------------------------------------------------------------

  /** kByteExtensionTable and kStrideExtensionTable0..3, as functions of a byte. */
  datatype Tables = Tables(byte: Byte -> Register, stride0: Byte -> Register, stride1: Byte -> Register,
                           stride2: Byte -> Register, stride3: Byte -> Register)

  // The four bytes of a register, and the register with one byte set.

  function Byte0(w: Register): Byte { (w & 0xff) as bv8 }

  function Byte1(w: Register): Byte { ((w >> 8) & 0xff) as bv8 }

  function Byte2(w: Register): Byte { ((w >> 16) & 0xff) as bv8 }

  function Byte3(w: Register): Byte { (w >> 24) as bv8 }

  function At0(b: Byte): Register { b as bv32 }

  function At1(b: Byte): Register { (b as bv32) << 8 }

  function At2(b: Byte): Register { (b as bv32) << 16 }

  function At3(b: Byte): Register { (b as bv32) << 24 }

  function Shift8(w: Register): Register { w >> 8 }

  /** The byte table advances by one byte; the stride tables advance each byte of a
      word by 16 bytes. */
  ghost predicate Meaning(t: Tables)
  {
    && (forall c :: t.byte(c) == Advance(At0(c), 1))
    && (forall c :: t.stride3(c) == Advance(At0(c), 16))
    && (forall c :: t.stride2(c) == Advance(At1(c), 16))
    && (forall c :: t.stride1(c) == Advance(At2(c), 16))
    && (forall c :: t.stride0(c) == Advance(At3(c), 16))
  }

  lemma SplitLow(l: Register)
    ensures l == Xor(At0(Byte0(l)), Raise(Shift8(l))) && Trim(Shift8(l)) == Shift8(l)
  {
  }

  /** kByteExtensionTable[l & 0xff] ^ (l >> 8) is one zero byte. */
  lemma ByteTable(t: Tables, l: Register)
    requires Meaning(t)
    ensures Xor(t.byte(Byte0(l)), Shift8(l)) == Advance(l, 1)
  {
    hide Xor, Advance, At0, At1, At2, At3, Raise, Trim, Shift8, Byte0;
    SplitLow(l);
    AdvanceLinear(At0(Byte0(l)), Raise(Shift8(l)), 1);
    ShiftedByte(Shift8(l));
  }

  /** STEP1. */
  function Step1(t: Tables, l: Register, b: Byte): Register
  {
    Xor(t.byte(Byte0(l) ^ b), Shift8(l))
  }

  lemma LowXor(l: Register, b: Byte)
    ensures Byte0(Xor(l, At0(b))) == Byte0(l) ^ b && Shift8(Xor(l, At0(b))) == Shift8(l)
  {
  }

  lemma Step1IsByte(t: Tables, l: Register, b: Byte)
    requires Meaning(t)
    ensures Step1(t, l, b) == Advance(Xor(l, At0(b)), 1)
  {
    hide Xor, Advance, Meaning, Shift8, Byte0, At0;
    ByteTable(t, Xor(l, At0(b)));
    LowXor(l, b);
  }

  /** The four table lookups of STEP4. */
  function Stride(t: Tables, c: Register): Register
  {
    Xor(Xor(Xor(t.stride3(Byte0(c)), t.stride2(Byte1(c))), t.stride1(Byte2(c))), t.stride0(Byte3(c)))
  }

  function Join(b0: Byte, b1: Byte, b2: Byte, b3: Byte): Register
  {
    Or(Or(Or(At0(b0), At1(b1)), At2(b2)), At3(b3))
  }

  function Or(a: Register, b: Register): Register { a | b }

  lemma JoinBytes(c: Register)
    ensures c == Join(Byte0(c), Byte1(c), Byte2(c), Byte3(c))
  {
  }

  lemma JoinXor(b0: Byte, b1: Byte, b2: Byte, b3: Byte)
    ensures Join(b0, b1, b2, b3) == Xor(Xor(Xor(At0(b0), At1(b1)), At2(b2)), At3(b3))
  {
    hide Xor, At0, At1, At2, At3, Or;
    OrSecond(b0, b1);
    OrThird(b0, b1, b2);
    OrFourth(b0, b1, b2, b3);
  }

  lemma OrSecond(b0: Byte, b1: Byte)
    ensures Or(At0(b0), At1(b1)) == Xor(At0(b0), At1(b1))
  {
  }

  lemma OrThird(b0: Byte, b1: Byte, b2: Byte)
    ensures Or(Or(At0(b0), At1(b1)), At2(b2)) == Xor(Or(At0(b0), At1(b1)), At2(b2))
  {
  }

  lemma OrFourth(b0: Byte, b1: Byte, b2: Byte, b3: Byte)
    ensures Or(Or(Or(At0(b0), At1(b1)), At2(b2)), At3(b3)) == Xor(Or(Or(At0(b0), At1(b1)), At2(b2)), At3(b3))
  {
  }

  lemma StrideIsAdvance(t: Tables, c: Register)
    requires Meaning(t)
    ensures Stride(t, c) == Advance(c, 16)
  {
    hide Xor, Advance, At0, At1, At2, At3, Byte0, Byte1, Byte2, Byte3, Join;
    var p0, p1, p2, p3 := At0(Byte0(c)), At1(Byte1(c)), At2(Byte2(c)), At3(Byte3(c));
    JoinBytes(c);
    JoinXor(Byte0(c), Byte1(c), Byte2(c), Byte3(c));
    AdvanceLinear(Xor(Xor(p0, p1), p2), p3, 16);
    AdvanceLinear(Xor(p0, p1), p2, 16);
    AdvanceLinear(p0, p1, 16);
  }

  // ---- Words --------------------------------------------------------------------------------

  /** ReadUint32LE. */
  function Word(s: seq<Byte>): Register
    requires |s| == 4
  {
    Join(s[0], s[1], s[2], s[3])
  }

  /** A byte may be xored in early, shifted up by the bytes still before it. */
  lemma Early(l: Register, b1: Byte, b2: Byte, b3: Byte)
    ensures Advance(Xor(Xor(Xor(l, At1(b1)), At2(b2)), At3(b3)), 1)
         == Xor(Xor(Xor(Advance(l, 1), At0(b1)), At1(b2)), At2(b3))
  {
    hide Xor, Advance, At0, At1, At2, At3, Raise, Trim;
    AdvanceLinear(Xor(Xor(l, At1(b1)), At2(b2)), At3(b3), 1);
    AdvanceLinear(Xor(l, At1(b1)), At2(b2), 1);
    AdvanceLinear(l, At1(b1), 1);
    RaiseBytes(b1, b2, b3);
    ShiftedByte(At0(b1));
    ShiftedByte(At1(b2));
    ShiftedByte(At2(b3));
  }

  lemma RaiseBytes(b1: Byte, b2: Byte, b3: Byte)
    ensures At1(b1) == Raise(At0(b1)) && Trim(At0(b1)) == At0(b1)
    ensures At2(b2) == Raise(At1(b2)) && Trim(At1(b2)) == At1(b2)
    ensures At3(b3) == Raise(At2(b3)) && Trim(At2(b3)) == At2(b3)
  {
  }

  lemma AtZero()
    ensures At0(0) == 0 && At1(0) == 0 && At2(0) == 0 && At3(0) == 0
  {
  }

  /** The register after four bytes, step by step. */
  lemma RunFour(l: Register, s: seq<Byte>)
    requires |s| == 4
    ensures Run(l, s) == Advance(Xor(Advance(Xor(Advance(Xor(Advance(Xor(l, At0(s[0])), 1), At0(s[1])), 1), At0(s[2])),
                                             1), At0(s[3])), 1)
  {
    hide Xor, Advance, At0;
    var s1, s2, s3 := s[..1], s[..2], s[..3];
    assert s3[..2] == s2 && s2[..1] == s1 && s1[..0] == [];
    assert Run(l, []) == l;
    assert Run(l, s1) == Advance(Xor(Run(l, s1[..0]), At0(s1[0])), 1);
    assert Run(l, s2) == Advance(Xor(Run(l, s2[..1]), At0(s2[1])), 1);
    assert Run(l, s3) == Advance(Xor(Run(l, s3[..2]), At0(s3[2])), 1);
  }

  /** Four bytes at once: xor the word in, then advance by four. */
  lemma WordStep(l: Register, s: seq<Byte>)
    requires |s| == 4
    ensures Run(l, s) == Advance(Xor(l, Word(s)), 4)
  {
    hide Xor, Advance, At0, At1, At2, At3, Join, Run;
    var b1, b2, b3 := s[1], s[2], s[3];
    RunFour(l, s);
    var w0 := Xor(l, At0(s[0]));
    var w1 := Xor(Advance(w0, 1), At0(b1));
    var w2 := Xor(Advance(w1, 1), At0(b2));
    var w3 := Xor(Advance(w2, 1), At0(b3));
    JoinOnto(l, s[0], b1, b2, b3);
    Early(w0, b1, b2, b3);
    AtZero();
    Early(w1, b2, b3, 0);
    Early(w2, b3, 0, 0);
    XorZero(Xor(Xor(w1, At1(b2)), At2(b3)));
    XorZero(Xor(Xor(w2, At1(b3)), 0));
    XorZero(Xor(w2, At1(b3)));
    XorZero(Xor(w2, At1(b3)));
    XorZero(Xor(Xor(Advance(w2, 1), At0(b3)), 0));
    XorZero(w3);
    FourSteps(Xor(l, Word(s)));
  }

  lemma FourSteps(l: Register)
    ensures Advance(l, 4) == Advance(Advance(Advance(Advance(l, 1), 1), 1), 1)
  {
    AdvanceTwice(l, 1, 1);
    AdvanceTwice(l, 2, 1);
    AdvanceTwice(l, 3, 1);
  }

  lemma JoinOnto(l: Register, b0: Byte, b1: Byte, b2: Byte, b3: Byte)
    ensures Xor(l, Join(b0, b1, b2, b3)) == Xor(Xor(Xor(Xor(l, At0(b0)), At1(b1)), At2(b2)), At3(b3))
  {
    hide Xor, At0, At1, At2, At3, Join;
    JoinXor(b0, b1, b2, b3);
    XorAssociates(l, Xor(Xor(At0(b0), At1(b1)), At2(b2)), At3(b3));
    XorAssociates(l, Xor(At0(b0), At1(b1)), At2(b2));
    XorAssociates(l, At0(b0), At1(b1));
  }

  // ---- The four strides ------------------------------------------------------------------------

  /** STEP4W: fold one partial result into the register, a byte at a time. */
  method FoldWord(t: Tables, l: Register, word: Register) returns (r: Register)
    requires Meaning(t)
    ensures r == Advance(Xor(word, l), 4)
  {
    var w := Xor(word, l);
    assert Advance(w, 0) == w;
    hide Xor, Advance, Meaning, Shift8, Byte0;
    for i := 0 to 4
      invariant w == Advance(Xor(word, l), i)
    {
      ByteTable(t, w);
      AdvanceTwice(Xor(word, l), i, 1);
      w := Xor(Shift8(w), t.byte(Byte0(w)));
      XorCommutes(Shift8(Advance(Xor(word, l), i)), t.byte(Byte0(Advance(Xor(word, l), i))));
    }
    r := w;
  }

  /** What four partial results stand for: each folded in, in turn. */
  ghost function Combine(c0: Register, c1: Register, c2: Register, c3: Register): Register
  {
    Advance(Xor(c3, Advance(Xor(c2, Advance(Xor(c1, Advance(c0, 4)), 4)), 4)), 4)
  }

  lemma {:induction false} AdvanceZero(n: nat)
    ensures Advance(0, n) == 0
  {
    XorZero(Advance(0, n));
    AdvanceLinear(0, 0, n);
    SelfXor(Advance(0, n));
  }

  lemma SelfXor(a: Register)
    ensures Xor(a, a) == 0 && Xor(0, 0) == 0
  {
  }

  /** Combine is linear in all four strides together. */
  lemma CombineLinear(a0: Register, a1: Register, a2: Register, a3: Register,
                      b0: Register, b1: Register, b2: Register, b3: Register)
    ensures Combine(Xor(a0, b0), Xor(a1, b1), Xor(a2, b2), Xor(a3, b3)) ==
            Xor(Combine(a0, a1, a2, a3), Combine(b0, b1, b2, b3))
  {
    hide Xor, Advance;
    FoldLinear(a0, b0, 0, 0);
    var fa, fb := Advance(a0, 4), Advance(b0, 4);
    AdvanceLinear(a0, b0, 4);
    FoldLinear(a1, b1, fa, fb);
    var ga, gb := Advance(Xor(a1, fa), 4), Advance(Xor(b1, fb), 4);
    FoldLinear(a2, b2, ga, gb);
    var ha, hb := Advance(Xor(a2, ga), 4), Advance(Xor(b2, gb), 4);
    FoldLinear(a3, b3, ha, hb);
  }

  lemma FoldLinear(a: Register, b: Register, fa: Register, fb: Register)
    ensures Advance(Xor(Xor(a, b), Xor(fa, fb)), 4) == Xor(Advance(Xor(a, fa), 4), Advance(Xor(b, fb), 4))
  {
    hide Xor, Advance;
    AdvanceLinear(Xor(a, fa), Xor(b, fb), 4);
    XorAssociates(a, b, Xor(fa, fb));
    XorAssociates(b, fa, fb);
    XorCommutes(b, fa);
    XorAssociates(fa, b, fb);
    XorAssociates(a, fa, Xor(b, fb));
  }

  lemma CombineFirst(c: Register)
    ensures Combine(c, 0, 0, 0) == Advance(c, 16)
  {
    hide Xor, Advance;
    XorZero(Advance(c, 4));
    AdvanceTwice(c, 4, 4);
    XorZero(Advance(c, 8));
    AdvanceTwice(c, 8, 4);
    XorZero(Advance(c, 12));
    AdvanceTwice(c, 12, 4);
  }

  /** Advancing every stride advances what they stand for. */
  lemma CombineAdvance(c0: Register, c1: Register, c2: Register, c3: Register)
    ensures Combine(Advance(c0, 16), Advance(c1, 16), Advance(c2, 16), Advance(c3, 16)) ==
            Advance(Combine(c0, c1, c2, c3), 16)
  {
    hide Xor, Advance;
    AdvanceSwap(c0);
    FoldAdvance(c1, Advance(c0, 4));
    FoldAdvance(c2, Advance(Xor(c1, Advance(c0, 4)), 4));
    FoldAdvance(c3, Advance(Xor(c2, Advance(Xor(c1, Advance(c0, 4)), 4)), 4));
  }

  lemma AdvanceSwap(c: Register)
    ensures Advance(Advance(c, 16), 4) == Advance(Advance(c, 4), 16)
  {
    AdvanceTwice(c, 16, 4);
    AdvanceTwice(c, 4, 16);
  }

  lemma FoldAdvance(c: Register, f: Register)
    ensures Advance(Xor(Advance(c, 16), Advance(f, 16)), 4) == Advance(Advance(Xor(c, f), 4), 16)
  {
    hide Xor, Advance;
    AdvanceLinear(c, f, 16);
    AdvanceSwap(Xor(c, f));
  }

  /** Sixteen bytes, read as four words onto the register. */
  lemma RunSixteen(l: Register, s: seq<Byte>)
    requires |s| == 16
    ensures Run(l, s) == Combine(Xor(Word(s[0..4]), l), Word(s[4..8]), Word(s[8..12]), Word(s[12..16]))
  {
    hide Xor, Advance, Run, Word;
    assert s == s[0..4] + s[4..8] + s[8..12] + s[12..16];
    RunConcat(l, s[0..4] + s[4..8] + s[8..12], s[12..16]);
    RunConcat(l, s[0..4] + s[4..8], s[8..12]);
    RunConcat(l, s[0..4], s[4..8]);
    var l1 := Run(l, s[0..4]);
    var l2 := Run(l1, s[4..8]);
    var l3 := Run(l2, s[8..12]);
    WordStep(l, s[0..4]);
    WordStep(l1, s[4..8]);
    WordStep(l2, s[8..12]);
    WordStep(l3, s[12..16]);
    XorCommutes(l, Word(s[0..4]));
    XorCommutes(l1, Word(s[4..8]));
    XorCommutes(l2, Word(s[8..12]));
    XorCommutes(l3, Word(s[12..16]));
  }

  /** STEP16: every stride advances and takes its word. */
  lemma StrideSixteen(c0: Register, c1: Register, c2: Register, c3: Register, s: seq<Byte>)
    requires |s| == 16
    ensures Combine(Xor(Word(s[0..4]), Advance(c0, 16)), Xor(Word(s[4..8]), Advance(c1, 16)),
                    Xor(Word(s[8..12]), Advance(c2, 16)), Xor(Word(s[12..16]), Advance(c3, 16)))
         == Run(Combine(c0, c1, c2, c3), s)
  {
    hide Xor, Advance, Run, Word, Combine;
    var l := Combine(c0, c1, c2, c3);
    var w0, w1, w2, w3 := Word(s[0..4]), Word(s[4..8]), Word(s[8..12]), Word(s[12..16]);
    RunSixteen(l, s);
    CombineLinear(w0, w1, w2, w3, l, 0, 0, 0);
    XorZero(w1);
    XorZero(w2);
    XorZero(w3);
    CombineFirst(l);
    CombineAdvance(c0, c1, c2, c3);
    CombineLinear(w0, w1, w2, w3, Advance(c0, 16), Advance(c1, 16), Advance(c2, 16), Advance(c3, 16));
  }

  /** The one-word step: the oldest stride takes the word and becomes the newest. */
  lemma StrideFour(c0: Register, c1: Register, c2: Register, c3: Register, s: seq<Byte>)
    requires |s| == 4
    ensures Combine(c1, c2, c3, Xor(Word(s), Advance(c0, 16))) == Run(Combine(c0, c1, c2, c3), s)
  {
    hide Xor, Advance, Run, Word;
    var l, m := Combine(c0, c1, c2, c3), Advance(Xor(c3, Advance(Xor(c2, Advance(c1, 4)), 4)), 4);
    WordStep(l, s);
    CombineLinear(c0, 0, 0, 0, 0, c1, c2, c3);
    XorZero(c0);
    XorZero(c1);
    XorZero(c2);
    XorZero(c3);
    CombineFirst(c0);
    AdvanceZero(4);
    assert l == Xor(Advance(c0, 16), m);
    XorAssociates(Word(s), Advance(c0, 16), m);
    XorCommutes(Word(s), l);
  }

  /** STEP4. */
  method Step4(t: Tables, c: Register, s: seq<Byte>) returns (r: Register)
    requires Meaning(t) && |s| == 4
    ensures r == Xor(Word(s), Advance(c, 16))
  {
    hide Xor, Advance, Meaning, Word;
    StrideIsAdvance(t, c);
    r := Xor(Word(s), Stride(t, c));
  }

  /** Extend, whatever the alignment of the buffer: toAlign bytes precede the first
      4-byte boundary. */
  method ExtendStrided(t: Tables, crc: Register, data: seq<Byte>, toAlign: nat) returns (r: Register)
    requires Meaning(t) && toAlign < 4
    ensures r == Extend(crc, data)
  {
    hide Xor, Advance, Meaning, Run, Step1;
    var l, p := Xor(crc, ONES), 0;
    ghost var start := l;
    assert Run(start, data[..0]) == start by { RunNone(start); }
    if toAlign <= |data| {
      l, p := RunBytes(t, l, data, 0, toAlign, start);
    }
    if |data| - p >= 16 {
      l, p := RunStrides(t, l, data, p, start);
    }
    l, p := RunBytes(t, l, data, p, |data|, start);
    assert data[..p] == data;
    r := Xor(l, ONES);
  }

  lemma RunNone(l: Register)
    ensures Run(l, []) == l
  {
  }

  /** One byte at a time, up to a bound. */
  method RunBytes(t: Tables, l0: Register, data: seq<Byte>, from: nat, bound: nat, ghost start: Register)
    returns (l: Register, p: nat)
    requires Meaning(t) && from <= bound <= |data| && l0 == Run(start, data[..from])
    ensures p == bound && l == Run(start, data[..p])
  {
    hide Xor, Advance, Meaning, Run, Step1;
    l, p := l0, from;
    while p != bound
      invariant from <= p <= bound && l == Run(start, data[..p])
    {
      Step1IsByte(t, l, data[p]);
      RunByte(start, data, p);
      l, p := Step1(t, l, data[p]), p + 1;
    }
  }

  lemma RunByte(l: Register, data: seq<Byte>, p: nat)
    requires p < |data|
    ensures Run(l, data[..p + 1]) == Advance(Xor(Run(l, data[..p]), At0(data[p])), 1)
  {
    hide Xor, Advance;
    assert data[..p + 1][..p] == data[..p];
  }

  /** The strided middle: sixteen bytes at a time, then four at a time, then the four
      partial results folded into one. */
  method RunStrides(t: Tables, l0: Register, data: seq<Byte>, from: nat, ghost start: Register)
    returns (l: Register, p: nat)
    requires Meaning(t) && from + 16 <= |data| && l0 == Run(start, data[..from])
    ensures from <= p <= |data| && l == Run(start, data[..p])
  {
    hide Xor, Advance, Meaning, Run, Word, Combine;
    var crc0 := Xor(Word(data[from..from + 4]), l0);
    var crc1, crc2, crc3 := Word(data[from + 4..from + 8]), Word(data[from + 8..from + 12]),
        Word(data[from + 12..from + 16]);
    RunOn(start, data, from, 16);
    Quarters(data, from);
    RunSixteen(l0, data[from..from + 16]);
    p := from + 16;
    while |data| - p >= 16
      invariant from <= p <= |data| && Combine(crc0, crc1, crc2, crc3) == Run(start, data[..p])
    {
      RunOn(start, data, p, 16);
      Quarters(data, p);
      StrideSixteen(crc0, crc1, crc2, crc3, data[p..p + 16]);
      crc0 := Step4(t, crc0, data[p..p + 4]);
      crc1 := Step4(t, crc1, data[p + 4..p + 8]);
      crc2 := Step4(t, crc2, data[p + 8..p + 12]);
      crc3 := Step4(t, crc3, data[p + 12..p + 16]);
      p := p + 16;
    }
    while |data| - p >= 4
      invariant from <= p <= |data| && Combine(crc0, crc1, crc2, crc3) == Run(start, data[..p])
    {
      RunOn(start, data, p, 4);
      StrideFour(crc0, crc1, crc2, crc3, data[p..p + 4]);
      crc0 := Step4(t, crc0, data[p..p + 4]);
      crc0, crc1, crc2, crc3 := crc1, crc2, crc3, crc0;
      p := p + 4;
    }
    l := FoldAll(t, crc0, crc1, crc2, crc3);
  }

  method FoldAll(t: Tables, c0: Register, c1: Register, c2: Register, c3: Register) returns (l: Register)
    requires Meaning(t)
    ensures l == Combine(c0, c1, c2, c3)
  {
    hide Xor, Advance, Meaning;
    XorZero(c0);
    l := FoldWord(t, 0, c0);
    l := FoldWord(t, l, c1);
    l := FoldWord(t, l, c2);
    l := FoldWord(t, l, c3);
  }

  lemma RunOn(l: Register, data: seq<Byte>, p: nat, n: nat)
    requires p + n <= |data|
    ensures Run(l, data[..p + n]) == Run(Run(l, data[..p]), data[p..p + n])
  {
    assert data[..p + n] == data[..p] + data[p..p + n];
    RunConcat(l, data[..p], data[p..p + n]);
  }

  lemma Quarters(data: seq<Byte>, p: nat)
    requires p + 16 <= |data|
    ensures var s := data[p..p + 16];
            s[0..4] == data[p..p + 4] && s[4..8] == data[p + 4..p + 8] && s[8..12] == data[p + 8..p + 12] &&
                s[12..16] == data[p + 12..p + 16]
  {
    Seqs.SliceSlice(data, p, p + 16, 0, 4);
    Seqs.SliceSlice(data, p, p + 16, 4, 8);
    Seqs.SliceSlice(data, p, p + 16, 8, 12);
    Seqs.SliceSlice(data, p, p + 16, 12, 16);
  }
}
