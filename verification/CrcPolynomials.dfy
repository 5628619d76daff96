/**
 What the register of CRC32C holds: the remainder of a division of polynomials over the
 integers modulo 2 (section 12.1 of RFC 3720).
 */
module CrcPolynomials {
  import opened Crc
  import Seqs

  /** Coefficients, the highest power first. */
  type Poly = seq<bool>

  /** x^32 + x^28 + x^27 + x^26 + x^25 + x^23 + x^22 + x^20 + x^19 + x^18 + x^14 + x^13 + x^11 + x^10 + x^9 + x^8
      + x^6 + 1, without its first term. */
  const POWERS: set<nat> := {28, 27, 26, 25, 23, 22, 20, 19, 18, 14, 13, 11, 10, 9, 8, 6, 0}

  function Generator(): (g: Poly)
    ensures |g| == 32
  {
    seq(32, i requires 0 <= i < 32 => 31 - i in POWERS)
  }

  function Zeros(n: nat): (z: Poly)
    ensures |z| == n
  {
    seq(n, i => false)
  }

  /** Adds b to the highest terms of a. */
  function AddTop(a: Poly, b: Poly): (r: Poly)
    requires |b| <= |a|
    ensures |r| == |a|
  {
    seq(|a|, i requires 0 <= i < |a| => if i < |b| then a[i] != b[i] else a[i])
  }

  /** Long division by the generator: while there is a power from the 32nd on, the generator is
      subtracted under the highest term. */
  function Remainder(p: Poly): (r: Poly)
    requires |p| >= 32
    ensures |r| == 32
    decreases |p|
  {
    if |p| == 32 then p
    else Remainder(if p[0] then AddTop(p[1..], Generator()) else p[1..])
  }

  /** The lowest n bits, from the least significant on. */
  function BitsOf(l: Register, n: nat): (r: Poly)
    ensures |r| == n
    decreases n
  {
    if n == 0 then [] else [Odd(l)] + BitsOf(Half(l), n - 1)
  }

  /** The bits of a message in the order in which they are sent. */
  function Message(s: seq<Byte>): (m: Poly)
    ensures |m| == 8 * |s|
  {
    if s == [] then [] else BitsOf(At0(s[0]), 8) + Message(s[1..])
  }

  function Halves(l: Register, n: nat): Register
    decreases n
  {
    if n == 0 then l else Halves(Half(l), n - 1)
  }

  // ---- Registers as polynomials ------------------------------------------------------------------

  lemma {:induction false} BitsSplit(l: Register, m: nat, n: nat)
    ensures BitsOf(l, m + n) == BitsOf(l, m) + BitsOf(Halves(l, m), n)
    decreases m
  {
    hide Odd, Half;
    if m > 0 { BitsSplit(Half(l), m - 1, n); }
  }

  lemma NothingSet()
    ensures !Odd(0) && Half(0) == 0
  {
  }

  lemma {:induction false} BitsOfZero(n: nat)
    ensures BitsOf(0, n) == Zeros(n)
  {
    NothingSet();
    hide Odd, Half;
    if n > 0 { BitsOfZero(n - 1); }
  }

  lemma XorBit(a: Register, b: Register)
    ensures Odd(Xor(a, b)) <==> Odd(a) != Odd(b)
    ensures Half(Xor(a, b)) == Xor(Half(a), Half(b))
  {
  }

  /** Exclusive or adds polynomials. */
  lemma {:induction false} BitsOfXor(a: Register, b: Register, n: nat)
    ensures BitsOf(Xor(a, b), n) == AddTop(BitsOf(a, n), BitsOf(b, n))
    decreases n
  {
    hide Odd, Half, Xor, AddTop;
    XorBit(a, b);
    if n == 0 {
      assert AddTop([], []) == [] by { AddFirst(false, [], false, []); }
    } else {
      BitsOfXor(Half(a), Half(b), n - 1);
      AddFirst(Odd(a), BitsOf(Half(a), n - 1), Odd(b), BitsOf(Half(b), n - 1));
    }
  }

  lemma AddFirst(x: bool, a: Poly, y: bool, b: Poly)
    requires |b| <= |a|
    ensures AddTop([x] + a, [y] + b) == [x != y] + AddTop(a, b) && AddTop([], []) == []
  {
  }

  lemma EightHalves(l: Register)
    ensures Half(Half(Half(Half(Half(Half(Half(Half(l)))))))) == Down8(l)
    ensures [Odd(l), Odd(Half(l)), Odd(Half(Half(l))), Odd(Half(Half(Half(l))))]
         == [l & 1 == 1, l & 2 == 2, l & 4 == 4, l & 8 == 8]
    ensures [Odd(Half4(l)), Odd(Half(Half4(l))), Odd(Half(Half(Half4(l)))), Odd(Half(Half(Half(Half4(l)))))]
         == [l & 16 == 16, l & 32 == 32, l & 64 == 64, l & 128 == 128]
  {
  }

  function Half4(l: Register): Register
  {
    Half(Half(Half(Half(l))))
  }

  function Down8(l: Register): Register
  {
    l >> 8
  }

  function Low8(l: Register): Poly
  {
    [l & 1 == 1, l & 2 == 2, l & 4 == 4, l & 8 == 8] + [l & 16 == 16, l & 32 == 32, l & 64 == 64, l & 128 == 128]
  }

  /** Eight bits at once. */
  lemma HalvesEight(l: Register)
    ensures Halves(l, 8) == Down8(l) && BitsOf(l, 8) == Low8(l)
  {
    EightHalves(l);
    hide Half, Odd, Down8;
    FourHalves(l, 4);
    FourHalves(Half4(l), 0);
    Seqs.RightEmpty([Odd(Half4(l)), Odd(Half(Half4(l))), Odd(Half(Half(Half4(l)))), Odd(Half(Half(Half(Half4(l)))))]);
  }

  lemma Unfold(l: Register, n: nat)
    ensures BitsOf(l, n + 1) == [Odd(l)] + BitsOf(Half(l), n) && Halves(l, n + 1) == Halves(Half(l), n)
  {
  }

  lemma FourFirst(a: bool, b: bool, c: bool, d: bool, p: Poly)
    ensures [a] + ([b] + ([c] + ([d] + p))) == [a, b, c, d] + p
  {
  }

  lemma FourHalves(l: Register, n: nat)
    ensures Halves(l, n + 4) == Halves(Half4(l), n)
    ensures BitsOf(l, n + 4)
         == [Odd(l), Odd(Half(l)), Odd(Half(Half(l))), Odd(Half(Half(Half(l))))] + BitsOf(Half4(l), n)
  {
    hide Half, Odd, BitsOf, Halves;
    var a := Half(l);
    var b := Half(a);
    var c := Half(b);
    Unfold(l, n + 3);
    Unfold(a, n + 2);
    Unfold(b, n + 1);
    Unfold(c, n);
    FourFirst(Odd(l), Odd(a), Odd(b), Odd(c), BitsOf(Half(c), n));
  }

  /** All 32. */
  lemma AllBits(l: Register)
    ensures BitsOf(l, 32) == Low8(l) + (Low8(Down8(l)) + (Low8(Down8(Down8(l))) + Low8(Down8(Down8(Down8(l))))))
    ensures Halves(l, 32) == 0
  {
    hide Half, Odd, Low8, Down8, BitsOf, Halves;
    BitsSplit(l, 8, 24);
    BitsSplit(Down8(l), 8, 16);
    BitsSplit(Down8(Down8(l)), 8, 8);
    HalvesMore(l, 8, 24);
    HalvesMore(Down8(l), 8, 16);
    HalvesMore(Down8(Down8(l)), 8, 8);
    HalvesEight(l);
    HalvesEight(Down8(l));
    HalvesEight(Down8(Down8(l)));
    HalvesEight(Down8(Down8(Down8(l))));
    Shifts(l);
  }

  lemma {:induction false} HalvesMore(l: Register, m: nat, n: nat)
    ensures Halves(l, m + n) == Halves(Halves(l, m), n)
    decreases m
  {
    hide Half;
    if m > 0 { HalvesMore(Half(l), m - 1, n); }
  }

  lemma Shifts(l: Register)
    ensures Down8(Down8(Down8(Down8(l)))) == 0
  {
  }

  /** Halving multiplies by x, without the highest term. */
  lemma HalfShifts(l: Register)
    ensures BitsOf(Half(l), 32) == BitsOf(l, 32)[1..] + [false]
  {
    hide Odd, Half, Halves, BitsOf, Low8, Down8;
    AllBits(l);
    BitsSplit(l, 32, 1);
    BitsOfZero(1);
    Unfold(l, 32);
    Unfold(l, 31);
    assert BitsOf(Half(l), 32) == BitsOf(l, 33)[1..];
    assert Zeros(1) == [false];
  }

  lemma ByteShift(b: Byte)
    ensures Down8(At0(b)) == 0
  {
  }

  lemma BitsOfByte(b: Byte)
    ensures BitsOf(At0(b), 32) == BitsOf(At0(b), 8) + Zeros(24)
  {
    BitsSplit(At0(b), 8, 24);
    HalvesEight(At0(b));
    ByteShift(b);
    BitsOfZero(24);
  }

  /** The constant of the source is the generator. */
  lemma PolynomialBits()
    ensures BitsOf(POLYNOMIAL, 32) == Generator()
  {
    hide BitsOf, Halves;
    AllBits(POLYNOMIAL);
    assert Low8(0x82F63B78) == [false, false, false, true, true, true, true, false];
    assert Low8(0x82F63B) == [true, true, false, true, true, true, false, false];
    assert Low8(0x82F6) == [false, true, true, false, true, true, true, true];
    assert Low8(0x82) == [false, true, false, false, false, false, false, true];
  }

  // ---- One bit, one byte, a message ------------------------------------------------------------------

  /** One step of the register is one step of the division. */
  lemma BitDivides(l: Register, a: Poly)
    requires |a| >= 32
    ensures Remainder(AddTop([false] + a, BitsOf(l, 32))) == Remainder(AddTop(a, BitsOf(Bit(l), 32)))
  {
    HalfShifts(l);
    PolynomialBits();
    BitsOfXor(Half(l), POLYNOMIAL, 32);
    hide Half, Xor, POLYNOMIAL, Generator;
    var p := AddTop([false] + a, BitsOf(l, 32));
    assert p[0] == BitsOf(l, 32)[0] == Odd(l);
    hide Odd;
    assert p[1..] == AddTop(a, BitsOf(l, 32)[1..] + [false]);
    if Odd(l) {
      AddTwice(a, BitsOf(Half(l), 32), Generator());
    }
  }

  lemma AddTwice(a: Poly, b: Poly, c: Poly)
    requires |b| == |c| <= |a|
    ensures AddTop(AddTop(a, b), c) == AddTop(a, AddTop(b, c))
  {
  }

  lemma {:induction false} BitsDivide(l: Register, a: Poly, n: nat)
    requires |a| >= 32
    ensures Remainder(AddTop(Zeros(n) + a, BitsOf(l, 32))) == Remainder(AddTop(a, BitsOf(Bits(l, n), 32)))
    decreases n
  {
    hide Remainder, BitsOf, Bit, AddTop;
    if n == 0 {
      assert Zeros(0) + a == a;
    } else {
      assert Zeros(n) + a == Zeros(n - 1) + ([false] + a);
      BitsDivide(l, [false] + a, n - 1);
      BitDivides(Bits(l, n - 1), a);
    }
  }

  lemma ByteDivides(l: Register, b: Byte, a: Poly)
    requires |a| >= 32
    ensures Remainder(AddTop(BitsOf(At0(b), 8) + a, BitsOf(l, 32)))
         == Remainder(AddTop(a, BitsOf(Advance(Xor(l, At0(b)), 1), 32)))
  {
    BitsOfByte(b);
    BitsOfXor(l, At0(b), 32);
    hide Remainder, BitsOf, Xor, Bits;
    MovesOver(BitsOf(At0(b), 8), a, BitsOf(l, 32));
    BitsDivide(Xor(l, At0(b)), a, 8);
    assert Advance(Xor(l, At0(b)), 1) == Bits(Advance(Xor(l, At0(b)), 0), 8);
  }

  /** Terms of the message may as well be added to the register. */
  lemma MovesOver(b: Poly, a: Poly, p: Poly)
    requires |b| == 8 && |a| >= 32 && |p| == 32
    ensures AddTop(b + a, p) == AddTop(Zeros(8) + a, AddTop(p, b + Zeros(24)))
  {
  }

  /** The register after a message: the remainder of the message, multiplied by x^32, with the
      register before it added to the highest terms. */
  lemma {:induction false} RunIsRemainder(l: Register, s: seq<Byte>)
    ensures BitsOf(Run(l, s), 32) == Remainder(AddTop(Message(s) + Zeros(32), BitsOf(l, 32)))
    decreases |s|
  {
    hide BitsOf, Xor, Advance, Remainder;
    if s == [] {
      assert Message(s) + Zeros(32) == Zeros(32);
      assert AddTop(Zeros(32), BitsOf(l, 32)) == BitsOf(l, 32);
      Undivided(BitsOf(l, 32));
    } else {
      var rest := Message(s[1..]) + Zeros(32);
      assert Message(s) + Zeros(32) == BitsOf(At0(s[0]), 8) + rest;
      ByteDivides(l, s[0], rest);
      RunIsRemainder(Advance(Xor(l, At0(s[0])), 1), s[1..]);
      FirstByte(l, s);
    }
  }

  lemma Undivided(p: Poly)
    requires |p| == 32
    ensures Remainder(p) == p
  {
  }

  lemma FirstByte(l: Register, s: seq<Byte>)
    requires s != []
    ensures Run(l, s) == Run(Advance(Xor(l, At0(s[0])), 1), s[1..])
  {
    hide Xor, Advance;
    assert s == [s[0]] + s[1..];
    RunConcat(l, [s[0]], s[1..]);
    assert [s[0]][..0] == [];
  }

  function Complement(p: Poly): (r: Poly)
    ensures |r| == |p|
  {
    seq(|p|, i requires 0 <= i < |p| => !p[i])
  }

  lemma OnesBits()
    ensures BitsOf(ONES, 32) == Complement(Zeros(32))
  {
    AllBits(ONES);
  }

  /** The CRC of a message: its first 32 bits are complemented, it is multiplied by x^32 and
      divided, and the remainder is complemented. */
  lemma ValueIsRemainder(s: seq<Byte>)
    ensures BitsOf(Value(s), 32)
         == Complement(Remainder(AddTop(Message(s) + Zeros(32), Complement(Zeros(32)))))
  {
    OnesBits();
    RunIsRemainder(ONES, s);
    BitsOfXor(Run(ONES, s), ONES, 32);
    XorZero(ONES);
    hide BitsOf, Run, Xor, Remainder;
  }

  lemma XorZero(l: Register)
    ensures Xor(0, l) == l
  {
  }
}
