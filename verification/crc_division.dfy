/** The checksum as clause 3.2.9 of IEEE 802.3 defines it: the remainder of a division of polynomials
    over the two-element field. */
module CrcDivision {
  import opened Bytes
  import opened Crc32

  /** The generator of clause 3.2.9, bit i standing for the i-th power. */
  function Generator(): nat {
    Pow2(32) + Pow2(26) + Pow2(23) + Pow2(22) + Pow2(16) + Pow2(12) + Pow2(11) + Pow2(10)
    + Pow2(8) + Pow2(7) + Pow2(5) + Pow2(4) + Pow2(2) + Pow2(1) + Pow2(0)
  }

  /** The lowest k bits in reverse order. */
  function Reflect(v: nat, k: nat): (r: nat)
    ensures r < Pow2(k)
    decreases k
  {
    if k == 0 then 0
    else
      UpIs(v % 2, k - 1);
      Up(v % 2, k - 1) + Reflect(v / 2, k - 1)
  }

  /** A message as a polynomial: bytes in order, the lowest bit of each first. */
  function Message(s: seq<Byte>): nat {
    if s == [] then 0 else Up(Message(s[..|s| - 1]), 8) + Reflect(s[|s| - 1], 8)
  }

  /** The product with the generator, without carries. */
  function TimesGenerator(q: nat): nat {
    if q == 0 then 0 else Xor(2 * TimesGenerator(q / 2), if q % 2 == 1 then Generator() else 0)
  }

  /** Equal up to a multiple of the generator. */
  ghost predicate Congruent(a: nat, b: nat) {
    exists q :: Xor(a, b) == TimesGenerator(q)
  }

  /** The message followed by 32 zero bits, with the register's start added to its first 32 bits:
      all ones complement them. */
  function Dividend(start: U32, s: seq<Byte>): nat {
    Xor(Up(Message(s), 32), Up(Reflect(start, 32), 8 * |s|))
  }

  lemma GeneratorIs()
    ensures Generator() == 0x1_04C1_1DB7
  {
    Pow2At31();
    assert Pow2(20) == 0x10_0000;
    assert Pow2(26) == 0x400_0000;
    assert Pow2(12) == 4096;
    assert Pow2(16) == 0x1_0000;
  }

  lemma {:induction false} UpAdd(a: nat, b: nat, k: nat)
    ensures Up(a + b, k) == Up(a, k) + Up(b, k)
  {
    if k > 0 {
      UpAdd(a, b, k - 1);
    }
  }

  lemma {:induction false} UpUp(a: nat, j: nat, k: nat)
    ensures Up(Up(a, j), k) == Up(a, j + k)
    decreases k
  {
    if k > 0 {
      UpUp(a, j, k - 1);
    }
  }

  lemma ReflectBit(v: nat, bit: nat, k: nat)
    requires bit < 2
    ensures Reflect(2 * v + bit, k + 1) == Up(bit, k) + Reflect(v, k)
  {
    assert (2 * v + bit) / 2 == v && (2 * v + bit) % 2 == bit;
  }

  /** Reversing four bits and what is above them. */
  lemma ReflectNibble(hi: nat, a: nat, b: nat, c: nat, d: nat, k: nat)
    requires a < 2 && b < 2 && c < 2 && d < 2
    ensures Reflect(16 * hi + 8 * a + 4 * b + 2 * c + d, k + 4) == Up(a + 2 * b + 4 * c + 8 * d, k) + Reflect(hi, k)
  {
    hide Reflect, Up, Pow2;
    ReflectBit(8 * hi + 4 * a + 2 * b + c, d, k + 3);
    ReflectBit(4 * hi + 2 * a + b, c, k + 2);
    ReflectBit(2 * hi + a, b, k + 1);
    ReflectBit(hi, a, k);
    UpAdd(a, 2 * b, k);
    UpAdd(a + 2 * b, 4 * c, k);
    UpAdd(a + 2 * b + 4 * c, 8 * d, k);
    UpPlaces(b, c, d, k);
  }

  lemma UpPlaces(b: nat, c: nat, d: nat, k: nat)
    ensures Up(2 * b, k) == Up(b, k + 1) && Up(4 * c, k) == Up(c, k + 2) && Up(8 * d, k) == Up(d, k + 3)
  {
    UpUp(b, 1, k);
    UpUp(c, 2, k);
    UpUp(d, 3, k);
    assert Up(b, 1) == 2 * b && Up(c, 1) == 2 * c && Up(d, 1) == 2 * d && Up(d, 2) == 4 * d;
  }

  lemma PolyReflects()
    ensures Reflect(POLY, 32) == 0x04C1_1DB7
  {
    hide Reflect, Up;
    ReflectNibble(0xEDB_8832, 0, 0, 0, 0, 28);
    ReflectNibble(0xED_B883, 0, 0, 1, 0, 24);
    ReflectNibble(0xE_DB88, 0, 0, 1, 1, 20);
    ReflectNibble(0xEDB8, 1, 0, 0, 0, 16);
    ReflectNibble(0xEDB, 1, 0, 0, 0, 12);
    ReflectNibble(0xED, 1, 0, 1, 1, 8);
    ReflectNibble(0xE, 1, 1, 0, 1, 4);
    ReflectNibble(0, 1, 1, 1, 0, 0);
    PolyPlaces();
  }

  lemma PolyPlaces()
    ensures Up(0, 28) == 0 && Up(0x4, 24) == 0x400_0000 && Up(0xC, 20) == 0xC0_0000 && Up(0x1, 16) == 0x1_0000
    ensures Up(0x1, 12) == 0x1000 && Up(0xD, 8) == 0xD00 && Up(0xB, 4) == 0xB0 && Up(0x7, 0) == 7
    ensures Reflect(0, 0) == 0
  {
    PowersOf16();
    UpIs(0, 28);
    UpIs(0x4, 24);
    UpIs(0xC, 20);
    UpIs(0x1, 16);
    UpIs(0x1, 12);
    UpIs(0xD, 8);
    UpIs(0xB, 4);
  }

  lemma PowersOf16()
    ensures Pow2(4) == 16 && Pow2(8) == 256 && Pow2(12) == 4096 && Pow2(16) == 0x1_0000
    ensures Pow2(20) == 0x10_0000 && Pow2(24) == 0x100_0000 && Pow2(28) == 0x1000_0000
  {
    assert Pow2(12) == 4096;
    assert Pow2(16) == 0x1_0000;
    assert Pow2(20) == 0x10_0000;
    assert Pow2(24) == 0x100_0000;
  }

  lemma XorDouble(a: nat, b: nat)
    ensures Xor(2 * a, 2 * b) == 2 * Xor(a, b)
  {
    hide Xor;
    XorBits(2 * a, 2 * b);
  }

  lemma {:induction false} XorUpBoth(a: nat, b: nat, k: nat)
    ensures Xor(Up(a, k), Up(b, k)) == Up(Xor(a, b), k)
  {
    hide Xor;
    if k > 0 {
      XorUpBoth(a, b, k - 1);
      XorDouble(Up(a, k - 1), Up(b, k - 1));
    }
  }

  lemma XorSwap(a: nat, b: nat, c: nat, d: nat)
    ensures Xor(Xor(a, b), Xor(c, d)) == Xor(Xor(a, c), Xor(b, d))
  {
    hide Xor;
    XorAssoc(a, b, Xor(c, d));
    XorAssoc(b, c, d);
    XorComm(b, c);
    XorAssoc(c, b, d);
    XorAssoc(a, c, Xor(b, d));
  }

  lemma XorOnto(a: nat, b: nat, c: nat)
    ensures Xor(a, c) == Xor(Xor(a, b), Xor(b, c))
  {
    hide Xor;
    XorAssoc(a, b, Xor(b, c));
    XorAssoc(b, b, c);
    XorSelf(b);
    XorComm(0, c);
    XorZero(c);
  }

  lemma {:induction false} TimesXor(p: nat, q: nat)
    ensures TimesGenerator(Xor(p, q)) == Xor(TimesGenerator(p), TimesGenerator(q))
    decreases p + q
  {
    hide Xor, Generator;
    XorZero(0);
    if p != 0 || q != 0 {
      var a, b := TimesGenerator(p / 2), TimesGenerator(q / 2);
      var x, y := if p % 2 == 1 then Generator() else 0, if q % 2 == 1 then Generator() else 0;
      TimesXor(p / 2, q / 2);
      XorBits(p, q);
      TimesStep(p);
      TimesStep(q);
      TimesStep(Xor(p, q));
      XorSwap(2 * a, x, 2 * b, y);
      XorDouble(a, b);
      XorSelf(x);
      XorZero(x);
      XorComm(x, y);
      XorZero(y);
    }
  }

  lemma TimesStep(q: nat)
    ensures TimesGenerator(q) == Xor(2 * TimesGenerator(q / 2), if q % 2 == 1 then Generator() else 0)
  {
    XorZero(0);
  }

  lemma CongruentSelf(a: nat)
    ensures Congruent(a, a)
  {
    hide Xor;
    XorSelf(a);
    assert TimesGenerator(0) == 0;
  }

  lemma CongruentAdd(a: nat, b: nat, c: nat, d: nat)
    requires Congruent(a, b) && Congruent(c, d)
    ensures Congruent(Xor(a, c), Xor(b, d))
  {
    hide Xor, TimesGenerator;
    var p :| Xor(a, b) == TimesGenerator(p);
    var q :| Xor(c, d) == TimesGenerator(q);
    XorSwap(a, c, b, d);
    TimesXor(p, q);
    assert Xor(Xor(a, c), Xor(b, d)) == TimesGenerator(Xor(p, q));
  }

  lemma CongruentChain(a: nat, b: nat, c: nat)
    requires Congruent(a, b) && Congruent(b, c)
    ensures Congruent(a, c)
  {
    hide Xor, TimesGenerator;
    var p :| Xor(a, b) == TimesGenerator(p);
    var q :| Xor(b, c) == TimesGenerator(q);
    XorOnto(a, b, c);
    TimesXor(p, q);
    assert Xor(a, c) == TimesGenerator(Xor(p, q));
  }

  lemma CongruentBack(a: nat, b: nat)
    requires Congruent(a, b)
    ensures Congruent(b, a)
  {
    hide Xor;
    XorComm(a, b);
  }

  lemma {:induction false} CongruentUp(a: nat, b: nat, k: nat)
    requires Congruent(a, b)
    ensures Congruent(Up(a, k), Up(b, k))
  {
    hide Xor, TimesGenerator, Generator;
    if k > 0 {
      CongruentUp(a, b, k - 1);
      var q: nat :| Xor(Up(a, k - 1), Up(b, k - 1)) == TimesGenerator(q);
      XorDouble(Up(a, k - 1), Up(b, k - 1));
      TimesStep(2 * q);
      XorZero(2 * TimesGenerator(q));
      assert Xor(Up(a, k), Up(b, k)) == TimesGenerator(2 * q);
    }
  }

  /** The bit that goes to the front, added without overlap. */
  lemma ReflectFront(v: nat, k: nat)
    requires k > 0
    ensures Reflect(v, k) == Xor(Reflect(v / 2, k - 1), Up(v % 2, k - 1))
  {
    hide Xor;
    XorUp(Reflect(v / 2, k - 1), v % 2, k - 1);
  }

  lemma {:induction false} ReflectXor(a: nat, b: nat, k: nat)
    ensures Reflect(Xor(a, b), k) == Xor(Reflect(a, k), Reflect(b, k))
    decreases k
  {
    hide Xor;
    if k == 0 {
      XorZero(0);
    } else {
      ReflectXor(a / 2, b / 2, k - 1);
      XorBits(a, b);
      ReflectFront(a, k);
      ReflectFront(b, k);
      ReflectFront(Xor(a, b), k);
      hide Reflect;
      XorSwap(Reflect(a / 2, k - 1), Up(a % 2, k - 1), Reflect(b / 2, k - 1), Up(b % 2, k - 1));
      XorUpBoth(a % 2, b % 2, k - 1);
      XorLow(a, b);
    }
  }

  lemma XorLow(a: nat, b: nat)
    ensures Xor(a % 2, b % 2) == Xor(a, b) % 2
  {
    XorBits(a, b);
  }

  lemma {:induction false} ReflectGrow(x: nat, k: nat)
    requires x < Pow2(k)
    ensures Reflect(x, k + 1) == 2 * Reflect(x, k)
    decreases k
  {
    if k > 0 {
      ReflectGrow(x / 2, k - 1);
    }
  }

  lemma {:induction false} ReflectInjective(a: nat, b: nat, k: nat)
    requires a < Pow2(k) && b < Pow2(k) && Reflect(a, k) == Reflect(b, k)
    ensures a == b
    decreases k
  {
    if k > 0 {
      UpBit(a % 2, k - 1);
      UpBit(b % 2, k - 1);
      ReflectInjective(a / 2, b / 2, k - 1);
    }
  }

  lemma UpBit(bit: nat, k: nat)
    requires bit < 2
    ensures Up(bit, k) == if bit == 1 then Pow2(k) else 0
  {
    UpIs(bit, k);
  }

  lemma ReflectOne(bit: nat, k: nat)
    requires bit < 2 && k > 0
    ensures Reflect(bit, k) == Up(bit, k - 1)
  {
    ReflectNothing(k - 1);
  }

  lemma {:induction false} ReflectNothing(k: nat)
    ensures Reflect(0, k) == 0
  {
    if k > 0 {
      ReflectNothing(k - 1);
      UpIs(0, k - 1);
    }
  }

  /** One turn of the inner loop multiplies by x. */
  lemma ShiftTimesX(c: nat)
    requires c < 0x1_0000_0000
    ensures Congruent(Reflect(Shift(c), 32), 2 * Reflect(c, 32))
  {
    hide Xor, Reflect, Generator;
    Pow2At31();
    var half := Reflect(c / 2, 32);
    ReflectGrow(c / 2, 31);
    ReflectLow(c);
    if c % 2 == 0 {
      CongruentSelf(half);
    } else {
      var g := 0x04C1_1DB7;
      PolyReflects();
      ReflectXor(c / 2, POLY, 32);
      UpIs(1, 32);
      XorUp(half, 1, 32);
      XorUp(g, 1, 32);
      GeneratorIs();
      XorSwap(half, g, half, 0x1_0000_0000);
      XorSelf(half);
      XorComm(0, Xor(g, 0x1_0000_0000));
      XorZero(Xor(g, 0x1_0000_0000));
      TimesOne();
      assert Xor(Xor(half, g), Xor(half, 0x1_0000_0000)) == TimesGenerator(1);
    }
  }

  lemma ReflectLow(c: nat)
    ensures 2 * Reflect(c, 32) == 0x1_0000_0000 * (c % 2) + 2 * Reflect(c / 2, 31)
  {
    Pow2At31();
    UpIs(c % 2, 31);
  }

  lemma TimesOne()
    ensures TimesGenerator(1) == Generator()
  {
    hide Xor, Generator;
    TimesStep(1);
    XorComm(0, Generator());
    XorZero(Generator());
  }

  /** A register that has taken in the k low bits of b. */
  lemma {:induction false} BitsTaken(c: nat, b: nat, k: nat)
    requires c < 0x1_0000_0000 && b < Pow2(k)
    ensures Congruent(Reflect(Shifts(Xor(c, b), k), 32), Xor(Up(Reflect(c, 32), k), Up(Reflect(b, k), 32)))
    decreases k
  {
    hide Xor, Reflect, Congruent, Shift;
    if k == 0 {
      NoBits();
      XorZero(c);
      XorZero(Reflect(c, 32));
      CongruentSelf(Reflect(c, 32));
    } else {
      var bit, rest := b % 2, b / 2;
      var c0 := Xor(c, bit);
      ByteXorBound(c, bit);
      ShiftBound(c0);
      var c1 := Shift(c0);
      XorUp(bit, rest, 1);
      assert Up(rest, 1) == 2 * rest;
      XorAssoc(c, bit, 2 * rest);
      ShiftLinear(c0, rest);
      BitsTaken(c1, rest, k - 1);
      OneBitTaken(c, bit, k);
      var low := Up(Reflect(rest, k - 1), 32);
      CongruentSelf(low);
      CongruentAdd(Up(Reflect(c1, 32), k - 1), Xor(Up(Reflect(c, 32), k), Up(bit, k + 31)), low, low);
      CongruentChain(Reflect(Shifts(Xor(c1, rest), k - 1), 32), Xor(Up(Reflect(c1, 32), k - 1), low),
                     Xor(Xor(Up(Reflect(c, 32), k), Up(bit, k + 31)), low));
      BitJoins(b, k);
      XorAssoc(Up(Reflect(c, 32), k), Up(bit, k + 31), low);
      XorComm(Up(bit, k + 31), low);
    }
  }

  lemma NoBits()
    ensures Reflect(0, 0) == 0 && Up(0, 32) == 0
  {
    UpIs(0, 32);
  }

  lemma BitJoins(b: nat, k: nat)
    requires k > 0
    ensures Up(Reflect(b, k), 32) == Xor(Up(Reflect(b / 2, k - 1), 32), Up(b % 2, k + 31))
  {
    hide Xor, Reflect;
    ReflectFront(b, k);
    XorUpBoth(Reflect(b / 2, k - 1), Up(b % 2, k - 1), 32);
    UpUp(b % 2, k - 1, 32);
  }

  lemma OneBitTaken(c: nat, bit: nat, k: nat)
    requires c < 0x1_0000_0000 && bit < 2 && k > 0
    ensures Congruent(Up(Reflect(Shift(Xor(c, bit)), 32), k - 1), Xor(Up(Reflect(c, 32), k), Up(bit, k + 31)))
  {
    hide Xor, Reflect, Congruent, Shift, Up;
    var c0 := Xor(c, bit);
    ByteXorBound(c, bit);
    ShiftTimesX(c0);
    CongruentUp(Reflect(Shift(c0), 32), 2 * Reflect(c0, 32), k - 1);
    ReflectXor(c, bit, 32);
    ReflectOne(bit, 32);
    XorDouble(Reflect(c, 32), Up(bit, 31));
    UpPlaces(Reflect(c, 32), 0, 0, k - 1);
    UpPlaces(bit, 0, 0, 31);
    UpOnce(bit, 31);
    XorUpBoth(2 * Reflect(c, 32), Up(bit, 32), k - 1);
    UpUp(bit, 32, k - 1);
  }

  lemma UpOnce(a: nat, k: nat)
    ensures Up(a, k + 1) == 2 * Up(a, k)
  {
  }

  /** The register is the dividend, up to a multiple of the generator. */
  lemma {:induction false} FeedDivides(c: U32, s: seq<Byte>)
    ensures Congruent(Reflect(Feed(c, s), 32), Dividend(c, s))
    decreases |s|
  {
    hide Xor, Reflect, Congruent, Shift, Up;
    if s == [] {
      NothingFed(c);
    } else {
      var init, b := s[..|s| - 1], s[|s| - 1];
      assert s == init + [b] && [b][1..] == [];
      FeedAppend(c, init, [b]);
      FeedBound(c, init);
      var c' := Feed(c, init);
      FeedDivides(c, init);
      assert Pow2(8) == 256;
      BitsTaken(c', b, 8);
      CongruentUp(Reflect(c', 32), Dividend(c, init), 8);
      var low := Up(Reflect(b, 8), 32);
      CongruentSelf(low);
      CongruentAdd(Up(Reflect(c', 32), 8), Up(Dividend(c, init), 8), low, low);
      CongruentChain(Reflect(Feed(c, s), 32), Xor(Up(Reflect(c', 32), 8), low), Xor(Up(Dividend(c, init), 8), low));
      DividendStep(c, init, b);
    }
  }

  lemma NothingFed(c: U32)
    ensures Congruent(Reflect(Feed(c, []), 32), Dividend(c, []))
  {
    hide Xor, Reflect;
    UpIs(0, 32);
    XorComm(0, Reflect(c, 32));
    XorZero(Reflect(c, 32));
    CongruentSelf(Reflect(c, 32));
  }

  lemma DividendStep(c: U32, init: seq<Byte>, b: Byte)
    ensures Dividend(c, init + [b]) == Xor(Up(Dividend(c, init), 8), Up(Reflect(b, 8), 32))
  {
    hide Xor, Reflect, Up;
    var m, r, low, n := Message(init), Reflect(c, 32), Reflect(b, 8), 8 * |init|;
    assert (init + [b])[..|init|] == init;
    XorUp(low, m, 8);
    XorUpBoth(low, Up(m, 8), 32);
    UpUp(m, 8, 32);
    UpUp(m, 32, 8);
    UpUp(r, n, 8);
    XorUpBoth(Up(m, 32), Up(r, n), 8);
    XorAssoc(Up(low, 32), Up(m, 40), Up(r, n + 8));
    XorComm(Up(low, 32), Xor(Up(m, 40), Up(r, n + 8)));
  }

  lemma {:induction false} XorHigh(g: nat, x: nat, j: nat)
    requires g < Pow2(j) <= x
    ensures Xor(x, g) >= Pow2(j)
  {
    if j == 0 {
      XorZero(x);
    } else {
      XorHigh(g / 2, x / 2, j - 1);
    }
  }

  lemma {:induction false} MultiplesAreLong(q: nat)
    requires q > 0
    ensures TimesGenerator(q) >= 0x1_0000_0000
  {
    hide Xor, Generator;
    GeneratorIs();
    Pow2At31();
    if q == 1 {
      TimesOne();
    } else {
      MultiplesAreLong(q / 2);
      TimesStep(q);
      XorHigh(if q % 2 == 1 then Generator() else 0, 2 * TimesGenerator(q / 2), 33);
    }
  }

  /** Two remainders of at most 32 bits are the same. */
  lemma RemainderUnique(a: U32, b: U32)
    requires Congruent(a, b)
    ensures a == b
  {
    hide Xor, TimesGenerator;
    var q :| Xor(a, b) == TimesGenerator(q);
    Pow2At31();
    XorBound(a, b, 32);
    if q > 0 {
      MultiplesAreLong(q);
    }
    TimesZero();
    XorSelf(b);
    XorCancel(a, b, b);
  }

  lemma TimesZero()
    ensures TimesGenerator(0) == 0
  {
  }

  /** The checksum is the standard's: complement the first 32 bits of the message (start from the
      complemented seed), append 32 zero bits, divide by the generator; the remainder, complemented
      and sent highest power first, is the checksum, and no other value is. */
  lemma CrcIsRemainder(seed: U32, s: seq<Byte>, c: U32)
    ensures Crc(seed, s) == c <==> Congruent(Dividend(0xFFFF_FFFF - seed, s), Reflect(0xFFFF_FFFF - c, 32))
  {
    hide Feed, Reflect, Congruent, Dividend;
    var start: U32 := 0xFFFF_FFFF - seed;
    FeedBound(start, s);
    var r := Feed(start, s);
    FeedDivides(start, s);
    CongruentBack(Reflect(r, 32), Dividend(start, s));
    if Congruent(Dividend(start, s), Reflect(0xFFFF_FFFF - c, 32)) {
      CongruentChain(Reflect(r, 32), Dividend(start, s), Reflect(0xFFFF_FFFF - c, 32));
      Pow2At31();
      RemainderUnique(Reflect(r, 32), Reflect(0xFFFF_FFFF - c, 32));
      ReflectInjective(r, 0xFFFF_FFFF - c, 32);
    }
  }
}
