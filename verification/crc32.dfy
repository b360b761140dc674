/** CRC-32 of clause 3.2.9 of IEEE 802.3 in reflected form (polynomial 0xEDB88320), as the
    snapshot store, the journal and the keyframe ring compute it bit by bit. */
module Crc32 {
  import opened Bytes

  const POLY: nat := 0xEDB8_8320

  /** Bitwise exclusive or on natural numbers. */
  function Xor(a: nat, b: nat): nat
    decreases a + b
  {
    if a == 0 && b == 0 then 0 else 2 * Xor(a / 2, b / 2) + (if a % 2 == b % 2 then 0 else 1)
  }

  function Pow2(k: nat): nat {
    if k == 0 then 1 else 2 * Pow2(k - 1)
  }

  /** One turn of the inner loop: shift right, and fold in the polynomial if a one fell out. */
  function Shift(c: nat): nat {
    if c % 2 == 1 then Xor(c / 2, POLY) else c / 2
  }

  function Shifts(c: nat, n: nat): nat
    decreases n
  {
    if n == 0 then c else Shifts(Shift(c), n - 1)
  }

  function Feed(c: nat, s: seq<Byte>): nat
    decreases |s|
  {
    if s == [] then c else Feed(Shifts(Xor(c, s[0]), 8), s[1..])
  }

  function Not(c: U32): U32 {
    0xFFFF_FFFF - c
  }

  function Crc(seed: U32, s: seq<Byte>): U32 {
    FeedBound(Not(seed), s);
    Not(Feed(Not(seed), s))
  }

  // ----- Algebra of Xor -----

  lemma XorZero(a: nat)
    ensures Xor(a, 0) == a
  {
  }

  lemma XorSelf(a: nat)
    ensures Xor(a, a) == 0
  {
  }

  lemma {:induction false} XorBits(a: nat, b: nat)
    ensures Xor(a, b) / 2 == Xor(a / 2, b / 2)
    ensures Xor(a, b) % 2 == if a % 2 == b % 2 then 0 else 1
  {
  }

  lemma {:induction false} XorComm(a: nat, b: nat)
    ensures Xor(a, b) == Xor(b, a)
    decreases a + b
  {
    if a != 0 || b != 0 {
      XorComm(a / 2, b / 2);
    }
  }

  lemma SameBits(x: nat, y: nat)
    requires x / 2 == y / 2 && x % 2 == y % 2
    ensures x == y
  {
  }

  lemma {:induction false} XorHalves(a: nat, b: nat, c: nat)
    ensures Xor(Xor(a, b), c) / 2 == Xor(Xor(a / 2, b / 2), c / 2)
    ensures Xor(a, Xor(b, c)) / 2 == Xor(a / 2, Xor(b / 2, c / 2))
  {
    XorBits(a, b);
    XorBits(b, c);
    XorBits(Xor(a, b), c);
    XorBits(a, Xor(b, c));
  }

  lemma {:induction false} XorParity(a: nat, b: nat, c: nat)
    ensures Xor(Xor(a, b), c) % 2 == Xor(a, Xor(b, c)) % 2
  {
    XorBits(a, b);
    XorBits(b, c);
    XorBits(Xor(a, b), c);
    XorBits(a, Xor(b, c));
  }

  lemma {:induction false} XorAssoc(a: nat, b: nat, c: nat)
    ensures Xor(Xor(a, b), c) == Xor(a, Xor(b, c))
    decreases a + b + c
  {
    if a != 0 || b != 0 || c != 0 {
      XorAssoc(a / 2, b / 2, c / 2);
      XorHalves(a, b, c);
      XorParity(a, b, c);
      SameBits(Xor(Xor(a, b), c), Xor(a, Xor(b, c)));
    }
  }

  lemma {:induction false} XorBound(a: nat, b: nat, k: nat)
    requires a < Pow2(k) && b < Pow2(k)
    ensures Xor(a, b) < Pow2(k)
  {
    if k > 0 {
      XorBound(a / 2, b / 2, k - 1);
    }
  }

  /** A bit k that only b has stays set. */
  lemma {:induction false} XorTop(a: nat, b: nat, k: nat)
    requires a < Pow2(k) <= b < Pow2(k + 1)
    ensures Pow2(k) <= Xor(a, b) < Pow2(k + 1)
  {
    if k > 0 {
      XorTop(a / 2, b / 2, k - 1);
    }
  }

  lemma XorCancel(a: nat, b: nat, p: nat)
    requires Xor(a, p) == Xor(b, p)
    ensures a == b
  {
    XorAssoc(a, p, p);
    XorAssoc(b, p, p);
    XorSelf(p);
    XorZero(a);
    XorZero(b);
  }

  lemma PowTwice(k: nat, hi: nat)
    requires k > 0
    ensures Pow2(k) * hi == 2 * (Pow2(k - 1) * hi)
  {
    assert Pow2(k) * hi == (2 * Pow2(k - 1)) * hi;
  }

  /** hi moved up k bits. */
  function Up(hi: nat, k: nat): nat {
    if k == 0 then hi else 2 * Up(hi, k - 1)
  }

  lemma {:induction false} UpIs(hi: nat, k: nat)
    ensures Up(hi, k) == Pow2(k) * hi
  {
    if k > 0 {
      UpIs(hi, k - 1);
      PowTwice(k, hi);
    }
  }

  lemma {:induction false} XorUp(lo: nat, hi: nat, k: nat)
    requires lo < Pow2(k)
    ensures Xor(lo, Up(hi, k)) == lo + Up(hi, k)
  {
    if k == 0 {
      XorComm(0, hi);
      XorZero(hi);
    } else {
      hide Xor;
      var rest := Up(hi, k - 1);
      XorUp(lo / 2, hi, k - 1);
      XorUpStep(lo, rest);
    }
  }

  lemma XorUpStep(lo: nat, rest: nat)
    requires Xor(lo / 2, rest) == lo / 2 + rest
    ensures Xor(lo, 2 * rest) == lo + 2 * rest
  {
    hide Xor;
    XorBits(lo, 2 * rest);
    Halves(lo, rest);
    SameBits(Xor(lo, 2 * rest), lo + 2 * rest);
  }

  lemma Halves(lo: nat, rest: nat)
    ensures 2 * rest / 2 == rest && 2 * rest % 2 == 0
    ensures (lo + 2 * rest) / 2 == lo / 2 + rest && (lo + 2 * rest) % 2 == lo % 2
  {
  }

  /** A number below 2^k and a multiple of 2^k do not overlap. */
  lemma XorDisjoint(lo: nat, hi: nat, k: nat)
    requires lo < Pow2(k)
    ensures Xor(lo, Pow2(k) * hi) == lo + Pow2(k) * hi
  {
    hide Xor;
    UpIs(hi, k);
    XorUp(lo, hi, k);
  }

  // ----- The shift register -----

  lemma Pow2At31()
    ensures Pow2(31) == 0x8000_0000 && Pow2(32) == 0x1_0000_0000
  {
    assert Pow2(8) == 256;
    assert Pow2(16) == 0x1_0000;
    assert Pow2(24) == 0x100_0000;
  }

  lemma ShiftBound(c: nat)
    requires c < 0x1_0000_0000
    ensures Shift(c) < 0x1_0000_0000
    ensures c % 2 == 1 <==> Shift(c) >= 0x8000_0000
  {
    Pow2At31();
    if c % 2 == 1 {
      XorTop(c / 2, POLY, 31);
    }
  }

  lemma ShiftInjective(c: nat, d: nat)
    requires c < 0x1_0000_0000 && d < 0x1_0000_0000
    requires Shift(c) == Shift(d)
    ensures c == d
  {
    ShiftBound(c);
    ShiftBound(d);
    if c % 2 == 1 {
      XorCancel(c / 2, d / 2, POLY);
    }
  }

  lemma {:induction false} ShiftsBound(c: nat, n: nat)
    requires c < 0x1_0000_0000
    ensures Shifts(c, n) < 0x1_0000_0000
    decreases n
  {
    if n > 0 {
      ShiftBound(c);
      ShiftsBound(Shift(c), n - 1);
    }
  }

  lemma {:induction false} ShiftsInjective(c: nat, d: nat, n: nat)
    requires c < 0x1_0000_0000 && d < 0x1_0000_0000
    requires Shifts(c, n) == Shifts(d, n)
    ensures c == d
    decreases n
  {
    if n > 0 {
      ShiftBound(c);
      ShiftBound(d);
      ShiftsInjective(Shift(c), Shift(d), n - 1);
      ShiftInjective(c, d);
    }
  }

  lemma {:induction false} ShiftsAdd(c: nat, m: nat, n: nat)
    ensures Shifts(Shifts(c, m), n) == Shifts(c, m + n)
    decreases m
  {
    if m > 0 {
      ShiftsAdd(Shift(c), m - 1, n);
    }
  }

  /** Bits above the lowest one ride through a shift untouched by the polynomial. */
  lemma ShiftLinear(c: nat, d: nat)
    ensures Shift(Xor(c, 2 * d)) == Xor(Shift(c), d)
  {
    hide Xor;
    XorBits(c, 2 * d);
    if c % 2 == 1 {
      XorAssoc(c / 2, d, POLY);
      XorComm(d, POLY);
      XorAssoc(c / 2, POLY, d);
    }
  }

  lemma {:induction false} ShiftsLinear(c: nat, d: nat, n: nat)
    ensures Shifts(Xor(c, Pow2(n) * d), n) == Xor(Shifts(c, n), d)
    decreases n
  {
    hide Xor, Shift;
    if n > 0 {
      PowTwice(n, d);
      ShiftLinear(c, Pow2(n - 1) * d);
      ShiftsLinear(Shift(c), d, n - 1);
    }
  }

  lemma ByteXorBound(c: nat, b: Byte)
    requires c < 0x1_0000_0000
    ensures Xor(c, b) < 0x1_0000_0000
  {
    Pow2At31();
    XorBound(c, b, 32);
  }

  lemma {:induction false} FeedBound(c: nat, s: seq<Byte>)
    requires c < 0x1_0000_0000
    ensures Feed(c, s) < 0x1_0000_0000
    decreases |s|
  {
    if s != [] {
      ByteXorBound(c, s[0]);
      ShiftsBound(Xor(c, s[0]), 8);
      FeedBound(Shifts(Xor(c, s[0]), 8), s[1..]);
    }
  }

  lemma {:induction false} FeedInjective(c: nat, d: nat, s: seq<Byte>)
    requires c < 0x1_0000_0000 && d < 0x1_0000_0000
    requires Feed(c, s) == Feed(d, s)
    ensures c == d
    decreases |s|
  {
    if s != [] {
      ByteXorBound(c, s[0]);
      ByteXorBound(d, s[0]);
      ShiftsBound(Xor(c, s[0]), 8);
      ShiftsBound(Xor(d, s[0]), 8);
      FeedInjective(Shifts(Xor(c, s[0]), 8), Shifts(Xor(d, s[0]), 8), s[1..]);
      ShiftsInjective(Xor(c, s[0]), Xor(d, s[0]), 8);
      XorCancel(c, d, s[0]);
    }
  }

  lemma {:induction false} FeedAppend(c: nat, a: seq<Byte>, b: seq<Byte>)
    ensures Feed(c, a + b) == Feed(Feed(c, a), b)
    decreases |a|
  {
    if a == [] {
      assert a + b == b;
    } else {
      assert (a + b)[1..] == a[1..] + b;
      FeedAppend(Shifts(Xor(c, a[0]), 8), a[1..], b);
    }
  }

  lemma LowByteFirst(c: nat, lo: Byte, hi: nat)
    ensures Xor(Shifts(Xor(c, lo), 8), hi) == Shifts(Xor(c, lo + 256 * hi), 8)
  {
    assert Pow2(8) == 256;
    ShiftsLinear(Xor(c, lo), hi, 8);
    XorAssoc(c, lo, 256 * hi);
    XorDisjoint(lo, hi, 8);
  }

  /** Feeding bytes one at a time is one division of their little-endian value. */
  lemma {:induction false} FeedIsDivision(c: nat, s: seq<Byte>)
    ensures Feed(c, s) == Shifts(Xor(c, UnLE(s)), 8 * |s|)
    decreases |s|
  {
    hide Shift;
    if s == [] {
      XorZero(c);
    } else {
      var lo, hi, n := s[0], UnLE(s[1..]), 8 * |s[1..]|;
      var x := Xor(c, lo);
      calc {
        Feed(c, s);
        Feed(Shifts(x, 8), s[1..]);
        { FeedIsDivision(Shifts(x, 8), s[1..]); }
        Shifts(Xor(Shifts(x, 8), hi), n);
        { LowByteFirst(c, lo, hi); }
        Shifts(Shifts(Xor(c, UnLE(s)), 8), n);
        { ShiftsAdd(Xor(c, UnLE(s)), 8, n); }
        Shifts(Xor(c, UnLE(s)), 8 + n);
      }
    }
  }

  // ----- Main results -----

  lemma CrcOfNothing()
    ensures Crc(0, []) == 0
  {
  }

  /** Running a checksum over pieces gives the checksum of the whole. */
  lemma CrcChains(seed: U32, a: seq<Byte>, b: seq<Byte>)
    ensures Crc(Crc(seed, a), b) == Crc(seed, a + b)
  {
    FeedBound(Not(seed), a);
    FeedAppend(Not(seed), a, b);
  }

  /** Any change confined to four adjacent bytes, at any place in a message of any length,
      changes the checksum. */
  lemma BurstDetected(seed: U32, before: seq<Byte>, x: seq<Byte>, y: seq<Byte>, after: seq<Byte>)
    requires |x| == |y| <= 4 && x != y
    ensures Crc(seed, before + x + after) != Crc(seed, before + y + after)
  {
    var c := Feed(Not(seed), before);
    FeedBound(Not(seed), before);
    FeedAppend(Not(seed), before + x, after);
    FeedAppend(Not(seed), before + y, after);
    FeedAppend(Not(seed), before, x);
    FeedAppend(Not(seed), before, y);
    FeedBound(c, x);
    FeedBound(c, y);
    if Feed(Feed(c, x), after) == Feed(Feed(c, y), after) {
      FeedInjective(Feed(c, x), Feed(c, y), after);
      BurstStep(c, x, y);
    }
    FeedBound(Not(seed), before + x + after);
    FeedBound(Not(seed), before + y + after);
  }

  lemma BurstStep(c: nat, x: seq<Byte>, y: seq<Byte>)
    requires c < 0x1_0000_0000
    requires |x| == |y| <= 4 && x != y
    ensures Feed(c, x) != Feed(c, y)
  {
    FeedIsDivision(c, x);
    FeedIsDivision(c, y);
    WordBound(c, x);
    WordBound(c, y);
    if Feed(c, x) == Feed(c, y) {
      ShiftsInjective(Xor(c, UnLE(x)), Xor(c, UnLE(y)), 8 * |x|);
      XorComm(c, UnLE(x));
      XorComm(c, UnLE(y));
      XorCancel(UnLE(x), UnLE(y), c);
      UnLERoundTrip(x);
      UnLERoundTrip(y);
    }
  }

  lemma WordBound(c: nat, x: seq<Byte>)
    requires c < 0x1_0000_0000 && |x| <= 4
    ensures Xor(c, UnLE(x)) < 0x1_0000_0000
  {
    FieldWidths();
    assert Pow256(2) == 0x1_0000;
    Pow2At31();
    XorBound(c, UnLE(x), 32);
  }

  /** Two messages that differ, and only within four adjacent bytes from i on. */
  ghost predicate DamagedAt(a: seq<Byte>, b: seq<Byte>, i: nat) {
    && a != b && |a| == |b| && i <= |a| && a[..i] == b[..i]
    && (i + 4 <= |a| ==> a[i + 4..] == b[i + 4..])
  }

  lemma DamageDetected(seed: U32, a: seq<Byte>, b: seq<Byte>, i: nat)
    requires DamagedAt(a, b, i)
    ensures Crc(seed, a) != Crc(seed, b)
  {
    hide Crc;
    var j := if i + 4 <= |a| then i + 4 else |a|;
    assert a == a[..i] + a[i..j] + a[j..] && b == a[..i] + b[i..j] + a[j..];
    BurstDetected(seed, a[..i], a[i..j], b[i..j], a[j..]);
  }

  /** A message followed by its own checksum. */
  predicate Sealed(s: seq<Byte>, w: seq<Byte>) {
    |w| == 4 && UnLE(w) == Crc(0, s)
  }

  lemma {:induction false} XorOnes(c: nat, v: nat, k: nat)
    requires c < Pow2(k) && v < Pow2(k)
    ensures Xor(c, v) == Pow2(k) - 1 <==> v == Pow2(k) - 1 - c
  {
    if k > 0 {
      XorOnes(c / 2, v / 2, k - 1);
      XorBits(c, v);
    }
  }

  /** Sealed messages are those that leave one fixed value in the register. */
  lemma SealedResidue(s: seq<Byte>, w: seq<Byte>)
    requires |w| == 4
    ensures Sealed(s, w) <==> Feed(0xFFFF_FFFF, s + w) == Shifts(0xFFFF_FFFF, 32)
  {
    hide Feed, Xor, Shifts, UnLE;
    var c := Feed(0xFFFF_FFFF, s);
    FeedBound(0xFFFF_FFFF, s);
    FeedAppend(0xFFFF_FFFF, s, w);
    FeedIsDivision(c, w);
    FieldWidths();
    Pow2At31();
    WordBound(c, w);
    XorOnes(c, UnLE(w), 32);
    if Shifts(Xor(c, UnLE(w)), 32) == Shifts(0xFFFF_FFFF, 32) {
      ShiftsInjective(Xor(c, UnLE(w)), 0xFFFF_FFFF, 32);
    }
  }

  /** Damage within four adjacent bytes breaks the seal, whether it hits the message, the checksum
      or both. */
  lemma SealDetects(s: seq<Byte>, w: seq<Byte>, s': seq<Byte>, w': seq<Byte>, i: nat)
    requires Sealed(s, w) && |s'| == |s| && |w'| == 4 && DamagedAt(s + w, s' + w', i)
    ensures !Sealed(s', w')
  {
    hide Feed, Shifts;
    SealedResidue(s, w);
    SealedResidue(s', w');
    DamageDetected(0, s + w, s' + w', i);
    FeedBound(0xFFFF_FFFF, s + w);
    FeedBound(0xFFFF_FFFF, s' + w');
  }

  /** The loop of snapshot_crc32, journal_crc32 and keyframe_ring_crc32. */
  method Compute(seed: U32, data: seq<Byte>) returns (r: U32)
    ensures r == Crc(seed, data)
  {
    var crc: U32 := Not(seed);
    assert data[0..] == data;
    for i := 0 to |data|
      invariant Feed(crc, data[i..]) == Feed(Not(seed), data)
    {
      ByteXorBound(crc, data[i]);
      ghost var entry := Xor(crc, data[i]);
      var c: nat := Xor(crc, data[i]);
      for b := 0 to 8
        invariant c < 0x1_0000_0000
        invariant Shifts(c, 8 - b) == Shifts(entry, 8)
      {
        ShiftBound(c);
        c := if c % 2 == 1 then Xor(c / 2, POLY) else c / 2;
      }
      crc := c;
      assert data[i..][1..] == data[i + 1..];
    }
    assert data[|data|..] == [];
    r := Not(crc);
  }
}
