/** What the payload checksum means: the register is the bit-reversed remainder of the message
    polynomial times x^32, with the all-ones preset added to the first 32 message bits
    (clause 3.2.9 of IEEE Std 802.3-2012). */
module Crc32Poly {
  import opened Bits
  import opened Crc32Table
  import opened Crc32
  import opened GF2

  const GENERATOR: nat := 0x1_04c1_1db7

  function BitOf(b: bool): nat { if b then 1 else 0 }

  /** The low `n` bits of a word as a polynomial, bit 0 being the highest coefficient. */
  function Reflect(x: bv32, n: nat): nat
    decreases n
  {
    if n == 0 then 0 else Shl(BitOf(Odd(x)), n - 1) + Reflect(Half(x), n - 1)
  }

  lemma {:induction false} ReflectBound(x: bv32, n: nat)
    ensures Reflect(x, n) < Pow2(n)
    decreases n
  {
    hide Odd, Half;
    if n != 0 {
      ReflectBound(Half(x), n - 1);
      ShlBit(Odd(x), n - 1);
    }
  }

  lemma {:induction false} ShlBit(b: bool, n: nat)
    ensures Shl(BitOf(b), n) == if b then Pow2(n) else 0
  {
    if n != 0 {
      ShlBit(b, n - 1);
    }
  }

  lemma {:induction false} ReflectSum(x: bv32, y: bv32, n: nat)
    ensures Reflect(Sum(x, y), n) == Xor(Reflect(x, n), Reflect(y, n))
    decreases n
  {
    hide Odd, Half, Sum, Shl, Xor;
    if n == 0 {
      XorZero(0);
    } else {
      ReflectSum(Half(x), Half(y), n - 1);
      OddSum(x, y);
      HalfSum(x, y);
      ReflectBound(Half(x), n - 1);
      ReflectBound(Half(y), n - 1);
      XorBits(Odd(x), Odd(y));
      XorJoined(BitOf(Odd(x)), Reflect(Half(x), n - 1), BitOf(Odd(y)), Reflect(Half(y), n - 1), n - 1);
    }
  }

  lemma {:induction false} XorBits(a: bool, b: bool)
    ensures Xor(BitOf(a), BitOf(b)) == BitOf(a != b)
  {
    XorZero(1);
    XorSelf(1);
  }

  /** A word that fits in `n` bits, read as one bit longer, is multiplied by x. */
  lemma {:induction false} ReflectLonger(x: bv32, n: nat)
    requires Halves(x, n) == 0
    ensures Reflect(x, n + 1) == 2 * Reflect(x, n)
    decreases n
  {
    hide Odd, Half;
    if n == 0 {
      ZeroIsEven();
      assert Reflect(x, 1) == Shl(BitOf(Odd(x)), 0) + Reflect(Half(x), 0);
    } else {
      ReflectLonger(Half(x), n - 1);
    }
  }

  lemma ZeroIsEven()
    ensures !Odd(0)
  {
  }

  lemma {:induction false} HalvesAdd(x: bv32, m: nat, n: nat)
    ensures Halves(x, m + n) == Halves(Halves(x, m), n)
    decreases m
  {
    hide Half;
    if m != 0 {
      HalvesAdd(Half(x), m - 1, n);
    }
  }

  lemma {:induction false} HalvesByte(x: bv32)
    ensures Halves(x, 8) == Drop8(x)
  {
    hide Half, Drop8, Halves;
    HalvesOfByte(x);
    EightHalves(x);
  }

  lemma {:induction false} WordGone(x: bv32)
    ensures Halves(Half(x), 31) == 0
  {
    hide Half, Drop8;
    HalvesAdd(x, 8, 24);
    HalvesByte(x);
    HalvesAdd(Drop8(x), 8, 16);
    HalvesByte(Drop8(x));
    HalvesAdd(Drop8(Drop8(x)), 8, 8);
    HalvesByte(Drop8(Drop8(x)));
    HalvesByte(Drop8(Drop8(Drop8(x))));
    FourBytesGone(x);
  }

  lemma {:induction false} FourBytesGone(x: bv32)
    ensures Drop8(Drop8(Drop8(Drop8(x)))) == 0
  {
  }

  lemma {:induction false} ReflectSplit(x: bv32, m: nat, n: nat)
    ensures Reflect(x, m + n) == Shl(Reflect(x, m), n) + Reflect(Halves(x, m), n)
    decreases m
  {
    hide Odd, Half;
    if m == 0 {
      ShlBit(false, n);
    } else {
      ReflectSplit(Half(x), m - 1, n);
      var top := Shl(BitOf(Odd(x)), m - 1);
      ShlAdd(top, Reflect(Half(x), m - 1), n);
      ShlShl(BitOf(Odd(x)), m - 1, n);
    }
  }

  lemma {:induction false} ReflectNibble(x: bv32)
    ensures Reflect(x, 4)
        == 8 * BitOf(Odd(x)) + 4 * BitOf(Odd(Half(x))) + 2 * BitOf(Odd(Half(Half(x)))) + BitOf(Odd(Half(Half(Half(x)))))
  {
    hide Odd, Half, BitOf;
    var x1, x2, x3 := Half(x), Half(Half(x)), Half(Half(Half(x)));
    assert Reflect(x3, 1) == BitOf(Odd(x3));
    assert Reflect(x2, 2) == 2 * BitOf(Odd(x2)) + BitOf(Odd(x3));
    assert Reflect(x1, 3) == 4 * BitOf(Odd(x1)) + 2 * BitOf(Odd(x2)) + BitOf(Odd(x3));
  }

  lemma {:induction false} HalvesNibble(x: bv32)
    ensures Halves(x, 4) == x >> 4
  {
    hide Half;
    assert Halves(Half(Half(x)), 2) == Half(Half(Half(Half(x))));
    FourHalves(x);
  }

  lemma {:induction false} FourHalves(x: bv32)
    ensures Half(Half(Half(Half(x)))) == x >> 4
  {
  }

  /** Appends one hexadecimal digit of the reflected polynomial. */
  lemma {:induction false} NextNibble(x: bv32, n: nat)
    ensures Reflect(x, n + 4) == 16 * Reflect(x, n) + Reflect(Halves(x, n), 4)
    ensures Halves(x, n + 4) == Halves(x, n) >> 4
  {
    hide Halves, Odd, Half;
    ReflectSplit(x, n, 4);
    HalvesAdd(x, n, 4);
    HalvesNibble(Halves(x, n));
  }

  lemma Nibbles()
    ensures Reflect(0, 4) == 0 && Reflect(2, 4) == 4 && Reflect(3, 4) == 0xc && Reflect(8, 4) == 1
    ensures Reflect(0xb, 4) == 0xd && Reflect(0xd, 4) == 0xb && Reflect(0xe, 4) == 7
  {
    hide Reflect;
    ReflectNibble(0);
    ReflectNibble(2);
    ReflectNibble(3);
    ReflectNibble(8);
    ReflectNibble(0xb);
    ReflectNibble(0xd);
    ReflectNibble(0xe);
  }

  lemma {:induction false} LowNibble(x: bv32)
    ensures Reflect(x, 4) == Reflect(x & 0xf, 4)
  {
    hide Reflect;
    ReflectNibble(x);
    ReflectNibble(x & 0xf);
    MaskedOdd(x);
  }

  lemma {:induction false} MaskedOdd(x: bv32)
    ensures Odd(x & 0xf) == Odd(x) && Odd(Half(x & 0xf)) == Odd(Half(x))
    ensures Odd(Half(Half(x & 0xf))) == Odd(Half(Half(x)))
    ensures Odd(Half(Half(Half(x & 0xf)))) == Odd(Half(Half(Half(x))))
  {
  }

  /** 0xEDB88320 read backwards is the generator without its highest term. */
  lemma ReflectedGenerator()
    ensures Reflect(REFLECTED, 32) == 0x04c1_1db7
  {
    hide Reflect, Halves;
    Nibbles();
    StartNibble(REFLECTED);
    LowNibble(0xedb8_8320); NextNibble(REFLECTED, 0);
    LowNibble(0x0edb_8832); NextNibble(REFLECTED, 4);
    LowNibble(0x00ed_b883); NextNibble(REFLECTED, 8);
    LowNibble(0x000e_db88); NextNibble(REFLECTED, 12);
    LowNibble(0x0000_edb8); NextNibble(REFLECTED, 16);
    LowNibble(0x0000_0edb); NextNibble(REFLECTED, 20);
    LowNibble(0x0000_00ed); NextNibble(REFLECTED, 24);
    NextNibble(REFLECTED, 28);
  }

  lemma {:induction false} StartNibble(x: bv32)
    ensures Reflect(x, 0) == 0 && Halves(x, 0) == x
  {
  }

  lemma GeneratorShape()
    ensures Deg(GENERATOR) == 32 && Pow2(32) == TWO_32 && Pow2(33) == 2 * TWO_32
  {
    Pow2Values();
    hide Deg;
    DegUnique(GENERATOR, 32);
  }

  /** One register step is one step of long division. */
  lemma {:induction false} StepDivides(t: bv32)
    ensures Reflect(Step(t), 32) == Reduce(2 * Reflect(t, 32), GENERATOR)
  {
    hide Odd, Half, Sum, Halves, Xor, Deg, Shl, Reflect;
    GeneratorShape();
    var h := Half(t);
    WordGone(t);
    ReflectLonger(h, 31);
    ReflectBound(h, 32);
    ReflectTop(t);
    if Odd(t) {
      ReflectSum(h, REFLECTED, 32);
      ReflectedGenerator();
      XorJoinedHigh(Reflect(h, 32), 0x04c1_1db7);
    }
  }

  lemma {:induction false} ReflectTop(t: bv32)
    ensures Reflect(t, 32) == (if Odd(t) then 0x8000_0000 else 0) + Reflect(Half(t), 31)
  {
    hide Odd, Half, Shl;
    ShlBit(Odd(t), 31);
    Pow2Values();
  }

  lemma {:induction false} XorJoinedHigh(a: nat, b: nat)
    requires a < TWO_32 && b < TWO_32
    ensures Xor(TWO_32 + a, TWO_32 + b) == Xor(a, b)
  {
    Pow2Values();
    hide Xor, Shl;
    ShlBit(true, 32);
    ShlBit(false, 32);
    XorJoined(1, a, 1, b, 32);
    XorBits(true, true);
  }

  /** The register as a polynomial. */
  function RegisterPoly(t: bv32): nat {
    Reflect(t, 32)
  }

  /** Shifting `n` bits of `b` in appends them to the dividend. */
  lemma {:induction false} FeedDivides(t: bv32, b: bv32, n: nat, dividend: nat)
    requires RegisterPoly(t) == Rem(dividend, GENERATOR)
    ensures RegisterPoly(FeedBits(t, b, n)) == Rem(Xor(Shl(dividend, n), Shl(Reflect(b, n), 32)), GENERATOR)
    decreases n
  {
    hide Odd, Half, Feed, Xor, Shl, Rem, RegisterPoly;
    if n == 0 {
      ShlZeroBits(dividend);
      XorZero(dividend);
    } else {
      var o := Odd(b);
      var next := Xor(Shl(dividend, 1), Shl(BitOf(o), 32));
      FeedDividesOne(t, o, dividend);
      FeedDivides(Feed(t, o), Half(b), n - 1, next);
      ReflectBound(Half(b), n - 1);
      Regroup(dividend, BitOf(o), Reflect(Half(b), n - 1), n - 1);
    }
  }

  lemma {:induction false} ShlZeroBits(x: nat)
    ensures Shl(x, 0) == x && Shl(0, 32) == 0
  {
    ShlBit(false, 32);
  }

  lemma {:induction false} Regroup(d: nat, o: nat, r: nat, n: nat)
    requires r < Pow2(n)
    ensures Xor(Shl(Xor(Shl(d, 1), Shl(o, 32)), n), Shl(r, 32)) == Xor(Shl(d, n + 1), Shl(Shl(o, n) + r, 32))
  {
    hide *;
    XorShl(Shl(d, 1), Shl(o, 32), n);
    ShlShl(d, 1, n);
    ShlShl(o, 32, n);
    ShlShl(o, n, 32);
    XorAssoc(Shl(d, n + 1), Shl(Shl(o, n), 32), Shl(r, 32));
    XorShl(Shl(o, n), r, 32);
    Join(o, r, n);
  }

  lemma {:induction false} FeedDividesOne(t: bv32, o: bool, dividend: nat)
    requires RegisterPoly(t) == Rem(dividend, GENERATOR)
    ensures RegisterPoly(Feed(t, o)) == Rem(Xor(Shl(dividend, 1), Shl(BitOf(o), 32)), GENERATOR)
  {
    hide Odd, Half, Xor, Shl, Rem, Step, Sum, Reflect, Deg;
    var bit: bv32 := if o then 1 else 0;
    ReflectSum(t, bit, 32);
    ReflectBit(o);
    GeneratorShape();
    var r, h := Rem(dividend, GENERATOR), Shl(BitOf(o), 31);
    ShlBit(o, 31);
    Pow2Values();
    RemSmall(h, GENERATOR);
    RemXor(dividend, h, GENERATOR);
    StepDivides(Sum(t, bit));
    RemStep(Xor(dividend, h), 0, GENERATOR);
    OneShift(Xor(dividend, h));
    XorShl(dividend, h, 1);
    ShlShl(BitOf(o), 31, 1);
  }

  lemma {:induction false} OneShift(x: nat)
    ensures Shl(x, 1) == 2 * x
  {
    assert Shl(x, 0) == x;
  }

  lemma {:induction false} ReflectBit(o: bool)
    ensures Reflect(if o then 1 else 0, 32) == Shl(BitOf(o), 31)
  {
    hide Shl, Reflect;
    var bit: bv32 := if o then 1 else 0;
    ReflectTop(bit);
    SingleBit(o);
    ReflectZero(31);
    ShlBit(o, 31);
    Pow2Values();
  }

  lemma {:induction false} SingleBit(o: bool)
    ensures Odd(if o then 1 else 0) == o && Half(if o then 1 else 0) == 0
  {
  }

  lemma {:induction false} ReflectZero(n: nat)
    ensures Reflect(0, n) == 0
  {
    if n != 0 {
      ReflectZero(n - 1);
      SingleBit(false);
      ShlBit(false, n - 1);
    }
  }

  // ----- whole messages

  const PRESET: nat := 0xffff_ffff

  /** The message as a polynomial: bytes in order, least significant bit of each byte first. */
  function Message(bs: seq<bv32>): nat {
    if |bs| == 0 then 0 else Xor(Shl(Message(bs[..|bs| - 1]), 8), Reflect(bs[|bs| - 1], 8))
  }

  /** The message times x^32 plus the preset over its first 32 bits. */
  function Dividend(bs: seq<bv32>): nat {
    Xor(Shl(PRESET, 8 * |bs|), Shl(Message(bs), 32))
  }

  /** The register after any number of bytes is the reflected remainder. */
  lemma {:induction false} RegisterIsRemainder(bs: seq<bv32>)
    ensures RegisterPoly(Register(bs)) == Rem(Dividend(bs), GENERATOR)
  {
    hide Reflect, Shl, Xor, Rem, FeedBits, Deg;
    if |bs| == 0 {
      PresetReflected();
      GeneratorShape();
      ShlZeroBits(PRESET);
      XorZero(PRESET);
      RemSmall(PRESET, GENERATOR);
    } else {
      var p, b := bs[..|bs| - 1], bs[|bs| - 1];
      RegisterIsRemainder(p);
      FeedDivides(Register(p), b, 8, Dividend(p));
      AppendDividend(p, b);
      assert p + [b] == bs;
    }
  }

  lemma {:induction false} AppendDividend(p: seq<bv32>, b: bv32)
    ensures Dividend(p + [b]) == Xor(Shl(Dividend(p), 8), Shl(Reflect(b, 8), 32))
  {
    hide Reflect, Shl, Xor;
    var bs := p + [b];
    assert bs[..|bs| - 1] == p;
    var n, m, r := 8 * |p|, Message(p), Reflect(b, 8);
    XorShl(Shl(PRESET, n), Shl(m, 32), 8);
    ShlShl(PRESET, n, 8);
    ShlShl(m, 32, 8);
    ShlShl(m, 8, 32);
    XorShl(Shl(m, 8), r, 32);
    XorAssoc(Shl(PRESET, n + 8), Shl(Shl(m, 8), 32), Shl(r, 32));
  }

  lemma PresetReflected()
    ensures Reflect(0xffff_ffff, 32) == PRESET
  {
    hide Reflect, Halves;
    var x: bv32 := 0xffff_ffff;
    ReflectNibble(0xf);
    StartNibble(x);
    LowNibble(0xffff_ffff); NextNibble(x, 0);
    LowNibble(0x0fff_ffff); NextNibble(x, 4);
    LowNibble(0x00ff_ffff); NextNibble(x, 8);
    LowNibble(0x000f_ffff); NextNibble(x, 12);
    LowNibble(0x0000_ffff); NextNibble(x, 16);
    LowNibble(0x0000_0fff); NextNibble(x, 20);
    LowNibble(0x0000_00ff); NextNibble(x, 24);
    NextNibble(x, 28);
  }
}
