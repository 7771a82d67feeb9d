/** The table-driven header checksum of src/nocbridge/JTAGNOCBridgeInterface.cpp:
    the ATM HEC polynomial x^8 + x^2 + x + 1, most significant bit first. */
module Crc8 {
  import opened Bits
  import opened Crc8Table
  import opened GF2

  const POLY: nat := 0x107

  /** Multiplication by x^8 in GF(2)[x] modulo the polynomial. */
  function Times8(m: nat): nat {
    Rem(0x100 * m, POLY)
  }

  lemma {:induction false} Shl8(m: nat)
    ensures Shl(m, 8) == 0x100 * m
  {
  }

  lemma {:induction false} Flip7IsXor(x: nat)
    ensures Flip7(x) == Xor(x, 7)
  {
    var h, l: nat := x / 8, x % 8;
    assert Shl(h, 3) == 8 * h && Shl(0, 3) == 0;
    XorJoined(h, l, 0, 7, 3);
    XorZero(h);
    Flip7Small(l);
  }

  lemma {:induction false} Flip7Small(l: nat)
    requires l < 8
    ensures Xor(l, 7) == 7 - l
  {
    hide Xor;
    XorStep(l, 7);
    XorStep(l / 2, 3);
    XorStep(l / 4, 1);
    XorZero(0);
  }

  lemma PolyShape()
    ensures Deg(POLY) == 8 && Pow2(8) == 0x100
  {
  }

  lemma {:induction false} XorHigh(h: nat, l: nat, h': nat, l': nat)
    requires l < 0x100 && l' < 0x100
    ensures Xor(0x100 * h + l, 0x100 * h' + l') == 0x100 * Xor(h, h') + Xor(l, l')
  {
    hide Xor;
    PolyShape();
    XorJoined(h, l, h', l', 8);
    Shl8(h);
    Shl8(h');
    Shl8(Xor(h, h'));
  }

  lemma {:induction false} DoubleIsReduce(t: nat)
    requires t < 0x100
    ensures Double(t) == Reduce(2 * t, POLY)
  {
    PolyShape();
    if t >= 128 {
      var x: nat := 2 * t - 256;
      Flip7IsXor(x);
      XorHigh(1, x, 1, 7);
      XorSelf(1);
    }
  }

  lemma {:induction false} Times8Bounded(m: nat)
    ensures Times8(m) < 0x100
  {
    RemCorrect(0x100 * m, POLY);
    PolyShape();
  }

  lemma {:induction false} Times8Even(m: nat)
    ensures Times8(2 * m) == Double(Times8(m))
  {
    Times8Bounded(m);
    DoubleIsReduce(Times8(m));
    RemStep(0x100 * m, 0, POLY);
    assert 0x100 * (2 * m) == 2 * (0x100 * m) + 0;
  }

  lemma {:induction false} Times8Odd(m: nat)
    ensures Times8(2 * m + 1) == Flip7(Times8(2 * m))
  {
    hide Rem;
    OneTimes8();
    XorBit(1, m);
    XorSym(1, 2 * m);
    XorHigh(2 * m, 0, 1, 0);
    XorZero(0);
    RemXor(0x100 * (2 * m), 0x100, POLY);
    Flip7IsXor(Times8(2 * m));
  }

  lemma OneTimes8()
    ensures Times8(1) == 7
  {
    PolyShape();
    XorHigh(1, 0, 0, 7);
    XorZero(1);
    XorZero(7);
    DividesSelf(POLY);
    RemUnique(0x100, POLY, 7);
  }

  /** Any table built by doubling holds i * x^8 for every byte i. */
  lemma {:induction false} DoublingTable(t: seq<nat>, i: nat)
    requires |t| == 0x100 && t[0] == 0 && i < 0x100
    requires forall k :: 0 <= k < 128 ==> t[2 * k] == Double(t[k]) && t[2 * k + 1] == Flip7(Double(t[k]))
    ensures t[i] == Times8(i)
    decreases i
  {
    if i == 0 {
      assert Times8(0) == 0;
    } else {
      var k := i / 2;
      DoublingTable(t, k);
      Times8Even(k);
      Times8Odd(k);
      assert i == 2 * k || i == 2 * k + 1;
    }
  }

  lemma {:induction false} TableIsTimes8(i: u8)
    ensures Lookup(i) == Times8(i)
  {
    hide Lookup, Double, Flip7, Times8;
    var t := seq(0x100, (k: nat) requires k < 0x100 => Lookup(k));
    forall k: nat | k < 128
      ensures t[2 * k] == Double(t[k]) && t[2 * k + 1] == Flip7(Double(t[k]))
    {
      TableDoubles(k);
    }
    ZeroEntry();
    DoublingTable(t, i);
  }

  // ----- the checksum loop

  /** A byte string as a polynomial, first byte most significant. */
  function BytesPoly(bs: seq<u8>): nat {
    if |bs| == 0 then 0 else 0x100 * BytesPoly(bs[..|bs| - 1]) + bs[|bs| - 1]
  }

  /** The checksum of a byte string, one table entry per byte. */
  function Checksum(bs: seq<u8>): u8 {
    if |bs| == 0 then 0 else
      var c := Checksum(bs[..|bs| - 1]);
      XorByteBound(c, bs[|bs| - 1]);
      Times8Bounded(Xor(c, bs[|bs| - 1]));
      Times8(Xor(c, bs[|bs| - 1]))
  }

  lemma {:induction false} XorByteBound(a: nat, b: nat)
    requires a < 0x100 && b < 0x100
    ensures Xor(a, b) < 0x100
  {
    PolyShape();
    XorBound(a, b, 8);
  }

  /** The checksum of a byte string of any length is the message polynomial times x^8,
      reduced modulo the generator. */
  lemma {:induction false} ChecksumIsRemainder(bs: seq<u8>)
    ensures Checksum(bs) == Times8(BytesPoly(bs))
  {
    hide Rem;
    if |bs| == 0 {
      PolyShape();
      RemSmall(0, POLY);
    } else {
      var m, b := BytesPoly(bs[..|bs| - 1]), bs[|bs| - 1];
      ChecksumIsRemainder(bs[..|bs| - 1]);
      XorByteBound(Times8(m), b);
      Times8Next(m, b);
    }
  }

  lemma {:induction false} Times8Next(m: nat, b: u8)
    ensures Times8(0x100 * m + b) == Times8(Xor(Times8(m), b))
  {
    hide Rem, Xor, Deg;
    PolyShape();
    ShiftRegister(m, b, 8, POLY);
    Shl8(m);
    Shl8(0x100 * m + b);
    Shl8(Xor(Times8(m), b));
  }

  function Word(a: nat, b: nat, c: nat, d: nat): nat {
    0x100_0000 * a + 0x1_0000 * b + 0x100 * c + d
  }

  /** The bytes of a word in network order. */
  function WordBytes(w: u32): (bs: seq<u8>)
    ensures |bs| == 4 && w == Word(bs[0], bs[1], bs[2], bs[3])
  {
    var high := w / 0x1_0000;
    var low := w % 0x1_0000;
    [high / 0x100, high % 0x100, low / 0x100, low % 0x100]
  }

  function BytesOf(words: seq<u32>): (bs: seq<u8>)
    ensures |bs| == 4 * |words|
  {
    if |words| == 0 then [] else BytesOf(words[..|words| - 1]) + WordBytes(words[|words| - 1])
  }

  /** Byte `j` of a buffer lies in word `j / 4`. */
  lemma {:induction false} ByteAt(words: seq<u32>, j: nat)
    requires j < 4 * |words|
    ensures BytesOf(words)[j] == WordBytes(words[j / 4])[j % 4]
  {
    if j / 4 < |words| - 1 {
      ByteAt(words[..|words| - 1], j);
    }
  }

  /** A word after `k` bytes have been shifted out of its top. */
  function Shifted(w: u32, k: nat): nat
    requires k <= 4
  {
    var b := WordBytes(w);
    if k == 0 then w
    else if k == 1 then Word(b[1], b[2], b[3], 0)
    else if k == 2 then Word(b[2], b[3], 0, 0)
    else if k == 3 then Word(b[3], 0, 0, 0)
    else 0
  }

  lemma {:induction false} ShiftOut(w: u32, k: nat)
    requires k < 4
    ensures Shifted(w, 0) == w
    ensures Shifted(w, k) < TWO_32
    ensures Shifted(w, k) / 0x100_0000 == WordBytes(w)[k]
    ensures Shifted(w, k) * 0x100 % TWO_32 == Shifted(w, k + 1)
  {
    hide WordBytes, Word;
    var b := WordBytes(w);
    if k == 0 {
      ShiftBytes(b[0], b[1], b[2], b[3]);
    } else if k == 1 {
      ShiftBytes(b[1], b[2], b[3], 0);
    } else if k == 2 {
      ShiftBytes(b[2], b[3], 0, 0);
    } else {
      ShiftBytes(b[3], 0, 0, 0);
      WordZero();
    }
  }

  lemma WordZero()
    ensures Word(0, 0, 0, 0) == 0
  {
  }

  lemma {:induction false} ShiftBytes(a: u8, b: u8, c: u8, d: u8)
    ensures Word(a, b, c, d) < TWO_32 && Word(a, b, c, d) / 0x100_0000 == a
    ensures Word(a, b, c, d) * 0x100 % TWO_32 == Word(b, c, d, 0)
  {
    DivModUnique(Word(a, b, c, d), 0x100_0000, a, Word(0, b, c, d));
    DivModUnique(Word(a, b, c, d) * 0x100, TWO_32, a, Word(b, c, d, 0));
  }

  method TableEntry(i: u8) returns (r: u8)
    ensures r == Times8(i)
  {
    hide Lookup, Double, Flip7, Times8;
    TableIsTimes8(i);
    Times8Bounded(i);
    r := Lookup(i);
  }

  /** Checksums the first `len` bytes of a buffer in network byte order. */
  method CRC8(data: seq<u32>, len: nat) returns (crc: u8)
    requires len <= 4 * |data|
    ensures crc == Checksum(BytesOf(data)[..len])
  {
    hide Times8, WordBytes, Shifted, BytesOf, Xor;
    ghost var bs := BytesOf(data);
    crc := 0;
    var i := 0;
    ghost var k := 0;
    while i < len
      invariant i == 4 * k
      invariant crc == Checksum(bs[..if i < len then i else len])
    {
      var word := data[i / 4];
      var d: nat := word;
      ShiftOut(word, 0);
      var j := i;
      while j < len && j < i + 4
        invariant i <= j <= i + 4 && j <= len
        invariant d == Shifted(word, j - i)
        invariant crc == Checksum(bs[..j])
      {
        ShiftOut(word, j - i);
        ByteAt(data, j);
        ByteIndex(k, j);
        assert bs[..j + 1][..j] == bs[..j];
        var b := d / 0x100_0000;
        XorByteBound(crc, b);
        crc := TableEntry(Xor(crc, b));
        d := d * 0x100 % TWO_32;
        j := j + 1;
      }
      i := i + 4;
      k := k + 1;
    }
  }

  lemma {:induction false} ByteIndex(k: nat, j: nat)
    requires 4 * k <= j < 4 * k + 4
    ensures j / 4 == k && j % 4 == j - 4 * k
  {
  }

  // ----- what a verified header is

  /** A header's checksum byte matches exactly when its 64 bits are a multiple of the polynomial. */
  lemma {:induction false} HeaderVerifies(w0: u32, w1: u32)
    ensures w1 % 0x100 == Checksum(BytesOf([w0, w1])[..7]) <==> Divides(POLY, w0 * TWO_32 + w1)
  {
    hide Rem, Xor, Deg;
    var bs := BytesOf([w0, w1])[..7];
    var m := BytesPoly(bs);
    ChecksumIsRemainder(bs);
    HeaderPoly(w0, w1);
    PolyShape();
    CheckBits(m, w1 % 0x100, 8, POLY);
    Shl8(m);
  }

  lemma {:induction false} HeaderPoly(w0: u32, w1: u32)
    ensures 0x100 * BytesPoly(BytesOf([w0, w1])[..7]) + w1 % 0x100 == w0 * TWO_32 + w1
  {
    var b := BytesOf([w0, w1]);
    assert BytesOf([]) == [];
    assert [w0][..0] == [] && [w0, w1][..1] == [w0];
    assert BytesOf([w0]) == [] + WordBytes(w0);
    assert b == ([] + WordBytes(w0)) + WordBytes(w1);
    WordPoly([], w0);
    WordPoly([] + WordBytes(w0), w1);
    assert b[7] == w1 % 0x100;
  }

  /** Appending the bytes of a word appends its 32 bits. */
  lemma {:induction false} WordPoly(bs: seq<u8>, w: u32)
    ensures BytesPoly(bs + WordBytes(w)) == TWO_32 * BytesPoly(bs) + w
  {
    var b := WordBytes(w);
    AppendByte(bs, b[0]);
    AppendByte(bs + [b[0]], b[1]);
    AppendByte(bs + [b[0]] + [b[1]], b[2]);
    AppendByte(bs + [b[0]] + [b[1]] + [b[2]], b[3]);
    assert bs + b == bs + [b[0]] + [b[1]] + [b[2]] + [b[3]];
  }

  lemma {:induction false} AppendByte(bs: seq<u8>, b: u8)
    ensures BytesPoly(bs + [b]) == 0x100 * BytesPoly(bs) + b
  {
    assert (bs + [b])[..|bs|] == bs;
  }

  // ----- errors a header checksum catches

  /** An error of one to three bits, of any odd number of bits, or within a burst of eight. */
  ghost predicate Detectable(e: nat) {
    1 <= Weight(e) <= 3 || Weight(e) % 2 == 1 || Burst(e, 8)
  }

  /** Any such error in a valid 64-bit header makes it invalid. */
  lemma {:induction false} HeaderErrorDetected(header: nat, e: nat)
    requires Divides(POLY, header) && e < Pow2(64) && Detectable(e)
    ensures !Divides(POLY, Xor(header, e))
  {
    if Divides(POLY, Xor(header, e)) {
      DividesXor(POLY, header, Xor(header, e));
      XorCancel(header, e);
      NoDetectableMultiple(e);
    }
  }

  lemma PolyWeight()
    ensures Weight(POLY) == 4
  {
    hide Weight;
    WeightPositive(0);
    WeightStep(1); WeightStep(2); WeightStep(4); WeightStep(8); WeightStep(16);
    WeightStep(32); WeightStep(65); WeightStep(131); WeightStep(263);
  }

  lemma {:induction false} NoDetectableMultiple(e: nat)
    requires e < Pow2(64) && Detectable(e)
    ensures !Divides(POLY, e)
  {
    hide Weight, Xor, Rem, Deg, Burst, Divides;
    PolyShape();
    PolyWeight();
    if Burst(e, 8) {
      BurstIsNoMultiple(e, POLY);
    } else if Weight(e) % 2 == 1 {
      OddWeightIsNoMultiple(e, POLY);
    } else if Divides(POLY, e) {
      var d := TwoBitsAtDistance(e, POLY, 64);
      OrderAbove63(d);
    }
  }

  lemma {:induction false} PowersAreRemainders(k: nat)
    requires k < 64
    ensures Power(k) == Rem(Pow2(k), POLY)
  {
    hide Rem, Power, Double, Deg;
    PolyShape();
    if k == 0 {
      PowersLow();
      RemSmall(1, POLY);
    } else {
      PowersAreRemainders(k - 1);
      NextPowerHolds(k - 1);
      PowerStep(Pow2(k - 1), Power(k - 1));
    }
  }

  lemma {:induction false} PowerStep(p: nat, r: nat)
    requires r == Rem(p, POLY)
    ensures Double(r) == Rem(2 * p, POLY)
  {
    hide Rem, Xor, Deg;
    RemCorrect(p, POLY);
    PolyShape();
    DoubleIsReduce(r);
    RemStep(p, 0, POLY);
  }

  lemma {:induction false} OrderAbove63(d: nat)
    requires 1 <= d < 64
    ensures !Divides(POLY, Pow2(d) + 1)
  {
    hide Rem;
    PowersAreRemainders(d);
    PowersAreRemainders(0);
    PowersLow();
    NextPowerHolds(d - 1);
    OneMore(d);
    RemEq(Pow2(d), 1, POLY);
  }

  lemma {:induction false} OneMore(d: nat)
    requires d >= 1
    ensures Xor(Pow2(d), 1) == Pow2(d) + 1
  {
    XorBit(1, Pow2(d - 1));
    XorSym(1, Pow2(d));
  }
}
