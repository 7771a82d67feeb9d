/** Which transmission errors the two checksums of the JTAG link catch (src/nocbridge/JTAGNOCBridgeInterface.cpp). */
module LinkErrors {
  import opened Bits
  import opened GF2
  import Crc8
  import opened Crc32Table
  import opened Crc32
  import opened Crc32Poly
  import opened RpcMessages
  import opened JtagFrames
  import opened JtagLink
  import opened Options

  // ----- the header

  /** A header of two words as one number of 64 bits. */
  function HeaderBits(w0: u32, w1: u32): nat {
    w0 as nat * TWO_32 + w1
  }

  /** A header that was sent is taken for a bad one if and only if the checksum's polynomial does not divide the error;
      so it is for one to three wrong bits, for an odd number of them, and for a burst of eight. */
  lemma {:induction false} HeaderErrorRejected(w0: u32, w1: u32, buf: seq<u32>)
    requires Verifies(w0, w1) && |buf| >= 2
    ensures var e := Xor(HeaderBits(w0, w1), HeaderBits(buf[0], buf[1]));
            && (Look(buf).BadHeader? <==> !Divides(Crc8.POLY, e))
            && (Crc8.Detectable(e) ==> Look(buf).BadHeader?)
  {
    hide Verifies, Divides, Xor, Crc8.Detectable, HeaderOf, PayloadChecksum, UnpackWords, Pow2;
    var sent, got := HeaderBits(w0, w1), HeaderBits(buf[0], buf[1]);
    var e := Xor(sent, got);
    VerifiesIffMultiple(w0, w1);
    VerifiesIffMultiple(buf[0], buf[1]);
    XorCancel(sent, got);
    if Divides(Crc8.POLY, e) {
      DividesXor(Crc8.POLY, sent, e);
    }
    if Divides(Crc8.POLY, got) {
      DividesXor(Crc8.POLY, sent, got);
    }
    SixtyFour(w0, w1);
    SixtyFour(buf[0], buf[1]);
    XorBound(sent, got, 64);
    if Crc8.Detectable(e) {
      Crc8.HeaderErrorDetected(sent, e);
    }
  }

  lemma {:induction false} SixtyFour(w0: u32, w1: u32)
    ensures HeaderBits(w0, w1) < Pow2(64)
  {
    hide Shl;
    Pow2Values();
    ShlIsTimes(w0, 32);
    ShlBound(w0, 32, 32);
    ShlMono(w0, TWO_32, 32);
    ShlIsTimes(TWO_32, 32);
    ShlBound(1, 32, 32);
    ShlOne(32);
    ShlShl(1, 32, 32);
    ShlOne(64);
  }

  // ----- the payload

  const ONES: bv32 := 0xffff_ffff

  /** A checksum word as a polynomial: the word's bytes are in reverse order. */
  function ChecksumPoly(c: bv32): nat {
    Reflect(FlipEndian(c), 32)
  }

  /** Payload and checksum word as one polynomial, in the order in which the checksum takes their bits. */
  function Codeword(words: seq<bv32>, c: bv32): nat {
    Xor(Shl(Message(BytesOf(words)), 32), ChecksumPoly(c))
  }

  /** What the preset and the complement of the checksum add to every codeword of that many words. */
  function Added(n: nat): nat {
    Xor(Shl(PRESET, 8 * (4 * n)), PRESET)
  }

  lemma {:induction false} SameWord(x: bv32, y: bv32)
    ensures x as u32 == y as u32 <==> x == y
    ensures (x as u32) as bv32 == x
  {
    assert (x as u32) as bv32 == x;
    assert (y as u32) as bv32 == y;
  }

  /** The complement of a word. */
  function Not(x: bv32): bv32 {
    !x
  }

  lemma {:induction false} FlipTwice(x: bv32)
    ensures FlipEndian(FlipEndian(x)) == x && FlipEndian(Not(x)) == Not(FlipEndian(x))
  {
  }

  lemma {:induction false} SumOnes(x: bv32)
    ensures Sum(x, ONES) == Not(x) && Not(Not(x)) == x
  {
  }

  lemma {:induction false} FlipComplement(x: bv32, y: bv32)
    ensures x == Not(FlipEndian(y)) <==> Sum(FlipEndian(x), ONES) == y
  {
    hide FlipEndian, Sum, Not;
    FlipTwice(x);
    FlipTwice(y);
    FlipTwice(FlipEndian(y));
    SumOnes(FlipEndian(x));
    SumOnes(y);
  }

  /** The low `n` bits of a word read backwards determine them. */
  lemma {:induction false} ReflectInjective(x: bv32, y: bv32)
    ensures Reflect(x, 32) == Reflect(y, 32) <==> x == y
  {
    hide Reflect, Halves, Odd, Half, Sum, Shl;
    if Reflect(x, 32) == Reflect(y, 32) {
      ReflectSum(x, y, 32);
      XorEqZero(Reflect(x, 32), Reflect(y, 32));
      AllGone(Sum(x, y));
      ReflectNone(Sum(x, y), 32);
      SumIsZero(x, y);
    }
  }

  lemma {:induction false} AllGone(x: bv32)
    ensures Halves(x, 32) == 0
  {
    WordGone(x);
  }

  lemma {:induction false} ReflectNone(x: bv32, n: nat)
    requires Reflect(x, n) == 0 && Halves(x, n) == 0
    ensures x == 0
    decreases n
  {
    hide Odd, Half, Shl;
    if n > 0 {
      ShlBit(Odd(x), n - 1);
      ReflectNone(Half(x), n - 1);
      NoBits(x);
    }
  }

  lemma {:induction false} NoBits(x: bv32)
    ensures !Odd(x) && Half(x) == 0 ==> x == 0
  {
  }

  lemma {:induction false} SumIsZero(x: bv32, y: bv32)
    ensures Sum(x, y) == 0 ==> x == y
  {
  }

  lemma {:induction false} ChecksumIsNot(words: seq<bv32>)
    ensures ChecksumWord(words) == Not(FlipEndian(Register(BytesOf(words))))
  {
    hide FlipEndian, Register, BytesOf;
  }

  /** A checksum word is the right one if and only if the generator divides the codeword, less what is always added. */
  lemma {:induction false} RightChecksum(words: seq<bv32>, c: bv32)
    ensures c == ChecksumWord(words)
       <==> Divides(GENERATOR, Xor(Codeword(words, c), Added(|words|)))
  {
    hide Reflect, Shl, Xor, Rem, FlipEndian, Divides, Deg, Register, Message, BytesOf, Sum, Not, ChecksumWord;
    ChecksumIsNot(words);
    var bs := BytesOf(words);
    var r, v, d := Register(bs), Xor(ChecksumPoly(c), PRESET), Dividend(bs);
    FlipComplement(c, r);
    ReflectInjective(Sum(FlipEndian(c), ONES), r);
    ReflectSum(FlipEndian(c), ONES, 32);
    PresetReflected();
    RegisterIsRemainder(bs);
    GeneratorShape();
    ReflectBound(FlipEndian(c), 32);
    XorBound(ChecksumPoly(c), PRESET, 32);
    RemCorrect(d, GENERATOR);
    if Divides(GENERATOR, Xor(d, v)) {
      RemUnique(d, GENERATOR, v);
    }
    var preset, message := Shl(PRESET, 8 * |bs|), Shl(Message(bs), 32);
    XorSym(preset, message);
    XorSwap(message, preset, ChecksumPoly(c), PRESET);
  }

  lemma {:induction false} ErrorDivides(a: nat, b: nat, added: nat)
    requires Divides(GENERATOR, Xor(a, added))
    ensures Divides(GENERATOR, Xor(b, added)) <==> Divides(GENERATOR, Xor(a, b))
  {
    hide Xor, Divides;
    var x, y := Xor(a, added), Xor(b, added);
    XorSwap(a, added, b, added);
    XorSelf(added);
    XorZero(Xor(a, b));
    assert Xor(x, y) == Xor(a, b);
    XorCancel(x, y);
    if Divides(GENERATOR, y) {
      DividesXor(GENERATOR, x, y);
    }
    if Divides(GENERATOR, Xor(a, b)) {
      DividesXor(GENERATOR, x, Xor(x, y));
    }
  }

  /** Of two payloads of one length with the first one's checksum right, the second one's is right if and only if the
      generator divides the error; it is not, for a burst of at most 32 bits in the checksum's order. */
  lemma {:induction false} ErrorAccepted(sent: seq<bv32>, c: bv32, got: seq<bv32>, c': bv32)
    requires |sent| == |got| && c == ChecksumWord(sent)
    ensures var e := Xor(Codeword(sent, c), Codeword(got, c'));
            && (c' == ChecksumWord(got) <==> Divides(GENERATOR, e))
            && (Burst(e, 32) ==> c' != ChecksumWord(got))
  {
    hide Codeword, Xor, ChecksumWord, Divides, Deg, Burst, Added;
    RightChecksum(sent, c);
    RightChecksum(got, c');
    ErrorDivides(Codeword(sent, c), Codeword(got, c'), Added(|sent|));
    GeneratorShape();
    if Burst(Xor(Codeword(sent, c), Codeword(got, c')), 32) {
      BurstIsNoMultiple(Xor(Codeword(sent, c), Codeword(got, c')), GENERATOR);
    }
  }

  lemma {:induction false} ChecksumOf(words: seq<u32>, c: bv32)
    ensures c as u32 == PayloadChecksum(words) <==> c == ChecksumWord(AsBits(words))
  {
    hide ChecksumWord, AsBits;
    SameWord(c, ChecksumWord(AsBits(words)));
  }

  // ----- frames

  /** A frame of a message that arrives with its header intact is taken whole, and its payload is accepted if and only
      if the generator divides the error in payload and checksum. A burst of at most 32 bits in the checksum's order
      is rejected, and no message is delivered. */
  lemma {:induction false} PayloadErrorRejected(sequence: nat, f: Frame, c: bv32, buf: seq<u32>, c': bv32)
    requires sequence < 0x400 && Sendable(f) && f.payload.Some? && |buf| >= 7
    requires buf[..2] == FrameWords(sequence, f)[..2]
    requires FrameWords(sequence, f)[6] == c as u32 && buf[6] == c' as u32
    ensures var e := Xor(Codeword(AsBits(FrameWords(sequence, f)[2..6]), c), Codeword(AsBits(buf[2..6]), c'));
            && Look(buf).Whole? && (Look(buf).accepted <==> Divides(GENERATOR, e))
            && (Burst(e, 32) ==> Look(buf) == Whole(7, false, None, sequence))
  {
    hide Codeword, Xor, Divides, Burst, PayloadChecksum, HeaderOf, UnpackWords, Verifies, PayloadOf, AsBits,
      ChecksumWord;
    var words := FrameWords(sequence, f);
    var h := FrameHeader(sequence, f);
    assert words[..2] == HeaderWords(h) && words[2..6] == PayloadOf(f.payload.value);
    assert buf[0] == words[0] && buf[1] == words[1];
    ChecksumOf(words[2..6], c);
    ChecksumOf(buf[2..6], c');
    ErrorAccepted(AsBits(words[2..6]), c, AsBits(buf[2..6]), c');
  }

  // ----- a burst across the end of the payload

  const TOP: bv32 := 0x8000_0000
  const ACROSS: bv32 := 0x2083_b8ed

  function Flipped(w: u32, e: bv32): u32 {
    Sum(WordBits(w), e) as u32
  }

  lemma {:induction false} BackAgain(x: bv32)
    ensures (x as u32) as bv32 == x
  {
    assert (x as u32) as bv32 == x;
  }

  lemma {:induction false} FlippedWord(w: u32, e: bv32)
    ensures WordBits(Flipped(w, e)) == Sum(WordBits(w), e)
    ensures e != 0 ==> Flipped(w, e) != w
  {
    hide Sum;
    BackAgain(Sum(WordBits(w), e));
    SumChanges(WordBits(w), e);
  }

  lemma {:induction false} FlippedValue(x: bv32, e: bv32)
    ensures Flipped(x as u32, e) == Sum(x, e) as u32
  {
    hide Sum;
    BackAgain(x);
  }

  lemma {:induction false} FlippedAt(words: seq<u32>, n: nat, e: bv32)
    requires n < |words|
    ensures AsBits(words[n := Flipped(words[n], e)]) == AsBits(words)[n := Sum(AsBits(words)[n], e)]
  {
    hide Sum, Flipped, WordBits;
    FlippedWord(words[n], e);
  }

  lemma {:induction false} SumChanges(x: bv32, e: bv32)
    ensures e != 0 ==> Sum(x, e) != x
  {
  }

  lemma {:induction false} TopBitBytes(w: bv32)
    ensures var b, b' := WordBytes(w), WordBytes(Sum(w, TOP));
            b'[0] == b[0] && b'[1] == b[1] && b'[2] == b[2] && b'[3] == Sum(b[3], 0x80)
  {
    hide Sum, LowByte, Drop8;
    DropSum(w, TOP);
    DropSum(Drop8(w), 0x80_0000);
    DropSum(Drop8(Drop8(w)), 0x8000);
    DropSum(Drop8(Drop8(Drop8(w))), 0x80);
    TopDropped();
    SumNothing(LowByte(w));
    SumNothing(LowByte(Drop8(w)));
    SumNothing(LowByte(Drop8(Drop8(w))));
  }

  lemma {:induction false} DropSum(x: bv32, y: bv32)
    ensures Drop8(Sum(x, y)) == Sum(Drop8(x), Drop8(y)) && LowByte(Sum(x, y)) == Sum(LowByte(x), LowByte(y))
  {
  }

  lemma TopDropped()
    ensures Drop8(TOP) == 0x80_0000 && Drop8(0x80_0000) == 0x8000 && Drop8(0x8000) == 0x80
    ensures LowByte(TOP) == LowByte(0x80_0000) == LowByte(0x8000) == 0 && LowByte(0x80) == 0x80
  {
  }

  /** The last bit of the payload is the lowest coefficient of its polynomial. */
  lemma {:induction false} LastBitOfMessage(words: seq<bv32>)
    requires |words| > 0
    ensures var n := |words| - 1;
            Message(BytesOf(words[n := Sum(words[n], TOP)])) == Xor(Message(BytesOf(words)), 1)
  {
    hide Reflect, WordBytes, Sum, Shl, Xor, Message, BytesOf;
    var n := |words| - 1;
    var b := WordBytes(words[n]);
    var front := BytesOf(words[..n]) + [b[0], b[1], b[2]];
    LastWord(words, words[n]);
    LastWord(words, Sum(words[n], TOP));
    assert words[n := words[n]] == words;
    TopBitBytes(words[n]);
    LastByte(front, b[3]);
    LastByte(front, Sum(b[3], 0x80));
    ReflectSum(b[3], 0x80, 8);
    HighBitReflected();
    XorAssoc(Shl(Message(front), 8), Reflect(b[3], 8), 1);
  }

  lemma {:induction false} LastWord(words: seq<bv32>, w: bv32)
    requires |words| > 0
    ensures var b := WordBytes(w);
        BytesOf(words[|words| - 1 := w]) == BytesOf(words[..|words| - 1]) + [b[0], b[1], b[2]] + [b[3]]
  {
    hide WordBytes;
    var words' := words[|words| - 1 := w];
    assert words'[..|words'| - 1] == words[..|words| - 1];
  }

  lemma {:induction false} LastByte(front: seq<bv32>, b: bv32)
    ensures Message(front + [b]) == Xor(Shl(Message(front), 8), Reflect(b, 8))
  {
    hide Reflect, Shl, Xor;
    assert (front + [b])[..|front|] == front;
  }

  lemma HighBitReflected()
    ensures Reflect(0x80, 8) == 1
  {
    hide Reflect, Halves;
    StartNibble(0x80);
    Nibbles();
    LowNibble(0x80);
    NextNibble(0x80, 0);
    LowNibble(0x08);
    NextNibble(0x80, 4);
  }

  lemma {:induction false} FlipSum(x: bv32)
    ensures FlipEndian(Sum(x, ACROSS)) == Sum(FlipEndian(x), REFLECTED)
  {
    hide FlipEndian, Sum;
    FlipLinear(x, ACROSS);
    FlipAcross();
  }

  lemma FlipAcross()
    ensures FlipEndian(ACROSS) == REFLECTED
  {
  }

  lemma {:induction false} FlipLinear(x: bv32, y: bv32)
    ensures FlipEndian(Sum(x, y)) == Sum(FlipEndian(x), FlipEndian(y))
  {
  }

  /** Those changes together add the generator. */
  lemma {:induction false} AcrossIsGenerator(words: seq<bv32>, c: bv32)
    requires |words| > 0
    ensures var n := |words| - 1;
            Codeword(words[n := Sum(words[n], TOP)], Sum(c, ACROSS)) == Xor(Codeword(words, c), GENERATOR)
  {
    hide Reflect, Sum, FlipEndian, Shl, Xor, Message, BytesOf;
    LastBitOfMessage(words);
    FlipSum(c);
    ReflectSum(FlipEndian(c), REFLECTED, 32);
    ReflectedGenerator();
    var m, p := Message(BytesOf(words)), ChecksumPoly(c);
    XorShl(m, 1, 32);
    XorSwap(Shl(m, 32), Shl(1, 32), p, 0x04c1_1db7);
    Pow2Values();
    ShlOne(32);
    Join(1, 0x04c1_1db7, 32);
  }

  /** The bits of the two words in which a frame's payload ends and its checksum stands, low bits first. */
  function AcrossBits(): nat {
    TOP as nat + TWO_32 * ACROSS as nat
  }

  /** The checksum word is sent with its bytes in reverse order, so that a burst of 31 bits from the last bit of the
      payload to bit 29 of the checksum word is never noticed. */
  lemma {:induction false} BurstAcrossAccepted(words: seq<u32>)
    requires |words| > 0
    ensures var n := |words| - 1;
            && Flipped(words[n], TOP) != words[n]
            && PayloadChecksum(words[n := Flipped(words[n], TOP)]) == Flipped(PayloadChecksum(words), ACROSS)
    ensures Burst(AcrossBits(), 31)
  {
    hide Codeword, Xor, ChecksumWord, Divides, Sum, Flipped, Shl, AsBits, PayloadChecksum, Burst, AcrossBits;
    var n := |words| - 1;
    var words' := words[n := Flipped(words[n], TOP)];
    var c := ChecksumWord(AsBits(words));
    FlippedWord(words[n], TOP);
    FlippedAt(words, n, TOP);
    AcrossIsGenerator(AsBits(words), c);
    XorCancel(Codeword(AsBits(words), c), GENERATOR);
    DividesSelf(GENERATOR);
    ErrorAccepted(AsBits(words), c, AsBits(words'), Sum(c, ACROSS));
    ChecksumOf(words, c);
    ChecksumOf(words', Sum(c, ACROSS));
    FlippedValue(c, ACROSS);
    AcrossIsBurst();
  }

  lemma AcrossIsBurst()
    ensures Burst(AcrossBits(), 31)
  {
    hide Shl;
    Pow2Values();
    ShlIsTimes(0x4107_71db, 31);
    assert AcrossBits() == Shl(0x4107_71db, 31);
  }

  /** The words of a frame with those bits changed. */
  function ChangedAcross(words: seq<u32>): (r: seq<u32>)
    requires |words| == 7
    ensures |r| == 7
  {
    words[..5] + [Flipped(words[5], TOP), Flipped(words[6], ACROSS)]
  }

  /** So a frame of a message can arrive with those bits changed and be accepted, with another message in it. */
  lemma {:induction false} MisreadFrame(sequence: nat, f: Frame, rest: seq<u32>)
    requires sequence < 0x400 && Sendable(f) && f.payload.Some?
    ensures var look := Look(ChangedAcross(FrameWords(sequence, f)) + rest);
            && look.Whole? && look.length == 7 && look.accepted && look.message.Some?
            && look.message.value.data2 != f.payload.value.data2
  {
    hide PayloadChecksum, HeaderOf, Verifies, Flipped, AcrossBits, Burst;
    var words := FrameWords(sequence, f);
    var h := FrameHeader(sequence, f);
    var body := PayloadOf(f.payload.value);
    BurstAcrossAccepted(body);
    assert words[..2] == HeaderWords(h) && words[2..6] == body;
    var buf := ChangedAcross(words) + rest;
    assert buf[0] == HeaderWords(h)[0] && buf[1] == HeaderWords(h)[1];
    assert buf[2..6] == body[3 := Flipped(body[3], TOP)];
  }
}
