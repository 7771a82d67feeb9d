/** Frames on the JTAG link: header layout and checksums (src/nocbridge/JTAGNOCBridgeInterface.h and .cpp). */
module JtagFrames {
  import opened Bits
  import Crc8
  import Crc32
  import GF2

  /** The bit fields of a header, low bits first; two 32-bit words. */
  datatype Header = Header(ackSeq: nat, credits: nat, sequence: nat, nak: bool, ack: bool,
                           checksum: nat, length: nat, reserved: nat, dma: bool, rpc: bool, payloadPresent: bool)

  predicate InRange(h: Header) {
    h.ackSeq < 0x400 && h.credits < 0x400 && h.sequence < 0x400 && h.checksum < 0x100 && h.length < 0x400
      && h.reserved < 0x800
  }

  function Flag(b: bool): nat { if b then 1 else 0 }

  function Word0(h: Header): nat {
    h.ackSeq + 0x400 * (h.credits + 0x400 * (h.sequence + 0x400 * (Flag(h.nak) + 2 * Flag(h.ack))))
  }

  function Word1(h: Header): nat {
    h.checksum
    + 0x100 * (h.length + 0x400 * (h.reserved + 0x800 * (Flag(h.dma) + 2 * (Flag(h.rpc) + 2 * Flag(h.payloadPresent)))))
  }

  function HeaderOf(w0: nat, w1: nat): Header {
    var a := w0 / 0x400;
    var b := a / 0x400;
    var c := b / 0x400;
    var d := w1 / 0x100;
    var e := d / 0x400;
    var f := e / 0x800;
    Header(w0 % 0x400, a % 0x400, b % 0x400, c % 2 == 1, c / 2 % 2 == 1,
           w1 % 0x100, d % 0x400, e % 0x800, f % 2 == 1, f / 2 % 2 == 1, f / 4 % 2 == 1)
  }

  lemma {:induction false} SplitAt(x: nat, m: nat, n: nat)
    requires x < n
    ensures (x + n * m) / n == m && (x + n * m) % n == x
  {
    DivModUnique(x + n * m, n, m, x);
  }

  lemma {:induction false} FlagBits(a: bool, b: bool, c: bool)
    ensures var f := Flag(a) + 2 * (Flag(b) + 2 * Flag(c));
        f < 8 && f % 2 == Flag(a) && f / 2 % 2 == Flag(b) && f / 4 % 2 == Flag(c)
  {
  }

  lemma {:induction false} FirstWord(h: Header)
    requires InRange(h)
    ensures Word0(h) < TWO_32
    ensures Word0(h) % 0x400 == h.ackSeq && Word0(h) / 0x400 % 0x400 == h.credits
    ensures Word0(h) / 0x400 / 0x400 % 0x400 == h.sequence
    ensures Word0(h) / 0x400 / 0x400 / 0x400 == Flag(h.nak) + 2 * Flag(h.ack)
  {
    hide Flag;
    FlagValue(h.nak); FlagValue(h.ack);
    var c := Flag(h.nak) + 2 * Flag(h.ack);
    SplitAt(h.ackSeq, h.credits + 0x400 * (h.sequence + 0x400 * c), 0x400);
    SplitAt(h.credits, h.sequence + 0x400 * c, 0x400);
    SplitAt(h.sequence, c, 0x400);
  }

  lemma {:induction false} SecondWord(h: Header)
    requires InRange(h)
    ensures Word1(h) < TWO_32
    ensures Word1(h) % 0x100 == h.checksum && Word1(h) / 0x100 % 0x400 == h.length
    ensures Word1(h) / 0x100 / 0x400 % 0x800 == h.reserved
    ensures Word1(h) / 0x100 / 0x400 / 0x800 == Flag(h.dma) + 2 * (Flag(h.rpc) + 2 * Flag(h.payloadPresent))
  {
    hide Flag;
    FlagValue(h.dma); FlagValue(h.rpc); FlagValue(h.payloadPresent);
    var f := Flag(h.dma) + 2 * (Flag(h.rpc) + 2 * Flag(h.payloadPresent));
    SplitAt(h.checksum, h.length + 0x400 * (h.reserved + 0x800 * f), 0x100);
    SplitAt(h.length, h.reserved + 0x800 * f, 0x400);
    SplitAt(h.reserved, f, 0x800);
  }

  lemma {:induction false} HeaderRoundTrip(h: Header)
    requires InRange(h)
    ensures Word0(h) < TWO_32 && Word1(h) < TWO_32
    ensures HeaderOf(Word0(h), Word1(h)) == h
  {
    hide Flag, Word0, Word1;
    FirstWord(h);
    SecondWord(h);
    FlagBits(h.nak, h.ack, false);
    FlagBits(h.dma, h.rpc, h.payloadPresent);
    FlagValue(h.nak); FlagValue(h.ack); FlagValue(h.dma); FlagValue(h.rpc); FlagValue(h.payloadPresent);
      FlagValue(false);
  }

  /** The bits each field stands in. */
  lemma {:induction false} BitLayout(h: Header)
    ensures Word0(h) == h.ackSeq + 0x400 * h.credits + 0x10_0000 * h.sequence
                        + (if h.nak then 0x4000_0000 else 0) + (if h.ack then 0x8000_0000 else 0)
    ensures Word1(h) == h.checksum + 0x100 * h.length + 0x4_0000 * h.reserved + (if h.dma then 0x2000_0000 else 0)
                        + (if h.rpc then 0x4000_0000 else 0) + (if h.payloadPresent then 0x8000_0000 else 0)
  {
  }

  lemma {:induction false} FlagValue(b: bool)
    ensures Flag(b) == if b then 1 else 0
  {
  }

  // ----- header checksum

  /** The checksum over the first seven bytes, which leaves out the checksum field itself. */
  function HeaderChecksum(w0: u32, w1: u32): u8 {
    Crc8.Checksum(Crc8.BytesOf([w0, w1])[..7])
  }

  predicate Verifies(w0: u32, w1: u32) {
    w1 % 0x100 == HeaderChecksum(w0, w1)
  }

  lemma {:induction false} ChecksumIgnoresItself(w0: u32, w1: u32, w1': u32)
    requires w1 / 0x100 == w1' / 0x100
    ensures HeaderChecksum(w0, w1) == HeaderChecksum(w0, w1')
  {
    hide Crc8.Checksum, Crc8.BytesOf, Crc8.BytesPoly, Crc8.Times8;
    Crc8.HeaderPoly(w0, w1);
    Crc8.HeaderPoly(w0, w1');
    Crc8.ChecksumIsRemainder(Crc8.BytesOf([w0, w1])[..7]);
    Crc8.ChecksumIsRemainder(Crc8.BytesOf([w0, w1'])[..7]);
  }

  /** A header with its checksum filled in. */
  function Sealed(h: Header): Header
    requires InRange(h)
  {
    HeaderRoundTrip(h);
    h.(checksum := HeaderChecksum(Word0(h), Word1(h)))
  }

  method ComputeHeaderChecksum(h: Header) returns (r: Header)
    requires InRange(h)
    ensures r == Sealed(h)
  {
    HeaderRoundTrip(h);
    var crc := Crc8.CRC8([Word0(h), Word1(h)], 7);
    r := h.(checksum := crc);
  }

  method VerifyHeaderChecksum(w0: u32, w1: u32) returns (ok: bool)
    ensures ok == Verifies(w0, w1)
  {
    var expected := Crc8.CRC8([w0, w1], 7);
    ok := expected == w1 % 0x100;
  }

  /** Filling in the checksum always makes a header verify. */
  lemma {:induction false} SealedVerifies(h: Header)
    requires InRange(h)
    ensures InRange(Sealed(h)) && Word0(Sealed(h)) < TWO_32 && Word1(Sealed(h)) < TWO_32
    ensures Verifies(Word0(Sealed(h)), Word1(Sealed(h)))
    ensures HeaderOf(Word0(Sealed(h)), Word1(Sealed(h))) == Sealed(h)
  {
    hide HeaderChecksum, HeaderOf;
    HeaderRoundTrip(h);
    var s := Sealed(h);
    HeaderRoundTrip(s);
    var rest := Word1(h) / 0x100;
    ChecksumField(h);
    ChecksumField(s);
    ChecksumIgnoresItself(Word0(h), Word1(h), Word1(s));
  }

  /** The two words of a sealed header. */
  function HeaderWords(h: Header): (ws: seq<u32>)
    requires InRange(h)
    ensures |ws| == 2 && Verifies(ws[0], ws[1]) && HeaderOf(ws[0], ws[1]) == Sealed(h)
  {
    SealedVerifies(h);
    [Word0(Sealed(h)), Word1(Sealed(h))]
  }

  lemma {:induction false} ChecksumField(h: Header)
    requires InRange(h)
    ensures Word1(h) % 0x100 == h.checksum
    ensures Word1(h) / 0x100
        == h.length + 0x400 * (h.reserved + 0x800 * (Flag(h.dma) + 2 * (Flag(h.rpc) + 2 * Flag(h.payloadPresent))))
  {
    hide Flag;
    SplitAt(h.checksum,
      h.length + 0x400 * (h.reserved + 0x800 * (Flag(h.dma) + 2 * (Flag(h.rpc) + 2 * Flag(h.payloadPresent)))), 0x100);
  }

  /** A header verifies exactly when its 64 bits are a multiple of the checksum polynomial. */
  lemma {:induction false} VerifiesIffMultiple(w0: u32, w1: u32)
    ensures Verifies(w0, w1) <==> GF2.Divides(Crc8.POLY, w0 as nat * TWO_32 + w1)
  {
    hide Crc8.Checksum, Crc8.BytesOf;
    Crc8.HeaderVerifies(w0, w1);
  }

  // ----- payload checksum

  function WordBits(w: u32): bv32 {
    w as bv32
  }

  function AsBits(words: seq<u32>): (r: seq<bv32>)
    ensures |r| == |words|
  {
    seq(|words|, i requires 0 <= i < |words| => WordBits(words[i]))
  }

  function ChecksumWord(words: seq<bv32>): bv32 {
    !Crc32.FlipEndian(Crc32.Register(Crc32.BytesOf(words)))
  }

  function PayloadChecksum(words: seq<u32>): u32 {
    ChecksumWord(AsBits(words)) as u32
  }

  lemma {:induction false} WholePayload(words: seq<bv32>)
    ensures ChecksumWord(words) == !Crc32.FlipEndian(Crc32.Register(Crc32.BytesOf(words)[..4 * |words|]))
  {
    assert Crc32.BytesOf(words)[..4 * |words|] == Crc32.BytesOf(words);
  }

  method ComputePayloadChecksum(words: seq<u32>) returns (crc: u32)
    ensures crc == PayloadChecksum(words)
  {
    hide Crc32.Register, Crc32.FlipEndian, Crc32.BytesOf, ChecksumWord, AsBits;
    WholePayload(AsBits(words));
    var r := Crc32.CRC32(AsBits(words), 4 * |words|);
    crc := r as u32;
  }
}
