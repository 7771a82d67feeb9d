/** RPC messages and their two packed forms (src/nocbridge/RPCMessage.cpp). */
module RpcMessages {
  import opened Bits

  /** `kind` is the C field `type`, an unsigned int of which the wire carries three bits. */
  datatype RpcMessage = RpcMessage(src: nat, dst: nat, callnum: nat, kind: nat, data0: nat, data1: nat, data2: nat)

  /** The widths of the C fields. */
  predicate Typed(m: RpcMessage) {
    m.src < 0x1_0000 && m.dst < 0x1_0000 && m.callnum < 0x100 && m.kind < TWO_32
    && m.data0 < TWO_32 && m.data1 < TWO_32 && m.data2 < TWO_32
  }

  /** What fits on the wire: a 3-bit type and 21 bits of the first data word. */
  predicate Fits(m: RpcMessage) {
    m.kind < 8 && m.data0 < 0x20_0000
  }

  // ----- word form

  function Head(m: RpcMessage): nat {
    Or(Or(m.callnum * 0x100_0000, m.kind * 0x20_0000 % TWO_32), m.data0)
  }

  method PackWords(m: RpcMessage) returns (buf: seq<nat>)
    requires Typed(m)
    ensures buf == [m.src * 0x1_0000 + m.dst, Head(m), m.data1, m.data2]
    ensures forall i :: 0 <= i < 4 ==> buf[i] < TWO_32
  {
    hide Or;
    ConcatHalves(m.src, m.dst);
    HeadBound(m);
    buf := [Or(m.src * 0x1_0000, m.dst), Head(m), m.data1, m.data2];
  }

  function UnpackWords(buf: seq<nat>): RpcMessage
    requires |buf| >= 4
  {
    RpcMessage(buf[0] / 0x1_0000, buf[0] % 0x1_0000, buf[1] / 0x100_0000, buf[1] / 0x20_0000 % 8,
               buf[1] % 0x20_0000, buf[2], buf[3])
  }

  function PackedWords(m: RpcMessage): (buf: seq<nat>)
    ensures |buf| == 4
  {
    [m.src * 0x1_0000 + m.dst, Head(m), m.data1, m.data2]
  }

  lemma {:induction false} ConcatHalves(h: nat, l: nat)
    requires l < 0x1_0000
    ensures Or(h * 0x1_0000, l) == h * 0x1_0000 + l
  {
    hide Or;
    Pow2Values();
    OrConcat(h, l, 16);
  }

  lemma PowersUsed()
    ensures Pow2(21) == 0x20_0000 && Pow2(24) == 0x100_0000 && Pow2(32) == TWO_32
  {
    Pow2Values();
    assert Pow2(24) == 2 * Pow2(23) == 4 * Pow2(22) == 8 * Pow2(21);
  }

  lemma {:induction false} HeadBound(m: RpcMessage)
    requires Typed(m)
    ensures Head(m) < TWO_32
  {
    hide Or;
    PowersUsed();
    var type' := m.kind * 0x20_0000 % TWO_32;
    OrBound(m.callnum * 0x100_0000, type', 32);
    OrBound(Or(m.callnum * 0x100_0000, type'), m.data0, 32);
  }

  lemma {:induction false} HeadOfFitting(m: RpcMessage)
    requires Typed(m) && Fits(m)
    ensures Head(m) == m.callnum * 0x100_0000 + m.kind * 0x20_0000 + m.data0
  {
    hide Or;
    PowersUsed();
    OrConcat(m.callnum, m.kind * 0x20_0000, 24);
    var high := m.callnum * 8 + m.kind;
    OrConcat(high, m.data0, 21);
  }

  lemma {:induction false} HeadFields(c: nat, k: nat, d: nat)
    requires k < 8 && d < 0x20_0000
    ensures var h := c * 0x100_0000 + k * 0x20_0000 + d;
            h / 0x100_0000 == c && h / 0x20_0000 % 8 == k && h % 0x20_0000 == d
  {
    var h := c * 0x100_0000 + k * 0x20_0000 + d;
    DivModUnique(h, 0x100_0000, c, k * 0x20_0000 + d);
    DivModUnique(h, 0x20_0000, c * 8 + k, d);
    DivModUnique(c * 8 + k, 8, c, k);
  }

  /** Unpacking recovers the message exactly when it fits on the wire. */
  lemma {:induction false} WordsRoundTrip(m: RpcMessage)
    requires Typed(m)
    ensures UnpackWords(PackedWords(m)) == m <==> Fits(m)
  {
    hide Head;
    if Fits(m) {
      HeadOfFitting(m);
      HeadFields(m.callnum, m.kind, m.data0);
      DivModUnique(m.src * 0x1_0000 + m.dst, 0x1_0000, m.src, m.dst);
    }
  }

  /** Every four words are a message's. */
  lemma {:induction false} WordsOfUnpacked(buf: seq<nat>)
    requires |buf| == 4 && forall i :: 0 <= i < 4 ==> buf[i] < TWO_32
    ensures var m := UnpackWords(buf); Typed(m) && Fits(m) && PackedWords(m) == buf
  {
    hide Head;
    var m, h := UnpackWords(buf), buf[1];
    DivModUnique(h, 0x100_0000, h / 0x20_0000 / 8, h / 0x20_0000 % 8 * 0x20_0000 + h % 0x20_0000);
    assert Typed(m) && Fits(m);
    HeadOfFitting(m);
  }

  // ----- byte form

  function WordToBytes(w: nat): (bs: seq<nat>)
    ensures |bs| == 4
  {
    [w / 0x100_0000, w / 0x1_0000 % 0x100, w / 0x100 % 0x100, w % 0x100]
  }

  /** The 16 bytes the switch protocol sends. Excess bits of the type and the first data word are cut off. */
  function PackedBytes(m: RpcMessage): (buf: seq<nat>)
    ensures |buf| == 16
  {
    [m.src / 0x100, m.src % 0x100, m.dst / 0x100, m.dst % 0x100, m.callnum,
     m.data0 / 0x1_0000 % 0x20 + m.kind % 8 * 0x20, m.data0 / 0x100 % 0x100, m.data0 % 0x100]
    + WordToBytes(m.data1) + WordToBytes(m.data2)
  }

  method PackBytes(m: RpcMessage) returns (buf: seq<nat>)
    requires Typed(m)
    ensures buf == PackedBytes(m) && forall i :: 0 <= i < 16 ==> buf[i] < 0x100
  {
    hide Or;
    BytesBounded(m);
    TypeAndData(m.kind % 8, m.data0 / 0x1_0000 % 0x20);
    buf := [m.src / 0x100, m.src % 0x100, m.dst / 0x100, m.dst % 0x100, m.callnum,
            Or(m.data0 / 0x1_0000 % 0x20, m.kind % 8 * 0x20), m.data0 / 0x100 % 0x100, m.data0 % 0x100]
         + WordToBytes(m.data1) + WordToBytes(m.data2);
  }

  lemma {:induction false} TypeAndData(k: nat, d: nat)
    requires k < 8 && d < 0x20
    ensures Or(d, k * 0x20) == d + k * 0x20
  {
    hide Or;
    Pow2Values();
    OrSym(d, k * 0x20);
    OrConcat(k, d, 5);
  }

  lemma {:induction false} BytesBounded(m: RpcMessage)
    requires Typed(m)
    ensures forall i :: 0 <= i < 16 ==> PackedBytes(m)[i] < 0x100
  {
    WordBytesBounded(m.data1);
    WordBytesBounded(m.data2);
  }

  lemma {:induction false} WordBytesBounded(w: nat)
    requires w < TWO_32
    ensures forall i :: 0 <= i < 4 ==> WordToBytes(w)[i] < 0x100
  {
  }

  function BytesToWord(bs: seq<nat>): nat
    requires |bs| == 4
  {
    bs[0] * 0x100_0000 + bs[1] * 0x1_0000 + bs[2] * 0x100 + bs[3]
  }

  function UnpackBytes(buf: seq<nat>): RpcMessage
    requires |buf| == 16
  {
    RpcMessage(buf[0] * 0x100 + buf[1], buf[2] * 0x100 + buf[3], buf[4], buf[5] / 0x20,
               buf[5] % 0x20 * 0x1_0000 + buf[6] * 0x100 + buf[7], BytesToWord(buf[8..12]), BytesToWord(buf[12..16]))
  }

  lemma {:induction false} BytesOfWord(w: nat)
    ensures BytesToWord(WordToBytes(w)) == w
  {
    var h, l := w / 0x1_0000, w % 0x1_0000;
    DivModUnique(w, 0x100_0000, h / 0x100, h % 0x100 * 0x1_0000 + l);
    DivModUnique(w, 0x100, h * 0x100 + l / 0x100, l % 0x100);
    DivModUnique(h * 0x100 + l / 0x100, 0x100, h, l / 0x100);
  }

  /** What the byte form carries of a message: all of it exactly when it fits. */
  lemma {:induction false} BytesRoundTrip(m: RpcMessage)
    requires Typed(m)
    ensures UnpackBytes(PackedBytes(m)) == m.(kind := m.kind % 8, data0 := m.data0 % 0x20_0000)
    ensures UnpackBytes(PackedBytes(m)) == m <==> Fits(m)
  {
    hide WordToBytes, BytesToWord;
    var buf := PackedBytes(m);
    assert buf[8..12] == WordToBytes(m.data1);
    assert buf[12..16] == WordToBytes(m.data2);
    BytesOfWord(m.data1);
    BytesOfWord(m.data2);
    TypeByte(m.kind % 8, m.data0 / 0x1_0000 % 0x20);
    LowBytes(m.data0);
  }

  lemma {:induction false} TypeByte(k: nat, d: nat)
    requires k < 8 && d < 0x20
    ensures (d + k * 0x20) / 0x20 == k && (d + k * 0x20) % 0x20 == d
  {
  }

  lemma {:induction false} LowBytes(d: nat)
    ensures d / 0x1_0000 % 0x20 * 0x1_0000 + d / 0x100 % 0x100 * 0x100 + d % 0x100 == d % 0x20_0000
  {
    var a, b, c, e := d / 0x20_0000, d / 0x1_0000 % 0x20, d / 0x100 % 0x100, d % 0x100;
    var h := d / 0x1_0000;
    assert h == h / 0x20 * 0x20 + b;
    var l := d % 0x1_0000;
    DivModUnique(d, 0x100, h * 0x100 + l / 0x100, l % 0x100);
    DivModUnique(h * 0x100 + l / 0x100, 0x100, h, l / 0x100);
    DivModUnique(d, 0x20_0000, h / 0x20, b * 0x1_0000 + l);
  }

  /** Which byte carries what: source, destination and data words with the high byte first, the function number in byte
      4 and the type in the top three bits of byte 5. */
  lemma {:induction false} ByteLayout(m: RpcMessage)
    requires Typed(m)
    ensures var b := PackedBytes(m);
      && b[0] * 0x100 + b[1] == m.src && b[2] * 0x100 + b[3] == m.dst && b[4] == m.callnum
      && b[5] / 0x20 == m.kind % 8 && b[5] % 0x20 * 0x1_0000 + b[6] * 0x100 + b[7] == m.data0 % 0x20_0000
      && b[8] * 0x100_0000 + b[9] * 0x1_0000 + b[10] * 0x100 + b[11] == m.data1
      && b[12] * 0x100_0000 + b[13] * 0x1_0000 + b[14] * 0x100 + b[15] == m.data2
      && forall i :: 0 <= i < 16 ==> b[i] < 0x100
  {
    hide WordToBytes;
    BytesBounded(m);
    BytesOfWord(m.data1);
    BytesOfWord(m.data2);
    TypeByte(m.kind % 8, m.data0 / 0x1_0000 % 0x20);
    LowBytes(m.data0);
  }

  /** Every sixteen bytes are a message's. */
  lemma {:induction false} BytesOfUnpacked(buf: seq<nat>)
    requires |buf| == 16 && forall i :: 0 <= i < 16 ==> buf[i] < 0x100
    ensures var m := UnpackBytes(buf); Typed(m) && Fits(m) && PackedBytes(m) == buf
  {
    hide WordToBytes, BytesToWord;
    var m := UnpackBytes(buf);
    WordOfBytes(buf[8..12]);
    WordOfBytes(buf[12..16]);
    TwoBytes(buf[0], buf[1]);
    TwoBytes(buf[2], buf[3]);
    DataBytes(buf[5], buf[6], buf[7]);
    var out := PackedBytes(m);
    assert out[8..12] == buf[8..12] && out[12..16] == buf[12..16];
    assert out == out[..8] + out[8..12] + out[12..16];
    assert buf == buf[..8] + buf[8..12] + buf[12..16];
  }

  lemma {:induction false} TwoBytes(a: nat, b: nat)
    requires a < 0x100 && b < 0x100
    ensures (a * 0x100 + b) / 0x100 == a && (a * 0x100 + b) % 0x100 == b && a * 0x100 + b < 0x1_0000
  {
  }

  lemma {:induction false} DataBytes(t: nat, b: nat, c: nat)
    requires t < 0x100 && b < 0x100 && c < 0x100
    ensures var d := t % 0x20 * 0x1_0000 + b * 0x100 + c;
            d < 0x20_0000 && t / 0x20 < 8
            && d / 0x1_0000 % 0x20 + t / 0x20 % 8 * 0x20 == t && d / 0x100 % 0x100 == b && d % 0x100 == c
  {
    var d := t % 0x20 * 0x1_0000 + b * 0x100 + c;
    DivModUnique(d, 0x1_0000, t % 0x20, b * 0x100 + c);
    DivModUnique(d, 0x100, t % 0x20 * 0x100 + b, c);
    DivModUnique(t % 0x20 * 0x100 + b, 0x100, t % 0x20, b);
  }

  lemma {:induction false} WordOfBytes(bs: seq<nat>)
    requires |bs| == 4 && forall i :: 0 <= i < 4 ==> bs[i] < 0x100
    ensures WordToBytes(BytesToWord(bs)) == bs && BytesToWord(bs) < TWO_32
  {
    var w := BytesToWord(bs);
    DivModUnique(w, 0x100_0000, bs[0], bs[1] * 0x1_0000 + bs[2] * 0x100 + bs[3]);
    DivModUnique(w, 0x1_0000, bs[0] * 0x100 + bs[1], bs[2] * 0x100 + bs[3]);
    DivModUnique(bs[0] * 0x100 + bs[1], 0x100, bs[0], bs[1]);
    DivModUnique(w, 0x100, bs[0] * 0x1_0000 + bs[1] * 0x100 + bs[2], bs[3]);
    DivModUnique(bs[0] * 0x1_0000 + bs[1] * 0x100 + bs[2], 0x100, bs[0] * 0x100 + bs[1], bs[2]);
  }
}
