/** ASN.1 BER values as byte sequences (legacy-trunk/src/asn1/BER.c; ITU-T X.690): what the encoders write, what the
    decoders read, and when the one undoes the other. A read past the end of the message is a failure here. */
module Ber {
  import opened Bits
  import opened Options

  const ASN1_TYPE_INTEGER: u8 := 0x02
  const ASN1_TYPE_OCTET_STRING: u8 := 0x04
  const ASN1_TYPE_NULL: u8 := 0x05
  const ASN1_TYPE_OID: u8 := 0x06
  const ASN1_TYPE_SEQUENCE_CONSTRUCTED: u8 := 0x30
  const ASN1_TYPE_SNMP_NO_SUCH_OBJECT: u8 := 0x80
  const ASN1_TYPE_SNMP_END_OF_MIB: u8 := 0x82
  const ASN1_TYPE_SNMP_GETREQUEST: u8 := 0xA0
  const ASN1_TYPE_SNMP_GETNEXTREQUEST: u8 := 0xA1
  const ASN1_TYPE_SNMP_GETRESPONSE: u8 := 0xA2
  const ASN1_TYPE_SNMP_SETREQUEST: u8 := 0xA3

  // ----- decoding

  datatype Header = Header(kind: nat, length: nat, pos: nat)
  datatype Decoded<+T> = Decoded(value: T, pos: nat)

  function BigEndian(bytes: seq<u8>): nat {
    if |bytes| == 0 then 0 else BigEndian(bytes[..|bytes| - 1]) * 0x100 + bytes[|bytes| - 1] as nat
  }

  /** One type octet; then a short length, or one of at most two octets. */
  function ChunkHeader(message: seq<u8>, start: nat): Option<Header> {
    if start + 2 > |message| then None
    else
      var kind, len := message[start] as nat, message[start + 1] as nat;
      if kind % 0x20 == 0x1f || len == 0x80 then None
      else if len < 0x80 then Some(Header(kind, len, start + 2))
      else if len > 0x82 || start + 2 + (len - 0x80) > |message| then None
      else Some(Header(kind, BigEndian(message[start + 2..start + 2 + (len - 0x80)]), start + 2 + (len - 0x80)))
  }

  function IntegerAt(message: seq<u8>, pos: nat, length: nat): Option<Decoded<nat>> {
    if length > 4 || pos + length > |message| then None
    else Some(Decoded(BigEndian(message[pos..pos + length]), pos + length))
  }

  function ExpectedIntegerAt(message: seq<u8>, start: nat): Option<Decoded<nat>> {
    var h :- ChunkHeader(message, start);
    if h.kind != ASN1_TYPE_INTEGER then None else IntegerAt(message, h.pos, h.length)
  }

  function StringAt(message: seq<u8>, pos: nat, length: nat, maxlen: nat): Option<Decoded<seq<u8>>> {
    if length >= maxlen || pos + length > |message| then None
    else Some(Decoded(message[pos..pos + length], pos + length))
  }

  /** A number in base 128, up to the first octet whose top bit is clear; kept in 32 bits. */
  function NumberAt(message: seq<u8>, pos: nat, sofar: nat): Option<Decoded<nat>>
    decreases |message| - pos
  {
    if pos >= |message| then None
    else
      var value := sofar * 0x80 % TWO_32 + message[pos] as nat % 0x80;
      if message[pos] < 0x80 then Some(Decoded(value, pos + 1)) else NumberAt(message, pos + 1, value)
  }

  function NumbersAt(message: seq<u8>, pos: nat, end: nat, buflen: nat, sofar: seq<nat>): Option<Decoded<seq<nat>>>
    decreases |message| - pos
  {
    if pos >= end then Some(Decoded(sofar, pos))
    else
      NumberEndsLater(message, pos, 0);
      var n :- NumberAt(message, pos, 0);
      if |sofar| >= buflen then None else NumbersAt(message, n.pos, end, buflen, sofar + [n.value])
  }

  lemma {:induction false} NumberEndsLater(message: seq<u8>, pos: nat, sofar: nat)
    ensures NumberAt(message, pos, sofar).Some? ==> pos < NumberAt(message, pos, sofar).value.pos <= |message|
    decreases |message| - pos
  {
    if pos < |message| && message[pos] >= 0x80 {
      NumberEndsLater(message, pos + 1, sofar * 0x80 % TWO_32 + message[pos] as nat % 0x80);
    }
  }

  function OidAt(message: seq<u8>, pos: nat, length: nat, buflen: nat): Option<Decoded<seq<nat>>> {
    if buflen < 8 || pos >= |message| || message[pos] != 0x2b then None
    else NumbersAt(message, pos + 1, pos + length, buflen, [1, 3])
  }

  // ----- encoding

  /** The octets of an integer's value: the lowest, and each higher one whose mask has a bit set. */
  function IntegerContent(x: u32): (content: seq<u8>)
    ensures 1 <= |content| <= 4
  {
    (if HasTop(x) then [x / 0x100_0000] else [])
    + (if HasThird(x) then [x / 0x1_0000 % 0x100] else [])
    + (if HasSecond(x) then [x / 0x100 % 0x100] else [])
    + [x % 0x100]
  }

  /** The masks 0xff800000, 0x00ff8000 and 0x0000ff80. */
  predicate HasTop(x: nat) { x / 0x80_0000 != 0 }
  predicate HasThird(x: nat) { x / 0x8000 % 0x200 != 0 }
  predicate HasSecond(x: nat) { x / 0x80 % 0x200 != 0 }

  function EncodedInteger(x: u32): seq<u8> {
    [ASN1_TYPE_INTEGER, |IntegerContent(x)|] + IntegerContent(x)
  }

  function EncodedString(data: seq<u8>): seq<u8> {
    [ASN1_TYPE_OCTET_STRING]
    + (if |data| < 128 then [|data|] else [0x82, |data| / 0x100 % 0x100, |data| % 0x100]) + data
  }

  function NumberBytes(d: u16): (bytes: seq<u8>)
    ensures 1 <= |bytes| <= 3
  {
    (if d > 0x3FF then [0x80 + d / 0x4000] else [])
    + (if d > 127 then [0x80 + d / 0x80 % 0x80] else [])
    + [d % 0x80]
  }

  function NumbersBytes(oid: seq<u16>): seq<u8> {
    if |oid| == 0 then [] else NumbersBytes(oid[..|oid| - 1]) + NumberBytes(oid[|oid| - 1])
  }

  /** 1.3, then 6.1, then the numbers. */
  function OidBody(oid: seq<u16>): seq<u8> {
    [0x2b, 0x06, 0x01] + NumbersBytes(oid)
  }

  function EncodedOid(oid: seq<u16>): seq<u8> {
    [ASN1_TYPE_OID, 0x81, |OidBody(oid)| % 0x100] + OidBody(oid)
  }

  /** A constructed value, whose length octets say how long its content is. */
  function Sequence(kind: u8, content: seq<u8>): seq<u8> {
    [kind, 0x82, |content| / 0x100 % 0x100, |content| % 0x100] + content
  }

  // ----- where a chunk stands in a message

  predicate Holds(message: seq<u8>, pos: nat, chunk: seq<u8>) {
    pos + |chunk| <= |message| && message[pos..pos + |chunk|] == chunk
  }

  lemma {:induction false} HoldsSplit(message: seq<u8>, pos: nat, a: seq<u8>, b: seq<u8>)
    requires Holds(message, pos, a + b)
    ensures Holds(message, pos, a) && Holds(message, pos + |a|, b)
  {
    assert a == (a + b)[..|a|] && b == (a + b)[|a|..];
  }

  lemma {:induction false} HoldsAt(message: seq<u8>, pos: nat, chunk: seq<u8>, i: nat)
    requires Holds(message, pos, chunk) && i < |chunk|
    ensures message[pos + i] == chunk[i]
  {
    assert message[pos..pos + |chunk|][i] == chunk[i];
  }

  // ----- integers

  lemma {:induction false} BigEndianNext(bytes: seq<u8>, b: u8)
    ensures BigEndian([]) == 0
    ensures BigEndian(bytes + [b]) == BigEndian(bytes) * 0x100 + b as nat
  {
    assert (bytes + [b])[..|bytes|] == bytes;
  }

  /** A byte the encoder leaves out below one it writes is lost. */
  predicate Survives(x: nat) {
    (HasTop(x) ==> HasThird(x)) && (HasThird(x) ==> HasSecond(x))
  }

  /** The value of the octets written. */
  lemma {:induction false} KeptOctets(x: u32, top: seq<u8>, third: seq<u8>, second: seq<u8>)
    requires top == (if HasTop(x) then [x / 0x100_0000] else [])
    requires third == if HasThird(x) then [x / 0x1_0000 % 0x100] else []
    requires second == if HasSecond(x) then [x / 0x100 % 0x100] else []
    ensures BigEndian(IntegerContent(x)) == BigEndian(top + third + second) * 0x100 + x as nat % 0x100
    ensures BigEndian(top + third + second) ==
            if |second| == 0 then BigEndian(top + third) else BigEndian(top + third) * 0x100 + second[0] as nat
    ensures BigEndian(top + third) == if |third| == 0 then BigEndian(top) else BigEndian(top) * 0x100 + third[0] as nat
    ensures BigEndian(top) == if |top| == 0 then 0 else top[0] as nat
  {
    hide BigEndian, HasTop, HasThird, HasSecond;
    BigEndianNext([], 0);
    BigEndianNext(top + third + second, x % 0x100);
    assert top + third + [] == top + third && top + [] == top;
    if |second| > 0 {
      BigEndianNext(top + third, second[0]);
    }
    if |third| > 0 {
      BigEndianNext(top, third[0]);
    }
    if |top| > 0 {
      BigEndianNext([], top[0]);
      assert [] + top == top;
    }
  }

  /** The four octets of a word, and what each mask says of them. */
  lemma {:induction false} Octets(x: nat, t: nat, u: nat, v: nat, w: nat)
    requires t == x / 0x100_0000 && u == x / 0x1_0000 % 0x100 && v == x / 0x100 % 0x100 && w == x % 0x100
    ensures x == t * 0x100_0000 + u * 0x1_0000 + v * 0x100 + w
    ensures u < 0x100 && v < 0x100 && w < 0x100
    ensures HasTop(x) <==> t > 0 || u >= 0x80
    ensures HasThird(x) <==> u > 0 || v >= 0x80
    ensures HasSecond(x) <==> v > 0 || w >= 0x80
  {
    var h := x / 0x1_0000;
    var g := x / 0x100;
    DivModUnique(x, 0x100_0000, h / 0x100, h % 0x100 * 0x1_0000 + x % 0x1_0000);
    DivModUnique(g, 0x100, h, x % 0x1_0000 / 0x100);
    DivModUnique(x, 0x80_0000, t * 2 + u / 0x80, u % 0x80 * 0x1_0000 + v * 0x100 + w);
    DivModUnique(x, 0x8000, h * 2 + v / 0x80, v % 0x80 * 0x100 + w);
    DivModUnique(h * 2 + v / 0x80, 0x200, t, u * 2 + v / 0x80);
    DivModUnique(x, 0x80, g * 2 + w / 0x80, w % 0x80);
    DivModUnique(g * 2 + w / 0x80, 0x200, h, v * 2 + w / 0x80);
  }

  /** What an encoded integer decodes to: never more than the integer. */
  function Kept(x: u32): (r: u32)
    ensures r <= x
  {
    KeptOrLost(x);
    BigEndian(IntegerContent(x))
  }

  lemma {:induction false} KeptOrLost(x: u32)
    ensures BigEndian(IntegerContent(x)) <= x
    ensures BigEndian(IntegerContent(x)) == x <==> Survives(x)
  {
    hide BigEndian, IntegerContent, HasTop, HasThird, HasSecond;
    var t, u, v, w := x / 0x100_0000, x / 0x1_0000 % 0x100, x / 0x100 % 0x100, x % 0x100;
    Octets(x, t, u, v, w);
    KeptOctets(x, if HasTop(x) then [x / 0x100_0000] else [], if HasThird(x) then [x / 0x1_0000 % 0x100] else [],
               if HasSecond(x) then [x / 0x100 % 0x100] else []);
  }

  /** Decoding recovers an encoded integer exactly when no inner byte is left out. */
  lemma {:induction false} IntegerRoundTrip(x: u32)
    ensures Kept(x) == x <==> Survives(x)
  {
    hide BigEndian, IntegerContent, Survives;
    KeptOrLost(x);
  }

  /** The value of a content as a two's complement number (section 8.3.3 of X.690). */
  function SignedValue(content: seq<u8>): int
    requires |content| > 0
  {
    BigEndian(content) - if content[0] >= 0x80 then Pow2(8 * |content|) else 0
  }

  /** The first nine bits are neither all zero nor all one (section 8.3.2 of X.690). */
  predicate Shortest(content: seq<u8>) {
    |content| > 1 ==> !(content[0] == 0 && content[1] < 0x80) && !(content[0] == 0xff && content[1] >= 0x80)
  }

  /** The octets written are those that X.690 wants for the integer exactly below 2^31, and then for what survives: no
      zero octet is put before a set sign bit. */
  lemma {:induction false} ContentIsTwosComplement(x: u32)
    ensures SignedValue(IntegerContent(x)) == x && Shortest(IntegerContent(x)) <==> x < 0x8000_0000 && Survives(x)
  {
    hide BigEndian, IntegerContent, Survives, Pow2;
    KeptOrLost(x);
    FirstOctet(x);
    Pow2Values();
    assert Pow2(8 * |IntegerContent(x)|) > 0;
    if x < 0x8000_0000 && Survives(x) {
      IsShortest(x);
    }
  }

  lemma {:induction false} FirstOctet(x: u32)
    ensures IntegerContent(x)[0] >= 0x80 <==> x >= 0x8000_0000
  {
    hide HasTop, HasThird, HasSecond;
    Octets(x, x / 0x100_0000, x / 0x1_0000 % 0x100, x / 0x100 % 0x100, x % 0x100);
  }

  lemma {:induction false} IsShortest(x: u32)
    requires x < 0x8000_0000 && Survives(x)
    ensures Shortest(IntegerContent(x))
  {
    hide HasTop, HasThird, HasSecond;
    Octets(x, x / 0x100_0000, x / 0x1_0000 % 0x100, x / 0x100 % 0x100, x % 0x100);
  }

  lemma {:induction false} SmallSurvives(x: nat)
    requires x < 0x1_0000
    ensures Survives(x)
  {
    Octets(x, x / 0x100_0000, x / 0x1_0000 % 0x100, x / 0x100 % 0x100, x % 0x100);
  }

  /** The smallest integer that is not decoded as it was encoded. */
  lemma FirstLost()
    ensures !Survives(0x1_0000) && Kept(0x1_0000) == 0x100
  {
    hide BigEndian;
    var x: u32 := 0x1_0000;
    KeptOctets(x, [], [x / 0x1_0000 % 0x100], []);
  }

  // ----- headers and what they delimit

  lemma {:induction false} SequenceHeader(message: seq<u8>, pos: nat, kind: u8, content: seq<u8>)
    requires Holds(message, pos, Sequence(kind, content)) && |content| < 0x1_0000 && kind % 0x20 != 0x1f
    ensures ChunkHeader(message, pos) == Some(Header(kind, |content|, pos + 4))
    ensures Holds(message, pos + 4, content)
  {
    hide BigEndian;
    var n := |content|;
    var header: seq<u8> := [kind, 0x82, n / 0x100 % 0x100, n % 0x100];
    HoldsSplit(message, pos, header, content);
    assert message[pos..pos + 4] == header;
    assert message[pos] == header[0] && message[pos + 1] == header[1];
    assert message[pos + 2..pos + 4] == [] + [header[2]] + [header[3]];
    BigEndianNext([], header[2]);
    BigEndianNext([] + [header[2]], header[3]);
    assert n / 0x100 % 0x100 * 0x100 + n % 0x100 == n by {
      SmallParts(n);
    }
  }

  /** What a header is read as: no type beyond 30, a length below 128 in its own octet, otherwise in one octet or two,
      the high one first; anything else, or less, is a failure. */
  lemma {:induction false} HeadersAre(message: seq<u8>, start: nat)
    ensures start + 2 > |message| ==> ChunkHeader(message, start) == None
    ensures start + 2 <= |message| ==>
      var kind, len, rest, h := message[start], message[start + 1], |message| - start - 2, ChunkHeader(message, start);
      if kind % 0x20 == 0x1f then h == None
      else if len < 0x80 then h == Some(Header(kind, len, start + 2))
      else if len == 0x81 && rest >= 1 then h == Some(Header(kind, message[start + 2], start + 3))
      else if len == 0x82 && rest >= 2 then
        h == Some(Header(kind, message[start + 2] as nat * 0x100 + message[start + 3], start + 4))
      else h == None
  {
    hide BigEndian;
    if start + 3 <= |message| && message[start + 1] == 0x81 {
      assert message[start + 2..start + 3] == [] + [message[start + 2]];
      BigEndianNext([], message[start + 2]);
    } else if start + 4 <= |message| && message[start + 1] == 0x82 {
      assert message[start + 2..start + 4] == [] + [message[start + 2]] + [message[start + 3]];
      BigEndianNext([], message[start + 2]);
      BigEndianNext([] + [message[start + 2]], message[start + 3]);
    }
  }

  /** When an integer or a string cannot be read: it is another type, too long, or not all there. */
  lemma {:induction false} ValuesFail(message: seq<u8>, start: nat, length: nat, maxlen: nat)
    ensures ExpectedIntegerAt(message, start) == None <==>
        ChunkHeader(message, start) == None
        || var h := ChunkHeader(message, start).value; h.kind != 0x02 || h.length > 4 || h.pos + h.length > |message|
    ensures StringAt(message, start, length, maxlen) == None <==> length >= maxlen || start + length > |message|
  {
    hide ChunkHeader, BigEndian;
  }

  lemma {:induction false} SmallParts(n: nat)
    requires n < 0x1_0000
    ensures n / 0x100 % 0x100 * 0x100 + n % 0x100 == n
  {
  }

  lemma {:induction false} ShortHeader(message: seq<u8>, pos: nat, kind: u8, len: u8, content: seq<u8>)
    requires Holds(message, pos, [kind, len] + content) && len < 0x80 && kind % 0x20 != 0x1f
    ensures ChunkHeader(message, pos) == Some(Header(kind, len, pos + 2)) && Holds(message, pos + 2, content)
  {
    hide BigEndian;
    var header: seq<u8> := [kind, len];
    HoldsSplit(message, pos, header, content);
    assert message[pos..pos + 2] == header;
    assert message[pos] == header[0] && message[pos + 1] == header[1];
  }

  lemma {:induction false} IntegerDecodes(message: seq<u8>, pos: nat, x: u32)
    requires Holds(message, pos, EncodedInteger(x))
    ensures ExpectedIntegerAt(message, pos) == Some(Decoded(Kept(x), pos + |EncodedInteger(x)|))
  {
    hide BigEndian, IntegerContent, ChunkHeader;
    var content := IntegerContent(x);
    ShortHeader(message, pos, ASN1_TYPE_INTEGER, |content|, content);
  }

  /** A string of less than 65536 bytes decodes, into a buffer it fits with its terminator, to itself. */
  lemma {:induction false} StringDecodes(message: seq<u8>, pos: nat, data: seq<u8>, maxlen: nat)
    requires Holds(message, pos, EncodedString(data)) && |data| < 0x1_0000
    ensures ChunkHeader(message, pos).Some?
    ensures var h := ChunkHeader(message, pos).value;
            h.kind == ASN1_TYPE_OCTET_STRING && h.length == |data|
            && StringAt(message, h.pos, h.length, maxlen)
               == (if |data| < maxlen then Some(Decoded(data, pos + |EncodedString(data)|)) else None)
  {
    hide ChunkHeader, BigEndian;
    if |data| < 128 {
      assert EncodedString(data) == [ASN1_TYPE_OCTET_STRING, |data|] + data;
      ShortHeader(message, pos, ASN1_TYPE_OCTET_STRING, |data|, data);
    } else {
      assert EncodedString(data) == Sequence(ASN1_TYPE_OCTET_STRING, data);
      SequenceHeader(message, pos, ASN1_TYPE_OCTET_STRING, data);
    }
  }

  // ----- object identifiers

  lemma {:induction false} NumberParts(d: nat)
    requires d < 0x1_0000
    ensures d == d / 0x4000 * 0x4000 + d / 0x80 % 0x80 * 0x80 + d % 0x80 && d / 0x4000 < 4
    ensures d <= 0x3FF ==> d / 0x80 % 0x80 == d / 0x80 && d / 0x4000 == 0
    ensures d <= 127 ==> d % 0x80 == d
  {
    DivModUnique(d, 0x4000, d / 0x4000, d / 0x80 % 0x80 * 0x80 + d % 0x80);
  }

  lemma {:induction false} NumberDecodes(message: seq<u8>, pos: nat, d: u16)
    requires Holds(message, pos, NumberBytes(d))
    ensures NumberAt(message, pos, 0) == Some(Decoded(d, pos + |NumberBytes(d)|))
  {
    hide NumberAt;
    NumberParts(d);
    var bytes := NumberBytes(d);
    HoldsAt(message, pos, bytes, 0);
    NumberStep(message, pos, 0);
    if d > 127 {
      HoldsAt(message, pos, bytes, 1);
      if d > 0x3FF {
        HoldsAt(message, pos, bytes, 2);
        NumberStep(message, pos + 1, d as nat / 0x4000);
        NumberStep(message, pos + 2, d as nat / 0x4000 * 0x80 + d as nat / 0x80 % 0x80);
      } else {
        NumberStep(message, pos + 1, d as nat / 0x80 % 0x80);
      }
    }
  }

  lemma {:induction false} NumberStep(message: seq<u8>, pos: nat, sofar: nat)
    requires pos < |message| && sofar * 0x80 < TWO_32
    ensures var value := sofar * 0x80 + message[pos] as nat % 0x80;
            NumberAt(message, pos, sofar)
            == if message[pos] < 0x80 then Some(Decoded(value, pos + 1)) else NumberAt(message, pos + 1, value)
  {
  }

  lemma {:induction false} NumbersFront(oid: seq<u16>)
    requires |oid| > 0
    ensures NumbersBytes(oid) == NumberBytes(oid[0]) + NumbersBytes(oid[1..])
  {
    hide NumberBytes;
    if |oid| == 1 {
      assert oid[..0] == oid[1..];
    } else {
      var front := oid[..|oid| - 1];
      NumbersFront(front);
      assert front[1..] == oid[1..][..|oid| - 2] && oid[1..][|oid| - 2] == oid[|oid| - 1];
    }
  }

  /** The numbers are read back as long as the buffer has room for them. */
  lemma {:induction false} NumbersDecode(message: seq<u8>, pos: nat, oid: seq<u16>, buflen: nat, sofar: seq<nat>)
    requires Holds(message, pos, NumbersBytes(oid)) && |sofar| <= buflen
    ensures NumbersAt(message, pos, pos + |NumbersBytes(oid)|, buflen, sofar)
            == if |sofar| + |oid| <= buflen then Some(Decoded(sofar + oid, pos + |NumbersBytes(oid)|)) else None
    decreases |oid|
  {
    hide NumberBytes, NumberAt;
    if |oid| == 0 {
      assert sofar + oid == sofar;
    } else {
      NumbersFront(oid);
      HoldsSplit(message, pos, NumberBytes(oid[0]), NumbersBytes(oid[1..]));
      NumberDecodes(message, pos, oid[0]);
      NumberEndsLater(message, pos, 0);
      if |sofar| < buflen {
        NumbersDecode(message, pos + |NumberBytes(oid[0])|, oid[1..], buflen, sofar + [oid[0]]);
        assert sofar + [oid[0]] + oid[1..] == sofar + oid;
      }
    }
  }

  lemma {:induction false} NumbersLength(oid: seq<u16>)
    ensures |oid| <= |NumbersBytes(oid)| <= 3 * |oid|
  {
    hide NumberBytes;
    if |oid| > 0 {
      NumbersLength(oid[..|oid| - 1]);
    }
  }

  /** An identifier whose length fits its octet decodes to 1.3.6.1 and its numbers exactly when the buffer holds eight
      words and all of them; with 24 words that is at most 20 numbers, which always fit. */
  lemma {:induction false} OidDecodes(message: seq<u8>, pos: nat, oid: seq<u16>, buflen: nat)
    requires Holds(message, pos, EncodedOid(oid)) && |OidBody(oid)| < 0x100
    ensures ChunkHeader(message, pos) == Some(Header(ASN1_TYPE_OID, |OidBody(oid)|, pos + 3))
    ensures OidAt(message, pos + 3, |OidBody(oid)|, buflen)
            == if buflen >= 8 && |oid| + 4 <= buflen then Some(Decoded([1, 3, 6, 1] + oid, pos + |EncodedOid(oid)|))
                else None
  {
    hide BigEndian, NumbersBytes, NumberAt;
    var body := OidBody(oid);
    var header: seq<u8> := [ASN1_TYPE_OID, 0x81, |body| % 0x100];
    HoldsSplit(message, pos, header, body);
    assert message[pos..pos + 3] == header;
    assert message[pos] == header[0] && message[pos + 1] == header[1];
    assert message[pos + 2..pos + 3] == [] + [header[2]];
    BigEndianNext([], header[2]);
    HoldsAt(message, pos + 3, body, 0);
    if buflen >= 8 {
      OidPrefix(oid);
      var all := [6, 1] + oid;
      assert body == [0x2b] + NumbersBytes(all);
      HoldsSplit(message, pos + 3, [0x2b], NumbersBytes(all));
      NumbersDecode(message, pos + 4, all, buflen, [1, 3]);
      assert [1, 3] + all == [1, 3, 6, 1] + oid;
    }
  }

  lemma {:induction false} OidPrefix(oid: seq<u16>)
    ensures NumbersBytes([6, 1] + oid) == [0x06, 0x01] + NumbersBytes(oid)
  {
    hide NumbersBytes;
    var all: seq<u16> := [6, 1] + oid;
    NumbersFront(all);
    NumbersFront(all[1..]);
    assert all[1..][1..] == oid;
  }

  /** Twenty numbers of 16 bits are never too long. */
  lemma {:induction false} TwentyNumbersFit(oid: seq<u16>)
    requires |oid| <= 20
    ensures |OidBody(oid)| < 0x100
  {
    NumbersLength(oid);
  }

  /** X.690, section 8.19.2: the leading octet of a number is not 0x80. The encoder meets it except in this range. */
  lemma {:induction false} LeadingOctet(d: u16)
    ensures NumberBytes(d)[0] == 0x80 <==> 0x400 <= d < 0x4000
  {
    NumberParts(d);
  }
}
