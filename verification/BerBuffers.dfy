/** The encoders and decoders of legacy-trunk/src/asn1/BER.c over byte buffers: values are written in place, and the
    lengths of constructed values are patched in once their content is there. */
module BerBuffers {
  import opened Bits
  import opened Options
  import opened Ber
  import opened Collections

  // ----- writing

  /** `message` with `chunk` written over it at `pos`. */
  function Splice(message: seq<u8>, pos: nat, chunk: seq<u8>): (r: seq<u8>)
    requires pos + |chunk| <= |message|
    ensures |r| == |message| && Holds(r, pos, chunk)
  {
    message[..pos] + chunk + message[pos + |chunk|..]
  }

  lemma {:induction false} SpliceJoin(message: seq<u8>, pos: nat, a: seq<u8>, b: seq<u8>)
    requires pos + |a| + |b| <= |message|
    ensures Splice(Splice(message, pos, a), pos + |a|, b) == Splice(message, pos, a + b)
  {
  }

  /** Writes the next byte of a chunk. */
  method WriteByte(message: array<u8>, pos: nat, b: u8,
                   ghost was: seq<u8>, ghost start: nat, ghost written: seq<u8>)
    returns (next: nat, ghost now: seq<u8>)
    requires pos < message.Length == |was| && pos == start + |written| && message[..] == Splice(was, start, written)
    modifies message
    ensures next == pos + 1 && now == written + [b] && message[..] == Splice(was, start, now)
  {
    message[pos] := b;
    assert message[..] == Splice(was, start, written)[pos := b];
    next, now := pos + 1, written + [b];
  }

  lemma {:induction false} NothingWritten(message: seq<u8>, pos: nat)
    requires pos <= |message|
    ensures Splice(message, pos, []) == message
  {
  }

  /** Patching the placeholder in an integer's header. */
  lemma {:induction false} PatchByte(message: seq<u8>, pos: nat, chunk: seq<u8>, i: nat, b: u8)
    requires pos + |chunk| <= |message| && i < |chunk|
    ensures Splice(message, pos, chunk)[pos + i := b] == Splice(message, pos, chunk[i := b])
  {
  }

  /** The value octets of an integer. */
  method WriteInteger(message: array<u8>, startpos: nat, data: u32,
                      ghost was: seq<u8>, ghost start: nat, ghost written: seq<u8>)
    returns (pos: nat, ghost w: seq<u8>)
    requires startpos + |IntegerContent(data)| <= message.Length == |was|
    requires startpos == start + |written| && message[..] == Splice(was, start, written)
    modifies message
    ensures w == written + IntegerContent(data)
    ensures pos == start + |w| && message[..] == Splice(was, start, w)
  {
    hide Splice, And, HasTop, HasThird, HasSecond;
    Masks(data);
    pos, w := startpos, written;
    if And(data, 0xff80_0000) != 0 {
      pos, w := WriteByte(message, pos, data / 0x100_0000, was, start, w);
    }
    if And(data, 0x00ff_8000) != 0 {
      pos, w := WriteByte(message, pos, data / 0x1_0000 % 0x100, was, start, w);
    }
    if And(data, 0x0000_ff80) != 0 {
      pos, w := WriteByte(message, pos, data / 0x100 % 0x100, was, start, w);
    }
    pos, w := WriteByte(message, pos, data % 0x100, was, start, w);
    assert w == written + IntegerContent(data);
  }

  method BEREncodeInteger(message: array<u8>, startpos: nat, data: u32) returns (pos: nat)
    requires startpos + |EncodedInteger(data)| <= message.Length
    modifies message
    ensures pos == startpos + |EncodedInteger(data)|
    ensures message[..] == Splice(old(message[..]), startpos, EncodedInteger(data))
  {
    hide Splice, IntegerContent;
    ghost var was, w := message[..], [];
    NothingWritten(was, startpos);
    pos, w := WriteByte(message, startpos, ASN1_TYPE_INTEGER, was, startpos, w);
    var lenptr := pos;
    pos, w := WriteByte(message, pos, 0xcc, was, startpos, w);
    pos, w := WriteInteger(message, pos, data, was, startpos, w);
    message[lenptr] := pos - (lenptr + 1);
    ghost var length: u8 := |IntegerContent(data)|;
    PatchByte(was, startpos, w, 1, length);
    assert w[1 := length] == EncodedInteger(data);
  }

  /** strcpy: the bytes and the terminator. */
  method CopyString(message: array<u8>, startpos: nat, data: seq<u8>,
                    ghost was: seq<u8>, ghost start: nat, ghost written: seq<u8>)
    requires startpos + |data| < message.Length == |was|
    requires startpos == start + |written| && message[..] == Splice(was, start, written)
    modifies message
    ensures message[..] == Splice(was, start, written + data + [0])
  {
    hide Splice;
    var i := 0;
    var pos := startpos;
    ghost var w := written;
    while i < |data|
      invariant 0 <= i <= |data| && pos == startpos + i
      invariant w == written + data[..i] && message[..] == Splice(was, start, w)
    {
      pos, w := WriteByte(message, pos, data[i], was, start, w);
      i := i + 1;
    }
    assert data[..i] == data;
    pos, w := WriteByte(message, pos, 0, was, start, w);
  }

  method BEREncodeString(message: array<u8>, startpos: nat, data: seq<u8>) returns (pos: nat)
    requires startpos + |EncodedString(data)| < message.Length
    modifies message
    ensures pos == startpos + |EncodedString(data)|
    // the terminator that strcpy adds stays behind the value
    ensures message[..] == Splice(old(message[..]), startpos, EncodedString(data) + [0])
  {
    hide Splice;
    ghost var was, w := message[..], [];
    NothingWritten(was, startpos);
    var len := |data|;
    pos, w := WriteByte(message, startpos, ASN1_TYPE_OCTET_STRING, was, startpos, w);
    if len < 128 {
      pos, w := WriteByte(message, pos, len, was, startpos, w);
    } else {
      pos, w := WriteByte(message, pos, 0x82, was, startpos, w);
      pos, w := WriteByte(message, pos, len / 0x100 % 0x100, was, startpos, w);
      pos, w := WriteByte(message, pos, len % 0x100, was, startpos, w);
    }
    assert w + data == EncodedString(data);
    CopyString(message, pos, data, was, startpos, w);
    pos := pos + len;
  }

  method BEREncodeSequenceHeader(message: array<u8>, startpos: nat, kind: u8) returns (pos: nat, lenptr: nat)
    requires startpos + 4 <= message.Length
    modifies message
    ensures pos == startpos + 4 && lenptr == startpos + 2
    ensures message[..] == Splice(old(message[..]), startpos, Placeholder(kind))
  {
    hide Splice;
    ghost var was, w := message[..], [];
    NothingWritten(was, startpos);
    pos, w := WriteByte(message, startpos, kind, was, startpos, w);
    pos, w := WriteByte(message, pos, 0x82, was, startpos, w);
    lenptr := pos;
    pos, w := WriteByte(message, pos, 0xCC, was, startpos, w);
    pos, w := WriteByte(message, pos, 0xCC, was, startpos, w);
    assert w == Placeholder(kind);
  }

  /** A constructed value's header while its length is not known. */
  function Placeholder(kind: u8): seq<u8> {
    [kind, 0x82, 0xCC, 0xCC]
  }

  /** Turns the header that `ahead` ends in, and the content written since, into a whole constructed value. */
  method BEREndSequence(message: array<u8>, startpos: nat, lenptr: nat,
                        ghost was: seq<u8>, ghost ahead: seq<u8>, ghost kind: u8, ghost content: seq<u8>)
    requires |was| == message.Length && startpos == |ahead| + 4 + |content| <= message.Length && lenptr == |ahead| + 2
    requires message[..] == Splice(was, 0, ahead + (Placeholder(kind) + content))
    modifies message
    ensures message[..] == Splice(was, 0, ahead + Sequence(kind, content))
  {
    hide Splice;
    var slen := startpos - (lenptr + 2);
    message[lenptr] := slen / 0x100 % 0x100;
    message[lenptr + 1] := slen % 0x100;
    ghost var out: seq<u8> := ahead + (Placeholder(kind) + content);
    ghost var hi: u8, lo: u8 := slen / 0x100 % 0x100, slen % 0x100;
    PatchByte(was, 0, out, lenptr, hi);
    PatchByte(was, 0, out[lenptr := hi], lenptr + 1, lo);
    assert (out[lenptr := hi])[lenptr + 1 := lo] == ahead + Sequence(kind, content);
  }

  /** One number of an object identifier. */
  method WriteNumber(message: array<u8>, startpos: nat, digit: u16,
                     ghost was: seq<u8>, ghost start: nat, ghost written: seq<u8>)
    returns (pos: nat, ghost w: seq<u8>)
    requires startpos + |NumberBytes(digit)| <= message.Length == |was|
    requires startpos == start + |written| && message[..] == Splice(was, start, written)
    modifies message
    ensures w == written + NumberBytes(digit)
    ensures pos == start + |w| && message[..] == Splice(was, start, w)
  {
    hide Splice;
    pos, w := startpos, written;
    if digit > 0x3FF {
      pos, w := WriteByte(message, pos, 0x80 + digit / 0x4000, was, start, w);
    }
    if digit > 127 {
      pos, w := WriteByte(message, pos, 0x80 + digit / 0x80 % 0x80, was, start, w);
    }
    pos, w := WriteByte(message, pos, digit % 0x80, was, start, w);
    assert w == written + NumberBytes(digit);
  }

  /** `oid_entry` starts with how many numbers follow. */
  method BEREncodeOID(message: array<u8>, startpos: nat, oid_entry: seq<u16>) returns (pos: nat)
    requires |oid_entry| > 0 && oid_entry[0] < |oid_entry|
    requires startpos + |EncodedOid(oid_entry[1..1 + oid_entry[0] as nat])| <= message.Length
    modifies message
    ensures var oid := oid_entry[1..1 + oid_entry[0] as nat];
            pos == startpos + |EncodedOid(oid)| && message[..] == Splice(old(message[..]), startpos, EncodedOid(oid))
  {
    hide Splice, NumbersBytes, NumberBytes, OidBody, EncodedOid;
    var oid := oid_entry[1..1 + oid_entry[0] as nat];
    ghost var was, w := message[..], [];
    OidLength(oid);
    NothingWritten(was, startpos);
    pos, w := WriteByte(message, startpos, ASN1_TYPE_OID, was, startpos, w);
    pos, w := WriteByte(message, pos, 0x81, was, startpos, w);
    var oidLenPtr := pos;
    pos, w := WriteByte(message, pos, 0xCC, was, startpos, w);
    pos, w := WriteRoot(message, pos, was, startpos, w);
    pos, w := WriteNumbers(message, pos, oid, was, startpos, w);
    message[oidLenPtr] := (pos - (oidLenPtr + 1)) % 0x100;
    OidPatched(oid, w);
    PatchByte(was, startpos, w, 2, |OidBody(oid)| % 0x100);
  }

  lemma {:induction false} OidLength(oid: seq<u16>)
    ensures |EncodedOid(oid)| == 6 + |NumbersBytes(oid)| && |OidBody(oid)| == 3 + |NumbersBytes(oid)|
  {
  }

  lemma {:induction false} OidPatched(oid: seq<u16>, w: seq<u8>)
    requires w == [ASN1_TYPE_OID, 0x81, 0xCC] + [0x2b, 0x06, 0x01] + NumbersBytes(oid)
    ensures w[2 := |OidBody(oid)| % 0x100] == EncodedOid(oid)
  {
    hide NumbersBytes;
  }

  /** 1.3, and the implicit 6.1. */
  method WriteRoot(message: array<u8>, startpos: nat,
                   ghost was: seq<u8>, ghost start: nat, ghost written: seq<u8>)
    returns (pos: nat, ghost w: seq<u8>)
    requires startpos + 3 <= message.Length == |was|
    requires startpos == start + |written| && message[..] == Splice(was, start, written)
    modifies message
    ensures w == written + [0x2b, 0x06, 0x01]
    ensures pos == start + |w| && message[..] == Splice(was, start, w)
  {
    hide Splice;
    pos, w := WriteByte(message, startpos, 0x2b, was, start, written);
    pos, w := WriteByte(message, pos, 0x06, was, start, w);
    pos, w := WriteByte(message, pos, 0x01, was, start, w);
  }

  method WriteNumbers(message: array<u8>, startpos: nat, oid: seq<u16>,
                      ghost was: seq<u8>, ghost start: nat, ghost written: seq<u8>)
    returns (pos: nat, ghost w: seq<u8>)
    requires startpos + |NumbersBytes(oid)| <= message.Length == |was|
    requires startpos == start + |written| && message[..] == Splice(was, start, written)
    modifies message
    ensures w == written + NumbersBytes(oid)
    ensures pos == start + |w| && message[..] == Splice(was, start, w)
  {
    pos, w := startpos, written;
    assert NumbersBytes(oid[..0]) == [] && written + [] == written;
    hide Splice, NumbersBytes, NumberBytes;
    var i: nat := 0;
    while i < |oid|
      invariant i <= |oid| && pos == start + |w|
      invariant w == written + NumbersBytes(oid[..i]) && |NumbersBytes(oid[..i])| <= |NumbersBytes(oid)|
      invariant message[..] == Splice(was, start, w)
    {
      NumbersNext(oid, i);
      NumbersNext(oid, i + 1);
      Associates(written, NumbersBytes(oid[..i]), NumberBytes(oid[i]));
      assert pos + |NumberBytes(oid[i])| <= message.Length;
      pos, w := WriteNumber(message, pos, oid[i], was, start, w);
      i := i + 1;
    }
    assert oid[..i] == oid;
  }

  lemma {:induction false} NumbersNext(oid: seq<u16>, i: nat)
    requires i <= |oid|
    ensures i < |oid| ==> NumbersBytes(oid[..i + 1]) == NumbersBytes(oid[..i]) + NumberBytes(oid[i])
    ensures |NumbersBytes(oid[..i])| <= |NumbersBytes(oid)|
    ensures i < |oid| ==> |NumbersBytes(oid[..i])| + |NumberBytes(oid[i])| <= |NumbersBytes(oid)|
    decreases |oid| - i
  {
    hide NumberBytes;
    if i < |oid| {
      assert oid[..i + 1][..i] == oid[..i];
      NumbersNext(oid, i + 1);
    } else {
      assert oid[..i] == oid;
    }
  }

  // ----- the masks and shifts of the source as arithmetic

  lemma {:induction false} MaskTest(x: nat, lo: nat, hi: nat)
    requires lo <= hi && Pow2(lo) <= Pow2(hi)
    ensures And(x, Pow2(hi) - Pow2(lo)) != 0 <==> x / Pow2(lo) % Pow2(hi - lo) != 0
  {
    hide And, Shl, Shr, Low, Pow2;
    AndMask(x, lo, hi);
    var part := Low(Shr(x, lo), hi - lo);
    ShlIsTimes(part, lo);
    LowIsMod(x, lo);
    LowIsMod(Shr(x, lo), hi - lo);
    if part != 0 {
      MulAtLeast(part, Pow2(lo));
    }
  }

  lemma MaskPowers()
    ensures Pow2(7) == 0x80 && Pow2(9) == 0x200 && Pow2(15) == 0x8000 && Pow2(16) == 0x1_0000
    ensures Pow2(23) == 0x80_0000 && Pow2(24) == 0x100_0000 && Pow2(32) == TWO_32
  {
    Pow2Values();
    assert Pow2(9) == 2 * Pow2(8);
    assert Pow2(16) == 2 * Pow2(15);
    assert Pow2(24) == 2 * Pow2(23);
  }

  lemma {:induction false} WordTop(x: nat)
    requires x < TWO_32
    ensures x / 0x80_0000 % 0x200 == x / 0x80_0000
  {
  }

  lemma {:induction false} Masks(x: u32)
    ensures And(x, 0xff80_0000) != 0 <==> HasTop(x)
    ensures And(x, 0x00ff_8000) != 0 <==> HasThird(x)
    ensures And(x, 0x0000_ff80) != 0 <==> HasSecond(x)
  {
    hide And, Pow2;
    MaskPowers();
    assert Pow2(32) - Pow2(23) == 0xff80_0000 && Pow2(24) - Pow2(15) == 0xff_8000 && Pow2(16) - Pow2(7) == 0xff80;
    WordTop(x);
    MaskTest(x, 23, 32);
    MaskTest(x, 15, 24);
    MaskTest(x, 7, 16);
  }

  lemma {:induction false} LowBits(x: nat)
    ensures And(x, 0x1F) == x % 0x20 && And(x, 0x7F) == x % 0x80
    ensures x < 0x100 ==> (And(x, 0x80) != 0 <==> x >= 0x80)
  {
    hide And, Pow2, Low, Shr;
    Pow2Values();
    AndLowMask(x, 5);
    LowIsMod(x, 5);
    AndLowMask(x, 7);
    LowIsMod(x, 7);
    TopBit(x);
  }

  lemma {:induction false} TopBit(x: nat)
    ensures x < 0x100 ==> (And(x, 0x80) != 0 <==> x >= 0x80)
  {
    hide And, Pow2;
    Pow2Values();
    assert Pow2(8) - Pow2(7) == 0x80;
    MaskTest(x, 7, 8);
  }

  lemma {:induction false} NumberUnfolds(message: seq<u8>, pos: nat, sofar: nat)
    ensures pos >= |message| ==> NumberAt(message, pos, sofar) == None
    ensures pos < |message| ==>
              (var value := sofar * 0x80 % TWO_32 + message[pos] as nat % 0x80;
               NumberAt(message, pos, sofar)
               == if message[pos] < 0x80 then Some(Decoded(value, pos + 1)) else NumberAt(message, pos + 1, value))
  {
  }

  /** Shifting a byte in, and seven bits. */
  lemma {:induction false} ShiftIn(sofar: u32, b: nat)
    ensures b < 0x100 ==> Or(Shl32(sofar, 8), b) == sofar * 0x100 % TWO_32 + b
    ensures b < 0x80 ==> Or(Shl32(sofar, 7), b) == sofar * 0x80 % TWO_32 + b
  {
    hide Or, Shl, Pow2;
    Pow2Values();
    ShlIsTimes(sofar, 8);
    ShlIsTimes(sofar, 7);
    CutTop(sofar, 0x100, 0x100_0000);
    CutTop(sofar, 0x80, 0x200_0000);
    if b < 0x100 {
      OrConcat(sofar % 0x100_0000, b, 8);
    }
    if b < 0x80 {
      OrConcat(sofar % 0x200_0000, b, 7);
    }
  }

  lemma {:induction false} CutTop(x: nat, p: nat, q: nat)
    requires p > 0 && q > 0 && p * q == TWO_32
    ensures x * p % TWO_32 == x % q * p
  {
    assert x * p == x / q * TWO_32 + x % q * p by {
      assert x == x / q * q + x % q;
      assert x / q * q * p == x / q * (q * p);
      assert (x / q * q + x % q) * p == x / q * q * p + x % q * p;
    }
    assert x % q * p < q * p by {
      MulAtLeast(q - x % q, p);
      assert (q - x % q) * p == q * p - x % q * p;
    }
    DivModUnique(x * p, TWO_32, x / q, x % q * p);
  }

  // ----- reading

  method BERDecodeChunkHeader(message: array<u8>, startpos: nat) returns (r: Option<Header>)
    ensures r == ChunkHeader(message[..], startpos)
  {
    hide And, Or, BigEndian;
    if startpos + 2 > message.Length {
      return None;
    }
    var pos := startpos;
    var id := message[pos] as nat;
    pos := pos + 1;
    LowBits(id);
    if And(id, 0x1F) == 0x1F {
      return None;
    }
    var len := message[pos] as nat;
    pos := pos + 1;
    LowBits(len);
    if And(len, 0x80) != 0 {
      if len == 0x80 {
        return None;
      }
      var lenSize := And(len, 0x7F);
      if lenSize > 2 || pos + lenSize > message.Length {
        return None;
      }
      len := ReadNumber(message, pos, lenSize);
      pos := pos + lenSize;
    }
    return Some(Header(id, len, pos));
  }

  /** At most four octets, the highest first. */
  method ReadNumber(message: array<u8>, startpos: nat, length: nat) returns (value: u32)
    requires length <= 4 && startpos + length <= message.Length
    ensures value == BigEndian(message[startpos..startpos + length])
  {
    hide Or, Shl32, BigEndian;
    value := 0;
    BigEndianNext([], 0);
    assert message[startpos..startpos] == [];
    var i := 0;
    while i < length
      invariant 0 <= i <= length && value == BigEndian(message[startpos..startpos + i])
    {
      ReadStep(message[startpos..startpos + i], message[startpos + i]);
      assert message[startpos..startpos + i] + [message[startpos + i]] == message[startpos..startpos + (i + 1)];
      value := Or(Shl32(value, 8), message[startpos + i]);
      i := i + 1;
    }
  }

  lemma {:induction false} ReadStep(bytes: seq<u8>, b: u8)
    requires |bytes| < 4
    ensures BigEndian(bytes) < TWO_32 && Or(Shl32(BigEndian(bytes), 8), b) == BigEndian(bytes + [b]) < TWO_32
  {
    hide Or, Shl32, BigEndian;
    BigEndianBound(bytes);
    ShiftIn(BigEndian(bytes), b);
    BigEndianNext(bytes, b);
  }

  lemma {:induction false} BigEndianBound(bytes: seq<u8>)
    requires |bytes| < 4
    ensures BigEndian(bytes) < 0x100_0000
    ensures |bytes| <= 2 ==> BigEndian(bytes) < 0x1_0000
    ensures |bytes| <= 1 ==> BigEndian(bytes) < 0x100
    ensures |bytes| <= 0 ==> BigEndian(bytes) == 0
  {
    if |bytes| > 0 {
      BigEndianBound(bytes[..|bytes| - 1]);
    }
  }

  method BERDecodeInteger(message: array<u8>, startpos: nat, length: nat) returns (r: Option<Decoded<nat>>)
    ensures r == IntegerAt(message[..], startpos, length)
  {
    hide BigEndian;
    if length > 4 || startpos + length > message.Length {
      return None;
    }
    assert message[..][startpos..startpos + length] == message[startpos..startpos + length];
    var value := ReadNumber(message, startpos, length);
    return Some(Decoded(value, startpos + length));
  }

  method BERDecodeExpectedInteger(message: array<u8>, startpos: nat) returns (r: Option<Decoded<nat>>)
    ensures r == ExpectedIntegerAt(message[..], startpos)
  {
    hide IntegerAt, ChunkHeader;
    var h :- BERDecodeChunkHeader(message, startpos);
    if h.kind != ASN1_TYPE_INTEGER {
      return None;
    }
    r := BERDecodeInteger(message, h.pos, h.length);
  }

  /** Copies the string into `dout`, `maxlen` bytes long, and terminates it. */
  method BERDecodeString(message: array<u8>, startpos: nat, length: nat, maxlen: nat, dout: array<u8>)
    returns (ok: bool, pos: nat)
    requires dout.Length == maxlen && dout != message
    modifies dout
    ensures ok == StringAt(message[..], startpos, length, maxlen).Some?
    ensures ok ==> StringAt(message[..], startpos, length, maxlen) == Some(Decoded(dout[..length], pos))
    ensures ok ==> dout[length] == 0
  {
    pos := startpos;
    if length >= maxlen || startpos + length > message.Length {
      return false, pos;
    }
    var i := 0;
    while i < length
      invariant 0 <= i <= length && pos == startpos + i
      invariant dout[..i] == message[startpos..startpos + i]
    {
      dout[i] := message[pos];
      pos := pos + 1;
      i := i + 1;
    }
    dout[length] := 0;
    assert dout[..length] == message[..][startpos..startpos + length];
    ok := true;
  }

  /** Decodes into `dout`, `buflen` words long; `outpos` is how many of them are used. */
  method BERDecodeOID(message: array<u8>, startpos: nat, length: nat, buflen: nat, dout: array<u32>)
    returns (ok: bool, outpos: nat, pos: nat)
    requires dout.Length == buflen
    modifies dout
    ensures ok == OidAt(message[..], startpos, length, buflen).Some?
    ensures ok ==> outpos <= buflen
    ensures ok ==> OidAt(message[..], startpos, length, buflen) == Some(Decoded(dout[..outpos], pos))
  {
    outpos, pos := 0, startpos;
    if buflen < 8 || startpos >= message.Length {
      return false, outpos, pos;
    }
    var end := pos + length;
    if message[pos] != 0x2b {
      return false, outpos, pos;
    }
    pos := pos + 1;
    dout[0], dout[1], outpos := 1, 3, 2;
    assert dout[..outpos] == [1, 3];
    ghost var goal := OidAt(message[..], startpos, length, buflen);
    while pos < end
      invariant 2 <= outpos <= buflen
      invariant goal == NumbersAt(message[..], pos, end, buflen, dout[..outpos])
      decreases message.Length - pos
    {
      var n := DecodeNumber(message, pos);
      NumberEndsLater(message[..], pos, 0);
      if n.None? || outpos >= buflen {
        return false, outpos, pos;
      }
      pos := n.value.pos;
      ghost var sofar := dout[..outpos];
      dout[outpos] := n.value.value;
      outpos := outpos + 1;
      assert dout[..outpos] == sofar + [n.value.value];
    }
    ok := true;
  }

  /** The inner loop of BERDecodeOID: octets of seven bits until one with a clear top bit. */
  method DecodeNumber(message: array<u8>, startpos: nat) returns (r: Option<Decoded<u32>>)
    ensures r == NumberAt(message[..], startpos, 0)
  {
    hide Or, Shl32, And, NumberAt;
    var fval: u32 := 0;
    var pos := startpos;
    NumberUnfolds(message[..], pos, fval);
    while pos < message.Length
      invariant NumberAt(message[..], startpos, 0) == NumberAt(message[..], pos, fval)
      invariant pos >= message.Length ==> NumberAt(message[..], pos, fval) == None
      invariant pos < message.Length ==>
                  (var value := fval * 0x80 % TWO_32 + message[pos] as nat % 0x80;
                   NumberAt(message[..], pos, fval)
                   == if message[pos] < 0x80 then Some(Decoded(value, pos + 1))
                       else NumberAt(message[..], pos + 1, value))
    {
      var val := message[pos] as nat;
      pos := pos + 1;
      LowBits(val);
      ShiftIn(fval, val % 0x80);
      fval := Or(Shl32(fval, 7), And(val, 0x7F));
      if And(val, 0x80) == 0 {
        return Some(Decoded(fval, pos));
      }
      NumberUnfolds(message[..], pos, fval);
    }
    return None;
  }
}
