/** SNMP messages built in a byte buffer and read from one: the steps that the client
    (legacy-trunk/src/pductrl/PDUController.cpp) and the agent (legacy-trunk/src/PDUFirmware/SNMP.c) share. */
module SnmpBuffers {
  import opened Bits
  import opened Options
  import opened Ber
  import opened BerBuffers
  import opened Snmp
  import opened Collections

  /** Where the lengths still to be patched in stand. */
  datatype LengthPtrs = LengthPtrs(packet: nat, body: nat, varbindList: nat, varbind: nat)

  /** A message up to its value, its four lengths not known yet. */
  function Head(community: seq<u8>, kind: u8, id: u32): seq<u8> {
    Placeholder(ASN1_TYPE_SEQUENCE_CONSTRUCTED) + Front(community) + (Placeholder(kind) + Numbers(id))
  }

  function Opening(community: seq<u8>, kind: u8, id: u32, oid: seq<u16>): seq<u8> {
    Head(community, kind, id)
    + (Placeholder(ASN1_TYPE_SEQUENCE_CONSTRUCTED) + (Placeholder(ASN1_TYPE_SEQUENCE_CONSTRUCTED) + EncodedOid(oid)))
  }

  function PtrsOf(community: seq<u8>, id: u32): LengthPtrs {
    var front, numbers := |Front(community)|, |Numbers(id)|;
    LengthPtrs(2, 4 + front + 2, 8 + front + numbers + 2, 12 + front + numbers + 2)
  }

  /** The next chunk overwrites the terminator that a string left behind. */
  lemma {:induction false} SpliceOver(message: seq<u8>, pos: nat, a: seq<u8>, b: seq<u8>)
    requires pos + |a| + |b| <= |message| && |b| > 0
    ensures Splice(Splice(message, pos, a + [0]), pos + |a|, b) == Splice(message, pos, a + b)
  {
  }

  method WriteFront(body: array<u8>, startpos: nat, community: seq<u8>) returns (packlen: nat)
    requires startpos + |Front(community)| < body.Length
    modifies body
    ensures packlen == startpos + |Front(community)|
    ensures body[..] == Splice(old(body[..]), startpos, Front(community) + [0])
  {
    hide Splice, EncodedInteger, EncodedString;
    ghost var was := body[..];
    packlen := BEREncodeInteger(body, startpos, SNMP_VERSION_2C);
    packlen := BEREncodeString(body, packlen, community);
    SpliceJoin(was, startpos, EncodedInteger(SNMP_VERSION_2C), EncodedString(community) + [0]);
    assert EncodedInteger(SNMP_VERSION_2C) + (EncodedString(community) + [0]) == Front(community) + [0];
  }

  method WriteIdAndErrors(body: array<u8>, startpos: nat, id: u32) returns (packlen: nat)
    requires startpos + |Snmp.Numbers(id)| <= body.Length
    modifies body
    ensures packlen == startpos + |Snmp.Numbers(id)|
    ensures body[..] == Splice(old(body[..]), startpos, Snmp.Numbers(id))
  {
    hide Splice, EncodedInteger;
    ghost var was := body[..];
    packlen := BEREncodeInteger(body, startpos, id);
    packlen := BEREncodeInteger(body, packlen, 0);
    packlen := BEREncodeInteger(body, packlen, 0);
    SpliceJoin(was, startpos, EncodedInteger(id), EncodedInteger(0));
    SpliceJoin(was, startpos, EncodedInteger(id) + EncodedInteger(0), EncodedInteger(0));
  }

  method WriteHead(body: array<u8>, community: seq<u8>, kind: u8, id: u32) returns (packlen: nat, packet: nat, pdu: nat)
    requires |Head(community, kind, id)| <= body.Length
    modifies body
    ensures packlen == |Head(community, kind, id)| && packet == 2 && pdu == 4 + |Front(community)| + 2
    ensures body[..] == Splice(old(body[..]), 0, Head(community, kind, id))
  {
    hide Splice, Front, Numbers, Placeholder;
    ghost var was := body[..];
    ghost var outer, inner := Placeholder(ASN1_TYPE_SEQUENCE_CONSTRUCTED), Placeholder(kind);
    PlaceholderLength(ASN1_TYPE_SEQUENCE_CONSTRUCTED);
    PlaceholderLength(kind);
    packlen, packet := BEREncodeSequenceHeader(body, 0, ASN1_TYPE_SEQUENCE_CONSTRUCTED);
    packlen := WriteFront(body, packlen, community);
    SpliceJoin(was, 0, outer, Front(community) + [0]);
    assert outer + (Front(community) + [0]) == outer + Front(community) + [0];
    packlen, pdu := BEREncodeSequenceHeader(body, packlen, kind);
    SpliceOver(was, 0, outer + Front(community), inner);
    packlen := WriteIdAndErrors(body, packlen, id);
    SpliceJoin(was, 0, outer + Front(community) + inner, Numbers(id));
    Associates(outer + Front(community), inner, Numbers(id));
  }

  lemma {:induction false} PlaceholderLength(kind: u8)
    ensures |Placeholder(kind)| == 4
  {
  }

  /** The varbind list up to its value. */
  method WriteVarbind(body: array<u8>, startpos: nat, oid_entry: seq<u16>)
    returns (packlen: nat, list: nat, varbind: nat)
    requires |oid_entry| > 0 && oid_entry[0] < |oid_entry|
    requires startpos + 8 + |EncodedOid(oid_entry[1..1 + oid_entry[0] as nat])| <= body.Length
    modifies body
    ensures list == startpos + 2 && varbind == startpos + 6
    ensures var oid, header := oid_entry[1..1 + oid_entry[0] as nat], Placeholder(ASN1_TYPE_SEQUENCE_CONSTRUCTED);
            packlen == startpos + 8 + |EncodedOid(oid)|
            && body[..] == Splice(old(body[..]), startpos, header + (header + EncodedOid(oid)))
  {
    hide Splice, Placeholder, EncodedOid;
    ghost var was, oid := body[..], oid_entry[1..1 + oid_entry[0] as nat];
    ghost var header := Placeholder(ASN1_TYPE_SEQUENCE_CONSTRUCTED);
    PlaceholderLength(ASN1_TYPE_SEQUENCE_CONSTRUCTED);
    packlen, list := BEREncodeSequenceHeader(body, startpos, ASN1_TYPE_SEQUENCE_CONSTRUCTED);
    packlen, varbind := BEREncodeSequenceHeader(body, packlen, ASN1_TYPE_SEQUENCE_CONSTRUCTED);
    assert body[..] == Splice(was, startpos, header + header) by {
      SpliceJoin(was, startpos, header, header);
    }
    packlen := BEREncodeOID(body, packlen, oid_entry);
    assert body[..] == Splice(was, startpos, header + header + EncodedOid(oid)) by {
      SpliceJoin(was, startpos, header + header, EncodedOid(oid));
    }
    Associates(header, header, EncodedOid(oid));
  }

  /** Everything of a message but its value. */
  method BeginMessage(body: array<u8>, community: seq<u8>, kind: u8, id: u32, oid_entry: seq<u16>)
    returns (packlen: nat, ptrs: LengthPtrs)
    requires |oid_entry| > 0 && oid_entry[0] < |oid_entry|
    requires |Opening(community, kind, id, oid_entry[1..1 + oid_entry[0] as nat])| <= body.Length
    modifies body
    ensures var oid := oid_entry[1..1 + oid_entry[0] as nat];
            packlen == |Opening(community, kind, id, oid)| && ptrs == PtrsOf(community, id)
            && body[..] == Splice(old(body[..]), 0, Opening(community, kind, id, oid))
  {
    hide Splice, Front, Numbers, Placeholder, EncodedOid, Head;
    ghost var was, oid := body[..], oid_entry[1..1 + oid_entry[0] as nat];
    ghost var head, header := Head(community, kind, id), Placeholder(ASN1_TYPE_SEQUENCE_CONSTRUCTED);
    PlaceholderLength(ASN1_TYPE_SEQUENCE_CONSTRUCTED);
    HeadLength(community, kind, id);
    var packet, pdu, list, varbind;
    packlen, packet, pdu := WriteHead(body, community, kind, id);
    packlen, list, varbind := WriteVarbind(body, packlen, oid_entry);
    assert body[..] == Splice(was, 0, Opening(community, kind, id, oid)) by {
      SpliceJoin(was, 0, head, header + (header + EncodedOid(oid)));
    }
    ptrs := LengthPtrs(packet, pdu, list, varbind);
  }

  lemma {:induction false} HeadLength(community: seq<u8>, kind: u8, id: u32)
    ensures |Head(community, kind, id)| == 8 + |Front(community)| + |Numbers(id)|
  {
    hide Front, Numbers;
    PlaceholderLength(ASN1_TYPE_SEQUENCE_CONSTRUCTED);
    PlaceholderLength(kind);
  }

  /** Patches the four lengths, the innermost first. */
  method EndMessage(body: array<u8>, packlen: nat, ptrs: LengthPtrs, ghost was: seq<u8>,
                    ghost community: seq<u8>, ghost kind: u8, ghost id: u32, ghost oid: seq<u16>, ghost value: seq<u8>)
    requires |was| == body.Length && packlen == |Opening(community, kind, id, oid) + value| <= body.Length
    requires ptrs == PtrsOf(community, id)
    requires body[..] == Splice(was, 0, Opening(community, kind, id, oid) + value)
    modifies body
    ensures packlen == |Message(community, kind, id, oid, value)|
    ensures body[..] == Splice(was, 0, Message(community, kind, id, oid, value))
  {
    hide Splice, Front, Numbers, EncodedOid, Placeholder, Sequence;
    ghost var seqKind := ASN1_TYPE_SEQUENCE_CONSTRUCTED;
    ghost var outer := Placeholder(seqKind);
    ghost var varbind := EncodedOid(oid) + value;
    ghost var list := Sequence(seqKind, varbind);
    ghost var pdu := Numbers(id) + Sequence(seqKind, list);
    Lengths(seqKind, varbind);
    Lengths(seqKind, list);
    Lengths(kind, pdu);
    Lengths(seqKind, Front(community) + Sequence(kind, pdu));
    Regroup(Head(community, kind, id), outer, EncodedOid(oid), value);
    BEREndSequence(body, packlen, ptrs.varbind, was, Head(community, kind, id) + outer, seqKind, varbind);
    Associates(Head(community, kind, id), outer, list);
    BEREndSequence(body, packlen, ptrs.varbindList, was, Head(community, kind, id), seqKind, list);
    Regroup2(outer + Front(community), Placeholder(kind), Numbers(id), Sequence(seqKind, list));
    BEREndSequence(body, packlen, ptrs.body, was, outer + Front(community), kind, pdu);
    Associates(outer, Front(community), Sequence(kind, pdu));
    assert [] + (outer + (Front(community) + Sequence(kind, pdu))) == outer + (Front(community) + Sequence(kind, pdu));
    BEREndSequence(body, packlen, ptrs.packet, was, [], seqKind, Front(community) + Sequence(kind, pdu));
    assert [] + Message(community, kind, id, oid, value) == Message(community, kind, id, oid, value);
  }

  lemma {:induction false} OpeningLength(community: seq<u8>, kind: u8, id: u32, oid: seq<u16>, value: seq<u8>)
    ensures |Opening(community, kind, id, oid)| + |value| == |Message(community, kind, id, oid, value)|
  {
    hide Front, Numbers, EncodedOid;
  }

  lemma {:induction false} SplicedFront(was: seq<u8>, chunk: seq<u8>)
    requires |chunk| <= |was|
    ensures Splice(was, 0, chunk)[..|chunk|] == chunk
  {
  }

  lemma {:induction false} SpliceSame(message: seq<u8>, front: seq<u8>)
    requires front <= message
    ensures Splice(message, 0, front) == message
  {
  }

  lemma {:induction false} Lengths(kind: u8, content: seq<u8>)
    ensures |Placeholder(kind)| == 4 && |Sequence(kind, content)| == 4 + |content|
  {
  }

  lemma {:induction false} Regroup(a: seq<u8>, b: seq<u8>, c: seq<u8>, d: seq<u8>)
    ensures a + (b + (b + c)) + d == a + b + (b + (c + d))
  {
  }

  lemma {:induction false} Regroup2(a: seq<u8>, b: seq<u8>, c: seq<u8>, d: seq<u8>)
    ensures a + (b + c) + d == a + (b + (c + d))
  {
  }

  // ----- reading

  method ReadExpected(message: array<u8>, pos: nat, kind: u8) returns (r: Option<Header>)
    ensures r == Expect(message[..], pos, kind)
  {
    hide ChunkHeader;
    var h :- BERDecodeChunkHeader(message, pos);
    r := if h.kind == kind then Some(h) else None;
  }

  method ReadCommunity(message: array<u8>) returns (r: Option<Decoded<seq<u8>>>)
    ensures r == CommunityOf(message[..])
  {
    hide Expect, ExpectedIntegerAt, StringAt;
    var top :- ReadExpected(message, 0, ASN1_TYPE_SEQUENCE_CONSTRUCTED);
    var version :- BERDecodeExpectedInteger(message, top.pos);
    if version.value != SNMP_VERSION_2C {
      return None;
    }
    var name :- ReadExpected(message, version.pos, ASN1_TYPE_OCTET_STRING);
    var community := new u8[32];
    var ok, pos := BERDecodeString(message, name.pos, name.length, 32, community);
    if !ok {
      return None;
    }
    StringFits(message[..], name.pos, name.length, 32);
    return Some(Decoded(community[..name.length], pos));
  }

  lemma {:induction false} StringFits(message: seq<u8>, pos: nat, length: nat, maxlen: nat)
    ensures StringAt(message, pos, length, maxlen).Some? ==> length < maxlen
  {
  }

  method ReadIdAndErrors(message: array<u8>, pos: nat) returns (r: Option<Decoded<nat>>)
    ensures r == NumbersOf(message[..], pos)
  {
    hide ExpectedIntegerAt;
    var id :- BERDecodeExpectedInteger(message, pos);
    var errorId :- BERDecodeExpectedInteger(message, id.pos);
    var errorIndex :- BERDecodeExpectedInteger(message, errorId.pos);
    return Some(Decoded(id.value, errorIndex.pos));
  }

  method ReadPreamble(message: array<u8>) returns (r: Option<Preamble>)
    ensures r == PreambleOf(message[..])
  {
    hide CommunityOf, ChunkHeader, NumbersOf, Expect;
    var community :- ReadCommunity(message);
    var pdu :- BERDecodeChunkHeader(message, community.pos);
    var numbers :- ReadIdAndErrors(message, pdu.pos);
    var list :- ReadExpected(message, numbers.pos, ASN1_TYPE_SEQUENCE_CONSTRUCTED);
    return Some(Preamble(community.value, pdu.kind, numbers.value, list.pos));
  }

  method ReadOid(message: array<u8>, pos: nat) returns (r: Option<Decoded<seq<nat>>>)
    ensures r == OidOf(message[..], pos)
  {
    hide Expect, OidAt;
    var varbind :- ReadExpected(message, pos, ASN1_TYPE_SEQUENCE_CONSTRUCTED);
    var oid :- ReadExpected(message, varbind.pos, ASN1_TYPE_OID);
    var oidbuf := new u32[24];
    var ok, oidlen, end := BERDecodeOID(message, oid.pos, oid.length, 24, oidbuf);
    if !ok {
      return None;
    }
    return Some(Decoded(oidbuf[..oidlen], end));
  }
}
