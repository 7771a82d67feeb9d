/** SNMP messages as the power controller's client builds and reads them (legacy-trunk/src/pductrl/PDUController.cpp)
    and as the agent does (legacy-trunk/src/PDUFirmware/SNMP.c). */
module Snmp {
  import opened Bits
  import opened Options
  import opened Ber

  const SNMP_VERSION_2C: u32 := 1
  const DRAWERSTEAK_PEN: u16 := 42453

  /** "public" */
  const COMMUNITY: seq<u8> := [0x70, 0x75, 0x62, 0x6c, 0x69, 0x63]

  // ----- what is built

  /** One varbind in its list. */
  function VarbindList(oid: seq<u16>, value: seq<u8>): seq<u8> {
    Sequence(ASN1_TYPE_SEQUENCE_CONSTRUCTED, Sequence(ASN1_TYPE_SEQUENCE_CONSTRUCTED, EncodedOid(oid) + value))
  }

  /** Request id, error code and error index. */
  function Numbers(id: u32): seq<u8> {
    EncodedInteger(id) + EncodedInteger(0) + EncodedInteger(0)
  }

  function Pdu(kind: u8, id: u32, oid: seq<u16>, value: seq<u8>): seq<u8> {
    Sequence(kind, Numbers(id) + VarbindList(oid, value))
  }

  function Front(community: seq<u8>): seq<u8> {
    EncodedInteger(SNMP_VERSION_2C) + EncodedString(community)
  }

  /** A whole message: each length says exactly what the chunk holds. */
  function Message(community: seq<u8>, kind: u8, id: u32, oid: seq<u16>, value: seq<u8>): seq<u8> {
    Sequence(ASN1_TYPE_SEQUENCE_CONSTRUCTED, Front(community) + Pdu(kind, id, oid, value))
  }

  // ----- what is read

  function Expect(message: seq<u8>, pos: nat, kind: u8): Option<Header> {
    var h :- ChunkHeader(message, pos);
    if h.kind == kind then Some(h) else None
  }

  /** What comes before the varbinds. */
  datatype Preamble = Preamble(community: seq<u8>, kind: nat, id: nat, pos: nat)

  function PreambleOf(message: seq<u8>): Option<Preamble> {
    var community :- CommunityOf(message);
    PduOf(message, community.pos, community.value)
  }

  /** The outer header, the version and the community string. */
  function CommunityOf(message: seq<u8>): Option<Decoded<seq<u8>>> {
    var top :- Expect(message, 0, ASN1_TYPE_SEQUENCE_CONSTRUCTED);
    var version :- ExpectedIntegerAt(message, top.pos);
    if version.value != SNMP_VERSION_2C then None
    else
      var name :- Expect(message, version.pos, ASN1_TYPE_OCTET_STRING);
      StringAt(message, name.pos, name.length, 32)
  }

  /** The PDU's header, its numbers and the header of its varbind list. */
  function PduOf(message: seq<u8>, pos: nat, community: seq<u8>): Option<Preamble> {
    var pdu :- ChunkHeader(message, pos);
    var numbers :- NumbersOf(message, pdu.pos);
    var list :- Expect(message, numbers.pos, ASN1_TYPE_SEQUENCE_CONSTRUCTED);
    Some(Preamble(community, pdu.kind, numbers.value, list.pos))
  }

  /** The error code and index are read and discarded. */
  function NumbersOf(message: seq<u8>, pos: nat): Option<Decoded<nat>> {
    var id :- ExpectedIntegerAt(message, pos);
    var errorId :- ExpectedIntegerAt(message, id.pos);
    var errorIndex :- ExpectedIntegerAt(message, errorId.pos);
    Some(Decoded(id.value, errorIndex.pos))
  }

  /** The identifier of a varbind, in 24 words. */
  function OidOf(message: seq<u8>, pos: nat): Option<Decoded<seq<nat>>> {
    var varbind :- Expect(message, pos, ASN1_TYPE_SEQUENCE_CONSTRUCTED);
    var oid :- Expect(message, varbind.pos, ASN1_TYPE_OID);
    OidAt(message, oid.pos, oid.length, 24)
  }

  datatype Request =
    | Get(id: nat, oid: seq<nat>, next: bool)
    | Set(id: nat, oid: seq<nat>, value: Option<nat>)

  /** A C string ends before its first zero byte. */
  function CString(bytes: seq<u8>): seq<u8> {
    if |bytes| == 0 || bytes[0] == 0 then [] else [bytes[0]] + CString(bytes[1..])
  }

  lemma {:induction false} CStringWhole(bytes: seq<u8>)
    requires 0 !in bytes
    ensures CString(bytes) == bytes
  {
    if |bytes| > 0 {
      CStringWhole(bytes[1..]);
    }
  }

  /** The agent's reading of a packet; None when it is dropped. */
  function RequestIn(message: seq<u8>): Option<Request> {
    var p :- PreambleOf(message);
    if CString(p.community) != COMMUNITY then None
    else if p.kind == ASN1_TYPE_SNMP_GETREQUEST || p.kind == ASN1_TYPE_SNMP_GETNEXTREQUEST then
      var oid :- OidOf(message, p.pos);
      Some(Get(p.id, oid.value, p.kind == ASN1_TYPE_SNMP_GETNEXTREQUEST))
    else if p.kind == ASN1_TYPE_SNMP_SETREQUEST then
      var oid :- OidOf(message, p.pos);
      var value := ExpectedIntegerAt(message, oid.pos);
      Some(Set(p.id, oid.value, if value.Some? then Some(value.value.value) else None))
    else None
  }

  datatype Response = Response(id: nat, table: nat, index: nat, value: nat)

  /** The client's reading of a response; the community string is not looked at. */
  function ResponseIn(message: seq<u8>): Option<Response> {
    var p :- PreambleOf(message);
    if p.kind != ASN1_TYPE_SNMP_GETRESPONSE then None
    else
      var oid :- OidOf(message, p.pos);
      if |oid.value| != 10 then None
      else
        var value :- ExpectedIntegerAt(message, oid.pos);
        Some(Response(p.id, oid.value[8] % 0x1_0000, oid.value[9] % 0x1_0000, value.value))
  }

  // ----- reading back what was built

  /** What makes a message fit its length fields. */
  predicate Sized(community: seq<u8>, kind: u8, id: u32, oid: seq<u16>, value: seq<u8>) {
    |Message(community, kind, id, oid, value)| <= 0x1_0000 && |oid| <= 20
  }

  lemma {:induction false} NumbersRead(message: seq<u8>, pos: nat, id: u32)
    requires Holds(message, pos, Numbers(id))
    ensures NumbersOf(message, pos) == Some(Decoded(Kept(id), pos + |Numbers(id)|))
  {
    hide EncodedInteger, ExpectedIntegerAt, Kept;
    HoldsSplit(message, pos, EncodedInteger(id) + EncodedInteger(0), EncodedInteger(0));
    HoldsSplit(message, pos, EncodedInteger(id), EncodedInteger(0));
    IntegerDecodes(message, pos, id);
    IntegerDecodes(message, pos + |EncodedInteger(id)|, 0);
    IntegerDecodes(message, pos + |EncodedInteger(id)| + |EncodedInteger(0)|, 0);
  }

  lemma {:induction false} SmallKept(x: u32)
    requires x < 0x1_0000
    ensures Kept(x) == x
  {
    hide Kept, Survives;
    SmallSurvives(x);
    IntegerRoundTrip(x);
  }

  lemma {:induction false} SequenceLonger(kind: u8, content: seq<u8>)
    ensures |Sequence(kind, content)| == |content| + 4
  {
  }

  /** The community string is read back, if it fits the reader's buffer, and the PDU stands behind it. */
  lemma {:induction false} CommunityReads(message: seq<u8>, community: seq<u8>, pdu: seq<u8>)
    requires Holds(message, 0, Sequence(ASN1_TYPE_SEQUENCE_CONSTRUCTED, Front(community) + pdu))
    requires |community| < 0x1_0000 && |Front(community) + pdu| < 0x1_0000
    ensures CommunityOf(message) == if |community| < 32 then Some(Decoded(community, 4 + |Front(community)|)) else None
    ensures Holds(message, 4 + |Front(community)|, pdu)
  {
    hide EncodedInteger, EncodedString, ExpectedIntegerAt, StringAt, ChunkHeader, Kept, Holds, Sequence;
    SequenceHeader(message, 0, ASN1_TYPE_SEQUENCE_CONSTRUCTED, Front(community) + pdu);
    HoldsSplit(message, 4, Front(community), pdu);
    HoldsSplit(message, 4, EncodedInteger(SNMP_VERSION_2C), EncodedString(community));
    IntegerDecodes(message, 4, SNMP_VERSION_2C);
    SmallKept(SNMP_VERSION_2C);
    StringDecodes(message, 4 + |EncodedInteger(SNMP_VERSION_2C)|, community, 32);
  }

  /** The PDU's kind and id are read back, and the varbind stands behind them. */
  lemma {:induction false} PduReads(message: seq<u8>, pos: nat, community: seq<u8>, kind: u8, id: u32, oid: seq<u16>,
                                    value: seq<u8>)
    requires Holds(message, pos, Pdu(kind, id, oid, value)) && |Pdu(kind, id, oid, value)| < 0x1_0000
    requires kind % 0x20 != 0x1f
    ensures PduOf(message, pos, community) == Some(Preamble(community, kind, Kept(id), pos + 8 + |Numbers(id)|))
    ensures Holds(message, pos + 8 + |Numbers(id)|, Sequence(ASN1_TYPE_SEQUENCE_CONSTRUCTED, EncodedOid(oid) + value))
  {
    hide EncodedOid, Numbers, NumbersOf, ChunkHeader, Kept, Holds, Sequence;
    var varbind := Sequence(ASN1_TYPE_SEQUENCE_CONSTRUCTED, EncodedOid(oid) + value);
    var list := VarbindList(oid, value);
    SequenceLonger(kind, Numbers(id) + list);
    SequenceLonger(ASN1_TYPE_SEQUENCE_CONSTRUCTED, varbind);
    SequenceHeader(message, pos, kind, Numbers(id) + list);
    HoldsSplit(message, pos + 4, Numbers(id), list);
    NumbersRead(message, pos + 4, id);
    SequenceHeader(message, pos + 4 + |Numbers(id)|, ASN1_TYPE_SEQUENCE_CONSTRUCTED, varbind);
  }

  /** Where the varbind of a message starts. */
  function VarbindPos(community: seq<u8>, id: u32): nat {
    4 + |Front(community)| + 8 + |Numbers(id)|
  }

  lemma {:induction false} PartsSized(community: seq<u8>, kind: u8, id: u32, oid: seq<u16>, value: seq<u8>)
    requires Sized(community, kind, id, oid, value)
    ensures |community| < 0x1_0000 && |Pdu(kind, id, oid, value)| < 0x1_0000
    ensures |Front(community) + Pdu(kind, id, oid, value)| < 0x1_0000 && |EncodedOid(oid) + value| < 0x1_0000
    ensures |oid| <= 20
  {
    hide EncodedInteger, EncodedOid;
  }

  /** Everything before the varbind is read back; the community string if it fits the reader's buffer. */
  lemma {:induction false} PreambleReads(message: seq<u8>, community: seq<u8>, kind: u8, id: u32, oid: seq<u16>,
                                         value: seq<u8>)
    requires Holds(message, 0, Message(community, kind, id, oid, value)) && Sized(community, kind, id, oid, value)
    requires kind % 0x20 != 0x1f
    ensures PreambleOf(message)
            == if |community| < 32 then Some(Preamble(community, kind, Kept(id), VarbindPos(community, id))) else None
    ensures |community| < 32 ==>
              Holds(message, VarbindPos(community, id),
                Sequence(ASN1_TYPE_SEQUENCE_CONSTRUCTED, EncodedOid(oid) + value))
  {
    hide Sized, EncodedOid, CommunityOf, PduOf, Numbers, Kept, Holds, Sequence, Front, Pdu, EncodedInteger,
      EncodedString;
    PartsSized(community, kind, id, oid, value);
    CommunityReads(message, community, Pdu(kind, id, oid, value));
    if |community| < 32 {
      PduReads(message, 4 + |Front(community)|, community, kind, id, oid, value);
    }
  }

  /** The varbind's identifier is read back, and the value stands behind it. */
  lemma {:induction false} OidReads(message: seq<u8>, pos: nat, oid: seq<u16>, value: seq<u8>)
    requires Holds(message, pos, Sequence(ASN1_TYPE_SEQUENCE_CONSTRUCTED, EncodedOid(oid) + value))
    requires |EncodedOid(oid) + value| < 0x1_0000 && |oid| <= 20
    ensures OidOf(message, pos) == Some(Decoded([1, 3, 6, 1] + oid, pos + 4 + |EncodedOid(oid)|))
    ensures Holds(message, pos + 4 + |EncodedOid(oid)|, value)
  {
    hide EncodedOid, OidBody, OidAt, ChunkHeader, Holds, Sequence;
    SequenceHeader(message, pos, ASN1_TYPE_SEQUENCE_CONSTRUCTED, EncodedOid(oid) + value);
    HoldsSplit(message, pos + 4, EncodedOid(oid), value);
    TwentyNumbersFit(oid);
    OidDecodes(message, pos + 4, oid, 24);
  }

  /** A GetRequest or GetNextRequest is read back, its id as far as an integer survives, when its community string is
      the agent's; else it is dropped. */
  lemma {:induction false} GetReads(message: seq<u8>, community: seq<u8>, next: bool, id: u32, oid: seq<u16>,
                                    value: seq<u8>)
    requires var kind := if next then ASN1_TYPE_SNMP_GETNEXTREQUEST else ASN1_TYPE_SNMP_GETREQUEST;
             Holds(message, 0, Message(community, kind, id, oid, value)) && Sized(community, kind, id, oid, value)
    requires 0 !in community
    ensures RequestIn(message)
            == if community == COMMUNITY then Some(Get(Kept(id), [1, 3, 6, 1] + oid, next)) else None
  {
    hide Sized, Holds, PreambleOf, OidOf, Kept, Message, EncodedOid, ExpectedIntegerAt, CString, VarbindPos;
    var kind := if next then ASN1_TYPE_SNMP_GETNEXTREQUEST else ASN1_TYPE_SNMP_GETREQUEST;
    PreambleReads(message, community, kind, id, oid, value);
    CStringWhole(community);
    if |community| < 32 {
      PartsSized(community, kind, id, oid, value);
      OidReads(message, VarbindPos(community, id), oid, value);
    }
  }

  lemma {:induction false} SetReads(message: seq<u8>, community: seq<u8>, id: u32, oid: seq<u16>, v: u32)
    requires Holds(message, 0, Message(community, ASN1_TYPE_SNMP_SETREQUEST, id, oid, EncodedInteger(v)))
    requires Sized(community, ASN1_TYPE_SNMP_SETREQUEST, id, oid, EncodedInteger(v)) && 0 !in community
    ensures RequestIn(message)
            == if community == COMMUNITY then Some(Set(Kept(id), [1, 3, 6, 1] + oid, Some(Kept(v)))) else None
  {
    hide Sized, Holds, PreambleOf, OidOf, Kept, Message, EncodedOid, EncodedInteger, ExpectedIntegerAt, CString,
      VarbindPos;
    PreambleReads(message, community, ASN1_TYPE_SNMP_SETREQUEST, id, oid, EncodedInteger(v));
    CStringWhole(community);
    if |community| < 32 {
      PartsSized(community, ASN1_TYPE_SNMP_SETREQUEST, id, oid, EncodedInteger(v));
      OidReads(message, VarbindPos(community, id), oid, EncodedInteger(v));
      IntegerDecodes(message, VarbindPos(community, id) + 4 + |EncodedOid(oid)|, v);
    }
  }

  lemma {:induction false} TableAndIndex(oid: seq<u16>)
    ensures |[1, 3, 6, 1] + oid| == |oid| + 4
    ensures |oid| == 6 ==> ([1, 3, 6, 1] + oid)[8] % 0x1_0000 == oid[4] && ([1, 3, 6, 1] + oid)[9] % 0x1_0000 == oid[5]
  {
  }

  /** A response carrying an integer for an identifier of six numbers is read back. */
  lemma {:induction false} ResponseReads(message: seq<u8>, community: seq<u8>, id: u32, oid: seq<u16>, v: u32)
    requires Holds(message, 0, Message(community, ASN1_TYPE_SNMP_GETRESPONSE, id, oid, EncodedInteger(v)))
    requires Sized(community, ASN1_TYPE_SNMP_GETRESPONSE, id, oid, EncodedInteger(v))
    ensures ResponseIn(message)
            == if |community| < 32 && |oid| == 6 then Some(Response(Kept(id), oid[4], oid[5], Kept(v))) else None
  {
    hide Sized, Holds, PreambleOf, OidOf, Kept, Message, EncodedOid, EncodedInteger, ExpectedIntegerAt, VarbindPos;
    PreambleReads(message, community, ASN1_TYPE_SNMP_GETRESPONSE, id, oid, EncodedInteger(v));
    if |community| < 32 {
      PartsSized(community, ASN1_TYPE_SNMP_GETRESPONSE, id, oid, EncodedInteger(v));
      OidReads(message, VarbindPos(community, id), oid, EncodedInteger(v));
      IntegerDecodes(message, VarbindPos(community, id) + 4 + |EncodedOid(oid)|, v);
      TableAndIndex(oid);
    }
  }

  /** One that carries anything else is refused. */
  lemma {:induction false} OtherResponseFails(message: seq<u8>, community: seq<u8>, id: u32, oid: seq<u16>,
                                              value: seq<u8>)
    requires Holds(message, 0, Message(community, ASN1_TYPE_SNMP_GETRESPONSE, id, oid, value))
    requires Sized(community, ASN1_TYPE_SNMP_GETRESPONSE, id, oid, value)
    requires |value| > 0 && value[0] != ASN1_TYPE_INTEGER
    ensures ResponseIn(message) == None
  {
    hide Sized, Holds, PreambleOf, OidOf, Kept, Message, EncodedOid, VarbindPos, BigEndian, IntegerAt;
    PreambleReads(message, community, ASN1_TYPE_SNMP_GETRESPONSE, id, oid, value);
    if |community| < 32 {
      PartsSized(community, ASN1_TYPE_SNMP_GETRESPONSE, id, oid, value);
      OidReads(message, VarbindPos(community, id), oid, value);
      HoldsAt(message, VarbindPos(community, id) + 4 + |EncodedOid(oid)|, value, 0);
    }
  }

  /** A message whose version number is not read as 1, that of SNMPv2c, is dropped by agent and client alike. */
  lemma {:induction false} OtherVersionDropped(message: seq<u8>, version: u32, rest: seq<u8>)
    requires Holds(message, 0, Sequence(ASN1_TYPE_SEQUENCE_CONSTRUCTED, EncodedInteger(version) + rest))
    requires |EncodedInteger(version) + rest| < 0x1_0000 && Kept(version) != 1
    ensures RequestIn(message) == None && ResponseIn(message) == None
  {
    hide EncodedInteger, ExpectedIntegerAt, ChunkHeader, Kept, Holds, Sequence, PduOf;
    SequenceHeader(message, 0, ASN1_TYPE_SEQUENCE_CONSTRUCTED, EncodedInteger(version) + rest);
    HoldsSplit(message, 4, EncodedInteger(version), rest);
    IntegerDecodes(message, 4, version);
  }

  /** The agent drops every kind of message but GetRequest (A0), GetNextRequest (A1) and SetRequest (A3) and tells these
      apart; the client drops every kind but the response (A2). */
  lemma {:induction false} KindsTakenApart(message: seq<u8>, community: seq<u8>, kind: u8, id: u32, oid: seq<u16>,
                                            value: seq<u8>)
    requires Holds(message, 0, Message(community, kind, id, oid, value)) && Sized(community, kind, id, oid, value)
    requires kind % 0x20 != 0x1f
    ensures match RequestIn(message)
            case None => true
            case Some(Get(_, _, next)) => kind == if next then 0xa1 else 0xa0
            case Some(Set(_, _, _)) => kind == 0xa3
    ensures kind != 0xa2 ==> ResponseIn(message) == None
  {
    hide Sized, Holds, PreambleOf, OidOf, Kept, Message, ExpectedIntegerAt, CString, VarbindPos;
    PreambleReads(message, community, kind, id, oid, value);
  }

  /** Every message built starts with its own header, version 1 and the community string. */
  lemma {:induction false} MessageStarts(community: seq<u8>, kind: u8, id: u32, oid: seq<u16>, value: seq<u8>)
    requires |community| < 128
    ensures var m := Message(community, kind, id, oid, value);
            |m| >= 9 + |community|
            && m[..2] == [0x30, 0x82] && m[4..9] == [0x02, 0x01, 0x01, 0x04, |community|]
            && m[9..9 + |community|] == community
  {
    hide Pdu;
    assert EncodedInteger(SNMP_VERSION_2C) == [0x02, 0x01, 0x01];
    var content := Front(community) + Pdu(kind, id, oid, value);
    assert Front(community) == [0x02, 0x01, 0x01, 0x04, |community|] + community;
  }
}
