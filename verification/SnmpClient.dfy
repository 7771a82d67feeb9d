/** The power controller's requests and its reading of the replies (legacy-trunk/src/pductrl/PDUController.cpp). */
module SnmpClient {
  import opened Bits
  import opened Options
  import opened Ber
  import opened BerBuffers
  import opened Snmp
  import opened SnmpBuffers

  const BODY_SIZE := 2048

  /** The NULL value of a GetRequest's varbind. */
  const NULL_VALUE: seq<u8> := [ASN1_TYPE_NULL, 0]

  /** The row of a table and index under the controller's enterprise number. */
  function RowOf(table: u16, index: u16): seq<u16> {
    [4, 1, DRAWERSTEAK_PEN, 2, table, index]
  }

  /** The id a request takes, zero skipped. */
  function IdFrom(counter: u32): (id: u32)
    ensures id != 0
  {
    if counter == 0 then 1 else counter
  }

  class PDUController {
    var m_requestID: u32
    const m_readCommunity: seq<u8>

    constructor (community: seq<u8>)
      ensures m_requestID == 1 && m_readCommunity == community
    {
      m_requestID := 1;
      m_readCommunity := community;
    }

    method NextRequestID() returns (reqid: u32)
      modifies `m_requestID
      ensures reqid == IdFrom(old(m_requestID)) && m_requestID == (reqid + 1) % TWO_32
    {
      reqid := m_requestID;
      m_requestID := (m_requestID + 1) % TWO_32;
      if reqid == 0 {
        reqid := m_requestID;
        m_requestID := (m_requestID + 1) % TWO_32;
      }
    }

    /** `packet` is what is sent; zero is returned when sending fails. */
    method SendSnmpGetRequest(table: u16, index: u16, sent: bool) returns (reqid: u32, packet: seq<u8>)
      requires |Message(m_readCommunity, ASN1_TYPE_SNMP_GETREQUEST, IdFrom(m_requestID), RowOf(table, index),
          NULL_VALUE)| <= BODY_SIZE
      modifies `m_requestID
      ensures var id := IdFrom(old(m_requestID));
        && reqid == (if sent then id else 0) && m_requestID == (id + 1) % TWO_32
        && packet == Message(m_readCommunity, ASN1_TYPE_SNMP_GETREQUEST, id, RowOf(table, index), NULL_VALUE)
    {
      hide Splice, Message, Opening;
      reqid := NextRequestID();
      var body := new u8[BODY_SIZE](_ => 0);
      var row := RowOf(table, index);
      var entry: seq<u16> := [6] + row;
      assert entry[1..7] == row;
      OpeningLength(m_readCommunity, ASN1_TYPE_SNMP_GETREQUEST, reqid, row, NULL_VALUE);
      ghost var was := body[..];
      var packlen, ptrs := BeginMessage(body, m_readCommunity, ASN1_TYPE_SNMP_GETREQUEST, reqid, entry);
      body[packlen] := ASN1_TYPE_NULL;
      body[packlen + 1] := 0;
      packlen := packlen + 2;
      NullWritten(was, Opening(m_readCommunity, ASN1_TYPE_SNMP_GETREQUEST, reqid, row), body[..]);
      EndMessage(body, packlen, ptrs, was, m_readCommunity, ASN1_TYPE_SNMP_GETREQUEST, reqid, row, NULL_VALUE);
      packet := body[..packlen];
      SplicedFront(was, Message(m_readCommunity, ASN1_TYPE_SNMP_GETREQUEST, reqid, row, NULL_VALUE));
      if !sent {
        reqid := 0;
      }
    }

    method SendSnmpSetRequest(table: u16, index: u16, value: u32, sent: bool) returns (reqid: u32, packet: seq<u8>)
      requires |Message(m_readCommunity, ASN1_TYPE_SNMP_SETREQUEST, IdFrom(m_requestID), RowOf(table, index),
          EncodedInteger(value))|
               <= BODY_SIZE
      modifies `m_requestID
      ensures var id := IdFrom(old(m_requestID));
        && reqid == (if sent then id else 0) && m_requestID == (id + 1) % TWO_32
        && packet == Message(m_readCommunity, ASN1_TYPE_SNMP_SETREQUEST, id, RowOf(table, index), EncodedInteger(value))
    {
      hide Splice, Message, Opening, EncodedInteger;
      reqid := NextRequestID();
      var body := new u8[BODY_SIZE](_ => 0);
      var row := RowOf(table, index);
      var entry: seq<u16> := [6] + row;
      assert entry[1..7] == row;
      ghost var opening := Opening(m_readCommunity, ASN1_TYPE_SNMP_SETREQUEST, reqid, row);
      OpeningLength(m_readCommunity, ASN1_TYPE_SNMP_SETREQUEST, reqid, row, EncodedInteger(value));
      ghost var was := body[..];
      var packlen, ptrs := BeginMessage(body, m_readCommunity, ASN1_TYPE_SNMP_SETREQUEST, reqid, entry);
      packlen := BEREncodeInteger(body, packlen, value);
      SpliceJoin(was, 0, opening, EncodedInteger(value));
      EndMessage(body, packlen, ptrs, was, m_readCommunity, ASN1_TYPE_SNMP_SETREQUEST, reqid, row,
        EncodedInteger(value));
      packet := body[..packlen];
      SplicedFront(was, Message(m_readCommunity, ASN1_TYPE_SNMP_SETREQUEST, reqid, row, EncodedInteger(value)));
      if !sent {
        reqid := 0;
      }
    }

    /** Reads a response out of a cleared buffer; `received` is None when recv fails. */
    static method RecvSnmpGetResponse(received: Option<seq<u8>>) returns (r: Option<Response>)
      requires received.Some? ==> |received.value| <= BODY_SIZE
      ensures r == if received.None? then None else ResponseIn(Buffer(received.value))
    {
      hide PreambleOf, OidOf, ExpectedIntegerAt;
      var packet :- received;
      var body := new u8[BODY_SIZE](i requires 0 <= i < BODY_SIZE => if i < |packet| then packet[i] else 0);
      assert body[..] == Buffer(packet);
      var p :- ReadPreamble(body);
      if p.kind != ASN1_TYPE_SNMP_GETRESPONSE {
        return None;
      }
      var oid :- ReadOid(body, p.pos);
      if |oid.value| != 10 {
        return None;
      }
      var value :- BERDecodeExpectedInteger(body, oid.pos);
      return Some(Response(p.id, oid.value[8] % 0x1_0000, oid.value[9] % 0x1_0000, value.value));
    }

    /** Sets a value and waits for one response; `network` is what comes back for a packet. */
    method BlockingSnmpSet(table: u16, index: u16, value: u32, sent: bool,
                           network: seq<u8> -> Option<seq<u8>>)
      returns (ok: bool)
      requires |Message(m_readCommunity, ASN1_TYPE_SNMP_SETREQUEST, IdFrom(m_requestID), RowOf(table, index),
          EncodedInteger(value))|
               <= BODY_SIZE
      requires forall p :: network(p).Some? ==> |network(p).value| <= BODY_SIZE
      modifies `m_requestID
      ensures m_requestID == (IdFrom(old(m_requestID)) + 1) % TWO_32
      ensures var id := IdFrom(old(m_requestID));
              var reply := network(Message(m_readCommunity, ASN1_TYPE_SNMP_SETREQUEST, id, RowOf(table, index),
                EncodedInteger(value)));
              ok <==> reply.Some?
                      && ResponseIn(Buffer(reply.value)) == Some(Response(if sent then id else 0, table, index, value))
    {
      hide Message, ResponseIn, EncodedInteger;
      var reqid, packet := SendSnmpSetRequest(table, index, value, sent);
      var response := RecvSnmpGetResponse(network(packet));
      ok := response.Some? && response.value.id == reqid && response.value.table == table
        && response.value.index == index && response.value.value == value;
    }
  }

  /** A packet received into a cleared buffer. */
  function Buffer(packet: seq<u8>): (body: seq<u8>)
    requires |packet| <= BODY_SIZE
    ensures |body| == BODY_SIZE
  {
    packet + seq(BODY_SIZE - |packet|, _ => 0)
  }

  lemma {:induction false} NullWritten(was: seq<u8>, opening: seq<u8>, body: seq<u8>)
    requires |opening| + 2 <= |was| && body == Splice(was, 0, opening)[|opening| := ASN1_TYPE_NULL][|opening| + 1 := 0]
    ensures body == Splice(was, 0, opening + NULL_VALUE)
  {
  }
}
