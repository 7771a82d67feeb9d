/** The agent (legacy-trunk/src/PDUFirmware/SNMP.c): it reads a request, finds the entry it asks for and answers. */
module SnmpAgent {
  import opened Bits
  import opened Options
  import opened Ber
  import opened BerBuffers
  import opened Snmp
  import opened SnmpBuffers
  import opened OidTable

  // ----- the table

  /** Rows `1 .. n` of one of the controller's tables, under its enterprise number. */
  function Entries(table: u16, n: u16): (rows: seq<Row>)
    ensures |rows| == n
  {
    seq(n, i requires 0 <= i < n => [4, 1, DRAWERSTEAK_PEN, 2, table, (i + 1) as u16])
  }

  const SYSTEM_ROWS: seq<Row> := [[2, 1, 1, 1, 0], [2, 1, 1, 2, 0], [2, 1, 1, 3, 0], [2, 1, 1, 5, 0], [2, 1, 1, 7, 0]]

  /** System, temperatures, currents, voltages, switches, limits, inrush timers, nominal voltage. */
  const G_OIDS: seq<Row> :=
    SYSTEM_ROWS + Entries(1, 2) + Entries(2, 10) + Entries(3, 2) + Entries(4, 10) + Entries(5, 10)
    + Entries(6, 10) + Entries(7, 1)

  const OID_SOFTWARE_VERSION := 0
  const OID_DEVICE_OID := 1
  const OID_HOSTNAME := 3
  const OID_SERVICES := 4
  const OID_TEMP0 := 5
  const OID_CUR0 := 7
  const OID_VOLT0 := 17
  const OID_PWR0 := 19
  const OID_LIMIT0 := 29
  const OID_INRUSH0 := 39
  const OID_VNOM := 49

  const DEVICE_OID: seq<u16> := [4, 1, DRAWERSTEAK_PEN, 1, 1]

  lemma {:induction false} EntriesOrdered(t: u16, i: u16, u: u16, j: u16)
    ensures Less([4, 1, DRAWERSTEAK_PEN, 2, t, i], [4, 1, DRAWERSTEAK_PEN, 2, u, j]) <==> t < u || (t == u && i < j)
  {
    var a: seq<nat>, b: seq<nat> := [4, 1, DRAWERSTEAK_PEN, 2, t, i], [4, 1, DRAWERSTEAK_PEN, 2, u, j];
    assert a[..4] == b[..4];
    LessAt(a, b, 4);
    assert a[4..] == [t, i] && b[4..] == [u, j];
    assert a[4..][1..] == [i] && b[4..][1..] == [j];
    PairOrder(t, i, u, j);
  }

  lemma {:induction false} PairOrder(t: nat, i: nat, u: nat, j: nat)
    ensures Less([t, i], [u, j]) <==> t < u || (t == u && i < j)
  {
    assert [t, i][1..] == [i] && [u, j][1..] == [j];
    assert Less([i], [j]) <==> i < j;
  }

  lemma SystemSorted()
    ensures Sorted(SYSTEM_ROWS)
  {
    forall i, j | 0 <= i < j < 5
      ensures Less(SYSTEM_ROWS[i], SYSTEM_ROWS[j])
    {
      var a, b := SYSTEM_ROWS[i], SYSTEM_ROWS[j];
      assert a[..3] == b[..3];
      LessAt(a, b, 3);
    }
  }

  /** Rows up to a table, all from tables before it. */
  predicate Before(rows: seq<Row>, table: u16) {
    forall i :: 0 <= i < |rows| ==> Less(rows[i], [4, 1, DRAWERSTEAK_PEN, 2, table, 1])
  }

  lemma {:induction false} AddTable(rows: seq<Row>, table: u16, n: u16, next: u16)
    requires Sorted(rows) && Before(rows, table) && table < next && n > 0
    ensures Sorted(rows + Entries(table, n)) && Before(rows + Entries(table, n), next)
  {
    hide Less;
    var all := rows + Entries(table, n);
    var first: Row := [4, 1, DRAWERSTEAK_PEN, 2, table, 1];
    var after: Row := [4, 1, DRAWERSTEAK_PEN, 2, next, 1];
    EntriesOrdered(table, 1, next, 1);
    forall j | |rows| <= j < |all|
      ensures all[j] == first || Less(first, all[j])
      ensures Less(all[j], after)
    {
      var k: u16 := j - |rows| + 1;
      assert all[j] == [4, 1, DRAWERSTEAK_PEN, 2, table, k];
      EntriesOrdered(table, 1, table, k);
      EntriesOrdered(table, k, next, 1);
    }
    forall i, j | 0 <= i < j < |all|
      ensures Less(all[i], all[j])
    {
      if i < |rows| {
        if j >= |rows| && all[j] != first {
          LessIsTransitive(all[i], first, all[j]);
        }
      } else {
        EntriesOrdered(table, (i - |rows| + 1) as u16, table, (j - |rows| + 1) as u16);
      }
    }
    forall i | 0 <= i < |rows|
      ensures Less(all[i], after)
    {
      LessIsTransitive(all[i], first, after);
    }
  }

  /** The table is in increasing order, as its search needs. */
  lemma TableIsSorted()
    ensures Sorted(G_OIDS) && |G_OIDS| == 50
  {
    hide Less, Sorted, Before, Entries;
    SystemSorted();
    SystemFirst();
    AddTable(SYSTEM_ROWS, 1, 2, 2);
    AddTable(SYSTEM_ROWS + Entries(1, 2), 2, 10, 3);
    AddTable(SYSTEM_ROWS + Entries(1, 2) + Entries(2, 10), 3, 2, 4);
    AddTable(SYSTEM_ROWS + Entries(1, 2) + Entries(2, 10) + Entries(3, 2), 4, 10, 5);
    AddTable(SYSTEM_ROWS + Entries(1, 2) + Entries(2, 10) + Entries(3, 2) + Entries(4, 10), 5, 10, 6);
    AddTable(SYSTEM_ROWS + Entries(1, 2) + Entries(2, 10) + Entries(3, 2) + Entries(4, 10) + Entries(5, 10), 6, 10, 7);
    AddTable(SYSTEM_ROWS + Entries(1, 2) + Entries(2, 10) + Entries(3, 2) + Entries(4, 10) + Entries(5, 10)
             + Entries(6, 10), 7, 1, 8);
  }

  lemma SystemFirst()
    ensures Before(SYSTEM_ROWS, 1)
  {
  }

  // ----- answering

  /** What the values of an answer are made from: texts, the uptime in hundredths of a second, and what the sensors,
      switches and settings read, by number. */
  datatype Readings = Readings(version: seq<u8>, hostname: seq<u8>, uptime: u32, nominalVoltage: u32,
                               temperature: nat -> u32, current: nat -> u32, voltage: nat -> u32,
                               switch: nat -> u32, limit: nat -> u32, inrush: nat -> u32)

  /** What the entries that hold an integer read. */
  function Reading(entry: nat, r: Readings): u32 {
    if entry == OID_SERVICES then 0x48
    else if entry < OID_TEMP0 then r.uptime
    else if entry < OID_CUR0 then r.temperature(entry - OID_TEMP0)
    else if entry < OID_VOLT0 then r.current(entry - OID_CUR0)
    else if entry < OID_PWR0 then r.voltage(entry - OID_VOLT0)
    else if entry < OID_LIMIT0 then r.switch(entry - OID_PWR0)
    else if entry < OID_INRUSH0 then r.limit(entry - OID_LIMIT0)
    else if entry < OID_VNOM then r.inrush(entry - OID_INRUSH0)
    else r.nominalVoltage
  }

  function ValueBytes(oid_index: int, r: Readings): seq<u8> {
    if oid_index == -2 then [ASN1_TYPE_SNMP_NO_SUCH_OBJECT, 0]
    else if oid_index < 0 then [ASN1_TYPE_SNMP_END_OF_MIB, 0]
    else if oid_index == OID_SOFTWARE_VERSION then EncodedString(r.version)
    else if oid_index == OID_DEVICE_OID then EncodedOid(DEVICE_OID)
    else if oid_index == OID_HOSTNAME then EncodedString(r.hostname)
    else EncodedInteger(Reading(oid_index, r))
  }

  /** The row named in an answer: the last one when there is no entry to name. */
  function Named(oid_index: int): (row: Row)
    requires -2 <= oid_index < 50
    ensures 5 <= |row| <= 6 && (oid_index >= 5 ==> |row| == 6)
  {
    TableIsSorted();
    if oid_index < 0 then G_OIDS[49] else G_OIDS[oid_index]
  }

  method SNMPGenerateGetPacketBody(message: array<u8>, startpos: nat, oid_index: int, r: Readings) returns (pos: nat)
    requires -2 <= oid_index < 50 && startpos + |ValueBytes(oid_index, r)| < message.Length
    modifies message
    ensures pos == startpos + |ValueBytes(oid_index, r)|
    ensures message[..pos] == old(message[..startpos]) + ValueBytes(oid_index, r)
  {
    hide EncodedString, EncodedOid, EncodedInteger;
    ghost var was := message[..];
    if oid_index < 0 {
      message[startpos] := if oid_index == -2 then ASN1_TYPE_SNMP_NO_SUCH_OBJECT else ASN1_TYPE_SNMP_END_OF_MIB;
      message[startpos + 1] := 0;
      return startpos + 2;
    }
    if oid_index == OID_SOFTWARE_VERSION {
      pos := BEREncodeString(message, startpos, r.version);
    } else if oid_index == OID_DEVICE_OID {
      var entry: seq<u16> := [5] + DEVICE_OID;
      assert entry[1..6] == DEVICE_OID;
      pos := BEREncodeOID(message, startpos, entry);
    } else if oid_index == OID_HOSTNAME {
      pos := BEREncodeString(message, startpos, r.hostname);
    } else if oid_index == OID_SERVICES {
      pos := BEREncodeInteger(message, startpos, 0x48);
    } else if oid_index < OID_TEMP0 {
      pos := BEREncodeInteger(message, startpos, r.uptime);
    } else if oid_index < OID_CUR0 {
      pos := BEREncodeInteger(message, startpos, r.temperature(oid_index - OID_TEMP0));
    } else if oid_index < OID_VOLT0 {
      pos := BEREncodeInteger(message, startpos, r.current(oid_index - OID_CUR0));
    } else if oid_index < OID_PWR0 {
      pos := BEREncodeInteger(message, startpos, r.voltage(oid_index - OID_VOLT0));
    } else if oid_index < OID_LIMIT0 {
      pos := BEREncodeInteger(message, startpos, r.switch(oid_index - OID_PWR0));
    } else if oid_index < OID_INRUSH0 {
      pos := BEREncodeInteger(message, startpos, r.limit(oid_index - OID_LIMIT0));
    } else if oid_index < OID_VNOM {
      pos := BEREncodeInteger(message, startpos, r.inrush(oid_index - OID_INRUSH0));
    } else {
      pos := BEREncodeInteger(message, startpos, r.nominalVoltage);
    }
  }

  /** `packet` is what is sent back. */
  method SNMPSendGetResponse(body: array<u8>, request_id: u32, oid_index: int, r: Readings) returns (packet: seq<u8>)
    requires -2 <= oid_index < 50
    requires |Message(COMMUNITY, ASN1_TYPE_SNMP_GETRESPONSE, request_id, Named(oid_index),
        ValueBytes(oid_index, r))| < body.Length
    modifies body
    ensures packet
        == Message(COMMUNITY, ASN1_TYPE_SNMP_GETRESPONSE, request_id, Named(oid_index), ValueBytes(oid_index, r))
  {
    hide Splice, Message, Opening, ValueBytes, Named;
    var row := Named(oid_index);
    var entry: seq<u16> := [|row|] + row;
    assert entry[1..1 + entry[0] as nat] == row;
    OpeningLength(COMMUNITY, ASN1_TYPE_SNMP_GETRESPONSE, request_id, row, ValueBytes(oid_index, r));
    ghost var opening := Opening(COMMUNITY, ASN1_TYPE_SNMP_GETRESPONSE, request_id, row);
    ghost var before := body[..];
    var packlen, ptrs := BeginMessage(body, COMMUNITY, ASN1_TYPE_SNMP_GETRESPONSE, request_id, entry);
    SplicedFront(before, opening);
    packlen := SNMPGenerateGetPacketBody(body, packlen, oid_index, r);
    ghost var was := body[..];
    SpliceSame(was, opening + ValueBytes(oid_index, r));
    EndMessage(body, packlen, ptrs, was, COMMUNITY, ASN1_TYPE_SNMP_GETRESPONSE, request_id, row,
      ValueBytes(oid_index, r));
    packet := body[..packlen];
    SplicedFront(was, Message(COMMUNITY, ASN1_TYPE_SNMP_GETRESPONSE, request_id, row, ValueBytes(oid_index, r)));
  }

  // ----- acting on a request

  datatype Target = PowerSwitch(channel: nat) | CurrentLimit(channel: nat) | InrushTime(channel: nat)

  /** What the agent does with a packet. `ShortQuery` stands for identifiers of less than five numbers, for which the
      search reads words that were never decoded. */
  datatype Action =
    | Dropped
    | ShortQuery
    | Answered(id: nat, index: int)
    | Written(id: nat, target: Target, value: nat, index: int)

  function TargetOf(entry: nat): Target
    requires OID_PWR0 <= entry < OID_VNOM
  {
    if entry < OID_LIMIT0 then PowerSwitch(entry - OID_PWR0)
    else if entry < OID_INRUSH0 then CurrentLimit(entry - OID_LIMIT0)
    else InrushTime(entry - OID_INRUSH0)
  }

  /** While the input voltage is out of range (`lockout`) power switches are left alone, and answered as they are. */
  function ActionFor(request: Request, lockout: bool): Action {
    if |request.oid| < 5 then ShortQuery
    else
      var entry, above := EntryAt(G_OIDS, request.oid, 0), FirstAbove(G_OIDS, request.oid, 0);
      match request
      case Get(id, _, next) =>
        if next then Answered(id, if above == |G_OIDS| then -1 else above)
        else Answered(id, if entry == |G_OIDS| then -2 else entry)
      case Set(id, _, value) =>
        if !(OID_PWR0 <= entry < OID_VNOM && value.Some?) then Answered(id, -2)
        else if TargetOf(entry).PowerSwitch? && lockout then Answered(id, entry)
        else Written(id, TargetOf(entry), value.value, entry)
  }

  method SNMPProcessPacket(packet: array<u8>, lockout: bool) returns (act: Action)
    ensures act == match RequestIn(packet[..])
                   case None => Dropped
                   case Some(request) => ActionFor(request, lockout)
  {
    hide PreambleOf, OidOf, ExpectedIntegerAt, ActionFor, CString;
    var p := ReadPreamble(packet);
    if p.None? || CString(p.value.community) != COMMUNITY {
      return Dropped;
    }
    var kind := p.value.kind;
    if kind == ASN1_TYPE_SNMP_GETREQUEST || kind == ASN1_TYPE_SNMP_GETNEXTREQUEST {
      var oid := ReadOid(packet, p.value.pos);
      if oid.None? {
        return Dropped;
      }
      act := SNMPProcessGetOrGetNextRequest(p.value.id, oid.value.value, kind == ASN1_TYPE_SNMP_GETNEXTREQUEST);
    } else if kind == ASN1_TYPE_SNMP_SETREQUEST {
      var oid := ReadOid(packet, p.value.pos);
      if oid.None? {
        return Dropped;
      }
      var value := BERDecodeExpectedInteger(packet, oid.value.pos);
      act := SNMPProcessSetRequest(p.value.id, oid.value.value, if value.Some? then Some(value.value.value) else None,
                                    lockout);
    } else {
      act := Dropped;
    }
  }

  method SNMPProcessGetOrGetNextRequest(id: nat, oid: seq<nat>, getnext: bool) returns (act: Action)
    ensures forall lockout :: act == ActionFor(Get(id, oid, getnext), lockout)
  {
    hide EntryAt, FirstAbove, Less;
    if |oid| < 5 {
      return ShortQuery;
    }
    TableIsSorted();
    var index := SelectEntry(G_OIDS, oid, getnext);
    return Answered(id, index);
  }

  method SNMPProcessSetRequest(id: nat, oid: seq<nat>, value: Option<nat>, lockout: bool) returns (act: Action)
    ensures act == ActionFor(Set(id, oid, value), lockout)
  {
    hide EntryAt, FirstAbove, Less;
    if |oid| < 5 {
      return ShortQuery;
    }
    TableIsSorted();
    var index := SelectEntry(G_OIDS, oid, false);
    if index < 0 || value.None? {
      return Answered(id, -2);
    }
    if OID_PWR0 <= index < OID_VNOM {
      var target := TargetOf(index);
      if target.PowerSwitch? && lockout {
        return Answered(id, index);
      }
      return Written(id, target, value.value, index);
    }
    return Answered(id, -2);
  }

  // ----- which identifier an answer names

  /** The identifier that RFC 3416 wants in the answer (sections 4.2.1, 4.2.2 and 4.2.5): that of the request, but for
      GETNEXT the one of the next entry, if there is one. */
  function NameDue(request: Request): seq<nat> {
    var above := FirstAbove(G_OIDS, request.oid, 0);
    if request.Get? && request.next && above < |G_OIDS| then Full(G_OIDS[above]) else request.oid
  }

  /** The identifier that the agent's answer carries. */
  function NameGiven(request: Request, lockout: bool): seq<nat>
    requires |request.oid| >= 5
  {
    TableIsSorted();
    Full(Named(ActionFor(request, lockout).index))
  }

  /** What must be so of a request for that to be the identifier in the answer. */
  predicate NamedAsDue(request: Request) {
    TableIsSorted();
    var entry := EntryAt(G_OIDS, request.oid, 0);
    match request
    case Get(_, oid, true) => FirstAbove(G_OIDS, oid, 0) < |G_OIDS| || oid == Full(G_OIDS[49])
    case Get(_, _, false) => entry < |G_OIDS|
    case Set(_, oid, value) => (OID_PWR0 <= entry < OID_VNOM && value.Some?) || oid == Full(G_OIDS[49])
  }

  /** The answer names what it should exactly for these requests: a GET of an entry, a GETNEXT of anything but an
      identifier past the last row, a SET of a writable entry with an integer, and a SET of the last row. */
  lemma {:induction false} AnswerNames(request: Request, lockout: bool)
    requires |request.oid| >= 5
    ensures NameGiven(request, lockout) == NameDue(request) <==> NamedAsDue(request)
  {
    hide EntryAt, FirstAbove, Less, Full;
    TableIsSorted();
    var entry := EntryAt(G_OIDS, request.oid, 0);
    if entry == |G_OIDS| {
      assert Full(G_OIDS[49]) != request.oid;
    }
  }

  lemma LastRow()
    ensures |G_OIDS| == 50 && G_OIDS[49] == [4, 1, DRAWERSTEAK_PEN, 2, 7, 1]
    ensures G_OIDS[0] == [2, 1, 1, 1, 0] && G_OIDS[2] == [2, 1, 1, 3, 0] && G_OIDS[3] == [2, 1, 1, 5, 0]
  {
  }

  /** system.4.0 lies between the third row and the fourth. */
  lemma NoSuchRow()
    ensures |G_OIDS| == 50 && EntryAt(G_OIDS, [1, 3, 6, 1, 2, 1, 1, 4, 0], 0) == 50
  {
    hide EntryAt, FirstAbove, Sorted;
    TableIsSorted();
    LastRow();
    var row: Row := [2, 1, 1, 4, 0];
    assert Full(row) == [1, 3, 6, 1, 2, 1, 1, 4, 0];
    FullOrder(G_OIDS[2], row);
    FullOrder(row, G_OIDS[3]);
    LessAt(G_OIDS[2], row, 3);
    LessAt(row, G_OIDS[3], 3);
    assert Less(G_OIDS[2], row) && Less(row, G_OIDS[3]);
    ClassifiedAbove(G_OIDS, Full(row), Miss, 2);
  }

  /** private.5 lies above the last row. */
  lemma PastTheEnd()
    ensures |G_OIDS| == 50 && FirstAbove(G_OIDS, [1, 3, 6, 1, 5], 0) == 50 && Full(G_OIDS[49]) != [1, 3, 6, 1, 5]
  {
    hide EntryAt, FirstAbove, Sorted;
    TableIsSorted();
    LastRow();
    var row: Row := [5];
    assert Full(row) == [1, 3, 6, 1, 5];
    FullOrder(G_OIDS[49], row);
    ClassifiedAbove(G_OIDS, Full(row), TooHigh, 49);
  }

  lemma FirstRow()
    ensures |G_OIDS| == 50 && EntryAt(G_OIDS, [1, 3, 6, 1, 2, 1, 1, 1, 0], 0) == 0
    ensures Full(G_OIDS[49]) != [1, 3, 6, 1, 2, 1, 1, 1, 0]
  {
    hide EntryAt, Less;
    TableIsSorted();
    LastRow();
    assert Full(G_OIDS[0]) == [1, 3, 6, 1, 2, 1, 1, 1, 0];
    EntryIsUnique(G_OIDS, Full(G_OIDS[0]), 0);
  }

  /** Answers under another name: to a GET of system.4.0, to a GETNEXT of 1.3.6.1.5, and to a SET of the software
      version, which can only be read. */
  lemma {:induction false} MisnamedAnswers(id: nat, value: nat, lockout: bool)
    ensures var get := Get(id, [1, 3, 6, 1, 2, 1, 1, 4, 0], false); NameGiven(get, lockout) != NameDue(get)
    ensures var next := Get(id, [1, 3, 6, 1, 5], true); NameGiven(next, lockout) != NameDue(next)
    ensures var set' := Set(id, [1, 3, 6, 1, 2, 1, 1, 1, 0], Some(value)); NameGiven(set', lockout) != NameDue(set')
  {
    hide Less, EntryAt, FirstAbove, Sorted, NameGiven, NameDue, Full;
    AnswerNames(Get(id, [1, 3, 6, 1, 2, 1, 1, 4, 0], false), lockout);
    AnswerNames(Get(id, [1, 3, 6, 1, 5], true), lockout);
    AnswerNames(Set(id, [1, 3, 6, 1, 2, 1, 1, 1, 0], Some(value)), lockout);
    NoSuchRow();
    PastTheEnd();
    FirstRow();
  }
}
