/** What stands in the agent's answers, read back from the packet (legacy-trunk/src/PDUFirmware/SNMP.c:499-700). */
module SnmpValues {
  import opened Bits
  import opened Options
  import opened Ber
  import opened Snmp
  import opened OidTable
  import opened SnmpAgent

  /** The answer sent for an entry, or for none. */
  function Answer(id: u32, index: int, r: Readings): seq<u8>
    requires -2 <= index < 50
  {
    Message(COMMUNITY, ASN1_TYPE_SNMP_GETRESPONSE, id, Named(index), ValueBytes(index, r))
  }

  /** Where the value of an answer stands, as a reader finds it. */
  function ValuePos(message: seq<u8>): Option<nat> {
    var p :- PreambleOf(message);
    var oid :- OidOf(message, p.pos);
    Some(oid.pos)
  }

  /** The string that a reader finds there. */
  function StringIn(message: seq<u8>, maxlen: nat): Option<seq<u8>> {
    var pos :- ValuePos(message);
    var name :- Expect(message, pos, 0x04);
    var text :- StringAt(message, name.pos, name.length, maxlen);
    Some(text.value)
  }

  /** The identifier that a reader with 24 words finds there. */
  function IdentifierIn(message: seq<u8>): Option<seq<nat>> {
    var pos :- ValuePos(message);
    var h :- Expect(message, pos, 0x06);
    var oid :- OidAt(message, h.pos, h.length, 24);
    Some(oid.value)
  }

  function IntegerIn(message: seq<u8>): Option<nat> {
    var pos :- ValuePos(message);
    var x :- ExpectedIntegerAt(message, pos);
    Some(x.value)
  }

  /** The type and length of what stands there. */
  function TypeIn(message: seq<u8>): Option<(nat, nat)> {
    var pos :- ValuePos(message);
    var h :- ChunkHeader(message, pos);
    Some((h.kind, h.length))
  }

  lemma {:induction false} ValueStands(message: seq<u8>, id: u32, index: int, r: Readings)
    requires -2 <= index < 50 && Holds(message, 0, Answer(id, index, r)) && |Answer(id, index, r)| <= 0x1_0000
    ensures PreambleOf(message).Some? && ValuePos(message).Some?
    ensures var p := PreambleOf(message).value;
            && p.community == COMMUNITY && p.kind == 0xa2 && p.id == Kept(id)
            && OidOf(message, p.pos).Some? && OidOf(message, p.pos).value.value == [1, 3, 6, 1] + Named(index)
    ensures Holds(message, ValuePos(message).value, ValueBytes(index, r))
    ensures |ValueBytes(index, r)| < 0x1_0000
  {
    hide Sized, Holds, PreambleOf, OidOf, Kept, Message, EncodedOid, ValueBytes, VarbindPos, Named;
    var value, kind, row := ValueBytes(index, r), ASN1_TYPE_SNMP_GETRESPONSE, Named(index);
    assert Sized(COMMUNITY, kind, id, row, value) by { MessageSized(kind, id, row, value); }
    PreambleReads(message, COMMUNITY, kind, id, row, value);
    PartsSized(COMMUNITY, kind, id, row, value);
    OidReads(message, VarbindPos(COMMUNITY, id), row, value);
  }

  lemma {:induction false} MessageSized(kind: u8, id: u32, oid: seq<u16>, value: seq<u8>)
    requires |Message(COMMUNITY, kind, id, oid, value)| <= 0x1_0000 && |oid| <= 20
    ensures Sized(COMMUNITY, kind, id, oid, value)
  {
  }

  /** What a reader finds in the answer for each entry: the software version, the device's identifier, the host name,
      the services, and for the others what is read, when that survives; for no entry that there is no such object, and
      past the last entry that the list has ended. */
  lemma {:induction false} AnswerCarries(message: seq<u8>, id: u32, index: int, r: Readings)
    requires -2 <= index < 50 && Holds(message, 0, Answer(id, index, r)) && |Answer(id, index, r)| <= 0x1_0000
    ensures index == -2 ==> TypeIn(message) == Some((0x80, 0))
    ensures index == -1 ==> TypeIn(message) == Some((0x82, 0))
    ensures index == 0 ==>
      forall n: nat :: StringIn(message, n) == if |r.version| < n then Some(r.version) else None
    ensures index == 1 ==> IdentifierIn(message) == Some([1, 3, 6, 1, 4, 1, 42453, 1, 1])
    ensures index == 3 ==>
      forall n: nat :: StringIn(message, n) == if |r.hostname| < n then Some(r.hostname) else None
    ensures index == 4 ==> IntegerIn(message) == Some(0x48)
    ensures index == 2 || 5 <= index < 50 ==>
      IntegerIn(message).Some? && (IntegerIn(message) == Some(Reading(index, r)) <==> Survives(Reading(index, r)))
  {
    hide Holds, Answer, ValuePos, EncodedString, EncodedInteger, EncodedOid, ChunkHeader, StringAt, ExpectedIntegerAt,
      OidAt, Kept, Survives;
    ValueStands(message, id, index, r);
    var pos, value := ValuePos(message).value, ValueBytes(index, r);
    if index < 0 {
      assert value == value + [];
      ShortHeader(message, pos, value[0], 0, []);
    } else if index == 0 {
      StringStands(message, pos, r.version);
    } else if index == 1 {
      DeviceStands(message, pos);
    } else if index == 3 {
      StringStands(message, pos, r.hostname);
    } else if index == 4 {
      IntegerDecodes(message, pos, 0x48);
      SmallKept(0x48);
    } else {
      IntegerDecodes(message, pos, Reading(index, r));
      IntegerRoundTrip(Reading(index, r));
    }
  }

  lemma {:induction false} StringStands(message: seq<u8>, pos: nat, data: seq<u8>)
    requires ValuePos(message) == Some(pos) && Holds(message, pos, EncodedString(data))
    requires |EncodedString(data)| < 0x1_0000
    ensures forall n: nat :: StringIn(message, n) == if |data| < n then Some(data) else None
  {
    hide Holds, ValuePos, ChunkHeader, StringAt;
    assert |data| < 0x1_0000;
    forall n: nat
      ensures StringIn(message, n) == if |data| < n then Some(data) else None
    {
      hide EncodedString;
      StringDecodes(message, pos, data, n);
    }
  }

  lemma {:induction false} DeviceStands(message: seq<u8>, pos: nat)
    requires ValuePos(message) == Some(pos) && Holds(message, pos, EncodedOid(DEVICE_OID))
    ensures IdentifierIn(message) == Some([1, 3, 6, 1, 4, 1, 42453, 1, 1])
  {
    hide Holds, ValuePos, ChunkHeader, OidAt, EncodedOid, OidBody;
    TwentyNumbersFit(DEVICE_OID);
    OidDecodes(message, pos, DEVICE_OID, 24);
    assert [1, 3, 6, 1] + DEVICE_OID == [1, 3, 6, 1, 4, 1, 42453, 1, 1];
  }

  /** Which reading that is: the uptime, and by table and number what the controller measures or has been set to. */
  lemma {:induction false} ReadingsAre(r: Readings, i: nat)
    ensures Reading(2, r) == r.uptime && Reading(49, r) == r.nominalVoltage
    ensures i < 2 ==> Reading(5 + i, r) == r.temperature(i) && Reading(17 + i, r) == r.voltage(i)
    ensures i < 10 ==> Reading(7 + i, r) == r.current(i) && Reading(19 + i, r) == r.switch(i)
    ensures i < 10 ==> Reading(29 + i, r) == r.limit(i) && Reading(39 + i, r) == r.inrush(i)
  {
  }

  // ----- which entry

  /** The system entries' names, and how the tables' entries are named. */
  lemma {:induction false} EntryNames(k: nat)
    requires k < 50
    ensures |G_OIDS| == 50
    ensures k == 0 ==> Full(G_OIDS[k]) == [1, 3, 6, 1, 2, 1, 1, 1, 0]
    ensures k == 1 ==> Full(G_OIDS[k]) == [1, 3, 6, 1, 2, 1, 1, 2, 0]
    ensures k == 2 ==> Full(G_OIDS[k]) == [1, 3, 6, 1, 2, 1, 1, 3, 0]
    ensures k == 3 ==> Full(G_OIDS[k]) == [1, 3, 6, 1, 2, 1, 1, 5, 0]
    ensures k == 4 ==> Full(G_OIDS[k]) == [1, 3, 6, 1, 2, 1, 1, 7, 0]
    ensures k >= 5 ==>
      var (table, first) := if k < 7 then (1, 5) else if k < 17 then (2, 7) else if k < 19 then (3, 17)
                            else if k < 29 then (4, 19) else if k < 39 then (5, 29) else if k < 49 then (6, 39)
                            else (7, 49);
      Full(G_OIDS[k]) == [1, 3, 6, 1, 4, 1, 42453, 2, table, k - first + 1]
  {
    TableIsSorted() by { hide *; }
    var row := G_OIDS[k];
    if k >= 5 {
      var (table, first) := if k < 7 then (1, 5) else if k < 17 then (2, 7) else if k < 19 then (3, 17)
                            else if k < 29 then (4, 19) else if k < 39 then (5, 29) else if k < 49 then (6, 39)
                            else (7, 49);
      assert row == [4, 1, DRAWERSTEAK_PEN, 2, table, k - first + 1];
      assert [1, 3, 6, 1] + row == [1, 3, 6, 1, 4, 1, 42453, 2, table, k - first + 1];
    }
  }

  /** Which entry answers: for GET the one asked for, and none when there is no such entry; for GETNEXT the first one
      above the identifier, and the end of the list when there is none. */
  lemma {:induction false} EntryAnswers(request: Request, lockout: bool, k: nat)
    requires request.Get? && |request.oid| >= 5 && k < 50
    ensures |G_OIDS| == 50
    ensures var act := ActionFor(request, lockout);
            && act.Answered? && act.id == request.id && -2 <= act.index < 50
            && (!request.next ==> (act.index == k <==> request.oid == Full(G_OIDS[k])))
            && (!request.next && act.index < 0 ==> act.index == -2)
            && (request.next ==>
                  (act.index == k <==>
                     Less(request.oid, Full(G_OIDS[k]))
                     && forall j :: 0 <= j < k ==> !Less(request.oid, Full(G_OIDS[j]))))
            && (request.next && act.index < 0 ==> act.index == -1)
  {
    hide Less, Full, EntryAt, FirstAbove;
    TableIsSorted();
    if request.oid == Full(G_OIDS[k]) {
      EntryIsUnique(G_OIDS, request.oid, k);
    }
    if Less(request.oid, Full(G_OIDS[k])) && forall j :: 0 <= j < k ==> !Less(request.oid, Full(G_OIDS[j])) {
      FirstAboveIs(G_OIDS, request.oid, k);
    }
  }

  /** The identifier of a channel's power switch (table 4), current limit (5) or inrush timer (6). */
  function SettingName(table: nat, channel: nat): seq<nat> {
    [1, 3, 6, 1, 4, 1, 42453, 2, table, channel + 1]
  }

  /** A SET of one of these with an integer writes it, but for power switches during a lockout; without an integer it is
      refused. */
  lemma {:induction false} SetActs(request: Request, lockout: bool, table: nat, channel: nat)
    requires request.Set? && 4 <= table <= 6 && channel < 10 && request.oid == SettingName(table, channel)
    ensures var act, entry := ActionFor(request, lockout), 19 + 10 * (table - 4) + channel;
            act == if request.value.None? then Answered(request.id, -2)
                   else if table == 4 && lockout then Answered(request.id, entry)
                   else
                     Written(request.id, if table == 4 then PowerSwitch(channel)
                             else if table == 5 then CurrentLimit(channel) else InrushTime(channel),
                             request.value.value, entry)
  {
    hide EntryAt, FirstAbove, Full, Less;
    var entry := 19 + 10 * (table - 4) + channel;
    EntryNames(entry);
    TableIsSorted();
    EntryIsUnique(G_OIDS, request.oid, entry);
  }

  /** A SET of anything else is refused. */
  lemma {:induction false} SetRefused(request: Request, lockout: bool)
    requires request.Set? && |request.oid| >= 5
    requires forall table: nat, channel: nat :: 4 <= table <= 6 && channel < 10 ==>
               request.oid != SettingName(table, channel)
    ensures ActionFor(request, lockout) == Answered(request.id, -2)
  {
    hide EntryAt, FirstAbove, Full, Less;
    var entry := EntryAt(G_OIDS, request.oid, 0);
    if OID_PWR0 <= entry < OID_VNOM {
      WritableName(entry);
    }
  }

  lemma {:induction false} WritableName(k: nat)
    requires 19 <= k < 49
    ensures |G_OIDS| == 50
    ensures exists table: nat, channel: nat :: 4 <= table <= 6 && channel < 10
              && Full(G_OIDS[k]) == SettingName(table, channel)
  {
    hide Full;
    EntryNames(k);
    assert Full(G_OIDS[k]) == SettingName(4 + (k - 19) / 10, (k - 19) % 10);
  }
}
