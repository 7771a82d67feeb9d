/** The client and the agent together: when a request does what it asks for and the client sees that it did. */
module SnmpTransaction {
  import opened Bits
  import opened Options
  import opened Ber
  import opened Snmp
  import opened SnmpClient
  import opened OidTable
  import opened SnmpAgent

  /** The reply to a request that selects an entry. */
  function Reply(id: u32, index: nat, r: Readings): seq<u8>
    requires index < 50
  {
    Message(COMMUNITY, ASN1_TYPE_SNMP_GETRESPONSE, id, Named(index), ValueBytes(index, r))
  }

  /** An integer sent there and back arrives unchanged exactly when it survives once. */
  lemma {:induction false} KeptTwice(x: u32)
    ensures Kept(Kept(x)) == x <==> Survives(x)
  {
    hide Kept, Survives;
    IntegerRoundTrip(x);
  }

  lemma {:induction false} ShortMessages(kind: u8, id: u32, oid: seq<u16>, value: seq<u8>)
    requires |oid| <= 20 && |value| <= 6
    ensures |Message(COMMUNITY, kind, id, oid, value)| < BODY_SIZE
  {
    hide NumbersBytes, IntegerContent;
    NumbersLength(oid);
  }

  lemma {:induction false} StandsInBuffer(packet: seq<u8>)
    requires |packet| <= BODY_SIZE
    ensures Holds(Buffer(packet), 0, packet) && Holds(packet, 0, packet)
  {
  }

  /** The reply for an entry of one of the controller's tables. */
  lemma {:induction false} ReplyReads(id: u32, index: nat, r: Readings)
    requires 5 <= index < 50
    ensures var reply, row := Reply(id, index, r), Named(index);
            |reply| < BODY_SIZE
              && ResponseIn(Buffer(reply)) == Some(Response(Kept(id), row[4], row[5], Kept(Reading(index, r))))
  {
    hide Message, Named, EncodedInteger, Kept, ResponseIn, Buffer, Holds, Reading;
    var row: seq<u16> := Named(index);
    IntegerLength(Reading(index, r));
    ShortMessages(ASN1_TYPE_SNMP_GETRESPONSE, id, row, EncodedInteger(Reading(index, r)));
    StandsInBuffer(Reply(id, index, r));
    ResponseReads(Buffer(Reply(id, index, r)), COMMUNITY, id, row, Reading(index, r));
  }

  lemma {:induction false} IntegerLength(x: u32)
    ensures 3 <= |EncodedInteger(x)| <= 6
  {
  }

  /** The rows of the controller's tables are the ones the client asks for. */
  lemma {:induction false} RowsAreAskedFor(k: nat)
    requires 5 <= k < 50
    ensures |G_OIDS| == 50 && |G_OIDS[k]| == 6 && G_OIDS[k] == RowOf(G_OIDS[k][4], G_OIDS[k][5])
    ensures Named(k) == G_OIDS[k]
  {
  }

  lemma {:induction false} FoundAt(k: nat)
    requires k < 50
    ensures |G_OIDS| == 50 && EntryAt(G_OIDS, Full(G_OIDS[k]), 0) == k && |Full(G_OIDS[k])| >= 5
  {
    hide EntryAt, Less;
    TableIsSorted();
    EntryIsUnique(G_OIDS, Full(G_OIDS[k]), k);
  }

  /** Reading an entry: the agent selects it, and the client sees its id, table, index and value in the reply exactly
      when the id and the value survive as BER integers. */
  lemma {:induction false} GetTransaction(k: nat, id: u32, r: Readings, lockout: bool)
    requires 5 <= k < 50
    ensures |G_OIDS| == 50 && |G_OIDS[k]| == 6
    ensures var packet := Message(COMMUNITY, ASN1_TYPE_SNMP_GETREQUEST, id, RowOf(G_OIDS[k][4], G_OIDS[k][5]),
        NULL_VALUE);
            RequestIn(packet).Some? && ActionFor(RequestIn(packet).value, lockout) == Answered(Kept(id), k)
    ensures |Reply(Kept(id), k, r)| < BODY_SIZE
    ensures ResponseIn(Buffer(Reply(Kept(id), k, r))) == Some(Response(id, G_OIDS[k][4], G_OIDS[k][5], Reading(k, r)))
            <==> Survives(id) && Survives(Reading(k, r))
  {
    RowsAreAskedFor(k);
    FoundAt(k);
    hide Message, Named, EncodedInteger, Kept, Survives, ResponseIn, RequestIn, Buffer, Reply, EntryAt, FirstAbove,
      Holds, RowOf, Reading;
    var row: seq<u16> := G_OIDS[k];
    ShortMessages(ASN1_TYPE_SNMP_GETREQUEST, id, row, NULL_VALUE);
    var packet := Message(COMMUNITY, ASN1_TYPE_SNMP_GETREQUEST, id, row, NULL_VALUE);
    StandsInBuffer(packet);
    NoZero();
    GetReads(packet, COMMUNITY, false, id, row, NULL_VALUE);
    ReplyReads(Kept(id), k, r);
    KeptTwice(id);
    IntegerRoundTrip(Reading(k, r));
  }

  lemma NoZero()
    ensures 0 !in COMMUNITY
  {
  }

  /** The table and the entry of something that can be set. */
  function TableFor(target: Target): u16 {
    match target
    case PowerSwitch(_) => 4
    case CurrentLimit(_) => 5
    case InrushTime(_) => 6
  }

  function EntryFor(target: Target): nat {
    match target
    case PowerSwitch(i) => OID_PWR0 + i
    case CurrentLimit(i) => OID_LIMIT0 + i
    case InrushTime(i) => OID_INRUSH0 + i
  }

  /** What that reads. */
  function SettingOf(target: Target, r: Readings): u32 {
    match target
    case PowerSwitch(i) => r.switch(i)
    case CurrentLimit(i) => r.limit(i)
    case InrushTime(i) => r.inrush(i)
  }

  lemma {:induction false} WritableRows(target: Target)
    requires target.channel < 10
    ensures OID_PWR0 <= EntryFor(target) < OID_VNOM && |G_OIDS| == 50 && TargetOf(EntryFor(target)) == target
    ensures G_OIDS[EntryFor(target)] == RowOf(TableFor(target), target.channel + 1)
    ensures forall r :: Reading(EntryFor(target), r) == SettingOf(target, r)
  {
    var i := target.channel;
    match target
    case PowerSwitch(_) => assert G_OIDS[OID_PWR0 + i] == [4, 1, DRAWERSTEAK_PEN, 2, 4, i + 1];
    case CurrentLimit(_) => assert G_OIDS[OID_LIMIT0 + i] == [4, 1, DRAWERSTEAK_PEN, 2, 5, i + 1];
    case InrushTime(_) => assert G_OIDS[OID_INRUSH0 + i] == [4, 1, DRAWERSTEAK_PEN, 2, 6, i + 1];
  }

  /** What a SetRequest for a channel makes the agent do: it writes exactly that channel, the value as far as it
      survives, unless it is a locked power switch. */
  lemma {:induction false} SetArrives(target: Target, id: u32, value: u32, lockout: bool)
    requires target.channel < 10
    ensures var packet := Message(COMMUNITY, ASN1_TYPE_SNMP_SETREQUEST, id, RowOf(TableFor(target), target.channel + 1),
                                  EncodedInteger(value));
            RequestIn(packet).Some?
            && ActionFor(RequestIn(packet).value, lockout)
               == if target.PowerSwitch? && lockout then Answered(Kept(id), EntryFor(target))
                  else Written(Kept(id), target, Kept(value), EntryFor(target))
  {
    WritableRows(target);
    var k := EntryFor(target);
    FoundAt(k);
    hide Message, EncodedInteger, Kept, RequestIn, EntryAt, FirstAbove, Holds, EntryFor, TargetOf, TableFor, RowOf;
    var row: seq<u16> := G_OIDS[k];
    IntegerLength(value);
    ShortMessages(ASN1_TYPE_SNMP_SETREQUEST, id, row, EncodedInteger(value));
    var packet := Message(COMMUNITY, ASN1_TYPE_SNMP_SETREQUEST, id, row, EncodedInteger(value));
    StandsInBuffer(packet);
    NoZero();
    SetReads(packet, COMMUNITY, id, row, value);
  }

  /** Setting a channel. Whatever the setting then reads, the client sees success exactly when its id survives and the
      reading arrives as the value sent; of a setting that reads as written, when id and value survive. */
  lemma {:induction false} SetTransaction(target: Target, id: u32, value: u32, r: Readings, lockout: bool)
    requires target.channel < 10
    ensures var packet := Message(COMMUNITY, ASN1_TYPE_SNMP_SETREQUEST, id, RowOf(TableFor(target), target.channel + 1),
                                  EncodedInteger(value));
            RequestIn(packet).Some?
            && ActionFor(RequestIn(packet).value, lockout)
               == if target.PowerSwitch? && lockout then Answered(Kept(id), EntryFor(target))
                  else Written(Kept(id), target, Kept(value), EntryFor(target))
    ensures EntryFor(target) < 50 && |Reply(Kept(id), EntryFor(target), r)| < BODY_SIZE
    ensures var seen := ResponseIn(Buffer(Reply(Kept(id), EntryFor(target), r)))
                        == Some(Response(id, TableFor(target), target.channel + 1, value));
            && (seen <==> Survives(id) && Kept(SettingOf(target, r)) == value)
            && (SettingOf(target, r) == Kept(value) ==> (seen <==> Survives(id) && Survives(value)))
  {
    hide Message, Named, EncodedInteger, Kept, Survives, ResponseIn, RequestIn, Buffer, Reply, ActionFor, EntryFor,
      TargetOf, TableFor, Reading, SettingOf;
    WritableRows(target);
    SetArrives(target, id, value, lockout);
    RowsAreAskedFor(EntryFor(target));
    ReplyReads(Kept(id), EntryFor(target), r);
    KeptTwice(id);
    KeptTwice(value);
  }
}
