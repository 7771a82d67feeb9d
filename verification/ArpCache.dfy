/** The ARP cache (legacy-trunk/src/PDUFirmware/ARP.c): 32 rows, two for each value of an address's low four bits. */
module ArpCache {
  import opened Bits
  import opened Options

  const ARP_TABLE_SIZE := 32
  const BROADCAST_IP: u32 := 0xffff_ffff
  const BROADCAST_MAC := Mac(0xffff, 0xffff, 0xffff)

  datatype Mac = Mac(m0: u16, m1: u16, m2: u16)
  datatype Entry = Entry(valid: bool, mac: Mac, ip: u32)

  /** The table and the way that the next new record takes. */
  datatype Cache = Cache(rows: seq<Entry>, next: nat)

  // ----- what the operations do

  /** The first valid row of an address, from `k` on; |rows| when there is none. */
  function RowOf(rows: seq<Entry>, ip: u32, k: nat): (r: nat)
    requires k <= |rows|
    ensures k <= r <= |rows| && (r < |rows| ==> rows[r].valid && rows[r].ip == ip)
    ensures forall i :: k <= i < r ==> !(rows[i].valid && rows[i].ip == ip)
    decreases |rows| - k
  {
    if k == |rows| || (rows[k].valid && rows[k].ip == ip) then k else RowOf(rows, ip, k + 1)
  }

  /** The valid rows of a MAC address above row `k` are dropped. */
  function Dropped(rows: seq<Entry>, mac: Mac, k: nat): (r: seq<Entry>)
    ensures |r| == |rows|
  {
    seq(|rows|, i requires 0 <= i < |rows| =>
      if i < k && rows[i].valid && rows[i].mac == mac then rows[i].(valid := false) else rows[i])
  }

  function NewRow(ip: u32, next: nat): nat {
    ip % 0x10 * 2 + next
  }

  /** A record for a known address replaces its MAC; one for a new address takes a row of its set. Rows of another
      address with the same MAC are dropped as far as the scan gets. */
  function Added(c: Cache, mac: Mac, ip: u32): Cache
    requires |c.rows| == ARP_TABLE_SIZE && c.next < 2
  {
    var k := RowOf(c.rows, ip, 0);
    var rows := Dropped(c.rows, mac, k);
    if k < |c.rows| then Cache(rows[k := rows[k].(mac := mac)], c.next)
    else Cache(rows[NewRow(ip, c.next) := Entry(true, mac, ip)], 1 - c.next)
  }

  /** Only the address's own two rows are looked at. */
  function Lookup(rows: seq<Entry>, ip: u32): Option<Mac>
    requires |rows| == ARP_TABLE_SIZE
  {
    var base := NewRow(ip, 0);
    if ip == BROADCAST_IP then Some(BROADCAST_MAC)
    else if rows[base].valid && rows[base].ip == ip then Some(rows[base].mac)
    else if rows[base + 1].valid && rows[base + 1].ip == ip then Some(rows[base + 1].mac)
    else None
  }

  function Initialized(rows: seq<Entry>): Cache {
    Cache(seq(|rows|, i requires 0 <= i < |rows| => rows[i].(valid := false)), 0)
  }

  // ----- the operations, on the table in place

  class ArpTable {
    const g_arpTable: array<Entry>
    var g_nextArpSet: nat

    ghost predicate Valid()
      reads this
    {
      g_arpTable.Length == ARP_TABLE_SIZE && g_nextArpSet < 2
    }

    ghost function Contents(): Cache
      reads this, g_arpTable
    {
      Cache(g_arpTable[..], g_nextArpSet)
    }

    /** Memory not yet initialised: the rows may be anything. */
    constructor (memory: seq<Entry>)
      requires |memory| == ARP_TABLE_SIZE
      ensures Valid() && fresh(g_arpTable)
    {
      g_arpTable := new Entry[ARP_TABLE_SIZE](i requires 0 <= i < ARP_TABLE_SIZE => memory[i]);
      g_nextArpSet := 0;
    }

    method ARPInitialize()
      requires Valid()
      modifies this, g_arpTable
      ensures Valid() && Contents() == Initialized(old(g_arpTable[..]))
    {
      g_nextArpSet := 0;
      for i := 0 to ARP_TABLE_SIZE
        invariant forall k :: 0 <= k < ARP_TABLE_SIZE ==>
                    g_arpTable[k] == if k < i then old(g_arpTable[k]).(valid := false) else old(g_arpTable[k])
        invariant g_nextArpSet == 0
      {
        g_arpTable[i] := g_arpTable[i].(valid := false);
      }
    }

    method ARPAddRecord(mac: Mac, ip: u32)
      requires Valid()
      modifies this, g_arpTable
      ensures Valid() && Contents() == Added(old(Contents()), mac, ip)
    {
      hide Added, RowOf, NewRow;
      ghost var was := g_arpTable[..];
      ghost var goal := RowOf(was, ip, 0);
      assert g_arpTable[..] == Dropped(was, mac, 0);
      for i := 0 to ARP_TABLE_SIZE
        invariant g_arpTable[..] == Dropped(was, mac, i) && g_nextArpSet == old(g_nextArpSet)
        invariant i <= goal
      {
        var row := g_arpTable[i];
        assert row == was[i];
        if row.valid {
          var ipMatch, macMatch := row.ip == ip, row.mac == mac;
          if ipMatch && macMatch {
            AddedKnown(Cache(was, g_nextArpSet), mac, ip, i);
            assert g_arpTable[..] == g_arpTable[..][i := g_arpTable[i].(mac := mac)];
            return;
          }
          if ipMatch && !macMatch {
            AddedKnown(Cache(was, g_nextArpSet), mac, ip, i);
            g_arpTable[i] := row.(mac := mac);
            assert g_arpTable[..] == Dropped(was, mac, i)[i := row.(mac := mac)];
            return;
          }
          if macMatch && !ipMatch {
            g_arpTable[i] := row.(valid := false);
          }
        }
        assert g_arpTable[..] == Dropped(was, mac, i + 1);
      }
      AddedNew(Cache(was, g_nextArpSet), mac, ip);
      var row := Or(Shl(And(ip, 0xf), 1), g_nextArpSet);
      RowIndex(ip, g_nextArpSet);
      g_arpTable[row] := Entry(true, mac, ip);
      assert g_arpTable[..] == Dropped(was, mac, ARP_TABLE_SIZE)[row := Entry(true, mac, ip)];
      g_nextArpSet := 1 - g_nextArpSet;
    }

    method ARPLookupRecord(ip: u32) returns (mac: Option<Mac>)
      requires Valid()
      ensures mac == Lookup(g_arpTable[..], ip)
    {
      hide Shl, And, Or;
      if ip == BROADCAST_IP {
        return Some(BROADCAST_MAC);
      }
      RowIndex(ip, 0);
      var base := Shl(And(ip, 0xf), 1);
      var row := base;
      while row < base + 2
        invariant base <= row <= base + 2
        invariant forall k :: base <= k < row ==> !(g_arpTable[k].valid && g_arpTable[k].ip == ip)
      {
        if g_arpTable[row].valid {
          if g_arpTable[row].ip == ip {
            return Some(g_arpTable[row].mac);
          }
        }
        row := row + 1;
      }
      return None;
    }
  }

  lemma {:induction false} AddedKnown(c: Cache, mac: Mac, ip: u32, k: nat)
    requires |c.rows| == ARP_TABLE_SIZE && c.next < 2 && k <= RowOf(c.rows, ip, 0)
    requires k < ARP_TABLE_SIZE && c.rows[k].valid && c.rows[k].ip == ip
    ensures RowOf(c.rows, ip, 0) == k
    ensures Added(c, mac, ip) == Cache(Dropped(c.rows, mac, k)[k := c.rows[k].(mac := mac)], c.next)
  {
  }

  lemma {:induction false} AddedNew(c: Cache, mac: Mac, ip: u32)
    requires |c.rows| == ARP_TABLE_SIZE && c.next < 2 && ARP_TABLE_SIZE <= RowOf(c.rows, ip, 0)
    ensures NewRow(ip, c.next) < ARP_TABLE_SIZE
    ensures Added(c, mac, ip)
        == Cache(Dropped(c.rows, mac, ARP_TABLE_SIZE)[NewRow(ip, c.next) := Entry(true, mac, ip)], 1 - c.next)
  {
  }

  lemma {:induction false} RowIndex(ip: u32, way: nat)
    requires way < 2
    ensures Or(Shl(And(ip, 0xf), 1), way) == NewRow(ip, way) && Shl(And(ip, 0xf), 1) == NewRow(ip, 0)
  {
    hide And, Or, Shl, Low, Shr;
    Pow2Values();
    AndLowMask(ip, 4);
    LowIsMod(ip, 4);
    ShlIsTimes(ip % 0x10, 1);
    OrConcat(ip % 0x10, way, 1);
  }

  // ----- every run

  /** Valid rows stand in their address's set, and no address has two. */
  ghost predicate WellPlaced(c: Cache) {
    && |c.rows| == ARP_TABLE_SIZE && c.next < 2
    && (forall i :: 0 <= i < ARP_TABLE_SIZE && c.rows[i].valid ==> i / 2 == c.rows[i].ip as nat % 0x10)
    && (forall i, j :: 0 <= i < j < ARP_TABLE_SIZE && c.rows[i].valid && c.rows[j].valid ==>
       c.rows[i].ip != c.rows[j].ip)
  }

  lemma {:induction false} InitializedIsPlaced(rows: seq<Entry>)
    requires |rows| == ARP_TABLE_SIZE
    ensures WellPlaced(Initialized(rows))
  {
  }

  lemma {:induction false} NewRowPlaced(ip: u32, way: nat)
    requires way < 2
    ensures NewRow(ip, way) / 2 == ip as nat % 0x10 && NewRow(ip, way) < ARP_TABLE_SIZE
  {
  }

  lemma {:induction false} AddKeepsPlaces(c: Cache, mac: Mac, ip: u32)
    requires WellPlaced(c)
    ensures WellPlaced(Added(c, mac, ip))
  {
    hide NewRow, RowOf;
    NewRowPlaced(ip, c.next);
    var k := RowOf(c.rows, ip, 0);
    var t := Added(c, mac, ip);
    forall i, j | 0 <= i < j < ARP_TABLE_SIZE && t.rows[i].valid && t.rows[j].valid
      ensures t.rows[i].ip != t.rows[j].ip
    {
      assert t.rows[i].ip == c.rows[i].ip || (k == |c.rows| && i == NewRow(ip, c.next));
    }
  }

  /** Looking at two rows finds an address if any row has it. */
  lemma {:induction false} LookupFinds(c: Cache, ip: u32)
    requires WellPlaced(c) && ip != BROADCAST_IP
    ensures var r := RowOf(c.rows, ip, 0);
            Lookup(c.rows, ip) == if r < |c.rows| then Some(c.rows[r].mac) else None
  {
    hide RowOf, NewRow;
    var r := RowOf(c.rows, ip, 0);
    var base := NewRow(ip, 0);
    NewRowPlaced(ip, 0);
    BaseIsEven(ip);
    if r < |c.rows| {
      assert r / 2 == ip as nat % 0x10;
      assert r == base || r == base + 1;
    }
  }

  lemma {:induction false} BaseIsEven(ip: u32)
    ensures NewRow(ip, 0) == ip as nat % 0x10 * 2
  {
  }

  /** The row of an address, once it is known. */
  lemma {:induction false} OnlyRow(c: Cache, ip: u32, k: nat)
    requires WellPlaced(c) && k < ARP_TABLE_SIZE && c.rows[k].valid && c.rows[k].ip == ip
    ensures RowOf(c.rows, ip, 0) == k
  {
    hide RowOf;
    var r := RowOf(c.rows, ip, 0);
    assert r <= k;
  }

  lemma {:induction false} NoRow(c: Cache, ip: u32)
    requires WellPlaced(c) && forall i :: 0 <= i < ARP_TABLE_SIZE ==> !(c.rows[i].valid && c.rows[i].ip == ip)
    ensures RowOf(c.rows, ip, 0) == ARP_TABLE_SIZE
  {
    hide RowOf;
    var r := RowOf(c.rows, ip, 0);
    assert r >= ARP_TABLE_SIZE;
  }

  /** A record just added is found. */
  lemma {:induction false} AddedIsFound(c: Cache, mac: Mac, ip: u32)
    requires WellPlaced(c) && ip != BROADCAST_IP
    ensures Lookup(Added(c, mac, ip).rows, ip) == Some(mac)
  {
    hide NewRow, Lookup, RowOf;
    AddKeepsPlaces(c, mac, ip);
    NewRowPlaced(ip, c.next);
    var k := RowOf(c.rows, ip, 0);
    var t := Added(c, mac, ip);
    OnlyRow(t, ip, if k < |c.rows| then k else NewRow(ip, c.next));
    LookupFinds(t, ip);
  }

  /** When adding a record for `ip` makes another address, found before in row `r`, be lost: the other had the same MAC
      and the scan got to it, or its row is the one that a new address takes. The row taken may hold a record while
      the other row of the set is free. */
  predicate Loses(c: Cache, mac: Mac, ip: u32, r: nat)
    requires |c.rows| == ARP_TABLE_SIZE && c.next < 2 && r < ARP_TABLE_SIZE
  {
    var k := RowOf(c.rows, ip, 0);
    (c.rows[r].mac == mac && r < k) || (k == ARP_TABLE_SIZE && r == NewRow(ip, c.next))
  }

  lemma {:induction false} LostExactlyWhen(c: Cache, mac: Mac, ip: u32, other: u32)
    requires WellPlaced(c) && other != ip && other != BROADCAST_IP && Lookup(c.rows, other).Some?
    ensures var r := RowOf(c.rows, other, 0);
            r < ARP_TABLE_SIZE && Lookup(Added(c, mac, ip).rows, other)
                                  == if Loses(c, mac, ip, r) then None else Lookup(c.rows, other)
  {
    hide NewRow, Lookup, RowOf;
    LookupFinds(c, other);
    AddKeepsPlaces(c, mac, ip);
    NewRowPlaced(ip, c.next);
    var t := Added(c, mac, ip);
    LookupFinds(t, other);
    var r := RowOf(c.rows, other, 0);
    if Loses(c, mac, ip, r) {
      forall i | 0 <= i < ARP_TABLE_SIZE
        ensures !(t.rows[i].valid && t.rows[i].ip == other)
      {
        assert i != r ==> !(c.rows[i].valid && c.rows[i].ip == other);
      }
      NoRow(t, other);
    } else {
      OnlyRow(t, other, r);
    }
  }

  /** What is not found before is not found after another address is added. */
  lemma {:induction false} OthersStayOut(c: Cache, mac: Mac, ip: u32, other: u32)
    requires WellPlaced(c) && other != ip && other != BROADCAST_IP && Lookup(c.rows, other).None?
    ensures Lookup(Added(c, mac, ip).rows, other) == None
  {
    hide NewRow, Lookup, RowOf;
    LookupFinds(c, other);
    AddKeepsPlaces(c, mac, ip);
    NewRowPlaced(ip, c.next);
    var t := Added(c, mac, ip);
    LookupFinds(t, other);
    forall i | 0 <= i < ARP_TABLE_SIZE
      ensures !(t.rows[i].valid && t.rows[i].ip == other)
    {
      assert !(c.rows[i].valid && c.rows[i].ip == other);
    }
    NoRow(t, other);
  }

  datatype Binding = Binding(mac: Mac, ip: u32)

  /** The cache after a run of records, since its last initialisation. */
  function After(rows: seq<Entry>, records: seq<Binding>): (c: Cache)
    requires |rows| == ARP_TABLE_SIZE
    ensures |c.rows| == ARP_TABLE_SIZE && c.next < 2
  {
    if |records| == 0 then Initialized(rows)
    else
      var last := records[|records| - 1];
      NewRowPlaced(last.ip, After(rows, records[..|records| - 1]).next);
      Added(After(rows, records[..|records| - 1]), last.mac, last.ip)
  }

  /** The simple map the cache stands for: the last record of each address. */
  function LastBinding(records: seq<Binding>, ip: u32): Option<Mac> {
    if |records| == 0 then None
    else if records[|records| - 1].ip == ip then Some(records[|records| - 1].mac)
    else LastBinding(records[..|records| - 1], ip)
  }

  lemma {:induction false} EveryRunIsPlaced(rows: seq<Entry>, records: seq<Binding>)
    requires |rows| == ARP_TABLE_SIZE
    ensures WellPlaced(After(rows, records))
  {
    hide WellPlaced, Added;
    if |records| == 0 {
      InitializedIsPlaced(rows);
    } else {
      EveryRunIsPlaced(rows, records[..|records| - 1]);
      AddKeepsPlaces(After(rows, records[..|records| - 1]), records[|records| - 1].mac, records[|records| - 1].ip);
    }
  }

  /** In every run a hit is the address's last record. */
  lemma {:induction false} HitIsLastBinding(rows: seq<Entry>, records: seq<Binding>, ip: u32)
    requires |rows| == ARP_TABLE_SIZE && ip != BROADCAST_IP && Lookup(After(rows, records).rows, ip).Some?
    ensures Lookup(After(rows, records).rows, ip) == LastBinding(records, ip)
  {
    hide WellPlaced, Added, Lookup;
    EveryRunIsPlaced(rows, records);
    if |records| == 0 {
      NothingFound(rows, ip);
    } else {
      var before, last := records[..|records| - 1], records[|records| - 1];
      var c := After(rows, before);
      EveryRunIsPlaced(rows, before);
      if last.ip == ip {
        AddedIsFound(c, last.mac, ip);
      } else if Lookup(c.rows, ip).None? {
        OthersStayOut(c, last.mac, last.ip, ip);
      } else {
        LostExactlyWhen(c, last.mac, last.ip, ip);
        HitIsLastBinding(rows, before, ip);
      }
    }
  }

  /** The broadcast address is found in any memory. */
  lemma {:induction false} BroadcastFound(rows: seq<Entry>)
    requires |rows| == ARP_TABLE_SIZE
    ensures Lookup(rows, 0xffff_ffff) == Some(Mac(0xffff, 0xffff, 0xffff))
  {
  }

  lemma {:induction false} NothingFound(rows: seq<Entry>, ip: u32)
    requires |rows| == ARP_TABLE_SIZE && ip != BROADCAST_IP
    ensures Lookup(Initialized(rows).rows, ip) == None
  {
  }

  /** A lookup right after a record was added hits with it. */
  lemma {:induction false} LastRecordHits(rows: seq<Entry>, records: seq<Binding>, mac: Mac, ip: u32)
    requires |rows| == ARP_TABLE_SIZE && ip != BROADCAST_IP
    ensures Lookup(After(rows, records + [Binding(mac, ip)]).rows, ip) == Some(mac)
  {
    hide WellPlaced, Added, Lookup;
    var all := records + [Binding(mac, ip)];
    assert all[..|all| - 1] == records;
    EveryRunIsPlaced(rows, records);
    AddedIsFound(After(rows, records), mac, ip);
  }

  // ----- eviction while the set has room

  /** The other row of a set. */
  function Sibling(r: nat): nat {
    if r % 2 == 0 then r + 1 else r - 1
  }

  /** Adding a record for `ip` pushes `other` out, whose MAC is a different one, although the other row of its set is
      free. */
  predicate EvictsWithRoom(c: Cache, mac: Mac, ip: u32, other: u32)
    requires WellSized(c)
  {
    var r := RowOf(c.rows, other, 0);
    && other != ip && other != BROADCAST_IP && r < ARP_TABLE_SIZE && c.rows[r].mac != mac
    && Lookup(Added(c, mac, ip).rows, other) == None && !c.rows[Sibling(r)].valid
  }

  predicate WellSized(c: Cache) {
    |c.rows| == ARP_TABLE_SIZE && c.next < 2
  }

  /** That happens exactly when the address is new and the row whose turn it is holds another address, under another
      MAC, while its sibling is free. */
  lemma {:induction false} EvictsWithRoomWhen(c: Cache, mac: Mac, ip: u32)
    requires WellPlaced(c)
    ensures var r := NewRow(ip, c.next);
            r < ARP_TABLE_SIZE
            && ((exists other :: EvictsWithRoom(c, mac, ip, other))
                <==> RowOf(c.rows, ip, 0) == ARP_TABLE_SIZE && c.rows[r].valid && c.rows[r].ip != BROADCAST_IP
                     && c.rows[r].mac != mac && !c.rows[Sibling(r)].valid)
  {
    hide RowOf, NewRow, Lookup, Added;
    NewRowPlaced(ip, c.next);
    var r := NewRow(ip, c.next);
    forall other | EvictsWithRoom(c, mac, ip, other)
      ensures RowOf(c.rows, ip, 0) == ARP_TABLE_SIZE && r == RowOf(c.rows, other, 0)
    {
      LookupFinds(c, other);
      LostExactlyWhen(c, mac, ip, other);
    }
    if RowOf(c.rows, ip, 0) == ARP_TABLE_SIZE && c.rows[r].valid && c.rows[r].ip != BROADCAST_IP && c.rows[r].mac != mac
       && !c.rows[Sibling(r)].valid {
      var other := c.rows[r].ip;
      OnlyRow(c, other, r);
      LookupFinds(c, other);
      LostExactlyWhen(c, mac, ip, other);
      assert EvictsWithRoom(c, mac, ip, other);
    }
  }

  /** A record for a new address, with a MAC that no row has: one row changes, and the other way is next. */
  lemma {:induction false} NewRecord(c: Cache, mac: Mac, ip: u32)
    requires WellPlaced(c) && RowOf(c.rows, ip, 0) == ARP_TABLE_SIZE
    requires forall i :: 0 <= i < ARP_TABLE_SIZE && c.rows[i].valid ==> c.rows[i].mac != mac
    ensures NewRow(ip, c.next) < ARP_TABLE_SIZE
    ensures Added(c, mac, ip) == Cache(c.rows[NewRow(ip, c.next) := Entry(true, mac, ip)], 1 - c.next)
  {
    hide RowOf, NewRow;
    NewRowPlaced(ip, c.next);
    assert Dropped(c.rows, mac, ARP_TABLE_SIZE) == c.rows;
  }

  /** Row by row: a known address keeps its first row `k`, with the new MAC, and the way that is next; a new one takes
      a row of the set its low four bits name, and the other way is next. Of the other rows those with the recorded
      MAC are dropped, above the address's own row none. */
  lemma {:induction false} RecordAdded(c: Cache, mac: Mac, ip: u32, k: nat, i: nat)
    requires WellSized(c) && k <= ARP_TABLE_SIZE && i < ARP_TABLE_SIZE
    requires forall j :: 0 <= j < k ==> !(c.rows[j].valid && c.rows[j].ip == ip)
    requires k < ARP_TABLE_SIZE ==> c.rows[k].valid && c.rows[k].ip == ip
    ensures var t := Added(c, mac, ip); var own := if k < 32 then k else 2 * (ip % 16) + c.next;
            && |t.rows| == 32 && own < 32 && t.next == (if k < 32 then c.next else 1 - c.next)
            && t.rows[own] == Entry(true, mac, ip)
            && (i != own ==>
                  t.rows[i].ip == c.rows[i].ip && t.rows[i].mac == c.rows[i].mac
                  && (t.rows[i].valid <==> c.rows[i].valid && !(i < k && c.rows[i].mac == mac)))
  {
    hide RowOf;
    assert RowOf(c.rows, ip, 0) == k;
  }

  /** From any memory: records for addresses 0, 1 and 16 with three MACs push address 0 out of its set, whose other
      row was never used. */
  lemma {:induction false} EvictionRun(rows: seq<Entry>, mac0: Mac, mac1: Mac, mac2: Mac)
    requires |rows| == ARP_TABLE_SIZE && mac0 != mac1 && mac0 != mac2 && mac1 != mac2
    ensures var two := [Binding(mac0, 0), Binding(mac1, 1)];
      && Lookup(After(rows, two).rows, 0) == Some(mac0) && EvictsWithRoom(After(rows, two), mac2, 16, 0)
      && Lookup(After(rows, two + [Binding(mac2, 16)]).rows, 0) == None
      && !After(rows, two + [Binding(mac2, 16)]).rows[1].valid
  {
    hide RowOf, After, Added, Lookup, WellPlaced;
    var b0, b1, b2 := Binding(mac0, 0), Binding(mac1, 1), Binding(mac2, 16);
    var c0, c1, c2 := After(rows, []), After(rows, [b0]), After(rows, [b0, b1]);
    assert [] + [b0] == [b0] && [b0] + [b1] == [b0, b1];
    AfterNext(rows, [], b0);
    AfterNext(rows, [b0], b1);
    AfterNext(rows, [b0, b1], b2);
    AfterNone(rows);
    EveryRunIsPlaced(rows, []);
    EveryRunIsPlaced(rows, [b0]);
    EveryRunIsPlaced(rows, [b0, b1]);
    NoRow(c0, 0);
    NewRecord(c0, mac0, 0);
    NoRow(c1, 1);
    NewRecord(c1, mac1, 1);
    NoRow(c2, 16);
    NewRecord(c2, mac2, 16);
    OnlyRow(c2, 0, 0);
    LookupFinds(c2, 0);
    LostExactlyWhen(c2, mac2, 16, 0);
  }

  // ----- one row for each MAC address

  predicate OncePerMac(rows: seq<Entry>) {
    forall i, j :: 0 <= i < j < |rows| && rows[i].valid && rows[j].valid ==> rows[i].mac != rows[j].mac
  }

  predicate HasAbove(rows: seq<Entry>, mac: Mac, k: nat) {
    exists j :: k < j < |rows| && rows[j].valid && rows[j].mac == mac
  }

  /** Of a table that has each MAC address once, adding a record leaves such a table exactly unless its own address is
      known and a row above that one's has its MAC, which the scan does not get to. */
  lemma {:induction false} OncePerMacWhen(c: Cache, mac: Mac, ip: u32)
    requires WellSized(c) && OncePerMac(c.rows)
    ensures OncePerMac(Added(c, mac, ip).rows) <==> !HasAbove(c.rows, mac, RowOf(c.rows, ip, 0))
  {
    hide RowOf, NewRow;
    NewRowPlaced(ip, c.next);
    var k, t := RowOf(c.rows, ip, 0), Added(c, mac, ip).rows;
    if HasAbove(c.rows, mac, k) {
      var j :| k < j < |c.rows| && c.rows[j].valid && c.rows[j].mac == mac;
      assert t[k].valid && t[j].valid && t[k].mac == t[j].mac;
    } else {
      forall i, j | 0 <= i < j < |t| && t[i].valid && t[j].valid
        ensures t[i].mac != t[j].mac
      {
        assert t[i] == c.rows[i] || t[j] == c.rows[j];
      }
    }
  }

  /** From any memory: after records for addresses 0 and 1, the second one's MAC recorded for address 0 stands in rows 0
      and 3. */
  lemma {:induction false} TwoRowsRun(rows: seq<Entry>, mac0: Mac, mac1: Mac)
    requires |rows| == ARP_TABLE_SIZE && mac0 != mac1
    ensures var t := After(rows, [Binding(mac0, 0), Binding(mac1, 1), Binding(mac1, 0)]).rows;
      && OncePerMac(After(rows, [Binding(mac0, 0), Binding(mac1, 1)]).rows)
      && t[0] == Entry(true, mac1, 0) && t[3] == Entry(true, mac1, 1)
  {
    hide RowOf, After, Added, WellPlaced;
    var b0, b1, b2 := Binding(mac0, 0), Binding(mac1, 1), Binding(mac1, 0);
    var c0, c1, c2 := After(rows, []), After(rows, [b0]), After(rows, [b0, b1]);
    assert [] + [b0] == [b0] && [b0] + [b1] == [b0, b1] && [b0, b1] + [b2] == [b0, b1, b2];
    AfterNext(rows, [], b0);
    AfterNext(rows, [b0], b1);
    AfterNext(rows, [b0, b1], b2);
    AfterNone(rows);
    EveryRunIsPlaced(rows, []);
    EveryRunIsPlaced(rows, [b0]);
    EveryRunIsPlaced(rows, [b0, b1]);
    NoRow(c0, 0);
    NewRecord(c0, mac0, 0);
    NoRow(c1, 1);
    NewRecord(c1, mac1, 1);
    OnlyRow(c2, 0, 0);
    AddedKnown(c2, mac1, 0, 0);
  }

  lemma {:induction false} AfterNext(rows: seq<Entry>, records: seq<Binding>, b: Binding)
    requires |rows| == ARP_TABLE_SIZE
    ensures After(rows, records + [b]) == Added(After(rows, records), b.mac, b.ip)
  {
    hide Added;
    assert (records + [b])[..|records|] == records;
  }

  lemma {:induction false} AfterNone(rows: seq<Entry>)
    requires |rows| == ARP_TABLE_SIZE
    ensures After(rows, []) == Initialized(rows)
  {
  }
}
