/** The agent's table of object identifiers and its search (legacy-trunk/src/PDUFirmware/SNMP.c). */
module OidTable {
  import opened Bits

  /** A table row without its length word; 1.3.6.1 is implied. */
  type Row = r: seq<u16> | |r| > 0 witness [0]

  /** Lexicographic order, a prefix before its extensions. */
  predicate Less(a: seq<nat>, b: seq<nat>) {
    |b| > 0 && (|a| == 0 || a[0] < b[0] || (a[0] == b[0] && Less(a[1..], b[1..])))
  }

  lemma {:induction false} LessIsTotal(a: seq<nat>, b: seq<nat>)
    ensures a == b || Less(a, b) || Less(b, a)
    ensures !(Less(a, b) && Less(b, a)) && !Less(a, a)
  {
    if |a| > 0 && |b| > 0 {
      LessIsTotal(a[1..], b[1..]);
      assert a == [a[0]] + a[1..] && b == [b[0]] + b[1..];
    }
    if |a| > 0 {
      LessIsTotal(a[1..], a[1..]);
    }
  }

  lemma {:induction false} LessIsTransitive(a: seq<nat>, b: seq<nat>, c: seq<nat>)
    requires Less(a, b) && Less(b, c)
    ensures Less(a, c)
  {
    if |a| > 0 && a[0] == b[0] && b[0] == c[0] {
      LessIsTransitive(a[1..], b[1..], c[1..]);
    }
  }

  /** The first position where two identifiers differ decides; without one, the shorter is less. */
  lemma {:induction false} LessAt(a: seq<nat>, b: seq<nat>, i: nat)
    requires i <= |a| && i <= |b| && a[..i] == b[..i]
    ensures Less(a, b) <==> Less(a[i..], b[i..])
    ensures a == b <==> a[i..] == b[i..]
  {
    if i == 0 {
      assert a[0..] == a && b[0..] == b;
    } else {
      assert a[0] == a[..i][0] == b[0];
      assert a[1..][..i - 1] == a[..i][1..] == b[1..][..i - 1];
      LessAt(a[1..], b[1..], i - 1);
      assert a[1..][i - 1..] == a[i..] && b[1..][i - 1..] == b[i..];
      assert a == a[..i] + a[i..] && b == b[..i] + b[i..];
    }
  }

  /** -1, 0 or 1 as `oidA` is less, equal or greater. */
  method SNMPCompareOIDs(oidA: seq<nat>, oidB: seq<nat>) returns (r: int)
    requires |oidA| > 0 && |oidB| > 0
    ensures r == if Less(oidA, oidB) then -1 else if oidA == oidB then 0 else 1
    ensures r == 1 <==> Less(oidB, oidA)
  {
    LessIsTotal(oidA, oidB);
    var i := 0;
    while true
      invariant 0 <= i < |oidA| && i < |oidB| && oidA[..i] == oidB[..i]
      decreases |oidA| - i
    {
      LessAt(oidA, oidB, i);
      var a, b := oidA[i], oidB[i];
      if a > b {
        return 1;
      }
      if a < b {
        return -1;
      }
      var eoa, eob := |oidA| == i + 1, |oidB| == i + 1;
      LessAt(oidA, oidB, i + 1);
      if eoa && !eob {
        return -1;
      }
      if eob && !eoa {
        return 1;
      }
      if eoa && eob {
        return 0;
      }
      i := i + 1;
    }
  }

  predicate Sorted(table: seq<Row>) {
    forall i, j :: 0 <= i < j < |table| ==> Less(table[i], table[j])
  }

  /** The whole identifier of a row. */
  function Full(row: Row): seq<nat> {
    [1, 3, 6, 1] + row
  }

  /** A query of five numbers or more against a row: its first four numbers decide, or the rest does. */
  lemma {:induction false} UnderInternet(oid: seq<nat>, row: Row)
    requires |oid| >= 5
    ensures oid[..4] == [1, 3, 6, 1] ==> (Less(oid, Full(row)) <==> Less(oid[4..], row))
    ensures oid[..4] == [1, 3, 6, 1] ==> (Less(Full(row), oid) <==> Less(row, oid[4..]))
    ensures oid[..4] == [1, 3, 6, 1] ==> (oid == Full(row) <==> oid[4..] == row)
  {
    var full := Full(row);
    assert full[..4] == [1, 3, 6, 1] && full[4..] == row;
    if oid[..4] == [1, 3, 6, 1] {
      LessAt(oid, full, 4);
      LessAt(full, oid, 4);
    }
  }

  lemma {:induction false} OutsideInternet(oid: seq<nat>, row: Row, i: nat)
    requires |oid| >= 5 && i < 4 && oid[..i] == [1, 3, 6, 1][..i] && oid[i] != [1, 3, 6, 1][i]
    ensures Less(oid, Full(row)) <==> oid[i] < [1, 3, 6, 1][i]
    ensures Less(Full(row), oid) <==> oid[i] > [1, 3, 6, 1][i]
  {
    var full := Full(row);
    assert full[..i] == [1, 3, 6, 1][..i];
    LessAt(oid, full, i);
    LessAt(full, oid, i);
  }

  datatype Search = TooLow | Hit | Miss | TooHigh

  /** Where a query stands in a table: below it, at an entry, between two neighbours, or above it. */
  predicate Classifies(table: seq<Row>, oid: seq<nat>, status: Search, oidpos: nat)
    requires |table| > 0
  {
    oidpos < |table| &&
    match status
    case TooLow => oidpos == 0 && Less(oid, Full(table[0]))
    case Hit => oid == Full(table[oidpos])
    case Miss => oidpos + 1 < |table| && Less(Full(table[oidpos]), oid) && Less(oid, Full(table[oidpos + 1]))
    case TooHigh => oidpos == |table| - 1 && Less(Full(table[oidpos]), oid)
  }

  method SNMPFindOID(table: seq<Row>, oid: seq<nat>) returns (status: Search, oidpos: nat)
    requires |table| > 0 && |oid| >= 5
    ensures Classifies(table, oid, status, oidpos)
  {
    hide Less;
    var listMax := |table| - 1;
    status, oidpos := TooHigh, listMax;
    var internet := [1, 3, 6, 1];
    var i := 0;
    while i < 4
      invariant 0 <= i <= 4 && oid[..i] == internet[..i]
    {
      if oid[i] != internet[i] {
        OutsideInternet(oid, table[0], i);
        OutsideInternet(oid, table[listMax], i);
      }
      if oid[i] > internet[i] {
        return TooHigh, listMax;
      } else if oid[i] < internet[i] {
        return TooLow, 0;
      }
      i := i + 1;
    }
    assert oid[..4] == [1, 3, 6, 1];
    var suboid := oid[4..];
    UnderInternet(oid, table[0]);
    UnderInternet(oid, table[listMax]);
    var first := SNMPCompareOIDs(suboid, table[0]);
    if first < 0 {
      return TooLow, 0;
    }
    var last := SNMPCompareOIDs(suboid, table[listMax]);
    if last > 0 {
      return TooHigh, listMax;
    }
    var k := 0;
    while k < |table|
      invariant 0 <= k <= |table|
      invariant k > 0 ==> Less(Full(table[k - 1]), oid)
    {
      UnderInternet(oid, table[k]);
      var comp := SNMPCompareOIDs(suboid, table[k]);
      if comp == 0 {
        return Hit, k;
      }
      if comp < 0 {
        return Miss, k - 1;
      }
      k := k + 1;
    }
    // not reached: the query is not above the last row
    assert false;
  }

  /** The first row above a query, from `k` on; |table| when there is none. */
  function FirstAbove(table: seq<Row>, oid: seq<nat>, k: nat): (r: nat)
    requires k <= |table|
    ensures k <= r <= |table| && (r < |table| ==> Less(oid, Full(table[r])))
    ensures forall i :: k <= i < r ==> !Less(oid, Full(table[i]))
    decreases |table| - k
  {
    if k == |table| || Less(oid, Full(table[k])) then k else FirstAbove(table, oid, k + 1)
  }

  lemma {:induction false} FirstAboveIs(table: seq<Row>, oid: seq<nat>, k: nat)
    requires k <= |table| && (k < |table| ==> Less(oid, Full(table[k])))
    requires forall i :: 0 <= i < k ==> !Less(oid, Full(table[i]))
    ensures FirstAbove(table, oid, 0) == k
  {
    hide Less, Full, FirstAbove;
    var r := FirstAbove(table, oid, 0);
    assert r >= k;
  }

  /** Whole identifiers are ordered as their rows. */
  lemma {:induction false} FullOrder(a: Row, b: Row)
    ensures Less(Full(a), Full(b)) <==> Less(a, b)
  {
    assert Full(a)[4..] == a && Full(b)[4..] == b && Full(a)[..4] == Full(b)[..4];
    LessAt(Full(a), Full(b), 4);
  }

  /** A row not below the query has none below the query above it. */
  lemma {:induction false} NotAbove(table: seq<Row>, oid: seq<nat>, k: nat)
    requires Sorted(table) && k < |table| && (Less(Full(table[k]), oid) || Full(table[k]) == oid)
    ensures forall i :: 0 <= i <= k ==> !Less(oid, Full(table[i]))
  {
    hide Less, Full;
    forall i | 0 <= i <= k
      ensures !Less(oid, Full(table[i]))
    {
      if Less(oid, Full(table[i])) {
        LessIsTotal(oid, Full(table[k]));
        if i < k {
          FullOrder(table[i], table[k]);
          LessIsTransitive(oid, Full(table[i]), Full(table[k]));
        }
      }
    }
  }

  /** A classification is unique, and says where the entries above the query start. */
  lemma {:induction false} ClassifiedAbove(table: seq<Row>, oid: seq<nat>, status: Search, oidpos: nat)
    requires Sorted(table) && |table| > 0 && Classifies(table, oid, status, oidpos)
    ensures FirstAbove(table, oid, 0) == if status == TooLow then 0 else oidpos + 1
    ensures status == Hit <==> exists i :: 0 <= i < |table| && Full(table[i]) == oid
  {
    hide Less, Full, FirstAbove;
    if status == TooLow {
      FirstAboveIs(table, oid, 0);
    } else {
      NotAbove(table, oid, oidpos);
      if status == Hit && oidpos + 1 < |table| {
        FullOrder(table[oidpos], table[oidpos + 1]);
      }
      FirstAboveIs(table, oid, oidpos + 1);
    }
    if status != Hit {
      forall i | 0 <= i < |table|
        ensures Full(table[i]) != oid
      {
        OnlyHit(table, oid, status, oidpos, i);
      }
    }
  }

  lemma {:induction false} OnlyHit(table: seq<Row>, oid: seq<nat>, status: Search, oidpos: nat, i: nat)
    requires Sorted(table) && i < |table| && Classifies(table, oid, status, oidpos) && status != Hit
    ensures Full(table[i]) != oid
  {
    hide Less, Full;
    if Full(table[i]) == oid {
      LessIsTotal(oid, oid);
      if status != TooLow {
        if i < oidpos {
          FullOrder(table[i], table[oidpos]);
          LessIsTotal(oid, Full(table[oidpos]));
        } else if i > oidpos {
          if status == Miss {
            LessIsTotal(oid, Full(table[oidpos + 1]));
            if i > oidpos + 1 {
              FullOrder(table[oidpos + 1], table[i]);
            }
          }
        }
      } else if i > 0 {
        FullOrder(table[0], table[i]);
        LessIsTotal(oid, Full(table[0]));
      }
    }
  }

  /** The entry a query names; |table| when there is none. */
  function EntryAt(table: seq<Row>, oid: seq<nat>, k: nat): (r: nat)
    requires k <= |table|
    ensures k <= r <= |table| && (r < |table| ==> Full(table[r]) == oid)
    ensures forall i :: k <= i < r ==> Full(table[i]) != oid
    decreases |table| - k
  {
    if k == |table| || Full(table[k]) == oid then k else EntryAt(table, oid, k + 1)
  }

  /** No two rows are the same. */
  lemma {:induction false} EntryIsUnique(table: seq<Row>, oid: seq<nat>, k: nat)
    requires Sorted(table) && k < |table| && Full(table[k]) == oid
    ensures EntryAt(table, oid, 0) == k
  {
    hide Less, Full, EntryAt;
    var r := EntryAt(table, oid, 0);
    if r < k {
      FullOrder(table[r], table[k]);
      LessIsTotal(oid, oid);
    }
  }

  /** Which entry a request is answered with (SNMPProcessGetOrGetNextRequest): -1 at the end of the list, -2 for an
      entry that does not exist. */
  method SelectEntry(table: seq<Row>, oid: seq<nat>, getnext: bool) returns (index: int)
    requires Sorted(table) && |table| > 0 && |oid| >= 5
    ensures -2 <= index < |table|
    // GETNEXT: the least entry strictly above the query
    ensures getnext ==> index == if FirstAbove(table, oid, 0) == |table| then -1 else FirstAbove(table, oid, 0)
    // GET: the entry itself
    ensures !getnext ==> index == if EntryAt(table, oid, 0) == |table| then -2 else EntryAt(table, oid, 0)
  {
    hide Less, Full, FirstAbove, EntryAt;
    var status, oidpos := SNMPFindOID(table, oid);
    ClassifiedAbove(table, oid, status, oidpos);
    if status == Hit {
      EntryIsUnique(table, oid, oidpos);
    }
    index := oidpos;
    if getnext {
      if status == TooLow {
        index := 0;
      } else if status == TooHigh || oidpos == |table| - 1 {
        index := -1;
      } else {
        index := index + 1;
      }
    } else if status != Hit {
      index := -2;
    }
  }

  /** GETNEXT repeated from the identifier last returned: it visits the entries above the start, each once and in
      order, and then ends. */
  method Walk(table: seq<Row>, start: seq<nat>) returns (visited: seq<nat>)
    requires Sorted(table) && |table| > 0 && |start| >= 5
    ensures var first := FirstAbove(table, start, 0); visited == seq(|table| - first, i requires 0 <= i => first + i)
    ensures Less(start, Full(table[0])) ==> visited == seq(|table|, i => i)
  {
    hide Less, Full;
    visited := [];
    ghost var first := FirstAbove(table, start, 0);
    var index := SelectEntry(table, start, true);
    while index >= 0
      invariant index == -1 ==> first + |visited| == |table|
      invariant index != -1 ==> index == first + |visited| < |table|
      invariant visited == seq(|visited|, i requires 0 <= i => first + i)
      decreases if index == -1 then 0 else |table| - index
    {
      visited := visited + [index];
      NextOfEntry(table, index);
      index := SelectEntry(table, Full(table[index]), true);
    }
  }

  lemma {:induction false} NextOfEntry(table: seq<Row>, k: nat)
    requires Sorted(table) && k < |table|
    ensures FirstAbove(table, Full(table[k]), 0) == k + 1 && |Full(table[k])| >= 5
  {
    hide Less, FirstAbove;
    NotAbove(table, Full(table[k]), k);
    if k + 1 < |table| {
      FullOrder(table[k], table[k + 1]);
    }
    FirstAboveIs(table, Full(table[k]), k + 1);
  }
}
