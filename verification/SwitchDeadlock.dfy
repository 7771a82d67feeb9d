/** Waiting for mutexes in the switch (src/nocswitch/ConnectionThread.cpp, src/nocswitch/JtagThread.cpp): the two
    kinds of thread take theirs in opposite orders. Which waits can be cyclic, and exactly when a run can get
    there. */
module SwitchDeadlock {
  import opened RpcMessages
  import opened Options
  import opened NocSwitch

  // ----- the two threads take their locks in opposite orders

  /** A connection waits for the map with its socket locked, and the JTAG thread for that socket with the map
      locked (src/nocswitch/ConnectionThread.cpp:89,111 and src/nocswitch/JtagThread.cpp:58,69). */
  predicate Deadlocked(s: State) {
    && s.jtag.WantSocket? && s.jtag.c < |s.conns| && s.contextMutex == Some(Jtag)
    && s.conns[s.jtag.c].pc.WantMap? && s.conns[s.jtag.c].mutex == Some(Client(s.jtag.c))
  }

  /** Once reached it lasts, and no connection can register an address or clean up any more. */
  lemma {:induction false} DeadlockIsPermanent(s: State, events: seq<Event>)
    requires Inv(s) && Deadlocked(s) && CanRun(s, events)
    ensures Deadlocked(Run(s, events)) && Run(s, events).jtag == s.jtag && Run(s, events).contextMap == s.contextMap
    decreases |events|
  {
    hide Inv, Next, Possible, Deadlocked;
    if |events| > 0 {
      StepKeeps(s, events[0]);
      DeadlockStays(s, events[0]);
      DeadlockIsPermanent(Next(s, events[0]), events[1..]);
    }
  }

  lemma {:induction false} DeadlockStays(s: State, e: Event)
    requires Inv(s) && Deadlocked(s) && Possible(s, e)
    ensures Deadlocked(Next(s, e)) && Next(s, e).jtag == s.jtag && Next(s, e).contextMap == s.contextMap
  {
    hide AllBytes, PackedBytes, SendBytes, AfterSend, Lowest, Owned, UnitsOk, Partial, Disjoint, MapHasAll, QueueOk;
    if e.ByConnection? {
      assert ConnOk(s, e.c);
    }
  }

  lemma {:induction false} RunOneMore(s: State, events: seq<Event>, e: Event)
    requires CanRun(s, events) && Possible(Run(s, events), e)
    ensures CanRun(s, events + [e]) && Run(s, events + [e]) == Next(Run(s, events), e)
    decreases |events|
  {
    hide Next, Possible;
    if |events| == 0 {
      assert events + [e] == [e];
      assert [e][1..] == [];
    } else {
      assert (events + [e])[1..] == events[1..] + [e] && (events + [e])[0] == events[0];
      RunOneMore(Next(s, events[0]), events[1..], e);
    }
  }

  /** A connection that is granted an address while it has another can get as far as waiting for the map. */
  lemma {:induction false} GrantStopsAtMap(s: State, c: nat) returns (events: seq<Event>)
    requires c < |s.conns| && s.conns[c].pc == Receiving && s.conns[c].mutex == None && s.free != {}
    ensures CanRun(s, events)
    ensures var t := Run(s, events);
      && |t.conns| == |s.conns| && t.conns[c].pc == WantMap(Lowest(s.free)) && t.conns[c].mutex == Some(Client(c))
      && t.free == s.free - {Lowest(s.free)} && t.contextMap == s.contextMap && t.contextMutex == s.contextMutex
         && t.jtag == s.jtag
  {
    events := [];
    var t := s;
    var steps := [AskAlloc, LockSocket, Send(true, []), TakeAddress, Send(true, []), Send(true, [])];
    for i := 0 to 6
      invariant CanRun(s, events) && Run(s, events) == t
      invariant |t.conns| == |s.conns| && t.contextMap == s.contextMap && t.contextMutex == s.contextMutex
      invariant t.jtag == s.jtag
      invariant t.free == if i < 4 then s.free else s.free - {Lowest(s.free)}
      invariant t.conns[c].mutex == if i < 2 then None else Some(Client(c))
      invariant i == 0 ==> t.conns[c].pc == Receiving
      invariant i == 1 ==> t.conns[c].pc == WantAlloc
      invariant i == 2 ==> t.conns[c].pc == AllocSendOp
      invariant i == 3 ==> t.conns[c].pc == AllocTake
      invariant i == 4 ==> t.conns[c].pc == AllocSendOk(Some(Lowest(s.free)))
      invariant i == 5 ==> t.conns[c].pc == AllocSendAddr(Lowest(s.free))
      invariant i == 6 ==> t.conns[c].pc == WantMap(Lowest(s.free))
    {
      hide CanRun, Run, AllBytes, SendBytes, Lowest;
      RunOneMore(s, events, ByConnection(c, steps[i]));
      events := events + [ByConnection(c, steps[i])];
      t := ConnNext(t, c, steps[i]);
    }
  }

  /** So whenever a connection with a registered address asks for another, while one is free, a message to it can
      lock both threads for good. */
  lemma {:induction false} DeadlockIsReachable(s: State, c: nat, m: RpcMessage)
    requires c < |s.conns| && s.conns[c].pc == Receiving && s.conns[c].mutex == None && s.free != {}
    requires s.jtag == Polling && s.contextMutex == None && m.dst in s.contextMap && s.contextMap[m.dst] == c
    ensures exists events :: CanRun(s, events) && Deadlocked(Run(s, events))
  {
    hide CanRun, Run, Inv, ConnNext, ConnCan;
    var events := GrantStopsAtMap(s, c);
    RunOneMore(s, events, ByJtag(Pop(m)));
    RunOneMore(s, events + [ByJtag(Pop(m))], ByJtag(LockMapFor));
    RunOneMore(s, events + [ByJtag(Pop(m))] + [ByJtag(LockMapFor)], ByJtag(LookFor));
    assert Deadlocked(Run(s, events + [ByJtag(Pop(m))] + [ByJtag(LockMapFor)] + [ByJtag(LookFor)]));
  }

  /** One run after another is a run. */
  lemma {:induction false} RunsJoin(s: State, first: seq<Event>, second: seq<Event>)
    requires CanRun(s, first) && CanRun(Run(s, first), second)
    ensures CanRun(s, first + second) && Run(s, first + second) == Run(Run(s, first), second)
    decreases |first|
  {
    hide Next, Possible;
    if |first| == 0 {
      assert first + second == second;
    } else {
      assert (first + second)[1..] == first[1..] + second && (first + second)[0] == first[0];
      RunsJoin(Next(s, first[0]), first[1..], second);
    }
  }

  /** The first client connects, asks for an address and is granted the lowest one. */
  lemma {:induction false} FirstGrant(s: State) returns (events: seq<Event>)
    requires Initial(s) && s.free != {}
    ensures CanRun(s, events)
    ensures var t, a := Run(s, events), Lowest(s.free);
      && |t.conns| == 1 && t.conns[0].pc == Receiving && t.conns[0].mutex == None && t.contextMutex == None
      && t.jtag == Polling && t.contextMap == map[a := 0] && t.free == s.free - {a}
  {
    hide CanRun, Run, AllBytes, SendBytes, Lowest;
    RunNothing(s);
    RunOneMore(s, [], Connect);
    var t := Next(s, Connect);
    var grant := GrantStopsAtMap(t, 0);
    RunsJoin(s, [] + [Connect], grant);
    events := [] + [Connect] + grant;
    RunOneMore(s, events, ByConnection(0, LockMap));
    events := events + [ByConnection(0, LockMap)];
    RunOneMore(s, events, ByConnection(0, Insert));
    events := events + [ByConnection(0, Insert)];
    RunOneMore(s, events, ByConnection(0, Unlock));
    events := events + [ByConnection(0, Unlock)];
  }

  lemma {:induction false} RunNothing(s: State)
    ensures CanRun(s, []) && Run(s, []) == s
  {
  }

  /** With two addresses to give, a client that is granted one and asks for the other, while a message for the first
      comes in, stops both threads: from the start of the switch, a run gets there. */
  lemma {:induction false} DeadlockFromStart(s: State, m: RpcMessage)
    requires Initial(s) && s.free != {} && s.free - {Lowest(s.free)} != {} && m.dst == Lowest(s.free)
    ensures exists events :: CanRun(s, events) && Deadlocked(Run(s, events))
  {
    hide CanRun, Run, Deadlocked, Initial, Lowest;
    var first := FirstGrant(s);
    var t := Run(s, first);
    DeadlockIsReachable(t, 0, m);
    var second :| CanRun(t, second) && Deadlocked(Run(t, second));
    RunsJoin(s, first, second);
  }

  // ----- when it cannot happen

  predicate Asking(pc: ConnPc) {
    pc == WantAlloc || pc == AllocSendOp || pc == AllocTake || pc.AllocSendOk? || pc.AllocSendAddr?
  }

  /** An address on its way to a connection is new to it, and one waiting to be registered is not yet in the map. All
      addresses come from `pool`. If clients ask only `once`, a connection that asks has no address yet. */
  ghost predicate GrantOk(s: State, c: nat, pool: set<nat>, once: bool)
    requires c < |s.conns|
  {
    var conn := s.conns[c];
    && Owned(conn) <= pool
    && (conn.pc.AllocSendOk? && conn.pc.taken.Some? ==> conn.pc.taken.value !in conn.addresses)
    && (conn.pc.AllocSendAddr? ==> conn.pc.addr !in conn.addresses)
    && (conn.pc.WantMap? || conn.pc.MapInsert? ==> conn.pc.addr !in s.contextMap)
    && (once && Asking(conn.pc) ==> conn.addresses == {})
    && (once && (conn.pc.WantMap? || conn.pc.MapInsert?) ==> conn.addresses == {conn.pc.addr})
  }

  ghost predicate GrantsOk(s: State, pool: set<nat>, once: bool) {
    s.free <= pool && forall c :: 0 <= c < |s.conns| ==> GrantOk(s, c, pool, once)
  }

  /** A client asks for an address only while it has none. */
  predicate AsksWithout(s: State, e: Event) {
    e.ByConnection? && e.step == AskAlloc && e.c < |s.conns| ==> s.conns[e.c].addresses == {}
  }

  /** In a run, every client does. */
  ghost predicate AskOnce(s: State, events: seq<Event>)
    requires CanRun(s, events)
    decreases |events|
  {
    |events| > 0 ==> AsksWithout(s, events[0]) && AskOnce(Next(s, events[0]), events[1..])
  }

  lemma {:induction false} SendGrantKept(s: State, c: nat, step: ConnStep, pool: set<nat>, once: bool)
    requires ConnCan(s, c, step) && MapLeads(s) && Disjoint(s) && GrantOk(s, c, pool, once) && step.Send?
    ensures GrantOk(ConnNext(s, c, step), c, pool, once)
  {
    hide AllBytes, PackedBytes, SendBytes, Disjoint, MapLeads;
    var pc := s.conns[c].pc;
    if pc.AllocSendAddr? {
      NotRegistered(s, c, pc.addr);
    }
  }

  lemma {:induction false} OwnGrantKept(s: State, c: nat, step: ConnStep, pool: set<nat>, once: bool)
    requires ConnCan(s, c, step) && ConnOk(s, c) && MapLeads(s) && Disjoint(s) && s.free <= pool
    requires GrantOk(s, c, pool, once)
    requires once ==> AsksWithout(s, ByConnection(c, step))
    ensures GrantOk(ConnNext(s, c, step), c, pool, once)
  {
    if step.Send? {
      hide ConnNext, ConnOk, GrantOk;
      SendGrantKept(s, c, step, pool, once);
    } else {
      hide AllBytes, PackedBytes, AfterSend, SendBytes, UnitsOk, Partial, MapLeads, Disjoint;
    }
  }

  /** An address on its way to a connection is not in the map. */
  lemma {:induction false} NotRegistered(s: State, c: nat, a: nat)
    requires c < |s.conns| && MapLeads(s) && Disjoint(s) && a in Owned(s.conns[c]) && a !in s.conns[c].addresses
    ensures a !in s.contextMap
  {
    forall d | 0 <= d < |s.conns|
      ensures a !in s.conns[d].addresses
    {
      assert d != c ==> Owned(s.conns[d]) !! Owned(s.conns[c]);
    }
  }

  lemma {:induction false} OtherGrantsKept(s: State, c: nat, step: ConnStep, d: nat, pool: set<nat>, once: bool)
    requires d < |s.conns| && d != c && ConnCan(s, c, step) && ConnOk(s, c) && ConnOk(s, d) && Disjoint(s)
    requires GrantOk(s, d, pool, once)
    ensures GrantOk(ConnNext(s, c, step), d, pool, once)
  {
    hide AllBytes, PackedBytes, ConnNext, UnitsOk, Partial;
    ConnOnly(s, c, step);
    AddressesOnly(s, c, step);
    if step.Insert? {
      assert s.conns[c].pc.addr in Owned(s.conns[c]);
    }
  }

  lemma {:induction false} GrantsKept(s: State, e: Event, pool: set<nat>, once: bool)
    requires Inv(s) && Possible(s, e) && GrantsOk(s, pool, once) && (once ==> AsksWithout(s, e))
    ensures GrantsOk(Next(s, e), pool, once)
  {
    hide AllBytes, PackedBytes, ConnOk, MapLeads, MapHasAll, Disjoint, JtagOk, QueueOk, ConnNext, JtagNext, JtagCan,
      Owned,
      GrantOk, AsksWithout;
    match e
    case Connect =>
      forall c | 0 <= c < |Next(s, e).conns|
        ensures GrantOk(Next(s, e), c, pool, once)
      {
        NewGrantOk(s, c, pool, once);
      }
    case ByConnection(c, step) =>
      ConnOnly(s, c, step);
      assert |ConnNext(s, c, step).conns| == |s.conns| && ConnOk(s, c);
      forall d | 0 <= d < |s.conns|
        ensures GrantOk(ConnNext(s, c, step), d, pool, once)
      {
        if d == c {
          OwnGrantKept(s, c, step, pool, once);
        } else {
          OtherGrantsKept(s, c, step, d, pool, once);
        }
      }
    case ByJtag(act) =>
      JtagOnly(s, act);
      forall d | 0 <= d < |s.conns|
        ensures GrantOk(JtagNext(s, act), d, pool, once)
      {
        JtagGrantKept(s, act, d, pool, once);
      }
  }

  lemma {:induction false} NewGrantOk(s: State, c: nat, pool: set<nat>, once: bool)
    requires c <= |s.conns| && (c < |s.conns| ==> GrantOk(s, c, pool, once))
    ensures GrantOk(Next(s, Connect), c, pool, once)
  {
    hide AllBytes, PackedBytes;
  }

  lemma {:induction false} JtagGrantKept(s: State, act: JtagStep, d: nat, pool: set<nat>, once: bool)
    requires JtagCan(s, act) && JtagOk(s) && d < |s.conns| && GrantOk(s, d, pool, once)
    ensures |JtagNext(s, act).conns| == |s.conns| && GrantOk(JtagNext(s, act), d, pool, once)
  {
    hide JtagNext;
    JtagOnly(s, act);
  }

  lemma {:induction false} RunGrants(s: State, events: seq<Event>, pool: set<nat>, once: bool)
    requires Inv(s) && GrantsOk(s, pool, once) && CanRun(s, events) && (once ==> AskOnce(s, events))
    ensures Inv(Run(s, events)) && GrantsOk(Run(s, events), pool, once)
    decreases |events|
  {
    hide Inv, GrantsOk, Next, Possible, AsksWithout;
    if |events| > 0 {
      StepKeeps(s, events[0]);
      GrantsKept(s, events[0], pool, once);
      RunGrants(Next(s, events[0]), events[1..], pool, once);
    }
  }

  lemma {:induction false} InitialGrants(s: State, once: bool)
    requires Initial(s)
    ensures Inv(s) && GrantsOk(s, s.free, once)
  {
  }

  /** When the threads are stuck, the client has one address in the map and another on its way. */
  lemma {:induction false} StuckHasTwo(s: State, pool: set<nat>, once: bool)
    requires Inv(s) && GrantsOk(s, pool, once) && Deadlocked(s)
    ensures !once && s.jtag.m.dst in pool && s.conns[s.jtag.c].pc.addr in pool
    ensures s.jtag.m.dst != s.conns[s.jtag.c].pc.addr
  {
    hide AllBytes, PackedBytes, UnitsOk, Partial, Disjoint, QueueOk, MapHasAll;
    assert ConnOk(s, s.jtag.c) && GrantOk(s, s.jtag.c, pool, once);
  }

  /** If every client asks for an address only while it has none, the threads never wait for each other. */
  lemma {:induction false} NoDeadlockWhenAskedOnce(s: State, events: seq<Event>)
    requires Initial(s) && CanRun(s, events) && AskOnce(s, events)
    ensures !Deadlocked(Run(s, events))
  {
    hide Inv, GrantsOk, Deadlocked, Initial, Run, CanRun, AskOnce;
    InitialGrants(s, true);
    RunGrants(s, events, s.free, true);
    if Deadlocked(Run(s, events)) {
      StuckHasTwo(Run(s, events), s.free, true);
    }
  }

  /** Some run of the switch ends with the two threads waiting for each other exactly when it has two addresses to
      give. */
  lemma {:induction false} DeadlockPossibleIff(s: State)
    requires Initial(s)
    ensures (exists events :: CanRun(s, events) && Deadlocked(Run(s, events))) <==> |s.free| >= 2
  {
    hide Inv, GrantsOk, Deadlocked, Initial, Run, CanRun, Lowest;
    if |s.free| >= 2 {
      assert |s.free - {Lowest(s.free)}| >= 1;
      DeadlockFromStart(s, RpcMessage(0, Lowest(s.free), 0, 0, 0, 0, 0));
    }
    forall events | CanRun(s, events) && Deadlocked(Run(s, events))
      ensures |s.free| >= 2
    {
      var t := Run(s, events);
      InitialGrants(s, false);
      RunGrants(s, events, s.free, false);
      StuckHasTwo(t, s.free, false);
      HasTwo(s.free, t);
    }
  }

  lemma {:induction false} HasTwo(free: set<nat>, t: State)
    requires Deadlocked(t) && t.jtag.m.dst in free && t.conns[t.jtag.c].pc.addr in free
    requires t.jtag.m.dst != t.conns[t.jtag.c].pc.addr
    ensures |free| >= 2
  {
    var a, b := t.jtag.m.dst, t.conns[t.jtag.c].pc.addr;
    assert b in free - {a} && |free - {a}| >= 1;
  }

  // ----- there is no other cyclic wait

  /** Thread `t` waits for a mutex that `u` holds. */
  predicate Waits(s: State, t: Owner, u: Owner) {
    match t
    case Client(c) =>
      c < |s.conns| &&
      (((s.conns[c].pc == WantAlloc || s.conns[c].pc == WantPing) && s.conns[c].mutex == Some(u))
       || ((s.conns[c].pc.WantMap? || s.conns[c].pc == WantCleanup) && s.contextMutex == Some(u)))
    case Jtag =>
      (s.jtag.WantMapFor? && s.contextMutex == Some(u))
      || (s.jtag.WantSocket? && s.jtag.c < |s.conns| && s.conns[s.jtag.c].mutex == Some(u))
  }

  ghost predicate CanStep(s: State, t: Owner) {
    match t
    case Client(c) => exists step :: ConnCan(s, c, step)
    case Jtag => exists act :: JtagCan(s, act)
  }

  lemma {:induction false} WaiterIsStuck(s: State, t: Owner, u: Owner)
    requires Waits(s, t, u)
    ensures !CanStep(s, t) && forall v :: Waits(s, t, v) ==> v == u
  {
    match t
    case Client(c) =>
      forall step
        ensures !ConnCan(s, c, step)
      {
      }
    case Jtag =>
  }

  /** Where a connection can go on. */
  function ConnMove(pc: ConnPc): ConnStep {
    match pc
    case Receiving => Leave
    case WantAlloc => LockSocket
    case AllocSendOp => Send(true, [])
    case AllocTake => TakeAddress
    case AllocSendOk(_) => Send(true, [])
    case AllocSendAddr(_) => Send(true, [])
    case WantMap(_) => LockMap
    case MapInsert(_) => Insert
    case WantPing => LockSocket
    case PingSendOp => Send(true, [])
    case Release => Unlock
    case WantCleanup => LockMap
    case _ => EraseAll
  }

  /** Outside the deadlock, whoever holds a mutex that another thread waits for can take a step, or waits for a thread
      that can. */
  lemma {:induction false} HolderMoves(s: State, t: Owner, u: Owner)
    requires Inv(s) && Waits(s, t, u) && !Deadlocked(s)
    ensures CanStep(s, u) || exists v :: Waits(s, u, v) && CanStep(s, v)
  {
    hide AllBytes, PackedBytes, UnitsOk, Partial, Owned, Disjoint, MapHasAll, QueueOk;
    match u
    case Client(d) => ConnHolderMoves(s, t, d);
    case Jtag => JtagHolderMoves(s, t);
  }

  lemma {:induction false} ConnHolderMoves(s: State, t: Owner, d: nat)
    requires Inv(s) && Waits(s, t, Client(d)) && !Deadlocked(s)
    ensures CanStep(s, Client(d)) || exists v :: Waits(s, Client(d), v) && CanStep(s, v)
  {
    hide AllBytes, PackedBytes, UnitsOk, Partial, Owned, Disjoint, MapHasAll, QueueOk;
    if t.Client? {
      assert ConnOk(s, t.c);
    } else if s.jtag.WantSocket? {
      assert ConnOk(s, s.jtag.c);
    }
    assert ConnOk(s, d);
    assert ConnCan(s, d, ConnMove(s.conns[d].pc));
  }

  /** Where the JTAG thread can go on. */
  function JtagMove(pc: JtagPc): JtagStep {
    match pc
    case Polling => Pop(RpcMessage(0, 0, 0, 0, 0, 0, 0))
    case WantMapFor(_) => LockMapFor
    case LookUp(_) => LookFor
    case WantSocket(_, _) => LockSocketFor
    case SendOp(_, _) => SendTo(true, [])
    case SendBody(_, _) => SendTo(true, [])
    case UnlockSocket(_, _) => UnlockSocketOf
    case UnlockMap => UnlockMapAgain
  }

  lemma {:induction false} JtagHolderMoves(s: State, t: Owner)
    requires Inv(s) && Waits(s, t, Jtag) && !Deadlocked(s)
    ensures CanStep(s, Jtag) || exists v :: Waits(s, Jtag, v) && CanStep(s, v)
  {
    hide AllBytes, PackedBytes, UnitsOk, Partial, Owned, Disjoint, MapHasAll, QueueOk;
    if t.Client? {
      assert ConnOk(s, t.c);
    }
    if s.jtag.WantSocket? && s.conns[s.jtag.c].mutex.Some? {
      assert ConnOk(s, s.jtag.c);
      assert Waits(s, Jtag, Client(s.jtag.c));
      assert ConnCan(s, s.jtag.c, ConnMove(s.conns[s.jtag.c].pc));
    } else {
      assert JtagCan(s, JtagMove(s.jtag));
    }
  }

  /** Any cycle of threads each waiting for the next is this deadlock. */
  lemma {:induction false} OnlyCyclicWait(s: State, cycle: seq<Owner>)
    requires Inv(s) && |cycle| >= 2 && cycle[0] == cycle[|cycle| - 1]
    requires forall i :: 0 <= i < |cycle| - 1 ==> Waits(s, cycle[i], cycle[i + 1])
    ensures Deadlocked(s)
  {
    hide Inv, Deadlocked, Waits, CanStep;
    if !Deadlocked(s) {
      var next := if |cycle| == 2 then cycle[1] else cycle[2];
      assert Waits(s, cycle[0], cycle[1]) && Waits(s, cycle[1], next);
      HolderMoves(s, cycle[0], cycle[1]);
      WaiterIsStuck(s, cycle[1], next);
      var last := if |cycle| == 2 then cycle[1] else if |cycle| == 3 then cycle[1] else cycle[3];
      assert Waits(s, next, last);
      WaiterIsStuck(s, next, last);
    }
  }
}
