/** The switch's threads as one state machine: a thread per client connection
    (src/nocswitch/ConnectionThread.cpp) and the JTAG thread that dispatches messages to the clients
    (src/nocswitch/JtagThread.cpp). Each step is one lock operation, one send or one table operation;
    steps of different threads interleave in any way. */
module NocSwitch {
  import opened RpcMessages
  import opened Options
  import opened Collections

  const OP_RPC := 0x00
  const OP_ALLOC_ADDR := 0x01
  const OP_PING := 0x05

  /** A complete unit on a client's socket. */
  datatype Unit = PingReply | AllocReply(addr: Option<nat>) | Rpc(message: RpcMessage)

  function AddrBytes(addr: nat): seq<nat> {
    [addr % 0x100, addr / 0x100]
  }

  function UnitBytes(u: Unit): seq<nat> {
    match u
    case PingReply => [OP_PING]
    case AllocReply(None) => [OP_ALLOC_ADDR] + [0]
    case AllocReply(Some(a)) => [OP_ALLOC_ADDR] + [1] + AddrBytes(a)
    case Rpc(m) => [OP_RPC] + PackedBytes(m)
  }

  function AllBytes(units: seq<Unit>): seq<nat> {
    if |units| == 0 then [] else AllBytes(units[..|units| - 1]) + UnitBytes(units[|units| - 1])
  }

  datatype Owner = Client(c: nat) | Jtag

  /** Where a connection thread is. In `Want...` it waits for a mutex; from the next state on it holds it. */
  datatype ConnPc =
    | Receiving                      // no lock held
    | WantAlloc | AllocSendOp | AllocTake | AllocSendOk(taken: Option<nat>) | AllocSendAddr(addr: nat)
    | WantMap(addr: nat) | MapInsert(addr: nat)
    | WantPing | PingSendOp
    | Release                        // the reply is complete, the socket mutex still held
    | WantCleanup | Erase | Done

  /** A connection: its thread, the addresses it has registered, its socket's mutex and what has been written.
      `units` are the complete units written; `broken` is set once a send has failed. */
  datatype Connection = Connection(pc: ConnPc, addresses: set<nat>, mutex: Option<Owner>,
                                   bytes: seq<nat>, units: seq<Unit>, broken: bool)

  datatype JtagPc =
    | Polling | WantMapFor(m: RpcMessage) | LookUp(m: RpcMessage)
    | WantSocket(m: RpcMessage, c: nat) | SendOp(m: RpcMessage, c: nat) | SendBody(m: RpcMessage, c: nat)
    | UnlockSocket(m: RpcMessage, c: nat) | UnlockMap

  datatype State = State(conns: seq<Connection>, contextMap: map<nat, nat>, contextMutex: Option<Owner>,
                         free: set<nat>, jtag: JtagPc, toJtag: seq<RpcMessage>, low: nat, high: nat)

  predicate InDebugSubnet(s: State, addr: nat) {
    s.low <= addr <= s.high
  }

  /** Steps of a connection thread. In `Send`, `ok` says whether the send succeeds; when it fails, `partial`
      is whatever reached the socket. */
  datatype ConnStep =
    | AskAlloc | AskPing | AskRpc(m: RpcMessage) | Leave
    | LockSocket | Send(ok: bool, partial: seq<nat>) | TakeAddress
    | LockMap | Insert | Unlock | EraseAll

  /** Steps of the JTAG thread; `Pop` takes whatever message the bridge has received. */
  datatype JtagStep =
    | Pop(m: RpcMessage) | LockMapFor | LookFor | LockSocketFor | SendTo(ok: bool, partial: seq<nat>)
    | UnlockSocketOf | UnlockMapAgain

  datatype Event = Connect | ByConnection(c: nat, step: ConnStep) | ByJtag(act: JtagStep)

  predicate ConnCan(s: State, c: nat, step: ConnStep) {
    c < |s.conns| &&
    var conn := s.conns[c];
    match step
    case LockSocket => (conn.pc == WantAlloc || conn.pc == WantPing) && conn.mutex == None
    case Send(_, _) => conn.pc == AllocSendOp || conn.pc.AllocSendOk? || conn.pc.AllocSendAddr? || conn.pc == PingSendOp
    case TakeAddress => conn.pc == AllocTake
    case LockMap => (conn.pc.WantMap? || conn.pc == WantCleanup) && s.contextMutex == None
    case Insert => conn.pc.MapInsert?
    case Unlock => conn.pc == Release
    case EraseAll => conn.pc == Erase
    case _ => conn.pc == Receiving
  }

  predicate JtagCan(s: State, act: JtagStep) {
    match act
    case Pop(_) => s.jtag == Polling
    case LockMapFor => s.jtag.WantMapFor? && s.contextMutex == None
    case LookFor => s.jtag.LookUp?
    case LockSocketFor => s.jtag.WantSocket? && s.jtag.c < |s.conns| && s.conns[s.jtag.c].mutex == None
    case SendTo(_, _) => (s.jtag.SendOp? || s.jtag.SendBody?) && s.jtag.c < |s.conns|
    case UnlockSocketOf => s.jtag.UnlockSocket? && s.jtag.c < |s.conns|
    case UnlockMapAgain => s.jtag == UnlockMap
  }

  predicate Possible(s: State, e: Event) {
    match e
    case Connect => true
    case ByConnection(c, step) => ConnCan(s, c, step)
    case ByJtag(act) => JtagCan(s, act)
  }

  /** What a connection thread's next send writes, and the connection once it has succeeded. */
  function SendBytes(pc: ConnPc): seq<nat> {
    match pc
    case AllocSendOp => [OP_ALLOC_ADDR]
    case AllocSendOk(taken) => [if taken.Some? then 1 else 0]
    case AllocSendAddr(addr) => AddrBytes(addr)
    case _ => [OP_PING]
  }

  function AfterSend(conn: Connection): Connection {
    match conn.pc
    case AllocSendOp => conn.(pc := AllocTake)
    case AllocSendOk(None) => conn.(pc := Release, units := conn.units + [AllocReply(None)])
    case AllocSendOk(Some(addr)) => conn.(pc := AllocSendAddr(addr))
    case AllocSendAddr(addr) =>
      conn.(pc := WantMap(addr), addresses := conn.addresses + {addr}, units := conn.units + [AllocReply(Some(addr))])
    case _ => conn.(pc := Release, units := conn.units + [PingReply])
  }

  function Put(s: State, c: nat, conn: Connection): State
    requires c < |s.conns|
  {
    s.(conns := s.conns[c := conn])
  }

  /** The lowest free address is handed out. */
  ghost function Lowest(free: set<nat>): (a: nat)
    requires free != {}
    ensures a in free && forall b :: b in free ==> a <= b
  {
    LeastExists(free);
    var a :| a in free && forall b :: b in free ==> a <= b;
    a
  }

  ghost function ConnNext(s: State, c: nat, step: ConnStep): State
    requires ConnCan(s, c, step)
  {
    var conn := s.conns[c];
    match step
    case AskAlloc => Put(s, c, conn.(pc := WantAlloc))
    case AskPing => Put(s, c, conn.(pc := WantPing))
    case AskRpc(m) =>
      // a source address outside the debug subnet ends the connection; a destination inside it is dropped
      if !InDebugSubnet(s, m.src) then Put(s, c, conn.(pc := WantCleanup))
      else if InDebugSubnet(s, m.dst) then s
      else s.(toJtag := s.toJtag + [m])
    case Leave => Put(s, c, conn.(pc := WantCleanup))
    case LockSocket =>
      Put(s, c, conn.(mutex := Some(Client(c)), pc := if conn.pc == WantAlloc then AllocSendOp else PingSendOp))
    case Send(ok, partial) =>
      if ok then Put(s, c, AfterSend(conn.(bytes := conn.bytes + SendBytes(conn.pc))))
      else Put(s, c, conn.(bytes := conn.bytes + partial, broken := true, mutex := None, pc := WantCleanup))
    case TakeAddress =>
      if s.free == {} then Put(s, c, conn.(pc := AllocSendOk(None)))
      else
        var a := Lowest(s.free);
        Put(s, c, conn.(pc := AllocSendOk(Some(a)))).(free := s.free - {a})
    case LockMap =>
      Put(s, c,
        conn.(pc := if conn.pc.WantMap? then MapInsert(conn.pc.addr) else Erase)).(contextMutex := Some(Client(c)))
    case Insert =>
      Put(s, c, conn.(pc := Release)).(contextMap := s.contextMap[conn.pc.addr := c], contextMutex := None)
    case Unlock => Put(s, c, conn.(pc := Receiving, mutex := None))
    case EraseAll =>
      Put(s, c, conn.(pc := Done)).(contextMap := s.contextMap - conn.addresses, contextMutex := None)
  }

  function JtagNext(s: State, act: JtagStep): State
    requires JtagCan(s, act)
  {
    match act
    case Pop(m) => s.(jtag := WantMapFor(m))
    case LockMapFor => s.(jtag := LookUp(s.jtag.m), contextMutex := Some(Jtag))
    case LookFor =>
      var m := s.jtag.m;
      s.(jtag := if m.dst in s.contextMap then WantSocket(m, s.contextMap[m.dst]) else UnlockMap)
    case LockSocketFor =>
      var m, c := s.jtag.m, s.jtag.c;
      Put(s, c, s.conns[c].(mutex := Some(Jtag))).(jtag := SendOp(m, c))
    case SendTo(ok, partial) =>
      // the result of the send is not looked at
      var m, c := s.jtag.m, s.jtag.c;
      var conn := s.conns[c];
      if !ok then
        Put(s, c, conn.(bytes := conn.bytes + partial, broken := true))
          .(jtag := if s.jtag.SendOp? then SendBody(m, c) else UnlockSocket(m, c))
      else if s.jtag.SendOp? then
        Put(s, c, conn.(bytes := conn.bytes + [OP_RPC])).(jtag := SendBody(m, c))
      else
        Put(s, c,
          conn.(bytes := conn.bytes + PackedBytes(m), units := conn.units + [Rpc(m)])).(jtag := UnlockSocket(m, c))
    case UnlockSocketOf =>
      Put(s, s.jtag.c, s.conns[s.jtag.c].(mutex := None)).(jtag := UnlockMap)
    case UnlockMapAgain => s.(jtag := Polling, contextMutex := None)
  }

  ghost function Next(s: State, e: Event): State
    requires Possible(s, e)
  {
    match e
    case Connect => s.(conns := s.conns + [Connection(Receiving, {}, None, [], [], false)])
    case ByConnection(c, step) => ConnNext(s, c, step)
    case ByJtag(act) => JtagNext(s, act)
  }

  ghost predicate Initial(s: State) {
    s.conns == [] && s.contextMap == map[] && s.contextMutex == None && s.jtag == Polling && s.toJtag == []
  }

  // ----- the invariant

  predicate HoldsSocket(pc: ConnPc) {
    pc == AllocSendOp || pc == AllocTake || pc.AllocSendOk? || pc.AllocSendAddr? || pc.WantMap? || pc.MapInsert?
    || pc == PingSendOp || pc == Release
  }

  predicate HoldsMap(pc: ConnPc) {
    pc.MapInsert? || pc == Erase
  }

  predicate JtagHoldsMap(pc: JtagPc) {
    !pc.Polling? && !pc.WantMapFor?
  }

  predicate JtagHoldsSocket(pc: JtagPc, c: nat) {
    (pc.SendOp? || pc.SendBody? || pc.UnlockSocket?) && pc.c == c
  }

  predicate JtagHasContext(pc: JtagPc) {
    pc.WantSocket? || pc.SendOp? || pc.SendBody? || pc.UnlockSocket?
  }

  /** The start of a unit that has been written but not completed. */
  function Partial(s: State, c: nat): seq<nat>
    requires c < |s.conns|
  {
    var conn := s.conns[c];
    if conn.pc == AllocTake || conn.pc.AllocSendOk? then [OP_ALLOC_ADDR]
    else if conn.pc.AllocSendAddr? then [OP_ALLOC_ADDR] + [1]
    else if s.jtag.SendBody? && s.jtag.c == c then [OP_RPC]
    else []
  }

  /** Addresses taken off the free list by a connection, registered or on their way. */
  function Owned(conn: Connection): set<nat> {
    conn.addresses + match conn.pc
    case AllocSendOk(Some(a)) => {a}
    case AllocSendAddr(a) => {a}
    case _ => {}
  }

  /** What a client has been sent is its own: each message went to an address it had registered, and it has
      registered each address it was granted. */
  predicate UnitsOk(conn: Connection) {
    forall u :: u in conn.units ==>
      && (u.Rpc? ==> u.message.dst in conn.addresses)
      && (u.AllocReply? && u.addr.Some? ==> u.addr.value in conn.addresses)
  }

  /** One connection's locks, addresses and bytes. */
  ghost predicate ConnOk(s: State, c: nat)
    requires c < |s.conns|
  {
    var conn := s.conns[c];
    && (HoldsSocket(conn.pc) <==> conn.mutex == Some(Client(c)))
    && (JtagHoldsSocket(s.jtag, c) <==> conn.mutex == Some(Jtag))
    && (conn.mutex.Some? ==> conn.mutex.value == Client(c) || conn.mutex.value == Jtag)
    && (HoldsMap(conn.pc) <==> s.contextMutex == Some(Client(c)))
    && Owned(conn) !! s.free
    && (conn.pc.WantMap? || conn.pc.MapInsert? ==> conn.pc.addr in conn.addresses)
    && UnitsOk(conn)
    && (!conn.broken ==> conn.bytes == AllBytes(conn.units) + Partial(s, c))
  }

  /** An address in the map leads to the live connection that registered it. */
  ghost predicate MapLeads(s: State) {
    forall a :: a in s.contextMap ==>
      s.contextMap[a] < |s.conns| && a in s.conns[s.contextMap[a]].addresses && s.conns[s.contextMap[a]].pc != Done
  }

  /** Every registered address is in the map, but for the one being inserted, until its connection cleans up. */
  ghost predicate MapHasAll(s: State) {
    forall c, a :: 0 <= c < |s.conns| && a in s.conns[c].addresses && s.conns[c].pc != Done
      && s.conns[c].pc != WantMap(a) && s.conns[c].pc != MapInsert(a)
      ==> (a in s.contextMap && s.contextMap[a] == c)
  }

  ghost predicate MapOk(s: State) {
    MapLeads(s) && MapHasAll(s)
  }

  ghost predicate Disjoint(s: State) {
    forall c, d :: 0 <= c < d < |s.conns| ==> Owned(s.conns[c]) !! Owned(s.conns[d])
  }

  ghost predicate JtagOk(s: State) {
    && (JtagHoldsMap(s.jtag) <==> s.contextMutex == Some(Jtag))
    && (s.contextMutex.Some? && s.contextMutex.value.Client? ==> s.contextMutex.value.c < |s.conns|)
    && (JtagHasContext(s.jtag) ==>
       s.jtag.m.dst in s.contextMap && s.contextMap[s.jtag.m.dst] == s.jtag.c && s.jtag.c < |s.conns|)
  }

  ghost predicate QueueOk(s: State) {
    forall m :: m in s.toJtag ==> InDebugSubnet(s, m.src) && !InDebugSubnet(s, m.dst)
  }

  ghost predicate Inv(s: State) {
    (forall c :: 0 <= c < |s.conns| ==> ConnOk(s, c)) && MapOk(s) && Disjoint(s) && JtagOk(s) && QueueOk(s)
  }

  lemma {:induction false} AllBytesNext(units: seq<Unit>, u: Unit)
    ensures AllBytes([]) == []
    ensures AllBytes(units + [u]) == AllBytes(units) + UnitBytes(u)
  {
    assert (units + [u])[..|units|] == units;
  }

  // ----- a connection thread's step keeps it

  lemma {:induction false} ConnOnly(s: State, c: nat, step: ConnStep)
    requires ConnCan(s, c, step)
    ensures var t := ConnNext(s, c, step);
      && t.conns == s.conns[c := t.conns[c]]
      && t.jtag == s.jtag && t.low == s.low && t.high == s.high && t.free <= s.free
      && (t.contextMutex == s.contextMutex
          || (step.LockMap? && s.contextMutex == None && t.contextMutex == Some(Client(c)))
          || (HoldsMap(s.conns[c].pc) && t.contextMutex == None))
  {
    hide AllBytes, PackedBytes, Lowest;
  }

  lemma {:induction false} SendUnitsKept(s: State, c: nat, step: ConnStep)
    requires ConnCan(s, c, step) && UnitsOk(s.conns[c]) && step.Send?
    ensures UnitsOk(ConnNext(s, c, step).conns[c])
  {
    hide AllBytes, PackedBytes, SendBytes, Lowest;
  }

  /** A send leaves the socket's bytes a concatenation of complete units and one that has been begun. */
  lemma {:induction false} SendKept(s: State, c: nat, step: ConnStep)
    requires ConnCan(s, c, step) && ConnOk(s, c) && step.Send? && step.ok
    ensures ConnOk(ConnNext(s, c, step), c)
  {
    hide AllBytes, PackedBytes, Lowest, UnitsOk;
    SendUnitsKept(s, c, step);
    var conn := s.conns[c];
    if conn.pc.AllocSendOk? {
      AllBytesNext(conn.units, AllocReply(None));
    } else if conn.pc.AllocSendAddr? {
      AllBytesNext(conn.units, AllocReply(Some(conn.pc.addr)));
    } else {
      AllBytesNext(conn.units, PingReply);
    }
  }

  predicate IsLocking(step: ConnStep) {
    step.LockSocket? || step.LockMap? || step.Insert? || step.Unlock? || step.EraseAll?
  }

  lemma {:induction false} LockingKept(s: State, c: nat, step: ConnStep)
    requires ConnCan(s, c, step) && ConnOk(s, c) && JtagOk(s) && IsLocking(step)
    ensures ConnOk(ConnNext(s, c, step), c)
  {
    hide AllBytes, PackedBytes, Lowest, SendBytes, AfterSend;
  }

  lemma {:induction false} QuietKept(s: State, c: nat, step: ConnStep)
    requires ConnCan(s, c, step) && ConnOk(s, c) && !IsLocking(step) && !(step.Send? && step.ok)
    ensures ConnOk(ConnNext(s, c, step), c)
  {
    hide AllBytes, PackedBytes, SendBytes, AfterSend;
  }

  lemma {:induction false} OwnKept(s: State, c: nat, step: ConnStep)
    requires ConnCan(s, c, step) && ConnOk(s, c) && JtagOk(s)
    ensures ConnOk(ConnNext(s, c, step), c)
  {
    if step.Send? && step.ok {
      hide *;
      SendKept(s, c, step);
    } else if IsLocking(step) {
      hide *;
      LockingKept(s, c, step);
    } else {
      hide *;
      QuietKept(s, c, step);
    }
  }

  lemma {:induction false} OthersKept(s: State, c: nat, step: ConnStep, d: nat)
    requires ConnCan(s, c, step) && ConnOk(s, c) && d < |s.conns| && d != c && ConnOk(s, d)
    ensures ConnOk(ConnNext(s, c, step), d)
  {
    hide AllBytes, PackedBytes, Lowest, ConnNext;
    ConnOnly(s, c, step);
  }

  /** What a step of connection `c` does to its registered addresses and to the map. */
  lemma {:induction false} AddressesOnly(s: State, c: nat, step: ConnStep)
    requires ConnCan(s, c, step) && ConnOk(s, c)
    ensures var t, conn, next := ConnNext(s, c, step), s.conns[c], ConnNext(s, c, step).conns[c];
      && (step.Insert? ==> t.contextMap == s.contextMap[conn.pc.addr := c] && conn.pc.addr in conn.addresses)
      && (step.EraseAll? ==> t.contextMap == s.contextMap - conn.addresses)
      && (!step.Insert? && !step.EraseAll? ==> t.contextMap == s.contextMap)
      && (step.EraseAll? <==> next.pc == Done)
      && conn.addresses <= next.addresses
      && (forall a :: a in next.addresses && a !in conn.addresses ==> next.pc == WantMap(a))
      && (forall a :: !step.Insert? && (conn.pc == WantMap(a) || conn.pc == MapInsert(a)) ==> next.pc == MapInsert(a))
  {
    hide AllBytes, PackedBytes, Lowest, SendBytes, UnitsOk, Owned, Partial;
  }

  lemma {:induction false} OwnedOnly(s: State, c: nat, step: ConnStep)
    requires ConnCan(s, c, step) && Owned(s.conns[c]) !! s.free
    ensures var t := ConnNext(s, c, step);
        Owned(t.conns[c]) <= Owned(s.conns[c]) + s.free && Owned(t.conns[c]) !! t.free
  {
    hide AllBytes, PackedBytes, Lowest, SendBytes;
  }

  lemma {:induction false} ConnLeadsKept(s: State, c: nat, step: ConnStep)
    requires ConnCan(s, c, step) && ConnOk(s, c) && MapLeads(s)
    ensures MapLeads(ConnNext(s, c, step))
  {
    hide AllBytes, PackedBytes, ConnNext, ConnOk, Owned;
    ConnOnly(s, c, step);
    AddressesOnly(s, c, step);
  }

  /** Erasing a connection's addresses takes nobody else's, since they are disjoint. */
  lemma {:induction false} ConnHasAllKept(s: State, c: nat, step: ConnStep)
    requires ConnCan(s, c, step) && ConnOk(s, c) && MapHasAll(s) && Disjoint(s)
    ensures MapHasAll(ConnNext(s, c, step))
  {
    hide AllBytes, PackedBytes, ConnNext, ConnOk;
    ConnOnly(s, c, step);
    AddressesOnly(s, c, step);
    var t := ConnNext(s, c, step);
    forall d, a | 0 <= d < |t.conns| && a in t.conns[d].addresses && t.conns[d].pc != Done
      && t.conns[d].pc != WantMap(a) && t.conns[d].pc != MapInsert(a)
      ensures a in t.contextMap && t.contextMap[a] == d
    {
      assert d != c ==> a in s.contextMap && a in Owned(s.conns[d]) && a !in Owned(s.conns[c]);
    }
  }

  lemma {:induction false} ConnDisjointKept(s: State, c: nat, step: ConnStep)
    requires ConnCan(s, c, step) && Disjoint(s) && forall d :: 0 <= d < |s.conns| ==> ConnOk(s, d)
    ensures Disjoint(ConnNext(s, c, step))
  {
    hide AllBytes, PackedBytes, ConnNext, ConnOk, Owned;
    ConnOnly(s, c, step);
    OwnedNotFree(s, c);
    OwnedOnly(s, c, step);
    forall d | 0 <= d < |s.conns|
      ensures Owned(s.conns[d]) !! s.free
    {
      OwnedNotFree(s, d);
    }
  }

  lemma {:induction false} OwnedNotFree(s: State, c: nat)
    requires c < |s.conns| && ConnOk(s, c)
    ensures Owned(s.conns[c]) !! s.free
  {
    hide AllBytes, PackedBytes, Owned;
  }

  /** While the JTAG thread works on a context the map mutex is its own, so no connection can touch the map. */
  lemma {:induction false} ConnJtagKept(s: State, c: nat, step: ConnStep)
    requires ConnCan(s, c, step) && ConnOk(s, c) && JtagOk(s)
    ensures JtagOk(ConnNext(s, c, step))
  {
    hide AllBytes, PackedBytes, ConnNext, Owned, Partial;
    ConnOnly(s, c, step);
    AddressesOnly(s, c, step);
  }

  lemma {:induction false} ConnQueueKept(s: State, c: nat, step: ConnStep)
    requires ConnCan(s, c, step) && QueueOk(s)
    ensures QueueOk(ConnNext(s, c, step))
  {
    hide AllBytes, PackedBytes, Lowest, SendBytes, AfterSend;
  }

  lemma {:induction false} ConnStepKeeps(s: State, c: nat, step: ConnStep)
    requires Inv(s) && ConnCan(s, c, step)
    ensures Inv(ConnNext(s, c, step))
  {
    var t := ConnNext(s, c, step);
    forall d | 0 <= d < |t.conns|
      ensures ConnOk(t, d)
    {
      hide ConnOk, MapOk, Disjoint, JtagOk, QueueOk, ConnNext, ConnCan;
      ConnOnly(s, c, step);
      if d == c {
        OwnKept(s, c, step);
      } else {
        OthersKept(s, c, step, d);
      }
    }
    assert MapOk(t) by {
      hide ConnOk, MapOk, Disjoint, JtagOk, QueueOk, ConnNext, ConnCan;
      ConnLeadsKept(s, c, step);
      ConnHasAllKept(s, c, step);
    }
    assert Disjoint(t) by {
      hide ConnOk, MapOk, Disjoint, JtagOk, QueueOk, ConnNext, ConnCan;
      ConnDisjointKept(s, c, step);
    }
    assert JtagOk(t) by { hide ConnOk, MapOk, Disjoint, JtagOk, QueueOk, ConnNext, ConnCan; ConnJtagKept(s, c, step); }
    assert QueueOk(t) by {
      hide ConnOk, MapOk, Disjoint, JtagOk, QueueOk, ConnNext, ConnCan;
      ConnQueueKept(s, c, step);
    }
    hide ConnOk, MapOk, Disjoint, JtagOk, QueueOk, ConnNext, ConnCan;
  }

  // ----- a step of the JTAG thread keeps it

  lemma {:induction false} JtagOnly(s: State, act: JtagStep)
    requires JtagCan(s, act) && JtagOk(s)
    ensures var t := JtagNext(s, act);
      && t.contextMap == s.contextMap && t.free == s.free && t.low == s.low && t.high == s.high && t.toJtag == s.toJtag
      && |t.conns| == |s.conns|
      && (forall d :: 0 <= d < |s.conns| && (!JtagHasContext(s.jtag) || s.jtag.c != d) ==> t.conns[d] == s.conns[d])
      && (forall d :: 0 <= d < |s.conns| ==>
         t.conns[d].addresses == s.conns[d].addresses && t.conns[d].pc == s.conns[d].pc)
      && (t.contextMutex == s.contextMutex || (s.contextMutex == None && t.contextMutex == Some(Jtag))
          || (s.contextMutex == Some(Jtag) && t.contextMutex == None))
      && (forall d :: 0 <= d < |s.conns| && (!JtagHasContext(s.jtag) || s.jtag.c != d) ==>
          !JtagHoldsSocket(t.jtag, d) && !(t.jtag.SendBody? && t.jtag.c == d))
  {
    hide AllBytes, PackedBytes;
  }

  lemma {:induction false} JtagOthersKept(s: State, act: JtagStep, d: nat)
    requires JtagCan(s, act) && JtagOk(s) && d < |s.conns| && ConnOk(s, d)
    requires !JtagHasContext(s.jtag) || s.jtag.c != d
    ensures ConnOk(JtagNext(s, act), d)
  {
    hide AllBytes, PackedBytes, JtagNext, UnitsOk;
    JtagOnly(s, act);
  }

  lemma {:induction false} JtagUnitsKept(s: State, act: JtagStep)
    requires JtagCan(s, act) && JtagOk(s) && MapOk(s) && JtagHasContext(s.jtag) && UnitsOk(s.conns[s.jtag.c])
    ensures UnitsOk(JtagNext(s, act).conns[s.jtag.c])
  {
    hide AllBytes, PackedBytes;
  }

  /** The connection the JTAG thread writes to: its unit is begun, then completed. */
  lemma {:induction false} JtagWriteKept(s: State, act: JtagStep)
    requires JtagCan(s, act) && JtagHasContext(s.jtag) && ConnOk(s, s.jtag.c) && act.SendTo?
    requires UnitsOk(JtagNext(s, act).conns[s.jtag.c])
    ensures ConnOk(JtagNext(s, act), s.jtag.c)
  {
    hide AllBytes, PackedBytes, UnitsOk, HoldsMap;
    AllBytesNext(s.conns[s.jtag.c].units, Rpc(s.jtag.m));
  }

  lemma {:induction false} JtagContextKept(s: State, act: JtagStep)
    requires JtagCan(s, act) && JtagOk(s) && MapOk(s) && JtagHasContext(s.jtag) && ConnOk(s, s.jtag.c)
    ensures ConnOk(JtagNext(s, act), s.jtag.c)
  {
    JtagUnitsKept(s, act) by { hide MapOk, JtagOk, JtagNext, JtagCan; }
    if act.SendTo? {
      hide JtagNext, ConnOk, MapOk, UnitsOk;
      JtagWriteKept(s, act);
    } else {
      hide AllBytes, PackedBytes, MapOk, UnitsOk, HoldsMap;
    }
  }

  lemma {:induction false} JtagSelfKept(s: State, act: JtagStep)
    requires JtagCan(s, act) && JtagOk(s) && MapOk(s)
    ensures JtagOk(JtagNext(s, act))
  {
    hide AllBytes, PackedBytes;
  }

  lemma {:induction false} JtagMapKept(s: State, act: JtagStep)
    requires JtagCan(s, act) && JtagOk(s) && MapOk(s) && Disjoint(s)
    ensures MapOk(JtagNext(s, act)) && Disjoint(JtagNext(s, act))
  {
    hide AllBytes, PackedBytes, JtagNext;
    JtagOnly(s, act);
  }

  lemma {:induction false} JtagStepKeeps(s: State, act: JtagStep)
    requires Inv(s) && JtagCan(s, act)
    ensures Inv(JtagNext(s, act))
  {
    hide ConnOk, MapOk, Disjoint, JtagOk, JtagNext, JtagCan;
    var t := JtagNext(s, act);
    JtagOnly(s, act);
    JtagSelfKept(s, act);
    JtagMapKept(s, act);
    forall d | 0 <= d < |t.conns|
      ensures ConnOk(t, d)
    {
      if JtagHasContext(s.jtag) && s.jtag.c == d {
        JtagContextKept(s, act);
      } else {
        JtagOthersKept(s, act, d);
      }
    }
  }

  // ----- every run

  lemma {:induction false} ConnectKeeps(s: State)
    requires Inv(s)
    ensures Inv(Next(s, Connect))
  {
    hide PackedBytes, Lowest, AllBytes;
    AllBytesNext([], PingReply);
    var t := Next(s, Connect);
    forall c | 0 <= c < |t.conns|
      ensures ConnOk(t, c)
    {
      assert c < |s.conns| ==> ConnOk(s, c);
    }
  }

  lemma {:induction false} StepKeeps(s: State, e: Event)
    requires Inv(s) && Possible(s, e)
    ensures Inv(Next(s, e))
  {
    hide Inv, ConnNext, JtagNext, ConnCan, JtagCan;
    match e
    case Connect => ConnectKeeps(s);
    case ByConnection(c, step) => ConnStepKeeps(s, c, step);
    case ByJtag(act) => JtagStepKeeps(s, act);
  }

  /** A run: any threads, any interleaving, any number of connections. */
  ghost predicate CanRun(s: State, events: seq<Event>)
    decreases |events|
  {
    |events| > 0 ==> Possible(s, events[0]) && CanRun(Next(s, events[0]), events[1..])
  }

  ghost function Run(s: State, events: seq<Event>): State
    requires CanRun(s, events)
    decreases |events|
  {
    if |events| == 0 then s else Run(Next(s, events[0]), events[1..])
  }

  lemma {:induction false} RunKeeps(s: State, events: seq<Event>)
    requires Inv(s) && CanRun(s, events)
    ensures Inv(Run(s, events))
    decreases |events|
  {
    hide Inv, Next, Possible;
    if |events| > 0 {
      StepKeeps(s, events[0]);
      RunKeeps(Next(s, events[0]), events[1..]);
    }
  }

  /** Safety of the switch in every run. */
  lemma {:induction false} SwitchIsSafe(s: State, events: seq<Event>)
    requires Initial(s) && CanRun(s, events)
    ensures var t := Run(s, events);
      // a message is only written under its context's mutex, and from locking that until unlocking it the context is
      // live and has the destination registered
      && (t.jtag.SendOp? || t.jtag.SendBody? || t.jtag.UnlockSocket? ==>
            t.jtag.c < |t.conns| && t.conns[t.jtag.c].mutex == Some(Jtag))
      && (t.jtag.WantSocket? || t.jtag.SendOp? || t.jtag.SendBody? || t.jtag.UnlockSocket? ==>
            t.jtag.c < |t.conns| && t.conns[t.jtag.c].pc != Done && t.jtag.m.dst in t.conns[t.jtag.c].addresses)
      // no address is registered by two connections, and the map holds none of a finished connection's
      && (forall c, d :: 0 <= c < d < |t.conns| ==> t.conns[c].addresses !! t.conns[d].addresses)
      && (forall c, a :: 0 <= c < |t.conns| && t.conns[c].pc == Done && a in t.conns[c].addresses ==>
         a !in t.contextMap)
      // whole units: with the mutex free and no failed send, nothing is half written
      && (forall c :: 0 <= c < |t.conns| && t.conns[c].mutex == None && !t.conns[c].broken ==>
            t.conns[c].bytes == AllBytes(t.conns[c].units))
      // every message a client was sent was addressed to it
      && (forall c, u :: 0 <= c < |t.conns| && u in t.conns[c].units && u.Rpc? ==>
         u.message.dst in t.conns[c].addresses)
      // only messages from the debug subnet to the network are queued for JTAG
      && (forall m :: m in t.toJtag ==> InDebugSubnet(t, m.src) && !InDebugSubnet(t, m.dst))
  {
    hide Next, Possible, AllBytes, PackedBytes, CanRun, Run;
    RunKeeps(s, events);
    var t := Run(s, events);
    forall c | 0 <= c < |t.conns|
      ensures ConnOk(t, c) && UnitsOk(t.conns[c])
    {
    }
  }
}
