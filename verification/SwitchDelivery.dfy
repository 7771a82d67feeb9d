/** Which messages the switch sends to a client: those that the JTAG thread found addressed to it, in the order in which
    it took them from the bridge (src/nocswitch/JtagThread.cpp). */
module SwitchDelivery {
  import opened RpcMessages
  import opened Options
  import opened NocSwitch

  /** The messages among what has been written to a client. */
  function RpcsIn(units: seq<Unit>): seq<RpcMessage> {
    if |units| == 0 then []
    else RpcsIn(units[..|units| - 1]) + if units[|units| - 1].Rpc? then [units[|units| - 1].message] else []
  }

  lemma {:induction false} RpcsNext(units: seq<Unit>, u: Unit)
    ensures RpcsIn([]) == [] && RpcsIn(units + [u]) == RpcsIn(units) + if u.Rpc? then [u.message] else []
  {
    assert (units + [u])[..|units|] == units;
  }

  /** What connection `c` has been sent, if there is one yet. */
  function Sent(s: State, c: nat): seq<RpcMessage> {
    if c < |s.conns| then RpcsIn(s.conns[c].units) else []
  }

  /** A send to it has failed. */
  predicate Broken(s: State, c: nat) {
    c < |s.conns| && s.conns[c].broken
  }

  /** The message on its way to it. */
  function OnTheWay(s: State, c: nat): seq<RpcMessage> {
    if (s.jtag.WantSocket? || s.jtag.SendOp? || s.jtag.SendBody?) && s.jtag.c == c then [s.jtag.m] else []
  }

  /** A message taken from the bridge and the context found for its destination, if there is one. */
  datatype Lookup = Lookup(m: RpcMessage, context: Option<nat>)

  function LookedUp(s: State, e: Event): seq<Lookup> {
    if e == ByJtag(LookFor) && s.jtag.LookUp? then
      [Lookup(s.jtag.m, if s.jtag.m.dst in s.contextMap then Some(s.contextMap[s.jtag.m.dst]) else None)]
    else []
  }

  /** The messages that turned out to be for connection `c`. */
  function ForClient(log: seq<Lookup>, c: nat): seq<RpcMessage> {
    if |log| == 0 then [] else (if log[0].context == Some(c) then [log[0].m] else []) + ForClient(log[1..], c)
  }

  function Messages(log: seq<Lookup>): (ms: seq<RpcMessage>)
    ensures |ms| == |log|
  {
    seq(|log|, i requires 0 <= i < |log| => log[i].m)
  }

  /** What a run looks up. */
  ghost function Lookups(s: State, events: seq<Event>): seq<Lookup>
    requires CanRun(s, events)
    decreases |events|
  {
    if |events| == 0 then [] else LookedUp(s, events[0]) + Lookups(Next(s, events[0]), events[1..])
  }

  /** The messages a run takes from the bridge. */
  function Popped(events: seq<Event>): seq<RpcMessage> {
    if |events| == 0 then [] else PoppedBy(events[0]) + Popped(events[1..])
  }

  function PoppedBy(e: Event): seq<RpcMessage> {
    if e.ByJtag? && e.act.Pop? then [e.act.m] else []
  }

  /** The message that waits to be looked up. */
  function Awaiting(s: State): seq<RpcMessage> {
    if s.jtag.WantMapFor? || s.jtag.LookUp? then [s.jtag.m] else []
  }

  // ----- one step

  lemma {:induction false} ConnStepSends(s: State, c: nat, step: ConnStep, d: nat)
    requires ConnCan(s, c, step)
    ensures var t := ConnNext(s, c, step);
            Sent(t, d) == Sent(s, d) && OnTheWay(t, d) == OnTheWay(s, d) && (Broken(s, d) ==> Broken(t, d))
  {
    hide RpcsIn, SendBytes, Lowest;
    if c == d {
      RpcsNext(s.conns[c].units, PingReply);
      RpcsNext(s.conns[c].units, AllocReply(None));
      if s.conns[c].pc.AllocSendAddr? {
        RpcsNext(s.conns[c].units, AllocReply(Some(s.conns[c].pc.addr)));
      }
    }
  }

  lemma {:induction false} JtagStepSends(s: State, act: JtagStep, d: nat)
    requires JtagCan(s, act)
    ensures var t := JtagNext(s, act);
            && (Broken(s, d) ==> Broken(t, d))
            && (!Broken(t, d) ==>
               Sent(t, d) + OnTheWay(t, d) == Sent(s, d) + OnTheWay(s, d) + ForClient(LookedUp(s, ByJtag(act)), d))
  {
    hide RpcsIn, PackedBytes;
    if act.SendTo? && s.jtag.SendBody? && s.jtag.c == d {
      RpcsNext(s.conns[d].units, Rpc(s.jtag.m));
    }
  }

  lemma {:induction false} StepSends(s: State, e: Event, d: nat)
    requires Possible(s, e)
    ensures var t := Next(s, e);
            && (Broken(s, d) ==> Broken(t, d))
            && (!Broken(t, d) ==>
               Sent(t, d) + OnTheWay(t, d) == Sent(s, d) + OnTheWay(s, d) + ForClient(LookedUp(s, e), d))
  {
    hide ConnNext, JtagNext, ConnCan, JtagCan, Sent, OnTheWay, Broken;
    match e
    case Connect => ConnectSends(s, d);
    case ByConnection(c, step) => ConnStepSends(s, c, step, d);
    case ByJtag(act) => JtagStepSends(s, act, d);
  }

  lemma {:induction false} ConnectSends(s: State, d: nat)
    ensures var t := Next(s, Connect);
            Sent(t, d) == Sent(s, d) && OnTheWay(t, d) == OnTheWay(s, d) && (Broken(s, d) <==> Broken(t, d))
  {
  }

  lemma {:induction false} StepLooksUp(s: State, e: Event)
    requires Possible(s, e)
    ensures Messages(LookedUp(s, e)) + Awaiting(Next(s, e)) == Awaiting(s) + PoppedBy(e)
  {
    hide Lowest, SendBytes, AfterSend;
  }

  /** Past entering address `a` in the map, and not yet taking it out. */
  predicate Entered(pc: ConnPc, a: nat) {
    pc != Done && pc != WantMap(a) && pc != MapInsert(a)
  }

  /** A lookup finds the live connection that has registered the address, and fails only while there is none or its
      thread has still to enter the address in the map. */
  lemma {:induction false} LookupFinds(s: State)
    requires Inv(s) && s.jtag.LookUp?
    ensures var found, a := LookedUp(s, ByJtag(LookFor))[0].context, s.jtag.m.dst;
            && (found.Some? ==>
                  found.value < |s.conns| && a in s.conns[found.value].addresses && s.conns[found.value].pc != Done)
            && forall c :: 0 <= c < |s.conns| && a in s.conns[c].addresses && Entered(s.conns[c].pc, a) ==>
               found == Some(c)
  {
    hide ConnOk, Disjoint, QueueOk;
    assert MapLeads(s) && MapHasAll(s);
  }

  /** Connections keep the addresses they have registered. */
  lemma {:induction false} AddressesStay(s: State, e: Event)
    requires Inv(s) && Possible(s, e)
    ensures |s.conns| <= |Next(s, e).conns|
    ensures forall c :: 0 <= c < |s.conns| ==> s.conns[c].addresses <= Next(s, e).conns[c].addresses
  {
    hide ConnNext, JtagNext, ConnCan, JtagCan, ConnOk, MapOk, Disjoint, JtagOk, QueueOk;
    match e
    case Connect =>
    case ByConnection(c, step) =>
      assert c < |s.conns| by { Running(s, c, step); }
      ConnOnly(s, c, step);
      AddressesOnly(s, c, step);
    case ByJtag(act) => JtagOnly(s, act);
  }

  lemma {:induction false} Running(s: State, c: nat, step: ConnStep)
    requires ConnCan(s, c, step)
    ensures c < |s.conns|
  {
  }

  // ----- every run

  lemma {:induction false} ForJoin(a: seq<Lookup>, b: seq<Lookup>, c: nat)
    ensures ForClient(a + b, c) == ForClient(a, c) + ForClient(b, c)
  {
    if |a| == 0 {
      assert a + b == b;
    } else {
      assert (a + b)[1..] == a[1..] + b;
      ForJoin(a[1..], b, c);
    }
  }

  lemma {:induction false} RunSends(s: State, events: seq<Event>, c: nat)
    requires CanRun(s, events)
    ensures var t := Run(s, events);
            && (Broken(s, c) ==> Broken(t, c))
            && (!Broken(t, c) ==>
                  Sent(t, c) + OnTheWay(t, c) == Sent(s, c) + OnTheWay(s, c) + ForClient(Lookups(s, events), c))
    decreases |events|
  {
    hide Next, Possible, Sent, OnTheWay, Broken, LookedUp;
    if |events| > 0 {
      var next := Next(s, events[0]);
      StepSends(s, events[0], c);
      RunSends(next, events[1..], c);
      ForJoin(LookedUp(s, events[0]), Lookups(next, events[1..]), c);
    }
  }

  lemma {:induction false} RunLooksUp(s: State, events: seq<Event>)
    requires CanRun(s, events)
    ensures Messages(Lookups(s, events)) + Awaiting(Run(s, events)) == Awaiting(s) + Popped(events)
    decreases |events|
  {
    hide Next, Possible, Awaiting, LookedUp, PoppedBy;
    if |events| > 0 {
      var next := Next(s, events[0]);
      StepLooksUp(s, events[0]);
      RunLooksUp(next, events[1..]);
      var first, rest := LookedUp(s, events[0]), Lookups(next, events[1..]);
      assert Messages(first + rest) == Messages(first) + Messages(rest);
      Regroup(Messages(first), Messages(rest), Awaiting(Run(s, events)), Awaiting(next), Popped(events[1..]),
              Awaiting(s), PoppedBy(events[0]));
    }
  }

  lemma {:induction false} Regroup<T>(a: seq<T>, b: seq<T>, end: seq<T>, middle: seq<T>, q: seq<T>, start: seq<T>,
                                      p: seq<T>)
    requires b + end == middle + q && a + middle == start + p
    ensures a + b + end == start + (p + q)
  {
    assert a + b + end == a + (b + end);
    assert a + (middle + q) == (a + middle) + q;
  }

  ghost predicate Registered(s: State, log: seq<Lookup>) {
    forall l :: l in log && l.context.Some? ==>
      l.context.value < |s.conns| && l.m.dst in s.conns[l.context.value].addresses
  }

  lemma {:induction false} RunRegistered(s: State, events: seq<Event>)
    requires Inv(s) && CanRun(s, events)
    ensures Registered(Run(s, events), Lookups(s, events))
    ensures |s.conns| <= |Run(s, events).conns|
    ensures forall c :: 0 <= c < |s.conns| ==> s.conns[c].addresses <= Run(s, events).conns[c].addresses
    decreases |events|
  {
    hide Inv, Next, Possible;
    if |events| > 0 {
      var next := Next(s, events[0]);
      StepKeeps(s, events[0]);
      AddressesStay(s, events[0]);
      RunRegistered(next, events[1..]);
      if events[0] == ByJtag(LookFor) && s.jtag.LookUp? {
        LookupFinds(s);
      }
    }
  }

  /** In every run all messages taken from the bridge are looked up in order, each found to be for the connection that
      has registered its destination, or for none. As long as no send to a client fails, what it has been sent is, in
      that order, exactly what was for it, less the one on its way. */
  lemma {:induction false} SentInOrder(s: State, events: seq<Event>, c: nat)
    requires Initial(s) && CanRun(s, events)
    ensures var t, log := Run(s, events), Lookups(s, events);
            && Messages(log) + Awaiting(t) == Popped(events)
            && Registered(t, log)
            && (!Broken(t, c) ==> Sent(t, c) + OnTheWay(t, c) == ForClient(log, c))
  {
    hide Next, Possible, CanRun, Run, Lookups, ForClient, Popped;
    RunLooksUp(s, events);
    RunRegistered(s, events);
    RunSends(s, events, c);
    var sent := ForClient(Lookups(s, events), c);
    assert [] + sent == sent && [] + Popped(events) == Popped(events);
  }
}
