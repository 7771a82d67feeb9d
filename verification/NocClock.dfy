/** What hosts put into the network: answers, packets of their own, and the order of a clock
    (sim/noc/NOCHost.cpp:90-149, sim/noc/main.cpp:318-326). */
module NocClock {
  import opened NocNetwork
  import opened NocSimulator
  import opened NocTiming
  import opened Options
  import Grid = GridTopology
  import Tree = QuadtreeTopology

  // ----- answers

  /** Of the hosts other than the network interface and the CPU, each answers the sender of a call, a read or a write,
      and no answer is itself answered. */
  lemma {:induction false} PlainHostReplies(nic: NicAnswer, host: nat, packet: Packet)
    ensures Hosts(nic)(0x0000, packet) == nic(packet) && Hosts(nic)(0x00ff, packet) == None
    ensures host != 0x0000 && host != 0x00ff ==>
      var answer := Hosts(nic)(host, packet);
      && (answer.Some? <==> packet.kind in {RpcCall, DmaRead, DmaWrite})
      && (packet.kind == RpcCall ==> answer.value.kind == RpcReturn && answer.value.size == 4)
      && (packet.kind == DmaRead ==> answer.value.kind == DmaRdata && answer.value.size == packet.replySize)
      && (packet.kind == DmaWrite ==> answer.value.kind == DmaAck && answer.value.size == 3)
      && (answer.Some? ==> answer.value.dst == packet.src && answer.value.replySize == 4)
      && forall other: nat, reply: Packet :: answer.Some? && reply.kind == answer.value.kind && other != 0x0000 ==>
           Hosts(nic)(other, reply) == None
  {
    if host != 0x0000 && host != 0x00ff {
      assert Hosts(nic)(host, packet) == HostReply(packet);
      forall other: nat, reply: Packet | HostReply(packet).Some? && reply.kind == HostReply(packet).value.kind
                                         && other != 0x0000
        ensures Hosts(nic)(other, reply) == None
      {
        assert HostReply(reply) == None;
      }
    }
  }

  // ----- a packet enters the network

  /** The port of its router that a host hangs from: the low bits of its address. */
  function HostPort(topo: Topology, host: nat): nat {
    if topo.GridNet? then host % 16 else host % 4
  }

  /** A packet sent stands in its router's inbox for that host and may leave four clocks later, or was rejected
      because the inbox was full. Nothing else changes. */
  lemma {:induction false} SendEnters(topo: Topology, net: Net, host: nat, out: Outgoing)
    requires WellFormed(topo, net) && HostExists(topo, host)
    ensures var after, id, port := Inject(topo, net, host, out), Home(topo, host), HostPort(topo, host);
            var packet := Packet(host, out.dst, out.size, out.replySize, out.kind, net.time, net.created, 0);
            && RouterExists(topo, id) && port < Ports(topo) && id in after.routers
            && var s, u := net.routers[id], after.routers[id];
               && after == net.(created := net.created + 1, rejected := after.rejected, routers := net.routers[id := u])
               && if s.valid[port] then u == s && after.rejected == net.rejected + [packet]
                  else
                    && after.rejected == net.rejected
                    && u == s.(inbox := s.inbox[port := packet.(hops := 1)], valid := s.valid[port := true],
                               forwardTime := s.forwardTime[port := net.time + 4])
  {
    HomeExists(topo, host);
    match topo
    case GridNet(random) =>
      Grid.HostPort(random, host);
    case TreeNet(k) =>
      Tree.UpZero(host);
      Tree.UpStep(host, 0);
  }

  // ----- the events of a clock

  /** The routers that take a Timestep, in order. */
  function SteppedIn(events: seq<Event>): seq<RouterId> {
    if |events| == 0 then []
    else
      var e := events[|events| - 1];
      SteppedIn(events[..|events| - 1]) + if e.Step? then [e.id] else []
  }

  /** What a host sends, in order. */
  function SentIn(events: seq<Event>, host: nat): seq<Outgoing> {
    if |events| == 0 then []
    else
      var e := events[|events| - 1];
      SentIn(events[..|events| - 1], host) + if e.Send? && e.host == host then [e.out] else []
  }

  function RoutersIn(order: seq<Node>): seq<RouterId> {
    if |order| == 0 then []
    else
      var node := order[|order| - 1];
      RoutersIn(order[..|order| - 1]) + if node.RouterNode? then [node.id] else []
  }

  lemma {:induction false} EventNext(events: seq<Event>, e: Event, host: nat)
    ensures SteppedIn(events + [e]) == SteppedIn(events) + if e.Step? then [e.id] else []
    ensures SentIn(events + [e], host) == SentIn(events, host) + if e.Send? && e.host == host then [e.out] else []
  {
    assert (events + [e])[..|events|] == events;
  }

  lemma {:induction false} EventsJoin(a: seq<Event>, b: seq<Event>, host: nat)
    ensures SteppedIn(a + b) == SteppedIn(a) + SteppedIn(b)
    ensures SentIn(a + b, host) == SentIn(a, host) + SentIn(b, host)
  {
    hide SteppedIn, SentIn;
    if |b| == 0 {
      assert a + b == a;
      NoEvents(host);
    } else {
      var front, last := b[..|b| - 1], b[|b| - 1];
      assert b == front + [last] && a + b == a + front + [last];
      EventsJoin(a, front, host);
      EventNext(a + front, last, host);
      EventNext(front, last, host);
    }
  }

  lemma {:induction false} SendEventsSend(addr: nat, out: seq<Outgoing>, host: nat)
    ensures SteppedIn(SendEvents(addr, out)) == []
    ensures SentIn(SendEvents(addr, out), host) == if host == addr then out else []
  {
    hide SteppedIn, SentIn;
    NoEvents(host);
    if |out| > 0 {
      var front, last := out[..|out| - 1], out[|out| - 1];
      assert out == front + [last] && SendEvents(addr, out) == SendEvents(addr, front) + [Send(addr, last)];
      SendEventsSend(addr, front, host);
      EventsJoin(SendEvents(addr, front), [Send(addr, last)], host);
      OneEvent(Send(addr, last), host);
    }
  }

  /** The hosts that send of their own accord. */
  function OwnSends(host: nat, time: nat, sending: Sending): seq<Outgoing> {
    if host == 0x0000 || host == 0x00ff then sending(host, time) else []
  }

  /** In a clock every router takes its Timesteps in the order of the nodes, with what the network interface then
      answers; the CPU and the network interface, where they are stepped, send all they want to; no other host sends. */
  lemma {:induction false} OneClock(order: seq<Node>, time: nat, nic: NicAnswers, sending: Sending, host: nat)
    ensures var events := OrderEvents(order, time, nic, sending);
            && SteppedIn(events) == RoutersIn(order) && Tick !in events
            && (forall e :: e in events && e.Step? ==> e.behavior == Hosts(nic(e.id, time)))
            && (HostNode(host) !in order ==> SentIn(events, host) == [])
            && (multiset(order)[HostNode(host)] == 1 ==> SentIn(events, host) == OwnSends(host, time, sending))
  {
    hide NodeEvents, OwnSends, HostSends, SteppedIn, SentIn;
    if |order| == 0 {
      NoEvents(host);
    } else {
      var front, node := order[..|order| - 1], order[|order| - 1];
      assert order == front + [node];
      OneClock(front, time, nic, sending, host);
      EventsJoin(OrderEvents(front, time, nic, sending), NodeEvents(node, time, nic, sending), host);
      OneNode(node, time, nic, sending, host);
    }
  }

  lemma NoEvents(host: nat)
    ensures SteppedIn([]) == [] && SentIn([], host) == []
  {
  }

  lemma {:induction false} OneNode(node: Node, time: nat, nic: NicAnswers, sending: Sending, host: nat)
    ensures var events := NodeEvents(node, time, nic, sending);
            && SteppedIn(events) == (if node.RouterNode? then [node.id] else []) && Tick !in events
            && (forall e :: e in events && e.Step? ==> e.behavior == Hosts(nic(e.id, time)))
            && SentIn(events, host) == if node == HostNode(host) then OwnSends(host, time, sending) else []
  {
    match node
    case RouterNode(id) =>
      var e := Step(id, Hosts(nic(id, time)));
      OneEvent(e, host);
    case HostNode(addr) =>
      SendEventsSend(addr, HostSends(addr, time, sending), host);
  }

  lemma {:induction false} OneEvent(e: Event, host: nat)
    ensures SteppedIn([e]) == if e.Step? then [e.id] else []
    ensures SentIn([e], host) == if e.Send? && e.host == host then [e.out] else []
  {
    assert [e][..0] == [];
    NoEvents(host);
  }

  /** What a host sends in `n` clocks from `time` on. */
  function SendsOver(host: nat, time: nat, n: nat, sending: Sending): seq<Outgoing> {
    if n == 0 then [] else SendsOver(host, time, n - 1, sending) + OwnSends(host, time + n - 1, sending)
  }

  function SteppedOver(orders: seq<seq<Node>>): seq<RouterId> {
    if |orders| == 0 then [] else SteppedOver(orders[..|orders| - 1]) + RoutersIn(orders[|orders| - 1])
  }

  /** The same over any number of clocks in which every node is stepped once. */
  lemma {:induction false} EveryClock(orders: seq<seq<Node>>, nodes: set<Node>, time: nat,
                                      nic: NicAnswers, sending: Sending, host: nat)
    requires forall i :: 0 <= i < |orders| ==> multiset(orders[i]) == multiset(nodes)
    ensures var events := Schedule(orders, time, nic, sending);
            && SteppedIn(events) == SteppedOver(orders) && multiset(events)[Tick] == |orders|
            && SentIn(events, host) == if HostNode(host) in nodes then SendsOver(host, time, |orders|, sending) else []
  {
    hide SteppedIn, SentIn, OrderEvents, OwnSends, RoutersIn;
    if |orders| == 0 {
      NoEvents(host);
    } else {
      var front, order := orders[..|orders| - 1], orders[|orders| - 1];
      EveryClock(front, nodes, time, nic, sending, host);
      OneMoreClock(Schedule(front, time, nic, sending), order, nodes, time + |orders| - 1, nic, sending, host);
    }
  }

  lemma {:induction false} OneMoreClock(before: seq<Event>, order: seq<Node>, nodes: set<Node>, time: nat,
                                        nic: NicAnswers, sending: Sending, host: nat)
    requires multiset(order) == multiset(nodes)
    ensures var events := before + OrderEvents(order, time, nic, sending) + [Tick];
            && SteppedIn(events) == SteppedIn(before) + RoutersIn(order)
            && multiset(events)[Tick] == multiset(before)[Tick] + 1
            && SentIn(events, host)
               == SentIn(before, host) + if HostNode(host) in nodes then OwnSends(host, time, sending) else []
  {
    hide SteppedIn, SentIn, OrderEvents, OwnSends, RoutersIn;
    var clock := OrderEvents(order, time, nic, sending);
    OneClock(order, time, nic, sending, host);
    EventsJoin(before, clock, host);
    EventsJoin(before + clock, [Tick], host);
    OneEvent(Tick, host);
    assert multiset(clock)[Tick] == 0;
    assert multiset(order)[HostNode(host)] == multiset(nodes)[HostNode(host)];
  }

  // ----- the latency that is counted

  /** Until the clock reaches 2^32 the latency counted for a delivery is the time since it was sent, so at least four
      clocks for every router of its route. */
  lemma {:induction false} LatencyIsAge(topo: Topology, net: Net, events: seq<Event>, i: nat)
    requires Initial(topo, net) && forall e :: e in events ==> Possible(topo, e)
    requires i < |Run(topo, net, events).delivered|
    ensures var d := Run(topo, net, events).delivered[i];
            d.time < 0x1_0000_0000 ==>
              HostExists(topo, d.packet.src) && HostExists(topo, d.packet.dst)
              && Latency(d) == d.time - d.packet.timeSent >= 4 * RouteLength(topo, d.packet.src, d.packet.dst)
  {
    hide Run, RouteLength, HostExists;
    DeliveriesAreTimely(topo, net, events, i);
  }

  /** What the simulator counts: packets, and of their latencies in 32 bits the least, the greatest and the sum. */
  lemma {:induction false} StatisticsAre(sim: Simulation, i: nat)
    requires sim.Valid() && i < |sim.delivered|
    ensures sim.m_totalPackets == |sim.delivered|
    ensures var latency := (sim.delivered[i].time - sim.delivered[i].packet.timeSent) % 0x1_0000_0000;
            && sim.m_minLatency <= latency <= sim.m_maxLatency
            && exists low, high ::
                 && 0 <= low < |sim.delivered| && 0 <= high < |sim.delivered|
                 && Latency(sim.delivered[low]) == sim.m_minLatency && Latency(sim.delivered[high]) == sim.m_maxLatency
    ensures sim.m_totalLatency == TotalLatency(sim.delivered)
    ensures TotalLatency(sim.delivered[..i + 1]) == TotalLatency(sim.delivered[..i]) + Latency(sim.delivered[i])
  {
    assert Extremes(sim.delivered, sim.m_minLatency, sim.m_maxLatency);
    assert sim.delivered[..i + 1][..i] == sim.delivered[..i];
    assert Latency(sim.delivered[i]) < 0x1_0000_0000;
    if sim.m_minLatency == 0xffff_ffff {
      assert Latency(sim.delivered[i]) == sim.m_minLatency;
    }
    if sim.m_maxLatency == 0 {
      assert Latency(sim.delivered[i]) == sim.m_maxLatency;
    }
  }
}
