/** The simulator's objects (sim/noc/GridRouter.cpp, QuadtreeRouter.cpp, NOCHost.cpp, NOCPacket.cpp,
    main.cpp), each method proved against the step it takes on the network value. */
module NocSimulator {
  import opened NocNetwork
  import opened Options

  /** One router. Its C arrays are embedded in the object, so they are sequence-valued fields. */
  class Router {
    var m_inboxes: seq<Packet>
    var m_inboxValid: seq<bool>
    var m_inboxForwardTime: seq<nat>
    var m_outboxBlocked: seq<bool>
    var m_outboxClearTime: seq<nat>
    var m_rrcount: nat
    /** Who is at each port: m_children and m_neighbors, or m_children and m_parentRouter. */
    var m_links: seq<Option<Node>>

    ghost predicate Valid(ports: nat)
      reads this
    {
      State().Shape(ports)
    }

    ghost function State(): RouterState
      reads this
    {
      RouterState(m_inboxes, m_inboxValid, m_inboxForwardTime, m_outboxBlocked, m_outboxClearTime, m_rrcount)
    }

    constructor (ports: nat)
      requires ports > 0
      ensures Valid(ports)
      ensures Idle(State()) && m_links == NoLinks(ports)
    {
      m_inboxes := seq(ports, _ => Packet(0, 0, 0, 4, RpcCall, 0, 0, 0));
      m_inboxValid := seq(ports, _ => false);
      m_inboxForwardTime := seq(ports, _ => 0);
      m_outboxBlocked := seq(ports, _ => false);
      m_outboxClearTime := seq(ports, _ => 0);
      m_rrcount := 0;
      m_links := NoLinks(ports);
    }

    /** AddChild and AddNeighbor, once the port is known. */
    method Attach(port: nat, node: Node)
      requires port < |m_links|
      modifies `m_links
      ensures m_links == old(m_links)[port := Some(node)]
    {
      m_links := m_links[port := Some(node)];
    }

    /** Files a packet in inbox `srcport`, or rejects it if that inbox is full. */
    method AcceptMessage(packet: Packet, srcport: nat, now: nat) returns (ok: bool)
      requires Valid(|m_inboxes|) && srcport < |m_inboxes|
      modifies this
      ensures ok == !old(m_inboxValid[srcport]) && m_links == old(m_links)
      ensures State() == AcceptedBy(old(State()), srcport, packet, now)
    {
      if m_inboxValid[srcport] {
        return false;
      }
      m_inboxes := m_inboxes[srcport := packet.(hops := packet.hops + 1)];
      m_inboxValid := m_inboxValid[srcport := true];
      m_inboxForwardTime := m_inboxForwardTime[srcport := now + 4];
      return true;
    }

    /** Frees the outboxes whose clear time has passed. */
    method ClearOutboxes(now: nat)
      requires Valid(|m_inboxes|)
      modifies this
      ensures State() == Unblocked(old(State()), now) && m_links == old(m_links)
    {
      ghost var before := State();
      for i := 0 to |m_outboxBlocked|
        invariant |m_outboxBlocked| == |before.blocked| && m_links == old(m_links)
        invariant State() == before.(blocked := m_outboxBlocked)
        invariant forall p :: 0 <= p < i ==> m_outboxBlocked[p] == (before.blocked[p] && before.clearTime[p] >= now)
        invariant forall p :: i <= p < |m_outboxBlocked| ==> m_outboxBlocked[p] == before.blocked[p]
      {
        if m_outboxBlocked[i] && m_outboxClearTime[i] < now {
          m_outboxBlocked := m_outboxBlocked[i := false];
        }
      }
      assert m_outboxBlocked == Unblocked(before, now).blocked;
    }
  }

  function NoLinks(ports: nat): seq<Option<Node>> {
    seq(ports, _ => None)
  }

  /** Every port leads where the topology says. */
  ghost predicate Linked(topo: Topology, id: RouterId, links: seq<Option<Node>>)
    requires RouterExists(topo, id)
  {
    |links| == Ports(topo) && forall p :: 0 <= p < Ports(topo) ==> links[p] == Attached(topo, id, p)
  }

  /** No packet waiting and no outbox blocked. */
  ghost predicate Idle(s: RouterState) {
    (forall p :: 0 <= p < |s.valid| ==> !s.valid[p]) && (forall p :: 0 <= p < |s.blocked| ==> !s.blocked[p])
  }

  // ----- packet statistics

  /** `g_time - m_timeSent` in unsigned arithmetic. */
  function Latency(d: Delivery): nat {
    (d.time - d.packet.timeSent) % 0x1_0000_0000
  }

  function TotalLatency(ds: seq<Delivery>): nat {
    if |ds| == 0 then 0 else TotalLatency(ds[..|ds| - 1]) + Latency(ds[|ds| - 1])
  }

  /** `low` and `high` bound every latency and are attained, or are the initial values. */
  ghost predicate Extremes(ds: seq<Delivery>, low: nat, high: nat) {
    && (forall i :: 0 <= i < |ds| ==> low <= Latency(ds[i]) <= high)
    && (low == 0xffff_ffff || exists i :: 0 <= i < |ds| && Latency(ds[i]) == low)
    && (high == 0 || exists i :: 0 <= i < |ds| && Latency(ds[i]) == high)
  }

  lemma {:induction false} OneMoreDelivery(ds: seq<Delivery>, d: Delivery, low: nat, high: nat)
    requires Extremes(ds, low, high)
    ensures TotalLatency(ds + [d]) == TotalLatency(ds) + Latency(d)
    ensures Extremes(ds + [d], if low > Latency(d) then Latency(d) else low,
                     if high < Latency(d) then Latency(d) else high)
  {
    hide Latency;
    var all := ds + [d];
    assert all[..|all| - 1] == ds;
    assert all[|ds|] == d;
    assert forall i :: 0 <= i < |ds| ==> all[i] == ds[i];
    if low != 0xffff_ffff {
      var i :| 0 <= i < |ds| && Latency(ds[i]) == low;
      assert Latency(all[i]) == low;
    }
    if high != 0 {
      var i :| 0 <= i < |ds| && Latency(ds[i]) == high;
      assert Latency(all[i]) == high;
    }
  }

  /** The running simulation: the routers, `g_time`, and what NOCPacket counts. The logs record what
      happens to packets; the simulator only prints it. */
  class Simulation {
    const topo: Topology
    const routers: map<RouterId, Router>
    const g_simNodes: set<Node>
    var g_time: nat
    var created: nat
    var delivered: seq<Delivery>
    var dropped: seq<Packet>
    var rejected: seq<Packet>
    var departures: seq<Departure>
    var m_minLatency: nat
    var m_maxLatency: nat
    var m_totalPackets: nat
    var m_totalLatency: nat

    ghost predicate Wired()
    {
      && (forall id :: RouterExists(topo, id) ==> id in routers)
      && (forall a, b :: a in routers && b in routers && a != b ==> routers[a] != routers[b])
      && (forall node :: node in g_simNodes <==> NodeExists(topo, node))
    }

    ghost predicate Valid()
      reads this, routers.Values
    {
      && Wired()
      && (forall id :: id in routers ==> routers[id].Valid(Ports(topo)))
      && AllLinked()
      && CountsMatch()
    }

    ghost predicate AllLinked()
      reads routers.Values
    {
      forall id :: RouterExists(topo, id) ==> id in routers && Linked(topo, id, routers[id].m_links)
    }

    /** The latency statistics are those of the packets delivered so far. */
    ghost predicate CountsMatch()
      reads `delivered, `m_minLatency, `m_maxLatency, `m_totalPackets, `m_totalLatency
    {
      && m_totalPackets == |delivered| && m_totalLatency == TotalLatency(delivered)
      && Extremes(delivered, m_minLatency, m_maxLatency)
    }

    ghost function RouterStates(): map<RouterId, RouterState>
      reads routers.Values
    {
      map id | id in routers :: routers[id].State()
    }

    ghost function State(): Net
      reads this, routers.Values
    {
      Net(RouterStates(), g_time, created, delivered, dropped, rejected, departures)
    }

    /** Changing one router changes one entry. */
    twostate lemma OneRouterChanged(id: RouterId)
      requires Wired() && id in routers
      requires forall r :: r in routers.Values && r != routers[id] ==> unchanged(r)
      requires routers[id].m_links == old(routers[id].m_links)
      ensures RouterStates() == old(RouterStates())[id := routers[id].State()]
      ensures old(AllLinked()) ==> AllLinked()
    {
      hide RouterExists, Linked;
      forall other | other in routers
        ensures routers[other].m_links == old(routers[other].m_links)
      {
        assert routers[other] in routers.Values;
      }
      forall other | other in routers && other != id
        ensures routers[other].State() == old(routers[other].State())
      {
        assert routers[other] in routers.Values;
      }
    }

    lemma StateIsWellFormed()
      requires Valid()
      ensures WellFormed(topo, State())
    {
    }

    constructor (topo: Topology, routers: map<RouterId, Router>, nodes: set<Node>)
      requires forall node :: node in nodes <==> NodeExists(topo, node)
      requires forall id :: RouterExists(topo, id) ==> id in routers
      requires forall a, b :: a in routers && b in routers && a != b ==> routers[a] != routers[b]
      requires forall id :: id in routers ==> routers[id].Valid(Ports(topo))
      requires forall id :: id in routers ==> Idle(routers[id].State())
      requires forall id :: RouterExists(topo, id) ==> Linked(topo, id, routers[id].m_links)
      ensures this.topo == topo && this.routers == routers
      ensures Valid() && Initial(topo, State())
    {
      this.topo := topo;
      this.routers := routers;
      g_simNodes := nodes;
      g_time, created := 0, 0;
      delivered, dropped, rejected, departures := [], [], [], [];
      m_minLatency, m_maxLatency, m_totalPackets, m_totalLatency := 0xffff_ffff, 0, 0, 0;
    }

    /** NOCPacket::Processed: the latency statistics, and the log of deliveries. */
    method Processed(packet: Packet, host: nat)
      requires Valid()
      modifies this
      ensures Valid() && g_time == old(g_time)
      ensures State() == old(State()).(delivered := old(delivered) + [Delivery(packet, host, g_time)])
    {
      hide Extremes, TotalLatency, RouterStates, AllLinked, Wired;
      var latency := (g_time - packet.timeSent) % 0x1_0000_0000;
      OneMoreDelivery(delivered, Delivery(packet, host, g_time), m_minLatency, m_maxLatency);
      if m_minLatency > latency {
        m_minLatency := latency;
      }
      if m_maxLatency < latency {
        m_maxLatency := latency;
      }
      m_totalPackets := m_totalPackets + 1;
      m_totalLatency := m_totalLatency + latency;
      delivered := delivered + [Delivery(packet, host, g_time)];
    }

    /** A router files a packet, or logs that it rejected it. */
    method AcceptMessage(id: RouterId, port: nat, packet: Packet)
      requires Valid() && id in routers && port < Ports(topo)
      modifies this, routers[id]
      ensures Valid() && g_time == old(g_time)
      ensures State() == Accept(topo, old(State()), id, port, packet)
    {
      hide Extremes, TotalLatency, RouterStates, CountsMatch, AllLinked;
      var ok := routers[id].AcceptMessage(packet, port, g_time);
      OneRouterChanged(id);
      RouterStatesHas(id);
      if !ok {
        rejected := rejected + [packet];
        assert old(RouterStates())[id := old(RouterStates())[id]] == old(RouterStates());
      }
    }

    twostate lemma RouterStatesHas(id: RouterId)
      requires id in routers
      ensures id in old(RouterStates()) && old(RouterStates())[id] == old(routers[id].State())
      ensures id in RouterStates() && RouterStates()[id] == routers[id].State()
    {
    }

    /** A host creates a packet, stamped with the time, and hands it to its router. */
    method Send(host: nat, out: Outgoing)
      requires Valid() && HostExists(topo, host)
      modifies this, routers.Values
      ensures Valid() && g_time == old(g_time)
      ensures WellFormed(topo, old(State())) && State() == Inject(topo, old(State()), host, out)
    {
      hide RouterExists, HostExists, Home, Route, Accept, RouterStates, CountsMatch, AllLinked;
      StateIsWellFormed();
      HomeExists(topo, host);
      var packet := Packet(host, out.dst, out.size, out.replySize, out.kind, g_time, created, 0);
      created := created + 1;
      AcceptMessage(Home(topo, host), Route(topo, Home(topo, host), host), packet);
    }

    /** NOCHost::AcceptMessage, of a plain host or the RAM: count the packet, then answer a request through the same
        router. */
    method PlainHostAccepts(host: nat, packet: Packet, ghost nic: NicAnswer)
      requires Valid() && HostExists(topo, host) && host != NIC_ADDR && host != CPU_ADDR
      modifies this, routers.Values
      ensures Valid() && g_time == old(g_time)
      ensures WellFormed(topo, old(State())) && State() == Deliver(topo, old(State()), host, packet, Hosts(nic))
    {
      hide RouterExists, HostExists, Inject, RouterStates, CountsMatch, AllLinked;
      StateIsWellFormed();
      ghost var before := State();
      Processed(packet, host);
      DeliverPlain(before, host, packet, nic);
      match packet.kind {
        case RpcCall => Send(host, Outgoing(packet.src, 4, RpcReturn, 4));
        case RpcReturn =>
        case RpcInterrupt =>
        case DmaRead => Send(host, Outgoing(packet.src, packet.replySize, DmaRdata, 4));
        case DmaRdata =>
        case DmaWrite => Send(host, Outgoing(packet.src, 3, DmaAck, 4));
        case DmaAck =>
      }
    }

    /** What delivering to such a host comes to. */
    lemma DeliverPlain(before: Net, host: nat, packet: Packet, nic: NicAnswer)
      requires WellFormed(topo, before) && HostExists(topo, host) && host != NIC_ADDR && host != CPU_ADDR
      ensures var taken := before.(delivered := before.delivered + [Delivery(packet, host, before.time)]);
        && WellFormed(topo, taken)
        && Deliver(topo, before, host, packet, Hosts(nic))
           == match HostReply(packet) case None => taken case Some(out) => Inject(topo, taken, host, out)
    {
      hide HostExists, RouterExists, Inject;
    }

    /** A host's AcceptMessage. */
    method HostAccepts(host: nat, packet: Packet, nic: NicAnswer)
      requires Valid() && HostExists(topo, host)
      modifies this, routers.Values
      ensures Valid() && g_time == old(g_time)
      ensures WellFormed(topo, old(State())) && State() == Deliver(topo, old(State()), host, packet, Hosts(nic))
    {
      hide RouterExists, HostExists, Inject, RouterStates, CountsMatch, AllLinked;
      StateIsWellFormed();
      if host == NIC_ADDR {
        Processed(packet, host);
        var reply := nic(packet);
        if reply.Some? {
          Send(host, reply.value);
        }
      } else if host == CPU_ADDR {
        Processed(packet, host);
      } else {
        PlainHostAccepts(host, packet, nic);
      }
    }

    /** Forgets the packet in an inbox. */
    method EmptyInbox(id: RouterId, nport: nat)
      requires Valid() && id in routers && nport < Ports(topo)
      modifies routers[id]
      ensures Valid()
      ensures State() == ClearInbox(old(State()), id, nport)
    {
      hide CountsMatch, RouterStates;
      var r := routers[id];
      r.m_inboxValid := r.m_inboxValid[nport := false];
      OneRouterChanged(id);
      RouterStatesHas(id);
    }

    /** Makes an output port busy for the next four clocks. */
    method BlockOutbox(id: RouterId, dstport: nat)
      requires Valid() && id in routers && dstport < Ports(topo)
      modifies this`departures, routers[id]
      ensures Valid()
      ensures State() == Block(old(State()), id, dstport)
    {
      hide CountsMatch, RouterStates;
      var r := routers[id];
      departures := departures + [Departure(id, dstport, g_time)];
      r.m_outboxBlocked := r.m_outboxBlocked[dstport := true];
      r.m_outboxClearTime := r.m_outboxClearTime[dstport := g_time + 4];
      OneRouterChanged(id);
      RouterStatesHas(id);
    }

    /** Tries to forward the packet in inbox `nport`; what the receiver returns is ignored. */
    method TryForwardFrom(id: RouterId, nport: nat, nic: NicAnswer) returns (forwarded: bool)
      requires Valid() && RouterExists(topo, id) && nport < Ports(topo)
      modifies this, routers.Values
      ensures Valid() && g_time == old(g_time)
      ensures WellFormed(topo, old(State()))
      ensures (State(), forwarded) == TryForward(topo, old(State()), id, nport, Hosts(nic))
    {
      hide RouterExists, HostExists, Home, Route, Follow, InboxOf, SameKind, Accept, Deliver, RouterStates,
        CountsMatch, AllLinked, Block, ClearInbox;
      StateIsWellFormed();
      ghost var before := State();
      var r := routers[id];
      RouterStatesHas(id);
      if !r.m_inboxValid[nport] {
        return false;
      }
      if r.m_inboxForwardTime[nport] > g_time {
        return false;
      }
      var packet := r.m_inboxes[nport];
      var dstport := Route(topo, id, packet.dst);
      RouteStaysInside(topo, id, packet.dst);
      if r.m_outboxBlocked[dstport] {
        return false;
      }
      LinkIsFollow(id, dstport);
      var link := r.m_links[dstport];
      if link == None {
        dropped := dropped + [packet];
        EmptyInbox(id, nport);
        return false;
      }
      match link.value {
        case RouterNode(next) => AcceptMessage(next, InboxOf(topo, next, id), packet);
        case HostNode(host) => HostAccepts(host, packet, nic);
      }
      assert State() == HandOver(topo, before, id, packet, Hosts(nic));
      BlockOutbox(id, dstport);
      EmptyInbox(id, nport);
      return true;
    }

    lemma LinkIsFollow(id: RouterId, port: nat)
      requires Valid() && RouterExists(topo, id) && port < Ports(topo)
      ensures port < |routers[id].m_links| && SameKind(topo, id)
      ensures Follow(topo, id, port)
              == match routers[id].m_links[port]
                 case None => Nowhere
                 case Some(RouterNode(next)) => if SameKind(topo, next) then ToRouter(next, InboxOf(topo, next, id))
                     else Nowhere
                 case Some(HostNode(host)) => ToHost(host)
      ensures forall next :: routers[id].m_links[port] == Some(RouterNode(next)) ==> SameKind(topo, next)
    {
      hide RouterExists, Attached, InboxOf, SameKind, CountsMatch;
      ExistsSameKind(topo, id);
      assert Linked(topo, id, routers[id].m_links);
    }

    method CountForward(id: RouterId, forwarded: bool)
      requires Valid() && id in routers
      modifies routers[id]
      ensures Valid()
      ensures State() == Advance(topo, old(State()), id, forwarded)
    {
      hide CountsMatch, RouterStates;
      if forwarded {
        var r := routers[id];
        r.m_rrcount := (r.m_rrcount + 1) % Ports(topo);
        OneRouterChanged(id);
        RouterStatesHas(id);
      }
    }

    method FreeOutboxes(id: RouterId)
      requires Valid() && id in routers
      modifies routers[id]
      ensures Valid()
      ensures State() == Unblock(old(State()), id)
    {
      hide CountsMatch, RouterStates;
      routers[id].ClearOutboxes(g_time);
      OneRouterChanged(id);
      RouterStatesHas(id);
    }

    /** Tries one port and moves the round-robin counter on if that forwarded. */
    method ForwardAndCount(id: RouterId, nport: nat, nic: NicAnswer)
      requires Valid() && RouterExists(topo, id) && nport < Ports(topo)
      modifies this, routers.Values
      ensures Valid() && g_time == old(g_time)
      ensures WellFormed(topo, old(State()))
      ensures State() == ForwardFrom(topo, old(State()), id, nport, Hosts(nic))
    {
      hide RouterExists, TryForward, RouterStates, CountsMatch, AllLinked;
      StateIsWellFormed();
      TryForwardShape(topo, State(), id, nport, Hosts(nic));
      var forwarded := TryForwardFrom(id, nport, nic);
      CountForward(id, forwarded);
    }

    /** A router's Timestep. */
    method Timestep(id: RouterId, nic: NicAnswer)
      requires Valid() && RouterExists(topo, id)
      modifies this, routers.Values
      ensures Valid() && g_time == old(g_time)
      ensures WellFormed(topo, old(State())) && State() == RouterStep(topo, old(State()), id, Hosts(nic))
    {
      hide RouterExists, ForwardFrom, Unblocked, RouterStates, CountsMatch, AllLinked;
      StateIsWellFormed();
      ghost var before := State();
      FreeOutboxes(id);
      RouterStatesHas(id);
      ghost var first := ForwardFrom(topo, State(), id, State().routers[id].rr, Hosts(nic));
      ForwardAndCount(id, routers[id].m_rrcount, nic);
      for i := 0 to Ports(topo)
        invariant Valid() && g_time == old(g_time) && State() == ForwardUpTo(topo, first, id, i, Hosts(nic))
      {
        ForwardAndCount(id, i, nic);
      }
    }

    /** A host's Timestep: it may send. */
    method HostTimestep(host: nat, sending: Sending)
      requires Valid() && HostExists(topo, host)
      modifies this, routers.Values
      ensures Valid() && g_time == old(g_time)
      ensures WellFormed(topo, old(State()))
      ensures (forall e :: e in SendEvents(host, HostSends(host, g_time, sending)) ==> Possible(topo, e))
      ensures State() == Run(topo, old(State()), SendEvents(host, HostSends(host, g_time, sending)))
    {
      hide HostExists, RouterExists, Inject, RouterStates, CountsMatch, AllLinked;
      StateIsWellFormed();
      ghost var before, all := State(), SendEvents(host, HostSends(host, g_time, sending));
      var out := HostSends(host, g_time, sending);
      for i := 0 to |out|
        invariant Valid() && g_time == old(g_time)
        invariant State() == Run(topo, before, all[..i])
      {
        Send(host, out[i]);
        assert all[..i + 1][..i] == all[..i] && all[i] == NocNetwork.Event.Send(host, out[i]);
      }
      assert all[..|out|] == all;
    }

    method NodeTimestep(node: Node, nic: NicAnswers, sending: Sending)
      requires Valid() && NodeExists(topo, node)
      modifies this, routers.Values
      ensures Valid() && g_time == old(g_time)
      ensures WellFormed(topo, old(State()))
      ensures forall e :: e in NodeEvents(node, g_time, nic, sending) ==> Possible(topo, e)
      ensures State() == Run(topo, old(State()), NodeEvents(node, g_time, nic, sending))
    {
      hide HostExists, RouterExists, RouterStep, SendEvents, RouterStates, CountsMatch, AllLinked;
      StateIsWellFormed();
      match node
      case RouterNode(id) =>
        ghost var before := State();
        Timestep(id, nic(id, g_time));
        OneStep(before, Step(id, Hosts(nic(id, g_time))));
      case HostNode(addr) => HostTimestep(addr, sending);
    }

    lemma OneStep(before: Net, e: Event)
      requires WellFormed(topo, before) && Possible(topo, e)
      ensures Run(topo, before, [e]) == Happen(topo, before, e)
    {
      assert [e][..0] == [];
    }

    /** One clock: every node once, in any order. */
    method RunClock(nic: NicAnswers, sending: Sending) returns (ghost order: seq<Node>)
      requires Valid()
      modifies this, routers.Values
      ensures Valid() && g_time == old(g_time) + 1
      ensures multiset(order) == multiset(g_simNodes)
      ensures var events := OrderEvents(order, old(g_time), nic, sending) + [Tick];
        && WellFormed(topo, old(State())) && (forall e :: e in events ==> Possible(topo, e))
        && State() == Run(topo, old(State()), events)
    {
      hide HostExists, RouterExists, RouterStep, SendEvents, NodeEvents, RouterStates, CountsMatch, AllLinked, Happen;
      StateIsWellFormed();
      ghost var before, events := State(), [];
      order := [];
      var pending := g_simNodes;
      while pending != {}
        invariant pending <= g_simNodes && multiset(order) + multiset(pending) == multiset(g_simNodes)
        invariant Valid() && g_time == old(g_time)
        invariant events == OrderEvents(order, g_time, nic, sending) && forall e :: e in events ==> Possible(topo, e)
        invariant State() == Run(topo, before, events)
        decreases pending
      {
        var node :| node in pending;
        pending := pending - {node};
        NodeTimestep(node, nic, sending);
        RunJoin(topo, before, events, NodeEvents(node, g_time, nic, sending));
        events := events + NodeEvents(node, g_time, nic, sending);
        assert (order + [node])[..|order|] == order;
        order := order + [node];
      }
      ghost var last := State();
      g_time := g_time + 1;
      OneStep(last, Tick);
      RunJoin(topo, before, events, [Tick]);
      Ticked(last, State());
    }

    lemma NoEvents(before: Net)
      requires WellFormed(topo, before)
      ensures Run(topo, before, []) == before
    {
    }

    lemma Ticked(before: Net, after: Net)
      requires WellFormed(topo, before) && after == before.(time := before.time + 1)
      ensures after == Happen(topo, before, Tick)
    {
    }

    /** The clock loop. In every clock each router and host takes its Timestep exactly once, in some order; the run is
        one of the runs the theorems speak about. */
    method RunSimulation(clocks: nat, nic: NicAnswers, sending: Sending) returns (ghost orders: seq<seq<Node>>)
      requires Valid()
      modifies this, routers.Values
      ensures Valid() && g_time == old(g_time) + clocks
      ensures |orders| == clocks && forall order :: order in orders ==> multiset(order) == multiset(g_simNodes)
      ensures var events := Schedule(orders, old(g_time), nic, sending);
        && WellFormed(topo, old(State())) && (forall e :: e in events ==> Possible(topo, e))
        && State() == Run(topo, old(State()), events)
    {
      hide HostExists, RouterExists, RouterStep, OrderEvents, RouterStates, CountsMatch, AllLinked, Happen, Possible,
        Run, Extremes, TotalLatency;
      StateIsWellFormed();
      ghost var before, events := State(), [];
      NoEvents(before);
      orders := [];
      for t := 0 to clocks
        invariant Valid() && g_time == old(g_time) + t && |orders| == t
        invariant forall order :: order in orders ==> multiset(order) == multiset(g_simNodes)
        invariant events == Schedule(orders, old(g_time), nic, sending) && forall e :: e in events ==> Possible(topo, e)
        invariant State() == Run(topo, before, events)
      {
        ghost var order := RunClock(nic, sending);
        ghost var clock := OrderEvents(order, old(g_time) + t, nic, sending);
        RunJoin(topo, before, events, clock + [Tick]);
        assert events + (clock + [Tick]) == events + clock + [Tick];
        events := events + clock + [Tick];
        assert (orders + [order])[..t] == orders;
        orders := orders + [order];
      }
    }
  }
}
