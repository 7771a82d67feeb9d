/** A network of routers as a value, and the steps the simulator of sim/noc takes on it.
    Both kinds of router run the same Timestep, TryForwardFrom and AcceptMessage; they differ in their
    number of ports, their address arithmetic and their wiring. */
module NocNetwork {
  import Grid = GridTopology
  import Tree = QuadtreeTopology
  import opened Options
  import opened Bits

  // ----- topology

  datatype Topology = GridNet(random: bool) | TreeNet(levels: nat)

  datatype RouterId = GridAt(pos: Grid.Position) | TreeAt(router: Tree.Router)

  datatype Node = RouterNode(id: RouterId) | HostNode(addr: nat)

  /** Where a port leads. `port` is the inbox the peer files our packets in. */
  datatype Link = ToRouter(id: RouterId, port: nat) | ToHost(addr: nat) | Nowhere

  function Ports(topo: Topology): nat {
    if topo.GridNet? then Grid.PORTS else Tree.PORTS
  }

  predicate RouterExists(topo: Topology, id: RouterId) {
    match topo
    case GridNet(_) => id.GridAt? && Grid.OnGrid(id.pos)
    case TreeNet(k) => id.TreeAt? && Tree.InNetwork(k, id.router)
  }

  predicate HostExists(topo: Topology, addr: nat) {
    match topo
    case GridNet(_) => Grid.Address(addr)
    case TreeNet(k) => k >= 1 && Tree.HostAddress(k, addr)
  }

  /** The router a host hangs from. */
  function Home(topo: Topology, addr: nat): RouterId {
    match topo
    case GridNet(_) => GridAt(Grid.Target(addr))
    case TreeNet(_) => TreeAt(Tree.Router(1, addr / 4))
  }

  /** The port a router sends an address to; also the inbox of a host with that address. */
  function Route(topo: Topology, id: RouterId, addr: nat): nat
    requires RouterExists(topo, id)
  {
    match topo
    case GridNet(random) => Grid.GetPortNumber(random, id.pos, addr)
    case TreeNet(_) => Tree.DigitPort(id.router, addr)
  }

  /** For 16-bit addresses that is the mask and shift of a tree router. */
  lemma {:induction false} RouteIsMasked(k: nat, id: RouterId, addr: u16)
    requires k <= 8 && RouterExists(TreeNet(k), id)
    ensures Tree.Subnet(id.router) && Route(TreeNet(k), id, addr) == Tree.GetPortNumber(id.router, addr)
  {
    hide Tree.GetPortNumber, Tree.DigitPort;
    Tree.RoutesByMask(k, id.router, addr);
  }

  /** The node at a port: hosts and neighbours in the grid, children and the parent in the tree. */
  function Attached(topo: Topology, id: RouterId, port: nat): (n: Option<Node>)
    requires RouterExists(topo, id)
    ensures n.Some? && n.value.RouterNode? ==> SameKind(topo, n.value.id)
  {
    match topo
    case GridNet(_) =>
      var p := id.pos;
      if port < 16 then Some(HostNode(Grid.SubnetLow(p) + port))
      else if Grid.HasNeighbor(p, port) then Some(RouterNode(GridAt(Grid.Neighbor(p, port))))
      else None
    case TreeNet(k) =>
      var r := id.router;
      if port >= Tree.PARENT then if r.height == k then None else Some(RouterNode(TreeAt(Tree.Parent(r))))
      else if r.height == 1 then Some(HostNode(4 * r.index + port))
      else Some(RouterNode(TreeAt(Tree.Child(r, port))))
  }

  predicate SameKind(topo: Topology, id: RouterId) {
    if topo.GridNet? then id.GridAt? else id.TreeAt? && id.router.height >= 1
  }

  /** The inbox in which router `id` files what comes from router `from`. */
  function InboxOf(topo: Topology, id: RouterId, from: RouterId): nat
    requires SameKind(topo, id) && SameKind(topo, from)
  {
    match topo
    case GridNet(random) => Grid.InboxOfRouter(random, id.pos, from.pos)
    case TreeNet(_) => Tree.DigitPort(id.router, Tree.MidAddress(from.router))
  }

  function Follow(topo: Topology, id: RouterId, port: nat): Link
    requires RouterExists(topo, id)
  {
    ExistsSameKind(topo, id);
    match Attached(topo, id, port)
    case None => Nowhere
    case Some(RouterNode(next)) => ToRouter(next, InboxOf(topo, next, id))
    case Some(HostNode(addr)) => ToHost(addr)
  }

  lemma {:induction false} ExistsSameKind(topo: Topology, id: RouterId)
    requires RouterExists(topo, id)
    ensures SameKind(topo, id)
  {
    hide Tree.Up;
  }

  /** Routes and wiring stay inside the network, a host port leads to the addressed host, and nothing addressed to a
      host is led nowhere. */
  lemma {:induction false} RouteStaysInside(topo: Topology, id: RouterId, addr: nat)
    requires RouterExists(topo, id)
    ensures Route(topo, id, addr) < Ports(topo)
    ensures match Follow(topo, id, Route(topo, id, addr))
            case ToRouter(next, port) => RouterExists(topo, next) && port < Ports(topo) && next != id
            case ToHost(h) => h == addr && HostExists(topo, h) && Home(topo, h) == id
            case Nowhere => !HostExists(topo, addr)
  {
    match topo
    case GridNet(random) =>
      GridRouteInside(random, id.pos, addr);
    case TreeNet(k) =>
      TreeRouteInside(k, id.router, addr);
  }

  lemma {:induction false} GridPortBound(random: bool, p: Grid.Position, addr: nat)
    ensures Grid.GetPortNumber(random, p, addr) < Grid.PORTS
  {
  }

  lemma {:induction false} GridRouteInside(random: bool, p: Grid.Position, addr: nat)
    requires Grid.OnGrid(p)
    ensures var topo := GridNet(random);
            match Follow(topo, GridAt(p), Route(topo, GridAt(p), addr))
            case ToRouter(next, port) => RouterExists(topo, next) && port < Ports(topo) && next != GridAt(p)
            case ToHost(h) => h == addr && HostExists(topo, h) && Home(topo, h) == GridAt(p)
            case Nowhere => !HostExists(topo, addr)
    ensures Route(GridNet(random), GridAt(p), addr) < Ports(GridNet(random))
  {
    hide Grid.GetPortNumber;
    var port := Grid.GetPortNumber(random, p, addr);
    GridPortBound(random, p, addr);
    if Grid.Address(addr) {
      Grid.EachHopIsCloser(random, p, addr);
    }
    if port < 16 {
      GridHostPort(random, p, addr);
    } else if Grid.HasNeighbor(p, port) {
      GridPortBound(random, Grid.Neighbor(p, port), Grid.SubnetLow(p));
    }
  }

  lemma {:induction false} GridHostPort(random: bool, p: Grid.Position, addr: nat)
    requires Grid.OnGrid(p) && Grid.GetPortNumber(random, p, addr) < 16
    ensures Grid.SubnetLow(p) + Grid.GetPortNumber(random, p, addr) == addr
    ensures Grid.Address(addr) && Grid.Target(addr) == p
  {
    assert addr - addr % 16 == Grid.SubnetLow(p);
    Grid.SubnetIsTarget(p, addr);
  }

  lemma {:induction false} TreeRouteInside(k: nat, r: Tree.Router, addr: nat)
    requires Tree.InNetwork(k, r)
    ensures var topo := TreeNet(k);
            match Follow(topo, TreeAt(r), Route(topo, TreeAt(r), addr))
            case ToRouter(next, port) => RouterExists(topo, next) && port < Ports(topo) && next != TreeAt(r)
            case ToHost(h) => h == addr && HostExists(topo, h) && Home(topo, h) == TreeAt(r)
            case Nowhere => !HostExists(topo, addr)
    ensures Route(TreeNet(k), TreeAt(r), addr) < Ports(TreeNet(k))
  {
    hide Tree.Up, Tree.MidAddress;
    var port := Tree.DigitPort(r, addr);
    if port == Tree.PARENT {
      if Tree.HostAddress(k, addr) {
        Tree.ParentInNetwork(k, r, addr);
      }
      if r.height < k {
        TreeParentExists(k, r);
      }
    } else if r.height == 1 {
      TreeHost(k, r, addr);
    } else {
      Tree.ChildInNetwork(k, r, addr);
    }
  }

  lemma {:induction false} TreeParentExists(k: nat, r: Tree.Router)
    requires Tree.InNetwork(k, r) && r.height < k
    ensures Tree.InNetwork(k, Tree.Parent(r))
  {
  }

  lemma {:induction false} TreeHost(k: nat, r: Tree.Router, addr: nat)
    requires Tree.InNetwork(k, r) && r.height == 1 && Tree.DigitPort(r, addr) != Tree.PARENT
    ensures 4 * r.index + Tree.DigitPort(r, addr) == addr && r.index == addr / 4 && Tree.HostAddress(k, addr)
  {
    Tree.UpZero(addr);
    Tree.UpStep(addr, 0);
    assert Tree.Up(addr, k) == Tree.Up(addr / 4, k - 1);
  }

  lemma {:induction false} HomeExists(topo: Topology, addr: nat)
    requires HostExists(topo, addr)
    ensures RouterExists(topo, Home(topo, addr))
    ensures Route(topo, Home(topo, addr), addr) < Ports(topo)
  {
    match topo
    case GridNet(random) =>
      Grid.TargetOnGrid(addr);
      GridPortBound(random, Grid.Target(addr), addr);
    case TreeNet(k) =>
      assert Tree.Up(addr, k) == Tree.Up(addr / 4, k - 1);
      RouteStaysInside(topo, Home(topo, addr), addr);
  }

  // ----- packets and routers

  datatype MsgType = RpcCall | RpcReturn | RpcInterrupt | DmaRead | DmaRdata | DmaWrite | DmaAck

  /** A packet. `id` numbers packets in order of creation and `hops` counts the routers that have
      accepted it; neither exists in the simulator, they only let the theorems name a packet. */
  datatype Packet = Packet(src: nat, dst: nat, size: nat, replySize: nat, kind: MsgType, timeSent: nat,
                           id: nat, hops: nat)

  /** The fields a host chooses when it sends. */
  datatype Outgoing = Outgoing(dst: nat, size: nat, kind: MsgType, replySize: nat)

  datatype RouterState = RouterState(inbox: seq<Packet>, valid: seq<bool>, forwardTime: seq<nat>,
                                     blocked: seq<bool>, clearTime: seq<nat>, rr: nat)
  {
    predicate Shape(ports: nat) {
      |inbox| == |valid| == |forwardTime| == |blocked| == |clearTime| == ports && rr < ports
    }
  }

  datatype Delivery = Delivery(packet: Packet, host: nat, time: nat)

  datatype Departure = Departure(id: RouterId, port: nat, time: nat)

  /** Routers, the clock, the number of packets created, and what has become of them. */
  datatype Net = Net(routers: map<RouterId, RouterState>, time: nat, created: nat,
                     delivered: seq<Delivery>, dropped: seq<Packet>, rejected: seq<Packet>,
                     departures: seq<Departure>)

  ghost predicate WellFormed(topo: Topology, net: Net) {
    forall id :: RouterExists(topo, id) ==> id in net.routers && net.routers[id].Shape(Ports(topo))
  }

  /** What a host sends while it is handed a packet; at most one message. */
  type Behavior = (nat, Packet) -> Option<Outgoing>

  const NIC_ADDR := 0x0000
  const CPU_ADDR := 0x00ff

  /** Every host but two is a plain one or the RAM: calls, reads and writes are answered, replies are not. */
  function HostReply(packet: Packet): Option<Outgoing> {
    match packet.kind
    case RpcCall => Some(Outgoing(packet.src, 4, RpcReturn, 4))
    case DmaRead => Some(Outgoing(packet.src, packet.replySize, DmaRdata, 4))
    case DmaWrite => Some(Outgoing(packet.src, 3, DmaAck, 4))
    case _ => None
  }

  /** What the network interface answers, in the state it is in. */
  type NicAnswer = Packet -> Option<Outgoing>

  /** The hosts of the simulator. The CPU takes what it is sent. */
  function Hosts(nic: NicAnswer): Behavior {
    (host: nat, packet: Packet) =>
      if host == NIC_ADDR then nic(packet) else if host == CPU_ADDR then None else HostReply(packet)
  }

  // ----- steps

  /** A full inbox rejects; otherwise the packet may be forwarded four clocks later. */
  function AcceptedBy(s: RouterState, port: nat, packet: Packet, time: nat): RouterState
    requires port < |s.inbox| && |s.inbox| == |s.valid| == |s.forwardTime|
  {
    if s.valid[port] then s
    else s.(inbox := s.inbox[port := packet.(hops := packet.hops + 1)],
            valid := s.valid[port := true],
            forwardTime := s.forwardTime[port := time + 4])
  }

  function Accept(topo: Topology, net: Net, id: RouterId, port: nat, packet: Packet): Net
    requires id in net.routers && net.routers[id].Shape(Ports(topo)) && port < Ports(topo)
  {
    var s := net.routers[id];
    if s.valid[port] then net.(rejected := net.rejected + [packet])
    else net.(routers := net.routers[id := AcceptedBy(s, port, packet, net.time)])
  }

  /** A host creates a packet and hands it to its router. */
  function Inject(topo: Topology, net: Net, host: nat, out: Outgoing): Net
    requires WellFormed(topo, net) && HostExists(topo, host)
  {
    HomeExists(topo, host);
    var packet := Packet(host, out.dst, out.size, out.replySize, out.kind, net.time, net.created, 0);
    Accept(topo, net.(created := net.created + 1), Home(topo, host), Route(topo, Home(topo, host), host), packet)
  }

  /** A host takes a packet and may answer at once, into the router that is delivering to it. */
  function Deliver(topo: Topology, net: Net, host: nat, packet: Packet, behavior: Behavior): Net
    requires WellFormed(topo, net) && HostExists(topo, host)
  {
    var taken := net.(delivered := net.delivered + [Delivery(packet, host, net.time)]);
    match behavior(host, packet)
    case None => taken
    case Some(out) => Inject(topo, taken, host, out)
  }

  function ClearInbox(net: Net, id: RouterId, port: nat): Net
    requires id in net.routers && port < |net.routers[id].valid|
  {
    var s := net.routers[id];
    net.(routers := net.routers[id := s.(valid := s.valid[port := false])])
  }

  function Block(net: Net, id: RouterId, port: nat): Net
    requires id in net.routers && port < |net.routers[id].blocked| && port < |net.routers[id].clearTime|
  {
    var s := net.routers[id];
    net.(routers := net.routers[id := s.(blocked := s.blocked[port := true],
                                          clearTime := s.clearTime[port := net.time + 4])],
         departures := net.departures + [Departure(id, port, net.time)])
  }

  predicate Ready(s: RouterState, port: nat, time: nat)
    requires port < |s.valid| && port < |s.forwardTime|
  {
    s.valid[port] && s.forwardTime[port] <= time
  }

  /** Hands the packet in inbox `port` over to whatever the port `out` leads to. The receiver's
      answer is ignored, so a rejected packet is lost. */
  function HandOver(topo: Topology, net: Net, id: RouterId, packet: Packet, behavior: Behavior): (r: Net)
    requires WellFormed(topo, net) && RouterExists(topo, id)
  {
    RouteStaysInside(topo, id, packet.dst);
    match Follow(topo, id, Route(topo, id, packet.dst))
    case ToRouter(next, port) => Accept(topo, net, next, port, packet)
    case ToHost(host) => Deliver(topo, net, host, packet, behavior)
    case Nowhere => net
  }

  /** TryForwardFrom: the new network, and whether a packet was forwarded. */
  function TryForward(topo: Topology, net: Net, id: RouterId, port: nat, behavior: Behavior): (Net, bool)
    requires WellFormed(topo, net) && RouterExists(topo, id) && port < Ports(topo)
  {
    var s := net.routers[id];
    if !Ready(s, port, net.time) then (net, false)
    else
      var packet := s.inbox[port];
      var out := Route(topo, id, packet.dst);
      RouteStaysInside(topo, id, packet.dst);
      if s.blocked[out] then (net, false)
      else if Follow(topo, id, out) == Nowhere then
        (ClearInbox(net.(dropped := net.dropped + [packet]), id, port), false)
      else
        var handed := HandOver(topo, net, id, packet, behavior);
        HandOverShape(topo, net, id, packet, behavior);
        (ClearInbox(Block(handed, id, out), id, port), true)
  }

  lemma {:induction false} AcceptShape(topo: Topology, net: Net, id: RouterId, port: nat, packet: Packet)
    requires WellFormed(topo, net) && RouterExists(topo, id) && port < Ports(topo)
    ensures WellFormed(topo, Accept(topo, net, id, port, packet))
  {
  }

  lemma {:induction false} HandOverShape(topo: Topology, net: Net, id: RouterId, packet: Packet, behavior: Behavior)
    requires WellFormed(topo, net) && RouterExists(topo, id)
    ensures WellFormed(topo, HandOver(topo, net, id, packet, behavior))
  {
    hide RouterExists, Route, Follow, Home, Accept, HostExists;
    RouteStaysInside(topo, id, packet.dst);
    match Follow(topo, id, Route(topo, id, packet.dst))
    case ToRouter(next, port) => AcceptShape(topo, net, next, port, packet);
    case ToHost(host) =>
      var taken := net.(delivered := net.delivered + [Delivery(packet, host, net.time)]);
      if behavior(host, packet).Some? {
        InjectShape(topo, taken, host, behavior(host, packet).value);
      }
    case Nowhere =>
  }

  lemma {:induction false} InjectShape(topo: Topology, net: Net, host: nat, sent: Outgoing)
    requires WellFormed(topo, net) && HostExists(topo, host)
    ensures WellFormed(topo, Inject(topo, net, host, sent))
  {
    hide RouterExists, Route, Home, Accept, HostExists;
    HomeExists(topo, host);
    var packet := Packet(host, sent.dst, sent.size, sent.replySize, sent.kind, net.time, net.created, 0);
    AcceptShape(topo, net.(created := net.created + 1), Home(topo, host), Route(topo, Home(topo, host), host), packet);
  }

  lemma {:induction false} TryForwardShape(topo: Topology, net: Net, id: RouterId, port: nat, behavior: Behavior)
    requires WellFormed(topo, net) && RouterExists(topo, id) && port < Ports(topo)
    ensures WellFormed(topo, TryForward(topo, net, id, port, behavior).0)
  {
    hide RouterExists, Route, Follow, HandOver;
    var s := net.routers[id];
    if Ready(s, port, net.time) {
      HandOverShape(topo, net, id, s.inbox[port], behavior);
      RouteStaysInside(topo, id, s.inbox[port].dst);
    }
  }

  /** Outboxes whose clear time has passed become free. */
  function Unblocked(s: RouterState, time: nat): RouterState
    requires |s.blocked| == |s.clearTime|
  {
    s.(blocked := seq(|s.blocked|, i requires 0 <= i < |s.blocked| => s.blocked[i] && s.clearTime[i] >= time))
  }

  function Unblock(net: Net, id: RouterId): Net
    requires id in net.routers && |net.routers[id].blocked| == |net.routers[id].clearTime|
  {
    net.(routers := net.routers[id := Unblocked(net.routers[id], net.time)])
  }

  /** The round-robin counter moves on after a forward. The simulator's first increment does not wrap;
      the wrapped counter is modelled throughout. */
  function Advance(topo: Topology, net: Net, id: RouterId, forwarded: bool): Net
    requires id in net.routers
  {
    if !forwarded then net
    else
      var s := net.routers[id];
      net.(routers := net.routers[id := s.(rr := (s.rr + 1) % Ports(topo))])
  }

  function ForwardFrom(topo: Topology, net: Net, id: RouterId, port: nat, behavior: Behavior): (r: Net)
    requires WellFormed(topo, net) && RouterExists(topo, id) && port < Ports(topo)
    ensures WellFormed(topo, r)
  {
    TryForwardShape(topo, net, id, port, behavior);
    var (after, forwarded) := TryForward(topo, net, id, port, behavior);
    Advance(topo, after, id, forwarded)
  }

  /** Ports `0 .. n-1` in order. */
  function ForwardUpTo(topo: Topology, net: Net, id: RouterId, n: nat, behavior: Behavior): (r: Net)
    requires WellFormed(topo, net) && RouterExists(topo, id) && n <= Ports(topo)
    ensures WellFormed(topo, r)
    decreases n
  {
    if n == 0 then net
    else ForwardFrom(topo, ForwardUpTo(topo, net, id, n - 1, behavior), id, n - 1, behavior)
  }

  /** Timestep: free outboxes, try the round-robin winner, then every port. */
  function RouterStep(topo: Topology, net: Net, id: RouterId, behavior: Behavior): (r: Net)
    requires WellFormed(topo, net) && RouterExists(topo, id)
    ensures WellFormed(topo, r)
  {
    var freed := Unblock(net, id);
    ForwardUpTo(topo, ForwardFrom(topo, freed, id, freed.routers[id].rr, behavior), id, Ports(topo), behavior)
  }

  /** What can happen: a clock tick, a host sending, a router's Timestep with some host behaviour. */
  datatype Event = Tick | Send(host: nat, out: Outgoing) | Step(id: RouterId, behavior: Behavior)

  ghost predicate Possible(topo: Topology, e: Event) {
    match e
    case Tick => true
    case Send(host, _) => HostExists(topo, host)
    case Step(id, _) => RouterExists(topo, id)
  }

  ghost function Happen(topo: Topology, net: Net, e: Event): (r: Net)
    requires WellFormed(topo, net) && Possible(topo, e)
    ensures WellFormed(topo, r)
  {
    match e
    case Tick => net.(time := net.time + 1)
    case Send(host, out) => InjectShape(topo, net, host, out); Inject(topo, net, host, out)
    case Step(id, behavior) => RouterStep(topo, net, id, behavior)
  }

  /** A run: any events in any order, so any order of Timesteps within a clock. */
  ghost function Run(topo: Topology, net: Net, events: seq<Event>): (r: Net)
    requires WellFormed(topo, net) && forall e :: e in events ==> Possible(topo, e)
    ensures WellFormed(topo, r)
    decreases |events|
  {
    if |events| == 0 then net
    else Happen(topo, Run(topo, net, events[..|events| - 1]), events[|events| - 1])
  }

  /** The freshly built network: no packet anywhere, no outbox blocked. */
  ghost predicate Initial(topo: Topology, net: Net) {
    && WellFormed(topo, net)
    && net.created == 0 && net.delivered == [] && net.dropped == [] && net.rejected == [] && net.departures == []
    && (forall id, port :: id in net.routers && 0 <= port < |net.routers[id].valid| ==> !net.routers[id].valid[port])
    && (forall id, port :: id in net.routers && 0 <= port < |net.routers[id].blocked| ==>
       !net.routers[id].blocked[port])
  }

  /** One run after another is a run. */
  lemma {:induction false} RunJoin(topo: Topology, net: Net, a: seq<Event>, b: seq<Event>)
    requires WellFormed(topo, net) && (forall e :: e in a ==> Possible(topo, e))
    requires (forall e :: e in b ==> Possible(topo, e))
    ensures forall e :: e in a + b ==> Possible(topo, e)
    ensures Run(topo, net, a + b) == Run(topo, Run(topo, net, a), b)
    decreases |b|
  {
    hide Possible, Happen, WellFormed;
    if |b| == 0 {
      assert a + b == a;
    } else {
      var front := b[..|b| - 1];
      assert (a + b)[..|a + b| - 1] == a + front;
      RunJoin(topo, net, a, front);
    }
  }

  // ----- the clock loop

  /** What the simulator steps: every router and every host. */
  predicate NodeExists(topo: Topology, node: Node) {
    match node
    case RouterNode(id) => RouterExists(topo, id)
    case HostNode(addr) => HostExists(topo, addr)
  }

  /** What the CPU and the network interface send in their Timesteps at a given time; no other host sends then. */
  type Sending = (nat, nat) -> seq<Outgoing>

  function HostSends(host: nat, time: nat, sending: Sending): seq<Outgoing> {
    if host == NIC_ADDR || host == CPU_ADDR then sending(host, time) else []
  }

  /** What the network interface answers while a router takes its Timestep at a given time. */
  type NicAnswers = (RouterId, nat) -> NicAnswer

  function NodeEvents(node: Node, time: nat, nic: NicAnswers, sending: Sending): seq<Event> {
    match node
    case RouterNode(id) => [Step(id, Hosts(nic(id, time)))]
    case HostNode(addr) => SendEvents(addr, HostSends(addr, time, sending))
  }

  function SendEvents(addr: nat, out: seq<Outgoing>): (r: seq<Event>)
    ensures |r| == |out|
  {
    seq(|out|, i requires 0 <= i < |out| => Send(addr, out[i]))
  }

  /** The Timesteps of the nodes of `order`, one after another. */
  function OrderEvents(order: seq<Node>, time: nat, nic: NicAnswers, sending: Sending): seq<Event> {
    if |order| == 0 then []
    else OrderEvents(order[..|order| - 1], time, nic, sending) + NodeEvents(order[|order| - 1], time, nic, sending)
  }

  /** Clock after clock from `time` on, each stepping the nodes in an order of its own. */
  function Schedule(orders: seq<seq<Node>>, time: nat, nic: NicAnswers, sending: Sending): seq<Event> {
    if |orders| == 0 then []
    else
      Schedule(orders[..|orders| - 1], time, nic, sending)
      + OrderEvents(orders[|orders| - 1], time + |orders| - 1, nic, sending) + [Tick]
  }
}
