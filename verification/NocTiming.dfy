/** Latency and port spacing in every run. */
module NocTiming {
  import Grid = GridTopology
  import Tree = QuadtreeTopology
  import opened NocNetwork
  import opened Options

  /** The number of routers a packet for `addr` still passes, counting the one it is at. */
  function RoutersLeft(topo: Topology, id: RouterId, addr: nat): nat
    requires RouterExists(topo, id) && HostExists(topo, addr)
  {
    match topo
    case GridNet(_) => Grid.Distance(id.pos, addr) + 1
    case TreeNet(k) => 2 * Tree.Peak(k, id.router, addr) - id.router.height
  }

  /** The number of routers between two hosts. */
  function RouteLength(topo: Topology, src: nat, dst: nat): nat
    requires HostExists(topo, src) && HostExists(topo, dst)
  {
    HomeExists(topo, src);
    RoutersLeft(topo, Home(topo, src), dst)
  }

  lemma {:induction false} OneRouterFewer(topo: Topology, id: RouterId, addr: nat)
    requires RouterExists(topo, id) && HostExists(topo, addr)
    ensures match Follow(topo, id, Route(topo, id, addr))
            case ToRouter(next, _) => RouterExists(topo, next)
                && RoutersLeft(topo, next, addr) + 1 == RoutersLeft(topo, id, addr)
            case ToHost(_) => RoutersLeft(topo, id, addr) == 1
            case Nowhere => false
  {
    match topo
    case GridNet(random) => OneGridRouterFewer(random, id.pos, addr);
    case TreeNet(k) => OneTreeRouterFewer(k, id.router, addr);
  }

  lemma {:induction false} OneGridRouterFewer(random: bool, p: Grid.Position, addr: nat)
    requires Grid.OnGrid(p) && Grid.Address(addr)
    ensures var topo := GridNet(random);
            match Follow(topo, GridAt(p), Route(topo, GridAt(p), addr))
            case ToRouter(next, _) => RouterExists(topo, next)
                && RoutersLeft(topo, next, addr) + 1 == RoutersLeft(topo, GridAt(p), addr)
            case ToHost(_) => RoutersLeft(topo, GridAt(p), addr) == 1
            case Nowhere => false
  {
    hide Grid.GetPortNumber, Grid.HasNeighbor, Grid.Neighbor, Grid.Distance;
    Grid.EachHopIsCloser(random, p, addr);
    Grid.OwnDistance(addr);
  }

  lemma {:induction false} OneTreeRouterFewer(k: nat, r: Tree.Router, addr: nat)
    requires Tree.InNetwork(k, r) && Tree.HostAddress(k, addr)
    ensures var topo := TreeNet(k);
            match Follow(topo, TreeAt(r), Route(topo, TreeAt(r), addr))
            case ToRouter(next, _) => RouterExists(topo, next)
                && RoutersLeft(topo, next, addr) + 1 == RoutersLeft(topo, TreeAt(r), addr)
            case ToHost(_) => RoutersLeft(topo, TreeAt(r), addr) == 1
            case Nowhere => false
  {
    hide Tree.Up, Tree.MidAddress;
    if Tree.DigitPort(r, addr) == Tree.PARENT {
      Tree.ParentInNetwork(k, r, addr);
    } else if r.height > 1 {
      Tree.ChildInNetwork(k, r, addr);
    }
  }

  // ----- what holds of every packet

  /** A packet that a router is about to accept. */
  predicate InHand(topo: Topology, next: RouterId, packet: Packet, time: nat)
    requires RouterExists(topo, next)
  {
    && HostExists(topo, packet.src)
    && time >= packet.timeSent + 4 * packet.hops
    && RouteKept(topo, next, packet.src, packet.dst, packet.hops)
  }

  predicate RouteKept(topo: Topology, next: RouterId, src: nat, dst: nat, hops: nat)
    requires RouterExists(topo, next) && HostExists(topo, src)
  {
    HostExists(topo, dst) ==> hops + RoutersLeft(topo, next, dst) == RouteLength(topo, src, dst)
  }

  /** A packet waiting in an inbox: it cannot leave before four clocks per router accepted it have passed. */
  predicate SlotTimely(topo: Topology, id: RouterId, packet: Packet, forwardTime: nat)
    requires RouterExists(topo, id)
  {
    && HostExists(topo, packet.src)
    && packet.hops >= 1
    && forwardTime >= packet.timeSent + 4 * packet.hops
    && RouteKept(topo, id, packet.src, packet.dst, packet.hops - 1)
  }

  /** A delivery: to the addressed host, over exactly the routers of the route, at four clocks each or more. */
  predicate DeliveryTimely(topo: Topology, d: Delivery) {
    && d.host == d.packet.dst && HostExists(topo, d.packet.dst) && HostExists(topo, d.packet.src)
    && d.packet.hops == RouteLength(topo, d.packet.src, d.packet.dst)
    && d.time >= d.packet.timeSent + 4 * d.packet.hops
  }

  ghost predicate RouterTimely(topo: Topology, id: RouterId, s: RouterState)
    requires RouterExists(topo, id)
  {
    forall port :: 0 <= port < |s.inbox| && port < |s.valid| && port < |s.forwardTime| && s.valid[port] ==>
      SlotTimely(topo, id, s.inbox[port], s.forwardTime[port])
  }

  ghost predicate Timely(topo: Topology, net: Net) {
    && (forall id :: id in net.routers && RouterExists(topo, id) ==> RouterTimely(topo, id, net.routers[id]))
    && (forall i :: 0 <= i < |net.delivered| ==> DeliveryTimely(topo, net.delivered[i]))
    && (forall i :: 0 <= i < |net.dropped| ==> !HostExists(topo, net.dropped[i].dst))
  }

  lemma {:induction false} AcceptTimely(topo: Topology, net: Net, id: RouterId, port: nat, packet: Packet)
    requires WellFormed(topo, net) && RouterExists(topo, id) && port < Ports(topo)
    requires Timely(topo, net) && InHand(topo, id, packet, net.time)
    ensures Timely(topo, Accept(topo, net, id, port, packet))
  {
    hide RouterExists, HostExists, RouteKept;
    var net' := Accept(topo, net, id, port, packet);
    var s := net.routers[id];
    if !s.valid[port] {
      var s' := net'.routers[id];
      assert SlotTimely(topo, id, s'.inbox[port], s'.forwardTime[port]);
      assert RouterTimely(topo, id, s');
    }
  }

  lemma {:induction false} InjectTimely(topo: Topology, net: Net, host: nat, sent: Outgoing)
    requires WellFormed(topo, net) && HostExists(topo, host) && Timely(topo, net)
    ensures Timely(topo, Inject(topo, net, host, sent))
  {
    hide RouterExists, HostExists, Route, Home, Accept, RoutersLeft, RouterTimely;
    HomeExists(topo, host);
    var packet := Packet(host, sent.dst, sent.size, sent.replySize, sent.kind, net.time, net.created, 0);
    AcceptTimely(topo, net.(created := net.created + 1), Home(topo, host), Route(topo, Home(topo, host), host), packet);
  }

  lemma {:induction false} HandOverTimely(topo: Topology, net: Net, id: RouterId, packet: Packet, behavior: Behavior)
    requires WellFormed(topo, net) && RouterExists(topo, id) && Timely(topo, net)
    requires packet.hops >= 1 && HostExists(topo, packet.src) && net.time >= packet.timeSent + 4 * packet.hops
    requires RouteKept(topo, id, packet.src, packet.dst, packet.hops - 1)
    ensures Timely(topo, HandOver(topo, net, id, packet, behavior))
  {
    hide RouterExists, HostExists, Route, Follow, Home, Accept, Inject, RouterTimely, RoutersLeft;
    RouteStaysInside(topo, id, packet.dst);
    if HostExists(topo, packet.dst) {
      OneRouterFewer(topo, id, packet.dst);
    }
    match Follow(topo, id, Route(topo, id, packet.dst))
    case ToRouter(next, port) =>
      AcceptTimely(topo, net, next, port, packet);
    case ToHost(host) =>
      var d := Delivery(packet, host, net.time);
      HomeExists(topo, packet.src);
      assert DeliveryTimely(topo, d);
      var taken := net.(delivered := net.delivered + [d]);
      if behavior(host, packet).Some? {
        InjectTimely(topo, taken, host, behavior(host, packet).value);
      }
    case Nowhere =>
  }

  /** Emptying an inbox or changing outboxes, counters and the clock keeps everything timely. */
  lemma {:induction false} StillTimely(topo: Topology, net: Net, net': Net)
    requires Timely(topo, net) && net.routers.Keys == net'.routers.Keys
    requires net'.delivered == net.delivered && net'.dropped == net.dropped
    requires forall id :: id in net.routers ==>
               net'.routers[id].inbox == net.routers[id].inbox
                 && net'.routers[id].forwardTime == net.routers[id].forwardTime
               && |net'.routers[id].valid| == |net.routers[id].valid|
               && forall p :: 0 <= p < |net.routers[id].valid| && net'.routers[id].valid[p] ==> net.routers[id].valid[p]
    ensures Timely(topo, net')
  {
    hide RouterExists, HostExists, SlotTimely, DeliveryTimely;
    forall id | id in net'.routers && RouterExists(topo, id)
      ensures RouterTimely(topo, id, net'.routers[id])
    {
      assert RouterTimely(topo, id, net.routers[id]);
    }
  }

  lemma {:induction false} TryForwardTimely(topo: Topology, net: Net, id: RouterId, port: nat, behavior: Behavior)
    requires WellFormed(topo, net) && RouterExists(topo, id) && port < Ports(topo) && Timely(topo, net)
    ensures Timely(topo, TryForward(topo, net, id, port, behavior).0)
  {
    hide RouterExists, HostExists, Route, Follow, HandOver, RouteKept, DeliveryTimely;
    var s := net.routers[id];
    if Ready(s, port, net.time) {
      assert RouterTimely(topo, id, s);
      var packet := s.inbox[port];
      assert SlotTimely(topo, id, packet, s.forwardTime[port]);
      var out := Route(topo, id, packet.dst);
      RouteStaysInside(topo, id, packet.dst);
      if !s.blocked[out] {
        if Follow(topo, id, out) == Nowhere {
          if HostExists(topo, packet.dst) {
            OneRouterFewer(topo, id, packet.dst);
          }
          var logged := net.(dropped := net.dropped + [packet]);
          StillTimely(topo, logged, ClearInbox(logged, id, port));
        } else {
          HandOverTimely(topo, net, id, packet, behavior);
          HandOverShape(topo, net, id, packet, behavior);
          var handed := HandOver(topo, net, id, packet, behavior);
          StillTimely(topo, handed, ClearInbox(Block(handed, id, out), id, port));
        }
      }
    }
  }

  lemma {:induction false} ForwardFromTimely(topo: Topology, net: Net, id: RouterId, port: nat, behavior: Behavior)
    requires WellFormed(topo, net) && RouterExists(topo, id) && port < Ports(topo) && Timely(topo, net)
    ensures Timely(topo, ForwardFrom(topo, net, id, port, behavior))
  {
    hide RouterExists, TryForward, Timely;
    TryForwardTimely(topo, net, id, port, behavior);
    TryForwardShape(topo, net, id, port, behavior);
    var (after, forwarded) := TryForward(topo, net, id, port, behavior);
    StillTimely(topo, after, Advance(topo, after, id, forwarded));
  }

  lemma {:induction false} ForwardUpToTimely(topo: Topology, net: Net, id: RouterId, n: nat, behavior: Behavior)
    requires WellFormed(topo, net) && RouterExists(topo, id) && n <= Ports(topo) && Timely(topo, net)
    ensures Timely(topo, ForwardUpTo(topo, net, id, n, behavior))
    decreases n
  {
    hide RouterExists, Timely, ForwardFrom;
    if n != 0 {
      ForwardUpToTimely(topo, net, id, n - 1, behavior);
      ForwardFromTimely(topo, ForwardUpTo(topo, net, id, n - 1, behavior), id, n - 1, behavior);
    }
  }

  lemma {:induction false} HappenTimely(topo: Topology, net: Net, e: Event)
    requires WellFormed(topo, net) && Possible(topo, e) && Timely(topo, net)
    ensures Timely(topo, Happen(topo, net, e))
  {
    hide RouterExists, HostExists, Inject, ForwardFrom, ForwardUpTo, Timely;
    match e
    case Tick => StillTimely(topo, net, net.(time := net.time + 1));
    case Send(host, sent) =>
      InjectShape(topo, net, host, sent);
      InjectTimely(topo, net, host, sent);
    case Step(id, behavior) =>
      var freed := Unblock(net, id);
      StillTimely(topo, net, freed);
      var first := ForwardFrom(topo, freed, id, freed.routers[id].rr, behavior);
      ForwardFromTimely(topo, freed, id, freed.routers[id].rr, behavior);
      ForwardUpToTimely(topo, first, id, Ports(topo), behavior);
  }

  lemma {:induction false} RunTimely(topo: Topology, net: Net, events: seq<Event>)
    requires Initial(topo, net) && forall e :: e in events ==> Possible(topo, e)
    ensures Timely(topo, Run(topo, net, events))
    decreases |events|
  {
    hide RouterExists, HostExists, Happen;
    if |events| != 0 {
      hide Timely;
      RunTimely(topo, net, events[..|events| - 1]);
      HappenTimely(topo, Run(topo, net, events[..|events| - 1]), events[|events| - 1]);
    }
  }

  /** In every run each delivered packet reaches the host it is addressed to, has been accepted by exactly
      the routers on its route, and has taken at least four clocks for each of them; a packet for an
      existing host is never dropped. */
  lemma {:induction false} DeliveriesAreTimely(topo: Topology, net: Net, events: seq<Event>, i: nat)
    requires Initial(topo, net) && forall e :: e in events ==> Possible(topo, e)
    ensures var end := Run(topo, net, events);
            (i < |end.delivered| ==> DeliveryTimely(topo, end.delivered[i]))
            && (i < |end.dropped| ==> !HostExists(topo, end.dropped[i].dst))
  {
    hide RouterExists, HostExists, Run, DeliveryTimely;
    RunTimely(topo, net, events);
  }

  /** The route length is the length of the path each topology's routers choose. */
  lemma {:induction false} RouteLengthIsPath(topo: Topology, src: nat, dst: nat)
    requires HostExists(topo, src) && HostExists(topo, dst)
    ensures match topo
            case GridNet(random) =>
              Grid.OnGrid(Grid.Target(src)) && RouteLength(topo, src, dst) == |Grid.Path(random, Grid.Target(src), dst)|
              && RouteLength(topo, src, dst) == Grid.Distance(Grid.Target(src), dst) + 1
            case TreeNet(k) =>
              Tree.InNetwork(k, Tree.Router(1, src / 4))
              && RouteLength(topo, src, dst) == |Tree.Path(k, Tree.Router(1, src / 4), dst)| <= 2 * k - 1
  {
    match topo
    case GridNet(random) =>
      hide Grid.PathStep, Grid.GetPortNumber, Grid.Path;
      Grid.TargetOnGrid(src);
      Grid.PathIsShortest(random, Grid.Target(src), dst);
    case TreeNet(k) =>
      hide Tree.Up, Tree.Path, Tree.Peak;
      Tree.AtMostTwiceTheDepth(k, src, dst);
      Tree.UpThenDown(k, Tree.Router(1, src / 4), dst);
  }
}
