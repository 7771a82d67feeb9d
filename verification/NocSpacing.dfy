/** Two packets leave the same output port at least five clocks apart, in every run. */
module NocSpacing {
  import opened NocNetwork

  /** After a departure the port is blocked for four clocks; once it is free again, five have passed. */
  predicate Held(s: RouterState, port: nat, departed: nat, time: nat) {
    port < |s.blocked| && port < |s.clearTime| &&
    if s.blocked[port] then s.clearTime[port] >= departed + 4 else time >= departed + 5
  }

  ghost predicate AllHeld(topo: Topology, net: Net) {
    forall i :: 0 <= i < |net.departures| ==>
      var d := net.departures[i];
      RouterExists(topo, d.id) && d.id in net.routers && Held(net.routers[d.id], d.port, d.time, net.time)
  }

  ghost predicate FiveApart(departures: seq<Departure>) {
    forall i, j ::
      0 <= i < j < |departures| && departures[i].id == departures[j].id && departures[i].port == departures[j].port ==>
      departures[j].time >= departures[i].time + 5
  }

  ghost predicate Spaced(topo: Topology, net: Net) {
    AllHeld(topo, net) && FiveApart(net.departures)
  }

  /** Nothing but forwarding touches the departures, and only freeing and blocking touch outboxes. */
  lemma {:induction false} StillSpaced(topo: Topology, net: Net, net': Net)
    requires Spaced(topo, net) && net.routers.Keys == net'.routers.Keys
    requires net'.departures == net.departures && net'.time >= net.time
    requires forall id :: id in net.routers ==>
               net'.routers[id].blocked == net.routers[id].blocked
                 && net'.routers[id].clearTime == net.routers[id].clearTime
    ensures Spaced(topo, net')
  {
    hide RouterExists;
  }

  lemma {:induction false} UnblockSpaced(topo: Topology, net: Net, id: RouterId)
    requires WellFormed(topo, net) && RouterExists(topo, id) && Spaced(topo, net)
    ensures Spaced(topo, Unblock(net, id))
  {
    hide RouterExists;
    var net' := Unblock(net, id);
    forall i | 0 <= i < |net.departures|
      ensures var d := net.departures[i]; d.id in net'.routers && Held(net'.routers[d.id], d.port, d.time, net'.time)
    {
      var d := net.departures[i];
      assert Held(net.routers[d.id], d.port, d.time, net.time);
    }
  }

  lemma {:induction false} BlockSpaced(topo: Topology, net: Net, id: RouterId, port: nat)
    requires WellFormed(topo, net) && RouterExists(topo, id) && Spaced(topo, net)
    requires port < Ports(topo) && !net.routers[id].blocked[port]
    ensures Spaced(topo, Block(net, id, port))
  {
    hide RouterExists;
    var net' := Block(net, id, port);
    var n := |net.departures|;
    forall i | 0 <= i <= n
      ensures var d := net'.departures[i];
              RouterExists(topo, d.id) && d.id in net'.routers && Held(net'.routers[d.id], d.port, d.time, net'.time)
      ensures i < n && net.departures[i].id == id && net.departures[i].port == port ==>
          net.time >= net.departures[i].time + 5
    {
      if i < n {
        var d := net.departures[i];
        assert Held(net.routers[d.id], d.port, d.time, net.time);
      }
    }
  }

  /** Handing a packet over leaves every outbox and the departure log alone. */
  lemma {:induction false} HandOverKeepsOutboxes(topo: Topology, net: Net, id: RouterId, packet: Packet,
                                                 behavior: Behavior)
    requires WellFormed(topo, net) && RouterExists(topo, id)
    ensures SameOutboxes(net, HandOver(topo, net, id, packet, behavior))
  {
    hide RouterExists, HostExists, Route, Follow, Home;
    RouteStaysInside(topo, id, packet.dst);
    match Follow(topo, id, Route(topo, id, packet.dst))
    case ToRouter(next, port) =>
    case ToHost(host) =>
      HomeExists(topo, host);
    case Nowhere =>
  }

  ghost predicate SameOutboxes(net: Net, net': Net) {
    && net'.routers.Keys == net.routers.Keys
    && net'.departures == net.departures && net'.time == net.time
    && (forall id :: id in net.routers ==>
          net'.routers[id].blocked == net.routers[id].blocked
            && net'.routers[id].clearTime == net.routers[id].clearTime)
  }

  lemma {:induction false} TryForwardSpaced(topo: Topology, net: Net, id: RouterId, port: nat, behavior: Behavior)
    requires WellFormed(topo, net) && RouterExists(topo, id) && port < Ports(topo) && Spaced(topo, net)
    ensures Spaced(topo, TryForward(topo, net, id, port, behavior).0)
  {
    hide RouterExists, HostExists, Route, Follow, HandOver, Spaced;
    var s := net.routers[id];
    if Ready(s, port, net.time) {
      var packet := s.inbox[port];
      var out := Route(topo, id, packet.dst);
      RouteStaysInside(topo, id, packet.dst);
      if !s.blocked[out] {
        if Follow(topo, id, out) == Nowhere {
          StillSpaced(topo, net, ClearInbox(net.(dropped := net.dropped + [packet]), id, port));
        } else {
          HandOverKeepsOutboxes(topo, net, id, packet, behavior);
          HandOverShape(topo, net, id, packet, behavior);
          var handed := HandOver(topo, net, id, packet, behavior);
          StillSpaced(topo, net, handed);
          BlockSpaced(topo, handed, id, out);
          StillSpaced(topo, Block(handed, id, out), ClearInbox(Block(handed, id, out), id, port));
        }
      }
    }
  }

  lemma {:induction false} ForwardFromSpaced(topo: Topology, net: Net, id: RouterId, port: nat, behavior: Behavior)
    requires WellFormed(topo, net) && RouterExists(topo, id) && port < Ports(topo) && Spaced(topo, net)
    ensures Spaced(topo, ForwardFrom(topo, net, id, port, behavior))
  {
    hide RouterExists, TryForward, Spaced;
    TryForwardSpaced(topo, net, id, port, behavior);
    TryForwardShape(topo, net, id, port, behavior);
    var (after, forwarded) := TryForward(topo, net, id, port, behavior);
    StillSpaced(topo, after, Advance(topo, after, id, forwarded));
  }

  lemma {:induction false} ForwardUpToSpaced(topo: Topology, net: Net, id: RouterId, n: nat, behavior: Behavior)
    requires WellFormed(topo, net) && RouterExists(topo, id) && n <= Ports(topo) && Spaced(topo, net)
    ensures Spaced(topo, ForwardUpTo(topo, net, id, n, behavior))
    decreases n
  {
    hide RouterExists, Spaced, ForwardFrom;
    if n != 0 {
      ForwardUpToSpaced(topo, net, id, n - 1, behavior);
      ForwardFromSpaced(topo, ForwardUpTo(topo, net, id, n - 1, behavior), id, n - 1, behavior);
    }
  }

  lemma {:induction false} HappenSpaced(topo: Topology, net: Net, e: Event)
    requires WellFormed(topo, net) && Possible(topo, e) && Spaced(topo, net)
    ensures Spaced(topo, Happen(topo, net, e))
  {
    hide RouterExists, HostExists, Route, Home, ForwardFrom, ForwardUpTo, Spaced;
    match e
    case Tick => StillSpaced(topo, net, net.(time := net.time + 1));
    case Send(host, sent) =>
      HomeExists(topo, host);
      StillSpaced(topo, net, Inject(topo, net, host, sent));
    case Step(id, behavior) =>
      var freed := Unblock(net, id);
      UnblockSpaced(topo, net, id);
      var first := ForwardFrom(topo, freed, id, freed.routers[id].rr, behavior);
      ForwardFromSpaced(topo, freed, id, freed.routers[id].rr, behavior);
      ForwardUpToSpaced(topo, first, id, Ports(topo), behavior);
  }

  /** In every run, under any order of Timesteps, departures from one output port are at least five
      clocks apart. */
  lemma {:induction false} DeparturesAreFiveApart(topo: Topology, net: Net, events: seq<Event>)
    requires Initial(topo, net) && forall e :: e in events ==> Possible(topo, e)
    ensures FiveApart(Run(topo, net, events).departures)
    ensures Spaced(topo, Run(topo, net, events))
    decreases |events|
  {
    hide RouterExists, HostExists, Happen;
    if |events| != 0 {
      DeparturesAreFiveApart(topo, net, events[..|events| - 1]);
      HappenSpaced(topo, Run(topo, net, events[..|events| - 1]), events[|events| - 1]);
    }
  }
}
