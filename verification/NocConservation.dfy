/** No run loses or duplicates a packet: each one created is in exactly one place. */
module NocConservation {
  import opened NocNetwork
  import opened Options

  /** Where a packet can be: an inbox, or an entry of one of the three logs. */
  datatype Place = InInbox(id: RouterId, port: nat) | Delivered(index: nat) | Dropped(index: nat) | Rejected(index: nat)

  /** Packet number `n` is at a place. */
  predicate At(net: Net, n: nat, place: Place) {
    match place
    case InInbox(id, port) => id in net.routers && Occupies(net.routers[id], port, n)
    case Delivered(i) => i < |net.delivered| && net.delivered[i].packet.id == n
    case Dropped(i) => i < |net.dropped| && net.dropped[i].id == n
    case Rejected(i) => i < |net.rejected| && net.rejected[i].id == n
  }

  predicate Occupies(s: RouterState, port: nat, n: nat) {
    port < |s.inbox| && port < |s.valid| && s.valid[port] && s.inbox[port].id == n
  }

  /** `where` lists the place of every packet; the slot `skip`, if any, holds a packet that has
      already been handed over and is not counted. */
  ghost predicate Tracked(net: Net, where: map<nat, Place>, skip: Option<Place>) {
    && (forall n :: n in where ==> n < net.created && At(net, n, where[n]) && skip != Some(where[n]))
    && (forall n, place :: At(net, n, place) && skip != Some(place) ==> n in where && where[n] == place)
  }

  /** Every packet created so far is listed, except those in `missing`. */
  ghost predicate Covers(net: Net, where: map<nat, Place>, missing: set<nat>) {
    forall n: nat :: n in where || n in missing <==> n < net.created
  }

  ghost predicate Accounted(net: Net) {
    exists where: map<nat, Place> :: Tracked(net, where, None) && Covers(net, where, {})
  }

  /** Packet `n` is somewhere, and nowhere else. */
  ghost predicate ExactlyOnePlace(net: Net, n: nat) {
    exists place :: At(net, n, place) && forall other :: At(net, n, other) ==> other == place
  }

  /** Filing packet `n`, which is nowhere yet, puts it into the inbox or into the rejected log. */
  lemma {:induction false} AcceptFiles(topo: Topology, net: Net, id: RouterId, port: nat, packet: Packet,
                                       where: map<nat, Place>, skip: Option<Place>) returns (where': map<nat, Place>)
    requires id in net.routers && net.routers[id].Shape(Ports(topo)) && port < Ports(topo)
    requires Tracked(net, where, skip) && packet.id !in where && packet.id < net.created
    requires skip.Some? ==> exists n :: At(net, n, skip.value)
    ensures var net' := Accept(topo, net, id, port, packet);
            Tracked(net', where', skip) && where'.Keys == where.Keys + {packet.id}
            && (forall n :: skip.Some? && At(net, n, skip.value) ==> At(net', n, skip.value))
  {
    var net' := Accept(topo, net, id, port, packet);
    if net.routers[id].valid[port] {
      where' := where[packet.id := Rejected(|net.rejected|)];
      forall n, place
        ensures At(net', n, place) <==> At(net, n, place) || (n == packet.id && place == Rejected(|net.rejected|))
      {
      }
      assert At(net', packet.id, Rejected(|net.rejected|));
    } else {
      var slot := InInbox(id, port);
      where' := where[packet.id := slot];
      forall n, place
        ensures At(net', n, place) <==> At(net, n, place) || (n == packet.id && place == slot)
      {
        assert !At(net, n, slot);
      }
      assert At(net', packet.id, slot);
    }
  }

  lemma {:induction false} InjectFiles(topo: Topology, net: Net, host: nat, sent: Outgoing,
                                       where: map<nat, Place>, skip: Option<Place>) returns (where': map<nat, Place>)
    requires WellFormed(topo, net) && HostExists(topo, host)
    requires Tracked(net, where, skip) && Covers(net, where, {})
    requires skip.Some? ==> exists n :: At(net, n, skip.value)
    ensures var net' := Inject(topo, net, host, sent);
            Tracked(net', where', skip) && Covers(net', where', {})
            && (forall n :: skip.Some? && At(net, n, skip.value) ==> At(net', n, skip.value))
  {
    hide RouterExists, HostExists, Home, Route;
    HomeExists(topo, host);
    var counted := net.(created := net.created + 1);
    var packet := Packet(host, sent.dst, sent.size, sent.replySize, sent.kind, net.time, net.created, 0);
    SamePlaces(net, counted, where, skip);
    if skip.Some? {
      var n :| At(net, n, skip.value);
      assert At(counted, n, skip.value);
    }
    where' := AcceptFiles(topo, counted, Home(topo, host), Route(topo, Home(topo, host), host), packet, where, skip);
  }

  /** Changes to clocks, outboxes and counters move no packet. */
  lemma {:induction false} SamePlaces(net: Net, net': Net, where: map<nat, Place>, skip: Option<Place>)
    requires Tracked(net, where, skip) && net.created <= net'.created
    requires net.delivered == net'.delivered && net.dropped == net'.dropped && net.rejected == net'.rejected
    requires net.routers.Keys == net'.routers.Keys
    requires forall id :: id in net.routers ==>
               net.routers[id].inbox == net'.routers[id].inbox && net.routers[id].valid == net'.routers[id].valid
    ensures Tracked(net', where, skip)
    ensures forall n, place :: At(net, n, place) <==> At(net', n, place)
  {
    forall n, place
      ensures At(net, n, place) <==> At(net', n, place)
    {
    }
  }

  lemma {:induction false} DeliverFiles(topo: Topology, net: Net, host: nat, packet: Packet, behavior: Behavior,
                                        where: map<nat, Place>, skip: Option<Place>) returns (where': map<nat, Place>)
    requires WellFormed(topo, net) && HostExists(topo, host)
    requires Tracked(net, where, skip) && Covers(net, where, {packet.id}) && packet.id !in where
    requires skip.Some? ==> exists n :: At(net, n, skip.value)
    ensures var net' := Deliver(topo, net, host, packet, behavior);
            Tracked(net', where', skip) && Covers(net', where', {})
            && (forall n :: skip.Some? && At(net, n, skip.value) ==> At(net', n, skip.value))
  {
    hide RouterExists, HostExists, Inject;
    var taken := net.(delivered := net.delivered + [Delivery(packet, host, net.time)]);
    var entry := Delivered(|net.delivered|);
    where' := where[packet.id := entry];
    forall n, place
      ensures At(taken, n, place) <==> At(net, n, place) || (n == packet.id && place == entry)
    {
    }
    assert At(taken, packet.id, entry);
    if behavior(host, packet).Some? {
      where' := InjectFiles(topo, taken, host, behavior(host, packet).value, where', skip);
    }
  }

  lemma {:induction false} HandOverFiles(topo: Topology, net: Net, id: RouterId, packet: Packet, behavior: Behavior,
                                         where: map<nat, Place>, skip: Option<Place>) returns (where': map<nat, Place>)
    requires WellFormed(topo, net) && RouterExists(topo, id)
    requires Follow(topo, id, Route(topo, id, packet.dst)) != Nowhere
    requires Tracked(net, where, skip) && Covers(net, where, {packet.id}) && packet.id !in where
    requires skip.Some? ==> exists n :: At(net, n, skip.value)
    ensures var net' := HandOver(topo, net, id, packet, behavior);
            Tracked(net', where', skip) && Covers(net', where', {})
            && (forall n :: skip.Some? && At(net, n, skip.value) ==> At(net', n, skip.value))
  {
    hide RouterExists, HostExists, Route, Follow, Home, Accept, Deliver, At, Tracked;
    RouteStaysInside(topo, id, packet.dst);
    match Follow(topo, id, Route(topo, id, packet.dst))
    case ToRouter(next, port) =>
      assert packet.id < net.created;
      where' := AcceptFiles(topo, net, next, port, packet, where, skip);
      AcceptCreates(topo, net, next, port, packet);
    case ToHost(host) =>
      where' := DeliverFiles(topo, net, host, packet, behavior, where, skip);
  }

  lemma {:induction false} AcceptCreates(topo: Topology, net: Net, id: RouterId, port: nat, packet: Packet)
    requires id in net.routers && net.routers[id].Shape(Ports(topo)) && port < Ports(topo)
    ensures Accept(topo, net, id, port, packet).created == net.created
  {
  }

  /** The slot whose packet has been handed over is emptied. */
  lemma {:induction false} ClearFiles(net: Net, id: RouterId, port: nat, where: map<nat, Place>)
    requires id in net.routers && port < |net.routers[id].valid|
    requires Tracked(net, where, Some(InInbox(id, port)))
    ensures Tracked(ClearInbox(net, id, port), where, None)
  {
    var net' := ClearInbox(net, id, port);
    forall n, place
      ensures At(net', n, place) <==> At(net, n, place) && place != InInbox(id, port)
    {
    }
  }

  /** One TryForwardFrom keeps every packet in exactly one place. */
  lemma {:induction false} TryForwardFiles(topo: Topology, net: Net, id: RouterId, port: nat, behavior: Behavior)
    requires WellFormed(topo, net) && RouterExists(topo, id) && port < Ports(topo)
    requires Accounted(net)
    ensures Accounted(TryForward(topo, net, id, port, behavior).0)
  {
    hide RouterExists, HostExists, Route, Follow, HandOver, At, Tracked, ClearInbox;
    var where: map<nat, Place> :| Tracked(net, where, None) && Covers(net, where, {});
    var s := net.routers[id];
    if Ready(s, port, net.time) {
      var packet := s.inbox[port];
      var out := Route(topo, id, packet.dst);
      RouteStaysInside(topo, id, packet.dst);
      if !s.blocked[out] {
        var slot := InInbox(id, port);
        var rest := TakeOut(net, id, port, where);
        if Follow(topo, id, out) == Nowhere {
          var logged := net.(dropped := net.dropped + [packet]);
          var where' := DropFiles(net, packet, rest, slot);
          ClearFiles(logged, id, port, where');
          ClearCreates(logged, id, port);
          assert Covers(ClearInbox(logged, id, port), where', {});
        } else {
          var handed := HandOver(topo, net, id, packet, behavior);
          HandOverShape(topo, net, id, packet, behavior);
          var where' := HandOverFiles(topo, net, id, packet, behavior, rest, Some(slot));
          var blocked := Block(handed, id, out);
          SamePlaces(handed, blocked, where', Some(slot));
          ClearFiles(blocked, id, port, where');
          ClearCreates(blocked, id, port);
          assert Covers(ClearInbox(blocked, id, port), where', {});
        }
      }
    }
  }

  lemma {:induction false} ClearCreates(net: Net, id: RouterId, port: nat)
    requires id in net.routers && port < |net.routers[id].valid|
    ensures ClearInbox(net, id, port).created == net.created
  {
  }

  lemma {:induction false} TakeOut(net: Net, id: RouterId, port: nat, where: map<nat, Place>)
    returns (rest: map<nat, Place>)
    requires Tracked(net, where, None) && Covers(net, where, {})
    requires id in net.routers && port < |net.routers[id].inbox| && port < |net.routers[id].valid|
    requires net.routers[id].valid[port]
    ensures var n := net.routers[id].inbox[port].id;
            Tracked(net, rest, Some(InInbox(id, port))) && Covers(net, rest, {n}) && n !in rest
            && At(net, n, InInbox(id, port))
  {
    var n := net.routers[id].inbox[port].id;
    assert At(net, n, InInbox(id, port));
    rest := where - {n};
  }

  lemma {:induction false} DropFiles(net: Net, packet: Packet, where: map<nat, Place>, slot: Place)
    returns (where': map<nat, Place>)
    requires Tracked(net, where, Some(slot)) && Covers(net, where, {packet.id}) && packet.id !in where && slot.InInbox?
    ensures var net' := net.(dropped := net.dropped + [packet]);
            Tracked(net', where', Some(slot)) && Covers(net', where', {})
  {
    var net' := net.(dropped := net.dropped + [packet]);
    var entry := Dropped(|net.dropped|);
    where' := where[packet.id := entry];
    forall n, place
      ensures At(net', n, place) <==> At(net, n, place) || (n == packet.id && place == entry)
    {
    }
    assert At(net', packet.id, entry);
  }

  lemma {:induction false} ForwardFromFiles(topo: Topology, net: Net, id: RouterId, port: nat, behavior: Behavior)
    requires WellFormed(topo, net) && RouterExists(topo, id) && port < Ports(topo)
    requires Accounted(net)
    ensures Accounted(ForwardFrom(topo, net, id, port, behavior))
  {
    hide RouterExists, TryForward, At, Tracked;
    TryForwardFiles(topo, net, id, port, behavior);
    TryForwardShape(topo, net, id, port, behavior);
    var (after, forwarded) := TryForward(topo, net, id, port, behavior);
    var where: map<nat, Place> :| Tracked(after, where, None) && Covers(after, where, {});
    SamePlaces(after, Advance(topo, after, id, forwarded), where, None);
  }

  lemma {:induction false} ForwardUpToFiles(topo: Topology, net: Net, id: RouterId, n: nat, behavior: Behavior)
    requires WellFormed(topo, net) && RouterExists(topo, id) && n <= Ports(topo)
    requires Accounted(net)
    ensures Accounted(ForwardUpTo(topo, net, id, n, behavior))
    decreases n
  {
    hide RouterExists, Accounted, ForwardFrom;
    if n != 0 {
      ForwardUpToFiles(topo, net, id, n - 1, behavior);
      ForwardFromFiles(topo, ForwardUpTo(topo, net, id, n - 1, behavior), id, n - 1, behavior);
    }
  }

  lemma {:induction false} RouterStepFiles(topo: Topology, net: Net, id: RouterId, behavior: Behavior)
    requires WellFormed(topo, net) && RouterExists(topo, id)
    requires Accounted(net)
    ensures Accounted(RouterStep(topo, net, id, behavior))
  {
    hide RouterExists, ForwardFrom, ForwardUpTo, At, Tracked;
    var freed := Unblock(net, id);
    var where: map<nat, Place> :| Tracked(net, where, None) && Covers(net, where, {});
    SamePlaces(net, freed, where, None);
    var first := ForwardFrom(topo, freed, id, freed.routers[id].rr, behavior);
    ForwardFromFiles(topo, freed, id, freed.routers[id].rr, behavior);
    ForwardUpToFiles(topo, first, id, Ports(topo), behavior);
  }

  lemma {:induction false} HappenFiles(topo: Topology, net: Net, e: Event)
    requires WellFormed(topo, net) && Possible(topo, e)
    requires Accounted(net)
    ensures Accounted(Happen(topo, net, e))
  {
    hide RouterExists, HostExists, RouterStep, Inject, At, Tracked;
    var where: map<nat, Place> :| Tracked(net, where, None) && Covers(net, where, {});
    match e
    case Tick => SamePlaces(net, net.(time := net.time + 1), where, None);
    case Send(host, sent) =>
      InjectShape(topo, net, host, sent);
      var where' := InjectFiles(topo, net, host, sent, where, None);
    case Step(id, behavior) => RouterStepFiles(topo, net, id, behavior);
  }

  lemma {:induction false} RunFiles(topo: Topology, net: Net, events: seq<Event>)
    requires Initial(topo, net) && forall e :: e in events ==> Possible(topo, e)
    ensures Accounted(Run(topo, net, events))
    decreases |events|
  {
    hide RouterExists, HostExists, Happen, At;
    if |events| == 0 {
      NothingAnywhere(topo, net);
    } else {
      RunFiles(topo, net, events[..|events| - 1]);
      HappenFiles(topo, Run(topo, net, events[..|events| - 1]), events[|events| - 1]);
    }
  }

  lemma {:induction false} NothingAnywhere(topo: Topology, net: Net)
    requires Initial(topo, net)
    ensures Accounted(net)
  {
    assert Tracked(net, map[], None);
  }

  /** In every run, under any order of Timesteps and with hosts answering while a router delivers to
      them, each packet created is in one inbox, or delivered, or dropped, or rejected: exactly one of
      these, exactly once. */
  lemma {:induction false} EveryPacketIsInExactlyOnePlace(topo: Topology, net: Net, events: seq<Event>, n: nat)
    requires Initial(topo, net) && forall e :: e in events ==> Possible(topo, e)
    requires n < Run(topo, net, events).created
    ensures ExactlyOnePlace(Run(topo, net, events), n)
  {
    hide RouterExists, HostExists, Run, At;
    RunFiles(topo, net, events);
    var end := Run(topo, net, events);
    var where: map<nat, Place> :| Tracked(end, where, None) && Covers(end, where, {});
    assert At(end, n, where[n]);
  }
}
