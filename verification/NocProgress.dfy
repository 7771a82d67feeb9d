/** What a router's Timestep does to every packet it holds (sim/noc/GridRouter.cpp:249-324,
    sim/noc/QuadtreeRouter.cpp:188-259): which packets leave, where they are then, and which have to wait. */
module NocProgress {
  import opened NocNetwork
  import opened Options
  import opened Bits

  // ----- the packets and outboxes of a router that takes its Timestep

  /** The packet in inbox `p` may leave, and through outbox `o`. */
  predicate Wants(topo: Topology, net: Net, id: RouterId, p: nat, o: nat)
    requires id in net.routers && net.routers[id].Shape(Ports(topo)) && RouterExists(topo, id)
  {
    var s := net.routers[id];
    p < Ports(topo) && s.valid[p] && s.forwardTime[p] <= net.time && Route(topo, id, s.inbox[p].dst) == o
  }

  /** The outbox is free, or becomes free at this clock. */
  predicate Open(topo: Topology, net: Net, id: RouterId, o: nat)
    requires id in net.routers && net.routers[id].Shape(Ports(topo))
  {
    o < Ports(topo) && (!net.routers[id].blocked[o] || net.routers[id].clearTime[o] < net.time)
  }

  /** Of the packets that want an outbox, the one in the round-robin winner's inbox is first, then the lowest inbox. */
  ghost predicate First(topo: Topology, net: Net, id: RouterId, p: nat, o: nat)
    requires id in net.routers && net.routers[id].Shape(Ports(topo)) && RouterExists(topo, id)
  {
    && Wants(topo, net, id, p, o)
    && (p == net.routers[id].rr
        || (!Wants(topo, net, id, net.routers[id].rr, o) && forall q :: 0 <= q < p ==> !Wants(topo, net, id, q, o)))
  }

  /** The packet leaves: its outbox is free, and it is the first for it, or the outbox leads nowhere. */
  ghost predicate Leaves(topo: Topology, net: Net, id: RouterId, p: nat, o: nat)
    requires id in net.routers && net.routers[id].Shape(Ports(topo)) && RouterExists(topo, id)
  {
    && Wants(topo, net, id, p, o) && Open(topo, net, id, o)
    && (Attached(topo, id, o).None? || First(topo, net, id, p, o))
  }

  /** Inbox `p` is as it was. */
  predicate Same(s: RouterState, u: RouterState, p: nat)
    requires p < |s.inbox| && p < |s.valid| && p < |s.forwardTime|
    requires p < |u.inbox| && p < |u.valid| && p < |u.forwardTime|
  {
    s.valid[p] && u.valid[p] && u.inbox[p] == s.inbox[p] && u.forwardTime[p] == s.forwardTime[p]
  }

  /** Inbox `p` is empty, or holds an answer created since, which may leave four clocks from now. */
  predicate Vacant(net: Net, u: RouterState, p: nat)
    requires p < |u.inbox| && p < |u.valid| && p < |u.forwardTime|
  {
    u.valid[p] ==> u.forwardTime[p] == net.time + 4 && u.inbox[p].id >= net.created
  }

  /** A packet of host `host`, with a new number, stands in its router since this clock, or was rejected there. */
  ghost predicate Sent(topo: Topology, net: Net, after: Net, id: RouterId, host: nat, out: Outgoing)
    requires WellFormed(topo, after) && RouterExists(topo, id) && Extends(net, after)
  {
    exists n :: SentAs(topo, net, after, id, Packet(host, out.dst, out.size, out.replySize, out.kind, net.time, n, 0))
  }

  ghost predicate SentAs(topo: Topology, net: Net, after: Net, id: RouterId, packet: Packet)
    requires WellFormed(topo, after) && RouterExists(topo, id) && Extends(net, after)
  {
    var u, port := after.routers[id], Route(topo, id, packet.src);
    packet.id >= net.created && port < Ports(topo)
    && (packet in after.rejected[|net.rejected|..]
        || (u.valid[port] && u.inbox[port] == packet.(hops := 1) && u.forwardTime[port] == net.time + 4))
  }

  /** Where a packet that left through outbox `o` is afterwards. */
  ghost predicate Arrived(topo: Topology, net: Net, after: Net, id: RouterId, packet: Packet, o: nat,
                          behavior: Behavior)
    requires WellFormed(topo, net) && WellFormed(topo, after) && RouterExists(topo, id) && Extends(net, after)
  {
    match Attached(topo, id, o)
    case None => packet in after.dropped[|net.dropped|..]
    case Some(HostNode(host)) =>
      && Delivery(packet, host, net.time) in after.delivered[|net.delivered|..]
      && (behavior(host, packet).Some? ==> Sent(topo, net, after, id, host, behavior(host, packet).value))
    case Some(RouterNode(next)) =>
      ExistsSameKind(topo, id);
      var port := InboxOf(topo, next, id);
      && RouterExists(topo, next) && port < Ports(topo)
      && if net.routers[next].valid[port] then packet in after.rejected[|net.rejected|..]
         else
           after.routers[next].valid[port] && after.routers[next].inbox[port] == packet.(hops := packet.hops + 1)
           && after.routers[next].forwardTime[port] == net.time + 4
  }

  /** Time stands still, and logs and the number of packets only grow. */
  predicate Extends(net: Net, after: Net) {
    && after.time == net.time && after.created >= net.created
    && net.delivered <= after.delivered && net.dropped <= after.dropped && net.rejected <= after.rejected
    && net.departures <= after.departures
  }

  // ----- in the middle of a Timestep

  /** The inboxes tried before turn `n`: first the winner's, then all in order. */
  predicate Tried(rr: nat, n: nat, p: nat) {
    n > 0 && (p == rr || p + 1 < n)
  }

  /** The outbox has been taken before turn `n`. */
  ghost predicate Taken(topo: Topology, net: Net, id: RouterId, n: nat, o: nat)
    requires id in net.routers && net.routers[id].Shape(Ports(topo)) && RouterExists(topo, id)
  {
    && Open(topo, net, id, o) && Attached(topo, id, o).Some?
    && exists p :: Tried(net.routers[id].rr, n, p) && Wants(topo, net, id, p, o)
  }

  /** The packet has left before turn `n`. */
  ghost predicate Gone(topo: Topology, net: Net, id: RouterId, n: nat, p: nat, o: nat)
    requires id in net.routers && net.routers[id].Shape(Ports(topo)) && RouterExists(topo, id)
  {
    Tried(net.routers[id].rr, n, p) && Leaves(topo, net, id, p, o)
  }

  ghost predicate Outboxes(topo: Topology, net: Net, id: RouterId, n: nat, now: Net)
    requires WellFormed(topo, net) && WellFormed(topo, now) && RouterExists(topo, id)
  {
    var s, u := net.routers[id], now.routers[id];
    forall o :: 0 <= o < Ports(topo) ==>
      && u.blocked[o] == (!Open(topo, net, id, o) || Taken(topo, net, id, n, o))
      && u.clearTime[o] == if Taken(topo, net, id, n, o) then net.time + 4 else s.clearTime[o]
  }

  /** Where the packet in inbox `p` wants to go. */
  function Way(topo: Topology, net: Net, id: RouterId, p: nat): nat
    requires id in net.routers && net.routers[id].Shape(Ports(topo)) && RouterExists(topo, id) && p < Ports(topo)
  {
    Route(topo, id, net.routers[id].inbox[p].dst)
  }

  ghost predicate Inboxes(topo: Topology, net: Net, id: RouterId, n: nat, now: Net)
    requires WellFormed(topo, net) && WellFormed(topo, now) && RouterExists(topo, id)
  {
    var s, u := net.routers[id], now.routers[id];
    forall p :: 0 <= p < Ports(topo) ==>
      if s.valid[p] && !Gone(topo, net, id, n, p, Way(topo, net, id, p)) then Same(s, u, p) else Vacant(net, u, p)
  }

  ghost predicate Arrivals(topo: Topology, net: Net, id: RouterId, n: nat, now: Net, behavior: Behavior)
    requires WellFormed(topo, net) && WellFormed(topo, now) && RouterExists(topo, id) && Extends(net, now)
  {
    forall p :: 0 <= p < Ports(topo) && Gone(topo, net, id, n, p, Way(topo, net, id, p)) ==>
      Arrived(topo, net, now, id, net.routers[id].inbox[p], Way(topo, net, id, p), behavior)
  }

  /** The neighbours' inboxes that nothing has been put in yet. */
  ghost predicate Untouched(topo: Topology, net: Net, id: RouterId, n: nat, now: Net)
    requires WellFormed(topo, net) && WellFormed(topo, now) && RouterExists(topo, id)
  {
    forall p, o, next ::
      Wants(topo, net, id, p, o) && Attached(topo, id, o) == Some(RouterNode(next)) && !Taken(topo, net, id, n, o) ==>
      StillFree(topo, net, now, id, next)
  }

  predicate StillFree(topo: Topology, net: Net, now: Net, id: RouterId, next: RouterId)
    requires RouterExists(topo, id)
  {
    ExistsSameKind(topo, id);
    && SameKind(topo, next) && next in net.routers && next in now.routers
    && var port := InboxOf(topo, next, id);
       && port < |net.routers[next].valid| && port < |now.routers[next].valid|
       && now.routers[next].valid[port] == net.routers[next].valid[port]
  }

  ghost predicate Turn(topo: Topology, net: Net, id: RouterId, n: nat, now: Net, behavior: Behavior)
    requires WellFormed(topo, net) && RouterExists(topo, id)
  {
    && WellFormed(topo, now) && Extends(net, now)
    && Outboxes(topo, net, id, n, now) && Inboxes(topo, net, id, n, now)
    && Arrivals(topo, net, id, n, now, behavior) && Untouched(topo, net, id, n, now)
    && now.routers[id].rr == (net.routers[id].rr + |now.departures| - |net.departures|) % Ports(topo)
  }

  // ----- handing a packet over

  /** Inboxes that were full stay as they were, but for inbox `p` of router `id`. */
  ghost predicate Keeps(topo: Topology, now: Net, after: Net, id: RouterId, p: nat)
    requires WellFormed(topo, now) && WellFormed(topo, after)
  {
    forall r, q :: RouterExists(topo, r) && 0 <= q < Ports(topo) && now.routers[r].valid[q] && !(r == id && q == p) ==>
      Same(now.routers[r], after.routers[r], q)
  }

  /** Nothing but inboxes has changed in router `id`, and those that were empty hold at most new answers. */
  ghost predicate OnlyAnswers(topo: Topology, now: Net, after: Net, id: RouterId)
    requires WellFormed(topo, now) && WellFormed(topo, after) && RouterExists(topo, id)
  {
    var s, u := now.routers[id], after.routers[id];
    && u.blocked == s.blocked && u.clearTime == s.clearTime && u.rr == s.rr
    && forall q :: 0 <= q < Ports(topo) ==> if s.valid[q] then Same(s, u, q) else Vacant(now, u, q)
  }

  /** A packet handed over through outbox `o`. */
  ghost predicate Handed(topo: Topology, now: Net, after: Net, id: RouterId, packet: Packet, o: nat, behavior: Behavior)
    requires WellFormed(topo, now) && RouterExists(topo, id)
  {
    && WellFormed(topo, after) && Extends(now, after) && after.departures == now.departures
    && Keeps(topo, now, after, id, Ports(topo)) && OnlyAnswers(topo, now, after, id)
    && Arrived(topo, now, after, id, packet, o, behavior)
    && (forall r :: RouterExists(topo, r) && r != id && Attached(topo, id, o) != Some(RouterNode(r)) ==>
          after.routers[r] == now.routers[r])
  }

  lemma {:induction false} Grows<T>(log: seq<T>, x: T)
    ensures log <= log + [x] && x in (log + [x])[|log|..]
  {
    assert (log + [x])[|log|..] == [x];
  }

  lemma {:induction false} InjectEffects(topo: Topology, now: Net, host: nat, out: Outgoing)
    requires WellFormed(topo, now) && HostExists(topo, host) && RouterExists(topo, Home(topo, host))
    ensures var after, id := Inject(topo, now, host, out), Home(topo, host);
            && WellFormed(topo, after) && Extends(now, after) && after.departures == now.departures
            && after.delivered == now.delivered
            && Keeps(topo, now, after, id, Ports(topo)) && OnlyAnswers(topo, now, after, id)
            && Sent(topo, now, after, id, host, out)
            && (forall r :: RouterExists(topo, r) && r != id ==> after.routers[r] == now.routers[r])
  {
    hide RouterExists, HostExists, Home, Route;
    HomeExists(topo, host);
    InjectShape(topo, now, host, out);
    var id := Home(topo, host);
    var port := Route(topo, id, host);
    var packet := Packet(host, out.dst, out.size, out.replySize, out.kind, now.time, now.created, 0);
    Grows(now.rejected, packet);
    var after := Inject(topo, now, host, out);
    assert SentAs(topo, now, after, id, packet);
  }

  lemma {:induction false} AcceptEffects(topo: Topology, now: Net, id: RouterId, next: RouterId, port: nat,
                                         packet: Packet)
    requires WellFormed(topo, now) && RouterExists(topo, id) && RouterExists(topo, next) && next != id
    requires port < Ports(topo)
    ensures var after := Accept(topo, now, next, port, packet);
            && WellFormed(topo, after) && Extends(now, after) && after.departures == now.departures
            && Keeps(topo, now, after, id, Ports(topo)) && OnlyAnswers(topo, now, after, id)
            && (forall r :: RouterExists(topo, r) && r != id && r != next ==> after.routers[r] == now.routers[r])
            && if now.routers[next].valid[port] then packet in after.rejected[|now.rejected|..]
               else
                 after.routers[next].valid[port] && after.routers[next].inbox[port] == packet.(hops := packet.hops + 1)
                 && after.routers[next].forwardTime[port] == now.time + 4
  {
    hide RouterExists;
    AcceptShape(topo, now, next, port, packet);
    Grows(now.rejected, packet);
  }

  lemma {:induction false} HandOverEffects(topo: Topology, now: Net, id: RouterId, packet: Packet, behavior: Behavior)
    requires WellFormed(topo, now) && RouterExists(topo, id)
    requires Attached(topo, id, Route(topo, id, packet.dst)).Some?
    ensures var o, handed := Route(topo, id, packet.dst), HandOver(topo, now, id, packet, behavior);
            Handed(topo, now, handed, id, packet, o, behavior)
  {
    hide RouterExists, HostExists, Home, Route, Attached, InboxOf, SameKind, Accept, Inject, WellFormed, Keeps,
      OnlyAnswers, Sent;
    RouteStaysInside(topo, id, packet.dst);
    ExistsSameKind(topo, id);
    match Attached(topo, id, Route(topo, id, packet.dst)).value
    case RouterNode(next) =>
      AcceptEffects(topo, now, id, next, InboxOf(topo, next, id), packet);
    case HostNode(host) =>
      var taken := now.(delivered := now.delivered + [Delivery(packet, host, now.time)]);
      Grows(now.delivered, Delivery(packet, host, now.time));
      TakenIn(topo, now, taken, id);
      if behavior(host, packet).Some? {
        var out := behavior(host, packet).value;
        InjectEffects(topo, taken, host, out);
        AfterTaking(topo, now, taken, Inject(topo, taken, host, out), id, host, out);
      }
  }

  lemma {:induction false} TakenIn(topo: Topology, now: Net, taken: Net, id: RouterId)
    requires WellFormed(topo, now) && RouterExists(topo, id)
    requires taken == now.(delivered := taken.delivered) && now.delivered <= taken.delivered
    ensures WellFormed(topo, taken) && Extends(now, taken)
    ensures Keeps(topo, now, taken, id, Ports(topo)) && OnlyAnswers(topo, now, taken, id)
  {
    hide RouterExists;
  }

  lemma {:induction false} AfterTaking(topo: Topology, now: Net, taken: Net, after: Net, id: RouterId, host: nat,
                                       out: Outgoing)
    requires WellFormed(topo, now) && WellFormed(topo, taken) && WellFormed(topo, after) && RouterExists(topo, id)
    requires taken == now.(delivered := taken.delivered)
    requires Extends(taken, after) && Extends(now, after)
    requires Keeps(topo, taken, after, id, Ports(topo)) && OnlyAnswers(topo, taken, after, id)
    requires Sent(topo, taken, after, id, host, out)
    ensures Keeps(topo, now, after, id, Ports(topo)) && OnlyAnswers(topo, now, after, id)
    ensures Sent(topo, now, after, id, host, out)
  {
    hide RouterExists, Route;
    var n :| SentAs(topo, taken, after, id, Packet(host, out.dst, out.size, out.replySize, out.kind, taken.time, n, 0));
    assert SentAs(topo, now, after, id, Packet(host, out.dst, out.size, out.replySize, out.kind, now.time, n, 0));
  }

  // ----- one turn

  /** The state after inbox `p` has been emptied by forwarding its packet through outbox `o`. */
  ghost predicate Moved(topo: Topology, now: Net, handed: Net, after: Net, id: RouterId, p: nat, o: nat)
    requires WellFormed(topo, now) && WellFormed(topo, handed) && WellFormed(topo, after) && RouterExists(topo, id)
    requires p < Ports(topo) && o < Ports(topo)
  {
    var u, v := handed.routers[id], after.routers[id];
    && after == handed.(routers := handed.routers[id := v], departures := after.departures)
    && |after.departures| == |handed.departures| + 1 && handed.departures <= after.departures
    && v == u.(valid := u.valid[p := false], blocked := u.blocked[o := true],
               clearTime := u.clearTime[o := now.time + 4], rr := (u.rr + 1) % Ports(topo))
  }

  /** What trying inbox `p` comes to. */
  lemma {:induction false} Trying(topo: Topology, now: Net, id: RouterId, p: nat, behavior: Behavior)
    requires WellFormed(topo, now) && RouterExists(topo, id) && p < Ports(topo)
    ensures var s, after := now.routers[id], ForwardFrom(topo, now, id, p, behavior);
            var o := Route(topo, id, s.inbox[p].dst);
            && o < Ports(topo)
            && if !s.valid[p] || s.forwardTime[p] > now.time || s.blocked[o] then after == now
               else if Attached(topo, id, o).None? then
                 after == now.(dropped := now.dropped + [s.inbox[p]],
                               routers := now.routers[id := s.(valid := s.valid[p := false])])
               else
                 var handed := HandOver(topo, now, id, s.inbox[p], behavior);
                 Handed(topo, now, handed, id, s.inbox[p], o, behavior) && Moved(topo, now, handed, after, id, p, o)
  {
    hide RouterExists, HostExists, Home, Route, Attached, InboxOf, SameKind, HandOver, Keeps, OnlyAnswers, Arrived;
    var s := now.routers[id];
    var o := Route(topo, id, s.inbox[p].dst);
    RouteStaysInside(topo, id, s.inbox[p].dst);
    ExistsSameKind(topo, id);
    if Attached(topo, id, o).Some? {
      HandOverEffects(topo, now, id, s.inbox[p], behavior);
    }
  }

  /** The inbox tried in turn `n`. */
  function At(rr: nat, n: nat): nat {
    if n == 0 then rr else n - 1
  }

  lemma {:induction false} TriedNext(rr: nat, n: nat, q: nat)
    ensures Tried(rr, n + 1, q) <==> Tried(rr, n, q) || q == At(rr, n)
  {
  }

  lemma {:induction false} TakenNext(topo: Topology, net: Net, id: RouterId, n: nat, o: nat)
    requires WellFormed(topo, net) && RouterExists(topo, id)
    ensures var p := At(net.routers[id].rr, n);
            Taken(topo, net, id, n + 1, o) <==>
              Taken(topo, net, id, n, o)
              || (Wants(topo, net, id, p, o) && Open(topo, net, id, o) && Attached(topo, id, o).Some?)
  {
    hide RouterExists, Wants, Open, Attached, Tried;
    var rr := net.routers[id].rr;
    forall q
      ensures Tried(rr, n + 1, q) <==> Tried(rr, n, q) || q == At(rr, n)
    {
      TriedNext(rr, n, q);
    }
  }

  lemma {:induction false} GoneNext(topo: Topology, net: Net, id: RouterId, n: nat, q: nat, o: nat)
    requires WellFormed(topo, net) && RouterExists(topo, id)
    ensures var p := At(net.routers[id].rr, n);
            Gone(topo, net, id, n + 1, q, o) <==>
              Gone(topo, net, id, n, q, o) || (q == p && Leaves(topo, net, id, p, o))
  {
    hide RouterExists, Leaves, Tried;
    TriedNext(net.routers[id].rr, n, q);
  }

  /** Whose turn it is to leave through a free outbox is known when its inbox is tried. */
  lemma {:induction false} FirstInTurn(topo: Topology, net: Net, id: RouterId, n: nat, o: nat)
    requires WellFormed(topo, net) && RouterExists(topo, id)
    requires var p := At(net.routers[id].rr, n);
             Wants(topo, net, id, p, o) && Open(topo, net, id, o) && Attached(topo, id, o).Some?
    ensures var p := At(net.routers[id].rr, n);
            && (Tried(net.routers[id].rr, n, p) ==> First(topo, net, id, p, o) && Taken(topo, net, id, n, o))
            && (!Tried(net.routers[id].rr, n, p) ==> (First(topo, net, id, p, o) <==> !Taken(topo, net, id, n, o)))
  {
    hide RouterExists, Wants, Open, Attached;
    var rr, p := net.routers[id].rr, At(net.routers[id].rr, n);
    if !Tried(rr, n, p) && Taken(topo, net, id, n, o) {
      var q :| Tried(rr, n, q) && Wants(topo, net, id, q, o);
    }
    if !Taken(topo, net, id, n, o) && n > 0 {
      assert Tried(rr, n, rr) && forall q :: 0 <= q < p ==> Tried(rr, n, q);
    }
  }

  /** The packet of the inbox tried in turn `n` can leave. */
  ghost predicate Going(topo: Topology, net: Net, id: RouterId, n: nat, now: Net)
    requires WellFormed(topo, net) && WellFormed(topo, now) && RouterExists(topo, id) && n <= Ports(topo)
  {
    var u, p := now.routers[id], At(net.routers[id].rr, n);
    var o := Route(topo, id, u.inbox[p].dst);
    o < Ports(topo) && u.valid[p] && u.forwardTime[p] <= now.time && !u.blocked[o]
  }

  /** There is no packet in it, or it has to wait. */
  ghost predicate Waiting(topo: Topology, net: Net, id: RouterId, n: nat, now: Net)
    requires WellFormed(topo, net) && WellFormed(topo, now) && RouterExists(topo, id) && n <= Ports(topo)
  {
    var u, p := now.routers[id], At(net.routers[id].rr, n);
    var o := Route(topo, id, u.inbox[p].dst);
    o < Ports(topo) && (!u.valid[p] || u.forwardTime[p] > now.time || u.blocked[o])
  }

  /** An inbox that can be left now is still as it was at the start, and its packet has not been looked at. */
  lemma {:induction false} ReadyIsSame(topo: Topology, net: Net, id: RouterId, n: nat, now: Net, behavior: Behavior)
    requires WellFormed(topo, net) && RouterExists(topo, id) && n <= Ports(topo)
    requires Turn(topo, net, id, n, now, behavior)
    requires Going(topo, net, id, n, now)
    ensures var p := At(net.routers[id].rr, n); var o := Way(topo, net, id, p);
            && Same(net.routers[id], now.routers[id], p) && Wants(topo, net, id, p, o) && !Gone(topo, net, id, n, p, o)
  {
    hide RouterExists, Outboxes, Arrivals, Untouched, Gone, Route;
  }

  /** A turn in which nothing can leave. */
  lemma {:induction false} IdleTurn(topo: Topology, net: Net, id: RouterId, n: nat, now: Net, behavior: Behavior)
    requires WellFormed(topo, net) && RouterExists(topo, id) && n <= Ports(topo)
    requires Turn(topo, net, id, n, now, behavior)
    requires Waiting(topo, net, id, n, now)
    ensures Turn(topo, net, id, n + 1, now, behavior)
  {
    hide RouterExists, Route, Turn, Taken, Gone;
    IdleMarks(topo, net, id, n, now, behavior);
    SameMarks(topo, net, id, n, now, behavior);
  }

  lemma {:induction false} IdleMarks(topo: Topology, net: Net, id: RouterId, n: nat, now: Net, behavior: Behavior)
    requires WellFormed(topo, net) && RouterExists(topo, id) && n <= Ports(topo)
    requires Turn(topo, net, id, n, now, behavior)
    requires Waiting(topo, net, id, n, now)
    ensures forall o :: Taken(topo, net, id, n + 1, o) <==> Taken(topo, net, id, n, o)
    ensures forall q, o :: Gone(topo, net, id, n + 1, q, o) <==> Gone(topo, net, id, n, q, o)
  {
    hide RouterExists, Route, Attached, Outboxes, Inboxes, Arrivals, Untouched, First, Tried, Open, Taken, Gone, Leaves;
    var p := At(net.routers[id].rr, n);
    forall o: nat
      ensures Taken(topo, net, id, n + 1, o) <==> Taken(topo, net, id, n, o)
    {
      TakenNext(topo, net, id, n, o);
      IdleMark(topo, net, id, n, now, behavior, o);
    }
    forall q, o
      ensures Gone(topo, net, id, n + 1, q, o) <==> Gone(topo, net, id, n, q, o)
    {
      GoneNext(topo, net, id, n, q, o);
      IdleMark(topo, net, id, n, now, behavior, o);
    }
  }

  lemma {:induction false} IdleMark(topo: Topology, net: Net, id: RouterId, n: nat, now: Net, behavior: Behavior,
                                    o: nat)
    requires WellFormed(topo, net) && RouterExists(topo, id) && n <= Ports(topo)
    requires Turn(topo, net, id, n, now, behavior)
    requires Waiting(topo, net, id, n, now)
    ensures var p := At(net.routers[id].rr, n);
            && (Wants(topo, net, id, p, o) && Open(topo, net, id, o) && Attached(topo, id, o).Some? ==>
                  Taken(topo, net, id, n, o))
            && (Leaves(topo, net, id, p, o) ==> Gone(topo, net, id, n, p, o))
  {
    hide RouterExists, Route, Attached, Arrivals, Untouched, First, Tried, Open;
    var p := At(net.routers[id].rr, n);
    if Wants(topo, net, id, p, o) && Open(topo, net, id, o) {
      assert o == Way(topo, net, id, p);
      if Attached(topo, id, o).Some? {
        FirstInTurn(topo, net, id, n, o);
      }
    }
  }

  /** The same marks are the same claims. */
  lemma {:induction false} SameMarks(topo: Topology, net: Net, id: RouterId, n: nat, now: Net, behavior: Behavior)
    requires WellFormed(topo, net) && RouterExists(topo, id) && Turn(topo, net, id, n, now, behavior)
    requires forall o :: Taken(topo, net, id, n + 1, o) <==> Taken(topo, net, id, n, o)
    requires forall q, o :: Gone(topo, net, id, n + 1, q, o) <==> Gone(topo, net, id, n, q, o)
    ensures Turn(topo, net, id, n + 1, now, behavior)
  {
    hide RouterExists, Route, Attached, Arrived, StillFree, Taken, Gone, Wants, Open;
  }

  // ----- a turn in which a packet leaves

  /** What has arrived stays where it is. */
  lemma {:induction false} ArrivedStays(topo: Topology, net: Net, now: Net, after: Net, id: RouterId, p: nat,
                                        packet: Packet, o: nat, behavior: Behavior)
    requires WellFormed(topo, net) && WellFormed(topo, now) && WellFormed(topo, after) && RouterExists(topo, id)
    requires Extends(net, now) && Extends(net, after) && Extends(now, after) && Keeps(topo, now, after, id, p)
    requires p < Ports(topo) && now.routers[id].valid[p] && now.routers[id].forwardTime[p] <= net.time
    requires Arrived(topo, net, now, id, packet, o, behavior)
    requires forall next :: Attached(topo, id, o) == Some(RouterNode(next)) ==> next != id
    ensures Arrived(topo, net, after, id, packet, o, behavior)
  {
    hide RouterExists, Attached, InboxOf, SameKind, Route, SentAs, Keeps;
    match Attached(topo, id, o)
    case None => LogStays(net.dropped, now.dropped, after.dropped, packet);
    case Some(HostNode(host)) =>
      LogStays(net.delivered, now.delivered, after.delivered, Delivery(packet, host, net.time));
      if behavior(host, packet).Some? {
        var out := behavior(host, packet).value;
        var n :| SentAs(topo, net, now, id, Packet(host, out.dst, out.size, out.replySize, out.kind, net.time, n, 0));
        SentStays(topo, net, now, after, id, p,
                  Packet(host, out.dst, out.size, out.replySize, out.kind, net.time, n, 0));
      }
    case Some(RouterNode(next)) =>
      ExistsSameKind(topo, id);
      var port := InboxOf(topo, next, id);
      if net.routers[next].valid[port] {
        LogStays(net.rejected, now.rejected, after.rejected, packet);
      } else {
        KeptAt(topo, now, after, id, p, next, port);
      }
  }

  lemma {:induction false} KeptAt(topo: Topology, now: Net, after: Net, id: RouterId, p: nat, r: RouterId, q: nat)
    requires WellFormed(topo, now) && WellFormed(topo, after) && Keeps(topo, now, after, id, p)
    requires RouterExists(topo, r) && q < Ports(topo) && now.routers[r].valid[q] && !(r == id && q == p)
    ensures Same(now.routers[r], after.routers[r], q)
  {
    hide RouterExists;
  }

  lemma {:induction false} LogStays<T>(a: seq<T>, b: seq<T>, c: seq<T>, x: T)
    requires a <= b && b <= c && x in b[|a|..]
    ensures x in c[|a|..]
  {
    var i :| |a| <= i < |b| && b[i] == x;
    assert c[|a|..][i - |a|] == x;
  }

  lemma {:induction false} LaterLog<T>(a: seq<T>, b: seq<T>, c: seq<T>, x: T)
    requires a <= b && b <= c && x in c[|b|..]
    ensures x in c[|a|..]
  {
    var i :| |b| <= i < |c| && c[i] == x;
    assert c[|a|..][i - |a|] == x;
  }

  lemma {:induction false} SentStays(topo: Topology, net: Net, now: Net, after: Net, id: RouterId, p: nat,
                                     packet: Packet)
    requires WellFormed(topo, net) && WellFormed(topo, now) && WellFormed(topo, after) && RouterExists(topo, id)
    requires Extends(net, now) && Extends(net, after) && Extends(now, after) && Keeps(topo, now, after, id, p)
    requires p < Ports(topo) && now.routers[id].valid[p] && now.routers[id].forwardTime[p] <= net.time
    requires SentAs(topo, net, now, id, packet)
    ensures SentAs(topo, net, after, id, packet)
  {
    hide RouterExists, Route, Keeps;
    var port := Route(topo, id, packet.src);
    if packet in now.rejected[|net.rejected|..] {
      LogStays(net.rejected, now.rejected, after.rejected, packet);
    } else {
      KeptAt(topo, now, after, id, p, id, port);
    }
  }

  /** Different outboxes lead to different routers, and none to its own. */
  lemma {:induction false} AttachedApart(topo: Topology, id: RouterId, o: nat, o': nat, next: RouterId)
    requires RouterExists(topo, id) && Attached(topo, id, o) == Some(RouterNode(next)) && o < Ports(topo)
    ensures next != id
    ensures Attached(topo, id, o') == Some(RouterNode(next)) && o' < Ports(topo) ==> o == o'
  {
  }

  /** A packet just handed over has arrived. */
  lemma {:induction false} ArrivedHere(topo: Topology, net: Net, now: Net, handed: Net, after: Net, id: RouterId,
                                       p: nat, packet: Packet, o: nat, behavior: Behavior)
    requires WellFormed(topo, net) && WellFormed(topo, now) && WellFormed(topo, after) && RouterExists(topo, id)
    requires Extends(net, now) && Extends(net, after) && p < Ports(topo) && o < Ports(topo)
    requires now.routers[id].valid[p] && now.routers[id].forwardTime[p] <= net.time
    requires Handed(topo, now, handed, id, packet, o, behavior) && Moved(topo, now, handed, after, id, p, o)
    requires forall next :: Attached(topo, id, o) == Some(RouterNode(next)) ==> StillFree(topo, net, now, id, next)
    requires Attached(topo, id, o).Some?
    ensures Arrived(topo, net, after, id, packet, o, behavior)
  {
    hide RouterExists, Attached, InboxOf, SameKind, Route, Keeps, SentAs;
    match Attached(topo, id, o)
    case Some(HostNode(host)) =>
      LaterLog(net.delivered, now.delivered, after.delivered, Delivery(packet, host, net.time));
      if behavior(host, packet).Some? {
        var out := behavior(host, packet).value;
        var n :| SentAs(topo, now, handed, id,
                        Packet(host, out.dst, out.size, out.replySize, out.kind, now.time, n, 0));
        SentHere(topo, net, now, handed, after, id, p, o,
                 Packet(host, out.dst, out.size, out.replySize, out.kind, now.time, n, 0));
      }
    case Some(RouterNode(next)) =>
      ExistsSameKind(topo, id);
      AttachedApart(topo, id, o, o, next);
      if net.routers[next].valid[InboxOf(topo, next, id)] {
        LaterLog(net.rejected, now.rejected, after.rejected, packet);
      }
  }

  lemma {:induction false} SentHere(topo: Topology, net: Net, now: Net, handed: Net, after: Net, id: RouterId, p: nat,
                                    o: nat, packet: Packet)
    requires WellFormed(topo, net) && WellFormed(topo, now) && WellFormed(topo, handed) && WellFormed(topo, after)
    requires RouterExists(topo, id)
    requires Extends(net, now) && Extends(net, after) && Extends(now, handed) && p < Ports(topo) && o < Ports(topo)
    requires now.routers[id].valid[p] && now.routers[id].forwardTime[p] <= net.time
    requires OnlyAnswers(topo, now, handed, id)
    requires Moved(topo, now, handed, after, id, p, o) && SentAs(topo, now, handed, id, packet)
    ensures SentAs(topo, net, after, id, packet)
  {
    hide RouterExists, Route;
    var port := Route(topo, id, packet.src);
    if packet in handed.rejected[|now.rejected|..] {
      LaterLog(net.rejected, now.rejected, after.rejected, packet);
    } else {
      assert port != p;
    }
  }

  /** The effects of a turn in which the packet in inbox `p` leaves or is dropped. */
  lemma {:induction false} MovingMarks(topo: Topology, net: Net, id: RouterId, n: nat, now: Net, behavior: Behavior)
    requires WellFormed(topo, net) && RouterExists(topo, id) && n <= Ports(topo)
    requires Turn(topo, net, id, n, now, behavior)
    requires Going(topo, net, id, n, now)
    ensures var p := At(net.routers[id].rr, n); var o := Route(topo, id, now.routers[id].inbox[p].dst);
            && o == Way(topo, net, id, p) && Wants(topo, net, id, p, o) && Open(topo, net, id, o)
            && !Taken(topo, net, id, n, o) && Leaves(topo, net, id, p, o)
            && Same(net.routers[id], now.routers[id], p)
            && (forall x :: Taken(topo, net, id, n + 1, x) <==>
                  Taken(topo, net, id, n, x) || (x == o && Attached(topo, id, o).Some?))
            && (forall q, x :: Gone(topo, net, id, n + 1, q, x) <==> Gone(topo, net, id, n, q, x) || (q == p && x == o))
  {
    hide RouterExists, Route, Attached, Arrivals, Untouched, First, Tried;
    ReadyIsSame(topo, net, id, n, now, behavior);
    var p := At(net.routers[id].rr, n);
    var o := Route(topo, id, now.routers[id].inbox[p].dst);
    assert Open(topo, net, id, o) && !Taken(topo, net, id, n, o);
    if Attached(topo, id, o).Some? {
      FirstInTurn(topo, net, id, n, o);
    }
    forall x
      ensures Taken(topo, net, id, n + 1, x) <==> Taken(topo, net, id, n, x) || (x == o && Attached(topo, id, o).Some?)
      ensures forall q :: Gone(topo, net, id, n + 1, q, x) <==> Gone(topo, net, id, n, q, x) || (q == p && x == o)
    {
      TakenNext(topo, net, id, n, x);
      forall q
        ensures Gone(topo, net, id, n + 1, q, x) <==> Gone(topo, net, id, n, q, x) || (q == p && x == o)
      {
        GoneNext(topo, net, id, n, q, x);
      }
    }
  }

  /** The packet in inbox `p` has just left through outbox `o`, or was dropped because that leads nowhere. */
  ghost predicate Left(topo: Topology, net: Net, now: Net, after: Net, id: RouterId, p: nat, o: nat, behavior: Behavior)
    requires WellFormed(topo, net) && WellFormed(topo, now) && RouterExists(topo, id) && p < Ports(topo)
    requires o < Ports(topo)
  {
    && WellFormed(topo, after) && Extends(net, after) && Extends(now, after) && Keeps(topo, now, after, id, p)
    && var u, v, taken := now.routers[id], after.routers[id], Attached(topo, id, o).Some?;
       && !v.valid[p] && v.blocked == (if taken then u.blocked[o := true] else u.blocked)
       && v.clearTime == (if taken then u.clearTime[o := net.time + 4] else u.clearTime)
       && (forall q :: 0 <= q < Ports(topo) && q != p ==> if u.valid[q] then Same(u, v, q) else Vacant(net, v, q))
       && |after.departures| - |now.departures| == (if taken then 1 else 0)
       && v.rr == (u.rr + |after.departures| - |now.departures|) % Ports(topo)
       && Arrived(topo, net, after, id, u.inbox[p], o, behavior)
       && forall r :: RouterExists(topo, r) && r != id && Attached(topo, id, o) != Some(RouterNode(r)) ==>
            after.routers[r] == now.routers[r]
  }

  ghost predicate LeftAt(topo: Topology, net: Net, id: RouterId, n: nat, now: Net, after: Net, behavior: Behavior)
    requires WellFormed(topo, net) && WellFormed(topo, now) && RouterExists(topo, id) && n <= Ports(topo)
    requires Going(topo, net, id, n, now)
  {
    var p := At(net.routers[id].rr, n);
    Left(topo, net, now, after, id, p, Route(topo, id, now.routers[id].inbox[p].dst), behavior)
  }

  lemma {:induction false} DroppedLeft(topo: Topology, net: Net, now: Net, after: Net, id: RouterId, p: nat, o: nat,
                                       behavior: Behavior)
    requires WellFormed(topo, net) && WellFormed(topo, now) && RouterExists(topo, id) && p < Ports(topo)
    requires o < Ports(topo)
    requires Extends(net, now) && Attached(topo, id, o).None?
    requires forall q :: 0 <= q < Ports(topo) && !now.routers[id].valid[q] ==> Vacant(net, now.routers[id], q)
    requires var u := now.routers[id];
             after == now.(dropped := now.dropped + [u.inbox[p]],
                           routers := now.routers[id := u.(valid := u.valid[p := false])])
    ensures Left(topo, net, now, after, id, p, o, behavior)
  {
    hide RouterExists, Attached;
    Grows(now.dropped, now.routers[id].inbox[p]);
    LaterLog(net.dropped, now.dropped, after.dropped, now.routers[id].inbox[p]);
    SmallModulo(now.routers[id].rr, Ports(topo));
  }

  lemma {:induction false} SmallModulo(a: nat, n: nat)
    requires a < n
    ensures a % n == a
  {
  }

  lemma {:induction false} MovedLeft(topo: Topology, net: Net, now: Net, handed: Net, after: Net, id: RouterId, p: nat,
                                     o: nat, behavior: Behavior)
    requires WellFormed(topo, net) && WellFormed(topo, now) && WellFormed(topo, after) && RouterExists(topo, id)
    requires p < Ports(topo) && o < Ports(topo) && Extends(net, now) && Attached(topo, id, o).Some?
    requires forall q :: 0 <= q < Ports(topo) && !now.routers[id].valid[q] ==> Vacant(net, now.routers[id], q)
    requires now.routers[id].valid[p] && now.routers[id].forwardTime[p] <= net.time
    requires Handed(topo, now, handed, id, now.routers[id].inbox[p], o, behavior)
    requires Moved(topo, now, handed, after, id, p, o)
    requires forall next :: Attached(topo, id, o) == Some(RouterNode(next)) ==> StillFree(topo, net, now, id, next)
    ensures Left(topo, net, now, after, id, p, o, behavior)
  {
    hide RouterExists, Attached, Arrived, StillFree;
    assert Extends(net, after) && Extends(now, after);
    ArrivedHere(topo, net, now, handed, after, id, p, now.routers[id].inbox[p], o, behavior);
    assert Keeps(topo, now, after, id, p);
  }

  /** What a turn in which a packet leaves keeps. */
  lemma {:induction false} LeavingTurn(topo: Topology, net: Net, id: RouterId, n: nat, now: Net, after: Net,
                                       behavior: Behavior)
    requires WellFormed(topo, net) && RouterExists(topo, id) && n <= Ports(topo)
    requires Turn(topo, net, id, n, now, behavior)
    requires Going(topo, net, id, n, now) && LeftAt(topo, net, id, n, now, after, behavior)
    ensures Turn(topo, net, id, n + 1, after, behavior)
  {
    hide RouterExists, Route, Attached, Taken, Gone, Wants, Open, Leaves, Outboxes, Inboxes, Arrivals, Untouched,
      Keeps, Arrived;
    MovingMarks(topo, net, id, n, now, behavior);
    LeavingOutboxes(topo, net, id, n, now, after, behavior);
    LeavingInboxes(topo, net, id, n, now, after, behavior);
    LeavingArrivals(topo, net, id, n, now, after, behavior);
    LeavingUntouched(topo, net, id, n, now, after, behavior);
    Counted(net.routers[id].rr, |now.departures| - |net.departures|, |after.departures| - |now.departures|,
            Ports(topo));
  }

  lemma {:induction false} Counted(a: nat, b: nat, c: nat, n: nat)
    requires n > 0
    ensures ((a + b) % n + c) % n == (a + b + c) % n
  {
    var q, r := (a + b) / n, (a + b) % n;
    assert a + b + c == q * n + (r + c);
    MultipleAdded(q, r + c, n);
  }

  lemma {:induction false} MultipleAdded(q: nat, y: nat, n: nat)
    requires n > 0
    ensures (q * n + y) % n == y % n
  {
    var d, e := y / n, y % n;
    assert (q + d) * n + e == q * n + (d * n + e);
    DivModUnique(q * n + y, n, q + d, e);
  }

  lemma {:induction false} LeavingOutboxes(topo: Topology, net: Net, id: RouterId, n: nat, now: Net, after: Net,
                                           behavior: Behavior)
    requires WellFormed(topo, net) && RouterExists(topo, id) && n <= Ports(topo)
    requires Turn(topo, net, id, n, now, behavior)
    requires Going(topo, net, id, n, now) && LeftAt(topo, net, id, n, now, after, behavior)
    ensures Outboxes(topo, net, id, n + 1, after)
  {
    hide RouterExists, Route, Attached, Taken, Gone, Wants, Open, Leaves, Inboxes, Arrivals, Untouched, Keeps, Arrived;
    MovingMarks(topo, net, id, n, now, behavior);
  }

  lemma {:induction false} LeavingInboxes(topo: Topology, net: Net, id: RouterId, n: nat, now: Net, after: Net,
                                           behavior: Behavior)
    requires WellFormed(topo, net) && RouterExists(topo, id) && n <= Ports(topo)
    requires Turn(topo, net, id, n, now, behavior)
    requires Going(topo, net, id, n, now) && LeftAt(topo, net, id, n, now, after, behavior)
    ensures Inboxes(topo, net, id, n + 1, after)
  {
    hide RouterExists, Route, Attached, Taken, Gone, Wants, Open, Leaves, Outboxes, Arrivals, Untouched, Keeps, Arrived;
    MovingMarks(topo, net, id, n, now, behavior);
  }

  lemma {:induction false} LeavingArrivals(topo: Topology, net: Net, id: RouterId, n: nat, now: Net, after: Net,
                                           behavior: Behavior)
    requires WellFormed(topo, net) && RouterExists(topo, id) && n <= Ports(topo)
    requires Turn(topo, net, id, n, now, behavior)
    requires Going(topo, net, id, n, now) && LeftAt(topo, net, id, n, now, after, behavior)
    ensures Arrivals(topo, net, id, n + 1, after, behavior)
  {
    hide RouterExists, Route, Attached, Taken, Wants, Open, Leaves, Outboxes, Inboxes, Untouched, Keeps, Arrived;
    MovingMarks(topo, net, id, n, now, behavior);
    var p := At(net.routers[id].rr, n);
    forall q | 0 <= q < Ports(topo) && Gone(topo, net, id, n + 1, q, Way(topo, net, id, q))
      ensures Arrived(topo, net, after, id, net.routers[id].inbox[q], Way(topo, net, id, q), behavior)
    {
      if Gone(topo, net, id, n, q, Way(topo, net, id, q)) {
        forall next | Attached(topo, id, Way(topo, net, id, q)) == Some(RouterNode(next))
          ensures next != id
        {
          WayInside(topo, net, id, q);
          AttachedApart(topo, id, Way(topo, net, id, q), 0, next);
        }
        ArrivedStays(topo, net, now, after, id, p, net.routers[id].inbox[q], Way(topo, net, id, q), behavior);
      }
    }
  }

  lemma {:induction false} WayInside(topo: Topology, net: Net, id: RouterId, q: nat)
    requires WellFormed(topo, net) && RouterExists(topo, id) && q < Ports(topo)
    ensures Way(topo, net, id, q) < Ports(topo)
  {
    hide RouterExists, Route;
    RouteStaysInside(topo, id, net.routers[id].inbox[q].dst);
  }

  lemma {:induction false} LeavingUntouched(topo: Topology, net: Net, id: RouterId, n: nat, now: Net, after: Net,
                                           behavior: Behavior)
    requires WellFormed(topo, net) && RouterExists(topo, id) && n <= Ports(topo)
    requires Turn(topo, net, id, n, now, behavior)
    requires Going(topo, net, id, n, now) && LeftAt(topo, net, id, n, now, after, behavior)
    ensures Untouched(topo, net, id, n + 1, after)
  {
    hide RouterExists, Route, Attached, Taken, Gone, Wants, Open, Leaves, Outboxes, Inboxes, Arrivals, Keeps, Arrived,
      StillFree;
    MovingMarks(topo, net, id, n, now, behavior);
    var p := At(net.routers[id].rr, n);
    var o := Route(topo, id, now.routers[id].inbox[p].dst);
    forall q, x, next | Wants(topo, net, id, q, x) && Attached(topo, id, x) == Some(RouterNode(next))
                        && !Taken(topo, net, id, n + 1, x)
      ensures StillFree(topo, net, after, id, next)
    {
      assert StillFree(topo, net, now, id, next);
      WantedNext(topo, net, id, q, x, next);
      AttachedApart(topo, id, x, o, next);
      assert after.routers[next] == now.routers[next];
      SameFree(topo, net, now, after, id, next);
    }
  }

  lemma {:induction false} WantedNext(topo: Topology, net: Net, id: RouterId, q: nat, x: nat, next: RouterId)
    requires WellFormed(topo, net) && RouterExists(topo, id)
    requires Wants(topo, net, id, q, x) && Attached(topo, id, x) == Some(RouterNode(next))
    ensures x < Ports(topo) && RouterExists(topo, next)
  {
    hide RouterExists, Route, Attached, InboxOf, SameKind;
    RouteStaysInside(topo, id, net.routers[id].inbox[q].dst);
  }

  lemma {:induction false} SameFree(topo: Topology, net: Net, now: Net, after: Net, id: RouterId, next: RouterId)
    requires RouterExists(topo, id) && StillFree(topo, net, now, id, next)
    requires next in now.routers && next in after.routers && after.routers[next] == now.routers[next]
    ensures StillFree(topo, net, after, id, next)
  {
  }

  /** One turn. */
  lemma {:induction false} NextTurn(topo: Topology, net: Net, id: RouterId, n: nat, now: Net, behavior: Behavior)
    requires WellFormed(topo, net) && RouterExists(topo, id) && n <= Ports(topo)
    requires Turn(topo, net, id, n, now, behavior)
    ensures At(net.routers[id].rr, n) < Ports(topo)
    ensures Turn(topo, net, id, n + 1, ForwardFrom(topo, now, id, At(net.routers[id].rr, n), behavior), behavior)
  {
    hide RouterExists, Route, Attached, Outboxes, Arrivals, Untouched, ForwardFrom, HandOver, Handed, Moved, Left,
      StillFree;
    var p := At(net.routers[id].rr, n);
    Trying(topo, now, id, p, behavior);
    var u, after := now.routers[id], ForwardFrom(topo, now, id, p, behavior);
    var o := Route(topo, id, u.inbox[p].dst);
    if !u.valid[p] || u.forwardTime[p] > now.time || u.blocked[o] {
      IdleTurn(topo, net, id, n, now, behavior);
    } else {
      EmptyIsVacant(topo, net, id, n, now, behavior);
      if Attached(topo, id, o).None? {
        DroppedLeft(topo, net, now, after, id, p, o, behavior);
      } else {
        FreeNext(topo, net, id, n, now, behavior);
        MovedLeft(topo, net, now, HandOver(topo, now, id, u.inbox[p], behavior), after, id, p, o, behavior);
      }
      LeavingTurn(topo, net, id, n, now, after, behavior);
    }
  }

  lemma {:induction false} EmptyIsVacant(topo: Topology, net: Net, id: RouterId, n: nat, now: Net, behavior: Behavior)
    requires WellFormed(topo, net) && RouterExists(topo, id) && Turn(topo, net, id, n, now, behavior)
    ensures forall q :: 0 <= q < Ports(topo) && !now.routers[id].valid[q] ==> Vacant(net, now.routers[id], q)
  {
  }

  lemma {:induction false} FreeNext(topo: Topology, net: Net, id: RouterId, n: nat, now: Net, behavior: Behavior)
    requires WellFormed(topo, net) && RouterExists(topo, id) && n <= Ports(topo)
    requires Turn(topo, net, id, n, now, behavior)
    requires Going(topo, net, id, n, now)
    ensures var o := Route(topo, id, now.routers[id].inbox[At(net.routers[id].rr, n)].dst);
            forall next :: Attached(topo, id, o) == Some(RouterNode(next)) ==> StillFree(topo, net, now, id, next)
  {
    hide RouterExists, Route, Attached, Outboxes, Inboxes, Arrivals, StillFree, Taken, Open, Leaves, Wants;
    MovingMarks(topo, net, id, n, now, behavior);
  }

  lemma {:induction false} FirstTurn(topo: Topology, net: Net, id: RouterId, behavior: Behavior)
    requires WellFormed(topo, net) && RouterExists(topo, id)
    ensures Turn(topo, net, id, 0, Unblock(net, id), behavior)
  {
    hide RouterExists, Route, Attached, Arrived;
    SmallModulo(net.routers[id].rr, Ports(topo));
    forall p, o, next | Wants(topo, net, id, p, o) && Attached(topo, id, o) == Some(RouterNode(next))
      ensures StillFree(topo, net, Unblock(net, id), id, next)
    {
      RoutedNext(topo, net, id, p, next);
    }
  }

  lemma {:induction false} RoutedNext(topo: Topology, net: Net, id: RouterId, p: nat, next: RouterId)
    requires WellFormed(topo, net) && RouterExists(topo, id) && p < Ports(topo)
    requires Attached(topo, id, Way(topo, net, id, p)) == Some(RouterNode(next))
    ensures StillFree(topo, net, Unblock(net, id), id, next)
  {
    hide RouterExists, Route, Attached, InboxOf;
    ExistsSameKind(topo, id);
    RouteStaysInside(topo, id, net.routers[id].inbox[p].dst);
  }

  lemma {:induction false} Turns(topo: Topology, net: Net, id: RouterId, first: Net, k: nat, behavior: Behavior)
    requires WellFormed(topo, net) && RouterExists(topo, id) && k <= Ports(topo)
    requires WellFormed(topo, first) && Turn(topo, net, id, 1, first, behavior)
    ensures Turn(topo, net, id, k + 1, ForwardUpTo(topo, first, id, k, behavior), behavior)
    decreases k
  {
    hide RouterExists, Turn, ForwardFrom;
    if k > 0 {
      Turns(topo, net, id, first, k - 1, behavior);
      NextTurn(topo, net, id, k, ForwardUpTo(topo, first, id, k - 1, behavior), behavior);
    }
  }

  // ----- a whole Timestep

  lemma {:induction false} AllTurns(topo: Topology, net: Net, id: RouterId, behavior: Behavior)
    requires WellFormed(topo, net) && RouterExists(topo, id)
    ensures Turn(topo, net, id, Ports(topo) + 1, RouterStep(topo, net, id, behavior), behavior)
  {
    hide RouterExists, Turn, ForwardFrom, ForwardUpTo;
    var freed := Unblock(net, id);
    FirstTurn(topo, net, id, behavior);
    NextTurn(topo, net, id, 0, freed, behavior);
    Turns(topo, net, id, ForwardFrom(topo, freed, id, net.routers[id].rr, behavior), Ports(topo), behavior);
  }

  /** A router's Timestep, for every inbox and every outbox. A packet leaves when its time has come, its outbox is
      free and it is first for it; it is then where the outbox leads, or was rejected there because that inbox was
      full, or was dropped because the outbox leads nowhere. Every other packet stays as it is. An outbox that is
      taken is blocked for four clocks; the others change only by becoming free. */
  lemma {:induction false} TimestepMoves(topo: Topology, net: Net, id: RouterId, behavior: Behavior)
    requires WellFormed(topo, net) && RouterExists(topo, id)
    ensures var after := RouterStep(topo, net, id, behavior); var s, u := net.routers[id], after.routers[id];
            && WellFormed(topo, after) && Extends(net, after)
            && (forall p: nat, o: nat :: Leaves(topo, net, id, p, o) ==>
                  Vacant(net, u, p) && Arrived(topo, net, after, id, s.inbox[p], o, behavior))
            && (forall p :: 0 <= p < Ports(topo) && s.valid[p] && !Leaves(topo, net, id, p, Way(topo, net, id, p)) ==>
                  Same(s, u, p))
            && (forall p :: 0 <= p < Ports(topo) && !s.valid[p] ==> Vacant(net, u, p))
            && (forall o :: 0 <= o < Ports(topo) ==>
                  if Open(topo, net, id, o) && Attached(topo, id, o).Some? && Wanted(topo, net, id, o) then
                    u.blocked[o] && u.clearTime[o] == net.time + 4
                  else
                    u.blocked[o] == !Open(topo, net, id, o) && u.clearTime[o] == s.clearTime[o])
            && u.rr == (s.rr + |after.departures| - |net.departures|) % Ports(topo)
  {
    hide RouterExists, Route, Attached, Arrived, RouterStep, Untouched, Open, First;
    AllTurns(topo, net, id, behavior);
    var n := Ports(topo) + 1;
    forall p: nat, o: nat
      ensures Gone(topo, net, id, n, p, o) <==> Leaves(topo, net, id, p, o)
      ensures Leaves(topo, net, id, p, o) ==> p < Ports(topo) && o == Way(topo, net, id, p)
    {
      TriedAll(topo, net, id, p, o);
    }
    forall o: nat
      ensures Taken(topo, net, id, n, o) <==>
                Open(topo, net, id, o) && Attached(topo, id, o).Some? && Wanted(topo, net, id, o)
    {
    }
  }

  ghost predicate Wanted(topo: Topology, net: Net, id: RouterId, o: nat)
    requires WellFormed(topo, net) && RouterExists(topo, id)
  {
    exists p :: Wants(topo, net, id, p, o)
  }

  lemma {:induction false} TriedAll(topo: Topology, net: Net, id: RouterId, p: nat, o: nat)
    requires WellFormed(topo, net) && RouterExists(topo, id)
    ensures Gone(topo, net, id, Ports(topo) + 1, p, o) <==> Leaves(topo, net, id, p, o)
    ensures Leaves(topo, net, id, p, o) ==> p < Ports(topo) && o == Way(topo, net, id, p)
  {
    hide RouterExists, Route, Attached, Open, First;
  }

  /** So after its Timestep every packet of a router that might leave waits for an outbox that is in use. */
  lemma {:induction false} NothingIsLeft(topo: Topology, net: Net, id: RouterId, behavior: Behavior)
    requires WellFormed(topo, net) && RouterExists(topo, id)
    ensures var after := RouterStep(topo, net, id, behavior); var u := after.routers[id];
            u.Shape(Ports(topo))
            && forall p :: 0 <= p < Ports(topo) && u.valid[p] && u.forwardTime[p] <= net.time ==>
                 Route(topo, id, u.inbox[p].dst) < Ports(topo) && u.blocked[Route(topo, id, u.inbox[p].dst)]
  {
    hide RouterExists, Route, Attached, Arrived, RouterStep;
    TimestepMoves(topo, net, id, behavior);
    var after := RouterStep(topo, net, id, behavior);
    var s, u := net.routers[id], after.routers[id];
    forall p | 0 <= p < Ports(topo) && u.valid[p] && u.forwardTime[p] <= net.time
      ensures Route(topo, id, u.inbox[p].dst) < Ports(topo) && u.blocked[Route(topo, id, u.inbox[p].dst)]
    {
      var o := Way(topo, net, id, p);
      WayInside(topo, net, id, p);
      assert s.valid[p] && !Leaves(topo, net, id, p, o) && Same(s, u, p) && Wants(topo, net, id, p, o);
    }
  }
}
