/** Building the networks (sim/noc/main.cpp): routers, hosts, and what is attached to every port. */
module NocCreation {
  import Grid = GridTopology
  import Tree = QuadtreeTopology
  import opened NocNetwork
  import opened NocSimulator
  import opened Options

  /** Distinct routers, all of them idle. */
  ghost predicate Fresh(routers: map<RouterId, Router>, ports: nat)
    reads routers.Values
  {
    && (forall a, b :: a in routers && b in routers && a != b ==> routers[a] != routers[b])
    && (forall id :: id in routers ==> routers[id].Valid(ports) && Idle(routers[id].State()))
  }

  ghost function Links(routers: map<RouterId, Router>): (links: map<RouterId, seq<Option<Node>>>)
    reads routers.Values
    ensures links.Keys == routers.Keys
  {
    map id | id in routers :: routers[id].m_links
  }

  method AddRouter(routers: map<RouterId, Router>, id: RouterId, ports: nat) returns (more: map<RouterId, Router>)
    requires ports > 0 && Fresh(routers, ports)
    ensures Fresh(more, ports) && id in more && fresh(more[id]) && more == routers[id := more[id]]
    ensures Links(more) == Links(routers)[id := NoLinks(ports)]
  {
    hide Idle;
    var r := new Router(ports);
    more := routers[id := r];
    forall other | other in routers && other != id
      ensures more[other] == routers[other] && more[other] != r
    {
      assert routers[other] in routers.Values;
    }
  }

  /** Sets one port of one router. */
  method AttachTo(routers: map<RouterId, Router>, id: RouterId, port: nat, node: Node, ghost ports: nat)
    requires Fresh(routers, ports) && id in routers && port < |routers[id].m_links|
    modifies routers[id]
    ensures Fresh(routers, ports)
    ensures Links(routers) == old(Links(routers))[id := old(routers[id].m_links)[port := Some(node)]]
  {
    hide Idle;
    routers[id].Attach(port, node);
    forall other | other in routers && other != id
      ensures routers[other].m_links == old(routers[other].m_links)
    {
      assert routers[other] != routers[id];
    }
  }

  /** The routers of the rows before `y`, those of row `y` before `x`, and their hosts. */
  predicate GridMade(node: Node, y: nat, x: nat) {
    match node
    case RouterNode(id) => id.GridAt? && id.pos.x < 4 && 4 * id.pos.y + id.pos.x < 4 * y + x
    case HostNode(addr) => addr < 64 * y + 16 * x
  }

  /** The links of a grid router with `n` hosts attached, and with its neighbours as well. */
  function HostLinks(p: Grid.Position, n: nat): seq<Option<Node>> {
    seq(Grid.PORTS, i requires 0 <= i < Grid.PORTS => if i < n then Some(HostNode(Grid.SubnetLow(p) + i)) else None)
  }

  function GridLinks(p: Grid.Position): seq<Option<Node>>
    requires Grid.OnGrid(p)
  {
    seq(Grid.PORTS, i requires 0 <= i < Grid.PORTS => Attached(GridNet(false), GridAt(p), i))
  }

  /** The 4x4 grid with sixteen hosts per router. */
  method CreateGridNetwork(randomize: bool) returns (sim: Simulation)
    ensures fresh(sim) && sim.topo == GridNet(randomize)
    ensures sim.Valid() && Initial(sim.topo, sim.State())
  {
    hide Idle, GridMade, HostLinks, GridLinks, Linked, Attached;
    var routers: map<RouterId, Router> := map[];
    var nodes: set<Node> := {};
    NoGridYet();
    for y := 0 to 4
      invariant Fresh(routers, Grid.PORTS) && fresh(routers.Values)
      invariant forall p: Grid.Position :: p.x < 4 && p.y < y ==>
          GridAt(p) in routers && routers[GridAt(p)].m_links == HostLinks(p, 16)
      invariant forall node :: node in nodes <==> GridMade(node, y, 0)
    {
      routers, nodes := AddGridRow(routers, nodes, y);
    }
    ConnectGrid(routers);
    GridNodesExist(randomize);
    forall id | RouterExists(GridNet(randomize), id)
      ensures id in routers && Linked(GridNet(randomize), id, routers[id].m_links)
    {
      GridIsLinked(randomize, id.pos);
    }
    sim := new Simulation(GridNet(randomize), routers, nodes);
  }

  lemma {:induction false} GridIsLinked(randomize: bool, p: Grid.Position)
    requires Grid.OnGrid(p)
    ensures Linked(GridNet(randomize), GridAt(p), GridLinks(p))
  {
  }

  lemma NoGridYet()
    ensures forall node :: !GridMade(node, 0, 0)
  {
  }

  method AddGridRow(routers: map<RouterId, Router>, nodes: set<Node>, y: nat)
    returns (more: map<RouterId, Router>, moreNodes: set<Node>)
    requires y < 4 && Fresh(routers, Grid.PORTS)
    requires forall node :: node in nodes <==> GridMade(node, y, 0)
    ensures Fresh(more, Grid.PORTS) && fresh(more.Values - routers.Values)
    ensures forall id :: id in routers && !(id.GridAt? && id.pos.y == y) ==> id in more && more[id] == routers[id]
    ensures forall p: Grid.Position :: p.x < 4 && p.y == y ==>
        GridAt(p) in more && more[GridAt(p)].m_links == HostLinks(p, 16)
    ensures forall node :: node in moreNodes <==> GridMade(node, y + 1, 0)
  {
    hide Fresh, GridMade, HostLinks;
    more, moreNodes := routers, nodes;
    for x := 0 to 4
      invariant Fresh(more, Grid.PORTS) && fresh(more.Values - routers.Values)
      invariant forall id :: id in routers && !(id.GridAt? && id.pos.y == y) ==> id in more && more[id] == routers[id]
      invariant forall p: Grid.Position :: p.x < x && p.y == y ==>
          GridAt(p) in more && more[GridAt(p)].m_links == HostLinks(p, 16)
      invariant forall node :: node in moreNodes <==> GridMade(node, y, x)
    {
      ghost var before, links := more, Links(more);
      more := AddRouter(more, GridAt(Grid.Position(x, y)), Grid.PORTS);
      assert more.Values - routers.Values <= (more.Values - before.Values) + (before.Values - routers.Values);
      moreNodes := AddGridNodes(more, moreNodes, x, y);
      forall p: Grid.Position | p.x < x && p.y == y
        ensures GridAt(p) in more && more[GridAt(p)].m_links == HostLinks(p, 16)
      {
        assert Links(more)[GridAt(p)] == links[GridAt(p)];
      }
    }
    GridRowDone(y);
  }

  /** A router of the grid and its sixteen hosts. */
  method AddGridNodes(routers: map<RouterId, Router>, nodes: set<Node>, x: nat, y: nat) returns (more: set<Node>)
    requires x < 4 && y < 4 && forall node :: node in nodes <==> GridMade(node, y, x)
    requires Fresh(routers, Grid.PORTS) && GridAt(Grid.Position(x, y)) in routers
    requires routers[GridAt(Grid.Position(x, y))].m_links == NoLinks(Grid.PORTS)
    modifies routers[GridAt(Grid.Position(x, y))]
    ensures Fresh(routers, Grid.PORTS)
    ensures Links(routers) == old(Links(routers))[GridAt(Grid.Position(x, y)) := HostLinks(Grid.Position(x, y), 16)]
    ensures forall node :: node in more <==> GridMade(node, y, x + 1)
  {
    hide Fresh, HostLinks;
    var p := Grid.Position(x, y);
    more := nodes + {RouterNode(GridAt(p))};
    NoHostLinks(p);
    for i := 0 to 16
      invariant Fresh(routers, Grid.PORTS) && Links(routers) == old(Links(routers))[GridAt(p) := HostLinks(p, i)]
      invariant forall node :: node in more <==>
                  if node.RouterNode? then GridMade(node, y, x + 1) else node.addr < 64 * y + 16 * x + i
    {
      var addr := 64 * y + 16 * x + i;
      OneMoreHost(p, i);
      assert Links(routers)[GridAt(p)] == HostLinks(p, i);
      AttachTo(routers, GridAt(p), addr % 16, HostNode(addr), Grid.PORTS);
      more := more + {HostNode(addr)};
    }
  }

  lemma {:induction false} NoHostLinks(p: Grid.Position)
    ensures HostLinks(p, 0) == NoLinks(Grid.PORTS)
  {
  }

  lemma {:induction false} OneMoreHost(p: Grid.Position, i: nat)
    requires i < 16
    ensures |HostLinks(p, i)| == Grid.PORTS
    ensures (64 * p.y + 16 * p.x + i) % 16 == i && Grid.SubnetLow(p) == 64 * p.y + 16 * p.x
    ensures HostLinks(p, i + 1) == HostLinks(p, i)[i := Some(HostNode(Grid.SubnetLow(p) + i))]
  {
  }

  /** Tells every router of the grid its neighbours. */
  method ConnectGrid(routers: map<RouterId, Router>)
    requires Fresh(routers, Grid.PORTS)
    requires forall p :: Grid.OnGrid(p) ==> GridAt(p) in routers && routers[GridAt(p)].m_links == HostLinks(p, 16)
    modifies routers.Values
    ensures Fresh(routers, Grid.PORTS)
    ensures forall p :: Grid.OnGrid(p) ==> routers[GridAt(p)].m_links == GridLinks(p)
  {
    hide Fresh, HostLinks, GridLinks;
    for y := 0 to 4
      invariant Fresh(routers, Grid.PORTS)
      invariant forall p :: Grid.OnGrid(p) ==>
          Links(routers)[GridAt(p)] == if p.y < y then GridLinks(p) else HostLinks(p, 16)
    {
      for x := 0 to 4
        invariant Fresh(routers, Grid.PORTS)
        invariant forall p :: Grid.OnGrid(p) ==>
                    Links(routers)[GridAt(p)] == if p.y < y || (p.y == y && p.x < x) then GridLinks(p)
                      else HostLinks(p, 16)
      {
        ConnectRouter(routers, Grid.Position(x, y));
      }
    }
    forall p | Grid.OnGrid(p)
      ensures routers[GridAt(p)].m_links == GridLinks(p)
    {
      assert Links(routers)[GridAt(p)] == GridLinks(p);
    }
  }

  method ConnectRouter(routers: map<RouterId, Router>, p: Grid.Position)
    requires Fresh(routers, Grid.PORTS) && Grid.OnGrid(p) && GridAt(p) in routers
    requires Links(routers)[GridAt(p)] == HostLinks(p, 16)
    modifies routers[GridAt(p)]
    ensures Fresh(routers, Grid.PORTS)
    ensures Links(routers) == old(Links(routers))[GridAt(p) := GridLinks(p)]
  {
    hide Idle, HostLinks, GridLinks;
    AddNeighbors(routers[GridAt(p)], p);
    forall other | other in routers && other != GridAt(p)
      ensures routers[other].m_links == old(routers[other].m_links)
    {
      assert routers[other] != routers[GridAt(p)];
    }
  }

  method AddNeighbors(r: Router, p: Grid.Position)
    requires Grid.OnGrid(p) && r.m_links == HostLinks(p, 16)
    modifies r`m_links
    ensures r.m_links == GridLinks(p)
  {
    hide HostLinks, GridLinks, Attached;
    GridNeighbors(p);
    if p.y > 0 {
      r.Attach(16, RouterNode(GridAt(Grid.Position(p.x, p.y - 1))));
    }
    if p.x < 3 {
      r.Attach(17, RouterNode(GridAt(Grid.Position(p.x + 1, p.y))));
    }
    if p.y < 3 {
      r.Attach(18, RouterNode(GridAt(Grid.Position(p.x, p.y + 1))));
    }
    if p.x > 0 {
      r.Attach(19, RouterNode(GridAt(Grid.Position(p.x - 1, p.y))));
    }
    assert r.m_links == GridLinks(p);
  }

  lemma {:induction false} GridNeighbors(p: Grid.Position)
    requires Grid.OnGrid(p)
    ensures |HostLinks(p, 16)| == |GridLinks(p)| == Grid.PORTS
    ensures forall i :: 0 <= i < 16 ==> GridLinks(p)[i] == HostLinks(p, 16)[i]
    ensures forall i :: 16 <= i < Grid.PORTS ==> HostLinks(p, 16)[i] == None
    ensures GridLinks(p)[16] == if p.y > 0 then Some(RouterNode(GridAt(Grid.Position(p.x, p.y - 1)))) else None
    ensures GridLinks(p)[17] == if p.x < 3 then Some(RouterNode(GridAt(Grid.Position(p.x + 1, p.y)))) else None
    ensures GridLinks(p)[18] == if p.y < 3 then Some(RouterNode(GridAt(Grid.Position(p.x, p.y + 1)))) else None
    ensures GridLinks(p)[19] == if p.x > 0 then Some(RouterNode(GridAt(Grid.Position(p.x - 1, p.y)))) else None
  {
  }

  lemma {:induction false} GridRowDone(y: nat)
    ensures forall node :: GridMade(node, y, 4) <==> GridMade(node, y + 1, 0)
  {
  }

  lemma {:induction false} GridNodesExist(randomize: bool)
    ensures forall node :: GridMade(node, 4, 0) <==> NodeExists(GridNet(randomize), node)
  {
  }

  /** The four children of a router. */
  function Children(r: Tree.Router): set<Tree.Router>
    requires r.height >= 1
  {
    {Tree.Child(r, 0), Tree.Child(r, 1), Tree.Child(r, 2), Tree.Child(r, 3)}
  }

  lemma {:induction false} ChildOfItsParent(c: Tree.Router)
    ensures c in Children(Tree.Parent(c))
  {
    assert c.index == 4 * (c.index / 4) + c.index % 4;
  }

  /** The links of a tree router with `n` children attached. */
  function TreeLinks(k: nat, r: Tree.Router, n: nat): seq<Option<Node>>
    requires Tree.InNetwork(k, r)
  {
    seq(Tree.PORTS, i requires 0 <= i < Tree.PORTS =>
      if i < n || i >= Tree.PARENT then Attached(TreeNet(k), TreeAt(r), i) else None)
  }

  /** Of the routers made, those above height `h` and those at it that are not in `rest` have their children. */
  ghost predicate LinkedDownTo(k: nat, h: nat, rest: set<Tree.Router>, links: map<RouterId, seq<Option<Node>>>) {
    forall r :: Tree.InNetwork(k, r) && TreeAt(r) in links ==>
      links[TreeAt(r)] == TreeLinks(k, r, if r.height > h || (r.height == h && r !in rest) then 4 else 0)
  }

  /** A router below `r`, which its constructor makes known to `r`. */
  method AddChild(routers: map<RouterId, Router>, k: nat, r: Tree.Router, i: nat) returns (more: map<RouterId, Router>)
    requires Fresh(routers, Tree.PORTS) && Tree.InNetwork(k, r) && r.height > 1 && i < 4 && TreeAt(r) in routers
    requires Links(routers)[TreeAt(r)] == TreeLinks(k, r, i)
    modifies routers[TreeAt(r)]
    ensures TreeAt(Tree.Child(r, i)) in more && fresh(more[TreeAt(Tree.Child(r, i))])
    ensures Tree.InNetwork(k, Tree.Child(r, i))
    ensures Fresh(more, Tree.PORTS) && more == routers[TreeAt(Tree.Child(r, i)) := more[TreeAt(Tree.Child(r, i))]]
    ensures Links(more) == old(Links(routers))[TreeAt(Tree.Child(r, i)) := TreeLinks(k, Tree.Child(r, i), 0)]
                                              [TreeAt(r) := TreeLinks(k, r, i + 1)]
  {
    hide Fresh, Tree.Up, Tree.InNetwork, TreeLinks, Tree.MidAddress, Tree.DigitPort;
    var c := Tree.Child(r, i);
    ChildLinks(k, r, i);
    more := AddRouter(routers, TreeAt(c), Tree.PORTS);
    assert Links(more)[TreeAt(c)] == NoLinks(Tree.PORTS);
    AttachTo(more, TreeAt(c), Tree.PARENT, RouterNode(TreeAt(r)), Tree.PORTS);
    var port := Tree.DigitPort(r, Tree.MidAddress(c));
    if port <= 3 {
      assert Links(more)[TreeAt(r)] == TreeLinks(k, r, i);
      AttachTo(more, TreeAt(r), port, RouterNode(TreeAt(c)), Tree.PORTS);
    }
  }

  lemma {:induction false} ChildLinks(k: nat, r: Tree.Router, i: nat)
    requires Tree.InNetwork(k, r) && r.height > 1 && i < 4
    ensures var c := Tree.Child(r, i);
            && Tree.InNetwork(k, c) && c != r && Tree.DigitPort(r, Tree.MidAddress(c)) == i
            && TreeLinks(k, c, 0) == NoLinks(Tree.PORTS)[Tree.PARENT := Some(RouterNode(TreeAt(r)))]
            && |TreeLinks(k, r, i)| == Tree.PORTS
               && TreeLinks(k, r, i + 1) == TreeLinks(k, r, i)[i := Some(RouterNode(TreeAt(c)))]
  {
    hide Tree.Up, Tree.MidAddress, Tree.DigitPort;
    var c := Tree.Child(r, i);
    assert c in Children(r);
    TheChildren(k, r);
    Tree.InboxOfChild(c);
    assert c.index % 4 == i;
  }

  /** The links after `n` children of `r` have been made. */
  function WithChildren(k: nat, r: Tree.Router, links: map<RouterId, seq<Option<Node>>>, n: nat)
    : map<RouterId, seq<Option<Node>>>
    requires Tree.InNetwork(k, r) && r.height > 1 && n <= 4
  {
    if n == 0 then links
    else
      ChildLinks(k, r, n - 1);
      var c := Tree.Child(r, n - 1);
      WithChildren(k, r, links, n - 1)[TreeAt(c) := TreeLinks(k, c, 0)][TreeAt(r) := TreeLinks(k, r, n)]
  }

  /** The children of router `r`, one of those at height `h` that have none. */
  method AddChildren(routers: map<RouterId, Router>, k: nat, ghost h: nat, ghost rest: set<Tree.Router>, r: Tree.Router)
    returns (more: map<RouterId, Router>)
    requires Fresh(routers, Tree.PORTS) && Tree.InNetwork(k, r) && r.height == h > 1 && TreeAt(r) in routers
    requires r in rest && LinkedDownTo(k, h, rest, Links(routers))
    modifies routers[TreeAt(r)]
    ensures Fresh(more, Tree.PORTS) && fresh(more.Values - routers.Values)
    ensures forall id :: id in more <==> id in routers || (id.TreeAt? && id.router in Children(r))
    ensures LinkedDownTo(k, h, rest - {r}, Links(more))
  {
    hide Fresh, Tree.Up, Tree.InNetwork, TreeLinks, LinkedDownTo, Children;
    ghost var links := Links(routers);
    NotYetLinked(k, h, rest, links, r);
    more := routers;
    for i := 0 to 4
      invariant Fresh(more, Tree.PORTS) && fresh(more.Values - routers.Values)
      invariant TreeAt(r) in more && more[TreeAt(r)] == routers[TreeAt(r)]
      invariant Links(more)[TreeAt(r)] == TreeLinks(k, r, i)
      invariant Links(more) == WithChildren(k, r, old(Links(routers)), i)
    {
      ChildLinks(k, r, i);
      more := AddChild(more, k, r, i);
    }
    FourChildren(k, r, links);
    StillLinked(k, h, rest, links, r, Links(more));
  }

  lemma {:induction false} FourChildren(k: nat, r: Tree.Router, links: map<RouterId, seq<Option<Node>>>)
    requires Tree.InNetwork(k, r) && r.height > 1
    ensures var links' := WithChildren(k, r, links, 4);
            && (forall id :: id in links' <==>
               id in links || id == TreeAt(r) || (id.TreeAt? && id.router in Children(r)))
            && (forall id :: id in links && id != TreeAt(r) && !(id.TreeAt? && id.router in Children(r)) ==>
               links'[id] == links[id])
            && (forall c :: c in Children(r) ==> Tree.InNetwork(k, c) && links'[TreeAt(c)] == TreeLinks(k, c, 0))
            && links'[TreeAt(r)] == TreeLinks(k, r, 4)
  {
    hide Tree.Up, Tree.InNetwork, TreeLinks;
    ChildLinks(k, r, 0);
    ChildLinks(k, r, 1);
    ChildLinks(k, r, 2);
    ChildLinks(k, r, 3);
    var one := WithChildren(k, r, links, 1);
    var two := WithChildren(k, r, links, 2);
    var three := WithChildren(k, r, links, 3);
    assert WithChildren(k, r, links, 0) == links;
  }

  /** A row of the quadtree: all routers of one height. */
  ghost predicate WholeRow(k: nat, h: nat, row: set<Tree.Router>) {
    forall r :: r in row <==> Tree.InNetwork(k, r) && r.height == h
  }

  /** The routers down to a height, and no host. */
  ghost predicate RoutersDownTo(k: nat, h: nat, nodes: set<Node>) {
    forall node :: node in nodes <==>
      node.RouterNode? && node.id.TreeAt? && Tree.InNetwork(k, node.id.router) && node.id.router.height >= h
  }

  /** The quadtree over 4^k hosts, row by row from the root. */
  method CreateQuadtreeNetwork(k: nat) returns (sim: Simulation)
    requires k >= 1
    ensures fresh(sim) && sim.topo == TreeNet(k)
    ensures sim.Valid() && Initial(sim.topo, sim.State())
  {
    hide Idle, Tree.Up, Children, Tree.InNetwork, TreeLinks, Linked, Attached;
    var root := Tree.Router(k, 0);
    var routers := AddRouter(map[], TreeAt(root), Tree.PORTS);
    var row: set<Tree.Router> := {root};
    var nodes: set<Node> := {RouterNode(TreeAt(root))};
    var h := k;
    OnlyRoot(k);
    RootLinks(k, Links(routers));
    while h > 1
      invariant 1 <= h <= k
      invariant Fresh(routers, Tree.PORTS) && fresh(routers.Values)
      invariant forall r :: Tree.InNetwork(k, r) && r.height >= h ==> TreeAt(r) in routers
      invariant LinkedDownTo(k, h, row, Links(routers))
      invariant WholeRow(k, h, row) && RoutersDownTo(k, h, nodes)
    {
      routers, row, nodes := AddRow(k, h, routers, row, nodes);
      h := h - 1;
    }
    AllAtLeastOne(k);
    nodes := AddHosts(k, routers, row, nodes);
    forall id | RouterExists(TreeNet(k), id)
      ensures id in routers && Linked(TreeNet(k), id, routers[id].m_links)
    {
      TreeIsLinked(k, id.router, Links(routers));
    }
    sim := new Simulation(TreeNet(k), routers, nodes);
  }

  lemma {:induction false} RootLinks(k: nat, links: map<RouterId, seq<Option<Node>>>)
    requires k >= 1 && links == map[TreeAt(Tree.Router(k, 0)) := NoLinks(Tree.PORTS)]
    ensures LinkedDownTo(k, k, {Tree.Router(k, 0)}, links)
  {
    hide Tree.Up;
  }

  lemma {:induction false} TreeIsLinked(k: nat, r: Tree.Router, links: map<RouterId, seq<Option<Node>>>)
    requires Tree.InNetwork(k, r) && r.height >= 1 && TreeAt(r) in links && LinkedDownTo(k, 1, {}, links)
    ensures Linked(TreeNet(k), TreeAt(r), links[TreeAt(r)])
  {
    hide Tree.Up;
  }

  /** Four children for each router of a row. */
  method AddRow(k: nat, h: nat, routers: map<RouterId, Router>, row: set<Tree.Router>, nodes: set<Node>)
    returns (more: map<RouterId, Router>, newRow: set<Tree.Router>, moreNodes: set<Node>)
    requires 1 < h <= k && Fresh(routers, Tree.PORTS)
    requires forall r :: Tree.InNetwork(k, r) && r.height >= h ==> TreeAt(r) in routers
    requires LinkedDownTo(k, h, row, Links(routers))
    requires WholeRow(k, h, row) && RoutersDownTo(k, h, nodes)
    modifies routers.Values
    ensures Fresh(more, Tree.PORTS) && fresh(more.Values - routers.Values)
    ensures forall r :: Tree.InNetwork(k, r) && r.height >= h - 1 ==> TreeAt(r) in more
    ensures LinkedDownTo(k, h - 1, newRow, Links(more))
    ensures WholeRow(k, h - 1, newRow) && RoutersDownTo(k, h - 1, moreNodes)
  {
    hide Fresh, Tree.Up, Children, Tree.InNetwork, TreeLinks, LinkedDownTo, RowSoFar, NodesSoFar;
    more, newRow, moreNodes := routers, {}, nodes;
    var rest := row;
    NoChildrenYet(k, h, row, nodes);
    while rest != {}
      invariant rest <= row && Fresh(more, Tree.PORTS) && fresh(more.Values - routers.Values)
      invariant routers.Keys <= more.Keys
      invariant RowSoFar(k, h, row, rest, newRow) && NodesSoFar(nodes, newRow, moreNodes)
      invariant forall c :: c in newRow ==> TreeAt(c) in more
      invariant LinkedDownTo(k, h, rest, Links(more))
      decreases rest
    {
      var r :| r in rest;
      more := AddChildren(more, k, h, rest, r);
      var children := Children(r);
      RowGrows(k, h, row, rest, newRow, nodes, moreNodes, r);
      rest := rest - {r};
      newRow := newRow + children;
      moreNodes := moreNodes + set c | c in children :: RouterNode(TreeAt(c));
    }
    RowIsWhole(k, h, row, newRow, nodes, moreNodes);
    RowLinked(k, h, newRow, Links(more));
  }

  /** The children, at height `h - 1`, of the routers of a row that are not in `rest`. */
  ghost predicate RowSoFar(k: nat, h: nat, row: set<Tree.Router>, rest: set<Tree.Router>, newRow: set<Tree.Router>) {
    forall c :: c in newRow <==> Tree.Parent(c) in row - rest && Tree.InNetwork(k, c) && c.height == h - 1
  }

  ghost predicate NodesSoFar(nodes: set<Node>, newRow: set<Tree.Router>, moreNodes: set<Node>) {
    forall node :: node in moreNodes <==>
      node in nodes || (node.RouterNode? && node.id.TreeAt? && node.id.router in newRow)
  }

  lemma {:induction false} NoChildrenYet(k: nat, h: nat, row: set<Tree.Router>, nodes: set<Node>)
    ensures RowSoFar(k, h, row, row, {}) && NodesSoFar(nodes, {}, nodes)
  {
  }

  lemma {:induction false} RowGrows(k: nat, h: nat, row: set<Tree.Router>, rest: set<Tree.Router>,
                                    newRow: set<Tree.Router>,
                                    nodes: set<Node>, moreNodes: set<Node>, r: Tree.Router)
    requires RowSoFar(k, h, row, rest, newRow) && NodesSoFar(nodes, newRow, moreNodes)
    requires rest <= row && r in rest && Tree.InNetwork(k, r) && r.height == h > 1
    ensures RowSoFar(k, h, row, rest - {r}, newRow + Children(r))
    ensures NodesSoFar(nodes, newRow + Children(r), moreNodes + set c | c in Children(r) :: RouterNode(TreeAt(c)))
  {
    hide Tree.InNetwork, Children;
    TheChildren(k, r);
  }

  lemma {:induction false} RowIsWhole(k: nat, h: nat, row: set<Tree.Router>, newRow: set<Tree.Router>,
                                      nodes: set<Node>, moreNodes: set<Node>)
    requires 1 < h <= k && WholeRow(k, h, row) && RoutersDownTo(k, h, nodes)
    requires RowSoFar(k, h, row, {}, newRow) && NodesSoFar(nodes, newRow, moreNodes)
    ensures WholeRow(k, h - 1, newRow) && RoutersDownTo(k, h - 1, moreNodes)
  {
    hide Tree.InNetwork;
    ParentsInRow(k, h, row);
  }

  lemma {:induction false} NotYetLinked(k: nat, h: nat, rest: set<Tree.Router>,
                                        links: map<RouterId, seq<Option<Node>>>, r: Tree.Router)
    requires LinkedDownTo(k, h, rest, links) && r in rest && r.height == h && Tree.InNetwork(k, r) && TreeAt(r) in links
    ensures links[TreeAt(r)] == TreeLinks(k, r, 0)
  {
  }

  lemma {:induction false} StillLinked(k: nat, h: nat, rest: set<Tree.Router>, links: map<RouterId, seq<Option<Node>>>,
                                       r: Tree.Router, links': map<RouterId, seq<Option<Node>>>)
    requires LinkedDownTo(k, h, rest, links) && r in rest && r.height == h && h > 1 && Tree.InNetwork(k, r)
    requires forall id :: id in links' <==> id in links || id == TreeAt(r) || (id.TreeAt? && id.router in Children(r))
    requires forall id :: id in links && id != TreeAt(r) && !(id.TreeAt? && id.router in Children(r)) ==>
        links'[id] == links[id]
    requires forall c :: c in Children(r) ==> Tree.InNetwork(k, c) && links'[TreeAt(c)] == TreeLinks(k, c, 0)
    requires TreeAt(r) in links' && links'[TreeAt(r)] == TreeLinks(k, r, 4)
    ensures LinkedDownTo(k, h, rest - {r}, links')
  {
    hide Tree.InNetwork, TreeLinks;
  }

  /** A row whose routers have all their children; the children have none. */
  lemma {:induction false} RowLinked(k: nat, h: nat, newRow: set<Tree.Router>, links: map<RouterId, seq<Option<Node>>>)
    requires h > 1 && LinkedDownTo(k, h, {}, links) && WholeRow(k, h - 1, newRow)
    ensures LinkedDownTo(k, h - 1, newRow, links)
  {
    hide Tree.InNetwork, TreeLinks;
  }

  lemma {:induction false} TheChildren(k: nat, r: Tree.Router)
    requires Tree.InNetwork(k, r) && r.height > 1
    ensures forall c :: c in Children(r) <==> Tree.Parent(c) == r && Tree.InNetwork(k, c) && c.height == r.height - 1
  {
    forall c | c in Children(r)
      ensures Tree.Parent(c) == r && Tree.InNetwork(k, c) && c.height == r.height - 1
    {
      assert c.index / 4 == r.index;
      assert Tree.Up(c.index, k - c.height) == Tree.Up(c.index / 4, k - r.height);
    }
    forall c | Tree.Parent(c) == r
      ensures c in Children(r)
    {
      ChildOfItsParent(c);
    }
  }

  /** Four hosts below each router of the lowest row. */
  method AddHosts(k: nat, routers: map<RouterId, Router>, row: set<Tree.Router>, nodes: set<Node>)
    returns (more: set<Node>)
    requires k >= 1 && WholeRow(k, 1, row) && RoutersDownTo(k, 1, nodes)
    requires Fresh(routers, Tree.PORTS) && LinkedDownTo(k, 1, row, Links(routers))
    requires forall r :: Tree.InNetwork(k, r) ==> TreeAt(r) in routers
    modifies routers.Values
    ensures Fresh(routers, Tree.PORTS) && LinkedDownTo(k, 1, {}, Links(routers))
    ensures forall node :: node in more <==> NodeExists(TreeNet(k), node)
  {
    hide Fresh, Tree.Up, Tree.InNetwork, Tree.HostAddress, TreeLinks, LinkedDownTo;
    more := nodes;
    var rest := row;
    while rest != {}
      invariant rest <= row && Fresh(routers, Tree.PORTS) && LinkedDownTo(k, 1, rest, Links(routers))
      invariant forall node :: node in more <==>
                  node in nodes || (node.HostNode? && Tree.Router(1, node.addr / 4) in row - rest)
      decreases rest
    {
      var r :| r in rest;
      ghost var links := Links(routers);
      NotYetLinked(k, 1, rest, links, r);
      AttachHosts(routers, k, r);
      OneMoreLinked(k, 1, rest, links, r);
      rest := rest - {r};
      var hosts := {HostNode(4 * r.index), HostNode(4 * r.index + 1), HostNode(4 * r.index + 2),
        HostNode(4 * r.index + 3)};
      forall node: Node
        ensures node in hosts <==> node.HostNode? && Tree.Router(1, node.addr / 4) == r
      {
      }
      more := more + hosts;
    }
    forall node: Node
      ensures node in more <==> NodeExists(TreeNet(k), node)
    {
      if node.HostNode? {
        HostsOfRouter(k, node.addr);
      } else if node.id.TreeAt? && Tree.InNetwork(k, node.id.router) {
        AtLeastOne(k, node.id.router);
      }
    }
  }

  lemma {:induction false} OneMoreLinked(k: nat, h: nat, rest: set<Tree.Router>,
                                         links: map<RouterId, seq<Option<Node>>>,
                                         r: Tree.Router)
    requires LinkedDownTo(k, h, rest, links) && r in rest && r.height == h && Tree.InNetwork(k, r)
    ensures LinkedDownTo(k, h, rest - {r}, links[TreeAt(r) := TreeLinks(k, r, 4)])
  {
    hide Tree.InNetwork, TreeLinks;
  }

  method AttachHosts(routers: map<RouterId, Router>, k: nat, r: Tree.Router)
    requires Fresh(routers, Tree.PORTS) && Tree.InNetwork(k, r) && r.height == 1 && TreeAt(r) in routers
    requires Links(routers)[TreeAt(r)] == TreeLinks(k, r, 0)
    modifies routers[TreeAt(r)]
    ensures Fresh(routers, Tree.PORTS) && Links(routers) == old(Links(routers))[TreeAt(r) := TreeLinks(k, r, 4)]
  {
    hide Fresh, Tree.Up, Tree.InNetwork, TreeLinks, Tree.DigitPort;
    for i := 0 to 4
      invariant Fresh(routers, Tree.PORTS) && Links(routers) == old(Links(routers))[TreeAt(r) := TreeLinks(k, r, i)]
    {
      var addr := 4 * r.index + i;
      OneMoreTreeHost(k, r, i);
      var port := Tree.DigitPort(r, addr);
      if port <= 3 {
        assert Links(routers)[TreeAt(r)] == TreeLinks(k, r, i);
        AttachTo(routers, TreeAt(r), port, HostNode(addr), Tree.PORTS);
      }
    }
  }

  lemma {:induction false} OneMoreTreeHost(k: nat, r: Tree.Router, i: nat)
    requires Tree.InNetwork(k, r) && r.height == 1 && i < 4
    ensures |TreeLinks(k, r, i)| == Tree.PORTS && Tree.DigitPort(r, 4 * r.index + i) == i
    ensures TreeLinks(k, r, i + 1) == TreeLinks(k, r, i)[i := Some(HostNode(4 * r.index + i))]
  {
    var addr := 4 * r.index + i;
    Tree.UpZero(addr);
    Tree.UpStep(addr, 0);
    assert addr / 4 == r.index && addr % 4 == i;
  }

  lemma {:induction false} HostsOfRouter(k: nat, addr: nat)
    requires k >= 1
    ensures Tree.HostAddress(k, addr) <==> Tree.InNetwork(k, Tree.Router(1, addr / 4))
  {
    assert Tree.Up(addr, k) == Tree.Up(addr / 4, k - 1);
  }

  lemma {:induction false} AtLeastOne(k: nat, r: Tree.Router)
    requires Tree.InNetwork(k, r)
    ensures r.height >= 1
  {
  }

  lemma {:induction false} AllAtLeastOne(k: nat)
    ensures forall r :: Tree.InNetwork(k, r) ==> r.height >= 1
  {
  }

  lemma {:induction false} ParentsInRow(k: nat, h: nat, row: set<Tree.Router>)
    requires 1 < h <= k && forall r :: Tree.InNetwork(k, r) && r.height == h ==> r in row
    ensures forall c :: Tree.InNetwork(k, c) && c.height == h - 1 ==> Tree.Parent(c) in row
  {
    hide Tree.Up;
    forall c | Tree.InNetwork(k, c) && c.height == h - 1
      ensures Tree.Parent(c) in row
    {
      TreeParentExists(k, c);
    }
  }

  lemma {:induction false} OnlyRoot(k: nat)
    ensures k >= 1 ==> Tree.InNetwork(k, Tree.Router(k, 0))
    ensures forall r :: Tree.InNetwork(k, r) && r.height >= k ==> r == Tree.Router(k, 0)
  {
    hide Tree.Up;
    Tree.UpZero(0);
    forall r | Tree.InNetwork(k, r) && r.height >= k
      ensures r == Tree.Router(k, 0)
    {
      Tree.UpZero(r.index);
    }
  }
}
