/** Hierarchical netlists, the flat netlists made from them, and what each of the two means
    (legacy-branches/old-pcb/drc.php). Names are path components: none contains a slash. */
module Netlist {
  import opened Options


  type Name = string

  type Path = seq<Name>

  /** A net as a module names it: one of its own wires, or a supply constant. */
  datatype Ref = Supply(value: Name) | Wire(name: Name)

  /** A net of the flat netlist: a wire by its path from the top, or a supply net "/supply/...",
      which is the same net everywhere. */
  datatype Net = Global(value: Name) | Local(path: Path)

  datatype Cell<R> = Cell(kind: Name, pins: map<Name, R>)

  datatype WireInfo = WireInfo(width: int, direction: Name)

  datatype Module = Module(wires: map<Name, WireInfo>, cells: map<Name, Cell<Ref>>, connects: map<Name, Ref>,
                           top: bool, blackbox: bool)

  type Library = map<Name, Module>

  /** Primitive and black-box cells are kept, every other cell is replaced by its contents. */
  predicate Expandable(lib: Library, kind: Name) {
    kind in lib && !lib[kind].blackbox
  }

  /** The flat name of a net that the module instantiated at path `q` calls `r`. */
  function In(q: Path, r: Ref): Net {
    match r
    case Supply(v) => Global(v)
    case Wire(w) => Local(q + [w])
  }

  function Placed(q: Path, cell: Cell<Ref>): Cell<Net> {
    Cell(cell.kind, map n | n in cell.pins :: In(q, cell.pins[n]))
  }

  // ----- the hierarchy

  /** The instance at a path from the top, as its parent module declares it. */
  function CellAt(lib: Library, top: Module, q: Path): Option<Cell<Ref>>
    decreases |q|
  {
    if |q| == 0 then None
    else
      var n := q[|q| - 1];
      if |q| == 1 then if n in top.cells then Some(top.cells[n]) else None
      else
        match CellAt(lib, top, q[..|q| - 1])
        case None => None
        case Some(parent) =>
          if Expandable(lib, parent.kind) && n in lib[parent.kind].cells then Some(lib[parent.kind].cells[n]) else None
  }

  predicate LeafAt(lib: Library, top: Module, q: Path) {
    var c := CellAt(lib, top, q);
    c.Some? && !Expandable(lib, c.value.kind)
  }

  predicate ModuleAt(lib: Library, top: Module, q: Path) {
    var c := CellAt(lib, top, q);
    c.Some? && Expandable(lib, c.value.kind)
  }

  /** The net a reference denotes inside the module instance at path `q`: a port of the instance
      is whatever its parent connects to it. */
  function Meaning(lib: Library, top: Module, q: Path, r: Ref): Net
    decreases |q|
  {
    match r
    case Supply(v) => Global(v)
    case Wire(w) =>
      if |q| == 0 then Local([w])
      else
        match CellAt(lib, top, q)
        case Some(inst) => if w in inst.pins then Meaning(lib, top, q[..|q| - 1], inst.pins[w]) else Local(q + [w])
        case None => Local(q + [w])
  }

  // ----- the flat netlist

  /** What recursive elaboration of the hierarchy yields: the leaf cells under their paths, the wires of
      every instance, and one connection for every port of every instance besides the top's own. */
  ghost predicate Elaborated(lib: Library, top: Module,
                             cells: map<Path, Cell<Net>>, wires: map<Path, WireInfo>, connections: map<Path, Net>)
  {
    && (forall q :: q in cells <==> LeafAt(lib, top, q))
    && (forall q :: q in cells ==> cells[q] == Placed(q[..|q| - 1], CellAt(lib, top, q).value))
    && (forall q, w :: q + [w] in wires <==> HasWire(lib, top, q, w))
    && (forall q, w :: q + [w] in wires ==> wires[q + [w]] == WireOf(lib, top, q, w))
    && (forall q, n :: q + [n] in connections <==> HasPort(lib, top, q, n))
    && (forall q, n :: q + [n] in connections ==> connections[q + [n]] == PortNet(lib, top, q, n))
    && [] !in wires && [] !in connections
  }

  predicate HasWire(lib: Library, top: Module, q: Path, w: Name) {
    if q == [] then w in top.wires else ModuleAt(lib, top, q) && w in lib[CellAt(lib, top, q).value.kind].wires
  }

  function WireOf(lib: Library, top: Module, q: Path, w: Name): WireInfo
    requires HasWire(lib, top, q, w)
  {
    if q == [] then top.wires[w] else lib[CellAt(lib, top, q).value.kind].wires[w]
  }

  predicate HasPort(lib: Library, top: Module, q: Path, n: Name) {
    if q == [] then n in top.connects else ModuleAt(lib, top, q) && n in CellAt(lib, top, q).value.pins
  }

  function PortNet(lib: Library, top: Module, q: Path, n: Name): Net
    requires HasPort(lib, top, q, n)
  {
    if q == [] then In([], top.connects[n]) else In(q[..|q| - 1], CellAt(lib, top, q).value.pins[n])
  }

  /** Follows port connections upwards; each leads to a shorter path. */
  function Chase(connections: map<Path, Net>, net: Net): Net
    decreases match net case Global(_) => 0 case Local(p) => |p|
  {
    match net
    case Global(_) => net
    case Local(p) =>
      if |p| >= 2 && p in connections then
        var up := connections[p];
        if up.Global? || |up.path| < |p| then Chase(connections, up) else net
      else net
  }

  /** Two nets joined by a chain of connections, used in either direction. */
  ghost predicate Connected(connections: map<Path, Net>, a: Net, b: Net) {
    exists chain: seq<Net> :: Chain(connections, chain, a, b)
  }

  ghost predicate Chain(connections: map<Path, Net>, chain: seq<Net>, a: Net, b: Net) {
    && |chain| > 0 && chain[0] == a && chain[|chain| - 1] == b
    && forall i :: 0 <= i < |chain| - 1 ==> Joined(connections, chain[i], chain[i + 1])
  }

  predicate Joined(connections: map<Path, Net>, a: Net, b: Net) {
    || (a.Local? && a.path in connections && connections[a.path] == b)
    || (b.Local? && b.path in connections && connections[b.path] == a)
  }

  /** The entries of a module's table, filed under the paths of an instance at `p`. */
  function Below<V>(p: Path, m: map<Name, V>): map<Path, V> {
    map r: Path | r in (set n | n in m :: p + [n]) :: m[r[|r| - 1]]
  }

  predicate OneBelow(p: Path, r: Path) {
    |r| == |p| + 1 && r[..|p|] == p
  }

  lemma {:induction false} BelowHas<V>(p: Path, m: map<Name, V>, r: Path)
    ensures r in Below(p, m) <==> OneBelow(p, r) && r[|p|] in m
    ensures r in Below(p, m) ==> Below(p, m)[r] == m[r[|p|]]
  {
    if OneBelow(p, r) && r[|p|] in m {
      assert r == p + [r[|p|]];
    }
  }

  /** The top module's own connections. */
  function TopConnections(top: Module): map<Path, Net> {
    Below([], map n | n in top.connects :: In([], top.connects[n]))
  }

  lemma {:induction false} TopConnectionsHas(top: Module, p: Path)
    ensures p in TopConnections(top) <==> |p| == 1 && p[0] in top.connects
    ensures p in TopConnections(top) ==> TopConnections(top)[p] == In([], top.connects[p[0]])
  {
    hide Below;
    BelowHas([], map n | n in top.connects :: In([], top.connects[n]), p);
  }

  /** The net a leaf pin is on, in the hierarchy. */
  function PinMeaning(lib: Library, top: Module, q: Path, n: Name): Net
    requires LeafAt(lib, top, q) && n in CellAt(lib, top, q).value.pins
  {
    Meaning(lib, top, q[..|q| - 1], CellAt(lib, top, q).value.pins[n])
  }

  // ----- the flat netlist means what the hierarchy means

  /** Chasing a reference through the flat connections gives its meaning in the hierarchy. */
  lemma {:induction false} ChaseIsMeaning(lib: Library, top: Module, cells: map<Path, Cell<Net>>,
                                          wires: map<Path, WireInfo>,
                                          connections: map<Path, Net>, q: Path, r: Ref)
    requires Elaborated(lib, top, cells, wires, connections)
    requires q == [] || ModuleAt(lib, top, q)
    ensures Chase(connections, In(q, r)) == Meaning(lib, top, q, r)
    decreases |q|
  {
    if r.Wire? && q != [] {
      var parent := q[..|q| - 1];
      assert q + [r.name] in connections <==> HasPort(lib, top, q, r.name);
      if HasPort(lib, top, q, r.name) {
        var up := CellAt(lib, top, q).value.pins[r.name];
        ParentIsModule(lib, top, q);
        ChaseIsMeaning(lib, top, cells, wires, connections, parent, up);
      }
    }
  }

  lemma {:induction false} ParentIsModule(lib: Library, top: Module, q: Path)
    requires CellAt(lib, top, q).Some?
    ensures |q| > 0 && (q[..|q| - 1] == [] || ModuleAt(lib, top, q[..|q| - 1]))
  {
  }

  lemma {:induction false} ConnectedSelf(connections: map<Path, Net>, a: Net)
    ensures Connected(connections, a, a)
  {
    assert Chain(connections, [a], a, a);
  }

  lemma {:induction false} ConnectedStep(connections: map<Path, Net>, a: Net, b: Net, c: Net)
    requires Joined(connections, a, b) && Connected(connections, b, c)
    ensures Connected(connections, a, c)
  {
    var chain: seq<Net> :| Chain(connections, chain, b, c);
    var longer := [a] + chain;
    forall i | 0 <= i < |longer| - 1
      ensures Joined(connections, longer[i], longer[i + 1])
    {
      if i > 0 {
        assert longer[i] == chain[i - 1] && longer[i + 1] == chain[i];
      }
    }
    assert Chain(connections, longer, a, c);
  }

  lemma {:induction false} ConnectedTrans(connections: map<Path, Net>, chain: seq<Net>, a: Net, b: Net, c: Net)
    requires Chain(connections, chain, a, b) && Connected(connections, b, c)
    ensures Connected(connections, a, c)
    decreases |chain|
  {
    if |chain| > 1 {
      var rest := chain[1..];
      assert Chain(connections, rest, chain[1], b);
      ConnectedTrans(connections, rest, chain[1], b, c);
      ConnectedStep(connections, a, chain[1], c);
    }
  }

  lemma {:induction false} ConnectedSym(connections: map<Path, Net>, a: Net, b: Net)
    requires Connected(connections, a, b)
    ensures Connected(connections, b, a)
  {
    var chain: seq<Net> :| Chain(connections, chain, a, b);
    var n := |chain|;
    var back := seq(n, i requires 0 <= i < n => chain[n - 1 - i]);
    forall i | 0 <= i < n - 1
      ensures Joined(connections, back[i], back[i + 1])
    {
      assert back[i] == chain[n - 1 - i] && back[i + 1] == chain[n - 2 - i];
      assert Joined(connections, chain[n - 2 - i], chain[n - 2 - i + 1]);
    }
    assert Chain(connections, back, b, a);
  }

  /** Every net is connected to what it chases to. */
  lemma {:induction false} ConnectedToChase(connections: map<Path, Net>, net: Net)
    ensures Connected(connections, net, Chase(connections, net))
    decreases match net case Global(_) => 0 case Local(p) => |p|
  {
    ConnectedSelf(connections, net);
    if net.Local? && |net.path| >= 2 && net.path in connections {
      var up := connections[net.path];
      if up.Global? || |up.path| < |net.path| {
        ConnectedToChase(connections, up);
        ConnectedStep(connections, net, up, Chase(connections, up));
      }
    }
  }

  /** A single flat connection either is invisible after chasing or is one of the top's own. */
  lemma {:induction false} JoinedChased(lib: Library, top: Module, cells: map<Path, Cell<Net>>,
                                        wires: map<Path, WireInfo>,
                                        connections: map<Path, Net>, a: Net, b: Net)
    requires Elaborated(lib, top, cells, wires, connections)
    requires a.Local? && a.path in connections && connections[a.path] == b
    ensures Chase(connections, a) == Chase(connections, b)
         || Joined(TopConnections(top), Chase(connections, a), Chase(connections, b))
  {
    var p := a.path;
    var q, n := p[..|p| - 1], p[|p| - 1];
    assert p == q + [n];
    assert HasPort(lib, top, q, n) && b == PortNet(lib, top, q, n);
    if q == [] {
      assert p == [n];
      TopConnectionsHas(top, p);
      assert b.Global? || |b.path| == 1;
    }
  }

  lemma {:induction false} ChainChased(lib: Library, top: Module, cells: map<Path, Cell<Net>>,
                                       wires: map<Path, WireInfo>,
                                       connections: map<Path, Net>, chain: seq<Net>, a: Net, b: Net)
    requires Elaborated(lib, top, cells, wires, connections) && Chain(connections, chain, a, b)
    ensures Connected(TopConnections(top), Chase(connections, a), Chase(connections, b))
    decreases |chain|
  {
    hide Elaborated, Chase, TopConnections;
    if |chain| == 1 {
      ConnectedSelf(TopConnections(top), Chase(connections, a));
    } else {
      var next := chain[1];
      assert Joined(connections, chain[0], chain[1]);
      assert Chain(connections, chain[1..], next, b);
      ChainChased(lib, top, cells, wires, connections, chain[1..], next, b);
      if a.Local? && a.path in connections && connections[a.path] == next {
        JoinedChased(lib, top, cells, wires, connections, a, next);
      } else {
        JoinedChased(lib, top, cells, wires, connections, next, a);
      }
      if Chase(connections, a) != Chase(connections, next) {
        ConnectedStep(TopConnections(top), Chase(connections, a), Chase(connections, next), Chase(connections, b));
      }
    }
  }

  lemma {:induction false} TopChainIsFlat(lib: Library, top: Module, cells: map<Path, Cell<Net>>,
                                          wires: map<Path, WireInfo>,
                                          connections: map<Path, Net>, a: Net, b: Net)
    requires Elaborated(lib, top, cells, wires, connections) && Connected(TopConnections(top), a, b)
    ensures Connected(connections, a, b)
  {
    var chain: seq<Net> :| Chain(TopConnections(top), chain, a, b);
    forall i | 0 <= i < |chain| - 1
      ensures Joined(connections, chain[i], chain[i + 1])
    {
      assert Joined(TopConnections(top), chain[i], chain[i + 1]);
      forall p | p in TopConnections(top)
        ensures p in connections && connections[p] == TopConnections(top)[p]
      {
        TopConnectionsHas(top, p);
        assert p == [] + [p[0]];
        assert HasPort(lib, top, [], p[0]);
      }
    }
    assert Chain(connections, chain, a, b);
  }

  /** Two leaf pins are on the same net in the flat netlist exactly when they are in the hierarchy:
      when their meanings are joined by the top module's own connections. */
  lemma {:induction false} SamePinsConnected(lib: Library, top: Module, cells: map<Path, Cell<Net>>,
                                             wires: map<Path, WireInfo>,
                                             connections: map<Path, Net>, q1: Path, n1: Name, q2: Path, n2: Name)
    requires Elaborated(lib, top, cells, wires, connections)
    requires LeafAt(lib, top, q1) && n1 in CellAt(lib, top, q1).value.pins
    requires LeafAt(lib, top, q2) && n2 in CellAt(lib, top, q2).value.pins
    ensures q1 in cells && n1 in cells[q1].pins && q2 in cells && n2 in cells[q2].pins
    ensures Connected(connections, cells[q1].pins[n1], cells[q2].pins[n2])
       <==> Connected(TopConnections(top), PinMeaning(lib, top, q1, n1), PinMeaning(lib, top, q2, n2))
  {
    hide Chase, TopConnections, Connected, CellAt, Meaning;
    var a, b := cells[q1].pins[n1], cells[q2].pins[n2];
    PinChased(lib, top, cells, wires, connections, q1, n1);
    PinChased(lib, top, cells, wires, connections, q2, n2);
    FlatIffTop(lib, top, cells, wires, connections, a, b);
  }

  lemma {:induction false} PinChased(lib: Library, top: Module, cells: map<Path, Cell<Net>>, wires: map<Path, WireInfo>,
                                     connections: map<Path, Net>, q: Path, n: Name)
    requires Elaborated(lib, top, cells, wires, connections)
    requires LeafAt(lib, top, q) && n in CellAt(lib, top, q).value.pins
    ensures q in cells && n in cells[q].pins
    ensures Chase(connections, cells[q].pins[n]) == PinMeaning(lib, top, q, n)
  {
    hide Chase, CellAt, Meaning;
    ParentIsModule(lib, top, q);
    ChaseIsMeaning(lib, top, cells, wires, connections, q[..|q| - 1], CellAt(lib, top, q).value.pins[n]);
  }

  lemma {:induction false} FlatIffTop(lib: Library, top: Module, cells: map<Path, Cell<Net>>,
                                      wires: map<Path, WireInfo>,
                                      connections: map<Path, Net>, a: Net, b: Net)
    requires Elaborated(lib, top, cells, wires, connections)
    ensures Connected(connections, a, b) <==>
        Connected(TopConnections(top), Chase(connections, a), Chase(connections, b))
  {
    hide Elaborated, Chase, TopConnections, Chain;
    var ca, cb := Chase(connections, a), Chase(connections, b);
    if Connected(connections, a, b) {
      var chain: seq<Net> :| Chain(connections, chain, a, b);
      ChainChased(lib, top, cells, wires, connections, chain, a, b);
    }
    if Connected(TopConnections(top), ca, cb) {
      TopChainIsFlat(lib, top, cells, wires, connections, ca, cb);
      ConnectedToChase(connections, a);
      ConnectedToChase(connections, b);
      ConnectedSym(connections, b, cb);
      var second: seq<Net> :| Chain(connections, second, ca, cb);
      ConnectedTrans(connections, second, ca, cb, b);
      var first: seq<Net> :| Chain(connections, first, a, ca);
      ConnectedTrans(connections, first, a, ca, b);
    }
  }
}
