/** FlattenNetlist of legacy-branches/old-pcb/drc.php: pass after pass, every instance of a module in the
    library is replaced by the module's contents until a pass changes nothing. */
module Flatten {
  import opened Netlist
  import opened FlatMeaning
  import opened Options
  import opened Collections

  /** A flattening in progress, relative to the hierarchy it started from: the cells present, and the wires
      and connections of exactly those instances that have been opened. */
  ghost predicate InProgress(lib: Library, top: Module, live: map<Path, Cell<Net>>,
                             wires: map<Path, WireInfo>, connections: map<Path, Net>)
  {
    && LiveCells(lib, top, live)
    && (forall q, w :: q + [w] in wires <==> HasWire(lib, top, q, w) && Opened(live, q))
    && (forall q, w :: q + [w] in wires ==> wires[q + [w]] == WireOf(lib, top, q, w))
    && (forall q, n :: q + [n] in connections <==> HasPort(lib, top, q, n) && Opened(live, q))
    && (forall q, n :: q + [n] in connections ==> connections[q + [n]] == PortNet(lib, top, q, n))
    && [] !in wires && [] !in connections
  }

  /** Cells are placed as the hierarchy says, none lies below another, and none is missing. */
  ghost predicate LiveCells(lib: Library, top: Module, live: map<Path, Cell<Net>>) {
    && (forall p :: p in live ==>
       CellAt(lib, top, p).Some? && live[p] == Placed(p[..|p| - 1], CellAt(lib, top, p).value))
    && (forall q :: LeafAt(lib, top, q) ==> !Opened(live, q))
    && (forall a, b :: a in live && b in live && a <= b ==> a == b)
  }

  /** Neither a cell still present nor below one. */
  ghost predicate Opened(live: map<Path, Cell<Net>>, q: Path) {
    forall p :: p in live ==> !(p <= q)
  }

  /** The contents of an instance of `kind` at path `p`. */
  function NewWires(lib: Library, p: Path, kind: Name): map<Path, WireInfo>
    requires kind in lib
  {
    Below(p, lib[kind].wires)
  }

  function NewCells(lib: Library, p: Path, kind: Name): map<Path, Cell<Net>>
    requires kind in lib
  {
    Below(p, map c | c in lib[kind].cells :: Placed(p, lib[kind].cells[c]))
  }

  lemma {:induction false} NewCellsHas(lib: Library, p: Path, kind: Name, r: Path)
    requires kind in lib
    ensures r in NewCells(lib, p, kind) <==> OneBelow(p, r) && r[|p|] in lib[kind].cells
    ensures r in NewCells(lib, p, kind) ==> NewCells(lib, p, kind)[r] == Placed(p, lib[kind].cells[r[|p|]])
  {
    hide Below, OneBelow, Placed;
    BelowHas(p, map c | c in lib[kind].cells :: Placed(p, lib[kind].cells[c]), r);
  }

  lemma {:induction false} PrefixOneBelow(p: Path, r: Path, q: Path)
    requires OneBelow(p, r)
    ensures r <= q ==> p <= q
    ensures q <= r ==> q <= p || q == r
    ensures p <= r && !(r <= p) && r != p
  {
    if q <= r && |q| <= |p| {
      assert q == r[..|q|] == p[..|q|];
    }
  }

  lemma {:induction false} AncestorsExist(lib: Library, top: Module, q: Path, k: nat)
    requires CellAt(lib, top, q).Some? && 1 <= k <= |q|
    ensures CellAt(lib, top, q[..k]).Some?
    ensures k < |q| ==> ModuleAt(lib, top, q[..k]) && q[k] in lib[CellAt(lib, top, q[..k]).value.kind].cells
    decreases |q|
  {
    if k == |q| {
      assert q[..k] == q;
    } else {
      var parent := q[..|q| - 1];
      AncestorsExist(lib, top, parent, k);
      assert parent[..k] == q[..k];
      if k < |parent| {
        assert parent[k] == q[k];
      } else {
        assert parent == q[..k];
      }
    }
  }

  /** Opening a cell makes it, and no other instance, an opened one. */
  lemma {:induction false} OpenedNext(lib: Library, top: Module, live: map<Path, Cell<Net>>, p: Path, q: Path)
    requires LiveCells(lib, top, live) && p in live && Expandable(lib, live[p].kind)
    requires q == [] || CellAt(lib, top, q).Some?
    ensures Opened(live - {p} + NewCells(lib, p, live[p].kind), q) <==> Opened(live, q) || q == p
  {
    hide CellAt, NewCells, OneBelow;
    var added := NewCells(lib, p, live[p].kind);
    var live' := live - {p} + added;
    forall a | a in added
      ensures a <= q ==> p <= q && q != p
    {
      NewCellsHas(lib, p, live[p].kind, a);
      PrefixOneBelow(p, a, q);
    }
    if q != p && !Opened(live, q) {
      var a :| a in live && a <= q;
      if a == p {
        ChildTowards(lib, top, live, p, q);
        assert q[..|p| + 1] in live' && q[..|p| + 1] <= q;
      } else {
        assert a in live';
      }
    }
  }

  lemma {:induction false} ChildTowards(lib: Library, top: Module, live: map<Path, Cell<Net>>, p: Path, q: Path)
    requires LiveCells(lib, top, live) && p in live && Expandable(lib, live[p].kind)
    requires CellAt(lib, top, q).Some? && p <= q && p != q
    ensures q[..|p| + 1] in NewCells(lib, p, live[p].kind)
  {
    hide CellAt;
    EmptyPath(lib, top);
    LiveIsPlaced(lib, top, live, p);
    AncestorsExist(lib, top, q, |p|);
    assert q[..|p|] == p;
    var c := q[..|p| + 1];
    assert c[..|p|] == p;
    NewCellsHas(lib, p, live[p].kind, c);
  }

  lemma {:induction false} ExpandKeepsCells(lib: Library, top: Module, live: map<Path, Cell<Net>>, p: Path)
    requires LiveCells(lib, top, live) && p in live && Expandable(lib, live[p].kind)
    ensures LiveCells(lib, top, live - {p} + NewCells(lib, p, live[p].kind))
  {
    hide CellAt, NewCells, OneBelow, Opened, Placed;
    var added := NewCells(lib, p, live[p].kind);
    var live' := live - {p} + added;
    forall a | a in live'
      ensures a != []
    {
      EmptyPath(lib, top);
      NewCellsHas(lib, p, live[p].kind, a);
      NotBelowEmpty(p);
    }
    forall a | a in live'
      ensures CellAt(lib, top, a).Some? && live'[a] == Placed(a[..|a| - 1], CellAt(lib, top, a).value)
    {
      if a in added {
        NewCellPlaced(lib, top, live, p, a);
      }
    }
    forall q | LeafAt(lib, top, q)
      ensures !Opened(live', q)
    {
      OpenedNext(lib, top, live, p, q);
      LiveIsPlaced(lib, top, live, p);
    }
    forall a, b | a in live' && b in live' && a <= b
      ensures a == b
    {
      NewCellsHas(lib, p, live[p].kind, a);
      NewCellsHas(lib, p, live[p].kind, b);
      if a in added && b in added {
        SameLength(p, a, b);
      } else if a in added {
        PrefixOneBelow(p, a, b);
      } else if b in added {
        PrefixOneBelow(p, b, a);
      }
    }
  }

  lemma {:induction false} NotBelowEmpty(p: Path)
    ensures !OneBelow(p, [])
  {
  }

  lemma {:induction false} SameLength(p: Path, a: Path, b: Path)
    requires OneBelow(p, a) && OneBelow(p, b) && a <= b
    ensures a == b
  {
  }

  lemma {:induction false} NewCellPlaced(lib: Library, top: Module, live: map<Path, Cell<Net>>, p: Path, a: Path)
    requires LiveCells(lib, top, live) && p in live && Expandable(lib, live[p].kind)
    requires a in NewCells(lib, p, live[p].kind)
    ensures CellAt(lib, top, a).Some?
    ensures NewCells(lib, p, live[p].kind)[a] == Placed(a[..|a| - 1], CellAt(lib, top, a).value)
  {
    hide NewCells, Opened;
    NewCellsHas(lib, p, live[p].kind, a);
    EmptyPath(lib, top);
    assert a[..|a| - 1] == p;
  }

  lemma {:induction false} LastOf(q: Path, n: Name, p: Path)
    ensures OneBelow(p, q + [n]) <==> p == q
    ensures (q + [n])[|q|] == n
  {
    if OneBelow(p, q + [n]) {
      assert (q + [n])[..|p|] == q;
    }
  }

  /** The connections an instance's pins turn into. */
  function NewConnections(p: Path, cell: Cell<Net>): map<Path, Net> {
    Below(p, cell.pins)
  }

  /** Replacing one instance by its module's contents keeps the flattening faithful. */
  lemma {:induction false} ExpandKeeps(lib: Library, top: Module, live: map<Path, Cell<Net>>,
                                       wires: map<Path, WireInfo>, connections: map<Path, Net>, p: Path)
    requires InProgress(lib, top, live, wires, connections) && p in live && Expandable(lib, live[p].kind)
    ensures InProgress(lib, top, live - {p} + NewCells(lib, p, live[p].kind),
                       wires + NewWires(lib, p, live[p].kind), connections + NewConnections(p, live[p]))
  {
    hide CellAt, LiveCells, Opened, Below, OneBelow, NewCells;
    var kind := live[p].kind;
    var live' := live - {p} + NewCells(lib, p, kind);
    ExpandKeepsCells(lib, top, live, p);
    LiveIsPlaced(lib, top, live, p);
    forall q, w
      ensures q + [w] in wires + NewWires(lib, p, kind) <==> HasWire(lib, top, q, w) && Opened(live', q)
      ensures q + [w] in wires + NewWires(lib, p, kind) ==>
          (wires + NewWires(lib, p, kind))[q + [w]] == WireOf(lib, top, q, w)
    {
      LastOf(q, w, p);
      BelowHas(p, lib[kind].wires, q + [w]);
      if HasWire(lib, top, q, w) {
        OpenedNext(lib, top, live, p, q);
      }
    }
    forall q, n
      ensures q + [n] in connections + NewConnections(p, live[p]) <==> HasPort(lib, top, q, n) && Opened(live', q)
      ensures q + [n] in connections + NewConnections(p, live[p])
          ==> (connections + NewConnections(p, live[p]))[q + [n]] == PortNet(lib, top, q, n)
    {
      LastOf(q, n, p);
      BelowHas(p, live[p].pins, q + [n]);
      if HasPort(lib, top, q, n) {
        OpenedNext(lib, top, live, p, q);
      }
    }
    forall r | r == []
      ensures r !in wires + NewWires(lib, p, kind) && r !in connections + NewConnections(p, live[p])
    {
      NotBelowEmpty(p);
      BelowHas(p, lib[kind].wires, r);
      BelowHas(p, live[p].pins, r);
    }
  }

  lemma {:induction false} LiveIsPlaced(lib: Library, top: Module, live: map<Path, Cell<Net>>, p: Path)
    requires LiveCells(lib, top, live) && p in live && Expandable(lib, live[p].kind)
    ensures p != [] && ModuleAt(lib, top, p) && live[p] == Placed(p[..|p| - 1], CellAt(lib, top, p).value)
    ensures !Opened(live, p)
  {
    assert p <= p;
  }

  /** When every cell present is a leaf, the flattening is the elaboration. */
  lemma {:induction false} DoneIsElaborated(lib: Library, top: Module, live: map<Path, Cell<Net>>,
                                            wires: map<Path, WireInfo>, connections: map<Path, Net>)
    requires InProgress(lib, top, live, wires, connections)
    requires forall p :: p in live ==> !Expandable(lib, live[p].kind)
    ensures Elaborated(lib, top, live, wires, connections)
  {
    hide CellAt;
    forall q
      ensures q in live <==> LeafAt(lib, top, q)
    {
      if LeafAt(lib, top, q) {
        var p :| p in live && p <= q;
        NothingBelowLeaf(lib, top, p, q);
      }
    }
    forall q | q == [] || ModuleAt(lib, top, q)
      ensures Opened(live, q)
    {
      forall p | p in live && p <= q
        ensures false
      {
        EmptyPath(lib, top);
        NothingBelowLeaf(lib, top, p, q);
      }
    }
  }

  lemma {:induction false} EmptyPath(lib: Library, top: Module)
    ensures CellAt(lib, top, []).None?
  {
  }

  lemma {:induction false} NothingBelowLeaf(lib: Library, top: Module, p: Path, q: Path)
    requires LeafAt(lib, top, p) && p <= q && CellAt(lib, top, q).Some?
    ensures p == q
  {
    hide CellAt;
    EmptyPath(lib, top);
    AncestorsExist(lib, top, q, |p|);
    PrefixIsTake(p, q);
  }

  lemma {:induction false} PrefixIsTake(p: Path, q: Path)
    requires p <= q
    ensures q[..|p|] == p && (|p| == |q| ==> p == q)
  {
  }

  // ----- the top module while it is being flattened

  /** The state between passes: after `n` of them, the instances opened are those at most `n` deep. */
  ghost predicate AtLevel(lib: Library, top: Module, live: map<Path, Cell<Net>>, n: nat) {
    forall q :: ModuleAt(lib, top, q) ==> (Opened(live, q) <==> |q| <= n)
  }

  /** In the middle of the next pass, the instances one deeper that it has come past are opened as well. */
  ghost predicate WithinLevel(lib: Library, top: Module, live: map<Path, Cell<Net>>, pending: map<Path, Cell<Net>>,
                              n: nat) {
    forall q :: ModuleAt(lib, top, q) ==> (Opened(live, q) <==> |q| <= n || (|q| == n + 1 && q !in pending))
  }

  /** Some instance `n` deep is of a module that is expanded. */
  ghost predicate Reaches(lib: Library, top: Module, n: nat) {
    exists q :: ModuleAt(lib, top, q) && |q| == n
  }

  function TopCells(top: Module): map<Path, Cell<Net>> {
    Below([], map c | c in top.cells :: Placed([], top.cells[c]))
  }

  /** An instance of a module that has connections of its own, which flattening does not support. */
  predicate Unsupported(lib: Library, top: Module, q: Path) {
    ModuleAt(lib, top, q) && lib[CellAt(lib, top, q).value.kind].connects != map[]
  }

  /** Some instance of module `kind` is one. */
  ghost predicate FailsAt(lib: Library, top: Module, kind: Name) {
    exists q :: Unsupported(lib, top, q) && CellAt(lib, top, q).value.kind == kind
  }

  /** The failing instances are those of a module that is opened and has connections of its own. */
  lemma {:induction false} FailuresAre(lib: Library, top: Module, kind: Name)
    ensures FailsAt(lib, top, kind) <==>
        kind in lib && !lib[kind].blackbox && lib[kind].connects != map[]
        && exists q :: CellAt(lib, top, q).Some? && CellAt(lib, top, q).value.kind == kind
  {
    hide CellAt;
    if kind in lib && !lib[kind].blackbox && lib[kind].connects != map[] {
      if q :| CellAt(lib, top, q).Some? && CellAt(lib, top, q).value.kind == kind {
        assert Unsupported(lib, top, q);
      }
    }
    if FailsAt(lib, top, kind) {
      var q :| Unsupported(lib, top, q) && CellAt(lib, top, q).value.kind == kind;
      assert CellAt(lib, top, q).Some? && kind in lib && !lib[kind].blackbox;
      assert lib[kind].connects != map[];
      assert exists x :: CellAt(lib, top, x).Some? && CellAt(lib, top, x).value.kind == kind;
    }
  }

  /** No instance opened so far is one. */
  ghost predicate PlainSoFar(lib: Library, top: Module, live: map<Path, Cell<Net>>) {
    forall q :: ModuleAt(lib, top, q) && Opened(live, q) ==> !Unsupported(lib, top, q)
  }

  lemma {:induction false} PlainStarts(lib: Library, top: Module)
    ensures PlainSoFar(lib, top, TopCells(top))
  {
    hide Opened, Unsupported, Expandable, CellAt;
    StartsOpened(lib, top);
  }

  lemma {:induction false} PlainStep(lib: Library, top: Module, live: map<Path, Cell<Net>>, p: Path)
    requires LiveCells(lib, top, live) && p in live && Expandable(lib, live[p].kind)
    requires PlainSoFar(lib, top, live) && !Unsupported(lib, top, p)
    ensures PlainSoFar(lib, top, live - {p} + NewCells(lib, p, live[p].kind))
  {
    hide Opened, Unsupported, Expandable, CellAt, LiveCells, NewCells;
    KnownModule(lib, live[p].kind);
    forall q | ModuleAt(lib, top, q) && Opened(live - {p} + NewCells(lib, p, live[p].kind), q)
      ensures !Unsupported(lib, top, q)
    {
      OpenedNext(lib, top, live, p, q);
    }
  }

  /** When only leaves are left every instance has been opened. */
  lemma {:induction false} PlainDone(lib: Library, top: Module, live: map<Path, Cell<Net>>)
    requires LiveCells(lib, top, live) && PlainSoFar(lib, top, live)
    requires forall p :: p in live ==> !Expandable(lib, live[p].kind)
    ensures forall q :: !Unsupported(lib, top, q)
  {
    hide CellAt, Expandable;
    forall q | ModuleAt(lib, top, q)
      ensures Opened(live, q)
    {
      forall p | p in live
        ensures !(p <= q)
      {
        if p <= q {
          NothingBelowLeaf(lib, top, p, q);
        }
      }
    }
  }

  /** A live cell of a module, as the hierarchy has it. */
  lemma {:induction false} LiveKind(lib: Library, top: Module, live: map<Path, Cell<Net>>, p: Path)
    requires LiveCells(lib, top, live) && p in live && Expandable(lib, live[p].kind)
    ensures ModuleAt(lib, top, p) && CellAt(lib, top, p).value.kind == live[p].kind && live[p].kind in lib
  {
    hide CellAt, LiveCells;
    LiveIsPlaced(lib, top, live, p);
  }

  class FlatModule {
    var wires: map<Path, WireInfo>
    var cells: map<Path, Cell<Net>>
    var connections: map<Path, Net>

    constructor (top: Module)
      ensures wires == Below([], top.wires) && cells == TopCells(top) && connections == TopConnections(top)
    {
      wires := Below([], top.wires);
      cells := TopCells(top);
      connections := TopConnections(top);
    }

    /** The next pass over the cells, after `n` passes: opens the instances `n + 1` deep, and fails at one of a module
        with connections of its own, which is not supported. */
    method Pass(lib: Library, ghost top: Module, ghost n: nat) returns (changed: bool, failure: Option<Name>)
      requires InProgress(lib, top, cells, wires, connections)
      requires AtLevel(lib, top, cells, n) && PlainSoFar(lib, top, cells)
      modifies this
      ensures failure.Some? ==> FailsAt(lib, top, failure.value)
      ensures failure.None? ==> InProgress(lib, top, cells, wires, connections) && PlainSoFar(lib, top, cells)
      ensures failure.None? ==> AtLevel(lib, top, cells, n + 1) && changed == Reaches(lib, top, n + 1)
      ensures failure.None? && !changed ==> forall p :: p in cells ==> !Expandable(lib, cells[p].kind)
    {
      hide *;
      changed := false;
      failure := None;
      var pending := cells;
      var newCells: map<Path, Cell<Net>> := map[];
      PassStarts(lib, top, n, cells, wires, connections);
      while pending != map[]
        invariant PassState(lib, top, n, pending, newCells, wires, connections, changed)
        decreases |pending|
      {
        var name :| name in pending;
        var cell := pending[name];
        if Expandable(lib, cell.kind) {
          PendingKind(lib, top, n, pending, newCells, wires, connections, changed, name);
          if lib[cell.kind].connects != map[] {
            failure := Some(cell.kind);
            return;
          }
          ExpandStep(lib, top, n, pending, newCells, wires, connections, changed, name);
          wires := wires + NewWires(lib, name, cell.kind);
          connections := connections + NewConnections(name, cell);
          newCells := newCells + NewCells(lib, name, cell.kind);
          changed := true;
        } else {
          KeepStep(lib, top, n, pending, newCells, wires, connections, changed, name);
          newCells := newCells[name := cell];
        }
        pending := pending - {name};
      }
      PassEnds(lib, top, n, newCells, wires, connections, changed);
      cells := newCells;
    }
  }

  lemma {:induction false} KnownModule(lib: Library, kind: Name)
    requires Expandable(lib, kind)
    ensures kind in lib
  {
  }

  /** In the middle of a pass: the cells still to be looked at and those already collected make up a
      faithful flattening, whose opened instances are those of the passes before and those come past. */
  ghost predicate PassState(lib: Library, top: Module, n: nat,
                            pending: map<Path, Cell<Net>>, newCells: map<Path, Cell<Net>>,
                            wires: map<Path, WireInfo>, connections: map<Path, Net>, changed: bool)
  {
    && pending.Keys !! newCells.Keys
    && InProgress(lib, top, pending + newCells, wires, connections)
    && WithinLevel(lib, top, pending + newCells, pending, n)
    && OnlyAt(lib, pending, n + 1)
    && changed == PastOne(lib, top, pending, n)
    && PlainSoFar(lib, top, pending + newCells)
  }

  ghost predicate PastOne(lib: Library, top: Module, pending: map<Path, Cell<Net>>, n: nat) {
    exists q :: ModuleAt(lib, top, q) && |q| == n + 1 && q !in pending
  }

  /** Nothing is to be expanded but cells `depth` deep. */
  ghost predicate OnlyAt(lib: Library, pending: map<Path, Cell<Net>>, depth: nat) {
    forall p :: p in pending && Expandable(lib, pending[p].kind) ==> |p| == depth
  }

  /** The cells still to be expanded after `n` passes are the instances one deeper. */
  lemma {:induction false} LevelCells(lib: Library, top: Module, live: map<Path, Cell<Net>>, n: nat, q: Path)
    requires LiveCells(lib, top, live) && AtLevel(lib, top, live, n)
    ensures q in live && Expandable(lib, live[q].kind) <==> ModuleAt(lib, top, q) && |q| == n + 1
  {
    hide CellAt, Expandable;
    if q in live && Expandable(lib, live[q].kind) {
      LiveIsPlaced(lib, top, live, q);
      if |q| > n + 1 {
        OpenedAbove(lib, top, live, q, n + 1);
        AncestorsExist(lib, top, q, n + 1);
      }
    } else if ModuleAt(lib, top, q) && |q| == n + 1 {
      var a :| a in live && a <= q;
      assert a == q[..|a|];
      EmptyPath(lib, top);
      if a != q {
        assert !Opened(live, a) by { assert a <= a; }
        AncestorsExist(lib, top, q, |a|);
      } else {
        KindPlaced(lib, top, live, q);
      }
    }
  }

  /** What lies above a cell that is present has been opened. */
  lemma {:induction false} OpenedAbove(lib: Library, top: Module, live: map<Path, Cell<Net>>, p: Path, k: nat)
    requires LiveCells(lib, top, live) && p in live && k < |p|
    ensures Opened(live, p[..k])
  {
    hide CellAt;
    forall a | a in live
      ensures !(a <= p[..k])
    {
      assert a <= p[..k] ==> a <= p && |a| < |p|;
    }
  }

  lemma {:induction false} KindPlaced(lib: Library, top: Module, live: map<Path, Cell<Net>>, p: Path)
    requires LiveCells(lib, top, live) && p in live
    ensures ModuleAt(lib, top, p) <==> Expandable(lib, live[p].kind)
  {
    hide CellAt, Opened;
  }

  lemma {:induction false} PassStarts(lib: Library, top: Module, n: nat, cells: map<Path, Cell<Net>>,
                                      wires: map<Path, WireInfo>, connections: map<Path, Net>)
    requires InProgress(lib, top, cells, wires, connections)
    requires AtLevel(lib, top, cells, n) && PlainSoFar(lib, top, cells)
    ensures PassState(lib, top, n, cells, map[], wires, connections, false)
  {
    hide InProgress, LiveCells, CellAt, Expandable, Opened;
    assert cells + map[] == cells;
    LiveOf(lib, top, cells, wires, connections);
    forall q
      ensures q in cells && Expandable(lib, cells[q].kind) <==> ModuleAt(lib, top, q) && |q| == n + 1
    {
      LevelCells(lib, top, cells, n, q);
    }
  }

  lemma {:induction false} PassEnds(lib: Library, top: Module, n: nat, newCells: map<Path, Cell<Net>>,
                                    wires: map<Path, WireInfo>, connections: map<Path, Net>, changed: bool)
    requires PassState(lib, top, n, map[], newCells, wires, connections, changed)
    ensures InProgress(lib, top, newCells, wires, connections) && PlainSoFar(lib, top, newCells)
    ensures AtLevel(lib, top, newCells, n + 1) && changed == Reaches(lib, top, n + 1)
    ensures !changed ==> forall p :: p in newCells ==> !Expandable(lib, newCells[p].kind)
  {
    hide InProgress, LiveCells, CellAt, Expandable, Opened;
    assert map[] + newCells == newCells;
    LiveOf(lib, top, newCells, wires, connections);
    if !changed {
      forall p | p in newCells
        ensures !Expandable(lib, newCells[p].kind)
      {
        LevelCells(lib, top, newCells, n + 1, p);
        if ModuleAt(lib, top, p) && |p| == n + 2 {
          AncestorsExist(lib, top, p, n + 1);
        }
      }
    }
  }

  lemma {:induction false} ExpandStep(lib: Library, top: Module, n: nat,
                                      pending: map<Path, Cell<Net>>, newCells: map<Path, Cell<Net>>,
                                      wires: map<Path, WireInfo>, connections: map<Path, Net>, changed: bool,
                                      name: Path)
    requires PassState(lib, top, n, pending, newCells, wires, connections, changed)
    requires name in pending && Expandable(lib, pending[name].kind) && !Unsupported(lib, top, name)
    ensures var kind := pending[name].kind;
            PassState(lib, top, n, pending - {name}, newCells + NewCells(lib, name, kind),
                      wires + NewWires(lib, name, kind), connections + NewConnections(name, pending[name]), true)
  {
    hide InProgress, LiveCells, NewCells, NewWires, NewConnections, Expandable, ModuleAt, Opened, PlainSoFar,
      WithinLevel;
    var cell := pending[name];
    KnownModule(lib, cell.kind);
    var live := pending + newCells;
    var added := NewCells(lib, name, cell.kind);
    assert live[name] == cell;
    LiveOf(lib, top, live, wires, connections);
    ExpandKeeps(lib, top, live, wires, connections, name);
    PlainStep(lib, top, live, name);
    Apart(lib, top, live, name);
    LevelStep(lib, top, live, pending, n, name);
    Rearrange(pending, newCells, added, name);
  }

  lemma {:induction false} LevelStep(lib: Library, top: Module, live: map<Path, Cell<Net>>,
                                     pending: map<Path, Cell<Net>>,
                                     n: nat, p: Path)
    requires LiveCells(lib, top, live) && WithinLevel(lib, top, live, pending, n)
    requires p in live && p in pending && |p| == n + 1 && Expandable(lib, live[p].kind)
    ensures live[p].kind in lib
    ensures WithinLevel(lib, top, live - {p} + NewCells(lib, p, live[p].kind), pending - {p}, n)
    ensures PastOne(lib, top, pending - {p}, n)
  {
    hide LiveCells, NewCells, Opened, CellAt;
    LiveIsPlaced(lib, top, live, p);
    forall q | ModuleAt(lib, top, q)
      ensures Opened(live - {p} + NewCells(lib, p, live[p].kind), q) <==> Opened(live, q) || q == p
    {
      OpenedNext(lib, top, live, p, q);
    }
  }

  /** The module of a cell about to be opened. */
  lemma {:induction false} PendingKind(lib: Library, top: Module, n: nat,
                                       pending: map<Path, Cell<Net>>, newCells: map<Path, Cell<Net>>,
                                       wires: map<Path, WireInfo>, connections: map<Path, Net>, changed: bool,
                                       name: Path)
    requires PassState(lib, top, n, pending, newCells, wires, connections, changed)
    requires name in pending && Expandable(lib, pending[name].kind)
    ensures pending[name].kind in lib && ModuleAt(lib, top, name)
    ensures CellAt(lib, top, name).value.kind == pending[name].kind
    ensures Unsupported(lib, top, name) <==> lib[pending[name].kind].connects != map[]
    ensures lib[pending[name].kind].connects != map[] ==> FailsAt(lib, top, pending[name].kind)
  {
    hide InProgress, LiveCells, Expandable, CellAt, PlainSoFar, WithinLevel;
    var live := pending + newCells;
    assert live[name] == pending[name];
    LiveOf(lib, top, live, wires, connections);
    LiveKind(lib, top, live, name);
  }

  lemma {:induction false} Rearrange<V>(pending: map<Path, V>, newCells: map<Path, V>, added: map<Path, V>, name: Path)
    requires pending.Keys !! newCells.Keys && added.Keys !! (pending + newCells).Keys && name in pending
    ensures (pending - {name}) + (newCells + added) == pending + newCells - {name} + added
    ensures (pending - {name}).Keys !! (newCells + added).Keys
    ensures (pending + newCells)[name] == pending[name]
  {
  }

  lemma {:induction false} KeepStep(lib: Library, top: Module, n: nat,
                                    pending: map<Path, Cell<Net>>, newCells: map<Path, Cell<Net>>,
                                    wires: map<Path, WireInfo>, connections: map<Path, Net>, changed: bool, name: Path)
    requires PassState(lib, top, n, pending, newCells, wires, connections, changed)
    requires name in pending && !Expandable(lib, pending[name].kind)
    ensures PassState(lib, top, n, pending - {name}, newCells[name := pending[name]], wires, connections, changed)
  {
    hide InProgress, LiveCells, Expandable, CellAt, Opened;
    assert (pending - {name}) + newCells[name := pending[name]] == pending + newCells;
    LiveOf(lib, top, pending + newCells, wires, connections);
    KindPlaced(lib, top, pending + newCells, name);
  }

  /** The contents of a cell never collide with cells already present. */
  lemma {:induction false} Apart(lib: Library, top: Module, live: map<Path, Cell<Net>>, p: Path)
    requires LiveCells(lib, top, live) && p in live && Expandable(lib, live[p].kind)
    ensures NewCells(lib, p, live[p].kind).Keys !! live.Keys
  {
    hide CellAt, NewCells, OneBelow, Opened;
    forall a | a in NewCells(lib, p, live[p].kind)
      ensures a !in live
    {
      NewCellsHas(lib, p, live[p].kind, a);
      PrefixOneBelow(p, a, a);
    }
  }

  lemma {:induction false} LiveOf(lib: Library, top: Module, live: map<Path, Cell<Net>>,
                                  wires: map<Path, WireInfo>, connections: map<Path, Net>)
    requires InProgress(lib, top, live, wires, connections)
    ensures LiveCells(lib, top, live)
  {
  }

  lemma {:induction false} StartsInProgress(lib: Library, top: Module)
    ensures InProgress(lib, top, TopCells(top), Below([], top.wires), TopConnections(top))
  {
    hide CellAt, Below, TopCells, TopConnections, LiveCells, Opened;
    StartsLive(lib, top);
    StartsOpened(lib, top);
    forall q: Path, w: Name
      ensures q + [w] in Below([], top.wires) <==> q == [] && w in top.wires
      ensures q + [w] in Below([], top.wires) ==> Below([], top.wires)[q + [w]] == top.wires[w]
      ensures q + [w] in TopConnections(top) <==> q == [] && w in top.connects
      ensures q + [w] in TopConnections(top) ==> TopConnections(top)[q + [w]] == In([], top.connects[w])
    {
      LastOf(q, w, []);
      BelowHas([], top.wires, q + [w]);
      TopConnectionsHas(top, q + [w]);
    }
    BelowHas([], top.wires, []);
    TopConnectionsHas(top, []);
  }

  lemma {:induction false} TopCellsHas(top: Module, r: Path)
    ensures r in TopCells(top) <==> |r| == 1 && r[0] in top.cells
    ensures r in TopCells(top) ==> TopCells(top)[r] == Placed([], top.cells[r[0]])
  {
    hide Below, Placed;
    BelowHas([], map c | c in top.cells :: Placed([], top.cells[c]), r);
  }

  /** Only the top itself is opened at the start. */
  lemma {:induction false} StartsOpened(lib: Library, top: Module)
    ensures Opened(TopCells(top), [])
    ensures forall q :: CellAt(lib, top, q).Some? ==> !Opened(TopCells(top), q)
  {
    hide CellAt, TopCells;
    TopCellsHas(top, []);
    forall q | CellAt(lib, top, q).Some?
      ensures !Opened(TopCells(top), q)
    {
      EmptyPath(lib, top);
      AncestorsExist(lib, top, q, 1);
      FirstCell(lib, top, q[..1]);
      TopCellsHas(top, q[..1]);
      assert q[..1] <= q;
    }
  }

  lemma {:induction false} FirstCell(lib: Library, top: Module, r: Path)
    requires |r| == 1
    ensures CellAt(lib, top, r) == if r[0] in top.cells then Some(top.cells[r[0]]) else None
  {
  }

  lemma {:induction false} StartsLive(lib: Library, top: Module)
    ensures LiveCells(lib, top, TopCells(top))
  {
    hide CellAt, TopCells, Opened, Placed;
    StartsOpened(lib, top);
    forall p | p in TopCells(top)
      ensures CellAt(lib, top, p).Some? && TopCells(top)[p] == Placed(p[..|p| - 1], CellAt(lib, top, p).value)
    {
      TopCellsHas(top, p);
      FirstCell(lib, top, p);
      assert p[..0] == [];
    }
    forall a, b | a in TopCells(top) && b in TopCells(top) && a <= b
      ensures a == b
    {
      TopCellsHas(top, a);
      TopCellsHas(top, b);
    }
  }

  /** The first module marked as top. */
  ghost predicate FirstTop(lib: Library, order: seq<Name>, name: Name)
    requires forall kind :: kind in order ==> kind in lib
  {
    name in lib && lib[name].top
    && exists k :: 0 <= k < |order| && order[k] == name && forall j :: 0 <= j < k ==> !lib[order[j]].top
  }

  // ----- when the passes come to an end

  /** Below the top an instance of a module contains an instance of the same module. */
  ghost predicate Cyclic(lib: Library, top: Module) {
    exists q, p :: Repeats(lib, top, q, p)
  }

  predicate Repeats(lib: Library, top: Module, q: Path, p: Path) {
    && p != [] && ModuleAt(lib, top, q) && ModuleAt(lib, top, q + p)
    && CellAt(lib, top, q).value.kind == CellAt(lib, top, q + p).value.kind
  }

  /** Module `kind` is instantiated below the top. */
  ghost predicate Contains(lib: Library, top: Module, kind: Name) {
    exists q :: ModuleAt(lib, top, q) && CellAt(lib, top, q).value.kind == kind
  }

  /** The passes end on the module `name`: no module contains itself, or, if one does and it is not this one, some
      instance has connections of its own. */
  ghost predicate PassesEnd(lib: Library, name: Name)
    requires name in lib
  {
    var top := lib[name];
    !Cyclic(lib, top) || (!Contains(lib, top, name) && exists q :: Unsupported(lib, top, q))
  }

  /** No pass can come `limit` deep without failing, or nothing is that deep. */
  ghost predicate EndsBy(lib: Library, top: Module, limit: nat) {
    || (forall q :: ModuleAt(lib, top, q) ==> |q| <= limit)
    || (exists q :: Unsupported(lib, top, q) && |q| <= limit)
  }

  lemma {:induction false} EndsBySome(lib: Library, top: Module) returns (limit: nat)
    requires !Cyclic(lib, top) || exists q :: Unsupported(lib, top, q)
    ensures EndsBy(lib, top, limit)
  {
    hide Unsupported, ModuleAt, CellAt;
    if q :| Unsupported(lib, top, q) {
      limit := |q|;
    } else {
      limit := |lib|;
      forall q | ModuleAt(lib, top, q)
        ensures |q| <= |lib|
      {
        var kinds := DistinctKinds(lib, top, q, |q|);
        SubsetSize(kinds, lib.Keys);
      }
    }
  }

  /** With no module inside itself, the modules on the way down to an instance are all different. */
  lemma {:induction false} DistinctKinds(lib: Library, top: Module, q: Path, k: nat) returns (kinds: set<Name>)
    requires !Cyclic(lib, top) && ModuleAt(lib, top, q) && k <= |q|
    ensures |kinds| == k && kinds <= lib.Keys
    ensures forall kind :: kind in kinds ==>
              exists i :: 1 <= i <= k && ModuleAt(lib, top, q[..i]) && CellAt(lib, top, q[..i]).value.kind == kind
  {
    hide CellAt, Cyclic, Expandable, Repeats;
    if k == 0 {
      kinds := {};
    } else {
      var rest := DistinctKinds(lib, top, q, k - 1);
      AncestorModule(lib, top, q, k);
      var kind := CellAt(lib, top, q[..k]).value.kind;
      if kind in rest {
        var i :| 1 <= i < k && ModuleAt(lib, top, q[..i]) && CellAt(lib, top, q[..i]).value.kind == kind;
        assert q[..i] + q[i..k] == q[..k];
        RepeatsOnce(lib, top, q[..i], q[i..k]);
      }
      kinds := rest + {kind};
    }
  }

  lemma {:induction false} AncestorModule(lib: Library, top: Module, q: Path, k: nat)
    requires ModuleAt(lib, top, q) && 1 <= k <= |q|
    ensures ModuleAt(lib, top, q[..k]) && CellAt(lib, top, q[..k]).value.kind in lib
  {
    hide CellAt;
    AncestorsExist(lib, top, q, k);
    assert q[..|q|] == q;
  }

  lemma {:induction false} RepeatsOnce(lib: Library, top: Module, q: Path, p: Path)
    requires p != [] && ModuleAt(lib, top, q) && ModuleAt(lib, top, q + p)
    requires CellAt(lib, top, q).value.kind == CellAt(lib, top, q + p).value.kind
    ensures Cyclic(lib, top)
  {
    assert Repeats(lib, top, q, p);
  }

  /** Below two instances of one module the hierarchy is the same. */
  lemma {:induction false} SameBelow(lib: Library, top: Module, q: Path, r: Path, p: Path)
    requires ModuleAt(lib, top, q) && ModuleAt(lib, top, r)
    requires CellAt(lib, top, q).value.kind == CellAt(lib, top, r).value.kind
    requires p != []
    ensures CellAt(lib, top, q + p) == CellAt(lib, top, r + p)
    decreases |p|
  {
    var above := p[..|p| - 1];
    assert (q + p)[..|q + p| - 1] == q + above && (r + p)[..|r + p| - 1] == r + above;
    if above == [] {
      assert q + above == q && r + above == r;
    } else {
      SameBelow(lib, top, q, r, above);
    }
  }

  /** A module inside itself is found ever deeper. */
  lemma {:induction false} EverDeeper(lib: Library, top: Module, q: Path, p: Path, n: nat) returns (deep: Path)
    requires Repeats(lib, top, q, p)
    ensures ModuleAt(lib, top, deep) && |deep| >= n
    ensures CellAt(lib, top, deep).value.kind == CellAt(lib, top, q).value.kind
  {
    hide CellAt;
    if n == 0 {
      deep := q;
    } else {
      var above := EverDeeper(lib, top, q, p, n - 1);
      SameBelow(lib, top, q, above, p);
      deep := above + p;
    }
  }

  /** When a module contains itself below the top, every pass finds a cell to expand: the passes end only at an instance
      that is not supported. */
  lemma {:induction false} CyclicNeverDone(lib: Library, top: Module, live: map<Path, Cell<Net>>, n: nat)
    requires Cyclic(lib, top)
    ensures Reaches(lib, top, n + 1)
    ensures LiveCells(lib, top, live) && AtLevel(lib, top, live, n) ==>
              exists p :: p in live && Expandable(lib, live[p].kind)
  {
    hide CellAt, LiveCells, AtLevel, Expandable;
    var q, p :| Repeats(lib, top, q, p);
    var deep := EverDeeper(lib, top, q, p, n + 1);
    AncestorsExist(lib, top, deep, n + 1);
    assert deep[..|deep|] == deep;
    var found := deep[..n + 1];
    assert ModuleAt(lib, top, found) && |found| == n + 1;
    if LiveCells(lib, top, live) && AtLevel(lib, top, live, n) {
      LevelCells(lib, top, live, n, found);
    }
  }

  /** There is a bound on how deep the passes go if and only if no module contains itself below the top, or some
      instance is not supported. */
  lemma {:induction false} EndsExactlyWhen(lib: Library, top: Module)
    ensures (exists limit :: EndsBy(lib, top, limit)) <==> !Cyclic(lib, top) || exists q :: Unsupported(lib, top, q)
  {
    hide CellAt, Unsupported;
    if !Cyclic(lib, top) || exists q :: Unsupported(lib, top, q) {
      var limit := EndsBySome(lib, top);
    } else {
      var q, p :| Repeats(lib, top, q, p);
      forall limit: nat
        ensures !EndsBy(lib, top, limit)
      {
        var deep := EverDeeper(lib, top, q, p, limit + 1);
      }
    }
  }

  /** A pass that fails at nothing has opened nothing that is not supported. */
  lemma {:induction false} StillToCome(lib: Library, top: Module, live: map<Path, Cell<Net>>, n: nat, limit: nat)
    requires EndsBy(lib, top, limit) && AtLevel(lib, top, live, n) && PlainSoFar(lib, top, live) && Reaches(lib, top, n)
    ensures n <= limit
  {
    hide CellAt, Opened;
  }

  /** Flattens the module marked as top; for libraries on which the passes end. */
  method FlattenNetlist(lib: Library, order: seq<Name>) returns (outcome: Result)
    requires forall kind :: kind in order <==> kind in lib
    requires forall name :: FirstTop(lib, order, name) ==> PassesEnd(lib, name)
    ensures outcome.NoTopModule? ==> forall kind :: kind in lib ==> !lib[kind].top
    ensures outcome.ChildConnections? ==>
              FirstTop(lib, order, outcome.name)
              && FailsAt(lib, lib[outcome.name], outcome.kind)
    ensures outcome.Flat? ==>
              FirstTop(lib, order, outcome.name) && (forall q :: !Unsupported(lib, lib[outcome.name], q))
              && Elaborated(lib, lib[outcome.name], outcome.cells, outcome.wires, outcome.connections)
    ensures !outcome.NoTopModule? ==>
              exists i :: 0 <= i < |order| && order[i] == outcome.name && lib[order[i]].top
                          && forall k :: 0 <= k < i ==> !lib[order[k]].top
    ensures outcome.Flat? ==>
              forall q :: q in outcome.cells <==>
                CellAt(lib, lib[outcome.name], q).Some?
                && var kind := CellAt(lib, lib[outcome.name], q).value.kind; kind !in lib || lib[kind].blackbox
  {
    hide InProgress, LiveCells, Unsupported, PlainSoFar, Elaborated, CellAt, AtLevel, EndsBy, Cyclic, Contains, Reaches;
    var i := 0;
    while i < |order| && !lib[order[i]].top
      invariant i <= |order|
      invariant forall k :: 0 <= k < i ==> !lib[order[k]].top
    {
      i := i + 1;
    }
    if i == |order| {
      return NoTopModule;
    }
    var top := lib[order[i]];
    assert FirstTop(lib, order, order[i]);
    var flat := new FlatModule(top);
    StartsInProgress(lib, top);
    PlainStarts(lib, top);
    LevelStarts(lib, top);
    ghost var limit := EndsBySome(lib, top);
    ghost var n := 0;
    var changed := true;
    while changed
      invariant InProgress(lib, top, flat.cells, flat.wires, flat.connections) && PlainSoFar(lib, top, flat.cells)
      invariant AtLevel(lib, top, flat.cells, n) && (changed ==> n <= limit)
      invariant !changed ==> forall p :: p in flat.cells ==> !Expandable(lib, flat.cells[p].kind)
      decreases if changed then limit - n + 1 else 0
    {
      var failure;
      changed, failure := flat.Pass(lib, top, n);
      if failure.Some? {
        return ChildConnections(order[i], failure.value);
      }
      n := n + 1;
      if changed {
        StillToCome(lib, top, flat.cells, n, limit);
      }
    }
    DoneIsElaborated(lib, top, flat.cells, flat.wires, flat.connections);
    LiveOf(lib, top, flat.cells, flat.wires, flat.connections);
    PlainDone(lib, top, flat.cells);
    forall q {
      CellsAre(lib, top, flat.cells, flat.wires, flat.connections, q);
    }
    return Flat(order[i], flat.cells, flat.wires, flat.connections);
  }

  lemma {:induction false} LevelStarts(lib: Library, top: Module)
    ensures AtLevel(lib, top, TopCells(top), 0)
  {
    hide CellAt, TopCells, Opened;
    StartsOpened(lib, top);
    EmptyPath(lib, top);
  }

  datatype Result = NoTopModule | ChildConnections(name: Name, kind: Name)
                  | Flat(name: Name, cells: map<Path, Cell<Net>>, wires: map<Path, WireInfo>,
                         connections: map<Path, Net>)
}
