/** What a flat netlist holds, in terms of the library alone (legacy-branches/old-pcb/drc.php:271-358). */
module FlatMeaning {
  import opened Netlist
  import opened Options

  /** Which instances there are: the top module's cells, and below an instance exactly the cells of its module. Below
      a primitive or a black box there is none. */
  lemma {:induction false} InstancesAre(lib: Library, top: Module, q: Path, n: Name)
    ensures CellAt(lib, top, []) == None
    ensures CellAt(lib, top, [n]) == if n in top.cells then Some(top.cells[n]) else None
    ensures q != [] ==>
      var parent, child := CellAt(lib, top, q), CellAt(lib, top, q + [n]);
      if parent.Some? && parent.value.kind in lib && !lib[parent.value.kind].blackbox then
        var cells := lib[parent.value.kind].cells;
        child == if n in cells then Some(cells[n]) else None
      else child == None
  {
    assert (q + [n])[..|q|] == q;
  }

  /** The cells kept are the primitives and black boxes, each with its own pins; a pin on a wire of the module that
      instantiates the cell is on the wire of that name under that module's path, and a supply is the same everywhere.
      */
  lemma {:induction false} CellsAre(lib: Library, top: Module, cells: map<Path, Cell<Net>>, wires: map<Path, WireInfo>,
                                    connections: map<Path, Net>, q: Path)
    requires Elaborated(lib, top, cells, wires, connections)
    ensures q in cells <==>
        CellAt(lib, top, q).Some?
        && (CellAt(lib, top, q).value.kind !in lib || lib[CellAt(lib, top, q).value.kind].blackbox)
    ensures q in cells ==>
      var cell := CellAt(lib, top, q).value;
      && q != [] && cells[q].kind == cell.kind && cells[q].pins.Keys == cell.pins.Keys
      && forall pin :: pin in cell.pins ==> Names(q[..|q| - 1], cell.pins[pin], cells[q].pins[pin])
  {
    hide Placed;
    if q in cells {
      PlacedNames(q[..|q| - 1], CellAt(lib, top, q).value);
    }
  }

  lemma {:induction false} PlacedNames(q: Path, cell: Cell<Ref>)
    ensures var placed := Placed(q, cell);
            && placed.kind == cell.kind && placed.pins.Keys == cell.pins.Keys
            && forall pin :: pin in cell.pins ==> Names(q, cell.pins[pin], placed.pins[pin])
  {
  }

  /** The net `net` is the one that the module at path `q` calls `r`. */
  predicate Names(q: Path, r: Ref, net: Net) {
    match (r, net)
    case (Supply(a), Global(b)) => a == b
    case (Wire(w), Local(path)) => path == q + [w]
    case _ => false
  }

  /** The wires are the top module's and, under its path, those of the module of every instance that is opened. The
      connections are the top module's and one for every pin of such an instance, to the net its parent names there. */
  lemma {:induction false} WiresAre(lib: Library, top: Module, cells: map<Path, Cell<Net>>, wires: map<Path, WireInfo>,
                                    connections: map<Path, Net>, q: Path, n: Name)
    requires Elaborated(lib, top, cells, wires, connections)
    ensures [] !in wires && [] !in connections
    ensures [n] in wires <==> n in top.wires
    ensures [n] in wires ==> wires[[n]] == top.wires[n]
    ensures [n] in connections <==> n in top.connects
    ensures [n] in connections ==> Names([], top.connects[n], connections[[n]])
    ensures q != [] ==>
      var inst := CellAt(lib, top, q);
      if inst.Some? && inst.value.kind in lib && !lib[inst.value.kind].blackbox then
        var m, pins := lib[inst.value.kind], inst.value.pins;
        && (q + [n] in wires <==> n in m.wires) && (n in m.wires ==> wires[q + [n]] == m.wires[n])
        && (q + [n] in connections <==> n in pins)
        && (n in pins ==> Names(q[..|q| - 1], pins[n], connections[q + [n]]))
      else q + [n] !in wires && q + [n] !in connections
  {
    hide CellAt;
    assert [] + [n] == [n];
    assert [n] in wires <==> HasWire(lib, top, [], n);
    assert [n] in connections <==> HasPort(lib, top, [], n);
    assert q + [n] in wires <==> HasWire(lib, top, q, n);
    assert q + [n] in connections <==> HasPort(lib, top, q, n);
  }
}
