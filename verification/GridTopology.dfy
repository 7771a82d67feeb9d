/** Routing on the 4x4 grid of sim/noc/GridRouter.cpp: sixteen routers with sixteen hosts each.
    Address bits 7:6 are the row, bits 5:4 the column and bits 3:0 the host port. */
module GridTopology {

  const NORTH := 16
  const EAST := 17
  const SOUTH := 18
  const WEST := 19
  const PORTS := 20

  /** A router by its grid position. */
  datatype Position = Position(x: nat, y: nat)

  predicate OnGrid(p: Position) {
    p.x < 4 && p.y < 4
  }

  /** `m_subnetLow`, the router's lowest address. */
  function SubnetLow(p: Position): nat {
    64 * p.y + 16 * p.x
  }

  /** The row and column an address names. */
  function Target(addr: nat): Position {
    Position(addr / 16 % 4, addr / 64)
  }

  /** The port a router sends a given address to. */
  function GetPortNumber(random: bool, p: Position, addr: nat): nat {
    // in our subnet: the low four bits
    if addr - addr % 16 == SubnetLow(p) then addr % 16
    else
      var t := Target(addr);
      var dx, dy := t.x - p.x, t.y - p.y;
      // one axis only
      if dx > 0 && dy == 0 then EAST
      else if dx < 0 && dy == 0 then WEST
      else if dx == 0 && dy > 0 then SOUTH
      else if dx == 0 && dy < 0 then NORTH
      // diagonal: X-Y mode moves along X first, hash mode by the parity of the four coordinates
      else if !random || (t.x + t.y + p.x + p.y) % 2 == 1 then
        if dx > 0 then EAST else WEST
      else
        if dy > 0 then SOUTH else NORTH
  }

  /** The router behind a neighbour port, where the wiring of CreateGridNetwork provides one. */
  predicate HasNeighbor(p: Position, port: nat) {
    (port == NORTH && p.y > 0) || (port == EAST && p.x < 3) || (port == SOUTH && p.y < 3) || (port == WEST && p.x > 0)
  }

  function Neighbor(p: Position, port: nat): Position
    requires HasNeighbor(p, port)
  {
    if port == NORTH then Position(p.x, p.y - 1)
    else if port == EAST then Position(p.x + 1, p.y)
    else if port == SOUTH then Position(p.x, p.y + 1)
    else Position(p.x - 1, p.y)
  }

  function Gap(a: nat, b: nat): nat {
    if a < b then b - a else a - b
  }

  /** Manhattan distance to the router an address belongs to. */
  function Distance(p: Position, addr: nat): nat {
    Gap(p.x, Target(addr).x) + Gap(p.y, Target(addr).y)
  }

  predicate Address(addr: nat) {
    addr < 256
  }

  lemma {:induction false} TargetOnGrid(addr: nat)
    requires Address(addr)
    ensures OnGrid(Target(addr)) && SubnetLow(Target(addr)) == addr - addr % 16
  {
    var q := addr / 16;
    assert q == 4 * (addr / 64) + q % 4;
  }

  /** An address is in a router's subnet exactly when the router is its target. */
  lemma {:induction false} SubnetIsTarget(p: Position, addr: nat)
    requires OnGrid(p) && Address(addr)
    ensures addr - addr % 16 == SubnetLow(p) <==> p == Target(addr)
  {
    TargetOnGrid(addr);
  }

  /** Away from the target router the chosen port leads to an existing neighbour that is
      exactly one step closer; at the target it is the host's port. */
  lemma {:induction false} EachHopIsCloser(random: bool, p: Position, addr: nat)
    requires OnGrid(p) && Address(addr)
    ensures var port := GetPortNumber(random, p, addr);
            if p == Target(addr) then port == addr % 16 && port < 16
            else (port >= 16 && HasNeighbor(p, port) && OnGrid(Neighbor(p, port))
                  && Distance(Neighbor(p, port), addr) + 1 == Distance(p, addr))
  {
    SubnetIsTarget(p, addr);
    TargetOnGrid(addr);
  }

  /** The routers a packet visits, from `p` to the router it leaves the grid at. */
  function Path(random: bool, p: Position, addr: nat): (path: seq<Position>)
    requires OnGrid(p) && Address(addr)
    ensures |path| > 0 && path[0] == p
    decreases Distance(p, addr)
  {
    EachHopIsCloser(random, p, addr);
    if p == Target(addr) then [p]
    else [p] + Path(random, Neighbor(p, GetPortNumber(random, p, addr)), addr)
  }

  /** In both modes a packet reaches the destination's router in exactly |dx| + |dy| hops,
      each taken through the port the router chooses and each one step closer. */
  lemma {:induction false} PathIsShortest(random: bool, p: Position, addr: nat)
    requires OnGrid(p) && Address(addr)
    ensures var path := Path(random, p, addr); |path| == Distance(p, addr) + 1 && path[|path| - 1] == Target(addr)
    ensures forall i :: 0 <= i < |Path(random, p, addr)| ==> PathStep(random, Path(random, p, addr), addr, i)
    decreases Distance(p, addr)
  {
    hide GetPortNumber, HasNeighbor, Neighbor, PathStep;
    EachHopIsCloser(random, p, addr);
    var path := Path(random, p, addr);
    if p == Target(addr) {
      OwnDistance(addr);
      LastStep(random, p, addr);
    } else {
      var next := Neighbor(p, GetPortNumber(random, p, addr));
      PathIsShortest(random, next, addr);
      var rest := Path(random, next, addr);
      assert path == [p] + rest;
      forall i | 0 <= i < |path|
        ensures PathStep(random, path, addr, i)
      {
        if i == 0 {
          FirstStep(random, p, addr, rest);
        } else {
          LaterStep(random, p, rest, addr, i - 1);
        }
      }
    }
  }

  /** Position `i` of a path: on the grid, nearer by `i` hops, and followed by the chosen neighbour. */
  predicate PathStep(random: bool, path: seq<Position>, addr: nat, i: nat)
    requires i < |path|
  {
    OnGrid(path[i]) && Distance(path[i], addr) == |path| - 1 - i &&
    (i + 1 < |path| ==>
       var port := GetPortNumber(random, path[i], addr);
       HasNeighbor(path[i], port) && path[i + 1] == Neighbor(path[i], port))
  }

  lemma {:induction false} OwnDistance(addr: nat)
    ensures Distance(Target(addr), addr) == 0
  {
  }

  lemma {:induction false} LastStep(random: bool, p: Position, addr: nat)
    requires OnGrid(p) && p == Target(addr)
    ensures PathStep(random, [p], addr, 0)
  {
  }

  lemma {:induction false} FirstStep(random: bool, p: Position, addr: nat, rest: seq<Position>)
    requires OnGrid(p) && |rest| > 0 && |rest| == Distance(p, addr)
    requires var port := GetPortNumber(random, p, addr); HasNeighbor(p, port) && rest[0] == Neighbor(p, port)
    ensures PathStep(random, [p] + rest, addr, 0)
  {
    hide GetPortNumber, HasNeighbor, Neighbor, Distance;
  }

  lemma {:induction false} LaterStep(random: bool, p: Position, rest: seq<Position>, addr: nat, i: nat)
    requires i < |rest| && PathStep(random, rest, addr, i)
    ensures PathStep(random, [p] + rest, addr, i + 1)
  {
    hide GetPortNumber, HasNeighbor, Neighbor, Distance;
    var path := [p] + rest;
    assert path[i + 1] == rest[i];
    if i + 1 < |rest| {
      assert path[i + 2] == rest[i + 1];
    }
  }

  predicate AlongX(port: nat) {
    port == EAST || port == WEST
  }

  predicate AlongY(port: nat) {
    port == NORTH || port == SOUTH
  }

  /** X-Y routing never turns from the Y axis back to the X axis. */
  lemma {:induction false} NoTurnFromYToX(p: Position, addr: nat)
    requires OnGrid(p) && Address(addr) && AlongY(GetPortNumber(false, p, addr))
    ensures var port := GetPortNumber(false, p, addr);
            HasNeighbor(p, port) && !AlongX(GetPortNumber(false, Neighbor(p, port), addr))
  {
    SubnetIsTarget(p, addr);
    EachHopIsCloser(false, p, addr);
    EachHopIsCloser(false, Neighbor(p, GetPortNumber(false, p, addr)), addr);
    SubnetIsTarget(Neighbor(p, GetPortNumber(false, p, addr)), addr);
  }

  predicate Diagonal(p: Position, addr: nat) {
    p.x != Target(addr).x && p.y != Target(addr).y
  }

  /** As long as the target is diagonal, hash routing takes the axis by the parity of the four coordinates, and so
      alternates between the two. */
  lemma {:induction false} HashAlternates(p: Position, addr: nat)
    requires OnGrid(p) && Address(addr) && Diagonal(p, addr)
    ensures var port := GetPortNumber(true, p, addr);
            HasNeighbor(p, port)
            && (AlongX(port) <==> (addr / 16 % 4 + addr / 64 + p.x + p.y) % 2 == 1)
            && (Diagonal(Neighbor(p, port), addr) ==>
                  AlongX(port) != AlongX(GetPortNumber(true, Neighbor(p, port), addr)))
  {
    SubnetIsTarget(p, addr);
    EachHopIsCloser(true, p, addr);
    var q := Neighbor(p, GetPortNumber(true, p, addr));
    SubnetIsTarget(q, addr);
    var t := Target(addr);
    NextParity(t.x + t.y + p.x + p.y, t.x + t.y + q.x + q.y);
  }

  lemma {:induction false} NextParity(a: nat, b: nat)
    requires a == b + 1 || b == a + 1
    ensures a % 2 != b % 2
  {
  }

  /** The inbox a router files a neighbour's packets in: GetPortNumber of the neighbour's subnet base. */
  function InboxOfRouter(random: bool, p: Position, from: Position): nat {
    GetPortNumber(random, p, SubnetLow(from))
  }

  function Opposite(port: nat): nat {
    if port == NORTH then SOUTH else if port == SOUTH then NORTH else if port == EAST then WEST else EAST
  }

  /** The receiver's port is the opposite of the sender's. */
  lemma {:induction false} ReceiverIsOpposite(random: bool, p: Position, port: nat)
    requires OnGrid(p) && HasNeighbor(p, port)
    ensures InboxOfRouter(random, Neighbor(p, port), p) == Opposite(port)
  {
    var q := Neighbor(p, port);
    var low := SubnetLow(p);
    LowOf(p);
    SubnetIsTarget(q, low);
  }

  lemma {:induction false} LowOf(p: Position)
    requires OnGrid(p)
    ensures Address(SubnetLow(p)) && SubnetLow(p) % 16 == 0 && Target(SubnetLow(p)) == p
  {
    var q := 4 * p.y + p.x;
    assert SubnetLow(p) == 16 * q;
    By16(q);
    By64(p.y, 16 * p.x);
    By4(p.y, p.x);
  }

  lemma {:induction false} By16(q: nat)
    ensures 16 * q / 16 == q && 16 * q % 16 == 0
  {
  }

  lemma {:induction false} By64(q: nat, r: nat)
    requires r < 64
    ensures (64 * q + r) / 64 == q
  {
  }

  lemma {:induction false} By4(q: nat, r: nat)
    requires r < 4
    ensures (4 * q + r) % 4 == r && (4 * q + r) / 4 == q
  {
  }

  /** A host's packets enter at the port its address names. */
  lemma {:induction false} HostPort(random: bool, addr: nat)
    requires Address(addr)
    ensures GetPortNumber(random, Target(addr), addr) == addr % 16
  {
    EachHopIsCloser(random, Target(addr), addr);
  }

  /** Two distinct nodes next to a router never share an inbox: hosts differ in the low address bits,
      routers in the direction. */
  lemma {:induction false} NeighborsNeverShareInbox(random: bool, p: Position, port1: nat, port2: nat, addr: nat)
    requires OnGrid(p) && HasNeighbor(p, port1) && HasNeighbor(p, port2) && port1 != port2
    requires Address(addr) && Target(addr) == p
    ensures InboxOfRouter(random, p, Neighbor(p, port1)) == port1
    ensures InboxOfRouter(random, p, Neighbor(p, port1)) != InboxOfRouter(random, p, Neighbor(p, port2))
    ensures InboxOfRouter(random, p, Neighbor(p, port1)) != GetPortNumber(random, p, addr)
  {
    BackAndForth(p, port1);
    BackAndForth(p, port2);
    ReceiverIsOpposite(random, Neighbor(p, port1), Opposite(port1));
    ReceiverIsOpposite(random, Neighbor(p, port2), Opposite(port2));
    HostPort(random, addr);
  }

  lemma {:induction false} BackAndForth(p: Position, port: nat)
    requires OnGrid(p) && HasNeighbor(p, port)
    ensures OnGrid(Neighbor(p, port)) && HasNeighbor(Neighbor(p, port), Opposite(port))
    ensures Neighbor(Neighbor(p, port), Opposite(port)) == p && Opposite(Opposite(port)) == port
  {
  }
}
