/** Routing on the quadtree of sim/noc/QuadtreeRouter.cpp: a network of 4^k hosts in which a router
    at height h serves a subnet of 4^h addresses, four child ports and a port 4 to its parent. */
module QuadtreeTopology {
  import opened Bits

  const PARENT := 4
  const PORTS := 5

  /** A router by its height above the hosts and the number of its subnet at that height. */
  datatype Router = Router(height: nat, index: nat)

  /** An address with its `h` lowest base-4 digits removed. */
  function Up(addr: nat, h: nat): nat
    decreases h
  {
    if h == 0 then addr else Up(addr / 4, h - 1)
  }

  function SubnetSize(h: nat): nat { Pow2(2 * h) }

  function SubnetLow(r: Router): nat { Shl(r.index, 2 * r.height) }

  function SubnetHigh(r: Router): nat { SubnetLow(r) + SubnetSize(r.height) - 1 }

  /** Subnets of 16-bit addresses. */
  predicate Subnet(r: Router) {
    1 <= r.height <= 8 && r.index < Pow2(16 - 2 * r.height)
  }

  /** `0xffff & ~(size - 1)`, the address bits outside a subnet of `size` addresses. */
  function Mask(size: nat): nat
    requires 1 <= size <= TWO_32
  {
    And(0xffff, Not32(size - 1))
  }

  /** `childMask & ~mask`, the two address bits that select a child. */
  function PortMask(h: nat): nat
    requires 1 <= h <= 8
  {
    MaskValue(h);
    MaskValue(h - 1);
    And(Mask(SubnetSize(h - 1)), 0xffff - Mask(SubnetSize(h)))
  }

  /** `log2(size) - 2`. */
  function PortShift(h: nat): nat
    requires 1 <= h
  {
    2 * h - 2
  }

  function GetPortNumber(r: Router, addr: u16): nat
    requires Subnet(r)
  {
    MaskValue(r.height);
    if And(addr, Mask(SubnetSize(r.height))) != SubnetLow(r) then PARENT
    else Shr(And(addr, PortMask(r.height)), PortShift(r.height))
  }

  // ----- the masks select base-4 digits

  lemma {:induction false} ShrOnes(n: nat, s: nat)
    requires s <= n
    ensures Shr(Pow2(n) - 1, s) == Pow2(n - s) - 1
    decreases s
  {
    if s != 0 {
      ShrOnes(n - 1, s - 1);
      HalfOf(1, Pow2(n - 1) - 1);
    }
  }

  lemma {:induction false} ShlOnes(m: nat, s: nat)
    ensures Shl(Pow2(m) - 1, s) == Pow2(m + s) - Pow2(s)
  {
    if s != 0 {
      ShlOnes(m, s - 1);
    }
  }

  lemma {:induction false} MaskValue(h: nat)
    requires h <= 8
    ensures 1 <= SubnetSize(h) <= TWO_32 && SubnetSize(h) <= 0x1_0000
    ensures Mask(SubnetSize(h)) == 0x1_0000 - SubnetSize(h)
  {
    Pow2Values();
    hide And, Shr, Shl, Low;
    var s := 2 * h;
    Pow2Mono(s, 16);
    AndMask(0xffff, s, 32);
    ShrOnes(16, s);
    Pow2Mono(16 - s, 32 - s);
    LowSmall(Pow2(16 - s) - 1, 32 - s);
    ShlOnes(16 - s, s);
    assert Not32(SubnetSize(h) - 1) == Pow2(32) - Pow2(s);
  }

  lemma {:induction false} PortMaskValue(h: nat)
    requires 1 <= h <= 8
    ensures PortMask(h) == Pow2(2 * h) - Pow2(2 * h - 2)
  {
    Pow2Values();
    hide And, Shl, Low, Mask, Pow2;
    var s := 2 * h - 2;
    MaskValue(h);
    MaskValue(h - 1);
    AndLowMask(0x1_0000 - Pow2(s), 2 * h);
    ShlOnes(16 - s, s);
    OnesShifted(16 - s, s, 2 * h);
    assert 0xffff - Mask(SubnetSize(h)) == Pow2(2 * h) - 1;
    assert SubnetSize(h - 1) == Pow2(s);
  }

  lemma {:induction false} ShrIsUp(addr: nat, h: nat)
    ensures Shr(addr, 2 * h) == Up(addr, h)
    decreases h
  {
    if h != 0 {
      ShrIsUp(addr / 4, h - 1);
      var n := 2 * h;
      assert Shr(addr, n) == Shr(addr / 2, n - 1) == Shr(addr / 2 / 2, n - 2);
      assert addr / 2 / 2 == addr / 4;
    }
  }

  lemma {:induction false} UpStep(addr: nat, h: nat)
    ensures Up(addr, h + 1) == Up(addr, h) / 4
    decreases h
  {
    if h != 0 {
      UpStep(addr / 4, h - 1);
    }
  }

  /** The port is the base-4 digit of the address at the router's level, or the parent's outside the subnet. */
  function DigitPort(r: Router, addr: nat): nat
    requires r.height >= 1
  {
    if Up(addr, r.height) == r.index then Up(addr, r.height - 1) % 4 else PARENT
  }

  lemma {:induction false} PortIsDigit(r: Router, addr: u16)
    requires Subnet(r)
    ensures GetPortNumber(r, addr) == DigitPort(r, addr)
  {
    var h := r.height;
    InSubnet(r, addr);
    if Up(addr, h) == r.index {
      Digit(h, addr);
    }
  }

  lemma {:induction false} InSubnet(r: Router, addr: u16)
    requires Subnet(r)
    ensures SubnetSize(r.height) <= TWO_32
    ensures And(addr, Mask(SubnetSize(r.height))) == SubnetLow(r) <==> Up(addr, r.height) == r.index
  {
    Pow2Values();
    hide And, Shr, Shl, Low, Mask, Up;
    var s := 2 * r.height;
    MaskValue(r.height);
    AndMask(addr, s, 16);
    ShrIsUp(addr, r.height);
    ShrBound(addr, s, 16 - s);
    LowSmall(Shr(addr, s), 16 - s);
    ShlInjective(Up(addr, r.height), r.index, s);
  }

  lemma {:induction false} ShlInjective(a: nat, b: nat, s: nat)
    ensures Shl(a, s) == Shl(b, s) <==> a == b
  {
    if a < b {
      ShlMono(a, b, s);
    } else if b < a {
      ShlMono(b, a, s);
    }
  }

  lemma {:induction false} Digit(h: nat, addr: u16)
    requires 1 <= h <= 8
    ensures Shr(And(addr, PortMask(h)), PortShift(h)) == Up(addr, h - 1) % 4
  {
    hide And, Shr, Shl, Low, PortMask, Up, Pow2;
    var s := PortShift(h);
    PortMaskValue(h);
    AndMask(addr, s, s + 2);
    ShrIsUp(addr, h - 1);
    LowTwo(Shr(addr, s));
    PowPositive(s);
    Join(Low(Shr(addr, s), 2), 0, s);
  }

  lemma {:induction false} PowPositive(s: nat)
    ensures 0 < Pow2(s)
  {
  }

  lemma {:induction false} LowTwo(x: nat)
    ensures Low(x, 2) == x % 4
  {
    var y: nat := x / 2;
    var z: nat := y / 2;
    assert Low(y, 1) == y % 2 + 2 * Low(z, 0) == y % 2;
    assert Low(x, 2) == x % 2 + 2 * (y % 2);
    LastDigit(z, y % 2, x % 2);
  }

  lemma {:induction false} LastDigit(z: nat, b: nat, a: nat)
    requires a < 2 && b < 2
    ensures (4 * z + 2 * b + a) % 4 == 2 * b + a
  {
  }

  // ----- routes

  predicate InNetwork(k: nat, r: Router) {
    1 <= r.height <= k && Up(r.index, k - r.height) == 0
  }

  predicate HostAddress(k: nat, addr: nat) {
    Up(addr, k) == 0
  }

  lemma {:induction false} UpIsZero(x: nat, d: nat)
    ensures Up(x, d) == 0 <==> x < Pow2(2 * d)
    decreases d
  {
    if d != 0 {
      UpIsZero(x / 4, d - 1);
      assert Pow2(2 * d) == 2 * Pow2(2 * d - 1) == 4 * Pow2(2 * (d - 1));
    }
  }

  /** In a network of 16-bit addresses every router has a subnet of them, and routes by mask and shift. */
  lemma {:induction false} RoutesByMask(k: nat, r: Router, addr: u16)
    requires k <= 8 && InNetwork(k, r)
    ensures Subnet(r) && GetPortNumber(r, addr) == DigitPort(r, addr)
  {
    hide Up, Pow2, DigitPort;
    UpIsZero(r.index, k - r.height);
    Pow2Mono(2 * (k - r.height), 16 - 2 * r.height);
    PortIsDigit(r, addr);
  }

  /** The root's subnet is the network, and a child's is a quarter of its parent's. */
  lemma {:induction false} Subnets(k: nat, r: Router, i: nat)
    requires r.height >= 1 && i < 4
    ensures SubnetLow(Router(k, 0)) == 0 && (forall addr: nat :: HostAddress(k, addr) <==> addr < SubnetSize(k))
    ensures var size := SubnetSize(r.height) / 4;
            && SubnetSize(r.height - 1) == size && SubnetLow(Child(r, i)) == SubnetLow(r) + i * size
            && SubnetHigh(Child(r, i)) == SubnetLow(r) + i * size + size - 1
  {
    hide Up, Shl, Pow2;
    forall addr: nat
      ensures HostAddress(k, addr) <==> addr < SubnetSize(k)
    {
      UpIsZero(addr, k);
    }
    var s := 2 * r.height - 2;
    Pow2By4(s);
    ShlIsTimes(0, 2 * k);
    ShlIsTimes(r.index, s + 2);
    ShlIsTimes(4 * r.index + i, s);
    assert (4 * r.index + i) * Pow2(s) == r.index * (4 * Pow2(s)) + i * Pow2(s);
  }

  lemma {:induction false} UpUp(addr: nat, h: nat, d: nat)
    ensures Up(Up(addr, h), d) == Up(addr, h + d)
    decreases h
  {
    if h != 0 {
      UpUp(addr / 4, h - 1, d);
    }
  }

  /** The height at which a packet stops climbing: the lowest common ancestor's. */
  function Peak(k: nat, r: Router, addr: nat): (h: nat)
    requires InNetwork(k, r) && HostAddress(k, addr)
    ensures r.height <= h <= k && Up(r.index, h - r.height) == Up(addr, h)
    ensures forall j :: r.height <= j < h ==> Up(r.index, j - r.height) != Up(addr, j)
    decreases k - r.height
  {
    if Up(addr, r.height) == r.index then r.height
    else
      ParentInNetwork(k, r, addr);
      Peak(k, Parent(r), addr)
  }

  function Parent(r: Router): Router {
    Router(r.height + 1, r.index / 4)
  }

  function Child(r: Router, port: nat): Router
    requires r.height >= 1
  {
    Router(r.height - 1, 4 * r.index + port)
  }

  lemma {:induction false} ParentInNetwork(k: nat, r: Router, addr: nat)
    requires InNetwork(k, r) && HostAddress(k, addr) && Up(addr, r.height) != r.index
    ensures r.height < k && InNetwork(k, Parent(r))
  {
    UpZero(r.index);
  }

  lemma {:induction false} ChildInNetwork(k: nat, r: Router, addr: nat)
    requires InNetwork(k, r) && Up(addr, r.height) == r.index && r.height > 1
    ensures InNetwork(k, Child(r, Up(addr, r.height - 1) % 4))
    ensures Child(r, Up(addr, r.height - 1) % 4).index == Up(addr, r.height - 1)
  {
    UpStep(addr, r.height - 1);
    var c := Child(r, Up(addr, r.height - 1) % 4);
    assert c.index / 4 == r.index;
    assert Up(c.index, k - c.height) == Up(c.index / 4, k - r.height);
  }

  /** The routers a packet for `addr` visits, starting at `r`. */
  function Path(k: nat, r: Router, addr: nat): (path: seq<Router>)
    requires InNetwork(k, r) && HostAddress(k, addr)
    ensures |path| > 0 && path[0] == r
    decreases if Up(addr, r.height) == r.index then r.height else 2 * k + 1 - r.height
  {
    if DigitPort(r, addr) == PARENT then
      ParentInNetwork(k, r, addr);
      [r] + Path(k, Parent(r), addr)
    else if r.height > 1 then
      ChildInNetwork(k, r, addr);
      [r] + Path(k, Child(r, DigitPort(r, addr)), addr)
    else [r]
  }

  /** Height of the `i`-th router: up to the peak, then down. */
  function HeightAt(start: nat, peak: nat, i: nat): int {
    if i <= peak - start then start + i else 2 * peak - start - i
  }

  /** Every packet climbs to the lowest common ancestor, then only descends, and leaves the tree
      at the destination's own router and port. */
  lemma {:induction false} UpThenDown(k: nat, r: Router, addr: nat)
    requires InNetwork(k, r) && HostAddress(k, addr)
    ensures |Path(k, r, addr)| == 2 * Peak(k, r, addr) - r.height
    ensures forall i :: 0 <= i < |Path(k, r, addr)| ==>
              Path(k, r, addr)[i].height == HeightAt(r.height, Peak(k, r, addr), i)
    ensures var path := Path(k, r, addr);
            path[|path| - 1] == Router(1, Up(addr, 1)) && DigitPort(path[|path| - 1], addr) == addr % 4
    decreases if Up(addr, r.height) == r.index then r.height else 2 * k + 1 - r.height
  {
    hide Up;
    var path := Path(k, r, addr);
    UpZero(addr);
    if DigitPort(r, addr) == PARENT {
      ParentInNetwork(k, r, addr);
      UpThenDown(k, Parent(r), addr);
      OneRouterMore(path, Path(k, Parent(r), addr), r, Peak(k, r, addr));
    } else if r.height > 1 {
      ChildInNetwork(k, r, addr);
      var c := Child(r, DigitPort(r, addr));
      UpThenDown(k, c, addr);
      OneRouterMore(path, Path(k, c, addr), r, Peak(k, r, addr));
    }
  }

  /** A router in front of a path whose heights go up to the peak and then down. */
  lemma {:induction false} OneRouterMore(path: seq<Router>, rest: seq<Router>, r: Router, peak: nat)
    requires |rest| > 0 && path == [r] + rest && r.height <= peak
    requires rest[0].height == (if r.height < peak then r.height + 1 else r.height - 1)
    requires forall i :: 0 <= i < |rest| ==>
               rest[i].height == HeightAt(rest[0].height, if r.height < peak then peak else rest[0].height, i)
    ensures forall i :: 0 <= i < |path| ==> path[i].height == HeightAt(r.height, peak, i)
  {
  }

  lemma {:induction false} UpZero(addr: nat)
    ensures Up(addr, 0) == addr
  {
  }

  /** Between any two hosts of a network of 4^k, a packet passes at most 2k-1 routers. */
  lemma {:induction false} AtMostTwiceTheDepth(k: nat, src: nat, dst: nat)
    requires k >= 1 && HostAddress(k, src) && HostAddress(k, dst)
    ensures InNetwork(k, Router(1, src / 4))
    ensures |Path(k, Router(1, src / 4), dst)| <= 2 * k - 1
  {
    var r := Router(1, src / 4);
    assert Up(src, k) == Up(src / 4, k - 1);
    UpThenDown(k, r, dst);
  }

  // ----- which inbox a packet lands in

  /** The address by which a router recognises another router: the middle of its subnet. */
  function MidAddress(r: Router): nat {
    (SubnetLow(r) + SubnetHigh(r)) / 2
  }

  /** Children are recognised at the port that leads to them. */
  lemma {:induction false} InboxOfChild(r: Router)
    requires r.height >= 1
    ensures DigitPort(Parent(r), MidAddress(r)) == r.index % 4
  {
    MidIsInside(r);
    UpStep(MidAddress(r), r.height);
  }

  lemma {:induction false} MidIsInside(r: Router)
    requires r.height >= 1
    ensures MidAddress(r) == SubnetLow(r) + Pow2(2 * r.height - 1) - 1
    ensures Up(MidAddress(r), r.height) == r.index
  {
    hide Shl, Shr;
    var s := 2 * r.height;
    PowPositive(s - 1);
    var x := SubnetLow(r) + Pow2(s - 1) - 1;
    assert Pow2(s) == 2 * Pow2(s - 1);
    assert SubnetLow(r) + SubnetHigh(r) == 2 * x + 1;
    assert MidAddress(r) == x;
    Join(r.index, Pow2(s - 1) - 1, s);
    ShrIsUp(x, r.height);
  }

  /** The parent is recognised at port 4, except by its second child: the middle of the parent's
      subnet is that child's own last address, so the child files its parent's packets in inbox 3,
      the inbox of its own fourth child. */
  lemma {:induction false} InboxOfParent(r: Router)
    requires r.height >= 1
    ensures DigitPort(r, MidAddress(Parent(r))) == if r.index % 4 == 1 then 3 else PARENT
  {
    hide Shl, Shr, Up;
    var s := 2 * r.height;
    var p := Parent(r);
    MidIsInside(p);
    // the middle of the parent's subnet ends in digit 1 followed by threes
    var first := 4 * p.index + 1;
    assert MidAddress(p) == Shl(p.index, s + 2) + Pow2(s + 1) - 1;
    ShlTwice(p.index, s);
    assert MidAddress(p) == Shl(first, s) + (Pow2(s) - 1);
    Join(first, Pow2(s) - 1, s);
    ShrIsUp(MidAddress(p), r.height);
    DigitsOfOnes(first, r.height);
  }

  lemma {:induction false} ShlTwice(a: nat, s: nat)
    ensures Shl(a, s + 2) + Pow2(s) == Shl(4 * a + 1, s)
  {
    ShlShl(a, 2, s);
    assert Shl(a, 2) == 4 * a by { assert Shl(a, 1) == 2 * Shl(a, 0); }
    ShlAdd(4 * a, 1, s);
    ShlOne(s);
  }

  lemma {:induction false} DigitsOfOnes(first: nat, h: nat)
    requires h >= 1
    ensures Up(Shl(first, 2 * h) + Pow2(2 * h) - 1, h - 1) % 4 == 3
  {
    hide Shl, Shr, Up, Pow2;
    var s := 2 * h - 2;
    PowPositive(s);
    var q := 4 * first + 3;
    ShlShl(first, 2, s);
    assert Shl(first, 2) == 4 * first by { ShlBy2(first); }
    ShlAdd(4 * first, 3, s);
    ShlOfThree(s);
    Pow2By4(s);
    assert Shl(first, 2 * h) + Pow2(2 * h) - 1 == Shl(q, s) + (Pow2(s) - 1);
    Join(q, Pow2(s) - 1, s);
    ShrIsUp(Shl(q, s) + (Pow2(s) - 1), h - 1);
  }

  lemma {:induction false} ShlOfThree(s: nat)
    ensures Shl(3, s) == 3 * Pow2(s)
  {
    if s != 0 {
      ShlOfThree(s - 1);
    }
  }

  lemma {:induction false} Pow2By4(s: nat)
    ensures Pow2(s + 2) == 4 * Pow2(s)
  {
    assert Pow2(s + 2) == 2 * Pow2(s + 1);
  }

  lemma {:induction false} ShlBy2(a: nat)
    ensures Shl(a, 2) == 4 * a
  {
    assert Shl(a, 1) == 2 * Shl(a, 0);
  }
}
