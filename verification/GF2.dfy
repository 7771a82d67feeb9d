/** Polynomials over GF(2): bit `i` of a natural number is the coefficient of x^i,
    so addition is `Xor` and multiplication by x is doubling. */
module GF2 {
  import opened Bits

  /** Carry-less product. */
  function Mul(a: nat, b: nat): nat
    decreases a
  {
    if a == 0 then 0 else Xor(if a % 2 == 1 then b else 0, 2 * Mul(a / 2, b))
  }

  /** Degree, with 0 for the two constants. */
  function Deg(a: nat): nat {
    if a <= 1 then 0 else 1 + Deg(a / 2)
  }

  /** Remainder of schoolbook long division, one coefficient of `a` at a time from the top. */
  function Rem(a: nat, g: nat): nat
    decreases a
  {
    if a == 0 then 0 else Reduce(2 * Rem(a / 2, g) + a % 2, g)
  }

  /** Subtract `g` once if that cancels the top coefficient. */
  function Reduce(r: nat, g: nat): nat {
    if r < Pow2(Deg(g)) then r else Xor(r, g)
  }

  ghost predicate Divides(g: nat, a: nat) {
    exists q :: Mul(q, g) == a
  }

  // ----- degree

  lemma {:induction false} DegBounds(a: nat)
    requires a > 0
    ensures Pow2(Deg(a)) <= a < Pow2(Deg(a) + 1)
  {
    if a > 1 {
      DegBounds(a / 2);
    }
  }

  lemma {:induction false} DegUnique(a: nat, d: nat)
    requires Pow2(d) <= a < Pow2(d + 1)
    ensures Deg(a) == d
  {
    DegBounds(a);
    if Deg(a) < d {
      Pow2Mono(Deg(a) + 1, d);
    } else if d < Deg(a) {
      Pow2Mono(d + 1, Deg(a));
    }
  }

  // ----- multiplication

  lemma {:induction false} MulZero(a: nat)
    ensures Mul(a, 0) == 0 && Mul(0, a) == 0
  {
    if a != 0 {
      MulZero(a / 2);
    }
  }

  lemma {:induction false} MulOne(a: nat)
    ensures Mul(a, 1) == a && Mul(1, a) == a
  {
    XorZero(a);
    assert Mul(1, a) == Xor(a, 2 * Mul(0, a));
    if a != 0 {
      MulOne(a / 2);
      XorBit(a % 2, a / 2);
    }
  }

  lemma {:induction false} MulDoubleLeft(a: nat, b: nat)
    ensures Mul(2 * a, b) == 2 * Mul(a, b)
  {
  }

  lemma {:induction false} MulDoubleRight(a: nat, b: nat)
    ensures Mul(a, 2 * b) == 2 * Mul(a, b)
  {
    if a != 0 {
      MulDoubleRight(a / 2, b);
      XorDouble(if a % 2 == 1 then b else 0, 2 * Mul(a / 2, b));
    }
  }

  lemma {:induction false} MulShl(a: nat, b: nat, s: nat)
    ensures Mul(Shl(a, s), b) == Shl(Mul(a, b), s)
    ensures Mul(a, Shl(b, s)) == Shl(Mul(a, b), s)
  {
    if s != 0 {
      MulShl(a, b, s - 1);
      MulDoubleLeft(Shl(a, s - 1), b);
      MulDoubleRight(a, Shl(b, s - 1));
    }
  }

  lemma {:induction false} MulXorRight(a: nat, b: nat, c: nat)
    ensures Mul(a, Xor(b, c)) == Xor(Mul(a, b), Mul(a, c))
    decreases a
  {
    if a != 0 {
      MulXorRight(a / 2, b, c);
      var x, y := Mul(a / 2, b), Mul(a / 2, c);
      XorDouble(x, y);
      if a % 2 == 1 {
        XorSwap(b, 2 * x, c, 2 * y);
      }
    }
  }

  lemma {:induction false} MulXorLeft(a: nat, b: nat, c: nat)
    ensures Mul(Xor(a, b), c) == Xor(Mul(a, c), Mul(b, c))
    decreases a
  {
    if a == 0 {
    } else {
      MulXorLeft(a / 2, b / 2, c);
      XorStep(a, b);
      ParitySum(a, b);
      var ta, tb := if a % 2 == 1 then c else 0, if b % 2 == 1 then c else 0;
      var ha, hb := Mul(a / 2, c), Mul(b / 2, c);
      XorSwap(ta, 2 * ha, tb, 2 * hb);
      XorDouble(ha, hb);
      XorSelf(c);
      XorZero(c);
      MulZero(c);
      XorZero(2 * ha);
    }
  }

  lemma {:induction false} XorBit(t: nat, h: nat)
    requires t < 2
    ensures Xor(t, 2 * h) == t + 2 * h
  {
    XorStep(t, 2 * h);
    XorZero(h);
  }

  lemma {:induction false} MulSym(a: nat, b: nat)
    ensures Mul(a, b) == Mul(b, a)
    decreases a
  {
    if a == 0 {
      MulZero(b);
    } else {
      MulSym(a / 2, b);
      MulDoubleRight(b, a / 2);
      var t: nat, h: nat := a % 2, 2 * (a / 2);
      XorBit(t, a / 2);
      MulXorRight(b, t, h);
      MulOne(b);
      MulZero(b);
      assert Mul(b, t) == if t == 1 then b else 0;
    }
  }

  lemma {:induction false} MulAssoc(a: nat, b: nat, c: nat)
    ensures Mul(Mul(a, b), c) == Mul(a, Mul(b, c))
    decreases a
  {
    if a != 0 {
      MulAssoc(a / 2, b, c);
      MulXorLeft(if a % 2 == 1 then b else 0, 2 * Mul(a / 2, b), c);
      MulDoubleLeft(Mul(a / 2, b), c);
    }
  }

  lemma {:induction false} DegHalf(a: nat)
    requires a >= 2
    ensures Deg(a) == Deg(a / 2) + 1
  {
  }

  /** There are no zero divisors, and degrees add. */
  lemma {:induction false} MulDeg(a: nat, b: nat)
    requires a > 0 && b > 0
    ensures Mul(a, b) > 0 && Deg(Mul(a, b)) == Deg(a) + Deg(b)
    decreases a
  {
    hide Xor, Deg;
    DegBounds(b);
    if a == 1 {
      MulOne(b);
      DegUnique(1, 0);
    } else {
      MulDeg(a / 2, b);
      var h := Mul(a / 2, b);
      DegBounds(h);
      XorZero(2 * h);
      var n := Deg(a) + Deg(b);
      DegHalf(a);
      DegHalf(2 * h);
      DegBounds(2 * h);
      if a % 2 == 1 {
        Pow2Mono(Deg(b) + 1, n);
        XorTopStays(2 * h, b, n);
        XorSym(2 * h, b);
        DegUnique(Mul(a, b), n);
      }
    }
  }

  // ----- divisibility

  lemma {:induction false} DividesXor(g: nat, a: nat, b: nat)
    requires Divides(g, a) && Divides(g, b)
    ensures Divides(g, Xor(a, b))
  {
    var p: nat, q: nat :| Mul(p, g) == a && Mul(q, g) == b;
    MulXorLeft(p, q, g);
    assert Mul(Xor(p, q), g) == Xor(a, b);
  }

  lemma {:induction false} DividesMul(g: nat, a: nat, b: nat)
    requires Divides(g, a)
    ensures Divides(g, Mul(b, a))
  {
    var q: nat :| Mul(q, g) == a;
    MulAssoc(b, q, g);
  }

  lemma {:induction false} DividesSelf(g: nat)
    ensures Divides(g, g) && Divides(g, 0)
  {
    MulOne(g);
    assert Mul(0, g) == 0;
  }

  /** A nonzero multiple of `g` has at least the degree of `g`. */
  lemma {:induction false} MultipleIsLarge(g: nat, a: nat)
    requires g > 0 && a > 0 && Divides(g, a)
    ensures a >= Pow2(Deg(g))
  {
    var q: nat :| Mul(q, g) == a;
    MulZero(g);
    MulDeg(q, g);
    DegBounds(a);
    Pow2Mono(Deg(g), Deg(a));
  }

  /** A polynomial with constant term 1 shares no factor with x. */
  lemma {:induction false} CancelX(g: nat, h: nat)
    requires g % 2 == 1 && Divides(g, 2 * h)
    ensures Divides(g, h)
  {
    var q: nat :| Mul(q, g) == 2 * h;
    if q % 2 == 1 {
      XorStep(g, 2 * Mul(q / 2, g));
      assert false;
    }
    MulDoubleLeft(q / 2, g);
    assert Mul(q / 2, g) == h;
  }

  lemma {:induction false} CancelXs(g: nat, h: nat, s: nat)
    requires g % 2 == 1 && Divides(g, Shl(h, s))
    ensures Divides(g, h)
  {
    if s != 0 {
      CancelX(g, Shl(h, s - 1));
      CancelXs(g, h, s - 1);
    }
  }

  // ----- remainder

  /** The remainder is congruent to `a` modulo `g` and of smaller degree. */
  lemma {:induction false} RemCorrect(a: nat, g: nat)
    requires g > 0
    ensures Divides(g, Xor(a, Rem(a, g)))
    ensures Rem(a, g) < Pow2(Deg(g))
    decreases a
  {
    DividesSelf(g);
    DegBounds(g);
    if a != 0 {
      RemCorrect(a / 2, g);
      var h := Rem(a / 2, g);
      var r := 2 * h + a % 2;
      // a + r = 2 * (a/2 + h)
      XorStep(a, r);
      ParitySum(a, r);
      MulOne(2);
      DividesMul(g, Xor(a / 2, h), 2);
      MulDoubleLeft(1, Xor(a / 2, h));
      MulOne(Xor(a / 2, h));
      assert Divides(g, Xor(a, r));
      if r >= Pow2(Deg(g)) {
        XorTopsCancel(r, g, Deg(g));
        DividesXor(g, Xor(a, r), g);
        XorAssoc(a, r, g);
      }
    }
  }

  /** ... and it is the only such polynomial. */
  lemma {:induction false} RemUnique(a: nat, g: nat, r: nat)
    requires g > 0 && r < Pow2(Deg(g)) && Divides(g, Xor(a, r))
    ensures r == Rem(a, g)
  {
    RemCorrect(a, g);
    var s := Rem(a, g);
    DividesXor(g, Xor(a, r), Xor(a, s));
    XorSwap(a, r, a, s);
    XorSelf(a);
    XorZero(Xor(r, s));
    XorBound(r, s, Deg(g));
    if Xor(r, s) > 0 {
      MultipleIsLarge(g, Xor(r, s));
    }
    XorEqZero(r, s);
  }

  /** Remainders are equal exactly for congruent polynomials. */
  lemma {:induction false} RemEq(a: nat, b: nat, g: nat)
    requires g > 0
    ensures Rem(a, g) == Rem(b, g) <==> Divides(g, Xor(a, b))
  {
    hide *;
    RemCorrect(a, g);
    RemCorrect(b, g);
    var r, s := Rem(a, g), Rem(b, g);
    XorSwap(a, r, b, s);
    XorSelf(r);
    XorZero(Xor(a, b));
    if r == s {
      DividesXor(g, Xor(a, r), Xor(b, s));
    }
    if Divides(g, Xor(a, b)) {
      // a + s = (a + b) + (b + s)
      DividesXor(g, Xor(a, b), Xor(b, s));
      XorAssoc(a, b, Xor(b, s));
      XorCancel(b, s);
      RemUnique(a, g, s);
    }
  }

  lemma {:induction false} RemZero(a: nat, g: nat)
    requires g > 0
    ensures Rem(a, g) == 0 <==> Divides(g, a)
  {
    RemEq(a, 0, g);
    XorZero(a);
  }

  lemma {:induction false} RemSmall(a: nat, g: nat)
    requires g > 0 && a < Pow2(Deg(g))
    ensures Rem(a, g) == a
  {
    XorSelf(a);
    DividesSelf(g);
    RemUnique(a, g, a);
  }

  /** Adding a multiple of `g` does not change the remainder. */
  lemma {:induction false} RemXorMultiple(a: nat, m: nat, g: nat)
    requires g > 0 && Divides(g, m)
    ensures Rem(Xor(a, m), g) == Rem(a, g)
  {
    hide *;
    XorCancel(a, m);
    XorSym(Xor(a, m), a);
    RemEq(a, Xor(a, m), g);
  }

  lemma {:induction false} RemXor(a: nat, b: nat, g: nat)
    requires g > 0
    ensures Rem(Xor(a, b), g) == Xor(Rem(a, g), Rem(b, g))
  {
    hide *;
    RemCorrect(a, g);
    RemCorrect(b, g);
    var r, s := Rem(a, g), Rem(b, g);
    DividesXor(g, Xor(a, r), Xor(b, s));
    XorSwap(a, r, b, s);
    XorBound(r, s, Deg(g));
    RemUnique(Xor(a, b), g, Xor(r, s));
  }

  /** A factor may be replaced by its remainder. */
  lemma {:induction false} RemMul(a: nat, b: nat, g: nat)
    requires g > 0
    ensures Rem(Mul(a, b), g) == Rem(Mul(Rem(a, g), b), g)
  {
    hide *;
    RemCorrect(a, g);
    DividesMul(g, Xor(a, Rem(a, g)), b);
    MulSym(b, Xor(a, Rem(a, g)));
    MulXorLeft(a, Rem(a, g), b);
    RemEq(Mul(a, b), Mul(Rem(a, g), b), g);
  }

  lemma {:induction false} RemShl(a: nat, s: nat, g: nat)
    requires g > 0
    ensures Rem(Shl(a, s), g) == Rem(Shl(Rem(a, g), s), g)
  {
    RemMul(a, Shl(1, s), g);
    MulShl(a, 1, s);
    MulShl(Rem(a, g), 1, s);
    MulOne(a);
    MulOne(Rem(a, g));
  }

  /** One more coefficient below `a`: the step every shift register performs. */
  lemma {:induction false} RemStep(a: nat, bit: nat, g: nat)
    requires g > 0 && bit < 2
    ensures Rem(2 * a + bit, g) == Reduce(2 * Rem(a, g) + bit, g)
  {
    if 2 * a + bit == 0 {
      assert Reduce(0, g) == 0;
    }
  }

  // ----- a shift register of the generator's width

  /** Appending `s` message bits `b` to `m` only needs the register, the remainder of `m` shifted by `s`. */
  lemma {:induction false} ShiftRegister(m: nat, b: nat, s: nat, g: nat)
    requires g > 0 && Deg(g) == s && b < Pow2(s)
    ensures Rem(Shl(Shl(m, s) + b, s), g) == Rem(Shl(Xor(Rem(Shl(m, s), g), b), s), g)
  {
    hide *;
    Join(m, b, s);
    RemXor(Shl(m, s), b, g);
    RemSmall(b, g);
    RemShl(Shl(m, s) + b, s, g);
  }

  /** A message followed by its check bits is a multiple of the generator, and by nothing else. */
  lemma {:induction false} CheckBits(m: nat, c: nat, s: nat, g: nat)
    requires g > 0 && Deg(g) == s && c < Pow2(s)
    ensures c == Rem(Shl(m, s), g) <==> Divides(g, Shl(m, s) + c)
  {
    hide *;
    Join(m, c, s);
    RemXor(Shl(m, s), c, g);
    RemSmall(c, g);
    XorEqZero(Rem(Shl(m, s), g), c);
    RemZero(Shl(m, s) + c, g);
  }

  // ----- error patterns no multiple of a generator can have

  /** An error pattern whose flipped bits lie within `len` consecutive positions. */
  ghost predicate Burst(e: nat, len: nat) {
    exists pattern: nat, position: nat :: 0 < pattern < Pow2(len) && e == Shl(pattern, position)
  }

  /** No multiple of a generator with nonzero constant term is a burst no longer than its degree. */
  lemma {:induction false} BurstIsNoMultiple(e: nat, g: nat)
    requires g % 2 == 1 && Burst(e, Deg(g))
    ensures !Divides(g, e)
  {
    if Divides(g, e) {
      var pattern: nat, position: nat :| 0 < pattern < Pow2(Deg(g)) && e == Shl(pattern, position);
      CancelXs(g, pattern, position);
      MultipleIsLarge(g, pattern);
    }
  }

  /** Number of nonzero coefficients. */
  function Weight(a: nat): nat {
    if a == 0 then 0 else a % 2 + Weight(a / 2)
  }

  lemma {:induction false} WeightXor(a: nat, b: nat)
    ensures Weight(Xor(a, b)) % 2 == (Weight(a) + Weight(b)) % 2
    decreases a
  {
    if a != 0 {
      WeightXor(a / 2, b / 2);
      XorStep(a, b);
      WeightStep(a);
      WeightStep(b);
      WeightStep(Xor(a, b));
      ParitySum(a, b);
      ParityOfFour(a % 2, b % 2, Weight(a / 2), Weight(b / 2), Weight(Xor(a / 2, b / 2)));
    }
  }

  lemma {:induction false} WeightPositive(a: nat)
    ensures Weight(a) == 0 <==> a == 0
  {
    if a != 0 && a % 2 == 0 {
      WeightPositive(a / 2);
    }
  }

  lemma {:induction false} WeightStep(a: nat)
    ensures Weight(a) == a % 2 + Weight(a / 2)
  {
  }

  lemma {:induction false} ParityOfFour(s: nat, t: nat, x: nat, y: nat, z: nat)
    requires s < 2 && t < 2 && z % 2 == (x + y) % 2
    ensures ((if s == t then 0 else 1) + z) % 2 == (s + x + t + y) % 2
  {
    ParitySum(x, y);
    ParitySum(s, x);
    ParitySum(t, y);
    ParitySum(s + x, t + y);
    ParitySum(if s == t then 0 else 1, z);
  }

  /** x + 1 is a factor exactly of the polynomials of even weight: all multiples inherit it. */
  lemma {:induction false} EvenWeightMultiple(q: nat, g: nat)
    requires Weight(g) % 2 == 0
    ensures Weight(Mul(q, g)) % 2 == 0
    decreases q
  {
    hide Xor, Weight;
    if q != 0 {
      EvenWeightMultiple(q / 2, g);
      var h := Mul(q / 2, g);
      HalfOf(0, h);
      WeightStep(2 * h);
      XorZero(2 * h);
      WeightXor(g, 2 * h);
      ParitySum(Weight(g), Weight(2 * h));
    } else {
      WeightPositive(0);
    }
  }

  /** An odd number of flipped bits is never a multiple of an even-weight generator. */
  lemma {:induction false} OddWeightIsNoMultiple(e: nat, g: nat)
    requires Weight(g) % 2 == 0 && Weight(e) % 2 == 1
    ensures !Divides(g, e)
  {
    if Divides(g, e) {
      var q: nat :| Mul(q, g) == e;
      EvenWeightMultiple(q, g);
    }
  }

  lemma {:induction false} WeightOne(e: nat) returns (i: nat)
    requires Weight(e) == 1
    ensures e == Pow2(i)
  {
    if e % 2 == 1 {
      WeightPositive(e / 2);
      i := 0;
    } else {
      var k := WeightOne(e / 2);
      i := k + 1;
    }
  }

  /** Two flipped bits at distance d are a multiple of g only if g divides x^d + 1. */
  lemma {:induction false} TwoBitsAtDistance(e: nat, g: nat, n: nat) returns (d: nat)
    requires Weight(e) == 2 && e < Pow2(n) && g % 2 == 1 && Divides(g, e)
    ensures 1 <= d < n && Divides(g, Pow2(d) + 1)
    decreases e
  {
    if e % 2 == 1 {
      var i := WeightOne(e / 2);
      d := i + 1;
      assert e == Pow2(d) + 1;
      if n <= d {
        Pow2Mono(n, d);
      }
    } else {
      assert e == 2 * (e / 2);
      CancelX(g, e / 2);
      assert n > 0;
      var k := TwoBitsAtDistance(e / 2, g, n - 1);
      d := k;
    }
  }
}
