/** Arithmetic in GF(2)[x] and GF(2^n) on 32-bit words (legacy-trunk/src/fec/GF2NMath.c). */
module GF2NMath {
  import opened Bits
  import opened GF2

  /** Polynomial long division by shift-and-subtract: the result is the remainder of `a` modulo `b`.
      Neither operand may be zero: the degree scans look for a set bit. */
  method GF2NMod(a: u32, b: u32) returns (r: u32)
    requires a != 0 && b != 0
    ensures Divides(b, Xor(a, r)) && r < Pow2(Deg(b))
    ensures r == Rem(a, b)
  {
    hide Rem, Xor, Shl, Shr, And;
    Pow2Values();
    var digitsA: nat := 31;
    while Shr(a, digitsA) == 0
      invariant digitsA <= 31 && a < Pow2(digitsA + 1)
      decreases digitsA
    {
      ShrZero(a, digitsA);
      digitsA := digitsA - 1;
    }
    ShrZero(a, digitsA);
    var digitsB: nat := 31;
    while Shr(b, digitsB) == 0
      invariant digitsB <= 31 && b < Pow2(digitsB + 1)
      decreases digitsB
    {
      ShrZero(b, digitsB);
      digitsB := digitsB - 1;
    }
    ShrZero(b, digitsB);
    DegUnique(b, digitsB);
    RemCorrect(a, b);
    if digitsB > digitsA {
      Pow2Mono(digitsA + 1, digitsB);
      RemSmall(a, b);
      return a;
    }
    r := GF2NModFast(a, b, digitsA, digitsB);
  }

  /** The division loop, with both degrees known. */
  method GF2NModFast(a: u32, b: u32, degA: nat, degB: nat) returns (r: u32)
    requires degB <= degA <= 31
    requires Pow2(degA) <= a < Pow2(degA + 1) && Pow2(degB) <= b < Pow2(degB + 1)
    ensures r == Rem(a, b)
  {
    hide Rem, Xor, Shl, Shr, And;
    DegUnique(b, degB);
    r := a;
    var shift := degA - degB;
    while true
      invariant 0 <= shift <= degA - degB
      invariant r < Pow2(shift + degB + 1)
      invariant Rem(r, b) == Rem(a, b)
      decreases shift
    {
      var top := shift + degB;
      ShrZero(r, top);
      if Shr(r, top) != 0 {
        SubtractShifted(r, b, shift);
        r := Xor(r, Shl32(b, shift));
      }
      if shift == 0 {
        break;
      }
      shift := shift - 1;
    }
    RemSmall(r, b);
  }

  /** Subtracting the divisor shifted under the top bit clears that bit and keeps the remainder. */
  lemma {:induction false} SubtractShifted(r: u32, b: u32, shift: nat)
    requires b != 0 && shift + Deg(b) <= 31
    requires Pow2(shift + Deg(b)) <= r < Pow2(shift + Deg(b) + 1)
    ensures Xor(r, Shl32(b, shift)) < Pow2(shift + Deg(b))
    ensures Xor(r, Shl32(b, shift)) < TWO_32
    ensures Rem(Xor(r, Shl32(b, shift)), b) == Rem(r, b)
  {
    var top := shift + Deg(b);
    DegBounds(b);
    Shl32Fits(b, shift, Deg(b) + 1);
    ShlFloor(b, shift, Deg(b));
    XorTopsCancel(r, Shl(b, shift), top);
    Pow2Mono(top, top + 1);
    MulShl(1, b, shift);
    MulOne(b);
    assert Divides(b, Shl(b, shift));
    RemXorMultiple(r, Shl(b, shift), b);
  }

  /** The reduction polynomial of GF2NMultiply: its highest term is implicit. */
  function FieldPoly(n: nat, poly: nat): (g: nat)
    ensures g > 0
  {
    Pow2(n) + poly
  }

  /** Multiplication in GF(2)[x] modulo x^n + poly. Only the low `n` bits of `b` take part. */
  function FieldMul(a: nat, b: nat, n: nat, poly: nat): nat {
    Rem(Mul(a, Low(b, n)), FieldPoly(n, poly))
  }

  method GF2NMultiply(a: u32, b: u32, n: nat, poly: u32) returns (p: u32)
    requires 1 <= n <= 31 && a < Pow2(n) && poly < Pow2(n)
    ensures p == FieldMul(a, b, n, poly)
    ensures p < Pow2(n)
  {
    hide Rem, Xor, And, Mul, Pow2, Deg;
    var mask := Not32(Shl32(0xffff_ffff, n));
    LowMask32(n);
    ghost var g := FieldPoly(n, poly);
    FieldPolyDeg(n, poly);
    var x: u32, y: u32 := a, b;
    p := 0;
    RemSmall(a, g);
    RemSmall(0, g);
    MulZero(a);
    for i := 0 to n
      invariant y == Shr(b, i)
      invariant x == Rem(Shl(a, i), g) && x < Pow2(n)
      invariant p == Rem(Mul(a, Low(b, i)), g) && p < Pow2(n)
    {
      ProductNext(a, b, i, g);
      ShrNext(b, i);
      FitsWord(p, x, n);
      if y % 2 == 1 {
        p := Xor(p, x);
      }
      y := y / 2;
      FieldShift(x, n, poly);
      RemShl(Shl(a, i), 1, g);
      ShlShl(a, i, 1);
      Shl32Fits(x, 1, n);
      var carry := Shr(x, n - 1);
      x := And(Shl32(x, 1), mask);
      FitsWord(x, poly, n);
      if carry != 0 {
        x := Xor(x, poly);
      }
    }
  }

  lemma {:induction false} FitsWord(a: nat, b: nat, n: nat)
    requires n <= 31 && a < Pow2(n) && b < Pow2(n)
    ensures Xor(a, b) < Pow2(n) && a < TWO_32 && Xor(a, b) < TWO_32
  {
    XorBound(a, b, n);
    Pow2Mono(n, 32);
    Pow2Values();
  }

  lemma {:induction false} ShrNext(a: nat, n: nat)
    ensures Shr(a, n + 1) == Shr(a, n) / 2
  {
    if n != 0 {
      ShrNext(a / 2, n - 1);
    }
  }

  lemma {:induction false} FieldPolyDeg(n: nat, poly: nat)
    requires poly < Pow2(n)
    ensures Deg(FieldPoly(n, poly)) == n
  {
    DegUnique(FieldPoly(n, poly), n);
  }

  /** One more bit of the multiplier adds one shifted copy of `a`. */
  lemma {:induction false} ProductNext(a: nat, b: nat, i: nat, g: nat)
    requires g > 0
    ensures Rem(Mul(a, Low(b, i + 1)), g)
         == if Shr(b, i) % 2 == 1 then Xor(Rem(Mul(a, Low(b, i)), g), Rem(Shl(a, i), g)) else Rem(Mul(a, Low(b, i)), g)
  {
    var bit: nat := Shr(b, i) % 2;
    LowNext(b, i);
    MulXorRight(a, Low(b, i), Shl(bit, i));
    MulShl(a, bit, i);
    MulOne(a);
    MulZero(a);
    RemXor(Mul(a, Low(b, i)), Shl(Mul(a, bit), i), g);
    if bit == 0 {
      ShlZero(i);
      XorZero(Rem(Mul(a, Low(b, i)), g));
    }
  }

  lemma {:induction false} ShlZero(s: nat)
    ensures Shl(0, s) == 0
  {
    if s != 0 {
      ShlZero(s - 1);
    }
  }

  /** Shifting up and cutting to `n` bits, then adding `poly` if the top bit fell off,
      is multiplication by x in the field. */
  lemma {:induction false} FieldShift(x: nat, n: nat, poly: nat)
    requires 1 <= n && x < Pow2(n) && poly < Pow2(n)
    ensures And(Shl(x, 1), Pow2(n) - 1) < Pow2(n)
    ensures Rem(Shl(x, 1), FieldPoly(n, poly))
         == var y := And(Shl(x, 1), Pow2(n) - 1); if Shr(x, n - 1) != 0 then Xor(y, poly) else y
  {
    assert Shl(x, 1) == 2 * Shl(x, 0);
    AndLowMask(2 * x, n);
    ShrZero(x, n - 1);
    FieldDouble(x, n, poly);
  }

  lemma {:induction false} FieldDouble(x: nat, n: nat, poly: nat)
    requires 1 <= n && x < Pow2(n) && poly < Pow2(n)
    ensures Rem(2 * x, FieldPoly(n, poly))
         == if x < Pow2(n - 1) then Low(2 * x, n) else Xor(Low(2 * x, n), poly)
  {
    hide Rem, Xor, Deg, Low, Shr, Shl;
    var g := FieldPoly(n, poly);
    FieldPolyDeg(n, poly);
    RemSmall(x, g);
    RemStep(x, 0, g);
    if x < Pow2(n - 1) {
      LowSmall(2 * x, n);
    } else {
      // 2x = x^n + y, and g = x^n + poly
      var y := Low(2 * x, n);
      Split(2 * x, n);
      ShrOne(2 * x, n);
      Join(1, y, n);
      Join(1, poly, n);
      ShlOne(n);
      XorSwap(Pow2(n), y, Pow2(n), poly);
      XorSelf(Pow2(n));
      XorZero(Xor(y, poly));
    }
  }

  lemma {:induction false} ShrOne(a: nat, n: nat)
    requires Pow2(n) <= a < Pow2(n + 1)
    ensures Shr(a, n) == 1
  {
    if n != 0 {
      ShrOne(a / 2, n - 1);
    }
  }

  // ----- the field operations form a commutative ring

  /** Field multiplication is what GF2NMod leaves of the carry-less product. */
  lemma {:induction false} FieldMulIsProductMod(a: nat, b: nat, n: nat, poly: nat)
    requires b < Pow2(n)
    ensures FieldMul(a, b, n, poly) == Rem(Mul(a, b), Pow2(n) + poly)
  {
    hide Rem, Mul, Low;
    LowSmall(b, n);
  }

  lemma {:induction false} FieldMulCommutative(a: nat, b: nat, n: nat, poly: nat)
    requires a < Pow2(n) && b < Pow2(n) && poly < Pow2(n)
    ensures FieldMul(a, b, n, poly) == FieldMul(b, a, n, poly)
  {
    LowSmall(a, n);
    LowSmall(b, n);
    MulSym(a, b);
  }

  lemma {:induction false} FieldMulAssociative(a: nat, b: nat, c: nat, n: nat, poly: nat)
    requires a < Pow2(n) && b < Pow2(n) && c < Pow2(n) && poly < Pow2(n)
    ensures FieldMul(FieldMul(a, b, n, poly), c, n, poly) == FieldMul(a, FieldMul(b, c, n, poly), n, poly)
  {
    var g := FieldPoly(n, poly);
    FieldPolyDeg(n, poly);
    LowSmall(b, n);
    LowSmall(c, n);
    RemCorrect(Mul(b, c), g);
    LowSmall(Rem(Mul(b, c), g), n);
    RemMul(Mul(a, b), c, g);
    RemMul(Mul(b, c), a, g);
    MulSym(Mul(b, c), a);
    MulSym(Rem(Mul(b, c), g), a);
    MulAssoc(a, b, c);
  }

  /** Multiplication distributes over GF2NAdd, which is exclusive or. */
  lemma {:induction false} FieldMulDistributive(a: nat, b: nat, c: nat, n: nat, poly: nat)
    requires b < Pow2(n) && c < Pow2(n)
    ensures FieldMul(a, Xor(b, c), n, poly) == Xor(FieldMul(a, b, n, poly), FieldMul(a, c, n, poly))
  {
    XorBound(b, c, n);
    LowSmall(b, n);
    LowSmall(c, n);
    LowSmall(Xor(b, c), n);
    MulXorRight(a, b, c);
    RemXor(Mul(a, b), Mul(a, c), FieldPoly(n, poly));
  }
}
