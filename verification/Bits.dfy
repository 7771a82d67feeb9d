/** Unsigned machine words as natural numbers, with the C bit operators spelled out
    bit by bit. A word of `n` bits is a natural number below `Pow2(n)`. */
module Bits {

  const TWO_32 := 0x1_0000_0000

  type u8 = n: nat | n < 0x100
  type u16 = n: nat | n < 0x1_0000
  type u32 = n: nat | n < TWO_32

  function Pow2(n: nat): (r: nat)
    ensures r > 0
  {
    if n == 0 then 1 else 2 * Pow2(n - 1)
  }

  /** `a << s` without a width: no bit is lost. */
  function Shl(a: nat, s: nat): nat
    decreases s
  {
    if s == 0 then a else 2 * Shl(a, s - 1)
  }

  /** `a >> s` on an unsigned operand. */
  function Shr(a: nat, s: nat): nat
    decreases s
  {
    if s == 0 then a else Shr(a / 2, s - 1)
  }

  /** `a << s` on 32-bit operands: bits shifted past bit 31 are lost. */
  function Shl32(a: u32, s: nat): u32 {
    Shl(a, s) % TWO_32
  }

  /** `~a` on a 32-bit operand. */
  function Not32(a: u32): u32 {
    TWO_32 - 1 - a
  }

  /** The low `n` bits of `a`: what assigning to an `n`-bit word keeps. */
  function Low(a: nat, n: nat): (r: nat)
    ensures r < Pow2(n)
    decreases n
  {
    if n == 0 then 0 else a % 2 + 2 * Low(a / 2, n - 1)
  }

  /** Exclusive or, bit by bit from the least significant end. */
  function Xor(a: nat, b: nat): nat {
    if a == 0 then b else (a + b) % 2 + 2 * Xor(a / 2, b / 2)
  }

  /** Bitwise and. */
  function And(a: nat, b: nat): nat {
    if a == 0 then 0 else (if a % 2 == 1 && b % 2 == 1 then 1 else 0) + 2 * And(a / 2, b / 2)
  }

  /** Bitwise or. */
  function Or(a: nat, b: nat): nat {
    if a == 0 then b else (if a % 2 == 1 || b % 2 == 1 then 1 else 0) + 2 * Or(a / 2, b / 2)
  }

  // ----- powers of two

  lemma {:induction false} Pow2Mono(m: nat, n: nat)
    requires m <= n
    ensures Pow2(m) <= Pow2(n)
  {
    if m < n {
      Pow2Mono(m, n - 1);
    }
  }

  lemma Pow2Values()
    ensures Pow2(0) == 1 && Pow2(1) == 2 && Pow2(2) == 4 && Pow2(3) == 8 && Pow2(4) == 16
    ensures Pow2(5) == 0x20 && Pow2(6) == 0x40 && Pow2(7) == 0x80 && Pow2(8) == 0x100
    ensures Pow2(16) == 0x1_0000 && Pow2(24) == 0x100_0000 && Pow2(31) == 0x8000_0000 && Pow2(32) == TWO_32
  {
    assert Pow2(8) == 0x100;
    assert Pow2(16) == 0x1_0000;
    assert Pow2(24) == 0x100_0000;
  }

  // ----- exclusive or is an abelian group in which every word is its own inverse

  lemma {:induction false} XorZero(a: nat)
    ensures Xor(a, 0) == a && Xor(0, a) == a
  {
    if a != 0 {
      XorZero(a / 2);
    }
  }

  /** The last bit and the rest of an exclusive or, for any operands. */
  lemma {:induction false} XorStep(a: nat, b: nat)
    ensures Xor(a, b) == (a + b) % 2 + 2 * Xor(a / 2, b / 2)
    ensures Xor(a, b) % 2 == (a + b) % 2
    ensures Xor(a, b) / 2 == Xor(a / 2, b / 2)
  {
    if a == 0 {
      assert b == b % 2 + 2 * (b / 2);
    }
    HalfOf((a + b) % 2, Xor(a / 2, b / 2));
  }

  lemma {:induction false} HalfOf(t: nat, x: nat)
    requires t < 2
    ensures (t + 2 * x) % 2 == t && (t + 2 * x) / 2 == x
  {
  }

  lemma {:induction false} XorSym(a: nat, b: nat)
    ensures Xor(a, b) == Xor(b, a)
  {
    if a == 0 || b == 0 {
      XorZero(a);
      XorZero(b);
    } else {
      XorSym(a / 2, b / 2);
    }
  }

  lemma {:induction false} XorSelf(a: nat)
    ensures Xor(a, a) == 0
  {
    if a != 0 {
      XorSelf(a / 2);
    }
  }

  lemma {:induction false} XorAssoc(a: nat, b: nat, c: nat)
    ensures Xor(Xor(a, b), c) == Xor(a, Xor(b, c))
    decreases a + b + c
  {
    if a == 0 || b == 0 || c == 0 {
      XorZero(a);
      XorZero(b);
      XorZero(c);
      XorZero(Xor(a, b));
    } else {
      XorAssoc(a / 2, b / 2, c / 2);
      var ab, bc := Xor(a, b), Xor(b, c);
      XorStep(a, b);
      XorStep(b, c);
      XorStep(ab, c);
      XorStep(a, bc);
      assert (ab + c) % 2 == (a + bc) % 2 by {
        ParitySum(a, b);
        ParitySum(b, c);
        ParitySum(ab, c);
        ParitySum(a, bc);
      }
    }
  }

  lemma ParitySum(a: nat, b: nat)
    ensures (a + b) % 2 == if a % 2 == b % 2 then 0 else 1
  {
  }

  lemma XorCancel(a: nat, b: nat)
    ensures Xor(a, Xor(a, b)) == b && Xor(Xor(b, a), a) == b
  {
    hide *;
    XorAssoc(a, a, b);
    XorAssoc(b, a, a);
    XorSelf(a);
    XorZero(b);
  }

  /** Two pairs may be exchanged: (a+b)+(c+d) = (a+c)+(b+d). */
  lemma {:induction false} XorSwap(a: nat, b: nat, c: nat, d: nat)
    ensures Xor(Xor(a, b), Xor(c, d)) == Xor(Xor(a, c), Xor(b, d))
  {
    hide *;
    XorAssoc(a, b, Xor(c, d));
    XorAssoc(b, c, d);
    XorSym(b, c);
    XorAssoc(c, b, d);
    XorAssoc(a, c, Xor(b, d));
  }

  lemma {:induction false} XorEqZero(a: nat, b: nat)
    ensures Xor(a, b) == 0 <==> a == b
  {
    hide *;
    XorSelf(a);
    if Xor(a, b) == 0 {
      XorCancel(a, b);
      XorZero(a);
    }
  }

  lemma {:induction false} XorDouble(a: nat, b: nat)
    ensures Xor(2 * a, 2 * b) == 2 * Xor(a, b)
  {
    hide Xor;
    XorStep(2 * a, 2 * b);
  }

  lemma {:induction false} XorShl(a: nat, b: nat, s: nat)
    ensures Xor(Shl(a, s), Shl(b, s)) == Shl(Xor(a, b), s)
  {
    if s != 0 {
      XorShl(a, b, s - 1);
      XorDouble(Shl(a, s - 1), Shl(b, s - 1));
    }
  }

  lemma {:induction false} XorShr(a: nat, b: nat, s: nat)
    ensures Xor(Shr(a, s), Shr(b, s)) == Shr(Xor(a, b), s)
  {
    if s != 0 {
      XorShr(a / 2, b / 2, s - 1);
      XorStep(a, b);
    }
  }

  lemma {:induction false} XorLow(a: nat, b: nat, n: nat)
    ensures Xor(Low(a, n), Low(b, n)) == Low(Xor(a, b), n)
  {
    if n != 0 {
      XorLow(a / 2, b / 2, n - 1);
      XorStep(a, b);
      XorStep(Low(a, n), Low(b, n));
      assert Low(a, n) / 2 == Low(a / 2, n - 1) && Low(b, n) / 2 == Low(b / 2, n - 1);
      ParitySum(a, b);
      ParitySum(Low(a, n), Low(b, n));
    }
  }

  lemma {:induction false} XorBound(a: nat, b: nat, n: nat)
    requires a < Pow2(n) && b < Pow2(n)
    ensures Xor(a, b) < Pow2(n)
  {
    if n != 0 {
      XorBound(a / 2, b / 2, n - 1);
      XorStep(a, b);
    }
  }

  /** Both operands have their top bit at position `n`: the tops cancel. */
  lemma {:induction false} XorTopsCancel(a: nat, b: nat, n: nat)
    requires Pow2(n) <= a < Pow2(n + 1) && Pow2(n) <= b < Pow2(n + 1)
    ensures Xor(a, b) < Pow2(n)
  {
    XorStep(a, b);
    if n == 0 {
      assert a == 1 && b == 1;
    } else {
      XorTopsCancel(a / 2, b / 2, n - 1);
    }
  }

  /** Only one operand reaches position `n`: its top bit survives. */
  lemma {:induction false} XorTopStays(a: nat, b: nat, n: nat)
    requires Pow2(n) <= a < Pow2(n + 1) && b < Pow2(n)
    ensures Pow2(n) <= Xor(a, b) < Pow2(n + 1)
  {
    XorStep(a, b);
    if n == 0 {
      XorZero(a);
    } else {
      XorTopStays(a / 2, b / 2, n - 1);
    }
  }

  // ----- shifting and splitting a word

  lemma {:induction false} ShlBound(a: nat, s: nat, n: nat)
    requires a < Pow2(n)
    ensures Shl(a, s) < Pow2(n + s)
  {
    if s != 0 {
      ShlBound(a, s - 1, n);
    }
  }

  lemma {:induction false} ShlFloor(a: nat, s: nat, n: nat)
    requires a >= Pow2(n)
    ensures Shl(a, s) >= Pow2(n + s)
  {
    if s != 0 {
      ShlFloor(a, s - 1, n);
    }
  }

  lemma {:induction false} ShlShl(a: nat, s: nat, t: nat)
    ensures Shl(Shl(a, s), t) == Shl(a, s + t)
  {
    if t != 0 {
      ShlShl(a, s, t - 1);
    }
  }

  /** Shifting by one first or last is the same. */
  lemma {:induction false} ShlDouble(a: nat, s: nat)
    ensures Shl(2 * a, s) == 2 * Shl(a, s)
  {
    if s != 0 {
      ShlDouble(a, s - 1);
    }
  }

  lemma {:induction false} ShlAdd(a: nat, b: nat, s: nat)
    ensures Shl(a + b, s) == Shl(a, s) + Shl(b, s)
  {
    if s != 0 {
      ShlAdd(a, b, s - 1);
    }
  }

  lemma {:induction false} ShlMono(a: nat, b: nat, s: nat)
    requires a < b
    ensures Shl(a, s) + Pow2(s) <= Shl(b, s)
  {
    if s != 0 {
      ShlMono(a, b, s - 1);
    }
  }

  lemma {:induction false} ShrZero(a: nat, s: nat)
    ensures Shr(a, s) == 0 <==> a < Pow2(s)
  {
    if s != 0 {
      ShrZero(a / 2, s - 1);
    }
  }

  lemma {:induction false} ShrBound(a: nat, s: nat, n: nat)
    requires a < Pow2(n + s)
    ensures Shr(a, s) < Pow2(n)
  {
    if s != 0 {
      ShrBound(a / 2, s - 1, n);
    }
  }

  /** A word is its high part shifted up plus its low part. */
  lemma {:induction false} Split(a: nat, n: nat)
    ensures a == Shl(Shr(a, n), n) + Low(a, n)
    ensures Shl(Shr(a, n), n) <= a
  {
    if n != 0 {
      Split(a / 2, n - 1);
    }
  }

  /** ... and the parts of a concatenation are the words it was made of. */
  lemma {:induction false} Join(h: nat, l: nat, n: nat)
    requires l < Pow2(n)
    ensures Shr(Shl(h, n) + l, n) == h
    ensures Low(Shl(h, n) + l, n) == l
    ensures Xor(Shl(h, n), l) == Shl(h, n) + l
    ensures Or(Shl(h, n), l) == Shl(h, n) + l
  {
    hide Xor, Or;
    if n == 0 {
      XorZero(h);
      OrZero(h);
    } else {
      Join(h, l / 2, n - 1);
      var x := Shl(h, n - 1);
      HalfOf(l % 2, x + l / 2);
      HalfOf(0, x);
      XorStep(2 * x, l);
      OrStep(2 * x, l);
    }
  }

  lemma {:induction false} XorJoined(h: nat, l: nat, h': nat, l': nat, n: nat)
    requires l < Pow2(n) && l' < Pow2(n)
    ensures Xor(Shl(h, n) + l, Shl(h', n) + l') == Shl(Xor(h, h'), n) + Xor(l, l')
    ensures Xor(l, l') < Pow2(n)
  {
    hide *;
    Join(h, l, n);
    Join(h', l', n);
    XorSwap(Shl(h, n), l, Shl(h', n), l');
    XorShl(h, h', n);
    XorBound(l, l', n);
    Join(Xor(h, h'), Xor(l, l'), n);
  }

  lemma {:induction false} LowSmall(a: nat, n: nat)
    requires a < Pow2(n)
    ensures Low(a, n) == a
  {
    if n != 0 {
      LowSmall(a / 2, n - 1);
    }
  }

  lemma {:induction false} OrZero(a: nat)
    ensures Or(a, 0) == a
  {
    if a != 0 {
      OrZero(a / 2);
    }
  }

  lemma {:induction false} OrSym(a: nat, b: nat)
    ensures Or(a, b) == Or(b, a)
  {
    if a == 0 || b == 0 {
      OrZero(a);
      OrZero(b);
    } else {
      OrSym(a / 2, b / 2);
    }
  }

  lemma {:induction false} OrStep(a: nat, b: nat)
    ensures Or(a, b) == (if a % 2 == 1 || b % 2 == 1 then 1 else 0) + 2 * Or(a / 2, b / 2)
  {
  }

  // ----- masks

  lemma {:induction false} AndZero(a: nat)
    ensures And(a, 0) == 0
  {
    if a != 0 {
      AndZero(a / 2);
    }
  }

  lemma {:induction false} AndStep(a: nat, b: nat)
    ensures And(a, b) == (if a % 2 == 1 && b % 2 == 1 then 1 else 0) + 2 * And(a / 2, b / 2)
  {
  }

  /** The mask with the low `n` bits set. */
  lemma {:induction false} AndLowMask(a: nat, n: nat)
    ensures And(a, Pow2(n) - 1) == Low(a, n)
  {
    if n == 0 {
      AndZero(a);
    } else {
      AndLowMask(a / 2, n - 1);
      AndStep(a, Pow2(n) - 1);
      assert (Pow2(n) - 1) / 2 == Pow2(n - 1) - 1;
    }
  }

  /** The mask with bits `lo .. hi-1` set keeps exactly those bits of `a`. */
  lemma {:induction false} AndMask(a: nat, lo: nat, hi: nat)
    requires lo <= hi
    ensures Pow2(lo) <= Pow2(hi)
    ensures And(a, Pow2(hi) - Pow2(lo)) == Shl(Low(Shr(a, lo), hi - lo), lo)
    decreases lo
  {
    Pow2Mono(lo, hi);
    if lo == 0 {
      AndLowMask(a, hi);
    } else {
      AndMask(a / 2, lo - 1, hi - 1);
      AndStep(a, Pow2(hi) - Pow2(lo));
    }
  }

  /** The word with bits `s .. m-1` set is all ones shifted up by `s` and cut to `m` bits. */
  lemma {:induction false} OnesShifted(k: nat, s: nat, m: nat)
    requires s <= m <= k + s
    ensures Low(Shl(Pow2(k) - 1, s), m) == Pow2(m) - Pow2(s)
    decreases s
  {
    if s == 0 {
      OnesCut(k, m);
    } else {
      OnesShifted(k, s - 1, m - 1);
      assert Shl(Pow2(k) - 1, s) / 2 == Shl(Pow2(k) - 1, s - 1);
    }
  }

  lemma {:induction false} OnesCut(k: nat, m: nat)
    requires m <= k
    ensures Low(Pow2(k) - 1, m) == Pow2(m) - 1
  {
    if m != 0 {
      OnesCut(k - 1, m - 1);
      HalfOf(1, Pow2(k - 1) - 1);
      assert Pow2(k) - 1 == 1 + 2 * (Pow2(k - 1) - 1);
    }
  }

  /** `~(0xffffffff << n)` is the mask with the low `n` bits set. */
  lemma {:induction false} LowMask32(n: nat)
    requires n <= 32
    ensures Not32(Shl32(0xffff_ffff, n)) == Pow2(n) - 1
  {
    Pow2Values();
    var w: nat := 32;
    OnesShifted(w, n, w);
    LowIsMod(Shl(0xffff_ffff, n), w);
  }

  /** Taking one more low bit. */
  lemma {:induction false} LowNext(a: nat, n: nat)
    ensures Low(a, n + 1) == Xor(Low(a, n), Shl(Shr(a, n) % 2, n))
  {
    if n == 0 {
      assert Low(a, 1) == a % 2;
    } else {
      LowNext(a / 2, n - 1);
      var bit: nat := Shr(a / 2, n - 1) % 2;
      var x, y := Low(a / 2, n - 1), Shl(bit, n - 1);
      XorLastBit(a % 2, x, y);
      assert Shl(bit, n) == 2 * y;
    }
  }

  lemma {:induction false} XorLastBit(t: nat, x: nat, y: nat)
    requires t < 2
    ensures Xor(t + 2 * x, 2 * y) == t + 2 * Xor(x, y)
  {
    hide Xor;
    XorStep(t + 2 * x, 2 * y);
    HalfOf(t, x);
    HalfOf(0, y);
    HalfOf(t, x + y);
  }

  // ----- shifts as division

  lemma {:induction false} ShlIsTimes(a: nat, n: nat)
    ensures Shl(a, n) == a * Pow2(n)
  {
    if n != 0 {
      ShlIsTimes(a, n - 1);
      var p := Pow2(n - 1);
      assert a * (2 * p) == 2 * (a * p);
    }
  }

  lemma {:induction false} ShlOne(n: nat)
    ensures Shl(1, n) == Pow2(n)
  {
    if n != 0 {
      ShlOne(n - 1);
    }
  }

  lemma {:induction false} LowIsMod(a: nat, n: nat)
    ensures Low(a, n) == a % Pow2(n)
    ensures Shr(a, n) == a / Pow2(n)
  {
    Split(a, n);
    ShlIsTimes(Shr(a, n), n);
    DivModUnique(a, Pow2(n), Shr(a, n), Low(a, n));
  }

  lemma {:induction false} DivModUnique(x: int, p: int, q: int, r: int)
    requires p > 0 && x == q * p + r && 0 <= r < p
    ensures x / p == q && x % p == r
  {
    EuclidUnique(x / p, x % p, q, r, p);
  }

  lemma {:induction false} EuclidUnique(q: int, r: int, q': int, r': int, p: int)
    requires 0 <= r < p && 0 <= r' < p && q * p + r == q' * p + r'
    ensures q == q' && r == r'
  {
    assert (q - q') * p == q * p - q' * p;
    assert (q' - q) * p == q' * p - q * p;
    if q > q' {
      MulAtLeast(q - q', p);
      assert false;
    } else if q < q' {
      MulAtLeast(q' - q, p);
      assert false;
    }
  }

  lemma {:induction false} MulAtLeast(d: int, p: int)
    requires d > 0 && p >= 0
    ensures d * p >= p
  {
    assert d * p == (d - 1) * p + p;
  }

  /** A left shift that stays within 32 bits loses nothing. */
  lemma {:induction false} Shl32Fits(a: u32, s: nat, n: nat)
    requires a < Pow2(n) && n + s <= 32
    ensures Shl32(a, s) == Shl(a, s) < Pow2(n + s) <= TWO_32
  {
    ShlBound(a, s, n);
    Pow2Mono(n + s, 32);
    Pow2Values();
  }

  // ----- or as concatenation

  lemma {:induction false} OrConcat(h: nat, l: nat, n: nat)
    requires l < Pow2(n)
    ensures Or(h * Pow2(n), l) == h * Pow2(n) + l
  {
    hide Or;
    Join(h, l, n);
    ShlIsTimes(h, n);
  }

  lemma {:induction false} OrBound(a: nat, b: nat, n: nat)
    requires a < Pow2(n) && b < Pow2(n)
    ensures Or(a, b) < Pow2(n)
  {
    if n != 0 {
      OrBound(a / 2, b / 2, n - 1);
      OrStep(a, b);
    }
  }
}
