/** What errors in the last bits of a payload ask of the checksum word of a JTAG frame
    (src/nocbridge/JTAGNOCBridgeInterface.cpp): a basis of 29 rows, whose images end at 29 different bits. */
module BurstRows {
  import opened Bits
  import opened Crc32Table
  import opened Crc32
  import opened Crc32Poly
  import opened LinkErrors

  // ----- bits of a word

  lemma {:induction false} StepsMore(t: bv32, m: nat, n: nat)
    ensures Steps(t, m + n) == Steps(Steps(t, m), n)
    decreases m
  {
    hide Step;
    if m != 0 {
      StepsMore(Step(t), m - 1, n);
    }
  }

  /** The `n` lowest bits are zero. */
  predicate LowZero(x: bv32, n: nat)
    decreases n
  {
    n == 0 || (!Odd(x) && LowZero(Half(x), n - 1))
  }

  /** Zeros come first: they only shift. */
  lemma {:induction false} ZerosShift(x: bv32, n: nat, m: nat)
    requires LowZero(x, n)
    ensures Steps(x, n + m) == Steps(Halves(x, n), m)
    decreases n
  {
    hide Odd, Half, Sum;
    if n != 0 {
      ZerosShift(Half(x), n - 1, m);
    }
  }

  lemma {:induction false} AllZero(x: bv32, n: nat)
    requires LowZero(x, n) && Halves(x, n) == 0
    ensures x == 0
    decreases n
  {
    hide Odd, Half;
    if n != 0 {
      AllZero(Half(x), n - 1);
      NoBits(x);
    }
  }

  lemma ZeroBits()
    ensures !Odd(0) && Half(0) == 0 && Sum(0, 0) == 0 && Step(0) == 0 && FlipEndian(0) == 0
  {
  }

  lemma {:induction false} HalvesZero(n: nat)
    ensures Halves(0, n) == 0
    decreases n
  {
    hide Half;
    ZeroBits();
    if n != 0 {
      HalvesZero(n - 1);
    }
  }

  lemma {:induction false} HalvesSum(x: bv32, y: bv32, n: nat)
    ensures Halves(Sum(x, y), n) == Sum(Halves(x, n), Halves(y, n))
    decreases n
  {
    hide Half, Sum;
    if n != 0 {
      HalfSum(x, y);
      HalvesSum(Half(x), Half(y), n - 1);
    }
  }

  /** Nothing from bit `m` on is nothing from bit `n` on. */
  lemma {:induction false} NothingAbove(x: bv32, m: nat, n: nat)
    requires m <= n && Halves(x, m) == 0
    ensures Halves(x, n) == 0
  {
    HalvesAdd(x, m, n - m);
    HalvesZero(n - m);
  }

  lemma {:induction false} StepsZero(n: nat)
    ensures Steps(0, n) == 0
    decreases n
  {
    hide Step;
    ZeroBits();
    if n != 0 {
      StepsZero(n - 1);
    }
  }

  lemma {:induction false} StepsLoseNothing(t: bv32, n: nat)
    requires Steps(t, n) == 0
    ensures t == 0
    decreases n
  {
    hide Step;
    if n != 0 {
      StepsLoseNothing(Step(t), n - 1);
      StepLosesNothing(t);
    }
  }

  lemma {:induction false} StepLosesNothing(t: bv32)
    ensures Step(t) == 0 ==> t == 0
  {
    OddTop(t);
    NoBits(t);
  }

  /** A step of an odd word sets the highest bit. */
  lemma {:induction false} OddTop(t: bv32)
    ensures Odd(t) ==> Step(t) >> 31 == 1
    ensures !Odd(t) ==> Step(t) == Half(t)
  {
    assert (t >> 1) & 0x8000_0000 == 0;
    assert Odd(t) ==> Step(t) & 0x8000_0000 == 0x8000_0000;
  }

  /** `Halves` without recursion. */
  function Drops(x: bv32, n: nat): bv32 {
    if n == 0 then x else if n == 1 then Drop8(x) else if n == 2 then Drop8(Drop8(x)) else Drop8(Drop8(Drop8(x)))
  }

  function FewHalves(x: bv32, n: nat): bv32 {
    if n == 0 then x
    else if n == 1 then Half(x)
    else if n == 2 then Half(Half(x))
    else if n == 3 then Half(Half(Half(x)))
    else if n == 4 then Half(Half(Half(Half(x))))
    else if n == 5 then Half(Half(Half(Half(Half(x)))))
    else if n == 6 then Half(Half(Half(Half(Half(Half(x))))))
    else Half(Half(Half(Half(Half(Half(Half(x)))))))
  }

  function ShiftBy(x: bv32, n: nat): bv32 {
    FewHalves(Drops(x, n / 8), n % 8)
  }

  lemma {:induction false} DropsAreHalves(x: bv32, n: nat)
    requires n <= 3
    ensures Drops(x, n) == Halves(x, 8 * n)
  {
    hide Drop8, Halves;
    NoHalves(x);
    HalvesByte(x);
    HalvesByte(Drop8(x));
    HalvesByte(Drop8(Drop8(x)));
    HalvesAdd(x, 8, 8);
    HalvesAdd(x, 16, 8);
  }

  lemma {:induction false} FewHalvesAreHalves(x: bv32, n: nat)
    requires n <= 7
    ensures FewHalves(x, n) == Halves(x, n)
  {
    hide Half, Halves;
    NoHalves(x);
    NextHalf(x, 0);
    NextHalf(x, 1);
    NextHalf(x, 2);
    NextHalf(x, 3);
    NextHalf(x, 4);
    NextHalf(x, 5);
    NextHalf(x, 6);
  }

  lemma {:induction false} NextHalf(x: bv32, n: nat)
    ensures Halves(x, n + 1) == Half(Halves(x, n))
  {
    hide Half;
    HalvesAdd(x, n, 1);
    OneHalf(Halves(x, n));
  }

  lemma {:induction false} NoHalves(x: bv32)
    ensures Halves(x, 0) == x
  {
  }

  lemma {:induction false} ShiftByIsHalves(x: bv32, n: nat)
    requires n < 32
    ensures ShiftBy(x, n) == Halves(x, n)
  {
    hide Drops, FewHalves, Halves;
    DropsAreHalves(x, n / 8);
    FewHalvesAreHalves(Drops(x, n / 8), n % 8);
    HalvesAdd(x, n / 8 * 8, n % 8);
  }

  lemma {:induction false} OneHalf(x: bv32)
    ensures Halves(x, 1) == Half(x)
  {
    hide Half;
    assert Halves(Half(x), 0) == Half(x);
  }

  /** `Steps` without recursion. */
  function Eights(t: bv32, n: nat): bv32 {
    if n == 0 then t else if n == 1 then Step8(t) else if n == 2 then Step8(Step8(t)) else Step8(Step8(Step8(t)))
  }

  function Ones(t: bv32, n: nat): bv32 {
    if n == 0 then t
    else if n == 1 then Step(t)
    else if n == 2 then Step(Step(t))
    else if n == 3 then Step(Step(Step(t)))
    else if n == 4 then Step(Step(Step(Step(t))))
    else if n == 5 then Step(Step(Step(Step(Step(t)))))
    else if n == 6 then Step(Step(Step(Step(Step(Step(t))))))
    else Step(Step(Step(Step(Step(Step(Step(t)))))))
  }

  lemma {:induction false} EightsAreSteps(t: bv32, n: nat)
    requires n <= 3
    ensures Eights(t, n) == Steps(t, 8 * n)
  {
    hide Step8, Steps;
    NoSteps(t);
    Step8IsSteps(t);
    Step8IsSteps(Step8(t));
    Step8IsSteps(Step8(Step8(t)));
    StepsMore(t, 8, 8);
    StepsMore(t, 16, 8);
  }

  lemma {:induction false} OnesAreSteps(t: bv32, n: nat)
    requires n <= 7
    ensures Ones(t, n) == Steps(t, n)
  {
    hide Step, Steps;
    NoSteps(t);
    OneStep(t, 0);
    OneStep(t, 1);
    OneStep(t, 2);
    OneStep(t, 3);
    OneStep(t, 4);
    OneStep(t, 5);
    OneStep(t, 6);
  }

  lemma {:induction false} NoSteps(t: bv32)
    ensures Steps(t, 0) == t
  {
  }

  lemma {:induction false} OneStep(t: bv32, n: nat)
    ensures Steps(t, n + 1) == Step(Steps(t, n))
  {
    hide Step;
    StepsMore(t, n, 1);
    NoSteps(Step(Steps(t, n)));
  }

  // ----- a burst across the end of the payload

  const ROWS := 29

  /** The change of the checksum word that the last `n` bits of the payload ask for when they have the errors `tail`. */
  function Image(tail: bv32, n: nat): bv32 {
    FlipEndian(Steps(tail, n))
  }

  /** Row `i` has errors in the last `i + 1` bits of a payload, the first of them among them. Its image has this highest
      bit, and no two rows the same. */
  function End(i: nat): nat
    requires i < ROWS
  {
    if i == 0 then 29 else if i == 1 then 31 else if i == 2 then 30 else if i == 3 then 28 else
    if i == 4 then 27 else if i == 5 then 26 else if i == 6 then 25 else if i == 7 then 24 else
    if i == 8 then 23 else if i == 9 then 22 else if i == 10 then 21 else if i == 11 then 19 else
    if i == 12 then 17 else if i == 13 then 16 else if i == 14 then 20 else if i == 15 then 15 else
    if i == 16 then 14 else if i == 17 then 18 else if i == 18 then 13 else if i == 19 then 11 else
    if i == 20 then 10 else if i == 21 then 9 else if i == 22 then 12 else if i == 23 then 8 else
    if i == 24 then 7 else if i == 25 then 5 else if i == 26 then 4 else if i == 27 then 6 else
    2
  }

  function RowOfEnd(e: nat): nat {
    if e == 29 then 0 else if e == 31 then 1 else if e == 30 then 2 else if e == 28 then 3 else
    if e == 27 then 4 else if e == 26 then 5 else if e == 25 then 6 else if e == 24 then 7 else
    if e == 23 then 8 else if e == 22 then 9 else if e == 21 then 10 else if e == 19 then 11 else
    if e == 17 then 12 else if e == 16 then 13 else if e == 20 then 14 else if e == 15 then 15 else
    if e == 14 then 16 else if e == 18 then 17 else if e == 13 then 18 else if e == 11 then 19 else
    if e == 10 then 20 else if e == 9 then 21 else if e == 12 then 22 else if e == 8 then 23 else
    if e == 7 then 24 else if e == 5 then 25 else if e == 4 then 26 else if e == 6 then 27 else
    28
  }

  lemma {:induction false} Ends(i: nat)
    requires i < ROWS
    ensures RowOfEnd(End(i)) == i && 29 - i <= End(i) < 32
  {
  }

  predicate RowOk(tail: bv32, n: nat, p: nat)
    requires n < 32 && p < 32
  {
    && Odd(tail) && ShiftBy(tail, n) == 0
    && ShiftBy(FlipEndian(Ones(Eights(tail, n / 8), n % 8)), p) == 1
  }

  /** A row checked through its register, its image and the image's highest byte. */
  lemma {:induction false} RowBy(tail: bv32, n: nat, p: nat, eights: bv32, register: bv32, image: bv32, byte: bv32)
    requires n < 32 && p < 32 && Odd(tail) && ShiftBy(tail, n) == 0
    requires Eights(tail, n / 8) == eights && Ones(eights, n % 8) == register && FlipEndian(register) == image
    requires Drops(image, p / 8) == byte && FewHalves(byte, p % 8) == 1
    ensures RowOk(tail, n, p)
  {
    hide Odd, Eights, Ones, FlipEndian, Drops, FewHalves;
  }

  lemma Rows0()
    ensures RowOk(0x1, 1, 29) && RowOk(0x1, 2, 31)
    ensures RowOk(0x3, 3, 30) && RowOk(0xf, 4, 28)
  {
    hide RowOk;
    RowBy(0x1, 1, 29, 0x1, 0xedb88320, 0x2083b8ed, 0x20);
    RowBy(0x1, 2, 31, 0x1, 0x76dc4190, 0x9041dc76, 0x90);
    RowBy(0x3, 3, 30, 0x3, 0x4db26158, 0x5861b24d, 0x58);
    RowBy(0xf, 4, 28, 0xf, 0xbdbdf21c, 0x1cf2bdbd, 0x1c);
  }

  lemma Rows4()
    ensures RowOk(0xf, 5, 27) && RowOk(0x3d, 6, 26)
    ensures RowOk(0x7d, 7, 25) && RowOk(0x4f, 8, 24)
  {
    hide RowOk;
    RowBy(0xf, 5, 27, 0xf, 0x5edef90e, 0xef9de5e, 0xe);
    RowBy(0x3d, 6, 26, 0x3d, 0xbad03605, 0x536d0ba, 0x5);
    RowBy(0x7d, 7, 25, 0x7d, 0x5d681b02, 0x21b685d, 0x2);
    RowBy(0x4f, 8, 24, 0xe6635c01, 0xe6635c01, 0x15c63e6, 0x1);
  }

  lemma Rows8()
    ensures RowOk(0x14f, 9, 23) && RowOk(0x3d1, 10, 22)
  {
    hide RowOk;
    RowBy(0x14f, 9, 23, 0xe6635c00, 0x7331ae00, 0xae3173, 0xae);
    RowBy(0x3d1, 10, 22, 0xf1d4e241, 0x4aa97900, 0x79a94a, 0x79);
  }

  lemma Rows10()
    ensures RowOk(0xdf, 11, 21) && RowOk(0xb19, 12, 19)
  {
    hide RowOk;
    RowBy(0xdf, 11, 21, 0x166ccf45, 0xd41b3a00, 0x3a1bd4, 0x3a);
    RowBy(0xb19, 12, 19, 0x646ba8cb, 0xcd270900, 0x927cd, 0x9);
  }

  lemma Rows12()
    ensures RowOk(0x721, 13, 17) && RowOk(0x721, 14, 16)
  {
    hide RowOk;
    RowBy(0x721, 13, 17, 0x4c691059, 0x97dc0200, 0x2dc97, 0x2);
    RowBy(0x721, 14, 16, 0x4c691059, 0x4bee0100, 0x1ee4b, 0x1);
  }

  lemma Rows14()
    ensures RowOk(0x69f1, 15, 20) && RowOk(0xd861, 16, 15)
  {
    hide RowOk;
    RowBy(0x69f1, 15, 20, 0xcabac2e3, 0x73921200, 0x129273, 0x12);
    assert Step8(0xd861) == 0x3ab55116 && Step8(0x3ab55116) == 0xf4ee0000;
    RowBy(0xd861, 16, 15, 0xf4ee0000, 0xf4ee0000, 0xeef4, 0xee);
  }

  lemma Rows16()
    ensures RowOk(0xd861, 17, 14) && RowOk(0x18249, 18, 18)
  {
    hide RowOk;
    assert Step8(0xd861) == 0x3ab55116 && Step8(0x3ab55116) == 0xf4ee0000;
    RowBy(0xd861, 17, 14, 0xf4ee0000, 0x7a770000, 0x777a, 0x77);
    assert Step8(0x18249) == 0xf00f8b6 && Step8(0xf00f8b6) == 0x220d1641;
    RowBy(0x18249, 18, 18, 0x220d1641, 0x7e5f0400, 0x45f7e, 0x4);
  }

  lemma Rows18()
    ensures RowOk(0x739c3, 19, 13) && RowOk(0xc7cdb, 20, 11)
  {
    hide RowOk;
    assert Step8(0x739c3) == 0x26d9433 && Step8(0x26d9433) == 0xbfd20c82;
    RowBy(0x739c3, 19, 13, 0xbfd20c82, 0x61260000, 0x2661, 0x26);
    assert Step8(0xc7cdb) == 0x11010720 && Step8(0x11010720) == 0x3b7f21cf;
    RowBy(0xc7cdb, 20, 11, 0x3b7f21cf, 0xbe0a0000, 0xabe, 0xa);
  }

  lemma Rows20()
    ensures RowOk(0xc7cdb, 21, 10) && RowOk(0xdd905, 22, 9)
  {
    hide RowOk;
    assert Step8(0xc7cdb) == 0x11010720 && Step8(0x11010720) == 0x3b7f21cf;
    RowBy(0xc7cdb, 21, 10, 0x3b7f21cf, 0x5f050000, 0x55f, 0x5);
    assert Step8(0xdd905) == 0x706af956 && Step8(0x706af956) == 0x82789e38;
    RowBy(0xdd905, 22, 9, 0x82789e38, 0xa2030000, 0x3a2, 0x3);
  }

  lemma Rows22()
    ensures RowOk(0x375ca1, 23, 12) && RowOk(0xdc470f, 24, 8)
  {
    hide RowOk;
    assert Step8(0x375ca1) == 0xa1d1a422 && Step8(0xa1d1a422) == 0xd5c19040;
    RowBy(0x375ca1, 23, 12, 0xd5c19040, 0xec130000, 0x13ec, 0x13);
    assert Step8(0xdc470f) == 0x90bfc1d6 && Step8(0x90bfc1d6) == 0x6f20c820 && Step8(0x6f20c820) == 0x3b010000;
    RowBy(0xdc470f, 24, 8, 0x3b010000, 0x3b010000, 0x13b, 0x1);
  }

  lemma Rows24()
    ensures RowOk(0x169e7e1, 25, 7) && RowOk(0x3cebdeb, 26, 5)
  {
    hide RowOk;
    assert Step8(0x169e7e1) == 0xd70cbb09 && Step8(0xd70cbb09) == 0x790bb41f && Step8(0x790bb41f) == 0x8d710641;
    RowBy(0x169e7e1, 25, 7, 0x8d710641, 0xab000000, 0xab, 0xab);
    assert Step8(0x3cebdeb) == 0x37dbf54d && Step8(0x37dbf54d) == 0x85ae6d8 && Step8(0x85ae6d8) == 0x88000000;
    RowBy(0x3cebdeb, 26, 5, 0x88000000, 0x22000000, 0x22, 0x22);
  }

  lemma Rows26()
    ensures RowOk(0x3cebdeb, 27, 4) && RowOk(0x1f459b9, 28, 6)
  {
    hide RowOk;
    assert Step8(0x3cebdeb) == 0x37dbf54d && Step8(0x37dbf54d) == 0x85ae6d8 && Step8(0x85ae6d8) == 0x88000000;
    RowBy(0x3cebdeb, 27, 4, 0x88000000, 0x11000000, 0x11, 0x11);
    assert Step8(0x1f459b9) == 0xb2bcff71 && Step8(0xb2bcff71) == 0x27b0fd55 && Step8(0x27b0fd55) == 0x1b261586;
    RowBy(0x1f459b9, 28, 6, 0x1b261586, 0x4c000000, 0x4c, 0x4c);
  }

  lemma Rows28()
    ensures RowOk(0x1f81b6e1, 29, 2)
  {
    hide RowOk;
    assert Step8(0x1f81b6e1) == 0xd7125358 && Step8(0xd7125358) == 0x6567cb95 && Step8(0x6567cb95) == 0x80000000;
    RowBy(0x1f81b6e1, 29, 2, 0x80000000, 0x4000000, 0x4, 0x4);
  }

  lemma {:induction false} RowAt(i: nat) returns (tail: bv32)
    requires i < ROWS
    ensures End(i) < 32 && RowOk(tail, i + 1, End(i))
  {
    hide RowOk;
    match i
    case 0 => Rows0(); tail := 0x1;
    case 1 => Rows0(); tail := 0x1;
    case 2 => Rows0(); tail := 0x3;
    case 3 => Rows0(); tail := 0xf;
    case 4 => Rows4(); tail := 0xf;
    case 5 => Rows4(); tail := 0x3d;
    case 6 => Rows4(); tail := 0x7d;
    case 7 => Rows4(); tail := 0x4f;
    case 8 => Rows8(); tail := 0x14f;
    case 9 => Rows8(); tail := 0x3d1;
    case 10 => Rows10(); tail := 0xdf;
    case 11 => Rows10(); tail := 0xb19;
    case 12 => Rows12(); tail := 0x721;
    case 13 => Rows12(); tail := 0x721;
    case 14 => Rows14(); tail := 0x69f1;
    case 15 => Rows14(); tail := 0xd861;
    case 16 => Rows16(); tail := 0xd861;
    case 17 => Rows16(); tail := 0x18249;
    case 18 => Rows18(); tail := 0x739c3;
    case 19 => Rows18(); tail := 0xc7cdb;
    case 20 => Rows20(); tail := 0xc7cdb;
    case 21 => Rows20(); tail := 0xdd905;
    case 22 => Rows22(); tail := 0x375ca1;
    case 23 => Rows22(); tail := 0xdc470f;
    case 24 => Rows24(); tail := 0x169e7e1;
    case 25 => Rows24(); tail := 0x3cebdeb;
    case 26 => Rows26(); tail := 0x3cebdeb;
    case 27 => Rows26(); tail := 0x1f459b9;
    case _ => Rows28(); tail := 0x1f81b6e1;
  }

  /** `p` is the highest bit of `x`. */
  predicate Top(x: bv32, p: nat) {
    Halves(x, p) == 1
  }

  lemma {:induction false} Row(i: nat) returns (tail: bv32)
    requires i < ROWS
    ensures Odd(tail) && Halves(tail, i + 1) == 0 && Top(Image(tail, i + 1), End(i)) && End(i) < 32
  {
    hide Steps, Halves, FlipEndian, Odd, ShiftBy, Ones, Eights, End;
    tail := RowAt(i);
    var a, b := (i + 1) / 8, (i + 1) % 8;
    EightsAreSteps(tail, a);
    OnesAreSteps(Eights(tail, a), b);
    StepsMore(tail, 8 * a, b);
    ShiftByIsHalves(tail, i + 1);
    ShiftByIsHalves(Image(tail, i + 1), End(i));
  }

  lemma {:induction false} OneAbove(n: nat)
    requires n > 0
    ensures Halves(1, n) == 0
  {
    assert Half(1) == 0;
    HalvesZero(n - 1);
  }

  lemma {:induction false} TopSum(x: bv32, y: bv32, p: nat, q: nat)
    requires Top(x, p) && Top(y, q) && p != q
    ensures Top(Sum(x, y), if p < q then q else p)
  {
    hide Sum;
    var m := if p < q then q else p;
    HalvesSum(x, y, m);
    SumNothing(1);
    SumSides(0, 1);
    if p < q {
      HalvesAdd(x, p, q - p);
      OneAbove(q - p);
    } else {
      HalvesAdd(y, q, p - q);
      OneAbove(p - q);
    }
  }

  lemma {:induction false} ImageSum(x: bv32, y: bv32, n: nat)
    ensures Image(Sum(x, y), n) == Sum(Image(x, n), Image(y, n))
  {
    hide FlipEndian, Steps, Sum;
    StepsLinear(x, y, n);
    FlipLinear(Steps(x, n), Steps(y, n));
  }

  lemma {:induction false} EvenImage(tail: bv32, n: nat)
    requires !Odd(tail) && n > 0
    ensures Image(tail, n) == Image(Half(tail), n - 1) && Halves(tail, n) == Halves(Half(tail), n - 1)
  {
    hide FlipEndian, Half, Odd, Sum;
  }

  lemma {:induction false} TakeBack(x: bv32, y: bv32)
    ensures Sum(Sum(x, y), y) == x && (Sum(x, y) == 0 ==> x == y)
  {
    hide Sum;
    SumGroup(x, y, y);
    SumNothing(x);
    SumNothing(y);
    SumGroup(0, y, y);
  }

  /** Whatever errors the last `n` bits of the payload have, the highest bit of their image is that of a row. */
  lemma {:induction false} Answered(tail: bv32, n: nat) returns (j: nat)
    requires 0 < n <= ROWS && tail != 0 && Halves(tail, n) == 0
    ensures j < n && Top(Image(tail, n), End(j))
    decreases n, 0
  {
    hide Image, Top, End, Sum, Odd, Half, Halves, RowOfEnd;
    if !Odd(tail) {
      j := AnsweredLater(tail, n);
    } else {
      var row := Row(n - 1);
      var rest := Sum(tail, row);
      TakeBack(tail, row);
      ImageSum(rest, row, n);
      if rest == 0 {
        return n - 1;
      }
      OddSum(tail, row);
      HalvesSum(tail, row, n);
      ZeroBits();
      j := AnsweredLater(rest, n);
      Ends(j);
      Ends(n - 1);
      TopSum(Image(rest, n), Image(row, n), End(j), End(n - 1));
      j := if End(j) < End(n - 1) then n - 1 else j;
    }
  }

  lemma {:induction false} AnsweredLater(tail: bv32, n: nat) returns (j: nat)
    requires 0 < n <= ROWS && tail != 0 && Halves(tail, n) == 0 && !Odd(tail)
    ensures j + 1 < n && Top(Image(tail, n), End(j))
    decreases n - 1, 1
  {
    hide Image, Top, End, Odd, Half, Halves;
    EvenImage(tail, n);
    if Half(tail) == 0 {
      NoBits(tail);
      assert false;
    }
    if n == 1 {
      NoHalves(Half(tail));
      assert false;
    }
    j := Answered(Half(tail), n - 1);
  }

  /** Errors in the last `n` bits of the payload ask for a change of the checksum word that goes beyond the bits of a
      burst of 30. */
  lemma {:induction false} AcrossGoesFar(tail: bv32, n: nat, e: bv32)
    requires tail != 0 && 0 < n <= ROWS && Halves(tail, n) == 0 && Halves(e, 30 - n) == 0
    ensures Image(tail, n) != e
  {
    hide Image, End, Halves, RowOfEnd;
    var j := Answered(tail, n);
    Ends(j);
    NothingAbove(e, 30 - n, End(j));
  }
}
