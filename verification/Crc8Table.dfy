/** The lookup table of the header checksum (src/nocbridge/JTAGNOCBridgeInterface.cpp):
    entry i is computed from the ATM HEC polynomial x^8 + x^2 + x + 1. */
module Crc8Table {

  /** Entry 16r + j of the table. */
  function Entry(r: nat, j: nat): nat {
    match r
    case 0 => Column(j, 0x00, 0x07, 0x0e, 0x09, 0x1c, 0x1b, 0x12, 0x15, 0x38, 0x3f, 0x36, 0x31, 0x24, 0x23, 0x2a, 0x2d)
    case 1 => Column(j, 0x70, 0x77, 0x7e, 0x79, 0x6c, 0x6b, 0x62, 0x65, 0x48, 0x4f, 0x46, 0x41, 0x54, 0x53, 0x5a, 0x5d)
    case 2 => Column(j, 0xe0, 0xe7, 0xee, 0xe9, 0xfc, 0xfb, 0xf2, 0xf5, 0xd8, 0xdf, 0xd6, 0xd1, 0xc4, 0xc3, 0xca, 0xcd)
    case 3 => Column(j, 0x90, 0x97, 0x9e, 0x99, 0x8c, 0x8b, 0x82, 0x85, 0xa8, 0xaf, 0xa6, 0xa1, 0xb4, 0xb3, 0xba, 0xbd)
    case 4 => Column(j, 0xc7, 0xc0, 0xc9, 0xce, 0xdb, 0xdc, 0xd5, 0xd2, 0xff, 0xf8, 0xf1, 0xf6, 0xe3, 0xe4, 0xed, 0xea)
    case 5 => Column(j, 0xb7, 0xb0, 0xb9, 0xbe, 0xab, 0xac, 0xa5, 0xa2, 0x8f, 0x88, 0x81, 0x86, 0x93, 0x94, 0x9d, 0x9a)
    case 6 => Column(j, 0x27, 0x20, 0x29, 0x2e, 0x3b, 0x3c, 0x35, 0x32, 0x1f, 0x18, 0x11, 0x16, 0x03, 0x04, 0x0d, 0x0a)
    case 7 => Column(j, 0x57, 0x50, 0x59, 0x5e, 0x4b, 0x4c, 0x45, 0x42, 0x6f, 0x68, 0x61, 0x66, 0x73, 0x74, 0x7d, 0x7a)
    case 8 => Column(j, 0x89, 0x8e, 0x87, 0x80, 0x95, 0x92, 0x9b, 0x9c, 0xb1, 0xb6, 0xbf, 0xb8, 0xad, 0xaa, 0xa3, 0xa4)
    case 9 => Column(j, 0xf9, 0xfe, 0xf7, 0xf0, 0xe5, 0xe2, 0xeb, 0xec, 0xc1, 0xc6, 0xcf, 0xc8, 0xdd, 0xda, 0xd3, 0xd4)
    case 10 => Column(j, 0x69, 0x6e, 0x67, 0x60, 0x75, 0x72, 0x7b, 0x7c, 0x51, 0x56, 0x5f, 0x58, 0x4d, 0x4a, 0x43, 0x44)
    case 11 => Column(j, 0x19, 0x1e, 0x17, 0x10, 0x05, 0x02, 0x0b, 0x0c, 0x21, 0x26, 0x2f, 0x28, 0x3d, 0x3a, 0x33, 0x34)
    case 12 => Column(j, 0x4e, 0x49, 0x40, 0x47, 0x52, 0x55, 0x5c, 0x5b, 0x76, 0x71, 0x78, 0x7f, 0x6a, 0x6d, 0x64, 0x63)
    case 13 => Column(j, 0x3e, 0x39, 0x30, 0x37, 0x22, 0x25, 0x2c, 0x2b, 0x06, 0x01, 0x08, 0x0f, 0x1a, 0x1d, 0x14, 0x13)
    case 14 => Column(j, 0xae, 0xa9, 0xa0, 0xa7, 0xb2, 0xb5, 0xbc, 0xbb, 0x96, 0x91, 0x98, 0x9f, 0x8a, 0x8d, 0x84, 0x83)
    case _ => Column(j, 0xde, 0xd9, 0xd0, 0xd7, 0xc2, 0xc5, 0xcc, 0xcb, 0xe6, 0xe1, 0xe8, 0xef, 0xfa, 0xfd, 0xf4, 0xf3)
  }

  function Column(j: nat, a0: nat, a1: nat, a2: nat, a3: nat, a4: nat, a5: nat, a6: nat, a7: nat,
                  a8: nat, a9: nat, a10: nat, a11: nat, a12: nat, a13: nat, a14: nat, a15: nat): nat
  {
    match j
    case 0 => a0
    case 1 => a1
    case 2 => a2
    case 3 => a3
    case 4 => a4
    case 5 => a5
    case 6 => a6
    case 7 => a7
    case 8 => a8
    case 9 => a9
    case 10 => a10
    case 11 => a11
    case 12 => a12
    case 13 => a13
    case 14 => a14
    case _ => a15
  }

  function Lookup(i: nat): nat {
    Entry(i / 16, i % 16)
  }

  /** Multiplication by x of a remainder, without exclusive or. */
  function Double(t: nat): nat {
    if t < 128 then 2 * t else Flip7(2 * t - 256)
  }

  /** Exclusive or with 7: the three low bits are complemented. */
  function Flip7(t: nat): nat {
    t - t % 8 + (7 - t % 8)
  }

  /** Entries 2i and 2i+1 follow from entry i. */
  predicate Doubles(i: nat)
    requires i < 128
  {
    Lookup(2 * i) == Double(Lookup(i)) && Lookup(2 * i + 1) == Flip7(Double(Lookup(i)))
  }

  lemma Doubles0()
    ensures forall i :: 0 <= i < 8 ==> Doubles(i)
  {
  }

  lemma Doubles1()
    ensures forall i :: 8 <= i < 16 ==> Doubles(i)
  {
  }

  lemma Doubles2()
    ensures forall i :: 16 <= i < 24 ==> Doubles(i)
  {
  }

  lemma Doubles3()
    ensures forall i :: 24 <= i < 32 ==> Doubles(i)
  {
  }

  lemma Doubles4()
    ensures forall i :: 32 <= i < 40 ==> Doubles(i)
  {
  }

  lemma Doubles5()
    ensures forall i :: 40 <= i < 48 ==> Doubles(i)
  {
  }

  lemma Doubles6()
    ensures forall i :: 48 <= i < 56 ==> Doubles(i)
  {
  }

  lemma Doubles7()
    ensures forall i :: 56 <= i < 64 ==> Doubles(i)
  {
  }

  lemma Doubles8()
    ensures forall i :: 64 <= i < 72 ==> Doubles(i)
  {
  }

  lemma Doubles9()
    ensures forall i :: 72 <= i < 80 ==> Doubles(i)
  {
  }

  lemma DoublesA()
    ensures forall i :: 80 <= i < 88 ==> Doubles(i)
  {
  }

  lemma DoublesB()
    ensures forall i :: 88 <= i < 96 ==> Doubles(i)
  {
  }

  lemma DoublesC()
    ensures forall i :: 96 <= i < 104 ==> Doubles(i)
  {
  }

  lemma DoublesD()
    ensures forall i :: 104 <= i < 112 ==> Doubles(i)
  {
  }

  lemma DoublesE()
    ensures forall i :: 112 <= i < 120 ==> Doubles(i)
  {
  }

  lemma DoublesF()
    ensures forall i :: 120 <= i < 128 ==> Doubles(i)
  {
  }

  lemma ZeroEntry()
    ensures Lookup(0) == 0
  {
  }

  lemma {:induction false} TableDoubles(i: nat)
    requires i < 128
    ensures Doubles(i)
  {
    Doubles0(); Doubles1(); Doubles2(); Doubles3(); Doubles4(); Doubles5(); Doubles6(); Doubles7();
    Doubles8(); Doubles9(); DoublesA(); DoublesB(); DoublesC(); DoublesD(); DoublesE(); DoublesF();
  }

  /** The powers x^0, x^1, ... x^63 modulo the polynomial. */
  function Power(k: nat): nat
    requires k < 64
  {
    PowerRow(k / 8)[k % 8]
  }

  function PowerRow(r: nat): (row: seq<nat>)
    requires r < 8
    ensures |row| == 8
  {
    if r == 0 then [0x01, 0x02, 0x04, 0x08, 0x10, 0x20, 0x40, 0x80]
    else if r == 1 then [0x07, 0x0e, 0x1c, 0x38, 0x70, 0xe0, 0xc7, 0x89]
    else if r == 2 then [0x15, 0x2a, 0x54, 0xa8, 0x57, 0xae, 0x5b, 0xb6]
    else if r == 3 then [0x6b, 0xd6, 0xab, 0x51, 0xa2, 0x43, 0x86, 0x0b]
    else if r == 4 then [0x16, 0x2c, 0x58, 0xb0, 0x67, 0xce, 0x9b, 0x31]
    else if r == 5 then [0x62, 0xc4, 0x8f, 0x19, 0x32, 0x64, 0xc8, 0x97]
    else if r == 6 then [0x29, 0x52, 0xa4, 0x4f, 0x9e, 0x3b, 0x76, 0xec]
    else [0xdf, 0xb9, 0x75, 0xea, 0xd3, 0xa1, 0x45, 0x8a]
  }

  predicate NextPower(k: nat)
    requires k < 63
  {
    Power(k + 1) == Double(Power(k)) && Power(k + 1) != 1
  }

  lemma PowersLow()
    ensures Power(0) == 1
    ensures forall k :: 0 <= k < 16 ==> NextPower(k)
  {
  }

  lemma PowersMiddle()
    ensures forall k :: 16 <= k < 32 ==> NextPower(k)
  {
  }

  lemma PowersHigh()
    ensures forall k :: 32 <= k < 48 ==> NextPower(k)
  {
  }

  lemma PowersTop()
    ensures forall k :: 48 <= k < 63 ==> NextPower(k)
  {
  }

  lemma {:induction false} NextPowerHolds(k: nat)
    requires k < 63
    ensures NextPower(k)
  {
    PowersLow(); PowersMiddle(); PowersHigh(); PowersTop();
  }
}
