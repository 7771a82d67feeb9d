/** The systematic BCH code of legacy-trunk/src/fec/BCH.c: a codeword is the data
    followed by the remainder of the shifted data modulo the generator. */
module BCH {
  import opened Bits
  import opened GF2
  import opened GF2NMath

  /** What the encoder's callers must supply: an (n, k) code with n <= 32, a generator of
      degree n-k, and data of at most k bits. Zero data is outside the encoder's domain,
      because GF2NMod takes no zero operand. */
  predicate CodeParams(generator: nat, n: nat, k: nat) {
    1 <= k <= n <= 32 && 0 < generator < TWO_32 && Deg(generator) == n - k
  }

  predicate DataWord(data: nat, k: nat) {
    0 < data < Pow2(k)
  }

  /** The codeword: its high bits are the data, and it is a multiple of the generator. */
  function Encode(data: nat, generator: nat, n: nat, k: nat): nat
    requires k <= n
  {
    Shl(data, n - k) + Rem(Shl(data, n - k), generator)
  }

  method BCHEncode(data: u32, generator: u32, n: nat, k: nat) returns (codeword: nat)
    requires CodeParams(generator, n, k) && DataWord(data, k)
    ensures codeword == Encode(data, generator, n, k)
    ensures 0 < codeword < Pow2(n)
    ensures Divides(generator, codeword) && Shr(codeword, n - k) == data
  {
    var gendeg := n - k;
    Shl32Fits(data, gendeg, k);
    Shl32Positive(data, gendeg);
    var sdata := Shl32(data, gendeg);
    var r := GF2NMod(sdata, generator);
    Join(data, r, gendeg);
    codeword := Or(Shl32(data, gendeg), r);
    EncodeIsSystematic(data, generator, n, k);
  }

  method BCHValidate(codeword: u32, generator: u32) returns (ok: nat)
    requires codeword != 0 && generator != 0
    ensures ok == if Divides(generator, codeword) then 1 else 0
  {
    var r := GF2NMod(codeword, generator);
    RemZero(codeword, generator);
    ok := if r != 0 then 0 else 1;
  }

  /** Undoes the encoder: whatever data and generator the codeword comes from, the result is that data. Of any other
      word it is the part above the n-k check bits. */
  method BCHRecoverErrorFreeCodeword(codeword: u32, n: nat, k: nat) returns (data: nat)
    requires k <= n <= 32
    ensures forall d, generator ::
              (CodeParams(generator, n, k) && DataWord(d, k) && codeword == Encode(d, generator, n, k) ==> data == d)
    ensures data * Pow2(n - k) <= codeword < (data + 1) * Pow2(n - k)
  {
    hide Shr, Encode, CodeParams, Pow2;
    data := Shr(codeword, n - k);
    forall d, generator | CodeParams(generator, n, k) && DataWord(d, k) && codeword == Encode(d, generator, n, k)
      ensures data == d
    {
      EncodeIsSystematic(d, generator, n, k);
    }
    HighPart(codeword, n - k);
  }

  lemma {:induction false} HighPart(w: nat, s: nat)
    ensures Shr(w, s) * Pow2(s) <= w < (Shr(w, s) + 1) * Pow2(s)
  {
    hide Shr, Pow2, Low;
    LowIsMod(w, s);
    var p := Pow2(s);
    assert w == w / p * p + w % p;
    assert (w / p + 1) * p == w / p * p + p;
  }

  lemma {:induction false} Shl32Positive(a: nat, s: nat)
    requires a > 0
    ensures Shl(a, s) > 0
  {
    if s != 0 {
      Shl32Positive(a, s - 1);
    }
  }

  /** Every codeword is valid, carries its data in front, and decodes back to it. */
  lemma {:induction false} EncodeIsSystematic(data: nat, generator: nat, n: nat, k: nat)
    requires CodeParams(generator, n, k) && DataWord(data, k)
    ensures 0 < Encode(data, generator, n, k) < Pow2(n)
    ensures Divides(generator, Encode(data, generator, n, k))
    ensures Shr(Encode(data, generator, n, k), n - k) == data
  {
    hide Rem, Deg, Shr;
    var s := Shl(data, n - k);
    var r := Rem(s, generator);
    RemCorrect(s, generator);
    Join(data, r, n - k);
    Shl32Positive(data, n - k);
    ShlMono(data, Pow2(k), n - k);
    ShlPow2(k, n - k);
  }

  lemma {:induction false} ShlPow2(k: nat, s: nat)
    ensures Shl(Pow2(k), s) == Pow2(k + s)
  {
    if s != 0 {
      ShlPow2(k, s - 1);
    }
  }

  /** The valid words are exactly the codewords of their own high bits. */
  lemma {:induction false} ValidIffEncoded(w: nat, generator: nat, n: nat, k: nat)
    requires CodeParams(generator, n, k) && 0 < w < Pow2(n)
    ensures Divides(generator, w)
       <==> DataWord(Shr(w, n - k), k) && w == Encode(Shr(w, n - k), generator, n, k)
  {
    var d, l := Shr(w, n - k), Low(w, n - k);
    var s := Shl(d, n - k);
    Split(w, n - k);
    Join(d, l, n - k);
    ShrBound(w, n - k, k);
    if Divides(generator, w) {
      MultipleIsLarge(generator, w);
      ShrZero(w, n - k);
      RemUnique(s, generator, l);
    }
    if DataWord(d, k) && w == Encode(d, generator, n, k) {
      EncodeIsSystematic(d, generator, n, k);
    }
  }

  /** The code is linear: the sum of two distinct codewords is the codeword of the sum of their data. */
  lemma {:induction false} SumOfCodewords(d1: nat, d2: nat, generator: nat, n: nat, k: nat)
    requires CodeParams(generator, n, k) && DataWord(d1, k) && DataWord(d2, k) && d1 != d2
    ensures DataWord(Xor(d1, d2), k)
    ensures Xor(Encode(d1, generator, n, k), Encode(d2, generator, n, k))
         == Encode(Xor(d1, d2), generator, n, k)
  {
    hide Rem, Xor, Shl;
    XorBound(d1, d2, k);
    XorEqZero(d1, d2);
    var s1, s2 := Shl(d1, n - k), Shl(d2, n - k);
    RemCorrect(s1, generator);
    RemCorrect(s2, generator);
    XorShl(d1, d2, n - k);
    RemXor(s1, s2, generator);
    XorJoined(d1, Rem(s1, generator), d2, Rem(s2, generator), n - k);
  }

  /** Flipping a burst of at most n-k bits of a codeword is always detected. */
  lemma {:induction false} BurstDetected(data: nat, generator: nat, n: nat, k: nat, e: nat)
    requires CodeParams(generator, n, k) && DataWord(data, k) && generator % 2 == 1
    requires Burst(e, n - k)
    ensures Xor(Encode(data, generator, n, k), e) != 0
    ensures !Divides(generator, Xor(Encode(data, generator, n, k), e))
  {
    hide Rem, Xor, Shl;
    var c := Encode(data, generator, n, k);
    EncodeIsSystematic(data, generator, n, k);
    BurstIsNoMultiple(e, generator);
    DividesSelf(generator);
    if Divides(generator, Xor(c, e)) {
      DividesXor(generator, c, Xor(c, e));
      XorCancel(c, e);
    }
  }
}
