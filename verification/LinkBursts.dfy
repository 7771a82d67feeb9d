/** Bursts on the JTAG link in the order in which it carries bits, each word low bit first
    (src/nocbridge/JTAGNOCBridgeInterface.cpp). */
module LinkBursts {
  import opened Bits
  import opened GF2
  import opened Crc32Table
  import opened Crc32
  import opened Crc32Poly
  import opened RpcMessages
  import opened JtagFrames
  import opened JtagLink
  import opened LinkErrors
  import opened BurstRows
  import opened Options

  // ----- what an error does to the register

  /** The change of the register that errors in the words of a payload make, when it has changed by `t` before. */
  function Change(t: bv32, errors: seq<bv32>): bv32
    decreases |errors|
  {
    if |errors| == 0 then t else Change(Steps(Sum(t, errors[0]), 32), errors[1..])
  }

  lemma {:induction false} ChangeNext(t: bv32, errors: seq<bv32>, e: bv32)
    ensures Change(t, errors + [e]) == Steps(Sum(Change(t, errors), e), 32)
    decreases |errors|
  {
    hide Steps, Sum;
    if |errors| == 0 {
      assert errors + [e] == [e];
      assert Change(t, [e]) == Change(Steps(Sum(t, e), 32), []);
    } else {
      assert (errors + [e])[1..] == errors[1..] + [e];
      ChangeNext(Steps(Sum(t, errors[0]), 32), errors[1..], e);
    }
  }

  /** One byte of a word shifted in leaves the rest of the word added. */
  lemma {:induction false} ByteOfWord(t: bv32, w: bv32)
    ensures Steps(Sum(t, w), 8) == Sum(FeedBits(t, LowByte(w), 8), Drop8(w))
  {
    hide Step8, Steps, FeedBits, Sum, LowByte, Drop8;
    var low, high := LowByte(w), w & 0xffff_ff00;
    SplitByte(w);
    HighBytes(w);
    LowByteSmall(w);
    SumGroup(t, low, high);
    StepsLinear(Sum(t, low), high, 8);
    FeedIsStep8(t, low);
    Step8IsSteps(Sum(t, low));
    Step8IsSteps(high);
    Step8Shifts(high);
  }

  /** The register takes a word in 32 steps. */
  lemma {:induction false} WordSteps(words: seq<bv32>, w: bv32)
    ensures Register(BytesOf(words + [w])) == Steps(Sum(Register(BytesOf(words)), w), 32)
  {
    hide Steps, FeedBits, Sum, LowByte, Drop8, Register;
    var t := Register(BytesOf(words));
    var b := WordBytes(w);
    assert (words + [w])[..|words|] == words;
    var bs := BytesOf(words);
    RegisterNext(bs, b[0]);
    RegisterNext(bs + [b[0]], b[1]);
    RegisterNext(bs + [b[0]] + [b[1]], b[2]);
    RegisterNext(bs + [b[0]] + [b[1]] + [b[2]], b[3]);
    assert BytesOf(words + [w]) == bs + [b[0]] + [b[1]] + [b[2]] + [b[3]];
    var t1 := FeedBits(t, b[0], 8);
    var t2 := FeedBits(t1, b[1], 8);
    var t3 := FeedBits(t2, b[2], 8);
    ByteOfWord(t, w);
    ByteOfWord(t1, Drop8(w));
    ByteOfWord(t2, Drop8(Drop8(w)));
    ByteOfWord(t3, Drop8(Drop8(Drop8(w))));
    StepsMore(Sum(t, w), 8, 24);
    StepsMore(Sum(t1, Drop8(w)), 8, 16);
    StepsMore(Sum(t2, Drop8(Drop8(w))), 8, 8);
    FourBytesGone(w);
    SumNothing(FeedBits(t3, b[3], 8));
  }

  lemma {:induction false} RegisterNext(bs: seq<bv32>, b: bv32)
    ensures Register(bs + [b]) == FeedBits(Register(bs), b, 8)
  {
    hide FeedBits;
    assert (bs + [b])[..|bs|] == bs;
  }

  function Errors(sent: seq<bv32>, got: seq<bv32>): (e: seq<bv32>)
    requires |sent| == |got|
    ensures |e| == |sent|
  {
    seq(|sent|, i requires 0 <= i < |sent| => Sum(sent[i], got[i]))
  }

  lemma {:induction false} RegistersDiffer(sent: seq<bv32>, got: seq<bv32>)
    requires |sent| == |got|
    ensures Sum(Register(BytesOf(sent)), Register(BytesOf(got))) == Change(0, Errors(sent, got))
    decreases |sent|
  {
    hide Steps, Sum, Register, BytesOf, Change;
    if |sent| == 0 {
      assert sent == got == [];
      SumNothing(Register(BytesOf(sent)));
      ChangeOfNothing();
    } else {
      var n := |sent| - 1;
      var a, b := Register(BytesOf(sent[..n])), Register(BytesOf(got[..n]));
      RegistersDiffer(sent[..n], got[..n]);
      assert sent == sent[..n] + [sent[n]] && got == got[..n] + [got[n]];
      WordSteps(sent[..n], sent[n]);
      WordSteps(got[..n], got[n]);
      assert Errors(sent, got) == Errors(sent[..n], got[..n]) + [Sum(sent[n], got[n])];
      ChangeNext(0, Errors(sent[..n], got[..n]), Sum(sent[n], got[n]));
      StepsLinear(Sum(a, sent[n]), Sum(b, got[n]), 32);
      FourSums(a, sent[n], b, got[n]);
    }
  }

  lemma ChangeOfNothing()
    ensures Change(0, []) == 0
  {
  }

  lemma {:induction false} FourSums(a: bv32, x: bv32, b: bv32, y: bv32)
    ensures Sum(Sum(a, x), Sum(b, y)) == Sum(Sum(a, b), Sum(x, y))
  {
    hide Sum;
    SumGroup(a, x, Sum(b, y));
    SumGroup(x, b, y);
    SumGroup(b, x, y);
    SumGroup(a, b, Sum(x, y));
  }

  /** Of two payloads of one length, with the first one's checksum right, the second one's is right exactly when the
      errors change the register by the change of the checksum word, its bytes in reverse order. */
  lemma {:induction false} ChangeAccepted(sent: seq<bv32>, c: bv32, got: seq<bv32>, c': bv32)
    requires |sent| == |got| && c == ChecksumWord(sent)
    ensures c' == ChecksumWord(got) <==> FlipEndian(Sum(c, c')) == Change(0, Errors(sent, got))
  {
    hide FlipEndian, Sum, Not, Register, BytesOf, Change, ChecksumWord;
    var r, r' := Register(BytesOf(sent)), Register(BytesOf(got));
    ChecksumIsNot(sent);
    ChecksumIsNot(got);
    RegistersDiffer(sent, got);
    FlipComplement(c, r);
    FlipComplement(c', r');
    FlipLinear(c, c');
    FourSums(FlipEndian(c), ONES, r, 0);
    SumNothing(r);
    SameSum(FlipEndian(c), FlipEndian(c'), r, r');
  }

  lemma {:induction false} SameSum(a: bv32, b: bv32, r: bv32, s: bv32)
    requires Sum(a, ONES) == r
    ensures Sum(b, ONES) == s <==> Sum(a, b) == Sum(r, s)
  {
    hide Sum;
    SumSwap(a, b, ONES);
    if Sum(a, b) == Sum(r, s) {
      SumGroup(r, r, s);
      SumGroup(r, r, Sum(b, ONES));
      SumNothing(r);
      SumGroup(s, 0, 0);
      SumGroup(Sum(b, ONES), 0, 0);
    }
  }

  // ----- a burst across two words of the payload

  lemma {:induction false} OneMoreZero(x: bv32, n: nat)
    requires LowZero(x, n) && !Odd(Halves(x, n))
    ensures LowZero(x, n + 1)
    decreases n
  {
    hide Odd, Half;
    if n != 0 {
      OneMoreZero(Half(x), n - 1);
    }
  }

  /** The register keeps the last bits shifted in apart: when its highest `n` bits are zero, so were they. */
  lemma {:induction false} HighZero(x: bv32, n: nat)
    requires n <= 32 && Halves(Steps(x, n), 32 - n) == 0
    ensures LowZero(x, n)
    decreases n
  {
    hide Step, Odd, Half, Steps, Halves, ShiftBy;
    if n != 0 {
      var q := Steps(x, n - 1);
      OneStep(x, n - 1);
      NothingAbove(Step(q), 32 - n, 31);
      ShiftByIsHalves(Step(q), 31);
      LastShift(Step(q));
      OddTop(q);
      HalvesAdd(q, 1, 32 - n);
      OneHalf(q);
      HighZero(x, n - 1);
      ZerosShift(x, n - 1, 0);
      NoSteps(Halves(x, n - 1));
      OneMoreZero(x, n - 1);
    }
  }

  lemma {:induction false} LastShift(x: bv32)
    ensures ShiftBy(x, 31) == x >> 31
  {
    assert Drops(x, 3) == x >> 24;
    assert FewHalves(x >> 24, 7) == x >> 31;
  }

  lemma {:induction false} WithinGoesFar(tail: bv32, n: nat, next: bv32)
    requires tail != 0 && n <= 32 && Halves(tail, n) == 0 && Halves(next, 32 - n) == 0
    ensures Steps(tail, n) != next
  {
    hide Steps, LowZero, Halves;
    if Steps(tail, n) == next {
      HighZero(tail, n);
      AllZero(tail, n);
      assert false;
    }
  }

  // ----- bits in the order of the link

  /** The `n` low bits of a word as a number. */
  function Value(x: bv32, n: nat): (v: nat)
    ensures v < Pow2(n)
    decreases n
  {
    if n == 0 then 0 else BitOf(Odd(x)) + 2 * Value(Half(x), n - 1)
  }

  /** The bits of words as one number, the first bit on the link the lowest. */
  function WireValue(words: seq<bv32>): nat {
    if |words| == 0 then 0 else Value(words[0], 32) + Shl(WireValue(words[1..]), 32)
  }

  lemma {:induction false} ValueZero(x: bv32, n: nat)
    requires Halves(x, n) == 0
    ensures Value(x, n) == 0 <==> x == 0
    decreases n
  {
    hide Odd, Half;
    if n != 0 {
      ValueZero(Half(x), n - 1);
      NoBits(x);
      ZeroBits();
    }
  }

  lemma {:induction false} SmallValue(x: bv32, n: nat, m: nat)
    requires m <= n && Halves(x, n) == 0 && Value(x, n) < Pow2(m)
    ensures Halves(x, m) == 0
    decreases m
  {
    hide Odd, Half;
    if m == 0 {
      ValueZero(x, n);
    } else {
      SmallValue(Half(x), n - 1, m - 1);
    }
  }

  /** A number with `pos` zeros at its low end. */
  lemma {:induction false} LowZeroValue(x: bv32, n: nat, q: nat, pos: nat)
    requires pos <= n && Value(x, n) == Shl(q, pos)
    ensures LowZero(x, pos)
    decreases pos
  {
    hide Odd, Half;
    if pos != 0 {
      assert Shl(q, pos) == 2 * Shl(q, pos - 1);
      assert !Odd(x);
      LowZeroValue(Half(x), n - 1, q, pos - 1);
    }
  }

  lemma {:induction false} NoWire(words: seq<bv32>)
    requires WireValue(words) == 0
    ensures forall i :: 0 <= i < |words| ==> words[i] == 0
    decreases |words|
  {
    if |words| > 0 {
      ShlNone(WireValue(words[1..]), 32);
      AllGone(words[0]);
      ValueZero(words[0], 32);
      NoWire(words[1..]);
      assert forall i :: 1 <= i < |words| ==> words[i] == words[1..][i - 1];
    }
  }

  lemma {:induction false} ShlNone(a: nat, s: nat)
    ensures Shl(a, s) == 0 <==> a == 0
  {
    if s != 0 {
      ShlNone(a, s - 1);
    }
  }

  /** A burst as an odd pattern: its first wrong bit and what follows. */
  lemma {:induction false} OddBurst(pattern: nat, position: nat) returns (odd: nat, start: nat)
    requires pattern > 0
    ensures odd % 2 == 1 && odd <= pattern && Shl(odd, start) == Shl(pattern, position)
    decreases pattern
  {
    if pattern % 2 == 1 {
      odd, start := pattern, position;
    } else {
      odd, start := OddBurst(pattern / 2, position + 1);
      ShlDouble(pattern / 2, position);
      assert Shl(pattern / 2, position + 1) == 2 * Shl(pattern / 2, position);
    }
  }

  /** Words that start with zeros, and an odd pattern. */
  lemma {:induction false} PatternLater(rest: nat, pattern: nat, pos: nat)
    requires pattern % 2 == 1 && Shl(rest, 32) == Shl(pattern, pos)
    ensures pos >= 32 && rest == Shl(pattern, pos - 32)
  {
    hide Shl;
    if pos < 32 {
      ShlShl(rest, 32 - pos, pos);
      ShlOnce(Shl(rest, 32 - pos), pattern, pos);
      ShlShl(rest, 31 - pos, 1);
      ShlTwo(Shl(rest, 31 - pos));
    } else {
      ShlShl(pattern, pos - 32, 32);
      ShlOnce(rest, Shl(pattern, pos - 32), 32);
    }
  }

  lemma {:induction false} ShlTwo(a: nat)
    ensures Shl(a, 1) == 2 * a
  {
    assert Shl(a, 0) == a;
  }

  lemma {:induction false} ShlOnce(a: nat, b: nat, s: nat)
    requires Shl(a, s) == Shl(b, s)
    ensures a == b
  {
    if s != 0 {
      ShlOnce(a, b, s - 1);
    }
  }

  /** A burst that begins in a word: where it begins, and how little of it is left for the words after. */
  lemma {:induction false} PatternHere(word: bv32, rest: nat, pattern: nat, pos: nat)
    requires word != 0 && pattern % 2 == 1 && pattern < Pow2(30) && Value(word, 32) + Shl(rest, 32) == Shl(pattern, pos)
    ensures pos < 32 && LowZero(word, pos)
    ensures rest < if pos >= 2 then Pow2(pos - 2) else 1
  {
    hide Shl, Pow2, Value, LowZero;
    AllGone(word);
    ValueZero(word, 32);
    if pos >= 32 {
      ShlShl(pattern, pos - 32, 32);
      SameHigh(Value(word, 32), rest, Shl(pattern, pos - 32));
    }
    var after := Shl(rest, 32 - pos);
    ShlShl(rest, 32 - pos, pos);
    if pattern < after {
      ShlMono(pattern, after, pos);
    }
    ShlAdd(pattern - after, after, pos);
    LowZeroValue(word, 32, pattern - after, pos);
    if rest >= (if pos >= 2 then Pow2(pos - 2) else 1) {
      if pos >= 2 {
        ShlFloor(rest, 32 - pos, pos - 2);
      } else {
        Pow2One();
        ShlFloor(rest, 32 - pos, 0);
        Pow2Mono(30, 32 - pos);
      }
    }
  }

  lemma Pow2One()
    ensures Pow2(0) == 1
  {
  }

  lemma {:induction false} SameHigh(low: nat, a: nat, b: nat)
    requires low < Pow2(32) && low + Shl(a, 32) == Shl(b, 32)
    ensures low == 0
  {
    hide Shl, Pow2;
    if a < b {
      ShlMono(a, b, 32);
    } else if b < a {
      ShlMono(b, a, 32);
    }
  }

  lemma {:induction false} NoMoreChange(t: bv32, errors: seq<bv32>)
    requires t != 0 && forall i :: 0 <= i < |errors| ==> errors[i] == 0
    ensures Change(t, errors) != 0
    decreases |errors|
  {
    hide Steps, Sum;
    if |errors| > 0 {
      SumNothing(t);
      if Steps(t, 32) == 0 {
        StepsLoseNothing(t, 32);
      }
      NoMoreChange(Steps(t, 32), errors[1..]);
    }
  }

  lemma {:induction false} FlipsToZero(e: bv32)
    ensures FlipEndian(e) == 0 <==> e == 0
  {
    hide FlipEndian;
    ZeroBits();
    FlipTwice(e);
  }

  /** Errors that begin in word `word`, the words before it being right. */
  lemma {:induction false} ChangesBeginning(word: bv32, errors: seq<bv32>, e: bv32, pattern: nat, pos: nat)
    requires word != 0 && pattern % 2 == 1 && pattern < Pow2(30)
    requires WireValue([word] + errors + [e]) == Shl(pattern, pos)
    ensures FlipEndian(e) != Change(Steps(word, 32), errors)
  {
    hide Shl, Pow2, Value, LowZero, Steps, Halves, FlipEndian, Sum, WireValue, Image;
    var rest := errors + [e];
    assert [word] + errors + [e] == [word] + rest;
    WireNext(word, rest);
    PatternHere(word, WireValue(rest), pattern, pos);
    var n, tail := 32 - pos, Halves(word, pos);
    ZerosShift(word, pos, n);
    AllGone(word);
    HalvesAdd(word, pos, n);
    if tail == 0 {
      AllZero(word, pos);
    }
    if |errors| == 0 {
      assert rest == [e] + [];
      WireNext(e, []);
      NoWireValue();
      AllGone(e);
      if pos >= 3 {
        SmallValue(e, 32, pos - 2);
        AcrossGoesFar(tail, n, e);
        FlipTwice(e);
        FlipTwice(Steps(tail, n));
        ImageIs(tail, n);
      } else {
        Pow2One();
        ValueZero(e, 32);
        ZeroBits();
        if Steps(tail, n) == 0 {
          StepsLoseNothing(tail, n);
        }
      }
      ChangeNone(Steps(word, 32));
    } else {
      var next, last := errors[0], errors[1..] + [e];
      assert rest == [next] + last;
      WireNext(next, last);
      AllGone(next);
      LittleLeft(Value(next, 32), WireValue(last), pos);
      NoWire(last);
      assert last[|last| - 1] == e && forall i :: 0 <= i < |errors[1..]| ==> errors[1..][i] == last[i];
      SmallValue(next, 32, pos);
      WithinGoesFar(tail, n, next);
      var t := Sum(Steps(word, 32), next);
      SumIsZero(Steps(word, 32), next);
      if Steps(t, 32) == 0 {
        StepsLoseNothing(t, 32);
      }
      NoMoreChange(Steps(t, 32), errors[1..]);
      ZeroBits();
      ChangeFirst(Steps(word, 32), errors);
    }
  }

  lemma {:induction false} WireNext(word: bv32, rest: seq<bv32>)
    ensures WireValue([word] + rest) == Value(word, 32) + Shl(WireValue(rest), 32)
  {
    hide Value, Shl;
    assert ([word] + rest)[1..] == rest;
  }

  lemma NoWireValue()
    ensures WireValue([]) == 0 && Shl(0, 32) == 0
  {
    ShlNone(0, 32);
  }

  lemma {:induction false} ImageIs(tail: bv32, n: nat)
    ensures Image(tail, n) == FlipEndian(Steps(tail, n))
  {
  }

  lemma {:induction false} ChangeNone(t: bv32)
    ensures Change(t, []) == t
  {
  }

  lemma {:induction false} ChangeFirst(t: bv32, errors: seq<bv32>)
    requires |errors| > 0
    ensures Change(t, errors) == Change(Steps(Sum(t, errors[0]), 32), errors[1..])
  {
  }

  /** What is left for the words after is less than a word. */
  lemma {:induction false} LittleLeft(value: nat, more: nat, pos: nat)
    requires pos < 32 && value + Shl(more, 32) < if pos >= 2 then Pow2(pos - 2) else 1
    ensures more == 0 && value < Pow2(pos)
  {
    hide Shl, Pow2;
    Pow2One();
    Pow2Mono(0, pos);
    if pos >= 2 {
      Pow2Mono(pos - 2, pos);
    }
    if more > 0 {
      ShlFloor(more, 32, 0);
      Pow2Mono(pos, 32);
    }
    ShlNone(0, 32);
  }

  /** A burst of at most 30 bits never changes the register and the checksum word alike. */
  lemma {:induction false} BurstChanges(errors: seq<bv32>, e: bv32, pattern: nat, pos: nat)
    requires pattern % 2 == 1 && pattern < Pow2(30) && WireValue(errors + [e]) == Shl(pattern, pos)
    ensures FlipEndian(e) != Change(0, errors)
    decreases |errors|
  {
    hide Shl, Pow2, Value, Steps, FlipEndian, Sum, WireValue;
    if |errors| == 0 {
      assert errors + [e] == [e] + [];
      WireNext(e, []);
      NoWireValue();
      AllGone(e);
      ValueZero(e, 32);
      ShlNone(pattern, pos);
      FlipsToZero(e);
      ChangeNone(0);
    } else {
      var word, rest := errors[0], errors[1..];
      assert errors + [e] == [word] + (rest + [e]) == [word] + rest + [e];
      ChangeFirst(0, errors);
      if word == 0 {
        WireNext(word, rest + [e]);
        AllGone(word);
        ValueZero(word, 32);
        PatternLater(WireValue(rest + [e]), pattern, pos);
        ZeroBits();
        StepsZero(32);
        BurstChanges(rest, e, pattern, pos - 32);
      } else {
        SumSides(0, word);
        SumNothing(word);
        ChangesBeginning(word, rest, e, pattern, pos);
      }
    }
  }

  // ----- a longer burst

  lemma {:induction false} ValueDigit(x: bv32, n: nat)
    ensures Value(x, n + 4) == BitOf(Odd(x)) + 2 * BitOf(Odd(Half(x))) + 4 * BitOf(Odd(Half(Half(x))))
                               + 8 * BitOf(Odd(Half(Half(Half(x))))) + 16 * Value(x >> 4, n)
  {
    hide Odd, Half, BitOf;
    var x1, x2, x3 := Half(x), Half(Half(x)), Half(Half(Half(x)));
    FourHalves(x);
    assert Value(x3, n + 1) == BitOf(Odd(x3)) + 2 * Value(x >> 4, n);
    assert Value(x2, n + 2) == BitOf(Odd(x2)) + 2 * Value(x3, n + 1);
    assert Value(x1, n + 3) == BitOf(Odd(x1)) + 2 * Value(x2, n + 2);
  }

  lemma AcrossLow()
    ensures Value(0x2083b8ed, 32) == 0xb8ed + 0x1_0000 * Value(0x2083, 16)
  {
    hide Value;
    ValueDigit(0x2083b8ed, 28);
    ValueDigit(0x2083b8e, 24);
    ValueDigit(0x2083b8, 20);
    ValueDigit(0x2083b, 16);
  }

  lemma AcrossHigh()
    ensures Value(0x2083, 16) == 0x2083 + 0x1_0000 * Value(0x0, 0)
  {
    hide Value;
    ValueDigit(0x2083, 12);
    ValueDigit(0x208, 8);
    ValueDigit(0x20, 4);
    ValueDigit(0x2, 0);
  }

  lemma TopLow()
    ensures Value(0x80000000, 32) == 0x0 + 0x1_0000 * Value(0x8000, 16)
  {
    hide Value;
    ValueDigit(0x80000000, 28);
    ValueDigit(0x8000000, 24);
    ValueDigit(0x800000, 20);
    ValueDigit(0x80000, 16);
  }

  lemma TopHigh()
    ensures Value(0x8000, 16) == 0x8000 + 0x1_0000 * Value(0x0, 0)
  {
    hide Value;
    ValueDigit(0x8000, 12);
    ValueDigit(0x800, 8);
    ValueDigit(0x80, 4);
    ValueDigit(0x8, 0);
  }

  lemma AcrossValue()
    ensures Value(ACROSS, 32) == 0x2083_b8ed && Value(TOP, 32) == 0x8000_0000
  {
    hide Value;
    AcrossLow();
    AcrossHigh();
    TopLow();
    TopHigh();
    NoValue();
  }

  lemma NoValue()
    ensures Value(0, 0) == 0
  {
  }

  lemma {:induction false} ZerosFirst(n: nat, rest: seq<bv32>)
    ensures WireValue(seq(n, _ => 0) + rest) == Shl(WireValue(rest), 32 * n)
  {
    hide Value, Shl;
    var zeros := seq(n, _ => 0);
    if n == 0 {
      assert zeros + rest == rest;
      NoShl(WireValue(rest));
    } else {
      var fewer := seq(n - 1, _ => 0);
      assert zeros + rest == [0] + (fewer + rest);
      ZerosFirst(n - 1, rest);
      WireNext(0, fewer + rest);
      AllGone(0);
      ValueZero(0, 32);
      ShlShl(WireValue(rest), 32 * (n - 1), 32);
    }
  }

  lemma {:induction false} NoShl(a: nat)
    ensures Shl(a, 0) == a
  {
  }

  /** With one bit more a burst can go unnoticed, whatever the payload. */
  lemma {:induction false} LongerBurstAccepted(words: seq<u32>)
    requires |words| > 0
    ensures var n := |words| - 1;
            var got := words[n := Flipped(words[n], TOP)];
            && PayloadChecksum(got) == Flipped(PayloadChecksum(words), ACROSS)
            && Burst(WireValue(Errors(AsBits(words), AsBits(got)) + [ACROSS]), 31)
  {
    hide Value, Shl, Sum, Flipped, AsBits, PayloadChecksum, Pow2, AcrossBits, Burst;
    var n := |words| - 1;
    BurstAcrossAccepted(words);
    FlippedAt(words, n, TOP);
    var sent := AsBits(words);
    ErrorsAtEnd(sent);
    AcrossValue();
    ZerosFirst(n, [TOP, ACROSS]);
    assert [TOP, ACROSS] == [TOP] + [ACROSS] && [ACROSS] == [ACROSS] + [];
    WireNext(TOP, [ACROSS]);
    WireNext(ACROSS, []);
    NoWireValue();
    AcrossBurst(n);
  }

  lemma {:induction false} ErrorsAtEnd(sent: seq<bv32>)
    requires |sent| > 0
    ensures var n := |sent| - 1;
            Errors(sent, sent[n := Sum(sent[n], TOP)]) + [ACROSS] == seq(n, _ => 0) + [TOP, ACROSS]
  {
    hide Sum;
    var n := |sent| - 1;
    TakeBack(TOP, sent[n]);
    SumSides(TOP, sent[n]);
    SumSides(Sum(sent[n], TOP), sent[n]);
    forall i | 0 <= i < n
      ensures Sum(sent[i], sent[i]) == 0
    {
      SumNothing(sent[i]);
    }
  }

  lemma {:induction false} AcrossBurst(n: nat)
    ensures Burst(Shl(0x8000_0000 + Shl(0x2083_b8ed, 32), 32 * n), 31)
  {
    hide Shl;
    Pow2Values();
    ShlIsTimes(0x2083_b8ed, 32);
    ShlIsTimes(0x4107_71db, 31);
    ShlShl(0x4107_71db, 31, 32 * n);
    assert 0x8000_0000 + Shl(0x2083_b8ed, 32) == Shl(0x4107_71db, 31);
  }

  // ----- frames

  /** A frame of a message that arrives with its header intact and a burst of at most 30 bits in its five payload
      words, in the order of the link, is rejected and delivers nothing. */
  lemma {:induction false} WireBurstRejected(sequence: nat, f: Frame, sent: seq<u32>, c: bv32, buf: seq<u32>, c': bv32)
    requires sequence < 0x400 && Sendable(f) && f.payload.Some? && sent == FrameWords(sequence, f)
    requires |buf| >= 7 && buf[..2] == sent[..2] && sent[6] == c as u32 && buf[6] == c' as u32
    requires Burst(WireValue(Errors(AsBits(sent[2..6]), AsBits(buf[2..6])) + [Sum(c, c')]), 30)
    ensures Look(buf) == Whole(7, false, None, sequence)
  {
    hide PayloadChecksum, HeaderOf, UnpackWords, Verifies, PayloadOf, AsBits, ChecksumWord, WireValue, Change;
    hide FlipEndian, Sum, Shl, Pow2;
    var h := FrameHeader(sequence, f);
    assert sent[..2] == HeaderWords(h) && sent[2..6] == PayloadOf(f.payload.value);
    assert buf[0] == sent[0] && buf[1] == sent[1];
    var payload, got := AsBits(sent[2..6]), AsBits(buf[2..6]);
    var errors := Errors(payload, got);
    var pattern: nat, position: nat :|
      0 < pattern < Pow2(30) && WireValue(errors + [Sum(c, c')]) == Shl(pattern, position);
    var odd, start := OddBurst(pattern, position);
    ChecksumOf(sent[2..6], c);
    ChecksumOf(buf[2..6], c');
    ChangeAccepted(payload, c, got, c');
    BurstChanges(errors, Sum(c, c'), odd, start);
  }
}
