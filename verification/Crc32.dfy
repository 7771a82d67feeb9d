/** The table-driven payload checksum of src/nocbridge/JTAGNOCBridgeInterface.cpp. */
module Crc32 {
  import opened Crc32Table

  // ----- eight bits at a time is eight times one bit

  lemma {:induction false} SumGroup(x: bv32, y: bv32, z: bv32)
    ensures Sum(Sum(x, y), z) == Sum(x, Sum(y, z)) && Sum(x, y) == Sum(y, x)
    ensures Sum(x, x) == 0 && Sum(x, 0) == x
  {
    SumBrackets(x, y, z);
    SumSides(x, y);
    SumNothing(x);
  }

  lemma {:induction false} SumBrackets(x: bv32, y: bv32, z: bv32)
    ensures Sum(Sum(x, y), z) == Sum(x, Sum(y, z))
  {
  }

  lemma {:induction false} SumSides(x: bv32, y: bv32)
    ensures Sum(x, y) == Sum(y, x)
  {
  }

  lemma {:induction false} SumNothing(x: bv32)
    ensures Sum(x, x) == 0 && Sum(x, 0) == x
  {
  }

  lemma {:induction false} OddSum(x: bv32, y: bv32)
    ensures Odd(Sum(x, y)) == (Odd(x) != Odd(y))
  {
    assert x & 1 == 0 || x & 1 == 1;
    assert y & 1 == 0 || y & 1 == 1;
    assert (x ^ y) & 1 == (x & 1) ^ (y & 1);
  }

  lemma {:induction false} HalfSum(x: bv32, y: bv32)
    ensures Half(Sum(x, y)) == Sum(Half(x), Half(y))
  {
  }

  lemma {:induction false} SumSwap(x: bv32, y: bv32, p: bv32)
    ensures Sum(Sum(x, p), Sum(y, p)) == Sum(x, y)
    ensures Sum(Sum(x, p), y) == Sum(Sum(x, y), p) == Sum(x, Sum(y, p))
  {
    hide Sum;
    SumGroup(x, p, y);
    SumGroup(p, y, y);
    SumGroup(x, y, p);
    SumGroup(x, p, Sum(p, y));
    SumGroup(p, p, y);
    SumGroup(y, 0, 0);
    SumGroup(0, y, y);
  }

  lemma {:induction false} StepLinear(x: bv32, y: bv32)
    ensures Step(Sum(x, y)) == Sum(Step(x), Step(y))
  {
    hide Odd, Half, Sum;
    OddSum(x, y);
    HalfSum(x, y);
    SumSwap(Half(x), Half(y), REFLECTED);
  }

  function Steps(t: bv32, n: nat): bv32
    decreases n
  {
    if n == 0 then t else Steps(Step(t), n - 1)
  }

  lemma {:induction false} Step8IsSteps(t: bv32)
    ensures Step8(t) == Steps(t, 8)
  {
    hide Step;
    assert Steps(Step(Step(Step(Step(t)))), 4) == Step8(t);
  }

  lemma {:induction false} StepsLinear(x: bv32, y: bv32, n: nat)
    ensures Steps(Sum(x, y), n) == Sum(Steps(x, n), Steps(y, n))
    decreases n
  {
    hide Step, Sum;
    if n != 0 {
      StepLinear(x, y);
      StepsLinear(Step(x), Step(y), n - 1);
    }
  }

  /** Every entry of the table is eight bit-serial steps of its index. */
  lemma {:induction false} TableIsStep8(i: bv32)
    requires i < 0x100
    ensures Lookup(i) == Step8(i)
  {
    hide Step8, Entry, Sum;
    var r, j := i >> 3, i & 7;
    IndexParts(i);
    Rows(r, j);
    StepsLinear(r << 3, j, 8);
    Step8IsSteps(r << 3);
    Step8IsSteps(j);
    Step8IsSteps(i);
  }

  lemma {:induction false} IndexParts(i: bv32)
    requires i < 0x100
    ensures i >> 3 < 32 && i & 7 < 8 && Sum((i >> 3) << 3, i & 7) == i
  {
  }

  /** A word whose low byte is zero is only shifted. */
  lemma {:induction false} Step8Shifts(x: bv32)
    requires LowByte(x) == 0
    ensures Step8(x) == Drop8(x)
  {
    hide Odd, Half, Drop8, Sum, LowByte;
    LowBitsZero(x);
    EightHalves(x);
  }

  lemma {:induction false} LowBitsZero(x: bv32)
    requires LowByte(x) == 0
    ensures !Odd(x) && !Odd(Half(x)) && !Odd(Half(Half(x))) && !Odd(Half(Half(Half(x))))
    ensures !Odd(Half(Half(Half(Half(x))))) && !Odd(Half(Half(Half(Half(Half(x))))))
    ensures !Odd(Half(Half(Half(Half(Half(Half(x))))))) && !Odd(Half(Half(Half(Half(Half(Half(Half(x))))))))
  {
  }

  lemma {:induction false} EightHalves(x: bv32)
    ensures Half(Half(Half(Half(Half(Half(Half(Half(x)))))))) == Drop8(x)
  {
  }

  lemma {:induction false} HighBytes(t: bv32)
    ensures Drop8(t & 0xffff_ff00) == Drop8(t) && LowByte(t & 0xffff_ff00) == 0
  {
  }

  lemma {:induction false} SplitByte(x: bv32)
    ensures x == Sum(LowByte(x), x & 0xffff_ff00)
  {
  }

  lemma {:induction false} HighKept(t: bv32, b: bv32)
    requires b < 0x100
    ensures Sum(t, b) & 0xffff_ff00 == t & 0xffff_ff00
  {
  }

  /** The table step: one lookup replaces eight steps. */
  lemma {:induction false} LookupIsStep8(t: bv32, b: bv32)
    requires b < 0x100
    ensures Sum(Lookup(LowByte(Sum(t, b))), Drop8(t)) == Step8(Sum(t, b))
  {
    hide Step8, Lookup, Sum, LowByte, Drop8, Steps;
    var x := Sum(t, b);
    var low, high := LowByte(x), x & 0xffff_ff00;
    SplitByte(x);
    HighKept(t, b);
    HighBytes(t);
    LowByteSmall(x);
    TableIsStep8(low);
    StepsLinear(low, high, 8);
    Step8IsSteps(x);
    Step8IsSteps(low);
    Step8IsSteps(high);
    Step8Shifts(high);
  }

  lemma {:induction false} LowByteSmall(t: bv32)
    ensures LowByte(t) < 0x100
  {
  }

  /** Shifts one message bit in. */
  function Feed(t: bv32, bit: bool): bv32 {
    Step(Sum(t, if bit then 1 else 0))
  }

  /** Shifts `n` bits of a byte in, least significant bit first. */
  function FeedBits(t: bv32, b: bv32, n: nat): bv32
    decreases n
  {
    if n == 0 then t else FeedBits(Feed(t, Odd(b)), Half(b), n - 1)
  }

  lemma {:induction false} FeedOne(t: bv32, b: bv32)
    ensures Step(Sum(t, b)) == Sum(Feed(t, Odd(b)), Half(b))
  {
    hide Odd, Half, Sum;
    var bit: bv32 := if Odd(b) then 1 else 0;
    LastBit(b);
    var rest := Sum(b, bit);
    SumGroup(t, bit, rest);
    SumGroup(bit, bit, b);
    SumGroup(b, bit, bit);
    SumGroup(b, 0, 0);
    StepLinear(Sum(t, bit), rest);
  }

  lemma {:induction false} LastBit(b: bv32)
    ensures var bit: bv32 := if Odd(b) then 1 else 0; !Odd(Sum(b, bit)) && Half(Sum(b, bit)) == Half(b)
  {
    assert b & 1 == 0 || b & 1 == 1;
  }

  function Halves(b: bv32, n: nat): bv32
    decreases n
  {
    if n == 0 then b else Halves(Half(b), n - 1)
  }

  /** Adding a byte first and stepping is feeding its bits one by one. */
  lemma {:induction false} FeedIsSteps(t: bv32, b: bv32, n: nat)
    ensures Steps(Sum(t, b), n) == Sum(FeedBits(t, b, n), Halves(b, n))
    decreases n
  {
    hide Step, Feed, Odd, Half, Sum;
    if n != 0 {
      FeedOne(t, b);
      FeedIsSteps(Feed(t, Odd(b)), Half(b), n - 1);
    }
  }

  lemma {:induction false} FeedIsStep8(t: bv32, b: bv32)
    requires b < 0x100
    ensures FeedBits(t, b, 8) == Step8(Sum(t, b))
  {
    hide Step, Step8, Steps, FeedBits, Half, Sum, Drop8;
    FeedIsSteps(t, b, 8);
    Step8IsSteps(Sum(t, b));
    EightHalves(b);
    HalvesOfByte(b);
    ByteGone(b);
    SumGroup(FeedBits(t, b, 8), 0, 0);
  }

  lemma {:induction false} HalvesOfByte(b: bv32)
    ensures Halves(b, 8) == Half(Half(Half(Half(Half(Half(Half(Half(b))))))))
  {
    hide Half;
    assert Halves(Half(Half(Half(Half(b)))), 4) == Half(Half(Half(Half(Half(Half(Half(Half(b))))))));
  }

  lemma {:induction false} ByteGone(b: bv32)
    requires b < 0x100
    ensures Drop8(b) == 0
  {
  }

  // ----- the checksum loop

  /** The register after the bytes `bs` have been shifted in bit by bit, starting from all ones. */
  function Register(bs: seq<bv32>): bv32 {
    if |bs| == 0 then 0xffff_ffff else FeedBits(Register(bs[..|bs| - 1]), bs[|bs| - 1], 8)
  }

  function FlipEndian(x: bv32): bv32 {
    (x << 24) | ((x << 8) & 0xff_0000) | ((x >> 8) & 0xff00) | (x >> 24)
  }

  /** The bytes of a word, least significant first. */
  function WordBytes(w: bv32): (bs: seq<bv32>)
    ensures |bs| == 4
  {
    [LowByte(w), LowByte(Drop8(w)), LowByte(Drop8(Drop8(w))), LowByte(Drop8(Drop8(Drop8(w))))]
  }

  function BytesOf(words: seq<bv32>): (bs: seq<bv32>)
    ensures |bs| == 4 * |words|
  {
    if |words| == 0 then [] else BytesOf(words[..|words| - 1]) + WordBytes(words[|words| - 1])
  }

  lemma {:induction false} ByteAt(words: seq<bv32>, k: nat, j: nat)
    requires k < |words| && 4 * k <= j < 4 * k + 4
    ensures BytesOf(words)[j] == WordBytes(words[k])[j - 4 * k]
  {
    if k < |words| - 1 {
      ByteAt(words[..|words| - 1], k, j);
    }
  }

  /** What is left of a word after `k` bytes have been shifted out. */
  function Shifted(w: bv32, k: nat): bv32 {
    if k == 0 then w else Drop8(Shifted(w, k - 1))
  }

  lemma {:induction false} ShiftOut(w: bv32, k: nat)
    requires k < 4
    ensures LowByte(Shifted(w, k)) == WordBytes(w)[k]
  {
    hide LowByte, Drop8;
    if k == 1 {
      assert Shifted(w, 0) == w;
    } else if k == 2 {
      assert Shifted(w, 1) == Drop8(Shifted(w, 0)) == Drop8(w);
    } else if k == 3 {
      assert Shifted(w, 2) == Drop8(Shifted(w, 1)) == Drop8(Drop8(Shifted(w, 0))) == Drop8(Drop8(w));
    }
  }

  /** The checksum of the first `len` bytes of a buffer, for every length: the complement of the
      byte-reversed bit-serial register. */
  method CRC32(data: seq<bv32>, len: nat) returns (r: bv32)
    requires len <= 4 * |data|
    ensures r == !FlipEndian(Register(BytesOf(data)[..len]))
  {
    hide FeedBits, WordBytes, BytesOf, Lookup, Step8, Sum, LowByte, Drop8, FlipEndian;
    ghost var bs := BytesOf(data);
    var crc: bv32 := 0xffff_ffff;
    var i := 0;
    ghost var k := 0;
    while i < len
      invariant i == 4 * k
      invariant crc == Register(bs[..if i < len then i else len])
    {
      var word := data[i / 4];
      var d := word;
      var j := i;
      while j < len && j < i + 4
        invariant i <= j <= i + 4 && j <= len
        invariant d == Shifted(word, j - i)
        invariant crc == Register(bs[..j])
      {
        ShiftOut(word, j - i);
        ByteAt(data, k, j);
        assert bs[..j + 1][..j] == bs[..j];
        var b := LowByte(d);
        LowByteSmall(d);
        LookupIsStep8(crc, b);
        FeedIsStep8(crc, b);
        crc := Sum(Lookup(LowByte(Sum(crc, b))), Drop8(crc));
        d := Drop8(d);
        j := j + 1;
      }
      i := i + 4;
      k := k + 1;
    }
    r := !FlipEndian(crc);
  }
}
