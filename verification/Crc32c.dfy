/** CRC32C (include/clomdb/coding.h): the table-driven checksum, its bit-by-bit meaning and what it detects. */
module Crc32c {
  import opened Bytes

  const POLY: bv32 := 0x82F63B78
  const ONES: bv32 := 0xFFFF_FFFF

  // Names for the word operations, so that proofs can treat them algebraically.

  function Xor(x: bv32, y: bv32): bv32 {
    x ^ y
  }

  function Half(x: bv32): bv32 {
    x >> 1
  }

  function Wide(b: byte): bv32 {
    b as bv32
  }

  predicate Odd(x: bv32) {
    x & 1 == 1
  }

  // ---- Bit-by-bit reference: section 12.1 of RFC 3720, reflected ----

  /** One shift of the reflected division register. */
  function Step(c: bv32): bv32 {
    if Odd(c) then Xor(POLY, Half(c)) else Half(c)
  }

  function Bit(b: bv32): bv32 {
    if Odd(b) then 1 else 0
  }

  /** Feeds the low n bits of b, least significant first, into the register. */
  function FeedBits(c: bv32, b: bv32, n: nat): bv32
    decreases n
  {
    if n == 0 then c else FeedBits(Step(Xor(c, Bit(b))), Half(b), n - 1)
  }

  function FeedBytes(c: bv32, data: Bytes): bv32
    decreases |data|
  {
    if data == [] then c else FeedBytes(FeedBits(c, Wide(data[0]), 8), data[1..])
  }

  /** The CRC32C of a byte string, one message bit at a time. */
  function Reference(data: Bytes): bv32 {
    Xor(FeedBytes(ONES, data), ONES)
  }

  // ---- The table-driven form ----

  function StepN(c: bv32, n: nat): bv32
    decreases n
  {
    if n == 0 then c else StepN(Step(c), n - 1)
  }

  function TableEntry(b: byte): bv32 {
    StepN(Wide(b), 8)
  }

  function HighBytes(c: bv32): bv32 {
    c >> 8
  }

  function TableStep(c: bv32, b: byte): bv32 {
    Xor(TableEntry(Low(Xor(c, Wide(b)))), HighBytes(c))
  }

  function Run(c: bv32, data: Bytes): bv32
    decreases |data|
  {
    if data == [] then c else Run(TableStep(c, data[0]), data[1..])
  }

  function Extend(crc: bv32, data: Bytes): bv32 {
    Xor(Run(Xor(crc, ONES), data), ONES)
  }

  function Value(data: Bytes): bv32 {
    Extend(0, data)
  }

  function Mask(crc: bv32): bv32 {
    ((crc >> 15) | (crc << 17)) + 0xa282ead8
  }

  function Unmask(masked: bv32): bv32 {
    var rot := masked - 0xa282ead8;
    (rot >> 17) | (rot << 15)
  }

  // ---- Facts about words ----

  lemma XorAlgebra(p: bv32, a: bv32, b: bv32)
    ensures Xor(p, Xor(a, b)) == Xor(Xor(p, a), b)
    ensures Xor(a, b) == Xor(b, a)
    ensures Xor(a, a) == 0 && Xor(a, 0) == a && Xor(0, a) == a
  {
  }

  lemma XorCancel(x: bv32, p: bv32)
    ensures Xor(Xor(x, p), p) == x && Xor(Xor(p, x), p) == x
  {
  }

  lemma XorHalf(x: bv32, y: bv32)
    ensures Half(Xor(x, y)) == Xor(Half(x), Half(y))
  {
  }

  lemma XorOdd(x: bv32, y: bv32)
    ensures Odd(Xor(x, y)) <==> Odd(x) != Odd(y)
  {
    assert (x ^ y) & 1 == (x & 1) ^ (y & 1);
    assert x & 1 == 0 || x & 1 == 1;
    assert y & 1 == 0 || y & 1 == 1;
  }

  lemma ByteSplit(x: bv32)
    ensures x == Xor(Wide(Low(x)), x & 0xFFFF_FF00)
    ensures HighBytes(x & 0xFFFF_FF00) == HighBytes(x) && (x & 0xFFFF_FF00) & 0xFF == 0
  {
  }

  lemma HighBytesKept(c: bv32, b: byte)
    ensures HighBytes(Xor(c, Wide(b))) == HighBytes(c)
  {
  }

  lemma EightHalves(x: bv32)
    ensures Half(Half(Half(Half(Half(Half(Half(Half(x)))))))) == HighBytes(x)
  {
  }

  lemma LowBitsClear(x: bv32)
    requires x & 0xFF == 0
    ensures !Odd(x) && !Odd(Half(x)) && !Odd(Half(Half(x))) && !Odd(Half(Half(Half(x))))
    ensures var y := Half(Half(Half(Half(x))));
            !Odd(y) && !Odd(Half(y)) && !Odd(Half(Half(y))) && !Odd(Half(Half(Half(y))))
  {
    assert (x & 0xFF) & 1 == x & 1;
    assert ((x & 0xFF) >> 1) & 1 == (x >> 1) & 1;
    assert ((x & 0xFF) >> 2) & 1 == (x >> 1 >> 1) & 1;
    assert ((x & 0xFF) >> 3) & 1 == (x >> 1 >> 1 >> 1) & 1;
    assert ((x & 0xFF) >> 4) & 1 == (x >> 1 >> 1 >> 1 >> 1) & 1;
    assert ((x & 0xFF) >> 5) & 1 == (x >> 1 >> 1 >> 1 >> 1 >> 1) & 1;
    assert ((x & 0xFF) >> 6) & 1 == (x >> 1 >> 1 >> 1 >> 1 >> 1 >> 1) & 1;
    assert ((x & 0xFF) >> 7) & 1 == (x >> 1 >> 1 >> 1 >> 1 >> 1 >> 1 >> 1) & 1;
  }

  lemma ByteHasNoHighBytes(b: byte)
    ensures HighBytes(Wide(b)) == 0
  {
  }

  // ---- Linearity of the register ----

  lemma StepXor(x: bv32, y: bv32)
    ensures Step(Xor(x, y)) == Xor(Step(x), Step(y))
  {
    hide Xor, Half, Odd;
    XorHalf(x, y);
    XorOdd(x, y);
    var p, a, b := POLY, Half(x), Half(y);
    XorRearrange(p, a, b);
  }

  lemma XorRearrange(p: bv32, a: bv32, b: bv32)
    ensures Xor(p, Xor(a, b)) == Xor(Xor(p, a), b) == Xor(a, Xor(p, b))
    ensures Xor(Xor(p, a), Xor(p, b)) == Xor(a, b)
  {
    hide Xor;
    XorAlgebra(p, a, b);
    XorAlgebra(a, p, b);
    XorAlgebra(p, a, p);
    XorAlgebra(p, p, b);
    XorAlgebra(a, p, Xor(p, b));
    XorAlgebra(0, p, p);
    XorAlgebra(0, b, 0);
  }

  lemma {:induction false} StepNXor(x: bv32, y: bv32, n: nat)
    ensures StepN(Xor(x, y), n) == Xor(StepN(x, n), StepN(y, n))
    decreases n
  {
    hide Step, Xor;
    if n > 0 {
      StepXor(x, y);
      StepNXor(Step(x), Step(y), n - 1);
    }
  }

  lemma StepInjective(x: bv32, y: bv32)
    requires Step(x) == Step(y)
    ensures x == y
  {
  }

  lemma {:induction false} StepNInjective(x: bv32, y: bv32, n: nat)
    requires StepN(x, n) == StepN(y, n)
    ensures x == y
    decreases n
  {
    hide Step;
    if n > 0 {
      StepNInjective(Step(x), Step(y), n - 1);
      StepInjective(x, y);
    }
  }

  lemma {:induction false} StepNPlus(x: bv32, m: nat, n: nat)
    ensures StepN(x, m + n) == StepN(StepN(x, m), n)
    decreases m
  {
    hide Step;
    if m > 0 { StepNPlus(Step(x), m - 1, n); }
  }

  function Halves(x: bv32, n: nat): bv32
    decreases n
  {
    if n == 0 then x else Halves(Half(x), n - 1)
  }

  lemma HalvesOfByte(x: bv32)
    ensures Halves(x, 8) == HighBytes(x)
  {
    hide Half, HighBytes;
    EightHalves(x);
    var x4 := Half(Half(Half(Half(x))));
    assert Halves(x4, 4) == Half(Half(Half(Half(x4)))) by { assert Halves(Half(Half(x4)), 2) ==
           Half(Half(Half(Half(x4)))); }
    assert Halves(Half(Half(x)), 6) == Halves(x4, 4);
    assert Halves(x, 8) == Halves(Half(Half(x)), 6);
  }

  /** Eight shifts of a register whose low byte is clear only move it down. */
  lemma ShiftOut(x: bv32)
    requires x & 0xFF == 0
    ensures StepN(x, 8) == HighBytes(x)
  {
    hide Half, HighBytes, Odd, Xor;
    LowBitsClear(x);
    EightHalves(x);
    var x1 := Half(x);
    var x2 := Half(x1);
    var x3 := Half(x2);
    var x4 := Half(x3);
    var x5 := Half(x4);
    var x6 := Half(x5);
    var x7 := Half(x6);
    assert StepN(x6, 2) == Half(x7);
    assert StepN(x4, 4) == StepN(x6, 2);
    assert StepN(x2, 6) == StepN(x4, 4);
    assert StepN(x, 8) == StepN(x2, 6);
  }

  /** One table lookup does eight shifts of the register. */
  lemma TableStepIsEightSteps(c: bv32, b: byte)
    ensures TableStep(c, b) == StepN(Xor(c, Wide(b)), 8)
  {
    hide StepN, Xor, Wide, Low, HighBytes;
    var x := Xor(c, Wide(b));
    var hi := x & 0xFFFF_FF00;
    ByteSplit(x);
    HighBytesKept(c, b);
    ShiftOut(hi);
    StepNXor(Wide(Low(x)), hi, 8);
  }

  // ---- The table-driven form is the reference ----

  function Even(b: bv32): bv32 {
    b & 0xFFFF_FFFE
  }

  lemma FeedOneBit(c: bv32, b: bv32)
    ensures Step(Xor(c, b)) == Xor(Step(Xor(c, Bit(b))), Half(b))
  {
    hide *;
    BitSplit(c, b);
    StepEven(b);
    StepXor(Xor(c, Bit(b)), Even(b));
  }

  lemma BitIsLowBit(b: bv32)
    ensures Bit(b) == b & 1
  {
    assert b & 1 == 0 || b & 1 == 1;
  }

  lemma LowBitSplit(c: bv32, b: bv32)
    ensures Xor(c, b) == Xor(Xor(c, b & 1), Even(b))
  {
  }

  lemma BitSplit(c: bv32, b: bv32)
    ensures Xor(c, b) == Xor(Xor(c, Bit(b)), Even(b))
  {
    hide Xor, Bit, Even;
    BitIsLowBit(b);
    LowBitSplit(c, b);
  }

  lemma EvenParts(b: bv32)
    ensures !Odd(Even(b)) && Half(Even(b)) == Half(b)
  {
    assert (b & 0xFFFF_FFFE) & 1 == 0;
    assert (b & 0xFFFF_FFFE) >> 1 == b >> 1;
  }

  lemma StepEven(b: bv32)
    ensures Step(Even(b)) == Half(b)
  {
    hide Odd, Half, Even, Xor;
    EvenParts(b);
  }

  lemma {:induction false} FeedBitsIsStepN(c: bv32, b: bv32, n: nat)
    ensures StepN(Xor(c, b), n) == Xor(FeedBits(c, b, n), Halves(b, n))
    decreases n
  {
    hide Step, Xor, Half, Bit;
    if n > 0 {
      FeedOneBit(c, b);
      FeedBitsIsStepN(Step(Xor(c, Bit(b))), Half(b), n - 1);
    }
  }

  lemma {:induction false} RunIsFeedBytes(c: bv32, data: Bytes)
    ensures Run(c, data) == FeedBytes(c, data)
    decreases |data|
  {
    hide *;
    hide FeedBits;
    if data == [] {
      RunBase(c);
    } else {
      var d := FeedBits(c, Wide(data[0]), 8);
      assert TableStep(c, data[0]) == d by {
        TableStepIsEightSteps(c, data[0]);
        FeedBitsIsStepN(c, Wide(data[0]), 8);
        HalvesOfByte(Wide(data[0]));
        ByteHasNoHighBytes(data[0]);
        XorAlgebra(0, d, 0);
      }
      RunIsFeedBytes(d, data[1..]);
      RunUnfold(c, data);
    }
  }

  lemma RunBase(c: bv32)
    ensures Run(c, []) == c == FeedBytes(c, [])
  {
    hide TableStep, FeedBits;
  }

  lemma RunUnfold(c: bv32, data: Bytes)
    requires data != []
    ensures Run(c, data) == Run(TableStep(c, data[0]), data[1..])
    ensures FeedBytes(c, data) == FeedBytes(FeedBits(c, Wide(data[0]), 8), data[1..])
  {
    hide TableStep, FeedBits, Wide;
  }

  /** The table-driven CRC is the bit-by-bit CRC on every input. */
  lemma TableDrivenIsReference(data: Bytes)
    ensures Value(data) == Reference(data)
  {
    hide Xor, Run, FeedBytes;
    XorAlgebra(0, ONES, 0);
    RunIsFeedBytes(ONES, data);
  }

  lemma {:induction false} RunAppend(c: bv32, a: Bytes, b: Bytes)
    ensures Run(c, a + b) == Run(Run(c, a), b)
    decreases |a|
  {
    hide TableStep;
    if a == [] {
      assert a + b == b;
    } else {
      assert (a + b)[1..] == a[1..] + b;
      RunAppend(TableStep(c, a[0]), a[1..], b);
    }
  }

  /** Extending the checksum of a by b gives the checksum of a followed by b. */
  lemma ExtendComposes(a: Bytes, b: Bytes)
    ensures Extend(Value(a), b) == Value(a + b)
  {
    hide Xor, Run;
    var r := Run(ONES, a);
    RunAppend(ONES, a, b);
    XorCancel(r, ONES);
    XorAlgebra(0, ONES, 0);
  }

  /** Mask is a bijection on words and Unmask is its inverse. */
  lemma MaskRoundTrip(x: bv32)
    ensures Unmask(Mask(x)) == x && Mask(Unmask(x)) == x
  {
  }

  // ---- Burst detection ----

  lemma TableStepInjective(c: bv32, d: bv32, b: byte)
    requires TableStep(c, b) == TableStep(d, b)
    ensures c == d
  {
    hide *;
    TableStepIsEightSteps(c, b);
    TableStepIsEightSteps(d, b);
    StepNInjective(Xor(c, Wide(b)), Xor(d, Wide(b)), 8);
    XorCancel(c, Wide(b));
    XorCancel(d, Wide(b));
  }

  lemma {:induction false} RunInjective(c: bv32, d: bv32, data: Bytes)
    requires Run(c, data) == Run(d, data)
    ensures c == d
    decreases |data|
  {
    hide TableStep;
    if data != [] {
      RunInjective(TableStep(c, data[0]), TableStep(d, data[0]), data[1..]);
      TableStepInjective(c, d, data[0]);
    }
  }

  function Prepend(b: byte, t: bv32): bv32 {
    (b as bv32) | (t << 8)
  }

  /** Up to four bytes as one word, the first in the low bits. */
  function Word(w: Bytes): bv32 {
    if w == [] then 0 else Prepend(w[0], Word(w[1..]))
  }

  function Raise(t: bv32): bv32 {
    t << 8
  }

  lemma PrependXor(c: bv32, b: byte, t: bv32)
    ensures Xor(c, Prepend(b, t)) == Xor(Xor(c, Wide(b)), Raise(t))
  {
    assert (b as bv32) | (t << 8) == (b as bv32) ^ (t << 8);
    XorAlgebra(c, Wide(b), Raise(t));
  }

  lemma RaiseParts(t: bv32)
    requires t < 0x100_0000
    ensures Raise(t) & 0xFF == 0 && HighBytes(Raise(t)) == t
  {
  }

  lemma PrependLow(b: byte, t: bv32)
    ensures Low(Prepend(b, t)) == b
  {
  }

  lemma PrependHigh(b: byte, t: bv32)
    requires t < 0x100_0000
    ensures HighBytes(Prepend(b, t)) == t
  {
  }

  lemma PrependBound(b: byte, t: bv32)
    ensures t < 0x1 ==> Prepend(b, t) < 0x100
    ensures t < 0x100 ==> Prepend(b, t) < 0x1_0000
    ensures t < 0x1_0000 ==> Prepend(b, t) < 0x100_0000
  {
  }

  lemma {:induction false} WordBound(w: Bytes)
    requires |w| <= 3
    ensures Word(w) < 0x100_0000
    ensures |w| <= 2 ==> Word(w) < 0x1_0000
    ensures |w| <= 1 ==> Word(w) < 0x100
    ensures |w| == 0 ==> Word(w) < 1
    decreases |w|
  {
    hide Prepend;
    if w != [] {
      WordBound(w[1..]);
      PrependBound(w[0], Word(w[1..]));
    }
  }

  /** A register fed at most four bytes has done eight shifts per byte on the register xor those bytes. */
  lemma {:induction false} RunOfWord(c: bv32, w: Bytes)
    requires |w| <= 4
    ensures Run(c, w) == StepN(Xor(c, Word(w)), 8 * |w|)
    decreases |w|
  {
    hide StepN, Xor, Prepend, TableStep;
    if w == [] {
      XorAlgebra(0, c, 0);
      RunBase(c);
      StepNUnfold(c, 0);
    } else {
      WordBound(w[1..]);
      RunOfWord(TableStep(c, w[0]), w[1..]);
      StepOfWord(c, w[0], Word(w[1..]));
      StepNPlus(Xor(c, Word(w)), 8, 8 * |w[1..]|);
    }
  }

  lemma StepOfWord(c: bv32, b: byte, t: bv32)
    requires t < 0x100_0000
    ensures StepN(Xor(c, Prepend(b, t)), 8) == Xor(TableStep(c, b), t)
  {
    hide *;
    PrependXor(c, b, t);
    RaiseParts(t);
    ShiftOut(Raise(t));
    StepNXor(Xor(c, Wide(b)), Raise(t), 8);
    TableStepIsEightSteps(c, b);
  }

  lemma {:induction false} WordInjective(v: Bytes, w: Bytes)
    requires |v| == |w| <= 4 && Word(v) == Word(w)
    ensures v == w
    decreases |v|
  {
    hide Prepend, Low, HighBytes;
    if v != [] {
      WordBound(v[1..]);
      WordBound(w[1..]);
      PrependLow(v[0], Word(v[1..]));
      PrependLow(w[0], Word(w[1..]));
      PrependHigh(v[0], Word(v[1..]));
      PrependHigh(w[0], Word(w[1..]));
      WordInjective(v[1..], w[1..]);
      assert v == [v[0]] + v[1..] && w == [w[0]] + w[1..];
    }
  }

  lemma WindowInjective(c: bv32, v: Bytes, w: Bytes)
    requires |v| == |w| <= 4 && Run(c, v) == Run(c, w)
    ensures v == w
  {
    hide *;
    RunOfWord(c, v);
    RunOfWord(c, w);
    StepNInjective(Xor(c, Word(v)), Xor(c, Word(w)), 8 * |v|);
    XorCancel(Word(v), c);
    XorCancel(Word(w), c);
    WordInjective(v, w);
  }

  lemma RunSplit(c: bv32, pre: Bytes, v: Bytes, post: Bytes)
    ensures Run(c, pre + v + post) == Run(Run(Run(c, pre), v), post)
  {
    hide *;
    RunAppend(c, pre, v);
    RunAppend(c, pre + v, post);
  }

  lemma ValueIsRun(data: Bytes)
    ensures Run(ONES, data) == Xor(Value(data), ONES)
  {
    hide Xor, Run;
    XorAlgebra(0, ONES, 0);
    XorCancel(Run(ONES, data), ONES);
  }

  /** Strings that differ only inside a window of at most four bytes have different checksums. */
  lemma BurstDetected(pre: Bytes, v: Bytes, w: Bytes, post: Bytes)
    requires |v| == |w| <= 4 && v != w
    ensures Value(pre + v + post) != Value(pre + w + post)
  {
    hide *;
    ValueIsRun(pre + v + post);
    ValueIsRun(pre + w + post);
    if Value(pre + v + post) == Value(pre + w + post) {
      var c := Run(ONES, pre);
      RunSplit(ONES, pre, v, post);
      RunSplit(ONES, pre, w, post);
      RunInjective(Run(c, v), Run(c, w), post);
      WindowInjective(c, v, w);
    }
  }

  // ---- Known values ----

  function Eight(c: bv32): bv32 {
    Step(Step(Step(Step(Step(Step(Step(Step(c))))))))
  }

  lemma EightSteps(c: bv32, b: byte, x: bv32, rest: Bytes)
    requires x == Xor(c, Wide(b))
    ensures Run(c, [b] + rest) == Run(Eight(x), rest)
  {
    hide Step, TableStep, Xor, Wide;
    TableStepIsEightSteps(c, b);
    EightUnfold(x);
    assert ([b] + rest)[1..] == rest;
  }

  lemma EightUnfold(c: bv32)
    ensures StepN(c, 8) == Eight(c)
  {
    hide Step;
    var c4 := Step(Step(Step(Step(c))));
    assert StepN(c4, 4) == Step(Step(Step(Step(c4))));
    assert StepN(c, 8) == StepN(Step(Step(c)), 6) == StepN(c4, 4);
  }

  lemma CheckByte1()
    ensures Xor(0xFFFFFFFF, Wide(49)) == 0xFFFFFFCE && Eight(0xFFFFFFCE) == 0x6F0A661C
  {
  }

  lemma CheckByte2()
    ensures Xor(0x6F0A661C, Wide(50)) == 0x6F0A662E && Eight(0x6F0A662E) == 0x8CAA3B9F
  {
  }

  lemma CheckByte3()
    ensures Xor(0x8CAA3B9F, Wide(51)) == 0x8CAA3BAC && Eight(0x8CAA3BAC) == 0xEF84D04D
  {
  }

  lemma CheckByte4()
    ensures Xor(0xEF84D04D, Wide(52)) == 0xEF84D079 && Eight(0xEF84D079) == 0x09C50B11
  {
  }

  lemma CheckByte5()
    ensures Xor(0x09C50B11, Wide(53)) == 0x09C50B24 && Eight(0x09C50B24) == 0xE72EDCCA
  {
  }

  lemma CheckByte6()
    ensures Xor(0xE72EDCCA, Wide(54)) == 0xE72EDCFC && Eight(0xE72EDCFC) == 0xBECA8E79
  {
  }

  lemma CheckByte7()
    ensures Xor(0xBECA8E79, Wide(55)) == 0xBECA8E4E && Eight(0xBECA8E4E) == 0xEDBD6815
  {
  }

  lemma CheckByte8()
    ensures Xor(0xEDBD6815, Wide(56)) == 0xEDBD682D && Eight(0xEDBD682D) == 0x9F787F65
  {
  }

  lemma CheckByte9()
    ensures Xor(0x9F787F65, Wide(57)) == 0x9F787F5C && Eight(0x9F787F5C) == 0x1CF96D7C
  {
  }

  lemma CheckGroup1(rest: Bytes)
    ensures Run(0xFFFFFFFF, [49] + ([50] + ([51] + rest))) == Run(0xEF84D04D, rest)
  {
    hide *;
    CheckByte1();
    EightSteps(0xFFFFFFFF, 49, 0xFFFFFFCE, [50] + ([51] + rest));
    CheckByte2();
    EightSteps(0x6F0A661C, 50, 0x6F0A662E, [51] + rest);
    CheckByte3();
    EightSteps(0x8CAA3B9F, 51, 0x8CAA3BAC, rest);
  }

  lemma CheckGroup2(rest: Bytes)
    ensures Run(0xEF84D04D, [52] + ([53] + ([54] + rest))) == Run(0xBECA8E79, rest)
  {
    hide *;
    CheckByte4();
    EightSteps(0xEF84D04D, 52, 0xEF84D079, [53] + ([54] + rest));
    CheckByte5();
    EightSteps(0x09C50B11, 53, 0x09C50B24, [54] + rest);
    CheckByte6();
    EightSteps(0xE72EDCCA, 54, 0xE72EDCFC, rest);
  }

  lemma CheckGroup3(rest: Bytes)
    ensures Run(0xBECA8E79, [55] + ([56] + ([57] + rest))) == Run(0x1CF96D7C, rest)
  {
    hide *;
    CheckByte7();
    EightSteps(0xBECA8E79, 55, 0xBECA8E4E, [56] + ([57] + rest));
    CheckByte8();
    EightSteps(0xEDBD6815, 56, 0xEDBD682D, [57] + rest);
    CheckByte9();
    EightSteps(0x9F787F65, 57, 0x9F787F5C, rest);
  }

  /** The check value of the CRC: that of the nine digits 1 to 9. */
  lemma CheckValue()
    ensures Value([49, 50, 51, 52, 53, 54, 55, 56, 57]) == 0xE3069283
  {
    hide Run, Xor, Value;
    var last: Bytes := [55] + ([56] + ([57] + []));
    var more: Bytes := [52] + ([53] + ([54] + last));
    var data: Bytes := [49] + ([50] + ([51] + more));
    assert data == [49, 50, 51, 52, 53, 54, 55, 56, 57];
    CheckGroup1(more);
    CheckGroup2(last);
    CheckGroup3([]);
    RunNothing(0x1CF96D7C);
    ValueIsRun(data);
    XorCancel(Value(data), ONES);
    CheckEnd();
  }

  lemma RunNothing(c: bv32)
    ensures Run(c, []) == c
  {
  }

  lemma CheckEnd()
    ensures Xor(0x1CF96D7C, ONES) == 0xE3069283 && ONES == 0xFFFFFFFF
  {
  }

  /** Masking rotates right by 15 and adds a constant. */
  lemma MaskRotates(crc: bv32)
    ensures Mask(0) == 0xA282EAD8
    ensures var rotated := Mask(crc) - Mask(0); (rotated << 15) | (rotated >> 17) == crc
  {
  }

  // ---- The code's loops ----

  /** CRC32C::Table: each of the 256 entries is its index shifted eight times. */
  method Table() returns (table: array<bv32>)
    ensures fresh(table) && table.Length == 256
    ensures forall b: byte :: IntOf(b) < 256 && table[IntOf(b)] == TableEntry(b)
  {
    hide *;
    table := new bv32[256];
    var n: int := 0;
    while n < 256
      invariant 0 <= n <= 256
      invariant forall i :: 0 <= i < n ==> table[i] == TableEntry(ByteOf(i))
    {
      var b := ByteOf(n);
      var c := Wide(b);
      var k := 0;
      EntryBase(b);
      while k < 8
        invariant 0 <= k <= 8
        invariant StepN(c, 8 - k) == TableEntry(b)
        modifies {}
      {
        StepNUnfold(c, 8 - k);
        c := Step(c);
        k := k + 1;
      }
      StepNUnfold(c, 0);
      table[n] := c;
      n := n + 1;
    }
    forall b: byte
      ensures IntOf(b) < 256 && table[IntOf(b)] == TableEntry(b)
    {
      ByteRoundTrip(b);
    }
  }

  lemma ByteRoundTrip(b: byte)
    ensures 0 <= IntOf(b) < 256 && ByteOf(IntOf(b)) == b
  {
    hide *;
    ByteRange(b);
    ByteOfDigit(b, 0);
    assert IntOf(b) + 256 * 0 == IntOf(b);
  }

  lemma EntryBase(b: byte)
    ensures TableEntry(b) == StepN(Wide(b), 8)
  {
  }

  lemma StepNUnfold(c: bv32, n: nat)
    ensures StepN(c, n) == if n == 0 then c else StepN(Step(c), n - 1)
  {
  }

  /** CRC32C::Extend by table lookup; Value is Extend from 0. */
  method ExtendByTable(crc: bv32, data: Bytes) returns (r: bv32)
    ensures r == Extend(crc, data)
  {
    hide Xor, TableEntry, HighBytes, Wide, Low;
    var table := Table();
    var c := Xor(crc, ONES);
    var i := 0;
    while i < |data|
      invariant 0 <= i <= |data|
      invariant Run(c, data[i..]) == Run(Xor(crc, ONES), data)
    {
      assert data[i..][1..] == data[i + 1..];
      c := Xor(table[IntOf(Low(Xor(c, Wide(data[i]))))], HighBytes(c));
      i := i + 1;
    }
    assert data[i..] == [];
    r := Xor(c, ONES);
  }
}
