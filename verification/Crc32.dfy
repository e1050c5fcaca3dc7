/** CRC-32 as computed by `WalLog::crc32`: the reflected CRC of section 8 of RFC 1952. */
module Crc32 {
  import opened Bytes

  const POLYNOMIAL: bv32 := 0xedb88320
  const INITIAL: bv32 := 0xffff_ffff

  // The word operations are named, so that the algebra below is done on names and not on bits.

  function Xor(x: bv32, y: bv32): bv32 {
    x ^ y
  }

  function Half(x: bv32): bv32 {
    x >> 1
  }

  function Feedback(x: bv32): bv32 {
    POLYNOMIAL & (0 - (x & 1))
  }

  function Invert(x: bv32): bv32 {
    !x
  }

  function Widen(b: Byte): bv32 {
    b as bv32
  }

  /** One bit step of the shift register. */
  function Step(crc: bv32): bv32 {
    Xor(Half(crc), Feedback(crc))
  }

  function Steps(crc: bv32, n: nat): bv32
    decreases n
  {
    if n == 0 then crc else Steps(Step(crc), n - 1)
  }

  function Feed(crc: bv32, b: Byte): bv32 {
    Steps(Xor(crc, Widen(b)), 8)
  }

  function Absorb(crc: bv32, data: Bytes): bv32
    decreases |data|
  {
    if data == [] then crc else Absorb(Feed(crc, data[0]), data[1..])
  }

  function Crc(data: Bytes): bv32 {
    Invert(Absorb(INITIAL, data))
  }

  method Crc32(data: Bytes) returns (result: bv32)
    ensures result == Crc(data)
  {
    var crc := INITIAL;
    for i := 0 to |data|
      invariant Absorb(crc, data[i..]) == Absorb(INITIAL, data)
    {
      assert data[i..][1..] == data[i + 1..];
      crc := FeedByte(crc, data[i]);
    }
    result := !crc;
  }

  method FeedByte(before: bv32, b: Byte) returns (crc: bv32)
    ensures crc == Feed(before, b)
  {
    crc := before ^ (b as bv32);
    for bit := 0 to 8
      invariant Steps(crc, 8 - bit) == Feed(before, b)
    {
      crc := ShiftOut(crc);
    }
  }

  method ShiftOut(before: bv32) returns (crc: bv32)
    ensures crc == Step(before)
  {
    var mask: bv32 := 0 - (before & 1);
    crc := (before >> 1) ^ (POLYNOMIAL & mask);
  }

  lemma {:induction false} AbsorbConcat(crc: bv32, a: Bytes, b: Bytes)
    ensures Absorb(crc, a + b) == Absorb(Absorb(crc, a), b)
    decreases |a|
  {
    if a == [] {
      assert a + b == b;
    } else {
      assert (a + b)[1..] == a[1..] + b;
      AbsorbConcat(Feed(crc, a[0]), a[1..], b);
    }
  }

  // The bit step is a bijection: the bit shifted out reappears as the top bit.

  lemma StepInjective(x: bv32, y: bv32)
    requires Step(x) == Step(y)
    ensures x == y
  {
  }

  lemma XorInjective(x: bv32, y: bv32, s: bv32)
    requires Xor(x, s) == Xor(y, s) || Xor(s, x) == Xor(s, y)
    ensures x == y
  {
  }

  lemma InvertInjective(x: bv32, y: bv32)
    requires Invert(x) == Invert(y)
    ensures x == y
  {
  }

  lemma {:induction false} StepsInjective(x: bv32, y: bv32, n: nat)
    requires Steps(x, n) == Steps(y, n)
    ensures x == y
    decreases n
  {
    if n > 0 {
      StepsInjective(Step(x), Step(y), n - 1);
      StepInjective(x, y);
    }
  }

  lemma {:induction false} AbsorbInjective(x: bv32, y: bv32, data: Bytes)
    requires Absorb(x, data) == Absorb(y, data)
    ensures x == y
    decreases |data|
  {
    if data != [] {
      AbsorbInjective(Feed(x, data[0]), Feed(y, data[0]), data[1..]);
      StepsInjective(Xor(x, Widen(data[0])), Xor(y, Widen(data[0])), 8);
      XorInjective(x, y, Widen(data[0]));
    }
  }

  // The bit step is linear, so up to four bytes act like one word xor-ed into the register.

  lemma HalfXor(x: bv32, y: bv32)
    ensures Half(Xor(x, y)) == Xor(Half(x), Half(y))
  {
  }

  lemma FeedbackXor(x: bv32, y: bv32)
    ensures Feedback(Xor(x, y)) == Xor(Feedback(x), Feedback(y))
  {
    FeedbackCases(x);
    FeedbackCases(y);
    FeedbackCases(Xor(x, y));
    LowBitXor(x, y);
  }

  lemma FeedbackCases(x: bv32)
    ensures Feedback(x) == if x & 1 == 1 then POLYNOMIAL else 0
  {
  }

  lemma LowBitXor(x: bv32, y: bv32)
    ensures Xor(x, y) & 1 == 1 <==> (x & 1 == 1) != (y & 1 == 1)
  {
  }

  lemma XorRegroup(a: bv32, b: bv32, c: bv32, d: bv32)
    ensures Xor(Xor(a, b), Xor(c, d)) == Xor(Xor(a, c), Xor(b, d))
  {
    XorAssociative(a, b, Xor(c, d));
    XorAssociative(b, c, d);
    XorCommutative(b, c);
    XorAssociative(c, b, d);
    XorAssociative(a, c, Xor(b, d));
  }

  lemma XorAssociative(a: bv32, b: bv32, c: bv32)
    ensures Xor(Xor(a, b), c) == Xor(a, Xor(b, c))
  {
  }

  lemma XorCommutative(a: bv32, b: bv32)
    ensures Xor(a, b) == Xor(b, a)
  {
  }

  lemma StepXor(x: bv32, y: bv32)
    ensures Step(Xor(x, y)) == Xor(Step(x), Step(y))
  {
    HalfXor(x, y);
    FeedbackXor(x, y);
    XorRegroup(Half(x), Half(y), Feedback(x), Feedback(y));
  }

  lemma {:induction false} StepsXor(x: bv32, y: bv32, n: nat)
    ensures Steps(Xor(x, y), n) == Xor(Steps(x, n), Steps(y, n))
    decreases n
  {
    if n > 0 {
      StepXor(x, y);
      StepsXor(Step(x), Step(y), n - 1);
    }
  }

  lemma {:induction false} StepsSum(x: bv32, m: nat, n: nat)
    ensures Steps(x, m + n) == Steps(Steps(x, m), n)
    decreases m
  {
    if m > 0 {
      StepsSum(Step(x), m - 1, n);
    }
  }

  /** The top `n` bytes of `w` are zero. */
  predicate TopClear(w: bv32, n: nat) {
    if n == 0 then true
    else if n == 1 then w < 0x100_0000
    else if n == 2 then w < 0x1_0000
    else if n == 3 then w < 0x100
    else w == 0
  }

  /** `w` moved up one byte. */
  function Up(w: bv32): bv32 {
    w << 8
  }

  /** A zero low bit is shifted out without feedback. */
  lemma EvenStep(w: bv32)
    requires w & 1 == 0
    ensures Step(w) == Half(w)
  {
    FeedbackCases(w);
  }

  function Double(w: bv32): bv32 {
    w << 1
  }

  lemma DoubledStep(w: bv32)
    requires w & 0x8000_0000 == 0
    ensures Step(Double(w)) == w
  {
    EvenStep(w << 1);
  }

  lemma DoubledRoom(w: bv32, mask: bv32)
    requires mask == 0xff00_0000 || mask == 0xfe00_0000 || mask == 0xfc00_0000 || mask == 0xf800_0000
          || mask == 0xf000_0000 || mask == 0xe000_0000 || mask == 0xc000_0000
    requires w & mask == 0
    ensures w & 0x8000_0000 == 0 && Double(w) & (mask << 1) == 0
  {
  }

  lemma UpIsEightDoubles(w: bv32)
    ensures Up(w) == Double(Double(Double(Double(Double(Double(Double(Double(w))))))))
  {
  }

  lemma TopByteClear(w: bv32)
    requires w < 0x100_0000
    ensures w & 0xff00_0000 == 0
  {
  }

  lemma HighBytesShift(w: bv32)
    requires w < 0x100_0000
    ensures Steps(Up(w), 8) == w
  {
    var w1 := Double(w);
    var w2 := Double(w1);
    var w3 := Double(w2);
    var w4 := Double(w3);
    var w5 := Double(w4);
    var w6 := Double(w5);
    var w7 := Double(w6);
    UpIsEightDoubles(w);
    TopByteClear(w);
    DoubledRoom(w, 0xff00_0000);
    DoubledRoom(w1, 0xfe00_0000);
    DoubledRoom(w2, 0xfc00_0000);
    DoubledRoom(w3, 0xf800_0000);
    DoubledRoom(w4, 0xf000_0000);
    DoubledRoom(w5, 0xe000_0000);
    DoubledRoom(w6, 0xc000_0000);
    StepsOfDoubles(w, w1, w2, w3, w4);
    StepsOfDoubles(w4, w5, w6, w7, Double(w7));
    StepsSum(Up(w), 4, 4);
  }

  lemma StepsOfDoubles(w: bv32, w1: bv32, w2: bv32, w3: bv32, w4: bv32)
    requires w1 == Double(w) && w2 == Double(w1) && w3 == Double(w2) && w4 == Double(w3)
    requires w & 0x8000_0000 == 0 && w1 & 0x8000_0000 == 0 && w2 & 0x8000_0000 == 0 && w3 & 0x8000_0000 == 0
    ensures Steps(w4, 4) == w
  {
    DoubledStep(w);
    DoubledStep(w1);
    DoubledStep(w2);
    DoubledStep(w3);
    assert Steps(w4, 4) == Steps(w3, 3) == Steps(w2, 2) == Steps(w1, 1) == w;
  }

  /** `b` below the bytes of `w`. */
  function Join(b: Byte, w: bv32): bv32 {
    (b as bv32) | (w << 8)
  }

  /** Little-endian word of at most four bytes. */
  function Fold(data: Bytes): bv32 {
    if data == [] then 0 else Join(data[0], Fold(data[1..]))
  }

  lemma JoinClear(b: Byte, w: bv32, n: nat)
    requires n < 4 && TopClear(w, n + 1)
    ensures TopClear(Join(b, w), n)
  {
  }

  lemma {:induction false} FoldClear(data: Bytes)
    requires |data| <= 4
    ensures TopClear(Fold(data), 4 - |data|)
  {
    if data != [] {
      FoldClear(data[1..]);
      JoinClear(data[0], Fold(data[1..]), 4 - |data|);
    }
  }

  lemma XorJoin(s: bv32, b: Byte, w: bv32)
    requires w < 0x100_0000
    ensures Xor(s, Join(b, w)) == Xor(Xor(s, Widen(b)), Up(w))
  {
  }

  lemma JoinInjective(a: Byte, u: bv32, b: Byte, v: bv32)
    requires u < 0x100_0000 && v < 0x100_0000
    requires Join(a, u) == Join(b, v)
    ensures a == b && u == v
  {
  }

  lemma {:induction false} AbsorbFold(crc: bv32, data: Bytes)
    requires |data| <= 4
    ensures Absorb(crc, data) == Steps(Xor(crc, Fold(data)), 8 * |data|)
    decreases |data|
  {
    if data == [] {
      XorZero(crc);
    } else {
      var b, rest := data[0], data[1..];
      AbsorbFold(Feed(crc, b), rest);
      FoldClear(rest);
      HighBytesShift(Fold(rest));
      StepsXor(Xor(crc, Widen(b)), Up(Fold(rest)), 8);
      XorJoin(crc, b, Fold(rest));
      StepsSum(Xor(crc, Fold(data)), 8, 8 * |rest|);
    }
  }

  lemma XorZero(x: bv32)
    ensures Xor(x, 0) == x
  {
  }

  lemma FoldHeads(a: Bytes, b: Bytes)
    requires 0 < |a| == |b| <= 4
    requires Fold(a) == Fold(b)
    ensures a[0] == b[0] && Fold(a[1..]) == Fold(b[1..])
  {
    FoldClear(a[1..]);
    FoldClear(b[1..]);
    JoinInjective(a[0], Fold(a[1..]), b[0], Fold(b[1..]));
  }

  lemma {:induction false} FoldInjective(a: Bytes, b: Bytes)
    requires |a| == |b| <= 4
    requires Fold(a) == Fold(b)
    ensures a == b
  {
    if a != [] {
      FoldHeads(a, b);
      FoldInjective(a[1..], b[1..]);
      SameHeadAndTail(a, b);
    }
  }

  lemma SameHeadAndTail(a: Bytes, b: Bytes)
    requires a != [] && b != [] && a[0] == b[0] && a[1..] == b[1..]
    ensures a == b
  {
    assert a == [a[0]] + a[1..];
    assert b == [b[0]] + b[1..];
  }

  lemma AbsorbInjectiveInData(s: bv32, a: Bytes, b: Bytes)
    requires |a| == |b| <= 4
    requires Absorb(s, a) == Absorb(s, b)
    ensures a == b
  {
    AbsorbFold(s, a);
    AbsorbFold(s, b);
    StepsInjective(Xor(s, Fold(a)), Xor(s, Fold(b)), 8 * |a|);
    XorInjective(Fold(a), Fold(b), s);
    FoldInjective(a, b);
  }

  /** Two inputs that differ only inside a window of at most four bytes have different checksums. */
  lemma BurstDetected(prefix: Bytes, a: Bytes, b: Bytes, suffix: Bytes)
    requires |a| == |b| <= 4 && a != b
    ensures Crc(prefix + a + suffix) != Crc(prefix + b + suffix)
  {
    if Crc(prefix + a + suffix) == Crc(prefix + b + suffix) {
      InvertInjective(Absorb(INITIAL, prefix + a + suffix), Absorb(INITIAL, prefix + b + suffix));
      AbsorbConcat(INITIAL, prefix + a, suffix);
      AbsorbConcat(INITIAL, prefix + b, suffix);
      AbsorbInjective(Absorb(INITIAL, prefix + a), Absorb(INITIAL, prefix + b), suffix);
      AbsorbConcat(INITIAL, prefix, a);
      AbsorbConcat(INITIAL, prefix, b);
      AbsorbInjectiveInData(Absorb(INITIAL, prefix), a, b);
    }
  }

  /** Same length, and different, but only at positions `at .. at + 4`. */
  ghost predicate DifferWithinWord(x: Bytes, y: Bytes, at: nat) {
    |x| == |y| && x != y && forall i :: 0 <= i < |x| && !(at <= i < at + 4) ==> x[i] == y[i]
  }

  lemma FourByteBurstDetected(x: Bytes, y: Bytes, at: nat)
    requires DifferWithinWord(x, y, at)
    ensures Crc(x) != Crc(y)
  {
    var lo := if at < |x| then at else |x|;
    var hi := if at + 4 < |x| then at + 4 else |x|;
    assert x == x[..lo] + x[lo..hi] + x[hi..];
    assert y == x[..lo] + y[lo..hi] + x[hi..];
    BurstDetected(x[..lo], x[lo..hi], y[lo..hi], x[hi..]);
  }
}
