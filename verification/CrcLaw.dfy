/** The checksum is that of section 8 of RFC 1952: the remainder of a polynomial division. */
module CrcLaw {
  import opened Slices
  import opened Bytes
  import opened Crc32

  /** The coefficients of a polynomial over the field of two elements, from the highest power down. */
  type Bits = seq<bool>

  function Zeros(n: nat): (z: Bits)
    ensures |z| == n && forall i :: 0 <= i < n ==> !z[i]
  {
    seq(n, i => false)
  }

  function Plus(a: Bits, b: Bits): (c: Bits)
    requires |a| == |b|
    ensures |c| == |a| && forall i :: 0 <= i < |c| ==> c[i] == (a[i] != b[i])
  {
    seq(|a|, i requires 0 <= i < |a| => a[i] != b[i])
  }

  /** The powers that occur in the generator. */
  const EXPONENTS: set<nat> := {32, 26, 23, 22, 16, 12, 11, 10, 8, 7, 5, 4, 2, 1, 0}

  function Generator(): (g: Bits)
    ensures |g| == 33 && g[0]
  {
    seq(33, i requires 0 <= i < 33 => (32 - i) in EXPONENTS)
  }

  /** One coefficient times the generator times the power `n`. */
  function Multiple(coefficient: bool, n: nat): (p: Bits)
    ensures |p| == n + 33 && p[0] == coefficient
  {
    if coefficient then Generator() + Zeros(n) else Zeros(n + 33)
  }

  /** The product of a polynomial and the generator. */
  function Times(q: Bits): (p: Bits)
    ensures |p| == |q| + 32
  {
    if q == [] then Zeros(32) else Plus(Multiple(q[0], |q| - 1), [false] + Times(q[1..]))
  }

  /** `m` is a multiple of the generator, given by its factor, and a rest below the power 32. */
  ghost predicate Divides(m: Bits, q: Bits, r: Bits) {
    |r| == 32 && |m| == |q| + 32 && m == Plus(Times(q), Zeros(|q|) + r)
  }

  ghost predicate IsRemainder(m: Bits, r: Bits) {
    exists q :: Divides(m, q, r)
  }

  /** The bits of a message, the lowest of every byte first. */
  function Message(data: Bytes): Bits {
    if data == [] then [] else ByteBits(data[0]) + Message(data[1..])
  }

  function ByteBits(b: Byte): (s: Bits)
    ensures |s| == 8
  {
    [ b & 0x01 != 0, b & 0x02 != 0, b & 0x04 != 0, b & 0x08 != 0,
      b & 0x10 != 0, b & 0x20 != 0, b & 0x40 != 0, b & 0x80 != 0 ]
  }

  function Complement(s: Bits): Bits {
    seq(|s|, i requires 0 <= i < |s| => !s[i])
  }

  /** The bits of a word, the lowest first. */
  function Digits(c: bv32, k: nat): (s: Bits)
    ensures |s| == k
    decreases k
  {
    if k == 0 then [] else [Odd(c)] + Digits(Half(c), k - 1)
  }

  predicate Odd(x: bv32) {
    x & 1 == 1
  }

  // Long division.

  /** One step of long division: the leading coefficient is removed. */
  function Reduced(m: Bits): (r: Bits)
    requires |m| > 32
    ensures |r| == |m| - 1
  {
    Plus(m, Multiple(m[0], |m| - 33))[1..]
  }

  function Remainder(m: Bits): (r: Bits)
    requires |m| >= 32
    ensures |r| == 32
    decreases |m|
  {
    if |m| == 32 then m else Remainder(Reduced(m))
  }

  /** A multiple with the same leading coefficient, moved from one side to the other. */
  lemma MovedAcross(m: Bits, lead: Bits, t: Bits, z: Bits)
    requires |m| == |lead| == |t| + 1 == |z| + 1
    ensures m == Plus(Plus(lead, [false] + t), [false] + z) <==> m[0] == lead[0] && Plus(m, lead)[1..] == Plus(t, z)
  {
    var sum := Plus(Plus(lead, [false] + t), [false] + z);
    if m[0] == lead[0] && Plus(m, lead)[1..] == Plus(t, z) {
      forall i | 0 <= i < |m|
        ensures m[i] == sum[i]
      {
        if i > 0 {
          assert Plus(m, lead)[1..][i - 1] == Plus(t, z)[i - 1];
        }
      }
    }
  }

  lemma LongerZeros(n: nat, r: Bits)
    ensures Zeros(n + 1) + r == [false] + (Zeros(n) + r)
  {
  }

  lemma NothingDivided(m: Bits)
    requires |m| == 32
    ensures Plus(Times([]), Zeros(0) + m) == m
  {
  }

  lemma {:induction false} DivisionHasRemainder(m: Bits) returns (q: Bits)
    requires |m| >= 32
    ensures Divides(m, q, Remainder(m))
    decreases |m|
  {
    hide Plus, Multiple, Zeros;
    if |m| == 32 {
      q := [];
      NothingDivided(m);
    } else {
      var rest := DivisionHasRemainder(Reduced(m));
      q := [m[0]] + rest;
      assert q[1..] == rest;
      LongerZeros(|rest|, Remainder(m));
      MovedAcross(m, Multiple(m[0], |m| - 33), Times(rest), Zeros(|rest|) + Remainder(m));
    }
  }

  lemma {:induction false} RemainderUnique(m: Bits, q: Bits, r: Bits)
    requires Divides(m, q, r)
    ensures Remainder(m) == r
    decreases |q|
  {
    hide Plus, Multiple, Zeros;
    if q == [] {
      NothingDivided(r);
    } else {
      LongerZeros(|q| - 1, r);
      MovedAcross(m, Multiple(q[0], |q| - 1), Times(q[1..]), Zeros(|q| - 1) + r);
      RemainderUnique(Reduced(m), q[1..], r);
    }
  }

  /** Long division computes the remainder, and there is only one. */
  lemma RemainderIff(m: Bits, r: Bits)
    requires |m| >= 32
    ensures IsRemainder(m, r) <==> r == Remainder(m)
  {
    var q := DivisionHasRemainder(m);
    assert Divides(m, q, Remainder(m));
    if IsRemainder(m, r) {
      var p :| Divides(m, p, r);
      RemainderUnique(m, p, r);
    }
  }

  // The shift register.

  /** One step of the register, with one more bit of the message. */
  function Shifted(reg: Bits, bit: bool): (r: Bits)
    requires |reg| == 32
    ensures |r| == 32
  {
    Plus(reg[1..] + [false], Multiple(reg[0] != bit, 0)[1..])
  }

  function ShiftedAll(reg: Bits, m: Bits): (r: Bits)
    requires |reg| == 32
    ensures |r| == 32
    decreases |m|
  {
    if m == [] then reg else ShiftedAll(Shifted(reg, m[0]), m[1..])
  }

  /** The register laid over the message and the zeros behind it. */
  function Laid(reg: Bits, m: Bits): (x: Bits)
    requires |reg| == 32
    ensures |x| == |m| + 32
  {
    Plus(reg + Zeros(|m|), m + Zeros(32))
  }

  lemma MultipleAt(coefficient: bool, n: nat, i: nat)
    requires i < n + 33
    ensures Multiple(coefficient, n)[i] == (i < 33 && Multiple(coefficient, 0)[i])
  {
  }

  lemma ShiftedLaid(reg: Bits, m: Bits)
    requires |reg| == 32 && m != []
    ensures Reduced(Laid(reg, m)) == Laid(Shifted(reg, m[0]), m[1..])
  {
    hide Multiple;
    var x, y := Laid(reg, m), Laid(Shifted(reg, m[0]), m[1..]);
    forall i | 0 <= i < |m| + 31
      ensures Reduced(x)[i] == y[i]
    {
      MultipleAt(x[0], |m| - 1, i + 1);
    }
  }

  /** Shifting a message through the register divides it. */
  lemma {:induction false} RegisterDivides(reg: Bits, m: Bits)
    requires |reg| == 32
    ensures ShiftedAll(reg, m) == Remainder(Laid(reg, m))
    decreases |m|
  {
    hide Shifted, Reduced;
    if m == [] {
      assert Laid(reg, []) == reg;
    } else {
      ShiftedLaid(reg, m);
      RegisterDivides(Shifted(reg, m[0]), m[1..]);
    }
  }

  lemma {:induction false} ShiftedConcat(reg: Bits, m: Bits, n: Bits)
    requires |reg| == 32
    ensures ShiftedAll(reg, m + n) == ShiftedAll(ShiftedAll(reg, m), n)
    decreases |m|
  {
    hide Shifted;
    if m == [] {
      assert m + n == n;
    } else {
      assert (m + n)[1..] == m[1..] + n;
      ShiftedConcat(Shifted(reg, m[0]), m[1..], n);
    }
  }

  /** Bits may be added to the register before they are shifted in. */
  lemma {:induction false} AddedAtOnce(reg: Bits, m: Bits)
    requires |reg| == 32 && |m| <= 32
    ensures ShiftedAll(Plus(reg, m + Zeros(32 - |m|)), Zeros(|m|)) == ShiftedAll(reg, m)
    decreases |m|
  {
    hide Shifted;
    var added := Plus(reg, m + Zeros(32 - |m|));
    if m == [] {
      assert added == reg;
    } else {
      AddedAtOnce(Shifted(reg, m[0]), m[1..]);
      assert Zeros(|m|)[1..] == Zeros(|m| - 1);
      ShiftedAdded(reg, m);
    }
  }

  lemma ShiftedAdded(reg: Bits, m: Bits)
    requires |reg| == 32 && 0 < |m| <= 32
    ensures Shifted(Plus(reg, m + Zeros(32 - |m|)), false) == Plus(Shifted(reg, m[0]), m[1..] + Zeros(33 - |m|))
  {
    hide Multiple;
    var added := Plus(reg, m + Zeros(32 - |m|));
    assert added[0] == (reg[0] != m[0]);
    forall i | 0 <= i < 32
      ensures Shifted(added, false)[i] == Plus(Shifted(reg, m[0]), m[1..] + Zeros(33 - |m|))[i]
    {
    }
  }

  // The word of the loop and the register.

  lemma {:induction false} DigitsXor(x: bv32, y: bv32, k: nat)
    ensures Digits(Xor(x, y), k) == Plus(Digits(x, k), Digits(y, k))
    decreases k
  {
    hide Xor, Half, Odd;
    if k > 0 {
      HalfXor(x, y);
      OddXor(x, y);
      DigitsXor(Half(x), Half(y), k - 1);
    }
  }

  lemma OddXor(x: bv32, y: bv32)
    ensures Odd(Xor(x, y)) == (Odd(x) != Odd(y))
  {
  }

  function Halved(x: bv32, k: nat): bv32
    decreases k
  {
    if k == 0 then x else Halved(Half(x), k - 1)
  }

  lemma {:induction false} HalvedSum(x: bv32, j: nat, k: nat)
    ensures Halved(x, j + k) == Halved(Halved(x, j), k)
    decreases j
  {
    hide Half;
    if j > 0 {
      HalvedSum(Half(x), j - 1, k);
    }
  }

  function Down4(x: bv32): bv32 {
    x >> 4
  }

  function Down8(x: bv32): bv32 {
    x >> 8
  }

  lemma Downs(x: bv32)
    ensures Down4(x) == Half(Half(Half(Half(x)))) && Down8(x) == Down4(Down4(x))
    ensures Down8(Down8(Down8(Down8(x)))) == 0
  {
  }

  lemma HalvedFour(x: bv32)
    ensures Halved(x, 4) == Down4(x)
  {
    hide Half, Down4, Down8;
    Downs(x);
    assert Halved(x, 4) == Halved(Half(x), 3) == Halved(Half(Half(x)), 2) == Halved(Half(Half(Half(x))), 1);
  }

  lemma HalvedEight(x: bv32)
    ensures Halved(x, 8) == Down8(x)
  {
    hide Half, Down4, Down8, Halved;
    Downs(x);
    HalvedFour(x);
    HalvedFour(Down4(x));
    HalvedSum(x, 4, 4);
  }

  lemma HalvedToZero(x: bv32)
    ensures Halved(x, 32) == 0
  {
    hide Half, Down4, Down8, Halved;
    Downs(x);
    HalvedEight(x);
    HalvedEight(Down8(x));
    HalvedEight(Down8(Down8(x)));
    HalvedEight(Down8(Down8(Down8(x))));
    HalvedSum(x, 8, 8);
    HalvedSum(x, 16, 8);
    HalvedSum(x, 24, 8);
  }

  lemma {:induction false} DigitsLast(x: bv32, k: nat)
    ensures Digits(x, k + 1) == Digits(x, k) + [Odd(Halved(x, k))]
    decreases k
  {
    hide Half, Odd;
    if k > 0 {
      DigitsLast(Half(x), k - 1);
    }
  }

  lemma DigitsHalf(x: bv32)
    ensures Digits(Half(x), 32) == Digits(x, 32)[1..] + [false]
  {
    hide Half, Odd;
    DigitsLast(Half(x), 31);
    HalvedToZero(x);
    assert Halved(x, 32) == Halved(Half(x), 31);
    assert !Odd(0) by { ZeroIsEven(); }
  }

  lemma ZeroIsEven()
    ensures !Odd(0)
  {
  }

  /** Eight bits at a time. */
  lemma DigitsEight(x: bv32, b: Byte, k: nat)
    requires x & 0xff == b as bv32
    ensures Digits(x, k + 8) == ByteBits(b) + Digits(Down8(x), k)
  {
    hide Half, Odd, Down4, Down8, ByteBits, Digits, Nibble;
    EightBits(x, b);
    DigitsOfEight(x, k);
  }

  lemma DigitsOfEight(x: bv32, k: nat)
    ensures Digits(x, k + 8) == Nibble(x) + Nibble(Down4(x)) + Digits(Down8(x), k)
  {
    hide Half, Odd, Down4, Down8, Digits, Nibble;
    Downs(x);
    DigitsFour(x, k + 4);
    DigitsFour(Down4(x), k);
    ConcatAssociates(Nibble(x), Nibble(Down4(x)), Digits(Down8(x), k));
  }

  function Nibble(x: bv32): (s: Bits)
    ensures |s| == 4
  {
    [Odd(x), Odd(Half(x)), Odd(Half(Half(x))), Odd(Half(Half(Half(x))))]
  }

  lemma EightBits(x: bv32, b: Byte)
    requires x & 0xff == b as bv32
    ensures ByteBits(b) == Nibble(x) + Nibble(Down4(x))
  {
    LowBits(x, b);
    HighBits(x, b);
  }

  lemma LowBits(x: bv32, b: Byte)
    requires x & 0xff == b as bv32
    ensures Odd(x) == (b & 0x01 != 0) && Odd(Half(x)) == (b & 0x02 != 0)
    ensures Odd(Half(Half(x))) == (b & 0x04 != 0) && Odd(Half(Half(Half(x)))) == (b & 0x08 != 0)
  {
  }

  lemma HighBits(x: bv32, b: Byte)
    requires x & 0xff == b as bv32
    ensures var y := Down4(x);
            && Odd(y) == (b & 0x10 != 0) && Odd(Half(y)) == (b & 0x20 != 0)
            && Odd(Half(Half(y))) == (b & 0x40 != 0) && Odd(Half(Half(Half(y)))) == (b & 0x80 != 0)
  {
  }

  lemma DigitsFour(x: bv32, k: nat)
    ensures Digits(x, k + 4) == Nibble(x) + Digits(Down4(x), k)
  {
    hide Half, Odd, Down4, Down8, Digits;
    Downs(x);
    DigitsOne(x, k + 3);
    DigitsOne(Half(x), k + 2);
    DigitsOne(Half(Half(x)), k + 1);
    DigitsOne(Half(Half(Half(x))), k);
    FourFirst(Odd(x), Odd(Half(x)), Odd(Half(Half(x))), Odd(Half(Half(Half(x)))), Digits(Down4(x), k));
  }

  lemma DigitsOne(x: bv32, k: nat)
    ensures Digits(x, k + 1) == [Odd(x)] + Digits(Half(x), k)
  {
  }

  lemma FourFirst(a: bool, b: bool, c: bool, d: bool, rest: Bits)
    ensures [a] + ([b] + ([c] + ([d] + rest))) == [a, b, c, d] + rest
  {
  }

  lemma DigitsOfByte(b: Byte)
    ensures Digits(Widen(b), 32) == ByteBits(b) + Zeros(24)
  {
    hide Digits, ByteBits;
    WidenedParts(b);
    DigitsEight(Widen(b), b, 24);
    DigitsOfZero(24);
  }

  lemma WidenedParts(b: Byte)
    ensures Widen(b) & 0xff == b as bv32 && Down8(Widen(b)) == 0
  {
  }

  lemma {:induction false} DigitsOfZero(k: nat)
    ensures Digits(0, k) == Zeros(k)
    decreases k
  {
    if k > 0 {
      DigitsOfZero(k - 1);
      assert Half(0) == 0 && !Odd(0);
    }
  }

  /** The constant of the loop is the generator without its highest power. */
  lemma PolynomialIsGenerator()
    ensures Digits(POLYNOMIAL, 32) == Multiple(true, 0)[1..]
  {
    hide Digits, Down8, Down4, ByteBits;
    PolynomialBytes();
    DigitsEight(0xedb8_8320, 0x20, 24);
    DigitsEight(0xed_b883, 0x83, 16);
    DigitsEight(0xedb8, 0xb8, 8);
    DigitsEight(0xed, 0xed, 0);
    assert Digits(0, 0) == [] by { DigitsOfZero(0); }
    GeneratorBits();
  }

  lemma PolynomialBytes()
    ensures POLYNOMIAL == 0xedb8_8320 && Down8(0xedb8_8320) == 0xed_b883 && Down8(0xed_b883) == 0xedb8
    ensures Down8(0xedb8) == 0xed && Down8(0xed) == 0
  {
  }

  lemma GeneratorBits()
    ensures Multiple(true, 0)[1..] == ByteBits(0x20) + (ByteBits(0x83) + (ByteBits(0xb8) + (ByteBits(0xed) + [])))
  {
  }

  lemma DigitsOfStep(c: bv32)
    ensures Digits(Step(c), 32) == Shifted(Digits(c, 32), false)
  {
    hide Digits, Half, Xor, Odd, Feedback, Multiple;
    DigitsXor(Half(c), Feedback(c), 32);
    DigitsHalf(c);
    assert Digits(c, 32)[0] == Odd(c) by { DigitsOne(c, 31); }
    FeedbackByOdd(c);
    PolynomialIsGenerator();
    DigitsOfZero(32);
    assert Multiple(false, 0)[1..] == Zeros(32) by { NoMultiple(); }
  }

  lemma NoMultiple()
    ensures Multiple(false, 0)[1..] == Zeros(32)
  {
  }

  lemma FeedbackByOdd(c: bv32)
    ensures Feedback(c) == if Odd(c) then POLYNOMIAL else 0
  {
    FeedbackCases(c);
  }

  lemma {:induction false} DigitsOfSteps(c: bv32, n: nat)
    ensures Digits(Steps(c, n), 32) == ShiftedAll(Digits(c, 32), Zeros(n))
    decreases n
  {
    hide Digits, Step, Shifted;
    if n > 0 {
      DigitsOfStep(c);
      DigitsOfSteps(Step(c), n - 1);
      assert Zeros(n)[1..] == Zeros(n - 1);
    }
  }

  lemma DigitsOfFeed(c: bv32, b: Byte)
    ensures Digits(Feed(c, b), 32) == ShiftedAll(Digits(c, 32), ByteBits(b))
  {
    hide Digits, Steps, Xor, Widen, ByteBits, ShiftedAll;
    DigitsOfSteps(Xor(c, Widen(b)), 8);
    DigitsXor(c, Widen(b), 32);
    DigitsOfByte(b);
    AddedAtOnce(Digits(c, 32), ByteBits(b));
  }

  lemma {:induction false} DigitsOfAbsorb(c: bv32, data: Bytes)
    ensures Digits(Absorb(c, data), 32) == ShiftedAll(Digits(c, 32), Message(data))
    decreases |data|
  {
    hide Digits, Feed, ByteBits, ShiftedAll;
    if data == [] {
      assert ShiftedAll(Digits(c, 32), []) == Digits(c, 32) by { NothingShifted(Digits(c, 32)); }
    } else {
      DigitsOfFeed(c, data[0]);
      DigitsOfAbsorb(Feed(c, data[0]), data[1..]);
      ShiftedConcat(Digits(c, 32), ByteBits(data[0]), Message(data[1..]));
    }
  }

  lemma NothingShifted(reg: Bits)
    requires |reg| == 32
    ensures ShiftedAll(reg, []) == reg
  {
  }

  lemma DigitsOfInvert(c: bv32)
    ensures Digits(Invert(c), 32) == Complement(Digits(c, 32))
  {
    hide Digits, Invert, Xor;
    InvertIsXor(c);
    DigitsXor(c, INITIAL, 32);
    DigitsOfInitial();
  }

  lemma InvertIsXor(c: bv32)
    ensures Invert(c) == Xor(c, INITIAL)
  {
  }

  lemma DigitsOfInitial()
    ensures Digits(INITIAL, 32) == Complement(Zeros(32))
  {
    hide Digits, Down8, Down4, ByteBits;
    InitialBytes();
    DigitsEight(0xffff_ffff, 0xff, 24);
    DigitsEight(0xff_ffff, 0xff, 16);
    DigitsEight(0xffff, 0xff, 8);
    DigitsEight(0xff, 0xff, 0);
    assert Digits(0, 0) == [] by { DigitsOfZero(0); }
    OneBits();
  }

  lemma InitialBytes()
    ensures INITIAL == 0xffff_ffff && Down8(0xffff_ffff) == 0xff_ffff && Down8(0xff_ffff) == 0xffff
    ensures Down8(0xffff) == 0xff && Down8(0xff) == 0
  {
  }

  lemma OneBits()
    ensures Complement(Zeros(32)) == ByteBits(0xff) + (ByteBits(0xff) + (ByteBits(0xff) + (ByteBits(0xff) + [])))
  {
  }

  /** The first 32 bits complemented. */
  function FirstComplemented(m: Bits): (x: Bits)
    requires |m| >= 32
    ensures |x| == |m|
  {
    Complement(m[..32]) + m[32..]
  }

  /**
   * The checksum of any bytes, its bits from the lowest up: the message with 32 zeros behind it, its first 32
   * bits complemented, is divided by the generator, and the complement of the checksum is the remainder.
   */
  lemma ChecksumIsRemainder(data: Bytes)
    ensures IsRemainder(FirstComplemented(Message(data) + Zeros(32)), Complement(Digits(Crc(data), 32)))
  {
    hide Digits, Absorb, Invert, Remainder, IsRemainder;
    var m, reg := Message(data), Digits(INITIAL, 32);
    DigitsOfInvert(Absorb(INITIAL, data));
    DigitsOfAbsorb(INITIAL, data);
    RegisterDivides(reg, m);
    DigitsOfInitial();
    assert Complement(Complement(Digits(Absorb(INITIAL, data), 32))) == Digits(Absorb(INITIAL, data), 32);
    assert Laid(reg, m) == FirstComplemented(m + Zeros(32));
    RemainderIff(FirstComplemented(m + Zeros(32)), Remainder(Laid(reg, m)));
  }

  // The check value of the digits one to nine.

  lemma Check1()
    ensures Feed(0xffff_ffff, 0x31) == 0x7c23_1048
  {
    CheckSteps(0xffff_ffff, 0x31);
  }

  lemma Check2()
    ensures Feed(0x7c23_1048, 0x32) == 0xb0ac_bb32
  {
    CheckSteps(0x7c23_1048, 0x32);
  }

  lemma Check3()
    ensures Feed(0xb0ac_bb32, 0x33) == 0x77b7_9c2d
  {
    CheckSteps(0xb0ac_bb32, 0x33);
  }

  lemma Check4()
    ensures Feed(0x77b7_9c2d, 0x34) == 0x641c_1f5c
  {
    CheckSteps(0x77b7_9c2d, 0x34);
  }

  lemma Check5()
    ensures Feed(0x641c_1f5c, 0x35) == 0x340a_c5e3
  {
    CheckSteps(0x641c_1f5c, 0x35);
  }

  lemma Check6()
    ensures Feed(0x340a_c5e3, 0x36) == 0xf68d_2c9e
  {
    CheckSteps(0x340a_c5e3, 0x36);
  }

  lemma Check7()
    ensures Feed(0xf68d_2c9e, 0x37) == 0xaffc_9660
  {
    CheckSteps(0xf68d_2c9e, 0x37);
  }

  lemma Check8()
    ensures Feed(0xaffc_9660, 0x38) == 0x651f_2550
  {
    CheckSteps(0xaffc_9660, 0x38);
  }

  lemma Check9()
    ensures Feed(0x651f_2550, 0x39) == 0x340b_c6d9
  {
    CheckSteps(0x651f_2550, 0x39);
  }

  lemma CheckSteps(c: bv32, b: Byte)
    ensures Feed(c, b) == Step(Step(Step(Step(Step(Step(Step(Step(Xor(c, Widen(b))))))))))
  {
    hide Step, Xor, Widen;
  }

  lemma AbsorbFirst(c: bv32, data: Bytes, i: nat)
    requires i < |data|
    ensures Absorb(c, data[i..]) == Absorb(Feed(c, data[i]), data[i + 1..])
  {
    hide Feed;
    assert data[i..][1..] == data[i + 1..];
  }

  /** The check value that is published for this checksum. */
  lemma CheckValue()
    ensures Crc([0x31, 0x32, 0x33, 0x34, 0x35, 0x36, 0x37, 0x38, 0x39]) == 0xcbf4_3926
  {
    hide Feed, Absorb;
    var data: Bytes := [0x31, 0x32, 0x33, 0x34, 0x35, 0x36, 0x37, 0x38, 0x39];
    assert data[0..] == data && data[9..] == [];
    AbsorbFirst(0xffff_ffff, data, 0);
    Check1();
    AbsorbFirst(0x7c23_1048, data, 1);
    Check2();
    AbsorbFirst(0xb0ac_bb32, data, 2);
    Check3();
    AbsorbFirst(0x77b7_9c2d, data, 3);
    Check4();
    AbsorbFirst(0x641c_1f5c, data, 4);
    Check5();
    AbsorbFirst(0x340a_c5e3, data, 5);
    Check6();
    AbsorbFirst(0xf68d_2c9e, data, 6);
    Check7();
    AbsorbFirst(0xaffc_9660, data, 7);
    Check8();
    AbsorbFirst(0x651f_2550, data, 8);
    Check9();
    NothingAbsorbed(0x340b_c6d9);
  }

  lemma NothingAbsorbed(c: bv32)
    ensures Absorb(c, []) == c
  {
  }
}
