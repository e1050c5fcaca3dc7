/** Words of 64 bits, and the numbers that they stand for. */
module Words {
  import opened Bytes

  type Word64 = bv64

  // The word operations are named, so that the algebra below is done on names and not on bits.

  function Xor64(x: Word64, y: Word64): Word64 {
    x ^ y
  }

  function And64(x: Word64, y: Word64): Word64 {
    x & y
  }

  function Half64(x: Word64): Word64 {
    x >> 1
  }

  function Double64(x: Word64): Word64 {
    x << 1
  }

  predicate Odd64(x: Word64) {
    x & 1 == 1
  }

  function Widen64(b: Byte): Word64 {
    b as bv64
  }

  const LOW_63: Word64 := 0x7fff_ffff_ffff_ffff

  // Numbers and their binary digits.

  function Pow2(k: nat): nat {
    if k == 0 then 1 else 2 * Pow2(k - 1)
  }

  ghost predicate PowerOfTwo(n: nat) {
    exists k: nat :: n == Pow2(k)
  }

  /** The number whose last binary digit is one exactly if `odd`, in front of which stand those of `half`. */
  function Digits2(half: nat, odd: bool): nat {
    2 * half + if odd then 1 else 0
  }

  function BitAnd(a: nat, b: nat): nat {
    if a == 0 || b == 0 then 0 else Digits2(BitAnd(a / 2, b / 2), a % 2 == 1 && b % 2 == 1)
  }

  function BitXor(a: nat, b: nat): nat
    decreases a + b
  {
    if a == 0 && b == 0 then 0 else Digits2(BitXor(a / 2, b / 2), a % 2 != b % 2)
  }

  /** The number that a word stands for. */
  function Number(x: Word64): nat
    decreases x
  {
    if x == 0 then 0
    else
      HalfIsLess(x);
      Digits2(Number(Half64(x)), Odd64(x))
  }

  /** The word that stands for a number below 2^64. */
  function WordOf(n: nat): Word64 {
    if n == 0 then 0 else WithDigit(WordOf(n / 2), n % 2 == 1)
  }

  function WithDigit(x: Word64, odd: bool): Word64 {
    (x << 1) | (if odd then 1 else 0)
  }

  lemma HalfIsLess(x: Word64)
    requires x != 0
    ensures Half64(x) < x && (Odd64(x) || Half64(x) != 0)
  {
  }

  lemma ZeroHalves()
    ensures Half64(0) == 0 && !Odd64(0)
  {
  }

  lemma Halves(x: Word64)
    ensures Number(x) == Digits2(Number(Half64(x)), Odd64(x))
    ensures Number(Half64(x)) == Number(x) / 2 && (Odd64(x) <==> Number(x) % 2 == 1)
  {
    hide Half64, Odd64;
    ZeroHalves();
  }

  lemma ZeroOnly(x: Word64)
    ensures Number(x) == 0 <==> x == 0
  {
    hide Half64, Odd64, Number;
    if x == 0 {
      NumberOfZero();
    } else {
      NotZero(x);
    }
  }

  lemma NumberOfZero()
    ensures Number(0) == 0
  {
  }

  lemma {:induction false} NotZero(x: Word64)
    requires x != 0
    ensures Number(x) > 0
    decreases x
  {
    hide Number;
    Halves(x);
    HalfIsLess(x);
    if !Odd64(x) {
      NotZero(Half64(x));
    }
  }

  lemma XorHalves(x: Word64, y: Word64)
    ensures Half64(Xor64(x, y)) == Xor64(Half64(x), Half64(y))
    ensures Odd64(Xor64(x, y)) <==> Odd64(x) != Odd64(y)
    ensures Xor64(0, 0) == 0
  {
  }

  lemma {:induction false} NumberXor(x: Word64, y: Word64)
    ensures Number(Xor64(x, y)) == BitXor(Number(x), Number(y))
    decreases Number(x) + Number(y)
  {
    hide Half64, Odd64, Xor64, Number;
    Halves(x);
    Halves(y);
    Halves(Xor64(x, y));
    XorHalves(x, y);
    ZeroOnly(x);
    ZeroOnly(y);
    ZeroOnly(0);
    if x != 0 || y != 0 {
      NumberXor(Half64(x), Half64(y));
    }
  }

  lemma AndHalves(x: Word64, y: Word64)
    ensures Half64(And64(x, y)) == And64(Half64(x), Half64(y))
    ensures Odd64(And64(x, y)) <==> Odd64(x) && Odd64(y)
    ensures And64(0, y) == And64(x, 0) == 0
  {
  }

  lemma {:induction false} NumberAnd(x: Word64, y: Word64)
    ensures Number(And64(x, y)) == BitAnd(Number(x), Number(y))
    decreases Number(x)
  {
    hide Half64, Odd64, And64, Number;
    Halves(x);
    Halves(y);
    Halves(And64(x, y));
    AndHalves(x, y);
    ZeroOnly(x);
    ZeroOnly(y);
    ZeroOnly(0);
    if x != 0 && y != 0 {
      NumberAnd(Half64(x), Half64(y));
    }
  }

  /** With a number of all ones, only the last digits remain. */
  lemma {:induction false} AndOnes(n: nat, k: nat)
    ensures Pow2(k) > 0 && BitAnd(n, Pow2(k) - 1) == n % Pow2(k)
    decreases k
  {
    if k > 0 {
      AndOnes(n / 2, k - 1);
      LastDigits(n, Pow2(k - 1));
      assert (Pow2(k) - 1) / 2 == Pow2(k - 1) - 1;
      if n == 0 {
        assert 0 % Pow2(k) == 0;
      }
    }
  }

  lemma LastDigits(n: nat, m: nat)
    requires m > 0
    ensures n % (2 * m) == 2 * ((n / 2) % m) + n % 2
  {
    var q, r := n / 2 / m, n / 2 % m;
    assert n / 2 == m * q + r;
    assert n == (2 * m) * q + (2 * r + n % 2);
    Remainder(n, 2 * m, q, 2 * r + n % 2);
  }

  lemma Remainder(n: nat, d: nat, q: nat, r: nat)
    requires d > 0 && r < d && n == d * q + r
    ensures n % d == r && n / d == q
  {
    var e := n / d - q;
    assert d * e == d * (n / d) - d * q == r - n % d;
    Multiple(d, e);
  }

  lemma Multiple(d: nat, e: int)
    ensures e >= 1 ==> d * e >= d
    ensures e <= -1 ==> d * e <= 0 - d
  {
    if e >= 1 {
      assert d * e == d * (e - 1) + d;
    } else if e <= -1 {
      assert d * e == d * (e + 1) - d;
    }
  }

  // Shifts.

  function Quarter64(x: Word64): Word64 {
    x >> 2
  }

  function Right4(x: Word64): Word64 {
    x >> 4
  }

  function Right8(x: Word64): Word64 {
    x >> 8
  }

  function Right23(x: Word64): Word64 {
    x >> 23
  }

  lemma DoubleHalves(x: Word64)
    ensures Half64(Double64(x)) == And64(x, LOW_63) && !Odd64(Double64(x))
  {
  }

  lemma QuarterHalves(x: Word64)
    ensures Quarter64(x) == Half64(Half64(x))
  {
  }

  lemma Right4Quarters(x: Word64)
    ensures Right4(x) == Quarter64(Quarter64(x))
  {
  }

  lemma Right8Twice(x: Word64)
    ensures Right8(x) == Right4(Right4(x))
  {
  }

  lemma Right23Parts(x: Word64)
    ensures Right23(x) == Half64(Quarter64(Right4(Right8(Right8(x)))))
  {
  }

  lemma NumberQuarter(x: Word64)
    ensures Number(Quarter64(x)) == Number(x) / 4
  {
    hide Half64, Number, Quarter64;
    QuarterHalves(x);
    Halves(x);
    Halves(Half64(x));
  }

  lemma NumberRight8(x: Word64)
    ensures Number(Right4(x)) == Number(x) / 16 && Number(Right8(x)) == Number(x) / 256
  {
    hide Half64, Number, Quarter64, Right4, Right8, Right23;
    Right8Twice(x);
    Right4Quarters(x);
    Right4Quarters(Right4(x));
    NumberQuarter(x);
    NumberQuarter(Quarter64(x));
    NumberQuarter(Right4(x));
    NumberQuarter(Quarter64(Right4(x)));
  }

  lemma NumberRight23(x: Word64)
    ensures Number(Right23(x)) == Number(x) / 0x80_0000
  {
    hide Half64, Number, Quarter64, Right4, Right8, Right23;
    Right23Parts(x);
    NumberRight8(x);
    NumberRight8(Right8(x));
    NumberRight8(Right8(Right8(x)));
    NumberQuarter(Right4(Right8(Right8(x))));
    Halves(Quarter64(Right4(Right8(Right8(x)))));
  }

  // Bytes.

  function Half8(b: Byte): Byte {
    b >> 1
  }

  lemma ByteHalves(b: Byte)
    ensures Half64(Widen64(b)) == Widen64(Half8(b)) && (Odd64(Widen64(b)) <==> b & 1 == 1)
    ensures b == 0 <==> Widen64(b) == 0
  {
  }

  lemma ByteDigits(b: Byte)
    ensures b as int == 2 * (Half8(b) as int) + if b & 1 == 1 then 1 else 0
  {
  }

  lemma {:induction false} NumberOfByte(b: Byte)
    ensures Number(Widen64(b)) == b as int
    decreases b as int
  {
    hide Half64, Odd64, Widen64, Half8, Number;
    ByteHalves(b);
    ByteDigits(b);
    Halves(Widen64(b));
    ZeroOnly(Widen64(b));
    if b as int > 0 {
      NumberOfByte(Half8(b));
    }
  }

  // Constants, by their bytes.

  function Append8(x: Word64, b: Byte): Word64 {
    (x << 8) | (b as bv64)
  }

  lemma LowByte(x: Word64, b: Byte)
    requires And64(x, 0xff) == Widen64(b)
    ensures Number(x) == 256 * Number(Right8(x)) + b as int
  {
    hide And64, Widen64, Right8, Number, BitAnd;
    var low: Byte := 0xff;
    NumberRight8(x);
    NumberAnd(x, 0xff);
    assert Widen64(low) == 0xff by { WidenedOnes(); }
    NumberOfByte(low);
    assert Pow2(8) == 256 by { assert Pow2(4) == 16; }
    AndOnes(Number(x), 8);
    NumberOfByte(b);
  }

  lemma WidenedOnes()
    ensures Widen64(0xff) == 0xff && (0xff as bv8) as int == 255
  {
  }

  lemma AppendParts(x: Word64, b: Byte)
    requires x < 0x100_0000_0000_0000
    ensures And64(Append8(x, b), 0xff) == Widen64(b) && Right8(Append8(x, b)) == x
  {
  }

  lemma NumberOfAppend(x: Word64, b: Byte)
    requires x < 0x100_0000_0000_0000
    ensures Number(Append8(x, b)) == 256 * Number(x) + b as int
  {
    hide And64, Widen64, Right8, Number, Append8;
    AppendParts(x, b);
    LowByte(Append8(x, b), b);
  }

  lemma Low63Bytes()
    ensures Append8(0x0, 0x7f) == 0x7f && Append8(0x7f, 0xff) == 0x7fff
    ensures Append8(0x7fff, 0xff) == 0x7fffff && Append8(0x7fffff, 0xff) == 0x7fffffff
    ensures Append8(0x7fffffff, 0xff) == 0x7fffffffff && Append8(0x7fffffffff, 0xff) == 0x7fffffffffff
    ensures Append8(0x7fffffffffff, 0xff) == 0x7fffffffffffff && Append8(0x7fffffffffffff, 0xff) == 0x7fffffffffffffff
  {
  }

  lemma Low63Number()
    ensures Number(0x7fffffffffffffff) == 0x7fffffffffffffff
  {
    hide Append8, Number;
    Low63Bytes();
    NumberOfZero();
    NumberOfAppend(0x0, 0x7f);
    NumberOfAppend(0x7f, 0xff);
    NumberOfAppend(0x7fff, 0xff);
    NumberOfAppend(0x7fffff, 0xff);
    NumberOfAppend(0x7fffffff, 0xff);
    NumberOfAppend(0x7fffffffff, 0xff);
    NumberOfAppend(0x7fffffffffff, 0xff);
    NumberOfAppend(0x7fffffffffffff, 0xff);
  }

  lemma Pow2Of63()
    ensures Pow2(63) == 0x8000_0000_0000_0000
  {
    assert Pow2(9) == 512;
    Pow2Sum(9, 9);
    Pow2Sum(18, 18);
    Pow2Sum(36, 18);
    Pow2Sum(54, 9);
  }

  lemma {:induction false} Pow2Sum(a: nat, b: nat)
    ensures Pow2(a + b) == Pow2(a) * Pow2(b)
  {
    if a > 0 {
      Pow2Sum(a - 1, b);
    }
  }

  lemma NumberOfLow63(x: Word64)
    ensures Number(And64(x, LOW_63)) == Number(x) % 0x8000_0000_0000_0000
  {
    hide And64, Number, BitAnd, Pow2;
    NumberAnd(x, LOW_63);
    Low63Number();
    Pow2Of63();
    AndOnes(Number(x), 63);
  }

  /** A shift to the left drops the first binary digit. */
  lemma NumberDouble(x: Word64)
    ensures Number(Double64(x)) == (2 * Number(x)) % 0x1_0000_0000_0000_0000
  {
    hide Half64, Odd64, And64, Double64, Number;
    DoubleHalves(x);
    Halves(Double64(x));
    NumberOfLow63(x);
  }

  lemma DigitHalves(x: Word64, odd: bool)
    ensures Half64(WithDigit(x, odd)) == And64(x, LOW_63) && (Odd64(WithDigit(x, odd)) <==> odd)
  {
  }

  lemma {:induction false} NumberOfWord(n: nat)
    requires n < 0x1_0000_0000_0000_0000
    ensures Number(WordOf(n)) == n
  {
    hide Half64, Odd64, And64, WithDigit, Number;
    if n == 0 {
      NumberOfZero();
    } else {
      NumberOfWord(n / 2);
      DigitHalves(WordOf(n / 2), n % 2 == 1);
      Halves(WordOf(n));
      NumberOfLow63(WordOf(n / 2));
    }
  }
}
