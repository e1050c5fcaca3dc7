/** Conversions between bytes and the numbers 0 .. 255. */
module Octet {

  lemma {:induction false} RoundTrip(n: nat)
    requires n < 256
    ensures (n as bv8) as int == n
  {
    if n > 0 {
      var b := (n - 1) as bv8;
      RoundTrip(n - 1);
      Next(b);
      Back(b + 1);
    }
  }

  lemma Next(b: bv8)
    requires b != 255
    ensures (b + 1) as int == b as int + 1
  {
  }

  lemma Back(b: bv8)
    ensures (b as int) as bv8 == b
  {
  }

  lemma Onto(n: nat, b: bv8)
    requires b as int == n
    ensures n < 256 && n as bv8 == b
  {
  }
}

/** Byte strings and fixed-width unsigned integers in both byte orders. */
module Bytes {
  import Octet

  type Byte = bv8
  type Bytes = seq<Byte>

  const U16: nat := 0x1_0000
  const U32: nat := 0x1_0000_0000
  const U64: nat := 0x1_0000_0000_0000_0000

  function Pow256(k: nat): nat {
    if k == 0 then 1 else 256 * Pow256(k - 1)
  }

  lemma Widths()
    ensures Pow256(2) == U16 && Pow256(4) == U32 && Pow256(8) == U64
  {
    assert Pow256(4) == 256 * 256 * Pow256(2);
    assert Pow256(6) == 256 * 256 * Pow256(4);
    assert Pow256(8) == 256 * 256 * Pow256(6);
  }

  /** The low `k` bytes of `n`, least significant first (the WAL's byte order). */
  function LittleEndian(n: nat, k: nat): (d: Bytes)
    ensures |d| == k
  {
    if k == 0 then [] else [(n % 256) as Byte] + LittleEndian(n / 256, k - 1)
  }

  function FromLittleEndian(d: Bytes): nat {
    if d == [] then 0 else d[0] as int + 256 * FromLittleEndian(d[1..])
  }

  /** The low `k` bytes of `n`, most significant first (the packet's byte order). */
  function BigEndian(n: nat, k: nat): (d: Bytes)
    ensures |d| == k
  {
    if k == 0 then [] else BigEndian(n / 256, k - 1) + [(n % 256) as Byte]
  }

  function FromBigEndian(d: Bytes): nat {
    if d == [] then 0 else 256 * FromBigEndian(d[..|d| - 1]) + d[|d| - 1] as int
  }

  /** The last digit of `r + 256 * q` in base 256, as a byte. */
  lemma LastDigit(n: nat, q: nat, b: Byte)
    requires n == b as int + 256 * q
    ensures n / 256 == q && n % 256 == b as int && (n % 256) as Byte == b
  {
    Octet.Onto(n % 256, b);
  }

  lemma {:induction false} LittleEndianRoundTrip(n: nat, k: nat)
    requires n < Pow256(k)
    ensures FromLittleEndian(LittleEndian(n, k)) == n
  {
    if k > 0 {
      Octet.RoundTrip(n % 256);
      LittleEndianRoundTrip(n / 256, k - 1);
    }
  }

  lemma {:induction false} LittleEndianOnto(d: Bytes)
    ensures FromLittleEndian(d) < Pow256(|d|)
    ensures LittleEndian(FromLittleEndian(d), |d|) == d
  {
    if d != [] {
      LittleEndianOnto(d[1..]);
      Octet.Onto(d[0] as int, d[0]);
      LastDigit(FromLittleEndian(d), FromLittleEndian(d[1..]), d[0]);
    }
  }

  lemma {:induction false} BigEndianRoundTrip(n: nat, k: nat)
    requires n < Pow256(k)
    ensures FromBigEndian(BigEndian(n, k)) == n
  {
    if k > 0 {
      Octet.RoundTrip(n % 256);
      BigEndianRoundTrip(n / 256, k - 1);
      assert BigEndian(n, k)[..k - 1] == BigEndian(n / 256, k - 1);
    }
  }

  lemma {:induction false} BigEndianOnto(d: Bytes)
    ensures FromBigEndian(d) < Pow256(|d|)
    ensures BigEndian(FromBigEndian(d), |d|) == d
  {
    if d != [] {
      var last := d[|d| - 1];
      BigEndianOnto(d[..|d| - 1]);
      Octet.Onto(last as int, last);
      LastDigit(FromBigEndian(d), FromBigEndian(d[..|d| - 1]), last);
      assert d[..|d| - 1] + [last] == d;
    }
  }

  /** The four bytes of a 32-bit word, least significant first. */
  function WordBytes(v: bv32): (d: Bytes)
    ensures |d| == 4
  {
    [(v & 0xff) as Byte, ((v >> 8) & 0xff) as Byte, ((v >> 16) & 0xff) as Byte, ((v >> 24) & 0xff) as Byte]
  }

  function Word(d: Bytes): bv32
    requires |d| == 4
  {
    (d[0] as bv32) | ((d[1] as bv32) << 8) | ((d[2] as bv32) << 16) | ((d[3] as bv32) << 24)
  }

  lemma WordRoundTrip(v: bv32)
    ensures Word(WordBytes(v)) == v
  {
  }

  lemma WordOnto(d: Bytes)
    requires |d| == 4
    ensures WordBytes(Word(d)) == d
  {
  }

  /** The same word, most significant byte first. */
  function WordBytesBE(v: bv32): (d: Bytes)
    ensures |d| == 4
  {
    [((v >> 24) & 0xff) as Byte, ((v >> 16) & 0xff) as Byte, ((v >> 8) & 0xff) as Byte, (v & 0xff) as Byte]
  }

  function WordBE(d: Bytes): bv32
    requires |d| == 4
  {
    ((d[0] as bv32) << 24) | ((d[1] as bv32) << 16) | ((d[2] as bv32) << 8) | (d[3] as bv32)
  }

  lemma WordBERoundTrip(v: bv32)
    ensures WordBE(WordBytesBE(v)) == v
  {
  }

  lemma WordBEOnto(d: Bytes)
    requires |d| == 4
    ensures WordBytesBE(WordBE(d)) == d
  {
  }
}
