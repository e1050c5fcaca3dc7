/** Where every byte of a log record and of a packet stands. */
module ByteLayouts {
  import opened Wrappers
  import opened Slices
  import opened Bytes
  import opened Crc32
  import opened CrcLaw
  import WalLog
  import PacketCodec

  // The checksum in four bytes, the lowest first.

  /** Four bytes whose bits, complemented, are the remainder of the division that defines the checksum. */
  ghost predicate IsChecksum(data: Bytes, d: Bytes) {
    |d| == 4 && IsRemainder(FirstComplemented(Message(data) + Zeros(32)), Complement(Message(d)))
  }

  predicate LowByteIs(x: bv32, b: Byte) {
    x & 0xff == b as bv32
  }

  lemma WordParts(d: Bytes)
    requires |d| == 4
    ensures var w := Word(d);
      && LowByteIs(w, d[0]) && LowByteIs(Down8(w), d[1])
      && LowByteIs(Down8(Down8(w)), d[2]) && LowByteIs(Down8(Down8(Down8(w))), d[3])
  {
  }

  lemma EightDigits(x: bv32, b: Byte, k: nat)
    requires LowByteIs(x, b)
    ensures Digits(x, k + 8) == ByteBits(b) + Digits(Down8(x), k)
  {
    hide Digits, Down8, ByteBits;
    DigitsEight(x, b, k);
  }

  lemma WordBits(d: Bytes)
    requires |d| == 4
    ensures Digits(Word(d), 32) == Message(d)
  {
    hide Digits, Word, Down8, ByteBits, LowByteIs;
    var w := Word(d);
    WordParts(d);
    EightDigits(w, d[0], 24);
    EightDigits(Down8(w), d[1], 16);
    EightDigits(Down8(Down8(w)), d[2], 8);
    EightDigits(Down8(Down8(Down8(w))), d[3], 0);
    NoDigits(Down8(Down8(Down8(Down8(w)))));
    FourBytes(d);
  }

  lemma NoDigits(x: bv32)
    ensures Digits(x, 0) == []
  {
  }

  lemma FourBytes(d: Bytes)
    requires |d| == 4
    ensures Message(d) == ByteBits(d[0]) + (ByteBits(d[1]) + (ByteBits(d[2]) + (ByteBits(d[3]) + [])))
  {
    hide ByteBits;
    MessageFirst(d, 0);
    MessageFirst(d, 1);
    MessageFirst(d, 2);
    MessageFirst(d, 3);
    assert d[0..] == d && d[4..] == [];
  }

  lemma MessageFirst(d: Bytes, i: nat)
    requires i < |d|
    ensures Message(d[i..]) == ByteBits(d[i]) + Message(d[i + 1..])
  {
    assert d[i..][1..] == d[i + 1..];
  }

  lemma SameBits(a: Byte, b: Byte)
    ensures ByteBits(a) == ByteBits(b) ==> a == b
  {
    if ByteBits(a) == ByteBits(b) {
      assert forall i :: 0 <= i < 8 ==> ByteBits(a)[i] == ByteBits(b)[i];
    }
  }

  lemma {:induction false} SameMessage(a: Bytes, b: Bytes)
    requires |a| == |b|
    ensures Message(a) == Message(b) ==> a == b
  {
    hide ByteBits;
    if a != [] && Message(a) == Message(b) {
      assert Message(a)[..8] == ByteBits(a[0]) && Message(b)[..8] == ByteBits(b[0]);
      assert Message(a)[8..] == Message(a[1..]) && Message(b)[8..] == Message(b[1..]);
      SameBits(a[0], b[0]);
      SameMessage(a[1..], b[1..]);
      assert a == [a[0]] + a[1..] && b == [b[0]] + b[1..];
    }
  }

  lemma ChecksumIff(data: Bytes, d: Bytes)
    requires |d| == 4
    ensures Crc(data) == Word(d) <==> IsChecksum(data, d)
  {
    hide Crc, Word, Message, Digits, IsRemainder, WordBytes, FirstComplemented;
    var m := FirstComplemented(Message(data) + Zeros(32));
    var c := WordBytes(Crc(data));
    ChecksumIsRemainder(data);
    WordRoundTrip(Crc(data));
    WordBits(c);
    WordBits(d);
    RemainderIff(m, Complement(Message(c)));
    RemainderIff(m, Complement(Message(d)));
    if IsChecksum(data, d) {
      TwiceComplemented(Message(c));
      TwiceComplemented(Message(d));
      SameMessage(c, d);
    }
  }

  lemma TwiceComplemented(s: Bits)
    ensures Complement(Complement(s)) == s
  {
  }

  // The write-ahead log.

  /** A record of the log, byte by byte. */
  ghost predicate IsLogRecord(d: Bytes, kind: nat, payload: Bytes) {
    && |d| == 16 + |payload| && |payload| <= 8_388_608 && 1 <= kind <= 7
    && Codes(d[..8]) == [0x41, 0x57, 0x50, 0x44, 1, 0, kind, 0]
    && LowFirst(d[8], d[9], d[10], d[11]) == |payload|
    && IsChecksum(payload, d[12..16]) && d[16..] == payload
  }

  function Code(b: Byte): (n: int)
    ensures 0 <= n < 0x100
  {
    b as int
  }

  function Codes(d: Bytes): seq<int> {
    seq(|d|, i requires 0 <= i < |d| => Code(d[i]))
  }

  /** The number in four bytes, the lowest first. */
  function LowFirst(a: Byte, b: Byte, c: Byte, d: Byte): int {
    Code(a) + 0x100 * (Code(b) + 0x100 * (Code(c) + 0x100 * Code(d)))
  }

  lemma Low2(d: Bytes, i: nat)
    requires i + 2 <= |d|
    ensures FromLittleEndian(d[i..i + 2]) == Code(d[i]) + 0x100 * Code(d[i + 1])
  {
    var s := d[i..i + 2];
    assert s[1..] == [d[i + 1]] && s[1..][1..] == [];
    assert FromLittleEndian(s[1..]) == Code(d[i + 1]) + 256 * FromLittleEndian([]);
  }

  lemma Low4(d: Bytes, i: nat)
    requires i + 4 <= |d|
    ensures FromLittleEndian(d[i..i + 4]) == LowFirst(d[i], d[i + 1], d[i + 2], d[i + 3])
  {
    var s := d[i..i + 4];
    Low2(d, i + 2);
    assert s[1..][1..] == d[i + 2..i + 4];
    assert FromLittleEndian(s[1..]) == Code(d[i + 1]) + 256 * FromLittleEndian(d[i + 2..i + 4]);
  }

  /** One digit of a number in base 256. */
  lemma OneDigit(b: int, q: int, n: nat)
    requires 0 <= b < 0x100
    ensures b + 0x100 * q == n <==> b == n % 0x100 && q == n / 0x100
  {
  }

  lemma FourDigits(a: int, b: int, c: int, d: int, n: nat)
    requires 0 <= a < 0x100 && 0 <= b < 0x100 && 0 <= c < 0x100 && 0 <= d < 0x100
    ensures a + 0x100 * (b + 0x100 * (c + 0x100 * d)) == n <==>
      a == n % 0x100 && b == n / 0x100 % 0x100 && c == n / 0x100 / 0x100 % 0x100 && d == n / 0x100 / 0x100 / 0x100
  {
    OneDigit(a, b + 0x100 * (c + 0x100 * d), n);
    OneDigit(b, c + 0x100 * d, n / 0x100);
    OneDigit(c, d, n / 0x100 / 0x100);
  }

  lemma LogDigits(a: int, b: int, c: int, d: int)
    requires 0 <= a < 0x100 && 0 <= b < 0x100 && 0 <= c < 0x100 && 0 <= d < 0x100
    ensures a + 0x100 * (b + 0x100 * (c + 0x100 * d)) == 0x4450_5741 <==> a == 0x41 && b == 0x57 && c == 0x50 && d == 0x44
  {
    FourDigits(a, b, c, d, 0x4450_5741);
  }

  lemma PacketDigits(a: int, b: int, c: int, d: int)
    requires 0 <= a < 0x100 && 0 <= b < 0x100 && 0 <= c < 0x100 && 0 <= d < 0x100
    ensures a + 0x100 * (b + 0x100 * (c + 0x100 * d)) == 0x4450_4350 <==> a == 0x50 && b == 0x43 && c == 0x50 && d == 0x44
  {
    FourDigits(a, b, c, d, 0x4450_4350);
  }

  lemma LogBytes(a: Byte, b: Byte, c: Byte, d: Byte)
    ensures LowFirst(a, b, c, d) == 0x4450_5741 <==> Code(a) == 0x41 && Code(b) == 0x57 && Code(c) == 0x50 && Code(d) == 0x44
  {
    hide Code;
    LogDigits(Code(a), Code(b), Code(c), Code(d));
  }

  lemma PacketBytes(a: Byte, b: Byte, c: Byte, d: Byte)
    ensures LowFirst(a, b, c, d) == 0x4450_4350 <==> Code(a) == 0x50 && Code(b) == 0x43 && Code(c) == 0x50 && Code(d) == 0x44
  {
    hide Code;
    PacketDigits(Code(a), Code(b), Code(c), Code(d));
  }

  lemma LogMagic(d: Bytes)
    requires |d| >= 4
    ensures FromLittleEndian(d[0..4]) == 0x4450_5741 <==>
      Code(d[0]) == 0x41 && Code(d[1]) == 0x57 && Code(d[2]) == 0x50 && Code(d[3]) == 0x44
  {
    hide FromLittleEndian, LowFirst, Code;
    Low4(d, 0);
    LogBytes(d[0], d[1], d[2], d[3]);
  }

  /** Two bytes that hold a small number. */
  lemma SmallNumber(d: Bytes, i: nat, n: nat)
    requires i + 2 <= |d| && n < 0x100
    ensures FromLittleEndian(d[i..i + 2]) == n <==> Code(d[i]) == n && Code(d[i + 1]) == 0
  {
    hide FromLittleEndian, Code;
    Low2(d, i);
    OneDigit(Code(d[i]), Code(d[i + 1]), n);
  }

  lemma EightCodes(d: Bytes, codes: seq<int>)
    requires |d| >= 8 && |codes| == 8
    ensures Codes(d[..8]) == codes <==>
      && Code(d[0]) == codes[0] && Code(d[1]) == codes[1] && Code(d[2]) == codes[2] && Code(d[3]) == codes[3]
      && Code(d[4]) == codes[4] && Code(d[5]) == codes[5] && Code(d[6]) == codes[6] && Code(d[7]) == codes[7]
  {
    if Codes(d[..8]) == codes {
      assert forall i :: 0 <= i < 8 ==> Codes(d[..8])[i] == Code(d[i]);
    }
  }

  /** A record of the log is decoded from exactly these bytes. */
  lemma LogRecordIff(d: Bytes, kind: nat, payload: Bytes)
    ensures WalLog.Decode(d) == Ok(WalLog.Record(kind, payload)) <==> IsLogRecord(d, kind, payload)
  {
    hide Crc, Word, FromLittleEndian, IsChecksum, Codes, LowFirst, Code;
    if |d| >= 16 {
      LogMagic(d);
      SmallNumber(d, 4, 1);
      Low4(d, 8);
      ChecksumIff(d[16..], d[12..16]);
      if 1 <= kind <= 7 {
        SmallNumber(d, 6, kind);
        EightCodes(d, [0x41, 0x57, 0x50, 0x44, 1, 0, kind, 0]);
      }
    }
  }

  // Packets.

  /** The number in some bytes, the highest first. */
  function HighFirst(d: Bytes): int {
    if d == [] then 0 else 0x100 * HighFirst(d[..|d| - 1]) + Code(d[|d| - 1])
  }

  /** The four bytes from the lowest up. */
  function Reversed(d: Bytes): Bytes
    requires |d| == 4
  {
    [d[3], d[2], d[1], d[0]]
  }

  /**
   * A packet, byte by byte: all numbers with the highest byte first, and a checksum of the header, taken with
   * zeros in its own place.
   */
  ghost predicate IsPacket(f: Bytes, p: PacketCodec.Packet) {
    && |f| == 64 + |p.payload| && |p.payload| <= 8_388_608 && 1 <= p.kind <= 8
    && Codes(f[..8]) == [0x44, 0x50, 0x43, 0x50, 0, 1, 0, p.kind]
    && HighFirst(f[8..16]) == p.sessionHash && HighFirst(f[16..24]) == p.chunkIndex
    && HighFirst(f[24..28]) == |p.payload|
    && IsChecksum(f[..28] + [0, 0, 0, 0] + f[32..64], Reversed(f[28..32]))
    && f[32..64] == p.sha && f[64..] == p.payload
  }

  lemma {:induction false} HighNumber(d: Bytes)
    ensures FromBigEndian(d) == HighFirst(d)
  {
    if d != [] {
      HighNumber(d[..|d| - 1]);
    }
  }

  lemma High2(d: Bytes, i: nat)
    requires i + 2 <= |d|
    ensures FromBigEndian(d[i..i + 2]) == Code(d[i + 1]) + 0x100 * Code(d[i])
  {
    var s := d[i..i + 2];
    assert s[..1] == [d[i]] && s[..1][..0] == [];
    assert FromBigEndian(s[..1]) == 256 * FromBigEndian([]) + Code(d[i]);
  }

  lemma High4(d: Bytes, i: nat)
    requires i + 4 <= |d|
    ensures FromBigEndian(d[i..i + 4]) == LowFirst(d[i + 3], d[i + 2], d[i + 1], d[i])
  {
    var s := d[i..i + 4];
    High2(d, i);
    assert s[..3][..2] == d[i..i + 2];
    assert FromBigEndian(s[..3]) == 256 * FromBigEndian(d[i..i + 2]) + Code(d[i + 2]);
  }

  lemma PacketMagic(d: Bytes)
    requires |d| >= 4
    ensures FromBigEndian(d[0..4]) == 0x4450_4350 <==>
      Code(d[0]) == 0x44 && Code(d[1]) == 0x50 && Code(d[2]) == 0x43 && Code(d[3]) == 0x50
  {
    hide FromBigEndian, LowFirst, Code;
    High4(d, 0);
    PacketBytes(d[3], d[2], d[1], d[0]);
  }

  lemma SmallHigh(d: Bytes, i: nat, n: nat)
    requires i + 2 <= |d| && n < 0x100
    ensures FromBigEndian(d[i..i + 2]) == n <==> Code(d[i]) == 0 && Code(d[i + 1]) == n
  {
    hide FromBigEndian, Code;
    High2(d, i);
    OneDigit(Code(d[i + 1]), Code(d[i]), n);
  }

  lemma WordReversed(d: Bytes)
    requires |d| == 4
    ensures WordBE(d) == Word(Reversed(d))
  {
  }

  /** A packet is decoded from exactly these bytes. */
  lemma PacketIff(f: Bytes, p: PacketCodec.Packet)
    ensures PacketCodec.Decode(f) == Ok(p) <==> IsPacket(f, p)
  {
    hide Crc, Word, WordBE, FromBigEndian, HighFirst, IsChecksum, Codes, Code, Reversed;
    if |f| >= 64 {
      PacketMagic(f);
      SmallHigh(f, 4, 1);
      HighNumber(f[8..16]);
      HighNumber(f[16..24]);
      HighNumber(f[24..28]);
      if 1 <= p.kind <= 8 {
        SmallHigh(f, 6, p.kind);
        EightCodes(f, [0x44, 0x50, 0x43, 0x50, 0, 1, 0, p.kind]);
        var zeroed := f[..28] + [0, 0, 0, 0] + f[32..64];
        assert PacketCodec.Zeroed(f[..64]) == zeroed;
        WordReversed(f[28..32]);
        ReversedLength(f[28..32]);
        ChecksumIff(zeroed, Reversed(f[28..32]));
      }
    }
  }

  lemma ReversedLength(d: Bytes)
    requires |d| == 4
    ensures |Reversed(d)| == 4
  {
  }
}
