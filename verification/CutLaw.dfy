/** Where contents are cut: the exact law, stated on numbers, and a file with default limits that is cut early. */
module CutLaw {
  import opened Wrappers
  import opened Slices
  import opened Bytes
  import opened Words
  import opened Chunkers
  import opened Manifest
  import opened Snapshot

  /** The rolling number of some bytes: shifted, folded and mixed in 64 binary digits with every byte. */
  function RollingNumber(x: Bytes): nat {
    if x == [] then 0x9e37_79b9_7f4a_7c15
    else
      var r := RollingNumber(x[..|x| - 1]);
      BitXor(BitXor(BitXor((2 * r) % 0x1_0000_0000_0000_0000, r / 0x80_0000), x[|x| - 1] as int), 0x517c_c1b7_2722_0a95)
  }

  /** The exact law of cutting. */
  ghost predicate ProperCuts(minSize: nat, averageSize: nat, maxSize: nat, pieces: seq<Bytes>)
    requires averageSize > 0
  {
    forall i :: 0 <= i < |pieces| ==> ProperPiece(minSize, averageSize, maxSize, pieces[i], i == |pieces| - 1)
  }

  /**
   * No chunk is empty or longer than the maximum. A chunk that is not the last ends below the maximum only where
   * it has the minimal size and its rolling number is a multiple of the average size, that is, has zeros for its
   * low digits. No chunk goes on behind the first such position.
   */
  ghost predicate ProperPiece(minSize: nat, averageSize: nat, maxSize: nat, piece: Bytes, last: bool)
    requires averageSize > 0
  {
    && 0 < |piece| <= maxSize && GoesOn(minSize, averageSize, piece)
    && (!last && |piece| < maxSize ==> minSize <= |piece| && RollingNumber(piece) % averageSize == 0)
  }

  /** At no earlier position from the minimal size on the rolling number is a multiple of the average size. */
  ghost predicate GoesOn(minSize: nat, averageSize: nat, piece: Bytes)
    requires averageSize > 0
  {
    forall n :: minSize <= n < |piece| ==> RollingNumber(piece[..n]) % averageSize != 0
  }

  // The rolling state of the loop and the rolling number.

  function RollAll(r: Word64, x: Bytes): Word64 {
    if x == [] then r else Roll(RollAll(r, x[..|x| - 1]), x[|x| - 1])
  }

  lemma RollNumber(r: Word64, b: Byte)
    ensures Number(Roll(r, b))
         == BitXor(BitXor(BitXor((2 * Number(r)) % 0x1_0000_0000_0000_0000, Number(r) / 0x80_0000), b as int),
                   0x517c_c1b7_2722_0a95)
  {
    hide Xor64, Double64, Right23, Widen64, Number, BitXor;
    NumberDouble(r);
    NumberRight23(r);
    NumberOfByte(b);
    MixNumber();
    NumberXor(Double64(r), Right23(r));
    NumberXor(Xor64(Double64(r), Right23(r)), Widen64(b));
    NumberXor(Xor64(Xor64(Double64(r), Right23(r)), Widen64(b)), ROLLING_MIX);
  }

  lemma {:induction false} RollAllNumber(x: Bytes)
    ensures Number(RollAll(ROLLING_SEED, x)) == RollingNumber(x)
  {
    hide Number, Roll, BitXor;
    if x == [] {
      SeedNumber();
    } else {
      RollAllNumber(x[..|x| - 1]);
      RollNumber(RollAll(ROLLING_SEED, x[..|x| - 1]), x[|x| - 1]);
    }
  }

  lemma SeedBytes()
    ensures Append8(0x0, 0x9e) == 0x9e && Append8(0x9e, 0x37) == 0x9e37
    ensures Append8(0x9e37, 0x79) == 0x9e3779 && Append8(0x9e3779, 0xb9) == 0x9e3779b9
    ensures Append8(0x9e3779b9, 0x7f) == 0x9e3779b97f && Append8(0x9e3779b97f, 0x4a) == 0x9e3779b97f4a
    ensures Append8(0x9e3779b97f4a, 0x7c) == 0x9e3779b97f4a7c && Append8(0x9e3779b97f4a7c, 0x15) == 0x9e3779b97f4a7c15
  {
  }

  lemma SeedNumber()
    ensures Number(ROLLING_SEED) == 0x9e3779b97f4a7c15
  {
    hide Append8, Number;
    SeedBytes();
    NumberOfZero();
    NumberOfAppend(0x0, 0x9e);
    NumberOfAppend(0x9e, 0x37);
    NumberOfAppend(0x9e37, 0x79);
    NumberOfAppend(0x9e3779, 0xb9);
    NumberOfAppend(0x9e3779b9, 0x7f);
    NumberOfAppend(0x9e3779b97f, 0x4a);
    NumberOfAppend(0x9e3779b97f4a, 0x7c);
    NumberOfAppend(0x9e3779b97f4a7c, 0x15);
  }

  lemma MixBytes()
    ensures Append8(0x0, 0x51) == 0x51 && Append8(0x51, 0x7c) == 0x517c
    ensures Append8(0x517c, 0xc1) == 0x517cc1 && Append8(0x517cc1, 0xb7) == 0x517cc1b7
    ensures Append8(0x517cc1b7, 0x27) == 0x517cc1b727 && Append8(0x517cc1b727, 0x22) == 0x517cc1b72722
    ensures Append8(0x517cc1b72722, 0x0a) == 0x517cc1b727220a && Append8(0x517cc1b727220a, 0x95) == 0x517cc1b727220a95
  {
  }

  lemma MixNumber()
    ensures Number(ROLLING_MIX) == 0x517cc1b727220a95
  {
    hide Append8, Number;
    MixBytes();
    NumberOfZero();
    NumberOfAppend(0x0, 0x51);
    NumberOfAppend(0x51, 0x7c);
    NumberOfAppend(0x517c, 0xc1);
    NumberOfAppend(0x517cc1, 0xb7);
    NumberOfAppend(0x517cc1b7, 0x27);
    NumberOfAppend(0x517cc1b727, 0x22);
    NumberOfAppend(0x517cc1b72722, 0x0a);
    NumberOfAppend(0x517cc1b727220a, 0x95);
  }

  /** The test of the loop at the end of an open chunk. */
  ghost predicate CutsAt(p: Params, x: Bytes) {
    CutsHere(p, RollAll(ROLLING_SEED, x), |x|)
  }

  lemma MaskedIff(x: Word64, mask: Word64, averageSize: nat)
    requires PowerOfTwo(averageSize) && Number(mask) == averageSize - 1
    ensures Masked(x, mask) <==> Number(x) % averageSize == 0
  {
    hide And64, Number, BitAnd;
    var k: nat :| averageSize == Pow2(k);
    AndOnes(Number(x), k);
    NumberAnd(x, mask);
    ZeroOnly(And64(x, mask));
    MaskedAnd(x, mask);
  }

  lemma MaskedAnd(x: Word64, mask: Word64)
    ensures Masked(x, mask) <==> And64(x, mask) == 0
  {
  }

  lemma {:induction false} PowersArePositive(k: nat)
    ensures Pow2(k) > 0
  {
    if k > 0 {
      PowersArePositive(k - 1);
    }
  }

  lemma AveragePositive(averageSize: nat)
    requires PowerOfTwo(averageSize)
    ensures averageSize > 0
  {
    var k: nat :| averageSize == Pow2(k);
    PowersArePositive(k);
  }

  lemma CutsAtIff(p: Params, minSize: nat, averageSize: nat, maxSize: nat, x: Bytes)
    requires HasLimits(p, minSize, averageSize, maxSize)
    ensures averageSize > 0
    ensures CutsAt(p, x) <==> |x| >= maxSize || (|x| >= minSize && RollingNumber(x) % averageSize == 0)
  {
    hide Number, RollingNumber, RollAll, Masked;
    AveragePositive(averageSize);
    RollAllNumber(x);
    MaskedIff(RollAll(ROLLING_SEED, x), p.mask, averageSize);
  }

  /** The search for the next cut finds the first position behind an open chunk at which the test holds. */
  lemma {:induction false} NextCutIsFirst(p: Params, open: Bytes, rest: Bytes)
    ensures var cut := NextCut(p, RollAll(ROLLING_SEED, open), |open|, rest);
            && (cut.Some? ==> CutsAt(p, open + rest[..cut.value]))
            && (forall m :: 0 < m <= |rest| && (cut.Some? ==> m < cut.value) ==> !CutsAt(p, open + rest[..m]))
    decreases |rest|
  {
    hide Roll, CutsHere;
    if rest != [] {
      var more := open + [rest[0]];
      assert more[..|open|] == open;
      assert RollAll(ROLLING_SEED, more) == Roll(RollAll(ROLLING_SEED, open), rest[0]);
      NextCutIsFirst(p, more, rest[1..]);
      forall m | 0 < m <= |rest|
        ensures open + rest[..m] == more + rest[1..][..m - 1]
      {
      }
      assert open + rest[..1] == more + [] == more;
    }
  }

  lemma FirstCutIsFirst(p: Params, data: Bytes)
    ensures var cut := FirstCut(p, data);
            && (cut.Some? ==> CutsAt(p, data[..cut.value]))
            && (forall m :: 0 < m <= |data| && (cut.Some? ==> m < cut.value) ==> !CutsAt(p, data[..m]))
  {
    hide CutsAt, NextCut;
    NextCutIsFirst(p, [], data);
    forall m | 0 <= m <= |data|
      ensures [] + data[..m] == data[..m]
    {
    }
  }

  // The loop cuts properly, and there is only one proper way to cut.

  lemma FirstPieceIsProper(p: Params, minSize: nat, averageSize: nat, maxSize: nat, data: Bytes)
    requires HasLimits(p, minSize, averageSize, maxSize) && data != []
    ensures var n := if FirstCut(p, data).Some? then FirstCut(p, data).value else |data|;
            && averageSize > 0 && ProperPiece(minSize, averageSize, maxSize, data[..n], n == |data|)
            && (FirstCut(p, data).None? ==> n == |data|)
  {
    hide NextCut, RollingNumber, CutsAt, HasLimits, FirstCut;
    var n := if FirstCut(p, data).Some? then FirstCut(p, data).value else |data|;
    assert 0 < minSize <= maxSize by { LimitsOrdered(p, minSize, averageSize, maxSize); }
    FirstCutIsFirst(p, data);
    CutsAtIff(p, minSize, averageSize, maxSize, data[..n]);
    forall m | 0 < m < n
      ensures m < maxSize && (m < minSize || RollingNumber(data[..n][..m]) % averageSize != 0)
    {
      CutsAtIff(p, minSize, averageSize, maxSize, data[..m]);
      assert data[..n][..m] == data[..m];
    }
    if FirstCut(p, data).None? {
      CutsAtIff(p, minSize, averageSize, maxSize, data[..|data|]);
    }
    if n > 1 {
      CutsAtIff(p, minSize, averageSize, maxSize, data[..n - 1]);
    }
  }

  lemma LimitsOrdered(p: Params, minSize: nat, averageSize: nat, maxSize: nat)
    requires HasLimits(p, minSize, averageSize, maxSize)
    ensures 0 < minSize <= maxSize
  {
  }

  lemma ProperFirst(minSize: nat, averageSize: nat, maxSize: nat, first: Bytes, rest: seq<Bytes>)
    requires averageSize > 0
    ensures ProperCuts(minSize, averageSize, maxSize, [first] + rest) <==>
      ProperPiece(minSize, averageSize, maxSize, first, rest == []) && ProperCuts(minSize, averageSize, maxSize, rest)
  {
    hide ProperPiece;
    var pieces := [first] + rest;
    if ProperCuts(minSize, averageSize, maxSize, pieces) {
      assert ProperPiece(minSize, averageSize, maxSize, pieces[0], 0 == |pieces| - 1);
      forall i | 0 <= i < |rest|
        ensures ProperPiece(minSize, averageSize, maxSize, rest[i], i == |rest| - 1)
      {
        assert ProperPiece(minSize, averageSize, maxSize, pieces[i + 1], i + 1 == |pieces| - 1);
      }
    }
  }

  lemma {:induction false} PiecesAreProper(p: Params, minSize: nat, averageSize: nat, maxSize: nat, data: Bytes)
    requires HasLimits(p, minSize, averageSize, maxSize)
    ensures averageSize > 0 && ProperCuts(minSize, averageSize, maxSize, Pieces(p, data))
    decreases |data|
  {
    hide NextCut, RollingNumber, HasLimits, FirstCut, ProperCuts, GoesOn;
    AveragePositive(averageSize) by { assert PowerOfTwo(averageSize) by { LimitsPower(p, minSize, averageSize, maxSize); } }
    if data == [] {
      NothingIsProper(minSize, averageSize, maxSize);
    } else {
      var cut := FirstCut(p, data);
      var n := if cut.Some? then cut.value else |data|;
      FirstPieceIsProper(p, minSize, averageSize, maxSize, data);
      assert data[..|data|] == data;
      if cut.Some? {
        PiecesAreProper(p, minSize, averageSize, maxSize, data[n..]);
        ProperFirst(minSize, averageSize, maxSize, data[..n], Pieces(p, data[n..]));
      } else {
        NothingIsProper(minSize, averageSize, maxSize);
        ProperFirst(minSize, averageSize, maxSize, data, []);
        assert [data] + [] == [data];
      }
    }
  }

  lemma LimitsPower(p: Params, minSize: nat, averageSize: nat, maxSize: nat)
    requires HasLimits(p, minSize, averageSize, maxSize)
    ensures PowerOfTwo(averageSize)
  {
  }

  lemma NothingIsProper(minSize: nat, averageSize: nat, maxSize: nat)
    requires averageSize > 0
    ensures ProperCuts(minSize, averageSize, maxSize, [])
  {
  }

  lemma ShorterFirst(a: seq<Bytes>, b: seq<Bytes>)
    requires a != [] && b != [] && Joined(a) == Joined(b) && |a[0]| < |b[0]|
    ensures a[0] == b[0][..|a[0]|] && a[1..] != []
  {
    assert Joined(a)[..|a[0]|] == a[0] && Joined(b)[..|a[0]|] == b[0][..|a[0]|];
  }

  lemma FirstNotShorter(minSize: nat, averageSize: nat, maxSize: nat, a: seq<Bytes>, b: seq<Bytes>)
    requires averageSize > 0 && a != [] && b != [] && Joined(a) == Joined(b)
    requires ProperPiece(minSize, averageSize, maxSize, a[0], a[1..] == [])
    requires ProperPiece(minSize, averageSize, maxSize, b[0], b[1..] == [])
    ensures |a[0]| >= |b[0]|
  {
    hide RollingNumber, Joined;
    if |a[0]| < |b[0]| {
      ShorterFirst(a, b);
      assert false;
    }
  }

  lemma {:induction false} CutsUnique(minSize: nat, averageSize: nat, maxSize: nat, a: seq<Bytes>, b: seq<Bytes>)
    requires averageSize > 0 && Joined(a) == Joined(b)
    requires ProperCuts(minSize, averageSize, maxSize, a) && ProperCuts(minSize, averageSize, maxSize, b)
    ensures a == b
    decreases |a|
  {
    hide GoesOn, RollingNumber;
    if a != [] && b != [] {
      assert a == [a[0]] + a[1..] && b == [b[0]] + b[1..];
      ProperFirst(minSize, averageSize, maxSize, a[0], a[1..]);
      ProperFirst(minSize, averageSize, maxSize, b[0], b[1..]);
      FirstNotShorter(minSize, averageSize, maxSize, a, b);
      FirstNotShorter(minSize, averageSize, maxSize, b, a);
      assert Joined(a)[..|a[0]|] == a[0] && Joined(b)[..|a[0]|] == b[0];
      assert Joined(a)[|a[0]|..] == Joined(a[1..]) && Joined(b)[|a[0]|..] == Joined(b[1..]);
      CutsUnique(minSize, averageSize, maxSize, a[1..], b[1..]);
    }
  }

  /** For all contents and limits: these are the chunks iff they join to the contents and are cut properly. */
  lemma CutsExactly(p: Params, minSize: nat, averageSize: nat, maxSize: nat, data: Bytes, pieces: seq<Bytes>)
    requires HasLimits(p, minSize, averageSize, maxSize)
    ensures averageSize > 0
    ensures ContentPieces(p, data) == pieces <==>
      if data == [] then pieces == [[]] else Joined(pieces) == data && ProperCuts(minSize, averageSize, maxSize, pieces)
  {
    hide Pieces, ProperCuts, HasLimits;
    PiecesAreProper(p, minSize, averageSize, maxSize, data);
    PiecesJoin(p, data);
    if data != [] && Joined(pieces) == data && ProperCuts(minSize, averageSize, maxSize, pieces) {
      CutsUnique(minSize, averageSize, maxSize, Pieces(p, data), pieces);
    }
  }

  // The default limits.

  lemma DefaultLimits()
    ensures HasLimits(CDC_DEFAULTS, 16384, 65536, 262144)
  {
    hide Number, Append8;
    assert Pow2(8) == 256 by { assert Pow2(4) == 16; }
    Pow2Sum(8, 8);
    assert 65536 == Pow2(16);
    NumberOfZero();
    assert Append8(0, 0xff) == 0xff && Append8(0xff, 0xff) == 0xffff by { OnesAppend(); }
    NumberOfAppend(0, 0xff);
    NumberOfAppend(0xff, 0xff);
  }

  lemma OnesAppend()
    ensures Append8(0, 0xff) == 0xff && Append8(0xff, 0xff) == 0xffff
  {
  }

  /** The chunks of a backup in fixed-size mode. */
  lemma DefaultFixedExactly(content: Bytes, pieces: seq<Bytes>)
    ensures PiecesOf(Fixed, content) == pieces <==>
      && pieces != [] && Joined(pieces) == content
      && (forall i :: 0 <= i < |pieces| - 1 ==> |pieces[i]| == 65536)
      && |pieces[|pieces| - 1]| <= 65536 && (content != [] ==> pieces[|pieces| - 1] != [])
  {
    hide FixedPieces, Joined;
    FixedExactly(content, 65536, pieces);
  }

  /** The chunks of a backup in content-defined mode. */
  lemma DefaultCutsExactly(content: Bytes, pieces: seq<Bytes>)
    ensures PiecesOf(ContentDefined, content) == pieces <==>
      if content == [] then pieces == [[]] else Joined(pieces) == content && ProperCuts(16384, 65536, 262144, pieces)
  {
    hide ContentPieces, ProperCuts;
    DefaultLimits();
    CutsExactly(CDC_DEFAULTS, 16384, 65536, 262144, content, pieces);
  }

  // A file that is cut far below the maximum.

  // 72 bytes that lead the rolling state back to its seed; behind the first twelve it ends in sixteen zeros.
  const ROW0: Bytes := [0x31, 0x01, 0x00, 0x00, 0x00, 0x01, 0x01, 0x01, 0x00, 0x00, 0x01, 0x00]
  const ROW1: Bytes := [0xf4, 0x01, 0x00, 0x01, 0x00, 0x00, 0x00, 0x00, 0x01, 0x00, 0x01, 0x01]
  const ROW2: Bytes := [0x01, 0x01, 0x00, 0x00, 0x00, 0x00, 0x00, 0x00, 0x01, 0x00, 0x00, 0x00]
  const ROW3: Bytes := [0x00, 0x01, 0x00, 0x01, 0x00, 0x00, 0x00, 0x00, 0x01, 0x00, 0x01, 0x01]
  const ROW4: Bytes := [0x01, 0x01, 0x00, 0x00, 0x00, 0x00, 0x00, 0x00, 0x01, 0x00, 0x00, 0x00]
  const ROW5: Bytes := [0x00, 0x01, 0x00, 0x01, 0x00, 0x00, 0x00, 0x01, 0x00, 0x00, 0x01, 0x01]

  const TURN: Bytes := ROW0 + ROW1 + ROW2 + ROW3 + ROW4 + ROW5

  lemma {:induction false} RollAllConcat(r: Word64, x: Bytes, y: Bytes)
    ensures RollAll(r, x + y) == RollAll(RollAll(r, x), y)
    decreases |y|
  {
    hide Roll;
    if y == [] {
      assert x + y == x;
    } else {
      assert (x + y)[..|x + y| - 1] == x + y[..|y| - 1];
      RollAllConcat(r, x, y[..|y| - 1]);
    }
  }

  function Roll4(r: Word64, a: Byte, b: Byte, c: Byte, d: Byte): Word64 {
    Roll(Roll(Roll(Roll(r, a), b), c), d)
  }

  lemma RollFour(r: Word64, x: Bytes, i: nat)
    requires i + 4 <= |x|
    ensures RollAll(r, x[..i + 4]) == Roll4(RollAll(r, x[..i]), x[i], x[i + 1], x[i + 2], x[i + 3])
  {
    hide Roll;
    assert x[..i + 4][..i + 3] == x[..i + 3] && x[..i + 3][..i + 2] == x[..i + 2];
    assert x[..i + 2][..i + 1] == x[..i + 1] && x[..i + 1][..i] == x[..i];
    assert RollAll(r, x[..i + 2]) == Roll(RollAll(r, x[..i + 1]), x[i + 1]);
  }

  lemma RollTwelve(r: Word64, x: Bytes)
    requires |x| == 12
    ensures RollAll(r, x)
         == Roll4(Roll4(Roll4(r, x[0], x[1], x[2], x[3]), x[4], x[5], x[6], x[7]), x[8], x[9], x[10], x[11])
  {
    hide Roll4;
    RollFour(r, x, 0);
    RollFour(r, x, 4);
    RollFour(r, x, 8);
    assert x[..0] == [] && x[..12] == x;
    assert RollAll(r, []) == r;
  }

  lemma Quads0()
    ensures Roll4(0x9e37_79b9_7f4a_7c15, 0x31, 0x01, 0x00, 0x00) == 0xdee7_da02_27dc_b8fa
    ensures Roll4(0xdee7_da02_27dc_b8fa, 0x00, 0x01, 0x01, 0x01) == 0xd3ed_e1b7_aeb4_f782
    ensures Roll4(0xd3ed_e1b7_aeb4_f782, 0x00, 0x00, 0x01, 0x00) == 0x034e_5aef_3830_0000
  {
  }

  lemma Row0()
    ensures |ROW0| == 12 && RollAll(0x9e37_79b9_7f4a_7c15, ROW0) == 0x034e_5aef_3830_0000
  {
    hide Roll4;
    RollTwelve(0x9e37_79b9_7f4a_7c15, ROW0);
    Quads0();
  }

  lemma Quads1()
    ensures Roll4(0x034e_5aef_3830_0000, 0xf4, 0x01, 0x00, 0x01) == 0x0975_e766_5073_7f84
    ensures Roll4(0x0975_e766_5073_7f84, 0x00, 0x00, 0x00, 0x00) == 0xaace_3ff0_d444_8066
    ensures Roll4(0xaace_3ff0_d444_8066, 0x01, 0x00, 0x01, 0x01) == 0x9173_bc98_9733_7e4d
  {
  }

  lemma Row1()
    ensures |ROW1| == 12 && RollAll(0x034e_5aef_3830_0000, ROW1) == 0x9173_bc98_9733_7e4d
  {
    hide Roll4;
    RollTwelve(0x034e_5aef_3830_0000, ROW1);
    Quads1();
  }

  lemma Quads2()
    ensures Roll4(0x9173_bc98_9733_7e4d, 0x01, 0x01, 0x00, 0x00) == 0x2aab_881c_a04c_9cff
    ensures Roll4(0x2aab_881c_a04c_9cff, 0x00, 0x00, 0x00, 0x00) == 0x9728_ca5f_d7ba_b7d5
    ensures Roll4(0x9728_ca5f_d7ba_b7d5, 0x01, 0x00, 0x00, 0x00) == 0x4f1c_e468_a8d0_0578
  {
  }

  lemma Row2()
    ensures |ROW2| == 12 && RollAll(0x9173_bc98_9733_7e4d, ROW2) == 0x4f1c_e468_a8d0_0578
  {
    hide Roll4;
    RollTwelve(0x9173_bc98_9733_7e4d, ROW2);
    Quads2();
  }

  lemma Quads3()
    ensures Roll4(0x4f1c_e468_a8d0_0578, 0x00, 0x01, 0x00, 0x01) == 0xcc5e_0f1f_5e77_2fa3
    ensures Roll4(0xcc5e_0f1f_5e77_2fa3, 0x00, 0x00, 0x00, 0x00) == 0xf870_b060_340d_8214
    ensures Roll4(0xf870_b060_340d_8214, 0x01, 0x00, 0x01, 0x01) == 0xba9b_4596_93a7_5969
  {
  }

  lemma Row3()
    ensures |ROW3| == 12 && RollAll(0x4f1c_e468_a8d0_0578, ROW3) == 0xba9b_4596_93a7_5969
  {
    hide Roll4;
    RollTwelve(0x4f1c_e468_a8d0_0578, ROW3);
    Quads3();
  }

  lemma Quads4()
    ensures Roll4(0xba9b_4596_93a7_5969, 0x01, 0x01, 0x00, 0x00) == 0x9424_1afc_e90e_eebd
    ensures Roll4(0x9424_1afc_e90e_eebd, 0x00, 0x00, 0x00, 0x00) == 0x7fd1_ee5b_4395_93f0
    ensures Roll4(0x7fd1_ee5b_4395_93f0, 0x01, 0x00, 0x00, 0x00) == 0xc08e_ae21_ea2e_472a
  {
  }

  lemma Row4()
    ensures |ROW4| == 12 && RollAll(0xba9b_4596_93a7_5969, ROW4) == 0xc08e_ae21_ea2e_472a
  {
    hide Roll4;
    RollTwelve(0xba9b_4596_93a7_5969, ROW4);
    Quads4();
  }

  lemma Quads5()
    ensures Roll4(0xc08e_ae21_ea2e_472a, 0x00, 0x01, 0x00, 0x01) == 0x357a_a38b_719b_0a86
    ensures Roll4(0x357a_a38b_719b_0a86, 0x00, 0x00, 0x00, 0x01) == 0x6a3a_7322_cac3_d043
    ensures Roll4(0x6a3a_7322_cac3_d043, 0x00, 0x00, 0x01, 0x01) == 0x9e37_79b9_7f4a_7c15
  {
  }

  lemma Row5()
    ensures |ROW5| == 12 && RollAll(0xc08e_ae21_ea2e_472a, ROW5) == 0x9e37_79b9_7f4a_7c15
  {
    hide Roll4;
    RollTwelve(0xc08e_ae21_ea2e_472a, ROW5);
    Quads5();
  }

  lemma TurnReturns()
    ensures |TURN| == 72 && TURN[..12] == ROW0 && RollAll(ROLLING_SEED, TURN) == ROLLING_SEED
    ensures RollAll(ROLLING_SEED, ROW0) == 0x034e_5aef_3830_0000
  {
    hide RollAll;
    Row0();
    Row1();
    Row2();
    Row3();
    Row4();
    Row5();
    RollAllConcat(ROLLING_SEED, ROW0, ROW1);
    RollAllConcat(ROLLING_SEED, ROW0 + ROW1, ROW2);
    RollAllConcat(ROLLING_SEED, ROW0 + ROW1 + ROW2, ROW3);
    RollAllConcat(ROLLING_SEED, ROW0 + ROW1 + ROW2 + ROW3, ROW4);
    RollAllConcat(ROLLING_SEED, ROW0 + ROW1 + ROW2 + ROW3 + ROW4, ROW5);
  }

  function Repeated(x: Bytes, n: nat): Bytes {
    if n == 0 then [] else Repeated(x, n - 1) + x
  }

  lemma {:induction false} TurnsReturn(n: nat)
    ensures |Repeated(TURN, n)| == 72 * n && RollAll(ROLLING_SEED, Repeated(TURN, n)) == ROLLING_SEED
  {
    hide RollAll;
    TurnReturns();
    if n > 0 {
      TurnsReturn(n - 1);
      RollAllConcat(ROLLING_SEED, Repeated(TURN, n - 1), TURN);
    } else {
      NothingRolled();
    }
  }

  lemma NothingRolled()
    ensures RollAll(ROLLING_SEED, []) == ROLLING_SEED
  {
  }

  /** With the default limits, this file of 16488 bytes is cut where its contents say so. */
  lemma CutBelowMaximum()
    ensures var pieces := PiecesOf(ContentDefined, Repeated(TURN, 229));
            |pieces| > 1 && 16384 <= |pieces[0]| <= 16428 < 262144
  {
    hide RollAll, NextCut, Pieces, Repeated, CutsAt;
    var data := Repeated(TURN, 229);
    TurnsReturn(229);
    TurnIsCut();
    FirstCutIsFirst(CDC_DEFAULTS, data);
    CutBounds(CDC_DEFAULTS, ROLLING_SEED, 0, data);
    assert FirstCut(CDC_DEFAULTS, data).Some? && FirstCut(CDC_DEFAULTS, data).value <= 16428;
    PiecesBehindCut(CDC_DEFAULTS, data);
  }

  lemma TurnIsCut()
    ensures |Repeated(TURN, 229)| >= 16428 && CutsAt(CDC_DEFAULTS, Repeated(TURN, 229)[..16428])
  {
    hide RollAll;
    TurnReturns();
    TurnsReturn(228);
    RollAllConcat(ROLLING_SEED, Repeated(TURN, 228), ROW0);
    assert Repeated(TURN, 229) == Repeated(TURN, 228) + TURN;
    assert Repeated(TURN, 229)[..16428] == Repeated(TURN, 228) + ROW0;
    EndsInZeros();
  }

  lemma PiecesBehindCut(p: Params, data: Bytes)
    requires FirstCut(p, data).Some? && FirstCut(p, data).value < |data|
    ensures |Pieces(p, data)| > 1 && |Pieces(p, data)[0]| == FirstCut(p, data).value
  {
    hide NextCut;
    var rest := data[FirstCut(p, data).value..];
    assert Pieces(p, rest) != [];
  }

  lemma EndsInZeros()
    ensures Masked(0x034e_5aef_3830_0000, 0xffff)
  {
  }
}
