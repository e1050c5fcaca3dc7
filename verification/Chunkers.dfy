/** Cutting file contents into chunks, at fixed offsets or where the content decides. */
module Chunkers {
  import opened Wrappers
  import opened Slices
  import opened Bytes
  import opened Words

  datatype Chunk = Chunk(index: nat, data: Bytes)

  function Joined(pieces: seq<Bytes>): Bytes {
    if pieces == [] then [] else pieces[0] + Joined(pieces[1..])
  }

  /** The pieces as chunks numbered from `first`. */
  function Numbered(pieces: seq<Bytes>, first: nat): (cs: seq<Chunk>)
    ensures |cs| == |pieces|
    ensures forall i :: 0 <= i < |cs| ==> cs[i] == Chunk(first + i, pieces[i])
  {
    if pieces == [] then [] else [Chunk(first, pieces[0])] + Numbered(pieces[1..], first + 1)
  }

  // `FixedChunker`.

  const DEFAULT_CHUNK_SIZE: nat := 64 * 1024

  function FixedPieces(data: Bytes, size: nat): (pieces: seq<Bytes>)
    requires size > 0
    ensures pieces != []
    decreases |data|
  {
    if |data| <= size then [data] else [data[..size]] + FixedPieces(data[size..], size)
  }

  method FixedChunks(data: Bytes, size: nat) returns (chunks: seq<Chunk>)
    requires size > 0
    ensures chunks == Numbered(FixedPieces(data, size), 0)
  {
    hide FixedPieces, FixedRest, Numbered;
    chunks := [];
    var index := 0;
    var offset := 0;
    FixedRestAtStart(data, size);
    assert [] + FixedRest(data, 0, size, 0) == FixedRest(data, 0, size, 0);
    while offset < |data|
      invariant 0 <= offset
      invariant chunks + FixedRest(data, offset, size, index) == FixedRest(data, 0, size, 0)
      decreases |data| - offset
    {
      var end := if offset + size < |data| then offset + size else |data|;
      var chunk := Chunk(index, data[offset..end]);
      FixedRestStep(data, offset, size, index);
      ConcatAssociates(chunks, [chunk], FixedRest(data, offset + size, size, index + 1));
      chunks := chunks + [chunk];
      index := index + 1;
      offset := offset + size;
    }
    assert chunks == FixedRest(data, 0, size, 0) by { FixedRestAtEnd(data, offset, size, index); }
    if data == [] {
      chunks := chunks + [Chunk(0, [])];
    }
  }

  /** The chunks still to come at `offset`. */
  ghost function FixedRest(data: Bytes, offset: nat, size: nat, index: nat): seq<Chunk>
    requires size > 0
  {
    if offset >= |data| then [] else Numbered(FixedPieces(data[offset..], size), index)
  }

  lemma FixedRestAtStart(data: Bytes, size: nat)
    requires size > 0
    ensures Numbered(FixedPieces(data, size), 0)
         == if data == [] then [Chunk(0, [])] else FixedRest(data, 0, size, 0)
    ensures data == [] ==> FixedRest(data, 0, size, 0) == []
  {
    assert data[0..] == data;
  }

  lemma FixedRestAtEnd(data: Bytes, offset: nat, size: nat, index: nat)
    requires size > 0 && offset >= |data|
    ensures FixedRest(data, offset, size, index) == []
  {
  }

  lemma FixedRestStep(data: Bytes, offset: nat, size: nat, index: nat)
    requires size > 0 && offset < |data|
    ensures var end := if offset + size < |data| then offset + size else |data|;
            FixedRest(data, offset, size, index)
            == [Chunk(index, data[offset..end])] + FixedRest(data, offset + size, size, index + 1)
  {
    if offset + size < |data| {
      SuffixOfSuffix(data, offset, size);
      SliceOfSuffix(data, offset, 0, size);
      NumberedFirst(data[offset..offset + size], FixedPieces(data[offset + size..], size), index);
    } else {
      assert data[offset..|data|] == data[offset..];
      NumberedFirst(data[offset..], [], index);
    }
  }

  lemma NumberedFirst(piece: Bytes, rest: seq<Bytes>, first: nat)
    ensures Numbered([piece] + rest, first) == [Chunk(first, piece)] + Numbered(rest, first + 1)
  {
    assert ([piece] + rest)[1..] == rest;
  }

  lemma {:induction false} FixedPiecesJoin(data: Bytes, size: nat)
    requires size > 0
    ensures Joined(FixedPieces(data, size)) == data
    ensures forall c :: c in FixedPieces(data, size) ==> |c| <= size
    decreases |data|
  {
    hide Joined;
    if |data| <= size {
      JoinedFirst(data, []);
    } else {
      FixedPiecesJoin(data[size..], size);
      JoinedFirst(data[..size], FixedPieces(data[size..], size));
      assert data[..size] + data[size..] == data;
    }
  }

  lemma JoinedFirst(first: Bytes, rest: seq<Bytes>)
    ensures Joined([first] + rest) == first + Joined(rest) && (rest == [] ==> Joined([first]) == first)
  {
    assert ([first] + rest)[1..] == rest && [first] + [] == [first];
  }

  /** All pieces but the last have the chunk size, and the last has the rest. */
  ghost predicate FixedSized(data: Bytes, size: nat, pieces: seq<Bytes>) {
    && pieces != [] && (forall i :: 0 <= i < |pieces| - 1 ==> |pieces[i]| == size)
    && |pieces[|pieces| - 1]| <= size && (data != [] ==> pieces[|pieces| - 1] != [])
  }

  /** For all contents: these are the pieces iff they join to the contents and have these sizes. */
  lemma {:induction false} FixedExactly(data: Bytes, size: nat, pieces: seq<Bytes>)
    requires size > 0
    ensures FixedPieces(data, size) == pieces <==> Joined(pieces) == data && FixedSized(data, size, pieces)
    decreases |pieces|
  {
    hide Joined, FixedSized;
    FixedPiecesJoin(data, size);
    FixedSizes(data, size);
    if Joined(pieces) == data && FixedSized(data, size, pieces) {
      SizedParts(data, size, pieces);
      var rest := pieces[1..];
      assert pieces == [pieces[0]] + rest;
      JoinedFirst(pieces[0], rest);
      if rest != [] {
        assert data[..size] == pieces[0] && data[size..] == Joined(rest);
        JoinedLonger(rest);
        SizedRest(data, size, pieces, data[size..]);
        FixedExactly(data[size..], size, rest);
      } else {
        assert pieces == [pieces[0]];
      }
    }
  }

  lemma SizedParts(data: Bytes, size: nat, pieces: seq<Bytes>)
    requires FixedSized(data, size, pieces)
    ensures pieces != [] && |pieces[0]| <= size && (|pieces| > 1 ==> |pieces[0]| == size && (data != [] ==> |pieces[|pieces| - 1]| > 0))
  {
  }

  lemma SizedRest(data: Bytes, size: nat, pieces: seq<Bytes>, tail: Bytes)
    requires FixedSized(data, size, pieces) && |pieces| > 1 && data != []
    ensures FixedSized(tail, size, pieces[1..])
  {
    var rest := pieces[1..];
    assert rest[|rest| - 1] == pieces[|pieces| - 1];
    forall i | 0 <= i < |rest| - 1
      ensures |rest[i]| == size
    {
      assert rest[i] == pieces[i + 1];
    }
  }

  lemma {:induction false} JoinedLonger(pieces: seq<Bytes>)
    requires pieces != []
    ensures |Joined(pieces)| >= |pieces[|pieces| - 1]|
  {
    if |pieces| > 1 {
      JoinedLonger(pieces[1..]);
    }
  }

  lemma {:induction false} FixedSizes(data: Bytes, size: nat)
    requires size > 0
    ensures FixedSized(data, size, FixedPieces(data, size))
    decreases |data|
  {
    if |data| > size {
      FixedSizes(data[size..], size);
    }
  }

  // `ContentDefinedChunker`.

  const ROLLING_SEED: Word64 := 0x9e3779b97f4a7c15
  const ROLLING_MIX: Word64 := 0x517cc1b727220a95
  const DEFAULT_MIN: nat := 16 * 1024
  const DEFAULT_MAX: nat := 256 * 1024

  datatype Params = Params(minSize: nat, maxSize: nat, mask: Word64) {
    predicate Valid() {
      0 < minSize <= maxSize
    }
  }

  function Roll(rolling: Word64, b: Byte): Word64 {
    Xor64(Xor64(Xor64(Double64(rolling), Right23(rolling)), Widen64(b)), ROLLING_MIX)
  }

  predicate Masked(x: Word64, mask: Word64) {
    x & mask == 0
  }

  predicate CutsHere(p: Params, rolling: Word64, length: nat) {
    length >= p.maxSize || (length >= p.minSize && Masked(rolling, p.mask))
  }

  /** With `length` bytes already in the chunk: how many more up to its cut, if there is one in `data`. */
  function NextCut(p: Params, rolling: Word64, length: nat, data: Bytes): (n: Option<nat>)
    ensures n.Some? ==> 0 < n.value <= |data|
    decreases |data|
  {
    if data == [] then None
    else
      var rolled := Roll(rolling, data[0]);
      if CutsHere(p, rolled, length + 1) then Some(1)
      else
        var n :- NextCut(p, rolled, length + 1, data[1..]);
        Some(n + 1)
  }

  function FirstCut(p: Params, data: Bytes): (n: Option<nat>)
    ensures n.Some? ==> 0 < n.value <= |data|
  {
    NextCut(p, ROLLING_SEED, 0, data)
  }

  function Pieces(p: Params, data: Bytes): seq<Bytes>
    decreases |data|
  {
    if data == [] then []
    else
      var cut := FirstCut(p, data);
      if cut.None? then [data] else [data[..cut.value]] + Pieces(p, data[cut.value..])
  }

  /** The chunk contents; an empty file is one empty chunk. */
  function ContentPieces(p: Params, data: Bytes): (pieces: seq<Bytes>)
    ensures pieces != []
  {
    if data == [] then [[]] else Pieces(p, data)
  }

  /** What is still to come when the open chunk holds `open` and `rest` is unread. */
  ghost function Remaining(p: Params, rolling: Word64, open: Bytes, rest: Bytes): seq<Bytes> {
    var cut := NextCut(p, rolling, |open|, rest);
    if cut.None? then (if open + rest == [] then [] else [open + rest])
    else [open + rest[..cut.value]] + Pieces(p, rest[cut.value..])
  }

  lemma {:induction false} BitAndSelf(n: nat)
    ensures BitAnd(n, n) == n
  {
    if n > 0 {
      BitAndSelf(n / 2);
    }
  }

  /** The test of the constructor: no bit is common to a number and its predecessor. */
  lemma {:induction false} NoCommonBitIff(n: nat)
    requires n > 0
    ensures BitAnd(n, n - 1) == 0 <==> PowerOfTwo(n)
  {
    hide PowerOfTwo, BitAnd;
    PowerOfHalf(n);
    if n > 1 {
      CommonBits(n);
      if n % 2 == 0 {
        NoCommonBitIff(n / 2);
      } else {
        BitAndSelf(n / 2);
      }
    } else {
      assert BitAnd(1, 0) == 0 by { NoBits(); }
    }
  }

  lemma NoBits()
    ensures BitAnd(1, 0) == 0
  {
  }

  lemma CommonBits(n: nat)
    requires n > 1
    ensures BitAnd(n, n - 1) == 2 * BitAnd(n / 2, if n % 2 == 0 then n / 2 - 1 else n / 2)
  {
    hide BitAnd;
    BitAndDigits(n, n - 1);
    if n % 2 == 0 {
      assert (n - 1) / 2 == n / 2 - 1;
    } else {
      assert (n - 1) / 2 == n / 2;
    }
    assert !(n % 2 == 1 && (n - 1) % 2 == 1);
  }

  lemma BitAndDigits(a: nat, b: nat)
    requires a > 0 && b > 0
    ensures BitAnd(a, b) == Digits2(BitAnd(a / 2, b / 2), a % 2 == 1 && b % 2 == 1)
  {
  }

  lemma PowerOfHalf(n: nat)
    requires n > 0
    ensures PowerOfTwo(n) <==> n == 1 || (n % 2 == 0 && PowerOfTwo(n / 2))
  {
    if n == 1 {
      assert n == Pow2(0);
    }
    if k: nat :| n == Pow2(k) {
      assert k > 0 ==> n == 2 * Pow2(k - 1);
    }
    if n % 2 == 0 && PowerOfTwo(n / 2) {
      var k: nat :| n / 2 == Pow2(k);
      assert n == Pow2(k + 1);
    }
  }

  /** The parameters for these limits. */
  ghost predicate HasLimits(p: Params, minSize: nat, averageSize: nat, maxSize: nat) {
    && p.minSize == minSize && p.maxSize == maxSize && 0 < minSize <= maxSize
    && PowerOfTwo(averageSize) && Number(p.mask) == averageSize - 1
  }

  /** The checks of the constructor, which throws where this returns nothing. */
  method MakeParams(minSize: nat, averageSize: nat, maxSize: nat) returns (result: Option<Params>)
    requires averageSize < U64
    ensures result.Some? <==> 0 < minSize <= averageSize <= maxSize && PowerOfTwo(averageSize)
    ensures result.Some? ==> HasLimits(result.value, minSize, averageSize, maxSize) && result.value.Valid()
  {
    hide Masked, Number, WordOf;
    if !(minSize > 0) {
      return None;
    }
    if !(minSize <= averageSize) {
      return None;
    }
    if !(averageSize <= maxSize) {
      return None;
    }
    NoCommonBitIff(averageSize);
    if BitAnd(averageSize, averageSize - 1) != 0 {
      return None;
    }
    NumberOfWord(averageSize - 1);
    return Some(Params(minSize, maxSize, WordOf(averageSize - 1)));
  }

  method ContentChunks(p: Params, data: Bytes) returns (chunks: seq<Chunk>)
    ensures chunks == Numbered(ContentPieces(p, data), 0)
  {
    hide Roll, Masked, Remaining, Pieces;
    chunks := [];
    if data == [] {
      chunks := [Chunk(0, [])];
      return;
    }
    ghost var done: seq<Bytes> := [];
    var rolling := ROLLING_SEED;
    var start := 0;
    var index := 0;
    RemainingAtStart(p, data);
    assert data[0..0] == [] && data[0..] == data && [] + Pieces(p, data) == Pieces(p, data);
    for i := 0 to |data|
      invariant 0 <= start <= i && index == |done| && chunks == Numbered(done, 0)
      invariant done + Remaining(p, rolling, data[start..i], data[i..]) == Pieces(p, data)
    {
      ghost var open := data[start..i];
      assert data[i..] == [data[i]] + data[i + 1..];
      RemainingStep(p, rolling, open, data[i], data[i + 1..]);
      rolling := Roll(rolling, data[i]);
      var length := i + 1 - start;
      assert open + [data[i]] == data[start..i + 1];
      var boundary := length >= p.minSize && Masked(rolling, p.mask);
      if length >= p.maxSize || boundary {
        var chunk := Chunk(index, data[start..i + 1]);
        NumberedLast(done, chunk.data);
        ConcatAssociates(done, [chunk.data], Pieces(p, data[i + 1..]));
        chunks := chunks + [chunk];
        done := done + [chunk.data];
        index := index + 1;
        start := i + 1;
        rolling := ROLLING_SEED;
        RemainingAtStart(p, data[i + 1..]);
        assert data[start..i + 1] == [];
      }
    }
    assert data[|data|..] == [] && data[start..|data|] == data[start..];
    RemainingAtEnd(p, rolling, data[start..]);
    if start < |data| {
      NumberedLast(done, data[start..]);
      chunks := chunks + [Chunk(index, data[start..])];
    } else {
      assert done + [] == done;
    }
  }

  lemma NumberedLast(done: seq<Bytes>, piece: Bytes)
    ensures Numbered(done + [piece], 0) == Numbered(done, 0) + [Chunk(|done|, piece)]
  {
    hide Numbered;
    var all := done + [piece];
    var longer, before := Numbered(all, 0), Numbered(done, 0);
    forall i | 0 <= i < |done|
      ensures longer[i] == before[i]
    {
      assert longer[i] == Chunk(0 + i, all[i]) && before[i] == Chunk(0 + i, done[i]) && all[i] == done[i];
    }
    assert longer[|done|] == Chunk(0 + |done|, all[|done|]);
    OneLonger(longer, before, Chunk(|done|, piece));
  }

  lemma RemainingAtStart(p: Params, data: Bytes)
    ensures Remaining(p, ROLLING_SEED, [], data) == Pieces(p, data)
  {
    hide Roll, CutsHere;
    assert [] + data == data;
    var cut := FirstCut(p, data);
    if cut.Some? {
      assert [] + data[..cut.value] == data[..cut.value];
    }
  }

  lemma RemainingAtEnd(p: Params, rolling: Word64, open: Bytes)
    ensures Remaining(p, rolling, open, []) == if open == [] then [] else [open]
  {
    assert open + [] == open;
  }

  lemma RemainingStep(p: Params, rolling: Word64, open: Bytes, b: Byte, rest: Bytes)
    ensures var rolled := Roll(rolling, b);
            Remaining(p, rolling, open, [b] + rest)
            == if CutsHere(p, rolled, |open| + 1) then [open + [b]] + Pieces(p, rest)
               else Remaining(p, rolled, open + [b], rest)
  {
    hide Roll, CutsHere;
    var rolled := Roll(rolling, b);
    var data := [b] + rest;
    assert data[1..] == rest && data[..1] == [b];
    assert open + data == (open + [b]) + rest;
    if !CutsHere(p, rolled, |open| + 1) {
      var n := NextCut(p, rolled, |open| + 1, rest);
      if n.Some? {
        assert open + data[..n.value + 1] == (open + [b]) + rest[..n.value];
        assert data[n.value + 1..] == rest[n.value..];
      }
    }
  }

  lemma {:induction false} PiecesJoin(p: Params, data: Bytes)
    ensures Joined(Pieces(p, data)) == data
    decreases |data|
  {
    hide NextCut;
    if data != [] {
      var cut := FirstCut(p, data);
      if cut.None? {
        assert Pieces(p, data)[1..] == [];
      } else {
        PiecesJoin(p, data[cut.value..]);
        assert Pieces(p, data)[1..] == Pieces(p, data[cut.value..]);
        assert data[..cut.value] + data[cut.value..] == data;
      }
    }
  }

  lemma ContentPiecesJoin(p: Params, data: Bytes)
    ensures Joined(ContentPieces(p, data)) == data
  {
    PiecesJoin(p, data);
    if data == [] {
      assert Joined(ContentPieces(p, data)) == [] by { assert ContentPieces(p, data)[1..] == []; }
    }
  }

  lemma {:induction false} CutBounds(p: Params, rolling: Word64, length: nat, data: Bytes)
    requires p.Valid() && length < p.maxSize
    ensures var n := NextCut(p, rolling, length, data);
            if n.Some? then p.minSize <= length + n.value <= p.maxSize else length + |data| < p.maxSize
    decreases |data|
  {
    hide Roll;
    if data != [] {
      var rolled := Roll(rolling, data[0]);
      if !CutsHere(p, rolled, length + 1) {
        CutBounds(p, rolled, length + 1, data[1..]);
      }
    }
  }

  /** Every chunk but the last has between the minimum and the maximum number of bytes. */
  lemma {:induction false} ChunkSizes(p: Params, data: Bytes)
    requires p.Valid()
    ensures forall i :: 0 <= i < |Pieces(p, data)| ==> 0 < |Pieces(p, data)[i]| <= p.maxSize
    ensures forall i :: 0 <= i < |Pieces(p, data)| - 1 ==> p.minSize <= |Pieces(p, data)[i]|
    decreases |data|
  {
    hide NextCut;
    if data != [] {
      CutBounds(p, ROLLING_SEED, 0, data);
      var cut := FirstCut(p, data);
      if cut.Some? {
        ChunkSizes(p, data[cut.value..]);
      }
    }
  }

  // Resynchronisation: the rolling state starts afresh at every cut.

  /** The first `k` chunks of `data` hold its first `position` bytes. */
  ghost predicate ChunkStartsAt(p: Params, data: Bytes, k: nat, position: nat) {
    k <= |ContentPieces(p, data)| && |Joined(ContentPieces(p, data)[..k])| == position
  }

  lemma {:induction false} PiecesAfterCut(p: Params, data: Bytes, k: nat)
    requires k <= |Pieces(p, data)|
    ensures |Joined(Pieces(p, data)[..k])| <= |data|
    ensures Pieces(p, data)[k..] == Pieces(p, data[|Joined(Pieces(p, data)[..k])|..])
    decreases |data|
  {
    hide NextCut;
    var pieces := Pieces(p, data);
    if k == 0 {
      assert data[0..] == data;
    } else {
      var first := pieces[0];
      assert pieces[..k][1..] == pieces[1..][..k - 1];
      assert Joined(pieces[..k]) == first + Joined(pieces[1..][..k - 1]);
      if FirstCut(p, data).None? {
        assert pieces[1..][..0] == [] && data[|data|..] == [];
      } else {
        var rest := data[|first|..];
        assert pieces[1..] == Pieces(p, rest);
        PiecesAfterCut(p, rest, k - 1);
        SuffixOfSuffix(data, |first|, |Joined(Pieces(p, rest)[..k - 1])|);
      }
    }
  }

  /**
   * If `s` is not empty and both `a + s` and `b + s` have a chunk starting where `s` begins, then both
   * end in the same chunks, those of `s` alone.
   */
  lemma Resynchronise(p: Params, a: Bytes, b: Bytes, s: Bytes, k: nat, l: nat)
    requires s != []
    requires ChunkStartsAt(p, a + s, k, |a|) && ChunkStartsAt(p, b + s, l, |b|)
    ensures ContentPieces(p, a + s)[k..] == ContentPieces(p, s) == ContentPieces(p, b + s)[l..]
  {
    hide NextCut, Pieces;
    PiecesAfterCut(p, a + s, k);
    PiecesAfterCut(p, b + s, l);
    PrefixOfConcat(a, s);
    PrefixOfConcat(b, s);
  }

  lemma {:induction false} CutUnaffectedByLaterBytes(p: Params, rolling: Word64, length: nat, x: Bytes, t: Bytes)
    requires NextCut(p, rolling, length, x).Some?
    ensures NextCut(p, rolling, length, x + t) == NextCut(p, rolling, length, x)
    decreases |x|
  {
    hide Roll, CutsHere;
    assert (x + t)[0] == x[0] && (x + t)[1..] == x[1..] + t;
    var rolled := Roll(rolling, x[0]);
    if !CutsHere(p, rolled, length + 1) {
      CutUnaffectedByLaterBytes(p, rolled, length + 1, x[1..], t);
    }
  }

  lemma {:induction false} PiecesUnderAppend(p: Params, x: Bytes, t: Bytes)
    ensures var n := |Pieces(p, x)|;
            n > 0 ==> Pieces(p, x)[..n - 1] <= Pieces(p, x + t)
    decreases |x|
  {
    hide NextCut;
    if x != [] && FirstCut(p, x).Some? {
      var c := FirstCut(p, x).value;
      CutUnaffectedByLaterBytes(p, ROLLING_SEED, 0, x, t);
      assert (x + t)[..c] == x[..c] && (x + t)[c..] == x[c..] + t;
      PiecesUnderAppend(p, x[c..], t);
    }
  }

  /** Appending bytes changes no chunk except the last. */
  lemma AppendKeepsChunks(p: Params, x: Bytes, t: Bytes)
    ensures var n := |ContentPieces(p, x)|;
            ContentPieces(p, x)[..n - 1] <= ContentPieces(p, x + t)
  {
    hide Pieces;
    if x != [] {
      PiecesUnderAppend(p, x, t);
    }
  }
}
