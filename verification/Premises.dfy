/** The premises of the results about runs can be met: worlds of any number of chunks in which they hold. */
module Premises {
  import opened Wrappers
  import opened Bytes
  import opened Text
  import opened Paths
  import opened Sorting
  import opened Manifest
  import opened Chunkers
  import opened ObjectStore
  import opened Snapshot
  import opened Upload
  import opened Protocol
  import opened Server
  import Octet

  /** Contents of zeros, told apart by a digest that holds their size. */
  function Digest(x: Bytes): (d: Bytes)
    ensures |d| == 32
  {
    LittleEndian(|x|, 8) + seq(24, i => 0)
  }

  function Fingerprint(x: Bytes): string {
    HexEncode(AsText(Digest(x)))
  }

  predicate AllZero(x: Bytes) {
    forall i :: 0 <= i < |x| ==> x[i] == 0
  }

  predicate InPlay(x: Bytes) {
    |x| < U64 && AllZero(x)
  }

  const PLAIN: Codec := Codec(x => Fingerprint(x), x => x, x => Some(x), x => InPlay(x))

  lemma TextIsReversible(b: Bytes)
    ensures Octets(AsText(b)) && AsBytes(AsText(b)) == b
  {
    forall i | 0 <= i < |b|
      ensures AsBytes(AsText(b))[i] == b[i]
    {
      Octet.Onto(b[i] as int, b[i]);
    }
  }

  lemma FingerprintReversible(x: Bytes)
    ensures ShaBytes(Fingerprint(x)) == Digest(x) && Sha256Hex(Fingerprint(x))
  {
    hide Digest, AsText, AsBytes, HexEncode, HexDecode;
    TextIsReversible(Digest(x));
    HexRoundTrip(AsText(Digest(x)));
  }

  lemma SameFingerprint(x: Bytes, y: Bytes)
    requires InPlay(x) && InPlay(y) && Fingerprint(x) == Fingerprint(y)
    ensures x == y
  {
    hide Fingerprint, ShaBytes, Sha256Hex, LittleEndian, FromLittleEndian;
    FingerprintReversible(x);
    FingerprintReversible(y);
    assert Digest(x)[..8] == LittleEndian(|x|, 8) && Digest(y)[..8] == LittleEndian(|y|, 8);
    Widths();
    LittleEndianRoundTrip(|x|, 8);
    LittleEndianRoundTrip(|y|, 8);
  }

  lemma PlainIsSound()
    ensures PLAIN.Sound() && Lowercase(PLAIN)
  {
    hide Fingerprint, ShaBytes, Sha256Hex, AllZero;
    forall x
      ensures Sha256Hex(PLAIN.hash(x)) && HexEncode(AsText(ShaBytes(PLAIN.hash(x)))) == PLAIN.hash(x)
    {
      FingerprintReversible(x);
      FingerprintIsHex(x);
    }
    forall x, y | InPlay(x) && InPlay(y) && PLAIN.hash(x) == PLAIN.hash(y)
      ensures x == y
    {
      SameFingerprint(x, y);
    }
  }

  lemma FingerprintIsHex(x: Bytes)
    ensures Fingerprint(x) == HexEncode(AsText(Digest(x)))
  {
  }

  /** A file of `n` full chunks of zeros, and a world in which the session "s" uploads it. */
  function FileOfChunks(n: nat): SourceFile {
    SourceFile("a", 0x1a4, seq(n * DEFAULT_CHUNK_SIZE, i => 0))
  }

  function WorldOfChunks(n: nat): World {
    World(PLAIN, map["s" := [FileOfChunks(n)]])
  }

  lemma {:induction false} PiecesOfZeros(pieces: seq<Bytes>)
    requires AllZero(Joined(pieces))
    ensures forall piece :: piece in pieces ==> AllZero(piece) && |piece| <= |Joined(pieces)|
  {
    if pieces != [] {
      var rest := Joined(pieces[1..]);
      assert Joined(pieces)[|pieces[0]|..] == rest;
      assert forall i :: 0 <= i < |rest| ==> rest[i] == Joined(pieces)[|pieces[0]| + i];
      assert forall i :: 0 <= i < |pieces[0]| ==> pieces[0][i] == Joined(pieces)[i];
      PiecesOfZeros(pieces[1..]);
    }
  }

  lemma {:induction false} FullPieces(data: Bytes, size: nat, n: nat)
    requires size > 0 && n > 0 && |data| == n * size
    ensures |FixedPieces(data, size)| == n
    decreases n
  {
    if n > 1 {
      assert |data[size..]| == (n - 1) * size;
      assert |data| > size by { assert (n - 1) * size >= size; }
      FullPieces(data[size..], size, n - 1);
    }
  }

  lemma ChunkCount(n: nat)
    requires n > 0
    ensures |PreparedChunks(PLAIN, [FileOfChunks(n)])| == n
  {
    hide FileChunks, FixedPieces;
    var f := FileOfChunks(n);
    FullPieces(f.content, DEFAULT_CHUNK_SIZE, n);
    PreparedNothing(PLAIN);
    PreparedLast(PLAIN, [], f);
    assert [] + [f] == [f];
  }

  lemma SafeA()
    ensures PlainPath("a") && Octets("a") && Octets("s")
  {
    PartsLast("a");
  }

  lemma FileIsValid(n: nat)
    requires n * DEFAULT_CHUNK_SIZE < U64
    ensures ValidFile(PLAIN, FileOfChunks(n))
  {
    hide PiecesOf, AllZero, PlainPath;
    var content := FileOfChunks(n).content;
    SafeA();
    ZerosAreZero(n * DEFAULT_CHUNK_SIZE);
    forall mode, piece | piece in PiecesOf(mode, content)
      ensures PLAIN.inPlay(piece)
    {
      PiecesOfJoin(mode, content);
      PiecesOfZeros(PiecesOf(mode, content));
    }
  }

  lemma ZerosAreZero(n: nat)
    ensures AllZero(seq(n, i => 0))
  {
  }

  /** For every number of chunks there is a sound world with a session that uploads so many. */
  lemma PremisesCanBeMet(n: nat)
    requires 0 < n && n * DEFAULT_CHUNK_SIZE < U64
    ensures var w := WorldOfChunks(n);
            w.Sound() && Lowercase(w.codec) && "s" in w.sources && |PreparedChunks(w.codec, w.sources["s"])| == n
  {
    hide PiecesOf, Fingerprint, PreparedChunks, Lowercase, ValidFile, FileOfChunks, Octets;
    PlainIsSound();
    FileIsValid(n);
    ChunkCount(n);
    SafeA();
    assert WorldOfChunks(n).SoundSession("s");
  }
}
