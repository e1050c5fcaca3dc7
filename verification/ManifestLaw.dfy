/** Which texts are manifests, and of what: the exact language of the parser. */
module ManifestLaw {
  import opened Wrappers
  import opened Slices
  import opened Bytes
  import opened Text
  import opened TextLaw
  import opened Paths
  import opened Manifest

  /** Digits, leading zeros allowed, for a number below the limit. */
  ghost predicate NumberToken(token: string, n: nat, limit: nat) {
    DigitsOnly(token) && Denotes(token) == n < limit
  }

  /** 64 hex digits in either case. */
  ghost predicate DigestToken(token: string) {
    |token| == 64 && forall i :: 0 <= i < 64 ==> token[i] in LOWER || token[i] in UPPER
  }

  lemma ParseNumberIff(token: string, n: nat, limit: nat)
    ensures ParseNumber(token, limit) == Some(n) <==> NumberToken(token, n, limit)
  {
    if AllDigits(token) {
      ValueDenotes(token);
    }
  }

  lemma HexCharacterIff(c: char)
    ensures Nibble(c).Some? <==> c in LOWER || c in UPPER
  {
    NibbleSmall(c);
    if Nibble(c).Some? {
      NibbleIff(c, Nibble(c).value);
    }
    if i :| 0 <= i < 16 && c == LOWER[i] {
      NibbleIff(c, i);
    }
    if i :| 0 <= i < 16 && c == UPPER[i] {
      NibbleIff(c, i);
    }
  }

  lemma DigestIff(token: string)
    ensures Sha256Hex(token) <==> DigestToken(token)
  {
    hide Nibble;
    forall i | 0 <= i < |token|
      ensures Nibble(token[i]).Some? <==> token[i] in LOWER || token[i] in UPPER
    {
      HexCharacterIff(token[i]);
    }
  }

  // One line.

  /** The words of a CHUNK line. */
  ghost predicate ChunkWords(ws: seq<string>, c: ChunkRef) {
    && |ws| == 6 && ws[0] == "CHUNK"
    && NumberToken(ws[1], c.index, U64) && NumberToken(ws[2], c.rawSize, U64) && NumberToken(ws[3], c.compressedSize, U64)
    && ws[4] == c.sha256 && DigestToken(ws[4]) && Spells(ws[5], c.objectPath) && Safe(c.objectPath)
  }

  /** The words of a FILE line, which gives the number of chunk lines that follow. */
  ghost predicate FileWords(ws: seq<string>, f: FileManifest) {
    && |ws| == 6 && ws[0] == "FILE"
    && Spells(ws[1], f.relativePath) && Safe(f.relativePath)
    && NumberToken(ws[2], f.fileSize, U64) && NumberToken(ws[3], f.fileMode, U32)
    && ws[4] == f.fileSha256 && DigestToken(ws[4]) && NumberToken(ws[5], |f.chunks|, U64)
  }

  ghost predicate KeyNumber(line: string, key: string, n: nat) {
    exists token :: HasWords(line, [key, token]) && NumberToken(token, n, U64)
  }

  lemma ChunkLineIff(line: string, c: ChunkRef)
    ensures ParseChunkLine(line) == Some(c) <==> ChunkWords(Words(line), c)
  {
    hide Words, HexDecode, Spells, NumberToken, DigestToken, ParseNumber, Sha256Hex, Safe;
    var ws := Words(line);
    if |ws| == 6 {
      ParseNumberIff(ws[1], c.index, U64);
      ParseNumberIff(ws[2], c.rawSize, U64);
      ParseNumberIff(ws[3], c.compressedSize, U64);
      DigestIff(ws[4]);
      HexDecodeIff(ws[5], c.objectPath);
    }
  }

  lemma FileLineIff(line: string, f: FileManifest)
    ensures ParseFileLine(line) == Some((f.(chunks := []), |f.chunks|)) <==> FileWords(Words(line), f)
  {
    hide Words, HexDecode, Spells, NumberToken, DigestToken, ParseNumber, Sha256Hex, Safe;
    var ws := Words(line);
    if |ws| == 6 {
      HexDecodeIff(ws[1], f.relativePath);
      ParseNumberIff(ws[2], f.fileSize, U64);
      ParseNumberIff(ws[3], f.fileMode, U32);
      DigestIff(ws[4]);
      ParseNumberIff(ws[5], |f.chunks|, U64);
    }
  }

  lemma WordIff(ls: seq<string>, i: nat, key: string, value: string)
    ensures Consume(ls, i, key) == Some(value) <==> i < |ls| && HasWords(ls[i], [key, value])
  {
    hide Words, HasWords;
    if i < |ls| {
      WordsIff(ls[i], [key, value]);
      var ws := Words(ls[i]);
      assert |ws| == 2 ==> ws == [ws[0], ws[1]];
    }
  }

  lemma NumberIff(ls: seq<string>, i: nat, key: string, n: nat)
    ensures ConsumeNumber(ls, i, key) == Some(n) <==> i < |ls| && KeyNumber(ls[i], key, n)
  {
    hide Consume, HasWords, NumberToken, ParseNumber;
    if ConsumeNumber(ls, i, key) == Some(n) {
      var token := Consume(ls, i, key).value;
      WordIff(ls, i, key, token);
      ParseNumberIff(token, n, U64);
    }
    if i < |ls| && KeyNumber(ls[i], key, n) {
      var token :| HasWords(ls[i], [key, token]) && NumberToken(token, n, U64);
      WordIff(ls, i, key, token);
      ParseNumberIff(token, n, U64);
    }
  }

  // The files.

  /** From line `i` on: a line for every chunk. */
  ghost predicate ChunksAt(ls: seq<string>, i: nat, cs: seq<ChunkRef>) {
    i + |cs| <= |ls| && forall k :: 0 <= k < |cs| ==> ChunkWords(Words(ls[i + k]), cs[k])
  }

  lemma {:induction false} ChunksIff(ls: seq<string>, i: nat, cs: seq<ChunkRef>)
    requires i <= |ls|
    ensures ParseChunks(ls, i, |cs|) == Some(cs) <==> ChunksAt(ls, i, cs)
    decreases |cs|
  {
    hide ParseChunkLine, ChunkWords, Words;
    if cs != [] && i < |ls| {
      ChunkLineIff(ls[i], cs[0]);
      ChunksIff(ls, i + 1, cs[1..]);
      if ChunksAt(ls, i, cs) {
        forall k | 0 <= k < |cs| - 1
          ensures ChunkWords(Words(ls[i + 1 + k]), cs[1..][k])
        {
          assert ChunkWords(Words(ls[i + (k + 1)]), cs[k + 1]);
        }
      }
      if ChunkWords(Words(ls[i]), cs[0]) && ChunksAt(ls, i + 1, cs[1..]) {
        forall k | 0 <= k < |cs|
          ensures ChunkWords(Words(ls[i + k]), cs[k])
        {
          if k > 0 {
            assert ChunkWords(Words(ls[i + 1 + (k - 1)]), cs[1..][k - 1]);
          }
        }
      }
      assert cs == [cs[0]] + cs[1..];
    }
  }

  /** From line `i` on: the block of every file, and END as the last line of all. */
  ghost predicate FilesAt(ls: seq<string>, i: nat, fs: seq<FileManifest>)
    decreases |fs|
  {
    if fs == [] then i + 1 == |ls| && ls[i] == "END"
    else
      var end := i + 1 + |fs[0].chunks|;
      && end < |ls| && FileWords(Words(ls[i]), fs[0]) && ChunksAt(ls, i + 1, fs[0].chunks) && ls[end] == "END_FILE"
      && FilesAt(ls, end + 1, fs[1..])
  }

  lemma EndIsNoFile(f: FileManifest)
    ensures !FileWords(Words("END"), f)
  {
    hide FileWords, Words;
    EndWords();
    assert FileWords(["END"], f) ==> false by { OneWord(f); }
  }

  lemma OneWord(f: FileManifest)
    ensures !FileWords(["END"], f)
  {
  }

  lemma EndWords()
    ensures Words("END") == ["END"]
  {
    WordsOfSpaced(["END"]);
  }

  /** One file block. */
  lemma BlockIff(ls: seq<string>, i: nat, f: FileManifest)
    requires i < |ls|
    ensures var r := ParseFileLine(ls[i]);
      && r.Some? && ParseChunks(ls, i + 1, r.value.1).Some? && r.value.0.(chunks := ParseChunks(ls, i + 1, r.value.1).value) == f
      <==> FileWords(Words(ls[i]), f) && ChunksAt(ls, i + 1, f.chunks)
  {
    hide Words, ParseFileLine, ParseChunks, FileWords, ChunksAt;
    var r := ParseFileLine(ls[i]);
    NoChunksYet(ls[i]);
    FileLineIff(ls[i], f);
    ChunksIff(ls, i + 1, f.chunks);
    if r.Some? && ParseChunks(ls, i + 1, r.value.1).Some? && r.value.0.(chunks := ParseChunks(ls, i + 1, r.value.1).value) == f {
      assert r.value.0 == f.(chunks := []);
      assert r.value == (f.(chunks := []), |f.chunks|);
    }
  }

  lemma NoChunksYet(line: string)
    ensures ParseFileLine(line).Some? ==> ParseFileLine(line).value.0.chunks == []
  {
    hide Words, ParseNumber, HexDecode, Sha256Hex, Safe;
  }

  lemma {:induction false} FilesIff(ls: seq<string>, i: nat, fs: seq<FileManifest>)
    requires |ls| > 0
    ensures ParseFiles(ls, i) == Some((fs, |ls| - 1)) && i < |ls| <==> FilesAt(ls, i, fs)
    decreases |fs|
  {
    hide Words, ParseFileLine, ParseChunks, FileWords, ChunksAt;
    if i < |ls| {
      if fs == [] {
        if ParseFiles(ls, i) == Some((fs, |ls| - 1)) {
          NoFilesStop(ls, i);
        }
      } else if ls[i] == "END" {
        EndIsNoFile(fs[0]);
      } else {
        BlockIff(ls, i, fs[0]);
        FilesIff(ls, i + 1 + |fs[0].chunks| + 1, fs[1..]);
        FilesFirst(ls, i, fs);
      }
    }
  }

  lemma {:induction false} StopsBehind(ls: seq<string>, i: nat)
    ensures ParseFiles(ls, i).Some? ==> ParseFiles(ls, i).value.1 >= i
    decreases |ls| - i
  {
    hide ParseFileLine, ParseChunks;
    if i < |ls| && ls[i] != "END" && ParseFiles(ls, i).Some? {
      StopsBehind(ls, i + 1 + ParseFileLine(ls[i]).value.1 + 1);
    }
  }

  lemma NoFilesStop(ls: seq<string>, i: nat)
    requires i < |ls| && ParseFiles(ls, i).Some? && ParseFiles(ls, i).value.0 == []
    ensures ls[i] == "END" && ParseFiles(ls, i).value.1 == i
  {
    hide ParseFileLine, ParseChunks;
  }

  /** The parser reads one block and goes on behind it. */
  lemma FilesFirst(ls: seq<string>, i: nat, fs: seq<FileManifest>)
    requires fs != [] && i < |ls| && ls[i] != "END"
    ensures var r := ParseFileLine(ls[i]);
      var end := i + 1 + |fs[0].chunks|;
      ParseFiles(ls, i) == Some((fs, |ls| - 1)) <==>
        && r.Some? && ParseChunks(ls, i + 1, r.value.1).Some?
        && r.value.0.(chunks := ParseChunks(ls, i + 1, r.value.1).value) == fs[0]
        && end < |ls| && ls[end] == "END_FILE" && ParseFiles(ls, end + 1) == Some((fs[1..], |ls| - 1))
  {
    hide ParseFileLine, ParseChunks;
    assert fs == [fs[0]] + fs[1..];
  }

  // The whole manifest.

  /** The lines of a manifest, from the first to the last. */
  ghost predicate Says(ls: seq<string>, m: Manifest) {
    && |ls| >= 8 && ls[0] == "DPC_MANIFEST_V1"
    && KeyNumber(ls[1], "version", m.version) && KeyNumber(ls[2], "created_at", m.createdAt)
    && HasWords(ls[3], ["chunking_mode", if m.mode == Fixed then "fixed" else "cdc"])
    && (exists token :: HasWords(ls[4], ["source_root_hex", token]) && Spells(token, m.sourceRoot))
    && KeyNumber(ls[5], "file_count", |m.files|)
    && KeyNumber(ls[6], "total_input_bytes", m.totalInputBytes)
    && KeyNumber(ls[7], "total_stored_bytes", m.totalStoredBytes)
    && FilesAt(ls, 8, m.files)
  }

  lemma ModeIff(ls: seq<string>, i: nat, key: string, mode: ChunkingMode)
    ensures var text := Consume(ls, i, key);
      text.Some? && ParseMode(text.value) == Some(mode) <==>
        i < |ls| && HasWords(ls[i], [key, if mode == Fixed then "fixed" else "cdc"])
  {
    hide Consume, HasWords;
    WordIff(ls, i, key, "fixed");
    WordIff(ls, i, key, "cdc");
  }

  lemma HexIff(ls: seq<string>, i: nat, key: string, value: string)
    ensures var hex := Consume(ls, i, key);
      hex.Some? && HexDecode(hex.value) == Some(value) <==>
        i < |ls| && exists token :: HasWords(ls[i], [key, token]) && Spells(token, value)
  {
    hide Consume, HasWords, HexDecode, Spells;
    var hex := Consume(ls, i, key);
    if hex.Some? && HexDecode(hex.value) == Some(value) {
      WordIff(ls, i, key, hex.value);
      HexDecodeIff(hex.value, value);
    }
    if i < |ls| {
      if token :| HasWords(ls[i], [key, token]) && Spells(token, value) {
        WordIff(ls, i, key, token);
        HexDecodeIff(token, value);
      }
    }
  }

  lemma LinesSay(ls: seq<string>, m: Manifest)
    ensures ParseLines(ls) == Some(m) <==> Says(ls, m)
  {
    hide Consume, ConsumeNumber, HasWords, HexDecode, Spells, KeyNumber, ParseMode, ParseFiles, FilesAt;
    NumberIff(ls, 1, "version", m.version);
    NumberIff(ls, 2, "created_at", m.createdAt);
    ModeIff(ls, 3, "chunking_mode", m.mode);
    HexIff(ls, 4, "source_root_hex", m.sourceRoot);
    NumberIff(ls, 5, "file_count", |m.files|);
    NumberIff(ls, 6, "total_input_bytes", m.totalInputBytes);
    NumberIff(ls, 7, "total_stored_bytes", m.totalStoredBytes);
    if ls != [] {
      FilesIff(ls, 8, m.files);
    }
    if ParseLines(ls) == Some(m) {
      StopsBehind(ls, 8);
      assert ParseFiles(ls, 8).value == (m.files, |ls| - 1);
    }
  }

  /** The parser accepts a text as a manifest exactly when its lines say so. */
  lemma ParseIff(text: string, m: Manifest)
    ensures Parse(text) == Some(m) <==> exists ls :: HasLines(text, ls) && Says(ls, m)
  {
    hide Lines, ParseLines, HasLines, Says;
    LinesIff(text, Lines(text));
    LinesSay(Lines(text), m);
    if ls :| HasLines(text, ls) && Says(ls, m) {
      LinesIff(text, ls);
    }
  }
}
