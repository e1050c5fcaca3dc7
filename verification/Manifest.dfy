/** Manifests and their text format: `ManifestStore::serialize` and `parse`. */
module Manifest {
  import opened Wrappers
  import opened Slices
  import opened Bytes
  import opened Text
  import opened Paths

  datatype ChunkingMode = Fixed | ContentDefined

  datatype ChunkRef = ChunkRef(index: nat, rawSize: nat, compressedSize: nat, sha256: string, objectPath: string)

  datatype FileManifest = FileManifest(
    relativePath: string, fileSize: nat, fileMode: nat, fileSha256: string, chunks: seq<ChunkRef>)

  datatype Manifest = Manifest(
    version: nat, createdAt: nat, mode: ChunkingMode, sourceRoot: string,
    totalInputBytes: nat, totalStoredBytes: nat, files: seq<FileManifest>)

  predicate WellFormedChunk(c: ChunkRef) {
    && c.index < U64 && c.rawSize < U64 && c.compressedSize < U64
    && Sha256Hex(c.sha256) && Octets(c.objectPath) && Safe(c.objectPath)
  }

  predicate WellFormedFile(f: FileManifest) {
    && f.fileSize < U64 && f.fileMode < U32 && |f.chunks| < U64
    && Sha256Hex(f.fileSha256) && Octets(f.relativePath) && Safe(f.relativePath)
    && forall c :: c in f.chunks ==> WellFormedChunk(c)
  }

  predicate WellFormed(m: Manifest) {
    && m.version < U64 && m.createdAt < U64 && m.totalInputBytes < U64 && m.totalStoredBytes < U64
    && m.sourceRoot != "" && Octets(m.sourceRoot)
    && |m.files| < U64
    && forall f :: f in m.files ==> WellFormedFile(f)
  }

  // The printer.

  function ModeText(mode: ChunkingMode): string {
    if mode == Fixed then "fixed" else "cdc"
  }

  function KeyLine(key: string, value: string): string {
    Spaced([key, value])
  }

  function ChunkLine(c: ChunkRef): string {
    Spaced(["CHUNK", Decimal(c.index), Decimal(c.rawSize), Decimal(c.compressedSize), c.sha256, HexEncode(c.objectPath)])
  }

  function ChunkLines(cs: seq<ChunkRef>): (ls: seq<string>)
    ensures |ls| == |cs|
  {
    if cs == [] then [] else [ChunkLine(cs[0])] + ChunkLines(cs[1..])
  }

  function FileLine(f: FileManifest): string {
    Spaced(["FILE", HexEncode(f.relativePath), Decimal(f.fileSize), Decimal(f.fileMode), f.fileSha256, Decimal(|f.chunks|)])
  }

  function FileBlock(f: FileManifest): seq<string> {
    [FileLine(f)] + ChunkLines(f.chunks) + ["END_FILE"]
  }

  function FileLines(fs: seq<FileManifest>): seq<string> {
    if fs == [] then [] else FileBlock(fs[0]) + FileLines(fs[1..])
  }

  function HeadLines(m: Manifest): (ls: seq<string>)
    ensures |ls| == 8
  {
    [ "DPC_MANIFEST_V1",
      KeyLine("version", Decimal(m.version)),
      KeyLine("created_at", Decimal(m.createdAt)),
      KeyLine("chunking_mode", ModeText(m.mode)),
      KeyLine("source_root_hex", HexEncode(m.sourceRoot)),
      KeyLine("file_count", Decimal(|m.files|)),
      KeyLine("total_input_bytes", Decimal(m.totalInputBytes)),
      KeyLine("total_stored_bytes", Decimal(m.totalStoredBytes)) ]
  }

  function ManifestLines(m: Manifest): seq<string> {
    HeadLines(m) + FileLines(m.files) + ["END"]
  }

  function Serialize(m: Manifest): string {
    Unlines(ManifestLines(m))
  }

  method SerializeManifest(m: Manifest) returns (out: string)
    ensures out == Serialize(m)
  {
    hide HeadLines, FileBlock;
    out := Unlines(HeadLines(m));
    for i := 0 to |m.files|
      invariant out + Unlines(FileLines(m.files[i..])) == Unlines(HeadLines(m)) + Unlines(FileLines(m.files))
    {
      var fileText := SerializeFile(m.files[i]);
      UnlinesConcat(FileBlock(m.files[i]), FileLines(m.files[i + 1..]));
      assert m.files[i..][1..] == m.files[i + 1..];
      ConcatAssociates(out, fileText, Unlines(FileLines(m.files[i + 1..])));
      out := out + fileText;
    }
    out := out + "END" + "\n";
    UnlinesConcat(HeadLines(m), FileLines(m.files));
    UnlinesConcat(HeadLines(m) + FileLines(m.files), ["END"]);
    assert Unlines(["END"]) == "END" + "\n" by { UnlinesOne("END", []); }
  }

  method SerializeFile(file: FileManifest) returns (out: string)
    ensures out == Unlines(FileBlock(file))
  {
    hide FileLine, ChunkLine;
    out := FileLine(file) + "\n";
    ghost var head := out;
    for j := 0 to |file.chunks|
      invariant out + Unlines(ChunkLines(file.chunks[j..])) == head + Unlines(ChunkLines(file.chunks))
    {
      assert file.chunks[j..][1..] == file.chunks[j + 1..];
      UnlinesOne(ChunkLine(file.chunks[j]), ChunkLines(file.chunks[j + 1..]));
      out := out + ChunkLine(file.chunks[j]) + "\n";
    }
    out := out + "END_FILE" + "\n";
    UnlinesOne(FileLine(file), ChunkLines(file.chunks));
    UnlinesConcat([FileLine(file)] + ChunkLines(file.chunks), ["END_FILE"]);
    assert Unlines(["END_FILE"]) == "END_FILE" + "\n" by { UnlinesOne("END_FILE", []); }
  }

  lemma UnlinesOne(l: string, ls: seq<string>)
    ensures Unlines([l] + ls) == l + "\n" + Unlines(ls)
  {
    assert ([l] + ls)[1..] == ls;
  }

  // The parser.

  function ParseNumber(text: string, limit: nat): Option<nat> {
    if text == "" || !AllDigits(text) || Value(text) >= limit then None else Some(Value(text))
  }

  /** The value on line `i`, which must hold the key, one value and nothing else. */
  function Consume(ls: seq<string>, i: nat, key: string): (v: Option<string>)
    ensures v.Some? ==> i < |ls| && IsWord(v.value)
  {
    if i >= |ls| then None
    else
      var ws := Words(ls[i]);
      WordsAreWords(ls[i]);
      if |ws| == 2 && ws[0] == key then (assert ws[1] in ws; Some(ws[1])) else None
  }

  function ConsumeNumber(ls: seq<string>, i: nat, key: string): Option<nat> {
    var text :- Consume(ls, i, key);
    ParseNumber(text, U64)
  }

  function ParseMode(text: string): Option<ChunkingMode> {
    if text == "fixed" then Some(Fixed) else if text == "cdc" then Some(ContentDefined) else None
  }

  function ParseChunkLine(line: string): Option<ChunkRef> {
    var ws := Words(line);
    if |ws| != 6 || ws[0] != "CHUNK" then None
    else
      var index :- ParseNumber(ws[1], U64);
      var rawSize :- ParseNumber(ws[2], U64);
      var compressedSize :- ParseNumber(ws[3], U64);
      var objectPath :- HexDecode(ws[5]);
      if !Sha256Hex(ws[4]) || !Safe(objectPath) then None
      else Some(ChunkRef(index, rawSize, compressedSize, ws[4], objectPath))
  }

  /** A FILE line: the file without its chunks, and how many chunk lines follow. */
  function ParseFileLine(line: string): Option<(FileManifest, nat)> {
    var ws := Words(line);
    if |ws| != 6 || ws[0] != "FILE" then None
    else
      var fileSize :- ParseNumber(ws[2], U64);
      var fileMode :- ParseNumber(ws[3], U32);
      var chunkCount :- ParseNumber(ws[5], U64);
      var relativePath :- HexDecode(ws[1]);
      if !Safe(relativePath) || !Sha256Hex(ws[4]) then None
      else Some((FileManifest(relativePath, fileSize, fileMode, ws[4], []), chunkCount))
  }

  function ParseChunks(ls: seq<string>, i: nat, count: nat): (r: Option<seq<ChunkRef>>)
    ensures r.Some? ==> |r.value| == count && i + count <= |ls| + (if count == 0 then i else 0)
    decreases count
  {
    if count == 0 then Some([])
    else if i >= |ls| then None
    else
      var c :- ParseChunkLine(ls[i]);
      var rest :- ParseChunks(ls, i + 1, count - 1);
      Some([c] + rest)
  }

  /** The files from line `i` on, and the line at which they end. */
  function ParseFiles(ls: seq<string>, i: nat): Option<(seq<FileManifest>, nat)>
    decreases |ls| - i
  {
    if i >= |ls| || ls[i] == "END" then Some(([], i))
    else
      var (head, count) :- ParseFileLine(ls[i]);
      var chunks :- ParseChunks(ls, i + 1, count);
      var end := i + 1 + count;
      if end >= |ls| || ls[end] != "END_FILE" then None
      else
        var (rest, stop) :- ParseFiles(ls, end + 1);
        Some(([head.(chunks := chunks)] + rest, stop))
  }

  function ParseLines(ls: seq<string>): Option<Manifest> {
    if ls == [] || ls[0] != "DPC_MANIFEST_V1" then None
    else
      var version :- ConsumeNumber(ls, 1, "version");
      var createdAt :- ConsumeNumber(ls, 2, "created_at");
      var modeText :- Consume(ls, 3, "chunking_mode");
      var mode :- ParseMode(modeText);
      var rootHex :- Consume(ls, 4, "source_root_hex");
      var sourceRoot :- HexDecode(rootHex);
      var fileCount :- ConsumeNumber(ls, 5, "file_count");
      var totalInputBytes :- ConsumeNumber(ls, 6, "total_input_bytes");
      var totalStoredBytes :- ConsumeNumber(ls, 7, "total_stored_bytes");
      var (files, stop) :- ParseFiles(ls, 8);
      if stop >= |ls| || |files| != fileCount || stop + 1 != |ls| then None
      else Some(Manifest(version, createdAt, mode, sourceRoot, totalInputBytes, totalStoredBytes, files))
  }

  function Parse(text: string): Option<Manifest> {
    ParseLines(Lines(text))
  }

  method ParseManifest(text: string) returns (result: Option<Manifest>)
    ensures result == Parse(text)
  {
    hide ConsumeNumber, Consume, ParseMode, HexDecode;
    var lines := Lines(text);
    if lines == [] || lines[0] != "DPC_MANIFEST_V1" {
      return None;
    }
    var version :- ConsumeNumber(lines, 1, "version");
    var createdAt :- ConsumeNumber(lines, 2, "created_at");
    var modeText :- Consume(lines, 3, "chunking_mode");
    var mode :- ParseMode(modeText);
    var rootHex :- Consume(lines, 4, "source_root_hex");
    var sourceRoot :- HexDecode(rootHex);
    var expectedFiles :- ConsumeNumber(lines, 5, "file_count");
    var totalInputBytes :- ConsumeNumber(lines, 6, "total_input_bytes");
    var totalStoredBytes :- ConsumeNumber(lines, 7, "total_stored_bytes");
    var parsed := ParseFileSection(lines, 8);
    if parsed.None? {
      return None;
    }
    var (files, i) := parsed.value;
    if i >= |lines| {
      return None;
    }
    if |files| != expectedFiles {
      return None;
    }
    if i + 1 != |lines| {
      return None;
    }
    return Some(Manifest(version, createdAt, mode, sourceRoot, totalInputBytes, totalStoredBytes, files));
  }

  method ParseFileSection(lines: seq<string>, start: nat) returns (result: Option<(seq<FileManifest>, nat)>)
    ensures result == ParseFiles(lines, start)
    ensures result.Some? ==> result.value.1 >= |lines| || lines[result.value.1] == "END"
  {
    hide ParseFileLine, ParseChunkLine, ParseChunks;
    var files: seq<FileManifest> := [];
    var i := start;
    PrependNoFiles(ParseFiles(lines, start));
    while i < |lines| && lines[i] != "END"
      invariant ParseFiles(lines, start) == PrependFiles(files, ParseFiles(lines, i))
    {
      var head := ParseFileLine(lines[i]);
      if head.None? {
        return None;
      }
      var (file, chunkCount) := head.value;
      var chunks := ParseChunkSection(lines, i + 1, chunkCount);
      if chunks.None? {
        return None;
      }
      var end := i + 1 + chunkCount;
      if end >= |lines| || lines[end] != "END_FILE" {
        return None;
      }
      PrependMoreFiles(files, [file.(chunks := chunks.value)], ParseFiles(lines, end + 1));
      files := files + [file.(chunks := chunks.value)];
      i := end + 1;
    }
    assert files + [] == files;
    return Some((files, i));
  }

  method ParseChunkSection(lines: seq<string>, start: nat, count: nat) returns (result: Option<seq<ChunkRef>>)
    ensures result == ParseChunks(lines, start, count)
  {
    hide ParseChunkLine;
    var chunks: seq<ChunkRef> := [];
    PrependNoChunks(ParseChunks(lines, start, count));
    for c := 0 to count
      invariant |chunks| == c
      invariant ParseChunks(lines, start, count) == PrependChunks(chunks, ParseChunks(lines, start + c, count - c))
    {
      if start + c >= |lines| {
        return None;
      }
      var chunk := ParseChunkLine(lines[start + c]);
      if chunk.None? {
        return None;
      }
      PrependMoreChunks(chunks, [chunk.value], ParseChunks(lines, start + c + 1, count - c - 1));
      chunks := chunks + [chunk.value];
    }
    assert chunks + [] == chunks;
    return Some(chunks);
  }

  ghost function PrependFiles(
    done: seq<FileManifest>, rest: Option<(seq<FileManifest>, nat)>): Option<(seq<FileManifest>, nat)> {
    if rest.Some? then Some((done + rest.value.0, rest.value.1)) else None
  }

  lemma PrependNoFiles(rest: Option<(seq<FileManifest>, nat)>)
    ensures PrependFiles([], rest) == rest
  {
    if rest.Some? {
      assert [] + rest.value.0 == rest.value.0;
    }
  }

  lemma PrependMoreFiles(done: seq<FileManifest>, more: seq<FileManifest>, rest: Option<(seq<FileManifest>, nat)>)
    ensures PrependFiles(done, PrependFiles(more, rest)) == PrependFiles(done + more, rest)
  {
    if rest.Some? {
      ConcatAssociates(done, more, rest.value.0);
    }
  }

  ghost function PrependChunks(done: seq<ChunkRef>, rest: Option<seq<ChunkRef>>): Option<seq<ChunkRef>> {
    if rest.Some? then Some(done + rest.value) else None
  }

  lemma PrependNoChunks(rest: Option<seq<ChunkRef>>)
    ensures PrependChunks([], rest) == rest
  {
    if rest.Some? {
      assert [] + rest.value == rest.value;
    }
  }

  lemma PrependMoreChunks(done: seq<ChunkRef>, more: seq<ChunkRef>, rest: Option<seq<ChunkRef>>)
    ensures PrependChunks(done, PrependChunks(more, rest)) == PrependChunks(done + more, rest)
  {
    if rest.Some? {
      ConcatAssociates(done, more, rest.value);
    }
  }

  // Reading back what was printed.

  lemma NumberReadsBack(n: nat, limit: nat)
    requires n < limit
    ensures ParseNumber(Decimal(n), limit) == Some(n) && IsWord(Decimal(n))
  {
    DecimalRoundTrip(n);
  }

  lemma PathReadsBack(path: string)
    requires Octets(path) && path != ""
    ensures HexDecode(HexEncode(path)) == Some(path) && IsWord(HexEncode(path))
  {
    HexRoundTrip(path);
    HexIsWord(HexEncode(path));
  }

  lemma ChunkLineReadsBack(c: ChunkRef)
    requires WellFormedChunk(c)
    ensures ParseChunkLine(ChunkLine(c)) == Some(c) && OneLine(ChunkLine(c))
  {
    hide Decimal, Value, HexEncode, HexDecode, Safe, Words, Spaced;
    NumberReadsBack(c.index, U64);
    NumberReadsBack(c.rawSize, U64);
    NumberReadsBack(c.compressedSize, U64);
    SafeIsNotEmpty(c.objectPath);
    PathReadsBack(c.objectPath);
    HexIsWord(c.sha256);
    var ws := ["CHUNK", Decimal(c.index), Decimal(c.rawSize), Decimal(c.compressedSize), c.sha256, HexEncode(c.objectPath)];
    SixWords(ws);
  }

  lemma FileLineReadsBack(f: FileManifest)
    requires WellFormedFile(f)
    ensures ParseFileLine(FileLine(f)) == Some((f.(chunks := []), |f.chunks|))
    ensures OneLine(FileLine(f)) && FileLine(f) != "END"
  {
    hide Decimal, Value, HexEncode, HexDecode, Safe, Words, Spaced;
    NumberReadsBack(f.fileSize, U64);
    NumberReadsBack(f.fileMode, U32);
    NumberReadsBack(|f.chunks|, U64);
    SafeIsNotEmpty(f.relativePath);
    PathReadsBack(f.relativePath);
    HexIsWord(f.fileSha256);
    var ws := ["FILE", HexEncode(f.relativePath), Decimal(f.fileSize), Decimal(f.fileMode), f.fileSha256, Decimal(|f.chunks|)];
    SixWords(ws);
    EndIsOneWord();
  }

  lemma SafeIsNotEmpty(path: string)
    requires Safe(path)
    ensures path != ""
  {
  }

  lemma EndIsOneWord()
    ensures Words("END") == ["END"]
  {
    WordsOfSpaced(["END"]);
  }

  lemma SixWords(ws: seq<string>)
    requires |ws| == 6
    requires IsWord(ws[0]) && IsWord(ws[1]) && IsWord(ws[2]) && IsWord(ws[3]) && IsWord(ws[4]) && IsWord(ws[5])
    ensures Words(Spaced(ws)) == ws && OneLine(Spaced(ws))
  {
    WordsOfSpaced(ws);
    SpacedHasNoBreaks(ws);
  }

  lemma KeyLineReadsBack(ls: seq<string>, i: nat, key: string, value: string)
    requires IsWord(key) && IsWord(value)
    requires i < |ls| && ls[i] == KeyLine(key, value)
    ensures Consume(ls, i, key) == Some(value) && OneLine(ls[i])
  {
    WordsOfSpaced([key, value]);
    SpacedHasNoBreaks([key, value]);
  }

  lemma {:induction false} ChunksReadBack(cs: seq<ChunkRef>, ls: seq<string>, i: nat)
    requires forall c :: c in cs ==> WellFormedChunk(c)
    requires i + |cs| <= |ls| && ls[i..i + |cs|] == ChunkLines(cs)
    ensures ParseChunks(ls, i, |cs|) == Some(cs)
    decreases cs
  {
    hide ParseChunkLine, ChunkLine, WellFormedChunk;
    if cs != [] {
      assert ls[i] == ls[i..i + |cs|][0];
      ChunkLineReadsBack(cs[0]);
      assert ls[i + 1..i + |cs|] == ls[i..i + |cs|][1..] == ChunkLines(cs[1..]);
      ChunksReadBack(cs[1..], ls, i + 1);
      assert [cs[0]] + cs[1..] == cs;
    }
  }

  /** Where the parts of a file section lie. */
  lemma FileSection(ls: seq<string>, i: nat, head: string, chunkLines: seq<string>, rest: seq<string>)
    requires i <= |ls| && ls[i..] == ([head] + chunkLines + ["END_FILE"]) + rest
    ensures |ls| == i + 1 + |chunkLines| + 1 + |rest|
    ensures ls[i] == head && ls[i + 1..i + 1 + |chunkLines|] == chunkLines
    ensures ls[i + 1 + |chunkLines|] == "END_FILE" && ls[i + |chunkLines| + 2..] == rest
  {
    var n := |chunkLines|;
    var section := ls[i..];
    assert ls[i] == section[0];
    SliceOfSuffix(ls, i, 1, n + 1);
    assert section[1..n + 1] == chunkLines;
    assert ls[i + 1 + n] == section[n + 1];
    SuffixOfSuffix(ls, i, n + 2);
    assert section[n + 2..] == rest;
  }

  lemma OneFileReadsBack(f: FileManifest, ls: seq<string>, i: nat, rest: seq<string>)
    requires WellFormedFile(f)
    requires i <= |ls| && ls[i..] == FileBlock(f) + rest
    ensures i + |f.chunks| + 2 <= |ls| && ls[i + |f.chunks| + 2..] == rest
    ensures ParseFiles(ls, i) == PrependFiles([f], ParseFiles(ls, i + |f.chunks| + 2))
  {
    hide ParseFileLine, ParseChunks, FileLine, ChunkLines, WellFormedChunk, Octets, Safe, Sha256Hex;
    FileSection(ls, i, FileLine(f), ChunkLines(f.chunks), rest);
    FileLineReadsBack(f);
    ChunksReadBack(f.chunks, ls, i + 1);
  }

  lemma NoFilesReadBack(ls: seq<string>, i: nat)
    requires i < |ls| && ls[i..] == ["END"]
    ensures ParseFiles(ls, i) == Some(([], i)) && i == |ls| - 1 && ls[i] == "END"
  {
    assert |ls[i..]| == 1 && ls[i] == ls[i..][0];
  }

  lemma {:induction false} FilesReadBack(fs: seq<FileManifest>, ls: seq<string>, i: nat)
    requires forall f :: f in fs ==> WellFormedFile(f)
    requires i < |ls| && ls[i..] == FileLines(fs) + ["END"]
    ensures ParseFiles(ls, i) == Some((fs, |ls| - 1)) && ls[|ls| - 1] == "END"
    decreases fs
  {
    hide FileBlock, WellFormedFile, ParseFiles;
    if fs == [] {
      assert ls[i..] == ["END"];
      NoFilesReadBack(ls, i);
    } else {
      var rest, next := FileLines(fs[1..]) + ["END"], i + |fs[0].chunks| + 2;
      ConcatAssociates(FileBlock(fs[0]), FileLines(fs[1..]), ["END"]);
      OneFileReadsBack(fs[0], ls, i, rest);
      assert ls[next..] == rest && next < |ls|;
      FilesReadBack(fs[1..], ls, next);
      assert [fs[0]] + fs[1..] == fs;
    }
  }

  lemma {:induction false} ChunkLinesAreLines(cs: seq<ChunkRef>)
    requires forall c :: c in cs ==> WellFormedChunk(c)
    ensures AllOneLine(ChunkLines(cs))
  {
    hide ChunkLine, WellFormedChunk;
    if cs != [] {
      ChunkLineReadsBack(cs[0]);
      ChunkLinesAreLines(cs[1..]);
    }
  }

  lemma {:induction false} FileLinesAreLines(fs: seq<FileManifest>)
    requires forall f :: f in fs ==> WellFormedFile(f)
    ensures AllOneLine(FileLines(fs))
  {
    hide FileBlock, WellFormedFile;
    if fs != [] {
      FileBlockIsLines(fs[0]);
      FileLinesAreLines(fs[1..]);
    }
  }

  lemma FileBlockIsLines(f: FileManifest)
    requires WellFormedFile(f)
    ensures AllOneLine(FileBlock(f))
  {
    hide FileLine, ChunkLine;
    FileLineReadsBack(f);
    ChunkLinesAreLines(f.chunks);
  }

  lemma KeyNumberReadsBack(ls: seq<string>, i: nat, key: string, n: nat)
    requires IsWord(key) && n < U64
    requires i < |ls| && ls[i] == KeyLine(key, Decimal(n))
    ensures ConsumeNumber(ls, i, key) == Some(n) && OneLine(ls[i])
  {
    NumberReadsBack(n, U64);
    KeyLineReadsBack(ls, i, key, Decimal(n));
  }

  lemma HeadReadsBack(m: Manifest, ls: seq<string>)
    requires WellFormed(m) && |ls| >= 8 && ls[..8] == HeadLines(m)
    ensures ls[0] == "DPC_MANIFEST_V1"
    ensures ConsumeNumber(ls, 1, "version") == Some(m.version)
    ensures ConsumeNumber(ls, 2, "created_at") == Some(m.createdAt)
    ensures Consume(ls, 3, "chunking_mode") == Some(ModeText(m.mode)) && ParseMode(ModeText(m.mode)) == Some(m.mode)
    ensures Consume(ls, 4, "source_root_hex") == Some(HexEncode(m.sourceRoot))
    ensures HexDecode(HexEncode(m.sourceRoot)) == Some(m.sourceRoot)
    ensures ConsumeNumber(ls, 5, "file_count") == Some(|m.files|)
    ensures ConsumeNumber(ls, 6, "total_input_bytes") == Some(m.totalInputBytes)
    ensures ConsumeNumber(ls, 7, "total_stored_bytes") == Some(m.totalStoredBytes)
    ensures AllOneLine(ls[..8])
  {
    hide Decimal, HexEncode, HexDecode, Consume, ConsumeNumber, KeyLine, WellFormedFile, HeadLines, ModeText, ParseMode, OneLine,
         IsWord;
    HeadLine(m, ls);
    HeadKeysAreWords();
    PathReadsBack(m.sourceRoot);
    ModeReadsBack(m.mode);
    KeyNumberReadsBack(ls, 1, "version", m.version);
    KeyNumberReadsBack(ls, 2, "created_at", m.createdAt);
    KeyLineReadsBack(ls, 3, "chunking_mode", ModeText(m.mode));
    KeyLineReadsBack(ls, 4, "source_root_hex", HexEncode(m.sourceRoot));
    KeyNumberReadsBack(ls, 5, "file_count", |m.files|);
    KeyNumberReadsBack(ls, 6, "total_input_bytes", m.totalInputBytes);
    KeyNumberReadsBack(ls, 7, "total_stored_bytes", m.totalStoredBytes);
    assert forall l :: l in ls[..8] ==> OneLine(l);
  }

  lemma HeadLine(m: Manifest, ls: seq<string>)
    requires |ls| >= 8 && ls[..8] == HeadLines(m)
    ensures ls[0] == "DPC_MANIFEST_V1" && OneLine(ls[0])
    ensures ls[1] == KeyLine("version", Decimal(m.version)) && ls[2] == KeyLine("created_at", Decimal(m.createdAt))
    ensures ls[3] == KeyLine("chunking_mode", ModeText(m.mode)) && ls[4] == KeyLine("source_root_hex", HexEncode(m.sourceRoot))
    ensures ls[5] == KeyLine("file_count", Decimal(|m.files|))
    ensures ls[6] == KeyLine("total_input_bytes", Decimal(m.totalInputBytes))
    ensures ls[7] == KeyLine("total_stored_bytes", Decimal(m.totalStoredBytes))
  {
    hide Decimal, HexEncode, KeyLine, ModeText;
    var head := ls[..8];
    assert ls[0] == head[0] && ls[1] == head[1] && ls[2] == head[2] && ls[3] == head[3];
    assert ls[4] == head[4] && ls[5] == head[5] && ls[6] == head[6] && ls[7] == head[7];
  }

  lemma HeadKeysAreWords()
    ensures IsWord("version") && IsWord("created_at") && IsWord("chunking_mode") && IsWord("source_root_hex")
    ensures IsWord("file_count") && IsWord("total_input_bytes") && IsWord("total_stored_bytes")
  {
  }

  lemma ModeReadsBack(mode: ChunkingMode)
    ensures ParseMode(ModeText(mode)) == Some(mode) && IsWord(ModeText(mode))
  {
  }

  lemma SerializedParses(m: Manifest)
    requires WellFormed(m)
    ensures Parse(Serialize(m)) == Some(m)
  {
    hide HeadLines, FileLines, ConsumeNumber, Consume, ParseMode, HexDecode, HexEncode, ModeText;
    var ls := ManifestLines(m);
    assert ls[..8] == HeadLines(m) && ls[8..] == FileLines(m.files) + ["END"];
    HeadReadsBack(m, ls);
    FilesReadBack(m.files, ls, 8);
    FileLinesAreLines(m.files);
    assert AllOneLine(ls) by {
      assert ls == HeadLines(m) + FileLines(m.files) + ["END"] && OneLine("END");
    }
    LinesOfUnlines(ls);
  }

  // Whatever is accepted is well formed.

  lemma ParsedChunkWellFormed(line: string)
    ensures ParseChunkLine(line).Some? ==> WellFormedChunk(ParseChunkLine(line).value)
  {
    var ws := Words(line);
    if |ws| == 6 {
      HexDecodesOctets(ws[5]);
    }
  }

  lemma {:induction false} ParsedChunksWellFormed(ls: seq<string>, i: nat, count: nat)
    ensures ParseChunks(ls, i, count).Some?
        ==> forall c :: c in ParseChunks(ls, i, count).value ==> WellFormedChunk(c)
    decreases count
  {
    hide ParseChunkLine, WellFormedChunk;
    if count > 0 && i < |ls| {
      ParsedChunkWellFormed(ls[i]);
      ParsedChunksWellFormed(ls, i + 1, count - 1);
    }
  }

  lemma ParsedFileWellFormed(line: string, chunks: seq<ChunkRef>)
    requires ParseFileLine(line).Some? && ParseFileLine(line).value.1 == |chunks|
    requires forall c :: c in chunks ==> WellFormedChunk(c)
    ensures WellFormedFile(ParseFileLine(line).value.0.(chunks := chunks))
  {
    hide WellFormedChunk;
    HexDecodesOctets(Words(line)[1]);
  }

  lemma {:induction false} ParsedFilesWellFormed(ls: seq<string>, i: nat)
    ensures ParseFiles(ls, i).Some? ==> forall f :: f in ParseFiles(ls, i).value.0 ==> WellFormedFile(f)
    decreases |ls| - i
  {
    hide ParseFileLine, ParseChunks, WellFormedFile;
    if i < |ls| && ls[i] != "END" && ParseFiles(ls, i).Some? {
      var count := ParseFileLine(ls[i]).value.1;
      var chunks := ParseChunks(ls, i + 1, count).value;
      ParsedChunksWellFormed(ls, i + 1, count);
      ParsedFileWellFormed(ls[i], chunks);
      ParsedFilesWellFormed(ls, i + 1 + count + 1);
    }
  }

  lemma ParsedWellFormed(text: string)
    requires Parse(text).Some?
    ensures WellFormed(Parse(text).value)
  {
    hide Lines, Words, Consume, ParseMode, ParseFiles, HexDecode, WellFormedFile;
    var ls := Lines(text);
    ParsedFilesWellFormed(ls, 8);
    HexDecodesOctets(Consume(ls, 4, "source_root_hex").value);
  }

  /** A manifest survives printing and parsing exactly when it is well formed. */
  lemma ParseIsInverseOfSerialize(m: Manifest)
    ensures Parse(Serialize(m)) == Some(m) <==> WellFormed(m)
  {
    hide Parse, Serialize, WellFormed;
    if WellFormed(m) {
      SerializedParses(m);
    }
    if Parse(Serialize(m)) == Some(m) {
      ParsedWellFormed(Serialize(m));
    }
  }

  /** Printing what was parsed, from any accepted text, loses nothing. */
  lemma ParseSerializeParse(text: string)
    requires Parse(text).Some?
    ensures Parse(Serialize(Parse(text).value)) == Parse(text)
  {
    hide Parse, Serialize, WellFormed;
    ParsedWellFormed(text);
    SerializedParses(Parse(text).value);
  }
}
