/** The index of a network session: an append-only text file, and the manifest built from it. */
module SessionIndex {
  import opened Wrappers
  import opened Slices
  import opened Bytes
  import opened Text
  import opened Sorting
  import opened Manifest

  datatype Received = Received(
    globalIndex: nat, sha256: string, relativePath: string, fileSize: nat, fileMode: nat, fileSha256: string,
    chunkIndex: nat, rawSize: nat, compressedSize: nat, objectPath: string)

  datatype Line = ChunkLine(record: Received) | CommittedLine(version: nat)

  // The text of an index file.

  function FieldsText(fields: seq<string>): string {
    if fields == [] then "" else " " + fields[0] + FieldsText(fields[1..])
  }

  function ChunkFields(r: Received): seq<string> {
    [ Decimal(r.globalIndex), r.sha256, HexEncode(r.relativePath), Decimal(r.fileSize), Decimal(r.fileMode),
      r.fileSha256, Decimal(r.chunkIndex), Decimal(r.rawSize), Decimal(r.compressedSize), HexEncode(r.objectPath) ]
  }

  function LineText(line: Line): string {
    match line
    case ChunkLine(r) => "CHUNK" + FieldsText(ChunkFields(r)) + "\n"
    case CommittedLine(v) => "COMMITTED" + FieldsText([Decimal(v)]) + "\n"
  }

  function TextOf(lines: seq<Line>): string {
    if lines == [] then "" else TextOf(lines[..|lines| - 1]) + LineText(lines[|lines| - 1])
  }

  function RecordsOf(lines: seq<Line>): seq<Received> {
    if lines == [] then []
    else
      RecordsOf(lines[..|lines| - 1])
      + (if lines[|lines| - 1].ChunkLine? then [lines[|lines| - 1].record] else [])
  }

  /** What makes a line readable again: non-empty words and numbers in range. */
  ghost predicate Readable(line: Line) {
    match line
    case ChunkLine(r) =>
      && r.globalIndex < U64 && r.fileSize < U64 && r.fileMode < U32 && r.chunkIndex < U64
      && r.rawSize < U64 && r.compressedSize < U64
      && IsWord(r.sha256) && IsWord(r.fileSha256)
      && r.relativePath != "" && Octets(r.relativePath) && r.objectPath != "" && Octets(r.objectPath)
    case CommittedLine(v) => true
  }

  ghost predicate AllReadable(lines: seq<Line>) {
    forall l :: l in lines ==> Readable(l)
  }

  function ReadChunkFields(s0: string): Option<(Received, string)> {
    var (globalIndex, s1) :- ReadNumber(s0, U64);
    var (sha256, s2) :- ReadWord(s1);
    var (relHex, s3) :- ReadWord(s2);
    var (fileSize, s4) :- ReadNumber(s3, U64);
    var (fileMode, s5) :- ReadNumber(s4, U32);
    var (fileSha256, s6) :- ReadWord(s5);
    var (chunkIndex, s7) :- ReadNumber(s6, U64);
    var (rawSize, s8) :- ReadNumber(s7, U64);
    var (compressedSize, s9) :- ReadNumber(s8, U64);
    var (objHex, s10) :- ReadWord(s9);
    var relativePath :- HexDecode(relHex);
    var objectPath :- HexDecode(objHex);
    Some((Received(globalIndex, sha256, relativePath, fileSize, fileMode, fileSha256,
                   chunkIndex, rawSize, compressedSize, objectPath), s10))
  }

  lemma ReadChunkFieldsShrinks(s: string)
    ensures ReadChunkFields(s).Some? ==> |ReadChunkFields(s).value.1| < |s|
  {
    hide HexDecode, ReadNumber, ReadWord;
  }

  /** The rest of the text after the current line. */
  function AfterLine(s: string): (t: string)
    ensures |t| <= |s|
  {
    if LineLength(s) < |s| then s[LineLength(s) + 1..] else ""
  }

  /** `records`: reads the whole file, or fails on the first malformed record. */
  function ReadRecords(s: string): Option<seq<Received>>
    decreases |s|
  {
    var tag := ReadWord(s);
    if tag.None? then Some([])
    else
      var (word, rest) := tag.value;
      if word == "CHUNK" then
        ReadChunkFieldsShrinks(rest);
        var (record, after) :- ReadChunkFields(rest);
        var more :- ReadRecords(after);
        Some([record] + more)
      else if word == "COMMITTED" then ReadRecords(AfterLine(rest))
      else None
  }

  /** The text that remains after the first `k` fields. */
  function Tail(fields: seq<string>, k: nat, rest: string): (t: string)
    requires k <= |fields| && EndsWord(rest)
    ensures EndsWord(t)
  {
    FieldsText(fields[k..]) + rest
  }

  lemma TailStep(fields: seq<string>, k: nat, rest: string)
    requires k < |fields| && EndsWord(rest)
    ensures Tail(fields, k, rest) == " " + fields[k] + Tail(fields, k + 1, rest)
  {
    assert fields[k..][1..] == fields[k + 1..];
    ConcatAssociates(" " + fields[k], FieldsText(fields[k + 1..]), rest);
  }

  lemma NumberField(fields: seq<string>, k: nat, rest: string, n: nat, limit: nat)
    requires k < |fields| && EndsWord(rest) && fields[k] == Decimal(n) && n < limit
    ensures ReadNumber(Tail(fields, k, rest), limit) == Some((n, Tail(fields, k + 1, rest)))
  {
    hide Decimal, ReadNumber, Tail;
    TailStep(fields, k, rest);
    NextNumber(n, limit, Tail(fields, k + 1, rest));
  }

  lemma WordField(fields: seq<string>, k: nat, rest: string)
    requires k < |fields| && EndsWord(rest) && IsWord(fields[k])
    ensures ReadWord(Tail(fields, k, rest)) == Some((fields[k], Tail(fields, k + 1, rest)))
  {
    hide ReadWord, Tail;
    TailStep(fields, k, rest);
    NextWord(fields[k], Tail(fields, k + 1, rest));
  }

  lemma PathField(path: string)
    requires Octets(path) && path != ""
    ensures HexDecode(HexEncode(path)) == Some(path) && IsWord(HexEncode(path))
  {
    PathReadsBack(path);
  }

  lemma ChunkFieldsReadBack(r: Received, rest: string)
    requires Readable(ChunkLine(r)) && EndsWord(rest)
    ensures ReadChunkFields(FieldsText(ChunkFields(r)) + rest) == Some((r, rest))
  {
    hide Decimal, HexEncode, HexDecode, ReadNumber, ReadWord, Tail, IsWord, Octets;
    var f := ChunkFields(r);
    TailEnds(f, rest);
    PathField(r.relativePath);
    PathField(r.objectPath);
    NumberField(f, 0, rest, r.globalIndex, U64);
    WordField(f, 1, rest);
    WordField(f, 2, rest);
    NumberField(f, 3, rest, r.fileSize, U64);
    NumberField(f, 4, rest, r.fileMode, U32);
    WordField(f, 5, rest);
    NumberField(f, 6, rest, r.chunkIndex, U64);
    NumberField(f, 7, rest, r.rawSize, U64);
    NumberField(f, 8, rest, r.compressedSize, U64);
    WordField(f, 9, rest);
  }

  lemma TailEnds(fields: seq<string>, rest: string)
    requires EndsWord(rest)
    ensures Tail(fields, 0, rest) == FieldsText(fields) + rest && Tail(fields, |fields|, rest) == rest
  {
    assert fields[0..] == fields && fields[|fields|..] == [];
    assert "" + rest == rest;
  }

  lemma LineReadsBack(line: Line, more: string)
    requires Readable(line)
    ensures ReadRecords(LineText(line) + more)
         == if line.ChunkLine? then PrependRecords([line.record], ReadRecords(more)) else ReadRecords(more)
  {
    hide ReadChunkFields, ChunkFields, Decimal, ReadWord, AfterLine;
    var rest := "\n" + more;
    match line
    case ChunkLine(r) =>
      var fields := FieldsText(ChunkFields(r));
      assert LineText(line) + more == "CHUNK" + (fields + rest);
      ReadTag("CHUNK", ChunkFields(r), rest);
      ChunkFieldsReadBack(r, rest);
      NewlineSkipped(more);
    case CommittedLine(v) =>
      var fields := FieldsText([Decimal(v)]);
      assert LineText(line) + more == "COMMITTED" + (fields + rest);
      ReadTag("COMMITTED", [Decimal(v)], rest);
      CommittedLineEnds(v, more);
  }

  lemma ReadTag(tag: string, fields: seq<string>, rest: string)
    requires IsWord(tag) && EndsWord(rest)
    ensures ReadWord(tag + (FieldsText(fields) + rest)) == Some((tag, FieldsText(fields) + rest))
  {
    hide ReadWord;
    var after := FieldsText(fields) + rest;
    assert fields != [] ==> after[0] == ' ';
    assert fields == [] ==> after == rest;
    ReadWordExact(tag, after);
  }

  lemma OneField(field: string)
    ensures FieldsText([field]) == " " + field
  {
    assert [field][1..] == [] && FieldsText([]) == "";
    assert " " + field + "" == " " + field;
  }

  lemma CommittedLineEnds(v: nat, more: string)
    ensures AfterLine(FieldsText([Decimal(v)]) + ("\n" + more)) == more
  {
    hide Decimal, FieldsText;
    var fields := FieldsText([Decimal(v)]);
    OneField(Decimal(v));
    DecimalRoundTrip(v);
    WordIsOneLine(Decimal(v));
    assert OneLine(fields);
    LineLengthExact(fields, more);
    var s := fields + "\n" + more;
    assert fields + ("\n" + more) == s && s[|fields| + 1..] == more;
  }

  ghost function PrependRecords(done: seq<Received>, rest: Option<seq<Received>>): Option<seq<Received>> {
    if rest.Some? then Some(done + rest.value) else None
  }

  /** The newline that ends a record is skipped with the spaces before the next one. */
  lemma NewlineSkipped(s: string)
    ensures ReadRecords("\n" + s) == ReadRecords(s)
  {
    hide ReadChunkFields, AfterLine;
    assert "\n" + s == ['\n'] + s;
    ReadAfterSpace('\n', s, 1);
  }

  lemma {:induction false} TextReadsBack(lines: seq<Line>, more: string)
    requires AllReadable(lines)
    ensures ReadRecords(TextOf(lines) + more) == PrependRecords(RecordsOf(lines), ReadRecords(more))
    decreases |lines|
  {
    hide ReadRecords, LineText, Readable;
    if lines == [] {
      assert "" + more == more;
      if ReadRecords(more).Some? {
        assert [] + ReadRecords(more).value == ReadRecords(more).value;
      }
    } else {
      var init, last := lines[..|lines| - 1], lines[|lines| - 1];
      ConcatAssociates(TextOf(init), LineText(last), more);
      TextReadsBack(init, LineText(last) + more);
      assert last in lines;
      LineReadsBack(last, more);
      assert RecordsOf(init) + [] == RecordsOf(init);
      if ReadRecords(more).Some? && last.ChunkLine? {
        ConcatAssociates(RecordsOf(init), [last.record], ReadRecords(more).value);
      }
    }
  }

  /** Reading an index file gives back exactly the chunk records that were appended to it. */
  lemma IndexReadsBack(lines: seq<Line>)
    requires AllReadable(lines)
    ensures ReadRecords(TextOf(lines)) == Some(RecordsOf(lines))
  {
    hide TextOf, RecordsOf;
    TextReadsBack(lines, "");
    assert TextOf(lines) + "" == TextOf(lines) && RecordsOf(lines) + [] == RecordsOf(lines);
    assert ReadRecords("") == Some([]);
  }

  lemma LineAdded(lines: seq<Line>, r: Received)
    ensures TextOf(lines + [ChunkLine(r)]) == TextOf(lines) + LineText(ChunkLine(r))
    ensures RecordsOf(lines + [ChunkLine(r)]) == RecordsOf(lines) + [r]
  {
    hide LineText;
    assert (lines + [ChunkLine(r)])[..|lines|] == lines;
  }

  // Received chunks and the manifest built from them. An ordered map is its ascending entries.

  /** `received`: the digest of the last record of every index. */
  function ReceivedMap(records: seq<Received>): map<nat, string> {
    if records == [] then map[]
    else
      var last := records[|records| - 1];
      ReceivedMap(records[..|records| - 1])[last.globalIndex := last.sha256]
  }

  /** The last record of its index. */
  ghost predicate LastOfIndex(records: seq<Received>, k: nat)
    requires k < |records|
  {
    forall j :: k < j < |records| ==> records[j].globalIndex != records[k].globalIndex
  }

  /** An index has been received iff it has a record, and its digest is that of its last one. */
  lemma {:induction false} ReceivedIsLast(records: seq<Received>, k: nat)
    requires k < |records|
    ensures records[k].globalIndex in ReceivedMap(records)
    ensures LastOfIndex(records, k) ==> ReceivedMap(records)[records[k].globalIndex] == records[k].sha256
    decreases |records|
  {
    var n := |records| - 1;
    if k < n {
      ReceivedIsLast(records[..n], k);
      assert LastOfIndex(records, k) ==> LastOfIndex(records[..n], k) && records[n].globalIndex != records[k].globalIndex;
    }
  }

  lemma {:induction false} ReceivedHasRecord(records: seq<Received>, index: nat) returns (k: nat)
    requires index in ReceivedMap(records)
    ensures k < |records| && records[k].globalIndex == index && LastOfIndex(records, k)
    decreases |records|
  {
    var n := |records| - 1;
    if records[n].globalIndex == index {
      k := n;
    } else {
      k := ReceivedHasRecord(records[..n], index);
    }
  }

  datatype IndexError = Unreadable | ChecksumMismatch

  /** `appendChunk`: the records afterwards; a record with a known index and digest is dropped. */
  function Append(records: seq<Received>, r: Received): Result<seq<Received>, IndexError> {
    var received := ReceivedMap(records);
    if r.globalIndex !in received then Ok(records + [r])
    else if received[r.globalIndex] != r.sha256 then Err(ChecksumMismatch)
    else Ok(records)
  }

  /** Puts a record into the map by global index, in place of one with the same index. */
  function PutRecord(rs: seq<Received>, r: Received): seq<Received> {
    if rs == [] then [r]
    else if rs[0].globalIndex < r.globalIndex then [rs[0]] + PutRecord(rs[1..], r)
    else if rs[0].globalIndex == r.globalIndex then [r] + rs[1..]
    else [r] + rs
  }

  /** The last record of every index, in ascending order of index. */
  function ByGlobal(records: seq<Received>): seq<Received> {
    if records == [] then [] else PutRecord(ByGlobal(records[..|records| - 1]), records[|records| - 1])
  }

  predicate HasIndex(rs: seq<Received>, index: nat) {
    exists k :: 0 <= k < |rs| && rs[k].globalIndex == index
  }

  /** The entry of a path; a new path gets a default entry, whose own path is empty. */
  function FileOf(files: seq<FileManifest>, path: string): FileManifest {
    if files == [] then FileManifest("", 0, 0x1a4, "", [])
    else if files[0].relativePath == path then files[0]
    else FileOf(files[1..], path)
  }

  /** Puts an entry into the map by path, in place of one with the same path. */
  function PutFile(files: seq<FileManifest>, file: FileManifest): seq<FileManifest> {
    if files == [] then [file]
    else if LessText(files[0].relativePath, file.relativePath) then [files[0]] + PutFile(files[1..], file)
    else if files[0].relativePath == file.relativePath then [file] + files[1..]
    else [file] + files
  }

  datatype Grouping = Grouping(files: seq<FileManifest>, inputBytes: nat, storedBytes: nat, seen: set<string>)

  const NO_FILES: Grouping := Grouping([], 0, 0, {})

  function RefOf(r: Received): ChunkRef {
    ChunkRef(r.chunkIndex, r.rawSize, r.compressedSize, r.sha256, r.objectPath)
  }

  /** Adds one record to its file. Sums are kept in 64 bits. */
  function Group(g: Grouping, r: Received): Grouping {
    var found := FileOf(g.files, r.relativePath);
    var isNew := found.relativePath == "";
    var file := if isNew then FileManifest(r.relativePath, r.fileSize, r.fileMode, r.fileSha256, found.chunks) else found;
    Grouping(
      PutFile(g.files, file.(chunks := file.chunks + [RefOf(r)])),
      if isNew then (g.inputBytes + r.fileSize) % U64 else g.inputBytes,
      if r.sha256 in g.seen then g.storedBytes else (g.storedBytes + r.compressedSize) % U64,
      g.seen + {r.sha256})
  }

  function GroupAll(records: seq<Received>): Grouping {
    if records == [] then NO_FILES else Group(GroupAll(records[..|records| - 1]), records[|records| - 1])
  }

  function LessIndex(a: ChunkRef, b: ChunkRef): bool {
    a.index < b.index
  }

  function WithSortedChunks(files: seq<FileManifest>): (sorted: seq<FileManifest>)
    ensures |sorted| == |files|
  {
    seq(|files|, i requires 0 <= i < |files| => files[i].(chunks := Sort(files[i].chunks, LessIndex)))
  }

  const SOURCE_PREFIX: string := "network-session:"

  /** `buildManifest`, or nothing when a chunk below `total` is missing. */
  function BuildManifest(records: seq<Received>, sessionId: string, version: nat, total: nat, now: nat): Option<Manifest> {
    var byGlobal := ByGlobal(records);
    if exists i :: 0 <= i < total && !HasIndex(byGlobal, i) then None
    else
      var g := GroupAll(byGlobal);
      Some(Manifest(version, now, Fixed, SOURCE_PREFIX + sessionId, g.inputBytes, g.storedBytes, WithSortedChunks(g.files)))
  }

  lemma PrependNoRecords(rest: Option<seq<Received>>)
    ensures PrependRecords([], rest) == rest
  {
    if rest.Some? {
      assert [] + rest.value == rest.value;
    }
  }

  lemma PrependMoreRecords(done: seq<Received>, more: seq<Received>, rest: Option<seq<Received>>)
    ensures PrependRecords(done, PrependRecords(more, rest)) == PrependRecords(done + more, rest)
  {
    if rest.Some? {
      ConcatAssociates(done, more, rest.value);
    }
  }

  /** The file of a session is named after its id. */
  function SessionFileName(sessionId: string): string {
    HexEncode(sessionId) + ".session"
  }

  lemma SessionNamesDiffer(a: string, b: string)
    requires Octets(a) && Octets(b)
    ensures SessionFileName(a) == SessionFileName(b) ==> a == b
  {
    HexRoundTrip(a);
    HexRoundTrip(b);
    if SessionFileName(a) == SessionFileName(b) {
      var x, y := SessionFileName(a), SessionFileName(b);
      assert x[..|x| - 8] == HexEncode(a) && y[..|y| - 8] == HexEncode(b);
    }
  }

  /** The index file of one session; its text is empty while the file does not exist. */
  class Index {
    const sessionId: string
    var text: string
    ghost var lines: seq<Line>

    ghost predicate Valid()
      reads this
    {
      AllReadable(lines) && text == TextOf(lines)
    }

    constructor (sessionId: string)
      ensures Valid() && lines == [] && this.sessionId == sessionId
    {
      this.sessionId := sessionId;
      text, lines := "", [];
    }

    /** The index of a session that may have been used before. */
    constructor Open(sessionId: string, text: string, ghost lines: seq<Line>)
      ensures this.sessionId == sessionId && this.text == text && this.lines == lines
    {
      this.sessionId := sessionId;
      this.text, this.lines := text, lines;
    }

    method Records() returns (result: Option<seq<Received>>)
      ensures result == ReadRecords(text)
      ensures Valid() ==> result == Some(RecordsOf(lines))
    {
      hide ReadChunkFields, AfterLine, TextOf, RecordsOf, Readable;
      if Valid() {
        IndexReadsBack(lines);
      }
      var records: seq<Received> := [];
      var rest := text;
      PrependNoRecords(ReadRecords(text));
      var tag := ReadWord(rest);
      while tag.Some?
        invariant tag == ReadWord(rest)
        invariant ReadRecords(text) == PrependRecords(records, ReadRecords(rest))
        decreases |rest|
      {
        var (word, after) := tag.value;
        if word == "CHUNK" {
          var fields := ReadChunkFields(after);
          ReadChunkFieldsShrinks(after);
          if fields.None? {
            return None;
          }
          PrependMoreRecords(records, [fields.value.0], ReadRecords(fields.value.1));
          records := records + [fields.value.0];
          rest := fields.value.1;
        } else if word == "COMMITTED" {
          rest := AfterLine(after);
        } else {
          return None;
        }
        tag := ReadWord(rest);
      }
      assert records + [] == records;
      return Some(records);
    }

    method QueryReceived() returns (result: Option<map<nat, string>>)
      ensures result.Some? <==> ReadRecords(text).Some?
      ensures result.Some? ==> result.value == ReceivedMap(ReadRecords(text).value)
    {
      hide ReadRecords;
      var records := Records();
      if records.None? {
        return None;
      }
      var out: map<nat, string> := map[];
      for i := 0 to |records.value|
        invariant out == ReceivedMap(records.value[..i])
      {
        var record := records.value[i];
        assert records.value[..i + 1][..i] == records.value[..i];
        out := out[record.globalIndex := record.sha256];
      }
      assert records.value[..|records.value|] == records.value;
      return Some(out);
    }

    method AppendChunk(record: Received) returns (result: Result<(), IndexError>)
      modifies this
      ensures var before := ReadRecords(old(text));
              && (result.Ok? <==> before.Some? && Append(before.value, record).Ok?)
              && text == old(text) + if before.Some? && record.globalIndex !in ReceivedMap(before.value)
                                     then LineText(ChunkLine(record)) else ""
      ensures old(Valid()) && Readable(ChunkLine(record)) ==>
                Valid() && (if result.Ok? then Append(RecordsOf(old(lines)), record) == Ok(RecordsOf(lines)) else lines == old(lines))
    {
      hide ReadRecords, ChunkFields, FieldsText;
      var received := QueryReceived();
      if Valid() {
        IndexReadsBack(lines);
      }
      assert text + "" == text;
      if received.None? {
        return Err(Unreadable);
      }
      if record.globalIndex in received.value {
        if received.value[record.globalIndex] != record.sha256 {
          return Err(ChecksumMismatch);
        }
        return Ok(());
      }
      text := text + LineText(ChunkLine(record));
      assert (lines + [ChunkLine(record)])[..|lines|] == lines;
      lines := lines + [ChunkLine(record)];
      return Ok(());
    }

    /** Appends a line that says which version the session became; the records stay what they were. */
    method MarkCommitted(version: nat)
      modifies this
      ensures text == old(text) + LineText(CommittedLine(version))
      ensures old(Valid()) ==> Valid() && RecordsOf(lines) == RecordsOf(old(lines))
    {
      text := text + LineText(CommittedLine(version));
      assert (lines + [CommittedLine(version)])[..|lines|] == lines;
      assert RecordsOf(lines) + [] == RecordsOf(lines);
      lines := lines + [CommittedLine(version)];
    }

    method Build(version: nat, total: nat, now: nat) returns (result: Option<Manifest>)
      ensures var records := ReadRecords(text);
              result == if records.Some? then BuildManifest(records.value, sessionId, version, total, now) else None
    {
      hide ReadRecords, ByGlobal, GroupAll, Group, WithSortedChunks, HasIndex;
      var records := Records();
      if records.None? {
        return None;
      }
      var byGlobal := IndexRecords(records.value);
      for i := 0 to total
        invariant forall k :: 0 <= k < i ==> HasIndex(byGlobal, k)
      {
        if !HasIndex(byGlobal, i) {
          return None;
        }
      }
      var g := GroupFiles(byGlobal);
      var files := SortChunks(g.files);
      return Some(Manifest(version, now, Fixed, SOURCE_PREFIX + sessionId, g.inputBytes, g.storedBytes, files));
    }
  }

  method IndexRecords(records: seq<Received>) returns (byGlobal: seq<Received>)
    ensures byGlobal == ByGlobal(records)
  {
    byGlobal := [];
    for i := 0 to |records|
      invariant byGlobal == ByGlobal(records[..i])
    {
      assert records[..i + 1][..i] == records[..i];
      byGlobal := PutRecord(byGlobal, records[i]);
    }
    assert records[..|records|] == records;
  }

  method GroupFiles(byGlobal: seq<Received>) returns (g: Grouping)
    ensures g == GroupAll(byGlobal)
  {
    hide FileOf, PutFile, RefOf;
    var files: seq<FileManifest> := [];
    var seen: set<string> := {};
    var inputBytes: nat, storedBytes: nat := 0, 0;
    for i := 0 to |byGlobal|
      invariant Grouping(files, inputBytes, storedBytes, seen) == GroupAll(byGlobal[..i])
    {
      assert byGlobal[..i + 1][..i] == byGlobal[..i];
      var record := byGlobal[i];
      var file := FileOf(files, record.relativePath);
      if file.relativePath == "" {
        file := FileManifest(record.relativePath, record.fileSize, record.fileMode, record.fileSha256, file.chunks);
        inputBytes := (inputBytes + record.fileSize) % U64;
      }
      file := file.(chunks := file.chunks + [RefOf(record)]);
      files := PutFile(files, file);
      if record.sha256 !in seen {
        seen := seen + {record.sha256};
        storedBytes := (storedBytes + record.compressedSize) % U64;
      } else {
        assert seen + {record.sha256} == seen;
      }
    }
    assert byGlobal[..|byGlobal|] == byGlobal;
    g := Grouping(files, inputBytes, storedBytes, seen);
  }

  method SortChunks(files: seq<FileManifest>) returns (sorted: seq<FileManifest>)
    ensures sorted == WithSortedChunks(files)
  {
    sorted := [];
    for i := 0 to |files|
      invariant |sorted| == i
      invariant forall k :: 0 <= k < i ==> sorted[k] == files[k].(chunks := Sort(files[k].chunks, LessIndex))
    {
      sorted := sorted + [files[i].(chunks := Sort(files[i].chunks, LessIndex))];
    }
  }
}
