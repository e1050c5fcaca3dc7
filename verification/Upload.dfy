/** What a client uploads for a source, and why the server's manifest is that of a local backup. */
module Upload {
  import opened Wrappers
  import opened Slices
  import opened Bytes
  import opened Text
  import opened Paths
  import opened Sorting
  import opened Manifest
  import opened Chunkers
  import opened ObjectStore
  import opened Snapshot
  import opened SessionIndex

  datatype PreparedChunk = PreparedChunk(
    globalIndex: nat, relativePath: string, fileSize: nat, fileMode: nat, fileSha256: string,
    chunkIndex: nat, raw: Bytes, sha256: string, compressed: Bytes)

  function ChunkOf(c: Codec, f: SourceFile, k: nat, piece: Bytes, globalIndex: nat): PreparedChunk {
    PreparedChunk(globalIndex, f.path, |f.content|, f.mode, c.hash(f.content), k, piece, c.hash(piece), c.compress(piece))
  }

  function FileChunks(c: Codec, f: SourceFile, from: nat): (cs: seq<PreparedChunk>)
    ensures |cs| == |PiecesOf(Fixed, f.content)| > 0
  {
    var pieces := PiecesOf(Fixed, f.content);
    seq(|pieces|, k requires 0 <= k < |pieces| => ChunkOf(c, f, k, pieces[k], from + k))
  }

  /** The chunks of a source in the order of its files, numbered through. */
  function PreparedChunks(c: Codec, src: Source): seq<PreparedChunk> {
    if src == [] then []
    else
      var before := PreparedChunks(c, src[..|src| - 1]);
      before + FileChunks(c, src[|src| - 1], |before|)
  }

  method PrepareChunks(c: Codec, src: Source) returns (out: seq<PreparedChunk>)
    ensures out == PreparedChunks(c, src)
  {
    hide FixedPieces, PreparedChunks, FileChunks, Numbered;
    out := [];
    var globalIndex := 0;
    assert PreparedChunks(c, []) == [] by { PreparedNothing(c); }
    for i := 0 to |src|
      invariant globalIndex == |out| && out == PreparedChunks(c, src[..i])
    {
      var file := src[i];
      var fileSha := c.hash(file.content);
      var chunks := FixedChunks(file.content, DEFAULT_CHUNK_SIZE);
      ghost var before := out;
      for j := 0 to |chunks|
        invariant globalIndex == |out| == |before| + j && |chunks| == |FileChunks(c, file, |before|)|
        invariant out == before + FileChunks(c, file, |before|)[..j]
      {
        var chunk := chunks[j];
        out := out + [PreparedChunk(globalIndex, file.path, |file.content|, file.mode, fileSha,
                                    chunk.index, chunk.data, c.hash(chunk.data), c.compress(chunk.data))];
        FileChunkAt(c, file, |before|, j);
        globalIndex := globalIndex + 1;
      }
      PreparedLast(c, src[..i], file);
      assert src[..i + 1] == src[..i] + [file];
    }
    assert src[..|src|] == src;
  }

  lemma PreparedNothing(c: Codec)
    ensures PreparedChunks(c, []) == []
  {
  }

  lemma PreparedLast(c: Codec, src: Source, last: SourceFile)
    ensures PreparedChunks(c, src + [last]) == PreparedChunks(c, src) + FileChunks(c, last, |PreparedChunks(c, src)|)
  {
    hide FileChunks;
    assert (src + [last])[..|src|] == src;
  }

  lemma FileChunkAt(c: Codec, f: SourceFile, from: nat, k: nat)
    requires k < |PiecesOf(Fixed, f.content)|
    ensures FileChunks(c, f, from)[k] == ChunkOf(c, f, k, PiecesOf(Fixed, f.content)[k], from + k)
  {
    hide PiecesOf, ChunkOf;
  }

  /** The record that the server keeps of a chunk. */
  function RecordOf(p: PreparedChunk): Received {
    Received(p.globalIndex, p.sha256, p.relativePath, p.fileSize, p.fileMode, p.fileSha256,
             p.chunkIndex, |p.raw|, |p.compressed|, ObjectPath(p.sha256))
  }

  function RecordsFor(ps: seq<PreparedChunk>): (rs: seq<Received>)
    ensures |rs| == |ps|
  {
    seq(|ps|, k requires 0 <= k < |ps| => RecordOf(ps[k]))
  }

  /** All records of a finished upload, in order. */
  function AllRecords(c: Codec, src: Source): (rs: seq<Received>)
    ensures |rs| == |PreparedChunks(c, src)|
  {
    RecordsFor(PreparedChunks(c, src))
  }

  /** Records of an upload of `src`, of any chunks in any order. */
  ghost predicate Honest(c: Codec, src: Source, records: seq<Received>) {
    var all := AllRecords(c, src);
    forall r :: r in records ==> r.globalIndex < |all| && r == all[r.globalIndex]
  }

  // Every prepared chunk is a piece of a file, and is numbered by its position.

  ghost predicate PieceOfSource(c: Codec, src: Source, p: PreparedChunk) {
    exists f, k :: f in src && PieceOfFile(c, f, k, p)
  }

  ghost predicate PieceOfFile(c: Codec, f: SourceFile, k: nat, p: PreparedChunk) {
    k < |PiecesOf(Fixed, f.content)| && p == ChunkOf(c, f, k, PiecesOf(Fixed, f.content)[k], p.globalIndex)
  }

  lemma {:induction false} PreparedAt(c: Codec, src: Source, i: nat)
    requires i < |PreparedChunks(c, src)|
    ensures PreparedChunks(c, src)[i].globalIndex == i && PieceOfSource(c, src, PreparedChunks(c, src)[i])
    decreases |src|
  {
    hide PiecesOf, FileChunks;
    var init, last := src[..|src| - 1], src[|src| - 1];
    var before := |PreparedChunks(c, init)|;
    if i < before {
      PreparedAt(c, init, i);
      var f, k :| f in init && PieceOfFile(c, f, k, PreparedChunks(c, init)[i]);
      assert f in src && PieceOfFile(c, f, k, PreparedChunks(c, src)[i]);
    } else {
      FileChunkAt(c, last, before, i - before);
      assert last in src && PieceOfFile(c, last, i - before, PreparedChunks(c, src)[i]);
    }
  }

  lemma PreparedIsSmall(c: Codec, src: Source, i: nat)
    requires i < |PreparedChunks(c, src)|
    ensures |PreparedChunks(c, src)[i].raw| <= DEFAULT_CHUNK_SIZE
  {
    hide FixedPieces, PreparedChunks, FileChunks;
    PreparedAt(c, src, i);
    var f, k: nat :| f in src && PieceOfFile(c, f, k, PreparedChunks(c, src)[i]);
    FixedPiecesJoin(f.content, DEFAULT_CHUNK_SIZE);
    assert PiecesOf(Fixed, f.content)[k] in PiecesOf(Fixed, f.content);
  }

  lemma AllRecordsAt(c: Codec, src: Source, i: nat)
    requires i < |AllRecords(c, src)|
    ensures AllRecords(c, src)[i] == RecordOf(PreparedChunks(c, src)[i]) && AllRecords(c, src)[i].globalIndex == i
  {
    hide PreparedChunks;
    PreparedAt(c, src, i);
  }

  // A complete session holds exactly the records of the source.

  ghost predicate IndexesAscend(rs: seq<Received>) {
    forall i, j :: 0 <= i < j < |rs| ==> rs[i].globalIndex < rs[j].globalIndex
  }

  lemma FirstAscends(first: Received, rest: seq<Received>)
    ensures IndexesAscend([first] + rest) <==> IndexesAscend(rest) && forall x :: x in rest ==> first.globalIndex < x.globalIndex
  {
    var rs := [first] + rest;
    if IndexesAscend(rs) {
      forall i, j | 0 <= i < j < |rest|
        ensures rest[i].globalIndex < rest[j].globalIndex
      {
        assert rs[i + 1].globalIndex < rs[j + 1].globalIndex;
      }
      forall x | x in rest
        ensures first.globalIndex < x.globalIndex
      {
        var k :| 0 <= k < |rest| && rest[k] == x;
        assert rs[0].globalIndex < rs[k + 1].globalIndex;
      }
    }
  }

  lemma {:induction false} PutRecordAscends(rs: seq<Received>, r: Received)
    requires IndexesAscend(rs)
    ensures IndexesAscend(PutRecord(rs, r))
    ensures forall x :: x in PutRecord(rs, r) <==> x == r || (x in rs && x.globalIndex != r.globalIndex)
  {
    hide IndexesAscend;
    if rs == [] {
      assert IndexesAscend([]) by { NoneAscend(); }
      FirstAscends(r, []);
      assert [r] + [] == [r];
    } else {
      var first, rest := rs[0], rs[1..];
      assert rs == [first] + rest;
      FirstAscends(first, rest);
      if first.globalIndex < r.globalIndex {
        PutRecordAscends(rest, r);
        FirstAscends(first, PutRecord(rest, r));
      } else if first.globalIndex == r.globalIndex {
        FirstAscends(r, rest);
      } else {
        FirstAscends(r, rs);
      }
    }
  }

  lemma NoneAscend()
    ensures IndexesAscend([])
  {
  }

  /** The map by index ascends, and holds exactly the last record of every index that has any. */
  lemma {:induction false} ByGlobalAscends(records: seq<Received>)
    ensures IndexesAscend(ByGlobal(records))
    ensures forall r :: r in ByGlobal(records) <==> IsLastOfIndex(records, r)
    ensures forall r :: r in ByGlobal(records) ==> r in records
    ensures forall r :: r in records ==> HasIndex(ByGlobal(records), r.globalIndex)
    decreases |records|
  {
    hide PutRecord;
    if records != [] {
      var init, last := records[..|records| - 1], records[|records| - 1];
      ByGlobalAscends(init);
      PutRecordAscends(ByGlobal(init), last);
      assert records == init + [last];
      LastsOfLonger(init, last);
      var after := ByGlobal(records);
      forall r | r in records
        ensures HasIndex(after, r.globalIndex)
      {
        assert last in after;
        if r.globalIndex != last.globalIndex {
          assert r in init;
          var k :| 0 <= k < |ByGlobal(init)| && ByGlobal(init)[k].globalIndex == r.globalIndex;
          assert ByGlobal(init)[k] in after;
        }
      }
    }
  }

  ghost predicate IsLastOfIndex(records: seq<Received>, r: Received) {
    exists k :: 0 <= k < |records| && records[k] == r && LastOfIndex(records, k)
  }

  lemma LastsOfLonger(init: seq<Received>, last: Received)
    ensures forall r :: IsLastOfIndex(init + [last], r) <==>
      r == last || (IsLastOfIndex(init, r) && r.globalIndex != last.globalIndex)
  {
    var all := init + [last];
    forall r
      ensures IsLastOfIndex(all, r) <==> r == last || (IsLastOfIndex(init, r) && r.globalIndex != last.globalIndex)
    {
      if IsLastOfIndex(all, r) && r != last {
        var k :| 0 <= k < |all| && all[k] == r && LastOfIndex(all, k);
        assert init[k] == r && all[|init|].globalIndex != r.globalIndex;
        assert LastOfIndex(init, k) by {
          forall j | k < j < |init|
            ensures init[j].globalIndex != init[k].globalIndex
          {
            assert all[j].globalIndex != all[k].globalIndex;
          }
        }
      }
      if r == last {
        assert all[|init|] == r && LastOfIndex(all, |init|);
      } else if IsLastOfIndex(init, r) && r.globalIndex != last.globalIndex {
        var k :| 0 <= k < |init| && init[k] == r && LastOfIndex(init, k);
        assert all[k] == r && LastOfIndex(all, k);
      }
    }
  }

  lemma {:induction false} AscendingIsSpaced(rs: seq<Received>, k: nat)
    requires IndexesAscend(rs) && k < |rs|
    ensures rs[k].globalIndex >= k
  {
    if k > 0 {
      AscendingIsSpaced(rs, k - 1);
    }
  }

  lemma {:induction false} AscendingIsDense(rs: seq<Received>, k: nat)
    requires IndexesAscend(rs) && forall i :: 0 <= i <= k ==> HasIndex(rs, i)
    ensures k < |rs| && rs[k].globalIndex == k
  {
    assert HasIndex(rs, k);
    var j :| 0 <= j < |rs| && rs[j].globalIndex == k;
    AscendingIsSpaced(rs, j);
    if j < k {
      AscendingIsDense(rs, j);
    }
  }

  lemma AscendingComplete(rs: seq<Received>, n: nat)
    requires IndexesAscend(rs)
    requires forall r :: r in rs ==> r.globalIndex < n
    requires forall i :: 0 <= i < n ==> HasIndex(rs, i)
    ensures |rs| == n && forall k :: 0 <= k < n ==> rs[k].globalIndex == k
  {
    hide HasIndex;
    if rs != [] {
      AscendingIsSpaced(rs, |rs| - 1);
      assert rs[|rs| - 1] in rs;
    }
    forall k | 0 <= k < n
      ensures k < |rs| && rs[k].globalIndex == k
    {
      AscendingIsDense(rs, k);
    }
    if n > 0 {
      AscendingIsDense(rs, n - 1);
    }
  }

  ghost predicate Complete(records: seq<Received>, total: nat) {
    forall i :: 0 <= i < total ==> HasIndex(records, i)
  }

  lemma CompleteIsAll(c: Codec, src: Source, records: seq<Received>)
    requires Honest(c, src, records) && Complete(ByGlobal(records), |AllRecords(c, src)|)
    ensures ByGlobal(records) == AllRecords(c, src)
  {
    hide ByGlobal, AllRecords, HasIndex;
    ByGlobalAscends(records);
    var all, rs := AllRecords(c, src), ByGlobal(records);
    AscendingComplete(rs, |all|);
    forall k | 0 <= k < |all|
      ensures rs[k] == all[k]
    {
      assert rs[k] in rs;
    }
  }

  // Grouping the records of a source gives the entries of its files.

  ghost predicate PathsBelow(files: seq<FileManifest>, path: string) {
    forall f :: f in files ==> LessText(f.relativePath, path)
  }

  lemma {:induction false} PutLastFile(files: seq<FileManifest>, file: FileManifest)
    requires PathsBelow(files, file.relativePath)
    ensures PutFile(files, file) == files + [file]
    ensures FileOf(files, file.relativePath) == FileManifest("", 0, 0x1a4, "", [])
  {
    if files == [] {
      assert files + [file] == [file];
    } else {
      assert files == [files[0]] + files[1..];
      TextIrreflexive(file.relativePath);
      PutLastFile(files[1..], file);
      ConcatAssociates([files[0]], files[1..], [file]);
    }
  }

  lemma {:induction false} ReplaceLastFile(files: seq<FileManifest>, was: FileManifest, file: FileManifest)
    requires PathsBelow(files, file.relativePath) && was.relativePath == file.relativePath
    ensures PutFile(files + [was], file) == files + [file]
    ensures FileOf(files + [was], file.relativePath) == was
    decreases |files|
  {
    TextIrreflexive(file.relativePath);
    if files == [] {
      assert files + [file] == [file] && files + [was] == [was] && [was][1..] == [];
      assert [file] + [] == [file];
    } else {
      assert files == [files[0]] + files[1..];
      ReplaceLastFile(files[1..], was, file);
      assert (files + [was])[1..] == files[1..] + [was];
      ConcatAssociates([files[0]], files[1..], [file]);
    }
  }

  /** The entry of a file whose first `k` chunks have been seen. */
  function PartialEntry(c: Codec, f: SourceFile, k: nat): FileManifest
    requires k <= |PiecesOf(Fixed, f.content)|
  {
    var e := Entry(c, Fixed, f);
    e.(chunks := e.chunks[..k])
  }

  lemma AddModulo(x: nat, y: nat)
    ensures (x % U64 + y) % U64 == (x + y) % U64
  {
  }

  lemma GroupFirst(c: Codec, files: seq<FileManifest>, g: Grouping, f: SourceFile, r: Received)
    requires g.files == files && PathsBelow(files, f.path) && f.path != ""
    requires r == RecordOf(ChunkOf(c, f, 0, PiecesOf(Fixed, f.content)[0], r.globalIndex))
    ensures Group(g, r).files == files + [PartialEntry(c, f, 1)]
    ensures Group(g, r).inputBytes == (g.inputBytes + |f.content|) % U64
  {
    hide PiecesOf, FileOf, PutFile, ObjectPath;
    PutLastFile(files, PartialEntry(c, f, 1));
    assert PartialEntry(c, f, 1).chunks == [RefOf(r)];
    assert [] + [RefOf(r)] == [RefOf(r)];
  }

  lemma GroupNext(c: Codec, files: seq<FileManifest>, g: Grouping, f: SourceFile, k: nat, r: Received)
    requires 0 < k < |PiecesOf(Fixed, f.content)|
    requires g.files == files + [PartialEntry(c, f, k)] && PathsBelow(files, f.path) && f.path != ""
    requires r == RecordOf(ChunkOf(c, f, k, PiecesOf(Fixed, f.content)[k], r.globalIndex))
    ensures Group(g, r).files == files + [PartialEntry(c, f, k + 1)]
    ensures Group(g, r).inputBytes == g.inputBytes
  {
    hide PiecesOf, FileOf, PutFile, ObjectPath;
    ReplaceLastFile(files, PartialEntry(c, f, k), PartialEntry(c, f, k + 1));
    assert PartialEntry(c, f, k + 1).chunks == PartialEntry(c, f, k).chunks + [RefOf(r)];
  }

  lemma {:induction false} GroupFile(c: Codec, before: seq<Received>, files: seq<FileManifest>, f: SourceFile, k: nat)
    requires GroupAll(before).files == files && PathsBelow(files, f.path) && f.path != ""
    requires 0 < k <= |PiecesOf(Fixed, f.content)|
    ensures var g := GroupAll(before + RecordsFor(FileChunks(c, f, |before|))[..k]);
            g.files == files + [PartialEntry(c, f, k)] && g.inputBytes == (GroupAll(before).inputBytes + |f.content|) % U64
  {
    hide PiecesOf, FileChunks, Group, ChunkOf, RecordOf, PartialEntry;
    var rs := RecordsFor(FileChunks(c, f, |before|));
    FileChunkAt(c, f, |before|, k - 1);
    RecordKeepsIndex(c, f, k - 1, PiecesOf(Fixed, f.content)[k - 1], |before| + k - 1);
    assert (before + rs[..k])[..|before| + k - 1] == before + rs[..k - 1];
    if k == 1 {
      assert before + rs[..0] == before;
      GroupFirst(c, files, GroupAll(before), f, rs[0]);
    } else {
      GroupFile(c, before, files, f, k - 1);
      GroupNext(c, files, GroupAll(before + rs[..k - 1]), f, k - 1, rs[k - 1]);
    }
  }

  lemma RecordKeepsIndex(c: Codec, f: SourceFile, k: nat, piece: Bytes, i: nat)
    ensures RecordOf(ChunkOf(c, f, k, piece, i)).globalIndex == i
  {
  }

  lemma {:induction false} GroupSource(c: Codec, src: Source)
    requires forall i, j :: 0 <= i < j < |src| ==> LessText(src[i].path, src[j].path)
    requires forall f :: f in src ==> f.path != ""
    ensures GroupAll(AllRecords(c, src)).files == Entries(c, Fixed, src)
    ensures GroupAll(AllRecords(c, src)).inputBytes == InputBytes(src) % U64
    decreases |src|
  {
    hide PiecesOf, FileChunks, Group, RecordOf, PartialEntry, LessText;
    if src != [] {
      var init, last := src[..|src| - 1], src[|src| - 1];
      var before, rs := AllRecords(c, init), RecordsFor(FileChunks(c, last, |PreparedChunks(c, init)|));
      assert src == init + [last];
      assert AllRecords(c, src) == before + rs by {
        PreparedLast(c, init, last);
      }
      GroupSource(c, init);
      assert PathsBelow(Entries(c, Fixed, init), last.path);
      GroupFile(c, before, Entries(c, Fixed, init), last, |rs|);
      assert rs[..|rs|] == rs;
      WholeEntry(c, last);
      assert Entries(c, Fixed, src) == Entries(c, Fixed, init) + [Entry(c, Fixed, last)];
      AddModulo(InputBytes(init), |last.content|);
    }
  }

  lemma WholeEntry(c: Codec, f: SourceFile)
    ensures PartialEntry(c, f, |PiecesOf(Fixed, f.content)|) == Entry(c, Fixed, f)
  {
    hide PiecesOf;
    var refs := Refs(c, PiecesOf(Fixed, f.content));
    assert refs[..|refs|] == refs;
  }

  lemma EntriesAreSorted(c: Codec, src: Source)
    ensures WithSortedChunks(Entries(c, Fixed, src)) == Entries(c, Fixed, src)
  {
    hide PiecesOf, Sort;
    var es := Entries(c, Fixed, src);
    forall i | 0 <= i < |es|
      ensures Sort(es[i].chunks, LessIndex) == es[i].chunks
    {
      SortOfSorted(es[i].chunks, LessIndex);
    }
  }

  // What a session stores.

  /** The bytes that a local fixed-size backup of the source stores in an empty repository, in 64 bits. */
  ghost function StoredAlone(c: Codec, src: Source): nat {
    StoredBytes(PutAll(c, map[], AllPieces(Fixed, src))) % U64
  }

  /** The records are those of these pieces, one for one. */
  ghost predicate RecordPieces(c: Codec, records: seq<Received>, pieces: seq<Bytes>) {
    && |records| == |pieces|
    && forall i :: 0 <= i < |records| ==>
         records[i].sha256 == c.hash(pieces[i]) && records[i].compressedSize == |c.compress(pieces[i])|
  }

  lemma {:induction false} AllRecordPieces(c: Codec, src: Source)
    ensures RecordPieces(c, AllRecords(c, src), AllPieces(Fixed, src))
    decreases |src|
  {
    hide PiecesOf, FileChunks;
    if src != [] {
      var init, last := src[..|src| - 1], src[|src| - 1];
      var from := |PreparedChunks(c, init)|;
      assert src == init + [last];
      AllRecordPieces(c, init);
      PreparedLast(c, init, last);
      AllPiecesLast(Fixed, init, last);
      forall k | 0 <= k < |PiecesOf(Fixed, last.content)|
        ensures FileChunks(c, last, from)[k] == ChunkOf(c, last, k, PiecesOf(Fixed, last.content)[k], from + k)
      {
        FileChunkAt(c, last, from, k);
      }
    }
  }

  lemma GroupStoresOne(c: Codec, g: Grouping, objects: Objects, r: Received, x: Bytes)
    requires g.seen == objects.Keys && g.storedBytes == StoredBytes(objects) % U64
    requires r.sha256 == c.hash(x) && r.compressedSize == |c.compress(x)|
    ensures Group(g, r).seen == WithObject(c, objects, x).Keys
    ensures Group(g, r).storedBytes == StoredBytes(WithObject(c, objects, x)) % U64
  {
    hide StoredBytes, FileOf, PutFile;
    if r.sha256 !in objects {
      StoredBytesWith(objects, r.sha256, c.compress(x));
      AddModulo(StoredBytes(objects), r.compressedSize);
    } else {
      assert g.seen + {r.sha256} == g.seen;
    }
  }

  /** Every digest is counted once, with the size of its object. */
  lemma {:induction false} GroupStores(c: Codec, records: seq<Received>, pieces: seq<Bytes>)
    requires RecordPieces(c, records, pieces)
    ensures GroupAll(records).seen == PutAll(c, map[], pieces).Keys
    ensures GroupAll(records).storedBytes == StoredBytes(PutAll(c, map[], pieces)) % U64
    decreases |records|
  {
    hide StoredBytes, Group, WithObject;
    if records == [] {
      assert StoredBytes(map[]) == 0 by { NothingStored(); }
    } else {
      var n := |records| - 1;
      GroupStores(c, records[..n], pieces[..n]);
      GroupStoresOne(c, GroupAll(records[..n]), PutAll(c, map[], pieces[..n]), records[n], pieces[n]);
    }
  }

  lemma NothingStored()
    ensures StoredBytes(map[]) == 0
  {
  }

  /** The manifest of a complete session. */
  ghost function SessionManifestOf(c: Codec, src: Source, sessionId: string, version: nat, now: nat): Manifest {
    Manifest(version, now, Fixed, "network-session:" + sessionId, InputBytes(src) % U64, StoredAlone(c, src), Entries(c, Fixed, src))
  }

  /**
   * Whatever chunks of a source a session holds, in whatever order they came: building its manifest
   * succeeds exactly when none is missing. It then has the file list, the input total and the stored total of a
   * local fixed-size backup of the source into an empty repository.
   */
  lemma SessionMatchesLocal(c: Codec, src: Source, records: seq<Received>, sessionId: string, version: nat, now: nat)
    requires ValidSource(c, src) && Honest(c, src, records)
    ensures BuildManifest(records, sessionId, version, |PreparedChunks(c, src)|, now)
         == if forall r :: r in AllRecords(c, src) ==> r in records then Some(SessionManifestOf(c, src, sessionId, version, now))
            else None
  {
    hide ByGlobal, AllRecords, HasIndex, GroupAll, WithSortedChunks, Entries, ValidFile, PutAll, StoredBytes, AllPieces;
    var all := AllRecords(c, src);
    ByGlobalAscends(records);
    if Complete(ByGlobal(records), |all|) {
      CompleteIsAll(c, src, records);
      forall f | f in src
        ensures f.path != ""
      {
        ValidFileHasPath(c, f);
      }
      GroupSource(c, src);
      EntriesAreSorted(c, src);
      AllRecordPieces(c, src);
      GroupStores(c, all, AllPieces(Fixed, src));
    } else {
      var i :| 0 <= i < |all| && !HasIndex(ByGlobal(records), i);
      AllRecordsAt(c, src, i);
      assert all[i] in all && all[i] !in records;
    }
  }

  lemma ValidFileHasPath(c: Codec, f: SourceFile)
    requires ValidFile(c, f)
    ensures f.path != "" && Safe(f.path)
  {
    hide SafeRelativePath;
    PlainPathKept(f.path);
    SafeIsNotEmpty(f.path);
  }
}
