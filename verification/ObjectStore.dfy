/** Content-addressed objects, and the two readers of a manifest: restore and verify. */
module ObjectStore {
  import opened Wrappers
  import opened Slices
  import opened Bytes
  import opened Text
  import opened Paths
  import opened Manifest
  import opened Chunkers
  import opened FileTree

  /**
   * SHA-256 and zstd, as parameters: `hash` yields hex digests, `decompress` may fail. `inPlay` marks the
   * chunk contents that ever occur; the hash is only assumed to be free of collisions on those.
   */
  datatype Codec = Codec(
    hash: Bytes -> string, compress: Bytes -> Bytes, decompress: Bytes -> Option<Bytes>, inPlay: Bytes -> bool)
  {
    ghost predicate Sound() {
      && (forall x :: Sha256Hex(hash(x)))
      && (forall x :: inPlay(x) ==> decompress(compress(x)) == Some(x) && |compress(x)| < U64 && |x| < U64)
      && (forall x, y :: inPlay(x) && inPlay(y) && hash(x) == hash(y) ==> x == y)
    }
  }

  /** Compressed contents by digest; the file of a digest is `ObjectPath(digest)`. */
  type Objects = map<string, Bytes>

  function ObjectPath(sha: string): string {
    "objects/" + (if |sha| < 2 then sha else sha[..2]) + "/" + sha + ".zst"
  }

  lemma ObjectPathInjective(a: string, b: string)
    requires Sha256Hex(a) && Sha256Hex(b) && ObjectPath(a) == ObjectPath(b)
    ensures a == b
  {
    var x, y := ObjectPath(a), ObjectPath(b);
    assert x[11..|x| - 4] == a && y[11..|y| - 4] == b;
  }

  lemma ObjectPathSafe(sha: string)
    requires Sha256Hex(sha)
    ensures Safe(ObjectPath(sha)) && Octets(ObjectPath(sha))
  {
    hide ObjectPath, Parts, Normalise, IsName;
    var parts := ["objects", sha[..2], sha + ".zst"];
    ObjectPathChars(sha);
    ObjectPathParts(sha);
    NormaliseNames(parts, []);
    assert [] + parts == parts;
  }

  lemma ObjectPathChars(sha: string)
    requires Sha256Hex(sha)
    ensures |sha| == 64 && Octets(ObjectPath(sha)) && '\0' !in ObjectPath(sha)
    ensures ObjectPath(sha) != "" && ObjectPath(sha)[0] != '/'
    ensures IsName("objects") && IsName(sha[..2]) && IsName(sha + ".zst")
  {
    HexHasNoSlash(sha);
    var path := ObjectPath(sha);
    assert forall i :: 0 <= i < |path| ==> path[i] != '\0' && path[i] as int < 256;
  }

  lemma ObjectPathParts(sha: string)
    requires Sha256Hex(sha)
    ensures Parts(ObjectPath(sha)) == ["objects", sha[..2], sha + ".zst"]
  {
    hide Parts;
    HexHasNoSlash(sha);
    var file := sha + ".zst";
    assert ObjectPath(sha) == "objects" + "/" + (sha[..2] + "/" + file);
    PartsFirst("objects", sha[..2] + "/" + file);
    PartsFirst(sha[..2], file);
    PartsLast(file);
  }

  lemma HexHasNoSlash(s: string)
    requires AllHex(s)
    ensures forall i :: 0 <= i < |s| ==> s[i] != '/' && s[i] != '.' && s[i] != '\0' && s[i] as int < 256
  {
    forall i | 0 <= i < |s|
      ensures s[i] != '/' && s[i] != '.' && s[i] != '\0' && s[i] as int < 256
    {
      assert Nibble(s[i]).Some?;
    }
  }

  // Reading and writing objects.

  function ReadRaw(c: Codec, objects: Objects, sha: string, path: string): Option<Bytes> {
    if !Sha256Hex(sha) || path != ObjectPath(sha) || sha !in objects then None
    else
      var raw :- c.decompress(objects[sha]);
      if c.hash(raw) != sha then None else Some(raw)
  }

  datatype PutResult = PutResult(sha256: string, objectPath: string, rawSize: nat, compressedSize: nat, inserted: bool)

  /** `putCompressed`: an object that exists is checked and left alone, otherwise it is written. */
  function PutCompressed(c: Codec, objects: Objects, sha: string, compressed: Bytes, rawSize: nat): Option<PutResult> {
    if !Sha256Hex(sha) then None
    else if sha in objects then
      var raw :- ReadRaw(c, objects, sha, ObjectPath(sha));
      if |raw| != rawSize then None
      else Some(PutResult(sha, ObjectPath(sha), rawSize, |objects[sha]|, false))
    else Some(PutResult(sha, ObjectPath(sha), rawSize, |compressed|, true))
  }

  /** Every object is the compressed form of contents in play that have its digest. */
  ghost predicate ValidObjects(c: Codec, objects: Objects) {
    forall sha :: sha in objects ==> exists x :: ObjectOf(c, sha, objects[sha], x)
  }

  ghost predicate ObjectOf(c: Codec, sha: string, stored: Bytes, x: Bytes) {
    c.inPlay(x) && c.hash(x) == sha && stored == c.compress(x)
  }

  lemma ObjectIsCompressed(c: Codec, objects: Objects, x: Bytes)
    requires c.Sound() && ValidObjects(c, objects) && c.inPlay(x) && c.hash(x) in objects
    ensures objects[c.hash(x)] == c.compress(x)
    ensures ReadRaw(c, objects, c.hash(x), ObjectPath(c.hash(x))) == Some(x)
  {
    var y :| ObjectOf(c, c.hash(x), objects[c.hash(x)], y);
  }

  /** Putting contents in play always succeeds, with the same answer whether or not they were there. */
  lemma PutSucceeds(c: Codec, objects: Objects, x: Bytes)
    requires c.Sound() && ValidObjects(c, objects) && c.inPlay(x)
    ensures var put := PutCompressed(c, objects, c.hash(x), c.compress(x), |x|);
            put == Some(PutResult(c.hash(x), ObjectPath(c.hash(x)), |x|, |c.compress(x)|, c.hash(x) !in objects))
    ensures ValidObjects(c, objects[c.hash(x) := c.compress(x)])
  {
    if c.hash(x) in objects {
      ObjectIsCompressed(c, objects, x);
    }
    assert ObjectOf(c, c.hash(x), c.compress(x), x);
    var after := objects[c.hash(x) := c.compress(x)];
    forall sha | sha in after
      ensures exists y :: ObjectOf(c, sha, after[sha], y)
    {
      if sha != c.hash(x) {
        assert sha in objects && after[sha] == objects[sha];
      }
    }
  }

  /** The objects after putting some contents. */
  function WithObject(c: Codec, objects: Objects, x: Bytes): Objects {
    if c.hash(x) in objects then objects else objects[c.hash(x) := c.compress(x)]
  }

  /** The objects after putting these pieces one after the other. */
  function PutAll(c: Codec, objects: Objects, pieces: seq<Bytes>): Objects {
    if pieces == [] then objects
    else WithObject(c, PutAll(c, objects, pieces[..|pieces| - 1]), pieces[|pieces| - 1])
  }

  lemma PutAllLast(c: Codec, objects: Objects, pieces: seq<Bytes>, x: Bytes)
    ensures PutAll(c, objects, pieces + [x]) == WithObject(c, PutAll(c, objects, pieces), x)
  {
    assert (pieces + [x])[..|pieces|] == pieces;
  }

  // Counting what is stored.

  ghost function StoredBytes(objects: Objects): nat
    decreases |objects|
  {
    if objects == map[] then 0
    else
      var sha :| sha in objects;
      |objects[sha]| + StoredBytes(objects - {sha})
  }

  lemma {:induction false} StoredBytesWithout(objects: Objects, sha: string)
    requires sha in objects
    ensures StoredBytes(objects) == |objects[sha]| + StoredBytes(objects - {sha})
    decreases |objects|
  {
    var first :| first in objects && StoredBytes(objects) == |objects[first]| + StoredBytes(objects - {first});
    if first != sha {
      StoredBytesWithout(objects - {first}, sha);
      StoredBytesWithout(objects - {sha}, first);
      assert (objects - {first}) - {sha} == (objects - {sha}) - {first};
    }
  }

  lemma StoredBytesWith(objects: Objects, sha: string, data: Bytes)
    requires sha !in objects
    ensures StoredBytes(objects[sha := data]) == StoredBytes(objects) + |data|
    ensures |objects[sha := data]| == |objects| + 1
  {
    var after := objects[sha := data];
    assert after.Keys == objects.Keys + {sha} && |after.Keys| == |objects.Keys| + 1;
    StoredBytesWithout(after, sha);
    assert after - {sha} == objects;
  }

  method Stats(objects: Objects) returns (objectCount: nat, storedBytes: nat)
    ensures objectCount == |objects| && storedBytes == StoredBytes(objects)
  {
    objectCount, storedBytes := 0, 0;
    var entries := objects;
    while entries != map[]
      invariant entries.Keys <= objects.Keys && forall sha :: sha in entries ==> entries[sha] == objects[sha]
      invariant objectCount + |entries| == |objects|
      invariant storedBytes + StoredBytes(entries) == StoredBytes(objects)
      decreases |entries|
    {
      var sha :| sha in entries;
      StoredBytesWithout(entries, sha);
      objectCount := objectCount + 1;
      storedBytes := storedBytes + |entries[sha]|;
      entries := entries - {sha};
    }
  }

  // Restoring.

  /** One file to write: where, whether the path ends in a name, and what. */
  datatype RestoredFile = RestoredFile(path: Path, named: bool, file: File)

  function Assemble(c: Codec, objects: Objects, chunks: seq<ChunkRef>): Option<Bytes> {
    if chunks == [] then Some([])
    else
      var raw :- ReadRaw(c, objects, chunks[0].sha256, chunks[0].objectPath);
      if |raw| != chunks[0].rawSize then None
      else
        var rest :- Assemble(c, objects, chunks[1..]);
        Some(raw + rest)
  }

  /** The content checks of a restore of one file. */
  function FileContent(c: Codec, objects: Objects, f: FileManifest): Option<Bytes> {
    var content :- Assemble(c, objects, f.chunks);
    if |content| != f.fileSize || c.hash(content) != f.fileSha256 then None else Some(content)
  }

  function RestoreFile(c: Codec, objects: Objects, f: FileManifest): (r: Option<RestoredFile>)
    ensures r.Some? ==> r.value.path != []
  {
    var content :- FileContent(c, objects, f);
    var path :- SafeRelativePath(f.relativePath);
    Some(RestoredFile(path, EndsInName(f.relativePath), File(f.fileMode, content)))
  }

  /** The target directory afterwards, and whether all files were written. */
  function RestoreFiles(c: Codec, objects: Objects, fs: seq<FileManifest>, t: Tree): (Tree, bool) {
    if fs == [] then (t, true)
    else
      var first := RestoreFile(c, objects, fs[0]);
      if first.None? then (t, false)
      else
        var (after, ok) := WriteFile(t, first.value.path, first.value.named, first.value.file);
        if ok then RestoreFiles(c, objects, fs[1..], after) else (after, false)
  }

  method Restore(c: Codec, objects: Objects, m: Manifest, target: Tree) returns (tree: Tree, ok: bool)
    ensures (tree, ok) == RestoreFiles(c, objects, m.files, target)
  {
    hide FileContent, WriteFile, SafeRelativePath, EndsInName;
    tree := target;
    assert m.files[0..] == m.files;
    for i := 0 to |m.files|
      invariant RestoreFiles(c, objects, m.files, target) == RestoreFiles(c, objects, m.files[i..], tree)
    {
      var file := m.files[i];
      assert m.files[i..][1..] == m.files[i + 1..];
      var content := RestoreContent(c, objects, file);
      if content.None? {
        return tree, false;
      }
      var path := SafeRelativePath(file.relativePath);
      if path.None? {
        return tree, false;
      }
      var (after, written) := WriteFile(tree, path.value, EndsInName(file.relativePath), File(file.fileMode, content.value));
      tree := after;
      if !written {
        return tree, false;
      }
    }
    return tree, true;
  }

  method RestoreContent(c: Codec, objects: Objects, file: FileManifest) returns (result: Option<Bytes>)
    ensures result == FileContent(c, objects, file)
  {
    hide ReadRaw;
    var assembled: Bytes := [];
    assert file.chunks[0..] == file.chunks;
    PrependNothing(Assemble(c, objects, file.chunks));
    for j := 0 to |file.chunks|
      invariant Assemble(c, objects, file.chunks) == PrependBytes(assembled, Assemble(c, objects, file.chunks[j..]))
    {
      var chunk := file.chunks[j];
      assert file.chunks[j..][1..] == file.chunks[j + 1..];
      var raw := ReadRaw(c, objects, chunk.sha256, chunk.objectPath);
      if raw.None? {
        return None;
      }
      if |raw.value| != chunk.rawSize {
        return None;
      }
      PrependConcat(assembled, raw.value, Assemble(c, objects, file.chunks[j + 1..]));
      assembled := assembled + raw.value;
    }
    assert assembled + [] == assembled;
    if |assembled| != file.fileSize {
      return None;
    }
    if c.hash(assembled) != file.fileSha256 {
      return None;
    }
    return Some(assembled);
  }

  ghost function PrependBytes(done: Bytes, rest: Option<Bytes>): Option<Bytes> {
    if rest.Some? then Some(done + rest.value) else None
  }

  lemma PrependNothing(rest: Option<Bytes>)
    ensures PrependBytes([], rest) == rest
  {
    if rest.Some? {
      assert [] + rest.value == rest.value;
    }
  }

  lemma PrependConcat(done: Bytes, more: Bytes, rest: Option<Bytes>)
    ensures PrependBytes(done, PrependBytes(more, rest)) == PrependBytes(done + more, rest)
  {
    if rest.Some? {
      ConcatAssociates(done, more, rest.value);
    }
  }

  // Verifying: nothing is assembled, sizes are added up and the digest is computed on the fly.

  /** A SHA-256 context: what has been fed to it so far, and whether the digest was taken. */
  class Sha256 {
    var absorbed: Bytes
    var finalized: bool

    constructor ()
      ensures absorbed == [] && !finalized
    {
      absorbed, finalized := [], false;
    }

    method Update(data: Bytes)
      requires !finalized
      modifies this
      ensures absorbed == old(absorbed) + data && !finalized
    {
      absorbed := absorbed + data;
    }

    method FinalHex(c: Codec) returns (digest: string)
      requires !finalized
      modifies this
      ensures digest == c.hash(absorbed) && absorbed == old(absorbed) && finalized
    {
      finalized := true;
      digest := c.hash(absorbed);
    }
  }

  /** Verification of one file: every chunk reads back with its size and digest, and so does the whole. */
  ghost predicate FileVerifies(c: Codec, objects: Objects, f: FileManifest) {
    && AllVerify(c, objects, f.chunks)
    && TotalSize(c, objects, f.chunks) == f.fileSize
    && c.hash(Stream(c, objects, f.chunks)) == f.fileSha256
  }

  ghost predicate AllVerify(c: Codec, objects: Objects, chunks: seq<ChunkRef>) {
    forall i :: 0 <= i < |chunks| ==> ChunkVerifies(c, objects, chunks[i])
  }

  ghost predicate ChunkVerifies(c: Codec, objects: Objects, chunk: ChunkRef) {
    var raw := ReadRaw(c, objects, chunk.sha256, chunk.objectPath);
    raw.Some? && |raw.value| == chunk.rawSize && c.hash(raw.value) == chunk.sha256
  }

  ghost function ChunkBytes(c: Codec, objects: Objects, chunk: ChunkRef): Bytes {
    var raw := ReadRaw(c, objects, chunk.sha256, chunk.objectPath);
    if raw.Some? then raw.value else []
  }

  /** What is fed to the digest, chunk after chunk. */
  ghost function Stream(c: Codec, objects: Objects, chunks: seq<ChunkRef>): Bytes {
    if chunks == [] then []
    else Stream(c, objects, chunks[..|chunks| - 1]) + ChunkBytes(c, objects, chunks[|chunks| - 1])
  }

  ghost function TotalSize(c: Codec, objects: Objects, chunks: seq<ChunkRef>): nat {
    if chunks == [] then 0
    else TotalSize(c, objects, chunks[..|chunks| - 1]) + |ChunkBytes(c, objects, chunks[|chunks| - 1])|
  }

  ghost predicate Verifies(c: Codec, objects: Objects, fs: seq<FileManifest>) {
    forall f :: f in fs ==> FileVerifies(c, objects, f)
  }

  method Verify(c: Codec, objects: Objects, m: Manifest) returns (ok: bool)
    ensures ok <==> Verifies(c, objects, m.files)
  {
    hide FileVerifies;
    for i := 0 to |m.files|
      invariant Verifies(c, objects, m.files[..i])
    {
      var fileOk := VerifyFile(c, objects, m.files[i]);
      if !fileOk {
        assert m.files[i] in m.files;
        return false;
      }
      assert m.files[..i + 1] == m.files[..i] + [m.files[i]];
    }
    assert m.files[..|m.files|] == m.files;
    return true;
  }

  method VerifyFile(c: Codec, objects: Objects, file: FileManifest) returns (ok: bool)
    ensures ok <==> FileVerifies(c, objects, file)
  {
    hide ReadRaw;
    var fileHash := new Sha256();
    var actualSize := 0;
    for j := 0 to |file.chunks|
      invariant !fileHash.finalized && fresh(fileHash)
      invariant forall i :: 0 <= i < j ==> ChunkVerifies(c, objects, file.chunks[i])
      invariant actualSize == TotalSize(c, objects, file.chunks[..j])
      invariant fileHash.absorbed == Stream(c, objects, file.chunks[..j])
    {
      var chunk := file.chunks[j];
      var raw := ReadRaw(c, objects, chunk.sha256, chunk.objectPath);
      assert !ChunkVerifies(c, objects, chunk) ==> !FileVerifies(c, objects, file);
      if raw.None? {
        return false;
      }
      if |raw.value| != chunk.rawSize {
        return false;
      }
      var chunkSha := c.hash(raw.value);
      if chunkSha != chunk.sha256 {
        return false;
      }
      assert file.chunks[..j + 1][..j] == file.chunks[..j];
      fileHash.Update(raw.value);
      actualSize := actualSize + |raw.value|;
    }
    assert file.chunks[..|file.chunks|] == file.chunks;
    if actualSize != file.fileSize {
      return false;
    }
    var actualFileHash := fileHash.FinalHex(c);
    return actualFileHash == file.fileSha256;
  }

  /** The streamed size and contents are those of the assembled bytes. */
  lemma {:induction false} StreamIsAssembled(c: Codec, objects: Objects, chunks: seq<ChunkRef>)
    ensures TotalSize(c, objects, chunks) == |Stream(c, objects, chunks)|
    ensures Assemble(c, objects, chunks)
         == if AllVerify(c, objects, chunks) then Some(Stream(c, objects, chunks)) else None
    decreases |chunks|
  {
    hide ReadRaw, AllVerify, ChunkVerifies;
    if chunks == [] {
      assert AllVerify(c, objects, []) by { NothingToVerify(c, objects); }
    } else {
      var init, last := chunks[..|chunks| - 1], chunks[|chunks| - 1];
      assert chunks == init + [last];
      StreamIsAssembled(c, objects, init);
      AssembleLast(c, objects, init, last);
      ChunkVerifiesIff(c, objects, last);
      VerifyLast(c, objects, init, last);
    }
  }

  lemma NothingToVerify(c: Codec, objects: Objects)
    ensures AllVerify(c, objects, [])
  {
  }

  lemma VerifyLast(c: Codec, objects: Objects, init: seq<ChunkRef>, last: ChunkRef)
    ensures AllVerify(c, objects, init + [last]) <==> AllVerify(c, objects, init) && ChunkVerifies(c, objects, last)
  {
    hide ChunkVerifies;
    var chunks := init + [last];
    assert chunks[|init|] == last && forall i :: 0 <= i < |init| ==> chunks[i] == init[i];
  }

  lemma ChunkVerifiesIff(c: Codec, objects: Objects, chunk: ChunkRef)
    ensures var raw := ReadRaw(c, objects, chunk.sha256, chunk.objectPath);
            ChunkVerifies(c, objects, chunk) <==> raw.Some? && |raw.value| == chunk.rawSize
  {
  }

  lemma {:induction false} AssembleLast(c: Codec, objects: Objects, chunks: seq<ChunkRef>, last: ChunkRef)
    ensures var init, raw := Assemble(c, objects, chunks), ReadRaw(c, objects, last.sha256, last.objectPath);
            Assemble(c, objects, chunks + [last])
            == if init.Some? && raw.Some? && |raw.value| == last.rawSize then Some(init.value + raw.value) else None
  {
    hide ReadRaw;
    if chunks == [] {
      assert chunks + [last] == [last] && [last][1..] == [];
      var raw := ReadRaw(c, objects, last.sha256, last.objectPath);
      if raw.Some? {
        assert raw.value + [] == raw.value && [] + raw.value == raw.value;
      }
    } else {
      assert (chunks + [last])[1..] == chunks[1..] + [last];
      AssembleLast(c, objects, chunks[1..], last);
      var first := ReadRaw(c, objects, chunks[0].sha256, chunks[0].objectPath);
      var rest, raw := Assemble(c, objects, chunks[1..]), ReadRaw(c, objects, last.sha256, last.objectPath);
      if first.Some? && rest.Some? && raw.Some? {
        ConcatAssociates(first.value, rest.value, raw.value);
      }
    }
  }

  /** Verification of a file passes exactly when the content checks of its restore do. */
  lemma FileVerifiesIffRestores(c: Codec, objects: Objects, f: FileManifest)
    ensures FileVerifies(c, objects, f) <==> FileContent(c, objects, f).Some?
  {
    hide Assemble, Stream, TotalSize, AllVerify;
    StreamIsAssembled(c, objects, f.chunks);
  }

  // What a file must be to be accepted by both programs.

  /** The chunk's object is at its own path, decompresses to `piece`, and that has the chunk's digest and size. */
  ghost predicate IntactChunk(c: Codec, objects: Objects, chunk: ChunkRef, piece: Bytes) {
    && Sha256Hex(chunk.sha256)
    && chunk.objectPath == "objects/" + chunk.sha256[..2] + "/" + chunk.sha256 + ".zst"
    && chunk.sha256 in objects && c.decompress(objects[chunk.sha256]) == Some(piece)
    && c.hash(piece) == chunk.sha256 && |piece| == chunk.rawSize
  }

  ghost predicate IntactChunks(c: Codec, objects: Objects, chunks: seq<ChunkRef>, pieces: seq<Bytes>) {
    |pieces| == |chunks| && forall i :: 0 <= i < |chunks| ==> IntactChunk(c, objects, chunks[i], pieces[i])
  }

  /** All chunks are intact, and together they have the file's size and digest. */
  ghost predicate IntactFile(c: Codec, objects: Objects, f: FileManifest, content: Bytes) {
    && (exists pieces :: IntactChunks(c, objects, f.chunks, pieces) && content == Joined(pieces))
    && |content| == f.fileSize && c.hash(content) == f.fileSha256
  }

  lemma ReadRawIff(c: Codec, objects: Objects, chunk: ChunkRef, piece: Bytes)
    ensures ReadRaw(c, objects, chunk.sha256, chunk.objectPath) == Some(piece) && |piece| == chunk.rawSize
            <==> IntactChunk(c, objects, chunk, piece)
  {
  }

  lemma IntactFirst(c: Codec, objects: Objects, chunks: seq<ChunkRef>, first: Bytes, rest: seq<Bytes>)
    requires chunks != []
    ensures IntactChunks(c, objects, chunks, [first] + rest)
            <==> IntactChunk(c, objects, chunks[0], first) && IntactChunks(c, objects, chunks[1..], rest)
  {
    hide IntactChunk;
    var pieces := [first] + rest;
    if IntactChunks(c, objects, chunks, pieces) {
      assert IntactChunk(c, objects, chunks[0], pieces[0]);
      forall i | 0 <= i < |rest|
        ensures IntactChunk(c, objects, chunks[1..][i], rest[i])
      {
        assert IntactChunk(c, objects, chunks[i + 1], pieces[i + 1]);
      }
    }
  }

  lemma {:induction false} AssembledIsIntact(c: Codec, objects: Objects, chunks: seq<ChunkRef>) returns (pieces: seq<Bytes>)
    requires Assemble(c, objects, chunks).Some?
    ensures IntactChunks(c, objects, chunks, pieces) && Assemble(c, objects, chunks).value == Joined(pieces)
  {
    hide ReadRaw, IntactChunk, IntactChunks;
    if chunks == [] {
      pieces := [];
      NothingIntact(c, objects);
    } else {
      var raw := ReadRaw(c, objects, chunks[0].sha256, chunks[0].objectPath).value;
      var rest := AssembledIsIntact(c, objects, chunks[1..]);
      ReadRawIff(c, objects, chunks[0], raw);
      IntactFirst(c, objects, chunks, raw, rest);
      pieces := [raw] + rest;
    }
  }

  lemma NothingIntact(c: Codec, objects: Objects)
    ensures IntactChunks(c, objects, [], [])
  {
  }

  lemma {:induction false} IntactIsAssembled(c: Codec, objects: Objects, chunks: seq<ChunkRef>, pieces: seq<Bytes>)
    requires IntactChunks(c, objects, chunks, pieces)
    ensures Assemble(c, objects, chunks) == Some(Joined(pieces))
    decreases |chunks|
  {
    hide ReadRaw, IntactChunk;
    if chunks != [] {
      assert pieces == [pieces[0]] + pieces[1..];
      IntactFirst(c, objects, chunks, pieces[0], pieces[1..]);
      ReadRawIff(c, objects, chunks[0], pieces[0]);
      IntactIsAssembled(c, objects, chunks[1..], pieces[1..]);
    }
  }

  /** For every store, damaged or not: exactly an intact file has contents to restore. */
  lemma ContentIff(c: Codec, objects: Objects, f: FileManifest, content: Bytes)
    ensures FileContent(c, objects, f) == Some(content) <==> IntactFile(c, objects, f, content)
  {
    hide Assemble, IntactChunks, Joined;
    if Assemble(c, objects, f.chunks).Some? {
      var pieces := AssembledIsIntact(c, objects, f.chunks);
    }
    forall pieces | IntactChunks(c, objects, f.chunks, pieces)
      ensures Assemble(c, objects, f.chunks) == Some(Joined(pieces))
    {
      IntactIsAssembled(c, objects, f.chunks, pieces);
    }
  }

  // What a restore writes.

  function TargetOf(f: FileManifest): Path {
    var path := SafeRelativePath(f.relativePath);
    if path.Some? then path.value else []
  }

  /** The last of the files with this target. */
  ghost predicate LastAt(fs: seq<FileManifest>, i: nat, p: Path)
    requires i < |fs|
  {
    TargetOf(fs[i]) == p && forall j :: i < j < |fs| ==> TargetOf(fs[j]) != p
  }

  ghost predicate WrittenAt(c: Codec, objects: Objects, fs: seq<FileManifest>, i: nat, file: File)
    requires i < |fs|
  {
    file.mode == fs[i].fileMode && IntactFile(c, objects, fs[i], file.content)
  }

  /**
   * The tree `after` is `t` with exactly these files in it, each with its mode and intact contents, and with the
   * directories above them.
   */
  ghost predicate Wrote(c: Codec, objects: Objects, fs: seq<FileManifest>, t: Tree, after: Tree) {
    && (forall p, i :: 0 <= i < |fs| && LastAt(fs, i, p) ==>
          p in after.files && WrittenAt(c, objects, fs, i, after.files[p]))
    && (forall p :: (forall i :: 0 <= i < |fs| ==> TargetOf(fs[i]) != p) ==>
          (p in after.files <==> p in t.files) && (p in t.files ==> after.files[p] == t.files[p]))
    && (forall d :: d in after.dirs <==> d in t.dirs || exists f :: f in fs && d in Above(TargetOf(f)))
  }

  // When a restore succeeds.

  /**
   * The files can be written below `t`: every path is safe and ends in a name, is free in `t`, and none is a
   * directory of another.
   */
  ghost predicate PathsFit(t: Tree, fs: seq<FileManifest>) {
    && (forall f :: f in fs ==> Safe(f.relativePath) && EndsInName(f.relativePath) && Free(t, TargetOf(f)))
    && (forall f, g :: f in fs && g in fs ==> !(TargetOf(f) < TargetOf(g)))
  }

  lemma FreeAfter(t: Tree, p: Path, file: File, q: Path)
    requires q != [] && p != []
    ensures var after := Tree(t.files[p := file], t.dirs + Above(p));
            Free(after, q) <==> Free(t, q) && !(q < p) && !(p < q)
  {
    hide Above;
    AboveIsPrefix(p, q);
    AboveIsPrefix(q, p);
  }

  lemma PathsFitFirst(t: Tree, f: FileManifest, rest: seq<FileManifest>, file: File)
    requires Safe(f.relativePath) && EndsInName(f.relativePath) && Free(t, TargetOf(f))
    ensures var p := TargetOf(f);
            PathsFit(t, [f] + rest) <==> PathsFit(Tree(t.files[p := file], t.dirs + Above(p)), rest)
  {
    hide SafeRelativePath, EndsInName, Free, Above;
    var p, all := TargetOf(f), [f] + rest;
    var after := Tree(t.files[p := file], t.dirs + Above(p));
    forall g | g in rest && Safe(g.relativePath)
      ensures Free(after, TargetOf(g)) <==> Free(t, TargetOf(g)) && !(TargetOf(g) < p) && !(p < TargetOf(g))
    {
      FreeAfter(t, p, file, TargetOf(g));
    }
    assert f in all && forall g :: g in all <==> g == f || g in rest;
  }

  /**
   * For every manifest, every store and every target directory: a restore succeeds iff verification does and
   * the paths fit into the directory.
   */
  lemma {:induction false} RestoreIffVerify(c: Codec, objects: Objects, fs: seq<FileManifest>, t: Tree)
    ensures RestoreFiles(c, objects, fs, t).1 <==> Verifies(c, objects, fs) && PathsFit(t, fs)
    decreases |fs|
  {
    hide FileContent, FileVerifies, WriteFile, SafeRelativePath, EndsInName, Free, Above, PathsFit;
    if fs == [] {
      NothingFits(t);
    } else {
      var f, rest := fs[0], fs[1..];
      assert fs == [f] + rest;
      FileVerifiesIffRestores(c, objects, f);
      var first := RestoreFile(c, objects, f);
      if first.Some? {
        WriteFileIff(t, first.value.path, first.value.named, first.value.file);
        var (after, ok) := WriteFile(t, first.value.path, first.value.named, first.value.file);
        if ok {
          PathsFitFirst(t, f, rest, first.value.file);
          RestoreIffVerify(c, objects, rest, after);
        } else {
          FirstFits(t, f, rest);
        }
      } else {
        FirstFits(t, f, rest);
      }
    }
  }

  lemma NothingFits(t: Tree)
    ensures PathsFit(t, [])
  {
  }

  lemma FirstFits(t: Tree, f: FileManifest, rest: seq<FileManifest>)
    ensures PathsFit(t, [f] + rest) ==> Safe(f.relativePath) && EndsInName(f.relativePath) && Free(t, TargetOf(f))
  {
    hide SafeRelativePath, EndsInName, Free;
    assert f in [f] + rest;
  }

  lemma {:induction false} RestoreWrites(c: Codec, objects: Objects, fs: seq<FileManifest>, t: Tree)
    requires RestoreFiles(c, objects, fs, t).1
    ensures Wrote(c, objects, fs, t, RestoreFiles(c, objects, fs, t).0)
    decreases |fs|
  {
    hide FileContent, WriteFile, SafeRelativePath, EndsInName, Above, IntactFile;
    if fs != [] {
      var first := RestoreFile(c, objects, fs[0]).value;
      WriteFileIff(t, first.path, first.named, first.file);
      ContentIff(c, objects, fs[0], first.file.content);
      var after := WriteFile(t, first.path, first.named, first.file).0;
      RestoreWrites(c, objects, fs[1..], after);
      WroteFirst(c, objects, fs, t, first.file, RestoreFiles(c, objects, fs, t).0);
    }
  }

  lemma WroteFirst(c: Codec, objects: Objects, fs: seq<FileManifest>, t: Tree, file: File, after: Tree)
    requires fs != [] && WrittenAt(c, objects, fs, 0, file)
    requires Wrote(c, objects, fs[1..], Tree(t.files[TargetOf(fs[0]) := file], t.dirs + Above(TargetOf(fs[0]))), after)
    ensures Wrote(c, objects, fs, t, after)
  {
    hide SafeRelativePath, Above, IntactFile, TargetOf;
    var q, rest := TargetOf(fs[0]), fs[1..];
    assert fs == [fs[0]] + rest;
    forall p, i | 0 <= i < |fs| && LastAt(fs, i, p)
      ensures p in after.files && WrittenAt(c, objects, fs, i, after.files[p])
    {
      if i > 0 {
        assert LastAt(rest, i - 1, p);
      } else {
        assert forall j :: 0 <= j < |rest| ==> TargetOf(rest[j]) != p;
      }
    }
    forall p | forall i :: 0 <= i < |fs| ==> TargetOf(fs[i]) != p
      ensures (p in after.files <==> p in t.files) && (p in t.files ==> after.files[p] == t.files[p])
    {
      assert forall j :: 0 <= j < |rest| ==> TargetOf(rest[j]) != p;
      assert TargetOf(fs[0]) != p;
    }
  }

  /** The same in terms of the files themselves: restoring needs intact files and room for their paths. */
  lemma RestoreIffIntact(c: Codec, objects: Objects, fs: seq<FileManifest>, t: Tree)
    ensures Verifies(c, objects, fs) <==> forall f :: f in fs ==> exists x :: IntactFile(c, objects, f, x)
    ensures RestoreFiles(c, objects, fs, t).1 <==> Verifies(c, objects, fs) && PathsFit(t, fs)
    ensures RestoreFiles(c, objects, fs, t).1 ==> Wrote(c, objects, fs, t, RestoreFiles(c, objects, fs, t).0)
  {
    hide FileContent, FileVerifies, RestoreFiles, PathsFit, Wrote, IntactFile;
    RestoreIffVerify(c, objects, fs, t);
    if RestoreFiles(c, objects, fs, t).1 {
      RestoreWrites(c, objects, fs, t);
    }
    forall f | f in fs
      ensures FileVerifies(c, objects, f) <==> exists x :: IntactFile(c, objects, f, x)
    {
      FileVerifiesIffRestores(c, objects, f);
      forall x
        ensures FileContent(c, objects, f) == Some(x) <==> IntactFile(c, objects, f, x)
      {
        ContentIff(c, objects, f, x);
      }
      if FileContent(c, objects, f).Some? {
        assert IntactFile(c, objects, f, FileContent(c, objects, f).value);
      }
    }
  }

  // What a restore that fails leaves behind.

  /** The directories that writing the file makes first: all of its path, if that does not end in a name. */
  function MadeFor(f: FileManifest): set<Path> {
    if EndsInName(f.relativePath) then Above(TargetOf(f)) else UpTo(TargetOf(f))
  }

  /** The file cannot be restored into `t`: its contents, its path or its place is wrong. At most directories are made. */
  ghost predicate StopsAt(c: Codec, objects: Objects, f: FileManifest, t: Tree, after: Tree) {
    var intact := Safe(f.relativePath) && exists x :: IntactFile(c, objects, f, x);
    && !(intact && EndsInName(f.relativePath) && Free(t, TargetOf(f)))
    && after == if intact && MadeFor(f) !! t.files.Keys then Tree(t.files, t.dirs + MadeFor(f)) else t
  }

  /** The files before one of them are written as if they were all. */
  ghost predicate StoppedBehind(c: Codec, objects: Objects, fs: seq<FileManifest>, t: Tree, after: Tree) {
    exists k, between :: 0 <= k < |fs| && Wrote(c, objects, fs[..k], t, between) && StopsAt(c, objects, fs[k], between, after)
  }

  lemma {:induction false} FirstFailure(c: Codec, objects: Objects, fs: seq<FileManifest>, t: Tree) returns (k: nat, between: Tree)
    requires !RestoreFiles(c, objects, fs, t).1
    ensures k < |fs| && RestoreFiles(c, objects, fs[..k], t) == (between, true)
    ensures StopsAt(c, objects, fs[k], between, RestoreFiles(c, objects, fs, t).0)
    decreases |fs|
  {
    hide FileContent, WriteFile, StopsAt, SafeRelativePath, EndsInName;
    var first := RestoreFile(c, objects, fs[0]);
    if first.Some? && WriteFile(t, first.value.path, first.value.named, first.value.file).1 {
      var later;
      later, between := FirstFailure(c, objects, fs[1..], WriteFile(t, first.value.path, first.value.named, first.value.file).0);
      k := later + 1;
      assert fs[..k][0] == fs[0] && fs[..k][1..] == fs[1..][..later];
    } else {
      k, between := 0, t;
      assert fs[..0] == [];
      OneFileStops(c, objects, fs[0], t);
    }
  }

  lemma OneFileStops(c: Codec, objects: Objects, f: FileManifest, t: Tree)
    ensures var first := RestoreFile(c, objects, f);
      if first.None? then StopsAt(c, objects, f, t, t)
      else
        var (after, ok) := WriteFile(t, first.value.path, first.value.named, first.value.file);
        !ok ==> StopsAt(c, objects, f, t, after)
  {
    hide FileContent, SafeRelativePath, EndsInName, IntactFile, UpTo, Above;
    forall x
      ensures FileContent(c, objects, f) == Some(x) <==> IntactFile(c, objects, f, x)
    {
      ContentIff(c, objects, f, x);
    }
    if FileContent(c, objects, f).Some? {
      assert IntactFile(c, objects, f, FileContent(c, objects, f).value);
    }
    var first := RestoreFile(c, objects, f);
    if first.Some? {
      WriteFileIff(t, first.value.path, first.value.named, first.value.file);
      AboveIsUpToParent(first.value.path);
    }
  }

  lemma RestoreStops(c: Codec, objects: Objects, fs: seq<FileManifest>, t: Tree)
    requires !RestoreFiles(c, objects, fs, t).1
    ensures StoppedBehind(c, objects, fs, t, RestoreFiles(c, objects, fs, t).0)
  {
    hide RestoreFiles, Wrote, StopsAt;
    var k, between := FirstFailure(c, objects, fs, t);
    RestoreWrites(c, objects, fs[..k], t);
  }

  // Verification alone does not tell whether a restore succeeds.

  function EmptyFile(c: Codec, path: string): FileManifest {
    FileManifest(path, 0, 0x1a4, c.hash([]), [])
  }

  function EmptyFiles(c: Codec, paths: seq<string>): Manifest {
    Manifest(1, 0, Fixed, "s", 0, 0, seq(|paths|, i requires 0 <= i < |paths| => EmptyFile(c, paths[i])))
  }

  lemma EmptyFilesAccepted(c: Codec, objects: Objects, paths: seq<string>)
    requires c.Sound() && |paths| < U64 && forall p :: p in paths ==> Safe(p) && Octets(p)
    ensures Parse(Serialize(EmptyFiles(c, paths))) == Some(EmptyFiles(c, paths))
    ensures Verifies(c, objects, EmptyFiles(c, paths).files)
  {
    hide Parse, Serialize, ReadRaw, Sha256Hex, SafeRelativePath, Octets;
    var m := EmptyFiles(c, paths);
    forall f | f in m.files
      ensures WellFormedFile(f) && FileVerifies(c, objects, f)
    {
      var i :| 0 <= i < |paths| && f == EmptyFile(c, paths[i]);
      assert paths[i] in paths && Sha256Hex(c.hash([]));
      EmptyFileVerifies(c, objects, paths[i]);
    }
    OneLetter();
    ParseIsInverseOfSerialize(m);
  }

  lemma OneLetter()
    ensures Octets("s") && "s" != ""
  {
  }

  /** A file `a` and a file in a directory `a`: accepted by the parser and by verification, and never restored. */
  lemma ClashingPaths(c: Codec, objects: Objects, t: Tree, paths: seq<string>)
    requires c.Sound() && (paths == ["a", "a/b"] || paths == ["a/b", "a"])
    ensures var m := EmptyFiles(c, paths);
            && Parse(Serialize(m)) == Some(m) && Verifies(c, objects, m.files)
            && (forall f :: f in m.files ==> Safe(f.relativePath) && EndsInName(f.relativePath))
            && !RestoreFiles(c, objects, m.files, t).1
  {
    hide Parse, Serialize, RestoreFiles, Verifies, SafeRelativePath, EndsInName, Octets, Free;
    ClashingTargets();
    EmptyFilesAccepted(c, objects, paths);
    var fs := EmptyFiles(c, paths).files;
    var i := if paths[0] == "a" then 0 else 1;
    assert fs[i] in fs && fs[1 - i] in fs && TargetOf(fs[i]) < TargetOf(fs[1 - i]);
    RestoreIffVerify(c, objects, fs, t);
  }

  /** A path that ends in a slash: accepted as well, and never restored. */
  lemma SlashAtTheEnd(c: Codec, objects: Objects, t: Tree)
    requires c.Sound()
    ensures var m := EmptyFiles(c, ["a/"]);
            Parse(Serialize(m)) == Some(m) && Verifies(c, objects, m.files) && !RestoreFiles(c, objects, m.files, t).1
  {
    hide Parse, Serialize, RestoreFiles, Verifies, SafeRelativePath, EndsInName, Octets, Free;
    SlashPath();
    EmptyFilesAccepted(c, objects, ["a/"]);
    var fs := EmptyFiles(c, ["a/"]).files;
    assert fs[0] in fs;
    RestoreIffVerify(c, objects, fs, t);
  }

  lemma SlashPath()
    ensures SafeRelativePath("a/") == Some(["a"]) && !EndsInName("a/") && Octets("a/")
  {
    PartsFirst("a", "");
    PartsLast("");
    assert "a/" == "a" + "/" + "" && Parts("a/") == ["a", ""];
    assert Normalise([""], ["a"]) == Normalise([], ["a"]) == ["a"];
    assert ["a", ""][1..] == [""] && [] + ["a"] == ["a"];
  }

  lemma ClashingTargets()
    ensures SafeRelativePath("a") == Some(["a"]) && SafeRelativePath("a/b") == Some(["a", "b"])
    ensures EndsInName("a") && EndsInName("a/b") && Octets("a") && Octets("a/b") && Octets("s")
  {
    hide SafeRelativePath, EndsInName, Parts, PlainPath;
    PlainNames();
    PlainPathKept("a");
    PlainPathKept("a/b");
  }

  lemma PlainNames()
    ensures PlainPath("a") && Parts("a") == ["a"] && PlainPath("a/b") && Parts("a/b") == ["a", "b"]
  {
    hide Parts;
    assert Parts("a") == ["a"] by { PartsLast("a"); }
    assert Parts("b") == ["b"] by { PartsLast("b"); }
    PartsFirst("a", "b");
    assert "a/b" == "a" + "/" + "b";
  }

  lemma EmptyFileVerifies(c: Codec, objects: Objects, path: string)
    ensures FileVerifies(c, objects, EmptyFile(c, path))
  {
  }
}
