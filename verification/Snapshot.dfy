/** Source trees, and the manifest entries that record them. */
module Snapshot {
  import opened Wrappers
  import opened Slices
  import opened Bytes
  import opened Text
  import opened Paths
  import opened Sorting
  import opened Manifest
  import opened Chunkers
  import opened FileTree
  import opened ObjectStore

  datatype SourceFile = SourceFile(path: string, mode: nat, content: Bytes)

  /** A source tree as the scanner lists it: regular files in ascending order of path. */
  type Source = seq<SourceFile>

  /** The default limits; the mask is the average size of 64 KiB less one. */
  const CDC_DEFAULTS: Params := Params(DEFAULT_MIN, DEFAULT_MAX, 0xffff)

  function PiecesOf(mode: ChunkingMode, content: Bytes): (pieces: seq<Bytes>)
    ensures pieces != []
  {
    if mode == Fixed then FixedPieces(content, DEFAULT_CHUNK_SIZE) else ContentPieces(CDC_DEFAULTS, content)
  }

  lemma PiecesOfJoin(mode: ChunkingMode, content: Bytes)
    ensures Joined(PiecesOf(mode, content)) == content
  {
    if mode == Fixed {
      FixedPiecesJoin(content, DEFAULT_CHUNK_SIZE);
    } else {
      ContentPiecesJoin(CDC_DEFAULTS, content);
    }
  }

  function Ref(c: Codec, index: nat, piece: Bytes): ChunkRef {
    ChunkRef(index, |piece|, |c.compress(piece)|, c.hash(piece), ObjectPath(c.hash(piece)))
  }

  /** The references of a file's chunks. */
  function Refs(c: Codec, pieces: seq<Bytes>): (rs: seq<ChunkRef>)
    ensures |rs| == |pieces|
  {
    seq(|pieces|, i requires 0 <= i < |pieces| => Ref(c, i, pieces[i]))
  }

  function Entry(c: Codec, mode: ChunkingMode, f: SourceFile): FileManifest {
    FileManifest(f.path, |f.content|, f.mode, c.hash(f.content), Refs(c, PiecesOf(mode, f.content)))
  }

  /** The `files` list that a backup of the source records. */
  function Entries(c: Codec, mode: ChunkingMode, src: Source): (es: seq<FileManifest>)
    ensures |es| == |src|
  {
    seq(|src|, i requires 0 <= i < |src| => Entry(c, mode, src[i]))
  }

  /** All chunks of a source, file after file. */
  function AllPieces(mode: ChunkingMode, src: Source): seq<Bytes> {
    if src == [] then [] else AllPieces(mode, src[..|src| - 1]) + PiecesOf(mode, src[|src| - 1].content)
  }

  lemma AllPiecesLast(mode: ChunkingMode, src: Source, f: SourceFile)
    ensures AllPieces(mode, src + [f]) == AllPieces(mode, src) + PiecesOf(mode, f.content)
  {
    hide PiecesOf;
    assert (src + [f])[..|src|] == src;
  }

  function InputBytes(src: Source): nat {
    if src == [] then 0 else InputBytes(src[..|src| - 1]) + |src[|src| - 1].content|
  }

  /** The tree holds exactly the files of the source, under their own paths, and the directories above them. */
  ghost predicate Mirrors(t: Tree, src: Source) {
    && (forall f :: f in src ==>
          Parts(f.path) in t.files && t.files[Parts(f.path)] == File(f.mode, f.content))
    && (forall p :: p in t.files ==> exists f :: f in src && p == Parts(f.path))
    && (forall d :: d in t.dirs <==> exists f :: f in src && d in Above(Parts(f.path)))
  }

  ghost predicate ValidFile(c: Codec, f: SourceFile) {
    && PlainPath(f.path) && Octets(f.path) && f.mode < 0x200 && |f.content| < U64
    && (forall mode, piece :: piece in PiecesOf(mode, f.content) ==> c.inPlay(piece))
  }

  /**
   * Premises on a source: what a scan of a file system delivers, where no file is a directory of another, and
   * contents without hash collisions.
   */
  ghost predicate ValidSource(c: Codec, src: Source) {
    && |src| < U64
    && (forall f :: f in src ==> ValidFile(c, f))
    && (forall i, j :: 0 <= i < j < |src| ==> LessText(src[i].path, src[j].path))
    && (forall f, g :: f in src && g in src ==> !(Parts(f.path) < Parts(g.path)))
  }

  /** Every chunk of every file has its object. */
  ghost predicate Stored(c: Codec, objects: Objects, mode: ChunkingMode, src: Source) {
    forall f :: f in src ==> FileStored(c, objects, mode, f)
  }

  ghost predicate FileStored(c: Codec, objects: Objects, mode: ChunkingMode, f: SourceFile) {
    forall piece :: piece in PiecesOf(mode, f.content) ==> c.hash(piece) in objects
  }

  // What an entry records.

  /** The chunks of an entry are numbered through, and each is intact in any store that holds its compressed piece. */
  lemma EntryFields(c: Codec, mode: ChunkingMode, f: SourceFile, objects: Objects, k: nat)
    requires k < |PiecesOf(mode, f.content)|
    ensures var e, piece := Entry(c, mode, f), PiecesOf(mode, f.content)[k];
      && e.relativePath == f.path && e.fileSize == |f.content| && e.fileMode == f.mode && e.fileSha256 == c.hash(f.content)
      && |e.chunks| == |PiecesOf(mode, f.content)| && e.chunks[k].index == k
      && e.chunks[k].compressedSize == |c.compress(piece)|
      && (Sha256Hex(c.hash(piece)) && c.decompress(c.compress(piece)) == Some(piece)
          && c.hash(piece) in objects && objects[c.hash(piece)] == c.compress(piece) ==>
            IntactChunk(c, objects, e.chunks[k], piece))
  {
    hide PiecesOf;
  }

  // Entries are well formed.

  lemma {:induction false} PiecesAreFew(p: Params, content: Bytes)
    ensures |Pieces(p, content)| <= |content|
    decreases |content|
  {
    hide NextCut;
    if content != [] && FirstCut(p, content).Some? {
      PiecesAreFew(p, content[FirstCut(p, content).value..]);
    }
  }

  lemma {:induction false} FixedPiecesAreFew(content: Bytes, size: nat)
    requires size > 0
    ensures |FixedPieces(content, size)| <= if content == [] then 1 else |content|
    decreases |content|
  {
    if |content| > size {
      FixedPiecesAreFew(content[size..], size);
    }
  }

  lemma FewPieces(mode: ChunkingMode, content: Bytes)
    ensures |PiecesOf(mode, content)| <= if content == [] then 1 else |content|
  {
    if mode == Fixed {
      FixedPiecesAreFew(content, DEFAULT_CHUNK_SIZE);
    } else {
      PiecesAreFew(CDC_DEFAULTS, content);
    }
  }

  lemma EntryWellFormed(c: Codec, mode: ChunkingMode, f: SourceFile)
    requires c.Sound() && ValidFile(c, f)
    ensures WellFormedFile(Entry(c, mode, f))
  {
    hide ObjectPath, PiecesOf, Octets, Sha256Hex, SafeRelativePath, PlainPath, EndsInName;
    var pieces := PiecesOf(mode, f.content);
    PlainPathKept(f.path);
    FewPieces(mode, f.content);
    forall r | r in Refs(c, pieces)
      ensures WellFormedChunk(r)
    {
      var i :| 0 <= i < |pieces| && r == Ref(c, i, pieces[i]);
      assert pieces[i] in pieces;
      ObjectPathSafe(c.hash(pieces[i]));
    }
  }

  // Restoring entries.

  lemma {:induction false} AssembleRefs(c: Codec, objects: Objects, pieces: seq<Bytes>, refs: seq<ChunkRef>)
    requires c.Sound() && ValidObjects(c, objects)
    requires forall piece :: piece in pieces ==> c.inPlay(piece) && c.hash(piece) in objects
    requires |refs| == |pieces|
    requires forall i :: 0 <= i < |refs| ==> refs[i] == Ref(c, refs[i].index, pieces[i])
    ensures Assemble(c, objects, refs) == Some(Joined(pieces))
    decreases |pieces|
  {
    hide ReadRaw, ObjectPath, ValidObjects;
    if pieces != [] {
      assert pieces[0] in pieces;
      ObjectIsCompressed(c, objects, pieces[0]);
      AssembleRefs(c, objects, pieces[1..], refs[1..]);
    }
  }

  lemma RestoreEntry(c: Codec, objects: Objects, mode: ChunkingMode, f: SourceFile)
    requires c.Sound() && ValidObjects(c, objects) && ValidFile(c, f) && FileStored(c, objects, mode, f)
    ensures RestoreFile(c, objects, Entry(c, mode, f)) == Some(RestoredFile(Parts(f.path), true, File(f.mode, f.content)))
    ensures TargetOf(Entry(c, mode, f)) == Parts(f.path)
  {
    hide Assemble, PiecesOf, ValidObjects, SafeRelativePath, PlainPath, EndsInName, ObjectPath;
    PlainPathKept(f.path);
    AssembleRefs(c, objects, PiecesOf(mode, f.content), Refs(c, PiecesOf(mode, f.content)));
    PiecesOfJoin(mode, f.content);
  }

  /** The tree with the files of a source put into it one after the other. */
  function Filled(t: Tree, src: Source): Tree
    decreases |src|
  {
    if src == [] then t
    else
      var p := Parts(src[0].path);
      Filled(Tree(t.files[p := File(src[0].mode, src[0].content)], t.dirs + Above(p)), src[1..])
  }

  ghost predicate DistinctPaths(src: Source) {
    forall i, j :: 0 <= i < j < |src| ==> src[i].path != src[j].path
  }

  lemma AscendingPathsDiffer(c: Codec, src: Source)
    requires ValidSource(c, src)
    ensures DistinctPaths(src)
  {
    hide ValidFile;
    forall i, j | 0 <= i < j < |src|
      ensures src[i].path != src[j].path
    {
      assert LessText(src[i].path, src[j].path);
      TextIrreflexive(src[i].path);
    }
  }

  lemma {:induction false} FilledKeeps(t: Tree, src: Source, p: Path)
    requires p in t.files && forall f :: f in src ==> Parts(f.path) != p
    ensures p in Filled(t, src).files && Filled(t, src).files[p] == t.files[p]
    decreases |src|
  {
    hide Parts, Above;
    if src != [] {
      assert src[0] in src;
      var q := Parts(src[0].path);
      FilledKeeps(Tree(t.files[q := File(src[0].mode, src[0].content)], t.dirs + Above(q)), src[1..], p);
    }
  }

  lemma {:induction false} FilledPaths(t: Tree, src: Source)
    ensures forall p :: p in Filled(t, src).files <==> p in t.files || exists f :: f in src && p == Parts(f.path)
    ensures forall d :: d in Filled(t, src).dirs <==> d in t.dirs || exists f :: f in src && d in Above(Parts(f.path))
    decreases |src|
  {
    hide Parts, Above;
    if src != [] {
      var q := Parts(src[0].path);
      assert src == [src[0]] + src[1..];
      FilledPaths(Tree(t.files[q := File(src[0].mode, src[0].content)], t.dirs + Above(q)), src[1..]);
    }
  }

  lemma {:induction false} FilledContents(t: Tree, src: Source, f: SourceFile)
    requires DistinctPaths(src) && f in src
    ensures Parts(f.path) in Filled(t, src).files && Filled(t, src).files[Parts(f.path)] == File(f.mode, f.content)
    decreases |src|
  {
    hide Parts, Above;
    var q, rest := Parts(src[0].path), src[1..];
    var after := Tree(t.files[q := File(src[0].mode, src[0].content)], t.dirs + Above(q));
    if f == src[0] {
      forall g | g in rest
        ensures Parts(g.path) != q
      {
        var k :| 0 <= k < |rest| && rest[k] == g;
        assert src[0].path != src[k + 1].path;
        DifferentPathsDifferentParts(src[0].path, g.path);
      }
      FilledKeeps(after, rest, q);
    } else {
      assert src == [src[0]] + rest;
      FilledContents(after, rest, f);
    }
  }

  lemma FilledMirrors(c: Codec, src: Source)
    requires ValidSource(c, src)
    ensures Mirrors(Filled(EMPTY_TREE, src), src)
  {
    hide Parts, Above, ValidFile, Filled;
    AscendingPathsDiffer(c, src);
    FilledPaths(EMPTY_TREE, src);
    forall f | f in src
      ensures Parts(f.path) in Filled(EMPTY_TREE, src).files
           && Filled(EMPTY_TREE, src).files[Parts(f.path)] == File(f.mode, f.content)
    {
      FilledContents(EMPTY_TREE, src, f);
    }
  }

  /** With all chunks stored and room for the paths, the entries of a source are all written. */
  lemma {:induction false} RestoreEntriesInto(c: Codec, objects: Objects, mode: ChunkingMode, src: Source, t: Tree)
    requires c.Sound() && ValidObjects(c, objects) && Stored(c, objects, mode, src)
    requires forall f :: f in src ==> ValidFile(c, f)
    requires PathsFit(t, Entries(c, mode, src))
    ensures RestoreFiles(c, objects, Entries(c, mode, src), t) == (Filled(t, src), true)
    decreases |src|
  {
    hide RestoreFile, FileStored, ValidFile, ValidObjects, Entry, PathsFit, WriteFile, Above, Parts, SafeRelativePath, EndsInName,
         TargetOf, Free;
    if src != [] {
      var f, rest := src[0], src[1..];
      var file := File(f.mode, f.content);
      assert f in src;
      assert Entries(c, mode, src) == [Entry(c, mode, f)] + Entries(c, mode, rest);
      RestoreEntry(c, objects, mode, f);
      FirstFits(t, Entry(c, mode, f), Entries(c, mode, rest));
      PathsFitFirst(t, Entry(c, mode, f), Entries(c, mode, rest), file);
      WriteFileIff(t, Parts(f.path), true, file);
      RestoreEntriesInto(c, objects, mode, rest, Tree(t.files[Parts(f.path) := file], t.dirs + Above(Parts(f.path))));
    }
  }

  lemma EntriesFit(c: Codec, mode: ChunkingMode, src: Source)
    requires ValidSource(c, src)
    ensures PathsFit(EMPTY_TREE, Entries(c, mode, src))
  {
    hide PiecesOf, SafeRelativePath, EndsInName, PlainPath, Parts, Above;
    var es := Entries(c, mode, src);
    forall e | e in es
      ensures exists f :: f in src && TargetOf(e) == Parts(f.path) && EndsInName(e.relativePath) && Safe(e.relativePath)
    {
      var i :| 0 <= i < |es| && e == Entry(c, mode, src[i]);
      assert ValidFile(c, src[i]);
      PlainPathKept(src[i].path);
      assert src[i] in src;
    }
  }

  /** With all chunks stored, the entries of a source restore into an empty directory as exactly the source. */
  lemma RestoreEntries(c: Codec, objects: Objects, mode: ChunkingMode, src: Source)
    requires c.Sound() && ValidObjects(c, objects) && Stored(c, objects, mode, src) && ValidSource(c, src)
    ensures RestoreFiles(c, objects, Entries(c, mode, src), EMPTY_TREE).1
    ensures Mirrors(RestoreFiles(c, objects, Entries(c, mode, src), EMPTY_TREE).0, src)
  {
    hide ValidFile, Stored, ValidObjects, Entries, PathsFit, Filled, Mirrors, RestoreFiles;
    EntriesFit(c, mode, src);
    RestoreEntriesInto(c, objects, mode, src, EMPTY_TREE);
    FilledMirrors(c, src);
  }
}
