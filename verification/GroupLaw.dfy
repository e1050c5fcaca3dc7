/** The manifest that is built from the records of a session, whoever sent them. */
module GroupLaw {
  import opened Wrappers
  import opened Bytes
  import opened Sorting
  import opened Manifest
  import opened SessionIndex
  import opened Upload

  // The order of paths.

  lemma {:induction false} TextTotal(x: string, y: string)
    ensures LessText(x, y) || LessText(y, x) || x == y
  {
    if x != "" && y != "" {
      TextTotal(x[1..], y[1..]);
      assert x == [x[0]] + x[1..] && y == [y[0]] + y[1..];
    }
  }

  lemma {:induction false} TextTransitive(x: string, y: string, z: string)
    requires LessText(x, y) && LessText(y, z)
    ensures LessText(x, z)
  {
    if x != "" && y != "" && z != "" && x[0] == y[0] == z[0] {
      TextTransitive(x[1..], y[1..], z[1..]);
    }
  }

  // The map of files by path.

  ghost predicate PathsAscend(files: seq<FileManifest>) {
    forall i, j :: 0 <= i < j < |files| ==> LessText(files[i].relativePath, files[j].relativePath)
  }

  lemma FirstPathAscends(first: FileManifest, rest: seq<FileManifest>)
    requires PathsAscend(rest) && forall f :: f in rest ==> LessText(first.relativePath, f.relativePath)
    ensures PathsAscend([first] + rest)
  {
    var all := [first] + rest;
    forall i, j | 0 <= i < j < |all|
      ensures LessText(all[i].relativePath, all[j].relativePath)
    {
      assert all[j] == rest[j - 1];
      if i > 0 {
        assert all[i] == rest[i - 1];
      }
    }
  }

  lemma BehindFirst(files: seq<FileManifest>, f: FileManifest)
    requires PathsAscend(files) && files != [] && f in files[1..]
    ensures LessText(files[0].relativePath, f.relativePath) && files[0].relativePath != f.relativePath
  {
    var i :| 0 <= i < |files| - 1 && files[1..][i] == f;
    assert f == files[i + 1];
    TextIrreflexive(f.relativePath);
  }

  lemma {:induction false} PutFileAscends(files: seq<FileManifest>, file: FileManifest)
    requires PathsAscend(files)
    ensures PathsAscend(PutFile(files, file))
    ensures forall f :: f in PutFile(files, file) <==> f == file || (f in files && f.relativePath != file.relativePath)
  {
    hide LessText;
    if files != [] {
      var first, rest := files[0], files[1..];
      assert files == [first] + rest;
      forall f | f in rest
        ensures LessText(first.relativePath, f.relativePath) && first.relativePath != f.relativePath
      {
        BehindFirst(files, f);
      }
      if LessText(first.relativePath, file.relativePath) {
        PutFileAscends(rest, file);
        TextIrreflexive(first.relativePath);
        FirstPathAscends(first, PutFile(rest, file));
      } else if first.relativePath == file.relativePath {
        FirstPathAscends(file, rest);
      } else {
        TextTotal(first.relativePath, file.relativePath);
        forall f | f in files
          ensures LessText(file.relativePath, f.relativePath) && f.relativePath != file.relativePath
        {
          if f in rest {
            TextTransitive(file.relativePath, first.relativePath, f.relativePath);
          }
          TextIrreflexive(file.relativePath);
        }
        FirstPathAscends(file, files);
      }
    }
  }

  /** The entry found is that of the path, or a default one without chunks and with an empty path. */
  lemma {:induction false} FileOfPath(files: seq<FileManifest>, path: string)
    ensures var f := FileOf(files, path);
      if exists g :: g in files && g.relativePath == path then f in files && f.relativePath == path
      else f.relativePath == "" && f.chunks == []
  {
    if files != [] {
      FileOfPath(files[1..], path);
      assert files == [files[0]] + files[1..];
    }
  }

  // What the records say.

  /** The references of the records with this path, in their order. */
  function RefsOf(rs: seq<Received>, path: string): seq<ChunkRef> {
    if rs == [] then []
    else
      var r := rs[|rs| - 1];
      RefsOf(rs[..|rs| - 1], path)
      + if r.relativePath == path then [ChunkRef(r.chunkIndex, r.rawSize, r.compressedSize, r.sha256, r.objectPath)] else []
  }

  ghost predicate HasPath(rs: seq<Received>, path: string) {
    exists r :: r in rs && r.relativePath == path
  }

  /** The record that gives a file its size, mode and digest: the first of its path, or the last of an empty path. */
  ghost predicate Leads(rs: seq<Received>, k: nat) {
    && k < |rs|
    && if rs[k].relativePath == "" then forall j :: k < j < |rs| ==> rs[j].relativePath != ""
       else !HasPath(rs[..k], rs[k].relativePath)
  }

  ghost predicate Describes(r: Received, f: FileManifest) {
    f.relativePath == r.relativePath && f.fileSize == r.fileSize && f.fileMode == r.fileMode && f.fileSha256 == r.fileSha256
  }

  /** A file of the manifest, before its chunks are sorted. */
  ghost predicate FileSaid(rs: seq<Received>, f: FileManifest) {
    f.chunks == RefsOf(rs, f.relativePath) && exists k: nat :: k < |rs| && Leads(rs, k) && Describes(rs[k], f)
  }

  /** The sizes of the files, each counted with the first record of its path; an empty path with every record. */
  function InputSum(rs: seq<Received>): nat {
    if rs == [] then 0
    else
      var init, r := rs[..|rs| - 1], rs[|rs| - 1];
      InputSum(init) + if r.relativePath != "" && exists q :: q in init && q.relativePath == r.relativePath then 0 else r.fileSize
  }

  /** The compressed sizes, each counted with the first record of its digest. */
  function StoredSum(rs: seq<Received>): nat {
    if rs == [] then 0
    else
      var init, r := rs[..|rs| - 1], rs[|rs| - 1];
      StoredSum(init) + if exists q :: q in init && q.sha256 == r.sha256 then 0 else r.compressedSize
  }

  ghost predicate GroupedAs(rs: seq<Received>, g: Grouping) {
    && PathsAscend(g.files)
    && (forall f :: f in g.files ==> FileSaid(rs, f))
    && (forall r :: r in rs ==> exists f :: f in g.files && f.relativePath == r.relativePath)
    && g.inputBytes == InputSum(rs) % U64 && g.storedBytes == StoredSum(rs) % U64
    && (forall s :: s in g.seen <==> exists r :: r in rs && r.sha256 == s)
  }

  lemma {:induction false} NoRefs(rs: seq<Received>, path: string)
    requires !HasPath(rs, path)
    ensures RefsOf(rs, path) == []
  {
    if rs != [] {
      var init, r := rs[..|rs| - 1], rs[|rs| - 1];
      assert r in rs && forall q :: q in init ==> q in rs;
      NoRefs(init, path);
    }
  }

  lemma RefsLast(init: seq<Received>, r: Received, path: string)
    ensures RefsOf(init + [r], path) == RefsOf(init, path) + if r.relativePath == path then [RefOf(r)] else []
  {
    assert (init + [r])[..|init|] == init;
  }

  lemma OthersLead(init: seq<Received>, r: Received, k: nat)
    requires Leads(init, k) && (init[k].relativePath != r.relativePath || r.relativePath != "")
    ensures Leads(init + [r], k) && (init + [r])[k] == init[k]
  {
    assert (init + [r])[..k] == init[..k];
  }

  lemma LastLeads(init: seq<Received>, r: Received)
    requires r.relativePath == "" || !HasPath(init, r.relativePath)
    ensures Leads(init + [r], |init|)
  {
    assert (init + [r])[..|init|] == init;
  }

  /** Another file stays as it was. */
  lemma OtherSaid(init: seq<Received>, r: Received, f: FileManifest)
    requires FileSaid(init, f) && f.relativePath != r.relativePath
    ensures FileSaid(init + [r], f)
  {
    hide Leads, RefsOf;
    RefsLast(init, r, f.relativePath);
    var k: nat :| k < |init| && Leads(init, k) && Describes(init[k], f);
    OthersLead(init, r, k);
  }

  /** The file of the record itself. */
  lemma ItsFileSaid(init: seq<Received>, g: Grouping, r: Received)
    requires GroupedAs(init, g)
    ensures var found := FileOf(g.files, r.relativePath);
      && (found.relativePath == "" <==> r.relativePath == "" || !HasPath(init, r.relativePath))
      && found.chunks == RefsOf(init, r.relativePath)
      && (found.relativePath != "" ==> FileSaid(init, found) && found.relativePath == r.relativePath)
  {
    hide FileOf, RefsOf, FileSaid, PathsAscend;
    var found := FileOf(g.files, r.relativePath);
    FileOfPath(g.files, r.relativePath);
    if f :| f in g.files && f.relativePath == r.relativePath {
      assert FileSaid(init, found);
      PathOfSaid(init, found);
    } else {
      NoRefs(init, r.relativePath);
    }
  }

  lemma PathOfSaid(rs: seq<Received>, f: FileManifest)
    requires FileSaid(rs, f)
    ensures HasPath(rs, f.relativePath) && f.chunks == RefsOf(rs, f.relativePath)
  {
    hide RefsOf;
    var k: nat :| k < |rs| && Leads(rs, k) && Describes(rs[k], f);
    assert rs[k] in rs;
  }

  lemma {:induction false} GroupIs(rs: seq<Received>)
    ensures GroupedAs(rs, GroupAll(rs))
    decreases |rs|
  {
    hide Group, GroupedAs;
    if rs == [] {
      NothingGrouped();
    } else {
      var init, r := rs[..|rs| - 1], rs[|rs| - 1];
      assert rs == init + [r];
      GroupIs(init);
      OneMoreGrouped(init, GroupAll(init), r);
    }
  }

  lemma NothingGrouped()
    ensures GroupedAs([], NO_FILES)
  {
  }

  lemma OneMoreGrouped(init: seq<Received>, g: Grouping, r: Received)
    requires GroupedAs(init, g)
    ensures GroupedAs(init + [r], Group(g, r))
  {
    hide FileOf, PutFile, RefsOf, FileSaid, PathsAscend, InputSum, StoredSum, RefOf;
    var rs, after := init + [r], Group(g, r);
    var found := FileOf(g.files, r.relativePath);
    ItsFileSaid(init, g, r);
    var isNew := found.relativePath == "";
    var file := if isNew then FileManifest(r.relativePath, r.fileSize, r.fileMode, r.fileSha256, found.chunks) else found;
    var put := file.(chunks := file.chunks + [RefOf(r)]);
    PutFileAscends(g.files, put);
    assert FileSaid(rs, put) by { UpdatedSaid(init, r, found); }
    forall f | f in after.files
      ensures FileSaid(rs, f)
    {
      if f != put {
        OtherSaid(init, r, f);
      }
    }
    SumsLast(init, r);
    AddModulo(InputSum(init), r.fileSize);
    AddModulo(StoredSum(init), r.compressedSize);
    forall q | q in rs
      ensures exists f :: f in after.files && f.relativePath == q.relativePath
    {
      if q.relativePath == r.relativePath {
        assert put in after.files && put.relativePath == q.relativePath;
      } else {
        var f :| f in g.files && f.relativePath == q.relativePath;
        assert f in after.files;
      }
    }
  }

  lemma UpdatedSaid(init: seq<Received>, r: Received, found: FileManifest)
    requires found.relativePath == "" <==> r.relativePath == "" || !HasPath(init, r.relativePath)
    requires found.chunks == RefsOf(init, r.relativePath)
    requires found.relativePath != "" ==> FileSaid(init, found) && found.relativePath == r.relativePath
    ensures var file := if found.relativePath == "" then FileManifest(r.relativePath, r.fileSize, r.fileMode, r.fileSha256, found.chunks) else found;
      FileSaid(init + [r], file.(chunks := file.chunks + [RefOf(r)]))
  {
    hide RefsOf, Leads, RefOf;
    RefsLast(init, r, r.relativePath);
    if found.relativePath == "" {
      LastLeads(init, r);
    } else {
      var k: nat :| k < |init| && Leads(init, k) && Describes(init[k], found);
      OthersLead(init, r, k);
    }
  }

  lemma SumsLast(init: seq<Received>, r: Received)
    ensures InputSum(init + [r]) == InputSum(init) + if r.relativePath != "" && HasPath(init, r.relativePath) then 0 else r.fileSize
    ensures StoredSum(init + [r]) == StoredSum(init) + if exists q :: q in init && q.sha256 == r.sha256 then 0 else r.compressedSize
  {
    assert (init + [r])[..|init|] == init;
  }

  // The manifest.

  /** The same file with its chunks in ascending order of number. */
  ghost predicate ChunksSorted(f: FileManifest, sorted: FileManifest) {
    && sorted == f.(chunks := sorted.chunks) && multiset(sorted.chunks) == multiset(f.chunks)
    && forall i, j :: 0 <= i < j < |sorted.chunks| ==> sorted.chunks[i].index <= sorted.chunks[j].index
  }

  ghost predicate FileBuilt(rs: seq<Received>, sorted: FileManifest) {
    exists f :: FileSaid(rs, f) && ChunksSorted(f, sorted)
  }

  /** A manifest of the records `rs`, one for every index. */
  ghost predicate BuiltFrom(rs: seq<Received>, m: Manifest) {
    && m.mode == Fixed && PathsAscend(m.files) && (forall f :: f in m.files ==> FileBuilt(rs, f))
    && (forall r :: r in rs ==> exists f :: f in m.files && f.relativePath == r.relativePath)
    && m.totalInputBytes == InputSum(rs) % U64 && m.totalStoredBytes == StoredSum(rs) % U64
  }

  /** The last record of every index, in ascending order of index. */
  ghost predicate LastOnes(records: seq<Received>, rs: seq<Received>) {
    IndexesAscend(rs) && forall r :: r in rs <==> IsLastOfIndex(records, r)
  }

  ghost predicate NoRecordOf(records: seq<Received>, index: nat) {
    forall r :: r in records ==> r.globalIndex != index
  }

  lemma SortedChunks(f: FileManifest)
    ensures ChunksSorted(f, f.(chunks := Sort(f.chunks, LessIndex)))
  {
    SortPermutes(f.chunks, LessIndex);
    var s := Sort(f.chunks, LessIndex);
    forall i, j | 0 <= i < j < |s|
      ensures s[i].index <= s[j].index
    {
      assert !LessIndex(s[j], s[i]);
    }
  }

  lemma GroupedIsBuilt(rs: seq<Received>, g: Grouping, m: Manifest)
    requires GroupedAs(rs, g) && m.mode == Fixed && m.files == WithSortedChunks(g.files)
    requires m.totalInputBytes == g.inputBytes && m.totalStoredBytes == g.storedBytes
    ensures BuiltFrom(rs, m)
  {
    hide FileSaid, ChunksSorted, InputSum, StoredSum, LessText, Sort;
    forall f | f in m.files
      ensures FileBuilt(rs, f)
    {
      var i :| 0 <= i < |m.files| && m.files[i] == f;
      SortedChunks(g.files[i]);
      assert FileSaid(rs, g.files[i]) by { assert g.files[i] in g.files; }
    }
    forall r | r in rs
      ensures exists f :: f in m.files && f.relativePath == r.relativePath
    {
      var f :| f in g.files && f.relativePath == r.relativePath;
      var i :| 0 <= i < |g.files| && g.files[i] == f;
      assert m.files[i] in m.files;
    }
  }

  /**
   * Of any records, whoever sent them: no manifest can be built iff an index below the total has no record;
   * otherwise it is built from the last record of every index.
   */
  lemma BuildExactly(records: seq<Received>, id: string, version: nat, total: nat, now: nat)
    ensures var built := BuildManifest(records, id, version, total, now);
      && (built.None? <==> exists i :: 0 <= i < total && NoRecordOf(records, i))
      && (built.Some? ==>
            && built.value.version == version && built.value.createdAt == now
            && built.value.sourceRoot == "network-session:" + id
            && exists rs :: LastOnes(records, rs) && BuiltFrom(rs, built.value))
  {
    hide ByGlobal, GroupAll, GroupedAs, BuiltFrom, IndexesAscend, IsLastOfIndex, WithSortedChunks;
    var rs := ByGlobal(records);
    ByGlobalAscends(records);
    forall i | 0 <= i < total
      ensures HasIndex(rs, i) <==> !NoRecordOf(records, i)
    {
      if HasIndex(rs, i) {
        var k :| 0 <= k < |rs| && rs[k].globalIndex == i;
        assert rs[k] in rs;
      }
    }
    var built := BuildManifest(records, id, version, total, now);
    if built.Some? {
      GroupIs(rs);
      GroupedIsBuilt(rs, GroupAll(rs), built.value);
      assert LastOnes(records, rs);
    }
  }
}
