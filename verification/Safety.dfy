/** Every reachable state of the commit protocol is safe. */
module Safety {
  import opened Wrappers
  import opened Slices
  import opened Bytes
  import opened Text
  import opened Sorting
  import opened Paths
  import opened Manifest
  import opened ObjectStore
  import opened Snapshot
  import opened SessionIndex
  import opened Upload
  import opened Checkpoint
  import opened Disk
  import opened Protocol
  import WalLog

  // Objects are only ever added.

  ghost predicate Grows(before: Objects, after: Objects) {
    forall sha :: sha in before ==> sha in after && after[sha] == before[sha]
  }

  lemma WithObjectGrows(c: Codec, objects: Objects, x: Bytes)
    ensures Grows(objects, WithObject(c, objects, x)) && c.hash(x) in WithObject(c, objects, x)
  {
  }

  lemma WithObjectValid(c: Codec, objects: Objects, x: Bytes)
    requires c.Sound() && ValidObjects(c, objects) && c.inPlay(x)
    ensures ValidObjects(c, WithObject(c, objects, x))
  {
    hide PutCompressed, ValidObjects;
    PutSucceeds(c, objects, x);
  }

  lemma StoredGrows(c: Codec, before: Objects, after: Objects, mode: ChunkingMode, src: Source)
    requires Grows(before, after) && Stored(c, before, mode, src)
    ensures Stored(c, after, mode, src)
  {
    hide PiecesOf;
    forall f | f in src
      ensures FileStored(c, after, mode, f)
    {
      assert FileStored(c, before, mode, f);
    }
  }

  lemma RecordsGrow(c: Codec, before: Objects, after: Objects, m: Manifest, v: nat, snap: Source)
    requires Grows(before, after) && Records(c, before, m, v, snap)
    ensures Records(c, after, m, v, snap)
  {
    hide WellFormed, Entries, ValidSource, Stored;
    StoredGrows(c, before, after, m.mode, snap);
  }

  lemma TextRecordsGrow(c: Codec, before: Objects, after: Objects, text: string, v: nat, snap: Source)
    requires Grows(before, after) && TextRecords(c, before, text, v, snap)
    ensures TextRecords(c, after, text, v, snap)
  {
    hide Records;
    var m :| Records(c, before, m, v, snap) && text == Serialize(m);
    RecordsGrow(c, before, after, m, v, snap);
  }

  lemma VersionsGrow(c: Codec, before: Objects, after: Objects, manifests: map<nat, string>, committed: set<nat>, snaps: map<nat, Source>)
    requires Grows(before, after) && VersionsOk(c, before, manifests, committed, snaps)
    ensures VersionsOk(c, after, manifests, committed, snaps)
  {
    hide TextRecords;
    forall v: nat | v in committed
      ensures v in manifests && v in snaps && TextRecords(c, after, manifests[v], v, snaps[v])
    {
      TextRecordsGrow(c, before, after, manifests[v], v, snaps[v]);
    }
  }

  lemma SessionsGrow(w: World, before: Objects, after: Objects, sessions: map<string, string>)
    requires Grows(before, after) && SessionsOk(w, before, sessions)
    ensures SessionsOk(w, after, sessions)
  {
    hide AllReadable, Honest, RecordsOf, TextOf;
    forall id | id in sessions
      ensures id in w.sources && IndexOk(w.codec, w.sources[id], after, sessions[id])
    {
      var lines :| LinesOk(w.codec, w.sources[id], before, lines) && sessions[id] == TextOf(lines);
      assert LinesOk(w.codec, w.sources[id], after, lines);
    }
  }

  lemma JobGrows(w: World, d: Disk, after: Objects, job: Job)
    requires Grows(d.objects, after) && JobOk(w, d, job)
    ensures JobOk(w, d.(objects := after), job)
  {
    hide Records, AllPieces, ValidSource;
    SameListing(d, d.(objects := after));
    if job.Committing? {
      RecordsGrow(w.codec, d.objects, after, job.manifest, job.version, job.snap);
    }
  }

  lemma SameListing(d: Disk, e: Disk)
    requires d.markers == e.markers
    ensures Listed(d) == Listed(e) && Committed(d) == Committed(e)
  {
    assert Committed(d) == Committed(e);
  }

  /** Adding one object in play changes nothing for the worse. */
  lemma ObjectAdded(w: World, s: State, x: Bytes)
    requires w.Sound() && Inv(w, s) && w.codec.inPlay(x)
    ensures Inv(w, s.(disk := s.disk.(objects := WithObject(w.codec, s.disk.objects, x))))
  {
    hide ValidObjects, VersionsOk, SessionsOk, LogHolds, CheckpointOk, MarkersOk, DebrisOk, JobOk, Listed, Sent, Sends;
    var c, d := w.codec, s.disk;
    var after := WithObject(c, d.objects, x);
    WithObjectGrows(c, d.objects, x);
    WithObjectValid(c, d.objects, x);
    SameListing(d, d.(objects := after));
    VersionsGrow(c, d.objects, after, d.manifests, Committed(d), s.snaps);
    SessionsGrow(w, d.objects, after, d.sessions);
    JobGrows(w, d, after, s.job);
    forall e | e in s.entries
      ensures Justified(e, after, d.manifests, d.markers)
    {
      assert Justified(e, d.objects, d.manifests, d.markers);
    }
  }

  // Pieces of valid sources are in play.

  lemma {:induction false} PieceOrigin(mode: ChunkingMode, src: Source, k: nat)
    requires k < |AllPieces(mode, src)|
    ensures exists f :: f in src && AllPieces(mode, src)[k] in PiecesOf(mode, f.content)
    decreases |src|
  {
    hide PiecesOf;
    var init, last := src[..|src| - 1], src[|src| - 1];
    if k < |AllPieces(mode, init)| {
      PieceOrigin(mode, init, k);
      var f :| f in init && AllPieces(mode, init)[k] in PiecesOf(mode, f.content);
      assert f in src;
    } else {
      assert last in src;
    }
  }

  lemma PieceInPlay(c: Codec, mode: ChunkingMode, src: Source, k: nat)
    requires ValidSource(c, src) && k < |AllPieces(mode, src)|
    ensures c.inPlay(AllPieces(mode, src)[k])
  {
    hide PiecesOf, AllPieces;
    PieceOrigin(mode, src, k);
    var f :| f in src && AllPieces(mode, src)[k] in PiecesOf(mode, f.content);
    assert ValidFile(c, f);
  }

  lemma {:induction false} AllPiecesStored(c: Codec, objects: Objects, mode: ChunkingMode, src: Source)
    requires PiecesStored(c, objects, AllPieces(mode, src), |AllPieces(mode, src)|)
    ensures Stored(c, objects, mode, src)
    decreases |src|
  {
    hide PiecesOf;
    if src != [] {
      var init, last := src[..|src| - 1], src[|src| - 1];
      var before, pieces, all := AllPieces(mode, init), PiecesOf(mode, last.content), AllPieces(mode, src);
      assert all == before + pieces;
      assert forall k :: 0 <= k < |before| ==> before[k] == all[k];
      AllPiecesStored(c, objects, mode, init);
      forall piece | piece in pieces
        ensures c.hash(piece) in objects
      {
        var k :| 0 <= k < |pieces| && pieces[k] == piece;
        assert all[|before| + k] == piece;
      }
      assert src == init + [last];
    }
  }

  // The manifests that are staged record their sources.

  lemma EntriesWellFormed(c: Codec, mode: ChunkingMode, src: Source)
    requires c.Sound() && ValidSource(c, src)
    ensures forall f :: f in Entries(c, mode, src) ==> WellFormedFile(f)
  {
    hide WellFormedFile, Entry, ValidFile;
    var es := Entries(c, mode, src);
    forall f | f in es
      ensures WellFormedFile(f)
    {
      var i :| 0 <= i < |es| && f == Entry(c, mode, src[i]);
      assert src[i] in src;
      EntryWellFormed(c, mode, src[i]);
    }
  }

  lemma LocalManifestRecords(w: World, d: Disk, job: Job)
    requires w.Sound() && job.Putting? && JobOk(w, d, job) && job.logged && job.done == |AllPieces(job.mode, job.src)|
    ensures Records(w.codec, d.objects, LocalManifest(w.codec, job), job.version, job.src)
  {
    hide Entries, AllPieces, WellFormedFile, Listed, ValidFile, Stored, PiecesStored;
    AllPiecesStored(w.codec, d.objects, job.mode, job.src);
    EntriesWellFormed(w.codec, job.mode, job.src);
    NextVersionIsNew(d);
    EntriesLength(w.codec, job.mode, job.src);
  }

  lemma EntriesLength(c: Codec, mode: ChunkingMode, src: Source)
    ensures |Entries(c, mode, src)| == |src|
  {
  }

  lemma IndexReads(c: Codec, src: Source, objects: Objects, text: string)
    requires IndexOk(c, src, objects, text)
    ensures ReadRecords(text).Some? && Honest(c, src, ReadRecords(text).value)
    ensures forall r :: r in ReadRecords(text).value ==> r.sha256 in objects
  {
    hide AllReadable, Honest, RecordsOf, TextOf, ReadRecords;
    var lines :| LinesOk(c, src, objects, lines) && text == TextOf(lines);
    IndexReadsBack(lines);
  }

  lemma EmptyIndexOk(c: Codec, src: Source, objects: Objects)
    ensures IndexOk(c, src, objects, "")
  {
    assert LinesOk(c, src, objects, []) && "" == TextOf([]);
  }

  lemma SessionTextOk(w: World, objects: Objects, d: Disk, id: string)
    requires SessionsOk(w, objects, d.sessions) && id in w.sources
    ensures IndexOk(w.codec, w.sources[id], objects, SessionText(d, id))
  {
    hide IndexOk;
    EmptyIndexOk(w.codec, w.sources[id], objects);
  }

  /** When all records of a source are in its session, all its chunks have their objects. */
  lemma {:induction false} PiecesOfSession(c: Codec, src: Source, objects: Objects)
    requires forall r :: r in AllRecords(c, src) ==> r.sha256 in objects
    ensures Stored(c, objects, Fixed, src)
    decreases |src|
  {
    hide PiecesOf, FileChunks, ChunkOf;
    if src != [] {
      var init, last := src[..|src| - 1], src[|src| - 1];
      assert src == init + [last];
      PreparedLast(c, init, last);
      var before, all := PreparedChunks(c, init), PreparedChunks(c, src);
      forall r | r in AllRecords(c, init)
        ensures r.sha256 in objects
      {
        var i :| 0 <= i < |before| && r == RecordOf(before[i]);
        assert AllRecords(c, src)[i] == r;
      }
      PiecesOfSession(c, init, objects);
      var pieces := PiecesOf(Fixed, last.content);
      forall piece | piece in pieces
        ensures c.hash(piece) in objects
      {
        var k :| 0 <= k < |pieces| && pieces[k] == piece;
        FileChunkAt(c, last, |before|, k);
        assert AllRecords(c, src)[|before| + k] == RecordOf(all[|before| + k]);
        ChunkDigest(c, last, k, piece, |before| + k);
      }
    }
  }

  lemma ChunkDigest(c: Codec, f: SourceFile, k: nat, piece: Bytes, i: nat)
    ensures RecordOf(ChunkOf(c, f, k, piece, i)).sha256 == c.hash(piece)
    ensures ChunkOf(c, f, k, piece, i).raw == piece
  {
  }

  lemma StoredBytesBelow(g: Grouping, r: Received)
    requires g.storedBytes < U64
    ensures Group(g, r).storedBytes < U64
  {
    hide FileOf, PutFile, RefOf;
  }

  lemma {:induction false} GroupedBytesBelow(rs: seq<Received>)
    ensures GroupAll(rs).storedBytes < U64
  {
    hide Group;
    if rs != [] {
      GroupedBytesBelow(rs[..|rs| - 1]);
      StoredBytesBelow(GroupAll(rs[..|rs| - 1]), rs[|rs| - 1]);
    }
  }

  lemma BuiltManifest(records: seq<Received>, id: string, version: nat, total: nat, now: nat)
    requires Octets(id)
    ensures var m := BuildManifest(records, id, version, total, now);
            m.Some? ==> m.value.createdAt == now && m.value.totalStoredBytes < U64
                        && m.value.sourceRoot != "" && Octets(m.value.sourceRoot)
  {
    hide ByGlobal, GroupAll, HasIndex, WithSortedChunks;
    GroupedBytesBelow(ByGlobal(records));
  }

  lemma SessionManifestRecords(w: World, s: State)
    requires s.job.Building? && s.job.sessionId in w.sources && SessionManifest(w, s.disk, s.job).Some?
    requires w.Sound() && Inv(w, s)
    ensures Records(w.codec, s.disk.objects, SessionManifest(w, s.disk, s.job).value, s.job.version, w.sources[s.job.sessionId])
  {
    hide ValidObjects, VersionsOk, PutsOk, LogHolds, CheckpointOk, MarkersOk, DebrisOk, EntriesOk, SessionsOk, Listed,
         ReadRecords, BuildManifest, Honest, AllRecords, Entries, IndexOk, Stored, WellFormedFile, PreparedChunks, ValidFile;
    var d, id, src := s.disk, s.job.sessionId, w.sources[s.job.sessionId];
    SessionTextOk(w, d.objects, d, id);
    IndexReads(w.codec, src, d.objects, SessionText(d, id));
    assert w.SoundSession(id);
    var records := ReadRecords(SessionText(d, id)).value;
    SessionMatchesLocal(w.codec, src, records, id, s.job.version, s.job.now);
    BuiltManifest(records, id, s.job.version, |PreparedChunks(w.codec, src)|, s.job.now);
    PiecesOfSession(w.codec, src, d.objects);
    EntriesWellFormed(w.codec, Fixed, src);
    EntriesLength(w.codec, Fixed, src);
    NextVersionIsNew(d);
  }

  // One lemma for every kind of step.

  lemma JobFrame(w: World, d: Disk, e: Disk, job: Job)
    requires JobOk(w, d, job)
    requires d.objects == e.objects && d.staged == e.staged && d.manifests == e.manifests && d.markers == e.markers
    ensures JobOk(w, e, job)
  {
    hide Records, AllPieces, ValidSource, PiecesStored;
    SameListing(d, e);
  }

  lemma NewJob(w: World, s: State, job: Job)
    requires Inv(w, s) && JobOk(w, s.disk, job)
    ensures Inv(w, s.(job := job))
  {
    hide ValidObjects, VersionsOk, PutsOk, LogHolds, CheckpointOk, MarkersOk, DebrisOk, EntriesOk, SessionsOk, JobOk, Listed;
  }

  lemma EntryLogged(w: World, s: State, e: LogEntry)
    requires Inv(w, s) && ProperEntry(e) && Justified(e, s.disk.objects, s.disk.manifests, s.disk.markers)
    ensures Inv(w, Logged(s, e))
  {
    hide ValidObjects, VersionsOk, PutsOk, LogHolds, CheckpointOk, MarkersOk, DebrisOk, SessionsOk, JobOk, Listed, Justified, ProperEntry;
    LogAppend(s.disk.wal, s.entries, e);
    JobFrame(w, s.disk, Logged(s, e).disk, s.job);
  }

  lemma NextVersionFrame(d: Disk, e: Disk)
    requires d.markers == e.markers
    ensures NextVersion(d) == NextVersion(e)
  {
    SameListing(d, e);
  }

  lemma BeginKeeps(w: World, s: State, e: LogEntry, job: Job)
    requires Inv(w, s) && (e == BeginBackup(NextVersion(s.disk)) || e == BeginNetworkBackup(NextVersion(s.disk)))
    requires JobOk(w, s.disk, job)
    ensures Inv(w, Logged(s, e).(job := job))
  {
    hide Inv, JobOk, Listed, NextVersion;
    NextVersionIsNew(s.disk);
    EntryLogged(w, s, e);
    JobFrame(w, s.disk, Logged(s, e).disk, job);
    NewJob(w, Logged(s, e), job);
  }

  lemma NothingPut(c: Codec, objects: Objects, pieces: seq<Bytes>)
    ensures PiecesStored(c, objects, pieces, 0)
  {
  }

  lemma PiecePutKeeps(w: World, s: State)
    requires s.job.Putting? && s.job.done < |AllPieces(s.job.mode, s.job.src)| && s.job.logged
    requires w.Sound() && Inv(w, s)
    ensures Inv(w, PiecePut(w, s))
  {
    hide ValidObjects, VersionsOk, PutsOk, LogHolds, CheckpointOk, MarkersOk, DebrisOk, EntriesOk, SessionsOk,
         AllPieces, ValidSource, Listed, Octets, NextVersion, WithObject;
    var c, d, job := w.codec, s.disk, s.job;
    var x := AllPieces(job.mode, job.src)[job.done];
    PieceInPlay(c, job.mode, job.src, job.done);
    ObjectAdded(w, s, x);
    WithObjectGrows(c, d.objects, x);
    var t := s.(disk := d.(objects := WithObject(c, d.objects, x)));
    NewJob(w, t, PiecePut(w, s).job);
  }

  lemma PieceLoggedKeeps(w: World, s: State)
    requires s.job.Putting? && s.job.done < |AllPieces(s.job.mode, s.job.src)| && !s.job.logged
    requires w.Sound() && Inv(w, s)
    ensures Inv(w, PieceLogged(w, s))
  {
    hide ValidObjects, VersionsOk, PutsOk, LogHolds, CheckpointOk, MarkersOk, DebrisOk, EntriesOk, SessionsOk,
         AllPieces, ValidSource, Listed, Octets, NextVersion;
    var x := AllPieces(s.job.mode, s.job.src)[s.job.done];
    var t := Logged(s, PutObject(w.codec.hash(x)));
    EntryLogged(w, s, PutObject(w.codec.hash(x)));
    NextVersionFrame(s.disk, t.disk);
    NewJob(w, t, PieceLogged(w, s).job);
  }

  lemma StagedKeeps(w: World, s: State, m: Manifest, snap: Source, session: Option<string>, temp: string)
    requires Inv(w, s) && Records(w.codec, s.disk.objects, m, m.version, snap) && m.version == NextVersion(s.disk)
    requires session.Some? ==> session.value in w.sources
    ensures Inv(w, ManifestStaged(s, m, snap, session, temp))
  {
    hide ValidObjects, VersionsOk, PutsOk, LogHolds, CheckpointOk, MarkersOk, DebrisOk, EntriesOk, SessionsOk,
         AllPieces, ValidSource, Listed, NextVersion, Serialize, Records, PiecesStored;
    var d := ManifestStaged(s, m, snap, session, temp).disk;
    NextVersionFrame(s.disk, d);
    SameListing(s.disk, d);
  }

  lemma LocalStagedKeeps(w: World, s: State, temp: string)
    requires s.job.Putting? && s.job.logged && s.job.done == |AllPieces(s.job.mode, s.job.src)|
    requires w.Sound() && Inv(w, s)
    ensures Inv(w, ManifestStaged(s, LocalManifest(w.codec, s.job), s.job.src, None, temp))
  {
    hide ValidObjects, VersionsOk, PutsOk, LogHolds, CheckpointOk, MarkersOk, DebrisOk, EntriesOk, SessionsOk,
         AllPieces, ValidSource, Listed, NextVersion, Serialize, Records, PiecesStored, ManifestStaged;
    LocalManifestRecords(w, s.disk, s.job);
    StagedKeeps(w, s, LocalManifest(w.codec, s.job), s.job.src, None, temp);
  }

  lemma SessionStagedKeeps(w: World, s: State, temp: string)
    requires s.job.Building? && s.job.sessionId in w.sources && SessionManifest(w, s.disk, s.job).Some?
    requires w.Sound() && Inv(w, s)
    ensures Inv(w, ManifestStaged(s, SessionManifest(w, s.disk, s.job).value, w.sources[s.job.sessionId],
                                  Some(s.job.sessionId), temp))
  {
    hide ValidObjects, VersionsOk, PutsOk, LogHolds, CheckpointOk, MarkersOk, DebrisOk, EntriesOk, SessionsOk,
         AllPieces, ValidSource, Listed, NextVersion, Serialize, PiecesStored, SessionManifest, ManifestStaged,
         WellFormed, Entries, Stored;
    var m := SessionManifest(w, s.disk, s.job).value;
    SessionManifestRecords(w, s);
    StagedKeeps(w, s, m, w.sources[s.job.sessionId], Some(s.job.sessionId), temp);
  }

  lemma PhaseLoggedKeeps(w: World, s: State, e: LogEntry, phase: Phase)
    requires s.job.Committing? && Inv(w, s) && ProperEntry(e)
    requires Justified(e, s.disk.objects, s.disk.manifests, s.disk.markers)
    requires JobOk(w, s.disk, s.job.(phase := phase))
    ensures Inv(w, PhaseLogged(s, e, phase))
  {
    hide Inv, JobOk, Listed, ProperEntry, Justified;
    EntryLogged(w, s, e);
    JobFrame(w, s.disk, Logged(s, e).disk, s.job.(phase := phase));
    NewJob(w, Logged(s, e), s.job.(phase := phase));
  }

  lemma LogKeeps(w: World, s: State)
    requires s.job.Committing? && Inv(w, s)
    ensures s.job.phase == Staged ==> Inv(w, PhaseLogged(s, WriteManifest(s.job.version), StagedLogged))
    ensures s.job.phase == Renamed ==> Inv(w, PhaseLogged(s, RenameManifest(s.job.version), RenamedLogged))
    ensures s.job.phase == Marked ==> Inv(w, PhaseLogged(s, CommitBackup(s.job.version), MarkedLogged))
  {
    hide ValidObjects, VersionsOk, PutsOk, LogHolds, CheckpointOk, MarkersOk, DebrisOk, EntriesOk, SessionsOk,
         Listed, NextVersion, Serialize, Records, PhaseLogged;
    var v := s.job.version;
    NextVersionIsNew(s.disk);
    if s.job.phase == Staged {
      PhaseLoggedKeeps(w, s, WriteManifest(v), StagedLogged);
    } else if s.job.phase == Renamed {
      PhaseLoggedKeeps(w, s, RenameManifest(v), RenamedLogged);
    } else if s.job.phase == Marked {
      PhaseLoggedKeeps(w, s, CommitBackup(v), MarkedLogged);
    }
  }

  lemma RenamedEntriesOk(es: seq<LogEntry>, objects: Objects, manifests: map<nat, string>, markers: set<nat>, v: nat, text: string)
    requires EntriesOk(es, objects, manifests, markers)
    ensures EntriesOk(es, objects, manifests[v := text], markers) && EntriesOk(es, objects, manifests, markers + {v})
  {
    forall e | e in es
      ensures Justified(e, objects, manifests[v := text], markers) && Justified(e, objects, manifests, markers + {v})
    {
      assert Justified(e, objects, manifests, markers);
    }
  }

  lemma OrphanReplaced(c: Codec, objects: Objects, manifests: map<nat, string>, committed: set<nat>, snaps: map<nat, Source>,
                       v: nat, text: string)
    requires VersionsOk(c, objects, manifests, committed, snaps) && v !in committed
    ensures VersionsOk(c, objects, manifests[v := text], committed, snaps)
  {
    hide TextRecords;
  }

  /** Renaming replaces at most a manifest that no listed version owns. */
  lemma RenameKeeps(w: World, s: State)
    requires InPhase(s.job, StagedLogged) && s.job.version in s.disk.staged && Inv(w, s)
    ensures Inv(w, ManifestRenamed(s))
  {
    hide ValidObjects, PutsOk, LogHolds, CheckpointOk, MarkersOk, DebrisOk, SessionsOk, EntriesOk, VersionsOk, Committed,
         ValidSource, Listed, NextVersion, Serialize, Records, TextRecords;
    var t, v := ManifestRenamed(s), s.job.version;
    NextVersionIsNew(s.disk);
    NextVersionFrame(s.disk, t.disk);
    SameListing(s.disk, t.disk);
    OrphanReplaced(w.codec, s.disk.objects, s.disk.manifests, Committed(s.disk), s.snaps, v, s.disk.staged[v]);
    RenamedEntriesOk(s.entries, s.disk.objects, s.disk.manifests, s.disk.markers, v, s.disk.staged[v]);
  }

  lemma MarkedCommitted(d: Disk, v: nat)
    ensures Committed(d.(markers := d.markers + {v})) == if v < VERSION_LIMIT then Committed(d) + {v} else Committed(d)
  {
  }

  lemma CheckpointGrows(checkpoint: Option<string>, before: set<nat>, after: set<nat>)
    requires CheckpointOk(checkpoint, before) && before <= after
    ensures CheckpointOk(checkpoint, after)
  {
    hide CheckpointText, StrictlySorted, AllBelow;
  }

  lemma MarkersGrow(d: Disk)
    requires MarkersOk(d.markers)
    ensures MarkersOk(d.markers + {NextVersion(d)})
  {
    hide NextVersion;
    NextVersionIsNew(d);
  }

  lemma VersionAdded(c: Codec, d: Disk, snaps: map<nat, Source>, v: nat, m: Manifest, snap: Source)
    requires VersionsOk(c, d.objects, d.manifests, Committed(d), snaps)
    requires v in d.manifests && d.manifests[v] == Serialize(m) && Records(c, d.objects, m, v, snap)
    ensures VersionsOk(c, d.objects, d.manifests, Committed(d) + {v}, snaps[v := snap])
  {
    hide Records, Serialize, Committed;
    assert TextRecords(c, d.objects, d.manifests[v], v, snap);
  }

  lemma VersionsFewer(c: Codec, objects: Objects, manifests: map<nat, string>, committed: set<nat>, snaps: map<nat, Source>,
                      v: nat, snap: Source)
    requires VersionsOk(c, objects, manifests, committed, snaps) && v !in committed
    ensures VersionsOk(c, objects, manifests, committed, snaps[v := snap])
  {
    hide TextRecords;
  }

  /** The marker makes the version visible, with the manifest and the objects already in place. */
  lemma MarkKeeps(w: World, s: State, temp: string)
    requires InPhase(s.job, RenamedLogged) && Inv(w, s)
    ensures Inv(w, VersionMarked(s, temp))
  {
    hide ValidObjects, PutsOk, LogHolds, SessionsOk, MarkersOk, EntriesOk, VersionsOk, CheckpointOk, Committed, LeftOverName,
         ValidSource, Listed, NextVersion, Serialize, Records;
    var d, v, snap, t := s.disk, s.job.version, s.job.snap, VersionMarked(s, temp);
    NextVersionIsNew(d);
    MarkersGrow(d);
    MarkedCommitted(d, v);
    SameListing(d.(markers := d.markers + {v}), t.disk);
    if v < VERSION_LIMIT {
      VersionAdded(w.codec, d, s.snaps, v, s.job.manifest, snap);
    } else {
      VersionsFewer(w.codec, d.objects, d.manifests, Committed(d), s.snaps, v, snap);
    }
    CheckpointGrows(d.checkpoint, Committed(d), Committed(t.disk));
    RenamedEntriesOk(s.entries, d.objects, d.manifests, d.markers, v, "");
  }

  lemma CheckpointSavedKeeps(w: World, s: State, job: Job)
    requires Inv(w, s) && JobOk(w, s.disk, job)
    ensures Inv(w, CheckpointSaved(s, job))
  {
    hide ValidObjects, VersionsOk, PutsOk, LogHolds, MarkersOk, DebrisOk, EntriesOk, SessionsOk,
         CheckpointText, StrictlySorted, AllBelow, JobOk, Committed, Listed;
    var d := CheckpointSaved(s, job).disk;
    JobFrame(w, s.disk, d, job);
    SameListing(s.disk, d);
  }

  lemma ReplaceLogKeeps(w: World, s: State)
    requires Inv(w, s)
    ensures Inv(w, LogReplaced(s))
  {
    hide ValidObjects, VersionsOk, PutsOk, CheckpointOk, MarkersOk, DebrisOk, SessionsOk, ToRecord, JobOk, Listed, Committed,
         EntriesOk, LogHolds;
    var t := LogReplaced(s);
    SameListing(s.disk, t.disk);
    NoJob(w, t.disk, Idle);
    CompactedLog(s.disk);
  }

  lemma CompactedLog(d: Disk)
    ensures var es := [CheckpointEntry(Listed(d)), CompactEntry];
            LogHolds(WalLog.EncodeAll(ToRecords(es)), es) && EntriesOk(es, d.objects, d.manifests, d.markers)
  {
    hide ToRecord, ToRecords, StrictlySorted, AllBelow, WalLog.EncodeAll, Listed;
    assert forall v: nat :: v in Listed(d) ==> v in Committed(d);
  }

  // Session indexes.

  lemma RecordReadable(w: World, id: string, i: nat)
    requires w.Sound() && id in w.sources && i < |PreparedChunks(w.codec, w.sources[id])|
    ensures Readable(SessionIndex.ChunkLine(RecordOf(PreparedChunks(w.codec, w.sources[id])[i])))
    ensures w.codec.inPlay(PreparedChunks(w.codec, w.sources[id])[i].raw)
    ensures PreparedChunks(w.codec, w.sources[id])[i].sha256 == w.codec.hash(PreparedChunks(w.codec, w.sources[id])[i].raw)
  {
    hide PiecesOf, PreparedChunks, ObjectPath, Octets, IsWord, Safe;
    var c, src := w.codec, w.sources[id];
    assert w.SoundSession(id);
    PreparedAt(c, src, i);
    var p := PreparedChunks(c, src)[i];
    var f, k: nat :| f in src && PieceOfFile(c, f, k, p);
    assert ValidFile(c, f);
    var piece := PiecesOf(Fixed, f.content)[k];
    assert piece in PiecesOf(Fixed, f.content);
    ObjectPathSafe(c.hash(piece));
    DigestIsWord(c.hash(piece));
    DigestIsWord(c.hash(f.content));
    ValidFileHasPath(c, f);
    SafeIsNotEmpty(ObjectPath(c.hash(piece)));
    FewPieces(Fixed, f.content);
  }

  lemma DigestIsWord(sha: string)
    requires Sha256Hex(sha)
    ensures IsWord(sha)
  {
    HexIsWord(sha);
  }

  lemma LineAppended(c: Codec, src: Source, objects: Objects, text: string, line: Line)
    requires IndexOk(c, src, objects, text) && Readable(line)
    requires line.ChunkLine? ==>
      line.record.globalIndex < |AllRecords(c, src)| && line.record == AllRecords(c, src)[line.record.globalIndex]
      && line.record.sha256 in objects
    ensures IndexOk(c, src, objects, text + LineText(line))
  {
    hide LineText, AllRecords, Readable;
    var lines :| LinesOk(c, src, objects, lines) && text == TextOf(lines);
    var after := lines + [line];
    assert after[..|lines|] == lines;
    assert RecordsOf(after) == RecordsOf(lines) + if line.ChunkLine? then [line.record] else [];
    assert LinesOk(c, src, objects, after) && text + LineText(line) == TextOf(after);
  }

  lemma SessionWritten(w: World, s: State, id: string, text: string, puts: set<Put>)
    requires Inv(w, s) && id in w.sources && IndexOk(w.codec, w.sources[id], s.disk.objects, text) && puts <= s.puts
    ensures Inv(w, s.(disk := s.disk.(sessions := s.disk.sessions[id := text]), puts := puts))
  {
    hide ValidObjects, VersionsOk, LogHolds, CheckpointOk, MarkersOk, DebrisOk, EntriesOk, JobOk, Listed, IndexOk, Sends, Sent;
    var d := s.disk.(sessions := s.disk.sessions[id := text]);
    JobFrame(w, s.disk, d, s.job);
    SameListing(s.disk, d);
  }

  lemma AppendKeeps(w: World, s: State, p: Put)
    requires Sends(w, p) && p in s.puts && w.Sound() && Inv(w, s)
    ensures Inv(w, ChunkAppended(w, s, p))
  {
    hide ValidObjects, VersionsOk, LogHolds, CheckpointOk, MarkersOk, DebrisOk, EntriesOk, Listed, IndexOk, LineText,
         PreparedChunks, AllRecords, ReadRecords, RecordOf, JobOk;
    var d, src, text := s.disk, w.sources[p.sessionId], SessionText(s.disk, p.sessionId);
    SessionTextOk(w, d.objects, d, p.sessionId);
    RecordReadable(w, p.sessionId, p.index);
    AllRecordsAt(w.codec, src, p.index);
    var r := RecordOf(Sent(w, p));
    RecordDigest(Sent(w, p));
    LineAppended(w.codec, src, d.objects, text, SessionIndex.ChunkLine(r));
    SessionWritten(w, s, p.sessionId, Appended(text, r), s.puts - {p});
  }

  lemma MarkSessionKeeps(w: World, s: State)
    requires InPhase(s.job, Checkpointed) && s.job.session.Some? && Inv(w, s)
    ensures Inv(w, SessionMarked(s))
  {
    hide ValidObjects, VersionsOk, LogHolds, CheckpointOk, MarkersOk, DebrisOk, EntriesOk, Listed, IndexOk, LineText, Records,
         SessionText, Honest;
    var id, line := s.job.session.value, CommittedLine(s.job.version);
    SessionTextOk(w, s.disk.objects, s.disk, id);
    LineAppended(w.codec, w.sources[id], s.disk.objects, SessionText(s.disk, id), line);
    SessionWritten(w, s, id, SessionText(s.disk, id) + LineText(line), s.puts);
    NewJob(w, SessionMarked(s).(job := s.job), Idle);
  }

  lemma RecordDigest(p: PreparedChunk)
    ensures RecordOf(p).sha256 == p.sha256
  {
  }

  lemma PutKeeps(w: World, s: State, p: Put)
    requires Sends(w, p) && w.Sound() && Inv(w, s)
    ensures Inv(w, ChunkPut(w, s, p))
  {
    hide ValidObjects, VersionsOk, LogHolds, CheckpointOk, MarkersOk, DebrisOk, EntriesOk, SessionsOk, JobOk, Listed, Committed,
         PreparedChunks, WithObject;
    RecordReadable(w, p.sessionId, p.index);
    var x := Sent(w, p).raw;
    ObjectAdded(w, s, x);
    WithObjectGrows(w.codec, s.disk.objects, x);
  }

  /** Files that are not in use come and go. */
  lemma TmpKeeps(w: World, s: State, staged: map<nat, string>, tmpDebris: set<string>)
    requires Inv(w, s) && (s.job.Recovering? || staged == s.disk.staged)
    ensures Inv(w, s.(disk := s.disk.(staged := staged, tmpDebris := tmpDebris)))
  {
    hide ValidObjects, VersionsOk, LogHolds, CheckpointOk, MarkersOk, EntriesOk, SessionsOk, PutsOk, DebrisOk, Listed, JobOk, Committed;
    var d := s.disk.(staged := staged, tmpDebris := tmpDebris);
    SameListing(s.disk, d);
    if s.job.Recovering? {
      NoJob(w, d, s.job);
    } else {
      JobFrame(w, s.disk, d, s.job);
    }
  }

  lemma DebrisKeeps(w: World, s: State, name: string)
    requires Inv(w, s) && LeftOverName(name)
    ensures Inv(w, s.(disk := s.disk.(debris := s.disk.debris + {name})))
  {
    hide ValidObjects, VersionsOk, LogHolds, CheckpointOk, MarkersOk, EntriesOk, SessionsOk, PutsOk, Listed, JobOk, Committed,
         LeftOverName;
    var d := s.disk.(debris := s.disk.debris + {name});
    SameListing(s.disk, d);
    JobFrame(w, s.disk, d, s.job);
  }

  /** An error ends a job, and a crash the puts as well. */
  lemma StopKeeps(w: World, s: State, job: Job, puts: set<Put>)
    requires Inv(w, s) && (job.Idle? || job.Recovering?) && puts <= s.puts
    ensures Inv(w, s.(job := job, puts := puts))
  {
    hide ValidObjects, VersionsOk, LogHolds, CheckpointOk, MarkersOk, EntriesOk, SessionsOk, DebrisOk, Listed, JobOk, Committed,
         Sends, Sent;
    NoJob(w, s.disk, job);
  }

  lemma NoJob(w: World, d: Disk, job: Job)
    requires job.Idle? || job.Recovering? || job.Compacting?
    ensures JobOk(w, d, job)
  {
  }

  ghost predicate LocalAction(a: Action) {
    a.Begin? || a.PutPiece? || a.LogPiece? || a.StageLocal?
  }

  ghost predicate SessionAction(a: Action) {
    a.BeginSession? || a.StageSession? || a.MarkSession?
  }

  ghost predicate ChunkAction(a: Action) {
    a.PutChunk? || a.AppendChunk?
  }

  ghost predicate LogAction(a: Action) {
    a.LogStaged? || a.LogRenamed? || a.LogMarked?
  }

  ghost predicate CommitAction(a: Action) {
    a.Rename? || a.Mark? || a.SaveCheckpoint?
  }

  ghost predicate MaintenanceAction(a: Action) {
    a.FinishRecover? || a.BeginCompact? || a.ReplaceLog?
  }

  ghost predicate RecoveryAction(a: Action) {
    a.BeginRecover? || a.RemoveStaged? || a.RemoveTmp?
  }

  lemma LocalKeeps(w: World, s: State, a: Action)
    requires Enabled(w, s, a) && w.Sound() && Inv(w, s) && LocalAction(a)
    ensures Inv(w, Apply(w, s, a))
  {
    hide Inv, Logged, PiecePut, PieceLogged, ManifestStaged, LocalManifest, AllPieces, ValidSource, Octets, NextVersion;
    match a
    case Begin(src, mode, now, root) =>
      var v := NextVersion(s.disk);
      NothingPut(w.codec, s.disk.objects, AllPieces(mode, src));
      BeginKeeps(w, s, BeginBackup(v), Putting(v, src, mode, now, root, 0, true, 0));
    case PutPiece => PiecePutKeeps(w, s);
    case LogPiece => PieceLoggedKeeps(w, s);
    case StageLocal(temp) => LocalStagedKeeps(w, s, temp);
  }

  lemma SessionKeeps(w: World, s: State, a: Action)
    requires Enabled(w, s, a) && w.Sound() && Inv(w, s) && SessionAction(a)
    ensures Inv(w, Apply(w, s, a))
  {
    hide Inv, Logged, ManifestStaged, SessionMarked, SessionManifest, NextVersion, PreparedChunks, Enabled, Apply;
    SessionMeaning(w, s, a);
    match a
    case BeginSession(id, now) =>
      BeginKeeps(w, s, BeginNetworkBackup(NextVersion(s.disk)), Building(NextVersion(s.disk), id, now));
    case StageSession(temp) => SessionStagedKeeps(w, s, temp);
    case MarkSession => MarkSessionKeeps(w, s);
  }

  lemma SessionMeaning(w: World, s: State, a: Action)
    requires Enabled(w, s, a) && SessionAction(a)
    ensures a.BeginSession? ==>
      && s.job.Idle? && a.sessionId in w.sources && a.now < U64
      && var v := NextVersion(s.disk);
         Apply(w, s, a) == Logged(s, BeginNetworkBackup(v)).(job := Building(v, a.sessionId, a.now))
    ensures a.StageSession? ==>
      && s.job.Building? && s.job.sessionId in w.sources && SessionManifest(w, s.disk, s.job).Some?
      && Apply(w, s, a) == ManifestStaged(s, SessionManifest(w, s.disk, s.job).value, w.sources[s.job.sessionId],
                                          Some(s.job.sessionId), a.temp)
    ensures a.MarkSession? ==>
      InPhase(s.job, Checkpointed) && s.job.session.Some? && Apply(w, s, a) == SessionMarked(s)
  {
    hide Logged, ManifestStaged, SessionMarked, SessionManifest, NextVersion, PreparedChunks;
  }

  lemma ChunkKeeps(w: World, s: State, a: Action)
    requires Enabled(w, s, a) && w.Sound() && Inv(w, s) && ChunkAction(a)
    ensures Inv(w, Apply(w, s, a))
  {
    hide Inv, ChunkPut, ChunkAppended, PreparedChunks, Enabled, Apply;
    match a
    case PutChunk(p) =>
      ChunkMeaning(w, s, p);
      PutKeeps(w, s, p);
    case AppendChunk(p) =>
      ChunkMeaning(w, s, p);
      AppendKeeps(w, s, p);
  }

  lemma ChunkMeaning(w: World, s: State, p: Put)
    ensures Enabled(w, s, PutChunk(p)) ==> Sends(w, p) && Apply(w, s, PutChunk(p)) == ChunkPut(w, s, p)
    ensures Enabled(w, s, AppendChunk(p)) ==>
      Sends(w, p) && p in s.puts && Apply(w, s, AppendChunk(p)) == ChunkAppended(w, s, p)
  {
    hide ChunkPut, ChunkAppended, PreparedChunks;
  }

  lemma LoggingKeeps(w: World, s: State, a: Action)
    requires Enabled(w, s, a) && Inv(w, s) && LogAction(a)
    ensures Inv(w, Apply(w, s, a))
  {
    hide Inv, PhaseLogged;
    LogKeeps(w, s);
  }

  lemma CommitKeeps(w: World, s: State, a: Action)
    requires Enabled(w, s, a) && w.Sound() && Inv(w, s) && CommitAction(a)
    ensures Inv(w, Apply(w, s, a))
  {
    hide Inv, ManifestRenamed, VersionMarked, CheckpointSaved, Enabled, Apply;
    CommitMeaning(w, s, a);
    match a
    case Rename => RenameKeeps(w, s);
    case Mark(temp) => MarkKeeps(w, s, temp);
    case SaveCheckpoint =>
      CheckpointedJobOk(w, s);
      CheckpointSavedKeeps(w, s, if s.job.session.Some? then s.job.(phase := Checkpointed) else Idle);
  }

  lemma CommitMeaning(w: World, s: State, a: Action)
    requires Enabled(w, s, a) && CommitAction(a)
    ensures a.Rename? ==>
      InPhase(s.job, StagedLogged) && s.job.version in s.disk.staged && Apply(w, s, a) == ManifestRenamed(s)
    ensures a.Mark? ==> InPhase(s.job, RenamedLogged) && Apply(w, s, a) == VersionMarked(s, a.temp)
    ensures a.SaveCheckpoint? ==>
      && InPhase(s.job, MarkedLogged)
      && Apply(w, s, a) == CheckpointSaved(s, if s.job.session.Some? then s.job.(phase := Checkpointed) else Idle)
  {
    hide ManifestRenamed, VersionMarked, CheckpointSaved;
  }

  lemma CheckpointedJobOk(w: World, s: State)
    requires Inv(w, s) && InPhase(s.job, MarkedLogged)
    ensures JobOk(w, s.disk, s.job.(phase := Checkpointed)) && JobOk(w, s.disk, Idle)
  {
    hide Records, Serialize, NextVersion;
  }

  lemma MaintenanceKeeps(w: World, s: State, a: Action)
    requires Enabled(w, s, a) && Inv(w, s) && MaintenanceAction(a)
    ensures Inv(w, Apply(w, s, a))
  {
    hide Inv, CheckpointSaved, LogReplaced;
    NoJob(w, s.disk, Idle);
    NoJob(w, s.disk, Compacting);
    match a
    case FinishRecover => CheckpointSavedKeeps(w, s, Idle);
    case BeginCompact => CheckpointSavedKeeps(w, s, Compacting);
    case ReplaceLog => ReplaceLogKeeps(w, s);
  }

  lemma RecoveryKeeps(w: World, s: State, a: Action)
    requires Enabled(w, s, a) && Inv(w, s) && RecoveryAction(a)
    ensures Inv(w, Apply(w, s, a))
  {
    hide Inv, WalLog.Read;
    match a
    case BeginRecover => StopKeeps(w, s, Recovering, s.puts);
    case RemoveStaged(v) => TmpKeeps(w, s, s.disk.staged - {v}, s.disk.tmpDebris);
    case RemoveTmp(name) => TmpKeeps(w, s, s.disk.staged, s.disk.tmpDebris - {name});
  }

  lemma AccidentKeeps(w: World, s: State, a: Action)
    requires Enabled(w, s, a) && Inv(w, s) && (a.LeaveInManifests? || a.LeaveInTmp? || a.Abort? || a.Crash?)
    ensures Inv(w, Apply(w, s, a))
  {
    hide Inv, LeftOverName;
    match a
    case LeaveInManifests(name) => DebrisKeeps(w, s, name);
    case LeaveInTmp(name) => TmpKeeps(w, s, s.disk.staged, s.disk.tmpDebris + {name});
    case Abort => StopKeeps(w, s, Idle, s.puts);
    case Crash => StopKeeps(w, s, Idle, {});
  }

  /** Every step of every program keeps the invariant. */
  lemma StepKeeps(w: World, s: State, a: Action)
    requires Enabled(w, s, a) && w.Sound() && Inv(w, s)
    ensures Inv(w, Apply(w, s, a))
  {
    hide Inv, Apply, Enabled;
    if LocalAction(a) {
      LocalKeeps(w, s, a);
    } else if SessionAction(a) {
      SessionKeeps(w, s, a);
    } else if ChunkAction(a) {
      ChunkKeeps(w, s, a);
    } else if LogAction(a) {
      LoggingKeeps(w, s, a);
    } else if CommitAction(a) {
      CommitKeeps(w, s, a);
    } else if MaintenanceAction(a) {
      MaintenanceKeeps(w, s, a);
    } else if RecoveryAction(a) {
      RecoveryKeeps(w, s, a);
    } else {
      AccidentKeeps(w, s, a);
    }
  }
}
