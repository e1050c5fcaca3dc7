/** What the commit protocol guarantees in every run, however often it crashes. */
module Guarantees {
  import opened Wrappers
  import opened Slices
  import opened Bytes
  import opened Text
  import opened Sorting
  import opened Paths
  import opened Manifest
  import opened FileTree
  import opened ObjectStore
  import opened Snapshot
  import opened SessionIndex
  import opened Upload
  import opened Checkpoint
  import opened Disk
  import opened Protocol
  import opened Safety
  import WalLog

  lemma InitialInv(w: World)
    ensures Inv(w, INITIAL)
  {
    hide WalLog.Encode;
    assert Committed(EMPTY) == {};
  }

  lemma {:induction false} RunKeeps(w: World, run: seq<State>, i: nat)
    requires w.Sound() && IsRun(w, run) && i < |run|
    ensures Inv(w, run[i])
  {
    hide Inv, Apply, Enabled;
    if i == 0 {
      InitialInv(w);
    } else {
      RunKeeps(w, run, i - 1);
      assert StepAt(w, run, i - 1);
      var a :| Enabled(w, run[i - 1], a) && run[i] == Apply(w, run[i - 1], a);
      StepKeeps(w, run[i - 1], a);
    }
  }

  lemma RunExtends(w: World, run: seq<State>, s: State, t: State)
    requires RunTo(w, run, s) && Step(w, s, t)
    ensures RunTo(w, run + [t], t)
  {
    hide Step;
    var longer := run + [t];
    forall i | 0 <= i < |longer| - 1
      ensures StepAt(w, longer, i)
    {
      if i < |run| - 1 {
        assert StepAt(w, run, i);
      }
    }
  }

  lemma ReachableStep(w: World, s: State, t: State)
    requires Reachable(w, s) && Step(w, s, t)
    ensures Reachable(w, t)
  {
    hide Step, RunTo;
    var run :| RunTo(w, run, s);
    RunExtends(w, run, s, t);
    assert RunTo(w, run + [t], t);
  }

  lemma InitialReachable(w: World)
    ensures Reachable(w, INITIAL)
  {
    assert RunTo(w, [INITIAL], INITIAL);
  }

  lemma ReachableInv(w: World, s: State)
    requires w.Sound() && Reachable(w, s)
    ensures Inv(w, s)
  {
    hide Inv, IsRun, StepAt, Step, Apply, Enabled;
    var run :| RunTo(w, run, s);
    RunKeeps(w, run, |run| - 1);
  }

  // Restoring.

  /** `restore` of a version into a directory: the directory afterwards, and whether there was no error. */
  function RestoreVersion(c: Codec, d: Disk, v: nat, target: Tree): (Tree, bool) {
    if v !in d.markers || v !in d.manifests then (target, false)
    else
      var m := Parse(d.manifests[v]);
      if m.None? then (target, false) else RestoreFiles(c, d.objects, m.value.files, target)
  }

  /** The version restores into an empty directory as exactly this source tree. */
  ghost predicate Restores(c: Codec, d: Disk, v: nat, src: Source) {
    var (tree, ok) := RestoreVersion(c, d, v, EMPTY_TREE);
    ok && Mirrors(tree, src)
  }

  /**
   * In every reachable state, every version that the listing shows loads, restores to exactly the tree of
   * files that it was made from, and verifies.
   */
  lemma ListedVersionsRestore(w: World, s: State, v: nat)
    requires w.Sound() && Reachable(w, s) && v in Listed(s.disk)
    ensures v in s.snaps && Restores(w.codec, s.disk, v, s.snaps[v])
    ensures Parse(s.disk.manifests[v]).Some? && Parse(s.disk.manifests[v]).value.version == v
    ensures Verifies(w.codec, s.disk.objects, Parse(s.disk.manifests[v]).value.files)
  {
    hide ValidObjects, PutsOk, LogHolds, CheckpointOk, MarkersOk, DebrisOk, EntriesOk, SessionsOk, JobOk, Listed,
         Parse, Serialize, WellFormed, Entries, Stored, RestoreFiles, Mirrors, ValidSource, Verifies, PathsFit;
    var c, d := w.codec, s.disk;
    ReachableInv(w, s);
    assert v in Committed(d);
    assert TextRecords(c, d.objects, d.manifests[v], v, s.snaps[v]);
    var m :| Records(c, d.objects, m, v, s.snaps[v]) && d.manifests[v] == Serialize(m);
    ParseIsInverseOfSerialize(m);
    RestoreEntries(c, d.objects, m.mode, s.snaps[v]);
    RestoreIffVerify(c, d.objects, m.files, EMPTY_TREE);
  }

  /** Listing the directory, in any order, never fails and agrees with the markers. */
  lemma ListingAgrees(w: World, s: State, names: seq<string>, v: nat)
    requires w.Sound() && Reachable(w, s) && IsDirectory(names, s.disk) && v < VERSION_LIMIT
    ensures ListCommittedVersions(names) == Some(Listed(s.disk))
    ensures v in Listed(s.disk) <==> v in s.disk.markers
  {
    hide ValidObjects, VersionsOk, PutsOk, LogHolds, CheckpointOk, MarkersOk, EntriesOk, SessionsOk, JobOk, Listed,
         ListCommittedVersions, IsDirectory, LeftOverName;
    ReachableInv(w, s);
    DirectoryListing(names, s.disk);
    assert v in Listed(s.disk) <==> v in Committed(s.disk);
  }

  // Committed versions stay.

  ghost predicate SameVersions(s: State, t: State) {
    t.disk.markers == s.disk.markers && t.disk.manifests == s.disk.manifests && t.snaps == s.snaps
  }

  /** Markers are only added; a manifest is only replaced by a rename, a snapshot only by a marker. */
  lemma StepChanges(w: World, s: State, a: Action)
    requires Enabled(w, s, a)
    ensures var t := Apply(w, s, a);
            && s.disk.markers <= t.disk.markers
            && (t.disk.manifests == s.disk.manifests
                || (InPhase(s.job, StagedLogged) && s.job.version in s.disk.staged
                    && t.disk.manifests == s.disk.manifests[s.job.version := s.disk.staged[s.job.version]]))
            && (t.snaps == s.snaps
                || (InPhase(s.job, RenamedLogged) && t.snaps == s.snaps[s.job.version := s.job.snap]))
  {
    hide Enabled, Apply, CheckpointNow;
    if CommitAction(a) {
      CommitMeaning(w, s, a);
    } else if LocalAction(a) {
      LocalKeepsVersions(w, s, a);
    } else if SessionAction(a) {
      SessionMeaning(w, s, a);
    } else if ChunkAction(a) {
      ChunkMeaning(w, s, a.put);
    } else {
      OthersKeepVersions(w, s, a);
    }
  }

  lemma LocalKeepsVersions(w: World, s: State, a: Action)
    requires Enabled(w, s, a) && LocalAction(a)
    ensures SameVersions(s, Apply(w, s, a))
  {
    hide AllPieces, ValidSource, LocalManifest, NextVersion, Logged, PiecePut, PieceLogged, ManifestStaged;
    match a
    case Begin(src, mode, now, root) => LoggedKeepsVersions(s, BeginBackup(NextVersion(s.disk)));
    case PutPiece => PieceKeepsVersions(w, s);
    case LogPiece => PieceKeepsVersions(w, s);
    case StageLocal(temp) => StagedKeepsVersions(s, LocalManifest(w.codec, s.job), s.job.src, None, temp);
  }

  lemma LoggedKeepsVersions(s: State, e: LogEntry)
    ensures SameVersions(s, Logged(s, e))
  {
  }

  lemma PieceKeepsVersions(w: World, s: State)
    requires s.job.Putting? && s.job.done < |AllPieces(s.job.mode, s.job.src)|
    ensures SameVersions(s, PiecePut(w, s)) && SameVersions(s, PieceLogged(w, s))
  {
    hide AllPieces, WithObject;
  }

  lemma StagedKeepsVersions(s: State, m: Manifest, snap: Source, session: Option<string>, temp: string)
    ensures SameVersions(s, ManifestStaged(s, m, snap, session, temp))
  {
  }

  lemma OthersKeepVersions(w: World, s: State, a: Action)
    requires Enabled(w, s, a) && !(CommitAction(a) || LocalAction(a) || SessionAction(a) || ChunkAction(a))
    ensures SameVersions(s, Apply(w, s, a))
  {
    hide Enabled, Apply;
    if LogAction(a) {
      LogKeepsVersions(w, s, a);
    } else if MaintenanceAction(a) {
      MaintenanceKeepsVersions(w, s, a);
    } else {
      AccidentsKeepVersions(w, s, a);
    }
  }

  lemma LogKeepsVersions(w: World, s: State, a: Action)
    requires Enabled(w, s, a) && LogAction(a)
    ensures SameVersions(s, Apply(w, s, a))
  {
    hide PhaseLogged;
    match a
    case LogStaged => PhaseKeepsVersions(s, WriteManifest(s.job.version), StagedLogged);
    case LogRenamed => PhaseKeepsVersions(s, RenameManifest(s.job.version), RenamedLogged);
    case LogMarked => PhaseKeepsVersions(s, CommitBackup(s.job.version), MarkedLogged);
  }

  lemma PhaseKeepsVersions(s: State, e: LogEntry, phase: Phase)
    requires s.job.Committing?
    ensures SameVersions(s, PhaseLogged(s, e, phase))
  {
  }

  lemma MaintenanceKeepsVersions(w: World, s: State, a: Action)
    requires Enabled(w, s, a) && MaintenanceAction(a)
    ensures SameVersions(s, Apply(w, s, a))
  {
    hide CheckpointSaved, LogReplaced;
    CheckpointKeepsVersions(s, if a.FinishRecover? then Idle else Compacting);
  }

  lemma CheckpointKeepsVersions(s: State, job: Job)
    ensures SameVersions(s, CheckpointSaved(s, job)) && SameVersions(s, LogReplaced(s))
  {
    hide CheckpointNow;
  }

  lemma AccidentsKeepVersions(w: World, s: State, a: Action)
    requires Enabled(w, s, a)
    requires RecoveryAction(a) || a.LeaveInManifests? || a.LeaveInTmp? || a.Abort? || a.Crash?
    ensures SameVersions(s, Apply(w, s, a))
  {
    hide PiecePut, PieceLogged, ManifestStaged, LocalManifest, SessionManifest, PhaseLogged, ManifestRenamed, VersionMarked,
         CheckpointSaved, SessionMarked, LogReplaced, ChunkPut, ChunkAppended, Logged, LeftOverName, SameVersions;
    var d := s.disk;
    match a
    case BeginRecover => QuietKeepsVersions(s, d, Recovering, s.puts);
    case RemoveStaged(v) => QuietKeepsVersions(s, d.(staged := d.staged - {v}), s.job, s.puts);
    case RemoveTmp(name) => QuietKeepsVersions(s, d.(tmpDebris := d.tmpDebris - {name}), s.job, s.puts);
    case LeaveInManifests(name) => QuietKeepsVersions(s, d.(debris := d.debris + {name}), s.job, s.puts);
    case LeaveInTmp(name) => QuietKeepsVersions(s, d.(tmpDebris := d.tmpDebris + {name}), s.job, s.puts);
    case Abort => QuietKeepsVersions(s, d, Idle, s.puts);
    case Crash => QuietKeepsVersions(s, d, Idle, {});
  }

  lemma QuietKeepsVersions(s: State, d: Disk, job: Job, puts: set<Put>)
    requires d.markers == s.disk.markers && d.manifests == s.disk.manifests
    ensures SameVersions(s, s.(disk := d, job := job, puts := puts))
  {
  }

  /** Nothing that any program does takes away a listed version or replaces its manifest. */
  lemma StepKeepsCommitted(w: World, s: State, a: Action, v: nat)
    requires Enabled(w, s, a) && Inv(w, s) && v in Committed(s.disk)
    ensures var t := Apply(w, s, a);
            && v in Committed(t.disk) && v in s.disk.manifests && v in t.disk.manifests && v in s.snaps && v in t.snaps
            && t.disk.manifests[v] == s.disk.manifests[v] && t.snaps[v] == s.snaps[v]
  {
    hide Apply, Enabled, ValidObjects, PutsOk, LogHolds, CheckpointOk, MarkersOk, DebrisOk, EntriesOk, SessionsOk, Listed,
         NextVersion, Records, TextRecords, Serialize, PiecesStored, AllPieces, ValidSource;
    NextVersionIsNew(s.disk);
    StepChanges(w, s, a);
  }

  lemma {:induction false} CommittedForever(w: World, run: seq<State>, i: nat, j: nat, v: nat)
    requires w.Sound() && IsRun(w, run) && i <= j < |run| && v in Committed(run[i].disk)
    ensures v in Committed(run[j].disk) && v in run[i].disk.manifests && v in run[j].disk.manifests
    ensures v in run[i].snaps && v in run[j].snaps
    ensures run[j].disk.manifests[v] == run[i].disk.manifests[v] && run[j].snaps[v] == run[i].snaps[v]
    decreases j
  {
    hide Apply, Enabled, Committed, ValidObjects, PutsOk, LogHolds, CheckpointOk, MarkersOk, DebrisOk, EntriesOk, SessionsOk,
         JobOk, TextRecords;
    if i == j {
      RunKeeps(w, run, i);
    } else {
      CommittedForever(w, run, i, j - 1, v);
      RunKeeps(w, run, j - 1);
      assert StepAt(w, run, j - 1);
      var a :| Enabled(w, run[j - 1], a) && run[j] == Apply(w, run[j - 1], a);
      StepKeepsCommitted(w, run[j - 1], a, v);
    }
  }

  /**
   * The limit of that guarantee: a backup is about to replace the manifest of a version that has a marker
   * exactly when version 1000000, which the listing cannot see, has been committed already.
   */
  lemma ReplacesMarkedIff(w: World, s: State)
    requires w.Sound() && Reachable(w, s)
    ensures s.job.Idle? ==> (NextVersion(s.disk) in s.disk.markers <==> VERSION_LIMIT in s.disk.markers)
    ensures InPhase(s.job, StagedLogged) ==> (s.job.version in s.disk.markers <==> VERSION_LIMIT in s.disk.markers)
  {
    hide ValidObjects, VersionsOk, PutsOk, LogHolds, CheckpointOk, DebrisOk, EntriesOk, SessionsOk, Listed, NextVersion,
         Records, Serialize, Reachable, AllPieces, PiecesStored, ValidSource;
    var d := s.disk;
    ReachableInv(w, s);
    NextVersionIsNew(d);
    var v := NextVersion(d);
    assert v < VERSION_LIMIT && v in d.markers ==> v in Committed(d);
  }

  // The log, the checkpoint, the sessions.

  /** What a record of the log tells of is there: a readable object, a manifest, a marker, committed versions. */
  ghost predicate TellsTruth(c: Codec, d: Disk, r: WalLog.Record) {
    && (r.kind == WalLog.PUT_OBJECT ==>
          exists sha :: sha in d.objects && r.payload == AsBytes(sha + " " + ObjectPath(sha) + "\n")
                        && ReadRaw(c, d.objects, sha, ObjectPath(sha)).Some?)
    && (r.kind == WalLog.RENAME_MANIFEST ==> exists v :: v in d.manifests && NamesVersion(r.payload, "", v))
    && (r.kind == WalLog.COMMIT_BACKUP ==> exists v :: v in d.markers && NamesVersion(r.payload, "", v))
    && (r.kind == WalLog.CHECKPOINT ==> exists vs :: AllMarked(d, vs) && NamesVersions(r.payload, vs))
  }

  ghost predicate AllMarked(d: Disk, vs: seq<nat>) {
    forall v: nat :: v in vs ==> v in d.markers
  }

  /** The log always reads back, and every record that is read tells the truth. */
  lemma LogIsTruthful(w: World, s: State)
    requires w.Sound() && Reachable(w, s)
    ensures WalLog.Read(s.disk.wal).Ok?
    ensures forall r :: r in WalLog.Read(s.disk.wal).value ==> TellsTruth(w.codec, s.disk, r)
  {
    hide VersionsOk, PutsOk, LogHolds, CheckpointOk, MarkersOk, DebrisOk, SessionsOk, JobOk, Listed, ValidObjects, Justified,
         WalLog.Read, TellsTruth, ToRecord;
    ReachableInv(w, s);
    LogReadsBack(s.disk.wal, s.entries);
    forall r | r in WalLog.Read(s.disk.wal).value
      ensures TellsTruth(w.codec, s.disk, r)
    {
      var i :| 0 <= i < |s.entries| && r == ToRecord(s.entries[i]);
      assert s.entries[i] in s.entries;
      EntryTellsTruth(w.codec, s.disk, s.entries[i]);
    }
  }

  lemma EntryTellsTruth(c: Codec, d: Disk, e: LogEntry)
    requires c.Sound() && ValidObjects(c, d.objects) && Justified(e, d.objects, d.manifests, d.markers)
    ensures TellsTruth(c, d, ToRecord(e))
  {
    hide ReadRaw, ObjectPath, VersionPayload, CompactionPayload, AsBytes, NamesVersion, NamesVersions;
    match e
    case PutObject(sha) =>
      var x :| ObjectOf(c, sha, d.objects[sha], x);
      ObjectIsCompressed(c, d.objects, x);
    case CheckpointEntry(vs) =>
      assert AllMarked(d, vs);
      VersionsAreNamed(vs);
    case RenameManifest(v) => VersionIsNamed(v);
    case CommitBackup(v) => VersionIsNamed(v);
    case _ =>
  }

  /** The checkpoint always loads, and lists only committed versions, in order. */
  lemma CheckpointLoads(w: World, s: State)
    requires w.Sound() && Reachable(w, s)
    ensures Load(s.disk.checkpoint).Some?
    ensures var data := Load(s.disk.checkpoint).value;
            && data == CheckpointOf(data.versions) && StrictlySorted(data.versions, LessNat)
            && forall v: nat :: v in data.versions ==> v in Committed(s.disk)
  {
    hide ValidObjects, VersionsOk, PutsOk, LogHolds, MarkersOk, DebrisOk, EntriesOk, SessionsOk, JobOk, Listed,
         LoadText, CheckpointText, StrictlySorted, AllBelow, Committed;
    ReachableInv(w, s);
    if s.disk.checkpoint.Some? {
      var vs: seq<nat> :|
        && StrictlySorted(vs, LessNat) && AllBelow(vs, VERSION_LIMIT) && (forall v: nat :: v in vs ==> v in Committed(s.disk))
        && s.disk.checkpoint.value == CheckpointText(CheckpointOf(vs));
      CheckpointLoadsBack(vs);
    } else {
      NothingSorted();
    }
  }

  lemma NothingSorted()
    ensures StrictlySorted<nat>([], LessNat)
  {
  }

  /** Every session record names a stored object, with the digest and the size of the chunk that was sent. */
  lemma SessionsAreHonest(w: World, s: State, id: string)
    requires w.Sound() && Reachable(w, s) && id in w.sources
    ensures var records := ReadRecords(SessionText(s.disk, id));
            && records.Some? && Honest(w.codec, w.sources[id], records.value)
            && forall r :: r in records.value ==>
                 var raw := ReadRaw(w.codec, s.disk.objects, r.sha256, r.objectPath);
                 raw.Some? && |raw.value| == r.rawSize && w.codec.hash(raw.value) == r.sha256
  {
    hide ValidObjects, VersionsOk, PutsOk, LogHolds, CheckpointOk, MarkersOk, DebrisOk, EntriesOk, JobOk, Listed,
         ReadRaw, ReadRecords, SessionText, AllRecords, IndexOk, RecordOf, PreparedChunks, ObjectPath;
    var c, src, objects := w.codec, w.sources[id], s.disk.objects;
    ReachableInv(w, s);
    SessionTextOk(w, objects, s.disk, id);
    IndexReads(c, src, objects, SessionText(s.disk, id));
    var records := ReadRecords(SessionText(s.disk, id)).value;
    forall r | r in records
      ensures var raw := ReadRaw(c, objects, r.sha256, r.objectPath);
              raw.Some? && |raw.value| == r.rawSize && c.hash(raw.value) == r.sha256
    {
      var i := r.globalIndex;
      AllRecordsAt(c, src, i);
      RecordReadable(w, id, i);
      RecordParts(PreparedChunks(c, src)[i]);
      ObjectIsCompressed(c, objects, PreparedChunks(c, src)[i].raw);
    }
  }

  lemma RecordParts(p: PreparedChunk)
    ensures RecordOf(p).sha256 == p.sha256 && RecordOf(p).objectPath == ObjectPath(p.sha256) && RecordOf(p).rawSize == |p.raw|
  {
  }

  /**
   * Whatever interruptions, resumptions and other sessions came before: committing a session succeeds
   * exactly when all its chunks have arrived. Its manifest then has the file list and the input total that a
   * local fixed-size backup of the same source records anywhere, and the stored total of one into an empty
   * repository.
   */
  lemma SessionCommitMatchesLocal(w: World, s: State, local: Job)
    requires w.Sound() && Reachable(w, s) && s.job.Building? && s.job.sessionId in w.sources
    requires local.Putting? && local.mode == Fixed && local.src == w.sources[s.job.sessionId]
    ensures var m, records := SessionManifest(w, s.disk, s.job), ReadRecords(SessionText(s.disk, s.job.sessionId));
            && records.Some?
            && m == (if forall r :: r in AllRecords(w.codec, local.src) ==> r in records.value
                     then Some(SessionManifestOf(w.codec, local.src, s.job.sessionId, s.job.version, s.job.now)) else None)
            && (m.Some? ==> m.value.files == LocalManifest(w.codec, local).files
                            && m.value.totalInputBytes == LocalManifest(w.codec, local).totalInputBytes)
  {
    hide Inv, ReadRaw, ReadRecords, SessionText, AllRecords, BuildManifest, Entries, ValidSource, PreparedChunks, Honest,
         StoredAlone;
    var id := s.job.sessionId;
    SessionsAreHonest(w, s, id);
    assert w.SoundSession(id);
    SessionMatchesLocal(w.codec, local.src, ReadRecords(SessionText(s.disk, id)).value, id, s.job.version, s.job.now);
  }
}
