/** The programs that change a repository, each proved to do only steps of the commit protocol. */
module Repository {
  import opened Wrappers
  import opened Slices
  import opened Bytes
  import opened Text
  import opened Sorting
  import opened Paths
  import opened Manifest
  import opened Chunkers
  import opened FileTree
  import opened ObjectStore
  import opened Snapshot
  import opened SessionIndex
  import opened Upload
  import opened Checkpoint
  import opened Disk
  import opened Protocol
  import opened Safety
  import opened Guarantees
  import opened Steps
  import opened Accounting
  import opened Maintenance
  import WalLog

  /** Where a test may make a backup stop. */
  datatype FaultStage = AfterBegin | AfterObjectWrite | AfterManifestWrite | AfterManifestRename | AfterCommitMarker

  lemma AllStages(s: FaultStage)
    ensures s in {AfterBegin, AfterObjectWrite, AfterManifestWrite, AfterManifestRename, AfterCommitMarker}
  {
    match s
    case AfterBegin =>
    case AfterObjectWrite =>
    case AfterManifestWrite =>
    case AfterManifestRename =>
    case AfterCommitMarker =>
  }

  datatype BackupResult = BackupResult(
    version: nat, fileCount: nat, totalChunks: nat, uniqueChunks: nat, duplicateChunks: nat,
    totalInputBytes: nat, totalStoredBytes: nat)

  datatype RecoveryReport = RecoveryReport(committedVersions: nat, removedTmpFiles: nat)

  // Reading the manifests directory.

  method DirectoryNames(d: Disk) returns (names: seq<string>)
    ensures IsDirectory(names, d)
  {
    hide VersionFileName;
    var left := (set v | v in d.markers :: VersionFileName(v, MARKER))
              + (set v | v in d.manifests :: VersionFileName(v, MANIFEST)) + d.debris;
    assert forall n :: n in left <==> InDirectory(d, n);
    names := [];
    while left != {}
      invariant Distinct(names) && forall n :: n in names ==> n !in left
      invariant forall n :: InDirectory(d, n) <==> n in names || n in left
      decreases |left|
    {
      var name :| name in left;
      left := left - {name};
      names := names + [name];
    }
  }

  method ListVersions(d: Disk) returns (versions: seq<nat>)
    requires DebrisOk(d.debris)
    ensures versions == Listed(d)
  {
    hide IsDirectory, Listed, LeftOverName, ListCommittedVersions;
    var names := DirectoryNames(d);
    DirectoryListing(names, d);
    var result := ListDirectory(names);
    versions := result.value;
  }

  method FreeVersion(d: Disk) returns (version: nat)
    requires DebrisOk(d.debris)
    ensures version == NextVersion(d)
  {
    hide Listed;
    var versions := ListVersions(d);
    if versions == [] {
      return 1;
    }
    return versions[|versions| - 1] + 1;
  }

  method ChunkFile(mode: ChunkingMode, content: Bytes) returns (chunks: seq<Chunk>)
    ensures chunks == Numbered(PiecesOf(mode, content), 0)
  {
    hide FixedPieces, ContentPieces, Numbered;
    if mode == ContentDefined {
      chunks := ContentChunks(CDC_DEFAULTS, content);
    } else {
      chunks := FixedChunks(content, DEFAULT_CHUNK_SIZE);
    }
  }

  /** What a commit that gets so far writes into the log, from the staged manifest on. */
  function CommitEntries(v: nat, fault: Option<FaultStage>): seq<LogEntry> {
    if fault == Some(AfterManifestWrite) then [WriteManifest(v)]
    else if fault.Some? then [WriteManifest(v), RenameManifest(v)]
    else [WriteManifest(v), RenameManifest(v), CommitBackup(v)]
  }

  function PutEntries(c: Codec, pieces: seq<Bytes>): (es: seq<LogEntry>)
    ensures |es| == |pieces|
  {
    seq(|pieces|, i requires 0 <= i < |pieces| => PutObject(c.hash(pieces[i])))
  }

  /** What a backup that gets so far writes into the log. */
  function BackupEntries(c: Codec, v: nat, pieces: seq<Bytes>, fault: Option<FaultStage>): seq<LogEntry> {
    if fault == Some(AfterBegin) then [LogEntry.BeginBackup(v)]
    else if fault == Some(AfterObjectWrite) then [LogEntry.BeginBackup(v)] + PutEntries(c, if pieces == [] then [] else pieces[..1])
    else [LogEntry.BeginBackup(v)] + PutEntries(c, pieces) + CommitEntries(v, fault)
  }

  /** What a backup that was stopped has changed for later readers: no marker, before the last stage. */
  ghost predicate StoppedAt(c: Codec, before: State, after: State, src: Source, mode: ChunkingMode, stage: FaultStage) {
    var v, d, e := NextVersion(before.disk), before.disk, after.disk;
    && e.markers == d.markers + (if stage == AfterCommitMarker then {v} else {})
    && e.manifests == (if stage in {AfterManifestRename, AfterCommitMarker} && v in e.manifests
                       then d.manifests[v := e.manifests[v]] else d.manifests)
    && e.sessions == d.sessions && e.checkpoint == d.checkpoint
    && e.objects == PutAll(c, d.objects, PutBefore(AllPieces(mode, src), stage))
    && after.entries == before.entries + BackupEntries(c, v, AllPieces(mode, src), Some(stage))
  }

  lemma StoppedAtBegin(c: Codec, before: State, after: State, src: Source, mode: ChunkingMode)
    requires after.disk == before.disk.(wal := after.disk.wal)
    requires after.entries == before.entries + [LogEntry.BeginBackup(NextVersion(before.disk))]
    ensures StoppedAt(c, before, after, src, mode, AfterBegin)
  {
    hide NextVersion;
    assert before.disk.markers + {} == before.disk.markers;
  }

  lemma StoppedAtObject(c: Codec, before: State, after: State, src: Source, mode: ChunkingMode)
    requires AllPieces(mode, src) != []
    requires after.disk == before.disk.(objects := after.disk.objects, wal := after.disk.wal)
    requires after.disk.objects == PutAll(c, before.disk.objects, AllPieces(mode, src)[..1])
    requires after.entries
          == before.entries + [LogEntry.BeginBackup(NextVersion(before.disk))] + PutEntries(c, AllPieces(mode, src)[..1])
    ensures StoppedAt(c, before, after, src, mode, AfterObjectWrite)
  {
    hide NextVersion, PutAll, PutEntries, AllPieces;
    assert before.disk.markers + {} == before.disk.markers;
  }

  lemma StoppedAtCommit(c: Codec, before: State, staged: State, after: State, src: Source, mode: ChunkingMode, stage: FaultStage)
    requires stage in {AfterManifestWrite, AfterManifestRename, AfterCommitMarker}
    requires staged.disk.markers == before.disk.markers && staged.disk.manifests == before.disk.manifests
    requires staged.disk.objects == PutAll(c, before.disk.objects, AllPieces(mode, src))
    requires staged.disk.sessions == before.disk.sessions && staged.disk.checkpoint == before.disk.checkpoint
    requires staged.entries
          == before.entries + [LogEntry.BeginBackup(NextVersion(before.disk))] + PutEntries(c, AllPieces(mode, src))
    requires CommitStopped(staged, after, NextVersion(before.disk), stage)
    ensures StoppedAt(c, before, after, src, mode, stage)
  {
    hide NextVersion, PutAll, PutEntries, AllPieces;
  }

  /** A commit was stopped behind its staged manifest. */
  ghost predicate CommitStopped(staged: State, after: State, v: nat, stage: FaultStage) {
    var d, e := staged.disk, after.disk;
    && e.markers == d.markers + (if stage == AfterCommitMarker then {v} else {})
    && (if stage == AfterManifestWrite then e.manifests == d.manifests
        else v in e.manifests && e.manifests == d.manifests[v := e.manifests[v]])
    && e.objects == d.objects && e.sessions == d.sessions && e.checkpoint == d.checkpoint
    && after.entries == staged.entries + CommitEntries(v, Some(stage))
  }

  /** The state in which a backup has just begun. */
  function BegunBackup(s: State, v: nat, src: Source, mode: ChunkingMode, now: nat, root: string): State {
    Logged(s, LogEntry.BeginBackup(v)).(job := Putting(v, src, mode, now, root, 0, true, 0))
  }

  /** The pieces that are stored before a stage. */
  function PutBefore(pieces: seq<Bytes>, stage: FaultStage): seq<Bytes> {
    if stage == AfterBegin then [] else if stage == AfterObjectWrite && pieces != [] then pieces[..1] else pieces
  }

  lemma OneMorePut(c: Codec, pieces: seq<Bytes>, k: nat)
    requires k < |pieces|
    ensures PutEntries(c, pieces[..k + 1]) == PutEntries(c, pieces[..k]) + [PutObject(c.hash(pieces[k]))]
  {
  }

  /** The version that is staged in `before` is committed in `after`, and nothing else has changed. */
  ghost predicate CommittedTo(before: State, after: State, v: nat) {
    && after.entries == before.entries + CommitEntries(v, None)
    && before.job.Committing? && after.snaps == before.snaps[v := before.job.snap]
    && after.disk.manifests == before.disk.manifests[v := Serialize(before.job.manifest)]
    && after.disk.markers == before.disk.markers + {v}
    && after.disk.objects == before.disk.objects && after.disk.sessions == before.disk.sessions
    && after.disk.checkpoint == Some(CheckpointNow(after.disk))
  }

  class Repository {
    const world: World
    var disk: Disk
    /** The steps so far; its last state is the present. */
    ghost var trace: seq<State>

    ghost function Now(): State
      requires trace != []
      reads this
    {
      trace[|trace| - 1]
    }

    ghost predicate Valid()
      reads this
    {
      world.Sound() && trace != [] && RunTo(world, trace, Now()) && Now().disk == disk
    }

    ghost predicate Resting()
      reads this
    {
      Valid() && Now().job == Idle
    }

    constructor (world: World)
      requires world.Sound()
      ensures Resting() && this.world == world && disk == EMPTY && trace == [INITIAL]
    {
      this.world := world;
      disk := EMPTY;
      trace := [INITIAL];
    }

    /** What the disk now holds is one step further. */
    ghost method Advance(t: State)
      requires world.Sound() && trace != [] && RunTo(world, trace, Now())
      requires Step(world, Now(), t) && t.disk == disk
      modifies this`trace
      ensures trace == old(trace) + [t] && Valid()
    {
      hide Step;
      RunExtends(world, trace, Now(), t);
      trace := trace + [t];
    }

    lemma InvNow()
      requires Valid()
      ensures Inv(world, Now())
    {
      hide Inv, RunTo;
      assert Reachable(world, Now());
      ReachableInv(world, Now());
    }

    // Single writes.

    method WriteLog(e: LogEntry)
      requires ProperEntry(e)
      modifies this`disk
      ensures disk == old(disk).(wal := old(disk).wal + WalLog.Encode(ToRecord(e)))
    {
      hide WalLog.Encode, ToRecord, ProperEntry;
      var log := new WalLog.Log.Open(Some(disk.wal));
      var record := ToRecord(e);
      ProperEntryEncodable(e);
      EntryKind(e);
      var result := log.Append(record.kind, record.payload);
      assert WalLog.Record(record.kind, record.payload) == record;
      disk := disk.(wal := log.Data());
    }

    method PutRaw(x: Bytes) returns (put: PutResult)
      requires world.codec.Sound() && ValidObjects(world.codec, disk.objects) && world.codec.inPlay(x)
      modifies this`disk
      ensures disk == old(disk).(objects := WithObject(world.codec, old(disk).objects, x))
      ensures put == PutResult(world.codec.hash(x), ObjectPath(world.codec.hash(x)), |x|, |world.codec.compress(x)|,
                               world.codec.hash(x) !in old(disk).objects)
    {
      hide PutCompressed, ObjectPath, ValidObjects;
      var sha := world.codec.hash(x);
      var compressed := world.codec.compress(x);
      PutSucceeds(world.codec, disk.objects, x);
      put := PutCompressed(world.codec, disk.objects, sha, compressed, |x|).value;
      if put.inserted {
        disk := disk.(objects := disk.objects[sha := compressed]);
      }
    }

    method BeginBackup(ghost src: Source, ghost mode: ChunkingMode, ghost now: nat, ghost root: string) returns (version: nat)
      requires Resting() && ValidSource(world.codec, src) && now < U64 && root != "" && Octets(root)
      modifies this
      ensures Valid() && trace == old(trace) + [Now()] && version == NextVersion(old(disk))
      ensures Now() == BegunBackup(old(Now()), version, src, mode, now, root)
    {
      hide Step, Inv, RunTo, ValidSource, WalLog.Encode, ToRecord, NextVersion, Octets;
      InvNow();
      DebrisNow();
      version := FreeVersion(disk);
      NextVersionIsNew(disk);
      StepBegin(world, Now(), src, mode, now, root);
      WriteLog(LogEntry.BeginBackup(version));
      Advance(Logged(Now(), LogEntry.BeginBackup(version)).(job := Putting(version, src, mode, now, root, 0, true, 0)));
    }

    lemma DebrisNow()
      requires Valid() && Inv(world, Now())
      ensures DebrisOk(disk.debris) && ValidObjects(world.codec, disk.objects)
    {
      hide RunTo, DebrisOk, ValidObjects;
    }

    method PutNextPiece(x: Bytes) returns (put: PutResult)
      requires Valid() && Now().job.Putting? && Now().job.logged && Now().job.done < |AllPieces(Now().job.mode, Now().job.src)|
      requires x == AllPieces(Now().job.mode, Now().job.src)[Now().job.done]
      modifies this
      ensures Valid() && trace == old(trace) + [Now()] && Now() == PiecePut(world, old(Now()))
      ensures put == PutResult(world.codec.hash(x), ObjectPath(world.codec.hash(x)), |x|, |world.codec.compress(x)|,
                               world.codec.hash(x) !in old(disk).objects)
    {
      hide Step, Inv, RunTo, AllPieces, ObjectPath, ValidObjects, DebrisOk, WithObject;
      InvNow();
      DebrisNow();
      PieceNow();
      StepPiece(world, Now());
      put := PutRaw(x);
      Advance(PiecePut(world, Now()));
    }

    lemma PieceNow()
      requires Valid() && Inv(world, Now()) && Now().job.Putting? && Now().job.done < |AllPieces(Now().job.mode, Now().job.src)|
      ensures world.codec.inPlay(AllPieces(Now().job.mode, Now().job.src)[Now().job.done])
    {
      hide RunTo, AllPieces, ValidSource, ValidObjects, VersionsOk, SessionsOk, PutsOk, LogHolds, EntriesOk, CheckpointOk,
           MarkersOk, DebrisOk, PiecesStored, Listed;
      PieceInPlay(world.codec, Now().job.mode, Now().job.src, Now().job.done);
    }

    method LogPut(sha: string)
      requires Valid() && Now().job.Putting? && !Now().job.logged && Now().job.done < |AllPieces(Now().job.mode, Now().job.src)|
      requires sha == world.codec.hash(AllPieces(Now().job.mode, Now().job.src)[Now().job.done])
      modifies this
      ensures Valid() && trace == old(trace) + [Now()] && Now() == PieceLogged(world, old(Now()))
    {
      hide Step, RunTo, AllPieces, WalLog.Encode, ToRecord;
      StepPiece(world, Now());
      WriteLog(PutObject(sha));
      Advance(PieceLogged(world, Now()));
    }

    // The ordered writes of a commit.

    /** A staged manifest: written under a temporary name, then renamed to its own. */
    method StageManifest(m: Manifest, temp: string, ghost snap: Source, ghost session: Option<string>)
      requires Valid()
      requires var t := Now().(disk := disk.(tmpDebris := disk.tmpDebris + {temp}));
               Step(world, t, ManifestStaged(t, m, snap, session, temp))
      modifies this
      ensures Valid() && |trace| == |old(trace)| + 2 && old(trace) <= trace
      ensures Now() == ManifestStaged(old(Now()), m, snap, session, temp)
    {
      hide Step, RunTo, Serialize;
      ghost var before := Now();
      StepLeaveInTmp(world, before, temp);
      var text := SerializeManifest(m);
      disk := disk.(tmpDebris := disk.tmpDebris + {temp});
      Advance(before.(disk := disk));
      ghost var between := Now();
      assert (before.disk.tmpDebris + {temp}) - {temp} == before.disk.tmpDebris - {temp};
      disk := disk.(staged := disk.staged[m.version := text], tmpDebris := disk.tmpDebris - {temp});
      Advance(ManifestStaged(between, m, snap, session, temp));
    }

    method LogPhase(e: LogEntry, ghost next: Phase)
      requires Valid() && Now().job.Committing? && ProperEntry(e) && Step(world, Now(), PhaseLogged(Now(), e, next))
      modifies this
      ensures Valid() && trace == old(trace) + [Now()] && Now() == PhaseLogged(old(Now()), e, next)
    {
      hide Step, RunTo, WalLog.Encode, ToRecord;
      WriteLog(e);
      Advance(PhaseLogged(Now(), e, next));
    }

    method RenameTmpToManifest(v: nat)
      requires Valid() && InPhase(Now().job, StagedLogged) && v == Now().job.version && v in disk.staged
      modifies this
      ensures Valid() && trace == old(trace) + [Now()] && Now() == ManifestRenamed(old(Now()))
    {
      hide Step, RunTo;
      StepRename(world, Now());
      disk := disk.(manifests := disk.manifests[v := disk.staged[v]], staged := disk.staged - {v});
      Advance(ManifestRenamed(Now()));
    }

    method CreateMarker(v: nat, temp: string)
      requires Valid() && InPhase(Now().job, RenamedLogged) && v == Now().job.version && LeftOverName(temp)
      modifies this
      ensures Valid() && |trace| == |old(trace)| + 2 && old(trace) <= trace && Now() == VersionMarked(old(Now()), temp)
    {
      hide Step, RunTo, LeftOverName;
      ghost var before := Now();
      StepLeaveInManifests(world, before, temp);
      disk := disk.(debris := disk.debris + {temp});
      Advance(before.(disk := disk));
      StepMark(world, Now(), temp);
      assert (before.disk.debris + {temp}) - {temp} == before.disk.debris - {temp};
      disk := disk.(markers := disk.markers + {v}, debris := disk.debris - {temp});
      Advance(VersionMarked(Now(), temp));
    }

    method WriteCheckpoint()
      requires DebrisOk(disk.debris)
      modifies this`disk
      ensures disk == old(disk).(checkpoint := Some(CheckpointNow(old(disk))))
    {
      hide CheckpointText, Listed, DebrisOk;
      var versions := ListVersions(disk);
      var text := Checkpoint.Write(CheckpointOf(versions));
      disk := disk.(checkpoint := Some(text));
    }

    /** A test made the backup stop: the exception leaves everything on disk as it is. */
    ghost method Stop()
      requires Valid()
      modifies this`trace
      ensures Resting() && old(trace) <= trace && Now() == old(Now()).(job := Idle)
    {
      hide Step, RunTo;
      StepAbort(world, Now());
      Advance(Now().(job := Idle));
    }

    /** From the staged manifest to the logged rename. */
    method RenameStaged(v: nat, faultAt: Option<FaultStage>) returns (fault: Option<FaultStage>)
      requires Valid() && InPhase(Now().job, Staged) && v == Now().job.version
      modifies this
      ensures Valid() && old(trace) <= trace && v in old(disk).staged
      ensures old(disk).staged[v] == Serialize(old(Now().job.manifest))
      ensures disk == old(disk).(staged := disk.staged, manifests := disk.manifests, wal := disk.wal)
      ensures fault.None? ==>
        && Now().job == old(Now().job).(phase := RenamedLogged) && Now().snaps == old(Now().snaps) && v <= VERSION_LIMIT
        && disk.staged == old(disk).staged - {v} && disk.manifests == old(disk).manifests[v := old(disk).staged[v]]
      ensures fault.None? ==> Now().entries == old(Now().entries) + [WriteManifest(v), RenameManifest(v)]
      ensures fault.None? ==> faultAt !in {Some(AfterManifestWrite), Some(AfterManifestRename)}
      ensures fault.Some? ==>
        && fault == faultAt && fault.value in {AfterManifestWrite, AfterManifestRename} && Now().job == Idle
        && Now().entries == old(Now().entries) + CommitEntries(v, fault)
        && disk.manifests == if fault == Some(AfterManifestWrite) then old(disk).manifests
                             else old(disk).manifests[v := old(disk).staged[v]]
    {
      hide Step, RunTo, Serialize, WalLog.Encode, ToRecord;
      VersionNow();
      StepLogPhase(world, Now());
      LogPhase(WriteManifest(v), StagedLogged);
      if faultAt == Some(AfterManifestWrite) {
        Stop();
        return faultAt;
      }
      RenameTmpToManifest(v);
      StepLogPhase(world, Now());
      LogPhase(RenameManifest(v), RenamedLogged);
      if faultAt == Some(AfterManifestRename) {
        Stop();
        return faultAt;
      }
      return None;
    }

    /** From the renamed manifest to the marker, its record, and the checkpoint. */
    method MarkRenamed(v: nat, pid: nat, ticks: nat, faultAt: Option<FaultStage>) returns (fault: Option<FaultStage>)
      requires Valid() && InPhase(Now().job, RenamedLogged) && v == Now().job.version && v <= VERSION_LIMIT
      modifies this
      ensures Valid() && old(trace) <= trace
      ensures disk == old(disk).(markers := old(disk).markers + {v}, checkpoint := disk.checkpoint,
                                 wal := disk.wal, debris := disk.debris)
      ensures Now().snaps == old(Now().snaps)[v := old(Now().job.snap)]
      ensures fault.None? ==>
        && Now().job == (if old(Now().job.session.Some?) then old(Now().job).(phase := Checkpointed) else Idle)
        && disk.checkpoint == Some(CheckpointNow(disk))
      ensures fault.Some? <==> faultAt == Some(AfterCommitMarker)
      ensures fault.Some? ==> fault == faultAt && Now().job == Idle && disk.checkpoint == old(disk).checkpoint
      ensures Now().entries == old(Now().entries) + if fault.None? then [CommitBackup(v)] else []
    {
      hide Step, RunTo, CheckpointNow, LeftOverName, WalLog.Encode, ToRecord;
      var temp := TempName(VersionFileName(v, MARKER), pid, ticks);
      MarkerTempIsLeftOver(v, pid, ticks);
      CreateMarker(v, temp);
      if faultAt == Some(AfterCommitMarker) {
        Stop();
        return faultAt;
      }
      StepLogPhase(world, Now());
      LogPhase(CommitBackup(v), MarkedLogged);
      FinishCommit();
      return None;
    }

    /** Everything from the staged manifest on, in the order that makes crashes harmless. */
    method CommitStaged(v: nat, pid: nat, ticks: nat, faultAt: Option<FaultStage>) returns (fault: Option<FaultStage>)
      requires Valid() && InPhase(Now().job, Staged) && v == Now().job.version
      modifies this
      ensures Valid() && old(trace) <= trace
      ensures fault.None? ==>
        && v in old(disk).staged && CommittedTo(old(Now()), Now(), v)
        && Now().job == (if old(Now().job.session.Some?) then old(Now().job).(phase := Checkpointed) else Idle)
      ensures fault.Some? ==>
        && fault == faultAt && Now().job == Idle
        && CommitStopped(old(Now()), Now(), v, fault.value)
      ensures fault.Some? <==> faultAt in {Some(AfterManifestWrite), Some(AfterManifestRename), Some(AfterCommitMarker)}
    {
      hide Step, RunTo, Serialize, CheckpointNow;
      assert disk.markers + {} == disk.markers;
      fault := RenameStaged(v, faultAt);
      if fault.Some? {
        return;
      }
      fault := MarkRenamed(v, pid, ticks, faultAt);
    }

    method FinishCommit()
      requires Valid() && InPhase(Now().job, MarkedLogged)
      modifies this
      ensures Valid() && trace == old(trace) + [Now()]
      ensures var job := old(Now().job);
              Now() == CheckpointSaved(old(Now()), if job.session.Some? then job.(phase := Checkpointed) else Idle)
      ensures disk.checkpoint == Some(CheckpointNow(disk))
    {
      hide Step, RunTo, Inv, CheckpointText, DebrisOk, Listed;
      InvNow();
      DebrisNow();
      StepCheckpoint(world, Now());
      SameListing(disk, CheckpointSaved(Now(), Idle).disk);
      WriteCheckpoint();
      Advance(CheckpointSaved(Now(), if Now().job.session.Some? then Now().job.(phase := Checkpointed) else Idle));
    }

    lemma VersionNow()
      requires Valid() && InPhase(Now().job, Staged)
      ensures Now().job.version <= VERSION_LIMIT && Now().job.version in disk.staged
      ensures disk.staged[Now().job.version] == Serialize(Now().job.manifest)
    {
      hide RunTo, ValidSource, ValidObjects, VersionsOk, SessionsOk, PutsOk, LogHolds, EntriesOk, CheckpointOk,
           MarkersOk, DebrisOk, Listed, NextVersion, Serialize, Records;
      InvNow();
      NextVersionIsNew(disk);
    }

    // A local backup.

    /** The first `done` pieces of the backup that `base` began are stored, logged and counted. */
    ghost predicate InProgress(base: State, done: nat, tally: Tally)
      reads this
    {
      && Valid() && base.job.Putting? && base.job.done == 0 && base.job.logged
      && done <= |AllPieces(base.job.mode, base.job.src)|
      && Now().job == base.job.(done := done, stored := tally.stored)
      && Now().snaps == base.snaps && Now().puts == base.puts
      && Now().entries == base.entries + PutEntries(world.codec, AllPieces(base.job.mode, base.job.src)[..done])
      && disk == base.disk.(objects := disk.objects, wal := disk.wal)
      && Accounted(world.codec, base.disk.objects, AllPieces(base.job.mode, base.job.src)[..done], disk.objects, tally)
    }

    method BackUpChunk(ghost base: State, ghost done: nat, x: Bytes, tally: Tally) returns (put: PutResult, after: Tally)
      requires InProgress(base, done, tally)
      requires done < |AllPieces(base.job.mode, base.job.src)| && x == AllPieces(base.job.mode, base.job.src)[done]
      modifies this
      ensures InProgress(base, done + 1, after) && old(trace) <= trace
      ensures put.sha256 == world.codec.hash(x) && put.objectPath == ObjectPath(put.sha256)
           && put.rawSize == |x| && put.compressedSize == |world.codec.compress(x)|
    {
      hide Step, RunTo, AllPieces, Accounted, ObjectPath, WithObject, WalLog.Encode, ToRecord, PutEntries;
      ghost var objects := disk.objects;
      TallyInRange(world.codec, base.disk.objects, AllPieces(base.job.mode, base.job.src)[..done], objects, tally);
      put := PutNextPiece(x);
      LogPut(put.sha256);
      after := Count(tally, put);
      ghost var all := AllPieces(base.job.mode, base.job.src);
      assert all[..done + 1] == all[..done] + [x];
      OneMorePut(world.codec, all, done);
      PutAccounted(world.codec, base.disk.objects, all[..done], objects, tally, x, put);
    }

    method BackUpFile(ghost base: State, ghost done: nat, f: SourceFile, mode: ChunkingMode, tally: Tally,
                      faultAt: Option<FaultStage>)
      returns (fault: Option<FaultStage>, file: FileManifest, after: Tally)
      requires InProgress(base, done, tally) && mode == base.job.mode
      requires var all, pieces := AllPieces(mode, base.job.src), PiecesOf(mode, f.content);
               done + |pieces| <= |all| && forall j :: 0 <= j < |pieces| ==> all[done + j] == pieces[j]
      modifies this
      ensures old(trace) <= trace
      ensures fault.None? ==>
        file == Entry(world.codec, mode, f) && InProgress(base, done + |PiecesOf(mode, f.content)|, after)
      ensures fault.Some? <==> faultAt == Some(AfterObjectWrite)
      ensures fault.Some? ==> fault == faultAt && StoppedAfter(base, done + 1)
    {
      hide Step, RunTo, AllPieces, Accounted, ObjectPath, PiecesOf, Numbered, InProgress, StoppedAfter;
      ghost var pieces := PiecesOf(mode, f.content);
      var chunks := ChunkFile(mode, f.content);
      var fileHash := new Sha256();
      var refs: seq<ChunkRef> := [];
      after := tally;
      for j := 0 to |chunks|
        invariant fresh(fileHash) && !fileHash.finalized && old(trace) <= trace
        invariant fileHash.absorbed == Joined(pieces[..j]) && refs == Refs(world.codec, pieces)[..j]
        invariant InProgress(base, done + j, after) && (j > 0 ==> faultAt != Some(AfterObjectWrite))
      {
        var data := chunks[j].data;
        fileHash.Update(data);
        assert pieces[..j + 1] == pieces[..j] + [data];
        JoinedLast(pieces[..j], data);
        var put;
        put, after := BackUpChunk(base, done + j, data, after);
        if faultAt == Some(AfterObjectWrite) {
          StopBackup(base, done + j + 1, after);
          return faultAt, FileManifest("", 0, 0, "", []), after;
        }
        refs := refs + [ChunkRef(j, put.rawSize, put.compressedSize, put.sha256, put.objectPath)];
      }
      assert pieces[..|pieces|] == pieces && Refs(world.codec, pieces)[..|pieces|] == Refs(world.codec, pieces);
      PiecesOfJoin(mode, f.content);
      var sha := fileHash.FinalHex(world.codec);
      return None, FileManifest(f.path, |f.content|, f.mode, sha, refs), after;
    }

    /** The backup that `base` began was stopped when so many pieces had been stored and logged. */
    ghost predicate StoppedAfter(base: State, done: nat)
      reads this
    {
      && Resting() && base.job.Putting? && done <= |AllPieces(base.job.mode, base.job.src)|
      && disk == base.disk.(objects := disk.objects, wal := disk.wal)
      && disk.objects == PutAll(world.codec, base.disk.objects, AllPieces(base.job.mode, base.job.src)[..done])
      && Now().entries == base.entries + PutEntries(world.codec, AllPieces(base.job.mode, base.job.src)[..done])
    }

    ghost method StopBackup(base: State, done: nat, tally: Tally)
      requires InProgress(base, done, tally)
      modifies this`trace
      ensures StoppedAfter(base, done) && old(trace) <= trace
    {
      hide Step, RunTo, AllPieces, PutAll, ChunksAccounted, BytesAccounted;
      Stop();
    }

    method BackUpFiles(ghost base: State, src: Source, mode: ChunkingMode, faultAt: Option<FaultStage>)
      returns (fault: Option<FaultStage>, files: seq<FileManifest>, inputBytes: nat, tally: Tally)
      requires InProgress(base, 0, NOTHING) && src == base.job.src && mode == base.job.mode
      modifies this
      ensures old(trace) <= trace
      ensures fault.None? ==>
        && files == Entries(world.codec, mode, src) && inputBytes == InputBytes(src) % U64
        && InProgress(base, |AllPieces(mode, src)|, tally)
      ensures fault.Some? <==> faultAt == Some(AfterObjectWrite) && src != []
      ensures fault.Some? ==> fault == faultAt && StoppedAfter(base, 1)
    {
      hide Step, RunTo, AllPieces, PiecesOf, InProgress, Entry, InputBytes, StoppedAfter;
      files, inputBytes, tally := [], 0, NOTHING;
      NoPieces(mode);
      assert src[..0] == [];
      for i := 0 to |src|
        invariant old(trace) <= trace && |AllPieces(mode, src[..i])| <= |AllPieces(mode, src)|
        invariant files == Entries(world.codec, mode, src)[..i] && inputBytes == InputBytes(src[..i]) % U64
        invariant InProgress(base, |AllPieces(mode, src[..i])|, tally) && (i > 0 ==> faultAt != Some(AfterObjectWrite))
      {
        PiecesOfFileAt(mode, src, i);
        var file;
        fault, file, tally := BackUpFile(base, |AllPieces(mode, src[..i])|, src[i], mode, tally, faultAt);
        if fault.Some? {
          return;
        }
        files := files + [file];
        EntrySize(world.codec, mode, src[i]);
        InputBytesLast(src[..i], src[i]);
        assert src[..i + 1] == src[..i] + [src[i]];
        AddModulo(InputBytes(src[..i]), file.fileSize);
        inputBytes := (inputBytes + file.fileSize) % U64;
      }
      assert src[..|src|] == src;
      return None, files, inputBytes, tally;
    }

    /**
     * `BackupEngine::create`. A completed backup has committed its version with the source as it was, and its
     * counters say exactly what it added to the store. One that was stopped leaves every older version alone.
     */
    method Create(src: Source, mode: ChunkingMode, now: nat, root: string, pid: nat, ticks: nat, faultAt: Option<FaultStage>)
      returns (result: Result<BackupResult, FaultStage>)
      requires Resting() && ValidSource(world.codec, src) && now < U64 && root != "" && Octets(root)
      modifies this
      ensures Resting() && old(trace) <= trace
      ensures result.Ok? <==> faultAt.None? || (faultAt == Some(AfterObjectWrite) && src == [])
      ensures result.Ok? ==> BackedUp(old(Now()), src, mode, now, root, result.value)
      ensures result.Err? ==> Some(result.error) == faultAt && StoppedAt(world.codec, old(Now()), Now(), src, mode, result.error)
    {
      hide Step, RunTo, AllPieces, ValidSource, Octets, Entries, InputBytes, Serialize, CheckpointNow, NextVersion,
           WalLog.Encode, ToRecord, Accounted, BackedUp, PutAll, StoppedAt, PutEntries;
      ghost var first := Now();
      var version := BeginBackup(src, mode, now, root);
      ghost var base := Now();
      if faultAt == Some(AfterBegin) {
        Stop();
        StoppedAtBegin(world.codec, first, Now(), src, mode);
        return Err(AfterBegin);
      }
      NothingAccounted(world.codec, disk.objects);
      assert AllPieces(mode, src)[..0] == [];
      var fault, files, inputBytes, tally := BackUpFiles(base, src, mode, faultAt);
      if fault.Some? {
        StoppedAtObject(world.codec, first, Now(), src, mode);
        return Err(fault.value);
      }
      if faultAt.Some? {
        AllStages(faultAt.value);
      }
      result := FinishBackup(first, base, src, mode, now, root, files, inputBytes, tally, version, pid, ticks, faultAt);
    }

    /** The backup from the last chunk on. */
    method FinishBackup(ghost first: State, ghost base: State, src: Source, mode: ChunkingMode, now: nat, root: string,
                        files: seq<FileManifest>, inputBytes: nat, tally: Tally, version: nat,
                        pid: nat, ticks: nat, faultAt: Option<FaultStage>)
      returns (result: Result<BackupResult, FaultStage>)
      requires version == NextVersion(first.disk) && base == BegunBackup(first, version, src, mode, now, root)
      requires InProgress(base, |AllPieces(mode, src)|, tally)
      requires files == Entries(world.codec, mode, src) && inputBytes == InputBytes(src) % U64
      modifies this
      ensures Resting() && old(trace) <= trace
      ensures result.Ok? <==> faultAt !in {Some(AfterManifestWrite), Some(AfterManifestRename), Some(AfterCommitMarker)}
      ensures result.Ok? ==> BackedUp(first, src, mode, now, root, result.value)
      ensures result.Err? ==> Some(result.error) == faultAt && StoppedAt(world.codec, first, Now(), src, mode, result.error)
    {
      hide Step, RunTo, AllPieces, Entries, InputBytes, Serialize, CheckpointNow, NextVersion, WalLog.Encode, ToRecord,
           ChunksAccounted, BytesAccounted, PutAll, PutEntries, StoppedAt, CommitStopped;
      ghost var pieces := AllPieces(mode, src);
      assert pieces[..|pieces|] == pieces;
      var m := Manifest(version, now, mode, root, inputBytes, tally.stored, files);
      StageLocalManifest(m, base, tally, pid, ticks);
      ghost var staged := Now();
      assert staged.entries == first.entries + [LogEntry.BeginBackup(version)] + PutEntries(world.codec, pieces);
      var fault := CommitStaged(version, pid, ticks, faultAt);
      if fault.Some? {
        StoppedAtCommit(world.codec, first, staged, Now(), src, mode, fault.value);
        return Err(fault.value);
      }
      return Ok(BackupResult(version, |files|, tally.chunks, tally.unique, tally.duplicate, inputBytes, tally.stored));
    }

    /** The result of a backup, and what it has changed since `before`. */
    ghost predicate BackedUp(before: State, src: Source, mode: ChunkingMode, now: nat, root: string, r: BackupResult)
      reads this
    {
      var tally := Tally(r.totalChunks, r.uniqueChunks, r.duplicateChunks, r.totalStoredBytes);
      var m := Manifest(r.version, now, mode, root, r.totalInputBytes, r.totalStoredBytes, Entries(world.codec, mode, src));
      && r.version == NextVersion(before.disk) && disk.markers == before.disk.markers + {r.version}
      && r.fileCount == |src| && r.totalInputBytes == InputBytes(src) % U64
      && Accounted(world.codec, before.disk.objects, AllPieces(mode, src), disk.objects, tally)
      && disk.manifests == before.disk.manifests[r.version := Serialize(m)]
      && trace != [] && Now().snaps == before.snaps[r.version := src]
      && Now().entries == before.entries + BackupEntries(world.codec, r.version, AllPieces(mode, src), None)
      && disk.checkpoint == Some(CheckpointNow(disk))
    }

    method StageLocalManifest(m: Manifest, ghost base: State, ghost tally: Tally, pid: nat, ticks: nat)
      requires base.job.Putting? && InProgress(base, |AllPieces(base.job.mode, base.job.src)|, tally)
      requires m == LocalManifest(world.codec, base.job.(stored := tally.stored))
      modifies this
      ensures Valid() && old(trace) <= trace
      ensures Now().job == Committing(m.version, m, base.job.src, Staged, None) && Now().snaps == base.snaps
      ensures Now().entries == old(Now().entries)
      ensures disk == old(disk).(staged := old(disk).staged[m.version := Serialize(m)], tmpDebris := disk.tmpDebris)
    {
      hide Step, RunTo, AllPieces, Serialize, Accounted, Entries;
      var temp := TempName(VersionFileName(m.version, STAGED), pid, ticks);
      StepStageLocal(world, Now().(disk := disk.(tmpDebris := disk.tmpDebris + {temp})), temp);
      StageManifest(m, temp, base.job.src, None);
    }

    /** A completed backup restores to its source, for every version that the listing can see. */
    lemma BackedUpRestores(before: State, src: Source, mode: ChunkingMode, now: nat, root: string, r: BackupResult)
      requires Valid() && BackedUp(before, src, mode, now, root, r) && r.version < VERSION_LIMIT
      ensures Restores(world.codec, disk, r.version, src)
    {
      hide RunTo, AllPieces, Restores, Entries, Serialize, Accounted, Listed, NextVersion, CheckpointNow, Verifies,
           Parse, InputBytes;
      assert Reachable(world, Now());
      assert r.version in Committed(disk);
      ListedVersionsRestore(world, Now(), r.version);
    }

    // Reading a version.

    method LoadManifest(v: nat) returns (m: Option<Manifest>)
      ensures m == if v in disk.markers && v in disk.manifests then Parse(disk.manifests[v]) else None
    {
      hide Parse;
      if v !in disk.markers || v !in disk.manifests {
        return None;
      }
      m := ParseManifest(disk.manifests[v]);
    }

    /** The version is committed and has a manifest that can be read. */
    ghost predicate Loads(v: nat)
      reads this
    {
      v in disk.markers && v in disk.manifests && Parse(disk.manifests[v]).Some?
    }

    /**
     * `restore`. It succeeds exactly for a committed version whose manifest parses, whose files are intact, and
     * whose paths fit into the target; it then has written just those files. Nothing is written of a version
     * that is not committed. A listed version is written into an empty directory exactly as its source was.
     */
    method RestoreTo(v: nat, target: Tree) returns (tree: Tree, ok: bool)
      ensures ok <==>
        && Loads(v) && PathsFit(target, Parse(disk.manifests[v]).value.files)
        && forall f :: f in Parse(disk.manifests[v]).value.files ==> exists x :: IntactFile(world.codec, disk.objects, f, x)
      ensures ok ==> Wrote(world.codec, disk.objects, Parse(disk.manifests[v]).value.files, target, tree)
      ensures Loads(v) && !ok ==> StoppedBehind(world.codec, disk.objects, Parse(disk.manifests[v]).value.files, target, tree)
      ensures !Loads(v) ==> tree == target
      ensures (tree, ok) == RestoreVersion(world.codec, disk, v, target)
      ensures Valid() && v in Listed(disk) && target == EMPTY_TREE ==>
        v in Now().snaps && ok && Mirrors(tree, Now().snaps[v])
    {
      hide RunTo, Parse, RestoreFiles, Listed, Verifies, Mirrors, PathsFit, Wrote, IntactFile, StoppedBehind;
      if Valid() && v in Listed(disk) {
        assert Reachable(world, Now());
        ListedVersionsRestore(world, Now(), v);
      }
      var m := LoadManifest(v);
      if m.None? {
        return target, false;
      }
      RestoreIffIntact(world.codec, disk.objects, m.value.files, target);
      tree, ok := Restore(world.codec, disk.objects, m.value, target);
      if !ok {
        RestoreStops(world.codec, disk.objects, m.value.files, target);
      }
    }

    /** `verify` passes exactly for a committed version whose manifest parses and whose files are intact. */
    method VerifyVersion(v: nat) returns (ok: bool)
      ensures ok <==>
        && Loads(v)
        && forall f :: f in Parse(disk.manifests[v]).value.files ==> exists x :: IntactFile(world.codec, disk.objects, f, x)
      ensures Valid() && v in Listed(disk) ==> ok
    {
      hide RunTo, Parse, RestoreFiles, Listed, Verifies, Mirrors, PathsFit, Wrote, IntactFile;
      if Valid() && v in Listed(disk) {
        assert Reachable(world, Now());
        ListedVersionsRestore(world, Now(), v);
        assert v in Committed(disk);
      }
      var m := LoadManifest(v);
      if m.None? {
        return false;
      }
      RestoreIffIntact(world.codec, disk.objects, m.value.files, EMPTY_TREE);
      ok := Verify(world.codec, disk.objects, m.value);
    }

    // Recovery and compaction.

    method Recover() returns (result: Result<RecoveryReport, WalLog.WalError>)
      requires DebrisOk(disk.debris)
      modifies this
      ensures disk == if WalLog.Read(old(disk).wal).Ok? then Recovered(old(disk)) else old(disk)
      ensures match WalLog.Read(old(disk).wal)
              case Err(e) => result == Err(e)
              case Ok(_) => result == Ok(RecoveryReport(|Listed(old(disk))|, |old(disk).staged| + |old(disk).tmpDebris|))
      ensures old(Resting()) ==> Resting() && old(trace) <= trace && Now().snaps == old(Now().snaps)
    {
      hide Step, RunTo, WalLog.Read, CheckpointNow, Listed, DebrisOk;
      ghost var resting := Resting();
      ghost var was := disk;
      var records := ReadLog();
      if records.Err? {
        return Err(records.error);
      }
      var removed := ClearTmp(resting);
      SameListing(disk, was);
      CheckpointFrame(disk, was);
      var versions := ListVersions(disk);
      SaveRecovered(resting);
      return Ok(RecoveryReport(|versions|, removed));
    }

    method ReadLog() returns (records: Result<seq<WalLog.Record>, WalLog.WalError>)
      modifies this`trace
      ensures records == WalLog.Read(disk.wal)
      ensures records.Ok? && old(Resting()) ==>
        Valid() && Now().job == Recovering && old(trace) <= trace && Now().snaps == old(Now().snaps)
      ensures records.Err? ==> trace == old(trace)
    {
      hide Step, RunTo, WalLog.Read;
      var log := new WalLog.Log.Open(Some(disk.wal));
      records := log.ReadAll();
      if records.Ok? && Resting() {
        StepBeginRecover(world, Now());
        Advance(Now().(job := Recovering));
      }
    }

    method ClearTmp(ghost resting: bool) returns (removed: nat)
      requires resting ==> Valid() && Now().job == Recovering
      modifies this
      ensures disk == old(disk).(staged := map[], tmpDebris := {})
      ensures removed == |old(disk).staged| + |old(disk).tmpDebris|
      ensures resting ==> Valid() && Now().job == Recovering && old(trace) <= trace && Now().snaps == old(Now().snaps)
    {
      hide Step, RunTo;
      removed := 0;
      while disk.staged != map[] || disk.tmpDebris != {}
        invariant disk == old(disk).(staged := disk.staged, tmpDebris := disk.tmpDebris)
        invariant removed + |disk.staged| + |disk.tmpDebris| == |old(disk).staged| + |old(disk).tmpDebris|
        invariant resting ==> Valid() && Now().job == Recovering && old(trace) <= trace && Now().snaps == old(Now().snaps)
        decreases |disk.staged| + |disk.tmpDebris|
      {
        if disk.staged != map[] {
          var v :| v in disk.staged;
          RemoveStagedFile(v, resting);
        } else {
          var name :| name in disk.tmpDebris;
          RemoveTmpFile(name, resting);
        }
        removed := removed + 1;
      }
    }

    method SaveRecovered(ghost resting: bool)
      requires DebrisOk(disk.debris) && (resting ==> Valid() && Now().job == Recovering)
      requires disk.staged == map[] && disk.tmpDebris == {}
      modifies this
      ensures disk == old(disk).(checkpoint := Some(CheckpointNow(old(disk))))
      ensures resting ==> Resting() && old(trace) <= trace && Now().snaps == old(Now().snaps)
    {
      hide Step, RunTo, CheckpointNow, DebrisOk;
      if resting {
        StepFinishRecover(world, Now());
      }
      WriteCheckpoint();
      if resting {
        Advance(CheckpointSaved(Now(), Idle));
      }
    }

    method RemoveStagedFile(v: nat, ghost resting: bool)
      requires v in disk.staged && (resting ==> Valid() && Now().job == Recovering)
      modifies this
      ensures disk == old(disk).(staged := old(disk).staged - {v}) && |disk.staged| == |old(disk).staged| - 1
      ensures resting ==> Valid() && Now().job == Recovering && old(trace) <= trace && Now().snaps == old(Now().snaps)
    {
      hide Step, RunTo;
      assert (disk.staged - {v}).Keys == disk.staged.Keys - {v};
      assert |disk.staged.Keys| == |disk.staged.Keys - {v}| + 1;
      if resting {
        StepRemove(world, Now(), v, "");
      }
      disk := disk.(staged := disk.staged - {v});
      if resting {
        Advance(Now().(disk := disk));
      }
    }

    method RemoveTmpFile(name: string, ghost resting: bool)
      requires name in disk.tmpDebris && (resting ==> Valid() && Now().job == Recovering)
      modifies this
      ensures disk == old(disk).(tmpDebris := old(disk).tmpDebris - {name})
      ensures resting ==> Valid() && Now().job == Recovering && old(trace) <= trace && Now().snaps == old(Now().snaps)
    {
      hide Step, RunTo;
      if resting {
        StepRemove(world, Now(), 0, name);
      }
      disk := disk.(tmpDebris := disk.tmpDebris - {name});
      if resting {
        Advance(Now().(disk := disk));
      }
    }

    method Compact()
      requires DebrisOk(disk.debris)
      modifies this
      ensures disk == Compacted(old(disk))
      ensures old(Resting()) ==> Resting() && old(trace) <= trace && Now().snaps == old(Now().snaps)
    {
      hide Step, RunTo, CheckpointText, Listed, DebrisOk, WalLog.EncodeAll, ToRecords;
      ghost var resting := Resting();
      ghost var was := disk;
      if resting {
        StepCompact(world, Now());
      }
      var versions := ListVersions(disk);
      WriteCheckpoint();
      SameListing(disk, was);
      if resting {
        Advance(CheckpointSaved(Now(), Compacting));
        StepCompact(world, Now());
      }
      var records := CompactionRecords(versions);
      var log := new WalLog.Log.Open(Some(disk.wal));
      CompactedLogReads(was);
      KindsInRange(CompactEntries(was));
      var replaced := log.ReplaceWith(records);
      disk := disk.(wal := log.Data());
      if resting {
        Advance(LogReplaced(Now()));
      }
    }
  }

  method CompactionRecords(versions: seq<nat>) returns (records: seq<WalLog.Record>)
    ensures records == ToRecords([CheckpointEntry(versions), CompactEntry])
  {
    hide AsBytes, Decimal;
    var payload := "latest=" + Decimal(LatestOf(versions)) + "\n";
    payload := payload + "versions";
    var list := WriteVersions(versions);
    payload := payload + list + "\n";
    assert payload == CompactionPayload(versions);
    return [WalLog.Record(WalLog.CHECKPOINT, AsBytes(payload)), WalLog.Record(WalLog.COMPACT, AsBytes("compact"))];
  }

  lemma KindsInRange(es: seq<LogEntry>)
    ensures forall r :: r in ToRecords(es) ==> r.kind < U16
  {
    hide ToRecord;
    forall r | r in ToRecords(es)
      ensures r.kind < U16
    {
      var i :| 0 <= i < |es| && r == ToRecord(es[i]);
      EntryKind(es[i]);
    }
  }

  lemma NoPieces(mode: ChunkingMode)
    ensures AllPieces(mode, []) == [] && InputBytes([]) == 0
  {
  }

  lemma EntrySize(c: Codec, mode: ChunkingMode, f: SourceFile)
    ensures Entry(c, mode, f).fileSize == |f.content|
  {
  }

  lemma InputBytesLast(src: Source, f: SourceFile)
    ensures InputBytes(src + [f]) == InputBytes(src) + |f.content|
  {
    assert (src + [f])[..|src|] == src;
  }

  lemma MarkerTempIsLeftOver(v: nat, pid: nat, ticks: nat)
    ensures LeftOverName(TempName(VersionFileName(v, MARKER), pid, ticks))
  {
    hide TempName, VersionFileName;
  }

  lemma EntryKind(e: LogEntry)
    ensures ToRecord(e).kind < U16
  {
    hide AsBytes, VersionPayload, ObjectPath, CompactionPayload;
  }
}
