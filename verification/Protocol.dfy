/**
 * The commit protocol as a machine: every write of every program is one step, and a crash may come after
 * any of them. One program at a time allocates versions; uploads of chunks run beside it.
 */
module Protocol {
  import opened Wrappers
  import opened Slices
  import opened Bytes
  import opened Text
  import opened Sorting
  import opened Paths
  import opened Manifest
  import opened ObjectStore
  import opened Snapshot
  import opened SessionIndex
  import opened Upload
  import opened Checkpoint
  import opened Disk
  import WalLog

  /** What stays fixed in a run: the codec, and the source that each network session uploads. */
  datatype World = World(codec: Codec, sources: map<string, Source>) {
    ghost predicate Sound() {
      codec.Sound() && forall id :: id in sources ==> SoundSession(id)
    }

    ghost predicate SoundSession(id: string)
      requires id in sources
    {
      id != "" && Octets(id) && ValidSource(codec, sources[id]) && |PreparedChunks(codec, sources[id])| < U64
    }
  }

  /** The last write that a commit has completed. */
  datatype Phase = Staged | StagedLogged | Renamed | RenamedLogged | Marked | MarkedLogged | Checkpointed

  /** What the program that holds the repository is doing. */
  datatype Job =
    | Idle
    | Putting(version: nat, src: Source, mode: ChunkingMode, now: nat, root: string, done: nat, logged: bool, stored: nat)
    | Building(version: nat, sessionId: string, now: nat)
    | Committing(version: nat, manifest: Manifest, snap: Source, phase: Phase, session: Option<string>)
    | Recovering
    | Compacting

  datatype Put = Put(sessionId: string, index: nat)

  datatype State = State(
    disk: Disk,
    job: Job,
    puts: set<Put>,              // chunks stored but not yet in their session's index
    snaps: map<nat, Source>,     // the source of every version, as it was marked
    entries: seq<LogEntry>)         // what the log holds

  datatype Action =
    // BackupEngine::create
    | Begin(src: Source, mode: ChunkingMode, now: nat, root: string)
    | PutPiece
    | LogPiece
    | StageLocal(temp: string)
    // CommitSession
    | BeginSession(sessionId: string, now: nat)
    | StageSession(temp: string)
    | MarkSession
    // both
    | LogStaged
    | Rename
    | LogRenamed
    | Mark(temp: string)
    | LogMarked
    | SaveCheckpoint
    // RecoveryManager::recover
    | BeginRecover
    | RemoveStaged(version: nat)
    | RemoveTmp(name: string)
    | FinishRecover
    // MetadataCompactor::compact
    | BeginCompact
    | ReplaceLog
    // PutChunk
    | PutChunk(put: Put)
    | AppendChunk(put: Put)
    // the first half of an atomic write, an error, a crash
    | LeaveInManifests(name: string)
    | LeaveInTmp(name: string)
    | Abort
    | Crash

  const INITIAL: State := State(EMPTY, Idle, {}, map[], [])

  function LocalManifest(c: Codec, job: Job): Manifest
    requires job.Putting?
  {
    Manifest(job.version, job.now, job.mode, job.root, InputBytes(job.src) % U64, job.stored, Entries(c, job.mode, job.src))
  }

  function SessionManifest(w: World, d: Disk, job: Job): Option<Manifest>
    requires job.Building? && job.sessionId in w.sources
  {
    var records :- ReadRecords(SessionText(d, job.sessionId));
    BuildManifest(records, job.sessionId, job.version, |PreparedChunks(w.codec, w.sources[job.sessionId])|, job.now)
  }

  /** The index of a session after a chunk was acknowledged. */
  function Appended(text: string, r: Received): string {
    var records := ReadRecords(text);
    if records.Some? && r.globalIndex !in ReceivedMap(records.value) then text + LineText(SessionIndex.ChunkLine(r)) else text
  }

  ghost function CheckpointNow(d: Disk): string {
    CheckpointText(CheckpointOf(Listed(d)))
  }

  function Logged(s: State, e: LogEntry): State {
    s.(disk := s.disk.(wal := s.disk.wal + WalLog.Encode(ToRecord(e))), entries := s.entries + [e])
  }

  ghost predicate Sends(w: World, p: Put) {
    p.sessionId in w.sources && p.index < |PreparedChunks(w.codec, w.sources[p.sessionId])|
  }

  function Sent(w: World, p: Put): PreparedChunk
    requires p.sessionId in w.sources && p.index < |PreparedChunks(w.codec, w.sources[p.sessionId])|
  {
    PreparedChunks(w.codec, w.sources[p.sessionId])[p.index]
  }

  ghost predicate InPhase(job: Job, phase: Phase) {
    job.Committing? && job.phase == phase
  }

  ghost predicate Enabled(w: World, s: State, a: Action) {
    match a
    case Begin(src, mode, now, root) => s.job.Idle? && ValidSource(w.codec, src) && now < U64 && root != "" && Octets(root)
    case PutPiece => s.job.Putting? && s.job.logged && s.job.done < |AllPieces(s.job.mode, s.job.src)|
    case LogPiece => s.job.Putting? && !s.job.logged && s.job.done < |AllPieces(s.job.mode, s.job.src)|
    case StageLocal(_) => s.job.Putting? && s.job.logged && s.job.done == |AllPieces(s.job.mode, s.job.src)|
    case BeginSession(id, now) => s.job.Idle? && id in w.sources && now < U64
    case StageSession(_) =>
      s.job.Building? && s.job.sessionId in w.sources && SessionManifest(w, s.disk, s.job).Some?
    case LogStaged => InPhase(s.job, Staged)
    case Rename => InPhase(s.job, StagedLogged) && s.job.version in s.disk.staged
    case LogRenamed => InPhase(s.job, Renamed)
    case Mark(_) => InPhase(s.job, RenamedLogged)
    case LogMarked => InPhase(s.job, Marked)
    case SaveCheckpoint => InPhase(s.job, MarkedLogged)
    case MarkSession => InPhase(s.job, Checkpointed) && s.job.session.Some?
    case BeginRecover => s.job.Idle? && WalLog.Read(s.disk.wal).Ok?
    case RemoveStaged(v) => s.job.Recovering? && v in s.disk.staged
    case RemoveTmp(name) => s.job.Recovering? && name in s.disk.tmpDebris
    case FinishRecover => s.job.Recovering? && s.disk.staged == map[] && s.disk.tmpDebris == {}
    case BeginCompact => s.job.Idle?
    case ReplaceLog => s.job.Compacting?
    case PutChunk(p) => Sends(w, p)
    case AppendChunk(p) => Sends(w, p) && p in s.puts
    case LeaveInManifests(name) => LeftOverName(name)
    case LeaveInTmp(_) => true
    case Abort => true
    case Crash => true
  }

  // What each step does.

  function PiecePut(w: World, s: State): State
    requires s.job.Putting? && s.job.done < |AllPieces(s.job.mode, s.job.src)|
  {
    var x := AllPieces(s.job.mode, s.job.src)[s.job.done];
    var more := if w.codec.hash(x) in s.disk.objects then 0 else |w.codec.compress(x)|;
    s.(disk := s.disk.(objects := WithObject(w.codec, s.disk.objects, x)),
       job := s.job.(logged := false, stored := (s.job.stored + more) % U64))
  }

  function PieceLogged(w: World, s: State): State
    requires s.job.Putting? && s.job.done < |AllPieces(s.job.mode, s.job.src)|
  {
    var x := AllPieces(s.job.mode, s.job.src)[s.job.done];
    Logged(s, PutObject(w.codec.hash(x))).(job := s.job.(logged := true, done := s.job.done + 1))
  }

  function ManifestStaged(s: State, m: Manifest, snap: Source, session: Option<string>, temp: string): State {
    s.(disk := s.disk.(staged := s.disk.staged[m.version := Serialize(m)], tmpDebris := s.disk.tmpDebris - {temp}),
       job := Committing(m.version, m, snap, Staged, session))
  }

  function PhaseLogged(s: State, e: LogEntry, phase: Phase): State
    requires s.job.Committing?
  {
    Logged(s, e).(job := s.job.(phase := phase))
  }

  function ManifestRenamed(s: State): State
    requires s.job.Committing? && s.job.version in s.disk.staged
  {
    var v := s.job.version;
    s.(disk := s.disk.(manifests := s.disk.manifests[v := s.disk.staged[v]], staged := s.disk.staged - {v}),
       job := s.job.(phase := Renamed))
  }

  function VersionMarked(s: State, temp: string): State
    requires s.job.Committing?
  {
    s.(disk := s.disk.(markers := s.disk.markers + {s.job.version}, debris := s.disk.debris - {temp}),
       job := s.job.(phase := Marked), snaps := s.snaps[s.job.version := s.job.snap])
  }

  ghost function CheckpointSaved(s: State, job: Job): State {
    s.(disk := s.disk.(checkpoint := Some(CheckpointNow(s.disk))), job := job)
  }

  function SessionMarked(s: State): State
    requires s.job.Committing? && s.job.session.Some?
  {
    var id := s.job.session.value;
    s.(disk := s.disk.(sessions := s.disk.sessions[id := SessionText(s.disk, id) + LineText(CommittedLine(s.job.version))]),
       job := Idle)
  }

  ghost function LogReplaced(s: State): State {
    var es := [CheckpointEntry(Listed(s.disk)), CompactEntry];
    s.(disk := s.disk.(wal := WalLog.EncodeAll(ToRecords(es))), entries := es, job := Idle)
  }

  function ChunkPut(w: World, s: State, p: Put): State
    requires p.sessionId in w.sources && p.index < |PreparedChunks(w.codec, w.sources[p.sessionId])|
  {
    s.(disk := s.disk.(objects := WithObject(w.codec, s.disk.objects, Sent(w, p).raw)), puts := s.puts + {p})
  }

  function ChunkAppended(w: World, s: State, p: Put): State
    requires p.sessionId in w.sources && p.index < |PreparedChunks(w.codec, w.sources[p.sessionId])|
  {
    var text := Appended(SessionText(s.disk, p.sessionId), RecordOf(Sent(w, p)));
    s.(disk := s.disk.(sessions := s.disk.sessions[p.sessionId := text]), puts := s.puts - {p})
  }

  ghost function Apply(w: World, s: State, a: Action): State
    requires Enabled(w, s, a)
  {
    var d, job := s.disk, s.job;
    match a
    case Begin(src, mode, now, root) =>
      Logged(s, BeginBackup(NextVersion(d))).(job := Putting(NextVersion(d), src, mode, now, root, 0, true, 0))
    case PutPiece => PiecePut(w, s)
    case LogPiece => PieceLogged(w, s)
    case StageLocal(temp) => ManifestStaged(s, LocalManifest(w.codec, job), job.src, None, temp)
    case BeginSession(id, now) =>
      Logged(s, BeginNetworkBackup(NextVersion(d))).(job := Building(NextVersion(d), id, now))
    case StageSession(temp) =>
      ManifestStaged(s, SessionManifest(w, d, job).value, w.sources[job.sessionId], Some(job.sessionId), temp)
    case LogStaged => PhaseLogged(s, WriteManifest(job.version), StagedLogged)
    case Rename => ManifestRenamed(s)
    case LogRenamed => PhaseLogged(s, RenameManifest(job.version), RenamedLogged)
    case Mark(temp) => VersionMarked(s, temp)
    case LogMarked => PhaseLogged(s, CommitBackup(job.version), MarkedLogged)
    case SaveCheckpoint => CheckpointSaved(s, if job.session.Some? then job.(phase := Checkpointed) else Idle)
    case MarkSession => SessionMarked(s)
    case BeginRecover => s.(job := Recovering)
    case RemoveStaged(v) => s.(disk := d.(staged := d.staged - {v}))
    case RemoveTmp(name) => s.(disk := d.(tmpDebris := d.tmpDebris - {name}))
    case FinishRecover => CheckpointSaved(s, Idle)
    case BeginCompact => CheckpointSaved(s, Compacting)
    case ReplaceLog => LogReplaced(s)
    case PutChunk(p) => ChunkPut(w, s, p)
    case AppendChunk(p) => ChunkAppended(w, s, p)
    case LeaveInManifests(name) => s.(disk := d.(debris := d.debris + {name}))
    case LeaveInTmp(name) => s.(disk := d.(tmpDebris := d.tmpDebris + {name}))
    case Abort => s.(job := Idle)
    case Crash => s.(job := Idle, puts := {})
  }

  ghost predicate Step(w: World, s: State, t: State) {
    exists a :: Enabled(w, s, a) && t == Apply(w, s, a)
  }

  ghost predicate IsRun(w: World, run: seq<State>) {
    && run != [] && run[0] == INITIAL
    && forall i :: 0 <= i < |run| - 1 ==> StepAt(w, run, i)
  }

  ghost predicate StepAt(w: World, run: seq<State>, i: nat)
    requires i < |run| - 1
  {
    Step(w, run[i], run[i + 1])
  }

  ghost predicate RunTo(w: World, run: seq<State>, s: State) {
    run != [] && run[|run| - 1] == s && IsRun(w, run)
  }

  ghost predicate Reachable(w: World, s: State) {
    exists run :: RunTo(w, run, s)
  }

  // What every reachable state satisfies.

  /** A manifest that records a source whose chunks are all stored. */
  ghost predicate Records(c: Codec, objects: Objects, m: Manifest, v: nat, snap: Source) {
    && WellFormed(m) && m.version == v && m.files == Entries(c, m.mode, snap) && m.totalInputBytes == InputBytes(snap) % U64
    && ValidSource(c, snap) && Stored(c, objects, m.mode, snap)
  }

  ghost predicate TextRecords(c: Codec, objects: Objects, text: string, v: nat, snap: Source) {
    exists m :: Records(c, objects, m, v, snap) && text == Serialize(m)
  }

  ghost predicate VersionsOk(c: Codec, objects: Objects, manifests: map<nat, string>, committed: set<nat>, snaps: map<nat, Source>) {
    forall v: nat :: v in committed ==>
      v in manifests && v in snaps && TextRecords(c, objects, manifests[v], v, snaps[v])
  }

  ghost predicate LinesOk(c: Codec, src: Source, objects: Objects, lines: seq<Line>) {
    && AllReadable(lines) && Honest(c, src, RecordsOf(lines))
    && forall r :: r in RecordsOf(lines) ==> r.sha256 in objects
  }

  ghost predicate IndexOk(c: Codec, src: Source, objects: Objects, text: string) {
    exists lines :: LinesOk(c, src, objects, lines) && text == TextOf(lines)
  }

  ghost predicate SessionsOk(w: World, objects: Objects, sessions: map<string, string>) {
    forall id :: id in sessions ==> id in w.sources && IndexOk(w.codec, w.sources[id], objects, sessions[id])
  }

  ghost predicate PutsOk(w: World, objects: Objects, puts: set<Put>) {
    forall p :: p in puts ==> Sends(w, p) && Sent(w, p).sha256 in objects
  }

  /** Every log entry tells of something that is there. */
  ghost predicate Justified(e: LogEntry, objects: Objects, manifests: map<nat, string>, markers: set<nat>) {
    match e
    case PutObject(sha) => sha in objects
    case RenameManifest(v) => v in manifests
    case CommitBackup(v) => v in markers
    case CheckpointEntry(vs) => forall v: nat :: v in vs ==> v in markers
    case _ => true
  }

  ghost predicate EntriesOk(es: seq<LogEntry>, objects: Objects, manifests: map<nat, string>, markers: set<nat>) {
    forall e :: e in es ==> Justified(e, objects, manifests, markers)
  }

  /** The checkpoint lists some of the committed versions. */
  ghost predicate CheckpointOk(checkpoint: Option<string>, committed: set<nat>) {
    checkpoint.Some? ==>
      exists vs: seq<nat> ::
        && StrictlySorted(vs, LessNat) && AllBelow(vs, VERSION_LIMIT) && (forall v: nat :: v in vs ==> v in committed)
        && checkpoint.value == CheckpointText(CheckpointOf(vs))
  }

  /** Versions are allocated in order, up to the first that the listing cannot see. */
  ghost predicate MarkersOk(markers: set<nat>) {
    && (forall v: nat :: v in markers ==> 1 <= v <= VERSION_LIMIT)
    && (VERSION_LIMIT in markers ==> VERSION_LIMIT - 1 in markers)
  }

  ghost predicate DebrisOk(debris: set<string>) {
    forall n :: n in debris ==> LeftOverName(n)
  }

  ghost predicate PiecesStored(c: Codec, objects: Objects, pieces: seq<Bytes>, n: nat) {
    forall k :: 0 <= k < n && k < |pieces| ==> c.hash(pieces[k]) in objects
  }

  ghost predicate JobOk(w: World, d: Disk, job: Job) {
    match job
    case Putting(v, src, mode, now, root, done, logged, stored) =>
      && v == NextVersion(d) && ValidSource(w.codec, src) && now < U64 && root != "" && Octets(root) && stored < U64
      && done <= |AllPieces(mode, src)|
      && PiecesStored(w.codec, d.objects, AllPieces(mode, src), if logged then done else done + 1)
    case Building(v, id, now) => v == NextVersion(d) && id in w.sources && now < U64
    case Committing(v, m, snap, phase, session) =>
      && Records(w.codec, d.objects, m, v, snap)
      && (session.Some? ==> session.value in w.sources)
      && (if phase in {Marked, MarkedLogged, Checkpointed} then v in d.markers && v <= VERSION_LIMIT else v == NextVersion(d))
      && (phase in {Staged, StagedLogged} ==> v in d.staged && d.staged[v] == Serialize(m))
      && (phase in {Renamed, RenamedLogged} ==> v in d.manifests && d.manifests[v] == Serialize(m))
    case _ => true
  }

  ghost predicate Inv(w: World, s: State) {
    var c, d := w.codec, s.disk;
    && ValidObjects(c, d.objects)
    && VersionsOk(c, d.objects, d.manifests, Committed(d), s.snaps)
    && SessionsOk(w, d.objects, d.sessions)
    && PutsOk(w, d.objects, s.puts)
    && LogHolds(d.wal, s.entries)
    && EntriesOk(s.entries, d.objects, d.manifests, d.markers)
    && CheckpointOk(d.checkpoint, Committed(d))
    && MarkersOk(d.markers)
    && DebrisOk(d.debris)
    && JobOk(w, d, s.job)
  }
}
