/** After a million backups the names of versions get too long for the listing: a run that shows what happens. */
module VersionLimit {
  import opened Wrappers
  import opened Bytes
  import opened Text
  import opened Sorting
  import opened Paths
  import opened Manifest
  import opened ObjectStore
  import opened Snapshot
  import opened Checkpoint
  import opened Disk
  import opened Protocol
  import opened Safety
  import opened Guarantees
  import WalLog

  lemma Extend(w: World, s: State, a: Action)
    requires Reachable(w, s) && Enabled(w, s, a)
    ensures Reachable(w, Apply(w, s, a))
  {
    hide Apply, Enabled, Reachable;
    assert Step(w, s, Apply(w, s, a));
    ReachableStep(w, s, Apply(w, s, a));
  }

  const ROOT: string := "source"

  /** The manifest of a backup of an empty directory. */
  function EmptyManifest(v: nat, now: nat): Manifest {
    Manifest(v, now, Fixed, ROOT, 0, 0, [])
  }

  /** A backup of an empty directory, up to the rename. */
  lemma StageEmpty(w: World, s: State, now: nat) returns (t: State)
    requires Reachable(w, s) && s.job.Idle? && now < U64
    ensures Reachable(w, t) && InPhase(t.job, StagedLogged) && t.job.version == NextVersion(s.disk) && t.job.session == None
    ensures t.disk.markers == s.disk.markers && t.disk.manifests == s.disk.manifests
    ensures var v := NextVersion(s.disk); v in t.disk.staged && t.disk.staged[v] == Serialize(EmptyManifest(v, now))
  {
    hide Reachable, NextVersion, Serialize, WalLog.Encode, ToRecord;
    var v := NextVersion(s.disk);
    var begin := Begin([], Fixed, now, ROOT);
    assert AllPieces(Fixed, []) == [];
    Extend(w, s, begin);
    var s1 := Apply(w, s, begin);
    StageOne(w, s1, v, now);
    Extend(w, s1, StageLocal(""));
    var s2 := Apply(w, s1, StageLocal(""));
    Extend(w, s2, LogStaged);
    t := Apply(w, s2, LogStaged);
  }

  lemma StageOne(w: World, s: State, v: nat, now: nat)
    requires s.job == Putting(v, [], Fixed, now, ROOT, 0, true, 0)
    ensures Enabled(w, s, StageLocal("")) && LocalManifest(w.codec, s.job) == EmptyManifest(v, now)
  {
    assert AllPieces(Fixed, []) == [];
    assert Entries(w.codec, Fixed, []) == [];
  }

  /** The rename and its log record. */
  lemma RenameEmpty(w: World, s: State) returns (t: State)
    requires Reachable(w, s) && InPhase(s.job, StagedLogged) && s.job.version in s.disk.staged
    ensures Reachable(w, t) && t.job == s.job.(phase := RenamedLogged) && t.disk.markers == s.disk.markers
    ensures t.disk.manifests == s.disk.manifests[s.job.version := s.disk.staged[s.job.version]]
  {
    hide Reachable, WalLog.Encode, ToRecord;
    Extend(w, s, Rename);
    var s1 := Apply(w, s, Rename);
    Extend(w, s1, LogRenamed);
    t := Apply(w, s1, LogRenamed);
  }

  lemma BackUpEmpty(w: World, s: State, now: nat) returns (t: State)
    requires Reachable(w, s) && s.job.Idle? && now < U64
    ensures Reachable(w, t) && t.job.Idle? && t.disk.markers == s.disk.markers + {NextVersion(s.disk)}
    ensures var v := NextVersion(s.disk); v in t.disk.manifests && t.disk.manifests[v] == Serialize(EmptyManifest(v, now))
  {
    hide Reachable, NextVersion, Serialize, WalLog.Encode, ToRecord, CheckpointNow;
    var s1 := StageEmpty(w, s, now);
    var s2 := RenameEmpty(w, s1);
    Extend(w, s2, Mark(""));
    var s3 := Apply(w, s2, Mark(""));
    Extend(w, s3, LogMarked);
    var s4 := Apply(w, s3, LogMarked);
    Extend(w, s4, SaveCheckpoint);
    t := Apply(w, s4, SaveCheckpoint);
  }

  lemma NextAfter(d: Disk, n: nat)
    requires n <= VERSION_LIMIT && forall v: nat :: v in d.markers <==> 1 <= v <= n
    ensures NextVersion(d) == if n < VERSION_LIMIT then n + 1 else VERSION_LIMIT
  {
    hide Listed;
    LatestIsMax(d);
    var last := if n < VERSION_LIMIT then n else VERSION_LIMIT - 1;
    if n > 0 {
      assert last in d.markers && last in Committed(d);
    }
  }

  /** Any number of backups, one after the other. */
  lemma {:induction false} BackUpManyTimes(w: World, n: nat) returns (s: State)
    requires n <= VERSION_LIMIT
    ensures Reachable(w, s) && s.job.Idle? && forall v: nat :: v in s.disk.markers <==> 1 <= v <= n
    ensures n > 0 ==> n in s.disk.manifests && s.disk.manifests[n] == Serialize(EmptyManifest(n, 0))
  {
    hide Reachable, NextVersion, Serialize;
    if n == 0 {
      s := INITIAL;
      InitialReachable(w);
    } else {
      var before := BackUpManyTimes(w, n - 1);
      NextAfter(before.disk, n - 1);
      s := BackUpEmpty(w, before, 0);
    }
  }

  /** Version 1000000 is committed, never listed, and then its manifest is replaced by another one. */
  lemma MarkedVersionReplaced(w: World) returns (s: State)
    ensures Reachable(w, s) && InPhase(s.job, StagedLogged) && s.job.version in s.disk.staged
    ensures s.job.version == VERSION_LIMIT && VERSION_LIMIT in s.disk.markers && VERSION_LIMIT !in Listed(s.disk)
    ensures VERSION_LIMIT in s.disk.manifests
         && ManifestRenamed(s).disk.manifests[VERSION_LIMIT] != s.disk.manifests[VERSION_LIMIT]
  {
    hide Reachable, NextVersion, Serialize, Parse, Listed;
    var full := BackUpManyTimes(w, VERSION_LIMIT);
    NextAfter(full.disk, VERSION_LIMIT);
    s := StageEmpty(w, full, 1);
    assert VERSION_LIMIT !in Committed(s.disk);
    ParseIsInverseOfSerialize(EmptyManifest(VERSION_LIMIT, 0));
    ParseIsInverseOfSerialize(EmptyManifest(VERSION_LIMIT, 1));
    assert Octets(ROOT);
  }
}
