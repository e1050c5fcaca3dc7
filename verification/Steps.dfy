/** Single steps of the protocol, by what they do to the state. */
module Steps {
  import opened Wrappers
  import opened Bytes
  import opened Text
  import opened Paths
  import opened Manifest
  import opened ObjectStore
  import opened Snapshot
  import opened SessionIndex
  import opened Upload
  import opened Checkpoint
  import opened Disk
  import opened Protocol
  import WalLog

  lemma StepOf(w: World, s: State, a: Action, t: State)
    requires Enabled(w, s, a) && t == Apply(w, s, a)
    ensures Step(w, s, t)
  {
    hide Enabled, Apply;
  }

  lemma StepBegin(w: World, s: State, src: Source, mode: ChunkingMode, now: nat, root: string)
    requires s.job.Idle? && ValidSource(w.codec, src) && now < U64 && root != "" && Octets(root)
    ensures var v := NextVersion(s.disk);
            Step(w, s, Logged(s, BeginBackup(v)).(job := Putting(v, src, mode, now, root, 0, true, 0)))
  {
    hide Step, ValidSource, Octets, NextVersion, Logged;
    StepOf(w, s, Begin(src, mode, now, root), Apply(w, s, Begin(src, mode, now, root)));
  }

  lemma StepPiece(w: World, s: State)
    requires s.job.Putting? && s.job.done < |AllPieces(s.job.mode, s.job.src)|
    ensures if s.job.logged then Step(w, s, PiecePut(w, s)) else Step(w, s, PieceLogged(w, s))
  {
    hide Step, AllPieces, PiecePut, PieceLogged;
    var a := if s.job.logged then PutPiece else LogPiece;
    StepOf(w, s, a, Apply(w, s, a));
  }

  lemma StepStageLocal(w: World, s: State, temp: string)
    requires s.job.Putting? && s.job.logged && s.job.done == |AllPieces(s.job.mode, s.job.src)|
    ensures Step(w, s, ManifestStaged(s, LocalManifest(w.codec, s.job), s.job.src, None, temp))
  {
    hide Step, AllPieces, ManifestStaged, LocalManifest;
    StepOf(w, s, StageLocal(temp), Apply(w, s, StageLocal(temp)));
  }

  lemma StepBeginSession(w: World, s: State, id: string, now: nat)
    requires s.job.Idle? && id in w.sources && now < U64
    ensures var v := NextVersion(s.disk);
            Step(w, s, Logged(s, BeginNetworkBackup(v)).(job := Building(v, id, now)))
  {
    hide Step, NextVersion, Logged;
    StepOf(w, s, BeginSession(id, now), Apply(w, s, BeginSession(id, now)));
  }

  lemma StepStageSession(w: World, s: State, temp: string)
    requires s.job.Building? && s.job.sessionId in w.sources && SessionManifest(w, s.disk, s.job).Some?
    ensures Step(w, s, ManifestStaged(s, SessionManifest(w, s.disk, s.job).value, w.sources[s.job.sessionId],
                                      Some(s.job.sessionId), temp))
  {
    hide Step, ManifestStaged, SessionManifest;
    StepOf(w, s, StageSession(temp), Apply(w, s, StageSession(temp)));
  }

  lemma StepLogPhase(w: World, s: State)
    requires s.job.Committing?
    ensures s.job.phase == Staged ==> Step(w, s, PhaseLogged(s, WriteManifest(s.job.version), StagedLogged))
    ensures s.job.phase == Renamed ==> Step(w, s, PhaseLogged(s, RenameManifest(s.job.version), RenamedLogged))
    ensures s.job.phase == Marked ==> Step(w, s, PhaseLogged(s, CommitBackup(s.job.version), MarkedLogged))
  {
    hide Step, PhaseLogged;
    if s.job.phase == Staged {
      StepOf(w, s, LogStaged, Apply(w, s, LogStaged));
    } else if s.job.phase == Renamed {
      StepOf(w, s, LogRenamed, Apply(w, s, LogRenamed));
    } else if s.job.phase == Marked {
      StepOf(w, s, LogMarked, Apply(w, s, LogMarked));
    }
  }

  lemma StepRename(w: World, s: State)
    requires InPhase(s.job, StagedLogged) && s.job.version in s.disk.staged
    ensures Step(w, s, ManifestRenamed(s))
  {
    hide Step, ManifestRenamed;
    StepOf(w, s, Rename, Apply(w, s, Rename));
  }

  lemma StepMark(w: World, s: State, temp: string)
    requires InPhase(s.job, RenamedLogged)
    ensures Step(w, s, VersionMarked(s, temp))
  {
    hide Step, VersionMarked;
    StepOf(w, s, Mark(temp), Apply(w, s, Mark(temp)));
  }

  lemma StepCheckpoint(w: World, s: State)
    requires InPhase(s.job, MarkedLogged)
    ensures Step(w, s, CheckpointSaved(s, if s.job.session.Some? then s.job.(phase := Checkpointed) else Idle))
  {
    hide Step, CheckpointSaved;
    StepOf(w, s, SaveCheckpoint, Apply(w, s, SaveCheckpoint));
  }

  lemma StepMarkSession(w: World, s: State)
    requires InPhase(s.job, Checkpointed) && s.job.session.Some?
    ensures Step(w, s, SessionMarked(s))
  {
    hide Step, SessionMarked;
    StepOf(w, s, MarkSession, Apply(w, s, MarkSession));
  }

  lemma StepPut(w: World, s: State, p: Put)
    requires Sends(w, p)
    ensures Step(w, s, ChunkPut(w, s, p))
    ensures p in s.puts ==> Step(w, s, ChunkAppended(w, s, p))
  {
    hide Step, ChunkPut, ChunkAppended, PreparedChunks;
    StepOf(w, s, PutChunk(p), Apply(w, s, PutChunk(p)));
    if p in s.puts {
      StepOf(w, s, AppendChunk(p), Apply(w, s, AppendChunk(p)));
    }
  }

  lemma StepLeaveInTmp(w: World, s: State, name: string)
    ensures Step(w, s, s.(disk := s.disk.(tmpDebris := s.disk.tmpDebris + {name})))
  {
    hide Step;
    StepOf(w, s, LeaveInTmp(name), Apply(w, s, LeaveInTmp(name)));
  }

  lemma StepLeaveInManifests(w: World, s: State, name: string)
    requires LeftOverName(name)
    ensures Step(w, s, s.(disk := s.disk.(debris := s.disk.debris + {name})))
  {
    hide Step, LeftOverName;
    StepOf(w, s, LeaveInManifests(name), Apply(w, s, LeaveInManifests(name)));
  }

  lemma StepCrash(w: World, s: State)
    ensures Step(w, s, s.(job := Idle, puts := {}))
  {
    hide Step;
    StepOf(w, s, Crash, Apply(w, s, Crash));
  }

  lemma StepAbort(w: World, s: State)
    ensures Step(w, s, s.(job := Idle))
  {
    hide Step;
    StepOf(w, s, Abort, Apply(w, s, Abort));
  }

  lemma StepBeginRecover(w: World, s: State)
    requires s.job.Idle? && WalLog.Read(s.disk.wal).Ok?
    ensures Step(w, s, s.(job := Recovering))
  {
    hide Step, WalLog.Read;
    StepOf(w, s, BeginRecover, Apply(w, s, BeginRecover));
  }

  lemma StepRemove(w: World, s: State, v: nat, name: string)
    requires s.job.Recovering?
    ensures v in s.disk.staged ==> Step(w, s, s.(disk := s.disk.(staged := s.disk.staged - {v})))
    ensures name in s.disk.tmpDebris ==> Step(w, s, s.(disk := s.disk.(tmpDebris := s.disk.tmpDebris - {name})))
  {
    hide Step;
    if v in s.disk.staged {
      StepOf(w, s, RemoveStaged(v), Apply(w, s, RemoveStaged(v)));
    }
    if name in s.disk.tmpDebris {
      StepOf(w, s, RemoveTmp(name), Apply(w, s, RemoveTmp(name)));
    }
  }

  lemma StepFinishRecover(w: World, s: State)
    requires s.job.Recovering? && s.disk.staged == map[] && s.disk.tmpDebris == {}
    ensures Step(w, s, CheckpointSaved(s, Idle))
  {
    hide Step, CheckpointSaved;
    StepOf(w, s, FinishRecover, Apply(w, s, FinishRecover));
  }

  lemma StepCompact(w: World, s: State)
    ensures s.job.Idle? ==> Step(w, s, CheckpointSaved(s, Compacting))
    ensures s.job.Compacting? ==> Step(w, s, LogReplaced(s))
  {
    hide Step, CheckpointSaved, LogReplaced;
    if s.job.Idle? {
      StepOf(w, s, BeginCompact, Apply(w, s, BeginCompact));
    } else if s.job.Compacting? {
      StepOf(w, s, ReplaceLog, Apply(w, s, ReplaceLog));
    }
  }
}
