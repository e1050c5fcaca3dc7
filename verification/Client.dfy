/** The client of the backup server: uploading a source, stopping, and taking up where it stopped. */
module Client {
  import opened Wrappers
  import opened Slices
  import opened Bytes
  import opened Text
  import opened Sorting
  import opened Paths
  import opened Manifest
  import opened Chunkers
  import opened ObjectStore
  import opened Snapshot
  import opened SessionIndex
  import opened Upload
  import opened Checkpoint
  import opened Disk
  import opened Protocol
  import opened Safety
  import opened Guarantees
  import opened Payloads
  import opened Repository
  import opened Server
  import opened PacketSizes
  import opened PacketCodec
  import WalLog

  // What a session has received.

  ghost function SessionRecords(d: Disk, id: string): seq<SessionIndex.Received> {
    var records := ReadRecords(SessionText(d, id));
    if records.Some? then records.value else []
  }

  ghost function ReceivedIndexes(d: Disk, id: string): set<nat> {
    ReceivedMap(SessionRecords(d, id)).Keys
  }

  lemma ReceivedIsHonest(c: Codec, src: Source, records: seq<SessionIndex.Received>, i: nat)
    requires Honest(c, src, records) && i in ReceivedMap(records)
    ensures i < |AllRecords(c, src)| && AllRecords(c, src)[i] in records
    ensures ReceivedMap(records)[i] == AllRecords(c, src)[i].sha256
  {
    hide AllRecords;
    ReceivedIsSomeRecord(records, i);
  }

  /** A session never has more chunks than its source, so there is an end to being interrupted. */
  lemma ReceivedBounded(w: World, s: State, id: string)
    requires w.Sound() && Reachable(w, s) && id in w.sources
    ensures |ReceivedIndexes(s.disk, id)| <= |PreparedChunks(w.codec, w.sources[id])|
    ensures forall i :: i in ReceivedIndexes(s.disk, id) ==> i < |PreparedChunks(w.codec, w.sources[id])|
  {
    hide Reachable, ReadRecords, PreparedChunks, Honest, SessionText, ReceivedMap, ReadRaw;
    SessionsAreHonest(w, s, id);
    var n, indexes := |PreparedChunks(w.codec, w.sources[id])|, ReceivedIndexes(s.disk, id);
    forall i | i in indexes
      ensures i < n
    {
      ReceivedIsHonest(w.codec, w.sources[id], SessionRecords(s.disk, id), i);
    }
    BelowCount(indexes, n);
  }

  lemma {:induction false} BelowCount(s: set<nat>, n: nat)
    requires forall i :: i in s ==> i < n
    ensures |s| <= n
    decreases n
  {
    if n > 0 {
      BelowCount(s - {n - 1}, n - 1);
    } else {
      assert forall i: nat :: i !in s;
      assert s == {};
    }
  }

  /** One more acknowledged chunk is one more record, unless the server had it already. */
  lemma AppendedReads(w: World, s: State, p: Put)
    requires Sends(w, p) && w.Sound() && Inv(w, s)
    ensures var text, r := SessionText(s.disk, p.sessionId), RecordOf(Sent(w, p));
            && ReadRecords(text).Some? && r.globalIndex == p.index
            && ReadRecords(Appended(text, r))
               == Some(ReadRecords(text).value + if p.index in ReceivedMap(ReadRecords(text).value) then [] else [r])
  {
    hide ValidObjects, VersionsOk, PutsOk, LogHolds, CheckpointOk, MarkersOk, DebrisOk, EntriesOk, JobOk, Listed,
         ReadRecords, PreparedChunks, SessionText, LineText, AllRecords, RecordsOf, TextOf, Readable, Honest, ReceivedMap, RecordOf;
    var text, r := SessionText(s.disk, p.sessionId), RecordOf(Sent(w, p));
    SessionTextOk(w, s.disk.objects, s.disk, p.sessionId);
    RecordReadable(w, p.sessionId, p.index);
    AllRecordsAt(w.codec, w.sources[p.sessionId], p.index);
    var lines :| LinesOk(w.codec, w.sources[p.sessionId], s.disk.objects, lines) && text == TextOf(lines);
    IndexReadsBack(lines);
    assert RecordsOf(lines) + [] == RecordsOf(lines);
    LineAdded(lines, r);
    IndexReadsBack(lines + [SessionIndex.ChunkLine(r)]);
  }

  lemma ReceivedOneMore(records: seq<SessionIndex.Received>, r: SessionIndex.Received)
    ensures ReceivedMap(records + [r]).Keys == ReceivedMap(records).Keys + {r.globalIndex}
  {
    assert (records + [r])[..|records|] == records;
  }

  /** After a put, exactly its chunk has been added to what its session has received. */
  lemma PutReceived(w: World, s: State, p: Put)
    requires Sends(w, p) && w.Sound() && Inv(w, s)
    ensures var t := ChunkAppended(w, ChunkPut(w, s, p), p);
            && ReceivedIndexes(t.disk, p.sessionId) == ReceivedIndexes(s.disk, p.sessionId) + {p.index}
            && t.job == s.job && t.snaps == s.snaps && t.disk.markers == s.disk.markers && t.disk.manifests == s.disk.manifests
            && (forall id :: id != p.sessionId ==> SessionText(t.disk, id) == SessionText(s.disk, id))
  {
    hide Inv, ReadRecords, ReceivedMap, PreparedChunks, RecordOf, WithObject, Appended;
    var text, r := SessionText(s.disk, p.sessionId), RecordOf(Sent(w, p));
    AppendedReads(w, s, p);
    var records := ReadRecords(text).value;
    assert records + [] == records;
    ReceivedOneMore(records, r);
    SameText(s.disk, ChunkPut(w, s, p).disk, p.sessionId);
  }

  /** With all indexes received, the session is complete. */
  lemma AllReceived(w: World, s: State, id: string)
    requires id in w.sources && w.Sound() && Reachable(w, s)
    requires forall i :: 0 <= i < |PreparedChunks(w.codec, w.sources[id])| ==> i in ReceivedIndexes(s.disk, id)
    ensures SessionComplete(w, s.disk, id)
  {
    hide Reachable, ReadRecords, ReceivedMap, PreparedChunks, SessionText, Honest, ReadRaw;
    SessionsAreHonest(w, s, id);
    var all, records := AllRecords(w.codec, w.sources[id]), SessionRecords(s.disk, id);
    forall r | r in all
      ensures r in records
    {
      var i :| 0 <= i < |all| && all[i] == r;
      assert i in ReceivedIndexes(s.disk, id);
      ReceivedIsHonest(w.codec, w.sources[id], records, i);
    }
  }

  // The upload.

  /** How an upload ends: with the server's answer to the commit, with exit code 75, or with an exception. */
  datatype UploadResult = Done(answer: string) | Stopped | Failed

  /** The first question and its answer fit into packets. */
  ghost predicate CanAsk(d: Disk, id: string) {
    QuerySize(id) <= PacketCodec.MAX_PAYLOAD && StatusFits(ReceivedIndexes(d, id))
  }

  ghost predicate PutFits(w: World, id: string, k: nat)
    requires id in w.sources && k < |PreparedChunks(w.codec, w.sources[id])|
  {
    PutSize(PutRequest(id, PreparedChunks(w.codec, w.sources[id])[k])) <= PacketCodec.MAX_PAYLOAD
  }

  /** The chunks below `n` that the server does not have fit into packets. */
  ghost predicate MissingFit(w: World, d: Disk, id: string, n: nat)
    requires id in w.sources && n <= |PreparedChunks(w.codec, w.sources[id])|
  {
    forall k :: 0 <= k < n && k !in ReceivedIndexes(d, id) ==> PutFits(w, id, k)
  }

  /** How many chunks below `n` the server does not have. */
  ghost function Missing(d: Disk, id: string, n: nat): nat {
    |FirstChunks(n) - ReceivedIndexes(d, id)|
  }

  /** An upload that is told to stop after some chunks gets so far. */
  ghost predicate Stops(w: World, d: Disk, id: string, exitAfter: nat)
    requires id in w.sources
  {
    && exitAfter > 0 && CanAsk(d, id)
    && exists n :: 0 <= n <= |PreparedChunks(w.codec, w.sources[id])| && Missing(d, id, n) == exitAfter && MissingFit(w, d, id, n)
  }

  /** An upload gets to its end if it is not stopped before. */
  ghost predicate Completes(w: World, d: Disk, id: string)
    requires id in w.sources
  {
    var total := |PreparedChunks(w.codec, w.sources[id])|;
    CanAsk(d, id) && MissingFit(w, d, id, total) && CommitSize(id, total) <= PacketCodec.MAX_PAYLOAD
  }

  lemma MissingNext(d: Disk, id: string, n: nat)
    ensures Missing(d, id, n + 1) == Missing(d, id, n) + if n in ReceivedIndexes(d, id) then 0 else 1
  {
    hide ReceivedIndexes;
    var less, more := FirstChunks(n) - ReceivedIndexes(d, id), FirstChunks(n + 1) - ReceivedIndexes(d, id);
    if n in ReceivedIndexes(d, id) {
      assert more == less;
    } else {
      assert more == less + {n};
    }
  }

  lemma {:induction false} MissingGrows(d: Disk, id: string, m: nat, n: nat)
    requires m <= n
    ensures Missing(d, id, m) <= Missing(d, id, n)
    decreases n
  {
    hide Missing, ReceivedIndexes;
    if m < n {
      MissingNext(d, id, n - 1);
      MissingGrows(d, id, m, n - 1);
    }
  }

  lemma StatusIsProper(w: World, s: State, id: string)
    requires w.Sound() && Reachable(w, s) && id in w.sources
    ensures var records := ReadRecords(SessionText(s.disk, id));
            && records.Some? && records.value == SessionRecords(s.disk, id)
            && forall k :: k in ReceivedMap(records.value) ==>
                 k < U64 && IsWord(ReceivedMap(records.value)[k]) && |ReceivedMap(records.value)[k]| == 64
    ensures forall i :: i in ReceivedIndexes(s.disk, id) ==>
              i < |PreparedChunks(w.codec, w.sources[id])|
              && ReceivedMap(SessionRecords(s.disk, id))[i] == PreparedChunks(w.codec, w.sources[id])[i].sha256
  {
    hide Reachable, ReadRecords, PreparedChunks, Honest, SessionText, ReceivedMap, ReadRaw, IsWord, RecordOf;
    SessionsAreHonest(w, s, id);
    assert w.SoundSession(id);
    var src, records := w.sources[id], SessionRecords(s.disk, id);
    forall i | i in ReceivedIndexes(s.disk, id)
      ensures i < |PreparedChunks(w.codec, src)| && IsWord(ReceivedMap(records)[i]) && |ReceivedMap(records)[i]| == 64
      ensures ReceivedMap(records)[i] == PreparedChunks(w.codec, src)[i].sha256
    {
      ReceivedIsHonest(w.codec, src, records, i);
      AllRecordsAt(w.codec, src, i);
      RecordParts(PreparedChunks(w.codec, src)[i]);
      RecordReadable(w, id, i);
      DigestIsWord(PreparedChunks(w.codec, src)[i].sha256);
    }
  }

  /** In every reachable state a session can be queried exactly when the lines of its chunks fit into a packet. */
  lemma QueryAnsweredIff(w: World, s: State, id: string)
    requires w.Sound() && Reachable(w, s) && id in w.sources
    ensures var reply := QueryOutcome(s.disk, MakeQuery(id));
            && (reply.kind == SESSION_STATUS <==> StatusFits(ReceivedIndexes(s.disk, id)))
            && (reply.kind == SESSION_STATUS ==>
                  reply.text == MakeStatus(StatusPairs(ReceivedMap(SessionRecords(s.disk, id)))))
  {
    hide Reachable, ReadRecords, MakeStatus, MakeQuery, ParseQuery, ReceivedMap, StatusPairs, PreparedChunks, SessionText, IsWord,
         StatusSize;
    StatusIsProper(w, s, id);
    assert w.SoundSession(id);
    QueryReadsBack(id);
    StatusSizeExact(ReceivedMap(SessionRecords(s.disk, id)));
  }

  /** The digest field of packets that carry no chunk. */
  const NO_SHA: Bytes := seq(32, i => 0)

  class BackupClient {
    const server: BackupServer

    constructor (server: BackupServer)
      ensures this.server == server
    {
      this.server := server;
    }

    /** The greeting, which every server of this kind returns. */
    method Greet(sessionHash: nat) returns (ok: bool)
      modifies server.repo
      ensures ok && unchanged(server.repo)
    {
      var packet := Packet(HELLO, sessionHash, 0, NO_SHA, AsBytes("DPC_CLIENT_V1\n"));
      var reply := server.HandlePacket(packet, None, 0, 0, 0);
      return reply.Reply? && reply.kind != ERROR;
    }

    /** Asks which chunks the server has; there is an answer exactly when question and answer fit into packets. */
    method Query(id: string, sessionHash: nat) returns (received: Option<map<nat, string>>)
      requires server.repo.Valid() && id in server.repo.world.sources
      modifies server.repo
      ensures unchanged(server.repo)
      ensures received.Some? <==> CanAsk(server.repo.disk, id)
      ensures received.Some? ==> received.value == ReceivedMap(SessionRecords(server.repo.disk, id))
    {
      hide RunTo, ReadRecords, MakeStatus, ParseStatus, MakeQuery, ParseQuery, ReceivedMap, StatusPairs, PreparedChunks,
           SessionText, IsWord, QueryOutcome, StatusFits;
      assert Reachable(server.repo.world, server.repo.Now());
      var payload := MakeQuery(id);
      QuerySizeExact(id);
      if |payload| > PacketCodec.MAX_PAYLOAD {
        return None;
      }
      StatusIsProper(server.repo.world, server.repo.Now(), id);
      StatusSurvives(ReceivedMap(SessionRecords(server.repo.disk, id)));
      QueryAnsweredIff(server.repo.world, server.repo.Now(), id);
      var reply := server.HandlePacket(Packet(QUERY_SESSION, sessionHash, 0, NO_SHA, payload), None, 0, 0, 0);
      if reply.Terminated? || reply.kind != SESSION_STATUS {
        return None;
      }
      received := ParseStatusText(reply.text);
    }

    method SendChunk(id: string, sessionHash: nat, chunk: PreparedChunk, ghost p: Put) returns (ok: bool)
      requires Sends(server.repo.world, p) && p.sessionId == id && chunk == Sent(server.repo.world, p)
      requires server.repo.Resting() && Lowercase(server.repo.world.codec)
      modifies server.repo
      ensures server.repo.Resting() && old(server.repo.trace) <= server.repo.trace
      ensures ok ==> Progress(old(server.repo.Now()), server.repo.Now(), p)
      ensures ok <==> PutFits(server.repo.world, id, p.index)
      ensures !ok ==> server.repo.Now() == old(server.repo.Now())
    {
      hide RunTo, PreparedChunks, MakePut, ReadRecords, ReceivedMap, Progress, PutRequest, PutSize, ChunkPut, ChunkAppended,
           PutOutcome, ShaBytes, Inv;
      ghost var before, w := server.repo.Now(), server.repo.world;
      var payload := MakePutPayload(PutRequest(id, chunk));
      PutSizeExact(PutRequest(id, chunk));
      ChunkIsConsistent(w, p);
      if |payload| > PacketCodec.MAX_PAYLOAD {
        return false;
      }
      server.repo.InvNow();
      MadeProgress(w, before, p);
      var packet := Packet(PUT_CHUNK, sessionHash, chunk.globalIndex, ShaBytes(chunk.sha256), payload);
      var reply := server.HandlePacket(packet, Some(p), 0, 0, 0);
      return reply == STORED;
    }

    /** One turn of the loop: a chunk that the server has is skipped, any other is sent. */
    method SendUnlessReceived(id: string, sessionHash: nat, chunk: PreparedChunk, received: map<nat, string>,
                              ghost p: Put, ghost start: State, ghost sent: nat)
      returns (ok: bool, skipped: bool)
      requires Sends(server.repo.world, p) && p.sessionId == id && chunk == Sent(server.repo.world, p)
      requires server.repo.Resting() && Lowercase(server.repo.world.codec)
      requires SentBelow(start, server.repo.Now(), id, p.index, sent)
      requires KnowsReceived(server.repo.world, start.disk, id, received)
      modifies server.repo
      ensures server.repo.Resting() && old(server.repo.trace) <= server.repo.trace
      ensures skipped <==> p.index in ReceivedIndexes(start.disk, id)
      ensures ok <==> skipped || PutFits(server.repo.world, id, p.index)
      ensures if ok then SentBelow(start, server.repo.Now(), id, p.index + 1, if skipped then sent else sent + 1)
              else server.repo.Now() == old(server.repo.Now())
    {
      hide Step, RunTo, PreparedChunks, Progress, PutFits, SentBelow, Lowercase, ReceivedIndexes;
      ghost var before := server.repo.Now();
      ChunkIsConsistent(server.repo.world, p);
      ReceivedKnown(server.repo.world, start.disk, id, received, p.index);
      if chunk.globalIndex in received {
        if received[chunk.globalIndex] == chunk.sha256 {
          SentSkips(start, before, p, sent);
          return true, true;
        }
      }
      ok := SendChunk(id, sessionHash, chunk, p);
      if ok {
        SentOneMore(start, before, server.repo.Now(), p, sent);
      }
      return ok, false;
    }

    /** Sends what the server does not have, in order, until told to stop. */
    method SendMissing(id: string, sessionHash: nat, chunks: seq<PreparedChunk>, received: map<nat, string>, exitAfter: nat)
      returns (end: Sending, ghost sent: nat)
      requires server.repo.Resting() && id in server.repo.world.sources && Lowercase(server.repo.world.codec)
      requires chunks == PreparedChunks(server.repo.world.codec, server.repo.world.sources[id])
      requires received == ReceivedMap(SessionRecords(server.repo.disk, id))
      modifies server.repo
      ensures server.repo.Resting() && old(server.repo.trace) <= server.repo.trace
      ensures GotMore(old(server.repo.Now()), server.repo.Now(), id, sent)
      ensures SentAll(server.repo.world, old(server.repo.disk), server.repo.disk, id, exitAfter, end, sent)
    {
      hide Step, RunTo, PreparedChunks, ReceivedMap, SessionRecords, GotMore, PutFits, Missing, SentBelow, MissingFit, Lowercase,
           ReceivedIndexes, KnowsReceived;
      ghost var w, start := server.repo.world, server.repo.Now();
      assert Reachable(w, start);
      AnswerKnown(w, start, id);
      NothingSent(w, start, id);
      var count := 0;
      for i := 0 to |chunks|
        invariant server.repo.Resting() && old(server.repo.trace) <= server.repo.trace
        invariant count == Missing(start.disk, id, i) && SentBelow(start, server.repo.Now(), id, i, count)
        invariant (exitAfter > 0 ==> count < exitAfter) && MissingFit(w, start.disk, id, i)
      {
        MissingNext(start.disk, id, i);
        MissingFitNext(w, start.disk, id, i);
        SentSoFar(start, server.repo.Now(), id, i, count);
        var ok, skipped := SendUnlessReceived(id, sessionHash, chunks[i], received, Put(id, i), start, count);
        if !ok {
          return Oversized(i), count;
        }
        if !skipped {
          count := count + 1;
          if exitAfter > 0 && count >= exitAfter {
            SentSoFar(start, server.repo.Now(), id, i + 1, count);
            return Enough(i + 1), count;
          }
        }
      }
      SentSoFar(start, server.repo.Now(), id, |chunks|, count);
      return AllSent, count;
    }

    /**
     * `BackupClient::upload` of the source of a session, of which any part may be on the server already.
     * If it runs to its end, the new version is what a local fixed-size backup of the source would be. If it
     * is told to stop after some chunks, the server has exactly so many more. Which way it ends is known from
     * the received chunks and the sizes of the packets before it starts.
     */
    method Upload(src: Source, id: string, sessionHash: nat, exitAfter: nat, now: nat, pid: nat, ticks: nat)
      returns (result: UploadResult)
      requires server.repo.Resting() && id in server.repo.world.sources && src == server.repo.world.sources[id]
      requires Lowercase(server.repo.world.codec) && now < U64
      modifies server.repo
      ensures server.repo.Resting() && old(server.repo.trace) <= server.repo.trace
      ensures result.Stopped? <==> Stops(server.repo.world, old(server.repo.disk), id, exitAfter)
      ensures result.Done? <==>
        Completes(server.repo.world, old(server.repo.disk), id) && !Stops(server.repo.world, old(server.repo.disk), id, exitAfter)
      ensures match result
              case Done(answer) => Uploaded(server.repo.world, old(server.repo.Now()), server.repo.Now(), id, answer, now)
              case Stopped => GotMore(old(server.repo.Now()), server.repo.Now(), id, exitAfter)
              case Failed => exists sent :: GotMore(old(server.repo.Now()), server.repo.Now(), id, sent)
    {
      hide Step, RunTo, PreparedChunks, ReadRecords, ReceivedMap, Inv, SessionRecords, GotMore, Uploaded, CanAsk, MissingFit, Missing,
           SentAll, Completes, Stops, ReceivedIndexes;
      ghost var w, start := server.repo.world, server.repo.Now();
      GotNothing(start, id);
      var chunks := PrepareChunks(server.repo.world.codec, src);
      var greeted := Greet(sessionHash);
      if !greeted {
        return Failed;
      }
      var received := Query(id, sessionHash);
      if received.None? {
        NotAsked(w, start.disk, id, exitAfter);
        return Failed;
      }
      var end; ghost var sent;
      end, sent := SendMissing(id, sessionHash, chunks, received.value, exitAfter);
      EndsAsPredicted(w, start.disk, server.repo.disk, id, exitAfter, end, sent);
      if end.Oversized? {
        return Failed;
      }
      if end.Enough? {
        return Stopped;
      }
      result := Commit(id, sessionHash, |chunks|, sent, start, now, pid, ticks);
    }

    method Commit(id: string, sessionHash: nat, total: nat, ghost sent: nat, ghost start: State, now: nat, pid: nat, ticks: nat)
      returns (result: UploadResult)
      requires server.repo.Resting() && id in server.repo.world.sources && now < U64
      requires total == |PreparedChunks(server.repo.world.codec, server.repo.world.sources[id])|
      requires GotMore(start, server.repo.Now(), id, sent)
      requires forall i :: 0 <= i < total ==> i in ReceivedIndexes(server.repo.disk, id)
      modifies server.repo
      ensures server.repo.Resting() && old(server.repo.trace) <= server.repo.trace
      ensures !result.Stopped? && (result.Done? <==> CommitSize(id, total) <= PacketCodec.MAX_PAYLOAD)
      ensures result.Done? ==> Uploaded(server.repo.world, start, server.repo.Now(), id, result.answer, now)
      ensures result.Failed? ==> server.repo.Now() == old(server.repo.Now())
    {
      hide Step, RunTo, PreparedChunks, ReadRecords, Inv, GotMore, Uploaded, MakeCommit, ParseCommit, CommitSize,
           SessionCommitted, SessionComplete, ReceivedIndexes, NextVersion, Decimal;
      ghost var w, ready := server.repo.world, server.repo.Now();
      assert Reachable(w, ready);
      var payload := MakeCommit(id, total);
      CommitSizeExact(id, total);
      if |payload| > PacketCodec.MAX_PAYLOAD {
        return Failed;
      }
      assert w.SoundSession(id);
      CommitReadsBack(id, total);
      AllReceived(w, ready, id);
      var reply := server.HandlePacket(Packet(COMMIT_SESSION, sessionHash, 0, NO_SHA, payload), None, now, pid, ticks);
      if reply.Terminated? || reply.kind != COMMIT_ACK {
        return Failed;
      }
      UploadedAfter(w, start, ready, server.repo.Now(), id, NextVersion(ready.disk), sent, now);
      return Done(reply.text);
    }
  }

  /** How the loop over the chunks ends: after all, after enough below `n`, or at a chunk that is too large. */
  datatype Sending = AllSent | Enough(n: nat) | Oversized(at: nat)

  ghost predicate SentAll(w: World, d: Disk, e: Disk, id: string, exitAfter: nat, end: Sending, sent: nat)
    requires id in w.sources
  {
    var total := |PreparedChunks(w.codec, w.sources[id])|;
    match end
    case AllSent =>
      && sent == Missing(d, id, total) && (exitAfter > 0 ==> sent < exitAfter) && MissingFit(w, d, id, total)
      && forall i :: 0 <= i < total ==> i in ReceivedIndexes(e, id)
    case Enough(n) => n <= total && sent == Missing(d, id, n) == exitAfter > 0 && MissingFit(w, d, id, n)
    case Oversized(i) =>
      && i < total && sent == Missing(d, id, i) && (exitAfter > 0 ==> sent < exitAfter)
      && i !in ReceivedIndexes(d, id) && !PutFits(w, id, i)
  }

  /** What the client was told: the chunks that the server has, with their digests. */
  ghost predicate KnowsReceived(w: World, d: Disk, id: string, received: map<nat, string>)
    requires id in w.sources
  {
    && received.Keys == ReceivedIndexes(d, id)
    && forall i :: i in received ==>
         i < |PreparedChunks(w.codec, w.sources[id])| && received[i] == PreparedChunks(w.codec, w.sources[id])[i].sha256
  }

  lemma AnswerKnown(w: World, s: State, id: string)
    requires w.Sound() && Reachable(w, s) && id in w.sources
    ensures KnowsReceived(w, s.disk, id, ReceivedMap(SessionRecords(s.disk, id)))
  {
    hide Reachable, PreparedChunks, SessionRecords, ReceivedMap, SessionText, ReadRecords, IsWord;
    StatusIsProper(w, s, id);
  }

  lemma ReceivedKnown(w: World, d: Disk, id: string, received: map<nat, string>, i: nat)
    requires id in w.sources && KnowsReceived(w, d, id, received)
    ensures i in received <==> i in ReceivedIndexes(d, id)
    ensures i in received ==>
      i < |PreparedChunks(w.codec, w.sources[id])| && received[i] == PreparedChunks(w.codec, w.sources[id])[i].sha256
  {
    hide PreparedChunks, ReceivedIndexes;
  }

  /** Of the chunks below `n` the server now has all, `sent` of them since `s`. */
  ghost predicate SentBelow(s: State, t: State, id: string, n: nat, sent: nat) {
    && GotMore(s, t, id, sent)
    && forall k: nat :: k in ReceivedIndexes(t.disk, id) <==> k < n || k in ReceivedIndexes(s.disk, id)
  }

  lemma NothingSent(w: World, s: State, id: string)
    requires id in w.sources
    ensures Missing(s.disk, id, 0) == 0 && MissingFit(w, s.disk, id, 0) && SentBelow(s, s, id, 0, 0)
  {
    hide ReceivedIndexes;
    assert FirstChunks(0) - ReceivedIndexes(s.disk, id) == {};
  }

  lemma MissingFitNext(w: World, d: Disk, id: string, n: nat)
    requires id in w.sources && n < |PreparedChunks(w.codec, w.sources[id])| && MissingFit(w, d, id, n)
    ensures n in ReceivedIndexes(d, id) || PutFits(w, id, n) ==> MissingFit(w, d, id, n + 1)
  {
    hide ReceivedIndexes, PutFits, PreparedChunks;
  }

  lemma SentSkips(s: State, t: State, p: Put, sent: nat)
    requires SentBelow(s, t, p.sessionId, p.index, sent) && p.index in ReceivedIndexes(s.disk, p.sessionId)
    ensures SentBelow(s, t, p.sessionId, p.index + 1, sent)
  {
    hide ReceivedIndexes, GotMore;
  }

  lemma SentOneMore(s: State, t: State, u: State, p: Put, sent: nat)
    requires SentBelow(s, t, p.sessionId, p.index, sent) && p.index !in ReceivedIndexes(s.disk, p.sessionId)
    requires Progress(t, u, p)
    ensures SentBelow(s, u, p.sessionId, p.index + 1, sent + 1)
  {
    hide ReceivedIndexes, GotMore, SessionText;
    GotOneMore(s, t, u, p, sent);
  }

  lemma SentSoFar(s: State, t: State, id: string, n: nat, sent: nat)
    requires SentBelow(s, t, id, n, sent)
    ensures GotMore(s, t, id, sent) && forall i :: 0 <= i < n ==> i in ReceivedIndexes(t.disk, id)
  {
    hide ReceivedIndexes, GotMore;
  }

  lemma NotAsked(w: World, d: Disk, id: string, exitAfter: nat)
    requires id in w.sources && !CanAsk(d, id)
    ensures !Stops(w, d, id, exitAfter) && !Completes(w, d, id)
  {
    hide CanAsk, PreparedChunks;
  }

  lemma EndsAsPredicted(w: World, d: Disk, e: Disk, id: string, exitAfter: nat, end: Sending, sent: nat)
    requires id in w.sources && CanAsk(d, id) && SentAll(w, d, e, id, exitAfter, end, sent)
    ensures end.Enough? <==> Stops(w, d, id, exitAfter)
    ensures end.Enough? ==> sent == exitAfter
    ensures end.Oversized? ==> !Completes(w, d, id)
    ensures end.AllSent? ==>
      && (Completes(w, d, id) <==> CommitSize(id, |PreparedChunks(w.codec, w.sources[id])|) <= PacketCodec.MAX_PAYLOAD)
      && forall i :: 0 <= i < |PreparedChunks(w.codec, w.sources[id])| ==> i in ReceivedIndexes(e, id)
  {
    hide CanAsk, PreparedChunks, Missing, PutFits, ReceivedIndexes, CommitSize;
    var total := |PreparedChunks(w.codec, w.sources[id])|;
    if !end.Enough? {
      var last := if end.AllSent? then total else end.at;
      forall n | 0 <= n <= total && Missing(d, id, n) == exitAfter && MissingFit(w, d, id, n)
        ensures exitAfter == 0
      {
        if n <= last {
          MissingGrows(d, id, n, last);
        }
      }
    }
  }

  /** What one acknowledged chunk changes. */
  ghost predicate Progress(s: State, t: State, p: Put) {
    && ReceivedIndexes(t.disk, p.sessionId) == ReceivedIndexes(s.disk, p.sessionId) + {p.index}
    && t.snaps == s.snaps && t.disk.markers == s.disk.markers && t.disk.manifests == s.disk.manifests
    && (forall id :: id != p.sessionId ==> SessionText(t.disk, id) == SessionText(s.disk, id))
  }

  lemma MadeProgress(w: World, s: State, p: Put)
    requires Sends(w, p) && w.Sound() && Inv(w, s)
    ensures Progress(s, ChunkAppended(w, ChunkPut(w, s, p), p), p)
    ensures ChunkAppended(w, ChunkPut(w, s, p), p).job == s.job
  {
    hide Inv, ReceivedIndexes, PreparedChunks, SessionText;
    PutReceived(w, s, p);
  }

  /** The session has `sent` more chunks than before, and nothing else that anyone sees has changed. */
  ghost predicate GotMore(s: State, t: State, id: string, sent: nat) {
    && ReceivedIndexes(s.disk, id) <= ReceivedIndexes(t.disk, id)
    && |ReceivedIndexes(t.disk, id)| == |ReceivedIndexes(s.disk, id)| + sent
    && t.snaps == s.snaps && t.disk.markers == s.disk.markers && t.disk.manifests == s.disk.manifests
    && (forall other :: other != id ==> SessionText(t.disk, other) == SessionText(s.disk, other))
  }

  lemma GotNothing(s: State, id: string)
    ensures GotMore(s, s, id, 0)
  {
  }

  lemma GotOneMore(s: State, t: State, u: State, p: Put, sent: nat)
    requires GotMore(s, t, p.sessionId, sent) && Progress(t, u, p) && p.index !in ReceivedIndexes(t.disk, p.sessionId)
    ensures GotMore(s, u, p.sessionId, sent + 1)
  {
    hide ReceivedIndexes, SessionText;
  }

  /** A completed upload: a new version that records the source as a local fixed-size backup does. */
  ghost predicate Uploaded(w: World, s: State, t: State, id: string, answer: string, now: nat)
    requires id in w.sources
  {
    var v := NextVersion(s.disk);
    && answer == "committed_version " + Decimal(v) + "\n"
    && t.disk.markers == s.disk.markers + {v} && t.snaps == s.snaps[v := w.sources[id]]
    && v in t.disk.manifests && SessionRecorded(w.codec, w.sources[id], id, t.disk.manifests[v], v, now)
    && t.disk.manifests == s.disk.manifests[v := t.disk.manifests[v]]
    && (forall other :: other != id ==> SessionText(t.disk, other) == SessionText(s.disk, other))
  }

  lemma UploadedAfter(w: World, s: State, t: State, u: State, id: string, v: nat, sent: nat, now: nat)
    requires id in w.sources && GotMore(s, t, id, sent) && SessionCommitted(w, t, u, id, v, now)
    ensures Uploaded(w, s, u, id, "committed_version " + Decimal(v) + "\n", now)
  {
    hide ReceivedIndexes, NextVersion, Decimal, SessionRecorded, LineText;
    NextVersionFrame(s.disk, t.disk);
    forall other | other != id
      ensures SessionText(u.disk, other) == SessionText(t.disk, other)
    {
    }
  }
}
