/** The packet handlers of the backup server. Each works on the repository as one program. */
module Server {
  import opened Wrappers
  import opened Slices
  import opened Bytes
  import opened Text
  import opened Sorting
  import opened Paths
  import opened Manifest
  import opened Chunkers
  import opened ObjectStore
  import opened Snapshot
  import opened SessionIndex
  import opened Upload
  import opened Checkpoint
  import opened Disk
  import opened Protocol
  import opened Safety
  import opened Guarantees
  import opened Steps
  import opened Payloads
  import opened Repository
  import opened PacketCodec
  import WalLog

  // Packet types.
  const HELLO: nat := 1
  const QUERY_SESSION: nat := 2
  const SESSION_STATUS: nat := 3
  const PUT_CHUNK: nat := 4
  const PUT_CHUNK_ACK: nat := 5
  const COMMIT_SESSION: nat := 6
  const COMMIT_ACK: nat := 7
  const ERROR: nat := 8

  /**
   * What is sent back: a packet type and a text. The wording of errors is not modelled. An exception that is
   * not a `DpcError` leaves the worker thread, which ends the server process before anything is sent.
   */
  datatype Reply = Reply(kind: nat, text: string) | Terminated

  const FAILED: Reply := Reply(ERROR, "")

  function Answer(t: Trouble): Reply {
    if t == Malformed then FAILED else Terminated
  }
  const STORED: Reply := Reply(PUT_CHUNK_ACK, "ok\n")

  // PUT_CHUNK.

  /** No `std::vector` of bytes has room for so many; asking for one throws `std::length_error`. */
  const VECTOR_LIMIT: nat := 0x8000_0000_0000_0000

  /** `Compressor::decompress` with an expected size; zero stands for an unknown one. */
  function Decompress(c: Codec, compressed: Bytes, rawSize: nat): Result<Bytes, Trouble> {
    if rawSize >= VECTOR_LIMIT then Err(Uncaught)
    else
      var raw := c.decompress(compressed);
      if raw.None? || (rawSize != 0 && |raw.value| != rawSize) then Err(Malformed) else Ok(raw.value)
  }

  function RecordFor(packet: Packet, put: PutPayload, stored: PutResult): SessionIndex.Received {
    SessionIndex.Received(packet.chunkIndex, stored.sha256, put.relativePath, put.fileSize, put.fileMode, put.fileSha256,
             put.chunkIndex, put.rawSize, stored.compressedSize, stored.objectPath)
  }

  /** The object that a put request stores, if it is accepted so far. */
  function Accepted(c: Codec, objects: Objects, packet: Packet): Result<(PutPayload, PutResult), Trouble> {
    var put :- ParsePut(packet.payload);
    var raw :- Decompress(c, put.compressed, put.rawSize);
    if c.hash(raw) != HexEncode(AsText(packet.sha)) then Err(Malformed)
    else
      var stored := PutCompressed(c, objects, c.hash(raw), put.compressed, put.rawSize);
      if stored.None? then Err(Malformed) else Ok((put, stored.value))
  }

  function WithStored(d: Disk, put: PutPayload, stored: PutResult): Disk {
    if stored.inserted then d.(objects := d.objects[stored.sha256 := put.compressed]) else d
  }

  /** The repository after a put request, whatever it contains, and the reply. */
  function PutOutcome(c: Codec, d: Disk, packet: Packet): (Disk, Reply) {
    var accepted := Accepted(c, d.objects, packet);
    if accepted.Err? then (d, Answer(accepted.error))
    else
      var (put, stored) := accepted.value;
      var after := WithStored(d, put, stored);
      var text, record := SessionText(d, put.sessionId), RecordFor(packet, put, stored);
      var records := ReadRecords(text);
      if records.None? || Append(records.value, record).Err? then (after, FAILED)
      else (after.(sessions := d.sessions[put.sessionId := Appended(text, record)]), STORED)
  }

  /**
   * A put request ends the server exactly when the first field that cannot be read is a number field without
   * a number, or when all is read and the raw size is no possible size of a vector. Nothing has been written then.
   */
  lemma PutTerminatesIff(c: Codec, d: Disk, packet: Packet)
    ensures PutOutcome(c, d, packet).1 == Terminated <==>
      || PutStopsAtNumber(packet.payload)
      || (ParsePut(packet.payload).Ok? && ParsePut(packet.payload).value.rawSize >= 0x8000_0000_0000_0000)
    ensures PutOutcome(c, d, packet).1 == Terminated ==> PutOutcome(c, d, packet).0 == d
  {
    hide ParsePut, PutCompressed, ReadRecords, HexEncode, AsText, WithStored, RecordFor, Append, Appended, SessionText,
         PutStopsAtNumber;
    PutUncaughtIff(packet.payload);
  }

  /** The packet that the client sends for a chunk. */
  function PutRequest(sessionId: string, p: PreparedChunk): PutPayload {
    PutPayload(sessionId, p.relativePath, p.fileSize, p.fileMode, p.fileSha256, p.chunkIndex, |p.raw|, p.compressed)
  }

  /** The 32 bytes of a digest; `shaArrayFromHex`. */
  function ShaBytes(sha: string): Bytes {
    var decoded := HexDecode(sha);
    if decoded.Some? then AsBytes(decoded.value) else []
  }

  function PutPacket(sessionHash: nat, sessionId: string, p: PreparedChunk): Packet {
    Packet(PUT_CHUNK, sessionHash, p.globalIndex, ShaBytes(p.sha256), MakePut(PutRequest(sessionId, p)))
  }

  /** Digests are printed in lower case, so they survive the binary header field. */
  ghost predicate Lowercase(c: Codec) {
    forall x :: HexEncode(AsText(ShaBytes(c.hash(x)))) == c.hash(x)
  }

  lemma RequestIsProper(w: World, p: Put)
    requires w.Sound() && Sends(w, p)
    ensures var put := PutRequest(p.sessionId, Sent(w, p));
            Proper(put) && Octets(put.fileSha256) && put.sessionId != "" && put.relativePath != ""
  {
    hide PiecesOf, PreparedChunks, ObjectPath, Octets, IsWord, Safe;
    var c, src := w.codec, w.sources[p.sessionId];
    assert w.SoundSession(p.sessionId);
    PreparedAt(c, src, p.index);
    var chunk := Sent(w, p);
    var f, k: nat :| f in src && PieceOfFile(c, f, k, chunk);
    assert ValidFile(c, f);
    var piece := PiecesOf(Fixed, f.content)[k];
    assert piece in PiecesOf(Fixed, f.content);
    DigestIsWord(c.hash(f.content));
    HexIsOctets(c.hash(f.content));
    ValidFileHasPath(c, f);
    FewPieces(Fixed, f.content);
  }

  lemma ChunkIsConsistent(w: World, p: Put)
    requires w.Sound() && Sends(w, p)
    ensures var chunk := Sent(w, p);
            && chunk.sha256 == w.codec.hash(chunk.raw) && chunk.compressed == w.codec.compress(chunk.raw)
            && w.codec.inPlay(chunk.raw) && chunk.globalIndex == p.index && |chunk.raw| <= DEFAULT_CHUNK_SIZE
  {
    hide PiecesOf, PreparedChunks, ObjectPath, Octets, IsWord, Safe;
    RecordReadable(w, p.sessionId, p.index);
    PreparedAt(w.codec, w.sources[p.sessionId], p.index);
    PreparedIsSmall(w.codec, w.sources[p.sessionId], p.index);
  }

  /** The client's own request is accepted, and does just the two steps of the protocol. */
  lemma HonestPut(w: World, s: State, p: Put, sessionHash: nat)
    requires Sends(w, p) && w.Sound() && Lowercase(w.codec) && Inv(w, s)
    ensures PutOutcome(w.codec, s.disk, PutPacket(sessionHash, p.sessionId, Sent(w, p)))
         == (ChunkAppended(w, ChunkPut(w, s, p), p).disk, STORED)
  {
    hide VersionsOk, PutsOk, LogHolds, CheckpointOk, MarkersOk, DebrisOk, EntriesOk, JobOk, Listed, ValidObjects,
         ReadRecords, PreparedChunks, ParsePut, MakePut, AsText, AsBytes, HexEncode, HexDecode, ShaBytes, PutCompressed,
         IndexOk, ObjectPath, SessionText, Appended, AllRecords;
    var c, chunk, d := w.codec, Sent(w, p), s.disk;
    var packet := PutPacket(sessionHash, p.sessionId, chunk);
    RequestIsProper(w, p);
    ChunkIsConsistent(w, p);
    PutSurvivesIff(PutRequest(p.sessionId, chunk));
    PutSucceeds(c, d.objects, chunk.raw);
    assert HexEncode(AsText(ShaBytes(c.hash(chunk.raw)))) == c.hash(chunk.raw);
    assert Accepted(c, d.objects, packet).Ok?;
    var stored := Accepted(c, d.objects, packet).value.1;
    assert RecordFor(packet, PutRequest(p.sessionId, chunk), stored) == RecordOf(chunk);
    SessionTextOk(w, d.objects, d, p.sessionId);
    IndexReads(c, w.sources[p.sessionId], d.objects, SessionText(d, p.sessionId));
    AllRecordsAt(c, w.sources[p.sessionId], p.index);
    HonestAppend(c, w.sources[p.sessionId], ReadRecords(SessionText(d, p.sessionId)).value, p.index);
    SameText(s.disk, ChunkPut(w, s, p).disk, p.sessionId);
  }

  lemma HonestStore(w: World, s: State, p: Put, sessionHash: nat)
    requires Sends(w, p) && w.Sound() && Lowercase(w.codec) && Inv(w, s)
    ensures var accepted := Accepted(w.codec, s.disk.objects, PutPacket(sessionHash, p.sessionId, Sent(w, p)));
            && accepted.Ok?
            && ChunkPut(w, s, p).disk == WithStored(s.disk, accepted.value.0, accepted.value.1)
  {
    hide VersionsOk, PutsOk, LogHolds, CheckpointOk, MarkersOk, DebrisOk, EntriesOk, JobOk, Listed, ValidObjects, SessionsOk,
         PreparedChunks, ParsePut, MakePut, AsText, AsBytes, HexEncode, HexDecode, ShaBytes, PutCompressed, ObjectPath;
    var c, chunk := w.codec, Sent(w, p);
    RequestIsProper(w, p);
    ChunkIsConsistent(w, p);
    PutSurvivesIff(PutRequest(p.sessionId, chunk));
    PutSucceeds(c, s.disk.objects, chunk.raw);
    assert HexEncode(AsText(ShaBytes(c.hash(chunk.raw)))) == c.hash(chunk.raw);
  }

  lemma SameText(d: Disk, e: Disk, id: string)
    requires d.sessions == e.sessions
    ensures SessionText(d, id) == SessionText(e, id)
  {
  }

  lemma {:induction false} ReceivedIsSomeRecord(records: seq<SessionIndex.Received>, index: nat)
    requires index in ReceivedMap(records)
    ensures exists r :: r in records && r.globalIndex == index && r.sha256 == ReceivedMap(records)[index]
    decreases |records|
  {
    var init, last := records[..|records| - 1], records[|records| - 1];
    assert records == init + [last];
    if last.globalIndex == index {
      assert last in records;
    } else {
      ReceivedIsSomeRecord(init, index);
    }
  }

  /** Records of an honest session never disagree about a chunk. */
  lemma HonestAppend(c: Codec, src: Source, records: seq<SessionIndex.Received>, i: nat)
    requires Honest(c, src, records) && i < |AllRecords(c, src)|
    requires AllRecords(c, src)[i].globalIndex == i
    ensures Append(records, AllRecords(c, src)[i]).Ok?
  {
    hide AllRecords;
    if i in ReceivedMap(records) {
      ReceivedIsSomeRecord(records, i);
    }
  }

  // QUERY_SESSION.

  /** The chunks of a session in ascending order of index, as the server's map lists them. */
  ghost function StatusPairs(received: map<nat, string>): (pairs: seq<(nat, string)>)
    ensures |pairs| == |Ascending(received.Keys)|
  {
    var keys := Ascending(received.Keys);
    assert forall i :: 0 <= i < |keys| ==> keys[i] in keys;
    seq(|keys|, i requires 0 <= i < |keys| => (keys[i], received[keys[i]]))
  }

  ghost function QueryOutcome(d: Disk, payload: Bytes): (r: Reply)
    ensures r.Reply?
  {
    var id := ParseQuery(payload);
    if id.Err? then FAILED
    else
      var records := ReadRecords(SessionText(d, id.value));
      if records.None? then FAILED
      else
        var text := MakeStatus(StatusPairs(ReceivedMap(records.value)));
        if |text| > PacketCodec.MAX_PAYLOAD then FAILED else Reply(SESSION_STATUS, text)
  }

  method SortedKeys(m: map<nat, string>) returns (keys: seq<nat>)
    ensures keys == Ascending(m.Keys)
  {
    var left := m.Keys;
    var found: seq<nat> := [];
    while left != {}
      invariant left <= m.Keys && Distinct(found)
      invariant forall k: nat :: k in m.Keys <==> k in found || k in left
      invariant forall k: nat :: k in found ==> k !in left
      decreases |left|
    {
      var k :| k in left;
      left := left - {k};
      found := found + [k];
    }
    NatOrder();
    SortCorrect(found, LessNat);
    SortedUnique(Sort(found, LessNat), Ascending(m.Keys), LessNat);
    return Sort(found, LessNat);
  }

  method StatusText(received: map<nat, string>) returns (text: string)
    ensures text == MakeStatus(StatusPairs(received))
  {
    hide Ascending, Decimal;
    ghost var pairs := StatusPairs(received);
    var keys := SortedKeys(received);
    var lines := "";
    for i := 0 to |keys|
      invariant lines + StatusLines(pairs[i..]) == StatusLines(pairs)
    {
      assert keys[i] in keys && pairs[i] == (keys[i], received[keys[i]]);
      assert pairs[i..][1..] == pairs[i + 1..];
      var line := Decimal(keys[i]) + " " + received[keys[i]] + "\n";
      ConcatAssociates(lines, line, StatusLines(pairs[i + 1..]));
      lines := lines + line;
    }
    assert lines + "" == lines;
    return STATUS_HEADER + "\n" + lines;
  }

  lemma {:induction false} StatusMapAt(pairs: seq<(nat, string)>, before: map<nat, string>, k: nat)
    requires forall i, j :: 0 <= i < j < |pairs| ==> pairs[i].0 != pairs[j].0
    ensures var m := StatusMap(pairs, before);
            && (k in m <==> k in before || exists i :: 0 <= i < |pairs| && pairs[i].0 == k)
            && (forall i :: 0 <= i < |pairs| && pairs[i].0 == k ==> m[k] == pairs[i].1)
            && (k in before && (forall i :: 0 <= i < |pairs| ==> pairs[i].0 != k) ==> m[k] == before[k])
    decreases |pairs|
  {
    if pairs != [] {
      var rest, after := pairs[1..], before[pairs[0].0 := pairs[0].1];
      StatusMapAt(rest, after, k);
      assert forall i :: 0 <= i < |rest| ==> rest[i] == pairs[i + 1];
      assert forall i :: 0 < i < |pairs| ==> pairs[i] == rest[i - 1];
    }
  }

  /** The client's map of received chunks is the server's. */
  lemma StatusSurvives(received: map<nat, string>)
    requires forall k :: k in received ==> k < U64 && IsWord(received[k])
    ensures ParseStatus(MakeStatus(StatusPairs(received))) == Some(received)
  {
    hide ParseStatus, MakeStatus, IsWord, Ascending;
    var pairs, keys := StatusPairs(received), Ascending(received.Keys);
    forall i | 0 <= i < |pairs|
      ensures pairs[i] == (keys[i], received[keys[i]]) && keys[i] in received
    {
      assert keys[i] in keys;
    }
    StatusReadsBack(pairs);
    var m := StatusMap(pairs, map[]);
    forall i, j | 0 <= i < j < |pairs|
      ensures pairs[i].0 != pairs[j].0
    {
      assert LessNat(keys[i], keys[j]);
    }
    forall k: nat
      ensures k in m <==> k in received
      ensures k in received ==> m[k] == received[k]
    {
      StatusMapAt(pairs, map[], k);
      assert k in keys <==> k in received.Keys;
      if k in received {
        var i :| 0 <= i < |keys| && keys[i] == k;
        assert pairs[i].0 == k;
      }
    }
    assert m == received;
  }

  class BackupServer {
    const repo: Repository

    constructor (repo: Repository)
      ensures this.repo == repo
    {
      this.repo := repo;
    }

    method HandleQuery(payload: Bytes) returns (reply: Reply)
      ensures reply == QueryOutcome(repo.disk, payload)
    {
      hide ReadRecords, ParseQuery, MakeStatus;
      var id := ParseQuery(payload);
      if id.Err? {
        return FAILED;
      }
      var index := new Index.Open(id.value, SessionText(repo.disk, id.value), []);
      var received := index.QueryReceived();
      if received.None? {
        return FAILED;
      }
      var text := StatusText(received.value);
      if |text| > PacketCodec.MAX_PAYLOAD {
        return FAILED;
      }
      return Reply(SESSION_STATUS, text);
    }

    /** A put request of any content; when it is a client's own, the repository does the steps of the protocol. */
    method HandlePut(packet: Packet, ghost sender: Option<Put>) returns (reply: Reply)
      requires sender.Some? ==> IsSender(sender.value, packet)
      modifies repo
      ensures (repo.disk, reply) == PutOutcome(repo.world.codec, old(repo.disk), packet)
      ensures sender.Some? ==>
        && repo.Valid() && old(repo.trace) <= repo.trace && reply == STORED
        && repo.Now() == ChunkAppended(repo.world, ChunkPut(repo.world, old(repo.Now()), sender.value), sender.value)
    {
      hide ReadRecords, Step, RunTo, Inv, PreparedChunks, PutPacket, Appended, RecordFor, Append, SessionText, RecordOf, WithObject,
           Accepted, WithStored;
      ghost var before := if sender.Some? then repo.Now() else INITIAL;
      if sender.Some? {
        repo.InvNow();
        HonestPut(repo.world, before, sender.value, packet.sessionHash);
        HonestStore(repo.world, before, sender.value, packet.sessionHash);
      }
      var accepted := StoreChunk(packet, sender);
      if accepted.Err? {
        return Answer(accepted.error);
      }
      var (put, stored) := accepted.value;
      StoringKeepsSessions(old(repo.disk), put, stored);
      if sender.Some? {
        StepPut(repo.world, repo.Now(), sender.value);
      }
      reply := AppendToIndex(put.sessionId, RecordFor(packet, put, stored));
      if sender.Some? {
        repo.Advance(ChunkAppended(repo.world, ChunkPut(repo.world, before, sender.value), sender.value));
      }
    }

    ghost predicate IsSender(p: Put, packet: Packet)
      reads repo
    {
      && Sends(repo.world, p) && Lowercase(repo.world.codec) && repo.Valid()
      && packet == PutPacket(packet.sessionHash, p.sessionId, Sent(repo.world, p))
    }

    method StoreChunk(packet: Packet, ghost sender: Option<Put>) returns (accepted: Result<(PutPayload, PutResult), Trouble>)
      requires sender.Some? ==> IsSender(sender.value, packet)
      modifies repo
      ensures accepted == Accepted(repo.world.codec, old(repo.disk).objects, packet)
      ensures repo.disk == if accepted.Err? then old(repo.disk) else WithStored(old(repo.disk), accepted.value.0, accepted.value.1)
      ensures sender.Some? ==>
        && accepted.Ok? && repo.Valid() && old(repo.trace) <= repo.trace
        && repo.Now() == ChunkPut(repo.world, old(repo.Now()), sender.value)
    {
      hide Step, RunTo, Inv, PreparedChunks, PutPacket, Accepted, ChunkPut;
      ghost var before := if sender.Some? then repo.Now() else INITIAL;
      if sender.Some? {
        repo.InvNow();
        HonestStore(repo.world, before, sender.value, packet.sessionHash);
        StepPut(repo.world, before, sender.value);
      }
      accepted := Check(packet);
      if accepted.Err? {
        return;
      }
      var (put, stored) := accepted.value;
      if stored.inserted {
        repo.disk := repo.disk.(objects := repo.disk.objects[stored.sha256 := put.compressed]);
      }
      if sender.Some? {
        repo.Advance(ChunkPut(repo.world, before, sender.value));
      }
    }

    /** The checks of a put request, in order, up to the lookup of the object. */
    method Check(packet: Packet) returns (accepted: Result<(PutPayload, PutResult), Trouble>)
      ensures accepted == Accepted(repo.world.codec, repo.disk.objects, packet)
    {
      hide ParsePut, PutCompressed, Decompress, HexEncode, AsText;
      var c := repo.world.codec;
      var parsed := ParsePutPayload(packet.payload);
      if parsed.Err? {
        return Err(parsed.error);
      }
      var put := parsed.value;
      var raw := Decompress(c, put.compressed, put.rawSize);
      if raw.Err? {
        return Err(raw.error);
      }
      var sha := c.hash(raw.value);
      var headerSha := HexEncodeString(AsText(packet.sha));
      if sha != headerSha {
        return Err(Malformed);
      }
      var stored := PutCompressed(c, repo.disk.objects, sha, put.compressed, put.rawSize);
      if stored.None? {
        return Err(Malformed);
      }
      return Ok((put, stored.value));
    }

    method AppendToIndex(sessionId: string, record: SessionIndex.Received) returns (reply: Reply)
      modifies repo`disk
      ensures var text, records := SessionText(old(repo.disk), sessionId), ReadRecords(SessionText(old(repo.disk), sessionId));
              if records.None? || Append(records.value, record).Err? then
                repo.disk == old(repo.disk) && reply == FAILED
              else
                repo.disk == old(repo.disk).(sessions := old(repo.disk).sessions[sessionId := Appended(text, record)])
                && reply == STORED
    {
      hide ReadRecords, LineText, ReceivedMap;
      var text := SessionText(repo.disk, sessionId);
      assert text + "" == text;
      var index := new Index.Open(sessionId, text, []);
      var appended := index.AppendChunk(record);
      if appended.Err? {
        return FAILED;
      }
      repo.disk := repo.disk.(sessions := repo.disk.sessions[sessionId := index.text]);
      return STORED;
    }

    // COMMIT_SESSION.

    /** A request to commit that can be read is one for a known session, with its number of chunks. */
    ghost predicate IsCommit(payload: Bytes) {
      var request := ParseCommit(payload);
      request.Ok? ==>
        request.value.0 in repo.world.sources
        && request.value.1 == |PreparedChunks(repo.world.codec, repo.world.sources[request.value.0])|
    }

    method HandleCommit(payload: Bytes, now: nat, pid: nat, ticks: nat) returns (reply: Reply)
      requires repo.Resting() && now < U64 && IsCommit(payload)
      modifies repo
      ensures repo.Resting() && old(repo.trace) <= repo.trace
      ensures CommitAnswered(repo.world, old(repo.Now()), repo.Now(), payload, reply, now)
    {
      hide Step, RunTo, PreparedChunks, ParseCommit, SessionComplete, SessionCommitted, NextVersion, Decimal,
           CommitStopsAtNumber;
      var request := ParseCommit(payload);
      CommitUncaughtIff(payload);
      if request.Err? {
        if request.error == Uncaught {
          StepCrash(repo.world, repo.Now());
          repo.Advance(repo.Now().(job := Idle, puts := {}));
        }
        return Answer(request.error);
      }
      reply := CommitSession(request.value.0, request.value.1, now, pid, ticks);
    }

    method CommitSession(id: string, total: nat, now: nat, pid: nat, ticks: nat) returns (reply: Reply)
      requires repo.Resting() && now < U64 && id in repo.world.sources
      requires total == |PreparedChunks(repo.world.codec, repo.world.sources[id])|
      modifies repo
      ensures repo.Resting() && old(repo.trace) <= repo.trace
      ensures var v := NextVersion(old(repo.disk));
              if SessionComplete(repo.world, old(repo.disk), id) then
                reply == Reply(COMMIT_ACK, "committed_version " + Decimal(v) + "\n")
                && SessionCommitted(repo.world, old(repo.Now()), repo.Now(), id, v, now)
              else
                && reply == FAILED && repo.disk == old(repo.disk).(wal := repo.disk.wal)
                && repo.Now().entries == old(repo.Now()).entries + [BeginNetworkBackup(v)]
    {
      hide Step, RunTo, Inv, PreparedChunks, SessionManifest, SessionComplete, SessionCommitted, NextVersion,
           WalLog.Encode, ToRecord, SessionText, Serialize, DebrisOk, Decimal, SessionRecorded, SessionMarked, CommittedTo;
      ghost var before := repo.Now();
      var version, m := BuildSession(id, total, now);
      ghost var begun := repo.Now();
      if m.None? {
        repo.Stop();
        return FAILED;
      }
      StageSessionManifest(id, m.value, pid, ticks);
      ghost var staged := repo.Now();
      var fault := repo.CommitStaged(version, pid, ticks, None);
      CommittedParts(repo.world, before, begun, staged, repo.Now(), id, m.value);
      MarkSession(id, version);
      return Reply(COMMIT_ACK, "committed_version " + Decimal(version) + "\n");
    }

    /** Allocates a version and builds its manifest, which can be done when all chunks are there. */
    method BuildSession(id: string, total: nat, now: nat) returns (version: nat, m: Option<Manifest>)
      requires repo.Resting() && now < U64 && id in repo.world.sources
      requires total == |PreparedChunks(repo.world.codec, repo.world.sources[id])|
      modifies repo
      ensures repo.Valid() && old(repo.trace) <= repo.trace && version == NextVersion(old(repo.disk))
      ensures repo.Now() == Logged(old(repo.Now()), BeginNetworkBackup(version)).(job := Building(version, id, now))
      ensures m == SessionManifest(repo.world, repo.disk, repo.Now().job)
      ensures m.Some? <==> SessionComplete(repo.world, old(repo.disk), id)
      ensures m.Some? ==>
        m.value.version == version && SessionRecorded(repo.world.codec, repo.world.sources[id], id, Serialize(m.value), version, now)
    {
      hide Step, RunTo, Inv, PreparedChunks, SessionManifest, SessionComplete, NextVersion, WalLog.Encode, ToRecord, SessionText,
           Serialize, SessionRecorded, BuildManifest, ReadRecords;
      ghost var before := repo.Now();
      version := BeginSession(id, now);
      var index := new Index.Open(id, SessionText(repo.disk, id), []);
      m := index.Build(version, total, now);
      BuiltForSession(repo.world, repo.disk, repo.Now().job, m);
      CompleteIff(repo.world, before, repo.Now());
    }

    method BeginSession(id: string, ghost now: nat) returns (version: nat)
      requires repo.Resting() && now < U64 && id in repo.world.sources
      modifies repo
      ensures repo.Valid() && old(repo.trace) <= repo.trace && version == NextVersion(old(repo.disk))
      ensures repo.Now() == Logged(old(repo.Now()), BeginNetworkBackup(version)).(job := Building(version, id, now))
    {
      hide Step, RunTo, Inv, NextVersion, WalLog.Encode, ToRecord, DebrisOk;
      repo.InvNow();
      repo.DebrisNow();
      version := FreeVersion(repo.disk);
      NextVersionIsNew(repo.disk);
      StepBeginSession(repo.world, repo.Now(), id, now);
      repo.WriteLog(BeginNetworkBackup(version));
      repo.Advance(Logged(repo.Now(), BeginNetworkBackup(version)).(job := Building(version, id, now)));
    }

    method StageSessionManifest(id: string, m: Manifest, pid: nat, ticks: nat)
      requires repo.Valid() && repo.Now().job.Building? && id == repo.Now().job.sessionId && id in repo.world.sources
      requires SessionManifest(repo.world, repo.disk, repo.Now().job) == Some(m)
      modifies repo
      ensures repo.Valid() && old(repo.trace) <= repo.trace
      ensures exists temp :: repo.Now() == ManifestStaged(old(repo.Now()), m, repo.world.sources[id], Some(id), temp)
    {
      hide Step, RunTo, SessionManifest, ManifestStaged;
      var temp := TempName(VersionFileName(m.version, STAGED), pid, ticks);
      ghost var t := repo.Now().(disk := repo.disk.(tmpDebris := repo.disk.tmpDebris + {temp}));
      SessionManifestFrame(repo.world, repo.disk, t.disk, t.job);
      StepStageSession(repo.world, t, temp);
      repo.StageManifest(m, temp, repo.world.sources[id], Some(id));
    }

    method MarkSession(id: string, version: nat)
      requires repo.Valid() && InPhase(repo.Now().job, Checkpointed) && repo.Now().job.session == Some(id)
      requires version == repo.Now().job.version
      modifies repo
      ensures repo.Resting() && old(repo.trace) <= repo.trace && repo.Now() == SessionMarked(old(repo.Now()))
    {
      hide Step, RunTo, LineText;
      StepMarkSession(repo.world, repo.Now());
      var index := new Index.Open(id, SessionText(repo.disk, id), []);
      index.MarkCommitted(version);
      repo.disk := repo.disk.(sessions := repo.disk.sessions[id := index.text]);
      repo.Advance(SessionMarked(repo.Now()));
    }

    /**
     * `handlePacket`: one packet, one reply. Greetings and queries change nothing; a put has the outcome that
     * its contents have in any repository, and a client's own is the two steps of the protocol; a commit is
     * acknowledged exactly when the session is complete.
     */
    method HandlePacket(packet: Packet, ghost sender: Option<Put>, now: nat, pid: nat, ticks: nat) returns (reply: Reply)
      requires packet.kind == PUT_CHUNK && sender.Some? ==> IsSender(sender.value, packet)
      requires packet.kind == COMMIT_SESSION ==> repo.Resting() && now < U64 && IsCommit(packet.payload)
      modifies repo
      ensures packet.kind !in {PUT_CHUNK, COMMIT_SESSION} ==> unchanged(repo)
      ensures packet.kind == HELLO ==> reply == Reply(HELLO, "DPC_SERVER_V1\n")
      ensures packet.kind == QUERY_SESSION ==> reply == QueryOutcome(old(repo.disk), packet.payload)
      ensures packet.kind == PUT_CHUNK ==> (repo.disk, reply) == PutOutcome(repo.world.codec, old(repo.disk), packet)
      ensures packet.kind == PUT_CHUNK && sender.Some? ==>
        && repo.Valid() && old(repo.trace) <= repo.trace && reply == STORED
        && repo.Now() == ChunkAppended(repo.world, ChunkPut(repo.world, old(repo.Now()), sender.value), sender.value)
      ensures packet.kind == COMMIT_SESSION ==>
        && repo.Resting() && old(repo.trace) <= repo.trace
        && CommitAnswered(repo.world, old(repo.Now()), repo.Now(), packet.payload, reply, now)
      ensures packet.kind !in {HELLO, QUERY_SESSION, PUT_CHUNK, COMMIT_SESSION} ==> reply == FAILED
    {
      hide ReadRecords, RunTo, PutOutcome, QueryOutcome, PreparedChunks, CommitAnswered, ChunkPut, ChunkAppended;
      if packet.kind == HELLO {
        return Reply(HELLO, "DPC_SERVER_V1\n");
      }
      if packet.kind == QUERY_SESSION {
        reply := HandleQuery(packet.payload);
        return;
      }
      if packet.kind == PUT_CHUNK {
        reply := HandlePut(packet, sender);
        return;
      }
      if packet.kind == COMMIT_SESSION {
        reply := HandleCommit(packet.payload, now, pid, ticks);
        return;
      }
      return FAILED;
    }
  }

  /**
   * How a commit request is answered. If the session is complete, a version is committed and named; otherwise
   * only the log has grown. A request that cannot be read changes nothing on disk.
   */
  ghost predicate CommitAnswered(w: World, before: State, after: State, payload: Bytes, reply: Reply, now: nat) {
    var request, v := ParseCommit(payload), NextVersion(before.disk);
    if request.Err? then after.disk == before.disk && reply == if CommitStopsAtNumber(payload) then Terminated else FAILED
    else
      && request.value.0 in w.sources
      && if SessionComplete(w, before.disk, request.value.0) then
           reply == Reply(COMMIT_ACK, "committed_version " + Decimal(v) + "\n")
           && SessionCommitted(w, before, after, request.value.0, v, now)
         else
           && reply == FAILED && after.disk == before.disk.(wal := after.disk.wal)
           && after.entries == before.entries + [BeginNetworkBackup(v)]
  }

  /** What the commit of a session does: the version holds what a local fixed-size backup would record. */
  ghost predicate SessionCommitted(w: World, before: State, after: State, id: string, v: nat, now: nat)
    requires id in w.sources
  {
    var d, e := before.disk, after.disk;
    && v == NextVersion(d) && e.markers == d.markers + {v} && after.snaps == before.snaps[v := w.sources[id]]
    && v in e.manifests && SessionRecorded(w.codec, w.sources[id], id, e.manifests[v], v, now)
    && e.manifests == d.manifests[v := e.manifests[v]] && e.objects == d.objects
    && e.sessions == d.sessions[id := SessionText(d, id) + LineText(CommittedLine(v))]
    && after.entries == before.entries + ([BeginNetworkBackup(v)] + CommitEntries(v, None))
  }

  lemma CommittedParts(w: World, before: State, begun: State, staged: State, committed: State, id: string, m: Manifest)
    requires id in w.sources && begun.job.Building? && staged.job.Committing?
    requires m.version == NextVersion(before.disk) && begun == Logged(before, BeginNetworkBackup(m.version)).(job := begun.job)
    requires exists temp :: staged == ManifestStaged(begun, m, w.sources[id], Some(id), temp)
    requires CommittedTo(staged, committed, m.version)
    requires committed.job.Committing? && committed.job.session == Some(id) && committed.job.version == m.version
    requires SessionRecorded(w.codec, w.sources[id], id, Serialize(m), m.version, begun.job.now)
    ensures SessionCommitted(w, before, SessionMarked(committed), id, m.version, begun.job.now)
  {
    hide Serialize, NextVersion, SessionRecorded, LineText, WalLog.Encode, ToRecord, CheckpointNow;
  }

  /** All chunks of the session's source have been received. */
  ghost predicate SessionComplete(w: World, d: Disk, id: string)
    requires id in w.sources
  {
    var records := ReadRecords(SessionText(d, id));
    records.Some? && forall r :: r in AllRecords(w.codec, w.sources[id]) ==> r in records.value
  }

  /** A manifest text with the file list and the totals of a local fixed-size backup into an empty repository. */
  ghost predicate SessionRecorded(c: Codec, src: Source, id: string, text: string, v: nat, now: nat) {
    text == Serialize(SessionManifestOf(c, src, id, v, now))
  }

  lemma SessionManifestFrame(w: World, d: Disk, e: Disk, job: Job)
    requires job.Building? && job.sessionId in w.sources && d.sessions == e.sessions
    ensures SessionManifest(w, d, job) == SessionManifest(w, e, job)
  {
    hide ReadRecords, BuildManifest, PreparedChunks;
  }

  lemma BuiltForSession(w: World, d: Disk, job: Job, m: Option<Manifest>)
    requires job.Building? && job.sessionId in w.sources
    requires var records := ReadRecords(SessionText(d, job.sessionId));
             m == if records.Some?
                  then BuildManifest(records.value, job.sessionId, job.version, |PreparedChunks(w.codec, w.sources[job.sessionId])|, job.now)
                  else None
    ensures m == SessionManifest(w, d, job)
  {
    hide ReadRecords, BuildManifest, PreparedChunks;
  }

  lemma CompleteIff(w: World, s: State, begun: State)
    requires w.Sound() && Reachable(w, begun) && begun.job.Building? && begun.job.sessionId in w.sources
    requires begun.disk.sessions == s.disk.sessions
    ensures var id, m := begun.job.sessionId, SessionManifest(w, begun.disk, begun.job);
            && (m.Some? <==> SessionComplete(w, s.disk, id))
            && (m.Some? ==> m.value.version == begun.job.version
                            && SessionRecorded(w.codec, w.sources[id], id, Serialize(m.value), begun.job.version, begun.job.now))
  {
    hide Reachable, ReadRecords, BuildManifest, PreparedChunks, AllRecords, Entries, Serialize, Honest, ValidSource;
    var id := begun.job.sessionId;
    var src := w.sources[id];
    SessionsAreHonest(w, begun, id);
    assert w.SoundSession(id);
    SameText(begun.disk, s.disk, id);
    var records := ReadRecords(SessionText(begun.disk, id)).value;
    SessionMatchesLocal(w.codec, src, records, id, begun.job.version, begun.job.now);
    BuiltManifest(records, id, begun.job.version, |PreparedChunks(w.codec, src)|, begun.job.now);
  }

  lemma StoringKeepsSessions(d: Disk, put: PutPayload, stored: PutResult)
    ensures WithStored(d, put, stored).sessions == d.sessions
    ensures SessionText(WithStored(d, put, stored), put.sessionId) == SessionText(d, put.sessionId)
  {
  }
}
