/** How many chunks a session may have: exactly when an interrupted upload can always be taken up again. */
module ResumeLimit {
  import opened Wrappers
  import opened Bytes
  import opened Text
  import opened Sorting
  import opened Manifest
  import opened Chunkers
  import opened ObjectStore
  import opened Snapshot
  import opened SessionIndex
  import opened Upload
  import opened Disk
  import opened Protocol
  import opened Safety
  import opened Guarantees
  import opened Steps
  import opened Payloads
  import opened Server
  import opened PacketSizes
  import opened Client
  import opened Premises
  import PacketCodec

  /** The first `n` chunks of a session arrive, one after the other, and nothing else happens. */
  lemma {:induction false} ReceiveChunks(w: World, id: string, n: nat) returns (s: State)
    requires w.Sound() && id in w.sources && n <= |PreparedChunks(w.codec, w.sources[id])|
    ensures Reachable(w, s) && s.job.Idle? && ReceivedIndexes(s.disk, id) == FirstChunks(n)
    decreases n
  {
    hide Reachable, PreparedChunks, ReceivedIndexes, Step, Inv, ChunkPut, ChunkAppended;
    if n == 0 {
      s := INITIAL;
      InitialReachable(w);
      NothingReceived(id);
    } else {
      var before := ReceiveChunks(w, id, n - 1);
      var p := Put(id, n - 1);
      ReachableInv(w, before);
      MadeProgress(w, before, p);
      StepPut(w, before, p);
      ReachableStep(w, before, ChunkPut(w, before, p));
      ChunkIsPut(w, before, p);
      StepPut(w, ChunkPut(w, before, p), p);
      s := ChunkAppended(w, ChunkPut(w, before, p), p);
      ReachableStep(w, ChunkPut(w, before, p), s);
    }
  }

  lemma ChunkIsPut(w: World, s: State, p: Put)
    requires Sends(w, p)
    ensures p in ChunkPut(w, s, p).puts
  {
  }

  lemma NothingReceived(id: string)
    ensures ReceivedIndexes(EMPTY, id) == {}
  {
    assert ReadRecords("") == Some([]);
  }

  /**
   * The server can be asked about a session in every reachable state exactly when the source has at most
   * 118051 chunks: with one more, the answer to an upload of which all chunks but the commit have been sent is
   * too large for a packet.
   */
  lemma ResumableIff(w: World, id: string)
    requires w.Sound() && id in w.sources
    ensures (forall s :: Reachable(w, s) ==> QueryOutcome(s.disk, MakeQuery(id)).kind == SESSION_STATUS)
            <==> |PreparedChunks(w.codec, w.sources[id])| <= STATUS_CHUNKS
  {
    hide Reachable, PreparedChunks, ReceivedIndexes, QueryOutcome, MakeQuery, StatusFits, FirstChunks;
    if |PreparedChunks(w.codec, w.sources[id])| <= STATUS_CHUNKS {
      forall s | Reachable(w, s)
        ensures QueryOutcome(s.disk, MakeQuery(id)).kind == SESSION_STATUS
      {
        ReceivedBounded(w, s, id);
        StatusFitsBounds(ReceivedIndexes(s.disk, id));
        QueryAnsweredIff(w, s, id);
      }
    } else {
      var s := ReceiveChunks(w, id, STATUS_CHUNKS + 1);
      FirstChunksFitIff(STATUS_CHUNKS + 1);
      QueryAnsweredIff(w, s, id);
    }
  }

  /** What can be known of a source and a session id before anything is sent. */
  ghost predicate Uploadable(w: World, id: string)
    requires id in w.sources
  {
    var total := |PreparedChunks(w.codec, w.sources[id])|;
    && total <= STATUS_CHUNKS
    && QuerySize(id) <= PacketCodec.MAX_PAYLOAD && CommitSize(id, total) <= PacketCodec.MAX_PAYLOAD
    && forall k :: 0 <= k < total ==> PutFits(w, id, k)
  }

  /**
   * An upload that is not told to stop completes in every reachable state, whatever was received before,
   * exactly when the source is uploadable.
   */
  lemma AlwaysCompletesIff(w: World, id: string)
    requires w.Sound() && id in w.sources
    ensures (forall s :: Reachable(w, s) ==> Completes(w, s.disk, id)) <==> Uploadable(w, id)
  {
    hide Reachable, PreparedChunks, ReceivedIndexes, PutFits, CommitSize, StatusFits, FirstChunks;
    if Uploadable(w, id) {
      forall s | Reachable(w, s)
        ensures Completes(w, s.disk, id)
      {
        ReceivedBounded(w, s, id);
        StatusFitsBounds(ReceivedIndexes(s.disk, id));
      }
    } else {
      InitialReachable(w);
      NothingReceived(id);
      if |PreparedChunks(w.codec, w.sources[id])| > STATUS_CHUNKS {
        var s := ReceiveChunks(w, id, STATUS_CHUNKS + 1);
        FirstChunksFitIff(STATUS_CHUNKS + 1);
      }
    }
  }

  /**
   * The failing case: an upload that would have completed in one go, is stopped behind 118052 of its chunks,
   * and can then neither be completed nor stopped again.
   */
  lemma ResumeFails(total: nat) returns (w: World, s: State)
    requires STATUS_CHUNKS < total && total * DEFAULT_CHUNK_SIZE < U64
    ensures w.Sound() && Lowercase(w.codec) && "s" in w.sources && |PreparedChunks(w.codec, w.sources["s"])| == total
    ensures Completes(w, EMPTY, "s") && Stops(w, EMPTY, "s", STATUS_CHUNKS + 1)
    ensures Reachable(w, s) && s.job.Idle? && ReceivedIndexes(s.disk, "s") == FirstChunks(STATUS_CHUNKS + 1)
    ensures !Completes(w, s.disk, "s") && forall exitAfter: nat :: !Stops(w, s.disk, "s", exitAfter)
  {
    hide Reachable, PreparedChunks, ReceivedIndexes, FirstChunks, FileOfChunks, Lowercase, MissingFit, StatusFits, CommitSize,
         Missing;
    PremisesCanBeMet(total);
    w := WorldOfChunks(total);
    FreshUpload(total);
    s := ReceiveChunks(w, "s", STATUS_CHUNKS + 1);
    FirstChunksFitIff(STATUS_CHUNKS + 1);
  }

  lemma FreshUpload(total: nat)
    requires 0 < total && total * DEFAULT_CHUNK_SIZE < U64
    requires |PreparedChunks(PLAIN, WorldOfChunks(total).sources["s"])| == total
    ensures Completes(WorldOfChunks(total), EMPTY, "s")
    ensures forall n: nat :: 0 < n <= total ==> Stops(WorldOfChunks(total), EMPTY, "s", n)
  {
    hide PreparedChunks, ReceivedIndexes, FirstChunks, PutFits, StatusFits, Decimal;
    var w := WorldOfChunks(total);
    NothingReceived("s");
    StatusFitsBounds({});
    forall k: nat | k < total
      ensures PutFits(w, "s", k)
    {
      SmallPutFits(total, k);
    }
    FewDigits(total);
    forall n: nat | 0 < n <= total
      ensures Stops(w, EMPTY, "s", n)
    {
      assert FirstChunks(n) - {} == FirstChunks(n);
      assert Missing(EMPTY, "s", n) == n && MissingFit(w, EMPTY, "s", n);
    }
  }

  lemma FewDigits(n: nat)
    requires n < U64
    ensures |Decimal(n)| <= 20
  {
    DecimalLength(n, 20);
    assert Pow10(5) == 100000;
    assert Pow10(10) == 100000 * Pow10(5);
    assert Pow10(15) == 100000 * Pow10(10);
    assert Pow10(20) == 100000 * Pow10(15);
  }

  /** A chunk of 64 KiB and its header are far from the limit of 8 MiB. */
  lemma SmallPutFits(total: nat, k: nat)
    requires k < total && total * DEFAULT_CHUNK_SIZE < U64
    requires |PreparedChunks(PLAIN, WorldOfChunks(total).sources["s"])| == total
    ensures PutFits(WorldOfChunks(total), "s", k)
  {
    hide PiecesOf, PreparedChunks, Decimal, Fingerprint;
    var f := FileOfChunks(total);
    var chunk := PreparedChunks(PLAIN, [f])[k];
    PreparedAt(PLAIN, [f], k);
    PreparedIsSmall(PLAIN, [f], k);
    var i: nat :| PieceOfFile(PLAIN, f, i, chunk);
    FewPieces(Fixed, f.content);
    FewDigits(chunk.fileSize);
    FewDigits(chunk.fileMode);
    FewDigits(chunk.chunkIndex);
    FewDigits(|chunk.raw|);
    FingerprintReversible(f.content);
  }
}
