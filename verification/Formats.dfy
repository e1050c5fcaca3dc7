/** The texts and names that the programs write, spelled out. What they read is in `ManifestLaw`, `RequestLaw` and `FileLaw`. */
module Formats {
  import opened Wrappers
  import opened Slices
  import opened Bytes
  import opened Text
  import opened TextLaw
  import opened Paths
  import opened Manifest
  import opened ObjectStore
  import opened Checkpoint
  import opened Disk
  import Payloads
  import SessionIndex
  import FileLaw
  import Server
  import Upload
  import WalLog

  // Words on a line.

  lemma SpacedFirst(w: string, ws: seq<string>)
    requires ws != []
    ensures Spaced([w] + ws) == w + " " + Spaced(ws)
  {
    assert ([w] + ws)[1..] == ws;
  }

  lemma TwoWords(a: string, b: string)
    ensures Spaced([a, b]) == a + " " + b
  {
    SpacedFirst(a, [b]);
    assert [a] + [b] == [a, b];
  }

  lemma SixWords(a: string, b: string, c: string, d: string, e: string, f: string)
    ensures Spaced([a, b, c, d, e, f]) == a + " " + (b + " " + (c + " " + (d + " " + (e + " " + f))))
  {
    assert [a, b, c, d, e, f] == [a] + [b, c, d, e, f];
    assert [b, c, d, e, f] == [b] + [c, d, e, f];
    assert [c, d, e, f] == [c] + [d, e, f];
    assert [d, e, f] == [d] + [e, f];
    SpacedFirst(a, [b, c, d, e, f]);
    SpacedFirst(b, [c, d, e, f]);
    SpacedFirst(c, [d, e, f]);
    SpacedFirst(d, [e, f]);
    TwoWords(e, f);
  }

  // Manifests.

  lemma KeyWritten(key: string, value: string, start: string)
    requires start == key + " "
    ensures KeyLine(key, value) == start + value
  {
    TwoWords(key, value);
  }

  /** The lines of a manifest. */
  lemma HeadWritten(m: Manifest)
    ensures HeadLines(m) == [
      "DPC_MANIFEST_V1",
      "version " + Decimal(m.version),
      "created_at " + Decimal(m.createdAt),
      "chunking_mode " + (if m.mode == Fixed then "fixed" else "cdc"),
      "source_root_hex " + HexEncode(m.sourceRoot),
      "file_count " + Decimal(|m.files|),
      "total_input_bytes " + Decimal(m.totalInputBytes),
      "total_stored_bytes " + Decimal(m.totalStoredBytes) ]
  {
    hide KeyLine, Decimal, HexEncode;
    KeyWritten("version", Decimal(m.version), "version ");
    KeyWritten("created_at", Decimal(m.createdAt), "created_at ");
    KeyWritten("chunking_mode", ModeText(m.mode), "chunking_mode ");
    KeyWritten("source_root_hex", HexEncode(m.sourceRoot), "source_root_hex ");
    KeyWritten("file_count", Decimal(|m.files|), "file_count ");
    KeyWritten("total_input_bytes", Decimal(m.totalInputBytes), "total_input_bytes ");
    KeyWritten("total_stored_bytes", Decimal(m.totalStoredBytes), "total_stored_bytes ");
  }

  lemma LinesWritten(f: FileManifest, c: ChunkRef)
    ensures FileLine(f)
         == "FILE" + " " + (HexEncode(f.relativePath) + " " + (Decimal(f.fileSize) + " " + (Decimal(f.fileMode) + " "
            + (f.fileSha256 + " " + Decimal(|f.chunks|)))))
    ensures ChunkLine(c)
         == "CHUNK" + " " + (Decimal(c.index) + " " + (Decimal(c.rawSize) + " " + (Decimal(c.compressedSize) + " "
            + (c.sha256 + " " + HexEncode(c.objectPath)))))
  {
    SixWords("FILE", HexEncode(f.relativePath), Decimal(f.fileSize), Decimal(f.fileMode), f.fileSha256, Decimal(|f.chunks|));
    SixWords("CHUNK", Decimal(c.index), Decimal(c.rawSize), Decimal(c.compressedSize), c.sha256, HexEncode(c.objectPath));
  }

  // Checkpoints, session indexes, requests: each value behind its key.

  lemma NumbersWritten(v: nat, vs: seq<nat>)
    ensures VersionsText([v] + vs) == " " + Decimal(v) + VersionsText(vs) && VersionsText([]) == ""
  {
    assert ([v] + vs)[1..] == vs;
  }

  lemma CheckpointWritten(latest: nat, vs: seq<nat>)
    ensures CheckpointText(CheckpointData(latest, vs))
         == "DPC_CHECKPOINT_V1" + "\n" + "latest_committed_version" + " " + Decimal(latest) + "\n"
            + "committed_versions" + VersionsText(vs) + "\n"
  {
    hide Decimal, VersionsText;
  }

  lemma CompactionWritten(vs: seq<nat>)
    ensures CompactionPayload(vs)
         == "latest=" + Decimal(if vs == [] then 0 else vs[|vs| - 1]) + "\n" + "versions" + VersionsText(vs) + "\n"
  {
    hide Decimal, VersionsText;
  }

  lemma FieldWritten(field: string, more: seq<string>)
    ensures SessionIndex.FieldsText([field] + more) == " " + field + SessionIndex.FieldsText(more)
    ensures SessionIndex.FieldsText([]) == ""
  {
    assert ([field] + more)[1..] == more;
  }

  /** A line of an index: all fields, each behind a blank. */
  lemma IndexLineWritten(r: SessionIndex.Received, v: nat)
    ensures SessionIndex.LineText(SessionIndex.ChunkLine(r)) == "CHUNK" + SessionIndex.FieldsText([
      Decimal(r.globalIndex), r.sha256, HexEncode(r.relativePath), Decimal(r.fileSize), Decimal(r.fileMode),
      r.fileSha256, Decimal(r.chunkIndex), Decimal(r.rawSize), Decimal(r.compressedSize), HexEncode(r.objectPath)]) + "\n"
    ensures SessionIndex.LineText(SessionIndex.CommittedLine(v)) == "COMMITTED" + SessionIndex.FieldsText([Decimal(v)]) + "\n"
  {
    hide Decimal, HexEncode, SessionIndex.FieldsText;
  }

  lemma RequestWritten(header: string, key: string, value: string, more: seq<Payloads.Field>)
    ensures Payloads.FieldsText([(key, value)] + more) == "\n" + key + " " + value + Payloads.FieldsText(more)
    ensures Payloads.FieldsText([]) == "" && Payloads.RequestText(header, more) == header + Payloads.FieldsText(more)
  {
    assert ([(key, value)] + more)[1..] == more;
  }

  /** A put request: eight fields, a blank line, and the compressed chunk. */
  lemma PutWritten(p: Payloads.PutPayload)
    ensures Payloads.MakePut(p) == AsBytes("DPC_PUT_V1" + Payloads.FieldsText([
        ("session_hex", HexEncode(p.sessionId)),
        ("relative_path_hex", HexEncode(p.relativePath)),
        ("file_size", Decimal(p.fileSize)),
        ("file_mode", Decimal(p.fileMode)),
        ("file_sha256", p.fileSha256),
        ("chunk_index", Decimal(p.chunkIndex)),
        ("raw_size", Decimal(p.rawSize)),
        ("compressed_size", Decimal(|p.compressed|)) ])) + [10, 10] + p.compressed
  {
    hide Decimal, HexEncode, Payloads.FieldsText, AsBytes;
  }

  lemma QuestionsWritten(id: string, total: nat)
    ensures Payloads.MakeQuery(id) == AsBytes("DPC_QUERY_SESSION_V1" + Payloads.FieldsText([("session_hex", HexEncode(id))]) + "\n")
    ensures Payloads.MakeCommit(id, total)
         == AsBytes("DPC_COMMIT_V1" + Payloads.FieldsText([("session_hex", HexEncode(id)), ("total_chunks", Decimal(total))]) + "\n")
  {
    hide Decimal, HexEncode, Payloads.FieldsText, AsBytes;
  }

  /** A status: a line for every chunk. */
  lemma StatusWritten(index: nat, sha: string, more: seq<(nat, string)>)
    ensures Payloads.MakeStatus(more) == "DPC_SESSION_STATUS_V1" + "\n" + Payloads.StatusLines(more)
    ensures Payloads.StatusLines([(index, sha)] + more) == Decimal(index) + " " + sha + "\n" + Payloads.StatusLines(more)
    ensures Payloads.StatusLines([]) == ""
  {
    assert ([(index, sha)] + more)[1..] == more;
  }

  // Names.

  /** The digits of a version: six of them, and more only where six are too few. */
  ghost predicate VersionDigits(d: string, v: nat) {
    DigitsOnly(d) && Denotes(d) == v && |d| >= 6 && (|d| > 6 ==> d[0] != '0')
  }

  lemma VersionDigitsIff(v: nat, d: string)
    ensures ZeroPad(v) == d <==> VersionDigits(d, v)
  {
    hide Decimal, Denotes, Value;
    var z := ZeroPad(v);
    ZeroPadReadsBack(v);
    ValueDenotes(z);
    DecimalIff(v, Decimal(v));
    DecimalLength(v, 6);
    if VersionDigits(d, v) {
      assert AllDigits(d);
      ValueDenotes(d);
      if |d| > 6 {
        DecimalIff(v, d);
      } else {
        SixDigitsBelow(d);
        SameLength(z, d, v);
      }
    }
  }

  lemma SixDigitsBelow(d: string)
    requires DigitsOnly(d) && |d| == 6
    ensures Denotes(d) < 1_000_000
  {
    DenotesBelow(d);
    assert Pow10(6) == 1_000_000;
  }

  lemma {:induction false} DenotesBelow(d: string)
    requires d == "" || DigitsOnly(d)
    ensures 0 <= Denotes(d) < Pow10(|d|)
  {
    if d != "" {
      DenotesBelow(d[..|d| - 1]);
    }
  }

  lemma SameLength(z: string, d: string, v: nat)
    requires VersionDigits(z, v) && VersionDigits(d, v) && |d| == 6 && (|z| == 6 || v >= 1_000_000) && v < 1_000_000
    ensures z == d
  {
    FileLaw.SameDigits(z, d);
  }

  /** The names of a version's files. */
  lemma VersionNameIff(v: nat, name: string)
    ensures VersionFileName(v, MARKER) == name <==> exists d :: VersionDigits(d, v) && name == "version-" + d + ".commit"
    ensures VersionFileName(v, MANIFEST) == name <==> exists d :: VersionDigits(d, v) && name == "version-" + d + ".manifest"
    ensures VersionFileName(v, STAGED) == name <==> exists d :: VersionDigits(d, v) && name == "version-" + d + ".manifest.tmp"
  {
    hide ZeroPad, VersionDigits;
    VersionDigitsIff(v, ZeroPad(v));
    forall d | VersionDigits(d, v)
      ensures d == ZeroPad(v)
    {
      VersionDigitsIff(v, d);
    }
  }

  lemma NamesWritten(name: string, pid: nat, now: nat, id: string, sha: string)
    requires |sha| >= 2
    ensures TempName(name, pid, now) == name + ".tmp." + Decimal(pid) + "." + Decimal(now)
    ensures SessionIndex.SessionFileName(id) == HexEncode(id) + ".session"
    ensures ObjectPath(sha) == "objects/" + sha[..2] + "/" + sha + ".zst"
  {
    hide Decimal, HexEncode;
  }

  // Records of the log.

  /** The type and the text of the record for every entry. */
  lemma EntriesWritten(v: nat, sha: string, vs: seq<nat>)
    ensures ToRecord(BeginBackup(v)) == WalLog.Record(1, AsBytes("version=" + Decimal(v) + "\n"))
    ensures ToRecord(BeginNetworkBackup(v)) == WalLog.Record(1, AsBytes("network-" + ("version=" + Decimal(v) + "\n")))
    ensures ToRecord(PutObject(sha)) == WalLog.Record(2, AsBytes(sha + " " + ObjectPath(sha) + "\n"))
    ensures ToRecord(WriteManifest(v)) == WalLog.Record(3, AsBytes("version=" + Decimal(v) + "\n"))
    ensures ToRecord(RenameManifest(v)) == WalLog.Record(4, AsBytes("version=" + Decimal(v) + "\n"))
    ensures ToRecord(CommitBackup(v)) == WalLog.Record(5, AsBytes("version=" + Decimal(v) + "\n"))
    ensures ToRecord(CheckpointEntry(vs)) == WalLog.Record(6, AsBytes(CompactionPayload(vs)))
    ensures ToRecord(CompactEntry) == WalLog.Record(7, AsBytes("compact"))
  {
    hide AsBytes, Decimal, ObjectPath, CompactionPayload;
  }

  // Packets.

  /** The types of the packets that the two sides exchange, and the answer to a put. */
  lemma PacketTypes(hash: nat, id: string, p: Upload.PreparedChunk)
    ensures Server.HELLO == 1 && Server.QUERY_SESSION == 2 && Server.SESSION_STATUS == 3 && Server.PUT_CHUNK == 4
    ensures Server.PUT_CHUNK_ACK == 5 && Server.COMMIT_SESSION == 6 && Server.COMMIT_ACK == 7 && Server.ERROR == 8
    ensures Server.STORED == Server.Reply(5, "ok\n") && Server.FAILED.kind == 8
    ensures Server.PutPacket(hash, id, p).kind == 4 && Server.PutPacket(hash, id, p).chunkIndex == p.globalIndex
  {
    hide Payloads.MakePut, Server.ShaBytes;
  }
}
