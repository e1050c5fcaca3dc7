/** What recovery and compaction make of a repository, whatever state it is in. */
module Maintenance {
  import opened Wrappers
  import opened Slices
  import opened Bytes
  import opened Text
  import opened Sorting
  import opened Paths
  import opened Manifest
  import opened FileTree
  import opened ObjectStore
  import opened Checkpoint
  import opened Disk
  import opened Protocol
  import opened Safety
  import opened Guarantees
  import WalLog

  /** After `recover` on a readable log. */
  ghost function Recovered(d: Disk): Disk {
    d.(staged := map[], tmpDebris := {}, checkpoint := Some(CheckpointNow(d)))
  }

  lemma CheckpointFrame(d: Disk, e: Disk)
    requires d.markers == e.markers
    ensures CheckpointNow(d) == CheckpointNow(e)
  {
    SameListing(d, e);
  }

  ghost function CompactEntries(d: Disk): seq<LogEntry> {
    [CheckpointEntry(Listed(d)), CompactEntry]
  }

  /** After `compact`. */
  ghost function Compacted(d: Disk): Disk {
    d.(checkpoint := Some(CheckpointNow(d)), wal := WalLog.EncodeAll(ToRecords(CompactEntries(d))))
  }

  /**
   * The checkpoint written loads as the ascending committed versions with the greatest as the latest, and
   * doing the work again changes nothing.
   */
  lemma RecoveryIsComplete(d: Disk)
    ensures var after := Recovered(d);
            && Load(after.checkpoint) == Some(CheckpointData(LatestOf(Listed(d)), Listed(d)))
            && (forall v :: v in Committed(d) ==> v <= LatestOf(Listed(d)))
            && Listed(after) == Listed(d) && Recovered(after) == after
    ensures var after := Recovered(d);
            && after.staged == map[] && after.tmpDebris == {} && after.wal == d.wal
            && after.objects == d.objects && after.manifests == d.manifests && after.markers == d.markers
            && after.debris == d.debris && after.sessions == d.sessions
  {
    hide CheckpointText, LoadText, Listed, Committed;
    var after := Recovered(d);
    SameListing(d, after);
    CheckpointLoadsBack(Listed(d));
    LatestIsMax(d);
  }

  /** Neither program changes what any version restores to, nor which versions are listed. */
  lemma MaintenanceKeepsContent(c: Codec, d: Disk, v: nat, target: Tree)
    ensures RestoreVersion(c, Recovered(d), v, target) == RestoreVersion(c, d, v, target)
         == RestoreVersion(c, Compacted(d), v, target)
    ensures Listed(Recovered(d)) == Listed(d) == Listed(Compacted(d))
    ensures Recovered(d).sessions == d.sessions == Compacted(d).sessions
  {
    hide CheckpointText, Listed, Parse, RestoreFiles, WalLog.EncodeAll, ToRecords;
    SameListing(d, Recovered(d));
    SameListing(d, Compacted(d));
  }

  /** Whatever the log held before, compaction fits into it, and it then reads back as exactly the two records. */
  lemma CompactedLogReads(d: Disk)
    ensures WalLog.AllEncodable(ToRecords(CompactEntries(d)))
    ensures WalLog.Read(Compacted(d).wal) == Ok(ToRecords(CompactEntries(d)))
    ensures Compacted(Compacted(d)) == Compacted(d)
    ensures var rs := WalLog.Read(Compacted(d).wal).value;
            && |rs| == 2 && rs[0].kind == 6 && NamesVersions(rs[0].payload, Listed(d))
            && rs[1] == WalLog.Record(7, AsBytes("compact"))
    ensures var after := Compacted(d);
            && Load(after.checkpoint) == Some(CheckpointData(LatestOf(Listed(d)), Listed(d)))
            && after == d.(checkpoint := after.checkpoint, wal := after.wal)
  {
    hide Load, CheckpointText, Listed, WalLog.Read, WalLog.EncodeAll, ToRecord, NamesVersions, AsBytes, CompactionPayload, StrictlySorted, AllBelow, WalLog.Encodable;
    var es := CompactEntries(d);
    SameListing(d, Compacted(d));
    ProperEntryEncodable(es[0]);
    ProperEntryEncodable(es[1]);
    WalLog.ReadAllIsExact(Compacted(d).wal, ToRecords(es));
    assert ToRecords(es) == [ToRecord(es[0]), ToRecord(es[1])];
    CompactRecords(Listed(d));
    CheckpointLoads(d);
  }

  lemma CompactRecords(vs: seq<nat>)
    ensures ToRecord(CheckpointEntry(vs)).kind == 6 && NamesVersions(ToRecord(CheckpointEntry(vs)).payload, vs)
    ensures ToRecord(CompactEntry) == WalLog.Record(7, AsBytes("compact"))
  {
    hide AsBytes, CompactionPayload, NamesVersions;
    VersionsAreNamed(vs);
  }

  lemma CheckpointLoads(d: Disk)
    ensures Load(Some(CheckpointNow(d))) == Some(CheckpointData(LatestOf(Listed(d)), Listed(d)))
  {
    hide CheckpointText, LoadText, Listed;
    CheckpointLoadsBack(Listed(d));
  }
}
