/** What a repository keeps on disk, its log entries, and the versions that its directory lists. */
module Disk {
  import opened Wrappers
  import opened Slices
  import opened Bytes
  import opened Text
  import opened Sorting
  import opened Paths
  import opened Manifest
  import opened ObjectStore
  import opened Checkpoint
  import WalLog

  datatype Disk = Disk(
    objects: Objects,
    staged: map<nat, string>,        // tmp/version-NNNNNN.manifest.tmp
    tmpDebris: set<string>,          // other regular files in tmp/
    manifests: map<nat, string>,     // manifests/version-NNNNNN.manifest
    markers: set<nat>,               // manifests/version-NNNNNN.commit
    debris: set<string>,             // unfinished atomic writes in manifests/
    wal: Bytes,
    checkpoint: Option<string>,
    sessions: map<string, string>)   // index files by session id

  const EMPTY: Disk := Disk(map[], map[], {}, map[], {}, {}, [], None, map[])

  function SessionText(d: Disk, sessionId: string): string {
    if sessionId in d.sessions then d.sessions[sessionId] else ""
  }

  // Committed versions.

  ghost function MaxOf(s: set<nat>): (m: nat)
    requires s != {}
    ensures m in s && forall v :: v in s ==> v <= m
    decreases |s|
  {
    var v :| v in s;
    if s == {v} then v
    else
      assert s - {v} != {};
      var rest := MaxOf(s - {v});
      assert forall u :: u in s ==> u == v || u in s - {v};
      if rest < v then v else rest
  }

  ghost function Ascending(s: set<nat>): (vs: seq<nat>)
    ensures StrictlySorted(vs, LessNat) && |vs| == |s|
    ensures forall v: nat :: v in vs <==> v in s
    decreases |s|
  {
    if s == {} then []
    else
      var m := MaxOf(s);
      var init := Ascending(s - {m});
      GreatestLast(init, s, m);
      init + [m]
  }

  lemma GreatestLast(init: seq<nat>, s: set<nat>, m: nat)
    requires m in s && (forall v :: v in s ==> v <= m) && StrictlySorted(init, LessNat)
    requires forall v: nat :: v in init <==> v in s - {m}
    ensures StrictlySorted(init + [m], LessNat) && forall v: nat :: v in init + [m] <==> v in s
  {
    forall i, j | 0 <= i < j < |init + [m]|
      ensures LessNat((init + [m])[i], (init + [m])[j])
    {
      assert init[i] in init;
    }
  }

  /** The versions with a marker that the listing can see. */
  function Committed(d: Disk): set<nat> {
    set v | v in d.markers && v < VERSION_LIMIT
  }

  ghost function Listed(d: Disk): (vs: seq<nat>)
    ensures StrictlySorted(vs, LessNat) && AllBelow(vs, VERSION_LIMIT)
    ensures forall v: nat :: v in vs <==> v in Committed(d)
  {
    var vs := Ascending(Committed(d));
    assert forall i :: 0 <= i < |vs| ==> vs[i] in vs;
    vs
  }

  ghost function NextVersion(d: Disk): nat {
    LatestOf(Listed(d)) + 1
  }

  lemma LatestIsMax(d: Disk)
    ensures forall v :: v in Committed(d) ==> v <= LatestOf(Listed(d))
    ensures Committed(d) != {} ==> LatestOf(Listed(d)) in Committed(d)
    ensures Committed(d) == {} ==> LatestOf(Listed(d)) == 0
  {
    var vs := Listed(d);
    assert vs != [] ==> vs[|vs| - 1] in vs;
    forall v: nat | v in Committed(d)
      ensures vs != [] && v <= LatestOf(vs)
    {
      assert v in vs;
      var k :| 0 <= k < |vs| && vs[k] == v;
      assert k < |vs| - 1 ==> LessNat(vs[k], vs[|vs| - 1]);
    }
  }

  /** The next version is beyond every listed one, and at most the first that is not listed any more. */
  lemma NextVersionIsNew(d: Disk)
    ensures forall v :: v in Committed(d) ==> v < NextVersion(d)
    ensures 1 <= NextVersion(d) <= VERSION_LIMIT
    ensures NextVersion(d) == VERSION_LIMIT <==> VERSION_LIMIT - 1 in d.markers
  {
    LatestIsMax(d);
    assert VERSION_LIMIT - 1 in d.markers <==> VERSION_LIMIT - 1 in Committed(d);
  }

  // The names in the manifests directory.

  ghost predicate InDirectory(d: Disk, name: string) {
    || (exists v: nat :: v in d.markers && name == VersionFileName(v, MARKER))
    || (exists v: nat :: v in d.manifests && name == VersionFileName(v, MANIFEST))
    || name in d.debris
  }

  /** The directory read in some order. */
  ghost predicate IsDirectory(names: seq<string>, d: Disk) {
    Distinct(names) && forall n :: n in names <==> InDirectory(d, n)
  }

  /** In whatever order the directory is read, the listing is the ascending committed versions. */
  lemma DirectoryListing(names: seq<string>, d: Disk)
    requires IsDirectory(names, d) && forall n :: n in d.debris ==> LeftOverName(n)
    ensures ListCommittedVersions(names) == Some(Listed(d))
  {
    hide VersionFileName, ListCommittedVersions, LeftOverName;
    forall n | n in names
      ensures StoreName(n)
    {
      assert InDirectory(d, n);
    }
    ListingIsExact(names);
    forall v: nat
      ensures v < VERSION_LIMIT && HasMarker(names, v) <==> v in Committed(d)
    {
      MarkerIsListed(d, v);
      assert InDirectory(d, VersionFileName(v, MARKER)) <==> VersionFileName(v, MARKER) in names;
    }
    NatOrder();
    SortedUnique(ListCommittedVersions(names).value, Listed(d), LessNat);
  }

  lemma MarkerIsListed(d: Disk, v: nat)
    requires forall n :: n in d.debris ==> LeftOverName(n)
    ensures InDirectory(d, VersionFileName(v, MARKER)) && v < VERSION_LIMIT <==> v in Committed(d)
  {
    hide VersionFileName;
    var name := VersionFileName(v, MARKER);
    if InDirectory(d, name) && v < VERSION_LIMIT {
      if u: nat :| u in d.markers && name == VersionFileName(u, MARKER) {
        NamesDiffer(v, MARKER, u, MARKER);
      } else if u: nat :| u in d.manifests && name == VersionFileName(u, MANIFEST) {
        NamesDiffer(v, MARKER, u, MANIFEST);
      } else {
        LeftOverIsNoMarker(name, v);
      }
    }
  }

  lemma LeftOverIsNoMarker(name: string, v: nat)
    requires LeftOverName(name) && v < VERSION_LIMIT
    ensures name != VersionFileName(v, MARKER)
  {
    hide VersionFileName, TempName, ReadName;
    MarkerNameReadsBack(v);
    var u: nat, suffix, pid: nat, now: nat :|
      (suffix == MARKER || suffix == MANIFEST) && name == TempName(VersionFileName(u, suffix), pid, now);
    TempNameSkipped(u, suffix, pid, now);
  }

  // Log entries.

  datatype LogEntry =
    | BeginBackup(version: nat)
    | BeginNetworkBackup(version: nat)
    | PutObject(sha256: string)
    | WriteManifest(version: nat)
    | RenameManifest(version: nat)
    | CommitBackup(version: nat)
    | CheckpointEntry(versions: seq<nat>)
    | CompactEntry

  function VersionPayload(v: nat): string {
    "version=" + Decimal(v) + "\n"
  }

  /** A number as it is printed, with any number of leading zeros. */
  ghost predicate Prints(d: string, n: nat) {
    d != "" && AllDigits(d) && Value(d) == n
  }

  /** The payload of a record names one version. */
  ghost predicate NamesVersion(payload: Bytes, prefix: string, v: nat) {
    exists d :: Prints(d, v) && payload == AsBytes(prefix + "version=" + d + "\n")
  }

  /** The payload of a checkpoint record names the latest version and all versions. */
  ghost predicate NamesVersions(payload: Bytes, vs: seq<nat>) {
    exists latest, list ::
      && Prints(latest, if vs == [] then 0 else vs[|vs| - 1]) && ListsNumbers(list, vs)
      && payload == AsBytes("latest=" + latest + "\nversions" + list + "\n")
  }

  ghost predicate ListsNumbers(list: string, vs: seq<nat>)
    decreases |vs|
  {
    if vs == [] then list == ""
    else exists d, rest :: Prints(d, vs[0]) && ListsNumbers(rest, vs[1..]) && list == " " + d + rest
  }

  lemma VersionIsNamed(v: nat)
    ensures NamesVersion(AsBytes(VersionPayload(v)), "", v)
    ensures NamesVersion(AsBytes("network-" + VersionPayload(v)), "network-", v)
  {
    hide AsBytes, Decimal, Value;
    DecimalRoundTrip(v);
    assert Prints(Decimal(v), v);
    assert "" + "version=" + Decimal(v) + "\n" == VersionPayload(v);
    assert "network-" + "version=" + Decimal(v) + "\n" == "network-" + VersionPayload(v);
  }

  lemma {:induction false} VersionsAreListed(vs: seq<nat>)
    ensures ListsNumbers(VersionsText(vs), vs)
  {
    hide Decimal, Value;
    if vs != [] {
      DecimalRoundTrip(vs[0]);
      VersionsAreListed(vs[1..]);
      assert Prints(Decimal(vs[0]), vs[0]);
    }
  }

  lemma VersionsAreNamed(vs: seq<nat>)
    ensures NamesVersions(AsBytes(CompactionPayload(vs)), vs)
  {
    hide AsBytes, Decimal, Value, VersionsText, ListsNumbers;
    VersionsAreListed(vs);
    DecimalRoundTrip(LatestOf(vs));
    assert Prints(Decimal(LatestOf(vs)), if vs == [] then 0 else vs[|vs| - 1]);
    var latest, list := Decimal(LatestOf(vs)), VersionsText(vs);
    assert "latest=" + latest + "\n" + "versions" + list + "\n" == "latest=" + latest + "\nversions" + list + "\n";
  }

  /** A payload determines its version. */
  lemma NamesOneVersion(payload: Bytes, prefix: string, v: nat, w: nat)
    requires Octets(prefix) && NamesVersion(payload, prefix, v) && NamesVersion(payload, prefix, w)
    ensures v == w
  {
    hide AsBytes, AsText, Octets;
    var d :| Prints(d, v) && payload == AsBytes(prefix + "version=" + d + "\n");
    var e :| Prints(e, w) && payload == AsBytes(prefix + "version=" + e + "\n");
    PrintedOctets(prefix, d);
    PrintedOctets(prefix, e);
    var s, t := prefix + "version=" + d + "\n", prefix + "version=" + e + "\n";
    TextOfBytes(s);
    TextOfBytes(t);
    assert s == t && s[|prefix| + 8..|s| - 1] == d && t[|prefix| + 8..|t| - 1] == e;
  }

  lemma PrintedOctets(prefix: string, d: string)
    requires Octets(prefix) && AllDigits(d)
    ensures Octets(prefix + "version=" + d + "\n")
  {
    var s := "version=" + d + "\n";
    assert forall i :: 0 <= i < |s| ==> s[i] as int < 256;
    assert prefix + "version=" + d + "\n" == prefix + s;
  }

  function ToRecord(e: LogEntry): WalLog.Record {
    match e
    case BeginBackup(v) => WalLog.Record(WalLog.BEGIN_BACKUP, AsBytes(VersionPayload(v)))
    case BeginNetworkBackup(v) => WalLog.Record(WalLog.BEGIN_BACKUP, AsBytes("network-" + VersionPayload(v)))
    case PutObject(sha) => WalLog.Record(WalLog.PUT_OBJECT, AsBytes(sha + " " + ObjectPath(sha) + "\n"))
    case WriteManifest(v) => WalLog.Record(WalLog.WRITE_MANIFEST, AsBytes(VersionPayload(v)))
    case RenameManifest(v) => WalLog.Record(WalLog.RENAME_MANIFEST, AsBytes(VersionPayload(v)))
    case CommitBackup(v) => WalLog.Record(WalLog.COMMIT_BACKUP, AsBytes(VersionPayload(v)))
    case CheckpointEntry(vs) => WalLog.Record(WalLog.CHECKPOINT, AsBytes(CompactionPayload(vs)))
    case CompactEntry => WalLog.Record(WalLog.COMPACT, AsBytes("compact"))
  }

  /** Entries that the programs write: versions up to the limit, digests, listings. */
  ghost predicate ProperEntry(e: LogEntry) {
    match e
    case PutObject(sha) => Sha256Hex(sha)
    case CheckpointEntry(vs) => StrictlySorted(vs, LessNat) && AllBelow(vs, VERSION_LIMIT)
    case CompactEntry => true
    case _ => e.version <= VERSION_LIMIT
  }

  lemma ProperEntryEncodable(e: LogEntry)
    requires ProperEntry(e)
    ensures WalLog.Encodable(ToRecord(e))
  {
    hide Decimal, CompactionPayload, AllBelow;
    match e
    case PutObject(sha) =>
    case CheckpointEntry(vs) => PayloadFits(vs);
    case CompactEntry =>
    case _ =>
      DecimalLength(e.version, 7);
      assert Pow10(7) == 10 * VERSION_LIMIT;
  }

  function ToRecords(es: seq<LogEntry>): (rs: seq<WalLog.Record>)
    ensures |rs| == |es|
  {
    seq(|es|, i requires 0 <= i < |es| => ToRecord(es[i]))
  }

  /** The log file holds exactly these entries, and reads back as them. */
  ghost predicate LogHolds(wal: Bytes, es: seq<LogEntry>) {
    (forall e :: e in es ==> ProperEntry(e)) && wal == WalLog.EncodeAll(ToRecords(es))
  }

  lemma LogReadsBack(wal: Bytes, es: seq<LogEntry>)
    requires LogHolds(wal, es)
    ensures WalLog.Read(wal) == Ok(ToRecords(es))
  {
    hide WalLog.Read, WalLog.EncodeAll, ToRecord, ProperEntry, WalLog.Encodable;
    forall r | r in ToRecords(es)
      ensures WalLog.Encodable(r)
    {
      var i :| 0 <= i < |es| && r == ToRecord(es[i]);
      ProperEntryEncodable(es[i]);
    }
    WalLog.ReadAllIsExact(wal, ToRecords(es));
  }

  lemma LogAppend(wal: Bytes, es: seq<LogEntry>, e: LogEntry)
    requires LogHolds(wal, es) && ProperEntry(e)
    ensures LogHolds(wal + WalLog.Encode(ToRecord(e)), es + [e])
  {
    hide ToRecord, ProperEntry, WalLog.Encode;
    var rs, r := ToRecords(es), ToRecord(e);
    assert ToRecords(es + [e]) == rs + [r];
    WalLog.EncodeAllSplit(rs + [r], |rs|);
    assert (rs + [r])[..|rs|] == rs && (rs + [r])[|rs|..] == [r];
    assert [r][1..] == [];
    assert WalLog.EncodeAll([r]) == WalLog.Encode(r) + [];
    assert WalLog.Encode(r) + [] == WalLog.Encode(r);
  }
}
