# Verification of the backup repository core

This project models the deduplicating backup store in Dafny and proves what it promises over whole runs:
that a version which the listing shows restores to exactly the source it was made from, however often any
of the programs crashes; that an upload which is interrupted and taken up again, in any order and beside
other uploads, ends in the same manifest as a local backup; that the worker pool runs every accepted task
exactly once and never loses a wake-up; and that the logs, packets, manifests and other texts are read back
as they were written, or rejected when they are torn or damaged. `dafny verify dfyconfig.toml` verifies the project.

## How the model is built

- **Commit protocol** (`Disk`, `Protocol`, `Safety`, `Guarantees`, `Steps`, `VersionLimit`). A disk holds
  objects, staged manifests, manifests, markers, left-over temporary files, the log's bytes, the checkpoint
  text and the session index texts. Every write of `BackupEngine::create`, `CommitSession`, `recover`,
  `compact` and `PutChunk` is one action of a machine. An atomic write is two: a temporary file appears, then
  it is renamed. `Crash` may come anywhere. One job at a time allocates versions; puts run beside it. The
  state also remembers the source of every version at the moment its marker was written, and a theorem about
  every reachable state compares restoring with that source. Digests in file names, version names, manifests,
  log records, checkpoints and index lines are modelled down to their characters or bytes.
- **Programs** (`Repository`, `Server`, `Client`, `Maintenance`, `Accounting`). The programs are methods with
  the loops and the write order of the source. Each write is proved to be a step of the machine: the object
  carries the run so far as a ghost trace that only grows. So what holds in every reachable state holds
  between any two writes of these methods.
- **Sessions** (`SessionIndex`, `Upload`, `Snapshot`, `PacketSizes`, `ResumeLimit`). Ordered maps are the
  sequences of their ascending entries. `Upload.SessionMatchesLocal` compares the manifest built from a session
  with a local backup. `ResumeLimit` says when an interrupted upload can be taken up again.
- **Restoring** (`ObjectStore`, `FileTree`, `Snapshot`). A restore writes into a tree of files and directories,
  where writing fails if a directory is in the place of the file or a file in the place of a directory above it.
- **Queue and pool** (`BoundedQueue`, `ThreadPool`). What a thread does while it holds the mutex is one step.
  Threads sleep on two condition variables, are woken by `notify_one` (any sleeper), by `notify_all`, or for
  no reason. Shutdown sets the flag and notifies in three separate steps.
- **Codecs and texts** (`Crc32`, `WalLog`, `PacketCodec`, `Payloads`, `Text`, `Paths`, `Manifest`,
  `Checkpoint`, `FileUtils`, `Chunkers`). Each printer and parser is a function on bytes or characters together
  with the loop of the source proved to compute it.
- **Laws** (`CutLaw`, `CrcLaw`, `TextLaw`, `ByteLayouts`, `ManifestLaw`, `RequestLaw`, `FileLaw`, `GroupLaw`,
  `AnyPut`, `Formats`). What those functions compute, said without them, mostly as an if-and-only-if over all
  inputs: where contents are cut, on natural numbers (`Words` connects them to machine words); the checksum as a
  polynomial division; where every byte of a record and a packet stands; which texts say what, to which reader;
  what is built from the records of a session and what a put request does, whoever sent them.

## Premises

- SHA-256 yields 64 lower-case hex digits and has no collisions among the chunk contents in play; zstd is
  deterministic and decompression undoes compression on them. Both are parameters (`ObjectStore.Codec`).
- A source is what a scan of a file system delivers: regular files in ascending order of path, each path made
  of names between single slashes, no file a directory of another, sizes below 2^64. It does not change during
  a run. A session id is not empty and always belongs to the same source.
- Programs that allocate versions run one at a time, because the repository has no lock for them. Renames and
  single appends are atomic.
- A network session has fewer than 2^64 chunks.

`Premises.PremisesCanBeMet` gives, for every number of chunks, a world in which all of this holds, and
`VersionLimit` and `ResumeLimit` build runs of the machine step by step, so the theorems about reachable states
are not empty.

## Where the code does less than one might expect

- Versions from 1000000 on have longer file names, which the listing skips. `Guarantees.ReplacesMarkedIff`
  gives the exact condition under which a backup then replaces the manifest of a committed version, and
  `VersionLimit.MarkedVersionReplaced` a run that gets there.
- While the queue shuts down, a free slot can be left to a sleeping producer although no woken producer is on
  its way. It does no harm, since `notify_all` is still to come. `ThreadPool.SlotsAttendedExactly` says in
  which two stages this can happen.
- A put request with an empty session id or an empty path is not read back: the words behind it shift
  (`Payloads.PutSurvivesIff`).
- The status of a session is one packet of at most 8 MiB. An interrupted upload can always be taken up again if
  and only if its source has at most 118051 chunks (`ResumeLimit.ResumableIff`); `ResumeLimit.ResumeFails` is a
  run for every larger number that gets stuck. `ResumeLimit.AlwaysCompletesIff` adds the sizes of the other
  packets.
- A put or commit request whose number fields do not start with a number below 2^64 makes `std::stoull` throw an
  exception that is not a `DpcError`. Nothing catches it on the worker thread, so the server process ends instead
  of answering, which is a `Crash` of the machine. `Payloads.PutUncaughtIff`, `Payloads.CommitUncaughtIff` and `Server.PutTerminatesIff` say exactly
  when, and `Payloads.UnreadableFileSize` and `Payloads.UnreadableTotal` give such requests.
- A put request that is refused because the index has another digest for the chunk, or cannot be read, leaves its
  object in the store (`AnyPut.PutExactly`).
- A manifest can pass verification and be impossible to restore: when a file is a directory of another, or its
  path ends in a slash, which normalisation keeps (`ObjectStore.ClashingPaths`, `ObjectStore.SlashAtTheEnd`).
  `ObjectStore.RestoreIffVerify` has the exact condition. No backup of a source writes such a manifest.
- An atomic write can report a failure although the file has been replaced: when the directory cannot be synced
  after the rename (`FileUtils.Directory.WriteFileAtomic`).
- A manifest with an empty source root is printed but not parsed again (`Manifest.ParseIsInverseOfSerialize`
  holds exactly for well-formed manifests).

## Model

| member | source | states |
|---|---|---|
| Guarantees.ListedVersionsRestore | src/core/RestoreEngine.cpp:11-40 | in every reachable state (any mix of backups, uploads, commits, recoveries, checkpoints and compactions, a crash after any write) each listed version loads, restores into an empty directory as exactly the tree it was made from (the same files under the same paths with their modes and contents, the directories above them, nothing else), and verifies |
| Guarantees.CommittedForever | src/core/BackupEngine.cpp:94-120 | along every run a listed version stays listed, and its manifest text and recorded source never change |
| Guarantees.StepKeepsCommitted | src/network/BackupServer.cpp:257-274 | no single write of any program takes a listed version away or replaces its manifest, also when an orphan manifest is overwritten |
| Guarantees.ListingAgrees | src/core/ManifestStore.cpp:91-117 | in every reachable state, in whatever order the directory is read, the listing succeeds, is the ascending set of committed versions, and agrees with the existence of the marker for every version below 1000000 |
| Guarantees.ReplacesMarkedIff | src/core/ManifestStore.cpp:83-89 | the next version has a marker already, and the coming rename replaces a marked version's manifest, if and only if version 1000000 has a marker |
| VersionLimit.MarkedVersionReplaced | src/core/ManifestStore.cpp:99-104 | a run of 1000000 backups and one more that reaches the failing case: version 1000000 has a marker, is not listed, and its manifest is replaced by a different text |
| Guarantees.LogIsTruthful | src/core/BackupEngine.cpp:74-114 | the log of every reachable state reads back, and of every record that is read: a PUT_OBJECT names an object that exists and decodes to its digest, a RENAME_MANIFEST a version with a manifest, a COMMIT_BACKUP one with a marker, a CHECKPOINT only such versions and the latest of them; the versions are read off the text of the payload |
| Disk.NamesOneVersion | src/core/BackupEngine.cpp:48-114 | the payload of a record determines the version that it names |
| Guarantees.CheckpointLoads | src/metadata/Checkpoint.cpp:28-53 | the checkpoint of every reachable state loads, is strictly ascending, names its last version as the latest, and lists only committed versions |
| Guarantees.SessionsAreHonest | src/network/BackupServer.cpp:230-252 | in every reachable state the index of a session parses, each record is the record of that chunk of the session's source, and names a stored object with its digest and raw size |
| Guarantees.SessionCommitMatchesLocal | src/network/SessionIndex.cpp:92-140 | whatever happened before, a session's manifest can be built iff no chunk is missing, and then has the file list, the input total and the stored total of a local fixed-mode backup of the same source into an empty repository |
| Safety.StepKeeps | src/core/BackupEngine.cpp:47-120 | the invariant of the protocol (valid objects, restorable listed versions, honest sessions, truthful log and checkpoint, the stage each job has reached) is kept by every step |
| Safety.RenameKeeps | src/core/ManifestStore.cpp:130-138 | the rename of a staged manifest keeps the invariant because the version it replaces is beyond every listed one |
| Safety.MarkKeeps | src/metadata/CommitMarker.cpp:16-18 | the marker keeps the invariant because manifest and objects are in place before it |
| Safety.SessionManifestRecords | src/network/SessionIndex.cpp:92-140 | a manifest built from a session in any reachable state is well formed and all of its chunks are stored |
| Disk.NextVersionIsNew | src/core/ManifestStore.cpp:83-89 | the next version exceeds every listed version, lies between 1 and 1000000, and is 1000000 exactly when 999999 has a marker |
| Disk.DirectoryListing | src/core/ManifestStore.cpp:91-113 | for every reading order of the manifests directory, with manifests, markers and left-over temporary files in it, the listing is the ascending set of committed versions |
| Disk.LogReadsBack | src/metadata/WalLog.cpp:76-100 | a log file made of proper entries reads back as exactly their records |
| Disk.LogAppend | src/metadata/WalLog.cpp:61-74 | appending an entry to such a log keeps it readable, with the entry at its end |
| Formats.EntriesWritten | src/core/BackupEngine.cpp:48-114 | the type and the text of every record that the programs write |
| Repository.Repository.Create | src/core/BackupEngine.cpp:36-123 | does only steps of the protocol and completes iff no stage is injected that it reaches; a completed backup has committed the version after the last listed one with the source as its recorded snapshot, the serialized manifest of all files, a current checkpoint, the counters of BackedUp and exactly the log entries of its writes; one stopped at any stage has stored the pieces, written the log entries and moved the files of the stages before it and nothing else |
| Repository.Repository.BackUpFile | src/core/BackupEngine.cpp:63-98 | puts and logs the chunks of one file in order; returns the manifest entry of the file; the running totals stay equal to what the store has gained |
| Repository.Repository.BackedUpRestores | src/core/RestoreEngine.cpp:11-40 | what a completed backup committed restores as the tree of its source, for every version below 1000000 |
| Accounting.PutAccounted | src/core/BackupEngine.cpp:72-102 | one more put keeps the accounts: unique chunks are the distinct digests absent before the run and the growth of the object count, stored bytes are the growth of the store's size in 64 bits, unique plus duplicate are all references |
| Repository.Repository.RenameStaged | src/core/BackupEngine.cpp:104-110 | from the staged manifest to the logged rename: only the staged file moves to the manifests, or one of the two stages stops it |
| Repository.Repository.MarkRenamed | src/core/BackupEngine.cpp:112-120 | marker, log record, checkpoint, in this order; the version and nothing else becomes committed |
| Repository.Repository.StageManifest | src/core/ManifestStore.cpp:126-128 | the atomic write of the staged manifest is two steps, of which the first leaves a temporary file |
| Repository.Repository.CreateMarker | src/metadata/CommitMarker.cpp:16-18 | the atomic write of the marker is two steps, of which the first leaves a temporary file |
| Repository.Repository.Recover | src/metadata/RecoveryManager.cpp:14-47 | on a readable log empties the temporary directory, writes the checkpoint of the listed versions and reports both counts; on an unreadable one changes nothing and reports the log's error; a run of the protocol stays one |
| Repository.Repository.Compact | src/metadata/MetadataCompactor.cpp:13-34 | writes the checkpoint and replaces the log by the two compaction records, and changes nothing else |
| Repository.Repository.RestoreTo | src/core/RestoreEngine.cpp:11-40 | for any disk and target directory: succeeds iff the version has a marker and a manifest, the manifest parses, all files are intact and their paths fit the target; it has then written the last contents for every target path and the directories above and left the rest alone; a restore that fails has so written the files before the first that cannot be restored, and made at most directories for that one; without marker, manifest or parse the target is as it was; on a repository that has only seen the modelled programs a listed version is restored into an empty directory as the tree of its source |
| Repository.Repository.VerifyVersion | src/core/VerifyEngine.cpp:10-38 | passes iff the version has a marker and a manifest, the manifest parses, and every file is intact: each chunk's object is at its own path and decompresses to its digest and size, and together they have the digest and size of the file; a listed version passes |
| Repository.ListVersions | src/core/ManifestStore.cpp:91-113 | reads the directory in an unspecified order and returns the ascending committed versions |
| Repository.FreeVersion | src/core/ManifestStore.cpp:83-89 | returns the version after the last listed one, or 1 |
| Maintenance.RecoveryIsComplete | src/metadata/RecoveryManager.cpp:36-39 | for any disk: the checkpoint written by recovery loads as the ascending committed versions with their maximum as latest, no staged or temporary file is left, everything else is as it was, and a second recovery changes nothing |
| Maintenance.CompactedLogReads | src/metadata/MetadataCompactor.cpp:20-33 | for any disk: the compaction records fit the record limit, and afterwards the log reads back as exactly these two records, of which the first names the listed versions; the checkpoint loads as these versions; everything else is as it was |
| Checkpoint.PayloadFits | src/metadata/MetadataCompactor.cpp:20-26 | the compaction payload of any listing is at most 7000023 bytes, below the limit of 8 MiB |
| Checkpoint.LoadsBack | src/metadata/Checkpoint.cpp:16-53 | a checkpoint text loads as the data that was written |
| FileLaw.LoadIff | src/metadata/Checkpoint.cpp:28-53 | a checkpoint is loaded from exactly the texts with this header, these two keys and their numbers, read up to the first word that is none |
| Checkpoint.Write | src/metadata/Checkpoint.cpp:16-26 | writes the checkpoint text |
| Checkpoint.LoadFile | src/metadata/Checkpoint.cpp:28-53 | reads header, keys and numbers word by word; a missing file is an empty checkpoint, a wrong key an error |
| SessionIndex.IndexReadsBack | src/network/SessionIndex.cpp:22-50 | reading an index file gives back exactly the chunk records appended to it, whatever COMMITTED lines lie between them |
| FileLaw.RecordsIff | src/network/SessionIndex.cpp:22-50 | an index is read from exactly the texts that consist of CHUNK records of ten readable fields and lines that start with COMMITTED |
| SessionIndex.Index.Records | src/network/SessionIndex.cpp:22-50 | parses the file record by record and fails on the first malformed one |
| SessionIndex.Index.QueryReceived | src/network/SessionIndex.cpp:52-58 | the digest of the last record of every index |
| SessionIndex.ReceivedIsLast | src/network/SessionIndex.cpp:52-58 | an index with records is received, with the digest of its last record |
| SessionIndex.Index.AppendChunk | src/network/SessionIndex.cpp:60-90 | appends one line for a new index, nothing for a known one with the same digest, and fails on a different digest or an unreadable file |
| SessionIndex.Index.Build | src/network/SessionIndex.cpp:92-140 | the loops compute the manifest that GroupLaw.BuildExactly describes, or nothing if an index below the total is missing or the index file is malformed |
| GroupLaw.BuildExactly | src/network/SessionIndex.cpp:92-140 | for any records, whoever sent them: no manifest can be built iff an index below the total has no record; otherwise it is built from the last record of every index: one file for every path, in ascending order, with the size, mode and digest of its first record (of its last for an empty path) and the references of all its records sorted by chunk number; the input total counts each path once, the stored total each digest once, both in 64 bits |
| GroupLaw.PutFileAscends | src/network/SessionIndex.cpp:112-131 | the map of files by path stays ascending, and an entry replaces the one with its path and no other |
| SessionIndex.Index.MarkCommitted | src/network/SessionIndex.cpp:142-149 | appends a line and leaves the records as they are |
| SessionIndex.GroupFiles | src/network/SessionIndex.cpp:112-131 | the grouping loop computes the file map, the 64-bit sums and the seen digests of the fold over the records |
| SessionIndex.SessionNamesDiffer | src/network/SessionIndex.cpp:18-20 | different session ids have different index files |
| Upload.SessionMatchesLocal | src/network/SessionIndex.cpp:92-140 | for records of any chunks of a source in any order: the manifest can be built iff all are there, and is then exactly this one: the files (order, chunk order, every field) and input total of a local fixed-size backup, and as stored total the bytes that such a backup would put into an empty repository |
| Upload.ByGlobalAscends | src/network/SessionIndex.cpp:93-97 | the map by global index ascends and holds exactly the last record of every index that has any |
| Upload.GroupSource | src/network/SessionIndex.cpp:112-131 | grouping all records of a source gives the entries of its files in path order |
| Upload.GroupStores | src/network/SessionIndex.cpp:127-129 | the sum over first-seen digests is the number of bytes that putting the pieces into an empty store adds, in 64 bits |
| Upload.PrepareChunks | src/network/TransferSession.cpp:11-35 | the nested loops number the chunks of all files through |
| Upload.PreparedAt | src/network/TransferSession.cpp:14-33 | every prepared chunk is a piece of one of the files and is numbered by its position |
| Server.BackupServer.HandlePut | src/network/BackupServer.cpp:230-255 | for any packet, the disk and the reply, or the end of the server process, are those of PutOutcome; a client's own request is acknowledged and is exactly the two steps of the protocol |
| Server.PutTerminatesIff | src/network/BackupServer.cpp:88-94 | a put request ends the server process, with nothing written, exactly when its first unreadable field, in the order of reading, is a number field that is there, or all is read and the raw size is 2^63 or more |
| Server.BackupServer.Check | src/network/BackupServer.cpp:231-238 | decoding, decompression with the announced size, digest against the header and the object lookup, in this order, each with the kind of its failure |
| Server.HonestPut | src/network/BackupServer.cpp:230-255 | the request that the client builds for a chunk is accepted in every state of the protocol and stores and indexes that chunk |
| AnyPut.PutExactly | src/network/BackupServer.cpp:230-255 | for any packet and any disk, damaged or not, if the request is readable, its chunk decompresses to the announced size and the digest in the header, and the object is absent or reads back with that size: the object is in the store afterwards, written only if it was absent; if the index is readable and has no other digest for the chunk, the request is acknowledged and the index has gained this record, unless it had one of the chunk; otherwise it is refused and the object stays; nothing else changes |
| AnyPut.OthersChangeNothing | src/network/BackupServer.cpp:230-255 | any other put request changes nothing and is not acknowledged |
| AnyPut.StoredIff | src/network/BackupServer.cpp:230-255 | exactly which put requests are acknowledged |
| AnyPut.AcceptedIff | src/network/BackupServer.cpp:231-240 | the conditions on request, chunk, digest and object alone |
| AnyPut.AppendIff | src/network/SessionIndex.cpp:60-90 | a record can be appended iff no record of its index, or the last one, has its digest; a known one is dropped |
| AnyPut.AnyPutKeepsObjects | src/network/BackupServer.cpp:230-255 | no put, whoever sends it, damages an object: intact ones stay intact, and none is removed or replaced |
| AnyPut.AnyPutKeepsDigests | src/network/BackupServer.cpp:230-255 | no put changes the digest that a session has for an index |
| AnyPut.StoredIsThere | src/network/BackupServer.cpp:230-255 | after an acknowledged put the object reads back as the chunk, and the session has its digest for the index |
| Server.BackupServer.HandleQuery | src/network/BackupServer.cpp:217-228 | the status lists the received chunks in ascending order, or an error is sent if it would exceed the packet limit |
| AnyPut.QueryExactly | src/network/BackupServer.cpp:217-228 | for any query in any repository: an unreadable query or index is refused; otherwise the status has one line for every index with records, in ascending order, with the digest of its last record, and is sent iff it has at most 8 MiB |
| Server.BackupServer.HandleCommit | src/network/BackupServer.cpp:257-278 | acknowledges iff all chunks of the session are there; then a new version is committed that records the source as a local fixed-size backup does, with exactly the log entries of its writes; otherwise only the log grows, by one record; an unreadable request changes nothing on disk and is refused, or ends the server process |
| Server.BackupServer.HandlePacket | src/network/BackupServer.cpp:211-281 | for every packet type: a greeting is answered, a query as QueryOutcome says, a put as PutOutcome says (from the repository's client: acknowledged, and the two steps of the protocol); a commit is acknowledged iff the session is complete and has then committed what a local backup records, with exactly its log entries, is otherwise refused with only the log grown, and if unreadable changes nothing on disk and is refused or ends the server; all other types are refused; nothing but puts and commits changes the repository |
| Server.StatusSurvives | src/network/BackupServer.cpp:221-226 | the client's map of received chunks is the server's |
| Client.BackupClient.Upload | src/network/BackupClient.cpp:119-185 | from any state of the session: how it ends is decided before it starts, by the received chunks and the packet sizes; it completes iff it is not told to stop and the question, its answer, every missing chunk and the commit fit into packets, and has then committed a version equal to a local fixed-size backup of the source; a stopped upload has added exactly the requested number of chunks and changed no version or other session; every request goes through the packet dispatcher of the server |
| Client.BackupClient.Query | src/network/BackupClient.cpp:136-141 | there is an answer iff the question and the status lines of the received chunks fit into packets; it is the map of the session's records |
| Client.QueryAnsweredIff | src/network/BackupServer.cpp:217-228 | in every reachable state a session can be queried iff the lines of its received chunks fit into a packet |
| Client.BackupClient.SendChunk | src/network/BackupClient.cpp:150-162 | a chunk is acknowledged iff its request fits into a packet, and is then the only one added to its session |
| Client.BackupClient.SendMissing | src/network/BackupClient.cpp:144-167 | sends what the server does not have, in order: all of it, or up to the requested number, or up to the first request that is too large |
| Client.ReceivedBounded | src/network/BackupClient.cpp:144-167 | a session never has more chunks than its source, so uploads that stop after one or more chunks end after finitely many resumptions |
| Client.AppendedReads | src/network/SessionIndex.cpp:60-90 | an acknowledged chunk is one more record at the end of its index, unless the index had it |
| ResumeLimit.AlwaysCompletesIff | src/network/BackupClient.cpp:136-183 | an upload of a session completes in every reachable state iff its source has at most 118051 chunks and its question, its commit and each of its chunks fit into packets |
| ResumeLimit.ResumableIff | src/network/BackupServer.cpp:217-228 | the server can be asked about a session in every reachable state iff its source has at most 118051 chunks |
| ResumeLimit.ResumeFails | src/network/BackupClient.cpp:136-141 | a run for every larger number of chunks: an upload that would have completed is stopped behind 118052 chunks and can then neither complete nor be stopped again |
| ResumeLimit.ReceiveChunks | src/network/BackupClient.cpp:144-167 | a run in which exactly the first chunks of a session arrive |
| PacketSizes.StatusSizeExact | src/network/BackupServer.cpp:221-226 | the size of a status depends only on which chunks it lists: 22 bytes, and for each chunk 66 and the digits of its index |
| PacketSizes.FirstChunksFitIff | src/network/BackupServer.cpp:221-227 | the status of the first n chunks fits into a packet iff n is at most 118051 |
| PacketSizes.StatusFitsBounds | src/network/BackupServer.cpp:221-227 | more than 118051 chunks never fit, whichever they are; chunks with smaller indexes always do |
| PacketSizes.PutSizeExact | src/network/BackupClient.cpp:100-115 | the exact size of a put request |
| Payloads.PutSurvivesIff | src/network/BackupServer.cpp:116-138 | the server recovers every field and the compressed bytes, blank lines in them included, exactly when session id and path are not empty |
| Payloads.SeparatorFound | src/network/BackupServer.cpp:117-122 | whatever follows, the first blank line is the one behind the header |
| Payloads.RequestReadsBack | src/network/BackupServer.cpp:72-86 | every field of a printed request is found again |
| Payloads.ParsePutPayload | src/network/BackupServer.cpp:116-138 | searches the separator, reads the fields in order and checks the compressed size; tells the two kinds of failure apart |
| RequestLaw.PutIff | src/network/BackupServer.cpp:116-138 | for any bytes: a put request is read exactly as the last values behind its eight keys before the first blank line, numbers below 2^64 at the start of their values, the mode cut to 32 bits, and the bytes behind the blank line, as many as announced |
| Payloads.PutUncaughtIff | src/network/BackupServer.cpp:88-138 | for any bytes: reading a put request throws an exception that the server does not catch iff there is a header and its first unreadable field, in the order of reading, is a number field that is there |
| Payloads.CommitUncaughtIff | src/network/BackupServer.cpp:257-260 | the same for commit requests |
| Payloads.UnreadableFileSize | src/network/BackupServer.cpp:88-94 | such put requests: any session, path and payload with a file size that is no number below 2^64, like x or 2^64 |
| Payloads.UnreadableTotal | src/network/BackupServer.cpp:257-260 | such commit requests |
| Payloads.MakePutPayload | src/network/BackupClient.cpp:100-115 | writes the header field by field and then the compressed bytes |
| Payloads.ParseStatusText | src/network/BackupClient.cpp:80-98 | reads index and digest pairs until either is missing |
| Payloads.StatusReadsBack | src/network/BackupClient.cpp:80-98 | a status text is read as the map of its lines |
| RequestLaw.StatusIff | src/network/BackupClient.cpp:80-98 | for any text: the client reads the last digest of every index, from as many pairs of number and word as there are |
| Payloads.CommitReadsBack | src/network/BackupServer.cpp:257-260 | session id and total of a commit request are read back |
| RequestLaw.CommitIff | src/network/BackupServer.cpp:257-260 | for any bytes: what a commit request is read as |
| Payloads.QueryReadsBack | src/network/BackupServer.cpp:217-219 | the session id of a query is read back |
| RequestLaw.QueryIff | src/network/BackupServer.cpp:217-219 | for any bytes: what a query is read as |
| ThreadPool.EveryTaskRunOnce | src/concurrency/ThreadPool.cpp:27-45 | when shutdown has joined the workers, the tasks run are as a multiset the tasks accepted, for every interleaving |
| ThreadPool.FirstInFirstOut | include/dpc/concurrency/BoundedQueue.hpp:15-36 | in every state the accepted tasks are the dequeued ones followed by the queue |
| ThreadPool.NoPushAfterShutdown | include/dpc/concurrency/BoundedQueue.hpp:15-24 | from the state in which the flag is set, no push succeeds any more |
| ThreadPool.NoLostWakeups | include/dpc/concurrency/BoundedQueue.hpp:15-45 | the queue never exceeds its capacity; items are attended by woken workers while a worker sleeps; free slots by woken producers while a producer sleeps and no shutdown has begun; a sleeper under shutdown has its notify_all still to come |
| ThreadPool.AcceptedWhileBelowCapacity | include/dpc/concurrency/BoundedQueue.hpp:13-24 | in every state of every run there are as many workers as asked for, at least one; a push that looks at the queue is accepted iff the queue is open and holds fewer items than asked for, at least one, and waits iff it is open and full |
| ThreadPool.QueueFills | include/dpc/concurrency/BoundedQueue.hpp:13-24 | and so many items, in any order of values, can be waiting at once |
| ThreadPool.SlotsAttendedExactly | include/dpc/concurrency/BoundedQueue.hpp:38-45 | the claim about free slots holds in a stage of the shutdown iff it is not one of the two between setting the flag and the second notify_all |
| ThreadPool.SlotLeftBehind | include/dpc/concurrency/BoundedQueue.hpp:38-45 | a run in which the woken producer finds the flag set and leaves a free slot beside a sleeping producer |
| ThreadPool.StepDrains | src/concurrency/ThreadPool.cpp:27-45 | under shutdown every step of any thread, spurious wake-ups included, decreases a measure |
| ThreadPool.NeverStuck | src/concurrency/ThreadPool.cpp:27-45 | under shutdown some thread can always go on until the workers are joined |
| ThreadPool.ShutdownDrains | src/concurrency/ThreadPool.cpp:27-45 | after the flag is set a run has at most as many steps left as the measure says, and where it cannot go on the workers are joined |
| ThreadPool.StepKeeps | include/dpc/concurrency/BoundedQueue.hpp:15-45 | the invariant behind these claims is kept by every step of every thread |
| ThreadPool.ThreadPool.PushOnce | include/dpc/concurrency/BoundedQueue.hpp:15-24 | what push does each time it holds the mutex is one step: it pushes and notifies one worker, is refused, or sleeps |
| ThreadPool.ThreadPool.PopOnce | include/dpc/concurrency/BoundedQueue.hpp:26-36 | what pop does each time it holds the mutex is one step: it hands out the oldest item and notifies one producer, ends the worker, or sleeps |
| ThreadPool.ThreadPool.Submit | src/concurrency/ThreadPool.cpp:20-25 | goes on to push only while the pool is not stopped |
| ThreadPool.ThreadPool.BeginShutdown | src/concurrency/ThreadPool.cpp:27-31 | only the first call wins |
| ThreadPool.ThreadPool.NotifyAll | include/dpc/concurrency/BoundedQueue.hpp:43-44 | wakes all sleeping workers, then all sleeping producers |
| ThreadPool.ThreadPool.JoinWorkers | src/concurrency/ThreadPool.cpp:33-37 | joins iff every worker has left its loop |
| BoundedQueue.BoundedQueue.PushLocked | include/dpc/concurrency/BoundedQueue.hpp:15-24 | refuses after shutdown, waits when full, appends otherwise |
| BoundedQueue.BoundedQueue.PopLocked | include/dpc/concurrency/BoundedQueue.hpp:26-36 | hands out the oldest item even after shutdown, ends when drained, waits when empty |
| Crc32.FourByteBurstDetected | src/metadata/WalLog.cpp:111-121 | CRC-32 (RFC 1952, section 8) differs for inputs of equal length that differ only within four consecutive bytes |
| CrcLaw.ChecksumIsRemainder | src/metadata/WalLog.cpp:111-121 | for all bytes: the complement of the checksum is the remainder of the message, the lowest bit of every byte first, with 32 zeros behind it and its first 32 bits complemented, divided by the generator with the exponents 32, 26, 23, 22, 16, 12, 11, 10, 8, 7, 5, 4, 2, 1, 0 (section 8 of RFC 1952) |
| CrcLaw.RemainderIff | src/metadata/WalLog.cpp:111-121 | a message has exactly one remainder, the one that long division computes |
| CrcLaw.CheckValue | src/metadata/WalLog.cpp:111-121 | the checksum of the digits 1 to 9 is 0xcbf43926 |
| Crc32.Crc32 | src/metadata/WalLog.cpp:111-121 | the bit loop computes the CRC |
| WalLog.DecodeIsInverseOfEncode | src/metadata/WalLog.cpp:123-169 | decoding gives a record iff the bytes are the encoding of that encodable record |
| ByteLayouts.LogRecordIff | src/metadata/WalLog.cpp:123-169 | a record is decoded from exactly these bytes: the magic number, version 1, the type from 1 to 7 and the size of at most 8 MiB with the lowest byte first, four bytes whose bits are the checksum of the payload by polynomial division, and the payload |
| WalLog.ReadAllIsExact | src/metadata/WalLog.cpp:76-100 | reading gives these records iff the bytes are the concatenation of their encodings and all are encodable |
| WalLog.TornLog | src/metadata/WalLog.cpp:76-100 | a log cut after any number of bytes is rejected, or the cut is between two records and the records before it are read |
| WalLog.DamagedLogRejected | src/metadata/WalLog.cpp:160-167 | damage within four consecutive bytes of a payload anywhere in a log makes reading fail with a checksum error |
| WalLog.PayloadDamageRejected | src/metadata/WalLog.cpp:160-167 | the same for one record |
| WalLog.EncodeRecord | src/metadata/WalLog.cpp:123-138 | encodes iff the type is valid and the payload is within the limit |
| WalLog.Log.Append | src/metadata/WalLog.cpp:61-74 | adds the encoding of one record at the end, or nothing |
| WalLog.Log.ReadAll | src/metadata/WalLog.cpp:76-100 | the offset loop computes Read on every file content |
| WalLog.Log.ReplaceWith | src/metadata/WalLog.cpp:102-109 | the file becomes the encodings of the records, or stays if one of them cannot be encoded |
| PacketCodec.DecodeIsInverseOfEncode | src/network/PacketCodec.cpp:93-159 | a frame decodes to a packet iff it is the encoding of that encodable packet |
| ByteLayouts.PacketIff | src/network/PacketCodec.cpp:93-159 | a packet is decoded from exactly these bytes: the magic number, version 1, the type from 1 to 8, session hash, chunk index and a size of at most 8 MiB with the highest byte first, the checksum by polynomial division of the header with zeros in its place, 32 bytes of digest, and the payload |
| PacketCodec.PacketsArrive | src/network/PacketCodec.cpp:161-174 | for any fragmentation, the packets of concatenated frames are handled in order, all of them up to the end of the stream (closed or broken), or up to and including the first whose handling throws |
| PacketCodec.HeaderBurstRejected | src/network/PacketCodec.cpp:132-174 | after a change within four consecutive header bytes outside the checksum field no packet is read, whatever bytes follow and however many the size field now asks for |
| PacketCodec.HeaderByteChangeRejected | src/network/PacketCodec.cpp:132-174 | the same for a change of any one header byte, the size included |
| PacketCodec.CrcFieldDamageRejected | src/network/PacketCodec.cpp:147-174 | the same for any change of the checksum field alone |
| PacketCodec.EncodePacket | src/network/PacketCodec.cpp:93-119 | encodes iff the type is valid and the payload within the limit |
| PacketCodec.DecodeFrame | src/network/PacketCodec.cpp:121-159 | computes Decode on every byte string |
| PacketCodec.ZeroHeaderCrc | src/network/PacketCodec.cpp:70-74 | zeroes bytes 28 to 31 and nothing else |
| PacketCodec.Socket.ReadExact | src/network/PacketCodec.cpp:53-68 | returns exactly the next bytes whatever the sizes of the single reads and the interruptions, or fails where the stream ends, in one way if the peer has closed and in another if the connection has broken |
| PacketCodec.Socket.ReadPacket | src/network/PacketCodec.cpp:161-174 | returns the next frame's packet and consumes exactly that frame |
| PacketCodec.Socket.ReceiveAll | src/network/BackupServer.cpp:196-209 | handles packet after packet up to the first that cannot be read or whose handling throws |
| Manifest.ParseIsInverseOfSerialize | src/core/ManifestStore.cpp:180-298 | a manifest survives printing and parsing iff it is well formed |
| Manifest.ParsedWellFormed | src/core/ManifestStore.cpp:206-298 | every accepted text parses to a well-formed manifest |
| Manifest.ParseSerializeParse | src/core/ManifestStore.cpp:180-298 | printing what was parsed loses nothing, for every accepted text |
| ManifestLaw.ParseIff | src/core/ManifestStore.cpp:206-298 | a text is accepted as a manifest exactly if its lines say so: header, seven keys with one value each, for every file a FILE line, its announced number of CHUNK lines and END_FILE, and END as the last line; numbers are digits below their limits, digests 64 hex digits, paths hex texts of safe paths, words separated by any blanks, lines ended by LF or CR LF |
| Formats.HeadWritten | src/core/ManifestStore.cpp:180-190 | the first eight lines of a manifest, spelled out |
| Manifest.SerializeManifest | src/core/ManifestStore.cpp:180-204 | the loops print the manifest text |
| Manifest.ParseManifest | src/core/ManifestStore.cpp:206-298 | the parser loop accepts and rejects exactly as Parse does, on every text |
| Text.HexRoundTrip | src/core/ManifestStore.cpp:144-178 | decoding the hex form of a string gives the string |
| TextLaw.HexDecodeIff | src/core/ManifestStore.cpp:156-178 | a text is decoded to a string iff it spells it, two hex digits of either case for every octet |
| TextLaw.HexEncodeIff | src/core/ManifestStore.cpp:144-154 | the hex form of a string is its spelling in lower-case digits |
| Text.HexDecodeString | src/core/ManifestStore.cpp:156-178 | computes HexDecode on every string, odd lengths and wrong digits included |
| Text.HexEncodeString | src/core/ManifestStore.cpp:144-154 | computes HexEncode |
| Text.LinesOfUnlines | src/core/ManifestStore.cpp:23-34 | splitting joined lines gives the lines |
| TextLaw.LinesIff | src/core/ManifestStore.cpp:23-34 | splitting any text gives these lines iff it consists of them, each ended by LF or CR LF, the last perhaps by the end of the text |
| Text.DecimalRoundTrip | src/core/ManifestStore.cpp:36-54 | a printed number has only digits and reads as itself |
| TextLaw.DecimalIff | src/core/ManifestStore.cpp:36-54 | a number is printed as the digits that denote it without leading zeros |
| TextLaw.ReadNumberIff | src/network/BackupServer.cpp:88-94 | formatted input of any text as an unsigned number: blanks, a sign or none, digits that denote a number below the limit; a minus wraps around |
| TextLaw.WordsIff | src/network/BackupServer.cpp:72-86 | the words of any text: blanks before, between and behind them and nothing else |
| TextLaw.LessTextIff | src/network/SessionIndex.cpp:110-112 | names are ordered by the first character that differs, a proper prefix first |
| Sorting.SortPermutes | src/network/SessionIndex.cpp:133-137 | sorting gives the same elements, each as often as before, in ascending order |
| Paths.MarkerNameReadsBack | src/core/ManifestStore.cpp:79-81 | the marker name of a version reads back as the version below 1000000 and is skipped from there on |
| Paths.TempNameSkipped | include/dpc/common/FileUtils.hpp:112-116 | no left-over temporary name is read as a marker |
| Paths.ListingIsExact | src/core/ManifestStore.cpp:91-113 | for any set of names a repository produces: the listing succeeds and is the ascending versions with a marker below 1000000 |
| FileLaw.ListingIff | src/core/ManifestStore.cpp:91-113 | the listing of any directory: it fails iff some name has the shape of a marker with something else than digits for the version; otherwise it is the ascending sequence of the versions that have a marker |
| Formats.VersionNameIff | src/core/ManifestStore.cpp:17-21 | the names of a version's files: the prefix, the digits that denote it, six of them or more without leading zeros, and the suffix of the kind |
| Paths.ListDirectory | src/core/ManifestStore.cpp:91-113 | the loop computes the listing of any names, with refused digits reported |
| Paths.NamesDiffer | src/core/ManifestStore.cpp:67-81 | manifest, staged manifest and marker names of all versions are distinct |
| Paths.PlainPathKept | include/dpc/common/FileUtils.hpp:170-191 | a path of names between single slashes is accepted and keeps its parts |
| Paths.DifferentPathsDifferentParts | include/dpc/common/FileUtils.hpp:170-191 | different paths have different parts |
| Paths.SafeIffBelowRoot | include/dpc/common/FileUtils.hpp:170-191 | a path is accepted iff it is relative, free of null bytes, and walking it from the root never rises above the root and does not end there; it is then the place where the walk ends |
| Paths.EndsInNameIff | include/dpc/common/FileUtils.hpp:170-191 | normalisation leaves no slash at the end iff what stands behind the last slash of the path is a name other than one or two dots |
| ObjectStore.RestoreIffVerify | src/core/VerifyEngine.cpp:15-37 | for every manifest, store and target directory: restoring succeeds iff every file verifies and the paths fit: each is safe, ends in a name and is free in the directory, and none is a directory of another |
| ObjectStore.ClashingPaths | src/core/RestoreEngine.cpp:35-38 | a manifest with a file a and a file a/b, in either order, parses and verifies and cannot be restored anywhere |
| ObjectStore.SlashAtTheEnd | src/core/RestoreEngine.cpp:35-38 | so does one with a file a/ |
| FileTree.WriteFileIff | include/dpc/common/FileUtils.hpp:118-136 | writing a file into a tree succeeds iff its path ends in a name, is no directory and has no file above it; it then adds the file and the directories above |
| ObjectStore.FileVerifiesIffRestores | src/core/VerifyEngine.cpp:16-36 | a file verifies iff the content checks of its restore pass |
| ObjectStore.ContentIff | src/core/RestoreEngine.cpp:18-34 | for every store, damaged or not: a file has contents to restore iff each chunk's object is at its own path and decompresses to its digest and size, and together they have the file's size and digest; the contents are theirs, joined |
| ObjectStore.RestoreIffIntact | src/core/RestoreEngine.cpp:17-39 | restoring succeeds iff all files are intact and all paths fit, and has then written exactly the last file of every target path and the directories above |
| ObjectStore.RestoreStops | src/core/RestoreEngine.cpp:17-39 | a restore that fails has written the files before the first that cannot be restored as if they were all, and for that one made at most the directories of its path |
| ObjectStore.StreamIsAssembled | src/core/VerifyEngine.cpp:27-33 | the streamed size and contents are those of the assembled bytes |
| ObjectStore.Restore | src/core/RestoreEngine.cpp:17-39 | writes the files in order into the target tree up to the first whose contents, path or place are wrong |
| ObjectStore.Verify | src/core/VerifyEngine.cpp:15-37 | passes iff every file verifies |
| ObjectStore.PutSucceeds | src/core/ObjectStore.cpp:41-66 | putting contents in play succeeds with the same answer whether or not the object was there, and keeps the store valid |
| ObjectStore.ObjectPathSafe | src/core/ObjectStore.cpp:21-33 | the path of a digest is a safe path below objects/ |
| ObjectStore.ObjectPathInjective | src/core/ObjectStore.cpp:21-24 | different digests have different paths |
| ObjectStore.Stats | src/core/ObjectStore.cpp:86-99 | counts the objects and adds up their sizes |
| Snapshot.RestoreEntries | src/core/RestoreEngine.cpp:17-39 | with all chunks stored, the manifest entries of a source restore into an empty directory as exactly the tree of the source |
| Snapshot.EntryWellFormed | src/core/BackupEngine.cpp:64-98 | the manifest entry of a valid file is well formed |
| Snapshot.EntryFields | src/core/BackupEngine.cpp:64-98 | the entry of a file has its path, size, mode and digest, and references numbered through that are intact in any store with the compressed pieces, with their compressed sizes |
| Chunkers.Resynchronise | src/core/ContentDefinedChunker.cpp:25-48 | if two inputs end alike and both have a cut where the common end begins, their chunks from there on are those of chunking the common end alone |
| Chunkers.AppendKeepsChunks | src/core/ContentDefinedChunker.cpp:25-48 | appending bytes changes no chunk but the last |
| Chunkers.ContentChunks | src/core/ContentDefinedChunker.cpp:18-50 | the rolling loop computes the content-defined pieces that CutLaw.CutsExactly describes, numbered from zero |
| CutLaw.CutsExactly | src/core/ContentDefinedChunker.cpp:18-50 | for all limits and contents: these are the chunks iff they join to the contents and are cut properly: none is empty or longer than the maximum; one that is not the last ends at the maximum, or where its size is at least the minimum and its rolling number a multiple of the average size, and no chunk goes on behind such a place |
| CutLaw.RollAllNumber | src/core/ContentDefinedChunker.cpp:29-32 | the rolling state is the rolling number, stated on natural numbers by doubling, halving and adding binary digits without carry |
| CutLaw.DefaultCutsExactly | include/dpc/core/ContentDefinedChunker.hpp:13-16 | the same for the limits of a backup: 16384, 65536 and 262144 bytes |
| CutLaw.CutBelowMaximum | src/core/ContentDefinedChunker.cpp:31-40 | contents whose first chunk ends below the maximum |
| Chunkers.ChunkSizes | src/core/ContentDefinedChunker.cpp:31-47 | every chunk but the last has at least the minimum, every chunk at most the maximum size |
| Chunkers.ContentPiecesJoin | src/core/ContentDefinedChunker.cpp:18-50 | the chunks join to the input |
| Chunkers.MakeParams | src/core/ContentDefinedChunker.cpp:10-16 | accepts iff the sizes are ordered and the average is a power of two; the mask is then the average less one |
| Chunkers.NoCommonBitIff | src/core/ContentDefinedChunker.cpp:15 | a number and its predecessor have no bit in common iff the number is a power of two |
| Chunkers.FixedChunks | src/core/FixedChunker.cpp:14-28 | the offset loop computes the fixed pieces; empty input is one empty chunk |
| Chunkers.FixedPiecesJoin | src/core/FixedChunker.cpp:14-28 | the chunks join to the input and none is larger than the chunk size |
| Chunkers.FixedExactly | src/core/FixedChunker.cpp:14-28 | for all contents: these are the pieces iff they join to the contents, all but the last have the chunk size, and the last is not larger, and not empty unless there are no contents |
| CutLaw.DefaultFixedExactly | include/dpc/core/FixedChunker.hpp:13 | the same for a backup: 65536 bytes |
| FileUtils.Directory.WriteAll | include/dpc/common/FileUtils.hpp:78-93 | writes all bytes through short writes and interruptions, or fails with a prefix written; no other file is touched |
| FileUtils.Directory.WriteFileAtomic | include/dpc/common/FileUtils.hpp:118-136 | at every moment all files but the temporary one are as before or the write is done; a write fails before the rename, with at most a part of the data in the temporary file, or behind it, with the file replaced |

## Left out

- SHA-256 and zstd themselves, and the retries with a growing buffer when the raw size is unknown: parameters of the model.
- Sockets, `accept`, address lookup, the accept loop, the command line, the benchmark, Docker files and scripts: input and output only.
- `FileScanner`, `Logger`, `sessionHash`, system calls for file modes, the clock: sources, modes and times are inputs.
- Power loss and directory durability: `fsync` may fail but has no effect in the model, because only processes crash.
- Limits of the operating system: full disks, exhausted memory, file names that are too long, missing permissions, read-only directories. The methods of `Repository` and `Server` do not see a write fail; in the machine a failing write is `Abort` after either half of it.
- Allocations that fail for lack of memory, and raw sizes in zstd frames: of the exceptions besides `DpcError`, only those of unreadable numbers and impossible vector sizes in requests are modelled.
- Restoring into a directory in which the name of a temporary file is taken, symbolic links and special files in it, and what a failed restore leaves in temporary files.
- Torn appends to a session index, and torn log appends inside the commit machine; torn logs are covered by `WalLog.TornLog` and by `Repository.Repository.Recover` on any log.
- Two version-allocating programs at the same time: the repository has no lock, and the model runs them one after the other.
- Clients other than the one in the repository: `Server.PutOutcome` describes the handler for any put request, but results about runs assume the repository's client.
- Temporary files that a crash leaves in `objects/` and `metadata/`: no reader opens them; `stats` would count those in `objects/`.
- Log header damage: the log's checksum covers only the payload. Damage to the payload of a packet: the packet's checksum covers only the header, and the digests of chunks are checked by the server.
- The texts of error messages; an error reply carries an empty text here.
- `std::sort` on equal chunk indexes and the order in which `std::map` iterates are those of a stable sort and of ascending keys.
- Repository.Repository.Create: the counters of chunks and files are unbounded numbers, since 2^64 of them cannot occur; the two byte totals are kept in 64 bits.
- ObjectStore.Stats: sums are unbounded, and the directory walk is an unordered enumeration of the objects.
- Server.BackupServer.HandleCommit: requires that a request names a known session and its true number of chunks, because with a smaller number the server commits a partial manifest.
- FileUtils.Directory.WriteAll: the number of interruptions by signals is finite, otherwise the loop need not end.
- PacketCodec.Socket.ReadExact: the number of interruptions by signals is finite, for the same reason.
- ThreadPool.ShutdownDrains: tasks are taken to end; a task that throws or never returns is not modelled.
