/** What any put request does to a repository and how any query is answered, whoever sent it and whatever it contains. */
module AnyPut {
  import opened Wrappers
  import opened Slices
  import opened Bytes
  import opened Text
  import opened Paths
  import opened Manifest
  import opened Sorting
  import opened ObjectStore
  import opened Snapshot
  import opened SessionIndex
  import opened Upload
  import opened Disk
  import opened Protocol
  import opened Safety
  import opened Payloads
  import opened PacketCodec
  import opened Server

  /** The request can be read, and its bytes are contents with the announced digest and size. */
  ghost predicate Genuine(c: Codec, packet: Packet, put: PutPayload, x: Bytes) {
    && ParsePut(packet.payload) == Ok(put) && put.rawSize < 0x8000_0000_0000_0000
    && c.decompress(put.compressed) == Some(x) && (put.rawSize == 0 || put.rawSize == |x|)
    && c.hash(x) == HexEncode(AsText(packet.sha))
  }

  /** An object of this digest is absent, or decompresses to contents of this digest and size. */
  ghost predicate StoreAgrees(c: Codec, objects: Objects, sha: string, size: nat) {
    sha in objects ==> exists y :: c.decompress(objects[sha]) == Some(y) && c.hash(y) == sha && |y| == size
  }

  /** The index can be read, and the last record of this chunk, if there is any, has this digest. */
  ghost predicate IndexAgrees(text: string, index: nat, sha: string) {
    ReadRecords(text).Some? && LastAgrees(ReadRecords(text).value, index, sha)
  }

  ghost predicate LastAgrees(records: seq<SessionIndex.Received>, index: nat, sha: string) {
    forall k :: 0 <= k < |records| && LastOfIndex(records, k) && records[k].globalIndex == index ==> records[k].sha256 == sha
  }

  ghost predicate Storable(c: Codec, d: Disk, packet: Packet, put: PutPayload, x: Bytes) {
    && Genuine(c, packet, put, x)
    && StoreAgrees(c, d.objects, c.hash(x), put.rawSize)
    && IndexAgrees(SessionText(d, put.sessionId), packet.chunkIndex, c.hash(x))
  }

  lemma AcceptedIff(c: Codec, objects: Objects, packet: Packet)
    requires c.Sound()
    ensures Accepted(c, objects, packet).Ok? <==>
      exists put, x :: Genuine(c, packet, put, x) && StoreAgrees(c, objects, c.hash(x), put.rawSize)
    ensures forall put, x :: Genuine(c, packet, put, x) && Accepted(c, objects, packet).Ok? ==>
      var (parsed, stored) := Accepted(c, objects, packet).value;
      && parsed == put && stored.sha256 == c.hash(x) && (stored.inserted <==> c.hash(x) !in objects)
      && stored.objectPath == ObjectPath(c.hash(x))
      && stored.compressedSize == |if stored.inserted then put.compressed else objects[c.hash(x)]|
  {
    hide ParsePut, HexEncode, AsText, ObjectPath, Sha256Hex;
    var put := ParsePut(packet.payload);
    if put.Ok? && c.decompress(put.value.compressed).Some? {
      var x := c.decompress(put.value.compressed).value;
      assert Sha256Hex(c.hash(x));
    }
  }

  lemma AppendIff(records: seq<SessionIndex.Received>, r: SessionIndex.Received)
    ensures Append(records, r).Ok? <==> LastAgrees(records, r.globalIndex, r.sha256)
  {
    hide ReceivedMap;
    forall k | 0 <= k < |records|
      ensures records[k].globalIndex in ReceivedMap(records)
      ensures LastOfIndex(records, k) ==> ReceivedMap(records)[records[k].globalIndex] == records[k].sha256
    {
      ReceivedIsLast(records, k);
    }
    if r.globalIndex in ReceivedMap(records) {
      var k := ReceivedHasRecord(records, r.globalIndex);
    }
  }

  /** Exactly which put requests are acknowledged. */
  lemma StoredIff(c: Codec, d: Disk, packet: Packet)
    requires c.Sound()
    ensures PutOutcome(c, d, packet).1 == STORED <==> exists put, x :: Storable(c, d, packet, put, x)
  {
    hide Accepted, Genuine, StoreAgrees, ReadRecords, Append, LastAgrees, SessionText, Appended, WithStored, RecordFor;
    AcceptedIff(c, d.objects, packet);
    if Accepted(c, d.objects, packet).Ok? {
      var put, x :| Genuine(c, packet, put, x) && StoreAgrees(c, d.objects, c.hash(x), put.rawSize);
      var stored := Accepted(c, d.objects, packet).value.1;
      var text := SessionText(d, put.sessionId);
      RecordParts(packet, put, stored);
      if ReadRecords(text).Some? {
        AppendIff(ReadRecords(text).value, RecordFor(packet, put, stored));
      }
      assert PutOutcome(c, d, packet).1 == STORED <==> Storable(c, d, packet, put, x);
      forall other, y | Genuine(c, packet, other, y)
        ensures other == put && y == x
      {
        GenuineUnique(c, packet, put, x, other, y);
      }
    }
  }

  lemma GenuineUnique(c: Codec, packet: Packet, put: PutPayload, x: Bytes, other: PutPayload, y: Bytes)
    requires Genuine(c, packet, put, x) && Genuine(c, packet, other, y)
    ensures put == other && x == y
  {
    hide ParsePut, HexEncode, AsText;
  }

  lemma RecordParts(packet: Packet, put: PutPayload, stored: PutResult)
    ensures RecordFor(packet, put, stored).globalIndex == packet.chunkIndex && RecordFor(packet, put, stored).sha256 == stored.sha256
  {
  }

  /** The record that an acknowledged request leaves in the index of its session. */
  ghost function ItsRecord(packet: Packet, put: PutPayload, sha: string, stored: Bytes): SessionIndex.Received
    requires Sha256Hex(sha)
  {
    SessionIndex.Received(packet.chunkIndex, sha, put.relativePath, put.fileSize, put.fileMode, put.fileSha256,
      put.chunkIndex, put.rawSize, |stored|, "objects/" + sha[..2] + "/" + sha + ".zst")
  }

  ghost predicate NoRecordOf(text: string, index: nat) {
    ReadRecords(text).Some? && forall r :: r in ReadRecords(text).value ==> r.globalIndex != index
  }

  /**
   * What a request does whose chunk the store takes: the object is there afterwards, and stays there if the index
   * does not agree, which is refused; otherwise the index has gained the record, unless it had one of this chunk.
   */
  ghost predicate PutDone(d: Disk, packet: Packet, put: PutPayload, sha: string, e: Disk, reply: Reply)
    requires Sha256Hex(sha)
  {
    var text := SessionText(d, put.sessionId);
    && e.objects == (if sha in d.objects then d.objects else d.objects[sha := put.compressed])
    && e == d.(objects := e.objects, sessions := e.sessions)
    && if IndexAgrees(text, packet.chunkIndex, sha) then
         && reply == Reply(5, "ok\n") && sha in e.objects
         && e.sessions == d.sessions[put.sessionId := text +
              if NoRecordOf(text, packet.chunkIndex) then LineText(SessionIndex.ChunkLine(ItsRecord(packet, put, sha, e.objects[sha]))) else ""]
       else
         reply.Reply? && reply.kind == 8 && e.sessions == d.sessions
  }

  /** Exactly what any request whose chunk the store takes does. */
  lemma PutExactly(c: Codec, d: Disk, packet: Packet, put: PutPayload, x: Bytes)
    requires c.Sound() && Genuine(c, packet, put, x) && StoreAgrees(c, d.objects, c.hash(x), put.rawSize)
    ensures var (e, reply) := PutOutcome(c, d, packet); Sha256Hex(c.hash(x)) && PutDone(d, packet, put, c.hash(x), e, reply)
  {
    hide Accepted, Genuine, StoreAgrees, ReadRecords, Append, LastAgrees, SessionText, LineText, ReceivedMap;
    AcceptedIff(c, d.objects, packet);
    var (parsed, stored) := Accepted(c, d.objects, packet).value;
    var text, record := SessionText(d, put.sessionId), RecordFor(packet, put, stored);
    assert Sha256Hex(c.hash(x));
    var after := WithStored(d, put, stored);
    assert record == ItsRecord(packet, put, c.hash(x), after.objects[c.hash(x)]);
    if ReadRecords(text).Some? {
      var records := ReadRecords(text).value;
      AppendIff(records, record);
      KnownIff(records, packet.chunkIndex);
      assert text + "" == text;
    }
  }

  lemma KnownIff(records: seq<SessionIndex.Received>, index: nat)
    ensures index in ReceivedMap(records) <==> exists r :: r in records && r.globalIndex == index
  {
    hide ReceivedMap;
    if index in ReceivedMap(records) {
      var k := ReceivedHasRecord(records, index);
      assert records[k] in records;
    }
    if r :| r in records && r.globalIndex == index {
      var k :| 0 <= k < |records| && records[k] == r;
      ReceivedIsLast(records, k);
    }
  }

  /** Any other request changes nothing. */
  lemma OthersChangeNothing(c: Codec, d: Disk, packet: Packet)
    requires c.Sound() && !exists put, x :: Genuine(c, packet, put, x) && StoreAgrees(c, d.objects, c.hash(x), put.rawSize)
    ensures PutOutcome(c, d, packet).0 == d && PutOutcome(c, d, packet).1 != STORED
  {
    hide Accepted, Genuine, StoreAgrees;
    AcceptedIff(c, d.objects, packet);
  }

  /** Every object decompresses to contents of its digest. */
  ghost predicate IntactObjects(c: Codec, objects: Objects) {
    forall sha :: sha in objects ==> IntactObject(c, sha, objects[sha])
  }

  ghost predicate IntactObject(c: Codec, sha: string, stored: Bytes) {
    exists x :: c.decompress(stored) == Some(x) && c.hash(x) == sha
  }

  /** Only objects are added, under their own digests. */
  ghost predicate OnlyAdds(c: Codec, before: Objects, after: Objects) {
    && (IntactObjects(c, before) ==> IntactObjects(c, after))
    && (forall sha :: sha in before ==> sha in after && after[sha] == before[sha])
  }

  lemma StoringOnlyAdds(c: Codec, d: Disk, put: PutPayload, x: Bytes, stored: PutResult)
    requires c.decompress(put.compressed) == Some(x) && stored.sha256 == c.hash(x)
    requires stored.inserted <==> c.hash(x) !in d.objects
    ensures OnlyAdds(c, d.objects, WithStored(d, put, stored).objects) && c.hash(x) in WithStored(d, put, stored).objects
  {
    hide IntactObject;
    ContentsAreIntact(c, put.compressed, x);
  }

  /**
   * No put request, whatever it contains, replaces an object, stores one under a digest that is not its own, or
   * touches anything but the objects and its own session. One that is not acknowledged leaves all sessions alone.
   */
  lemma AnyPutKeepsObjects(c: Codec, d: Disk, packet: Packet)
    requires c.Sound()
    ensures var (e, reply) := PutOutcome(c, d, packet);
            && OnlyAdds(c, d.objects, e.objects) && e == d.(objects := e.objects, sessions := e.sessions)
            && (reply != STORED ==> e.sessions == d.sessions)
  {
    hide Accepted, StoreAgrees, ReadRecords, Append, Appended, RecordFor, OnlyAdds, WithStored, Genuine;
    AcceptedIff(c, d.objects, packet);
    assert OnlyAdds(c, d.objects, d.objects) by { NothingAdded(c, d.objects); }
    if Accepted(c, d.objects, packet).Ok? {
      var put, x :| Genuine(c, packet, put, x) && StoreAgrees(c, d.objects, c.hash(x), put.rawSize);
      var stored := Accepted(c, d.objects, packet).value.1;
      GenuineContents(c, packet, put, x);
      StoringOnlyAdds(c, d, put, x, stored);
      StoringKeepsRest(d, put, stored);
    }
  }

  lemma NothingAdded(c: Codec, objects: Objects)
    ensures OnlyAdds(c, objects, objects)
  {
  }

  lemma GenuineContents(c: Codec, packet: Packet, put: PutPayload, x: Bytes)
    requires Genuine(c, packet, put, x)
    ensures c.decompress(put.compressed) == Some(x)
  {
  }

  lemma StoringKeepsRest(d: Disk, put: PutPayload, stored: PutResult)
    ensures WithStored(d, put, stored) == d.(objects := WithStored(d, put, stored).objects)
  {
  }

  /** An acknowledged request has its object in the store, and changes no other session. */
  lemma StoredIsThere(c: Codec, d: Disk, packet: Packet, put: PutPayload, x: Bytes, id: string)
    requires c.Sound() && Storable(c, d, packet, put, x)
    ensures var e := PutOutcome(c, d, packet).0;
            c.hash(x) in e.objects && (id != put.sessionId ==> SessionText(e, id) == SessionText(d, id))
  {
    hide Accepted, StoreAgrees, ReadRecords, Append, LastAgrees, Appended, RecordFor, Genuine, WithStored;
    AcceptedIff(c, d.objects, packet);
    StoredIff(c, d, packet);
    var stored := Accepted(c, d.objects, packet).value.1;
    GenuineContents(c, packet, put, x);
    StoringOnlyAdds(c, d, put, x, stored);
    StoringKeepsRest(d, put, stored);
  }

  lemma ContentsAreIntact(c: Codec, stored: Bytes, x: Bytes)
    requires c.decompress(stored) == Some(x)
    ensures IntactObject(c, c.hash(x), stored)
  {
  }

  // What an acknowledged request leaves in the index.

  /** The text of an index that has only ever been appended to, line by line. */
  ghost predicate IndexText(text: string) {
    exists lines :: AllReadable(lines) && text == TextOf(lines)
  }

  lemma {:induction false} NumbersInRange(fields: map<string, string>, key: string)
    ensures NumberOf(fields, key).Ok? ==> NumberOf(fields, key).value < U64
  {
    hide ReadNumber;
  }

  lemma ParsedPutInRange(b: Bytes)
    requires ParsePut(b).Ok?
    ensures var put := ParsePut(b).value;
            && put.fileSize < U64 && put.fileMode < U32 && put.chunkIndex < U64 && put.rawSize < U64
            && put.relativePath != "" && Octets(put.relativePath) && IsWord(put.fileSha256) && |put.compressed| <= |b|
  {
    hide Words, ReadFields, FindSeparator, AsText, NumberOf, HexDecode, IsWord, Octets;
    var i := FindSeparator(b).value;
    var text := AsText(b[..i]);
    var words := Words(text);
    ParsedIdsNotEmpty(b);
    WordsAreWords(text);
    assert forall w :: w in words[1..] ==> w in words;
    ValuesAreWords(words[1..], map[]);
    var fields := ReadFields(words[1..], map[]);
    NumbersInRange(fields, "file_size");
    NumbersInRange(fields, "chunk_index");
    NumbersInRange(fields, "raw_size");
    HexDecodesOctets(fields["relative_path_hex"]);
  }

  /**
   * What the index of the session says after an acknowledged request: the chunk has the digest of the contents
   * sent, and no other chunk's digest has changed. So the digest that is known of a chunk never changes.
   */
  lemma AnyPutKeepsDigests(c: Codec, d: Disk, packet: Packet, put: PutPayload, x: Bytes)
    requires c.Sound() && Storable(c, d, packet, put, x) && IndexText(SessionText(d, put.sessionId))
    requires packet.chunkIndex < U64 && |packet.payload| < U64 && forall sha :: sha in d.objects ==> |d.objects[sha]| < U64
    ensures var before, text := ReadRecords(SessionText(d, put.sessionId)), SessionText(PutOutcome(c, d, packet).0, put.sessionId);
            && before.Some? && IndexText(text) && ReadRecords(text).Some?
            && ReceivedMap(ReadRecords(text).value) == ReceivedMap(before.value)[packet.chunkIndex := c.hash(x)]
  {
    hide ParsePut, HexEncode, AsText, ReadRecords, TextOf, RecordsOf, ReceivedMap, LineText, Readable, StoreAgrees, Accepted,
         LastAgrees, ObjectPath, Octets, IsWord, Sha256Hex, Append;
    StoredIff(c, d, packet);
    AcceptedIff(c, d.objects, packet);
    var stored := Accepted(c, d.objects, packet).value.1;
    var text, r := SessionText(d, put.sessionId), RecordFor(packet, put, stored);
    var lines :| AllReadable(lines) && text == TextOf(lines);
    IndexReadsBack(lines);
    AppendIff(RecordsOf(lines), r);
    StoredReadable(c, d, packet, put, x);
    LineAdded(lines, r);
    IndexReadsBack(lines + [SessionIndex.ChunkLine(r)]);
    ReceivedAfter(RecordsOf(lines), r);
    assert SessionText(PutOutcome(c, d, packet).0, put.sessionId) == Appended(text, r);
  }

  lemma StoredReadable(c: Codec, d: Disk, packet: Packet, put: PutPayload, x: Bytes)
    requires c.Sound() && Genuine(c, packet, put, x) && Accepted(c, d.objects, packet).Ok?
    requires packet.chunkIndex < U64 && |packet.payload| < U64 && forall sha :: sha in d.objects ==> |d.objects[sha]| < U64
    ensures Readable(SessionIndex.ChunkLine(RecordFor(packet, put, Accepted(c, d.objects, packet).value.1)))
  {
    hide ParsePut, HexEncode, AsText, Accepted, ObjectPath, Octets, IsWord, Sha256Hex;
    AcceptedIff(c, d.objects, packet);
    if StoreAgrees(c, d.objects, c.hash(x), put.rawSize) {
    }
    ParsedPutInRange(packet.payload);
    DigestIsWord(c.hash(x));
    ObjectPathSafe(c.hash(x));
    SafeIsNotEmpty(ObjectPath(c.hash(x)));
  }

  lemma ReceivedAfter(records: seq<SessionIndex.Received>, r: SessionIndex.Received)
    ensures ReceivedMap(records + [r]) == ReceivedMap(records)[r.globalIndex := r.sha256]
    ensures r.globalIndex in ReceivedMap(records) && Append(records, r).Ok? ==>
      ReceivedMap(records)[r.globalIndex := r.sha256] == ReceivedMap(records)
  {
    assert (records + [r])[..|records|] == records;
  }

  // Queries.

  /** A status lists one line for every index with records, in ascending order, with the digest of its last record. */
  ghost predicate ListsLast(records: seq<SessionIndex.Received>, pairs: seq<(nat, string)>) {
    && (forall i, j :: 0 <= i < j < |pairs| ==> pairs[i].0 < pairs[j].0)
    && (forall k :: 0 <= k < |records| && LastOfIndex(records, k) ==> (records[k].globalIndex, records[k].sha256) in pairs)
    && (forall p :: p in pairs ==> exists k :: 0 <= k < |records| && LastOfIndex(records, k) && p == (records[k].globalIndex, records[k].sha256))
  }

  /** The answer to any query, in any repository. */
  ghost predicate QueryAnswered(d: Disk, payload: Bytes, reply: Reply) {
    var id := ParseQuery(payload);
    if id.Err? || ReadRecords(SessionText(d, id.value)).None? then reply.Reply? && reply.kind == 8
    else
      exists pairs :: ListsLast(ReadRecords(SessionText(d, id.value)).value, pairs)
        && if |MakeStatus(pairs)| <= 8_388_608 then reply == Reply(3, MakeStatus(pairs)) else reply.Reply? && reply.kind == 8
  }

  lemma QueryExactly(d: Disk, payload: Bytes)
    ensures QueryAnswered(d, payload, QueryOutcome(d, payload))
  {
    hide ReadRecords, MakeStatus, SessionText, ReceivedMap, StatusPairs, ListsLast;
    var id := ParseQuery(payload);
    if id.Ok? && ReadRecords(SessionText(d, id.value)).Some? {
      PairsAreLast(ReadRecords(SessionText(d, id.value)).value);
    }
  }

  lemma PairsAreLast(records: seq<SessionIndex.Received>)
    ensures ListsLast(records, StatusPairs(ReceivedMap(records)))
  {
    hide ReceivedMap, Ascending, LastOfIndex;
    var received := ReceivedMap(records);
    var keys, pairs := Ascending(received.Keys), StatusPairs(received);
    forall i | 0 <= i < |keys|
      ensures keys[i] in received && pairs[i] == (keys[i], received[keys[i]])
    {
      assert keys[i] in keys;
    }
    forall i, j | 0 <= i < j < |pairs|
      ensures pairs[i].0 < pairs[j].0
    {
      assert LessNat(keys[i], keys[j]);
    }
    forall k | 0 <= k < |records| && LastOfIndex(records, k)
      ensures (records[k].globalIndex, records[k].sha256) in pairs
    {
      ReceivedIsLast(records, k);
      var i :| 0 <= i < |keys| && keys[i] == records[k].globalIndex;
      assert pairs[i] in pairs;
    }
    forall p | p in pairs
      ensures exists k :: 0 <= k < |records| && LastOfIndex(records, k) && p == (records[k].globalIndex, records[k].sha256)
    {
      var i :| 0 <= i < |pairs| && pairs[i] == p;
      var k := ReceivedHasRecord(records, keys[i]);
      ReceivedIsLast(records, k);
    }
  }
}
