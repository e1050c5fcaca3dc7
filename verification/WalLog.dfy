/** The write-ahead log: record encoding, the log file, and what damage to it can do. */
module WalLog {
  import opened Wrappers
  import opened Slices
  import opened Bytes
  import opened Crc32

  const MAGIC: nat := 0x44505741
  const VERSION: nat := 1
  const HEADER_SIZE: nat := 16
  const MAX_PAYLOAD: nat := 8 * 1024 * 1024

  // Record types, as stored in the header.
  const BEGIN_BACKUP: nat := 1
  const PUT_OBJECT: nat := 2
  const WRITE_MANIFEST: nat := 3
  const RENAME_MANIFEST: nat := 4
  const COMMIT_BACKUP: nat := 5
  const CHECKPOINT: nat := 6
  const COMPACT: nat := 7

  datatype Record = Record(kind: nat, payload: Bytes)

  datatype WalError =
    | TooSmall | BadMagic | BadVersion | BadType | TooLarge | SizeMismatch | CrcMismatch
    | TruncatedHeader | TruncatedPayload

  predicate ValidType(kind: nat) {
    BEGIN_BACKUP <= kind <= COMPACT
  }

  predicate Encodable(r: Record) {
    ValidType(r.kind) && |r.payload| <= MAX_PAYLOAD
  }

  function Header(r: Record): (h: Bytes)
    ensures |h| == HEADER_SIZE
  {
    LittleEndian(MAGIC, 4) + LittleEndian(VERSION, 2) + LittleEndian(r.kind, 2)
    + LittleEndian(|r.payload|, 4) + WordBytes(Crc(r.payload))
  }

  function Encode(r: Record): Bytes {
    Header(r) + r.payload
  }

  function EncodeAll(rs: seq<Record>): Bytes {
    if rs == [] then [] else Encode(rs[0]) + EncodeAll(rs[1..])
  }

  ghost predicate AllEncodable(rs: seq<Record>) {
    forall r :: r in rs ==> Encodable(r)
  }

  function Decode(d: Bytes): Result<Record, WalError> {
    if |d| < HEADER_SIZE then Err(TooSmall)
    else
      var size := FromLittleEndian(d[8..12]);
      if FromLittleEndian(d[0..4]) != MAGIC then Err(BadMagic)
      else if FromLittleEndian(d[4..6]) != VERSION then Err(BadVersion)
      else if !ValidType(FromLittleEndian(d[6..8])) then Err(BadType)
      else if size > MAX_PAYLOAD then Err(TooLarge)
      else if |d| != HEADER_SIZE + size then Err(SizeMismatch)
      else if Crc(d[16..]) != Word(d[12..16]) then Err(CrcMismatch)
      else Ok(Record(FromLittleEndian(d[6..8]), d[16..]))
  }

  function Read(data: Bytes): Result<seq<Record>, WalError> {
    if data == [] then Ok([])
    else if |data| < HEADER_SIZE then Err(TruncatedHeader)
    else
      var size := FromLittleEndian(data[8..12]);
      if size > MAX_PAYLOAD then Err(TooLarge)
      else if |data| < HEADER_SIZE + size then Err(TruncatedPayload)
      else
        var r :- Decode(data[..HEADER_SIZE + size]);
        var rest :- Read(data[HEADER_SIZE + size..]);
        Ok([r] + rest)
  }

  method EncodeRecord(kind: nat, payload: Bytes) returns (result: Result<Bytes, WalError>)
    requires kind < U16
    ensures result.Ok? <==> Encodable(Record(kind, payload))
    ensures result.Ok? ==> result.value == Encode(Record(kind, payload))
  {
    if !ValidType(kind) {
      return Err(BadType);
    }
    if |payload| > MAX_PAYLOAD {
      return Err(TooLarge);
    }
    var out: Bytes := LittleEndian(MAGIC, 4);
    out := out + LittleEndian(VERSION, 2);
    out := out + LittleEndian(kind, 2);
    out := out + LittleEndian(|payload|, 4);
    var crc := Crc32.Crc32(payload);
    out := out + WordBytes(crc);
    out := out + payload;
    return Ok(out);
  }

  class Log {
    /** The bytes of wal.log; `None` while the file does not exist. */
    var file: Option<Bytes>

    function Data(): Bytes
      reads this
    {
      if file.Some? then file.value else []
    }

    constructor ()
      ensures file == None && Data() == []
    {
      file := None;
    }

    /** The log of a repository that may have been used before. */
    constructor Open(file: Option<Bytes>)
      ensures this.file == file
    {
      this.file := file;
    }

    method Append(kind: nat, payload: Bytes) returns (result: Result<(), WalError>)
      requires kind < U16
      modifies this
      ensures result.Ok? <==> Encodable(Record(kind, payload))
      ensures Data() == old(Data()) + if result.Ok? then Encode(Record(kind, payload)) else []
    {
      var encoded := EncodeRecord(kind, payload);
      if encoded.Err? {
        return Err(encoded.error);
      }
      file := Some(Data() + encoded.value);
      return Ok(());
    }

    method ReadAll() returns (result: Result<seq<Record>, WalError>)
      ensures result == Read(Data())
    {
      hide Decode;
      var records: seq<Record> := [];
      if file.None? {
        return Ok(records);
      }
      var data := file.value;
      var offset := 0;
      assert data[0..] == data;
      PrependNothing(Read(data));
      while offset < |data|
        invariant 0 <= offset <= |data|
        invariant Read(data) == Prepend(records, Read(data[offset..]))
      {
        ghost var here := data[offset..];
        if |data| - offset < HEADER_SIZE {
          return Err(TruncatedHeader);
        }
        var size := FromLittleEndian(data[offset + 8..offset + 12]);
        SliceOfSuffix(data, offset, 8, 12);
        if size > MAX_PAYLOAD {
          return Err(TooLarge);
        }
        var recordSize := HEADER_SIZE + size;
        if |data| - offset < recordSize {
          return Err(TruncatedPayload);
        }
        var encoded := data[offset..offset + recordSize];
        SliceOfSuffix(data, offset, 0, recordSize);
        SuffixOfSuffix(data, offset, recordSize);
        var decoded := Decode(encoded);
        if decoded.Err? {
          return Err(decoded.error);
        }
        PrependConcat(records, [decoded.value], Read(here[recordSize..]));
        records := records + [decoded.value];
        offset := offset + recordSize;
      }
      assert records + [] == records;
      return Ok(records);
    }

    /** Writes the new log beside the old one and renames it into place. */
    method ReplaceWith(records: seq<Record>) returns (result: Result<(), WalError>)
      requires forall r :: r in records ==> r.kind < U16
      modifies this
      ensures result.Ok? <==> AllEncodable(records)
      ensures Data() == if result.Ok? then EncodeAll(records) else old(Data())
    {
      hide Encode;
      var data: Bytes := [];
      for i := 0 to |records|
        invariant AllEncodable(records[..i]) && file == old(file)
        invariant data + EncodeAll(records[i..]) == EncodeAll(records)
      {
        assert records[i] in records;
        var encoded := EncodeRecord(records[i].kind, records[i].payload);
        if encoded.Err? {
          return Err(encoded.error);
        }
        assert records[i..][1..] == records[i + 1..];
        data := data + encoded.value;
      }
      assert records[..|records|] == records;
      file := Some(data);
      return Ok(());
    }
  }

  ghost function Prepend(done: seq<Record>, rest: Result<seq<Record>, WalError>): Result<seq<Record>, WalError> {
    if rest.Ok? then Ok(done + rest.value) else rest
  }

  lemma PrependConcat(done: seq<Record>, more: seq<Record>, rest: Result<seq<Record>, WalError>)
    ensures Prepend(done, Prepend(more, rest)) == Prepend(done + more, rest)
  {
    if rest.Ok? {
      assert done + (more + rest.value) == done + more + rest.value;
    }
  }

  lemma PrependNothing(rest: Result<seq<Record>, WalError>)
    ensures Prepend([], rest) == rest
  {
    if rest.Ok? {
      assert [] + rest.value == rest.value;
    }
  }

  // One record: decoding is the exact partial inverse of encoding.

  lemma HeaderFields(r: Record, d: Bytes)
    requires Encodable(r) && HEADER_SIZE <= |d| && d[..HEADER_SIZE] == Header(r)
    ensures FromLittleEndian(d[0..4]) == MAGIC
    ensures FromLittleEndian(d[4..6]) == VERSION
    ensures FromLittleEndian(d[6..8]) == r.kind
    ensures FromLittleEndian(d[8..12]) == |r.payload|
    ensures Word(d[12..16]) == Crc(r.payload)
  {
    hide Crc, Word, WordBytes, FromLittleEndian, LittleEndian;
    var h := d[..HEADER_SIZE];
    Widths();
    LittleEndianRoundTrip(MAGIC, 4);
    LittleEndianRoundTrip(VERSION, 2);
    LittleEndianRoundTrip(r.kind, 2);
    LittleEndianRoundTrip(|r.payload|, 4);
    WordRoundTrip(Crc(r.payload));
    assert d[0..4] == h[0..4] == LittleEndian(MAGIC, 4);
    assert d[4..6] == h[4..6] == LittleEndian(VERSION, 2);
    assert d[6..8] == h[6..8] == LittleEndian(r.kind, 2);
    assert d[8..12] == h[8..12] == LittleEndian(|r.payload|, 4);
    assert d[12..16] == h[12..16] == WordBytes(Crc(r.payload));
  }

  lemma DecodeEncode(r: Record)
    requires Encodable(r)
    ensures Decode(Encode(r)) == Ok(r)
  {
    hide Header, Crc, Word;
    var d := Encode(r);
    assert d[..HEADER_SIZE] == Header(r) && d[HEADER_SIZE..] == r.payload;
    HeaderFields(r, d);
  }

  lemma EncodeDecode(d: Bytes, r: Record)
    requires Decode(d) == Ok(r)
    ensures Encodable(r) && Encode(r) == d
  {
    hide Crc, Word, WordBytes, FromLittleEndian, LittleEndian;
    LittleEndianOnto(d[0..4]);
    LittleEndianOnto(d[4..6]);
    LittleEndianOnto(d[6..8]);
    LittleEndianOnto(d[8..12]);
    WordOnto(d[12..16]);
    assert d == d[0..4] + d[4..6] + d[6..8] + d[8..12] + d[12..16] + d[16..];
  }

  lemma DecodeIsInverseOfEncode(d: Bytes, r: Record)
    ensures Decode(d) == Ok(r) <==> Encodable(r) && d == Encode(r)
  {
    hide Encode, Decode;
    if Encodable(r) {
      DecodeEncode(r);
    }
    if Decode(d) == Ok(r) {
      EncodeDecode(d, r);
    }
  }

  // The whole log.

  lemma ReadOneMore(r: Record, rest: Bytes)
    requires Encodable(r)
    ensures Read(Encode(r) + rest) == Prepend([r], Read(rest))
  {
    hide Header, Decode;
    var data := Encode(r) + rest;
    assert data[..HEADER_SIZE] == Header(r);
    HeaderFields(r, data);
    var size := |r.payload|;
    assert data[..HEADER_SIZE + size] == Encode(r);
    assert data[HEADER_SIZE + size..] == rest;
    assert data != [];
    DecodeIsInverseOfEncode(Encode(r), r);
  }

  lemma {:induction false} ReadBackAll(rs: seq<Record>, rest: Bytes)
    requires AllEncodable(rs)
    ensures Read(EncodeAll(rs) + rest) == Prepend(rs, Read(rest))
  {
    hide Encode, Read;
    if rs == [] {
      assert EncodeAll(rs) + rest == rest;
      PrependNothing(Read(rest));
    } else {
      assert EncodeAll(rs) + rest == Encode(rs[0]) + (EncodeAll(rs[1..]) + rest);
      ReadOneMore(rs[0], EncodeAll(rs[1..]) + rest);
      ReadBackAll(rs[1..], rest);
      PrependConcat([rs[0]], rs[1..], Read(rest));
      assert [rs[0]] + rs[1..] == rs;
    }
  }

  /** Accepted bytes are exactly the encodings of the records returned. */
  lemma {:induction false} ReadAllIsExact(data: Bytes, rs: seq<Record>)
    ensures Read(data) == Ok(rs) <==> AllEncodable(rs) && data == EncodeAll(rs)
  {
    hide Encode, Decode, EncodeAll;
    if AllEncodable(rs) {
      ReadBackAll(rs, []);
      assert EncodeAll(rs) + [] == EncodeAll(rs) && rs + [] == rs;
      assert Read([]) == Ok([]);
    }
    if Read(data) == Ok(rs) {
      AcceptedIsEncoded(data, rs);
    }
  }

  lemma {:induction false} AcceptedIsEncoded(data: Bytes, rs: seq<Record>)
    requires Read(data) == Ok(rs)
    ensures AllEncodable(rs) && data == EncodeAll(rs)
    decreases |data|
  {
    hide Encode, Decode;
    if data != [] {
      var end := HEADER_SIZE + FromLittleEndian(data[8..12]);
      var r := Decode(data[..end]).value;
      DecodeIsInverseOfEncode(data[..end], r);
      AcceptedIsEncoded(data[end..], rs[1..]);
      assert rs == [r] + rs[1..];
      assert data == data[..end] + data[end..];
    }
  }

  /**
   * A torn log, cut after any number of bytes, is rejected, or else it was cut between two records
   * and reads back as the records before the cut.
   */
  lemma TornLog(rs: seq<Record>, n: nat)
    requires AllEncodable(rs) && n <= |EncodeAll(rs)|
    ensures forall got :: Read(EncodeAll(rs)[..n]) == Ok(got) <==> RecordsBefore(rs, n, got)
  {
    hide Encode, Read, EncodeAll;
    forall got
      ensures Read(EncodeAll(rs)[..n]) == Ok(got) <==> RecordsBefore(rs, n, got)
    {
      ReadAllIsExact(EncodeAll(rs)[..n], got);
      if Read(EncodeAll(rs)[..n]) == Ok(got) {
        RecordsOfPrefix(got, rs);
      }
      if RecordsBefore(rs, n, got) {
        EncodeAllSplit(rs, |got|);
        assert got == rs[..|got|] && EncodeAll(rs)[..n] == EncodeAll(got);
      }
    }
  }

  /** The cut after `n` bytes falls right behind the records `got`, the first of `rs`. */
  ghost predicate RecordsBefore(rs: seq<Record>, n: nat, got: seq<Record>) {
    got <= rs && n == |EncodeAll(got)|
  }

  lemma {:induction false} EncodeAllSplit(rs: seq<Record>, k: nat)
    requires k <= |rs|
    ensures EncodeAll(rs) == EncodeAll(rs[..k]) + EncodeAll(rs[k..])
  {
    hide Encode;
    if k == 0 {
      assert rs[0..] == rs;
    } else {
      EncodeAllSplit(rs[1..], k - 1);
      assert rs[..k][1..] == rs[1..][..k - 1];
      assert rs[1..][k - 1..] == rs[k..];
    }
  }

  lemma {:induction false} RecordsOfPrefix(some: seq<Record>, all: seq<Record>)
    requires AllEncodable(some) && AllEncodable(all)
    requires EncodeAll(some) <= EncodeAll(all)
    ensures some <= all
  {
    hide Encode, Read, EncodeAll;
    if some != [] {
      var rest := EncodeAll(all)[|EncodeAll(some)|..];
      assert EncodeAll(some) + rest == EncodeAll(all);
      ReadBackAll(some, rest);
      ReadAllIsExact(EncodeAll(all), all);
    }
  }

  // Damage.

  /** A payload damaged within four consecutive bytes never passes for a record. */
  lemma PayloadDamageRejected(r: Record, damaged: Bytes, at: nat)
    requires Encodable(r) && DifferWithinWord(r.payload, damaged, at)
    ensures Decode(Header(r) + damaged) == Err(CrcMismatch)
  {
    var d := Header(r) + damaged;
    assert d[..HEADER_SIZE] == Header(r);
    HeaderFields(r, d);
    assert d[16..] == damaged;
    FourByteBurstDetected(r.payload, damaged, at);
  }

  /** ... and one such record makes the whole log unreadable, whatever follows it. */
  lemma {:induction false} DamagedLogRejected(before: seq<Record>, r: Record, damaged: Bytes, at: nat, after: Bytes)
    requires AllEncodable(before) && Encodable(r) && DifferWithinWord(r.payload, damaged, at)
    ensures Read(EncodeAll(before) + (Header(r) + damaged + after)) == Err(CrcMismatch)
  {
    var rest := Header(r) + damaged + after;
    var end := HEADER_SIZE + |damaged|;
    ReadBackAll(before, rest);
    assert rest[..HEADER_SIZE] == Header(r);
    HeaderFields(r, rest);
    assert rest[..end] == Header(r) + damaged;
    PayloadDamageRejected(r, damaged, at);
  }
}
