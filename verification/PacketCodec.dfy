/** Packets: the 64-byte header with its own CRC, and reading frames from a stream in fragments. */
module PacketCodec {
  import opened Wrappers
  import opened Slices
  import opened Bytes
  import opened Crc32

  const MAGIC: nat := 0x44504350
  const VERSION: nat := 1
  const HEADER_SIZE: nat := 64
  const MAX_PAYLOAD: nat := 8 * 1024 * 1024
  const FIRST_TYPE: nat := 1
  const LAST_TYPE: nat := 8

  datatype Packet = Packet(kind: nat, sessionHash: nat, chunkIndex: nat, sha: Bytes, payload: Bytes)

  datatype PacketError =
    | TooSmall | BadMagic | BadVersion | BadType | TooLarge | SizeMismatch | CrcMismatch | SocketClosed | ReadError

  predicate ValidType(kind: nat) {
    FIRST_TYPE <= kind <= LAST_TYPE
  }

  /** What the fields hold in their widths. */
  predicate InRange(p: Packet) {
    p.kind < U16 && p.sessionHash < U64 && p.chunkIndex < U64 && |p.sha| == 32
  }

  predicate Encodable(p: Packet) {
    InRange(p) && ValidType(p.kind) && |p.payload| <= MAX_PAYLOAD
  }

  function Fields(p: Packet): (h: Bytes)
    ensures |h| == 28
  {
    BigEndian(MAGIC, 4) + BigEndian(VERSION, 2) + BigEndian(p.kind, 2) + BigEndian(p.sessionHash, 8)
    + BigEndian(p.chunkIndex, 8) + BigEndian(|p.payload|, 4)
  }

  const ZEROS: Bytes := [0, 0, 0, 0]

  function HeaderCrc(p: Packet): bv32 {
    Crc(Fields(p) + ZEROS + p.sha)
  }

  function Header(p: Packet): (h: Bytes)
    ensures |h| == 32 + |p.sha|
  {
    Fields(p) + WordBytesBE(HeaderCrc(p)) + p.sha
  }

  function Encode(p: Packet): Bytes {
    Header(p) + p.payload
  }

  function EncodeAll(ps: seq<Packet>): Bytes {
    if ps == [] then [] else Encode(ps[0]) + EncodeAll(ps[1..])
  }

  ghost predicate AllEncodable(ps: seq<Packet>) {
    forall p :: p in ps ==> Encodable(p)
  }

  /** The header with its CRC field, bytes 28 to 31, set to zero. */
  function Zeroed(h: Bytes): (z: Bytes)
    requires |h| == HEADER_SIZE
    ensures |z| == HEADER_SIZE
  {
    h[..28] + ZEROS + h[32..]
  }

  function Decode(f: Bytes): Result<Packet, PacketError> {
    if |f| < HEADER_SIZE then Err(TooSmall)
    else
      var kind, size := FromBigEndian(f[6..8]), FromBigEndian(f[24..28]);
      if FromBigEndian(f[0..4]) != MAGIC then Err(BadMagic)
      else if FromBigEndian(f[4..6]) != VERSION then Err(BadVersion)
      else if !ValidType(kind) then Err(BadType)
      else if size > MAX_PAYLOAD then Err(TooLarge)
      else if |f| != HEADER_SIZE + size then Err(SizeMismatch)
      else if Crc(Zeroed(f[..HEADER_SIZE])) != WordBE(f[28..32]) then Err(CrcMismatch)
      else Ok(Packet(kind, FromBigEndian(f[8..16]), FromBigEndian(f[16..24]), f[32..64], f[HEADER_SIZE..]))
  }

  method EncodePacket(p: Packet) returns (result: Result<Bytes, PacketError>)
    requires InRange(p)
    ensures result.Ok? <==> Encodable(p)
    ensures result.Ok? ==> result.value == Encode(p)
  {
    hide Crc, Encodable;
    EncodableParts(p);
    if !ValidType(p.kind) {
      return Err(BadType);
    }
    if |p.payload| > MAX_PAYLOAD {
      return Err(TooLarge);
    }
    var header: Bytes := BigEndian(MAGIC, 4);
    header := header + BigEndian(VERSION, 2);
    header := header + BigEndian(p.kind, 2);
    header := header + BigEndian(p.sessionHash, 8);
    header := header + BigEndian(p.chunkIndex, 8);
    header := header + BigEndian(|p.payload|, 4);
    assert header == Fields(p);
    header := header + ZEROS;
    header := header + p.sha;
    var crc := Crc32.Crc32(header);
    header := Patched(header, crc);
    assert header == Header(p);
    return Ok(header + p.payload);
  }

  lemma EncodableParts(p: Packet)
    ensures Encodable(p) <==> InRange(p) && ValidType(p.kind) && |p.payload| <= MAX_PAYLOAD
  {
  }

  /** Overwrites the CRC field, most significant byte first. */
  function Patched(h: Bytes, crc: bv32): (r: Bytes)
    requires |h| == HEADER_SIZE
    ensures r == h[..28] + WordBytesBE(crc) + h[32..]
  {
    h[28 := ((crc >> 24) & 0xff) as Byte]
     [29 := ((crc >> 16) & 0xff) as Byte]
     [30 := ((crc >> 8) & 0xff) as Byte]
     [31 := (crc & 0xff) as Byte]
  }

  method ZeroHeaderCrc(h: Bytes) returns (z: Bytes)
    requires |h| == HEADER_SIZE
    ensures z == Zeroed(h)
  {
    z := h;
    for i := 28 to 32
      invariant |z| == HEADER_SIZE
      invariant z[..28] == h[..28] && z[i..] == h[i..] && forall k :: 28 <= k < i ==> z[k] == 0
    {
      z := z[i := 0];
    }
    assert z == z[..28] + z[28..32] + z[32..];
  }

  method DecodeFrame(frame: Bytes) returns (result: Result<Packet, PacketError>)
    ensures result == Decode(frame)
  {
    hide Crc, FromBigEndian, WordBE, Zeroed;
    if |frame| < HEADER_SIZE {
      return Err(TooSmall);
    }
    var header := frame[..HEADER_SIZE];
    var magic := FromBigEndian(header[0..4]);
    var version := FromBigEndian(header[4..6]);
    var kind := FromBigEndian(header[6..8]);
    var sessionHash := FromBigEndian(header[8..16]);
    var chunkIndex := FromBigEndian(header[16..24]);
    var payloadSize := FromBigEndian(header[24..28]);
    var expectedCrc := WordBE(header[28..32]);
    assert header[0..4] == frame[0..4] && header[4..6] == frame[4..6] && header[6..8] == frame[6..8];
    assert header[8..16] == frame[8..16] && header[16..24] == frame[16..24];
    assert header[24..28] == frame[24..28] && header[28..32] == frame[28..32];
    if magic != MAGIC {
      return Err(BadMagic);
    }
    if version != VERSION {
      return Err(BadVersion);
    }
    if !ValidType(kind) {
      return Err(BadType);
    }
    if payloadSize > MAX_PAYLOAD {
      return Err(TooLarge);
    }
    if |frame| != HEADER_SIZE + payloadSize {
      return Err(SizeMismatch);
    }
    var zeroed := ZeroHeaderCrc(header);
    var crc := Crc32.Crc32(zeroed);
    if crc != expectedCrc {
      return Err(CrcMismatch);
    }
    return Ok(Packet(kind, sessionHash, chunkIndex, frame[32..64], frame[HEADER_SIZE..]));
  }

  // Decoding is the exact partial inverse of encoding.

  lemma HeaderFields(p: Packet, f: Bytes)
    requires Encodable(p) && HEADER_SIZE <= |f| && f[..HEADER_SIZE] == Header(p)
    ensures FromBigEndian(f[0..4]) == MAGIC
    ensures FromBigEndian(f[4..6]) == VERSION
    ensures FromBigEndian(f[6..8]) == p.kind
    ensures FromBigEndian(f[8..16]) == p.sessionHash
    ensures FromBigEndian(f[16..24]) == p.chunkIndex
    ensures FromBigEndian(f[24..28]) == |p.payload|
    ensures WordBE(f[28..32]) == HeaderCrc(p)
    ensures f[32..64] == p.sha
    ensures Zeroed(f[..HEADER_SIZE]) == Fields(p) + ZEROS + p.sha
  {
    hide HeaderCrc, WordBE, WordBytesBE, FromBigEndian, BigEndian;
    var h := f[..HEADER_SIZE];
    Widths();
    BigEndianRoundTrip(MAGIC, 4);
    BigEndianRoundTrip(VERSION, 2);
    BigEndianRoundTrip(p.kind, 2);
    BigEndianRoundTrip(p.sessionHash, 8);
    BigEndianRoundTrip(p.chunkIndex, 8);
    BigEndianRoundTrip(|p.payload|, 4);
    WordBERoundTrip(HeaderCrc(p));
    assert f[0..4] == h[0..4] == BigEndian(MAGIC, 4);
    assert f[4..6] == h[4..6] == BigEndian(VERSION, 2);
    assert f[6..8] == h[6..8] == BigEndian(p.kind, 2);
    assert f[8..16] == h[8..16] == BigEndian(p.sessionHash, 8);
    assert f[16..24] == h[16..24] == BigEndian(p.chunkIndex, 8);
    assert f[24..28] == h[24..28] == BigEndian(|p.payload|, 4);
    assert f[28..32] == h[28..32] == WordBytesBE(HeaderCrc(p));
    assert f[32..64] == h[32..64] == p.sha;
    assert h[..28] == Fields(p) && h[32..] == p.sha;
  }

  lemma DecodeEncode(p: Packet)
    requires Encodable(p)
    ensures Decode(Encode(p)) == Ok(p)
  {
    hide Header, Crc, WordBE, FromBigEndian, Zeroed, Fields;
    var f := Encode(p);
    assert f[..HEADER_SIZE] == Header(p) && f[HEADER_SIZE..] == p.payload;
    HeaderFields(p, f);
  }

  lemma EncodeDecode(f: Bytes, p: Packet)
    requires Decode(f) == Ok(p)
    ensures Encodable(p) && Encode(p) == f
  {
    hide Crc, WordBE, WordBytesBE, FromBigEndian, BigEndian;
    Widths();
    BigEndianOnto(f[0..4]);
    BigEndianOnto(f[4..6]);
    BigEndianOnto(f[6..8]);
    BigEndianOnto(f[8..16]);
    BigEndianOnto(f[16..24]);
    BigEndianOnto(f[24..28]);
    WordBEOnto(f[28..32]);
    assert f[..28] == f[0..4] + f[4..6] + f[6..8] + f[8..16] + f[16..24] + f[24..28];
    assert Fields(p) == f[..28];
    assert Zeroed(f[..HEADER_SIZE]) == Fields(p) + ZEROS + p.sha by {
      assert f[..HEADER_SIZE][..28] == f[..28] && f[..HEADER_SIZE][32..] == f[32..64];
    }
    assert f == f[..28] + f[28..32] + f[32..64] + f[64..];
  }

  lemma DecodeIsInverseOfEncode(f: Bytes, p: Packet)
    ensures Decode(f) == Ok(p) <==> Encodable(p) && f == Encode(p)
  {
    hide Encode, Decode;
    if Encodable(p) {
      DecodeEncode(p);
    }
    if Decode(f) == Ok(p) {
      EncodeDecode(f, p);
    }
  }

  // Reading frames from a socket.

  /** How reading ends behind the last byte that arrives: the peer has closed, or the connection has broken. */
  function StreamEnd(broken: bool): PacketError {
    if broken then ReadError else SocketClosed
  }

  /** What one read of a stream yields: the packet and what follows it, or the reason there is none. */
  function ReadFrame(stream: Bytes, broken: bool): Result<(Packet, Bytes), PacketError> {
    if |stream| < HEADER_SIZE then Err(StreamEnd(broken))
    else
      var size := FromBigEndian(stream[24..28]);
      if size > MAX_PAYLOAD then Err(TooLarge)
      else if |stream| < HEADER_SIZE + size then Err(StreamEnd(broken))
      else
        var p :- Decode(stream[..HEADER_SIZE + size]);
        Ok((p, stream[HEADER_SIZE + size..]))
  }

  /** Why a connection ends: no packet could be read, or handling one threw an exception. */
  datatype ConnectionEnd = Unreadable(error: PacketError) | HandlerThrew

  /**
   * The packets that are handled, frame after frame, until an error ends the connection. Handling the packet
   * with number `n`, counted from the first of the connection, throws unless `survives(n)`.
   */
  function Receive(stream: Bytes, broken: bool, survives: nat -> bool, n: nat): (seq<Packet>, ConnectionEnd)
    decreases |stream|
  {
    var next := ReadFrame(stream, broken);
    if next.Err? then ([], Unreadable(next.error))
    else if !survives(n) then ([next.value.0], HandlerThrew)
    else
      var (ps, end) := Receive(next.value.1, broken, survives, n + 1);
      ([next.value.0] + ps, end)
  }

  datatype ReadOutcome = Interrupted | Broken | Received(data: Bytes)

  /**
   * A connected socket over which `pending` still arrives. A read returns between one and the requested
   * number of bytes, as the network likes, and a signal may interrupt it. Behind the last byte it returns
   * nothing, or fails if the connection has broken.
   */
  class Socket {
    var pending: Bytes
    var signals: nat
    const broken: bool

    constructor (pending: Bytes, signals: nat, broken: bool)
      ensures this.pending == pending && this.signals == signals && this.broken == broken
    {
      this.pending := pending;
      this.signals := signals;
      this.broken := broken;
    }

    method Read(limit: nat) returns (outcome: ReadOutcome)
      requires limit > 0
      modifies this
      ensures outcome.Interrupted? ==> pending == old(pending) && signals < old(signals)
      ensures outcome.Broken? ==> broken && pending == old(pending) == []
      ensures outcome.Received? ==> signals == old(signals) && old(pending) == outcome.data + pending
      ensures outcome.Received? ==> |outcome.data| <= limit && (outcome.data == [] <==> old(pending) == [] && !broken)
    {
      var signalled: bool := *;
      if signalled && signals > 0 {
        signals := signals - 1;
        return Interrupted;
      }
      if pending == [] && broken {
        return Broken;
      }
      var most := if limit < |pending| then limit else |pending|;
      var n: nat :| n <= most && (n == 0 <==> most == 0) by {
        assert most <= most && (most == 0 <==> most == 0);
      }
      outcome := Received(pending[..n]);
      pending := pending[n..];
    }

    method ReadExact(size: nat) returns (result: Result<Bytes, PacketError>)
      modifies this
      ensures result == if |old(pending)| < size then Err(StreamEnd(broken)) else Ok(old(pending)[..size])
      ensures pending == if result.Ok? then old(pending)[size..] else []
    {
      var buffer: Bytes := [];
      while |buffer| < size
        invariant old(pending) == buffer + pending && |buffer| <= size
        decreases signals, size - |buffer|
      {
        var outcome := Read(size - |buffer|);
        if outcome.Broken? {
          return Err(ReadError);
        }
        if outcome.Received? {
          if outcome.data == [] {
            return Err(SocketClosed);
          }
          ConcatAssociates(buffer, outcome.data, pending);
          buffer := buffer + outcome.data;
        }
      }
      PrefixOfConcat(buffer, pending);
      return Ok(buffer);
    }

    method ReadPacket() returns (result: Result<Packet, PacketError>)
      modifies this
      ensures var expected := ReadFrame(old(pending), broken);
              if expected.Ok? then result == Ok(expected.value.0) && pending == expected.value.1
              else result == Err(expected.error)
    {
      hide Decode, FromBigEndian;
      var header := ReadExact(HEADER_SIZE);
      if header.Err? {
        return Err(header.error);
      }
      var payloadSize := FromBigEndian(header.value[24..28]);
      assert header.value[24..28] == old(pending)[24..28];
      if payloadSize > MAX_PAYLOAD {
        return Err(TooLarge);
      }
      var frame := header.value;
      if payloadSize > 0 {
        var payload := ReadExact(payloadSize);
        if payload.Err? {
          return Err(payload.error);
        }
        frame := frame + payload.value;
      }
      assert frame == old(pending)[..HEADER_SIZE + payloadSize];
      SuffixOfSuffix(old(pending), HEADER_SIZE, payloadSize);
      result := DecodeFrame(frame);
    }

    /** The loop of a connection: reads and handles packets until the first error. */
    method ReceiveAll(survives: nat -> bool) returns (packets: seq<Packet>, end: ConnectionEnd)
      modifies this
      ensures (packets, end) == Receive(old(pending), broken, survives, 0)
    {
      hide ReadFrame;
      packets := [];
      ghost var all := Receive(pending, broken, survives, 0);
      assert [] + all.0 == all.0;
      while true
        invariant var rest := Receive(pending, broken, survives, |packets|);
                  all == (packets + rest.0, rest.1)
        decreases |pending|
      {
        ghost var before := pending;
        var next := ReadPacket();
        if next.Err? {
          assert packets + [] == packets;
          return packets, Unreadable(next.error);
        }
        FrameShrinks(before, broken);
        ConcatAssociates(packets, [next.value], Receive(pending, broken, survives, |packets| + 1).0);
        packets := packets + [next.value];
        if !survives(|packets| - 1) {
          return packets, HandlerThrew;
        }
      }
    }
  }

  lemma FrameShrinks(stream: Bytes, broken: bool)
    ensures ReadFrame(stream, broken).Ok? ==> |ReadFrame(stream, broken).value.1| < |stream|
  {
    hide Decode;
  }

  ghost predicate AllSurvive(survives: nat -> bool, lo: nat, hi: nat) {
    forall i :: lo <= i < hi ==> survives(i)
  }

  /**
   * However the stream is fragmented, the packets sent are handled in order: all of them up to the end of the
   * stream, or all up to and including the first whose handling throws.
   */
  lemma {:induction false} PacketsArrive(ps: seq<Packet>, broken: bool, survives: nat -> bool, n: nat)
    requires AllEncodable(ps)
    ensures var (handled, end) := Receive(EncodeAll(ps), broken, survives, n);
            if AllSurvive(survives, n, n + |ps|) then handled == ps && end == Unreadable(StreamEnd(broken))
            else
              && end == HandlerThrew && 0 < |handled| <= |ps| && handled == ps[..|handled|]
              && AllSurvive(survives, n, n + |handled| - 1) && !survives(n + |handled| - 1)
    decreases |ps|
  {
    hide Encode, ReadFrame;
    if ps == [] {
      NothingToRead(broken);
    } else {
      var rest := ps[1..];
      FirstFrame(ps[0], EncodeAll(rest), broken);
      PacketsArrive(rest, broken, survives, n + 1);
      assert [ps[0]] + rest == ps;
      if survives(n) {
        var handled := Receive(EncodeAll(rest), broken, survives, n + 1).0;
        assert AllSurvive(survives, n, n + |ps|) <==> AllSurvive(survives, n + 1, n + |ps|);
        if !AllSurvive(survives, n, n + |ps|) {
          assert [ps[0]] + handled == ps[..|handled| + 1];
        }
      }
    }
  }

  lemma NothingToRead(broken: bool)
    ensures ReadFrame([], broken) == Err(StreamEnd(broken))
  {
  }

  lemma FirstFrame(p: Packet, rest: Bytes, broken: bool)
    requires Encodable(p)
    ensures ReadFrame(Encode(p) + rest, broken) == Ok((p, rest))
  {
    hide Header, Decode, Fields, Zeroed, HeaderCrc;
    var stream := Encode(p) + rest;
    assert stream[..HEADER_SIZE] == Header(p);
    HeaderFields(p, stream);
    assert stream[..HEADER_SIZE + |p.payload|] == Encode(p);
    assert stream[HEADER_SIZE + |p.payload|..] == rest;
    DecodeIsInverseOfEncode(Encode(p), p);
  }

  // Damage to a header.

  /** What a header says of itself: its checksum is that of its bytes without the checksum field. */
  predicate OwnCrc(h: Bytes)
    requires |h| == HEADER_SIZE
  {
    Crc(Zeroed(h)) == WordBE(h[28..32])
  }

  /** Whatever payload or other bytes follow, and however many the size field asks for: no packet is read. */
  lemma BadCrcRejected(h: Bytes, rest: Bytes, broken: bool)
    requires |h| == HEADER_SIZE && !OwnCrc(h)
    ensures Decode(h + rest).Err? && ReadFrame(h + rest, broken).Err?
  {
    hide Crc, WordBE, FromBigEndian, Zeroed;
    var stream := h + rest;
    CrcOfFrame(h, rest);
    var size := FromBigEndian(stream[24..28]);
    if size <= |rest| {
      assert stream[..HEADER_SIZE + size] == h + rest[..size];
      CrcOfFrame(h, rest[..size]);
    }
  }

  lemma CrcOfFrame(h: Bytes, x: Bytes)
    requires |h| == HEADER_SIZE && !OwnCrc(h)
    ensures Decode(h + x).Err?
  {
    hide Crc, WordBE, FromBigEndian, Zeroed;
    assert (h + x)[..HEADER_SIZE] == h && (h + x)[28..32] == h[28..32];
  }

  /** Damage within four consecutive bytes that leaves the CRC field alone is always noticed. */
  lemma HeaderBurstRejected(p: Packet, h: Bytes, at: nat, rest: Bytes, broken: bool)
    requires Encodable(p)
    requires DifferWithinWord(Header(p), h, at) && h[28..32] == Header(p)[28..32]
    ensures Decode(h + rest).Err? && ReadFrame(h + rest, broken).Err?
  {
    hide Crc, WordBE, FromBigEndian, Fields, Decode, ReadFrame, Zeroed;
    var g := Header(p);
    HeaderFields(p, g);
    assert g[..HEADER_SIZE] == g;
    ZeroedDiffers(g, h, at);
    FourByteBurstDetected(Zeroed(g), Zeroed(h), at);
    BadCrcRejected(h, rest, broken);
  }

  lemma ZeroedDiffers(g: Bytes, h: Bytes, at: nat)
    requires |g| == HEADER_SIZE && DifferWithinWord(g, h, at) && g[28..32] == h[28..32]
    ensures DifferWithinWord(Zeroed(g), Zeroed(h), at)
  {
    forall i | 0 <= i < HEADER_SIZE
      ensures g[i] == h[i] <==> Zeroed(g)[i] == Zeroed(h)[i]
    {
      if 28 <= i < 32 {
        assert g[i] == g[28..32][i - 28] == h[28..32][i - 28] == h[i];
      }
    }
    var i :| 0 <= i < HEADER_SIZE && g[i] != h[i];
    assert Zeroed(g)[i] != Zeroed(h)[i];
  }

  /** So is any damage inside the CRC field alone. */
  lemma CrcFieldDamageRejected(p: Packet, h: Bytes, rest: Bytes, broken: bool)
    requires Encodable(p) && |h| == HEADER_SIZE
    requires h != Header(p) && h[..28] == Header(p)[..28] && h[32..] == Header(p)[32..]
    ensures Decode(h + rest).Err? && ReadFrame(h + rest, broken).Err?
  {
    hide Crc, WordBE, WordBytesBE, FromBigEndian, Fields, Decode, ReadFrame;
    var g := Header(p);
    HeaderFields(p, g);
    assert g[..HEADER_SIZE] == g && Zeroed(g) == Zeroed(h);
    assert g == g[..28] + g[28..32] + g[32..] && h == h[..28] + h[28..32] + h[32..];
    WordBEOnto(g[28..32]);
    WordBEOnto(h[28..32]);
    BadCrcRejected(h, rest, broken);
  }

  /** A changed byte anywhere in the header is always noticed, also if it is one of the size. */
  lemma HeaderByteChangeRejected(p: Packet, i: nat, b: Byte, rest: Bytes, broken: bool)
    requires Encodable(p)
    requires i < HEADER_SIZE && b != Header(p)[i]
    ensures Decode(Header(p)[i := b] + rest).Err? && ReadFrame(Header(p)[i := b] + rest, broken).Err?
  {
    hide Decode, Header, ReadFrame;
    var g := Header(p);
    var h := g[i := b];
    assert h[i] != g[i];
    if 28 <= i < 32 {
      assert h[..28] == g[..28] && h[32..] == g[32..];
      CrcFieldDamageRejected(p, h, rest, broken);
    } else {
      assert h[28..32] == g[28..32];
      assert DifferWithinWord(g, h, i);
      HeaderBurstRejected(p, h, i, rest, broken);
    }
  }
}
