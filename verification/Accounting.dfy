/** What a backup counts: chunks, those that were new, and the bytes they take. */
module Accounting {
  import opened Bytes
  import opened Manifest
  import opened Chunkers
  import opened ObjectStore
  import opened Snapshot
  import opened Protocol
  import opened Safety
  import opened Upload

  /** The digests that were absent before. */
  function NewDigests(c: Codec, objects: Objects, pieces: seq<Bytes>): set<string> {
    set k | 0 <= k < |pieces| && c.hash(pieces[k]) !in objects :: c.hash(pieces[k])
  }

  datatype Tally = Tally(chunks: nat, unique: nat, duplicate: nat, stored: nat)

  const NOTHING: Tally := Tally(0, 0, 0, 0)

  /** One more put. The byte count is kept in 64 bits. */
  function Count(t: Tally, put: PutResult): Tally {
    if put.inserted then
      t.(chunks := t.chunks + 1, unique := t.unique + 1, stored := (t.stored + put.compressedSize) % U64)
    else t.(chunks := t.chunks + 1, duplicate := t.duplicate + 1)
  }

  /** The counters agree with what happened to the store. */
  ghost predicate Accounted(c: Codec, before: Objects, pieces: seq<Bytes>, after: Objects, t: Tally) {
    && after == PutAll(c, before, pieces)
    && ChunksAccounted(c, before, pieces, after, t)
    && BytesAccounted(StoredBytes(before), StoredBytes(after), t.stored)
  }

  ghost predicate ChunksAccounted(c: Codec, before: Objects, pieces: seq<Bytes>, after: Objects, t: Tally) {
    var news := NewDigests(c, before, pieces);
    && after.Keys == before.Keys + news
    && t.chunks == |pieces| == t.unique + t.duplicate
    && t.unique == |news| && |after| == |before| + t.unique
  }

  ghost predicate BytesAccounted(before: nat, after: nat, stored: nat) {
    before <= after && stored == (after - before) % U64
  }

  lemma NothingAccounted(c: Codec, objects: Objects)
    ensures Accounted(c, objects, [], objects, NOTHING)
  {
    assert NewDigests(c, objects, []) == {};
  }

  lemma MoreDigests(c: Codec, objects: Objects, pieces: seq<Bytes>, x: Bytes)
    ensures NewDigests(c, objects, pieces + [x])
         == NewDigests(c, objects, pieces) + if c.hash(x) in objects then {} else {c.hash(x)}
  {
    var more := pieces + [x];
    assert forall k :: 0 <= k < |pieces| ==> more[k] == pieces[k];
    assert more[|pieces|] == x;
    var was, now := NewDigests(c, objects, pieces), NewDigests(c, objects, more);
    forall sha | sha in was
      ensures sha in now
    {
      var k :| 0 <= k < |pieces| && c.hash(pieces[k]) !in objects && c.hash(pieces[k]) == sha;
      assert c.hash(more[k]) == sha;
    }
    if c.hash(x) !in objects {
      assert c.hash(more[|pieces|]) in now;
    }
  }

  lemma GrowModulo(before: nat, after: nat, stored: nat, more: nat)
    requires BytesAccounted(before, after, stored)
    ensures BytesAccounted(before, after + more, (stored + more) % U64)
  {
    AddModulo(after - before, more);
  }

  lemma ObjectKeys(objects: Objects, sha: string, data: Bytes)
    ensures objects[sha := data].Keys == objects.Keys + {sha}
  {
  }

  lemma KeysGrow(before: set<string>, news: set<string>, after: set<string>, sha: string)
    requires after == before + news && sha !in after
    ensures sha !in before && sha !in news
    ensures after + {sha} == before + (news + {sha}) && |news + {sha}| == |news| + 1
  {
  }

  lemma InsertedAccounted(c: Codec, before: Objects, pieces: seq<Bytes>, after: Objects, t: Tally, x: Bytes, put: PutResult)
    requires ChunksAccounted(c, before, pieces, after, t) && put.inserted && c.hash(x) !in after
    ensures ChunksAccounted(c, before, pieces + [x], after[c.hash(x) := c.compress(x)], Count(t, put))
  {
    hide NewDigests, StoredBytes;
    var sha := c.hash(x);
    MoreDigests(c, before, pieces, x);
    KeysGrow(before.Keys, NewDigests(c, before, pieces), after.Keys, sha);
    ObjectKeys(after, sha, c.compress(x));
    StoredBytesWith(after, sha, c.compress(x));
  }

  lemma KnownAccounted(c: Codec, before: Objects, pieces: seq<Bytes>, after: Objects, t: Tally, x: Bytes, put: PutResult)
    requires ChunksAccounted(c, before, pieces, after, t) && !put.inserted && c.hash(x) in after
    ensures ChunksAccounted(c, before, pieces + [x], after, Count(t, put))
  {
    hide NewDigests;
    MoreDigests(c, before, pieces, x);
    var news := NewDigests(c, before, pieces);
    KeysKnown(before.Keys, news, after.Keys, c.hash(x));
  }

  lemma KeysKnown(before: set<string>, news: set<string>, after: set<string>, sha: string)
    requires after == before + news && sha in after
    ensures news + (if sha in before then {} else {sha}) == news
  {
  }

  lemma PutAccounted(c: Codec, before: Objects, pieces: seq<Bytes>, after: Objects, t: Tally, x: Bytes, put: PutResult)
    requires Accounted(c, before, pieces, after, t)
    requires put.compressedSize == |c.compress(x)| && (put.inserted <==> c.hash(x) !in after)
    ensures Accounted(c, before, pieces + [x], WithObject(c, after, x), Count(t, put))
  {
    hide PutAll, NewDigests, StoredBytes, ChunksAccounted, BytesAccounted;
    PutAllLast(c, before, pieces, x);
    if put.inserted {
      InsertedAccounted(c, before, pieces, after, t, x, put);
      StoredBytesWith(after, c.hash(x), c.compress(x));
      GrowModulo(StoredBytes(before), StoredBytes(after), t.stored, put.compressedSize);
    } else {
      KnownAccounted(c, before, pieces, after, t, x, put);
    }
  }

  lemma TallyInRange(c: Codec, before: Objects, pieces: seq<Bytes>, after: Objects, t: Tally)
    requires Accounted(c, before, pieces, after, t)
    ensures t.stored < U64
  {
    hide PutAll, StoredBytes, ChunksAccounted;
  }

  // Where the pieces of one file lie among all pieces.

  lemma {:induction false} PiecesPrefix(mode: ChunkingMode, src: Source, k: nat)
    requires k <= |src|
    ensures AllPieces(mode, src[..k]) <= AllPieces(mode, src)
    decreases |src|
  {
    hide PiecesOf;
    if k == |src| {
      assert src[..k] == src;
    } else {
      var init := src[..|src| - 1];
      PiecesPrefix(mode, init, k);
      assert init[..k] == src[..k];
    }
  }

  lemma PiecesOfFileAt(mode: ChunkingMode, src: Source, i: nat)
    requires i < |src|
    ensures var from, pieces := |AllPieces(mode, src[..i])|, PiecesOf(mode, src[i].content);
            && from + |pieces| <= |AllPieces(mode, src)|
            && AllPieces(mode, src[..i + 1]) == AllPieces(mode, src[..i]) + pieces
            && (forall j :: 0 <= j < |pieces| ==> AllPieces(mode, src)[from + j] == pieces[j])
  {
    hide PiecesOf, AllPieces;
    assert src[..i + 1] == src[..i] + [src[i]];
    AllPiecesLast(mode, src[..i], src[i]);
    PiecesPrefix(mode, src, i + 1);
    Within(AllPieces(mode, src[..i]), PiecesOf(mode, src[i].content), AllPieces(mode, src));
  }

  lemma Within<T>(before: seq<T>, part: seq<T>, all: seq<T>)
    requires before + part <= all
    ensures |before| + |part| <= |all| && forall j :: 0 <= j < |part| ==> all[|before| + j] == part[j]
  {
    forall j | 0 <= j < |part|
      ensures all[|before| + j] == part[j]
    {
      assert (before + part)[|before| + j] == part[j];
    }
  }

  lemma {:induction false} JoinedLast(pieces: seq<Bytes>, x: Bytes)
    ensures Joined(pieces + [x]) == Joined(pieces) + x
  {
    if pieces == [] {
      assert [] + [x] == [x] && [x][1..] == [];
      assert x + [] == x && [] + x == x;
    } else {
      assert (pieces + [x])[1..] == pieces[1..] + [x];
      JoinedLast(pieces[1..], x);
      assert pieces[0] + (Joined(pieces[1..]) + x) == pieces[0] + Joined(pieces[1..]) + x;
    }
  }
}
