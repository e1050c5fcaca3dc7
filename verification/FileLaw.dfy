/** What every text says as a checkpoint or as the index of a session, and what every file name says to the listing. */
module FileLaw {
  import opened Wrappers
  import opened Slices
  import opened Bytes
  import opened Sorting
  import opened Text
  import opened TextLaw
  import opened Paths
  import opened Checkpoint
  import opened SessionIndex

  // Checkpoints.

  /** Numbers, as many as can be read. */
  ghost predicate NumbersAhead(s: string, vs: seq<nat>)
    decreases |vs|
  {
    if vs == [] then NoNumberAhead(s, U64)
    else exists rest :: NumberAhead(s, U64, vs[0], rest) && NumbersAhead(rest, vs[1..])
  }

  lemma {:induction false} VersionsIff(s: string, vs: seq<nat>)
    ensures ReadVersions(s) == vs <==> NumbersAhead(s, vs)
    decreases |vs|
  {
    hide ReadNumber, NumberAhead, NoNumberAhead;
    ReadNumberFailsIff(s, U64);
    if vs != [] {
      if ReadVersions(s) == vs {
        var r := ReadNumber(s, U64).value;
        ReadNumberIff(s, U64, r.0, r.1);
        VersionsIff(r.1, vs[1..]);
      }
      if rest :| NumberAhead(s, U64, vs[0], rest) && NumbersAhead(rest, vs[1..]) {
        ReadNumberIff(s, U64, vs[0], rest);
        VersionsIff(rest, vs[1..]);
        assert vs == [vs[0]] + vs[1..];
      }
    }
  }

  /** The words of a checkpoint; `t` holds what is left behind each of them. */
  ghost predicate CheckpointSays(s: string, t: seq<string>, d: CheckpointData) {
    && |t| == 4 && StartsWithWord(s, "DPC_CHECKPOINT_V1", t[0])
    && StartsWithWord(t[0], "latest_committed_version", t[1]) && NumberAhead(t[1], U64, d.latest, t[2])
    && StartsWithWord(t[2], "committed_versions", t[3]) && NumbersAhead(t[3], d.versions)
  }

  /** A checkpoint is loaded from exactly these texts. */
  lemma LoadIff(s: string, d: CheckpointData)
    ensures LoadText(s) == Some(d) <==> exists t :: CheckpointSays(s, t, d)
  {
    hide ReadNumber, ReadWord, NumberAhead, NumbersAhead, StartsWithWord, ReadVersions;
    if LoadText(s) == Some(d) {
      var t0 := ReadWord(s).value.1;
      var t1 := ReadWord(t0).value.1;
      var t2 := ReadNumber(t1, U64).value.1;
      var t3 := ReadWord(t2).value.1;
      ReadWordIff(s, HEADER, t0);
      ReadWordIff(t0, LATEST, t1);
      ReadNumberIff(t1, U64, d.latest, t2);
      ReadWordIff(t2, VERSIONS, t3);
      VersionsIff(t3, d.versions);
      assert CheckpointSays(s, [t0, t1, t2, t3], d);
    }
    if t :| CheckpointSays(s, t, d) {
      ReadWordIff(s, HEADER, t[0]);
      ReadWordIff(t[0], LATEST, t[1]);
      ReadNumberIff(t[1], U64, d.latest, t[2]);
      ReadWordIff(t[2], VERSIONS, t[3]);
      VersionsIff(t[3], d.versions);
    }
  }

  // Session indexes.

  /** The ten fields of a chunk record; `t` holds what is left behind each of them. */
  ghost predicate FieldsSay(s: string, t: seq<string>, path: string, target: string, r: Received) {
    && |t| == 10
    && NumberAhead(s, U64, r.globalIndex, t[0]) && StartsWithWord(t[0], r.sha256, t[1])
    && StartsWithWord(t[1], path, t[2]) && Spells(path, r.relativePath)
    && NumberAhead(t[2], U64, r.fileSize, t[3]) && NumberAhead(t[3], U32, r.fileMode, t[4])
    && StartsWithWord(t[4], r.fileSha256, t[5])
    && NumberAhead(t[5], U64, r.chunkIndex, t[6]) && NumberAhead(t[6], U64, r.rawSize, t[7])
    && NumberAhead(t[7], U64, r.compressedSize, t[8])
    && StartsWithWord(t[8], target, t[9]) && Spells(target, r.objectPath)
  }

  ghost predicate RecordAhead(s: string, r: Received, rest: string) {
    exists t, path, target :: |t| == 10 && FieldsSay(s, t, path, target, r) && t[9] == rest
  }

  lemma FieldsIff(s: string, r: Received, rest: string)
    ensures ReadChunkFields(s) == Some((r, rest)) <==> RecordAhead(s, r, rest)
  {
    hide ReadChunkFields, FieldsSay;
    if ReadChunkFields(s) == Some((r, rest)) {
      FieldsRead(s, r, rest);
    }
    if RecordAhead(s, r, rest) {
      var t, path, target :| |t| == 10 && FieldsSay(s, t, path, target, r) && t[9] == rest;
      FieldsAreRead(s, t, path, target, r);
    }
  }

  lemma FieldsRead(s: string, r: Received, rest: string)
    requires ReadChunkFields(s) == Some((r, rest))
    ensures RecordAhead(s, r, rest)
  {
    hide ReadNumber, ReadWord, NumberAhead, StartsWithWord, HexDecode, Spells;
    var t0 := ReadNumber(s, U64).value.1;
    var t1 := ReadWord(t0).value.1;
    var (path, t2) := ReadWord(t1).value;
    var t3 := ReadNumber(t2, U64).value.1;
    var t4 := ReadNumber(t3, U32).value.1;
    var t5 := ReadWord(t4).value.1;
    var t6 := ReadNumber(t5, U64).value.1;
    var t7 := ReadNumber(t6, U64).value.1;
    var t8 := ReadNumber(t7, U64).value.1;
    var (target, t9) := ReadWord(t8).value;
    ReadNumberIff(s, U64, r.globalIndex, t0);
    ReadWordIff(t0, r.sha256, t1);
    ReadWordIff(t1, path, t2);
    ReadNumberIff(t2, U64, r.fileSize, t3);
    ReadNumberIff(t3, U32, r.fileMode, t4);
    ReadWordIff(t4, r.fileSha256, t5);
    ReadNumberIff(t5, U64, r.chunkIndex, t6);
    ReadNumberIff(t6, U64, r.rawSize, t7);
    ReadNumberIff(t7, U64, r.compressedSize, t8);
    ReadWordIff(t8, target, t9);
    HexDecodeIff(path, r.relativePath);
    HexDecodeIff(target, r.objectPath);
    assert FieldsSay(s, [t0, t1, t2, t3, t4, t5, t6, t7, t8, t9], path, target, r);
  }

  lemma FieldsAreRead(s: string, t: seq<string>, path: string, target: string, r: Received)
    requires FieldsSay(s, t, path, target, r)
    ensures |t| == 10 && ReadChunkFields(s) == Some((r, t[9]))
  {
    hide ReadNumber, ReadWord, NumberAhead, StartsWithWord, HexDecode, Spells;
    ReadNumberIff(s, U64, r.globalIndex, t[0]);
    ReadWordIff(t[0], r.sha256, t[1]);
    ReadWordIff(t[1], path, t[2]);
    ReadNumberIff(t[2], U64, r.fileSize, t[3]);
    ReadNumberIff(t[3], U32, r.fileMode, t[4]);
    ReadWordIff(t[4], r.fileSha256, t[5]);
    ReadNumberIff(t[5], U64, r.chunkIndex, t[6]);
    ReadNumberIff(t[6], U64, r.rawSize, t[7]);
    ReadNumberIff(t[7], U64, r.compressedSize, t[8]);
    ReadWordIff(t[8], target, t[9]);
    HexDecodeIff(path, r.relativePath);
    HexDecodeIff(target, r.objectPath);
  }

  /** What follows the first line. */
  ghost predicate BehindLine(s: string, rest: string) {
    exists line :: FirstLineIs(s, line, rest)
  }

  ghost predicate FirstLineIs(s: string, line: string, rest: string) {
    (forall i :: 0 <= i < |line| ==> line[i] != '\n') && (s == line + ("\n" + rest) || (s == line && rest == ""))
  }

  lemma AfterLineIff(s: string, rest: string)
    ensures AfterLine(s) == rest <==> BehindLine(s, rest)
  {
    hide FirstLineIs;
    if AfterLine(s) == rest {
      LineIsFirst(s);
    }
    if line :| FirstLineIs(s, line, rest) {
      FirstIsLine(s, line, rest);
    }
  }

  lemma LineIsFirst(s: string)
    ensures FirstLineIs(s, s[..LineLength(s)], AfterLine(s))
  {
    hide LineLength;
    LineHasNoBreak(s);
    SplitAt(s, LineLength(s));
  }

  lemma SplitAt(s: string, n: nat)
    requires n <= |s|
    ensures if n < |s| then s == s[..n] + ([s[n]] + s[n + 1..]) else s == s[..n]
  {
  }

  lemma FirstIsLine(s: string, line: string, rest: string)
    requires FirstLineIs(s, line, rest)
    ensures AfterLine(s) == rest
  {
    if s == line + ("\n" + rest) {
      LineLengthIs(line, "\n" + rest);
      assert s[|line| + 1..] == rest;
    } else {
      assert s == line + "";
      LineLengthIs(line, "");
    }
  }

  /** An index holds these chunk records, in this order, and lines of commits, and nothing else. */
  ghost predicate IndexSays(s: string, records: seq<Received>)
    decreases |s|
  {
    || (Blanks(s) && records == [])
    || (exists rest, more :: StartsWithWord(s, "COMMITTED", rest) && BehindLine(rest, more) && IndexSays(more, records))
    || (exists rest, more ::
          && StartsWithWord(s, "CHUNK", rest) && |more| < |rest|
          && records != [] && RecordAhead(rest, records[0], more) && IndexSays(more, records[1..]))
  }

  lemma SaysCommitted(s: string, rest: string, more: string, records: seq<Received>)
    requires StartsWithWord(s, "COMMITTED", rest) && BehindLine(rest, more) && IndexSays(more, records)
    ensures IndexSays(s, records)
  {
    hide StartsWithWord, Blanks, BehindLine, RecordAhead;
  }

  lemma SaysChunk(s: string, rest: string, record: Received, more: string, records: seq<Received>)
    requires StartsWithWord(s, "CHUNK", rest) && |more| < |rest| && RecordAhead(rest, record, more) && IndexSays(more, records)
    ensures IndexSays(s, [record] + records)
  {
    hide StartsWithWord, Blanks, BehindLine, RecordAhead;
    assert ([record] + records)[1..] == records;
  }

  lemma {:induction false} RecordsAreSaid(s: string)
    requires ReadRecords(s).Some?
    ensures IndexSays(s, ReadRecords(s).value)
    decreases |s|
  {
    hide ReadChunkFields, RecordAhead, StartsWithWord, Blanks, BehindLine, AfterLine, ReadWord, IndexSays;
    var tag := ReadWord(s);
    ReadWordFailsIff(s);
    if tag.Some? {
      var (word, rest) := tag.value;
      ReadWordIff(s, word, rest);
      if word == "CHUNK" {
        var (record, more) := ReadChunkFields(rest).value;
        ReadChunkFieldsShrinks(rest);
        FieldsIff(rest, record, more);
        RecordsAreSaid(more);
        SaysChunk(s, rest, record, more, ReadRecords(more).value);
      } else {
        AfterLineIff(rest, AfterLine(rest));
        RecordsAreSaid(AfterLine(rest));
        SaysCommitted(s, rest, AfterLine(rest), ReadRecords(AfterLine(rest)).value);
      }
    } else {
      SaysNothing(s);
    }
  }

  lemma SaysNothing(s: string)
    requires Blanks(s)
    ensures IndexSays(s, [])
  {
  }

  lemma {:induction false} SaidRecordsAreRead(s: string, records: seq<Received>)
    requires IndexSays(s, records)
    ensures ReadRecords(s) == Some(records)
    decreases |s|
  {
    hide ReadChunkFields, RecordAhead, StartsWithWord, Blanks, BehindLine, AfterLine, ReadWord;
    ReadWordFailsIff(s);
    if rest, more :| StartsWithWord(s, "COMMITTED", rest) && BehindLine(rest, more) && IndexSays(more, records) {
      ReadWordIff(s, "COMMITTED", rest);
      AfterLineIff(rest, more);
      SaidRecordsAreRead(more, records);
    } else if rest, more :|
        && StartsWithWord(s, "CHUNK", rest) && |more| < |rest|
        && records != [] && RecordAhead(rest, records[0], more) && IndexSays(more, records[1..]) {
      ReadWordIff(s, "CHUNK", rest);
      FieldsIff(rest, records[0], more);
      SaidRecordsAreRead(more, records[1..]);
      assert records == [records[0]] + records[1..];
    }
  }

  /** An index is read from exactly these texts. */
  lemma RecordsIff(s: string, records: seq<Received>)
    ensures ReadRecords(s) == Some(records) <==> IndexSays(s, records)
  {
    hide ReadRecords, IndexSays;
    if ReadRecords(s) == Some(records) {
      RecordsAreSaid(s);
    }
    if IndexSays(s, records) {
      SaidRecordsAreRead(s, records);
    }
  }

  // The listing of committed versions.

  /** The name of a marker, with six characters where the version stands. */
  ghost predicate MarkerShape(name: string, middle: string) {
    |middle| == 6 && name == "version-" + middle + ".commit"
  }

  /** The name of the marker of this version. */
  ghost predicate MarksVersion(name: string, v: int) {
    exists middle :: MarkerShape(name, middle) && DigitsOnly(middle) && Denotes(middle) == v
  }

  /** A name with the shape of a marker, but without a number. */
  ghost predicate MarksNothing(name: string) {
    exists middle :: MarkerShape(name, middle) && !DigitsOnly(middle)
  }

  lemma ReadNameIff(name: string)
    ensures forall v: nat :: ReadName(name) == Version(v) <==> MarksVersion(name, v)
    ensures ReadName(name) == Refused <==> MarksNothing(name)
  {
    hide Denotes, Value;
    if |name| == 21 && PREFIX <= name && name[14..] == MARKER {
      var middle := name[8..14];
      assert MarkerShape(name, middle);
      assert AllDigits(middle) <==> DigitsOnly(middle);
      if AllDigits(middle) {
        ValueDenotes(middle);
      }
      assert forall other :: MarkerShape(name, other) ==> other == name[8..14];
    } else {
      assert forall other :: !MarkerShape(name, other);
    }
  }

  lemma SameMarker(name: string, other: string, v: int)
    requires MarksVersion(name, v) && MarksVersion(other, v)
    ensures name == other
  {
    var a :| MarkerShape(name, a) && DigitsOnly(a) && Denotes(a) == v;
    var b :| MarkerShape(other, b) && DigitsOnly(b) && Denotes(b) == v;
    SameDigits(a, b);
  }

  /** As many digits for the same number are the same digits. */
  lemma {:induction false} SameDigits(a: string, b: string)
    requires |a| == |b| && Denotes(a) == Denotes(b) && (a == "" || (DigitsOnly(a) && DigitsOnly(b)))
    ensures a == b
  {
    if a != "" {
      var n := |a| - 1;
      assert a == a[..n] + [a[n]] && b == b[..n] + [b[n]];
      SameDigits(a[..n], b[..n]);
    }
  }

  lemma DistinctFirst(v: nat, vs: seq<nat>)
    requires Distinct(vs) && v !in vs
    ensures Distinct([v] + vs)
  {
    forall i, j | 0 <= i < j < |vs| + 1
      ensures ([v] + vs)[i] != ([v] + vs)[j]
    {
      assert ([v] + vs)[j] == vs[j - 1];
    }
  }

  lemma {:induction false} ReadNamesIff(names: seq<string>)
    requires Distinct(names)
    ensures ReadNames(names).None? <==> exists i :: 0 <= i < |names| && MarksNothing(names[i])
    ensures ReadNames(names).Some? ==>
      && Distinct(ReadNames(names).value)
      && forall v: nat :: v in ReadNames(names).value <==> exists i :: 0 <= i < |names| && MarksVersion(names[i], v)
  {
    hide ReadName, MarksVersion, MarksNothing;
    if names != [] {
      var rest := names[1..];
      ReadNamesIff(rest);
      ReadNameIff(names[0]);
      assert forall i :: 0 <= i < |rest| ==> rest[i] == names[i + 1];
      assert forall i :: 0 < i < |names| ==> names[i] == rest[i - 1];
      if ReadNames(names).Some? && ReadName(names[0]).Version? {
        var v := ReadName(names[0]).v;
        if i :| 0 <= i < |rest| && MarksVersion(rest[i], v) {
          assert rest[i] == names[i + 1] && names[0] != names[i + 1];
          SameMarker(names[0], rest[i], v);
        }
        DistinctFirst(v, ReadNames(rest).value);
      }
    }
  }

  /**
   * The listing of any directory: it fails iff some name has the shape of a marker without a number; otherwise
   * it is the ascending sequence of the versions that have a marker.
   */
  lemma ListingIff(names: seq<string>)
    requires Distinct(names)
    ensures var r := ListCommittedVersions(names);
      && (r.None? <==> exists i :: 0 <= i < |names| && MarksNothing(names[i]))
      && (r.Some? ==> (forall i, j :: 0 <= i < j < |r.value| ==> r.value[i] < r.value[j])
                      && forall v: nat :: v in r.value <==> exists i :: 0 <= i < |names| && MarksVersion(names[i], v))
  {
    hide ReadNames, MarksVersion, MarksNothing, Sort;
    ReadNamesIff(names);
    if ReadNames(names).Some? {
      SortCorrect(ReadNames(names).value, LessNat);
    }
  }
}
