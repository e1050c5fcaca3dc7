/** The checkpoint file, and the log record that compaction makes of the same data. */
module Checkpoint {
  import opened Wrappers
  import opened Slices
  import opened Bytes
  import opened Text
  import opened Sorting
  import opened Paths

  datatype CheckpointData = CheckpointData(latest: nat, versions: seq<nat>)

  const HEADER: string := "DPC_CHECKPOINT_V1"
  const LATEST: string := "latest_committed_version"
  const VERSIONS: string := "committed_versions"

  ghost predicate AllBelow(vs: seq<nat>, limit: nat) {
    forall i :: 0 <= i < |vs| ==> vs[i] < limit
  }

  function VersionsText(vs: seq<nat>): string {
    if vs == [] then "" else " " + Decimal(vs[0]) + VersionsText(vs[1..])
  }

  function CheckpointText(d: CheckpointData): string {
    HEADER + "\n" + LATEST + " " + Decimal(d.latest) + "\n" + VERSIONS + VersionsText(d.versions) + "\n"
  }

  /** Numbers up to the first word that is none. */
  function ReadVersions(s: string): seq<nat>
    decreases |s|
  {
    var r := ReadNumber(s, U64);
    if r.None? then [] else [r.value.0] + ReadVersions(r.value.1)
  }

  /** `load` on an existing file. */
  function LoadText(s: string): Option<CheckpointData> {
    var (header, s1) :- ReadWord(s);
    if header != HEADER then None
    else
      var (key, s2) :- ReadWord(s1);
      var (latest, s3) :- ReadNumber(s2, U64);
      if key != LATEST then None
      else
        var (key, s4) :- ReadWord(s3);
        if key != VERSIONS then None else Some(CheckpointData(latest, ReadVersions(s4)))
  }

  /** `load`: a missing file is an empty checkpoint. */
  function Load(file: Option<string>): Option<CheckpointData> {
    if file.None? then Some(CheckpointData(0, [])) else LoadText(file.value)
  }

  method Write(d: CheckpointData) returns (text: string)
    ensures text == CheckpointText(d)
  {
    text := HEADER + "\n";
    text := text + LATEST + " " + Decimal(d.latest) + "\n";
    var versions := WriteVersions(d.versions);
    text := text + VERSIONS + versions;
    text := text + "\n";
    ConcatAssociates(HEADER + "\n", LATEST + " " + Decimal(d.latest), "\n");
    ConcatAssociates(HEADER + "\n", LATEST + " ", Decimal(d.latest));
    ConcatAssociates(HEADER + "\n", LATEST, " ");
    ConcatAssociates(HEADER + "\n" + LATEST + " " + Decimal(d.latest) + "\n", VERSIONS, versions);
  }

  method WriteVersions(vs: seq<nat>) returns (text: string)
    ensures text == VersionsText(vs)
  {
    hide Decimal;
    text := "";
    for i := 0 to |vs|
      invariant text + VersionsText(vs[i..]) == VersionsText(vs)
    {
      assert vs[i..][1..] == vs[i + 1..];
      ConcatAssociates(text, " " + Decimal(vs[i]), VersionsText(vs[i + 1..]));
      text := text + " " + Decimal(vs[i]);
    }
    assert text + "" == text;
  }

  method LoadFile(file: Option<string>) returns (result: Option<CheckpointData>)
    ensures result == Load(file)
  {
    hide ReadWord, ReadNumber;
    if file.None? {
      return Some(CheckpointData(0, []));
    }
    var header := ReadWord(file.value);
    if header.None? || header.value.0 != HEADER {
      return None;
    }
    var key := ReadWord(header.value.1);
    if key.None? {
      return None;
    }
    var latest := ReadNumber(key.value.1, U64);
    if latest.None? || key.value.0 != LATEST {
      return None;
    }
    var list := ReadWord(latest.value.1);
    if list.None? || list.value.0 != VERSIONS {
      return None;
    }
    var versions: seq<nat> := [];
    var rest := list.value.1;
    assert [] + ReadVersions(rest) == ReadVersions(rest);
    var number := ReadNumber(rest, U64);
    while number.Some?
      invariant number == ReadNumber(rest, U64)
      invariant versions + ReadVersions(rest) == ReadVersions(list.value.1)
      decreases |rest|
    {
      ConcatAssociates(versions, [number.value.0], ReadVersions(number.value.1));
      versions := versions + [number.value.0];
      rest := number.value.1;
      number := ReadNumber(rest, U64);
    }
    assert versions + [] == versions;
    return Some(CheckpointData(latest.value.0, versions));
  }

  lemma VersionsTextEnds(vs: seq<nat>, rest: string)
    requires EndsWord(rest)
    ensures EndsWord(VersionsText(vs) + rest)
  {
    hide Decimal;
    if vs == [] {
      assert "" + rest == rest;
    } else {
      assert (VersionsText(vs) + rest)[0] == ' ';
    }
  }

  lemma {:induction false} VersionsReadBack(vs: seq<nat>)
    requires AllBelow(vs, U64)
    ensures ReadVersions(VersionsText(vs) + "\n") == vs
  {
    hide Decimal, ReadNumber;
    if vs == [] {
      NoNumberLeft();
      assert "" + "\n" == "\n";
    } else {
      var rest := VersionsText(vs[1..]) + "\n";
      VersionsTextEnds(vs[1..], "\n");
      ConcatAssociates(" " + Decimal(vs[0]), VersionsText(vs[1..]), "\n");
      NextNumber(vs[0], U64, rest);
      VersionsReadBack(vs[1..]);
      assert [vs[0]] + vs[1..] == vs;
    }
  }

  lemma NoNumberLeft()
    ensures ReadNumber("\n", U64) == None
  {
    assert SkipSpaces("\n") == "";
  }

  /** A checkpoint file loads as the data that was written to it. */
  lemma LoadsBack(d: CheckpointData)
    requires d.latest < U64 && AllBelow(d.versions, U64)
    ensures LoadText(CheckpointText(d)) == Some(d)
  {
    hide Decimal, ReadNumber, ReadWord, VersionsText, ReadVersions;
    var list := VersionsText(d.versions) + "\n";
    var s3 := "\n" + VERSIONS + list;
    var s1 := "\n" + LATEST + (" " + Decimal(d.latest) + s3);
    Regroup(HEADER, LATEST, Decimal(d.latest), VERSIONS, VersionsText(d.versions));
    ReadWordExact(HEADER, s1);
    AfterNewline(LATEST, " " + Decimal(d.latest) + s3);
    NextNumber(d.latest, U64, s3);
    VersionsTextEnds(d.versions, "\n");
    AfterNewline(VERSIONS, list);
    VersionsReadBack(d.versions);
  }

  lemma Regroup(header: string, key: string, latest: string, key2: string, list: string)
    ensures header + "\n" + key + " " + latest + "\n" + key2 + list + "\n"
         == header + ("\n" + key + (" " + latest + ("\n" + key2 + (list + "\n"))))
  {
    var s4 := list + "\n";
    var s3 := "\n" + key2 + s4;
    var s2 := " " + latest + s3;
    ConcatAssociates(header + "\n" + key + " " + latest + "\n" + key2, list, "\n");
    ConcatAssociates(header + "\n" + key + " " + latest, "\n" + key2, s4);
    ConcatAssociates(header + "\n" + key + " " + latest, "\n", key2);
    ConcatAssociates(header + "\n" + key, " " + latest, s3);
    ConcatAssociates(header + "\n" + key, " ", latest);
    ConcatAssociates(header, "\n" + key, s2);
    ConcatAssociates(header, "\n", key);
  }

  lemma AfterNewline(word: string, rest: string)
    requires IsWord(word) && EndsWord(rest)
    ensures ReadWord("\n" + word + rest) == Some((word, rest))
  {
    assert "\n" + word + rest == ['\n'] + (word + rest);
    ReadAfterSpace('\n', word + rest, 1);
    ReadWordExact(word, rest);
  }

  // The checkpoint of a set of committed versions.

  function LatestOf(versions: seq<nat>): nat {
    if versions == [] then 0 else versions[|versions| - 1]
  }

  function CheckpointOf(versions: seq<nat>): CheckpointData {
    CheckpointData(LatestOf(versions), versions)
  }

  lemma CheckpointLoadsBack(versions: seq<nat>)
    requires AllBelow(versions, VERSION_LIMIT)
    ensures LoadText(CheckpointText(CheckpointOf(versions))) == Some(CheckpointOf(versions))
  {
    hide LoadText, CheckpointText;
    LoadsBack(CheckpointOf(versions));
  }

  // The compaction record.

  function CompactionPayload(versions: seq<nat>): string {
    "latest=" + Decimal(LatestOf(versions)) + "\n" + "versions" + VersionsText(versions) + "\n"
  }

  lemma {:induction false} SixDigits(v: nat)
    requires v < VERSION_LIMIT
    ensures |Decimal(v)| <= 6
  {
    DecimalLength(v, 6);
    assert Pow10(6) == VERSION_LIMIT;
  }

  lemma {:induction false} VersionsTextLength(vs: seq<nat>)
    requires AllBelow(vs, VERSION_LIMIT)
    ensures |VersionsText(vs)| <= 7 * |vs|
  {
    hide Decimal;
    if vs != [] {
      SixDigits(vs[0]);
      VersionsTextLength(vs[1..]);
    }
  }

  lemma {:induction false} SortedIsSpaced(vs: seq<nat>, k: nat)
    requires StrictlySorted(vs, LessNat) && k < |vs|
    ensures vs[k] >= k
  {
    if k > 0 {
      SortedIsSpaced(vs, k - 1);
      assert LessNat(vs[k - 1], vs[k]);
    }
  }

  /** The listing is so short that its record always fits into the log. */
  lemma PayloadFits(versions: seq<nat>)
    requires StrictlySorted(versions, LessNat) && AllBelow(versions, VERSION_LIMIT)
    ensures |CompactionPayload(versions)| <= 7 * VERSION_LIMIT + 23 < 8 * 1024 * 1024
  {
    hide Decimal, VersionsText;
    VersionsTextLength(versions);
    if versions != [] {
      SortedIsSpaced(versions, |versions| - 1);
    }
    SixDigits(LatestOf(versions));
  }
}
