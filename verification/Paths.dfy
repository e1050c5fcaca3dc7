/** Relative paths that stay below their root, and the names of the files of a version. */
module Paths {
  import opened Wrappers
  import opened Slices
  import opened Text
  import opened Sorting

  // `fileutil::safeRelativePath`.

  function PartLength(s: string): (n: nat)
    ensures n <= |s| && (n < |s| ==> s[n] == '/')
  {
    if s == "" || s[0] == '/' then 0 else 1 + PartLength(s[1..])
  }

  /** The parts of a path between slashes. */
  function Parts(s: string): (parts: seq<string>)
    ensures parts != []
    decreases |s|
  {
    var n := PartLength(s);
    [s[..n]] + if n < |s| then Parts(s[n + 1..]) else []
  }

  /** Lexical normalisation: `above` is what has been kept so far. */
  function Normalise(parts: seq<string>, above: seq<string>): seq<string>
    decreases |parts|
  {
    if parts == [] then above
    else if parts[0] == "" || parts[0] == "." then Normalise(parts[1..], above)
    else if parts[0] == ".." && above != [] && above[|above| - 1] != ".." then
      Normalise(parts[1..], above[..|above| - 1])
    else Normalise(parts[1..], above + [parts[0]])
  }

  /** The normalised path as a list of names, or nothing when the path is refused. */
  function SafeRelativePath(value: string): (path: Option<seq<string>>)
    ensures path.Some? ==> path.value != []
  {
    if '\0' in value || value == "" || value[0] == '/' then None
    else
      var normalised := Normalise(Parts(value), []);
      if normalised == [] || ".." in normalised then None else Some(normalised)
  }

  predicate Safe(value: string) {
    SafeRelativePath(value).Some?
  }

  /** Walks down and up the tree, from `at`: where the walk ends, or nothing once it has left the root. */
  function Walk(parts: seq<string>, at: seq<string>): Option<seq<string>>
    decreases |parts|
  {
    if parts == [] then Some(at)
    else if parts[0] == "" || parts[0] == "." then Walk(parts[1..], at)
    else if parts[0] != ".." then Walk(parts[1..], at + [parts[0]])
    else if at == [] then None
    else Walk(parts[1..], at[..|at| - 1])
  }

  /** A path is accepted exactly when walking it never leaves the root and ends below it, and it leads there. */
  lemma SafeIffBelowRoot(value: string, path: seq<string>)
    ensures SafeRelativePath(value) == Some(path) <==>
            '\0' !in value && value != "" && value[0] != '/' && Walk(Parts(value), []) == Some(path) && path != []
  {
    NormaliseFollowsWalk(Parts(value), []);
  }

  lemma {:induction false} NormaliseFollowsWalk(parts: seq<string>, above: seq<string>)
    requires ".." !in above
    ensures var n := Normalise(parts, above);
            Walk(parts, above) == if ".." in n then None else Some(n)
    decreases |parts|
  {
    if parts != [] {
      if parts[0] == "" || parts[0] == "." {
        NormaliseFollowsWalk(parts[1..], above);
      } else if parts[0] == ".." {
        if above == [] {
          assert above + [parts[0]] == [".."];
          EscapeIsKept(parts[1..], above + [parts[0]]);
        } else {
          assert above[|above| - 1] in above;
          NormaliseFollowsWalk(parts[1..], above[..|above| - 1]);
        }
      } else {
        NormaliseFollowsWalk(parts[1..], above + [parts[0]]);
      }
    }
  }

  lemma {:induction false} EscapeIsKept(parts: seq<string>, above: seq<string>)
    requires above != [] && above[0] == ".."
    ensures ".." in Normalise(parts, above)
    decreases |parts|
  {
    if parts == [] {
      assert above[0] in above;
    } else if parts[0] == "" || parts[0] == "." {
      EscapeIsKept(parts[1..], above);
    } else if parts[0] == ".." && above[|above| - 1] != ".." {
      EscapeIsKept(parts[1..], above[..|above| - 1]);
    } else {
      EscapeIsKept(parts[1..], above + [parts[0]]);
    }
  }

  // Paths as a directory scan yields them: names between single slashes.

  /** The name of a file or a directory. */
  predicate IsName(s: string) {
    s != "" && s != "." && s != ".." && forall i :: 0 <= i < |s| ==> s[i] != '/'
  }

  predicate PlainPath(value: string) {
    '\0' !in value && forall i :: 0 <= i < |Parts(value)| ==> IsName(Parts(value)[i])
  }

  /** The path names a file: normalisation does not leave a slash at its end. */
  predicate EndsInName(value: string) {
    var parts := Parts(value);
    IsName(parts[|parts| - 1])
  }

  lemma {:induction false} PartLengthExact(first: string, rest: string)
    requires forall i :: 0 <= i < |first| ==> first[i] != '/'
    requires rest == "" || rest[0] == '/'
    ensures PartLength(first + rest) == |first|
  {
    if first == "" {
      assert first + rest == rest;
    } else {
      assert (first + rest)[1..] == first[1..] + rest;
      PartLengthExact(first[1..], rest);
    }
  }

  lemma PartsFirst(first: string, rest: string)
    requires forall i :: 0 <= i < |first| ==> first[i] != '/'
    ensures Parts(first + "/" + rest) == [first] + Parts(rest)
  {
    var s := first + "/" + rest;
    assert s == first + ("/" + rest);
    PartLengthExact(first, "/" + rest);
    assert s[..|first|] == first && s[|first| + 1..] == rest;
  }

  lemma PartsLast(s: string)
    requires forall i :: 0 <= i < |s| ==> s[i] != '/'
    ensures Parts(s) == [s]
  {
    assert s + "" == s;
    PartLengthExact(s, "");
    assert s[..|s|] == s;
  }

  lemma {:induction false} NormaliseNames(parts: seq<string>, above: seq<string>)
    requires forall i :: 0 <= i < |parts| ==> IsName(parts[i])
    ensures Normalise(parts, above) == above + parts && ".." !in parts
    decreases |parts|
  {
    if parts == [] {
      assert above + parts == above;
    } else {
      assert IsName(parts[0]);
      NormaliseNames(parts[1..], above + [parts[0]]);
      assert parts == [parts[0]] + parts[1..];
      ConcatAssociates(above, [parts[0]], parts[1..]);
    }
  }

  /** The path of a scanned file is accepted, and normalisation leaves it as it is. */
  lemma PlainPathKept(value: string)
    requires PlainPath(value)
    ensures SafeRelativePath(value) == Some(Parts(value)) && EndsInName(value)
  {
    var parts := Parts(value);
    assert IsName(parts[0]);
    NormaliseNames(parts, []);
    assert [] + parts == parts;
    assert value[..PartLength(value)] == parts[0];
  }

  function JoinedBySlash(parts: seq<string>): string {
    if parts == [] then "" else if |parts| == 1 then parts[0] else parts[0] + "/" + JoinedBySlash(parts[1..])
  }

  lemma {:induction false} PartsJoin(value: string)
    ensures JoinedBySlash(Parts(value)) == value
    decreases |value|
  {
    hide JoinedBySlash;
    var n := PartLength(value);
    if n < |value| {
      PartsJoin(value[n + 1..]);
      JoinedFirst(value[..n], Parts(value[n + 1..]));
      SplitAt(value, n);
    } else {
      assert value[..n] == value;
      assert Parts(value) == [value] + [] == [value];
      JoinedOne(value);
    }
  }

  lemma JoinedOne(part: string)
    ensures JoinedBySlash([part]) == part
  {
  }

  lemma JoinedFirst(first: string, rest: seq<string>)
    requires rest != []
    ensures JoinedBySlash([first] + rest) == first + "/" + JoinedBySlash(rest)
  {
    assert ([first] + rest)[1..] == rest;
  }

  lemma SplitAt(value: string, n: nat)
    requires n < |value| && value[n] == '/'
    ensures value[..n] + "/" + value[n + 1..] == value
  {
  }

  lemma DifferentPathsDifferentParts(p: string, q: string)
    ensures Parts(p) == Parts(q) ==> p == q
  {
    PartsJoin(p);
    PartsJoin(q);
  }

  /** What stands behind the last slash. */
  ghost predicate LastPart(value: string, last: string) {
    var n := |value| - |last|;
    n >= 0 && value[n..] == last && (n == 0 || value[n - 1] == '/') && forall i :: 0 <= i < |last| ==> last[i] != '/'
  }

  lemma {:induction false} LastPartIff(value: string, last: string)
    ensures Parts(value)[|Parts(value)| - 1] == last <==> LastPart(value, last)
    decreases |value|
  {
    hide LastPart, PartLength;
    var n := PartLength(value);
    NoSlashBefore(value);
    if n < |value| {
      LastPartIff(value[n + 1..], last);
      BehindSlash(value, n, last);
    } else {
      assert value[..n] == value;
      WholeIsLast(value, last);
    }
  }

  lemma WholeIsLast(value: string, last: string)
    requires forall i :: 0 <= i < |value| ==> value[i] != '/'
    ensures LastPart(value, last) <==> value == last
  {
  }

  lemma BehindSlash(value: string, n: nat, last: string)
    requires n < |value| && value[n] == '/'
    ensures LastPart(value, last) <==> LastPart(value[n + 1..], last)
  {
    var rest, k := value[n + 1..], |value| - |last|;
    if 0 <= k <= n {
      assert value[k..][n - k] == '/';
    } else if k > n {
      SuffixOfSuffix(value, n + 1, k - n - 1);
    }
  }

  lemma {:induction false} NoSlashBefore(s: string)
    ensures forall i :: 0 <= i < PartLength(s) ==> s[i] != '/'
  {
    if s != "" && s[0] != '/' {
      NoSlashBefore(s[1..]);
      forall i | 0 <= i < PartLength(s)
        ensures s[i] != '/'
      {
        if i > 0 {
          assert s[i] == s[1..][i - 1];
        }
      }
    }
  }

  /** A path names a file iff what stands behind its last slash is a name. */
  lemma EndsInNameIff(value: string)
    ensures EndsInName(value) <==> exists last :: LastPart(value, last) && last != "" && last != "." && last != ".."
  {
    hide LastPart;
    var last := Parts(value)[|Parts(value)| - 1];
    LastPartIff(value, last);
    if other :| LastPart(value, other) && other != "" && other != "." && other != ".." {
      LastPartIff(value, other);
      NoSlashInLast(value, other);
    }
    if EndsInName(value) {
      assert LastPart(value, last);
    }
  }

  lemma NoSlashInLast(value: string, last: string)
    requires LastPart(value, last)
    ensures forall i :: 0 <= i < |last| ==> last[i] != '/'
  {
  }

  // Version file names.

  const PREFIX: string := "version-"
  const MANIFEST: string := ".manifest"
  const MARKER: string := ".commit"
  const STAGED: string := ".manifest.tmp"

  /** Versions from this one on get names that the listing skips. */
  const VERSION_LIMIT: nat := 1_000_000

  function Zeros(n: nat): (z: string)
    ensures |z| == n && AllDigits(z)
  {
    if n == 0 then "" else "0" + Zeros(n - 1)
  }

  function ZeroPad(version: nat): string {
    var d := Decimal(version);
    if |d| < 6 then Zeros(6 - |d|) + d else d
  }

  function VersionFileName(version: nat, suffix: string): string {
    PREFIX + ZeroPad(version) + suffix
  }

  /** The temporary name that an atomic write uses beside its final name. */
  function TempName(name: string, pid: nat, now: nat): string {
    name + ".tmp." + Decimal(pid) + "." + Decimal(now)
  }

  datatype NameReading = Skipped | Refused | Version(v: nat)

  /** How the listing of committed versions reads one file name. */
  function ReadName(name: string): NameReading {
    if !(PREFIX <= name) || |name| != 21 then Skipped
    else if name[14..] != MARKER then Skipped
    else if !AllDigits(name[8..14]) then Refused
    else Version(Value(name[8..14]))
  }

  function ReadNames(names: seq<string>): Option<seq<nat>> {
    if names == [] then Some([])
    else
      var rest :- ReadNames(names[1..]);
      match ReadName(names[0])
      case Skipped => Some(rest)
      case Refused => None
      case Version(v) => Some([v] + rest)
  }

  function ListCommittedVersions(names: seq<string>): Option<seq<nat>> {
    var vs :- ReadNames(names);
    Some(Sort(vs, LessNat))
  }

  method ListDirectory(names: seq<string>) returns (result: Option<seq<nat>>)
    ensures result == ListCommittedVersions(names)
  {
    var versions: seq<nat> := [];
    assert names[0..] == names;
    PrependNothing(ReadNames(names));
    for i := 0 to |names|
      invariant ReadNames(names) == PrependVersions(versions, ReadNames(names[i..]))
    {
      var name := names[i];
      assert names[i..][1..] == names[i + 1..];
      ghost var rest := ReadNames(names[i + 1..]);
      if !(PREFIX <= name) || |name| != |"version-000001.commit"| {
        continue;
      }
      if name[|name| - 7..] != MARKER {
        continue;
      }
      var number := name[8..14];
      if !AllDigits(number) {
        return None;
      }
      PrependConcat(versions, [Value(number)], rest);
      versions := versions + [Value(number)];
    }
    assert versions + [] == versions;
    return Some(Sort(versions, LessNat));
  }

  ghost function PrependVersions(done: seq<nat>, rest: Option<seq<nat>>): Option<seq<nat>> {
    if rest.Some? then Some(done + rest.value) else None
  }

  lemma PrependNothing(rest: Option<seq<nat>>)
    ensures PrependVersions([], rest) == rest
  {
    if rest.Some? {
      assert [] + rest.value == rest.value;
    }
  }

  lemma PrependConcat(done: seq<nat>, more: seq<nat>, rest: Option<seq<nat>>)
    ensures PrependVersions(done, PrependVersions(more, rest)) == PrependVersions(done + more, rest)
  {
    if rest.Some? {
      ConcatAssociates(done, more, rest.value);
    }
  }

  // What the listing makes of the names that the store itself produces.

  lemma {:induction false} LeadingZeros(n: nat, d: string)
    requires AllDigits(d)
    ensures AllDigits(Zeros(n) + d) && Value(Zeros(n) + d) == Value(d)
    decreases |d|
  {
    var z := Zeros(n);
    if d == "" {
      assert z + d == z;
      ValueOfZeros(n);
    } else {
      var init := d[..|d| - 1];
      assert (z + d)[..|z + d| - 1] == z + init;
      LeadingZeros(n, init);
    }
  }

  lemma {:induction false} ValueOfZeros(n: nat)
    ensures Value(Zeros(n)) == 0
  {
    if n > 0 {
      ValueOfZeros(n - 1);
      ZerosEnd(n);
    }
  }

  lemma {:induction false} ZerosEnd(n: nat)
    requires n > 0
    ensures Zeros(n)[..n - 1] == Zeros(n - 1) && Zeros(n)[n - 1] == '0'
  {
    if n > 1 {
      ZerosEnd(n - 1);
      assert Zeros(n)[..n - 1] == "0" + Zeros(n - 1)[..n - 2];
    }
  }

  lemma ZeroPadReadsBack(v: nat)
    ensures |ZeroPad(v)| >= 6 && (|ZeroPad(v)| == 6 <==> v < VERSION_LIMIT)
    ensures AllDigits(ZeroPad(v)) && Value(ZeroPad(v)) == v
  {
    DecimalRoundTrip(v);
    DecimalLength(v, 6);
    assert Pow10(6) == VERSION_LIMIT;
    if |Decimal(v)| < 6 {
      LeadingZeros(6 - |Decimal(v)|, Decimal(v));
    }
  }

  /** The names of a version read back, and different versions have different names. */
  lemma MarkerNameReadsBack(v: nat)
    ensures ReadName(VersionFileName(v, MARKER)) == if v < VERSION_LIMIT then Version(v) else Skipped
  {
    var name := VersionFileName(v, MARKER);
    ZeroPadReadsBack(v);
    if v < VERSION_LIMIT {
      assert name[8..14] == ZeroPad(v) && name[14..] == MARKER;
    }
  }

  lemma ManifestNameSkipped(v: nat)
    ensures ReadName(VersionFileName(v, MANIFEST)) == Skipped
  {
    ZeroPadReadsBack(v);
  }

  /** Whatever a crash leaves of an unfinished atomic write is never taken for a marker. */
  lemma TempNameSkipped(v: nat, suffix: string, pid: nat, now: nat)
    requires suffix == MARKER || suffix == MANIFEST
    ensures ReadName(TempName(VersionFileName(v, suffix), pid, now)) == Skipped
  {
    ZeroPadReadsBack(v);
  }

  lemma NamesDiffer(v: nat, suffix: string, w: nat, other: string)
    requires suffix in {MARKER, MANIFEST, STAGED} && other in {MARKER, MANIFEST, STAGED}
    ensures VersionFileName(v, suffix) == VersionFileName(w, other) ==> v == w && suffix == other
  {
    hide ZeroPad;
    var a, b := VersionFileName(v, suffix), VersionFileName(w, other);
    ZeroPadReadsBack(v);
    ZeroPadReadsBack(w);
    if a == b {
      assert a[|a| - 2] == suffix[|suffix| - 2] && b[|b| - 2] == other[|other| - 2];
      assert a[8..|a| - |suffix|] == ZeroPad(v) && b[8..|b| - |other|] == ZeroPad(w);
    }
  }

  /** The names that ever appear in the manifests directory of a repository. */
  ghost predicate StoreName(name: string) {
    || (exists v: nat :: name == VersionFileName(v, MARKER))
    || (exists v: nat :: name == VersionFileName(v, MANIFEST))
    || LeftOverName(name)
  }

  ghost predicate LeftOverName(name: string) {
    exists v: nat, suffix, pid: nat, now: nat ::
      (suffix == MARKER || suffix == MANIFEST) && name == TempName(VersionFileName(v, suffix), pid, now)
  }

  ghost predicate HasMarker(names: seq<string>, v: nat) {
    VersionFileName(v, MARKER) in names
  }

  lemma StoreNameReading(name: string)
    requires StoreName(name)
    ensures match ReadName(name)
            case Skipped => forall v: nat :: v < VERSION_LIMIT ==> name != VersionFileName(v, MARKER)
            case Refused => false
            case Version(v) => v < VERSION_LIMIT && name == VersionFileName(v, MARKER)
  {
    hide ReadName, VersionFileName, TempName;
    forall v: nat | name == VersionFileName(v, MARKER)
      ensures ReadName(name) == if v < VERSION_LIMIT then Version(v) else Skipped
    {
      MarkerNameReadsBack(v);
    }
    if v: nat :| name == VersionFileName(v, MARKER) {
    } else if v: nat :| name == VersionFileName(v, MANIFEST) {
      ManifestNameSkipped(v);
    } else {
      var v: nat, suffix, pid: nat, now: nat :|
        (suffix == MARKER || suffix == MANIFEST) && name == TempName(VersionFileName(v, suffix), pid, now);
      TempNameSkipped(v, suffix, pid, now);
    }
  }

  lemma {:induction false} ReadNamesOfStore(names: seq<string>)
    requires forall n :: n in names ==> StoreName(n)
    requires Distinct(names)
    ensures ReadNames(names).Some? && Distinct(ReadNames(names).value)
    ensures forall v: nat :: v in ReadNames(names).value <==> v < VERSION_LIMIT && HasMarker(names, v)
  {
    hide ReadName, VersionFileName, StoreName;
    if names != [] {
      var rest := names[1..];
      ReadNamesOfStore(rest);
      StoreNameReading(names[0]);
      assert names == [names[0]] + rest;
      forall v: nat
        ensures HasMarker(names, v) <==> names[0] == VersionFileName(v, MARKER) || HasMarker(rest, v)
      {
      }
      if ReadName(names[0]).Version? {
        NotAgain(names, ReadName(names[0]).v);
        forall w: nat | names[0] == VersionFileName(w, MARKER)
          ensures w == ReadName(names[0]).v
        {
          NamesDiffer(w, MARKER, ReadName(names[0]).v, MARKER);
        }
      }
    }
  }

  lemma NotAgain(names: seq<string>, v: nat)
    requires Distinct(names) && names != [] && names[0] == VersionFileName(v, MARKER)
    ensures !HasMarker(names[1..], v)
  {
    forall k | 0 <= k < |names[1..]|
      ensures names[1..][k] != names[0]
    {
      assert names[1..][k] == names[k + 1];
    }
  }

  /**
   * The listing of a repository directory never fails, is strictly ascending, and agrees with the
   * existence of the marker file for every version below the limit; so the version after the last one
   * listed exceeds every committed version below the limit.
   */
  lemma ListingIsExact(names: seq<string>)
    requires forall n :: n in names ==> StoreName(n)
    requires Distinct(names)
    ensures ListCommittedVersions(names).Some?
    ensures StrictlySorted(ListCommittedVersions(names).value, LessNat)
    ensures forall v: nat :: v in ListCommittedVersions(names).value <==> v < VERSION_LIMIT && HasMarker(names, v)
  {
    ReadNamesOfStore(names);
    NatOrder();
    SortCorrect(ReadNames(names).value, LessNat);
  }
}
