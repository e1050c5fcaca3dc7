/** The text payloads of packets: requests, their fields, and the status of a session. */
module Payloads {
  import opened Wrappers
  import opened Slices
  import opened Bytes
  import opened Text
  import Octet

  /** A field of a request: its key and its value. */
  type Field = (string, string)

  /** Why a request cannot be read: for a reason that is answered, or with an exception that the server does not catch. */
  datatype Trouble = Malformed | Uncaught

  // Printing.

  function FieldsText(fields: seq<Field>): string {
    if fields == [] then "" else "\n" + fields[0].0 + " " + fields[0].1 + FieldsText(fields[1..])
  }

  function RequestText(header: string, fields: seq<Field>): string {
    header + FieldsText(fields)
  }

  // Parsing: `parseTextFields` and the accessors of its map.

  /** The fields with those of the words added, two words each; a later one replaces an earlier one with its key. */
  function ReadFields(words: seq<string>, fields: map<string, string>): map<string, string> {
    if |words| < 2 then fields else ReadFields(words[2..], fields[words[0] := words[1]])
  }

  function ParseTextFields(text: string, header: string): (r: Result<map<string, string>, Trouble>)
    ensures r.Err? ==> r.error == Malformed
  {
    var words := Words(text);
    if words == [] || words[0] != header then Err(Malformed) else Ok(ReadFields(words[1..], map[]))
  }

  method ParseFields(text: string, header: string) returns (result: Result<map<string, string>, Trouble>)
    ensures result == ParseTextFields(text, header)
  {
    hide ReadWord;
    var first := ReadWord(text);
    if first.None? || first.value.0 != header {
      return Err(Malformed);
    }
    var fields: map<string, string> := map[];
    var rest := first.value.1;
    while true
      invariant ReadFields(Words(rest), fields) == ReadFields(Words(first.value.1), map[])
      decreases |rest|
    {
      var key := ReadWord(rest);
      if key.None? {
        break;
      }
      var value := ReadWord(key.value.1);
      if value.None? {
        break;
      }
      assert Words(rest) == [key.value.0] + ([value.value.0] + Words(value.value.1));
      assert Words(rest)[2..] == Words(value.value.1);
      fields := fields[key.value.0 := value.value.0];
      rest := value.value.1;
    }
    return Ok(fields);
  }

  function FieldOf(fields: map<string, string>, key: string): (r: Result<string, Trouble>)
    ensures r.Err? ==> r.error == Malformed
  {
    if key in fields then Ok(fields[key]) else Err(Malformed)
  }

  /**
   * `parseU64`: `std::stoull` reads a number at the start of the value and ignores what follows. A missing
   * field is refused, but for a value without a number below 2^64 at its start `std::stoull` throws.
   */
  function NumberOf(fields: map<string, string>, key: string): Result<nat, Trouble> {
    var value :- FieldOf(fields, key);
    var number := ReadNumber(value, U64);
    if number.None? then Err(Uncaught) else Ok(number.value.0)
  }

  function HexOf(fields: map<string, string>, key: string): (r: Result<string, Trouble>)
    ensures r.Err? ==> r.error == Malformed
  {
    var value :- FieldOf(fields, key);
    var decoded := HexDecode(value);
    if decoded.None? then Err(Malformed) else Ok(decoded.value)
  }

  // What was printed is parsed.

  ghost predicate WordFields(fields: seq<Field>) {
    forall i :: 0 <= i < |fields| ==> IsWord(fields[i].0) && IsWord(fields[i].1)
  }

  ghost predicate DistinctKeys(fields: seq<Field>) {
    forall i, j :: 0 <= i < j < |fields| ==> fields[i].0 != fields[j].0
  }

  function FieldWords(fields: seq<Field>): seq<string> {
    if fields == [] then [] else [fields[0].0, fields[0].1] + FieldWords(fields[1..])
  }

  lemma {:induction false} WordsOfFields(fields: seq<Field>, tail: string)
    requires WordFields(fields) && EndsWord(tail)
    ensures Words(FieldsText(fields) + tail) == FieldWords(fields) + Words(tail)
    ensures EndsWord(FieldsText(fields) + tail)
  {
    hide Words, IsWord;
    if fields == [] {
      assert "" + tail == tail && [] + Words(tail) == Words(tail);
    } else {
      var key, value, rest := fields[0].0, fields[0].1, FieldsText(fields[1..]) + tail;
      WordsOfFields(fields[1..], tail);
      FieldText(key, value, FieldsText(fields[1..]), tail);
      FieldIsTwoWords(key, value, rest);
      ConcatAssociates([key, value], FieldWords(fields[1..]), Words(tail));
    }
  }

  lemma FieldIsTwoWords(key: string, value: string, rest: string)
    requires IsWord(key) && IsWord(value) && EndsWord(rest)
    ensures Words(['\n'] + (key + ([' '] + (value + rest)))) == [key, value] + Words(rest)
  {
    hide Words, IsWord;
    ReadAfterSpace('\n', key + ([' '] + (value + rest)), 1);
    WordsFirst(key, [' '] + (value + rest));
    ReadAfterSpace(' ', value + rest, 1);
    WordsFirst(value, rest);
    assert [key] + ([value] + Words(rest)) == [key, value] + Words(rest);
  }

  lemma FieldText(key: string, value: string, more: string, tail: string)
    ensures "\n" + key + " " + value + more + tail == ['\n'] + (key + ([' '] + (value + (more + tail))))
  {
    ConcatAssociates("\n" + key + " " + value, more, tail);
    ConcatAssociates("\n" + key + " ", value, more + tail);
    ConcatAssociates("\n" + key, " ", value + (more + tail));
    ConcatAssociates("\n", key, [' '] + (value + (more + tail)));
  }

  lemma {:induction false} FieldsRead(fields: seq<Field>, before: map<string, string>, i: nat)
    requires DistinctKeys(fields) && i < |fields|
    ensures var m := ReadFields(FieldWords(fields), before); fields[i].0 in m && m[fields[i].0] == fields[i].1
    decreases |fields|
  {
    var after := before[fields[0].0 := fields[0].1];
    assert FieldWords(fields)[2..] == FieldWords(fields[1..]);
    if i > 0 {
      FieldsRead(fields[1..], after, i - 1);
    } else {
      OthersStay(fields[1..], after, fields[0].0);
    }
  }

  lemma {:induction false} OthersStay(fields: seq<Field>, before: map<string, string>, key: string)
    requires key in before && forall i :: 0 <= i < |fields| ==> fields[i].0 != key
    ensures var m := ReadFields(FieldWords(fields), before); key in m && m[key] == before[key]
  {
    if fields != [] {
      assert FieldWords(fields)[2..] == FieldWords(fields[1..]);
      OthersStay(fields[1..], before[fields[0].0 := fields[0].1], key);
    }
  }

  /** Every field of a printed request is found again, whatever blank text follows. */
  lemma RequestReadsBack(header: string, fields: seq<Field>, tail: string)
    requires IsWord(header) && WordFields(fields) && DistinctKeys(fields) && (tail == "" || tail == "\n")
    ensures var m := ParseTextFields(RequestText(header, fields) + tail, header);
            m.Ok? && forall i :: 0 <= i < |fields| ==> FieldOf(m.value, fields[i].0) == Ok(fields[i].1)
  {
    hide Words, ReadFields, FieldsText;
    WordsOfFields(fields, tail);
    ConcatAssociates(header, FieldsText(fields), tail);
    WordsFirst(header, FieldsText(fields) + tail);
    NoWords(tail);
    assert FieldWords(fields) + [] == FieldWords(fields);
    assert ([header] + FieldWords(fields))[1..] == FieldWords(fields);
    forall i | 0 <= i < |fields|
      ensures fields[i].0 in ReadFields(FieldWords(fields), map[])
           && ReadFields(FieldWords(fields), map[])[fields[i].0] == fields[i].1
    {
      FieldsRead(fields, map[], i);
    }
  }

  lemma NoWords(tail: string)
    requires tail == "" || tail == "\n"
    ensures Words(tail) == [] && EndsWord(tail)
  {
    assert SkipSpaces(tail) == "";
  }

  // PUT_CHUNK: a header, a blank line, and the compressed chunk.

  datatype PutPayload = PutPayload(
    sessionId: string, relativePath: string, fileSize: nat, fileMode: nat, fileSha256: string,
    chunkIndex: nat, rawSize: nat, compressed: Bytes)

  const PUT_HEADER: string := "DPC_PUT_V1"

  function PutFields(p: PutPayload): (fields: seq<Field>)
    ensures |fields| == 8
  {
    [ ("session_hex", HexEncode(p.sessionId)),
      ("relative_path_hex", HexEncode(p.relativePath)),
      ("file_size", Decimal(p.fileSize)),
      ("file_mode", Decimal(p.fileMode)),
      ("file_sha256", p.fileSha256),
      ("chunk_index", Decimal(p.chunkIndex)),
      ("raw_size", Decimal(p.rawSize)),
      ("compressed_size", Decimal(|p.compressed|)) ]
  }

  function MakePut(p: PutPayload): Bytes {
    AsBytes(RequestText(PUT_HEADER, PutFields(p))) + [10, 10] + p.compressed
  }

  /** Where the first blank line starts. */
  function FindSeparator(b: Bytes): (i: Option<nat>)
    ensures i.Some? ==> i.value + 2 <= |b|
  {
    if |b| < 2 then None
    else if b[0] == 10 && b[1] == 10 then Some(0)
    else
      var i :- FindSeparator(b[1..]);
      Some(i + 1)
  }

  method Search(b: Bytes) returns (found: Option<nat>)
    ensures found == FindSeparator(b)
  {
    var i := 0;
    assert b[0..] == b;
    while i + 2 <= |b|
      invariant i <= |b|
      invariant FindSeparator(b) == (var rest := FindSeparator(b[i..]); if rest.Some? then Some(rest.value + i) else None)
      decreases |b| - i
    {
      if b[i] == 10 && b[i + 1] == 10 {
        return Some(i);
      }
      assert b[i..][1..] == b[i + 1..];
      i := i + 1;
    }
    return None;
  }

  function ParsePut(b: Bytes): Result<PutPayload, Trouble> {
    var i := FindSeparator(b);
    if i.None? then Err(Malformed)
    else
      var fields :- ParseTextFields(AsText(b[..i.value]), PUT_HEADER);
      PutOf(fields, b[i.value + 2..])
  }

  function PutOf(fields: map<string, string>, compressed: Bytes): Result<PutPayload, Trouble> {
    var sessionId :- HexOf(fields, "session_hex");
    var relativePath :- HexOf(fields, "relative_path_hex");
    var fileSize :- NumberOf(fields, "file_size");
    var fileMode :- NumberOf(fields, "file_mode");
    var fileSha256 :- FieldOf(fields, "file_sha256");
    var chunkIndex :- NumberOf(fields, "chunk_index");
    var rawSize :- NumberOf(fields, "raw_size");
    var compressedSize :- NumberOf(fields, "compressed_size");
    if |compressed| != compressedSize then Err(Malformed)
    else Ok(PutPayload(sessionId, relativePath, fileSize, fileMode % U32, fileSha256, chunkIndex, rawSize, compressed))
  }

  method ParsePutPayload(payload: Bytes) returns (result: Result<PutPayload, Trouble>)
    ensures result == ParsePut(payload)
  {
    hide PutOf, ParseTextFields;
    var separator := Search(payload);
    if separator.None? {
      return Err(Malformed);
    }
    var fields := ParseFields(AsText(payload[..separator.value]), PUT_HEADER);
    if fields.Err? {
      return fields.PropagateFailure();
    }
    result := PutOf(fields.value, payload[separator.value + 2..]);
  }

  /** What the client puts into the fields. */
  ghost predicate Proper(p: PutPayload) {
    && Octets(p.sessionId) && Octets(p.relativePath) && IsWord(p.fileSha256)
    && p.fileSize < U64 && p.fileMode < U32 && p.chunkIndex < U64 && p.rawSize < U64 && |p.compressed| < U64
  }

  /** No newline stands before another newline, or at the end. */
  ghost predicate SingleLines(s: string) {
    forall i :: 0 <= i < |s| && s[i] == '\n' ==> i + 1 < |s| && s[i + 1] != '\n'
  }

  lemma SingleLinesConcat(s: string, t: string)
    requires SingleLines(s) && SingleLines(t)
    ensures SingleLines(s + t)
  {
  }

  lemma WordIsSingleLine(w: string)
    requires IsWord(w)
    ensures SingleLines(w) && SingleLines("\n" + w) && SingleLines(" " + w)
  {
    WordIsOneLine(w);
  }

  lemma {:induction false} FieldsAreSingleLines(fields: seq<Field>)
    requires WordFields(fields)
    ensures SingleLines(FieldsText(fields))
  {
    hide SingleLines, IsWord;
    if fields == [] {
      assert SingleLines("") by { NothingIsSingleLine(); }
    } else {
      var key, value := fields[0].0, fields[0].1;
      WordIsSingleLine(key);
      WordIsSingleLine(value);
      FieldsAreSingleLines(fields[1..]);
      SingleLinesConcat("\n" + key, " " + value);
      assert "\n" + key + (" " + value) == "\n" + key + " " + value;
      SingleLinesConcat("\n" + key + " " + value, FieldsText(fields[1..]));
    }
  }

  lemma NothingIsSingleLine()
    ensures SingleLines("")
  {
  }

  ghost predicate NoBlankLine(b: Bytes) {
    forall i :: 0 <= i < |b| && b[i] == 10 ==> i + 1 < |b| && b[i + 1] != 10
  }

  lemma SingleLinesAsBytes(s: string)
    requires SingleLines(s) && Octets(s)
    ensures NoBlankLine(AsBytes(s))
  {
    var b := AsBytes(s);
    forall i | 0 <= i < |b|
      ensures b[i] == 10 <==> s[i] == '\n'
    {
      Octet.RoundTrip(s[i] as int);
    }
  }

  /** Whatever follows, the first blank line is the one behind the header. */
  lemma {:induction false} SeparatorFound(head: Bytes, rest: Bytes)
    requires NoBlankLine(head)
    ensures FindSeparator(head + [10, 10] + rest) == Some(|head|)
  {
    var b := head + [10, 10] + rest;
    if head == [] {
      assert b[0] == 10 && b[1] == 10;
    } else {
      assert forall i :: 0 <= i < |head[1..]| ==> head[1..][i] == head[i + 1];
      SeparatorFound(head[1..], rest);
      assert b[1..] == head[1..] + [10, 10] + rest;
    }
  }

  lemma PutFieldsAreWords(p: PutPayload)
    requires Proper(p) && p.sessionId != "" && p.relativePath != ""
    ensures WordFields(PutFields(p))
  {
    hide HexEncode, Decimal, IsWord;
    KeysAreWords();
    HexIsWord(HexEncode(p.sessionId));
    HexIsWord(HexEncode(p.relativePath));
    DecimalRoundTrip(p.fileSize);
    DecimalRoundTrip(p.fileMode);
    DecimalRoundTrip(p.chunkIndex);
    DecimalRoundTrip(p.rawSize);
    DecimalRoundTrip(|p.compressed|);
  }

  lemma KeysAreWords()
    ensures IsWord("session_hex") && IsWord("relative_path_hex") && IsWord("file_size") && IsWord("file_mode")
    ensures IsWord("file_sha256") && IsWord("chunk_index") && IsWord("raw_size") && IsWord("compressed_size")
  {
  }

  lemma PutKeysDiffer(p: PutPayload)
    ensures DistinctKeys(PutFields(p))
  {
    hide HexEncode, Decimal;
    assert "file_size"[5] != "file_mode"[5];
    assert "session_hex"[0] == 's' && "file_sha256"[0] == 'f' && "chunk_index"[0] == 'c';
  }

  lemma NumberReads(fields: map<string, string>, key: string, n: nat)
    requires FieldOf(fields, key) == Ok(Decimal(n)) && n < U64
    ensures NumberOf(fields, key) == Ok(n)
  {
    ReadNumberExact(n, "", U64);
    assert Decimal(n) + "" == Decimal(n);
  }

  lemma {:induction false} TextIsOctets(fields: seq<Field>)
    requires forall i :: 0 <= i < |fields| ==> Octets(fields[i].0) && Octets(fields[i].1)
    ensures Octets(FieldsText(fields))
  {
    hide Octets;
    if fields == [] {
      assert Octets("") by { KeysAreOctets(); }
    } else {
      var key, value := fields[0].0, fields[0].1;
      KeysAreOctets();
      TextIsOctets(fields[1..]);
      OctetsConcat("\n", key);
      OctetsConcat("\n" + key, " ");
      OctetsConcat("\n" + key + " ", value);
      OctetsConcat("\n" + key + " " + value, FieldsText(fields[1..]));
    }
  }

  lemma HexIsOctets(s: string)
    requires AllHex(s)
    ensures Octets(s)
  {
    forall i | 0 <= i < |s|
      ensures s[i] as int < 256
    {
      assert Nibble(s[i]).Some?;
    }
  }

  lemma PutIsOctets(p: PutPayload)
    requires Octets(p.fileSha256)
    ensures Octets(RequestText(PUT_HEADER, PutFields(p)))
  {
    hide HexEncode, Decimal, Octets, FieldsText;
    var fields := PutFields(p);
    HexIsOctets(HexEncode(p.sessionId));
    HexIsOctets(HexEncode(p.relativePath));
    DigitsAreOctets(p.fileSize);
    DigitsAreOctets(p.fileMode);
    DigitsAreOctets(p.chunkIndex);
    DigitsAreOctets(p.rawSize);
    DigitsAreOctets(|p.compressed|);
    KeysAreOctets();
    TextIsOctets(fields);
    OctetsConcat(PUT_HEADER, FieldsText(fields));
  }

  lemma KeysAreOctets()
    ensures Octets("") && Octets("\n") && Octets(" ")
    ensures Octets("session_hex") && Octets("relative_path_hex") && Octets("file_size") && Octets("file_mode")
    ensures Octets("file_sha256") && Octets("chunk_index") && Octets("raw_size") && Octets("compressed_size") && Octets(PUT_HEADER)
  {
  }

  lemma OctetsConcat(s: string, t: string)
    requires Octets(s) && Octets(t)
    ensures Octets(s + t)
  {
  }

  lemma DigitsAreOctets(n: nat)
    ensures Octets(Decimal(n))
  {
    DecimalRoundTrip(n);
    assert AllDigits(Decimal(n));
  }

  /** The header of a request, cut off at the first blank line, and the bytes behind it. */
  lemma RequestSplits(fields: seq<Field>, rest: Bytes)
    requires WordFields(fields) && Octets(RequestText(PUT_HEADER, fields))
    ensures var text := RequestText(PUT_HEADER, fields);
            var b := AsBytes(text) + [10, 10] + rest;
            FindSeparator(b) == Some(|text|) && AsText(b[..|text|]) == text && b[|text| + 2..] == rest
  {
    hide FieldsText, Octets, AsBytes, AsText, FindSeparator, SingleLines, IsWord;
    var text := RequestText(PUT_HEADER, fields);
    FieldsAreSingleLines(fields);
    WordIsSingleLine(PUT_HEADER) by { assert IsWord(PUT_HEADER) by { RequestHeaders(); } }
    SingleLinesConcat(PUT_HEADER, FieldsText(fields));
    SingleLinesAsBytes(text);
    SeparatorFound(AsBytes(text), rest);
    TextOfBytes(text);
    assert (AsBytes(text) + [10, 10] + rest)[..|text|] == AsBytes(text);
  }

  lemma PutBytes(p: PutPayload)
    ensures MakePut(p) == AsBytes(RequestText(PUT_HEADER, PutFields(p))) + [10, 10] + p.compressed
  {
  }

  lemma PutReadsBack(p: PutPayload)
    requires Proper(p) && p.sessionId != "" && p.relativePath != "" && Octets(p.fileSha256)
    ensures ParsePut(MakePut(p)) == Ok(p)
  {
    hide FieldsText, FindSeparator, ParseTextFields, MakePut, HexDecode, HexEncode, Decimal, ReadNumber, AsText, FieldOf;
    var fields := PutFields(p);
    PutFieldsAreWords(p);
    PutKeysDiffer(p);
    PutIsOctets(p);
    RequestSplits(fields, p.compressed);
    assert MakePut(p) == AsBytes(RequestText(PUT_HEADER, fields)) + [10, 10] + p.compressed by { PutBytes(p); }
    RequestReadsBack(PUT_HEADER, fields, "");
    assert RequestText(PUT_HEADER, fields) + "" == RequestText(PUT_HEADER, fields);
    var m := ParseTextFields(RequestText(PUT_HEADER, fields), PUT_HEADER).value;
    assert forall i :: 0 <= i < 8 ==> FieldOf(m, fields[i].0) == Ok(fields[i].1);
    HexRoundTrip(p.sessionId);
    HexRoundTrip(p.relativePath);
    assert fields[0] == ("session_hex", HexEncode(p.sessionId)) && fields[1] == ("relative_path_hex", HexEncode(p.relativePath));
    assert fields[4] == ("file_sha256", p.fileSha256);
    NumberReads(m, fields[2].0, p.fileSize);
    NumberReads(m, fields[3].0, p.fileMode);
    NumberReads(m, fields[5].0, p.chunkIndex);
    NumberReads(m, fields[6].0, p.rawSize);
    NumberReads(m, fields[7].0, |p.compressed|);
  }

  lemma {:induction false} ValuesAreWords(words: seq<string>, before: map<string, string>)
    requires AllWords(words) && forall k :: k in before ==> IsWord(before[k])
    ensures forall k :: k in ReadFields(words, before) ==> IsWord(ReadFields(words, before)[k])
    decreases |words|
  {
    hide IsWord;
    if |words| >= 2 {
      assert words[0] in words && words[1] in words;
      assert forall w :: w in words[2..] ==> w in words;
      ValuesAreWords(words[2..], before[words[0] := words[1]]);
    }
  }

  lemma ParsedIdsNotEmpty(b: Bytes)
    requires ParsePut(b).Ok?
    ensures ParsePut(b).value.sessionId != "" && ParsePut(b).value.relativePath != ""
  {
    hide Words, ReadFields, HexDecode, FindSeparator, AsText, ReadNumber;
    var text := AsText(b[..FindSeparator(b).value]);
    var words := Words(text);
    WordsAreWords(text);
    assert forall w :: w in words[1..] ==> w in words;
    ValuesAreWords(words[1..], map[]);
    var fields := ReadFields(words[1..], map[]);
    HexDecodesOctets(fields["session_hex"]);
    HexDecodesOctets(fields["relative_path_hex"]);
  }

  /**
   * The server recovers every field and the compressed bytes, whatever they are, exactly when the session
   * id and the path are not empty: an empty value would shift all later words.
   */
  lemma PutSurvivesIff(p: PutPayload)
    requires Proper(p) && Octets(p.fileSha256)
    ensures ParsePut(MakePut(p)) == Ok(p) <==> p.sessionId != "" && p.relativePath != ""
  {
    hide ParsePut, MakePut;
    if p.sessionId != "" && p.relativePath != "" {
      PutReadsBack(p);
    }
    if ParsePut(MakePut(p)) == Ok(p) {
      ParsedIdsNotEmpty(MakePut(p));
    }
  }

  // Writing a request field by field.

  function WithField(text: string, key: string, value: string): string {
    text + key + " " + value + "\n"
  }

  lemma {:induction false} FieldsTextLast(fields: seq<Field>, last: Field)
    ensures FieldsText(fields + [last]) == FieldsText(fields) + ("\n" + last.0 + " " + last.1)
  {
    if fields == [] {
      assert fields + [last] == [last] && [last][1..] == [];
      assert "\n" + last.0 + " " + last.1 + "" == "" + ("\n" + last.0 + " " + last.1);
    } else {
      assert (fields + [last])[1..] == fields[1..] + [last];
      FieldsTextLast(fields[1..], last);
      ConcatAssociates("\n" + fields[0].0 + " " + fields[0].1, FieldsText(fields[1..]), "\n" + last.0 + " " + last.1);
    }
  }

  lemma FieldWritten(header: string, fields: seq<Field>, key: string, value: string)
    ensures WithField(RequestText(header, fields) + "\n", key, value) == RequestText(header, fields + [(key, value)]) + "\n"
  {
    hide FieldsText;
    FieldsTextLast(fields, (key, value));
    var text := RequestText(header, fields);
    ConcatAssociates(header, FieldsText(fields), "\n" + key + " " + value);
    assert text + "\n" + key + " " + value == text + ("\n" + key + " " + value);
  }

  method MakePutPayload(p: PutPayload) returns (payload: Bytes)
    ensures payload == MakePut(p)
  {
    hide HexEncode, Decimal, AsBytes, WithField, RequestText;
    var header := PUT_HEADER + "\n";
    ghost var done: seq<Field> := [];
    NoFieldsYet(PUT_HEADER);
    header, done := AddField(header, PUT_HEADER, done, "session_hex", HexEncode(p.sessionId));
    header, done := AddField(header, PUT_HEADER, done, "relative_path_hex", HexEncode(p.relativePath));
    header, done := AddField(header, PUT_HEADER, done, "file_size", Decimal(p.fileSize));
    header, done := AddField(header, PUT_HEADER, done, "file_mode", Decimal(p.fileMode));
    header, done := AddField(header, PUT_HEADER, done, "file_sha256", p.fileSha256);
    header, done := AddField(header, PUT_HEADER, done, "chunk_index", Decimal(p.chunkIndex));
    header, done := AddField(header, PUT_HEADER, done, "raw_size", Decimal(p.rawSize));
    header, done := AddField(header, PUT_HEADER, done, "compressed_size", Decimal(|p.compressed|));
    assert done == PutFields(p);
    header := header + "\n";
    payload := AsBytes(header);
    BlankLineBytes(RequestText(PUT_HEADER, done));
    payload := payload + p.compressed;
  }

  lemma NoFieldsYet(header: string)
    ensures RequestText(header, []) + "\n" == header + "\n"
  {
  }

  lemma BlankLineBytes(text: string)
    ensures AsBytes(text + "\n" + "\n") == AsBytes(text) + [10, 10]
  {
  }

  /** One more line of the header, with its key and its value. */
  method AddField(text: string, ghost header: string, ghost done: seq<Field>, key: string, value: string)
    returns (longer: string, ghost after: seq<Field>)
    requires text == RequestText(header, done) + "\n"
    ensures after == done + [(key, value)] && longer == RequestText(header, after) + "\n"
  {
    FieldWritten(header, done, key, value);
    longer := text + key + " " + value + "\n";
    after := done + [(key, value)];
  }

  // Query and commit requests.

  const QUERY_HEADER: string := "DPC_QUERY_SESSION_V1"
  const COMMIT_HEADER: string := "DPC_COMMIT_V1"

  function MakeQuery(sessionId: string): Bytes {
    AsBytes(RequestText(QUERY_HEADER, [("session_hex", HexEncode(sessionId))]) + "\n")
  }

  /** A query has no number, so reading it never ends the server. */
  function ParseQuery(payload: Bytes): (r: Result<string, Trouble>)
    ensures r.Err? ==> r.error == Malformed
  {
    var fields :- ParseTextFields(AsText(payload), QUERY_HEADER);
    HexOf(fields, "session_hex")
  }

  function CommitFields(sessionId: string, total: string): seq<Field> {
    [("session_hex", HexEncode(sessionId)), ("total_chunks", total)]
  }

  function MakeCommit(sessionId: string, total: nat): Bytes {
    AsBytes(RequestText(COMMIT_HEADER, CommitFields(sessionId, Decimal(total))) + "\n")
  }

  function ParseCommit(payload: Bytes): Result<(string, nat), Trouble> {
    var fields :- ParseTextFields(AsText(payload), COMMIT_HEADER);
    var sessionId :- HexOf(fields, "session_hex");
    var total :- NumberOf(fields, "total_chunks");
    Ok((sessionId, total))
  }

  lemma RequestBytes(header: string, fields: seq<Field>)
    requires Octets(header) && forall i :: 0 <= i < |fields| ==> Octets(fields[i].0) && Octets(fields[i].1)
    ensures AsText(AsBytes(RequestText(header, fields) + "\n")) == RequestText(header, fields) + "\n"
  {
    hide Octets, FieldsText;
    TextIsOctets(fields);
    KeysAreOctets();
    OctetsConcat(header, FieldsText(fields));
    OctetsConcat(RequestText(header, fields), "\n");
    TextOfBytes(RequestText(header, fields) + "\n");
  }

  lemma RequestHeaders()
    ensures IsWord(PUT_HEADER) && IsWord(QUERY_HEADER) && IsWord(COMMIT_HEADER) && Octets(QUERY_HEADER) && Octets(COMMIT_HEADER)
    ensures IsWord("total_chunks") && Octets("total_chunks") && "session_hex" != "total_chunks"
  {
  }

  lemma QueryReadsBack(sessionId: string)
    requires Octets(sessionId) && sessionId != ""
    ensures ParseQuery(MakeQuery(sessionId)) == Ok(sessionId)
  {
    hide Octets, IsWord, RequestText, HexEncode, HexDecode, AsText, AsBytes, ParseTextFields, AllHex;
    var fields := [("session_hex", HexEncode(sessionId))];
    RequestHeaders();
    KeysAreWords();
    KeysAreOctets();
    HexIsWord(HexEncode(sessionId));
    HexIsOctets(HexEncode(sessionId));
    RequestBytes(QUERY_HEADER, fields);
    RequestReadsBack(QUERY_HEADER, fields, "\n");
    assert FieldOf(ParseTextFields(RequestText(QUERY_HEADER, fields) + "\n", QUERY_HEADER).value, fields[0].0) == Ok(fields[0].1);
    HexRoundTrip(sessionId);
  }

  lemma CommitFieldsAreWords(sessionId: string, total: string)
    requires sessionId != "" && IsWord(total) && Octets(total)
    ensures var fields := CommitFields(sessionId, total);
            && WordFields(fields) && DistinctKeys(fields)
            && forall i :: 0 <= i < |fields| ==> Octets(fields[i].0) && Octets(fields[i].1)
  {
    hide Octets, IsWord, HexEncode, AllHex;
    RequestHeaders();
    KeysAreWords();
    KeysAreOctets();
    HexIsWord(HexEncode(sessionId));
    HexIsOctets(HexEncode(sessionId));
  }

  /** What a commit request says, also if its total is not a number. */
  lemma CommitFieldsRead(sessionId: string, total: string)
    requires Octets(sessionId) && sessionId != "" && IsWord(total) && Octets(total)
    ensures var text := RequestText(COMMIT_HEADER, CommitFields(sessionId, total)) + "\n";
            var m := ParseTextFields(AsText(AsBytes(text)), COMMIT_HEADER);
            m.Ok? && HexOf(m.value, "session_hex") == Ok(sessionId) && FieldOf(m.value, "total_chunks") == Ok(total)
  {
    hide Octets, IsWord, RequestText, HexEncode, AsText, AsBytes, ParseTextFields, FieldOf, HexOf, WordFields, DistinctKeys;
    var fields := CommitFields(sessionId, total);
    RequestHeaders();
    CommitFieldsAreWords(sessionId, total);
    RequestBytes(COMMIT_HEADER, fields);
    RequestReadsBack(COMMIT_HEADER, fields, "\n");
    var m := ParseTextFields(RequestText(COMMIT_HEADER, fields) + "\n", COMMIT_HEADER).value;
    assert FieldOf(m, fields[0].0) == Ok(fields[0].1) && FieldOf(m, fields[1].0) == Ok(fields[1].1);
    SessionField(m, sessionId);
  }

  lemma CommitReadsBack(sessionId: string, total: nat)
    requires Octets(sessionId) && sessionId != "" && total < U64
    ensures ParseCommit(MakeCommit(sessionId, total)) == Ok((sessionId, total))
  {
    hide Octets, IsWord, RequestText, HexEncode, AsText, AsBytes, ParseTextFields, Decimal, FieldOf, HexOf, NumberOf;
    DigitsAreOctets(total);
    DecimalRoundTrip(total);
    CommitFieldsRead(sessionId, Decimal(total));
    NumberReads(ParseTextFields(AsText(MakeCommit(sessionId, total)), COMMIT_HEADER).value, "total_chunks", total);
  }

  lemma SessionField(m: map<string, string>, sessionId: string)
    requires Octets(sessionId) && FieldOf(m, "session_hex") == Ok(HexEncode(sessionId))
    ensures HexOf(m, "session_hex") == Ok(sessionId)
  {
    HexRoundTrip(sessionId);
  }

  // Requests that end the server.

  datatype FieldKind = HexField | NumberField | TextField

  /** The fields of a put request in the order in which the server reads them. */
  const PUT_KEYS: seq<(string, FieldKind)> :=
    [ ("session_hex", HexField), ("relative_path_hex", HexField), ("file_size", NumberField), ("file_mode", NumberField),
      ("file_sha256", TextField), ("chunk_index", NumberField), ("raw_size", NumberField), ("compressed_size", NumberField) ]

  const COMMIT_KEYS: seq<(string, FieldKind)> := [("session_hex", HexField), ("total_chunks", NumberField)]

  predicate ReadsWell(fields: map<string, string>, key: (string, FieldKind)) {
    && key.0 in fields
    && match key.1
       case HexField => HexDecode(fields[key.0]).Some?
       case NumberField => ReadNumber(fields[key.0], U64).Some?
       case TextField => true
  }

  /** A number field that is there, but does not start with a number below 2^64. */
  predicate NoNumber(fields: map<string, string>, key: (string, FieldKind)) {
    key.1 == NumberField && key.0 in fields && ReadNumber(fields[key.0], U64).None?
  }

  /** The first field in the order of `keys` that cannot be read is a number field that is there. */
  predicate FirstTroubleIsNumber(fields: map<string, string>, keys: seq<(string, FieldKind)>) {
    exists i :: 0 <= i < |keys| && NoNumber(fields, keys[i]) && forall j :: 0 <= j < i ==> ReadsWell(fields, keys[j])
  }

  /** A put request with a header, in which the first field that cannot be read is a number field that is there. */
  predicate PutStopsAtNumber(b: Bytes) {
    && FindSeparator(b).Some?
    && var fields := ParseTextFields(AsText(b[..FindSeparator(b).value]), PUT_HEADER);
       fields.Ok? && FirstTroubleIsNumber(fields.value, PUT_KEYS)
  }

  /** Exactly which put requests end the server while they are read, whatever the bytes are. */
  lemma PutUncaughtIff(b: Bytes)
    ensures ParsePut(b) == Err(Uncaught) <==> PutStopsAtNumber(b)
  {
    hide ParseTextFields, FindSeparator, AsText, FirstTroubleIsNumber;
    if FindSeparator(b).Some? {
      var i := FindSeparator(b).value;
      var fields := ParseTextFields(AsText(b[..i]), PUT_HEADER);
      if fields.Ok? {
        FieldsUncaughtIff(fields.value, b[i + 2..]);
      }
    }
  }

  lemma FieldsUncaughtIff(fields: map<string, string>, compressed: Bytes)
    ensures PutOf(fields, compressed) == Err(Uncaught) <==> FirstTroubleIsNumber(fields, PUT_KEYS)
  {
    hide PutOf, ReadsWell, NoNumber;
    if PutOf(fields, compressed) == Err(Uncaught) {
      UncaughtAtNumber(fields, compressed);
    }
    if FirstTroubleIsNumber(fields, PUT_KEYS) {
      var i :| 0 <= i < 8 && NoNumber(fields, PUT_KEYS[i]) && forall j :: 0 <= j < i ==> ReadsWell(fields, PUT_KEYS[j]);
      NumberIsUncaught(fields, compressed, i);
    }
  }

  lemma UncaughtAtNumber(fields: map<string, string>, compressed: Bytes)
    requires PutOf(fields, compressed) == Err(Uncaught)
    ensures FirstTroubleIsNumber(fields, PUT_KEYS)
  {
    hide ReadNumber, HexDecode;
    var k := PUT_KEYS;
    var i := if NoNumber(fields, k[2]) then 2 else if NoNumber(fields, k[3]) then 3
             else if NoNumber(fields, k[5]) then 5 else if NoNumber(fields, k[6]) then 6 else 7;
    assert NoNumber(fields, k[i]) && forall j :: 0 <= j < i ==> ReadsWell(fields, k[j]);
  }

  lemma NumberIsUncaught(fields: map<string, string>, compressed: Bytes, i: nat)
    requires i < 8 && NoNumber(fields, PUT_KEYS[i]) && forall j :: 0 <= j < i ==> ReadsWell(fields, PUT_KEYS[j])
    ensures PutOf(fields, compressed) == Err(Uncaught)
  {
    hide ReadNumber, HexDecode;
    var k := PUT_KEYS;
    assert i >= 2 && ReadsWell(fields, k[0]) && ReadsWell(fields, k[1]);
    assert i > 2 ==> ReadsWell(fields, k[2]);
    assert i > 3 ==> ReadsWell(fields, k[3]) && ReadsWell(fields, k[4]);
    assert i > 5 ==> ReadsWell(fields, k[5]);
    assert i > 6 ==> ReadsWell(fields, k[6]);
  }

  /** The same for a commit request. */
  predicate CommitStopsAtNumber(b: Bytes) {
    var fields := ParseTextFields(AsText(b), COMMIT_HEADER);
    fields.Ok? && FirstTroubleIsNumber(fields.value, COMMIT_KEYS)
  }

  /** Exactly which commit requests end the server. */
  lemma CommitUncaughtIff(b: Bytes)
    ensures ParseCommit(b) == Err(Uncaught) <==> CommitStopsAtNumber(b)
  {
    hide ParseTextFields, AsText, FirstTroubleIsNumber, HexOf, NumberOf;
    var fields := ParseTextFields(AsText(b), COMMIT_HEADER);
    if fields.Ok? {
      TotalUncaughtIff(fields.value);
    }
  }

  lemma TotalUncaughtIff(fields: map<string, string>)
    ensures HexOf(fields, "session_hex").Ok? && NumberOf(fields, "total_chunks") == Err(Uncaught)
            <==> FirstTroubleIsNumber(fields, COMMIT_KEYS)
  {
    hide ReadNumber, HexDecode;
    var k := COMMIT_KEYS;
    if NoNumber(fields, k[1]) && ReadsWell(fields, k[0]) {
      assert forall j :: 0 <= j < 1 ==> ReadsWell(fields, k[j]);
    }
    if FirstTroubleIsNumber(fields, k) {
      var i :| 0 <= i < 2 && NoNumber(fields, k[i]) && forall j :: 0 <= j < i ==> ReadsWell(fields, k[j]);
      assert i == 1 && ReadsWell(fields, k[0]);
    }
  }

  /** A word that is no number, and the number 2^64. */
  lemma WordsWithoutNumber()
    ensures ReadNumber("x", U64).None? && IsWord("x") && Octets("x")
    ensures ReadNumber(Decimal(U64), U64).None? && IsWord(Decimal(U64)) && Octets(Decimal(U64))
  {
    hide Decimal;
    var d := Decimal(U64);
    DecimalRoundTrip(U64);
    DigitsLengthExact(d, "");
    assert d + "" == d && d[..|d|] == d;
    DigitsAreOctets(U64);
  }

  /** A put request whose file size is any such word ends the server, whatever follows. */
  lemma UnreadableFileSize(sessionId: string, path: string, size: string, rest: Bytes)
    requires sessionId != "" && path != "" && IsWord(size) && Octets(size) && ReadNumber(size, U64).None?
    requires Octets(sessionId) && Octets(path)
    ensures var fields := [("session_hex", HexEncode(sessionId)), ("relative_path_hex", HexEncode(path)), ("file_size", size)];
            ParsePut(AsBytes(RequestText(PUT_HEADER, fields)) + [10, 10] + rest) == Err(Uncaught)
  {
    hide IsWord, Octets, HexEncode, HexDecode, FieldsText, ReadNumber, AllHex, AsBytes, AsText, FindSeparator, ParseTextFields, FieldOf;
    var fields := [("session_hex", HexEncode(sessionId)), ("relative_path_hex", HexEncode(path)), ("file_size", size)];
    RequestHeaders();
    KeysAreWords();
    KeysAreOctets();
    HexIsWord(HexEncode(sessionId));
    HexIsWord(HexEncode(path));
    HexIsOctets(HexEncode(sessionId));
    HexIsOctets(HexEncode(path));
    TextIsOctets(fields);
    OctetsConcat(PUT_HEADER, FieldsText(fields));
    RequestSplits(fields, rest);
    FirstKeysDiffer();
    RequestReadsBack(PUT_HEADER, fields, "");
    var text := RequestText(PUT_HEADER, fields);
    assert text + "" == text;
    var m := ParseTextFields(text, PUT_HEADER).value;
    assert FieldOf(m, fields[0].0) == Ok(fields[0].1) && FieldOf(m, fields[1].0) == Ok(fields[1].1);
    assert FieldOf(m, fields[2].0) == Ok(fields[2].1);
    HexRoundTrip(sessionId);
    HexRoundTrip(path);
  }

  lemma FirstKeysDiffer()
    ensures "session_hex" != "relative_path_hex" && "session_hex" != "file_size" && "relative_path_hex" != "file_size"
  {
    assert "session_hex"[0] == 's' && "relative_path_hex"[0] == 'r' && "file_size"[0] == 'f';
  }

  /** So does a commit request whose total is such a word. */
  lemma UnreadableTotal(sessionId: string, total: string)
    requires sessionId != "" && Octets(sessionId) && IsWord(total) && Octets(total) && ReadNumber(total, U64).None?
    ensures ParseCommit(AsBytes(RequestText(COMMIT_HEADER, CommitFields(sessionId, total)) + "\n")) == Err(Uncaught)
  {
    hide Octets, IsWord, RequestText, HexEncode, AsText, AsBytes, ParseTextFields, ReadNumber, HexOf;
    CommitFieldsRead(sessionId, total);
  }

  // The status of a session: which chunks the server has, with their digests.

  const STATUS_HEADER: string := "DPC_SESSION_STATUS_V1"

  function StatusLines(received: seq<(nat, string)>): string {
    if received == [] then ""
    else Decimal(received[0].0) + " " + received[0].1 + "\n" + StatusLines(received[1..])
  }

  function MakeStatus(received: seq<(nat, string)>): string {
    STATUS_HEADER + "\n" + StatusLines(received)
  }

  function ReadStatus(s: string, out: map<nat, string>): map<nat, string>
    decreases |s|
  {
    var index := ReadNumber(s, U64);
    if index.None? then out
    else
      var sha := ReadWord(index.value.1);
      if sha.None? then out else ReadStatus(sha.value.1, out[index.value.0 := sha.value.0])
  }

  function ParseStatus(text: string): Option<map<nat, string>> {
    var (header, rest) :- ReadWord(text);
    if header != STATUS_HEADER then None else Some(ReadStatus(rest, map[]))
  }

  method ParseStatusText(text: string) returns (result: Option<map<nat, string>>)
    ensures result == ParseStatus(text)
  {
    hide ReadWord, ReadNumber;
    var header := ReadWord(text);
    if header.None? || header.value.0 != STATUS_HEADER {
      return None;
    }
    var out: map<nat, string> := map[];
    var rest := header.value.1;
    while true
      invariant ReadStatus(rest, out) == ReadStatus(header.value.1, map[])
      decreases |rest|
    {
      var index := ReadNumber(rest, U64);
      if index.None? {
        break;
      }
      var sha := ReadWord(index.value.1);
      if sha.None? {
        break;
      }
      out := out[index.value.0 := sha.value.0];
      rest := sha.value.1;
    }
    return Some(out);
  }

  ghost predicate ProperStatus(received: seq<(nat, string)>) {
    forall i :: 0 <= i < |received| ==> received[i].0 < U64 && IsWord(received[i].1)
  }

  /** The map with these entries, later ones overriding. */
  function StatusMap(received: seq<(nat, string)>, out: map<nat, string>): map<nat, string> {
    if received == [] then out else StatusMap(received[1..], out[received[0].0 := received[0].1])
  }

  lemma {:induction false} StatusLinesReadBack(received: seq<(nat, string)>, out: map<nat, string>)
    requires ProperStatus(received)
    ensures ReadStatus("\n" + StatusLines(received), out) == StatusMap(received, out)
  {
    hide ReadNumber, ReadWord, Decimal;
    if received == [] {
      NoNumberInNewline();
    } else {
      var index, sha, more := received[0].0, received[0].1, "\n" + StatusLines(received[1..]);
      var line := Decimal(index) + ([' '] + (sha + more));
      assert "\n" + StatusLines(received) == ['\n'] + line by {
        StatusLine(Decimal(index), sha, StatusLines(received[1..]));
      }
      ReadAfterSpace('\n', line, U64);
      ReadNumberExact(index, [' '] + (sha + more), U64);
      ReadAfterSpace(' ', sha + more, 1);
      ReadWordExact(sha, more);
      StatusLinesReadBack(received[1..], out[index := sha]);
    }
  }

  lemma StatusLine(index: string, sha: string, more: string)
    ensures "\n" + (index + " " + sha + "\n" + more) == ['\n'] + (index + ([' '] + (sha + ("\n" + more))))
  {
    ConcatAssociates(index + " " + sha, "\n", more);
    ConcatAssociates(index + " ", sha, "\n" + more);
    ConcatAssociates(index, " ", sha + ("\n" + more));
  }

  lemma NoNumberInNewline()
    ensures ReadNumber("\n" + "", U64) == None
  {
    assert SkipSpaces("\n" + "") == "";
  }

  /** The client learns exactly what the server has. */
  lemma StatusReadsBack(received: seq<(nat, string)>)
    requires ProperStatus(received)
    ensures ParseStatus(MakeStatus(received)) == Some(StatusMap(received, map[]))
  {
    hide ReadWord, StatusLines, ReadStatus;
    StatusLinesReadBack(received, map[]);
    assert MakeStatus(received) == STATUS_HEADER + ("\n" + StatusLines(received));
    assert IsWord(STATUS_HEADER);
    ReadWordExact(STATUS_HEADER, "\n" + StatusLines(received));
  }
}
