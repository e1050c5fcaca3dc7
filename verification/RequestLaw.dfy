/** What every payload of a request or a status says, and to whom it says nothing. */
module RequestLaw {
  import opened Wrappers
  import opened Slices
  import opened Bytes
  import opened Text
  import opened TextLaw
  import opened Payloads

  // Pairs of words: a key and its value.

  /** The last pair with this key has this value. */
  ghost predicate LastPair(ws: seq<string>, key: string, value: string) {
    exists k: nat :: PairAt(ws, k, key, value)
  }

  ghost predicate PairAt(ws: seq<string>, k: nat, key: string, value: string) {
    && 2 * k + 1 < |ws| && ws[2 * k] == key && ws[2 * k + 1] == value
    && forall j :: k < j && 2 * j + 1 < |ws| ==> ws[2 * j] != key
  }

  ghost predicate NoPair(ws: seq<string>, key: string) {
    forall j :: 0 <= j && 2 * j + 1 < |ws| ==> ws[2 * j] != key
  }

  lemma Shifted(ws: seq<string>, k: nat)
    requires 2 * k + 3 < |ws|
    ensures ws[2..][2 * k] == ws[2 * (k + 1)] && ws[2..][2 * k + 1] == ws[2 * (k + 1) + 1]
  {
  }

  lemma NoPairBehindFirst(ws: seq<string>, key: string)
    requires |ws| >= 2
    ensures NoPair(ws, key) <==> ws[0] != key && NoPair(ws[2..], key)
  {
    if NoPair(ws, key) {
      assert ws[2 * 0] != key;
      forall j | 0 <= j && 2 * j + 1 < |ws| - 2
        ensures ws[2..][2 * j] != key
      {
        Shifted(ws, j);
        assert ws[2 * (j + 1)] != key;
      }
    }
    if ws[0] != key && NoPair(ws[2..], key) {
      forall j | 0 <= j && 2 * j + 1 < |ws|
        ensures ws[2 * j] != key
      {
        if j > 0 {
          Shifted(ws, j - 1);
          assert ws[2..][2 * (j - 1)] != key;
        }
      }
    }
  }

  lemma PairAtLater(ws: seq<string>, k: nat, key: string, value: string)
    requires |ws| >= 2
    ensures PairAt(ws, k + 1, key, value) <==> PairAt(ws[2..], k, key, value)
  {
    if 2 * k + 3 < |ws| {
      Shifted(ws, k);
      if PairAt(ws, k + 1, key, value) {
        forall j | k < j && 2 * j + 1 < |ws| - 2
          ensures ws[2..][2 * j] != key
        {
          Shifted(ws, j);
          assert ws[2 * (j + 1)] != key;
        }
      }
      if PairAt(ws[2..], k, key, value) {
        forall j | k + 1 < j && 2 * j + 1 < |ws|
          ensures ws[2 * j] != key
        {
          Shifted(ws, j - 1);
          assert ws[2..][2 * (j - 1)] != key;
        }
      }
    }
  }

  lemma PairAtFirst(ws: seq<string>, key: string, value: string)
    requires |ws| >= 2
    ensures PairAt(ws, 0, key, value) <==> NoPair(ws[2..], key) && ws[0] == key && ws[1] == value
  {
    if PairAt(ws, 0, key, value) {
      forall j | 0 <= j && 2 * j + 1 < |ws| - 2
        ensures ws[2..][2 * j] != key
      {
        Shifted(ws, j);
        assert ws[2 * (j + 1)] != key;
      }
    }
    if NoPair(ws[2..], key) {
      forall j | 0 < j && 2 * j + 1 < |ws|
        ensures ws[2 * j] != key
      {
        Shifted(ws, j - 1);
        assert ws[2..][2 * (j - 1)] != key;
      }
    }
  }

  lemma PairsBehindFirst(ws: seq<string>, key: string, value: string)
    requires |ws| >= 2
    ensures NoPair(ws, key) <==> ws[0] != key && NoPair(ws[2..], key)
    ensures LastPair(ws, key, value) <==> LastPair(ws[2..], key, value) || (NoPair(ws[2..], key) && ws[0] == key && ws[1] == value)
  {
    hide PairAt, NoPair;
    NoPairBehindFirst(ws, key);
    PairAtFirst(ws, key, value);
    if k: nat :| PairAt(ws, k, key, value) {
      if k > 0 {
        PairAtLater(ws, k - 1, key, value);
      }
    }
    if k: nat :| PairAt(ws[2..], k, key, value) {
      PairAtLater(ws, k, key, value);
    }
  }

  lemma {:induction false} ReadFieldsIff(ws: seq<string>, fields: map<string, string>, key: string, value: string)
    ensures key in ReadFields(ws, fields) && ReadFields(ws, fields)[key] == value <==>
      LastPair(ws, key, value) || (NoPair(ws, key) && key in fields && fields[key] == value)
    decreases |ws|
  {
    hide LastPair, NoPair;
    if |ws| >= 2 {
      PairsBehindFirst(ws, key, value);
      ReadFieldsIff(ws[2..], fields[ws[0] := ws[1]], key, value);
      OnlyOne(ws[2..], key, value);
    } else {
      FewWords(ws, key, value);
    }
  }

  lemma OnlyOne(ws: seq<string>, key: string, value: string)
    ensures !(LastPair(ws, key, value) && NoPair(ws, key))
  {
    if k: nat :| PairAt(ws, k, key, value) {
      assert ws[2 * k] == key;
    }
  }

  lemma FewWords(ws: seq<string>, key: string, value: string)
    requires |ws| < 2
    ensures !LastPair(ws, key, value) && NoPair(ws, key)
  {
  }

  lemma FieldIff(ws: seq<string>, key: string, value: string)
    ensures FieldOf(ReadFields(ws, map[]), key) == Ok(value) <==> LastPair(ws, key, value)
  {
    hide LastPair, NoPair;
    ReadFieldsIff(ws, map[], key, value);
  }

  ghost predicate SaysHex(ws: seq<string>, key: string, s: string) {
    exists token :: LastPair(ws, key, token) && Spells(token, s)
  }

  /** The value starts with the number; what follows it does not matter. */
  ghost predicate SaysNumber(ws: seq<string>, key: string, n: nat) {
    exists token, more :: LastPair(ws, key, token) && NumberAhead(token, U64, n, more)
  }

  lemma HexFieldIff(ws: seq<string>, key: string, s: string)
    ensures Payloads.HexOf(ReadFields(ws, map[]), key) == Ok(s) <==> SaysHex(ws, key, s)
  {
    hide HexDecode, Spells, LastPair, FieldOf;
    var fields := ReadFields(ws, map[]);
    if Payloads.HexOf(fields, key) == Ok(s) {
      var token := FieldOf(fields, key).value;
      FieldIff(ws, key, token);
      HexDecodeIff(token, s);
    }
    if token :| LastPair(ws, key, token) && Spells(token, s) {
      FieldIff(ws, key, token);
      HexDecodeIff(token, s);
    }
  }

  lemma NumberFieldIff(ws: seq<string>, key: string, n: nat)
    ensures NumberOf(ReadFields(ws, map[]), key) == Ok(n) <==> SaysNumber(ws, key, n)
  {
    hide ReadNumber, NumberAhead, LastPair, FieldOf;
    var fields := ReadFields(ws, map[]);
    if NumberOf(fields, key) == Ok(n) {
      var token := FieldOf(fields, key).value;
      FieldIff(ws, key, token);
      ReadNumberIff(token, U64, n, ReadNumber(token, U64).value.1);
    }
    if token, more :| LastPair(ws, key, token) && NumberAhead(token, U64, n, more) {
      FieldIff(ws, key, token);
      ReadNumberIff(token, U64, n, more);
    }
  }

  /** The words behind the header. */
  ghost predicate Request(text: string, header: string, ws: seq<string>) {
    HasWords(text, [header] + ws)
  }

  lemma RequestParses(text: string, header: string, ws: seq<string>)
    requires Request(text, header, ws)
    ensures ParseTextFields(text, header) == Ok(ReadFields(ws, map[]))
  {
    hide Words, HasWords, ReadFields;
    WordsIff(text, [header] + ws);
    assert ([header] + ws)[1..] == ws;
  }

  lemma RequestWords(text: string, header: string) returns (ws: seq<string>)
    requires ParseTextFields(text, header).Ok?
    ensures Request(text, header, ws) && ParseTextFields(text, header) == Ok(ReadFields(ws, map[]))
  {
    hide Words, HasWords, ReadFields;
    ws := Words(text)[1..];
    assert Words(text) == [header] + ws;
    WordsIff(text, [header] + ws);
  }

  // Queries and commits.

  /** A query is read exactly like this. */
  lemma QueryIff(payload: Bytes, id: string)
    ensures ParseQuery(payload) == Ok(id) <==>
      exists ws :: Request(AsText(payload), "DPC_QUERY_SESSION_V1", ws) && SaysHex(ws, "session_hex", id)
  {
    hide Payloads.HexOf, Request, ReadFields, SaysHex, ParseTextFields, AsText;
    if ParseQuery(payload) == Ok(id) {
      var ws := RequestWords(AsText(payload), QUERY_HEADER);
      HexFieldIff(ws, "session_hex", id);
    }
    if ws :| Request(AsText(payload), "DPC_QUERY_SESSION_V1", ws) && SaysHex(ws, "session_hex", id) {
      RequestParses(AsText(payload), QUERY_HEADER, ws);
      HexFieldIff(ws, "session_hex", id);
    }
  }

  ghost predicate CommitWords(ws: seq<string>, id: string, total: nat) {
    SaysHex(ws, "session_hex", id) && SaysNumber(ws, "total_chunks", total)
  }

  /** A commit request is read exactly like this. */
  lemma CommitIff(payload: Bytes, id: string, total: nat)
    ensures ParseCommit(payload) == Ok((id, total)) <==>
      exists ws :: Request(AsText(payload), "DPC_COMMIT_V1", ws) && CommitWords(ws, id, total)
  {
    hide Payloads.HexOf, NumberOf, Request, ReadFields, SaysHex, SaysNumber, ParseTextFields, AsText;
    if ParseCommit(payload) == Ok((id, total)) {
      var ws := RequestWords(AsText(payload), COMMIT_HEADER);
      HexFieldIff(ws, "session_hex", id);
      NumberFieldIff(ws, "total_chunks", total);
    }
    if ws :| Request(AsText(payload), "DPC_COMMIT_V1", ws) && CommitWords(ws, id, total) {
      RequestParses(AsText(payload), COMMIT_HEADER, ws);
      HexFieldIff(ws, "session_hex", id);
      NumberFieldIff(ws, "total_chunks", total);
    }
  }

  // Puts.

  /** The first two newlines in a row. */
  ghost predicate FirstBlankLine(b: Bytes, i: nat) {
    BlankLineAt(b, i) && forall j :: 0 <= j < i ==> !BlankLineAt(b, j)
  }

  predicate BlankLineAt(b: Bytes, i: nat) {
    i + 2 <= |b| && b[i] == 10 && b[i + 1] == 10
  }

  lemma {:induction false} SeparatorIff(b: Bytes, i: nat)
    ensures FindSeparator(b) == Some(i) <==> FirstBlankLine(b, i)
    decreases |b|
  {
    assert FirstBlankLine(b, 0) <==> BlankLineAt(b, 0);
    if |b| >= 2 && !BlankLineAt(b, 0) && i > 0 {
      SeparatorIff(b[1..], i - 1);
      assert forall j: nat :: BlankLineAt(b[1..], j) <==> BlankLineAt(b, j + 1);
      if FirstBlankLine(b[1..], i - 1) {
        forall j | 0 <= j < i
          ensures !BlankLineAt(b, j)
        {
          assert j > 0 ==> !BlankLineAt(b[1..], j - 1);
        }
      }
    }
  }

  /** The words of a put request; the mode is cut to 32 bits. */
  ghost predicate PutWords(ws: seq<string>, body: Bytes, p: PutPayload) {
    && SaysHex(ws, "session_hex", p.sessionId) && SaysHex(ws, "relative_path_hex", p.relativePath)
    && SaysNumber(ws, "file_size", p.fileSize)
    && (exists mode: nat :: SaysNumber(ws, "file_mode", mode) && p.fileMode == mode % 0x1_0000_0000)
    && LastPair(ws, "file_sha256", p.fileSha256)
    && SaysNumber(ws, "chunk_index", p.chunkIndex) && SaysNumber(ws, "raw_size", p.rawSize)
    && SaysNumber(ws, "compressed_size", |body|) && p.compressed == body
  }

  lemma PutOfIff(ws: seq<string>, body: Bytes, p: PutPayload)
    ensures PutOf(ReadFields(ws, map[]), body) == Ok(p) <==> PutWords(ws, body, p)
  {
    hide Payloads.HexOf, NumberOf, FieldOf, ReadFields, SaysHex, SaysNumber, LastPair;
    var fields := ReadFields(ws, map[]);
    HexFieldIff(ws, "session_hex", p.sessionId);
    HexFieldIff(ws, "relative_path_hex", p.relativePath);
    NumberFieldIff(ws, "file_size", p.fileSize);
    FieldIff(ws, "file_sha256", p.fileSha256);
    NumberFieldIff(ws, "chunk_index", p.chunkIndex);
    NumberFieldIff(ws, "raw_size", p.rawSize);
    NumberFieldIff(ws, "compressed_size", |body|);
    if PutOf(fields, body) == Ok(p) {
      NumberFieldIff(ws, "file_mode", NumberOf(fields, "file_mode").value);
    }
    if PutWords(ws, body, p) {
      var mode: nat :| SaysNumber(ws, "file_mode", mode) && p.fileMode == mode % 0x1_0000_0000;
      NumberFieldIff(ws, "file_mode", mode);
    }
  }

  /** Words up to the first blank line, and the chunk behind it. */
  ghost predicate PutBytes(b: Bytes, i: nat, ws: seq<string>, p: PutPayload) {
    FirstBlankLine(b, i) && Request(AsText(b[..i]), "DPC_PUT_V1", ws) && PutWords(ws, b[i + 2..], p)
  }

  /** A put request is read exactly like this. */
  lemma PutIff(b: Bytes, p: PutPayload)
    ensures ParsePut(b) == Ok(p) <==> exists i: nat, ws :: PutBytes(b, i, ws, p)
  {
    hide Request, ReadFields, PutWords, PutOf, ParseTextFields, AsText, FindSeparator;
    if ParsePut(b) == Ok(p) {
      var i := FindSeparator(b).value;
      SeparatorIff(b, i);
      var ws := RequestWords(AsText(b[..i]), PUT_HEADER);
      PutOfIff(ws, b[i + 2..], p);
      assert PutBytes(b, i, ws, p);
    }
    if i: nat, ws :| PutBytes(b, i, ws, p) {
      SeparatorIff(b, i);
      RequestParses(AsText(b[..i]), PUT_HEADER, ws);
      PutOfIff(ws, b[i + 2..], p);
    }
  }

  // The status of a session.

  /** An index and a digest, as many times as they can be read. */
  ghost predicate StatusSays(s: string, received: seq<(nat, string)>)
    decreases |received|
  {
    if received == [] then
      NoNumberAhead(s, U64) || exists n: nat, rest :: NumberAhead(s, U64, n, rest) && Blanks(rest)
    else
      exists rest, more ::
        && NumberAhead(s, U64, received[0].0, rest) && StartsWithWord(rest, received[0].1, more)
        && StatusSays(more, received[1..])
  }

  /** The last entry with this index has this digest. */
  ghost predicate LastEntry(received: seq<(nat, string)>, index: nat, sha: string) {
    exists k: nat :: EntryAt(received, k, index, sha)
  }

  ghost predicate EntryAt(received: seq<(nat, string)>, k: nat, index: nat, sha: string) {
    k < |received| && received[k] == (index, sha) && NoEntry(received[k + 1..], index)
  }

  ghost predicate NoEntry(received: seq<(nat, string)>, index: nat) {
    forall e :: e in received ==> e.0 != index
  }

  ghost predicate LastEntries(received: seq<(nat, string)>, m: map<nat, string>) {
    forall index: nat, sha :: LastEntry(received, index, sha) <==> index in m && m[index] == sha
  }

  lemma EntryBehindFirst(received: seq<(nat, string)>, index: nat, sha: string)
    requires received != []
    ensures LastEntry(received, index, sha) <==>
      LastEntry(received[1..], index, sha) || (NoEntry(received[1..], index) && received[0] == (index, sha))
    ensures NoEntry(received, index) <==> received[0].0 != index && NoEntry(received[1..], index)
  {
    assert received == [received[0]] + received[1..];
    if k: nat :| EntryAt(received, k, index, sha) {
      if k > 0 {
        assert received[1..][k..] == received[k + 1..];
        assert EntryAt(received[1..], k - 1, index, sha);
      }
    }
    if k: nat :| EntryAt(received[1..], k, index, sha) {
      assert received[1..][k + 1..] == received[k + 2..];
      assert EntryAt(received, k + 1, index, sha);
    }
    if NoEntry(received[1..], index) && received[0] == (index, sha) {
      assert EntryAt(received, 0, index, sha);
    }
  }

  lemma {:induction false} StatusMapAt(received: seq<(nat, string)>, out: map<nat, string>, index: nat, sha: string)
    ensures index in StatusMap(received, out) && StatusMap(received, out)[index] == sha <==>
      LastEntry(received, index, sha) || (NoEntry(received, index) && index in out && out[index] == sha)
    decreases |received|
  {
    hide LastEntry, NoEntry;
    if received == [] {
      assert !LastEntry([], index, sha) && NoEntry([], index) by { NothingReceived(index, sha); }
    } else {
      EntryBehindFirst(received, index, sha);
      StatusMapAt(received[1..], out[received[0].0 := received[0].1], index, sha);
      NotBoth(received[1..], index, sha);
    }
  }

  lemma NothingReceived(index: nat, sha: string)
    ensures !LastEntry([], index, sha) && NoEntry([], index)
  {
  }

  lemma NotBoth(received: seq<(nat, string)>, index: nat, sha: string)
    ensures !(LastEntry(received, index, sha) && NoEntry(received, index))
  {
    if k: nat :| EntryAt(received, k, index, sha) {
      assert received[k] in received;
    }
  }

  lemma StatusMapIff(received: seq<(nat, string)>, m: map<nat, string>)
    ensures StatusMap(received, map[]) == m <==> LastEntries(received, m)
  {
    hide LastEntry, NoEntry, StatusMap;
    var out := StatusMap(received, map[]);
    forall index: nat, sha
      ensures LastEntry(received, index, sha) <==> index in out && out[index] == sha
    {
      StatusMapAt(received, map[], index, sha);
    }
    if LastEntries(received, m) {
      forall index: nat
        ensures index in out <==> index in m
        ensures index in m ==> out[index] == m[index]
      {
        assert index in m ==> LastEntry(received, index, m[index]);
        assert index in out ==> LastEntry(received, index, out[index]);
      }
      assert out == m;
    }
  }

  lemma {:induction false} StatusIs(s: string, out: map<nat, string>) returns (received: seq<(nat, string)>)
    ensures StatusSays(s, received) && ReadStatus(s, out) == StatusMap(received, out)
    decreases |s|
  {
    hide ReadNumber, ReadWord, NumberAhead, NoNumberAhead, StartsWithWord, Blanks;
    received := [];
    var index := ReadNumber(s, U64);
    ReadNumberFailsIff(s, U64);
    if index.Some? {
      var (n, rest) := index.value;
      ReadNumberIff(s, U64, n, rest);
      var sha := ReadWord(rest);
      ReadWordFailsIff(rest);
      if sha.Some? {
        ReadWordIff(rest, sha.value.0, sha.value.1);
        var later := StatusIs(sha.value.1, out[n := sha.value.0]);
        received := [(n, sha.value.0)] + later;
        assert received[1..] == later && received[0] == (n, sha.value.0);
        assert NumberAhead(s, U64, received[0].0, rest) && StartsWithWord(rest, received[0].1, sha.value.1);
      }
    }
  }

  lemma {:induction false} StatusUnique(s: string, received: seq<(nat, string)>, out: map<nat, string>)
    requires StatusSays(s, received)
    ensures ReadStatus(s, out) == StatusMap(received, out)
    decreases |received|
  {
    hide ReadNumber, ReadWord, NumberAhead, NoNumberAhead, StartsWithWord, Blanks;
    ReadNumberFailsIff(s, U64);
    if received == [] {
      if n: nat, rest :| NumberAhead(s, U64, n, rest) && Blanks(rest) {
        ReadNumberIff(s, U64, n, rest);
        ReadWordFailsIff(rest);
      }
    } else {
      var rest, more :|
        && NumberAhead(s, U64, received[0].0, rest) && StartsWithWord(rest, received[0].1, more)
        && StatusSays(more, received[1..]);
      ReadNumberIff(s, U64, received[0].0, rest);
      ReadWordIff(rest, received[0].1, more);
      StatusUnique(more, received[1..], out[received[0].0 := received[0].1]);
    }
  }

  ghost predicate Status(text: string, received: seq<(nat, string)>) {
    exists rest :: StartsWithWord(text, "DPC_SESSION_STATUS_V1", rest) && StatusSays(rest, received)
  }

  /** A status is read exactly like this. */
  lemma StatusIff(text: string, m: map<nat, string>)
    ensures ParseStatus(text) == Some(m) <==> exists received :: Status(text, received) && LastEntries(received, m)
  {
    hide ReadWord, ReadStatus, StatusMap, StatusSays, StartsWithWord, LastEntries;
    if ParseStatus(text) == Some(m) {
      var rest := ReadWord(text).value.1;
      ReadWordIff(text, STATUS_HEADER, rest);
      var received := StatusIs(rest, map[]);
      StatusMapIff(received, m);
      assert Status(text, received);
    }
    if received :| Status(text, received) && LastEntries(received, m) {
      var rest :| StartsWithWord(text, "DPC_SESSION_STATUS_V1", rest) && StatusSays(rest, received);
      ReadWordIff(text, STATUS_HEADER, rest);
      StatusUnique(rest, received, map[]);
      StatusMapIff(received, m);
    }
  }
}
