/** Text as the backup programs read and write it: decimal numbers, hex strings, words, lines, input streams. */
module Text {
  import opened Wrappers
  import opened Slices
  import opened Bytes
  import Octet

  /** A `std::string` is a sequence of octets. */
  predicate Octets(s: string) {
    forall i :: 0 <= i < |s| ==> s[i] as int < 256
  }

  function AsBytes(s: string): (b: Bytes)
    ensures |b| == |s|
  {
    seq(|s|, i requires 0 <= i < |s| => (s[i] as int % 256) as Byte)
  }

  function AsText(b: Bytes): (s: string)
    ensures |s| == |b|
  {
    seq(|b|, i requires 0 <= i < |b| => b[i] as int as char)
  }

  lemma TextOfBytes(s: string)
    requires Octets(s)
    ensures AsText(AsBytes(s)) == s
  {
    forall i | 0 <= i < |s|
      ensures AsText(AsBytes(s))[i] == s[i]
    {
      Octet.RoundTrip(s[i] as int);
    }
  }

  predicate IsSpace(c: char) {
    c == ' ' || c == '\t' || c == '\n' || c == '\U{B}' || c == '\U{C}' || c == '\r'
  }

  predicate IsDigit(c: char) {
    '0' <= c <= '9'
  }

  predicate NoSpaces(s: string) {
    forall i :: 0 <= i < |s| ==> !IsSpace(s[i])
  }

  predicate AllDigits(s: string) {
    forall i :: 0 <= i < |s| ==> IsDigit(s[i])
  }

  /** What formatted input reads as one string. */
  predicate IsWord(s: string) {
    s != "" && NoSpaces(s)
  }

  // Decimal numbers.

  function Digit(n: nat): (c: char)
    requires n < 10
    ensures IsDigit(c)
  {
    ('0' as int + n) as char
  }

  function DigitValue(c: char): nat
    requires IsDigit(c)
  {
    c as int - '0' as int
  }

  function Decimal(n: nat): string {
    if n < 10 then [Digit(n)] else Decimal(n / 10) + [Digit(n % 10)]
  }

  function Value(s: string): nat
    requires AllDigits(s)
  {
    if s == "" then 0 else 10 * Value(s[..|s| - 1]) + DigitValue(s[|s| - 1])
  }

  lemma {:induction false} DecimalRoundTrip(n: nat)
    ensures AllDigits(Decimal(n)) && IsWord(Decimal(n)) && Value(Decimal(n)) == n
  {
    if n >= 10 {
      DecimalRoundTrip(n / 10);
      assert Decimal(n)[..|Decimal(n)| - 1] == Decimal(n / 10);
    } else {
      assert Decimal(n)[..0] == "";
    }
  }

  function Pow10(k: nat): nat {
    if k == 0 then 1 else 10 * Pow10(k - 1)
  }

  lemma {:induction false} DecimalLength(n: nat, k: nat)
    requires k > 0
    ensures |Decimal(n)| <= k <==> n < Pow10(k)
  {
    if k == 1 {
      assert Pow10(1) == 10 * Pow10(0);
    } else if n >= 10 {
      DecimalLength(n / 10, k - 1);
      assert n < Pow10(k) <==> n / 10 < Pow10(k - 1);
    } else {
      Pow10Positive(k - 1);
    }
  }

  lemma {:induction false} Pow10Positive(k: nat)
    ensures Pow10(k) >= 1
  {
    if k > 0 {
      Pow10Positive(k - 1);
    }
  }

  // Hex strings: `ManifestStore::hexEncodeString` and `hexDecodeString`.

  function HexDigit(n: nat): char
    requires n < 16
  {
    if n < 10 then ('0' as int + n) as char else ('a' as int + n - 10) as char
  }

  function Nibble(c: char): Option<nat> {
    if '0' <= c <= '9' then Some(c as int - '0' as int)
    else if 'a' <= c <= 'f' then Some(10 + c as int - 'a' as int)
    else if 'A' <= c <= 'F' then Some(10 + c as int - 'A' as int)
    else None
  }

  predicate AllHex(s: string) {
    forall i :: 0 <= i < |s| ==> Nibble(s[i]).Some?
  }

  predicate Sha256Hex(s: string) {
    |s| == 64 && AllHex(s)
  }

  function HexOf(c: char): (h: string)
    ensures |h| == 2 && AllHex(h)
  {
    [HexDigit(c as int / 16 % 16), HexDigit(c as int % 16)]
  }

  function HexEncode(s: string): (h: string)
    ensures |h| == 2 * |s| && AllHex(h)
  {
    if s == "" then "" else HexOf(s[0]) + HexEncode(s[1..])
  }

  function HexPair(s: string): Option<char>
    requires |s| >= 2
  {
    var hi :- Nibble(s[0]);
    var lo :- Nibble(s[1]);
    assert hi < 16 && lo < 16;
    Some((16 * hi + lo) as char)
  }

  function HexDecode(s: string): Option<string> {
    if s == "" then Some("")
    else if |s| == 1 then None
    else
      var c :- HexPair(s);
      var rest :- HexDecode(s[2..]);
      Some([c] + rest)
  }

  method HexEncodeString(value: string) returns (out: string)
    ensures out == HexEncode(value)
  {
    out := "";
    for i := 0 to |value|
      invariant out + HexEncode(value[i..]) == HexEncode(value)
    {
      assert value[i..][1..] == value[i + 1..];
      out := out + HexOf(value[i]);
    }
  }

  method HexDecodeString(value: string) returns (result: Option<string>)
    ensures result == HexDecode(value)
  {
    if |value| % 2 != 0 {
      OddHex(value);
      return None;
    }
    var out := "";
    var i := 0;
    assert value[0..] == value;
    PrependNothing(HexDecode(value));
    while 2 * i < |value|
      invariant 0 <= 2 * i <= |value|
      invariant HexDecode(value) == PrependText(out, HexDecode(value[2 * i..]))
    {
      SuffixOfSuffix(value, 2 * i, 2);
      var rest := value[2 * i..];
      var c := HexPair(rest);
      if c.None? {
        return None;
      }
      PrependConcat(out, [c.value], HexDecode(rest[2..]));
      out := out + [c.value];
      i := i + 1;
    }
    assert out + "" == out;
    return Some(out);
  }

  ghost function PrependText(done: string, rest: Option<string>): Option<string> {
    if rest.Some? then Some(done + rest.value) else None
  }

  lemma PrependNothing(rest: Option<string>)
    ensures PrependText("", rest) == rest
  {
    if rest.Some? {
      assert "" + rest.value == rest.value;
    }
  }

  lemma PrependConcat(done: string, more: string, rest: Option<string>)
    ensures PrependText(done, PrependText(more, rest)) == PrependText(done + more, rest)
  {
    if rest.Some? {
      ConcatAssociates(done, more, rest.value);
    }
  }

  lemma {:induction false} OddHex(s: string)
    requires |s| % 2 == 1
    ensures HexDecode(s) == None
  {
    if |s| > 1 {
      OddHex(s[2..]);
    }
  }

  lemma {:induction false} HexRoundTrip(s: string)
    requires Octets(s)
    ensures HexDecode(HexEncode(s)) == Some(s)
  {
    if s != "" {
      HexRoundTrip(s[1..]);
      assert HexEncode(s)[2..] == HexEncode(s[1..]);
      HexPairRoundTrip(s[0], HexEncode(s[1..]));
      assert [s[0]] + s[1..] == s;
    }
  }

  lemma HexPairRoundTrip(c: char, rest: string)
    requires c as int < 256
    ensures HexPair(HexOf(c) + rest) == Some(c)
  {
    assert Nibble(HexDigit(c as int / 16 % 16)) == Some(c as int / 16);
    assert Nibble(HexDigit(c as int % 16)) == Some(c as int % 16);
  }

  lemma {:induction false} HexDecodesOctets(s: string)
    ensures HexDecode(s).Some? ==> Octets(HexDecode(s).value) && 2 * |HexDecode(s).value| == |s| && AllHex(s)
  {
    if |s| > 1 {
      HexDecodesOctets(s[2..]);
      if HexDecode(s).Some? {
        assert s == [s[0], s[1]] + s[2..];
      }
    }
  }

  lemma HexIsWord(s: string)
    requires AllHex(s) && s != ""
    ensures IsWord(s)
  {
    forall i | 0 <= i < |s|
      ensures !IsSpace(s[i])
    {
      assert Nibble(s[i]).Some?;
    }
  }

  // Formatted input from a stream whose unread part is `s`.

  function SkipSpaces(s: string): (t: string)
    ensures |t| <= |s| && (t == "" || !IsSpace(t[0]))
  {
    if s != "" && IsSpace(s[0]) then SkipSpaces(s[1..]) else s
  }

  /** Length of the run of characters before the first space. */
  function WordLength(s: string): (n: nat)
    ensures n <= |s| && NoSpaces(s[..n]) && (n < |s| ==> IsSpace(s[n]))
  {
    if s == "" || IsSpace(s[0]) then 0 else 1 + WordLength(s[1..])
  }

  function DigitsLength(s: string): (n: nat)
    ensures n <= |s| && AllDigits(s[..n]) && (n < |s| ==> !IsDigit(s[n]))
  {
    if s == "" || !IsDigit(s[0]) then 0 else 1 + DigitsLength(s[1..])
  }

  /** Formatted input of a string: the next word and what is left. */
  function ReadWord(s: string): (r: Option<(string, string)>)
    ensures r.Some? ==> IsWord(r.value.0) && |r.value.1| < |s|
  {
    var t := SkipSpaces(s);
    if t == "" then None else Some((t[..WordLength(t)], t[WordLength(t)..]))
  }

  /** Formatted input of an unsigned number with `limit` values: a sign is accepted, and a minus wraps around. */
  function ReadNumber(s: string, limit: nat): (r: Option<(nat, string)>)
    requires limit > 0
    ensures r.Some? ==> r.value.0 < limit && |r.value.1| < |s|
  {
    var t := SkipSpaces(s);
    var signed := t != "" && (t[0] == '-' || t[0] == '+');
    var u := if signed then t[1..] else t;
    var n := DigitsLength(u);
    if n == 0 || Value(u[..n]) >= limit then None
    else if signed && t[0] == '-' then Some(((limit - Value(u[..n])) % limit, u[n..]))
    else Some((Value(u[..n]), u[n..]))
  }

  /** All words of a text. */
  function Words(s: string): seq<string>
    decreases |s|
  {
    var r := ReadWord(s);
    if r.None? then [] else [r.value.0] + Words(r.value.1)
  }

  /** Words separated by single spaces. */
  function Spaced(ws: seq<string>): string {
    if ws == [] then "" else if |ws| == 1 then ws[0] else ws[0] + " " + Spaced(ws[1..])
  }

  ghost predicate AllWords(ws: seq<string>) {
    forall w :: w in ws ==> IsWord(w)
  }

  /** The next character, if there is one, ends a word. */
  predicate EndsWord(rest: string) {
    rest == "" || IsSpace(rest[0])
  }

  lemma {:induction false} WordLengthExact(w: string, rest: string)
    requires NoSpaces(w) && EndsWord(rest)
    ensures WordLength(w + rest) == |w|
  {
    if w == "" {
      assert w + rest == rest;
    } else {
      assert (w + rest)[1..] == w[1..] + rest;
      WordLengthExact(w[1..], rest);
    }
  }

  lemma ReadWordExact(w: string, rest: string)
    requires IsWord(w) && EndsWord(rest)
    ensures ReadWord(w + rest) == Some((w, rest))
  {
    assert !IsSpace(w[0]) && (w + rest)[0] == w[0];
    WordLengthExact(w, rest);
    PrefixOfConcat(w, rest);
  }

  lemma {:induction false} DigitsLengthExact(d: string, rest: string)
    requires AllDigits(d) && (rest == "" || !IsDigit(rest[0]))
    ensures DigitsLength(d + rest) == |d|
  {
    if d == "" {
      assert d + rest == rest;
    } else {
      assert (d + rest)[1..] == d[1..] + rest;
      DigitsLengthExact(d[1..], rest);
    }
  }

  lemma ReadNumberExact(n: nat, rest: string, limit: nat)
    requires n < limit && EndsWord(rest)
    ensures ReadNumber(Decimal(n) + rest, limit) == Some((n, rest))
  {
    var d := Decimal(n);
    DecimalRoundTrip(n);
    assert (d + rest)[0] == d[0] && IsDigit(d[0]);
    DigitsLengthExact(d, rest);
    PrefixOfConcat(d, rest);
  }

  /** Leading spaces do not matter to formatted input. */
  lemma ReadAfterSpace(c: char, s: string, limit: nat)
    requires IsSpace(c) && limit > 0
    ensures ReadWord([c] + s) == ReadWord(s) && ReadNumber([c] + s, limit) == ReadNumber(s, limit)
    ensures Words([c] + s) == Words(s)
  {
    assert ([c] + s)[1..] == s;
  }

  lemma NextNumber(n: nat, limit: nat, tail: string)
    requires n < limit && EndsWord(tail)
    ensures ReadNumber(" " + Decimal(n) + tail, limit) == Some((n, tail))
  {
    assert " " + Decimal(n) + tail == [' '] + (Decimal(n) + tail);
    ReadAfterSpace(' ', Decimal(n) + tail, limit);
    ReadNumberExact(n, tail, limit);
  }

  lemma NextWord(w: string, tail: string)
    requires IsWord(w) && EndsWord(tail)
    ensures ReadWord(" " + w + tail) == Some((w, tail))
  {
    assert " " + w + tail == [' '] + (w + tail);
    ReadAfterSpace(' ', w + tail, 1);
    ReadWordExact(w, tail);
  }

  lemma WordsFirst(w: string, rest: string)
    requires IsWord(w) && EndsWord(rest)
    ensures Words(w + rest) == [w] + Words(rest)
  {
    ReadWordExact(w, rest);
  }

  lemma {:induction false} WordsOfSpaced(ws: seq<string>)
    requires AllWords(ws)
    ensures Words(Spaced(ws)) == ws
  {
    if |ws| == 1 {
      WordsFirst(ws[0], "");
      assert ws[0] + "" == ws[0];
    } else if ws != [] {
      var rest := Spaced(ws[1..]);
      assert Spaced(ws) == ws[0] + (" " + rest);
      WordsFirst(ws[0], " " + rest);
      ReadAfterSpace(' ', rest, 1);
      WordsOfSpaced(ws[1..]);
    }
  }

  lemma {:induction false} WordsAreWords(s: string)
    ensures AllWords(Words(s))
    decreases |s|
  {
    var r := ReadWord(s);
    if r.Some? {
      WordsAreWords(r.value.1);
    }
  }

  lemma {:induction false} SpacedHasNoBreaks(ws: seq<string>)
    requires AllWords(ws)
    ensures OneLine(Spaced(ws))
  {
    if ws != [] {
      assert IsWord(ws[0]);
    }
    if |ws| == 1 {
      WordIsOneLine(ws[0]);
    } else if ws != [] {
      SpacedHasNoBreaks(ws[1..]);
      WordIsOneLine(ws[0]);
    }
  }

  // Lines: `splitLines`.

  /** Contains no newline and no carriage return. */
  predicate OneLine(s: string) {
    forall i :: 0 <= i < |s| ==> s[i] != '\n' && s[i] != '\r'
  }

  lemma WordIsOneLine(s: string)
    requires NoSpaces(s)
    ensures OneLine(s)
  {
    forall i | 0 <= i < |s|
      ensures s[i] != '\n' && s[i] != '\r'
    {
      assert !IsSpace(s[i]);
    }
  }

  function LineLength(s: string): (n: nat)
    ensures n <= |s| && (n < |s| ==> s[n] == '\n')
  {
    if s == "" || s[0] == '\n' then 0 else 1 + LineLength(s[1..])
  }

  function StripReturn(line: string): string {
    if line != "" && line[|line| - 1] == '\r' then line[..|line| - 1] else line
  }

  function Lines(s: string): seq<string>
    decreases |s|
  {
    if s == "" then []
    else
      var n := LineLength(s);
      [StripReturn(s[..n])] + Lines(if n < |s| then s[n + 1..] else "")
  }

  function Unlines(ls: seq<string>): string {
    if ls == [] then "" else ls[0] + "\n" + Unlines(ls[1..])
  }

  ghost predicate AllOneLine(ls: seq<string>) {
    forall l :: l in ls ==> OneLine(l)
  }

  lemma {:induction false} LineLengthExact(l: string, rest: string)
    requires OneLine(l)
    ensures LineLength(l + "\n" + rest) == |l|
  {
    if l != "" {
      assert (l + "\n" + rest)[1..] == l[1..] + "\n" + rest;
      LineLengthExact(l[1..], rest);
    }
  }

  lemma {:induction false} LinesOfUnlines(ls: seq<string>)
    requires AllOneLine(ls)
    ensures Lines(Unlines(ls)) == ls
  {
    if ls != [] {
      var s := ls[0] + "\n" + Unlines(ls[1..]);
      LineLengthExact(ls[0], Unlines(ls[1..]));
      assert s[..|ls[0]|] == ls[0] && s[|ls[0]| + 1..] == Unlines(ls[1..]);
      LinesOfUnlines(ls[1..]);
    }
  }

  lemma {:induction false} UnlinesConcat(a: seq<string>, b: seq<string>)
    ensures Unlines(a + b) == Unlines(a) + Unlines(b)
  {
    if a == [] {
      assert a + b == b;
    } else {
      assert (a + b)[1..] == a[1..] + b;
      UnlinesConcat(a[1..], b);
    }
  }
}
