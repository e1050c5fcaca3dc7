/** What printing and formatted input do to every text, said without their functions. */
module TextLaw {
  import opened Wrappers
  import opened Slices
  import opened Bytes
  import opened Sorting
  import opened Text
  import Octet

  // Decimal numbers.

  /** The number that decimal digits stand for. */
  function Denotes(s: string): int {
    if s == "" then 0 else 10 * Denotes(s[..|s| - 1]) + (s[|s| - 1] as int - 48)
  }

  ghost predicate DigitsOnly(s: string) {
    s != "" && forall i :: 0 <= i < |s| ==> 48 <= s[i] as int <= 57
  }

  lemma {:induction false} ValueDenotes(s: string)
    requires AllDigits(s)
    ensures Value(s) == Denotes(s)
  {
    if s != "" {
      ValueDenotes(s[..|s| - 1]);
    }
  }

  /** A number is printed as its decimal digits without leading zeros, and as nothing else. */
  lemma DecimalIff(n: nat, s: string)
    ensures Decimal(n) == s <==> DigitsOnly(s) && Denotes(s) == n && (|s| > 1 ==> s[0] != '0')
  {
    hide Decimal, Denotes;
    DecimalRoundTrip(n);
    ValueDenotes(Decimal(n));
    NoLeadingZero(n);
    if DigitsOnly(s) && (|s| > 1 ==> s[0] != '0') {
      DigitsArePrinted(s);
    }
  }

  lemma {:induction false} DigitsArePrinted(s: string)
    requires DigitsOnly(s) && (|s| > 1 ==> s[0] != '0')
    ensures Denotes(s) >= 0 && Decimal(Denotes(s)) == s
  {
    var init, last := s[..|s| - 1], s[|s| - 1];
    assert s == init + [last] && 48 <= last as int <= 57;
    if init != "" {
      DigitsArePrinted(init);
      PositiveNumber(init);
      var n := Denotes(init);
      assert Denotes(s) == 10 * n + (last as int - 48);
      assert Denotes(s) / 10 == n && Denotes(s) % 10 == last as int - 48;
      assert Digit(last as int - 48) == last;
    } else {
      assert Denotes(s) == last as int - 48 by { assert Denotes("") == 0; }
    }
  }

  lemma {:induction false} NoLeadingZero(n: nat)
    ensures |Decimal(n)| > 0 && (|Decimal(n)| > 1 || n > 0 ==> Decimal(n)[0] != '0')
  {
    if n >= 10 {
      NoLeadingZero(n / 10);
    }
  }

  lemma {:induction false} PositiveNumber(s: string)
    requires DigitsOnly(s) && s[0] != '0'
    ensures Denotes(s) > 0
  {
    if |s| > 1 {
      PositiveNumber(s[..|s| - 1]);
    } else {
      assert s[..0] == "";
    }
  }

  // Hex strings.

  const LOWER: string := "0123456789abcdef"
  const UPPER: string := "0123456789ABCDEF"

  /** Two lower-case digits for every octet. */
  ghost predicate SpellsLower(h: string, s: string) {
    |h| == 2 * |s| && forall i :: 0 <= i < |s| ==> h[2 * i] == LOWER[s[i] as int / 16 % 16] && h[2 * i + 1] == LOWER[s[i] as int % 16]
  }

  /** A digit in either case. */
  predicate IsHexDigit(c: char, n: nat)
    requires n < 16
  {
    c == LOWER[n] || c == UPPER[n]
  }

  ghost predicate Spells(h: string, s: string) {
    && |h| == 2 * |s|
    && forall i :: 0 <= i < |s| ==>
         s[i] as int < 256 && IsHexDigit(h[2 * i], s[i] as int / 16) && IsHexDigit(h[2 * i + 1], s[i] as int % 16)
  }

  lemma LowerDigit(n: nat)
    requires n < 16
    ensures HexDigit(n) == LOWER[n]
  {
  }

  lemma NibbleIff(c: char, n: nat)
    requires n < 16
    ensures Nibble(c) == Some(n) <==> IsHexDigit(c, n)
  {
  }

  lemma NibbleSmall(c: char)
    ensures Nibble(c).Some? ==> Nibble(c).value < 16
  {
  }

  lemma {:induction false} HexEncodeSpells(s: string)
    ensures SpellsLower(HexEncode(s), s)
  {
    hide HexDigit, SpellsLower;
    if s == "" {
      assert SpellsLower("", "") by { NothingSpelled(); }
    } else {
      HexEncodeSpells(s[1..]);
      LowerDigit(s[0] as int / 16 % 16);
      LowerDigit(s[0] as int % 16);
      OneMoreSpelled(HexEncode(s[1..]), s);
    }
  }

  lemma NothingSpelled()
    ensures SpellsLower("", "")
  {
  }

  lemma OneMoreSpelled(h: string, s: string)
    requires s != "" && SpellsLower(h, s[1..])
    ensures SpellsLower([LOWER[s[0] as int / 16 % 16], LOWER[s[0] as int % 16]] + h, s)
  {
    var all := [LOWER[s[0] as int / 16 % 16], LOWER[s[0] as int % 16]] + h;
    forall i | 0 <= i < |s|
      ensures all[2 * i] == LOWER[s[i] as int / 16 % 16] && all[2 * i + 1] == LOWER[s[i] as int % 16]
    {
      if i > 0 {
        assert all[2 * i] == h[2 * (i - 1)] && all[2 * i + 1] == h[2 * (i - 1) + 1] && s[i] == s[1..][i - 1];
      }
    }
  }

  /** The hex form of a string is its spelling in lower-case digits. */
  lemma HexEncodeIff(s: string, h: string)
    ensures HexEncode(s) == h <==> SpellsLower(h, s)
  {
    HexEncodeSpells(s);
    if SpellsLower(h, s) {
      SameSpelling(HexEncode(s), h, s);
    }
  }

  lemma SameSpelling(g: string, h: string, s: string)
    requires SpellsLower(g, s) && SpellsLower(h, s)
    ensures g == h
  {
    forall k | 0 <= k < |g|
      ensures g[k] == h[k]
    {
      var i := k / 2;
      assert g[2 * i] == LOWER[s[i] as int / 16 % 16] && g[2 * i + 1] == LOWER[s[i] as int % 16];
      assert k == 2 * i || k == 2 * i + 1;
    }
  }

  lemma SpellsFirst(h: string, s: string)
    requires |h| >= 2 && s != ""
    ensures Spells(h, s) <==> s[0] as int < 256 && Nibble(h[0]) == Some(s[0] as int / 16)
                              && Nibble(h[1]) == Some(s[0] as int % 16) && Spells(h[2..], s[1..])
  {
    hide Nibble, IsHexDigit;
    if s[0] as int < 256 {
      NibbleIff(h[0], s[0] as int / 16);
      NibbleIff(h[1], s[0] as int % 16);
    }
    if Spells(h, s) {
      forall i | 0 <= i < |s| - 1
        ensures s[1..][i] as int < 256 && IsHexDigit(h[2..][2 * i], s[1..][i] as int / 16)
                && IsHexDigit(h[2..][2 * i + 1], s[1..][i] as int % 16)
      {
        assert s[1..][i] == s[i + 1] && h[2..][2 * i] == h[2 * (i + 1)] && h[2..][2 * i + 1] == h[2 * (i + 1) + 1];
      }
    }
    if s[0] as int < 256 && Nibble(h[0]) == Some(s[0] as int / 16) && Nibble(h[1]) == Some(s[0] as int % 16) && Spells(h[2..], s[1..]) {
      forall i | 0 <= i < |s|
        ensures s[i] as int < 256 && IsHexDigit(h[2 * i], s[i] as int / 16) && IsHexDigit(h[2 * i + 1], s[i] as int % 16)
      {
        if i > 0 {
          var j := i - 1;
          assert s[1..][j] as int < 256;
          assert s[1..][j] == s[i] && h[2..][2 * j] == h[2 * i] && h[2..][2 * j + 1] == h[2 * i + 1];
        }
      }
    }
  }

  /** A text is decoded to a string iff it spells it, digit by digit and in either case. */
  lemma {:induction false} HexDecodeIff(h: string, s: string)
    ensures HexDecode(h) == Some(s) <==> Spells(h, s)
    decreases |s|
  {
    hide Nibble, Spells;
    HexDecodesOctets(h);
    if s == "" {
      SpellsNothing(h);
    } else if |h| < 2 {
      SpellsLength(h, s);
    } else {
      HexDecodeIff(h[2..], s[1..]);
      SpellsFirst(h, s);
      NibbleSmall(h[0]);
      NibbleSmall(h[1]);
      assert s == [s[0]] + s[1..];
    }
  }

  lemma SpellsNothing(h: string)
    ensures Spells(h, "") <==> h == ""
  {
  }

  lemma SpellsLength(h: string, s: string)
    ensures Spells(h, s) ==> |h| == 2 * |s|
  {
  }

  // Formatted input.

  /** Space, tab, newline, vertical tab, form feed, carriage return. */
  predicate Blank(c: char) {
    c as int == 32 || 9 <= c as int <= 13
  }

  ghost predicate Blanks(s: string) {
    forall i :: 0 <= i < |s| ==> Blank(s[i])
  }

  ghost predicate NoBlanks(s: string) {
    forall i :: 0 <= i < |s| ==> !Blank(s[i])
  }

  lemma {:induction false} SkipsGap(gap: string, t: string)
    requires Blanks(gap) && (t == "" || !Blank(t[0]))
    ensures SkipSpaces(gap + t) == t
  {
    if gap == "" {
      assert gap + t == t;
    } else {
      assert (gap + t)[1..] == gap[1..] + t && IsSpace(gap[0]);
      SkipsGap(gap[1..], t);
    }
  }

  lemma {:induction false} Skipped(s: string) returns (gap: string)
    ensures Blanks(gap) && s == gap + SkipSpaces(s)
  {
    if s != "" && IsSpace(s[0]) {
      var rest := Skipped(s[1..]);
      gap := [s[0]] + rest;
    } else {
      gap := "";
    }
  }

  /** `s` starts, behind blanks, with the whole of `word`, and `rest` is what follows. */
  ghost predicate StartsWithWord(s: string, word: string, rest: string) {
    exists gap :: Blanks(gap) && s == gap + word + rest && word != "" && NoBlanks(word) && (rest == "" || Blank(rest[0]))
  }

  /** Formatted input of a string. */
  lemma ReadWordIff(s: string, word: string, rest: string)
    ensures ReadWord(s) == Some((word, rest)) <==> StartsWithWord(s, word, rest)
  {
    hide ReadWord;
    if ReadWord(s) == Some((word, rest)) {
      WordRead(s, word, rest);
    }
    if StartsWithWord(s, word, rest) {
      var gap :| Blanks(gap) && s == gap + word + rest && word != "" && NoBlanks(word) && (rest == "" || Blank(rest[0]));
      ConcatAssociates(gap, word, rest);
      WordStarts(gap, word, rest);
    }
  }

  lemma WordRead(s: string, word: string, rest: string)
    requires ReadWord(s) == Some((word, rest))
    ensures StartsWithWord(s, word, rest)
  {
    hide SkipSpaces, WordLength;
    var gap := Skipped(s);
    var t := SkipSpaces(s);
    assert t == word + rest;
    ConcatAssociates(gap, word, rest);
    assert NoBlanks(word) by { assert NoSpaces(word); }
  }

  lemma WordStarts(gap: string, word: string, rest: string)
    requires Blanks(gap) && word != "" && NoBlanks(word) && (rest == "" || Blank(rest[0]))
    ensures ReadWord(gap + (word + rest)) == Some((word, rest))
  {
    hide SkipSpaces, WordLength;
    assert (word + rest)[0] == word[0];
    SkipsGap(gap, word + rest);
    assert NoSpaces(word);
    WordLengthExact(word, rest);
    PrefixOfConcat(word, rest);
  }

  /** A word can be read unless all is blank. */
  lemma ReadWordFailsIff(s: string)
    ensures ReadWord(s).None? <==> Blanks(s)
  {
    var gap := Skipped(s);
    if SkipSpaces(s) == "" {
      assert s == gap;
    }
    if Blanks(s) {
      SkipsGap(s, "");
      assert s + "" == s;
    }
  }

  /** `s` starts, behind blanks, with a sign or none and digits that denote `m`; `rest` is what follows. */
  ghost predicate StartsWithNumber(s: string, sign: string, m: nat, rest: string) {
    exists gap, digits :: Blanks(gap) && s == gap + (sign + (digits + rest)) && NumberEnds(sign, digits, m, rest)
  }

  ghost predicate NumberEnds(sign: string, digits: string, m: nat, rest: string) {
    && (sign == "" || sign == "+" || sign == "-")
    && DigitsOnly(digits) && Denotes(digits) == m && (rest == "" || !(48 <= rest[0] as int <= 57))
  }

  /** What a number with this sign is read as: a minus wraps around. */
  ghost predicate ReadAs(sign: string, m: nat, limit: nat, n: nat) {
    m < limit && n == if sign == "-" && m > 0 then limit - m else m
  }

  /** What formatted input takes for an unsigned number: digits below the limit, and `rest` follows. */
  ghost predicate NumberAhead(s: string, limit: nat, n: nat, rest: string) {
    exists sign, m: nat :: StartsWithNumber(s, sign, m, rest) && ReadAs(sign, m, limit, n)
  }

  ghost predicate NoNumberAhead(s: string, limit: nat) {
    forall n: nat, rest :: !NumberAhead(s, limit, n, rest)
  }

  lemma ReadNumberFailsIff(s: string, limit: nat)
    requires limit > 0
    ensures ReadNumber(s, limit).None? <==> NoNumberAhead(s, limit)
  {
    hide ReadNumber, NumberAhead;
    if ReadNumber(s, limit).Some? {
      ReadNumberIff(s, limit, ReadNumber(s, limit).value.0, ReadNumber(s, limit).value.1);
    }
    if n: nat, rest :| NumberAhead(s, limit, n, rest) {
      ReadNumberIff(s, limit, n, rest);
    }
  }

  /** Formatted input of an unsigned number. */
  lemma ReadNumberIff(s: string, limit: nat, n: nat, rest: string)
    requires limit > 0
    ensures ReadNumber(s, limit) == Some((n, rest)) <==> NumberAhead(s, limit, n, rest)
  {
    hide StartsWithNumber, ReadAs;
    if ReadNumber(s, limit) == Some((n, rest)) {
      var sign, m := NumberRead(s, limit, n, rest);
    }
    if sign, m: nat :| StartsWithNumber(s, sign, m, rest) && ReadAs(sign, m, limit, n) {
      NumberStarts(s, limit, sign, m, n, rest);
    }
  }

  lemma NumberRead(s: string, limit: nat, n: nat, rest: string) returns (sign: string, m: nat)
    requires limit > 0 && ReadNumber(s, limit) == Some((n, rest))
    ensures StartsWithNumber(s, sign, m, rest) && ReadAs(sign, m, limit, n)
  {
    hide Value, Denotes, SkipSpaces, DigitsLength, NumberEnds, ReadNumber;
    var gap := Skipped(s);
    var u;
    sign, u := SignSplit(s, limit);
    var digits := u[..DigitsLength(u)];
    m := Value(digits);
    DigitsRead(u, sign);
    assert u == digits + rest;
  }

  lemma SignSplit(s: string, limit: nat) returns (sign: string, u: string)
    requires limit > 0
    ensures (sign == "" || sign == "+" || sign == "-") && SkipSpaces(s) == sign + u
    ensures var k := DigitsLength(u);
      ReadNumber(s, limit) == if k == 0 || Value(u[..k]) >= limit then None
                              else Some((if sign == "-" && Value(u[..k]) > 0 then limit - Value(u[..k]) else Value(u[..k]), u[k..]))
  {
    hide Value, SkipSpaces, DigitsLength;
    var t := SkipSpaces(s);
    if t != "" && (t[0] == '-' || t[0] == '+') {
      sign, u := [t[0]], t[1..];
    } else {
      sign, u := "", t;
    }
    WrapsAround(limit, Value(u[..DigitsLength(u)]));
  }

  lemma WrapsAround(limit: nat, m: nat)
    requires limit > 0
    ensures m < limit ==> (limit - m) % limit == if m > 0 then limit - m else 0
  {
  }

  lemma DigitsRead(u: string, sign: string)
    requires DigitsLength(u) > 0 && (sign == "" || sign == "+" || sign == "-")
    ensures var digits := u[..DigitsLength(u)]; NumberEnds(sign, digits, Value(digits), u[DigitsLength(u)..])
  {
    var digits := u[..DigitsLength(u)];
    ValueDenotes(digits);
    assert AllDigits(digits);
  }

  lemma NumberStarts(s: string, limit: nat, sign: string, m: nat, n: nat, rest: string)
    requires limit > 0 && StartsWithNumber(s, sign, m, rest) && ReadAs(sign, m, limit, n)
    ensures ReadNumber(s, limit) == Some((n, rest))
  {
    hide Denotes, SkipSpaces, ReadNumber, DigitsOnly, Value, DigitsLength;
    var gap, digits :| Blanks(gap) && s == gap + (sign + (digits + rest)) && NumberEnds(sign, digits, m, rest);
    NoBlankFirst(sign, digits, rest);
    SkipsGap(gap, sign + (digits + rest));
    DigitsEnd(digits, m, rest);
    SignedReads(s, limit, sign, digits + rest);
  }

  lemma NoBlankFirst(sign: string, digits: string, rest: string)
    requires (sign == "" || sign == "+" || sign == "-") && DigitsOnly(digits)
    ensures var t := sign + (digits + rest); t != "" && !Blank(t[0])
  {
  }

  lemma DigitsEnd(digits: string, m: nat, rest: string)
    requires DigitsOnly(digits) && Denotes(digits) == m && (rest == "" || !(48 <= rest[0] as int <= 57))
    ensures var u := digits + rest;
      && u != "" && u[0] != '+' && u[0] != '-' && 0 < DigitsLength(u) <= |u|
      && Value(u[..DigitsLength(u)]) == m && u[DigitsLength(u)..] == rest
  {
    hide Value, Denotes;
    assert AllDigits(digits);
    ValueDenotes(digits);
    DigitsLengthExact(digits, rest);
    PrefixOfConcat(digits, rest);
  }

  lemma SignedReads(s: string, limit: nat, sign: string, u: string)
    requires limit > 0 && (sign == "" || sign == "+" || sign == "-") && SkipSpaces(s) == sign + u
    requires u != "" && u[0] != '+' && u[0] != '-'
    ensures var k := DigitsLength(u);
      k > 0 && Value(u[..k]) < limit ==>
        ReadNumber(s, limit) == Some((if sign == "-" && Value(u[..k]) > 0 then limit - Value(u[..k]) else Value(u[..k]), u[k..]))
  {
    hide Value, SkipSpaces, DigitsLength;
    WrapsAround(limit, Value(u[..DigitsLength(u)]));
    var t := sign + u;
    if sign == "" {
      assert t == u;
    } else {
      assert t[0] == sign[0] && t[1..] == u;
    }
  }

  // Words and lines.

  /** The words of `s` are these: blanks before, between and behind them and nothing else. */
  ghost predicate HasWords(s: string, ws: seq<string>)
    decreases |ws|
  {
    if ws == [] then Blanks(s) else exists rest :: StartsWithWord(s, ws[0], rest) && HasWords(rest, ws[1..])
  }

  lemma {:induction false} WordsIff(s: string, ws: seq<string>)
    ensures Words(s) == ws <==> HasWords(s, ws)
    decreases |ws|
  {
    hide ReadWord, StartsWithWord, Blanks;
    ReadWordFailsIff(s);
    if ws != [] {
      if Words(s) == ws {
        var r := ReadWord(s).value;
        ReadWordIff(s, r.0, r.1);
        WordsIff(r.1, ws[1..]);
      }
      if HasWords(s, ws) {
        var rest :| StartsWithWord(s, ws[0], rest) && HasWords(rest, ws[1..]);
        ReadWordIff(s, ws[0], rest);
        WordsIff(rest, ws[1..]);
        assert ws == [ws[0]] + ws[1..];
      }
    }
  }

  /** One line as it stands in a text, without its newline but perhaps with a carriage return. */
  ghost predicate Reads(raw: string, line: string) {
    && (forall i :: 0 <= i < |raw| ==> raw[i] != '\n')
    && (raw == line + "\r" || (raw == line && (line == "" || line[|line| - 1] != '\r')))
  }

  /** A text has these lines; the last one need not end in a newline. */
  ghost predicate HasLines(s: string, ls: seq<string>)
    decreases |ls|
  {
    if ls == [] then s == ""
    else
      exists rest :: StartsWithLine(s, ls[0], rest) && HasLines(rest, ls[1..])
  }

  ghost predicate StartsWithLine(s: string, line: string, rest: string) {
    exists raw :: Reads(raw, line) && (s == raw + "\n" + rest || (s == raw && raw != "" && rest == ""))
  }

  lemma {:induction false} LineLengthIs(raw: string, rest: string)
    requires forall i :: 0 <= i < |raw| ==> raw[i] != '\n'
    requires rest == "" || rest[0] == '\n'
    ensures LineLength(raw + rest) == |raw|
  {
    if raw == "" {
      assert raw + rest == rest;
    } else {
      assert (raw + rest)[1..] == raw[1..] + rest;
      LineLengthIs(raw[1..], rest);
    }
  }

  lemma {:induction false} LineHasNoBreak(s: string)
    ensures forall i :: 0 <= i < LineLength(s) ==> s[i] != '\n'
  {
    if s != "" && s[0] != '\n' {
      LineHasNoBreak(s[1..]);
      forall i | 0 <= i < LineLength(s)
        ensures s[i] != '\n'
      {
        if i > 0 {
          assert s[i] == s[1..][i - 1];
        }
      }
    }
  }

  lemma StripIff(raw: string, line: string)
    requires forall i :: 0 <= i < |raw| ==> raw[i] != '\n'
    ensures StripReturn(raw) == line <==> Reads(raw, line)
  {
    if raw != "" && raw[|raw| - 1] == '\r' {
      assert raw == raw[..|raw| - 1] + "\r";
      if raw == line + "\r" {
        assert raw[..|raw| - 1] == line;
      }
    }
  }

  /** Splitting a text gives its lines. */
  lemma {:induction false} LinesIff(s: string, ls: seq<string>)
    ensures Lines(s) == ls <==> HasLines(s, ls)
    decreases |ls|
  {
    hide StripReturn, StartsWithLine;
    if ls != [] {
      if Lines(s) == ls {
        var rest := FirstLine(s);
        LinesIff(rest, ls[1..]);
      }
      if HasLines(s, ls) {
        var rest :| StartsWithLine(s, ls[0], rest) && HasLines(rest, ls[1..]);
        LinesStart(s, ls[0], rest);
        LinesIff(rest, ls[1..]);
        assert ls == [ls[0]] + ls[1..];
      }
    }
  }

  lemma FirstLine(s: string) returns (rest: string)
    requires s != ""
    ensures Lines(s) != [] && StartsWithLine(s, Lines(s)[0], rest) && Lines(s)[1..] == Lines(rest)
  {
    hide StripReturn, Reads, Lines, LineLength;
    var n := LineLength(s);
    var raw := s[..n];
    rest := if n < |s| then s[n + 1..] else "";
    LinesUnfold(s);
    LineHasNoBreak(s);
    StripIff(raw, StripReturn(raw));
    SplitAt(s, n);
    assert Reads(raw, Lines(s)[0]);
  }

  lemma SplitAt(s: string, n: nat)
    requires n <= |s|
    ensures if n < |s| then s == s[..n] + [s[n]] + s[n + 1..] else s == s[..n]
  {
  }

  lemma LinesStart(s: string, line: string, rest: string)
    requires StartsWithLine(s, line, rest)
    ensures Lines(s) == [line] + Lines(rest)
  {
    hide StripReturn, Lines;
    var raw :| Reads(raw, line) && (s == raw + "\n" + rest || (s == raw && raw != "" && rest == ""));
    StripIff(raw, line);
    if s == raw + "\n" + rest {
      assert s == raw + ("\n" + rest);
      LineLengthIs(raw, "\n" + rest);
      assert s[..|raw|] == raw && s[|raw| + 1..] == rest;
    } else {
      assert s == raw + "";
      LineLengthIs(raw, "");
      assert s[..|raw|] == raw;
    }
    LinesUnfold(s);
  }

  lemma LinesUnfold(s: string)
    requires s != ""
    ensures var n := LineLength(s); Lines(s) == [StripReturn(s[..n])] + Lines(if n < |s| then s[n + 1..] else "")
  {
  }

  // The order of names.

  /** The first place where the two differ; a proper prefix comes first. */
  ghost predicate DiffersAt(x: string, y: string, k: nat) {
    k <= |x| && k < |y| && x[..k] == y[..k] && (k == |x| || x[k] as int < y[k] as int)
  }

  lemma {:induction false} LessTextIff(x: string, y: string)
    ensures LessText(x, y) <==> exists k: nat :: DiffersAt(x, y, k)
  {
    hide DiffersAt;
    if x != "" && y != "" {
      LessTextIff(x[1..], y[1..]);
      if k: nat :| DiffersAt(x, y, k) {
        DiffersBefore(x, y, k);
      }
      if LessText(x, y) {
        if x[0] < y[0] {
          DiffersFirst(x, y);
        } else {
          var k: nat :| DiffersAt(x[1..], y[1..], k);
          DiffersLater(x, y, k);
        }
      }
    } else {
      DiffersEmpty(x, y);
    }
  }

  lemma DiffersBefore(x: string, y: string, k: nat)
    requires x != "" && y != "" && DiffersAt(x, y, k)
    ensures if k == 0 then x[0] < y[0] else x[0] == y[0] && DiffersAt(x[1..], y[1..], k - 1)
  {
    if k > 0 {
      assert x[0] == x[..k][0] && y[0] == y[..k][0];
      assert x[1..][..k - 1] == x[..k][1..] && y[1..][..k - 1] == y[..k][1..];
    }
  }

  lemma DiffersFirst(x: string, y: string)
    requires x != "" && y != "" && x[0] < y[0]
    ensures DiffersAt(x, y, 0)
  {
  }

  lemma DiffersLater(x: string, y: string, k: nat)
    requires x != "" && y != "" && x[0] == y[0] && DiffersAt(x[1..], y[1..], k)
    ensures DiffersAt(x, y, k + 1)
  {
    assert x[..k + 1] == [x[0]] + x[1..][..k] && y[..k + 1] == [y[0]] + y[1..][..k];
  }

  lemma DiffersEmpty(x: string, y: string)
    requires x == "" || y == ""
    ensures (exists k: nat :: DiffersAt(x, y, k)) <==> x == "" && y != ""
  {
    if y != "" && x == "" {
      assert DiffersAt(x, y, 0);
    }
  }

  // Bytes.

  /** The bytes of a string are the codes of its characters. */
  lemma AsBytesIff(s: string, b: Bytes)
    requires Octets(s)
    ensures AsBytes(s) == b <==> |b| == |s| && forall i :: 0 <= i < |s| ==> b[i] as int == s[i] as int
  {
    forall i | 0 <= i < |s|
      ensures AsBytes(s)[i] as int == s[i] as int
    {
      Octet.RoundTrip(s[i] as int);
    }
    if |b| == |s| && forall i :: 0 <= i < |s| ==> b[i] as int == s[i] as int {
      forall i | 0 <= i < |s|
        ensures AsBytes(s)[i] == b[i]
      {
        Octet.Onto(s[i] as int, b[i]);
      }
    }
  }

  lemma AsTextIff(b: Bytes, s: string)
    ensures AsText(b) == s <==> Octets(s) && AsBytes(s) == b
  {
    forall i | 0 <= i < |b|
      ensures AsText(b)[i] as int < 256 && AsBytes(AsText(b))[i] == b[i]
    {
      Octet.Onto(b[i] as int, b[i]);
    }
    if Octets(s) && AsBytes(s) == b {
      TextOfBytes(s);
    }
  }
}
