/**
 The header block of a provider request as `read_request` reads it: UTF-8, CRLF lines, a
 three-word request line and the first Content-Length (src/provider_server/http_json.rs:132-156).
 */
module HttpHead {
  import opened Wrappers
  import opened Text
  import opened Decimals
  import Utf8

  datatype HeadError =
    | NotUtf8
    | MethodAbsent
    | PathAbsent
    | RequestLineInvalid
    | ContentLengthInvalid

  datatype Head = Head(verb: string, path: string, contentLength: nat)

  type HeadResult<+T> = Result<T, HeadError>

  predicate CrlfAtFront(s: string)
  {
    |s| >= 2 && s[0] == '\r' && s[1] == '\n'
  }

  /** `split("\r\n")` */
  function Lines(s: string): (lines: seq<string>)
    ensures |lines| >= 1
  {
    if s == "" then [""]
    else if CrlfAtFront(s) then [""] + Lines(s[2..])
    else
      var rest := Lines(s[1..]);
      [[s[0]] + rest[0]] + rest[1..]
  }

  /** The text up to the first whitespace character. */
  function FirstWord(s: string): (word: string)
    ensures |word| <= |s|
  {
    if s == "" || Utf8.WhitespaceLength(s) > 0 then "" else [s[0]] + FirstWord(s[1..])
  }

  /** `split_whitespace` */
  function Words(s: string): seq<string>
    decreases |s|
  {
    if s == "" then []
    else if Utf8.WhitespaceLength(s) > 0 then Words(s[Utf8.WhitespaceLength(s)..])
    else [FirstWord(s)] + Words(s[|FirstWord(s)|..])
  }

  function TrimStart(s: string): string
  {
    if Utf8.WhitespaceLength(s) > 0 then TrimStart(s[Utf8.WhitespaceLength(s)..]) else s
  }

  function TrimEnd(s: string): string
  {
    if Utf8.IsBlank(s) then "" else [s[0]] + TrimEnd(s[1..])
  }

  function AsciiLower(c: char): char
  {
    if 'A' <= c <= 'Z' then ((c as int) + 32) as char else c
  }

  predicate EqualIgnoreCase(a: string, b: string)
  {
    |a| == |b| && forall i :: 0 <= i < |a| ==> AsciiLower(a[i]) == AsciiLower(b[i])
  }

  predicate AllDigits(s: string)
  {
    forall i :: 0 <= i < |s| ==> IsDigit(s[i])
  }

  /** `str::parse::<usize>`: an optional plus sign, digits, no overflow. */
  function ParseUsize(s: string): (r: Option<nat>)
    ensures r.Some? ==> r.value < U64
  {
    var digits := if s != "" && s[0] == '+' then s[1..] else s;
    if digits != "" && AllDigits(digits) && DigitsValue(digits) < U64
    then Some(DigitsValue(digits)) else None
  }

  predicate IsContentLength(line: string)
  {
    var colon := Find(line, ":");
    colon.Some? && EqualIgnoreCase(line[..colon.value], "content-length")
  }

  /** The text after the first colon. */
  function FieldValue(line: string): string
    requires IsContentLength(line)
  {
    line[Find(line, ":").value + 1..]
  }

  /** The first Content-Length line decides; without one the length is zero. */
  function ContentLength(lines: seq<string>): HeadResult<nat>
  {
    if lines == [] then Ok(0)
    else if IsContentLength(lines[0]) then
      var value := ParseUsize(TrimEnd(TrimStart(FieldValue(lines[0]))));
      if value.Some? then Ok(value.value) else Err(ContentLengthInvalid)
    else ContentLength(lines[1..])
  }

  function ParseHead(header: string): HeadResult<Head>
  {
    if !Utf8.Valid(header) then Err(NotUtf8)
    else
      var lines := Lines(header);
      var words := Words(lines[0]);
      if |words| < 1 then Err(MethodAbsent)
      else if |words| < 2 then Err(PathAbsent)
      else if |words| < 3 || words[2] != "HTTP/1.1" then Err(RequestLineInvalid)
      else
        var contentLength :- ContentLength(lines[1..]);
        Ok(Head(words[0], words[1], contentLength))
  }

  // ----- lines

  const CRLF := "\r\n"

  function JoinLines(lines: seq<string>): string
    requires |lines| >= 1
  {
    if |lines| == 1 then lines[0] else lines[0] + (CRLF + JoinLines(lines[1..]))
  }

  ghost predicate CrlfFree(s: string)
  {
    forall i :: 0 <= i < |s| ==> !CrlfAtFront(s[i..])
  }

  ghost predicate AreLines(lines: seq<string>)
  {
    |lines| >= 1 && forall i :: 0 <= i < |lines| ==> CrlfFree(lines[i])
  }

  lemma CrlfFreeTail(s: string)
    requires s != "" && CrlfFree(s)
    ensures CrlfFree(s[1..]) && !CrlfAtFront(s)
  {
    assert s[0..] == s;
    forall i | 0 <= i < |s[1..]| ensures !CrlfAtFront(s[1..][i..]) {
      assert s[1..][i..] == s[i + 1..];
    }
  }

  lemma CrlfFreeCons(c: char, s: string)
    requires CrlfFree(s) && !(c == '\r' && s != "" && s[0] == '\n')
    ensures CrlfFree([c] + s)
  {
    var t := [c] + s;
    forall i | 0 <= i < |t| ensures !CrlfAtFront(t[i..]) {
      if i > 0 { assert t[i..] == s[i - 1..]; }
    }
  }

  lemma {:induction false} LinesOfHead(line: string, rest: string)
    requires CrlfFree(line)
    ensures Lines(line + (CRLF + rest)) == [line] + Lines(rest)
    decreases |line|
  {
    var s := line + (CRLF + rest);
    if line == "" {
      assert s == CRLF + rest && s[2..] == rest && CrlfAtFront(s);
    } else {
      CrlfFreeTail(line);
      LinesOfHead(line[1..], rest);
      assert s[1..] == line[1..] + (CRLF + rest) && s[0] == line[0];
      assert !CrlfAtFront(s);
      assert [line[0]] + line[1..] == line;
    }
  }

  lemma {:induction false} LinesOfLast(line: string)
    requires CrlfFree(line)
    ensures Lines(line) == [line]
  {
    if line != "" {
      CrlfFreeTail(line);
      LinesOfLast(line[1..]);
      assert [line[0]] + line[1..] == line;
    }
  }

  /** Lines joined by CRLF split back out. */
  lemma {:induction false} LinesJoin(lines: seq<string>)
    requires AreLines(lines)
    ensures Lines(JoinLines(lines)) == lines
  {
    if |lines| == 1 {
      LinesOfLast(lines[0]);
    } else {
      assert AreLines(lines[1..]);
      LinesJoin(lines[1..]);
      LinesOfHead(lines[0], JoinLines(lines[1..]));
      assert lines == [lines[0]] + lines[1..];
    }
  }

  /** Every text is the join of its lines. */
  lemma {:induction false} JoinOfLines(s: string)
    ensures AreLines(Lines(s)) && JoinLines(Lines(s)) == s
    decreases |s|
  {
    if s == "" {
    } else if CrlfAtFront(s) {
      JoinOfLines(s[2..]);
      assert s == CRLF + s[2..];
      assert Lines(s)[1..] == Lines(s[2..]);
      assert JoinLines(Lines(s)) == "" + (CRLF + JoinLines(Lines(s[2..])));
    } else {
      JoinOfLines(s[1..]);
      FirstLineFront(Lines(s[1..]), s);
      PrependToFirst(s[0], Lines(s[1..]));
      JoinPrepended(s[0], Lines(s[1..]));
      assert s == [s[0]] + s[1..];
    }
  }

  lemma PrependToFirst(c: char, lines: seq<string>)
    requires AreLines(lines) && !(c == '\r' && lines[0] != "" && lines[0][0] == '\n')
    ensures AreLines([[c] + lines[0]] + lines[1..])
  {
    CrlfFreeCons(c, lines[0]);
    var longer := [[c] + lines[0]] + lines[1..];
    forall i | 0 <= i < |longer| ensures CrlfFree(longer[i]) {
      assert i > 0 ==> longer[i] == lines[i];
    }
  }

  lemma JoinPrepended(c: char, lines: seq<string>)
    requires |lines| >= 1
    ensures JoinLines([[c] + lines[0]] + lines[1..]) == [c] + JoinLines(lines)
  {
    var longer := [[c] + lines[0]] + lines[1..];
    assert longer[1..] == lines[1..] && longer[0] == [c] + lines[0];
    if |lines| > 1 {
      Associate([c], lines[0], CRLF + JoinLines(lines[1..]));
    }
  }

  lemma FirstLineFront(rest: seq<string>, s: string)
    requires s != "" && !CrlfAtFront(s) && |rest| >= 1 && JoinLines(rest) == s[1..]
    ensures !(s[0] == '\r' && rest[0] != "" && rest[0][0] == '\n')
  {
    if rest[0] != "" { assert JoinLines(rest)[0] == rest[0][0]; }
  }

  // ----- words

  ghost predicate Word(s: string)
  {
    s != "" && Utf8.SpaceFree(s)
  }

  /** The text ends here, or whitespace follows. */
  predicate Boundary(rest: string)
  {
    rest == "" || Utf8.WhitespaceLength(rest) > 0
  }

  lemma SpaceFreeTail(s: string)
    requires s != "" && Utf8.SpaceFree(s)
    ensures Utf8.SpaceFree(s[1..]) && Utf8.WhitespaceLength(s) == 0
  {
    assert s[0..] == s;
    forall i | 0 <= i < |s[1..]| ensures Utf8.WhitespaceLength(s[1..][i..]) == 0 {
      assert s[1..][i..] == s[i + 1..];
    }
  }

  lemma {:induction false} FirstWordOf(word: string, rest: string)
    requires Utf8.SpaceFree(word) && Boundary(rest)
    ensures FirstWord(word + rest) == word
  {
    var s := word + rest;
    if word == "" {
      assert s == rest;
    } else {
      SpaceFreeTail(word);
      Utf8.NoStraddle(word, rest);
      assert s[0] == word[0] && s[1..] == word[1..] + rest;
      FirstWordOf(word[1..], rest);
      assert [word[0]] + word[1..] == word;
    }
  }

  lemma {:induction false} FirstWordSplits(s: string)
    ensures var n := |FirstWord(s)|;
            FirstWord(s) == s[..n] && Boundary(s[n..]) && Utf8.SpaceFree(FirstWord(s))
  {
    if s == "" || Utf8.WhitespaceLength(s) > 0 {
      assert s[0..] == s;
    } else {
      FirstWordSplits(s[1..]);
      var n := |FirstWord(s)|;
      assert s[1..][n - 1..] == s[n..] && s == [s[0]] + s[1..];
      var word := FirstWord(s);
      forall i | 0 <= i < n ensures Utf8.WhitespaceLength(word[i..]) == 0 {
        if i > 0 {
          assert word[i..] == FirstWord(s[1..])[i - 1..];
        } else if Utf8.WhitespaceLength(word[i..]) > 0 {
          assert word[i..] == word && word + s[n..] == s;
          Utf8.WhitespacePrefix(word, s[n..]);
        }
      }
    }
  }

  lemma {:induction false} WordsSkip(blank: string, s: string)
    requires Utf8.IsBlank(blank)
    ensures Words(blank + s) == Words(s)
  {
    if blank == "" {
      assert blank + s == s;
    } else {
      var n := Utf8.WhitespaceLength(blank);
      Utf8.WhitespacePrefix(blank, s);
      assert (blank + s)[n..] == blank[n..] + s;
      WordsSkip(blank[n..], s);
    }
  }

  lemma WordsHead(word: string, rest: string)
    requires Word(word) && Boundary(rest)
    ensures Words(word + rest) == [word] + Words(rest)
  {
    var s := word + rest;
    FirstWordOf(word, rest);
    SpaceFreeTail(word);
    Utf8.NoStraddle(word, rest);
    assert s[|word|..] == rest;
  }

  /** The first word stands after blanks and before a boundary. */
  lemma {:induction false} WordsSplit(s: string) returns (lead: string, rest: string)
    requires Words(s) != []
    ensures s == lead + (Words(s)[0] + rest) && Utf8.IsBlank(lead) && Word(Words(s)[0]) && Boundary(rest)
    ensures Words(rest) == Words(s)[1..]
    decreases |s|
  {
    var n := Utf8.WhitespaceLength(s);
    if n > 0 {
      var inner;
      inner, rest := WordsSplit(s[n..]);
      lead := s[..n] + inner;
      assert s == s[..n] + s[n..];
      Associate(s[..n], inner, Words(s[n..])[0] + rest);
      LeadIsBlank(s, n, inner);
    } else {
      FirstWordSplits(s);
      lead, rest := "", s[|FirstWord(s)|..];
      assert s == "" + (FirstWord(s) + rest);
      assert Words(s) == [FirstWord(s)] + Words(rest);
    }
  }

  lemma LeadIsBlank(s: string, n: nat, inner: string)
    requires 0 < n == Utf8.WhitespaceLength(s) && Utf8.IsBlank(inner)
    ensures Utf8.IsBlank(s[..n] + inner)
  {
    var front := s[..n];
    assert front[0] == s[0];
    assert n > 1 ==> front[1] == s[1];
    assert n > 2 ==> front[2] == s[2];
    assert Utf8.WhitespaceLength(front) == n && front[n..] == "";
    Utf8.BlankAppend(front, inner);
  }

  // ----- the request line

  const VERSION := "HTTP/1.1"

  /** Blanks, verb, blanks, path, blanks, version, and anything after a boundary. */
  ghost predicate RequestParts(line: string, lead: string, verb: string, gap: string, path: string, gap': string,
                               tail: string)
  {
    && line == lead + (verb + (gap + (path + (gap' + (VERSION + tail)))))
    && Utf8.IsBlank(lead) && Word(verb) && Word(path) && Boundary(tail)
    && gap != "" && Utf8.IsBlank(gap) && gap' != "" && Utf8.IsBlank(gap')
  }

  ghost predicate SpellsRequest(line: string, verb: string, path: string)
  {
    exists lead, gap, gap', tail :: RequestParts(line, lead, verb, gap, path, gap', tail)
  }

  predicate RequestWords(words: seq<string>, verb: string, path: string)
  {
    |words| >= 3 && words[0] == verb && words[1] == path && words[2] == VERSION
  }

  lemma VersionIsWord()
    ensures Word(VERSION)
  {
    forall i | 0 <= i < |VERSION| ensures Utf8.WhitespaceLength(VERSION[i..]) == 0 {
      assert 33 <= Utf8.Byte(VERSION[i]) < 127 && VERSION[i..][0] == VERSION[i];
    }
  }

  lemma WordThenGap(word: string, gap: string, rest: string)
    requires Word(word) && gap != "" && Utf8.IsBlank(gap)
    ensures Words(word + (gap + rest)) == [word] + Words(rest)
  {
    Utf8.WhitespacePrefix(gap, rest);
    WordsHead(word, gap + rest);
    WordsSkip(gap, rest);
  }

  lemma PartsGiveWords(line: string, lead: string, verb: string, gap: string, path: string, gap': string, tail: string)
    requires RequestParts(line, lead, verb, gap, path, gap', tail)
    ensures RequestWords(Words(line), verb, path)
  {
    VersionIsWord();
    WordsHead(VERSION, tail);
    WordThenGap(path, gap', VERSION + tail);
    WordThenGap(verb, gap, path + (gap' + (VERSION + tail)));
    WordsSkip(lead, verb + (gap + (path + (gap' + (VERSION + tail)))));
  }

  /** Blanks that precede a word at a boundary cannot be missing. */
  lemma GapIsThere(gap: string, word: string, rest: string)
    requires Boundary(gap + (word + rest)) && Word(word) && Boundary(rest)
    ensures gap != ""
  {
    if gap == "" {
      assert gap + (word + rest) == word + rest;
      SpaceFreeTail(word);
      Utf8.NoStraddle(word, rest);
    }
  }

  lemma WordsGiveParts(line: string, verb: string, path: string)
    requires RequestWords(Words(line), verb, path)
    ensures SpellsRequest(line, verb, path)
  {
    var lead, rest := WordsSplit(line);
    var gap, rest' := WordsSplit(rest);
    var gap', tail := WordsSplit(rest');
    GapIsThere(gap, path, rest');
    GapIsThere(gap', VERSION, tail);
    assert RequestParts(line, lead, verb, gap, path, gap', tail);
  }

  lemma RequestLineExactlyWhen(line: string, verb: string, path: string)
    ensures RequestWords(Words(line), verb, path) <==> SpellsRequest(line, verb, path)
  {
    if SpellsRequest(line, verb, path) {
      var lead, gap, gap', tail :| RequestParts(line, lead, verb, gap, path, gap', tail);
      PartsGiveWords(line, lead, verb, gap, path, gap', tail);
    }
    if RequestWords(Words(line), verb, path) {
      WordsGiveParts(line, verb, path);
    }
  }

  // ----- the content length

  /** Blanks, an optional plus sign, digits, blanks. */
  ghost predicate NumberParts(value: string, lead: string, sign: string, digits: string, tail: string)
  {
    && value == lead + (sign + digits + tail)
    && Utf8.IsBlank(lead) && Utf8.IsBlank(tail)
    && (sign == "" || sign == "+") && digits != "" && AllDigits(digits)
  }

  ghost predicate Spells(value: string, n: nat)
  {
    n < U64 &&
    exists lead, sign, digits, tail :: NumberParts(value, lead, sign, digits, tail) && DigitsValue(digits) == n
  }

  lemma {:induction false} TrimStartOf(blank: string, s: string)
    requires Utf8.IsBlank(blank) && Utf8.WhitespaceLength(s) == 0
    ensures TrimStart(blank + s) == s
  {
    if blank == "" {
      assert blank + s == s;
    } else {
      var n := Utf8.WhitespaceLength(blank);
      Utf8.WhitespacePrefix(blank, s);
      assert (blank + s)[n..] == blank[n..] + s;
      TrimStartOf(blank[n..], s);
    }
  }

  lemma {:induction false} TrimEndOf(s: string, blank: string)
    requires Utf8.IsBlank(blank) && forall i :: 0 <= i < |s| ==> 33 <= Utf8.Byte(s[i]) < 127
    ensures TrimEnd(s + blank) == s
  {
    var t := s + blank;
    if s == "" {
      assert t == blank;
    } else {
      assert t[0] == s[0] && Utf8.WhitespaceLength(t) == 0;
      assert t[1..] == s[1..] + blank;
      TrimEndOf(s[1..], blank);
      assert [s[0]] + s[1..] == s;
    }
  }

  lemma {:induction false} TrimStartSplits(s: string) returns (lead: string)
    ensures s == lead + TrimStart(s) && Utf8.IsBlank(lead)
    decreases |s|
  {
    var n := Utf8.WhitespaceLength(s);
    if n > 0 {
      var inner := TrimStartSplits(s[n..]);
      lead := s[..n] + inner;
      assert s == s[..n] + s[n..];
      LeadIsBlank(s, n, inner);
    } else {
      lead := "";
    }
  }

  lemma {:induction false} TrimEndSplits(s: string) returns (tail: string)
    ensures s == TrimEnd(s) + tail && Utf8.IsBlank(tail)
  {
    if Utf8.IsBlank(s) {
      tail := s;
    } else {
      tail := TrimEndSplits(s[1..]);
      assert s == [s[0]] + s[1..];
    }
  }

  lemma SpelledIsRead(value: string, lead: string, sign: string, digits: string, tail: string)
    requires NumberParts(value, lead, sign, digits, tail)
    ensures TrimEnd(TrimStart(value)) == sign + digits
  {
    var number := sign + digits;
    forall i | 0 <= i < |number| ensures 33 <= Utf8.Byte(number[i]) < 127 {
      assert i >= |sign| ==> number[i] == digits[i - |sign|] && IsDigit(digits[i - |sign|]);
    }
    assert (number + tail)[0] == number[0];
    TrimStartOf(lead, number + tail);
    TrimEndOf(number, tail);
  }

  /** A value is read as a number exactly when it spells it. */
  lemma NumberExactlyWhen(value: string, n: nat)
    ensures ParseUsize(TrimEnd(TrimStart(value))) == Some(n) <==> Spells(value, n)
  {
    if Spells(value, n) {
      var lead, sign, digits, tail :| NumberParts(value, lead, sign, digits, tail) && DigitsValue(digits) == n;
      SpelledIsRead(value, lead, sign, digits, tail);
      SignedIsParsed(sign, digits);
    }
    if ParseUsize(TrimEnd(TrimStart(value))) == Some(n) {
      var lead := TrimStartSplits(value);
      var tail := TrimEndSplits(TrimStart(value));
      ParsedIsSpelled(value, lead, TrimEnd(TrimStart(value)), tail, n);
    }
  }

  lemma SignedIsParsed(sign: string, digits: string)
    requires (sign == "" || sign == "+") && digits != "" && AllDigits(digits) && DigitsValue(digits) < U64
    ensures ParseUsize(sign + digits) == Some(DigitsValue(digits))
  {
    assert sign == "" ==> sign + digits == digits && IsDigit(digits[0]);
    assert sign == "+" ==> (sign + digits)[1..] == digits;
  }

  lemma ParsedIsSpelled(value: string, lead: string, number: string, tail: string, n: nat)
    requires value == lead + (number + tail) && Utf8.IsBlank(lead) && Utf8.IsBlank(tail)
    requires ParseUsize(number) == Some(n)
    ensures Spells(value, n)
  {
    var sign := if number != "" && number[0] == '+' then "+" else "";
    var digits := number[|sign|..];
    assert number == sign + digits && (sign == "" ==> digits == number) && (sign == "+" ==> digits == number[1..]);
    assert value == lead + (sign + digits + tail);
    assert NumberParts(value, lead, sign, digits, tail);
  }

  ghost predicate FirstContentLength(fields: seq<string>, k: nat)
  {
    k < |fields| && IsContentLength(fields[k]) && forall i :: 0 <= i < k ==> !IsContentLength(fields[i])
  }

  /** The first Content-Length field spells the number, or there is none and the number is zero. */
  ghost predicate SpellsLength(fields: seq<string>, n: nat)
  {
    || (n == 0 && forall i :: 0 <= i < |fields| ==> !IsContentLength(fields[i]))
    || (exists k: nat :: FirstContentLength(fields, k) && Spells(FieldValue(fields[k]), n))
  }

  lemma {:induction false} FirstContentLengthWins(fields: seq<string>, k: nat)
    requires FirstContentLength(fields, k)
    ensures var value := ParseUsize(TrimEnd(TrimStart(FieldValue(fields[k]))));
            ContentLength(fields) == if value.Some? then Ok(value.value) else Err(ContentLengthInvalid)
  {
    if k > 0 {
      FirstContentLengthWins(fields[1..], k - 1);
      assert fields[1..][k - 1] == fields[k];
    }
  }

  lemma {:induction false} NoContentLength(fields: seq<string>)
    requires forall i :: 0 <= i < |fields| ==> !IsContentLength(fields[i])
    ensures ContentLength(fields) == Ok(0)
  {
    if fields != [] { NoContentLength(fields[1..]); }
  }

  lemma {:induction false} FirstContentLengthExists(fields: seq<string>) returns (k: nat)
    ensures k <= |fields| && forall i :: 0 <= i < k ==> !IsContentLength(fields[i])
    ensures k < |fields| ==> FirstContentLength(fields, k)
  {
    k := 0;
    while k < |fields| && !IsContentLength(fields[k])
      invariant k <= |fields| && forall i :: 0 <= i < k ==> !IsContentLength(fields[i])
    {
      k := k + 1;
    }
  }

  lemma LengthExactlyWhen(fields: seq<string>, n: nat)
    ensures ContentLength(fields) == Ok(n) <==> SpellsLength(fields, n)
  {
    var k := FirstContentLengthExists(fields);
    if k < |fields| {
      FirstContentLengthWins(fields, k);
      NumberExactlyWhen(FieldValue(fields[k]), n);
      forall m: nat | FirstContentLength(fields, m) ensures m == k {
      }
    } else {
      NoContentLength(fields);
    }
  }

  // ----- the whole head

  /** Lines whose first spells the request and whose other fields spell the length, joined by CRLF. */
  ghost predicate SpellsHead(header: string, lines: seq<string>, verb: string, path: string, n: nat)
  {
    && AreLines(lines) && header == JoinLines(lines)
    && SpellsRequest(lines[0], verb, path) && SpellsLength(lines[1..], n)
  }

  lemma SpelledLinesExactlyWhen(lines: seq<string>, verb: string, path: string, n: nat)
    requires AreLines(lines)
    ensures ParseHead(JoinLines(lines)) == Ok(Head(verb, path, n)) <==>
            Utf8.Valid(JoinLines(lines)) && SpellsRequest(lines[0], verb, path) && SpellsLength(lines[1..], n)
  {
    LinesJoin(lines);
    RequestLineExactlyWhen(lines[0], verb, path);
    LengthExactlyWhen(lines[1..], n);
  }

  /** Every header: accepted with this verb, path and length if and only if it is UTF-8 and spells them. */
  lemma HeadExactlyWhen(header: string, verb: string, path: string, n: nat)
    ensures ParseHead(header) == Ok(Head(verb, path, n)) <==>
            Utf8.Valid(header) && exists lines :: SpellsHead(header, lines, verb, path, n)
  {
    JoinOfLines(header);
    SpelledLinesExactlyWhen(Lines(header), verb, path, n);
    if ParseHead(header) == Ok(Head(verb, path, n)) {
      assert SpellsHead(header, Lines(header), verb, path, n);
    }
    if Utf8.Valid(header) && exists lines :: SpellsHead(header, lines, verb, path, n) {
      var lines :| SpellsHead(header, lines, verb, path, n);
      SpelledLinesExactlyWhen(lines, verb, path, n);
    }
  }

  // ----- the errors of a head

  lemma {:induction false} BlankHasNoWords(s: string)
    ensures Words(s) == [] <==> Utf8.IsBlank(s)
    decreases |s|
  {
    if s != "" && Utf8.WhitespaceLength(s) > 0 { BlankHasNoWords(s[Utf8.WhitespaceLength(s)..]); }
  }

  /** One word between blanks. */
  ghost predicate OneWord(line: string, lead: string, word: string, tail: string)
  {
    line == lead + (word + tail) && Utf8.IsBlank(lead) && Word(word) && Utf8.IsBlank(tail)
  }

  ghost predicate HasOneWord(line: string)
  {
    exists lead, word, tail :: OneWord(line, lead, word, tail)
  }

  lemma OneWordExactlyWhen(line: string)
    ensures |Words(line)| == 1 <==> HasOneWord(line)
  {
    if |Words(line)| == 1 {
      var lead, rest := WordsSplit(line);
      BlankHasNoWords(rest);
      assert OneWord(line, lead, Words(line)[0], rest);
    }
    if HasOneWord(line) {
      var lead, word, tail :| OneWord(line, lead, word, tail);
      WordsSkip(lead, word + tail);
      WordsHead(word, tail);
      BlankHasNoWords(tail);
    }
  }

  ghost predicate SpellsSomeRequest(line: string)
  {
    exists verb, path :: SpellsRequest(line, verb, path)
  }

  lemma SomeRequestExactlyWhen(line: string)
    ensures SpellsSomeRequest(line) <==> |Words(line)| >= 3 && Words(line)[2] == VERSION
  {
    if SpellsSomeRequest(line) {
      var verb, path :| SpellsRequest(line, verb, path);
      RequestLineExactlyWhen(line, verb, path);
    }
    if |Words(line)| >= 3 && Words(line)[2] == VERSION {
      RequestLineExactlyWhen(line, Words(line)[0], Words(line)[1]);
    }
  }

  ghost predicate SpellsSomeLength(fields: seq<string>)
  {
    exists n: nat :: SpellsLength(fields, n)
  }

  lemma SomeLengthExactlyWhen(fields: seq<string>)
    ensures SpellsSomeLength(fields) <==> ContentLength(fields).Ok?
    ensures ContentLength(fields).Err? ==> ContentLength(fields) == Err(ContentLengthInvalid)
  {
    if SpellsSomeLength(fields) {
      var n: nat :| SpellsLength(fields, n);
      LengthExactlyWhen(fields, n);
    }
    if ContentLength(fields).Ok? { LengthExactlyWhen(fields, ContentLength(fields).value); }
    LengthError(fields);
  }

  lemma {:induction false} LengthError(fields: seq<string>)
    ensures ContentLength(fields).Err? ==> ContentLength(fields) == Err(ContentLengthInvalid)
  {
    if fields != [] { LengthError(fields[1..]); }
  }

  /** Which error a head gets, by its lines: the first of encoding, verb, path, request line and length to be wrong. */
  lemma HeadErrorExactlyWhen(header: string)
    ensures var r, line, fields := ParseHead(header), Lines(header)[0], Lines(header)[1..];
            && (r == Err(NotUtf8) <==> !Utf8.Valid(header))
            && (r == Err(MethodAbsent) <==> Utf8.Valid(header) && Utf8.IsBlank(line))
            && (r == Err(PathAbsent) <==> Utf8.Valid(header) && HasOneWord(line))
            && (r == Err(RequestLineInvalid) <==>
                Utf8.Valid(header) && !Utf8.IsBlank(line) && !HasOneWord(line) && !SpellsSomeRequest(line))
            && (r == Err(ContentLengthInvalid) <==>
                Utf8.Valid(header) && SpellsSomeRequest(line) && !SpellsSomeLength(fields))
  {
    var line, fields := Lines(header)[0], Lines(header)[1..];
    BlankHasNoWords(line);
    OneWordExactlyWhen(line);
    SomeRequestExactlyWhen(line);
    SomeLengthExactlyWhen(fields);
  }

  /** `content-length` before the first colon names the field in any case of its letters, and nothing else does. */
  lemma FieldNameExactlyWhen(name: string, value: string)
    requires Without(name, ':')
    ensures IsContentLength(name + (":" + value)) <==>
            |name| == 14 && forall i :: 0 <= i < 14 ==> name[i] in {"content-length"[i], "CONTENT-LENGTH"[i]}
  {
    ColonFound(name, value);
    assert (name + (":" + value))[..|name|] == name;
    if |name| == 14 {
      forall i | 0 <= i < 14
        ensures AsciiLower(name[i]) == AsciiLower("content-length"[i]) <==>
                name[i] in {"content-length"[i], "CONTENT-LENGTH"[i]}
      {
        LowerEquals(name[i], i);
      }
    }
  }

  lemma LowerEquals(c: char, i: nat)
    requires i < 14
    ensures AsciiLower(c) == AsciiLower("content-length"[i]) <==> c in {"content-length"[i], "CONTENT-LENGTH"[i]}
  {
  }

  /** A line without a colon is no Content-Length field. */
  lemma NoColonNoField(line: string)
    requires Without(line, ':')
    ensures !IsContentLength(line)
  {
    var colon := Find(line, ":");
    if colon.Some? { OccurrenceHead(line, ":", colon.value); }
  }

  lemma ColonFound(name: string, value: string)
    requires Without(name, ':')
    ensures Find(name + (":" + value), ":") == Some(|name|)
  {
    var line := name + (":" + value);
    assert OccursAt(line, ":", |name|);
    var i := Find(line, ":").value;
    OccurrenceHead(line, ":", i);
  }

  // ----- a head of any length

  /** A request line padded by a fourth word, which the reader ignores. */
  function PaddedRequest(pad: string): string
  {
    "GET" + (" " + ("/" + (" " + (VERSION + (" " + pad)))))
  }

  ghost predicate Letters(pad: string)
  {
    forall i :: 0 <= i < |pad| ==> 'a' <= pad[i] <= 'z'
  }

  lemma PaddedSpells(pad: string)
    ensures SpellsRequest(PaddedRequest(pad), "GET", "/")
  {
    assert Word("GET") by {
      forall i | 0 <= i < 3 ensures Utf8.WhitespaceLength("GET"[i..]) == 0 {
        assert "GET"[i..][0] == "GET"[i];
      }
    }
    assert Word("/") by { assert "/"[0..] == "/"; }
    assert Boundary(" " + pad) by { assert (" " + pad)[0] == ' '; }
    assert Utf8.IsBlank(" ") by { assert " "[1..] == ""; }
    assert "" + PaddedRequest(pad) == PaddedRequest(pad);
    assert RequestParts(PaddedRequest(pad), "", "GET", " ", "/", " ", " " + pad);
  }

  /** It needs no further field. */
  lemma PaddedHeadReads(pad: string)
    requires Letters(pad)
    ensures ParseHead(PaddedRequest(pad) + (CRLF + CRLF)) == Ok(Head("GET", "/", 0))
  {
    var front := PaddedRequest(pad);
    var lines := [front, "", ""];
    assert JoinLines(lines[1..]) == "" + (CRLF + "") by { assert lines[1..][1..] == [""]; }
    assert JoinLines(lines) == front + (CRLF + CRLF);
    PaddedIsPlain(pad);
    Utf8.AsciiIsValid(JoinLines(lines));
    PaddedSpells(pad);
    assert lines[1..] == ["", ""];
    assert !IsContentLength("");
    SpelledLinesExactlyWhen(lines, "GET", "/", 0);
  }

  lemma PaddedIsPlain(pad: string)
    requires Letters(pad)
    ensures forall i :: 0 <= i < |PaddedRequest(pad)| ==> 32 <= Utf8.Byte(PaddedRequest(pad)[i]) < 127
    ensures CrlfFree(PaddedRequest(pad)) && |PaddedRequest(pad)| == 15 + |pad|
  {
    var front := PaddedRequest(pad);
    assert front == "GET / HTTP/1.1 " + pad;
    forall i | 0 <= i < |front| ensures !CrlfAtFront(front[i..]) {
      assert front[i..][0] == front[i];
    }
  }
}
