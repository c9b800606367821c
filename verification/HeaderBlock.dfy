/** Printing a header block, finding its end, and parsing its fields back. */
module HeaderBlock {
  import opened Wrappers
  import opened HeaderEnd
  import opened Text
  import Sequences

  datatype Field = Field(name: string, value: string)

  const CRLF: string := [CR, LF]

  function FieldLine(f: Field): string {
    f.name + ": " + f.value
  }

  function Lines(fields: seq<Field>): string {
    if fields == [] then [] else FieldLine(fields[0]) + CRLF + Lines(fields[1..])
  }

  /** Start line, field lines, empty line. */
  function Block(start: string, fields: seq<Field>): string {
    start + CRLF + Lines(fields) + CRLF
  }

  function RequestLine(verb: string, path: string): string {
    verb + " " + path + " HTTP/1.1"
  }

  function RequestFields(host: string, headers: seq<Field>): seq<Field> {
    [Field("Host", host), Field("User-Agent", "jpod client")] + headers
  }

  /** The printer appends one header after another to the three fixed lines. */
  method ComposeRequest(verb: string, path: string, host: string, headers: seq<Field>) returns (content: string)
    ensures content == Block(RequestLine(verb, path), RequestFields(host, headers))
  {
    var headerLine := verb + " " + path + " HTTP/1.1" + CRLF + ("Host: " + host) + CRLF + "User-Agent: jpod client" + CRLF;
    ghost var fixed := RequestFields(host, []);
    FixedLines(host);
    assert headerLine == RequestLine(verb, path) + CRLF + Lines(fixed);
    assert headers[..0] == [] && fixed + [] == fixed;
    for i := 0 to |headers|
      invariant headerLine == RequestLine(verb, path) + CRLF + Lines(fixed + headers[..i])
    {
      LinesSnoc(fixed + headers[..i], headers[i]);
      assert fixed + headers[..i + 1] == (fixed + headers[..i]) + [headers[i]];
      headerLine := headerLine + (headers[i].name + ": " + headers[i].value + CRLF);
    }
    assert fixed + headers[..|headers|] == RequestFields(host, headers);
    content := headerLine + CRLF;
  }

  /** A request reads: the verb up to the first space, the path up to the next, then the version, the fields, an empty line. */
  lemma RequestReads(verb: string, path: string, host: string, headers: seq<Field>)
    requires ' ' !in verb && ' ' !in path
    ensures var content := Block(RequestLine(verb, path), RequestFields(host, headers));
            var n := IndexOf(content, ' ');
            && n < |content| && content[..n] == verb
            && var rest := content[n + 1..];
            var m := IndexOf(rest, ' ');
            && m < |rest| && rest[..m] == path
            && rest[m + 1..] == "HTTP/1.1" + ("\r\n" + Lines(RequestFields(host, headers)) + "\r\n")
  {
    var lines := "\r\n" + Lines(RequestFields(host, headers)) + "\r\n";
    RequestIs(verb, path, RequestFields(host, headers));
    IndexOfSplit(verb, ' ', path + [' '] + ("HTTP/1.1" + lines));
    Cut(verb, ' ', path + [' '] + ("HTTP/1.1" + lines));
    IndexOfSplit(path, ' ', "HTTP/1.1" + lines);
    Cut(path, ' ', "HTTP/1.1" + lines);
  }

  lemma RequestIs(verb: string, path: string, fields: seq<Field>)
    ensures Block(RequestLine(verb, path), fields) ==
            verb + [' '] + (path + [' '] + ("HTTP/1.1" + ("\r\n" + Lines(fields) + "\r\n")))
  {
    var version: string := "HTTP/1.1";
    assert RequestLine(verb, path) == verb + " " + path + ([' '] + version);
    Regrouped(verb, path, version, CRLF, Lines(fields));
  }

  lemma Regrouped(verb: string, path: string, version: string, crlf: string, lines: string)
    ensures verb + " " + path + ([' '] + version) + crlf + lines + crlf ==
            verb + [' '] + (path + [' '] + (version + (crlf + lines + crlf)))
  {
  }

  /** The host and the name of the program come first, then the headers in their order. */
  lemma FirstTwoLines(host: string, headers: seq<Field>)
    ensures Lines(RequestFields(host, headers)) == "Host: " + host + "\r\n" + "User-Agent: jpod client\r\n" + Lines(headers)
  {
    var fields := RequestFields(host, headers);
    assert fields[0] == Field("Host", host) && fields[1..][0] == Field("User-Agent", "jpod client");
    assert fields[1..][1..] == headers;
    assert Lines(fields[1..]) == FieldLine(fields[1]) + CRLF + Lines(headers);
  }

  lemma FixedLines(host: string)
    ensures Lines(RequestFields(host, [])) == ("Host: " + host) + CRLF + ("User-Agent: jpod client" + CRLF)
  {
    var fixed := RequestFields(host, []);
    assert fixed == [Field("Host", host), Field("User-Agent", "jpod client")];
    assert Lines(fixed[1..]) == "User-Agent: jpod client" + CRLF + Lines(fixed[1..][1..]);
    assert FieldLine(fixed[0]) == "Host: " + host;
  }

  lemma {:induction false} LinesSnoc(fields: seq<Field>, f: Field)
    ensures Lines(fields + [f]) == Lines(fields) + (FieldLine(f) + CRLF)
  {
    if fields == [] {
      assert Lines([f]) == FieldLine(f) + CRLF + Lines([]);
    } else {
      assert (fields + [f])[1..] == fields[1..] + [f];
      LinesSnoc(fields[1..], f);
    }
  }

  // ---------------------------------------------------------------------------------------
  // The automaton and the search agree on the end of the block
  // ---------------------------------------------------------------------------------------

  predicate Clean(s: string) {
    CR !in s && LF !in s
  }

  predicate CleanFields(fields: seq<Field>) {
    forall f | f in fields :: Clean(f.name) && Clean(f.value)
  }

  /** Between two lines of a block. */
  const BETWEEN := Match(2, 1)

  lemma {:induction false} ScanText(s: Match, line: string)
    requires Clean(line) && line != []
    ensures Scan(s, line) == Exhausted(START)
    decreases |line|
  {
    assert line[0] in line;
    if |line| > 1 {
      assert Clean(line[1..]);
      ScanText(START, line[1..]);
    } else {
      assert line[1..] == [];
    }
  }

  lemma ScanBreak(s: Match)
    requires s in {START, BETWEEN}
    ensures Scan(s, CRLF) == if s == START then Exhausted(BETWEEN) else Found(2)
  {
    var after := Match(s.crlfcrlf + 1, 0);
    assert Step(s, CR) == Some(after);
    assert CRLF[1..] == [LF] && [LF][1..] == [];
    assert Scan(after, [LF]) == if s == START then Exhausted(BETWEEN) else Found(1);
  }

  /** A line that is not empty leaves the automaton between lines; so does any first line. */
  lemma ScanLine(s: Match, line: string)
    requires Clean(line) && (s == START || (s == BETWEEN && line != []))
    ensures Scan(s, line + CRLF) == Exhausted(BETWEEN)
  {
    ScanSplit(s, line, CRLF);
    if line != [] {
      ScanText(s, line);
    }
    ScanBreak(START);
  }

  lemma {:induction false} ScanLines(fields: seq<Field>)
    requires CleanFields(fields)
    ensures Scan(BETWEEN, Lines(fields)) == Exhausted(BETWEEN)
  {
    if fields != [] {
      assert fields[0] in fields;
      ScanLine(BETWEEN, FieldLine(fields[0]));
      ScanSplit(BETWEEN, FieldLine(fields[0]) + CRLF, Lines(fields[1..]));
      ScanLines(fields[1..]);
    }
  }

  /** The automaton fires exactly where the block ends, whatever follows. */
  lemma AutomatonFindsEnd(start: string, fields: seq<Field>, body: string)
    requires Clean(start) && CleanFields(fields)
    ensures Scan(START, Block(start, fields) + body) == Found(|Block(start, fields)|)
  {
    var head, all := start + CRLF, start + CRLF + Lines(fields);
    ScanLine(START, start);
    ScanLines(fields);
    ScanSplit(START, head, Lines(fields));
    ScanBreak(BETWEEN);
    ScanSplit(START, all, CRLF);
    ScanSplit(START, Block(start, fields), body);
  }

  const BLANK: string := [CR, LF, CR, LF]

  /** No carriage return in the block stands next to another, so what is terminated is recognised. */
  lemma {:induction false} LinesCr(fields: seq<Field>)
    requires CleanFields(fields)
    ensures NoAdjacentCr(Lines(fields)) && (Lines(fields) != [] ==> Lines(fields)[0] != CR && Lines(fields)[|Lines(fields)| - 1] == LF)
  {
    if fields != [] {
      assert fields[0] in fields;
      LinesCr(fields[1..]);
      var line := FieldLine(fields[0]);
      assert Clean(line) && line != [] && line[0] in line;
      BreakCr(line);
      JoinCr(line + CRLF, Lines(fields[1..]));
    }
  }

  lemma BreakCr(line: string)
    requires Clean(line)
    ensures NoAdjacentCr(line + CRLF)
  {
    var t := line + CRLF;
    assert forall i | 0 <= i < |line| :: t[i] == line[i] && line[i] in line;
  }

  lemma JoinCr(a: string, b: string)
    requires NoAdjacentCr(a) && NoAdjacentCr(b) && a != [] && a[|a| - 1] == LF
    ensures NoAdjacentCr(a + b)
  {
    var t := a + b;
    forall i | 0 <= i < |t| - 1 ensures !(t[i] == CR && t[i + 1] == CR) {
      if i >= |a| {
        assert t[i] == b[i - |a|] && t[i + 1] == b[i - |a| + 1];
      } else if i + 1 < |a| {
        assert t[i] == a[i] && t[i + 1] == a[i + 1];
      }
    }
  }

  lemma BlockCr(start: string, fields: seq<Field>)
    requires Clean(start) && CleanFields(fields)
    ensures NoAdjacentCr(Block(start, fields))
  {
    BreakCr(start);
    LinesCr(fields);
    JoinCr(start + CRLF, Lines(fields));
    var all := start + CRLF + Lines(fields);
    assert all[|all| - 1] == LF;
    JoinCr(all, CRLF);
  }

  lemma RecognisedWithin(text: string, n: nat)
    requires NoAdjacentCr(text) && n <= |text| && EndsWithCrLfCrLf(text[..n])
    ensures Recognised(text[..n])
  {
    SingleCr(text, n - 3);
    assert text[..n][..n - 3] == text[..n - 3];
    assert text[..n - 3][n - 4] == text[..n][n - 4] == CR;
  }

  lemma NoEarlierBlank(start: string, fields: seq<Field>, body: string, k: nat)
    requires Clean(start) && CleanFields(fields) && k + 4 < |Block(start, fields)|
    ensures !OccursAt(Block(start, fields) + body, BLANK, k)
  {
    var block := Block(start, fields);
    var text := block + body;
    AutomatonFindsEnd(start, fields, body);
    ScanFindsFirst(text);
    assert NoneRecognised(text, 0, |block| - 1);
    assert !Recognised(text[..k + 4]);
    if OccursAt(text, BLANK, k) {
      var t := text[..k + 4];
      assert t == block[..k + 4] && t[k..] == text[k..k + 4] == BLANK;
      assert t[k..][0] == t[k] && t[k..][1] == t[k + 1] && t[k..][2] == t[k + 2] && t[k..][3] == t[k + 3];
      BlockCr(start, fields);
      RecognisedWithin(block, k + 4);
    }
  }

  /** Searching for an empty line in what was received gives the same end. */
  lemma SearchFindsEnd(start: string, fields: seq<Field>, body: string)
    requires Clean(start) && CleanFields(fields)
    ensures var block := Block(start, fields);
            |block| >= 4 && Find(block + body, BLANK) == Some(|block| - 4)
  {
    var block := Block(start, fields);
    BlockEndsBlank(start, fields);
    assert (block + body)[|block| - 4..|block| - 4 + |BLANK|] == block[|block| - 4..];
    forall k: nat | k < |block| - 4 ensures !OccursAt(block + body, BLANK, k) {
      NoEarlierBlank(start, fields, body, k);
    }
    FindIsFirst(block + body, BLANK, |block| - 4);
  }

  lemma BlockEndsBlank(start: string, fields: seq<Field>)
    ensures var block := Block(start, fields);
            |block| >= 4 && block[|block| - 4..] == BLANK
  {
    var all := start + CRLF + Lines(fields);
    LinesEnd(start + CRLF, fields);
    assert all[|all| - 2..] == CRLF;
    assert Block(start, fields) == all + CRLF;
  }

  lemma {:induction false} LinesEnd(before: string, fields: seq<Field>)
    requires |before| >= 2 && before[|before| - 2..] == CRLF
    ensures var t := before + Lines(fields);
            |t| >= 2 && t[|t| - 2..] == CRLF
    decreases |fields|
  {
    if fields == [] {
      assert before + Lines(fields) == before;
    } else {
      var longer := before + (FieldLine(fields[0]) + CRLF);
      assert longer[|longer| - 2..] == CRLF;
      LinesEnd(longer, fields[1..]);
      assert before + Lines(fields) == longer + Lines(fields[1..]);
    }
  }

  // ---------------------------------------------------------------------------------------
  // Parsing the fields back
  // ---------------------------------------------------------------------------------------

  /** getline: the line, and what is left behind its newline. */
  function LineOf(text: string): string {
    text[..IndexOf(text, LF)]
  }

  function AfterLine(text: string): string {
    if IndexOf(text, LF) < |text| then text[IndexOf(text, LF) + 1..] else []
  }

  /** value_start moves over spaces but never past the last character. */
  function SkipSpaces(line: string, at: nat): (n: nat)
    requires at <= |line|
    ensures at <= n <= |line|
    decreases |line| - at
  {
    if at + 1 < |line| && line[at] == ' ' then SkipSpaces(line, at + 1) else at
  }

  /** The field of a line with a colon, when anything follows the colon. */
  function FieldOf(line: string): Option<Field>
    requires IndexOf(line, ':') < |line|
  {
    var colon := IndexOf(line, ':');
    var from := SkipSpaces(line, colon + 1);
    if from < |line|
    then Some(Field(line[..colon], line[from..|line| - (if line[|line| - 1] == CR then 1 else 0)]))
    else None
  }

  /** Lines are read up to the first without a colon. */
  function ParseFields(text: string): seq<Field>
    decreases |text|
  {
    if text == [] || ':' !in LineOf(text) then []
    else FieldsOfLine(LineOf(text)) + ParseFields(AfterLine(text))
  }

  function FieldsOfLine(line: string): seq<Field>
    requires ':' in line
  {
    match FieldOf(line)
    case None => []
    case Some(f) => [f]
  }

  method ParseHeaders(stream: string) returns (result: seq<Field>)
    ensures result == ParseFields(stream)
  {
    result := [];
    var rest := stream;
    while rest != [] && ':' in LineOf(rest)
      invariant ParseFields(stream) == result + ParseFields(rest)
      decreases |rest|
    {
      var line := LineOf(rest);
      var found := ParseLine(line);
      Sequences.Associative(result, found, ParseFields(AfterLine(rest)));
      result := result + found;
      rest := AfterLine(rest);
    }
  }

  method ParseLine(line: string) returns (found: seq<Field>)
    requires ':' in line
    ensures found == FieldsOfLine(line)
  {
    var paramEnd := IndexOf(line, ':');
    var valueStart := paramEnd + 1;
    while valueStart + 1 < |line| && line[valueStart] == ' '
      invariant valueStart <= |line|
      invariant SkipSpaces(line, paramEnd + 1) == SkipSpaces(line, valueStart)
    {
      valueStart := valueStart + 1;
    }
    found := [];
    if valueStart < |line| {
      found := [Field(line[..paramEnd], line[valueStart..|line| - (if line[|line| - 1] == CR then 1 else 0)])];
    }
  }

  /** A field that comes back: no colon in the name, no line feed anywhere, no space before the value. */
  predicate Parseable(f: Field) {
    ':' !in f.name && LF !in f.name && LF !in f.value && (f.value == [] || f.value[0] != ' ')
  }

  lemma LineSplits(line: string, rest: string)
    requires LF !in line
    ensures LineOf(line + [LF] + rest) == line && AfterLine(line + [LF] + rest) == rest
  {
    IndexOfSplit(line, LF, rest);
  }

  /** How the line of a field splits at its colon. */
  lemma ColonSplits(f: Field)
    requires ':' !in f.name
    ensures var line := FieldLine(f) + [CR];
            && ':' in line && IndexOf(line, ':') == |f.name|
            && line[..|f.name|] == f.name && line[|f.name| + 1] == ' ' && line[|f.name| + 2..] == f.value + [CR]
            && FieldOf(line).Some? && FieldOf(line).value.name == f.name
  {
    var line, n := FieldLine(f) + [CR], |f.name|;
    LineParts(f);
    SkipStaysInside(line, n + 1);
  }

  lemma LineParts(f: Field)
    requires ':' !in f.name
    ensures var line, n := FieldLine(f) + [CR], |f.name|;
            && |line| == n + 3 + |f.value| && ':' in line && IndexOf(line, ':') == n
            && line[..n] == f.name && line[n + 1] == ' ' && line[n + 2..] == f.value + [CR]
  {
    var rest := [] + [' '] + (f.value + [CR]);
    LineIs(f);
    IndexOfSplit(f.name, ':', rest);
    Cut(f.name, ':', rest);
    Cut([], ' ', f.value + [CR]);
  }

  lemma LineIs(f: Field)
    ensures FieldLine(f) + [CR] == f.name + [':'] + ([] + [' '] + (f.value + [CR]))
  {
  }

  lemma SkipStaysInside(line: string, at: nat)
    requires at < |line|
    ensures SkipSpaces(line, at) < |line|
    ensures SkipSpaces(line, at) + 1 < |line| ==> line[SkipSpaces(line, at)] != ' '
    decreases |line| - at
  {
  }

  /** One printed line yields its field iff its value does not begin with a space. */
  lemma FieldReadsBack(f: Field)
    requires ':' !in f.name
    ensures ':' in FieldLine(f) + [CR]
    ensures FieldsOfLine(FieldLine(f) + [CR]) == [f] <==> f.value == [] || f.value[0] != ' '
  {
    ColonSplits(f);
    var line, at := FieldLine(f) + [CR], |f.name| + 1;
    var from := SkipSpaces(line, at);
    SkipStaysInside(line, at);
    assert line[at + 1..][0] == line[at + 1] == if f.value == [] then CR else f.value[0];
    assert line[|line| - 1] == CR;
    assert SkipSpaces(line, at) == SkipSpaces(line, at + 1);
    if f.value == [] || f.value[0] != ' ' {
      assert from == at + 1;
      assert line[at + 1..|line| - 1] == f.value;
    } else {
      assert from + 1 < |line| ==> line[from..|line| - 1][0] != ' ';
    }
  }

  lemma ParseStep(line: string, rest: string)
    requires LF !in line && ':' in line
    ensures ParseFields(line + [LF] + rest) == FieldsOfLine(line) + ParseFields(rest)
  {
    LineSplits(line, rest);
  }

  lemma LineHasNoLf(f: Field)
    requires LF !in f.name && LF !in f.value
    ensures LF !in FieldLine(f) + [CR]
  {
    var line := FieldLine(f) + [CR];
    assert forall c | c in line :: c in f.name || c in f.value || c == ':' || c == ' ' || c == CR;
  }

  /** Parsing past the printed line of a field without line feeds and colons in the name. */
  lemma ParseFieldLine(f: Field, rest: string)
    requires LF !in f.name && LF !in f.value && ':' !in f.name
    ensures ':' in FieldLine(f) + [CR]
    ensures ParseFields(FieldLine(f) + CRLF + rest) == FieldsOfLine(FieldLine(f) + [CR]) + ParseFields(rest)
  {
    var line := FieldLine(f) + [CR];
    assert line[|f.name|] == ':';
    assert FieldLine(f) + CRLF + rest == line + [LF] + rest;
    LineHasNoLf(f);
    ParseStep(line, rest);
  }

  lemma BlankLineStops(rest: string)
    ensures ParseFields(CRLF + rest) == []
  {
    assert CRLF + rest == [CR] + [LF] + rest;
    LineSplits([CR], rest);
  }

  /** The fields printed, an empty line, and anything: exactly the fields come back, in order. */
  lemma FieldsReadBack(fields: seq<Field>, rest: string)
    requires forall f | f in fields :: Parseable(f)
    ensures ParseFields(Lines(fields) + (CRLF + rest)) == fields
  {
    BlankLineStops(rest);
    FieldsReadBackBefore(fields, CRLF + rest);
  }

  lemma {:induction false} FieldsReadBackBefore(fields: seq<Field>, tail: string)
    requires forall f | f in fields :: Parseable(f)
    requires ParseFields(tail) == []
    ensures ParseFields(Lines(fields) + tail) == fields
    decreases |fields|
  {
    if fields == [] {
      assert Lines(fields) + tail == tail;
    } else {
      var f, more := fields[0], fields[1..];
      assert f in fields;
      FieldsReadBackBefore(more, tail);
      LinesHead(fields);
      FirstReadsBack(f, Lines(more), tail);
      assert fields == [f] + more;
    }
  }

  lemma LinesHead(fields: seq<Field>)
    requires fields != []
    ensures Lines(fields) == FieldLine(fields[0]) + CRLF + Lines(fields[1..])
  {
  }

  lemma FirstReadsBack(f: Field, more: string, tail: string)
    requires Parseable(f)
    ensures ParseFields((FieldLine(f) + CRLF + more) + tail) == [f] + ParseFields(more + tail)
  {
    FieldReadsBack(f);
    ParseFieldLine(f, more + tail);
    Sequences.Associative(FieldLine(f) + CRLF, more, tail);
  }

  /** What the parser can produce at all. */
  lemma {:induction false} ParsedIsPlain(text: string, f: Field)
    requires f in ParseFields(text)
    ensures ':' !in f.name && LF !in f.name && LF !in f.value
    decreases |text|
  {
    var line := LineOf(text);
    if f in FieldsOfLine(line) {
      assert forall c | c in f.name :: c in line;
      assert forall c | c in f.value :: c in line;
    } else {
      ParsedIsPlain(AfterLine(text), f);
    }
  }

  /** Exactly the parseable fields survive printing and parsing, whatever is printed after them. */
  lemma FieldSurvivesExactly(f: Field, rest: string)
    ensures var parsed := ParseFields(FieldLine(f) + CRLF + rest);
            parsed != [] && parsed[0] == f <==> Parseable(f)
  {
    var parsed := ParseFields(FieldLine(f) + CRLF + rest);
    if ':' in f.name || LF in f.name || LF in f.value {
      if parsed != [] && parsed[0] == f {
        ParsedIsPlain(FieldLine(f) + CRLF + rest, f);
      }
    } else {
      FieldReadsBack(f);
      ColonSplits(f);
      ParseFieldLine(f, rest);
    }
  }

  // ---------------------------------------------------------------------------------------
  // Whole responses
  // ---------------------------------------------------------------------------------------

  datatype Response =
    | Response(version: string, status: string, headers: seq<Field>)
    | IncorrectlyFormatted
    | NoLines

  /** The status line and then the headers; a version or status that cannot be there is an error. */
  function ParseResponse(content: string): Response {
    var line := LineOf(content);
    var versionEnd := IndexOf(line, ' ');
    if content == [] || versionEnd == |line| then NoLines
    else if |line| <= 5 || versionEnd + 1 >= |line| then IncorrectlyFormatted
    else
      var version := if versionEnd < 5 then line[5..] else line[5..versionEnd];
      var status := line[versionEnd + 1..|line| - (if line[|line| - 1] == CR then 1 else 0)];
      Response(version, status, ParseFields(AfterLine(content)))
  }

  /** A printed response comes back; its header block is also where automaton and search end it. */
  lemma ResponseRoundTrip(version: string, status: string, fields: seq<Field>)
    requires ' ' !in version && LF !in version && LF !in status
    requires forall f | f in fields :: Parseable(f)
    ensures ParseResponse(Block("HTTP/" + version + " " + status, fields)) == Response(version, status, fields)
  {
    var rest := Lines(fields) + (CRLF + []);
    StatusLineReadsBack(version, status, rest);
    FieldsReadBack(fields, []);
    assert CRLF + [] == CRLF;
    Sequences.Associative("HTTP/" + version + " " + status + CRLF, Lines(fields), CRLF);
  }

  lemma StatusLineReadsBack(version: string, status: string, rest: string)
    requires ' ' !in version && LF !in version && LF !in status
    ensures ParseResponse("HTTP/" + version + " " + status + CRLF + rest) == Response(version, status, ParseFields(rest))
  {
    var head := "HTTP/" + version;
    var line := head + [' '] + (status + [CR]);
    var content := line + [LF] + rest;
    assert "HTTP/" + version + " " + status + CRLF + rest == content;
    StatusLineHasNoLf(version, status);
    LineSplits(line, rest);
    StatusLineParts(version, status);
  }

  /** A first line without a space is no status line; one with nothing behind it, or too short, is ill formed. */
  lemma StatusLineErrors(version: string, status: string, rest: string)
    requires ' ' !in version && LF !in version && LF !in status
    ensures ParseResponse("") == NoLines && ParseResponse(version + [LF] + rest) == NoLines
    ensures ParseResponse(version + [' '] + status + [LF] + rest) == IncorrectlyFormatted <==>
            status == "" || |version| + |status| < 5
  {
    LineSplits(version, rest);
    var line := version + [' '] + status;
    assert LF !in line;
    LineSplits(line, rest);
    IndexOfSplit(version, ' ', status);
    var content := line + [LF] + rest;
    assert content != [] && |line| == |version| + 1 + |status|;
  }

  lemma StatusLineHasNoLf(version: string, status: string)
    requires LF !in version && LF !in status
    ensures LF !in "HTTP/" + version + [' '] + (status + [CR])
  {
  }

  lemma StatusLineParts(version: string, status: string)
    requires ' ' !in version
    ensures var line := "HTTP/" + version + [' '] + (status + [CR]);
            && IndexOf(line, ' ') == 5 + |version| && |line| == 7 + |version| + |status| && line[|line| - 1] == CR
            && line[5..5 + |version|] == version && line[5 + |version| + 1..|line| - 1] == status
  {
    var head := "HTTP/" + version;
    assert ' ' !in head;
    IndexOfSplit(head, ' ', status + [CR]);
  }

  /**
   * One printed block, three readers: the automaton stops at its end, the search for an empty line
   * stops there too, and the parser, given that much, returns the fields.
   */
  lemma BlockAgreement(version: string, status: string, fields: seq<Field>, body: string)
    requires Clean(version) && Clean(status) && ' ' !in version && CleanFields(fields)
    requires forall f | f in fields :: ':' !in f.name && (f.value == [] || f.value[0] != ' ')
    ensures var block := Block("HTTP/" + version + " " + status, fields);
            var received := block + body;
            && Scan(START, received) == Found(|block|)
            && Find(received, BLANK) == Some(|block| - 4)
            && ParseResponse(received[..Find(received, BLANK).value + 4]) == Response(version, status, fields)
  {
    var start := "HTTP/" + version + " " + status;
    assert Clean(start);
    AutomatonFindsEnd(start, fields, body);
    SearchFindsEnd(start, fields, body);
    ResponseRoundTrip(version, status, fields);
    var block := Block(start, fields);
    assert (block + body)[..|block|] == block;
  }
}
