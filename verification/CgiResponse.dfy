/**
 The parser of CGI responses (internal/php/cgi/response.go). A string holds one byte in each
 character, so white space outside ASCII is recognised by its UTF-8 encoding.
 */
module CgiResponse {
  import opened Common

  const MAX_HEADER_SIZE := 65536
  const MAX_HEADER_BYTES := 8192
  const MAX_HEADER_COUNT := 100
  const CRLF := "\r\n"
  const TERMINATOR := "\r\n\r\n"

  datatype Error = HeaderTooLarge | TooManyHeaders | InvalidHeader | HeaderInjection

  /** Canonical names with their values in order. */
  type Headers = map<string, seq<string>>

  datatype Response = Response(statusCode: int, headers: Headers, body: string, stderr: string)

  datatype Field = Field(name: string, value: string)

  // ---------------------------------------------------------------------------------------------
  // Searching
  // ---------------------------------------------------------------------------------------------

  function Find(s: string, sep: string): (r: Option<nat>)
    ensures r.Some? ==> r.value + |sep| <= |s| && s[r.value..r.value + |sep|] == sep
  {
    if sep <= s then Some(0)
    else if s == "" then None
    else
      var r := Find(s[1..], sep);
      if r.None? then None else Some(r.value + 1)
  }

  lemma NotAtFront(s: string, sep: string)
    requires s != "" && !(sep <= s)
    ensures Find(s, sep) == (if Find(s[1..], sep).None? then None else Some(Find(s[1..], sep).value + 1))
  {}

  lemma {:induction false} FindSkip(a: string, s: string, sep: string)
    requires sep != "" && sep[0] !in a
    ensures Find(a + s, sep) == (if Find(s, sep).None? then None else Some(|a| + Find(s, sep).value))
  {
    hide Find;
    if a == "" {
      assert a + s == s;
    } else {
      FindSkip(a[1..], s, sep);
      assert (a + s)[1..] == a[1..] + s && (a + s)[0] == a[0];
      assert !(sep <= a + s);
      NotAtFront(a + s, sep);
    }
  }

  /** What bytes.Split makes of a block of lines. */
  function Lines(s: string): seq<string> {
    var k := Find(s, CRLF);
    if k.None? then [s] else [s[..k.value]] + Lines(s[k.value + 2..])
  }

  // ---------------------------------------------------------------------------------------------
  // White space
  // ---------------------------------------------------------------------------------------------

  predicate AsciiSpace(c: char) { c == ' ' || 9 <= c as int <= 13 }

  predicate TwoByteSpace(a: int, b: int) { a == 0xC2 && (b == 0x85 || b == 0xA0) }

  predicate ThreeByteSpace(a: int, b: int, c: int) {
    || (a == 0xE1 && b == 0x9A && c == 0x80)
    || (a == 0xE2 && b == 0x80 && (0x80 <= c <= 0x8A || c in {0xA8, 0xA9, 0xAF}))
    || (a == 0xE2 && b == 0x81 && c == 0x9F)
    || (a == 0xE3 && b == 0x80 && c == 0x80)
  }

  /** The width of the white space at position i. */
  function SpaceAt(s: string, i: nat): (w: nat)
    ensures i + w <= |s| || w == 0
  {
    if i < |s| && AsciiSpace(s[i]) then 1
    else if i + 1 < |s| && TwoByteSpace(s[i] as int, s[i + 1] as int) then 2
    else if i + 2 < |s| && ThreeByteSpace(s[i] as int, s[i + 1] as int, s[i + 2] as int) then 3
    else 0
  }

  /** The width of the white space at the end. */
  function SpaceAtEnd(s: string): (w: nat)
    ensures w <= |s|
  {
    if |s| >= 1 && SpaceAt(s, |s| - 1) == 1 then 1
    else if |s| >= 2 && SpaceAt(s, |s| - 2) == 2 then 2
    else if |s| >= 3 && SpaceAt(s, |s| - 3) == 3 then 3
    else 0
  }

  function TrimFront(s: string): string {
    if SpaceAt(s, 0) == 0 then s else TrimFront(s[SpaceAt(s, 0)..])
  }

  function TrimBack(s: string): string {
    if SpaceAtEnd(s) == 0 then s else TrimBack(s[..|s| - SpaceAtEnd(s)])
  }

  function TrimSpace(s: string): string { TrimBack(TrimFront(s)) }

  predicate Trimmed(s: string) { SpaceAt(s, 0) == 0 && SpaceAtEnd(s) == 0 }

  lemma SpaceAtPrefix(s: string, n: nat)
    requires n <= |s| && SpaceAt(s[..n], 0) > 0
    ensures SpaceAt(s, 0) > 0
  {}

  lemma {:induction false} TrimBackTrims(s: string)
    ensures SpaceAtEnd(TrimBack(s)) == 0 && TrimBack(s) <= s
    ensures SpaceAt(s, 0) == 0 ==> SpaceAt(TrimBack(s), 0) == 0
  {
    hide SpaceAt, SpaceAtEnd;
    if SpaceAtEnd(s) > 0 {
      TrimBackTrims(s[..|s| - SpaceAtEnd(s)]);
      if SpaceAt(s, 0) == 0 && SpaceAt(s[..|s| - SpaceAtEnd(s)], 0) > 0 {
        SpaceAtPrefix(s, |s| - SpaceAtEnd(s));
      }
    }
  }

  lemma {:induction false} TrimFrontTrims(s: string)
    ensures SpaceAt(TrimFront(s), 0) == 0
    ensures |TrimFront(s)| <= |s| && s[|s| - |TrimFront(s)|..] == TrimFront(s)
  {
    hide SpaceAt;
    if SpaceAt(s, 0) > 0 {
      TrimFrontTrims(s[SpaceAt(s, 0)..]);
    }
  }

  lemma TrimSpaceTrims(s: string)
    ensures Trimmed(TrimSpace(s))
    ensures forall c :: c in TrimSpace(s) ==> c in s
  {
    hide SpaceAt, SpaceAtEnd, TrimFront, TrimBack;
    TrimFrontTrims(s);
    TrimBackTrims(TrimFront(s));
    var t := TrimFront(s);
    forall c | c in TrimBack(t) ensures c in s {
      var i :| 0 <= i < |TrimBack(t)| && TrimBack(t)[i] == c;
      assert t[i] == c && s[|s| - |t| + i] == c;
    }
  }

  lemma TrimmedIsKept(s: string)
    requires Trimmed(s)
    ensures TrimSpace(s) == s && TrimSpace(" " + s) == s
  {
    hide SpaceAtEnd;
    assert SpaceAt(" " + s, 0) == 1 && (" " + s)[1..] == s;
  }

  // ---------------------------------------------------------------------------------------------
  // Header names
  // ---------------------------------------------------------------------------------------------

  predicate Upper(c: char) { 'A' <= c <= 'Z' }
  predicate Lower(c: char) { 'a' <= c <= 'z' }

  predicate TokenChar(c: char) {
    Upper(c) || Lower(c) || '0' <= c <= '9' || c in "!#$%&'*+-.^_`|~"
  }

  function Capital(c: char): (r: char)
    ensures TokenChar(c) ==> TokenChar(r)
  {
    if Lower(c) then (c as int - 32) as char else c
  }

  function Small(c: char): (r: char)
    ensures TokenChar(c) ==> TokenChar(r)
  {
    if Upper(c) then (c as int + 32) as char else c
  }

  /** Capital at the start and after each hyphen, small elsewhere. */
  function Capitalised(s: string, upper: bool): (r: string)
    ensures |r| == |s|
  {
    if s == "" then "" else [if upper then Capital(s[0]) else Small(s[0])] + Capitalised(s[1..], s[0] == '-')
  }

  predicate Token(s: string) { forall i :: 0 <= i < |s| ==> TokenChar(s[i]) }

  function Canonical(name: string): string {
    if Token(name) then Capitalised(name, true) else name
  }

  lemma {:induction false} CapitalisedTwice(s: string, upper: bool)
    requires Token(s)
    ensures Token(Capitalised(s, upper)) && Capitalised(Capitalised(s, upper), upper) == Capitalised(s, upper)
  {
    if s != "" {
      CapitalisedTwice(s[1..], s[0] == '-');
      assert Capitalised(s, upper)[1..] == Capitalised(s[1..], s[0] == '-');
      assert Capitalised(s, upper)[0] == '-' <==> s[0] == '-';
    }
  }

  lemma CanonicalTwice(name: string)
    ensures Canonical(Canonical(name)) == Canonical(name)
  {
    if Token(name) { CapitalisedTwice(name, true); }
  }

  function Add(headers: Headers, f: Field): Headers {
    var key := Canonical(f.name);
    headers[key := (if key in headers then headers[key] else []) + [f.value]]
  }

  function Get(headers: Headers, name: string): string {
    var key := Canonical(name);
    if key in headers && headers[key] != [] then headers[key][0] else ""
  }

  /** The headers after adding these fields. */
  function Grouped(fields: seq<Field>): Headers {
    if fields == [] then map[] else Add(Grouped(fields[..|fields| - 1]), fields[|fields| - 1])
  }

  /** The values of the fields of one name, whatever its case. */
  function ValuesOf(fields: seq<Field>, key: string): seq<string> {
    if fields == [] then []
    else
      var rest := ValuesOf(fields[..|fields| - 1], key);
      if Canonical(fields[|fields| - 1].name) == key then rest + [fields[|fields| - 1].value] else rest
  }

  lemma {:induction false} GroupedByName(fields: seq<Field>, key: string)
    ensures key in Grouped(fields) <==> ValuesOf(fields, key) != []
    ensures key in Grouped(fields) ==> Grouped(fields)[key] == ValuesOf(fields, key)
  {
    hide Canonical;
    if fields != [] {
      GroupedByName(fields[..|fields| - 1], key);
    }
  }

  // ---------------------------------------------------------------------------------------------
  // One header line
  // ---------------------------------------------------------------------------------------------

  predicate Control(c: char) { c as int < 32 || c as int == 127 }

  predicate CleanName(s: string) { forall i :: 0 <= i < |s| ==> !Control(s[i]) }

  predicate CleanValue(s: string) { forall i :: 0 <= i < |s| ==> !Control(s[i]) || s[i] == '\t' }

  function HeaderLine(line: string): Result<Field, Error> {
    var colon := Find(line, ":");
    if colon.None? then Err(InvalidHeader)
    else
      var name, value := TrimSpace(line[..colon.value]), TrimSpace(line[colon.value + 1..]);
      if name == "" then Err(InvalidHeader)
      else if !CleanName(name) || !CleanValue(value) then Err(HeaderInjection)
      else Ok(Field(name, value))
  }

  method ParseHeaderLine(line: string) returns (r: Result<Field, Error>)
    ensures r == HeaderLine(line)
  {
    hide TrimSpace, Find;
    var colonIdx := Find(line, ":");
    if colonIdx.None? {
      return Err(InvalidHeader);
    }
    var name := TrimSpace(line[..colonIdx.value]);
    var value := TrimSpace(line[colonIdx.value + 1..]);
    if name == "" {
      return Err(InvalidHeader);
    }
    for i := 0 to |name|
      invariant CleanName(name[..i])
    {
      if name[i] as int < 32 || name[i] as int == 127 {
        return Err(HeaderInjection);
      }
    }
    assert name[..|name|] == name;
    for i := 0 to |value|
      invariant CleanValue(value[..i])
    {
      if (value[i] as int < 32 && value[i] != '\t') || value[i] as int == 127 {
        return Err(HeaderInjection);
      }
    }
    assert value[..|value|] == value;
    return Ok(Field(name, value));
  }

  // ---------------------------------------------------------------------------------------------
  // The header block
  // ---------------------------------------------------------------------------------------------

  /** The fields of these lines, after `total` bytes in `count` lines. */
  function Fields(lines: seq<string>, total: nat, count: nat): Result<seq<Field>, Error> {
    if lines == [] then Ok([])
    else if lines[0] == "" then Fields(lines[1..], total, count)
    else if |lines[0]| > MAX_HEADER_BYTES || total + |lines[0]| + 2 > MAX_HEADER_SIZE then Err(HeaderTooLarge)
    else if count + 1 > MAX_HEADER_COUNT then Err(TooManyHeaders)
    else
      var first := HeaderLine(lines[0]);
      if first.Err? then Err(first.error)
      else
        var rest := Fields(lines[1..], total + |lines[0]| + 2, count + 1);
        if rest.Err? then rest else Ok([first.value] + rest.value)
  }

  method ParseHeaders(data: string) returns (r: Result<Headers, Error>)
    ensures var fields := Fields(Lines(data), 0, 0);
            r == if fields.Err? then Err(fields.error) else Ok(Grouped(fields.value))
  {
    hide Lines, Add, HeaderLine, Fields, Prepended, Grouped;
    var headers: Headers := map[];
    var totalBytes, lineCount := 0, 0;
    var lines := Lines(data);
    ghost var done: seq<Field> := [];
    assert lines[0..] == lines;
    PrependedNone(Fields(lines, 0, 0));
    for i := 0 to |lines|
      invariant headers == Grouped(done) && totalBytes >= 0 && lineCount >= 0
      invariant Fields(lines, 0, 0) == Prepended(done, Fields(lines[i..], totalBytes, lineCount))
    {
      var line := lines[i];
      FieldsStep(lines, i, totalBytes, lineCount);
      if |line| == 0 {
        continue;
      }
      PrependedErr(done);
      if |line| > MAX_HEADER_BYTES {
        return Err(HeaderTooLarge);
      }
      totalBytes := totalBytes + |line| + 2;
      if totalBytes > MAX_HEADER_SIZE {
        return Err(HeaderTooLarge);
      }
      lineCount := lineCount + 1;
      if lineCount > MAX_HEADER_COUNT {
        return Err(TooManyHeaders);
      }
      var field := ParseHeaderLine(line);
      if field.Err? {
        return Err(field.error);
      }
      headers := Add(headers, field.value);
      PrependedMore(done, field.value, Fields(lines[i + 1..], totalBytes, lineCount));
      GroupedMore(done, field.value);
      done := done + [field.value];
    }
    assert lines[|lines|..] == [];
    FieldsEnd(done, totalBytes, lineCount);
    return Ok(headers);
  }

  function Prepended(done: seq<Field>, rest: Result<seq<Field>, Error>): Result<seq<Field>, Error> {
    if rest.Err? then rest else Ok(done + rest.value)
  }

  lemma PrependedNone(rest: Result<seq<Field>, Error>)
    ensures Prepended([], rest) == rest && Grouped([]) == map[]
  {
    if rest.Ok? { assert [] + rest.value == rest.value; }
  }

  lemma PrependedErr(done: seq<Field>)
    ensures forall e :: Prepended(done, Err(e)) == Err(e)
  {}

  lemma FieldsEnd(done: seq<Field>, total: nat, count: nat)
    ensures Prepended(done, Fields([], total, count)) == Ok(done)
  {
    assert done + [] == done;
  }

  lemma GroupedMore(done: seq<Field>, f: Field)
    ensures Grouped(done + [f]) == Add(Grouped(done), f)
  {
    hide Add;
    assert (done + [f])[..|done|] == done;
  }

  lemma PrependedMore(done: seq<Field>, f: Field, rest: Result<seq<Field>, Error>)
    ensures Prepended(done, Prepended([f], rest)) == Prepended(done + [f], rest)
  {
    if rest.Ok? { assert done + ([f] + rest.value) == done + [f] + rest.value; }
  }

  lemma FieldsStep(lines: seq<string>, i: nat, total: nat, count: nat)
    requires i < |lines|
    ensures Fields(lines[i..], total, count) ==
              if lines[i] == "" then Fields(lines[i + 1..], total, count)
              else if |lines[i]| > MAX_HEADER_BYTES || total + |lines[i]| + 2 > MAX_HEADER_SIZE then Err(HeaderTooLarge)
              else if count + 1 > MAX_HEADER_COUNT then Err(TooManyHeaders)
              else if HeaderLine(lines[i]).Err? then Err(HeaderLine(lines[i]).error)
              else Prepended([HeaderLine(lines[i]).value], Fields(lines[i + 1..], total + |lines[i]| + 2, count + 1))
  {
    hide HeaderLine;
    assert lines[i..][1..] == lines[i + 1..];
  }

  // ---------------------------------------------------------------------------------------------
  // The status line
  // ---------------------------------------------------------------------------------------------

  predicate Digit(c: char) { '0' <= c <= '9' }

  predicate Digits(s: string) { forall i :: 0 <= i < |s| ==> Digit(s[i]) }

  function Number(s: string): int
    requires Digits(s)
  {
    if s == "" then 0 else Number(s[..|s| - 1]) * 10 + (s[|s| - 1] as int - '0' as int)
  }

  /** A decimal number with an optional sign. */
  function Atoi(s: string): Option<int> {
    var digits := if s != "" && (s[0] == '+' || s[0] == '-') then s[1..] else s;
    if digits == "" || !Digits(digits) then None
    else if s[0] == '-' then Some(-Number(digits)) else Some(Number(digits))
  }

  function StatusLine(s: string): (r: Result<int, Error>)
    ensures if r.Ok? then 100 <= r.value <= 599 else r.error == InvalidHeader
  {
    var t := TrimSpace(s);
    var space := Find(t, " ");
    var code := Atoi(if space.Some? then t[..space.value] else t);
    if code.None? || code.value < 100 || code.value > 599 then Err(InvalidHeader) else Ok(code.value)
  }

  // ---------------------------------------------------------------------------------------------
  // The response
  // ---------------------------------------------------------------------------------------------

  function Responded(fields: seq<Field>, body: string, stderr: string): Result<Response, Error> {
    var headers := Grouped(fields);
    var status := Get(headers, "Status");
    if status == "" then Ok(Response(200, headers, body, stderr))
    else
      var code := StatusLine(status);
      if code.Err? then Err(code.error)
      else Ok(Response(code.value, headers - {Canonical("Status")}, body, stderr))
  }

  /** The fields read from the header block, if there is one, and the body. */
  function Headed(stdout: string): Option<(Result<seq<Field>, Error>, string)> {
    var end := Find(stdout, TERMINATOR);
    if end.None? then None
    else Some((Fields(Lines(stdout[..end.value]), 0, 0), stdout[end.value + |TERMINATOR|..]))
  }

  function Parsed(stdout: string, stderr: string): Result<Response, Error> {
    match Headed(stdout)
    case None => Ok(Response(200, map[], stdout, stderr))
    case Some((Err(error), _)) => Err(error)
    case Some((Ok(fields), body)) => Responded(fields, body, stderr)
  }

  method ParseResponse(stdout: string, stderr: string) returns (r: Result<Response, Error>)
    ensures r == Parsed(stdout, stderr)
  {
    hide Lines, Fields, Grouped, StatusLine, Canonical;
    if |stdout| == 0 {
      return Ok(Response(200, map[], "", stderr));
    }
    var termIdx := Find(stdout, TERMINATOR);
    if termIdx.None? {
      return Ok(Response(200, map[], stdout, stderr));
    }
    var headerBytes := stdout[..termIdx.value];
    var bodyBytes := stdout[termIdx.value + |TERMINATOR|..];
    var parsed := ParseHeaders(headerBytes);
    if parsed.Err? {
      return Err(parsed.error);
    }
    var headers := parsed.value;
    var statusCode := 200;
    var statusLine := Get(headers, "Status");
    if statusLine != "" {
      var code := StatusLine(statusLine);
      if code.Err? {
        return Err(code.error);
      }
      statusCode := code.value;
      headers := headers - {Canonical("Status")};
    }
    return Ok(Response(statusCode, headers, bodyBytes, stderr));
  }

  // ---------------------------------------------------------------------------------------------
  // Printing and parsing
  // ---------------------------------------------------------------------------------------------

  ghost predicate Clean(f: Field) {
    && f.name != "" && Trimmed(f.name) && CleanName(f.name) && ':' !in f.name
    && Trimmed(f.value) && CleanValue(f.value)
  }

  ghost predicate AllClean(fields: seq<Field>) { forall i :: 0 <= i < |fields| ==> Clean(fields[i]) }

  function Line(f: Field): string { f.name + ": " + f.value }

  /** The header lines, joined by line endings. */
  function Block(fields: seq<Field>): string {
    if fields == [] then ""
    else if |fields| == 1 then Line(fields[0])
    else Line(fields[0]) + (CRLF + Block(fields[1..]))
  }

  /** A whole response: the headers, a blank line and the body. */
  function Printed(fields: seq<Field>, body: string): string {
    Block(fields) + (TERMINATOR + body)
  }

  /** What the limit on all headers counts. */
  function Size(fields: seq<Field>): nat {
    if fields == [] then 0 else |Line(fields[0])| + 2 + Size(fields[1..])
  }

  function PrintedLines(fields: seq<Field>): seq<string> {
    if fields == [] then [] else [Line(fields[0])] + PrintedLines(fields[1..])
  }

  ghost predicate Fits(fields: seq<Field>, total: nat, count: nat) {
    && count + |fields| <= MAX_HEADER_COUNT && total + Size(fields) <= MAX_HEADER_SIZE
    && forall i :: 0 <= i < |fields| ==> |Line(fields[i])| <= MAX_HEADER_BYTES
  }

  lemma LineReads(f: Field)
    requires Clean(f)
    ensures HeaderLine(Line(f)) == Ok(f)
  {
    hide TrimSpace, Find, Trimmed, CleanName, CleanValue;
    var line := Line(f);
    FindSkip(f.name, ": " + f.value, ":");
    FindHere(": " + f.value, ":");
    assert line == f.name + (": " + f.value);
    assert line[..|f.name|] == f.name && line[|f.name| + 1..] == " " + f.value;
    TrimmedIsKept(f.name);
    TrimmedIsKept(f.value);
  }

  lemma FindHere(s: string, sep: string)
    requires sep <= s
    ensures Find(s, sep) == Some(0)
  {}

  lemma LineIsOneLine(f: Field)
    requires Clean(f)
    ensures '\r' !in Line(f) && Line(f) != "" && Line(f)[0] != '\r'
  {
    hide Trimmed;
    forall i | 0 <= i < |Line(f)| ensures Line(f)[i] != '\r' {
      if i < |f.name| { assert !Control(f.name[i]); }
      else if i >= |f.name| + 2 { assert Line(f)[i] == f.value[i - |f.name| - 2]; }
    }
  }

  lemma FindAfterEnd(rest: string, sep: string)
    requires sep != "" && sep[0] == '\r' && !(sep <= CRLF + rest)
    ensures Find(CRLF + rest, sep) == (if Find(rest, sep).None? then None else Some(2 + Find(rest, sep).value))
  {
    hide Find;
    var s := CRLF + rest;
    assert s[1..][1..] == rest;
    NotAtFront(s, sep);
    NotAtFront(s[1..], sep);
  }

  lemma FindAtLine(line: string, rest: string, sep: string)
    requires '\r' !in line && sep != "" && sep[0] == '\r' && sep <= CRLF + rest
    ensures Find(line + (CRLF + rest), sep) == Some(|line|)
  {
    hide Find;
    FindSkip(line, CRLF + rest, sep);
    FindHere(CRLF + rest, sep);
  }

  /** The first blank line is the one that ends the printed headers. */
  lemma {:induction false} PrintedEnds(fields: seq<Field>, body: string)
    requires AllClean(fields)
    ensures Find(Printed(fields, body), TERMINATOR) == Some(|Block(fields)|)
  {
    hide Find, Clean, Line;
    var end := TERMINATOR + body;
    if fields == [] {
      assert "" + end == end;
      FindHere(end, TERMINATOR);
    } else {
      var line := Line(fields[0]);
      LineIsOneLine(fields[0]);
      if |fields| == 1 {
        FindSkip(line, end, TERMINATOR);
        FindHere(end, TERMINATOR);
      } else {
        PrintedEnds(fields[1..], body);
        var rest := Printed(fields[1..], body);
        LineIsOneLine(fields[1]);
        BlockStarts(fields[1..]);
        assert rest[0] == Line(fields[1])[0];
        assert !(TERMINATOR <= CRLF + rest) by { assert (CRLF + rest)[2] != TERMINATOR[2]; }
        FindAfterEnd(rest, TERMINATOR);
        FindSkip(line, CRLF + rest, TERMINATOR);
        Regroup(line, CRLF, Block(fields[1..]), end);
      }
    }
  }

  lemma BlockStarts(fields: seq<Field>)
    requires fields != []
    ensures Line(fields[0]) <= Block(fields)
  {
    hide Line;
  }

  lemma Regroup(line: string, end: string, more: string, rest: string)
    ensures (line + (end + more)) + rest == line + (end + (more + rest))
  {}

  lemma {:induction false} LinesOfPrinted(fields: seq<Field>)
    requires fields != [] && AllClean(fields)
    ensures Lines(Block(fields)) == PrintedLines(fields)
  {
    hide Find, Clean, Line;
    var line := Line(fields[0]);
    LineIsOneLine(fields[0]);
    if |fields| == 1 {
      NoneIn(line);
      assert PrintedLines(fields[1..]) == [];
    } else {
      var block := Block(fields[1..]);
      LinesOfPrinted(fields[1..]);
      LinesStep(line, block);
    }
  }

  lemma NoneIn(line: string)
    requires '\r' !in line
    ensures Find(line, CRLF).None?
  {
    FindSkip(line, "", CRLF);
    assert line + "" == line;
  }

  lemma LinesStep(line: string, rest: string)
    requires '\r' !in line
    ensures Lines(line + (CRLF + rest)) == [line] + Lines(rest)
  {
    hide Find, Lines;
    assert CRLF <= CRLF + rest;
    FindAtLine(line, rest, CRLF);
    CutLine(line, rest);
    LinesAt(line + (CRLF + rest), |line|);
  }

  lemma CutLine(line: string, rest: string)
    ensures (line + (CRLF + rest))[..|line|] == line && (line + (CRLF + rest))[|line| + 2..] == rest
  {}

  lemma LinesAt(s: string, k: nat)
    requires Find(s, CRLF) == Some(k)
    ensures Lines(s) == [s[..k]] + Lines(s[k + 2..])
  {
    hide Find;
  }

  lemma {:induction false} PrintedLinesRead(fields: seq<Field>, total: nat, count: nat)
    requires AllClean(fields)
    ensures Fits(fields, total, count) ==> Fields(PrintedLines(fields), total, count) == Ok(fields)
    ensures !Fits(fields, total, count) && (fields != [] || (total <= MAX_HEADER_SIZE && count <= MAX_HEADER_COUNT)) ==>
              Fields(PrintedLines(fields), total, count) in {Err(HeaderTooLarge), Err(TooManyHeaders)}
    decreases |fields|
  {
    hide Clean, HeaderLine, Line;
    if fields != [] {
      var line := Line(fields[0]);
      LineReads(fields[0]);
      LineIsOneLine(fields[0]);
      assert PrintedLines(fields)[1..] == PrintedLines(fields[1..]);
      FitsStep(fields, total, count);
      if |line| <= MAX_HEADER_BYTES && total + |line| + 2 <= MAX_HEADER_SIZE && count + 1 <= MAX_HEADER_COUNT {
        PrintedLinesRead(fields[1..], total + |line| + 2, count + 1);
        assert [fields[0]] + fields[1..] == fields;
      }
    }
  }

  lemma FitsStep(fields: seq<Field>, total: nat, count: nat)
    requires fields != []
    ensures Fits(fields, total, count) <==>
              |Line(fields[0])| <= MAX_HEADER_BYTES && Fits(fields[1..], total + |Line(fields[0])| + 2, count + 1)
  {
    hide Line;
    assert forall i :: 0 < i < |fields| ==> fields[i] == fields[1..][i - 1];
  }

  lemma NoLinesRead()
    ensures Fields(Lines(""), 0, 0) == Ok([])
  {
    FindNone("", CRLF);
    assert Lines("") == [""];
  }

  /** A printed response is split where its headers end, and its fields are read up to the limits. */
  lemma PrintedReads(fields: seq<Field>, body: string)
    requires AllClean(fields)
    ensures var h := Headed(Printed(fields, body));
            && h.Some? && h.value.1 == body
            && if Fits(fields, 0, 0) then h.value.0 == Ok(fields)
               else h.value.0 in {Err(HeaderTooLarge), Err(TooManyHeaders)}
  {
    PrintedEnds(fields, body);
    CutPrinted(Block(fields), body);
    if fields == [] {
      NoLinesRead();
    } else {
      hide Find, Lines, Fields, AllClean, Fits, Block;
      LinesOfPrinted(fields);
      PrintedLinesRead(fields, 0, 0);
    }
  }

  lemma CutPrinted(block: string, body: string)
    ensures var stdout := block + (TERMINATOR + body);
            stdout[..|block|] == block && stdout[|block| + 4..] == body
  {}

  /**
   Printed headers, none included, and any body at all parse back to those headers and that body, or
   the limits are exceeded and the parse fails for that reason.
   */
  lemma PrintedParsesBack(fields: seq<Field>, body: string, stderr: string)
    requires AllClean(fields)
    ensures var r := Parsed(Printed(fields, body), stderr);
            if Fits(fields, 0, 0) then r == Responded(fields, body, stderr)
            else r in {Err(HeaderTooLarge), Err(TooManyHeaders)}
  {
    hide AllClean, Fits, Responded, Headed, Printed;
    PrintedReads(fields, body);
  }

  /** Printed fields are read back, in order and with the body, exactly when they are clean and fit. */
  lemma ReadsBackExactly(fields: seq<Field>, body: string)
    ensures Headed(Printed(fields, body)) == Some((Ok(fields), body)) <==> AllClean(fields) && Fits(fields, 0, 0)
  {
    hide Find, Lines, Fields, AllClean, Fits, Printed;
    var stdout := Printed(fields, body);
    if AllClean(fields) {
      PrintedReads(fields, body);
    } else if Find(stdout, TERMINATOR).Some? {
      AcceptedFieldsAreClean(Lines(stdout[..Find(stdout, TERMINATOR).value]), 0, 0);
    }
  }

  /**
   Three ways to print a body without a header. Behind an empty block and its blank line every body
   comes back; on its own it does so exactly when it holds no blank line of that kind; behind a
   single line ending it never does.
   */
  lemma HeaderlessParsesBack(body: string, stderr: string)
    ensures Parsed(TERMINATOR + body, stderr) == Ok(Response(200, map[], body, stderr))
    ensures Parsed(body, stderr) == Ok(Response(200, map[], body, stderr)) <==> Find(body, TERMINATOR).None?
    ensures Parsed(CRLF + body, stderr).Ok? ==> Parsed(CRLF + body, stderr).value.body != body
  {
    PrintedParsesBack([], body, stderr);
    assert Printed([], body) == TERMINATOR + body;
    assert Responded([], body, stderr) == Ok(Response(200, map[], body, stderr));
    hide Find, Lines, Fields, Grouped, StatusLine;
    ShorterBody(body, stderr);
    ShorterBody(CRLF + body, stderr);
  }

  /** A body is what follows the header block, or all there is. */
  lemma ShorterBody(stdout: string, stderr: string)
    ensures Parsed(stdout, stderr).Ok? ==>
              |Parsed(stdout, stderr).value.body| ==
                if Find(stdout, TERMINATOR).Some? then |stdout| - Find(stdout, TERMINATOR).value - 4 else |stdout|
  {
    hide Find, Lines, Fields, Grouped, StatusLine;
  }

  /** What a response says about its fields: the first Status, unless empty, and the values under each name. */
  lemma RespondedMeans(fields: seq<Field>, body: string, stderr: string)
    ensures var r := Responded(fields, body, stderr);
            var statuses := ValuesOf(fields, "Status");
            if statuses == [] || statuses[0] == "" then
              r.Ok? && r.value.statusCode == 200
              && forall k :: ValuesOf(fields, k) == if k in r.value.headers then r.value.headers[k] else []
            else if StatusLine(statuses[0]).Err? then r == Err(InvalidHeader)
            else
              && r.Ok? && r.value.statusCode == StatusLine(statuses[0]).value
              && "Status" !in r.value.headers
              && forall k :: k != "Status" ==>
                   ValuesOf(fields, k) == if k in r.value.headers then r.value.headers[k] else []
    ensures Responded(fields, body, stderr).Ok? ==>
              && Responded(fields, body, stderr).value.body == body
              && Responded(fields, body, stderr).value.stderr == stderr
  {
    StatusIsCanonical();
    hide Canonical, Grouped, ValuesOf;
    GroupedByName(fields, "Status");
    forall k ensures ValuesOf(fields, k) == if k in Grouped(fields) then Grouped(fields)[k] else [] {
      GroupedByName(fields, k);
    }
  }

  lemma StatusIsCanonical()
    ensures Canonical("Status") == "Status"
  {
    hide Capitalised;
    CapitalisedStep('s', "", false);
    CapitalisedStep('u', "s", false);
    CapitalisedStep('t', "us", false);
    CapitalisedStep('a', "tus", false);
    CapitalisedStep('t', "atus", false);
    CapitalisedStep('S', "tatus", true);
    assert ['s'] + "" == "s" && ['u'] + "s" == "us" && ['t'] + "us" == "tus";
    assert ['a'] + "tus" == "atus" && ['t'] + "atus" == "tatus" && ['S'] + "tatus" == "Status";
  }

  lemma CapitalisedStep(c: char, s: string, upper: bool)
    ensures Capitalised([c] + s, upper) == [if upper then Capital(c) else Small(c)] + Capitalised(s, c == '-')
    ensures Capitalised("", upper) == ""
  {
    assert ([c] + s)[1..] == s;
  }

  /** A Status of a code from 100 to 599 with any reason is read as that code. */
  lemma StatusReads(code: string, reason: string)
    requires |code| == 3 && forall i :: 0 <= i < 3 ==> Digit(code[i])
    ensures var n := Number(code);
            StatusLine(code + " " + reason) == if 100 <= n <= 599 then Ok(n) else Err(InvalidHeader)
  {
    hide SpaceAt, SpaceAtEnd, Find, Number;
    var s := code + " " + reason;
    DigitsAreNoSpace(s);
    assert TrimFront(s) == s;
    TrimKeepsDigits(s);
    var t := TrimBack(s);
    assert t[..3] == code;
    if |t| == 3 {
      assert t == code;
      FindSkip(code, "", " ");
      assert code + "" == code;
      FindNone("", " ");
    } else {
      assert t == code + t[3..] && t[3] == ' ';
      FindHere(t[3..], " ");
      FindSkip(code, t[3..], " ");
    }
    assert code[0] != '+' && code[0] != '-' by { assert Digit(code[0]); }
  }

  lemma FindNone(s: string, sep: string)
    requires |s| < |sep|
    ensures Find(s, sep).None?
  {
    if s != "" { FindNone(s[1..], sep); }
  }

  lemma DigitsAreNoSpace(s: string)
    requires |s| >= 1 && Digit(s[0])
    ensures SpaceAt(s, 0) == 0
  {}

  /** White space at the end never reaches into the digits at the front. */
  lemma {:induction false} TrimKeepsDigits(s: string)
    requires |s| >= 3 && forall i :: 0 <= i < 3 ==> Digit(s[i])
    ensures |TrimBack(s)| >= 3 && TrimBack(s) <= s
  {
    hide SpaceAtEnd;
    SpaceAfterDigits(s);
    if SpaceAtEnd(s) > 0 {
      TrimKeepsDigits(s[..|s| - SpaceAtEnd(s)]);
    }
  }

  lemma SpaceAfterDigits(s: string)
    requires |s| >= 3 && forall i :: 0 <= i < 3 ==> Digit(s[i])
    ensures |s| - SpaceAtEnd(s) >= 3
  {
    assert Digit(s[0]) && Digit(s[1]) && Digit(s[2]);
  }

  // ---------------------------------------------------------------------------------------------
  // What an accepted response can hold
  // ---------------------------------------------------------------------------------------------

  lemma AcceptedLineIsClean(line: string)
    ensures HeaderLine(line).Ok? ==> Clean(HeaderLine(line).value)
  {
    hide TrimSpace, Find, Trimmed, CleanName, CleanValue;
    var colon := Find(line, ":");
    if colon.Some? {
      TrimSpaceTrims(line[..colon.value]);
      TrimSpaceTrims(line[colon.value + 1..]);
      NotBefore(line, ":", colon.value);
    }
  }

  lemma {:induction false} NotBefore(s: string, sep: string, k: nat)
    requires |sep| == 1 && Find(s, sep) == Some(k)
    ensures sep[0] !in s[..k]
  {
    if k > 0 {
      assert s[0] == sep[0] ==> sep <= s by { assert sep == [sep[0]] && s[..1] == [s[0]]; }
      NotBefore(s[1..], sep, k - 1);
      assert s[..k] == [s[0]] + s[1..][..k - 1];
    }
  }

  lemma {:induction false} AcceptedFieldsAreClean(lines: seq<string>, total: nat, count: nat)
    ensures var r := Fields(lines, total, count);
            r.Ok? ==> AllClean(r.value) && (count <= MAX_HEADER_COUNT ==> count + |r.value| <= MAX_HEADER_COUNT)
    decreases |lines|
  {
    hide HeaderLine, Clean;
    if lines != [] {
      if lines[0] == "" {
        AcceptedFieldsAreClean(lines[1..], total, count);
      } else if count + 1 <= MAX_HEADER_COUNT {
        AcceptedLineIsClean(lines[0]);
        AcceptedFieldsAreClean(lines[1..], total + |lines[0]| + 2, count + 1);
      }
    }
  }

  ghost predicate SafeHeaders(headers: Headers) {
    forall k :: k in headers ==>
      k != "" && CleanName(k) && forall i :: 0 <= i < |headers[k]| ==> CleanValue(headers[k][i])
  }

  lemma {:induction false} CapitalisedIsClean(s: string, upper: bool)
    requires Token(s)
    ensures CleanName(Capitalised(s, upper))
  {
    if s != "" { CapitalisedIsClean(s[1..], s[0] == '-'); }
  }

  lemma {:induction false} GroupedIsSafe(fields: seq<Field>)
    requires AllClean(fields)
    ensures SafeHeaders(Grouped(fields))
  {
    hide Capitalised, Token, Trimmed, CleanName, CleanValue;
    if fields != [] {
      var f := fields[|fields| - 1];
      GroupedIsSafe(fields[..|fields| - 1]);
      if Token(f.name) { CapitalisedIsClean(f.name, true); }
      assert Clean(f) && CleanName(Canonical(f.name)) && Canonical(f.name) != "";
    }
  }

  /**
   Whatever the program wrote, a response that is accepted holds no control character in a header
   name or value but a tab, a status from 100 to 599, and a body that is the end of the output.
   */
  lemma AcceptedIsSafe(stdout: string, stderr: string)
    ensures var r := Parsed(stdout, stderr);
            r.Ok? ==>
              && SafeHeaders(r.value.headers) && 100 <= r.value.statusCode <= 599
              && |r.value.body| <= |stdout| && stdout[|stdout| - |r.value.body|..] == r.value.body
              && r.value.stderr == stderr
  {
    hide Find, Lines, Fields, Grouped, Canonical, StatusLine, CleanName, CleanValue, AllClean;
    var end := Find(stdout, TERMINATOR);
    if end.Some? {
      AcceptedFieldsAreClean(Lines(stdout[..end.value]), 0, 0);
      var fields := Fields(Lines(stdout[..end.value]), 0, 0);
      if fields.Ok? { GroupedIsSafe(fields.value); }
    }
  }

  /** Printing what was accepted and parsing it again changes nothing exactly when the printed form fits. */
  lemma AcceptedParsesAgain(stdout: string, stderr: string)
    ensures match Headed(stdout)
            case Some((Ok(fields), body)) =>
              Parsed(Printed(fields, body), stderr) == Parsed(stdout, stderr) <==> Fits(fields, 0, 0)
            case _ => true
  {
    hide Find, Lines, Fields, Fits, AllClean, Responded, Printed;
    match Headed(stdout)
    case Some((Ok(fields), body)) =>
      AcceptedFieldsAreClean(Lines(stdout[..Find(stdout, TERMINATOR).value]), 0, 0);
      PrintedParsesBack(fields, body, stderr);
      RespondedMeans(fields, body, stderr);
    case _ =>
  }

  // ---------------------------------------------------------------------------------------------
  // The line scanner of the streaming parser
  // ---------------------------------------------------------------------------------------------

  /** How far to advance, and the line if there is one. */
  function Scanned(data: string, atEOF: bool): (nat, Option<string>) {
    var k := Find(data, CRLF);
    if k.Some? then (k.value + 2, Some(data[..k.value]))
    else if !atEOF || data == "" then (0, None)
    else (|data|, Some(data))
  }

  method ScanCRLFHeaders(data: string, atEOF: bool) returns (advance: nat, token: Option<string>)
    ensures (advance, token) == Scanned(data, atEOF)
  {
    hide Find;
    if atEOF && |data| == 0 {
      FindNone("", CRLF);
      return 0, None;
    }
    var i := 0;
    while i < |data| - 1
      invariant 0 <= i <= |data| && (|data| > 0 ==> i < |data|)
      invariant Find(data, CRLF) == Shifted(i, Find(data[i..], CRLF))
      invariant forall j :: 0 <= j < i ==> !(data[j] == '\r' && data[j + 1] == '\n')
    {
      FindStepAt(data, i);
      if data[i] == '\r' && data[i + 1] == '\n' {
        return i + 2, Some(data[..i]);
      }
      i := i + 1;
    }
    if |data| >= 2 && data[|data| - 2] == '\r' && data[|data| - 1] == '\n' {
      assert false;
    }
    FindNone(data[i..], CRLF);
    if !atEOF {
      return 0, None;
    }
    return |data|, Some(data);
  }

  function Shifted(i: nat, r: Option<nat>): Option<nat> {
    if r.None? then None else Some(i + r.value)
  }

  lemma FindStepAt(data: string, i: nat)
    requires i + 1 < |data|
    ensures Find(data[i..], CRLF) ==
              if data[i] == '\r' && data[i + 1] == '\n' then Some(0) else Shifted(1, Find(data[i + 1..], CRLF))
  {
    hide Find;
    FindStep(data[i..]);
    assert data[i..][1..] == data[i + 1..];
  }

  lemma FindStep(s: string)
    requires |s| >= 2
    ensures Find(s, CRLF) == if s[0] == '\r' && s[1] == '\n' then Some(0) else Shifted(1, Find(s[1..], CRLF))
  {
    assert CRLF <= s <==> s[0] == '\r' && s[1] == '\n';
  }

  /** However the output is cut into reads, a line once found is the same line. */
  lemma ScanIsStable(data: string, more: string, atEOF: bool)
    requires Scanned(data, false).1.Some?
    ensures Scanned(data + more, atEOF) == Scanned(data, false)
  {
    hide Find;
    FindStays(data, more);
    var k := Find(data, CRLF).value;
    assert (data + more)[..k] == data[..k];
  }

  lemma {:induction false} FindStays(data: string, more: string)
    requires Find(data, CRLF).Some?
    ensures Find(data + more, CRLF) == Find(data, CRLF)
  {
    hide Find;
    HasTwo(data);
    PrefixStays(data, more);
    if CRLF <= data {
      FindHere(data, CRLF);
      FindHere(data + more, CRLF);
    } else {
      NotAtFront(data, CRLF);
      FindStays(data[1..], more);
      TailOfAppend(data, more);
      NotAtFront(data + more, CRLF);
    }
  }

  lemma TailOfAppend(data: string, more: string)
    requires data != ""
    ensures (data + more)[1..] == data[1..] + more
  {}

  lemma HasTwo(data: string)
    requires Find(data, CRLF).Some?
    ensures |data| >= 2
  {}

  lemma PrefixStays(data: string, more: string)
    ensures CRLF <= data ==> CRLF <= data + more
    ensures |data| >= 2 && CRLF <= data + more ==> CRLF <= data
  {
    assert |data| >= 2 ==> (data + more)[..2] == data[..2];
  }

  lemma EndHasEnd(s: string)
    requires |s| >= 2
    ensures TERMINATOR <= s ==> CRLF <= s[2..]
  {
    if TERMINATOR <= s { assert s[2..][..2] == TERMINATOR[2..]; }
  }

  /** The lines scanned up to the first empty one, and whether there was one. */
  function StreamLines(data: string): (seq<string>, bool)
    decreases |data|
  {
    var (advance, line) := Scanned(data, true);
    if line.None? then ([], false)
    else if line.value == "" then ([], true)
    else
      var (lines, found) := StreamLines(data[advance..]);
      ([line.value] + lines, found)
  }

  /** The streaming parser ends the headers where the buffered one does, and reads the same lines. */
  predicate SameLines(stdout: string) {
    var end := Find(stdout, TERMINATOR);
    && (StreamLines(stdout).1 <==> end.Some?)
    && (end.Some? ==> StreamLines(stdout).0 == Lines(stdout[..end.value]))
  }

  /** The two parsers split off the same lines exactly when the output does not start with an empty one. */
  lemma StreamReadsTheSameLines(stdout: string)
    ensures SameLines(stdout) <==> !(CRLF <= stdout)
  {
    if CRLF <= stdout {
      StartsEmpty(stdout);
    } else {
      StreamAgrees(stdout);
    }
  }

  lemma StartsEmpty(stdout: string)
    requires CRLF <= stdout
    ensures StreamLines(stdout) == ([], true)
  {
    FindHere(stdout, CRLF);
  }

  lemma LeadingLines()
    ensures Lines(CRLF + "X: 1") == ["", "X: 1"]
  {
    hide Find;
    assert "" + (CRLF + "X: 1") == CRLF + "X: 1";
    LinesStep("", "X: 1");
    NoneIn("X: 1");
    assert [""] + ["X: 1"] == ["", "X: 1"];
  }

  lemma LeadingEnd(rest: string)
    requires rest == "X: 1" + (TERMINATOR + "b")
    ensures Find(CRLF + rest, TERMINATOR) == Some(6)
  {
    hide Find;
    FindSkip("X: 1", TERMINATOR + "b", TERMINATOR);
    FindHere(TERMINATOR + "b", TERMINATOR);
    assert !(TERMINATOR <= CRLF + rest) by { assert (CRLF + rest)[2] == 'X'; }
    FindAfterEnd(rest, TERMINATOR);
  }

  /** An output on which they differ: the streaming parser finds no header, the buffered one finds one. */
  lemma LeadingEmptyLineDiffers()
    ensures var stdout := CRLF + ("X: 1" + (TERMINATOR + "b"));
            && StreamLines(stdout) == ([], true)
            && Find(stdout, TERMINATOR) == Some(6)
            && Lines(stdout[..6]) == ["", "X: 1"]
  {
    hide Find, Lines, StreamLines;
    var rest := "X: 1" + (TERMINATOR + "b");
    StartsEmpty(CRLF + rest);
    LeadingEnd(rest);
    LeadingLines();
    assert (CRLF + rest)[..6] == CRLF + "X: 1";
  }

  lemma {:induction false} StreamAgrees(stdout: string)
    requires !(CRLF <= stdout)
    ensures StreamLines(stdout).1 <==> Find(stdout, TERMINATOR).Some?
    ensures Find(stdout, TERMINATOR).Some? ==>
              StreamLines(stdout).0 == Lines(stdout[..Find(stdout, TERMINATOR).value])
    decreases |stdout|
  {
    hide Find, Lines;
    var k := Find(stdout, CRLF);
    if k.None? {
      NoCrlfNoEnd(stdout);
      if stdout != "" {
        assert stdout[|stdout|..] == "";
        FindNone("", CRLF);
      }
    } else {
      var line, rest := stdout[..k.value], stdout[k.value + 2..];
      FirstCrlf(stdout, k.value);
      assert line != "";
      EndAfterLine(stdout, k.value);
      if CRLF <= rest {
        assert Scanned(rest, true) == (2, Some("")) by { FindHere(rest, CRLF); }
        NoneBefore(stdout, k.value);
      } else {
        StreamAgrees(rest);
        var end := Find(rest, TERMINATOR);
        if end.Some? {
          LinesOfBlock(stdout, k.value, end.value);
        }
      }
    }
  }

  lemma LinesOfBlock(stdout: string, k: nat, end: nat)
    requires Find(stdout, CRLF) == Some(k) && k + 2 + end <= |stdout|
    ensures Lines(stdout[..k + 2 + end]) == [stdout[..k]] + Lines(stdout[k + 2..][..end])
  {
    hide Find, Lines;
    FindInBlock(stdout, k, k + 2 + end);
    LinesAt(stdout[..k + 2 + end], k);
    CutBlock(stdout, k, end);
  }

  lemma CutBlock(s: string, k: nat, end: nat)
    requires k + 2 + end <= |s|
    ensures s[..k + 2 + end][..k] == s[..k] && s[..k + 2 + end][k + 2..] == s[k + 2..][..end]
  {}

  lemma FirstCrlf(s: string, k: nat)
    requires Find(s, CRLF) == Some(k)
    ensures k == 0 <==> CRLF <= s
  {}

  lemma {:induction false} NoCrlfNoEnd(s: string)
    requires Find(s, CRLF).None?
    ensures Find(s, TERMINATOR).None?
  {
    assert TERMINATOR <= s ==> CRLF <= s by { assert TERMINATOR[..2] == CRLF; }
    if s != "" { NoCrlfNoEnd(s[1..]); }
  }

  /** The end of the headers is at the first line ending or after it. */
  lemma {:induction false} EndAfterLine(s: string, k: nat)
    requires Find(s, CRLF) == Some(k)
    ensures Find(s, TERMINATOR) == if CRLF <= s[k + 2..] then Some(k) else Shifted(k + 2, Find(s[k + 2..], TERMINATOR))
  {
    hide Find;
    FirstCrlf(s, k);
    if k == 0 {
      assert s == CRLF + s[2..];
      if CRLF <= s[2..] {
        assert s == TERMINATOR + s[4..];
        FindHere(s, TERMINATOR);
      } else {
        EndHasEnd(s);
        FindAfterEnd(s[2..], TERMINATOR);
      }
    } else {
      NotAtFront(s, CRLF);
      EndStartsWithCrlf(s);
      NotAtFront(s, TERMINATOR);
      EndAfterLine(s[1..], k - 1);
      assert s[1..][k + 1..] == s[k + 2..];
    }
  }

  lemma EndStartsWithCrlf(s: string)
    ensures TERMINATOR <= s ==> CRLF <= s
  {
    assert TERMINATOR[..2] == CRLF;
  }

  lemma {:induction false} FindInBlock(s: string, k: nat, n: nat)
    requires Find(s, CRLF) == Some(k) && k + 2 <= n <= |s|
    ensures Find(s[..n], CRLF) == Some(k)
  {
    hide Find;
    FirstCrlf(s, k);
    PrefixStays(s[..n], s[n..]);
    assert s[..n] + s[n..] == s;
    if k == 0 {
      assert s[..n][..2] == s[..2];
      FindHere(s[..n], CRLF);
    } else {
      NotAtFront(s, CRLF);
      FindInBlock(s[1..], k - 1, n - 1);
      assert s[..n][1..] == s[1..][..n - 1];
      NotAtFront(s[..n], CRLF);
    }
  }

  lemma {:induction false} NoneBefore(s: string, k: nat)
    requires Find(s, CRLF) == Some(k)
    ensures Lines(s[..k]) == [s[..k]]
  {
    NoCrlfBefore(s, k);
  }

  lemma {:induction false} NoCrlfBefore(s: string, k: nat)
    requires Find(s, CRLF) == Some(k)
    ensures Find(s[..k], CRLF).None?
  {
    hide Find;
    FirstCrlf(s, k);
    if k == 0 {
      FindNone("", CRLF);
      assert s[..0] == "";
    } else {
      NotAtFront(s, CRLF);
      NoCrlfBefore(s[1..], k - 1);
      assert s[..k][1..] == s[1..][..k - 1];
      FrontStays(s, k);
      NotAtFront(s[..k], CRLF);
    }
  }

  lemma FrontStays(s: string, k: nat)
    requires k <= |s| && !(CRLF <= s)
    ensures !(CRLF <= s[..k])
  {
    PrefixStays(s[..k], s[k..]);
    assert s[..k] + s[k..] == s;
  }
}
