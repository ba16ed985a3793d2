/**
 The streaming parser of CGI responses (internal/php/cgi/response.go:86-153), compared with the one
 that has the whole output: status and headers, or the error. The scanner's buffer holds one line with
 its ending, and a reader reports its end by a read of its own, as a FastCGI response stream does.
 */
module CgiStream {
  import opened Common
  import opened CgiResponse

  /** An error of the parser, or bufio.ErrTooLong. */
  datatype StreamError = Refused(error: Error) | TokenTooLong

  /** A response without its body. */
  datatype Head = Head(statusCode: int, headers: Headers)

  /** The first line and its ending do not fit the scanner's buffer; without an ending it must not fill it. */
  predicate Overflows(data: string) {
    var k := Find(data, CRLF);
    if k.Some? then k.value + 2 > MAX_HEADER_BYTES else |data| >= MAX_HEADER_BYTES
  }

  /** The fields scanned up to the first empty line or the end, after `total` bytes in `count` lines. */
  function StreamFields(data: string, total: nat, count: nat): Result<seq<Field>, StreamError>
    decreases |data|
  {
    var (advance, line) := Scanned(data, true);
    if Overflows(data) then Err(TokenTooLong)
    else if line.None? || line.value == "" then Ok([])
    else if total + |line.value| + 2 > MAX_HEADER_SIZE then Err(Refused(HeaderTooLarge))
    else if count + 1 > MAX_HEADER_COUNT then Err(Refused(TooManyHeaders))
    else if HeaderLine(line.value).Err? then Err(Refused(HeaderLine(line.value).error))
    else Prefixed(HeaderLine(line.value).value, StreamFields(data[advance..], total + |line.value| + 2, count + 1))
  }

  function Prefixed(f: Field, rest: Result<seq<Field>, StreamError>): Result<seq<Field>, StreamError> {
    if rest.Err? then rest else Ok([f] + rest.value)
  }

  /** Status and headers of a result. */
  function Shown(r: Result<Response, Error>): Result<Head, StreamError> {
    match r
    case Err(e) => Err(Refused(e))
    case Ok(response) => Ok(Head(response.statusCode, response.headers))
  }

  function StreamParsed(stdout: string): Result<Head, StreamError> {
    match StreamFields(stdout, 0, 0)
    case Err(e) => Err(e)
    case Ok(fields) => Shown(Responded(fields, "", ""))
  }

  /** What the parser of the whole output answers. */
  function BufferedParsed(stdout: string): Result<Head, StreamError> {
    Shown(Parsed(stdout, ""))
  }

  method ParseResponseStream(stdout: string) returns (r: Result<Head, StreamError>)
    ensures r == StreamParsed(stdout)
  {
    hide Find, Scanned, HeaderLine, Grouped, StreamFields, StatusLine, Canonical, Add;
    var headers: Headers := map[];
    var totalBytes, lineCount, pos := 0, 0, 0;
    ghost var done: seq<Field> := [];
    StartFields(stdout);
    while true
      invariant 0 <= pos <= |stdout| && totalBytes >= 0 && lineCount >= 0 && headers == Grouped(done)
      invariant StreamFields(stdout, 0, 0) == PrefixedAll(done, StreamFields(stdout[pos..], totalBytes, lineCount))
      decreases |stdout| - pos
    {
      var data := stdout[pos..];
      StreamStep(data, totalBytes, lineCount);
      if Overflows(data) {
        return Err(TokenTooLong);
      }
      var advance, token := ScanCRLFHeaders(data, true);
      if token.None? || token.value == "" {
        break;
      }
      var line := token.value;
      totalBytes := totalBytes + |line| + 2;
      if totalBytes > MAX_HEADER_SIZE {
        return Err(Refused(HeaderTooLarge));
      }
      lineCount := lineCount + 1;
      if lineCount > MAX_HEADER_COUNT {
        return Err(Refused(TooManyHeaders));
      }
      var field := ParseHeaderLine(line);
      if field.Err? {
        return Err(Refused(field.error));
      }
      headers := CgiResponse.Add(headers, field.value);
      GroupedMore(done, field.value);
      PrefixedMore(done, field.value, StreamFields(data[advance..], totalBytes, lineCount));
      done := done + [field.value];
      pos := pos + advance;
      assert data[advance..] == stdout[pos..];
    }
    assert done + [] == done;
    var statusCode := 200;
    var statusLine := Get(headers, "Status");
    if statusLine != "" {
      var code := StatusLine(statusLine);
      if code.Err? {
        return Err(Refused(code.error));
      }
      statusCode := code.value;
      headers := headers - {Canonical("Status")};
    }
    return Ok(Head(statusCode, headers));
  }

  function PrefixedAll(done: seq<Field>, rest: Result<seq<Field>, StreamError>): Result<seq<Field>, StreamError> {
    if rest.Err? then rest else Ok(done + rest.value)
  }

  lemma PrefixedMore(done: seq<Field>, f: Field, rest: Result<seq<Field>, StreamError>)
    ensures PrefixedAll(done, Prefixed(f, rest)) == PrefixedAll(done + [f], rest)
  {
    if rest.Ok? { assert done + ([f] + rest.value) == (done + [f]) + rest.value; }
  }

  lemma StartFields(stdout: string)
    ensures stdout[0..] == stdout && Grouped([]) == map[]
    ensures PrefixedAll([], StreamFields(stdout, 0, 0)) == StreamFields(stdout, 0, 0)
  {
    hide StreamFields;
    var r := StreamFields(stdout, 0, 0);
    if r.Ok? { assert [] + r.value == r.value; }
  }

  lemma StreamStep(data: string, total: nat, count: nat)
    ensures var (advance, line) := Scanned(data, true);
            && advance <= |data| && (line.Some? && line.value != "" ==> advance > 0)
            && StreamFields(data, total, count) ==
                 if Overflows(data) then Err(TokenTooLong)
                 else if line.None? || line.value == "" then Ok([])
                 else if total + |line.value| + 2 > MAX_HEADER_SIZE then Err(Refused(HeaderTooLarge))
                 else if count + 1 > MAX_HEADER_COUNT then Err(Refused(TooManyHeaders))
                 else if HeaderLine(line.value).Err? then Err(Refused(HeaderLine(line.value).error))
                 else Prefixed(HeaderLine(line.value).value,
                            StreamFields(data[advance..], total + |line.value| + 2, count + 1))
  {
    hide Find, HeaderLine;
  }

  // ---------------------------------------------------------------------------------------------
  // One line after another
  // ---------------------------------------------------------------------------------------------

  /** The fields of these lines, each of which must fit the buffer. */
  function LimitedFields(lines: seq<string>, total: nat, count: nat): Result<seq<Field>, StreamError> {
    if lines == [] then Ok([])
    else if |lines[0]| + 2 > MAX_HEADER_BYTES then Err(TokenTooLong)
    else if total + |lines[0]| + 2 > MAX_HEADER_SIZE then Err(Refused(HeaderTooLarge))
    else if count + 1 > MAX_HEADER_COUNT then Err(Refused(TooManyHeaders))
    else if HeaderLine(lines[0]).Err? then Err(Refused(HeaderLine(lines[0]).error))
    else Prefixed(HeaderLine(lines[0]).value, LimitedFields(lines[1..], total + |lines[0]| + 2, count + 1))
  }

  /** Where an empty line ends the headers, the scanner reads them one by one. */
  lemma {:induction false} StreamIsLines(data: string, total: nat, count: nat)
    requires StreamLines(data).1
    ensures StreamFields(data, total, count) == LimitedFields(StreamLines(data).0, total, count)
    decreases |data|
  {
    hide HeaderLine, Find;
    var (advance, line) := Scanned(data, true);
    StreamStep(data, total, count);
    if line.Some? && line.value != "" {
      LastLineEnds(data);
      var rest := StreamLines(data[advance..]).0;
      assert ([line.value] + rest)[1..] == rest;
      StreamIsLines(data[advance..], total + |line.value| + 2, count + 1);
    }
  }

  lemma LastLineEnds(data: string)
    ensures StreamLines(data).1 ==> Find(data, CRLF).Some?
  {
    if Find(data, CRLF).None? && data != "" {
      assert data[|data|..] == "";
      FindNone("", CRLF);
    }
  }

  lemma {:induction false} NoneEmpty(data: string)
    ensures "" !in StreamLines(data).0
    decreases |data|
  {
    hide Find;
    var (advance, line) := Scanned(data, true);
    if line.Some? && line.value != "" { NoneEmpty(data[advance..]); }
  }

  /** A line too long for the buffer, before which every line is accepted. */
  ghost predicate LongAt(lines: seq<string>, total: nat, count: nat, i: nat) {
    i < |lines| && |lines[i]| + 2 > MAX_HEADER_BYTES && Fields(lines[..i], total, count).Ok?
  }

  function Wrapped(r: Result<seq<Field>, Error>): Result<seq<Field>, StreamError> {
    match r
    case Err(e) => Err(Refused(e))
    case Ok(fields) => Ok(fields)
  }

  lemma {:induction false} LimitedExactly(lines: seq<string>, total: nat, count: nat)
    requires "" !in lines
    ensures LimitedFields(lines, total, count) ==
              if exists i :: LongAt(lines, total, count, i) then Err(TokenTooLong)
              else Wrapped(Fields(lines, total, count))
    decreases |lines|
  {
    hide HeaderLine;
    if lines != [] {
      var line, more := lines[0], lines[1..];
      assert line in lines;
      if |line| + 2 > MAX_HEADER_BYTES {
        assert lines[..0] == [];
        assert LongAt(lines, total, count, 0);
      } else {
        var t, c := total + |line| + 2, count + 1;
        LimitedExactly(more, t, c);
        forall i: nat | LongAt(lines, total, count, i)
          ensures Accepted(line, total, count) && LongAt(more, t, c, i - 1)
        {
          FrontAccepted(lines, total, count, i);
        }
        if i: nat :| LongAt(more, t, c, i) && Accepted(line, total, count) {
          FrontAccepted(lines, total, count, i + 1);
          assert LongAt(lines, total, count, i + 1);
        }
      }
    }
  }

  predicate Accepted(line: string, total: nat, count: nat) {
    && |line| <= MAX_HEADER_BYTES && total + |line| + 2 <= MAX_HEADER_SIZE && count + 1 <= MAX_HEADER_COUNT
    && HeaderLine(line).Ok?
  }

  lemma FrontAccepted(lines: seq<string>, total: nat, count: nat, i: nat)
    requires 0 < i < |lines| && lines[0] != ""
    ensures Fields(lines[..i], total, count).Ok? <==>
              && Accepted(lines[0], total, count)
              && Fields(lines[1..][..i - 1], total + |lines[0]| + 2, count + 1).Ok?
  {
    hide HeaderLine;
    assert lines[..i][0] == lines[0] && lines[..i][1..] == lines[1..][..i - 1];
  }

  // ---------------------------------------------------------------------------------------------
  // The two parsers
  // ---------------------------------------------------------------------------------------------

  /** The lines of the header block. */
  function HeaderLines(stdout: string): seq<string>
    requires Find(stdout, TERMINATOR).Some?
  {
    Lines(stdout[..Find(stdout, TERMINATOR).value])
  }

  /** The streaming parser comes to a line its buffer cannot hold. */
  ghost predicate MeetsLong(stdout: string)
    requires Find(stdout, TERMINATOR).Some?
  {
    exists i :: LongAt(HeaderLines(stdout), 0, 0, i)
  }

  /**
   On an output with a header block the two parsers agree on status and headers, or on the error,
   exactly when the streaming one meets no line over 8190 bytes. An output that starts with an empty
   line has no headers for the streaming parser.
   */
  lemma StreamParsesTheSame(stdout: string)
    requires Find(stdout, TERMINATOR).Some?
    ensures CRLF <= stdout ==> StreamParsed(stdout) == Ok(Head(200, map[]))
    ensures !(CRLF <= stdout) ==>
              && (StreamParsed(stdout) == BufferedParsed(stdout) <==> !MeetsLong(stdout))
              && (MeetsLong(stdout) ==> StreamParsed(stdout) == Err(TokenTooLong))
  {
    hide Find, Lines, Fields, StreamLines, StreamFields, LimitedFields, Responded;
    if CRLF <= stdout {
      EmptyFirst(stdout);
    } else {
      StreamAgrees(stdout);
      StreamIsLines(stdout, 0, 0);
      NoneEmpty(stdout);
      LimitedExactly(HeaderLines(stdout), 0, 0);
      SameHead(stdout);
    }
  }

  lemma EmptyFirst(stdout: string)
    requires CRLF <= stdout
    ensures StreamParsed(stdout) == Ok(Head(200, map[]))
  {
    FindHere(stdout, CRLF);
  }

  /** Body and stderr have no part in status and headers. */
  lemma SameHead(stdout: string)
    requires Find(stdout, TERMINATOR).Some?
    ensures BufferedParsed(stdout) ==
              match Fields(HeaderLines(stdout), 0, 0)
              case Err(e) => Err(Refused(e))
              case Ok(fields) => Shown(Responded(fields, "", ""))
  {
    hide Find, Lines, Fields, Grouped, StatusLine;
  }

  /**
   An output without a header block is all body for the parser that has it whole; the streaming parser
   takes it for a header line and refuses it, or for one too long if it has at least 8192 bytes.
   */
  lemma HeaderlessIsRefused(stdout: string)
    requires stdout != "" && Find(stdout, CRLF).None? && ':' !in stdout
    ensures StreamParsed(stdout) == Err(if |stdout| < 8192 then Refused(InvalidHeader) else TokenTooLong)
    ensures BufferedParsed(stdout) == Ok(Head(200, map[]))
  {
    NoCrlfNoEnd(stdout);
    FindSkip(stdout, "", ":");
    assert stdout + "" == stdout;
    FindNone("", ":");
    StreamStep(stdout, 0, 0);
    hide Find;
  }
}
