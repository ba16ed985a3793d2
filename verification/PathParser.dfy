/**
 Parsing of request targets (internal/filesystem/path.go): one pass of percent decoding, a list of
 rejections, and a stack that collapses dot segments.

 A string holds one char per byte. unicode.IsControl is exact for bytes that are read as UTF-8: a
 control character is a byte below 0x20, 0x7F, or the pair 0xC2 followed by 0x80 to 0x9F.
 */
module PathParser {
  import opened Common

  datatype PathError =
    | InvalidPercentEncoding
    | NulInPath
    | ControlCharInPath
    | BackslashInPath
    | EncodedSlashInPath
    | DoubleEncoding

  datatype ParsedPath = ParsedPath(rawTarget: string, rawPath: string, segments: seq<string>, normalizedPath: string)

  // ---------------------------------------------------------------------------------------------
  // Characters
  // ---------------------------------------------------------------------------------------------

  function HexDigit(c: char): (d: int)
    ensures -1 <= d < 16
  {
    if '0' <= c <= '9' then c as int - '0' as int
    else if 'a' <= c <= 'f' then c as int - 'a' as int + 10
    else if 'A' <= c <= 'F' then c as int - 'A' as int + 10
    else -1
  }

  /** A control character starts here. */
  predicate ControlAt(s: string)
  {
    s != "" && (s[0] as int < 0x20 || s[0] as int == 0x7F
                || (s[0] as int == 0xC2 && |s| > 1 && 0x80 <= s[1] as int <= 0x9F))
  }

  predicate Clean(s: string) {
    forall i :: 0 <= i < |s| ==> !ControlAt(s[i..])
  }

  predicate Contains(s: string, sub: string) {
    exists i :: 0 <= i <= |s| && sub <= s[i..]
  }

  /** strings.IndexByte, with the length for "not found". */
  function Find(s: string, c: char): (i: nat)
    ensures i <= |s| && c !in s[..i] && (i < |s| ==> s[i] == c)
  {
    if s == "" || s[0] == c then 0 else
      var i := 1 + Find(s[1..], c);
      assert s[..i] == [s[0]] + s[1..][..i - 1];
      i
  }

  // ---------------------------------------------------------------------------------------------
  // Percent decoding
  // ---------------------------------------------------------------------------------------------

  /** The string starts with a valid escape. */
  predicate EscapeAt(s: string) {
    |s| >= 3 && s[0] == '%' && HexDigit(s[1]) >= 0 && HexDigit(s[2]) >= 0
  }

  function EscapedByte(s: string): (c: char)
    requires EscapeAt(s)
    ensures c as int < 256
  {
    (HexDigit(s[1]) * 16 + HexDigit(s[2])) as char
  }

  /** One pass; an escaped percent sign stays escaped. */
  function PercentDecoded(s: string): Option<string> {
    if s == "" then Some("")
    else if s[0] == '%' then
      if !EscapeAt(s) then None
      else
        match PercentDecoded(s[3..])
        case None => None
        case Some(rest) => Some((if EscapedByte(s) == '%' then "%25" else [EscapedByte(s)]) + rest)
    else
      match PercentDecoded(s[1..])
      case None => None
      case Some(rest) => Some([s[0]] + rest)
  }

  method PercentDecode(s: string) returns (r: Option<string>)
    ensures r == PercentDecoded(s)
  {
    var b, i := "", 0;
    assert s[0..] == s && forall x: string :: "" + x == x;
    while i < |s|
      invariant 0 <= i <= |s|
      invariant PercentDecoded(s) ==
                if PercentDecoded(s[i..]).None? then None else Some(b + PercentDecoded(s[i..]).value)
    {
      var before := b;
      if s[i] == '%' {
        if i + 2 >= |s| {
          return None;
        }
        var h1, h2 := HexDigit(s[i + 1]), HexDigit(s[i + 2]);
        if h1 < 0 || h2 < 0 {
          return None;
        }
        assert s[i..][3..] == s[i + 3..];
        var decodedByte := (h1 * 16 + h2) as char;
        if decodedByte == '%' {
          b := b + "%25";
        } else {
          b := b + [decodedByte];
        }
        i := i + 3;
      } else {
        assert s[i..][1..] == s[i + 1..];
        b := b + [s[i]];
        i := i + 1;
      }
      if PercentDecoded(s[i..]).Some? {
        assert forall x: string ::
          before + (x + PercentDecoded(s[i..]).value) == (before + x) + PercentDecoded(s[i..]).value;
      }
    }
    assert b + "" == b;
    return Some(b);
  }

  predicate HasEscape(s: string) {
    exists i :: 0 <= i <= |s| && EscapeAt(s[i..])
  }

  method ContainsPercentEncoding(s: string) returns (found: bool)
    ensures found == HasEscape(s)
  {
    var i := 0;
    while i < |s| - 2
      invariant 0 <= i <= |s|
      invariant forall j :: 0 <= j < i ==> !EscapeAt(s[j..])
    {
      if s[i] == '%' && HexDigit(s[i + 1]) >= 0 && HexDigit(s[i + 2]) >= 0 {
        assert EscapeAt(s[i..]);
        return true;
      }
      i := i + 1;
    }
    return false;
  }

  // ---------------------------------------------------------------------------------------------
  // Segments
  // ---------------------------------------------------------------------------------------------

  /** strings.Split(s, "/") */
  function Split(s: string): seq<string> {
    var i := Find(s, '/');
    if i == |s| then [s] else [s[..i]] + Split(s[i + 1..])
  }

  /** strings.Join(parts, "/") */
  function Join(parts: seq<string>): string {
    if parts == [] then ""
    else if |parts| == 1 then parts[0]
    else parts[0] + "/" + Join(parts[1..])
  }

  function DropLast<T>(s: seq<T>): seq<T> {
    if s == [] then [] else s[..|s| - 1]
  }

  /** The stack after these segments. */
  function Collapse(segs: seq<string>, stack: seq<string>): seq<string> {
    if segs == [] then stack
    else if segs[0] == "." || segs[0] == "" then Collapse(segs[1..], stack)
    else if segs[0] == ".." then Collapse(segs[1..], DropLast(stack))
    else Collapse(segs[1..], stack + [segs[0]])
  }

  method SplitAndCollapse(path: string) returns (result: seq<string>)
    ensures result == Collapse(Split(path), [])
  {
    result := [];
    if path == "" || path == "/" {
      assert Split("") == [""] && Split("/") == ["", ""] && ["", ""][1..] == [""];
      assert Collapse([""], []) == [];
      return;
    }
    var segments := Split(path);
    for i := 0 to |segments|
      invariant Collapse(segments, []) == Collapse(segments[i..], result)
    {
      var seg := segments[i];
      assert segments[i..][1..] == segments[i + 1..];
      if seg == "." || seg == "" {
      } else if seg == ".." {
        if |result| > 0 {
          result := result[..|result| - 1];
        }
      } else {
        result := result + [seg];
      }
    }
  }

  // ---------------------------------------------------------------------------------------------
  // The parser
  // ---------------------------------------------------------------------------------------------

  /** The first NUL or control character decides the error. */
  function FirstBad(s: string): Option<PathError> {
    if s == "" then None
    else if s[0] == '\0' then Some(NulInPath)
    else if ControlAt(s) then Some(ControlCharInPath)
    else FirstBad(s[1..])
  }

  function Parse(rawTarget: string): Result<ParsedPath, PathError> {
    var rawPath := rawTarget[..Find(rawTarget, '?')];
    if '\0' in rawPath then Err(NulInPath)
    else if !Clean(rawPath) then Err(ControlCharInPath)
    else if '\\' in rawPath then Err(BackslashInPath)
    else if Contains(rawPath, "%2f") || Contains(rawPath, "%2F") then Err(EncodedSlashInPath)
    else if Contains(rawPath, "%3f") || Contains(rawPath, "%3F") then Err(InvalidPercentEncoding)
    else if Contains(rawPath, "%5c") || Contains(rawPath, "%5C") then Err(BackslashInPath)
    else
      match PercentDecoded(rawPath)
      case None => Err(InvalidPercentEncoding)
      case Some(decoded) =>
        if HasEscape(decoded) then Err(DoubleEncoding)
        else if FirstBad(decoded).Some? then Err(FirstBad(decoded).value)
        else
          var segments := Collapse(Split(decoded), []);
          Ok(ParsedPath(rawTarget, rawPath, segments, "/" + Join(segments)))
  }

  method ParsePath(rawTarget: string) returns (r: Result<ParsedPath, PathError>)
    ensures r == Parse(rawTarget)
  {
    hide PercentDecoded, HasEscape, Collapse, Split, Contains, Clean, FirstBad, Join;
    var rawPath := rawTarget;
    var idx := Find(rawTarget, '?');
    if idx < |rawTarget| {
      rawPath := rawTarget[..idx];
    }
    assert rawPath == rawTarget[..idx];
    if '\0' in rawPath {
      return Err(NulInPath);
    }
    var clean := IsClean(rawPath);
    if !clean {
      return Err(ControlCharInPath);
    }
    if '\\' in rawPath {
      return Err(BackslashInPath);
    }
    if Contains(rawPath, "%2f") || Contains(rawPath, "%2F") {
      return Err(EncodedSlashInPath);
    }
    if Contains(rawPath, "%3f") || Contains(rawPath, "%3F") {
      return Err(InvalidPercentEncoding);
    }
    if Contains(rawPath, "%5c") || Contains(rawPath, "%5C") {
      return Err(BackslashInPath);
    }
    var decoded := PercentDecode(rawPath);
    if decoded.None? {
      return Err(InvalidPercentEncoding);
    }
    var doubled := ContainsPercentEncoding(decoded.value);
    if doubled {
      return Err(DoubleEncoding);
    }
    var bad := Inspect(decoded.value);
    if bad.Some? {
      return Err(bad.value);
    }
    var segments := SplitAndCollapse(decoded.value);
    return Ok(ParsedPath(rawTarget, rawPath, segments, "/" + Join(segments)));
  }

  /** The loop over the raw path. */
  method IsClean(s: string) returns (clean: bool)
    ensures clean == Clean(s)
  {
    for i := 0 to |s|
      invariant forall j :: 0 <= j < i ==> !ControlAt(s[j..])
    {
      if ControlAt(s[i..]) {
        return false;
      }
    }
    return true;
  }

  /** The loop over the decoded path. */
  method Inspect(s: string) returns (bad: Option<PathError>)
    ensures bad == FirstBad(s)
  {
    for i := 0 to |s|
      invariant FirstBad(s) == FirstBad(s[i..])
    {
      assert s[i..][1..] == s[i + 1..];
      if s[i] == '\0' {
        return Some(NulInPath);
      }
      if ControlAt(s[i..]) {
        return Some(ControlCharInPath);
      }
    }
    return None;
  }

  // ---------------------------------------------------------------------------------------------
  // Which targets are accepted
  // ---------------------------------------------------------------------------------------------

  /** Percent decoding as RFC 3986, section 2.1, has it: every escape stands for its byte. */
  function Unescaped(s: string): Option<string> {
    if s == "" then Some("")
    else if s[0] == '%' then
      if !EscapeAt(s) then None
      else
        match Unescaped(s[3..])
        case None => None
        case Some(rest) => Some([EscapedByte(s)] + rest)
    else
      match Unescaped(s[1..])
      case None => None
      case Some(rest) => Some([s[0]] + rest)
  }

  /** Some escape in the string stands for this byte. */
  predicate Escapes(s: string, c: char) {
    exists i :: 0 <= i <= |s| && EscapeAt(s[i..]) && EscapedByte(s[i..]) == c
  }

  lemma EscapesLater(s: string, n: nat, c: char)
    requires n <= |s| && Escapes(s[n..], c)
    ensures Escapes(s, c)
  {
    var i :| 0 <= i <= |s[n..]| && EscapeAt(s[n..][i..]) && EscapedByte(s[n..][i..]) == c;
    assert s[n..][i..] == s[n + i..];
  }

  /** In a decodable string the escapes are those met on the way. */
  lemma EscapesFront(s: string, c: char)
    requires s != "" && (s[0] == '%' ==> EscapeAt(s))
    ensures Escapes(s, c) <==>
              if s[0] == '%' then EscapedByte(s) == c || Escapes(s[3..], c) else Escapes(s[1..], c)
  {
    if Escapes(s, c) {
      var i :| 0 <= i <= |s| && EscapeAt(s[i..]) && EscapedByte(s[i..]) == c;
      assert s[i..][0] == s[i];
      if s[0] != '%' {
        assert s[1..][i - 1..] == s[i..];
      } else if i > 0 {
        assert i != 1 && i != 2;
        assert s[3..][i - 3..] == s[i..];
      }
    }
    if s[0] == '%' {
      assert s[0..] == s;
      if Escapes(s[3..], c) { EscapesLater(s, 3, c); }
    } else if Escapes(s[1..], c) {
      EscapesLater(s, 1, c);
    }
  }

  /** An escaped percent sign survives as an escape; nothing else puts a percent sign in the result. */
  lemma {:induction false} PercentStays(s: string)
    requires PercentDecoded(s).Some?
    ensures Unescaped(s).Some?
    ensures var d := PercentDecoded(s).value;
            if Escapes(s, '%') then HasEscape(d) else '%' !in d && Unescaped(s) == Some(d)
    decreases |s|
  {
    if s != "" {
      EscapesFront(s, '%');
      var n := if s[0] == '%' then 3 else 1;
      PercentStays(s[n..]);
      var rest := PercentDecoded(s[n..]).value;
      hide HexDigit, EscapedByte, Escapes, HasEscape;
      EscapeBehind(if n == 3 && EscapedByte(s) != '%' then EscapedByte(s) else s[0], rest);
      EscapedPercent(rest);
    }
  }

  lemma EscapedPercent(rest: string)
    ensures HasEscape("%25" + rest)
  {
    assert EscapeAt(("%25" + rest)[0..]);
  }

  lemma EscapeBehind(c: char, rest: string)
    ensures HasEscape(rest) ==> HasEscape([c] + rest)
  {
    if HasEscape(rest) {
      hide EscapeAt;
      var i :| 0 <= i <= |rest| && EscapeAt(rest[i..]);
      assert ([c] + rest)[i + 1..] == rest[i..];
    }
  }

  lemma {:induction false} DecodesWhenUnescapes(s: string)
    ensures Unescaped(s).Some? <==> PercentDecoded(s).Some?
    decreases |s|
  {
    if s != "" {
      if s[0] == '%' { if |s| >= 3 { DecodesWhenUnescapes(s[3..]); } } else { DecodesWhenUnescapes(s[1..]); }
    }
  }

  lemma {:induction false} FirstBadIsClean(s: string)
    ensures FirstBad(s).None? <==> Clean(s)
    decreases |s|
  {
    if s != "" {
      FirstBadIsClean(s[1..]);
      assert s[0..] == s;
      if Clean(s[1..]) && !ControlAt(s) {
        forall i | 0 <= i < |s| ensures !ControlAt(s[i..]) {
          if i > 0 { assert s[1..][i - 1..] == s[i..]; }
        }
      }
      if Clean(s) {
        forall i | 0 <= i < |s[1..]| ensures !ControlAt(s[1..][i..]) { assert s[1..][i..] == s[i + 1..]; }
      }
    }
  }

  /** An escape is its first three characters. */
  lemma EscapePrefix(t: string, s: string)
    requires |t| == 3 && t <= s
    ensures EscapeAt(t) <==> EscapeAt(s)
    ensures EscapeAt(t) ==> EscapedByte(t) == EscapedByte(s)
  {}

  lemma SpellingEscapes(s: string, t: string, c: char)
    requires |t| == 3 && EscapeAt(t) && EscapedByte(t) == c && Contains(s, t)
    ensures Escapes(s, c)
  {
    var i :| 0 <= i <= |s| && t <= s[i..];
    EscapePrefix(t, s[i..]);
    assert EscapeAt(s[i..]) && EscapedByte(s[i..]) == c;
  }

  /** Two spellings of an escape, and the byte they stand for. */
  lemma Spelled(s: string, c: char, lower: string, upper: string)
    requires |lower| == |upper| == 3 && EscapeAt(lower) && EscapeAt(upper)
    requires EscapedByte(lower) == EscapedByte(upper) == c
    requires forall t: string :: |t| == 3 && EscapeAt(t) && EscapedByte(t) == c ==> t == lower || t == upper
    ensures Escapes(s, c) <==> Contains(s, lower) || Contains(s, upper)
  {
    hide EscapedByte, HexDigit;
    if Escapes(s, c) {
      var i :| 0 <= i <= |s| && EscapeAt(s[i..]) && EscapedByte(s[i..]) == c;
      var t := s[i..][..3];
      EscapePrefix(t, s[i..]);
      assert t <= s[i..];
    }
    if Contains(s, lower) { SpellingEscapes(s, lower, c); }
    if Contains(s, upper) { SpellingEscapes(s, upper, c); }
  }

  lemma SpelledSlash(s: string)
    ensures Escapes(s, '/') <==> Contains(s, "%2f") || Contains(s, "%2F")
  {
    Spelled(s, '/', "%2f", "%2F");
  }

  lemma SpelledQuestion(s: string)
    ensures Escapes(s, '?') <==> Contains(s, "%3f") || Contains(s, "%3F")
  {
    Spelled(s, '?', "%3f", "%3F");
  }

  lemma SpelledBackslash(s: string)
    ensures Escapes(s, '\\') <==> Contains(s, "%5c") || Contains(s, "%5C")
  {
    Spelled(s, '\\', "%5c", "%5C");
  }

  /** The path part decodes, hides no delimiter behind an escape, and holds no control character. */
  ghost predicate Acceptable(path: string) {
    && Clean(path) && '\\' !in path
    && !Escapes(path, '/') && !Escapes(path, '?') && !Escapes(path, '\\') && !Escapes(path, '%')
    && Unescaped(path).Some? && Clean(Unescaped(path).value)
  }

  /** A target is accepted exactly when its path is acceptable, and is then decoded as RFC 3986 says. */
  lemma AcceptedExactly(rawTarget: string)
    ensures var path := rawTarget[..Find(rawTarget, '?')];
            && (Parse(rawTarget).Ok? <==> Acceptable(path))
            && (Acceptable(path) ==> Parse(rawTarget).value.segments == Collapse(Split(Unescaped(path).value), []))
  {
    hide Contains, Escapes, Split, Collapse, Unescaped, PercentDecoded, Clean, Join;
    var path := rawTarget[..Find(rawTarget, '?')];
    SpelledSlash(path);
    SpelledQuestion(path);
    SpelledBackslash(path);
    DecodesWhenUnescapes(path);
    if Clean(path) { NulIsControl(path); }
    if PercentDecoded(path).Some? {
      PercentStays(path);
      FirstBadIsClean(PercentDecoded(path).value);
      if '%' !in PercentDecoded(path).value { NoPercentNoEscape(PercentDecoded(path).value); }
    }
  }

  lemma NulIsControl(s: string)
    requires Clean(s)
    ensures '\0' !in s
  {
    forall i | 0 <= i < |s| ensures s[i] != '\0' { assert !ControlAt(s[i..]); }
  }

  lemma NoPercentNoEscape(s: string)
    requires '%' !in s
    ensures !HasEscape(s)
  {
    forall i | 0 <= i <= |s| ensures !EscapeAt(s[i..]) {
      if i < |s| { assert s[i..][0] == s[i]; }
    }
  }

  // ---------------------------------------------------------------------------------------------
  // The normal form
  // ---------------------------------------------------------------------------------------------

  predicate GoodSegment(seg: string) {
    seg != "" && seg != "." && seg != ".." && '/' !in seg
  }

  /** A path that needs no further treatment. */
  ghost predicate Canonical(path: string) {
    && '%' !in path && '?' !in path && '\\' !in path && Clean(path)
    && path != "" && path[0] == '/'
    && (path != "/" ==> forall seg :: seg in Split(path[1..]) ==> GoodSegment(seg))
  }

  lemma CleanPart(s: string, i: nat, j: nat)
    requires Clean(s) && i <= j <= |s|
    ensures Clean(s[i..j])
  {
    forall k | 0 <= k < j - i ensures !ControlAt(s[i..j][k..]) {
      assert s[i..j][k..] <= s[i + k..];
      assert !ControlAt(s[i + k..]);
    }
  }

  lemma CleanAroundSlash(a: string, b: string)
    requires Clean(a) && Clean(b)
    ensures Clean(a + "/" + b)
  {
    var s := a + "/" + b;
    forall i | 0 <= i < |s| ensures !ControlAt(s[i..]) {
      if i < |a| {
        assert !ControlAt(a[i..]);
        assert i + 1 < |a| ==> s[i..][1] == a[i..][1];
        assert i + 1 == |a| ==> s[i..][1] == '/';
        assert s[i..][0] == a[i..][0];
      } else if i > |a| {
        assert s[i..] == b[i - |a| - 1..];
      }
    }
  }

  /** Segments of a clean string hold no slash, no new character and no control character. */
  lemma {:induction false} SplitParts(s: string, seg: string)
    requires seg in Split(s)
    ensures '/' !in seg
    ensures forall c :: c in seg ==> c in s
    ensures Clean(s) ==> Clean(seg)
    decreases |s|
  {
    var i := Find(s, '/');
    if i == |s| {
      assert seg == s && s == s[..i];
    } else if seg == s[..i] {
      if Clean(s) { CleanPart(s, 0, i); }
    } else {
      assert seg in Split(s[i + 1..]);
      if Clean(s) { CleanPart(s, i + 1, |s|); assert s[i + 1..|s|] == s[i + 1..]; }
      SplitParts(s[i + 1..], seg);
    }
  }

  /** The stack holds nothing but good segments of the path. */
  lemma {:induction false} CollapseKeeps(segs: seq<string>, stack: seq<string>, seg: string)
    requires seg in Collapse(segs, stack)
    ensures seg in stack || (seg in segs && seg != "" && seg != "." && seg != "..")
  {
    if segs != [] {
      if segs[0] == "." || segs[0] == "" {
        CollapseKeeps(segs[1..], stack, seg);
      } else if segs[0] == ".." {
        CollapseKeeps(segs[1..], DropLast(stack), seg);
      } else {
        CollapseKeeps(segs[1..], stack + [segs[0]], seg);
      }
    }
  }

  lemma {:induction false} CollapseGood(segs: seq<string>, stack: seq<string>)
    requires forall seg :: seg in segs ==> GoodSegment(seg)
    ensures Collapse(segs, stack) == stack + segs
  {
    if segs == [] {
      assert stack + segs == stack;
    } else {
      assert segs[0] in segs;
      CollapseGood(segs[1..], stack + [segs[0]]);
      assert stack + [segs[0]] + segs[1..] == stack + segs;
    }
  }

  lemma FindIs(s: string, c: char, i: nat)
    requires i <= |s| && c !in s[..i] && (i < |s| ==> s[i] == c)
    ensures Find(s, c) == i
  {}

  lemma {:induction false} SplitJoin(parts: seq<string>)
    requires parts != [] && forall p :: p in parts ==> '/' !in p
    ensures Split(Join(parts)) == parts
  {
    var s, p := Join(parts), parts[0];
    assert p in parts;
    if |parts| == 1 {
      assert s[..|s|] == s;
      FindIs(s, '/', |s|);
      assert parts == [p];
    } else {
      hide Split;
      assert s == p + "/" + Join(parts[1..]) && parts == [p] + parts[1..];
      SplitJoin(parts[1..]);
      SplitStep(p, Join(parts[1..]));
    }
  }

  /** Joining clean segments with slashes adds nothing but slashes. */
  lemma {:induction false} JoinParts(parts: seq<string>, c: char)
    requires c != '/' && forall p :: p in parts ==> c !in p && Clean(p)
    ensures c !in Join(parts) && Clean(Join(parts))
  {
    if |parts| == 1 {
      assert parts[0] in parts;
    } else if parts != [] {
      assert parts[0] in parts;
      JoinParts(parts[1..], c);
      CleanAroundSlash(parts[0], Join(parts[1..]));
    }
  }

  lemma {:induction false} UnescapedChars(s: string, c: char)
    requires Unescaped(s).Some? && c in Unescaped(s).value
    ensures (c in s && c != '%') || Escapes(s, c)
    decreases |s|
  {
    if s != "" {
      EscapesFront(s, c);
      var n := if s[0] == '%' then 3 else 1;
      var rest := Unescaped(s[n..]).value;
      if c in rest {
        UnescapedChars(s[n..], c);
      }
    }
  }

  lemma {:induction false} PlainStays(s: string)
    requires '%' !in s
    ensures Unescaped(s) == Some(s)
  {
    if s != "" {
      PlainStays(s[1..]);
      assert [s[0]] + s[1..] == s;
    }
  }

  lemma NoPercentNoEscapes(s: string, c: char)
    requires '%' !in s
    ensures !Escapes(s, c)
  {
    NoPercentNoEscape(s);
  }

  /** A path made of good, clean segments is canonical and parses to itself. */
  lemma JoinedIsCanonical(segs: seq<string>)
    requires forall seg :: seg in segs ==> GoodSegment(seg) && Clean(seg) && '%' !in seg && '?' !in seg && '\\' !in seg
    ensures var path := "/" + Join(segs);
            && Canonical(path)
            && Parse(path) == Ok(ParsedPath(path, path, segs, path))
  {
    hide Clean, GoodSegment, Join, Split, Collapse, Parse;
    var path := "/" + Join(segs);
    JoinedIsPlain(segs);
    ParsedWhole(path);
    ParsedJoins(path);
    CollapsedJoin(segs);
    assert path[1..] == Join(segs);
  }

  lemma JoinedIsPlain(segs: seq<string>)
    requires forall seg :: seg in segs ==> Clean(seg) && '%' !in seg && '?' !in seg && '\\' !in seg
    ensures var path := "/" + Join(segs); Clean(path) && '%' !in path && '?' !in path && '\\' !in path
  {
    hide Clean, Join;
    JoinParts(segs, '%');
    JoinParts(segs, '?');
    JoinParts(segs, '\\');
    CleanEmpty();
    CleanAroundSlash("", Join(segs));
    assert "" + "/" + Join(segs) == "/" + Join(segs);
  }

  /** A path that needs no decoding and ends no earlier. */
  lemma ParsedWhole(path: string)
    requires Clean(path) && '%' !in path && '?' !in path && '\\' !in path
    ensures Parse(path).Ok? && Parse(path).value.rawTarget == Parse(path).value.rawPath == path
    ensures Parse(path).value.segments == Collapse(Split(path), [])
  {
    hide Unescaped, Escapes, Collapse, Clean, Split, Parse;
    assert path[..|path|] == path;
    FindIs(path, '?', |path|);
    PlainStays(path);
    NoPercentNoEscapes(path, '/');
    NoPercentNoEscapes(path, '?');
    NoPercentNoEscapes(path, '\\');
    NoPercentNoEscapes(path, '%');
    AcceptedExactly(path);
    ParsedRaw(path);
  }

  lemma ParsedRaw(rawTarget: string)
    requires Parse(rawTarget).Ok?
    ensures Parse(rawTarget).value.rawTarget == rawTarget
    ensures Parse(rawTarget).value.rawPath == rawTarget[..Find(rawTarget, '?')]
  {}

  lemma CleanEmpty()
    ensures Clean("")
  {}

  lemma CollapsedJoin(segs: seq<string>)
    requires forall seg :: seg in segs ==> GoodSegment(seg)
    ensures Collapse(Split("/" + Join(segs)), []) == segs
    ensures segs != [] ==> Split(Join(segs)) == segs
    ensures segs == [] ==> Join(segs) == ""
  {
    var path := "/" + Join(segs);
    FindIs(path, '/', 0);
    assert path[..0] == "" && path[0 + 1..] == Join(segs);
    assert ([""] + Split(Join(segs)))[1..] == Split(Join(segs));
    if segs == [] {
      assert Split("") == [""] && Collapse([""], []) == [];
    } else {
      SplitJoin(segs);
      CollapseGood(segs, []);
      assert [] + segs == segs;
    }
  }

  /** Every accepted target is brought into canonical form, and parsing that form changes nothing. */
  lemma NormalForm(rawTarget: string)
    requires Parse(rawTarget).Ok?
    ensures var pp := Parse(rawTarget).value; var path := pp.normalizedPath;
            && Canonical(path)
            && Parse(path) == Ok(ParsedPath(path, path, pp.segments, path))
  {
    hide Unescaped, Collapse, Split, Join, Parse, Escapes, Clean;
    AcceptedExactly(rawTarget);
    var path := rawTarget[..Find(rawTarget, '?')];
    var d, segs := Unescaped(path).value, Parse(rawTarget).value.segments;
    forall seg | seg in segs
      ensures GoodSegment(seg) && Clean(seg) && '%' !in seg && '?' !in seg && '\\' !in seg
    {
      CollapseKeeps(Split(d), [], seg);
      SplitParts(d, seg);
      if '%' in seg { UnescapedChars(path, '%'); }
      if '?' in seg { UnescapedChars(path, '?'); }
      if '\\' in seg { UnescapedChars(path, '\\'); }
    }
    JoinedIsCanonical(segs);
    ParsedJoins(rawTarget);
  }

  lemma ParsedJoins(rawTarget: string)
    requires Parse(rawTarget).Ok?
    ensures Parse(rawTarget).value.normalizedPath == "/" + Join(Parse(rawTarget).value.segments)
  {}

  // ---------------------------------------------------------------------------------------------
  // RFC 3986, section 5.2.4
  // ---------------------------------------------------------------------------------------------

  /** Remove the last segment and the slash before it, if any. */
  function DropSegment(out: string): string {
    if out == "" then ""
    else if out[|out| - 1] == '/' then out[..|out| - 1]
    else DropSegment(out[..|out| - 1])
  }

  /** The remove_dot_segments routine, rule by rule, on its input and output buffers. */
  function RemoveDotSegments(input: string, out: string): string
    decreases |input|
  {
    if input == "" then out
    else if "../" <= input then RemoveDotSegments(input[3..], out)
    else if "./" <= input then RemoveDotSegments(input[2..], out)
    else if "/./" <= input then RemoveDotSegments(input[2..], out)
    else if input == "/." then RemoveDotSegments("/", out)
    else if "/../" <= input then RemoveDotSegments(input[3..], DropSegment(out))
    else if input == "/.." then RemoveDotSegments("/", DropSegment(out))
    else if input == "." || input == ".." then out
    else
      var n := 1 + Find(input[1..], '/');
      RemoveDotSegments(input[n..], out + input[..n])
  }

  /** Runs of slashes become one. */
  function MergeSlashes(s: string): string {
    if |s| < 2 then s
    else if s[0] == '/' && s[1] == '/' then MergeSlashes(s[1..])
    else [s[0]] + MergeSlashes(s[1..])
  }

  function WithoutTrailingSlash(s: string): string {
    if |s| > 1 && s[|s| - 1] == '/' then s[..|s| - 1] else s
  }

  /** Each segment behind a slash. */
  function Rendered(segs: seq<string>): string {
    if segs == [] then "" else "/" + segs[0] + Rendered(segs[1..])
  }

  predicate NoSlashes(segs: seq<string>) {
    forall seg :: seg in segs ==> '/' !in seg
  }

  predicate Plain(segs: seq<string>) {
    forall seg :: seg in segs ==> seg != "" && '/' !in seg
  }

  lemma {:induction false} RenderedSnoc(segs: seq<string>, seg: string)
    ensures Rendered(segs + [seg]) == Rendered(segs) + "/" + seg
  {
    if segs == [] {
      assert Rendered([seg]) == "/" + seg + Rendered([seg][1..]);
    } else {
      RenderedSnoc(segs[1..], seg);
      assert (segs + [seg])[1..] == segs[1..] + [seg];
    }
  }

  lemma {:induction false} DropSegmentTail(out: string, seg: string)
    requires '/' !in seg
    ensures DropSegment(out + "/" + seg) == out
    decreases |seg|
  {
    var s := out + "/" + seg;
    if seg != "" {
      DropSegmentTail(out, seg[..|seg| - 1]);
      assert s[..|s| - 1] == out + "/" + seg[..|seg| - 1];
    } else {
      assert s[..|s| - 1] == out;
    }
  }

  lemma DropRendered(stack: seq<string>)
    requires NoSlashes(stack)
    ensures DropSegment(Rendered(stack)) == Rendered(DropLast(stack))
  {
    if stack != [] {
      var rest, last := stack[..|stack| - 1], stack[|stack| - 1];
      assert last in stack && stack == rest + [last];
      RenderedSnoc(rest, last);
      DropSegmentTail(Rendered(rest), last);
    }
  }

  predicate Dotted(seg: string) {
    seg == "." || seg == ".."
  }

  /** What is left after the last segment decides whether the result ends in a slash. */
  function EndsOpen(segs: seq<string>, tail: string): bool {
    tail == "/" || (segs != [] && Dotted(segs[|segs| - 1]))
  }

  lemma OneDot(rest: string, out: string)
    requires rest == "" || rest[0] == '/'
    ensures RemoveDotSegments("/." + rest, out) == RemoveDotSegments(if rest == "" then "/" else rest, out)
  {
    var input := "/." + rest;
    assert input[0] == '/' && input[1] == '.';
    assert !("../" <= input) && !("./" <= input);
    if rest == "" {
      assert input == "/.";
    } else {
      assert input[..3] == "/./" && input[2..] == rest;
    }
  }

  lemma TwoDots(rest: string, out: string)
    requires rest == "" || rest[0] == '/'
    ensures RemoveDotSegments("/.." + rest, out)
         == RemoveDotSegments(if rest == "" then "/" else rest, DropSegment(out))
  {
    var input := "/.." + rest;
    assert input[0] == '/' && input[2] == '.';
    assert !("../" <= input) && !("./" <= input) && !("/./" <= input) && input != "/.";
    if rest == "" {
      assert input == "/..";
    } else {
      assert input[..4] == "/../" && input[3..] == rest;
    }
  }

  lemma OtherSegment(seg: string, rest: string, out: string)
    requires '/' !in seg && (rest == "" || rest[0] == '/') && !Dotted(seg)
    ensures RemoveDotSegments("/" + seg + rest, out) == RemoveDotSegments(rest, out + "/" + seg)
  {
    hide RemoveDotSegments;
    NotDots(seg, rest);
    FirstSegment(seg, rest);
    MoveSegment("/" + seg + rest, out, 1 + |seg|);
    assert out + ("/" + seg) == out + "/" + seg;
  }

  /** The last rule of the routine. */
  lemma MoveSegment(input: string, out: string, n: nat)
    requires input != "" && n == 1 + Find(input[1..], '/')
    requires !("../" <= input) && !("./" <= input) && input != "." && input != ".."
    requires !("/./" <= input) && input != "/." && !("/../" <= input) && input != "/.."
    ensures RemoveDotSegments(input, out) == RemoveDotSegments(input[n..], out + input[..n])
  {}

  /** One round of the routine on "/seg" followed by `rest`. */
  lemma OneSegment(seg: string, rest: string, out: string)
    requires '/' !in seg && (rest == "" || rest[0] == '/')
    ensures RemoveDotSegments("/" + seg + rest, out) ==
              if seg == "." then RemoveDotSegments(if rest == "" then "/" else rest, out)
              else if seg == ".." then RemoveDotSegments(if rest == "" then "/" else rest, DropSegment(out))
              else RemoveDotSegments(rest, out + "/" + seg)
  {
    hide RemoveDotSegments;
    if seg == "." {
      OneDot(rest, out);
      assert "/" + seg + rest == "/." + rest;
    } else if seg == ".." {
      TwoDots(rest, out);
      assert "/" + seg + rest == "/.." + rest;
    } else {
      OtherSegment(seg, rest, out);
    }
  }

  lemma NotDots(seg: string, rest: string)
    requires '/' !in seg && (rest == "" || rest[0] == '/') && !Dotted(seg)
    ensures var input := "/" + seg + rest;
            && !("../" <= input) && !("./" <= input) && input != "." && input != ".."
            && !("/./" <= input) && input != "/." && !("/../" <= input) && input != "/.."
  {
    var input := "/" + seg + rest;
    assert input[0] == '/';
    assert |seg| >= 1 ==> input[1] == seg[0];
    assert |seg| == 0 ==> input == "/" + rest;
    assert input[1..1 + |seg|] == seg;
    assert |seg| >= 2 ==> input[2] == seg[1];
    assert |seg| >= 3 ==> input[3] == seg[2];
  }

  lemma SlashOnly(out: string)
    ensures RemoveDotSegments("/", out) == out + "/"
  {
    OtherSegment("", "", out);
    assert "/" + "" + "" == "/" && out + "/" + "" == out + "/";
  }

  lemma CollapseStep(seg: string, segs: seq<string>, stack: seq<string>)
    ensures Collapse([seg] + segs, stack) ==
              if seg == "." || seg == "" then Collapse(segs, stack)
              else if seg == ".." then Collapse(segs, DropLast(stack))
              else Collapse(segs, stack + [seg])
  {
    assert ([seg] + segs)[1..] == segs;
  }

  lemma RenderedFront(seg: string, segs: seq<string>)
    ensures Rendered([seg] + segs) == "/" + seg + Rendered(segs)
  {
    assert ([seg] + segs)[1..] == segs;
  }

  /** Where nothing is left. */
  lemma Empties(stack: seq<string>, out: string)
    ensures Rendered([]) == "" && Collapse([], stack) == stack && RemoveDotSegments("", out) == out
  {}

  lemma RenderedStarts(segs: seq<string>, tail: string)
    requires tail in {"", "/"}
    ensures var s := Rendered(segs) + tail; (s == "" || s[0] == '/') && (s == "" <==> segs == [] && tail == "")
  {}

  lemma {:induction false} RoutineIsStack(segs: seq<string>, tail: string, stack: seq<string>)
    requires Plain(segs) && Plain(stack) && tail in {"", "/"}
    ensures RemoveDotSegments(Rendered(segs) + tail, Rendered(stack))
         == Rendered(Collapse(segs, stack)) + (if EndsOpen(segs, tail) then "/" else "")
  {
    hide RemoveDotSegments, Collapse, Rendered, DropSegment;
    var out := Rendered(stack);
    if segs == [] {
      Empties(stack, out);
      assert "" + tail == tail && out + "" == out;
      SlashOnly(out);
    } else {
      var seg, more := segs[0], segs[1..];
      var rest := Rendered(more) + tail;
      assert segs == [seg] + more && seg in segs;
      RenderedFront(seg, more);
      assert ("/" + seg + Rendered(more)) + tail == "/" + seg + rest;
      RenderedStarts(more, tail);
      OneSegment(seg, rest, out);
      DropRendered(stack);
      RenderedSnoc(stack, seg);
      CollapseStep(seg, more, stack);
      var next := if seg == "." then stack else if seg == ".." then DropLast(stack) else stack + [seg];
      if rest == "" {
        Empties(next, Rendered(next));
        SlashOnly(Rendered(next));
        assert Rendered(next) + "" == Rendered(next);
      } else {
        assert EndsOpen(segs, tail) == EndsOpen(more, tail);
        forall s | s in more || s in next ensures s != "" && '/' !in s { assert s in segs || s in stack; }
        RoutineIsStack(more, tail, next);
      }
    }
  }

  function NonEmpty(segs: seq<string>): seq<string> {
    if segs == [] then []
    else if segs[0] == "" then NonEmpty(segs[1..])
    else [segs[0]] + NonEmpty(segs[1..])
  }

  lemma {:induction false} CollapseSkipsEmpty(segs: seq<string>, stack: seq<string>)
    ensures Collapse(segs, stack) == Collapse(NonEmpty(segs), stack)
  {
    if segs != [] {
      if segs[0] == "" {
        CollapseSkipsEmpty(segs[1..], stack);
      } else {
        var more := NonEmpty(segs[1..]);
        assert ([segs[0]] + more)[1..] == more;
        CollapseSkipsEmpty(segs[1..], stack);
        CollapseSkipsEmpty(segs[1..], DropLast(stack));
        CollapseSkipsEmpty(segs[1..], stack + [segs[0]]);
      }
    }
  }

  lemma {:induction false} MergeSegment(a: string, t: string)
    requires a != "" && '/' !in a && (t == "" || t[0] == '/')
    ensures MergeSlashes(a + t) == a + MergeSlashes(t)
  {
    var s := a + t;
    assert s[1..] == a[1..] + t && s[0] == a[0] != '/';
    if t == "" && |a| == 1 {
      assert s == a && a + "" == a;
    } else {
      MergeStep(s);
      hide MergeSlashes;
      if |a| > 1 { MergeSegment(a[1..], t); } else { assert a[1..] + t == t && a == [a[0]]; }
      assert a == [a[0]] + a[1..];
      assert [a[0]] + (a[1..] + MergeSlashes(t)) == ([a[0]] + a[1..]) + MergeSlashes(t);
    }
  }

  function TailOf(path: string): string {
    if path == "" || path[|path| - 1] == '/' then "/" else ""
  }

  lemma NonEmptyFront(a: string, parts: seq<string>)
    ensures NonEmpty([a] + parts) == if a == "" then NonEmpty(parts) else [a] + NonEmpty(parts)
  {
    assert ([a] + parts)[1..] == parts;
  }

  lemma MergeStep(s: string)
    requires |s| >= 2 && !(s[0] == '/' && s[1] == '/')
    ensures MergeSlashes(s) == [s[0]] + MergeSlashes(s[1..])
  {}

  lemma MergeFront(a: string, t: string)
    requires '/' !in a && t != "" && t[0] == '/'
    ensures MergeSlashes("/" + (a + t)) == if a == "" then MergeSlashes(t) else "/" + a + MergeSlashes(t)
  {
    var s := "/" + (a + t);
    assert s[0] == '/' && s[1..] == a + t;
    if a == "" {
      assert a + t == t && s[1] == '/';
    } else {
      assert s[1] == a[0];
      MergeStep(s);
      hide MergeSlashes;
      MergeSegment(a, t);
      assert "/" + (a + MergeSlashes(t)) == "/" + a + MergeSlashes(t);
    }
  }

  /** Merging slashes leaves the non-empty segments, each behind one slash, and a trailing one. */
  lemma {:induction false} MergedIsRendered(path: string)
    ensures MergeSlashes("/" + path) == Rendered(NonEmpty(Split(path))) + TailOf(path)
    decreases |path|
  {
    hide MergeSlashes, Split, NonEmpty, Rendered;
    var i := Find(path, '/');
    if i == |path| {
      MergedSegment(path);
    } else {
      var a, more := path[..i], path[i + 1..];
      MergedIsRendered(more);
      MergedOneMore(a, more);
      assert path == a + "/" + more;
    }
  }

  lemma MergedOneMore(a: string, more: string)
    requires '/' !in a && MergeSlashes("/" + more) == Rendered(NonEmpty(Split(more))) + TailOf(more)
    ensures MergeSlashes("/" + (a + "/" + more)) == Rendered(NonEmpty(Split(a + "/" + more))) + TailOf(a + "/" + more)
  {
    hide MergeSlashes, Split, NonEmpty, Rendered;
    assert a + "/" + more == a + ("/" + more);
    MergeFront(a, "/" + more);
    SplitStep(a, more);
    NonEmptyFront(a, Split(more));
    RenderedFront(a, NonEmpty(Split(more)));
    assert TailOf(a + "/" + more) == TailOf(more);
  }

  lemma MergedSegment(path: string)
    requires '/' !in path
    ensures MergeSlashes("/" + path) == Rendered(NonEmpty(Split(path))) + TailOf(path)
  {
    FindIs(path, '/', |path|);
    NonEmptyFront(path, []);
    assert [path] + [] == [path];
    if path != "" {
      MergeSegment(path, "");
      assert path + "" == path;
      assert ("/" + path)[1..] == path;
      RenderedFront(path, []);
    }
  }

  lemma {:induction false} NonEmptyIsPlain(path: string)
    ensures Plain(NonEmpty(Split(path)))
  {
    forall seg | seg in NonEmpty(Split(path)) ensures seg != "" && '/' !in seg {
      InNonEmpty(Split(path), seg);
      SplitParts(path, seg);
    }
  }

  lemma {:induction false} InNonEmpty(segs: seq<string>, seg: string)
    requires seg in NonEmpty(segs)
    ensures seg in segs && seg != ""
  {
    if segs[0] == "" || seg != segs[0] {
      InNonEmpty(segs[1..], seg);
    }
  }

  lemma {:induction false} RenderedIsJoined(segs: seq<string>)
    requires segs != []
    ensures Rendered(segs) == "/" + Join(segs)
  {
    if |segs| > 1 {
      RenderedIsJoined(segs[1..]);
    } else {
      assert Rendered(segs[1..]) == "";
    }
  }

  /** A result that does not end in a slash has a last segment. */
  lemma {:induction false} ClosedHasSegment(segs: seq<string>, stack: seq<string>)
    requires Plain(segs) && !EndsOpen(segs, "") && (segs == [] ==> stack != [])
    ensures Collapse(segs, stack) != []
  {
    if segs != [] {
      assert segs[0] in segs;
      assert |segs| > 1 ==> segs[1..][|segs| - 2] == segs[|segs| - 1];
      var next := if segs[0] == "." then stack else if segs[0] == ".." then DropLast(stack) else stack + [segs[0]];
      ClosedHasSegment(segs[1..], next);
    }
  }

  lemma LastIsNotSlash(segs: seq<string>)
    requires segs != [] && Plain(segs)
    ensures Rendered(segs) != "" && Rendered(segs)[|Rendered(segs)| - 1] != '/'
  {
    var rest, last := segs[..|segs| - 1], segs[|segs| - 1];
    assert segs == rest + [last] && last in segs;
    RenderedSnoc(rest, last);
  }

  /** A stack printed with or without a closing slash. */
  lemma ClosedText(stack: seq<string>, open: bool)
    requires Plain(stack) && (stack == [] ==> open)
    ensures "/" + Join(stack) == WithoutTrailingSlash(Rendered(stack) + (if open then "/" else ""))
  {
    if stack == [] {
      assert Rendered([]) == "" && Join([]) == "";
    } else {
      RenderedIsJoined(stack);
      LastIsNotSlash(stack);
      hide Rendered, Join;
      var text := Rendered(stack);
      assert (text + "/")[..|text|] == text && text + "" == text;
    }
  }

  /**
   For every path, the stack computes what remove_dot_segments computes on the path with repeated
   slashes merged, with a leading slash, and without a trailing one.
   */
  lemma StackIsRemoveDotSegments(path: string)
    ensures "/" + Join(Collapse(Split(path), []))
         == WithoutTrailingSlash(RemoveDotSegments(MergeSlashes("/" + path), ""))
  {
    Empties([], "");
    hide *;
    var segs, tail := NonEmpty(Split(path)), TailOf(path);
    MergedIsRendered(path);
    NonEmptyIsPlain(path);
    CollapseSkipsEmpty(Split(path), []);
    StackOfPlain(segs, tail) by { ClosedHasSegments(path); }
  }

  lemma ClosedHasSegments(path: string)
    ensures TailOf(path) in {"", "/"} && (TailOf(path) == "" ==> NonEmpty(Split(path)) != [])
  {
    NothingLeft(path);
  }

  lemma StackOfPlain(segs: seq<string>, tail: string)
    requires Plain(segs) && tail in {"", "/"} && (tail == "" ==> segs != [])
    ensures "/" + Join(Collapse(segs, [])) == WithoutTrailingSlash(RemoveDotSegments(Rendered(segs) + tail, ""))
  {
    hide Join, Collapse, RemoveDotSegments, Rendered, WithoutTrailingSlash;
    var stack, open := Collapse(segs, []), EndsOpen(segs, tail);
    Empties([], "");
    RoutineIsStack(segs, tail, []);
    forall seg | seg in stack ensures seg != "" && '/' !in seg { CollapseKeeps(segs, [], seg); }
    if !open { ClosedHasSegment(segs, []); }
    ClosedText(stack, open);
  }

  /** A path without a trailing slash has a segment. */
  lemma {:induction false} NothingLeft(path: string)
    ensures TailOf(path) == "" ==> NonEmpty(Split(path)) != []
    decreases |path|
  {
    var i := Find(path, '/');
    if i < |path| {
      NothingLeft(path[i + 1..]);
      assert ([path[..i]] + Split(path[i + 1..]))[1..] == Split(path[i + 1..]);
    }
  }

  predicate NoDoubleSlash(s: string) {
    forall i :: 0 <= i < |s| - 1 ==> !(s[i] == '/' && s[i + 1] == '/')
  }

  lemma {:induction false} NothingToMerge(s: string)
    requires NoDoubleSlash(s)
    ensures MergeSlashes(s) == s
  {
    if |s| >= 2 {
      assert s == [s[0]] + s[1..];
      NothingToMerge(s[1..]);
    }
  }

  /** On absolute paths without empty inner segments this is remove_dot_segments itself. */
  lemma StackIsRemoveDotSegmentsDirectly(path: string)
    requires path != "" && path[0] == '/' && NoDoubleSlash(path)
    ensures "/" + Join(Collapse(Split(path), [])) == WithoutTrailingSlash(RemoveDotSegments(path, ""))
  {
    var inner := path[1..];
    assert path == "/" + inner;
    NothingToMerge(path);
    StackIsRemoveDotSegments(inner);
    assert path[..0] == "";
    FindIs(path, '/', 0);
    assert path[0 + 1..] == inner;
    assert ([""] + Split(inner))[1..] == Split(inner);
  }

  /** With an empty inner segment the two can differ: the RFC routine lets ".." remove it. */
  lemma EmptySegmentsDiffer()
    ensures "/" + Join(Collapse(Split("/a//.."), [])) == "/"
    ensures WithoutTrailingSlash(RemoveDotSegments("/a//..", "")) == "/a"
  {
    EmptySegmentStack();
    EmptySegmentRoutine();
  }

  lemma SplitStep(a: string, more: string)
    requires '/' !in a
    ensures Split(a + "/" + more) == [a] + Split(more)
  {
    var s := a + "/" + more;
    assert s[..|a|] == a && s[|a| + 1..] == more;
    FindIs(s, '/', |a|);
  }

  lemma EmptySegmentStack()
    ensures Collapse(Split("/a//.."), []) == []
  {
    var up, a := [".."], [] + ["a"];
    assert up + [] == up && DropLast(a) == [];
    hide *;
    EmptySegmentSplit();
    CollapseStep("", ["a"] + ([""] + up), []);
    CollapseStep("a", [""] + up, []);
    CollapseStep("", up, a);
    CollapseStep("..", [], a);
    Empties([], "");
  }

  lemma EmptySegmentSplit()
    ensures Split("/a//..") == [""] + (["a"] + ([""] + [".."]))
  {
    FindIs("..", '/', 2);
    assert Split("..") == [".."];
    hide Split;
    SplitStep("", "..");
    assert "" + "/" + ".." == "/..";
    SplitStep("a", "/..");
    assert "a" + "/" + "/.." == "a//..";
    SplitStep("", "a//..");
    assert "" + "/" + "a//.." == "/a//..";
  }

  lemma EmptySegmentRoutine()
    ensures RemoveDotSegments("/a//..", "") == "/a/"
  {
    hide RemoveDotSegments;
    OneSegment("a", "//..", "");
    assert "/" + "a" + "//.." == "/a//..";
    OneSegment("", "/..", "/a");
    assert "/" + "" + "/.." == "//..";
    OneSegment("..", "", "/a/");
    assert "/" + ".." + "" == "/..";
    DropSegmentTail("/a", "");
    assert "/a" + "/" + "" == "/a/" && "" + "/" + "a" == "/a";
    SlashOnly("/a");
  }

  // ---------------------------------------------------------------------------------------------
  // Empty segments
  // ---------------------------------------------------------------------------------------------

  /** The stack of a routine that treats an empty segment like any other, and ends open behind a dot segment. */
  function Kept(segs: seq<string>, stack: seq<string>): seq<string> {
    if segs == [] then stack
    else
      var seg := segs[0];
      var next := if seg == "." then stack else if seg == ".." then DropLast(stack) else stack + [seg];
      if Dotted(seg) && |segs| == 1 then next + [""] else Kept(segs[1..], next)
  }

  lemma KeptStep(seg: string, segs: seq<string>, stack: seq<string>)
    ensures var next := if seg == "." then stack else if seg == ".." then DropLast(stack) else stack + [seg];
            Kept([seg] + segs, stack) == if Dotted(seg) && segs == [] then next + [""] else Kept(segs, next)
  {
    assert ([seg] + segs)[1..] == segs;
  }

  /** On segments that may be empty, remove_dot_segments is that stack. */
  lemma {:induction false} RoutineIsKept(segs: seq<string>, stack: seq<string>)
    requires NoSlashes(segs) && NoSlashes(stack)
    ensures RemoveDotSegments(Rendered(segs), Rendered(stack)) == Rendered(Kept(segs, stack))
    decreases |segs|
  {
    if segs == [] {
      Empties(stack, Rendered(stack));
    } else {
      hide RemoveDotSegments, Kept, Rendered, DropSegment;
      var seg, more, out := segs[0], segs[1..], Rendered(stack);
      var rest := Rendered(more);
      assert segs == [seg] + more && seg in segs;
      RenderedFront(seg, more);
      RenderedStarts(more, "");
      assert rest + "" == rest;
      OneSegment(seg, rest, out);
      DropRendered(stack);
      RenderedSnoc(stack, seg);
      KeptStep(seg, more, stack);
      var next := if seg == "." then stack else if seg == ".." then DropLast(stack) else stack + [seg];
      if Dotted(seg) && rest == "" {
        SlashOnly(Rendered(next));
        RenderedSnoc(next, "");
        assert Rendered(next) + "/" + "" == Rendered(next) + "/";
      } else {
        forall s | s in more || s in next ensures '/' !in s { assert s in segs || s in stack; }
        RoutineIsKept(more, next);
      }
    }
  }

  lemma {:induction false} RenderedSplit(path: string)
    ensures Rendered(Split(path)) == "/" + path && NoSlashes(Split(path)) && Split(path) != []
    decreases |path|
  {
    hide Rendered;
    var i := Find(path, '/');
    if i == |path| {
      RenderedFront(path, []);
      Empties([], "");
      assert [path] + [] == [path] && "/" + path + "" == "/" + path && path[..i] == path;
    } else {
      RenderedSplit(path[i + 1..]);
      RenderedFront(path[..i], Split(path[i + 1..]));
      assert "/" + path[..i] + ("/" + path[i + 1..]) == "/" + path;
    }
  }

  lemma {:induction false} RenderedInjective(a: seq<string>, b: seq<string>)
    requires NoSlashes(a) && NoSlashes(b) && Rendered(a) == Rendered(b)
    ensures a == b
    decreases |a|
  {
    if a != [] && b != [] {
      var s, t := Rendered(a[1..]), Rendered(b[1..]);
      assert Rendered(a) == "/" + a[0] + s && Rendered(b) == "/" + b[0] + t;
      FirstSegment(a[0], s);
      FirstSegment(b[0], t);
      assert a[0] in a && b[0] in b;
      RenderedInjective(a[1..], b[1..]);
      assert a == [a[0]] + a[1..] && b == [b[0]] + b[1..];
    }
  }

  lemma FirstSegment(seg: string, rest: string)
    requires '/' !in seg && (rest == "" || rest[0] == '/')
    ensures var s := "/" + seg + rest;
            && Find(s[1..], '/') == |seg| && s[1..][..|seg|] == seg
            && s[1 + |seg|..] == rest && s[..1 + |seg|] == "/" + seg
  {
    var s := "/" + seg + rest;
    assert s[1..] == seg + rest && (seg + rest)[..|seg|] == seg;
    FindIs(s[1..], '/', |seg|);
  }

  /** The segments of the stack, up to an empty one at the end; the root may be written with one slash more. */
  predicate SameSegments(kept: seq<string>, stack: seq<string>) {
    kept == stack || kept == stack + [""] || (stack == [] && kept == ["", ""])
  }

  lemma SameText(kept: seq<string>, stack: seq<string>)
    requires kept != [] && NoSlashes(kept) && Plain(stack)
    ensures "/" + Join(stack) == WithoutTrailingSlash(Rendered(kept)) <==> SameSegments(kept, stack)
  {
    if stack == [] {
      SameRoot(kept);
    } else {
      RenderedIsJoined(stack);
      SameBelowRoot(kept, stack);
    }
  }

  lemma SameBelowRoot(kept: seq<string>, stack: seq<string>)
    requires NoSlashes(kept) && Plain(stack) && stack != []
    ensures Rendered(stack) == WithoutTrailingSlash(Rendered(kept)) <==> kept == stack || kept == stack + [""]
  {
    LastIsNotSlash(stack);
    RenderedSnoc(stack, "");
    hide *;
    var text, closed := Rendered(kept), Rendered(stack);
    assert closed + "/" + "" == closed + "/";
    TrimmedText(text, closed);
    if text == closed { RenderedInjective(kept, stack); }
    if text == closed + "/" { RenderedInjective(kept, stack + [""]) by { SlashFree(stack); } }
  }

  lemma SlashFree(stack: seq<string>)
    requires Plain(stack)
    ensures NoSlashes(stack) && NoSlashes(stack + [""])
  {}

  lemma TrimmedText(text: string, closed: string)
    requires closed != "" && closed[|closed| - 1] != '/'
    ensures closed == WithoutTrailingSlash(text) <==> text == closed || text == closed + "/"
  {
    assert (closed + "/")[..|closed|] == closed;
    if |text| > 1 && text[|text| - 1] == '/' { assert text == text[..|text| - 1] + "/"; }
  }

  lemma SameRoot(kept: seq<string>)
    requires kept != [] && NoSlashes(kept)
    ensures "/" == WithoutTrailingSlash(Rendered(kept)) <==> kept == [""] || kept == ["", ""]
  {
    var text := Rendered(kept);
    assert Rendered([""]) == "/" && Rendered(["", ""]) == "//" by { RenderedRoots(); }
    hide Rendered;
    if WithoutTrailingSlash(text) == "/" {
      if text == "/" {
        RenderedInjective(kept, [""]);
      } else {
        assert text == text[..|text| - 1] + "/";
        RenderedInjective(kept, ["", ""]);
      }
    }
  }

  lemma RenderedRoots()
    ensures Rendered([""]) == "/" && Rendered(["", ""]) == "//"
  {
    hide Rendered;
    Empties([], "");
    RenderedFront("", []);
    RenderedFront("", [""]);
    assert [""] + [] == [""] && [""] + [""] == ["", ""];
  }

  lemma {:induction false} KeptParts(segs: seq<string>, stack: seq<string>)
    requires NoSlashes(segs) && NoSlashes(stack)
    ensures NoSlashes(Kept(segs, stack)) && (segs != [] ==> Kept(segs, stack) != [])
    decreases |segs|
  {
    if segs != [] {
      var seg := segs[0];
      var next := if seg == "." then stack else if seg == ".." then DropLast(stack) else stack + [seg];
      forall s | s in next ensures '/' !in s { assert s in segs || s in stack; }
      if !(Dotted(seg) && |segs| == 1) {
        forall s | s in segs[1..] ensures '/' !in s { assert s in segs; }
        KeptParts(segs[1..], next);
      }
    }
  }

  /** On every absolute path, the two agree exactly when the two stacks hold the same segments. */
  lemma AgreeExactly(path: string)
    requires path != "" && path[0] == '/'
    ensures var segs := Split(path[1..]);
            "/" + Join(Collapse(Split(path), [])) == WithoutTrailingSlash(RemoveDotSegments(path, "")) <==>
              SameSegments(Kept(segs, []), Collapse(segs, []))
  {
    hide Split, Join, Collapse, RemoveDotSegments, Kept, SameSegments;
    var segs, stack := Split(path[1..]), Collapse(Split(path[1..]), []);
    RenderedSplit(path[1..]);
    assert path == "/" + path[1..];
    Empties([], "");
    RoutineIsKept(segs, []);
    KeptParts(segs, []);
    SplitAfterSlash(path);
    StackIsPlain(path[1..]);
    SameText(Kept(segs, []), stack);
  }

  lemma SplitAfterSlash(path: string)
    requires path != "" && path[0] == '/'
    ensures Collapse(Split(path), []) == Collapse(Split(path[1..]), [])
  {
    assert path == "" + "/" + path[1..];
    SplitStep("", path[1..]);
    CollapseStep("", Split(path[1..]), []);
  }

  lemma {:induction false} NonEmptySnoc(segs: seq<string>, seg: string)
    ensures NonEmpty(segs + [seg]) == if seg == "" then NonEmpty(segs) else NonEmpty(segs) + [seg]
  {
    if segs == [] {
      assert [] + [seg] == [seg] && [seg][1..] == [];
    } else {
      assert (segs + [seg])[1..] == segs[1..] + [seg];
      NonEmptySnoc(segs[1..], seg);
    }
  }

  /** Only the last segment may be empty; the root may be written with one slash more. */
  predicate Solid(segs: seq<string>) {
    segs == ["", ""] || forall i :: 0 <= i < |segs| - 1 ==> segs[i] != ""
  }

  lemma {:induction false} NonEmptyAll(segs: seq<string>)
    requires forall i :: 0 <= i < |segs| ==> segs[i] != ""
    ensures NonEmpty(segs) == segs
  {
    if segs != [] {
      NonEmptyAll(segs[1..]);
      assert segs == [segs[0]] + segs[1..];
    }
  }

  lemma SolidExactly(kept: seq<string>)
    ensures SameSegments(kept, NonEmpty(kept)) <==> Solid(kept)
  {
    var stack := NonEmpty(kept);
    forall i | 0 <= i < |stack| ensures stack[i] != "" { InNonEmpty(kept, stack[i]); }
    assert kept == stack + [""] ==> forall i :: 0 <= i < |kept| - 1 ==> kept[i] == stack[i];
    if kept == ["", ""] {
      assert kept[1..] == [""] && kept[1..][1..] == [];
    } else if Solid(kept) && kept != [] {
      var rest, last := kept[..|kept| - 1], kept[|kept| - 1];
      assert kept == rest + [last];
      NonEmptySnoc(rest, last);
      NonEmptyAll(rest);
    }
  }

  /** A segment with `above` segments on top outlives these, where empty segments count or not. */
  predicate Outlives(segs: seq<string>, above: nat, empties: bool) {
    if segs == [] then true
    else if segs[0] == ".." then above > 0 && Outlives(segs[1..], above - 1, empties)
    else if segs[0] == "." || (segs[0] == "" && !empties) then Outlives(segs[1..], above, empties)
    else Outlives(segs[1..], above + 1, empties)
  }

  /** No segment is removed in the place of an empty one. */
  predicate NoneLost(segs: seq<string>) {
    segs != [] ==>
      && (segs[0] != "" && !Dotted(segs[0]) && Outlives(segs[1..], 0, true) ==> Outlives(segs[1..], 0, false))
      && NoneLost(segs[1..])
  }

  /** The segments before the last one that outlive those behind them. */
  function InnerLeft(segs: seq<string>): seq<string> {
    if |segs| <= 1 then []
    else if !Dotted(segs[0]) && Outlives(segs[1..], 0, true) then [segs[0]] + InnerLeft(segs[1..])
    else InnerLeft(segs[1..])
  }

  /** No empty segment is left but at the end; the root may be written with one slash more. */
  predicate NoEmptyLeft(segs: seq<string>) {
    "" !in InnerLeft(segs) || (InnerLeft(segs) == [""] && segs[|segs| - 1] in {"", ".", ".."})
  }

  lemma {:induction false} OutlivesMore(segs: seq<string>, above: nat, more: nat)
    requires Outlives(segs, above, false) && above <= more
    ensures Outlives(segs, more, true)
  {
    if segs != [] {
      var seg := segs[0];
      if seg == ".." { OutlivesMore(segs[1..], above - 1, more - 1); }
      else if seg == "." { OutlivesMore(segs[1..], above, more); }
      else if seg == "" { OutlivesMore(segs[1..], above, more + 1); }
      else { OutlivesMore(segs[1..], above + 1, more + 1); }
    }
  }

  /** The lowest segment of the stack stays or goes, and the others do not notice. */
  lemma {:induction false} CollapseBottom(segs: seq<string>, seg: string, top: seq<string>)
    ensures Collapse(segs, [seg] + top) ==
              (if Outlives(segs, |top|, false) then [seg] else []) + Collapse(segs, top)
    decreases |segs|
  {
    if segs != [] {
      var next := segs[0];
      if next == ".." {
        if top == [] {
          assert DropLast([seg]) == [] && [seg] + [] == [seg];
        } else {
          assert DropLast([seg] + top) == [seg] + DropLast(top);
          CollapseBottom(segs[1..], seg, DropLast(top));
        }
      } else if next == "." || next == "" {
        CollapseBottom(segs[1..], seg, top);
      } else {
        assert ([seg] + top) + [next] == [seg] + (top + [next]);
        CollapseBottom(segs[1..], seg, top + [next]);
      }
    }
  }

  lemma {:induction false} KeptBottom(segs: seq<string>, seg: string, top: seq<string>)
    ensures Kept(segs, [seg] + top) == (if Outlives(segs, |top|, true) then [seg] else []) + Kept(segs, top)
    decreases |segs|
  {
    if segs != [] {
      var next := segs[0];
      if next == ".." {
        if top == [] {
          assert DropLast([seg]) == [] && [seg] + [] == [seg];
        } else {
          assert DropLast([seg] + top) == [seg] + DropLast(top);
          if |segs| > 1 { KeptBottom(segs[1..], seg, DropLast(top)); }
        }
      } else if next == "." {
        if |segs| > 1 { KeptBottom(segs[1..], seg, top); }
      } else {
        assert ([seg] + top) + [next] == [seg] + (top + [next]);
        KeptBottom(segs[1..], seg, top + [next]);
      }
    }
  }

  /** Segment by segment, what the two stacks keep. */
  lemma LeftStep(seg: string, segs: seq<string>)
    requires segs != []
    ensures Collapse([seg] + segs, []) ==
              (if seg != "" && !Dotted(seg) && Outlives(segs, 0, false) then [seg] else []) + Collapse(segs, [])
    ensures Kept([seg] + segs, []) ==
              (if !Dotted(seg) && Outlives(segs, 0, true) then [seg] else []) + Kept(segs, [])
  {
    CollapseStep(seg, segs, []);
    KeptStep(seg, segs, []);
    CollapseBottom(segs, seg, []);
    KeptBottom(segs, seg, []);
    assert [] + [seg] == [seg] + [] == [seg] && DropLast<string>([]) == [];
  }

  lemma {:induction false} KeptIsInnerLeft(segs: seq<string>)
    requires segs != []
    ensures var last := segs[|segs| - 1];
            Kept(segs, []) == InnerLeft(segs) + [if Dotted(last) then "" else last]
  {
    if |segs| == 1 {
      assert segs[1..] == [];
      assert [] + [segs[0]] == [segs[0]];
    } else {
      var more := segs[1..];
      assert segs == [segs[0]] + more && more[|more| - 1] == segs[|segs| - 1];
      LeftStep(segs[0], more);
      KeptIsInnerLeft(more);
    }
  }

  /** The stack loses a segment to an empty one, or holds the non-empty segments of the routine. */
  lemma {:induction false} LostExactly(segs: seq<string>)
    requires segs != []
    ensures NoneLost(segs) ==> Collapse(segs, []) == NonEmpty(Kept(segs, []))
    ensures |Collapse(segs, [])| <= |NonEmpty(Kept(segs, []))|
    ensures !NoneLost(segs) ==> |Collapse(segs, [])| < |NonEmpty(Kept(segs, []))|
  {
    var seg, more := segs[0], segs[1..];
    assert segs == [seg] + more;
    if more == [] {
      LastKept(seg);
    } else {
      hide Collapse, Kept, NonEmpty, Outlives;
      LeftStep(seg, more);
      LostExactly(more);
      NonEmptyFront(seg, Kept(more, []));
      if Outlives(more, 0, false) { OutlivesMore(more, 0, 0); }
      assert [] + Kept(more, []) == Kept(more, []) && [] + Collapse(more, []) == Collapse(more, []);
    }
  }

  lemma LastKept(seg: string)
    ensures NoneLost([seg]) && Collapse([seg], []) == NonEmpty(Kept([seg], []))
  {
    assert [seg][1..] == [] && [] + [seg] == [seg] && [] + [""] == [""];
    NonEmptyFront(seg, []);
    NonEmptyFront("", []);
    assert [seg] + [] == [seg] && [""] + [] == [""];
  }

  lemma SolidIsNoEmptyLeft(segs: seq<string>)
    requires segs != []
    ensures Solid(Kept(segs, [])) <==> NoEmptyLeft(segs)
  {
    hide Kept, InnerLeft;
    KeptIsInnerLeft(segs);
    var inner, kept := InnerLeft(segs), Kept(segs, []);
    assert forall i :: 0 <= i < |inner| ==> kept[i] == inner[i];
    assert kept == ["", ""] <==> inner == [""] && kept[|inner|] == "";
  }

  /** Of the segments of the stack nothing but itself is the same. */
  lemma SameIsNonEmpty(kept: seq<string>, stack: seq<string>)
    requires SameSegments(kept, stack) && Plain(stack)
    ensures NonEmpty(kept) == stack
  {
    assert forall i :: 0 <= i < |stack| ==> stack[i] in stack;
    NonEmptyAll(stack);
    NonEmptySnoc(stack, "");
    NonEmptySnoc([""], "");
    assert [""] + [""] == ["", ""] && NonEmpty([""]) == [];
  }

  /**
   On every absolute path the stack is remove_dot_segments exactly when no segment is removed in the
   place of an empty one and no empty segment is left but at the end.
   */
  lemma StackIsRemoveDotSegmentsExactly(path: string)
    requires path != "" && path[0] == '/'
    ensures "/" + Join(Collapse(Split(path), [])) == WithoutTrailingSlash(RemoveDotSegments(path, "")) <==>
              NoneLost(Split(path[1..])) && NoEmptyLeft(Split(path[1..]))
  {
    hide Split, Join, Collapse, RemoveDotSegments, Kept, NonEmpty, NoneLost, NoEmptyLeft, Solid, SameSegments;
    var segs := Split(path[1..]);
    var kept, stack := Kept(segs, []), Collapse(segs, []);
    RenderedSplit(path[1..]);
    AgreeExactly(path);
    LostExactly(segs);
    SolidExactly(kept);
    SolidIsNoEmptyLeft(segs);
    if SameSegments(kept, stack) {
      StackIsPlain(path[1..]);
      SameIsNonEmpty(kept, stack);
    }
  }

  lemma StackIsPlain(path: string)
    ensures Plain(Collapse(Split(path), []))
  {
    hide Collapse;
    var segs := Split(path);
    CollapseSkipsEmpty(segs, []);
    NonEmptyIsPlain(path);
    forall seg | seg in Collapse(segs, []) ensures seg != "" && '/' !in seg { CollapseKeeps(NonEmpty(segs), [], seg); }
  }

  /** The segments but the last, without the "."s. */
  function WithoutDots(segs: seq<string>): seq<string> {
    if |segs| <= 1 then []
    else if segs[0] == "." then WithoutDots(segs[1..])
    else [segs[0]] + WithoutDots(segs[1..])
  }

  lemma {:induction false} NoParentsOutlive(segs: seq<string>, above: nat, empties: bool)
    requires ".." !in segs
    ensures Outlives(segs, above, empties)
    decreases |segs|
  {
    if segs != [] {
      assert segs[0] in segs;
      NoParentsOutlive(segs[1..], above, empties);
      NoParentsOutlive(segs[1..], above + 1, empties);
    }
  }

  lemma {:induction false} LeftWithoutParents(segs: seq<string>)
    requires ".." !in segs
    ensures NoneLost(segs) && InnerLeft(segs) == WithoutDots(segs)
  {
    if segs != [] {
      assert segs[0] in segs;
      LeftWithoutParents(segs[1..]);
      NoParentsOutlive(segs[1..], 0, true);
      NoParentsOutlive(segs[1..], 0, false);
    }
  }

  /** Without a ".." no segment but a last one, and not counting "."s, may be empty. */
  lemma WithoutParentsExactly(path: string)
    requires path != "" && path[0] == '/' && ".." !in Split(path[1..])
    ensures var segs := Split(path[1..]);
            "/" + Join(Collapse(Split(path), [])) == WithoutTrailingSlash(RemoveDotSegments(path, "")) <==>
              "" !in WithoutDots(segs) ||
              (WithoutDots(segs) == [""] && segs[|segs| - 1] in {"", "."})
  {
    var segs := Split(path[1..]);
    StackIsRemoveDotSegmentsExactly(path);
    LeftWithoutParents(segs);
    assert segs != [] ==> segs[|segs| - 1] in segs;
    RenderedSplit(path[1..]);
  }
}
