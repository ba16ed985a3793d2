/**
 What a CGI response is parsed to (internal/php/cgi/response.go:155-228), told by tables of characters
 and by numbers: the digits of a status, the white space of Unicode, the letters of a header name, the
 bytes a header must not hold, and the three limits.
 */
module CgiLaws {
  import opened Common
  import opened CgiResponse

  // ---------------------------------------------------------------------------------------------
  // The status
  // ---------------------------------------------------------------------------------------------

  const DIGITS := "0123456789"

  function Decimal(n: nat): (s: string)
    ensures s != ""
  {
    if n < 10 then [DIGITS[n]] else Decimal(n / 10) + [DIGITS[n % 10]]
  }

  lemma DigitTable(d: nat)
    requires d < 10
    ensures DIGITS[d] as int == '0' as int + d
  {}

  lemma {:induction false} DecimalReads(n: nat)
    ensures forall i :: 0 <= i < |Decimal(n)| ==> Digit(Decimal(n)[i])
    ensures Number(Decimal(n)) == n
  {
    DigitTable(n % 10);
    var last := [DIGITS[n % 10]];
    if n < 10 {
      assert last[..0] == "" && Number("") == 0;
    } else {
      DecimalReads(n / 10);
      var front := Decimal(n / 10);
      assert (front + last)[..|front|] == front;
    }
  }

  /** A number is read whatever zeros stand before it and whatever sign. */
  lemma {:induction false} NumberReads(n: nat, zeros: nat)
    ensures var s := seq(zeros, _ => '0') + Decimal(n);
            Atoi(s) == Some(n) && Atoi("+" + s) == Some(n) && Atoi("-" + s).Some? && Atoi("-" + s).value + n == 0
  {
    var s := seq(zeros, _ => '0') + Decimal(n);
    DecimalReads(n);
    ZerosRead(Decimal(n), zeros);
    hide Number;
    assert Digit(s[0]);
    assert ("+" + s)[1..] == s && ("-" + s)[1..] == s;
  }

  /** Nothing else is a number: a sign or none, and digits. */
  lemma NumberRefused(s: string)
    ensures Atoi(s).Some? <==>
            var t := if s != "" && s[0] in "+-" then s[1..] else s;
            t != "" && forall i :: 0 <= i < |t| ==> t[i] in DIGITS
  {
    hide Number;
    var t := if s != "" && (s[0] == '+' || s[0] == '-') then s[1..] else s;
    assert s != "" ==> (s[0] in "+-" <==> s[0] == '+' || s[0] == '-');
    forall i | 0 <= i < |t| ensures t[i] in DIGITS <==> Digit(t[i]) { DigitIsDigit(t[i]); }
  }

  lemma DigitIsDigit(c: char)
    ensures c in DIGITS <==> Digit(c)
  {
    if Digit(c) { DigitTable(c as int - '0' as int); }
  }

  lemma {:induction false} ZerosRead(s: string, zeros: nat)
    requires s != "" && forall i :: 0 <= i < |s| ==> Digit(s[i])
    ensures var t := seq(zeros, _ => '0') + s; (forall i :: 0 <= i < |t| ==> Digit(t[i])) && Number(t) == Number(s)
    decreases |s|
  {
    var zs, init, last := seq(zeros, _ => '0'), s[..|s| - 1], [s[|s| - 1]];
    assert (zs + s)[..|zs + s| - 1] == zs + init;
    if init == "" {
      OnlyZeros(zeros);
      assert zs + "" == zs && Number("") == 0;
    } else {
      ZerosRead(init, zeros);
    }
  }

  lemma {:induction false} OnlyZeros(zeros: nat)
    ensures var t := seq(zeros, _ => '0'); (forall i :: 0 <= i < |t| ==> Digit(t[i])) && Number(t) == 0
  {
    if zeros > 0 {
      OnlyZeros(zeros - 1);
      assert seq(zeros, _ => '0')[..zeros - 1] == seq(zeros - 1, _ => '0');
    }
  }

  function ThreeDigits(n: nat): string
    requires n < 1000
  {
    [DIGITS[n / 100], DIGITS[n / 10 % 10], DIGITS[n % 10]]
  }

  lemma ThreeDigitsRead(n: nat)
    requires n < 1000
    ensures var s := ThreeDigits(n); (forall i :: 0 <= i < 3 ==> Digit(s[i])) && Number(s) == n
  {
    DigitTable(n / 100);
    DigitTable(n / 10 % 10);
    DigitTable(n % 10);
    var s := ThreeDigits(n);
    NumberSnoc(s);
    NumberSnoc(s[..2]);
    NumberSnoc(s[..1]);
    assert s[..2][..1] == s[..1] && s[..1][..0] == "" && Number("") == 0;
    hide Number;
    assert Number(s[..1]) == n / 100 && Number(s[..2]) == n / 100 * 10 + n / 10 % 10;
    assert n / 100 == n / 10 / 10;
  }

  lemma NumberSnoc(s: string)
    requires s != "" && forall i :: 0 <= i < |s| ==> Digit(s[i])
    ensures Number(s) == Number(s[..|s| - 1]) * 10 + (s[|s| - 1] as int - '0' as int)
  {}

  /** A status line of three digits is that number from 100 to 599, and an error from any other. */
  lemma StatusIsNumber(n: nat, reason: string)
    requires n < 1000
    ensures StatusLine(ThreeDigits(n) + " " + reason) == if 100 <= n <= 599 then Ok(n) else Err(InvalidHeader)
  {
    ThreeDigitsRead(n);
    StatusReads(ThreeDigits(n), reason);
  }

  /** A printed response that begins with such a status is answered with that code. */
  lemma StatusIsAnswered(n: nat, reason: string, fields: seq<Field>, body: string, stderr: string)
    requires 100 <= n <= 599
    requires var all := [Field("Status", ThreeDigits(n) + " " + reason)] + fields; AllClean(all) && Fits(all, 0, 0)
    ensures var all := [Field("Status", ThreeDigits(n) + " " + reason)] + fields;
            var r := Parsed(Printed(all, body), stderr);
            r.Ok? && r.value.statusCode == n && r.value.body == body && "Status" !in r.value.headers
  {
    var line := ThreeDigits(n) + " " + reason;
    var all := [Field("Status", line)] + fields;
    hide AllClean, Fits, Responded, Printed, Parsed, StatusLine, ThreeDigits;
    PrintedParsesBack(all, body, stderr);
    RespondedMeans(all, body, stderr);
    StatusIsCanonical();
    FirstValue(Field("Status", line), fields);
    StatusIsNumber(n, reason);
    assert line != "";
  }

  lemma {:induction false} FirstValue(f: Field, fields: seq<Field>)
    ensures var values := ValuesOf([f] + fields, Canonical(f.name)); values != [] && values[0] == f.value
  {
    hide Canonical;
    var all := [f] + fields;
    if fields == [] {
      assert all[..0] == [];
    } else {
      FirstValue(f, fields[..|fields| - 1]);
      assert all[..|all| - 1] == [f] + fields[..|fields| - 1];
    }
  }

  // ---------------------------------------------------------------------------------------------
  // White space
  // ---------------------------------------------------------------------------------------------

  /** A code point of the Basic Multilingual Plane. */
  type CodePoint = p: nat | p < 0xD800 || 0xE000 <= p < 0x1_0000

  /** Its bytes in UTF-8. */
  function Utf8(p: CodePoint): (s: string)
    ensures s != ""
  {
    if p < 0x80 then [p as char]
    else if p < 0x800 then [(0xC0 + p / 64) as char, (0x80 + p % 64) as char]
    else [(0xE0 + p / 4096) as char, (0x80 + p / 64 % 64) as char, (0x80 + p % 64) as char]
  }

  /** White_Space of Unicode. */
  predicate WhiteSpace(p: CodePoint) {
    || 0x9 <= p <= 0xD || p in {0x20, 0x85, 0xA0, 0x1680, 0x2028, 0x2029, 0x202F, 0x205F, 0x3000}
    || 0x2000 <= p <= 0x200A
  }

  /** The bytes of a code point, and what they are as white space. */
  lemma SpaceBytes(p: CodePoint)
    ensures var s := Utf8(p);
            && (p < 0x80 <==> |s| == 1) && (p >= 0x800 <==> |s| == 3) && |s| <= 3
            && (|s| == 1 ==> s[0] as int == p)
            && (|s| == 2 ==>
                  && s[0] as int >= 0xC0 && 0x80 <= s[1] as int < 0xC0
                  && (WhiteSpace(p) <==> TwoByteSpace(s[0] as int, s[1] as int)))
            && (|s| == 3 ==>
                  && s[0] as int >= 0xE0 && 0x80 <= s[1] as int < 0xC0 && 0x80 <= s[2] as int < 0xC0
                  && (WhiteSpace(p) <==> ThreeByteSpace(s[0] as int, s[1] as int, s[2] as int)))
  {
    if p >= 0x800 {
      var a, b, c := p / 4096, p / 64 % 64, p % 64;
      assert p == 4096 * a + 64 * b + c;
      ThreeDigits64(p, a, b, c);
    }
  }

  lemma ThreeDigits64(p: CodePoint, a: int, b: int, c: int)
    requires p == 4096 * a + 64 * b + c && 0 <= b < 64 && 0 <= c < 64 && p >= 0x800
    ensures WhiteSpace(p) <==> ThreeByteSpace(0xE0 + a, 0x80 + b, 0x80 + c)
  {}

  /** A character in front is trimmed exactly when it is white space. */
  lemma SpaceTable(p: CodePoint, rest: string)
    ensures SpaceAt(Utf8(p) + rest, 0) == if WhiteSpace(p) then |Utf8(p)| else 0
  {
    SpaceBytes(p);
    var u := Utf8(p);
    var s := u + rest;
    assert s[0] == u[0] && (|u| >= 2 ==> s[1] == u[1]) && (|u| == 3 ==> s[2] == u[2]);
    hide Utf8;
  }

  /** And so is one at the end. */
  lemma SpaceEndTable(p: CodePoint, rest: string)
    ensures SpaceAtEnd(rest + Utf8(p)) == if WhiteSpace(p) then |Utf8(p)| else 0
  {
    SpaceBytes(p);
    var u, n := Utf8(p), |rest|;
    var s := rest + u;
    assert s[n] == u[0] && (|u| >= 2 ==> s[n + 1] == u[1]) && (|u| == 3 ==> s[n + 2] == u[2]);
    hide Utf8;
  }

  function Utf8All(ps: seq<CodePoint>): string {
    if ps == [] then "" else Utf8All(ps[..|ps| - 1]) + Utf8(ps[|ps| - 1])
  }

  predicate Padding(ps: seq<CodePoint>) { forall i :: 0 <= i < |ps| ==> WhiteSpace(ps[i]) }

  /** A text that begins and ends with a character that is no white space. */
  predicate Solid(text: string, first: CodePoint, last: CodePoint) {
    && Utf8(first) <= text && !WhiteSpace(first) && !WhiteSpace(last)
    && |Utf8(last)| <= |text| && text[|text| - |Utf8(last)|..] == Utf8(last)
  }

  /** White space around a text is trimmed, and nothing else. */
  lemma PaddingIsTrimmed(front: seq<CodePoint>, text: string, back: seq<CodePoint>, first: CodePoint, last: CodePoint)
    requires Padding(front) && Padding(back) && Solid(text, first, last)
    ensures TrimSpace(Utf8All(front) + text + Utf8All(back)) == text
  {
    hide SpaceAt, SpaceAtEnd, TrimFront, TrimBack, Utf8, Utf8All, WhiteSpace, Padding;
    var tail := text + Utf8All(back);
    Associate(Utf8All(front), text, Utf8All(back));
    assert tail[..|Utf8(first)|] == Utf8(first);
    FrontIsTrimmed(front, tail, first);
    BackIsTrimmed(text, back, last);
  }

  lemma {:induction false} FrontIsTrimmed(front: seq<CodePoint>, text: string, first: CodePoint)
    requires Padding(front) && Utf8(first) <= text && !WhiteSpace(first)
    ensures TrimFront(Utf8All(front) + text) == text
  {
    hide SpaceAt, Utf8, WhiteSpace;
    if front == [] {
      SpaceTable(first, text[|Utf8(first)|..]);
      assert text == Utf8(first) + text[|Utf8(first)|..] && Utf8All(front) + text == text;
    } else {
      var more := Utf8All(front[1..]) + text;
      Utf8Front(front);
      SpaceTable(front[0], more);
      assert Utf8All(front) + text == Utf8(front[0]) + more;
      assert (Utf8(front[0]) + more)[|Utf8(front[0])|..] == more;
      FrontIsTrimmed(front[1..], text, first);
    }
  }

  lemma {:induction false} Utf8Front(ps: seq<CodePoint>)
    requires ps != []
    ensures Utf8All(ps) == Utf8(ps[0]) + Utf8All(ps[1..])
  {
    hide Utf8;
    if |ps| > 1 {
      Utf8Front(ps[..|ps| - 1]);
      assert ps[..|ps| - 1][1..] == ps[1..][..|ps| - 2];
    }
  }

  lemma {:induction false} BackIsTrimmed(text: string, back: seq<CodePoint>, last: CodePoint)
    requires Padding(back) && !WhiteSpace(last)
    requires |Utf8(last)| <= |text| && text[|text| - |Utf8(last)|..] == Utf8(last)
    ensures TrimBack(text + Utf8All(back)) == text
  {
    hide SpaceAtEnd, Utf8, WhiteSpace;
    if back == [] {
      var n := |text| - |Utf8(last)|;
      SpaceEndTable(last, text[..n]);
      assert text == text[..n] + Utf8(last) && text + Utf8All(back) == text;
    } else {
      var init, p := text + Utf8All(back[..|back| - 1]), back[|back| - 1];
      SpaceEndTable(p, init);
      assert text + Utf8All(back) == init + Utf8(p);
      assert (init + Utf8(p))[..|init|] == init;
      BackIsTrimmed(text, back[..|back| - 1], last);
    }
  }

  // ---------------------------------------------------------------------------------------------
  // Header names and lines
  // ---------------------------------------------------------------------------------------------

  const SMALL_LETTERS := "abcdefghijklmnopqrstuvwxyz"
  const CAPITAL_LETTERS := "ABCDEFGHIJKLMNOPQRSTUVWXYZ"
  const OTHER_TOKEN := "!#$%&'*+-.^_`|~0123456789"

  lemma LetterTable(j: nat)
    requires j < 26
    ensures SMALL_LETTERS[j] as int == 'a' as int + j && CAPITAL_LETTERS[j] as int == 'A' as int + j
  {}

  /** The characters of a name that is made canonical at all. */
  lemma TokenTable(c: char)
    ensures TokenChar(c) <==> c in SMALL_LETTERS || c in CAPITAL_LETTERS || c in OTHER_TOKEN
  {
    if Lower(c) {
      LetterTable(c as int - 'a' as int);
      assert SMALL_LETTERS[c as int - 'a' as int] == c;
    } else if Upper(c) {
      LetterTable(c as int - 'A' as int);
      assert CAPITAL_LETTERS[c as int - 'A' as int] == c;
    } else {
      forall j | 0 <= j < 26 ensures SMALL_LETTERS[j] != c && CAPITAL_LETTERS[j] != c { LetterTable(j); }
      OtherTable(c);
    }
  }

  lemma OtherTable(c: char)
    requires !Lower(c) && !Upper(c)
    ensures c in OTHER_TOKEN <==> '0' <= c <= '9' || c in "!#$%&'*+-.^_`|~"
  {
    var marks := "!#$%&'*+-.^_`|~";
    assert OTHER_TOKEN == marks + "0123456789";
    assert c in OTHER_TOKEN <==> c in marks || c in "0123456789";
    if '0' <= c <= '9' { assert "0123456789"[c as int - '0' as int] == c; }
  }

  /** A letter is a capital at the start and behind a hyphen, and small elsewhere. */
  lemma CanonicalLetters(name: string, i: nat, j: nat)
    requires i < |name| && j < 26 && (name[i] == SMALL_LETTERS[j] || name[i] == CAPITAL_LETTERS[j])
    requires forall k :: 0 <= k < |name| ==> TokenChar(name[k])
    ensures |Canonical(name)| == |name|
    ensures Canonical(name)[i] == if i == 0 || name[i - 1] == '-' then CAPITAL_LETTERS[j] else SMALL_LETTERS[j]
  {
    hide TokenChar;
    CapitalisedAt(name, true, i);
    hide Capitalised;
    LetterTable(j);
  }

  /** Nothing else in a name changes. */
  lemma CanonicalOthers(name: string, i: nat)
    requires i < |name| && name[i] in OTHER_TOKEN && forall k :: 0 <= k < |name| ==> TokenChar(name[k])
    ensures |Canonical(name)| == |name| && Canonical(name)[i] == name[i]
  {
    hide TokenChar;
    CapitalisedAt(name, true, i);
    hide Capitalised;
    OtherIsNoLetter(name[i]);
  }

  lemma OtherIsNoLetter(c: char)
    ensures c in OTHER_TOKEN ==> !Lower(c) && !Upper(c)
  {
    forall j | 0 <= j < |OTHER_TOKEN| ensures !Lower(OTHER_TOKEN[j]) && !Upper(OTHER_TOKEN[j]) {}
  }

  lemma {:induction false} CapitalisedAt(s: string, upper: bool, i: nat)
    requires i < |s|
    ensures Capitalised(s, upper)[i] ==
              if (if i == 0 then upper else s[i - 1] == '-') then Capital(s[i]) else Small(s[i])
  {
    if i > 0 { CapitalisedAt(s[1..], s[0] == '-', i - 1); }
  }

  /** Any other name is left as it is. */
  lemma StrangeNamesStay(name: string, i: nat)
    requires i < |name| && !TokenChar(name[i])
    ensures Canonical(name) == name
  {}

  /**
   A line is a header exactly when it has a colon with a name before it, and neither name nor value
   holds a byte below 32 or 127, but for tabs in the value.
   */
  lemma LineLiterally(name: string, value: string)
    requires ':' !in name
    ensures HeaderLine(name).Err? && HeaderLine(name).error == InvalidHeader
    ensures var n, v := TrimSpace(name), TrimSpace(value); var r := HeaderLine(name + ":" + value);
            if n == "" then r == Err(InvalidHeader)
            else if (exists c :: c in n && (c as int < 32 || c as int == 127))
                    || (exists c :: c in v && (c as int < 32 || c as int == 127) && c as int != 9)
            then r == Err(HeaderInjection)
            else r == Ok(Field(n, v))
  {
    hide TrimSpace, Find;
    NoColon(name);
    FindSkip(name, ":" + value, ":");
    FindHere(":" + value, ":");
    var line := name + ":" + value;
    assert name + (":" + value) == line && line[..|name|] == name && line[|name| + 1..] == value;
    ControlLiterally(TrimSpace(name));
    ControlLiterally(TrimSpace(value));
  }

  lemma NoColon(name: string)
    requires ':' !in name
    ensures Find(name, ":").None?
  {
    FindSkip(name, "", ":");
    FindNone("", ":");
    assert name + "" == name;
  }

  lemma ControlLiterally(s: string)
    ensures !CleanName(s) <==> exists c :: c in s && (c as int < 32 || c as int == 127)
    ensures !CleanValue(s) <==> exists c :: c in s && (c as int < 32 || c as int == 127) && c as int != 9
  {
    forall i | 0 <= i < |s| ensures s[i] in s {}
  }

  function Total(lines: seq<string>): nat {
    if lines == [] then 0 else |lines[0]| + 2 + Total(lines[1..])
  }

  /** Of lines that are headers one by one, at most 100, of 8192 bytes each and 65536 in all, are accepted. */
  lemma LimitsExactly(lines: seq<string>)
    requires forall i :: 0 <= i < |lines| ==> lines[i] != "" && HeaderLine(lines[i]).Ok?
    ensures Fields(lines, 0, 0).Ok? <==>
              && |lines| <= 100 && Total(lines) <= 65536
              && forall i :: 0 <= i < |lines| ==> |lines[i]| <= 8192
  {
    LimitsFrom(lines, 0, 0);
  }

  lemma {:induction false} LimitsFrom(lines: seq<string>, total: nat, count: nat)
    requires total <= 65536 && count <= 100
    requires forall i :: 0 <= i < |lines| ==> lines[i] != "" && HeaderLine(lines[i]).Ok?
    ensures Fields(lines, total, count).Ok? <==>
              && count + |lines| <= 100 && total + Total(lines) <= 65536
              && forall i :: 0 <= i < |lines| ==> |lines[i]| <= 8192
    decreases |lines|
  {
    hide HeaderLine;
    if lines != [] {
      if total + |lines[0]| + 2 <= 65536 && count + 1 <= 100 {
        LimitsFrom(lines[1..], total + |lines[0]| + 2, count + 1);
      }
      assert forall i :: 1 <= i < |lines| ==> lines[i] == lines[1..][i - 1];
    }
  }
}
