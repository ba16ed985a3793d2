/**
 What a request target is parsed to (internal/filesystem/path.go:39-193), told by tables of characters:
 the two spellings of a byte behind a percent sign, and the bytes that are control characters.
 */
module PathLaws {
  import opened Common
  import opened PathParser

  const SMALL := "0123456789abcdef"
  const CAPITAL := "0123456789ABCDEF"

  /** A percent sign and the two hexadecimal digits of a byte, each small or capital. */
  predicate Escape(t: string, b: char) {
    && |t| == 3 && t[0] == '%' && b as int < 256
    && (t[1] == SMALL[b as int / 16] || t[1] == CAPITAL[b as int / 16])
    && (t[2] == SMALL[b as int % 16] || t[2] == CAPITAL[b as int % 16])
  }

  /** `path` is `s` with some of its bytes escaped, but none of those in `kept`. */
  predicate Spells(path: string, s: string, kept: string)
    decreases |s|
  {
    if s == "" || path == "" then s == path
    else if path[0] != '%' then path[0] == s[0] && Spells(path[1..], s[1..], kept)
    else |path| >= 3 && Escape(path[..3], s[0]) && s[0] !in kept && Spells(path[3..], s[1..], kept)
  }

  /** No byte below 32 or 127, and no character from U+0080 to U+009F. */
  predicate Visible(s: string) {
    forall i :: 0 <= i < |s| ==> VisibleAt(s, i)
  }

  predicate VisibleAt(s: string, i: nat)
    requires i < |s|
  {
    && s[i] as int >= 32 && s[i] as int != 127
    && (i + 1 < |s| ==> !(s[i] as int == 0xC2 && 0x80 <= s[i + 1] as int <= 0x9F))
  }

  lemma DigitTable(c: char, d: int)
    requires 0 <= d < 16
    ensures HexDigit(c) == d <==> c == SMALL[d] || c == CAPITAL[d]
  {
    SmallDigits(d);
    CapitalDigits(d);
  }

  lemma SmallDigits(d: int)
    requires 0 <= d < 16
    ensures SMALL[d] as int == if d < 10 then '0' as int + d else 'a' as int + d - 10
  {}

  lemma CapitalDigits(d: int)
    requires 0 <= d < 16
    ensures CAPITAL[d] as int == if d < 10 then '0' as int + d else 'A' as int + d - 10
  {}

  lemma EscapeTable(t: string, b: char)
    requires |t| == 3
    ensures Escape(t, b) <==> EscapeAt(t) && EscapedByte(t) == b
  {
    var hi, lo := HexDigit(t[1]), HexDigit(t[2]);
    if b as int < 256 {
      DigitTable(t[1], b as int / 16);
      DigitTable(t[2], b as int % 16);
    }
    hide HexDigit;
    if EscapeAt(t) { assert (hi * 16 + lo) / 16 == hi && (hi * 16 + lo) % 16 == lo; }
  }

  /** Every percent sign begins an escape, and the string is what they stand for. */
  lemma {:induction false} SpellingDecodes(path: string, s: string)
    ensures Spells(path, s, "") <==> Unescaped(path) == Some(s)
    decreases |path|
  {
    hide EscapedByte, HexDigit, Escape;
    if path != "" && path[0] == '%' && |path| >= 3 {
      EscapePrefix(path[..3], path);
      if s != "" {
        EscapeTable(path[..3], s[0]);
        SpellingDecodes(path[3..], s[1..]);
        assert s == [s[0]] + s[1..];
      }
    } else if path != "" && path[0] != '%' && s != "" {
      SpellingDecodes(path[1..], s[1..]);
      assert s == [s[0]] + s[1..];
    }
  }

  /** Every byte behind a percent sign, in digits of one of the tables. */
  function EscapedAll(s: string, digits: string): string
    requires |digits| == 16 && forall i :: 0 <= i < |s| ==> s[i] as int < 256
  {
    if s == "" then ""
    else ['%', digits[s[0] as int / 16], digits[s[0] as int % 16]] + EscapedAll(s[1..], digits)
  }

  /** A string that is escaped byte by byte decodes to itself, but for its percent signs. */
  lemma {:induction false} EscapedDecodes(s: string, digits: string)
    requires digits in {SMALL, CAPITAL} && '%' !in s && forall i :: 0 <= i < |s| ==> s[i] as int < 256
    ensures PercentDecoded(EscapedAll(s, digits)) == Some(s)
  {
    if s != "" {
      var t, rest := ['%', digits[s[0] as int / 16], digits[s[0] as int % 16]], EscapedAll(s[1..], digits);
      EscapedDecodes(s[1..], digits);
      EscapeTable(t, s[0]);
      EscapePrefix(t, t + rest);
      assert (t + rest)[3..] == rest && s == [s[0]] + s[1..] && t + rest == EscapedAll(s, digits);
      hide EscapeAt, EscapedByte, HexDigit, EscapedAll;
      assert (t + rest)[0] == '%';
    }
  }

  /** Where nothing in `kept` is escaped. */
  lemma {:induction false} KeptIsNotEscaped(path: string, s: string, kept: string)
    requires Spells(path, s, "")
    ensures Spells(path, s, kept) <==> forall c :: c in kept ==> !Escapes(path, c)
    decreases |path|
  {
    hide EscapedByte, HexDigit, Escape, Escapes;
    if path == "" {
      NothingEscaped();
    } else {
      var n := if path[0] == '%' then 3 else 1;
      KeptIsNotEscaped(path[n..], s[1..], kept);
      if n == 3 {
        EscapeTable(path[..3], s[0]);
        EscapePrefix(path[..3], path);
      }
      forall c ensures Escapes(path, c) <==> (n == 3 && s[0] == c) || Escapes(path[n..], c) {
        EscapesFront(path, c);
      }
    }
  }

  lemma NothingEscaped()
    ensures forall c :: !Escapes("", c)
  {}

  lemma CleanIsVisible(s: string)
    ensures Clean(s) <==> Visible(s)
  {
    hide Clean;
    forall i | 0 <= i < |s| ensures ControlAt(s[i..]) <==> !VisibleAt(s, i) {
      assert s[i..][0] == s[i] && (i + 1 < |s| ==> s[i..][1] == s[i + 1]);
    }
    hide ControlAt, VisibleAt;
    CleanIs(s);
  }

  lemma CleanIs(s: string)
    ensures Clean(s) <==> forall i :: 0 <= i < |s| ==> !ControlAt(s[i..])
  {
    hide ControlAt;
  }

  /** A path that may be served, and what it stands for. */
  ghost predicate Reads(path: string, s: string) {
    Spells(path, s, "/?\\%") && Visible(path) && Visible(s) && '\\' !in path
  }

  /** A target is its path, or the path, a question mark and anything. */
  ghost predicate PathOf(target: string, path: string) {
    '?' !in path && path <= target && (target == path || target[|path|] == '?')
  }

  lemma PathIsCut(target: string, path: string)
    requires PathOf(target, path)
    ensures target[..Find(target, '?')] == path
  {
    FindIs(target, '?', |path|);
  }

  /**
   A target is accepted exactly when its path spells something, escapes none of the four delimiters, and
   shows no control character or backslash. Its normalised path is then remove_dot_segments of section
   5.2.4 of RFC 3986, on what it spells with slashes merged; the query has no part in it.
   */
  lemma ParsedLiterally(target: string, path: string)
    requires PathOf(target, path)
    ensures Parse(target).Ok? <==> exists s :: Reads(path, s)
    ensures forall s :: Reads(path, s) ==>
              Parse(target) == Ok(ParsedPath(target, path, Parse(target).value.segments,
                                  WithoutTrailingSlash(RemoveDotSegments(MergeSlashes("/" + s), ""))))
  {
    hide Spells, Visible, Escapes, Clean, Unescaped, Parse, Collapse, Split, Join;
    hide RemoveDotSegments, MergeSlashes, WithoutTrailingSlash;
    PathIsCut(target, path);
    AcceptedExactly(target);
    forall s ensures Reads(path, s) <==> Unescaped(path) == Some(s) && Acceptable(path) { ReadsExactly(path, s); }
    if Parse(target).Ok? {
      assert Reads(path, Unescaped(path).value);
      ParsedRaw(target);
      ParsedJoins(target);
      StackIsRemoveDotSegments(Unescaped(path).value);
    }
  }

  lemma ReadsExactly(path: string, s: string)
    ensures Reads(path, s) <==> Unescaped(path) == Some(s) && Acceptable(path)
  {
    hide Spells, Visible, Escapes, Clean, Unescaped;
    SpellingDecodes(path, s);
    KeptMeansLess(path, s, "/?\\%");
    CleanIsVisible(path);
    CleanIsVisible(s);
    if Spells(path, s, "") {
      KeptIsNotEscaped(path, s, "/?\\%");
      FourKept(path);
    }
  }

  lemma FourKept(path: string)
    ensures (forall c :: c in "/?\\%" ==> !Escapes(path, c)) <==>
              !Escapes(path, '/') && !Escapes(path, '?') && !Escapes(path, '\\') && !Escapes(path, '%')
  {
    hide Escapes;
    var kept := "/?\\%";
    assert kept[0] == '/' && kept[1] == '?' && kept[2] == '\\' && kept[3] == '%';
  }

  lemma {:induction false} KeptMeansLess(path: string, s: string, kept: string)
    ensures Spells(path, s, kept) ==> Spells(path, s, "")
    decreases |s|
  {
    hide Escape;
    if s != "" && path != "" {
      if path[0] != '%' { KeptMeansLess(path[1..], s[1..], kept); }
      else if |path| >= 3 { KeptMeansLess(path[3..], s[1..], kept); }
    }
  }

  /** Each refusal names a defect that the path has. */
  lemma RefusedFor(target: string, path: string)
    requires PathOf(target, path) && Parse(target).Err?
    ensures var e := Parse(target).error;
            && (e == NulInPath ==> '\0' in path || exists s :: Spells(path, s, "") && '\0' in s)
            && (e == ControlCharInPath ==> !Visible(path) || exists s :: Spells(path, s, "") && !Visible(s))
            && (e == BackslashInPath ==> '\\' in path || Escapes(path, '\\'))
            && (e == EncodedSlashInPath ==> Escapes(path, '/'))
            && (e == DoubleEncoding ==> Escapes(path, '%'))
            && (e == InvalidPercentEncoding ==> Escapes(path, '?') || forall s :: !Spells(path, s, ""))
  {
    hide Spells, Visible, Escapes, Clean, Unescaped, PercentDecoded, HasEscape, Contains, FirstBad;
    hide Split, Collapse, Join;
    PathIsCut(target, path);
    SpelledSlash(path);
    SpelledQuestion(path);
    SpelledBackslash(path);
    CleanIsVisible(path);
    DecodesWhenUnescapes(path);
    forall s ensures Spells(path, s, "") <==> Unescaped(path) == Some(s) { SpellingDecodes(path, s); }
    if PercentDecoded(path).Some? {
      var d := PercentDecoded(path).value;
      PercentStays(path);
      if '%' !in d {
        NoPercentNoEscape(d);
        CleanIsVisible(d);
        BadIsBad(d);
      }
    }
  }

  lemma {:induction false} BadIsBad(s: string)
    ensures FirstBad(s) == Some(NulInPath) ==> '\0' in s
    ensures FirstBad(s) == Some(ControlCharInPath) ==> !Clean(s)
    ensures FirstBad(s).Some? ==> FirstBad(s).value in {NulInPath, ControlCharInPath}
  {
    FirstBadIsClean(s);
    hide Clean, ControlAt;
    if s != "" { BadIsBad(s[1..]); }
  }
}
