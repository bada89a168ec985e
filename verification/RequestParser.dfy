/** parse_http_header: the mutable buffer, the header-line loop, and the record it fills in. */
module RequestParser {
  import opened Decimal
  import opened Regex
  import opened Tokenizer
  import opened RangeHeader
  import opened RequestLine

  const DEFAULT_HTML_PAGE: string := "/default.html"

  /** strptime with the If-Modified-Since format, then mktime: a library function of the line. */
  type DateParser = string -> Option<int>

  /** The parsed header. Fields the parser has not assigned are None. */
  datatype Parsed = Parsed(
    method_: Option<string>,
    filename: Option<string>,
    protocol: Option<string>,
    status: Status,
    modsince: int,
    byteStart: int,
    byteEnd: int,
    isCGI: bool)

  /** The parser takes the length of every token without testing for NULL. */
  datatype ParseResult = Header(header: Parsed) | NullToken

  const INITIAL: Parsed := Parsed(None, None, None, InternalError, 0, -2, -2, false)

  // ---------------------------------------------------------------- the parser as a function

  function ApplyDate(h: Parsed, line: string, dateOf: DateParser): Parsed {
    match dateOf(line)
    case None => h
    case Some(t) => h.(modsince := t)
  }

  function ApplyRange(h: Parsed, line: string): Parsed {
    match RangeOf(line)
    case None => h
    case Some(r) => h.(status := RangeStatus(r), byteStart := r.start, byteEnd := r.end)
  }

  function ApplyLines(h: Parsed, lines: seq<string>, dateOf: DateParser): Parsed
    decreases |lines|
  {
    if lines == [] then h
    else ApplyLines(ApplyRange(ApplyDate(h, lines[0], dateOf), lines[0]), lines[1..], dateOf)
  }

  function Filename(path: string): string {
    if |path| == 1 then DEFAULT_HTML_PAGE else path
  }

  predicate IsCgiPath(path: string) { |path| != 1 && WordAt("/cgi-bin", path, 0) }

  /** The record once the three tokens of the request line are known, and the lines that follow. */
  function ParseTokens(m: string, path: string, protocol: string, lines: seq<string>, dateOf: DateParser): Parsed {
    var h := INITIAL.(method_ := Some(m), filename := Some(Filename(path)), protocol := Some(protocol), isCGI := IsCgiPath(path));
    if protocol != "HTTP/1.1" then h.(status := BadRequest)
    else if m != "GET" && m != "HEAD" then h.(status := NotImplemented)
    else ApplyLines(h.(status := Ok), lines, dateOf)
  }

  function ParseText(text: string, dateOf: DateParser): ParseResult {
    if ScanRequest(text).None? then Header(INITIAL.(status := BadRequest))
    else
      match (FirstToken(text).text, SecondToken(text).text, ThirdToken(text).text)
      case (Some(m), Some(path), Some(protocol)) =>
        Header(ParseTokens(m, path, protocol, Tokens(ThirdToken(text).rest, "\n"), dateOf))
      case _ => NullToken
  }

  // ---------------------------------------------------------------- what the header lines determine

  predicate IsRangeLine(line: string) { ScanRange(line).Some? }

  lemma {:induction false} ApplyLinesConcat(h: Parsed, a: seq<string>, b: seq<string>, dateOf: DateParser)
    ensures ApplyLines(h, a + b, dateOf) == ApplyLines(ApplyLines(h, a, dateOf), b, dateOf)
    decreases |a|
  {
    if a == [] {
      assert a + b == b;
    } else {
      assert (a + b)[1..] == a[1..] + b;
      ApplyLinesConcat(ApplyRange(ApplyDate(h, a[0], dateOf), a[0]), a[1..], b, dateOf);
    }
  }

  /** Lines that are not Range lines leave the byte range and the status alone; lines without a date
      leave the date alone; no line touches the request line's fields. */
  lemma {:induction false} UnaffectedFields(h: Parsed, lines: seq<string>, dateOf: DateParser)
    ensures var g := ApplyLines(h, lines, dateOf);
            && g.method_ == h.method_ && g.filename == h.filename && g.protocol == h.protocol && g.isCGI == h.isCGI
            && ((forall i :: 0 <= i < |lines| ==> !IsRangeLine(lines[i])) ==>
                  g.byteStart == h.byteStart && g.byteEnd == h.byteEnd && g.status == h.status)
            && ((forall i :: 0 <= i < |lines| ==> dateOf(lines[i]).None?) ==> g.modsince == h.modsince)
    decreases |lines|
  {
    if lines != [] {
      var h1 := ApplyRange(ApplyDate(h, lines[0], dateOf), lines[0]);
      UnaffectedFields(h1, lines[1..], dateOf);
      assert forall i :: 0 <= i < |lines| - 1 ==> lines[1..][i] == lines[i + 1];
    }
  }

  /** The byte range and the status come from the last Range line, whatever the other lines are. */
  lemma LastRangeLineWins(h: Parsed, lines: seq<string>, i: nat, dateOf: DateParser)
    requires i < |lines| && IsRangeLine(lines[i])
    requires forall j :: i < j < |lines| ==> !IsRangeLine(lines[j])
    ensures var g, r := ApplyLines(h, lines, dateOf), RangeOf(lines[i]).value;
            g.byteStart == r.start && g.byteEnd == r.end && g.status == RangeStatus(r)
  {
    var before, after := lines[..i], lines[i + 1..];
    assert lines == before + ([lines[i]] + after);
    ApplyLinesConcat(h, before, [lines[i]] + after, dateOf);
    assert ([lines[i]] + after)[1..] == after;
    var h1 := ApplyLines(h, before, dateOf);
    UnaffectedFields(ApplyRange(ApplyDate(h1, lines[i], dateOf), lines[i]), after, dateOf);
  }

  /** The modification date comes from the last line the date parser accepts, whatever the others are. */
  lemma LastDateLineWins(h: Parsed, lines: seq<string>, i: nat, dateOf: DateParser)
    requires i < |lines| && dateOf(lines[i]).Some?
    requires forall j :: i < j < |lines| ==> dateOf(lines[j]).None?
    ensures ApplyLines(h, lines, dateOf).modsince == dateOf(lines[i]).value
  {
    var before, after := lines[..i], lines[i + 1..];
    assert lines == before + ([lines[i]] + after);
    ApplyLinesConcat(h, before, [lines[i]] + after, dateOf);
    assert ([lines[i]] + after)[1..] == after;
    var h1 := ApplyLines(h, before, dateOf);
    UnaffectedFields(ApplyRange(ApplyDate(h1, lines[i], dateOf), lines[i]), after, dateOf);
  }

  // ---------------------------------------------------------------- whole requests

  /** The header of an accepted request with single spaces: its three tokens are the parts of the line,
      and the header lines are the non-empty pieces between newlines of what follows it. */
  lemma ParsedParts(text: string, p: Parts, dateOf: DateParser)
    requires ScanRequest(text) == Some(p) && text[p.sep1] == ' ' && text[p.sep2] == ' '
    ensures ParseText(text, dateOf) ==
            Header(ParseTokens(p.Method(text), p.Path(text), p.Version(text),
                               NonEmpty(Split(text[p.End()..], '\n')), dateOf))
  {
    PartsFit(text, p);
    hide *;
    TokensAreThePartsIff(text, p);
    var rest := text[p.End()..];
    TokensAreNonEmptyPieces(rest, '\n');
    ParsedTokens(text, p.Method(text), p.Path(text), Token(Some(p.Version(text)), rest), dateOf);
  }

  lemma PartsFit(text: string, p: Parts)
    requires ScanRequest(text) == Some(p)
    ensures p.Fits(text)
  {
  }

  lemma ParsedTokens(text: string, m: string, path: string, third: Token, dateOf: DateParser)
    requires ScanRequest(text).Some? && third.text.Some?
    requires FirstToken(text).text == Some(m) && SecondToken(text).text == Some(path) && ThirdToken(text) == third
    ensures ParseText(text, dateOf) ==
            Header(ParseTokens(m, path, third.text.value, Tokens(third.rest, "\n"), dateOf))
  {
    hide ScanRequest, FirstToken, SecondToken, ThirdToken, ParseTokens, Tokens;
  }

  predicate IsPath(path: string) { PathAt(path, 0, |path|) }

  predicate IsVersion(v: string) { |v| == 8 && VersionAt(v + "\r", 0) }

  /** A request line as a client prints it. */
  function RequestText(m: string, path: string, version: string, rest: string): string {
    m + (" " + (path + (" " + (version + ("\r" + rest)))))
  }

  lemma PathMoved(s: string, i: nat, path: string, j: nat)
    requires j == i + |path| <= |s| && IsPath(path)
    requires forall n :: 0 <= n < |path| ==> s[i + n] == path[n]
    ensures PathAt(s, i, j)
  {
    assert s[i + 0] == path[0];
    forall m | i < m < j
      ensures PathCharAt(s, m, j)
    {
      var n := m - i;
      assert s[i + n] == path[n];
      assert PathCharAt(path, n, |path|);
      if MarkAt(path, n, |path|) {
        forall k | m + 1 <= k < j
          ensures InClass(Alnum, s[k])
        {
          assert s[i + (k - i)] == path[k - i];
        }
      }
    }
  }

  lemma VersionMoved(s: string, i: nat, v: string)
    requires i + 9 <= |s| && IsVersion(v) && s[i + 8] == '\r'
    requires forall n :: 0 <= n < 8 ==> s[i + n] == v[n]
    ensures VersionAt(s, i)
  {
    var w := v + "\r";
    assert forall n :: 0 <= n < 5 ==> w[0 + n] == "HTTP/"[n];
    assert forall n :: 0 <= n < 8 ==> w[n] == v[n];
    assert s[i + 5] == w[5] && s[i + 6] == w[6] && s[i + 7] == w[7];
    assert forall n :: 0 <= n < 5 ==> s[i + n] == w[n];
  }

  /** A printed request line is accepted, and divided into what was printed. */
  lemma PrintedRequestScans(m: string, path: string, version: string, rest: string) returns (p: Parts)
    requires m in METHODS && IsPath(path) && IsVersion(version)
    requires rest == [] || rest[0] == '\n'
    ensures var text := RequestText(m, path, version, rest);
            && ScanRequest(text) == Some(p) && text[p.sep1] == ' ' && text[p.sep2] == ' '
            && p.Method(text) == m && p.Path(text) == path && p.Version(text) == version
            && text[p.End()..] == rest
  {
    assert |version| == 8;
    hide RequestText, FindBlank, PathAt, VersionAt, IsPath, IsVersion;
    var text := RequestText(m, path, version, rest);
    p := Parts(|m|, |m| + 1 + |path|);
    var i, j := p.sep1 + 1, p.sep2 + 1;
    RequestTextLayout(text, m, path, version, rest, i, j);
    PathMoved(text, i, path, p.sep2);
    VersionMoved(text, j, version);
    assert p.Fits(text);
    PartsAreScanned(text, p);
  }

  lemma RequestTextLayout(text: string, m: string, path: string, version: string, rest: string, i: nat, j: nat)
    requires text == RequestText(m, path, version, rest) && |version| == 8
    requires i == |m| + 1 && j == i + |path| + 1
    ensures |text| == j + 9 + |rest|
    ensures text[..|m|] == m && text[|m|] == ' '
    ensures text[i..i + |path|] == path && forall n :: 0 <= n < |path| ==> text[i + n] == path[n]
    ensures text[i + |path|] == ' '
    ensures text[j..j + 8] == version && forall n :: 0 <= n < 8 ==> text[j + n] == version[n]
    ensures text[j + 8] == '\r' && text[j + 9..] == rest
  {
    var t5 := "\r" + rest;
    var t4 := version + t5;
    var t3 := " " + t4;
    var t2 := path + t3;
    var t1 := " " + t2;
    assert text == m + t1;
    assert text[|m|..] == t1;
    assert text[i..] == t2;
    assert text[i + |path|..] == t3;
    assert text[j..] == t4;
    assert text[j + 8..] == t5;
  }

  /** Printing a request and parsing it gives back its method, path and protocol. */
  lemma RequestRoundTrip(m: string, path: string, version: string, rest: string, dateOf: DateParser)
    requires m in METHODS && IsPath(path) && IsVersion(version)
    requires rest == [] || rest[0] == '\n'
    ensures ParseText(RequestText(m, path, version, rest), dateOf) ==
            Header(ParseTokens(m, path, version, NonEmpty(Split(rest, '\n')), dateOf))
  {
    var p := PrintedRequestScans(m, path, version, rest);
    ParsedParts(RequestText(m, path, version, rest), p, dateOf);
  }

  /** The record keeps the three tokens, the path `/` standing for the default page, and its status is
      the one the protocol and the method call for. */
  lemma ParsedStatus(m: string, path: string, version: string, lines: seq<string>, dateOf: DateParser)
    requires IsPath(path)
    ensures var h := ParseTokens(m, path, version, lines, dateOf);
            && h.method_ == Some(m) && h.protocol == Some(version)
            && h.filename == Some(if path == "/" then DEFAULT_HTML_PAGE else path)
            && (h.status == BadRequest <==> version != "HTTP/1.1")
            && (h.status == NotImplemented <==> version == "HTTP/1.1" && m != "GET" && m != "HEAD")
            && h.status != InternalError
  {
    assert |path| == 1 ==> path == "/";
    var h := INITIAL.(method_ := Some(m), filename := Some(Filename(path)), protocol := Some(version), isCGI := IsCgiPath(path));
    StatusAfterLines(h.(status := Ok), lines, dateOf);
  }

  /** Header lines only ever choose between the full response, a partial one and a range error. */
  lemma {:induction false} StatusAfterLines(h: Parsed, lines: seq<string>, dateOf: DateParser)
    requires h.status in {Ok, PartialContent, RangeNotSatisfiable}
    ensures var g := ApplyLines(h, lines, dateOf);
            && g.status in {Ok, PartialContent, RangeNotSatisfiable}
            && g.method_ == h.method_ && g.filename == h.filename && g.protocol == h.protocol && g.isCGI == h.isCGI
    decreases |lines|
  {
    if lines != [] {
      StatusAfterLines(ApplyRange(ApplyDate(h, lines[0], dateOf), lines[0]), lines[1..], dateOf);
    }
  }

  const TABBED: string := "GET\t/\tHTTP/1.1\r\n"

  lemma TabbedIsAccepted()
    ensures ScanRequest(TABBED) == Some(Parts(3, 5))
  {
    var p := Parts(3, 5);
    assert TABBED[..3] == "GET";
    assert VersionAt(TABBED, 6);
    assert p.Fits(TABBED);
    PartsAreScanned(TABBED, p);
  }

  /** The parser meets a null pointer exactly when the header is accepted and either nothing but spaces
      follow its first space, or nothing but carriage returns follow its second token and the space that
      ends it. */
  lemma NullTokenIff(text: string, dateOf: DateParser)
    ensures ParseText(text, dateOf).NullToken? <==>
            && ScanRequest(text).Some?
            && var rest := After(text, ' ');
               Only(rest, ' ') || Only(After(Trim(rest, ' '), ' '), '\r')
  {
    if ScanRequest(text).Some? {
      FirstIsNoSpace(text);
      hide ScanRequest;
      SingleDelimiterToken(text, ' ');
      var rest := After(text, ' ');
      SingleDelimiterToken(rest, ' ');
      SingleDelimiterToken(After(Trim(rest, ' '), ' '), '\r');
    }
  }

  lemma FirstIsNoSpace(text: string)
    requires ScanRequest(text).Some?
    ensures text != [] && Trim(text, ' ') == text && !Only(text, ' ')
  {
    NoSpacesInParts(text, ScanRequest(text).value);
    assert text[0] != ' ';
  }

  /** Never with spaces as separators. */
  lemma SpacesGiveTokens(text: string, p: Parts, dateOf: DateParser)
    requires ScanRequest(text) == Some(p) && text[p.sep1] == ' ' && text[p.sep2] == ' '
    ensures ParseText(text, dateOf).Header?
  {
    ParsedParts(text, p, dateOf);
  }

  /** Always without a single space. */
  lemma NoSpaceNoToken(text: string, dateOf: DateParser)
    requires ScanRequest(text).Some? && ' ' !in text
    ensures ParseText(text, dateOf) == NullToken
  {
    hide ScanRequest, ParseText;
    NothingAfter(text, ' ');
    NullTokenIff(text, dateOf);
  }

  /** There are such texts, because the expression allows tabs as separators. */
  lemma TabsAreAcceptedButNotSplit(dateOf: DateParser)
    ensures Accepted(TABBED) && ParseText(TABBED, dateOf) == NullToken
  {
    hide ScanRequest, Accepted, ParseText;
    TabbedIsAccepted();
    AcceptedIffScanned(TABBED);
    NoSpaceNoToken(TABBED, dateOf);
  }

  lemma {:induction false} NothingAfter(s: string, c: char)
    requires c !in s
    ensures After(s, c) == []
  {
    if s != [] {
      NothingAfter(s[1..], c);
    }
  }

  // ---------------------------------------------------------------- rejected requests

  /** A text whose first line the expression does not match is a bad request of which nothing is known. */
  lemma RejectedIsBadRequest(text: string, dateOf: DateParser)
    requires !Accepted(text)
    ensures ParseText(text, dateOf) == Header(Parsed(None, None, None, BadRequest, 0, -2, -2, false))
  {
    AcceptedIffScanned(text);
  }

  /** Which texts are accepted, with nothing known about the tokens: all that come back as anything else than
      a bad request, and those of a protocol that is not served. */
  lemma BadRequestIff(text: string, dateOf: DateParser)
    ensures var o := ParseText(text, dateOf);
            o.Header? && o.header.status == BadRequest <==>
            !Accepted(text) || (o.Header? && o.header.protocol.Some? && o.header.protocol != Some("HTTP/1.1"))
  {
    AcceptedIffScanned(text);
    hide ScanRequest, FirstToken, SecondToken, ThirdToken, Tokens, Accepted, ParseTokens;
    if ParseText(text, dateOf).Header? && ScanRequest(text).Some? {
      var third := ThirdToken(text);
      ProtocolDecides(FirstToken(text).text.value, SecondToken(text).text.value, third.text.value,
                      Tokens(third.rest, "\n"), dateOf);
    }
  }

  lemma ProtocolDecides(m: string, path: string, protocol: string, lines: seq<string>, dateOf: DateParser)
    ensures var h := ParseTokens(m, path, protocol, lines, dateOf);
            && h.method_ == Some(m) && h.protocol == Some(protocol)
            && (h.status == BadRequest <==> protocol != "HTTP/1.1")
            && (h.status == NotImplemented <==> protocol == "HTTP/1.1" && m != "GET" && m != "HEAD")
            && h.status != InternalError
  {
    var h := INITIAL.(method_ := Some(m), filename := Some(Filename(path)), protocol := Some(protocol), isCGI := IsCgiPath(path));
    StatusAfterLines(h.(status := Ok), lines, dateOf);
  }

  /** The expression for the paths of programs, compiled with REG_ICASE. */
  function CgiRegex(): Regex { WordNoCase("/cgi-bin") }

  /** A path is taken for a program exactly when the expression matches at its start. */
  lemma CgiPathIff(path: string)
    ensures IsCgiPath(path) <==> exists m :: 0 <= m <= |path| && Matches(CgiRegex(), path, 0, m)
  {
    forall m | 0 <= m <= |path|
      ensures Matches(CgiRegex(), path, 0, m) <==> m == 8 && WordAt("/cgi-bin", path, 0)
    {
      WordNoCaseLanguage("/cgi-bin", path, 0, m);
    }
    if WordAt("/cgi-bin", path, 0) {
      assert Matches(CgiRegex(), path, 0, 8);
    }
  }

  // ---------------------------------------------------------------- what every parsed header is like

  /** The range fields are those of a Range line that is satisfiable, or is not, when the status says so, and
      unset when no Range line was seen. Header lines are not looked at when the request line will not do. */
  predicate WellParsed(h: Parsed) {
    && FitsInt32(h.byteStart) && FitsInt32(h.byteEnd)
    && (h.status in {PartialContent, RangeNotSatisfiable} ==> RangeStatus(ByteRange(h.byteStart, h.byteEnd)) == h.status)
    && (h.status !in {PartialContent, RangeNotSatisfiable} ==> h.byteStart == -2 && h.byteEnd == -2)
    && (h.status in {BadRequest, NotImplemented} ==> h.modsince == 0)
  }

  lemma {:induction false} LinesKeepWellParsed(h: Parsed, lines: seq<string>, dateOf: DateParser)
    requires WellParsed(h) && h.status !in {BadRequest, NotImplemented}
    ensures WellParsed(ApplyLines(h, lines, dateOf))
    decreases |lines|
  {
    if lines != [] {
      LinesKeepWellParsed(ApplyRange(ApplyDate(h, lines[0], dateOf), lines[0]), lines[1..], dateOf);
    }
  }

  /** Every header the parser returns is well parsed. */
  lemma ParsedIsWellParsed(text: string, dateOf: DateParser)
    ensures var o := ParseText(text, dateOf); o.Header? ==> WellParsed(o.header)
  {
    hide ParseTokens, Tokens, ScanRequest, FirstToken, SecondToken, ThirdToken;
    if ParseText(text, dateOf).Header? && ScanRequest(text).Some? {
      var third := ThirdToken(text);
      ParsedTokensWell(FirstToken(text).text.value, SecondToken(text).text.value, third.text.value,
                       Tokens(third.rest, "\n"), dateOf);
    }
  }

  lemma ParsedTokensWell(m: string, path: string, protocol: string, lines: seq<string>, dateOf: DateParser)
    ensures WellParsed(ParseTokens(m, path, protocol, lines, dateOf))
  {
    var h := INITIAL.(method_ := Some(m), filename := Some(Filename(path)), protocol := Some(protocol),
                      isCGI := IsCgiPath(path), status := Ok);
    LinesKeepWellParsed(h, lines, dateOf);
  }

  // ---------------------------------------------------------------- the parser itself

  /** One header line, in the buffer at `pointer`. */
  method ParseLine(buf: array<char>, pointer: nat, h: Parsed, dateOf: DateParser) returns (h': Parsed)
    requires Terminated(buf[..], pointer)
    ensures h' == ApplyRange(ApplyDate(h, CString(buf[..], pointer), dateOf), CString(buf[..], pointer))
  {
    hide CString, ScanRange, Decoded;
    h' := h;
    var line := ReadString(buf, pointer);
    var date := dateOf(line);
    if date.Some? {
      h' := h'.(modsince := date.value);
    }
    var found := ScanRange(line);
    if found.Some? {
      ScanIsLongestMatch(line);
      var r, overflow := DecodeRange(buf, pointer, found.value.end, line, found.value);
      h' := h'.(status := RangeNotSatisfiable, byteStart := r.start, byteEnd := r.end);
      if r.start == -1 && r.end > 0 {
        h' := h'.(status := PartialContent);
      } else if r.start >= 0 && r.end == -1 {
        h' := h'.(status := PartialContent);
      } else if r.start >= 0 && r.end > 0 && r.start < r.end {
        h' := h'.(status := PartialContent);
      }
    }
  }

  /** The header-line loop. */
  method ParseLines(st: Strtok, h0: Parsed, dateOf: DateParser) returns (h: Parsed)
    requires st.Valid()
    modifies st, st.buf
    ensures h == ApplyLines(h0, Tokens(old(st.Rest()), "\n"), dateOf)
  {
    h := h0;
    ghost var whole := ApplyLines(h0, Tokens(st.Rest(), "\n"), dateOf);
    ghost var rest := st.Rest();
    var pointer := st.Next("\n");
    while pointer.Some?
      invariant st.Valid()
      invariant pointer.Some? ==> Terminated(st.buf[..], pointer.value)
      invariant pointer.Some? ==>
                  whole == ApplyLines(h, [CString(st.buf[..], pointer.value)] + Tokens(st.Rest(), "\n"), dateOf)
      invariant pointer.None? ==> whole == h
      decreases pointer.Some?, |st.Rest()|
    {
      ghost var line := CString(st.buf[..], pointer.value);
      h := ParseLine(st.buf, pointer.value, h, dateOf);
      assert ([line] + Tokens(st.Rest(), "\n"))[1..] == Tokens(st.Rest(), "\n");
      pointer := st.Next("\n");
    }
  }

  method ParseHttpHeader(buf: array<char>, dateOf: DateParser) returns (o: ParseResult)
    requires Terminated(buf[..], 0)
    modifies buf
    ensures o == ParseText(old(CString(buf[..], 0)), dateOf)
  {
    var h := INITIAL;
    var text := ReadString(buf, 0);
    if ScanRequest(text).None? {
      return Header(h.(status := BadRequest));
    }
    var st := new Strtok(buf);
    var pointer := st.Next(" ");
    if pointer.None? { return NullToken; }
    var m := ReadString(buf, pointer.value);
    h := h.(method_ := Some(m));
    pointer := st.Next(" ");
    if pointer.None? { return NullToken; }
    var path := ReadString(buf, pointer.value);
    if |path| == 1 {
      h := h.(filename := Some(DEFAULT_HTML_PAGE));
    } else {
      h := h.(filename := Some(path));
      if WordAt("/cgi-bin", path, 0) {
        h := h.(isCGI := true);
      }
    }
    pointer := st.Next("\r");
    if pointer.None? { return NullToken; }
    var protocol := ReadString(buf, pointer.value);
    h := h.(protocol := Some(protocol));
    if protocol != "HTTP/1.1" {
      return Header(h.(status := BadRequest));
    } else if !(m == "GET" || m == "HEAD") {
      return Header(h.(status := NotImplemented));
    }
    h := ParseLines(st, h.(status := Ok), dateOf);
    return Header(h);
  }
}
