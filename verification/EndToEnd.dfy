/** From the text of a request to the message the client reads back. */
module EndToEnd {
  import opened Decimal
  import opened Tokenizer
  import opened Wire
  import opened BodyCopy
  import opened RangeHeader
  import opened RequestLine
  import opened RequestParser
  import opened ClientHandler
  import Regex
  import Response

  /** The header lines the parser visits after the request line. */
  function HeaderLines(rest: string): seq<string> { NonEmpty(Split(rest, '\n')) }

  lemma ParsedOk(path: string, lines: seq<string>, m: string, dateOf: DateParser) returns (h: Parsed)
    requires IsPath(path) && m in ["GET", "HEAD"]
    ensures h.status == Ok && h.byteStart == -2 && h.byteEnd == -2 && h.modsince == 0
    ensures h.method_ == Some(m) && h.isCGI == IsCgiPath(path)
    ensures ParseTokens(m, path, "HTTP/1.1", lines, dateOf) == ApplyLines(h, lines, dateOf)
  {
    h := INITIAL.(method_ := Some(m), filename := Some(Filename(path)), protocol := Some("HTTP/1.1"),
                  isCGI := IsCgiPath(path), status := Ok);
  }

  lemma HttpVersion()
    ensures IsVersion("HTTP/1.1")
  {
    var v := "HTTP/1.1" + "\r";
    assert v[5] == '1' && v[6] == '.' && v[7] == '1' && v[8] == '\r';
  }

  // ---------------------------------------------------------------- requests without ranges and dates

  /** A text whose first line the expression does not match is answered with a 400, and with nothing but
      the first lines of a header, whatever file there may be. */
  lemma RejectedRequest(text: string, root: string, file: Option<Response.File>, now: string, turns: seq<Turn>,
                        dateOf: DateParser) returns (h: Parsed)
    requires !Accepted(text) && Response.IsDate(now)
    ensures ParseText(text, dateOf) == Header(h) && !Decide(h, file).Cgi?
    ensures var wire := WireOf(h, root, file, now, turns);
            && Response.DeclaredCode(wire) == Some(400)
            && ReadMessage(wire).Some? && |ReadMessage(wire).value.lines| == 3 && ReadMessage(wire).value.body == []
  {
    h := Parsed(None, None, None, BadRequest, 0, -2, -2, false);
    RejectedIsBadRequest(text, dateOf);
    hide Accepted, ParseText;
    CodeIff(h, root, file, now, turns);
    hide WireOf, Decide, Response.DeclaredCode;
    BareResponseRead(h, root, file, now, turns);
  }

  /** No line changes what the request line says or asks for. */
  predicate Neutral(lines: seq<string>, dateOf: DateParser) {
    forall i :: 0 <= i < |lines| ==> !IsRangeLine(lines[i]) && dateOf(lines[i]).None?
  }

  /** What a printed request becomes when its header lines are neither ranges nor dates. */
  lemma NeutralRequestParsed(m: string, path: string, version: string, rest: string, dateOf: DateParser) returns (h: Parsed)
    requires m in METHODS && IsPath(path) && IsVersion(version) && (rest == [] || rest[0] == '\n')
    requires Neutral(HeaderLines(rest), dateOf)
    ensures ParseText(RequestText(m, path, version, rest), dateOf) == Header(h)
    ensures h.status == if version != "HTTP/1.1" then BadRequest else if m !in ["GET", "HEAD"] then NotImplemented else Ok
    ensures h.modsince == 0 && h.method_ == Some(m) && h.isCGI == IsCgiPath(path) && h.filename == Some(Filename(path))
    ensures WellParsed(h)
  {
    var lines := HeaderLines(rest);
    RequestRoundTrip(m, path, version, rest, dateOf);
    h := ParseTokens(m, path, version, lines, dateOf);
    var h0 := INITIAL.(method_ := Some(m), filename := Some(Filename(path)), protocol := Some(version),
                       isCGI := IsCgiPath(path), status := Ok);
    UnaffectedFields(h0, lines, dateOf);
    ParsedTokensWell(m, path, version, lines, dateOf);
  }

  /** From the text of such a request to the code the client reads: which one, both ways, in terms of the
      request line and the file. */
  lemma CodeOfRequest(m: string, path: string, version: string, rest: string, root: string, file: Option<Response.File>,
                      now: string, turns: seq<Turn>, dateOf: DateParser) returns (h: Parsed)
    requires m in METHODS && IsPath(path) && IsVersion(version) && (rest == [] || rest[0] == '\n')
    requires Neutral(HeaderLines(rest), dateOf)
    requires file.Some? && file.value.kind == Response.Regular && IsCgiPath(path) ==> !file.value.executable
    ensures ParseText(RequestText(m, path, version, rest), dateOf) == Header(h) && !Decide(h, file).Cgi?
    ensures var code := Response.DeclaredCode(WireOf(h, root, file, now, turns));
            var served := version == "HTTP/1.1" && m in ["GET", "HEAD"];
            && (code == Some(400) <==> version != "HTTP/1.1")
            && (code == Some(501) <==> version == "HTTP/1.1" && m !in ["GET", "HEAD"])
            && (code == Some(404) <==> served && (file.None? || file.value.kind == Response.Special))
            && (code == Some(301) <==> served && file.Some? && file.value.kind == Response.Directory)
            && (code == Some(403) <==> served && file.Some? && file.value.kind == Response.Regular && IsCgiPath(path))
            && (code == Some(200) <==> served && file.Some? && file.value.kind == Response.Regular && !IsCgiPath(path))
  {
    h := NeutralRequestParsed(m, path, version, rest, dateOf);
    hide ParseText, RequestText, METHODS, IsVersion, IsPath, IsCgiPath, Neutral;
    CodeIff(h, root, file, now, turns);
  }

  /** A GET of a directory names the directory in its answer, with a slash behind it, if the name is short
      enough. */
  lemma DirectoryRequest(path: string, rest: string, root: string, file: Response.File, now: string, turns: seq<Turn>,
                         dateOf: DateParser) returns (h: Parsed)
    requires IsPath(path) && (rest == [] || rest[0] == '\n') && Neutral(HeaderLines(rest), dateOf)
    requires file.kind == Response.Directory && Response.IsDate(now) && '\n' !in root
    ensures ParseText(RequestText("GET", path, "HTTP/1.1", rest), dateOf) == Header(h) && !Decide(h, Some(file)).Cgi?
    ensures var m, name := ReadMessage(WireOf(h, root, Some(file), now, turns)), root + Filename(path);
            && (m.Some? <==> |name| < 987)
            && (m.Some? ==> FieldOf(m.value.lines, Response.LOCATION_NAME) == Some(name + "/"))
  {
    HttpVersion();
    h := NeutralRequestParsed("GET", path, "HTTP/1.1", rest, dateOf);
    NoNewlineInPath(path);
    assert FilePath(root, h) == root + Filename(path);
    hide ParseText, RequestText, WireOf, Decide, IsPath, Neutral, FilePath, Filename, IsVersion, IsCgiPath, ReadMessage;
    Response.NoNewlineInBoth(root, Filename(path));
    RedirectResponseRead(h, root, Some(file), now, turns);
  }

  lemma NoNewlineInPath(path: string)
    requires IsPath(path)
    ensures '\n' !in path && '\n' !in Filename(path)
  {
    assert '\n' !in DEFAULT_HTML_PAGE;
    forall i | 0 <= i < |path|
      ensures path[i] != '\n'
    {
      if i > 0 {
        assert PathCharAt(path, i, |path|);
      }
    }
  }

  /** Header lines that are neither ranges nor dates leave a plain request. */
  lemma PlainRequestParsed(path: string, rest: string, dateOf: DateParser) returns (h: Parsed)
    requires IsPath(path) && (rest == [] || rest[0] == '\n')
    requires forall i :: 0 <= i < |HeaderLines(rest)| ==>
               !IsRangeLine(HeaderLines(rest)[i]) && dateOf(HeaderLines(rest)[i]).None?
    ensures ParseText(RequestText("GET", path, "HTTP/1.1", rest), dateOf) == Header(h)
    ensures h.status == Ok && h.byteStart == -2 && h.byteEnd == -2 && h.modsince == 0
    ensures h.method_ == Some("GET") && h.isCGI == IsCgiPath(path)
  {
    HttpVersion();
    var lines := HeaderLines(rest);
    RequestRoundTrip("GET", path, "HTTP/1.1", rest, dateOf);
    var h0 := ParsedOk(path, lines, "GET", dateOf);
    UnaffectedFields(h0, lines, dateOf);
    h := ApplyLines(h0, lines, dateOf);
  }

  /** A GET of a regular file that is not a CGI path, with any header lines that are neither ranges nor
      dates, once its copy ends: the client reads back the file, framed by its length, exactly when that has at most eight
      digits. */
  lemma FullRequest(path: string, rest: string, root: string, file: Response.File, now: string, turns: seq<Turn>,
                    dateOf: DateParser) returns (h: Parsed)
    requires IsPath(path) && !IsCgiPath(path) && (rest == [] || rest[0] == '\n')
    requires forall i :: 0 <= i < |HeaderLines(rest)| ==>
               !IsRangeLine(HeaderLines(rest)[i]) && dateOf(HeaderLines(rest)[i]).None?
    requires file.kind == Response.Regular && Response.IsDate(now) && '\n' !in file.modified
    requires file.readable && BodyRun(file.content, -2, -2, turns).status == Done
    ensures ParseText(RequestText("GET", path, "HTTP/1.1", rest), dateOf) == Header(h)
    ensures Decide(h, Some(file)) == Entity(Response.STATUS_LIST[0], true)
    ensures FramedAs(WireOf(h, root, Some(file), now, turns), file.content) <==> |file.content| < 100000000
  {
    hide ParseText, RequestText, HeaderLines, WireOf, FramedAs, BodyRun, IsPath;
    h := PlainRequestParsed(path, rest, dateOf);
    FullResponseAgrees(h, root, file, now, turns);
  }

  /** The lines after the request line end, as far as ranges go, in a Range line with the fields `a` and
      `b`, each a number of at most nine digits or absent. */
  predicate LastRange(lines: seq<string>, i: nat, line: LeadLine, a: Option<nat>, b: Option<nat>) {
    && i < |lines| && (forall j :: i < j < |lines| ==> !IsRangeLine(lines[j]))
    && line.Fits() && lines[i] == RangeLine(line.lead, Field(a), Field(b), line.trail)
    && (a.Some? || b.Some?)
    && (a.Some? ==> a.value < Pow10(9)) && (b.Some? ==> b.value < Pow10(9))
  }

  /** What stands before and after the numbers of a Range line. */
  datatype LeadLine = LeadLine(lead: string, colon: nat, unit: nat, trail: string) {
    predicate Fits() {
      LeadFits(lead, colon, unit) && |lead| == unit + 6 && (trail == [] || !IsDigit(trail[0]))
    }
  }

  const LEAD: LeadLine := LeadLine("Range: bytes=", 5, 7, "\r")

  /** What follows the request line of a request with one Range line. */
  function RangeRest(a: Option<nat>, b: Option<nat>): (rest: string)
    ensures rest != []
  {
    "\n" + RangeLine(LEAD.lead, Field(a), Field(b), LEAD.trail)
  }

  /** Every range with at least one number, of at most nine digits, can be asked for: the line a client
      prints for it is the last Range line of what follows its request line. */
  lemma PrintedRangeIsLast(a: Option<nat>, b: Option<nat>)
    requires a.Some? || b.Some?
    requires a.Some? ==> a.value < Pow10(9)
    requires b.Some? ==> b.value < Pow10(9)
    ensures LastRange(HeaderLines(RangeRest(a, b)), 0, LEAD, a, b) && RangeRest(a, b)[0] == '\n'
  {
    var line := RangeLine(LEAD.lead, Field(a), Field(b), LEAD.trail);
    LeadIsFit();
    PrintedFieldValue(a);
    PrintedFieldValue(b);
    NoNewlineInRange(LEAD.lead, Field(a), Field(b), LEAD.trail);
    SplitPiece("", line, '\n');
    SplitPiece(line, "", '\n');
    assert "\n" + line == "" + ['\n'] + line;
    var pieces := [""] + [line];
    assert HeaderLines("\n" + line) == NonEmpty(pieces);
    assert pieces[1..] == [line] && [line][1..] == [];
    assert NonEmpty([line]) == [line] + NonEmpty([]);
    assert NonEmpty(pieces) == [] + NonEmpty([line]);
  }

  lemma LeadIsFit()
    ensures LEAD.Fits() && '\n' !in LEAD.lead && '\n' !in LEAD.trail
  {
    assert forall n :: 0 <= n < 5 ==> Regex.Lower(LEAD.lead[0 + n]) == "range"[n];
    assert forall n :: 0 <= n < 6 ==> Regex.Lower(LEAD.lead[7 + n]) == "bytes="[n];
  }

  lemma NoNewlineInRange(lead: string, first: string, second: string, trail: string)
    requires '\n' !in lead && '\n' !in trail && AllDigits(first) && AllDigits(second)
    ensures '\n' !in RangeLine(lead, first, second, trail) && RangeLine(lead, first, second, trail) != []
  {
  }

  /** The last Range line decides the range and the status of the whole request. */
  lemma RangeRequestParsed(m: string, path: string, rest: string, i: nat, line: LeadLine,
                           a: Option<nat>, b: Option<nat>, dateOf: DateParser) returns (h: Parsed)
    requires m in ["GET", "HEAD"] && IsPath(path) && (rest == [] || rest[0] == '\n')
    requires LastRange(HeaderLines(rest), i, line, a, b)
    ensures ParseText(RequestText(m, path, "HTTP/1.1", rest), dateOf) == Header(h)
    ensures h.method_ == Some(m) && h.byteStart == FieldOrAbsent(a) && h.byteEnd == FieldOrAbsent(b)
    ensures h.status == RangeStatus(ByteRange(h.byteStart, h.byteEnd)) && WellParsed(h)
  {
    HttpVersion();
    var lines := HeaderLines(rest);
    RequestRoundTrip(m, path, "HTTP/1.1", rest, dateOf);
    var h0 := ParsedOk(path, lines, m, dateOf);
    RangeRoundTrip(line.lead, line.colon, line.unit, a, b, line.trail);
    assert RangeOf(lines[i]) == Some(ByteRange(FieldOrAbsent(a), FieldOrAbsent(b)));
    LastRangeLineWins(h0, lines, i, dateOf);
    h := ApplyLines(h0, lines, dateOf);
    LinesKeepWellParsed(h0, lines, dateOf);
    UnaffectedFields(h0, lines, dateOf);
  }

  /** A GET or HEAD of a regular file whose last Range line asks for `bytes=k-`, with k inside the file, once
      its copy ends: the client reads back the rest of the file, framed by its length and named by the
      content range, exactly when those numbers fit the buffers they are printed into. Other header lines
      make no difference. */
  lemma OpenRangeRequest(m: string, path: string, rest: string, i: nat, line: LeadLine, k: nat, root: string,
                         file: Response.File, now: string, turns: seq<Turn>, dateOf: DateParser)
    returns (h: Parsed)
    requires m in ["GET", "HEAD"] && IsPath(path) && (rest == [] || rest[0] == '\n')
    requires LastRange(HeaderLines(rest), i, line, Some(k), None)
    requires k < |file.content| && file.kind == Response.Regular
    requires Response.IsDate(now) && '\n' !in file.modified
    requires file.readable && BodyRun(file.content, k, -1, turns).status == Done
    ensures ParseText(RequestText(m, path, "HTTP/1.1", rest), dateOf) == Header(h)
    ensures Decide(h, Some(file)) == Entity(Response.STATUS_LIST[1], true)
    ensures h.byteStart == k && h.byteEnd == -1
    ensures RangeFramedAs(WireOf(h, root, Some(file), now, turns), file.content[k..], k, |file.content|)
            <==> NumbersFit(k, |file.content|)
  {
    hide ParseText, RequestText, LastRange, WireOf, RangeFramedAs, BodyRun, NumbersFit;
    h := RangeRequestParsed(m, path, rest, i, line, Some(k), None, dateOf);
    OpenRangeAgrees(h, root, file, now, turns, k);
  }

  /** The same for `bytes=k-e` with an end inside the file: the client can rely on the response exactly when
      `e` is the size of the file, which is one more than the position of its last byte. */
  lemma ExplicitRangeRequest(m: string, path: string, rest: string, i: nat, line: LeadLine, k: nat, e: nat,
                             root: string, file: Response.File, now: string, dateOf: DateParser)
    returns (h: Parsed)
    requires m in ["GET", "HEAD"] && IsPath(path) && (rest == [] || rest[0] == '\n')
    requires LastRange(HeaderLines(rest), i, line, Some(k), Some(e))
    requires k < e <= |file.content| && file.kind == Response.Regular
    requires Response.IsDate(now) && '\n' !in file.modified && file.readable
    ensures ParseText(RequestText(m, path, "HTTP/1.1", rest), dateOf) == Header(h)
    ensures Decide(h, Some(file)) == Entity(Response.STATUS_LIST[1], true)
    ensures AlwaysFramed(h, root, file, now) <==> e == |file.content| && NumbersFit(k, |file.content|)
  {
    hide ParseText, RequestText, LastRange, AlwaysFramed, NumbersFit;
    h := RangeRequestParsed(m, path, rest, i, line, Some(k), Some(e), dateOf);
    ExplicitEndAlwaysAgreesIff(h, root, file, now, k);
  }

  /** And with a start inside the file and any end: the response can end at all exactly when the end is
      inside the file too. */
  lemma ExplicitRangeEndsIff(m: string, path: string, rest: string, i: nat, line: LeadLine, k: nat, e: nat,
                             file: Response.File, dateOf: DateParser)
    returns (h: Parsed)
    requires m in ["GET", "HEAD"] && IsPath(path) && (rest == [] || rest[0] == '\n')
    requires LastRange(HeaderLines(rest), i, line, Some(k), Some(e))
    requires k < e && k < |file.content| && CanRead(file)
    ensures ParseText(RequestText(m, path, "HTTP/1.1", rest), dateOf) == Header(h)
    ensures Decide(h, Some(file)) == Entity(Response.STATUS_LIST[1], true)
    ensures (exists turns :: CopyFinishes(h, file, turns)) <==> e <= |file.content|
  {
    hide ParseText, RequestText, LastRange;
    h := RangeRequestParsed(m, path, rest, i, line, Some(k), Some(e), dateOf);
    if e <= |file.content| {
      var turns := StopsAtEnd(h, file, k);
    } else {
      forall turns
        ensures !CopyFinishes(h, file, turns)
      {
        LostNeverDone(file.content, turns, k, k, e);
      }
    }
  }

  /** A HEAD request with a Range line is sent part of the file exactly when the range is satisfiable and
      its start is inside the file. */
  lemma HeadRangeRequest(path: string, rest: string, i: nat, line: LeadLine, a: Option<nat>, b: Option<nat>,
                         file: Response.File, dateOf: DateParser)
    returns (h: Parsed)
    requires IsPath(path) && (rest == [] || rest[0] == '\n')
    requires LastRange(HeaderLines(rest), i, line, a, b)
    ensures ParseText(RequestText("HEAD", path, "HTTP/1.1", rest), dateOf) == Header(h)
    ensures SendsBody(h, file) <==>
            && CanRead(file) && a.Some? && a.value < |file.content|
            && (b.Some? ==> a.value < b.value)
  {
    hide ParseText, RequestText, LastRange, SendsBody;
    h := RangeRequestParsed("HEAD", path, rest, i, line, a, b, dateOf);
    assert a.Some? || b.Some? by { LastRangeHasNumber(HeaderLines(rest), i, line, a, b); }
    HeadGetsBodyIff(h, file);
  }

  lemma LastRangeHasNumber(lines: seq<string>, i: nat, line: LeadLine, a: Option<nat>, b: Option<nat>)
    requires LastRange(lines, i, line, a, b)
    ensures a.Some? || b.Some?
  {
  }

  // ---------------------------------------------------------------- requests the code does not serve well

  /** A request for the default page with one Range line. */
  function RangeRequest(m: string, a: Option<nat>, b: Option<nat>): string {
    RequestText(m, "/", "HTTP/1.1", RangeRest(a, b))
  }

  /** What such requests look like. */
  lemma RangeRequestTexts(m: string)
    ensures RangeRequest(m, Some(0), Some(1)) == m + " / HTTP/1.1\r" + "\nRange: bytes=0-1\r"
    ensures RangeRequest(m, Some(0), Some(9)) == m + " / HTTP/1.1\r" + "\nRange: bytes=0-9\r"
    ensures RangeRequest(m, Some(0), None) == m + " / HTTP/1.1\r" + "\nRange: bytes=0-\r"
  {
    RangeRestTexts();
    hide RangeRest, RequestText;
    RequestTextIs(m, RangeRest(Some(0), Some(1)));
    RequestTextIs(m, RangeRest(Some(0), Some(9)));
    RequestTextIs(m, RangeRest(Some(0), None));
  }

  lemma RequestTextIs(m: string, rest: string)
    ensures RequestText(m, "/", "HTTP/1.1", rest) == m + " / HTTP/1.1\r" + rest
  {
    assert " " + ("/" + (" " + ("HTTP/1.1" + "\r"))) == " / HTTP/1.1\r";
  }

  lemma RangeRestTexts()
    ensures RangeRest(Some(0), Some(1)) == "\nRange: bytes=0-1\r"
    ensures RangeRest(Some(0), Some(9)) == "\nRange: bytes=0-9\r"
    ensures RangeRest(Some(0), None) == "\nRange: bytes=0-\r"
  {
    assert Print(0) == "0" && Print(1) == "1" && Print(9) == "9";
  }

  lemma RootIsPath()
    ensures IsPath("/")
  {
  }

  function PlainFile(content: string): Response.File {
    Response.File(Response.Regular, content, 0, "", false, true)
  }

  /** `HEAD` with `bytes=0-1`: the answer has a body. */
  lemma HeadIsSentBody(dateOf: DateParser) returns (h: Parsed)
    ensures ParseText(RangeRequest("HEAD", Some(0), Some(1)), dateOf) == Header(h)
    ensures SendsBody(h, PlainFile("abc"))
  {
    RootIsPath();
    PrintedRangeIsLast(Some(0), Some(1));
    hide ParseText, SendsBody, LastRange, RangeRest, RequestText;
    h := HeadRangeRequest("/", RangeRest(Some(0), Some(1)), 0, LEAD, Some(0), Some(1), PlainFile("abc"), dateOf);
  }

  /** `bytes=0-1` of a file of three bytes: the length the header announces is not always that of the body. */
  lemma ExplicitEndIsNotFramed(root: string, now: string, dateOf: DateParser) returns (h: Parsed)
    requires Response.IsDate(now)
    ensures ParseText(RangeRequest("GET", Some(0), Some(1)), dateOf) == Header(h)
    ensures Decide(h, Some(PlainFile("abc"))) == Entity(Response.STATUS_LIST[1], true)
    ensures !AlwaysFramed(h, root, PlainFile("abc"), now)
  {
    RootIsPath();
    PrintedRangeIsLast(Some(0), Some(1));
    hide ParseText, AlwaysFramed, LastRange, RangeRest, RequestText;
    h := ExplicitRangeRequest("GET", "/", RangeRest(Some(0), Some(1)), 0, LEAD, 0, 1, root, PlainFile("abc"), now, dateOf);
  }

  /** `bytes=0-9` of a file of three bytes: the response never ends. */
  lemma EndBeyondFileNeverEnds(dateOf: DateParser) returns (h: Parsed)
    ensures ParseText(RangeRequest("GET", Some(0), Some(9)), dateOf) == Header(h)
    ensures Decide(h, Some(PlainFile("abc"))) == Entity(Response.STATUS_LIST[1], true)
    ensures forall turns :: !CopyFinishes(h, PlainFile("abc"), turns)
  {
    RootIsPath();
    PrintedRangeIsLast(Some(0), Some(9));
    hide ParseText, LastRange, RangeRest, RequestText, CopyFinishes;
    h := ExplicitRangeEndsIff("GET", "/", RangeRest(Some(0), Some(9)), 0, LEAD, 0, 9, PlainFile("abc"), dateOf);
  }

  /** `bytes=0-` of a file of ten thousand bytes: the copy ends, but no client finds its bytes framed. */
  lemma LongOpenRangeIsNotFramed(root: string, now: string, dateOf: DateParser)
    returns (h: Parsed, file: Response.File, turns: seq<Turn>)
    requires Response.IsDate(now)
    ensures |file.content| == 10000
    ensures ParseText(RangeRequest("GET", Some(0), None), dateOf) == Header(h)
    ensures Decide(h, Some(file)) == Entity(Response.STATUS_LIST[1], true)
    ensures CopyFinishes(h, file, turns) && !RangeFramedAs(WireOf(h, root, Some(file), now, turns), file.content, 0, 10000)
  {
    var content := LongContent();
    file := PlainFile(content);
    turns := CopiedByBytes(content);
    RootIsPath();
    PrintedRangeIsLast(Some(0), None);
    assert content[0..] == content;
    hide ParseText, LastRange, RangeRest, RequestText, RangeFramedAs, WireOf, BodyRun;
    h := OpenRangeRequest("GET", "/", RangeRest(Some(0), None), 0, LEAD, 0, root, file, now, turns, dateOf);
  }

  lemma LongContent() returns (content: string)
    ensures |content| == 10000
  {
    content := seq(10000, _ => 'x');
  }

  lemma CopiedByBytes(content: string) returns (turns: seq<Turn>)
    ensures BodyRun(content, 0, -1, turns).status == Done
  {
    turns := LosingTurns(0, |content|);
    ByteTurnsStopAtLimit(content, 0, |content|);
  }
}
