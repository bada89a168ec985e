/** handle_client: from a parsed request to the bytes on the socket and the size in the log. */
module ClientHandler {
  import opened Decimal
  import opened Sequences
  import opened Tokenizer
  import opened Wire
  import opened SocketIo
  import opened BodyCopy
  import opened RequestLine
  import opened RequestParser
  import opened Response
  import R = RangeHeader

  /** What handle_client decides to do: a bare header, a redirect, a header describing the file with or
      without its content, or the hand-over to a CGI program. */
  datatype Plan =
    | Plain(status: StatusEntry)
    | Redirect
    | Entity(status: StatusEntry, withBody: bool)
    | Cgi

  /** The checks, in the order in which they are made. */
  function Decide(h: Parsed, file: Option<File>): Plan {
    if h.status == R.InternalError then Plain(STATUS_LIST[8])
    else if h.status == R.BadRequest then Plain(STATUS_LIST[4])
    else if h.status == R.NotImplemented then Plain(STATUS_LIST[9])
    else if file.None? then Plain(STATUS_LIST[6])
    else DecideFile(h, file.value)
  }

  function DecideFile(h: Parsed, file: File): Plan {
    if h.status == R.RangeNotSatisfiable then Plain(STATUS_LIST[7])
    else if h.status == R.PartialContent then
      if h.byteStart >= |file.content| then Plain(STATUS_LIST[7]) else Entity(STATUS_LIST[1], true)
    else if file.kind == Special then Plain(STATUS_LIST[6])
    else if file.kind == Directory then Redirect
    else if h.modsince != 0 && h.modsince - file.mtime >= 0 then Plain(STATUS_LIST[3])
    else if h.isCGI then (if file.executable then Cgi else Plain(STATUS_LIST[5]))
    else Entity(STATUS_LIST[0], h.method_ == Some("GET"))
  }

  /** The header sent for a plan. */
  function PlanFields(plan: Plan, h: Parsed, filepath: string, file: Option<File>): Fields
    requires plan == Decide(h, file) && !plan.Cgi?
  {
    match plan
    case Plain(s) => Bare(s)
    case Redirect => RedirectFields(filepath)
    case Entity(s, _) => EntityFields(s, filepath, file.value, h.byteStart, h.byteEnd)
  }

  /** A directory can be opened, but not read: its copy fails in the first turn. */
  predicate CanRead(file: File) { file.readable && file.kind != Directory }

  function PlanBody(plan: Plan, h: Parsed, file: Option<File>, turns: seq<Turn>): Copy
    requires plan == Decide(h, file)
  {
    if !(plan.Entity? && plan.withBody) then Copy([], Done)
    else if CanRead(file.value) then BodyRun(file.value.content, h.byteStart, h.byteEnd, turns)
    else Copy([], Aborted)
  }

  /** stat has filled in the size of the file that write_log adds. */
  predicate Statted(h: Parsed, file: Option<File>) {
    file.Some? && h.status !in {R.InternalError, R.BadRequest, R.NotImplemented}
  }

  /** The size of the body, as write_log reckons it. */
  function LoggedBody(size: nat, start: int, end: int): int {
    if IsPartial(start, end) then size - start else size
  }

  /** The size write_log records. */
  function LoggedSize(header: string, size: nat, start: int, end: int): int {
    Wrap32(|header| + LoggedBody(size, start, end))
  }

  function FilePath(root: string, h: Parsed): string {
    root + (match h.filename case None => "" case Some(f) => f)
  }

  function PlanHeader(plan: Plan, h: Parsed, root: string, file: Option<File>, now: string): string
    requires plan == Decide(h, file) && !plan.Cgi?
  {
    HeaderText(PlanFields(plan, h, FilePath(root, h), file), now)
  }

  method BuildHeader(plan: Plan, h: Parsed, root: string, file: Option<File>, now: string) returns (header: string)
    requires plan == Decide(h, file) && !plan.Cgi?
    ensures header == PlanHeader(plan, h, root, file, now)
  {
    var filepath := FilePath(root, h);
    var data := new ResponseHeader(if plan.Redirect? then STATUS_LIST[2] else plan.status);
    if plan.Redirect? {
      data.fields := data.fields.(contentLocation := Some(Snprintf(LOCATION_NAME + filepath + "/" + CRLF, 1000)));
    } else if plan.Entity? {
      data.CreateResponseHeader(filepath, file.value, h.byteStart, h.byteEnd);
    }
    header := data.CreateResponseHeaderString(now);
  }

  /** The message on the wire when the header is sent whole. */
  function WireOf(h: Parsed, root: string, file: Option<File>, now: string, turns: seq<Turn>): string
    requires !Decide(h, file).Cgi?
  {
    var plan := Decide(h, file);
    PlanHeader(plan, h, root, file, now) + PlanBody(plan, h, file, turns).sent
  }

  /** write_response_header: as much of the header is sent as the socket takes. */
  method WriteResponseHeader(conn: Connection, header: string, timeout: int) returns (retcode: int)
    modifies conn
    ensures var d := Min(|header|, Offered(old(conn.script), timeout != 0, timeout != 0));
            && conn.outgoing == old(conn.outgoing) + header[..d]
            && (retcode == -1 ==> d < |header|)
  {
    var buffer := new char[|header|](i requires 0 <= i < |header| => header[i]);
    if |header| > 0 {
      OfferIsDelivered(conn.script, |header|, timeout);
    }
    var res := conn.WriteToSocket(buffer, |header|, timeout);
    ghost var d := Min(|header|, Offered(old(conn.script), timeout != 0, timeout != 0));
    assert buffer[..d] == header[..d];
    return if res < 0 then -1 else 0;
  }

  lemma EntityHasFile(h: Parsed, file: Option<File>)
    ensures Decide(h, file).Entity? ==> file.Some?
  {
  }

  /** Sends the header through write_to_socket, then the body, if any, through the copy loop. CGI requests
      are handed to a child process. */
  method HandleClient(conn: Connection, h: Parsed, root: string, file: Option<File>, now: string,
                      turns: seq<Turn>, timeout: int)
    returns (logged: Option<int>, status: CopyStatus)
    modifies conn
    ensures Decide(h, file).Cgi? ==> logged == None && conn.outgoing == old(conn.outgoing)
    ensures !Decide(h, file).Cgi? ==>
              var plan := Decide(h, file);
              var header, body := PlanHeader(plan, h, root, file, now), PlanBody(plan, h, file, turns);
              var offer := Offered(old(conn.script), timeout != 0, timeout != 0);
              && status == body.status
              && conn.outgoing == old(conn.outgoing) + header[..Min(|header|, offer)] + body.sent
              && (offer >= |header| ==> conn.outgoing == old(conn.outgoing) + WireOf(h, root, file, now, turns))
              && logged == if Statted(h, file) then Some(LoggedSize(header, |file.value.content|, h.byteStart, h.byteEnd))
                           else None
  {
    logged, status := None, Done;
    EntityHasFile(h, file);
    hide Decide, PlanFields, HeaderText, LoggedSize, BodyRun, Offered;
    var plan := Decide(h, file);
    if plan.Cgi? {
      return;
    }
    var header := BuildHeader(plan, h, root, file, now);
    var retcode := WriteResponseHeader(conn, header, timeout);
    if Statted(h, file) {
      logged := Some(LoggedSize(header, |file.value.content|, h.byteStart, h.byteEnd));
    }
    if plan.Entity? && plan.withBody {
      status := WriteResponseBody(conn, CanRead(file.value), file.value.content, h.byteStart, h.byteEnd, turns);
    }
  }

  // ---------------------------------------------------------------- which answer a request gets

  /** The file is no newer than the date the client asked about. */
  predicate Unmodified(h: Parsed, file: File) { h.modsince != 0 && h.modsince >= file.mtime }

  /** A program that may be executed answers for itself. */
  predicate GoesToProgram(h: Parsed, file: Option<File>) {
    && file.Some? && h.status == R.Ok && file.value.kind == Regular && !Unmodified(h, file.value)
    && h.isCGI && file.value.executable
  }

  lemma CgiIff(h: Parsed, file: Option<File>)
    ensures Decide(h, file).Cgi? <==> GoesToProgram(h, file)
  {
  }

  /** The code the client reads of the answer to a request that is not handed to a program, whatever happens
      to the body: which one it is, both ways, in terms of the request and the file. */
  lemma CodeIff(h: Parsed, root: string, file: Option<File>, now: string, turns: seq<Turn>)
    requires !GoesToProgram(h, file)
    ensures !Decide(h, file).Cgi?
    ensures var code := DeclaredCode(WireOf(h, root, file, now, turns));
            var ok := file.Some? && h.status == R.Ok;
            && (code == Some(500) <==> h.status == R.InternalError)
            && (code == Some(400) <==> h.status == R.BadRequest)
            && (code == Some(501) <==> h.status == R.NotImplemented)
            && (code == Some(404) <==>
                  || (file.None? && h.status in {R.Ok, R.PartialContent, R.RangeNotSatisfiable})
                  || (ok && file.value.kind == Special))
            && (code == Some(416) <==>
                  file.Some? && (h.status == R.RangeNotSatisfiable
                                 || (h.status == R.PartialContent && h.byteStart >= |file.value.content|)))
            && (code == Some(206) <==> file.Some? && h.status == R.PartialContent && h.byteStart < |file.value.content|)
            && (code == Some(301) <==> ok && file.value.kind == Directory)
            && (code == Some(304) <==> ok && file.value.kind == Regular && Unmodified(h, file.value))
            && (code == Some(403) <==>
                  ok && file.value.kind == Regular && !Unmodified(h, file.value) && h.isCGI && !file.value.executable)
            && (code == Some(200) <==> ok && file.value.kind == Regular && !Unmodified(h, file.value) && !h.isCGI)
  {
    hide DeclaredCode, WireOf;
    CgiIff(h, file);
    PlanCodeIsRead(h, root, file, now, turns);
  }

  /** The status a plan answers with. */
  function PlanStatus(plan: Plan): StatusEntry
    requires !plan.Cgi?
  {
    match plan
    case Plain(s) => s
    case Redirect => STATUS_LIST[2]
    case Entity(s, _) => s
  }

  lemma PlanCodeIsRead(h: Parsed, root: string, file: Option<File>, now: string, turns: seq<Turn>)
    requires !Decide(h, file).Cgi?
    ensures DeclaredCode(WireOf(h, root, file, now, turns)) == Some(PlanStatus(Decide(h, file)).code)
  {
    var plan := Decide(h, file);
    var f := PlanFields(plan, h, FilePath(root, h), file);
    assert f.status == PlanStatus(plan) && f.status in STATUS_LIST;
    hide HeaderText, DeclaredCode, PlanBody, PlanFields, Decide, STATUS_LIST, PlanStatus;
    CodeIsRead(f, now, PlanBody(plan, h, file, turns).sent);
  }

  /** A response that describes no file and is no redirection has the three first lines and no more. */
  lemma BareResponseRead(h: Parsed, root: string, file: Option<File>, now: string, turns: seq<Turn>)
    requires !GoesToProgram(h, file) && !Decide(h, file).Cgi? && IsDate(now)
    requires DeclaredCode(WireOf(h, root, file, now, turns)) !in {Some(200), Some(206), Some(301)}
    ensures var m := ReadMessage(WireOf(h, root, file, now, turns));
            && m.Some? && |m.value.lines| == 3 && m.value.body == [] && DeclaredLength(m.value) == None
            && FieldOf(m.value.lines, SERVER_NAME) == Some("Tinyweb 1.1") && FieldOf(m.value.lines, DATE_NAME) == Some(now)
  {
    CodeIff(h, root, file, now, turns);
    var plan := Decide(h, file);
    var status := PlanFields(plan, h, FilePath(root, h), file).status;
    assert plan == Plain(status) && status in STATUS_LIST;
    hide DeclaredCode;
    assert WireOf(h, root, file, now, turns) == HeaderText(Bare(status), now);
    hide WireOf, HeaderText, STATUS_LIST;
    BareRead(status, now);
    var first := FirstLines(status, now);
    FirstLinesAreFirst(status, now);
    assert first + [] == first;
    hide FirstLines;
    FirstFields(first, now, []);
    NamesDiffer();
    FieldBehind(first, now, [], LENGTH_NAME);
  }

  /** A directory is answered with its own path and a slash, if that fits the buffer it is printed into. */
  lemma RedirectResponseRead(h: Parsed, root: string, file: Option<File>, now: string, turns: seq<Turn>)
    requires file.Some? && h.status == R.Ok && file.value.kind == Directory
    requires IsDate(now) && '\n' !in FilePath(root, h)
    ensures !Decide(h, file).Cgi?
    ensures var m := ReadMessage(WireOf(h, root, file, now, turns));
            && (m.Some? <==> |FilePath(root, h)| < 987)
            && (m.Some? ==> FieldOf(m.value.lines, LOCATION_NAME) == Some(FilePath(root, h) + "/") && m.value.body == [])
  {
    hide WireOf, HeaderText, RedirectFields, FilePath, ReadMessage;
    RedirectWire(h, root, file, now, turns);
    RedirectRead(FilePath(root, h), now);
  }

  lemma RedirectWire(h: Parsed, root: string, file: Option<File>, now: string, turns: seq<Turn>)
    requires file.Some? && h.status == R.Ok && file.value.kind == Directory
    ensures !Decide(h, file).Cgi?
    ensures WireOf(h, root, file, now, turns) == HeaderText(RedirectFields(FilePath(root, h)), now)
  {
    hide HeaderText, RedirectFields, FilePath, STATUS_LIST;
  }

  /** What a response with a file says of it: its date always, its type exactly when the length is printed
      whole. A partial response whose content range is cut off is no message to be read. */
  lemma FileIsDescribed(h: Parsed, root: string, file: File, now: string, turns: seq<Turn>)
    requires WellParsed(h) && Decide(h, Some(file)).Entity? && IsDate(now) && '\n' !in file.modified
    requires h.status == R.PartialContent ==> RangePrinted(h.byteStart, |file.content|)
    ensures var m := ReadMessage(WireOf(h, root, Some(file), now, turns));
            && m.Some?
            && Describes(m.value.lines, FilePath(root, h), file, now,
                         if h.status == R.PartialContent then -1000 < Wrap32(|file.content| - h.byteStart) < 10000
                         else |file.content| < 100000000)
  {
    var path := FilePath(root, h);
    var body := EntityWire(h, root, file, now, turns);
    hide Decide, WireOf, HeaderText, EntityFields, Describes, ReadMessage, DeclaredLength, DeclaredRange, Wrap32, RangePrinted, FilePath;
    if h.status == R.PartialContent {
      PartialFraming(path, file, h.byteStart, h.byteEnd, now, body);
    } else {
      FullFraming(path, file, now, body);
    }
  }

  lemma EntityWire(h: Parsed, root: string, file: File, now: string, turns: seq<Turn>) returns (body: string)
    requires WellParsed(h) && Decide(h, Some(file)).Entity?
    ensures var status := STATUS_LIST[if h.status == R.PartialContent then 1 else 0];
            WireOf(h, root, Some(file), now, turns) ==
            HeaderText(EntityFields(status, FilePath(root, h), file, h.byteStart, h.byteEnd), now) + body
    ensures if h.status == R.PartialContent then IsPartial(h.byteStart, h.byteEnd) else h.byteStart == -2 && h.byteEnd == -2
  {
    hide HeaderText, EntityFields, BodyRun, FilePath, PlanBody;
    var plan := Decide(h, Some(file));
    body := PlanBody(plan, h, Some(file), turns).sent;
    assert plan.status == STATUS_LIST[if h.status == R.PartialContent then 1 else 0];
    hide STATUS_LIST, Decide;
  }

  // ---------------------------------------------------------------- which requests get a body

  /** Some way the reads and writes may go sends a byte of the file. */
  ghost predicate SendsBody(h: Parsed, file: File) {
    exists turns :: PlanBody(Decide(h, Some(file)), h, Some(file), turns).sent != []
  }

  /** What the copy of a well-parsed request is: nothing, or a copy from inside the file. */
  lemma FirstByteIsSent(h: Parsed, file: File)
    requires WellParsed(h) && Decide(h, Some(file)).Entity? && Decide(h, Some(file)).withBody && CanRead(file)
    requires 0 <= Offset(h.byteStart, h.byteEnd) < |file.content|
    ensures SendsBody(h, file)
  {
    var offset, limit := Offset(h.byteStart, h.byteEnd), Limit(|file.content|, h.byteStart, h.byteEnd);
    var turns := [Turn(1, Whole)];
    assert offset < limit;
    OneByteTurn(file.content, turns, offset, offset, offset + 1);
    assert CopyRun(file.content, turns[1..], offset + 1, offset + 1, limit).sent == [];
    assert PlanBody(Decide(h, Some(file)), h, Some(file), turns).sent == Piece(file.content, offset, 1);
  }

  /** A byte of the file can be sent exactly for a satisfiable range with a start inside the file, whatever
      the method, and for a GET of a regular file that is not empty, no program, and not unmodified. */
  lemma BodySentIff(h: Parsed, file: File)
    requires WellParsed(h)
    ensures SendsBody(h, file) <==>
            CanRead(file)
            && (|| (h.status == R.PartialContent && 0 <= h.byteStart < |file.content|)
                || (h.status == R.Ok && h.method_ == Some("GET") && file.kind == Regular && !h.isCGI && |file.content| > 0
                    && (h.modsince == 0 || h.modsince < file.mtime)))
  {
    var plan := Decide(h, Some(file));
    var offset := Offset(h.byteStart, h.byteEnd);
    if plan.Entity? && plan.withBody && CanRead(file) {
      if 0 <= offset < |file.content| {
        FirstByteIsSent(h, file);
      } else if 0 <= offset {
        forall turns
          ensures PlanBody(plan, h, Some(file), turns).sent == []
        {
          CopyAccount(file.content, turns, offset, offset, |file.content|);
        }
      }
    }
  }

  /** A HEAD request is sent a body exactly when it has a satisfiable range with a start inside the file. */
  lemma HeadGetsBodyIff(h: Parsed, file: File)
    requires WellParsed(h) && h.method_ == Some("HEAD")
    ensures SendsBody(h, file) <==> CanRead(file) && h.status == R.PartialContent && 0 <= h.byteStart < |file.content|
  {
    BodySentIff(h, file);
  }

  /** Some way the reads and writes may go brings the response to its end. */
  ghost predicate CanEnd(h: Parsed, file: File) {
    exists turns :: PlanBody(Decide(h, Some(file)), h, Some(file), turns).status == Done
  }

  /** A response can end exactly when it has no body, or the file can be read and what is asked for is all of
      it, an open range, or a range whose end is not beyond the file: never for a suffix range. */
  lemma CanEndIff(h: Parsed, file: File)
    requires WellParsed(h)
    ensures CanEnd(h, file) <==>
            || !(Decide(h, Some(file)).Entity? && Decide(h, Some(file)).withBody)
            || (CanRead(file)
                && (h.status == R.PartialContent ==> h.byteStart >= 0 && h.byteEnd <= |file.content|))
  {
    var plan, size := Decide(h, Some(file)), |file.content|;
    var offset, limit := Offset(h.byteStart, h.byteEnd), Limit(size, h.byteStart, h.byteEnd);
    if !(plan.Entity? && plan.withBody) {
      assert PlanBody(plan, h, Some(file), []).status == Done;
    } else if CanRead(file) && offset >= 0 {
      if limit <= size {
        LosingTurnsEnd(file.content, offset, offset, limit, 0, offset, limit);
        assert PlanBody(plan, h, Some(file), LosingTurns(0, limit - offset)).status == Done;
      } else {
        forall turns
          ensures PlanBody(plan, h, Some(file), turns).status != Done
        {
          LostNeverDone(file.content, turns, offset, offset, limit);
        }
      }
    }
  }

  // ---------------------------------------------------------------- sent and logged

  function LoggedFor(h: Parsed, root: string, file: File, now: string): int
    requires !Decide(h, Some(file)).Cgi?
  {
    LoggedSize(PlanHeader(Decide(h, Some(file)), h, root, Some(file), now), |file.content|, h.byteStart, h.byteEnd)
  }

  /** The log records the number of bytes on the wire. */
  predicate LogExact(h: Parsed, root: string, file: File, now: string, turns: seq<Turn>)
    requires !Decide(h, Some(file)).Cgi?
  {
    LoggedFor(h, root, file, now) == |WireOf(h, root, Some(file), now, turns)|
  }

  /** An int holds what write_log adds up. */
  predicate LogFits(h: Parsed, root: string, file: File, now: string)
    requires !Decide(h, Some(file)).Cgi?
  {
    FitsInt32(|PlanHeader(Decide(h, Some(file)), h, root, Some(file), now)| + LoggedBody(|file.content|, h.byteStart, h.byteEnd))
  }

  /** When the log agrees with the wire, for every response. Without a body: exactly when the log claims
      none, so for HEAD exactly when the file is empty. For a full response and an open range: exactly when
      the file is empty or the copy ends. For an explicit end: exactly when as many bytes are sent as lie
      behind the start, whatever the end. For a suffix range: never. */
  lemma LogAgreesIff(h: Parsed, root: string, file: File, now: string, turns: seq<Turn>)
    requires WellParsed(h) && !Decide(h, Some(file)).Cgi? && Statted(h, Some(file)) && LogFits(h, root, file, now)
    ensures var plan, size := Decide(h, Some(file)), |file.content|;
            var body := PlanBody(plan, h, Some(file), turns);
            var exact := LogExact(h, root, file, now, turns);
            if !(plan.Entity? && plan.withBody) then exact <==> LoggedBody(size, h.byteStart, h.byteEnd) == 0
            else if h.byteStart == -1 then !exact
            else if h.byteEnd < 0 then exact <==> size == 0 || (CanRead(file) && body.status == Done)
            else exact <==> h.byteStart + |body.sent| == size
  {
    hide HeaderText, PlanFields;
    var plan, size := Decide(h, Some(file)), |file.content|;
    var offset := Offset(h.byteStart, h.byteEnd);
    if plan.Entity? && plan.withBody && 0 <= offset && CanRead(file) {
      CopyAccount(file.content, turns, offset, offset, Limit(size, h.byteStart, h.byteEnd));
    }
  }

  /** A response whose log does not fit an int is logged wrongly if it is sent in full. */
  lemma BigLogIsWrong(h: Parsed, root: string, file: File, now: string, turns: seq<Turn>)
    requires !Decide(h, Some(file)).Cgi? && !LogFits(h, root, file, now)
    requires |PlanBody(Decide(h, Some(file)), h, Some(file), turns).sent| == LoggedBody(|file.content|, h.byteStart, h.byteEnd)
    ensures !LogExact(h, root, file, now, turns)
  {
    hide HeaderText, PlanFields;
  }

  // ---------------------------------------------------------------- announced and sent

  /** The client finds exactly this body, and the declared length is its length. */
  predicate FramedAs(wire: string, body: string) {
    var m := ReadMessage(wire);
    m.Some? && m.value.body == body && DeclaredLength(m.value) == Some(|body|)
  }

  /** The copy ends, with whatever writes. */
  predicate CopyFinishes(h: Parsed, file: File, turns: seq<Turn>) {
    CanRead(file) && BodyRun(file.content, h.byteStart, h.byteEnd, turns).status == Done
  }

  /** What an entity response with a body puts on the wire. */
  lemma WireParts(h: Parsed, root: string, file: File, now: string, turns: seq<Turn>)
    requires Decide(h, Some(file)).Entity? && Decide(h, Some(file)).withBody && CanRead(file)
    ensures WireOf(h, root, Some(file), now, turns) ==
            HeaderText(EntityFields(Decide(h, Some(file)).status, FilePath(root, h), file, h.byteStart, h.byteEnd), now)
            + BodyRun(file.content, h.byteStart, h.byteEnd, turns).sent
  {
  }

  /** A plain GET whose copy ends delivers the file, framed by its length exactly when the length has at
      most eight digits. */
  lemma FullResponseAgrees(h: Parsed, root: string, file: File, now: string, turns: seq<Turn>)
    requires Decide(h, Some(file)) == Entity(STATUS_LIST[0], true) && h.byteStart == -2 && h.byteEnd == -2
    requires IsDate(now) && '\n' !in file.modified && CopyFinishes(h, file, turns)
    ensures var wire := WireOf(h, root, Some(file), now, turns);
            FramedAs(wire, file.content) <==> |file.content| < 100000000
  {
    hide HeaderText, EntityFields, WireOf, BodyRun;
    WireParts(h, root, file, now, turns);
    FullBody(file.content, turns);
    FullFraming(FilePath(root, h), file, now, file.content);
  }

  /** A partial response from a regular file. */
  predicate IsRangeResponse(h: Parsed, file: File, now: string) {
    && WellParsed(h) && h.status == R.PartialContent && 0 <= h.byteStart < |file.content|
    && file.kind == Regular && IsDate(now) && '\n' !in file.modified
  }

  /** The header's numbers fit the buffers they are printed into. */
  predicate NumbersFit(k: nat, size: nat)
    requires k < size
  {
    size - k < 10000 && RangeFits(k, size)
  }

  /** What a client makes of any partial response: it finds the body framed by its length exactly when the
      printed content range fits and the length, converted to int, is that of the body and has at most
      four digits. */
  lemma PartialFramedIff(h: Parsed, root: string, file: File, now: string, turns: seq<Turn>, body: string)
    requires IsRangeResponse(h, file, now) && CanRead(file)
    requires body == BodyRun(file.content, h.byteStart, h.byteEnd, turns).sent
    ensures FramedAs(WireOf(h, root, Some(file), now, turns), body) <==>
            RangePrinted(h.byteStart, |file.content|) && Wrap32(|file.content| - h.byteStart) == |body| < 10000
    ensures FramedAs(WireOf(h, root, Some(file), now, turns), body) && FitsInt32(|file.content|) ==>
              DeclaredRange(ReadMessage(WireOf(h, root, Some(file), now, turns)).value)
              == Some(RangeTriple(h.byteStart, |file.content| - 1, |file.content|))
  {
    hide HeaderText, EntityFields, WireOf, BodyRun, RangePrinted, ReadMessage, FilePath, Wrap32, DeclaredRange, DeclaredLength;
    WireParts(h, root, file, now, turns);
    if RangePrinted(h.byteStart, |file.content|) {
      PartialFraming(FilePath(root, h), file, h.byteStart, h.byteEnd, now, body);
    } else {
      CutRangeLosesBody(FilePath(root, h), file, h.byteStart, h.byteEnd, now, body);
    }
  }

  /** The same in terms of the numbers themselves, when the body is the rest of the file. */
  lemma RestFramedIff(k: nat, size: nat)
    requires k < size && FitsInt32(k)
    ensures RangePrinted(k, size) && Wrap32(size - k) == size - k < 10000 <==> NumbersFit(k, size)
    ensures NumbersFit(k, size) ==> FitsInt32(size)
  {
    hide Print;
    if !FitsInt32(size) {
      BigFileNeverFits(k, size);
    }
  }

  /** The client finds this body framed by its length, and the content range names it and the file's size. */
  predicate RangeFramedAs(wire: string, body: string, first: nat, size: nat) {
    FramedAs(wire, body) && size > 0 && DeclaredRange(ReadMessage(wire).value) == Some(RangeTriple(first, size - 1, size))
  }

  /** An open range whose copy ends delivers the rest of the file. The client finds it framed by its length,
      with the content range naming it, exactly when the length has at most four digits and the three
      numbers of the content range have at most twelve together. */
  lemma OpenRangeAgrees(h: Parsed, root: string, file: File, now: string, turns: seq<Turn>, k: nat)
    requires IsRangeResponse(h, file, now) && CopyFinishes(h, file, turns) && h.byteEnd == -1 && k == h.byteStart
    ensures var wire := WireOf(h, root, Some(file), now, turns);
            RangeFramedAs(wire, file.content[k..], k, |file.content|)
            <==> NumbersFit(k, |file.content|)
  {
    hide WireOf, BodyRun, FramedAs, DeclaredRange, RangePrinted, NumbersFit, Wrap32;
    OpenRangeBody(file.content, k, turns);
    PartialFramedIff(h, root, file, now, turns, file.content[k..]);
    RestFramedIff(k, |file.content|);
  }

  /** With an explicit end inside the file, the copy stops soon after that end, but the header still
      announces the rest of the file. If an int holds the size of the file, the two agree exactly when the
      copy happened to send as many bytes as lie behind the start and the header's numbers fit; then the
      bytes are those. */
  lemma ExplicitEndAgreesIff(h: Parsed, root: string, file: File, now: string, turns: seq<Turn>, k: nat)
    returns (last: nat)
    requires IsRangeResponse(h, file, now) && CopyFinishes(h, file, turns) && k == h.byteStart < h.byteEnd <= |file.content|
    ensures h.byteEnd <= last <= |file.content| && last < h.byteEnd + CHUNK_SIZE
    ensures var body := BodyRun(file.content, h.byteStart, h.byteEnd, turns).sent;
            var framed := FramedAs(WireOf(h, root, Some(file), now, turns), body);
            && |body| == last - k
            && (framed <==> RangePrinted(k, |file.content|) && Wrap32(|file.content| - k) == last - k < 10000)
            && (FitsInt32(|file.content|) ==> (framed <==> last == |file.content| && NumbersFit(k, |file.content|)))
            && (last == |file.content| ==> body == file.content[k..])
  {
    hide WireOf, FramedAs, DeclaredRange, RangePrinted, RangeFits;
    last := ExplicitEndBody(file.content, k, h.byteEnd, turns);
    var body := BodyRun(file.content, h.byteStart, h.byteEnd, turns).sent;
    hide BodyRun;
    PartialFramedIff(h, root, file, now, turns, body);
    RestFramedIff(k, |file.content|);
  }

  /** However the reads and writes go, once the copy ends the client finds the bytes that were sent, framed
      by their length. */
  ghost predicate AlwaysFramed(h: Parsed, root: string, file: File, now: string)
    requires Decide(h, Some(file)).Entity?
  {
    forall turns :: CopyFinishes(h, file, turns) ==>
      FramedAs(WireOf(h, root, Some(file), now, turns), BodyRun(file.content, h.byteStart, h.byteEnd, turns).sent)
  }

  /** An explicit end inside the file is served dependably exactly when it is the end of the file. */
  lemma ExplicitEndAlwaysAgreesIff(h: Parsed, root: string, file: File, now: string, k: nat)
    requires IsRangeResponse(h, file, now) && file.readable && k == h.byteStart < h.byteEnd <= |file.content|
    ensures AlwaysFramed(h, root, file, now) <==> h.byteEnd == |file.content| && NumbersFit(k, |file.content|)
  {
    hide NumbersFit, FramedAs, WireOf, RangePrinted, Wrap32;
    if h.byteEnd == |file.content| {
      forall turns | CopyFinishes(h, file, turns)
        ensures FramedAs(WireOf(h, root, Some(file), now, turns), BodyRun(file.content, h.byteStart, h.byteEnd, turns).sent)
                <==> NumbersFit(k, |file.content|)
      {
        var last := ExplicitEndAgreesIff(h, root, file, now, turns, k);
      }
      var turns := StopsAtEnd(h, file, k);
    } else {
      var turns := StopsAtEnd(h, file, k);
      var last := ExplicitEndAgreesIff(h, root, file, now, turns, k);
      var turns' := PassesEnd(h, file, k);
      var last' := ExplicitEndAgreesIff(h, root, file, now, turns', k);
    }
  }

  lemma StopsAtEnd(h: Parsed, file: File, k: nat) returns (turns: seq<Turn>)
    requires CanRead(file) && k == h.byteStart < h.byteEnd <= |file.content|
    ensures CopyFinishes(h, file, turns)
    ensures |BodyRun(file.content, h.byteStart, h.byteEnd, turns).sent| == h.byteEnd - k
  {
    turns := LosingTurns(0, h.byteEnd - k);
    ByteTurnsStopAtLimit(file.content, k, h.byteEnd);
  }

  lemma PassesEnd(h: Parsed, file: File, k: nat) returns (turns: seq<Turn>)
    requires CanRead(file) && k == h.byteStart < h.byteEnd < |file.content|
    ensures CopyFinishes(h, file, turns)
    ensures |BodyRun(file.content, h.byteStart, h.byteEnd, turns).sent| == h.byteEnd + 1 - k
  {
    turns := OvershootTurns(h.byteEnd - k, 1);
    OvershootTurnsPassLimit(file.content, k, h.byteEnd, 1);
  }
}
