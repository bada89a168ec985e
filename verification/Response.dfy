/** Response headers: the fields, the text built from them, and the message a client reads back. */
module Response {
  import opened Decimal
  import opened Regex
  import opened Sequences
  import opened Tokenizer
  import opened Wire
  import opened BodyCopy
  import ContentType

  datatype StatusEntry = StatusEntry(code: nat, text: string)

  /** http_status_list, indexed by the status enumeration. */
  const STATUS_LIST: seq<StatusEntry> := [
    StatusEntry(200, "OK"), StatusEntry(206, "Partial Content"), StatusEntry(301, "Moved Permanently"),
    StatusEntry(304, "Not Modified"), StatusEntry(400, "Bad Request"), StatusEntry(403, "Forbidden"),
    StatusEntry(404, "Not Found"), StatusEntry(416, "Requested Range Not Satisfiable"),
    StatusEntry(500, "Internal Server Error"), StatusEntry(501, "Not Implemented")
  ]

  datatype Kind = Regular | Directory | Special

  /** A file as stat and read show it, and whether open succeeds. Its modification time is also given as
      the text printed for it. */
  datatype File = File(kind: Kind, content: string, mtime: int, modified: string, executable: bool, readable: bool)

  const LENGTH_NAME: string := "Content-Length: "
  const RANGE_NAME: string := "Content-Range: "
  const TYPE_NAME: string := "Content-Type: "
  const MODIFIED_NAME: string := "Last-Modified: "
  const DATE_NAME: string := "Date: "
  const LOCATION_NAME: string := "Location: "

  /** snprintf into a buffer of `size` characters, the terminating NUL included. */
  function Snprintf(text: string, size: nat): string
    requires size > 0
  {
    if |text| < size then text else text[..size - 1]
  }

  // ---------------------------------------------------------------- the numeric fields

  const SIZEOF_INT: nat := 4
  const SIZEOF_LONG_LONG: nat := 8

  function LengthLine(n: int): string { LENGTH_NAME + PrintInt(n) }

  function RangeLine(start: int, last: int, size: int): string {
    RANGE_NAME + "bytes " + PrintInt(start) + "-" + PrintInt(last) + "/" + PrintInt(size)
  }

  /** Content-Length of a partial response. */
  function PartialLength(n: int): string {
    Snprintf(LengthLine(n) + CRLF, |LENGTH_NAME| + SIZEOF_INT + 2 + 1)
  }

  /** Content-Length of a full response. */
  function FullLength(n: int): string {
    Snprintf(LengthLine(n) + CRLF, |LENGTH_NAME| + SIZEOF_LONG_LONG + 2 + 1)
  }

  function PartialRange(start: int, last: int, size: int): string {
    Snprintf(RangeLine(start, last, size) + CRLF, |RANGE_NAME| + SIZEOF_INT * 3 + |"bytes -/\r\n"| + 1)
  }

  /** The length of a partial response is printed whole, line end included, exactly up to four characters. */
  lemma PartialLengthWholeIff(n: int)
    ensures PartialLength(n) == LengthLine(n) + CRLF <==> -1000 < n < 10000
  {
    if n >= 0 {
      PrintLengthIff(n, 4);
    } else {
      PrintLengthIff(-n, 3);
    }
    assert Pow10(3) == 1000 && Pow10(4) == 10000;
    assert |LengthLine(n) + CRLF| == |LENGTH_NAME| + |PrintInt(n)| + 2;
  }

  /** The length of a full response is printed whole exactly up to eight digits. */
  lemma FullLengthWholeIff(n: nat)
    ensures FullLength(n) == LengthLine(n) + CRLF <==> n < 100000000
  {
    PrintLengthIff(n, 8);
    assert Pow10(4) == 10000;
    assert Pow10(8) == 10 * Pow10(7) && Pow10(6) == 10 * Pow10(5);
    assert |LengthLine(n) + CRLF| == |LENGTH_NAME| + |Print(n)| + 2;
  }

  /** The content range is printed whole exactly when its three numbers have at most twelve characters. */
  lemma PartialRangeWholeIff(start: int, last: int, size: int)
    ensures PartialRange(start, last, size) == RangeLine(start, last, size) + CRLF <==>
            |PrintInt(start)| + |PrintInt(last)| + |PrintInt(size)| <= 12
  {
    assert |RangeLine(start, last, size) + CRLF|
           == |RANGE_NAME| + 6 + |PrintInt(start)| + 1 + |PrintInt(last)| + 1 + |PrintInt(size)| + 2;
  }

  // ---------------------------------------------------------------- the header

  /** The response header data; absent fields are NULL. */
  datatype Fields = Fields(
    status: StatusEntry,
    contentLength: Option<string>,
    contentType: Option<string>,
    lastModified: Option<string>,
    contentLocation: Option<string>,
    contentRange: Option<string>)

  function Bare(status: StatusEntry): Fields { Fields(status, None, None, None, None, None) }

  /** create_response_header. Sizes are converted to int as the code converts them. */
  function EntityFields(status: StatusEntry, filepath: string, file: File, start: int, end: int): Fields {
    var size := |file.content|;
    Fields(
      status,
      Some(if IsPartial(start, end) then PartialLength(Wrap32(size - start)) else FullLength(size)),
      Some(TYPE_NAME + ContentType.TypeName(ContentType.ENTRIES, filepath) + CRLF),
      Some(MODIFIED_NAME + file.modified + CRLF),
      None,
      if IsPartial(start, end) then Some(PartialRange(start, Wrap32(size - 1), Wrap32(size))) else None)
  }

  function StatusPiece(status: StatusEntry): string {
    Snprintf("HTTP/1.1 " + Print(status.code) + " " + status.text + CRLF, 50)
  }

  function ServerPiece(): string { Snprintf("Server: Tinyweb 1.1" + CRLF, 30) }

  function DatePiece(now: string): string { Snprintf(DATE_NAME + now + CRLF, 50) }

  function Present(field: Option<string>): seq<string> {
    match field
    case None => []
    case Some(s) => [s]
  }

  /** The strings the header is put together from, in order. */
  function Pieces(f: Fields, now: string): seq<string> {
    [StatusPiece(f.status)] + [ServerPiece()] + [DatePiece(now)]
    + Present(f.contentLength) + Present(f.contentType) + Present(f.lastModified)
    + Present(f.contentLocation) + Present(f.contentRange) + [CRLF]
  }

  function Concat(pieces: seq<string>): string {
    if pieces == [] then [] else Concat(pieces[..|pieces| - 1]) + pieces[|pieces| - 1]
  }

  function HeaderText(f: Fields, now: string): string { Concat(Pieces(f, now)) }

  lemma ConcatAppend(pieces: seq<string>, piece: string)
    ensures Concat(pieces + [piece]) == Concat(pieces) + piece
  {
    assert (pieces + [piece])[..|pieces|] == pieces;
  }

  /** The header data as the program keeps it. */
  class ResponseHeader {
    var fields: Fields

    constructor (status: StatusEntry)
      ensures fields == Bare(status)
    {
      fields := Bare(status);
    }

    method CreateResponseHeader(filepath: string, file: File, start: int, end: int)
      requires fields == Bare(fields.status)
      modifies this
      ensures fields == EntityFields(old(fields.status), filepath, file, start, end)
    {
      var contentType := ContentType.GetHttpContentType(ContentType.ENTRIES, filepath);
      var name := if contentType < |ContentType.ENTRIES| then ContentType.ENTRIES[contentType].name else ContentType.DEFAULT_NAME;
      fields := fields.(contentType := Some(TYPE_NAME + name + CRLF));
      fields := fields.(lastModified := Some(MODIFIED_NAME + file.modified + CRLF));
      var size := |file.content|;
      if start != -2 && end != -2 {
        var endOfRange := Wrap32(size - 1);
        fields := fields.(contentRange := Some(PartialRange(start, endOfRange, Wrap32(size))));
        var rangeLength := Wrap32(size - start);
        fields := fields.(contentLength := Some(PartialLength(rangeLength)));
      } else {
        fields := fields.(contentLength := Some(FullLength(size)));
      }
    }

    method CreateResponseHeaderString(now: string) returns (s: string)
      ensures s == HeaderText(fields, now)
    {
      ghost var pieces;
      s, pieces := StatusPiece(fields.status), [StatusPiece(fields.status)];
      ConcatAppend([], s);
      s, pieces := Strcat(s, ServerPiece(), pieces);
      s, pieces := Strcat(s, DatePiece(now), pieces);
      s, pieces := StrcatIfPresent(s, fields.contentLength, pieces);
      s, pieces := StrcatIfPresent(s, fields.contentType, pieces);
      s, pieces := StrcatIfPresent(s, fields.lastModified, pieces);
      s, pieces := StrcatIfPresent(s, fields.contentLocation, pieces);
      s, pieces := StrcatIfPresent(s, fields.contentRange, pieces);
      s, pieces := Strcat(s, CRLF, pieces);
      assert pieces == Pieces(fields, now);
    }
  }

  method Strcat(s: string, piece: string, ghost pieces: seq<string>) returns (s': string, ghost pieces': seq<string>)
    requires s == Concat(pieces)
    ensures s' == Concat(pieces') && pieces' == pieces + [piece]
  {
    ConcatAppend(pieces, piece);
    return s + piece, pieces + [piece];
  }

  method StrcatIfPresent(s: string, field: Option<string>, ghost pieces: seq<string>)
    returns (s': string, ghost pieces': seq<string>)
    requires s == Concat(pieces)
    ensures s' == Concat(pieces') && pieces' == pieces + Present(field)
  {
    if field.Some? {
      s', pieces' := Strcat(s, field.value, pieces);
    } else {
      assert pieces + [] == pieces;
      return s, pieces;
    }
  }

  // ---------------------------------------------------------------- what the client makes of it

  /** The number a Content-Length header declares. */
  function DeclaredLength(m: Message): Option<nat> {
    match FieldOf(m.lines, LENGTH_NAME)
    case None => None
    case Some(v) => if v != [] && AllDigits(v) then Some(Value(v)) else None
  }

  datatype RangeTriple = RangeTriple(first: nat, last: nat, size: nat)

  /** `bytes a-b/c`. */
  function ParseRange(v: string): Option<RangeTriple> {
    if !("bytes " <= v) then None
    else
      var dash := Span(Digit, v, 6);
      if dash == 6 || dash == |v| || v[dash] != '-' then None
      else
        var slash := Span(Digit, v, dash + 1);
        if slash == dash + 1 || slash == |v| || v[slash] != '/' then None
        else if slash + 1 == |v| || !AllDigits(v[slash + 1..]) then None
        else Some(RangeTriple(Value(v[6..dash]), Value(v[dash + 1..slash]), Value(v[slash + 1..])))
  }

  /** The three numbers a Content-Range header declares. */
  function DeclaredRange(m: Message): Option<RangeTriple> {
    match FieldOf(m.lines, RANGE_NAME)
    case None => None
    case Some(v) => ParseRange(v)
  }

  /** What follows the name of a content range. */
  function RangeValue(a: nat, b: nat, c: nat): string {
    "bytes " + (Print(a) + ("-" + (Print(b) + ("/" + Print(c)))))
  }

  lemma RangeValueRoundTrip(a: nat, b: nat, c: nat)
    ensures ParseRange(RangeValue(a, b, c)) == Some(RangeTriple(a, b, c))
  {
    var v := RangeValue(a, b, c);
    var dash := 6 + |Print(a)|;
    var slash := dash + 1 + |Print(b)|;
    RangeValueLayout(v, a, b, c, dash, slash);
    SpanUnique(Digit, v, 6, dash);
    SpanUnique(Digit, v, dash + 1, slash);
    PrintRoundTrip(a);
    PrintRoundTrip(b);
    PrintRoundTrip(c);
  }

  lemma RangeValueLayout(v: string, a: nat, b: nat, c: nat, dash: nat, slash: nat)
    requires v == RangeValue(a, b, c) && dash == 6 + |Print(a)| && slash == dash + 1 + |Print(b)|
    ensures slash + 1 < |v| && "bytes " <= v
    ensures v[6..dash] == Print(a) && v[dash] == '-' && AllAt(Digit, v, 6, dash)
    ensures v[dash + 1..slash] == Print(b) && v[slash] == '/' && AllAt(Digit, v, dash + 1, slash)
    ensures v[slash + 1..] == Print(c)
  {
    hide Print;
    var t3 := "/" + Print(c);
    var t2 := Print(b) + t3;
    var t1 := "-" + t2;
    var t0 := Print(a) + t1;
    assert v == "bytes " + t0;
    NumberThen(v, 6, Print(a), t1, dash);
    NumberThen(v, dash + 1, Print(b), t3, slash);
  }

  lemma NumberThen(v: string, i: nat, digits: string, rest: string, j: nat)
    requires i <= |v| && v[i..] == digits + rest && AllDigits(digits) && j == i + |digits|
    ensures j <= |v| && v[i..j] == digits && v[j..] == rest && AllAt(Digit, v, i, j)
    ensures rest != [] ==> v[j] == rest[0] && v[j + 1..] == rest[1..]
  {
    var t := v[i..];
    assert forall n :: i <= n < j ==> v[n] == t[n - i] == digits[n - i];
    assert t[|digits|..] == rest;
  }

  /** Date texts hold no newline and fit the buffer they are printed into. */
  predicate IsDate(now: string) { '\n' !in now && |now| <= 41 }

  /** Pieces that are lines, followed by more. */
  function Glue(pieces: seq<string>, rest: string): string {
    if pieces == [] then rest else pieces[0] + Glue(pieces[1..], rest)
  }

  lemma {:induction false} ConcatIsGlue(pieces: seq<string>, rest: string)
    ensures Concat(pieces) + rest == Glue(pieces, rest)
    decreases |pieces|
  {
    if pieces != [] {
      var n := |pieces| - 1;
      var last := pieces[n];
      calc {
        Concat(pieces) + rest;
        (Concat(pieces[..n]) + last) + rest;
        { Associative(Concat(pieces[..n]), last, rest); }
        Concat(pieces[..n]) + (last + rest);
        { ConcatIsGlue(pieces[..n], last + rest); }
        Glue(pieces[..n], last + rest);
        { GlueLast(pieces[..n], last, rest); assert pieces[..n] + [last] == pieces; }
        Glue(pieces, rest);
      }
    }
  }

  lemma {:induction false} GlueLast(pieces: seq<string>, last: string, rest: string)
    ensures Glue(pieces, last + rest) == Glue(pieces + [last], rest)
    decreases |pieces|
  {
    if pieces == [] {
      assert Glue([last], rest) == last + Glue([last][1..], rest);
    } else {
      assert (pieces + [last])[1..] == pieces[1..] + [last];
      GlueLast(pieces[1..], last, rest);
    }
  }

  lemma {:induction false} GlueLines(pieces: seq<string>, lines: seq<string>, rest: string)
    requires |pieces| == |lines| && forall i :: 0 <= i < |lines| ==> pieces[i] == lines[i] + CRLF
    ensures Glue(pieces, rest) == Send(lines, rest)
    decreases |lines|
  {
    if lines != [] {
      assert forall i :: 0 <= i < |lines| - 1 ==> pieces[1..][i] == pieces[i + 1] && lines[1..][i] == lines[i + 1];
      GlueLines(pieces[1..], lines[1..], rest);
    }
  }

  /** The client reads pieces that are whole lines as those lines. */
  lemma ReadPieces(pieces: seq<string>, lines: seq<string>, rest: string)
    requires |pieces| == |lines| && forall i :: 0 <= i < |lines| ==> pieces[i] == lines[i] + CRLF
    requires AreLines(lines)
    ensures ReadMessage(Concat(pieces) + rest) ==
            match ReadMessage(rest)
            case None => None
            case Some(m) => Some(Message(lines + m.lines, m.body))
  {
    ConcatIsGlue(pieces, rest);
    GlueLines(pieces, lines, rest);
    ReadSent(lines, rest);
  }

  /** ... and the body after the empty line. */
  lemma ReadHeaderAndBody(pieces: seq<string>, lines: seq<string>, body: string)
    requires |pieces| == |lines| && forall i :: 0 <= i < |lines| ==> pieces[i] == lines[i] + CRLF
    requires AreLines(lines)
    ensures ReadMessage(Concat(pieces + [CRLF]) + body) == Some(Message(lines, body))
  {
    ConcatAppend(pieces, CRLF);
    Associative(Concat(pieces), CRLF, body);
    ReadPieces(pieces, lines, CRLF + body);
    ReadEmptyLine(body);
    assert lines + [] == lines;
  }

  /** Two adjacent pieces may be taken as one. */
  lemma {:induction false} ConcatMerge(a: seq<string>, x: string, y: string, b: seq<string>)
    ensures Concat(a + [x] + [y] + b) == Concat(a + [x + y] + b)
    decreases |b|
  {
    if b == [] {
      assert a + [x] + [y] + b == a + [x] + [y] && a + [x + y] + b == a + [x + y];
      ConcatAppend(a + [x], y);
      ConcatAppend(a, x);
      ConcatAppend(a, x + y);
      Associative(Concat(a), x, y);
    } else {
      var n := |b| - 1;
      var init, last := b[..n], b[n];
      assert b == init + [last];
      assert a + [x] + [y] + b == (a + [x] + [y] + init) + [last];
      assert a + [x + y] + b == (a + [x + y] + init) + [last];
      ConcatAppend(a + [x] + [y] + init, last);
      ConcatAppend(a + [x + y] + init, last);
      ConcatMerge(a, x, y, init);
    }
  }

  // ---------------------------------------------------------------- framing

  function StatusLine(status: StatusEntry): string { "HTTP/1.1 " + Print(status.code) + " " + status.text }

  const SERVER_LINE: string := "Server: Tinyweb 1.1"

  /** The lines before the length. */
  function FirstLines(status: StatusEntry, now: string): seq<string> {
    [StatusLine(status)] + [SERVER_LINE] + [DATE_NAME + now]
  }

  lemma PrintHasNoNewline(n: int)
    ensures '\n' !in PrintInt(n)
  {
  }

  lemma StatusTextsFit(status: StatusEntry)
    requires status in STATUS_LIST
    ensures status.code < 1000 && |status.text| <= 31 && '\n' !in status.text
  {
    var i :| 0 <= i < |STATUS_LIST| && STATUS_LIST[i] == status;
    FirstTextsAreLines();
    MoreTextsAreLines();
    LastTextsAreLines();
  }

  lemma FirstTextsAreLines()
    ensures '\n' !in "OK" && '\n' !in "Partial Content" && '\n' !in "Moved Permanently" && '\n' !in "Not Modified"
  {
  }

  lemma MoreTextsAreLines()
    ensures '\n' !in "Bad Request" && '\n' !in "Forbidden" && '\n' !in "Not Found"
  {
  }

  lemma LastTextsAreLines()
    ensures '\n' !in "Requested Range Not Satisfiable" && '\n' !in "Internal Server Error" && '\n' !in "Not Implemented"
  {
  }

  lemma StatusLineFits(status: StatusEntry)
    requires status in STATUS_LIST
    ensures StatusPiece(status) == StatusLine(status) + CRLF && IsLine(StatusLine(status))
    ensures StatusLine(status)[0] == 'H'
    ensures !(LENGTH_NAME <= StatusLine(status)) && !(RANGE_NAME <= StatusLine(status))
  {
    StatusTextsFit(status);
    hide STATUS_LIST;
    PrintLengthIff(status.code, 3);
    assert Pow10(3) == 1000;
    PrintHasNoNewline(status.code);
    assert '\n' !in "HTTP/1.1 ";
    hide Print, Pow10;
    assert StatusLine(status)[0] == 'H';
  }

  lemma FirstLinesFit(status: StatusEntry, now: string)
    requires status in STATUS_LIST && IsDate(now)
    ensures var pieces, lines := [StatusPiece(status)] + [ServerPiece()] + [DatePiece(now)], FirstLines(status, now);
            && AreLines(lines)
            && (forall i :: 0 <= i < 3 ==> pieces[i] == lines[i] + CRLF)
            && (forall i :: 0 <= i < 3 ==> !(LENGTH_NAME <= lines[i]) && !(RANGE_NAME <= lines[i]))
  {
    StatusLineFits(status);
    hide STATUS_LIST, StatusLine, StatusPiece;
    assert SERVER_LINE[0] == 'S' && '\n' !in SERVER_LINE;
    assert (DATE_NAME + now)[0] == 'D' && '\n' !in DATE_NAME;
  }

  /** The code of a status line: what stands between the version and the next blank. */
  function ParseCode(line: string): Option<nat> {
    if !("HTTP/1.1 " <= line) then None
    else
      var end := Span(Digit, line, 9);
      if end == 9 || end == |line| || line[end] != ' ' then None else Some(Value(line[9..end]))
  }

  /** The code a client reads from the first line it is sent. */
  function DeclaredCode(wire: string): Option<nat> {
    match FindCrlf(wire, 0)
    case None => None
    case Some(n) => ParseCode(wire[..n])
  }

  lemma StatusLineCode(status: StatusEntry)
    ensures ParseCode(StatusLine(status)) == Some(status.code)
  {
    var line := StatusLine(status);
    var end := 9 + |Print(status.code)|;
    var more := " " + status.text;
    assert line == "HTTP/1.1 " + (Print(status.code) + more);
    assert line[9..] == Print(status.code) + more;
    NumberThen(line, 9, Print(status.code), more, end);
    SpanUnique(Digit, line, 9, end);
    PrintRoundTrip(status.code);
  }

  /** The client reads the code of the status the header was made for, whatever follows. */
  lemma CodeIsRead(f: Fields, now: string, rest: string)
    requires f.status in STATUS_LIST
    ensures DeclaredCode(HeaderText(f, now) + rest) == Some(f.status.code)
  {
    var pieces, line := Pieces(f, now), StatusLine(f.status);
    assert pieces[0] == StatusPiece(f.status);
    hide Pieces, StatusPiece, StatusLine, Concat;
    ConcatIsGlue(pieces, rest);
    StatusLineFits(f.status);
    LineEnds(line, Glue(pieces[1..], rest));
    StatusLineCode(f.status);
  }

  lemma NotPrefix(name: string, line: string, k: nat)
    requires k < |name| && k < |line| && line[k] != name[k]
    ensures !(name <= line)
  {
  }

  function TypeLine(filepath: string): string { TYPE_NAME + ContentType.TypeName(ContentType.ENTRIES, filepath) }

  lemma TypeLineFits(filepath: string)
    ensures IsLine(TypeLine(filepath)) && TypeLine(filepath)[8] == 'T'
    ensures !(RANGE_NAME <= TypeLine(filepath))
  {
    ContentType.KnownNamesArePrintable(filepath);
    hide ContentType.TypeName, ContentType.ENTRIES;
    FieldLineFits(TYPE_NAME, ContentType.TypeName(ContentType.ENTRIES, filepath));
    assert TYPE_NAME[8] == 'T';
    NotPrefix(RANGE_NAME, TypeLine(filepath), 8);
  }

  lemma FieldLineFits(name: string, value: string)
    requires '\n' !in name && '\n' !in value && |name| > 8
    ensures IsLine(name + value) && (name + value)[8] == name[8]
  {
    NoNewlineInBoth(name, value);
  }

  lemma NoNewlineInBoth(a: string, b: string)
    requires '\n' !in a && '\n' !in b
    ensures '\n' !in a + b
  {
  }

  function ModifiedLine(file: File): string { MODIFIED_NAME + file.modified }

  /** The line the client sees for a length field: the field itself, or, when its end was cut off, the
      field run together with the one after it. */
  function SeenLengthLine(field: string, whole: string, filepath: string): string {
    if field == whole + CRLF then whole else field + TypeLine(filepath)
  }

  /** The header lines as the client sees them, up to the modification date. */
  function SeenLines(status: StatusEntry, now: string, field: string, whole: string, filepath: string, file: File): seq<string> {
    FirstLines(status, now) + [SeenLengthLine(field, whole, filepath)]
    + (if field == whole + CRLF then [TypeLine(filepath)] else []) + [ModifiedLine(file)]
  }

  /** The pieces of those lines, in which a field without an end is one piece with the next. */
  function SeenPieces(status: StatusEntry, now: string, field: string, whole: string, filepath: string, file: File): seq<string> {
    [StatusPiece(status)] + [ServerPiece()] + [DatePiece(now)]
    + (if field == whole + CRLF then [field] + [TypeLine(filepath) + CRLF] else [field + (TypeLine(filepath) + CRLF)])
    + [ModifiedLine(file) + CRLF]
  }

  lemma SeenLinesFit(status: StatusEntry, now: string, field: string, whole: string, filepath: string, file: File)
    requires status in STATUS_LIST && IsDate(now) && '\n' !in file.modified
    requires IsLine(whole) && LENGTH_NAME <= whole && LENGTH_NAME <= field
    requires field == whole + CRLF || '\n' !in field
    ensures var pieces := SeenPieces(status, now, field, whole, filepath, file);
            var lines := SeenLines(status, now, field, whole, filepath, file);
            && |pieces| == |lines| && AreLines(lines)
            && (forall i :: 0 <= i < |lines| ==> pieces[i] == lines[i] + CRLF)
            && FieldOf(lines, LENGTH_NAME) == Some(SeenLengthLine(field, whole, filepath)[|LENGTH_NAME|..])
            && (forall i :: 0 <= i < |lines| ==> !(RANGE_NAME <= lines[i]))
  {
    var lines := SeenLines(status, now, field, whole, filepath, file);
    FirstLinesFit(status, now);
    TypeLineFits(filepath);
    hide STATUS_LIST, StatusLine, StatusPiece, ServerPiece, DatePiece, TypeLine;
    Associative(field, TypeLine(filepath), CRLF);
    assert ModifiedLine(file)[0] == 'L' && '\n' !in MODIFIED_NAME;
    assert RANGE_NAME[8] == 'R' && LENGTH_NAME[8] == 'L';
    var seen := SeenLengthLine(field, whole, filepath);
    assert lines[3] == seen && LENGTH_NAME <= seen && seen[8] == 'L';
    FieldIs(lines, LENGTH_NAME, 3);
  }

  /** A field that was cut off has lost at least its newline, and nothing of its name. */
  lemma CutField(name: string, line: string, size: nat)
    requires IsLine(line) && name <= line && |name| < size
    ensures name <= Snprintf(line + CRLF, size)
    ensures Snprintf(line + CRLF, size) == line + CRLF || '\n' !in Snprintf(line + CRLF, size)
  {
    var text := line + CRLF;
    assert name <= text;
    if |text| >= size {
      forall i | 0 <= i < size - 1
        ensures text[i] != '\n'
      {
        assert i < |line| ==> text[i] == line[i];
      }
    }
  }

  lemma LengthLineIsLine(n: int)
    ensures IsLine(LengthLine(n)) && LENGTH_NAME <= LengthLine(n) && LengthLine(n)[|LENGTH_NAME|..] == PrintInt(n)
  {
    PrintHasNoNewline(n);
    assert '\n' !in LENGTH_NAME;
  }

  /** What the client takes the length to be: the number when the field is whole and the number is not
      negative, nothing otherwise. */
  lemma LengthSeen(field: string, n: int, filepath: string)
    requires LENGTH_NAME <= field
    ensures var v := SeenLengthLine(field, LengthLine(n), filepath)[|LENGTH_NAME|..];
            if field == LengthLine(n) + CRLF && n >= 0 then v != [] && AllDigits(v) && Value(v) == n else !AllDigits(v)
  {
    LengthLineIsLine(n);
    if n >= 0 {
      PrintRoundTrip(n);
    } else {
      assert PrintInt(n)[0] == '-';
    }
    if field != LengthLine(n) + CRLF {
      var seen := SeenLengthLine(field, LengthLine(n), filepath);
      var k := |field| - |LENGTH_NAME|;
      assert seen[|LENGTH_NAME|..][k] == seen[|field|] == TypeLine(filepath)[0] == 'C';
    }
  }

  lemma FieldKept(a: seq<string>, b: seq<string>, name: string)
    requires FieldOf(a, name).Some?
    ensures FieldOf(a + b, name) == FieldOf(a, name)
    decreases |a|
  {
    if !(name <= a[0]) {
      FieldKept(a[1..], b, name);
      assert (a + b)[1..] == a[1..] + b;
    }
  }

  /** The header of an entity without its content range and its empty line. */
  function EntityPieces(status: StatusEntry, now: string, field: string, filepath: string, file: File): seq<string> {
    [StatusPiece(status)] + [ServerPiece()] + [DatePiece(now)]
    + [field] + [TypeLine(filepath) + CRLF] + [ModifiedLine(file) + CRLF]
  }

  /** Running a cut field together with the next one does not change the text. */
  lemma PiecesAsSeen(
    status: StatusEntry, now: string, field: string, whole: string, filepath: string, file: File, more: seq<string>)
    ensures Concat(EntityPieces(status, now, field, filepath, file) + more)
            == Concat(SeenPieces(status, now, field, whole, filepath, file) + more)
  {
    var a := [StatusPiece(status)] + [ServerPiece()] + [DatePiece(now)];
    var y, z := TypeLine(filepath) + CRLF, ModifiedLine(file) + CRLF;
    assert EntityPieces(status, now, field, filepath, file) + more == a + [field] + [y] + ([z] + more);
    if field == whole + CRLF {
      assert SeenPieces(status, now, field, whole, filepath, file) + more == a + [field] + [y] + ([z] + more);
    } else {
      ConcatMerge(a, field, y, [z] + more);
      assert SeenPieces(status, now, field, whole, filepath, file) + more == a + [field + y] + ([z] + more);
    }
  }

  const SERVER_NAME: string := "Server: "

  /** What the client reads of the file besides its length: always its date, but its type only when the
      field before, which is the length, has kept its end. */
  predicate Describes(lines: seq<string>, filepath: string, file: File, now: string, typed: bool) {
    && FieldOf(lines, SERVER_NAME) == Some("Tinyweb 1.1")
    && FieldOf(lines, DATE_NAME) == Some(now)
    && FieldOf(lines, MODIFIED_NAME) == Some(file.modified)
    && FieldOf(lines, TYPE_NAME) == (if typed then Some(ContentType.TypeName(ContentType.ENTRIES, filepath)) else None)
  }

  /** The beginnings of the lines tell the fields apart. */
  lemma NamesDiffer()
    ensures SERVER_NAME[0] == 'S' && DATE_NAME[0] == 'D' && LENGTH_NAME[0] == 'C' && TYPE_NAME[0] == 'C'
    ensures LENGTH_NAME[8] == 'L' && TYPE_NAME[8] == 'T'
    ensures MODIFIED_NAME[0] == 'L' && LOCATION_NAME[0] == 'L' && MODIFIED_NAME[1] == 'a' && LOCATION_NAME[1] == 'o'
  {
  }

  /** The lines before the length, as far as they matter for finding a field. */
  predicate AreFirst(first: seq<string>, now: string) {
    && |first| == 3 && first[0] != [] && first[0][0] == 'H'
    && first[1] == SERVER_NAME + "Tinyweb 1.1" && first[2] == DATE_NAME + now
  }

  lemma FirstLinesAreFirst(status: StatusEntry, now: string)
    requires status in STATUS_LIST
    ensures AreFirst(FirstLines(status, now), now)
  {
    StatusLineFits(status);
    hide StatusLine, STATUS_LIST;
    assert SERVER_LINE == SERVER_NAME + "Tinyweb 1.1";
  }

  lemma FirstFields(first: seq<string>, now: string, more: seq<string>)
    requires AreFirst(first, now)
    ensures FieldOf(first + more, SERVER_NAME) == Some("Tinyweb 1.1") && FieldOf(first + more, DATE_NAME) == Some(now)
  {
    var lines := first + more;
    NamesDiffer();
    NotPrefix(SERVER_NAME, lines[0], 0);
    NotPrefix(DATE_NAME, lines[0], 0);
    NotPrefix(DATE_NAME, lines[1], 0);
    FieldIs(lines, SERVER_NAME, 1);
    FieldIs(lines, DATE_NAME, 2);
  }

  /** A field that is not among the first lines is looked for in the others. */
  lemma FieldBehind(first: seq<string>, now: string, more: seq<string>, name: string)
    requires AreFirst(first, now) && name != [] && name[0] !in {'H', 'S', 'D'}
    ensures FieldOf(first + more, name) == FieldOf(more, name)
  {
    hide FieldOf;
    NamesDiffer();
    assert first[1][0] == 'S' && first[2][0] == 'D';
    NotPrefix(name, first[0], 0);
    NotPrefix(name, first[1], 0);
    NotPrefix(name, first[2], 0);
    hide AreFirst;
    FieldLater(first[2], more, name);
    FieldLater(first[1], [first[2]] + more, name);
    FieldLater(first[0], [first[1]] + ([first[2]] + more), name);
    assert first + more == [first[0]] + ([first[1]] + ([first[2]] + more));
  }

  lemma FieldLater(line: string, more: seq<string>, name: string)
    requires !(name <= line)
    ensures FieldOf([line] + more, name) == FieldOf(more, name)
  {
    assert ([line] + more)[1..] == more;
  }

  lemma TwoOrThreeFields(seen: string, typeLine: seq<string>, modified: string, filepath: string)
    requires LENGTH_NAME <= seen && (typeLine == [] || typeLine == [TypeLine(filepath)]) && MODIFIED_NAME <= modified
    ensures var lines := [seen] + typeLine + [modified];
            && FieldOf(lines, MODIFIED_NAME) == Some(modified[|MODIFIED_NAME|..])
            && FieldOf(lines, TYPE_NAME) ==
               (if typeLine == [] then None else Some(ContentType.TypeName(ContentType.ENTRIES, filepath)))
  {
    NamesDiffer();
    var lines := [seen] + typeLine + [modified];
    var typ := TypeLine(filepath);
    assert seen[0] == LENGTH_NAME[0] && seen[8] == LENGTH_NAME[8];
    assert modified[0] == MODIFIED_NAME[0] && typ[0] == TYPE_NAME[0];
    assert typ[|TYPE_NAME|..] == ContentType.TypeName(ContentType.ENTRIES, filepath);
    hide TypeLine, ContentType.TypeName;
    NotPrefix(MODIFIED_NAME, seen, 0);
    NotPrefix(MODIFIED_NAME, typ, 0);
    NotPrefix(TYPE_NAME, seen, 8);
    NotPrefix(TYPE_NAME, modified, 0);
    FieldIs(lines, MODIFIED_NAME, |lines| - 1);
    if typeLine == [] {
      assert lines == [seen] + [modified] && [modified] == [modified] + [];
      FieldLater(seen, [modified], TYPE_NAME);
      FieldLater(modified, [], TYPE_NAME);
    } else {
      FieldIs(lines, TYPE_NAME, 1);
    }
  }

  lemma SeenLinesDescribe(status: StatusEntry, now: string, field: string, whole: string, filepath: string, file: File)
    requires status in STATUS_LIST && LENGTH_NAME <= whole && LENGTH_NAME <= field
    ensures Describes(SeenLines(status, now, field, whole, filepath, file), filepath, file, now, field == whole + CRLF)
  {
    var seen := SeenLengthLine(field, whole, filepath);
    var typeLine := if field == whole + CRLF then [TypeLine(filepath)] else [];
    var modified := ModifiedLine(file);
    var more := [seen] + typeLine + [modified];
    assert SeenLines(status, now, field, whole, filepath, file) == FirstLines(status, now) + more;
    assert modified[|MODIFIED_NAME|..] == file.modified;
    NamesDiffer();
    var first := FirstLines(status, now);
    FirstLinesAreFirst(status, now);
    hide SeenLines, FirstLines, SeenLengthLine, TypeLine, ModifiedLine;
    FirstFields(first, now, more);
    FieldBehind(first, now, more, MODIFIED_NAME);
    FieldBehind(first, now, more, TYPE_NAME);
    TwoOrThreeFields(seen, typeLine, modified, filepath);
  }

  /** A full response: the client always finds the body, and the declared length is its size exactly
      when the size has at most eight digits; a longer number leaves the field without an end, and takes
      the type of the file with it. */
  lemma FullFraming(filepath: string, file: File, now: string, body: string)
    requires IsDate(now) && '\n' !in file.modified
    ensures var wire := HeaderText(EntityFields(STATUS_LIST[0], filepath, file, -2, -2), now) + body;
            var size := |file.content|;
            && ReadMessage(wire).Some? && ReadMessage(wire).value.body == body
            && DeclaredLength(ReadMessage(wire).value) == (if size < 100000000 then Some(size) else None)
            && Describes(ReadMessage(wire).value.lines, filepath, file, now, size < 100000000)
  {
    var n, status := |file.content|, STATUS_LIST[0];
    var field, whole := FullLength(n), LengthLine(n);
    FullLengthWholeIff(n);
    LengthLineIsLine(n);
    CutField(LENGTH_NAME, whole, |LENGTH_NAME| + SIZEOF_LONG_LONG + 2 + 1);
    SeenLinesFit(status, now, field, whole, filepath, file);
    SeenLinesDescribe(status, now, field, whole, filepath, file);
    LengthSeen(field, n, filepath);
    FullText(filepath, file, now, body);
    var pieces := SeenPieces(status, now, field, whole, filepath, file);
    PiecesAsSeen(status, now, field, whole, filepath, file, [CRLF]);
    hide HeaderText, EntityFields, Describes;
    ReadHeaderAndBody(pieces, SeenLines(status, now, field, whole, filepath, file), body);
  }

  lemma FullText(filepath: string, file: File, now: string, body: string)
    ensures HeaderText(EntityFields(STATUS_LIST[0], filepath, file, -2, -2), now) ==
            Concat(EntityPieces(STATUS_LIST[0], now, FullLength(|file.content|), filepath, file) + [CRLF])
  {
    hide FullLength, ContentType.TypeName, StatusPiece, ServerPiece, DatePiece;
    Associative(TYPE_NAME, ContentType.TypeName(ContentType.ENTRIES, filepath), CRLF);
    assert Pieces(EntityFields(STATUS_LIST[0], filepath, file, -2, -2), now) ==
           EntityPieces(STATUS_LIST[0], now, FullLength(|file.content|), filepath, file) + [CRLF];
  }

  // ---------------------------------------------------------------- responses that describe no file

  /** The first three lines and the empty one, and nothing else. */
  lemma BareRead(status: StatusEntry, now: string)
    requires status in STATUS_LIST && IsDate(now)
    ensures ReadMessage(HeaderText(Bare(status), now)) == Some(Message(FirstLines(status, now), []))
  {
    var pieces := [StatusPiece(status)] + [ServerPiece()] + [DatePiece(now)];
    assert Pieces(Bare(status), now) == pieces + [CRLF];
    FirstLinesFit(status, now);
    ReadHeaderAndBody(pieces, FirstLines(status, now), []);
    assert Concat(pieces + [CRLF]) + [] == Concat(pieces + [CRLF]);
  }

  /** The field that a redirection adds. */
  function LocationField(filepath: string): string { Snprintf(LOCATION_NAME + filepath + "/" + CRLF, 1000) }

  function RedirectFields(filepath: string): Fields {
    Bare(STATUS_LIST[2]).(contentLocation := Some(LocationField(filepath)))
  }

  /** A redirection is a message exactly when its location fits the buffer it is printed into; then it names
      the path with a slash behind it. */
  lemma RedirectRead(filepath: string, now: string)
    requires IsDate(now) && '\n' !in filepath
    ensures var m := ReadMessage(HeaderText(RedirectFields(filepath), now));
            && (m.Some? <==> |filepath| < 987)
            && (m.Some? ==> m.value.body == [] && FieldOf(m.value.lines, LOCATION_NAME) == Some(filepath + "/")
                            && FieldOf(m.value.lines, SERVER_NAME) == Some("Tinyweb 1.1")
                            && FieldOf(m.value.lines, DATE_NAME) == Some(now))
  {
    var status, field := STATUS_LIST[2], LocationField(filepath);
    var line := LOCATION_NAME + (filepath + "/");
    assert LOCATION_NAME + filepath + "/" + CRLF == line + CRLF;
    assert IsLine(line) by {
      assert '\n' !in LOCATION_NAME;
    }
    var first := [StatusPiece(status)] + [ServerPiece()] + [DatePiece(now)];
    assert Pieces(RedirectFields(filepath), now) == first + [field] + [CRLF];
    CutField(LOCATION_NAME, line, 1000);
    FirstLinesFit(status, now);
    NamesDiffer();
    FirstLinesAreFirst(status, now);
    var firstLines := FirstLines(status, now);
    hide FirstLines, StatusPiece, ServerPiece, DatePiece, Pieces;
    if |filepath| < 987 {
      assert field == line + CRLF;
      assert |firstLines| == 3;
      ReadHeaderAndBody(first + [field], firstLines + [line], []);
      assert Concat(first + [field] + [CRLF]) + [] == Concat(first + [field] + [CRLF]);
      FirstFields(firstLines, now, [line]);
      FieldBehind(firstLines, now, [line], LOCATION_NAME);
      FieldIs([line], LOCATION_NAME, 0);
      assert line[|LOCATION_NAME|..] == filepath + "/";
    } else {
      CutLineIsNoMessage(first, firstLines, field);
    }
  }

  /** A last line that lost its end takes that of the empty line: the client waits for more. */
  lemma CutLineIsNoMessage(first: seq<string>, firstLines: seq<string>, field: string)
    requires |first| == |firstLines| && forall i :: 0 <= i < |first| ==> first[i] == firstLines[i] + CRLF
    requires AreLines(firstLines) && IsLine(field)
    ensures ReadMessage(Concat(first + [field] + [CRLF])).None?
  {
    ConcatTwo(first, field, CRLF);
    ReadPieces(first + [field + CRLF], firstLines + [field], []);
    assert ReadMessage([]).None?;
    assert Concat(first + [field + CRLF]) + [] == Concat(first + [field + CRLF]);
  }

  lemma RangeLineIsLine(start: int, last: int, size: int)
    ensures var line := RangeLine(start, last, size); IsLine(line) && RANGE_NAME <= line
  {
    PrintHasNoNewline(start);
    PrintHasNoNewline(last);
    PrintHasNoNewline(size);
    assert '\n' !in RANGE_NAME && '\n' !in "bytes ";
  }

  lemma RangeLineValue(start: nat, last: nat, size: nat)
    ensures RangeLine(start, last, size)[|RANGE_NAME|..] == RangeValue(start, last, size)
  {
  }

  /** The numbers of a content range have at most twelve digits. */
  predicate RangeFits(start: nat, size: nat)
    requires start < size
  {
    |Print(start)| + |Print(size - 1)| + |Print(size)| <= 12
  }

  /** The numbers of a content range, as they are converted to int, fit the buffer they are printed into. */
  predicate RangePrinted(start: int, size: nat) {
    |PrintInt(start)| + |PrintInt(Wrap32(size - 1))| + |PrintInt(Wrap32(size))| <= 12
  }

  /** Numbers that an int does not hold have more than twelve digits, and from a start that an int holds,
      the converted numbers give a length of at most four digits only if they do not fit either. */
  lemma BigFileNeverFits(start: nat, size: nat)
    requires start < size && FitsInt32(start) && !FitsInt32(size)
    ensures !RangeFits(start, size)
    ensures Wrap32(size - start) == size - start < 10000 ==> !RangePrinted(start, size)
  {
    assert Pow10(4) == 10000;
    assert Pow10(9) == 1000000000 by {
      assert Pow10(8) == 10 * Pow10(7) && Pow10(6) == 10 * Pow10(5);
    }
    PrintLengthIff(size, 9);
    PrintLengthIff(size - 1, 9);
    if size - start < 10000 {
      assert Wrap32(size) == size - TWO32;
      PrintLengthIff(start, 9);
      PrintLengthIff(TWO32 - size, 9);
    }
  }

  predicate RangeFree(lines: seq<string>) { forall i :: 0 <= i < |lines| ==> !(RANGE_NAME <= lines[i]) }

  /** The lines declare a length that is read as `n`, or as no number if it is negative or was cut off. */
  predicate LengthReads(lines: seq<string>, n: int) {
    match FieldOf(lines, LENGTH_NAME)
    case None => false
    case Some(v) => if 0 <= n < 10000 then v != [] && AllDigits(v) && Value(v) == n else !AllDigits(v)
  }

  /** The part of a 206 response before its content range, as the client reads it. */
  lemma PartialStart(filepath: string, file: File, n: int, now: string, more: seq<string>, moreLines: seq<string>, rest: string)
    requires IsDate(now) && '\n' !in file.modified
    requires |more| == |moreLines| && forall i :: 0 <= i < |more| ==> more[i] == moreLines[i] + CRLF
    requires AreLines(moreLines)
    ensures var pieces := EntityPieces(STATUS_LIST[1], now, PartialLength(n), filepath, file);
            var lines := SeenLines(STATUS_LIST[1], now, PartialLength(n), LengthLine(n), filepath, file);
            && ReadMessage(Concat(pieces + more) + rest) ==
               (match ReadMessage(rest)
                case None => None
                case Some(m) => Some(Message(lines + moreLines + m.lines, m.body)))
            && RangeFree(lines) && LengthReads(lines, n) && Describes(lines, filepath, file, now, -1000 < n < 10000)
  {
    var status := STATUS_LIST[1];
    var field, whole := PartialLength(n), LengthLine(n);
    PartialLengthWholeIff(n);
    LengthLineIsLine(n);
    CutField(LENGTH_NAME, whole, |LENGTH_NAME| + SIZEOF_INT + 2 + 1);
    SeenLinesFit(status, now, field, whole, filepath, file);
    LengthSeen(field, n, filepath);
    SeenLinesDescribe(status, now, field, whole, filepath, file);
    hide Describes;
    var pieces := SeenPieces(status, now, field, whole, filepath, file);
    var lines := SeenLines(status, now, field, whole, filepath, file);
    PiecesAsSeen(status, now, field, whole, filepath, file, more);
    JoinFits(pieces, lines, more, moreLines);
    ReadPieces(pieces + more, lines + moreLines, rest);
  }

  lemma JoinFits(pieces: seq<string>, lines: seq<string>, more: seq<string>, moreLines: seq<string>)
    requires |pieces| == |lines| && forall i :: 0 <= i < |lines| ==> pieces[i] == lines[i] + CRLF
    requires |more| == |moreLines| && forall i :: 0 <= i < |more| ==> more[i] == moreLines[i] + CRLF
    requires AreLines(lines) && AreLines(moreLines)
    ensures AreLines(lines + moreLines)
    ensures forall i :: 0 <= i < |lines + moreLines| ==> (pieces + more)[i] == (lines + moreLines)[i] + CRLF
  {
  }

  /** The text of a partial response before its empty line. The sizes are converted to int. */
  lemma PartialText(filepath: string, file: File, start: int, end: int, now: string)
    requires IsPartial(start, end)
    ensures var size := |file.content|;
            var pieces := EntityPieces(STATUS_LIST[1], now, PartialLength(Wrap32(size - start)), filepath, file);
            var range := PartialRange(start, Wrap32(size - 1), Wrap32(size));
            && HeaderText(EntityFields(STATUS_LIST[1], filepath, file, start, end), now) == Concat(pieces + [range]) + CRLF
            && HeaderText(EntityFields(STATUS_LIST[1], filepath, file, start, end), now) == Concat(pieces + [range + CRLF])
  {
    PartialPieces(filepath, file, start, end, now);
    var size := |file.content|;
    var pieces := EntityPieces(STATUS_LIST[1], now, PartialLength(Wrap32(size - start)), filepath, file);
    var range := PartialRange(start, Wrap32(size - 1), Wrap32(size));
    hide Pieces, Concat, EntityFields, EntityPieces, PartialRange, PartialLength, Wrap32;
    ConcatTwo(pieces, range, CRLF);
  }

  lemma PartialPieces(filepath: string, file: File, start: int, end: int, now: string)
    requires IsPartial(start, end)
    ensures var size := |file.content|;
            Pieces(EntityFields(STATUS_LIST[1], filepath, file, start, end), now) ==
            EntityPieces(STATUS_LIST[1], now, PartialLength(Wrap32(size - start)), filepath, file)
            + [PartialRange(start, Wrap32(size - 1), Wrap32(size))] + [CRLF]
  {
    hide PartialLength, PartialRange, Wrap32, ContentType.TypeName, StatusPiece, ServerPiece, DatePiece;
    Associative(TYPE_NAME, ContentType.TypeName(ContentType.ENTRIES, filepath), CRLF);
  }

  lemma ConcatTwo(pieces: seq<string>, a: string, b: string)
    ensures Concat(pieces + [a] + [b]) == Concat(pieces + [a]) + b == Concat(pieces + [a + b])
  {
    ConcatAppend(pieces + [a], b);
    ConcatAppend(pieces, a);
    ConcatAppend(pieces, a + b);
    Associative(Concat(pieces), a, b);
  }

  /** What the client makes of the lines of a partial response. */
  lemma PartialDecoded(lines: seq<string>, n: int, a: int, b: int, c: int, body: string)
    requires RangeFree(lines) && LengthReads(lines, n)
    ensures DeclaredLength(Message(lines + [RangeLine(a, b, c)], body)) == if 0 <= n < 10000 then Some(n) else None
    ensures a >= 0 && b >= 0 && c >= 0 ==>
              DeclaredRange(Message(lines + [RangeLine(a, b, c)], body)) == Some(RangeTriple(a, b, c))
  {
    var range := RangeLine(a, b, c);
    FieldKept(lines, [range], LENGTH_NAME);
    if a >= 0 && b >= 0 && c >= 0 {
      RangeLineIsLine(a, b, c);
      RangeLineValue(a, b, c);
      RangeValueRoundTrip(a, b, c);
      FieldIs(lines + [range], RANGE_NAME, |lines|);
    }
  }

  /** The message a client reads from a partial response whose content range fits. */
  lemma PartialMessage(filepath: string, file: File, start: int, end: int, now: string, body: string) returns (lines: seq<string>)
    requires IsDate(now) && '\n' !in file.modified && IsPartial(start, end)
    requires RangePrinted(start, |file.content|)
    ensures var size := |file.content|;
            && ReadMessage(HeaderText(EntityFields(STATUS_LIST[1], filepath, file, start, end), now) + body) ==
               Some(Message(lines + [RangeLine(start, Wrap32(size - 1), Wrap32(size))], body))
            && RangeFree(lines) && LengthReads(lines, Wrap32(size - start))
            && Describes(lines, filepath, file, now, -1000 < Wrap32(size - start) < 10000)
  {
    hide HeaderText, EntityFields, EntityPieces, SeenLines, LengthLine, PartialLength, PartialRange, RangeLine, Concat, RangeFree, LengthReads, Describes;
    var size := |file.content|;
    var n, b, c := Wrap32(size - start), Wrap32(size - 1), Wrap32(size);
    hide Wrap32;
    var range := RangeLine(start, b, c);
    PartialText(filepath, file, start, end, now);
    PartialRangeWholeIff(start, b, c);
    RangeLineIsLine(start, b, c);
    var pieces := EntityPieces(STATUS_LIST[1], now, PartialLength(n), filepath, file);
    lines := SeenLines(STATUS_LIST[1], now, PartialLength(n), LengthLine(n), filepath, file);
    PartialStart(filepath, file, n, now, [range + CRLF], [range], CRLF + body);
    Associative(Concat(pieces + [range + CRLF]), CRLF, body);
    ReadEmptyLine(body);
    assert lines + [range] + [] == lines + [range];
  }

  lemma DescribesKept(lines: seq<string>, range: string, filepath: string, file: File, now: string, typed: bool)
    requires Describes(lines, filepath, file, now, typed) && RANGE_NAME <= range
    ensures Describes(lines + [range], filepath, file, now, typed)
  {
    FieldKept(lines, [range], SERVER_NAME);
    FieldKept(lines, [range], DATE_NAME);
    FieldKept(lines, [range], MODIFIED_NAME);
    if typed {
      FieldKept(lines, [range], TYPE_NAME);
    } else {
      assert RANGE_NAME[8] == 'R' && TYPE_NAME[8] == 'T';
      NotPrefix(TYPE_NAME, range, 8);
      FieldStaysAbsent(lines, range, TYPE_NAME);
    }
  }

  lemma FieldStaysAbsent(lines: seq<string>, line: string, name: string)
    requires FieldOf(lines, name).None? && !(name <= line)
    ensures FieldOf(lines + [line], name).None?
    decreases |lines|
  {
    if lines == [] {
      assert [line][1..] == [];
    } else {
      assert (lines + [line])[1..] == lines[1..] + [line];
      FieldStaysAbsent(lines[1..], line, name);
    }
  }

  /** A partial response whose content range fits, whatever the size of the file: the client finds the
      body, and reads the length as it was converted to int, if that has at most four digits. If an int
      holds the size, it also finds the range. */
  lemma PartialFraming(filepath: string, file: File, start: int, end: int, now: string, body: string)
    requires IsDate(now) && '\n' !in file.modified && IsPartial(start, end)
    requires RangePrinted(start, |file.content|)
    ensures var m := ReadMessage(HeaderText(EntityFields(STATUS_LIST[1], filepath, file, start, end), now) + body);
            var size := |file.content|;
            var n := Wrap32(size - start);
            && m.Some? && m.value.body == body
            && DeclaredLength(m.value) == (if 0 <= n < 10000 then Some(n) else None)
            && (0 <= start < size && FitsInt32(size) ==> DeclaredRange(m.value) == Some(RangeTriple(start, size - 1, size)))
            && Describes(m.value.lines, filepath, file, now, -1000 < n < 10000)
  {
    hide HeaderText, EntityFields, RangeLine, ReadMessage, Describes, RangeFree, LengthReads, RangePrinted, DeclaredLength, DeclaredRange;
    var lines := PartialMessage(filepath, file, start, end, now, body);
    var size := |file.content|;
    RangeLineIsLine(start, Wrap32(size - 1), Wrap32(size));
    PartialDecoded(lines, Wrap32(size - start), start, Wrap32(size - 1), Wrap32(size), body);
    DescribesKept(lines, RangeLine(start, Wrap32(size - 1), Wrap32(size)), filepath, file, now, -1000 < Wrap32(size - start) < 10000);
  }

  /** A content range that does not fit loses its line end, and with it the empty line: the client does
      not find the body that was sent. */
  lemma CutRangeLosesBody(filepath: string, file: File, start: int, end: int, now: string, body: string)
    requires IsDate(now) && '\n' !in file.modified && IsPartial(start, end)
    requires !RangePrinted(start, |file.content|)
    ensures var wire := HeaderText(EntityFields(STATUS_LIST[1], filepath, file, start, end), now) + body;
            ReadMessage(wire).Some? ==> ReadMessage(wire).value.body != body
  {
    hide HeaderText, EntityFields, ReadMessage, EntityPieces, SeenLines, LengthLine, PartialLength, Concat, RangeFree, LengthReads, Describes;
    var size := |file.content|;
    var n, b, c := Wrap32(size - start), Wrap32(size - 1), Wrap32(size);
    hide Wrap32;
    var range, cut := RangeLine(start, b, c), PartialRange(start, b, c);
    PartialText(filepath, file, start, end, now);
    PartialRangeWholeIff(start, b, c);
    RangeLineIsLine(start, b, c);
    CutField(RANGE_NAME, range, |RANGE_NAME| + SIZEOF_INT * 3 + |"bytes -/\r\n"| + 1);
    var pieces := EntityPieces(STATUS_LIST[1], now, PartialLength(n), filepath, file);
    PartialStart(filepath, file, n, now, [cut + CRLF], [cut], body);
  }
}
