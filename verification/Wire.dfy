/** Lines ended by CRLF: what a client reads from the wire, and how a header is printed line by line. */
module Wire {
  import opened Sequences
  import opened Tokenizer

  const CRLF: string := "\r\n"

  predicate CrlfAt(s: string, i: nat) { i + 1 < |s| && s[i] == '\r' && s[i + 1] == '\n' }

  /** The first CRLF at or after position `i`, as strstr finds it. */
  function FindCrlf(s: string, i: nat): (r: Option<nat>)
    ensures r.Some? ==> i <= r.value && CrlfAt(s, r.value) && forall n :: i <= n < r.value ==> !CrlfAt(s, n)
    ensures r.None? ==> forall n :: i <= n ==> !CrlfAt(s, n)
    decreases |s| - i
  {
    if i >= |s| then None
    else if CrlfAt(s, i) then Some(i)
    else FindCrlf(s, i + 1)
  }

  lemma FindCrlfIs(s: string, i: nat, n: nat)
    requires i <= n && CrlfAt(s, n) && forall k :: i <= k < n ==> !CrlfAt(s, k)
    ensures FindCrlf(s, i) == Some(n)
  {
  }

  /** A line without a newline is read up to the CRLF that follows it. */
  lemma LineEnds(line: string, rest: string)
    requires '\n' !in line
    ensures FindCrlf(line + CRLF + rest, 0) == Some(|line|)
    ensures (line + CRLF + rest)[..|line|] == line
    ensures (line + CRLF + rest)[|line| + 2..] == rest
  {
    var s := line + CRLF + rest;
    forall k | 0 <= k < |line|
      ensures !CrlfAt(s, k)
    {
      assert k + 1 < |line| ==> s[k + 1] == line[k + 1];
    }
    FindCrlfIs(s, 0, |line|);
  }

  // ---------------------------------------------------------------- what a client reads

  /** The header lines of a message, and the body that follows the first empty line. */
  datatype Message = Message(lines: seq<string>, body: string)

  function ReadMessage(wire: string): (m: Option<Message>)
    ensures m.Some? ==> |m.value.body| + 2 <= |wire|
    decreases |wire|
  {
    match FindCrlf(wire, 0)
    case None => None
    case Some(n) =>
      if n == 0 then Some(Message([], wire[2..]))
      else
        match ReadMessage(wire[n + 2..])
        case None => None
        case Some(m) => Some(Message([wire[..n]] + m.lines, m.body))
  }

  /** Lines as they are sent, before the rest of the message. */
  function Send(lines: seq<string>, rest: string): string {
    if lines == [] then rest else lines[0] + CRLF + Send(lines[1..], rest)
  }

  predicate IsLine(line: string) { line != [] && '\n' !in line }

  predicate AreLines(lines: seq<string>) { forall i :: 0 <= i < |lines| ==> IsLine(lines[i]) }

  lemma ReadLine(line: string, rest: string)
    requires IsLine(line)
    ensures ReadMessage(line + CRLF + rest) ==
            match ReadMessage(rest)
            case None => None
            case Some(m) => Some(Message([line] + m.lines, m.body))
  {
    LineEnds(line, rest);
  }

  /** The client reads back the lines that were sent, and then whatever follows them. */
  lemma {:induction false} ReadSent(lines: seq<string>, rest: string)
    requires AreLines(lines)
    ensures ReadMessage(Send(lines, rest)) ==
            match ReadMessage(rest)
            case None => None
            case Some(m) => Some(Message(lines + m.lines, m.body))
  {
    if lines == [] {
      assert ReadMessage(rest).Some? ==> [] + ReadMessage(rest).value.lines == ReadMessage(rest).value.lines;
    } else {
      ReadLine(lines[0], Send(lines[1..], rest));
      ReadSent(lines[1..], rest);
      if ReadMessage(rest).Some? {
        Associative([lines[0]], lines[1..], ReadMessage(rest).value.lines);
        assert [lines[0]] + lines[1..] == lines;
      }
    }
  }

  lemma ReadEmptyLine(body: string)
    ensures ReadMessage(CRLF + body) == Some(Message([], body))
  {
    var wire := CRLF + body;
    assert CrlfAt(wire, 0);
    FindCrlfIs(wire, 0, 0);
    assert wire[2..] == body;
  }

  /** The value of the first header line with the given name, colon and space included. */
  function FieldOf(lines: seq<string>, name: string): Option<string> {
    if lines == [] then None
    else if name <= lines[0] then Some(lines[0][|name|..])
    else FieldOf(lines[1..], name)
  }

  lemma {:induction false} FieldIs(lines: seq<string>, name: string, i: nat)
    requires i < |lines| && name <= lines[i] && forall j :: 0 <= j < i ==> !(name <= lines[j])
    ensures FieldOf(lines, name) == Some(lines[i][|name|..])
  {
    if i > 0 {
      assert forall j :: 0 <= j < i - 1 ==> lines[1..][j] == lines[j + 1];
      FieldIs(lines[1..], name, i - 1);
    }
  }

  // ---------------------------------------------------------------- printing a header

  /** The parts of a text that are ended by CRLF; what follows the last CRLF is not one of them. */
  function EndedLines(s: string): seq<string>
    decreases |s|
  {
    match FindCrlf(s, 0)
    case None => []
    case Some(n) => [s[..n]] + EndedLines(s[n + 2..])
  }

  /** The printed lines are those the text was built from. */
  lemma {:induction false} EndedLinesOfSent(lines: seq<string>, tail: string)
    requires forall i :: 0 <= i < |lines| ==> '\n' !in lines[i]
    requires FindCrlf(tail, 0).None?
    ensures EndedLines(Send(lines, tail)) == lines
  {
    if lines != [] {
      LineEnds(lines[0], Send(lines[1..], tail));
      EndedLinesOfSent(lines[1..], tail);
    }
  }

  lemma FindCrlfShift(a: seq<char>, from: nat, s: string)
    requires Terminated(a, from) && s == CString(a, from)
    ensures forall n :: 0 <= n < |s| ==> (CrlfAt(s, n) <==> a[from + n] == '\r' && a[from + n + 1] == '\n')
  {
    EndsAtNul(a, from, |s|);
    forall n | 0 <= n < |s|
      ensures CrlfAt(s, n) <==> a[from + n] == '\r' && a[from + n + 1] == '\n'
    {
      assert s[n] == a[from + n];
      assert n + 1 < |s| ==> s[n + 1] == a[from + n + 1];
    }
  }

  /** strstr(prev_ptr, CRLF). */
  method Strstr(buffer: array<char>, from: nat, ghost s: string) returns (ptr: Option<nat>)
    requires Terminated(buffer[..], from) && s == CString(buffer[..], from)
    ensures ptr.None? ==> FindCrlf(s, 0).None?
    ensures ptr.Some? ==> from <= ptr.value && FindCrlf(s, 0) == Some(ptr.value - from)
  {
    var n := 0;
    FindCrlfShift(buffer[..], from, s);
    EndsAtNul(buffer[..], from, 0);
    while buffer[from + n] != NUL
      invariant n <= |s| && forall k :: 0 <= k < n ==> !CrlfAt(s, k)
      invariant buffer[from + n] == NUL <==> n == |s|
      decreases |s| - n
    {
      if buffer[from + n] == '\r' && buffer[from + n + 1] == '\n' {
        FindCrlfIs(s, 0, n);
        return Some(from + n);
      }
      n := n + 1;
      EndsAtNul(buffer[..], from, n);
    }
    return None;
  }

  /** Ending a line in place leaves the line before the CRLF and the text after it. */
  lemma EndLine(a: seq<char>, from: nat, n: nat)
    requires Terminated(a, from) && CrlfAt(CString(a, from), n)
    ensures var s, b := CString(a, from), a[from + n := NUL];
            && Terminated(b, from) && CString(b, from) == s[..n]
            && Terminated(b, from + n + 2) && CString(b, from + n + 2) == s[n + 2..]
  {
    var b := a[from + n := NUL];
    CutString(a, from, n);
    DropPrefix(b, from + n + 1, 1);
  }

  lemma FirstEndedLine(text: string, n: nat)
    requires FindCrlf(text, 0) == Some(n)
    ensures CrlfAt(text, n) && EndedLines(text) == [text[..n]] + EndedLines(text[n + 2..])
  {
  }

  /** Ends the line at `from` by overwriting the CRLF at `ptr`, and reads it for printing. */
  method TakeLine(buffer: array<char>, from: nat, ptr: nat, ghost text: string) returns (line: string, ghost rest: string)
    requires Terminated(buffer[..], from) && CString(buffer[..], from) == text
    requires from <= ptr && FindCrlf(text, 0) == Some(ptr - from)
    modifies buffer
    ensures Terminated(buffer[..], ptr + 2) && CString(buffer[..], ptr + 2) == rest
    ensures |rest| < |text| && EndedLines(text) == [line] + EndedLines(rest)
  {
    ghost var a, n := buffer[..], ptr - from;
    FirstEndedLine(text, n);
    hide CString, EndedLines, FindCrlf;
    rest := text[n + 2..];
    EndLine(a, from, n);
    buffer[ptr] := NUL;
    assert buffer[..] == a[ptr := NUL];
    line := ReadString(buffer, from);
  }

  /** The loop of print_http_header over its own copy of the response: each CRLF's carriage return is
      overwritten, the line before it printed. The printed lines are exactly the CRLF-ended lines. */
  method PrintHeaderLines(buffer: array<char>) returns (printed: seq<string>)
    requires Terminated(buffer[..], 0)
    modifies buffer
    ensures printed == EndedLines(old(CString(buffer[..], 0)))
  {
    ghost var text := CString(buffer[..], 0);
    ghost var whole := EndedLines(text);
    printed := [];
    var prevPtr := 0;
    while true
      invariant Terminated(buffer[..], prevPtr) && CString(buffer[..], prevPtr) == text
      invariant whole == printed + EndedLines(text)
      decreases |text|
    {
      var ptr := Strstr(buffer, prevPtr, text);
      if ptr.None? { break; }
      var line;
      ghost var rest;
      line, rest := TakeLine(buffer, prevPtr, ptr.value, text);
      Associative(printed, [line], EndedLines(rest));
      text := rest;
      printed := printed + [line];
      prevPtr := ptr.value + 2;
    }
  }
}
