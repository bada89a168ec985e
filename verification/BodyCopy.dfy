/** write_response_body: the chunked copy loop from the file to the socket. */
module BodyCopy {
  import opened Sequences
  import opened SocketIo

  const CHUNK_SIZE: nat := 256
  const SIZE_T: int := 0x1_0000_0000_0000_0000

  /** What write() does with a chunk: all of it, only a part, or nothing and -1. */
  datatype WriteResult = Whole | Short(n: nat) | Broken

  /** One turn of the loop: how much read() may return at most and what write() does, or a failing read. */
  datatype Turn = Turn(cap: nat, write: WriteResult) | ReadFails

  /** The turn ends the copy with an error. The test for a failing read never holds, as it compares an
      unsigned number with zero; but the -1, taken for a length, makes a write no buffer is long enough
      for, and that one fails. */
  predicate Fails(t: Turn) { t.ReadFails? || t.write.Broken? }

  /** Done, stopped by an error, or still running when the script of turns ends. */
  datatype CopyStatus = Done | Aborted | Pending

  datatype Copy = Copy(sent: seq<Byte>, status: CopyStatus)

  /** read() returns up to a chunk from the file's current offset, and 0 at its end. */
  function ReadCount(cap: nat, offset: nat, size: nat): (n: nat)
    ensures n <= CHUNK_SIZE && (n > 0 ==> offset + n <= size)
  {
    if offset < size then Min(Min(cap, CHUNK_SIZE), size - offset) else 0
  }

  /** `k` bytes of the file from `offset`; none when there are none to take. */
  function Piece(content: seq<Byte>, offset: nat, k: nat): (piece: seq<Byte>)
    requires k > 0 ==> offset + k <= |content|
    ensures |piece| == k
  {
    if k == 0 then [] else content[offset..offset + k]
  }

  /** How many of the `n` bytes read a write takes. */
  function WrittenCount(w: WriteResult, n: nat): (k: nat)
    requires !w.Broken?
    ensures k <= n
  {
    if w.Whole? then n else Min(w.n, n)
  }

  function CopyRun(content: seq<Byte>, turns: seq<Turn>, offset: nat, written: nat, limit: int): Copy
    decreases |turns|
  {
    if written >= limit then Copy([], Done)
    else if turns == [] then Copy([], Pending)
    else if Fails(turns[0]) then Copy([], Aborted)
    else
      var n := ReadCount(turns[0].cap, offset, |content|);
      var k := WrittenCount(turns[0].write, n);
      var c := CopyRun(content, turns[1..], offset + n, written + k, limit);
      Copy(Piece(content, offset, k) + c.sent, c.status)
  }

  /** The bytes a run reads and never sends. The program does not keep this count. */
  function Lost(turns: seq<Turn>, offset: nat, written: nat, limit: int, size: nat): nat
    decreases |turns|
  {
    if written >= limit || turns == [] || Fails(turns[0]) then 0
    else
      var n := ReadCount(turns[0].cap, offset, size);
      var k := WrittenCount(turns[0].write, n);
      n - k + Lost(turns[1..], offset + n, written + k, limit, size)
  }

  predicate IsPartial(start: int, end: int) { start != -2 && end != -2 }

  /** The end of the range as a size_t. */
  function ToSizeT(end: int): int { if end < 0 then end + SIZE_T else end }

  /** The position the loop copies up to. */
  function Limit(size: nat, start: int, end: int): int {
    if !IsPartial(start, end) || end == -1 then size else ToSizeT(end)
  }

  function Offset(start: int, end: int): int {
    if IsPartial(start, end) then start else 0
  }

  /** The whole function; lseek fails on a negative offset, which is how suffix ranges end. */
  function BodyRun(content: seq<Byte>, start: int, end: int, turns: seq<Turn>): Copy {
    var offset := Offset(start, end);
    if offset < 0 then Copy([], Aborted)
    else CopyRun(content, turns, offset, offset, Limit(|content|, start, end))
  }

  function BodyLost(size: nat, start: int, end: int, turns: seq<Turn>): nat {
    var offset := Offset(start, end);
    if offset < 0 then 0 else Lost(turns, offset, offset, Limit(size, start, end), size)
  }

  // ---------------------------------------------------------------- what the loop delivers

  lemma TurnUnfolds(content: seq<Byte>, turns: seq<Turn>, offset: nat, written: nat, limit: int)
    requires written < limit && turns != [] && !Fails(turns[0])
    ensures var n := ReadCount(turns[0].cap, offset, |content|);
            var k := WrittenCount(turns[0].write, n);
            var c := CopyRun(content, turns[1..], offset + n, written + k, limit);
            && CopyRun(content, turns, offset, written, limit) == Copy(Piece(content, offset, k) + c.sent, c.status)
            && Lost(turns, offset, written, limit, |content|)
               == n - k + Lost(turns[1..], offset + n, written + k, limit, |content|)
  {
    hide Piece, ReadCount, WrittenCount;
  }

  lemma CopyStops(content: seq<Byte>, turns: seq<Turn>, offset: nat, written: nat, limit: int)
    requires written >= limit || turns == [] || Fails(turns[0])
    ensures CopyRun(content, turns, offset, written, limit)
            == Copy([], if written >= limit then Done else if turns == [] then Pending else Aborted)
    ensures Lost(turns, offset, written, limit, |content|) == 0
  {
  }

  /** Whatever reads and writes do: the loop has ended exactly when the count has reached the limit, which
      it passes by fewer than 256; and the bytes sent and the bytes lost come out of what the file still
      held. */
  lemma {:induction false} CopyAccount(content: seq<Byte>, turns: seq<Turn>, offset: nat, written: nat, limit: int)
    requires offset <= |content|
    ensures var c := CopyRun(content, turns, offset, written, limit);
            && (c.status == Done <==> written + |c.sent| >= limit)
            && (written < limit ==> written + |c.sent| < limit + CHUNK_SIZE)
            && (written >= limit ==> c.sent == [])
            && offset + |c.sent| + Lost(turns, offset, written, limit, |content|) <= |content|
    decreases |turns|
  {
    hide CopyRun, Lost, Piece, ReadCount, WrittenCount;
    if written >= limit || turns == [] || Fails(turns[0]) {
      CopyStops(content, turns, offset, written, limit);
    } else {
      var n := ReadCount(turns[0].cap, offset, |content|);
      var k := WrittenCount(turns[0].write, n);
      TurnUnfolds(content, turns, offset, written, limit);
      CopyAccount(content, turns[1..], offset + n, written + k, limit);
    }
  }

  /** A run that loses nothing has sent, at every moment, a contiguous slice of the file from the offset. */
  lemma {:induction false} NothingLostSendsSlice(content: seq<Byte>, turns: seq<Turn>, offset: nat, limit: int, last: nat)
    requires offset <= |content| && Lost(turns, offset, offset, limit, |content|) == 0
    requires last == offset + |CopyRun(content, turns, offset, offset, limit).sent|
    ensures last <= |content| && CopyRun(content, turns, offset, offset, limit).sent == content[offset..last]
    decreases |turns|
  {
    CopyAccount(content, turns, offset, offset, limit);
    if offset < limit && turns != [] && !Fails(turns[0]) {
      var next := offset + ReadCount(turns[0].cap, offset, |content|);
      LosslessTurn(content, turns, offset, limit, next);
      hide CopyRun, Lost, Piece, ReadCount, WrittenCount;
      NothingLostSendsSlice(content, turns[1..], next, limit, last);
      GlueSlices(content, offset, next, last);
    }
  }

  lemma LosslessTurn(content: seq<Byte>, turns: seq<Turn>, offset: nat, limit: int, next: nat)
    requires offset < limit && offset <= |content| && turns != [] && !Fails(turns[0])
    requires next == offset + ReadCount(turns[0].cap, offset, |content|)
    requires Lost(turns, offset, offset, limit, |content|) == 0
    ensures next <= |content| && Lost(turns[1..], next, next, limit, |content|) == 0
    ensures CopyRun(content, turns, offset, offset, limit).sent
            == Piece(content, offset, next - offset) + CopyRun(content, turns[1..], next, next, limit).sent
  {
    hide CopyRun, Lost, Piece, ReadCount, WrittenCount;
    TurnUnfolds(content, turns, offset, offset, limit);
  }

  lemma GlueSlices(s: seq<Byte>, i: nat, j: nat, k: nat)
    requires i <= j <= k <= |s|
    ensures Piece(s, i, j - i) + s[j..k] == s[i..k]
  {
  }

  /** Bytes already lost count against the limit like bytes the file does not have: a limit beyond the
      file, or one the file could only just reach, is never reached however long the loop runs. */
  lemma {:induction false} LostNeverDone(content: seq<Byte>, turns: seq<Turn>, offset: nat, written: nat, limit: int)
    requires written <= offset <= |content| && |content| - (offset - written) < limit
    ensures CopyRun(content, turns, offset, written, limit).status != Done
  {
    CopyAccount(content, turns, offset, written, limit);
  }

  /** Up to the end of the file, every turn succeeds and writes what it reads. */
  predicate TakesAll(turns: seq<Turn>, offset: nat, size: nat)
    decreases |turns|
  {
    offset < size ==>
      && turns != [] && !Fails(turns[0])
      && var n := ReadCount(turns[0].cap, offset, size);
         WrittenCount(turns[0].write, n) == n && TakesAll(turns[1..], offset + n, size)
  }

  /** A copy up to the end of the file ends exactly when the reads reach that end and no write before it
      fails or is short. One short write, and it runs for ever. */
  lemma {:induction false} DoneIffTakesAll(content: seq<Byte>, turns: seq<Turn>, offset: nat)
    requires offset <= |content|
    ensures CopyRun(content, turns, offset, offset, |content|).status == Done <==> TakesAll(turns, offset, |content|)
    decreases |turns|
  {
    if offset < |content| && turns != [] && !Fails(turns[0]) {
      var n := ReadCount(turns[0].cap, offset, |content|);
      var k := WrittenCount(turns[0].write, n);
      if k < n {
        LostNeverDone(content, turns[1..], offset + n, offset + k, |content|);
      } else {
        DoneIffTakesAll(content, turns[1..], offset + n);
      }
    }
  }

  /** The copy ends, having lost `d` bytes on the way. */
  predicate EndsWithLoss(content: seq<Byte>, turns: seq<Turn>, start: nat, limit: int, d: nat) {
    && CopyRun(content, turns, start, start, limit).status == Done
    && Lost(turns, start, start, limit, |content|) == d
  }

  /** How much short writes can lose without anybody noticing: a copy up to a position inside the file may
      lose as many bytes as lie behind that position, and no more, and end all the same. */
  lemma LossPossibleIff(content: seq<Byte>, start: nat, limit: nat, d: nat)
    requires start < limit <= |content|
    ensures (exists turns :: EndsWithLoss(content, turns, start, limit, d)) <==> d <= |content| - limit
  {
    if d <= |content| - limit {
      LosingTurnsEnd(content, start, start, limit, d, start + d, limit + d);
      assert EndsWithLoss(content, LosingTurns(d, limit - start), start, limit, d);
    }
    forall turns | EndsWithLoss(content, turns, start, limit, d)
      ensures d <= |content| - limit
    {
      CopyAccount(content, turns, start, start, limit);
    }
  }

  /** Reads of one byte each: `d` whose writes take nothing, then `k` whose writes take the byte. */
  function LosingTurns(d: nat, k: nat): seq<Turn> {
    if d > 0 then [Turn(1, Short(0))] + LosingTurns(d - 1, k)
    else if k > 0 then [Turn(1, Whole)] + LosingTurns(0, k - 1)
    else []
  }

  /** They send, in place of the bytes asked for, those that lie `d` further on. */
  lemma {:induction false} LosingTurnsEnd(
    content: seq<Byte>, offset: nat, written: nat, limit: nat, d: nat, first: nat, last: nat)
    requires written <= limit && first == offset + d && last == first + (limit - written) <= |content|
    ensures CopyRun(content, LosingTurns(d, limit - written), offset, written, limit) == Copy(content[first..last], Done)
    ensures written < limit ==> Lost(LosingTurns(d, limit - written), offset, written, limit, |content|) == d
    decreases d + limit - written
  {
    hide LosingTurns, CopyRun, Lost;
    var turns, k := LosingTurns(d, limit - written), limit - written;
    if k == 0 {
      CopyStops(content, turns, offset, written, limit);
    } else {
      LosingTurnsSplit(d, k);
      OneByteTurn(content, turns, offset, written, limit);
      if d > 0 {
        LosingTurnsEnd(content, offset + 1, written, limit, d - 1, first, last);
      } else {
        LosingTurnsEnd(content, offset + 1, written + 1, limit, 0, offset + 1, last);
        NothingLeft(turns[1..], offset + 1, written + 1, limit, |content|);
        FirstByte(content, offset, last);
      }
    }
  }

  lemma LosingTurnsSplit(d: nat, k: nat)
    requires k > 0
    ensures var turns := LosingTurns(d, k);
            && turns != [] && turns[0] == Turn(1, if d > 0 then Short(0) else Whole)
            && turns[1..] == if d > 0 then LosingTurns(d - 1, k) else LosingTurns(0, k - 1)
  {
  }

  lemma FirstByte(s: seq<Byte>, i: nat, j: nat)
    requires i < j <= |s|
    ensures s[i..i + 1] + s[i + 1..j] == s[i..j]
  {
  }

  lemma NothingLeft(turns: seq<Turn>, offset: nat, written: nat, limit: int, size: nat)
    ensures written >= limit ==> Lost(turns, offset, written, limit, size) == 0
  {
  }

  /** A turn that reads one byte, and sends it or loses it. */
  lemma OneByteTurn(content: seq<Byte>, turns: seq<Turn>, offset: nat, written: nat, limit: nat)
    requires offset < |content| && written < limit && turns != []
    requires turns[0] == Turn(1, Short(0)) || turns[0] == Turn(1, Whole)
    ensures var k := if turns[0].write.Whole? then 1 else 0;
            var c := CopyRun(content, turns[1..], offset + 1, written + k, limit);
            && CopyRun(content, turns, offset, written, limit) == Copy(content[offset..offset + k] + c.sent, c.status)
            && Lost(turns, offset, written, limit, |content|) == 1 - k + Lost(turns[1..], offset + 1, written + k, limit, |content|)
  {
    TurnUnfolds(content, turns, offset, written, limit);
    assert ReadCount(1, offset, |content|) == 1;
    assert WrittenCount(Short(0), 1) == 0 && WrittenCount(Whole, 1) == 1;
    hide ReadCount, WrittenCount, CopyRun, Lost;
  }

  /** A short write loses bytes: the loop goes on reading where the read left off. */
  lemma ShortWriteLosesBytes()
    ensures BodyRun("ab", -2, -2, [Turn(2, Short(1)), Turn(2, Whole)]) == Copy("a", Pending)
  {
    var turns := [Turn(2, Short(1)), Turn(2, Whole)];
    assert turns[1..] == [Turn(2, Whole)] && turns[1..][1..] == [];
    assert CopyRun("ab", [], 2, 1, 2) == Copy([], Pending);
    assert CopyRun("ab", turns[1..], 2, 1, 2) == Copy([], Pending);
  }

  // ---------------------------------------------------------------- when the loop ends

  predicate AllWhole(turns: seq<Turn>) { forall i :: 0 <= i < |turns| ==> !Fails(turns[i]) && turns[i].write == Whole }

  predicate AllRead(turns: seq<Turn>) { forall i :: 0 <= i < |turns| ==> turns[i].Turn? && turns[i].cap > 0 }

  /** Whole writes lose nothing and fail nowhere. */
  lemma {:induction false} WholeWritesLoseNothing(content: seq<Byte>, turns: seq<Turn>, offset: nat, limit: int)
    requires AllWhole(turns)
    ensures Lost(turns, offset, offset, limit, |content|) == 0
    ensures CopyRun(content, turns, offset, offset, limit).status != Aborted
    decreases |turns|
  {
    if offset < limit && turns != [] {
      assert !Fails(turns[0]) && turns[0].write == Whole;
      assert forall i :: 0 <= i < |turns| - 1 ==> turns[1..][i] == turns[i + 1];
      WholeWritesLoseNothing(content, turns[1..], offset + ReadCount(turns[0].cap, offset, |content|), limit);
    }
  }

  lemma {:induction false} EnoughTurnsFinish(content: seq<Byte>, turns: seq<Turn>, offset: nat, limit: int)
    requires offset <= |content| && limit <= |content| && AllWhole(turns) && AllRead(turns)
    requires |turns| >= limit - offset
    ensures CopyRun(content, turns, offset, offset, limit).status == Done
    decreases |turns|
  {
    if offset < limit {
      var n := ReadCount(turns[0].cap, offset, |content|);
      assert turns[0].write == Whole && turns[0].cap > 0;
      assert forall i :: 0 <= i < |turns| - 1 ==> turns[1..][i] == turns[i + 1];
      EnoughTurnsFinish(content, turns[1..], offset + n, limit);
    }
  }

  /** With whole writes and reads that make progress, the loop ends exactly when there is nothing to copy
      or the end of the range does not pass the end of the file. */
  lemma CopyTerminatesIff(content: seq<Byte>, turns: seq<Turn>, start: nat, end: int)
    requires end != -2 && start <= |content| && AllWhole(turns) && AllRead(turns)
    requires |turns| >= |content|
    ensures BodyRun(content, start, end, turns).status == Done <==>
            start >= Limit(|content|, start, end) || Limit(|content|, start, end) <= |content|
  {
    var limit := Limit(|content|, start, end);
    if limit <= |content| {
      EnoughTurnsFinish(content, turns, start, limit);
    } else if start < limit {
      LostNeverDone(content, turns, start, start, limit);
    }
  }

  // ---------------------------------------------------------------- what a copy that ends has delivered

  /** A full response that ends is the file, whatever the reads and writes. */
  lemma FullBody(content: seq<Byte>, turns: seq<Turn>)
    requires BodyRun(content, -2, -2, turns).status == Done
    ensures BodyRun(content, -2, -2, turns).sent == content
  {
    CopyAccount(content, turns, 0, 0, |content|);
    NothingLostSendsSlice(content, turns, 0, |content|, |content|);
  }

  /** An open range that ends is the rest of the file, whatever the reads and writes. */
  lemma OpenRangeBody(content: seq<Byte>, start: nat, turns: seq<Turn>)
    requires start <= |content| && BodyRun(content, start, -1, turns).status == Done
    ensures BodyRun(content, start, -1, turns).sent == content[start..]
  {
    CopyAccount(content, turns, start, start, |content|);
    NothingLostSendsSlice(content, turns, start, |content|, |content|);
  }

  /** A range with an end inside the file, once its copy ends: as many bytes as asked for and fewer than
      256 more. If none were lost they are a slice of the file that covers the range; and none were lost
      when as many were sent as the file holds. */
  lemma ExplicitEndBody(content: seq<Byte>, start: nat, end: nat, turns: seq<Turn>) returns (last: nat)
    requires start < end <= |content| && BodyRun(content, start, end, turns).status == Done
    ensures |BodyRun(content, start, end, turns).sent| == last - start
    ensures end <= last < end + CHUNK_SIZE && last + BodyLost(|content|, start, end, turns) <= |content|
    ensures BodyLost(|content|, start, end, turns) == 0 ==> BodyRun(content, start, end, turns).sent == content[start..last]
  {
    CopyAccount(content, turns, start, start, end);
    last := start + |CopyRun(content, turns, start, start, end).sent|;
    if BodyLost(|content|, start, end, turns) == 0 {
      NothingLostSendsSlice(content, turns, start, end, last);
    }
  }

  /** With reads of one byte each and whole writes the loop stops exactly at the end asked for. */
  lemma ByteTurnsStopAtLimit(content: seq<Byte>, start: nat, limit: nat)
    requires start <= limit <= |content|
    ensures CopyRun(content, LosingTurns(0, limit - start), start, start, limit) == Copy(content[start..limit], Done)
  {
    LosingTurnsEnd(content, start, start, limit, 0, start, limit);
  }

  /** Reads of one byte each, the last of `x` bytes more. */
  function OvershootTurns(k: nat, x: nat): seq<Turn> {
    if k <= 1 then [Turn(1 + x, Whole)] else [Turn(1, Whole)] + OvershootTurns(k - 1, x)
  }

  lemma LastTurn(content: seq<Byte>, turn: Turn, start: nat, x: nat)
    requires turn == Turn(1 + x, Whole) && x < 256 && start + 1 + x <= |content|
    ensures CopyRun(content, [turn], start, start, start + 1) == Copy(content[start..start + 1 + x], Done)
  {
    TurnUnfolds(content, [turn], start, start, start + 1);
    assert ReadCount(1 + x, start, |content|) == 1 + x;
  }

  /** They go so far beyond it. */
  lemma {:induction false} OvershootTurnsPassLimit(content: seq<Byte>, start: nat, limit: nat, x: nat)
    requires start < limit && limit + x <= |content| && x < 256
    ensures CopyRun(content, OvershootTurns(limit - start, x), start, start, limit) == Copy(content[start..limit + x], Done)
    decreases limit - start
  {
    hide CopyRun, Lost, OvershootTurns;
    var turns := OvershootTurns(limit - start, x);
    OvershootTurnsSplit(limit - start, x);
    if start + 1 == limit {
      LastTurn(content, turns[0], start, x);
    } else {
      OneByteTurn(content, turns, start, start, limit);
      OvershootTurnsPassLimit(content, start + 1, limit, x);
      FirstByte(content, start, limit + x);
    }
  }

  lemma OvershootTurnsSplit(k: nat, x: nat)
    ensures k <= 1 ==> OvershootTurns(k, x) == [Turn(1 + x, Whole)]
    ensures var turns := OvershootTurns(k, x);
            k > 1 ==> turns != [] && turns[0] == Turn(1, Whole) && turns[1..] == OvershootTurns(k - 1, x)
  {
  }

  predicate EndsBeyond(content: seq<Byte>, turns: seq<Turn>, start: nat, limit: nat, x: nat) {
    var c := CopyRun(content, turns, start, start, limit);
    c.status == Done && |c.sent| == limit - start + x
  }

  /** How far a copy can go beyond the end asked for, exactly: as far as a chunk of 256 bytes that begins
      just before it, and as the file. */
  lemma OvershootPossibleIff(content: seq<Byte>, start: nat, limit: nat, x: nat)
    requires start < limit <= |content|
    ensures (exists turns :: EndsBeyond(content, turns, start, limit, x)) <==> x < 256 && limit + x <= |content|
  {
    if x < 256 && limit + x <= |content| {
      OvershootTurnsPassLimit(content, start, limit, x);
      assert EndsBeyond(content, OvershootTurns(limit - start, x), start, limit, x);
    }
    forall turns | EndsBeyond(content, turns, start, limit, x)
      ensures x < 256 && limit + x <= |content|
    {
      CopyAccount(content, turns, start, start, limit);
    }
  }

  // ---------------------------------------------------------------- the loop itself

  method WriteResponseBody(conn: Connection, opens: bool, content: seq<Byte>, start: int, end: int, turns: seq<Turn>)
    returns (status: CopyStatus)
    modifies conn`outgoing
    ensures var c := if opens then BodyRun(content, start, end, turns) else Copy([], Aborted);
            status == c.status && conn.outgoing == old(conn.outgoing) + c.sent
  {
    if !opens {
      return Aborted;
    }
    var bytesWritten, bytesToWrite := 0, |content|;
    if IsPartial(start, end) {
      bytesWritten := start;
      bytesToWrite := if end == -1 then |content| else ToSizeT(end);
      if bytesWritten < 0 {
        return Aborted;
      }
    }
    status := CopyLoop(conn, content, bytesWritten, bytesWritten, bytesToWrite, turns);
  }

  /** The while loop, from file offset `offset0`. */
  method CopyLoop(conn: Connection, content: seq<Byte>, offset0: nat, written0: nat, bytesToWrite: int, turns: seq<Turn>)
    returns (status: CopyStatus)
    modifies conn`outgoing
    ensures var c := CopyRun(content, turns, offset0, written0, bytesToWrite);
            status == c.status && conn.outgoing == old(conn.outgoing) + c.sent
  {
    var offset: nat, bytesWritten: nat := offset0, written0;
    var rest := turns;
    ghost var whole, sent: seq<Byte> := CopyRun(content, turns, offset0, written0, bytesToWrite), [];
    CopyStarts(content, rest, offset, bytesWritten, bytesToWrite);
    hide Piece, ReadCount, WrittenCount, CopyRun, Copying;
    while bytesWritten < bytesToWrite && rest != []
      invariant Copying(whole, sent, content, rest, offset, bytesWritten, bytesToWrite)
      invariant conn.outgoing == old(conn.outgoing) + sent
      decreases |rest|
    {
      if Fails(rest[0]) {
        FailingTurnEnds(whole, sent, content, rest, offset, bytesWritten, bytesToWrite);
        return Aborted;
      }
      offset, bytesWritten, sent :=
        CopyTurn(conn, content, offset, bytesWritten, bytesToWrite, rest, old(conn.outgoing), whole, sent);
      rest := rest[1..];
    }
    CopyEnds(whole, sent, content, rest, offset, bytesWritten, bytesToWrite);
    return if bytesWritten < bytesToWrite then Pending else Done;
  }

  /** One read and one write that do not fail: at most a chunk is read from inside the file, a first part
      of it is sent, and the loop invariant holds again for the turns that are left. */
  method CopyTurn(conn: Connection, content: seq<Byte>, offset: nat, bytesWritten: nat, ghost bytesToWrite: int,
                  turns: seq<Turn>, ghost before: seq<Byte>, ghost whole: Copy, ghost sent: seq<Byte>)
    returns (offset': nat, bytesWritten': nat, ghost sent': seq<Byte>)
    requires turns != [] && !Fails(turns[0]) && bytesWritten < bytesToWrite
    requires Copying(whole, sent, content, turns, offset, bytesWritten, bytesToWrite)
    requires conn.outgoing == before + sent
    modifies conn`outgoing
    ensures Copying(whole, sent', content, turns[1..], offset', bytesWritten', bytesToWrite)
    ensures conn.outgoing == before + sent' && |sent'| - |sent| == bytesWritten' - bytesWritten
    ensures 0 <= bytesWritten' - bytesWritten <= offset' - offset <= CHUNK_SIZE
    ensures offset < offset' ==> offset' <= |content| && sent' == sent + content[offset..offset + (bytesWritten' - bytesWritten)]
    ensures offset == offset' ==> sent' == sent
  {
    var readThisTime := ReadCount(turns[0].cap, offset, |content|);
    var writtenThisTime := WrittenCount(turns[0].write, readThisTime);
    var written := Piece(content, offset, writtenThisTime);
    TurnKeepsCopying(whole, sent, content, turns, offset, bytesWritten, bytesToWrite);
    Associative(before, sent, written);
    conn.outgoing := conn.outgoing + written;
    return offset + readThisTime, bytesWritten + writtenThisTime, sent + written;
  }

  /** The loop invariant: what has been sent and the run still to come make up the whole copy. */
  ghost predicate Copying(
    whole: Copy, sent: seq<Byte>, content: seq<Byte>, turns: seq<Turn>, offset: nat, written: nat, limit: int)
  {
    var c := CopyRun(content, turns, offset, written, limit);
    whole == Copy(sent + c.sent, c.status)
  }

  lemma CopyStarts(content: seq<Byte>, turns: seq<Turn>, offset: nat, written: nat, limit: int)
    ensures Copying(CopyRun(content, turns, offset, written, limit), [], content, turns, offset, written, limit)
  {
    var c := CopyRun(content, turns, offset, written, limit);
    assert [] + c.sent == c.sent;
  }

  lemma CopyEnds(
    whole: Copy, sent: seq<Byte>, content: seq<Byte>, turns: seq<Turn>, offset: nat, written: nat, limit: int)
    requires Copying(whole, sent, content, turns, offset, written, limit)
    requires written >= limit || turns == []
    ensures whole == Copy(sent, if written < limit then Pending else Done)
  {
  }

  lemma FailingTurnEnds(
    whole: Copy, sent: seq<Byte>, content: seq<Byte>, turns: seq<Turn>, offset: nat, written: nat, limit: int)
    requires Copying(whole, sent, content, turns, offset, written, limit)
    requires written < limit && turns != [] && Fails(turns[0])
    ensures whole == Copy(sent, Aborted)
  {
  }

  lemma TurnKeepsCopying(
    whole: Copy, sent: seq<Byte>, content: seq<Byte>, turns: seq<Turn>, offset: nat, written: nat, limit: int)
    requires Copying(whole, sent, content, turns, offset, written, limit)
    requires written < limit && turns != [] && !Fails(turns[0])
    ensures var n := ReadCount(turns[0].cap, offset, |content|);
            var k := WrittenCount(turns[0].write, n);
            Copying(whole, sent + Piece(content, offset, k), content, turns[1..], offset + n, written + k, limit)
  {
    hide Piece, ReadCount;
    var n := ReadCount(turns[0].cap, offset, |content|);
    var k := WrittenCount(turns[0].write, n);
    Associative(sent, Piece(content, offset, k), CopyRun(content, turns[1..], offset + n, written + k, limit).sent);
  }
}
