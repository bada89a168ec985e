/**
 * The retrying socket layer and the echo loop built on it. The operating system is an adversary:
 * an arbitrary finite script of outcomes, one per system call, after which every call fails.
 */
module SocketIo {
  import opened Sequences

  type Byte = char

  const SOCKET_TIMEOUT: int := -2
  const BUFFER_SIZE: nat := 8192
  const ECHO_TIMEOUT: int := 100

  /** What one system call does: move up to `n` bytes (0 is a timeout of select, end of file for read),
      return -1 with EINTR, or return -1 with another error. */
  datatype Outcome = Count(n: nat) | Interrupted | Failed

  function Min(a: nat, b: nat): nat { if a < b then a else b }

  // ---------------------------------------------------------------- select, retried

  datatype Polled = Polled(res: int, rest: seq<Outcome>)

  /** select repeated while it is interrupted. */
  function Poll(script: seq<Outcome>): (p: Polled)
    ensures |p.rest| <= |script|
    ensures p.res > 0 ==> |p.rest| < |script|
  {
    if script == [] then Polled(-1, [])
    else
      match script[0]
      case Interrupted => Poll(script[1..])
      case Failed => Polled(-1, script[1..])
      case Count(n) => Polled(n, script[1..])
  }

  // ---------------------------------------------------------------- read_from_socket

  datatype Reading = Reading(res: int, data: seq<Byte>, rest: seq<Outcome>)

  /** Reading as a function of the script. */
  function ReadRun(script: seq<Outcome>, incoming: seq<Byte>, len: nat, timeout: int): Reading
    decreases |script|
  {
    var p := if timeout > 0 then Poll(script) else Polled(1, script);
    if p.res <= 0 then Reading(SOCKET_TIMEOUT, [], p.rest)
    else if p.rest == [] then Reading(-1, [], [])
    else
      match p.rest[0]
      case Interrupted => ReadRun(p.rest[1..], incoming, len, timeout)
      case Failed => Reading(-1, [], p.rest[1..])
      case Count(n) =>
        var k := Min(n, Min(len, |incoming|));
        Reading(k, incoming[..k], p.rest[1..])
  }

  /** A positive result is the number of bytes read, and they are the next bytes of the stream; any
      other result takes nothing from it. */
  lemma {:induction false} ReadTakesPrefix(script: seq<Outcome>, incoming: seq<Byte>, len: nat, timeout: int)
    ensures var r := ReadRun(script, incoming, len, timeout);
            && r.data <= incoming && |r.data| <= len
            && (if r.res > 0 then r.res == |r.data| else r.data == [])
            && |r.rest| <= |script| && (r.res > 0 ==> |r.rest| < |script|)
    decreases |script|
  {
    var p := if timeout > 0 then Poll(script) else Polled(1, script);
    if p.res > 0 && p.rest != [] && p.rest[0].Interrupted? {
      ReadTakesPrefix(p.rest[1..], incoming, len, timeout);
    }
  }

  // ---------------------------------------------------------------- write_to_socket

  datatype Writing = Writing(res: int, delivered: nat, rest: seq<Outcome>)

  /** Writing `len` bytes as a function of the script. */
  function WriteRun(script: seq<Outcome>, len: nat, timeout: int): Writing
    requires len > 0
    decreases |script|
  {
    var p := if timeout != 0 then Poll(script) else Polled(1, script);
    if p.res <= 0 then Writing(-1, 0, p.rest)
    else if p.rest == [] then Writing(-1, 0, [])
    else
      match p.rest[0]
      case Interrupted => WriteRun(p.rest[1..], len, timeout)
      case Failed => Writing(-1, 0, p.rest[1..])
      case Count(n) =>
        var k := Min(n, len);
        if k == 0 then Writing(0, 0, p.rest[1..])
        else if k == len then Writing(k, k, p.rest[1..])
        else
          var w := WriteRun(p.rest[1..], len - k, timeout);
          Writing(w.res, k + w.delivered, w.rest)
  }

  /** The result is positive exactly when everything was delivered. */
  lemma {:induction false} WriteSucceedsIffAllDelivered(script: seq<Outcome>, len: nat, timeout: int)
    requires len > 0
    ensures var w := WriteRun(script, len, timeout);
            && w.delivered <= len && w.res <= len
            && (w.res > 0 <==> w.delivered == len)
            && |w.rest| <= |script|
    decreases |script|
  {
    var p := if timeout != 0 then Poll(script) else Polled(1, script);
    if p.res > 0 && p.rest != [] {
      match p.rest[0]
      case Interrupted => WriteSucceedsIffAllDelivered(p.rest[1..], len, timeout);
      case Failed =>
      case Count(n) =>
        if 0 < n < len {
          WriteSucceedsIffAllDelivered(p.rest[1..], len - n, timeout);
        }
    }
  }

  // ---------------------------------------------------------------- the nested loops as one

  /** read_from_socket, one outcome at a time: `timed` calls begin with a select, an interruption begins
      again, and any other outcome but a granted select decides. */
  function FlatRead(script: seq<Outcome>, selecting: bool, timed: bool, incoming: seq<Byte>, len: nat): Reading {
    var error := if selecting then SOCKET_TIMEOUT else -1;
    if script == [] then Reading(error, [], [])
    else
      var rest := script[1..];
      match script[0]
      case Interrupted => FlatRead(rest, timed, timed, incoming, len)
      case Failed => Reading(error, [], rest)
      case Count(n) =>
        if selecting && n > 0 then FlatRead(rest, false, timed, incoming, len)
        else if selecting then Reading(error, [], rest)
        else
          var k := Min(n, Min(len, |incoming|));
          Reading(k, incoming[..k], rest)
  }

  /** write_to_socket in the same way: what is granted is written and the call begins again for the rest. */
  function FlatWrite(script: seq<Outcome>, selecting: bool, timed: bool, len: nat): Writing {
    if script == [] then Writing(-1, 0, [])
    else
      var rest := script[1..];
      match script[0]
      case Interrupted => FlatWrite(rest, timed, timed, len)
      case Failed => Writing(-1, 0, rest)
      case Count(n) =>
        if n == 0 then Writing(if selecting then -1 else 0, 0, rest)
        else if selecting then FlatWrite(rest, false, timed, len)
        else if n >= len then Writing(len, len, rest)
        else
          var w := FlatWrite(rest, timed, timed, len - n);
          Writing(w.res, n + w.delivered, w.rest)
  }

  lemma {:induction false} PollIsFlat(script: seq<Outcome>, incoming: seq<Byte>, len: nat)
    ensures var p := Poll(script);
            && FlatRead(script, true, true, incoming, len) ==
               (if p.res > 0 then FlatRead(p.rest, false, true, incoming, len) else Reading(SOCKET_TIMEOUT, [], p.rest))
            && FlatWrite(script, true, true, len) ==
               (if p.res > 0 then FlatWrite(p.rest, false, true, len) else Writing(-1, 0, p.rest))
    decreases |script|
  {
    if script != [] && script[0].Interrupted? {
      PollIsFlat(script[1..], incoming, len);
    }
  }

  /** Three nested loops and a single one read the same. */
  lemma {:induction false} ReadRunIsFlat(script: seq<Outcome>, incoming: seq<Byte>, len: nat, timeout: int)
    ensures ReadRun(script, incoming, len, timeout) == FlatRead(script, timeout > 0, timeout > 0, incoming, len)
    decreases |script|
  {
    if timeout > 0 {
      PollIsFlat(script, incoming, len);
    }
    var p := if timeout > 0 then Poll(script) else Polled(1, script);
    if p.res > 0 && p.rest != [] && p.rest[0].Interrupted? {
      ReadRunIsFlat(p.rest[1..], incoming, len, timeout);
    }
  }

  /** And write the same. */
  lemma {:induction false} WriteRunIsFlat(script: seq<Outcome>, len: nat, timeout: int)
    requires len > 0
    ensures WriteRun(script, len, timeout) == FlatWrite(script, timeout != 0, timeout != 0, len)
    decreases |script|
  {
    if timeout != 0 {
      PollIsFlat(script, [], len);
    }
    var p := if timeout != 0 then Poll(script) else Polled(1, script);
    if p.res > 0 && p.rest != [] {
      match p.rest[0]
      case Interrupted => WriteRunIsFlat(p.rest[1..], len, timeout);
      case Failed =>
      case Count(n) =>
        if 0 < n < len {
          WriteRunIsFlat(p.rest[1..], len - n, timeout);
        }
    }
  }

  // ---------------------------------------------------------------- what a script is good for

  /** How many bytes a script takes from a writer with enough of them: the granted writes, interruptions
      left out, up to the first refusal. */
  function Offered(script: seq<Outcome>, selecting: bool, timed: bool): nat {
    if script == [] then 0
    else
      match script[0]
      case Interrupted => Offered(script[1..], timed, timed)
      case Failed => 0
      case Count(n) =>
        if n == 0 then 0
        else if selecting then Offered(script[1..], false, timed)
        else n + Offered(script[1..], timed, timed)
  }

  lemma {:induction false} FlatDelivers(script: seq<Outcome>, selecting: bool, timed: bool, len: nat)
    requires len > 0
    ensures FlatWrite(script, selecting, timed, len).delivered == Min(len, Offered(script, selecting, timed))
    decreases |script|
  {
    if script != [] {
      match script[0]
      case Interrupted => FlatDelivers(script[1..], timed, timed, len);
      case Failed =>
      case Count(n) =>
        if n > 0 && selecting {
          FlatDelivers(script[1..], false, timed, len);
        } else if 0 < n < len {
          FlatDelivers(script[1..], timed, timed, len - n);
        }
    }
  }

  /** What the script offers is delivered, up to the length of the buffer; so the result is positive exactly
      when the script offers that much. */
  lemma OfferIsDelivered(script: seq<Outcome>, len: nat, timeout: int)
    requires len > 0
    ensures var w, offer := WriteRun(script, len, timeout), Offered(script, timeout != 0, timeout != 0);
            w.delivered == Min(len, offer) && (w.res > 0 <==> offer >= len)
  {
    WriteRunIsFlat(script, len, timeout);
    FlatDelivers(script, timeout != 0, timeout != 0, len);
    WriteSucceedsIffAllDelivered(script, len, timeout);
  }

  /** Nothing in the script is a timeout or an error. */
  predicate Willing(script: seq<Outcome>) {
    forall i :: 0 <= i < |script| ==> script[i].Interrupted? || (script[i].Count? && script[i].n > 0)
  }

  lemma WillingTail(script: seq<Outcome>)
    requires Willing(script) && script != []
    ensures Willing(script[1..])
  {
    assert forall i :: 0 <= i < |script| - 1 ==> script[1..][i] == script[i + 1];
  }

  /** Interruptions alone make no write fail: it goes on until it is done or the script ends. */
  lemma {:induction false} WillingWrite(script: seq<Outcome>, selecting: bool, timed: bool, len: nat)
    requires Willing(script) && len > 0
    ensures var w := FlatWrite(script, selecting, timed, len); w.rest == [] || w.delivered == len
    ensures Willing(FlatWrite(script, selecting, timed, len).rest)
    decreases |script|
  {
    if script != [] {
      WillingTail(script);
      match script[0]
      case Interrupted => WillingWrite(script[1..], timed, timed, len);
      case Count(n) =>
        if selecting {
          WillingWrite(script[1..], false, timed, len);
        } else if n < len {
          WillingWrite(script[1..], timed, timed, len - n);
        }
    }
  }

  /** Nor a read, while there is something to read. */
  lemma {:induction false} WillingRead(script: seq<Outcome>, selecting: bool, timed: bool, incoming: seq<Byte>, len: nat)
    requires Willing(script) && len > 0
    ensures var r := FlatRead(script, selecting, timed, incoming, len);
            r.rest == [] || (if incoming == [] then r.res == 0 else r.res > 0)
    ensures Willing(FlatRead(script, selecting, timed, incoming, len).rest)
    decreases |script|
  {
    if script != [] {
      WillingTail(script);
      match script[0]
      case Interrupted => WillingRead(script[1..], timed, timed, incoming, len);
      case Count(n) =>
        if selecting {
          WillingRead(script[1..], false, timed, incoming, len);
        }
    }
  }

  /** Interrupted calls are repeated: as long as nothing times out or fails, a write ends only when all is
      delivered or the script is over, and a read only with bytes, at the end of the input, or likewise. */
  lemma InterruptionsAreRetried(script: seq<Outcome>, incoming: seq<Byte>, len: nat, timeout: int)
    requires Willing(script) && len > 0
    ensures var w := WriteRun(script, len, timeout); w.delivered == len || w.rest == []
    ensures var r := ReadRun(script, incoming, len, timeout); r.res > 0 || (incoming == [] && r.res == 0) || r.rest == []
  {
    WriteRunIsFlat(script, len, timeout);
    WillingWrite(script, timeout != 0, timeout != 0, len);
    ReadRunIsFlat(script, incoming, len, timeout);
    WillingRead(script, timeout > 0, timeout > 0, incoming, len);
  }

  /** The first outcome of select that is not an interruption is the one that counts. */
  lemma {:induction false} PollDecides(script: seq<Outcome>, i: nat)
    requires i <= |script| && forall j :: 0 <= j < i ==> script[j].Interrupted?
    requires i < |script| ==> !script[i].Interrupted?
    ensures Poll(script) == if i == |script| then Polled(-1, [])
                            else Polled(if script[i].Failed? then -1 else script[i].n, script[i + 1..])
    decreases |script|
  {
    if i > 0 {
      assert forall j :: 0 <= j < i - 1 ==> script[1..][j] == script[j + 1];
      PollDecides(script[1..], i - 1);
    }
  }

  /** What a read brings: the outcome that decides it grants so many bytes. */
  function Granted(script: seq<Outcome>, selecting: bool, timed: bool): nat {
    if script == [] then 0
    else
      match script[0]
      case Interrupted => Granted(script[1..], timed, timed)
      case Failed => 0
      case Count(n) => if selecting && n > 0 then Granted(script[1..], false, timed) else if selecting then 0 else n
  }

  lemma {:induction false} FlatReads(script: seq<Outcome>, selecting: bool, timed: bool, incoming: seq<Byte>, len: nat)
    ensures FlatRead(script, selecting, timed, incoming, len).data
            == incoming[..Min(Granted(script, selecting, timed), Min(len, |incoming|))]
    decreases |script|
  {
    if script != [] {
      match script[0]
      case Interrupted => FlatReads(script[1..], timed, timed, incoming, len);
      case Failed =>
      case Count(n) =>
        if selecting && n > 0 {
          FlatReads(script[1..], false, timed, incoming, len);
        }
    }
  }

  /** As many of the next bytes are read as the script grants, the buffer holds and there are. */
  lemma GrantIsRead(script: seq<Outcome>, incoming: seq<Byte>, len: nat, timeout: int)
    ensures ReadRun(script, incoming, len, timeout).data
            == incoming[..Min(Granted(script, timeout > 0, timeout > 0), Min(len, |incoming|))]
  {
    ReadRunIsFlat(script, incoming, len, timeout);
    FlatReads(script, timeout > 0, timeout > 0, incoming, len);
  }

  // ---------------------------------------------------------------- the echo loop

  /** One turn of the echo loop: the chunk read, how much of it was written back, and write's result. */
  datatype Exchange = Exchange(chunk: seq<Byte>, delivered: nat, res: int)

  datatype Session = Session(exchanges: seq<Exchange>, last: int, rest: seq<Outcome>)

  function EchoRun(script: seq<Outcome>, incoming: seq<Byte>): Session
    decreases |script|
  {
    ReadTakesPrefix(script, incoming, BUFFER_SIZE, ECHO_TIMEOUT);
    var r := ReadRun(script, incoming, BUFFER_SIZE, ECHO_TIMEOUT);
    if r.res <= 0 then Session([], r.res, r.rest)
    else
      WriteSucceedsIffAllDelivered(r.rest, |r.data|, ECHO_TIMEOUT);
      var w := WriteRun(r.rest, |r.data|, ECHO_TIMEOUT);
      var t := EchoRun(w.rest, incoming[|r.data|..]);
      Session([Exchange(r.data, w.delivered, w.res)] + t.exchanges, t.last, t.rest)
  }

  function Chunks(exchanges: seq<Exchange>): seq<Byte> {
    if exchanges == [] then [] else exchanges[0].chunk + Chunks(exchanges[1..])
  }

  /** What the client gets back: of every chunk, in order, the part that was written. */
  function Echoed(exchanges: seq<Exchange>): seq<Byte> {
    if exchanges == [] then []
    else exchanges[0].chunk[..Min(exchanges[0].delivered, |exchanges[0].chunk|)] + Echoed(exchanges[1..])
  }

  predicate ExchangeOk(e: Exchange) {
    && 0 < |e.chunk| <= BUFFER_SIZE
    && e.delivered <= |e.chunk|
    && (e.res > 0 <==> e.delivered == |e.chunk|)
  }

  predicate AllWritten(exchanges: seq<Exchange>) {
    forall i :: 0 <= i < |exchanges| ==> exchanges[i].res > 0
  }

  /** Every chunk is echoed up to a prefix, which is the whole chunk exactly when its write succeeded;
      the chunks together are the input read, and the loop stops at the first non-positive read. */
  lemma {:induction false} EchoSession(script: seq<Outcome>, incoming: seq<Byte>)
    ensures var s := EchoRun(script, incoming);
            && (forall i :: 0 <= i < |s.exchanges| ==> ExchangeOk(s.exchanges[i]))
            && Chunks(s.exchanges) <= incoming
            && s.last <= 0
    decreases |script|
  {
    ReadTakesPrefix(script, incoming, BUFFER_SIZE, ECHO_TIMEOUT);
    var r := ReadRun(script, incoming, BUFFER_SIZE, ECHO_TIMEOUT);
    if r.res > 0 {
      WriteSucceedsIffAllDelivered(r.rest, |r.data|, ECHO_TIMEOUT);
      var w := WriteRun(r.rest, |r.data|, ECHO_TIMEOUT);
      EchoSession(w.rest, incoming[|r.data|..]);
      var t := EchoRun(w.rest, incoming[|r.data|..]);
      var s := EchoRun(script, incoming);
      assert s.exchanges[1..] == t.exchanges;
      assert incoming == r.data + incoming[|r.data|..];
    }
  }

  lemma {:induction false} EchoedLength(exchanges: seq<Exchange>)
    requires forall i :: 0 <= i < |exchanges| ==> ExchangeOk(exchanges[i])
    ensures |Echoed(exchanges)| <= |Chunks(exchanges)|
    ensures |Echoed(exchanges)| == |Chunks(exchanges)| <==> AllWritten(exchanges)
    ensures AllWritten(exchanges) ==> Echoed(exchanges) == Chunks(exchanges)
  {
    if exchanges != [] {
      var rest := exchanges[1..];
      EchoedLength(rest);
      assert ExchangeOk(exchanges[0]);
      assert AllWritten(exchanges) <==> exchanges[0].res > 0 && AllWritten(rest) by {
        assert forall i :: 0 <= i < |rest| ==> rest[i] == exchanges[i + 1];
      }
    }
  }

  /** The echo is faithful exactly when every write succeeded. */
  lemma EchoFaithfulIff(script: seq<Outcome>, incoming: seq<Byte>)
    ensures var s := EchoRun(script, incoming);
            Echoed(s.exchanges) == Chunks(s.exchanges) <==> AllWritten(s.exchanges)
  {
    EchoSession(script, incoming);
    EchoedLength(EchoRun(script, incoming).exchanges);
  }

  /** The session ends with a read that brings nothing, of exactly what was left to read. */
  lemma {:induction false} EchoEndsAtRead(script: seq<Outcome>, incoming: seq<Byte>) returns (script': seq<Outcome>)
    ensures var s := EchoRun(script, incoming);
            && Chunks(s.exchanges) <= incoming && s.last <= 0
            && ReadRun(script', incoming[|Chunks(s.exchanges)|..], BUFFER_SIZE, ECHO_TIMEOUT) == Reading(s.last, [], s.rest)
    decreases |script|
  {
    ReadTakesPrefix(script, incoming, BUFFER_SIZE, ECHO_TIMEOUT);
    EchoSession(script, incoming);
    var r := ReadRun(script, incoming, BUFFER_SIZE, ECHO_TIMEOUT);
    if r.res <= 0 {
      script' := script;
    } else {
      WriteSucceedsIffAllDelivered(r.rest, |r.data|, ECHO_TIMEOUT);
      var w := WriteRun(r.rest, |r.data|, ECHO_TIMEOUT);
      var more := incoming[|r.data|..];
      script' := EchoEndsAtRead(w.rest, more);
      var t := EchoRun(w.rest, more);
      FirstExchange(script, incoming, r, w, t);
      assert more[|Chunks(t.exchanges)|..] == incoming[|r.data| + |Chunks(t.exchanges)|..];
    }
  }

  lemma FirstExchange(script: seq<Outcome>, incoming: seq<Byte>, r: Reading, w: Writing, t: Session)
    requires r == ReadRun(script, incoming, BUFFER_SIZE, ECHO_TIMEOUT) && r.res > 0 && r.data != []
    requires |r.data| <= |incoming| && w == WriteRun(r.rest, |r.data|, ECHO_TIMEOUT) && |w.rest| < |script|
    requires t == EchoRun(w.rest, incoming[|r.data|..])
    ensures var s := EchoRun(script, incoming);
            && s.last == t.last && s.rest == t.rest
            && s.exchanges == [Exchange(r.data, w.delivered, w.res)] + t.exchanges
            && Chunks(s.exchanges) == r.data + Chunks(t.exchanges)
            && (AllWritten(s.exchanges) <==> w.res > 0 && AllWritten(t.exchanges))
  {
    var s := EchoRun(script, incoming);
    assert s.exchanges[1..] == t.exchanges;
    assert AllWritten(s.exchanges) <==> s.exchanges[0].res > 0 && AllWritten(t.exchanges) by {
      assert forall i :: 0 <= i < |t.exchanges| ==> t.exchanges[i] == s.exchanges[i + 1];
    }
  }

  /** The first exchange: as much of the input is read as is granted and the buffer holds, and as much of that
      is written as is offered next. There is one exactly when something is read. */
  lemma FirstExchangeIsGranted(script: seq<Outcome>, incoming: seq<Byte>)
    ensures var n := Min(Granted(script, true, true), Min(8192, |incoming|));
            var s, r := EchoRun(script, incoming), ReadRun(script, incoming, 8192, 100);
            && (s.exchanges == [] <==> n == 0)
            && (n > 0 ==> s.exchanges[0].chunk == incoming[..n]
                          && s.exchanges[0].delivered == Min(n, Offered(r.rest, true, true)))
  {
    GrantIsRead(script, incoming, BUFFER_SIZE, ECHO_TIMEOUT);
    ReadTakesPrefix(script, incoming, BUFFER_SIZE, ECHO_TIMEOUT);
    var r := ReadRun(script, incoming, BUFFER_SIZE, ECHO_TIMEOUT);
    if r.res > 0 {
      OfferIsDelivered(r.rest, |r.data|, ECHO_TIMEOUT);
      WriteSucceedsIffAllDelivered(r.rest, |r.data|, ECHO_TIMEOUT);
      var w := WriteRun(r.rest, |r.data|, ECHO_TIMEOUT);
      FirstExchange(script, incoming, r, w, EchoRun(w.rest, incoming[|r.data|..]));
    }
  }

  /** If nothing times out or fails, then, unless the script ends first, all of the input is read and
      written back, and the loop stops at the end of the input. */
  lemma {:induction false} WillingEcho(script: seq<Outcome>, incoming: seq<Byte>)
    requires Willing(script)
    ensures var s := EchoRun(script, incoming);
            s.rest == [] || (Chunks(s.exchanges) == incoming && AllWritten(s.exchanges) && s.last == 0)
    decreases |script|
  {
    ReadTakesPrefix(script, incoming, BUFFER_SIZE, ECHO_TIMEOUT);
    ReadRunIsFlat(script, incoming, BUFFER_SIZE, ECHO_TIMEOUT);
    WillingRead(script, true, true, incoming, BUFFER_SIZE);
    var r := ReadRun(script, incoming, BUFFER_SIZE, ECHO_TIMEOUT);
    if r.res > 0 {
      WriteSucceedsIffAllDelivered(r.rest, |r.data|, ECHO_TIMEOUT);
      WriteRunIsFlat(r.rest, |r.data|, ECHO_TIMEOUT);
      WillingWrite(r.rest, true, true, |r.data|);
      var w := WriteRun(r.rest, |r.data|, ECHO_TIMEOUT);
      var more := incoming[|r.data|..];
      WillingEcho(w.rest, more);
      FirstExchange(script, incoming, r, w, EchoRun(w.rest, more));
      assert incoming == r.data + more;
      if w.rest == [] {
        assert EchoRun([], more).rest == [];
      }
    }
  }

  lemma {:induction false} EchoedConcat(a: seq<Exchange>, b: seq<Exchange>)
    ensures Echoed(a + b) == Echoed(a) + Echoed(b)
    ensures Chunks(a + b) == Chunks(a) + Chunks(b)
  {
    if a == [] {
      assert a + b == b;
    } else {
      assert (a + b)[1..] == a[1..] + b;
      EchoedConcat(a[1..], b);
    }
  }

  /** The loop invariant of the echo loop: the turns done and the run still to come make up the whole
      session, and the streams have moved accordingly. */
  ghost predicate Underway(
    whole: Session, done: seq<Exchange>, script: seq<Outcome>,
    out0: seq<Byte>, out: seq<Byte>, in0: seq<Byte>, incoming: seq<Byte>)
  {
    var s := EchoRun(script, incoming);
    && whole == Session(done + s.exchanges, s.last, s.rest)
    && out == out0 + Echoed(done)
    && in0 == Chunks(done) + incoming
  }

  lemma TurnKeepsUnderway(
    whole: Session, done: seq<Exchange>, e: Exchange, script: seq<Outcome>, script': seq<Outcome>,
    out0: seq<Byte>, out: seq<Byte>, in0: seq<Byte>, incoming: seq<Byte>, incoming': seq<Byte>)
    requires Underway(whole, done, script, out0, out, in0, incoming)
    requires e.delivered <= |e.chunk| && incoming == e.chunk + incoming'
    requires var t := EchoRun(script', incoming');
             EchoRun(script, incoming) == Session([e] + t.exchanges, t.last, t.rest)
    ensures Underway(whole, done + [e], script', out0, out + e.chunk[..e.delivered], in0, incoming')
  {
    var t := EchoRun(script', incoming');
    EchoedConcat(done, [e]);
    assert Echoed([e]) == e.chunk[..e.delivered] && Chunks([e]) == e.chunk;
    Associative(done, [e], t.exchanges);
    Associative(out0, Echoed(done), e.chunk[..e.delivered]);
    Associative(Chunks(done), e.chunk, incoming');
  }

  // ---------------------------------------------------------------- the loops themselves

  /** A connected socket: the script still to be played, the bytes still to be read, the bytes sent. */
  class Connection {
    var script: seq<Outcome>
    var incoming: seq<Byte>
    var outgoing: seq<Byte>

    constructor (script: seq<Outcome>, incoming: seq<Byte>)
      ensures this.script == script && this.incoming == incoming && outgoing == []
    {
      this.script, this.incoming, outgoing := script, incoming, [];
    }

    /** The next outcome of the script. */
    method NextOutcome() returns (o: Outcome)
      modifies this`script
      ensures o == if old(script) == [] then Failed else old(script)[0]
      ensures script == if old(script) == [] then [] else old(script)[1..]
    {
      o := Failed;
      if script != [] {
        o, script := script[0], script[1..];
      }
    }

    method Select() returns (res: int, eintr: bool)
      modifies this`script
      ensures script == if old(script) == [] then [] else old(script)[1..]
      ensures var o := if old(script) == [] then Failed else old(script)[0];
              res == (if o.Count? then o.n else -1) && eintr == o.Interrupted?
    {
      var o := NextOutcome();
      res, eintr := if o.Count? then o.n else -1, o.Interrupted?;
    }

    method Read(buf: array<Byte>, len: nat) returns (res: int, eintr: bool)
      requires len <= buf.Length
      modifies this`script, this`incoming, buf
      ensures script == if old(script) == [] then [] else old(script)[1..]
      ensures var o := if old(script) == [] then Failed else old(script)[0];
              var k := if o.Count? then Min(o.n, Min(len, |old(incoming)|)) else 0;
              && res == (if o.Count? then k else -1) && eintr == o.Interrupted?
              && buf[..k] == old(incoming)[..k] && incoming == old(incoming)[k..]
    {
      var o := NextOutcome();
      if !o.Count? {
        return -1, o.Interrupted?;
      }
      var k := Min(o.n, Min(len, |incoming|));
      forall i | 0 <= i < k {
        buf[i] := incoming[i];
      }
      incoming := incoming[k..];
      return k, false;
    }

    method Write(buf: array<Byte>, from: nat, len: nat) returns (res: int, eintr: bool)
      requires from + len <= buf.Length
      modifies this`script, this`outgoing
      ensures script == if old(script) == [] then [] else old(script)[1..]
      ensures var o := if old(script) == [] then Failed else old(script)[0];
              var k := if o.Count? then Min(o.n, len) else 0;
              && res == (if o.Count? then k else -1) && eintr == o.Interrupted?
              && outgoing == old(outgoing) + buf[from..from + k]
    {
      var o := NextOutcome();
      if !o.Count? {
        return -1, o.Interrupted?;
      }
      var k := Min(o.n, len);
      outgoing := outgoing + buf[from..from + k];
      return k, false;
    }

    /** The innermost loop of both functions. */
    method SelectRetrying() returns (res: int)
      modifies this`script
      ensures Polled(res, script) == Poll(old(script))
    {
      var eintr := true;
      while true
        invariant Poll(script) == Poll(old(script))
        decreases |script|
      {
        res, eintr := Select();
        if !(res == -1 && eintr) { break; }
      }
    }

    method ReadFromSocket(buf: array<Byte>, len: nat, timeout: int) returns (res: int)
      requires len <= buf.Length
      modifies this`script, this`incoming, buf
      ensures var r := ReadRun(old(script), old(incoming), len, timeout);
              && res == r.res && script == r.rest && |r.data| <= len
              && buf[..|r.data|] == r.data && old(incoming) == r.data + incoming
    {
      var eintr := true;
      while true
        invariant incoming == old(incoming)
        invariant ReadRun(script, incoming, len, timeout) == ReadRun(old(script), incoming, len, timeout)
        decreases |script|
      {
        if timeout > 0 {
          res := SelectRetrying();
          if res <= 0 {
            return SOCKET_TIMEOUT;
          }
        }
        res, eintr := Read(buf, len);
        if !(res == -1 && eintr) { break; }
      }
    }

    /** The inner loop of write_to_socket: one write, retried while interrupted. `stop` is its early return. */
    method WriteRetrying(buf: array<Byte>, from: nat, len: nat, timeout: int) returns (res: int, stop: bool)
      requires 0 < len && from + len <= buf.Length
      modifies this`script, this`outgoing
      ensures res <= len
      ensures outgoing == old(outgoing) + buf[from..from + if res > 0 && !stop then res else 0]
      ensures stop ==> res == -1
      ensures WriteRun(old(script), len, timeout) ==
              if stop || res <= 0 then Writing(res, 0, script)
              else if res == len then Writing(len, len, script)
              else
                var w := WriteRun(script, len - res, timeout);
                Writing(w.res, res + w.delivered, w.rest)
    {
      hide Poll;
      var eintr := true;
      stop := false;
      while true
        invariant outgoing == old(outgoing)
        invariant WriteRun(script, len, timeout) == WriteRun(old(script), len, timeout)
        decreases |script|
      {
        if timeout != 0 {
          res := SelectRetrying();
          if res <= 0 {
            return -1, true;
          }
        }
        res, eintr := Write(buf, from, len);
        if !(res == -1 && eintr) { break; }
      }
    }

    /** Whatever the script, a prefix of the buffer is delivered, in order and without repetition; the
        result is positive exactly when that prefix is the whole buffer. */
    method WriteToSocket(buf: array<Byte>, len0: int, timeout: int) returns (res: int)
      requires len0 <= buf.Length
      modifies this`script, this`outgoing
      ensures len0 <= 0 ==> res == 0 && outgoing == old(outgoing) && script == old(script)
      ensures len0 > 0 ==>
                var w := WriteRun(old(script), len0, timeout);
                && res == w.res && script == w.rest && w.delivered <= len0
                && (res > 0 <==> w.delivered == len0)
                && outgoing == old(outgoing) + buf[..w.delivered]
    {
      if len0 > 0 {
        WriteSucceedsIffAllDelivered(script, len0, timeout);
      }
      ghost var whole := if len0 > 0 then WriteRun(script, len0, timeout) else Writing(0, 0, script);
      res := 0;
      var from, len := 0, len0;
      while len > 0
        invariant len0 > 0 ==> len + from == len0 && 0 <= from && 0 <= len
        invariant len0 <= 0 ==> from == 0 && res == 0 && script == old(script) && len == len0
        invariant outgoing == old(outgoing) + buf[..from]
        invariant len > 0 ==>
                    var w := WriteRun(script, len, timeout);
                    whole == Writing(w.res, from + w.delivered, w.rest)
        invariant len == 0 && len0 > 0 ==> whole == Writing(res, from, script)
      {
        var stop;
        res, stop := WriteRetrying(buf, from, len, timeout);
        if stop {
          return -1;
        }
        if res <= 0 { break; }
        assert buf[..from] + buf[from..from + res] == buf[..from + res];
        from, len := from + res, len - res;
      }
    }

    /** One turn of the echo loop: a read and, if it brought anything, a write of the same bytes. */
    method EchoTurn(buffer: array<Byte>) returns (bytesRead: int, ghost e: Exchange)
      requires buffer.Length == BUFFER_SIZE
      modifies this, buffer
      ensures bytesRead <= 0 ==> EchoRun(old(script), old(incoming)) == Session([], bytesRead, script)
      ensures bytesRead <= 0 ==> outgoing == old(outgoing) && incoming == old(incoming)
      ensures bytesRead > 0 ==>
                var t := EchoRun(script, incoming);
                && |script| < |old(script)|
                && EchoRun(old(script), old(incoming)) == Session([e] + t.exchanges, t.last, t.rest)
                && old(incoming) == e.chunk + incoming
                && e.delivered <= |e.chunk| && outgoing == old(outgoing) + e.chunk[..e.delivered]
    {
      ReadTakesPrefix(script, incoming, BUFFER_SIZE, ECHO_TIMEOUT);
      e := Exchange([], 0, 0);
      bytesRead := ReadFromSocket(buffer, BUFFER_SIZE, ECHO_TIMEOUT);
      if bytesRead > 0 {
        ghost var chunk := buffer[..bytesRead];
        ghost var w := WriteRun(script, bytesRead, ECHO_TIMEOUT);
        WriteSucceedsIffAllDelivered(script, bytesRead, ECHO_TIMEOUT);
        var bytesWritten := WriteToSocket(buffer, bytesRead, ECHO_TIMEOUT);
        e := Exchange(chunk, w.delivered, bytesWritten);
        assert old(incoming)[bytesRead..] == incoming;
        assert buffer[..w.delivered] == chunk[..w.delivered];
      }
    }

    /** The body of a slave thread between its buffer's allocation and close. */
    method EchoLoop()
      modifies this
      ensures var s := EchoRun(old(script), old(incoming));
              && script == s.rest
              && outgoing == old(outgoing) + Echoed(s.exchanges)
              && old(incoming) == Chunks(s.exchanges) + incoming
              && (AllWritten(s.exchanges) <==> Echoed(s.exchanges) == Chunks(s.exchanges))
    {
      var buffer := new Byte[BUFFER_SIZE];
      ghost var whole, done: seq<Exchange> := EchoRun(script, incoming), [];
      while true
        invariant Underway(whole, done, script, old(outgoing), outgoing, old(incoming), incoming)
        decreases |script|
      {
        ghost var script0, out0, incoming0 := script, outgoing, incoming;
        var bytesRead, e := EchoTurn(buffer);
        if bytesRead > 0 {
          TurnKeepsUnderway(whole, done, e, script0, script, old(outgoing), out0, old(incoming), incoming0, incoming);
          done := done + [e];
        } else {
          break;
        }
      }
      assert done == whole.exchanges;
      EchoFaithfulIff(old(script), old(incoming));
    }
  }
}
