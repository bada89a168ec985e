/** strtok on a NUL-terminated buffer, and the strings such a buffer holds. */
module Tokenizer {

  const NUL: char := '\0'

  datatype Option<+T> = None | Some(value: T)

  predicate Terminated(a: seq<char>, from: nat) {
    exists k :: from <= k < |a| && a[k] == NUL
  }

  /** The C string that starts at `from`. */
  function CString(a: seq<char>, from: nat): (s: string)
    requires Terminated(a, from)
    ensures from + |s| < |a| && a[from + |s|] == NUL
    ensures forall i :: 0 <= i < |s| ==> s[i] == a[from + i] && s[i] != NUL
    decreases |a| - from
  {
    if a[from] == NUL then []
    else
      assert Terminated(a, from + 1);
      [a[from]] + CString(a, from + 1)
  }

  /** A string is what a buffer holds at `from` when its characters are there, followed by a NUL. */
  lemma {:induction false} CStringIs(a: seq<char>, from: nat, s: string)
    requires from + |s| < |a| && a[from + |s|] == NUL
    requires forall i :: 0 <= i < |s| ==> s[i] == a[from + i] && s[i] != NUL
    ensures Terminated(a, from) && CString(a, from) == s
    decreases |s|
  {
    assert Terminated(a, from);
    if s != [] {
      assert a[from] == s[0];
      CStringIs(a, from + 1, s[1..]);
    }
  }

  lemma EndsAtNul(a: seq<char>, from: nat, n: nat)
    requires Terminated(a, from) && n <= |CString(a, from)|
    ensures a[from + n] == NUL <==> n == |CString(a, from)|
  {
    var s := CString(a, from);
    if n < |s| {
      assert s[n] == a[from + n];
    }
  }

  lemma DropPrefix(a: seq<char>, from: nat, k: nat)
    requires Terminated(a, from) && k <= |CString(a, from)|
    ensures Terminated(a, from + k) && CString(a, from + k) == CString(a, from)[k..]
  {
    CStringIs(a, from + k, CString(a, from)[k..]);
  }

  /** Overwriting a character of a string with NUL makes two strings of it. */
  lemma CutString(a: seq<char>, from: nat, n: nat)
    requires Terminated(a, from) && n < |CString(a, from)|
    ensures var b := a[from + n := NUL];
            && Terminated(b, from) && CString(b, from) == CString(a, from)[..n]
            && Terminated(b, from + n + 1) && CString(b, from + n + 1) == CString(a, from)[n + 1..]
  {
    var b := a[from + n := NUL];
    CStringIs(b, from, CString(a, from)[..n]);
    CStringIs(b, from + n + 1, CString(a, from)[n + 1..]);
  }

  /** Length of the longest prefix of `s` made of characters in `delims` (`inside`), or outside it. */
  function Prefix(s: string, delims: string, inside: bool): (n: nat)
    ensures n <= |s|
    ensures forall i :: 0 <= i < n ==> (s[i] in delims <==> inside)
    ensures n < |s| ==> (s[n] in delims <==> !inside)
  {
    if s == [] || (s[0] in delims) != inside then 0 else 1 + Prefix(s[1..], delims, inside)
  }

  lemma {:induction false} PrefixUnique(s: string, delims: string, inside: bool, n: nat)
    requires n <= |s|
    requires forall i :: 0 <= i < n ==> (s[i] in delims <==> inside)
    requires n < |s| ==> (s[n] in delims <==> !inside)
    ensures Prefix(s, delims, inside) == n
  {
    if n > 0 {
      assert s[1..][..] == s[1..];
      PrefixUnique(s[1..], delims, inside, n - 1);
    }
  }

  /** One call of strtok on the text left over: the token, if any, and the text left after it. */
  datatype Token = Token(text: Option<string>, rest: string)

  function NextToken(s: string, delims: string): (t: Token)
    ensures t.text.Some? ==> |t.rest| < |s|
  {
    var skip := Prefix(s, delims, true);
    var s' := s[skip..];
    if s' == [] then Token(None, [])
    else
      var n := Prefix(s', delims, false);
      Token(Some(s'[..n]), if n < |s'| then s'[n + 1..] else [])
  }

  /** A token is a maximal run of characters that are not delimiters. */
  lemma TokenIs(s: string, delims: string, n: nat)
    requires 0 < n <= |s| && forall i :: 0 <= i < n ==> s[i] !in delims
    requires n < |s| ==> s[n] in delims
    ensures NextToken(s, delims) == Token(Some(s[..n]), if n < |s| then s[n + 1..] else [])
  {
    PrefixUnique(s, delims, true, 0);
    assert s[0..] == s;
    PrefixUnique(s, delims, false, n);
  }

  /** The same for a token that starts at position `i` of a longer text. */
  lemma TokenFrom(s: string, delims: string, i: nat, n: nat)
    requires i < n <= |s| && forall k :: i <= k < n ==> s[k] !in delims
    requires n < |s| ==> s[n] in delims
    ensures NextToken(s[i..], delims) == Token(Some(s[i..n]), if n < |s| then s[n + 1..] else [])
  {
    var t := s[i..];
    assert t[..n - i] == s[i..n];
    assert n < |s| ==> t[n - i + 1..] == s[n + 1..];
    TokenIs(t, delims, n - i);
  }

  /** A token reaches beyond any position up to which no delimiter occurs. */
  lemma TokenReaches(s: string, delims: string, i: nat, n: nat)
    requires i < n <= |s| && forall k :: i <= k < n ==> s[k] !in delims
    ensures NextToken(s[i..], delims).text.Some? && |NextToken(s[i..], delims).text.value| >= n - i
  {
    var t := s[i..];
    assert forall k :: 0 <= k < n - i ==> t[k] == s[i + k];
    TokenIs(t, delims, Prefix(t, delims, false));
  }

  /** The token from position `i` ends at `n` exactly when a delimiter stands there. */
  lemma TokenEndsIff(s: string, delims: string, i: nat, n: nat)
    requires i < n < |s| && forall k :: i <= k < n ==> s[k] !in delims
    ensures NextToken(s[i..], delims).text == Some(s[i..n]) <==> s[n] in delims
    ensures s[n] in delims ==> NextToken(s[i..], delims).rest == s[n + 1..]
  {
    if s[n] in delims {
      TokenFrom(s, delims, i, n);
    } else {
      TokenReaches(s, delims, i, n + 1);
    }
  }

  /** What follows the first occurrence of `c`, if there is one. */
  function After(s: string, c: char): string {
    if s == [] then [] else if s[0] == c then s[1..] else After(s[1..], c)
  }

  /** `s` without the characters `c` it begins with. */
  function Trim(s: string, c: char): string {
    if s != [] && s[0] == c then Trim(s[1..], c) else s
  }

  predicate Only(s: string, c: char) { forall i :: 0 <= i < |s| ==> s[i] == c }

  lemma {:induction false} TrimIsSkip(s: string, c: char)
    ensures Trim(s, c) == s[Prefix(s, [c], true)..]
    ensures Trim(s, c) == [] <==> Only(s, c)
  {
    if s != [] && s[0] == c {
      TrimIsSkip(s[1..], c);
      assert s[1..][Prefix(s[1..], [c], true)..] == s[Prefix(s, [c], true)..];
      assert Only(s, c) <==> Only(s[1..], c) by {
        assert forall i :: 0 <= i < |s| - 1 ==> s[1..][i] == s[i + 1];
      }
    }
  }

  lemma {:induction false} AfterIsRest(s: string, c: char)
    ensures var n := Prefix(s, [c], false); After(s, c) == if n < |s| then s[n + 1..] else []
  {
    if s != [] && s[0] != c {
      AfterIsRest(s[1..], c);
    }
  }

  /** With a single delimiter: there is a token unless the text is all delimiters, and what is left starts
      after the first delimiter behind it. */
  lemma SingleDelimiterToken(s: string, c: char)
    ensures NextToken(s, [c]).text.None? <==> Only(s, c)
    ensures NextToken(s, [c]).rest == After(Trim(s, c), c)
  {
    TrimIsSkip(s, c);
    AfterIsRest(Trim(s, c), c);
  }

  // ---------------------------------------------------------------- the buffer

  /** The string at a pointer, as strcpy copies it or printf prints it. */
  method ReadString(buf: array<char>, from: nat) returns (s: string)
    requires Terminated(buf[..], from)
    ensures s == CString(buf[..], from)
  {
    ghost var text := CString(buf[..], from);
    s := [];
    EndsAtNul(buf[..], from, 0);
    while buf[from + |s|] != NUL
      invariant |s| <= |text| && s == text[..|s|]
      invariant buf[from + |s|] == NUL <==> |s| == |text|
      decreases |text| - |s|
    {
      s := s + [buf[from + |s|]];
      EndsAtNul(buf[..], from, |s|);
    }
  }

  /** strtok's hidden state, together with the buffer it walks. */
  class Strtok {
    const buf: array<char>
    var next: nat

    ghost predicate Valid()
      reads this, buf
    {
      Terminated(buf[..], next)
    }

    /** The text the next call works on. */
    ghost function Rest(): string
      reads this, buf
      requires Valid()
    {
      CString(buf[..], next)
    }

    constructor (buf: array<char>)
      requires Terminated(buf[..], 0)
      ensures this.buf == buf && Valid() && Rest() == CString(buf[..], 0)
    {
      this.buf, next := buf, 0;
    }

    /** strspn (`inside`) or strcspn from position `from`. */
    method Scan(from: nat, delims: string, inside: bool) returns (n: nat)
      requires Terminated(buf[..], from)
      ensures n == Prefix(CString(buf[..], from), delims, inside)
    {
      ghost var s := CString(buf[..], from);
      n := 0;
      while buf[from + n] != NUL && (buf[from + n] in delims) == inside
        invariant n <= |s|
        invariant forall i :: 0 <= i < n ==> (s[i] in delims <==> inside)
        decreases |s| - n
      {
        assert buf[from + n] == s[n];
        n := n + 1;
      }
      assert n < |s| ==> buf[from + n] == s[n];
      PrefixUnique(s, delims, inside, n);
    }

    /** Ends the token of length `n` at `start` and moves past it. */
    method EndToken(start: nat, n: nat)
      requires Terminated(buf[..], start) && 0 < n <= |CString(buf[..], start)|
      modifies this`next, buf
      ensures Valid() && start < next
      ensures var s := old(CString(buf[..], start));
              Rest() == if n < |s| then s[n + 1..] else []
      ensures Terminated(buf[..], start) && CString(buf[..], start) == old(CString(buf[..], start))[..n]
    {
      var end := start + n;
      DropPrefix(buf[..], start, n);
      next := end;
      if buf[end] != NUL {
        CutString(buf[..], start, n);
        ghost var a := buf[..];
        buf[end] := NUL;
        assert buf[..] == a[end := NUL];
        next := end + 1;
      }
    }

    /** Returns the index of the next token, which becomes a C string of its own: the delimiter after
        it is overwritten. The text left over is all that a later call depends on. */
    method Next(delims: string) returns (tok: Option<nat>)
      requires Valid()
      modifies this`next, buf
      ensures Valid()
      ensures var t := NextToken(old(Rest()), delims);
              && Rest() == t.rest
              && (tok.None? <==> t.text.None?)
              && (tok.Some? ==> Terminated(buf[..], tok.value) && CString(buf[..], tok.value) == t.text.value)
      ensures tok.Some? ==> old(next) <= tok.value < next
    {
      hide CString, Prefix;
      var skip := Scan(next, delims, true);
      var start := next + skip;
      DropPrefix(buf[..], next, skip);
      if buf[start] == NUL {
        next := start;
        return None;
      }
      var n := Scan(start, delims, false);
      EndToken(start, n);
      return Some(start);
    }
  }

  // ---------------------------------------------------------------- repeated tokens

  /** The tokens a strtok loop visits, in order. */
  function Tokens(s: string, delims: string): seq<string>
    decreases |s|
  {
    var t := NextToken(s, delims);
    if t.text.None? then [] else [t.text.value] + Tokens(t.rest, delims)
  }

  /** The pieces of `s` between occurrences of `d`, empty ones included. */
  function Split(s: string, d: char): (pieces: seq<string>)
    ensures pieces != []
  {
    if s == [] then [[]]
    else
      var rest := Split(s[1..], d);
      if s[0] == d then [[]] + rest else [[s[0]] + rest[0]] + rest[1..]
  }

  function Join(pieces: seq<string>, d: char): string
    requires pieces != []
  {
    if |pieces| == 1 then pieces[0] else pieces[0] + [d] + Join(pieces[1..], d)
  }

  function NonEmpty(pieces: seq<string>): seq<string> {
    if pieces == [] then [] else (if pieces[0] == [] then [] else [pieces[0]]) + NonEmpty(pieces[1..])
  }

  lemma JoinGrown(c: char, rest: seq<string>, d: char)
    requires rest != []
    ensures Join([[c] + rest[0]] + rest[1..], d) == [c] + Join(rest, d)
  {
    var p := [[c] + rest[0]] + rest[1..];
    assert p[1..] == rest[1..];
    if |rest| > 1 {
      var more := Join(rest[1..], d);
      assert [c] + rest[0] + [d] + more == [c] + (rest[0] + [d] + more);
    }
  }

  /** Joining the pieces gives the text back. */
  lemma {:induction false} SplitJoin(s: string, d: char)
    ensures Join(Split(s, d), d) == s
  {
    if s != [] {
      SplitJoin(s[1..], d);
      var rest := Split(s[1..], d);
      assert s == [s[0]] + s[1..];
      if s[0] == d {
        var p := [[]] + rest;
        assert p[1..] == rest && [] + [d] == [d];
      } else {
        JoinGrown(s[0], rest, d);
      }
    }
  }

  /** No piece holds the separator. */
  lemma {:induction false} PiecesHoldNoSeparator(s: string, d: char)
    ensures forall i :: 0 <= i < |Split(s, d)| ==> d !in Split(s, d)[i]
  {
    if s != [] {
      PiecesHoldNoSeparator(s[1..], d);
    }
  }

  lemma {:induction false} SplitPiece(piece: string, s: string, d: char)
    requires d !in piece
    ensures Split(piece + [d] + s, d) == [piece] + Split(s, d)
    ensures Split(piece, d) == [piece]
  {
    if piece == [] {
      assert piece + [d] + s == [d] + s;
      assert ([d] + s)[1..] == s;
      assert Split(piece, d) == [[]] == [piece];
    } else {
      SplitPiece(piece[1..], s, d);
      assert [piece[0]] + piece[1..] == piece;
      assert (piece + [d] + s)[1..] == piece[1..] + [d] + s;
    }
  }

  /** The strtok loop visits exactly the non-empty pieces between separators, in order. */
  lemma {:induction false} TokensAreNonEmptyPieces(s: string, d: char)
    ensures Tokens(s, [d]) == NonEmpty(Split(s, d))
    decreases |s|
  {
    if s != [] {
      if s[0] == d {
        TokensAreNonEmptyPieces(s[1..], d);
        LeadingDelimiter(s, d);
        assert ([[]] + Split(s[1..], d))[1..] == Split(s[1..], d);
      } else {
        var n := Prefix(s, [d], false);
        var piece := s[..n];
        var after := s[n..];
        TokenIs(s, [d], n);
        if after == [] {
          assert piece == s;
          SplitPiece(s, [], d);
          assert Tokens([], [d]) == [];
          assert NonEmpty([s]) == [s] + NonEmpty([s][1..]);
        } else {
          assert s == piece + [d] + after[1..];
          SplitPiece(piece, after[1..], d);
          TokensAreNonEmptyPieces(after[1..], d);
          assert ([piece] + Split(after[1..], d))[1..] == Split(after[1..], d);
        }
      }
    }
  }

  lemma LeadingDelimiter(s: string, d: char)
    requires s != [] && s[0] == d
    ensures NextToken(s, [d]) == NextToken(s[1..], [d])
  {
    var k := Prefix(s[1..], [d], true);
    assert s[k + 1..] == s[1..][k..];
  }
}
