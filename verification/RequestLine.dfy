/** The request line: the validating expression, a scanner for it, and what strtok makes of the line. */
module RequestLine {
  import opened Regex
  import opened Tokenizer

  const METHODS: seq<string> :=
    ["GET", "HEAD", "POST", "PUT", "DELETE", "TRACE", "CONNECT", "OPTIONS", "DUMMY"]

  // ---------------------------------------------------------------- the path

  function PathChar(): Regex { Alt(Alt(One(Alnum), One(Lit('/'))), One(Lit('-'))) }

  function Extension(): Regex { Cat(One(Punct), Plus(One(Alnum))) }

  function PathTail(): Regex { Cat(Star(PathChar()), Optional(Extension())) }

  function PathRegex(): Regex { Cat(One(Lit('/')), PathTail()) }

  predicate IsPathChar(c: char) { InClass(Alnum, c) || c == '/' || c == '-' }

  function PathChars(): set<char> { set c: char | IsPathChar(c) }

  /** Position `m` holds a punctuation mark, and only alphanumerics, at least one, follow it up to `j`. */
  predicate MarkAt(s: string, m: nat, j: nat)
    requires m < j <= |s|
  {
    InClass(Punct, s[m]) && m + 1 < j && AllAt(Alnum, s, m + 1, j)
  }

  predicate PathCharAt(s: string, m: nat, j: nat)
    requires m < j <= |s|
  {
    IsPathChar(s[m]) || MarkAt(s, m, j)
  }

  /** The path without the ambiguity of the expression: a slash, then path characters, except that the
      start of a file extension may be marked by any punctuation character. */
  predicate PathAt(s: string, i: nat, j: nat)
    requires j <= |s|
  {
    i < j && s[i] == '/' && forall m :: i < m < j ==> PathCharAt(s, m, j)
  }

  /** The first position from `i` up to `j` that is not a path character, or `j`. */
  function BodyEnd(s: string, i: nat, j: nat): (k: nat)
    requires i <= j <= |s|
    ensures i <= k <= j && forall n :: i <= n < k ==> IsPathChar(s[n])
    ensures k < j ==> !IsPathChar(s[k])
    decreases j - i
  {
    if i < j && IsPathChar(s[i]) then BodyEnd(s, i + 1, j) else i
  }

  /** The single-pass scanner. */
  predicate ScanPath(s: string, i: nat, j: nat)
    requires j <= |s|
  {
    i < j && s[i] == '/' && var k := BodyEnd(s, i + 1, j); k == j || MarkAt(s, k, j)
  }

  lemma ScanPathIff(s: string, i: nat, j: nat)
    requires j <= |s|
    ensures ScanPath(s, i, j) <==> PathAt(s, i, j)
  {
    if i < j && s[i] == '/' {
      var k := BodyEnd(s, i + 1, j);
      if PathAt(s, i, j) && k < j {
        assert PathCharAt(s, k, j);
      }
    }
  }

  lemma PathCharLanguage(s: string, m: nat, n: nat)
    requires m <= n <= |s|
    ensures Matches(PathChar(), s, m, n) <==> n == m + 1 && IsPathChar(s[m])
  {
    var left, right := Alt(One(Alnum), One(Lit('/'))), One(Lit('-'));
    assert Matches(PathChar(), s, m, n) <==> Matches(left, s, m, n) || Matches(right, s, m, n);
    assert Matches(left, s, m, n) <==> Matches(One(Alnum), s, m, n) || Matches(One(Lit('/')), s, m, n);
  }

  lemma BodyLanguage(s: string, i: nat, k: nat)
    requires i <= k <= |s|
    ensures Matches(Star(PathChar()), s, i, k) <==> forall n :: i <= n < k ==> IsPathChar(s[n])
  {
    forall m, n | 0 <= m <= n <= |s|
      ensures Matches(PathChar(), s, m, n) <==> n == m + 1 && s[m] in PathChars()
    {
      PathCharLanguage(s, m, n);
    }
    StarOfSingles(PathChar(), PathChars(), s, i, k);
  }

  lemma ExtensionLanguage(s: string, m: nat, j: nat)
    requires m <= j <= |s|
    ensures Matches(Extension(), s, m, j) <==> m < j && MarkAt(s, m, j)
  {
    if Matches(Extension(), s, m, j) {
      var n := Divide(One(Punct), Plus(One(Alnum)), s, m, j);
      PlusLanguage(Alnum, s, n, j);
    }
    if m < j && MarkAt(s, m, j) {
      PlusLanguage(Alnum, s, m + 1, j);
      assert Matches(One(Punct), s, m, m + 1);
    }
  }

  /** The expression, the single-pass scanner and the plain description accept the same paths. */
  lemma PathLanguage(s: string, i: nat, j: nat)
    requires i <= j <= |s|
    ensures Matches(PathRegex(), s, i, j) <==> PathAt(s, i, j)
    ensures Matches(PathRegex(), s, i, j) <==> ScanPath(s, i, j)
  {
    ScanPathIff(s, i, j);
    if Matches(PathRegex(), s, i, j) {
      var b := Divide(One(Lit('/')), PathTail(), s, i, j);
      var m := Divide(Star(PathChar()), Optional(Extension()), s, b, j);
      BodyLanguage(s, b, m);
      ExtensionLanguage(s, m, j);
    }
    if ScanPath(s, i, j) {
      var k := BodyEnd(s, i + 1, j);
      BodyLanguage(s, i + 1, k);
      ExtensionLanguage(s, k, j);
      assert Matches(Optional(Extension()), s, k, j);
      assert Matches(PathTail(), s, i + 1, j);
      assert Matches(One(Lit('/')), s, i, i + 1);
    }
  }

  /** An accepted path has at most one punctuation mark besides slashes and hyphens. */
  lemma PathHasOneMark(s: string, i: nat, j: nat, m: nat, n: nat)
    requires j <= |s| && PathAt(s, i, j)
    requires i < m < j && i < n < j && !IsPathChar(s[m]) && !IsPathChar(s[n])
    ensures m == n
  {
    assert PathCharAt(s, m, j) && PathCharAt(s, n, j);
  }

  // ---------------------------------------------------------------- the whole line

  function VersionRegex(): Regex {
    Cat(Word("HTTP/"), Cat(One(Digit), Cat(One(Punct), Cat(One(Digit), One(Lit('\r'))))))
  }

  function FromPath(): Regex { Cat(PathRegex(), FromSecondBlank()) }

  function FromSecondBlank(): Regex { Cat(One(Blank), VersionRegex()) }

  function RequestRegex(): Regex { Cat(AnyWord(METHODS), Cat(One(Blank), FromPath())) }

  predicate VersionAt(s: string, i: nat) {
    && i + 9 <= |s| && LiteralAt("HTTP/", s, i)
    && InClass(Digit, s[i + 5]) && InClass(Punct, s[i + 6]) && InClass(Digit, s[i + 7]) && s[i + 8] == '\r'
  }

  lemma VersionLanguage(s: string, i: nat, j: nat)
    requires i <= j <= |s|
    ensures Matches(VersionRegex(), s, i, j) <==> j == i + 9 && VersionAt(s, i)
  {
    var last := Cat(One(Digit), One(Lit('\r')));
    var mark := Cat(One(Punct), last);
    var digits := Cat(One(Digit), mark);
    if Matches(VersionRegex(), s, i, j) {
      var m := Divide(Word("HTTP/"), digits, s, i, j);
      WordLanguage("HTTP/", s, i, m);
      var n := Divide(One(Digit), mark, s, m, j);
      var o := Divide(One(Punct), last, s, n, j);
      var p := Divide(One(Digit), One(Lit('\r')), s, o, j);
    }
    if j == i + 9 && VersionAt(s, i) {
      WordLanguage("HTTP/", s, i, i + 5);
      assert Matches(One(Lit('\r')), s, i + 8, j);
      assert Matches(One(Digit), s, i + 7, i + 8);
      assert Matches(last, s, i + 7, j);
      assert Matches(One(Punct), s, i + 6, i + 7);
      assert Matches(mark, s, i + 6, j);
      assert Matches(One(Digit), s, i + 5, i + 6);
      assert Matches(digits, s, i + 5, j);
    }
  }

  /** Where the two separators of a request line lie. The line ends ten characters after the second. */
  datatype Parts = Parts(sep1: nat, sep2: nat) {
    function End(): nat { sep2 + 10 }

    predicate Fits(s: string) {
      && sep1 < sep2 && End() <= |s|
      && s[..sep1] in METHODS
      && InClass(Blank, s[sep1])
      && PathAt(s, sep1 + 1, sep2)
      && InClass(Blank, s[sep2])
      && VersionAt(s, sep2 + 1)
    }

    function Method(s: string): string
      requires Fits(s)
    {
      s[..sep1]
    }

    function Path(s: string): string
      requires Fits(s)
    {
      s[sep1 + 1..sep2]
    }

    function Version(s: string): string
      requires Fits(s)
    {
      s[sep2 + 1..sep2 + 9]
    }
  }

  lemma PartsMatch(s: string, p: Parts)
    requires p.Fits(s)
    ensures Matches(RequestRegex(), s, 0, p.End())
  {
    VersionLanguage(s, p.sep2 + 1, p.End());
    assert Matches(One(Blank), s, p.sep2, p.sep2 + 1);
    assert Matches(FromSecondBlank(), s, p.sep2, p.End());
    PathLanguage(s, p.sep1 + 1, p.sep2);
    assert Matches(FromPath(), s, p.sep1 + 1, p.End());
    assert Matches(One(Blank), s, p.sep1, p.sep1 + 1);
    assert Matches(Cat(One(Blank), FromPath()), s, p.sep1, p.End());
    AnyWordLanguage(METHODS, s, 0, p.sep1);
    assert s[0..p.sep1] == s[..p.sep1];
  }

  lemma MatchHasParts(s: string, e: nat) returns (p: Parts)
    requires e <= |s| && Matches(RequestRegex(), s, 0, e)
    ensures p.Fits(s) && p.End() == e
  {
    var i := MatchedMethod(METHODS, Cat(One(Blank), FromPath()), s, e);
    p := PartsAfterMethod(s, i, e);
  }

  lemma MatchedMethod(ws: seq<string>, rest: Regex, s: string, e: nat) returns (i: nat)
    requires ws != [] && e <= |s| && Matches(Cat(AnyWord(ws), rest), s, 0, e)
    ensures i <= e && s[..i] in ws && Matches(rest, s, i, e)
  {
    i := Divide(AnyWord(ws), rest, s, 0, e);
    AnyWordLanguage(ws, s, 0, i);
    assert s[0..i] == s[..i];
  }

  lemma PartsAfterMethod(s: string, i: nat, e: nat) returns (p: Parts)
    requires i <= e <= |s| && s[..i] in METHODS && Matches(Cat(One(Blank), FromPath()), s, i, e)
    ensures p.Fits(s) && p.End() == e
  {
    var j, k := MatchedPath(s, i, e);
    p := Parts(i, j);
  }

  lemma MatchedPath(s: string, i: nat, e: nat) returns (j: nat, k: nat)
    requires i <= e <= |s| && Matches(Cat(One(Blank), FromPath()), s, i, e)
    ensures i < j < e && InClass(Blank, s[i]) && PathAt(s, i + 1, j) && InClass(Blank, s[j])
    ensures k == j + 1 && e == k + 9 && VersionAt(s, k)
  {
    var i2 := Divide(One(Blank), FromPath(), s, i, e);
    j := Divide(PathRegex(), FromSecondBlank(), s, i2, e);
    PathLanguage(s, i2, j);
    k := Divide(One(Blank), VersionRegex(), s, j, e);
    VersionLanguage(s, k, e);
  }

  /** A match in the sense of regexec with REG_NEWLINE: it starts and ends at a line's borders. */
  ghost predicate MatchesLine(text: string, i: nat, e: nat)
    requires i <= e <= |text|
  {
    && Matches(RequestRegex(), text, i, e)
    && (i == 0 || text[i - 1] == '\n')
    && (e == |text| || text[e] == '\n')
  }

  /** regexec succeeds and reports that the match starts at the first character. */
  ghost predicate Accepted(text: string) {
    exists e :: 0 <= e <= |text| && MatchesLine(text, 0, e)
  }

  /** The first blank from position `i`, or the end of the text. */
  function FindBlank(s: string, i: nat): (j: nat)
    requires i <= |s|
    ensures i <= j <= |s| && forall n :: i <= n < j ==> !InClass(Blank, s[n])
    ensures j < |s| ==> InClass(Blank, s[j])
    decreases |s| - i
  {
    if i < |s| && !InClass(Blank, s[i]) then FindBlank(s, i + 1) else i
  }

  function ScanRequest(text: string): Option<Parts> {
    var sep1 := FindBlank(text, 0);
    if sep1 == |text| then None
    else
      var p := Parts(sep1, FindBlank(text, sep1 + 1));
      if p.Fits(text) && (p.End() == |text| || text[p.End()] == '\n') then Some(p) else None
  }

  lemma MethodsHaveNoBlanks(m: string)
    requires m in METHODS
    ensures m != [] && forall n :: 0 <= n < |m| ==> !InClass(Blank, m[n])
  {
  }

  /** The separators are the first two blanks, so a text has at most one division into parts. */
  lemma PartsAreScanned(s: string, p: Parts)
    requires p.Fits(s)
    ensures FindBlank(s, 0) == p.sep1 && FindBlank(s, p.sep1 + 1) == p.sep2
  {
    forall n | 0 <= n < p.sep1
      ensures !InClass(Blank, s[n])
    {
      MethodsHaveNoBlanks(s[..p.sep1]);
      assert s[..p.sep1][n] == s[n];
    }
    forall n | p.sep1 < n < p.sep2
      ensures !InClass(Blank, s[n])
    {
      if n > p.sep1 + 1 {
        assert PathCharAt(s, n, p.sep2);
      }
    }
  }

  /** The scanner accepts exactly the headers whose first line the expression accepts. */
  lemma AcceptedIffScanned(text: string)
    ensures Accepted(text) <==> ScanRequest(text).Some?
  {
    hide PathAt, VersionAt, RequestRegex, METHODS;
    if e :| 0 <= e <= |text| && MatchesLine(text, 0, e) {
      var p := MatchHasParts(text, e);
      PartsAreScanned(text, p);
    }
    if ScanRequest(text).Some? {
      var p := ScanRequest(text).value;
      PartsMatch(text, p);
      assert MatchesLine(text, 0, p.End());
    }
  }

  // ---------------------------------------------------------------- strtok on an accepted line

  function FirstToken(text: string): Token { NextToken(text, " ") }

  function SecondToken(text: string): Token { NextToken(FirstToken(text).rest, " ") }

  function ThirdToken(text: string): Token { NextToken(SecondToken(text).rest, "\r") }

  lemma NoSpacesInParts(text: string, p: Parts)
    requires p.Fits(text)
    ensures p.sep1 > 0 && forall n :: 0 <= n < p.sep2 && n != p.sep1 ==> text[n] != ' '
  {
    PartsAreScanned(text, p);
    MethodsHaveNoBlanks(p.Method(text));
  }

  lemma FirstTokenIsMethodIff(text: string, p: Parts, i: nat)
    requires p.Fits(text) && i == p.sep1 + 1
    ensures FirstToken(text).text == Some(p.Method(text)) <==> text[p.sep1] == ' '
    ensures text[p.sep1] == ' ' ==> FirstToken(text).rest == text[i..]
  {
    NoSpacesInParts(text, p);
    assert text[0..] == text;
    assert text[0..p.sep1] == text[..p.sep1];
    TokenEndsIff(text, " ", 0, p.sep1);
  }

  lemma PathTokenIff(text: string, p: Parts, i: nat, j: nat)
    requires p.Fits(text) && i == p.sep1 + 1 && j == p.sep2 + 1
    ensures NextToken(text[i..], " ").text == Some(p.Path(text)) <==> text[p.sep2] == ' '
    ensures text[p.sep2] == ' ' ==> NextToken(text[i..], " ").rest == text[j..]
  {
    NoSpacesInParts(text, p);
    hide VersionAt, PathAt, NextToken;
    TokenEndsIff(text, " ", i, p.sep2);
  }

  lemma VersionToken(text: string, p: Parts, i: nat)
    requires p.Fits(text) && i == p.sep2 + 1
    ensures NextToken(text[i..], "\r") == Token(Some(p.Version(text)), text[p.End()..])
  {
    VersionHasNoReturn(text, i);
    hide PathAt, NextToken, METHODS;
    var n := i + 8;
    assert text[n] == '\r';
    hide VersionAt;
    TokenFrom(text, "\r", i, n);
  }

  lemma VersionHasNoReturn(text: string, i: nat)
    requires VersionAt(text, i)
    ensures forall n :: i <= n < i + 8 ==> text[n] != '\r'
  {
    forall n | i <= n < i + 8
      ensures text[n] != '\r'
    {
      if n < i + 5 {
        assert text[i + (n - i)] == "HTTP/"[n - i];
      }
    }
  }

  lemma SecondTokenIsPathIff(text: string, p: Parts, i: nat, j: nat)
    requires p.Fits(text) && text[p.sep1] == ' ' && i == p.sep1 + 1 && j == p.sep2 + 1
    requires FirstToken(text).rest == text[i..]
    ensures SecondToken(text).text == Some(p.Path(text)) <==> text[p.sep2] == ' '
    ensures text[p.sep2] == ' ' ==> SecondToken(text).rest == text[j..]
  {
    PathTokenIff(text, p, i, j);
  }

  lemma ThirdTokenIsVersion(text: string, p: Parts, i: nat)
    requires p.Fits(text) && i == p.sep2 + 1
    requires SecondToken(text).rest == text[i..]
    ensures ThirdToken(text) == Token(Some(p.Version(text)), text[p.End()..])
  {
    VersionToken(text, p, i);
  }

  /** The validated line determines the tokens exactly when its two separators are spaces: then the
      three tokens are the method, the path and the protocol of the expression, and what is left begins
      right after the carriage return. With a tab, which the expression also accepts, they are not. */
  lemma TokensAreThePartsIff(text: string, p: Parts)
    requires ScanRequest(text) == Some(p)
    ensures FirstToken(text).text == Some(p.Method(text)) && SecondToken(text).text == Some(p.Path(text))
            <==> text[p.sep1] == ' ' && text[p.sep2] == ' '
    ensures text[p.sep1] == ' ' && text[p.sep2] == ' ' ==>
              ThirdToken(text) == Token(Some(p.Version(text)), text[p.End()..])
  {
    TokensOfParts(text, p, p.sep1 + 1, p.sep2 + 1);
  }

  lemma TokensOfParts(text: string, p: Parts, i: nat, j: nat)
    requires p.Fits(text) && i == p.sep1 + 1 && j == p.sep2 + 1
    ensures FirstToken(text).text == Some(p.Method(text)) && SecondToken(text).text == Some(p.Path(text))
            <==> text[p.sep1] == ' ' && text[p.sep2] == ' '
    ensures text[p.sep1] == ' ' && text[p.sep2] == ' ' ==>
              ThirdToken(text) == Token(Some(p.Version(text)), text[p.End()..])
  {
    FirstTokenIsMethodIff(text, p, i);
    if text[p.sep1] == ' ' {
      SecondTokenIsPathIff(text, p, i, j);
      if text[p.sep2] == ' ' {
        ThirdTokenIsVersion(text, p, j);
      }
    }
  }
}
