/** POSIX basic regular expressions over ASCII, as languages, with the leftmost-longest rule at position 0. */
module Regex {

  /** The bracket classes of the C locale, a literal, and a literal compared without case. */
  datatype Class = Digit | Alnum | Punct | Blank | Lit(c: char) | NoCase(lower: char)

  function Lower(c: char): char {
    if 'A' <= c <= 'Z' then (c as int + 32) as char else c
  }

  predicate InClass(k: Class, c: char) {
    match k
    case Digit => '0' <= c <= '9'
    case Alnum => '0' <= c <= '9' || 'A' <= c <= 'Z' || 'a' <= c <= 'z'
    case Punct => '!' <= c <= '/' || ':' <= c <= '@' || '[' <= c <= '`' || '{' <= c <= '~'
    case Blank => c == ' ' || c == '\t'
    case Lit(l) => c == l
    case NoCase(l) => Lower(c) == l
  }

  datatype Regex =
    | Empty
    | One(k: Class)
    | Cat(first: Regex, second: Regex)
    | Alt(left: Regex, right: Regex)
    | Star(body: Regex)

  function Plus(r: Regex): Regex { Cat(r, Star(r)) }

  function Optional(r: Regex): Regex { Alt(Empty, r) }

  function Word(w: string): Regex {
    if w == [] then Empty else Cat(One(Lit(w[0])), Word(w[1..]))
  }

  function WordNoCase(w: string): Regex {
    if w == [] then Empty else Cat(One(NoCase(w[0])), WordNoCase(w[1..]))
  }

  function AnyWord(ws: seq<string>): Regex
    requires ws != []
  {
    if |ws| == 1 then Word(ws[0]) else Alt(Word(ws[0]), AnyWord(ws[1..]))
  }

  /** `r` matches the part of `s` from position `i` up to `j`. Subjects are addressed in place, without
      taking them apart. */
  ghost predicate Matches(r: Regex, s: string, i: nat, j: nat)
    requires i <= j <= |s|
    decreases r, j - i
  {
    match r
    case Empty => i == j
    case One(k) => j == i + 1 && InClass(k, s[i])
    case Cat(a, b) => exists m :: i <= m <= j && Matches(a, s, i, m) && Matches(b, s, m, j)
    case Alt(a, b) => Matches(a, s, i, j) || Matches(b, s, i, j)
    case Star(a) => i == j || exists m :: i < m <= j && Matches(a, s, i, m) && Matches(r, s, m, j)
  }

  /** The match regexec reports for an expression anchored at the start of the subject. */
  ghost predicate LongestPrefix(r: Regex, s: string, n: nat) {
    && n <= |s| && Matches(r, s, 0, n)
    && forall m :: n < m <= |s| ==> !Matches(r, s, 0, m)
  }

  predicate AllAt(k: Class, s: string, i: nat, j: nat)
    requires j <= |s|
  {
    forall n :: i <= n < j ==> InClass(k, s[n])
  }

  predicate WordAt(w: string, s: string, i: nat) {
    i + |w| <= |s| && forall n :: 0 <= n < |w| ==> Lower(s[i + n]) == w[n]
  }

  /** The end of the longest run of class `k` from position `i`. */
  function Span(k: Class, s: string, i: nat): (j: nat)
    requires i <= |s|
    ensures i <= j <= |s| && AllAt(k, s, i, j)
    ensures j < |s| ==> !InClass(k, s[j])
    decreases |s| - i
  {
    if i < |s| && InClass(k, s[i]) then Span(k, s, i + 1) else i
  }

  lemma SpanUnique(k: Class, s: string, i: nat, j: nat)
    requires i <= j <= |s| && AllAt(k, s, i, j)
    requires j < |s| ==> !InClass(k, s[j])
    ensures Span(k, s, i) == j
  {
  }

  // ---------------------------------------------------------------- languages of the building blocks

  /** Where a concatenation that matches is divided. */
  lemma Divide(a: Regex, b: Regex, s: string, i: nat, j: nat) returns (m: nat)
    requires i <= j <= |s| && Matches(Cat(a, b), s, i, j)
    ensures i <= m <= j && Matches(a, s, i, m) && Matches(b, s, m, j)
  {
    m :| i <= m <= j && Matches(a, s, i, m) && Matches(b, s, m, j);
  }

  predicate LiteralAt(w: string, s: string, i: nat) {
    i + |w| <= |s| && forall n :: 0 <= n < |w| ==> s[i + n] == w[n]
  }

  lemma {:induction false} WordLanguage(w: string, s: string, i: nat, j: nat)
    requires i <= j <= |s|
    ensures Matches(Word(w), s, i, j) <==> j == i + |w| && LiteralAt(w, s, i)
    decreases |w|
  {
    if w != [] && i < j {
      WordLanguage(w[1..], s, i + 1, j);
      if LiteralAt(w, s, i) {
        assert s[i + 0] == w[0];
        assert forall n :: 0 <= n < |w| - 1 ==> s[i + 1 + n] == s[i + (n + 1)] && w[1..][n] == w[n + 1];
        assert Matches(One(Lit(w[0])), s, i, i + 1);
      }
      if LiteralAt(w[1..], s, i + 1) && s[i] == w[0] {
        assert forall n :: 1 <= n < |w| ==> s[i + n] == s[i + 1 + (n - 1)] && w[1..][n - 1] == w[n];
      }
    }
  }

  lemma {:induction false} WordNoCaseLanguage(w: string, s: string, i: nat, j: nat)
    requires i <= j <= |s|
    ensures Matches(WordNoCase(w), s, i, j) <==> j == i + |w| && WordAt(w, s, i)
    decreases |w|
  {
    if w != [] && i < j {
      WordNoCaseLanguage(w[1..], s, i + 1, j);
      if WordAt(w, s, i) {
        assert Lower(s[i + 0]) == w[0];
        assert forall n :: 0 <= n < |w| - 1 ==> s[i + 1 + n] == s[i + (n + 1)] && w[1..][n] == w[n + 1];
        assert Matches(One(NoCase(w[0])), s, i, i + 1);
      }
      if WordAt(w[1..], s, i + 1) && Lower(s[i]) == w[0] {
        assert forall n :: 1 <= n < |w| ==> s[i + n] == s[i + 1 + (n - 1)] && w[1..][n - 1] == w[n];
      }
    }
  }

  lemma {:induction false} AnyWordLanguage(ws: seq<string>, s: string, i: nat, j: nat)
    requires ws != [] && i <= j <= |s|
    ensures Matches(AnyWord(ws), s, i, j) <==> s[i..j] in ws
    decreases |ws|
  {
    WordLanguage(ws[0], s, i, j);
    if j == i + |ws[0]| && LiteralAt(ws[0], s, i) {
      assert s[i..j] == ws[0];
    }
    if s[i..j] == ws[0] {
      assert forall n :: 0 <= n < |ws[0]| ==> s[i + n] == s[i..j][n];
    }
    if |ws| > 1 {
      AnyWordLanguage(ws[1..], s, i, j);
      assert s[i..j] in ws <==> s[i..j] == ws[0] || s[i..j] in ws[1..];
    }
  }

  /** Repeating an expression for single characters gives the strings of such characters. */
  lemma {:induction false} StarOfSingles(r: Regex, allowed: set<char>, s: string, i: nat, j: nat)
    requires i <= j <= |s|
    requires forall m, n :: 0 <= m <= n <= |s| ==> (Matches(r, s, m, n) <==> n == m + 1 && s[m] in allowed)
    ensures Matches(Star(r), s, i, j) <==> forall n :: i <= n < j ==> s[n] in allowed
    decreases j - i
  {
    if i < j {
      StarOfSingles(r, allowed, s, i + 1, j);
      assert Matches(r, s, i, i + 1) <==> s[i] in allowed;
    }
  }

  function Members(k: Class): set<char> {
    set c: char | InClass(k, c)
  }

  lemma StarLanguage(k: Class, s: string, i: nat, j: nat)
    requires i <= j <= |s|
    ensures Matches(Star(One(k)), s, i, j) <==> AllAt(k, s, i, j)
  {
    StarOfSingles(One(k), Members(k), s, i, j);
  }

  lemma PlusLanguage(k: Class, s: string, i: nat, j: nat)
    requires i <= j <= |s|
    ensures Matches(Plus(One(k)), s, i, j) <==> i < j && AllAt(k, s, i, j)
  {
    if i < j {
      StarLanguage(k, s, i + 1, j);
      assert Matches(One(k), s, i, i + 1) <==> InClass(k, s[i]);
    }
  }
}
