/** Content types: a first-match substring search in a table. */
module ContentType {
  import opened Tokenizer
  import opened Regex
  import opened RequestLine
  import opened RequestParser

  datatype Entry = Entry(ext: string, name: string)

  /** The table before its NULL entry. */
  const ENTRIES: seq<Entry> := [
    Entry(".html", "text/html"),
    Entry(".css", "text/css"),
    Entry(".gif", "image/gif"),
    Entry(".jpg", "image/jpeg"),
    Entry(".pdf", "application/pdf"),
    Entry(".tar", "application/x-tar"),
    Entry(".xml", "application/xml")
  ]

  /** The name in the NULL entry. */
  const DEFAULT_NAME: string := "text/plain"

  predicate OccursAt(ext: string, s: string, i: nat) { i <= |s| && ext <= s[i..] }

  /** strstr succeeds. */
  predicate Contains(s: string, ext: string) { exists i :: 0 <= i <= |s| && OccursAt(ext, s, i) }

  /** The name the search yields for a table. */
  function TypeName(table: seq<Entry>, filename: string): string {
    if table == [] then DEFAULT_NAME
    else if Contains(filename, table[0].ext) then table[0].name
    else TypeName(table[1..], filename)
  }

  /** get_http_content_type: the index of the first entry whose extension occurs, the NULL entry's if
      none does. */
  method GetHttpContentType(table: seq<Entry>, filename: string) returns (i: nat)
    ensures i <= |table|
    ensures i < |table| ==> Contains(filename, table[i].ext)
    ensures forall j :: 0 <= j < i ==> !Contains(filename, table[j].ext)
    ensures (if i < |table| then table[i].name else DEFAULT_NAME) == TypeName(table, filename)
  {
    i := 0;
    while i < |table|
      invariant i <= |table|
      invariant forall j :: 0 <= j < i ==> !Contains(filename, table[j].ext)
      invariant TypeName(table[i..], filename) == TypeName(table, filename)
    {
      if Contains(filename, table[i].ext) { break; }
      i := i + 1;
    }
  }

  /** The result is the default exactly when no extension of the table occurs. */
  lemma {:induction false} NoMatchIsDefault(table: seq<Entry>, filename: string)
    requires forall e :: e in table ==> !Contains(filename, e.ext)
    ensures TypeName(table, filename) == DEFAULT_NAME
  {
    if table != [] {
      NoMatchIsDefault(table[1..], filename);
    }
  }

  lemma {:induction false} OnlyMatchWins(table: seq<Entry>, filename: string, e: Entry)
    requires e in table && Contains(filename, e.ext)
    requires forall d :: d in table && Contains(filename, d.ext) ==> d == e
    ensures TypeName(table, filename) == e.name
  {
    if table[0] != e {
      assert e in table[1..];
      OnlyMatchWins(table[1..], filename, e);
    }
  }

  /** When at most one entry matches, the order of the table does not matter. */
  lemma OrderIndependent(table: seq<Entry>, shuffled: seq<Entry>, filename: string)
    requires multiset(table) == multiset(shuffled)
    requires forall d, e :: d in table && e in table && Contains(filename, d.ext) && Contains(filename, e.ext) ==> d == e
    ensures TypeName(shuffled, filename) == TypeName(table, filename)
  {
    forall e: Entry
      ensures e in table <==> e in shuffled
    {
      assert e in multiset(table) <==> e in multiset(shuffled);
    }
    if e :| e in table && Contains(filename, e.ext) {
      OnlyMatchWins(table, filename, e);
      OnlyMatchWins(shuffled, filename, e);
    } else {
      NoMatchIsDefault(table, filename);
      NoMatchIsDefault(shuffled, filename);
    }
  }

  lemma {:induction false} TypeNameIsPrintable(table: seq<Entry>, filename: string)
    requires forall e :: e in table ==> '\n' !in e.name
    ensures '\n' !in TypeName(table, filename)
  {
    if table != [] {
      assert table[0] in table;
      TypeNameIsPrintable(table[1..], filename);
    }
  }

  lemma KnownNamesArePrintable(filename: string)
    ensures '\n' !in TypeName(ENTRIES, filename)
  {
    TypeNameIsPrintable(ENTRIES, filename);
  }

  // ---------------------------------------------------------------- paths the parser accepts

  /** A file path the server can ask for: the root directory and a parsed file name. */
  predicate IsServedPath(root: string, filename: string) {
    '.' !in root && (filename == DEFAULT_HTML_PAGE || IsPath(filename))
  }

  lemma ServedPathHasOneDot(root: string, filename: string, i: nat, j: nat)
    requires IsServedPath(root, filename)
    requires i < |root + filename| && j < |root + filename|
    requires (root + filename)[i] == '.' && (root + filename)[j] == '.'
    ensures i == j
  {
    var n := |root|;
    assert forall k :: 0 <= k < n ==> (root + filename)[k] == root[k];
    assert IsPath(DEFAULT_HTML_PAGE) by {
      assert forall m :: 0 < m < 13 ==> PathCharAt(DEFAULT_HTML_PAGE, m, 13);
    }
    PathHasOneMark(filename, 0, |filename|, i - n, j - n);
  }

  /** The extensions start with a dot and differ in the letter after it. */
  lemma EntriesDiffer(d: Entry, e: Entry)
    requires d in ENTRIES && e in ENTRIES
    ensures |d.ext| >= 2 && d.ext[0] == '.' && (d.ext[1] == e.ext[1] ==> d == e)
  {
  }

  lemma AtMostOneExtension(root: string, filename: string, d: Entry, e: Entry)
    requires IsServedPath(root, filename) && d in ENTRIES && e in ENTRIES
    requires Contains(root + filename, d.ext) && Contains(root + filename, e.ext)
    ensures d == e
  {
    var s := root + filename;
    EntriesDiffer(d, e);
    EntriesDiffer(e, d);
    var i :| 0 <= i <= |s| && OccursAt(d.ext, s, i);
    var j :| 0 <= j <= |s| && OccursAt(e.ext, s, j);
    assert s[i..][0] == d.ext[0] && s[i..][1] == d.ext[1];
    assert s[j..][0] == e.ext[0] && s[j..][1] == e.ext[1];
    ServedPathHasOneDot(root, filename, i, j);
  }

  /** For every path the parser accepts under a root without a dot, any order of the table gives the same
      type, and it is the default exactly when no extension occurs. */
  lemma ServedTypeIsOrderIndependent(root: string, filename: string, shuffled: seq<Entry>)
    requires IsServedPath(root, filename) && multiset(shuffled) == multiset(ENTRIES)
    ensures TypeName(shuffled, root + filename) == TypeName(ENTRIES, root + filename)
    ensures TypeName(ENTRIES, root + filename) == DEFAULT_NAME <==>
            forall e :: e in ENTRIES ==> !Contains(root + filename, e.ext)
  {
    forall d, e | d in ENTRIES && e in ENTRIES && Contains(root + filename, d.ext) && Contains(root + filename, e.ext)
      ensures d == e
    {
      AtMostOneExtension(root, filename, d, e);
    }
    OrderIndependent(ENTRIES, shuffled, root + filename);
    if e :| e in ENTRIES && Contains(root + filename, e.ext) {
      OnlyMatchWins(ENTRIES, root + filename, e);
      NamesAreNotDefault(e);
    } else {
      NoMatchIsDefault(ENTRIES, root + filename);
    }
  }

  lemma NamesAreNotDefault(e: Entry)
    requires e in ENTRIES
    ensures e.name != DEFAULT_NAME
  {
    assert DEFAULT_NAME[0] == 't' && DEFAULT_NAME[5] == 'p';
  }
}
