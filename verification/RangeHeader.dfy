/** The Range header: its regular expression, the backward decoder, and the status it yields. */
module RangeHeader {
  import opened Decimal
  import opened Regex
  import opened Tokenizer

  /** The expression compiled with REG_ICASE for a Range line. */
  function RangeRegex(): Regex {
    Cat(WordNoCase("range"), Cat(Star(One(Blank)), FromColon()))
  }

  // The expression from each part on, so that its language can be built up from the end.

  function FromColon(): Regex { Cat(One(Lit(':')), Cat(Star(One(Blank)), FromUnit())) }

  function FromUnit(): Regex { Cat(WordNoCase("bytes="), Numbers()) }

  function Numbers(): Regex {
    Alt(Cat(Plus(One(Digit)), Cat(One(Lit('-')), Star(One(Digit)))),
        Cat(One(Lit('-')), Plus(One(Digit))))
  }

  /** `s` begins with the field name, a colon and `bytes=`, blanks allowed around the colon. */
  predicate LeadFits(s: string, colon: nat, unit: nat) {
    && 5 <= colon < unit && unit + 6 <= |s|
    && WordAt("range", s, 0)
    && AllAt(Blank, s, 5, colon) && s[colon] == ':' && AllAt(Blank, s, colon + 1, unit)
    && WordAt("bytes=", s, unit)
  }

  /** Where the parts of a match lie: the colon, the unit, the dash, and the end of the match. */
  datatype Layout = Layout(colon: nat, unit: nat, dash: nat, end: nat) {
    /** The first digit field starts right after `bytes=`. */
    function Digits(): nat { unit + 6 }

    /** `s` up to `end` is a Range line laid out in this way. */
    predicate Fits(s: string) {
      && LeadFits(s, colon, unit) && Digits() <= dash < end <= |s|
      && AllAt(Digit, s, Digits(), dash) && s[dash] == '-' && AllAt(Digit, s, dash + 1, end)
      && (Digits() < dash || dash + 1 < end)
    }

    function First(s: string): string
      requires Fits(s)
    {
      s[Digits()..dash]
    }

    function Second(s: string): string
      requires Fits(s)
    {
      s[dash + 1..end]
    }
  }

  /** The two digit fields and the dash between them. */
  predicate NumbersAt(s: string, i: nat, dash: nat, k: nat)
    requires k <= |s|
  {
    i <= dash < k && AllAt(Digit, s, i, dash) && s[dash] == '-' && AllAt(Digit, s, dash + 1, k) && i + 1 < k
  }

  lemma NumbersMatch(s: string, i: nat, d: nat, k: nat)
    requires k <= |s| && NumbersAt(s, i, d, k)
    ensures Matches(Numbers(), s, i, k)
  {
    var dash, digits := One(Lit('-')), One(Digit);
    PlusLanguage(Digit, s, i, d);
    StarLanguage(Digit, s, d + 1, k);
    PlusLanguage(Digit, s, d + 1, k);
    assert Matches(dash, s, d, d + 1);
    if i < d {
      assert Matches(Cat(dash, Star(digits)), s, d, k);
      assert Matches(Cat(Plus(digits), Cat(dash, Star(digits))), s, i, k);
    } else {
      assert Matches(Cat(dash, Plus(digits)), s, i, k);
    }
  }

  lemma MatchedNumbers(s: string, i: nat, k: nat) returns (d: nat)
    requires i <= k <= |s| && Matches(Numbers(), s, i, k)
    ensures NumbersAt(s, i, d, k)
  {
    var dash, digits := One(Lit('-')), One(Digit);
    if Matches(Cat(dash, Plus(digits)), s, i, k) {
      d := i;
      var m := Divide(dash, Plus(digits), s, i, k);
      PlusLanguage(Digit, s, d + 1, k);
    } else {
      d := Divide(Plus(digits), Cat(dash, Star(digits)), s, i, k);
      var m := Divide(dash, Star(digits), s, d, k);
      PlusLanguage(Digit, s, i, d);
      StarLanguage(Digit, s, d + 1, k);
    }
  }

  /** Every laid-out line is in the language of the expression. */
  lemma LayoutMatches(s: string, l: Layout)
    requires l.Fits(s)
    ensures Matches(RangeRegex(), s, 0, l.end)
  {
    var blanks := Star(One(Blank));
    NumbersMatch(s, l.Digits(), l.dash, l.end);
    WordNoCaseLanguage("bytes=", s, l.unit, l.Digits());
    assert Matches(FromUnit(), s, l.unit, l.end);
    StarLanguage(Blank, s, l.colon + 1, l.unit);
    assert Matches(Cat(blanks, FromUnit()), s, l.colon + 1, l.end);
    assert Matches(One(Lit(':')), s, l.colon, l.colon + 1);
    assert Matches(FromColon(), s, l.colon, l.end);
    StarLanguage(Blank, s, 5, l.colon);
    assert Matches(Cat(blanks, FromColon()), s, 5, l.end);
    WordNoCaseLanguage("range", s, 0, 5);
  }

  /** Every match is laid out in this way. */
  lemma MatchHasLayout(s: string, end: nat) returns (l: Layout)
    requires end <= |s| && Matches(RangeRegex(), s, 0, end)
    ensures l.Fits(s) && l.end == end
  {
    var blanks := Star(One(Blank));
    var i0 := Divide(WordNoCase("range"), Cat(blanks, FromColon()), s, 0, end);
    WordNoCaseLanguage("range", s, 0, i0);
    var i1 := Divide(blanks, FromColon(), s, i0, end);
    StarLanguage(Blank, s, i0, i1);
    var i2 := Divide(One(Lit(':')), Cat(blanks, FromUnit()), s, i1, end);
    var i3 := Divide(blanks, FromUnit(), s, i2, end);
    StarLanguage(Blank, s, i2, i3);
    var i4 := Divide(WordNoCase("bytes="), Numbers(), s, i3, end);
    WordNoCaseLanguage("bytes=", s, i3, i4);
    var d := MatchedNumbers(s, i4, end);
    l := Layout(i1, i3, d, end);
  }

  /** The scanner: one pass over the line. */
  function ScanRange(line: string): Option<Layout> {
    if !WordAt("range", line, 0) then None
    else
      var colon := Span(Blank, line, 5);
      if colon == |line| || line[colon] != ':' then None
      else
        var unit := Span(Blank, line, colon + 1);
        if !WordAt("bytes=", line, unit) then None
        else
          var dash := Span(Digit, line, unit + 6);
          if dash == |line| || line[dash] != '-' then None
          else
            var end := Span(Digit, line, dash + 1);
            if end == unit + 7 then None else Some(Layout(colon, unit, dash, end))
  }

  predicate DigitRunEnds(line: string, n: nat) { n < |line| ==> !InClass(Digit, line[n]) }

  lemma ScanComplete(line: string, l: Layout)
    requires l.Fits(line) && DigitRunEnds(line, l.end)
    ensures ScanRange(line) == Some(l)
  {
    assert Lower(line[l.unit + 0]) == "bytes="[0];
    SpanUnique(Blank, line, 5, l.colon);
    SpanUnique(Blank, line, l.colon + 1, l.unit);
    SpanUnique(Digit, line, l.Digits(), l.dash);
    SpanUnique(Digit, line, l.dash + 1, l.end);
  }

  /** The scanner finds exactly what regexec finds: the longest prefix in the language, or nothing. */
  lemma ScanIsLongestMatch(line: string)
    ensures ScanRange(line).Some? ==>
              ScanRange(line).value.Fits(line) && LongestPrefix(RangeRegex(), line, ScanRange(line).value.end)
    ensures ScanRange(line).None? ==> forall m :: 0 <= m <= |line| ==> !Matches(RangeRegex(), line, 0, m)
  {
    if ScanRange(line).Some? {
      LayoutMatches(line, ScanRange(line).value);
    }
    forall m | 0 <= m <= |line| && Matches(RangeRegex(), line, 0, m)
      ensures ScanRange(line).Some? && m <= ScanRange(line).value.end
    {
      var l := MatchHasLayout(line, m);
      ScanComplete(line, l.(end := Span(Digit, line, m)));
    }
  }

  // ---------------------------------------------------------------- decoding

  datatype Status = Ok | PartialContent | RangeNotSatisfiable | BadRequest | NotImplemented | InternalError

  datatype ByteRange = ByteRange(start: int, end: int)

  /** The meaning of a field: its decimal value in a 32-bit int, or -1 when it is absent. */
  function FieldValue(digits: string): int
    requires AllDigits(digits)
  {
    if digits == [] then -1 else Wrap32(Value(digits))
  }

  function Decoded(line: string, l: Layout): ByteRange
    requires l.Fits(line)
  {
    ByteRange(FieldValue(l.First(line)), FieldValue(l.Second(line)))
  }

  /** More digits than a position weight of 32 bits can follow. */
  predicate Overflows(digits: string) { |digits| > 9 }

  lemma {:induction false} WeightBound(k: nat)
    ensures FitsInt32(Pow10(k)) <==> k <= 9
    ensures k > 9 ==> Pow10(k) > 0x7fff_ffff
  {
    assert Pow10(0) == 1 && Pow10(1) == 10 && Pow10(2) == 100 && Pow10(3) == 1000;
    assert Pow10(4) == 10 * Pow10(3) && Pow10(5) == 10 * Pow10(4) && Pow10(6) == 10 * Pow10(5);
    assert Pow10(7) == 10 * Pow10(6) && Pow10(8) == 10 * Pow10(7) && Pow10(9) == 10 * Pow10(8);
    if k > 10 {
      WeightBound(k - 1);
    }
  }

  /** One right-to-left digit loop, from just before position `end` of the buffer down to the first
      character that is not a digit. The arithmetic is that of a 32-bit int; `overflow` records whether
      any result left its range. */
  method ScanDigitsBack(buf: array<char>, ghost lo: nat, end: nat, ghost digits: string)
    returns (i: nat, value: int, ghost overflow: bool)
    requires lo + 1 + |digits| == end <= buf.Length && AllDigits(digits)
    requires !IsDigit(buf[lo]) && forall k :: lo < k < end ==> buf[k] == digits[k - lo - 1]
    ensures i == |digits| && value == FieldValue(digits)
    ensures overflow <==> Overflows(digits)
  {
    i, value, overflow := 0, -1, false;
    var pos := 1;
    var c := buf[end - 1] as int - '0' as int;
    if 0 <= c <= 9 {
      value := 0;
    }
    ghost var n := |digits|;
    while 0 <= c <= 9
      invariant i <= n
      invariant c == buf[end - 1 - i] as int - '0' as int
      invariant pos == Wrap32(Pow10(i))
      invariant value == if n == 0 then -1 else Wrap32(Value(digits[n - i..]))
      invariant overflow <==> i > 9
      decreases n - i
    {
      assert i < n;
      overflow := AccumulateDigit(digits, i, value, pos, overflow);
      value := Wrap32(value + Wrap32(c * pos));
      i := i + 1;
      pos := Wrap32(pos * 10);
      c := buf[end - 1 - i] as int - '0' as int;
    }
    assert digits[0..] == digits;
  }

  /** One turn of the digit loop, in exact and in 32-bit arithmetic. */
  lemma AccumulateDigit(digits: string, i: nat, value: int, pos: int, overflow: bool) returns (overflow': bool)
    requires AllDigits(digits) && i < |digits|
    requires value == Wrap32(Value(digits[|digits| - i..])) && pos == Wrap32(Pow10(i))
    requires overflow <==> i > 9
    ensures var c := DigitValue(digits[|digits| - 1 - i]);
            && Wrap32(value + Wrap32(c * pos)) == Wrap32(Value(digits[|digits| - 1 - i..]))
            && Wrap32(pos * 10) == Wrap32(Pow10(i + 1))
            && (overflow' <==> overflow || !FitsInt32(c * pos) || !FitsInt32(value + c * pos) || !FitsInt32(pos * 10))
    ensures overflow' <==> i + 1 > 9
  {
    var c, tail := DigitValue(digits[|digits| - 1 - i]), digits[|digits| - i..];
    assert digits[|digits| - 1 - i..] == [digits[|digits| - 1 - i]] + tail;
    ValuePrepend(digits[|digits| - 1 - i], tail);
    WrapMulAdd(Value(tail), c, Pow10(i));
    WrapMul10(Pow10(i));
    overflow' := overflow || !FitsInt32(c * pos) || !FitsInt32(value + c * pos) || !FitsInt32(pos * 10);
    WeightBound(i);
    WeightBound(i + 1);
    ValueBound(tail);
    ValueBound(digits[|digits| - 1 - i..]);
    if i < 9 {
      assert value == Value(tail) && pos == Pow10(i);
    }
  }

  /** The two loops together: for every match, whatever the number of digits, they return the two
      fields' 32-bit values and stay inside the matched text; arithmetic overflows exactly when a field
      has more than nine digits. */
  method DecodeRange(buf: array<char>, pointer: nat, matchEnd: nat, ghost line: string, ghost l: Layout)
    returns (r: ByteRange, ghost overflow: bool)
    requires pointer + |line| <= buf.Length && buf[pointer..pointer + |line|] == line
    requires l.Fits(line) && l.end == matchEnd
    ensures r == Decoded(line, l)
    ensures overflow <==> Overflows(l.First(line)) || Overflows(l.Second(line))
  {
    assert forall k :: 0 <= k < |line| ==> buf[pointer + k] == line[k];
    ghost var dash, equals := pointer + l.dash, pointer + l.unit + 5;
    assert Lower(line[l.unit + 5]) == "bytes="[5];
    var i, endValue, o1 := ScanDigitsBack(buf, dash, pointer + matchEnd, l.Second(line));
    i := i + 1;
    var j, startValue, o2 := ScanDigitsBack(buf, equals, pointer + matchEnd - i, l.First(line));
    return ByteRange(startValue, endValue), o1 || o2;
  }

  /** Whatever the number of digits, decoding gives the one 32-bit integer congruent to the decimal value. */
  lemma FieldsAreCongruent(digits: string)
    requires AllDigits(digits) && digits != []
    ensures FitsInt32(FieldValue(digits)) && (Value(digits) - FieldValue(digits)) % TWO32 == 0
  {
    var q := WrapCongruent(Value(digits));
    assert Value(digits) - FieldValue(digits) == -q * TWO32;
    MultipleIsZero(-q);
  }

  lemma MultipleIsZero(q: int)
    ensures (q * TWO32) % TWO32 == 0
  {
  }

  /** Up to nine digits, decoding gives the decimal values themselves. */
  lemma ShortFieldsAreExact(digits: string)
    requires AllDigits(digits) && digits != [] && !Overflows(digits)
    ensures FieldValue(digits) == Value(digits)
  {
    ValueBound(digits);
    WeightBound(9);
    Pow10Monotone(|digits|, 9);
  }

  lemma {:induction false} Pow10Monotone(i: nat, j: nat)
    requires i <= j
    ensures Pow10(i) <= Pow10(j)
  {
    if i < j {
      Pow10Monotone(i, j - 1);
    }
  }

  // ---------------------------------------------------------------- status and round trip

  /** The byte range a header line asks for, if it is a Range line. */
  function RangeOf(line: string): Option<ByteRange> {
    match ScanRange(line)
    case None => None
    case Some(l) => Some(Decoded(line, l))
  }

  function RangeStatus(r: ByteRange): Status {
    if r.start == -1 && r.end > 0 then PartialContent
    else if r.start >= 0 && r.end == -1 then PartialContent
    else if r.start >= 0 && r.end > 0 && r.start < r.end then PartialContent
    else RangeNotSatisfiable
  }

  /** A printed range line: a lead, the fields that are present, and whatever follows. */
  function RangeLine(lead: string, first: string, second: string, trail: string): string {
    lead + (first + ("-" + (second + trail)))
  }

  /** The scanner recovers the two fields from a printed line, whatever follows them. */
  lemma FieldsRoundTrip(lead: string, colon: nat, unit: nat, first: string, second: string, trail: string)
    requires LeadFits(lead, colon, unit) && |lead| == unit + 6
    requires AllDigits(first) && AllDigits(second) && (first != [] || second != [])
    requires trail == [] || !IsDigit(trail[0])
    ensures RangeOf(RangeLine(lead, first, second, trail)) == Some(ByteRange(FieldValue(first), FieldValue(second)))
  {
    var line := RangeLine(lead, first, second, trail);
    var l := Layout(colon, unit, |lead| + |first|, |lead| + |first| + 1 + |second|);
    assert line[..|lead|] == lead;
    assert line[|lead|..l.dash] == first;
    assert line[l.dash] == '-';
    assert line[l.dash + 1..l.end] == second;
    assert line[l.end..] == trail;
    FitsFromParts(line, lead, l, first, second);
    ScanComplete(line, l);
  }

  lemma FitsFromParts(line: string, lead: string, l: Layout, first: string, second: string)
    requires LeadFits(lead, l.colon, l.unit) && |lead| == l.Digits() && lead <= line
    requires l.Digits() <= l.dash < l.end <= |line|
    requires line[l.Digits()..l.dash] == first && line[l.dash] == '-' && line[l.dash + 1..l.end] == second
    requires AllDigits(first) && AllDigits(second) && (first != [] || second != [])
    ensures l.Fits(line) && l.First(line) == first && l.Second(line) == second
  {
    assert forall k :: 0 <= k < |lead| ==> line[k] == lead[k];
    assert forall k :: l.Digits() <= k < l.dash ==> line[k] == first[k - l.Digits()];
    assert forall k :: l.dash + 1 <= k < l.end ==> line[k] == second[k - l.dash - 1];
  }

  function Field(n: Option<nat>): string {
    match n
    case None => []
    case Some(v) => Print(v)
  }

  function FieldOrAbsent(n: Option<nat>): int {
    match n
    case None => -1
    case Some(v) => v
  }

  /** Printing any range whose numbers have at most nine digits and parsing it gives the range back,
      and it is satisfiable exactly when it is a positive suffix, open, or strictly increasing. */
  lemma RangeRoundTrip(lead: string, colon: nat, unit: nat, a: Option<nat>, b: Option<nat>, trail: string)
    requires LeadFits(lead, colon, unit) && |lead| == unit + 6
    requires a.Some? || b.Some?
    requires a.Some? ==> a.value < Pow10(9)
    requires b.Some? ==> b.value < Pow10(9)
    requires trail == [] || !IsDigit(trail[0])
    ensures RangeOf(RangeLine(lead, Field(a), Field(b), trail)) == Some(ByteRange(FieldOrAbsent(a), FieldOrAbsent(b)))
    ensures RangeStatus(ByteRange(FieldOrAbsent(a), FieldOrAbsent(b))) == PartialContent <==>
            match (a, b)
            case (None, _) => b.value > 0
            case (_, None) => true
            case (Some(i), Some(j)) => i < j
  {
    FieldsRoundTrip(lead, colon, unit, Field(a), Field(b), trail);
    PrintedFieldValue(a);
    PrintedFieldValue(b);
  }

  lemma PrintedFieldValue(n: Option<nat>)
    requires n.Some? ==> n.value < Pow10(9)
    ensures AllDigits(Field(n)) && FieldValue(Field(n)) == FieldOrAbsent(n)
  {
    if n.Some? {
      PrintLengthIff(n.value, 9);
      PrintRoundTrip(n.value);
      ShortFieldsAreExact(Field(n));
    }
  }

  /** Ten digits can already be decoded wrongly: this field does not mean what it says. */
  lemma TenDigitsWrap()
    ensures Overflows(Print(4294967301)) && FieldValue(Print(4294967301)) == 5
  {
    PrintRoundTrip(4294967301);
    PrintLengthIff(4294967301, 9);
    assert Pow10(9) == 1000000000 by {
      assert Pow10(4) == 10000;
      assert Pow10(8) == 10 * Pow10(7) && Pow10(6) == 10 * Pow10(5);
    }
  }
}
