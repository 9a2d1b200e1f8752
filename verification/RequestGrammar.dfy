/**
 * What the parser accepts, as a grammar: a request head written as its parts, how the parts are spelled, and
 * what they mean; and the first half of their agreement with the byte machine: every spelling is accepted.
 */
module RequestGrammar {
  import opened Strings
  import opened RequestParser

  // ---------- The grammar ----------

  // A header line, or a folded continuation of the header before it.
  datatype Line = Field(name: Str, value: Str) | Fold(blanks: Str, text: Str)

  datatype Source = Source(verb: Str, uri: Str, major: Str, minor: Str, lines: seq<Line>)

  predicate Token(s: Str) { forall i :: 0 <= i < |s| ==> IsTokenByte(s[i]) }

  predicate UriText(s: Str) { forall i :: 0 <= i < |s| ==> s[i] != ' ' && !IsCtl(s[i]) }

  predicate Text(s: Str) { forall i :: 0 <= i < |s| ==> !IsCtl(s[i]) }

  predicate Blanks(s: Str) { forall i :: 0 <= i < |s| ==> IsBlank(s[i]) }

  predicate LineOk(l: Line) {
    match l
    case Field(name, value) => name != [] && Token(name) && Text(value)
    case Fold(blanks, text) => blanks != [] && Blanks(blanks) && Text(text) && (text != [] ==> text[0] != ' ')
  }

  predicate LinesOk(lines: seq<Line>) {
    (forall i :: 0 <= i < |lines| ==> LineOk(lines[i])) && (lines != [] ==> lines[0].Field?)
  }

  predicate WellFormed(src: Source) {
    && src.verb != [] && Token(src.verb)
    && UriText(src.uri)
    && src.major != [] && Digits(src.major)
    && src.minor != [] && Digits(src.minor)
    && LinesOk(src.lines)
  }

  function LineText(l: Line): Str {
    match l
    case Field(name, value) => name + ": " + value
    case Fold(blanks, text) => blanks + text
  }

  function LinesText(lines: seq<Line>): Str {
    if lines == [] then []
    else LinesText(lines[..|lines| - 1]) + LineText(lines[|lines| - 1]) + "\r\n"
  }

  function StartLine(src: Source): Str {
    src.verb + " " + src.uri + " HTTP/" + src.major + "." + src.minor + "\r\n"
  }

  function Render(src: Source): Str {
    StartLine(src) + LinesText(src.lines) + "\r\n"
  }

  /** A fold adds its text to the value before it and drops its blanks. */
  function Headers(lines: seq<Line>): (hs: seq<Header>)
    ensures lines != [] && lines[0].Field? ==> hs != []
  {
    if lines == [] then []
    else
      var before := lines[..|lines| - 1];
      match lines[|lines| - 1]
      case Field(name, value) => Headers(before) + [Header(name, value)]
      case Fold(_, text) => if Headers(before) == [] then [] else ExtendLastValue(Headers(before), text)
  }

  function Meaning(src: Source): Head
    requires WellFormed(src)
  {
    Head(src.verb, src.uri, DecimalValue(src.major), DecimalValue(src.minor), Headers(src.lines))
  }

  // The largest version the code can accumulate: anything more than INT32_MAX - '0' overflows before '0' is
  // subtracted.
  const VERSION_MAX := INT32_MAX - 48

  predicate VersionFits(digits: Str)
    requires Digits(digits)
  {
    DecimalValue(digits) <= VERSION_MAX
  }

  lemma VersionBound(v: nat)
    ensures VersionFits(Decimal(v)) <==> v <= 2147483599
  {
    hide Decimal, DecimalValue;
  }

  predicate SourceFits(src: Source)
    requires WellFormed(src)
  {
    VersionFits(src.major) && VersionFits(src.minor)
  }

  // ---------- Running over a concatenation ----------

  lemma {:induction false} RunAppend(c: Config, a: Str, b: Str)
    requires BackIsSafe(c)
    ensures var first := Run(c, a);
            Run(c, a + b) ==
            if first.verdict != Indeterminate then first
            else var rest := Run(first.config, b); rest.(consumed := |a| + rest.consumed)
    decreases a
  {
    if a == [] {
      assert a + b == b;
    } else {
      assert (a + b)[1..] == a[1..] + b;
      var (c', v) := Step(c, a[0]);
      if v == Indeterminate {
        RunAppend(c', a[1..], b);
      }
    }
  }

  // `s` takes the parser from `c` to `d` and no verdict is given on the way.
  predicate Leads(c: Config, s: Str, d: Config)
    requires BackIsSafe(c)
  {
    Run(c, s) == Outcome(d, Indeterminate, |s|)
  }

  lemma LeadsAppend(c: Config, a: Str, d: Config, b: Str, e: Config)
    requires BackIsSafe(c) && BackIsSafe(d)
    requires Leads(c, a, d) && Leads(d, b, e)
    ensures Leads(c, a + b, e)
  {
    RunAppend(c, a, b);
  }

  lemma LeadsByte(c: Config, b: Byte, d: Config)
    requires BackIsSafe(c) && Step(c, b) == (d, Indeterminate)
    ensures Leads(c, [b], d)
  {
    assert [b][1..] == [];
  }

  // ---------- The grammar is accepted ----------

  lemma {:induction false} LeadsVerb(c: Config, s: Str)
    requires c.state == Method && Token(s)
    ensures Leads(c, s, c.(head := c.head.(verb := c.head.verb + s)))
    decreases s
  {
    if s == [] {
      assert c.head.verb + s == c.head.verb;
    } else {
      LeadsVerb(Step(c, s[0]).0, s[1..]);
      assert c.head.verb + [s[0]] + s[1..] == c.head.verb + s;
    }
  }

  lemma {:induction false} LeadsUri(c: Config, s: Str)
    requires c.state == Uri && UriText(s)
    ensures Leads(c, s, c.(head := c.head.(uri := c.head.uri + s)))
    decreases s
  {
    if s == [] {
      assert c.head.uri + s == c.head.uri;
    } else {
      LeadsUri(Step(c, s[0]).0, s[1..]);
      assert c.head.uri + [s[0]] + s[1..] == c.head.uri + s;
    }
  }

  lemma LeadsHttp(c: Config)
    requires c.state == Uri
    ensures Leads(c, " HTTP/", c.(state := MajorStart, head := c.head.(major := 0, minor := 0)))
  {
    hide Run;
    var h, t, p := c.(state := VersionH), c.(state := VersionT1), c.(state := VersionP);
    LeadsByte(c, ' ', h);
    LeadsByte(h, 'H', t);
    LeadsByte(t, 'T', c.(state := VersionT2));
    LeadsByte(c.(state := VersionT2), 'T', p);
    LeadsByte(p, 'P', c.(state := VersionSlash));
    var d := c.(state := MajorStart, head := c.head.(major := 0, minor := 0));
    LeadsByte(c.(state := VersionSlash), '/', d);
    assert " " + "H" == " H" && " H" + "T" == " HT" && " HT" + "T" == " HTT";
    assert " HTT" + "P" == " HTTP" && " HTTP" + "/" == " HTTP/";
    LeadsAppend(c, " ", h, "H", t);
    LeadsAppend(c, " H", t, "T", c.(state := VersionT2));
    LeadsAppend(c, " HT", c.(state := VersionT2), "T", p);
    LeadsAppend(c, " HTT", p, "P", c.(state := VersionSlash));
    LeadsAppend(c, " HTTP", c.(state := VersionSlash), "/", d);
  }

  function MajorRead(c: Config, digits: Str): Config
    requires Digits(digits)
  {
    Config(Major, c.head.(major := DecimalValue(digits)), c.fits && VersionFits(digits))
  }

  function MinorRead(c: Config, digits: Str): Config
    requires Digits(digits)
  {
    Config(Minor, c.head.(minor := DecimalValue(digits)), c.fits && VersionFits(digits))
  }

  /** One more digit fits in 32 bits exactly when the longer run is at most VERSION_MAX. */
  lemma AccumulateDigit(front: Str, last: Byte)
    requires Digits(front) && IsDigit(last)
    ensures Digits(front + [last])
    ensures front == [] ==> DecimalValue(front) == 0 && VersionFits(front)
    ensures DecimalValue(front + [last]) == Accumulate(DecimalValue(front), last)
    ensures VersionFits(front + [last]) <==> VersionFits(front) && AccumulateFits(DecimalValue(front), last)
  {
    var s := front + [last];
    assert s[..|s| - 1] == front && s[|s| - 1] == last;
  }

  lemma NextMajor(c: Config, front: Str, last: Byte)
    requires c.head.major == 0 && Digits(front) && IsDigit(last)
    ensures Digits(front + [last])
    ensures MajorDigit(if front == [] then c else MajorRead(c, front), last) == MajorRead(c, front + [last])
  {
    hide DecimalValue, VersionFits, Accumulate, AccumulateFits;
    AccumulateDigit(front, last);
  }

  lemma LeadsMajorDigit(c: Config, d: Byte)
    requires (c.state == MajorStart || c.state == Major) && IsDigit(d)
    ensures Leads(c, [d], MajorDigit(c, d))
  {
    LeadsByte(c, d, MajorDigit(c, d));
  }

  lemma {:induction false} LeadsMajor(c: Config, digits: Str)
    requires c.state == MajorStart && c.head.major == 0
    requires digits != [] && Digits(digits)
    ensures Leads(c, digits, MajorRead(c, digits))
    decreases |digits|
  {
    hide Run, DecimalValue, VersionFits, MajorDigit;
    var front, last := digits[..|digits| - 1], digits[|digits| - 1];
    assert digits == front + [last];
    NextMajor(c, front, last);
    if front == [] {
      LeadsMajorDigit(c, last);
    } else {
      var d := MajorRead(c, front);
      LeadsMajor(c, front);
      LeadsMajorDigit(d, last);
      LeadsAppend(c, front, d, [last], MajorDigit(d, last));
    }
  }

  lemma NextMinor(c: Config, front: Str, last: Byte)
    requires c.head.minor == 0 && Digits(front) && IsDigit(last)
    ensures Digits(front + [last])
    ensures MinorDigit(if front == [] then c else MinorRead(c, front), last) == MinorRead(c, front + [last])
  {
    hide DecimalValue, VersionFits, Accumulate, AccumulateFits;
    AccumulateDigit(front, last);
  }

  lemma LeadsMinorDigit(c: Config, d: Byte)
    requires (c.state == MinorStart || c.state == Minor) && IsDigit(d)
    ensures Leads(c, [d], MinorDigit(c, d))
  {
    LeadsByte(c, d, MinorDigit(c, d));
  }

  lemma {:induction false} LeadsMinor(c: Config, digits: Str)
    requires c.state == MinorStart && c.head.minor == 0
    requires digits != [] && Digits(digits)
    ensures Leads(c, digits, MinorRead(c, digits))
    decreases |digits|
  {
    hide Run, DecimalValue, VersionFits, MinorDigit;
    var front, last := digits[..|digits| - 1], digits[|digits| - 1];
    assert digits == front + [last];
    NextMinor(c, front, last);
    if front == [] {
      LeadsMinorDigit(c, last);
    } else {
      var d := MinorRead(c, front);
      LeadsMinor(c, front);
      LeadsMinorDigit(d, last);
      LeadsAppend(c, front, d, [last], MinorDigit(d, last));
    }
  }

  lemma {:induction false} LeadsName(c: Config, s: Str)
    requires c.state == Name && c.head.headers != [] && Token(s)
    ensures Leads(c, s, c.(head := c.head.(headers := ExtendLastName(c.head.headers, s))))
    decreases s
  {
    var hs := c.head.headers;
    if s == [] {
      assert hs[|hs| - 1].name + s == hs[|hs| - 1].name;
      assert ExtendLastName(hs, s) == hs;
    } else {
      LeadsName(Step(c, s[0]).0, s[1..]);
      assert hs[|hs| - 1].name + [s[0]] + s[1..] == hs[|hs| - 1].name + s;
      assert ExtendLastName(ExtendLastName(hs, [s[0]]), s[1..]) == ExtendLastName(hs, s);
    }
  }

  lemma {:induction false} LeadsValue(c: Config, s: Str)
    requires c.state == Value && c.head.headers != [] && Text(s)
    ensures Leads(c, s, c.(head := c.head.(headers := ExtendLastValue(c.head.headers, s))))
    decreases s
  {
    var hs := c.head.headers;
    if s == [] {
      assert hs[|hs| - 1].value + s == hs[|hs| - 1].value;
      assert ExtendLastValue(hs, s) == hs;
    } else {
      LeadsValue(Step(c, s[0]).0, s[1..]);
      assert hs[|hs| - 1].value + [s[0]] + s[1..] == hs[|hs| - 1].value + s;
      assert ExtendLastValue(ExtendLastValue(hs, [s[0]]), s[1..]) == ExtendLastValue(hs, s);
    }
  }

  lemma {:induction false} LeadsBlanks(c: Config, s: Str)
    requires c.state == Lws && c.head.headers != [] && Blanks(s)
    ensures Leads(c, s, c)
    decreases s
  {
    if s != [] {
      LeadsBlanks(c, s[1..]);
    }
  }

  /** The line ends of the states that may end a header line. */
  lemma LeadsNewline(c: Config)
    requires c.state == Value || c.state == Lws
    requires c.head.headers != []
    ensures Leads(c, "\r\n", c.(state := LineStart))
  {
    hide Run;
    LeadsByte(c, '\r', c.(state := Newline2));
    LeadsByte(c.(state := Newline2), '\n', c.(state := LineStart));
    assert "\r" + "\n" == "\r\n";
    LeadsAppend(c, "\r", c.(state := Newline2), "\n", c.(state := LineStart));
  }

  lemma LeadsField(c: Config, l: Line)
    requires c.state == LineStart && l.Field? && LineOk(l)
    ensures Leads(c, LineText(l) + "\r\n",
                  c.(head := c.head.(headers := c.head.headers + [Header(l.name, l.value)])))
  {
    hide Run;
    var hs := c.head.headers;
    var c1 := Step(c, l.name[0]).0;
    LeadsByte(c, l.name[0], c1);
    LeadsName(c1, l.name[1..]);
    assert [l.name[0]] + l.name[1..] == l.name;
    var c2 := c1.(head := c.head.(headers := hs + [Header(l.name, [])]));
    assert ExtendLastName(c1.head.headers, l.name[1..]) == c2.head.headers;
    LeadsAppend(c, [l.name[0]], c1, l.name[1..], c2);
    var c3 := c2.(state := SpaceBeforeValue);
    LeadsByte(c2, ':', c3);
    LeadsAppend(c, l.name, c2, ":", c3);
    var c4 := c2.(state := Value);
    LeadsByte(c3, ' ', c4);
    LeadsAppend(c, l.name + ":", c3, " ", c4);
    assert l.name + ":" + " " == l.name + ": ";
    LeadsValue(c4, l.value);
    assert [] + l.value == l.value;
    var c5 := c4.(head := c.head.(headers := hs + [Header(l.name, l.value)]));
    assert ExtendLastValue(c4.head.headers, l.value) == c5.head.headers;
    LeadsAppend(c, l.name + ": ", c4, l.value, c5);
    LeadsNewline(c5);
    LeadsAppend(c, LineText(l), c5, "\r\n", c5.(state := LineStart));
  }

  lemma LeadsFold(c: Config, l: Line)
    requires c.state == LineStart && c.head.headers != [] && l.Fold? && LineOk(l)
    ensures Leads(c, LineText(l) + "\r\n",
                  c.(head := c.head.(headers := ExtendLastValue(c.head.headers, l.text))))
  {
    hide Run;
    var hs := c.head.headers;
    var c1 := c.(state := Lws);
    LeadsByte(c, l.blanks[0], c1);
    LeadsBlanks(c1, l.blanks[1..]);
    LeadsAppend(c, [l.blanks[0]], c1, l.blanks[1..], c1);
    assert [l.blanks[0]] + l.blanks[1..] == l.blanks;
    if l.text == [] {
      assert hs[|hs| - 1].value + l.text == hs[|hs| - 1].value;
      assert ExtendLastValue(hs, l.text) == hs;
      LeadsNewline(c1);
      assert l.blanks + l.text == l.blanks;
      LeadsAppend(c, LineText(l), c1, "\r\n", c);
    } else {
      var c2 := Step(c1, l.text[0]).0;
      LeadsByte(c1, l.text[0], c2);
      LeadsAppend(c, l.blanks, c1, [l.text[0]], c2);
      LeadsValue(c2, l.text[1..]);
      var c3 := c2.(head := c.head.(headers := ExtendLastValue(hs, l.text)));
      assert hs[|hs| - 1].value + [l.text[0]] + l.text[1..] == hs[|hs| - 1].value + l.text;
      assert ExtendLastValue(c2.head.headers, l.text[1..]) == c3.head.headers;
      LeadsAppend(c, l.blanks + [l.text[0]], c2, l.text[1..], c3);
      assert l.blanks + [l.text[0]] + l.text[1..] == LineText(l);
      LeadsNewline(c3);
      LeadsAppend(c, LineText(l), c3, "\r\n", c3.(state := LineStart));
    }
  }

  lemma {:induction false} LeadsLines(c: Config, lines: seq<Line>)
    requires c.state == LineStart && c.head.headers == [] && LinesOk(lines)
    ensures Leads(c, LinesText(lines), c.(head := c.head.(headers := Headers(lines))))
    decreases |lines|
  {
    if lines != [] {
      hide Run, Step;
      var before, l := lines[..|lines| - 1], lines[|lines| - 1];
      LeadsLines(c, before);
      var d := c.(head := c.head.(headers := Headers(before)));
      var e := c.(head := c.head.(headers := Headers(lines)));
      if l.Field? {
        LeadsField(d, l);
      } else {
        LeadsFold(d, l);
      }
      LeadsAppend(c, LinesText(before), d, LineText(l) + "\r\n", e);
      assert LinesText(before) + (LineText(l) + "\r\n") == LinesText(lines);
    }
  }

  lemma LeadsVersion(c0: Config, s5: Str, c5: Config, src: Source)
    requires BackIsSafe(c0) && WellFormed(src) && c5.state == MajorStart
    requires c5.head == Head(src.verb, src.uri, 0, 0, []) && c5.fits
    requires Leads(c0, s5, c5)
    ensures Leads(c0, s5 + src.major + "." + src.minor + "\r\n",
                  Config(LineStart, Meaning(src).(headers := []), SourceFits(src)))
  {
    hide Run;
    LeadsMajor(c5, src.major);
    var c6 := MajorRead(c5, src.major);
    LeadsAppend(c0, s5, c5, src.major, c6);
    var c7 := c6.(state := MinorStart);
    LeadsByte(c6, '.', c7);
    LeadsAppend(c0, s5 + src.major, c6, ".", c7);
    LeadsMinor(c7, src.minor);
    var c8 := MinorRead(c7, src.minor);
    LeadsAppend(c0, s5 + src.major + ".", c7, src.minor, c8);
    var s8 := s5 + src.major + "." + src.minor;
    LeadsByte(c8, '\r', c8.(state := Newline1));
    LeadsAppend(c0, s8, c8, "\r", c8.(state := Newline1));
    LeadsByte(c8.(state := Newline1), '\n', c8.(state := LineStart));
    LeadsAppend(c0, s8 + "\r", c8.(state := Newline1), "\n", c8.(state := LineStart));
    assert s8 + "\r" + "\n" == s8 + "\r\n";
  }

  lemma LeadsStartLine(src: Source, m: int, n: int)
    requires WellFormed(src)
    ensures Leads(Fresh(m, n), StartLine(src),
                  Config(LineStart, Meaning(src).(headers := []), SourceFits(src)))
  {
    hide Run;
    var c0 := Fresh(m, n);
    var c1 := Step(c0, src.verb[0]).0;
    LeadsByte(c0, src.verb[0], c1);
    LeadsVerb(c1, src.verb[1..]);
    assert [src.verb[0]] + src.verb[1..] == src.verb;
    var c2 := c1.(head := c0.head.(verb := src.verb));
    LeadsAppend(c0, [src.verb[0]], c1, src.verb[1..], c2);
    var c3 := c2.(state := Uri);
    LeadsByte(c2, ' ', c3);
    LeadsAppend(c0, src.verb, c2, " ", c3);
    LeadsUri(c3, src.uri);
    assert [] + src.uri == src.uri;
    var c4 := c3.(head := c2.head.(uri := src.uri));
    LeadsAppend(c0, src.verb + " ", c3, src.uri, c4);
    LeadsHttp(c4);
    var c5 := c4.(state := MajorStart, head := c4.head.(major := 0, minor := 0));
    var s5 := src.verb + " " + src.uri + " HTTP/";
    LeadsAppend(c0, src.verb + " " + src.uri, c4, " HTTP/", c5);
    LeadsVersion(c0, s5, c5, src);
  }

  lemma AcceptsNewline(c: Config, rest: Str)
    requires c.state == Newline3
    ensures Run(c, "\n" + rest) == Outcome(c, Good, 1)
  {
    assert ("\n" + rest)[0] == '\n';
  }

  /**
   * Every spelling of a well-formed head, whatever follows it, is accepted by a fresh parser exactly at its
   * end, and the request then holds its meaning.
   */
  lemma GrammarIsAccepted(src: Source, rest: Str, m: int, n: int)
    requires WellFormed(src)
    ensures Run(Fresh(m, n), Render(src) + rest)
         == Outcome(Config(Newline3, Meaning(src), SourceFits(src)), Good, |Render(src)|)
  {
    hide Run;
    var c0 := Fresh(m, n);
    var c1 := Config(LineStart, Meaning(src).(headers := []), SourceFits(src));
    var c2 := Config(LineStart, Meaning(src), SourceFits(src));
    LeadsStartLine(src, m, n);
    LeadsLines(c1, src.lines);
    LeadsAppend(c0, StartLine(src), c1, LinesText(src.lines), c2);
    var c3 := c2.(state := Newline3);
    LeadsByte(c2, '\r', c3);
    var s := StartLine(src) + LinesText(src.lines);
    LeadsAppend(c0, s, c2, "\r", c3);
    RunAppend(c0, s + "\r", "\n" + rest);
    assert s + "\r" + ("\n" + rest) == Render(src) + rest;
    AcceptsNewline(c3, rest);
  }
}
