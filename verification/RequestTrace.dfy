/**
 * The other half of the agreement: whatever the byte machine accepts is spelled by the grammar. Every prefix that got
 * no verdict is explained by the part of a source that has been read, one byte at a time.
 */
module RequestTrace {
  import opened Strings
  import opened RequestParser
  import opened RequestGrammar

  // How far into a head a state is.
  function Rank(s: State): nat {
    match s
    case MethodStart => 0
    case Method => 1
    case Uri => 2
    case VersionH => 3
    case VersionT1 => 4
    case VersionT2 => 5
    case VersionP => 6
    case VersionSlash => 7
    case MajorStart => 8
    case Major => 9
    case MinorStart => 10
    case Minor => 11
    case Newline1 => 12
    case _ => 13
  }

  predicate LastLineFits(state: State, l: Line) {
    match state
    case Lws => l.Fold? && l.text == []
    case Name => l.Field? && l.value == []
    case SpaceBeforeValue => l.Field? && l.value == []
    case Value => l.Fold? ==> l.text != []
    case _ => true
  }

  /** What has been read of a source when the parser is in `state`: later parts are still empty. */
  predicate Partial(state: State, src: Source) {
    var rank := Rank(state);
    && Token(src.verb) && (src.verb != [] <==> rank >= 1)
    && UriText(src.uri) && (rank < 2 ==> src.uri == [])
    && Digits(src.major) && (src.major != [] <==> rank >= 9)
    && Digits(src.minor) && (src.minor != [] <==> rank >= 11)
    && LinesOk(src.lines) && (rank < 13 ==> src.lines == [])
    && (InHeaderLine(state) ==> src.lines != [] && LastLineFits(state, src.lines[|src.lines| - 1]))
  }

  function Target(src: Source): Str { src.verb + " " + src.uri }

  function Http(src: Source): Str { Target(src) + " " + "H" + "T" + "T" + "P" + "/" }

  lemma StartLineSpelled(src: Source)
    ensures StartLine(src) == Http(src) + src.major + "." + src.minor + "\r" + "\n"
  {
    assert Http(src) == Target(src) + " HTTP/";
  }

  function InLineText(state: State, l: Line): Str {
    match state
    case Name => if l.Field? then l.name else []
    case SpaceBeforeValue => if l.Field? then l.name + ":" else []
    case Newline2 => LineText(l) + "\r"
    case _ => LineText(l)
  }

  /** The bytes that lead a fresh parser to `state` with the parts of `src` read. */
  function PartialText(state: State, src: Source): Str {
    var lines := src.lines;
    match state
    case MethodStart => []
    case Method => src.verb
    case Uri => Target(src)
    case VersionH => Target(src) + " "
    case VersionT1 => Target(src) + " " + "H"
    case VersionT2 => Target(src) + " " + "H" + "T"
    case VersionP => Target(src) + " " + "H" + "T" + "T"
    case VersionSlash => Target(src) + " " + "H" + "T" + "T" + "P"
    case MajorStart => Http(src)
    case Major => Http(src) + src.major
    case MinorStart => Http(src) + src.major + "."
    case Minor => Http(src) + src.major + "." + src.minor
    case Newline1 => Http(src) + src.major + "." + src.minor + "\r"
    case LineStart => StartLine(src) + LinesText(lines)
    case Newline3 => StartLine(src) + LinesText(lines) + "\r"
    case _ =>
      if lines == [] then []
      else StartLine(src) + LinesText(lines[..|lines| - 1]) + InLineText(state, lines[|lines| - 1])
  }

  /** The request holds the meaning of what has been read. */
  predicate Holds(c: Config, src: Source)
    requires Partial(c.state, src)
  {
    && c.head.verb == src.verb && c.head.uri == src.uri
    && c.head.headers == Headers(src.lines)
    && (Rank(c.state) >= 8 ==> c.head.major == DecimalValue(src.major) && c.head.minor == DecimalValue(src.minor))
    && (c.fits <==> VersionFits(src.major) && VersionFits(src.minor))
  }

  predicate Explains(src: Source, c: Config, s: Str) {
    Partial(c.state, src) && PartialText(c.state, src) == s && Holds(c, src)
  }

  lemma ExtendTarget(c: Config, s: Str, src: Source, b: Byte) returns (src': Source)
    requires BackIsSafe(c) && Explains(src, c, s)
    requires Step(c, b).1 == Indeterminate && Rank(c.state) < 3
    ensures Explains(src', Step(c, b).0, s + [b])
  {
    if c.state == MethodStart {
      src' := src.(verb := [b]);
    } else if c.state == Method {
      src' := if b == ' ' then src else src.(verb := src.verb + [b]);
      assert b == ' ' ==> s + " " == Target(src);
    } else {
      src' := if b == ' ' then src else src.(uri := src.uri + [b]);
      assert src.verb + " " + src.uri + [b] == src.verb + " " + (src.uri + [b]);
    }
  }

  lemma ExtendHttp(c: Config, s: Str, src: Source, b: Byte)
    requires BackIsSafe(c) && Explains(src, c, s)
    requires Step(c, b).1 == Indeterminate && 3 <= Rank(c.state) < 8
    ensures Explains(src, Step(c, b).0, s + [b])
  {
  }

  lemma Append(a: Str, b: Str, c: Str)
    ensures a + b + c == a + (b + c)
    ensures b == [] ==> a + b == a
  {
  }

  lemma StepVersion(c: Config, b: Byte)
    requires BackIsSafe(c) && Step(c, b).1 == Indeterminate && 8 <= Rank(c.state) < 12
    ensures Rank(c.state) < 10 ==>
              Step(c, b).0 == if IsDigit(b) then MajorDigit(c, b) else c.(state := MinorStart)
    ensures Rank(c.state) >= 10 ==>
              Step(c, b).0 == if IsDigit(b) then MinorDigit(c, b) else c.(state := Newline1)
    ensures !IsDigit(b) ==> if Rank(c.state) < 10 then c.state == Major && b == '.' else c.state == Minor && b == '\r'
  {
  }

  lemma MajorTextGrows(state: State, src: Source, b: Byte)
    requires state == Major || (state == MajorStart && src.major == [])
    ensures PartialText(Major, src.(major := src.major + [b])) == PartialText(state, src) + [b]
  {
    var src' := src.(major := src.major + [b]);
    assert Http(src') == Http(src);
    hide Http;
    Append(Http(src), src.major, [b]);
  }

  lemma MinorTextGrows(state: State, src: Source, b: Byte)
    requires state == Minor || (state == MinorStart && src.minor == [])
    ensures PartialText(Minor, src.(minor := src.minor + [b])) == PartialText(state, src) + [b]
  {
    var src' := src.(minor := src.minor + [b]);
    assert Http(src') == Http(src);
    hide Http;
    Append(Http(src) + src.major + ".", src.minor, [b]);
  }

  lemma MajorHolds(c: Config, src: Source, b: Byte)
    requires Partial(c.state, src) && Holds(c, src) && (c.state.MajorStart? || c.state.Major?) && IsDigit(b)
    ensures var src' := src.(major := src.major + [b]);
            Partial(Major, src') && Holds(MajorDigit(c, b), src')
  {
    AccumulateDigit(src.major, b);
    hide DecimalValue, Headers, LinesOk, Token, UriText, VersionFits, IsDigit, Digits;
  }

  lemma ExtendMajor(c: Config, s: Str, src: Source, b: Byte) returns (src': Source)
    requires BackIsSafe(c) && Explains(src, c, s)
    requires Step(c, b).1 == Indeterminate && 8 <= Rank(c.state) < 10
    ensures Explains(src', Step(c, b).0, s + [b])
  {
    StepVersion(c, b);
    hide Step, DecimalValue, Headers, Http, LinesOk, Token, UriText, VersionFits, IsDigit, Digits;
    src' := src;
    if IsDigit(b) {
      hide PartialText, Holds;
      src' := src.(major := src.major + [b]);
      MajorHolds(c, src, b);
      MajorTextGrows(c.state, src, b);
    }
  }

  lemma MinorHolds(c: Config, src: Source, b: Byte)
    requires Partial(c.state, src) && Holds(c, src) && (c.state.MinorStart? || c.state.Minor?) && IsDigit(b)
    ensures var src' := src.(minor := src.minor + [b]);
            Partial(Minor, src') && Holds(MinorDigit(c, b), src')
  {
    AccumulateDigit(src.minor, b);
    hide DecimalValue, Headers, LinesOk, Token, UriText, VersionFits, IsDigit, Digits;
  }

  lemma ExtendMinor(c: Config, s: Str, src: Source, b: Byte) returns (src': Source)
    requires BackIsSafe(c) && Explains(src, c, s)
    requires Step(c, b).1 == Indeterminate && 10 <= Rank(c.state) < 12
    ensures Explains(src', Step(c, b).0, s + [b])
  {
    StepVersion(c, b);
    hide Step, DecimalValue, Headers, Http, LinesOk, Token, UriText, VersionFits, IsDigit, Digits;
    src' := src;
    if IsDigit(b) {
      hide PartialText, Holds;
      src' := src.(minor := src.minor + [b]);
      MinorHolds(c, src, b);
      MinorTextGrows(c.state, src, b);
    }
  }

  lemma ExtendNewline1(c: Config, s: Str, src: Source, b: Byte)
    requires BackIsSafe(c) && Explains(src, c, s)
    requires Step(c, b).1 == Indeterminate && c.state == Newline1
    ensures Explains(src, Step(c, b).0, s + [b])
  {
    StartLineSpelled(src);
    assert StartLine(src) + LinesText([]) == StartLine(src);
  }

  /** Appending a line, or changing the last one, leaves the lines before it alone. */
  lemma LastLine(before: seq<Line>, l: Line)
    ensures (before + [l])[..|before + [l]| - 1] == before
    ensures (before + [l])[|before + [l]| - 1] == l
    ensures LinesOk(before) && LineOk(l) && (before == [] ==> l.Field?) ==> LinesOk(before + [l])
  {
  }

  lemma HeadersAppend(before: seq<Line>, l: Line)
    ensures before == [] ==> Headers(before) == []
    ensures l.Field? ==> Headers(before + [l]) == Headers(before) + [Header(l.name, l.value)]
    ensures l.Fold? && Headers(before) != [] ==> Headers(before + [l]) == ExtendLastValue(Headers(before), l.text)
  {
    LastLine(before, l);
  }

  lemma StepLineStart(c: Config, b: Byte)
    requires BackIsSafe(c) && Step(c, b).1 == Indeterminate && c.state == LineStart
    ensures var hs := c.head.headers;
            Step(c, b).0 ==
            if b == '\r' then c.(state := Newline3)
            else if hs != [] && IsBlank(b) then c.(state := Lws)
            else c.(state := Name, head := c.head.(headers := hs + [Header([b], [])]))
    ensures b == '\r' || (c.head.headers != [] && IsBlank(b)) || IsTokenByte(b)
  {
  }

  lemma ExtendByNothing(hs: seq<Header>)
    requires hs != []
    ensures ExtendLastValue(hs, []) == hs
  {
    assert hs[|hs| - 1].value + [] == hs[|hs| - 1].value;
  }

  lemma SameStartLine(src: Source, src': Source)
    requires src' == src.(lines := src'.lines)
    ensures StartLine(src') == StartLine(src)
  {
  }

  /** A new line of one byte. */
  lemma NewLineText(state: State, src: Source, l: Line, b: Byte)
    requires (state == Lws && l == Fold([b], [])) || (state == Name && l == Field([b], []))
    ensures PartialText(state, src.(lines := src.lines + [l])) == PartialText(LineStart, src) + [b]
  {
    var src' := src.(lines := src.lines + [l]);
    LastLine(src.lines, l);
    SameStartLine(src, src');
    assert InLineText(state, l) == [b];
  }

  lemma LineIsPartial(src: Source, state: State, l: Line)
    requires Partial(LineStart, src) && LineOk(l) && (src.lines == [] ==> l.Field?)
    requires (state.Lws? && l.Fold? && l.text == []) || (state.Name? && l.Field? && l.value == [])
    ensures Partial(state, src.(lines := src.lines + [l]))
  {
    hide LinesOk, LineOk, Token, UriText, Digits;
    LastLine(src.lines, l);
  }

  /** At the start of a line: a fold, or a new header. */
  lemma ExtendByLine(c: Config, s: Str, src: Source, b: Byte) returns (src': Source)
    requires BackIsSafe(c) && Explains(src, c, s)
    requires Step(c, b).1 == Indeterminate && c.state == LineStart && b != '\r'
    ensures Explains(src', Step(c, b).0, s + [b])
  {
    StepLineStart(c, b);
    hide Step, DecimalValue, Headers, PartialText, IsTokenByte;
    var hs := c.head.headers;
    var l := if hs != [] && IsBlank(b) then Fold([b], []) else Field([b], []);
    HeadersAppend(src.lines, l);
    assert src.lines == [] ==> l.Field?;
    src' := src.(lines := src.lines + [l]);
    assert LineOk(l) && Rank(LineStart) == 13;
    hide Partial, LineOk;
    LineIsPartial(src, Step(c, b).0.state, l);
    if l.Fold? {
      ExtendByNothing(hs);
    }
    NewLineText(Step(c, b).0.state, src, l, b);
  }

  predicate EndsPart(state: State, b: Byte) {
    state == Newline2 || state == SpaceBeforeValue || b == '\r' || (state == Name && b == ':')
  }

  function NextPart(state: State): State {
    match state
    case Name => SpaceBeforeValue
    case SpaceBeforeValue => Value
    case Newline2 => LineStart
    case _ => Newline2
  }

  // The byte that ends each part.
  function EndByte(state: State): Byte {
    match state
    case Name => ':'
    case SpaceBeforeValue => ' '
    case Newline2 => '\n'
    case _ => '\r'
  }

  lemma StepEndsPart(c: Config, b: Byte)
    requires BackIsSafe(c) && Step(c, b).1 == Indeterminate && InHeaderLine(c.state) && EndsPart(c.state, b)
    ensures Step(c, b).0 == c.(state := NextPart(c.state)) && b == EndByte(c.state)
  {
  }

  lemma LinesTextAppend(lines: seq<Line>)
    requires lines != []
    ensures var l := lines[|lines| - 1];
            LinesText(lines[..|lines| - 1]) + (LineText(l) + "\r" + "\n") == LinesText(lines)
  {
    var l := lines[|lines| - 1];
    assert LineText(l) + "\r" + "\n" == LineText(l) + "\r\n";
    Append(LinesText(lines[..|lines| - 1]), LineText(l), "\r\n");
  }

  lemma InLineTextEnds(state: State, l: Line)
    requires (InHeaderLine(state) && state != Newline2) && LastLineFits(state, l)
    ensures InLineText(NextPart(state), l) == InLineText(state, l) + [EndByte(state)]
  {
    if state == SpaceBeforeValue {
      assert l.name + ":" + " " == l.name + ": ";
      assert l.name + ": " + [] == l.name + ": ";
    }
  }

  lemma PartialTextEnds(state: State, src: Source)
    requires InHeaderLine(state) && src.lines != [] && LastLineFits(state, src.lines[|src.lines| - 1])
    ensures PartialText(NextPart(state), src) == PartialText(state, src) + [EndByte(state)]
  {
    hide LinesText, StartLine;
    var lead := LinesText(src.lines[..|src.lines| - 1]);
    var l := src.lines[|src.lines| - 1];
    if state == Newline2 {
      LinesTextAppend(src.lines);
      Append(StartLine(src) + lead, LineText(l) + "\r", "\n");
      Append(StartLine(src), lead, LineText(l) + "\r" + "\n");
    } else {
      InLineTextEnds(state, l);
      Append(StartLine(src) + lead, InLineText(state, l), [EndByte(state)]);
    }
  }

  lemma EndsPartly(state: State, src: Source)
    requires InHeaderLine(state) && Partial(state, src)
    ensures Partial(NextPart(state), src) && Rank(NextPart(state)) == Rank(state) == 13
    ensures LastLineFits(state, src.lines[|src.lines| - 1])
  {
    hide LinesOk, Token, UriText, Digits;
  }

  /** Inside a header line, a byte that ends a part of it. */
  lemma ExtendByEnd(c: Config, s: Str, src: Source, b: Byte)
    requires BackIsSafe(c) && Explains(src, c, s)
    requires Step(c, b).1 == Indeterminate && InHeaderLine(c.state) && EndsPart(c.state, b)
    ensures Explains(src, Step(c, b).0, s + [b])
  {
    StepEndsPart(c, b);
    hide Step, Headers, DecimalValue, PartialText, Digits, VersionFits, LastLineFits, EndByte, EndsPart;
    EndsPartly(c.state, src);
    PartialTextEnds(c.state, src);
    hide Partial;
  }

  function TextState(state: State, b: Byte): State {
    if state == Lws && !IsBlank(b) then Value else state
  }

  function ExtendLine(state: State, l: Line, b: Byte): Line {
    match state
    case Name => if l.Field? then l.(name := l.name + [b]) else l
    case Lws => if l.Field? then l else if IsBlank(b) then l.(blanks := l.blanks + [b]) else l.(text := l.text + [b])
    case _ => if l.Field? then l.(value := l.value + [b]) else l.(text := l.text + [b])
  }

  lemma ExtendText(state: State, l: Line, b: Byte)
    requires (state.Name? || state.Lws? || state.Value?) && LastLineFits(state, l)
    ensures var l' := ExtendLine(state, l, b);
            InLineText(TextState(state, b), l') == InLineText(state, l) + [b]
  {
  }

  lemma PartialTextGrows(state: State, src: Source, before: seq<Line>, l: Line, b: Byte)
    requires (state.Name? || state.Lws? || state.Value?) && src.lines == before + [l] && LastLineFits(state, l)
    ensures PartialText(TextState(state, b), src.(lines := before + [ExtendLine(state, l, b)]))
         == PartialText(state, src) + [b]
  {
    hide LinesText, StartLine;
    var l' := ExtendLine(state, l, b);
    LastLine(before, l);
    LastLine(before, l');
    ExtendText(state, l, b);
    SameStartLine(src, src.(lines := before + [l']));
    Append(StartLine(src) + LinesText(before), InLineText(state, l), [b]);
    hide InLineText, ExtendLine;
  }

  lemma StepInText(c: Config, b: Byte)
    requires BackIsSafe(c) && Step(c, b).1 == Indeterminate && InHeaderLine(c.state) && !EndsPart(c.state, b)
    ensures c.state.Name? || c.state.Lws? || c.state.Value?
    ensures c.state == Name ==> IsTokenByte(b)
    ensures c.state != Name && !(c.state == Lws && IsBlank(b)) ==> !IsCtl(b)
    ensures var hs := c.head.headers;
            Step(c, b).0 == c.(state := TextState(c.state, b), head := c.head.(headers :=
              if c.state == Name then ExtendLastName(hs, [b])
              else if c.state == Lws && IsBlank(b) then hs
              else ExtendLastValue(hs, [b])))
  {
  }

  lemma ExtendedLineOk(state: State, l: Line, b: Byte)
    requires (state.Name? || state.Lws? || state.Value?) && LineOk(l) && LastLineFits(state, l)
    requires state == Name ==> IsTokenByte(b)
    requires state != Name && !(state == Lws && IsBlank(b)) ==> !IsCtl(b)
    ensures var l' := ExtendLine(state, l, b);
            LineOk(l') && LastLineFits(TextState(state, b), l') && (l'.Field? <==> l.Field?)
  {
  }

  lemma ExtendLastHeader(state: State, before: seq<Line>, l: Line, b: Byte)
    requires LinesOk(before) && LineOk(l) && (before == [] ==> l.Field?)
    requires (state.Name? || state.Lws? || state.Value?) && LastLineFits(state, l)
    ensures var l' := ExtendLine(state, l, b);
            var hs := Headers(before + [l]);
            hs != [] && Headers(before + [l']) ==
            if state == Name then ExtendLastName(hs, [b])
            else if state == Lws && IsBlank(b) then hs
            else ExtendLastValue(hs, [b])
  {
    var l' := ExtendLine(state, l, b);
    LastLine(before, l);
    LastLine(before, l');
    if l.Fold? {
      var hs := Headers(before);
      assert hs[|hs| - 1].value + l.text + [b] == hs[|hs| - 1].value + (l.text + [b]);
    }
  }

  lemma LineGrows(state: State, src: Source, before: seq<Line>, l: Line, b: Byte)
    requires InHeaderLine(state) && Partial(state, src) && src.lines == before + [l]
    requires (state.Name? || state.Lws? || state.Value?) && (state == Name ==> IsTokenByte(b))
    requires state != Name && !(state == Lws && IsBlank(b)) ==> !IsCtl(b)
    ensures LinesOk(before) && LineOk(l) && (before == [] ==> l.Field?) && LastLineFits(state, l)
    ensures Partial(TextState(state, b), src.(lines := before + [ExtendLine(state, l, b)]))
    ensures Rank(TextState(state, b)) == Rank(state)
  {
    LastLine(before, l);
    ExtendedLineOk(state, l, b);
    LastLine(before, ExtendLine(state, l, b));
    hide Token, UriText, Digits, LineOk, ExtendLine;
  }

  /** Inside a header line, one more byte of its text. */
  lemma ExtendByText(c: Config, s: Str, src: Source, b: Byte) returns (src': Source)
    requires BackIsSafe(c) && Explains(src, c, s)
    requires Step(c, b).1 == Indeterminate && InHeaderLine(c.state) && !EndsPart(c.state, b)
    ensures Explains(src', Step(c, b).0, s + [b])
  {
    var lines := src.lines;
    var before, l := lines[..|lines| - 1], lines[|lines| - 1];
    assert lines == before + [l];
    var l' := ExtendLine(c.state, l, b);
    var c' := Step(c, b).0;
    src' := src.(lines := before + [l']);
    StepInText(c, b);
    hide Step, Digits, VersionFits, DecimalValue, Headers, PartialText, LineOk, LinesOk, ExtendLine, TextState;
    LineGrows(c.state, src, before, l, b);
    ExtendLastHeader(c.state, before, l, b);
    PartialTextGrows(c.state, src, before, l, b);
    hide Partial, LastLineFits, ExtendLastName, ExtendLastValue, IsBlank, IsTokenByte, IsCtl;
  }

  lemma ExtendStart(c: Config, s: Str, src: Source, b: Byte) returns (src': Source)
    requires BackIsSafe(c) && Explains(src, c, s)
    requires Step(c, b).1 == Indeterminate && Rank(c.state) < 13
    ensures Explains(src', Step(c, b).0, s + [b])
  {
    hide Step, Explains;
    src' := src;
    if Rank(c.state) < 3 {
      src' := ExtendTarget(c, s, src, b);
    } else if Rank(c.state) < 8 {
      ExtendHttp(c, s, src, b);
    } else if Rank(c.state) < 10 {
      src' := ExtendMajor(c, s, src, b);
    } else if Rank(c.state) < 12 {
      src' := ExtendMinor(c, s, src, b);
    } else {
      ExtendNewline1(c, s, src, b);
    }
  }

  lemma ExtendByEmptyLine(c: Config, s: Str, src: Source, b: Byte)
    requires BackIsSafe(c) && Explains(src, c, s)
    requires Step(c, b).1 == Indeterminate && c.state == LineStart && b == '\r'
    ensures Explains(src, Step(c, b).0, s + [b])
  {
  }

  /** One more byte without a verdict extends the source that explains the configuration. */
  lemma Extend(c: Config, s: Str, src: Source, b: Byte) returns (src': Source)
    requires BackIsSafe(c) && Explains(src, c, s)
    requires Step(c, b).1 == Indeterminate
    ensures Explains(src', Step(c, b).0, s + [b])
  {
    assert c.state != Newline3;
    hide Step, Explains;
    src' := src;
    if Rank(c.state) < 13 {
      src' := ExtendStart(c, s, src, b);
    } else if c.state == LineStart && b == '\r' {
      ExtendByEmptyLine(c, s, src, b);
    } else if c.state == LineStart {
      src' := ExtendByLine(c, s, src, b);
    } else if EndsPart(c.state, b) {
      ExtendByEnd(c, s, src, b);
    } else {
      src' := ExtendByText(c, s, src, b);
    }
  }

  /** Every byte string that gets no verdict is explained by a source. */
  lemma {:induction false} Trace(s: Str, m: int, n: int) returns (src: Source)
    requires Run(Fresh(m, n), s).verdict == Indeterminate
    ensures Explains(src, Run(Fresh(m, n), s).config, s)
    decreases |s|
  {
    if s == [] {
      src := Source([], [], [], [], []);
    } else {
      var front, b := s[..|s| - 1], s[|s| - 1];
      assert s == front + [b];
      RunAppend(Fresh(m, n), front, [b]);
      var c := Run(Fresh(m, n), front).config;
      assert Run(c, [b]).config == Step(c, b).0 && Run(c, [b]).verdict == Step(c, b).1;
      hide Run, Step, Explains;
      src := Trace(front, m, n);
      src := Extend(c, front, src, b);
    }
  }

  /** A verdict is given on the last byte consumed; everything before it passed without one. */
  lemma {:induction false} VerdictByte(c: Config, s: Str)
    requires BackIsSafe(c) && Run(c, s).verdict != Indeterminate
    ensures var r := Run(c, s);
            && Run(c, s[..r.consumed - 1]).verdict == Indeterminate
            && Step(Run(c, s[..r.consumed - 1]).config, s[r.consumed - 1]) == (r.config, r.verdict)
    decreases s
  {
    var (c', v) := Step(c, s[0]);
    if v == Indeterminate {
      VerdictByte(c', s[1..]);
      var k := Run(c, s).consumed;
      assert s[..k - 1][1..] == s[1..][..k - 2];
    }
  }

  /** Only the line feed after the empty line is answered with `Good`. */
  lemma AtLastNewline(src: Source, s: Str, c: Config, b: Byte)
    requires BackIsSafe(c) && Explains(src, c, s) && Step(c, b).1 == Good
    ensures WellFormed(src) && Render(src) == s + [b]
  {
    assert c.state == Newline3 && b == '\n';
    hide Step, Headers, DecimalValue, LinesText, StartLine, LinesOk, Token, UriText, Digits, VersionFits;
    var text := StartLine(src) + LinesText(src.lines);
    assert text + "\r" + "\n" == text + "\r\n";
  }

  /** Whatever a fresh parser accepts was spelled by a well-formed source. */
  lemma OnlyGrammarIsAccepted(s: Str, m: int, n: int) returns (src: Source)
    requires Run(Fresh(m, n), s).verdict == Good
    ensures WellFormed(src) && Render(src) <= s
    ensures Run(Fresh(m, n), s) == Outcome(Config(Newline3, Meaning(src), SourceFits(src)), Good, |Render(src)|)
  {
    hide Run, Step, LinesText, Headers, DecimalValue, Partial, PartialText;
    VerdictByte(Fresh(m, n), s);
    var k := Run(Fresh(m, n), s).consumed;
    src := Trace(s[..k - 1], m, n);
    assert s[..k] == s[..k - 1] + [s[k - 1]];
    assert WellFormed(src) && Render(src) == s[..k] by {
      AtLastNewline(src, s[..k - 1], Run(Fresh(m, n), s[..k - 1]).config, s[k - 1]);
    }
    GrammarIsAccepted(src, s[k..], m, n);
    assert s == s[..k] + s[k..];
  }
}
