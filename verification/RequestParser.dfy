/** The incremental request parser: wrappers/http/request_parser.cpp and .hpp. */
module RequestParser {
  import opened Strings

  datatype State =
    | MethodStart | Method | Uri
    | VersionH | VersionT1 | VersionT2 | VersionP | VersionSlash
    | MajorStart | Major | MinorStart | Minor | Newline1
    | LineStart | Lws | Name | SpaceBeforeValue | Value | Newline2 | Newline3

  datatype Verdict = Good | Bad | Indeterminate

  datatype Header = Header(name: Str, value: Str)

  // The part of a request that the parser fills.
  datatype Head = Head(verb: Str, uri: Str, major: int, minor: int, headers: seq<Header>)

  // A parser together with the request it fills. `fits` says whether every int expression evaluated so far
  // stayed within 32 bits; C++ leaves the run undefined once one did not, the model then carries on with the
  // mathematical value, and every claim about a version is made under `fits`.
  datatype Config = Config(state: State, head: Head, fits: bool)

  predicate IsChar(c: Byte) { 0 <= Promoted(c) <= 127 }

  predicate IsCtl(c: Byte) { 0 <= Promoted(c) <= 31 || Promoted(c) == 127 }

  predicate IsTspecial(c: Byte) {
    || c == '(' || c == ')' || c == '<' || c == '>' || c == '@' || c == ',' || c == ';' || c == ':' || c == '\\'
    || c == '"' || c == '/' || c == '[' || c == ']' || c == '?' || c == '=' || c == '{' || c == '}'
    || c == ' ' || c == '\t'
  }

  predicate IsTokenByte(c: Byte) { IsChar(c) && !IsCtl(c) && !IsTspecial(c) }

  predicate IsBlank(c: Byte) { c == ' ' || c == '\t' }

  /** The control bytes of ASCII, and no byte from 128 on. */
  lemma ControlBytes(c: Byte)
    ensures IsCtl(c) <==> c as int < 32 || c as int == 127
  {
  }

  /** The token bytes of section 2.2 of RFC 2616. */
  lemma TokenBytes(c: Byte)
    ensures IsTokenByte(c) <==>
            'a' <= c <= 'z' || 'A' <= c <= 'Z' || '0' <= c <= '9' || c in "!#$%&'*+-.^_`|~"
  {
  }

  lemma BlankBytes(c: Byte)
    ensures IsBlank(c) <==> c as int == 32 || c as int == 9
  {
  }

  /** `v * 10 + input - '0'`, evaluated from the left: the sum before the subtraction is the largest intermediate. */
  function Accumulate(v: int, c: Byte): int { v * 10 + Promoted(c) - 48 }

  predicate AccumulateFits(v: int, c: Byte) { v * 10 + Promoted(c) <= INT32_MAX }

  function ExtendLastValue(hs: seq<Header>, s: Str): seq<Header>
    requires hs != []
  {
    var last := hs[|hs| - 1];
    hs[|hs| - 1 := last.(value := last.value + s)]
  }

  function ExtendLastName(hs: seq<Header>, s: Str): seq<Header>
    requires hs != []
  {
    var last := hs[|hs| - 1];
    hs[|hs| - 1 := last.(name := last.name + s)]
  }

  // The states in which the code calls headers.back().
  predicate InHeaderLine(s: State) { s.Lws? || s.Name? || s.SpaceBeforeValue? || s.Value? || s.Newline2? }

  predicate BackIsSafe(c: Config) { InHeaderLine(c.state) ==> c.head.headers != [] }

  function Expect(c: Config, b: Byte, wanted: Byte, next: State): (Config, Verdict) {
    if b == wanted then (c.(state := next), Indeterminate) else (c, Bad)
  }

  function MajorDigit(c: Config, b: Byte): Config {
    Config(Major, c.head.(major := Accumulate(c.head.major, b)), c.fits && AccumulateFits(c.head.major, b))
  }

  function MinorDigit(c: Config, b: Byte): Config {
    Config(Minor, c.head.(minor := Accumulate(c.head.minor, b)), c.fits && AccumulateFits(c.head.minor, b))
  }

  /** What one call of consume does to parser and request, and what it answers. */
  function Step(c: Config, b: Byte): (r: (Config, Verdict))
    requires BackIsSafe(c)
    ensures BackIsSafe(r.0)
  {
    var h := c.head;
    match c.state
    case MethodStart =>
      if !IsTokenByte(b) then (c, Bad)
      else (c.(state := Method, head := h.(verb := h.verb + [b])), Indeterminate)
    case Method =>
      if b == ' ' then (c.(state := Uri), Indeterminate)
      else if !IsTokenByte(b) then (c, Bad)
      else (c.(head := h.(verb := h.verb + [b])), Indeterminate)
    case Uri =>
      if b == ' ' then (c.(state := VersionH), Indeterminate)
      else if IsCtl(b) then (c, Bad)
      else (c.(head := h.(uri := h.uri + [b])), Indeterminate)
    case VersionH => Expect(c, b, 'H', VersionT1)
    case VersionT1 => Expect(c, b, 'T', VersionT2)
    case VersionT2 => Expect(c, b, 'T', VersionP)
    case VersionP => Expect(c, b, 'P', VersionSlash)
    case VersionSlash => Expect(c.(head := if b == '/' then h.(major := 0, minor := 0) else h), b, '/', MajorStart)
    case MajorStart =>
      if IsDigit(b) then (MajorDigit(c, b), Indeterminate) else (c, Bad)
    case Major =>
      if b == '.' then (c.(state := MinorStart), Indeterminate)
      else if IsDigit(b) then (MajorDigit(c, b), Indeterminate)
      else (c, Bad)
    case MinorStart =>
      if IsDigit(b) then (MinorDigit(c, b), Indeterminate) else (c, Bad)
    case Minor =>
      if b == '\r' then (c.(state := Newline1), Indeterminate)
      else if IsDigit(b) then (MinorDigit(c, b), Indeterminate)
      else (c, Bad)
    case Newline1 => Expect(c, b, '\n', LineStart)
    case LineStart =>
      if b == '\r' then (c.(state := Newline3), Indeterminate)
      else if h.headers != [] && IsBlank(b) then (c.(state := Lws), Indeterminate)
      else if !IsTokenByte(b) then (c, Bad)
      else (c.(state := Name, head := h.(headers := h.headers + [Header([b], [])])), Indeterminate)
    case Lws =>
      if b == '\r' then (c.(state := Newline2), Indeterminate)
      else if IsBlank(b) then (c, Indeterminate)
      else if IsCtl(b) then (c, Bad)
      else (c.(state := Value, head := h.(headers := ExtendLastValue(h.headers, [b]))), Indeterminate)
    case Name =>
      if b == ':' then (c.(state := SpaceBeforeValue), Indeterminate)
      else if !IsTokenByte(b) then (c, Bad)
      else (c.(head := h.(headers := ExtendLastName(h.headers, [b]))), Indeterminate)
    case SpaceBeforeValue => Expect(c, b, ' ', Value)
    case Value =>
      if b == '\r' then (c.(state := Newline2), Indeterminate)
      else if IsCtl(b) then (c, Bad)
      else (c.(head := h.(headers := ExtendLastValue(h.headers, [b]))), Indeterminate)
    case Newline2 => Expect(c, b, '\n', LineStart)
    case Newline3 => (c, if b == '\n' then Good else Bad)
  }

  // What one call of parse leaves behind: the configuration, the verdict and how many bytes it took.
  datatype Outcome = Outcome(config: Config, verdict: Verdict, consumed: nat)

  function Run(c: Config, s: Str): (r: Outcome)
    requires BackIsSafe(c)
    ensures BackIsSafe(r.config)
    ensures r.consumed <= |s|
    ensures r.verdict == Indeterminate ==> r.consumed == |s|
    ensures r.verdict != Indeterminate ==> r.consumed > 0
    decreases s
  {
    if s == [] then Outcome(c, Indeterminate, 0)
    else
      var (c', v) := Step(c, s[0]);
      if v != Indeterminate then Outcome(c', v, 1)
      else
        var r := Run(c', s[1..]);
        r.(consumed := r.consumed + 1)
  }

  /** A parser just built (or reset) with a request whose two version fields were never set. */
  function Fresh(major: int, minor: int): Config {
    Config(MethodStart, Head([], [], major, minor, []), true)
  }

  // ---------- The classes ----------

  class Request {
    var verb: Str
    var uri: Str
    var major: int
    var minor: int
    var contentLen: int
    var contentType: Str
    var body: Str
    var sessionId: Str
    var headers: seq<Header>
    var cookies: map<Str, Str>

    constructor ()
      ensures verb == [] && uri == [] && headers == []
      ensures contentLen == -1 && contentType == [] && body == [] && sessionId == [] && cookies == map[]
    {
      verb, uri, headers := [], [], [];
      contentLen, contentType, body, sessionId, cookies := -1, [], [], [], map[];
    }

    function View(): Head
      reads this`verb, this`uri, this`major, this`minor, this`headers
    {
      Head(verb, uri, major, minor, headers)
    }
  }

  class Parser {
    var state: State
    ghost var fits: bool

    ghost function View(req: Request): Config
      reads this, req`verb, req`uri, req`major, req`minor, req`headers
    {
      Config(state, req.View(), fits)
    }

    constructor ()
      ensures state == MethodStart && fits
    {
      state, fits := MethodStart, true;
    }

    method Reset()
      modifies this
      ensures state == MethodStart && fits == old(fits)
    {
      state := MethodStart;
    }

    method Consume(req: Request, input: Byte) returns (v: Verdict)
      requires BackIsSafe(View(req))
      modifies this, req`verb, req`uri, req`major, req`minor, req`headers
      ensures (View(req), v) == Step(old(View(req)), input)
    {
      v := Indeterminate;
      match state
      case MethodStart =>
        if !IsTokenByte(input) { return Bad; }
        state := Method;
        req.verb := req.verb + [input];
      case Method =>
        if input == ' ' { state := Uri; return; }
        if !IsTokenByte(input) { return Bad; }
        req.verb := req.verb + [input];
      case Uri =>
        if input == ' ' { state := VersionH; return; }
        if IsCtl(input) { return Bad; }
        req.uri := req.uri + [input];
      case VersionH =>
        if input != 'H' { return Bad; }
        state := VersionT1;
      case VersionT1 =>
        if input != 'T' { return Bad; }
        state := VersionT2;
      case VersionT2 =>
        if input != 'T' { return Bad; }
        state := VersionP;
      case VersionP =>
        if input != 'P' { return Bad; }
        state := VersionSlash;
      case VersionSlash =>
        if input != '/' { return Bad; }
        req.major, req.minor := 0, 0;
        state := MajorStart;
      case MajorStart =>
        if !IsDigit(input) { return Bad; }
        fits := fits && AccumulateFits(req.major, input);
        req.major := Accumulate(req.major, input);
        state := Major;
      case Major =>
        if input == '.' { state := MinorStart; return; }
        if !IsDigit(input) { return Bad; }
        fits := fits && AccumulateFits(req.major, input);
        req.major := Accumulate(req.major, input);
      case MinorStart =>
        if !IsDigit(input) { return Bad; }
        fits := fits && AccumulateFits(req.minor, input);
        req.minor := Accumulate(req.minor, input);
        state := Minor;
      case Minor =>
        if input == '\r' { state := Newline1; return; }
        if !IsDigit(input) { return Bad; }
        fits := fits && AccumulateFits(req.minor, input);
        req.minor := Accumulate(req.minor, input);
      case Newline1 =>
        if input != '\n' { return Bad; }
        state := LineStart;
      case LineStart =>
        if input == '\r' { state := Newline3; return; }
        if req.headers != [] && IsBlank(input) { state := Lws; return; }
        if !IsTokenByte(input) { return Bad; }
        req.headers := req.headers + [Header([], [])];
        req.headers := ExtendLastName(req.headers, [input]);
        assert [] + [input] == [input];
        assert req.headers == old(req.headers) + [Header([input], [])];
        state := Name;
      case Lws =>
        if input == '\r' { state := Newline2; return; }
        if IsBlank(input) { return; }
        if IsCtl(input) { return Bad; }
        state := Value;
        req.headers := ExtendLastValue(req.headers, [input]);
      case Name =>
        if input == ':' { state := SpaceBeforeValue; return; }
        if !IsTokenByte(input) { return Bad; }
        req.headers := ExtendLastName(req.headers, [input]);
      case SpaceBeforeValue =>
        if input != ' ' { return Bad; }
        state := Value;
      case Value =>
        if input == '\r' { state := Newline2; return; }
        if IsCtl(input) { return Bad; }
        req.headers := ExtendLastValue(req.headers, [input]);
      case Newline2 =>
        if input != '\n' { return Bad; }
        state := LineStart;
      case Newline3 =>
        v := if input == '\n' then Good else Bad;
    }

    /** One call of parse on the bytes `input`; `consumed` is how far the iterator moved. */
    method Parse(req: Request, input: Str) returns (v: Verdict, consumed: nat)
      requires BackIsSafe(View(req))
      modifies this, req`verb, req`uri, req`major, req`minor, req`headers
      ensures Outcome(View(req), v, consumed) == Run(old(View(req)), input)
    {
      consumed := 0;
      ghost var start := View(req);
      while consumed < |input|
        invariant consumed <= |input|
        invariant BackIsSafe(View(req))
        invariant var rest := Run(View(req), input[consumed..]);
                  Run(start, input) == rest.(consumed := consumed + rest.consumed)
      {
        ghost var before := View(req);
        v := Consume(req, input[consumed]);
        assert input[consumed..][1..] == input[consumed + 1..];
        consumed := consumed + 1;
        if v == Good || v == Bad {
          return;
        }
      }
      v := Indeterminate;
    }
  }
}
